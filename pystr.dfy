/**
 * Models of the Python `str` built-ins the plugin relies on: `sep.join`,
 * `str.split(sep)` and `str.splitlines()`.
 */
module PyStr {
  import opened Outcomes

  /** `sep.join(ws)`. */
  function Join(ws: seq<string>, sep: string): string
  {
    if |ws| == 0 then []
    else if |ws| == 1 then ws[0]
    else ws[0] + sep + Join(ws[1..], sep)
  }

  /** The summed lengths of the strings. */
  function TotalLength(ws: seq<string>): nat
  {
    if ws == [] then 0 else |ws[0]| + TotalLength(ws[1..])
  }

  /** A join is as long as its pieces and the separators between them. */
  lemma {:induction false} JoinLength(ws: seq<string>, sep: string)
    requires |ws| >= 1
    ensures |Join(ws, sep)| == TotalLength(ws) + (|ws| - 1) * |sep|
    decreases |ws|
  {
    if |ws| > 1 {
      JoinLength(ws[1..], sep);
      assert (|ws| - 1) * |sep| == (|ws| - 2) * |sep| + |sep|;
    }
  }

  /** `d` occurs in `s` starting at index `i`. */
  predicate OccursAt(s: string, d: string, i: nat)
  {
    i + |d| <= |s| && s[i..i + |d|] == d
  }

  /** `d` occurs nowhere in `w`. */
  predicate Free(w: string, d: string)
  {
    forall j :: 0 <= j <= |w| ==> !OccursAt(w, d, j)
  }

  /** The leftmost occurrence of `d` in `s` at or after `k` (`str.find(d, k)`). */
  function Find(s: string, d: string, k: nat): (r: Option<nat>)
    requires k <= |s|
    decreases |s| - k
    ensures r.Some? ==> k <= r.value && OccursAt(s, d, r.value)
    ensures r.Some? ==> forall j :: k <= j < r.value ==> !OccursAt(s, d, j)
    ensures r.None? ==> forall j: nat :: k <= j ==> !OccursAt(s, d, j)
  {
    if k + |d| > |s| then None
    else if s[k..k + |d|] == d then Some(k)
    else Find(s, d, k + 1)
  }

  /** `s.split(d)` for a non-empty separator: the pieces between leftmost occurrences. */
  function Split(s: string, d: string): (ws: seq<string>)
    requires d != []
    ensures |ws| >= 1
    decreases |s|
  {
    match Find(s, d, 0)
    case None => [s]
    case Some(i) => [s[..i]] + Split(s[i + |d|..], d)
  }

  /** Joining the pieces with the separator gives back the string. */
  lemma {:induction false} JoinSplit(s: string, d: string)
    requires d != []
    ensures Join(Split(s, d), d) == s
    decreases |s|
  {
    match Find(s, d, 0)
    case None =>
    case Some(i) =>
      var rest := s[i + |d|..];
      var tail := Split(rest, d);
      JoinSplit(rest, d);
      assert Split(s, d) == [s[..i]] + tail;
      JoinCons(s[..i], tail, d);
      assert s[i..i + |d|] == d;
      assert s == s[..i] + s[i..i + |d|] + rest;
  }

  /** Joining a non-empty tail after one more piece. */
  lemma JoinCons(w: string, ws: seq<string>, sep: string)
    requires |ws| >= 1
    ensures Join([w] + ws, sep) == w + sep + Join(ws, sep)
  {
    assert ([w] + ws)[1..] == ws;
  }

  /** No piece contains the separator. */
  lemma {:induction false} SplitPiecesFree(s: string, d: string)
    requires d != []
    ensures forall w :: w in Split(s, d) ==> Free(w, d)
    decreases |s|
  {
    match Find(s, d, 0)
    case None =>
      assert Split(s, d) == [s];
    case Some(i) =>
      var rest := s[i + |d|..];
      SplitPiecesFree(rest, d);
      assert Split(s, d) == [s[..i]] + Split(rest, d);
      forall j | 0 <= j <= i ensures !OccursAt(s[..i], d, j) {
        if OccursAt(s[..i], d, j) {
          assert s[..i][j..j + |d|] == s[j..j + |d|];
          assert OccursAt(s, d, j);
        }
      }
  }

  /** For a one-character separator, `Find` is the first position holding that character. */
  lemma FindChar(s: string, c: char, n: nat)
    requires n <= |s|
    requires forall j :: 0 <= j < n ==> s[j] != c
    requires n < |s| ==> s[n] == c
    ensures Find(s, [c], 0) == if n < |s| then Some(n) else None
  {
    forall j | 0 <= j < n ensures !OccursAt(s, [c], j) {
      OccursAtChar(s, c, j);
    }
    OccursAtChar(s, c, n);
  }

  /** What `Find` reports for a one-character separator. */
  lemma FindCharSpec(s: string, c: char)
    ensures Find(s, [c], 0).Some? ==>
      var i := Find(s, [c], 0).value;
      i < |s| && s[i] == c && forall j :: 0 <= j < i ==> s[j] != c
    ensures Find(s, [c], 0).None? ==> forall j :: 0 <= j < |s| ==> s[j] != c
  {
    forall j | 0 <= j < |s| ensures OccursAt(s, [c], j) <==> s[j] == c {
      OccursAtChar(s, c, j);
    }
  }

  /** For a one-character separator, splitting undoes joining pieces that avoid it. */
  lemma {:induction false} SplitJoin(ws: seq<string>, c: char)
    requires |ws| >= 1
    requires forall w :: w in ws ==> c !in w
    ensures Split(Join(ws, [c]), [c]) == ws
    decreases |ws|
  {
    var s := Join(ws, [c]);
    var w := ws[0];
    assert w in ws;
    if |ws| == 1 {
      FindChar(s, c, |s|);
      assert Split(s, [c]) == [s];
    } else {
      var rest := Join(ws[1..], [c]);
      assert s == w + [c] + rest;
      forall j | 0 <= j < |w| ensures s[j] != c {
        assert s[j] == w[j];
      }
      FindChar(s, c, |w|);
      assert s[..|w|] == w;
      assert s[|w| + 1..] == rest;
      assert Split(s, [c]) == [w] + Split(rest, [c]);
      forall v | v in ws[1..] ensures c !in v {
        assert v in ws;
      }
      SplitJoin(ws[1..], c);
      assert [w] + ws[1..] == ws;
    }
  }

  /** A one-character separator occurs exactly where that character is. */
  lemma OccursAtChar(s: string, c: char, j: nat)
    ensures OccursAt(s, [c], j) <==> j < |s| && s[j] == c
  {
    if j < |s| {
      assert s[j..j + 1] == [s[j]];
    }
  }

  /** A character at which `str.splitlines` ends a line. */
  predicate IsLineBreak(c: char)
  {
    c as int in {0x0A, 0x0B, 0x0C, 0x0D, 0x1C, 0x1D, 0x1E, 0x85, 0x2028, 0x2029}
  }

  /** The index of the first line break at or after `i`, or `|s|`. */
  function LineEnd(s: string, i: nat): (e: nat)
    requires i <= |s|
    decreases |s| - i
    ensures i <= e <= |s|
    ensures e < |s| ==> IsLineBreak(s[e])
    ensures forall j :: i <= j < e ==> !IsLineBreak(s[j])
  {
    if i == |s| || IsLineBreak(s[i]) then i else LineEnd(s, i + 1)
  }

  /** `s.splitlines()`: "\r\n" ends one line, a final break yields no empty last line. */
  function SplitLines(s: string): seq<string>
    decreases |s|
  {
    if s == [] then []
    else
      var e := LineEnd(s, 0);
      if e == |s| then [s]
      else
        var next := if s[e] == '\r' && e + 1 < |s| && s[e + 1] == '\n' then e + 2 else e + 1;
        [s[..e]] + SplitLines(s[next..])
  }

  /** No line holds a line break. */
  lemma {:induction false} SplitLinesHaveNoBreaks(s: string)
    ensures forall l, k :: l in SplitLines(s) && 0 <= k < |l| ==> !IsLineBreak(l[k])
    decreases |s|
  {
    if s != [] {
      var e := LineEnd(s, 0);
      if e < |s| {
        var next := if s[e] == '\r' && e + 1 < |s| && s[e + 1] == '\n' then e + 2 else e + 1;
        SplitLinesHaveNoBreaks(s[next..]);
        assert SplitLines(s) == [s[..e]] + SplitLines(s[next..]);
      }
    }
  }

  /** A non-empty text has at least one line. */
  lemma SplitLinesNonEmpty(s: string)
    requires s != []
    ensures SplitLines(s) != []
  {
  }

  /** The characters after position `e` of a text whose only break is `\n` have that property too. */
  lemma OnlyNewlinesAfter(s: string, e: nat)
    requires e <= |s|
    requires forall k :: 0 <= k < |s| && IsLineBreak(s[k]) ==> s[k] == '\n'
    ensures forall k :: 0 <= k < |s[e..]| && IsLineBreak(s[e..][k]) ==> s[e..][k] == '\n'
  {
    forall k | 0 <= k < |s[e..]| && IsLineBreak(s[e..][k]) ensures s[e..][k] == '\n' {
      assert s[e..][k] == s[e + k];
    }
  }

  /** Dropping a final `\n` commutes with putting a line and a `\n` in front. */
  lemma StripAfterLine(s: string, e: nat)
    requires e < |s| - 1
    ensures var rest := s[e + 1..];
      (if s[|s| - 1] == '\n' then s[..|s| - 1] else s)
        == s[..e] + [s[e]] + (if rest[|rest| - 1] == '\n' then rest[..|rest| - 1] else rest)
  {
    var rest := s[e + 1..];
    assert rest[|rest| - 1] == s[|s| - 1];
    assert s == s[..e] + [s[e]] + rest;
    assert s[..|s| - 1] == s[..e] + [s[e]] + rest[..|rest| - 1];
  }

  /**
   * When every line break in the text is `\n`, joining the lines with `\n`
   * gives back the text without its final `\n`: no character is lost or moved.
   */
  lemma {:induction false} SplitLinesJoin(s: string)
    requires forall k :: 0 <= k < |s| && IsLineBreak(s[k]) ==> s[k] == '\n'
    ensures Join(SplitLines(s), "\n") == if s != [] && s[|s| - 1] == '\n' then s[..|s| - 1] else s
    decreases |s|
  {
    if s != [] {
      var e := LineEnd(s, 0);
      if e < |s| {
        assert s[e] == '\n';
        var rest := s[e + 1..];
        assert SplitLines(s) == [s[..e]] + SplitLines(rest);
        if rest == [] {
          assert SplitLines(s) == [s[..e]];
        } else {
          OnlyNewlinesAfter(s, e + 1);
          SplitLinesJoin(rest);
          SplitLinesNonEmpty(rest);
          JoinCons(s[..e], SplitLines(rest), "\n");
          StripAfterLine(s, e);
        }
      }
    }
  }
}
