/**
 * The string helpers of the plugin: `capitalize`, `to_camel_case` and
 * `get_thread_prefix` (my_plugin/utils.py).
 */
module Naming {
  import opened Outcomes
  import opened PyStr

  /** `str.upper()` of one character, on the ASCII letters. */
  function Upper(c: char): char
  {
    if 'a' <= c <= 'z' then (c as int - 32) as char else c
  }

  /** `str.lower()` of one character, on the ASCII letters. */
  function Lower(c: char): char
  {
    if 'A' <= c <= 'Z' then (c as int + 32) as char else c
  }

  /** The word with its first character upper-cased. */
  function Capitalized(w: string): string
    requires w != []
  {
    [Upper(w[0])] + w[1..]
  }

  /** The word with its first character lower-cased. */
  function LowerFirst(w: string): string
    requires w != []
  {
    [Lower(w[0])] + w[1..]
  }

  predicate AllNonEmpty(ws: seq<string>)
  {
    forall k :: 0 <= k < |ws| ==> ws[k] != []
  }

  function CapitalizeAll(ws: seq<string>): (caps: seq<string>)
    requires AllNonEmpty(ws)
  {
    seq(|ws|, k requires 0 <= k < |ws| => Capitalized(ws[k]))
  }

  /**
   * `capitalize(s)`: copies the string into a character list and upper-cases
   * entry 0, which raises IndexError on the empty string.
   */
  method Capitalize(s: string) returns (r: Result<string>)
    ensures r.Err? <==> s == []
    ensures r.Err? ==> r.error == IndexError
    ensures r.Ok? ==> |r.value| == |s| && r.value[0] == Upper(s[0]) && r.value[1..] == s[1..]
    ensures r.Ok? ==> r.value == Capitalized(s)
  {
    var chars := new char[|s|](i requires 0 <= i < |s| => s[i]);
    if chars.Length == 0 {
      return Err(IndexError);
    }
    chars[0] := Upper(chars[0]);
    r := Ok(chars[..]);
  }

  /**
   * What `to_camel_case(s, d, upper)` computes: `s.split(d)` (ValueError when `d`
   * is empty), each piece capitalised (IndexError on an empty piece), the first
   * word's first character lower-cased when `upper` is false, all concatenated.
   */
  function CamelCase(s: string, d: string, upper: bool): Result<string>
  {
    if d == [] then Err(ValueError)
    else
      var ws := Split(s, d);
      if !AllNonEmpty(ws) then Err(IndexError)
      else
        var caps := CapitalizeAll(ws);
        if upper then Ok(Join(caps, ""))
        else Ok(Join(caps[0 := LowerFirst(caps[0])], ""))
  }

  /** `to_camel_case(string, divider, upper)`, step by step as the source does it. */
  method ToCamelCase(s: string, d: string, upper: bool) returns (r: Result<string>)
    ensures r == CamelCase(s, d, upper)
  {
    if d == [] {
      return Err(ValueError);
    }
    var items := Split(s, d);
    var words: seq<string> := [];
    var i := 0;
    while i < |items|
      invariant 0 <= i <= |items|
      invariant AllNonEmpty(items[..i])
      invariant words == CapitalizeAll(items[..i])
    {
      var c := Capitalize(items[i]);
      if c.Err? {
        return c;
      }
      assert items[..i + 1] == items[..i] + [items[i]];
      words := words + [c.value];
      i := i + 1;
    }
    assert items[..i] == items;
    if !upper {
      var first := words[0];
      var chars := new char[|first|](k requires 0 <= k < |first| => first[k]);
      chars[0] := Lower(chars[0]);
      assert chars[..] == LowerFirst(first);
      words := words[0 := chars[..]];
    }
    r := Ok(Join(words, ""));
  }

  /**
   * With `upper` false the result fails exactly when the `upper` result fails,
   * and otherwise differs from it only in its first character, lower-cased.
   */
  lemma CamelCaseLowerVariant(s: string, d: string)
    ensures CamelCase(s, d, false).Ok? <==> CamelCase(s, d, true).Ok?
    ensures CamelCase(s, d, true).Ok? ==>
      var u := CamelCase(s, d, true).value;
      u != [] && CamelCase(s, d, false).value == [Lower(u[0])] + u[1..]
  {
    if d != [] && AllNonEmpty(Split(s, d)) {
      var caps := CapitalizeAll(Split(s, d));
      var low := caps[0 := LowerFirst(caps[0])];
      JoinHead(caps);
      JoinHead(low);
      assert low[1..] == caps[1..];
    }
  }

  /** The concatenation starts with the first word. */
  lemma JoinHead(ws: seq<string>)
    requires |ws| >= 1
    ensures Join(ws, "") == ws[0] + Join(ws[1..], "")
  {
  }

  /** Capitalising keeps every word's length. */
  lemma {:induction false} CapitalizeAllLength(ws: seq<string>)
    requires AllNonEmpty(ws)
    ensures TotalLength(CapitalizeAll(ws)) == TotalLength(ws)
    decreases |ws|
  {
    if ws != [] {
      assert AllNonEmpty(ws[1..]) by {
        forall k | 0 <= k < |ws[1..]| ensures ws[1..][k] != [] {
          assert ws[1..][k] == ws[k + 1];
        }
      }
      CapitalizeAllLength(ws[1..]);
      assert CapitalizeAll(ws)[1..] == CapitalizeAll(ws[1..]);
    }
  }

  /**
   * The camel-cased string is as long as the input less one divider length
   * per divider found.
   */
  lemma CamelCaseLength(s: string, d: string, upper: bool)
    ensures CamelCase(s, d, upper).Ok? ==>
      d != [] && |CamelCase(s, d, upper).value| == |s| - (|Split(s, d)| - 1) * |d|
  {
    if CamelCase(s, d, true).Ok? {
      var ws := Split(s, d);
      JoinSplit(s, d);
      JoinLength(ws, d);
      JoinLength(CapitalizeAll(ws), "");
      CapitalizeAllLength(ws);
      CamelCaseLowerVariant(s, d);
    }
  }

  /** `s` has no empty `c`-separated segment. */
  predicate WellSeparated(s: string, c: char)
  {
    && s != []
    && s[0] != c
    && s[|s| - 1] != c
    && forall i :: 0 <= i < |s| - 1 ==> !(s[i] == c && s[i + 1] == c)
  }

  lemma AllNonEmptyCons(w: string, ws: seq<string>)
    ensures AllNonEmpty([w] + ws) <==> w != [] && AllNonEmpty(ws)
  {
    var v := [w] + ws;
    assert v[0] == w;
    assert forall k :: 0 <= k < |ws| ==> ws[k] == v[k + 1];
  }

  /** With the first `c` of `s` at `i`, `s` is well separated exactly when `i > 0` and the rest after it is. */
  lemma WellSeparatedStep(s: string, c: char, i: nat)
    requires i < |s| && s[i] == c
    requires forall j :: 0 <= j < i ==> s[j] != c
    ensures WellSeparated(s, c) <==> i > 0 && WellSeparated(s[i + 1..], c)
  {
    var t := s[i + 1..];
    if WellSeparated(s, c) {
      assert t != [];
      assert t[0] == s[i + 1];
      assert t[|t| - 1] == s[|s| - 1];
      forall k | 0 <= k < |t| - 1 ensures !(t[k] == c && t[k + 1] == c) {
        assert t[k] == s[i + 1 + k] && t[k + 1] == s[i + 1 + k + 1];
      }
    }
    if i > 0 && WellSeparated(t, c) {
      assert s[|s| - 1] == t[|t| - 1];
      forall k | 0 <= k < |s| - 1 ensures !(s[k] == c && s[k + 1] == c) {
        if k > i {
          assert s[k] == t[k - i - 1] && s[k + 1] == t[k - i];
        } else if k == i {
          assert s[k + 1] == t[0];
        }
      }
    }
  }

  /**
   * Splitting on one character gives only non-empty segments exactly when the
   * string is non-empty, neither starts nor ends with it and never doubles it.
   */
  lemma {:induction false} SegmentsNonEmpty(s: string, c: char)
    ensures AllNonEmpty(Split(s, [c])) <==> WellSeparated(s, c)
    decreases |s|
  {
    FindCharSpec(s, c);
    match Find(s, [c], 0)
    case None =>
      assert Split(s, [c]) == [s];
      AllNonEmptyCons(s, []);
    case Some(i) =>
      var t := s[i + 1..];
      assert Split(s, [c]) == [s[..i]] + Split(t, [c]);
      AllNonEmptyCons(s[..i], Split(t, [c]));
      SegmentsNonEmpty(t, c);
      WellSeparatedStep(s, c, i);
  }

  /** `c` stays out of a join of words and separator that avoid it. */
  lemma {:induction false} JoinAvoids(ws: seq<string>, sep: string, c: char)
    requires forall w :: w in ws ==> c !in w
    requires c !in sep
    ensures c !in Join(ws, sep)
    decreases |ws|
  {
    if |ws| > 1 {
      JoinAvoids(ws[1..], sep, c);
    }
  }

  /**
   * Camel-casing on `_` succeeds exactly when the name has no empty segment,
   * and then yields the capitalised segments run together, free of `_`.
   */
  lemma CamelCaseUnderscore(name: string)
    ensures CamelCase(name, "_", true).Ok? <==> WellSeparated(name, '_')
    ensures CamelCase(name, "_", true).Ok? ==>
      && '_' !in CamelCase(name, "_", true).value
      && CamelCase(name, "_", true).value == Join(CapitalizeAll(Split(name, "_")), "")
  {
    SegmentsNonEmpty(name, '_');
    var ws := Split(name, "_");
    if AllNonEmpty(ws) {
      SplitPiecesFree(name, "_");
      var caps := CapitalizeAll(ws);
      forall w | w in caps ensures '_' !in w {
        var k :| 0 <= k < |caps| && caps[k] == w;
        assert ws[k] in ws;
        assert Free(ws[k], "_");
        forall j | 0 <= j < |ws[k]| ensures ws[k][j] != '_' {
          OccursAtChar(ws[k], '_', j);
        }
        assert w == [Upper(ws[k][0])] + ws[k][1..];
      }
      JoinAvoids(caps, "", '_');
    }
  }

  /**
   * `get_thread_prefix()` for the plugin name `name`: it exists exactly when
   * the name has no empty `_`-segment; it then ends with the one underscore it
   * holds, and dropping it leaves the capitalised segments of the name, in order.
   */
  function ThreadPrefix(name: string): (r: Result<string>)
    ensures r.Ok? <==> WellSeparated(name, '_')
    ensures r.Err? ==> r.error == IndexError
    ensures r.Ok? ==>
      var p := r.value;
      && |p| >= 1
      && p[|p| - 1] == '_'
      && '_' !in p[..|p| - 1]
      && AllNonEmpty(Split(name, "_"))
      && p[..|p| - 1] == Join(CapitalizeAll(Split(name, "_")), "")
  {
    CamelCaseUnderscore(name);
    match CamelCase(name, "_", true)
    case Err(e) => Err(e)
    case Ok(camel) =>
      assert (camel + "_")[..|camel|] == camel;
      Ok(camel + "_")
  }
}
