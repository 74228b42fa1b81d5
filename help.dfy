/**
 * `htr`: help text whose lines that name a command after the grey colour code
 * (U+00A7 followed by `7`)
 * become "suggest command" items (`__htr` and `__get_regex_result`,
 * my_plugin/utils.py).
 *
 * The pattern `(?<=\xa77)PREFIX[\S ]*?(?=\xa7)` is modelled for a PREFIX that is
 * literal text: the match starts right after the colour code, begins with the prefix and
 * runs lazily over non-whitespace-or-space characters up to the next U+00A7.
 */
module Help {
  import opened Outcomes
  import opened PyStr
  import opened Translation

  const SectionSign: char := 0xA7 as char
  const Grey: string := [SectionSign, '7']

  /** Python's `\s` on `str`: the characters for which `str.isspace()` holds. */
  predicate IsWhitespace(c: char)
  {
    var n := c as int;
    || 0x09 <= n <= 0x0D || 0x1C <= n <= 0x20 || n == 0x85 || n == 0xA0 || n == 0x1680
    || 0x2000 <= n <= 0x200A || n == 0x2028 || n == 0x2029 || n == 0x202F || n == 0x205F
    || n == 0x3000
  }

  /** The class `[\S ]`. */
  predicate InRunClass(c: char)
  {
    c == ' ' || !IsWhitespace(c)
  }

  /** The lazy run that starts at `q` ends at `e`: the first U+00A7 from `q`, reached over `[\S ]` only. */
  predicate RunTo(line: string, q: nat, e: nat)
  {
    && q <= e < |line|
    && line[e] == SectionSign
    && forall j :: q <= j < e ==> line[j] != SectionSign && InRunClass(line[j])
  }

  /** Where `[\S ]*?(?=\xa7)` stops when started at `q`, if it matches at all. */
  function RunEnd(line: string, q: nat): (r: Option<nat>)
    requires q <= |line|
    decreases |line| - q
    ensures r.Some? ==> RunTo(line, q, r.value)
  {
    if q == |line| then None
    else if line[q] == SectionSign then Some(q)
    else if InRunClass(line[q]) then RunEnd(line, q + 1)
    else None
  }

  lemma {:induction false} RunEndSpec(line: string, q: nat)
    requires q <= |line|
    ensures forall e: nat :: RunEnd(line, q) == Some(e) <==> RunTo(line, q, e)
    ensures RunEnd(line, q).None? <==> forall e: nat :: !RunTo(line, q, e)
    decreases |line| - q
  {
    if q < |line| && line[q] != SectionSign {
      if InRunClass(line[q]) {
        RunEndSpec(line, q + 1);
        forall e: nat ensures RunTo(line, q, e) <==> RunTo(line, q + 1, e) {
        }
      } else {
        forall e: nat ensures !RunTo(line, q, e) {
          if q < e {
            assert !(line[q] != SectionSign && InRunClass(line[q]));
          }
        }
      }
    }
  }

  /** The match of the pattern for `prefix` that starts at position `p`, if any. */
  function MatchAt(line: string, prefix: string, p: nat): Option<string>
    requires p <= |line|
  {
    if 2 <= p && line[p - 2..p] == Grey && p + |prefix| <= |line| && line[p..p + |prefix|] == prefix then
      match RunEnd(line, p + |prefix|)
      case Some(e) => Some(line[p..e])
      case None => None
    else None
  }

  /**
   * A match at `p` is exactly a piece of the line preceded by the colour code `Grey` and
   * followed by U+00A7, beginning with the prefix, whose remainder holds no U+00A7 and no
   * whitespace other than the space.
   */
  lemma MatchAtSpec(line: string, prefix: string, p: nat, m: string)
    requires p <= |line|
    ensures MatchAt(line, prefix, p) == Some(m) <==>
      && 2 <= p && line[p - 2..p] == Grey
      && p + |m| < |line| && line[p..p + |m|] == m && line[p + |m|] == SectionSign
      && prefix <= m
      && forall j :: |prefix| <= j < |m| ==> m[j] != SectionSign && InRunClass(m[j])
  {
    if 2 <= p && line[p - 2..p] == Grey && p + |prefix| <= |line| && line[p..p + |prefix|] == prefix {
      var q := p + |prefix|;
      RunEndSpec(line, q);
      if p + |m| < |line| && line[p..p + |m|] == m && prefix <= m {
        assert RunTo(line, q, p + |m|) <==>
          line[p + |m|] == SectionSign
          && forall j :: |prefix| <= j < |m| ==> m[j] != SectionSign && InRunClass(m[j]) by {
          forall j | |prefix| <= j < |m| ensures m[j] == line[p + j] { }
          forall j | q <= j < p + |m| ensures line[j] == m[j - p] { }
        }
      }
      if MatchAt(line, prefix, p) == Some(m) {
        var e := RunEnd(line, q).value;
        assert m == line[p..e];
        assert line[p..p + |prefix|] == m[..|prefix|];
      }
    } else if prefix <= m && 2 <= p && p + |m| < |line| && line[p..p + |m|] == m {
      assert line[p..p + |prefix|] == m[..|prefix|];
    }
  }

  /** `re.search`: the match at the leftmost position from `p` on. */
  function SearchFrom(line: string, prefix: string, p: nat): Option<string>
    requires p <= |line|
    decreases |line| - p
  {
    if MatchAt(line, prefix, p).Some? then MatchAt(line, prefix, p)
    else if p == |line| then None
    else SearchFrom(line, prefix, p + 1)
  }

  function Search(line: string, prefix: string): Option<string>
  {
    SearchFrom(line, prefix, 0)
  }

  /** The search result is the match at the leftmost position that has one; None when none has. */
  lemma SearchLeftmost(line: string, prefix: string)
    ensures Search(line, prefix).Some? ==>
      exists p :: 0 <= p <= |line| && MatchAt(line, prefix, p) == Search(line, prefix)
        && forall p' :: 0 <= p' < p ==> MatchAt(line, prefix, p').None?
    ensures Search(line, prefix).None? <==> forall p :: 0 <= p <= |line| ==> MatchAt(line, prefix, p).None?
  {
    SearchFromLeftmost(line, prefix, 0);
  }

  lemma {:induction false} SearchFromLeftmost(line: string, prefix: string, start: nat)
    requires start <= |line|
    ensures SearchFrom(line, prefix, start).Some? ==>
      exists p :: start <= p <= |line| && MatchAt(line, prefix, p) == SearchFrom(line, prefix, start)
        && forall p' :: start <= p' < p ==> MatchAt(line, prefix, p').None?
    ensures SearchFrom(line, prefix, start).None? <==>
      forall p :: start <= p <= |line| ==> MatchAt(line, prefix, p).None?
    decreases |line| - start
  {
    var here := MatchAt(line, prefix, start);
    if here.Some? {
      assert SearchFrom(line, prefix, start) == here;
    } else if start == |line| {
      assert SearchFrom(line, prefix, start).None?;
    } else {
      var found := SearchFrom(line, prefix, start + 1);
      assert SearchFrom(line, prefix, start) == found;
      SearchFromLeftmost(line, prefix, start + 1);
      if found.Some? {
        var p :| start + 1 <= p <= |line| && MatchAt(line, prefix, p) == found
          && forall p' :: start + 1 <= p' < p ==> MatchAt(line, prefix, p').None?;
        assert forall p' :: start <= p' < p ==> MatchAt(line, prefix, p').None?;
      } else {
        assert forall p :: start <= p <= |line| ==> MatchAt(line, prefix, p).None?;
      }
    }
  }

  // ---------------------------------------------------------------------------
  // Trying the prefixes in order (`__get_regex_result`)

  /** The prefixes of every entry, entry after entry. */
  function Flatten(groups: seq<seq<string>>): seq<string>
  {
    if groups == [] then [] else groups[0] + Flatten(groups[1..])
  }

  /** The search result for the first prefix that has one. */
  function FirstHit(line: string, ps: seq<string>): Option<string>
  {
    if ps == [] then None
    else if Search(line, ps[0]).Some? then Search(line, ps[0])
    else FirstHit(line, ps[1..])
  }

  /**
   * `__get_regex_result(line)`: for each entry of `prefixes`, for each prefix in
   * it, the first search that succeeds; TypeError when `prefixes` is None.
   */
  method RegexResult(line: string, prefixes: Option<seq<seq<string>>>) returns (r: Result<Option<string>>)
    ensures prefixes.None? ==> r == Err(TypeError)
    ensures prefixes.Some? ==> r == Ok(FirstHit(line, Flatten(prefixes.value)))
  {
    if prefixes.None? {
      return Err(TypeError);
    }
    var groups := prefixes.value;
    var i := 0;
    while i < |groups|
      invariant 0 <= i <= |groups|
      invariant FirstHit(line, Flatten(groups)) == FirstHit(line, Flatten(groups[i..]))
    {
      var group := groups[i];
      assert groups[i..][1..] == groups[i + 1..];
      assert Flatten(groups[i..]) == group + Flatten(groups[i + 1..]);
      var j := 0;
      while j < |group|
        invariant 0 <= j <= |group|
        invariant FirstHit(line, Flatten(groups)) == FirstHit(line, group[j..] + Flatten(groups[i + 1..]))
      {
        var result := Search(line, group[j]);
        assert (group[j..] + Flatten(groups[i + 1..]))[0] == group[j];
        if result.Some? {
          return Ok(result);
        }
        assert (group[j..] + Flatten(groups[i + 1..]))[1..] == group[j + 1..] + Flatten(groups[i + 1..]);
        j := j + 1;
      }
      assert group[j..] + Flatten(groups[i + 1..]) == Flatten(groups[i + 1..]);
      i := i + 1;
    }
    return Ok(None);
  }

  /**
   * The first hit: some prefix's search succeeds exactly when there is a hit,
   * and the hit is the search result of the first such prefix.
   */
  lemma {:induction false} FirstHitSpec(line: string, ps: seq<string>)
    ensures FirstHit(line, ps).None? <==> forall k :: 0 <= k < |ps| ==> Search(line, ps[k]).None?
    ensures FirstHit(line, ps).Some? ==>
      exists k :: 0 <= k < |ps| && Search(line, ps[k]) == FirstHit(line, ps)
        && forall j :: 0 <= j < k ==> Search(line, ps[j]).None?
    decreases |ps|
  {
    if ps != [] && Search(line, ps[0]).None? {
      FirstHitSpec(line, ps[1..]);
      if FirstHit(line, ps).Some? {
        var k :| 0 <= k < |ps[1..]| && Search(line, ps[1..][k]) == FirstHit(line, ps)
          && forall j :: 0 <= j < k ==> Search(line, ps[1..][j]).None?;
        assert ps[k + 1] == ps[1..][k];
        forall j | 0 <= j < k + 1 ensures Search(line, ps[j]).None? {
          if j > 0 { assert ps[j] == ps[1..][j - 1]; }
        }
      } else {
        forall k | 0 <= k < |ps| ensures Search(line, ps[k]).None? {
          if k > 0 { assert ps[k] == ps[1..][k - 1]; }
        }
      }
    }
  }

  // ---------------------------------------------------------------------------
  // Line post-processing (`__htr`)

  /** One output line: kept as it is, or a line that suggests `command` when clicked. */
  datatype Item = Plain(line: string) | Suggest(line: string, command: string)

  /** What `__htr` makes of one line. */
  function LineItem(line: string, ps: seq<string>): Item
  {
    match FirstHit(line, ps)
    case Some(m) => Suggest(line, m + " ")
    case None => Plain(line)
  }

  /**
   * An item keeps its line; it suggests a command exactly when some prefix
   * matches, and the command is the match for the first such prefix followed
   * by a space.
   */
  lemma LineItemSpec(line: string, ps: seq<string>)
    ensures LineItem(line, ps).line == line
    ensures LineItem(line, ps).Suggest? <==> exists k :: 0 <= k < |ps| && Search(line, ps[k]).Some?
    ensures LineItem(line, ps).Suggest? ==>
      var c := LineItem(line, ps).command;
      && |c| >= 1 && c[|c| - 1] == ' '
      && exists k :: 0 <= k < |ps| && Search(line, ps[k]) == Some(c[..|c| - 1])
           && forall j :: 0 <= j < k ==> Search(line, ps[j]).None?
  {
    FirstHitSpec(line, ps);
    if FirstHit(line, ps).Some? {
      var m := FirstHit(line, ps).value;
      assert (m + " ")[..|m|] == m;
    }
  }

  /** The loop of `__htr` over the lines of the translated text. */
  method ProcessLines(lines: seq<string>, prefixes: Option<seq<seq<string>>>) returns (r: Result<seq<Item>>)
    ensures prefixes.None? ==> r == (if lines == [] then Ok([]) else Err(TypeError))
    ensures prefixes.Some? ==> r.Ok? && |r.value| == |lines|
    ensures prefixes.Some? ==>
      forall i :: 0 <= i < |lines| ==> r.value[i] == LineItem(lines[i], Flatten(prefixes.value))
  {
    var processed: seq<Item> := [];
    var i := 0;
    while i < |lines|
      invariant 0 <= i <= |lines|
      invariant prefixes.None? ==> i == 0
      invariant |processed| == i
      invariant prefixes.Some? ==>
        forall k :: 0 <= k < i ==> processed[k] == LineItem(lines[k], Flatten(prefixes.value))
    {
      var result := RegexResult(lines[i], prefixes);
      if result.Err? {
        return Err(result.error);
      }
      if result.value.Some? {
        processed := processed + [Suggest(lines[i], result.value.value + " ")];
      } else {
        processed := processed + [Plain(lines[i])];
      }
      i := i + 1;
    }
    r := Ok(processed);
  }

  /** What `__htr` hands back: the key alone, or the processed lines. */
  datatype HelpText = KeyOnly(key: string) | Lines(items: seq<Item>)

  /** The outcome of `__htr(key, ...)`, built on `ntr`. */
  function HelpReply(tr: HostTr, server: string, key: string, language: Option<string>,
                     allowFailure: bool, prefixes: Option<seq<seq<string>>>): Result<HelpText>
  {
    match NtrReply(tr, server, key, language, allowFailure)
    case Raised(e) => Err(e)
    case Logged(_) => Ok(KeyOnly(key))
    case Translated(t) =>
      var lines := SplitLines(t);
      if prefixes.None? && lines != [] then Err(TypeError)
      else Ok(Lines(seq(|lines|, i requires 0 <= i < |lines| => LineItem(lines[i], Flatten(prefixes.GetOr([]))))))
  }

  /** `__htr`, as the source runs it. */
  method HelpTranslate(tr: HostTr, server: string, key: string, language: Option<string>,
                       allowFailure: bool, prefixes: Option<seq<seq<string>>>) returns (r: Result<HelpText>)
    ensures r == HelpReply(tr, server, key, language, allowFailure, prefixes)
  {
    var original := Ntr(tr, server, key, language, allowFailure);
    if original.Raised? {
      return Err(original.error);
    }
    if !original.Translated? {
      return Ok(KeyOnly(key));
    }
    var lines := SplitLines(original.text);
    var processed := ProcessLines(lines, prefixes);
    if processed.Err? {
      return Err(processed.error);
    }
    ghost var expected := seq(|lines|, i requires 0 <= i < |lines| => LineItem(lines[i], Flatten(prefixes.GetOr([]))));
    assert processed.value == expected;
    r := Ok(Lines(processed.value));
  }

  /**
   * `__htr` keeps the lines of the translation, one item each, in order, none
   * holding a line break; when `ntr` only logged, it yields the key itself.
   */
  lemma HelpReplySpec(tr: HostTr, server: string, key: string, language: Option<string>,
                      allowFailure: bool, prefixes: seq<seq<string>>)
    ensures var reply := NtrReply(tr, server, key, language, allowFailure);
      var r := HelpReply(tr, server, key, language, allowFailure, Some(prefixes));
      && (reply.Logged? ==> r == Ok(KeyOnly(key)))
      && (reply.Raised? ==> r == Err(reply.error))
      && (reply.Translated? ==>
            && r.Ok? && r.value.Lines?
            && |r.value.items| == |SplitLines(reply.text)|
            && forall i :: 0 <= i < |r.value.items| ==>
                 && r.value.items[i].line == SplitLines(reply.text)[i]
                 && forall k :: 0 <= k < |r.value.items[i].line| ==> !IsLineBreak(r.value.items[i].line[k]))
  {
    var reply := NtrReply(tr, server, key, language, allowFailure);
    if reply.Translated? {
      var lines := SplitLines(reply.text);
      SplitLinesHaveNoBreaks(reply.text);
      forall i | 0 <= i < |lines| ensures LineItem(lines[i], Flatten(prefixes)).line == lines[i] {
        LineItemSpec(lines[i], Flatten(prefixes));
      }
    }
  }

  /** `htr(key, prefixes=...)`: the translation `rtr` builds, translated by `__htr` instead. */
  function Htr(pluginId: string, key: string, withPrefix: bool, prefixes: Option<seq<seq<string>>>): (t: LazyText)
    ensures t.key == Rtr(pluginId, key, withPrefix).key
    ensures t.translator == HelpTranslator(prefixes)
  {
    LazyText(Rtr(pluginId, key, withPrefix).key, HelpTranslator(prefixes))
  }
}
