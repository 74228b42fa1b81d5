/**
 * Translation-key prefixing (`rtr`), the language fallback chain of `ntr` and
 * the dictionary translator of `dtr` (my_plugin/utils.py).
 *
 * The host's translation service is a parameter `HostTr`: given a key, a
 * requested language (None: the host's default) and the `allow_failure` flag
 * it either returns a text or raises KeyError/ValueError, shown as None. The
 * format arguments are part of that function.
 */
module Translation {
  import opened Outcomes
  import opened PyStr

  const EnUs := "en_us"

  type HostTr = (string, Option<string>, bool) -> Option<string>

  predicate StartsWith(s: string, p: string)
  {
    p <= s
  }

  /** The key `rtr` hands to the host: `<plugin-id>.` put in front unless already there. */
  function PrefixKey(pluginId: string, key: string, withPrefix: bool): (k: string)
    ensures !withPrefix ==> k == key
    ensures withPrefix ==> StartsWith(k, pluginId + ".")
    ensures StartsWith(key, pluginId + ".") ==> k == key
    ensures withPrefix && !StartsWith(key, pluginId + ".") ==> k[|pluginId| + 1..] == key
  {
    var prefix := pluginId + ".";
    if withPrefix && !StartsWith(key, prefix) then prefix + key else key
  }

  /** Prefixing a key twice is prefixing it once. */
  lemma PrefixKeyIdempotent(pluginId: string, key: string, withPrefix: bool)
    ensures PrefixKey(pluginId, PrefixKey(pluginId, key, withPrefix), withPrefix)
         == PrefixKey(pluginId, key, withPrefix)
  {
  }

  /** The function the host calls to translate a lazily translated text. */
  datatype Translator =
    | NtrTranslator                                   // `ntr`
    | HelpTranslator(prefixes: Option<seq<seq<string>>>)  // `htr`'s `__htr`
    | DictTranslator(dict: map<string, string>)       // `dtr`'s `fake_tr`

  /** A host translation object: its key and the translator set on it. */
  datatype LazyText = LazyText(key: string, translator: Translator)

  /** `rtr(key, with_prefix=...)`: a host translation of the prefixed key, translated by `ntr`. */
  function Rtr(pluginId: string, key: string, withPrefix: bool): (t: LazyText)
    ensures t.translator == NtrTranslator
    ensures withPrefix ==> StartsWith(t.key, pluginId + ".")
    ensures !withPrefix ==> t.key == key
    ensures t.key == PrefixKey(pluginId, key, withPrefix)
  {
    LazyText(PrefixKey(pluginId, key, withPrefix), NtrTranslator)
  }

  // ---------------------------------------------------------------------------
  // Order-preserving deduplication (the loop building `languages` in `ntr`)

  predicate NoDups<T(==)>(xs: seq<T>)
  {
    forall i, j :: 0 <= i < j < |xs| ==> xs[i] != xs[j]
  }

  /** The elements of `xs`, each kept at its first occurrence. */
  function Distinct<T(==)>(xs: seq<T>): seq<T>
  {
    if xs == [] then []
    else
      var init := xs[..|xs| - 1];
      var last := xs[|xs| - 1];
      Distinct(init) + (if last in Distinct(init) then [] else [last])
  }

  /** The index of the first occurrence of `x` in `xs`. */
  function FirstIndex<T(==)>(xs: seq<T>, x: T): (i: nat)
    requires x in xs
    ensures i < |xs| && xs[i] == x
    ensures forall k :: 0 <= k < i ==> xs[k] != x
  {
    if xs[0] == x then 0 else 1 + FirstIndex(xs[1..], x)
  }

  /** Appending one element to the input appends it to the deduplication unless already there. */
  lemma DistinctSnoc<T>(init: seq<T>, last: T)
    ensures Distinct(init + [last]) == Distinct(init) + (if last in Distinct(init) then [] else [last])
  {
    var xs := init + [last];
    assert xs[..|xs| - 1] == init;
  }

  /**
   * Deduplication keeps exactly the elements of the input, without repeats,
   * no longer than the input and starting with its first element.
   */
  lemma {:induction false} DistinctSpec<T>(xs: seq<T>)
    ensures NoDups(Distinct(xs))
    ensures forall x :: x in Distinct(xs) <==> x in xs
    ensures |Distinct(xs)| <= |xs|
    ensures xs != [] ==> Distinct(xs) != [] && Distinct(xs)[0] == xs[0]
    decreases |xs|
  {
    if xs != [] {
      var init := xs[..|xs| - 1];
      var last := xs[|xs| - 1];
      assert xs == init + [last];
      DistinctSpec(init);
      DistinctSnoc(init, last);
      if init != [] {
        assert init[0] == xs[0];
      }
    }
  }

  /** Deduplication lists the elements in the order of their first occurrence. */
  lemma {:induction false} DistinctOrder<T>(xs: seq<T>)
    ensures forall i, j :: 0 <= i < j < |Distinct(xs)| ==>
              Distinct(xs)[i] in xs && Distinct(xs)[j] in xs &&
              FirstIndex(xs, Distinct(xs)[i]) < FirstIndex(xs, Distinct(xs)[j])
    decreases |xs|
  {
    DistinctSpec(xs);
    if xs != [] {
      var init := xs[..|xs| - 1];
      var last := xs[|xs| - 1];
      assert xs == init + [last];
      DistinctSpec(init);
      DistinctOrder(init);
      DistinctSnoc(init, last);
      var d := Distinct(init);
      forall y | y in init ensures FirstIndex(xs, y) == FirstIndex(init, y) {
        FirstIndexPrefix(xs, init, y);
      }
      if last !in d {
        forall k | 0 <= k < |xs| - 1 ensures xs[k] != last {
          assert xs[k] == init[k];
        }
        forall i | 0 <= i < |d| ensures FirstIndex(xs, d[i]) < |xs| - 1 {
          assert d[i] in init;
        }
      }
    }
  }

  /** In a sequence that extends `p`, an element of `p` is first found where it is in `p`. */
  lemma FirstIndexPrefix<T>(xs: seq<T>, p: seq<T>, y: T)
    requires p <= xs && y in p
    ensures FirstIndex(xs, y) == FirstIndex(p, y)
  {
    var a, b := FirstIndex(xs, y), FirstIndex(p, y);
    assert xs[b] == y;
    forall k | 0 <= k < b ensures xs[k] != y {
      assert xs[k] == p[k];
    }
  }

  /** The loop at lines 108-111: append each item not yet in the list. */
  method Dedup<T(==)>(xs: seq<T>) returns (ys: seq<T>)
    ensures ys == Distinct(xs)
  {
    ys := [];
    var i := 0;
    while i < |xs|
      invariant 0 <= i <= |xs|
      invariant ys == Distinct(xs[..i])
    {
      assert xs[..i + 1][..i] == xs[..i];
      if xs[i] !in ys {
        ys := ys + [xs[i]];
      }
      i := i + 1;
    }
    assert xs[..i] == xs;
  }

  // ---------------------------------------------------------------------------
  // ntr

  /** The languages `ntr` names when both lookups fail, before joining. */
  function FailureLanguages(language: Option<string>, server: string): seq<Option<string>>
  {
    Distinct([language, Some(server), Some(EnUs)])
  }

  /** `', '.join(languages)`: TypeError when the list holds None. */
  function JoinLanguages(langs: seq<Option<string>>): (r: Result<string>)
  {
    if None in langs then Err(TypeError)
    else Ok(Join(seq(|langs|, i requires 0 <= i < |langs| => langs[i].GetOr("")), ", "))
  }

  function LogText(key: string, languages: string): string
  {
    "Error translate text \"" + key + "\" to language " + languages
  }

  function NotFoundText(key: string, languages: string): string
  {
    "Translation key \"" + key + "\" not found with language " + languages
  }

  /** What `ntr` does: return a text, log and return None, or raise. */
  datatype Reply =
    | Translated(text: string)
    | Logged(message: string)   // logged as an error; `ntr` returns None
    | Raised(error: Error)

  /**
   * `ntr(key, language=..., allow_failure=...)`: the requested language (never
   * failure-tolerant), then `en_us` unless the server language is `en_us`, then
   * a log line or a KeyError naming the languages.
   */
  function NtrReply(tr: HostTr, server: string, key: string, language: Option<string>,
                    allowFailure: bool): Reply
  {
    match tr(key, language, false)
    case Some(t) => Translated(t)
    case None =>
      var second := if server == EnUs then None else tr(key, Some(EnUs), allowFailure);
      match second
      case Some(t) => Translated(t)
      case None =>
        match JoinLanguages(FailureLanguages(language, server))
        case Err(e) => Raised(e)
        case Ok(names) =>
          if allowFailure then Logged(LogText(key, names))
          else Raised(KeyError(NotFoundText(key, names)))
  }

  /** `ntr`, as the source runs it. */
  method Ntr(tr: HostTr, server: string, key: string, language: Option<string>, allowFailure: bool)
    returns (r: Reply)
    ensures r == NtrReply(tr, server, key, language, allowFailure)
  {
    var first := tr(key, language, false);
    if first.Some? {
      return Translated(first.value);
    }
    var second: Option<string> := None;
    if server != EnUs {
      second := tr(key, Some(EnUs), allowFailure);
    }
    if second.Some? {
      return Translated(second.value);
    }
    var languages := Dedup([language, Some(server), Some(EnUs)]);
    var names := JoinLanguages(languages);
    if names.Err? {
      return Raised(names.error);
    }
    if allowFailure {
      r := Logged(LogText(key, names.value));
    } else {
      r := Raised(KeyError(NotFoundText(key, names.value)));
    }
  }

  /**
   * The lookup order of `ntr`: it translates exactly when the requested language
   * succeeds or, on a server whose language is not `en_us`, `en_us` does, and
   * the earlier success wins; otherwise it logs when failure is allowed and
   * raises when not.
   */
  lemma NtrLookupOrder(tr: HostTr, server: string, key: string, language: Option<string>,
                       allowFailure: bool)
    ensures var r := NtrReply(tr, server, key, language, allowFailure);
      && (r.Translated? <==>
            tr(key, language, false).Some?
            || (server != EnUs && tr(key, Some(EnUs), allowFailure).Some?))
      && (tr(key, language, false).Some? ==> r.text == tr(key, language, false).value)
      && ((tr(key, language, false).None? && server != EnUs && tr(key, Some(EnUs), allowFailure).Some?)
            ==> r.text == tr(key, Some(EnUs), allowFailure).value)
      && (!r.Translated? && language.Some? ==> (r.Logged? <==> allowFailure))
      && (!r.Translated? && language.None? ==> r == Raised(TypeError))
    ensures var r := NtrReply(tr, server, key, language, allowFailure);
      var joined := JoinLanguages(FailureLanguages(language, server));
      !r.Translated? && language.Some? ==>
        && joined.Ok?
        && r == (if allowFailure then Logged(LogText(key, joined.value))
                 else Raised(KeyError(NotFoundText(key, joined.value))))
  {
    FailureLanguagesSpec(language, server);
  }

  /**
   * On an `en_us` server the reply of `ntr` depends only on the first lookup,
   * whatever language it asked for: no further lookup is made.
   */
  lemma NtrSkipsEnUsOnEnUsServer(tr: HostTr, tr': HostTr, key: string, language: Option<string>,
                                 allowFailure: bool)
    requires tr(key, language, false) == tr'(key, language, false)
    ensures NtrReply(tr, EnUs, key, language, allowFailure)
         == NtrReply(tr', EnUs, key, language, allowFailure)
  {
  }

  /**
   * The languages named on failure: the requested one, the server's and
   * `en_us`, each once, in that order of first appearance, at most three,
   * `en_us` always among them; joining them fails exactly when the requested
   * language is None.
   */
  lemma FailureLanguagesSpec(language: Option<string>, server: string)
    ensures var l := FailureLanguages(language, server);
      && NoDups(l)
      && 1 <= |l| <= 3
      && l[0] == language
      && Some(EnUs) in l
      && (forall x :: x in l <==> x == language || x == Some(server) || x == Some(EnUs))
      && (JoinLanguages(l).Err? <==> language.None?)
  {
    var xs := [language, Some(server), Some(EnUs)];
    DistinctSpec(xs);
  }

  // ---------------------------------------------------------------------------
  // dtr's fake_tr

  const FailedText := "<Translation failed>"

  /** `translation_dict.get(language)`. */
  function Lookup(dict: map<string, string>, language: Option<string>): Option<string>
  {
    if language.Some? && language.value in dict then Some(dict[language.value]) else None
  }

  /** `fallback_language`: the server language, then `en_us` unless it or the requested language is `en_us`. */
  function Candidates(server: string, language: Option<string>): seq<string>
  {
    [server] + (if server != EnUs && language != Some(EnUs) then [EnUs] else [])
  }

  /** The first candidate present in the dictionary. */
  function FirstPresent(dict: map<string, string>, cands: seq<string>): (r: Option<string>)
    ensures r.Some? ==> r.value in dict && r.value in cands
  {
    if cands == [] then None
    else if cands[0] in dict then Some(cands[0])
    else FirstPresent(dict, cands[1..])
  }

  /** `fake_tr`'s outcome; `fmt` stands for `str.format` / `RTextBase.format` with the call's arguments. */
  function DictReply(dict: map<string, string>, fmt: string -> string, server: string,
                     language: Option<string>, allowFailure: bool): Result<string>
  {
    var cands := Candidates(server, language);
    match FirstPresent(dict, cands)
    case Some(l) => Ok(fmt(dict[l]))
    case None =>
      if allowFailure then Ok(FailedText) else Err(DictKeyError(language, cands))
  }

  /** `fake_tr`, as the source runs it. */
  method FakeTr(dict: map<string, string>, fmt: string -> string, server: string,
                language: Option<string>, allowFailure: bool) returns (r: Result<string>)
    ensures r == DictReply(dict, fmt, server, language, allowFailure)
  {
    var result := Lookup(dict, language);
    var fallback := [server];
    if EnUs !in fallback && Some(EnUs) != language {
      fallback := fallback + [EnUs];
    }
    var i := 0;
    while i < |fallback|
      invariant 0 <= i <= |fallback|
      invariant fallback == Candidates(server, language)
      invariant FirstPresent(dict, fallback) == FirstPresent(dict, fallback[i..])
      invariant i > 0 ==> result.None?
    {
      result := Lookup(dict, Some(fallback[i]));
      if result.Some? {
        return Ok(fmt(result.value));
      }
      assert fallback[i..][1..] == fallback[i + 1..];
      i := i + 1;
    }
    // the check at line 153 always holds: the loop ran at least once
    assert result.None?;
    if allowFailure {
      return Ok(FailedText);
    }
    r := Err(DictKeyError(language, fallback));
  }

  /**
   * The first present candidate: present, a candidate, and every earlier
   * candidate absent; None exactly when no candidate is present.
   */
  lemma {:induction false} FirstPresentSpec(dict: map<string, string>, cands: seq<string>)
    ensures FirstPresent(dict, cands).None? <==> forall i :: 0 <= i < |cands| ==> cands[i] !in dict
    ensures FirstPresent(dict, cands).Some? ==>
      exists i :: 0 <= i < |cands| && cands[i] == FirstPresent(dict, cands).value && cands[i] in dict
        && forall j :: 0 <= j < i ==> cands[j] !in dict
    decreases |cands|
  {
    if cands != [] && cands[0] !in dict {
      FirstPresentSpec(dict, cands[1..]);
      if FirstPresent(dict, cands).Some? {
        var i :| 0 <= i < |cands[1..]| && cands[1..][i] == FirstPresent(dict, cands).value
          && cands[1..][i] in dict && forall j :: 0 <= j < i ==> cands[1..][j] !in dict;
        assert cands[i + 1] == cands[1..][i];
        forall j | 0 <= j < i + 1 ensures cands[j] !in dict {
          if j > 0 { assert cands[j] == cands[1..][j - 1]; }
        }
      } else {
        forall i | 0 <= i < |cands| ensures cands[i] !in dict {
          if i > 0 { assert cands[i] == cands[1..][i - 1]; }
        }
      }
    }
  }

  /**
   * The candidates: the server language first, then `en_us` exactly when
   * neither the server language nor the requested language is `en_us`.
   */
  lemma CandidatesShape(server: string, language: Option<string>)
    ensures var c := Candidates(server, language);
      && 1 <= |c| <= 2 && c[0] == server && NoDups(c)
      && (|c| == 2 <==> server != EnUs && language != Some(EnUs))
      && (EnUs in c <==> server == EnUs || language != Some(EnUs))
  {
  }

  /** An entry for a language that is not a candidate never matters. */
  lemma {:induction false} FirstPresentIgnores(dict: map<string, string>, cands: seq<string>,
                                               l: string, v: string)
    requires l !in cands
    ensures FirstPresent(dict[l := v], cands) == FirstPresent(dict, cands)
    decreases |cands|
  {
    if cands != [] {
      FirstPresentIgnores(dict, cands[1..], l, v);
    }
  }

  /**
   * The requested language's own entry, read at line 142 and then overwritten,
   * changes nothing unless that language is also a candidate: with a server on
   * `zh_cn` and `en_us` requested, an `en_us` entry is never used.
   */
  lemma DictIgnoresRequested(dict: map<string, string>, fmt: string -> string, server: string,
                             language: string, allowFailure: bool, v: string)
    requires language !in Candidates(server, Some(language))
    ensures DictReply(dict[language := v], fmt, server, Some(language), allowFailure)
         == DictReply(dict, fmt, server, Some(language), allowFailure)
  {
    var cands := Candidates(server, Some(language));
    FirstPresentIgnores(dict, cands, language, v);
    match FirstPresent(dict, cands)
    case None =>
    case Some(l) =>
      FirstPresentSpec(dict, cands);
      assert l != language;
  }

  /**
   * Every candidate absent: "<Translation failed>" when failure is allowed,
   * a KeyError naming the requested language and the candidates otherwise;
   * a present candidate gives the formatted entry of the first one.
   */
  lemma DictReplyCases(dict: map<string, string>, fmt: string -> string, server: string,
                       language: Option<string>, allowFailure: bool)
    ensures var cands := Candidates(server, language);
      var r := DictReply(dict, fmt, server, language, allowFailure);
      && ((forall i :: 0 <= i < |cands| ==> cands[i] !in dict) ==>
            r == (if allowFailure then Ok(FailedText) else Err(DictKeyError(language, cands))))
      && (server in dict ==> r == Ok(fmt(dict[server])))
      && ((server !in dict && EnUs in dict && server != EnUs && language != Some(EnUs))
            ==> r == Ok(fmt(dict[EnUs])))
  {
    FirstPresentSpec(dict, Candidates(server, language));
  }

  /** `dtr(dict)`: a host translation with an empty key, translated by `fake_tr` over `dict`. */
  function Dtr(dict: map<string, string>): (t: LazyText)
    ensures t.key == [] && t.translator.DictTranslator? && t.translator.dict == dict
  {
    LazyText("", DictTranslator(dict))
  }
}
