# Mistletoe utilities — a Dafny model

This project models the logic that the Mistletoe plugin for the MCDReforged
server wrapper writes itself, all of it in `my_plugin/utils.py`:

- **String helpers** (module `Naming`, on top of `PyStr`, which models the
  Python `str` built-ins `split`, `join` and `splitlines`): `capitalize`,
  `to_camel_case` and `get_thread_prefix`, including the IndexError on an empty
  segment and the ValueError of `str.split` on an empty divider.
- **Translation keys and fallbacks** (module `Translation`): the key prefixing of
  `rtr`, the fallback chain of `ntr` with its deduplicated language list, and
  the dictionary translator `fake_tr` built by `dtr`.
- **Help-text post-processing** (module `Help`): `htr`'s `__get_regex_result`,
  which finds a command after the grey colour code (U+00A7 followed by `7`), and `__htr`, which turns each
  line of a translated text into a plain item or a "suggest command" item.

The host's services are parameters: its translator is a function `HostTr`
from (key, requested language, `allow_failure`) to a text or None (None: the
host raised KeyError or ValueError); the server language, the plugin id and the
plugin name are plain inputs; the host's rich-text objects become the
datatypes `LazyText`, `Item` and `HelpText`. Python exceptions are `Err`
values of `Outcomes.Result`, except in `ntr`, whose replies are
`Translation.Reply` values: a raised exception is `Raised(error)` and "log and
return None" is `Logged(message)`.

The methods follow the source's loops (`Capitalize` and `ToCamelCase` edit a
character array as the source edits a character list, `ToCamelCase` running
the list comprehension of utils.py:120 as a loop; `Dedup` is the source's
appending loop (utils.py:108-111); `FakeTr` and `RegexResult` are loops with
early returns; `ProcessLines` appends one item per line) and are
proved equal to specification functions (`CamelCase`, `Distinct`, `NtrReply`,
`DictReply`, `FirstHit`, `LineItem`, `HelpReply`), about which the lemmas state
the properties.

Behaviour of the code that the model reproduces and proves:

- `ntr` called with `language=None` (its default) whose lookups both fail
  raises TypeError at `', '.join(languages)` (utils.py:112), because None is in
  the list; `FailureLanguagesSpec` proves the join fails exactly then.
- `fake_tr` reads the requested language's entry (utils.py:142) and then
  overwrites it: the requested language is never tried on its own. With the
  server on `zh_cn` and `en_us` requested, an `en_us` entry is not used at all
  (`DictIgnoresRequested`).
- `htr` with its default `prefixes=None` raises TypeError as soon as a line is
  processed.
- The nested loop of `__get_regex_result` iterates the members of each entry of
  `prefixes`; an entry that is a plain string is iterated character by
  character, so each of its characters is tried as a prefix. The model takes
  the entries as sequences of prefixes and proves the loop equal to trying the
  flattened sequence in order.

`ntr` tries the requested language and then `en_us` (the server language only
decides whether `en_us` is tried), and `fake_tr` tries the server language and
then `en_us`, unless the server or the requested language is `en_us`.

## Model

| member | source | states |
|---|---|---|
| `Naming.Capitalize` | my_plugin/utils.py:128-131 | IndexError exactly on the empty string; otherwise same length, character 0 upper-cased, the rest unchanged |
| `Naming.ToCamelCase` | my_plugin/utils.py:119-125 | the result is the concatenation of the capitalised `d`-segments (first character lower-cased when `upper` is false); ValueError on an empty divider, IndexError when a segment is empty |
| `Naming.CamelCaseLowerVariant` | my_plugin/utils.py:121-125 | the `upper=False` result fails exactly when the `upper=True` one does and otherwise differs from it only by its lower-cased first character |
| `Naming.CamelCaseLength` | my_plugin/utils.py:120-125 | a camel-cased result is the input's length minus one divider length per divider found |
| `Naming.SegmentsNonEmpty` | my_plugin/utils.py:120 | all segments of a split on one character are non-empty exactly when the string is non-empty, neither starts nor ends with it and never doubles it |
| `Naming.CamelCaseUnderscore` | my_plugin/utils.py:119-125 | camel-casing on `_` succeeds exactly for names without an empty `_`-segment and then gives the capitalised segments run together, with no `_` left |
| `Naming.ThreadPrefix` | my_plugin/utils.py:50-51 | the thread prefix exists exactly for names without an empty `_`-segment; it is the capitalised segments followed by `_`, and that final `_` is its only underscore; IndexError otherwise |
| `Naming.CapitalizeAllLength` | my_plugin/utils.py:120 | capitalising the segments keeps their total length |
| `PyStr.Find` | my_plugin/utils.py:120 | the leftmost occurrence of the separator from a position, or none at all |
| `PyStr.JoinSplit` | my_plugin/utils.py:120 | `PyStr.Split` models `s.split(d)`; joining its segments with `d` gives `s` back |
| `PyStr.SplitPiecesFree` | my_plugin/utils.py:120 | no segment of `s.split(d)` contains `d` |
| `PyStr.FindCharSpec` | my_plugin/utils.py:120 | for a one-character divider, the occurrence found is the first position holding it, and none is found exactly when it does not occur |
| `PyStr.SplitJoin` | my_plugin/utils.py:120 | for a one-character divider, splitting undoes joining segments free of it |
| `PyStr.JoinLength` | my_plugin/utils.py:125 | a join is as long as its pieces plus the separators between them |
| `PyStr.SplitLinesHaveNoBreaks` | my_plugin/utils.py:33 | no line given by `splitlines` holds a line-break character |
| `PyStr.SplitLinesJoin` | my_plugin/utils.py:33 | `PyStr.SplitLines` models `str.splitlines`; for a text whose only line breaks are `\n`, joining the lines of `splitlines` with `\n` gives back the text without its final `\n`: the lines cover the text in order |
| `Translation.PrefixKey` | my_plugin/utils.py:55-57 | with `with_prefix` the key starts with `<id>.`, a key already carrying it is unchanged and any other key follows the prefix intact; without it the key is untouched |
| `Translation.PrefixKeyIdempotent` | my_plugin/utils.py:55-57 | prefixing twice equals prefixing once |
| `Translation.Rtr` | my_plugin/utils.py:54-58 | `rtr` builds a host translation whose translator is `ntr` and whose key is `PrefixKey` of the arguments: `<plugin id>.<key>` when prefixing is on and the key lacks that prefix, the key itself otherwise |
| `Translation.Dedup` | my_plugin/utils.py:108-111 | the appending loop computes the order-preserving deduplication `Distinct` |
| `Translation.DistinctSpec` | my_plugin/utils.py:108-111 | the deduplication has no repeats, the same elements as its input, no more entries than it, and starts with the first input |
| `Translation.DistinctOrder` | my_plugin/utils.py:108-111 | the deduplication lists its elements in the order of their first occurrence in the input |
| `Translation.FirstIndex` | my_plugin/utils.py:110 | the first position holding an element |
| `Translation.FailureLanguagesSpec` | my_plugin/utils.py:108-112 | the failure message's languages are (requested, server, `en_us`) deduplicated: no repeats, one to three entries, the requested first, `en_us` always present; joining them fails exactly when the requested language is None |
| `Translation.Ntr` | my_plugin/utils.py:93-116 | `ntr` as the source runs it computes `NtrReply` |
| `Translation.NtrLookupOrder` | my_plugin/utils.py:95-116 | a text comes back exactly when the requested language succeeds or, on a server not on `en_us`, `en_us` does, the earlier success winning; otherwise, for a given language, it logs `Error translate text "<key>" to language <languages>` when failure is allowed and raises KeyError `Translation key "<key>" not found with language <languages>` when not, `<languages>` being the deduplicated requested, server and `en_us` languages joined by `, `; TypeError for a None language |
| `Translation.NtrSkipsEnUsOnEnUsServer` | my_plugin/utils.py:100-103 | on an `en_us` server the reply depends only on the first lookup |
| `Translation.FakeTr` | my_plugin/utils.py:135-158 | `fake_tr` as the source runs it computes `DictReply`: the formatted entry of the first candidate the dictionary holds: the server language, then `en_us` unless the server or the requested language is `en_us`; otherwise the failure text when failure is allowed and KeyError when not |
| `Translation.FirstPresent` | my_plugin/utils.py:146-148 | the chosen language is in the dictionary and among the candidates |
| `Translation.FirstPresentSpec` | my_plugin/utils.py:146-152 | the chosen language is the first candidate present; none is chosen exactly when no candidate is present |
| `Translation.CandidatesShape` | my_plugin/utils.py:143-145 | the candidates are the server language, then `en_us` exactly when neither the server nor the requested language is `en_us` |
| `Translation.FirstPresentIgnores` | my_plugin/utils.py:146-148 | an entry for a non-candidate language never changes the choice |
| `Translation.DictIgnoresRequested` | my_plugin/utils.py:142-152 | the requested language's own entry changes nothing unless it is a candidate |
| `Translation.DictReplyCases` | my_plugin/utils.py:146-158 | the server language's entry wins when present, else `en_us`'s when it is a candidate; with no candidate present the reply is `<Translation failed>` or a KeyError as `allow_failure` says |
| `Translation.Dtr` | my_plugin/utils.py:160 | `dtr` builds a host translation with an empty key translated by `fake_tr` over the dictionary |
| `Help.RunEnd` | my_plugin/utils.py:21 | where the lazy `[\S ]*?(?=\xa7)` part ends, a U+00A7 reached over run characters only |
| `Help.RunEndSpec` | my_plugin/utils.py:21 | the lazy run ends at the first U+00A7 when only `[\S ]` characters come before it, and fails otherwise |
| `Help.MatchAtSpec` | my_plugin/utils.py:21-24 | a match at a position is exactly a piece right after the grey colour code, before the next U+00A7, starting with the prefix, whose remainder holds no U+00A7 and no whitespace but spaces |
| `Help.SearchLeftmost` | my_plugin/utils.py:24 | `re.search` returns the match at the leftmost position that has one, and None exactly when no position has one |
| `Help.SearchFromLeftmost` | my_plugin/utils.py:24 | the same from any starting position |
| `Help.RegexResult` | my_plugin/utils.py:20-27 | the nested loop returns the first hit over the flattened prefixes; TypeError when `prefixes` is None |
| `Help.FirstHitSpec` | my_plugin/utils.py:22-27 | there is a hit exactly when some prefix matches, and it is the match of the first such prefix |
| `Help.LineItemSpec` | my_plugin/utils.py:34-40 | each item keeps its line; it is a suggestion exactly when some prefix matches, with command = first prefix's match + `' '` |
| `Help.ProcessLines` | my_plugin/utils.py:33-40 | one item per line, in order, each the line's `LineItem`; TypeError for None prefixes unless there is no line |
| `Help.HelpTranslate` | my_plugin/utils.py:29-41 | `__htr` as the source runs it computes `HelpReply` |
| `Help.HelpReplySpec` | my_plugin/utils.py:30-41 | a logged `ntr` failure yields the key itself, a raised one propagates, a text yields one item per line of it, each keeping its line |
| `Help.Htr` | my_plugin/utils.py:43 | `htr` builds the translation `rtr` would, with `__htr` as its translator |

## Left out

- `named_thread` (utils.py:61-90): it spawns a host `FunctionThread` and logs exceptions; concurrency and host calls. Only its use of `get_thread_prefix` is modelled.
- `debug_log` and the host logger: a log call is recorded as the `Logged(message)` reply of `ntr` and not otherwise.
- Host services: `gl_server.tr` is the `HostTr` parameter (its behaviour with `allow_failure=True` is whatever that function says), `get_mcdr_language` is the `server` parameter, the plugin metadata are the `pluginId` and `name` parameters; module-level initialisation (`gl_server`, `TRANSLATION_KEY_PREFIX`, `DEBUG`) is host lookup and is not modelled.
- Rich text: `RText`, `RTextBase.join`, `RAction` and the hover text `rtr('hover.suggest', command)` are not modelled; a suggestion is the `Suggest(line, command)` item. Host translations that are rich text rather than `str` are not modelled, so the "not a string" case of `__htr` is `ntr`'s None.
- `str.format` and `RTextBase.format` (utils.py:149-152) are the opaque `fmt` parameter of `FakeTr`; formatting errors are not modelled. The positional and keyword arguments of the translators live inside `HostTr` and `fmt`.
- `Naming.Capitalize`: upper- and lower-casing are modelled on ASCII letters only; Python's full Unicode case mapping (where one character may become several) is not modelled.
- `Help.MatchAtSpec`: a prefix is treated as literal text; regular-expression syntax inside a prefix, which the source interpolates unescaped, is not interpreted.
- `Translation.DictReplyCases`: the KeyError message of `fake_tr` is kept as its parts (requested language and candidates); the dictionary's printed form is not modelled.
- Exceptions other than those listed in `Outcomes.Error` (e.g. raised inside the host) are not modelled.
- my_plugin/core.py (command registration, reload, reply) is host plumbing and is not part of this model.
