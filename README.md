# fast_psl suffix engine in Dafny

fast_psl answers public-suffix questions about domain names from the Public
Suffix List. This project models its core:

- **The rule normaliser** (`_process_psl_text`).
  - In strict mode it keeps only the ICANN block of the list text.
  - It splits the text into lines and drops empty lines and `//` comments.
  - It adds the punycode form of every rule whose form differs from the rule.
  - It reverses every key character by character, so that a longest-suffix match becomes a longest-prefix query on a trie.
- **The `PublicSuffixList` object.**
  - It holds the strict flag and the trie, both fixed at construction.
  - The trie is modelled as a set of keys.
  - Its `prefixes(q)` query becomes a function that lists, in ascending length, the keys that are prefixes of `q`.
- **The resolver** (`get_public_suffix`).
  - It optionally encodes the domain, then sanitises it (`strip()`, `lower()`, `rstrip(".")`) and reverses it.
  - It raises `ValueError` when no key is a prefix; otherwise it returns the last (longest) prefix, reversed back.
- **The decomposer** (`get_public_suffix_parts`).
  - It lower-cases the domain, resolves its suffix, and splits what is left on dots into `etld_plus_one` and `subdomain`.
  - Its result, the `etld_parts` dataclass (`domain`, `etld`, `etld_plus_one`, `subdomain`), is the datatype `Core.EtldParts`.
- **The helpers** of `fast_psl/helpers.py` and the older release under `build/lib`.

The modules follow the program:

| module | contents |
|---|---|
| `Wrappers` | Option and Result, with the three exceptions as error values |
| `PyStr` | the Python `str` built-ins the code relies on: `find`, `split`, `join`, `replace(x, "")`, `strip`/`lstrip`/`rstrip`, `lower` |
| `Helpers` | `fast_psl/helpers.py` |
| `Trie` | the marisa trie seen through `prefixes` |
| `Core` | `fast_psl/core.py` |
| `CoreProperties` | properties that relate several operations |
| `LegacyCore` | the inlined constructor of `build/lib/fast_psl/core.py` |

Several behaviours of the code are easy to misread. In each case the model follows the code:

- `reverse` is `domain[::-1]`, a reversal of characters, not of labels. So `telecom` ends in the key for `com` (`MatchIgnoresLabelBoundaries`).
- `sanitize_domain` removes every trailing dot (`rstrip(".")`), not exactly one.
- With conversion on, `to_punycode` runs before sanitising, not after.
- A leading dot is kept by sanitising, yet `.com` still resolves to `com`: the reversed query `moc.` starts with the key `moc` (`LeadingDotExample`).
- A missing begin marker in strict mode raises `IndexError` from `split(...)[1]`. It is modelled as the error `MissingBeginMarker`.
- The decomposer removes every occurrence of the suffix, not one occurrence at the tail. This is a finding, below. `GetPublicSuffixParts` models the code as written; `GetPublicSuffixPartsAtTail` beside it uses the corrected decomposition.
- The round trip `subdomain + "." + etld_plus_one == domain` does not hold for every domain. Besides the suffix occurring only at the end, the code as written also needs the part before the suffix to have no dot at either end, because `strip(".")` removes such dots (`LeadingDotLost`; the corrected decomposition loses it too, `LeadingDotLostAtTail`).

## Model

| member | source | states |
|---|---|---|
| PyStr.Find | fast_psl/helpers.py:40 | `find` returns the first index where the pattern occurs, or none when it occurs nowhere |
| PyStr.FindContains | fast_psl/helpers.py:40 | `find` succeeds exactly when the pattern occurs in the string |
| PyStr.Split | fast_psl/helpers.py:40 | `split` always yields at least one piece, so `parts[-1]` never fails |
| PyStr.SplitSingle | fast_psl/helpers.py:40 | `split` yields a single piece exactly when the separator is absent, which is when `[1]` raises |
| PyStr.Join | fast_psl/core.py:120-121 | `sep.join(parts)`: no parts give the empty string, a single part is returned as it is |
| PyStr.JoinSplit | fast_psl/core.py:119-121 | joining the pieces of a split with the separator gives back the string |
| PyStr.JoinSnoc | fast_psl/core.py:120-121 | joining one more piece appends the separator and that piece |
| PyStr.SplitPiecesAvoidSeparator | fast_psl/helpers.py:40 | no piece of a split contains the separator |
| PyStr.SplitPiecesOccur | fast_psl/helpers.py:40 | every piece of a split occurs in the split string |
| PyStr.SplitFirstIsPrefix | fast_psl/helpers.py:40 | the first piece is a prefix of the string: everything before the first separator |
| PyStr.RemoveAll | fast_psl/core.py:119 | `replace(pat, "")` never lengthens the string |
| PyStr.RemoveAllAbsent | fast_psl/core.py:119 | without an occurrence of the pattern, `replace` changes nothing |
| PyStr.RemoveAllAtFirst | fast_psl/core.py:119 | `replace` copies the string up to the first occurrence, cuts it and carries on after it |
| PyStr.RemoveAllSkipFirst | fast_psl/core.py:119 | without an occurrence at the head, `replace` keeps the first character |
| PyStr.FirstOccurrenceInTail | fast_psl/core.py:119 | the first occurrence past the head is, one place earlier, the first occurrence in the rest |
| PyStr.RemoveAllIsJoinOfSplit | fast_psl/core.py:119 | `s.replace(pat, "")` equals `"".join(s.split(pat))`: the pieces between the occurrences, in order |
| PyStr.RemoveAllShrinks | fast_psl/core.py:119 | one occurrence of the pattern shortens the result by at least the pattern's length |
| PyStr.RemoveAllShrinksTwice | fast_psl/core.py:119 | two non-overlapping occurrences both go: the result is shorter by twice the pattern's length |
| PyStr.RemoveAllOnlyAtTail | fast_psl/core.py:119 | a pattern that occurs only at the end is cut from the end and nothing else changes |
| PyStr.RemoveAllSelf | fast_psl/core.py:119 | removing a string from itself leaves nothing |
| PyStr.RFindUpTo | fast_psl/core.py:119 | corrected (see Findings, not in the code): the last occurrence at or before an index, or none when there is none |
| PyStr.RFind | fast_psl/core.py:119 | corrected (see Findings, not in the code): `rfind` returns the last index where the pattern occurs, or none when it occurs nowhere |
| PyStr.RemoveLast | fast_psl/core.py:119 | corrected (see Findings, not in the code): cutting the last occurrence shortens the string by the pattern's length; without one the string is unchanged |
| PyStr.RemoveLastAtTail | fast_psl/core.py:119 | corrected (see Findings, not in the code): a string that ends in the pattern loses exactly that tail |
| PyStr.RStrip | fast_psl/helpers.py:66 | `rstrip` keeps a prefix that does not end in a stripped character, and every removed character is one |
| PyStr.LStrip | fast_psl/helpers.py:66 | `lstrip` keeps a suffix that does not start with a stripped character, and every removed character is one |
| PyStr.Strip | fast_psl/helpers.py:66 | `strip` returns a slice of the string whose two ends are not stripped characters; every character removed in front of it, and (by `RStrip`) behind it, is a stripped one |
| PyStr.StripKeeps | fast_psl/helpers.py:66 | a string whose ends are already kept is unchanged by `strip` |
| PyStr.RStripSnocDropped | fast_psl/helpers.py:66 | a stripped character appended at the end makes no difference to `rstrip` |
| PyStr.LStripSnocKept | fast_psl/helpers.py:66 | a kept character appended at the end survives `lstrip` |
| PyStr.StripSnocKept | fast_psl/helpers.py:66 | a kept character appended after a kept end survives `strip` |
| PyStr.RStripCons | fast_psl/helpers.py:66 | a character put in front survives `rstrip` unless it is stripped and nothing else survives |
| PyStr.StripDropFirst | fast_psl/helpers.py:66 | a stripped character in front makes no difference to `strip` |
| PyStr.StripDropPrefix | fast_psl/helpers.py:66 | any run of stripped characters in front makes no difference to `strip` |
| PyStr.RStripDropSuffix | fast_psl/helpers.py:66 | any run of stripped characters at the end makes no difference to `rstrip` |
| PyStr.StripDropSurrounding | fast_psl/helpers.py:66 | stripped characters on both sides make no difference to `strip` |
| PyStr.IsSpace | fast_psl/helpers.py:66 | the characters `str.isspace` accepts, which `strip()` removes; none of them is a dot or a capital letter |
| PyStr.LowerChar | fast_psl/helpers.py:66 | a capital letter moves to its lower-case letter; every other character is kept |
| PyStr.Lower | fast_psl/helpers.py:66 | `lower()` keeps the length and lower-cases character by character |
| PyStr.LowerKeeps | fast_psl/core.py:114 | a string without capitals is unchanged by `lower()` |
| PyStr.LowerSnoc | fast_psl/helpers.py:66 | a non-capital appended at the end is kept by `lower()` |
| PyStr.LowerIdempotent | fast_psl/helpers.py:66 | lower-casing twice is lower-casing once |
| PyStr.SpaceLower | fast_psl/helpers.py:66 | lower-casing neither makes nor removes whitespace |
| PyStr.RStripSpaceLower | fast_psl/helpers.py:66 | `lower()` commutes with the `rstrip()` of whitespace |
| PyStr.LStripSpaceLower | fast_psl/helpers.py:66 | `lower()` commutes with the `lstrip()` of whitespace |
| Helpers.ToPunycode | fast_psl/helpers.py:42-46 | the codec's answer, or an encoding error exactly when the codec raises |
| Helpers.ShouldStorePunycode | fast_psl/helpers.py:48-52 | true exactly when the punycode form differs from the rule; an encoding error exactly when the codec raises |
| Helpers.Reverse | fast_psl/helpers.py:54-58 | reversal keeps the length |
| Helpers.ReverseInvolution | fast_psl/helpers.py:54-58 | reversing twice gives back the string |
| Helpers.ReverseInjective | fast_psl/helpers.py:54-58 | different strings have different reversals |
| Helpers.PrefixOfReverse | fast_psl/core.py:102-107 | a key is a prefix of the reversed query exactly when the key read back is a suffix of the query |
| Helpers.PrefixOfReverseToSuffix | fast_psl/core.py:103-107 | a prefix of the reversed query, read back, ends the query |
| Helpers.SuffixToPrefixOfReverse | fast_psl/core.py:103-107 | a suffix of the query, reversed, is a prefix of the reversed query |
| Helpers.SanitizeDomain | fast_psl/helpers.py:60-66 | the sanitised form has no trailing dot, no leading whitespace and no capitals; it is the stripped, lower-cased domain with only trailing dots removed |
| Helpers.SanitizeShape | fast_psl/helpers.py:66 | after `strip().lower()`, any prefix has no capitals and no leading whitespace |
| Helpers.SanitizeKeepsCanonical | fast_psl/helpers.py:60-66 | a domain already in sanitised form, leading dots included, is left unchanged |
| Helpers.SanitizeLeadingDot | fast_psl/helpers.py:62-64 | `.com` keeps its leading dot |
| Helpers.SanitizeIgnoresTrailingDot | fast_psl/helpers.py:66 | one more trailing dot after a domain with no trailing whitespace changes nothing |
| Helpers.TrailingDotSurvivesStrip | fast_psl/helpers.py:66 | `strip().lower()` keeps a trailing dot that follows no whitespace |
| Helpers.SanitizeIgnoresCase | fast_psl/helpers.py:66 | capital letters do not change the sanitised form |
| Helpers.SanitizeIgnoresSurroundingSpace | fast_psl/helpers.py:66 | whitespace around a domain does not change the sanitised form |
| Helpers.FilterPublicOrPrivateBlock | fast_psl/helpers.py:35-40 | it fails exactly when the begin marker is absent; the block it returns occurs in the text and contains neither marker |
| Helpers.BlockFacts | fast_psl/helpers.py:40 | the stripped block occurs in the text and contains neither marker |
| Helpers.BlockOccurs | fast_psl/helpers.py:40 | the stripped block occurs in the text |
| Helpers.BlockAvoids | fast_psl/helpers.py:40 | the stripped block contains neither marker |
| Helpers.BlockBetweenMarkers | fast_psl/helpers.py:35-40 | without a begin marker the filter fails; otherwise the block is the text after the first begin marker, cut at the next begin marker, then at the first end marker, then stripped |
| Trie.KeySet | fast_psl/core.py:28 | the trie holds exactly the listed keys |
| Trie.Prefixes | fast_psl/core.py:103 | `prefixes(q)` lists exactly the stored keys that are prefixes of `q`, in strictly ascending length |
| Trie.PrefixesUpTo | fast_psl/core.py:103 | the stored prefixes of `q` up to a length bound, in ascending length |
| Trie.LastPrefixIsLongest | fast_psl/core.py:103-107 | `search[-1]` is the longest stored key that is a prefix of the query |
| Trie.LongestMatchUnique | fast_psl/core.py:107 | the longest match is unique |
| Core.IsRule | fast_psl/core.py:86 | a line is kept exactly when it is non-empty and does not start with `//` |
| Core.SourceText | fast_psl/core.py:83-84 | without strict mode the whole text; in strict mode the ICANN block, which fails exactly when its begin marker is absent and otherwise occurs in the text and holds neither ICANN marker |
| Core.KeptLines | fast_psl/core.py:86 | the kept lines are exactly the non-empty lines that do not start with `//` |
| Core.PunycodeForms | fast_psl/core.py:88 | the forms are exactly the codec outputs that differ from their rule; the list fails exactly when the codec raises on some rule |
| Core.ReverseAll | fast_psl/core.py:91 | every key is reversed, in order |
| Core.ProcessPslText | fast_psl/core.py:82-93 | strict mode fails when the begin marker is absent; the keys are exactly the reversed rules and the reversed differing punycode forms; an encoding error exactly when the codec raises on some rule |
| Core.KeysOfRules | fast_psl/core.py:86-91 | a string is a key exactly when some rule line contributes it |
| Core.KeyHasRule | fast_psl/core.py:86-91 | every key comes from a rule line |
| Core.RuleHasKey | fast_psl/core.py:86-91 | every rule line contributes its keys |
| Core.Encode | fast_psl/core.py:100-101 | the domain is unchanged without conversion; with conversion, an encoding error exactly when the codec raises |
| Core.PublicSuffixList.constructor | fast_psl/core.py:22-28 | the new object holds the strict flag and the trie of the keys |
| Core.PublicSuffixList.FromText | fast_psl/core.py:18-28 | a new object with the keys of the normalised text, or the normaliser's error |
| Core.PublicSuffixList.GetPublicSuffix | fast_psl/core.py:95-108 | fails exactly when no key is a prefix of the reversed, sanitised query; otherwise returns the longest match read back, which ends the sanitised query |
| Core.PublicSuffixList.GetPublicSuffixParts | fast_psl/core.py:110-128 | as written: the lower-cased domain and its suffix, decomposed with `replace`; the codec's and the resolver's errors propagate |
| Core.PublicSuffixList.GetPublicSuffixPartsAtTail | fast_psl/core.py:110-128 | corrected (see Findings): the same, decomposed by cutting only the last occurrence of the suffix |
| Core.LongestSuffix | fast_psl/core.py:103-108 | `SuffixNotFound` exactly when no key is a prefix of the reversed query; otherwise the longest such key, read back, which ends the query |
| Core.LongestSuffixFacts | fast_psl/core.py:107 | the last prefix, reversed back, is the longest match and ends the query |
| Core.Assemble | fast_psl/core.py:119-121 | the eTLD+1 is a dot-free piece, a dot and the suffix; the subdomain is empty exactly when the remainder has no dot; the parts reassemble to the remainder, a dot and the suffix |
| Core.RebuildFacts | fast_psl/core.py:120-121 | the parts built around the last piece reassemble the remainder |
| Core.PiecesAroundLastDot | fast_psl/core.py:119-121 | the last piece of `split(".")` has no dot; the other pieces joined, a dot and the last piece give back the string |
| Core.Decompose | fast_psl/core.py:119-121 | as written: the eTLD+1 is a dot-free label, a dot and the suffix; the subdomain is empty exactly when the remainder has no dot; the parts reassemble to the domain with every occurrence of the suffix removed and dots stripped, then a dot and the suffix |
| Core.DecomposeAtTail | fast_psl/core.py:119-121 | corrected: the eTLD+1 is a dot-free label, a dot and the suffix; the subdomain is empty exactly when the remainder has no dot; the parts reassemble to the domain with only its last occurrence of the suffix removed, which is the tail when the domain ends in it |
| Core.StripJoiningDot | fast_psl/core.py:119 | a part with no dot at either end survives `strip(".")` once the joining dot is added |
| Core.DecomposeRoundTrip | fast_psl/core.py:119-121 | as written, the parts reassemble to the domain when the suffix occurs only at its end and the part before it has no dot at either end |
| Core.DecomposeAtTailRoundTrip | fast_psl/core.py:119-121 | corrected, the parts reassemble to the domain whenever it ends in a dot and the suffix and the part before has no dot at either end |
| Core.DecomposeAgreesAtTail | fast_psl/core.py:119 | the two decompositions agree when the suffix occurs only at the end |
| CoreProperties.StrictModeDropsRulesOutsideIcannBlock | fast_psl/core.py:83-91 | a rule outside the ICANN block, and no punycode form of a rule inside it, is a key in loose mode and not in strict mode |
| CoreProperties.LongestSuffixIsLongestReversedKey | fast_psl/core.py:99-108 | the resolver returns `t` exactly when `t` reversed is a key, `t` ends the query, and no key read back that ends the query is longer |
| CoreProperties.LongestSuffixNotFound | fast_psl/core.py:103-105 | the resolver raises exactly when no key, read back, ends the query |
| CoreProperties.QueryDependsOnlyOnSanitisedDomain | fast_psl/core.py:99-103 | without conversion, two domains with the same sanitised form get the same answer |
| CoreProperties.ResolvesTo | fast_psl/core.py:103-108 | a key read back that ends the query, with no longer one, is the answer |
| CoreProperties.ResolvesNowhere | fast_psl/core.py:104-105 | no key read back ends the query, so the resolver raises |
| CoreProperties.LongestMatchExample | fast_psl/core.py:103-107 | with keys for `c` and `b.c`, `a.b.c` resolves to `b.c` |
| CoreProperties.MatchIgnoresLabelBoundaries | fast_psl/core.py:103-107 | `telecom` resolves to `com`: matching is by characters, not labels |
| CoreProperties.LeadingDotExample | fast_psl/core.py:99-107 | `.c` resolves to `c` even though sanitising keeps the leading dot |
| CoreProperties.NotFoundExample | fast_psl/core.py:104-105 | `a.b.x` matches no key, so the resolver raises |
| CoreProperties.QueryIgnoresCase | fast_psl/core.py:99-102 | without conversion, capital letters do not change the answer |
| CoreProperties.QueryIgnoresTrailingDot | fast_psl/core.py:99-102 | without conversion, a trailing dot after a domain with no trailing whitespace does not change the answer |
| CoreProperties.QueryIgnoresSurroundingSpace | fast_psl/core.py:99-102 | without conversion, whitespace around the domain does not change the answer |
| CoreProperties.BareSuffixParts | fast_psl/core.py:119-121 | as written, a domain equal to its suffix has eTLD+1 `"." + etld` and no subdomain |
| CoreProperties.BareSuffixPartsAtTail | fast_psl/core.py:119-121 | corrected, a domain equal to its suffix decomposes in the same way |
| CoreProperties.ReplaceLosesEarlierOccurrence | fast_psl/core.py:119 | as written, an earlier whole occurrence of a suffix of two or more characters is removed too, so the parts reassemble to something shorter than the domain |
| CoreProperties.PartsRoundTrip | fast_psl/core.py:110-128 | as written, a lower-case domain `p + "." + etld` in which the suffix occurs only at the end and whose `p` has no dot at either end is rebuilt from its parts |
| CoreProperties.PartsRoundTripAtTail | fast_psl/core.py:110-128 | corrected, the same holds with no condition on other occurrences of the suffix |
| CoreProperties.CommunityCounterexample | fast_psl/core.py:119 | as written, `community.com` with suffix `com` does not reassemble to `community.com` |
| CoreProperties.CommunityAtTail | fast_psl/core.py:119-121 | corrected, `community.com` reassembles to itself |
| CoreProperties.LeadingDotLost | fast_psl/core.py:119 | as written, even when the suffix occurs only at the end, a part before it that starts with a dot loses it: the parts reassemble to something shorter than the domain |
| CoreProperties.LeadingDotLostAtTail | fast_psl/core.py:119 | corrected, a leading dot of the part before the suffix is lost in the same way |
| CoreProperties.StripLeadingDot | fast_psl/core.py:119 | `strip(".")` removes both the leading dot and the joining dot |
| LegacyCore.NewPublicSuffixList | build/lib/fast_psl/core.py:27-39 | the inlined constructor builds the same key set as the normaliser: exactly the reversed rules and the reversed differing punycode forms; its errors are the normaliser's |

## Left out

- Reading the list from a file or over the network is not modelled. This covers `get_local_public_suffix_list`, `fetch_remote_public_suffix_list` and the refresh script. The list text is a parameter.
- The constructor's choice between a saved trie, a file, a URL and the default is not modelled, and neither are the `from_*` factories that forward to it. `PublicSuffixList.FromText` stands for the `psl_text` route, and `from_marisa` (loading a saved trie) is out.
- `setup.py` is not modelled.
- The marisa trie's internals are not modelled. The trie is a set of keys, and `prefixes` returns the keys that are prefixes of the query in ascending length. That is the order the code relies on when it takes `search[-1]`.
- The IDNA codec is a parameter of type `string -> Option<string>`, where None stands for the exception it raises. Its encoding rules are not modelled.
- `ICANN_MARKERS` and `PRIVATE_MARKERS` are parameters. Their literal values are not modelled. Markers are non-empty by type, so the `ValueError` that `split("")` would raise is not modelled; the real markers are non-empty.
- `str.lower` is modelled on ASCII letters only. Unicode case mapping is not modelled.
- Wildcard (`*.`) and exception (`!`) rules are stored and matched as literal strings, as the code does. Their Public Suffix List semantics are not modelled.
- The normaliser calls the codec once per rule in `should_store_punycode`, and once more for each rule whose form is stored. The model does the same, and with a function as the codec both calls agree.
- `get_public_suffix` and `get_public_suffix_parts` of the older release (build/lib/fast_psl/core.py:41-74) are the same as in the current release. They are modelled once, by `Core.PublicSuffixList.GetPublicSuffix` and `Core.PublicSuffixList.GetPublicSuffixParts`.
- PyStr.RemoveAll: its contract states only that the result is no longer than the string. Its value is described by `RemoveAllIsJoinOfSplit` (`replace(pat, "")` is `"".join(split(pat))`), `RemoveAllAtFirst` and `RemoveAllAbsent`.
- PyStr.Split: its contract states only that there is at least one piece. The pieces themselves are described by `JoinSplit`, `SplitSingle`, `SplitPiecesAvoidSeparator`, `SplitPiecesOccur` and `SplitFirstIsPrefix`.
- Helpers.Reverse: its contract states only the length. Reversal itself is described by `ReverseInvolution`, `ReverseInjective` and `PrefixOfReverse`.
- The invariance lemmas are stated for queries without punycode conversion, because the codec is arbitrary.

## Findings

| source | as written | input that shows it | evidently intended | confidence | as-written member | corrected member |
|---|---|---|---|---|---|---|
| fast_psl/core.py:119 | `domain.replace(public_suffix, "")` removes every occurrence of the suffix | domain `community.com` with suffix `com`: what is left is `munity.`, so `etld_plus_one` is `munity.com` | remove only the suffix at the end of the domain, giving `etld_plus_one` `community.com` | not executed | CoreProperties.CommunityCounterexample | Core.DecomposeAtTail |
| build/lib/fast_psl/core.py:65 | the same `replace` in the older release | domain `community.com` with suffix `com`, as above | remove only the suffix at the end of the domain | not executed | CoreProperties.ReplaceLosesEarlierOccurrence | Core.DecomposeAtTailRoundTrip |
