# fuzzy_search in Dafny

A model of the text-normalisation and match-filtering pipeline of the
`fuzzy_search` package (`fuzzy_search/fuzzy_search.py`), with proofs of what it
promises. The pipeline has four stages:

- `expand_abbreviations` walks the abbreviation table (`Dr.`, `e.g.`, `etc.`).
  It replaces every standalone occurrence, case-insensitively, with a
  left-to-right, non-overlapping `re.sub` per table entry.
- `preprocess_text` runs these steps in order:
  1. expand abbreviations;
  2. lower-case;
  3. fold `developer \d+` to `developer`;
  4. collapse each whitespace run to one space and strip both ends.
- `should_ignore_match` normalises two texts. It answers true when a configured
  pattern pair fully matches them, in either order. The pairs are
  `example 1`/`example 2` and `test case \d+`/`test case \d+`.
- `fuzzy_search` does the bookkeeping around the similarity scorer:
  1. builds the phrase → normal form dictionary;
  2. takes the five best normal forms;
  3. maps them back to the phrases with a nested loop that applies the
     threshold and the ignore test;
  4. sorts the hits stably by score, highest first.

The modules follow that structure:

| module | file | contents |
|---|---|---|
| `Chars` | chars.dfy | ASCII `\w`, `\s`, `\d`, `str.lower()` |
| `Rewrite` | rewrite.dfy | the `re.sub` scan for the two fixed pattern shapes, and a declarative reference for it |
| `Normalize` | normalize.dfy | the configuration tables, `expand_abbreviations`, the whitespace step, `preprocess_text` |
| `Ignore` | ignore.dfy | `re.fullmatch` for the two pair shapes, `should_ignore_match` |
| `Sorting` | sorting.dfy | a stable descending sort (`sorted(..., reverse=True)`) |
| `Search` | search.dfy | the dictionary, `process.extract`, the nested loop, `fuzzy_search` |
| `Scenarios` | scenarios.dfy | the repository's examples on concrete texts |

Modelling choices:

- Strings are `seq<char>`.
- Scores are `real`. The threshold is an `int`, compared as in Python's
  `score >= threshold`.
- The two rapidfuzz scores (`fuzz.ratio`, `fuzz.partial_ratio`) are function
  parameters of `FuzzySearch`. Its other parameters keep the source's
  defaults: `threshold` is `DefaultThreshold` (80) and `usePartialRatio` is
  `false`.
- `process.extract` is modelled as a stable sort of the choices by score,
  highest first, cut to the first `limit`. This ordering is an assumption about
  rapidfuzz: its source is not part of this model.

## Model

| member | source | states |
|---|---|---|
| Chars.Lower | fuzzy_search/fuzzy_search.py:66 | `lower()` keeps the length and maps each character to its ASCII lower-case form, so the result has no capital letter |
| Chars.LowerKeepsDigits | fuzzy_search/fuzzy_search.py:66 | lower-casing keeps every digit, in order |
| Rewrite.StandaloneMatch | fuzzy_search/fuzzy_search.py:52-53 | `(?<!\w)abbr(?!\w)` with IGNORECASE matches at a position exactly when the word is there up to case and no word character touches it; the match has the word's length |
| Rewrite.LiteralDigitsMatch | fuzzy_search/fuzzy_search.py:30-35 | `developer \d+` matches exactly where the prefix is followed by a digit; the match takes the longest run of digits |
| Rewrite.WellformedNonOverlapping | fuzzy_search/fuzzy_search.py:52-53 | for the configured pattern shapes, no occurrence can start inside another |
| Rewrite.SubstituteIsSpec | fuzzy_search/fuzzy_search.py:53 | the left-to-right `re.sub` scan equals the declarative reading: each occurrence becomes the replacement, text inside an occurrence is dropped, every other character is kept |
| Rewrite.SubstituteChars | fuzzy_search/fuzzy_search.py:53 | every character of the substitution's output comes from the text or from the replacement |
| Rewrite.SubstituteWithout | fuzzy_search/fuzzy_search.py:52-53 | a text missing one letter of the word, in both cases, comes back unchanged |
| Rewrite.SubstituteLengthens | fuzzy_search/fuzzy_search.py:53 | replacing a standalone word by something longer never shortens the text, and strictly lengthens it when an occurrence exists |
| Rewrite.SubstituteKeepsDigits | fuzzy_search/fuzzy_search.py:53 | replacing a digit-free word by a digit-free text keeps every digit of the input, in order |
| Normalize.AbbreviationsWellformed | fuzzy_search/fuzzy_search.py:13-18 | the three abbreviations are well-formed patterns, so the reference reading applies to them |
| Normalize.ExpandAbbreviationsIsSpec | fuzzy_search/fuzzy_search.py:50-54 | `expand_abbreviations` applies the declarative substitution for each table entry, in table order, each to the previous output |
| Normalize.ExpandAbbreviationsUnchangedIff | fuzzy_search/fuzzy_search.py:50-54 | the text comes back unchanged exactly when no abbreviation occurs standalone in it |
| Normalize.ExpandAbbreviationsWithoutDot | fuzzy_search/fuzzy_search.py:13-18 | text without a full stop is returned unchanged, because every abbreviation ends in one |
| Normalize.ExpandAbbreviationsKeepsDigits | fuzzy_search/fuzzy_search.py:50-54 | abbreviation expansion neither adds nor removes a digit |
| Normalize.Collapse | fuzzy_search/fuzzy_search.py:69 | `re.sub(r"\s+", " ", s)` yields only spaces and the non-whitespace characters of `s` |
| Normalize.StripLeft | fuzzy_search/fuzzy_search.py:69 | the result is a suffix of the input, what was removed is all whitespace, and the result does not start with whitespace |
| Normalize.StripRight | fuzzy_search/fuzzy_search.py:69 | the result is a prefix of the input, what was removed is all whitespace, and the result does not end with whitespace |
| Normalize.SqueezeIsJoinWords | fuzzy_search/fuzzy_search.py:69 | `re.sub(r"\s+", " ", s).strip()` equals `" ".join(s.split())` |
| Normalize.WordsOfJoin | fuzzy_search/fuzzy_search.py:69 | splitting words joined by single spaces gives the same words back |
| Normalize.JoinWordsSqueezed | fuzzy_search/fuzzy_search.py:69 | words joined by single spaces have single spaces only and none at the ends; the join is empty only for no words |
| Normalize.SqueezeSqueezed | fuzzy_search/fuzzy_search.py:69 | whitespace normalisation yields single spaces only and none at either end |
| Normalize.SqueezeKeepsDigits | fuzzy_search/fuzzy_search.py:69 | whitespace normalisation keeps every digit, in order |
| Normalize.Preprocess | fuzzy_search/fuzzy_search.py:60-70 | the output of `preprocess_text` has no capital letter, no whitespace other than a space, no two adjacent spaces and no space at either end |
| Normalize.PreprocessStages | fuzzy_search/fuzzy_search.py:64-70 | `preprocess_text` is expand, lower, fold, then `" ".join(...split())` |
| Normalize.PreprocessIsSpec | fuzzy_search/fuzzy_search.py:64-70 | `preprocess_text` read declaratively: every standalone abbreviation expanded table entry by table entry, lower-cased, every `developer <digits>` replaced by `developer`, then `" ".join(...split())` |
| Normalize.PreprocessKeepsDigits | fuzzy_search/fuzzy_search.py:65-69 | when no `developer <digits>` is left to fold, `preprocess_text` keeps every digit of its input, in order |
| Ignore.AllDigitsMeaning | fuzzy_search/fuzzy_search.py:26 | a full match of `\d+` is a non-empty text of digits only |
| Ignore.AnyPairAppliesIff | fuzzy_search/fuzzy_search.py:91-102 | the loop over the pairs answers true exactly when some pair fully matches the two texts in one order or the other |
| Ignore.IgnoreCombinationsIff | fuzzy_search/fuzzy_search.py:21-27 | the configured pairs apply exactly to {"example 1", "example 2"} in either order and to two "test case <digits>" texts |
| Ignore.ShouldIgnoreIff | fuzzy_search/fuzzy_search.py:76-102 | `should_ignore_match` is true exactly when the normal forms are "example 1" and "example 2" in some order, or both are "test case <digits>" |
| Ignore.ShouldIgnoreSymmetric | fuzzy_search/fuzzy_search.py:91-98 | `should_ignore_match(a, b) == should_ignore_match(b, a)` |
| Sorting.Sort | fuzzy_search/fuzzy_search.py:151 | the sort is a permutation of its input with non-increasing scores |
| Sorting.SortStable | fuzzy_search/fuzzy_search.py:151 | elements with equal scores keep their original relative order |
| Search.Keys | fuzzy_search/fuzzy_search.py:128 | the dictionary's keys are the phrases, each once, in order of first occurrence |
| Search.ItemsOfPhrases | fuzzy_search/fuzzy_search.py:128 | an item is exactly a phrase of the input paired with its normal form |
| Search.Extract | fuzzy_search/fuzzy_search.py:134-136 | extract returns `min(5, n)` distinct choices with their own scores, highest first, and no choice left out scores above one kept |
| Search.CollectIff | fuzzy_search/fuzzy_search.py:139-146 | the nested loop collects a `(phrase, score)` exactly when some item and some match pass the test with that score |
| Search.CollectHits | fuzzy_search/fuzzy_search.py:139-146 | the nested loop computes the reference collection, element for element and in order |
| Search.SortedHits | fuzzy_search/fuzzy_search.py:139-151 | sorting keeps the collected pairs and keeps the collection order among equal scores |
| Search.RepeatedNormalForm | fuzzy_search/fuzzy_search.py:128-146 | two different phrases with the same normal form that pass the threshold and are not ignored are each collected twice, once per copy of that normal form among the matches: the collected list is exactly `[a, a, b, b]` with the shared score |
| Search.FuzzySearch | fuzzy_search/fuzzy_search.py:108-151 | a `(phrase, score)` is returned exactly when the phrase is an input, the score reaches the threshold, the pair is not ignored, and a top-5 match has the phrase's normal form and that score. The result is sorted highest first, every score is the chosen scorer's score for the phrase, duplicates are as many as the loop produces, and order is stable among equal scores |
| Scenarios.ExpandDoctorSmith | tests/test_fuzzy_search.py:13 | "Dr. Smith" expands to "Doctor Smith" |
| Scenarios.ExpandApples | tests/test_fuzzy_search.py:14 | "e.g. apples, oranges" expands to "for example apples, oranges" |
| Scenarios.ExpandEtCetera | tests/test_fuzzy_search.py:15 | "etc." expands to "et cetera" |
| Scenarios.ExpandNothing | tests/test_fuzzy_search.py:16 | "Nothing to expand" is returned unchanged |
| Scenarios.ExpandAttached | fuzzy_search/fuzzy_search.py:52 | "Dr.Smith" is left alone: a word character follows the abbreviation |
| Scenarios.PreprocessDoctorSmith | tests/test_fuzzy_search.py:21 | "Dr. Smith  " normalises to "doctor smith" |
| Scenarios.PreprocessBananas | tests/test_fuzzy_search.py:24 | "e.g. bananas" normalises to "for example bananas" |
| Scenarios.PreprocessMixedCase | tests/test_fuzzy_search.py:25 | "Mixed  Case" normalises to "mixed case" |
| Scenarios.PreprocessExampleDigit | fuzzy_search/fuzzy_search.py:65-69 | "Example d" normalises to "example d" for every digit d: digits are kept |
| Scenarios.PreprocessTestNumber | fuzzy_search/fuzzy_search.py:65-69 | "Test 123" normalises to "test 123" |
| Scenarios.PreprocessDeveloperDigit | fuzzy_search/fuzzy_search.py:67-68 | "developer d" normalises to "developer" for every digit d |
| Scenarios.PreprocessNotIdempotent | fuzzy_search/fuzzy_search.py:67-69 | normalisation is not idempotent: "developer 1 2" becomes "developer 2", which becomes "developer" |
| Scenarios.IgnoreExamplePair | tests/test_fuzzy_search.py:30 | "Example 1" and "Example 2" are kept apart |
| Scenarios.IgnoreTestCases | fuzzy_search/fuzzy_search.py:26 | "Test Case d1" and "Test Case d2" are kept apart for all digits d1, d2 |
| Scenarios.KeepExampleAndPlain | fuzzy_search/fuzzy_search.py:91-102 | "Example 1" is never kept apart from a text without digits, full stops or the letter v |
| Scenarios.KeepExampleAndSentence | tests/test_fuzzy_search.py:31-33 | "Example 1" and "This is an example" are not kept apart |

## Left out

- Logging (fuzzy_search/fuzzy_search.py:6-10 and the `logger` calls): it has no effect on the results.
- The `main` demo driver (fuzzy_search/fuzzy_search.py:158-207): it only prints.
- The `except` fallbacks (fuzzy_search/fuzzy_search.py:55-57, 71-73, 103-105, 153-155): the patterns are fixed and well-formed, so these cannot fire. The functions are modelled as total.
- The rapidfuzz scorers: they are parameters, and the library is not part of this model.
- `process.extract`: its order is assumed, not proved. The assumed order is by score, highest first, with ties in input order.
- The empty query (tests/test_fuzzy_search.py:69) and low-similarity queries (tests/test_fuzzy_search.py:72): whether they return nothing depends on the scorer's values, which are parameters.
- The general regular-expression engine: only the fixed patterns are hand-coded.
- Unicode: `\w`, `\s`, `\d` and `lower()` are modelled on ASCII. Python's Unicode classes and case mapping are out of scope.
- Normalize.PreprocessKeepsDigits: requires that no `developer <digits>` remains after lower-casing, because folding one removes its digits.
- Scenarios.KeepExampleAndPlain: covers texts without digits, full stops or `v`/`V`, not every text that differs from "example 2".
- Test expectations the code does not meet:
  - digit removal (tests/test_fuzzy_search.py:22-23, 75);
  - "Dr. Smith"/"Doctor Smith" and "hello world"/"Hello  World" being ignored (tests/test_fuzzy_search.py:34, 36).

  The model follows the code. It proves the opposite for the first: Scenarios.PreprocessExampleDigit and Scenarios.PreprocessTestNumber. The same holds for the docstring's "removes numbers" (fuzzy_search/fuzzy_search.py:62).
- Repeated normal forms are not merged. `dict.values()` keeps repeats, so each phrase whose normal form appears twice among the matches is appended once per copy. Search.RepeatedNormalForm proves it.
- Idempotence of `preprocess_text` does not hold and is not claimed. Scenarios.PreprocessNotIdempotent gives the counterexample.
