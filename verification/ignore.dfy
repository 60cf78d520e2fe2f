/**
  `should_ignore_match`: two texts are kept apart when their normalised forms
  fully match one of the configured pattern pairs, in either order.
 */
module Ignore {
  import opened Chars
  import opened Normalize

  /** The two pattern shapes used by `IGNORE_COMBINATIONS`: a fixed text, or a
      fixed prefix followed by one or more digits (`prefix\d+`). */
  datatype FullPattern = Exactly(text: string) | ThenDigits(prefix: string)

  /** A non-empty run of digits: what `\d+` fully matches. */
  predicate AllDigits(s: string)
    decreases |s|
  {
    |s| > 0 && IsDigit(s[0]) && (|s| == 1 || AllDigits(s[1..]))
  }

  lemma {:induction false} AllDigitsMeaning(s: string)
    ensures AllDigits(s) <==> |s| > 0 && forall k :: 0 <= k < |s| ==> IsDigit(s[k])
    decreases |s|
  {
    if |s| > 1 {
      AllDigitsMeaning(s[1..]);
      assert forall k :: 1 <= k < |s| ==> s[k] == s[1..][k - 1];
    }
  }

  /** `re.fullmatch(p, s)` for the two shapes (case-sensitive). */
  predicate FullMatch(p: FullPattern, s: string) {
    match p
    case Exactly(w) => s == w
    case ThenDigits(w) => |w| < |s| && s[..|w|] == w && AllDigits(s[|w|..])
  }

  /** `IGNORE_COMBINATIONS` */
  const IgnoreCombinations: seq<(FullPattern, FullPattern)> := [
    (Exactly("example 1"), Exactly("example 2")),
    (ThenDigits("test case "), ThenDigits("test case "))
  ]

  /** One pair applies to two texts in one order or the other. */
  predicate PairApplies(pair: (FullPattern, FullPattern), x: string, y: string) {
    (FullMatch(pair.0, x) && FullMatch(pair.1, y)) || (FullMatch(pair.1, x) && FullMatch(pair.0, y))
  }

  /** The loop over the pairs: answers true at the first pair that applies. */
  function AnyPairApplies(pairs: seq<(FullPattern, FullPattern)>, x: string, y: string): bool
    decreases |pairs|
  {
    if pairs == [] then false
    else if PairApplies(pairs[0], x, y) then true
    else AnyPairApplies(pairs[1..], x, y)
  }

  /** The loop answers true exactly when some pair applies. */
  lemma {:induction false} AnyPairAppliesIff(pairs: seq<(FullPattern, FullPattern)>, x: string, y: string)
    ensures AnyPairApplies(pairs, x, y) <==> exists k :: 0 <= k < |pairs| && PairApplies(pairs[k], x, y)
    decreases |pairs|
  {
    if pairs != [] {
      AnyPairAppliesIff(pairs[1..], x, y);
      if exists k :: 0 <= k < |pairs| && PairApplies(pairs[k], x, y) {
        var k :| 0 <= k < |pairs| && PairApplies(pairs[k], x, y);
        if k > 0 {
          assert pairs[1..][k - 1] == pairs[k];
        }
      }
      if exists k :: 0 <= k < |pairs[1..]| && PairApplies(pairs[1..][k], x, y) {
        var k :| 0 <= k < |pairs[1..]| && PairApplies(pairs[1..][k], x, y);
        assert pairs[k + 1] == pairs[1..][k];
      }
    }
  }

  /** The loop does not depend on the order of the two texts. */
  lemma {:induction false} AnyPairAppliesSymmetric(pairs: seq<(FullPattern, FullPattern)>, x: string, y: string)
    ensures AnyPairApplies(pairs, x, y) == AnyPairApplies(pairs, y, x)
    decreases |pairs|
  {
    if pairs != [] {
      AnyPairAppliesSymmetric(pairs[1..], x, y);
    }
  }

  /** `should_ignore_match` */
  function ShouldIgnore(text1: string, text2: string): bool {
    AnyPairApplies(IgnoreCombinations, Preprocess(text1), Preprocess(text2))
  }

  /** A normalised text of the form "test case <digits>". */
  predicate TestCase(s: string) {
    FullMatch(ThenDigits("test case "), s)
  }

  lemma ExamplePairIff(x: string, y: string)
    ensures PairApplies(IgnoreCombinations[0], x, y) <==>
      (x == "example 1" && y == "example 2") || (x == "example 2" && y == "example 1")
  {
  }

  lemma TestCasePairIff(x: string, y: string)
    ensures PairApplies(IgnoreCombinations[1], x, y) <==> TestCase(x) && TestCase(y)
  {
  }

  /** The configured pairs keep "example 1" and "example 2" apart, in either
      order, and any two "test case <digits>" texts. */
  lemma IgnoreCombinationsIff(x: string, y: string)
    ensures AnyPairApplies(IgnoreCombinations, x, y) <==>
      || (x == "example 1" && y == "example 2")
      || (x == "example 2" && y == "example 1")
      || (TestCase(x) && TestCase(y))
  {
    AnyPairAppliesIff(IgnoreCombinations, x, y);
    ExamplePairIff(x, y);
    TestCasePairIff(x, y);
  }

  /** Two texts are kept apart exactly when their normalised forms are
      "example 1" and "example 2" in some order, or are both "test case"
      followed by digits. */
  lemma ShouldIgnoreIff(text1: string, text2: string)
    ensures var p1, p2 := Preprocess(text1), Preprocess(text2);
      ShouldIgnore(text1, text2) <==>
        || (p1 == "example 1" && p2 == "example 2")
        || (p1 == "example 2" && p2 == "example 1")
        || (TestCase(p1) && TestCase(p2))
  {
    IgnoreCombinationsIff(Preprocess(text1), Preprocess(text2));
  }

  /** Whether a match is ignored does not depend on which text is the query. */
  lemma ShouldIgnoreSymmetric(text1: string, text2: string)
    ensures ShouldIgnore(text1, text2) == ShouldIgnore(text2, text1)
  {
    AnyPairAppliesSymmetric(IgnoreCombinations, Preprocess(text1), Preprocess(text2));
  }
}
