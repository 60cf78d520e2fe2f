/**
  `fuzzy_search`: normalise the query and every phrase, keep the five best
  normalised phrases by the chosen similarity score, map them back to the
  original phrases that produced them, drop scores below the threshold and
  ignored pairs, and sort by score, highest first.

  The similarity scores (`fuzz.ratio`, `fuzz.partial_ratio`) are parameters.
 */
module Search {
  import opened Sorting
  import opened Normalize
  import opened Ignore

  /** The default `threshold` of `fuzzy_search`. */
  const DefaultThreshold: int := 80

  /** The `limit` passed to `process.extract`. */
  const ExtractLimit: nat := 5

  /** A similarity score between a query and a choice. */
  type Scorer = (string, string) -> real

  /** A normal form of a text. */
  type Normalizer = string -> string

  /** A test that keeps a query and a phrase apart. */
  type Ignorer = (string, string) -> bool

  /** One entry of `process.extract`'s answer: the choice, its score and its
      position among the choices. */
  datatype Match = Match(choice: string, score: real, index: nat)

  /** One `(phrase, score)` entry of the result. */
  datatype Hit = Hit(phrase: string, score: real)

  function MatchScore(m: Match): real { m.score }

  function HitScore(h: Hit): real { h.score }

  function Min(a: nat, b: nat): nat { if a <= b then a else b }

  // ---------------------------------------------------------------------------
  // The dictionary of processed phrases

  /** Where `p` first occurs in `s`. */
  function FirstIndex(p: string, s: seq<string>): (i: nat)
    requires p in s
    ensures i < |s| && s[i] == p && p !in s[..i]
    decreases |s|
  {
    if s[0] == p then 0
    else
      var i := FirstIndex(p, s[1..]);
      assert s[1..][..i] == s[1..i + 1];
      1 + i
  }

  /** A position holding `p` with no `p` before it is the first occurrence. */
  lemma FirstIndexUnique(p: string, s: seq<string>, i: nat)
    requires i < |s| && s[i] == p && p !in s[..i]
    ensures FirstIndex(p, s) == i
  {
    var f := FirstIndex(p, s);
    assert forall t :: 0 <= t < i ==> s[..i][t] == s[t];
    assert forall t :: 0 <= t < f ==> s[..f][t] == s[t];
  }

  /** The keys of `{phrase: preprocess_text(phrase) for phrase in phrases}`:
      every phrase once, in order of first occurrence. */
  function Keys(phrases: seq<string>): (ks: seq<string>)
    ensures forall p :: p in ks <==> p in phrases
    ensures forall i, j :: 0 <= i < j < |ks| ==> ks[i] != ks[j]
    ensures forall i, j :: 0 <= i < j < |ks| ==> FirstIndex(ks[i], phrases) < FirstIndex(ks[j], phrases)
    decreases |phrases|
  {
    if phrases == [] then []
    else
      var init, last := phrases[..|phrases| - 1], phrases[|phrases| - 1];
      assert phrases == init + [last];
      var ks := Keys(init);
      KeysStep(init, last, ks);
      if last in ks then ks else ks + [last]
  }

  /** Adding one phrase keeps the first occurrences of the earlier keys and,
      for a new phrase, puts its first occurrence after all of them. */
  lemma KeysStep(init: seq<string>, last: string, ks: seq<string>)
    requires forall p :: p in ks <==> p in init
    requires forall i, j :: 0 <= i < j < |ks| ==> FirstIndex(ks[i], init) < FirstIndex(ks[j], init)
    ensures forall k :: 0 <= k < |ks| ==> FirstIndex(ks[k], init + [last]) == FirstIndex(ks[k], init)
    ensures last !in init ==> FirstIndex(last, init + [last]) == |init|
  {
    var s := init + [last];
    forall k | 0 <= k < |ks|
      ensures FirstIndex(ks[k], s) == FirstIndex(ks[k], init)
    {
      var f := FirstIndex(ks[k], init);
      assert s[..f] == init[..f];
      FirstIndexUnique(ks[k], s, f);
    }
    if last !in init {
      assert s[..|init|] == init;
      FirstIndexUnique(last, s, |init|);
    }
  }

  /** The items of that dictionary: each key with its normal form. */
  function Items(ks: seq<string>, normal: Normalizer): seq<(string, string)> {
    seq(|ks|, i requires 0 <= i < |ks| => (ks[i], normal(ks[i])))
  }

  /** The values of that dictionary, in the order of its keys. */
  function Values(items: seq<(string, string)>): seq<string> {
    seq(|items|, i requires 0 <= i < |items| => items[i].1)
  }

  // ---------------------------------------------------------------------------
  // process.extract

  /** Every choice with its score and position. */
  function Scored(query: string, choices: seq<string>, scorer: Scorer): seq<Match> {
    seq(|choices|, i requires 0 <= i < |choices| => Match(choices[i], scorer(query, choices[i]), i))
  }

  /** `process.extract(query, choices, scorer=scorer, limit=limit)`: the
      choices sorted by score, highest first and equal scores in their
      original order, cut to the first `limit`. */
  function Extract(query: string, choices: seq<string>, scorer: Scorer, limit: nat): (r: seq<Match>)
    ensures |r| == Min(limit, |choices|)
    ensures SortedDesc(r, MatchScore)
    ensures forall m :: m in r ==>
      m.index < |choices| && m.choice == choices[m.index] && m.score == scorer(query, m.choice)
    ensures forall i, j :: 0 <= i < j < |r| ==> r[i].index != r[j].index
    ensures forall k :: 0 <= k < |choices| && Scored(query, choices, scorer)[k] !in r ==>
      forall m :: m in r ==> m.score >= scorer(query, choices[k])
  {
    var all := Scored(query, choices, scorer);
    var sorted := Sort(all, MatchScore);
    var n := Min(limit, |choices|);
    ExtractPicksChoices(query, choices, scorer, sorted);
    ExtractDistinct(all, sorted);
    ExtractTop(all, sorted, n);
    sorted[..n]
  }

  /** Everything the sort returns is one of the scored choices. */
  lemma ExtractPicksChoices(query: string, choices: seq<string>, scorer: Scorer, sorted: seq<Match>)
    requires multiset(sorted) == multiset(Scored(query, choices, scorer))
    ensures forall m :: m in sorted ==>
      m.index < |choices| && m.choice == choices[m.index] && m.score == scorer(query, m.choice)
  {
    var all := Scored(query, choices, scorer);
    forall m | m in sorted
      ensures m.index < |choices| && m.choice == choices[m.index] && m.score == scorer(query, m.choice)
    {
      assert m in multiset(all);
      var k :| 0 <= k < |all| && all[k] == m;
    }
  }

  /** An element occurring at two positions occurs at least twice. */
  lemma {:induction false} CountTwice<T>(s: seq<T>, i: nat, j: nat)
    requires i < j < |s| && s[i] == s[j]
    ensures multiset(s)[s[i]] >= 2
    decreases |s|
  {
    assert s == [s[0]] + s[1..];
    if i == 0 {
      assert s[1..][j - 1] == s[j];
    } else {
      assert s[1..][i - 1] == s[i] && s[1..][j - 1] == s[j];
      CountTwice(s[1..], i - 1, j - 1);
    }
  }

  /** A sequence without repeated elements holds each at most once. */
  lemma {:induction false} CountOnce<T>(s: seq<T>, x: T)
    requires forall i, j :: 0 <= i < j < |s| ==> s[i] != s[j]
    ensures multiset(s)[x] <= 1
    decreases |s|
  {
    if s != [] {
      assert s == [s[0]] + s[1..];
      assert forall i, j :: 0 <= i < j < |s[1..]| ==> s[1..][i] == s[i + 1] && s[1..][j] == s[j + 1];
      CountOnce(s[1..], x);
      if s[0] == x {
        assert x !in s[1..];
      }
    }
  }

  /** Choices at different positions are different matches, so the sort
      never repeats one. */
  lemma ExtractDistinct(all: seq<Match>, sorted: seq<Match>)
    requires forall k :: 0 <= k < |all| ==> all[k].index == k
    requires multiset(sorted) == multiset(all)
    ensures forall i, j :: 0 <= i < j < |sorted| ==> sorted[i].index != sorted[j].index
  {
    forall i, j | 0 <= i < j < |sorted|
      ensures sorted[i].index != sorted[j].index
    {
      assert sorted[i] in multiset(all) && sorted[j] in multiset(all);
      var a :| 0 <= a < |all| && all[a] == sorted[i];
      var b :| 0 <= b < |all| && all[b] == sorted[j];
      if sorted[i].index == sorted[j].index {
        CountTwice(sorted, i, j);
        CountOnce(all, sorted[i]);
      }
    }
  }

  /** A choice left out of the first `n` of the sorted list scores no more
      than any choice kept. */
  lemma ExtractTop(all: seq<Match>, sorted: seq<Match>, n: nat)
    requires multiset(sorted) == multiset(all) && SortedDesc(sorted, MatchScore)
    requires n <= |sorted|
    ensures forall k :: 0 <= k < |all| && all[k] !in sorted[..n] ==>
      forall m :: m in sorted[..n] ==> m.score >= all[k].score
  {
    forall k, m | 0 <= k < |all| && all[k] !in sorted[..n] && m in sorted[..n]
      ensures m.score >= all[k].score
    {
      assert all[k] in multiset(sorted);
      var p :| 0 <= p < |sorted| && sorted[p] == all[k];
      var q :| 0 <= q < n && sorted[..n][q] == m;
      assert forall t :: 0 <= t < n ==> sorted[..n][t] == sorted[t];
      assert MatchScore(sorted[q]) >= MatchScore(sorted[p]);
    }
  }

  // ---------------------------------------------------------------------------
  // Mapping the matches back to the phrases

  /** The test inside the nested loop: the phrase's normal form is the
      matched choice, the score reaches the threshold, and the pair is not
      ignored. */
  predicate Kept(query: string, orig: string, proc: string, m: Match, threshold: int, ignore: Ignorer) {
    proc == m.choice && m.score >= threshold as real && !ignore(query, orig)
  }

  /** The inner loop over the matches, for one phrase. */
  function HitsFor(query: string, orig: string, proc: string, matches: seq<Match>, threshold: int, ignore: Ignorer): seq<Hit>
    decreases |matches|
  {
    if matches == [] then []
    else
      var m := matches[|matches| - 1];
      HitsFor(query, orig, proc, matches[..|matches| - 1], threshold, ignore)
        + (if Kept(query, orig, proc, m, threshold, ignore) then [Hit(orig, m.score)] else [])
  }

  /** The outer loop over the dictionary's items. */
  function Collect(query: string, items: seq<(string, string)>, matches: seq<Match>, threshold: int, ignore: Ignorer): seq<Hit>
    decreases |items|
  {
    if items == [] then []
    else
      var (orig, proc) := items[|items| - 1];
      Collect(query, items[..|items| - 1], matches, threshold, ignore)
        + HitsFor(query, orig, proc, matches, threshold, ignore)
  }

  /** A phrase gets a hit with a score exactly when some match passes the
      test with that score. */
  lemma {:induction false} HitsForIff(query: string, orig: string, proc: string, matches: seq<Match>, threshold: int, ignore: Ignorer, h: Hit)
    ensures h in HitsFor(query, orig, proc, matches, threshold, ignore) <==>
      h.phrase == orig && exists m :: m in matches && Kept(query, orig, proc, m, threshold, ignore) && m.score == h.score
    decreases |matches|
  {
    if matches != [] {
      var init, m := matches[..|matches| - 1], matches[|matches| - 1];
      assert matches == init + [m];
      HitsForIff(query, orig, proc, init, threshold, ignore, h);
    }
  }

  /** The loops collect a pair exactly when its phrase is a key and some
      match passes the test with its score. */
  lemma {:induction false} CollectIff(query: string, items: seq<(string, string)>, matches: seq<Match>, threshold: int, ignore: Ignorer, h: Hit)
    ensures h in Collect(query, items, matches, threshold, ignore) <==>
      exists it, m :: it in items && m in matches && it.0 == h.phrase && Kept(query, it.0, it.1, m, threshold, ignore) && m.score == h.score
    decreases |items|
  {
    if items != [] {
      var init, last := items[..|items| - 1], items[|items| - 1];
      assert items == init + [last];
      CollectIff(query, init, matches, threshold, ignore, h);
      HitsForIff(query, last.0, last.1, matches, threshold, ignore, h);
    }
  }

  // ---------------------------------------------------------------------------
  // fuzzy_search

  /** `fuzz.partial_ratio` when asked for, `fuzz.ratio` otherwise. */
  function ChooseScorer(usePartialRatio: bool, ratio: Scorer, partialRatio: Scorer): Scorer {
    if usePartialRatio then partialRatio else ratio
  }

  /** The top matches of the normalised query among the normalised phrases. */
  function TopMatches(query: string, phrases: seq<string>, scorer: Scorer): seq<Match> {
    Extract(Preprocess(query), Values(Items(Keys(phrases), Preprocess)), scorer, ExtractLimit)
  }

  lemma HitsForStep(query: string, orig: string, proc: string, matches: seq<Match>, j: nat, threshold: int, ignore: Ignorer)
    requires j < |matches|
    ensures HitsFor(query, orig, proc, matches[..j + 1], threshold, ignore) ==
      HitsFor(query, orig, proc, matches[..j], threshold, ignore)
        + (if Kept(query, orig, proc, matches[j], threshold, ignore) then [Hit(orig, matches[j].score)] else [])
  {
    assert matches[..j + 1][..j] == matches[..j];
  }

  lemma CollectStep(query: string, items: seq<(string, string)>, i: nat, matches: seq<Match>, threshold: int, ignore: Ignorer)
    requires i < |items|
    ensures Collect(query, items[..i + 1], matches, threshold, ignore) ==
      Collect(query, items[..i], matches, threshold, ignore) + HitsFor(query, items[i].0, items[i].1, matches, threshold, ignore)
  {
    assert items[..i + 1][..i] == items[..i];
  }

  /** The two nested loops of `fuzzy_search`, over the dictionary's items and
      over the matches. */
  method CollectHits(query: string, items: seq<(string, string)>, matches: seq<Match>, threshold: int, ignore: Ignorer)
    returns (collected: seq<Hit>)
    ensures collected == Collect(query, items, matches, threshold, ignore)
  {
    collected := [];
    var i := 0;
    while i < |items|
      invariant 0 <= i <= |items|
      invariant collected == Collect(query, items[..i], matches, threshold, ignore)
    {
      var (orig, proc) := items[i];
      ghost var before := collected;
      var j := 0;
      while j < |matches|
        invariant 0 <= j <= |matches|
        invariant collected == before + HitsFor(query, orig, proc, matches[..j], threshold, ignore)
      {
        var m := matches[j];
        ghost var done := HitsFor(query, orig, proc, matches[..j], threshold, ignore);
        HitsForStep(query, orig, proc, matches, j, threshold, ignore);
        if proc == m.choice && m.score >= threshold as real {
          if !ignore(query, orig) {
            collected := collected + [Hit(orig, m.score)];
            assert collected == before + (done + [Hit(orig, m.score)]);
          }
        }
        j := j + 1;
      }
      assert matches[..j] == matches;
      CollectStep(query, items, i, matches, threshold, ignore);
      i := i + 1;
    }
    assert items[..i] == items;
  }

  /** What sorting the collected pairs keeps: the same pairs, the same
      multiplicities, and the collection order among equal scores. */
  lemma SortedHits(query: string, items: seq<(string, string)>, matches: seq<Match>, threshold: int, ignore: Ignorer)
    ensures forall h :: h in Sort(Collect(query, items, matches, threshold, ignore), HitScore) <==>
                        exists it, m :: it in items && m in matches && it.0 == h.phrase && Kept(query, it.0, it.1, m, threshold, ignore) && m.score == h.score
    ensures forall v :: WithKey(Sort(Collect(query, items, matches, threshold, ignore), HitScore), HitScore, v) ==
                        WithKey(Collect(query, items, matches, threshold, ignore), HitScore, v)
  {
    var collected := Collect(query, items, matches, threshold, ignore);
    var results := Sort(collected, HitScore);
    forall h | true
      ensures h in results <==>
        exists it, m :: it in items && m in matches && it.0 == h.phrase && Kept(query, it.0, it.1, m, threshold, ignore) && m.score == h.score
    {
      assert h in results <==> h in multiset(results);
      assert h in collected <==> h in multiset(collected);
      CollectIff(query, items, matches, threshold, ignore, h);
    }
    forall v | true
      ensures WithKey(results, HitScore, v) == WithKey(collected, HitScore, v)
    {
      SortStable(collected, HitScore, v);
    }
  }

  /** The items are exactly the phrases, each with its normal form. */
  lemma ItemsOfPhrases(phrases: seq<string>, normal: Normalizer, p: string, q: string)
    ensures (p, q) in Items(Keys(phrases), normal) <==> p in phrases && q == normal(p)
  {
    var ks := Keys(phrases);
    if p in phrases {
      var k :| 0 <= k < |ks| && ks[k] == p;
      assert Items(ks, normal)[k] == (p, normal(p));
    }
  }

  /** A pair passes the loops' test through some item exactly when its
      phrase is one of the phrases and passes the test with its own normal
      form. */
  lemma HitOfPhrases(query: string, phrases: seq<string>, normal: Normalizer, matches: seq<Match>, threshold: int, ignore: Ignorer, h: Hit)
    ensures
      (exists it, m :: it in Items(Keys(phrases), normal) && m in matches && it.0 == h.phrase && Kept(query, it.0, it.1, m, threshold, ignore) && m.score == h.score)
      <==>
      (&& h.phrase in phrases
       && h.score >= threshold as real
       && !ignore(query, h.phrase)
       && exists m :: m in matches && m.choice == normal(h.phrase) && m.score == h.score)
  {
    var items := Items(Keys(phrases), normal);
    var p := h.phrase;
    ItemsOfPhrases(phrases, normal, p, normal(p));
    if exists it, m :: it in items && m in matches && it.0 == p && Kept(query, it.0, it.1, m, threshold, ignore) && m.score == h.score {
      var it, m :| it in items && m in matches && it.0 == p && Kept(query, it.0, it.1, m, threshold, ignore) && m.score == h.score;
      ItemsOfPhrases(phrases, normal, it.0, it.1);
    }
  }

  lemma KeysOfTwo(a: string, b: string)
    requires a != b
    ensures Keys([a, b]) == [a, b]
  {
    assert [a][..0] == [];
    assert Keys([a]) == [a];
    assert [a, b][..1] == [a];
  }

  /** Extracting from a normal form given twice picks both copies. */
  lemma ExtractTwice(qq: string, q: string, scorer: Scorer)
    ensures var r := Extract(qq, [q, q], scorer, ExtractLimit);
      |r| == 2 && forall k :: 0 <= k < 2 ==> r[k].choice == q && r[k].score == scorer(qq, q)
  {
    var r := Extract(qq, [q, q], scorer, ExtractLimit);
    assert r[0] in r && r[1] in r;
  }

  lemma HitsForTwice(query: string, a: string, q: string, r: seq<Match>, threshold: int, ignore: Ignorer, s: real)
    requires |r| == 2 && forall k :: 0 <= k < 2 ==> r[k].choice == q && r[k].score == s
    requires s >= threshold as real && !ignore(query, a)
    ensures HitsFor(query, a, q, r, threshold, ignore) == [Hit(a, s), Hit(a, s)]
  {
    assert r[..1][..0] == [] && r[..1] == [r[0]];
    assert HitsFor(query, a, q, r[..1], threshold, ignore) == [Hit(a, s)];
  }

  lemma ItemsOfTwo(a: string, b: string, normal: Normalizer)
    requires a != b && normal(a) == normal(b)
    ensures Items(Keys([a, b]), normal) == [(a, normal(a)), (b, normal(a))]
    ensures Values(Items(Keys([a, b]), normal)) == [normal(a), normal(a)]
  {
    KeysOfTwo(a, b);
  }

  lemma CollectOfTwo(query: string, x: (string, string), y: (string, string), r: seq<Match>, threshold: int, ignore: Ignorer)
    ensures Collect(query, [x, y], r, threshold, ignore) ==
      HitsFor(query, x.0, x.1, r, threshold, ignore) + HitsFor(query, y.0, y.1, r, threshold, ignore)
  {
    assert [x, y][..1] == [x] && [x][..0] == [];
    assert Collect(query, [x], r, threshold, ignore) == HitsFor(query, x.0, x.1, r, threshold, ignore);
  }

  /** Two different phrases with the same normal form are each collected
      twice: the dictionary keeps both, its values hold the
      normal form twice, and each phrase matches both entries of the
      extraction. */
  lemma RepeatedNormalForm(query: string, qq: string, a: string, b: string, normal: Normalizer,
                           scorer: Scorer, threshold: int, ignore: Ignorer)
    requires a != b && normal(a) == normal(b)
    requires scorer(qq, normal(a)) >= threshold as real && !ignore(query, a) && !ignore(query, b)
    ensures var items := Items(Keys([a, b]), normal);
      var collected := Collect(query, items, Extract(qq, Values(items), scorer, ExtractLimit), threshold, ignore);
      var s := scorer(qq, normal(a));
      collected == [Hit(a, s), Hit(a, s), Hit(b, s), Hit(b, s)]
  {
    var q, s := normal(a), scorer(qq, normal(a));
    ItemsOfTwo(a, b, normal);
    var r := Extract(qq, [q, q], scorer, ExtractLimit);
    ExtractTwice(qq, q, scorer);
    HitsForTwice(query, a, q, r, threshold, ignore, s);
    HitsForTwice(query, b, q, r, threshold, ignore, s);
    CollectOfTwo(query, (a, q), (b, q), r, threshold, ignore);
  }

  /** `fuzzy_search(query, phrases, threshold=80, use_partial_ratio=False)`,
      with the two scores of the similarity library as parameters. */
  method FuzzySearch(query: string, phrases: seq<string>, threshold: int := DefaultThreshold, usePartialRatio: bool := false,
                     ratio: Scorer, partialRatio: Scorer)
    returns (results: seq<Hit>)
    ensures SortedDesc(results, HitScore)
    ensures var matches := TopMatches(query, phrases, ChooseScorer(usePartialRatio, ratio, partialRatio));
      forall h :: h in results <==>
        && h.phrase in phrases
        && h.score >= threshold as real
        && !ShouldIgnore(query, h.phrase)
        && exists m :: m in matches && m.choice == Preprocess(h.phrase) && m.score == h.score
    ensures forall h :: h in results ==>
      h.score == ChooseScorer(usePartialRatio, ratio, partialRatio)(Preprocess(query), Preprocess(h.phrase))
    ensures var matches := TopMatches(query, phrases, ChooseScorer(usePartialRatio, ratio, partialRatio));
      multiset(results) == multiset(Collect(query, Items(Keys(phrases), Preprocess), matches, threshold, ShouldIgnore))
    ensures var matches := TopMatches(query, phrases, ChooseScorer(usePartialRatio, ratio, partialRatio));
      forall v :: WithKey(results, HitScore, v) == WithKey(Collect(query, Items(Keys(phrases), Preprocess), matches, threshold, ShouldIgnore), HitScore, v)
  {
    var items := Items(Keys(phrases), Preprocess);
    var scorer := ChooseScorer(usePartialRatio, ratio, partialRatio);
    var matches := Extract(Preprocess(query), Values(items), scorer, ExtractLimit);
    var collected := CollectHits(query, items, matches, threshold, ShouldIgnore);
    results := Sort(collected, HitScore);
    SortedHits(query, items, matches, threshold, ShouldIgnore);
    forall h | true
      ensures h in results <==>
        && h.phrase in phrases
        && h.score >= threshold as real
        && !ShouldIgnore(query, h.phrase)
        && exists m :: m in matches && m.choice == Preprocess(h.phrase) && m.score == h.score
    {
      HitOfPhrases(query, phrases, Preprocess, matches, threshold, ShouldIgnore, h);
    }
  }
}
