/**
  Left-to-right, non-overlapping substitution (`re.sub`) for the two fixed
  pattern shapes the normaliser uses, together with a declarative reference:
  every occurrence is replaced, the text inside an occurrence is dropped and
  every other character is kept.
 */
module Rewrite {
  import opened Chars

  datatype Pattern =
      /** `(?<!\w)<word>(?!\w)` with `word` escaped, matched case-insensitively */
    | Standalone(word: string)
      /** `<prefix>\d+`, matched case-sensitively */
    | LiteralDigits(prefix: string)

  /** The first character of `w` does not occur again in `w`, ignoring case:
      an occurrence of `w` can never start inside another one. */
  predicate HeadUnique(w: string)
    requires |w| > 0
  {
    AbsentFrom(w, ToLower(w[0]), 1)
  }

  /** No character of `w` from position `k` on lower-cases to `c`. */
  predicate AbsentFrom(w: string, c: char, k: nat)
    requires k <= |w|
    decreases |w| - k
  {
    k == |w| || (ToLower(w[k]) != c && AbsentFrom(w, c, k + 1))
  }

  lemma {:induction false} AbsentFromAt(w: string, c: char, k: nat, d: nat)
    requires k <= d < |w| && AbsentFrom(w, c, k)
    ensures ToLower(w[d]) != c
    decreases d - k
  {
    if k < d {
      AbsentFromAt(w, c, k + 1, d);
    }
  }

  predicate Wellformed(p: Pattern) {
    match p
    case Standalone(w) => |w| > 0 && HeadUnique(w)
    case LiteralDigits(w) => |w| > 0 && HeadUnique(w) && !IsDigit(w[0])
  }

  lemma HeadUniqueAt(w: string, d: nat)
    requires |w| > 0 && HeadUnique(w) && 0 < d < |w|
    ensures ToLower(w[d]) != ToLower(w[0])
  {
    AbsentFromAt(w, ToLower(w[0]), 1, d);
  }

  /** `w` occurs at position `i` of `s`, comparing characters after `lower()`. */
  predicate CaselessAt(s: string, i: nat, w: string, k: nat := 0)
    requires i + |w| <= |s| && k <= |w|
    decreases |w| - k
  {
    k == |w| || (ToLower(s[i + k]) == ToLower(w[k]) && CaselessAt(s, i, w, k + 1))
  }

  /** `w` occurs verbatim at position `i` of `s`. */
  predicate ExactlyAt(s: string, i: nat, w: string, k: nat := 0)
    requires i + |w| <= |s| && k <= |w|
    decreases |w| - k
  {
    k == |w| || (s[i + k] == w[k] && ExactlyAt(s, i, w, k + 1))
  }

  lemma {:induction false} CaselessAtMeaning(s: string, i: nat, w: string, k: nat)
    requires i + |w| <= |s| && k <= |w|
    ensures CaselessAt(s, i, w, k) <==> forall t :: k <= t < |w| ==> ToLower(s[i + t]) == ToLower(w[t])
    decreases |w| - k
  {
    if k < |w| {
      CaselessAtMeaning(s, i, w, k + 1);
    }
  }

  lemma {:induction false} ExactlyAtMeaning(s: string, i: nat, w: string, k: nat)
    requires i + |w| <= |s| && k <= |w|
    ensures ExactlyAt(s, i, w, k) <==> forall t :: k <= t < |w| ==> s[i + t] == w[t]
    decreases |w| - k
  {
    if k < |w| {
      ExactlyAtMeaning(s, i, w, k + 1);
    }
  }

  /** The length of the run of digits starting at `i` (what a greedy `\d+` consumes). */
  function DigitRun(s: string, i: nat): (n: nat)
    requires i <= |s|
    ensures i + n <= |s|
    ensures forall k :: i <= k < i + n ==> IsDigit(s[k])
    ensures i + n == |s| || !IsDigit(s[i + n])
    decreases |s| - i
  {
    if i < |s| && IsDigit(s[i]) then 1 + DigitRun(s, i + 1) else 0
  }

  /** The length of the match of `p` that starts at position `i` of `s`, or 0 when
      there is none. Lookbehind and lookahead read the characters of `s` itself. */
  function MatchLen(p: Pattern, s: string, i: nat): (n: nat)
    requires i <= |s|
    ensures i + n <= |s|
  {
    match p
    case Standalone(w) =>
      if i + |w| <= |s| && (i == 0 || !IsWordChar(s[i - 1])) && CaselessAt(s, i, w)
         && (i + |w| == |s| || !IsWordChar(s[i + |w|]))
      then |w| else 0
    case LiteralDigits(w) =>
      if i + |w| < |s| && ExactlyAt(s, i, w) && IsDigit(s[i + |w|])
      then |w| + DigitRun(s, i + |w|) else 0
  }

  /** What a standalone occurrence is: the word, up to case, with no word
      character immediately before or after it. */
  lemma StandaloneMatch(w: string, s: string, i: nat)
    requires i <= |s|
    ensures MatchLen(Standalone(w), s, i) > 0 <==>
      && 0 < |w| && i + |w| <= |s|
      && (i == 0 || !IsWordChar(s[i - 1]))
      && (forall t :: 0 <= t < |w| ==> ToLower(s[i + t]) == ToLower(w[t]))
      && (i + |w| == |s| || !IsWordChar(s[i + |w|]))
    ensures MatchLen(Standalone(w), s, i) in {0, |w|}
  {
    if i + |w| <= |s| {
      CaselessAtMeaning(s, i, w, 0);
    }
  }

  /** What an occurrence of `prefix\d+` is: the prefix verbatim followed by the
      longest run of digits, of which there is at least one. */
  lemma LiteralDigitsMatch(w: string, s: string, i: nat)
    requires i <= |s|
    ensures MatchLen(LiteralDigits(w), s, i) > 0 <==>
      && i + |w| < |s|
      && (forall t :: 0 <= t < |w| ==> s[i + t] == w[t])
      && IsDigit(s[i + |w|])
    ensures MatchLen(LiteralDigits(w), s, i) > 0 ==>
      && MatchLen(LiteralDigits(w), s, i) > |w|
      && (forall k :: i + |w| <= k < i + MatchLen(LiteralDigits(w), s, i) ==> IsDigit(s[k]))
      && (i + MatchLen(LiteralDigits(w), s, i) == |s| || !IsDigit(s[i + MatchLen(LiteralDigits(w), s, i)]))
  {
    if i + |w| <= |s| {
      ExactlyAtMeaning(s, i, w, 0);
    }
  }

  // ---------------------------------------------------------------------------
  // The scan

  /** One length per position of `s`, none reaching past its end. */
  predicate Fits(lens: seq<nat>, s: string) {
    |lens| == |s| && forall j :: 0 <= j < |s| ==> j + lens[j] <= |s|
  }

  /** The length of the match of `p` at every position of `s`. Lookbehind and
      lookahead read `s` itself, so the match at a position does not depend on
      what the scan has replaced before it. */
  function Lengths(p: Pattern, s: string): (lens: seq<nat>)
    ensures Fits(lens, s)
  {
    seq(|s|, j requires 0 <= j < |s| => MatchLen(p, s, j))
  }

  /** The scan of `re.sub` from position `i`: at a match, emit `rep` and resume
      after the match, otherwise copy one character. */
  function Scan(lens: seq<nat>, rep: string, s: string, i: nat): string
    requires Fits(lens, s) && i <= |s|
    decreases |s| - i
  {
    if i == |s| then []
    else if lens[i] > 0 then rep + Scan(lens, rep, s, i + lens[i])
    else [s[i]] + Scan(lens, rep, s, i + 1)
  }

  /** `re.sub(p, rep, s[i..])` with lookbehind into `s[..i]` */
  function SubstituteFrom(p: Pattern, rep: string, s: string, i: nat): string
    requires i <= |s|
  {
    Scan(Lengths(p, s), rep, s, i)
  }

  /** `re.sub(p, rep, s)` */
  function Substitute(p: Pattern, rep: string, s: string): string {
    SubstituteFrom(p, rep, s, 0)
  }

  /** Where no match starts, the scan copies one character. */
  lemma SubstituteFromCopies(p: Pattern, rep: string, s: string, i: nat)
    requires i < |s| && MatchLen(p, s, i) == 0
    ensures SubstituteFrom(p, rep, s, i) == [s[i]] + SubstituteFrom(p, rep, s, i + 1)
  {
    assert Lengths(p, s)[i] == 0;
  }

  /** Where a match starts, the scan emits the replacement and resumes after it. */
  lemma SubstituteFromReplaces(p: Pattern, rep: string, s: string, i: nat)
    requires i < |s| && MatchLen(p, s, i) > 0
    ensures SubstituteFrom(p, rep, s, i) == rep + SubstituteFrom(p, rep, s, i + MatchLen(p, s, i))
  {
    assert Lengths(p, s)[i] == MatchLen(p, s, i);
  }

  // ---------------------------------------------------------------------------
  // What the scan keeps

  /** Every character of the result comes from the text or from the
      replacement. */
  lemma {:induction false} ScanChars(lens: seq<nat>, rep: string, s: string, i: nat, c: char)
    requires Fits(lens, s) && i <= |s| && c in Scan(lens, rep, s, i)
    ensures c in s[i..] || c in rep
    decreases |s| - i
  {
    if lens[i] > 0 {
      var n := lens[i];
      if c !in rep {
        ScanChars(lens, rep, s, i + n, c);
        var k :| 0 <= k < |s[i + n..]| && s[i + n..][k] == c;
        assert s[i..][n + k] == c;
      }
    } else if c != s[i] {
      ScanChars(lens, rep, s, i + 1, c);
      assert s[i..] == [s[i]] + s[i + 1..];
    }
  }

  lemma SubstituteChars(p: Pattern, rep: string, s: string, c: char)
    requires c in Substitute(p, rep, s)
    ensures c in s || c in rep
  {
    ScanChars(Lengths(p, s), rep, s, 0, c);
    assert s[0..] == s;
  }

  /** Without a match at or after `i` the scan copies the rest of `s`. */
  lemma {:induction false} ScanIdentity(lens: seq<nat>, rep: string, s: string, i: nat)
    requires Fits(lens, s) && i <= |s|
    requires forall j :: i <= j < |s| ==> lens[j] == 0
    ensures Scan(lens, rep, s, i) == s[i..]
    decreases |s| - i
  {
    if i < |s| {
      ScanIdentity(lens, rep, s, i + 1);
      assert s[i..] == [s[i]] + s[i + 1..];
    }
  }

  lemma SubstituteFromIdentity(p: Pattern, rep: string, s: string, i: nat)
    requires i <= |s|
    requires forall j :: i <= j < |s| ==> MatchLen(p, s, j) == 0
    ensures SubstituteFrom(p, rep, s, i) == s[i..]
  {
    ScanIdentity(Lengths(p, s), rep, s, i);
  }

  /** A standalone word one of whose characters appears in `s[i..]` in
      neither case has no occurrence there, so the scan copies the rest of `s`. */
  lemma SubstituteFromWithout(w: string, rep: string, s: string, i: nat, t: nat)
    requires i <= |s| && t < |w| && w[t] !in s[i..] && SwapCase(w[t]) !in s[i..]
    ensures SubstituteFrom(Standalone(w), rep, s, i) == s[i..]
  {
    forall j | i <= j < |s| ensures MatchLen(Standalone(w), s, j) == 0 {
      StandaloneMatch(w, s, j);
      if MatchLen(Standalone(w), s, j) > 0 {
        SameUpToCase(s[j + t], w[t]);
      }
    }
    SubstituteFromIdentity(Standalone(w), rep, s, i);
  }

  lemma SubstituteWithout(w: string, rep: string, s: string, t: nat)
    requires t < |w| && w[t] !in s && SwapCase(w[t]) !in s
    ensures Substitute(Standalone(w), rep, s) == s
  {
    assert s[0..] == s;
    SubstituteFromWithout(w, rep, s, 0, t);
  }

  /** `prefix\d+` has no occurrence in `s[i..]` when that part misses one of
      the prefix's characters, so the scan copies the rest of `s`. */
  lemma SubstituteFromWithoutPrefix(w: string, rep: string, s: string, i: nat, t: nat)
    requires i <= |s| && t < |w| && w[t] !in s[i..]
    ensures SubstituteFrom(LiteralDigits(w), rep, s, i) == s[i..]
  {
    forall j | i <= j < |s| ensures MatchLen(LiteralDigits(w), s, j) == 0 {
      LiteralDigitsMatch(w, s, j);
    }
    SubstituteFromIdentity(LiteralDigits(w), rep, s, i);
  }

  /** `prefix\d+` matches nowhere in a text that misses one of the prefix's
      characters. */
  lemma NoPrefixMatch(w: string, s: string, t: nat)
    requires t < |w| && w[t] !in s
    ensures forall j :: 0 <= j < |s| ==> MatchLen(LiteralDigits(w), s, j) == 0
  {
    forall j | 0 <= j < |s| ensures MatchLen(LiteralDigits(w), s, j) == 0 {
      LiteralDigitsMatch(w, s, j);
    }
  }

  lemma SubstituteWithoutPrefix(w: string, rep: string, s: string, t: nat)
    requires t < |w| && w[t] !in s
    ensures Substitute(LiteralDigits(w), rep, s) == s
  {
    assert s[0..] == s;
    SubstituteFromWithoutPrefix(w, rep, s, 0, t);
  }

  /** Replacing matches by something longer than any of them never shortens
      the text, and lengthens it as soon as one match exists. */
  lemma {:induction false} ScanLengthens(lens: seq<nat>, rep: string, s: string, i: nat)
    requires Fits(lens, s) && i <= |s|
    requires forall j :: i <= j < |s| ==> lens[j] < |rep|
    ensures |Scan(lens, rep, s, i)| >= |s| - i
    ensures (exists j :: i <= j < |s| && lens[j] > 0) ==> |Scan(lens, rep, s, i)| > |s| - i
    decreases |s| - i
  {
    if i < |s| {
      if lens[i] > 0 {
        ScanLengthens(lens, rep, s, i + lens[i]);
      } else {
        ScanLengthens(lens, rep, s, i + 1);
        if exists j :: i <= j < |s| && lens[j] > 0 {
          var j :| i <= j < |s| && lens[j] > 0;
          assert i + 1 <= j;
        }
      }
    }
  }

  /** A standalone word replaced by something longer never shortens the text,
      and lengthens it as soon as one occurrence exists. */
  lemma SubstituteLengthens(w: string, rep: string, s: string)
    requires |w| < |rep|
    ensures |Substitute(Standalone(w), rep, s)| >= |s|
    ensures (exists j :: 0 <= j < |s| && MatchLen(Standalone(w), s, j) > 0) ==> |Substitute(Standalone(w), rep, s)| > |s|
  {
    var lens := Lengths(Standalone(w), s);
    forall j | 0 <= j < |s| ensures lens[j] < |rep| {
      StandaloneMatch(w, s, j);
    }
    ScanLengthens(lens, rep, s, 0);
    if exists j :: 0 <= j < |s| && MatchLen(Standalone(w), s, j) > 0 {
      var j :| 0 <= j < |s| && MatchLen(Standalone(w), s, j) > 0;
      assert lens[j] > 0;
    }
  }

  // ---------------------------------------------------------------------------
  // The declarative reference

  /** Position `i` lies strictly inside a match that starts before it. */
  ghost predicate Covered(lens: seq<nat>, i: nat) {
    exists j :: 0 <= j < i && j < |lens| && lens[j] > 0 && i < j + lens[j]
  }

  /** The declarative reading of a global substitution: each position where an
      occurrence starts contributes `rep`, each position inside an occurrence
      contributes nothing, every other position contributes its own character. */
  ghost function Spec(lens: seq<nat>, rep: string, s: string, i: nat): string
    requires Fits(lens, s) && i <= |s|
    decreases |s| - i
  {
    if i == |s| then []
    else
      (if lens[i] > 0 then rep else if Covered(lens, i) then [] else [s[i]])
      + Spec(lens, rep, s, i + 1)
  }

  /** No occurrence starts strictly inside another occurrence. */
  ghost predicate NonOverlapping(lens: seq<nat>) {
    forall j, k :: 0 <= j < k < |lens| && lens[j] > 0 && k < j + lens[j] ==> lens[k] == 0
  }

  /** A well-formed pattern never has an occurrence starting inside another. */
  lemma WellformedNonOverlapping(p: Pattern, s: string)
    requires Wellformed(p)
    ensures NonOverlapping(Lengths(p, s))
  {
    var lens := Lengths(p, s);
    forall j, k | 0 <= j < k < |lens| && lens[j] > 0 && k < j + lens[j]
      ensures lens[k] == 0
    {
      assert lens[j] == MatchLen(p, s, j) && lens[k] == MatchLen(p, s, k);
      match p
      case Standalone(w) =>
        StandaloneMatch(w, s, j);
        StandaloneMatch(w, s, k);
        HeadUniqueAt(w, k - j);
        assert ToLower(s[j + (k - j)]) == ToLower(w[k - j]);
        assert ToLower(s[k + 0]) != ToLower(w[0]);
      case LiteralDigits(w) =>
        LiteralDigitsMatch(w, s, j);
        LiteralDigitsMatch(w, s, k);
        if k < j + |w| {
          HeadUniqueAt(w, k - j);
          assert s[j + (k - j)] == w[k - j];
          assert ToLower(s[k + 0]) != ToLower(w[0]);
          assert s[k + 0] != w[0];
        } else {
          assert IsDigit(s[k]);
          assert s[k + 0] != w[0];
        }
    }
  }

  /** Positions `k` inside the match starting at `i` are covered and start no
      match of their own. */
  lemma InsideOccurrence(lens: seq<nat>, s: string, i: nat, k: nat)
    requires Fits(lens, s) && NonOverlapping(lens) && i < |s| && lens[i] > 0
    requires i < k < i + lens[i]
    ensures lens[k] == 0 && Covered(lens, k)
  {
  }

  /** Inside an occurrence starting at `i` the reference contributes nothing. */
  lemma {:induction false} SpecSkipsOccurrence(lens: seq<nat>, rep: string, s: string, i: nat, k: nat)
    requires Fits(lens, s) && i < |s| && lens[i] > 0
    requires i < k <= i + lens[i]
    requires forall m :: k <= m < i + lens[i] ==> lens[m] == 0 && Covered(lens, m)
    ensures Spec(lens, rep, s, k) == Spec(lens, rep, s, i + lens[i])
    decreases i + lens[i] - k
  {
    if k < i + lens[i] {
      SpecSkipsOccurrence(lens, rep, s, i, k + 1);
    }
  }

  lemma UncoveredAfterOccurrence(lens: seq<nat>, s: string, i: nat)
    requires Fits(lens, s) && NonOverlapping(lens) && i < |s| && !Covered(lens, i) && lens[i] > 0
    ensures !Covered(lens, i + lens[i])
  {
    var n := lens[i];
    forall j | 0 <= j < i + n && j < |lens| && lens[j] > 0
      ensures j + lens[j] <= i + n
    {
      if j < i {
        assert !(i < j + lens[j]);
      }
    }
  }

  lemma UncoveredAfterCharacter(lens: seq<nat>, s: string, i: nat)
    requires Fits(lens, s) && i < |s| && !Covered(lens, i) && lens[i] == 0
    ensures !Covered(lens, i + 1)
  {
    forall j | 0 <= j < i + 1 && j < |lens| && lens[j] > 0
      ensures j + lens[j] <= i + 1
    {
      if j < i {
        assert !(i < j + lens[j]);
      }
    }
  }

  /** The reference over a match that starts at an uncovered position `i`. */
  lemma SpecOverOccurrence(lens: seq<nat>, rep: string, s: string, i: nat)
    requires Fits(lens, s) && NonOverlapping(lens) && i < |s| && lens[i] > 0
    ensures Spec(lens, rep, s, i) == rep + Spec(lens, rep, s, i + lens[i])
  {
    forall m | i + 1 <= m < i + lens[i] ensures lens[m] == 0 && Covered(lens, m) {
      InsideOccurrence(lens, s, i, m);
    }
    SpecSkipsOccurrence(lens, rep, s, i, i + 1);
  }

  /** The scan agrees with the reference from every position that is not inside
      an occurrence. */
  lemma {:induction false} ScanIsSpec(lens: seq<nat>, rep: string, s: string, i: nat)
    requires Fits(lens, s) && NonOverlapping(lens) && i <= |s| && !Covered(lens, i)
    ensures Scan(lens, rep, s, i) == Spec(lens, rep, s, i)
    decreases |s| - i
  {
    if i < |s| {
      if lens[i] > 0 {
        UncoveredAfterOccurrence(lens, s, i);
        ScanIsSpec(lens, rep, s, i + lens[i]);
        SpecOverOccurrence(lens, rep, s, i);
      } else {
        UncoveredAfterCharacter(lens, s, i);
        ScanIsSpec(lens, rep, s, i + 1);
      }
    }
  }

  /** `re.sub` with a well-formed pattern replaces every occurrence and keeps
      every character outside the occurrences. */
  lemma SubstituteIsSpec(p: Pattern, rep: string, s: string)
    requires Wellformed(p)
    ensures Substitute(p, rep, s) == Spec(Lengths(p, s), rep, s, 0)
  {
    WellformedNonOverlapping(p, s);
    ScanIsSpec(Lengths(p, s), rep, s, 0);
  }

  // ---------------------------------------------------------------------------
  // Digits

  /** An occurrence of a digit-free word holds no digit. */
  lemma OccurrenceHasNoDigits(w: string, s: string, i: nat)
    requires i <= |s| && Digits(w) == [] && MatchLen(Standalone(w), s, i) > 0
    ensures i + MatchLen(Standalone(w), s, i) <= |s|
    ensures Digits(s[i..i + MatchLen(Standalone(w), s, i)]) == []
  {
    StandaloneMatch(w, s, i);
    var occurrence := s[i..i + |w|];
    forall t | 0 <= t < |occurrence| ensures !IsDigit(occurrence[t]) {
      assert ToLower(s[i + t]) == ToLower(w[t]);
      if IsDigit(w[t]) {
        DigitIn(w, t);
      }
    }
    NoDigits(occurrence);
  }

  /** No occurrence in the table covers a digit. */
  predicate DigitFreeOccurrences(lens: seq<nat>, s: string)
    requires Fits(lens, s)
  {
    forall j :: 0 <= j < |s| && lens[j] > 0 ==> Digits(s[j..j + lens[j]]) == []
  }

  /** Digit-free text in front of two texts with the same digits. */
  lemma DigitsBehindDigitFree(a: string, b: string, c: string, d: string)
    requires Digits(a) == [] && Digits(c) == [] && Digits(b) == Digits(d)
    ensures Digits(a + b) == Digits(c + d)
  {
    DigitsAppend(a, b);
    DigitsAppend(c, d);
    assert [] + Digits(b) == Digits(b);
  }

  lemma DigitsStepOverOccurrence(lens: seq<nat>, rep: string, s: string, i: nat)
    requires Fits(lens, s) && Digits(rep) == [] && i < |s| && lens[i] > 0
    requires Digits(s[i..i + lens[i]]) == []
    requires Digits(Scan(lens, rep, s, i + lens[i])) == Digits(s[i + lens[i]..])
    ensures Digits(Scan(lens, rep, s, i)) == Digits(s[i..])
  {
    var n := lens[i];
    assert s[i..] == s[i..i + n] + s[i + n..];
    DigitsBehindDigitFree(rep, Scan(lens, rep, s, i + n), s[i..i + n], s[i + n..]);
  }

  lemma DigitsStepOverCharacter(lens: seq<nat>, rep: string, s: string, i: nat)
    requires Fits(lens, s) && i < |s| && lens[i] == 0
    requires Digits(Scan(lens, rep, s, i + 1)) == Digits(s[i + 1..])
    ensures Digits(Scan(lens, rep, s, i)) == Digits(s[i..])
  {
    DigitsAppend([s[i]], Scan(lens, rep, s, i + 1));
    assert s[i..] == [s[i]] + s[i + 1..];
    DigitsAppend([s[i]], s[i + 1..]);
  }

  /** A scan whose occurrences and replacement hold no digit keeps the digits
      of the text. */
  lemma {:induction false} ScanKeepsDigits(lens: seq<nat>, rep: string, s: string, i: nat)
    requires Fits(lens, s) && DigitFreeOccurrences(lens, s) && Digits(rep) == [] && i <= |s|
    ensures Digits(Scan(lens, rep, s, i)) == Digits(s[i..])
    decreases |s| - i
  {
    if i < |s| {
      if lens[i] > 0 {
        ScanKeepsDigits(lens, rep, s, i + lens[i]);
        DigitsStepOverOccurrence(lens, rep, s, i);
      } else {
        ScanKeepsDigits(lens, rep, s, i + 1);
        DigitsStepOverCharacter(lens, rep, s, i);
      }
    }
  }

  /** Replacing a digit-free standalone word by a digit-free expansion keeps
      the digits of the text. */
  lemma SubstituteKeepsDigits(w: string, rep: string, s: string)
    requires Digits(w) == [] && Digits(rep) == []
    ensures Digits(Substitute(Standalone(w), rep, s)) == Digits(s)
  {
    var lens := Lengths(Standalone(w), s);
    forall j | 0 <= j < |s| && lens[j] > 0
      ensures Digits(s[j..j + lens[j]]) == []
    {
      OccurrenceHasNoDigits(w, s, j);
    }
    ScanKeepsDigits(lens, rep, s, 0);
    assert s[0..] == s;
  }

  lemma {:induction false} DigitIn(w: string, t: nat)
    requires t < |w| && IsDigit(w[t])
    ensures w[t] in Digits(w)
    decreases t
  {
    if t > 0 {
      DigitIn(w[1..], t - 1);
    }
  }

  lemma {:induction false} NoDigits(s: string)
    requires forall t :: 0 <= t < |s| ==> !IsDigit(s[t])
    ensures Digits(s) == []
    decreases |s|
  {
    if s != [] {
      NoDigits(s[1..]);
    }
  }
}
