/**
  Worked examples of the normaliser on concrete texts. Each example is
  assembled from small facts about its literal texts and from general
  lemmas about the stages, so that no proof has to evaluate a whole
  pipeline on a literal at once.
 */
module Scenarios {
  import opened Chars
  import opened Rewrite
  import opened Normalize
  import opened Ignore

  // ---------------------------------------------------------------------------
  // General composition lemmas

  /** `expand_abbreviations` as its three substitutions, in table order. */
  lemma ExpandStages(text: string, a: string, b: string, c: string)
    requires Substitute(Standalone("Dr."), "Doctor", text) == a
    requires Substitute(Standalone("e.g."), "for example", a) == b
    requires Substitute(Standalone("etc."), "et cetera", b) == c
    ensures ExpandAbbreviations(text) == c
  {
  }

  /** A standalone word at the very front is replaced, and nothing after it
      is touched when one of the word's characters is missing from the rest. */
  lemma ReplaceAtFront(w: string, rep: string, rest: string, t: nat)
    requires 0 < |w| && (rest == [] || !IsWordChar(rest[0]))
    requires t < |w| && w[t] !in rest && SwapCase(w[t]) !in rest
    ensures Substitute(Standalone(w), rep, w + rest) == rep + rest
  {
    var s := w + rest;
    MatchAtFront(w, rest);
    SubstituteFromReplaces(Standalone(w), rep, s, 0);
    DropFront(w, rest);
    SubstituteFromWithout(w, rep, s, |w|, t);
  }

  lemma MatchAtFront(w: string, rest: string)
    requires 0 < |w| && (rest == [] || !IsWordChar(rest[0]))
    ensures MatchLen(Standalone(w), w + rest, 0) == |w|
  {
    CaselessAtMeaning(w + rest, 0, w, 0);
  }

  lemma DropFront(w: string, rest: string)
    ensures (w + rest)[|w|..] == rest
  {
  }

  /** "developer", a space and one digit at the very front fold to
      "developer", and nothing after them is touched when the rest has no
      "d". */
  lemma FoldAtFront(d: char, rest: string)
    requires IsDigit(d) && (rest == [] || !IsDigit(rest[0])) && 'd' !in rest
    ensures Substitute(LiteralDigits("developer "), "developer", "developer " + [d] + rest) == "developer" + rest
  {
    var s := "developer " + [d] + rest;
    ExactlyAtMeaning(s, 0, "developer ", 0);
    assert s[10] == d;
    assert DigitRun(s, 11) == 0;
    assert MatchLen(LiteralDigits("developer "), s, 0) == 11;
    SubstituteFromReplaces(LiteralDigits("developer "), "developer", s, 0);
    assert s[11..] == rest;
    SubstituteFromWithoutPrefix("developer ", "developer", s, 11, 0);
  }

  /** `preprocess_text` as the composition of its stages. */
  lemma PreprocessExample(text: string, expanded: string, lowered: string, folded: string, words: seq<string>, r: string)
    requires ExpandAbbreviations(text) == expanded
    requires Lower(expanded) == lowered
    requires Substitute(IgnoreSimilar[0].pattern, IgnoreSimilar[0].replacement, lowered) == folded
    requires Words(folded) == words && JoinWords(words) == r
    ensures Preprocess(text) == r
  {
    PreprocessStages(text, expanded, lowered, folded);
  }

  /** Two tokens separated by whitespace, with optional whitespace after, split
      into exactly those two words. */
  lemma TwoWords(a: string, sp: string, b: string, tail: string)
    requires Token(a) && Token(b) && AllSpace(sp) && sp != [] && AllSpace(tail)
    ensures Words(a + sp + b + tail) == [a, b]
  {
    Regroup(a, sp, b, tail);
    WordsOfToken(a, sp + (b + tail));
    WordsSkipSpaces(sp, b + tail);
    WordsOfToken(b, tail);
    WordsSkipSpaces(tail, []);
    assert tail + [] == tail;
  }

  lemma Regroup(a: string, sp: string, b: string, tail: string)
    ensures a + sp + b + tail == a + (sp + (b + tail))
  {
  }

  /** Lower-casing a two-word text lower-cases the words and keeps the
      whitespace. */
  lemma LowerTwoWords(a: string, sp: string, b: string, tail: string)
    requires AllSpace(sp) && AllSpace(tail)
    ensures Lower(a + sp + b + tail) == Lower(a) + sp + Lower(b) + tail
  {
    LowerAppend(a + sp + b, tail);
    LowerAppend(a + sp, b);
    LowerAppend(a, sp);
    LowerIdentity(sp);
    LowerIdentity(tail);
  }

  /** Without "v" in either word there is nothing to fold. */
  lemma NoFoldTwoWords(a: string, sp: string, b: string, tail: string)
    requires AllSpace(sp) && AllSpace(tail)
    requires 'v' !in a + b && 'V' !in a + b
    ensures var lowered := Lower(a) + sp + Lower(b) + tail;
      Substitute(LiteralDigits("developer "), "developer", lowered) == lowered
  {
    LowerWithout(a + b, 'v');
    LowerAppend(a, b);
    NotInSpaces('v', sp);
    NotInSpaces('v', tail);
    assert "developer "[2] == 'v';
    SubstituteWithoutPrefix("developer ", "developer", Lower(a) + sp + Lower(b) + tail, 2);
  }

  lemma NotInSpaces(c: char, sp: string)
    requires AllSpace(sp) && !IsSpace(c)
    ensures c !in sp
  {
    forall k | 0 <= k < |sp| ensures sp[k] != c {
    }
  }

  /** A two-word text without "v" in either word (hence without any
      "developer <digits>") normalises to its two words, lower-cased and
      joined by one space. */
  lemma PreprocessTwoWords(text: string, a: string, sp: string, b: string, tail: string)
    requires ExpandAbbreviations(text) == a + sp + b + tail
    requires Token(a) && Token(b) && AllSpace(sp) && sp != [] && AllSpace(tail)
    requires 'v' !in a + b && 'V' !in a + b
    ensures Preprocess(text) == Lower(a) + " " + Lower(b)
  {
    var lowered := Lower(a) + sp + Lower(b) + tail;
    LowerTwoWords(a, sp, b, tail);
    NoFoldTwoWords(a, sp, b, tail);
    TokenLower(a);
    TokenLower(b);
    TwoWords(Lower(a), sp, Lower(b), tail);
    PreprocessExample(text, a + sp + b + tail, lowered, lowered, [Lower(a), Lower(b)], Lower(a) + " " + Lower(b));
  }

  // ---------------------------------------------------------------------------
  // expand_abbreviations

  lemma DoctorSmithFront()
    ensures Substitute(Standalone("Dr."), "Doctor", "Dr. Smith") == "Doctor Smith"
  {
    assert "Dr. Smith" == "Dr." + " Smith";
    ReplaceAtFront("Dr.", "Doctor", " Smith", 2);
    assert "Doctor" + " Smith" == "Doctor Smith";
  }

  /** "Dr." standing alone becomes "Doctor". */
  lemma ExpandDoctorSmith()
    ensures ExpandAbbreviations("Dr. Smith") == "Doctor Smith"
  {
    DoctorSmithFront();
    SubstituteWithout("e.g.", "for example", "Doctor Smith", 1);
    SubstituteWithout("etc.", "et cetera", "Doctor Smith", 3);
    ExpandStages("Dr. Smith", "Doctor Smith", "Doctor Smith", "Doctor Smith");
  }

  lemma ApplesSplit()
    ensures "e.g. apples, oranges" == "e.g." + " apples, oranges"
    ensures "for example" + " apples, oranges" == "for example apples, oranges"
  {
  }

  lemma ApplesFront()
    ensures Substitute(Standalone("e.g."), "for example", "e.g. apples, oranges") == "for example apples, oranges"
  {
    ApplesSplit();
    ReplaceAtFront("e.g.", "for example", " apples, oranges", 3);
  }

  lemma ApplesNoDoctor()
    ensures Substitute(Standalone("Dr."), "Doctor", "e.g. apples, oranges") == "e.g. apples, oranges"
  {
    SubstituteWithout("Dr.", "Doctor", "e.g. apples, oranges", 0);
  }

  lemma ApplesNoEtCetera()
    ensures Substitute(Standalone("etc."), "et cetera", "for example apples, oranges") == "for example apples, oranges"
  {
    SubstituteWithout("etc.", "et cetera", "for example apples, oranges", 3);
  }

  /** "e.g." followed by a space and more text becomes "for example". */
  lemma ExpandApples()
    ensures ExpandAbbreviations("e.g. apples, oranges") == "for example apples, oranges"
  {
    ApplesNoDoctor();
    ApplesFront();
    ApplesNoEtCetera();
    ExpandStages("e.g. apples, oranges", "e.g. apples, oranges",
      "for example apples, oranges", "for example apples, oranges");
  }

  lemma EtCeteraFront()
    ensures Substitute(Standalone("etc."), "et cetera", "etc.") == "et cetera"
  {
    assert "etc." == "etc." + [];
    ReplaceAtFront("etc.", "et cetera", [], 0);
    assert "et cetera" + [] == "et cetera";
  }

  /** "etc." as the whole text becomes "et cetera". */
  lemma ExpandEtCetera()
    ensures ExpandAbbreviations("etc.") == "et cetera"
  {
    SubstituteWithout("Dr.", "Doctor", "etc.", 0);
    SubstituteWithout("e.g.", "for example", "etc.", 2);
    EtCeteraFront();
    ExpandStages("etc.", "etc.", "etc.", "et cetera");
  }

  /** A text without abbreviations is returned as it is. */
  lemma ExpandNothing()
    ensures ExpandAbbreviations("Nothing to expand") == "Nothing to expand"
  {
    ExpandAbbreviationsWithoutDot("Nothing to expand");
  }

  lemma AttachedFront()
    ensures Substitute(Standalone("Dr."), "Doctor", "Dr.Smith") == "Dr.Smith"
  {
    AttachedNoMatch();
    SubstituteFromCopies(Standalone("Dr."), "Doctor", "Dr.Smith", 0);
    AttachedRest();
    assert ['D'] + "r.Smith" == "Dr.Smith";
  }

  lemma AttachedNoMatch()
    ensures MatchLen(Standalone("Dr."), "Dr.Smith", 0) == 0
  {
    assert IsWordChar("Dr.Smith"[3]);
  }

  lemma AttachedRest()
    ensures "Dr.Smith"[0] == 'D'
    ensures SubstituteFrom(Standalone("Dr."), "Doctor", "Dr.Smith", 1) == "r.Smith"
  {
    assert "Dr.Smith"[1..] == "r.Smith";
    SubstituteFromWithout("Dr.", "Doctor", "Dr.Smith", 1, 0);
  }

  lemma AttachedNoOther()
    ensures Substitute(Standalone("e.g."), "for example", "Dr.Smith") == "Dr.Smith"
    ensures Substitute(Standalone("etc."), "et cetera", "Dr.Smith") == "Dr.Smith"
  {
    SubstituteWithout("e.g.", "for example", "Dr.Smith", 0);
    SubstituteWithout("etc.", "et cetera", "Dr.Smith", 0);
  }

  /** "Dr." directly followed by a word character is not standalone and is kept. */
  lemma ExpandAttached()
    ensures ExpandAbbreviations("Dr.Smith") == "Dr.Smith"
  {
    AttachedFront();
    AttachedNoOther();
    ExpandStages("Dr.Smith", "Dr.Smith", "Dr.Smith", "Dr.Smith");
  }

  // ---------------------------------------------------------------------------
  // preprocess_text

  lemma DoctorSmithSpacedFront()
    ensures Substitute(Standalone("Dr."), "Doctor", "Dr. Smith  ") == "Doctor Smith  "
  {
    assert "Dr. Smith  " == "Dr." + " Smith  ";
    ReplaceAtFront("Dr.", "Doctor", " Smith  ", 2);
    assert "Doctor" + " Smith  " == "Doctor Smith  ";
  }

  lemma DoctorSmithSpacedExpand()
    ensures ExpandAbbreviations("Dr. Smith  ") == "Doctor Smith  "
  {
    DoctorSmithSpacedFront();
    SubstituteWithout("e.g.", "for example", "Doctor Smith  ", 1);
    SubstituteWithout("etc.", "et cetera", "Doctor Smith  ", 3);
    ExpandStages("Dr. Smith  ", "Doctor Smith  ", "Doctor Smith  ", "Doctor Smith  ");
  }

  lemma DoctorSmithSplit()
    ensures "Doctor Smith  " == "Doctor" + " " + "Smith" + "  "
    ensures Token("Doctor") && Token("Smith") && AllSpace(" ") && AllSpace("  ")
  {
  }

  lemma DoctorSmithLetters()
    ensures 'v' !in "Doctor" + "Smith" && 'V' !in "Doctor" + "Smith"
  {
  }

  lemma DoctorLower()
    ensures Lower("Doctor") == "doctor"
  {
  }

  lemma SmithLower()
    ensures Lower("Smith") == "smith"
  {
  }

  lemma DoctorSmithLower()
    ensures Lower("Doctor") + " " + Lower("Smith") == "doctor smith"
  {
    DoctorLower();
    SmithLower();
  }

  /** The abbreviation is expanded, the result lower-cased and the trailing
      spaces dropped. */
  lemma PreprocessDoctorSmith()
    ensures Preprocess("Dr. Smith  ") == "doctor smith"
  {
    DoctorSmithSpacedExpand();
    DoctorSmithSplit();
    DoctorSmithLetters();
    DoctorSmithLower();
    PreprocessTwoWords("Dr. Smith  ", "Doctor", " ", "Smith", "  ");
  }

  lemma BananasFront()
    ensures Substitute(Standalone("e.g."), "for example", "e.g. bananas") == "for example bananas"
  {
    assert "e.g. bananas" == "e.g." + " bananas";
    ReplaceAtFront("e.g.", "for example", " bananas", 3);
    assert "for example" + " bananas" == "for example bananas";
  }

  /** "Dr." cannot occur in a text without the letter d. */
  lemma NoDoctor(s: string)
    requires 'D' !in s && 'd' !in s
    ensures Substitute(Standalone("Dr."), "Doctor", s) == s
  {
    SubstituteWithout("Dr.", "Doctor", s, 0);
  }

  /** "etc." cannot occur in a text without a full stop. */
  lemma NoEtCetera(s: string)
    requires '.' !in s
    ensures Substitute(Standalone("etc."), "et cetera", s) == s
  {
    SubstituteWithout("etc.", "et cetera", s, 3);
  }

  lemma BananasNoDoctor()
    ensures Substitute(Standalone("Dr."), "Doctor", "e.g. bananas") == "e.g. bananas"
  {
    NoDoctor("e.g. bananas");
  }

  lemma BananasNoEtCetera()
    ensures Substitute(Standalone("etc."), "et cetera", "for example bananas") == "for example bananas"
  {
    assert "for example bananas" == "for example" + " bananas";
    NoEtCetera("for example bananas");
  }

  lemma BananasExpand()
    ensures ExpandAbbreviations("e.g. bananas") == "for example bananas"
  {
    BananasNoDoctor();
    BananasNoEtCetera();
    BananasFront();
    ExpandStages("e.g. bananas", "e.g. bananas", "for example bananas", "for example bananas");
  }

  lemma BananasJoin()
    ensures JoinWords(["for", "example", "bananas"]) == "for example bananas"
  {
    assert JoinWords(["for", "example", "bananas"]) == "for" + " " + ("example" + " " + "bananas");
  }

  lemma BananasWords()
    ensures Words("for example bananas") == ["for", "example", "bananas"]
  {
    var ws := ["for", "example", "bananas"];
    assert Token(ws[0]) && Token(ws[1]) && Token(ws[2]);
    BananasJoin();
    WordsOfJoin(ws);
  }

  lemma BananasLower()
    ensures Lower("for example bananas") == "for example bananas"
  {
    assert NoUpper("for example bananas");
  }

  lemma BananasNoFold()
    ensures Substitute(LiteralDigits("developer "), "developer", "for example bananas") == "for example bananas"
  {
    SubstituteWithoutPrefix("developer ", "developer", "for example bananas", 2);
  }

  /** An abbreviation expands into several words, all kept. */
  lemma PreprocessBananas()
    ensures Preprocess("e.g. bananas") == "for example bananas"
  {
    BananasExpand();
    BananasLower();
    BananasNoFold();
    BananasWords();
    BananasJoin();
    PreprocessExample("e.g. bananas", "for example bananas", "for example bananas", "for example bananas",
      ["for", "example", "bananas"], "for example bananas");
  }

  lemma MixedCaseSplit()
    ensures "Mixed  Case" == "Mixed" + "  " + "Case" + ""
    ensures Token("Mixed") && Token("Case") && AllSpace("  ") && AllSpace("")
  {
  }

  lemma MixedCaseLetters()
    ensures 'v' !in "Mixed" + "Case" && 'V' !in "Mixed" + "Case"
  {
  }

  lemma MixedLower()
    ensures Lower("Mixed") == "mixed"
  {
  }

  lemma CaseLower()
    ensures Lower("Case") == "case"
  {
  }

  lemma MixedCaseLower()
    ensures Lower("Mixed") + " " + Lower("Case") == "mixed case"
  {
    MixedLower();
    CaseLower();
  }

  /** Capitals are lowered and the inner run of spaces becomes one space. */
  lemma PreprocessMixedCase()
    ensures Preprocess("Mixed  Case") == "mixed case"
  {
    ExpandAbbreviationsWithoutDot("Mixed  Case");
    MixedCaseSplit();
    MixedCaseLetters();
    MixedCaseLower();
    PreprocessTwoWords("Mixed  Case", "Mixed", "  ", "Case", "");
  }

  lemma ExampleLower()
    ensures Lower("Example") == "example"
  {
  }

  lemma DigitLower(d: char)
    requires IsDigit(d)
    ensures Lower([d]) == [d]
  {
  }

  lemma ExampleDigitSplit(d: char)
    requires IsDigit(d)
    ensures "Example " + [d] == "Example" + " " + [d] + ""
    ensures Token("Example") && Token([d]) && AllSpace(" ") && AllSpace("")
    ensures 'v' !in "Example" + [d] && 'V' !in "Example" + [d]
  {
  }

  lemma ExampleDigitLower(d: char)
    requires IsDigit(d)
    ensures Lower("Example") + " " + Lower([d]) == "example " + [d]
  {
    ExampleLower();
    DigitLower(d);
  }

  /** Only "developer <digits>" is folded: other numbered words keep their
      number. */
  lemma PreprocessExampleDigit(d: char)
    requires IsDigit(d)
    ensures Preprocess("Example " + [d]) == "example " + [d]
  {
    assert '.' !in "Example ";
    ExpandAbbreviationsWithoutDot("Example " + [d]);
    ExampleDigitSplit(d);
    ExampleDigitLower(d);
    PreprocessTwoWords("Example " + [d], "Example", " ", [d], "");
  }

  lemma TestNumberSplit()
    ensures "Test 123" == "Test" + " " + "123" + ""
    ensures Token("Test") && Token("123") && AllSpace(" ") && AllSpace("")
  {
  }

  lemma TestNumberLetters()
    ensures 'v' !in "Test" + "123" && 'V' !in "Test" + "123"
  {
  }

  lemma TestNumberLower()
    ensures Lower("Test") + " " + Lower("123") == "test 123"
  {
    assert Lower("Test") == "test";
    assert Lower("123") == "123";
  }

  lemma PreprocessTestNumber()
    ensures Preprocess("Test 123") == "test 123"
  {
    ExpandAbbreviationsWithoutDot("Test 123");
    TestNumberSplit();
    TestNumberLetters();
    TestNumberLower();
    PreprocessTwoWords("Test 123", "Test", " ", "123", "");
  }

  lemma DeveloperDigitNoAbbreviation(d: char)
    requires IsDigit(d)
    ensures ExpandAbbreviations("developer " + [d]) == "developer " + [d]
  {
    assert '.' !in "developer ";
    ExpandAbbreviationsWithoutDot("developer " + [d]);
  }

  lemma DeveloperLower()
    ensures Lower("developer ") == "developer "
  {
    assert NoUpper("developer ");
    LowerIdentity("developer ");
  }

  lemma DeveloperDigitLower(d: char)
    requires IsDigit(d)
    ensures Lower("developer " + [d]) == "developer " + [d]
  {
    LowerAppend("developer ", [d]);
    DeveloperLower();
    assert Lower([d]) == [d];
  }

  lemma DeveloperDigitFold(d: char)
    requires IsDigit(d)
    ensures Substitute(LiteralDigits("developer "), "developer", "developer " + [d]) == "developer"
  {
    assert "developer " + [d] + [] == "developer " + [d];
    FoldAtFront(d, []);
    assert "developer" + [] == "developer";
  }

  lemma DeveloperWord()
    ensures Words("developer") == ["developer"]
    ensures JoinWords(["developer"]) == "developer"
  {
    assert Token("developer");
    WordsOfJoin(["developer"]);
  }

  /** "developer", a space and one digit fold to "developer". */
  lemma PreprocessDeveloperDigit(d: char)
    requires IsDigit(d)
    ensures Preprocess("developer " + [d]) == "developer"
  {
    var s := "developer " + [d];
    DeveloperDigitNoAbbreviation(d);
    DeveloperDigitLower(d);
    DeveloperDigitFold(d);
    DeveloperWord();
    PreprocessExample(s, s, s, "developer", ["developer"], "developer");
  }

  lemma DeveloperOneTwoNoAbbreviation()
    ensures ExpandAbbreviations("developer 1 2") == "developer 1 2"
  {
    ExpandAbbreviationsWithoutDot("developer 1 2");
  }

  lemma DeveloperOneTwoLower()
    ensures Lower("developer 1 2") == "developer 1 2"
  {
    assert NoUpper("developer 1 2");
    LowerIdentity("developer 1 2");
  }

  lemma DeveloperOneTwoFold()
    ensures Substitute(LiteralDigits("developer "), "developer", "developer 1 2") == "developer 2"
  {
    assert "developer 1 2" == "developer " + ['1'] + " 2";
    FoldAtFront('1', " 2");
    assert "developer" + " 2" == "developer 2";
  }

  lemma DeveloperTwoWords()
    ensures Words("developer 2") == ["developer", "2"]
    ensures JoinWords(["developer", "2"]) == "developer 2"
  {
    assert "developer 2" == "developer" + " " + "2" + "";
    assert Token("developer") && Token("2");
    TwoWords("developer", " ", "2", "");
  }

  lemma PreprocessDeveloperOneTwo()
    ensures Preprocess("developer 1 2") == "developer 2"
  {
    DeveloperOneTwoNoAbbreviation();
    DeveloperOneTwoLower();
    DeveloperOneTwoFold();
    DeveloperTwoWords();
    PreprocessExample("developer 1 2", "developer 1 2", "developer 1 2", "developer 2",
      ["developer", "2"], "developer 2");
  }

  lemma DeveloperTwoFold()
    ensures Substitute(LiteralDigits("developer "), "developer", "developer 2") == "developer"
  {
    assert "developer 2" == "developer " + ['2'] + [];
    FoldAtFront('2', []);
    assert "developer" + [] == "developer";
  }

  lemma DeveloperTwoLower()
    ensures Lower("developer 2") == "developer 2"
  {
    assert NoUpper("developer 2");
    LowerIdentity("developer 2");
  }

  lemma PreprocessDeveloperTwo()
    ensures Preprocess("developer 2") == "developer"
  {
    ExpandAbbreviationsWithoutDot("developer 2");
    DeveloperTwoLower();
    DeveloperTwoFold();
    DeveloperWord();
    PreprocessExample("developer 2", "developer 2", "developer 2", "developer", ["developer"], "developer");
  }

  /** The rewrite replaces one "developer <digits>" per occurrence, so a second
      number becomes foldable only after the first pass: `preprocess_text` is
      not idempotent. */
  lemma PreprocessNotIdempotent()
    ensures Preprocess("developer 1 2") == "developer 2"
    ensures Preprocess(Preprocess("developer 1 2")) == "developer"
  {
    PreprocessDeveloperOneTwo();
    PreprocessDeveloperTwo();
  }

  // ---------------------------------------------------------------------------
  // should_ignore_match

  lemma NumberedExamples()
    ensures "Example " + ['1'] == "Example 1" && "example " + ['1'] == "example 1"
    ensures "Example " + ['2'] == "Example 2" && "example " + ['2'] == "example 2"
  {
  }

  /** "Example 1" and "Example 2" are kept apart. */
  lemma IgnoreExamplePair()
    ensures ShouldIgnore("Example 1", "Example 2")
  {
    PreprocessExampleDigit('1');
    PreprocessExampleDigit('2');
    NumberedExamples();
    ShouldIgnoreIff("Example 1", "Example 2");
  }

  lemma TestCasePrefixLower()
    ensures Lower("Test Case ") == "test case "
  {
  }

  /** Lower-casing a word whose only capital is its first letter. */
  lemma LowerCapitalised(c: char, rest: string)
    requires NoUpper(rest)
    ensures Lower([c] + rest) == [ToLower(c)] + rest
  {
    LowerAppend([c], rest);
    LowerIdentity(rest);
  }

  lemma TestCaseLower(d: char)
    requires IsDigit(d)
    ensures Lower("Test Case " + [d]) == "test case " + [d]
  {
    LowerAppend("Test Case ", [d]);
    TestCasePrefixLower();
    DigitLower(d);
  }

  lemma TestCaseWords(d: char)
    requires IsDigit(d)
    ensures Words("test case " + [d]) == ["test", "case", [d]]
    ensures JoinWords(["test", "case", [d]]) == "test case " + [d]
  {
    var ws := ["test", "case", [d]];
    assert Token(ws[0]) && Token(ws[1]) && Token(ws[2]);
    assert ws[1..] == ["case", [d]] && ws[1..][1..] == [[d]];
    assert JoinWords(ws[1..]) == "case" + " " + [d];
    assert JoinWords(ws) == "test" + " " + ("case" + " " + [d]);
    assert "test" + " " + ("case" + " " + [d]) == "test case " + [d];
    WordsOfJoin(ws);
  }

  lemma TestCaseNoFold(d: char)
    requires IsDigit(d)
    ensures Substitute(LiteralDigits("developer "), "developer", "test case " + [d]) == "test case " + [d]
  {
    SubstituteWithoutPrefix("developer ", "developer", "test case " + [d], 2);
  }

  lemma PreprocessTestCase(d: char)
    requires IsDigit(d)
    ensures Preprocess("Test Case " + [d]) == "test case " + [d]
  {
    var s, l := "Test Case " + [d], "test case " + [d];
    assert '.' !in "Test Case ";
    ExpandAbbreviationsWithoutDot(s);
    TestCaseLower(d);
    TestCaseNoFold(d);
    TestCaseWords(d);
    PreprocessExample(s, s, l, l, ["test", "case", [d]], l);
  }

  /** Any two numbered test cases are kept apart. */
  lemma IgnoreTestCases(d1: char, d2: char)
    requires IsDigit(d1) && IsDigit(d2)
    ensures ShouldIgnore("Test Case " + [d1], "Test Case " + [d2])
  {
    PreprocessTestCase(d1);
    PreprocessTestCase(d2);
    assert TestCase("test case " + [d1]) && TestCase("test case " + [d2]) by {
      assert ("test case " + [d1])[10..] == [d1];
      assert ("test case " + [d2])[10..] == [d2];
    }
    ShouldIgnoreIff("Test Case " + [d1], "Test Case " + [d2]);
  }

  /** Without a dot no abbreviation is expanded, and without a "v" there is
      no "developer <digits>" to fold. */
  lemma NothingToFold(s: string)
    requires '.' !in s && 'v' !in s && 'V' !in s
    ensures !Occurs(IgnoreSimilar[0].pattern, Lower(ExpandAbbreviations(s)))
  {
    ExpandAbbreviationsWithoutDot(s);
    assert SwapCase('v') == 'V';
    LowerWithout(s, 'v');
    NoFoldWithoutV(Lower(s));
  }

  lemma NoFoldWithoutV(x: string)
    requires 'v' !in x
    ensures !Occurs(IgnoreSimilar[0].pattern, x)
  {
    assert "developer "[2] == 'v';
    NoPrefixMatch("developer ", x, 2);
  }

  /** A text whose digits are none holds no digit character. */
  lemma NoDigitChars(r: string)
    requires Digits(r) == []
    ensures forall c :: c in r ==> !IsDigit(c)
  {
    forall k | 0 <= k < |r| && IsDigit(r[k]) ensures false {
      DigitIn(r, k);
    }
  }

  /** A text without digits, dots or the letter v is normalised without
      gaining a digit. */
  lemma PreprocessDigitFree(s: string)
    requires Digits(s) == []
    requires '.' !in s && 'v' !in s && 'V' !in s
    ensures Digits(Preprocess(s)) == []
  {
    NothingToFold(s);
    PreprocessKeepsDigits(s);
  }

  lemma SentenceNoDigits()
    ensures Digits("This is an example") == []
  {
    NoDigits("This is an example");
  }

  lemma SentenceLetters()
    ensures '.' !in "This is an example" && 'v' !in "This is an example" && 'V' !in "This is an example"
  {
  }

  lemma DigitFreeNotNumbered(p: string)
    requires forall c :: c in p ==> !IsDigit(c)
    ensures p != "example 1" && p != "example 2"
  {
    assert '2' in "example 2" && '1' in "example 1";
  }

  lemma ExampleOneNotTestCase()
    ensures !TestCase("example 1")
  {
    assert |"example 1"| == 9;
  }

  /** The configured pairs never apply to "example 1" and a text without
      digits. */
  lemma ExampleOneAndDigitFree(p1: string, p2: string)
    requires p1 == "example 1" && Digits(p2) == []
    ensures !AnyPairApplies(IgnoreCombinations, p1, p2)
  {
    NoDigitChars(p2);
    DigitFreeNotNumbered(p2);
    ExampleOneNotTestCase();
    IgnoreCombinationsIff(p1, p2);
  }

  /** "Example 1" is not kept apart from any text without digits, dots or
      the letter v. */
  lemma KeepExampleAndPlain(text2: string)
    requires Digits(text2) == [] && '.' !in text2 && 'v' !in text2 && 'V' !in text2
    ensures !ShouldIgnore("Example 1", text2)
  {
    PreprocessExampleDigit('1');
    NumberedExamples();
    PreprocessDigitFree(text2);
    ExampleOneAndDigitFree(Preprocess("Example 1"), Preprocess(text2));
  }

  /** A numbered example and a sentence merely containing "example" are not
      kept apart. */
  lemma KeepExampleAndSentence()
    ensures !ShouldIgnore("Example 1", "This is an example")
  {
    SentenceNoDigits();
    SentenceLetters();
    KeepExampleAndPlain("This is an example");
  }
}
