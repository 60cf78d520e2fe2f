/**
  The text normaliser: abbreviation expansion (`expand_abbreviations`) and the
  full pipeline (`preprocess_text`): expand, lower-case, fold numbered
  developers, collapse whitespace runs and strip the ends.
 */
module Normalize {
  import opened Chars
  import opened Rewrite

  /** One `re.sub` step of a configuration table. */
  datatype Rule = Rule(pattern: Pattern, replacement: string)

  /** `ABBREVIATIONS`, in insertion order; each key becomes a standalone,
      case-insensitive pattern. */
  const Abbreviations: seq<Rule> := [
    Rule(Standalone("Dr."), "Doctor"),
    Rule(Standalone("e.g."), "for example"),
    Rule(Standalone("etc."), "et cetera")
  ]

  /** `IGNORE_SIMILAR` */
  const IgnoreSimilar: seq<Rule> := [
    Rule(LiteralDigits("developer "), "developer")
  ]

  predicate AllWellformed(rules: seq<Rule>) {
    forall k :: 0 <= k < |rules| ==> Wellformed(rules[k].pattern)
  }

  /** Every rule replaces a standalone word by something strictly longer. */
  predicate Lengthening(rules: seq<Rule>) {
    forall k :: 0 <= k < |rules| ==>
      rules[k].pattern.Standalone? && |rules[k].pattern.word| < |rules[k].replacement|
  }

  /** Every rule replaces a digit-free standalone word by a digit-free text. */
  predicate DigitFree(rules: seq<Rule>) {
    forall k :: 0 <= k < |rules| ==>
      rules[k].pattern.Standalone? && Digits(rules[k].pattern.word) == [] && Digits(rules[k].replacement) == []
  }

  /** Some occurrence of `p` starts in `s`. */
  ghost predicate Occurs(p: Pattern, s: string) {
    exists i :: 0 <= i < |s| && MatchLen(p, s, i) > 0
  }

  /** Apply the rules in order, each to the output of the one before. */
  function ApplyRules(rules: seq<Rule>, s: string): string
    decreases |rules|
  {
    if rules == [] then s
    else ApplyRules(rules[1..], Substitute(rules[0].pattern, rules[0].replacement, s))
  }

  /** `ApplyRules` with every `re.sub` read declaratively. */
  ghost function ApplyRulesSpec(rules: seq<Rule>, s: string): string
    decreases |rules|
  {
    if rules == [] then s
    else ApplyRulesSpec(rules[1..], Spec(Lengths(rules[0].pattern, s), rules[0].replacement, s, 0))
  }

  /** `expand_abbreviations` */
  function ExpandAbbreviations(text: string): string {
    ApplyRules(Abbreviations, text)
  }

  lemma AbbreviationsWellformed()
    ensures AllWellformed(Abbreviations)
  {
    assert Wellformed(Standalone("Dr."));
    assert Wellformed(Standalone("e.g."));
    assert Wellformed(Standalone("etc."));
  }

  lemma IgnoreSimilarWellformed()
    ensures AllWellformed(IgnoreSimilar)
  {
    assert Wellformed(LiteralDigits("developer "));
  }

  lemma AbbreviationsLengthen()
    ensures Lengthening(Abbreviations)
  {
  }

  lemma AbbreviationsDigitFree()
    ensures DigitFree(Abbreviations)
  {
    forall k | 0 <= k < |Abbreviations|
      ensures Abbreviations[k].pattern.Standalone?
      ensures Digits(Abbreviations[k].pattern.word) == []
      ensures Digits(Abbreviations[k].replacement) == []
    {
      if k == 0 {
        DoctorDigitFree();
      } else if k == 1 {
        ForExampleDigitFree();
      } else {
        EtCeteraDigitFree();
      }
    }
  }

  lemma DoctorDigitFree()
    ensures Digits("Dr.") == [] && Digits("Doctor") == []
  {
  }

  lemma ForExampleDigitFree()
    ensures Digits("e.g.") == [] && Digits("for example") == []
  {
  }

  lemma EtCeteraDigitFree()
    ensures Digits("etc.") == [] && Digits("et cetera") == []
  {
  }

  lemma {:induction false} ApplyRulesIsSpec(rules: seq<Rule>, s: string)
    requires AllWellformed(rules)
    ensures ApplyRules(rules, s) == ApplyRulesSpec(rules, s)
    decreases |rules|
  {
    if rules != [] {
      SubstituteIsSpec(rules[0].pattern, rules[0].replacement, s);
      ApplyRulesIsSpec(rules[1..], Substitute(rules[0].pattern, rules[0].replacement, s));
    }
  }

  /** Every configured abbreviation standing alone is replaced by its
      expansion and every other character is kept, table entry by table
      entry. */
  lemma ExpandAbbreviationsIsSpec(text: string)
    ensures ExpandAbbreviations(text) == ApplyRulesSpec(Abbreviations, text)
  {
    AbbreviationsWellformed();
    ApplyRulesIsSpec(Abbreviations, text);
  }

  lemma {:induction false} ApplyRulesLengthens(rules: seq<Rule>, s: string)
    requires Lengthening(rules)
    ensures |ApplyRules(rules, s)| >= |s|
    decreases |rules|
  {
    if rules != [] {
      var p, rep := rules[0].pattern, rules[0].replacement;
      SubstituteLengthens(p.word, rep, s);
      ApplyRulesLengthens(rules[1..], Substitute(p, rep, s));
    }
  }

  /** A text is left unchanged exactly when no rule finds a standalone
      occurrence in it. */
  lemma {:induction false} ApplyRulesUnchangedIff(rules: seq<Rule>, s: string)
    requires Lengthening(rules)
    ensures ApplyRules(rules, s) == s <==> forall k :: 0 <= k < |rules| ==> !Occurs(rules[k].pattern, s)
    decreases |rules|
  {
    if rules != [] {
      var p, rep := rules[0].pattern, rules[0].replacement;
      var t := Substitute(p, rep, s);
      if Occurs(p, s) {
        SubstituteLengthens(p.word, rep, s);
        ApplyRulesLengthens(rules[1..], t);
        assert |ApplyRules(rules, s)| > |s|;
      } else {
        SubstituteFromIdentity(p, rep, s, 0);
        assert t == s;
        ApplyRulesUnchangedIff(rules[1..], s);
        assert forall k :: 1 <= k < |rules| ==> rules[k] == rules[1..][k - 1];
      }
    }
  }

  /** `expand_abbreviations` returns its input exactly when the input holds
      no standalone abbreviation. */
  lemma ExpandAbbreviationsUnchangedIff(text: string)
    ensures ExpandAbbreviations(text) == text <==>
      forall k :: 0 <= k < |Abbreviations| ==> !Occurs(Abbreviations[k].pattern, text)
  {
    AbbreviationsLengthen();
    ApplyRulesUnchangedIff(Abbreviations, text);
  }

  /** A standalone word ending in a full stop cannot occur in a text without one. */
  lemma NoOccurrenceWithoutDot(w: string, s: string)
    requires |w| > 0 && w[|w| - 1] == '.' && '.' !in s
    ensures !Occurs(Standalone(w), s)
  {
    forall i | 0 <= i < |s| ensures MatchLen(Standalone(w), s, i) == 0 {
      StandaloneMatch(w, s, i);
      if i + |w| <= |s| {
        assert ToLower(s[i + (|w| - 1)]) != '.';
      }
    }
  }

  /** Every abbreviation ends in a full stop, so a text without one is returned
      unchanged. */
  lemma ExpandAbbreviationsWithoutDot(text: string)
    requires '.' !in text
    ensures ExpandAbbreviations(text) == text
  {
    NoOccurrenceWithoutDot("Dr.", text);
    NoOccurrenceWithoutDot("e.g.", text);
    NoOccurrenceWithoutDot("etc.", text);
    ExpandAbbreviationsUnchangedIff(text);
  }

  lemma {:induction false} ApplyRulesKeepsDigits(rules: seq<Rule>, s: string)
    requires DigitFree(rules)
    ensures Digits(ApplyRules(rules, s)) == Digits(s)
    decreases |rules|
  {
    if rules != [] {
      var p, rep := rules[0].pattern, rules[0].replacement;
      SubstituteKeepsDigits(p.word, rep, s);
      ApplyRulesKeepsDigits(rules[1..], Substitute(p, rep, s));
    }
  }

  /** Abbreviation expansion neither adds nor removes a digit. */
  lemma ExpandAbbreviationsKeepsDigits(text: string)
    ensures Digits(ExpandAbbreviations(text)) == Digits(text)
  {
    AbbreviationsDigitFree();
    ApplyRulesKeepsDigits(Abbreviations, text);
  }

  lemma {:induction false} ApplyRulesKeepsLowerCase(rules: seq<Rule>, s: string)
    requires NoUpper(s)
    requires forall k :: 0 <= k < |rules| ==> NoUpper(rules[k].replacement)
    ensures NoUpper(ApplyRules(rules, s))
    decreases |rules|
  {
    if rules != [] {
      var r := Substitute(rules[0].pattern, rules[0].replacement, s);
      forall c | c in r ensures !IsUpper(c) {
        SubstituteChars(rules[0].pattern, rules[0].replacement, s, c);
      }
      ApplyRulesKeepsLowerCase(rules[1..], Substitute(rules[0].pattern, rules[0].replacement, s));
    }
  }

  // ---------------------------------------------------------------------------
  // Whitespace: re.sub(r"\s+", " ", text).strip()

  predicate AllSpace(s: string) {
    forall k :: 0 <= k < |s| ==> IsSpace(s[k])
  }

  /** The length of the whitespace run at the front of `s`. */
  function LeadingSpaces(s: string): (n: nat)
    ensures n <= |s|
    ensures AllSpace(s[..n])
    ensures n == |s| || !IsSpace(s[n])
  {
    if s != [] && IsSpace(s[0]) then 1 + LeadingSpaces(s[1..]) else 0
  }

  /** The length of the run of non-whitespace characters at the front of `s`. */
  function WordLength(s: string): (n: nat)
    ensures n <= |s|
    ensures forall k :: 0 <= k < n ==> !IsSpace(s[k])
    ensures n == |s| || IsSpace(s[n])
  {
    if s != [] && !IsSpace(s[0]) then 1 + WordLength(s[1..]) else 0
  }

  /** `re.sub(r"\s+", " ", s)`: every maximal whitespace run becomes one space. */
  function Collapse(s: string): (r: string)
    ensures forall c :: c in r ==> c == ' ' || (c in s && !IsSpace(c))
    decreases |s|
  {
    if s == [] then []
    else if IsSpace(s[0]) then " " + Collapse(s[LeadingSpaces(s)..])
    else [s[0]] + Collapse(s[1..])
  }

  /** `str.lstrip()` */
  function StripLeft(s: string): (r: string)
    ensures |r| <= |s| && r == s[|s| - |r|..]
    ensures AllSpace(s[..|s| - |r|])
    ensures r == [] || !IsSpace(r[0])
  {
    if s != [] && IsSpace(s[0]) then
      var r := StripLeft(s[1..]);
      StripLeftStep(s, r);
      r
    else s
  }

  lemma StripLeftStep(s: string, r: string)
    requires s != [] && IsSpace(s[0])
    requires |r| <= |s| - 1 && r == s[1..][|s| - 1 - |r|..] && AllSpace(s[1..][..|s| - 1 - |r|])
    ensures r == s[|s| - |r|..] && AllSpace(s[..|s| - |r|])
  {
    var k := |s| - |r|;
    assert s[1..][k - 1..] == s[k..];
    forall t | 0 <= t < k ensures IsSpace(s[..k][t]) {
      if t > 0 {
        assert s[..k][t] == s[1..][..k - 1][t - 1];
      }
    }
  }

  /** `str.rstrip()` */
  function StripRight(s: string): (r: string)
    ensures |r| <= |s| && r == s[..|r|]
    ensures AllSpace(s[|r|..])
    ensures r == [] || !IsSpace(r[|r| - 1])
  {
    if s != [] && IsSpace(s[|s| - 1]) then StripRight(s[..|s| - 1]) else s
  }

  /** `str.strip()` */
  function Strip(s: string): string {
    StripRight(StripLeft(s))
  }

  /** Whitespace normalisation: collapse, then strip. */
  function Squeeze(s: string): string {
    Strip(Collapse(s))
  }

  /** A non-empty run of non-whitespace characters. */
  predicate Token(w: string) {
    |w| > 0 && forall k :: 0 <= k < |w| ==> !IsSpace(w[k])
  }

  /** `str.split()` with no argument: the maximal non-whitespace runs, in order. */
  function Words(s: string): (ws: seq<string>)
    ensures forall k :: 0 <= k < |ws| ==> Token(ws[k])
    decreases |s|
  {
    if s == [] then []
    else if IsSpace(s[0]) then Words(s[LeadingSpaces(s)..])
    else
      var n := WordLength(s);
      [s[..n]] + Words(s[n..])
  }

  /** `" ".join(ws)` */
  function JoinWords(ws: seq<string>): string
    decreases |ws|
  {
    if |ws| == 0 then []
    else if |ws| == 1 then ws[0]
    else ws[0] + " " + JoinWords(ws[1..])
  }

  /** The shape of normalised text: single spaces only, none at the ends. */
  predicate Squeezed(r: string) {
    && (forall k :: 0 <= k < |r| && IsSpace(r[k]) ==> r[k] == ' ')
    && (forall k :: 0 <= k < |r| - 1 ==> !(IsSpace(r[k]) && IsSpace(r[k + 1])))
    && (r == [] || (!IsSpace(r[0]) && !IsSpace(r[|r| - 1])))
  }

  lemma {:induction false} LeadingSpacesOf(sp: string, rest: string)
    requires AllSpace(sp) && (rest == [] || !IsSpace(rest[0]))
    ensures LeadingSpaces(sp + rest) == |sp|
    decreases |sp|
  {
    if sp == [] {
      assert sp + rest == rest;
    } else {
      assert (sp + rest)[1..] == sp[1..] + rest;
      LeadingSpacesOf(sp[1..], rest);
    }
  }

  /** Leading whitespace separates no word. */
  lemma WordsSkipSpaces(sp: string, rest: string)
    requires AllSpace(sp) && (rest == [] || !IsSpace(rest[0]))
    ensures Words(sp + rest) == Words(rest)
  {
    LeadingSpacesOf(sp, rest);
    CollapseLeading(sp + rest);
    assert (sp + rest)[|sp|..] == rest;
  }

  /** A token followed by whitespace or the end is the first word. */
  lemma WordsOfToken(w: string, rest: string)
    requires Token(w) && (rest == [] || IsSpace(rest[0]))
    ensures Words(w + rest) == [w] + Words(rest)
  {
    assert WordLength(w + rest) == |w|;
    assert (w + rest)[..|w|] == w;
    assert (w + rest)[|w|..] == rest;
  }

  /** Lower-casing keeps a token a token. */
  lemma TokenLower(w: string)
    requires Token(w)
    ensures Token(Lower(w))
  {
  }

  /** Splitting words joined by single spaces gives the words back. */
  lemma {:induction false} WordsOfJoin(ws: seq<string>)
    requires forall k :: 0 <= k < |ws| ==> Token(ws[k])
    ensures Words(JoinWords(ws)) == ws
    decreases |ws|
  {
    if |ws| == 1 {
      WordsOfToken(ws[0], []);
      assert ws[0] + [] == ws[0];
    } else if |ws| > 1 {
      var w, rest := ws[0], ws[1..];
      TokensTail(ws);
      WordsOfJoin(rest);
      JoinWordsHead(rest);
      WordsOfJoinStep(w, rest);
      assert ws == [w] + rest;
    }
  }

  lemma TokensTail(ws: seq<string>)
    requires ws != [] && forall k :: 0 <= k < |ws| ==> Token(ws[k])
    ensures Token(ws[0]) && forall k :: 0 <= k < |ws[1..]| ==> Token(ws[1..][k])
  {
    forall k | 0 <= k < |ws[1..]| ensures Token(ws[1..][k]) {
      assert ws[1..][k] == ws[k + 1];
    }
  }

  /** Joined words begin with the first word. */
  lemma JoinWordsHead(ws: seq<string>)
    requires ws != [] && Token(ws[0])
    ensures JoinWords(ws) != [] && !IsSpace(JoinWords(ws)[0])
  {
    if |ws| > 1 {
      assert JoinWords(ws) == ws[0] + " " + JoinWords(ws[1..]);
      assert JoinWords(ws)[0] == ws[0][0];
    }
  }

  /** One more word in front of words that split back correctly. */
  lemma WordsOfJoinStep(w: string, rest: seq<string>)
    requires Token(w) && rest != [] && Words(JoinWords(rest)) == rest
    requires JoinWords(rest) != [] && !IsSpace(JoinWords(rest)[0])
    ensures Words(JoinWords([w] + rest)) == [w] + rest
  {
    var j := JoinWords(rest);
    JoinWordsCons(w, rest);
    assert w + " " + j == w + (" " + j);
    WordsOfToken(w, " " + j);
    WordsSkipSpaces(" ", j);
  }

  lemma {:induction false} JoinWordsSqueezed(ws: seq<string>)
    requires forall k :: 0 <= k < |ws| ==> Token(ws[k])
    ensures Squeezed(JoinWords(ws))
    ensures JoinWords(ws) == [] <==> ws == []
    decreases |ws|
  {
    if |ws| == 1 {
      assert Token(ws[0]);
    } else if |ws| > 1 {
      var w, rest := ws[0], JoinWords(ws[1..]);
      TokensTail(ws);
      JoinWordsSqueezed(ws[1..]);
      JoinWordsHead(ws[1..]);
      var r := w + " " + rest;
      assert JoinWords(ws) == r;
      assert forall k :: 0 <= k < |w| ==> r[k] == w[k];
      assert r[|w|] == ' ';
      assert forall k :: |w| < k < |r| ==> r[k] == rest[k - |w| - 1];
    }
  }

  lemma {:induction false} CollapseWordPrefix(s: string)
    requires s != [] && !IsSpace(s[0])
    ensures Collapse(s) == s[..WordLength(s)] + Collapse(s[WordLength(s)..])
    decreases |s|
  {
    var n := WordLength(s);
    if n > 1 {
      var t := s[1..];
      assert WordLength(t) == n - 1;
      CollapseWordPrefix(t);
      SplitAfterHead(s, n);
    }
  }

  lemma SplitAfterHead(s: string, n: nat)
    requires 1 <= n <= |s|
    ensures s[1..][..n - 1] == s[1..n] && s[1..][n - 1..] == s[n..] && s[..n] == [s[0]] + s[1..n]
  {
  }

  function TrailingSpace(s: string): string {
    if s != [] && IsSpace(s[|s| - 1]) then " " else []
  }

  lemma CollapseOneWord(s: string)
    requires s != [] && !IsSpace(s[0]) && WordLength(s) == |s|
    ensures Collapse(s) == JoinWords(Words(s)) + TrailingSpace(s)
  {
    CollapseWordPrefix(s);
    assert s[..|s|] == s;
    assert s[|s|..] == [];
    assert Words(s) == [s] + Words([]);
    assert !IsSpace(s[|s| - 1]);
  }

  lemma WordsFromSpace(t: string)
    requires t != [] && IsSpace(t[0])
    ensures Collapse(t) == " " + Collapse(t[LeadingSpaces(t)..])
    ensures Words(t) == Words(t[LeadingSpaces(t)..])
  {
  }

  lemma JoinWordsCons(w: string, ws: seq<string>)
    requires ws != []
    ensures JoinWords([w] + ws) == w + " " + JoinWords(ws)
  {
    assert ([w] + ws)[1..] == ws;
  }

  lemma CollapseWordThenSpaces(s: string)
    requires s != [] && !IsSpace(s[0]) && WordLength(s) < |s|
    requires var t := s[WordLength(s)..]; LeadingSpaces(t) == |t|
    ensures Collapse(s) == JoinWords(Words(s)) + TrailingSpace(s)
  {
    var n := WordLength(s);
    var w, t := s[..n], s[n..];
    CollapseWordPrefix(s);
    WordsOfWordThenSpace(s);
    OnlySpaces(t);
    TrailingSpaceOfTail(s, n);
    assert Words(s) == [w];
  }

  /** A non-empty run of whitespace collapses to one space and holds no word. */
  lemma OnlySpaces(t: string)
    requires t != [] && LeadingSpaces(t) == |t|
    ensures Collapse(t) == " " && Words(t[LeadingSpaces(t)..]) == [] && TrailingSpace(t) == " "
  {
    WordsFromSpace(t);
    assert t[|t|..] == [];
    assert IsSpace(t[..|t|][|t| - 1]);
  }

  lemma CollapseWordThenMore(s: string)
    requires s != [] && !IsSpace(s[0]) && WordLength(s) < |s|
    requires var t := s[WordLength(s)..]; LeadingSpaces(t) < |t|
    requires var t := s[WordLength(s)..]; var u := t[LeadingSpaces(t)..];
      Collapse(u) == JoinWords(Words(u)) + TrailingSpace(u)
    ensures Collapse(s) == JoinWords(Words(s)) + TrailingSpace(s)
  {
    var n := WordLength(s);
    var t := s[n..];
    var u := t[LeadingSpaces(t)..];
    CollapseSideOfWordThenMore(s);
    WordsSideOfWordThenMore(s);
    Reassociate(Collapse(s), JoinWords(Words(s)), s[..n], JoinWords(Words(u)), TrailingSpace(u));
  }

  lemma CollapseSideOfWordThenMore(s: string)
    requires s != [] && !IsSpace(s[0]) && WordLength(s) < |s|
    requires var t := s[WordLength(s)..]; LeadingSpaces(t) < |t|
    requires var t := s[WordLength(s)..]; var u := t[LeadingSpaces(t)..];
      Collapse(u) == JoinWords(Words(u)) + TrailingSpace(u)
    ensures var t := s[WordLength(s)..]; var u := t[LeadingSpaces(t)..];
      Collapse(s) == s[..WordLength(s)] + (" " + (JoinWords(Words(u)) + TrailingSpace(u)))
  {
    CollapseWordPrefix(s);
    WordsFromSpace(s[WordLength(s)..]);
  }

  lemma WordsSideOfWordThenMore(s: string)
    requires s != [] && !IsSpace(s[0]) && WordLength(s) < |s|
    requires var t := s[WordLength(s)..]; LeadingSpaces(t) < |t|
    ensures var t := s[WordLength(s)..]; var u := t[LeadingSpaces(t)..];
      && JoinWords(Words(s)) == s[..WordLength(s)] + " " + JoinWords(Words(u))
      && TrailingSpace(s) == TrailingSpace(u)
  {
    var n := WordLength(s);
    var t := s[n..];
    var m := LeadingSpaces(t);
    var u := t[m..];
    WordsOfWordThenSpace(s);
    WordsOfWord(u);
    JoinWordsCons(s[..n], Words(u));
    TrailingSpaceOfSuffix(s, n, m);
  }

  /** A word followed by whitespace: the word, then the words after the
      whitespace. */
  lemma WordsOfWordThenSpace(s: string)
    requires s != [] && !IsSpace(s[0]) && WordLength(s) < |s|
    ensures var t := s[WordLength(s)..];
      Words(s) == [s[..WordLength(s)]] + Words(t[LeadingSpaces(t)..])
  {
    WordsFromSpace(s[WordLength(s)..]);
  }

  /** A text that begins with a non-whitespace character has a first word. */
  lemma WordsOfWord(u: string)
    requires u != [] && !IsSpace(u[0])
    ensures Words(u) != []
  {
    assert Words(u) == [u[..WordLength(u)]] + Words(u[WordLength(u)..]);
  }

  /** Dropping a proper prefix keeps the last character. */
  lemma TrailingSpaceOfTail(s: string, k: nat)
    requires k < |s|
    ensures TrailingSpace(s[k..]) == TrailingSpace(s)
  {
    LastOfSuffix(s, k);
    SameTrailingSpace(s, s[k..]);
  }

  lemma TrailingSpaceOfSuffix(s: string, n: nat, m: nat)
    requires n <= |s| && m < |s[n..]|
    ensures TrailingSpace(s[n..][m..]) == TrailingSpace(s)
  {
    assert s[n..][m..] == s[n + m..];
    TrailingSpaceOfTail(s, n + m);
  }

  lemma Reassociate(c: string, j: string, w: string, ju: string, tr: string)
    requires c == w + (" " + (ju + tr)) && j == w + " " + ju
    ensures c == j + tr
  {
  }

  lemma LastOfSuffix(s: string, k: nat)
    requires k < |s|
    ensures s[k..][|s| - k - 1] == s[|s| - 1]
  {
  }

  lemma SameTrailingSpace(s: string, u: string)
    requires s != [] && u != [] && s[|s| - 1] == u[|u| - 1]
    ensures TrailingSpace(s) == TrailingSpace(u)
  {
  }

  /** From a text that does not begin with whitespace, collapsing yields the
      words joined by single spaces, plus one space if the text ends in
      whitespace. */
  lemma {:induction false} CollapseFromWord(s: string)
    requires s == [] || !IsSpace(s[0])
    ensures Collapse(s) == JoinWords(Words(s)) + TrailingSpace(s)
    decreases |s|
  {
    if s != [] {
      var n := WordLength(s);
      var t := s[n..];
      if t == [] {
        CollapseOneWord(s);
      } else if LeadingSpaces(t) == |t| {
        CollapseWordThenSpaces(s);
      } else {
        var u := t[LeadingSpaces(t)..];
        CollapseFromWord(u);
        CollapseWordThenMore(s);
      }
    }
  }

  lemma {:induction false} StripLeftOfSpaces(a: string, t: string)
    requires AllSpace(a) && (t == [] || !IsSpace(t[0]))
    ensures StripLeft(a + t) == t
    decreases |a|
  {
    if a != [] {
      assert (a + t)[1..] == a[1..] + t;
      StripLeftOfSpaces(a[1..], t);
    } else {
      assert a + t == t;
    }
  }

  lemma {:induction false} StripRightOfSpaces(t: string, b: string)
    requires AllSpace(b) && (t == [] || !IsSpace(t[|t| - 1]))
    ensures StripRight(t + b) == t
    decreases |b|
  {
    if b != [] {
      assert (t + b)[..|t + b| - 1] == t + b[..|b| - 1];
      StripRightOfSpaces(t, b[..|b| - 1]);
    } else {
      assert t + b == t;
    }
  }

  /** `strip()` removes exactly the surrounding whitespace. */
  lemma StripSurrounded(a: string, j: string, b: string)
    requires AllSpace(a) && AllSpace(b)
    requires j == [] || (!IsSpace(j[0]) && !IsSpace(j[|j| - 1]))
    ensures Strip(a + j + b) == j
  {
    if j == [] {
      assert a + j + b == (a + b) + [];
      assert AllSpace(a + b);
      StripLeftOfSpaces(a + b, []);
    } else {
      assert a + j + b == a + (j + b);
      StripLeftOfSpaces(a, j + b);
      StripRightOfSpaces(j, b);
    }
  }

  /** Collapsing is a single space for the leading whitespace, if any, then
      the collapse of what follows it. */
  lemma CollapseLeading(s: string)
    ensures var m := LeadingSpaces(s);
      Collapse(s) == (if m > 0 then " " else []) + Collapse(s[m..])
    ensures Words(s) == Words(s[LeadingSpaces(s)..])
  {
    if LeadingSpaces(s) > 0 {
      WordsFromSpace(s);
    } else {
      assert s[0..] == s;
    }
  }

  /** Collapsing gives at most one space in front, the words joined by single
      spaces, and at most one space behind. */
  lemma CollapseShape(s: string)
    ensures var u := s[LeadingSpaces(s)..];
      Collapse(s) == (if LeadingSpaces(s) > 0 then " " else []) + (JoinWords(Words(s)) + TrailingSpace(u))
  {
    var u := s[LeadingSpaces(s)..];
    CollapseLeading(s);
    CollapseFromWord(u);
  }

  /** `re.sub(r"\s+", " ", s).strip()` is `" ".join(s.split())`. */
  lemma SqueezeIsJoinWords(s: string)
    ensures Squeeze(s) == JoinWords(Words(s))
  {
    var u := s[LeadingSpaces(s)..];
    var lead: string := if LeadingSpaces(s) > 0 then " " else [];
    CollapseShape(s);
    JoinWordsSqueezed(Words(s));
    StripCollapsed(Collapse(s), lead, JoinWords(Words(s)), TrailingSpace(u));
  }

  lemma StripCollapsed(c: string, lead: string, j: string, trail: string)
    requires c == lead + (j + trail)
    requires AllSpace(lead) && AllSpace(trail)
    requires Squeezed(j)
    ensures Strip(c) == j
  {
    assert lead + (j + trail) == lead + j + trail;
    StripSurrounded(lead, j, trail);
  }

  lemma {:induction false} CollapseKeepsDigits(s: string)
    ensures Digits(Collapse(s)) == Digits(s)
    decreases |s|
  {
    if s != [] {
      if IsSpace(s[0]) {
        CollapseKeepsDigits(s[LeadingSpaces(s)..]);
        CollapseDigitsOverSpaces(s);
      } else {
        CollapseKeepsDigits(s[1..]);
        DigitsAppend([s[0]], Collapse(s[1..]));
      }
    }
  }

  lemma CollapseDigitsOverSpaces(s: string)
    requires s != [] && IsSpace(s[0])
    requires Digits(Collapse(s[LeadingSpaces(s)..])) == Digits(s[LeadingSpaces(s)..])
    ensures Digits(Collapse(s)) == Digits(s)
  {
    var m := LeadingSpaces(s);
    SpacesHaveNoDigits(s[..m]);
    SplitAt(s, m);
    WordsFromSpace(s);
    DigitsBehindDigitFree(" ", Collapse(s[m..]), s[..m], s[m..]);
  }

  lemma SplitAt(s: string, m: nat)
    requires m <= |s|
    ensures s[..m] + s[m..] == s
  {
  }

  lemma SpacesHaveNoDigits(sp: string)
    requires AllSpace(sp)
    ensures Digits(sp) == []
  {
    NoDigits(sp);
  }

  lemma StripLeftKeepsDigits(s: string)
    ensures Digits(StripLeft(s)) == Digits(s)
  {
    var l := StripLeft(s);
    var n := |s| - |l|;
    assert s == s[..n] + l;
    DigitsAppend(s[..n], l);
    NoDigits(s[..n]);
  }

  lemma StripRightKeepsDigits(s: string)
    ensures Digits(StripRight(s)) == Digits(s)
  {
    var r := StripRight(s);
    assert s == r + s[|r|..];
    DigitsAppend(r, s[|r|..]);
    NoDigits(s[|r|..]);
  }

  lemma StripKeepsDigits(s: string)
    ensures Digits(Strip(s)) == Digits(s)
  {
    StripLeftKeepsDigits(s);
    StripRightKeepsDigits(StripLeft(s));
  }

  /** Whitespace normalisation touches whitespace only, so keeps every digit. */
  lemma SqueezeKeepsDigits(s: string)
    ensures Digits(Squeeze(s)) == Digits(s)
  {
    CollapseKeepsDigits(s);
    StripKeepsDigits(Collapse(s));
  }

  /** Whitespace normalisation adds no character other than a space. */
  lemma SqueezeKeepsLowerCase(s: string)
    requires NoUpper(s)
    ensures NoUpper(Squeeze(s))
  {
    var c := Collapse(s);
    assert NoUpper(c);
    var l := StripLeft(c);
    NoUpperSlice(c, |c| - |l|, |c|);
    assert c[|c| - |l|..|c|] == l;
    var r := StripRight(l);
    NoUpperSlice(l, 0, |r|);
    assert l[0..|r|] == r;
  }

  lemma NoUpperSlice(s: string, a: nat, b: nat)
    requires NoUpper(s) && a <= b <= |s|
    ensures NoUpper(s[a..b])
  {
    forall k | 0 <= k < b - a ensures !IsUpper(s[a..b][k]) {
      assert s[a..b][k] == s[a + k];
    }
  }

  /** Whitespace normalisation yields normalised text. */
  lemma SqueezeSqueezed(s: string)
    ensures Squeezed(Squeeze(s))
  {
    SqueezeIsJoinWords(s);
    JoinWordsSqueezed(Words(s));
  }

  // ---------------------------------------------------------------------------
  // preprocess_text

  /** `preprocess_text`: the result has no upper-case letter, no whitespace
      other than single spaces between words and none at either end. */
  function Preprocess(text: string): (r: string)
    ensures NoUpper(r)
    ensures Squeezed(r)
  {
    var lowered := Lower(ExpandAbbreviations(text));
    var folded := ApplyRules(IgnoreSimilar, lowered);
    ApplyRulesKeepsLowerCase(IgnoreSimilar, lowered);
    SqueezeKeepsLowerCase(folded);
    SqueezeSqueezed(folded);
    Squeeze(folded)
  }

  /** `preprocess_text` as the composition of its stages. */
  lemma PreprocessStages(text: string, expanded: string, lowered: string, folded: string)
    requires ExpandAbbreviations(text) == expanded
    requires Lower(expanded) == lowered
    requires Substitute(IgnoreSimilar[0].pattern, IgnoreSimilar[0].replacement, lowered) == folded
    ensures Preprocess(text) == JoinWords(Words(folded))
  {
    assert IgnoreSimilar[1..] == [];
    assert ApplyRules(IgnoreSimilar, lowered) == folded;
    assert Preprocess(text) == Squeeze(folded);
    SqueezeIsJoinWords(folded);
  }

  /** `preprocess_text` read declaratively: every standalone abbreviation
      expanded, table entry by table entry; lower-cased; every
      "developer <digits>" folded; then the words joined by single spaces. */
  lemma PreprocessIsSpec(text: string)
    ensures Preprocess(text) ==
      JoinWords(Words(ApplyRulesSpec(IgnoreSimilar, Lower(ApplyRulesSpec(Abbreviations, text)))))
  {
    var lowered := Lower(ExpandAbbreviations(text));
    ExpandAbbreviationsIsSpec(text);
    IgnoreSimilarWellformed();
    ApplyRulesIsSpec(IgnoreSimilar, lowered);
    SqueezeIsJoinWords(ApplyRules(IgnoreSimilar, lowered));
  }

  /** Without a "developer <digits>" to fold, `preprocess_text` keeps every
      digit of its input, in order. */
  lemma PreprocessKeepsDigits(text: string)
    requires !Occurs(IgnoreSimilar[0].pattern, Lower(ExpandAbbreviations(text)))
    ensures Digits(Preprocess(text)) == Digits(text)
  {
    var expanded := ExpandAbbreviations(text);
    var lowered := Lower(expanded);
    ExpandAbbreviationsKeepsDigits(text);
    LowerKeepsDigits(expanded);
    SubstituteFromIdentity(IgnoreSimilar[0].pattern, IgnoreSimilar[0].replacement, lowered, 0);
    assert ApplyRules(IgnoreSimilar, lowered) == lowered;
    SqueezeKeepsDigits(lowered);
  }
}
