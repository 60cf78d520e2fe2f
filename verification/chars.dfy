/**
  Character classes and case mapping used by the fixed patterns of the
  normaliser: `\w`, `\s`, `\d` and `str.lower()`, all restricted to ASCII.
  Characters outside ASCII are never word characters, digits or whitespace
  here, and `Lower` leaves them unchanged.
 */
module Chars {

  /** `\w`: a letter, a digit or the underscore. */
  predicate IsWordChar(c: char) {
    ('a' <= c <= 'z') || ('A' <= c <= 'Z') || ('0' <= c <= '9') || c == '_'
  }

  /** `\d` */
  predicate IsDigit(c: char) {
    '0' <= c <= '9'
  }

  /** `\s` and `str.isspace()`: tab, line feed, vertical tab, form feed,
      carriage return, the four information separators and the space. */
  predicate IsSpace(c: char) {
    (9 <= c as int <= 13) || (28 <= c as int <= 32)
  }

  predicate IsUpper(c: char) {
    'A' <= c <= 'Z'
  }

  /** `str.lower()` on one character. */
  function ToLower(c: char): (d: char)
    ensures !IsUpper(d)
    ensures IsUpper(c) ==> 'a' <= d <= 'z' && d as int - c as int == 'a' as int - 'A' as int
    ensures !IsUpper(c) ==> d == c
    ensures IsDigit(d) <==> IsDigit(c)
    ensures IsSpace(d) <==> IsSpace(c)
  {
    if IsUpper(c) then (c as int - 'A' as int + 'a' as int) as char else c
  }

  /** The other-case form of a letter; any other character is its own. */
  function SwapCase(c: char): (d: char)
    ensures ToLower(d) == ToLower(c)
    ensures ('a' <= c <= 'z' || IsUpper(c)) ==> d != c
  {
    if IsUpper(c) then ToLower(c)
    else if 'a' <= c <= 'z' then (c as int - 'a' as int + 'A' as int) as char
    else c
  }

  /** Two characters equal up to case are equal or case-swapped. */
  lemma SameUpToCase(x: char, y: char)
    requires ToLower(x) == ToLower(y)
    ensures x == y || x == SwapCase(y)
  {
  }

  /** `str.lower()` */
  function Lower(s: string): (r: string)
    ensures |r| == |s|
    ensures forall k :: 0 <= k < |s| ==> r[k] == ToLower(s[k])
  {
    seq(|s|, k requires 0 <= k < |s| => ToLower(s[k]))
  }

  predicate NoUpper(s: string) {
    forall c :: c in s ==> !IsUpper(c)
  }

  lemma LowerAppend(a: string, b: string)
    ensures Lower(a + b) == Lower(a) + Lower(b)
  {
  }

  /** Lower-casing leaves a text without capitals unchanged. */
  lemma LowerIdentity(s: string)
    requires NoUpper(s)
    ensures Lower(s) == s
  {
  }

  /** A letter that appears in `s` in neither case is absent from `Lower(s)`. */
  lemma LowerWithout(s: string, c: char)
    requires 'a' <= c <= 'z' && c !in s && SwapCase(c) !in s
    ensures c !in Lower(s)
  {
    forall k | 0 <= k < |s| ensures Lower(s)[k] != c {
      if ToLower(s[k]) == c {
        SameUpToCase(s[k], c);
      }
    }
  }

  /** The digits of `s`, in order. */
  function Digits(s: string): (r: string)
    ensures |r| <= |s|
  {
    if s == [] then []
    else (if IsDigit(s[0]) then [s[0]] else []) + Digits(s[1..])
  }

  lemma {:induction false} DigitsAppend(a: string, b: string)
    ensures Digits(a + b) == Digits(a) + Digits(b)
    decreases |a|
  {
    if a == [] {
      assert a + b == b;
    } else {
      var head := if IsDigit(a[0]) then [a[0]] else [];
      assert (a + b)[0] == a[0];
      assert (a + b)[1..] == a[1..] + b;
      assert Digits(a + b) == head + Digits(a[1..] + b);
      DigitsAppend(a[1..], b);
      assert Digits(a) == head + Digits(a[1..]);
    }
  }

  lemma {:induction false} LowerKeepsDigits(s: string)
    ensures Digits(Lower(s)) == Digits(s)
    decreases |s|
  {
    if s != [] {
      assert Lower(s)[1..] == Lower(s[1..]);
      LowerKeepsDigits(s[1..]);
    }
  }
}
