/** Text: C strings that end at the first NUL, searching from the left, case, and numbers. */
module Text {
  import opened Basics
  import opened Options

  /** The text up to its first NUL. */
  function CString(text: string): (s: string)
    ensures s <= text && '\0' !in s
  {
    if |text| == 0 || text[0] == '\0' then "" else [text[0]] + CString(text[1..])
  }

  lemma InFirst<T>(s: seq<T>, x: T)
    requires |s| > 0
    ensures x in s <==> x == s[0] || x in s[1..]
  {
    assert s == [s[0]] + s[1..];
  }

  lemma CStringFirst(c: char, rest: string)
    ensures CString([c] + rest) == if c == '\0' then "" else [c] + CString(rest)
  {
    assert ([c] + rest)[1..] == rest;
  }

  lemma {:induction false} CStringOfConcat(a: string, b: string)
    ensures CString(a + b) == if '\0' in a then CString(a) else a + CString(b)
  {
    if |a| == 0 {
      assert a + b == b;
    } else {
      CStringOfConcat(a[1..], b);
      InFirst(a, '\0');
      CStringFirst(a[0], a[1..]);
      CStringFirst(a[0], a[1..] + b);
      hide CString;
      assert [a[0]] + a[1..] == a;
      Concat([a[0]], a[1..], b);
      Concat([a[0]], a[1..], CString(b));
    }
  }

  predicate OccursAt(text: string, pattern: string, i: nat) {
    i + |pattern| <= |text| && text[i..i + |pattern|] == pattern
  }

  /** The first place at or after `from` where the pattern stands. */
  function Find(text: string, pattern: string, from: nat): (r: Option<nat>)
    ensures r.Some? ==> from <= r.value && OccursAt(text, pattern, r.value)
    ensures r.Some? ==> forall i :: from <= i < r.value ==> !OccursAt(text, pattern, i)
    ensures r.None? ==> forall i :: from <= i ==> !OccursAt(text, pattern, i)
    decreases |text| - from
  {
    if from + |pattern| > |text| then None
    else if OccursAt(text, pattern, from) then Some(from)
    else if from == |text| then None
    else Find(text, pattern, from + 1)
  }

  lemma FindFirst(text: string, pattern: string, from: nat, i: nat)
    requires from <= i && OccursAt(text, pattern, i)
    requires forall j :: from <= j < i ==> !OccursAt(text, pattern, j)
    ensures Find(text, pattern, from) == Some(i)
  {}

  lemma NotThere(text: string, pattern: string, j: nat)
    requires j < |text| && |pattern| > 0 && text[j] != pattern[0]
    ensures !OccursAt(text, pattern, j)
  {
    if j + |pattern| <= |text| { assert text[j..j + |pattern|][0] == text[j]; }
  }

  function Lower(c: char): char { if 'A' <= c <= 'Z' then c - 'A' + 'a' else c }

  /** The letters, one by one; every other character stays as it is. */
  lemma LowerExact(c: char, k: nat)
    requires k < 26
    ensures c == "ABCDEFGHIJKLMNOPQRSTUVWXYZ"[k] ==> Lower(c) == "abcdefghijklmnopqrstuvwxyz"[k]
    ensures c !in "ABCDEFGHIJKLMNOPQRSTUVWXYZ" ==> Lower(c) == c
  {
    UpperLetter(k);
    LowerLetter(k);
    if 'A' <= c <= 'Z' { UpperLetter((c - 'A') as nat); }
  }

  lemma UpperLetter(k: nat)
    requires k < 26
    ensures "ABCDEFGHIJKLMNOPQRSTUVWXYZ"[k] as int == 'A' as int + k
  {
    var s := "ABCDEFGHIJKLMNOPQRSTUVWXYZ";
    assert s == "A" + s[1..];
  }

  lemma UpperLetters(c: char)
    ensures 'A' <= c <= 'Z' <==> c in "ABCDEFGHIJKLMNOPQRSTUVWXYZ"
  {
    if 'A' <= c <= 'Z' { UpperLetter((c - 'A') as nat); }
    if k :| 0 <= k < 26 && "ABCDEFGHIJKLMNOPQRSTUVWXYZ"[k] == c { UpperLetter(k); }
  }

  lemma LowerLetters(c: char)
    ensures 'a' <= c <= 'z' <==> c in "abcdefghijklmnopqrstuvwxyz"
  {
    if 'a' <= c <= 'z' { LowerLetter((c - 'a') as nat); }
    if k :| 0 <= k < 26 && "abcdefghijklmnopqrstuvwxyz"[k] == c { LowerLetter(k); }
  }

  lemma LowerLetter(k: nat)
    requires k < 26
    ensures "abcdefghijklmnopqrstuvwxyz"[k] as int == 'a' as int + k
  {
    var s := "abcdefghijklmnopqrstuvwxyz";
    assert s == "a" + s[1..];
  }

  predicate SameIgnoringCase(a: string, b: string) {
    |a| == |b| && forall i :: 0 <= i < |a| ==> Lower(a[i]) == Lower(b[i])
  }

  predicate IsDigit(c: char) { '0' <= c <= '9' }

  function DigitValue(c: char): nat
    requires IsDigit(c)
  {
    (c - '0') as nat
  }

  predicate AllDigits(text: string) { forall i :: 0 <= i < |text| ==> IsDigit(text[i]) }

  function DecimalNumber(digits: string): nat
    requires AllDigits(digits)
  {
    if |digits| == 0 then 0 else 10 * DecimalNumber(digits[..|digits| - 1]) + DigitValue(digits[|digits| - 1])
  }

  /** A decimal number that may have a sign before it. */
  function SignedNumber(text: string): Option<int> {
    var signed := |text| > 0 && (text[0] == '-' || text[0] == '+');
    var digits := if signed then text[1..] else text;
    if |digits| == 0 || !AllDigits(digits) then None
    else
      var v := DecimalNumber(digits) as int;
      Some(if signed && text[0] == '-' then -v else v)
  }

  function Digit(n: nat): (c: char)
    requires n < 10
    ensures IsDigit(c) && DigitValue(c) == n
  {
    '0' + n as char
  }

  function DecimalText(n: nat): (text: string)
    ensures |text| > 0 && AllDigits(text)
  {
    if n < 10 then [Digit(n)] else DecimalText(n / 10) + [Digit(n % 10)]
  }

  lemma {:induction false} DecimalRoundTrip(n: nat)
    ensures DecimalNumber(DecimalText(n)) == n
  {
    if n >= 10 {
      DecimalRoundTrip(n / 10);
      assert DecimalText(n)[..|DecimalText(n)| - 1] == DecimalText(n / 10);
    } else {
      assert DecimalText(n)[..0] == "";
    }
  }

  function HexValue(c: char): (v: Option<nat>)
    ensures v.Some? ==> v.value < 16
  {
    if '0' <= c <= '9' then Some((c - '0') as nat)
    else if 'a' <= c <= 'f' then Some((c - 'a') as nat + 10)
    else if 'A' <= c <= 'F' then Some((c - 'A') as nat + 10)
    else None
  }

  /** The sixteen digits in both cases have their values, and no other character has one. */
  lemma HexDigitsExact(c: char, v: nat)
    requires v < 16
    ensures HexValue(c) == Some(v) <==> c == "0123456789abcdef"[v] || c == "0123456789ABCDEF"[v]
  {
    if v < 8 {
      if v == 0 {} else if v == 1 {} else if v == 2 {} else if v == 3 {} else if v == 4 {} else if v == 5 {}
      else if v == 6 {}
    } else {
      if v == 8 {} else if v == 9 {} else if v == 10 {} else if v == 11 {} else if v == 12 {} else if v == 13 {}
      else if v == 14 {}
    }
  }

  predicate IsBlank(c: char) { c == ' ' || c == '\t' }

  function SkipBlanks(text: string): string {
    if |text| > 0 && IsBlank(text[0]) then SkipBlanks(text[1..]) else text
  }

  function TrimBlanks(text: string): string {
    if |text| > 0 && IsBlank(text[|text| - 1]) then TrimBlanks(text[..|text| - 1]) else text
  }
}
