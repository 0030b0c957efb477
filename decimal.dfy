/** Decimal numerals: the digit strings the partitioner cuts and parses
    (Long.valueOf on a substring) and the text that String.valueOf and the
    "%d" format produce for a long, in ASCII digits (for "%d", under a
    locale whose zero digit is '0'). */
module Decimal {

  predicate IsDigit(c: char) {
    '0' <= c <= '9'
  }

  predicate IsDigits(s: string) {
    forall i :: 0 <= i < |s| ==> IsDigit(s[i])
  }

  function DigitValue(c: char): (d: nat)
    requires IsDigit(c)
    ensures d < 10
  {
    (c as int) - ('0' as int)
  }

  function DigitChar(d: nat): (c: char)
    requires d < 10
    ensures IsDigit(c) && DigitValue(c) == d
  {
    (('0' as int) + d) as char
  }

  function Pow10(n: nat): (p: nat)
    ensures p >= 1
  {
    if n == 0 then 1 else 10 * Pow10(n - 1)
  }

  /** The numeric value of a string of decimal digits, leading zeros included:
      Value("05") == 5, Value("") == 0. */
  function Value(s: string): (v: nat)
    requires IsDigits(s)
    ensures v < Pow10(|s|)
  {
    if s == [] then 0 else Value(s[..|s| - 1]) * 10 + DigitValue(s[|s| - 1])
  }

  /** Shortest decimal text of a natural number (no sign, no leading zeros). */
  function NatToString(n: nat): (s: string)
    ensures |s| >= 1 && IsDigits(s)
  {
    if n < 10 then [DigitChar(n)] else NatToString(n / 10) + [DigitChar(n % 10)]
  }

  /** Decimal text of a long in ASCII digits, as String.valueOf(long) writes
      it, and as the "%d" format does when the default locale's zero digit
      is '0'. */
  function LongToString(n: int): (s: string)
    ensures |s| >= 1
    ensures (s[0] == '-') <==> n < 0
    ensures n >= 0 ==> s == NatToString(n)
    ensures n < 0 ==> s == ['-'] + NatToString(-n)
  {
    if n < 0 then ['-'] + NatToString(-n) else NatToString(n)
  }

  /** Length of the longest prefix of s made only of digits. */
  function DigitPrefixLength(s: string): (k: nat)
    ensures k <= |s|
    ensures IsDigits(s[..k])
    ensures k < |s| ==> !IsDigit(s[k])
  {
    if s == [] || !IsDigit(s[0]) then 0 else 1 + DigitPrefixLength(s[1..])
  }

  /** Parses an optionally negative decimal integer that fills the whole text. */
  function ParseLong(s: string): (r: Option<int>)
    ensures r.Some? ==> |s| >= 1
  {
    if |s| >= 2 && s[0] == '-' && IsDigits(s[1..]) then Some(0 - Value(s[1..]) as int)
    else if |s| >= 1 && IsDigits(s) then Some(Value(s))
    else None
  }

  datatype Option<+T> = None | Some(value: T)

  lemma {:induction false} ValueOfNatToString(n: nat)
    ensures Value(NatToString(n)) == n
  {
    if n >= 10 {
      var s := NatToString(n);
      assert s[..|s| - 1] == NatToString(n / 10);
      ValueOfNatToString(n / 10);
    }
  }

  lemma ParseLongOfLongToString(n: int)
    ensures ParseLong(LongToString(n)) == Some(n)
  {
    var s := LongToString(n);
    if n < 0 {
      assert s[1..] == NatToString(-n);
      ValueOfNatToString(-n);
    } else {
      ValueOfNatToString(n);
    }
  }

  /** A run of digits followed by a non-digit (or by nothing) is exactly the
      longest digit prefix. */
  lemma {:induction false} DigitPrefixOfAppend(a: string, b: string)
    requires IsDigits(a)
    requires b == [] || !IsDigit(b[0])
    ensures DigitPrefixLength(a + b) == |a|
  {
    if a != [] {
      assert (a + b)[1..] == a[1..] + b;
      DigitPrefixOfAppend(a[1..], b);
    }
  }

  /** Value(a + b) shifts a's value left past b's digits. */
  lemma {:induction false} ValueOfConcat(a: string, b: string)
    requires IsDigits(a) && IsDigits(b)
    ensures IsDigits(a + b)
    ensures Value(a + b) == Value(a) * Pow10(|b|) + Value(b)
  {
    if b == [] {
      assert a + b == a;
    } else {
      var ab, b' := a + b, b[..|b| - 1];
      assert ab[..|ab| - 1] == a + b';
      assert ab[|ab| - 1] == b[|b| - 1];
      ValueOfConcat(a, b');
      ShiftDigit(Value(a), Pow10(|b'|), Value(b'), DigitValue(b[|b| - 1]));
    }
  }

  lemma ShiftDigit(x: int, p: int, y: int, d: int)
    ensures (x * p + y) * 10 + d == x * (10 * p) + (y * 10 + d)
  {
  }

  /** The value of a contiguous piece of a digit string never exceeds the value
      of the whole string. */
  lemma SubstringValueBound(s: string, i: nat, j: nat)
    requires IsDigits(s) && i <= j <= |s|
    ensures IsDigits(s[i..j]) && Value(s[i..j]) <= Value(s)
  {
    PrefixValueBound(s, j);
    var t := s[..j];
    SuffixValueBound(t, i);
    assert t[i..] == s[i..j];
  }

  lemma PrefixValueBound(s: string, j: nat)
    requires IsDigits(s) && j <= |s|
    ensures IsDigits(s[..j]) && Value(s[..j]) <= Value(s)
  {
    ValueOfSplit(s, j);
    ScaleAtLeast(Value(s[..j]), Pow10(|s| - j));
  }

  lemma SuffixValueBound(s: string, i: nat)
    requires IsDigits(s) && i <= |s|
    ensures IsDigits(s[i..]) && Value(s[i..]) <= Value(s)
  {
    ValueOfSplit(s, i);
    ScaleAtLeast(Value(s[..i]), Pow10(|s| - i));
  }

  /** Splitting a digit string at i splits its value. */
  lemma ValueOfSplit(s: string, i: nat)
    requires IsDigits(s) && i <= |s|
    ensures IsDigits(s[..i]) && IsDigits(s[i..])
    ensures Value(s) == Value(s[..i]) * Pow10(|s| - i) + Value(s[i..])
  {
    var a, b := s[..i], s[i..];
    assert IsDigits(a) by { DigitsSlice(s, 0, i); assert s[0..i] == a; }
    assert IsDigits(b) by { DigitsSlice(s, i, |s|); assert s[i..|s|] == b; }
    assert Value(a + b) == Value(a) * Pow10(|b|) + Value(b) by { ValueOfConcat(a, b); }
    assert s == a + b;
  }

  lemma DigitsSlice(s: string, i: nat, j: nat)
    requires IsDigits(s) && i <= j <= |s|
    ensures IsDigits(s[i..j])
  {
    assert forall k :: 0 <= k < j - i ==> s[i..j][k] == s[i + k];
  }

  lemma ScaleAtLeast(x: nat, p: nat)
    requires p >= 1
    ensures x * p >= x
  {
  }
}
