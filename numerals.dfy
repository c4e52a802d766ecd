/**
 * The C library's `atoi` as the relay server uses it on the packet tag and
 * on button values: skip leading white space, take an optional sign, then
 * the longest run of decimal digits; text with no digits there reads as 0.
 */
module Numerals {
  /** `isspace` in the "C" locale. */
  predicate IsSpace(c: char) {
    c == ' ' || c == '\t' || c == '\n' || c == '\U{B}' || c == '\U{C}' || c == '\r'
  }

  predicate IsDigit(c: char) {
    '0' <= c <= '9'
  }

  predicate AllDigits(d: string) {
    forall i :: 0 <= i < |d| ==> IsDigit(d[i])
  }

  function DigitValue(c: char): (v: nat)
    requires IsDigit(c)
    ensures v < 10
  {
    c as int - '0' as int
  }

  function DigitChar(v: nat): (c: char)
    requires v < 10
    ensures IsDigit(c) && DigitValue(c) == v
  {
    ('0' as int + v) as char
  }

  /** The text after the leading white space. */
  function SkipSpace(s: string): (r: string)
    ensures |r| <= |s| && r == s[|s| - |r|..]
    ensures r == [] || !IsSpace(r[0])
    ensures forall i :: 0 <= i < |s| - |r| ==> IsSpace(s[i])
  {
    if s != [] && IsSpace(s[0]) then SkipSpace(s[1..]) else s
  }

  /** The longest prefix of `s` made of digits. */
  function LeadingDigits(s: string): (r: string)
    ensures |r| <= |s| && r == s[..|r|]
    ensures AllDigits(r)
    ensures |r| == |s| || !IsDigit(s[|r|])
  {
    if s != [] && IsDigit(s[0]) then [s[0]] + LeadingDigits(s[1..]) else []
  }

  /** The number a string of decimal digits denotes, most significant first. */
  function DecimalValue(d: string): nat
    requires AllDigits(d)
  {
    if d == [] then 0 else 10 * DecimalValue(d[..|d| - 1]) + DigitValue(d[|d| - 1])
  }

  /**
   * `atoi(s)`. The result is unbounded: a value beyond the range of `int`
   * is undefined behaviour in C and is not modelled.
   */
  function Atoi(s: string): (r: int)
    ensures r < 0 ==> SkipSpace(s) != [] && SkipSpace(s)[0] == '-'
    ensures r > 0 ==> SkipSpace(s) != [] && SkipSpace(s)[0] != '-'
    ensures r != 0 ==> exists i :: 0 <= i < |s| && IsDigit(s[i])
  {
    var t := SkipSpace(s);
    if t != [] && (t[0] == '-' || t[0] == '+') then
      var m: int := DecimalValue(LeadingDigits(t[1..]));
      if t[0] == '-' then -m else m
    else
      DecimalValue(LeadingDigits(t))
  }

  /** Text with no digit at all, such as a non-numeric tag, reads as 0. */
  lemma AtoiWithoutDigits(s: string)
    requires forall i :: 0 <= i < |s| ==> !IsDigit(s[i])
    ensures Atoi(s) == 0
  {
    var t := SkipSpace(s);
    assert forall i :: 0 <= i < |t| ==> t[i] == s[|s| - |t| + i];
    if t != [] && (t[0] == '-' || t[0] == '+') {
      assert t[1..] == [] || !IsDigit(t[1..][0]);
    } else {
      assert t == [] || !IsDigit(t[0]);
    }
  }

  /** The decimal numeral of `n`, most significant digit first, no leading zeros. */
  function DecimalString(n: nat): (r: string)
    ensures |r| >= 1 && AllDigits(r)
  {
    if n < 10 then [DigitChar(n)] else DecimalString(n / 10) + [DigitChar(n % 10)]
  }

  /** The decimal numeral of `n` with a `-` in front of a negative number. */
  function IntString(n: int): (r: string)
    ensures |r| >= 1 && (r[0] == '-' || IsDigit(r[0]))
  {
    if n < 0 then "-" + DecimalString(-n) else DecimalString(n)
  }

  lemma {:induction false} DecimalValueOfString(n: nat)
    ensures DecimalValue(DecimalString(n)) == n
  {
    if n >= 10 {
      var d := DecimalString(n);
      DecimalValueOfString(n / 10);
      assert d[..|d| - 1] == DecimalString(n / 10);
    }
  }

  /** Digits followed by text that does not start with a digit: the digits are the leading run. */
  lemma {:induction false} LeadingDigitsOfNumeral(d: string, rest: string)
    requires AllDigits(d)
    requires rest == [] || !IsDigit(rest[0])
    ensures LeadingDigits(d + rest) == d
  {
    if d != [] {
      assert (d + rest)[1..] == d[1..] + rest;
      LeadingDigitsOfNumeral(d[1..], rest);
      assert d == [d[0]] + d[1..];
    } else {
      assert d + rest == rest;
    }
  }

  /**
   * `atoi` reads back any `int` written in decimal, whatever non-digit text
   * follows it (so `"100"` and `"100abc"` both read as 100).
   */
  lemma AtoiOfNumeral(n: int, rest: string)
    requires rest == [] || !IsDigit(rest[0])
    ensures Atoi(IntString(n) + rest) == n
  {
    if n < 0 {
      AtoiOfNegative(n, rest);
    } else {
      AtoiOfNonNegative(n, rest);
    }
  }

  lemma AtoiOfNegative(n: int, rest: string)
    requires n < 0
    requires rest == [] || !IsDigit(rest[0])
    ensures Atoi(IntString(n) + rest) == n
  {
    var m: nat := -n;
    var tail := DecimalString(m) + rest;
    assert IntString(n) + rest == "-" + tail;
    AtoiAfterMinus(tail);
    DigitsRead(m, rest);
  }

  /** A `-` followed by text reads as the negated value of the digits that
   *  text starts with. */
  lemma AtoiAfterMinus(tail: string)
    ensures Atoi("-" + tail) + DecimalValue(LeadingDigits(tail)) == 0
  {
    var s := "-" + tail;
    assert s[0] == '-' && s[1..] == tail;
    SkipSpaceNoop(s);
  }

  lemma AtoiOfNonNegative(n: nat, rest: string)
    requires rest == [] || !IsDigit(rest[0])
    ensures Atoi(IntString(n) + rest) == n
  {
    var s := DecimalString(n) + rest;
    assert IntString(n) + rest == s;
    SkipSpaceNoop(s);
    DigitsRead(n, rest);
  }

  lemma SkipSpaceNoop(s: string)
    requires s != [] && !IsSpace(s[0])
    ensures SkipSpace(s) == s
  {
  }

  lemma DigitsRead(n: nat, rest: string)
    requires rest == [] || !IsDigit(rest[0])
    ensures DecimalValue(LeadingDigits(DecimalString(n) + rest)) == n
  {
    LeadingDigitsOfNumeral(DecimalString(n), rest);
    DecimalValueOfString(n);
  }
}
