/** Decimal rendering of integers, as Ruby's `Integer#to_s` and `String#rjust`
    produce it, together with the digit reading that inverts it. */
module Decimal {

  predicate IsDigit(c: char) {
    '0' <= c <= '9'
  }

  predicate AllDigits(s: string) {
    forall i :: 0 <= i < |s| ==> IsDigit(s[i])
  }

  function DigitChar(d: nat): (c: char)
    requires d < 10
    ensures IsDigit(c)
    ensures c as int - '0' as int == d
  {
    (('0' as int) + d) as char
  }

  function DigitValue(c: char): nat
    requires IsDigit(c)
  {
    c as int - '0' as int
  }

  /** `n.to_s`: the shortest decimal numeral of `n`. */
  function NatToString(n: nat): (s: string)
    ensures |s| > 0 && AllDigits(s)
    ensures |s| > 1 ==> s[0] != '0'
    ensures n < 10 <==> |s| == 1
    decreases n
  {
    if n < 10 then [DigitChar(n)] else NatToString(n / 10) + [DigitChar(n % 10)]
  }

  /** `i.to_s` for any integer: a minus sign in front of the magnitude's numeral. */
  function IntToString(i: int): (s: string)
    ensures i >= 0 ==> s == NatToString(i)
    ensures i < 0 ==> s == "-" + NatToString(-i)
  {
    if i < 0 then "-" + NatToString(-i) else NatToString(i)
  }

  /** The number a string of decimal digits denotes (reads the numeral back). */
  function DigitsValue(s: string): nat
    requires AllDigits(s)
  {
    if |s| == 0 then 0 else 10 * DigitsValue(s[..|s| - 1]) + DigitValue(s[|s| - 1])
  }

  lemma {:induction false} NatToStringRoundTrip(n: nat)
    ensures DigitsValue(NatToString(n)) == n
    decreases n
  {
    if n >= 10 {
      var s := NatToString(n);
      assert s[..|s| - 1] == NatToString(n / 10);
      NatToStringRoundTrip(n / 10);
    }
  }

  lemma NatToStringInjective(a: nat, b: nat)
    requires NatToString(a) == NatToString(b)
    ensures a == b
  {
    NatToStringRoundTrip(a);
    NatToStringRoundTrip(b);
  }

  /** Numerals of numbers below 100 have at most two digits, which are then
      the tens and the units digit. */
  lemma TwoDigitNumeral(n: nat)
    requires 10 <= n < 100
    ensures NatToString(n) == [DigitChar(n / 10), DigitChar(n % 10)]
  {
  }

  /** Numerals of four-digit numbers, such as the years of the Hebrew
      calendar today, digit by digit. */
  lemma FourDigitNumeral(n: nat, a: nat, b: nat, c: nat, d: nat)
    requires 1 <= a < 10 && b < 10 && c < 10 && d < 10
    requires n == 1000 * a + 100 * b + 10 * c + d
    ensures NatToString(n) == [DigitChar(a), DigitChar(b), DigitChar(c), DigitChar(d)]
  {
    assert n / 10 == 100 * a + 10 * b + c && n % 10 == d;
    assert (n / 10) / 10 == 10 * a + b && (n / 10) % 10 == c;
    TwoDigitNumeral(10 * a + b);
  }

  /** `s.rjust(width, pad)`: `s` left-padded with `pad` up to `width` characters;
      never truncates. */
  function RightJustify(s: string, width: nat, pad: char): (r: string)
    ensures |s| >= width ==> r == s
    ensures |s| < width ==> |r| == width
    ensures |r| >= |s| && r[|r| - |s|..] == s
    ensures forall i :: 0 <= i < |r| - |s| ==> r[i] == pad
  {
    if |s| >= width then s else seq(width - |s|, _ => pad) + s
  }
}
