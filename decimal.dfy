/**
 * Decimal text for integers, as printf's "%d" writes it: an optional '-'
 * and then the digits, most significant first, with no leading zeros.
 * Shared by the models that print numbers.
 */
module Decimal {
  predicate IsDigit(c: char)
  {
    '0' <= c <= '9'
  }

  /** The character '0' + d. */
  function DigitChar(d: nat): (c: char)
    requires d < 10
    ensures IsDigit(c)
  {
    ('0' as int + d) as char
  }

  /** The decimal digits of x, most significant first. */
  function Digits(x: nat): (s: string)
    ensures |s| >= 1
    decreases x
  {
    if x < 10 then [DigitChar(x)] else Digits(x / 10) + [DigitChar(x % 10)]
  }

  /** "%d": a minus sign for negative values, then the digits of the magnitude. */
  function Format(v: int): (s: string)
    ensures |s| >= 1
  {
    if v < 0 then "-" + Digits(-v) else Digits(v)
  }

  /** Reading decimal digits back, most significant first. */
  function Value(s: string): nat
    requires forall k :: 0 <= k < |s| ==> IsDigit(s[k])
  {
    if s == [] then 0 else Value(s[..|s| - 1]) * 10 + DigitValue(s[|s| - 1])
  }

  function DigitValue(c: char): (d: nat)
    requires IsDigit(c)
    ensures d < 10
  {
    c as int - '0' as int
  }

  function Pow10(m: nat): (r: nat)
    ensures r >= 1
  {
    if m == 0 then 1 else 10 * Pow10(m - 1)
  }

  /** The digits are digit characters and read back as x. */
  lemma {:induction false} DigitsRoundTrip(x: nat)
    ensures forall k :: 0 <= k < |Digits(x)| ==> IsDigit(Digits(x)[k])
    ensures Value(Digits(x)) == x
    decreases x
  {
    if x >= 10 {
      DigitsRoundTrip(x / 10);
      var s := Digits(x);
      assert s[..|s| - 1] == Digits(x / 10);
    }
  }

  /** No leading zeros: the first digit is '0' only for 0, which is the single digit "0". */
  lemma {:induction false} NoLeadingZero(x: nat)
    ensures Digits(x)[0] == '0' <==> x == 0
    ensures x == 0 ==> Digits(x) == "0"
    decreases x
  {
    if x >= 10 {
      NoLeadingZero(x / 10);
    }
  }

  /** |Digits(x)| is the number of decimal places x needs: 10^(len-1) <= x < 10^len, for x >= 1. */
  lemma {:induction false} DigitsLength(x: nat)
    ensures x < Pow10(|Digits(x)|)
    ensures x >= 1 ==> Pow10(|Digits(x)| - 1) <= x
    decreases x
  {
    if x >= 10 {
      DigitsLength(x / 10);
    }
  }
}
