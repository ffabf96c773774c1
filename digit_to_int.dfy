/**
 * c/digit-to-int.c: two ways to turn an ASCII digit into its value,
 * subtracting '0' and masking the low four bits. Both assert that the
 * character is a digit, so both require it here.
 */
module DigitToInt {
  import Decimal

  /** digit_to_int_subtract: c - '0'. */
  function DigitToIntSubtract(c: char): (d: int)
    requires Decimal.IsDigit(c)
    ensures 0 <= d <= 9
    ensures Decimal.DigitChar(d) == c
  {
    c as int - '0' as int
  }

  /**
   * digit_to_int_mask: c & 0x0F, on the character's byte. The low four
   * bits of an ASCII digit are its value.
   */
  function DigitToIntMask(c: char): (d: int)
    requires Decimal.IsDigit(c)
    ensures 0 <= d <= 9
    ensures Decimal.DigitChar(d) == c
  {
    LowNibble(c);
    ((c as int as bv8) & 0x0F) as int
  }

  /** '0' is 0x30, so a digit's low four bits are c - '0'. */
  lemma LowNibble(c: char)
    requires Decimal.IsDigit(c)
    ensures ((c as int as bv8) & 0x0F) as int == c as int - '0' as int
  {
    if c == '0' { } else if c == '1' { } else if c == '2' { } else if c == '3' { }
    else if c == '4' { } else if c == '5' { } else if c == '6' { } else if c == '7' { }
    else if c == '8' { } else { assert c == '9'; }
  }

  /**
   * validate_digit_to_int_functions: the two conversions agree on the ten
   * digits, because '0' is 0x30 and the digits only differ in the low four bits.
   */
  lemma MaskAgreesWithSubtract(c: char)
    requires Decimal.IsDigit(c)
    ensures DigitToIntMask(c) == DigitToIntSubtract(c)
  {
    LowNibble(c);
  }

  /** Every value 0 .. 9 is reached: DigitChar(d) converts back to d by either route. */
  lemma DigitRoundTrip(d: nat)
    requires d < 10
    ensures DigitToIntSubtract(Decimal.DigitChar(d)) == d
    ensures DigitToIntMask(Decimal.DigitChar(d)) == d
  {
    MaskAgreesWithSubtract(Decimal.DigitChar(d));
  }

  const AsciiDigits: string := "0123456789"

  /**
   * validate_digit_to_int_functions: the loop over "0123456789" that
   * reports failure (the source exits) on the first digit where the two
   * conversions differ. It never does: ok is always true.
   */
  method Validate() returns (ok: bool)
    ensures ok
  {
    ok := true;
    var i := 0;
    while i < |AsciiDigits|
      invariant 0 <= i <= |AsciiDigits| && ok
    {
      var c := AsciiDigits[i];
      assert Decimal.IsDigit(c);
      MaskAgreesWithSubtract(c);
      if DigitToIntSubtract(c) != DigitToIntMask(c) {
        ok := false;
        return;
      }
      i := i + 1;
    }
  }
}
