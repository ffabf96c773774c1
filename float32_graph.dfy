/**
 * c/float32-graph.c: eh_float32_radix_2_to_fields splits the 32-bit
 * pattern of an IEEE 754 binary32 value into sign, unbiased exponent and
 * fraction, and classifies it as NaN, infinity, zero, subnormal or
 * normal. The value is only ever handled as its bit pattern: both
 * int32_to_eh_float32 and eh_float32_to_uint32 copy the four bytes
 * unchanged, so the model takes that bv32 pattern as its input and the
 * classification is a function of the pattern alone.
 */
module Float32Graph {
  type u32 = bv32

  /** enum eh_fp_class; Code gives the enumerator's value. */
  datatype FpClass = NaN | Inf | Zero | Subnormal | Normal
  {
    function Code(): (r: int)
      ensures 0 <= r <= 4
    {
      match this
      case NaN => 0
      case Inf => 1
      case Zero => 2
      case Subnormal => 3
      case Normal => 4
    }
  }

  /** The three out-parameters and the returned class. */
  datatype Fields = Fields(cls: FpClass, sign: int, exponent: int, fraction: u32)

  const ExpMax: int := 127
  const ExpMin: int := -127
  const ExpInfNan: int := 128
  const SignMask: u32 := 0x8000_0000
  const RexpMask: u32 := 0x7F80_0000
  const FracMask: u32 := 0x007F_FFFF

  /** The biased exponent field: (u & rexp_mask) >> 23. */
  function RawExp(u: u32): u32
  {
    (u & RexpMask) >> 23
  }

  /** The biased exponent field fits in eight bits. */
  lemma RawExpBound(u: u32)
    ensures RawExp(u) <= 0xFF && RawExp(u) as int < 256
  {
    assert RawExp(u) <= 0xFF;
  }

  /** Conversion of a uint32_t to int16_t: keep the low 16 bits, two's complement. */
  function ToInt16(v: int): (r: int)
    requires 0 <= v
    ensures -32768 <= r < 32768
    ensures (r - v) % 65536 == 0
  {
    var low := v % 65536;
    if low >= 32768 then low - 65536 else low
  }

  /** raw_exp - 127 in uint32_t arithmetic, stored into an int16_t. */
  function Exponent(u: u32): int
  {
    ToInt16(((RawExp(u) as int) - ExpMax) % 0x1_0000_0000)
  }

  /** eh_float32_radix_2_to_fields, as written, on the bit pattern u. */
  function RadixTwoToFields(u: u32): Fields
  {
    var sign := if u & SignMask != 0 then 1 else 0;
    var exponent := Exponent(u);
    var fraction := u & FracMask;
    var cls :=
      if exponent == ExpInfNan then (if fraction != 0 then NaN else Inf)
      else if fraction == 0 && exponent == ExpMin then Zero
      else if exponent == ExpMin then Subnormal
      else Normal;
    Fields(cls, sign, exponent, fraction)
  }

  /** The stored exponent is the biased field minus 127, in -127..128: the int16_t truncation loses nothing. */
  lemma ExponentUnbiased(u: u32)
    ensures Exponent(u) == RawExp(u) as int - ExpMax
    ensures ExpMin <= Exponent(u) <= ExpInfNan
  {
    RawExpBound(u);
    Unbias(RawExp(u) as int);
  }

  /** For a biased exponent e in 0..255, the wrapped difference e - 127 survives the int16_t store. */
  lemma Unbias(e: int)
    requires 0 <= e < 256
    ensures ToInt16((e - ExpMax) % 0x1_0000_0000) == e - ExpMax
  {
    if e < 127 {
      assert (e - 127) % 0x1_0000_0000 == e - 127 + 0x1_0000_0000;
      assert (e - 127 + 0x1_0000_0000) % 65536 == e - 127 + 65536;
    } else {
      assert (e - 127) % 0x1_0000_0000 == e - 127;
    }
  }

  /** The sign out-parameter is bit 31 of the pattern. */
  lemma SignIsBit31(u: u32)
    ensures RadixTwoToFields(u).sign == (u >> 31) as int
  {
    if u & SignMask != 0 {
      assert u >> 31 == 1;
    } else {
      assert u >> 31 == 0;
    }
  }

  /** The fraction out-parameter is the low 23 bits of the pattern. */
  lemma FractionIsLow23(u: u32)
    ensures RadixTwoToFields(u).fraction == u & 0x7F_FFFF
    ensures RadixTwoToFields(u).fraction < 0x80_0000
  {
  }

  /** NaN and infinity are the patterns whose exponent is 128, told apart by the fraction. */
  lemma NaNAndInf(u: u32)
    ensures RadixTwoToFields(u).cls == NaN <==> Exponent(u) == ExpInfNan && u & FracMask != 0
    ensures RadixTwoToFields(u).cls == Inf <==> Exponent(u) == ExpInfNan && u & FracMask == 0
  {
  }

  /** Zero and subnormal are the patterns whose exponent is -127; everything else is normal. */
  lemma ZeroSubnormalNormal(u: u32)
    ensures RadixTwoToFields(u).cls == Zero <==> Exponent(u) == ExpMin && u & FracMask == 0
    ensures RadixTwoToFields(u).cls == Subnormal <==> Exponent(u) == ExpMin && u & FracMask != 0
    ensures RadixTwoToFields(u).cls == Normal <==> ExpMin < Exponent(u) < ExpInfNan
  {
    ExponentUnbiased(u);
  }

  /**
   * The classification of section 3.4 of IEEE 754-2008 for binary32,
   * stated on the biased exponent field e (w = 8 bits, all ones is 255)
   * and the trailing significand field t.
   */
  function StandardClass(e: u32, t: u32): FpClass
  {
    if e == 0xFF then (if t != 0 then NaN else Inf)
    else if e == 0 then (if t == 0 then Zero else Subnormal)
    else Normal
  }

  /** The classifier agrees with the standard's classification of the same pattern. */
  lemma ClassMatchesStandard(u: u32)
    ensures RadixTwoToFields(u).cls == StandardClass(RawExp(u), u & FracMask)
  {
    ExponentUnbiased(u);
  }

  /** Shifting the biased exponent field back into place gives the exponent bits of the pattern. */
  lemma ExponentFieldInPlace(u: u32)
    ensures u & RexpMask == RawExp(u) << 23
  {
  }

  /** The three masks cover the pattern. */
  lemma MasksCover(u: u32)
    ensures u == (u & SignMask) | (u & RexpMask) | (u & FracMask)
  {
  }

  /** The sign bit, the biased exponent field and the fraction put the pattern back together. */
  lemma FieldsRecompose(u: u32)
    ensures u == (u & SignMask) | (RawExp(u) << 23) | (u & FracMask)
  {
    MasksCover(u);
    ExponentFieldInPlace(u);
  }

  /** The patterns with bit 31 clear (non-negative int32_t values) classed as NaN: 0x7F800001..0x7FFFFFFF. */
  lemma PositiveNaNRange(u: u32)
    requires u < 0x8000_0000
    ensures RadixTwoToFields(u).cls == NaN <==> 0x7F80_0001 <= u
  {
    ClassMatchesStandard(u);
    if 0x7F80_0001 <= u {
      assert RawExp(u) == 0xFF && u & FracMask != 0;
    } else if u == 0x7F80_0000 {
    } else {
      assert RawExp(u) < 0xFF;
    }
  }

  /** The patterns with bit 31 set (negative int32_t values) classed as NaN: 0xFF800001..0xFFFFFFFF. */
  lemma NegativeNaNRange(u: u32)
    requires 0x8000_0000 <= u
    ensures RadixTwoToFields(u).cls == NaN <==> 0xFF80_0001 <= u
  {
    ClassMatchesStandard(u);
    if 0xFF80_0001 <= u {
      assert RawExp(u) == 0xFF && u & FracMask != 0;
    } else if u == 0xFF80_0000 {
    } else {
      assert RawExp(u) < 0xFF;
    }
  }
}
