/**
 * c/union64.c: single-bit access to a 64-bit union. The union is passed
 * by value: union64_bit_set updates its own copy, which the model returns
 * as `local`, and the caller's value cannot change.
 */
module Union64 {
  type u8 = bv8
  type u64 = bv64

  /** 1ULL << bit. */
  function Mask(bit: u8): u64
    requires bit <= 63
  {
    1 << bit
  }

  /** 1ULL << bit has exactly one bit set, and distinct bits give disjoint masks. */
  lemma MaskIsOneBit(bit: u8, other: u8)
    requires bit <= 63 && other <= 63
    ensures Mask(bit) != 0 && Mask(bit) & (Mask(bit) - 1) == 0
    ensures other != bit ==> Mask(bit) & Mask(other) == 0
  {
  }

  /** Bit `bit` of u, for bit <= 63. */
  predicate BitIsSet(u: u64, bit: u8)
    requires bit <= 63
  {
    u & Mask(bit) != 0
  }

  /** union64_bit_at: 1 when bit `bit` of u.bits is set, 0 when it is clear or bit > 63. */
  function BitAt(u: u64, bit: u8): (r: u8)
    ensures r == 0 || r == 1
    ensures bit > 63 ==> r == 0
    ensures bit <= 63 ==> (r == 1 <==> BitIsSet(u, bit))
  {
    if bit > 63 then 0
    else if u & Mask(bit) != 0 then 1 else 0
  }

  /** Adding a mask whose bits are all clear in u sets exactly those bits. */
  lemma AddClearBits(u: u64, m: u64)
    requires u & m == 0
    ensures u + m == u | m
  {
  }

  /** Subtracting a one-bit mask whose bit is set in u clears exactly that bit. */
  lemma SubSetBit(u: u64, m: u64)
    requires m != 0 && m & (m - 1) == 0 && u & m != 0
    ensures u - m == u & !m
  {
    assert u & m == m;
  }

  /** Or-ing in a one-bit mask whose bit is already set changes nothing. */
  lemma SetBitIn(u: u64, m: u64)
    requires m != 0 && m & (m - 1) == 0 && u & m != 0
    ensures u | m == u
  {
    assert u & m == m;
  }

  /** Masking out bits that are already clear changes nothing. */
  lemma ClearBitsOut(u: u64, m: u64)
    requires u & m == 0
    ensures u & !m == u
  {
  }

  /** Setting or clearing the bits of m leaves the bits of a disjoint mask alone. */
  lemma OtherBitsKept(u: u64, m: u64, m': u64)
    requires m & m' == 0
    ensures (u | m) & m' == u & m'
    ensures (u & !m) & m' == u & m'
  {
  }

  /** u with bit `bit` set when val is nonzero and cleared when it is zero; u itself when bit > 63. */
  function Updated(u: u64, bit: u8, val: u8): u64
  {
    if bit > 63 then u
    else if val != 0 then u | Mask(bit)
    else u & !Mask(bit)
  }

  /** Setting a clear bit by adding 2^bit. */
  lemma SetPath(u: u64, bit: u8)
    requires bit <= 63 && u & Mask(bit) == 0
    ensures u + Mask(bit) == u | Mask(bit)
  {
    AddClearBits(u, Mask(bit));
  }

  /** Clearing a set bit by subtracting 2^bit. */
  lemma ClearPath(u: u64, bit: u8)
    requires bit <= 63 && u & Mask(bit) != 0
    ensures u - Mask(bit) == u & !Mask(bit)
  {
    MaskIsOneBit(bit, bit);
    SubSetBit(u, Mask(bit));
  }

  /** A bit that is already set stays set. */
  lemma KeepSetPath(u: u64, bit: u8)
    requires bit <= 63 && u & Mask(bit) != 0
    ensures u | Mask(bit) == u
  {
    MaskIsOneBit(bit, bit);
    SetBitIn(u, Mask(bit));
  }

  /** A bit that is already clear stays clear. */
  lemma KeepClearPath(u: u64, bit: u8)
    requires bit <= 63 && u & Mask(bit) == 0
    ensures u & !Mask(bit) == u
  {
    ClearBitsOut(u, Mask(bit));
  }

  /**
   * union64_bit_set: returns the previous bit. 2^bit is added to the copy
   * only when the bit is clear and val is nonzero, and subtracted only
   * when it is set and val is zero, so the copy ends as u with that one
   * bit set or cleared.
   */
  method BitSet(u: u64, bit: u8, val: u8) returns (previous: u8, local: u64)
    ensures previous == BitAt(u, bit)
    ensures local == Updated(u, bit, val)
  {
    local := u;
    if bit > 63 {
      return 0, local;
    }
    previous := if local & Mask(bit) != 0 then 1 else 0;
    if val != 0 && previous == 0 {
      SetPath(u, bit);
      local := local + Mask(bit);
    } else if val == 0 && previous != 0 {
      ClearPath(u, bit);
      local := local - Mask(bit);
    } else if val != 0 {
      KeepSetPath(u, bit);
    } else {
      KeepClearPath(u, bit);
    }
  }

  /** After union64_bit_set the copy's bit is val. */
  lemma UpdatedSetsBit(u: u64, bit: u8, val: u8)
    requires bit <= 63
    ensures BitAt(Updated(u, bit, val), bit) == 1 <==> val != 0
  {
    MaskIsOneBit(bit, bit);
  }

  /** Setting one bit leaves the others alone. */
  lemma OrKeepsOtherBits(u: u64, bit: u8, other: u8)
    requires bit <= 63 && other <= 63 && other != bit
    ensures (u | Mask(bit)) & Mask(other) == u & Mask(other)
  {
    MaskIsOneBit(bit, other);
    OtherBitsKept(u, Mask(bit), Mask(other));
  }

  /** Clearing one bit leaves the others alone. */
  lemma AndNotKeepsOtherBits(u: u64, bit: u8, other: u8)
    requires bit <= 63 && other <= 63 && other != bit
    ensures (u & !Mask(bit)) & Mask(other) == u & Mask(other)
  {
    MaskIsOneBit(bit, other);
    OtherBitsKept(u, Mask(bit), Mask(other));
  }

  /** After union64_bit_set every other bit of the copy is as in u. */
  lemma UpdatedKeepsOtherBits(u: u64, bit: u8, val: u8, other: u8)
    requires other <= 63 && other != bit
    ensures BitAt(Updated(u, bit, val), other) == BitAt(u, other)
  {
    if bit <= 63 {
      if val != 0 {
        OrKeepsOtherBits(u, bit, other);
      } else {
        AndNotKeepsOtherBits(u, bit, other);
      }
    }
  }

  /** main's default value, (1 << 2) + (1 << 60), has bits 2 and 60 set and no others. */
  lemma DefaultValueBits(bit: u8)
    requires bit <= 63
    ensures BitAt((1 << 2) + (1 << 60), bit) == 1 <==> bit == 2 || bit == 60
  {
  }
}
