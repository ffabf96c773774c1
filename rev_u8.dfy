/**
 * c/rev_u8.c: five ways to reverse the bit order of a byte, and
 * byte_to_bitstr, which spells a byte out in binary.
 */
module RevU8 {
  type u8 = bv8

  /** Bit i of x (bit 0 is the least significant). */
  predicate Bit(x: u8, i: nat)
    requires i < 8
  {
    x & (1 << i) != 0
  }

  /** r is b with its bit order reversed: bit 7 - i of r is bit i of b. */
  predicate ReversesBits(b: u8, r: u8)
  {
    forall i :: 0 <= i < 8 ==> (Bit(r, 7 - i) <==> Bit(b, i))
  }

  /** The eight bit facts, spelled out, give ReversesBits. */
  lemma ReversesBitsByCases(b: u8, r: u8)
    requires Bit(r, 7) == Bit(b, 0) && Bit(r, 6) == Bit(b, 1) && Bit(r, 5) == Bit(b, 2) && Bit(r, 4) == Bit(b, 3)
    requires Bit(r, 3) == Bit(b, 4) && Bit(r, 2) == Bit(b, 5) && Bit(r, 1) == Bit(b, 6) && Bit(r, 0) == Bit(b, 7)
    ensures ReversesBits(b, r)
  {
    forall i | 0 <= i < 8
      ensures Bit(r, 7 - i) <==> Bit(b, i)
    {
      if i == 0 { } else if i == 1 { } else if i == 2 { } else if i == 3 { }
      else if i == 4 { } else if i == 5 { } else if i == 6 { } else { assert i == 7; }
    }
  }

  /** Two bytes with the same eight bits are equal. */
  lemma SameBitsSameByte(x: u8, y: u8)
    requires forall i :: 0 <= i < 8 ==> (Bit(x, i) <==> Bit(y, i))
    ensures x == y
  {
    assert Bit(x, 0) == Bit(y, 0) && Bit(x, 1) == Bit(y, 1) && Bit(x, 2) == Bit(y, 2) && Bit(x, 3) == Bit(y, 3);
    assert Bit(x, 4) == Bit(y, 4) && Bit(x, 5) == Bit(y, 5) && Bit(x, 6) == Bit(y, 6) && Bit(x, 7) == Bit(y, 7);
  }

  /** A byte has exactly one bit reversal. */
  lemma ReversalUnique(b: u8, r1: u8, r2: u8)
    requires ReversesBits(b, r1) && ReversesBits(b, r2)
    ensures r1 == r2
  {
    forall i | 0 <= i < 8
      ensures Bit(r1, i) <==> Bit(r2, i)
    {
      assert Bit(r1, 7 - (7 - i)) <==> Bit(b, 7 - i);
      assert Bit(r2, 7 - (7 - i)) <==> Bit(b, 7 - i);
    }
    SameBitsSameByte(r1, r2);
  }

  /** Reversal is symmetric: if r reverses b then b reverses r. */
  lemma ReversalSymmetric(b: u8, r: u8)
    requires ReversesBits(b, r)
    ensures ReversesBits(r, b)
  {
    forall i | 0 <= i < 8
      ensures Bit(b, 7 - i) <==> Bit(r, i)
    {
      assert Bit(r, 7 - (7 - i)) <==> Bit(b, 7 - i);
    }
  }

  /** Any two functions that reverse bits compose to the identity (the check_exhaustive round trips). */
  lemma ReverseTwiceIsIdentity(b: u8, r: u8, back: u8)
    requires ReversesBits(b, r) && ReversesBits(r, back)
    ensures back == b
  {
    ReversalSymmetric(b, r);
    ReversalUnique(r, back, b);
  }

  // ---------------------------------------------------------------
  // The five variants

  /** The result of rev_u8_loop after its first i rounds: bits 0 .. i - 1 of b, reversed. */
  function RevFirstBits(b: u8, i: nat): u8
    requires i <= 8
  {
    if i == 0 then 0
    else RevFirstBits(b, i - 1) | (if b & (1 << (i - 1)) != 0 then 1 << (8 - i) else 0)
  }

  /** After all eight rounds the loop has built rev_u8_ugly's expression. */
  lemma RevFirstBitsComplete(b: u8)
    ensures RevFirstBits(b, 8) == RevUgly(b)
  {
    assert RevFirstBits(b, 1) == (if b & (1 << 0) != 0 then 1 << 7 else 0);
    assert RevFirstBits(b, 2) == RevFirstBits(b, 1) | (if b & (1 << 1) != 0 then 1 << 6 else 0);
    assert RevFirstBits(b, 3) == RevFirstBits(b, 2) | (if b & (1 << 2) != 0 then 1 << 5 else 0);
    assert RevFirstBits(b, 4) == RevFirstBits(b, 3) | (if b & (1 << 3) != 0 then 1 << 4 else 0);
    assert RevFirstBits(b, 5) == RevFirstBits(b, 4) | (if b & (1 << 4) != 0 then 1 << 3 else 0);
    assert RevFirstBits(b, 6) == RevFirstBits(b, 5) | (if b & (1 << 5) != 0 then 1 << 2 else 0);
    assert RevFirstBits(b, 7) == RevFirstBits(b, 6) | (if b & (1 << 6) != 0 then 1 << 1 else 0);
  }

  /** rev_u8_loop: set bit 7 - i of r for every set bit i of b. */
  method RevLoop(b: u8) returns (r: u8)
    ensures ReversesBits(b, r)
    ensures r == RevUgly(b)
  {
    r := 0;
    var i: nat := 0;
    while i < 8
      invariant i <= 8
      invariant r == RevFirstBits(b, i)
    {
      var position: u8 := 1 << i;
      if b & position != 0 {
        var setBit: u8 := 1 << (7 - i);
        r := r | setBit;
      }
      i := i + 1;
    }
    RevFirstBitsComplete(b);
  }

  /** rev_u8_ugly: rev_u8_loop unrolled into one expression. */
  function RevUgly(b: u8): (r: u8)
    ensures ReversesBits(b, r)
  {
    var r := (if b & (1 << 0) != 0 then 1 << 7 else 0)
      | (if b & (1 << 1) != 0 then 1 << 6 else 0)
      | (if b & (1 << 2) != 0 then 1 << 5 else 0)
      | (if b & (1 << 3) != 0 then 1 << 4 else 0)
      | (if b & (1 << 4) != 0 then 1 << 3 else 0)
      | (if b & (1 << 5) != 0 then 1 << 2 else 0)
      | (if b & (1 << 6) != 0 then 1 << 1 else 0)
      | (if b & (1 << 7) != 0 then 1 << 0 else 0);
    ReversesBitsByCases(b, r);
    r
  }

  /** rev_u8_8shifts as built by default (REV_U8_SHIFT_FIRST 0): mask each bit, then shift it into place. */
  function Rev8ShiftsMaskFirst(b: u8): (r: u8)
    ensures ReversesBits(b, r)
  {
    var r := ((b & (1 << 0)) << 7)
      | ((b & (1 << 1)) << 5)
      | ((b & (1 << 2)) << 3)
      | ((b & (1 << 3)) << 1)
      | ((b & (1 << 4)) >> 1)
      | ((b & (1 << 5)) >> 3)
      | ((b & (1 << 6)) >> 5)
      | ((b & (1 << 7)) >> 7);
    ReversesBitsByCases(b, r);
    r
  }

  /** rev_u8_8shifts with REV_U8_SHIFT_FIRST set: shift each bit into place, then mask it. */
  function Rev8ShiftsShiftFirst(b: u8): (r: u8)
    ensures ReversesBits(b, r)
  {
    var r := ((b << 7) & (1 << 7))
      | ((b << 5) & (1 << 6))
      | ((b << 3) & (1 << 5))
      | ((b << 1) & (1 << 4))
      | ((b >> 1) & (1 << 3))
      | ((b >> 3) & (1 << 2))
      | ((b >> 5) & (1 << 1))
      | ((b >> 7) & (1 << 0));
    ReversesBitsByCases(b, r);
    r
  }

  /** The first step of rev_u8_3swaps: exchange the two nibbles. */
  function SwapNibbles(b: u8): u8
  {
    ((b & 0xF0) >> 4) | ((b & 0x0F) << 4)
  }

  /** The second step: exchange the bit pairs within each nibble (masks 0xCC and 0x33). */
  function SwapPairs(b: u8): u8
  {
    ((b & 0xCC) >> 2) | ((b & 0x33) << 2)
  }

  /** The last step: exchange the bits within each pair (masks 0xAA and 0x55). */
  function SwapAdjacentBits(b: u8): u8
  {
    ((b & 0xAA) >> 1) | ((b & 0x55) << 1)
  }

  /** The nibble swap sends bit (i + 4) % 8 of b to bit i. */
  lemma SwapNibblesBits(b: u8, i: nat)
    requires i < 8
    ensures Bit(SwapNibbles(b), i) <==> Bit(b, (i + 4) % 8)
  {
  }

  /** The pair swap exchanges bits i and i + 2 within each nibble. */
  lemma SwapPairsBits(b: u8, i: nat)
    requires i < 8
    ensures Bit(SwapPairs(b), i) <==> Bit(b, if i % 4 < 2 then i + 2 else i - 2)
  {
  }

  /** The last step exchanges bits i and i + 1 within each pair. */
  lemma SwapAdjacentBitsBits(b: u8, i: nat)
    requires i < 8
    ensures Bit(SwapAdjacentBits(b), i) <==> Bit(b, if i % 2 == 0 then i + 1 else i - 1)
  {
  }

  /** rev_u8_3swaps: b is reassigned three times, by SwapNibbles, SwapPairs and SwapAdjacentBits. */
  method Rev3Swaps(b0: u8) returns (b: u8)
    ensures b == SwapAdjacentBits(SwapPairs(SwapNibbles(b0)))
    ensures ReversesBits(b0, b)
  {
    b := b0;
    b := ((b & 0xF0) >> 4) | ((b & 0x0F) << 4);
    b := ((b & 0xCC) >> 2) | ((b & 0x33) << 2);
    b := ((b & 0xAA) >> 1) | ((b & 0x55) << 1);
    ReversesBitsByCases(b0, b);
  }

  /** Each swap step exchanges disjoint groups of bits, so applying it twice restores the byte. */
  lemma SwapStepsAreInvolutions(b: u8)
    ensures SwapNibbles(SwapNibbles(b)) == b
    ensures SwapPairs(SwapPairs(b)) == b
    ensures SwapAdjacentBits(SwapAdjacentBits(b)) == b
  {
  }

  /** rev_u8_table: build the 256-entry look-up table and index it by b. */
  method RevTableLookup(b: u8) returns (r: u8)
    ensures r == RevUgly(b)
    ensures ReversesBits(b, r)
  {
    var table := new u8[256] [
      0x00, 0x80, 0x40, 0xc0, 0x20, 0xa0, 0x60, 0xe0,
      0x10, 0x90, 0x50, 0xd0, 0x30, 0xb0, 0x70, 0xf0,
      0x08, 0x88, 0x48, 0xc8, 0x28, 0xa8, 0x68, 0xe8,
      0x18, 0x98, 0x58, 0xd8, 0x38, 0xb8, 0x78, 0xf8,
      0x04, 0x84, 0x44, 0xc4, 0x24, 0xa4, 0x64, 0xe4,
      0x14, 0x94, 0x54, 0xd4, 0x34, 0xb4, 0x74, 0xf4,
      0x0c, 0x8c, 0x4c, 0xcc, 0x2c, 0xac, 0x6c, 0xec,
      0x1c, 0x9c, 0x5c, 0xdc, 0x3c, 0xbc, 0x7c, 0xfc,
      0x02, 0x82, 0x42, 0xc2, 0x22, 0xa2, 0x62, 0xe2,
      0x12, 0x92, 0x52, 0xd2, 0x32, 0xb2, 0x72, 0xf2,
      0x0a, 0x8a, 0x4a, 0xca, 0x2a, 0xaa, 0x6a, 0xea,
      0x1a, 0x9a, 0x5a, 0xda, 0x3a, 0xba, 0x7a, 0xfa,
      0x06, 0x86, 0x46, 0xc6, 0x26, 0xa6, 0x66, 0xe6,
      0x16, 0x96, 0x56, 0xd6, 0x36, 0xb6, 0x76, 0xf6,
      0x0e, 0x8e, 0x4e, 0xce, 0x2e, 0xae, 0x6e, 0xee,
      0x1e, 0x9e, 0x5e, 0xde, 0x3e, 0xbe, 0x7e, 0xfe,
      0x01, 0x81, 0x41, 0xc1, 0x21, 0xa1, 0x61, 0xe1,
      0x11, 0x91, 0x51, 0xd1, 0x31, 0xb1, 0x71, 0xf1,
      0x09, 0x89, 0x49, 0xc9, 0x29, 0xa9, 0x69, 0xe9,
      0x19, 0x99, 0x59, 0xd9, 0x39, 0xb9, 0x79, 0xf9,
      0x05, 0x85, 0x45, 0xc5, 0x25, 0xa5, 0x65, 0xe5,
      0x15, 0x95, 0x55, 0xd5, 0x35, 0xb5, 0x75, 0xf5,
      0x0d, 0x8d, 0x4d, 0xcd, 0x2d, 0xad, 0x6d, 0xed,
      0x1d, 0x9d, 0x5d, 0xdd, 0x3d, 0xbd, 0x7d, 0xfd,
      0x03, 0x83, 0x43, 0xc3, 0x23, 0xa3, 0x63, 0xe3,
      0x13, 0x93, 0x53, 0xd3, 0x33, 0xb3, 0x73, 0xf3,
      0x0b, 0x8b, 0x4b, 0xcb, 0x2b, 0xab, 0x6b, 0xeb,
      0x1b, 0x9b, 0x5b, 0xdb, 0x3b, 0xbb, 0x7b, 0xfb,
      0x07, 0x87, 0x47, 0xc7, 0x27, 0xa7, 0x67, 0xe7,
      0x17, 0x97, 0x57, 0xd7, 0x37, 0xb7, 0x77, 0xf7,
      0x0f, 0x8f, 0x4f, 0xcf, 0x2f, 0xaf, 0x6f, 0xef,
      0x1f, 0x9f, 0x5f, 0xdf, 0x3f, 0xbf, 0x7f, 0xff
    ];
    r := table[b as int];
  }

  // ---------------------------------------------------------------
  // What check_exhaustive and main_loop check

  /** Every variant is an involution. */
  lemma VariantsAreInvolutions(b: u8)
    ensures RevUgly(RevUgly(b)) == b
    ensures Rev8ShiftsMaskFirst(Rev8ShiftsMaskFirst(b)) == b
    ensures Rev8ShiftsShiftFirst(Rev8ShiftsShiftFirst(b)) == b
  {
    ReverseTwiceIsIdentity(b, RevUgly(b), RevUgly(RevUgly(b)));
    ReverseTwiceIsIdentity(b, Rev8ShiftsMaskFirst(b), Rev8ShiftsMaskFirst(Rev8ShiftsMaskFirst(b)));
    ReverseTwiceIsIdentity(b, Rev8ShiftsShiftFirst(b), Rev8ShiftsShiftFirst(Rev8ShiftsShiftFirst(b)));
  }

  /** The variants written as functions agree on every byte, including both spellings of rev_u8_8shifts. */
  lemma VariantsAgree(b: u8)
    ensures Rev8ShiftsMaskFirst(b) == Rev8ShiftsShiftFirst(b)
    ensures RevUgly(b) == Rev8ShiftsMaskFirst(b)
    ensures RevUgly(b) == SwapAdjacentBits(SwapPairs(SwapNibbles(b)))
  {
    ReversalUnique(b, Rev8ShiftsMaskFirst(b), Rev8ShiftsShiftFirst(b));
    ReversalUnique(b, RevUgly(b), Rev8ShiftsMaskFirst(b));
    ReversesBitsByCases(b, SwapAdjacentBits(SwapPairs(SwapNibbles(b))));
    ReversalUnique(b, RevUgly(b), SwapAdjacentBits(SwapPairs(SwapNibbles(b))));
  }

  /** The three fixed values main_loop checks every variant against. */
  lemma KnownReversals()
    ensures RevUgly(0x0F) == 0xF0 && RevUgly(0x33) == 0xCC && RevUgly(0x55) == 0xAA
  {
  }

  /** 1 when the two bytes differ: check_equals_u8 without its log line. */
  function Mismatch(a: u8, b: u8): (failed: nat)
    ensures failed == 0 <==> a == b
  {
    if a == b then 0 else 1
  }

  /** The fixed-value checks at the start of main_loop: every variant maps 0x0F, 0x33 and 0x55 to 0xF0, 0xCC and 0xAA. */
  method CheckKnownValues() returns (failures: nat)
    ensures failures == 0
  {
    failures := 0;
    var inputs: seq<u8> := [0x0F, 0x33, 0x55];
    var expected: seq<u8> := [0xF0, 0xCC, 0xAA];
    KnownReversals();
    var n := 0;
    while n < 3
      invariant n <= 3
      invariant failures == 0
    {
      var b := inputs[n];
      var r0 := RevLoop(b);
      var r2 := Rev3Swaps(b);
      var r4 := RevTableLookup(b);
      VariantsAgree(b);
      failures := failures + Mismatch(expected[n], r0) + Mismatch(expected[n], RevUgly(b))
        + Mismatch(expected[n], r2) + Mismatch(expected[n], Rev8ShiftsMaskFirst(b)) + Mismatch(expected[n], r4);
      n := n + 1;
    }
  }

  /** One pass of check_exhaustive's loop: the round trips through each variant and the comparisons between them. */
  method CheckByte(b: u8) returns (failures: nat)
    ensures failures == 0
  {
    var r0 := RevLoop(b);
    var b0 := RevUgly(r0);
    ReverseTwiceIsIdentity(b, r0, b0);
    failures := Mismatch(b0, b);
    var r1 := RevUgly(b);
    var b1 := RevUgly(r1);
    VariantsAreInvolutions(b);
    failures := failures + Mismatch(b1, b);
    var r2 := Rev3Swaps(b);
    var b2 := Rev3Swaps(r2);
    ReverseTwiceIsIdentity(b, r2, b2);
    failures := failures + Mismatch(b2, b);
    var r3 := Rev8ShiftsMaskFirst(b);
    var b3 := Rev8ShiftsMaskFirst(r3);
    failures := failures + Mismatch(b3, b);
    var r4 := RevTableLookup(b);
    var b4 := RevTableLookup(r4);
    ReverseTwiceIsIdentity(b, r4, b4);
    failures := failures + Mismatch(b4, b);
    VariantsAgree(b);
    failures := failures + Mismatch(r0, r1) + Mismatch(r1, r2) + Mismatch(r2, r3) + Mismatch(r3, r4);
  }

  /** check_exhaustive: run CheckByte on all 256 bytes; no check fails. */
  method CheckExhaustive() returns (failures: nat)
    ensures failures == 0
  {
    failures := 0;
    var i := 0;
    while i <= 0xFF
      invariant i <= 0x100
      invariant failures == 0
    {
      var byteFailures := CheckByte(i as u8);
      failures := failures + byteFailures;
      i := i + 1;
    }
  }

  // ---------------------------------------------------------------
  // byte_to_bitstr

  /** The nine characters byte_to_bitstr writes: b in binary, most significant bit first, then NUL. */
  function BitString(b: u8): (s: seq<char>)
    ensures |s| == 9 && s[8] == '\0'
    ensures forall i :: 0 <= i < 8 ==> s[i] == (if Bit(b, 7 - i) then '1' else '0')
  {
    seq(8, i requires 0 <= i < 8 => if Bit(b, 7 - i) then '1' else '0') + ['\0']
  }

  /** Distinct bytes print as distinct bit strings. */
  lemma BitStringInjective(b: u8, c: u8)
    requires BitString(b) == BitString(c)
    ensures b == c
  {
    forall i | 0 <= i < 8
      ensures Bit(b, i) <==> Bit(c, i)
    {
      assert BitString(b)[7 - i] == BitString(c)[7 - i];
    }
    SameBitsSameByte(b, c);
  }

  /** byte_to_bitstr: fill buf[0..8] from the top bit down, then terminate at buf[8]. */
  method ByteToBitstr(buf: array<char>, b: u8)
    requires buf.Length >= 9
    modifies buf
    ensures buf[..9] == BitString(b)
    ensures buf[9..] == old(buf[9..])
  {
    var i := 0;
    while i < 8
      invariant i <= 8
      invariant forall k :: 0 <= k < i ==> buf[k] == (if Bit(b, 7 - k) then '1' else '0')
      invariant buf[9..] == old(buf[9..])
    {
      var mask: u8 := 1 << (7 - i);
      buf[i] := if b & mask != 0 then '1' else '0';
      i := i + 1;
    }
    buf[8] := '\0';
  }
}
