/**
 * c/byteswap64.c: a 64-bit byte swap built from two 32-bit swaps, for
 * systems that have bswap_32 but no bswap_64. The system byteswap.h is not
 * part of this model, so Bswap_32 is Bswap_32_constant and Bswap_64 is
 * Bswap_64_32x2, as they are when neither HAVE_BSWAP_32 nor HAVE_BSWAP_64
 * is defined.
 */
module ByteSwap64 {
  type u32 = bv32
  type u64 = bv64

  /** Byte j (0 = least significant) of a 32-bit value. */
  function Byte32(x: u32, j: nat): (b: u32)
    requires j < 4
    ensures b <= 0xFF
  {
    if j == 0 then x & 0xFF
    else if j == 1 then (x >> 8) & 0xFF
    else if j == 2 then (x >> 16) & 0xFF
    else (x >> 24) & 0xFF
  }

  /** Byte j (0 = least significant) of a 64-bit value. */
  function Byte64(x: u64, j: nat): (b: u64)
    requires j < 8
    ensures b <= 0xFF
  {
    if j == 0 then x & 0xFF
    else if j == 1 then (x >> 8) & 0xFF
    else if j == 2 then (x >> 16) & 0xFF
    else if j == 3 then (x >> 24) & 0xFF
    else if j == 4 then (x >> 32) & 0xFF
    else if j == 5 then (x >> 40) & 0xFF
    else if j == 6 then (x >> 48) & 0xFF
    else (x >> 56) & 0xFF
  }

  /** Bswap_32_constant. */
  function Bswap32Constant(x: u32): u32
  {
    ((x & 0xff000000) >> 24) | ((x & 0x00ff0000) >> 8)
      | ((x & 0x0000ff00) << 8) | ((x & 0x000000ff) << 24)
  }

  /** Bswap_32_constant moves byte j of x to byte 3 - j. */
  lemma Bswap32Bytes(x: u32)
    ensures Byte32(Bswap32Constant(x), 0) == Byte32(x, 3) && Byte32(Bswap32Constant(x), 1) == Byte32(x, 2)
    ensures Byte32(Bswap32Constant(x), 2) == Byte32(x, 1) && Byte32(Bswap32Constant(x), 3) == Byte32(x, 0)
  {
  }

  /** Two values with the same four bytes are equal. */
  lemma SameBytes32(x: u32, y: u32)
    requires Byte32(x, 0) == Byte32(y, 0) && Byte32(x, 1) == Byte32(y, 1)
    requires Byte32(x, 2) == Byte32(y, 2) && Byte32(x, 3) == Byte32(y, 3)
    ensures x == y
  {
  }

  lemma Bswap32Involution(x: u32)
    ensures Bswap32Constant(Bswap32Constant(x)) == x
  {
    Bswap32Bytes(x);
    Bswap32Bytes(Bswap32Constant(x));
    SameBytes32(Bswap32Constant(Bswap32Constant(x)), x);
  }

  /** (uint32_t)x: the low word. */
  function Low32(x: u64): u32
  {
    (x & 0xFFFF_FFFF) as u32
  }

  /** Bswap_64_32x2: the swapped low word becomes the high word and the swapped high word the low word. */
  function Bswap64Of32x2(x: u64): u64
  {
    ((Bswap32Constant(Low32(x)) as u64) << 32) | (Bswap32Constant(Low32(x >> 32)) as u64)
  }

  /** Bswap_64_32x2 puts the swapped low word in the high half and the swapped high word in the low half. */
  lemma Bswap64Words(x: u64)
    ensures Low32(Bswap64Of32x2(x) >> 32) == Bswap32Constant(Low32(x))
    ensures Low32(Bswap64Of32x2(x)) == Bswap32Constant(Low32(x >> 32))
  {
  }

  /** Bytes 0 .. 3 of a 64-bit value are those of its low word, bytes 4 .. 7 those of its high word. */
  lemma Byte64OfWords(x: u64)
    ensures Byte64(x, 0) == Byte32(Low32(x), 0) as u64 && Byte64(x, 1) == Byte32(Low32(x), 1) as u64
    ensures Byte64(x, 2) == Byte32(Low32(x), 2) as u64 && Byte64(x, 3) == Byte32(Low32(x), 3) as u64
    ensures Byte64(x, 4) == Byte32(Low32(x >> 32), 0) as u64 && Byte64(x, 5) == Byte32(Low32(x >> 32), 1) as u64
    ensures Byte64(x, 6) == Byte32(Low32(x >> 32), 2) as u64 && Byte64(x, 7) == Byte32(Low32(x >> 32), 3) as u64
  {
  }

  /** Bswap_64_32x2 moves the high word's bytes, reversed, into the low word. */
  lemma Bswap64ReversesLow(x: u64)
    ensures Byte64(Bswap64Of32x2(x), 0) == Byte64(x, 7) && Byte64(Bswap64Of32x2(x), 1) == Byte64(x, 6)
    ensures Byte64(Bswap64Of32x2(x), 2) == Byte64(x, 5) && Byte64(Bswap64Of32x2(x), 3) == Byte64(x, 4)
  {
    Byte64OfWords(x);
    Byte64OfWords(Bswap64Of32x2(x));
    Bswap64Words(x);
    Bswap32Bytes(Low32(x >> 32));
  }

  /** Bswap_64_32x2 moves the low word's bytes, reversed, into the high word. */
  lemma Bswap64ReversesHigh(x: u64)
    ensures Byte64(Bswap64Of32x2(x), 4) == Byte64(x, 3) && Byte64(Bswap64Of32x2(x), 5) == Byte64(x, 2)
    ensures Byte64(Bswap64Of32x2(x), 6) == Byte64(x, 1) && Byte64(Bswap64Of32x2(x), 7) == Byte64(x, 0)
  {
    Byte64OfWords(x);
    Byte64OfWords(Bswap64Of32x2(x));
    Bswap64Words(x);
    Bswap32Bytes(Low32(x));
  }

  /** Bswap_64_32x2 reverses all eight bytes. */
  lemma Bswap64Reverses(x: u64)
    ensures forall j :: 0 <= j < 8 ==> Byte64(Bswap64Of32x2(x), j) == Byte64(x, 7 - j)
  {
    Bswap64ReversesLow(x);
    Bswap64ReversesHigh(x);
    forall j | 0 <= j < 8
      ensures Byte64(Bswap64Of32x2(x), j) == Byte64(x, 7 - j)
    {
      if j < 4 {
        assert j == 0 || j == 1 || j == 2 || j == 3;
      } else {
        assert j == 4 || j == 5 || j == 6 || j == 7;
      }
    }
  }

  /** Bswap_64: the two-word fallback. */
  function Bswap64(x: u64): (r: u64)
    ensures forall j :: 0 <= j < 8 ==> Byte64(r, j) == Byte64(x, 7 - j)
  {
    Bswap64Reverses(x);
    Bswap64Of32x2(x)
  }

  /** A value is the sum of its bytes in place. */
  lemma Recompose64(x: u64)
    ensures x == Byte64(x, 0) | (Byte64(x, 1) << 8) | (Byte64(x, 2) << 16) | (Byte64(x, 3) << 24)
      | (Byte64(x, 4) << 32) | (Byte64(x, 5) << 40) | (Byte64(x, 6) << 48) | (Byte64(x, 7) << 56)
  {
  }

  /** Two values with the same eight bytes are equal. */
  lemma SameBytes64(x: u64, y: u64)
    requires Byte64(x, 0) == Byte64(y, 0) && Byte64(x, 1) == Byte64(y, 1)
    requires Byte64(x, 2) == Byte64(y, 2) && Byte64(x, 3) == Byte64(y, 3)
    requires Byte64(x, 4) == Byte64(y, 4) && Byte64(x, 5) == Byte64(y, 5)
    requires Byte64(x, 6) == Byte64(y, 6) && Byte64(x, 7) == Byte64(y, 7)
    ensures x == y
  {
    Recompose64(x);
    Recompose64(y);
  }

  /** Swapping twice gives back the original value. */
  lemma Bswap64Involution(x: u64)
    ensures Bswap64(Bswap64(x)) == x
  {
    ReversedTwice(x, Bswap64(x), Bswap64(Bswap64(x)));
  }

  /** Reversing the bytes of a reversal gives back the original bytes, and so the original value. */
  lemma ReversedTwice(x: u64, y: u64, r: u64)
    requires forall j :: 0 <= j < 8 ==> Byte64(y, j) == Byte64(x, 7 - j)
    requires forall j :: 0 <= j < 8 ==> Byte64(r, j) == Byte64(y, 7 - j)
    ensures r == x
  {
    assert Byte64(r, 0) == Byte64(y, 7) == Byte64(x, 0);
    assert Byte64(r, 1) == Byte64(y, 6) == Byte64(x, 1);
    assert Byte64(r, 2) == Byte64(y, 5) == Byte64(x, 2);
    assert Byte64(r, 3) == Byte64(y, 4) == Byte64(x, 3);
    assert Byte64(r, 4) == Byte64(y, 3) == Byte64(x, 4);
    assert Byte64(r, 5) == Byte64(y, 2) == Byte64(x, 5);
    assert Byte64(r, 6) == Byte64(y, 1) == Byte64(x, 6);
    assert Byte64(r, 7) == Byte64(y, 0) == Byte64(x, 7);
    SameBytes64(r, x);
  }

  /** The eight bytes of a value, least significant first: a reference for what a byte swap does. */
  function LittleEndianBytes(x: u64): (bs: seq<u64>)
    ensures |bs| == 8
  {
    [Byte64(x, 0), Byte64(x, 1), Byte64(x, 2), Byte64(x, 3),
     Byte64(x, 4), Byte64(x, 5), Byte64(x, 6), Byte64(x, 7)]
  }

  /** The bytes of Bswap_64(x) are those of x in the opposite order. */
  lemma Bswap64ReversesBytes(x: u64)
    ensures var bs := LittleEndianBytes(x);
      LittleEndianBytes(Bswap64(x)) == [bs[7], bs[6], bs[5], bs[4], bs[3], bs[2], bs[1], bs[0]]
  {
    var r := Bswap64(x);
    assert Byte64(r, 0) == Byte64(x, 7) && Byte64(r, 1) == Byte64(x, 6);
    assert Byte64(r, 2) == Byte64(x, 5) && Byte64(r, 3) == Byte64(x, 4);
    assert Byte64(r, 4) == Byte64(x, 3) && Byte64(r, 5) == Byte64(x, 2);
    assert Byte64(r, 6) == Byte64(x, 1) && Byte64(r, 7) == Byte64(x, 0);
  }

  /** main: exit status 0 iff Bswap_64_32x2 maps the sample value to its byte reversal. */
  method ByteSwapDemo() returns (status: int)
    ensures status == 0
  {
    var original: u64 := 0x554E49584C4f5645;
    var expected: u64 := 0x45564f4c58494e55;
    var actual2 := Bswap64Of32x2(original);
    status := if actual2 == expected then 0 else 1;
  }
}
