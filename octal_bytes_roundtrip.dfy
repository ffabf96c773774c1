/**
 * c/octal-bytes.c: decoding what octal_encode wrote gives the bytes back,
 * and the demonstration's round trip (demo_round_trip, loop_demo,
 * round_trip_string) reports no difference.
 */
module OctalRoundTrip {
  import opened OctalBytes

  // ---------------------------------------------------------------
  // One group of three bytes, at the bit level

  /** The byte at k, or the zero padding past the end. */
  function ByteOr0(bytes: seq<byte>, k: nat): byte
  {
    if k < |bytes| then bytes[k] else 0
  }

  /** Three bytes packed as the encoder packs them: c0 in bits 23..16, c1 in 15..8, c2 in 7..0. */
  function Pack3(c0: byte, c1: byte, c2: byte): bv32
  {
    ShiftInByte(ShiftInByte(ShiftInByte(0, c0 as bv32), c1 as bv32), c2 as bv32)
  }

  lemma Pack24IsPack3(bytes: seq<byte>, i: nat)
    ensures Pack24(bytes, i, 3) == Pack3(ByteOr0(bytes, i), ByteOr0(bytes, i + 1), ByteOr0(bytes, i + 2))
  {
    assert ByteAt(bytes, i) == ByteOr0(bytes, i) as bv32;
    assert ByteAt(bytes, i + 1) == ByteOr0(bytes, i + 1) as bv32;
    assert ByteAt(bytes, i + 2) == ByteOr0(bytes, i + 2) as bv32;
    assert Pack24(bytes, i, 1) == ShiftInByte(0, ByteAt(bytes, i));
    assert Pack24(bytes, i, 2) == ShiftInByte(Pack24(bytes, i, 1), ByteAt(bytes, i + 1));
  }

  lemma PackedBytes(c0: byte, c1: byte, c2: byte)
    ensures Pack3(c0, c1, c2) < 0x100_0000
    ensures GroupByte(Pack3(c0, c1, c2), 0) == c0
    ensures GroupByte(Pack3(c0, c1, c2), 1) == c1
    ensures GroupByte(Pack3(c0, c1, c2), 2) == c2
  {
  }

  /** Clearing the low 6 (or 15) bits keeps the first two bytes (or the first byte). */
  lemma PackedBytesTruncated(c0: byte, c1: byte, c2: byte)
    ensures GroupByte((Pack3(c0, c1, c2) >> 6) << 6, 0) == c0
    ensures GroupByte((Pack3(c0, c1, c2) >> 6) << 6, 1) == c1
    ensures GroupByte((Pack3(c0, c1, c2) >> 15) << 15, 0) == c0
  {
  }

  lemma GroupDigitsHigh(v: bv32)
    ensures GroupDigit(v, 0) == 7 & (v >> 21)
    ensures GroupDigit(v, 1) == 7 & (v >> 18)
    ensures GroupDigit(v, 2) == 7 & (v >> 15)
    ensures GroupDigit(v, 3) == 7 & (v >> 12)
  {
  }

  lemma GroupDigitsLow(v: bv32)
    ensures GroupDigit(v, 4) == 7 & (v >> 9)
    ensures GroupDigit(v, 5) == 7 & (v >> 6)
    ensures GroupDigit(v, 6) == 7 & (v >> 3)
    ensures GroupDigit(v, 7) == 7 & v
  {
  }

  /** Shifting the digits of a 24-bit value back in, one at a time, rebuilds its high bits. */
  lemma ShiftChainHigh(v: bv32)
    requires v < 0x100_0000
    ensures ShiftInDigit(0, 7 & (v >> 21)) == v >> 21
    ensures ShiftInDigit(v >> 21, 7 & (v >> 18)) == v >> 18
    ensures ShiftInDigit(v >> 18, 7 & (v >> 15)) == v >> 15
  {
  }

  lemma ShiftChainMiddle(v: bv32)
    ensures ShiftInDigit(v >> 15, 7 & (v >> 12)) == v >> 12
    ensures ShiftInDigit(v >> 12, 7 & (v >> 9)) == v >> 9
    ensures ShiftInDigit(v >> 9, 7 & (v >> 6)) == v >> 6
  {
  }

  lemma ShiftChainLow(v: bv32)
    ensures ShiftInDigit(v >> 6, 7 & (v >> 3)) == v >> 3
    ensures ShiftInDigit(v >> 3, 7 & v) == v
  {
  }

  /** Shifting in zero digits (past the end of the text) leaves the low bits clear. */
  lemma ShiftZerosAfterSix(v: bv32)
    ensures ShiftInDigit(v >> 6, 0) == (v >> 6) << 3
    ensures ShiftInDigit((v >> 6) << 3, 0) == (v >> 6) << 6
  {
  }

  lemma ShiftZerosAfterThree(v: bv32)
    ensures ShiftInDigit(v >> 15, 0) == (v >> 15) << 3
    ensures ShiftInDigit((v >> 15) << 3, 0) == (v >> 15) << 6
    ensures ShiftInDigit((v >> 15) << 6, 0) == (v >> 15) << 9
  {
  }

  lemma ShiftZerosAfterThreeEnd(v: bv32)
    ensures ShiftInDigit((v >> 15) << 9, 0) == (v >> 15) << 12
    ensures ShiftInDigit((v >> 15) << 12, 0) == (v >> 15) << 15
  {
  }

  /** b3 as the decoder builds it from the first w digits of the 24-bit group v, then zeros. */
  function RepackDigits(v: bv32, w: nat, j: nat): bv32
    requires j <= 8
  {
    if j == 0 then 0
    else ShiftInDigit(RepackDigits(v, w, j - 1), if j - 1 < w then GroupDigit(v, j - 1) else 0)
  }

  /** All eight digits give v back; six or three keep its top 18 or 9 bits. */
  lemma RepackBits(v: bv32)
    requires v < 0x100_0000
    ensures RepackDigits(v, 8, 8) == v
    ensures RepackDigits(v, 6, 8) == (v >> 6) << 6
    ensures RepackDigits(v, 3, 8) == (v >> 15) << 15
  {
    GroupDigitsHigh(v);
    GroupDigitsLow(v);
    ShiftChainHigh(v);
    ShiftChainMiddle(v);
    ShiftChainLow(v);
    ShiftZerosAfterSix(v);
    ShiftZerosAfterThree(v);
    ShiftZerosAfterThreeEnd(v);
    assert RepackDigits(v, 8, 1) == v >> 21 && RepackDigits(v, 6, 1) == v >> 21 && RepackDigits(v, 3, 1) == v >> 21;
    assert RepackDigits(v, 8, 2) == v >> 18 && RepackDigits(v, 6, 2) == v >> 18 && RepackDigits(v, 3, 2) == v >> 18;
    assert RepackDigits(v, 8, 3) == v >> 15 && RepackDigits(v, 6, 3) == v >> 15 && RepackDigits(v, 3, 3) == v >> 15;
    assert RepackDigits(v, 8, 4) == v >> 12 && RepackDigits(v, 6, 4) == v >> 12;
    assert RepackDigits(v, 3, 4) == (v >> 15) << 3;
    assert RepackDigits(v, 8, 5) == v >> 9 && RepackDigits(v, 6, 5) == v >> 9;
    assert RepackDigits(v, 3, 5) == (v >> 15) << 6;
    assert RepackDigits(v, 8, 6) == v >> 6 && RepackDigits(v, 6, 6) == v >> 6;
    assert RepackDigits(v, 3, 6) == (v >> 15) << 9;
    assert RepackDigits(v, 8, 7) == v >> 3 && RepackDigits(v, 6, 7) == (v >> 6) << 3;
    assert RepackDigits(v, 3, 7) == (v >> 15) << 12;
  }

  lemma DigitValueOfChar(d: bv32)
    requires d < 8
    ensures DigitValue(DigitChar(d)) == d
  {
  }

  // ---------------------------------------------------------------
  // One group of the encoded text

  /** Where group g sits in the encoded text: at 8g, and at the very end when it is short. */
  lemma EncodedGroupAt(bytes: seq<byte>, g: nat)
    requires 3 * g < |bytes|
    ensures 8 * g + |EncodeGroup(bytes, g)| <= |Encoded(bytes)|
    ensures |EncodeGroup(bytes, g)| < 8 ==> |Encoded(bytes)| == 8 * g + |EncodeGroup(bytes, g)|
    ensures forall m :: 0 <= m < |EncodeGroup(bytes, g)| ==> Encoded(bytes)[8 * g + m] == EncodeGroup(bytes, g)[m]
  {
    var e := Encoded(bytes);
    var grp := EncodeGroup(bytes, g);
    var pre := EncodedGroups(bytes, g + 1);
    FullGroupsLength(bytes, g);
    assert pre == EncodedGroups(bytes, g) + grp;
    GroupsWithinEncoded(bytes, g + 1);
    forall m | 0 <= m < |grp|
      ensures e[8 * g + m] == grp[m]
    {
      assert e[8 * g + m] == e[..|pre|][8 * g + m];
    }
  }

  /** The decoder reads the eight digits of group g as v's first w digits, then zeros. */
  ghost predicate ReadsAsDigits(e: seq<char>, g: nat, v: bv32, w: nat)
    requires AllOctal(e)
  {
    forall k :: 0 <= k < 8 ==> DigitAt(e, 8 * g + k) == if k < w then GroupDigit(v, k) else 0
  }

  /** The decoder's b3 for an encoded group is the group's bits repacked from its w digits. */
  lemma {:induction false} PackEncodedDigits(e: seq<char>, g: nat, v: bv32, w: nat, j: nat)
    requires AllOctal(e) && j <= 8 && ReadsAsDigits(e, g, v, w)
    ensures Pack8(e, 8 * g, j) == RepackDigits(v, w, j)
  {
    if j > 0 {
      PackEncodedDigits(e, g, v, w, j - 1);
      ReadsDigitAt(e, g, v, w, j - 1);
      PackDigitsStep(e, 8 * g, v, w, j);
    }
  }

  lemma ReadsDigitAt(e: seq<char>, g: nat, v: bv32, w: nat, k: nat)
    requires AllOctal(e) && k < 8 && ReadsAsDigits(e, g, v, w)
    ensures DigitAt(e, 8 * g + k) == if k < w then GroupDigit(v, k) else 0
  {
  }

  /** One more round of both packing loops keeps them equal when they read the same digit. */
  lemma PackDigitsStep(e: seq<char>, i: nat, v: bv32, w: nat, j: nat)
    requires AllOctal(e) && 0 < j <= 8
    requires Pack8(e, i, j - 1) == RepackDigits(v, w, j - 1)
    requires DigitAt(e, i + (j - 1)) == if j - 1 < w then GroupDigit(v, j - 1) else 0
    ensures Pack8(e, i, j) == RepackDigits(v, w, j)
  {
  }

  /** The decoder reads digit k of an encoded group as the group's digit k, or as 0 past its end. */
  lemma EncodedDigitAt(e: seq<char>, g: nat, v: bv32, w: nat, k: nat)
    requires AllOctal(e) && w <= 8 && k < 8 && 8 * g + w <= |e|
    requires w < 8 ==> |e| == 8 * g + w
    requires forall m :: 0 <= m < w ==> e[8 * g + m] == DigitChar(GroupDigit(v, m))
    ensures DigitAt(e, 8 * g + k) == if k < w then GroupDigit(v, k) else 0
  {
    if k < w {
      DigitValueOfChar(GroupDigit(v, k));
    }
  }
  /** A full group: eight digits give the three bytes back. */
  lemma FullGroupBits(c0: byte, c1: byte, c2: byte)
    ensures GroupBytes(RepackDigits(Pack3(c0, c1, c2), 8, 8), 3) == [c0, c1, c2]
  {
    var v := Pack3(c0, c1, c2);
    PackedBytes(c0, c1, c2);
    RepackBits(v);
    assert GroupBytes(v, 3) == [GroupByte(v, 0), GroupByte(v, 1), GroupByte(v, 2)];
  }

  /** A group of two bytes: six digits give them back. */
  lemma TwoByteGroupBits(c0: byte, c1: byte)
    ensures GroupBytes(RepackDigits(Pack3(c0, c1, 0), 6, 8), 2) == [c0, c1]
  {
    var v := Pack3(c0, c1, 0);
    PackedBytes(c0, c1, 0);
    PackedBytesTruncated(c0, c1, 0);
    RepackBits(v);
    assert GroupBytes((v >> 6) << 6, 2) == [GroupByte((v >> 6) << 6, 0), GroupByte((v >> 6) << 6, 1)];
  }

  /** A group of one byte: three digits give it back. */
  lemma OneByteGroupBits(c0: byte)
    ensures GroupBytes(RepackDigits(Pack3(c0, 0, 0), 3, 8), 1) == [c0]
  {
    var v := Pack3(c0, 0, 0);
    PackedBytes(c0, 0, 0);
    PackedBytesTruncated(c0, 0, 0);
    RepackBits(v);
    assert GroupBytes((v >> 15) << 15, 1) == [GroupByte((v >> 15) << 15, 0)];
  }

  /** Repacking the digits the encoder writes for the group at i and unpacking its bytes gives them back. */
  lemma GroupBitsRoundTrip(bytes: seq<byte>, i: nat)
    requires i < |bytes|
    ensures var u := Min(3, |bytes| - i);
      GroupBytes(RepackDigits(Pack24(bytes, i, 3), DigitsForBytes(u), 8), u) == bytes[i .. Min(i + 3, |bytes|)]
  {
    if |bytes| - i >= 3 {
      FullGroupAt(bytes, i);
    } else if |bytes| - i == 2 {
      TwoByteGroupAt(bytes, i);
    } else {
      OneByteGroupAt(bytes, i);
    }
  }

  lemma FullGroupAt(bytes: seq<byte>, i: nat)
    requires i + 3 <= |bytes|
    ensures GroupBytes(RepackDigits(Pack24(bytes, i, 3), 8, 8), 3) == bytes[i .. i + 3]
  {
    Pack24IsPack3(bytes, i);
    FullGroupBits(bytes[i], bytes[i + 1], bytes[i + 2]);
    assert bytes[i .. i + 3] == [bytes[i], bytes[i + 1], bytes[i + 2]];
  }

  lemma TwoByteGroupAt(bytes: seq<byte>, i: nat)
    requires i + 2 == |bytes|
    ensures GroupBytes(RepackDigits(Pack24(bytes, i, 3), 6, 8), 2) == bytes[i .. i + 2]
  {
    Pack24IsPack3(bytes, i);
    TwoByteGroupBits(bytes[i], bytes[i + 1]);
    assert bytes[i .. i + 2] == [bytes[i], bytes[i + 1]];
  }

  lemma OneByteGroupAt(bytes: seq<byte>, i: nat)
    requires i + 1 == |bytes|
    ensures GroupBytes(RepackDigits(Pack24(bytes, i, 3), 3, 8), 1) == bytes[i .. i + 1]
  {
    Pack24IsPack3(bytes, i);
    OneByteGroupBits(bytes[i]);
    assert bytes[i .. i + 1] == [bytes[i]];
  }

  /** Each digit of group g's encoding is the matching digit of the group's packed bits. */
  lemma EncodeGroupDigits(bytes: seq<byte>, g: nat)
    requires 3 * g < |bytes|
    ensures forall m :: 0 <= m < |EncodeGroup(bytes, g)| ==>
      EncodeGroup(bytes, g)[m] == DigitChar(GroupDigit(Pack24(bytes, 3 * g, 3), m))
  {
  }

  /** Digits copied from a group that spells v spell v. */
  lemma DigitsThroughGroup(e: seq<char>, grp: seq<char>, g: nat, v: bv32)
    requires |grp| <= 8 && 8 * g + |grp| <= |e|
    requires forall m :: 0 <= m < |grp| ==> e[8 * g + m] == grp[m]
    requires forall m :: 0 <= m < |grp| ==> grp[m] == DigitChar(GroupDigit(v, m))
    ensures forall m :: 0 <= m < |grp| ==> e[8 * g + m] == DigitChar(GroupDigit(v, m))
  {
  }

  /** The digits of group g in the encoded text are those of the packed group v. */
  lemma EncodedGroupDigits(bytes: seq<byte>, g: nat)
    requires 3 * g < |bytes|
    ensures var w := DigitsForBytes(Min(3, |bytes| - 3 * g));
      && 8 * g + w <= |Encoded(bytes)|
      && (w < 8 ==> |Encoded(bytes)| == 8 * g + w)
      && forall m :: 0 <= m < w ==> Encoded(bytes)[8 * g + m] == DigitChar(GroupDigit(Pack24(bytes, 3 * g, 3), m))
  {
    EncodedGroupAt(bytes, g);
    EncodeGroupDigits(bytes, g);
    DigitsThroughGroup(Encoded(bytes), EncodeGroup(bytes, g), g, Pack24(bytes, 3 * g, 3));
  }

  /** Decoding a group whose digits are those of v, w of them, yields v's bits repacked. */
  lemma DecodeGroupOfDigits(e: seq<char>, g: nat, v: bv32, u: nat)
    requires AllOctal(e) && 1 <= u <= 3 && 8 * g < |e|
    requires Min(8, |e| - 8 * g) == DigitsForBytes(u)
    requires forall m :: 0 <= m < DigitsForBytes(u) ==> e[8 * g + m] == DigitChar(GroupDigit(v, m))
    ensures DecodeGroup(e, g) == GroupBytes(RepackDigits(v, DigitsForBytes(u), 8), u)
  {
    var w := DigitsForBytes(u);
    assert ReadsAsDigits(e, g, v, w) by {
      forall k | 0 <= k < 8
        ensures DigitAt(e, 8 * g + k) == if k < w then GroupDigit(v, k) else 0
      {
        EncodedDigitAt(e, g, v, w, k);
      }
    }
    PackEncodedDigits(e, g, v, w, 8);
  }

  /** Decoding group g of the encoded text repacks the bits of the group's bytes. */
  lemma EncodedGroupDecodes(bytes: seq<byte>, g: nat)
    requires 3 * g < |bytes|
    ensures 8 * g < |Encoded(bytes)|
    ensures var u := Min(3, |bytes| - 3 * g);
      DecodeGroup(Encoded(bytes), g) == GroupBytes(RepackDigits(Pack24(bytes, 3 * g, 3), DigitsForBytes(u), 8), u)
  {
    EncodedGroupDigits(bytes, g);
    DecodeGroupOfDigits(Encoded(bytes), g, Pack24(bytes, 3 * g, 3), Min(3, |bytes| - 3 * g));
  }

  /** Decoding group g of the encoded text gives the (up to) three bytes that made it. */
  lemma GroupRoundTrip(bytes: seq<byte>, g: nat)
    requires 3 * g < |bytes|
    ensures 8 * g < |Encoded(bytes)|
    ensures DecodeGroup(Encoded(bytes), g) == bytes[3 * g .. Min(3 * g + 3, |bytes|)]
  {
    EncodedGroupDecodes(bytes, g);
    GroupBitsRoundTrip(bytes, 3 * g);
  }

  /** One more group: the decoded prefix grows by the group's bytes. */
  lemma DecodedGroupsSnoc(e: seq<char>, bytes: seq<byte>, g: nat)
    requires AllOctal(e) && 0 < g && 8 * (g - 1) < |e| && 3 * g <= |bytes| + 2
    requires DecodedGroups(e, g - 1) == bytes[..3 * (g - 1)]
    requires DecodeGroup(e, g - 1) == bytes[3 * (g - 1) .. Min(3 * g, |bytes|)]
    ensures DecodedGroups(e, g) == bytes[..Min(3 * g, |bytes|)]
  {
    var lo, hi := 3 * (g - 1), Min(3 * g, |bytes|);
    assert bytes[..hi] == bytes[..lo] + bytes[lo..hi];
  }

  /** Digits whose first g groups each decode to the matching three bytes decode to the first 3g bytes. */
  lemma {:induction false} DecodedGroupsMatch(e: seq<char>, bytes: seq<byte>, g: nat)
    requires AllOctal(e) && 3 * g <= |bytes| + 2
    requires forall k :: 0 <= k < g ==> 8 * k < |e| && DecodeGroup(e, k) == bytes[3 * k .. Min(3 * k + 3, |bytes|)]
    ensures DecodedGroups(e, g) == bytes[..Min(3 * g, |bytes|)]
  {
    if g > 0 {
      DecodedGroupsMatch(e, bytes, g - 1);
      assert Min(3 * (g - 1), |bytes|) == 3 * (g - 1);
      DecodedGroupsSnoc(e, bytes, g);
    } else {
      assert bytes[..Min(3 * g, |bytes|)] == [];
    }
  }

  /** octal_decode undoes octal_encode. */
  lemma RoundTrip(bytes: seq<byte>)
    ensures Decoded(Encoded(bytes)) == bytes
  {
    var e, big := Encoded(bytes), ByteGroups(|bytes|);
    forall k | 0 <= k < big
      ensures 8 * k < |e| && DecodeGroup(e, k) == bytes[3 * k .. Min(3 * k + 3, |bytes|)]
    {
      GroupRoundTrip(bytes, k);
    }
    DecodedGroupsMatch(e, bytes, big);
    EncodedGroupsLength(bytes, big);
    GroupsWithinDecoded(e, big);
    assert bytes[..Min(3 * big, |bytes|)] == bytes;
  }

  /** Rounding down, the encoded text of n bytes needs exactly n bytes of room to decode. */
  lemma EncodedDecodeRoom(n: nat)
    ensures DecodeSizeNeeded(EncodeSizeNeeded(n) - 1, false) == n
  {
    var q, r := n / 3, n % 3;
    assert n == 3 * q + r;
    SizeNeededByGroups(q, r);
    DecodeSizeByGroups(q, DigitsForBytes(r));
  }

  /** The NUL that octal_encode appends is where decoding stops. */
  lemma TerminatorStopsDecoding(octal: seq<char>, bytes: seq<byte>)
    requires |octal| > |Encoded(bytes)|
    requires octal[..|Encoded(bytes)|] == Encoded(bytes) && octal[|Encoded(bytes)|] == '\0'
    ensures FirstNonOctal(octal) == |Encoded(bytes)|
    ensures octal[..FirstNonOctal(octal)] == Encoded(bytes)
  {
    FirstNonOctalUnique(octal, |Encoded(bytes)|);
  }

  // ---------------------------------------------------------------
  // The demonstration

  /**
   * demo_round_trip: encode into octal, decode all octal_size chars of it
   * into out, and count the differences (1 for a length mismatch plus one
   * per differing byte). Printing is left out.
   */
  method DemoRoundTrip(bytes: seq<byte>, octal: array<char>, out: array<byte>) returns (differ: nat)
    requires octal.Length > 0 && out.Length > 0
    modifies octal, out
    ensures differ == 0 <==> |bytes| == 0 || (octal.Length >= EncodeSizeNeeded(|bytes|) && out.Length >= |bytes|)
    ensures differ == 0 ==> out.Length >= |bytes| && out[..|bytes|] == bytes
  {
    var okEnc, written := Encode(octal, bytes);
    EncodedLength(bytes);
    if okEnc {
      TerminatorStopsDecoding(octal[..], bytes);
      RoundTrip(bytes);
      EncodedDecodeRoom(|bytes|);
    } else {
      FirstNonOctalUnique(octal[..], 0);
    }
    var okDec;
    okDec, written := Decode(out, octal[..]);
    assert written <= |bytes|;
    differ := if written != |bytes| then 1 else 0;
    var i := 0;
    while i < out.Length && i < written
      invariant 0 <= i <= written
      invariant differ == (if written != |bytes| then 1 else 0)
    {
      differ := differ + (if out[i] == bytes[i] then 0 else 1);
      i := i + 1;
    }
  }

  /**
   * round_trip_string as written: out_size is a uint8_t, so bytes_len + 1 is
   * cut to its low 8 bits. The input is the bytes of the C string before its
   * NUL. When the cut leaves 0, octal_decode's assert(bytes_size) fails, which
   * the precondition excludes.
   */
  method RoundTripStringAsWritten(str: seq<byte>) returns (differ: nat)
    requires (|str| + 1) % 256 != 0
    ensures differ == 0 <==> |str| < 255
  {
    var outSize := (|str| + 1) % 256;
    var out := new byte[outSize];
    var octal := new char[EncodeSizeNeeded(|str|)](_ => '\0');
    differ := DemoRoundTrip(str, octal, out);
  }

  /** round_trip_string with out_size wide enough for bytes_len + 1: every string comes back. */
  method RoundTripString(str: seq<byte>) returns (differ: nat)
    ensures differ == 0
  {
    var outSize := |str| + 1;
    var out := new byte[outSize];
    var octal := new char[EncodeSizeNeeded(|str|)](_ => '\0');
    differ := DemoRoundTrip(str, octal, out);
  }

  /** Bytes_size, Out_size and Octal_size of loop_demo (1 + 25 * 8.0 / 3.0 truncated + 1 is 68). */
  const BytesSize: nat := 25
  const OutSize: nat := BytesSize
  const OctalSize: nat := 1 + (BytesSize * 8) / 3 + 1

  /** loop_demo: 1 + loop_count % 25 bytes counting up from loop_count (mod 256) come back unchanged. */
  method LoopDemo(loopCount: nat) returns (differ: nat)
    ensures differ == 0
  {
    var bytes := new byte[BytesSize];
    var out := new byte[OutSize];
    var octal := new char[OctalSize];
    var bytesLen := 1 + loopCount % BytesSize;
    var i := 0;
    while i < bytesLen
      invariant 0 <= i <= bytesLen
      invariant forall k :: 0 <= k < i ==> bytes[k] == ((loopCount + k) % 256) as byte
    {
      bytes[i] := ((loopCount + i) % 256) as byte;
      i := i + 1;
    }
    differ := DemoRoundTrip(bytes[..bytesLen], octal, out);
  }
}
