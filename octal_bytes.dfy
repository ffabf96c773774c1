/**
 * c/octal-bytes.c: encode bytes as octal digits, three bytes (24 bits) to
 * eight digits, and decode them back. The packing registers are the C
 * uint32_t values (bv32); sizes are unbounded naturals.
 */
module OctalBytes {
  type byte = bv8

  /** octal_encode_size_needed_for_string: digits needed for the bytes, plus the NUL. */
  function EncodeSizeNeeded(bytesLen: nat): (r: nat)
    ensures r == (8 * bytesLen + 2) / 3 + 1
    ensures r >= 1
  {
    var needed := (bytesLen * 8) / 3;
    var roundUp := if (bytesLen * 8) % 3 != 0 then 1 else 0;
    needed + roundUp + 1
  }

  /** octal_decode_size_needed_for_bytes: bytes held by that many digits, rounded down unless asked. */
  function DecodeSizeNeeded(octalStrLen: nat, roundUp: bool): (r: nat)
    ensures !roundUp ==> r == (3 * octalStrLen) / 8
    ensures roundUp ==> r == (3 * octalStrLen + 7) / 8
    ensures roundUp && (3 * octalStrLen) % 8 != 0 ==> r == (3 * octalStrLen) / 8 + 1
  {
    var needed := (octalStrLen * 3) / 8;
    if roundUp && (octalStrLen * 3) % 8 != 0 then needed + 1 else needed
  }

  predicate IsOctal(c: char)
  {
    '0' <= c <= '7'
  }

  predicate AllOctal(s: seq<char>)
  {
    forall k :: 0 <= k < |s| ==> IsOctal(s[k])
  }

  /** The index of the first non-octal char of s, or |s| if there is none. */
  function FirstNonOctal(s: seq<char>): (r: nat)
    ensures r <= |s|
    ensures AllOctal(s[..r])
    ensures r < |s| ==> !IsOctal(s[r])
  {
    if s == [] then 0
    else if !IsOctal(s[0]) then 0
    else
      var r := 1 + FirstNonOctal(s[1..]);
      assert s[..r] == [s[0]] + s[1..][..r - 1];
      r
  }

  /** octal_find_first_nonoctal */
  method FindFirstNonOctal(octal: seq<char>) returns (r: nat)
    ensures r == FirstNonOctal(octal)
  {
    var i := 0;
    while i < |octal|
      invariant 0 <= i <= |octal|
      invariant AllOctal(octal[..i])
    {
      if octal[i] < '0' || octal[i] > '7' {
        FirstNonOctalUnique(octal, i);
        return i;
      }
      i := i + 1;
    }
    assert octal[..i] == octal;
    FirstNonOctalUnique(octal, i);
    return |octal|;
  }

  /** The first non-octal index is the only index with octal chars before it and a non-octal (or the end) at it. */
  lemma {:induction false} FirstNonOctalUnique(s: seq<char>, r: nat)
    requires r <= |s| && AllOctal(s[..r]) && (r < |s| ==> !IsOctal(s[r]))
    ensures FirstNonOctal(s) == r
  {
    if r > 0 {
      assert s[..r][0] == s[0];
      assert s[1..][..r - 1] == s[..r][1..];
      FirstNonOctalUnique(s[1..], r - 1);
    }
  }

  // ---------------------------------------------------------------
  // Encoding, specified group by group

  /** The array starts with s. */
  ghost predicate HoldsPrefix<T>(a: array<T>, s: seq<T>)
    reads a
  {
    |s| <= a.Length && a[..|s|] == s
  }

  /** From index `from` on, the array still holds what orig held. */
  ghost predicate UnchangedFrom<T>(a: array<T>, orig: seq<T>, from: nat)
    reads a
  {
    |orig| == a.Length && forall k :: from <= k < a.Length ==> a[k] == orig[k]
  }

  /** The byte at k widened to uint32_t, or 0 past the end (the zero padding of the last group). */
  function ByteAt(bytes: seq<byte>, k: nat): bv32
  {
    if k < |bytes| then bytes[k] as bv32 else 0
  }

  /** One round of the packing loop: b24 = (b24 << CHAR_BIT) | bij. */
  function ShiftInByte(b24: bv32, bij: bv32): bv32
  {
    (b24 << 8) | bij
  }

  /** b24 after j rounds of the packing loop for the group starting at i. */
  function Pack24(bytes: seq<byte>, i: nat, j: nat): bv32
    requires j <= 3
  {
    if j == 0 then 0 else ShiftInByte(Pack24(bytes, i, j - 1), ByteAt(bytes, i + j - 1))
  }

  /** jmax for the encoder: digits written for a group of `used` bytes. */
  function DigitsForBytes(used: nat): nat
  {
    if used == 3 then 8 else if used == 2 then 6 else if used == 1 then 3 else 0
  }

  function DigitChar(d: bv32): (c: char)
    requires d < 8
    ensures IsOctal(c)
  {
    ('0' as int + d as int) as char
  }

  /** Octal digit j (most significant first) of a 24-bit group. */
  function GroupDigit(b24: bv32, j: nat): (d: bv32)
    requires j < 8
    ensures d < 8
  {
    7 & (b24 >> (21 - 3 * j as bv32))
  }

  function Min(a: int, b: int): int
  {
    if a < b then a else b
  }

  /** The first jmax octal digits of a 24-bit group, most significant first. */
  function GroupDigits(b24: bv32, jmax: nat): (s: seq<char>)
    requires jmax <= 8
    ensures |s| == jmax
    ensures AllOctal(s)
  {
    seq(jmax, j requires 0 <= j < jmax => DigitChar(GroupDigit(b24, j)))
  }

  /** The digits one pass of the outer encoding loop writes for group g (the bytes from 3g). */
  function EncodeGroup(bytes: seq<byte>, g: nat): (s: seq<char>)
    requires 3 * g < |bytes|
    ensures |s| == DigitsForBytes(Min(3, |bytes| - 3 * g))
    ensures AllOctal(s)
  {
    var jmax := DigitsForBytes(Min(3, |bytes| - 3 * g));
    seq(jmax, j requires 0 <= j < jmax => DigitChar(GroupDigit(Pack24(bytes, 3 * g, 3), j)))
  }

  /** The digits written for the first g groups. */
  function EncodedGroups(bytes: seq<byte>, g: nat): seq<char>
  {
    if g == 0 then []
    else EncodedGroups(bytes, g - 1) + (if 3 * (g - 1) < |bytes| then EncodeGroup(bytes, g - 1) else [])
  }

  /** The number of passes of the outer encoding loop: ceil(n / 3). */
  function ByteGroups(n: nat): nat
  {
    (n + 2) / 3
  }

  /** The octal text of a byte sequence, without its NUL. */
  function Encoded(bytes: seq<byte>): (s: seq<char>)
    ensures AllOctal(s)
  {
    EncodedGroupsOctal(bytes, ByteGroups(|bytes|));
    EncodedGroups(bytes, ByteGroups(|bytes|))
  }

  lemma {:induction false} EncodedGroupsOctal(bytes: seq<byte>, g: nat)
    ensures AllOctal(EncodedGroups(bytes, g))
  {
    if g > 0 {
      EncodedGroupsOctal(bytes, g - 1);
    }
  }

  /** For n = 3q + r bytes the encoder needs 8q digits plus those of the short last group. */
  lemma SizeNeededByGroups(q: nat, r: nat)
    requires r < 3
    ensures EncodeSizeNeeded(3 * q + r) - 1 == 8 * q + DigitsForBytes(r)
  {
    assert 8 * (3 * q + r) + 2 == 3 * (8 * q) + (8 * r + 2);
  }

  /** g full groups of 3 bytes never need more digits than the whole input. */
  lemma FullGroupsFit(n: nat, g: nat)
    requires 3 * g <= n
    ensures 8 * g <= EncodeSizeNeeded(n) - 1
  {
    assert 8 * (3 * g) <= 8 * n;
  }

  /** Each of the first g groups is full when the input holds 3g bytes. */
  lemma {:induction false} FullGroupsLength(bytes: seq<byte>, g: nat)
    requires 3 * g <= |bytes|
    ensures |EncodedGroups(bytes, g)| == 8 * g
  {
    if g > 0 {
      FullGroupsLength(bytes, g - 1);
    }
  }

  lemma {:induction false} EncodedGroupsLength(bytes: seq<byte>, g: nat)
    requires 3 * g <= |bytes| + 2
    ensures 3 * g <= |bytes| ==> |EncodedGroups(bytes, g)| == 8 * g
    ensures 3 * g > |bytes| ==> |EncodedGroups(bytes, g)| == EncodeSizeNeeded(|bytes|) - 1
    ensures |EncodedGroups(bytes, g)| <= EncodeSizeNeeded(|bytes|) - 1
    ensures |EncodedGroups(bytes, g)| <= 8 * g
  {
    var n := |bytes|;
    if g > 0 {
      EncodedGroupsLength(bytes, g - 1);
    }
    if 3 * g <= n {
      FullGroupsFit(n, g);
    } else {
      SizeNeededByGroups(g - 1, n - 3 * (g - 1));
      assert |EncodeGroup(bytes, g - 1)| == DigitsForBytes(n - 3 * (g - 1));
    }
  }

  /** The digits of the first g groups are a prefix of those of the first h >= g groups. */
  lemma {:induction false} EncodedGroupsPrefix(bytes: seq<byte>, g: nat, h: nat)
    requires g <= h
    ensures |EncodedGroups(bytes, g)| <= |EncodedGroups(bytes, h)|
    ensures EncodedGroups(bytes, h)[..|EncodedGroups(bytes, g)|] == EncodedGroups(bytes, g)
  {
    if g < h {
      EncodedGroupsPrefix(bytes, g, h - 1);
    }
  }

  /** No pass of the encoding loop writes past the whole encoded text, and the last pass completes it. */
  lemma GroupsWithinEncoded(bytes: seq<byte>, g: nat)
    requires 3 * g <= |bytes| + 2
    ensures |EncodedGroups(bytes, g)| <= |Encoded(bytes)|
    ensures Encoded(bytes)[..|EncodedGroups(bytes, g)|] == EncodedGroups(bytes, g)
    ensures 3 * g >= |bytes| ==> EncodedGroups(bytes, g) == Encoded(bytes)
  {
    EncodedGroupsPrefix(bytes, g, ByteGroups(|bytes|));
  }

  /** The encoded text has exactly EncodeSizeNeeded - 1 digits. */
  lemma EncodedLength(bytes: seq<byte>)
    ensures |Encoded(bytes)| == EncodeSizeNeeded(|bytes|) - 1
  {
    var g := ByteGroups(|bytes|);
    assert 3 * g <= |bytes| + 2;
    EncodedGroupsLength(bytes, g);
  }

  /** The first inner loop of octal_encode: pack up to three bytes from i into b24. */
  method PackGroup(bytes: seq<byte>, i: nat) returns (b24: bv32, used: nat)
    requires i < |bytes|
    ensures b24 == Pack24(bytes, i, 3)
    ensures used == Min(3, |bytes| - i)
  {
    b24 := 0;
    used := 0;
    var j := 0;
    while j < 3
      invariant 0 <= j <= 3
      invariant b24 == Pack24(bytes, i, j)
      invariant used == Min(j, |bytes| - i)
    {
      var k := i + j;
      var bij := ByteAt(bytes, k);
      if k < |bytes| {
        used := used + 1;
      }
      b24 := ShiftInByte(b24, bij);
      j := j + 1;
    }
  }

  /** The second inner loop of octal_encode: write the first jmax digits of b24 at *written. */
  method WriteGroupDigits(octal: array<char>, start: nat, b24: bv32, jmax: nat) returns (written: nat)
    requires jmax <= 8 && start + jmax < octal.Length
    modifies octal
    ensures written == start + jmax
    ensures octal[..written] == old(octal[..start]) + GroupDigits(b24, jmax)
    ensures forall k :: written <= k < octal.Length ==> octal[k] == old(octal[k])
  {
    written := start;
    var j := 0;
    while j < jmax
      invariant 0 <= j <= jmax
      invariant written == start + j
      invariant octal[..written] == old(octal[..start]) + GroupDigits(b24, jmax)[..j]
      invariant forall k :: written <= k < octal.Length ==> octal[k] == old(octal[k])
    {
      var oj := GroupDigit(b24, j);
      var coct := DigitChar(oj);
      octal[written] := coct;
      written := written + 1;
      j := j + 1;
      assert octal[..written] == octal[..written - 1] + [coct];
    }
    assert GroupDigits(b24, jmax)[..j] == GroupDigits(b24, jmax);
  }

  /** One pass of octal_encode's outer loop: pack the group at i and write its digits at written. */
  method EncodeOneGroup(octal: array<char>, bytes: seq<byte>, i: nat, ghost g: nat, start: nat,
                        ghost orig: seq<char>) returns (written: nat)
    requires i == 3 * g < |bytes|
    requires start == |EncodedGroups(bytes, g)| && |EncodedGroups(bytes, g + 1)| < octal.Length
    requires HoldsPrefix(octal, EncodedGroups(bytes, g)) && UnchangedFrom(octal, orig, start)
    modifies octal
    ensures written == |EncodedGroups(bytes, g + 1)|
    ensures HoldsPrefix(octal, EncodedGroups(bytes, g + 1)) && UnchangedFrom(octal, orig, written)
  {
    var b24, used := PackGroup(bytes, i);
    var jmax := DigitsForBytes(used);
    assert GroupDigits(b24, jmax) == EncodeGroup(bytes, g);
    assert EncodedGroups(bytes, g + 1) == EncodedGroups(bytes, g) + EncodeGroup(bytes, g);
    assert octal[..start] == EncodedGroups(bytes, g);
    written := WriteGroupDigits(octal, start, b24, jmax);
  }

  /** The outer loop of octal_encode, once the room check has passed. */
  method EncodeAllGroups(octal: array<char>, bytes: seq<byte>) returns (written: nat)
    requires octal.Length > |Encoded(bytes)|
    modifies octal
    ensures written == |Encoded(bytes)|
    ensures octal[..written] == Encoded(bytes)
    ensures forall k :: written <= k < octal.Length ==> octal[k] == old(octal[k])
  {
    ghost var orig := octal[..];
    written := 0;
    var i := 0;
    ghost var g := 0;
    while i < |bytes|
      invariant i == 3 * g && 3 * g <= |bytes| + 2
      invariant written == |EncodedGroups(bytes, g)| <= |Encoded(bytes)|
      invariant HoldsPrefix(octal, EncodedGroups(bytes, g)) && UnchangedFrom(octal, orig, written)
    {
      GroupsWithinEncoded(bytes, g + 1);
      written := EncodeOneGroup(octal, bytes, i, g, written, orig);
      i := i + 3;
      g := g + 1;
    }
    GroupsWithinEncoded(bytes, g);
    assert octal[..written] == Encoded(bytes);
  }

  /**
   * octal_encode. ok models the non-NULL return; written is *written.
   */
  method Encode(octal: array<char>, bytes: seq<byte>) returns (ok: bool, written: nat)
    requires octal.Length > 0
    modifies octal
    ensures ok <==> octal.Length >= EncodeSizeNeeded(|bytes|)
    ensures !ok ==> written == 0 && octal[0] == '\0'
    ensures ok ==> written == EncodeSizeNeeded(|bytes|) - 1 < octal.Length
    ensures ok ==> octal[..written] == Encoded(bytes) && octal[written] == '\0'
    ensures forall k :: (if ok then written else 0) < k < octal.Length ==> octal[k] == old(octal[k])
  {
    written := 0;
    var needed := EncodeSizeNeeded(|bytes|);
    if octal.Length < needed {
      octal[0] := '\0';
      return false, 0;
    }
    EncodedLength(bytes);
    written := EncodeAllGroups(octal, bytes);
    octal[written] := '\0';
    ok := true;
  }

  // ---------------------------------------------------------------
  // Decoding, specified group by group over the octal prefix

  /** The value of an octal digit char, oc - '0', spelled out digit by digit. */
  function DigitValue(c: char): (d: bv32)
    requires IsOctal(c)
    ensures d < 8
  {
    if c == '0' then 0 else if c == '1' then 1 else if c == '2' then 2 else if c == '3' then 3
    else if c == '4' then 4 else if c == '5' then 5 else if c == '6' then 6 else 7
  }

  /** The value of the octal digit at k, or 0 past the end. */
  function DigitAt(s: seq<char>, k: nat): bv32
    requires AllOctal(s)
  {
    if k < |s| then DigitValue(s[k]) else 0
  }

  /** One round of the unpacking loop: b3 = (b3 << OCTAL_BIT) | ob. */
  function ShiftInDigit(b3: bv32, ob: bv32): bv32
  {
    (b3 << 3) | ob
  }

  /** b3 after j rounds of the unpacking loop for the group starting at i. */
  function Pack8(s: seq<char>, i: nat, j: nat): bv32
    requires AllOctal(s) && j <= 8
  {
    if j == 0 then 0 else ShiftInDigit(Pack8(s, i, j - 1), DigitAt(s, i + j - 1))
  }

  /** jmax for the decoder: bytes made from a group of `used` digits. */
  function BytesForDigits(used: nat): nat
  {
    if used == 8 then 3 else if used == 6 then 2 else if used == 3 then 1 else 0
  }

  /** Byte j (most significant first) of a 24-bit group: offset 16, 8 or 0. */
  function GroupByte(b3: bv32, j: nat): byte
  {
    if j == 0 then (0xFF & (b3 >> 16)) as byte
    else if j == 1 then (0xFF & (b3 >> 8)) as byte
    else (0xFF & b3) as byte
  }

  /** The first jmax bytes of a 24-bit group, most significant first. */
  function GroupBytes(b3: bv32, jmax: nat): (r: seq<byte>)
    requires jmax <= 3
    ensures |r| == jmax
  {
    seq(jmax, j requires 0 <= j < jmax => GroupByte(b3, j))
  }

  /** The bytes one pass of the outer decoding loop writes for group g (the digits from 8g). */
  function DecodeGroup(s: seq<char>, g: nat): (r: seq<byte>)
    requires AllOctal(s) && 8 * g < |s|
    ensures |r| == BytesForDigits(Min(8, |s| - 8 * g))
  {
    var jmax := BytesForDigits(Min(8, |s| - 8 * g));
    seq(jmax, j requires 0 <= j < jmax => GroupByte(Pack8(s, 8 * g, 8), j))
  }

  /** The bytes written for the first g groups. */
  function DecodedGroups(s: seq<char>, g: nat): seq<byte>
    requires AllOctal(s)
  {
    if g == 0 then []
    else DecodedGroups(s, g - 1) + (if 8 * (g - 1) < |s| then DecodeGroup(s, g - 1) else [])
  }

  /** The number of passes of the outer decoding loop: ceil(n / 8). */
  function DigitGroups(n: nat): nat
  {
    (n + 7) / 8
  }

  /** The bytes decoded from a string of octal digits. */
  function Decoded(s: seq<char>): seq<byte>
    requires AllOctal(s)
  {
    DecodedGroups(s, DigitGroups(|s|))
  }

  /** Groups starting at or past the end add nothing. */
  lemma {:induction false} DecodedGroupsPast(s: seq<char>, g: nat)
    requires AllOctal(s) && |s| <= 8 * g
    ensures DecodedGroups(s, g) == Decoded(s)
  {
    if g > DigitGroups(|s|) {
      DecodedGroupsPast(s, g - 1);
    }
  }

  /** The bytes of the first g groups are a prefix of those of the first h >= g groups. */
  lemma {:induction false} DecodedGroupsPrefix(s: seq<char>, g: nat, h: nat)
    requires AllOctal(s) && g <= h
    ensures |DecodedGroups(s, g)| <= |DecodedGroups(s, h)|
    ensures DecodedGroups(s, h)[..|DecodedGroups(s, g)|] == DecodedGroups(s, g)
  {
    if g < h {
      DecodedGroupsPrefix(s, g, h - 1);
    }
  }

  /** No pass of the decoding loop writes past the whole decoded text, and passing the end completes it. */
  lemma GroupsWithinDecoded(s: seq<char>, g: nat)
    requires AllOctal(s)
    ensures |DecodedGroups(s, g)| <= |Decoded(s)|
    ensures |s| <= 8 * g ==> DecodedGroups(s, g) == Decoded(s)
  {
    if |s| <= 8 * g {
      DecodedGroupsPast(s, g);
    } else {
      DecodedGroupsPrefix(s, g, DigitGroups(|s|));
    }
  }

  /** For n = 8q + r digits: 3q bytes for the full groups, and a short group never yields more than 3r/8 bytes. */
  lemma DecodeSizeByGroups(q: nat, r: nat)
    requires r < 8
    ensures DecodeSizeNeeded(8 * q + r, false) == 3 * q + (3 * r) / 8
    ensures BytesForDigits(r) <= (3 * r) / 8
  {
    assert 3 * (8 * q + r) == 8 * (3 * q) + 3 * r;
  }

  /** Full groups give three bytes each; no decode writes more than octal_decode_size_needed_for_bytes. */
  lemma {:induction false} DecodedGroupsLength(s: seq<char>, g: nat)
    requires AllOctal(s)
    ensures 8 * g <= |s| ==> |DecodedGroups(s, g)| == 3 * g
    ensures |DecodedGroups(s, g)| <= DecodeSizeNeeded(|s|, false)
  {
    var n := |s|;
    if g > 0 {
      DecodedGroupsLength(s, g - 1);
    }
    if 8 * g <= n {
      var q, r := n / 8, n % 8;
      assert n == 8 * q + r;
      DecodeSizeByGroups(q, r);
      assert g <= q;
    } else if 8 * (g - 1) < n {
      var r := n - 8 * (g - 1);
      DecodeSizeByGroups(g - 1, r);
      assert |DecodeGroup(s, g - 1)| == BytesForDigits(r);
    }
  }

  /** Rounding down, the room a decode needs grows with the number of digits. */
  lemma DecodeSizeMonotone(m: nat, n: nat)
    requires m <= n
    ensures DecodeSizeNeeded(m, false) <= DecodeSizeNeeded(n, false)
  {
    assert 3 * m <= 3 * n;
  }

  /** Packing digits before n reads the same from s and from its first n chars. */
  lemma {:induction false} PackedBeforeCut(s: seq<char>, n: nat, i: nat, j: nat)
    requires AllOctal(s) && j <= 8 && i + j <= n <= |s|
    ensures Pack8(s, i, j) == Pack8(s[..n], i, j)
  {
    if j > 0 {
      PackedBeforeCut(s, n, i, j - 1);
      assert DigitAt(s, i + j - 1) == DigitAt(s[..n], i + j - 1);
    }
  }

  /** The full groups before n decode the same from s and from its first n chars. */
  lemma {:induction false} DecodedBeforeCut(s: seq<char>, n: nat, g: nat)
    requires AllOctal(s) && 8 * g <= n <= |s|
    ensures DecodedGroups(s, g) == DecodedGroups(s[..n], g)
  {
    if g > 0 {
      DecodedBeforeCut(s, n, g - 1);
      PackedBeforeCut(s, n, 8 * (g - 1), 8);
      assert DecodeGroup(s, g - 1) == DecodeGroup(s[..n], g - 1);
    }
  }

  /**
   * A trailing group of 1, 2, 4, 5 or 7 digits yields no byte: decoding s gives
   * what decoding its full groups alone gives.
   */
  lemma PartialGroupDropped(s: seq<char>)
    requires AllOctal(s) && |s| % 8 != 3 && |s| % 8 != 6
    ensures Decoded(s) == Decoded(s[..|s| - |s| % 8])
  {
    var q, r := |s| / 8, |s| % 8;
    assert |s| == 8 * q + r;
    DecodedBeforeCut(s, 8 * q, q);
    DecodedGroupsPast(s[..8 * q], q);
    if r > 0 {
      assert DigitGroups(|s|) == q + 1;
      assert |DecodeGroup(s, q)| == 0;
      assert DecodedGroups(s, q + 1) == DecodedGroups(s, q) + DecodeGroup(s, q);
    } else {
      assert s[..8 * q] == s;
    }
  }

  /** A trailing group of 3 or 6 digits yields 1 or 2 bytes after those of the full groups. */
  lemma ShortGroupYield(s: seq<char>)
    requires AllOctal(s) && (|s| % 8 == 3 || |s| % 8 == 6)
    ensures |Decoded(s)| == |Decoded(s[..|s| - |s| % 8])| + |s| % 8 / 3
    ensures Decoded(s[..|s| - |s| % 8]) <= Decoded(s)
  {
    var q, r := |s| / 8, |s| % 8;
    assert |s| == 8 * q + r;
    DecodedBeforeCut(s, 8 * q, q);
    DecodedGroupsPast(s[..8 * q], q);
    assert DigitGroups(|s|) == q + 1;
    assert DecodedGroups(s, q + 1) == DecodedGroups(s, q) + DecodeGroup(s, q);
  }

  /**
   * The first inner loop of octal_decode: pack up to eight digits from i into b3,
   * cutting octalLen at a non-octal char. f is the first non-octal index.
   */
  method UnpackGroup(octal: seq<char>, octalLen0: nat, i: nat, ghost f: nat)
    returns (b3: bv32, used: nat, octalLen: nat)
    requires f == FirstNonOctal(octal) && f <= octalLen0 <= |octal|
    requires i < octalLen0 && i <= f
    ensures b3 == Pack8(octal[..f], i, 8)
    ensures used == Min(8, f - i)
    ensures f <= octalLen <= octalLen0
    ensures i + 8 > f ==> octalLen == f
  {
    octalLen := octalLen0;
    used := 0;
    b3 := 0;
    var j := 0;
    while j < 8
      invariant 0 <= j <= 8
      invariant f <= octalLen <= octalLen0
      invariant i + j > f ==> octalLen == f
      invariant b3 == Pack8(octal[..f], i, j)
      invariant used == Min(j, f - i)
    {
      var ob: bv32 := 0;
      var k := i + j;
      if k < octalLen {
        var oc := octal[k];
        if oc < '0' || oc > '7' {
          octalLen := k;
        } else {
          ob := DigitValue(oc);
          used := used + 1;
        }
      }
      b3 := ShiftInDigit(b3, ob);
      j := j + 1;
    }
  }

  /** The second inner loop of octal_decode: write the first jmax bytes of b3 at *written. */
  method WriteGroupBytes(bytes: array<byte>, start: nat, b3: bv32, jmax: nat) returns (written: nat)
    requires jmax <= 3 && start + jmax <= bytes.Length
    modifies bytes
    ensures written == start + jmax
    ensures bytes[..written] == old(bytes[..start]) + GroupBytes(b3, jmax)
    ensures forall k :: written <= k < bytes.Length ==> bytes[k] == old(bytes[k])
  {
    written := start;
    var j := 0;
    while j < jmax
      invariant 0 <= j <= jmax
      invariant written == start + j
      invariant bytes[..written] == old(bytes[..start]) + GroupBytes(b3, jmax)[..j]
      invariant forall k :: written <= k < bytes.Length ==> bytes[k] == old(bytes[k])
    {
      var byte := GroupByte(b3, j);
      bytes[written] := byte;
      written := written + 1;
      j := j + 1;
      assert bytes[..written] == bytes[..written - 1] + [byte];
    }
    assert GroupBytes(b3, jmax)[..j] == GroupBytes(b3, jmax);
  }

  /** One pass of octal_decode's outer loop over the digits from i = 8g; t is the octal prefix, f its length. */
  method DecodeOneGroup(bytes: array<byte>, octal: seq<char>, octalLen0: nat, i: nat,
                        ghost g: nat, ghost f: nat, ghost t: seq<char>, start: nat, ghost orig: seq<byte>)
    returns (written: nat, octalLen: nat)
    requires f == FirstNonOctal(octal) && t == octal[..f] && f <= octalLen0 <= |octal|
    requires i == 8 * g && i < octalLen0 && i <= f
    requires start == |DecodedGroups(t, g)| && |DecodedGroups(t, g + 1)| <= bytes.Length
    requires HoldsPrefix(bytes, DecodedGroups(t, g)) && UnchangedFrom(bytes, orig, start)
    modifies bytes
    ensures f <= octalLen <= octalLen0
    ensures i + 8 > f ==> octalLen == f
    ensures written == |DecodedGroups(t, g + 1)|
    ensures HoldsPrefix(bytes, DecodedGroups(t, g + 1)) && UnchangedFrom(bytes, orig, written)
  {
    var b3, used;
    b3, used, octalLen := UnpackGroup(octal, octalLen0, i, f);
    var jmax := BytesForDigits(used);
    if i < f {
      assert GroupBytes(b3, jmax) == DecodeGroup(t, g);
      assert DecodedGroups(t, g + 1) == DecodedGroups(t, g) + DecodeGroup(t, g);
    } else {
      assert jmax == 0;
      assert DecodedGroups(t, g + 1) == DecodedGroups(t, g);
    }
    assert bytes[..start] == DecodedGroups(t, g);
    written := WriteGroupBytes(bytes, start, b3, jmax);
  }

  /** The outer loop of octal_decode, once the room check has passed. */
  method DecodeAllGroups(bytes: array<byte>, octal: seq<char>, octalLen0: nat, ghost f: nat, ghost t: seq<char>)
    returns (written: nat)
    requires f == FirstNonOctal(octal) && t == octal[..f] && f <= octalLen0 <= |octal|
    requires |Decoded(t)| <= bytes.Length
    modifies bytes
    ensures written == |Decoded(t)|
    ensures bytes[..written] == Decoded(t)
    ensures forall k :: written <= k < bytes.Length ==> bytes[k] == old(bytes[k])
  {
    ghost var orig := bytes[..];
    written := 0;
    var octalLen := octalLen0;
    var i := 0;
    ghost var g := 0;
    while i < octalLen
      invariant i == 8 * g
      invariant f <= octalLen <= octalLen0
      invariant i <= f || (octalLen == f && i <= f + 8)
      invariant written == |DecodedGroups(t, g)| <= |Decoded(t)|
      invariant HoldsPrefix(bytes, DecodedGroups(t, g)) && UnchangedFrom(bytes, orig, written)
    {
      GroupsWithinDecoded(t, g + 1);
      written, octalLen := DecodeOneGroup(bytes, octal, octalLen, i, g, f, t, written, orig);
      i := i + 8;
      g := g + 1;
    }
    GroupsWithinDecoded(t, g);
    assert bytes[..written] == Decoded(t);
  }

  /**
   * octal_decode. The input is the octal_len chars at octal; ok models the
   * non-NULL return and written is *written. Decoding stops at the first
   * non-octal char, so only the octal prefix decides both the room check and the bytes.
   */
  method Decode(bytes: array<byte>, octal: seq<char>) returns (ok: bool, written: nat)
    requires bytes.Length > 0
    modifies bytes
    ensures ok <==> bytes.Length >= DecodeSizeNeeded(FirstNonOctal(octal), false)
    ensures written <= bytes.Length
    ensures !ok ==> written == 0
    ensures ok ==> bytes[..written] == Decoded(octal[..FirstNonOctal(octal)])
    ensures forall k :: written <= k < bytes.Length ==> bytes[k] == old(bytes[k])
  {
    written := 0;
    ghost var f := FirstNonOctal(octal);
    ghost var t := octal[..f];
    DecodeSizeMonotone(f, |octal|);
    var octalLen := |octal|;
    var needed := DecodeSizeNeeded(octalLen, false);
    if bytes.Length < needed {
      octalLen := FindFirstNonOctal(octal);
      needed := DecodeSizeNeeded(octalLen, false);
      if bytes.Length < needed {
        return false, 0;
      }
    }
    DecodedGroupsLength(t, DigitGroups(f));
    written := DecodeAllGroups(bytes, octal, octalLen, f, t);
    ok := true;
  }
}
