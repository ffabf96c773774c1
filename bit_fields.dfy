/**
 * c/bit-fields.c: utob renders an unsigned long as a string of '0' and '1'
 * characters, and revstr reverses a string in place. unsigned long is 64
 * bits wide in this model. exit(EXIT_FAILURE) ends the method with
 * `exited` set.
 */
module BitFields {
  import Itoan

  type u64 = bv64

  /** BITS_UNSIGNED_LONG. */
  const BitsUnsignedLong := 64

  /** The character utob writes for bit `shift` of val. */
  function BitChar(val: u64, shift: nat): (c: char)
    requires shift < 64
    ensures c == '0' || c == '1'
  {
    if (val >> shift) & 1 == 1 then '1' else '0'
  }

  /** The `bits` low bits of val, most significant first. */
  function BitString(val: u64, bits: nat): (s: seq<char>)
    requires bits <= 64
    ensures |s| == bits
    ensures forall k :: 0 <= k < bits ==> s[k] == BitChar(val, bits - 1 - k)
  {
    seq(bits, k requires 0 <= k < bits => BitChar(val, bits - 1 - k))
  }

  /** The width utob uses: BITS_UNSIGNED_LONG for bits < 1. */
  function Width(bits: int): (w: nat)
    ensures bits < 1 ==> w == BitsUnsignedLong
    ensures bits >= 1 ==> w == bits
  {
    if bits < 1 then BitsUnsignedLong else bits
  }

  /**
   * revstr: reverse the first strnlen(str, buf_size) characters. The
   * string must not be empty: j starts at len - 1, which wraps for len 0.
   */
  method Revstr(str: array<char>, bufSize: nat)
    requires bufSize <= str.Length
    requires Itoan.Strnlen(str[..], bufSize) >= 1
    modifies str
    ensures var len := Itoan.Strnlen(old(str[..]), bufSize);
      str[..len] == Itoan.Reversed(old(str[..len]))
      && forall k :: len <= k < str.Length ==> str[k] == old(str[k])
  {
    ghost var len := Itoan.Strnlen(str[..], bufSize);
    ghost var orig := str[..len];
    var i := 0;
    var j := Itoan.Strnlen(str[..], bufSize) - 1;
    while i < j
      invariant 0 <= i <= len && j == len - 1 - i
      invariant forall k :: 0 <= k < i ==> str[k] == orig[len - 1 - k]
      invariant forall k :: i <= k < len - i ==> str[k] == orig[k]
      invariant forall k :: len - i <= k < len ==> str[k] == orig[len - 1 - k]
      invariant forall k :: len <= k < str.Length ==> str[k] == old(str[k])
    {
      var swap := str[i];
      str[i] := str[j];
      str[j] := swap;
      i := i + 1;
      j := j - 1;
    }
  }

  /**
   * utob as written. It exits when the string would run past len, but a
   * width equal to len passes that check and the NUL then lands at
   * buf[len]; the array has one cell more than len so that this write
   * stays inside it.
   */
  method UtobAsWritten(buf: array<char>, len: nat, val: u64, bits: int)
    returns (exited: bool, nulAt: nat)
    requires Width(bits) <= 64 && len < buf.Length
    modifies buf
    ensures exited <==> Width(bits) > len
    ensures !exited ==> nulAt == Width(bits) && buf[..nulAt] == BitString(val, Width(bits)) && buf[nulAt] == '\0'
  {
    var b := Width(bits);
    var strPos := 0;
    var i := b;
    while i > 0
      invariant 0 <= i <= b && strPos == b - i && strPos <= len
      invariant forall k :: 0 <= k < strPos ==> buf[k] == BitChar(val, b - 1 - k)
    {
      if strPos >= len {
        return true, 0;
      }
      var shift := i - 1;
      buf[strPos] := BitChar(val, shift);
      strPos := strPos + 1;
      i := i - 1;
    }
    buf[strPos] := '\0';
    return false, strPos;
  }

  /**
   * With a 32-character buffer and 32 bits, utob as written does not exit
   * and writes its NUL at index 32, past the end of those 32 characters.
   */
  method UtobFullWidthOverrun() returns (exited: bool, nulAt: nat, len: nat)
    ensures !exited && nulAt == len
  {
    len := 32;
    var buf := new char[len + 1];
    exited, nulAt := UtobAsWritten(buf, len, 5, 32);
  }

  /**
   * utob with the NUL inside the buffer: exits unless the width is below
   * len. Writes the bit string, then NUL, and with lil_endian reverses it
   * through revstr, leaving the least significant bit first.
   */
  method Utob(buf: array<char>, len: nat, val: u64, bits: int, lilEndian: bool)
    returns (exited: bool)
    requires Width(bits) <= 64 && len <= buf.Length
    modifies buf
    ensures exited <==> Width(bits) >= len
    ensures !exited && !lilEndian ==> buf[..Width(bits)] == BitString(val, Width(bits))
    ensures !exited && lilEndian ==> buf[..Width(bits)] == Itoan.Reversed(BitString(val, Width(bits)))
    ensures !exited ==> buf[Width(bits)] == '\0'
  {
    var b := Width(bits);
    var strPos := 0;
    var i := b;
    while i > 0
      invariant 0 <= i <= b && strPos == b - i && strPos <= len
      invariant forall k :: 0 <= k < strPos ==> buf[k] == BitChar(val, b - 1 - k)
    {
      if strPos >= len {
        return true;
      }
      var shift := i - 1;
      buf[strPos] := BitChar(val, shift);
      strPos := strPos + 1;
      i := i - 1;
    }
    if strPos >= len {
      return true;
    }
    buf[strPos] := '\0';
    assert buf[..b] == BitString(val, b);
    if lilEndian {
      assert Itoan.Strnlen(buf[..], len) == b by {
        StrnlenAtNul(buf[..], len, b);
      }
      Revstr(buf, len);
    }
    return false;
  }

  /** A string of n non-NUL characters followed by NUL has length n. */
  lemma StrnlenAtNul(s: seq<char>, max: nat, n: nat)
    requires n < max && n < |s| && s[n] == '\0'
    requires forall k :: 0 <= k < n ==> s[k] != '\0'
    ensures Itoan.Strnlen(s, max) == n
  {

  }

  /** With lil_endian, character k is bit k of val. */
  lemma LittleEndianChars(val: u64, bits: nat, k: nat)
    requires 1 <= bits <= 64 && k < bits
    ensures Itoan.Reversed(BitString(val, bits))[k] == BitChar(val, k)
  {
  }
}
