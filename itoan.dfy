/**
 * c/itoan.c: itoan(n, buf, buflen, base) writes n in any base from 1 to
 * 36 into buf. Base 10 goes through snprintf's signed "%d"; every other
 * base reads n as a 32-bit unsigned value, emits digits least
 * significant first with a do-while, then reverses them in place.
 */
module Itoan {
  import Decimal

  const Int32Min: int := -0x8000_0000
  const Int32Max: int := 0x7FFF_FFFF
  const Uint32Modulus: nat := 0x1_0000_0000

  /** `l = n` with l unsigned: a negative int wraps around to 2^32 + n. */
  function AsUnsigned(n: int): (l: nat)
    requires Int32Min <= n <= Int32Max
    ensures l < Uint32Modulus
    ensures (l - n) % Uint32Modulus == 0
    ensures n >= 0 ==> l == n
  {
    if n < 0 then n + Uint32Modulus else n
  }

  /** The digit characters: '0'..'9', then 'A'..'Z'. */
  predicate IsDigitChar(c: char)
  {
    '0' <= c <= '9' || 'A' <= c <= 'Z'
  }

  /** The value of a digit character. */
  function DigitValue(c: char): (d: nat)
    requires IsDigitChar(c)
    ensures d < 36
  {
    if c <= '9' then c as int - '0' as int else c as int - 'A' as int + 10
  }

  /** The character for digit d, as the branch on `c < 10` writes it. */
  function DigitChar(d: nat): (c: char)
    requires d < 36
    ensures IsDigitChar(c) && DigitValue(c) == d
    ensures c != '\0'
  {
    if d < 10 then ('0' as int + d) as char else ('A' as int + (d - 10)) as char
  }

  /** Base 1 can only spell 0: a nonzero value never shrinks when divided by 1. */
  predicate Representable(l: nat, base: nat)
  {
    base >= 2 || (base == 1 && l == 0)
  }

  /** a * b >= b for a >= 1. */
  lemma {:induction false} MulAtLeast(a: nat, b: nat)
    requires a >= 1
    ensures a * b >= b
  {
    if a > 1 {
      MulAtLeast(a - 1, b);
      assert a * b == (a - 1) * b + b;
    }
  }

  /** Euclidean division of l by base, and the fact that it makes progress for base >= 2. */
  lemma DivMod(l: nat, base: nat)
    requires base >= 1
    ensures l == base * (l / base) + l % base && l % base < base
    ensures l / base <= l
    ensures base >= 2 && l > 0 ==> l / base < l
    ensures l < base <==> l / base == 0
  {
    var q := l / base;
    var r := l % base;
    assert l == base * q + r && 0 <= r < base;
    MulAtLeast(base, q);
    if q > 0 {
      MulAtLeast(q, base);
      assert q * base == base * q;
    }
    if base >= 2 && q > 0 {
      MulAtLeast(base - 1, q);
      assert base * q == (base - 1) * q + q;
    }
  }

  /** The digits of l, least significant first, as the do-while emits them. */
  function LittleEndianDigits(l: nat, base: nat): (s: seq<char>)
    requires 1 <= base <= 36 && Representable(l, base)
    ensures |s| >= 1
    decreases l
  {
    [DigitChar(l % base)] + if l / base == 0 then [] else LittleEndianDigits(l / base, base)
  }

  function Reversed(s: seq<char>): (r: seq<char>)
    ensures |r| == |s|
  {
    seq(|s|, k requires 0 <= k < |s| => s[|s| - 1 - k])
  }

  /** The digits of l in base, most significant first: the string itoan produces. */
  function Digits(l: nat, base: nat): seq<char>
    requires 1 <= base <= 36 && Representable(l, base)
  {
    Reversed(LittleEndianDigits(l, base))
  }

  /** Reading a digit string back, most significant digit first. */
  function ReadDigits(s: seq<char>, base: nat): nat
    requires forall k :: 0 <= k < |s| ==> IsDigitChar(s[k])
  {
    if s == [] then 0 else ReadDigits(s[..|s| - 1], base) * base + DigitValue(s[|s| - 1])
  }

  /** The value of a little-endian digit string. */
  function LittleEndianValue(s: seq<char>, base: nat): nat
    requires forall k :: 0 <= k < |s| ==> IsDigitChar(s[k])
  {
    if s == [] then 0 else DigitValue(s[0]) + base * LittleEndianValue(s[1..], base)
  }

  lemma {:induction false} LittleEndianDigitsAreDigits(l: nat, base: nat)
    requires 1 <= base <= 36 && Representable(l, base)
    ensures forall k :: 0 <= k < |LittleEndianDigits(l, base)| ==>
      IsDigitChar(LittleEndianDigits(l, base)[k]) && DigitValue(LittleEndianDigits(l, base)[k]) < base
    decreases l
  {
    DivMod(l, base);
    if l / base != 0 {
      LittleEndianDigitsAreDigits(l / base, base);
    }
  }

  lemma {:induction false} LittleEndianRoundTrip(l: nat, base: nat)
    requires 1 <= base <= 36 && Representable(l, base)
    ensures forall k :: 0 <= k < |LittleEndianDigits(l, base)| ==> IsDigitChar(LittleEndianDigits(l, base)[k])
    ensures LittleEndianValue(LittleEndianDigits(l, base), base) == l
    decreases l
  {
    LittleEndianDigitsAreDigits(l, base);
    DivMod(l, base);
    var s := LittleEndianDigits(l, base);
    if l / base != 0 {
      LittleEndianRoundTrip(l / base, base);
      assert s[1..] == LittleEndianDigits(l / base, base);
    } else {
      assert s[1..] == [];
    }
  }

  lemma {:induction false} ReadReversed(t: seq<char>, base: nat)
    requires forall k :: 0 <= k < |t| ==> IsDigitChar(t[k])
    ensures forall k :: 0 <= k < |t| ==> IsDigitChar(Reversed(t)[k])
    ensures ReadDigits(Reversed(t), base) == LittleEndianValue(t, base)
    decreases |t|
  {
    if t != [] {
      var r, tail := Reversed(t), t[1..];
      forall k | 0 <= k < |r|
        ensures IsDigitChar(r[k])
      {
        assert r[k] == t[|t| - 1 - k];
      }
      assert r[..|r| - 1] == Reversed(tail);
      ReadReversed(tail, base);
      var x := ReadDigits(Reversed(tail), base);
      assert ReadDigits(r, base) == x * base + DigitValue(t[0]);
      assert LittleEndianValue(t, base) == DigitValue(t[0]) + base * x;
    }
  }

  /** Read back in base, the digits equal the value. */
  lemma DigitsReadBack(l: nat, base: nat)
    requires 1 <= base <= 36 && Representable(l, base)
    ensures forall k :: 0 <= k < |Digits(l, base)| ==> IsDigitChar(Digits(l, base)[k])
    ensures ReadDigits(Digits(l, base), base) == l
  {
    LittleEndianRoundTrip(l, base);
    ReadReversed(LittleEndianDigits(l, base), base);
  }

  /** The last little-endian digit, the first one printed, is '0' only for the value 0. */
  lemma {:induction false} LastLittleEndianDigit(l: nat, base: nat)
    requires 1 <= base <= 36 && Representable(l, base)
    ensures var s := LittleEndianDigits(l, base); s[|s| - 1] == '0' <==> l == 0
    ensures l == 0 ==> LittleEndianDigits(l, base) == ['0']
    decreases l
  {
    DivMod(l, base);
    if l / base != 0 {
      LastLittleEndianDigit(l / base, base);
    } else {
      assert l % base == l;
    }
  }

  /** No leading zeros: the first digit is '0' only when the value is 0, and then it is the only digit. */
  lemma NoLeadingZeros(l: nat, base: nat)
    requires 1 <= base <= 36 && Representable(l, base)
    ensures Digits(l, base)[0] == '0' <==> l == 0
    ensures l == 0 ==> Digits(l, base) == "0"
  {
    LastLittleEndianDigit(l, base);
  }

  /** The value of l after k rounds of `l = l / base`. */
  function Quotient(l: nat, base: nat, k: nat): nat
    requires base >= 1
  {
    if k == 0 then l else Quotient(l, base, k - 1) / base
  }

  lemma {:induction false} QuotientShift(l: nat, base: nat, k: nat)
    requires base >= 1
    ensures Quotient(l, base, k + 1) == Quotient(l / base, base, k)
  {
    if k > 0 {
      QuotientShift(l, base, k - 1);
    }
  }

  /** Digit k of the little-endian string is the remainder after k divisions. */
  lemma {:induction false} LittleEndianDigitAt(l: nat, base: nat, k: nat)
    requires 1 <= base <= 36 && Representable(l, base)
    requires k < |LittleEndianDigits(l, base)|
    ensures LittleEndianDigits(l, base)[k] == DigitChar(Quotient(l, base, k) % base)
    decreases l
  {
    if k > 0 {
      DivMod(l, base);
      var q := l / base;
      var s := LittleEndianDigits(l, base);
      assert q != 0;
      assert s == [DigitChar(l % base)] + LittleEndianDigits(q, base);
      assert s[k] == LittleEndianDigits(q, base)[k - 1];
      LittleEndianDigitAt(q, base, k - 1);
      QuotientShift(l, base, k - 1);
    }
  }

  /** The digit count is the first round after which the quotient is 0. */
  lemma {:induction false} LittleEndianLength(l: nat, base: nat)
    requires 1 <= base <= 36 && Representable(l, base)
    ensures Quotient(l, base, |LittleEndianDigits(l, base)|) == 0
    ensures forall k :: 1 <= k < |LittleEndianDigits(l, base)| ==> Quotient(l, base, k) != 0
    decreases l
  {
    DivMod(l, base);
    var n := |LittleEndianDigits(l, base)|;
    if l / base != 0 {
      LittleEndianLength(l / base, base);
      QuotientShift(l, base, n - 1);
      forall k | 1 <= k < n
        ensures Quotient(l, base, k) != 0
      {
        QuotientShift(l, base, k - 1);
      }
    }
  }

  /** With base 1 a nonzero value stays the same forever. */
  lemma {:induction false} BaseOneQuotient(l: nat, k: nat)
    ensures Quotient(l, 1, k) == l
  {
    if k > 0 {
      BaseOneQuotient(l, k - 1);
    }
  }

  /** Base 1 with a nonzero value never shrinks l, so itoan always ends in the buffer-too-short NULL. */
  lemma BaseOneNonzeroNeverFits(n: int, maxlen: nat)
    requires Int32Min <= n <= Int32Max && n != 0
    ensures !FitsIn(AsUnsigned(n), 1, maxlen)
  {
  }

  /** snprintf's "%d": an optional minus sign, then the decimal digits of |n|. */
  function SignedDecimal(n: int): seq<char>
  {
    Decimal.Format(n)
  }

  /** strnlen: the index of the first NUL in s, looking at no more than max chars. */
  function Strnlen(s: seq<char>, max: nat): (len: nat)
    ensures len <= max && len <= |s|
    ensures forall k :: 0 <= k < len ==> s[k] != '\0'
    ensures len < max && len < |s| ==> s[len] == '\0'
  {
    if max == 0 || s == [] || s[0] == '\0' then 0 else 1 + Strnlen(s[1..], max - 1)
  }

  /** True when the little-endian digits fit in maxlen characters. */
  predicate FitsIn(l: nat, base: nat, maxlen: nat)
    requires 1 <= base <= 36
  {
    Representable(l, base) && |LittleEndianDigits(l, base)| <= maxlen
  }

  /** The first i digits the do-while writes: the remainders of the first i quotients. */
  function Emitted(l: nat, base: nat, i: nat): (s: seq<char>)
    requires 1 <= base <= 36
    ensures |s| == i
  {
    if i == 0 then [] else Emitted(l, base, i - 1) + [DigitChar(Quotient(l, base, i - 1) % base)]
  }

  /** None of the quotients after rounds 1 .. i is 0, so the do-while has not stopped yet. */
  predicate NonzeroRounds(l: nat, base: nat, i: nat)
    requires base >= 1
  {
    i == 0 || (Quotient(l, base, i) != 0 && NonzeroRounds(l, base, i - 1))
  }

  lemma {:induction false} NonzeroRoundsAt(l: nat, base: nat, i: nat, k: nat)
    requires base >= 1 && NonzeroRounds(l, base, i) && 1 <= k <= i
    ensures Quotient(l, base, k) != 0
  {
    if k < i {
      NonzeroRoundsAt(l, base, i - 1, k);
    }
  }

  /** Emitted is a prefix of the little-endian digits for as long as there are digits. */
  lemma {:induction false} EmittedDigits(l: nat, base: nat, i: nat)
    requires 1 <= base <= 36 && Representable(l, base) && i <= |LittleEndianDigits(l, base)|
    ensures Emitted(l, base, i) == LittleEndianDigits(l, base)[..i]
  {
    if i > 0 {
      EmittedDigits(l, base, i - 1);
      LittleEndianDigitAt(l, base, i - 1);
      assert LittleEndianDigits(l, base)[..i] == LittleEndianDigits(l, base)[..i - 1] + [LittleEndianDigits(l, base)[i - 1]];
    }
  }

  /** The round after which the quotient first reaches 0 is the digit count (and base 1 only gets there from 0). */
  lemma FirstZeroQuotient(l: nat, base: nat, i: nat)
    requires 1 <= base <= 36 && i >= 1
    requires Quotient(l, base, i) == 0
    requires NonzeroRounds(l, base, i - 1)
    ensures Representable(l, base) && |LittleEndianDigits(l, base)| == i
    ensures Emitted(l, base, i) == LittleEndianDigits(l, base)
  {
    if base == 1 {
      BaseOneQuotient(l, i);
    }
    LittleEndianLength(l, base);
    var n := |LittleEndianDigits(l, base)|;
    if n < i {
      NonzeroRoundsAt(l, base, i - 1, n);
      assert false;
    }
    EmittedDigits(l, base, i);
  }

  /** If the quotient is still nonzero after every one of maxlen rounds, the digits do not fit. */
  lemma NoZeroQuotient(l: nat, base: nat, maxlen: nat)
    requires 1 <= base <= 36
    requires NonzeroRounds(l, base, maxlen)
    ensures !FitsIn(l, base, maxlen)
  {
    if Representable(l, base) {
      LittleEndianLength(l, base);
      var n := |LittleEndianDigits(l, base)|;
      if n <= maxlen {
        NonzeroRoundsAt(l, base, maxlen, n);
        assert false;
      }
    }
  }

  /**
   * The do-while of itoan: emit the digits of l0 least significant first,
   * giving up (with buf[0] = NUL) when maxlen digits were not enough.
   */
  method EmitDigits(buf: array<char>, maxlen: nat, l0: nat, base: nat) returns (ok: bool, count: nat)
    requires 1 <= base <= 36 && maxlen < buf.Length
    modifies buf
    ensures ok <==> FitsIn(l0, base, maxlen)
    ensures ok ==> (count == |LittleEndianDigits(l0, base)| && buf[..count] == LittleEndianDigits(l0, base)
      && buf[count..] == old(buf[count..]))
    ensures !ok ==> (buf[0] == '\0' && (maxlen >= 1 ==> buf[1..maxlen] == Emitted(l0, base, maxlen)[1..]) &&
      (maxlen >= 1 ==> buf[maxlen..] == old(buf[maxlen..])) && buf[maxlen + 1..] == old(buf[maxlen + 1..]))
  {
    var l := l0;
    var i := 0;
    while true
      invariant i <= maxlen
      invariant l == Quotient(l0, base, i)
      invariant buf[..i] == Emitted(l0, base, i)
      invariant NonzeroRounds(l0, base, i)
      invariant forall k :: i <= k < buf.Length ==> buf[k] == old(buf[k])
      decreases maxlen - i
    {
      if i >= maxlen {
        buf[0] := '\0';
        NoZeroQuotient(l0, base, maxlen);
        return false, 0;
      }
      buf[i] := DigitChar(l % base);
      assert buf[..i + 1] == buf[..i] + [buf[i]];
      i := i + 1;
      l := l / base;
      if l == 0 {
        break;
      }
    }
    FirstZeroQuotient(l0, base, i);
    return true, i;
  }

  /**
   * itoan. buf may be null (the C NULL); ok == false stands for the NULL
   * result and ok == true for the returned buf.
   */
  method Itoan(n: int, buf: array?<char>, buflen: nat, base: nat) returns (ok: bool)
    requires Int32Min <= n <= Int32Max
    requires buf != null ==> buflen <= buf.Length
    modifies buf
    ensures buf == null || buflen == 0 || base == 0 || base > 36 ==> !ok && (buf != null ==> unchanged(buf))
    ensures buf != null && buflen != 0 && base == 10 ==>
      var s := SignedDecimal(n);
      var m := if |s| < buflen - 1 then |s| else buflen - 1;
      ok && buf[..m] == s[..m] && buf[m] == '\0' && buf[m + 1..] == old(buf[m + 1..])
    ensures buf != null && buflen != 0 && 1 <= base <= 36 && base != 10 ==>
      var l := AsUnsigned(n);
      (ok <==> FitsIn(l, base, buflen - 1)) &&
      (ok ==> var d := Digits(l, base);
                buf[..|d|] == d && buf[|d|] == '\0' && buf[|d| + 1..] == old(buf[|d| + 1..])) &&
      (!ok ==> buf[0] == '\0' &&
                (buflen >= 2 ==> buf[1..buflen - 1] == Emitted(l, base, buflen - 1)[1..]) &&
                (buflen >= 2 ==> buf[buflen - 1..] == old(buf[buflen - 1..])) && buf[buflen..] == old(buf[buflen..]))
  {
    if buf == null || buflen == 0 || base == 0 || base > 36 {
      return false;
    }
    var maxlen := buflen - 1;
    if base == 10 {
      SnprintfDecimal(n, buf, buflen);
      return true;
    }
    ok := DigitsInBase(AsUnsigned(n), buf, buflen, base);
  }

  /**
   * The non-decimal path of itoan: the do-while into buf[0..buflen-1),
   * then the NUL and the in-place reversal.
   */
  method DigitsInBase(l: nat, buf: array<char>, buflen: nat, base: nat) returns (ok: bool)
    requires 1 <= base <= 36 && 1 <= buflen <= buf.Length
    modifies buf
    ensures ok <==> FitsIn(l, base, buflen - 1)
    ensures ok ==> var d := Digits(l, base);
      buf[..|d|] == d && buf[|d|] == '\0' && buf[|d| + 1..] == old(buf[|d| + 1..])
    ensures !ok ==> (buf[0] == '\0' &&
      (buflen >= 2 ==> buf[1..buflen - 1] == Emitted(l, base, buflen - 1)[1..]) &&
      (buflen >= 2 ==> buf[buflen - 1..] == old(buf[buflen - 1..])) && buf[buflen..] == old(buf[buflen..]))
  {
    var count;
    ok, count := EmitDigits(buf, buflen - 1, l, base);
    if !ok {
      return;
    }
    LittleEndianDigitsAreDigits(l, base);
    buf[count] := '\0';
    ReverseInPlace(buf, buflen, count);
    assert buf[..count] == Digits(l, base);
  }

  /** snprintf(buf, buflen, "%d", n): as much of the signed decimal string as fits, then NUL. */
  method SnprintfDecimal(n: int, buf: array<char>, buflen: nat)
    requires 1 <= buflen <= buf.Length
    modifies buf
    ensures var s := SignedDecimal(n);
      var m := if |s| < buflen - 1 then |s| else buflen - 1;
      buf[..m] == s[..m] && buf[m] == '\0' && buf[m + 1..] == old(buf[m + 1..])
  {
    var s := SignedDecimal(n);
    var m := if |s| < buflen - 1 then |s| else buflen - 1;
    var k := 0;
    while k < m
      invariant k <= m
      invariant buf[..k] == s[..k]
      invariant buf[k..] == old(buf[k..])
    {
      buf[k] := s[k];
      k := k + 1;
    }
    buf[m] := '\0';
  }

  /** The final loop of itoan: strnlen finds the NUL at len, then buf[0..len) is reversed by swapping from both ends. */
  method ReverseInPlace(buf: array<char>, buflen: nat, len: nat)
    requires 1 <= len < buflen <= buf.Length
    requires forall k :: 0 <= k < len ==> buf[k] != '\0'
    requires buf[len] == '\0'
    modifies buf
    ensures buf[..len] == Reversed(old(buf[..len]))
    ensures buf[len..] == old(buf[len..])
  {
    ghost var orig := buf[..len];
    var i := 0;
    var j := Strnlen(buf[..], buflen) - 1;
    assert j == len - 1;
    while i < j
      invariant 0 <= i <= len && j == len - 1 - i
      invariant forall k :: 0 <= k < i ==> buf[k] == orig[len - 1 - k]
      invariant forall k :: i <= k < len - i ==> buf[k] == orig[k]
      invariant forall k :: len - i <= k < len ==> buf[k] == orig[len - 1 - k]
      invariant buf[len..] == old(buf[len..])
    {
      var c := buf[i];
      buf[i] := buf[j];
      buf[j] := c;
      i := i + 1;
      j := j - 1;
    }
  }
}
