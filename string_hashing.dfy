/**
 * c/string-hashing.c: five classic multiplicative string hashes (kr2,
 * kr1, djb2, djb2xor, sdbm), leveldb's hash with its little-endian word
 * decoder, and the modulo path of _bucket_for.
 *
 * An `unsigned int` is an integer in 0 .. 2^32 - 1 and every C operator
 * on it is written out with its wrap-around (Add32, Mul32, Shl32, ...).
 * Characters are the bytes of the string. The simple hashes cast a plain
 * `char` to `unsigned int`; `char` is signed on the platforms the
 * program is built for, so a byte of 0x80 or more is sign-extended
 * (CharValue). leveldb casts through `unsigned char` and never
 * sign-extends.
 */
module StringHashing {
  import opened MathDefs

  const Modulus: int := 0x1_0000_0000

  type u32 = x: int | 0 <= x < 0x1_0000_0000
  type byte = x: int | 0 <= x < 256

  function Add32(a: u32, b: u32): u32 { (a + b) % Modulus }
  function Sub32(a: u32, b: u32): u32 { (a - b) % Modulus }
  function Mul32(a: u32, b: u32): u32 { (a * b) % Modulus }

  /** `a << k` on an unsigned int. */
  function Shl32(a: u32, k: nat): u32
    requires k < 32
  {
    (a * Pow2(k)) % Modulus
  }

  /** `a >> k` on an unsigned int. */
  function Shr32(a: u32, k: nat): u32
    requires k < 32
  {
    DivAtMost(a, Pow2(k));
    a / Pow2(k)
  }

  /** `a ^ b` on an unsigned int. */
  function Xor32(a: u32, b: u32): u32
  {
    Pow2Values();
    XorBits(a, b, 32)
  }

  /** Adding after a wrap is the same as wrapping once at the end. */
  lemma ModAddLeft(x: int, y: int)
    ensures ((x % Modulus) + y) % Modulus == (x + y) % Modulus
  {
    var q := x / Modulus;
    assert x == q * Modulus + x % Modulus;
    assert x + y == (x % Modulus + y) + q * Modulus;
  }

  /** `(unsigned int)str[i]` for a signed char: sign extension of the byte. */
  function CharValue(b: byte): u32
  {
    if b < 0x80 then b else b + 0xFFFF_FF00
  }

  /** The low byte of a character's value is the byte itself; bytes below 0x80 are unchanged. */
  lemma CharValueLowByte(b: byte)
    ensures CharValue(b) % 256 == b
    ensures b < 0x80 ==> CharValue(b) == b
    ensures 0x80 <= b ==> CharValue(b) / 256 == 0xFF_FFFF
  {
  }

  /** The five hashes that fold one character at a time into a 32-bit accumulator. */
  datatype Scheme = Kr2 | Kr1 | Djb2 | Djb2Xor | Sdbm

  /** The starting value: DJB2_HASH_SEED (5381) for both djb2 variants, 0 for the rest. */
  function Seed(scheme: Scheme): u32
  {
    match scheme
    case Djb2 | Djb2Xor => 5381
    case Kr2 | Kr1 | Sdbm => 0
  }

  /** One character's step, in multiplicative form, modulo 2^32. */
  function Step(scheme: Scheme, h: u32, c: u32): u32
  {
    match scheme
    case Kr2 => (h * 31 + c) % Modulus
    case Kr1 => (h + c) % Modulus
    case Djb2 => (h * 33 + c) % Modulus
    case Djb2Xor => Xor32((h * 33) % Modulus, c)
    case Sdbm => (h * 65599 + c) % Modulus
  }

  /** The hash of s when the accumulator already holds h. */
  function Fold(scheme: Scheme, h: u32, s: seq<byte>): u32
    decreases |s|
  {
    if |s| == 0 then h else Fold(scheme, Step(scheme, h, CharValue(s[0])), s[1..])
  }

  /**
   * From the same accumulator, different characters give different
   * results: every step adds or xors the character into a value that
   * does not depend on it, so the character can be recovered.
   */
  lemma StepInjective(scheme: Scheme, h: u32, c: u32, c2: u32)
    requires Step(scheme, h, c) == Step(scheme, h, c2)
    ensures c == c2
  {
    match scheme
    case Djb2Xor => XorInjective((h * 33) % Modulus, c, c2);
    case Kr2 => AddInjective(h * 31, c, c2);
    case Kr1 => AddInjective(h, c, c2);
    case Djb2 => AddInjective(h * 33, c, c2);
    case Sdbm => AddInjective(h * 65599, c, c2);
  }

  /** Adding a character modulo 2^32 can be undone. */
  lemma AddInjective(x: nat, c: u32, c2: u32)
    requires (x + c) % Modulus == (x + c2) % Modulus
    ensures c == c2
  {
    ModAddLeft(x, c);
    ModAddLeft(x, c2);
  }

  /** Xor-ing a character into a 32-bit value can be undone. */
  lemma XorInjective(k: u32, c: u32, c2: u32)
    requires Xor32(k, c) == Xor32(k, c2)
    ensures c == c2
  {
    Pow2Values();
    XorBitsSymmetric(k, c, 32);
    XorBitsSymmetric(k, c2, 32);
    XorBitsCancel(c, k, 32);
    XorBitsCancel(c2, k, 32);
  }

  /** The hash of a whole string. */
  function Hash(scheme: Scheme, s: seq<byte>): u32
  {
    Fold(scheme, Seed(scheme), s)
  }

  /** Hashing can be resumed: the hash of s + t continues from the hash of s. */
  lemma {:induction false} FoldAppend(scheme: Scheme, h: u32, s: seq<byte>, t: seq<byte>)
    ensures Fold(scheme, h, s + t) == Fold(scheme, Fold(scheme, h, s), t)
    decreases |s|
  {
    if |s| == 0 {
      assert s + t == t;
    } else {
      assert (s + t)[1..] == s[1..] + t;
      FoldAppend(scheme, Step(scheme, h, CharValue(s[0])), s[1..], t);
    }
  }

  /** The empty string hashes to the seed, and one more character is one more step. */
  lemma HashSnoc(scheme: Scheme, s: seq<byte>, b: byte)
    ensures Hash(scheme, []) == Seed(scheme)
    ensures Hash(scheme, s + [b]) == Step(scheme, Hash(scheme, s), CharValue(b))
  {
    FoldAppend(scheme, Seed(scheme), s, [b]);
  }

  /** kr2's `hash *= 31; hash += c` is hash * 31 + c modulo 2^32. */
  lemma Kr2StepForm(h: u32, c: u32)
    ensures Add32(Mul32(h, 31), c) == Step(Kr2, h, c)
  {
    ModAddLeft(h * 31, c);
  }

  /** djb2's `((hash << 5) + hash) + c` is hash * 33 + c modulo 2^32. */
  lemma Djb2StepForm(h: u32, c: u32)
    ensures Add32(Add32(Shl32(h, 5), h), c) == Step(Djb2, h, c)
  {
    assert Pow2(5) == 32 by { Pow2Values(); }
    ModAddLeft(h * 32, h);
    ModAddLeft(h * 33, c);
  }

  /** djb2xor's `(hash * 33) ^ c`. */
  lemma Djb2XorStepForm(h: u32, c: u32)
    ensures Xor32(Mul32(h, 33), c) == Step(Djb2Xor, h, c)
  {
  }

  /** sdbm's `c + (hash << 6) + (hash << 16) - hash` is hash * 65599 + c modulo 2^32. */
  lemma SdbmStepForm(h: u32, c: u32)
    ensures Sub32(Add32(Add32(c, Shl32(h, 6)), Shl32(h, 16)), h) == Step(Sdbm, h, c)
  {
    assert Pow2(6) == 64 && Pow2(16) == 65536 by { Pow2Values(); }
    var a1 := Add32(c, Shl32(h, 6));
    ModAddLeft(h * 64, c);
    assert a1 == (c + h * 64) % Modulus;
    var a2 := Add32(a1, Shl32(h, 16));
    ModAddLeft(c + h * 64, (h * 65536) % Modulus);
    ModAddLeft(h * 65536, c + h * 64);
    assert a2 == (c + h * 64 + h * 65536) % Modulus;
    ModAddLeft(c + h * 64 + h * 65536, -(h as int));
  }

  lemma Pow2Values()
    ensures Pow2(5) == 32 && Pow2(6) == 64 && Pow2(8) == 256 && Pow2(16) == 65536
    ensures Pow2(24) == 0x100_0000 && Pow2(32) == Modulus
  {
    assert Pow2(5) == 32;
    assert Pow2(6) == 64;
    assert Pow2(8) == 256;
    assert Pow2(16) == 65536;
    assert Pow2(24) == 0x100_0000;
    assert Pow2(32) == Modulus;
  }

  /** The sum of the character values, without wrap-around. */
  function SumChars(s: seq<byte>): int
    decreases |s|
  {
    if |s| == 0 then 0 else CharValue(s[0]) + SumChars(s[1..])
  }

  /** kr1 from accumulator h adds the characters' sum to h, modulo 2^32. */
  lemma {:induction false} Kr1FoldIsSum(h: u32, s: seq<byte>)
    ensures Fold(Kr1, h, s) == (h + SumChars(s)) % Modulus
    decreases |s|
  {
    if |s| == 0 {
    } else {
      var c := CharValue(s[0]);
      Kr1FoldIsSum((h + c) % Modulus, s[1..]);
      ModAddLeft(h + c, SumChars(s[1..]));
    }
  }

  /** The sum of a concatenation is the sum of the sums. */
  lemma {:induction false} SumCharsAppend(s: seq<byte>, t: seq<byte>)
    ensures SumChars(s + t) == SumChars(s) + SumChars(t)
    decreases |s|
  {
    if |s| == 0 {
      assert s + t == t;
    } else {
      assert (s + t)[1..] == s[1..] + t;
      SumCharsAppend(s[1..], t);
    }
  }

  /** kr1 is the sum of the chars modulo 2^32, so it cannot tell s + t from t + s. */
  lemma Kr1OrderBlind(s: seq<byte>, t: seq<byte>)
    ensures Hash(Kr1, s) == SumChars(s) % Modulus
    ensures Hash(Kr1, s + t) == Hash(Kr1, t + s)
  {
    Kr1FoldIsSum(0, s);
    Kr1FoldIsSum(0, s + t);
    Kr1FoldIsSum(0, t + s);
    SumCharsAppend(s, t);
    SumCharsAppend(t, s);
  }

  /** kr2_hash_str. */
  method Kr2HashStr(str: seq<byte>) returns (hash: u32)
    ensures hash == Hash(Kr2, str)
  {
    hash := 0;
    var i := 0;
    while i < |str|
      invariant i <= |str|
      invariant Fold(Kr2, hash, str[i..]) == Hash(Kr2, str)
    {
      assert str[i..][1..] == str[i + 1..];
      Kr2StepForm(hash, CharValue(str[i]));
      hash := Mul32(hash, 31);
      hash := Add32(hash, CharValue(str[i]));
      i := i + 1;
    }
  }

  /** kr1_hash_str. */
  method Kr1HashStr(str: seq<byte>) returns (hash: u32)
    ensures hash == Hash(Kr1, str)
  {
    hash := 0;
    var i := 0;
    while i < |str|
      invariant i <= |str|
      invariant Fold(Kr1, hash, str[i..]) == Hash(Kr1, str)
    {
      assert str[i..][1..] == str[i + 1..];
      hash := Add32(hash, CharValue(str[i]));
      i := i + 1;
    }
  }

  /** djb2_hash_str, with its shift-and-add step. */
  method Djb2HashStr(str: seq<byte>) returns (hash: u32)
    ensures hash == Hash(Djb2, str)
  {
    hash := 5381;
    var i := 0;
    while i < |str|
      invariant i <= |str|
      invariant Fold(Djb2, hash, str[i..]) == Hash(Djb2, str)
    {
      assert str[i..][1..] == str[i + 1..];
      Djb2StepForm(hash, CharValue(str[i]));
      hash := Add32(Add32(Shl32(hash, 5), hash), CharValue(str[i]));
      i := i + 1;
    }
  }

  /** djb2xor_hash_str. */
  method Djb2XorHashStr(str: seq<byte>) returns (hash: u32)
    ensures hash == Hash(Djb2Xor, str)
  {
    hash := 5381;
    var i := 0;
    while i < |str|
      invariant i <= |str|
      invariant Fold(Djb2Xor, hash, str[i..]) == Hash(Djb2Xor, str)
    {
      assert str[i..][1..] == str[i + 1..];
      hash := Xor32(Mul32(hash, 33), CharValue(str[i]));
      i := i + 1;
    }
  }

  /** sdbm_hash_str, with its shift-and-subtract step. */
  method SdbmHashStr(str: seq<byte>) returns (hash: u32)
    ensures hash == Hash(Sdbm, str)
  {
    hash := 0;
    var i := 0;
    while i < |str|
      invariant i <= |str|
      invariant Fold(Sdbm, hash, str[i..]) == Hash(Sdbm, str)
    {
      assert str[i..][1..] == str[i + 1..];
      var c := CharValue(str[i]);
      SdbmStepForm(hash, c);
      hash := Sub32(Add32(Add32(c, Shl32(hash, 6)), Shl32(hash, 16)), hash);
      i := i + 1;
    }
  }

  /**
   * leveldb_decode_fixed_32: four unsigned bytes, least significant
   * first. The C ORs the bytes shifted into disjoint positions, which is
   * their sum.
   */
  function DecodeFixed32(p: seq<byte>): u32
    requires |p| >= 4
  {
    p[0] as int + (p[1] as int) * 0x100 + (p[2] as int) * 0x1_0000 + (p[3] as int) * 0x100_0000
  }

  /** The four bytes of w, least significant first. */
  function EncodeFixed32(w: u32): seq<byte>
  {
    var w1 := w / 0x100;
    var w2 := w1 / 0x100;
    [w % 0x100, w1 % 0x100, w2 % 0x100, w2 / 0x100]
  }

  /** Dividing hi * 256 + lo by 256 gives hi, remainder lo. */
  lemma ByteSplit(x: int, hi: int, lo: int)
    requires x == hi * 0x100 + lo && 0 <= lo < 0x100
    ensures x / 0x100 == hi && x % 0x100 == lo
  {
  }

  /** Decoding undoes encoding. */
  lemma DecodeEncode(w: u32)
    ensures DecodeFixed32(EncodeFixed32(w)) == w
  {
    var w1 := w / 0x100;
    var w2 := w1 / 0x100;
    assert w == w1 * 0x100 + w % 0x100;
    assert w1 == w2 * 0x100 + w1 % 0x100;
    assert w2 == (w2 / 0x100) * 0x100 + w2 % 0x100;
  }

  /** Encoding undoes decoding: the word holds exactly the four bytes, in little-endian order. */
  lemma EncodeDecode(p: seq<byte>)
    requires |p| >= 4
    ensures EncodeFixed32(DecodeFixed32(p)) == p[..4]
  {
    var w := DecodeFixed32(p);
    var b0, b1, b2, b3 := p[0] as int, p[1] as int, p[2] as int, p[3] as int;
    var t2 := b2 + b3 * 0x100;
    var t1 := b1 + t2 * 0x100;
    ByteSplit(w, t1, b0);
    ByteSplit(t1, t2, b1);
    ByteSplit(t2, b3, b2);
  }

  const LevelDbSeed: u32 := 0xbc9f_1d34
  const LevelDbM: u32 := 0xc6a4_a793

  /** `str_len * m` in size_t, truncated to the unsigned int h. */
  function LengthTerm(n: nat): u32
  {
    ((n % Modulus) * LevelDbM) % Modulus
  }

  /** The body of the four-byte loop: add the word, multiply, fold the high half down. */
  function MixWord(h: u32, w: u32): u32
  {
    var h1 := Mul32(Add32(h, w), LevelDbM);
    Xor32(h1, Shr32(h1, 16))
  }

  /** The end of the `case 1` arm, which the longer tails fall through to. */
  function Finish(h: u32): u32
  {
    var h1 := Mul32(h, LevelDbM);
    Xor32(h1, Shr32(h1, 24))
  }

  /** The switch on the 0 to 3 bytes left, with its fall-through. */
  function LevelDbTail(h: u32, s: seq<byte>): u32
    requires |s| < 4
  {
    if |s| == 3 then Finish(Add32(Add32(Add32(h, Shl32(s[2], 16)), Shl32(s[1], 8)), s[0]))
    else if |s| == 2 then Finish(Add32(Add32(h, Shl32(s[1], 8)), s[0]))
    else if |s| == 1 then Finish(Add32(h, s[0]))
    else h
  }

  /** Whole words first, then the tail. */
  function LevelDbFrom(h: u32, s: seq<byte>): u32
    decreases |s|
  {
    if |s| >= 4 then LevelDbFrom(MixWord(h, DecodeFixed32(s)), s[4..]) else LevelDbTail(h, s)
  }

  /** leveldb_hash_str's result. */
  function LevelDbHash(s: seq<byte>): u32
  {
    LevelDbFrom(Xor32(LevelDbSeed, LengthTerm(|s|)), s)
  }

  /** The empty string hashes to the seed. */
  lemma LevelDbEmpty()
    ensures LevelDbHash([]) == 0xbc9f_1d34
  {
    Pow2Values();
    XorBitsZero(LevelDbSeed, 32);
  }

  /** What the tail's fall-through adds to h before the final mix, for one to three bytes. */
  function TailSum(h: u32, s: seq<byte>): u32
    requires 1 <= |s| < 4
  {
    if |s| == 3 then Add32(Add32(Add32(h, Shl32(s[2], 16)), Shl32(s[1], 8)), s[0])
    else if |s| == 2 then Add32(Add32(h, Shl32(s[1], 8)), s[0])
    else Add32(h, s[0])
  }

  /** The tail's fall-through adds the remaining bytes as one zero-padded little-endian word. */
  lemma TailIsPaddedWord(h: u32, s: seq<byte>)
    requires 1 <= |s| < 4
    ensures LevelDbTail(h, s) == Finish(Add32(h, DecodeFixed32(s + [0, 0, 0])))
  {
    TailSumIsPadded(h, s);
    TailIsFinish(h, s);
  }

  /** A non-empty tail is finished from its sum. */
  lemma TailIsFinish(h: u32, s: seq<byte>)
    requires 1 <= |s| < 4
    ensures LevelDbTail(h, s) == Finish(TailSum(h, s))
  {
  }

  /** The sum the fall-through builds is the zero-padded word added once. */
  lemma TailSumIsPadded(h: u32, s: seq<byte>)
    requires 1 <= |s| < 4
    ensures TailSum(h, s) == Add32(h, DecodeFixed32(s + [0, 0, 0]))
  {
    var p := s + [0, 0, 0];
    if |s| == 3 {
      assert DecodeFixed32(p) == s[0] as int + (s[1] as int) * 0x100 + (s[2] as int) * 0x1_0000;
      FallThrough3(h, s[0], s[1], s[2]);
    } else if |s| == 2 {
      assert DecodeFixed32(p) == s[0] as int + (s[1] as int) * 0x100;
      FallThrough2(h, s[0], s[1]);
    } else {
      assert DecodeFixed32(p) == s[0];
    }
  }

  lemma FallThrough3(h: u32, b0: byte, b1: byte, b2: byte)
    ensures Add32(Add32(Add32(h, Shl32(b2, 16)), Shl32(b1, 8)), b0)
      == Add32(h, b0 + b1 * 0x100 + b2 * 0x1_0000)
  {
    Pow2Values();
    assert Shl32(b2, 16) == b2 * 0x1_0000;
    assert Shl32(b1, 8) == b1 * 0x100;
    ModAddLeft(h + b2 * 0x1_0000, b1 * 0x100);
    ModAddLeft(h + b2 * 0x1_0000 + b1 * 0x100, b0);
  }

  lemma FallThrough2(h: u32, b0: byte, b1: byte)
    ensures Add32(Add32(h, Shl32(b1, 8)), b0) == Add32(h, b0 + b1 * 0x100)
  {
    Pow2Values();
    assert Shl32(b1, 8) == b1 * 0x100;
    ModAddLeft(h + b1 * 0x100, b0);
  }

  /** leveldb_hash_str. */
  method LevelDbHashStr(str: seq<byte>) returns (h: u32)
    ensures h == LevelDbHash(str)
  {
    h := Xor32(LevelDbSeed, LengthTerm(|str|));
    var i := 0;
    while i + 4 <= |str|
      invariant i <= |str|
      invariant LevelDbFrom(h, str[i..]) == LevelDbHash(str)
    {
      assert str[i..][4..] == str[i + 4..];
      var w := DecodeFixed32(str[i..]);
      h := Add32(h, w);
      h := Mul32(h, LevelDbM);
      h := Xor32(h, Shr32(h, 16));
      i := i + 4;
    }
    h := TailSwitch(h, str[i..]);
  }

  /** The switch on `limit - str`, statement by statement. */
  method TailSwitch(h0: u32, rest: seq<byte>) returns (h: u32)
    requires |rest| < 4
    ensures h == LevelDbTail(h0, rest)
  {
    h := h0;
    if |rest| == 0 {
      return;
    }
    if |rest| == 3 {
      h := Add32(h, Shl32(rest[2], 16));
    }
    if |rest| >= 2 {
      h := Add32(h, Shl32(rest[1], 8));
    }
    h := Add32(h, rest[0]);
    h := Mul32(h, LevelDbM);
    h := Xor32(h, Shr32(h, 24));
  }

  /** _bucket_for without consistent hashing: the hash modulo the bucket count. */
  function BucketFor(hash: u32, numBuckets: nat): (bucket: nat)
    requires numBuckets != 0
    ensures bucket < numBuckets
    ensures hash < numBuckets ==> bucket == hash
  {
    hash % numBuckets
  }
}
