/**
 * c/sieve-of-eratosthenes.c: the sieve over a bit array in which bit
 * (n - 3) / 2 stands for the odd number n >= 3. Bits start set; every
 * number found prime clears the bits of its multiples.
 *
 * The bytes are bv8 values and CHAR_BIT is 8. uint64_t arithmetic is exact here because
 * max stays below 2^63, so neither j += i nor ++i wraps.
 */
module SieveOfEratosthenes {
  import MathDefs

  const U64: nat := 0x1_0000_0000_0000_0000

  /** get_byte_and_offset: the byte holding bit index, and the bit's place in it (an unsigned char). */
  function ByteAndOffset(index: nat): (r: (nat, bv8))
    ensures r.0 * 8 + r.1 as nat == index && r.1 < 8
  {
    (index / 8, (index % 8) as bv8)
  }

  /** Bit q of byte b is 1. */
  predicate BitSet(b: bv8, q: bv8)
    requires q < 8
  {
    (b >> q) & 1 == 1
  }

  /** get_bit: bit offset of the byte that ByteAndOffset names. */
  predicate GetBit(bytes: seq<bv8>, index: nat)
    requires index / 8 < |bytes|
  {
    var bo := ByteAndOffset(index);
    BitSet(bytes[bo.0], bo.1)
  }

  /** Setting bit o of a byte sets that bit and no other. */
  lemma OrBit(b: bv8, o: bv8, q: bv8)
    requires o < 8 && q < 8
    ensures BitSet(b | (1 << o), q) <==> q == o || BitSet(b, q)
  {
  }

  /** Clearing bit o of a byte clears that bit and no other. */
  lemma AndNotBit(b: bv8, o: bv8, q: bv8)
    requires o < 8 && q < 8
    ensures BitSet(b & !(1 << o), q) <==> q != o && BitSet(b, q)
  {
  }

  /**
   * set_bit: or-in or mask out bit offset of the addressed byte (the C
   * code works in unsigned int and stores the low 8 bits back). Only the
   * addressed bit changes.
   */
  method SetBit(bytes: array<bv8>, index: nat, val: bool)
    requires index / 8 < bytes.Length
    modifies bytes
    ensures OnlyBitChanged(old(bytes[..]), bytes[..], index, val)
  {
    var bo := ByteAndOffset(index);
    var byte, offset := bo.0, bo.1;
    ghost var before := bytes[..];
    bytes[byte] := WithBit(bytes[byte], offset, val);
    ByteUpdateBits(before, index, bytes[byte], val);
  }

  /** after differs from before in bit index alone, which is val. */
  ghost predicate OnlyBitChanged(before: seq<bv8>, after: seq<bv8>, index: nat, val: bool)
  {
    |after| == |before| && index / 8 < |before| &&
    forall k :: 0 <= k < 8 * |before| ==> GetBit(after, k) == if k == index then val else GetBit(before, k)
  }

  /**
   * The byte set_bit stores: b with 1 << o or-ed in, or masked out with
   * its complement. Bit o becomes val and the others stay.
   */
  function WithBit(b: bv8, o: bv8, val: bool): (r: bv8)
    requires o < 8
    ensures forall q: bv8 :: q < 8 ==> (BitSet(r, q) <==> if q == o then val else BitSet(b, q))
  {
    var r := if val then b | (1 << o) else b & !(1 << o);
    assert forall q: bv8 :: q < 8 ==> (BitSet(r, q) <==> if q == o then val else BitSet(b, q)) by {
      forall q: bv8 | q < 8
        ensures BitSet(r, q) <==> if q == o then val else BitSet(b, q)
      {
        if val {
          OrBit(b, o, q);
        } else {
          AndNotBit(b, o, q);
        }
      }
    }
    r
  }

  /** Replacing the byte that holds bit index by one that differs only in that bit changes only that bit. */
  lemma ByteUpdateBits(before: seq<bv8>, index: nat, updated: bv8, val: bool)
    requires index / 8 < |before|
    requires forall q: bv8 :: q < 8 ==>
      (BitSet(updated, q) <==> if q == ByteAndOffset(index).1 then val else BitSet(before[index / 8], q))
    ensures OnlyBitChanged(before, before[index / 8 := updated], index, val)
  {
    var after := before[index / 8 := updated];
    forall k | 0 <= k < 8 * |before|
      ensures GetBit(after, k) == if k == index then val else GetBit(before, k)
    {
      var ko, io := ByteAndOffset(k), ByteAndOffset(index);
      if ko.0 == io.0 {
        assert k == index <==> ko.1 == io.1;
      }
    }
  }

  /**
   * primes_index: the bit for number, (number - 3) / 2 in uint64_t
   * arithmetic, so numbers below 3 wrap to huge indices. For odd
   * numbers from 3 on it is the inverse of n |-> 2 n + 3.
   */
  function PrimesIndex(number: nat): (r: nat)
    requires number < U64
    ensures number >= 3 && number % 2 == 1 ==> 2 * r + 3 == number
    ensures number < 3 ==> r >= U64 / 2 - 2
  {
    var wrapped := (number - 3) % U64;
    assert wrapped == if number >= 3 then number - 3 else U64 + number - 3;
    wrapped / 2
  }

  /** Larger numbers have later bits. */
  lemma PrimesIndexMonotone(m: nat, n: nat)
    requires 3 <= m <= n < U64
    ensures PrimesIndex(m) <= PrimesIndex(n)
  {
  }

  /** Different odd numbers from 3 on have different bits. */
  lemma PrimesIndexInjective(m: nat, n: nat)
    requires 3 <= m < U64 && 3 <= n < U64 && m % 2 == 1 && n % 2 == 1 && m != n
    ensures PrimesIndex(m) != PrimesIndex(n)
  {
  }

  /**
   * The length main gives the array: 2 bytes below 3, otherwise
   * primes_index(max) + 1 bytes, one byte per bit needed, so every bit
   * an odd number up to max uses fits.
   */
  function PrimesLen(max: nat): (r: nat)
    requires max < U64
    ensures r >= 1
    ensures forall n :: 3 <= n <= max && n % 2 == 1 ==> PrimesIndex(n) / 8 < r
  {
    if max < 3 then 2
    else
      assert forall n :: 3 <= n <= max && n % 2 == 1 ==> PrimesIndex(n) / 8 < PrimesIndex(max) + 1 by {
        forall n | 3 <= n <= max && n % 2 == 1
          ensures PrimesIndex(n) / 8 < PrimesIndex(max) + 1
        {
          PrimesIndexMonotone(n, max);
          assert PrimesIndex(n) / 8 <= PrimesIndex(n);
        }
      }
      PrimesIndex(max) + 1
  }

  /**
   * is_prime on the bit array: false below 2, true for 2, false for
   * other even numbers, and otherwise the number's bit.
   */
  predicate IsPrime(bytes: seq<bv8>, number: nat)
    requires number < U64
    requires number >= 3 && number % 2 == 1 ==> PrimesIndex(number) / 8 < |bytes|
  {
    if number < 2 then false
    else if number == 2 then true
    else if number % 2 == 0 then false
    else GetBit(bytes, PrimesIndex(number))
  }

  /** is_prime's answers that do not depend on the bits. */
  lemma IsPrimeFixed(bytes: seq<bv8>, number: nat)
    requires number < U64 && (number < 3 || number % 2 == 0)
    ensures IsPrime(bytes, number) <==> MathDefs.IsPrime(number)
  {
    if number >= 3 {
      assert number % 2 == 0;
      assert !MathDefs.IsPrime(number);
    }
  }

  /** n has no divisor d with 2 <= d < i other than possibly n itself. */
  predicate NoFactorBelow(n: nat, i: nat)
  {
    forall d :: 2 <= d < i && d < n ==> n % d != 0
  }

  /** The bit of every odd n from 3 to max says whether n has no factor below i. */
  ghost predicate Sieved(bytes: seq<bv8>, max: nat, i: nat)
    requires max < U64
  {
    forall n :: 3 <= n <= max && n % 2 == 1 ==>
      PrimesIndex(n) / 8 < |bytes| && (GetBit(bytes, PrimesIndex(n)) <==> NoFactorBelow(n, i))
  }

  /**
   * Inside the marking loop for i with next multiple j: additionally the
   * multiples of i above i and below j are cleared.
   */
  ghost predicate Marking(bytes: seq<bv8>, max: nat, i: nat, j: nat)
    requires max < U64 && i >= 1
  {
    forall n :: 3 <= n <= max && n % 2 == 1 ==>
      PrimesIndex(n) / 8 < |bytes| &&
      (GetBit(bytes, PrimesIndex(n)) <==> NoFactorBelow(n, i) && !(n % i == 0 && i < n < j))
  }

  /** The bytes main starts from have every odd number's bit set. */
  lemma AllSetSieved(bytes: seq<bv8>, max: nat)
    requires max < U64 && |bytes| == PrimesLen(max)
    requires forall b :: 0 <= b < |bytes| ==> bytes[b] == 0xFF
    ensures Sieved(bytes, max, 3)
  {
    forall n | 3 <= n <= max && n % 2 == 1
      ensures GetBit(bytes, PrimesIndex(n)) <==> NoFactorBelow(n, 3)
    {
      var bo := ByteAndOffset(PrimesIndex(n));
      FullByte(bo.1);
      assert n % 2 != 0;
    }
  }

  /** Every bit of 0xFF is set. */
  lemma FullByte(o: bv8)
    requires o < 8
    ensures BitSet(0xFF, o)
  {
  }

  /** Multiples of i below 2 i are i itself, so marking starts out true. */
  lemma StartMarking(bytes: seq<bv8>, max: nat, i: nat)
    requires max < U64 && i >= 1 && Sieved(bytes, max, i)
    ensures Marking(bytes, max, i, i + i)
  {
    forall n | 3 <= n <= max && n % 2 == 1 && n % i == 0 && i < n
      ensures n >= i + i
    {
      MultipleAbove(n, i, i);
    }
  }

  /** A multiple of i above the multiple j is at least j + i. */
  lemma MultipleAbove(n: nat, i: nat, j: nat)
    requires i >= 1 && n % i == 0 && j % i == 0 && j < n
    ensures n >= j + i
  {
    var q, p := n / i, j / i;
    assert n == q * i && j == p * i;
    if q <= p {
      MathDefs.MulMono(q, p, i);
    } else {
      MathDefs.MulMono(p + 1, q, i);
    }
  }

  /**
   * One set_not_prime(j) for the multiple j of i: the bits then show the
   * multiples below j + i cleared.
   */
  lemma MarkStep(bytes: seq<bv8>, bytes': seq<bv8>, max: nat, i: nat, j: nat)
    requires max < U64 && i >= 1 && j % i == 0 && i < j <= max && Marking(bytes, max, i, j)
    requires |bytes'| == |bytes|
    requires j % 2 == 1 ==> PrimesIndex(j) / 8 < |bytes|
    requires j % 2 == 1 ==> OnlyBitChanged(bytes, bytes', PrimesIndex(j), false)
    requires j % 2 == 0 ==> bytes' == bytes
    ensures Marking(bytes', max, i, j + i)
  {
    forall n | 3 <= n <= max && n % 2 == 1
      ensures PrimesIndex(n) / 8 < |bytes'|
      ensures GetBit(bytes', PrimesIndex(n)) <==> NoFactorBelow(n, i) && !(n % i == 0 && i < n < j + i)
    {
      var k := PrimesIndex(n);
      assert k < 8 * |bytes|;
      if n != j {
        if j % 2 == 1 {
          PrimesIndexInjective(n, j);
        }
        if n % i == 0 && j < n {
          MultipleAbove(n, i, j);
        }
      }
    }
  }

  /** Once the multiples run past max, the bits show no factor below i + 1. */
  lemma FinishMarking(bytes: seq<bv8>, max: nat, i: nat, j: nat)
    requires max < U64 && i >= 2 && j > max && Marking(bytes, max, i, j)
    ensures Sieved(bytes, max, i + 1)
  {
    forall n | 3 <= n <= max && n % 2 == 1
      ensures NoFactorBelow(n, i + 1) <==> NoFactorBelow(n, i) && !(n % i == 0 && i < n)
    {
      if NoFactorBelow(n, i + 1) && i < n {
        assert 2 <= i < i + 1;
      }
      if NoFactorBelow(n, i) && !(n % i == 0 && i < n) {
        forall d | 2 <= d < i + 1 && d < n
          ensures n % d != 0
        {
          if d < i {
          }
        }
      }
    }
  }

  /**
   * When is_prime(i) is false for i >= 3, every multiple of i already has
   * a smaller factor (2 for even i, a factor of i otherwise), so skipping
   * i keeps the bits right.
   */
  lemma SkipStep(bytes: seq<bv8>, max: nat, i: nat)
    requires max < U64 && 3 <= i <= max && Sieved(bytes, max, i) && !IsPrime(bytes, i)
    ensures Sieved(bytes, max, i + 1)
  {
    forall n | 3 <= n <= max && n % 2 == 1
      ensures NoFactorBelow(n, i + 1) <==> NoFactorBelow(n, i)
    {
      if NoFactorBelow(n, i) && n % i == 0 && i < n {
        if i % 2 == 0 {
          DividesTrans(2, i, n);
          assert false;
        } else {
          var d :| 2 <= d < i && i % d == 0;
          DividesTrans(d, i, n);
          assert false;
        }
      }
    }
  }

  /** Adding i to a multiple of i gives a multiple of i. */
  lemma NextMultiple(j: nat, i: nat)
    requires i >= 1 && j % i == 0
    ensures (j + i) % i == 0
  {
    var q := j / i;
    assert j == q * i;
    assert j + i == (q + 1) * i;
    MathDefs.DivModUnique(j + i, i, q + 1, 0);
  }

  /** A divisor of a divisor of n divides n. */
  lemma DividesTrans(d: nat, i: nat, n: nat)
    requires d >= 1 && i >= 1 && i % d == 0 && n % i == 0
    ensures n % d == 0
  {
    var a, b := i / d, n / i;
    assert i == d * a && n == i * b;
    assert n == d * (a * b);
    MathDefs.DivModUnique(n, d, a * b, 0);
  }

  /** When the bits show no factor below max + 1, is_prime is primality up to max. */
  lemma SievedPrimes(bytes: seq<bv8>, max: nat, n: nat)
    requires max < U64 && n <= max && Sieved(bytes, max, max + 1)
    ensures IsPrime(bytes, n) <==> MathDefs.IsPrime(n)
  {
    if n < 3 || n % 2 == 0 {
      IsPrimeFixed(bytes, n);
    } else {
      assert NoFactorBelow(n, max + 1) <==> NoFactorBelow(n, n);
    }
  }

  /** sieve_context_s: the upper bound and the bit array, fixed once main sets them up. */
  class SieveContext {
    const max: nat
    const primes: array<bv8>

    /** The context is as main sets it up, with max below 2^63. */
    predicate Valid()
    {
      max < U64 / 2 && primes.Length == PrimesLen(max)
    }

    /**
     * main's set-up: primes_len bytes (2 when max < 3, else
     * primes_index(max) + 1), every byte 0xFF as memset(-1) leaves it.
     * Allocation failure is not modelled.
     */
    constructor(max: nat)
      requires max < U64 / 2
      ensures this.max == max && Valid() && fresh(primes)
      ensures Sieved(primes[..], max, 3)
    {
      this.max := max;
      var len := PrimesLen(max);
      primes := new bv8[len](_ => 0xFF);
      new;
      AllSetSieved(primes[..], max);
    }

    /** set_not_prime: clears the bit of an odd number; even numbers are ignored. */
    method SetNotPrime(number: nat)
      requires Valid() && number < U64
      requires number % 2 == 1 ==> PrimesIndex(number) / 8 < primes.Length
      modifies primes
      ensures number % 2 == 1 ==> OnlyBitChanged(old(primes[..]), primes[..], PrimesIndex(number), false)
      ensures number % 2 == 0 ==> primes[..] == old(primes[..])
    {
      if number % 2 != 0 {
        SetBit(primes, PrimesIndex(number), false);
      }
    }

    /**
     * mark_non_primes: for i from 3 to max, when is_prime(i), clear the
     * multiples 2 i, 3 i, ... up to max. Starting from all bits set it
     * leaves is_prime(n) true exactly for the primes n up to max. The
     * verbose messages are not modelled.
     */
    method MarkNonPrimes()
      requires Valid() && Sieved(primes[..], max, 3)
      modifies primes
      ensures Sieved(primes[..], max, max + 1)
      ensures forall n :: 0 <= n <= max ==> (IsPrime(primes[..], n) <==> MathDefs.IsPrime(n))
    {
      var i := 3;
      while i <= max
        invariant 3 <= i <= max + 1 || (max < 3 && i == 3)
        invariant Sieved(primes[..], max, i)
      {
        if IsPrime(primes[..], i) {
          MarkMultiples(i);
        } else {
          SkipStep(primes[..], max, i);
        }
        i := i + 1;
      }
      forall n | 0 <= n <= max
        ensures IsPrime(primes[..], n) <==> MathDefs.IsPrime(n)
      {
        SievedPrimes(primes[..], max, n);
      }
    }

    /** The inner loop of mark_non_primes: set_not_prime(j) for j = 2 i, 3 i, ... up to max. */
    method MarkMultiples(i: nat)
      requires Valid() && 3 <= i <= max && Sieved(primes[..], max, i)
      modifies primes
      ensures Sieved(primes[..], max, i + 1)
    {
      StartMarking(primes[..], max, i);
      NextMultiple(i, i);
      var j := i + i;
      while j <= max
        invariant j % i == 0 && i < j <= max + i
        invariant Marking(primes[..], max, i, j)
        decreases max + i - j
      {
        ghost var before := primes[..];
        SetNotPrime(j);
        MarkStep(before, primes[..], max, i, j);
        NextMultiple(j, i);
        j := j + i;
      }
      FinishMarking(primes[..], max, i, j);
    }

    /** main's last loop: the numbers i from 0 to max for which is_prime(i) holds, in order. */
    method ListPrimes() returns (shown: seq<nat>)
      requires Valid() && forall n :: 0 <= n <= max ==> (IsPrime(primes[..], n) <==> MathDefs.IsPrime(n))
      ensures shown == PrimesBelow(max + 1)
    {
      shown := [];
      var i := 0;
      while i <= max
        invariant 0 <= i <= max + 1
        invariant shown == PrimesBelow(i)
      {
        if IsPrime(primes[..], i) {
          shown := shown + [i];
        }
        i := i + 1;
      }
    }
  }

  /** The primes below n, in increasing order. */
  function PrimesBelow(n: nat): (r: seq<nat>)
    ensures forall x :: x in r <==> x < n && MathDefs.IsPrime(x)
    ensures forall a, b :: 0 <= a < b < |r| ==> r[a] < r[b]
  {
    if n == 0 then []
    else
      var r := PrimesBelow(n - 1);
      if MathDefs.IsPrime(n - 1) then
        assert forall a :: 0 <= a < |r| ==> r[a] in r;
        r + [n - 1]
      else r
  }

  /**
   * main: max from the first argument, 100 when it is absent or 0; the
   * sieve, then every prime up to max. The second argument only switches
   * on messages, which are not modelled.
   */
  method Run(argMax: nat) returns (exitCode: int, shown: seq<nat>)
    requires argMax < U64 / 2
    ensures exitCode == 0
    ensures shown == PrimesBelow(if argMax == 0 then 101 else argMax + 1)
  {
    var max := if argMax == 0 then 100 else argMax;
    var ctx := new SieveContext(max);
    ctx.MarkNonPrimes();
    shown := ctx.ListPrimes();
    exitCode := 0;
  }
}
