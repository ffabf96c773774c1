/**
 * c/factor-of-2.c: every non-zero 32-bit number is 2^z times an odd
 * number, where z counts its trailing zero bits. The program finds z by
 * testing bits from the least significant up, then shifts num right by z
 * and checks that multiplying back gives num, for every even num below
 * two thousand million.
 *
 * A uint32_t is an integer in 0 .. 2^32 - 1; `num & (1U << i)` is non-zero
 * exactly when bit i of num, (num / 2^i) % 2, is 1, and `num >> z` is
 * num / 2^z.
 */
module FactorOfTwo {
  import opened MathDefs

  type u32 = x: nat | x < 0x1_0000_0000

  /** Bit i of x. */
  predicate Bit(x: nat, i: nat)
  {
    (x / Pow2(i)) % 2 == 1
  }

  /** The number of trailing zero bits of a non-zero x. */
  function TrailingZeros(x: nat): nat
    requires x > 0
    decreases x
  {
    if x % 2 == 1 then 0 else 1 + TrailingZeros(x / 2)
  }

  /** x with its trailing zero bits shifted out. */
  function OddPart(x: nat): nat
    requires x > 0
    decreases x
  {
    if x % 2 == 1 then x else OddPart(x / 2)
  }

  /** x == 2^TrailingZeros(x) * OddPart(x), and the odd part is odd. */
  lemma {:induction false} Decomposition(x: nat)
    requires x > 0
    ensures OddPart(x) % 2 == 1
    ensures Pow2(TrailingZeros(x)) * OddPart(x) == x
    decreases x
  {
    if x % 2 == 0 {
      Decomposition(x / 2);
      var t, o := TrailingZeros(x / 2), OddPart(x / 2);
      var p := Pow2(t);
      assert Pow2(t + 1) == 2 * p;
      assert 2 * p * o == 2 * (p * o);
    }
  }

  /** A number below 2^n has fewer than n trailing zeros. */
  lemma {:induction false} TrailingZerosBelow(x: nat, n: nat)
    requires 0 < x < Pow2(n)
    ensures TrailingZeros(x) < n
    decreases x
  {
    if x % 2 == 0 {
      assert n > 0;
      TrailingZerosBelow(x / 2, n - 1);
    }
  }

  /** An even number has at least one trailing zero; an odd one has none. */
  lemma EvenHasTrailingZero(x: nat)
    requires x > 0
    ensures TrailingZeros(x) >= 1 <==> x % 2 == 0
  {
  }

  /** Bit i of p * q with p = 2^i is the lowest bit of q. */
  lemma BitOfShifted(q: nat, i: nat)
    ensures Bit(Pow2(i) * q, i) <==> q % 2 == 1
  {
    DivMul(Pow2(i), q);
  }

  /** Pow2(i) * q == Pow2(i + 1) * (q / 2) for even q. */
  lemma ShiftEven(q: nat, i: nat)
    requires q % 2 == 0
    ensures Pow2(i) * q == Pow2(i + 1) * (q / 2)
  {
    assert q == 2 * (q / 2);
  }

  /**
   * The inner loop: counts zero bits from bit 0 up to the first set bit,
   * at most 32 of them. For 0 every test fails and the count is 32.
   */
  method LsbZeros(num: u32) returns (lsbZeros: nat)
    ensures num > 0 ==> lsbZeros == TrailingZeros(num) && Bit(num, lsbZeros)
    ensures num == 0 ==> lsbZeros == 32
  {
    lsbZeros := 0;
    ghost var rest: nat := num;
    var i := 0;
    while i < 32
      invariant 0 <= i <= 32 && lsbZeros == i
      invariant num == Pow2(i) * rest
      invariant num > 0 ==> rest > 0 && TrailingZeros(num) == i + TrailingZeros(rest)
      invariant num == 0 ==> rest == 0
    {
      BitOfShifted(rest, i);
      if Bit(num, i) {
        return;
      }
      ShiftEven(rest, i);
      rest := rest / 2;
      lsbZeros := lsbZeros + 1;
      i := i + 1;
    }
    if num > 0 {
      Pow2Of32();
      assert false;
    }
  }

  /**
   * One pass of main's loop body: z = lsb_zeros, even = 1U << z,
   * odd = num >> z and the product even * odd, wrapped to 32 bits.
   * 1U << 32 is undefined, so num must be non-zero, as every num the
   * program tries is.
   */
  method FactorOut(num: u32) returns (odd: u32, even: u32, lsbZeros: nat, result: u32)
    requires num > 0
    ensures lsbZeros == TrailingZeros(num) && lsbZeros < 32
    ensures even == Pow2(lsbZeros) && odd == OddPart(num) && odd % 2 == 1
    ensures result == num
  {
    lsbZeros := LsbZeros(num);
    Pow2Of32();
    TrailingZerosBelow(num, 32);
    Pow2Monotone(lsbZeros, 31);
    Pow2Monotone(31, 32);
    even := Pow2(lsbZeros);
    Decomposition(num);
    DivMul(even, OddPart(num));
    odd := num / even;
    result := (even * odd) % 0x1_0000_0000;
  }

  /**
   * main: every even num from 2 up to two thousand million factors as
   * (1 << z) * odd with z >= 1, so the program's assert never fires.
   * The count of numbers checked is returned.
   */
  method CheckEvens() returns (checked: nat)
    ensures checked == 999_999_999
  {
    checked := 0;
    var num: u32 := 2;
    while num < 2 * 1000 * 1000 * 1000
      invariant 2 <= num <= 2 * 1000 * 1000 * 1000 && num % 2 == 0
      invariant checked == num / 2 - 1
      decreases 2 * 1000 * 1000 * 1000 - num
    {
      var odd, even, lsbZeros, result := FactorOut(num);
      assert result == num;
      EvenHasTrailingZero(num);
      assert lsbZeros >= 1;
      checked := checked + 1;
      num := num + 2;
    }
  }
}
