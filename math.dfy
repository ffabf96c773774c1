/** Mathematical reference definitions that several snippets compute. */
module MathDefs {
  /** n! */
  function Fact(n: nat): (r: nat)
    ensures r >= 1
  {
    if n == 0 then 1 else n * Fact(n - 1)
  }

  /** n! when it is at most max, else 0: the answer of the overflow-checked factorials. */
  function FactOrZero(max: nat, n: nat): nat
  {
    if Fact(n) <= max then Fact(n) else 0
  }

  /** The binomial coefficient C(n, k), by Pascal's rule. */
  function Choose(n: nat, k: nat): nat
  {
    if k == 0 then 1
    else if n == 0 then 0
    else Choose(n - 1, k - 1) + Choose(n - 1, k)
  }

  /** 2^n */
  function Pow2(n: nat): (r: nat)
    ensures r >= 1
  {
    if n == 0 then 1 else 2 * Pow2(n - 1)
  }

  /** n is prime: at least 2 and with no divisor strictly between 1 and n. */
  predicate IsPrime(n: int)
  {
    n >= 2 && forall d :: 2 <= d < n ==> n % d != 0
  }

  lemma {:induction false} FactMonotone(m: nat, n: nat)
    requires m <= n
    ensures Fact(m) <= Fact(n)
  {
    if m < n {
      FactMonotone(m, n - 1);
    }
  }

  lemma {:induction false} ChooseAbove(n: nat, k: nat)
    requires k > n
    ensures Choose(n, k) == 0
  {
    if n > 0 {
      ChooseAbove(n - 1, k - 1);
      ChooseAbove(n - 1, k);
    }
  }

  lemma {:induction false} ChooseAll(n: nat)
    ensures Choose(n, n) == 1
  {
    if n > 0 {
      ChooseAll(n - 1);
      ChooseAbove(n - 1, n);
    }
  }

  lemma {:induction false} ChooseOne(n: nat)
    ensures Choose(n, 1) == n
  {
    if n > 0 {
      ChooseOne(n - 1);
    }
  }

  lemma {:induction false} Pow2Add(a: nat, b: nat)
    ensures Pow2(a + b) == Pow2(a) * Pow2(b)
  {
    if a > 0 {
      Pow2Add(a - 1, b);
    }
  }

  /** Pow2 grows with its exponent. */
  lemma {:induction false} Pow2Monotone(a: nat, b: nat)
    requires a <= b
    ensures Pow2(a) <= Pow2(b)
  {
    if a < b {
      Pow2Monotone(a, b - 1);
    }
  }

  /** Multiplying both sides of a <= b by the same c keeps the order. */
  lemma MulMono(a: nat, b: nat, c: nat)
    requires a <= b
    ensures a * c <= b * c
  {
  }

  /** a * k! splits off its top factor k, which is at most k!. */
  lemma FactStep(a: nat, k: nat)
    requires 1 <= k
    ensures a * Fact(k) == (a * k) * Fact(k - 1)
    ensures a * k <= a * Fact(k)
  {
    assert a * Fact(k) == a * (k * Fact(k - 1));
    MulMono(1, Fact(k - 1), a * k);
  }

  /** The concrete factorials at the 32- and 64-bit boundaries. */
  lemma FactBoundaries()
    ensures Fact(12) == 479001600 && Fact(13) == 6227020800
    ensures Fact(20) == 2432902008176640000 && Fact(21) == 51090942171709440000
  {
    assert Fact(5) == 120;
    assert Fact(10) == 3628800;
    assert Fact(12) == 479001600;
    assert Fact(13) == 6227020800;
    assert Fact(15) == 1307674368000;
    assert Fact(18) == 6402373705728000;
    assert Fact(20) == 2432902008176640000;
  }

  lemma Pow2Of8()
    ensures Pow2(8) == 0x100
  {
    Pow2Add(4, 4);
  }

  lemma Pow2Of16()
    ensures Pow2(16) == 0x1_0000
  {
    Pow2Of8();
    Pow2Add(8, 8);
  }

  lemma Pow2Of32()
    ensures Pow2(32) == 0x1_0000_0000
  {
    Pow2Of16();
    Pow2Add(16, 16);
  }

  lemma Pow2Of64()
    ensures Pow2(64) == 0x1_0000_0000_0000_0000
  {
    Pow2Of32();
    Pow2Add(32, 32);
  }

  /** 2^16, 2^32 and 2^64. */
  lemma Pow2Boundaries()
    ensures Pow2(16) == 0x1_0000
    ensures Pow2(32) == 0x1_0000_0000
    ensures Pow2(64) == 0x1_0000_0000_0000_0000
  {
    Pow2Of16();
    Pow2Of32();
    Pow2Of64();
  }

  /** Exclusive or of the low n bits of a and b, least significant bit first. */
  function XorBits(a: nat, b: nat, n: nat): (r: nat)
    ensures r < Pow2(n)
  {
    if n == 0 then 0
    else (if a % 2 == b % 2 then 0 else 1) + 2 * XorBits(a / 2, b / 2, n - 1)
  }

  /** x ^ 0 == x. */
  lemma {:induction false} XorBitsZero(a: nat, n: nat)
    requires a < Pow2(n)
    ensures XorBits(a, 0, n) == a
  {
    if n != 0 {
      XorBitsZero(a / 2, n - 1);
    }
  }

  /** Exclusive or is symmetric. */
  lemma {:induction false} XorBitsSymmetric(a: nat, b: nat, n: nat)
    ensures XorBits(a, b, n) == XorBits(b, a, n)
  {
    if n != 0 {
      XorBitsSymmetric(a / 2, b / 2, n - 1);
    }
  }

  /**
   * Cancelling: xor-ing with the same b twice gives a back. This is what
   * makes the three exclusive-ors of an xor swap exchange two values.
   */
  lemma {:induction false} XorBitsCancel(a: nat, b: nat, n: nat)
    requires a < Pow2(n)
    ensures XorBits(XorBits(a, b, n), b, n) == a
  {
    if n != 0 {
      var r := XorBits(a, b, n);
      XorBitsCancel(a / 2, b / 2, n - 1);
      assert r % 2 == (if a % 2 == b % 2 then 0 else 1);
      assert r / 2 == XorBits(a / 2, b / 2, n - 1);
    }
  }

  /** x ^ x == 0. */
  lemma {:induction false} XorBitsSelf(a: nat, n: nat)
    ensures XorBits(a, a, n) == 0
  {
    if n != 0 {
      XorBitsSelf(a / 2, n - 1);
    }
  }

  /** Dividing a * b by a nonzero a gives b back. */
  lemma DivMul(a: nat, b: nat)
    requires a != 0
    ensures (a * b) / a == b
  {
    ModUniqueDiv(a * b, b, a);
  }

  /** e == q * a + 0 pins the quotient. */
  lemma ModUniqueDiv(e: nat, q: nat, a: nat)
    requires a != 0 && e == q * a
    ensures e / a == q
  {
    var q', r := e / a, e % a;
    assert q' * a + r == q * a;
    if q' < q {
      assert (q - q') * a == r;
      MulMono(1, q - q', a);
    }
  }

  /** x == q * m + r with 0 <= r < m pins both quotient and remainder. */
  lemma DivModUnique(x: nat, m: nat, q: nat, r: nat)
    requires 0 <= r < m && x == q * m + r
    ensures x / m == q && x % m == r
  {
    var q', r' := x / m, x % m;
    assert q' * m + r' == q * m + r;
    if q' < q {
      assert (q - q') * m == r' - r;
      MulMono(1, q - q', m);
    } else if q' > q {
      assert (q' - q) * m == r - r';
      MulMono(1, q' - q, m);
    }
  }

  /** k < m * f bounds the quotient: k / f < m. */
  lemma DivBelow(k: nat, m: nat, f: nat)
    requires f >= 1 && k < m * f
    ensures k / f < m
  {
    assert k == (k / f) * f + k % f;
    if k / f >= m {
      MulMono(m, k / f, f);
    }
  }

  /** Dividing by a positive f never makes a number larger. */
  lemma DivAtMost(a: nat, f: nat)
    requires f >= 1
    ensures a / f <= a
  {
    assert a == (a / f) * f + a % f;
    MulMono(1, f, a / f);
  }

  /** Division by f keeps the order. */
  lemma DivMono(a: nat, b: nat, f: nat)
    requires f >= 1 && a <= b
    ensures a / f <= b / f
  {
    assert a == (a / f) * f + a % f && b == (b / f) * f + b % f;
    if a / f > b / f {
      MulMono(b / f + 1, a / f, f);
    }
  }

  /** Reducing a before multiplying does not change the product modulo m. */
  lemma ModMul(a: nat, b: nat, m: nat)
    requires m >= 1
    ensures ((a % m) * b) % m == (a * b) % m
  {
    var q, r := a / m, a % m;
    var q2, r2 := (r * b) / m, (r * b) % m;
    assert a == q * m + r;
    assert r * b == q2 * m + r2;
    Distribute(q * m, r, b);
    MulRegroup(q, m, b);
    assert (q * m) * b == (q * b) * m;
    Distribute(q * b, q2, m);
    DivModUnique(a * b, m, q * b + q2, r2);
  }

  /** Multiplication distributes over addition. */
  lemma Distribute(x: nat, y: nat, z: nat)
    ensures (x + y) * z == x * z + y * z
  {
  }

  /** The quotient times the divisor does not pass the dividend. */
  lemma DivFloor(a: nat, f: nat)
    requires f >= 1
    ensures (a / f) * f <= a
  {
    assert a == (a / f) * f + a % f;
  }

  /** Products regroup freely. */
  lemma MulRegroup(a: nat, b: nat, c: nat)
    ensures (a * b) * c == b * (a * c)
  {
  }

  /** n is at most n!. */
  lemma FactAtLeast(n: nat)
    ensures n <= Fact(n)
  {
    if n > 0 {
      FactStep(1, n);
    }
  }

  /** Two numbers with the same quotient differ in their remainders. */
  lemma SameQuotient(a: nat, b: nat, f: nat)
    requires f >= 1 && a / f == b / f && a != b
    ensures a % f != b % f
  {
    assert a == (a / f) * f + a % f && b == (b / f) * f + b % f;
  }
}
