/**
 * c/cached_factorial.c: two ways to compute n! as an unsigned long.
 * factorial_cached multiplies through safe_mul_ul, using the tabulated
 * k! once n is 10 or less, and answers 0 on overflow; factorial_safe
 * refuses n above a per-width limit and otherwise multiplies with plain
 * (wrapping) unsigned arithmetic. main compares the two for n in 0..24.
 *
 * sizeof(unsigned long) is the parameter `bytes` (CHAR_BIT is 8), so
 * unsigned long holds 0 .. 2^(8 * bytes) - 1.
 */
module CachedFactorial {
  import opened MathDefs
  import opened SafeMul
  import opened Wrappers

  function UlongMax(bytes: nat): nat
  {
    Pow2(8 * bytes) - 1
  }

  /** safe_mul_ul: the split-halves multiply on half of unsigned long's width. */
  function SafeMulUl(bytes: nat, lhs: nat, rhs: nat): (r: Mul)
    requires 1 <= bytes
    ensures r.product <= UlongMax(bytes)
  {
    Pow2Add(4 * bytes, 4 * bytes);
    HalvesMul(4 * bytes, lhs, rhs)
  }

  /** safe_mul_ul flags overflow exactly when the product exceeds ULONG_MAX, and otherwise returns it. */
  lemma SafeMulUlCorrect(bytes: nat, lhs: nat, rhs: nat)
    requires 1 <= bytes && lhs <= UlongMax(bytes) && rhs <= UlongMax(bytes)
    ensures SafeMulUl(bytes, lhs, rhs).overflowed <==> lhs * rhs > UlongMax(bytes)
    ensures !SafeMulUl(bytes, lhs, rhs).overflowed ==> SafeMulUl(bytes, lhs, rhs).product == lhs * rhs
  {
    assert (8 * bytes) / 2 == 4 * bytes;
    HalvesMulExact(8 * bytes, lhs, rhs);
  }

  /** The constants of factorial_cached's switch, cases 2 to 10. */
  function CachedFact(k: nat): nat
    requires 2 <= k <= 10
  {
    match k
    case 2 => 2
    case 3 => 6
    case 4 => 24
    case 5 => 120
    case 6 => 720
    case 7 => 5040
    case 8 => 40320
    case 9 => 362880
    case 10 => 3628800
  }

  /** Each cached constant is the factorial of its case label, and fits a 32-bit unsigned long. */
  lemma CachedFactIsFact(k: nat)
    requires 2 <= k <= 10
    ensures CachedFact(k) == Fact(k)
    ensures CachedFact(k) <= 3628800
  {
  }

  /** unsigned long is at least 32 bits wide from four bytes on. */
  lemma UlongAtLeast32(bytes: nat)
    requires 4 <= bytes
    ensures UlongMax(bytes) >= 0xFFFF_FFFF
  {
    Pow2Monotone(32, 8 * bytes);
    Pow2Of32();
  }

  /**
   * factorial_cached: a do-while whose switch multiplies by the cached k!
   * and stops when n is 2..10, stops at once for 0 and 1, and otherwise
   * multiplies by n and steps n down; it gives up on the first overflow.
   * The 10! constant needs an unsigned long of at least 32 bits, which C
   * guarantees.
   */
  method FactorialCached(bytes: nat, n0: nat) returns (r: nat)
    requires 4 <= bytes && n0 <= UlongMax(bytes)
    ensures r == FactOrZero(UlongMax(bytes), n0)
  {
    UlongAtLeast32(bytes);
    var result: nat := 1;
    var overflow := false;
    var n: nat := n0;
    var first := true;
    while first || (n != 0 && !overflow)
      invariant n <= n0 && (first ==> n == n0 && result == 1 && !overflow)
      invariant !overflow ==> result <= UlongMax(bytes) && result * Fact(n) == Fact(n0)
      invariant overflow ==> Fact(n0) > UlongMax(bytes)
      decreases n, if first then 1 else 0
    {
      first := false;
      if n <= 1 {
        n := 0;
      } else if n <= 10 {
        CachedFactIsFact(n);
        SafeMulUlCorrect(bytes, result, CachedFact(n));
        var m := SafeMulUl(bytes, result, CachedFact(n));
        result, overflow := m.product, m.overflowed;
        n := 0;
      } else {
        SafeMulUlCorrect(bytes, result, n);
        FactStep(result, n);
        var m := SafeMulUl(bytes, result, n);
        result, overflow := m.product, m.overflowed;
        n := n - 1;
      }
    }
    r := if overflow then 0 else result;
  }

  /** factorial_safe's limit, chosen by sizeof(unsigned long). */
  function Limit(bytes: nat): nat
  {
    match bytes
    case 1 => 5
    case 2 => 8
    case 4 => 12
    case _ => 20
  }

  /** What factorial_safe returns: 0 above the limit, 1 below 2, and otherwise n! wrapped to the word. */
  function FactorialSafeValue(bytes: nat, n: nat): nat
  {
    if n > Limit(bytes) then 0
    else if n < 2 then 1
    else Fact(n) % Pow2(8 * bytes)
  }

  /** A product taken modulo m can have its left factor reduced first. */
  lemma ModMulLeft(a: nat, b: nat, m: nat)
    requires 0 < m
    ensures ((a % m) * b) % m == (a * b) % m
  {
    var q, r := a / m, a % m;
    assert a * b == (q * b) * m + r * b;
    ModAddMultiple(r * b, q * b, m);
  }

  /** Adding a multiple of m does not change the remainder. */
  lemma ModAddMultiple(x: nat, k: nat, m: nat)
    requires 0 < m
    ensures (k * m + x) % m == x % m
  {
    var y := x % m;
    assert k * m + x == (k + x / m) * m + y;
    ModUnique(k * m + x, k + x / m, y, m);
  }

  /** The remainder is the only value below m that differs from e by a multiple of m. */
  lemma ModUnique(e: nat, c: nat, y: nat, m: nat)
    requires 0 < m && y < m && e == c * m + y
    ensures e % m == y
  {
    var q, r := e / m, e % m;
    assert q * m + r == c * m + y;
    if q > c {
      assert (q - c) * m == y - r;
      MulMono(1, q - c, m);
    } else if q < c {
      assert (c - q) * m == r - y;
      MulMono(1, c - q, m);
    }
  }

  /** One `result *= --n` step keeps result * (n-1)! congruent to n0! modulo the word. */
  lemma WrappedStep(result: nat, n: nat, w: nat, target: nat)
    requires 1 <= n && 0 < w
    requires (result * Fact(n)) % w == target
    ensures (((result * n) % w) * Fact(n - 1)) % w == target
  {
    FactStep(result, n);
    ModMulLeft(result * n, Fact(n - 1), w);
  }

  /**
   * factorial_safe: the do-while `result *= --n` from result = n down to
   * a factor of 1, in unsigned long arithmetic.
   */
  method FactorialSafe(bytes: nat, n0: nat) returns (r: nat)
    requires 1 <= bytes && n0 <= UlongMax(bytes)
    ensures r == FactorialSafeValue(bytes, n0)
  {
    var w := Pow2(8 * bytes);
    if n0 > Limit(bytes) {
      return 0;
    }
    if n0 < 2 {
      return 1;
    }
    var result: nat := n0;
    var n: nat := n0;
    while true
      invariant 2 <= n <= n0 && result < w
      invariant (result * Fact(n - 1)) % w == Fact(n0) % w
      decreases n
    {
      n := n - 1;
      WrappedStep(result, n, w, Fact(n0) % w);
      result := (result * n) % w;
      if n <= 1 {
        break;
      }
    }
    r := result;
  }

  /**
   * For the widths the switch names, the limit is the largest n whose n!
   * fits, so factorial_safe never wraps and answers n! or 0.
   */
  lemma FactorialSafeExact(bytes: nat, n: nat)
    requires bytes == 1 || bytes == 2 || bytes == 4 || bytes == 8
    ensures FactorialSafeValue(bytes, n) == FactOrZero(UlongMax(bytes), n)
  {
    LimitFits(bytes);
    if n > Limit(bytes) {
      FactMonotone(Limit(bytes) + 1, n);
    } else if n >= 2 {
      FactMonotone(n, Limit(bytes));
      ModOnce(Fact(n), Pow2(8 * bytes));
    } else {
      assert Fact(n) == 1;
    }
  }

  /** Limit(bytes)! fits in the word and the next factorial does not. */
  lemma LimitFits(bytes: nat)
    requires bytes == 1 || bytes == 2 || bytes == 4 || bytes == 8
    ensures Fact(Limit(bytes)) <= UlongMax(bytes) < Fact(Limit(bytes) + 1)
  {
    FactBoundaries();
    Pow2Boundaries();
    Pow2Of8();
    assert Fact(6) == 720;
    assert Fact(9) == 362880;
  }

  /**
   * main's self-test: compare factorial_safe and factorial_cached for n in
   * 0..24 and report the first n where they differ.
   */
  method SelfTest(bytes: nat) returns (mismatch: Option<nat>)
    requires bytes == 4 || bytes == 8
    ensures mismatch == None
  {
    UlongAtLeast32(bytes);
    var i: nat := 0;
    while i < 25
      invariant 0 <= i <= 25
    {
      var result1 := FactorialSafe(bytes, i);
      var result2 := FactorialCached(bytes, i);
      FactorialSafeExact(bytes, i);
      if result1 != result2 {
        return Some(i);
      }
      i := i + 1;
    }
    return None;
  }
}
