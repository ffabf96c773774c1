/**
 * c/n-choose-k.c: the binomial coefficient C(n, k) in unsigned long
 * arithmetic, built up as C(n-k+1, 1), C(n-k+2, 2), ..., C(n, k), where each
 * step multiplies by n-k+i and divides by i; an overflowing multiply sets
 * the error flag and the result to 0.
 *
 * The width of unsigned long is the parameter `bits`, and `gnuc` says
 * whether the overflow check is __builtin_umull_overflow or the
 * hand-written poor_diy_umull_overflow. The int *error out-parameter is an
 * out-parameter here; a NULL pointer only means the caller does not look
 * at it.
 */
module NChooseK {
  import opened MathDefs
  import opened Wrappers

  function UlongMax(bits: nat): nat
  {
    Pow2(bits) - 1
  }

  /** The overflow flag and what *res holds afterwards (None: left unwritten). */
  datatype UMull = UMull(overflow: bool, res: Option<nat>)

  /** poor_diy_umull_overflow: multiply with wrap-around, then check by dividing back. */
  function PoorDiyUmullOverflow(bits: nat, a: nat, b: nat): (r: UMull)
    ensures r.overflow <==> r.res.None?
    ensures r.res.Some? ==> r.res.value <= UlongMax(bits) && (a == 0 || r.res.value / a == b)
  {
    var c := (a * b) % Pow2(bits);
    if a != 0 && c / a != b then UMull(true, None) else UMull(false, Some(c))
  }

  /** __builtin_umull_overflow: the exact check, with *res always given the wrapped product. */
  function BuiltinUmullOverflow(bits: nat, a: nat, b: nat): (r: UMull)
    ensures r.res.Some? && r.res.value <= UlongMax(bits)
    ensures !r.overflow ==> r.res.value == a * b
  {
    var product := a * b;
    StoredProduct(product, Pow2(bits));
    UMull(product > UlongMax(bits), Some(product % Pow2(bits)))
  }

  /** A product reduced modulo the word fits, and one that already fit is unchanged. */
  lemma StoredProduct(x: nat, w: nat)
    requires 0 < w
    ensures x % w < w && (x < w ==> x % w == x)
  {
  }

  function UmullOverflow(gnuc: bool, bits: nat, a: nat, b: nat): UMull
  {
    if gnuc then BuiltinUmullOverflow(bits, a, b) else PoorDiyUmullOverflow(bits, a, b)
  }

  /** A product below the modulus is its own remainder. */
  lemma SmallMod(x: nat, m: nat)
    requires x < m
    ensures x % m == x
  {
  }

  /** If c / a == b then c is at least a * b. */
  lemma DivBack(c: nat, a: nat, b: nat)
    requires a != 0 && c / a == b
    ensures a * b <= c
  {
    assert c == (c / a) * a + c % a;
  }

  /**
   * Dividing the wrapped product back by a recovers b exactly when nothing
   * wrapped: the check flags overflow iff a * b exceeds ULONG_MAX, and
   * otherwise writes the exact product.
   */
  lemma PoorDiyExact(bits: nat, a: nat, b: nat)
    ensures PoorDiyUmullOverflow(bits, a, b).overflow <==> a * b > UlongMax(bits)
    ensures !PoorDiyUmullOverflow(bits, a, b).overflow ==> PoorDiyUmullOverflow(bits, a, b).res == Some(a * b)
    ensures PoorDiyUmullOverflow(bits, a, b).overflow ==> PoorDiyUmullOverflow(bits, a, b).res == None
  {
    var m := Pow2(bits);
    var c := (a * b) % m;
    if a * b < m {
      SmallMod(a * b, m);
      if a != 0 {
        DivMul(a, b);
      }
    } else if a != 0 && c / a == b {
      DivBack(c, a, b);
    }
  }

  /** Either check flags overflow exactly when a * b exceeds ULONG_MAX, and otherwise holds the product. */
  lemma UmullOverflowExact(gnuc: bool, bits: nat, a: nat, b: nat)
    ensures UmullOverflow(gnuc, bits, a, b).overflow <==> a * b > UlongMax(bits)
    ensures !UmullOverflow(gnuc, bits, a, b).overflow ==> UmullOverflow(gnuc, bits, a, b).res == Some(a * b)
  {
    if gnuc {
      if a * b <= UlongMax(bits) {
        SmallMod(a * b, Pow2(bits));
      }
    } else {
      PoorDiyExact(bits, a, b);
    }
  }

  /** The absorption identity: j * C(m, j) == m * C(m-1, j-1). */
  lemma {:induction false} Absorption(m: nat, j: nat)
    requires 1 <= m && 1 <= j
    ensures j * Choose(m, j) == m * Choose(m - 1, j - 1)
  {
    if j == 1 {
      ChooseOne(m);
    } else if m == 1 {
      ChooseAbove(0, j - 1);
      ChooseAbove(0, j);
    } else {
      Absorption(m - 1, j);
      Absorption(m - 1, j - 1);
      assert Choose(m - 1, j - 1) == Choose(m - 2, j - 2) + Choose(m - 2, j - 1);
      AbsorptionStep(m, j, Choose(m - 2, j - 2), Choose(m - 2, j - 1), Choose(m - 1, j));
    }
  }

  /** The arithmetic of one Pascal step of the absorption identity, on abstract values. */
  lemma AbsorptionStep(m: nat, j: nat, a: nat, b: nat, c: nat)
    requires 2 <= m && 2 <= j
    requires j * c == (m - 1) * b && (j - 1) * (a + b) == (m - 1) * a
    ensures j * ((a + b) + c) == m * (a + b)
  {
    calc {
      j * ((a + b) + c);
      j * (a + b) + j * c;
      (a + b) + (j - 1) * (a + b) + (m - 1) * b;
      (a + b) + (m - 1) * a + (m - 1) * b;
      m * (a + b);
    }
  }

  /** C(d + j, j) grows with j. */
  lemma ChooseDiagonalGrows(d: nat, j: nat)
    ensures Choose(d + j, j) <= Choose(d + j + 1, j + 1)
  {
  }

  /** One step along the diagonal: j * C(d+j, j) <= (j+1) * C(d+j+1, j+1). */
  lemma StepProductStep(d: nat, j: nat)
    ensures j * Choose(d + j, j) <= (j + 1) * Choose(d + j + 1, j + 1)
  {
    var c0, c1 := Choose(d + j, j), Choose(d + j + 1, j + 1);
    ChooseDiagonalGrows(d, j);
    MulMono(j, j + 1, c0);
    MulMono(c0, c1, j + 1);
    assert c0 * (j + 1) == (j + 1) * c0 && c1 * (j + 1) == (j + 1) * c1;
  }

  /** The product checked at step j, j * C(n-k+j, j), grows with j. */
  lemma {:induction false} StepProductMonotone(d: nat, j1: nat, j2: nat)
    requires j1 <= j2
    ensures j1 * Choose(d + j1, j1) <= j2 * Choose(d + j2, j2)
    decreases j2 - j1
  {
    if j1 < j2 {
      StepProductMonotone(d, j1 + 1, j2);
      StepProductStep(d, j1);
    }
  }

  /**
   * One pass of the loop: multiplying C(d+i-1, i-1) by d+i overflows
   * exactly when i * C(d+i, i) does, and otherwise dividing by i gives
   * C(d+i, i).
   */
  lemma ChooseStep(gnuc: bool, bits: nat, d: nat, i: nat, result: nat)
    requires 1 <= i && result == Choose(d + i - 1, i - 1)
    ensures UmullOverflow(gnuc, bits, result, d + i).overflow <==> i * Choose(d + i, i) > UlongMax(bits)
    ensures !UmullOverflow(gnuc, bits, result, d + i).overflow ==>
      UmullOverflow(gnuc, bits, result, d + i).res.Some? &&
      UmullOverflow(gnuc, bits, result, d + i).res.value / i == Choose(d + i, i) &&
      Choose(d + i, i) <= i * Choose(d + i, i) <= UlongMax(bits)
  {
    Absorption(d + i, i);
    assert result * (d + i) == i * Choose(d + i, i);
    UmullOverflowExact(gnuc, bits, result, d + i);
    DivMul(i, Choose(d + i, i));
    MulMono(1, i, Choose(d + i, i));
  }

  /**
   * n_choose_k: the early answers for k > n, k == 0, k == n and k == 1,
   * then the loop. It reports an error exactly when the last checked
   * product, k * C(n, k), exceeds ULONG_MAX (every earlier product is
   * smaller), and otherwise returns C(n, k).
   */
  method NChooseK(gnuc: bool, bits: nat, n: nat, k: nat) returns (r: nat, error: bool)
    requires n <= UlongMax(bits) && k <= UlongMax(bits)
    ensures error <==> k <= n && k * Choose(n, k) > UlongMax(bits)
    ensures error ==> r == 0
    ensures !error ==> r == Choose(n, k)
  {
    error := false;
    if k > n {
      ChooseAbove(n, k);
      return 0, error;
    }
    if k == 0 || k == n {
      ChooseAll(n);
      return 1, error;
    }
    if k == 1 {
      ChooseOne(n);
      return n, error;
    }
    var d := n - k;
    var result: nat := 1;
    var i := 1;
    while !error && i <= k
      invariant 1 <= i <= k + 1
      invariant !error ==> result == Choose(d + i - 1, i - 1) && (i - 1) * Choose(d + i - 1, i - 1) <= UlongMax(bits)
      invariant !error ==> result <= UlongMax(bits)
      invariant error ==> result == 0 && k * Choose(n, k) > UlongMax(bits)
    {
      var temp1 := n - (k - i);
      var m := UmullOverflow(gnuc, bits, result, temp1);
      ChooseStep(gnuc, bits, d, i, result);
      if m.overflow {
        StepProductMonotone(d, i, k);
        error := true;
        result := 0;
      } else {
        result := m.res.value / i;
      }
      i := i + 1;
    }
    r := result;
  }
}
