/**
 * The overflow-checked multiply shared by c/factorial_size_t.c
 * (_diy_safe_mul_size_t) and c/cached_factorial.c (safe_mul_ul): split
 * both operands of a word of 2 * half bits into high and low halves,
 * multiply the halves, and flag overflow from the partial products.
 *
 * Words are naturals below 2^(2 * half); a C `*` or `+` on them wraps
 * modulo that, and is written out with `%`. `x >> half` is x / 2^half and
 * `x & halfsize_max` is x % 2^half.
 */
module SafeMul {
  import opened MathDefs

  /** a * b for two halves stays below h * h. */
  lemma MulBelow(a: nat, b: nat, h: nat)
    requires a < h && b < h
    ensures 0 <= a * b <= (h - 1) * (h - 1) < h * h
  {
    MulMono(b, h - 1, a);
    MulMono(a, h - 1, h - 1);
    MulMono(h - 1, h, h - 1);
    MulMono(h - 1, h, h);
  }

  /** A word splits into its high and low halves. */
  lemma Split(x: nat, h: nat)
    requires 0 < h && x < h * h
    ensures x == (x / h) * h + x % h
    ensures x / h < h
  {
    if x / h >= h {
      MulMono(h, x / h, h);
    }
  }

  /** If both operands reach h, the product reaches h * h. */
  lemma BothHigh(lhs: nat, rhs: nat, h: nat)
    requires h <= lhs && h <= rhs
    ensures lhs * rhs >= h * h
  {
    MulMono(h, lhs, rhs);
    MulMono(h, rhs, h);
  }

  /** A value below w is its own remainder; one between w and 2w loses w. */
  lemma ModOnce(x: nat, w: nat)
    requires 0 < w && x < 2 * w
    ensures x < w ==> x % w == x
    ensures w <= x ==> x % w == x - w
  {
    if w <= x {
      assert x == 1 * w + (x - w);
    }
  }

  /** Where mid * h lands against w = h * h, on each side of the halfsize_max check. */
  lemma ShiftFacts(mid: nat, h: nat)
    requires 1 <= h
    ensures mid > h - 1 ==> mid * h >= h * h
    ensures mid <= h - 1 ==> mid * h <= h * h - h
  {
    if mid > h - 1 {
      MulMono(h, mid, h);
    } else {
      MulMono(mid, h - 1, h);
    }
  }

  /** Adding s (already below w) to low wraps exactly when the true sum reaches w, and the wrap shows as a smaller result. */
  lemma WrapCheck(low: nat, s: nat, w: nat)
    requires low < w && s < w
    ensures ((low + s % w) % w < low) <==> low + s >= w
    ensures (low + s % w) % w >= low ==> (low + s % w) % w == low + s
  {
    ModOnce(s, w);
    ModOnce(low + s, w);
  }

  /** A value below h has no high half. */
  lemma DivSmall(x: nat, h: nat)
    requires x < h
    ensures x / h == 0
  {
    assert x == 0 * h + x;
  }

  lemma Expand(hi: nat, lo: nat, other: nat, h: nat)
    ensures (hi * h + lo) * other == (hi * other) * h + lo * other
  {
  }

  /** The result of the multiply: the overflow flag and the stored product. */
  datatype Mul = Mul(overflowed: bool, product: nat)

  /** The split-halves multiply on a word of 2 * half bits, step for step. */
  function HalvesMul(half: nat, lhs: nat, rhs: nat): (r: Mul)
    requires 1 <= half
    ensures r.product < WordModulus(half)
  {
    var h := Pow2(half);
    var w := h * h;
    var halfsizeMax := h - 1;
    var lhsHi, lhsLo := lhs / h, lhs % h;
    var rhsHi, rhsLo := rhs / h, rhs % h;
    var lowbits := lhsLo * rhsLo;
    if lhsHi == 0 && rhsHi == 0 then
      ProductBelow(lhsLo, rhsLo, h);
      Mul(false, lowbits)
    else
      var overflowed := lhsHi != 0 && rhsHi != 0;
      var midbits1 := lhsLo * rhsHi;
      var midbits2 := lhsHi * rhsLo;
      var midbits := (midbits1 + midbits2) % w;
      var overflowed' := overflowed || midbits < midbits1 || midbits > halfsizeMax;
      var product := (lowbits + (midbits * h) % w) % w;
      Mul(overflowed' || product < lowbits, product)
  }

  /** Two half-words multiply to less than a word. */
  lemma ProductBelow(a: nat, b: nat, h: nat)
    requires a < h && b < h
    ensures a * b < h * h
  {
    MulMono(a, h, b);
    MulMono(b, h, h);
  }

  /** The word size: 2^(2 * half). */
  function WordModulus(half: nat): nat
  {
    Pow2(half) * Pow2(half)
  }

  /**
   * The multiply flags overflow exactly when the true product does not
   * fit in the word, and otherwise stores the exact product.
   */
  lemma HalvesMulCorrect(half: nat, lhs: nat, rhs: nat)
    requires 1 <= half
    requires lhs < WordModulus(half) && rhs < WordModulus(half)
    ensures HalvesMul(half, lhs, rhs).overflowed <==> lhs * rhs >= WordModulus(half)
    ensures !HalvesMul(half, lhs, rhs).overflowed ==> HalvesMul(half, lhs, rhs).product == lhs * rhs
  {
    var h := Pow2(half);
    Split(lhs, h);
    Split(rhs, h);
    var lhsHi, lhsLo := lhs / h, lhs % h;
    var rhsHi, rhsLo := rhs / h, rhs % h;
    MulBelow(lhsLo, rhsLo, h);
    HighHalf(lhs, h);
    HighHalf(rhs, h);
    if lhsHi == 0 && rhsHi == 0 {
    } else if lhsHi != 0 && rhsHi != 0 {
      BothHigh(lhs, rhs, h);
    } else if rhsHi == 0 {
      OneSided(half, lhs, rhs);
    } else {
      OneSidedRight(half, lhs, rhs);
    }
  }

  /**
   * The one-sided case on abstract partial products: with total = mid * h + low,
   * the halfsize_max check and the wrap check together flag exactly a total
   * that reaches w = h * h, and otherwise the stored product is the total.
   */
  lemma OneSidedCore(h: nat, mid: nat, low: nat, total: nat)
    requires 1 <= h && mid < h * h && low < h * h && total == mid * h + low
    ensures (mid > h - 1 || (low + (mid * h) % (h * h)) % (h * h) < low) <==> total >= h * h
    ensures !(mid > h - 1 || (low + (mid * h) % (h * h)) % (h * h) < low) ==> (low + (mid * h) % (h * h)) % (h * h) == total
  {
    ShiftFacts(mid, h);
    if mid <= h - 1 {
      WrapCheck(low, mid * h, h * h);
    }
  }

  /** A word has no high half exactly when it is below h. */
  lemma HighHalf(x: nat, h: nat)
    requires 0 < h
    ensures x / h == 0 <==> x < h
  {
    if x < h {
      DivSmall(x, h);
    }
  }

  /** The same on a word of `bits` bits (an even count), with the word modulus written as 2^bits. */
  lemma HalvesMulExact(bits: nat, lhs: nat, rhs: nat)
    requires 2 <= bits && bits % 2 == 0
    requires lhs < Pow2(bits) && rhs < Pow2(bits)
    ensures HalvesMul(bits / 2, lhs, rhs).overflowed <==> lhs * rhs >= Pow2(bits)
    ensures !HalvesMul(bits / 2, lhs, rhs).overflowed ==> HalvesMul(bits / 2, lhs, rhs).product == lhs * rhs
  {
    var half := bits / 2;
    Pow2Add(half, half);
    assert half + half == bits;
    HalvesMulCorrect(half, lhs, rhs);
  }

  /** Only lhs has a high half. */
  lemma OneSided(half: nat, lhs: nat, rhs: nat)
    requires 1 <= half
    requires lhs < WordModulus(half) && rhs < Pow2(half) <= lhs
    ensures HalvesMul(half, lhs, rhs).overflowed <==> lhs * rhs >= WordModulus(half)
    ensures !HalvesMul(half, lhs, rhs).overflowed ==> HalvesMul(half, lhs, rhs).product == lhs * rhs
  {
    OneSidedSplit(Pow2(half), lhs, rhs);
    OneSidedShape(half, lhs, rhs);
  }

  /** The one-sided checks on the partial products of lhs = hi * h + lo and rhs < h. */
  lemma OneSidedSplit(h: nat, lhs: nat, rhs: nat)
    requires 1 <= h && lhs < h * h && rhs < h
    ensures var mid, low := (lhs / h) * rhs, (lhs % h) * rhs;
            var product := (low + (mid * h) % (h * h)) % (h * h);
            ((mid > h - 1 || product < low) <==> lhs * rhs >= h * h) &&
            (!(mid > h - 1 || product < low) ==> product == lhs * rhs)
  {
    Split(lhs, h);
    MulBelow(lhs / h, rhs, h);
    MulBelow(lhs % h, rhs, h);
    Expand(lhs / h, lhs % h, rhs, h);
    OneSidedCore(h, (lhs / h) * rhs, (lhs % h) * rhs, lhs * rhs);
  }

  /**
   * With only lhs above h, the multiply reduces to one middle product
   * hi * rhs and one low product lo * rhs.
   */
  lemma OneSidedShape(half: nat, lhs: nat, rhs: nat)
    requires 1 <= half
    requires lhs < WordModulus(half) && rhs < Pow2(half) <= lhs
    ensures var h := Pow2(half);
            var mid, low := (lhs / h) * rhs, (lhs % h) * rhs;
            var product := (low + (mid * h) % (h * h)) % (h * h);
            HalvesMul(half, lhs, rhs) == Mul(mid > h - 1 || product < low, product)
  {
    var h := Pow2(half);
    ModOnce(rhs, h);
    DivSmall(rhs, h);
    HighHalf(lhs, h);
    Split(lhs, h);
    var hi, lo := lhs / h, lhs % h;
    MulBelow(hi, rhs, h);
    assert lo * 0 == 0;
    ModOnce(hi * rhs, h * h);
  }

  /** Only rhs has a high half: the mirror of OneSided. */
  lemma OneSidedRight(half: nat, lhs: nat, rhs: nat)
    requires 1 <= half
    requires rhs < WordModulus(half) && lhs < Pow2(half) <= rhs
    ensures HalvesMul(half, lhs, rhs).overflowed <==> lhs * rhs >= WordModulus(half)
    ensures !HalvesMul(half, lhs, rhs).overflowed ==> HalvesMul(half, lhs, rhs).product == lhs * rhs
  {
    MirrorOneSided(half, lhs, rhs);
    OneSided(half, rhs, lhs);
    assert lhs * rhs == rhs * lhs;
  }

  /** With only one operand above h, swapping the operands changes neither flag nor product. */
  lemma MirrorOneSided(half: nat, lhs: nat, rhs: nat)
    requires 1 <= half
    requires rhs < WordModulus(half) && lhs < Pow2(half) <= rhs
    ensures HalvesMul(half, lhs, rhs) == HalvesMul(half, rhs, lhs)
  {
    var h := Pow2(half);
    ModOnce(lhs, h);
    DivSmall(lhs, h);
    HighHalf(rhs, h);
    Split(rhs, h);
    var hi, lo := rhs / h, rhs % h;
    MulBelow(lhs, hi, h);
    ModOnce(lhs * hi, h * h);
    assert lhs * lo == lo * lhs && lhs * hi == hi * lhs;
    assert 0 * lo == 0 && hi * 0 == 0;
  }
}
