/**
 * c/swap-em.c: exchanging two pointer variables, once through a
 * temporary and once with three exclusive-ors on their intptr_t values.
 * A pointer variable is a Slot: a location that holds an address. An
 * address is its 64-bit pattern, read as an unsigned number, and `^` on
 * it is the bitwise exclusive or of the 64 bits.
 */
module SwapEm {
  import opened MathDefs

  type Addr = x: nat | x < 0x1_0000_0000_0000_0000

  /** `a ^ b` on the intptr_t bit patterns. */
  function Xor(a: Addr, b: Addr): Addr
  {
    Pow2Of64();
    XorBits(a, b, 64)
  }

  /** A `char *` variable: a location whose content the swaps overwrite. */
  class Slot {
    var ptr: Addr

    constructor (p: Addr)
      ensures ptr == p
    {
      ptr := p;
    }
  }

  /** standard_swap: through a temporary; also right when both name one location. */
  method StandardSwap(left: Slot, right: Slot)
    modifies left, right
    ensures left.ptr == old(right.ptr) && right.ptr == old(left.ptr)
  {
    var tmp := left.ptr;
    left.ptr := right.ptr;
    right.ptr := tmp;
  }

  /**
   * xor_swap. With two distinct locations the values are exchanged; when
   * both arguments name the same location the first exclusive-or clears
   * it and it stays 0 (the source does not guard against this).
   */
  method XorSwap(left: Slot, right: Slot)
    modifies left, right
    ensures left != right ==> left.ptr == old(right.ptr) && right.ptr == old(left.ptr)
    ensures left == right ==> left.ptr == 0
  {
    ghost var l, r := left.ptr, right.ptr;
    left.ptr := Xor(left.ptr, right.ptr);
    right.ptr := Xor(left.ptr, right.ptr);
    left.ptr := Xor(left.ptr, right.ptr);
    if left == right {
      XorSelf(l);
      XorSelf(0);
    } else {
      XorCancels(l, r);
    }
  }

  /** x ^ x == 0. */
  lemma XorSelf(x: Addr)
    ensures Xor(x, x) == 0
  {
    XorBitsSelf(x, 64);
  }

  /** The three exclusive-ors on two values: the second yields l, the third r. */
  lemma XorCancels(l: Addr, r: Addr)
    ensures Xor(Xor(l, r), r) == l
    ensures Xor(Xor(l, r), l) == r
  {
    Pow2Of64();
    XorBitsCancel(l, r, 64);
    XorBitsSymmetric(l, r, 64);
    XorBitsCancel(r, l, 64);
  }

  /**
   * The demonstration in main: a standard swap and then an xor swap of two
   * distinct variables leave both as they started.
   */
  method SwapThereAndBack(a: Slot, b: Slot)
    requires a != b
    modifies a, b
    ensures a.ptr == old(a.ptr) && b.ptr == old(b.ptr)
  {
    StandardSwap(a, b);
    XorSwap(a, b);
  }
}
