/**
 * c/permute-array-swap.c: the same index-to-swaps permute as
 * c/permute-array.c, with the overflow-checked factorial_size_t (inlined
 * from c/factorial_size_t.c) in place of the wrapping factorial, and a
 * main that refuses a length whose factorial does not fit in size_t.
 * The platform's widths are a parameter, as for factorial_size_t; the
 * inlined factorial_size_t is the one as written, so the model keeps to
 * platforms whose size_t holds every ulfactorials entry (TableFits).
 */
module PermuteArraySwap {
  import opened MathDefs
  import opened FactorialSizeT
  import opened PermuteArray

  /**
   * permute: copy, then for i from 0 to len - 2 swap dest[i] with
   * dest[i + next_swap], where n_sub_perms = factorial_size_t(len - 1 - i).
   * The caller keeps (len - 1)! within size_t, so no n_sub_perms is 0.
   */
  method Permute<T>(p: Platform, permutation: nat, src: array<T>, dest: array<T>, len: nat)
    requires p.Valid() && TableFits(p) && src != dest && len <= src.Length && len <= dest.Length
    requires 1 <= len && Fact(len - 1) <= p.SizeMax()
    requires permutation < Fact(len) && permutation <= p.SizeMax()
    modifies dest
    ensures dest[..len] == Decode(src[..len], 0, permutation)
    ensures dest[len..] == old(dest[len..])
  {
    ghost var goal := Decode(src[..len], 0, permutation);
    ghost var max := p.SizeMax();
    Copy(src, dest, len);
    var sub: nat := permutation;
    var i: nat := 0;
    while i < len - 1
      invariant Progress(dest[..len], i, sub, goal)
      invariant dest[len..] == old(dest[len..])
      invariant max == p.SizeMax()
    {
      ghost var cur := dest[..len];
      SubFactFits(max, len, i);
      var rest := SwapPass(p, dest, len, i, sub);
      ProgressStep(cur, i, sub, goal);
      sub := rest;
      i := i + 1;
    }
    ProgressDone(dest[..len], i, sub, goal);
  }

  /** Every n_sub_perms the loop asks for fits once (len - 1)! does. */
  lemma SubFactFits(max: nat, len: nat, i: nat)
    requires i + 1 < len && Fact(len - 1) <= max
    ensures Fact(len - (i + 1)) <= max
  {
    FactMonotone(len - (i + 1), len - 1);
  }

  /** One pass of the loop, with n_sub_perms from factorial_size_t. */
  method SwapPass<T>(p: Platform, dest: array<T>, len: nat, i: nat, sub: nat) returns (rest: nat)
    requires p.Valid() && TableFits(p) && len <= dest.Length && i + 1 < len && sub < Fact(len - i)
    requires Fact(len - (i + 1)) <= p.SizeMax()
    modifies dest
    ensures dest[..len] == Pass(old(dest[..len]), i, sub).0
    ensures rest == Pass(old(dest[..len]), i, sub).1
    ensures dest[len..] == old(dest[len..])
  {
    ghost var s0 := dest[..len];
    assert |s0| == len;
    var nSubPerms := SubPerms(p, len - (i + 1));
    var nextSwap := sub / nSubPerms;
    rest := sub % nSubPerms;
    assert nextSwap == NextSwap(len - i, sub);
    if nextSwap != 0 {
      SwappedPrefix(dest[..], i, i + nextSwap, len);
      Swap(dest, i, i + nextSwap);
    }
  }

  /** factorial_size_t for a count whose factorial fits: the exact factorial, never 0. */
  method SubPerms(p: Platform, m: nat) returns (f: nat)
    requires p.Valid() && TableFits(p) && Fact(m) <= p.SizeMax()
    ensures f == Fact(m) && f >= 1
  {
    FactAtLeast(m);
    AsWrittenExact(p, m);
    f := FactorialSizeTAsWritten(p, m);
  }

  /**
   * main, with the length as a parameter and print_ints as the list of
   * arrays it shows. Length 0 shows [] and succeeds; a length whose
   * factorial does not fit in size_t fails with exit code 1 before
   * anything is shown; otherwise the source ints are shown, then every
   * one of the len! arrangements. Allocation failure is not modelled.
   */
  method Run(p: Platform, len: nat) returns (exitCode: int, shown: seq<seq<int>>)
    requires p.Valid() && TableFits(p) && len <= p.SizeMax()
    ensures len == 0 ==> exitCode == 0 && shown == [[]]
    ensures len > 0 && Fact(len) > p.SizeMax() ==> exitCode == 1 && shown == []
    ensures len > 0 && Fact(len) <= p.SizeMax() ==>
      exitCode == 0 && shown == [Iota(len)] + Listing(Iota(len), Fact(len))
  {
    if len == 0 {
      return 0, [[]];
    }
    AsWrittenExact(p, len);
    var total := FactorialSizeTAsWritten(p, len);
    if total == 0 {
      return 1, [];
    }
    var ints := new int[len](k => k);
    var permuted := new int[len];
    assert ints[..] == Iota(len);
    FactMonotone(len - 1, len);
    var listed := ShowAll(p, ints, permuted, len, total);
    shown := [ints[..]] + listed;
    exitCode := 0;
  }

  /** The loop of main: permute and print_ints for every index below total. */
  method ShowAll(p: Platform, ints: array<int>, permuted: array<int>, len: nat, total: nat)
    returns (listed: seq<seq<int>>)
    requires p.Valid() && TableFits(p) && ints != permuted && ints.Length == len == permuted.Length
    requires ints[..] == Iota(len) && 1 <= len && Fact(len - 1) <= p.SizeMax()
    requires total <= Fact(len) && total <= p.SizeMax() + 1
    modifies permuted
    ensures listed == Listing(Iota(len), total)
  {
    listed := [];
    var i: nat := 0;
    while i < total
      invariant i <= total
      invariant listed == Listing(Iota(len), i)
    {
      var next := ShowNext(p, i, ints, permuted, len);
      ListingNext(Iota(len), i);
      listed := listed + [next];
      i := i + 1;
    }
  }

  /** One turn of main's loop: permute(i, ints, permuted, ...) and what print_ints shows. */
  method ShowNext(p: Platform, i: nat, ints: array<int>, permuted: array<int>, len: nat) returns (next: seq<int>)
    requires p.Valid() && TableFits(p) && ints != permuted && ints.Length == len == permuted.Length
    requires ints[..] == Iota(len) && 1 <= len && Fact(len - 1) <= p.SizeMax()
    requires i < Fact(len) && i <= p.SizeMax()
    modifies permuted
    ensures next == Decode(Iota(len), 0, i)
  {
    assert ints[..len] == ints[..];
    Permute(p, i, ints, permuted, len);
    next := permuted[..len];
  }

  /**
   * The guard in main: where size_t holds the table, factorial_size_t(len)
   * as written is 0 exactly when len! does not fit in size_t, so every
   * accepted length lists len! pairwise different arrangements.
   */
  lemma GuardRejectsOverflow(p: Platform, len: nat)
    requires p.Valid() && TableFits(p) && 1 <= len <= p.SizeMax()
    ensures AsWrittenValue(p, len) == 0 <==> Fact(len) > p.SizeMax()
    ensures AsWrittenValue(p, len) != 0 ==> Distinct(Listing(Iota(len), Fact(len)))
  {
    AsWrittenExact(p, len);
    FactAtLeast(len);
    if Fact(len) <= p.SizeMax() {
      ListingDistinct(Iota(len), Fact(len));
    }
  }

  /**
   * Where size_t does not hold the table, the guard lets a too-large
   * length through: with a 16-bit size_t and a 32-bit unsigned long,
   * factorial_size_t(9) as written is 35200, not 0, although 9! = 362880
   * exceeds SIZE_MAX, so main goes on to list 35200 arrangements.
   */
  lemma GuardPassesOnNarrowSizeT()
    ensures var p := Platform(16, 32, true);
      p.Valid() && !TableFits(p) && Fact(9) > p.SizeMax() && AsWrittenValue(p, 9) == 35200
  {
    NarrowSizeTTruncates();
  }
}
