/**
 * c/permute-array.c: the permutation with a given index, built by copying
 * the source array and then making one swap per position.
 *
 * Elements are opaque values of type T (the source moves elem_size bytes
 * through a scratch buffer; here an element moves as a whole). size_t is
 * 64 bits wide, and the factorial wraps modulo 2^64 as the C code does.
 */
module PermuteArray {
  import opened MathDefs

  /** 2^64: size_t arithmetic is modulo this. */
  const SizeMod: nat := 0x1_0000_0000_0000_0000

  /** s with the elements at i and j exchanged (the same s when i == j). */
  function Swapped<T>(s: seq<T>, i: nat, j: nat): (r: seq<T>)
    requires i < |s| && j < |s|
    ensures |r| == |s| && r[i] == s[j] && r[j] == s[i]
    ensures forall k :: 0 <= k < |s| && k != i && k != j ==> r[k] == s[k]
  {
    s[i := s[j]][j := s[i]]
  }

  /** A swap only rearranges. */
  lemma SwappedPermutes<T>(s: seq<T>, i: nat, j: nat)
    requires i < |s| && j < |s|
    ensures multiset(Swapped(s, i, j)) == multiset(s)
  {
  }

  /** Swapping twice restores the sequence. */
  lemma SwappedTwice<T>(s: seq<T>, i: nat, j: nat)
    requires i < |s| && j < |s|
    ensures Swapped(Swapped(s, i, j), i, j) == s
  {
    var t := Swapped(Swapped(s, i, j), i, j);
    assert forall k :: 0 <= k < |s| ==> t[k] == s[k];
  }

  /** Swapping inside a prefix commutes with taking that prefix. */
  lemma SwappedPrefix<T>(s: seq<T>, i: nat, j: nat, n: nat)
    requires i < n && j < n && n <= |s|
    ensures Swapped(s, i, j)[..n] == Swapped(s[..n], i, j)
    ensures Swapped(s, i, j)[n..] == s[n..]
  {
    var t := Swapped(s, i, j);
    assert forall k :: 0 <= k < n ==> t[..n][k] == Swapped(s[..n], i, j)[k];
    assert forall k :: 0 <= k < |s| - n ==> t[n..][k] == s[n..][k];
  }

  /** swap: exchanges a[i] and a[j] through a one-element buffer. */
  method Swap<T>(a: array<T>, i: nat, j: nat)
    requires i < a.Length && j < a.Length
    modifies a
    ensures a[..] == Swapped(old(a[..]), i, j)
  {
    var buf := a[j];
    a[j] := a[i];
    a[i] := buf;
  }

  /** m * (m + 1) * ... * n, or 1 when m > n. */
  function Falling(n: nat, m: nat): nat
    decreases n + 1 - m
  {
    if m > n then 1 else m * Falling(n, m + 1)
  }

  /** n! is the falling product down to m times (m - 1)!. */
  lemma {:induction false} FallingFact(n: nat, m: nat)
    requires 1 <= m <= n + 1
    ensures Falling(n, m) * Fact(m - 1) == Fact(n)
    decreases n + 1 - m
  {
    if m <= n {
      FallingFact(n, m + 1);
      var above, below := Falling(n, m + 1), Fact(m - 1);
      assert Falling(n, m) == m * above && Fact(m) == m * below;
      MulRegroup(m, above, below);
    }
  }

  /**
   * factorial: result starts at n and is multiplied by n - 1, n - 2, ...,
   * 1 in a do-while loop, every product wrapping at 2^64; n < 2 gives 1.
   */
  method Factorial(n: nat) returns (r: nat)
    requires n < SizeMod
    ensures r == Fact(n) % SizeMod
  {
    if n < 2 {
      return 1;
    }
    var m: nat := n;
    r := n;
    assert Falling(n, n + 1) == 1;
    assert r == Falling(n, m) % SizeMod;
    m := m - 1;
    ModMul(Falling(n, m + 1), m, SizeMod);
    r := (r * m) % SizeMod;
    while m > 1
      invariant 1 <= m < n
      invariant r == Falling(n, m) % SizeMod
      decreases m
    {
      m := m - 1;
      ModMul(Falling(n, m + 1), m, SizeMod);
      r := (r * m) % SizeMod;
    }
    FallingFact(n, 1);
  }

  /** Up to 20!, the factorial fits in size_t, so factorial is exact. */
  lemma FactorialExact(n: nat)
    requires n <= 20
    ensures Fact(n) < SizeMod && Fact(n) % SizeMod == Fact(n)
  {
    FactBoundaries();
    FactMonotone(n, 20);
  }

  /** 21! does not fit: factorial(21) returns it reduced modulo 2^64. */
  lemma FactorialWrapsAt21()
    ensures Fact(21) % SizeMod == 14197454024290336768 < Fact(21)
  {
    FactBoundaries();
  }

  /**
   * next_swap with n elements left from the current position: the
   * remaining index divided by (n - 1)!. An index below n! keeps it below
   * n, so the swap it selects is in bounds.
   */
  function NextSwap(n: nat, sub: nat): (r: nat)
    requires 2 <= n && sub < Fact(n)
    ensures r < n && r * Fact(n - 1) <= sub
  {
    DivBelow(sub, n, Fact(n - 1));
    DivFloor(sub, Fact(n - 1));
    sub / Fact(n - 1)
  }

  /**
   * Every next_swap the loop computes from index sub with n elements to
   * place, first position first: one for each position but the last.
   */
  function Digits(sub: nat, n: nat): (cs: seq<nat>)
    requires sub < Fact(n)
    ensures |cs| == if n == 0 then 0 else n - 1
    ensures InRange(cs, n)
    decreases n
  {
    if n <= 1 then []
    else [NextSwap(n, sub)] + Digits(sub % Fact(n - 1), n - 1)
  }

  /** Digit k leaves room for the positions already placed. */
  predicate InRange(cs: seq<nat>, n: nat)
  {
    forall k :: 0 <= k < |cs| ==> k + cs[k] < n
  }

  /** The digits after the first leave room for the positions after the first. */
  lemma InRangeTail(cs: seq<nat>, n: nat)
    requires InRange(cs, n) && cs != [] && n >= 1
    ensures InRange(cs[1..], n - 1)
  {
    assert forall k :: 0 <= k < |cs| - 1 ==> cs[1..][k] == cs[k + 1];
  }

  /** The swap into place i, skipped when next_swap is 0. */
  function Place<T>(s: seq<T>, i: nat, c: nat): (r: seq<T>)
    requires i + c < |s|
    ensures |r| == |s| && r[..i] == s[..i] && r[i] == s[i + c]
  {
    if c != 0 then
      var t := Swapped(s, i, i + c);
      assert forall k :: 0 <= k < i ==> t[k] == s[k];
      assert t[..i] == s[..i];
      t
    else s
  }

  lemma PlacePermutes<T>(s: seq<T>, i: nat, c: nat)
    requires i + c < |s|
    ensures multiset(Place(s, i, c)) == multiset(s)
  {
    SwappedPermutes(s, i, i + c);
  }

  lemma PlaceDistinct<T>(s: seq<T>, i: nat, c: nat)
    requires i + c < |s| && Distinct(s)
    ensures Distinct(Place(s, i, c))
  {
    if c != 0 {
      SwappedDistinct(s, i, i + c);
    }
  }

  /** The swaps for the digits cs, made at positions i, i + 1, ... */
  function Apply<T>(s: seq<T>, i: nat, cs: seq<nat>): (r: seq<T>)
    requires i + |cs| <= |s| && InRange(cs, |s| - i)
    ensures |r| == |s| && multiset(r) == multiset(s)
    decreases |cs|
  {
    if cs == [] then s
    else
      PlacePermutes(s, i, cs[0]);
      InRangeTail(cs, |s| - i);
      Apply(Place(s, i, cs[0]), i + 1, cs[1..])
  }

  /**
   * The arrangement the loop of permute leaves in s when it resumes at
   * position i with the remaining index sub. The loop stops before the
   * last position, as `i < len - 1` does.
   */
  function Decode<T>(s: seq<T>, i: nat, sub: nat): (r: seq<T>)
    requires i <= |s| && sub < Fact(|s| - i)
    ensures |r| == |s| && multiset(r) == multiset(s)
  {
    Apply(s, i, Digits(sub, |s| - i))
  }

  /** One pass of the loop at position i: the swap, then the index that remains. */
  function Pass<T>(s: seq<T>, i: nat, sub: nat): (r: (seq<T>, nat))
    requires i + 1 < |s| && sub < Fact(|s| - i)
    ensures |r.0| == |s| && r.1 < Fact(|s| - (i + 1))
  {
    (Place(s, i, NextSwap(|s| - i, sub)), sub % Fact(|s| - (i + 1)))
  }

  /** Decode is one pass followed by the rest. */
  lemma DecodeStep<T>(s: seq<T>, i: nat, sub: nat)
    requires i + 1 < |s| && sub < Fact(|s| - i)
    ensures Decode(s, i, sub) == Decode(Pass(s, i, sub).0, i + 1, Pass(s, i, sub).1)
  {
    var n := |s| - i;
    var cs := Digits(sub, n);
    assert cs == [NextSwap(n, sub)] + Digits(sub % Fact(n - 1), n - 1);
    assert cs[1..] == Digits(sub % Fact(n - 1), n - 1);
  }

  /** The positions before i are never touched. */
  lemma {:induction false} ApplyKeepsPrefix<T>(s: seq<T>, i: nat, cs: seq<nat>)
    requires i + |cs| <= |s| && InRange(cs, |s| - i)
    ensures Apply(s, i, cs)[..i] == s[..i]
    decreases |cs|
  {
    if cs != [] {
      var t := Place(s, i, cs[0]);
      InRangeTail(cs, |s| - i);
      ApplyKeepsPrefix(t, i + 1, cs[1..]);
      var r := Apply(t, i + 1, cs[1..]);
      assert r[..i] == r[..i + 1][..i] == t[..i + 1][..i] == t[..i];
    }
  }

  /** Position i ends up holding the element the first digit selects. */
  lemma ApplyAt<T>(s: seq<T>, i: nat, cs: seq<nat>)
    requires i + |cs| <= |s| && InRange(cs, |s| - i) && cs != []
    ensures Apply(s, i, cs)[i] == s[i + cs[0]]
  {
    var t := Place(s, i, cs[0]);
    InRangeTail(cs, |s| - i);
    ApplyKeepsPrefix(t, i + 1, cs[1..]);
    var r := Apply(t, i + 1, cs[1..]);
    assert r[i] == r[..i + 1][i] == t[..i + 1][i];
  }

  /** Different digits rearrange distinct elements differently. */
  lemma {:induction false} ApplyInjective<T>(s: seq<T>, i: nat, c1: seq<nat>, c2: seq<nat>)
    requires i + |c1| <= |s| && InRange(c1, |s| - i) && InRange(c2, |s| - i)
    requires |c1| == |c2| && c1 != c2 && Distinct(s)
    ensures Apply(s, i, c1) != Apply(s, i, c2)
    decreases |c1|
  {
    if c1[0] != c2[0] {
      ApplyAt(s, i, c1);
      ApplyAt(s, i, c2);
    } else {
      ApplySameFirst(s, i, c1, c2);
    }
  }

  /** Digits that agree on the first swap differ later on. */
  lemma {:induction false} ApplySameFirst<T>(s: seq<T>, i: nat, c1: seq<nat>, c2: seq<nat>)
    requires i + |c1| <= |s| && InRange(c1, |s| - i) && InRange(c2, |s| - i)
    requires |c1| == |c2| && c1 != c2 && Distinct(s) && c1[0] == c2[0]
    ensures Apply(s, i, c1) != Apply(s, i, c2)
    decreases |c1|, 0
  {
    var t := Place(s, i, c1[0]);
    var d1, d2 := c1[1..], c2[1..];
    assert c1 == [c1[0]] + d1 && c2 == [c2[0]] + d2;
    InRangeTail(c1, |s| - i);
    InRangeTail(c2, |s| - i);
    PlaceDistinct(s, i, c1[0]);
    ApplyInjective(t, i + 1, d1, d2);
    assert Apply(s, i, c1) == Apply(t, i + 1, d1);
    assert Apply(s, i, c2) == Apply(t, i + 1, d2);
  }

  /** Different indices below n! have different digits. */
  lemma {:induction false} DigitsInjective(a: nat, b: nat, n: nat)
    requires a < Fact(n) && b < Fact(n) && a != b
    ensures Digits(a, n) != Digits(b, n)
    decreases n
  {
    if n >= 2 {
      var f := Fact(n - 1);
      if NextSwap(n, a) == NextSwap(n, b) {
        SameQuotient(a, b, f);
        DigitsInjective(a % f, b % f, n - 1);
        assert Digits(a, n)[1..] == Digits(a % f, n - 1);
        assert Digits(b, n)[1..] == Digits(b % f, n - 1);
      } else {
        assert Digits(a, n)[0] != Digits(b, n)[0];
      }
    }
  }

  /** Index 0 has only zero digits. */
  lemma {:induction false} DigitsZero(n: nat)
    ensures forall k :: 0 <= k < |Digits(0, n)| ==> Digits(0, n)[k] == 0
    decreases n
  {
    if n >= 2 {
      DigitsZero(n - 1);
      assert Digits(0, n) == [0] + Digits(0, n - 1);
    }
  }

  /** Zero digits make no swap. */
  lemma {:induction false} ApplyZeros<T>(s: seq<T>, i: nat, cs: seq<nat>)
    requires i + |cs| <= |s| && forall k :: 0 <= k < |cs| ==> cs[k] == 0
    ensures InRange(cs, |s| - i) && Apply(s, i, cs) == s
    decreases |cs|
  {
    if cs != [] {
      ApplyZeros(s, i + 1, cs[1..]);
    }
  }

  /** Index 0 makes every next_swap 0: the result is the source itself. */
  lemma DecodeZero<T>(s: seq<T>, i: nat)
    requires i <= |s|
    ensures Decode(s, i, 0) == s
  {
    DigitsZero(|s| - i);
    ApplyZeros(s, i, Digits(0, |s| - i));
  }

  /** The positions before i are never touched. */
  lemma DecodeKeepsPrefix<T>(s: seq<T>, i: nat, sub: nat)
    requires i <= |s| && sub < Fact(|s| - i)
    ensures Decode(s, i, sub)[..i] == s[..i]
  {
    ApplyKeepsPrefix(s, i, Digits(sub, |s| - i));
  }

  /** The elements of s are pairwise different. */
  predicate Distinct<T(==)>(s: seq<T>)
  {
    forall j, k :: 0 <= j < k < |s| ==> s[j] != s[k]
  }

  lemma SwappedDistinct<T>(s: seq<T>, i: nat, j: nat)
    requires i < |s| && j < |s| && Distinct(s)
    ensures Distinct(Swapped(s, i, j))
  {
    var t := Swapped(s, i, j);
    forall p, q | 0 <= p < q < |t|
      ensures t[p] != t[q]
    {
      var p' := if p == i then j else if p == j then i else p;
      var q' := if q == i then j else if q == j then i else q;
      assert t[p] == s[p'] && t[q] == s[q'] && p' != q';
    }
  }

  /** Distinct indices give distinct arrangements of distinct elements. */
  lemma DecodeInjective<T>(s: seq<T>, i: nat, a: nat, b: nat)
    requires i <= |s| && a < Fact(|s| - i) && b < Fact(|s| - i)
    requires Distinct(s) && a != b
    ensures Decode(s, i, a) != Decode(s, i, b)
  {
    DigitsInjective(a, b, |s| - i);
    ApplyInjective(s, i, Digits(a, |s| - i), Digits(b, |s| - i));
  }

  /**
   * permute: copies len elements of src into dest, then swaps dest[i]
   * with dest[i + next_swap] for i from 0 to len - 2. The caller passes
   * len >= 1 (len - 1 would wrap otherwise), an index below len! (larger
   * indices swap outside the array) and a len whose factorials up to
   * (len - 1)! fit in size_t.
   */
  method Permute<T>(permutation: nat, src: array<T>, dest: array<T>, len: nat)
    requires src != dest && len <= src.Length && len <= dest.Length
    requires 1 <= len && Fact(len - 1) < SizeMod
    requires permutation < Fact(len) && permutation < SizeMod
    modifies dest
    ensures dest[..len] == Decode(src[..len], 0, permutation)
    ensures dest[len..] == old(dest[len..])
  {
    ghost var goal := Decode(src[..len], 0, permutation);
    Copy(src, dest, len);
    var sub: nat := permutation;
    var i: nat := 0;
    while i < len - 1
      invariant Progress(dest[..len], i, sub, goal)
      invariant dest[len..] == old(dest[len..])
    {
      FactMonotone(len - (i + 1), len - 1);
      ghost var cur := dest[..len];
      var rest := PermutePass(dest, len, i, sub);
      ProgressStep(cur, i, sub, goal);
      sub := rest;
      i := i + 1;
    }
    ProgressDone(dest[..len], i, sub, goal);
  }

  /** memcpy of len elements between two different arrays. */
  method Copy<T>(src: array<T>, dest: array<T>, len: nat)
    requires src != dest && len <= src.Length && len <= dest.Length
    modifies dest
    ensures dest[..len] == src[..len] && dest[len..] == old(dest[len..])
  {
    forall k | 0 <= k < len {
      dest[k] := src[k];
    }
  }

  /** At the last position nothing is left to do. */
  lemma ProgressDone<T>(cur: seq<T>, i: nat, sub: nat, goal: seq<T>)
    requires Progress(cur, i, sub, goal) && i + 1 >= |cur|
    ensures cur == goal
  {
  }

  /** The loop of permute at position i with index sub still reaches goal. */
  ghost predicate Progress<T>(cur: seq<T>, i: nat, sub: nat, goal: seq<T>)
  {
    i < |cur| && sub < Fact(|cur| - i) && Decode(cur, i, sub) == goal
  }

  /** One pass keeps the loop on course. */
  lemma ProgressStep<T>(cur: seq<T>, i: nat, sub: nat, goal: seq<T>)
    requires Progress(cur, i, sub, goal) && i + 1 < |cur|
    ensures Progress(Pass(cur, i, sub).0, i + 1, Pass(cur, i, sub).1, goal)
  {
    DecodeStep(cur, i, sub);
  }

  /** One pass of the loop of permute on dest[..len] at position i. */
  method PermutePass<T>(dest: array<T>, len: nat, i: nat, sub: nat) returns (rest: nat)
    requires len <= dest.Length && i + 1 < len && sub < Fact(len - i)
    requires Fact(len - (i + 1)) < SizeMod
    modifies dest
    ensures dest[..len] == Pass(old(dest[..len]), i, sub).0
    ensures rest == Pass(old(dest[..len]), i, sub).1
    ensures dest[len..] == old(dest[len..])
  {
    FactAtLeast(len - (i + 1));
    var nSubPerms := Factorial(len - (i + 1));
    assert nSubPerms == Fact(len - (i + 1));
    var nextSwap := sub / nSubPerms;
    rest := sub % nSubPerms;
    assert nextSwap == NextSwap(len - i, sub);
    if nextSwap != 0 {
      SwappedPrefix(dest[..], i, i + nextSwap, len);
      Swap(dest, i, i + nextSwap);
    }
  }

  /** The permutation's result, as a property of src: a rearrangement. */
  lemma PermuteRearranges<T>(s: seq<T>, permutation: nat)
    requires permutation < Fact(|s|)
    ensures multiset(Decode(s, 0, permutation)) == multiset(s)
    ensures permutation == 0 ==> Decode(s, 0, permutation) == s
  {
    if permutation == 0 {
      DecodeZero(s, 0);
    }
  }

  /** 0, 1, ..., n - 1: the ints main fills in. */
  function Iota(n: nat): (r: seq<int>)
    ensures |r| == n && Distinct(r)
    ensures forall k :: 0 <= k < n ==> r[k] == k
  {
    seq(n, k => k)
  }

  /** The arrangements for the indices 0 to count - 1, in that order. */
  function Listing<T>(s: seq<T>, count: nat): (r: seq<seq<T>>)
    requires count <= Fact(|s|)
    ensures |r| == count
    ensures forall k :: 0 <= k < count ==> r[k] == Decode(s, 0, k)
  {
    if count == 0 then [] else Listing(s, count - 1) + [Decode(s, 0, count - 1)]
  }

  /** A listing of distinct elements never shows an arrangement twice. */
  lemma ListingDistinct<T>(s: seq<T>, count: nat)
    requires count <= Fact(|s|) && Distinct(s)
    ensures Distinct(Listing(s, count))
  {
    var l := Listing(s, count);
    forall a, b | 0 <= a < b < count
      ensures l[a] != l[b]
    {
      DecodeInjective(s, 0, a, b);
    }
  }

  /**
   * main, with the length as a parameter and print_ints as the list of
   * arrays it shows: the source ints once, then permute(i, ...) for every
   * i below factorial(len). Length 0 shows [] alone. Up to 20 the loop
   * visits every index below len!; at 21 the wrapped factorial is its
   * bound; from 22 on, permute itself would divide by wrapped factorials.
   * Allocation failure is not modelled.
   */
  method Run(len: nat) returns (exitCode: int, shown: seq<seq<int>>)
    requires len <= 21
    ensures exitCode == 0
    ensures len == 0 ==> shown == [[]]
    ensures len > 0 ==> shown == [Iota(len)] + Listing(Iota(len), Visited(len))
  {
    if len == 0 {
      return 0, [[]];
    }
    var ints := new int[len](k => k);
    var permuted := new int[len];
    assert ints[..] == Iota(len);
    RunBounds(len);
    var total := Factorial(len);
    var listed := ShowAll(ints, permuted, len, total);
    shown := [ints[..]] + listed;
    exitCode := 0;
  }

  /** How many indices main's loop visits: factorial(len), wrapped at 2^64. */
  function Visited(len: nat): (c: nat)
    ensures c <= Fact(len)
  {
    Fact(len) % SizeMod
  }

  /** Up to length 20 main visits every index below len!. */
  lemma VisitedAll(len: nat)
    requires len <= 20
    ensures Visited(len) == Fact(len)
  {
    FactorialExact(len);
  }

  /** At length 21 main stops after 21! mod 2^64 of the 21! arrangements. */
  lemma VisitedShortAt21()
    ensures Visited(21) == 14197454024290336768 < Fact(21)
  {
    FactorialWrapsAt21();
  }

  /** The loop of main: permute and print_ints for every index below total. */
  method ShowAll(ints: array<int>, permuted: array<int>, len: nat, total: nat) returns (listed: seq<seq<int>>)
    requires ints != permuted && ints.Length == len == permuted.Length && ints[..] == Iota(len)
    requires 1 <= len && Fact(len - 1) < SizeMod && total <= Fact(len) && total <= SizeMod
    modifies permuted
    ensures listed == Listing(Iota(len), total)
  {
    listed := [];
    var i: nat := 0;
    while i < total
      invariant i <= total
      invariant listed == Listing(Iota(len), i)
    {
      var next := ShowNext(i, ints, permuted, len);
      ListingNext(Iota(len), i);
      listed := listed + [next];
      i := i + 1;
    }
  }

  /** One turn of main's loop: permute(i, ints, permuted, ...) and what print_ints shows. */
  method ShowNext(i: nat, ints: array<int>, permuted: array<int>, len: nat) returns (next: seq<int>)
    requires ints != permuted && ints.Length == len == permuted.Length && ints[..] == Iota(len)
    requires 1 <= len && Fact(len - 1) < SizeMod && i < Fact(len) && i < SizeMod
    modifies permuted
    ensures next == Decode(Iota(len), 0, i)
  {
    assert ints[..len] == ints[..];
    Permute(i, ints, permuted, len);
    next := permuted[..len];
  }

  /** The sizes main relies on for 1 <= len <= 21. */
  lemma RunBounds(len: nat)
    requires 1 <= len <= 21
    ensures Fact(len - 1) < SizeMod && len < SizeMod
  {
    FactorialExact(len - 1);
  }

  /** Listing one more index appends its arrangement. */
  lemma ListingNext<T>(s: seq<T>, count: nat)
    requires count < Fact(|s|)
    ensures Listing(s, count + 1) == Listing(s, count) + [Decode(s, 0, count)]
  {
  }

  /** The indices main walks through show pairwise different arrangements. */
  lemma RunShowsDistinct(len: nat)
    requires len <= 20
    ensures Distinct(Listing(Iota(len), Fact(len)))
  {
    ListingDistinct(Iota(len), Fact(len));
  }
}
