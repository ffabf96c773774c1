/**
 * c/permute-array-lexicographic.c: the permutation with a given index in
 * lexicographic order. Instead of a swap, each step rotates
 * dest[i..i + choice] one place to the right, so that the chosen element
 * lands at i while the ones it passes keep their order. The factorial is
 * the same wrapping size_t factorial as in c/permute-array.c.
 */
module PermuteArrayLexicographic {
  import opened MathDefs
  import opened PermuteArray

  /** s with s[i + c] moved to position i and s[i..i + c] shifted one place right. */
  function Rotated<T>(s: seq<T>, i: nat, c: nat): (r: seq<T>)
    requires i + c < |s|
    ensures |r| == |s| && r[..i] == s[..i] && r[i] == s[i + c]
  {
    s[..i] + [s[i + c]] + s[i..i + c] + s[i + c + 1..]
  }

  /** Where each element goes: the ones between i and i + c move up one place. */
  lemma RotatedAt<T>(s: seq<T>, i: nat, c: nat)
    requires i + c < |s|
    ensures forall k :: 0 <= k < |s| ==>
      Rotated(s, i, c)[k] == (if k < i || k > i + c then s[k] else if k == i then s[i + c] else s[k - 1])
  {
    var r := Rotated(s, i, c);
    assert forall k :: 0 <= k < i ==> r[k] == s[..i][k];
    assert forall k :: i < k <= i + c ==> r[k] == s[i..i + c][k - i - 1];
    assert forall k :: i + c < k < |s| ==> r[k] == s[i + c + 1..][k - i - c - 1];
  }

  /** A rotation only rearranges. */
  lemma RotatedPermutes<T>(s: seq<T>, i: nat, c: nat)
    requires i + c < |s|
    ensures multiset(Rotated(s, i, c)) == multiset(s)
  {
    assert s == s[..i] + s[i..i + c] + [s[i + c]] + s[i + c + 1..];
    assert Rotated(s, i, c) == s[..i] + [s[i + c]] + s[i..i + c] + s[i + c + 1..];
  }

  /** A rotation by 0 places changes nothing. */
  lemma RotatedZero<T>(s: seq<T>, i: nat)
    requires i < |s|
    ensures Rotated(s, i, 0) == s
  {
    assert s == s[..i] + [s[i]] + s[i + 1..];
  }

  /** The elements from i on are strictly increasing. */
  predicate IncreasingFrom(s: seq<int>, i: nat)
  {
    forall p, q :: i <= p < q < |s| ==> s[p] < s[q]
  }

  /** After the rotation at i the elements after i are still in increasing order. */
  lemma RotatedIncreasing(s: seq<int>, i: nat, c: nat)
    requires i + c < |s| && IncreasingFrom(s, i)
    ensures IncreasingFrom(Rotated(s, i, c), i + 1)
  {
    var r := Rotated(s, i, c);
    RotatedAt(s, i, c);
    forall p, q | i + 1 <= p < q < |s|
      ensures r[p] < r[q]
    {
      var p' := if p <= i + c then p - 1 else p;
      var q' := if q <= i + c then q - 1 else q;
      assert r[p] == s[p'] && r[q] == s[q'] && i <= p' < q';
    }
  }

  /** The rotations for the digits cs, made at positions i, i + 1, ... */
  function LexApply<T>(s: seq<T>, i: nat, cs: seq<nat>): (r: seq<T>)
    requires i + |cs| <= |s| && InRange(cs, |s| - i)
    ensures |r| == |s| && multiset(r) == multiset(s)
    decreases |cs|
  {
    if cs == [] then s
    else
      RotatedPermutes(s, i, cs[0]);
      InRangeTail(cs, |s| - i);
      LexApply(Rotated(s, i, cs[0]), i + 1, cs[1..])
  }

  /**
   * The arrangement the loop of permute leaves in s when it resumes at
   * position i with the remaining index idx: the digits of idx are the
   * choice_idx values, one per position but the last.
   */
  function LexDecode<T>(s: seq<T>, i: nat, idx: nat): (r: seq<T>)
    requires i <= |s| && idx < Fact(|s| - i)
    ensures |r| == |s| && multiset(r) == multiset(s)
  {
    LexApply(s, i, Digits(idx, |s| - i))
  }

  /** The positions before i are never touched. */
  lemma {:induction false} LexApplyKeepsPrefix<T>(s: seq<T>, i: nat, cs: seq<nat>)
    requires i + |cs| <= |s| && InRange(cs, |s| - i)
    ensures LexApply(s, i, cs)[..i] == s[..i]
    decreases |cs|
  {
    if cs != [] {
      var t := Rotated(s, i, cs[0]);
      InRangeTail(cs, |s| - i);
      LexApplyKeepsPrefix(t, i + 1, cs[1..]);
      var r := LexApply(t, i + 1, cs[1..]);
      assert r[..i] == r[..i + 1][..i] == t[..i + 1][..i] == t[..i];
    }
  }

  /** Position i ends up holding the element the first digit selects. */
  lemma LexApplyAt<T>(s: seq<T>, i: nat, cs: seq<nat>)
    requires i + |cs| <= |s| && InRange(cs, |s| - i) && cs != []
    ensures LexApply(s, i, cs)[i] == s[i + cs[0]]
  {
    var t := Rotated(s, i, cs[0]);
    InRangeTail(cs, |s| - i);
    LexApplyKeepsPrefix(t, i + 1, cs[1..]);
    var r := LexApply(t, i + 1, cs[1..]);
    assert r[i] == r[..i + 1][i] == t[..i + 1][i];
  }

  /** Zero digits make no rotation. */
  lemma {:induction false} LexApplyZeros<T>(s: seq<T>, i: nat, cs: seq<nat>)
    requires i + |cs| <= |s| && forall k :: 0 <= k < |cs| ==> cs[k] == 0
    ensures InRange(cs, |s| - i) && LexApply(s, i, cs) == s
    decreases |cs|
  {
    if cs != [] {
      RotatedZero(s, i);
      LexApplyZeros(s, i + 1, cs[1..]);
    }
  }

  /**
   * Once the remaining index is 0 every later choice is 0 as well, so
   * stopping the loop there, as `idx &&` does, gives the same result; in
   * particular index 0 is a plain copy.
   */
  lemma LexDecodeZero<T>(s: seq<T>, i: nat)
    requires i <= |s|
    ensures LexDecode(s, i, 0) == s
  {
    DigitsZero(|s| - i);
    LexApplyZeros(s, i, Digits(0, |s| - i));
  }

  /** One pass of the loop at position i: the rotation, then the index that remains. */
  function LexPass<T>(s: seq<T>, i: nat, idx: nat): (r: (seq<T>, nat))
    requires i + 1 < |s| && idx < Fact(|s| - i)
    ensures |r.0| == |s| && r.1 < Fact(|s| - (i + 1))
  {
    (Rotated(s, i, NextSwap(|s| - i, idx)), idx % Fact(|s| - (i + 1)))
  }

  /** LexDecode is one pass followed by the rest. */
  lemma LexDecodeStep<T>(s: seq<T>, i: nat, idx: nat)
    requires i + 1 < |s| && idx < Fact(|s| - i)
    ensures LexDecode(s, i, idx) == LexDecode(LexPass(s, i, idx).0, i + 1, LexPass(s, i, idx).1)
  {
    var n := |s| - i;
    var cs := Digits(idx, n);
    assert cs == [NextSwap(n, idx)] + Digits(idx % Fact(n - 1), n - 1);
    assert cs[1..] == Digits(idx % Fact(n - 1), n - 1);
  }

  /** The loop of permute at position i with index idx still reaches goal. */
  ghost predicate LexProgress<T>(cur: seq<T>, i: nat, idx: nat, goal: seq<T>)
  {
    i < |cur| && idx < Fact(|cur| - i) && LexDecode(cur, i, idx) == goal
  }

  /** One pass keeps the loop on course. */
  lemma LexProgressStep<T>(cur: seq<T>, i: nat, idx: nat, goal: seq<T>)
    requires LexProgress(cur, i, idx, goal) && i + 1 < |cur|
    ensures LexProgress(LexPass(cur, i, idx).0, i + 1, LexPass(cur, i, idx).1, goal)
  {
    LexDecodeStep(cur, i, idx);
  }

  /** The loop ends at the last position or with index 0, and either way it is done. */
  lemma LexProgressDone<T>(cur: seq<T>, i: nat, idx: nat, goal: seq<T>)
    requires LexProgress(cur, i, idx, goal) && (idx == 0 || i + 1 >= |cur|)
    ensures cur == goal
  {
    if idx == 0 {
      LexDecodeZero(cur, i);
    }
  }

  /**
   * permute: NULL when src or dest is NULL or len is 0; otherwise the
   * copy, returned at once for index 0, then one rotation per position
   * while the remaining index is not 0. The caller passes an index below
   * len! (a larger one moves elements from beyond the array) and a len
   * whose factorials up to (len - 1)! fit in size_t.
   */
  method Permute<T>(permIdx: nat, src: array?<T>, dest: array?<T>, len: nat) returns (r: array?<T>)
    requires src != null && dest != null && len != 0 ==>
      src != dest && len <= src.Length && len <= dest.Length &&
      Fact(len - 1) < SizeMod && permIdx < Fact(len) && permIdx < SizeMod
    modifies dest
    ensures r == null <==> src == null || dest == null || len == 0
    ensures r == null && dest != null ==> dest[..] == old(dest[..])
    ensures r != null ==> src != null && r == dest && dest[len..] == old(dest[len..])
    ensures r != null ==> src != null && dest[..len] == LexDecode(src[..len], 0, permIdx)
  {
    if src == null || dest == null || len == 0 {
      return null;
    }
    Rearrange(permIdx, src, dest, len);
    r := dest;
  }

  /** The body of permute past the NULL checks. */
  method Rearrange<T>(permIdx: nat, src: array<T>, dest: array<T>, len: nat)
    requires src != dest && len <= src.Length && len <= dest.Length
    requires 1 <= len && Fact(len - 1) < SizeMod && permIdx < Fact(len) && permIdx < SizeMod
    modifies dest
    ensures dest[..len] == LexDecode(src[..len], 0, permIdx)
    ensures dest[len..] == old(dest[len..])
  {
    Copy(src, dest, len);
    if permIdx == 0 {
      LexDecodeZero(src[..len], 0);
      return;
    }
    RotateAll(dest, len, permIdx);
  }

  /** The loop of permute: one rotation per position while the remaining index is not 0. */
  method RotateAll<T>(dest: array<T>, len: nat, permIdx: nat)
    requires 1 <= len <= dest.Length && Fact(len - 1) < SizeMod
    requires permIdx < Fact(len) && permIdx < SizeMod
    modifies dest
    ensures dest[..len] == LexDecode(old(dest[..len]), 0, permIdx)
    ensures dest[len..] == old(dest[len..])
  {
    ghost var goal := LexDecode(dest[..len], 0, permIdx);
    var idx: nat := permIdx;
    var i: nat := 0;
    while idx != 0 && i < len - 1
      invariant LexProgress(dest[..len], i, idx, goal)
      invariant dest[len..] == old(dest[len..])
      decreases len - i
    {
      FactMonotone(len - (i + 1), len - 1);
      ghost var cur := dest[..len];
      var rest := RotatePass(dest, len, i, idx);
      LexProgressStep(cur, i, idx, goal);
      idx := rest;
      i := i + 1;
    }
    LexProgressDone(dest[..len], i, idx, goal);
  }

  /** One pass of the loop of permute on dest[..len] at position i. */
  method RotatePass<T>(dest: array<T>, len: nat, i: nat, idx: nat) returns (rest: nat)
    requires len <= dest.Length && i + 1 < len && idx < Fact(len - i)
    requires Fact(len - (i + 1)) < SizeMod
    modifies dest
    ensures dest[..len] == LexPass(old(dest[..len]), i, idx).0
    ensures rest == LexPass(old(dest[..len]), i, idx).1
    ensures dest[len..] == old(dest[len..])
  {
    FactAtLeast(len - (i + 1));
    var numPerms := Factorial(len - (i + 1));
    assert numPerms == Fact(len - (i + 1));
    var choiceIdx := idx / numPerms;
    rest := idx % numPerms;
    assert choiceIdx == NextSwap(len - i, idx);
    if choiceIdx != 0 {
      RotateInPlace(dest, len, i, choiceIdx);
    } else {
      RotatedZero(dest[..len], i);
    }
  }

  /**
   * The body of `if (to != from)`: save dest[i], move dest[i + c] to i,
   * memmove the c - 1 elements after i one place up (skipped when i is
   * len - 2, where c - 1 is 0), and put the saved element at i + 1.
   */
  method RotateInPlace<T>(d: array<T>, len: nat, i: nat, c: nat)
    requires 1 <= c && i + c < len <= d.Length
    modifies d
    ensures d[..len] == Rotated(old(d[..len]), i, c)
    ensures d[len..] == old(d[len..])
  {
    ghost var s := d[..];
    var buf := d[i];
    d[i] := d[i + c];
    ghost var m := d[..];
    if i < len - 2 {
      Memmove(d, i + 2, i + 1, c - 1);
    }
    ghost var m2 := d[..];
    assert forall k :: i + 2 <= k <= i + c ==> m2[k] == m[k - 1];
    d[i + 1] := buf;
    RotateSteps(s, i, c, len, m2, d[..]);
  }

  /** The three steps of the rotation, on the contents of the array. */
  lemma RotateSteps<T>(s: seq<T>, i: nat, c: nat, len: nat, m2: seq<T>, f: seq<T>)
    requires 1 <= c && i + c < len <= |s| && |m2| == |s|
    requires m2[i] == s[i + c]
    requires forall k :: 0 <= k < |s| && k != i && !(i + 2 <= k <= i + c) ==> m2[k] == s[k]
    requires forall k :: i + 2 <= k <= i + c ==> m2[k] == s[k - 1]
    requires f == m2[i + 1 := s[i]]
    ensures f[..len] == Rotated(s[..len], i, c) && f[len..] == s[len..]
  {
    RotatedAt(s[..len], i, c);
    assert f[..len] == Rotated(s[..len], i, c);
    assert f[len..] == s[len..];
  }

  /** memmove of n elements from index from to index to, as if through a temporary. */
  method Memmove<T>(a: array<T>, to: nat, from: nat, n: nat)
    requires from + n <= a.Length && to + n <= a.Length
    modifies a
    ensures forall k :: 0 <= k < a.Length ==>
      a[k] == if to <= k < to + n then old(a[k - to + from]) else old(a[k])
  {
    forall k | to <= k < to + n {
      a[k] := a[k - to + from];
    }
  }

  /** The digits c1 come before c2 in lexicographic order, first differing at j. */
  predicate DigitsBelow(c1: seq<nat>, c2: seq<nat>, j: nat)
  {
    |c1| == |c2| && j < |c1| && c1[..j] == c2[..j] && c1[j] < c2[j]
  }

  /** The arrangement r1 comes before r2 in lexicographic order, first differing at j. */
  predicate LexBelow(r1: seq<int>, r2: seq<int>, j: nat)
  {
    |r1| == |r2| && j < |r1| && r1[..j] == r2[..j] && r1[j] < r2[j]
  }

  /** A smaller index below n! has lexicographically smaller digits. */
  lemma {:induction false} DigitsMonotone(a: nat, b: nat, n: nat) returns (j: nat)
    requires a < b < Fact(n)
    ensures DigitsBelow(Digits(a, n), Digits(b, n), j)
    decreases n
  {
    if n < 2 {
      FactSmall(n);
      assert false;
    }
    var f := Fact(n - 1);
    var da, db := Digits(a, n), Digits(b, n);
    DivMono(a, b, f);
    if NextSwap(n, a) < NextSwap(n, b) {
      j := 0;
    } else {
      RemainderOrder(a, b, f);
      var j' := DigitsMonotone(a % f, b % f, n - 1);
      j := j' + 1;
      assert da == [NextSwap(n, a)] + Digits(a % f, n - 1);
      assert db == [NextSwap(n, b)] + Digits(b % f, n - 1);
      assert da[..j] == [NextSwap(n, a)] + Digits(a % f, n - 1)[..j'];
      assert db[..j] == [NextSwap(n, b)] + Digits(b % f, n - 1)[..j'];
    }
  }

  /** 0! and 1! are 1. */
  lemma FactSmall(n: nat)
    requires n < 2
    ensures Fact(n) == 1
  {
  }

  /** Numbers with the same quotient keep their order in the remainders. */
  lemma RemainderOrder(a: nat, b: nat, f: nat)
    requires f >= 1 && a < b && a / f == b / f
    ensures a % f < b % f
  {
    assert a == (a / f) * f + a % f && b == (b / f) * f + b % f;
  }

  /**
   * For elements in increasing order from i, digits that are smaller in
   * lexicographic order give an arrangement that is smaller in
   * lexicographic order, first differing at a position from i on.
   */
  lemma {:induction false} LexApplyMonotone(s: seq<int>, i: nat, c1: seq<nat>, c2: seq<nat>, j: nat)
    returns (w: nat)
    requires i + |c1| <= |s| && InRange(c1, |s| - i) && InRange(c2, |s| - i)
    requires IncreasingFrom(s, i) && DigitsBelow(c1, c2, j)
    ensures i <= w && LexBelow(LexApply(s, i, c1), LexApply(s, i, c2), w)
    decreases j
  {
    if j == 0 {
      LexApplyKeepsPrefix(s, i, c1);
      LexApplyKeepsPrefix(s, i, c2);
      LexApplyAt(s, i, c1);
      LexApplyAt(s, i, c2);
      w := i;
    } else {
      DigitsBelowTail(c1, c2, j);
      var t := Rotated(s, i, c1[0]);
      LexApplyCons(s, i, c1);
      LexApplyCons(s, i, c2);
      RotatedIncreasing(s, i, c1[0]);
      w := LexApplyMonotone(t, i + 1, c1[1..], c2[1..], j - 1);
    }
  }

  /** Digits that agree before j > 0 agree on the first, and the rest still compare at j - 1. */
  lemma DigitsBelowTail(c1: seq<nat>, c2: seq<nat>, j: nat)
    requires DigitsBelow(c1, c2, j) && j > 0
    ensures c1[0] == c2[0] && DigitsBelow(c1[1..], c2[1..], j - 1)
  {
    assert c1[0] == c1[..j][0] && c2[0] == c2[..j][0];
    assert c1[1..][..j - 1] == c1[..j][1..] && c2[1..][..j - 1] == c2[..j][1..];
  }

  /** LexApply is the first rotation followed by the rest. */
  lemma LexApplyCons<T>(s: seq<T>, i: nat, cs: seq<nat>)
    requires i + |cs| <= |s| && InRange(cs, |s| - i) && cs != []
    ensures InRange(cs[1..], |s| - (i + 1))
    ensures LexApply(s, i, cs) == LexApply(Rotated(s, i, cs[0]), i + 1, cs[1..])
  {
    InRangeTail(cs, |s| - i);
  }

  /**
   * For sorted distinct input, a smaller index gives a lexicographically
   * smaller arrangement, so the indices 0 to n! - 1 list the arrangements
   * in lexicographic order, each once.
   */
  lemma LexOrder(s: seq<int>, a: nat, b: nat) returns (w: nat)
    requires IncreasingFrom(s, 0) && a < b < Fact(|s|)
    ensures LexBelow(LexDecode(s, 0, a), LexDecode(s, 0, b), w)
  {
    var j := DigitsMonotone(a, b, |s|);
    w := LexApplyMonotone(s, 0, Digits(a, |s|), Digits(b, |s|), j);
  }

  /** The arrangements for the indices 0 to count - 1, in that order. */
  function LexListing<T>(s: seq<T>, count: nat): (r: seq<seq<T>>)
    requires count <= Fact(|s|)
    ensures |r| == count
    ensures forall k :: 0 <= k < count ==> r[k] == LexDecode(s, 0, k)
  {
    if count == 0 then [] else LexListing(s, count - 1) + [LexDecode(s, 0, count - 1)]
  }

  /**
   * main, with the length and the permutation number as parameters and
   * print_ints as the list of arrays it shows. Length 0 shows [] alone.
   * Otherwise the source ints are shown, then, for a negative number,
   * permute(i, ...) for every i below factorial(len) (wrapped at 2^64, as
   * in c/permute-array.c), or else the one permutation asked for. The
   * number asked for must be below len!, as nothing checks it.
   * Allocation failure is not modelled.
   */
  method Run(len: nat, permutationNumber: int) returns (exitCode: int, shown: seq<seq<int>>)
    requires len <= 21 && permutationNumber < 0x8000_0000
    requires len > 0 && permutationNumber >= 0 ==> permutationNumber < Fact(len)
    ensures exitCode == 0
    ensures len == 0 ==> shown == [[]]
    ensures len > 0 && permutationNumber < 0 ==>
      shown == [Iota(len)] + LexListing(Iota(len), Visited(len))
    ensures len > 0 && permutationNumber >= 0 ==>
      shown == [Iota(len), LexDecode(Iota(len), 0, permutationNumber)]
  {
    if len == 0 {
      return 0, [[]];
    }
    var ints := new int[len](k => k);
    var permuted := new int[len];
    assert ints[..] == Iota(len);
    RunBounds(len);
    if permutationNumber < 0 {
      var total := Factorial(len);
      var listed := LexShowAll(ints, permuted, len, total);
      shown := [ints[..]] + listed;
    } else {
      var one := LexShowNext(permutationNumber, ints, permuted, len);
      shown := [ints[..], one];
    }
    exitCode := 0;
  }

  /** The loop of main: permute and print_ints for every index below total. */
  method LexShowAll(ints: array<int>, permuted: array<int>, len: nat, total: nat)
    returns (listed: seq<seq<int>>)
    requires ints != permuted && ints.Length == len == permuted.Length && ints[..] == Iota(len)
    requires 1 <= len && Fact(len - 1) < SizeMod && total <= Fact(len) && total <= SizeMod
    modifies permuted
    ensures listed == LexListing(Iota(len), total)
  {
    listed := [];
    var i: nat := 0;
    while i < total
      invariant i <= total
      invariant listed == LexListing(Iota(len), i)
    {
      var next := LexShowNext(i, ints, permuted, len);
      listed := listed + [next];
      i := i + 1;
    }
  }

  /** One permute(i, ints, permuted, ...) and what print_ints shows. */
  method LexShowNext(i: nat, ints: array<int>, permuted: array<int>, len: nat) returns (next: seq<int>)
    requires ints != permuted && ints.Length == len == permuted.Length && ints[..] == Iota(len)
    requires 1 <= len && Fact(len - 1) < SizeMod && i < Fact(len) && i < SizeMod
    modifies permuted
    ensures next == LexDecode(Iota(len), 0, i)
  {
    assert ints[..len] == ints[..];
    var r := Permute(i, ints, permuted, len);
    next := permuted[..len];
  }

  /** The indices main walks through show the arrangements in increasing order. */
  lemma RunInOrder(len: nat, a: nat, b: nat) returns (w: nat)
    requires a < b < Fact(len)
    ensures LexBelow(LexDecode(Iota(len), 0, a), LexDecode(Iota(len), 0, b), w)
  {
    w := LexOrder(Iota(len), a, b);
  }
}
