/**
 * c/choose-k-from-n.c: stepping through the k-element subsets of 0..n-1 in
 * lexicographic order. A subset is held as its k indices in increasing
 * order; choose_k_from_n advances them in place to the next subset and
 * answers 0 once the last one, n-k .. n-1, has been passed. The file also
 * grows an int array with add_val and renders chosen values as
 * "[v0, v1, ...]" with ints_idxs_to_string.
 */
module ChooseKFromN {
  import opened MathDefs
  import opened Wrappers
  import Decimal

  /** start, start+1, ..., start+len-1 */
  function Run(start: nat, len: nat): (r: seq<nat>)
    ensures |r| == len
  {
    seq(len, j requires 0 <= j < len => start + j)
  }

  /** c is strictly increasing, with every index in lo .. n-1. */
  predicate IsCombFrom(c: seq<nat>, lo: nat, n: nat)
  {
    c == [] || (lo <= c[0] < n && IsCombFrom(c[1..], c[0] + 1, n))
  }

  /** Lexicographic order on index lists of the same length. */
  predicate LexLess(a: seq<nat>, b: seq<nat>)
    requires |a| == |b|
  {
    |a| > 0 && (a[0] < b[0] || (a[0] == b[0] && LexLess(a[1..], b[1..])))
  }

  /**
   * The next subset: bump the rightmost index that can still move (c[i] <
   * n - k + i) and restart the indices after it just above it; None when
   * no index can move.
   */
  function Successor(c: seq<nat>, n: nat): (r: Option<seq<nat>>)
    ensures r.Some? ==> |r.value| == |c|
  {
    if c == [] then None
    else match Successor(c[1..], n)
      case Some(t) => Some([c[0]] + t)
      case None => if c[0] + |c| < n then Some(Run(c[0] + 1, |c|)) else None
  }

  /** The k-element subsets of lo .. n-1 in lexicographic order (Pascal's split on whether lo is in). */
  function All(k: nat, lo: nat, n: nat): seq<seq<nat>>
    decreases k, n - lo
  {
    if k == 0 then [[]]
    else if lo + k > n then []
    else Prepend(lo, All(k - 1, lo + 1, n)) + All(k, lo + 1, n)
  }

  /** Pascal's split of a non-empty list. */
  lemma AllSplit(k: nat, lo: nat, n: nat)
    requires 0 < k && lo + k <= n
    ensures All(k, lo, n) == Prepend(lo, All(k - 1, lo + 1, n)) + All(k, lo + 1, n)
  {
  }

  function Prepend(v: nat, xs: seq<seq<nat>>): (r: seq<seq<nat>>)
    ensures |r| == |xs|
  {
    seq(|xs|, j requires 0 <= j < |xs| => [v] + xs[j])
  }

  /** The first index of a subset is at least lo and leaves room for the other |c| - 1 below n. */
  lemma {:induction false} CombHeadBound(c: seq<nat>, lo: nat, n: nat)
    requires IsCombFrom(c, lo, n) && |c| > 0
    ensures lo <= c[0] && c[0] + |c| <= n
    decreases |c|
  {
    if |c| > 1 {
      CombHeadBound(c[1..], c[0] + 1, n);
    }
  }

  /** A run of consecutive indices that ends below n is a subset. */
  lemma {:induction false} RunIsComb(lo: nat, k: nat, n: nat)
    requires lo + k <= n
    ensures IsCombFrom(Run(lo, k), lo, n)
    decreases k
  {
    if k > 0 {
      RunIsComb(lo + 1, k - 1, n);
      assert Run(lo, k)[1..] == Run(lo + 1, k - 1);
    }
  }

  /** A subset of lo .. n-1 is still a subset of any smaller lower bound. */
  lemma CombLower(c: seq<nat>, lo: nat, lo': nat, n: nat)
    requires IsCombFrom(c, lo, n) && lo' <= lo
    ensures IsCombFrom(c, lo', n)
  {
  }

  /** When the last index that can move is i, the successor keeps c[..i] and counts up from c[i] + 1. */
  lemma {:induction false} SuccessorAt(c: seq<nat>, n: nat, i: nat)
    requires i < |c| && c[i] + |c| - i < n
    requires forall j :: i < j < |c| ==> c[j] + |c| - j >= n
    ensures Successor(c, n) == Some(c[..i] + Run(c[i] + 1, |c| - i))
    decreases i
  {
    var t := c[1..];
    if i == 0 {
      forall j | 0 <= j < |t|
        ensures t[j] + |t| - j >= n
      {
        assert t[j] == c[j + 1];
      }
      SuccessorNone(t, n);
      assert c[..0] + Run(c[0] + 1, |c|) == Run(c[0] + 1, |c|);
    } else {
      forall j | i - 1 < j < |t|
        ensures t[j] + |t| - j >= n
      {
        assert t[j] == c[j + 1];
      }
      SuccessorAt(t, n, i - 1);
      assert [c[0]] + (t[..i - 1] + Run(t[i - 1] + 1, |t| - (i - 1))) == c[..i] + Run(c[i] + 1, |c| - i);
    }
  }

  /** When no index can move, there is no successor. */
  lemma {:induction false} SuccessorNone(c: seq<nat>, n: nat)
    requires forall j :: 0 <= j < |c| ==> c[j] + |c| - j >= n
    ensures Successor(c, n) == None
    decreases |c|
  {
    if c != [] {
      var t := c[1..];
      forall j | 0 <= j < |t|
        ensures t[j] + |t| - j >= n
      {
        assert t[j] == c[j + 1];
      }
      SuccessorNone(t, n);
    }
  }

  /** The successor of a subset is again a subset of the same size, and its first index never drops. */
  lemma {:induction false} SuccessorIsComb(c: seq<nat>, lo: nat, n: nat)
    requires IsCombFrom(c, lo, n) && Successor(c, n).Some?
    ensures IsCombFrom(Successor(c, n).value, lo, n)
    ensures c[0] <= Successor(c, n).value[0]
    decreases |c|
  {
    var t := c[1..];
    match Successor(t, n)
    case Some(t') =>
      SuccessorIsComb(t, c[0] + 1, n);
      assert ([c[0]] + t')[1..] == t';
    case None =>
      RunIsComb(c[0] + 1, |c|, n);
      CombLower(Run(c[0] + 1, |c|), c[0] + 1, lo, n);
  }

  /** The successor is lexicographically greater. */
  lemma {:induction false} SuccessorGreater(c: seq<nat>, n: nat)
    requires Successor(c, n).Some?
    ensures LexLess(c, Successor(c, n).value)
    decreases |c|
  {
    var t := c[1..];
    match Successor(t, n)
    case Some(t') =>
      SuccessorGreater(t, n);
      assert ([c[0]] + t')[1..] == t';
    case None =>
  }

  /** The subset with no successor is not below any other subset of the same size. */
  lemma {:induction false} LastIsMax(t: seq<nat>, u: seq<nat>, lo: nat, n: nat)
    requires IsCombFrom(t, lo, n) && IsCombFrom(u, lo, n) && |t| == |u|
    requires Successor(t, n) == None
    ensures !LexLess(t, u)
    decreases |t|
  {
    if t != [] {
      CombHeadBound(u, lo, n);
      if t[0] == u[0] {
        LastIsMax(t[1..], u[1..], t[0] + 1, n);
      }
    }
  }

  /** A run starting at lo is the lexicographically least subset of lo .. n-1 of its size. */
  lemma {:induction false} RunIsLeast(u: seq<nat>, lo: nat, n: nat)
    requires IsCombFrom(u, lo, n)
    ensures u == Run(lo, |u|) || LexLess(Run(lo, |u|), u)
    decreases |u|
  {
    if u != [] && u[0] == lo {
      RunIsLeast(u[1..], lo + 1, n);
      assert Run(lo, |u|)[1..] == Run(lo + 1, |u| - 1);
      if u[1..] == Run(lo + 1, |u| - 1) {
        assert u == [lo] + u[1..];
      }
    }
  }

  /**
   * The successor is the NEXT subset: no subset of the same size lies
   * strictly between c and it.
   */
  lemma {:induction false} SuccessorIsNext(c: seq<nat>, e: seq<nat>, lo: nat, n: nat)
    requires IsCombFrom(c, lo, n) && IsCombFrom(e, lo, n) && |c| == |e|
    requires LexLess(c, e) && Successor(c, n).Some?
    ensures Successor(c, n).value == e || LexLess(Successor(c, n).value, e)
    decreases |c|
  {
    var t, u := c[1..], e[1..];
    var d := Successor(c, n).value;
    match Successor(t, n)
    case Some(t') =>
      assert d[1..] == t';
      if e[0] == c[0] {
        SuccessorIsNext(t, u, c[0] + 1, n);
        if t' == u {
          assert d == [c[0]] + u && e == [e[0]] + u;
        }
      }
    case None =>
      if e[0] == c[0] {
        LastIsMax(t, u, c[0] + 1, n);
      } else if e[0] == c[0] + 1 {
        RunIsLeast(u, c[0] + 2, n);
        assert d[1..] == Run(c[0] + 2, |c| - 1);
        if u == Run(c[0] + 2, |c| - 1) {
          assert d == [e[0]] + u && e == [e[0]] + u;
        }
      }
  }

  /** A subset of size k has no successor exactly when it is the last one, n-k .. n-1. */
  lemma {:induction false} LastCombination(c: seq<nat>, lo: nat, n: nat)
    requires IsCombFrom(c, lo, n) && |c| <= n
    ensures Successor(c, n) == None <==> c == Run(n - |c|, |c|)
    decreases |c|
  {
    if c != [] {
      var t := c[1..];
      CombHeadBound(c, lo, n);
      LastCombination(t, c[0] + 1, n);
      assert Run(n - |c|, |c|)[1..] == Run(n - |t|, |t|);
      if c == Run(n - |c|, |c|) {
        assert t == Run(n - |t|, |t|);
      }
      if Successor(c, n) == None {
        assert c == [c[0]] + Run(n - |t|, |t|);
      }
    }
  }

  /** Indices that agree with c below i and count up from c[i] + 1 after it. */
  lemma Refilled(c: seq<nat>, r: seq<nat>, i: nat)
    requires i < |c| == |r|
    requires forall m :: 0 <= m < i ==> r[m] == c[m]
    requires forall m :: i <= m < |r| ==> r[m] == c[i] + 1 + (m - i)
    ensures r == c[..i] + Run(c[i] + 1, |c| - i)
  {
  }

  /**
   * choose_k_from_n: bump the last index, walk left while the bumped index
   * has reached its ceiling n-k+1+i, answer 0 if even idxs[0] went past
   * n-k, and otherwise refill the indices to the right of the one that
   * moved. On 0 every index 0..k-1 has been bumped once.
   */
  method ChooseKFromN(idxs: array<nat>, k: nat, n: nat) returns (more: bool)
    requires 1 <= k <= n && k <= idxs.Length
    requires IsCombFrom(idxs[..k], 0, n)
    modifies idxs
    ensures more <==> Successor(old(idxs[..k]), n).Some?
    ensures more ==> idxs[..k] == Successor(old(idxs[..k]), n).value
    ensures !more ==> forall j :: 0 <= j < k ==> idxs[j] == old(idxs[j]) + 1
    ensures forall j :: k <= j < idxs.Length ==> idxs[j] == old(idxs[j])
  {
    ghost var c := idxs[..k];
    CombHeadBound(c, 0, n);
    var i: nat := k - 1;
    idxs[i] := idxs[i] + 1;
    while idxs[i] >= n - k + 1 + i
      invariant i < k
      invariant forall j :: 0 <= j < i ==> idxs[j] == c[j]
      invariant forall j :: i <= j < k ==> idxs[j] == c[j] + 1
      invariant forall j :: i < j < k ==> c[j] + k - j >= n
      invariant forall j :: k <= j < idxs.Length ==> idxs[j] == old(idxs[j])
      decreases i
    {
      if i == 0 {
        break;
      }
      i := i - 1;
      idxs[i] := idxs[i] + 1;
    }
    if idxs[0] > n - k {
      SuccessorNone(c, n);
      return false;
    }
    SuccessorAt(c, n, i);
    Refill(idxs, i, k);
    Refilled(c, idxs[..k], i);
    return true;
  }

  /** The closing for loop of choose_k_from_n: idxs[j] = idxs[j-1] + 1 for j from i+1 up to k-1. */
  method Refill(idxs: array<nat>, i: nat, k: nat)
    requires i < k <= idxs.Length
    modifies idxs
    ensures forall m :: 0 <= m <= i ==> idxs[m] == old(idxs[m])
    ensures forall m :: i <= m < k ==> idxs[m] == old(idxs[i]) + (m - i)
    ensures forall m :: k <= m < idxs.Length ==> idxs[m] == old(idxs[m])
  {
    var j := i + 1;
    while j < k
      invariant i < j <= k
      invariant forall m :: 0 <= m <= i ==> idxs[m] == old(idxs[m])
      invariant forall m :: i <= m < j ==> idxs[m] == old(idxs[i]) + (m - i)
      invariant forall m :: k <= m < idxs.Length ==> idxs[m] == old(idxs[m])
    {
      idxs[j] := idxs[j - 1] + 1;
      j := j + 1;
    }
  }

  /** Every entry of All(k, lo, n) is a k-element subset of lo .. n-1. */
  lemma {:induction false} AllAreCombs(k: nat, lo: nat, n: nat, j: nat)
    requires j < |All(k, lo, n)|
    ensures |All(k, lo, n)[j]| == k && IsCombFrom(All(k, lo, n)[j], lo, n)
    decreases k, n - lo
  {
    if k > 0 {
      var p := All(k - 1, lo + 1, n);
      if j < |p| {
        AllAreCombs(k - 1, lo + 1, n, j);
        assert All(k, lo, n)[j] == [lo] + p[j];
        assert ([lo] + p[j])[1..] == p[j];
      } else {
        AllAreCombs(k, lo + 1, n, j - |p|);
        CombLower(All(k, lo + 1, n)[j - |p|], lo + 1, lo, n);
      }
    }
  }

  /** Every k-element subset of lo .. n-1 appears in All(k, lo, n). */
  lemma {:induction false} AllComplete(c: seq<nat>, lo: nat, n: nat)
    requires IsCombFrom(c, lo, n)
    ensures c in All(|c|, lo, n)
    decreases |c|, n - lo
  {
    if c != [] {
      var k := |c|;
      CombHeadBound(c, lo, n);
      AllSplit(k, lo, n);
      var p := All(k - 1, lo + 1, n);
      var b := All(k, lo + 1, n);
      if c[0] == lo {
        AllComplete(c[1..], lo + 1, n);
        InPrependPart(lo, p, b, c[1..]);
        assert [lo] + c[1..] == c;
      } else {
        AllComplete(c, lo + 1, n);
        InRestPart(lo, p, b, c);
      }
    }
  }

  /** A list x of p comes back, with lo in front, in the first part of the split. */
  lemma InPrependPart(lo: nat, p: seq<seq<nat>>, b: seq<seq<nat>>, x: seq<nat>)
    requires x in p
    ensures [lo] + x in Prepend(lo, p) + b
  {
    var j :| 0 <= j < |p| && p[j] == x;
    SplitAt(lo, p, b, j);
  }

  /** A list of b is in the second part of the split. */
  lemma InRestPart(lo: nat, p: seq<seq<nat>>, b: seq<seq<nat>>, c: seq<nat>)
    requires c in b
    ensures c in Prepend(lo, p) + b
  {
    var j :| 0 <= j < |b| && b[j] == c;
    SplitAt(lo, p, b, |p| + j);
  }

  /** There are C(n - lo, k) of them. */
  lemma {:induction false} AllLength(k: nat, lo: nat, n: nat)
    requires lo <= n
    ensures |All(k, lo, n)| == Choose(n - lo, k)
    decreases k, n - lo
  {
    if k > 0 {
      if lo + k > n {
        ChooseAbove(n - lo, k);
      } else {
        AllLength(k - 1, lo + 1, n);
        AllLength(k, lo + 1, n);
      }
    }
  }

  /** The list is empty only when k indices do not fit, and otherwise starts at lo, lo+1, ..., lo+k-1. */
  lemma {:induction false} AllFirst(k: nat, lo: nat, n: nat)
    requires lo + k <= n
    ensures |All(k, lo, n)| > 0 && All(k, lo, n)[0] == Run(lo, k)
    decreases k
  {
    if k > 0 {
      AllFirst(k - 1, lo + 1, n);
      assert All(k, lo, n)[0] == [lo] + Run(lo + 1, k - 1);
    }
  }

  /** A non-empty list of k >= 1 indices means they fit above lo. */
  lemma AllFits(k: nat, lo: nat, n: nat)
    requires 0 < k && |All(k, lo, n)| > 0
    ensures lo + k <= n
  {
  }

  /** Entries of a Pascal split: the first |p| get lo in front, the rest come from b. */
  lemma SplitAt(lo: nat, p: seq<seq<nat>>, b: seq<seq<nat>>, j: nat)
    requires j < |p| + |b|
    ensures j < |p| ==> (Prepend(lo, p) + b)[j] == [lo] + p[j]
    ensures |p| <= j ==> (Prepend(lo, p) + b)[j] == b[j - |p|]
  {
  }

  /** The successor of lo followed by x, in terms of the successor of x. */
  lemma SuccessorCons(h: nat, x: seq<nat>, n: nat)
    ensures Successor(x, n).Some? ==> Successor([h] + x, n) == Some([h] + Successor(x, n).value)
    ensures Successor(x, n).None? ==>
      Successor([h] + x, n) == if h + |x| + 1 < n then Some(Run(h + 1, |x| + 1)) else None
  {
    assert ([h] + x)[1..] == x;
  }

  /** The last entry has no successor. */
  lemma {:induction false} AllLast(k: nat, lo: nat, n: nat)
    requires |All(k, lo, n)| > 0
    ensures Successor(All(k, lo, n)[|All(k, lo, n)| - 1], n) == None
    decreases k, n - lo
  {
    if k > 0 && lo + k <= n {
      AllSplit(k, lo, n);
      var p := All(k - 1, lo + 1, n);
      var b := All(k, lo + 1, n);
      AllFirst(k - 1, lo + 1, n);
      SplitAt(lo, p, b, |p| + |b| - 1);
      if |b| > 0 {
        AllLast(k, lo + 1, n);
      } else {
        AllLast(k - 1, lo + 1, n);
        AllAreCombs(k - 1, lo + 1, n, |p| - 1);
        SuccessorCons(lo, p[|p| - 1], n);
        if lo + 1 + k <= n {
          AllFirst(k, lo + 1, n);
        }
      }
    }
  }

  /** Successor steps through a Pascal split given steps through its two parts and across the seam. */
  lemma StepThroughSplit(lo: nat, n: nat, p: seq<seq<nat>>, b: seq<seq<nat>>, j: nat)
    requires j + 1 < |p| + |b|
    requires j + 1 < |p| ==> Successor(p[j], n) == Some(p[j + 1])
    requires j + 1 == |p| ==> Successor([lo] + p[j], n) == Some(b[0])
    requires |p| <= j ==> Successor(b[j - |p|], n) == Some(b[j + 1 - |p|])
    ensures Successor((Prepend(lo, p) + b)[j], n) == Some((Prepend(lo, p) + b)[j + 1])
  {
    SplitAt(lo, p, b, j);
    SplitAt(lo, p, b, j + 1);
    if j + 1 < |p| {
      SuccessorCons(lo, p[j], n);
    }
  }

  /** Across the seam: the last subset containing lo is followed by lo+1, lo+2, ..., lo+k. */
  lemma SeamStep(k: nat, lo: nat, n: nat)
    requires 0 < k && lo + k < n
    ensures |All(k - 1, lo + 1, n)| > 0 && |All(k, lo + 1, n)| > 0
    ensures var p := All(k - 1, lo + 1, n);
      Successor([lo] + p[|p| - 1], n) == Some(All(k, lo + 1, n)[0])
  {
    var p := All(k - 1, lo + 1, n);
    AllFirst(k - 1, lo + 1, n);
    AllFirst(k, lo + 1, n);
    var x := p[|p| - 1];
    AllLast(k - 1, lo + 1, n);
    AllAreCombs(k - 1, lo + 1, n, |p| - 1);
    SeamCons(lo, x, n, k);
  }

  /** A last subset x of size k-1 with room for one more index above lo: lo+1 .. lo+k follows lo, x. */
  lemma SeamCons(lo: nat, x: seq<nat>, n: nat, k: nat)
    requires Successor(x, n) == None && |x| + 1 == k && lo + k < n
    ensures Successor([lo] + x, n) == Some(Run(lo + 1, k))
  {
    SuccessorCons(lo, x, n);
  }

  /** Each entry's successor is the entry after it. */
  lemma {:induction false} AllStep(k: nat, lo: nat, n: nat, j: nat)
    requires j + 1 < |All(k, lo, n)|
    ensures Successor(All(k, lo, n)[j], n) == Some(All(k, lo, n)[j + 1])
    decreases k, n - lo
  {
    if k > 0 && lo + k <= n {
      AllSplit(k, lo, n);
      var p := All(k - 1, lo + 1, n);
      var b := All(k, lo + 1, n);
      if j + 1 < |p| {
        AllStep(k - 1, lo + 1, n, j);
      } else if j + 1 == |p| {
        AllFits(k, lo + 1, n);
        SeamStep(k, lo, n);
      } else {
        AllStep(k, lo + 1, n, j - |p|);
      }
      StepThroughSplit(lo, n, p, b, j);
    }
  }

  /** A prefix of a, extended by the next entry of a, is a longer prefix. */
  lemma PrefixExtend<T>(a: seq<T>, pre: seq<T>, x: T)
    requires |pre| < |a| && pre == a[..|pre|] && x == a[|pre|]
    ensures pre + [x] == a[..|pre| + 1]
  {
  }

  /**
   * main's driver: start from idxs = 0..n-1, emit idxs[..k], then emit
   * again after every choose_k_from_n that answers 1. The emitted lists
   * are exactly the k-element subsets of 0..n-1 in lexicographic order,
   * C(n, k) of them.
   */
  method EmitCombinations(k: nat, n: nat) returns (emitted: seq<seq<nat>>)
    requires 1 <= k <= n
    ensures emitted == All(k, 0, n)
    ensures |emitted| == Choose(n, k)
  {
    var idxs := new nat[n](i => i);
    ghost var a := All(k, 0, n);
    AllFirst(k, 0, n);
    assert idxs[..k] == Run(0, k);
    emitted := [idxs[..k]];
    while true
      invariant 1 <= |emitted| <= |a|
      invariant emitted == a[..|emitted|]
      invariant idxs.Length == n && idxs[..k] == a[|emitted| - 1]
      decreases |a| - |emitted|
    {
      AllAreCombs(k, 0, n, |emitted| - 1);
      var more := ChooseKFromN(idxs, k, n);
      if !more {
        if |emitted| < |a| {
          AllStep(k, 0, n, |emitted| - 1);
        }
        break;
      }
      if |emitted| == |a| {
        AllLast(k, 0, n);
      }
      AllStep(k, 0, n, |emitted| - 1);
      PrefixExtend(a, emitted, idxs[..k]);
      emitted := emitted + [idxs[..k]];
    }
    AllLength(k, 0, n);
  }

  /**
   * The growable int array of add_val: `vals` with room for `size` ints,
   * of which the first `len` are in use. A fresh one is NULL with size
   * and length 0.
   */
  class IntVec {
    var vals: array<int>
    var size: nat
    var len: nat

    ghost predicate Valid()
      reads this
    {
      vals.Length == size && len <= size
    }

    constructor ()
      ensures Valid() && size == 0 && len == 0
    {
      vals := new int[0];
      size, len := 0, 0;
    }

    /**
     * add_val: when len + 1 reaches size, grow by 100 ints (realloc keeps
     * the old contents); then store val at the old length and count it.
     */
    method AddVal(val: int)
      requires Valid()
      modifies this, vals
      ensures Valid()
      ensures len == old(len) + 1
      ensures vals[..len] == old(vals[..len]) + [val]
      ensures size == if old(len) + 1 >= old(size) then old(size) + 100 else old(size)
      ensures old(len) + 1 < old(size) ==> vals == old(vals)
    {
      if len + 1 >= size {
        size := size + 100;
        var grown := new int[size];
        forall j | 0 <= j < vals.Length {
          grown[j] := vals[j];
        }
        vals := grown;
      }
      vals[len] := val;
      len := len + 1;
    }
  }

  /** The pieces joined with ", ". */
  function Join(ps: seq<string>): string
  {
    if ps == [] then ""
    else if |ps| == 1 then ps[0]
    else ps[0] + ", " + Join(ps[1..])
  }

  /** What the loop has written after the first i pieces: each followed by ", ". */
  function Terms(ps: seq<string>, i: nat): string
    requires i <= |ps|
  {
    if i == 0 then "" else Terms(ps, i - 1) + ps[i - 1] + ", "
  }

  /** "%d" of the value at each chosen index. */
  function Texts(ints: seq<int>, idxs: seq<nat>, len: nat): (ps: seq<string>)
    requires len <= |idxs| && forall j :: 0 <= j < len ==> idxs[j] < |ints|
    ensures |ps| == len
  {
    if len == 0 then [] else Texts(ints, idxs, len - 1) + [Decimal.Format(ints[idxs[len - 1]])]
  }

  /** Entry i is "%d" of ints[idxs[i]]. */
  lemma {:induction false} TextsAt(ints: seq<int>, idxs: seq<nat>, len: nat, i: nat)
    requires len <= |idxs| && forall j :: 0 <= j < len ==> idxs[j] < |ints|
    requires i < len
    ensures Texts(ints, idxs, len)[i] == Decimal.Format(ints[idxs[i]])
  {
    if i < len - 1 {
      TextsAt(ints, idxs, len - 1, i);
    }
  }

  /** One more pass of the loop writes one more piece and ", ". */
  lemma TermsStep(ps: seq<string>, i: nat, buf: string)
    requires i < |ps| && buf == "[" + Terms(ps, i)
    ensures buf + ps[i] + ", " == "[" + Terms(ps, i + 1)
  {
  }

  /** The written terms are the joined pieces plus one trailing ", ". */
  lemma {:induction false} TermsJoin(ps: seq<string>, i: nat)
    requires 0 < i <= |ps|
    ensures Terms(ps, i) == Join(ps[..i]) + ", "
  {
    if i > 1 {
      TermsJoin(ps, i - 1);
      JoinSnoc(ps[..i - 1], ps[i - 1]);
      assert ps[..i - 1] + [ps[i - 1]] == ps[..i];
    }
  }

  /** Appending a piece to a non-empty list appends ", " and the piece. */
  lemma {:induction false} JoinSnoc(ps: seq<string>, p: string)
    requires ps != []
    ensures Join(ps + [p]) == Join(ps) + ", " + p
    decreases |ps|
  {
    var q := ps + [p];
    if |ps| > 1 {
      JoinSnoc(ps[1..], p);
      assert q[1..] == ps[1..] + [p];
      assert Join(q) == ps[0] + ", " + Join(ps[1..] + [p]);
    } else {
      assert q[1..] == [p];
    }
  }

  /**
   * Backing up over the last two characters when more than "[" was
   * written, then appending "]", gives the joined pieces in brackets
   * (pieces are never empty).
   */
  lemma Trimmed(ps: seq<string>, buf: string)
    requires forall j :: 0 <= j < |ps| ==> |ps[j]| >= 1
    requires buf == "[" + Terms(ps, |ps|)
    ensures var x := if |buf| > 2 then |buf| - 2 else |buf|;
      buf[..x] + "]" == "[" + Join(ps) + "]"
  {
    if ps != [] {
      TermsJoin(ps, |ps|);
      assert ps[..|ps|] == ps;
      assert |Join(ps)| >= |ps[0]|;
      assert buf == "[" + Join(ps) + ", ";
    }
  }

  /** Each "%d" text has at least one character. */
  lemma TextsNonEmpty(ints: seq<int>, idxs: seq<nat>, len: nat)
    requires len <= |idxs| && forall j :: 0 <= j < len ==> idxs[j] < |ints|
    ensures forall j :: 0 <= j < len ==> |Texts(ints, idxs, len)[j]| >= 1
  {
  }

  /** The loop of ints_idxs_to_string: "[" then "%d, " for each chosen value. */
  method WriteTerms(ints: seq<int>, idxs: seq<nat>, len: nat) returns (buf: string)
    requires len <= |idxs| && forall j :: 0 <= j < len ==> idxs[j] < |ints|
    ensures buf == "[" + Terms(Texts(ints, idxs, len), len)
  {
    ghost var ps := Texts(ints, idxs, len);
    buf := "[";
    var i := 0;
    while i < len
      invariant i <= len
      invariant buf == "[" + Terms(ps, i)
    {
      var d := Decimal.Format(ints[idxs[i]]);
      TextsAt(ints, idxs, len, i);
      TermsStep(ps, i, buf);
      buf := buf + d + ", ";
      i := i + 1;
    }
  }

  /**
   * ints_idxs_to_string: "[" then "%d, " per chosen value, back up over
   * the last ", " if anything was written past the "[", then "]". The
   * result is the values joined by ", " in brackets, "[]" when len is 0.
   */
  method IntsIdxsToString(ints: seq<int>, idxs: seq<nat>, len: nat) returns (s: string)
    requires len <= |idxs| && forall j :: 0 <= j < len ==> idxs[j] < |ints|
    ensures s == "[" + Join(Texts(ints, idxs, len)) + "]"
    ensures len == 0 ==> s == "[]"
  {
    var buf := WriteTerms(ints, idxs, len);
    ghost var ps := Texts(ints, idxs, len);
    TextsNonEmpty(ints, idxs, len);
    Trimmed(ps, buf);
    var x := |buf|;
    if x > 2 {
      x := x - 2;
    }
    s := buf[..x] + "]";
  }
}
