/**
 * c/permute-array-recursive.c: every arrangement of arr[from..last],
 * made in place by swapping each candidate into position from,
 * recursing on the rest and swapping back. The callback, which main
 * uses to print the array, is modelled as the list of snapshots of the
 * array at each call.
 */
module PermuteArrayRecursive {
  import opened MathDefs
  import opened PermuteArray

  /**
   * The snapshots permute(s, from, last) hands to the callback, in order:
   * s itself when from == last, otherwise the blocks for i from `from` to
   * `last`, each made with s[i] swapped into position from.
   */
  function Trace<T>(s: seq<T>, from: nat, last: nat): (r: seq<seq<T>>)
    requires from <= last < |s|
    ensures |r| == Fact(last - from + 1)
    decreases last - from, 1, 0
  {
    if from == last then [s] else Blocks(s, from, last, last + 1)
  }

  /** The snapshots of the loop of permute for the candidates from to i - 1. */
  function Blocks<T>(s: seq<T>, from: nat, last: nat, i: nat): (r: seq<seq<T>>)
    requires from < last < |s| && from <= i <= last + 1
    ensures |r| == (i - from) * Fact(last - from)
    decreases last - from, 0, i
  {
    if i == from then []
    else Blocks(s, from, last, i - 1) + Trace(Swapped(s, from, i - 1), from + 1, last)
  }

  /** t is s rearranged within from..last, the rest untouched. */
  ghost predicate Rearranges<T>(t: seq<T>, s: seq<T>, from: nat, last: nat)
    requires from <= last < |s|
  {
    |t| == |s| && multiset(t) == multiset(s) && t[..from] == s[..from] && t[last + 1..] == s[last + 1..]
  }

  /** Every snapshot in ts rearranges s within from..last. */
  ghost predicate AllRearrange<T>(ts: seq<seq<T>>, s: seq<T>, from: nat, last: nat)
    requires from <= last < |s|
  {
    forall k :: 0 <= k < |ts| ==> Rearranges(ts[k], s, from, last)
  }

  /** Every snapshot in ts holds x at position from. */
  ghost predicate AllHaveAt<T>(ts: seq<seq<T>>, from: nat, x: T)
  {
    forall k :: 0 <= k < |ts| ==> from < |ts[k]| && ts[k][from] == x
  }

  /** Every snapshot in ts holds one of xs at position from. */
  ghost predicate AllAmong<T>(ts: seq<seq<T>>, from: nat, xs: seq<T>)
  {
    forall k :: 0 <= k < |ts| ==> from < |ts[k]| && ts[k][from] in xs
  }

  /** Every snapshot is a rearrangement of s[from..last + 1] that leaves the rest alone. */
  lemma {:induction false} TraceRearranges<T>(s: seq<T>, from: nat, last: nat)
    requires from <= last < |s|
    ensures AllRearrange(Trace(s, from, last), s, from, last)
    decreases last - from, 1, 0
  {
    if from < last {
      BlocksRearrange(s, from, last, last + 1);
    }
  }

  lemma {:induction false} BlocksRearrange<T>(s: seq<T>, from: nat, last: nat, i: nat)
    requires from < last < |s| && from <= i <= last + 1
    ensures AllRearrange(Blocks(s, from, last, i), s, from, last)
    decreases last - from, 0, i
  {
    if i > from {
      BlocksRearrange(s, from, last, i - 1);
      BlockRearranges(s, from, last, i - 1);
      var a, b := Blocks(s, from, last, i - 1), Trace(Swapped(s, from, i - 1), from + 1, last);
      forall k | 0 <= k < |a + b|
        ensures Rearranges((a + b)[k], s, from, last)
      {
        if k < |a| {
          assert (a + b)[k] == a[k];
        } else {
          assert (a + b)[k] == b[k - |a|];
        }
      }
    }
  }

  /** The block for candidate j rearranges s within from..last. */
  lemma {:induction false} BlockRearranges<T>(s: seq<T>, from: nat, last: nat, j: nat)
    requires from < last < |s| && from <= j <= last
    ensures AllRearrange(Trace(Swapped(s, from, j), from + 1, last), s, from, last)
    decreases last - from, 0, j
  {
    var u := Swapped(s, from, j);
    SwappedPermutes(s, from, j);
    assert u[..from] == s[..from] && u[last + 1..] == s[last + 1..];
    TraceRearranges(u, from + 1, last);
    var b := Trace(u, from + 1, last);
    forall k | 0 <= k < |b|
      ensures Rearranges(b[k], s, from, last)
    {
      assert b[k][..from] == b[k][..from + 1][..from];
    }
  }

  /**
   * For distinct elements no snapshot repeats, so with (last - from + 1)!
   * snapshots every arrangement of s[from..last + 1] is seen exactly once.
   */
  lemma {:induction false} TraceDistinct<T>(s: seq<T>, from: nat, last: nat)
    requires from <= last < |s| && Distinct(s)
    ensures Distinct(Trace(s, from, last))
    decreases last - from, 1, 0
  {
    if from < last {
      BlocksDistinct(s, from, last, last + 1);
    }
  }

  /** The blocks so far are distinct, and each snapshot has one of s[from..i] at from. */
  lemma {:induction false} BlocksDistinct<T>(s: seq<T>, from: nat, last: nat, i: nat)
    requires from < last < |s| && from <= i <= last + 1 && Distinct(s)
    ensures Distinct(Blocks(s, from, last, i))
    ensures AllAmong(Blocks(s, from, last, i), from, s[from..i])
    decreases last - from, 0, i
  {
    if i > from {
      BlocksDistinct(s, from, last, i - 1);
      BlockDistinct(s, from, last, i - 1);
      var a, b := Blocks(s, from, last, i - 1), Trace(Swapped(s, from, i - 1), from + 1, last);
      forall k | 0 <= k < |a|
        ensures from < |a[k]| && a[k][from] != s[i - 1]
      {
        var p :| from <= p < i - 1 && s[p] == a[k][from];
      }
      JoinDistinct(a, b, from, s[i - 1]);
      forall k | 0 <= k < |a + b|
        ensures from < |(a + b)[k]| && (a + b)[k][from] in s[from..i]
      {
        if k < |a| {
          assert (a + b)[k] == a[k];
          assert s[from..i] == s[from..i - 1] + [s[i - 1]];
        } else {
          assert (a + b)[k] == b[k - |a|];
          assert s[from..i][i - 1 - from] == s[i - 1];
        }
      }
    }
  }

  /** The block for candidate j is distinct and has s[j] at from throughout. */
  lemma {:induction false} BlockDistinct<T>(s: seq<T>, from: nat, last: nat, j: nat)
    requires from < last < |s| && from <= j <= last && Distinct(s)
    ensures Distinct(Trace(Swapped(s, from, j), from + 1, last))
    ensures AllHaveAt(Trace(Swapped(s, from, j), from + 1, last), from, s[j])
    decreases last - from, 0, j
  {
    var u := Swapped(s, from, j);
    SwappedDistinct(s, from, j);
    TraceDistinct(u, from + 1, last);
    TraceRearranges(u, from + 1, last);
    var b := Trace(u, from + 1, last);
    forall k | 0 <= k < |b|
      ensures from < |b[k]| && b[k][from] == s[j]
    {
      assert b[k][from] == b[k][..from + 1][from] == u[..from + 1][from];
    }
  }

  /** Two distinct lists join into a distinct list when their entries differ at position from. */
  lemma JoinDistinct<T>(a: seq<seq<T>>, b: seq<seq<T>>, from: nat, x: T)
    requires Distinct(a) && Distinct(b)
    requires forall k :: 0 <= k < |a| ==> from < |a[k]| && a[k][from] != x
    requires AllHaveAt(b, from, x)
    ensures Distinct(a + b)
  {
    var c := a + b;
    forall p, q | 0 <= p < q < |c|
      ensures c[p] != c[q]
    {
      if p < |a| && q >= |a| {
        assert c[p] == a[p] && c[q] == b[q - |a|];
      } else if p < |a| {
        assert c[p] == a[p] && c[q] == a[q];
      } else {
        assert c[p] == b[p - |a|] && c[q] == b[q - |a|];
      }
    }
  }

  /**
   * permute: when from == last the callback sees the array; otherwise,
   * for each i from from to last, swap arr[from] and arr[i], permute the
   * rest, and swap them back. The array ends as it began.
   */
  method Permute<T>(arr: array<T>, from: nat, last: nat) returns (seen: seq<seq<T>>)
    requires from <= last < arr.Length
    modifies arr
    ensures arr[..] == old(arr[..])
    ensures seen == Trace(old(arr[..]), from, last)
    decreases last - from
  {
    if from == last {
      seen := [arr[..]];
      return;
    }
    ghost var s := arr[..];
    seen := [];
    var i := from;
    while i <= last
      invariant from <= i <= last + 1
      invariant arr[..] == s
      invariant seen == Blocks(s, from, last, i)
    {
      Swap(arr, from, i);
      var sub := Permute(arr, from + 1, last);
      Swap(arr, from, i);
      SwappedTwice(s, from, i);
      seen := seen + sub;
      i := i + 1;
    }
  }

  /**
   * main, with the length as a parameter and print_ints as the list of
   * arrays it shows: [] for length 0, otherwise 0..len - 1 and then every
   * snapshot permute hands to the callback. Allocation failure is not
   * modelled.
   */
  method Run(len: nat) returns (exitCode: int, shown: seq<seq<int>>)
    ensures exitCode == 0
    ensures len == 0 ==> shown == [[]]
    ensures len > 0 ==> shown == [Iota(len)] + Trace(Iota(len), 0, len - 1)
  {
    if len == 0 {
      return 0, [[]];
    }
    var ints := new int[len](k => k);
    assert ints[..] == Iota(len);
    var seen := Permute(ints, 0, len - 1);
    shown := [ints[..]] + seen;
    exitCode := 0;
  }

  /** main shows len! arrangements of 0..len - 1, each a different one. */
  lemma RunShowsAll(len: nat)
    requires len > 0
    ensures |Trace(Iota(len), 0, len - 1)| == Fact(len)
    ensures Distinct(Trace(Iota(len), 0, len - 1))
    ensures AllRearrange(Trace(Iota(len), 0, len - 1), Iota(len), 0, len - 1)
  {
    TraceDistinct(Iota(len), 0, len - 1);
    TraceRearranges(Iota(len), 0, len - 1);
  }
}
