/**
 * The C library's qsort over int keys, as c/minion-stats.c and
 * c/silly_sorting/qsort_ints.c call it. Whatever algorithm qsort uses,
 * the range ends as the one arrangement of its elements that the
 * comparator orders: Sort builds that arrangement by insertion, and
 * SortIsUnique shows that any ordered permutation equals it.
 */
module IntSorting {
  /** a may come before b: a <= b in ascending order, a >= b in descending order. */
  predicate Before(a: int, b: int, descending: bool)
  {
    if descending then a >= b else a <= b
  }

  /** Every element may come before every later one. */
  predicate Ordered(s: seq<int>, descending: bool)
  {
    forall i, j :: 0 <= i < j < |s| ==> Before(s[i], s[j], descending)
  }

  /** The head of an ordered sequence comes before everything in its tail. */
  lemma HeadBeforeTail(s: seq<int>, descending: bool, y: int)
    requires Ordered(s, descending) && |s| > 0 && y in multiset(s[1..])
    ensures Before(s[0], y, descending)
  {
    assert y in s[1..];
    var j :| 0 <= j < |s[1..]| && s[1..][j] == y;
    assert s[j + 1] == y;
  }

  /** x followed by the ordered s is ordered when x may come before each element of s. */
  lemma ConsOrdered(x: int, s: seq<int>, descending: bool)
    requires Ordered(s, descending)
    requires forall k :: 0 <= k < |s| ==> Before(x, s[k], descending)
    ensures Ordered([x] + s, descending)
  {
    var r := [x] + s;
    forall i, j | 0 <= i < j < |r|
      ensures Before(r[i], r[j], descending)
    {
      assert r[j] == s[j - 1];
      if i > 0 {
        assert r[i] == s[i - 1];
      }
    }
  }

  /** x inserted before the first element it may come before. */
  function Insert(x: int, s: seq<int>, descending: bool): (r: seq<int>)
    ensures |r| == |s| + 1
    ensures multiset(r) == multiset(s) + multiset{x}
  {
    if s == [] || Before(x, s[0], descending) then [x] + s
    else
      assert s == [s[0]] + s[1..];
      [s[0]] + Insert(x, s[1..], descending)
  }

  /** Inserting into an ordered sequence keeps it ordered. */
  lemma {:induction false} InsertOrdered(x: int, s: seq<int>, descending: bool)
    requires Ordered(s, descending)
    ensures Ordered(Insert(x, s, descending), descending)
  {
    if s == [] || Before(x, s[0], descending) {
      ConsOrdered(x, s, descending);
    } else {
      OrderedTail(s, descending);
      InsertOrdered(x, s[1..], descending);
      var t := Insert(x, s[1..], descending);
      forall k | 0 <= k < |t|
        ensures Before(s[0], t[k], descending)
      {
        assert t[k] in multiset(t);
        if t[k] != x {
          HeadBeforeTail(s, descending, t[k]);
        }
      }
      ConsOrdered(s[0], t, descending);
    }
  }

  /** The arrangement of s that qsort produces, built by insertion. */
  function Sort(s: seq<int>, descending: bool): (r: seq<int>)
    ensures |r| == |s|
    ensures multiset(r) == multiset(s)
  {
    if s == [] then []
    else
      assert s == [s[0]] + s[1..];
      Insert(s[0], Sort(s[1..], descending), descending)
  }

  /** Sort's result is ordered. */
  lemma {:induction false} SortOrdered(s: seq<int>, descending: bool)
    ensures Ordered(Sort(s, descending), descending)
  {
    if s != [] {
      SortOrdered(s[1..], descending);
      InsertOrdered(s[0], Sort(s[1..], descending), descending);
    }
  }

  /** Dropping the head keeps a sequence ordered. */
  lemma OrderedTail(s: seq<int>, descending: bool)
    requires Ordered(s, descending) && |s| > 0
    ensures Ordered(s[1..], descending)
  {
    forall i, j | 0 <= i < j < |s| - 1
      ensures Before(s[1..][i], s[1..][j], descending)
    {
      assert s[1..][i] == s[i + 1] && s[1..][j] == s[j + 1];
    }
  }

  /** Splitting two sequences with the same elements at their heads. */
  lemma SameElementsSplit(s: seq<int>, t: seq<int>)
    requires |s| > 0 && |t| > 0 && multiset(s) == multiset(t)
    ensures s[0] != t[0] ==> s[0] in multiset(t[1..]) && t[0] in multiset(s[1..])
    ensures s[0] == t[0] ==> multiset(s[1..]) == multiset(t[1..])
  {
    assert s == [s[0]] + s[1..] && t == [t[0]] + t[1..];
    assert multiset(s) == multiset{s[0]} + multiset(s[1..]);
    assert multiset(t) == multiset{t[0]} + multiset(t[1..]);
    if s[0] != t[0] {
      assert multiset(t)[s[0]] == multiset(t[1..])[s[0]];
      assert multiset(s)[t[0]] == multiset(s[1..])[t[0]];
      assert s[0] in multiset(s);
      assert t[0] in multiset(t);
    } else {
      assert multiset(s[1..]) == multiset(s) - multiset{s[0]};
      assert multiset(t[1..]) == multiset(t) - multiset{t[0]};
    }
  }

  /** Two ordered arrangements of the same elements are the same sequence. */
  lemma {:induction false} OrderedUnique(s: seq<int>, t: seq<int>, descending: bool)
    requires Ordered(s, descending) && Ordered(t, descending)
    requires multiset(s) == multiset(t)
    ensures s == t
    decreases |s|
  {
    assert |s| == |multiset(s)| == |multiset(t)| == |t|;
    if s != [] {
      SameElementsSplit(s, t);
      if s[0] != t[0] {
        HeadBeforeTail(t, descending, s[0]);
        HeadBeforeTail(s, descending, t[0]);
        assert false;
      }
      OrderedTail(s, descending);
      OrderedTail(t, descending);
      OrderedUnique(s[1..], t[1..], descending);
      assert s == [s[0]] + s[1..] && t == [t[0]] + t[1..];
    }
  }

  /** Any ordered permutation of s is Sort(s): the result of qsort does not depend on its algorithm. */
  lemma SortIsUnique(s: seq<int>, t: seq<int>, descending: bool)
    requires Ordered(t, descending) && multiset(t) == multiset(s)
    ensures t == Sort(s, descending)
  {
    SortOrdered(s, descending);
    OrderedUnique(t, Sort(s, descending), descending);
  }

  /** Appending x keeps s ordered exactly when x may follow the last element. */
  lemma OrderedSnoc(s: seq<int>, x: int, descending: bool)
    ensures Ordered(s + [x], descending) <==>
      Ordered(s, descending) && (s == [] || Before(s[|s| - 1], x, descending))
  {
    var t := s + [x];
    if Ordered(s, descending) && (s == [] || Before(s[|s| - 1], x, descending)) {
      forall i, j | 0 <= i < j < |t|
        ensures Before(t[i], t[j], descending)
      {
        if j == |s| && i < |s| - 1 {
          assert Before(s[i], s[|s| - 1], descending);
        }
      }
    }
    if Ordered(t, descending) {
      assert forall i, j :: 0 <= i < j < |s| ==> t[i] == s[i] && t[j] == s[j];
      if s != [] {
        assert t[|s| - 1] == s[|s| - 1] && t[|s|] == x;
      }
    }
  }

  /**
   * qsort(a, n, ...) with a comparator that orders ints ascending or
   * descending: the first n elements end as their ordered arrangement and
   * the rest of the array is untouched.
   */
  method Qsort(a: array<int>, n: nat, descending: bool)
    requires n <= a.Length
    modifies a
    ensures a[..n] == Sort(old(a[..n]), descending)
    ensures a[n..] == old(a[n..])
  {
    Overwrite(a, n, Sort(a[..n], descending));
  }

  /** Writes t over the first |t| elements of a. */
  method Overwrite(a: array<int>, n: nat, t: seq<int>)
    requires |t| == n <= a.Length
    modifies a
    ensures a[..n] == t
    ensures a[n..] == old(a[n..])
  {
    forall i | 0 <= i < n {
      a[i] := t[i];
    }
    assert a[..n] == t;
  }
}
