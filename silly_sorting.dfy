/**
 * c/silly_sorting: qsort_ints and the "silly" sorts beside it. A random
 * sort shuffles until a pass over the array finds it non-decreasing; a
 * sleep sort starts one thread per value that sleeps for the value and
 * then appends it to a list, negatives to a list of their own. The
 * random draws are parameters, and the threads are replaced by the order
 * in which their values reach the lists.
 */
module SillySorting {
  import opened IntSorting

  const IntMin := -0x8000_0000
  const IntMax := 0x7FFF_FFFF

  /** Every element is a C int. */
  predicate AllInts(s: seq<int>)
  {
    forall i :: 0 <= i < |s| ==> IntMin <= s[i] <= IntMax
  }

  /** A permutation of C ints holds C ints. */
  lemma AllIntsPermutation(s: seq<int>, t: seq<int>)
    requires AllInts(s) && multiset(s) == multiset(t)
    ensures AllInts(t)
  {
    forall i | 0 <= i < |t|
      ensures IntMin <= t[i] <= IntMax
    {
      assert t[i] in multiset(s);
      var j :| 0 <= j < |s| && s[j] == t[i];
    }
  }

  // ---------------------------------------------------------------
  // qsort_ints.c
  // ---------------------------------------------------------------

  /**
   * compare_ints: -1, 0 or 1 as a is below, equal to or above b, with the
   * signs reversed when descending is non-zero.
   */
  function CompareInts(a: int, b: int, descending: int): (r: int)
    ensures -1 <= r <= 1
    ensures r == 0 <==> a == b
    ensures r < 0 <==> (if descending == 0 then a < b else a > b)
  {
    if descending == 0 then
      if a < b then -1 else if a > b then 1 else 0
    else
      if a > b then -1 else if a < b then 1 else 0
  }

  /**
   * compare_ints is antisymmetric and zero on equal values, and it puts a
   * no later than b exactly when a may come before b in the order the
   * flag selects: it is a valid qsort comparator.
   */
  lemma CompareIntsIsOrder(a: int, b: int, descending: int)
    ensures CompareInts(a, b, descending) == -CompareInts(b, a, descending)
    ensures CompareInts(a, a, descending) == 0
    ensures CompareInts(a, b, descending) <= 0 <==> Before(a, b, descending != 0)
  {
  }

  /**
   * int_comparator: reads a, b and the descending flag through its three
   * pointers, here addresses into a memory of ints.
   */
  function IntComparator(mem: map<nat, int>, vsA: nat, vsB: nat, context: nat): (r: int)
    requires vsA in mem && vsB in mem && context in mem
    ensures r <= 0 <==> Before(mem[vsA], mem[vsB], mem[context] != 0)
    ensures r == 0 <==> mem[vsA] == mem[vsB]
  {
    CompareIntsIsOrder(mem[vsA], mem[vsB], mem[context]);
    CompareInts(mem[vsA], mem[vsB], mem[context])
  }

  /** qsort_ints: qsort_r with int_comparator and descending = 0 sorts ascending. */
  method QsortInts(elements: array<int>, numElements: nat)
    requires numElements <= elements.Length
    modifies elements
    ensures elements[..numElements] == Sort(old(elements[..numElements]), false)
    ensures elements[numElements..] == old(elements[numElements..])
  {
    var descending := 0;
    Qsort(elements, numElements, descending != 0);
  }

  /** What qsort_ints leaves is non-decreasing and holds the same values. */
  lemma QsortIntsSorts(s: seq<int>)
    ensures Ordered(Sort(s, false), false)
    ensures multiset(Sort(s, false)) == multiset(s)
  {
    SortOrdered(s, false);
  }

  // ---------------------------------------------------------------
  // test_sort.c
  // ---------------------------------------------------------------

  /** What the check of test_sort.c accepts: no element below the first. */
  predicate FirstIsLeast(s: seq<int>)
    requires |s| > 0
  {
    forall i :: 0 <= i < |s| ==> s[0] <= s[i]
  }

  /**
   * The check of test_sort.c as written: last is set to array[0] once and
   * never moved along, so it accepts any array whose first element is
   * its least.
   */
  method TestSortCheck(values: array<int>) returns (sorted: bool)
    requires values.Length > 0
    ensures sorted <==> FirstIsLeast(values[..])
  {
    sorted := true;
    var last := values[0];
    for i := 0 to values.Length
      invariant sorted <==> forall k :: 0 <= k < i ==> values[0] <= values[k]
    {
      if values[i] < last {
        sorted := false;
      }
    }
  }

  /** Sorted arrays pass the check, but so does the unsorted [0, 2, 1]. */
  lemma TestSortCheckMissesDisorder()
    ensures forall s :: |s| > 0 && Ordered(s, false) ==> FirstIsLeast(s)
    ensures FirstIsLeast([0, 2, 1]) && !Ordered([0, 2, 1], false)
  {
    var s := [0, 2, 1];
    assert !Before(s[1], s[2], false);
  }

  /**
   * main of test_sort.c: seven values rand() % 10, sorted by qsort_ints,
   * then checked; the program exits with success.
   */
  method TestSort(draws: seq<nat>) returns (sorted: bool)
    requires |draws| == 7
    ensures sorted
  {
    var values := new int[7];
    for i := 0 to 7
      invariant forall k :: 0 <= k < i ==> values[k] == draws[k] % 10
    {
      values[i] := draws[i] % 10;
    }
    ghost var drawn := values[..7];
    QsortInts(values, 7);
    assert values[..] == values[..7];
    QsortIntsSorts(drawn);
    sorted := TestSortCheck(values);
    TestSortCheckMissesDisorder();
  }

  // ---------------------------------------------------------------
  // silly_sorts.c: _shuffle and _random_sort
  // ---------------------------------------------------------------

  /** Exchanging two elements keeps the multiset of a sequence. */
  lemma SwapPermutes(s: seq<int>, i: nat, j: nat)
    requires i < |s| && j < |s|
    ensures multiset(s[i := s[j]][j := s[i]]) == multiset(s)
  {
    if i != j {
      var t := s[i := s[j]];
      assert multiset(t) == multiset(s) - multiset{s[i]} + multiset{s[j]};
      assert multiset(t[j := s[i]]) == multiset(t) - multiset{t[j]} + multiset{s[i]};
    }
  }

  /**
   * The first k steps of _shuffle: step i swaps i with draws[i] % n.
   * Whatever the draws, the result is a rearrangement of s.
   */
  function Shuffled(s: seq<int>, draws: seq<nat>, k: nat): (r: seq<int>)
    requires k <= |draws| == |s|
    ensures |r| == |s|
    ensures multiset(r) == multiset(s)
  {
    if k == 0 then s
    else
      var t := Shuffled(s, draws, k - 1);
      var i, pos := k - 1, draws[k - 1] % |s|;
      SwapPermutes(t, i, pos);
      t[i := t[pos]][pos := t[i]]
  }

  /** _shuffle with the values rand() returns as draws, one per element. */
  method Shuffle(elements: array<int>, draws: seq<nat>)
    requires |draws| == elements.Length
    modifies elements
    ensures elements[..] == Shuffled(old(elements[..]), draws, |draws|)
    ensures multiset(elements[..]) == multiset(old(elements[..]))
  {
    ghost var start := elements[..];
    var n := elements.Length;
    for i := 0 to n
      invariant elements[..] == Shuffled(start, draws, i)
    {
      var pos := draws[i] % n;
      var swap := elements[i];
      elements[i] := elements[pos];
      elements[pos] := swap;
    }
  }

  /**
   * The pass of _random_sort: sorted starts at 1, last at INT_MIN, and
   * an element below the one before it clears sorted.
   */
  method CheckSorted(elements: array<int>) returns (sorted: bool)
    requires AllInts(elements[..])
    ensures sorted <==> Ordered(elements[..], false)
  {
    sorted := true;
    var last := IntMin;
    for i := 0 to elements.Length
      invariant sorted <==> Ordered(elements[..i], false)
      invariant last == if i == 0 then IntMin else elements[i - 1]
    {
      OrderedSnoc(elements[..i], elements[i], false);
      assert elements[..i + 1] == elements[..i] + [elements[i]];
      if elements[i] < last {
        sorted := false;
      }
      last := elements[i];
    }
    assert elements[..elements.Length] == elements[..];
  }

  /**
   * _random_sort with _shuffle: shuffle, then check, until sorted. The
   * draws of each round are a parameter; the method stops when they run
   * out, where the C loop would go on drawing. It returns sorted only
   * with the elements in ascending order, which is then the one
   * ascending arrangement of the elements it was given.
   */
  method RandomSort(elements: array<int>, rounds: seq<seq<nat>>) returns (sorted: bool)
    requires AllInts(elements[..])
    requires forall r :: 0 <= r < |rounds| ==> |rounds[r]| == elements.Length
    modifies elements
    ensures multiset(elements[..]) == multiset(old(elements[..]))
    ensures sorted ==> elements[..] == Sort(old(elements[..]), false)
  {
    ghost var start := elements[..];
    sorted := false;
    var r := 0;
    while !sorted && r < |rounds|
      invariant r <= |rounds|
      invariant multiset(elements[..]) == multiset(start)
      invariant sorted ==> Ordered(elements[..], false)
    {
      Shuffle(elements, rounds[r]);
      AllIntsPermutation(start, elements[..]);
      sorted := CheckSorted(elements);
      r := r + 1;
    }
    if sorted {
      SortIsUnique(start, elements[..], false);
    }
  }

  // ---------------------------------------------------------------
  // silly_sorts.c: _sleep_reorder
  // ---------------------------------------------------------------

  datatype Reorder = ReorderSort | ReorderShuffle

  /** Where a value's thread appends it, and after how many seconds. */
  datatype Route = Route(positive: bool, delay: nat)

  /**
   * The switch of _sleep_reorder: SHUFFLE sends every value to the
   * positive list after rand() % num_elements seconds; SORT sends a value
   * >= 0 there after value seconds and a negative one to the negative
   * list after -value seconds.
   */
  function RouteFor(order: Reorder, v: int, draw: nat, numElements: nat): (r: Route)
    requires order == ReorderShuffle ==> numElements > 0
    ensures order == ReorderShuffle ==> r.positive && r.delay < numElements
    ensures order == ReorderSort ==> (r.positive <==> v >= 0)
    ensures order == ReorderSort ==> r.delay == if v >= 0 then v else -v
  {
    match order
    case ReorderShuffle => Route(true, draw % numElements)
    case ReorderSort => if v >= 0 then Route(true, v) else Route(false, -1 * v)
  }

  /** The delay SORT gives v. */
  function SortDelay(v: int): nat
  {
    RouteFor(ReorderSort, v, 0, 0).delay
  }

  /** The values of s that SORT sends to the positive (or the negative) list, in order. */
  function SortRouted(s: seq<int>, positive: bool): (r: seq<int>)
    ensures forall k :: 0 <= k < |r| ==> (r[k] >= 0 <==> positive)
  {
    if s == [] then []
    else
      var rest := SortRouted(s[..|s| - 1], positive);
      if RouteFor(ReorderSort, s[|s| - 1], 0, 0).positive == positive then rest + [s[|s| - 1]]
      else rest
  }

  /** The two lists together receive every value once. */
  lemma {:induction false} SortRoutedSplits(s: seq<int>)
    ensures multiset(SortRouted(s, true)) + multiset(SortRouted(s, false)) == multiset(s)
  {
    if s != [] {
      var n := |s| - 1;
      SortRoutedSplits(s[..n]);
      assert s == s[..n] + [s[n]];
    }
  }

  /**
   * A list filled by sleeping threads: a value whose thread sleeps less
   * is appended first.
   */
  predicate ByDelay(list: seq<int>)
  {
    forall i, j :: 0 <= i < j < |list| ==> SortDelay(list[i]) <= SortDelay(list[j])
  }

  /** s reversed. */
  function Reverse(s: seq<int>): (r: seq<int>)
    ensures |r| == |s|
    ensures multiset(r) == multiset(s)
  {
    if s == [] then []
    else
      assert s == s[..|s| - 1] + [s[|s| - 1]];
      [s[|s| - 1]] + Reverse(s[..|s| - 1])
  }

  /** Element i of the reverse is element |s| - 1 - i of s. */
  lemma {:induction false} ReverseAt(s: seq<int>, i: nat)
    requires i < |s|
    ensures Reverse(s)[i] == s[|s| - 1 - i]
  {
    if i > 0 {
      ReverseAt(s[..|s| - 1], i - 1);
    }
  }

  /** Reversing a descending sequence gives an ascending one. */
  lemma ReverseOrdered(s: seq<int>)
    requires Ordered(s, true)
    ensures Ordered(Reverse(s), false)
  {
    var r := Reverse(s);
    forall i, j | 0 <= i < j < |r|
      ensures Before(r[i], r[j], false)
    {
      ReverseAt(s, i);
      ReverseAt(s, j);
    }
  }

  /** A list with the values SORT routed to one side holds only values of that sign. */
  lemma RoutedSign(elements: seq<int>, list: seq<int>, positive: bool)
    requires multiset(list) == multiset(SortRouted(elements, positive))
    ensures forall k :: 0 <= k < |list| ==> (list[k] >= 0 <==> positive)
  {
    forall k | 0 <= k < |list|
      ensures list[k] >= 0 <==> positive
    {
      var routed := SortRouted(elements, positive);
      assert list[k] in multiset(routed);
      var j :| 0 <= j < |routed| && routed[j] == list[k];
    }
  }

  /**
   * Values of one sign appended in the order of their delays: ascending
   * on the positive side, descending on the negative side.
   */
  lemma ByDelayOrdered(list: seq<int>, positive: bool)
    requires ByDelay(list)
    requires forall k :: 0 <= k < |list| ==> (list[k] >= 0 <==> positive)
    ensures Ordered(list, !positive)
  {
    forall i, j | 0 <= i < j < |list|
      ensures Before(list[i], list[j], !positive)
    {
      assert SortDelay(list[i]) <= SortDelay(list[j]);
    }
  }

  /** Ascending negatives followed by ascending non-negatives are ascending. */
  lemma SignsConcatOrdered(front: seq<int>, back: seq<int>)
    requires Ordered(front, false) && Ordered(back, false)
    requires forall k :: 0 <= k < |front| ==> front[k] < 0
    requires forall k :: 0 <= k < |back| ==> back[k] >= 0
    ensures Ordered(front + back, false)
  {
    var t := front + back;
    forall i, j | 0 <= i < j < |t|
      ensures Before(t[i], t[j], false)
    {
      if i >= |front| {
        assert t[i] == back[i - |front|] && t[j] == back[j - |front|];
      } else if j < |front| {
        assert t[i] == front[i] && t[j] == front[j];
      } else {
        assert t[i] == front[i] && t[j] == back[j - |front|];
      }
    }
  }

  /**
   * When each list received the values SORT routed to it, in the order of
   * their delays, the negative list reversed onto the front of the
   * positive list is the ascending arrangement of the elements.
   */
  lemma SleepSortSorts(elements: seq<int>, pos: seq<int>, neg: seq<int>)
    requires multiset(pos) == multiset(SortRouted(elements, true)) && ByDelay(pos)
    requires multiset(neg) == multiset(SortRouted(elements, false)) && ByDelay(neg)
    ensures Reverse(neg) + pos == Sort(elements, false)
  {
    var front := Reverse(neg);
    RoutedSign(elements, pos, true);
    RoutedSign(elements, neg, false);
    RoutedSign(elements, front, false);
    ByDelayOrdered(pos, true);
    ByDelayOrdered(neg, false);
    ReverseOrdered(neg);
    SignsConcatOrdered(front, pos);
    SortRoutedSplits(elements);
    assert multiset(front + pos) == multiset(elements);
    SortIsUnique(elements, front + pos, false);
  }

  /** A list head: the values of its nodes, first node first. */
  class IntListHead {
    var vals: seq<int>

    constructor(vals0: seq<int>)
      ensures vals == vals0
    {
      vals := vals0;
    }
  }

  /**
   * The loop after the join: each node taken off the front of the
   * negative list is pushed on the front of the positive list.
   */
  method SpliceNegOntoPos(pos: IntListHead, neg: IntListHead)
    requires pos != neg
    modifies pos, neg
    ensures pos.vals == Reverse(old(neg.vals)) + old(pos.vals)
    ensures neg.vals == []
  {
    ghost var negs := neg.vals;
    ghost var k := 0;
    while neg.vals != []
      invariant k <= |negs| && neg.vals == negs[k..]
      invariant pos.vals == Reverse(negs[..k]) + old(pos.vals)
      decreases |neg.vals|
    {
      var node := neg.vals[0];
      neg.vals := neg.vals[1..];
      pos.vals := [node] + pos.vals;
      assert negs[..k + 1][..k] == negs[..k];
      k := k + 1;
    }
    assert negs[..k] == negs;
  }

  /** The copy back: node values in list order overwrite elements[0 .. num_elements). */
  method CopyBack(elements: array<int>, pos: IntListHead)
    requires |pos.vals| == elements.Length
    modifies elements
    ensures elements[..] == pos.vals
  {
    if pos.vals != [] {
      for i := 0 to elements.Length
        invariant elements[..i] == pos.vals[..i]
      {
        elements[i] := pos.vals[i];
      }
      assert elements[..] == elements[..elements.Length];
    }
  }

  /**
   * _sleep_reorder after the threads are joined, given the lists as the
   * threads filled them: elements end as the reversed negative list
   * followed by the positive list.
   */
  method SleepReorderAfterJoin(elements: array<int>, posArrived: seq<int>, negArrived: seq<int>)
    requires |posArrived| + |negArrived| == elements.Length
    modifies elements
    ensures elements[..] == Reverse(negArrived) + posArrived
  {
    var pos := new IntListHead(posArrived);
    var neg := new IntListHead(negArrived);
    SpliceNegOntoPos(pos, neg);
    CopyBack(elements, pos);
  }

  /**
   * sleep_sort: when the threads append in the order of their delays,
   * elements end in ascending order.
   */
  method SleepSort(elements: array<int>, posArrived: seq<int>, negArrived: seq<int>)
    requires multiset(posArrived) == multiset(SortRouted(elements[..], true)) && ByDelay(posArrived)
    requires multiset(negArrived) == multiset(SortRouted(elements[..], false)) && ByDelay(negArrived)
    modifies elements
    ensures elements[..] == Sort(old(elements[..]), false)
  {
    SortRoutedSplits(elements[..]);
    assert |posArrived| + |negArrived| == elements.Length by {
      assert |multiset(posArrived)| + |multiset(negArrived)| == |multiset(elements[..])|;
    }
    SleepSortSorts(elements[..], posArrived, negArrived);
    SleepReorderAfterJoin(elements, posArrived, negArrived);
  }

  /**
   * _sleep_shuffle: every value goes to the positive list, so whatever
   * order the threads append in, elements end as a rearrangement.
   */
  method SleepShuffle(elements: array<int>, arrived: seq<int>)
    requires multiset(arrived) == multiset(elements[..])
    modifies elements
    ensures elements[..] == arrived
    ensures multiset(elements[..]) == multiset(old(elements[..]))
  {
    assert |arrived| == |multiset(arrived)| == elements.Length;
    SleepReorderAfterJoin(elements, arrived, []);
    assert Reverse([]) + arrived == arrived;
  }
}
