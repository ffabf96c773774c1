/**
 * c/minion-stats.c: rolling D&D ability scores for a band of minions.
 * A stat is the sum of the best dice of a roll, its bonus is half of it
 * less five, and minions compare by total bonus and then by their stats
 * from best to worst. The random numbers roll_stats draws are a
 * parameter, one row of draws per stat.
 */
module MinionStats {
  import opened IntSorting

  const IntMin := -0x8000_0000
  const IntMax := 0x7FFF_FFFF
  /** Storing an int into a uint16_t keeps it modulo this. */
  const U16Limit := 0x1_0000

  /** bonus_for_stat: stat_val / 2 - 5, with C's division truncating toward zero. */
  function BonusForStat(statVal: int): (r: int)
    ensures statVal >= 0 ==> 2 * (r + 5) <= statVal <= 2 * (r + 5) + 1
    ensures statVal < 0 ==> 2 * (r + 5) - 1 <= statVal <= 2 * (r + 5)
  {
    (if statVal >= 0 then statVal / 2 else -((-statVal) / 2)) - 5
  }

  /** A higher stat never has a lower bonus; 10 and 11 give 0, 3 gives -4 and 18 gives +4. */
  lemma BonusMonotone(a: int, b: int)
    requires a <= b
    ensures BonusForStat(a) <= BonusForStat(b)
    ensures BonusForStat(10) == BonusForStat(11) == 0
    ensures BonusForStat(3) == -4 && BonusForStat(18) == 4
  {
  }

  /**
   * u16cmpdesc and zcmpdesc, which differ only in the width of the
   * values they read: positive when b > a, negative when a > b, zero when
   * they are equal.
   */
  function CmpDesc(a: int, b: int): (r: int)
    ensures r > 0 <==> b > a
    ensures r < 0 <==> a > b
    ensures -1 <= r <= 1
  {
    if b > a then 1 else if a > b then -1 else 0
  }

  /**
   * The comparators are antisymmetric, and a comes no later than b under
   * them exactly when a >= b: qsort with them orders descending.
   */
  lemma CmpDescIsDescending(a: int, b: int)
    ensures CmpDesc(a, b) == -CmpDesc(b, a)
    ensures CmpDesc(a, b) <= 0 <==> Before(a, b, true)
  {
  }

  /** The die a draw r gives: (r % die_max_value) + 1. */
  function Die(r: nat, dieMax: nat): (v: int)
    requires dieMax > 0
    ensures 1 <= v <= dieMax
  {
    r % dieMax + 1
  }

  /** The dice of one stat, from its row of draws. */
  function Dice(row: seq<nat>, dieMax: nat): (d: seq<int>)
    requires dieMax > 0
    ensures |d| == |row|
    ensures forall k :: 0 <= k < |d| ==> 1 <= d[k] <= dieMax
  {
    if row == [] then [] else Dice(row[..|row| - 1], dieMax) + [Die(row[|row| - 1], dieMax)]
  }

  /** How many dice count: min(dice_to_keep, num_dice). */
  function Kept(numDice: nat, keep: nat): nat
  {
    if keep < numDice then keep else numDice
  }

  function Sum(s: seq<int>): int
  {
    if s == [] then 0 else Sum(s[..|s| - 1]) + s[|s| - 1]
  }

  /** The stat one row of draws gives: the sum of the first Kept dice, best first. */
  function StatOf(row: seq<nat>, dieMax: nat, keep: nat): int
    requires dieMax > 0
  {
    Sum(Sort(Dice(row, dieMax), true)[..Kept(|row|, keep)])
  }

  /** The untruncated stats of all rows. */
  function Stats(rolls: seq<seq<nat>>, dieMax: nat, keep: nat): (r: seq<int>)
    requires dieMax > 0
    ensures |r| == |rolls|
  {
    if rolls == [] then []
    else Stats(rolls[..|rolls| - 1], dieMax, keep) + [StatOf(rolls[|rolls| - 1], dieMax, keep)]
  }

  /** The sum of the bonuses of the stats. */
  function BonusTotal(stats: seq<int>): int
  {
    if stats == [] then 0 else BonusTotal(stats[..|stats| - 1]) + BonusForStat(stats[|stats| - 1])
  }

  /** Each stat as it is stored in a uint16_t. */
  function Stored(stats: seq<int>): (r: seq<int>)
    ensures |r| == |stats|
  {
    if stats == [] then [] else Stored(stats[..|stats| - 1]) + [stats[|stats| - 1] % U16Limit]
  }

  lemma {:induction false} SumBounds(s: seq<int>, lo: int, hi: int)
    requires forall k :: 0 <= k < |s| ==> lo <= s[k] <= hi
    ensures |s| * lo <= Sum(s) <= |s| * hi
  {
    if s != [] {
      SumBounds(s[..|s| - 1], lo, hi);
    }
  }

  /**
   * A stat sums the largest dice: every kept die is at least every
   * dropped one, all are dice of the roll, and the stat lies between the
   * number of kept dice and that many times die_max_value.
   */
  lemma StatKeepsLargest(row: seq<nat>, dieMax: nat, keep: nat)
    requires dieMax > 0
    ensures var t := Sort(Dice(row, dieMax), true);
      multiset(t) == multiset(Dice(row, dieMax)) &&
      (forall i, j :: 0 <= i < Kept(|row|, keep) <= j < |t| ==> t[i] >= t[j])
    ensures Kept(|row|, keep) <= StatOf(row, dieMax, keep) <= Kept(|row|, keep) * dieMax
  {
    var t := Sort(Dice(row, dieMax), true);
    var k := Kept(|row|, keep);
    SortOrdered(Dice(row, dieMax), true);
    forall i | 0 <= i < |t|
      ensures 1 <= t[i] <= dieMax
    {
      assert t[i] in multiset(Dice(row, dieMax));
    }
    SumBounds(t[..k], 1, dieMax);
  }

  /**
   * A minion's stats, updated in place by roll_stats. stats_len is the
   * length of the array.
   */
  class CharStats {
    const stats: array<int>
    var totalBonuses: int

    /** main's set-up of one minion: NUM_STATS zeroed stats, no bonus yet. */
    constructor (statsLen: nat)
      ensures fresh(stats) && stats.Length == statsLen
      ensures stats[..] == seq(statsLen, _ => 0) && totalBonuses == 0
    {
      stats := new int[statsLen](_ => 0);
      totalBonuses := 0;
    }
  }

  /**
   * What C's int arithmetic in roll_stats needs: no stat and no running
   * total of bonuses leaves the range of int.
   */
  predicate IntSumsFit(stats: seq<int>)
  {
    stats == [] ||
    (IntSumsFit(stats[..|stats| - 1]) && stats[|stats| - 1] <= IntMax && IntMin <= BonusTotal(stats) <= IntMax)
  }

  /** Every prefix of stats whose sums fit has sums that fit. */
  lemma {:induction false} IntSumsFitPrefix(stats: seq<int>, p: nat)
    requires IntSumsFit(stats) && p <= |stats|
    ensures IntSumsFit(stats[..p])
    decreases |stats|
  {
    if p < |stats| {
      IntSumsFitPrefix(stats[..|stats| - 1], p);
      assert stats[..|stats| - 1][..p] == stats[..p];
    } else {
      assert stats[..p] == stats;
    }
  }

  /**
   * roll_stats: for each stat, draw num_dice dice into `dice`, sort them
   * best first, store the sum of the best min(dice_to_keep, num_dice) in
   * the stat (as a uint16_t) and add its bonus, computed on the int sum,
   * to total_bonuses; with sort_stats the stats are then sorted best
   * first. The requires are what C's int arithmetic needs: no stat and no
   * running total overflows.
   */
  method RollStats(minion: CharStats, dice: array<int>, numDice: nat, dieMax: nat, keep: nat,
                   sortStats: bool, rolls: seq<seq<nat>>)
    requires 0 < numDice <= dice.Length && dice != minion.stats
    requires 0 < dieMax < U16Limit
    requires |rolls| == minion.stats.Length
    requires forall s :: 0 <= s < |rolls| ==> |rolls[s]| == numDice
    requires IntSumsFit(Stats(rolls, dieMax, keep))
    modifies minion, minion.stats, dice
    ensures minion.totalBonuses == BonusTotal(Stats(rolls, dieMax, keep))
    ensures !sortStats ==> minion.stats[..] == Stored(Stats(rolls, dieMax, keep))
    ensures sortStats ==> minion.stats[..] == Sort(Stored(Stats(rolls, dieMax, keep)), true)
    ensures dice[numDice..] == old(dice[numDice..])
  {
    RollAll(minion, dice, numDice, dieMax, keep, rolls);
    if sortStats {
      SortDesc(minion.stats);
    }
  }

  lemma StoredSnoc(stats: seq<int>, v: int)
    ensures Stored(stats + [v]) == Stored(stats) + [v % U16Limit]
  {
    assert Stored(stats + [v])[..|stats|] == Stored(stats);
  }

  /** Stat s adds its uint16_t value to the stored stats. */
  lemma StoredStep(all: seq<int>, s: nat)
    requires s < |all|
    ensures Stored(all[..s + 1]) == Stored(all[..s]) + [all[s] % U16Limit]
  {
    assert all[..s + 1] == all[..s] + [all[s]];
    StoredSnoc(all[..s], all[s]);
  }

  /** Stat s adds its bonus to the total. */
  lemma BonusStep(all: seq<int>, s: nat)
    requires s < |all|
    ensures BonusTotal(all[..s + 1]) == BonusTotal(all[..s]) + BonusForStat(all[s])
  {
    assert all[..s + 1] == all[..s] + [all[s]];
    BonusTotalSnoc(all[..s], all[s]);
  }

  /** Stat s and the total after it fit an int. */
  lemma FitsStep(all: seq<int>, s: nat)
    requires IntSumsFit(all) && s < |all|
    ensures all[s] <= IntMax && IntMin <= BonusTotal(all[..s + 1]) <= IntMax
  {
    IntSumsFitPrefix(all, s + 1);
    IntSumsFitLast(all[..s + 1]);
  }

  lemma BonusTotalSnoc(stats: seq<int>, v: int)
    ensures BonusTotal(stats + [v]) == BonusTotal(stats) + BonusForStat(v)
  {
    assert (stats + [v])[..|stats|] == stats;
  }

  lemma IntSumsFitLast(stats: seq<int>)
    requires IntSumsFit(stats) && stats != []
    ensures stats[|stats| - 1] <= IntMax && IntMin <= BonusTotal(stats) <= IntMax
  {
  }

  /** Values that fit a uint16_t are stored unchanged. */
  lemma {:induction false} StoredInRange(stats: seq<int>)
    requires forall k :: 0 <= k < |stats| ==> 0 <= stats[k] < U16Limit
    ensures Stored(stats) == stats
  {
    if stats != [] {
      StoredInRange(stats[..|stats| - 1]);
    }
  }

  /** The loop of roll_stats over the stats, before the optional sort. */
  method RollAll(minion: CharStats, dice: array<int>, numDice: nat, dieMax: nat, keep: nat,
                 rolls: seq<seq<nat>>)
    requires 0 < numDice <= dice.Length && dice != minion.stats
    requires 0 < dieMax < U16Limit
    requires |rolls| == minion.stats.Length
    requires forall s :: 0 <= s < |rolls| ==> |rolls[s]| == numDice
    requires IntSumsFit(Stats(rolls, dieMax, keep))
    modifies minion, minion.stats, dice
    ensures minion.totalBonuses == BonusTotal(Stats(rolls, dieMax, keep))
    ensures minion.stats[..] == Stored(Stats(rolls, dieMax, keep))
    ensures dice[numDice..] == old(dice[numDice..])
  {
    var stats := minion.stats;
    ghost var all := Stats(rolls, dieMax, keep);
    minion.totalBonuses := 0;
    var s := 0;
    while s < stats.Length
      invariant s <= stats.Length
      invariant minion.totalBonuses == BonusTotal(all[..s])
      invariant stats[..s] == Stored(all[..s])
      invariant dice[numDice..] == old(dice[numDice..])
    {
      RollNext(minion, dice, numDice, dieMax, keep, rolls, s);
      s := s + 1;
    }
    assert all[..s] == all;
  }

  /** One turn of the loop of roll_stats, from the state after s stats to the state after s + 1. */
  method RollNext(minion: CharStats, dice: array<int>, numDice: nat, dieMax: nat, keep: nat,
                  rolls: seq<seq<nat>>, s: nat)
    requires 0 < numDice <= dice.Length && dice != minion.stats && 0 < dieMax
    requires s < |rolls| == minion.stats.Length && |rolls[s]| == numDice
    requires IntSumsFit(Stats(rolls, dieMax, keep))
    requires minion.totalBonuses == BonusTotal(Stats(rolls, dieMax, keep)[..s])
    requires minion.stats[..s] == Stored(Stats(rolls, dieMax, keep)[..s])
    modifies minion, minion.stats, dice
    ensures minion.totalBonuses == BonusTotal(Stats(rolls, dieMax, keep)[..s + 1])
    ensures minion.stats[..s + 1] == Stored(Stats(rolls, dieMax, keep)[..s + 1])
    ensures dice[..numDice] == Sort(Dice(rolls[s], dieMax), true)
    ensures dice[numDice..] == old(dice[numDice..])
  {
    ghost var all := Stats(rolls, dieMax, keep);
    StoredStep(all, s);
    BonusStep(all, s);
    FitsStep(all, s);
    StatsAt(rolls, dieMax, keep, s);
    RollStat(minion, dice, numDice, dieMax, keep, rolls[s], s, all[s]);
  }

  /** One turn of the loop of roll_stats: roll stat s from row, store it and add its bonus. */
  method RollStat(minion: CharStats, dice: array<int>, numDice: nat, dieMax: nat, keep: nat,
                  row: seq<nat>, s: nat, ghost v: int)
    requires 0 < numDice <= dice.Length && dice != minion.stats
    requires 0 < dieMax && s < minion.stats.Length && |row| == numDice
    requires v == StatOf(row, dieMax, keep) && v <= IntMax
    requires IntMin <= minion.totalBonuses + BonusForStat(v) <= IntMax
    modifies minion, minion.stats, dice
    ensures minion.stats[..s + 1] == old(minion.stats[..s]) + [v % U16Limit]
    ensures minion.totalBonuses == old(minion.totalBonuses) + BonusForStat(v)
    ensures dice[..numDice] == Sort(Dice(row, dieMax), true)
    ensures dice[numDice..] == old(dice[numDice..])
  {
    var stat := RollOne(dice, numDice, dieMax, keep, row);
    minion.stats[s] := stat % U16Limit;
    minion.totalBonuses := minion.totalBonuses + BonusForStat(stat);
  }

  /** Stat s of the rolls is the stat of row s. */
  lemma {:induction false} StatsAt(rolls: seq<seq<nat>>, dieMax: nat, keep: nat, s: nat)
    requires dieMax > 0 && s < |rolls|
    ensures Stats(rolls, dieMax, keep)[s] == StatOf(rolls[s], dieMax, keep)
    decreases |rolls|
  {
    var n := |rolls| - 1;
    var prev := Stats(rolls[..n], dieMax, keep);
    assert Stats(rolls, dieMax, keep) == prev + [StatOf(rolls[n], dieMax, keep)];
    if s < n {
      StatsAt(rolls[..n], dieMax, keep, s);
      assert rolls[..n][s] == rolls[s];
    }
  }

  /** qsort(a, len, sizeof(uint16_t), u16cmpdesc) over a whole stats array. */
  method SortDesc(a: array<int>)
    modifies a
    ensures a[..] == Sort(old(a[..]), true)
  {
    ghost var before := a[..];
    assert before == a[..a.Length];
    Qsort(a, a.Length, true);
    assert a[..] == a[..a.Length];
  }

  /** One stat of roll_stats: roll the dice, sort them best first and sum the kept ones. */
  method RollOne(dice: array<int>, numDice: nat, dieMax: nat, keep: nat, row: seq<nat>) returns (stat: int)
    requires 0 < numDice <= dice.Length && |row| == numDice && dieMax > 0
    modifies dice
    ensures stat == StatOf(row, dieMax, keep)
    ensures dice[..numDice] == Sort(Dice(row, dieMax), true)
    ensures dice[numDice..] == old(dice[numDice..])
  {
    RollDice(dice, numDice, dieMax, row);
    Qsort(dice, numDice, true);
    KeptOfSorted(dice[..], numDice, Kept(numDice, keep), Sort(Dice(row, dieMax), true));
    stat := SumKept(dice, numDice, keep);
  }

  /** The first k of the first n elements are the first k elements. */
  lemma KeptOfSorted(a: seq<int>, n: nat, k: nat, best: seq<int>)
    requires k <= n <= |a| && a[..n] == best
    ensures a[..k] == best[..k]
  {
    assert a[..n][..k] == a[..k];
  }

  /** The dice loop of roll_stats: dice[d] = (r % die_max_value) + 1 for each draw r. */
  method RollDice(dice: array<int>, numDice: nat, dieMax: nat, row: seq<nat>)
    requires numDice <= dice.Length && |row| == numDice && dieMax > 0
    modifies dice
    ensures dice[..numDice] == Dice(row, dieMax)
    ensures dice[numDice..] == old(dice[numDice..])
  {
    for d := 0 to numDice
      invariant dice[..d] == Dice(row[..d], dieMax)
      invariant dice[numDice..] == old(dice[numDice..])
    {
      assert row[..d + 1][..d] == row[..d];
      dice[d] := Die(row[d], dieMax);
      assert dice[..d + 1] == dice[..d] + [dice[d]];
    }
    assert row[..numDice] == row;
  }

  /** The summing loop of roll_stats: the first min(dice_to_keep, num_dice) dice. */
  method SumKept(dice: array<int>, numDice: nat, keep: nat) returns (stat: int)
    requires numDice <= dice.Length
    ensures stat == Sum(dice[..Kept(numDice, keep)])
  {
    stat := 0;
    var d := 0;
    while d < keep && d < numDice
      invariant d <= Kept(numDice, keep)
      invariant stat == Sum(dice[..d])
    {
      assert dice[..d + 1][..d] == dice[..d];
      stat := stat + (if d < numDice then dice[d] else 1);
      d := d + 1;
    }
  }

  /** The bonus total is the same whatever the order of the stats. */
  lemma {:induction false} BonusTotalPermutation(s: seq<int>, t: seq<int>)
    requires multiset(s) == multiset(t)
    ensures BonusTotal(s) == BonusTotal(t)
    decreases |s|
  {
    assert |s| == |multiset(s)| == |multiset(t)| == |t|;
    if s != [] {
      var n := |s| - 1;
      var x := s[n];
      assert s == s[..n] + [x];
      assert x in multiset(t);
      var j :| 0 <= j < |t| && t[j] == x;
      var u := t[..j] + t[j + 1..];
      assert t == t[..j] + [x] + t[j + 1..];
      assert multiset(s) == multiset(s[..n]) + multiset{x};
      assert multiset(t) == multiset(t[..j]) + multiset{x} + multiset(t[j + 1..]);
      assert multiset(u) == multiset(t[..j]) + multiset(t[j + 1..]);
      assert multiset(s[..n]) == multiset(s) - multiset{x};
      assert multiset(u) == multiset(t) - multiset{x};
      BonusTotalPermutation(s[..n], u);
      BonusTotalRemove(t, j);
    }
  }

  /** Taking element j out of t takes its bonus out of the total. */
  lemma {:induction false} BonusTotalRemove(t: seq<int>, j: nat)
    requires j < |t|
    ensures BonusTotal(t) == BonusTotal(t[..j] + t[j + 1..]) + BonusForStat(t[j])
    decreases |t|
  {
    var n := |t| - 1;
    var u := t[..j] + t[j + 1..];
    assert t == t[..n] + [t[n]];
    BonusTotalSnoc(t[..n], t[n]);
    if j < n {
      BonusTotalRemove(t[..n], j);
      assert t[..n][..j] + t[..n][j + 1..] == u[..n - 1];
      assert u == u[..n - 1] + [t[n]];
      BonusTotalSnoc(u[..n - 1], t[n]);
    } else {
      assert u == t[..n];
    }
  }


  /**
   * When no stat exceeds a uint16_t, as with main's three six-sided
   * dice, the stored stats are the stats, and total_bonuses is the sum of
   * the bonuses of the stats the minion ends with, sorted or not.
   */
  lemma TotalMatchesStats(stats: seq<int>, shown: seq<int>)
    requires forall k :: 0 <= k < |stats| ==> 0 <= stats[k] < U16Limit
    requires shown == Stored(stats) || shown == Sort(Stored(stats), true)
    ensures multiset(shown) == multiset(stats)
    ensures BonusTotal(shown) == BonusTotal(stats)
  {
    StoredInRange(stats);
    BonusTotalPermutation(shown, stats);
  }

  /** x comes strictly before y in the lexicographic order of equal-length sequences. */
  ghost predicate LexLess(x: seq<int>, y: seq<int>)
    requires |x| == |y|
  {
    exists i :: 0 <= i < |x| && x[..i] == y[..i] && x[i] < y[i]
  }

  /** y[i] - x[i] at the first place the two sequences differ, or 0. */
  function FirstDiff(x: seq<int>, y: seq<int>): int
    requires |x| == |y|
  {
    if x == [] then 0
    else if y[0] - x[0] != 0 then y[0] - x[0]
    else FirstDiff(x[1..], y[1..])
  }

  /** FirstDiff is zero exactly for equal sequences, and swapping them negates it. */
  lemma {:induction false} FirstDiffZero(x: seq<int>, y: seq<int>)
    requires |x| == |y|
    ensures FirstDiff(x, y) == 0 <==> x == y
    ensures FirstDiff(x, y) == -FirstDiff(y, x)
  {
    if x != [] {
      FirstDiffZero(x[1..], y[1..]);
      assert x == [x[0]] + x[1..] && y == [y[0]] + y[1..];
    }
  }

  /** FirstDiff is positive exactly when x comes before y. */
  lemma {:induction false} FirstDiffPositive(x: seq<int>, y: seq<int>)
    requires |x| == |y|
    ensures FirstDiff(x, y) > 0 <==> LexLess(x, y)
  {
    if x == [] {
      return;
    }
    if x[0] < y[0] {
      assert x[..0] == y[..0];
    } else if x[0] > y[0] {
      if LexLess(x, y) {
        var i :| 0 <= i < |x| && x[..i] == y[..i] && x[i] < y[i];
        assert i > 0 ==> x[..i][0] == y[..i][0];
      }
    } else {
      FirstDiffPositive(x[1..], y[1..]);
      if LexLess(x, y) {
        var i :| 0 <= i < |x| && x[..i] == y[..i] && x[i] < y[i];
        assert i > 0;
        assert x[1..][..i - 1] == x[..i][1..] && y[1..][..i - 1] == y[..i][1..];
        assert LexLess(x[1..], y[1..]);
      }
      if LexLess(x[1..], y[1..]) {
        var i :| 0 <= i < |x| - 1 && x[1..][..i] == y[1..][..i] && x[1..][i] < y[1..][i];
        assert x[..i + 1] == [x[0]] + x[1..][..i];
        assert y[..i + 1] == [y[0]] + y[1..][..i];
        assert x[..i + 1] == y[..i + 1] && x[i + 1] < y[i + 1];
      }
    }
  }

  /**
   * The order charstats_cmpdesc computes: total_bonuses of b less that of
   * a when they differ, otherwise FirstDiff of the stats sorted best
   * first.
   */
  function CharStatsOrder(totalA: int, statsA: seq<int>, totalB: int, statsB: seq<int>): int
    requires |statsA| == |statsB|
  {
    if totalB != totalA then totalB - totalA
    else FirstDiff(Sort(statsA, true), Sort(statsB, true))
  }

  /**
   * charstats_cmpdesc ranks a higher total bonus first, then the better
   * stats sorted best first; it is antisymmetric, and it is zero exactly
   * for minions with the same total and the same stats in any order.
   */
  lemma CharStatsOrderMeaning(totalA: int, statsA: seq<int>, totalB: int, statsB: seq<int>)
    requires |statsA| == |statsB|
    ensures CharStatsOrder(totalA, statsA, totalB, statsB) > 0 <==>
      totalB > totalA || (totalB == totalA && LexLess(Sort(statsA, true), Sort(statsB, true)))
    ensures CharStatsOrder(totalA, statsA, totalB, statsB) == -CharStatsOrder(totalB, statsB, totalA, statsA)
    ensures CharStatsOrder(totalA, statsA, totalB, statsB) == 0 <==>
      totalA == totalB && multiset(statsA) == multiset(statsB)
  {
    var sa, sb := Sort(statsA, true), Sort(statsB, true);
    assert |sa| == |multiset(statsA)| == |statsA|;
    assert |sb| == |multiset(statsB)| == |statsB|;
    FirstDiffZero(sa, sb);
    FirstDiffPositive(sa, sb);
    if multiset(statsA) == multiset(statsB) {
      SortOrdered(statsA, true);
      SortIsUnique(statsB, sa, true);
    }
  }

  /**
   * charstats_cmpdesc: copy both stats arrays, return the difference of
   * the totals if they differ, otherwise sort the copies best first and
   * return the first nonzero difference b - a. Neither minion changes.
   */
  method CharstatsCmpDesc(a: CharStats, b: CharStats) returns (rv: int)
    requires a.stats.Length == b.stats.Length
    requires IntMin <= b.totalBonuses - a.totalBonuses <= IntMax
    ensures rv == CharStatsOrder(a.totalBonuses, a.stats[..], b.totalBonuses, b.stats[..])
  {
    var ca := CopyStats(a.stats);
    var cb := CopyStats(b.stats);
    if b.totalBonuses != a.totalBonuses {
      return b.totalBonuses - a.totalBonuses;
    }
    SortDesc(ca);
    SortDesc(cb);
    rv := FirstDiffLoop(ca, cb);
  }

  /** The memcpy of a stats array into a fresh buffer. */
  method CopyStats(src: array<int>) returns (c: array<int>)
    ensures fresh(c) && c[..] == src[..]
  {
    c := new int[src.Length];
    forall i | 0 <= i < src.Length {
      c[i] := src[i];
    }
  }

  /** The comparing loop of charstats_cmpdesc: cb[i] - ca[i] at the first i where they differ. */
  method FirstDiffLoop(ca: array<int>, cb: array<int>) returns (rv: int)
    requires ca.Length == cb.Length
    ensures rv == FirstDiff(ca[..], cb[..])
  {
    rv := 0;
    var i := 0;
    while i < ca.Length && rv == 0
      invariant i <= ca.Length
      invariant rv == 0 ==> FirstDiff(ca[..], cb[..]) == FirstDiff(ca[i..], cb[i..])
      invariant rv != 0 ==> rv == FirstDiff(ca[..], cb[..])
    {
      assert ca[i..][1..] == ca[i + 1..] && cb[i..][1..] == cb[i + 1..];
      rv := cb[i] - ca[i];
      i := i + 1;
    }
  }
}
