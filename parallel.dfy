/**
 * python/parallel.py: a batch of N tasks, each drawing a random number in
 * [0, threshold]; a draw at or above the threshold aborts the task with
 * status 1, otherwise the task sleeps for the drawn number of seconds and
 * records status 0. The workers are run one after another here, over a
 * given sequence of draws, one per task in task order: None for a worker
 * that died before writing its status (as does any task past the end of
 * the sequence).
 */
module Parallel {
  import opened Wrappers

  const DefaultThreshold: nat := 3
  /** The status the summary reports for a task that recorded none. */
  const Missing: int := -1

  /** Python's str.isdigit, restricted to ASCII digits. */
  predicate IsDigits(s: string)
  {
    |s| > 0 && forall i :: 0 <= i < |s| ==> '0' <= s[i] <= '9'
  }

  /** int(s) for a string of decimal digits. */
  function DigitsValue(s: string): nat
    requires forall i :: 0 <= i < |s| ==> '0' <= s[i] <= '9'
  {
    if s == [] then 0 else 10 * DigitsValue(s[..|s| - 1]) + (s[|s| - 1] - '0') as nat
  }

  /** What main decides from its arguments: print usage, or run. */
  datatype Invocation = Usage | Run(numTasks: nat, threshold: nat)

  /** The three usage checks at the top of main, in order. */
  function ParseArgs(argv: seq<string>): (r: Invocation)
    ensures r.Run? <==>
              && 2 <= |argv| <= 3
              && IsDigits(argv[1]) && DigitsValue(argv[1]) >= 1
              && (|argv| == 3 ==> IsDigits(argv[2]))
    ensures r.Run? ==> r.numTasks >= 1
    ensures r.Run? && |argv| == 2 ==> r.threshold == DefaultThreshold
    ensures r.Run? && |argv| == 3 ==> r.threshold == DigitsValue(argv[2])
  {
    if |argv| < 2 || !IsDigits(argv[1]) || DigitsValue(argv[1]) < 1 then Usage
    else if |argv| == 3 && !IsDigits(argv[2]) then Usage
    else if |argv| > 3 then Usage
    else
      var threshold := if |argv| >= 3 then DigitsValue(argv[2]) else DefaultThreshold;
      Run(DigitsValue(argv[1]), threshold)
  }

  /** What one task does with its draw: the status it records and the sleep it makes. */
  datatype TaskOutcome = TaskOutcome(status: int, slept: Option<int>)

  /** do_task once the draw has been taken. */
  function DoTask(draw: int, threshold: int): (o: TaskOutcome)
    ensures o.status == 0 || o.status == 1
    ensures o.status == 1 <==> o.slept.None?
    ensures o.slept.Some? ==> o.slept.value == draw < threshold
  {
    if draw >= threshold then TaskOutcome(1, None)
    else TaskOutcome(0, Some(draw))
  }

  /** The draw of task id (counted from 1), or None when its worker died. */
  function DrawOf(draws: seq<Option<int>>, id: nat): Option<int>
  {
    if 1 <= id <= |draws| then draws[id - 1] else None
  }

  /** The shared store after tasks 1..n have run over the draws. */
  function StoreAfter(n: nat, threshold: int, draws: seq<Option<int>>): (store: map<nat, int>)
    ensures forall id :: id in store <==> 1 <= id <= n && DrawOf(draws, id).Some?
    ensures forall id :: id in store ==> store[id] == DoTask(DrawOf(draws, id).value, threshold).status
  {
    if n == 0 then map[]
    else match DrawOf(draws, n)
      case Some(d) => StoreAfter(n - 1, threshold, draws)[n := DoTask(d, threshold).status]
      case None => StoreAfter(n - 1, threshold, draws)
  }

  /** The sleeps tasks 1..n make, in task order: the draws below the threshold. */
  function Sleeps(n: nat, threshold: int, draws: seq<Option<int>>): (s: seq<int>)
    ensures forall k :: 0 <= k < |s| ==> s[k] < threshold
  {
    if n == 0 then []
    else
      Sleeps(n - 1, threshold, draws) +
      match DrawOf(draws, n)
        case None => []
        case Some(d) => (match DoTask(d, threshold).slept case Some(v) => [v] case None => [])
  }

  /** The statuses the summary loop prints, for task ids 1..n in ascending order. */
  function Summary(n: nat, store: map<nat, int>): (s: seq<int>)
    ensures |s| == n
    ensures forall i :: 0 <= i < n ==> s[i] == (if i + 1 in store then store[i + 1] else Missing)
  {
    seq(n, i requires 0 <= i => if i + 1 in store then store[i + 1] else Missing)
  }

  predicate AllSucceeded(statuses: seq<int>)
  {
    forall i :: 0 <= i < |statuses| ==> statuses[i] == 0
  }

  function Count(s: seq<int>, v: int): (c: nat)
    ensures c <= |s|
  {
    if s == [] then 0 else (if s[0] == v then 1 else 0) + Count(s[1..], v)
  }

  /**
   * main with the workers sequentialised: returns the exit code, the statuses
   * printed by the summary in id order, and the sleeps the workers made,
   * in task order.
   */
  method RunTasks(argv: seq<string>, draws: seq<Option<int>>) returns (exitCode: int, summary: seq<int>, sleeps: seq<int>)
    ensures ParseArgs(argv).Usage? ==> exitCode == 1 && summary == [] && sleeps == []
    ensures ParseArgs(argv).Run? ==>
              var inv := ParseArgs(argv);
              summary == Summary(inv.numTasks, StoreAfter(inv.numTasks, inv.threshold, draws)) &&
              sleeps == Sleeps(inv.numTasks, inv.threshold, draws)
    ensures exitCode == 0 || exitCode == 1
    ensures ParseArgs(argv).Run? ==> (exitCode == 0 <==> AllSucceeded(summary))
  {
    var inv := ParseArgs(argv);
    if inv.Usage? {
      return 1, [], [];
    }
    var store;
    store, sleeps := RunWorkers(inv.numTasks, inv.threshold, draws);
    exitCode, summary := ReportStatuses(inv.numTasks, store);
  }

  /** Starting and joining the workers: each task with a draw records its status and maybe sleeps. */
  method RunWorkers(numTasks: nat, threshold: int, draws: seq<Option<int>>) returns (store: map<nat, int>, sleeps: seq<int>)
    ensures store == StoreAfter(numTasks, threshold, draws)
    ensures sleeps == Sleeps(numTasks, threshold, draws)
  {
    store, sleeps := map[], [];
    var taskId := 1;
    while taskId < 1 + numTasks
      invariant 1 <= taskId <= numTasks + 1
      invariant store == StoreAfter(taskId - 1, threshold, draws)
      invariant sleeps == Sleeps(taskId - 1, threshold, draws)
    {
      if taskId - 1 < |draws| && draws[taskId - 1].Some? {
        var sleepVal := draws[taskId - 1].value;
        if sleepVal >= threshold {
          store := store[taskId := 1];
        } else {
          sleeps := sleeps + [sleepVal];
          store := store[taskId := 0];
        }
      }
      taskId := taskId + 1;
    }
  }

  /** The summary loop: each task's status or -1, and exit code 1 once any of them is not 0. */
  method ReportStatuses(numTasks: nat, store: map<nat, int>) returns (exitCode: int, summary: seq<int>)
    ensures summary == Summary(numTasks, store)
    ensures exitCode == 0 || exitCode == 1
    ensures exitCode == 0 <==> AllSucceeded(summary)
  {
    exitCode, summary := 0, [];
    var taskId := 1;
    while taskId < 1 + numTasks
      invariant 1 <= taskId <= numTasks + 1
      invariant summary == Summary(taskId - 1, store)
      invariant exitCode == 0 || exitCode == 1
      invariant exitCode == 0 <==> AllSucceeded(summary)
    {
      var taskCode := if taskId in store then store[taskId] else Missing;
      ghost var before := summary;
      summary := summary + [taskCode];
      assert forall i :: 0 <= i < |before| ==> summary[i] == before[i];
      if taskCode != 0 {
        assert summary[|before|] != 0;
        exitCode := 1;
      } else if exitCode == 1 {
        ghost var j :| 0 <= j < |before| && before[j] != 0;
        assert summary[j] != 0;
      }
      taskId := taskId + 1;
    }
  }

  /** What the summary reports for task id: its status, or -1 when its worker died. */
  function Reported(threshold: int, draws: seq<Option<int>>, id: nat): int
  {
    match DrawOf(draws, id)
    case None => Missing
    case Some(d) => DoTask(d, threshold).status
  }

  /** Line i of the summary is what task i + 1 reported. */
  lemma SummaryReports(n: nat, threshold: int, draws: seq<Option<int>>)
    ensures Summary(n, StoreAfter(n, threshold, draws)) == seq(n, i requires 0 <= i => Reported(threshold, draws, i + 1))
  {
  }

  /** A task ran and stayed below the threshold. */
  predicate Succeeded(draws: seq<Option<int>>, id: nat, threshold: int)
  {
    DrawOf(draws, id).Some? && DrawOf(draws, id).value < threshold
  }

  /** The exit code is 0 exactly when every task 1..n ran and drew below the threshold. */
  lemma SuccessIffEveryTaskSucceeded(n: nat, threshold: int, draws: seq<Option<int>>)
    ensures AllSucceeded(Summary(n, StoreAfter(n, threshold, draws)))
        <==> forall id :: 1 <= id <= n ==> Succeeded(draws, id, threshold)
  {
    var s := Summary(n, StoreAfter(n, threshold, draws));
    if AllSucceeded(s) {
      forall id | 1 <= id <= n ensures Succeeded(draws, id, threshold) {
        assert s[id - 1] == 0;
      }
    }
    if forall id :: 1 <= id <= n ==> Succeeded(draws, id, threshold) {
      forall i | 0 <= i < n ensures s[i] == 0 {
        assert Succeeded(draws, i + 1, threshold);
      }
    }
  }

  /**
   * Each sleep belongs to a task that reported 0: there are as many sleeps
   * as 0 lines in the summary.
   */
  lemma {:induction false} SleepsMatchSuccesses(n: nat, threshold: int, draws: seq<Option<int>>)
    ensures |Sleeps(n, threshold, draws)| == Count(Summary(n, StoreAfter(n, threshold, draws)), 0)
  {
    if n > 0 {
      SleepsMatchSuccesses(n - 1, threshold, draws);
      var before := Summary(n - 1, StoreAfter(n - 1, threshold, draws));
      var after := Summary(n, StoreAfter(n, threshold, draws));
      assert after == before + [after[n - 1]];
      CountAppend(before, [after[n - 1]], 0);
    }
  }

  /** A threshold of 0 makes every task that ran fail: the draw in [0, 0] is 0 >= 0. */
  lemma ThresholdZeroFailsEveryTask(n: nat, draws: seq<Option<int>>)
    requires forall k :: 0 <= k < |draws| && draws[k].Some? ==> draws[k].value == 0
    ensures forall i :: 0 <= i < n ==> Summary(n, StoreAfter(n, 0, draws))[i] != 0
    ensures Sleeps(n, 0, draws) == []
  {
  }

  /** A task whose worker died before writing is reported as -1. */
  lemma DeadWorkerIsMissing(n: nat, threshold: int, draws: seq<Option<int>>, id: nat)
    requires 1 <= id <= n && DrawOf(draws, id).None?
    ensures Summary(n, StoreAfter(n, threshold, draws))[id - 1] == Missing
    ensures !AllSucceeded(Summary(n, StoreAfter(n, threshold, draws)))
  {
  }

  /** The argument checks reject a bad task count or threshold before any task runs. */
  lemma UsageCases()
    ensures ParseArgs(["parallel.py"]).Usage?
    ensures ParseArgs(["parallel.py", "0"]).Usage?
    ensures ParseArgs(["parallel.py", "x"]).Usage?
    ensures ParseArgs(["parallel.py", "2", "-1"]).Usage?
    ensures ParseArgs(["parallel.py", "2", "3", "4"]).Usage?
    ensures ParseArgs(["parallel.py", "2"]) == Run(2, 3)
  {
    assert DigitsValue("0") == 0;
    assert DigitsValue("2") == 2;
  }

  lemma {:induction false} CountAppend(s: seq<int>, t: seq<int>, v: int)
    ensures Count(s + t, v) == Count(s, v) + Count(t, v)
  {
    if s == [] {
      assert s + t == t;
    } else {
      assert (s + t)[1..] == s[1..] + t;
      CountAppend(s[1..], t, v);
    }
  }

  /** Every worker ran and drew the given value. */
  function AllRan(ds: seq<int>): (r: seq<Option<int>>)
    ensures |r| == |ds| && forall k :: 0 <= k < |ds| ==> r[k] == Some(ds[k])
  {
    seq(|ds|, k requires 0 <= k < |ds| => Some(ds[k]))
  }

  /** The statuses the summary prints when every worker ran, draw by draw. */
  function Statuses(ds: seq<int>, threshold: int): (s: seq<int>)
    ensures |s| == |ds|
  {
    seq(|ds|, i requires 0 <= i < |ds| => DoTask(ds[i], threshold).status)
  }

  /** With every worker alive, the summary is the status of each draw in order. */
  lemma AllRanSummary(ds: seq<int>, threshold: int)
    ensures Summary(|ds|, StoreAfter(|ds|, threshold, AllRan(ds))) == Statuses(ds, threshold)
  {
    SummaryReports(|ds|, threshold, AllRan(ds));
  }

  /** The test with ten tasks, threshold 5 and every draw below 5 exits 0. */
  lemma ScenarioAllBelowThreshold(ds: seq<int>)
    requires ds == [0, 0, 0, 1, 1, 1, 2, 2, 2, 3, 3, 3, 4]
    ensures var s := Summary(10, StoreAfter(10, 5, AllRan(ds)));
            s == [0, 0, 0, 0, 0, 0, 0, 0, 0, 0] && AllSucceeded(s)
  {
    var s := Summary(10, StoreAfter(10, 5, AllRan(ds)));
    forall id | 1 <= id <= 10 ensures Succeeded(AllRan(ds), id, 5) {
      assert ds[id - 1] < 5;
    }
    SuccessIffEveryTaskSucceeded(10, 5, AllRan(ds));
    assert forall i :: 0 <= i < 10 ==> s[i] == 0;
  }

  /** The test with threshold 10 and two draws of 10: eight 0 lines, two 1 lines, nonzero exit. */
  lemma ScenarioTwoAborts(ds: seq<int>)
    requires ds == [1, 10, 2, 3, 0, 1, 2, 3, 10, 0]
    ensures var s := Summary(10, StoreAfter(10, 10, AllRan(ds)));
            Count(s, 0) == 8 && Count(s, 1) == 2 && !AllSucceeded(s)
  {
    AllRanSummary(ds, 10);
    var printed := [0, 1, 0, 0, 0, 0, 0, 0, 1, 0];
    AbortsAtTens(ds, printed);
    assert Count(printed, 0) == 8 && Count(printed, 1) == 2;
    assert printed[1] != 0;
  }

  /** Draws of 10 at threshold 10 abort with 1; the others succeed with 0. */
  lemma AbortsAtTens(ds: seq<int>, printed: seq<int>)
    requires ds == [1, 10, 2, 3, 0, 1, 2, 3, 10, 0] && printed == [0, 1, 0, 0, 0, 0, 0, 0, 1, 0]
    ensures Statuses(ds, 10) == printed
  {
    assert forall i :: 0 <= i < 10 ==> Statuses(ds, 10)[i] == printed[i];
  }

  /**
   * A worker in the middle that dies: its task is reported as -1 between
   * two successes, the exit is nonzero, and only the two live tasks sleep.
   */
  lemma ScenarioDeadWorker()
    ensures var draws := [Some(0), None, Some(2)];
            Summary(3, StoreAfter(3, 3, draws)) == [0, Missing, 0] && Sleeps(3, 3, draws) == [0, 2]
  {
    var draws := [Some(0), None, Some(2)];
    var s := Summary(3, StoreAfter(3, 3, draws));
    assert s[0] == 0 && s[1] == Missing && s[2] == 0;
  }
}
