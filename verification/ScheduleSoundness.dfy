/** A `Pass` is sound: the reported response bounds every job of the task in every run. */
module ScheduleSoundness {
  import opened Words
  import opened Recurrence
  import opened ResponseTime
  import opened Scheduler

  /** A rival the analyser does not count: at least as urgent, possibly using the CPU, and skipped
      because it shares the task's name or priority. */
  ghost predicate IsUncounted(all: seq<TaskTiming>, i: nat, k: nat)
    requires i < |all| && k < |all|
  {
    k != i && all[i].priority <= all[k].priority && all[k].wcet != Some(0) && !Preempts(all[k], all[i])
  }

  ghost predicate CountsEveryRival(all: seq<TaskTiming>, i: nat)
    requires i < |all|
  {
    forall k: nat :: k < |all| ==> !IsUncounted(all, i, k)
  }

  /** The choice is task `i` or one that the analyser counts against it. */
  ghost predicate ServesLevel(all: seq<TaskTiming>, i: nat, choice: Option<nat>)
    requires i < |all|
  {
    choice.Some? &&
    (choice.value == i || (choice.value < |all| && Preempts(all[choice.value], all[i])))
  }

  /** Ticks that the counted tasks among the first `n` get in `[a, b)`. */
  function PreemptedTicks(all: seq<TaskTiming>, i: nat, run: Run, n: nat, a: nat, b: nat): nat
    requires i < |all| && n <= |all| && a <= b <= |run.cpu|
  {
    if n == 0 then 0
    else if Preempts(all[n - 1], all[i]) then
      PreemptedTicks(all, i, run, n - 1, a, b) + Executed(run, n - 1, a, b)
    else PreemptedTicks(all, i, run, n - 1, a, b)
  }

  lemma {:induction false} PreemptedStep(all: seq<TaskTiming>, i: nat, run: Run, n: nat, a: nat, b: nat)
    requires i < |all| && n <= |all| && a <= b < |run.cpu|
    ensures PreemptedTicks(all, i, run, n, a, a) == 0
    ensures PreemptedTicks(all, i, run, n, a, b + 1) == PreemptedTicks(all, i, run, n, a, b)
      + match run.cpu[b] { case Some(j) => if j < n && Preempts(all[j], all[i]) then 1 else 0 case None => 0 }
  {
    if n != 0 {
      PreemptedStep(all, i, run, n - 1, a, b);
    }
  }

  /** A tick serves one task: task `i`, the counted tasks and a bystander `k` share a window, and
      fill it when every tick of it serves the level. */
  lemma {:induction false} WindowIsShared(all: seq<TaskTiming>, i: nat, k: nat, run: Run, a: nat, b: nat)
    requires i < |all| && k != i && (k < |all| ==> !Preempts(all[k], all[i]))
    requires a <= b <= |run.cpu|
    ensures PreemptedTicks(all, i, run, |all|, a, b) + Executed(run, i, a, b) + Executed(run, k, a, b) <= b - a
    ensures (forall t :: a <= t < b ==> ServesLevel(all, i, run.cpu[t])) ==>
              PreemptedTicks(all, i, run, |all|, a, b) + Executed(run, i, a, b) == b - a
    decreases b
  {
    if a < b {
      WindowIsShared(all, i, k, run, a, b - 1);
      PreemptedStep(all, i, run, |all|, a, b - 1);
    } else if a < |run.cpu| {
      PreemptedStep(all, i, run, |all|, a, a);
    } else {
      NoTicks(all, i, run, |all|, a);
    }
  }

  lemma {:induction false} NoTicks(all: seq<TaskTiming>, i: nat, run: Run, n: nat, a: nat)
    requires i < |all| && n <= |all| && a <= |run.cpu|
    ensures PreemptedTicks(all, i, run, n, a, a) == 0
  {
    if n != 0 {
      NoTicks(all, i, run, n - 1, a);
    }
  }

  /** No work of a counted task is carried over instant `a`. */
  ghost predicate IsLevelIdle(all: seq<TaskTiming>, i: nat, run: Run, a: nat)
    requires i < |all| && a <= |run.cpu|
  {
    forall k: nat :: k < |all| && Preempts(all[k], all[i]) ==> Released(run, k, 0, a) == Executed(run, k, 0, a)
  }

  /** With nothing carried over `a`, a task gets no more than its releases allow. */
  lemma RivalBound(all: seq<TaskTiming>, run: Run, k: nat, a: nat, r: nat)
    requires IsRun(all, run) && k < |all| && a + r <= |run.cpu|
    requires all[k].period.Some? && 0 < all[k].period.value && all[k].wcet.Some?
    requires Released(run, k, 0, a) == Executed(run, k, 0, a)
    ensures Executed(run, k, a, a + r) <= Cost(Load(all[k].period.value, all[k].wcet.value), r)
  {
    ExecutedWithinReleased(all, run, k, a + r);
    ExecutedSplit(run, k, 0, a, a + r);
    ReleasedSplit(run, k, 0, a, a + r);
    DemandBound(all, run, k, a, r);
  }

  /** After an idle instant the counted tasks get no more than the recurrence charges for them. */
  lemma {:induction false} InterferenceBound(all: seq<TaskTiming>, i: nat, run: Run, n: nat, a: nat, r: nat)
    requires IsRun(all, run) && i < |all| && n <= |all| && a + r <= |run.cpu|
    requires IsLevelIdle(all, i, run, a) && Gather(all[i], all[..n]).Loads?
    ensures PreemptedTicks(all, i, run, n, a, a + r) <= Demand(0, Gather(all[i], all[..n]).hp, r)
  {
    if n != 0 {
      assert all[..n] == all[..n - 1] + [all[n - 1]];
      GatherAdd(all[i], all[..n - 1], all[n - 1], r);
      InterferenceBound(all, i, run, n - 1, a, r);
      if Preempts(all[n - 1], all[i]) {
        RivalBound(all, run, n - 1, a, r);
      }
    }
  }

  lemma {:induction false} NoBudgetNoWork(all: seq<TaskTiming>, run: Run, k: nat, t: nat)
    requires RespectsContracts(all, run) && k < |all| && all[k].wcet == Some(0)
    ensures Released(run, k, 0, t) == 0
  {
    if t != 0 {
      NoBudgetNoWork(all, run, k, t - 1);
    }
  }

  /** While work at `i`'s priority or above waits, the level is served. */
  lemma LevelIsServed(all: seq<TaskTiming>, i: nat, run: Run, k: nat, t: nat)
    requires IsRun(all, run) && i < |all| && CountsEveryRival(all, i) && t < |run.cpu|
    requires k < |all| && all[i].priority <= all[k].priority && Waiting(run, k, t, t)
    ensures ServesLevel(all, i, run.cpu[t]) && all[k].priority <= all[run.cpu[t].value].priority
  {
    assert FollowsPolicy(all, run, t);
    var j := run.cpu[t].value;
    assert MayPrecede(all, run, j, k, t) && !IsUncounted(all, i, j);
    if all[j].wcet == Some(0) {
      NoBudgetNoWork(all, run, j, t + 1);
    }
  }

  /** The last instant up to `t` over which no counted work is carried; from there on only
      counted tasks run. */
  lemma {:induction false} LastIdleInstant(all: seq<TaskTiming>, i: nat, run: Run, t: nat) returns (a: nat)
    requires IsRun(all, run) && i < |all| && CountsEveryRival(all, i) && t <= |run.cpu|
    ensures a <= t && IsLevelIdle(all, i, run, a)
    ensures Executed(run, i, a, t) == 0 && forall u :: a <= u < t ==> ServesLevel(all, i, run.cpu[u])
    decreases t
  {
    if IsLevelIdle(all, i, run, t) {
      return t;
    }
    var k: nat :| k < |all| && Preempts(all[k], all[i]) && Released(run, k, 0, t) != Executed(run, k, 0, t);
    ExecutedWithinReleased(all, run, k, t);
    LevelIsServed(all, i, run, k, t - 1);
    a := LastIdleInstant(all, i, run, t - 1);
  }

  lemma {:induction false} LastRelease(run: Run, i: nat, t: nat) returns (s: nat)
    requires Released(run, i, 0, t) != 0
    ensures s < t && 0 < run.work(i, s) && Released(run, i, 0, s + 1) == Released(run, i, 0, t)
  {
    if run.work(i, t - 1) != 0 {
      s := t - 1;
    } else {
      s := LastRelease(run, i, t - 1);
    }
  }

  /** What the schedule theorem needs of a window length: it suffices for one job of task `i` with
      all counted interference, and ends no later than the next release. */
  ghost predicate IsEnough(all: seq<TaskTiming>, i: nat, r: nat)
    requires i < |all|
  {
    all[i].wcet.Some? && all[i].period.Some? && r <= all[i].period.value && Gather(all[i], all).Loads? &&
    Suffices(all[i].wcet.value, Gather(all[i], all).hp, r)
  }

  /** As long as the job released at `t` is unfinished, the level is served. */
  lemma UnfinishedIsServed(all: seq<TaskTiming>, i: nat, run: Run, t: nat, u: nat, end: nat)
    requires IsRun(all, run) && i < |all| && CountsEveryRival(all, i)
    requires t <= u < end <= |run.cpu| && Executed(run, i, 0, end) < Released(run, i, 0, t + 1)
    ensures ServesLevel(all, i, run.cpu[u])
  {
    ExecutedSplit(run, i, 0, u, end);
    ReleasedSplit(run, i, 0, t + 1, u + 1);
    LevelIsServed(all, i, run, i, u);
  }

  /** A window that starts at an idle instant and serves the level throughout, with task `i`
      getting less than its execution time, is shorter than any that suffices. */
  lemma ServedWindowIsShort(all: seq<TaskTiming>, i: nat, run: Run, r: nat, a: nat)
    requires IsRun(all, run) && i < |all| && a + r <= |run.cpu| && all[i].wcet.Some?
    requires Gather(all[i], all).Loads? && IsLevelIdle(all, i, run, a)
    requires forall u :: a <= u < a + r ==> ServesLevel(all, i, run.cpu[u])
    requires Executed(run, i, a, a + r) < all[i].wcet.value
    ensures !Suffices(all[i].wcet.value, Gather(all[i], all).hp, r)
  {
    assert all[..|all|] == all;
    InterferenceBound(all, i, run, |all|, a, r);
    WindowIsShared(all, i, |all|, run, a, a + r);
    DemandBase(all[i].wcet.value, Gather(all[i], all).hp, r);
  }

  lemma WorkWithinBudget(all: seq<TaskTiming>, run: Run, i: nat, t: nat)
    requires IsRun(all, run) && i < |all| && all[i].wcet.Some?
    ensures run.work(i, t) <= all[i].wcet.value
  {}

  /** If all earlier work of task `i` is done when a job is released, the job is done `r` later. */
  lemma JobFinishes(all: seq<TaskTiming>, i: nat, run: Run, r: nat, t: nat)
    requires IsRun(all, run) && i < |all| && CountsEveryRival(all, i) && IsEnough(all, i, r)
    requires t + r <= |run.cpu| && Released(run, i, 0, t) <= Executed(run, i, 0, t)
    ensures Released(run, i, 0, t + 1) <= Executed(run, i, 0, t + r)
  {
    hide IsRun, FollowsPolicy, CountsEveryRival, IsLevelIdle, ServesLevel, Gather;
    WorkWithinBudget(all, run, i, t);
    var a := LastIdleInstant(all, i, run, t);
    ExecutedSplit(run, i, 0, a, t);
    ExecutedSplit(run, i, 0, a, a + r);
    ExecutedSplit(run, i, 0, a + r, t + r);
    if Executed(run, i, 0, t + r) < Released(run, i, 0, t + 1) {
      forall u | t <= u < a + r
        ensures ServesLevel(all, i, run.cpu[u])
      {
        UnfinishedIsServed(all, i, run, t, u, t + r);
      }
      ServedWindowIsShort(all, i, run, r, a);
    }
  }

  /** Every job is done `r` ticks after its release, by induction over the task's own jobs. */
  lemma {:induction false} EveryJobFinishes(all: seq<TaskTiming>, i: nat, run: Run, r: nat, t: nat)
    requires IsRun(all, run) && i < |all| && CountsEveryRival(all, i) && IsEnough(all, i, r)
    requires t + r <= |run.cpu| && 0 < run.work(i, t)
    ensures Released(run, i, 0, t + 1) <= Executed(run, i, 0, t + r)
    decreases t
  {
    if Released(run, i, 0, t) != 0 {
      var s := LastRelease(run, i, t);
      EveryJobFinishes(all, i, run, r, s);
      ExecutedSplit(run, i, 0, s + r, t);
    }
    JobFinishes(all, i, run, r, t);
  }

  /** The hypotheses under which a verdict speaks about schedules: no blocking term, a deadline
      within the period, and one that saturation cannot reach. */
  ghost predicate IsConstrained(task: TaskTiming) {
    task.period.Some? && task.blocking == 0 &&
    EffectiveDeadline(task).value <= task.period.value && EffectiveDeadline(task).value < U64_MAX
  }

  /** A `Pass` is sound over every run. */
  lemma PassIsSound(all: seq<TaskTiming>, i: nat, run: Run)
    requires i < |all| && IsConstrained(all[i]) && CountsEveryRival(all, i)
    requires VerdictOf(all[i], all).Pass? && IsRun(all, run)
    ensures RespondsWithin(run, i, VerdictOf(all[i], all).response)
  {
    var r := VerdictOf(all[i], all).response;
    SaturationIsExact(all[i], all);
    forall t: nat | t + r <= |run.cpu| && 0 < run.work(i, t)
      ensures Released(run, i, 0, t + 1) <= Executed(run, i, 0, t + r)
    {
      EveryJobFinishes(all, i, run, r, t);
    }
  }
}
