/** The other half of exactness: a `Fail` names a deadline that some run really misses, a `Pass`
    response is attained, and it bounds every run exactly when no rival goes uncounted. */
module ScheduleExactness {
  import opened Words
  import opened Recurrence
  import opened ResponseTime
  import opened Scheduler
  import opened ScheduleSoundness

  /** Whether a task with this period, first released at 0 and as often as allowed, is released at `t`. */
  predicate IsDue(period: nat, t: nat) {
    if period == 0 then t == 0 else t % period == 0
  }

  /** All counted tasks and task `i` are released together at 0; the counted tasks repeat every
      period; every one of these jobs needs its full execution time. */
  ghost predicate IsSynchronous(all: seq<TaskTiming>, i: nat, run: Run)
    requires i < |all| && all[i].wcet.Some?
  {
    run.work(i, 0) == all[i].wcet.value &&
    forall k: nat, t: nat :: k < |all| && Preempts(all[k], all[i]) && all[k].period.Some? && all[k].wcet.Some? ==>
      run.work(k, t) == if IsDue(all[k].period.value, t) then all[k].wcet.value else 0
  }

  lemma {:induction false} SynchronousReleases(run: Run, k: nat, load: Load, n: nat)
    requires forall t: nat :: run.work(k, t) == if IsDue(load.period, t) then load.wcet else 0
    ensures Released(run, k, 0, n) == Cost(load, n)
  {
    if n != 0 {
      SynchronousReleases(run, k, load, n - 1);
      var q := DivCeil(n - 1, load.period);
      DivCeilBounds(n - 1, load.period);
      assert (q + 1) * load.period == q * load.period + load.period;
      if IsDue(load.period, n - 1) {
        assert q * load.period == n - 1;
        DivCeilUnique(n, load.period, q + 1);
        assert (q + 1) * load.wcet == q * load.wcet + load.wcet;
      } else {
        assert q * load.period != n - 1 by { DivModUnique(q * load.period, load.period, q, 0); }
        DivCeilUnique(n, load.period, q);
      }
    }
  }

  /** When nothing counted is left over at `n`, the counted tasks took all the recurrence charges. */
  lemma {:induction false} InterferenceIsFull(all: seq<TaskTiming>, i: nat, run: Run, m: nat, n: nat)
    requires i < |all| && all[i].wcet.Some? && IsSynchronous(all, i, run) && m <= |all| && n <= |run.cpu|
    requires IsLevelIdle(all, i, run, n) && Gather(all[i], all[..m]).Loads?
    ensures PreemptedTicks(all, i, run, m, 0, n) == Demand(0, Gather(all[i], all[..m]).hp, n)
  {
    if m != 0 {
      assert all[..m] == all[..m - 1] + [all[m - 1]];
      GatherAdd(all[i], all[..m - 1], all[m - 1], n);
      InterferenceIsFull(all, i, run, m - 1, n);
      if Preempts(all[m - 1], all[i]) {
        SynchronousReleases(run, m - 1, Load(all[m - 1].period.value, all[m - 1].wcet.value), n);
      }
    }
  }

  /** When task `i` gets tick `n - 1`, every counted task has just run out of work. */
  lemma LevelIdleAfterOwnTick(all: seq<TaskTiming>, i: nat, run: Run, n: nat)
    requires IsRun(all, run) && i < |all| && 0 < n <= |run.cpu| && run.cpu[n - 1] == Some(i)
    ensures IsLevelIdle(all, i, run, n)
  {
    assert FollowsPolicy(all, run, n - 1);
    forall k: nat | k < |all| && Preempts(all[k], all[i])
      ensures Released(run, k, 0, n) == Executed(run, k, 0, n)
    {
      assert !Waiting(run, k, n - 1, n - 1);
      ExecutedWithinReleased(all, run, k, n);
    }
  }

  lemma SufficesBelow(base: nat, hp: seq<Load>, w: nat)
    ensures Demand(base, hp, w) == base + Demand(0, hp, w)
    ensures Suffices(base, hp, w) ==> Suffices(base, hp, Demand(base, hp, w))
  {
    DemandBase(base, hp, w);
    if Suffices(base, hp, w) {
      DemandMono(base, hp, Demand(base, hp, w), w);
    }
  }

  /** Completing the first job takes a window that suffices, with room for whatever a bystander
      `k` that the analyser does not count got in it as well. */
  lemma {:induction false} FirstJobTakes(all: seq<TaskTiming>, i: nat, k: nat, run: Run, n: nat) returns (g: nat)
    requires IsRun(all, run) && i < |all| && n <= |run.cpu| && all[i].wcet.Some? && Gather(all[i], all).Loads?
    requires IsSynchronous(all, i, run) && k != i && (k < |all| ==> !Preempts(all[k], all[i]))
    requires 0 < all[i].wcet.value <= Executed(run, i, 0, n)
    ensures 0 < g <= n && run.cpu[g - 1] == Some(i)
    ensures var demand := Demand(all[i].wcet.value, Gather(all[i], all).hp, g);
            demand + Executed(run, k, 0, g) <= g && Suffices(all[i].wcet.value, Gather(all[i], all).hp, demand)
    decreases n
  {
    if run.cpu[n - 1] == Some(i) {
      g := n;
      LevelIdleAfterOwnTick(all, i, run, n);
      assert all[..|all|] == all;
      InterferenceIsFull(all, i, run, |all|, n);
      WindowIsShared(all, i, k, run, 0, n);
      SufficesBelow(all[i].wcet.value, Gather(all[i], all).hp, n);
    } else {
      g := FirstJobTakes(all, i, k, run, n - 1);
    }
  }

  /** In every synchronous run the first job is unfinished before any window that suffices. */
  lemma FirstJobIsLate(all: seq<TaskTiming>, i: nat, run: Run, bound: nat, t: nat)
    requires IsRun(all, run) && i < |all| && all[i].wcet.Some? && Gather(all[i], all).Loads?
    requires IsSynchronous(all, i, run) && 0 < all[i].wcet.value
    requires IsLowerBound(all[i].wcet.value, Gather(all[i], all).hp, bound)
    requires t <= |run.cpu| && t < bound
    ensures Executed(run, i, 0, t) < Released(run, i, 0, 1)
  {
    assert Released(run, i, 0, 1) == run.work(i, 0);
    if all[i].wcet.value <= Executed(run, i, 0, t) {
      var g := FirstJobTakes(all, i, |all|, run, t);
    }
  }

  /** A `Fail` is necessary: in every synchronous run, whatever the lower-priority tasks do, the
      first job is still unfinished at every instant before the reported response, the deadline
      included. */
  lemma FailIsNecessary(all: seq<TaskTiming>, i: nat, run: Run)
    requires i < |all| && all[i].blocking == 0 && VerdictOf(all[i], all).Fail?
    requires IsRun(all, run) && IsSynchronous(all, i, run)
    ensures EffectiveDeadline(all[i]).value < VerdictOf(all[i], all).response
    ensures forall t: nat :: t <= |run.cpu| && t < VerdictOf(all[i], all).response ==>
              Executed(run, i, 0, t) < Released(run, i, 0, 1)
  {
    var hp, wcet := Gather(all[i], all).hp, all[i].wcet.value;
    VerdictDecides(all[i], all);
    DemandAtZero(wcet, hp);
    assert 0 < wcet by {
      if wcet == 0 {
        assert Suffices(0, hp, 0);
      }
    }
    forall t: nat | t <= |run.cpu| && t < VerdictOf(all[i], all).response
      ensures Executed(run, i, 0, t) < Released(run, i, 0, 1)
    {
      FirstJobIsLate(all, i, run, VerdictOf(all[i], all).response, t);
    }
  }

  /** A `Pass` is tight: in every synchronous run the first job needs the whole reported response. */
  lemma PassIsAttained(all: seq<TaskTiming>, i: nat, run: Run)
    requires i < |all| && IsConstrained(all[i]) && VerdictOf(all[i], all).Pass? && all[i].wcet != Some(0)
    requires IsRun(all, run) && IsSynchronous(all, i, run)
    ensures forall t: nat :: t <= |run.cpu| && t < VerdictOf(all[i], all).response ==>
              Executed(run, i, 0, t) < Released(run, i, 0, 1)
  {
    VerdictDecides(all[i], all);
    forall t: nat | t <= |run.cpu| && t < VerdictOf(all[i], all).response
      ensures Executed(run, i, 0, t) < Released(run, i, 0, 1)
    {
      FirstJobIsLate(all, i, run, VerdictOf(all[i], all).response, t);
    }
  }

  // ------------------------------------------------------------------ runs that exist

  /** The oldest instant up to `s` at which task `j`'s unfinished work at `t` was released. */
  function Oldest(run: Run, j: nat, s: nat, t: nat): (h: nat)
    requires t <= |run.cpu| && Waiting(run, j, s, t)
    ensures h <= s && Waiting(run, j, h, t) && (h == 0 || !Waiting(run, j, h - 1, t))
  {
    if s == 0 || !Waiting(run, j, s - 1, t) then s else Oldest(run, j, s - 1, t)
  }

  lemma WaitingMono(run: Run, j: nat, s: nat, s': nat, t: nat)
    requires s <= s' && t <= |run.cpu| && Waiting(run, j, s, t)
    ensures Waiting(run, j, s', t)
  {
    ReleasedSplit(run, j, 0, s + 1, s' + 1);
  }

  /** Of two runnable tasks, `j` strictly goes before `k`. */
  predicate GoesBefore(all: seq<TaskTiming>, run: Run, j: nat, k: nat, t: nat)
    requires j < |all| && k < |all| && t <= |run.cpu| && Waiting(run, j, t, t) && Waiting(run, k, t, t)
  {
    all[k].priority < all[j].priority ||
    (all[k].priority == all[j].priority && Oldest(run, j, t, t) < Oldest(run, k, t, t))
  }

  /** A dispatcher: the best of task `fav` and the first `n` tasks, ties going to `fav`. */
  function Pick(all: seq<TaskTiming>, run: Run, fav: nat, n: nat): (best: Option<nat>)
    requires fav < |all| && n <= |all|
    ensures best.Some? ==> best.value < |all| && Waiting(run, best.value, |run.cpu|, |run.cpu|)
  {
    var t := |run.cpu|;
    if n == 0 then
      if Waiting(run, fav, t, t) then Some(fav) else None
    else
      var best := Pick(all, run, fav, n - 1);
      if Waiting(run, n - 1, t, t) && (best.None? || GoesBefore(all, run, n - 1, best.value, t))
      then Some(n - 1) else best
  }

  lemma {:induction false} PickIsBest(all: seq<TaskTiming>, run: Run, fav: nat, n: nat)
    requires fav < |all| && n <= |all|
    ensures var t := |run.cpu|; var best := Pick(all, run, fav, n);
            forall k: nat :: (k < n || k == fav) && Waiting(run, k, t, t) ==>
              best.Some? && !GoesBefore(all, run, k, best.value, t) &&
              (k == fav ==> best.value == fav || GoesBefore(all, run, best.value, fav, t))
  {
    if n != 0 {
      PickIsBest(all, run, fav, n - 1);
    }
  }

  lemma NotAfterMayPrecede(all: seq<TaskTiming>, run: Run, j: nat, k: nat, t: nat)
    requires j < |all| && k < |all| && t <= |run.cpu| && Waiting(run, j, t, t) && Waiting(run, k, t, t)
    requires !GoesBefore(all, run, k, j, t)
    ensures MayPrecede(all, run, j, k, t)
  {
    if all[k].priority == all[j].priority {
      forall s: nat | s <= t && Waiting(run, k, s, t)
        ensures Waiting(run, j, s, t)
      {
        var h := Oldest(run, k, t, t);
        if s < h {
          WaitingMono(run, k, s, h - 1, t);
        }
        WaitingMono(run, j, Oldest(run, j, t, t), s, t);
      }
    }
  }

  /** The run that the dispatcher produces for given releases, `n` ticks long. */
  function Dispatch(all: seq<TaskTiming>, work: (nat, nat) -> nat, fav: nat, n: nat): (run: Run)
    requires fav < |all|
    ensures run.work == work && |run.cpu| == n
  {
    if n == 0 then Run(work, [])
    else
      var before := Dispatch(all, work, fav, n - 1);
      Run(work, before.cpu + [Pick(all, before, fav, |all|)])
  }

  lemma {:induction false} ExecutedPrefix(run: Run, run': Run, j: nat, t: nat)
    requires run.cpu <= run'.cpu && t <= |run.cpu|
    ensures Executed(run, j, 0, t) == Executed(run', j, 0, t)
  {
    if t != 0 {
      ExecutedPrefix(run, run', j, t - 1);
    }
  }

  lemma {:induction false} ReleasedByWork(run: Run, run': Run, j: nat, a: nat, b: nat)
    requires run.work == run'.work && a <= b
    ensures Released(run, j, a, b) == Released(run', j, a, b)
    decreases b
  {
    if a < b {
      ReleasedByWork(run, run', j, a, b - 1);
    }
  }

  lemma WaitingPrefix(run: Run, run': Run, j: nat, s: nat, t: nat)
    requires run.work == run'.work && run.cpu <= run'.cpu && t <= |run.cpu|
    ensures Waiting(run, j, s, t) == Waiting(run', j, s, t)
  {
    ExecutedPrefix(run, run', j, t);
    ReleasedByWork(run, run', j, 0, s + 1);
  }

  /** Extending a run does not change what the policy says about its past. */
  lemma PolicyPrefix(all: seq<TaskTiming>, run: Run, run': Run, t: nat)
    requires run.work == run'.work && run.cpu <= run'.cpu && t < |run.cpu|
    requires FollowsPolicy(all, run, t)
    ensures FollowsPolicy(all, run', t)
  {
    forall k: nat, s: nat
      ensures Waiting(run, k, s, t) == Waiting(run', k, s, t)
    {
      WaitingPrefix(run, run', k, s, t);
    }
    if run.cpu[t].Some? {
      forall k: nat | k < |all| && Waiting(run', k, t, t)
        ensures MayPrecede(all, run', run.cpu[t].value, k, t)
      {
        assert MayPrecede(all, run, run.cpu[t].value, k, t);
      }
    }
  }

  /** With `fav` waiting, only a strictly more urgent task or an older job goes before it. */
  ghost predicate Favours(all: seq<TaskTiming>, run: Run, fav: nat, t: nat)
    requires fav < |all| && t < |run.cpu|
  {
    Waiting(run, fav, t, t) ==>
      run.cpu[t].Some? && run.cpu[t].value < |all| &&
      var j := run.cpu[t].value;
      j == fav || all[fav].priority < all[j].priority ||
      exists s: nat :: s <= t && Waiting(run, j, s, t) && !Waiting(run, fav, s, t)
  }

  lemma FavoursPrefix(all: seq<TaskTiming>, run: Run, run': Run, fav: nat, t: nat)
    requires run.work == run'.work && run.cpu <= run'.cpu && t < |run.cpu| && fav < |all|
    requires Favours(all, run, fav, t)
    ensures Favours(all, run', fav, t)
  {
    forall k: nat, s: nat
      ensures Waiting(run, k, s, t) == Waiting(run', k, s, t)
    {
      WaitingPrefix(run, run', k, s, t);
    }
  }

  /** The dispatcher's choice obeys the policy. */
  lemma PickFollows(all: seq<TaskTiming>, run: Run, fav: nat, run': Run)
    requires fav < |all| && run' == Run(run.work, run.cpu + [Pick(all, run, fav, |all|)])
    ensures FollowsPolicy(all, run', |run.cpu|) && Favours(all, run', fav, |run.cpu|)
  {
    var t := |run.cpu|;
    PickIsBest(all, run, fav, |all|);
    forall k: nat, s: nat
      ensures Waiting(run, k, s, t) == Waiting(run', k, s, t)
    {
      WaitingPrefix(run, run', k, s, t);
    }
    var best := run'.cpu[t];
    if best.Some? {
      var j := best.value;
      forall k: nat | k < |all| && Waiting(run', k, t, t)
        ensures MayPrecede(all, run', j, k, t)
      {
        NotAfterMayPrecede(all, run, j, k, t);
      }
      if Waiting(run, fav, t, t) && j != fav && all[fav].priority == all[j].priority {
        var s := Oldest(run, j, t, t);
        if Waiting(run, fav, s, t) {
          WaitingMono(run, fav, s, Oldest(run, fav, t, t) - 1, t);
        }
        assert Waiting(run', j, s, t) && !Waiting(run', fav, s, t);
      }
    }
  }

  /** Legal releases always have a legal run, of any length. */
  lemma {:induction false} DispatchIsRun(all: seq<TaskTiming>, work: (nat, nat) -> nat, fav: nat, n: nat)
    requires fav < |all| && RespectsContracts(all, Run(work, []))
    ensures IsRun(all, Dispatch(all, work, fav, n))
    ensures forall t: nat :: t < n ==> Favours(all, Dispatch(all, work, fav, n), fav, t)
  {
    if n != 0 {
      var before, run := Dispatch(all, work, fav, n - 1), Dispatch(all, work, fav, n);
      DispatchIsRun(all, work, fav, n - 1);
      PickFollows(all, before, fav, run);
      forall t: nat | t < n - 1
        ensures FollowsPolicy(all, run, t) && Favours(all, run, fav, t)
      {
        PolicyPrefix(all, before, run, t);
        FavoursPrefix(all, before, run, fav, t);
      }
    }
  }

  /** Worst-case releases: task `i` and the counted tasks as often and as long as allowed, and one
      job of an uncounted rival `k` at instant 0. */
  function WorstCase(all: seq<TaskTiming>, i: nat, k: nat, extra: nat): (nat, nat) -> nat
    requires i < |all|
  {
    (j: nat, t: nat) =>
      if j < |all| && (j == i || Preempts(all[j], all[i])) && all[j].period.Some? && all[j].wcet.Some? then
        if IsDue(all[j].period.value, t) then all[j].wcet.value else 0
      else if j == k && t == 0 then extra
      else 0
  }

  lemma DueApart(period: nat, s: nat, t: nat)
    requires s < t && IsDue(period, s) && IsDue(period, t)
    ensures s + period <= t
  {
    if period != 0 {
      var a, b := s / period, t / period;
      assert s == a * period && t == b * period;
      if b <= a {
        MulMono(b, a, period);
      }
      MulMono(a + 1, b, period);
      assert (a + 1) * period == a * period + period;
    }
  }

  lemma WorstCaseIsLegal(all: seq<TaskTiming>, i: nat, k: nat, extra: nat)
    requires i < |all| && (k < |all| && all[k].wcet.Some? ==> extra <= all[k].wcet.value)
    ensures RespectsContracts(all, Run(WorstCase(all, i, k, extra), []))
  {
    var work := WorstCase(all, i, k, extra);
    forall j: nat, s: nat, t: nat |
      j < |all| && all[j].period.Some? && s < t && 0 < work(j, s) && 0 < work(j, t)
      ensures s + all[j].period.value <= t
    {
      DueApart(all[j].period.value, s, t);
    }
  }

  /** The run a `Fail` speaks about exists: the critical instant can happen, at any length. */
  lemma SynchronousRunExists(all: seq<TaskTiming>, i: nat, n: nat) returns (run: Run)
    requires i < |all| && IsAnalysable(all[i], all)
    ensures IsRun(all, run) && IsSynchronous(all, i, run) && |run.cpu| == n
  {
    WorstCaseIsLegal(all, i, |all|, 0);
    run := Dispatch(all, WorstCase(all, i, |all|, 0), i, n);
    DispatchIsRun(all, WorstCase(all, i, |all|, 0), i, n);
  }

  /** Released together with task `i`, an uncounted rival keeps it from ever going first. */
  lemma RivalGoesFirst(all: seq<TaskTiming>, i: nat, k: nat, run: Run, t: nat)
    requires i < |all| && k < |all| && IsUncounted(all, i, k) && IsRun(all, run)
    requires t < |run.cpu| && run.cpu[t] == Some(i) && Favours(all, run, k, t)
    requires 0 < run.work(k, 0) && forall u: nat :: 0 < u ==> run.work(k, u) == 0
    ensures !Waiting(run, k, t, t)
  {
    if Waiting(run, k, t, t) {
      var s: nat :| s <= t && Waiting(run, i, s, t) && !Waiting(run, k, s, t);
      OnlyFirst(run, k, s);
      OnlyFirst(run, k, t);
    }
  }

  lemma {:induction false} OnlyFirst(run: Run, k: nat, s: nat)
    requires forall u: nat :: 0 < u ==> run.work(k, u) == 0
    ensures Released(run, k, 0, s + 1) == run.work(k, 0)
  {
    if s != 0 {
      OnlyFirst(run, k, s - 1);
    } else {
      assert Released(run, k, 0, 1) == run.work(k, 0);
    }
  }

  /** An uncounted rival with a single tick of work makes some run of task `i` last beyond every
      window that no shorter one replaces. */
  lemma UncountedBreaksWindow(all: seq<TaskTiming>, i: nat, k: nat, r: nat) returns (run: Run)
    requires i < |all| && IsAnalysable(all[i], all) && all[i].wcet != Some(0)
    requires k < |all| && IsUncounted(all, i, k)
    requires IsLowerBound(all[i].wcet.value, Gather(all[i], all).hp, r)
    ensures IsRun(all, run) && !RespondsWithin(run, i, r)
  {
    hide FollowsPolicy, RespectsContracts, Favours, Dispatch, Gather, Demand;
    var wcet := all[i].wcet.value;
    WorstCaseIsLegal(all, i, k, 1);
    var work := WorstCase(all, i, k, 1);
    run := Dispatch(all, work, k, r);
    DispatchIsRun(all, work, k, r);
    if wcet <= Executed(run, i, 0, r) {
      var g := FirstJobTakes(all, i, k, run, r);
      RivalGoesFirst(all, i, k, run, g - 1);
      OnlyFirst(run, k, g - 1);
    }
    assert Released(run, i, 0, 1) == run.work(i, 0);
    assert 0 < run.work(i, 0) && Executed(run, i, 0, 0 + r) < Released(run, i, 0, 0 + 1);
  }

  /** So it breaks the reported bound. */
  lemma UncountedBreaksBound(all: seq<TaskTiming>, i: nat, k: nat) returns (run: Run)
    requires i < |all| && IsConstrained(all[i]) && VerdictOf(all[i], all).Pass?
    requires all[i].wcet != Some(0) && k < |all| && IsUncounted(all, i, k)
    ensures IsRun(all, run) && !RespondsWithin(run, i, VerdictOf(all[i], all).response)
  {
    hide IsRun, IsUncounted, Solve, Gather;
    SaturationIsExact(all[i], all);
    run := UncountedBreaksWindow(all, i, k, VerdictOf(all[i], all).response);
  }

  /** Exactly when a `Pass` response bounds every run: when no rival goes uncounted. */
  lemma PassBoundsEveryRunIff(all: seq<TaskTiming>, i: nat)
    requires i < |all| && IsConstrained(all[i]) && VerdictOf(all[i], all).Pass?
    ensures (all[i].wcet == Some(0) || CountsEveryRival(all, i)) <==>
            forall run: Run :: IsRun(all, run) ==> RespondsWithin(run, i, VerdictOf(all[i], all).response)
  {
    if all[i].wcet == Some(0) || CountsEveryRival(all, i) {
      forall run: Run | IsRun(all, run)
        ensures RespondsWithin(run, i, VerdictOf(all[i], all).response)
      {
        if CountsEveryRival(all, i) {
          PassIsSound(all, i, run);
        }
      }
    } else {
      var k: nat :| k < |all| && IsUncounted(all, i, k);
      var run := UncountedBreaksBound(all, i, k);
    }
  }

  lemma RespondsLater(all: seq<TaskTiming>, i: nat, run: Run, r: nat, r': nat)
    requires RespondsWithin(run, i, r) && r <= r'
    ensures RespondsWithin(run, i, r')
  {
    forall t: nat | t + r' <= |run.cpu| && 0 < run.work(i, t)
      ensures Released(run, i, 0, t + 1) <= Executed(run, i, 0, t + r')
    {
      ExecutedSplit(run, i, 0, t + r, t + r');
    }
  }

  /** The claim of exactness: for a decided task whose rivals are all counted, the verdict is
      `Pass` if and only if every job meets the deadline in every run. */
  lemma VerdictIsExact(all: seq<TaskTiming>, i: nat)
    requires i < |all| && IsConstrained(all[i]) && CountsEveryRival(all, i)
    requires !VerdictOf(all[i], all).Unknown?
    ensures VerdictOf(all[i], all).Pass? <==>
            forall run: Run :: IsRun(all, run) ==> RespondsWithin(run, i, EffectiveDeadline(all[i]).value)
  {
    var deadline := EffectiveDeadline(all[i]).value;
    SaturationIsExact(all[i], all);
    if VerdictOf(all[i], all).Pass? {
      forall run: Run | IsRun(all, run)
        ensures RespondsWithin(run, i, deadline)
      {
        PassIsSound(all, i, run);
        RespondsLater(all, i, run, VerdictOf(all[i], all).response, deadline);
      }
    } else {
      var run := SynchronousRunExists(all, i, deadline);
      FailIsNecessary(all, i, run);
      assert Executed(run, i, 0, 0 + deadline) < Released(run, i, 0, 0 + 1);
      assert Released(run, i, 0, 1) == run.work(i, 0);
    }
  }
}
