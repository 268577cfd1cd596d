/** The declared scheduling policy as a discrete-time step model: strictly preemptive fixed
    priority, first in first out within a level, one tick of work per step. */
module Scheduler {
  import opened Words
  import opened ResponseTime

  /** A run. `work(j, t)` is the execution time the job that task `j` releases at instant `t`
      turns out to need, zero when there is none. `cpu[t]` is the task that gets tick `t`. */
  datatype Run = Run(work: (nat, nat) -> nat, cpu: seq<Option<nat>>)

  /** Work that task `j` releases in `[a, b)`. */
  function Released(run: Run, j: nat, a: nat, b: nat): nat
    requires a <= b
    decreases b
  {
    if a == b then 0 else Released(run, j, a, b - 1) + run.work(j, b - 1)
  }

  /** Ticks that task `j` gets in `[a, b)`. */
  function Executed(run: Run, j: nat, a: nat, b: nat): nat
    requires a <= b <= |run.cpu|
    decreases b
  {
    if a == b then 0 else Executed(run, j, a, b - 1) + if run.cpu[b - 1] == Some(j) then 1 else 0
  }

  /** At tick `t` task `j` has unfinished work that was released no later than instant `s`. */
  predicate Waiting(run: Run, j: nat, s: nat, t: nat)
    requires t <= |run.cpu|
  {
    Executed(run, j, 0, t) < Released(run, j, 0, s + 1)
  }

  /** Of two runnable tasks `k` and `j`, the policy lets `j` go first: it is more urgent, or
      equally urgent and its oldest unfinished job is no younger. */
  ghost predicate MayPrecede(all: seq<TaskTiming>, run: Run, j: nat, k: nat, t: nat)
    requires j < |all| && k < |all| && t <= |run.cpu|
  {
    all[k].priority <= all[j].priority &&
    (all[k].priority == all[j].priority ==>
       forall s: nat :: s <= t && Waiting(run, k, s, t) ==> Waiting(run, j, s, t))
  }

  /** The choice made for tick `t` is one the policy allows; it never idles with work waiting. */
  ghost predicate FollowsPolicy(all: seq<TaskTiming>, run: Run, t: nat)
    requires t < |run.cpu|
  {
    match run.cpu[t]
    case None => forall k: nat :: k < |all| ==> !Waiting(run, k, t, t)
    case Some(j) =>
      j < |all| && Waiting(run, j, t, t) &&
      forall k: nat :: k < |all| && Waiting(run, k, t, t) ==> MayPrecede(all, run, j, k, t)
  }

  /** Releases of a task with a period are at least that far apart; declared execution times hold.
      Nothing is assumed of a task that declares neither. */
  ghost predicate RespectsContracts(all: seq<TaskTiming>, run: Run) {
    (forall j: nat, s: nat, t: nat ::
       j < |all| && all[j].period.Some? && s < t && 0 < run.work(j, s) && 0 < run.work(j, t) ==>
         s + all[j].period.value <= t) &&
    (forall j: nat, t: nat :: j < |all| && all[j].wcet.Some? ==> run.work(j, t) <= all[j].wcet.value)
  }

  ghost predicate IsRun(all: seq<TaskTiming>, run: Run) {
    RespectsContracts(all, run) && forall t: nat :: t < |run.cpu| ==> FollowsPolicy(all, run, t)
  }

  /** Every job of task `i` whose window lies in the run is finished `r` ticks after its release. */
  ghost predicate RespondsWithin(run: Run, i: nat, r: nat) {
    forall t: nat :: t + r <= |run.cpu| && 0 < run.work(i, t) ==>
      Released(run, i, 0, t + 1) <= Executed(run, i, 0, t + r)
  }

  // ------------------------------------------------------------------ counting

  lemma {:induction false} ReleasedSplit(run: Run, j: nat, a: nat, b: nat, c: nat)
    requires a <= b <= c
    ensures Released(run, j, a, c) == Released(run, j, a, b) + Released(run, j, b, c)
    decreases c
  {
    if b < c {
      ReleasedSplit(run, j, a, b, c - 1);
    }
  }

  lemma {:induction false} ExecutedSplit(run: Run, j: nat, a: nat, b: nat, c: nat)
    requires a <= b <= c <= |run.cpu|
    ensures Executed(run, j, a, c) == Executed(run, j, a, b) + Executed(run, j, b, c)
    decreases c
  {
    if b < c {
      ExecutedSplit(run, j, a, b, c - 1);
    }
  }

  /** No task runs without work. */
  lemma {:induction false} ExecutedWithinReleased(all: seq<TaskTiming>, run: Run, j: nat, t: nat)
    requires IsRun(all, run) && t <= |run.cpu|
    ensures Executed(run, j, 0, t) <= Released(run, j, 0, t)
    decreases t
  {
    if t != 0 {
      ExecutedWithinReleased(all, run, j, t - 1);
      assert FollowsPolicy(all, run, t - 1);
    }
  }

  /** A window no longer than the period sees at most one job. */
  lemma {:induction false} OneJobPerPeriod(all: seq<TaskTiming>, run: Run, j: nat, a: nat, b: nat)
    requires RespectsContracts(all, run) && j < |all| && all[j].period.Some? && all[j].wcet.Some?
    requires a <= b <= a + all[j].period.value
    ensures Released(run, j, a, b) <= all[j].wcet.value
    ensures Released(run, j, a, b) == 0 || exists s: nat :: a <= s < b && 0 < run.work(j, s)
    decreases b
  {
    if a < b {
      OneJobPerPeriod(all, run, j, a, b - 1);
      assert run.work(j, b - 1) != 0 ==> Released(run, j, a, b - 1) == 0;
    }
  }

  /** The demand bound: a window of length `n` sees at most `ceil(n / T)` jobs. */
  lemma {:induction false} DemandBound(all: seq<TaskTiming>, run: Run, j: nat, a: nat, n: nat)
    requires RespectsContracts(all, run) && j < |all|
    requires all[j].period.Some? && 0 < all[j].period.value && all[j].wcet.Some?
    ensures Released(run, j, a, a + n) <= DivCeil(n, all[j].period.value) * all[j].wcet.value
    decreases n
  {
    var period, wcet := all[j].period.value, all[j].wcet.value;
    if n == 0 {
    } else if n <= period {
      OneJobPerPeriod(all, run, j, a, a + n);
      DivCeilUnique(n, period, 1);
    } else {
      DemandBound(all, run, j, a, n - period);
      OneJobPerPeriod(all, run, j, a + n - period, a + n);
      ReleasedSplit(run, j, a, a + n - period, a + n);
      OneMoreActivation(n - period, period, wcet);
    }
  }

  lemma OneMoreActivation(n: nat, period: positive, wcet: nat)
    ensures DivCeil(n + period, period) * wcet == DivCeil(n, period) * wcet + wcet
  {
    DivCeilBounds(n, period);
    var q := DivCeil(n, period);
    assert (q + 1) * period == q * period + period;
    DivCeilUnique(n + period, period, q + 1);
    assert (q + 1) * wcet == q * wcet + wcet;
  }
}
