/** Analysing on ticks what was declared in nanoseconds: which verdicts survive the rounding. */
module TickRounding {
  import opened Words
  import opened Recurrence
  import opened ResponseTime
  import opened Scheduler
  import opened ScheduleSoundness
  import opened ScheduleExactness
  import opened Ticks

  function MapTicks(nanos: Option<uint64>, tickHz: uint64): Option<uint64> {
    if nanos.Some? then Some(ToTicks(nanos.value, tickHz)) else None
  }

  /** A task declared in nanoseconds, as the analyser is given it. */
  function InTicks(task: TaskTiming, tickHz: uint64): TaskTiming {
    TaskTiming(task.name, task.priority, MapTicks(task.period, tickHz), MapTicks(task.deadline, tickHz),
               MapTicks(task.wcet, tickHz), 0)
  }

  function AllInTicks(tasks: seq<TaskTiming>, tickHz: uint64): seq<TaskTiming> {
    seq(|tasks|, k requires 0 <= k < |tasks| => InTicks(tasks[k], tickHz))
  }

  /** What the analyser says of task `i` on ticks. */
  function TickVerdict(all: seq<TaskTiming>, i: nat, tickHz: uint64): Verdict
    requires i < |all|
  {
    VerdictOf(InTicks(all[i], tickHz), AllInTicks(all, tickHz))
  }

  /** The longest whole number of nanoseconds within a number of ticks. */
  function NanosWithin(ticks: nat, tickHz: uint64): nat {
    if tickHz == 0 then 0 else ticks * NANOS_PER_SECOND / tickHz
  }

  // ------------------------------------------------------------------ one conversion

  /** Rates at which the conversion is the rounded-up quotient. */
  predicate IsUsableRate(tickHz: uint64) {
    0 < tickHz <= MAX_EXACT_HZ
  }

  /** The conversion loses nothing. */
  predicate IsExact(nanos: uint64, tickHz: uint64) {
    ToTicks(nanos, tickHz) * NANOS_PER_SECOND == nanos * tickHz
  }

  /** One more nanosecond would need one more tick. */
  predicate IsLast(nanos: uint64, tickHz: uint64) {
    ToTicks(nanos, tickHz) * NANOS_PER_SECOND < (nanos + 1) * tickHz
  }

  /** Converted back, a duration is covered by its ticks, with less than one tick to spare. */
  lemma TicksCover(nanos: uint64, tickHz: uint64)
    requires IsUsableRate(tickHz)
    ensures ToTicks(nanos, tickHz) * NANOS_PER_SECOND < nanos * tickHz + NANOS_PER_SECOND
    ensures ToTicks(nanos, tickHz) < U64_MAX ==> nanos * tickHz <= ToTicks(nanos, tickHz) * NANOS_PER_SECOND
  {
    ToTicksIsExact(nanos, tickHz);
    DivCeilBounds(nanos * tickHz, NANOS_PER_SECOND);
  }

  function TickNanos(tickHz: uint64): positive
    requires DividesSecond(tickHz)
  {
    assert NANOS_PER_SECOND / tickHz * tickHz == NANOS_PER_SECOND;
    NANOS_PER_SECOND / tickHz
  }

  /** At a rate that divides a second, ticks are whole numbers of nanoseconds. */
  lemma WholeTicks(nanos: uint64, tickHz: uint64)
    requires DividesSecond(tickHz)
    ensures IsUsableRate(tickHz)
    ensures nanos <= ToTicks(nanos, tickHz) * TickNanos(tickHz) < nanos + TickNanos(tickHz)
    ensures ToTicks(nanos, tickHz) == DivCeil(nanos, TickNanos(tickHz))
  {
    var tick := TickNanos(tickHz);
    assert tick * tickHz == NANOS_PER_SECOND;
    ToTicksIsExact(nanos, tickHz);
    DivCeilScale(nanos, tick, tickHz);
    DivCeilBounds(nanos, tick);
  }

  lemma CoveredTightly(n: nat, nanos: nat, tick: positive, tickHz: positive)
    requires tick * tickHz == NANOS_PER_SECOND && nanos <= n * tick
    ensures n * NANOS_PER_SECOND == nanos * tickHz <==> nanos == n * tick
    ensures n * NANOS_PER_SECOND < (nanos + 1) * tickHz <==> nanos == n * tick
  {
    assert n * NANOS_PER_SECOND == (n * tick) * tickHz;
    assert (nanos + 1) * tickHz == nanos * tickHz + tickHz;
    if nanos != n * tick {
      MulMono(nanos + 1, n * tick, tickHz);
    }
  }

  lemma IsMultiple(n: nat, nanos: nat, tick: positive)
    requires nanos <= n * tick < nanos + tick
    ensures nanos % tick == 0 <==> nanos == n * tick
  {
    if nanos == n * tick {
      DivModUnique(nanos, tick, n, 0);
    } else if nanos % tick == 0 {
      var q := nanos / tick;
      assert nanos == q * tick && (q + 1) * tick == q * tick + tick;
      StrictlyLess(q, n, tick);
      MulMono(q + 1, n, tick);
    }
  }

  /** There, the last nanosecond of a tick is the only one that converts exactly, and alignment
      picks it out. */
  lemma AlignedIsExact(nanos: uint64, tickHz: uint64)
    requires DividesSecond(tickHz)
    ensures IsTickAligned(nanos, tickHz) <==> IsExact(nanos, tickHz)
    ensures IsTickAligned(nanos, tickHz) <==> IsLast(nanos, tickHz)
    ensures IsTickAligned(nanos, tickHz) <==> nanos == ToTicks(nanos, tickHz) * TickNanos(tickHz)
  {
    hide ToTicks, DivCeil;
    var tick, n := TickNanos(tickHz), ToTicks(nanos, tickHz);
    assert tick * tickHz == NANOS_PER_SECOND;
    WholeTicks(nanos, tickHz);
    CoveredTightly(n, nanos, tick, tickHz);
    IsMultiple(n, nanos, tick);
  }

  lemma ExactTicksMono(x: nat, y: nat, tickHz: uint64)
    requires x <= y
    ensures ExactTicks(x, tickHz) <= ExactTicks(y, tickHz)
  {
    MulMono(x, y, tickHz);
    DivCeilMono(x * tickHz, y * tickHz, NANOS_PER_SECOND, NANOS_PER_SECOND);
  }

  // ------------------------------------------------------------------ what rounding needs

  /** An interferer's period that rounding may not hide activations of before the deadline: exact,
      or so short that its ticks leave the CPU to nothing else, or no shorter than the deadline. */
  predicate IsSafePeriod(period: uint64, deadline: uint64, tickHz: uint64) {
    IsExact(period, tickHz) || ToTicks(period, tickHz) == 1 || deadline <= period
  }

  /** Two durations that each fit before the deadline, do not fit together, but do so on ticks. */
  predicate FitTogether(x: uint64, y: uint64, deadline: uint64, tickHz: uint64) {
    x <= deadline && y <= deadline && deadline < x + y &&
    ToTicks(x, tickHz) + ToTicks(y, tickHz) <= ToTicks(deadline, tickHz)
  }

  ghost predicate HasNoRoomForTwo(deadline: uint64, tickHz: uint64) {
    forall x: uint64, y: uint64 :: !FitTogether(x, y, deadline, tickHz)
  }

  /** A deadline that rounding may not loosen for this task: the last nanosecond of its tick, or one
      that the execution time respects and whose ticks have no room for two durations too many. */
  ghost predicate IsSafeDeadline(deadline: uint64, wcet: uint64, tickHz: uint64) {
    IsLast(deadline, tickHz) || (wcet <= deadline && HasNoRoomForTwo(deadline, tickHz))
  }

  /** What a `Pass` of task `i` needs to survive. Other tasks' deadlines do not matter, nor do the
      periods of tasks that do not preempt it. */
  ghost predicate IsRoundable(all: seq<TaskTiming>, i: nat, tickHz: uint64)
    requires i < |all|
  {
    IsUsableRate(tickHz) && all[i].blocking == 0 &&
    EffectiveDeadline(InTicks(all[i], tickHz)) != Some(U64_MAX) &&
    (EffectiveDeadline(all[i]).Some? && all[i].wcet.Some? ==>
       var deadline := EffectiveDeadline(all[i]).value;
       IsSafeDeadline(deadline, all[i].wcet.value, tickHz) &&
       forall t :: t in all && Preempts(t, all[i]) && t.period.Some? ==> IsSafePeriod(t.period.value, deadline, tickHz))
  }

  /** What a `Fail` of task `i` needs to survive. Periods and deadlines are rounded up, which only
      helps the task, and its own execution time is rounded once. */
  ghost predicate IsRoundableFail(all: seq<TaskTiming>, i: nat, tickHz: uint64)
    requires i < |all|
  {
    IsUsableRate(tickHz) && all[i].blocking == 0 &&
    forall t :: t in all && Preempts(t, all[i]) && t.wcet.Some? ==> NeverCarries(t.wcet.value, tickHz)
  }

  /** Beside `before`, an execution time costs a tick more than it adds. */
  predicate Carries(before: uint64, wcet: uint64, tickHz: uint64) {
    0 < before && before + wcet <= U64_MAX && ToTicks(before + wcet, tickHz) < U64_MAX &&
    ToTicks(before + wcet, tickHz) < ToTicks(before, tickHz) + ToTicks(wcet, tickHz)
  }

  ghost predicate NeverCarries(wcet: uint64, tickHz: uint64) {
    forall before: uint64 :: !Carries(before, wcet, tickHz)
  }

  // ------------------------------------------------------------------ simpler forms of these conditions

  /** The last nanosecond of a tick leaves no room. */
  lemma LastHasNoRoom(deadline: uint64, tickHz: uint64)
    requires IsUsableRate(tickHz) && IsLast(deadline, tickHz) && ToTicks(deadline, tickHz) < U64_MAX
    ensures HasNoRoomForTwo(deadline, tickHz)
  {
    hide ToTicks;
    forall x: uint64, y: uint64 | deadline < x + y && x <= deadline && y <= deadline
      ensures ToTicks(deadline, tickHz) < ToTicks(x, tickHz) + ToTicks(y, tickHz)
    {
      if ToTicks(x, tickHz) + ToTicks(y, tickHz) <= ToTicks(deadline, tickHz) {
        TicksCover(x, tickHz);
        TicksCover(y, tickHz);
        assert x * tickHz + y * tickHz == (x + y) * tickHz;
        MulMono(deadline + 1, x + y, tickHz);
      }
    }
  }

  /** Nor does a deadline within one tick. */
  lemma OneTickHasNoRoom(deadline: uint64, tickHz: uint64)
    requires 0 < tickHz && ToTicks(deadline, tickHz) <= 1
    ensures HasNoRoomForTwo(deadline, tickHz)
  {
    hide ToTicks;
    forall x: uint64, y: uint64 | deadline < x + y && x <= deadline && y <= deadline
      ensures ToTicks(deadline, tickHz) < ToTicks(x, tickHz) + ToTicks(y, tickHz)
    {
      ToTicksPositive(x, tickHz);
      ToTicksPositive(y, tickHz);
    }
  }

  /** An execution time that converts exactly never carries. */
  lemma ExactNeverCarries(wcet: uint64, tickHz: uint64)
    requires IsUsableRate(tickHz) && IsExact(wcet, tickHz)
    ensures NeverCarries(wcet, tickHz)
  {
    hide ToTicks;
    forall before: uint64 | before + wcet <= U64_MAX && ToTicks(before + wcet, tickHz) < U64_MAX
      ensures ToTicks(before, tickHz) + ToTicks(wcet, tickHz) <= ToTicks(before + wcet, tickHz)
    {
      ToTicksIsExact(before, tickHz);
      ToTicksIsExact(before + wcet, tickHz);
      assert (before + wcet) * tickHz == ToTicks(wcet, tickHz) * NANOS_PER_SECOND + before * tickHz;
      DivCeilOffset(ToTicks(wcet, tickHz), before * tickHz, NANOS_PER_SECOND);
    }
  }

  // ------------------------------------------------------------------ the same interferers in both units

  /** The interferers on ticks are the conversions of the interferers in nanoseconds. */
  ghost predicate IsConverted(nano: seq<Load>, ticks: seq<Load>, tickHz: uint64) {
    |nano| == |ticks| &&
    forall k :: 0 <= k < |nano| ==> AreSame(nano[k], ticks[k], tickHz)
  }

  predicate AreSame(nano: Load, ticks: Load, tickHz: uint64) {
    nano.period <= U64_MAX && nano.wcet <= U64_MAX &&
    ticks.period == ToTicks(nano.period, tickHz) && ticks.wcet == ToTicks(nano.wcet, tickHz)
  }

  predicate IsLoadOf(t: TaskTiming, load: Load) {
    t.period == Some(load.period) && t.wcet == Some(load.wcet)
  }

  lemma ClassifyConverts(other: TaskTiming, tickHz: uint64)
    requires Classify(InTicks(other, tickHz)).Loads?
    ensures Classify(other).Loads? && IsLoadOf(other, Classify(other).hp[0])
    ensures AreSame(Classify(other).hp[0], Classify(InTicks(other, tickHz)).hp[0], tickHz)
  {}

  /** `q` is anything that holds of the loads of the preempting tasks. */
  lemma {:induction false} GatherConverts(task: TaskTiming, all: seq<TaskTiming>, tickHz: uint64, q: Load -> bool)
    requires Gather(InTicks(task, tickHz), AllInTicks(all, tickHz)).Loads?
    requires forall t, load :: t in all && Preempts(t, task) && IsLoadOf(t, load) ==> q(load)
    ensures Gather(task, all).Loads?
    ensures IsConverted(Gather(task, all).hp, Gather(InTicks(task, tickHz), AllInTicks(all, tickHz)).hp, tickHz)
    ensures forall load :: load in Gather(task, all).hp ==> q(load)
  {
    hide ToTicks;
    if all != [] {
      var n := |all| - 1;
      assert AllInTicks(all, tickHz)[..n] == AllInTicks(all[..n], tickHz);
      GatherConverts(task, all[..n], tickHz, q);
      if Preempts(all[n], task) {
        ClassifyConverts(all[n], tickHz);
        assert q(Classify(all[n]).hp[0]);
      }
    }
  }

  // ------------------------------------------------------------------ a Pass

  /** What the activations that `r` ticks hold execute in nanoseconds. */
  function Executes(base: nat, nano: seq<Load>, ticks: seq<Load>, r: nat): nat
    requires |nano| == |ticks|
  {
    if nano == [] then base
    else
      var n := |nano| - 1;
      Executes(base, nano[..n], ticks[..n], r) + DivCeil(r, ticks[n].period) * nano[n].wcet
  }

  /** The execution times, in nanoseconds, fit the ticks. */
  ghost predicate IsWithinTicks(nano: seq<Load>, ticks: seq<Load>, tickHz: uint64) {
    |nano| == |ticks| && forall k :: 0 <= k < |nano| ==> nano[k].wcet * tickHz <= ticks[k].wcet * NANOS_PER_SECOND
  }

  lemma {:induction false} ExecutesWithinTicks(
      base: nat, nano: seq<Load>, base': nat, ticks: seq<Load>, tickHz: uint64, r: nat)
    requires IsWithinTicks(nano, ticks, tickHz) && base * tickHz <= base' * NANOS_PER_SECOND
    ensures Executes(base, nano, ticks, r) * tickHz <= Demand(base', ticks, r) * NANOS_PER_SECOND
  {
    hide DivCeil;
    if nano != [] {
      var n := |nano| - 1;
      ExecutesWithinTicks(base, nano[..n], base', ticks[..n], tickHz, r);
      var a := DivCeil(r, ticks[n].period);
      MulMono(nano[n].wcet * tickHz, ticks[n].wcet * NANOS_PER_SECOND, a);
      assert (a * nano[n].wcet) * tickHz == a * (nano[n].wcet * tickHz);
      assert a * (ticks[n].wcet * NANOS_PER_SECOND) == (a * ticks[n].wcet) * NANOS_PER_SECOND;
      assert (Executes(base, nano[..n], ticks[..n], r) + a * nano[n].wcet) * tickHz
          == Executes(base, nano[..n], ticks[..n], r) * tickHz + (a * nano[n].wcet) * tickHz;
    }
  }

  /** In a window of `w` nanoseconds no task runs more often than in one of `r` ticks. */
  ghost predicate RunsNoMore(nano: seq<Load>, ticks: seq<Load>, w: nat, r: nat) {
    |nano| == |ticks| &&
    forall k :: 0 <= k < |nano| ==> nano[k].wcet == 0 || DivCeil(w, nano[k].period) <= DivCeil(r, ticks[k].period)
  }

  lemma {:induction false} DemandWithinExecutes(base: nat, nano: seq<Load>, ticks: seq<Load>, w: nat, r: nat)
    requires RunsNoMore(nano, ticks, w, r)
    ensures base <= Demand(base, nano, w) <= Executes(base, nano, ticks, r)
  {
    hide DivCeil;
    if nano != [] {
      var n := |nano| - 1;
      DemandWithinExecutes(base, nano[..n], ticks[..n], w, r);
      if nano[n].wcet != 0 {
        MulMono(DivCeil(w, nano[n].period), DivCeil(r, ticks[n].period), nano[n].wcet);
      }
    }
  }

  lemma {:induction false} ExecutesBase(base: nat, nano: seq<Load>, ticks: seq<Load>, r: nat)
    requires |nano| == |ticks|
    ensures Executes(base, nano, ticks, r) == base + Executes(0, nano, ticks, r)
  {
    if nano != [] {
      ExecutesBase(base, nano[..|nano| - 1], ticks[..|nano| - 1], r);
    }
  }

  lemma SameActivations(period: positive, period': positive, tickHz: positive, w: nat, r: nat)
    requires period' * NANOS_PER_SECOND == period * tickHz && w * tickHz <= r * NANOS_PER_SECOND
    ensures DivCeil(w, period) <= DivCeil(r, period')
  {
    var n := DivCeil(r, period');
    DivCeilBounds(r, period');
    assert (n * period') * NANOS_PER_SECOND == n * (period' * NANOS_PER_SECOND);
    assert n * (period * tickHz) == (n * period) * tickHz;
    CancelFactor(w, n * period, tickHz);
    DivCeilLeast(w, period, n);
  }

  /** An interferer that leaves room for something else in the response on ticks fits its ticks, and
      with a safe period it runs no more often. */
  lemma SafeRunsNoMore(nano: Load, ticks: Load, tickHz: uint64, w: nat, r: nat, deadline: uint64)
    requires IsUsableRate(tickHz) && AreSame(nano, ticks, tickHz) && IsSafePeriod(nano.period, deadline, tickHz)
    requires 0 < r && w <= deadline && w * tickHz <= r * NANOS_PER_SECOND && Cost(ticks, r) < r
    ensures nano.wcet == 0 || DivCeil(w, nano.period) <= DivCeil(r, ticks.period)
  {
    hide ToTicks;
    WcetWithinCost(ticks, r);
    if IsExact(nano.period, tickHz) {
      SameActivations(nano.period, ticks.period, tickHz, w, r);
    } else if ticks.period == 1 {
      DivCeilUnique(r, 1, r);
      if nano.wcet != 0 {
        ToTicksPositive(nano.wcet, tickHz);
        MulMono(1, ticks.wcet, r);
      }
    } else {
      DivCeilLeast(w, nano.period, 1);
    }
  }

  /** What a `Pass` says on ticks: the response is the least solution, so a positive one has a
      positive base. */
  lemma PositivePass(task: TaskTiming, all: seq<TaskTiming>)
    requires VerdictOf(task, all).Pass? && EffectiveDeadline(task) != Some(U64_MAX) && task.blocking == 0
    ensures IsAnalysable(task, all)
    ensures var r, hp := VerdictOf(task, all).response, Gather(task, all).hp;
            Demand(task.wcet.value, hp, r) == r && r <= EffectiveDeadline(task).value < U64_MAX &&
            (r == 0 <==> task.wcet == Some(0))
  {
    SaturationIsExact(task, all);
    var r, hp := VerdictOf(task, all).response, Gather(task, all).hp;
    DemandMono(task.wcet.value, hp, r, r);
    DemandAtZero(task.wcet.value, hp);
    assert task.wcet == Some(0) ==> Suffices(0, hp, 0);
  }

  /** Beside a positive base no interferer fills the response. */
  lemma PassFitsTicks(nano: seq<Load>, base': nat, ticks: seq<Load>, tickHz: uint64, r: nat)
    requires IsUsableRate(tickHz) && IsConverted(nano, ticks, tickHz)
    requires 0 < base' && Demand(base', ticks, r) == r < U64_MAX
    ensures IsWithinTicks(nano, ticks, tickHz) && forall k :: 0 <= k < |ticks| ==> Cost(ticks[k], r) < r
  {
    hide Demand, Cost, ToTicks;
    DemandMono(base', ticks, r, r);
    forall k: nat | k < |nano|
      ensures Cost(ticks[k], r) < r && nano[k].wcet * tickHz <= ticks[k].wcet * NANOS_PER_SECOND
    {
      CostWithin(base', ticks, r, k);
      WcetWithinCost(ticks[k], r);
      TicksCover(nano[k].wcet, tickHz);
    }
  }

  /** A safe deadline holds what the ticks of the response execute. */
  lemma ExecutesByDeadline(wcet: uint64, interference: nat, tickHz: uint64, c: nat, r: nat, deadline: uint64)
    requires IsUsableRate(tickHz) && IsSafeDeadline(deadline, wcet, tickHz)
    requires 0 < c == ToTicks(wcet, tickHz) <= r <= ToTicks(deadline, tickHz) < U64_MAX
    requires interference * tickHz <= (r - c) * NANOS_PER_SECOND
    requires (wcet + interference) * tickHz <= r * NANOS_PER_SECOND
    ensures wcet + interference <= deadline
  {
    hide ToTicks, HasNoRoomForTwo, FitTogether;
    if IsLast(deadline, tickHz) {
      StrictlyLess(wcet + interference, deadline + 1, tickHz);
    } else if deadline < wcet + interference {
      NoRoomForInterference(wcet, interference, tickHz, c, r, deadline);
    }
  }

  lemma NoRoomForInterference(wcet: uint64, interference: nat, tickHz: uint64, c: nat, r: nat, deadline: uint64)
    requires IsUsableRate(tickHz) && wcet <= deadline && HasNoRoomForTwo(deadline, tickHz)
    requires 0 < c == ToTicks(wcet, tickHz) <= r <= ToTicks(deadline, tickHz) < U64_MAX
    requires interference * tickHz <= (r - c) * NANOS_PER_SECOND
    ensures wcet + interference <= deadline
  {
    hide ToTicks, ExactTicks;
    DivCeilLeast(interference * tickHz, NANOS_PER_SECOND, r - c);
    assert ExactTicks(interference, tickHz) <= r - c by {
      ExactTicksAre(interference, tickHz);
    }
    if interference <= deadline {
      ToTicksIsExact(interference, tickHz);
      assert !FitTogether(wcet, interference, deadline, tickHz);
    } else {
      ToTicksIsExact(deadline, tickHz);
      ExactTicksMono(deadline, interference, tickHz);
    }
  }

  lemma ExactTicksAre(nanos: nat, tickHz: nat)
    ensures ExactTicks(nanos, tickHz) == DivCeil(nanos * tickHz, NANOS_PER_SECOND)
  {}

  /** The window in question: what the activations in the response on ticks execute. */
  lemma PositivePassSuffices(wcet: uint64, nano: seq<Load>, ticks: seq<Load>, tickHz: uint64, r: nat, deadline: uint64)
    returns (w: nat)
    requires IsUsableRate(tickHz) && IsConverted(nano, ticks, tickHz) && IsSafeDeadline(deadline, wcet, tickHz)
    requires forall load :: load in nano ==> load.period <= U64_MAX && IsSafePeriod(load.period, deadline, tickHz)
    requires 0 < ToTicks(wcet, tickHz)
    requires Demand(ToTicks(wcet, tickHz), ticks, r) == r <= ToTicks(deadline, tickHz) < U64_MAX
    ensures Suffices(wcet, nano, w) && w <= deadline && w * tickHz <= r * NANOS_PER_SECOND
  {
    hide IsSafePeriod, IsSafeDeadline, Demand, ToTicks, Executes, Cost, AreSame, DivCeil;
    var c := ToTicks(wcet, tickHz);
    w := Executes(wcet, nano, ticks, r);
    PassFitsTicks(nano, c, ticks, tickHz, r);
    TicksCover(wcet, tickHz);
    DemandMono(c, ticks, r, r);
    DemandBase(c, ticks, r);
    ExecutesBase(wcet, nano, ticks, r);
    ExecutesWithinTicks(wcet, nano, c, ticks, tickHz, r);
    ExecutesWithinTicks(0, nano, 0, ticks, tickHz, r);
    ExecutesByDeadline(wcet, Executes(0, nano, ticks, r), tickHz, c, r, deadline);
    forall k: nat | k < |nano|
      ensures nano[k].wcet == 0 || DivCeil(w, nano[k].period) <= DivCeil(r, ticks[k].period)
    {
      assert nano[k] in nano;
      SafeRunsNoMore(nano[k], ticks[k], tickHz, w, r, deadline);
    }
    DemandWithinExecutes(wcet, nano, ticks, w, r);
  }

  /** A `Pass` on ticks is a window, in nanoseconds, that suffices and ends by the deadline and by
      the response. */
  lemma TickPassSuffices(all: seq<TaskTiming>, i: nat, tickHz: uint64) returns (w: nat)
    requires i < |all| && IsRoundable(all, i, tickHz)
    requires TickVerdict(all, i, tickHz).Pass?
    ensures IsAnalysable(all[i], all)
    ensures Suffices(Base(all[i]), Gather(all[i], all).hp, w) && w <= EffectiveDeadline(all[i]).value
    ensures w * tickHz <= TickVerdict(all, i, tickHz).response * NANOS_PER_SECOND
  {
    hide VerdictOf, Gather, Demand, IsConverted, IsSafePeriod, IsSafeDeadline, ToTicks;
    var task, tasks := InTicks(all[i], tickHz), AllInTicks(all, tickHz);
    PositivePass(task, tasks);
    var r, wcet, deadline := VerdictOf(task, tasks).response, all[i].wcet.value, EffectiveDeadline(all[i]).value;
    GatherConverts(all[i], all, tickHz,
      (load: Load) => load.period <= U64_MAX && IsSafePeriod(load.period, deadline, tickHz));
    var nano, ticks := Gather(all[i], all).hp, Gather(task, tasks).hp;
    if r == 0 {
      if wcet != 0 {
        ToTicksPositive(wcet, tickHz);
      }
      w := 0;
      DemandAtZero(0, nano);
    } else {
      w := PositivePassSuffices(wcet, nano, ticks, tickHz, r, deadline);
    }
  }

  /** Rounding is conservative: a `Pass` on ticks implies that the nanosecond recurrence has a
      solution within the nanosecond deadline. */
  lemma TickPassSolvesNanos(all: seq<TaskTiming>, i: nat, tickHz: uint64) returns (x: nat)
    requires i < |all| && IsRoundable(all, i, tickHz)
    requires TickVerdict(all, i, tickHz).Pass?
    ensures IsAnalysable(all[i], all)
    ensures Demand(Base(all[i]), Gather(all[i], all).hp, x) == x && x <= EffectiveDeadline(all[i]).value
  {
    var w := TickPassSuffices(all, i, tickHz);
    x := SolutionBelow(Base(all[i]), Gather(all[i], all).hp, w);
  }

  /** ... and that in every run stepped in nanoseconds every job is done by the deadline, and by
      any instant that the tick response covers. */
  lemma TickPassIsSoundInNanos(all: seq<TaskTiming>, i: nat, tickHz: uint64, run: Run)
    requires i < |all| && IsRoundable(all, i, tickHz) && CountsEveryRival(all, i)
    requires TickVerdict(all, i, tickHz).Pass?
    requires EffectiveDeadline(all[i]).value <= all[i].period.value && IsRun(all, run)
    ensures RespondsWithin(run, i, EffectiveDeadline(all[i]).value)
    ensures RespondsWithin(run, i, NanosWithin(TickVerdict(all, i, tickHz).response, tickHz))
  {
    hide IsRun, CountsEveryRival, Gather, TickVerdict, IsRoundable, NanosWithin;
    RateIsUsable(all, i, tickHz);
    var w := TickPassSuffices(all, i, tickHz);
    forall t: nat | t + w <= |run.cpu| && 0 < run.work(i, t)
      ensures Released(run, i, 0, t + 1) <= Executed(run, i, 0, t + w)
    {
      EveryJobFinishes(all, i, run, w, t);
    }
    assert RespondsWithin(run, i, w);
    RespondsLater(all, i, run, w, EffectiveDeadline(all[i]).value);
    WithinIsLongest(w, TickVerdict(all, i, tickHz).response, tickHz);
    RespondsLater(all, i, run, w, NanosWithin(TickVerdict(all, i, tickHz).response, tickHz));
  }

  lemma RateIsUsable(all: seq<TaskTiming>, i: nat, tickHz: uint64)
    requires i < |all| && IsRoundable(all, i, tickHz)
    ensures 0 < tickHz && all[i].blocking == 0
  {}

  lemma WithinIsLongest(w: nat, r: nat, tickHz: uint64)
    requires 0 < tickHz
    ensures w * tickHz <= r * NANOS_PER_SECOND <==> w <= NanosWithin(r, tickHz)
  {
    var q := NanosWithin(r, tickHz);
    assert q * tickHz <= r * NANOS_PER_SECOND < (q + 1) * tickHz by {
      assert (q + 1) * tickHz == q * tickHz + tickHz;
    }
    if w <= q {
      MulMono(w, q, tickHz);
    } else {
      MulMono(q + 1, w, tickHz);
    }
  }

  // ------------------------------------------------------------------ a Fail

  /** A rounded-up window sees no more of a rounded-up period. */
  lemma ActivationsRoundDown(period: positive, period': positive, tickHz: positive, x: nat, t: nat)
    requires period * tickHz <= period' * NANOS_PER_SECOND && t == DivCeil(x * tickHz, NANOS_PER_SECOND)
    ensures DivCeil(t, period') <= DivCeil(x, period)
  {
    hide DivCeil;
    var m := DivCeil(x, period);
    DivCeilBounds(x, period);
    MulMono(x, m * period, tickHz);
    assert (m * period) * tickHz == m * (period * tickHz);
    MulMono(period * tickHz, period' * NANOS_PER_SECOND, m);
    assert m * (period' * NANOS_PER_SECOND) == (m * period') * NANOS_PER_SECOND;
    DivCeilLeast(x * tickHz, NANOS_PER_SECOND, m * period');
    DivCeilLeast(t, period', m);
  }

  lemma LoadRoundsDown(nano: Load, ticks: Load, tickHz: uint64, x: positive, t: nat)
    requires IsUsableRate(tickHz) && AreSame(nano, ticks, tickHz) && t == ExactTicks(x, tickHz) && t < U64_MAX
    ensures DivCeil(t, ticks.period) <= DivCeil(x, nano.period)
  {
    hide DivCeil, ToTicks;
    TicksCover(nano.period, tickHz);
    if ticks.period == U64_MAX {
      DivCeilLeast(t, ticks.period, 1);
      DivCeilBounds(x, nano.period);
    } else {
      ActivationsRoundDown(nano.period, ticks.period, tickHz, x, t);
    }
  }

  /** Added one by one, execution times that never carry cost no more ticks than they add. */
  lemma {:induction false} TimesNeverCarry(before: uint64, wcet: uint64, n: nat, tickHz: uint64)
    requires 0 < before && NeverCarries(wcet, tickHz)
    requires before + n * wcet <= U64_MAX && ToTicks(before + n * wcet, tickHz) < U64_MAX
    ensures ToTicks(before, tickHz) + n * ToTicks(wcet, tickHz) <= ToTicks(before + n * wcet, tickHz)
    decreases n
  {
    hide ToTicks;
    if n != 0 {
      OneMore(n - 1, wcet);
      OneMore(n - 1, ToTicks(wcet, tickHz));
      var last := before + (n - 1) * wcet;
      AddsItsTicks(last, wcet, tickHz);
      TimesNeverCarry(before, wcet, n - 1, tickHz);
    }
  }

  lemma OneMore(n: nat, x: nat)
    ensures (n + 1) * x == n * x + x
  {}

  lemma AddsItsTicks(before: nat, wcet: uint64, tickHz: uint64)
    requires 0 < before && NeverCarries(wcet, tickHz)
    requires before + wcet <= U64_MAX && ToTicks(before + wcet, tickHz) < U64_MAX
    ensures ToTicks(before, tickHz) + ToTicks(wcet, tickHz) <= ToTicks(before + wcet, tickHz)
  {
    hide ToTicks;
    assert !Carries(before, wcet, tickHz);
  }

  lemma BoundApplies(base: nat, hp: seq<Load>, bound: nat, w: nat)
    requires IsLowerBound(base, hp, bound) && Demand(base, hp, w) <= w
    ensures bound <= w
  {
    assert Suffices(base, hp, w);
  }

  /** So the demand on ticks in a rounded window is at most the rounded demand. */
  lemma {:induction false} DemandNeverCarries(
      wcet: uint64, nano: seq<Load>, ticks: seq<Load>, tickHz: uint64, x: positive, t: nat)
    requires IsUsableRate(tickHz) && IsConverted(nano, ticks, tickHz) && 0 < wcet
    requires forall load :: load in nano ==> load.wcet <= U64_MAX && NeverCarries(load.wcet, tickHz)
    requires t == ExactTicks(x, tickHz) && t < U64_MAX
    requires Demand(wcet, nano, x) <= U64_MAX && ToTicks(Demand(wcet, nano, x), tickHz) < U64_MAX
    ensures wcet <= Demand(wcet, nano, x)
    ensures Demand(ToTicks(wcet, tickHz), ticks, t) <= ToTicks(Demand(wcet, nano, x), tickHz)
  {
    hide ToTicks, ExactTicks, DivCeil, NeverCarries;
    if nano != [] {
      var n := |nano| - 1;
      assert nano[n] in nano && forall load :: load in nano[..n] ==> load in nano;
      var before := Demand(wcet, nano[..n], x);
      ToTicksMono(before, Demand(wcet, nano, x), tickHz);
      DemandNeverCarries(wcet, nano[..n], ticks[..n], tickHz, x, t);
      LoadRoundsDown(nano[n], ticks[n], tickHz, x, t);
      var a, m := DivCeil(t, ticks[n].period), DivCeil(x, nano[n].period);
      MulMono(a, m, ticks[n].wcet);
      TimesNeverCarry(before, nano[n].wcet, m, tickHz);
    }
  }

  /** A `Fail` survives: when it is the verdict on ticks, every window that suffices in nanoseconds
      ends after the deadline. */
  lemma TickFailHolds(all: seq<TaskTiming>, i: nat, tickHz: uint64)
    requires i < |all| && IsRoundableFail(all, i, tickHz) && TickVerdict(all, i, tickHz).Fail?
    ensures IsAnalysable(all[i], all) && 0 < all[i].wcet.value
    ensures IsLowerBound(Base(all[i]), Gather(all[i], all).hp, EffectiveDeadline(all[i]).value + 1)
  {
    hide Solve, Gather, Demand, IsConverted, NeverCarries, ToTicks, Suffices;
    var task, tasks := InTicks(all[i], tickHz), AllInTicks(all, tickHz);
    VerdictDecides(task, tasks);
    GatherConverts(all[i], all, tickHz, (load: Load) => load.wcet <= U64_MAX && NeverCarries(load.wcet, tickHz));
    var wcet, deadline := all[i].wcet.value, EffectiveDeadline(all[i]).value;
    var nano, ticks := Gather(all[i], all).hp, Gather(task, tasks).hp;
    FailHasWork(wcet, ticks, tickHz, VerdictOf(task, tasks).response);
    forall y: nat | Suffices(wcet, nano, y)
      ensures deadline + 1 <= y
    {
      WindowIsLate(wcet, nano, ticks, tickHz, VerdictOf(task, tasks).response, deadline, y);
    }
  }

  lemma WindowIsLate(
      wcet: uint64, nano: seq<Load>, ticks: seq<Load>, tickHz: uint64, response: uint64, deadline: uint64, y: nat)
    requires IsUsableRate(tickHz) && IsConverted(nano, ticks, tickHz) && 0 < wcet
    requires forall load :: load in nano ==> load.wcet <= U64_MAX && NeverCarries(load.wcet, tickHz)
    requires IsLowerBound(ToTicks(wcet, tickHz), ticks, response) && ToTicks(deadline, tickHz) < response
    requires Suffices(wcet, nano, y)
    ensures deadline < y
  {
    hide Demand, IsConverted, NeverCarries, ToTicks, ExactTicks;
    if y <= deadline {
      DemandMono(wcet, nano, y, y);
      ToTicksIsExact(y, tickHz);
      ToTicksMono(Demand(wcet, nano, y), y, tickHz);
      ToTicksMono(y, deadline, tickHz);
      DemandNeverCarries(wcet, nano, ticks, tickHz, y, ExactTicks(y, tickHz));
      BoundApplies(ToTicks(wcet, tickHz), ticks, response, ToTicks(y, tickHz));
    }
  }

  lemma FailHasWork(wcet: uint64, ticks: seq<Load>, tickHz: uint64, response: positive)
    requires IsLowerBound(ToTicks(wcet, tickHz), ticks, response)
    ensures 0 < wcet
  {
    if wcet == 0 {
      DemandAtZero(0, ticks);
      assert Suffices(0, ticks, 0);
    }
  }

  /** ... and there is a run stepped in nanoseconds that misses it. */
  lemma TickFailMissesInNanos(all: seq<TaskTiming>, i: nat, tickHz: uint64) returns (run: Run)
    requires i < |all| && IsRoundableFail(all, i, tickHz) && TickVerdict(all, i, tickHz).Fail?
    ensures EffectiveDeadline(all[i]).Some?
    ensures IsRun(all, run) && !RespondsWithin(run, i, EffectiveDeadline(all[i]).value)
  {
    hide IsRun, TickVerdict, Gather, IsRoundableFail, IsSynchronous;
    TickFailHolds(all, i, tickHz);
    FailIsRoundable(all, i, tickHz);
    var deadline: nat := EffectiveDeadline(all[i]).value;
    run := SynchronousRunExists(all, i, deadline);
    SynchronousWork(all, i, run);
    FirstJobIsLate(all, i, run, deadline + 1, deadline);
    assert Released(run, i, 0, 1) == run.work(i, 0);
    assert Executed(run, i, 0, 0 + deadline) < Released(run, i, 0, 0 + 1);
  }

  lemma FailIsRoundable(all: seq<TaskTiming>, i: nat, tickHz: uint64)
    requires i < |all| && IsRoundableFail(all, i, tickHz)
    ensures all[i].blocking == 0
  {}

  lemma SynchronousWork(all: seq<TaskTiming>, i: nat, run: Run)
    requires i < |all| && all[i].wcet.Some? && IsSynchronous(all, i, run)
    ensures run.work(i, 0) == all[i].wcet.value
  {}

  // ------------------------------------------------------------------ two real inputs

  /** Two one-tick tasks with room for both before the lower one's deadline, which is two ticks. */
  lemma PairPasses(low: TaskTiming, high: TaskTiming)
    requires Preempts(high, low) && high.period.Some? && 2 <= high.period.value && high.wcet == Some(1)
    requires low.wcet == Some(1) && low.blocking == 0 && low.period.Some? && low.deadline == Some(2)
    ensures VerdictOf(low, [low, high]) == Pass(2, 0)
  {
    var load := Load(high.period.value, 1);
    GatherPair(low, high);
    DivCeilUnique(1, load.period, 1);
    DivCeilUnique(2, load.period, 1);
    DemandOne(1, load, 1);
    DemandOne(1, load, 2);
    SatDemandIsCapped(1, [load], 1);
    SatDemandIsCapped(1, [load], 2);
    SolveTwice(1, [load], 2, MAX_ITERATIONS);
  }

  lemma SolveTwice(base: uint64, hp: seq<Load>, response: uint64, rounds: nat)
    requires 2 <= rounds && base < response
    requires SatDemand(base, hp, base) == response && SatDemand(base, hp, response) == response
    ensures Solve(base, hp, response, base, rounds) == Pass(response, 0)
  {
    assert Solve(base, hp, response, response, rounds - 1) == Pass(response, 0);
  }

  const MEGAHERTZ: uint64 := 1_000_000

  /** A task of one microsecond. */
  function OneTick(name: string, priority: uint8, period: uint64, deadline: uint64): TaskTiming {
    TaskTiming(name, priority, Some(period), Some(deadline), Some(1_000), 0)
  }

  lemma OneTickPairPasses(low: TaskTiming, high: TaskTiming, lowDeadline: uint64, highPeriod: uint64, lowPeriod: uint64)
    requires low == OneTick("low", 1, lowPeriod, lowDeadline) && high == OneTick("high", 2, highPeriod, highPeriod)
    requires 1_000 < lowDeadline <= 2_000 && 1_000 < highPeriod
    ensures VerdictOf(InTicks(low, MEGAHERTZ), AllInTicks([low, high], MEGAHERTZ)) == Pass(2, 0)
  {
    WholeTicks(1_000, MEGAHERTZ);
    WholeTicks(lowDeadline, MEGAHERTZ);
    WholeTicks(highPeriod, MEGAHERTZ);
    assert AllInTicks([low, high], MEGAHERTZ) == [InTicks(low, MEGAHERTZ), InTicks(high, MEGAHERTZ)];
    PairPasses(InTicks(low, MEGAHERTZ), InTicks(high, MEGAHERTZ));
  }

  ghost predicate HasSolutionBy(base: nat, load: Load, deadline: nat) {
    exists x: nat :: x <= deadline && Demand(base, [load], x) == x
  }

  /** A solution has room for both tasks, and for a second activation if the period is shorter. */
  lemma BothMustRun(period: positive, x: nat)
    requires Demand(1_000, [Load(period, 1_000)], x) == x
    ensures 2_000 <= x && (period < 2_000 ==> 3_000 <= x)
  {
    DemandOne(1_000, Load(period, 1_000), x);
    DivCeilBounds(x, period);
    if period < 2_000 && DivCeil(x, period) <= 1 {
      MulMono(DivCeil(x, period), 1, period);
    }
  }

  /** A deadline that is not a whole number of ticks is rounded up, which loosens it: the task
      passes on ticks although the nanosecond recurrence has no solution by its deadline. */
  lemma MisalignedDeadlineUnsound(low: TaskTiming, high: TaskTiming)
    requires low == OneTick("low", 1, 10_000, 1_500) && high == OneTick("high", 2, 10_000, 10_000)
    ensures VerdictOf(InTicks(low, MEGAHERTZ), AllInTicks([low, high], MEGAHERTZ)).Pass?
    ensures Gather(low, [low, high]) == Loads([Load(10_000, 1_000)])
    ensures !HasSolutionBy(1_000, Load(10_000, 1_000), 1_500)
    ensures IsTickAligned(10_000, MEGAHERTZ) && !IsTickAligned(1_500, MEGAHERTZ)
  {
    OneTickPairPasses(low, high, 1_500, 10_000, 10_000);
    GatherPair(low, high);
    forall x: nat | Demand(1_000, [Load(10_000, 1_000)], x) == x
      ensures 1_500 < x
    {
      BothMustRun(10_000, x);
    }
  }

  /** A period that is not a whole number of ticks is rounded up, which hides activations. */
  lemma MisalignedPeriodUnsound(low: TaskTiming, high: TaskTiming)
    requires low == OneTick("low", 1, 2_000, 2_000) && high == OneTick("high", 2, 1_500, 1_500)
    ensures VerdictOf(InTicks(low, MEGAHERTZ), AllInTicks([low, high], MEGAHERTZ)).Pass?
    ensures Gather(low, [low, high]) == Loads([Load(1_500, 1_000)])
    ensures !HasSolutionBy(1_000, Load(1_500, 1_000), 2_000)
    ensures IsTickAligned(2_000, MEGAHERTZ) && !IsTickAligned(1_500, MEGAHERTZ)
  {
    OneTickPairPasses(low, high, 2_000, 1_500, 2_000);
    GatherPair(low, high);
    forall x: nat | Demand(1_000, [Load(1_500, 1_000)], x) == x
      ensures 2_000 < x
    {
      BothMustRun(1_500, x);
    }
  }
}
