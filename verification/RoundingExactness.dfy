/** The exact conditions under which verdicts computed on ticks hold in nanoseconds: for a deadline,
    for an interferer's period, and for an interferer's execution time. */
module RoundingExactness {
  import opened Words
  import opened Recurrence
  import opened ResponseTime
  import opened Ticks
  import opened TickRounding
  import opened ValidatedTimings
  import opened AnalysisLaws

  /** The nanosecond recurrence has a solution by the deadline. */
  ghost predicate IsSolvable(all: seq<TaskTiming>, i: nat)
    requires i < |all|
  {
    IsAnalysable(all[i], all) && EffectiveDeadline(all[i]).Some? &&
    exists x: nat :: x <= EffectiveDeadline(all[i]).value && Demand(Base(all[i]), Gather(all[i], all).hp, x) == x
  }

  /** A `Pass` on ticks that holds in nanoseconds. */
  ghost predicate PassHolds(all: seq<TaskTiming>, i: nat, tickHz: uint64)
    requires i < |all|
  {
    TickVerdict(all, i, tickHz).Pass? ==> IsSolvable(all, i)
  }

  /** A `Fail` on ticks that holds in nanoseconds. */
  ghost predicate FailHolds(all: seq<TaskTiming>, i: nat, tickHz: uint64)
    requires i < |all|
  {
    TickVerdict(all, i, tickHz).Fail? ==> !IsSolvable(all, i)
  }

  /** The periods of the preempting tasks are safe for a deadline, those equal to `period` perhaps
      excepted. */
  ghost predicate HasSafePeriods(
      all: seq<TaskTiming>, i: nat, deadline: uint64, tickHz: uint64, period: Option<uint64>)
    requires i < |all|
  {
    forall t :: t in all && Preempts(t, all[i]) && t.period.Some? ==>
      IsSafePeriod(t.period.value, deadline, tickHz) || t.period == period
  }

  lemma RoundablePassHolds(all: seq<TaskTiming>, i: nat, tickHz: uint64)
    requires i < |all| && IsRoundable(all, i, tickHz)
    ensures PassHolds(all, i, tickHz)
  {
    hide IsRoundable, TickVerdict, Gather, Demand;
    if TickVerdict(all, i, tickHz).Pass? {
      var x := TickPassSolvesNanos(all, i, tickHz);
    }
  }

  // ------------------------------------------------------------------ a pair of tasks

  /** Two declared tasks, the second preempting the first. */
  predicate IsPair(low: TaskTiming, high: TaskTiming) {
    low.name == "low" && low.priority == 1 && low.period.Some? && low.wcet.Some? && low.blocking == 0 &&
    high.name == "high" && high.priority == 2 && high.period.Some? && 0 < high.period.value && high.wcet.Some?
  }

  lemma PairGathers(low: TaskTiming, high: TaskTiming, tickHz: uint64)
    requires IsPair(low, high) && 0 < tickHz
    ensures Gather(low, [low, high]) == Loads([Load(high.period.value, high.wcet.value)])
    ensures 0 < ToTicks(high.period.value, tickHz)
    ensures AllInTicks([low, high], tickHz) == [InTicks(low, tickHz), InTicks(high, tickHz)]
    ensures Gather(InTicks(low, tickHz), AllInTicks([low, high], tickHz))
         == Loads([Load(ToTicks(high.period.value, tickHz), ToTicks(high.wcet.value, tickHz))])
  {
    hide ToTicks;
    ToTicksPositive(high.period.value, tickHz);
    GatherPair(low, high);
    assert AllInTicks([low, high], tickHz) == [InTicks(low, tickHz), InTicks(high, tickHz)];
    GatherPair(InTicks(low, tickHz), InTicks(high, tickHz));
  }

  /** The less urgent one passes when its tick deadline has room for both and sees few activations. */
  lemma PairPassesOnTicks(low: TaskTiming, high: TaskTiming, tickHz: uint64)
    requires IsPair(low, high) && 0 < tickHz
    requires var d := ToTicks(EffectiveDeadline(low).value, tickHz);
             d < U64_MAX && 0 < ToTicks(high.period.value, tickHz) &&
             DivCeil(d, ToTicks(high.period.value, tickHz)) <= 2 &&
             ToTicks(low.wcet.value, tickHz)
             + Cost(Load(ToTicks(high.period.value, tickHz), ToTicks(high.wcet.value, tickHz)), d) <= d
    ensures TickVerdict([low, high], 0, tickHz).Pass?
  {
    hide ToTicks, VerdictOf, Cost, Gather, DivCeil;
    PairGathers(low, high, tickHz);
    var load := Load(ToTicks(high.period.value, tickHz), ToTicks(high.wcet.value, tickHz));
    var d := ToTicks(EffectiveDeadline(low).value, tickHz);
    DemandOne(ToTicks(low.wcet.value, tickHz), load, d);
    assert [load][..0] == [] && Activations([load], d) == DivCeil(d, load.period);
    PassesWhenSuffices(InTicks(low, tickHz), AllInTicks([low, high], tickHz), d);
  }

  /** It is not solvable when in every window by the deadline the two need more. */
  lemma PairUnsolvable(low: TaskTiming, high: TaskTiming)
    requires IsPair(low, high)
    requires forall x: nat :: x <= EffectiveDeadline(low).value ==>
               x < low.wcet.value + Cost(Load(high.period.value, high.wcet.value), x)
    ensures !IsSolvable([low, high], 0)
  {
    hide Cost, Gather;
    PairGathers(low, high, 1);
    forall x: nat | x <= EffectiveDeadline(low).value
      ensures Demand(low.wcet.value, [Load(high.period.value, high.wcet.value)], x) != x
    {
      DemandOne(low.wcet.value, Load(high.period.value, high.wcet.value), x);
    }
  }

  lemma PairIsValidated(low: TaskTiming, high: TaskTiming)
    requires IsPair(low, high) && IsValidTiming(low) && IsValidTiming(high)
    ensures IsValidated([low, high])
  {}

  // ------------------------------------------------------------------ deadlines

  lemma AloneVerdict(task: TaskTiming, tickHz: uint64)
    requires task.period.Some? && task.wcet.Some? && task.blocking == 0
    requires ToTicks(task.wcet.value, tickHz) <= ToTicks(EffectiveDeadline(task).value, tickHz)
    ensures TickVerdict([task], 0, tickHz).Pass? && Gather(task, [task]) == Loads([])
  {
    hide ToTicks;
    assert [task][..0] == [];
    assert AllInTicks([task], tickHz) == [InTicks(task, tickHz)] && [InTicks(task, tickHz)][..0] == [];
    assert Gather(InTicks(task, tickHz), [InTicks(task, tickHz)]) == Loads([]);
  }

  /** A task alone that needs one nanosecond more than its deadline, within the same tick. */
  lemma OverlongAlone(deadline: uint64, tickHz: uint64) returns (task: TaskTiming)
    requires IsUsableRate(tickHz) && deadline < U64_MAX && !IsLast(deadline, tickHz)
    ensures IsValidTiming(task) && task.deadline == None && task.blocking == 0
    ensures EffectiveDeadline(task) == Some(deadline)
    ensures !PassHolds([task], 0, tickHz)
  {
    hide ToTicks, IsLast, PassHolds, TickVerdict, IsSolvable;
    task := TaskTiming("low", 1, Some(deadline), None, Some(deadline + 1), 0);
    SameTick(deadline, tickHz);
    AloneVerdict(task, tickHz);
    AloneUnsolvable(task);
    FalsePass([task], 0, tickHz);
  }

  /** Short of its last nanosecond a tick has room for one more. */
  lemma SameTick(deadline: uint64, tickHz: uint64)
    requires IsUsableRate(tickHz) && deadline < U64_MAX && !IsLast(deadline, tickHz)
    ensures 0 < deadline && ToTicks(deadline + 1, tickHz) <= ToTicks(deadline, tickHz)
  {
    hide ToTicks;
    ToTicksIsExact(deadline, tickHz);
    ToTicksIsExact(deadline + 1, tickHz);
    DivCeilLeast((deadline + 1) * tickHz, NANOS_PER_SECOND, ToTicks(deadline, tickHz));
    TicksCover(deadline, tickHz);
    ToTicksPositive(1, tickHz);
  }

  lemma AloneUnsolvable(task: TaskTiming)
    requires Gather(task, [task]) == Loads([]) && task.blocking == 0
    requires task.wcet.Some? && EffectiveDeadline(task).Some? && EffectiveDeadline(task).value < task.wcet.value
    ensures !IsSolvable([task], 0)
  {
    hide Gather;
  }

  /** Two tasks that do not fit together before the deadline, and do so on ticks. */
  lemma TogetherWitness(deadline: uint64, tickHz: uint64, x: uint64, y: uint64, declared: bool)
    returns (low: TaskTiming, high: TaskTiming)
    requires 0 < tickHz && FitTogether(x, y, deadline, tickHz) && ToTicks(deadline, tickHz) < U64_MAX
    ensures IsValidated([low, high]) && EffectiveDeadline(low) == Some(deadline) && low.blocking == 0
    ensures low.deadline == (if declared then Some(deadline) else None) && low.period == Some(deadline)
    ensures HasSafePeriods([low, high], 0, deadline, tickHz, None) && !PassHolds([low, high], 0, tickHz)
  {
    hide PassHolds, ToTicks, IsValidated, Cost, IsExact;
    low := TaskTiming("low", 1, Some(deadline), if declared then Some(deadline) else None, Some(x), 0);
    high := TaskTiming("high", 2, Some(deadline), None, Some(y), 0);
    ToTicksPositive(deadline, tickHz);
    var d := ToTicks(deadline, tickHz);
    OneActivation(d, ToTicks(y, tickHz), d);
    PairPassesOnTicks(low, high, tickHz);
    forall w: nat | w <= deadline
      ensures w < x + Cost(Load(deadline, y), w)
    {
      if w != 0 {
        OneActivation(deadline, y, w);
      }
    }
    PairUnsolvable(low, high);
    FalsePass([low, high], 0, tickHz);
    PairIsValidated(low, high);
  }

  lemma OneActivation(period: positive, wcet: nat, w: positive)
    requires w <= period
    ensures DivCeil(w, period) == 1 && Cost(Load(period, wcet), w) == wcet
  {
    DivCeilUnique(w, period, 1);
  }

  lemma FalsePass(all: seq<TaskTiming>, i: nat, tickHz: uint64)
    requires i < |all| && TickVerdict(all, i, tickHz).Pass? && !IsSolvable(all, i)
    ensures !PassHolds(all, i, tickHz)
  {}

  /** For a declared deadline, over the task sets that validation lets through and at any usable rate:
      a deadline is rounded safely exactly when its ticks have no room for two durations too many. */
  lemma DeclaredDeadlineIff(deadline: uint64, tickHz: uint64)
    requires IsUsableRate(tickHz) && ToTicks(deadline, tickHz) < U64_MAX
    ensures HasNoRoomForTwo(deadline, tickHz) <==>
            forall all: seq<TaskTiming>, i: nat ::
              IsValidated(all) && i < |all| && all[i].deadline == Some(deadline) &&
              HasSafePeriods(all, i, deadline, tickHz, None) ==>
                PassHolds(all, i, tickHz)
  {
    hide PassHolds, IsLast, IsSafePeriod, ToTicks, FitTogether;
    if HasNoRoomForTwo(deadline, tickHz) {
      forall all: seq<TaskTiming>, i: nat |
        IsValidated(all) && i < |all| && all[i].deadline == Some(deadline) &&
        HasSafePeriods(all, i, deadline, tickHz, None)
        ensures PassHolds(all, i, tickHz)
      {
        assert IsValidTiming(all[i]);
        RoundablePassHolds(all, i, tickHz);
      }
    } else {
      var x: uint64, y: uint64 :| FitTogether(x, y, deadline, tickHz);
      var low, high := TogetherWitness(deadline, tickHz, x, y, true);
      assert [low, high][0] == low;
    }
  }

  /** A deadline that nothing holds the execution time against. Only `u64::MAX`, which no execution
      time exceeds, need not be the last nanosecond of its tick. */
  ghost predicate IsSafeAlone(deadline: uint64, tickHz: uint64) {
    IsLast(deadline, tickHz) || (deadline == U64_MAX && HasNoRoomForTwo(deadline, tickHz))
  }

  /** A task set in which an unsafe deadline is passed falsely. */
  lemma UnsafeAlone(deadline: uint64, tickHz: uint64) returns (all: seq<TaskTiming>)
    requires IsUsableRate(tickHz) && ToTicks(deadline, tickHz) < U64_MAX && !IsSafeAlone(deadline, tickHz)
    ensures |all| != 0 && IsValidated(all) && all[0].deadline == None && all[0].period == Some(deadline)
    ensures HasSafePeriods(all, 0, deadline, tickHz, None) && !PassHolds(all, 0, tickHz)
  {
    hide PassHolds, IsLast, IsSafePeriod, ToTicks, FitTogether;
    if deadline < U64_MAX {
      var task := OverlongAlone(deadline, tickHz);
      all := [task];
    } else {
      var x: uint64, y: uint64 :| FitTogether(x, y, deadline, tickHz);
      var low, high := TogetherWitness(deadline, tickHz, x, y, false);
      all := [low, high];
    }
  }

  lemma SafeAloneHolds(all: seq<TaskTiming>, i: nat, deadline: uint64, tickHz: uint64)
    requires i < |all| && all[i].blocking == 0 && EffectiveDeadline(all[i]) == Some(deadline)
    requires IsUsableRate(tickHz) && ToTicks(deadline, tickHz) < U64_MAX && IsSafeAlone(deadline, tickHz)
    requires HasSafePeriods(all, i, deadline, tickHz, None)
    ensures PassHolds(all, i, tickHz)
  {
    hide PassHolds, IsLast, IsSafePeriod, ToTicks, HasNoRoomForTwo;
    RoundablePassHolds(all, i, tickHz);
  }

  /** For the analyser as a library, which compares no execution time with a deadline. */
  lemma LibraryDeadlineIff(deadline: uint64, tickHz: uint64)
    requires IsUsableRate(tickHz) && ToTicks(deadline, tickHz) < U64_MAX
    ensures IsSafeAlone(deadline, tickHz) <==>
            forall all: seq<TaskTiming>, i: nat ::
              i < |all| && all[i].blocking == 0 && EffectiveDeadline(all[i]) == Some(deadline) &&
              HasSafePeriods(all, i, deadline, tickHz, None) ==>
                PassHolds(all, i, tickHz)
  {
    hide PassHolds, IsSafeAlone, HasSafePeriods, ToTicks;
    if IsSafeAlone(deadline, tickHz) {
      forall all: seq<TaskTiming>, i: nat |
        i < |all| && all[i].blocking == 0 && EffectiveDeadline(all[i]) == Some(deadline) &&
        HasSafePeriods(all, i, deadline, tickHz, None)
        ensures PassHolds(all, i, tickHz)
      {
        SafeAloneHolds(all, i, deadline, tickHz);
      }
    } else {
      var all := UnsafeAlone(deadline, tickHz);
      assert IsValidTiming(all[0]);
    }
  }

  /** Validation compares none with a period that stands in for the deadline either. */
  lemma ImpliedDeadlineIff(period: uint64, tickHz: uint64)
    requires IsUsableRate(tickHz) && ToTicks(period, tickHz) < U64_MAX
    ensures IsSafeAlone(period, tickHz) <==>
            forall all: seq<TaskTiming>, i: nat ::
              IsValidated(all) && i < |all| && all[i].deadline == None && all[i].period == Some(period) &&
              HasSafePeriods(all, i, period, tickHz, None) ==>
                PassHolds(all, i, tickHz)
  {
    hide PassHolds, IsSafeAlone, HasSafePeriods, ToTicks;
    if IsSafeAlone(period, tickHz) {
      forall all: seq<TaskTiming>, i: nat |
        IsValidated(all) && i < |all| && all[i].deadline == None && all[i].period == Some(period) &&
        HasSafePeriods(all, i, period, tickHz, None)
        ensures PassHolds(all, i, tickHz)
      {
        assert IsValidTiming(all[i]);
        SafeAloneHolds(all, i, period, tickHz);
      }
    } else {
      var all := UnsafeAlone(period, tickHz);
    }
  }

  /** At a rate that divides a second both conditions read in ticks: whole ticks, or for a declared
      deadline at most one. */
  lemma SafeDeadlinesInTicks(deadline: uint64, tickHz: uint64)
    requires DividesSecond(tickHz) && ToTicks(deadline, tickHz) < U64_MAX
    ensures HasNoRoomForTwo(deadline, tickHz) <==> IsTickAligned(deadline, tickHz) || ToTicks(deadline, tickHz) <= 1
    ensures IsLast(deadline, tickHz) <==> IsTickAligned(deadline, tickHz)
  {
    hide ToTicks, IsTickAligned, IsLast, IsExact, HasNoRoomForTwo, DivCeil;
    AlignedIsExact(deadline, tickHz);
    WholeTicks(deadline, tickHz);
    var d, tick := ToTicks(deadline, tickHz), TickNanos(tickHz);
    if IsLast(deadline, tickHz) {
      LastHasNoRoom(deadline, tickHz);
    } else if d <= 1 {
      OneTickHasNoRoom(deadline, tickHz);
    } else {
      RoomForOneMore(deadline, tickHz, d, tick);
    }
  }

  /** Whole ticks that fill the ticks of a deadline but not the deadline. */
  lemma RoomForOneMore(deadline: uint64, tickHz: uint64, d: nat, tick: positive)
    requires DividesSecond(tickHz) && d == ToTicks(deadline, tickHz) && tick == TickNanos(tickHz)
    requires 2 <= d && deadline < d * tick < deadline + tick
    ensures !HasNoRoomForTwo(deadline, tickHz)
  {
    hide ToTicks, IsLast, HasNoRoomForTwo, TickNanos, DividesSecond;
    assert d * tick == (d - 1) * tick + 1 * tick;
    MulMono(1, d - 1, tick);
    MultipleConverts(1, tickHz);
    MultipleConverts(d - 1, tickHz);
    HasRoom(deadline, tickHz, 1 * tick, (d - 1) * tick);
  }

  lemma HasRoom(deadline: uint64, tickHz: uint64, x: uint64, y: uint64)
    requires FitTogether(x, y, deadline, tickHz)
    ensures !HasNoRoomForTwo(deadline, tickHz)
  {}

  lemma MultipleConverts(n: nat, tickHz: uint64)
    requires DividesSecond(tickHz) && n * TickNanos(tickHz) <= U64_MAX
    ensures ToTicks(n * TickNanos(tickHz), tickHz) == n && IsLast(n * TickNanos(tickHz), tickHz)
  {
    hide ToTicks;
    var nanos: uint64 := n * TickNanos(tickHz);
    WholeTicks(nanos, tickHz);
    DivCeilUnique(nanos, TickNanos(tickHz), n);
    AlignedIsExact(nanos, tickHz);
  }

  // ------------------------------------------------------------------ periods

  ghost predicate HasSafeDeadline(all: seq<TaskTiming>, i: nat, tickHz: uint64)
    requires i < |all|
  {
    EffectiveDeadline(InTicks(all[i], tickHz)) != Some(U64_MAX) &&
    (EffectiveDeadline(all[i]).Some? && all[i].wcet.Some? ==>
       IsSafeDeadline(EffectiveDeadline(all[i]).value, all[i].wcet.value, tickHz))
  }

  /** In the window of its rounded period a task released every true period runs twice. */
  lemma SecondActivation(period: positive, p: nat, tick: positive, x: nat)
    requires 2 <= p && (p - 1) * tick < period < p * tick && x <= p * tick
    ensures x < tick + Cost(Load(period, (p - 1) * tick), x)
  {
    hide DivCeil;
    var n := DivCeil(x, period);
    DivCeilBounds(x, period);
    assert p * tick == (p - 1) * tick + tick;
    MulMono(1, p - 1, tick);
    if x == p * tick {
      if n <= 1 {
        MulMono(n, 1, period);
      }
      MulMono(2, n, (p - 1) * tick);
    } else if x != 0 {
      WcetWithinCost(Load(period, (p - 1) * tick), x);
    }
  }

  /** Whole ticks, or at most one tick, or a period whose last tick ends beyond 64 bits. */
  predicate IsAlwaysSafe(period: uint64, tickHz: uint64)
    requires DividesSecond(tickHz)
  {
    IsTickAligned(period, tickHz) || ToTicks(period, tickHz) == 1 ||
    U64_MAX < ToTicks(period, tickHz) * TickNanos(tickHz)
  }

  lemma PeriodWitness(period: uint64, tickHz: uint64) returns (low: TaskTiming, high: TaskTiming)
    requires DividesSecond(tickHz) && 0 < period && !IsAlwaysSafe(period, tickHz)
    ensures IsValidated([low, high]) && HasSafeDeadline([low, high], 0, tickHz)
    ensures high.period == Some(period) && IsPair(low, high) && !PassHolds([low, high], 0, tickHz)
  {
    hide PassHolds, ToTicks, IsValidated, Cost, IsExact, IsLast, IsTickAligned, HasNoRoomForTwo;
    var p, tick := ToTicks(period, tickHz), TickNanos(tickHz);
    ToTicksPositive(period, tickHz);
    WholeTicks(period, tickHz);
    AlignedIsExact(period, tickHz);
    TicksStayBelow(p, tick);
    assert p * tick == (p - 1) * tick + tick;
    MulMono(1, p - 1, tick);
    low := TaskTiming("low", 1, Some(p * tick), None, Some(1 * tick), 0);
    high := TaskTiming("high", 2, Some(period), None, Some((p - 1) * tick), 0);
    MultipleConverts(1, tickHz);
    MultipleConverts(p - 1, tickHz);
    MultipleConverts(p, tickHz);
    FillsItsPeriod(p);
    PairPassesOnTicks(low, high, tickHz);
    var load := Load(period, (p - 1) * tick);
    forall x: nat | x <= p * tick
      ensures x < tick + Cost(load, x)
    {
      SecondActivation(period, p, tick, x);
    }
    PairUnsolvable(low, high);
    FalsePass([low, high], 0, tickHz);
    PairIsValidated(low, high);
  }

  lemma TicksStayBelow(p: nat, tick: positive)
    requires p * tick <= U64_MAX && 2 <= p && tick != 1
    ensures p < U64_MAX
  {
    ProductMono(p, p, 2, tick);
  }

  lemma FillsItsPeriod(p: nat)
    requires 2 <= p
    ensures DivCeil(p, p) == 1 && 1 + Cost(Load(p, p - 1), p) == p
  {
    DivCeilUnique(p, p, 1);
  }

  /** No safe deadline lies beyond the end of 64-bit time. */
  lemma BeyondIsSafe(period: uint64, deadline: uint64, tickHz: uint64)
    requires DividesSecond(tickHz) && 0 < period && ToTicks(deadline, tickHz) < U64_MAX
    requires U64_MAX < ToTicks(period, tickHz) * TickNanos(tickHz)
    requires IsLast(deadline, tickHz) || HasNoRoomForTwo(deadline, tickHz)
    ensures IsSafePeriod(period, deadline, tickHz)
  {
    hide ToTicks, HasNoRoomForTwo, IsLast, IsTickAligned;
    SafeDeadlinesInTicks(deadline, tickHz);
    AlignedIsExact(deadline, tickHz);
    WholeTicks(period, tickHz);
    if period < deadline {
      ToTicksMono(period, deadline, tickHz);
      ToTicksPositive(period, tickHz);
      if 1 < ToTicks(deadline, tickHz) {
        MulMono(ToTicks(period, tickHz), ToTicks(deadline, tickHz), TickNanos(tickHz));
      }
    }
  }

  lemma AlwaysSafe(period: uint64, deadline: uint64, tickHz: uint64)
    requires DividesSecond(tickHz) && 0 < period && ToTicks(deadline, tickHz) < U64_MAX && IsAlwaysSafe(period, tickHz)
    requires IsLast(deadline, tickHz) || HasNoRoomForTwo(deadline, tickHz)
    ensures IsSafePeriod(period, deadline, tickHz)
  {
    hide ToTicks, HasNoRoomForTwo, IsLast, IsTickAligned;
    AlignedIsExact(period, tickHz);
    if U64_MAX < ToTicks(period, tickHz) * TickNanos(tickHz) {
      BeyondIsSafe(period, deadline, tickHz);
    }
  }

  /** Exactly these periods of an interferer are rounded safely for every safe deadline. */
  lemma PeriodIff(period: uint64, tickHz: uint64)
    requires DividesSecond(tickHz) && 0 < period
    ensures IsAlwaysSafe(period, tickHz) <==>
            forall all: seq<TaskTiming>, i: nat ::
              IsValidated(all) && i < |all| && HasSafeDeadline(all, i, tickHz) && EffectiveDeadline(all[i]).Some? &&
              HasSafePeriods(all, i, EffectiveDeadline(all[i]).value, tickHz, Some(period)) ==>
                PassHolds(all, i, tickHz)
  {
    hide PassHolds, IsSafePeriod, ToTicks, IsAlwaysSafe, IsLast, HasNoRoomForTwo;
    if IsAlwaysSafe(period, tickHz) {
      forall all: seq<TaskTiming>, i: nat |
        IsValidated(all) && i < |all| && HasSafeDeadline(all, i, tickHz) && EffectiveDeadline(all[i]).Some? &&
        HasSafePeriods(all, i, EffectiveDeadline(all[i]).value, tickHz, Some(period))
        ensures PassHolds(all, i, tickHz)
      {
        assert IsValidTiming(all[i]);
        WholeTicks(period, tickHz);
        if all[i].wcet.Some? {
          AlwaysSafe(period, EffectiveDeadline(all[i]).value, tickHz);
        }
        RoundablePassHolds(all, i, tickHz);
      }
    } else {
      var low, high := PeriodWitness(period, tickHz);
      assert HasSafePeriods([low, high], 0, EffectiveDeadline(low).value, tickHz, Some(period));
    }
  }

  // ------------------------------------------------------------------ execution times

  /** The execution times of the preempting tasks never carry, those equal to `wcet` perhaps excepted. */
  ghost predicate HasSafeTimes(all: seq<TaskTiming>, i: nat, tickHz: uint64, wcet: uint64)
    requires i < |all|
  {
    forall t :: t in all && Preempts(t, all[i]) && t.wcet.Some? ==>
      NeverCarries(t.wcet.value, tickHz) || t.wcet.value == wcet
  }

  lemma RoundableFailHolds(all: seq<TaskTiming>, i: nat, tickHz: uint64)
    requires i < |all| && IsRoundableFail(all, i, tickHz)
    ensures FailHolds(all, i, tickHz)
  {
    hide IsRoundableFail, TickVerdict, Gather, Demand;
    if TickVerdict(all, i, tickHz).Fail? {
      TickFailHolds(all, i, tickHz);
      forall x: nat | Demand(Base(all[i]), Gather(all[i], all).hp, x) == x
        ensures EffectiveDeadline(all[i]).value < x
      {
        SolutionSuffices(Base(all[i]), Gather(all[i], all).hp, x);
      }
    }
  }

  lemma SolutionSuffices(base: nat, hp: seq<Load>, x: nat)
    requires Demand(base, hp, x) == x
    ensures Suffices(base, hp, x)
  {}

  /** Beside an execution time that carries: both fit into the nanoseconds of their sum, and not into
      its ticks. */
  lemma CarryWitness(before: uint64, wcet: uint64, tickHz: uint64) returns (low: TaskTiming, high: TaskTiming)
    requires IsUsableRate(tickHz) && Carries(before, wcet, tickHz)
    ensures IsValidated([low, high]) && IsPair(low, high) && high.wcet == Some(wcet)
    ensures !FailHolds([low, high], 0, tickHz)
  {
    hide ToTicks, IsValidated, TickVerdict, IsSolvable;
    var sum: uint64 := before + wcet;
    low := TaskTiming("low", 1, Some(sum), None, Some(before), 0);
    high := TaskTiming("high", 2, Some(sum), None, Some(wcet), 0);
    PairGathers(low, high, tickHz);
    ToTicksPositive(before, tickHz);
    ToTicksMono(before, sum, tickHz);
    FailsAtOnce(InTicks(low, tickHz), AllInTicks([low, high], tickHz));
    FalseFail(low, high, tickHz);
    FitsExactly(low, high);
    PairIsValidated(low, high);
  }

  lemma FalseFail(low: TaskTiming, high: TaskTiming, tickHz: uint64)
    requires VerdictOf(InTicks(low, tickHz), AllInTicks([low, high], tickHz)).Fail?
    ensures TickVerdict([low, high], 0, tickHz).Fail?
  {
    hide VerdictOf, InTicks, AllInTicks;
  }

  lemma FitsExactly(low: TaskTiming, high: TaskTiming)
    requires IsPair(low, high) && low.deadline == None && 0 < low.wcet.value
    requires high.period == low.period == Some(low.wcet.value + high.wcet.value)
    ensures IsSolvable([low, high], 0)
  {
    hide Gather, Cost;
    PairGathers(low, high, 1);
    var sum: positive := low.period.value;
    var load := Load(sum, high.wcet.value);
    DemandOne(low.wcet.value, load, sum);
    OneActivation(sum, high.wcet.value, sum);
    assert [low, high][0] == low && Gather(low, [low, high]).hp == [load];
    assert Demand(Base(low), Gather(low, [low, high]).hp, sum) == sum;
  }

  /** The first round already exceeds the deadline. */
  lemma FailsAtOnce(task: TaskTiming, all: seq<TaskTiming>)
    requires task.wcet.Some? && task.deadline == None && task.period.Some? && task.blocking == 0
    requires 0 < task.wcet.value <= task.period.value < U64_MAX
    requires Gather(task, all).Loads? && |Gather(task, all).hp| == 1
    requires Gather(task, all).hp[0].period == task.period.value
    requires task.period.value < task.wcet.value + Gather(task, all).hp[0].wcet
    ensures VerdictOf(task, all).Fail?
  {
    hide Gather;
    var base, load := task.wcet.value, Gather(task, all).hp[0];
    assert Gather(task, all).hp == [load];
    DemandOne(base, load, base);
    OneActivation(load.period, load.wcet, base);
    SatDemandIsCapped(base, [load], base);
  }

  /** At every usable rate, exactly the execution times of an interferer that never carry leave a
      `Fail` true in nanoseconds. Nothing else about the task set matters. */
  lemma ExecutionTimeIff(wcet: uint64, tickHz: uint64)
    requires IsUsableRate(tickHz)
    ensures NeverCarries(wcet, tickHz) <==>
            forall all: seq<TaskTiming>, i: nat ::
              IsValidated(all) && i < |all| && HasSafeTimes(all, i, tickHz, wcet) ==> FailHolds(all, i, tickHz)
  {
    hide FailHolds, ToTicks, Carries;
    if NeverCarries(wcet, tickHz) {
      forall all: seq<TaskTiming>, i: nat | IsValidated(all) && i < |all| && HasSafeTimes(all, i, tickHz, wcet)
        ensures FailHolds(all, i, tickHz)
      {
        assert IsValidTiming(all[i]);
        RoundableFailHolds(all, i, tickHz);
      }
    } else {
      var before: uint64 :| Carries(before, wcet, tickHz);
      var low, high := CarryWitness(before, wcet, tickHz);
      assert HasSafeTimes([low, high], 0, tickHz, wcet);
    }
  }

  /** That is: the execution times that convert exactly, as long as a second fits beside them. */
  lemma NeverCarriesIff(wcet: uint64, tickHz: uint64)
    requires IsUsableRate(tickHz) && wcet + NANOS_PER_SECOND <= U64_MAX
    requires ToTicks(wcet + NANOS_PER_SECOND, tickHz) < U64_MAX
    ensures NeverCarries(wcet, tickHz) <==> IsExact(wcet, tickHz)
  {
    hide ToTicks, NeverCarries, Carries;
    if IsExact(wcet, tickHz) {
      ExactNeverCarries(wcet, tickHz);
    } else {
      var before: uint64 := NANOS_PER_SECOND - wcet % NANOS_PER_SECOND;
      UpToTheSecond(wcet, tickHz, before);
      CarriesOnce(before, wcet, tickHz);
    }
  }

  lemma CarriesOnce(before: uint64, wcet: uint64, tickHz: uint64)
    requires Carries(before, wcet, tickHz)
    ensures !NeverCarries(wcet, tickHz)
  {}

  /** Filled up to a whole second, which converts exactly, an inexact execution time carries. */
  lemma UpToTheSecond(wcet: uint64, tickHz: uint64, before: uint64)
    requires IsUsableRate(tickHz) && wcet + NANOS_PER_SECOND <= U64_MAX && !IsExact(wcet, tickHz)
    requires ToTicks(wcet + NANOS_PER_SECOND, tickHz) < U64_MAX
    requires before == NANOS_PER_SECOND - wcet % NANOS_PER_SECOND
    ensures Carries(before, wcet, tickHz)
  {
    hide ToTicks;
    var seconds := wcet / NANOS_PER_SECOND + 1;
    var sum: uint64 := before + wcet;
    assert sum == seconds * NANOS_PER_SECOND;
    ToTicksMono(sum, wcet + NANOS_PER_SECOND, tickHz);
    ToTicksMono(before, sum, tickHz);
    ToTicksMono(wcet, sum, tickHz);
    ToTicksIsExact(sum, tickHz);
    assert sum * tickHz == (seconds * tickHz) * NANOS_PER_SECOND;
    DivCeilUnique(sum * tickHz, NANOS_PER_SECOND, seconds * tickHz);
    TicksCover(before, tickHz);
    TicksCover(wcet, tickHz);
    assert sum * tickHz == before * tickHz + wcet * tickHz;
  }

  /** At a rate that divides a second: whole ticks, without exception but for `u64::MAX`. */
  lemma NeverCarriesInTicks(wcet: uint64, tickHz: uint64)
    requires DividesSecond(tickHz)
    ensures NeverCarries(wcet, tickHz) <==> IsTickAligned(wcet, tickHz) || wcet == U64_MAX
  {
    hide ToTicks, NeverCarries, IsTickAligned;
    AlignedIsExact(wcet, tickHz);
    WholeTicks(wcet, tickHz);
    if IsTickAligned(wcet, tickHz) {
      ExactNeverCarries(wcet, tickHz);
    } else if wcet == U64_MAX {
      EndlessNeverCarries(tickHz);
    } else {
      OneMoreNanosecond(wcet, tickHz);
      CarriesOnce(1, wcet, tickHz);
    }
  }

  lemma EndlessNeverCarries(tickHz: uint64)
    ensures NeverCarries(U64_MAX, tickHz)
  {}

  /** The next nanosecond falls into the same tick. */
  lemma OneMoreNanosecond(wcet: uint64, tickHz: uint64)
    requires DividesSecond(tickHz) && !IsTickAligned(wcet, tickHz) && wcet < U64_MAX
    ensures ToTicks(1, tickHz) == 1 && ToTicks(wcet, tickHz) == ToTicks(1 + wcet, tickHz) < U64_MAX
  {
    hide ToTicks, IsTickAligned;
    var q, tick := ToTicks(wcet, tickHz), TickNanos(tickHz);
    AlignedIsExact(wcet, tickHz);
    WholeTicks(wcet, tickHz);
    WholeTicks(1 + wcet, tickHz);
    WholeTicks(1, tickHz);
    DivCeilUnique(1 + wcet, tick, q);
    DivCeilUnique(1, tick, 1);
    if tick != 1 {
      ProductMono(q, q, 2, tick);
    }
  }
}
