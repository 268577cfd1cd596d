/** What the absence of two findings tells: the one about periods that are not whole ticks, and the
    one about tasks that share a priority level. */
module Warnings {
  import opened Words
  import opened Units
  import opened Ticks
  import opened Manifest
  import opened ReportContents
  import opened ResponseTime
  import opened Scheduler
  import opened ScheduleSoundness
  import opened ScheduleExactness
  import opened TickRounding
  import opened Pipeline
  import opened ValidatedTimings
  import opened Validation

  // ------------------------------------------------------------------ when they are drawn

  /** The report warns of a misaligned period exactly when a usable period is not whole ticks. */
  lemma MisalignedPeriodWarnedIff(m: System, order: seq<uint8>)
    ensures HasCode(Findings(m, order), 9) <==>
            exists t :: t in m.tasks && IsMisaligned(UsablePeriod(t), ParseTickHz(m.tickRate))
  {
    hide Findings, Deserves, ParseTickHz, Nanos, IsMisaligned;
    if d :| d in Findings(m, order) && d.code == 9 {
      ReportIsDeserved(m, order, d);
      CheckOfCode(m, order, d);
      var k: nat :| k < |m.tasks| && DeservesTiming(m.tickRate, m.tasks[k], d);
      MisalignedIff(m.tickRate, m.tasks[k]);
      assert m.tasks[k] in m.tasks;
    }
    forall t | t in m.tasks && IsMisaligned(UsablePeriod(t), ParseTickHz(m.tickRate))
      ensures HasCode(Findings(m, order), 9)
    {
      var k: nat :| k < |m.tasks| && m.tasks[k] == t;
      MisalignedIff(m.tickRate, t);
      TimingIsDeserved(m, order, k, Diagnostic(Warning, 9, t.name));
      ReportIsDeserved(m, order, Diagnostic(Warning, 9, t.name));
    }
  }

  lemma SharingCounts(tasks: seq<Task>, p: uint8)
    ensures Sharing(tasks, p) != [] <==> exists k: nat :: IsSharer(tasks, p, k)
    ensures |Sharing(tasks, p)| > 1 <==>
            exists j: nat, k: nat :: j < k && IsSharer(tasks, p, j) && IsSharer(tasks, p, k)
  {
    hide Sharing, IsSharer;
    var at := SharingIsListed(tasks, p);
    if |at| != 0 {
      assert IsSharer(tasks, p, at[0]);
    }
    if |at| > 1 {
      assert IsSharer(tasks, p, at[0]) && IsSharer(tasks, p, at[1]) && at[0] < at[1];
    }
  }

  /** The report warns of a shared level exactly when two tasks on it both declare a deadline. */
  lemma SharedLevelWarnedIff(m: System, order: seq<uint8>)
    requires IsLevelOrder(m.tasks, order)
    ensures HasCode(Findings(m, order), 5) <==>
            exists j: nat, k: nat :: j < k < |m.tasks| && m.tasks[j].priority == m.tasks[k].priority &&
              m.tasks[j].deadline.Some? && m.tasks[k].deadline.Some?
  {
    hide Findings, Sharing, Join, Deserves;
    if d :| d in Findings(m, order) && d.code == 5 {
      ReportIsDeserved(m, order, d);
      CheckOfCode(m, order, d);
      var p: uint8 :| p in order && DeservesLevel(m.tasks, p, d);
      SharingCounts(m.tasks, p);
    }
    forall j: nat, k: nat | j < k < |m.tasks| && m.tasks[j].priority == m.tasks[k].priority &&
      m.tasks[j].deadline.Some? && m.tasks[k].deadline.Some?
      ensures HasCode(Findings(m, order), 5)
    {
      var p := m.tasks[j].priority;
      assert IsSharer(m.tasks, p, j) && IsSharer(m.tasks, p, k);
      SharingCounts(m.tasks, p);
      LevelIsDeserved(m, order, p);
      ReportIsDeserved(m, order, Diagnostic(Warning, 5, Join(Sharing(m.tasks, p))));
    }
  }

  // ------------------------------------------------------------------ what they are worth

  /** At a rate that divides a second, a report without finding 9 leaves only the deadlines to look
      at: a declared one must be whole ticks or at most one tick, and none so long that it saturates. */
  lemma UnwarnedIsRoundable(m: System, order: seq<uint8>, k: nat)
    requires IsWellFormed(m) && k < |m.tasks| && DividesSecond(TickHz(m)) && !HasCode(Findings(m, order), 9)
    requires var deadline := Nanos(m.tasks[k].deadline);
             deadline.Some? ==> IsTickAligned(deadline.value, TickHz(m)) || ToTicks(deadline.value, TickHz(m)) <= 1
    requires EffectiveDeadline(Analysed(m)[k]) != Some(U64_MAX)
    ensures IsRoundable(AllDeclared(m.tasks), k, TickHz(m))
  {
    hide HasCode, Findings, ParseTickHz, ToTicks, IsWellFormed, Nanos, Gather, IsTickAligned, IsLast, IsExact,
      HasNoRoomForTwo;
    var all, tickHz := AllDeclared(m.tasks), TickHz(m);
    MisalignedPeriodWarnedIff(m, order);
    WholeTicks(0, tickHz);
    forall j: nat | j < |all| && all[j].period.Some?
      ensures IsExact(all[j].period.value, tickHz) && IsLast(all[j].period.value, tickHz)
    {
      UnwarnedIsAligned(m, j);
    }
    WellFormedIsValidated(m);
    assert IsValidTiming(all[k]);
    if all[k].deadline.Some? {
      AlignedIsExact(all[k].deadline.value, tickHz);
      if ToTicks(all[k].deadline.value, tickHz) <= 1 {
        OneTickHasNoRoom(all[k].deadline.value, tickHz);
      }
    }
  }

  lemma UnwarnedIsAligned(m: System, j: nat)
    requires IsWellFormed(m) && j < |m.tasks| && DividesSecond(TickHz(m)) && Nanos(m.tasks[j].period).Some?
    requires forall t :: t in m.tasks ==> !IsMisaligned(UsablePeriod(t), ParseTickHz(m.tickRate))
    ensures var period := Nanos(m.tasks[j].period).value; IsExact(period, TickHz(m)) && IsLast(period, TickHz(m))
  {
    hide ParseTickHz, Parse, IsWellStacked, HoldsOnlyItsChannels, IsWellConnected, ToTicks;
    assert m.tasks[j] in m.tasks && IsWellTimed(m.tasks[j]);
    AlignedIsExact(Nanos(m.tasks[j].period).value, TickHz(m));
  }

  // ------------------------------------------------------------------ a clean report that is wrong

  lemma {:induction false} FoldSilent(n: nat, ds: seq<Diagnostic>, check: (seq<Diagnostic>, nat) -> seq<Diagnostic>)
    requires forall before: seq<Diagnostic>, k: nat :: k < n ==> check(before, k) == before
    ensures Fold(n, ds, check) == ds
  {
    if n != 0 {
      FoldSilent(n - 1, ds, check);
    }
  }

  lemma HalfKiBIsPadded()
    ensures ToPowerOfTwo(512) == Some(512)
  {
    assert Pow2(9) == 512;
    PaddedIff(512);
  }

  /** A task with no deadline, no capabilities, and figures that draw no finding. */
  ghost predicate IsQuiet(task: Task, tickHz: uint64) {
    task.name != "" && 1 <= task.priority <= 31 && task.capabilities == [] && task.deadline == None &&
    IsWellTimed(task) && Parse(Size, task.stack) == Ok(512) &&
    0 < tickHz && !IsMisaligned(UsablePeriod(task), Some(tickHz))
  }

  lemma QuietTask(ds: seq<Diagnostic>, earlier: seq<Task>, task: Task, tickHz: uint64)
    requires IsQuiet(task, tickHz)
    ensures task.name !in TaskNames(earlier) ==> AfterName(ds, earlier, task) == ds
    ensures AfterPriority(ds, task) == ds && AfterTiming(ds, task, Some(tickHz)) == ds && AfterStack(ds, task) == ds
  {
    hide ToPowerOfTwo, IsMisaligned, Parse, TaskNames;
    HalfKiBIsPadded();
  }

  lemma QuietLevels(tasks: seq<Task>, order: seq<uint8>)
    requires (forall t :: t in tasks ==> t.deadline == None) && IsLevelOrder(tasks, order)
    ensures order == []
  {
    if order != [] {
      assert order[0] in order;
      SharingCounts(tasks, order[0]);
    }
  }

  /** A manifest of quiet tasks draws no finding at all. */
  lemma QuietManifest(m: System, order: seq<uint8>)
    requires HaveDistinctNames(m.tasks) && m.channels == [] && ParseTickHz(m.tickRate).Some?
    requires forall t :: t in m.tasks ==> IsQuiet(t, ParseTickHz(m.tickRate).value)
    requires 0 < ParseTickHz(m.tickRate).value && IsLevelOrder(m.tasks, order)
    ensures Findings(m, order) == []
  {
    hide AfterName, AfterPriority, AfterTiming, AfterStack, ParseTickHz, IsLevelOrder, Sharing;
    var tickHz := ParseTickHz(m.tickRate);
    QuietLevels(m.tasks, order);
    forall ds: seq<Diagnostic>, k: nat | k < |m.tasks|
      ensures NameCheck(m.tasks)(ds, k) == ds && PriorityCheck(m.tasks)(ds, k) == ds
      ensures TimingCheck(m.tasks, tickHz)(ds, k) == ds && StackCheck(m.tasks)(ds, k) == ds
      ensures HoldingsCheck(m)(ds, k) == ds
    {
      assert m.tasks[k] in m.tasks;
      QuietTask(ds, m.tasks[..k], m.tasks[k], tickHz.value);
    }
    FoldSilent(|m.tasks|, [], NameCheck(m.tasks));
    FoldSilent(|m.tasks|, [], PriorityCheck(m.tasks));
    FoldSilent(|m.tasks|, [], TimingCheck(m.tasks, tickHz));
    FoldSilent(|m.tasks|, [], StackCheck(m.tasks));
    FoldSilent(|m.tasks|, [], HoldingsCheck(m));
  }

  /** Two tasks on one level that each need every tick of a whole-tick period, with no deadline of
      their own. */
  function Twins(period: uint64, priority: uint8): seq<TaskTiming> {
    [TaskTiming("a", priority, Some(period), None, Some(period), 0),
     TaskTiming("b", priority, Some(period), None, Some(period), 0)]
  }

  lemma TwinsPass(period: uint64, priority: uint8, tickHz: uint64, i: nat)
    requires i < 2 && 0 < tickHz && 0 < period
    ensures TickVerdict(Twins(period, priority), i, tickHz).Pass?
    ensures Gather(Twins(period, priority)[i], Twins(period, priority)) == Loads([])
  {
    hide ToTicks;
    var twins, ticks := Twins(period, priority), AllInTicks(Twins(period, priority), tickHz);
    assert ticks == [InTicks(twins[0], tickHz), InTicks(twins[1], tickHz)];
    NoInterference(twins[i], twins[0], twins[1]);
    NoInterference(InTicks(twins[i], tickHz), InTicks(twins[0], tickHz), InTicks(twins[1], tickHz));
  }

  lemma NoInterference(task: TaskTiming, a: TaskTiming, b: TaskTiming)
    requires !Preempts(a, task) && !Preempts(b, task)
    ensures Gather(task, [a, b]) == Loads([])
  {
    assert [a, b][..1] == [a] && [a][..0] == [];
    assert Gather(task, [a]) == Loads([]);
  }

  /** Without a single finding, whatever the order of the levels, the tool reports `PASS` for both
      twins, and a run misses the deadline of the first. */
  lemma SilentFalsePass(period: uint64, priority: uint8, tickHz: uint64, order: seq<uint8>) returns (run: Run)
    requires DividesSecond(tickHz) && IsTickAligned(period, tickHz) && 0 < period && 1 <= priority <= 31
    requires IsLevelOrder(ManifestOf(Twins(period, priority), tickHz).tasks, order)
    ensures var m := ManifestOf(Twins(period, priority), tickHz);
            IsWellFormed(m) && Findings(m, order) == [] && |m.tasks| == 2 &&
            VerdictAt(m, 0).Pass? && VerdictAt(m, 1).Pass? &&
            IsRun(AllDeclared(m.tasks), run) && !RespondsWithin(run, 0, period)
  {
    hide VerdictOf, IsLevelOrder, Findings, IsRun, RespondsWithin, ParseTickHz, IsTickAligned, IsWellFormed, Declare,
      Declared, Gather;
    var twins := Twins(period, priority);
    var m := ManifestOf(twins, tickHz);
    assert IsValidated(twins);
    ManifestExists(twins, tickHz);
    ManifestReports(twins, 0, tickHz);
    ManifestReports(twins, 1, tickHz);
    TwinsPass(period, priority, tickHz, 0);
    TwinsPass(period, priority, tickHz, 1);
    TwinsAreQuiet(period, priority, tickHz);
    QuietManifest(m, order);
    TwinsCollide(twins);
    run := UncountedBreaksWindow(twins, 0, 1, period);
  }

  lemma TwinsCollide(twins: seq<TaskTiming>)
    requires |twins| == 2 && twins[0].priority == twins[1].priority && twins[1].wcet != Some(0)
    ensures IsUncounted(twins, 0, 1)
  {}

  lemma TwinsAreQuiet(period: uint64, priority: uint8, tickHz: uint64)
    requires 0 < tickHz && IsTickAligned(period, tickHz) && 0 < period && 1 <= priority <= 31
    ensures var m := ManifestOf(Twins(period, priority), tickHz);
            ParseTickHz(m.tickRate) == Some(tickHz) && HaveDistinctNames(m.tasks) && m.channels == [] &&
            forall t :: t in m.tasks ==> IsQuiet(t, tickHz)
  {
    hide Parse, Print, ParseTickHz, IsTickAligned;
    var twins := Twins(period, priority);
    RateReads(tickHz);
    StackReads();
    DeclareReads(twins[0]);
    DeclareReads(twins[1]);
  }
}
