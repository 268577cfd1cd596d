/** A passing report is true exactly when no two tasks share a level: for the deadlines it promises
    and for the utilisation it prints. Names and levels are given; everything else may vary. */
module LevelExactness {
  import opened Words
  import opened Recurrence
  import opened ResponseTime
  import opened Scheduler
  import opened ScheduleSoundness
  import opened ScheduleExactness
  import opened Ticks
  import opened TickRounding
  import opened Manifest
  import opened Pipeline
  import opened ValidatedTimings
  import opened AnalysisLaws

  /** The tasks have these names and levels. */
  ghost predicate HasProfile(tasks: seq<TaskTiming>, names: seq<string>, levels: seq<uint8>) {
    |tasks| == |names| == |levels| &&
    forall k: nat :: k < |tasks| ==> tasks[k].name == names[k] && tasks[k].priority == levels[k]
  }

  /** Names and levels that a manifest can declare. */
  ghost predicate IsProfile(names: seq<string>, levels: seq<uint8>) {
    |names| == |levels| && AreDistinct(names) &&
    forall k: nat :: k < |names| ==> names[k] != "" && 1 <= levels[k] <= 31
  }

  ghost predicate AreDistinct<T>(s: seq<T>) {
    forall j: nat, k: nat :: j < k < |s| ==> s[j] != s[k]
  }

  /** Every task meets its effective deadline in every run. */
  ghost predicate MeetsDeadlines(all: seq<TaskTiming>) {
    forall run: Run, i: nat :: IsRun(all, run) && i < |all| ==> IsMet(all, run, i)
  }

  ghost predicate IsMet(all: seq<TaskTiming>, run: Run, i: nat)
    requires i < |all|
  {
    EffectiveDeadline(all[i]).Some? && RespondsWithin(run, i, EffectiveDeadline(all[i]).value)
  }

  /** Every task passes on ticks and is rounded safely. */
  ghost predicate PassesAll(all: seq<TaskTiming>, tickHz: uint64) {
    forall i: nat :: i < |all| ==> IsRoundable(all, i, tickHz) && TickVerdict(all, i, tickHz).Pass?
  }

  // ------------------------------------------------------------------ distinct levels suffice

  lemma DistinctCountAll(all: seq<TaskTiming>, names: seq<string>, levels: seq<uint8>, i: nat)
    requires HasProfile(all, names, levels) && AreDistinct(names) && AreDistinct(levels) && i < |all|
    ensures CountsEveryRival(all, i)
  {
    forall k: nat | k < |all| && k != i
      ensures all[k].name != all[i].name && all[k].priority != all[i].priority
    {
      assert names[k] != names[i] && levels[k] != levels[i];
    }
  }

  lemma DistinctMeetDeadlines(all: seq<TaskTiming>, names: seq<string>, levels: seq<uint8>, tickHz: uint64)
    requires HasProfile(all, names, levels) && AreDistinct(names) && AreDistinct(levels)
    requires IsValidated(all) && PassesAll(all, tickHz)
    ensures MeetsDeadlines(all)
  {
    hide IsRun, RespondsWithin, IsRoundable, TickVerdict, CountsEveryRival, HasProfile, AreDistinct;
    forall run: Run, i: nat | IsRun(all, run) && i < |all|
      ensures IsMet(all, run, i)
    {
      DistinctCountAll(all, names, levels, i);
      var w := TickPassSuffices(all, i, tickHz);
      assert IsValidTiming(all[i]);
      TickPassIsSoundInNanos(all, i, tickHz, run);
    }
  }

  lemma DistinctFitTheCpu(tasks: seq<TaskTiming>, names: seq<string>, levels: seq<uint8>)
    requires HasProfile(tasks, names, levels) && AreDistinct(names) && AreDistinct(levels)
    requires forall t :: t in tasks ==> PassesSoundly(t, tasks)
    ensures Utilisation(tasks) <= 1_000_000
  {
    hide PassesSoundly, Utilisation;
    forall j: nat, k: nat | j < k < |tasks|
      ensures tasks[j].name != tasks[k].name && tasks[j].priority != tasks[k].priority
    {
      assert names[j] != names[k] && levels[j] != levels[k];
    }
    SchedulableFitsTheCpu(tasks);
  }

  // ------------------------------------------------------------------ two sharers that need every tick

  function Sharer(name: string, level: uint8, unit: uint64, busy: bool): TaskTiming {
    TaskTiming(name, level, Some(unit), None, Some(if busy then unit else 0), 0)
  }

  /** Tasks `j` and `k` execute all the time, the others never. */
  function Sharers(names: seq<string>, levels: seq<uint8>, j: nat, k: nat, unit: uint64): (tasks: seq<TaskTiming>)
    requires |names| == |levels|
    ensures |tasks| == |names|
  {
    seq(|names|, m requires 0 <= m < |names| => Sharer(names[m], levels[m], unit, m == j || m == k))
  }

  lemma {:induction false} GatherIdle(task: TaskTiming, all: seq<TaskTiming>)
    requires forall t :: t in all ==> t.period.Some? && 0 < t.period.value && t.wcet.Some?
    requires forall t :: t in all && Preempts(t, task) ==> t.wcet == Some(0)
    ensures Gather(task, all).Loads? && forall load :: load in Gather(task, all).hp ==> load.wcet == 0
  {
    if all != [] {
      var n := |all| - 1;
      assert all[n] in all && forall t :: t in all[..n] ==> t in all;
      GatherIdle(task, all[..n]);
    }
  }

  lemma {:induction false} GatherBounded(task: TaskTiming, all: seq<TaskTiming>)
    requires forall t :: t in all ==> t.period.Some? && 0 < t.period.value && t.wcet.Some?
    ensures Gather(task, all).Loads?
  {
    if all != [] {
      var n := |all| - 1;
      assert all[n] in all && forall t :: t in all[..n] ==> t in all;
      GatherBounded(task, all[..n]);
    }
  }

  lemma {:induction false} IdleDemand(base: nat, hp: seq<Load>, w: nat)
    requires forall load :: load in hp ==> load.wcet == 0
    ensures Demand(base, hp, w) == base
  {
    if hp != [] {
      assert hp[|hp| - 1] in hp && forall load :: load in hp[..|hp| - 1] ==> load in hp;
      IdleDemand(base, hp[..|hp| - 1], w);
    }
  }

  /** The first round already settles, because nothing is added to the base. */
  lemma SettlesAtBase(task: TaskTiming, all: seq<TaskTiming>)
    requires IsAnalysable(task, all) && task.blocking == 0 && task.wcet.value <= EffectiveDeadline(task).value
    requires Demand(task.wcet.value, Gather(task, all).hp, task.wcet.value) == task.wcet.value
    ensures VerdictOf(task, all).Pass?
  {
    hide Gather;
    SatDemandIsCapped(task.wcet.value, Gather(task, all).hp, task.wcet.value);
  }

  lemma SharersPreempt(names: seq<string>, levels: seq<uint8>, j: nat, k: nat, unit: uint64, m: nat)
    requires |names| == |levels| && j < k < |names| && levels[j] == levels[k] && 0 < unit && m < |names|
    ensures var s := Sharers(names, levels, j, k, unit);
            (forall t :: t in s ==> t.period.Some? && 0 < t.period.value && t.wcet.Some?) &&
            (m == j || m == k ==> forall t :: t in s && Preempts(t, s[m]) ==> t.wcet == Some(0))
  {}

  /** Everyone passes: the idle at once, and the two because they are not counted for each other. */
  lemma SharersPass(names: seq<string>, levels: seq<uint8>, j: nat, k: nat, unit: uint64, m: nat)
    requires |names| == |levels| && j < k < |names| && levels[j] == levels[k] && 0 < unit && m < |names|
    ensures var s := Sharers(names, levels, j, k, unit); IsAnalysable(s[m], s) && VerdictOf(s[m], s).Pass?
    ensures m == j || m == k ==>
              var s := Sharers(names, levels, j, k, unit); forall w: nat :: Demand(unit, Gather(s[m], s).hp, w) == unit
  {
    hide Gather, VerdictOf, Demand;
    var s := Sharers(names, levels, j, k, unit);
    SharersPreempt(names, levels, j, k, unit, m);
    if m == j || m == k {
      GatherIdle(s[m], s);
      forall w: nat
        ensures Demand(unit, Gather(s[m], s).hp, w) == unit
      {
        IdleDemand(unit, Gather(s[m], s).hp, w);
      }
    } else {
      GatherBounded(s[m], s);
      DemandAtZero(0, Gather(s[m], s).hp);
    }
    SettlesAtBase(s[m], s);
  }

  lemma SharersHaveProfile(names: seq<string>, levels: seq<uint8>, j: nat, k: nat, unit: uint64)
    requires |names| == |levels|
    ensures HasProfile(Sharers(names, levels, j, k, unit), names, levels)
  {}

  // ------------------------------------------------------------------ what a shared level breaks

  /** One second converts exactly at every rate. */
  lemma OneSecond(tickHz: uint64)
    requires IsUsableRate(tickHz)
    ensures ToTicks(NANOS_PER_SECOND, tickHz) == tickHz && ToTicks(0, tickHz) == 0
    ensures IsExact(NANOS_PER_SECOND, tickHz) && IsLast(NANOS_PER_SECOND, tickHz)
  {}

  lemma SharersInTicks(names: seq<string>, levels: seq<uint8>, j: nat, k: nat, tickHz: uint64)
    requires |names| == |levels| && IsUsableRate(tickHz)
    ensures AllInTicks(Sharers(names, levels, j, k, NANOS_PER_SECOND), tickHz) == Sharers(names, levels, j, k, tickHz)
  {
    hide ToTicks;
    OneSecond(tickHz);
  }

  lemma SharersRound(names: seq<string>, levels: seq<uint8>, j: nat, k: nat, tickHz: uint64)
    requires |names| == |levels| && j < k < |names| && levels[j] == levels[k] && IsUsableRate(tickHz)
    ensures PassesAll(Sharers(names, levels, j, k, NANOS_PER_SECOND), tickHz)
  {
    hide ToTicks, IsExact, IsLast, VerdictOf, Gather;
    var s := Sharers(names, levels, j, k, NANOS_PER_SECOND);
    OneSecond(tickHz);
    SharersInTicks(names, levels, j, k, tickHz);
    forall m: nat | m < |s|
      ensures IsRoundable(s, m, tickHz) && TickVerdict(s, m, tickHz).Pass?
    {
      SharersPass(names, levels, j, k, tickHz, m);
    }
  }

  lemma SharersAreValidated(names: seq<string>, levels: seq<uint8>, j: nat, k: nat)
    requires IsProfile(names, levels)
    ensures IsValidated(Sharers(names, levels, j, k, NANOS_PER_SECOND))
  {}

  /** The other sharer is not counted, so some run misses the deadline of the first. */
  lemma SharersMiss(names: seq<string>, levels: seq<uint8>, j: nat, k: nat, unit: uint64)
    requires |names| == |levels| && j < k < |names| && levels[j] == levels[k] && 0 < unit
    ensures !MeetsDeadlines(Sharers(names, levels, j, k, unit))
  {
    hide IsRun, RespondsWithin, Gather, VerdictOf, Demand;
    var s := Sharers(names, levels, j, k, unit);
    SharersPass(names, levels, j, k, unit, j);
    assert IsLowerBound(unit, Gather(s[j], s).hp, unit);
    var run := UncountedBreaksWindow(s, j, k, unit);
    assert !IsMet(s, run, j);
  }

  lemma ATickAll(unit: uint64)
    requires 0 < unit && unit * 1_000_000 <= U64_MAX
    ensures SatMul(unit, 1_000_000) / unit == 1_000_000 && SatMul(0, 1_000_000) / unit == 0
  {
    DivModUnique(unit * 1_000_000, unit, 1_000_000, 0);
  }

  /** The first `n` of them are reported to use a whole CPU for each sharer among them. */
  lemma {:induction false} SharersUse(names: seq<string>, levels: seq<uint8>, j: nat, k: nat, unit: uint64, n: nat)
    requires |names| == |levels| && j < k && n <= |names| && 0 < unit && unit * 1_000_000 <= U64_MAX
    ensures Utilisation(Sharers(names, levels, j, k, unit)[..n])
         == (if j < n then 1_000_000 else 0) + if k < n then 1_000_000 else 0
  {
    var s := Sharers(names, levels, j, k, unit);
    if n != 0 {
      SharersUse(names, levels, j, k, unit, n - 1);
      ATickAll(unit);
      assert s[..n][..n - 1] == s[..n - 1] && s[..n][n - 1] == s[n - 1];
    }
  }

  lemma SharersOverload(names: seq<string>, levels: seq<uint8>, j: nat, k: nat, unit: uint64)
    requires |names| == |levels| && j < k < |names| && 0 < unit && unit * 1_000_000 <= U64_MAX
    ensures Utilisation(Sharers(names, levels, j, k, unit)) == 2_000_000
  {
    var s := Sharers(names, levels, j, k, unit);
    SharersUse(names, levels, j, k, unit, |s|);
    assert s[..|s|] == s;
  }

  lemma FindSharers(levels: seq<uint8>) returns (j: nat, k: nat)
    requires !AreDistinct(levels)
    ensures j < k < |levels| && levels[j] == levels[k]
  {
    j, k :| j < k < |levels| && levels[j] == levels[k];
  }

  // ------------------------------------------------------------------ the exact conditions

  /** Deadlines: no two tasks share a level if and only if, whatever the timing, passing on ticks
      means that every run in nanoseconds meets every deadline. */
  lemma DeadlinesMetIff(names: seq<string>, levels: seq<uint8>, tickHz: uint64)
    requires IsProfile(names, levels) && IsUsableRate(tickHz)
    ensures AreDistinct(levels) <==>
            forall all: seq<TaskTiming> ::
              IsValidated(all) && HasProfile(all, names, levels) && PassesAll(all, tickHz) ==> MeetsDeadlines(all)
  {
    hide IsValidated, HasProfile, PassesAll, MeetsDeadlines;
    if AreDistinct(levels) {
      forall all: seq<TaskTiming> | IsValidated(all) && HasProfile(all, names, levels) && PassesAll(all, tickHz)
        ensures MeetsDeadlines(all)
      {
        DistinctMeetDeadlines(all, names, levels, tickHz);
      }
    } else {
      var j, k := FindSharers(levels);
      SharersAreValidated(names, levels, j, k);
      SharersHaveProfile(names, levels, j, k, NANOS_PER_SECOND);
      SharersRound(names, levels, j, k, tickHz);
      SharersMiss(names, levels, j, k, NANOS_PER_SECOND);
    }
  }

  /** Utilisation: no two tasks share a level if and only if a schedulable set never uses more than
      the whole CPU. */
  lemma UtilisationFitsIff(names: seq<string>, levels: seq<uint8>)
    requires |names| == |levels| && AreDistinct(names)
    ensures AreDistinct(levels) <==>
            forall tasks: seq<TaskTiming> ::
              HasProfile(tasks, names, levels) && (forall t :: t in tasks ==> PassesSoundly(t, tasks)) ==>
                Utilisation(tasks) <= 1_000_000
  {
    hide HasProfile, Utilisation, PassesSoundly;
    if AreDistinct(levels) {
      forall tasks: seq<TaskTiming> |
        HasProfile(tasks, names, levels) && (forall t :: t in tasks ==> PassesSoundly(t, tasks))
        ensures Utilisation(tasks) <= 1_000_000
      {
        DistinctFitTheCpu(tasks, names, levels);
      }
    } else {
      var j, k := FindSharers(levels);
      SharersHaveProfile(names, levels, j, k, 1);
      SharersPassSoundly(names, levels, j, k);
      SharersOverload(names, levels, j, k, 1);
    }
  }

  lemma SharersPassSoundly(names: seq<string>, levels: seq<uint8>, j: nat, k: nat)
    requires |names| == |levels| && j < k < |names| && levels[j] == levels[k]
    ensures var s := Sharers(names, levels, j, k, 1); forall t :: t in s ==> PassesSoundly(t, s)
  {
    hide VerdictOf, Gather;
    var s := Sharers(names, levels, j, k, 1);
    forall t | t in s
      ensures PassesSoundly(t, s)
    {
      var m: nat :| m < |s| && s[m] == t;
      SharersPass(names, levels, j, k, 1, m);
    }
  }

  /** What the tool prints for a manifest: `PASS` for every task. */
  ghost predicate IsReportedPass(m: System) {
    forall k: nat :: k < |m.tasks| ==> VerdictAt(m, k).Pass? && IsRoundable(AllDeclared(m.tasks), k, TickHz(m))
  }

  /** What that claims of the system declared. */
  ghost predicate IsReportTrue(m: System) {
    MeetsDeadlines(AllDeclared(m.tasks)) && Utilisation(Analysed(m)) <= 1_000_000
  }

  /** A passing report: no two tasks share a level if and only if, for every manifest with these names
      and levels that validates, rounds safely and is reported `PASS`, the report is true. */
  lemma PassingReportIsTrueIff(names: seq<string>, levels: seq<uint8>, tickHz: uint64)
    requires IsProfile(names, levels) && IsUsableRate(tickHz)
    ensures AreDistinct(levels) <==>
            forall m: System ::
              IsWellFormed(m) && TickHz(m) == tickHz && HasProfile(AllDeclared(m.tasks), names, levels) &&
              IsReportedPass(m) ==>
                IsReportTrue(m)
  {
    hide IsWellFormed, HasProfile, IsReportedPass, IsReportTrue, TickHz;
    if AreDistinct(levels) {
      forall m: System |
        IsWellFormed(m) && HasProfile(AllDeclared(m.tasks), names, levels) && IsReportedPass(m)
        ensures IsReportTrue(m)
      {
        DistinctReportIsTrue(m, names, levels);
      }
    } else {
      var j, k := FindSharers(levels);
      var m := SharersManifest(names, levels, tickHz, j, k);
    }
  }

  lemma DistinctReportIsTrue(m: System, names: seq<string>, levels: seq<uint8>)
    requires IsWellFormed(m) && HasProfile(AllDeclared(m.tasks), names, levels) && IsReportedPass(m)
    requires AreDistinct(names) && AreDistinct(levels)
    ensures IsReportTrue(m)
  {
    hide VerdictOf, IsRoundable, IsValidated, MeetsDeadlines, Utilisation, AreDistinct, IsWellFormed, TickHz, InTicks;
    var all, tasks := AllDeclared(m.tasks), Analysed(m);
    WellFormedIsValidated(m);
    forall i: nat | i < |all|
      ensures IsRoundable(all, i, TickHz(m)) && TickVerdict(all, i, TickHz(m)).Pass?
    {
      assert VerdictAt(m, i).Pass?;
    }
    DistinctMeetDeadlines(all, names, levels, TickHz(m));
    InTicksKeepProfile(all, names, levels, TickHz(m));
    forall t | t in tasks
      ensures PassesSoundly(t, tasks)
    {
      var k: nat :| k < |tasks| && tasks[k] == t;
      PassesSoundlyOnTicks(m, k);
    }
    DistinctFitTheCpu(tasks, names, levels);
  }

  lemma InTicksKeepProfile(all: seq<TaskTiming>, names: seq<string>, levels: seq<uint8>, tickHz: uint64)
    requires HasProfile(all, names, levels)
    ensures HasProfile(AllInTicks(all, tickHz), names, levels)
  {
    hide ToTicks;
  }

  lemma SharersManifest(names: seq<string>, levels: seq<uint8>, tickHz: uint64, j: nat, k: nat) returns (m: System)
    requires IsProfile(names, levels) && IsUsableRate(tickHz) && j < k < |names| && levels[j] == levels[k]
    ensures IsWellFormed(m) && TickHz(m) == tickHz && HasProfile(AllDeclared(m.tasks), names, levels)
    ensures IsReportedPass(m) && !IsReportTrue(m)
  {
    hide IsWellFormed, HasProfile, IsValidated, MeetsDeadlines, TickHz, IsRoundable, VerdictOf, Declare, Declared;
    var s := Sharers(names, levels, j, k, NANOS_PER_SECOND);
    SharersAreValidated(names, levels, j, k);
    SharersHaveProfile(names, levels, j, k, NANOS_PER_SECOND);
    SharersRound(names, levels, j, k, tickHz);
    SharersMiss(names, levels, j, k, NANOS_PER_SECOND);
    m := ManifestOf(s, tickHz);
    ManifestExists(s, tickHz);
    forall i: nat | i < |m.tasks|
      ensures VerdictAt(m, i).Pass?
    {
      ManifestReports(s, i, tickHz);
    }
  }
}
