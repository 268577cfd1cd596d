/** `cargo malleus analyze`: validate, convert to ticks, analyse. Validation establishes what the
    analysis assumes, and a passing report holds of the system as declared in nanoseconds. */
module Pipeline {
  import opened Words
  import opened Units
  import opened Ticks
  import opened Manifest
  import opened ResponseTime
  import opened Scheduler
  import opened ScheduleSoundness
  import opened TickRounding
  import opened Recurrence
  import AnalysisLaws
  import Validation

  // ------------------------------------------------------------------ the tool

  /** The tool reads the rate with an unchecked product; overflow aborts it. */
  datatype Rate = Rate(hz: uint64) | BadRate | RateOverflows

  /** The tool's own `parse_tick_hz` reads every text as the validator's does, and aborts only on
      texts the validator rejects. */
  function CliTickHz(text: string): (r: Rate)
    ensures forall hz: uint64 :: r == Rate(hz) <==> ParseTickHz(text) == Some(hz)
  {
    var trimmed := Trim(text);
    var split := DigitRun(trimmed);
    if split == |trimmed| || split == 0 then BadRate
    else
      match ParseDigits(trimmed[..split])
      case None => BadRate
      case Some(value) =>
        var unit := Trim(trimmed[split..]);
        var product :=
          if unit == "Hz" then value
          else if unit == "kHz" then value * 1_000
          else if unit == "MHz" then value * 1_000_000
          else U64_MAX + 1;
        if unit != "Hz" && unit != "kHz" && unit != "MHz" then BadRate
        else if product <= U64_MAX then Rate(product)
        else RateOverflows
  }

  /** A rate with blanks around its parts, read by the tool: the unit's multiple of the number, an
      abort where that multiple alone exceeds 64 bits, and no rate otherwise. */
  lemma CliRateUnits(p: Spelling)
    requires p.IsShaped()
    ensures var n := Denoted(p.digits);
            CliTickHz(p.Text()) ==
            if U64_MAX < n then BadRate
            else if p.unit == "Hz" then Rate(n)
            else if p.unit == "kHz" then if n * 1_000 <= U64_MAX then Rate(n * 1_000) else RateOverflows
            else if p.unit == "MHz" then if n * 1_000_000 <= U64_MAX then Rate(n * 1_000_000) else RateOverflows
            else BadRate
  {
    hide Denoted, ParseDigits, Trim, DigitRun;
    SplitSpelling(p);
    ParseDigitsChecksOnce(p.digits);
  }

  function CliTicks(text: Option<string>, tickHz: uint64): Result<Option<uint64>> {
    match text
    case None => Ok(None)
    case Some(t) =>
      match Parse(Time, t)
      case Err(error) => Err(error)
      case Ok(nanos) => Ok(Some(ToTicks(nanos, tickHz)))
  }

  /** The system as declared: nanoseconds, and no blocking term yet. */
  function Declared(task: Task): TaskTiming {
    TaskTiming(task.name, task.priority, Nanos(task.period), Nanos(task.deadline), Nanos(task.wcet), 0)
  }

  function AllDeclared(tasks: seq<Task>): seq<TaskTiming> {
    seq(|tasks|, k requires 0 <= k < |tasks| => Declared(tasks[k]))
  }

  predicate HasReadableTimes(task: Task) {
    IsReadable(task.period) && IsReadable(task.deadline) && IsReadable(task.wcet)
  }

  /** The error is that of the task's first text that cannot be read. */
  predicate IsFirstError(task: Task, error: ParseUnitError) {
    var text :=
      if !IsReadable(task.period) then task.period
      else if !IsReadable(task.deadline) then task.deadline
      else task.wcet;
    text.Some? && Parse(Time, text.value) == Err(error)
  }

  method TimingOf(task: Task, tickHz: uint64) returns (timing: Result<TaskTiming>)
    ensures timing.Ok? <==> HasReadableTimes(task)
    ensures timing.Ok? ==> timing.value == InTicks(Declared(task), tickHz)
    ensures timing.Err? ==> IsFirstError(task, timing.error)
  {
    var period := CliTicks(task.period, tickHz);
    if period.Err? {
      return Err(period.error);
    }
    var deadline := CliTicks(task.deadline, tickHz);
    if deadline.Err? {
      return Err(deadline.error);
    }
    var wcet := CliTicks(task.wcet, tickHz);
    if wcet.Err? {
      return Err(wcet.error);
    }
    return Ok(TaskTiming(task.name, task.priority, period.value, deadline.value, wcet.value, 0));
  }

  method Timings(tasks: seq<Task>, tickHz: uint64) returns (timings: Result<seq<TaskTiming>>)
    ensures timings.Ok? <==> forall t :: t in tasks ==> HasReadableTimes(t)
    ensures timings.Ok? ==> timings.value == AllInTicks(AllDeclared(tasks), tickHz)
    ensures timings.Err? ==>
              exists k: nat :: k < |tasks| && (forall t :: t in tasks[..k] ==> HasReadableTimes(t)) &&
                               IsFirstError(tasks[k], timings.error)
  {
    hide HasReadableTimes, InTicks, Declared, IsFirstError;
    var pushed: seq<TaskTiming> := [];
    for k := 0 to |tasks|
      invariant forall t :: t in tasks[..k] ==> HasReadableTimes(t)
      invariant |pushed| == k && forall j :: 0 <= j < k ==> pushed[j] == InTicks(Declared(tasks[j]), tickHz)
    {
      var timing := TimingOf(tasks[k], tickHz);
      if timing.Err? {
        return Err(timing.error);
      }
      pushed := pushed + [timing.value];
    }
    assert pushed == AllInTicks(AllDeclared(tasks), tickHz);
    return Ok(pushed);
  }

  /** How a run of the tool ends: killed by an arithmetic overflow, refusing the manifest, failing
      on a value it cannot read, or with a report. */
  datatype Outcome = Aborted | Rejected | Unreadable | Reported(analysis: Analysis)

  /** The rate of a well-formed manifest. */
  function TickHz(m: System): uint64 {
    if ParseTickHz(m.tickRate).Some? then ParseTickHz(m.tickRate).value else 0
  }

  /** What is analysed. */
  function Analysed(m: System): seq<TaskTiming> {
    AllInTicks(AllDeclared(m.tasks), TickHz(m))
  }

  lemma WellFormedIsReadable(m: System)
    requires IsWellFormed(m)
    ensures CliTickHz(m.tickRate) == Rate(TickHz(m)) && forall t :: t in m.tasks ==> HasReadableTimes(t)
  {}

  /** The tool reports exactly on well-formed manifests, and there the report is the analysis of
      the converted tasks; the readings after validation never fail. */
  method Run(m: System) returns (outcome: Outcome)
    ensures outcome.Aborted? <==> AnyStackAborts(m.tasks, |m.tasks|)
    ensures outcome.Reported? <==> IsWellFormed(m)
    ensures outcome != Unreadable
    ensures outcome.Reported? ==>
              var analysis, tasks := outcome.analysis, Analysed(m);
              analysis.utilisationPpm == Utilisation(tasks) && |analysis.verdicts| == |tasks| &&
              (forall k :: 0 <= k < |tasks| ==> analysis.verdicts[k] == (tasks[k].name, VerdictOf(tasks[k], tasks))) &&
              (analysis.IsSchedulable() <==> forall task :: task in tasks ==> VerdictOf(task, tasks).Pass?)
  {
    hide IsWellFormed, CliTickHz, HasReadableTimes, VerdictOf, Utilisation, AllInTicks, AnyStackAborts;
    var report, aborted, order := Validation.Validate(m);
    if aborted {
      return Aborted;
    }
    if ErrorCount(report.diagnostics) > 0 {
      return Rejected;
    }
    WellFormedIsReadable(m);
    var rate := CliTickHz(m.tickRate);
    if rate.RateOverflows? {
      return Aborted;
    }
    if rate.BadRate? {
      return Unreadable;
    }
    var timings := Timings(m.tasks, rate.hz);
    if timings.Err? {
      return Unreadable;
    }
    var analysis := Analyse(timings.value);
    return Reported(analysis);
  }

  // ------------------------------------------------------------------ what validation establishes

  lemma TicksKeepOrder(a: Option<uint64>, b: Option<uint64>, tickHz: uint64)
    requires a.Some? && b.Some? ==> a.value <= b.value
    ensures MapTicks(a, tickHz).Some? && MapTicks(b, tickHz).Some? ==>
              MapTicks(a, tickHz).value <= MapTicks(b, tickHz).value
  {
    if a.Some? && b.Some? {
      ToTicksMono(a.value, b.value, tickHz);
    }
  }

  /** The order the analysis relies on survives every rounding and saturation. */
  lemma ValidationDischarges(m: System, k: nat)
    requires IsWellFormed(m) && k < |m.tasks|
    ensures var t := Analysed(m)[k];
            0 < TickHz(m) && 1 <= t.priority <= 31 && t.blocking == 0 &&
            (t.period.Some? ==> 1 <= t.period.value) &&
            (t.period.Some? && t.deadline.Some? ==> t.deadline.value <= t.period.value) &&
            (t.wcet.Some? && t.deadline.Some? ==> t.wcet.value <= t.deadline.value) &&
            forall j: nat :: j < |m.tasks| && j != k ==> Analysed(m)[j].name != t.name
  {
    hide Parse, ToTicks, ParseTickHz, IsWellStacked, HoldsOnlyItsChannels, IsWellConnected, Multiplier;
    var task := m.tasks[k];
    assert task in m.tasks && IsWellTimed(task);
    TicksKeepOrder(Nanos(task.deadline), Nanos(task.period), TickHz(m));
    TicksKeepOrder(Nanos(task.wcet), Nanos(task.deadline), TickHz(m));
    if task.period.Some? {
      ToTicksPositive(Nanos(task.period).value, TickHz(m));
    }
  }

  lemma {:induction false} NoZeroPeriods(task: TaskTiming, all: seq<TaskTiming>)
    requires forall t :: t in all ==> t.period != Some(0)
    ensures Gather(task, all) != Blocked(ZeroPeriodAbove)
  {
    if all != [] {
      NoZeroPeriods(task, all[..|all| - 1]);
      assert all[|all| - 1] in all;
    }
  }

  /** So the analyser's guard against a zero period above never fires on a validated manifest. */
  lemma ZeroPeriodIsNeverReported(m: System, k: nat)
    requires IsWellFormed(m) && k < |m.tasks|
    ensures VerdictOf(Analysed(m)[k], Analysed(m)) != Unknown(ZeroPeriodAbove)
  {
    var tasks := Analysed(m);
    forall t | t in tasks
      ensures t.period != Some(0)
    {
      var j: nat :| j < |tasks| && tasks[j] == t;
      ValidationDischarges(m, j);
    }
    NoZeroPeriods(tasks[k], tasks);
    if Gather(tasks[k], tasks).Loads? && tasks[k].wcet.Some? && EffectiveDeadline(tasks[k]).Some? {
      var base := SatAdd(tasks[k].wcet.value, tasks[k].blocking);
      OnlyNotConverged(base, Gather(tasks[k], tasks).hp, EffectiveDeadline(tasks[k]).value, base, MAX_ITERATIONS);
    }
  }

  // ------------------------------------------------------------------ end to end

  /** No two tasks share a level. Validation does not ask for this. */
  ghost predicate HaveDistinctLevels(tasks: seq<Task>) {
    forall j, k :: 0 <= j < k < |tasks| ==> tasks[j].priority != tasks[k].priority
  }

  lemma DistinctLevelsCountAll(m: System, k: nat)
    requires IsWellFormed(m) && HaveDistinctLevels(m.tasks) && k < |m.tasks|
    ensures CountsEveryRival(AllDeclared(m.tasks), k)
  {
    var all := AllDeclared(m.tasks);
    forall j: nat | j < |all| && j != k
      ensures all[j].name != all[k].name && all[j].priority != all[k].priority
    {
      assert m.tasks[j].name != m.tasks[k].name && m.tasks[j].priority != m.tasks[k].priority;
    }
  }

  lemma DeadlineWithinPeriod(m: System, k: nat)
    requires IsWellFormed(m) && k < |m.tasks| && Nanos(m.tasks[k].period).Some?
    ensures var task := Declared(m.tasks[k]);
            task.period.Some? && EffectiveDeadline(task).Some? &&
            EffectiveDeadline(task).value <= task.period.value
  {
    hide Parse, ParseTickHz, IsWellStacked, HoldsOnlyItsChannels, IsWellConnected;
    assert m.tasks[k] in m.tasks;
  }

  /** What the report says about task `k`. */
  function VerdictAt(m: System, k: nat): Verdict
    requires k < |m.tasks|
  {
    VerdictOf(Analysed(m)[k], Analysed(m))
  }

  /** A reported `Pass` holds of the system declared: in every run stepped in nanoseconds each job
      of that task meets its deadline. */
  lemma ReportedPassHolds(m: System, k: nat, run: Run)
    requires IsWellFormed(m) && k < |m.tasks| && CountsEveryRival(AllDeclared(m.tasks), k)
    requires IsRoundable(AllDeclared(m.tasks), k, TickHz(m))
    requires VerdictAt(m, k).Pass? && IsRun(AllDeclared(m.tasks), run)
    ensures EffectiveDeadline(AllDeclared(m.tasks)[k]).Some?
    ensures RespondsWithin(run, k, EffectiveDeadline(AllDeclared(m.tasks)[k]).value)
  {
    hide IsRun, CountsEveryRival, VerdictOf, RespondsWithin, IsRoundable, Gather, IsWellFormed, Nanos,
      TickHz, Demand, InTicks;
    var all := AllDeclared(m.tasks);
    var w := TickPassSuffices(all, k, TickHz(m));
    DeadlineWithinPeriod(m, k);
    TickPassIsSoundInNanos(all, k, TickHz(m), run);
  }

  /** A reported `Fail` holds of the system declared: some run stepped in nanoseconds misses the
      deadline. It takes no hypothesis about periods, deadlines or shared levels. */
  lemma ReportedFailHolds(m: System, k: nat) returns (run: Run)
    requires IsWellFormed(m) && k < |m.tasks| && IsRoundableFail(AllDeclared(m.tasks), k, TickHz(m))
    requires VerdictAt(m, k).Fail?
    ensures EffectiveDeadline(AllDeclared(m.tasks)[k]).Some?
    ensures IsRun(AllDeclared(m.tasks), run)
    ensures !RespondsWithin(run, k, EffectiveDeadline(AllDeclared(m.tasks)[k]).value)
  {
    hide IsRun, VerdictOf, RespondsWithin, IsRoundableFail, IsWellFormed, Nanos, TickHz, InTicks;
    run := TickFailMissesInNanos(AllDeclared(m.tasks), k, TickHz(m));
  }

  /** The headline of a passing report: every deadline of every task is met in every run, and the
      utilisation printed beside it is at most the whole CPU. */
  lemma ReportedPassIsTrue(m: System, analysis: Analysis, run: Run)
    requires IsWellFormed(m) && HaveDistinctLevels(m.tasks)
    requires forall k: nat :: k < |m.tasks| ==> IsRoundable(AllDeclared(m.tasks), k, TickHz(m))
    requires analysis.utilisationPpm == Utilisation(Analysed(m)) && |analysis.verdicts| == |m.tasks|
    requires forall k: nat :: k < |m.tasks| ==> analysis.verdicts[k] == (m.tasks[k].name, VerdictAt(m, k))
    requires analysis.IsSchedulable() && IsRun(AllDeclared(m.tasks), run)
    ensures forall k: nat :: k < |m.tasks| ==>
              EffectiveDeadline(AllDeclared(m.tasks)[k]).Some? &&
              RespondsWithin(run, k, EffectiveDeadline(AllDeclared(m.tasks)[k]).value)
    ensures analysis.utilisationPpm <= 1_000_000
  {
    hide IsRun, RespondsWithin, Utilisation, IsRoundable, VerdictOf;
    var tasks := Analysed(m);
    forall k: nat | k < |m.tasks|
      ensures EffectiveDeadline(AllDeclared(m.tasks)[k]).Some?
      ensures RespondsWithin(run, k, EffectiveDeadline(AllDeclared(m.tasks)[k]).value)
      ensures AnalysisLaws.PassesSoundly(tasks[k], tasks)
    {
      assert analysis.verdicts[k] in analysis.verdicts;
      DistinctLevelsCountAll(m, k);
      ReportedPassHolds(m, k, run);
      PassesSoundlyOnTicks(m, k);
    }
    assert AnalysisLaws.IsDistinct(tasks);
    AnalysisLaws.SchedulableFitsTheCpu(tasks);
  }

  lemma PassesSoundlyOnTicks(m: System, k: nat)
    requires IsWellFormed(m) && k < |m.tasks| && IsRoundable(AllDeclared(m.tasks), k, TickHz(m))
    requires VerdictAt(m, k).Pass?
    ensures AnalysisLaws.PassesSoundly(Analysed(m)[k], Analysed(m))
  {
    hide Gather, IsWellFormed, ToTicks, Nanos, IsSafePeriod, IsSafeDeadline;
    ValidationDischarges(m, k);
  }
}
