/** The response-time analyser: saturating 64-bit iteration with an early exit and a round limit. */
module ResponseTime {
  import opened Words
  import opened Recurrence

  datatype TaskTiming = TaskTiming(
    name: string,
    priority: uint8,
    period: Option<uint64>,
    deadline: Option<uint64>,
    wcet: Option<uint64>,
    blocking: uint64)

  datatype Reason =
    | NoWcet | NoDeadline | NoPeriod | ZeroPeriodAbove | UndeclaredAbove | NotConverged

  datatype Verdict =
    | Pass(response: uint64, slack: uint64)
    | Fail(response: uint64, overrun: uint64)
    | Unknown(reason: Reason)

  datatype Analysis = Analysis(verdicts: seq<(string, Verdict)>, utilisationPpm: uint64) {
    predicate IsSchedulable() {
      forall v <- verdicts :: v.1.Pass?
    }
  }

  const MAX_ITERATIONS: nat := 1000

  // ------------------------------------------------------------------ specification

  predicate Preempts(other: TaskTiming, task: TaskTiming) {
    other.name != task.name && other.priority > task.priority
  }

  /** The interferers of a task, or why they cannot be bounded. */
  datatype Gathered = Loads(hp: seq<Load>) | Blocked(reason: Reason)

  function Classify(other: TaskTiming): Gathered {
    match (other.period, other.wcet)
    case (Some(period), wcet) =>
      if period == 0 then Blocked(ZeroPeriodAbove)
      else if wcet.Some? then Loads([Load(period, wcet.value)])
      else Blocked(UndeclaredAbove)
    case _ => Blocked(UndeclaredAbove)
  }

  /** Interferers in declaration order; the first one that cannot be bounded decides. */
  function Gather(task: TaskTiming, all: seq<TaskTiming>): (g: Gathered)
    ensures g.Loads? ==> |g.hp| <= |all|
  {
    if all == [] then Loads([])
    else
      var before := Gather(task, all[..|all| - 1]);
      var last := all[|all| - 1];
      if before.Blocked? || !Preempts(last, task) then before
      else
        match Classify(last)
        case Loads(load) => Loads(before.hp + load)
        case Blocked(reason) => Blocked(reason)
  }

  function SatDemand(base: uint64, hp: seq<Load>, w: uint64): uint64 {
    if hp == [] then base
    else
      var last := hp[|hp| - 1];
      SatAdd(SatDemand(base, hp[..|hp| - 1], w), SatMul(DivCeil(w, last.period), last.wcet))
  }

  /** The iteration from `response` with `rounds` rounds left. */
  function Solve(base: uint64, hp: seq<Load>, deadline: uint64, response: uint64, rounds: nat): Verdict
    decreases rounds, response
  {
    if rounds == 0 then Unknown(NotConverged)
    else
      var next := SatDemand(base, hp, response);
      if next == response then
        if response <= deadline then Pass(response, deadline - response)
        else Fail(response, response - deadline)
      else if next > deadline then Fail(next, next - deadline)
      else Solve(base, hp, deadline, next, rounds - 1)
  }

  function EffectiveDeadline(task: TaskTiming): Option<uint64> {
    if task.deadline.Some? then task.deadline else task.period
  }

  function VerdictOf(task: TaskTiming, all: seq<TaskTiming>): Verdict {
    if task.wcet.None? then Unknown(NoWcet)
    else if EffectiveDeadline(task).None? then Unknown(NoDeadline)
    else if task.period.None? then Unknown(NoPeriod)
    else
      match Gather(task, all)
      case Blocked(reason) => Unknown(reason)
      case Loads(hp) =>
        var base := SatAdd(task.wcet.value, task.blocking);
        Solve(base, hp, EffectiveDeadline(task).value, base, MAX_ITERATIONS)
  }

  /** The sum over the first tasks, as the report accumulates it. */
  function Utilisation(tasks: seq<TaskTiming>): uint64 {
    if tasks == [] then 0
    else
      var before := Utilisation(tasks[..|tasks| - 1]);
      var last := tasks[|tasks| - 1];
      if last.period.None? || last.wcet.None? then before
      else if last.period.value == 0 then U64_MAX
      else SatAdd(before, SatMul(last.wcet.value, 1_000_000) / last.period.value)
  }

  // ------------------------------------------------------------------ the code

  /** One round: what the interferers cost in a window of `response` ticks. */
  method NextDemand(base: uint64, interferers: seq<Load>, response: uint64) returns (next: uint64)
    ensures next == SatDemand(base, interferers, response)
  {
    next := base;
    for k := 0 to |interferers|
      invariant next == SatDemand(base, interferers[..k], response)
    {
      assert interferers[..k + 1][..k] == interferers[..k];
      var activations := DivCeil(response, interferers[k].period);
      next := SatAdd(next, SatMul(activations, interferers[k].wcet));
    }
    assert interferers[..|interferers|] == interferers;
  }

  /** The rounds themselves, from `base`, with both early exits. */
  method Iterate(base: uint64, interferers: seq<Load>, deadline: uint64) returns (verdict: Verdict)
    ensures verdict == Solve(base, interferers, deadline, base, MAX_ITERATIONS)
  {
    var response: uint64 := base;
    for round := 0 to MAX_ITERATIONS
      invariant Solve(base, interferers, deadline, base, MAX_ITERATIONS)
             == Solve(base, interferers, deadline, response, MAX_ITERATIONS - round)
    {
      var next := NextDemand(base, interferers, response);
      if next == response {
        return if response <= deadline
               then Pass(response, deadline - response)
               else Fail(response, response - deadline);
      }
      if next > deadline {
        return Fail(next, next - deadline);
      }
      response := next;
    }
    return Unknown(NotConverged);
  }

  method VerdictFor(task: TaskTiming, all: seq<TaskTiming>) returns (verdict: Verdict)
    ensures verdict == VerdictOf(task, all)
  {
    if task.wcet.None? {
      return Unknown(NoWcet);
    }
    var deadline := if task.deadline.Some? then task.deadline else task.period;
    if deadline.None? {
      return Unknown(NoDeadline);
    }
    if task.period.None? {
      return Unknown(NoPeriod);
    }

    var interferers: seq<Load> := [];
    for k := 0 to |all|
      invariant Gather(task, all[..k]) == Loads(interferers)
    {
      var other := all[k];
      assert all[..k + 1][..k] == all[..k];
      if other.name == task.name || other.priority <= task.priority {
        continue;
      }
      if other.period == Some(0) {
        GatherStops(task, all, k + 1);
        return Unknown(ZeroPeriodAbove);
      } else if other.period.Some? && other.wcet.Some? {
        interferers := interferers + [Load(other.period.value, other.wcet.value)];
      } else {
        GatherStops(task, all, k + 1);
        return Unknown(UndeclaredAbove);
      }
    }
    assert all[..|all|] == all;
    verdict := Iterate(SatAdd(task.wcet.value, task.blocking), interferers, deadline.value);
  }

  method Analyse(tasks: seq<TaskTiming>) returns (analysis: Analysis)
    ensures analysis.utilisationPpm == Utilisation(tasks)
    ensures |analysis.verdicts| == |tasks|
    ensures forall k :: 0 <= k < |tasks| ==>
              analysis.verdicts[k] == (tasks[k].name, VerdictOf(tasks[k], tasks))
    ensures analysis.IsSchedulable() <==> forall task :: task in tasks ==> VerdictOf(task, tasks).Pass?
  {
    hide VerdictOf;
    var verdicts: seq<(string, Verdict)> := [];
    var utilisationPpm: uint64 := 0;
    for k := 0 to |tasks|
      invariant utilisationPpm == Utilisation(tasks[..k])
      invariant |verdicts| == k
      invariant forall j :: 0 <= j < k ==> verdicts[j] == (tasks[j].name, VerdictOf(tasks[j], tasks))
    {
      var task := tasks[k];
      assert tasks[..k + 1][..k] == tasks[..k];
      if task.period.Some? && task.wcet.Some? {
        if task.period.value == 0 {
          utilisationPpm := U64_MAX;
        } else {
          utilisationPpm := SatAdd(utilisationPpm, SatMul(task.wcet.value, 1_000_000) / task.period.value);
        }
      }
      var verdict := VerdictFor(task, tasks);
      verdicts := verdicts + [(task.name, verdict)];
    }
    assert tasks[..|tasks|] == tasks;
    analysis := Analysis(verdicts, utilisationPpm);
    ScheduleIsVerdicts(analysis, tasks);
  }

  /** A report is schedulable exactly when every task passes. */
  lemma ScheduleIsVerdicts(analysis: Analysis, tasks: seq<TaskTiming>)
    requires |analysis.verdicts| == |tasks|
    requires forall k :: 0 <= k < |tasks| ==> analysis.verdicts[k].1 == VerdictOf(tasks[k], tasks)
    ensures analysis.IsSchedulable() <==> forall task :: task in tasks ==> VerdictOf(task, tasks).Pass?
  {
    hide VerdictOf;
    if analysis.IsSchedulable() {
      forall task | task in tasks
        ensures VerdictOf(task, tasks).Pass?
      {
        var k :| 0 <= k < |tasks| && tasks[k] == task;
        assert analysis.verdicts[k] in analysis.verdicts;
      }
    } else {
      var v :| v in analysis.verdicts && !v.1.Pass?;
      var k :| 0 <= k < |tasks| && analysis.verdicts[k] == v;
      assert tasks[k] in tasks;
    }
  }

  /** Once an interferer cannot be bounded, later tasks do not change the outcome. */
  lemma {:induction false} GatherStops(task: TaskTiming, all: seq<TaskTiming>, k: nat)
    requires k <= |all| && Gather(task, all[..k]).Blocked?
    ensures Gather(task, all) == Gather(task, all[..k])
  {
    if k == |all| {
      assert all[..k] == all;
    } else {
      assert all[..|all| - 1][..k] == all[..k];
      GatherStops(task, all[..|all| - 1], k);
    }
  }

  /** One more task adds its cost to the demand, or nothing when it does not preempt. */
  lemma GatherAdd(task: TaskTiming, before: seq<TaskTiming>, last: TaskTiming, w: nat)
    requires Gather(task, before + [last]).Loads?
    ensures Gather(task, before).Loads?
    ensures Preempts(last, task) ==> last.period.Some? && last.wcet.Some? && 0 < last.period.value
    ensures Demand(0, Gather(task, before + [last]).hp, w)
         == Demand(0, Gather(task, before).hp, w)
          + if Preempts(last, task) then Cost(Load(last.period.value, last.wcet.value), w) else 0
  {
    assert (before + [last])[..|before|] == before;
    if Preempts(last, task) {
      var hp := Gather(task, before).hp;
      assert (hp + [Load(last.period.value, last.wcet.value)])[..|hp|] == hp;
    }
  }

  /** Two tasks, the second preempting the first. */
  lemma GatherPair(low: TaskTiming, high: TaskTiming)
    requires Preempts(high, low) && high.period.Some? && 0 < high.period.value && high.wcet.Some?
    ensures Gather(low, [low, high]) == Loads([Load(high.period.value, high.wcet.value)])
  {
    assert [low, high][..1] == [low] && [low][..0] == [];
    assert Gather(low, [low]) == Loads([]);
  }

  // ------------------------------------------------------------------ saturating refines unbounded

  lemma SatStep(d: nat, a: nat, b: nat)
    ensures SatAdd(Cap(d), SatMul(a, b)) == Cap(d + a * b)
  {
    CapAbsorbs(d, a * b);
  }

  lemma {:induction false} SatDemandIsCapped(base: nat, hp: seq<Load>, w: uint64)
    ensures SatDemand(Cap(base), hp, w) == Cap(Demand(base, hp, w))
  {
    if hp != [] {
      var last := hp[|hp| - 1];
      var before := hp[..|hp| - 1];
      SatDemandIsCapped(base, before, w);
      assert SatDemand(Cap(base), hp, w)
          == SatAdd(SatDemand(Cap(base), before, w), SatMul(DivCeil(w, last.period), last.wcet));
      SatStep(Demand(base, before, w), DivCeil(w, last.period), last.wcet);
    }
  }

  /** Each round raises the lower bound it starts from. */
  lemma NextIsLowerBound(base: nat, hp: seq<Load>, response: uint64)
    requires IsLowerBound(base, hp, response)
    ensures SatDemand(Cap(base), hp, response) == response < U64_MAX ==> Demand(base, hp, response) == response
    ensures IsLowerBound(base, hp, SatDemand(Cap(base), hp, response))
  {
    SatDemandIsCapped(base, hp, response);
    forall y: nat | Suffices(base, hp, y)
      ensures SatDemand(Cap(base), hp, response) <= y
    {
      DemandMono(base, hp, response, y);
    }
  }

  /** What a decided iteration says about the unbounded recurrence. A `Pass` below `U64_MAX` is
      the least solution; no window shorter than a reported `Fail` response suffices. */
  ghost predicate Decides(base: nat, hp: seq<Load>, deadline: uint64, verdict: Verdict) {
    match verdict
    case Pass(response, slack) =>
      response + slack == deadline && IsLowerBound(base, hp, response) &&
      (response < U64_MAX ==> Demand(base, hp, response) == response)
    case Fail(response, overrun) =>
      response == deadline + overrun && 0 < overrun && IsLowerBound(base, hp, response)
    case Unknown(_) => true
  }

  lemma {:induction false} SolveDecides(
      base: nat, hp: seq<Load>, deadline: uint64, response: uint64, rounds: nat)
    requires IsLowerBound(base, hp, response)
    ensures Decides(base, hp, deadline, Solve(Cap(base), hp, deadline, response, rounds))
    decreases rounds
  {
    if rounds != 0 {
      NextIsLowerBound(base, hp, response);
      var next := SatDemand(Cap(base), hp, response);
      if next != response && next <= deadline {
        SolveDecides(base, hp, deadline, next, rounds - 1);
      }
    }
  }

  /** A task whose interference can be bounded, so that the recurrence is run for it. */
  ghost predicate IsAnalysable(task: TaskTiming, all: seq<TaskTiming>) {
    task.wcet.Some? && task.period.Some? && Gather(task, all).Loads?
  }

  /** Own work plus worst-case blocking, over unbounded integers. */
  function Base(task: TaskTiming): nat
    requires task.wcet.Some?
  {
    task.wcet.value + task.blocking
  }

  lemma VerdictDecides(task: TaskTiming, all: seq<TaskTiming>)
    requires IsAnalysable(task, all)
    ensures Decides(Base(task), Gather(task, all).hp, EffectiveDeadline(task).value, VerdictOf(task, all))
  {
    var hp := Gather(task, all).hp;
    var base := Base(task);
    assert IsLowerBound(base, hp, Cap(base)) by {
      forall y: nat | Suffices(base, hp, y)
        ensures Cap(base) <= y
      {
        DemandMono(base, hp, y, y);
      }
    }
    var dl := EffectiveDeadline(task).value;
    var v := Solve(Cap(base), hp, dl, Cap(base), MAX_ITERATIONS);
    assert VerdictOf(task, all) == v;
    SolveDecides(base, hp, dl, Cap(base), MAX_ITERATIONS);
    assert Decides(base, hp, dl, v);
  }

  /** Below a deadline of `U64_MAX` the saturating iteration is exact: `Pass` reports the least
      solution of the unbounded recurrence, within the deadline; after `Fail` every window that
      suffices exceeds the deadline and is at least the reported response. */
  lemma SaturationIsExact(task: TaskTiming, all: seq<TaskTiming>)
    requires IsAnalysable(task, all) && EffectiveDeadline(task).value < U64_MAX
    ensures match VerdictOf(task, all)
            case Pass(response, slack) =>
              IsLeastSolution(Base(task), Gather(task, all).hp, response) &&
              response + slack == EffectiveDeadline(task).value
            case Fail(response, overrun) =>
              IsLowerBound(Base(task), Gather(task, all).hp, response) &&
              response == EffectiveDeadline(task).value + overrun && 0 < overrun
            case Unknown(reason) => reason == NotConverged
  {
    VerdictDecides(task, all);
    var base := SatAdd(task.wcet.value, task.blocking);
    OnlyNotConverged(base, Gather(task, all).hp, EffectiveDeadline(task).value, base, MAX_ITERATIONS);
  }

  lemma {:induction false} OnlyNotConverged(
      base: uint64, hp: seq<Load>, deadline: uint64, response: uint64, rounds: nat)
    ensures var v := Solve(base, hp, deadline, response, rounds); v.Unknown? ==> v.reason == NotConverged
    decreases rounds
  {
    if rounds != 0 {
      OnlyNotConverged(base, hp, deadline, SatDemand(base, hp, response), rounds - 1);
    }
  }
}
