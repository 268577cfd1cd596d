/** The validator itself: loops that push findings onto a report. */
module Validation {
  import opened Words
  import opened Units
  import opened Manifest
  import opened ReportContents
  import opened WellFormedness

  class Report {
    var diagnostics: seq<Diagnostic>

    constructor ()
      ensures diagnostics == []
    {
      diagnostics := [];
    }

    predicate IsOk()
      reads this
    {
      ErrorCount(diagnostics) == 0
    }

    /** Push a finding if there is one. Only an error spoils a report. */
    method PushIf(found: bool, severity: Severity, code: nat, location: string)
      modifies this
      ensures diagnostics == Add(old(diagnostics), found, severity, code, location)
      ensures IsOk() <==> old(IsOk()) && !(found && severity == Error)
    {
      OneMoreCounted(diagnostics, Diagnostic(severity, code, location));
      if found {
        diagnostics := diagnostics + [Diagnostic(severity, code, location)];
      }
    }
  }

  lemma OneMoreCounted(ds: seq<Diagnostic>, d: Diagnostic)
    ensures ErrorCount(ds + [d]) == ErrorCount(ds) + if d.severity == Error then 1 else 0
  {
    assert (ds + [d])[..|ds|] == ds;
  }

  lemma NoNames()
    ensures TaskNames([]) == {}
  {}

  lemma NamesGrow(tasks: seq<Task>, k: nat)
    requires k < |tasks|
    ensures TaskNames(tasks[..k + 1]) == TaskNames(tasks[..k]) + {tasks[k].name}
  {
    assert tasks[..k + 1] == tasks[..k] + [tasks[k]];
  }

  method CheckTaskNames(m: System, report: Report)
    modifies report
    ensures report.diagnostics == Fold(|m.tasks|, old(report.diagnostics), NameCheck(m.tasks))
  {
    hide TaskNames;
    var seen: set<string> := {};
    NoNames();
    for k := 0 to |m.tasks|
      invariant seen == TaskNames(m.tasks[..k])
      invariant report.diagnostics == Fold(k, old(report.diagnostics), NameCheck(m.tasks))
    {
      var task := m.tasks[k];
      report.PushIf(task.name in seen, Error, 1, task.name);
      report.PushIf(task.name == "", Error, 2, "[[task]]");
      NamesGrow(m.tasks, k);
      seen := seen + {task.name};
    }
  }

  // ------------------------------------------------------------------ priorities

  /** Every level that a task with a deadline uses, each exactly once. */
  ghost predicate IsLevelOrder(tasks: seq<Task>, order: seq<uint8>) {
    (forall j, k :: 0 <= j < k < |order| ==> order[j] != order[k]) &&
    (forall p: uint8 :: p in order <==> Sharing(tasks, p) != [])
  }

  /** The map that groups task names by priority holds exactly the non-empty groups. */
  ghost predicate IsGrouping(tasks: seq<Task>, groups: map<uint8, seq<string>>) {
    (forall p: uint8 :: p in groups <==> Sharing(tasks, p) != []) &&
    (forall p: uint8 :: p in groups ==> groups[p] == Sharing(tasks, p))
  }

  method GroupByPriority(tasks: seq<Task>) returns (groups: map<uint8, seq<string>>)
    ensures IsGrouping(tasks, groups)
  {
    groups := map[];
    for k := 0 to |tasks|
      invariant IsGrouping(tasks[..k], groups)
    {
      var task := tasks[k];
      assert tasks[..k + 1][..k] == tasks[..k];
      if task.deadline.Some? {
        var group := if task.priority in groups then groups[task.priority] else [];
        groups := groups[task.priority := group + [task.name]];
      }
    }
    assert tasks[..|tasks|] == tasks;
  }

  method CheckRange(m: System, report: Report)
    modifies report
    ensures report.diagnostics == Fold(|m.tasks|, old(report.diagnostics), PriorityCheck(m.tasks))
  {
    for k := 0 to |m.tasks|
      invariant report.diagnostics == Fold(k, old(report.diagnostics), PriorityCheck(m.tasks))
    {
      var task := m.tasks[k];
      report.PushIf(task.priority > 31, Error, 3, task.name);
      report.PushIf(task.priority == 0, Error, 4, task.name);
    }
  }

  lemma LevelsGrow(ds: seq<Diagnostic>, tasks: seq<Task>, order: seq<uint8>, priority: uint8)
    ensures AfterLevels(ds, tasks, []) == ds
    ensures AfterLevels(ds, tasks, order + [priority])
         == Add(AfterLevels(ds, tasks, order), |Sharing(tasks, priority)| > 1, Warning, 5,
                Join(Sharing(tasks, priority)))
  {
    assert (order + [priority])[..|order|] == order;
  }

  /** `visited` lists the levels in `all` that are not left in `rest`, each once. */
  ghost predicate Lists(visited: seq<uint8>, all: set<uint8>, rest: set<uint8>) {
    (forall j, k :: 0 <= j < k < |visited| ==> visited[j] != visited[k]) &&
    (forall p: uint8 :: p in visited <==> p in all && p !in rest)
  }

  lemma ListsOneMore(visited: seq<uint8>, all: set<uint8>, rest: set<uint8>, priority: uint8)
    requires Lists(visited, all, rest) && priority in rest && rest <= all
    ensures Lists(visited + [priority], all, rest - {priority})
  {}

  /** Hash-map iteration order is not determined; `order` is the one taken. */
  method VisitLevels(tasks: seq<Task>, byPriority: map<uint8, seq<string>>, report: Report)
    returns (ghost order: seq<uint8>)
    requires IsGrouping(tasks, byPriority)
    modifies report
    ensures Lists(order, byPriority.Keys, {})
    ensures report.diagnostics == AfterLevels(old(report.diagnostics), tasks, order)
  {
    hide AfterLevels, Join, Sharing;
    var rest := byPriority.Keys;
    order := [];
    LevelsGrow(report.diagnostics, tasks, [], 0);
    while rest != {}
      invariant rest <= byPriority.Keys && Lists(order, byPriority.Keys, rest)
      invariant report.diagnostics == AfterLevels(old(report.diagnostics), tasks, order)
      decreases |rest|
    {
      var priority :| priority in rest;
      var names := byPriority[priority];
      report.PushIf(|names| > 1, Warning, 5, Join(names));
      LevelsGrow(old(report.diagnostics), tasks, order, priority);
      ListsOneMore(order, byPriority.Keys, rest, priority);
      order := order + [priority];
      rest := rest - {priority};
    }
  }

  method CheckSharing(m: System, report: Report) returns (ghost order: seq<uint8>)
    modifies report
    ensures IsLevelOrder(m.tasks, order)
    ensures report.diagnostics == AfterLevels(old(report.diagnostics), m.tasks, order)
  {
    hide AfterLevels, Sharing;
    var byPriority := GroupByPriority(m.tasks);
    order := VisitLevels(m.tasks, byPriority, report);
  }

  method CheckPriorities(m: System, report: Report) returns (ghost order: seq<uint8>)
    modifies report
    ensures IsLevelOrder(m.tasks, order)
    ensures report.diagnostics
         == AfterLevels(Fold(|m.tasks|, old(report.diagnostics), PriorityCheck(m.tasks)), m.tasks, order)
  {
    CheckRange(m, report);
    order := CheckSharing(m, report);
  }

  // ------------------------------------------------------------------ timing

  method ParseDuration(text: Option<string>, task: Task, report: Report) returns (duration: Option<uint64>)
    modifies report
    ensures duration == Nanos(text) && report.diagnostics == AfterParse(old(report.diagnostics), text, task)
  {
    if text.None? {
      return None;
    }
    var parsed := Parse(Time, text.value);
    report.PushIf(parsed.Err?, Error, 23, task.name);
    return if parsed.Ok? then Some(parsed.value) else None;
  }

  /** Pushes the specified findings in order, and leaves the report free of errors if and only if it
      was and the task is well timed. */
  method CheckTaskTiming(task: Task, tickHz: Option<uint64>, report: Report)
    modifies report
    ensures report.diagnostics == AfterTiming(old(report.diagnostics), task, tickHz)
    ensures IsErrorFree(report.diagnostics) <==> IsErrorFree(old(report.diagnostics)) && IsWellTimed(task)
  {
    hide IsErrorFree, IsWellTimed, ErrorCount, Report.IsOk;
    TaskTimingErrorFree(report.diagnostics, task, tickHz);
    var period := ParseDuration(task.period, task, report);
    report.PushIf(period == Some(0), Error, 26, task.name);
    period := if period == Some(0) then None else period;
    var deadline := ParseDuration(task.deadline, task, report);
    var wcet := ParseDuration(task.wcet, task, report);
    report.PushIf(Exceeds(deadline, period), Error, 6, task.name);
    report.PushIf(Exceeds(wcet, deadline), Error, 7, task.name);
    report.PushIf(task.deadline.Some? && task.wcet.None?, Warning, 8, task.name);
    report.PushIf(IsMisaligned(period, tickHz), Warning, 9, task.name);
  }

  method CheckTimingAt(tasks: seq<Task>, tickHz: Option<uint64>, report: Report)
    modifies report
    ensures report.diagnostics
         == Fold(|tasks|, AfterRate(old(report.diagnostics), tickHz), TimingCheck(tasks, tickHz))
  {
    hide AfterTiming;
    report.PushIf(tickHz.None?, Error, 24, "[system]");
    report.PushIf(tickHz == Some(0), Error, 25, "[system]");
    for k := 0 to |tasks|
      invariant report.diagnostics
             == Fold(k, AfterRate(old(report.diagnostics), tickHz), TimingCheck(tasks, tickHz))
    {
      CheckTaskTiming(tasks[k], tickHz, report);
    }
  }

  method CheckTiming(m: System, report: Report)
    modifies report
    ensures var tickHz := ParseTickHz(m.tickRate);
            report.diagnostics
            == Fold(|m.tasks|, AfterRate(old(report.diagnostics), tickHz), TimingCheck(m.tasks, tickHz))
  {
    var tickHz := ParseTickHz(m.tickRate);
    CheckTimingAt(m.tasks, tickHz, report);
  }

  // ------------------------------------------------------------------ stacks

  method CheckTaskStack(task: Task, report: Report) returns (aborted: bool)
    modifies report
    ensures aborted <==> StackAborts(task)
    ensures !aborted ==> report.diagnostics == AfterStack(old(report.diagnostics), task)
  {
    var parsed := Parse(Size, task.stack);
    report.PushIf(parsed.Err?, Error, 10, task.name);
    if parsed.Err? {
      return false;
    }
    report.PushIf(parsed.value < MIN_STACK, Error, 11, task.name);
    var padded := ToPowerOfTwo(parsed.value);
    if padded.None? {
      return true;
    }
    report.PushIf(padded.value != parsed.value, Warning, 12, task.name);
    return false;
  }

  /** Aborts on the first stack whose padded size overflows. */
  method CheckStacks(m: System, report: Report) returns (aborted: bool)
    modifies report
    ensures aborted <==> AnyStackAborts(m.tasks, |m.tasks|)
    ensures !aborted ==> report.diagnostics == Fold(|m.tasks|, old(report.diagnostics), StackCheck(m.tasks))
  {
    hide StackAborts, AfterStack;
    for k := 0 to |m.tasks|
      invariant !AnyStackAborts(m.tasks, k)
      invariant report.diagnostics == Fold(k, old(report.diagnostics), StackCheck(m.tasks))
    {
      aborted := CheckTaskStack(m.tasks[k], report);
      if aborted {
        AbortStays(m.tasks, k + 1, |m.tasks|);
        return;
      }
    }
    return false;
  }

  // ------------------------------------------------------------------ channels

  lemma ChannelNamesGrow(channels: seq<Channel>, k: nat)
    requires k < |channels|
    ensures ChannelNames(channels[..k + 1]) == ChannelNames(channels[..k]) + {channels[k].name}
  {
    assert channels[..k + 1] == channels[..k] + [channels[k]];
  }

  /** Pushes the specified findings in order, and leaves the report free of errors if and only if it
      was, the name is new, and the channel is well connected. */
  method CheckChannel(m: System, names: set<string>, seen: set<string>, ghost earlier: seq<Channel>, channel: Channel,
                      report: Report)
    requires names == TaskNames(m.tasks) && seen == ChannelNames(earlier)
    modifies report
    ensures report.diagnostics == AfterChannel(old(report.diagnostics), m.tasks, earlier, channel)
    ensures IsErrorFree(report.diagnostics) <==>
            IsErrorFree(old(report.diagnostics)) && channel.name !in ChannelNames(earlier) &&
            IsWellConnected(m, channel)
  {
    hide IsErrorFree, IsWellConnected, ErrorCount, Report.IsOk, IsInversion, IsValidOverflow, TaskNames, ChannelNames;
    OneChannelErrorFree(report.diagnostics, m, earlier, channel);
    report.PushIf(channel.name in seen, Error, 13, channel.name);
    report.PushIf(channel.from !in names, Error, 14, channel.name);
    report.PushIf(channel.to !in names, Error, 14, channel.name);
    report.PushIf(channel.from == channel.to, Error, 15, channel.name);
    report.PushIf(channel.capacity == 0, Error, 16, channel.name);
    report.PushIf(!IsValidOverflow(channel.overflow), Error, 17, channel.name);
    report.PushIf(IsInversion(m.tasks, channel), Warning, 18, channel.name);
  }

  method CheckChannels(m: System, report: Report)
    modifies report
    ensures report.diagnostics == Fold(|m.channels|, old(report.diagnostics), ChannelCheck(m))
  {
    hide AfterChannel;
    var names := TaskNames(m.tasks);
    var seen: set<string> := {};
    for k := 0 to |m.channels|
      invariant seen == ChannelNames(m.channels[..k])
      invariant report.diagnostics == Fold(k, old(report.diagnostics), ChannelCheck(m))
    {
      CheckChannel(m, names, seen, m.channels[..k], m.channels[k], report);
      ChannelNamesGrow(m.channels, k);
      seen := seen + {m.channels[k].name};
    }
  }

  // ------------------------------------------------------------------ capabilities

  ghost predicate IsChannelMap(channels: seq<Channel>, byName: map<string, (string, string)>) {
    forall name: string :: Endpoints(channels, name) == if name in byName then Some(byName[name]) else None
  }

  /** Collecting into a map: a later channel of the same name replaces an earlier one. */
  method ChannelMap(channels: seq<Channel>) returns (byName: map<string, (string, string)>)
    ensures IsChannelMap(channels, byName)
  {
    byName := map[];
    for k := 0 to |channels|
      invariant IsChannelMap(channels[..k], byName)
    {
      assert channels[..k + 1][..k] == channels[..k];
      byName := byName[channels[k].name := (channels[k].from, channels[k].to)];
    }
    assert channels[..|channels|] == channels;
  }

  method CheckTaskCapabilities(
      channels: seq<Channel>, byName: map<string, (string, string)>, task: Task, report: Report)
    requires IsChannelMap(channels, byName)
    modifies report
    ensures report.diagnostics
         == Fold(|task.capabilities|, old(report.diagnostics), CapabilityCheck(channels, task))
  {
    hide Endpoints;
    var seen: set<string> := {};
    for k := 0 to |task.capabilities|
      invariant forall c: string :: c in seen <==> c in task.capabilities[..k]
      invariant report.diagnostics == Fold(k, old(report.diagnostics), CapabilityCheck(channels, task))
    {
      var capability := task.capabilities[k];
      report.PushIf(capability in seen, Warning, 19, task.name);
      assert task.capabilities[..k + 1] == task.capabilities[..k] + [capability];
      seen := seen + {capability};
      var channel := IpcChannel(capability);
      if channel.None? {
        continue;
      }
      if channel.value !in byName {
        report.PushIf(true, Error, 20, task.name);
      } else {
        var (from, to) := byName[channel.value];
        report.PushIf(from != task.name && to != task.name, Error, 21, task.name);
      }
    }
  }

  method CheckCapabilities(m: System, report: Report)
    modifies report
    ensures report.diagnostics
         == Fold(|m.channels|, Fold(|m.tasks|, old(report.diagnostics), HoldingsCheck(m)), ClaimCheck(m))
  {
    hide IsClaimed, CapabilityCheck, IsChannelMap, ErrorCount, Report.IsOk;
    var byName := ChannelMap(m.channels);
    for k := 0 to |m.tasks|
      invariant report.diagnostics == Fold(k, old(report.diagnostics), HoldingsCheck(m))
    {
      CheckTaskCapabilities(m.channels, byName, m.tasks[k], report);
    }
    for k := 0 to |m.channels|
      invariant report.diagnostics
             == Fold(k, Fold(|m.tasks|, old(report.diagnostics), HoldingsCheck(m)), ClaimCheck(m))
    {
      report.PushIf(!IsClaimed(m.tasks, m.channels[k]), Warning, 22, m.channels[k].name);
    }
  }

  /** The whole validation. The report is complete unless padding a stack aborted it. */
  method Validate(m: System) returns (report: Report, aborted: bool, ghost order: seq<uint8>)
    ensures fresh(report) && IsLevelOrder(m.tasks, order)
    ensures aborted <==> AnyStackAborts(m.tasks, |m.tasks|)
    ensures !aborted ==> report.diagnostics == Findings(m, order)
    ensures !aborted ==> forall d :: d in report.diagnostics <==> Deserves(m, order, d)
    ensures !aborted && report.IsOk() <==> IsWellFormed(m)
  {
    hide IsWellFormed, IsLevelOrder, AfterLevels, AfterRate, ParseTickHz, Deserves;
    report := new Report();
    CheckTaskNames(m, report);
    order := CheckPriorities(m, report);
    NoErrorsMeansWellFormed(m, order);
    CheckTiming(m, report);
    aborted := CheckStacks(m, report);
    if aborted {
      return;
    }
    CheckChannels(m, report);
    CheckCapabilities(m, report);
    forall d
      ensures d in Findings(m, order) <==> Deserves(m, order, d)
    {
      ReportIsDeserved(m, order, d);
    }
  }
}
