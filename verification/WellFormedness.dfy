/** The validator decides a declarative predicate: it completes without an error-severity finding
    exactly on well-formed manifests. */
module WellFormedness {
  import opened Words
  import opened Units
  import opened Manifest

  ghost predicate IsErrorFree(ds: seq<Diagnostic>) {
    forall d :: d in ds ==> d.severity != Error
  }

  /** A check keeps a report free of errors exactly when it finds nothing or only warns. */
  lemma AddErrorFree()
    ensures forall ds: seq<Diagnostic>, found: bool, severity: Severity, code: nat, location: string
              {:trigger Add(ds, found, severity, code, location)} ::
              IsErrorFree(Add(ds, found, severity, code, location))
              <==> IsErrorFree(ds) && (found ==> severity == Warning)
  {
    forall ds: seq<Diagnostic>, found: bool, severity: Severity, code: nat, location: string
      ensures IsErrorFree(Add(ds, found, severity, code, location))
              <==> IsErrorFree(ds) && (found ==> severity == Warning)
    {
      OneAddErrorFree(ds, found, severity, code, location);
    }
  }

  lemma OneAddErrorFree(ds: seq<Diagnostic>, found: bool, severity: Severity, code: nat, location: string)
    ensures IsErrorFree(Add(ds, found, severity, code, location))
            <==> IsErrorFree(ds) && (found ==> severity == Warning)
  {
    var d := Diagnostic(severity, code, location);
    assert found ==> d in ds + [d] && forall e :: e in ds ==> e in ds + [d];
  }

  /** A check whose effect on error-freedom at element `k` is `clean(k)`. */
  ghost predicate IsDecidedBy(n: nat, check: (seq<Diagnostic>, nat) -> seq<Diagnostic>, clean: nat -> bool) {
    forall ds: seq<Diagnostic>, k: nat :: k < n ==> (IsErrorFree(check(ds, k)) <==> IsErrorFree(ds) && clean(k))
  }

  lemma {:induction false} FoldErrorFree(
      n: nat, ds: seq<Diagnostic>, check: (seq<Diagnostic>, nat) -> seq<Diagnostic>, clean: nat -> bool)
    requires IsDecidedBy(n, check, clean)
    ensures IsErrorFree(Fold(n, ds, check)) <==> IsErrorFree(ds) && forall k: nat :: k < n ==> clean(k)
  {
    if n != 0 {
      FoldErrorFree(n - 1, ds, check, clean);
    }
  }

  // ------------------------------------------------------------------ names and priorities

  function CleanName(tasks: seq<Task>): nat -> bool {
    (k: nat) => k < |tasks| ==> tasks[k].name !in TaskNames(tasks[..k]) && tasks[k].name != ""
  }

  lemma NamesErrorFree(tasks: seq<Task>, ds: seq<Diagnostic>)
    ensures IsErrorFree(Fold(|tasks|, ds, NameCheck(tasks))) <==>
            IsErrorFree(ds) && HaveDistinctNames(tasks) && forall t :: t in tasks ==> t.name != ""
  {
    AddErrorFree();
    FoldErrorFree(|tasks|, ds, NameCheck(tasks), CleanName(tasks));
    CleanNames(tasks);
  }

  lemma CleanNames(tasks: seq<Task>)
    ensures (forall k: nat :: k < |tasks| ==> CleanName(tasks)(k)) <==>
            HaveDistinctNames(tasks) && forall t :: t in tasks ==> t.name != ""
  {
    if forall k: nat :: k < |tasks| ==> CleanName(tasks)(k) {
      forall j, k | 0 <= j < k < |tasks|
        ensures tasks[j].name != tasks[k].name
      {
        assert CleanName(tasks)(k) && tasks[j] in tasks[..k];
      }
      forall t | t in tasks
        ensures t.name != ""
      {
        var k :| 0 <= k < |tasks| && tasks[k] == t;
        assert CleanName(tasks)(k);
      }
    }
  }

  function CleanPriority(tasks: seq<Task>): nat -> bool {
    (k: nat) => k < |tasks| ==> 1 <= tasks[k].priority <= 31
  }

  lemma PrioritiesErrorFree(tasks: seq<Task>, ds: seq<Diagnostic>)
    ensures IsErrorFree(Fold(|tasks|, ds, PriorityCheck(tasks))) <==>
            IsErrorFree(ds) && forall k: nat :: k < |tasks| ==> CleanPriority(tasks)(k)
  {
    AddErrorFree();
    FoldErrorFree(|tasks|, ds, PriorityCheck(tasks), CleanPriority(tasks));
  }

  lemma {:induction false} LevelsErrorFree(ds: seq<Diagnostic>, tasks: seq<Task>, order: seq<uint8>)
    ensures IsErrorFree(AfterLevels(ds, tasks, order)) <==> IsErrorFree(ds)
  {
    if order != [] {
      AddErrorFree();
      LevelsErrorFree(ds, tasks, order[..|order| - 1]);
    }
  }

  // ------------------------------------------------------------------ timing and stacks

  ghost predicate IsTimingClean(task: Task) {
    IsReadable(task.period) && IsReadable(task.deadline) && IsReadable(task.wcet) && Nanos(task.period) != Some(0) &&
    !Exceeds(Nanos(task.deadline), UsablePeriod(task)) && !Exceeds(Nanos(task.wcet), Nanos(task.deadline))
  }

  lemma TimingClean(task: Task)
    ensures IsTimingClean(task) <==> IsWellTimed(task)
  {
    hide Parse;
  }

  lemma TaskTimingErrorFree(ds: seq<Diagnostic>, task: Task, tickHz: Option<uint64>)
    ensures IsErrorFree(AfterTiming(ds, task, tickHz)) <==> IsErrorFree(ds) && IsWellTimed(task)
  {
    hide Parse, Nanos, UsablePeriod, Exceeds, IsMisaligned, IsReadable, IsErrorFree, IsWellTimed, Add;
    AddErrorFree();
    TimingClean(task);
  }

  ghost function CleanTiming(tasks: seq<Task>): nat -> bool {
    (k: nat) => k < |tasks| ==> IsWellTimed(tasks[k])
  }

  lemma TimingErrorFree(tasks: seq<Task>, ds: seq<Diagnostic>, tickHz: Option<uint64>)
    ensures IsErrorFree(Fold(|tasks|, AfterRate(ds, tickHz), TimingCheck(tasks, tickHz))) <==>
            IsErrorFree(ds) && tickHz.Some? && 0 < tickHz.value &&
            forall k: nat :: k < |tasks| ==> IsWellTimed(tasks[k])
  {
    hide IsWellTimed, AfterTiming, Add;
    AddErrorFree();
    forall before: seq<Diagnostic>, k: nat | k < |tasks|
      ensures IsErrorFree(TimingCheck(tasks, tickHz)(before, k)) <==> IsErrorFree(before) && CleanTiming(tasks)(k)
    {
      TaskTimingErrorFree(before, tasks[k], tickHz);
    }
    FoldErrorFree(|tasks|, AfterRate(ds, tickHz), TimingCheck(tasks, tickHz), CleanTiming(tasks));
    assert forall k: nat :: k < |tasks| ==> (CleanTiming(tasks)(k) <==> IsWellTimed(tasks[k]));
  }

  ghost predicate IsStackClean(task: Task) {
    Parse(Size, task.stack).Ok? && MIN_STACK <= Parse(Size, task.stack).value
  }

  lemma TaskStackErrorFree(ds: seq<Diagnostic>, task: Task)
    ensures IsErrorFree(AfterStack(ds, task)) <==> IsErrorFree(ds) && IsStackClean(task)
    ensures IsStackClean(task) && !StackAborts(task) <==> IsWellStacked(task)
  {
    hide Parse, ToPowerOfTwo, Add, IsErrorFree;
    AddErrorFree();
  }

  ghost function CleanStack(tasks: seq<Task>): nat -> bool {
    (k: nat) => k < |tasks| ==> IsStackClean(tasks[k])
  }

  lemma {:induction false} AbortsSomewhere(tasks: seq<Task>, n: nat)
    requires n <= |tasks|
    ensures AnyStackAborts(tasks, n) <==> exists k: nat :: k < n && StackAborts(tasks[k])
  {
    hide StackAborts;
    if n != 0 {
      AbortsSomewhere(tasks, n - 1);
    }
  }

  /** Validation aborts exactly when some stack reads as more than 2^63 bytes. */
  lemma AbortsIff(m: System)
    ensures AnyStackAborts(m.tasks, |m.tasks|) <==>
            exists t :: t in m.tasks && Parse(Size, t.stack).Ok? && 0x8000_0000_0000_0000 < Parse(Size, t.stack).value
  {
    hide Parse;
    AbortsSomewhere(m.tasks, |m.tasks|);
    forall t | t in m.tasks && StackAborts(t)
      ensures AnyStackAborts(m.tasks, |m.tasks|)
    {
      var k: nat :| k < |m.tasks| && m.tasks[k] == t;
    }
  }

  /** The stack checks complete without an error exactly when every stack is valid. */
  lemma StacksErrorFree(tasks: seq<Task>, ds: seq<Diagnostic>)
    ensures IsErrorFree(Fold(|tasks|, ds, StackCheck(tasks))) && !AnyStackAborts(tasks, |tasks|) <==>
            IsErrorFree(ds) && forall k: nat :: k < |tasks| ==> IsWellStacked(tasks[k])
  {
    hide IsStackClean, IsWellStacked, StackAborts, AfterStack;
    forall before: seq<Diagnostic>, k: nat | k < |tasks|
      ensures IsErrorFree(StackCheck(tasks)(before, k)) <==> IsErrorFree(before) && CleanStack(tasks)(k)
    {
      TaskStackErrorFree(before, tasks[k]);
    }
    FoldErrorFree(|tasks|, ds, StackCheck(tasks), CleanStack(tasks));
    AbortsSomewhere(tasks, |tasks|);
    CleanStacks(tasks);
  }

  lemma CleanStacks(tasks: seq<Task>)
    ensures (forall k: nat :: k < |tasks| ==> CleanStack(tasks)(k)) &&
            !(exists k: nat :: k < |tasks| && StackAborts(tasks[k]))
            <==> forall k: nat :: k < |tasks| ==> IsWellStacked(tasks[k])
  {
    hide IsStackClean, IsWellStacked, StackAborts;
    forall k: nat | k < |tasks|
      ensures CleanStack(tasks)(k) && !StackAborts(tasks[k]) <==> IsWellStacked(tasks[k])
    {
      TaskStackErrorFree([], tasks[k]);
    }
  }

  // ------------------------------------------------------------------ channels

  lemma NamesAreTasks(m: System, name: string)
    ensures name in TaskNames(m.tasks) <==> IsTask(m, name)
  {}

  lemma OneChannelErrorFree(ds: seq<Diagnostic>, m: System, earlier: seq<Channel>, channel: Channel)
    ensures IsErrorFree(AfterChannel(ds, m.tasks, earlier, channel)) <==>
            IsErrorFree(ds) && channel.name !in ChannelNames(earlier) && IsWellConnected(m, channel)
  {
    hide Add, IsErrorFree, IsTask, TaskNames, ChannelNames, IsInversion;
    AddErrorFree();
    NamesAreTasks(m, channel.from);
    NamesAreTasks(m, channel.to);
  }

  ghost function CleanChannel(m: System): nat -> bool {
    (k: nat) =>
      k < |m.channels| ==> m.channels[k].name !in ChannelNames(m.channels[..k]) && IsWellConnected(m, m.channels[k])
  }

  lemma CleanChannels(m: System)
    ensures (forall k: nat :: k < |m.channels| ==> CleanChannel(m)(k)) <==>
            HaveDistinctChannels(m.channels) && forall k: nat :: k < |m.channels| ==> IsWellConnected(m, m.channels[k])
  {
    hide IsWellConnected;
    if forall k: nat :: k < |m.channels| ==> CleanChannel(m)(k) {
      forall j, k | 0 <= j < k < |m.channels|
        ensures m.channels[j].name != m.channels[k].name
      {
        assert CleanChannel(m)(k) && m.channels[j] in m.channels[..k];
      }
      forall k: nat | k < |m.channels|
        ensures IsWellConnected(m, m.channels[k])
      {
        assert CleanChannel(m)(k);
      }
    }
  }

  lemma ChannelsErrorFree(m: System, ds: seq<Diagnostic>)
    ensures IsErrorFree(Fold(|m.channels|, ds, ChannelCheck(m))) <==>
            IsErrorFree(ds) && HaveDistinctChannels(m.channels) &&
            forall k: nat :: k < |m.channels| ==> IsWellConnected(m, m.channels[k])
  {
    hide AfterChannel, IsWellConnected;
    forall before: seq<Diagnostic>, k: nat | k < |m.channels|
      ensures IsErrorFree(ChannelCheck(m)(before, k)) <==> IsErrorFree(before) && CleanChannel(m)(k)
    {
      OneChannelErrorFree(before, m, m.channels[..k], m.channels[k]);
    }
    FoldErrorFree(|m.channels|, ds, ChannelCheck(m), CleanChannel(m));
    CleanChannels(m);
  }

  // ------------------------------------------------------------------ capabilities

  /** The lookup finds a declared channel, and the only one of its name when names are distinct. */
  lemma {:induction false} EndpointsAreDeclared(channels: seq<Channel>, name: string)
    ensures var e := Endpoints(channels, name);
            (e.Some? ==> exists c :: c in channels && c.name == name && e.value == (c.from, c.to)) &&
            (HaveDistinctChannels(channels) ==>
               forall c :: c in channels && c.name == name ==> e == Some((c.from, c.to)))
  {
    if channels != [] {
      var init, last := channels[..|channels| - 1], channels[|channels| - 1];
      EndpointsAreDeclared(init, name);
      assert channels == init + [last];
    }
  }

  ghost predicate IsOwn(channels: seq<Channel>, task: Task, capability: string) {
    IpcChannel(capability).Some? ==>
      var e := Endpoints(channels, IpcChannel(capability).value);
      e.Some? && (e.value.0 == task.name || e.value.1 == task.name)
  }

  ghost function CleanCapability(channels: seq<Channel>, task: Task): nat -> bool {
    (k: nat) => k < |task.capabilities| ==> IsOwn(channels, task, task.capabilities[k])
  }

  lemma CapabilitiesErrorFree(channels: seq<Channel>, task: Task, ds: seq<Diagnostic>)
    ensures IsErrorFree(Fold(|task.capabilities|, ds, CapabilityCheck(channels, task))) <==>
            IsErrorFree(ds) && forall k: nat :: k < |task.capabilities| ==> IsOwn(channels, task, task.capabilities[k])
  {
    hide Add, Endpoints, IpcChannel;
    AddErrorFree();
    FoldErrorFree(|task.capabilities|, ds, CapabilityCheck(channels, task), CleanCapability(channels, task));
    assert forall k: nat :: k < |task.capabilities| ==>
        (CleanCapability(channels, task)(k) <==> IsOwn(channels, task, task.capabilities[k]));
  }

  /** With distinct channel names, the last-declaration lookup means what the manifest says. */
  lemma OwnMeansEndpoint(m: System, task: Task)
    requires HaveDistinctChannels(m.channels)
    ensures (forall k: nat :: k < |task.capabilities| ==> IsOwn(m.channels, task, task.capabilities[k])) <==>
            HoldsOnlyItsChannels(m, task)
  {
    hide HaveDistinctChannels, Endpoints;
    forall k: nat | k < |task.capabilities|
      ensures IsOwn(m.channels, task, task.capabilities[k]) <==> HoldsProperly(m, task, task.capabilities[k])
    {
      OneOwnMeansEndpoint(m, task, task.capabilities[k]);
    }
    if HoldsOnlyItsChannels(m, task) {
      forall k: nat | k < |task.capabilities|
        ensures HoldsProperly(m, task, task.capabilities[k])
      {
        var capability := task.capabilities[k];
        assert "ipc." <= capability ==> capability == "ipc." + capability[4..];
      }
    }
    if forall k: nat :: k < |task.capabilities| ==> HoldsProperly(m, task, task.capabilities[k]) {
      forall name: string | "ipc." + name in task.capabilities
        ensures exists c :: c in m.channels && c.name == name && (c.from == task.name || c.to == task.name)
      {
        var k: nat :| k < |task.capabilities| && task.capabilities[k] == "ipc." + name;
        assert HoldsProperly(m, task, task.capabilities[k]) && ("ipc." + name)[4..] == name;
      }
    }
  }

  ghost predicate HoldsProperly(m: System, task: Task, capability: string) {
    "ipc." <= capability ==>
      exists c :: c in m.channels && c.name == capability[4..] && (c.from == task.name || c.to == task.name)
  }

  lemma OneOwnMeansEndpoint(m: System, task: Task, capability: string)
    requires HaveDistinctChannels(m.channels)
    ensures IsOwn(m.channels, task, capability) <==> HoldsProperly(m, task, capability)
  {
    hide HaveDistinctChannels, Endpoints;
    if "ipc." <= capability {
      EndpointsAreDeclared(m.channels, capability[4..]);
    }
  }

  ghost predicate HoldsOwn(m: System, task: Task) {
    forall k: nat :: k < |task.capabilities| ==> IsOwn(m.channels, task, task.capabilities[k])
  }

  ghost function CleanHoldings(m: System): nat -> bool {
    (k: nat) => k < |m.tasks| ==> HoldsOwn(m, m.tasks[k])
  }

  lemma HoldingsErrorFree(m: System, ds: seq<Diagnostic>)
    ensures IsErrorFree(Fold(|m.tasks|, ds, HoldingsCheck(m))) <==>
            IsErrorFree(ds) && forall k: nat :: k < |m.tasks| ==> HoldsOwn(m, m.tasks[k])
  {
    hide IsOwn, CapabilityCheck;
    forall before: seq<Diagnostic>, k: nat | k < |m.tasks|
      ensures IsErrorFree(HoldingsCheck(m)(before, k)) <==> IsErrorFree(before) && CleanHoldings(m)(k)
    {
      CapabilitiesErrorFree(m.channels, m.tasks[k], before);
    }
    FoldErrorFree(|m.tasks|, ds, HoldingsCheck(m), CleanHoldings(m));
    assert forall k: nat :: k < |m.tasks| ==> (CleanHoldings(m)(k) <==> HoldsOwn(m, m.tasks[k]));
  }

  lemma ClaimsOnlyWarn(m: System, ds: seq<Diagnostic>)
    ensures IsErrorFree(Fold(|m.channels|, ds, ClaimCheck(m))) <==> IsErrorFree(ds)
  {
    hide Add, IsClaimed;
    AddErrorFree();
    FoldErrorFree(|m.channels|, ds, ClaimCheck(m), (k: nat) => true);
  }

  // ------------------------------------------------------------------ the whole report

  lemma {:induction false} NoErrorsCounted(ds: seq<Diagnostic>)
    ensures ErrorCount(ds) == 0 <==> IsErrorFree(ds)
  {
    if ds != [] {
      NoErrorsCounted(ds[..|ds| - 1]);
      assert ds == ds[..|ds| - 1] + [ds[|ds| - 1]];
    }
  }

  /** What the report being free of errors means, check by check. */
  lemma FindingsErrorFree(m: System, order: seq<uint8>)
    ensures IsErrorFree(Findings(m, order)) && !AnyStackAborts(m.tasks, |m.tasks|) <==>
            HaveDistinctNames(m.tasks) && (forall t :: t in m.tasks ==> t.name != "") &&
            (forall k: nat :: k < |m.tasks| ==> CleanPriority(m.tasks)(k)) &&
            ParseTickHz(m.tickRate).Some? && 0 < ParseTickHz(m.tickRate).value &&
            (forall k: nat :: k < |m.tasks| ==> IsWellTimed(m.tasks[k])) &&
            (forall k: nat :: k < |m.tasks| ==> IsWellStacked(m.tasks[k])) &&
            HaveDistinctChannels(m.channels) &&
            (forall k: nat :: k < |m.channels| ==> IsWellConnected(m, m.channels[k])) &&
            (forall k: nat :: k < |m.tasks| ==> HoldsOwn(m, m.tasks[k]))
  {
    hide IsWellTimed, IsWellStacked, IsWellConnected, HoldsOwn, ParseTickHz, AfterRate, AfterLevels, Fold;
    hide HaveDistinctNames, HaveDistinctChannels, IsErrorFree, AnyStackAborts, CleanPriority;
    var tickHz := ParseTickHz(m.tickRate);
    var ds := Fold(|m.tasks|, [], NameCheck(m.tasks));
    NothingYet();
    NamesErrorFree(m.tasks, []);
    PrioritiesErrorFree(m.tasks, ds);
    ds := Fold(|m.tasks|, ds, PriorityCheck(m.tasks));
    LevelsErrorFree(ds, m.tasks, order);
    ds := AfterLevels(ds, m.tasks, order);
    TimingErrorFree(m.tasks, ds, tickHz);
    ds := Fold(|m.tasks|, AfterRate(ds, tickHz), TimingCheck(m.tasks, tickHz));
    StacksErrorFree(m.tasks, ds);
    ds := Fold(|m.tasks|, ds, StackCheck(m.tasks));
    ChannelsErrorFree(m, ds);
    ds := Fold(|m.channels|, ds, ChannelCheck(m));
    HoldingsErrorFree(m, ds);
    ClaimsOnlyWarn(m, Fold(|m.tasks|, ds, HoldingsCheck(m)));
  }

  lemma NothingYet()
    ensures IsErrorFree([])
  {}

  lemma PrioritiesClean(tasks: seq<Task>)
    ensures (forall k: nat :: k < |tasks| ==> CleanPriority(tasks)(k)) <==>
            forall t :: t in tasks ==> 1 <= t.priority <= 31
  {
    if forall k: nat :: k < |tasks| ==> CleanPriority(tasks)(k) {
      forall t | t in tasks
        ensures 1 <= t.priority <= 31
      {
        var k :| 0 <= k < |tasks| && tasks[k] == t;
        assert CleanPriority(tasks)(k);
      }
    }
  }

  /** The validator completes without an error exactly on well-formed manifests, whichever order
      it visits the priority levels in. */
  lemma NoErrorsMeansWellFormed(m: System, order: seq<uint8>)
    ensures !AnyStackAborts(m.tasks, |m.tasks|) && ErrorCount(Findings(m, order)) == 0 <==> IsWellFormed(m)
  {
    hide IsWellTimed, IsWellStacked, IsWellConnected, HoldsOwn, HoldsOnlyItsChannels, ParseTickHz, Findings;
    hide HaveDistinctNames, HaveDistinctChannels, IsErrorFree, AnyStackAborts, CleanPriority;
    NoErrorsCounted(Findings(m, order));
    FindingsErrorFree(m, order);
    PrioritiesClean(m.tasks);
    if HaveDistinctChannels(m.channels) {
      forall t | t in m.tasks
        ensures HoldsOwn(m, t) <==> HoldsOnlyItsChannels(m, t)
      {
        OwnMeansHolds(m, t);
      }
    }
  }

  lemma OwnMeansHolds(m: System, task: Task)
    requires HaveDistinctChannels(m.channels)
    ensures HoldsOwn(m, task) <==> HoldsOnlyItsChannels(m, task)
  {
    OwnMeansEndpoint(m, task);
  }
}
