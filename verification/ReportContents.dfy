/** What a report contains: every finding, with its severity, code and subject, is there exactly when
    the manifest deserves it. Each condition is spelled out on the manifest itself. */
module ReportContents {
  import opened Words
  import opened Units
  import opened Manifest

  lemma AddHas(d: Diagnostic)
    ensures forall ds: seq<Diagnostic>, found: bool, severity: Severity, code: nat, location: string
              {:trigger Add(ds, found, severity, code, location)} ::
              d in Add(ds, found, severity, code, location)
              <==> d in ds || (found && d == Diagnostic(severity, code, location))
  {}

  /** The check of element `k` adds the finding exactly when `found(k)`. */
  ghost predicate IsAddedBy(
      n: nat, check: (seq<Diagnostic>, nat) -> seq<Diagnostic>, d: Diagnostic, found: nat -> bool)
  {
    forall ds: seq<Diagnostic>, k: nat :: k < n ==> (d in check(ds, k) <==> d in ds || found(k))
  }

  lemma {:induction false} FoldHas(
      n: nat, ds: seq<Diagnostic>, check: (seq<Diagnostic>, nat) -> seq<Diagnostic>, d: Diagnostic, found: nat -> bool)
    requires IsAddedBy(n, check, d, found)
    ensures d in Fold(n, ds, check) <==> d in ds || exists k: nat :: k < n && found(k)
  {
    if n != 0 {
      FoldHas(n - 1, ds, check, d, found);
    }
  }

  // ------------------------------------------------------------------ names and priorities

  ghost predicate DeservesName(tasks: seq<Task>, k: nat, d: Diagnostic)
    requires k < |tasks|
  {
    (d == Diagnostic(Error, 1, tasks[k].name) && exists j: nat :: j < k && tasks[j].name == tasks[k].name) ||
    (d == Diagnostic(Error, 2, "[[task]]") && tasks[k].name == "")
  }

  ghost function NameDeserved(tasks: seq<Task>, d: Diagnostic): nat -> bool {
    (k: nat) => k < |tasks| && DeservesName(tasks, k, d)
  }

  lemma NamesHave(tasks: seq<Task>, ds: seq<Diagnostic>, d: Diagnostic)
    ensures d in Fold(|tasks|, ds, NameCheck(tasks)) <==>
            d in ds || exists k: nat :: k < |tasks| && DeservesName(tasks, k, d)
  {
    hide Add, TaskNames;
    forall before: seq<Diagnostic>, k: nat | k < |tasks|
      ensures d in NameCheck(tasks)(before, k) <==> d in before || NameDeserved(tasks, d)(k)
    {
      AddHas(d);
      EarlierNames(tasks, k);
    }
    FoldHas(|tasks|, ds, NameCheck(tasks), d, NameDeserved(tasks, d));
    assert forall k: nat :: NameDeserved(tasks, d)(k) <==> k < |tasks| && DeservesName(tasks, k, d);
  }

  lemma EarlierNames(tasks: seq<Task>, k: nat)
    requires k < |tasks|
    ensures tasks[k].name in TaskNames(tasks[..k]) <==> exists j: nat :: j < k && tasks[j].name == tasks[k].name
  {
    if j: nat :| j < k && tasks[j].name == tasks[k].name {
      assert tasks[j] in tasks[..k];
    }
  }

  ghost predicate DeservesPriority(tasks: seq<Task>, k: nat, d: Diagnostic)
    requires k < |tasks|
  {
    (d == Diagnostic(Error, 3, tasks[k].name) && 31 < tasks[k].priority) ||
    (d == Diagnostic(Error, 4, tasks[k].name) && tasks[k].priority == 0)
  }

  ghost function PriorityDeserved(tasks: seq<Task>, d: Diagnostic): nat -> bool {
    (k: nat) => k < |tasks| && DeservesPriority(tasks, k, d)
  }

  lemma PrioritiesHave(tasks: seq<Task>, ds: seq<Diagnostic>, d: Diagnostic)
    ensures d in Fold(|tasks|, ds, PriorityCheck(tasks)) <==>
            d in ds || exists k: nat :: k < |tasks| && DeservesPriority(tasks, k, d)
  {
    hide Add;
    AddHas(d);
    FoldHas(|tasks|, ds, PriorityCheck(tasks), d, PriorityDeserved(tasks, d));
    assert forall k: nat :: PriorityDeserved(tasks, d)(k) <==> k < |tasks| && DeservesPriority(tasks, k, d);
  }

  /** More than one task with a deadline on the level; the subject is their names. */
  ghost predicate DeservesLevel(tasks: seq<Task>, p: uint8, d: Diagnostic) {
    |Sharing(tasks, p)| > 1 && d == Diagnostic(Warning, 5, Join(Sharing(tasks, p)))
  }

  lemma {:induction false} LevelsHave(tasks: seq<Task>, order: seq<uint8>, ds: seq<Diagnostic>, d: Diagnostic)
    ensures d in AfterLevels(ds, tasks, order) <==>
            d in ds || exists p: uint8 :: p in order && DeservesLevel(tasks, p, d)
  {
    hide Add, Sharing, Join;
    if order != [] {
      var before, last := order[..|order| - 1], order[|order| - 1];
      AddHas(d);
      LevelsHave(tasks, before, ds, d);
      assert order == before + [last];
      assert (exists p: uint8 :: p in order && DeservesLevel(tasks, p, d)) <==>
             (exists p: uint8 :: p in before && DeservesLevel(tasks, p, d)) || DeservesLevel(tasks, last, d);
    }
  }

  /** `at` lists, in declaration order, exactly the tasks with a deadline on the level, and `names`
      are theirs. */
  ghost predicate ListsSharers(tasks: seq<Task>, p: uint8, at: seq<nat>, names: seq<string>) {
    |names| == |at| &&
    (forall i :: 0 <= i < |at| ==> IsSharer(tasks, p, at[i]) && names[i] == tasks[at[i]].name) &&
    (forall i, j :: 0 <= i < j < |at| ==> at[i] < at[j]) &&
    (forall k: nat :: IsSharer(tasks, p, k) ==> k in at)
  }

  ghost predicate IsSharer(tasks: seq<Task>, p: uint8, k: nat) {
    k < |tasks| && tasks[k].deadline.Some? && tasks[k].priority == p
  }

  lemma {:induction false} SharingIsListed(tasks: seq<Task>, p: uint8) returns (at: seq<nat>)
    ensures ListsSharers(tasks, p, at, Sharing(tasks, p))
  {
    at := [];
    if tasks != [] {
      var n := |tasks| - 1;
      at := SharingIsListed(tasks[..n], p);
      MoreTasksSameSharers(tasks, p, at, Sharing(tasks[..n], p));
      if IsSharer(tasks, p, n) {
        at := at + [n];
      }
    }
  }

  lemma MoreTasksSameSharers(tasks: seq<Task>, p: uint8, at: seq<nat>, names: seq<string>)
    requires tasks != [] && ListsSharers(tasks[..|tasks| - 1], p, at, names)
    ensures var n := |tasks| - 1;
            if IsSharer(tasks, p, n) then ListsSharers(tasks, p, at + [n], names + [tasks[n].name])
            else ListsSharers(tasks, p, at, names)
  {
    var n := |tasks| - 1;
    assert forall k: nat :: k < n ==> (IsSharer(tasks[..n], p, k) <==> IsSharer(tasks, p, k));
    forall k: nat | IsSharer(tasks, p, k)
      ensures k == n || k in at
    {
      assert k != n ==> IsSharer(tasks[..n], p, k);
    }
  }

  /** Names are separated by a comma and a blank. */
  lemma {:induction false} JoinConcat(a: seq<string>, b: seq<string>)
    requires a != [] && b != []
    ensures Join(a + b) == Join(a) + ", " + Join(b)
  {
    var n := |b| - 1;
    assert (a + b)[..|a + b| - 1] == a + b[..n];
    if n == 0 {
      assert a + b[..n] == a;
    } else {
      JoinConcat(a, b[..n]);
    }
  }

  // ------------------------------------------------------------------ timing

  ghost predicate DeservesRate(tickRate: string, d: Diagnostic) {
    (d == Diagnostic(Error, 24, "[system]") && ParseTickHz(tickRate) == None) ||
    (d == Diagnostic(Error, 25, "[system]") && ParseTickHz(tickRate) == Some(0))
  }

  /** A declared duration that reads as `n` nanoseconds. */
  ghost predicate ReadsAs(text: Option<string>, n: uint64) {
    text.Some? && Parse(Time, text.value) == Ok(n)
  }

  ghost predicate IsUnreadable(text: Option<string>) {
    text.Some? && Parse(Time, text.value).Err?
  }

  ghost predicate DeservesTiming(tickRate: string, task: Task, d: Diagnostic) {
    (d == Diagnostic(Error, 23, task.name) &&
       (IsUnreadable(task.period) || IsUnreadable(task.deadline) || IsUnreadable(task.wcet))) ||
    (d == Diagnostic(Error, 26, task.name) && ReadsAs(task.period, 0)) ||
    (d == Diagnostic(Error, 6, task.name) &&
       exists period: uint64, deadline: uint64 ::
         ReadsAs(task.period, period) && ReadsAs(task.deadline, deadline) && 0 < period < deadline) ||
    (d == Diagnostic(Error, 7, task.name) &&
       exists deadline: uint64, wcet: uint64 ::
         ReadsAs(task.deadline, deadline) && ReadsAs(task.wcet, wcet) && deadline < wcet) ||
    (d == Diagnostic(Warning, 8, task.name) && task.deadline.Some? && task.wcet.None?) ||
    (d == Diagnostic(Warning, 9, task.name) &&
       exists period: uint64, hz: uint64 ::
         ReadsAs(task.period, period) && 0 < period && IsOffTick(tickRate, period, hz))
  }

  /** At the declared rate a tick is shorter than a nanosecond, or the period is no multiple of the
      whole nanoseconds in a tick. */
  ghost predicate IsOffTick(tickRate: string, period: uint64, hz: uint64) {
    ParseTickHz(tickRate) == Some(hz) && 0 < hz && (1_000_000_000 < hz || period % (1_000_000_000 / hz) != 0)
  }

  lemma ReadsAsNanos(text: Option<string>)
    ensures IsUnreadable(text) <==> !IsReadable(text)
    ensures forall n: uint64 :: ReadsAs(text, n) <==> Nanos(text) == Some(n)
  {
    hide Parse;
  }

  lemma OffTickIsMisaligned(tickRate: string, period: uint64)
    ensures (exists hz: uint64 :: IsOffTick(tickRate, period, hz)) <==>
            IsMisaligned(Some(period), ParseTickHz(tickRate))
  {
    hide ParseTickHz;
    var tickHz := ParseTickHz(tickRate);
    if tickHz.Some? && 0 < tickHz.value {
      assert IsOffTick(tickRate, period, tickHz.value) <==> IsMisaligned(Some(period), tickHz);
    }
  }

  lemma OneTimingHas(ds: seq<Diagnostic>, task: Task, tickRate: string, d: Diagnostic)
    ensures d in AfterTiming(ds, task, ParseTickHz(tickRate)) <==> d in ds || DeservesTiming(tickRate, task, d)
  {
    hide Add, Nanos, IsReadable, IsMisaligned, ParseTickHz, ReadsAs, IsUnreadable, IsOffTick;
    AddHas(d);
    ReadsAsNanos(task.period);
    ReadsAsNanos(task.deadline);
    ReadsAsNanos(task.wcet);
    if UsablePeriod(task).Some? {
      OffTickIsMisaligned(tickRate, UsablePeriod(task).value);
    }
    NoPeriodIsAligned(ParseTickHz(tickRate));
  }

  lemma NoPeriodIsAligned(tickHz: Option<uint64>)
    ensures !IsMisaligned(None, tickHz)
  {}

  ghost function TimingDeserved(tasks: seq<Task>, tickRate: string, d: Diagnostic): nat -> bool {
    (k: nat) => k < |tasks| && DeservesTiming(tickRate, tasks[k], d)
  }

  lemma TimingHas(tasks: seq<Task>, tickRate: string, ds: seq<Diagnostic>, d: Diagnostic)
    ensures var tickHz := ParseTickHz(tickRate);
            d in Fold(|tasks|, AfterRate(ds, tickHz), TimingCheck(tasks, tickHz)) <==>
            d in ds || DeservesRate(tickRate, d) ||
            exists k: nat :: k < |tasks| && DeservesTiming(tickRate, tasks[k], d)
  {
    hide Add, AfterTiming, DeservesTiming, ParseTickHz;
    var tickHz := ParseTickHz(tickRate);
    AddHas(d);
    forall before: seq<Diagnostic>, k: nat | k < |tasks|
      ensures d in TimingCheck(tasks, tickHz)(before, k) <==> d in before || TimingDeserved(tasks, tickRate, d)(k)
    {
      OneTimingHas(before, tasks[k], tickRate, d);
    }
    FoldHas(|tasks|, AfterRate(ds, tickHz), TimingCheck(tasks, tickHz), d, TimingDeserved(tasks, tickRate, d));
    assert forall k: nat :: TimingDeserved(tasks, tickRate, d)(k)
                            <==> k < |tasks| && DeservesTiming(tickRate, tasks[k], d);
  }

  // ------------------------------------------------------------------ stacks

  ghost predicate IsPowerOfTwo(n: nat) {
    exists e: nat :: n == Pow2(e)
  }

  /** Padding changes every size that is not a power of two, and no other. */
  lemma PaddedIff(n: uint64)
    ensures ToPowerOfTwo(n) == Some(n) <==> IsPowerOfTwo(n)
  {
    hide PowerFrom, Pow2;
    if ToPowerOfTwo(n).Some? {
      PaddingIsLeast(n);
    }
    if e: nat :| n == Pow2(e) {
      PowerFits(e);
      Pow2Mono(e, 63);
      TopPower();
      var power := ToPowerOfTwo(n).value;
      var least: nat :| power == Pow2(least) && n <= power && forall d: nat :: d < least ==> Pow2(d) < n;
      if least <= e {
        Pow2Mono(least, e);
      }
    }
  }

  lemma PowerFits(e: nat)
    requires Pow2(e) <= U64_MAX
    ensures e <= 63
  {
    hide Pow2;
    if 64 <= e {
      Pow2Mono(64, e);
      TopPower();
      NextPower();
    }
  }

  lemma NextPower()
    ensures Pow2(64) == 2 * Pow2(63)
  {}

  ghost predicate DeservesStack(task: Task, d: Diagnostic) {
    var size := Parse(Size, task.stack);
    (d == Diagnostic(Error, 10, task.name) && size.Err?) ||
    (d == Diagnostic(Error, 11, task.name) && size.Ok? && size.value < 256) ||
    (d == Diagnostic(Warning, 12, task.name) && size.Ok? && !IsPowerOfTwo(size.value))
  }

  ghost function StackDeserved(tasks: seq<Task>, d: Diagnostic): nat -> bool {
    (k: nat) => k < |tasks| && DeservesStack(tasks[k], d)
  }

  lemma StacksHave(tasks: seq<Task>, ds: seq<Diagnostic>, d: Diagnostic)
    ensures d in Fold(|tasks|, ds, StackCheck(tasks)) <==>
            d in ds || exists k: nat :: k < |tasks| && DeservesStack(tasks[k], d)
  {
    hide Add, Parse, ToPowerOfTwo, IsPowerOfTwo;
    forall before: seq<Diagnostic>, k: nat | k < |tasks|
      ensures d in StackCheck(tasks)(before, k) <==> d in before || StackDeserved(tasks, d)(k)
    {
      AddHas(d);
      if Parse(Size, tasks[k].stack).Ok? {
        PaddedIff(Parse(Size, tasks[k].stack).value);
      }
    }
    FoldHas(|tasks|, ds, StackCheck(tasks), d, StackDeserved(tasks, d));
    assert forall k: nat :: StackDeserved(tasks, d)(k) <==> k < |tasks| && DeservesStack(tasks[k], d);
  }

  // ------------------------------------------------------------------ channels

  ghost predicate IsFirstNamed(tasks: seq<Task>, name: string, i: nat) {
    i < |tasks| && tasks[i].name == name && forall j: nat :: j < i ==> tasks[j].name != name
  }

  lemma {:induction false} FindTaskIsFirst(tasks: seq<Task>, name: string)
    ensures forall i: nat :: IsFirstNamed(tasks, name, i) ==> FindTask(tasks, name) == Some(tasks[i])
    ensures FindTask(tasks, name).Some? ==> exists i: nat :: IsFirstNamed(tasks, name, i)
  {
    if tasks == [] {
    } else if tasks[0].name == name {
      assert IsFirstNamed(tasks, name, 0);
    } else {
      FindTaskIsFirst(tasks[1..], name);
      forall i: nat
        ensures IsFirstNamed(tasks, name, i + 1) <==> IsFirstNamed(tasks[1..], name, i)
      {
        assert forall j: nat :: 0 < j <= i + 1 && j < |tasks| ==> tasks[j] == tasks[1..][j - 1];
      }
      forall i: nat | IsFirstNamed(tasks, name, i)
        ensures FindTask(tasks, name) == Some(tasks[i])
      {
        assert IsFirstNamed(tasks[1..], name, i - 1);
      }
      if i: nat :| IsFirstNamed(tasks[1..], name, i) {
        assert IsFirstNamed(tasks, name, i + 1);
      }
    }
  }

  /** An urgent sender may wait for a less urgent receiver. */
  ghost predicate Inverts(tasks: seq<Task>, c: Channel) {
    c.overflow == "block" &&
    exists i: nat, j: nat ::
      IsFirstNamed(tasks, c.from, i) && IsFirstNamed(tasks, c.to, j) && tasks[i].priority > tasks[j].priority
  }

  lemma InvertsIff(tasks: seq<Task>, c: Channel)
    ensures IsInversion(tasks, c) <==> Inverts(tasks, c)
  {
    hide IsFirstNamed;
    FindTaskIsFirst(tasks, c.from);
    FindTaskIsFirst(tasks, c.to);
  }

  ghost predicate DeservesChannel(m: System, k: nat, d: Diagnostic)
    requires k < |m.channels|
  {
    var c := m.channels[k];
    (d == Diagnostic(Error, 13, c.name) && exists j: nat :: j < k && m.channels[j].name == c.name) ||
    (d == Diagnostic(Error, 14, c.name) && (!IsTask(m, c.from) || !IsTask(m, c.to))) ||
    (d == Diagnostic(Error, 15, c.name) && c.from == c.to) ||
    (d == Diagnostic(Error, 16, c.name) && c.capacity == 0) ||
    (d == Diagnostic(Error, 17, c.name) && c.overflow != "block" && c.overflow != "reject" &&
       c.overflow != "drop-oldest" && c.overflow != "drop-newest") ||
    (d == Diagnostic(Warning, 18, c.name) && Inverts(m.tasks, c))
  }

  lemma EarlierChannels(channels: seq<Channel>, k: nat)
    requires k < |channels|
    ensures channels[k].name in ChannelNames(channels[..k]) <==>
            exists j: nat :: j < k && channels[j].name == channels[k].name
  {
    if j: nat :| j < k && channels[j].name == channels[k].name {
      assert channels[j] in channels[..k];
    }
  }

  lemma NamedIffTask(m: System, name: string)
    ensures name in TaskNames(m.tasks) <==> IsTask(m, name)
  {}

  lemma OneChannelHas(ds: seq<Diagnostic>, m: System, k: nat, d: Diagnostic)
    requires k < |m.channels|
    ensures d in AfterChannel(ds, m.tasks, m.channels[..k], m.channels[k]) <==> d in ds || DeservesChannel(m, k, d)
  {
    hide Add, TaskNames, ChannelNames, IsInversion, Inverts, IsTask;
    var c := m.channels[k];
    AddHas(d);
    EarlierChannels(m.channels, k);
    NamedIffTask(m, c.from);
    NamedIffTask(m, c.to);
    InvertsIff(m.tasks, c);
  }

  ghost function ChannelDeserved(m: System, d: Diagnostic): nat -> bool {
    (k: nat) => k < |m.channels| && DeservesChannel(m, k, d)
  }

  lemma ChannelsHave(m: System, ds: seq<Diagnostic>, d: Diagnostic)
    ensures d in Fold(|m.channels|, ds, ChannelCheck(m)) <==>
            d in ds || exists k: nat :: k < |m.channels| && DeservesChannel(m, k, d)
  {
    hide AfterChannel, DeservesChannel;
    forall before: seq<Diagnostic>, k: nat | k < |m.channels|
      ensures d in ChannelCheck(m)(before, k) <==> d in before || ChannelDeserved(m, d)(k)
    {
      OneChannelHas(before, m, k, d);
    }
    FoldHas(|m.channels|, ds, ChannelCheck(m), d, ChannelDeserved(m, d));
    assert forall k: nat :: ChannelDeserved(m, d)(k) <==> k < |m.channels| && DeservesChannel(m, k, d);
  }

  // ------------------------------------------------------------------ capabilities

  ghost predicate IsLastNamed(channels: seq<Channel>, name: string, i: nat) {
    i < |channels| && channels[i].name == name && forall j: nat :: i < j < |channels| ==> channels[j].name != name
  }

  lemma {:induction false} EndpointsAreLast(channels: seq<Channel>, name: string)
    ensures forall i: nat :: IsLastNamed(channels, name, i) ==>
              Endpoints(channels, name) == Some((channels[i].from, channels[i].to))
    ensures Endpoints(channels, name).Some? ==> exists i: nat :: IsLastNamed(channels, name, i)
    ensures Endpoints(channels, name).None? <==> forall c :: c in channels ==> c.name != name
  {
    if channels != [] {
      var n := |channels| - 1;
      EndpointsAreLast(channels[..n], name);
      assert channels == channels[..n] + [channels[n]];
      if channels[n].name == name {
        assert IsLastNamed(channels, name, n);
      } else {
        assert forall i: nat :: IsLastNamed(channels[..n], name, i) <==> IsLastNamed(channels, name, i);
      }
    }
  }

  ghost predicate DeservesCapability(channels: seq<Channel>, task: Task, i: nat, d: Diagnostic)
    requires i < |task.capabilities|
  {
    var capability := task.capabilities[i];
    (d == Diagnostic(Warning, 19, task.name) && exists j: nat :: j < i && task.capabilities[j] == capability) ||
    (d == Diagnostic(Error, 20, task.name) &&
       exists name: string :: capability == "ipc." + name && forall c :: c in channels ==> c.name != name) ||
    (d == Diagnostic(Error, 21, task.name) &&
       exists name: string, j: nat ::
         capability == "ipc." + name && IsLastNamed(channels, name, j) &&
         channels[j].from != task.name && channels[j].to != task.name)
  }

  lemma IpcNames(capability: string, name: string)
    ensures capability == "ipc." + name <==> IpcChannel(capability) == Some(name)
  {
    if "ipc." <= capability {
      assert capability == "ipc." + capability[4..];
    }
    assert ("ipc." + name)[4..] == name;
  }

  lemma IpcFindings(channels: seq<Channel>, task: Task, capability: string, name: string)
    requires capability == "ipc." + name
    ensures Endpoints(channels, name).None? <==>
            exists n: string :: capability == "ipc." + n && forall c :: c in channels ==> c.name != n
    ensures Endpoints(channels, name).Some? &&
            Endpoints(channels, name).value.0 != task.name && Endpoints(channels, name).value.1 != task.name <==>
            exists n: string, j: nat ::
              capability == "ipc." + n && IsLastNamed(channels, n, j) &&
              channels[j].from != task.name && channels[j].to != task.name
  {
    hide Endpoints, IsLastNamed;
    EndpointsAreLast(channels, name);
    forall n: string | capability == "ipc." + n
      ensures n == name
    {
      IpcNames(capability, n);
      IpcNames(capability, name);
    }
  }

  lemma OneCapabilityHas(ds: seq<Diagnostic>, channels: seq<Channel>, task: Task, i: nat, d: Diagnostic)
    requires i < |task.capabilities|
    ensures d in AfterCapability(ds, channels, task, i) <==> d in ds || DeservesCapability(channels, task, i, d)
  {
    hide Add, Endpoints, IpcChannel, IsLastNamed;
    var capability := task.capabilities[i];
    AddHas(d);
    assert capability in task.capabilities[..i] <==> exists j: nat :: j < i && task.capabilities[j] == capability;
    if IpcChannel(capability).Some? {
      IpcNames(capability, IpcChannel(capability).value);
      IpcFindings(channels, task, capability, IpcChannel(capability).value);
    } else {
      forall name: string
        ensures capability != "ipc." + name
      {
        IpcNames(capability, name);
      }
    }
  }

  ghost function CapabilityDeserved(channels: seq<Channel>, task: Task, d: Diagnostic): nat -> bool {
    (i: nat) => i < |task.capabilities| && DeservesCapability(channels, task, i, d)
  }

  ghost predicate DeservesHolding(channels: seq<Channel>, task: Task, d: Diagnostic) {
    exists i: nat :: i < |task.capabilities| && DeservesCapability(channels, task, i, d)
  }

  lemma CapabilitiesHave(channels: seq<Channel>, task: Task, ds: seq<Diagnostic>, d: Diagnostic)
    ensures d in Fold(|task.capabilities|, ds, CapabilityCheck(channels, task)) <==>
            d in ds || DeservesHolding(channels, task, d)
  {
    hide AfterCapability, DeservesCapability;
    forall before: seq<Diagnostic>, i: nat | i < |task.capabilities|
      ensures d in CapabilityCheck(channels, task)(before, i) <==>
              d in before || CapabilityDeserved(channels, task, d)(i)
    {
      OneCapabilityHas(before, channels, task, i, d);
    }
    FoldHas(|task.capabilities|, ds, CapabilityCheck(channels, task), d, CapabilityDeserved(channels, task, d));
    assert forall i: nat :: CapabilityDeserved(channels, task, d)(i)
                            <==> i < |task.capabilities| && DeservesCapability(channels, task, i, d);
  }

  ghost function HoldingDeserved(m: System, d: Diagnostic): nat -> bool {
    (k: nat) => k < |m.tasks| && DeservesHolding(m.channels, m.tasks[k], d)
  }

  lemma HoldingsHave(m: System, ds: seq<Diagnostic>, d: Diagnostic)
    ensures d in Fold(|m.tasks|, ds, HoldingsCheck(m)) <==>
            d in ds || exists k: nat :: k < |m.tasks| && DeservesHolding(m.channels, m.tasks[k], d)
  {
    hide CapabilityCheck, DeservesHolding;
    forall before: seq<Diagnostic>, k: nat | k < |m.tasks|
      ensures d in HoldingsCheck(m)(before, k) <==> d in before || HoldingDeserved(m, d)(k)
    {
      CapabilitiesHave(m.channels, m.tasks[k], before, d);
    }
    FoldHas(|m.tasks|, ds, HoldingsCheck(m), d, HoldingDeserved(m, d));
    assert forall k: nat :: HoldingDeserved(m, d)(k) <==> k < |m.tasks| && DeservesHolding(m.channels, m.tasks[k], d);
  }

  /** Neither endpoint of the channel holds its capability. */
  ghost predicate IsUnclaimed(tasks: seq<Task>, c: Channel) {
    forall k: nat :: k < |tasks| && "ipc." + c.name in tasks[k].capabilities ==>
      tasks[k].name != c.from && tasks[k].name != c.to
  }

  ghost predicate DeservesClaim(tasks: seq<Task>, c: Channel, d: Diagnostic) {
    d == Diagnostic(Warning, 22, c.name) && IsUnclaimed(tasks, c)
  }

  lemma UnclaimedIff(tasks: seq<Task>, c: Channel)
    ensures IsUnclaimed(tasks, c) <==> !IsClaimed(tasks, c)
  {
    if IsClaimed(tasks, c) {
      var t :| t in tasks && (t.name == c.from || t.name == c.to) && "ipc." + c.name in t.capabilities;
      var k: nat :| k < |tasks| && tasks[k] == t;
      assert "ipc." + c.name in tasks[k].capabilities;
    }
  }

  ghost function ClaimDeserved(m: System, d: Diagnostic): nat -> bool {
    (k: nat) => k < |m.channels| && DeservesClaim(m.tasks, m.channels[k], d)
  }

  lemma ClaimsHave(m: System, ds: seq<Diagnostic>, d: Diagnostic)
    ensures d in Fold(|m.channels|, ds, ClaimCheck(m)) <==>
            d in ds || exists k: nat :: k < |m.channels| && DeservesClaim(m.tasks, m.channels[k], d)
  {
    hide Add, IsClaimed, IsUnclaimed;
    forall before: seq<Diagnostic>, k: nat | k < |m.channels|
      ensures d in ClaimCheck(m)(before, k) <==> d in before || ClaimDeserved(m, d)(k)
    {
      AddHas(d);
      UnclaimedIff(m.tasks, m.channels[k]);
    }
    FoldHas(|m.channels|, ds, ClaimCheck(m), d, ClaimDeserved(m, d));
    assert forall k: nat :: ClaimDeserved(m, d)(k) <==> k < |m.channels| && DeservesClaim(m.tasks, m.channels[k], d);
  }

  // ------------------------------------------------------------------ the whole report

  ghost predicate Deserves(m: System, order: seq<uint8>, d: Diagnostic) {
    (exists k: nat :: k < |m.tasks| && DeservesName(m.tasks, k, d)) ||
    (exists k: nat :: k < |m.tasks| && DeservesPriority(m.tasks, k, d)) ||
    (exists p: uint8 :: p in order && DeservesLevel(m.tasks, p, d)) ||
    DeservesRate(m.tickRate, d) ||
    (exists k: nat :: k < |m.tasks| && DeservesTiming(m.tickRate, m.tasks[k], d)) ||
    (exists k: nat :: k < |m.tasks| && DeservesStack(m.tasks[k], d)) ||
    (exists k: nat :: k < |m.channels| && DeservesChannel(m, k, d)) ||
    (exists k: nat :: k < |m.tasks| && DeservesHolding(m.channels, m.tasks[k], d)) ||
    (exists k: nat :: k < |m.channels| && DeservesClaim(m.tasks, m.channels[k], d))
  }

  /** Nothing is missed, nothing is made up, and every finding has its severity, code and subject. */
  lemma ReportIsDeserved(m: System, order: seq<uint8>, d: Diagnostic)
    ensures d in Findings(m, order) <==> Deserves(m, order, d)
  {
    hide Fold, AfterLevels, AfterRate, ParseTickHz, DeservesName, DeservesPriority, DeservesLevel, DeservesRate,
      DeservesTiming, DeservesStack, DeservesChannel, DeservesHolding, DeservesClaim;
    var tickHz := ParseTickHz(m.tickRate);
    var ds := Fold(|m.tasks|, [], NameCheck(m.tasks));
    NamesHave(m.tasks, [], d);
    PrioritiesHave(m.tasks, ds, d);
    ds := Fold(|m.tasks|, ds, PriorityCheck(m.tasks));
    LevelsHave(m.tasks, order, ds, d);
    ds := AfterLevels(ds, m.tasks, order);
    TimingHas(m.tasks, m.tickRate, ds, d);
    ds := Fold(|m.tasks|, AfterRate(ds, tickHz), TimingCheck(m.tasks, tickHz));
    StacksHave(m.tasks, ds, d);
    ds := Fold(|m.tasks|, ds, StackCheck(m.tasks));
    ChannelsHave(m, ds, d);
    ds := Fold(|m.channels|, ds, ChannelCheck(m));
    HoldingsHave(m, ds, d);
    ClaimsHave(m, Fold(|m.tasks|, ds, HoldingsCheck(m)), d);
  }

  // ------------------------------------------------------------------ single codes

  ghost predicate HasCode(ds: seq<Diagnostic>, code: nat) {
    exists d :: d in ds && d.code == code
  }

  /** Which check a code belongs to. */
  lemma CheckOfCode(m: System, order: seq<uint8>, d: Diagnostic)
    requires Deserves(m, order, d)
    ensures d.code == 5 ==> exists p: uint8 :: p in order && DeservesLevel(m.tasks, p, d)
    ensures 6 <= d.code <= 9 ==> exists k: nat :: k < |m.tasks| && DeservesTiming(m.tickRate, m.tasks[k], d)
    ensures 13 <= d.code <= 18 ==> exists k: nat :: k < |m.channels| && DeservesChannel(m, k, d)
    ensures d.code == 22 ==> exists k: nat :: k < |m.channels| && DeservesClaim(m.tasks, m.channels[k], d)
  {
    hide Parse, ParseTickHz, IsTask, Inverts, Sharing, Join, IsOffTick, IsPowerOfTwo, IsUnclaimed, IsLastNamed;
  }

  /** A policy is reported exactly when it is none of the four. */
  lemma InvalidPolicyReportedIff(m: System, order: seq<uint8>)
    ensures HasCode(Findings(m, order), 17) <==>
            exists c :: c in m.channels && c.overflow !in ["block", "reject", "drop-oldest", "drop-newest"]
  {
    hide Findings, Deserves;
    if d :| d in Findings(m, order) && d.code == 17 {
      ReportIsDeserved(m, order, d);
      CheckOfCode(m, order, d);
      var k: nat :| k < |m.channels| && DeservesChannel(m, k, d);
      PolicyIsListed(m.channels[k].overflow);
      assert m.channels[k] in m.channels;
    }
    forall c | c in m.channels && c.overflow !in ["block", "reject", "drop-oldest", "drop-newest"]
      ensures HasCode(Findings(m, order), 17)
    {
      var k: nat :| k < |m.channels| && m.channels[k] == c;
      PolicyIsListed(c.overflow);
      ChannelFindingIsThere(m, order, k, Diagnostic(Error, 17, c.name));
    }
  }

  lemma PolicyIsListed(policy: string)
    ensures policy in ["block", "reject", "drop-oldest", "drop-newest"] <==>
            policy == "block" || policy == "reject" || policy == "drop-oldest" || policy == "drop-newest"
  {
    var policies := ["block", "reject", "drop-oldest", "drop-newest"];
    assert policies[0] in policies && policies[1] in policies && policies[2] in policies && policies[3] in policies;
  }

  lemma ChannelFindingIsThere(m: System, order: seq<uint8>, k: nat, d: Diagnostic)
    requires k < |m.channels| && DeservesChannel(m, k, d)
    ensures HasCode(Findings(m, order), d.code)
  {
    hide Findings, DeservesChannel;
    ReportIsDeserved(m, order, d);
  }

  /** Inversion is reported exactly when a blocking channel leads from the first task of one name to
      the first task of another that is less urgent. */
  lemma InversionReportedIff(m: System, order: seq<uint8>)
    ensures HasCode(Findings(m, order), 18) <==>
            exists k: nat, i: nat, j: nat ::
              k < |m.channels| && m.channels[k].overflow == "block" &&
              IsFirstNamed(m.tasks, m.channels[k].from, i) && IsFirstNamed(m.tasks, m.channels[k].to, j) &&
              m.tasks[i].priority > m.tasks[j].priority
  {
    hide Findings, Deserves, IsFirstNamed;
    if d :| d in Findings(m, order) && d.code == 18 {
      ReportIsDeserved(m, order, d);
      CheckOfCode(m, order, d);
    }
    forall k: nat | k < |m.channels| && Inverts(m.tasks, m.channels[k])
      ensures HasCode(Findings(m, order), 18)
    {
      ChannelFindingIsThere(m, order, k, Diagnostic(Warning, 18, m.channels[k].name));
    }
  }

  /** A channel is reported unclaimed exactly when no endpoint of it holds its capability. */
  lemma UnclaimedReportedIff(m: System, order: seq<uint8>)
    ensures HasCode(Findings(m, order), 22) <==>
            exists c :: c in m.channels &&
              forall t :: t in m.tasks && (t.name == c.from || t.name == c.to) ==> "ipc." + c.name !in t.capabilities
  {
    hide Findings, Deserves;
    if d :| d in Findings(m, order) && d.code == 22 {
      ReportIsDeserved(m, order, d);
      CheckOfCode(m, order, d);
      var k: nat :| k < |m.channels| && DeservesClaim(m.tasks, m.channels[k], d);
      UnclaimedIff(m.tasks, m.channels[k]);
      assert m.channels[k] in m.channels;
    }
    forall c | c in m.channels &&
      forall t :: t in m.tasks && (t.name == c.from || t.name == c.to) ==> "ipc." + c.name !in t.capabilities
      ensures HasCode(Findings(m, order), 22)
    {
      var k: nat :| k < |m.channels| && m.channels[k] == c;
      UnclaimedIff(m.tasks, c);
      ReportIsDeserved(m, order, Diagnostic(Warning, 22, c.name));
      ClaimIsDeserved(m, order, k);
    }
  }

  lemma ClaimIsDeserved(m: System, order: seq<uint8>, k: nat)
    requires k < |m.channels| && IsUnclaimed(m.tasks, m.channels[k])
    ensures Deserves(m, order, Diagnostic(Warning, 22, m.channels[k].name))
  {
    hide IsUnclaimed;
    assert DeservesClaim(m.tasks, m.channels[k], Diagnostic(Warning, 22, m.channels[k].name));
  }

  lemma TimingIsDeserved(m: System, order: seq<uint8>, k: nat, d: Diagnostic)
    requires k < |m.tasks| && DeservesTiming(m.tickRate, m.tasks[k], d)
    ensures Deserves(m, order, d)
  {
    hide DeservesTiming;
  }

  lemma LevelIsDeserved(m: System, order: seq<uint8>, p: uint8)
    requires p in order && |Sharing(m.tasks, p)| > 1
    ensures Deserves(m, order, Diagnostic(Warning, 5, Join(Sharing(m.tasks, p))))
  {
    assert DeservesLevel(m.tasks, p, Diagnostic(Warning, 5, Join(Sharing(m.tasks, p))));
  }

  lemma MisalignedIff(tickRate: string, task: Task)
    ensures DeservesTiming(tickRate, task, Diagnostic(Warning, 9, task.name)) <==>
            IsMisaligned(UsablePeriod(task), ParseTickHz(tickRate))
  {
    hide Nanos, ParseTickHz, IsMisaligned, ReadsAs, IsOffTick;
    ReadsAsNanos(task.period);
    NoPeriodIsAligned(ParseTickHz(tickRate));
    if UsablePeriod(task).Some? {
      OffTickIsMisaligned(tickRate, UsablePeriod(task).value);
    }
  }
}
