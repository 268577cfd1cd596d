/** The system manifest and the findings its validation is specified to produce. */
module Manifest {
  import opened Words
  import opened Units
  import opened Ticks

  datatype Task = Task(
    name: string,
    priority: uint8,
    stack: string,
    period: Option<string>,
    deadline: Option<string>,
    wcet: Option<string>,
    capabilities: seq<string>)

  datatype Channel = Channel(name: string, from: string, to: string, capacity: uint16, overflow: string)

  datatype System = System(tickRate: string, tasks: seq<Task>, channels: seq<Channel>)

  datatype Severity = Warning | Error

  /** A finding: severity, the number of its stable code (`M0007` is 7), and its subject. */
  datatype Diagnostic = Diagnostic(severity: Severity, code: nat, location: string)

  // ------------------------------------------------------------------ reading single values

  /** The validator's `parse_tick_hz`; overflow reads as no rate. */
  function ParseTickHz(text: string): Option<uint64> {
    var trimmed := Trim(text);
    var split := DigitRun(trimmed);
    if split == |trimmed| || split == 0 then None
    else
      match ParseDigits(trimmed[..split])
      case None => None
      case Some(value) =>
        match HertzMultiplier(Trim(trimmed[split..]))
        case None => None
        case Some(multiplier) => if value * multiplier <= U64_MAX then Some(value * multiplier) else None
  }

  function HertzMultiplier(unit: string): Option<positive> {
    if unit == "Hz" then Some(1)
    else if unit == "kHz" then Some(1_000)
    else if unit == "MHz" then Some(1_000_000)
    else None
  }

  /** A declared duration in nanoseconds: absent, unreadable (also `None`), or a value. */
  function Nanos(text: Option<string>): Option<uint64> {
    if text.Some? && Parse(Time, text.value).Ok? then Some(Parse(Time, text.value).value) else None
  }

  /** The period as later checks see it: a zero period is discarded. */
  function UsablePeriod(task: Task): Option<uint64> {
    if Nanos(task.period) == Some(0) then None else Nanos(task.period)
  }

  const MIN_STACK: nat := 256
  const MAX_STACK: nat := 0x8000_0000_0000_0000

  lemma SeventhPower()
    ensures Pow2(7) == 128
  {}

  lemma TopPower()
    ensures Pow2(63) == MAX_STACK
  {
    hide Pow2;
    SeventhPower();
    Pow2Sum(7, 7);
    Pow2Sum(14, 7);
    Pow2Sum(21, 21);
    Pow2Sum(42, 21);
  }

  /** `ByteSize::to_power_of_two`: the least power of two not below `n`. `None` is the overflow,
      which aborts the tool because overflow checks are on in every profile. */
  function ToPowerOfTwo(n: nat): (r: Option<uint64>)
    ensures r.None? <==> MAX_STACK < n
  {
    TopPower();
    PowerFrom(0, n)
  }

  function PowerFrom(e: nat, n: nat): (r: Option<uint64>)
    requires e <= 63
    ensures r.None? <==> Pow2(63) < n
    decreases 63 - e
  {
    Pow2Mono(e, 63);
    TopPower();
    if n <= Pow2(e) then Some(Pow2(e)) else if e == 63 then None else PowerFrom(e + 1, n)
  }

  /** It is a power of two, covers `n`, and every smaller power falls short. */
  ghost predicate IsLeastPower(n: nat, power: nat) {
    exists e: nat :: power == Pow2(e) && n <= power && forall d: nat :: d < e ==> Pow2(d) < n
  }

  lemma {:induction false} PowerFromIsLeast(e: nat, n: nat)
    requires e <= 63 && PowerFrom(e, n).Some? && forall d: nat :: d < e ==> Pow2(d) < n
    ensures IsLeastPower(n, PowerFrom(e, n).value)
    decreases 63 - e
  {
    hide Pow2;
    if Pow2(e) < n {
      PowerFromIsLeast(e + 1, n);
    }
  }

  lemma PaddingIsLeast(n: nat)
    requires ToPowerOfTwo(n).Some?
    ensures IsLeastPower(n, ToPowerOfTwo(n).value)
  {
    PowerFromIsLeast(0, n);
  }

  // ------------------------------------------------------------------ specified findings

  function ErrorCount(ds: seq<Diagnostic>): nat {
    if ds == [] then 0
    else ErrorCount(ds[..|ds| - 1]) + if ds[|ds| - 1].severity == Error then 1 else 0
  }

  /** The report `ds` after a check that finds something exactly when `found`. */
  function Add(ds: seq<Diagnostic>, found: bool, severity: Severity, code: nat, location: string): seq<Diagnostic> {
    if found then ds + [Diagnostic(severity, code, location)] else ds
  }

  /** The report after the elements `0` to `n - 1` have been checked in order. */
  function Fold(n: nat, ds: seq<Diagnostic>, check: (seq<Diagnostic>, nat) -> seq<Diagnostic>): seq<Diagnostic> {
    if n == 0 then ds else check(Fold(n - 1, ds, check), n - 1)
  }

  function TaskNames(tasks: seq<Task>): set<string> {
    set t <- tasks :: t.name
  }

  function ChannelNames(channels: seq<Channel>): set<string> {
    set c <- channels :: c.name
  }

  function AfterName(ds: seq<Diagnostic>, earlier: seq<Task>, task: Task): seq<Diagnostic> {
    var ds := Add(ds, task.name in TaskNames(earlier), Error, 1, task.name);
    Add(ds, task.name == "", Error, 2, "[[task]]")
  }

  function NameCheck(tasks: seq<Task>): (seq<Diagnostic>, nat) -> seq<Diagnostic> {
    (ds: seq<Diagnostic>, k: nat) => if k < |tasks| then AfterName(ds, tasks[..k], tasks[k]) else ds
  }

  function AfterPriority(ds: seq<Diagnostic>, task: Task): seq<Diagnostic> {
    var ds := Add(ds, task.priority > 31, Error, 3, task.name);
    Add(ds, task.priority == 0, Error, 4, task.name)
  }

  function PriorityCheck(tasks: seq<Task>): (seq<Diagnostic>, nat) -> seq<Diagnostic> {
    (ds: seq<Diagnostic>, k: nat) => if k < |tasks| then AfterPriority(ds, tasks[k]) else ds
  }

  /** Names of the tasks with a deadline at one priority, in declaration order. */
  function Sharing(tasks: seq<Task>, priority: uint8): seq<string> {
    if tasks == [] then []
    else
      var last := tasks[|tasks| - 1];
      Sharing(tasks[..|tasks| - 1], priority)
      + if last.deadline.Some? && last.priority == priority then [last.name] else []
  }

  function Join(names: seq<string>): string {
    if names == [] then ""
    else if |names| == 1 then names[0]
    else Join(names[..|names| - 1]) + ", " + names[|names| - 1]
  }

  /** One warning per crowded level, levels visited in the given order. */
  function AfterLevels(ds: seq<Diagnostic>, tasks: seq<Task>, order: seq<uint8>): seq<Diagnostic> {
    if order == [] then ds
    else
      var names := Sharing(tasks, order[|order| - 1]);
      Add(AfterLevels(ds, tasks, order[..|order| - 1]), |names| > 1, Warning, 5, Join(names))
  }

  function AfterRate(ds: seq<Diagnostic>, tickHz: Option<uint64>): seq<Diagnostic> {
    var ds := Add(ds, tickHz.None?, Error, 24, "[system]");
    Add(ds, tickHz == Some(0), Error, 25, "[system]")
  }

  function AfterParse(ds: seq<Diagnostic>, text: Option<string>, task: Task): seq<Diagnostic> {
    Add(ds, !IsReadable(text), Error, 23, task.name)
  }

  predicate IsReadable(text: Option<string>) {
    text.Some? ==> Parse(Time, text.value).Ok?
  }

  /** Both values are known and the first exceeds the second. */
  predicate Exceeds(a: Option<uint64>, b: Option<uint64>) {
    a.Some? && b.Some? && a.value > b.value
  }

  predicate IsMisaligned(period: Option<uint64>, tickHz: Option<uint64>) {
    period.Some? && tickHz.Some? && tickHz.value > 0 && !IsTickAligned(period.value, tickHz.value)
  }

  function AfterTiming(ds: seq<Diagnostic>, task: Task, tickHz: Option<uint64>): seq<Diagnostic> {
    var ds := AfterParse(ds, task.period, task);
    var ds := Add(ds, Nanos(task.period) == Some(0), Error, 26, task.name);
    var ds := AfterParse(ds, task.deadline, task);
    var ds := AfterParse(ds, task.wcet, task);
    var ds := Add(ds, Exceeds(Nanos(task.deadline), UsablePeriod(task)), Error, 6, task.name);
    var ds := Add(ds, Exceeds(Nanos(task.wcet), Nanos(task.deadline)), Error, 7, task.name);
    var ds := Add(ds, task.deadline.Some? && task.wcet.None?, Warning, 8, task.name);
    Add(ds, IsMisaligned(UsablePeriod(task), tickHz), Warning, 9, task.name)
  }

  function TimingCheck(tasks: seq<Task>, tickHz: Option<uint64>): (seq<Diagnostic>, nat) -> seq<Diagnostic> {
    (ds: seq<Diagnostic>, k: nat) => if k < |tasks| then AfterTiming(ds, tasks[k], tickHz) else ds
  }

  function AfterStack(ds: seq<Diagnostic>, task: Task): seq<Diagnostic> {
    match Parse(Size, task.stack)
    case Err(_) => Add(ds, true, Error, 10, task.name)
    case Ok(stack) =>
      var ds := Add(ds, stack < MIN_STACK, Error, 11, task.name);
      Add(ds, ToPowerOfTwo(stack) != Some(stack), Warning, 12, task.name)
  }

  function StackCheck(tasks: seq<Task>): (seq<Diagnostic>, nat) -> seq<Diagnostic> {
    (ds: seq<Diagnostic>, k: nat) => if k < |tasks| then AfterStack(ds, tasks[k]) else ds
  }

  /** Padding this task's stack aborts the tool. */
  predicate StackAborts(task: Task) {
    Parse(Size, task.stack).Ok? && MAX_STACK < Parse(Size, task.stack).value
  }

  /** Exactly when: a stack of `n` bytes, as the tool itself would print it, aborts the tool if and
      only if it exceeds 2^63 bytes. */
  lemma StackAbortsIff(task: Task, n: uint64)
    requires task.stack == Print(Size, n)
    ensures StackAborts(task) <==> 0x8000_0000_0000_0000 < n
  {
    hide Parse, Print;
    PrintParse(Size, n);
  }

  /** Padding one of the first `n` stacks aborts the tool. */
  predicate AnyStackAborts(tasks: seq<Task>, n: nat)
    requires n <= |tasks|
  {
    n != 0 && (AnyStackAborts(tasks, n - 1) || StackAborts(tasks[n - 1]))
  }

  lemma {:induction false} AbortStays(tasks: seq<Task>, k: nat, n: nat)
    requires k <= n <= |tasks| && AnyStackAborts(tasks, k)
    ensures AnyStackAborts(tasks, n)
    decreases n
  {
    hide StackAborts;
    if k < n {
      AbortStays(tasks, k, n - 1);
    }
  }

  predicate IsValidOverflow(policy: string) {
    policy == "block" || policy == "reject" || policy == "drop-oldest" || policy == "drop-newest"
  }

  /** The first task of that name. */
  function FindTask(tasks: seq<Task>, name: string): Option<Task> {
    if tasks == [] then None
    else if tasks[0].name == name then Some(tasks[0])
    else FindTask(tasks[1..], name)
  }

  predicate IsInversion(tasks: seq<Task>, channel: Channel) {
    var from, to := FindTask(tasks, channel.from), FindTask(tasks, channel.to);
    channel.overflow == "block" && from.Some? && to.Some? && from.value.priority > to.value.priority
  }

  function AfterChannel(
      ds: seq<Diagnostic>, tasks: seq<Task>, earlier: seq<Channel>, channel: Channel): seq<Diagnostic>
  {
    var ds := Add(ds, channel.name in ChannelNames(earlier), Error, 13, channel.name);
    var ds := Add(ds, channel.from !in TaskNames(tasks), Error, 14, channel.name);
    var ds := Add(ds, channel.to !in TaskNames(tasks), Error, 14, channel.name);
    var ds := Add(ds, channel.from == channel.to, Error, 15, channel.name);
    var ds := Add(ds, channel.capacity == 0, Error, 16, channel.name);
    var ds := Add(ds, !IsValidOverflow(channel.overflow), Error, 17, channel.name);
    Add(ds, IsInversion(tasks, channel), Warning, 18, channel.name)
  }

  function ChannelCheck(m: System): (seq<Diagnostic>, nat) -> seq<Diagnostic> {
    (ds: seq<Diagnostic>, k: nat) =>
      if k < |m.channels| then AfterChannel(ds, m.tasks, m.channels[..k], m.channels[k]) else ds
  }

  /** The endpoints a channel name stands for: those of the last channel declared with it. */
  function Endpoints(channels: seq<Channel>, name: string): Option<(string, string)> {
    if channels == [] then None
    else
      var last := channels[|channels| - 1];
      if last.name == name then Some((last.from, last.to)) else Endpoints(channels[..|channels| - 1], name)
  }

  /** The channel a capability names, if it is an IPC capability. */
  function IpcChannel(capability: string): Option<string> {
    if "ipc." <= capability then Some(capability[4..]) else None
  }

  function AfterIpc(ds: seq<Diagnostic>, endpoints: Option<(string, string)>, task: Task): seq<Diagnostic> {
    match endpoints
    case None => Add(ds, true, Error, 20, task.name)
    case Some((from, to)) => Add(ds, from != task.name && to != task.name, Error, 21, task.name)
  }

  function AfterCapability(ds: seq<Diagnostic>, channels: seq<Channel>, task: Task, k: nat): seq<Diagnostic>
    requires k < |task.capabilities|
  {
    var capability := task.capabilities[k];
    var ds := Add(ds, capability in task.capabilities[..k], Warning, 19, task.name);
    var channel := IpcChannel(capability);
    if channel.None? then ds else AfterIpc(ds, Endpoints(channels, channel.value), task)
  }

  function CapabilityCheck(channels: seq<Channel>, task: Task): (seq<Diagnostic>, nat) -> seq<Diagnostic> {
    (ds: seq<Diagnostic>, k: nat) => if k < |task.capabilities| then AfterCapability(ds, channels, task, k) else ds
  }

  function HoldingsCheck(m: System): (seq<Diagnostic>, nat) -> seq<Diagnostic> {
    (ds: seq<Diagnostic>, k: nat) =>
      if k < |m.tasks| then
        Fold(|m.tasks[k].capabilities|, ds, CapabilityCheck(m.channels, m.tasks[k]))
      else ds
  }

  /** Some endpoint of the channel holds its capability. */
  predicate IsClaimed(tasks: seq<Task>, channel: Channel) {
    exists t <- tasks :: (t.name == channel.from || t.name == channel.to) && "ipc." + channel.name in t.capabilities
  }

  function ClaimCheck(m: System): (seq<Diagnostic>, nat) -> seq<Diagnostic> {
    (ds: seq<Diagnostic>, k: nat) =>
      if k < |m.channels| then Add(ds, !IsClaimed(m.tasks, m.channels[k]), Warning, 22, m.channels[k].name) else ds
  }

  /** The whole report, for one order of visiting the priority levels. */
  function Findings(m: System, order: seq<uint8>): seq<Diagnostic> {
    var tickHz := ParseTickHz(m.tickRate);
    var ds := Fold(|m.tasks|, [], NameCheck(m.tasks));
    var ds := AfterLevels(Fold(|m.tasks|, ds, PriorityCheck(m.tasks)), m.tasks, order);
    var ds := Fold(|m.tasks|, AfterRate(ds, tickHz), TimingCheck(m.tasks, tickHz));
    var ds := Fold(|m.tasks|, ds, StackCheck(m.tasks));
    var ds := Fold(|m.channels|, ds, ChannelCheck(m));
    var ds := Fold(|m.tasks|, ds, HoldingsCheck(m));
    Fold(|m.channels|, ds, ClaimCheck(m))
  }

  // ------------------------------------------------------------------ the declarative reading

  ghost predicate IsWellTimed(task: Task) {
    IsReadable(task.period) && IsReadable(task.deadline) && IsReadable(task.wcet) &&
    Nanos(task.period) != Some(0) &&
    (task.period.Some? && task.deadline.Some? ==> Nanos(task.deadline).value <= Nanos(task.period).value) &&
    (task.wcet.Some? && task.deadline.Some? ==> Nanos(task.wcet).value <= Nanos(task.deadline).value)
  }

  ghost predicate IsWellStacked(task: Task) {
    Parse(Size, task.stack).Ok? && MIN_STACK <= Parse(Size, task.stack).value <= MAX_STACK
  }

  ghost predicate IsTask(m: System, name: string) {
    exists t :: t in m.tasks && t.name == name
  }

  ghost predicate IsWellConnected(m: System, channel: Channel) {
    IsTask(m, channel.from) && IsTask(m, channel.to) && channel.from != channel.to &&
    channel.capacity != 0 &&
    (channel.overflow == "block" || channel.overflow == "reject" ||
     channel.overflow == "drop-oldest" || channel.overflow == "drop-newest")
  }

  /** Every IPC capability of the task names a channel that the task is an endpoint of. */
  ghost predicate HoldsOnlyItsChannels(m: System, task: Task) {
    forall name: string :: "ipc." + name in task.capabilities ==>
      exists c :: c in m.channels && c.name == name && (c.from == task.name || c.to == task.name)
  }

  ghost predicate HaveDistinctNames(tasks: seq<Task>) {
    forall j, k :: 0 <= j < k < |tasks| ==> tasks[j].name != tasks[k].name
  }

  ghost predicate HaveDistinctChannels(channels: seq<Channel>) {
    forall j, k :: 0 <= j < k < |channels| ==> channels[j].name != channels[k].name
  }

  ghost predicate IsWellFormed(m: System) {
    HaveDistinctNames(m.tasks) && HaveDistinctChannels(m.channels) &&
    (forall t :: t in m.tasks ==>
       t.name != "" && 1 <= t.priority <= 31 && IsWellTimed(t) && IsWellStacked(t) && HoldsOnlyItsChannels(m, t)) &&
    (forall c :: c in m.channels ==> IsWellConnected(m, c)) &&
    ParseTickHz(m.tickRate).Some? && 0 < ParseTickHz(m.tickRate).value
  }
}
