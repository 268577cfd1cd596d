/** The order of a report: check by check, and within one task or channel in the order of its checks. */
module ReportOrder {
  import opened Words
  import opened Units
  import opened Manifest

  /** Which check a code comes from, counting the checks in the order in which they are made. */
  function Stage(code: nat): nat {
    match code
    case 1 => 1
    case 2 => 1
    case 3 => 2
    case 4 => 2
    case 5 => 3
    case 24 => 4
    case 25 => 4
    case 6 => 5
    case 7 => 5
    case 8 => 5
    case 9 => 5
    case 23 => 5
    case 26 => 5
    case 10 => 6
    case 11 => 6
    case 12 => 6
    case 19 => 8
    case 20 => 8
    case 21 => 8
    case 22 => 9
    case _ => 7
  }

  /** The order of the codes within one check: a zero period and texts that cannot be read come
      before what is found in the values. Otherwise codes are numbered in their order. */
  function Rank(code: nat): nat {
    match code
    case 26 => 0
    case 23 => 1
    case _ => 2 + code
  }

  /** `ds'` continues `ds` with findings of one stage, in the order of their codes, the last of
      them no later than `top`. */
  ghost predicate Continues(ds: seq<Diagnostic>, ds': seq<Diagnostic>, stage: nat, top: nat) {
    ds <= ds' &&
    (forall i :: |ds| <= i < |ds'| ==> Stage(ds'[i].code) == stage && Rank(ds'[i].code) <= top) &&
    (forall i, j :: |ds| <= i < j < |ds'| ==> Rank(ds'[i].code) <= Rank(ds'[j].code))
  }

  lemma Start(ds: seq<Diagnostic>, stage: nat)
    ensures Continues(ds, ds, stage, 0)
  {}

  /** One more check, of a code that is not before the last one. */
  lemma AddContinues(
      ds: seq<Diagnostic>, ds': seq<Diagnostic>, top: nat, found: bool, severity: Severity, code: nat, location: string)
    requires Continues(ds, ds', Stage(code), top) && top <= Rank(code)
    ensures Continues(ds, Add(ds', found, severity, code, location), Stage(code), Rank(code))
  {
    hide Stage, Rank;
  }

  // ------------------------------------------------------------------ within one task or channel

  lemma NameInOrder(ds: seq<Diagnostic>, earlier: seq<Task>, task: Task)
    ensures Continues(ds, AfterName(ds, earlier, task), 1, Rank(2))
  {
    hide Add, Continues, TaskNames;
    Start(ds, 1);
    AddContinues(ds, ds, 0, task.name in TaskNames(earlier), Error, 1, task.name);
    var ds1 := Add(ds, task.name in TaskNames(earlier), Error, 1, task.name);
    AddContinues(ds, ds1, Rank(1), task.name == "", Error, 2, "[[task]]");
  }

  lemma PriorityInOrder(ds: seq<Diagnostic>, task: Task)
    ensures Continues(ds, AfterPriority(ds, task), 2, Rank(4))
  {
    hide Add, Continues;
    Start(ds, 2);
    AddContinues(ds, ds, 0, task.priority > 31, Error, 3, task.name);
    var ds1 := Add(ds, task.priority > 31, Error, 3, task.name);
    AddContinues(ds, ds1, Rank(3), task.priority == 0, Error, 4, task.name);
  }

  lemma RateInOrder(ds: seq<Diagnostic>, tickHz: Option<uint64>)
    ensures Continues(ds, AfterRate(ds, tickHz), 4, Rank(25))
  {
    hide Add, Continues;
    Start(ds, 4);
    AddContinues(ds, ds, 0, tickHz.None?, Error, 24, "[system]");
    var ds1 := Add(ds, tickHz.None?, Error, 24, "[system]");
    AddContinues(ds, ds1, Rank(24), tickHz == Some(0), Error, 25, "[system]");
  }

  /** A text that cannot be read has no value, so that the two findings about a period exclude
      each other. */
  lemma PeriodInOrder(ds: seq<Diagnostic>, task: Task)
    ensures var ds1 := AfterParse(ds, task.period, task);
            Continues(ds, Add(ds1, Nanos(task.period) == Some(0), Error, 26, task.name), 5, Rank(23))
  {
    hide Continues;
    Start(ds, 5);
    if IsReadable(task.period) {
      AddContinues(ds, ds, 0, Nanos(task.period) == Some(0), Error, 26, task.name);
      Raise(ds, Add(ds, Nanos(task.period) == Some(0), Error, 26, task.name), 5, Rank(26), Rank(23));
    } else {
      AddContinues(ds, ds, 0, true, Error, 23, task.name);
    }
  }

  lemma Raise(ds: seq<Diagnostic>, ds': seq<Diagnostic>, stage: nat, top: nat, top': nat)
    requires Continues(ds, ds', stage, top) && top <= top'
    ensures Continues(ds, ds', stage, top')
  {}

  lemma TimingInOrder(ds: seq<Diagnostic>, task: Task, tickHz: Option<uint64>)
    ensures Continues(ds, AfterTiming(ds, task, tickHz), 5, Rank(9))
  {
    hide Add, Continues, Nanos, UsablePeriod, Exceeds, IsReadable, IsMisaligned;
    PeriodInOrder(ds, task);
    var ds1 := Add(AfterParse(ds, task.period, task), Nanos(task.period) == Some(0), Error, 26, task.name);
    AddContinues(ds, ds1, Rank(23), !IsReadable(task.deadline), Error, 23, task.name);
    var ds2 := AfterParse(ds1, task.deadline, task);
    AddContinues(ds, ds2, Rank(23), !IsReadable(task.wcet), Error, 23, task.name);
    var ds3 := AfterParse(ds2, task.wcet, task);
    var late := Exceeds(Nanos(task.deadline), UsablePeriod(task));
    var hard := Exceeds(Nanos(task.wcet), Nanos(task.deadline));
    AddContinues(ds, ds3, Rank(23), late, Error, 6, task.name);
    var ds4 := Add(ds3, late, Error, 6, task.name);
    AddContinues(ds, ds4, Rank(6), hard, Error, 7, task.name);
    var ds5 := Add(ds4, hard, Error, 7, task.name);
    AddContinues(ds, ds5, Rank(7), task.deadline.Some? && task.wcet.None?, Warning, 8, task.name);
    var ds6 := Add(ds5, task.deadline.Some? && task.wcet.None?, Warning, 8, task.name);
    AddContinues(ds, ds6, Rank(8), IsMisaligned(UsablePeriod(task), tickHz), Warning, 9, task.name);
  }

  lemma StackInOrder(ds: seq<Diagnostic>, task: Task)
    ensures Continues(ds, AfterStack(ds, task), 6, Rank(12))
  {
    hide Add, Continues, Parse, ToPowerOfTwo;
    Start(ds, 6);
    match Parse(Size, task.stack)
    case Err(_) =>
      AddContinues(ds, ds, 0, true, Error, 10, task.name);
      Raise(ds, Add(ds, true, Error, 10, task.name), 6, Rank(10), Rank(12));
    case Ok(stack) =>
      AddContinues(ds, ds, 0, stack < MIN_STACK, Error, 11, task.name);
      var ds1 := Add(ds, stack < MIN_STACK, Error, 11, task.name);
      AddContinues(ds, ds1, Rank(11), ToPowerOfTwo(stack) != Some(stack), Warning, 12, task.name);
  }

  lemma ChannelInOrder(ds: seq<Diagnostic>, tasks: seq<Task>, earlier: seq<Channel>, c: Channel)
    ensures Continues(ds, AfterChannel(ds, tasks, earlier, c), 7, Rank(18))
  {
    hide Add, Continues, TaskNames, ChannelNames, IsInversion, IsValidOverflow;
    Start(ds, 7);
    AddContinues(ds, ds, 0, c.name in ChannelNames(earlier), Error, 13, c.name);
    var ds1 := Add(ds, c.name in ChannelNames(earlier), Error, 13, c.name);
    AddContinues(ds, ds1, Rank(13), c.from !in TaskNames(tasks), Error, 14, c.name);
    var ds2 := Add(ds1, c.from !in TaskNames(tasks), Error, 14, c.name);
    AddContinues(ds, ds2, Rank(14), c.to !in TaskNames(tasks), Error, 14, c.name);
    var ds3 := Add(ds2, c.to !in TaskNames(tasks), Error, 14, c.name);
    AddContinues(ds, ds3, Rank(14), c.from == c.to, Error, 15, c.name);
    var ds4 := Add(ds3, c.from == c.to, Error, 15, c.name);
    AddContinues(ds, ds4, Rank(15), c.capacity == 0, Error, 16, c.name);
    var ds5 := Add(ds4, c.capacity == 0, Error, 16, c.name);
    AddContinues(ds, ds5, Rank(16), !IsValidOverflow(c.overflow), Error, 17, c.name);
    var ds6 := Add(ds5, !IsValidOverflow(c.overflow), Error, 17, c.name);
    AddContinues(ds, ds6, Rank(17), IsInversion(tasks, c), Warning, 18, c.name);
  }

  lemma CapabilityInOrder(ds: seq<Diagnostic>, channels: seq<Channel>, task: Task, k: nat)
    requires k < |task.capabilities|
    ensures Continues(ds, AfterCapability(ds, channels, task, k), 8, Rank(21))
  {
    hide Add, Continues, Endpoints, IpcChannel;
    Start(ds, 8);
    var c := task.capabilities[k];
    AddContinues(ds, ds, 0, c in task.capabilities[..k], Warning, 19, task.name);
    var ds1 := Add(ds, c in task.capabilities[..k], Warning, 19, task.name);
    Raise(ds, ds1, 8, Rank(19), Rank(21));
    if IpcChannel(c).Some? {
      match Endpoints(channels, IpcChannel(c).value)
      case None =>
        AddContinues(ds, ds1, Rank(19), true, Error, 20, task.name);
        Raise(ds, Add(ds1, true, Error, 20, task.name), 8, Rank(20), Rank(21));
      case Some((from, to)) =>
        AddContinues(ds, ds1, Rank(19), from != task.name && to != task.name, Error, 21, task.name);
    }
  }

  // ------------------------------------------------------------------ the whole report

  /** `ds'` continues `ds` with findings of one stage. */
  ghost predicate Stays(ds: seq<Diagnostic>, ds': seq<Diagnostic>, stage: nat) {
    ds <= ds' && forall i :: |ds| <= i < |ds'| ==> Stage(ds'[i].code) == stage
  }

  lemma {:induction false} FoldStays(
      n: nat, ds: seq<Diagnostic>, check: (seq<Diagnostic>, nat) -> seq<Diagnostic>, stage: nat)
    requires forall before: seq<Diagnostic>, k: nat :: k < n ==> Stays(before, check(before, k), stage)
    ensures Stays(ds, Fold(n, ds, check), stage)
  {
    hide Stage;
    if n != 0 {
      FoldStays(n - 1, ds, check, stage);
      assert Stays(Fold(n - 1, ds, check), check(Fold(n - 1, ds, check), n - 1), stage);
    }
  }

  lemma {:induction false} LevelsStay(ds: seq<Diagnostic>, tasks: seq<Task>, order: seq<uint8>)
    ensures Stays(ds, AfterLevels(ds, tasks, order), 3)
  {
    hide Sharing, Join;
    if order != [] {
      LevelsStay(ds, tasks, order[..|order| - 1]);
    }
  }

  lemma TaskChecksStay(tasks: seq<Task>, tickHz: Option<uint64>, before: seq<Diagnostic>, k: nat)
    requires k < |tasks|
    ensures Stays(before, NameCheck(tasks)(before, k), 1) && Stays(before, PriorityCheck(tasks)(before, k), 2)
    ensures Stays(before, TimingCheck(tasks, tickHz)(before, k), 5) && Stays(before, StackCheck(tasks)(before, k), 6)
  {
    hide AfterName, AfterPriority, AfterTiming, AfterStack, Stage, Rank;
    NameInOrder(before, tasks[..k], tasks[k]);
    PriorityInOrder(before, tasks[k]);
    TimingInOrder(before, tasks[k], tickHz);
    StackInOrder(before, tasks[k]);
  }

  lemma HoldingsStay(m: System, before: seq<Diagnostic>, k: nat)
    requires k < |m.tasks|
    ensures Stays(before, HoldingsCheck(m)(before, k), 8)
  {
    hide AfterCapability, Stage, Rank;
    var task := m.tasks[k];
    forall ds: seq<Diagnostic>, i: nat | i < |task.capabilities|
      ensures Stays(ds, CapabilityCheck(m.channels, task)(ds, i), 8)
    {
      CapabilityInOrder(ds, m.channels, task, i);
    }
    FoldStays(|task.capabilities|, before, CapabilityCheck(m.channels, task), 8);
  }

  lemma ChannelChecksStay(m: System, before: seq<Diagnostic>, k: nat)
    requires k < |m.channels|
    ensures Stays(before, ChannelCheck(m)(before, k), 7) && Stays(before, ClaimCheck(m)(before, k), 9)
  {
    hide AfterChannel, Rank, IsClaimed;
    ChannelInOrder(before, m.tasks, m.channels[..k], m.channels[k]);
  }

  ghost predicate IsStaged(ds: seq<Diagnostic>, last: nat) {
    (forall i :: 0 <= i < |ds| ==> Stage(ds[i].code) <= last) &&
    (forall i, j :: 0 <= i < j < |ds| ==> Stage(ds[i].code) <= Stage(ds[j].code))
  }

  lemma NextStage(ds: seq<Diagnostic>, ds': seq<Diagnostic>, last: nat, stage: nat)
    requires IsStaged(ds, last) && last <= stage && Stays(ds, ds', stage)
    ensures IsStaged(ds', stage)
  {
    hide Stage;
  }

  /** The checks report one after the other, in the order in which they are made. */
  lemma ReportIsStaged(m: System, order: seq<uint8>)
    ensures forall i, j :: 0 <= i < j < |Findings(m, order)| ==>
              Stage(Findings(m, order)[i].code) <= Stage(Findings(m, order)[j].code)
  {
    hide Fold, AfterLevels, AfterRate, ParseTickHz, Stage, Rank;
    var tickHz := ParseTickHz(m.tickRate);
    FoldsStay(m, tickHz);
    var ds := Fold(|m.tasks|, [], NameCheck(m.tasks));
    NextStage([], ds, 0, 1);
    var ds2 := Fold(|m.tasks|, ds, PriorityCheck(m.tasks));
    NextStage(ds, ds2, 1, 2);
    var ds3 := AfterLevels(ds2, m.tasks, order);
    LevelsStay(ds2, m.tasks, order);
    NextStage(ds2, ds3, 2, 3);
    var ds4 := AfterRate(ds3, tickHz);
    RateInOrder(ds3, tickHz);
    NextStage(ds3, ds4, 3, 4);
    var ds5 := Fold(|m.tasks|, ds4, TimingCheck(m.tasks, tickHz));
    NextStage(ds4, ds5, 4, 5);
    var ds6 := Fold(|m.tasks|, ds5, StackCheck(m.tasks));
    NextStage(ds5, ds6, 5, 6);
    var ds7 := Fold(|m.channels|, ds6, ChannelCheck(m));
    NextStage(ds6, ds7, 6, 7);
    var ds8 := Fold(|m.tasks|, ds7, HoldingsCheck(m));
    NextStage(ds7, ds8, 7, 8);
    NextStage(ds8, Fold(|m.channels|, ds8, ClaimCheck(m)), 8, 9);
  }

  lemma FoldsStay(m: System, tickHz: Option<uint64>)
    ensures forall ds: seq<Diagnostic> :: Stays(ds, Fold(|m.tasks|, ds, NameCheck(m.tasks)), 1)
    ensures forall ds: seq<Diagnostic> :: Stays(ds, Fold(|m.tasks|, ds, PriorityCheck(m.tasks)), 2)
    ensures forall ds: seq<Diagnostic> :: Stays(ds, Fold(|m.tasks|, ds, TimingCheck(m.tasks, tickHz)), 5)
    ensures forall ds: seq<Diagnostic> :: Stays(ds, Fold(|m.tasks|, ds, StackCheck(m.tasks)), 6)
    ensures forall ds: seq<Diagnostic> :: Stays(ds, Fold(|m.channels|, ds, ChannelCheck(m)), 7)
    ensures forall ds: seq<Diagnostic> :: Stays(ds, Fold(|m.tasks|, ds, HoldingsCheck(m)), 8)
    ensures forall ds: seq<Diagnostic> :: Stays(ds, Fold(|m.channels|, ds, ClaimCheck(m)), 9)
  {
    hide Fold, Stays, NameCheck, PriorityCheck, TimingCheck, StackCheck, ChannelCheck, HoldingsCheck, ClaimCheck;
    forall before: seq<Diagnostic>, k: nat | k < |m.tasks|
      ensures Stays(before, NameCheck(m.tasks)(before, k), 1) && Stays(before, PriorityCheck(m.tasks)(before, k), 2)
      ensures Stays(before, TimingCheck(m.tasks, tickHz)(before, k), 5)
      ensures Stays(before, StackCheck(m.tasks)(before, k), 6) && Stays(before, HoldingsCheck(m)(before, k), 8)
    {
      TaskChecksStay(m.tasks, tickHz, before, k);
      HoldingsStay(m, before, k);
    }
    forall before: seq<Diagnostic>, k: nat | k < |m.channels|
      ensures Stays(before, ChannelCheck(m)(before, k), 7) && Stays(before, ClaimCheck(m)(before, k), 9)
    {
      ChannelChecksStay(m, before, k);
    }
    forall ds: seq<Diagnostic>
      ensures Stays(ds, Fold(|m.tasks|, ds, NameCheck(m.tasks)), 1)
      ensures Stays(ds, Fold(|m.tasks|, ds, PriorityCheck(m.tasks)), 2)
      ensures Stays(ds, Fold(|m.tasks|, ds, TimingCheck(m.tasks, tickHz)), 5)
      ensures Stays(ds, Fold(|m.tasks|, ds, StackCheck(m.tasks)), 6)
      ensures Stays(ds, Fold(|m.channels|, ds, ChannelCheck(m)), 7)
      ensures Stays(ds, Fold(|m.tasks|, ds, HoldingsCheck(m)), 8)
      ensures Stays(ds, Fold(|m.channels|, ds, ClaimCheck(m)), 9)
    {
      FoldStays(|m.tasks|, ds, NameCheck(m.tasks), 1);
      FoldStays(|m.tasks|, ds, PriorityCheck(m.tasks), 2);
      FoldStays(|m.tasks|, ds, TimingCheck(m.tasks, tickHz), 5);
      FoldStays(|m.tasks|, ds, StackCheck(m.tasks), 6);
      FoldStays(|m.channels|, ds, ChannelCheck(m), 7);
      FoldStays(|m.tasks|, ds, HoldingsCheck(m), 8);
      FoldStays(|m.channels|, ds, ClaimCheck(m), 9);
    }
  }
}
