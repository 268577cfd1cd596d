/** What validation lets through to the analyser, neither more nor less. */
module ValidatedTimings {
  import opened Words
  import opened Units
  import opened UnitLaws
  import opened Manifest
  import opened ResponseTime
  import opened Pipeline
  import opened TickRounding

  /** The timing facts that a manifest without errors guarantees. A WCET is held against a declared
      deadline only: without one it may exceed the period. */
  ghost predicate IsValidated(tasks: seq<TaskTiming>) {
    (forall j, k :: 0 <= j < k < |tasks| ==> tasks[j].name != tasks[k].name) &&
    forall t :: t in tasks ==> IsValidTiming(t)
  }

  predicate IsValidTiming(t: TaskTiming) {
    t.name != "" && 1 <= t.priority <= 31 && t.blocking == 0 && t.period != Some(0) &&
    (t.period.Some? && t.deadline.Some? ==> t.deadline.value <= t.period.value) &&
    (t.wcet.Some? && t.deadline.Some? ==> t.wcet.value <= t.deadline.value)
  }

  // ------------------------------------------------------------------ a manifest for given timings

  function DurationText(nanos: Option<uint64>): Option<string> {
    if nanos.Some? then Some(Print(Time, nanos.value)) else None
  }

  function Declare(t: TaskTiming): Task {
    Task(t.name, t.priority, "512B", DurationText(t.period), DurationText(t.deadline), DurationText(t.wcet), [])
  }

  function DeclareAll(tasks: seq<TaskTiming>): seq<Task> {
    seq(|tasks|, k requires 0 <= k < |tasks| => Declare(tasks[k]))
  }

  function ManifestOf(tasks: seq<TaskTiming>, tickHz: uint64): System {
    System(Decimal(tickHz) + "Hz", DeclareAll(tasks), [])
  }

  lemma TextReads(nanos: Option<uint64>)
    ensures IsReadable(DurationText(nanos)) && Nanos(DurationText(nanos)) == nanos
  {
    hide Parse, Print;
    if nanos.Some? {
      PrintParse(Time, nanos.value);
    }
  }

  lemma RateReads(tickHz: uint64)
    ensures ParseTickHz(Decimal(tickHz) + "Hz") == Some(tickHz)
  {
    hide ParseTickHz, Decimal, Denoted;
    DecimalIsNumeral(tickHz);
    RateUnits("", Decimal(tickHz), "", "", "Hz");
    assert "" + (Decimal(tickHz) + "" + "Hz") + "" == Decimal(tickHz) + "Hz";
  }

  lemma StackReads()
    ensures Parse(Size, "512B") == Ok(512)
  {
    hide Parse;
    assert Decimal(512) == "512";
    ParsePlain(Size, 512, "B");
    assert "512" + "B" == "512B";
  }

  lemma DeclareReads(t: TaskTiming)
    requires IsValidTiming(t)
    ensures Declared(Declare(t)) == t && IsWellTimed(Declare(t)) && IsWellStacked(Declare(t))
  {
    hide Parse, Print, DurationText, IsReadable, Nanos;
    TextReads(t.period);
    TextReads(t.deadline);
    TextReads(t.wcet);
    StackReads();
    AbsentText(t.period);
    AbsentText(t.deadline);
    AbsentText(t.wcet);
  }

  lemma AbsentText(nanos: Option<uint64>)
    ensures DurationText(nanos).Some? <==> nanos.Some?
  {}

  /** Every timing set with those facts, and every positive rate, is that of some manifest. */
  lemma ManifestExists(tasks: seq<TaskTiming>, tickHz: uint64)
    requires IsValidated(tasks) && 0 < tickHz
    ensures var m := ManifestOf(tasks, tickHz);
            IsWellFormed(m) && TickHz(m) == tickHz && AllDeclared(m.tasks) == tasks
  {
    hide ParseTickHz, Declare, Declared, IsWellTimed, IsWellStacked, Decimal;
    var m := ManifestOf(tasks, tickHz);
    RateReads(tickHz);
    forall k: nat | k < |tasks|
      ensures IsValidTiming(tasks[k]) && Declared(m.tasks[k]) == tasks[k]
      ensures IsWellTimed(m.tasks[k]) && IsWellStacked(m.tasks[k]) && HoldsOnlyItsChannels(m, m.tasks[k])
      ensures m.tasks[k].name == tasks[k].name && m.tasks[k].priority == tasks[k].priority
    {
      assert tasks[k] in tasks;
      DeclareReads(tasks[k]);
      DeclareKeepsName(tasks[k]);
    }
    forall t | t in m.tasks
      ensures t.name != "" && 1 <= t.priority <= 31 && IsWellTimed(t) && IsWellStacked(t) && HoldsOnlyItsChannels(m, t)
    {
      var k: nat :| k < |m.tasks| && m.tasks[k] == t;
      assert IsValidTiming(tasks[k]);
    }
  }

  lemma DeclareKeepsName(t: TaskTiming)
    ensures Declare(t).name == t.name && Declare(t).priority == t.priority && Declare(t).capabilities == []
  {}

  lemma WellFormedIsValidated(m: System)
    requires IsWellFormed(m)
    ensures IsValidated(AllDeclared(m.tasks))
  {
    hide Parse, ParseTickHz, IsWellStacked, HoldsOnlyItsChannels, IsWellConnected;
    var all := AllDeclared(m.tasks);
    forall t | t in all
      ensures IsValidTiming(t)
    {
      var k: nat :| k < |all| && all[k] == t;
      assert m.tasks[k] in m.tasks;
    }
  }

  /** Validation establishes exactly these facts: they describe the timing sets, at any positive
      rate, that reach the analyser. */
  lemma ValidatedIff(tasks: seq<TaskTiming>, tickHz: uint64)
    requires 0 < tickHz
    ensures IsValidated(tasks) <==>
            exists m: System :: IsWellFormed(m) && TickHz(m) == tickHz && AllDeclared(m.tasks) == tasks
  {
    hide IsWellFormed, IsValidated, ParseTickHz, Declared;
    if IsValidated(tasks) {
      ManifestExists(tasks, tickHz);
    }
    forall m: System | IsWellFormed(m) && AllDeclared(m.tasks) == tasks
      ensures IsValidated(tasks)
    {
      WellFormedIsValidated(m);
    }
  }

  /** ... and the report on that manifest is the analysis of that timing set. */
  lemma ManifestReports(tasks: seq<TaskTiming>, i: nat, tickHz: uint64)
    requires IsValidated(tasks) && 0 < tickHz && i < |tasks|
    ensures var m := ManifestOf(tasks, tickHz);
            IsWellFormed(m) && |m.tasks| == |tasks| && VerdictAt(m, i) == TickVerdict(tasks, i, tickHz)
  {
    hide ParseTickHz, Declare, Declared, IsWellFormed, IsValidated, VerdictOf;
    ManifestExists(tasks, tickHz);
  }
}
