/** A small system that validates, passes and has runs: the hypotheses of the end-to-end theorem
    can be met. */
module Example {
  import opened Words
  import opened Units
  import opened Ticks
  import opened Manifest
  import opened ResponseTime
  import opened TickRounding
  import opened Pipeline
  import opened Scheduler
  import opened ScheduleSoundness
  import opened ScheduleExactness
  import opened UtilisationLaws

  const CONTROL := Task("control", 2, "512B", Some("10us"), None, Some("1us"), ["ipc.samples"])
  const REPORT := Task("report", 1, "1KiB", Some("10us"), Some("2us"), Some("1us"), ["net.mqtt"])
  const SAMPLES := Channel("samples", "control", "report", 16, "drop-oldest")
  const SYSTEM := System("1MHz", [REPORT, CONTROL], [SAMPLES])

  lemma Rate()
    ensures ParseTickHz("1MHz") == Some(1_000_000)
  {
    assert "1MHz"[..1] == "1" && "1MHz"[1..] == "MHz";
    assert "1"[..0] == [];
    assert DigitRun("MHz") == 0 && DigitRun("1MHz") == 1;
  }

  lemma Numerals()
    ensures Decimal(1) == "1" && Decimal(2) == "2" && Decimal(10) == "10" && Decimal(512) == "512"
  {}

  lemma Times()
    ensures Parse(Time, "10us") == Ok(10_000) && Parse(Time, "2us") == Ok(2_000) && Parse(Time, "1us") == Ok(1_000)
  {
    hide Parse, Decimal;
    Numerals();
    ParsePlain(Time, 10, "us");
    ParsePlain(Time, 2, "us");
    ParsePlain(Time, 1, "us");
    assert "10" + "us" == "10us" && "2" + "us" == "2us" && "1" + "us" == "1us";
  }

  lemma Stacks()
    ensures Parse(Size, "512B") == Ok(512) && Parse(Size, "1KiB") == Ok(1_024)
  {
    hide Parse, Decimal;
    Numerals();
    ParsePlain(Size, 512, "B");
    ParsePlain(Size, 1, "KiB");
    assert "512" + "B" == "512B" && "1" + "KiB" == "1KiB";
  }

  lemma HoldsItsChannel()
    ensures HoldsOnlyItsChannels(SYSTEM, CONTROL) && HoldsOnlyItsChannels(SYSTEM, REPORT)
  {
    assert SAMPLES in SYSTEM.channels;
    forall name: string | "ipc." + name in CONTROL.capabilities
      ensures name == "samples"
    {
      assert ("ipc." + name)[4..] == name && "ipc.samples"[4..] == "samples";
    }
    forall name: string
      ensures "ipc." + name !in REPORT.capabilities
    {
      assert ("ipc." + name)[0] == 'i';
    }
  }

  lemma Validates()
    ensures IsWellFormed(SYSTEM)
  {
    hide Parse, ParseTickHz, HoldsOnlyItsChannels;
    Rate();
    Times();
    Stacks();
    HoldsItsChannel();
    assert REPORT in SYSTEM.tasks && CONTROL in SYSTEM.tasks;
  }

  lemma Rounds(k: nat)
    requires k < 2
    ensures IsRoundable(AllDeclared(SYSTEM.tasks), k, TickHz(SYSTEM)) && HaveDistinctLevels(SYSTEM.tasks)
  {
    hide Parse, ParseTickHz, IsExact, IsLast, ToTicks, HasNoRoomForTwo;
    Rate();
    Times();
    AlignedIsExact(10_000, 1_000_000);
    AlignedIsExact(2_000, 1_000_000);
    WholeTicks(10_000, 1_000_000);
    WholeTicks(2_000, 1_000_000);
    assert AllDeclared(SYSTEM.tasks) == [Declared(REPORT), Declared(CONTROL)];
  }

  /** Both tasks pass; the less urgent one has no slack. */
  lemma Passes()
    ensures VerdictOf(Analysed(SYSTEM)[0], Analysed(SYSTEM)) == Pass(2, 0)
    ensures VerdictOf(Analysed(SYSTEM)[1], Analysed(SYSTEM)) == Pass(1, 9)
  {
    hide Parse, ParseTickHz, VerdictOf;
    Rate();
    Times();
    WholeTicks(10_000, 1_000_000);
    WholeTicks(2_000, 1_000_000);
    WholeTicks(1_000, 1_000_000);
    var low := TaskTiming("report", 1, Some(10), Some(2), Some(1), 0);
    var high := TaskTiming("control", 2, Some(10), None, Some(1), 0);
    assert Analysed(SYSTEM) == [low, high];
    PairPasses(low, high);
    AlonePasses(low, high);
  }

  lemma AlonePasses(low: TaskTiming, high: TaskTiming)
    requires high.period == Some(10) && high.deadline == None && high.wcet == Some(1) && high.blocking == 0
    requires low.priority < high.priority
    ensures VerdictOf(high, [low, high]) == Pass(1, 9)
  {
    assert [low, high][..1] == [low] && [low][..0] == [];
    assert Gather(high, [low]) == Loads([]) && Gather(high, [low, high]) == Loads([]);
  }

  /** Its report is a pass, at a fifth of the CPU. */
  lemma ReportsPass(analysis: Analysis)
    requires analysis.utilisationPpm == Utilisation(Analysed(SYSTEM)) && |analysis.verdicts| == 2
    requires forall k :: 0 <= k < 2 ==>
               analysis.verdicts[k] == (SYSTEM.tasks[k].name, VerdictOf(Analysed(SYSTEM)[k], Analysed(SYSTEM)))
    ensures analysis == Analysis([("report", Pass(2, 0)), ("control", Pass(1, 9))], 200_000)
    ensures analysis.IsSchedulable()
  {
    hide Parse, ParseTickHz, VerdictOf;
    Passes();
    UsesAFifth();
  }

  lemma UsesAFifth()
    ensures Utilisation(Analysed(SYSTEM)) == 200_000
  {
    hide Parse, ParseTickHz;
    Rate();
    Times();
    WholeTicks(10_000, 1_000_000);
    WholeTicks(1_000, 1_000_000);
    var tasks := Analysed(SYSTEM);
    assert tasks == [tasks[0]] + [tasks[1]];
    UtilisationAdds([tasks[0]], [tasks[1]]);
    UtilisationOfOne(tasks[0]);
    UtilisationOfOne(tasks[1]);
  }

  /** It runs for as long as one likes, and in every run every deadline is met to the nanosecond. */
  lemma RunsAndMeetsItsDeadlines(n: nat)
    ensures exists run: Run :: IsRun(AllDeclared(SYSTEM.tasks), run) && |run.cpu| == n
    ensures forall run: Run :: IsRun(AllDeclared(SYSTEM.tasks), run) ==>
              RespondsWithin(run, 0, 2_000) && RespondsWithin(run, 1, 10_000)
  {
    hide Parse, ParseTickHz, VerdictOf, IsRun, RespondsWithin, IsWellFormed, IsRoundable, CountsEveryRival;
    Validates();
    Rounds(0);
    Rounds(1);
    Passes();
    Times();
    var w := TickPassSuffices(AllDeclared(SYSTEM.tasks), 0, TickHz(SYSTEM));
    var run := SynchronousRunExists(AllDeclared(SYSTEM.tasks), 0, n);
    DistinctLevelsCountAll(SYSTEM, 0);
    DistinctLevelsCountAll(SYSTEM, 1);
    forall run: Run | IsRun(AllDeclared(SYSTEM.tasks), run)
      ensures RespondsWithin(run, 0, 2_000) && RespondsWithin(run, 1, 10_000)
    {
      ReportedPassHolds(SYSTEM, 0, run);
      ReportedPassHolds(SYSTEM, 1, run);
    }
  }
}
