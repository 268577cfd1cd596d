/** Runs of the fault-capture protocol: a boot left alone, a capture left alone, and the exact
    conditions under which a fault or a reset at the wrong moment breaks what the words promise. */
module CrashConsistency {
  import opened Words
  import opened Bits
  import opened Startup
  import opened FaultCapture

  lemma {:induction false} AfterConcat(b: Board, s: State, first: seq<Event>, rest: seq<Event>)
    requires Fits(b, s)
    ensures After(b, s, first + rest) == After(b, After(b, s, first), rest)
  {
    hide IsConsistent, At, Next;
    if rest == [] {
      assert first + rest == first;
    } else {
      AfterConcat(b, s, first, rest[..|rest| - 1]);
      assert (first + rest)[..|first + rest| - 1] == first + rest[..|rest| - 1];
    }
  }

  lemma OneFirst(b: Board, s: State, event: Event, rest: seq<Event>)
    requires Fits(b, s)
    ensures After(b, s, [event] + rest) == After(b, Next(b, s, event), rest)
  {
    hide IsConsistent, At, Next;
    AfterConcat(b, s, [event], rest);
    assert [event][..0] == [];
  }

  // ------------------------------------------------------------------ a boot left alone

  lemma CopySteps(b: Board, s: State, n: nat, record: Record)
    requires Fits(b, s) && s.thread == Copying(n) && n <= b.DataWords()
    ensures n < b.DataWords() ==>
              var k := At(b.l, b.l.sdata) + n;
              Stepped(b, s, record) == Stored(s, k, b.flash[ImageIndex(b.l, k)], Copying(n + 1))
    ensures n == b.DataWords() ==> Stepped(b, s, record) == s.(thread := Clearing(0))
  {
    hide IsConsistent, At, InFlash, Observed;
  }

  lemma {:induction false} CopyRuns(b: Board, s: State, n: nat, record: Record) returns (events: seq<Event>)
    requires Fits(b, s) && s.thread == Copying(n) && n <= b.DataWords()
    ensures var t := After(b, s, events);
            t == s.(ram := t.ram, thread := Clearing(0)) &&
            forall k: nat :: k < b.ramWords ==>
              t.ram[k] ==
                if At(b.l, b.l.sdata) + n <= k < At(b.l, b.l.edata) then b.flash[ImageIndex(b.l, k)] else s.ram[k]
    decreases b.DataWords() - n
  {
    hide IsConsistent, At, InFlash, Stepped, ImageIndex;
    CopySteps(b, s, n, record);
    var next := Stepped(b, s, record);
    if n == b.DataWords() {
      events := [];
    } else {
      events := CopyRuns(b, next, n + 1, record);
    }
    OneFirst(b, s, Step(record), events);
    events := [Step(record)] + events;
  }

  lemma ClearSteps(b: Board, s: State, n: nat, record: Record)
    requires Fits(b, s) && s.thread == Clearing(n) && n <= b.BssWords()
    ensures n < b.BssWords() ==> Stepped(b, s, record) == Stored(s, At(b.l, b.l.sbss) + n, 0, Clearing(n + 1))
    ensures n == b.BssWords() ==> Stepped(b, s, record) == s.(thread := Starting)
  {
    hide IsConsistent, At, InFlash, Observed;
  }

  lemma {:induction false} ClearRuns(b: Board, s: State, n: nat, record: Record) returns (events: seq<Event>)
    requires Fits(b, s) && s.thread == Clearing(n) && n <= b.BssWords()
    ensures var t := After(b, s, events);
            t == s.(ram := t.ram, thread := Starting) &&
            forall k: nat :: k < b.ramWords ==>
              t.ram[k] == if At(b.l, b.l.sbss) + n <= k < At(b.l, b.l.ebss) then 0 else s.ram[k]
    decreases b.BssWords() - n
  {
    hide IsConsistent, At, InFlash, Stepped;
    ClearSteps(b, s, n, record);
    var next := Stepped(b, s, record);
    if n == b.BssWords() {
      events := [];
    } else {
      events := ClearRuns(b, next, n + 1, record);
    }
    OneFirst(b, s, Step(record), events);
    events := [Step(record)] + events;
  }

  /** Left alone, the step model runs from reset to the idle loop and leaves in RAM what the reset
      stub and the first Rust entry are proved to leave there. */
  lemma BootRuns(b: Board, s: State, record: Record) returns (events: seq<Event>)
    requires Fits(b, s) && s.thread == Resetting
    ensures After(b, s, events)
         == s.(ram := Started(b.l, b.flash, Established(b.l, b.flash, s.ram)), thread := Idle, started := true)
  {
    hide IsConsistent, At, InFlash, Observed;
    var s1 := Stepped(b, s, record);
    var copy := CopyRuns(b, s1, 0, record);
    var s2 := After(b, s1, copy);
    var clear := ClearRuns(b, s2, 0, record);
    var s3 := After(b, s2, clear);
    assert s3.ram == Established(b.l, b.flash, s.ram);
    var start := [Step(record), Step(record)];
    assert start == [Step(record)] + [Step(record)] && [Step(record)] + [] == [Step(record)];
    OneFirst(b, s3, Step(record), [Step(record)]);
    OneFirst(b, Stepped(b, s3, record), Step(record), []);
    AfterConcat(b, s2, clear, start);
    AfterConcat(b, s1, copy, clear + start);
    OneFirst(b, s, Step(record), copy + (clear + start));
    events := [Step(record)] + (copy + (clear + start));
  }

  /** A boot keeps the evidence words. */
  lemma BootKeepsEvidence(b: Board, ram: seq<uint32>)
    requires b.Valid() && |ram| == b.ramWords
    ensures var after := Started(b.l, b.flash, Established(b.l, b.flash, ram));
            |after| == |ram| && after[b.Capture()] == CAPTURE_ARMED &&
            forall w: nat :: w < EVIDENCE_WORDS ==> Word(b, after, w) == Word(b, ram, w)
  {
    hide IsConsistent, At, InFlash, Observed;
  }

  // ------------------------------------------------------------------ a capture left alone

  /** From a fault over an armed state word to the entry of Rust. */
  function Entry(record: Record): seq<Event> {
    [Fault] + ([Step(record)] + ([Step(record)] + ([Step(record)] + ([Step(record)] + []))))
  }

  lemma GuardPasses(b: Board, s: State, record: Record)
    requires Fits(b, s) && s.thread == Loading && s.ram[b.Capture()] == CAPTURE_ARMED
    ensures Stepped(b, Stepped(b, s, record), record) == s.(thread := Marking)
  {
    hide IsConsistent, At, InFlash, Observed;
  }

  lemma GuardMarks(b: Board, s: State, record: Record)
    requires Fits(b, s) && s.thread == Marking
    ensures Stepped(b, Stepped(b, s, record), record)
         == s.(ram := s.ram[b.Capture() := CAPTURING], thread := Writing(record, 0), entered := s.entered + [record],
               records := s.records + {record})
  {
    hide IsConsistent, At, InFlash, Observed;
  }

  lemma EntryRuns(b: Board, s: State, record: Record)
    requires Fits(b, s) && s.ram[b.Capture()] == CAPTURE_ARMED
    ensures After(b, s, Entry(record))
         == State(s.ram[b.Capture() := 0x4341_5054], s.below + [s.thread], Writing(record, 0), s.started,
                  s.entered + [record], s.records + {record})
  {
    hide IsConsistent, At, InFlash, Stepped, After;
    var step := Step(record);
    var s1 := Next(b, s, Fault);
    var s2 := Next(b, s1, step);
    var s3 := Next(b, s2, step);
    var s4 := Next(b, s3, step);
    OneFirst(b, s, Fault, [step] + ([step] + ([step] + ([step] + []))));
    OneFirst(b, s1, step, [step] + ([step] + ([step] + [])));
    OneFirst(b, s2, step, [step] + ([step] + []));
    OneFirst(b, s3, step, [step] + []);
    OneFirst(b, s4, step, []);
    GuardPasses(b, s1, record);
    GuardMarks(b, s3, record);
    NothingHappens(b, Next(b, s4, step));
  }

  lemma NothingHappens(b: Board, s: State)
    requires Fits(b, s)
    ensures After(b, s, []) == s
  {}

  lemma WriteSteps(b: Board, s: State, r: Record, n: nat)
    requires Fits(b, s) && s.thread == Writing(r, n) && n < |b.order|
    ensures Stepped(b, s, r) == Stored(s, b.Evidence() + b.order[n], r[b.order[n]], Writing(r, n + 1))
    ensures var t := Stepped(b, s, r);
            Word(b, t.ram, b.order[n]) == r[b.order[n]] && t.ram[b.Capture()] == s.ram[b.Capture()] &&
            forall w: nat :: w < EVIDENCE_WORDS && w != b.order[n] ==> Word(b, t.ram, w) == Word(b, s.ram, w)
  {
    hide IsConsistent, At, InFlash, Observed;
  }

  /** The aggregate store, from its `n`-th word up to its `m`-th. */
  lemma {:induction false} WriteRuns(b: Board, s: State, r: Record, n: nat, m: nat) returns (events: seq<Event>)
    requires Fits(b, s) && s.thread == Writing(r, n) && n <= m <= |b.order|
    ensures var t := After(b, s, events);
            t == s.(ram := t.ram, thread := Writing(r, m)) && t.ram[b.Capture()] == s.ram[b.Capture()] &&
            (forall j :: n <= j < m ==> Word(b, t.ram, b.order[j]) == r[b.order[j]]) &&
            (forall w: nat :: w < EVIDENCE_WORDS && w !in b.order[n..m] ==> Word(b, t.ram, w) == Word(b, s.ram, w))
    decreases m - n
  {
    hide IsConsistent, At, InFlash, Stepped, Word;
    if n == m {
      events := [];
    } else {
      var next := Stepped(b, s, r);
      WriteSteps(b, s, r, n);
      var rest := WriteRuns(b, next, r, n + 1, m);
      OneFirst(b, s, Step(r), rest);
      assert b.order[n..m] == [b.order[n]] + b.order[n + 1..m];
      events := [Step(r)] + rest;
    }
  }

  lemma PublishSteps(b: Board, s: State, r: Record, record: Record)
    requires Fits(b, s) && s.thread == Publishing(r) && Shows(b, s.ram, r)
    ensures var t := Stepped(b, Stepped(b, s, record), record);
            t == s.(ram := t.ram, thread := Halted) && t.ram[b.Capture()] == CAPTURE_COMPLETE &&
            Shows(b, t.ram, Published(r))
  {
    hide IsConsistent, At, InFlash, Observed;
  }

  lemma WriteEnds(b: Board, s: State, r: Record, record: Record)
    requires Fits(b, s) && s.thread == Writing(r, |b.order|)
    ensures Stepped(b, s, record) == s.(thread := Publishing(r))
  {
    hide IsConsistent, At, InFlash, Observed;
  }

  /** Left alone, a fault in an armed system ends with its whole snapshot published. */
  lemma CaptureRuns(b: Board, s: State, record: Record) returns (events: seq<Event>)
    requires Fits(b, s) && s.ram[b.Capture()] == CAPTURE_ARMED
    ensures var t := After(b, s, events);
            t.thread == Halted && t.ram[b.Capture()] == CAPTURE_COMPLETE && Shows(b, t.ram, Published(record)) &&
            t.entered == s.entered + [record] && t.records == s.records + {record}
  {
    hide IsConsistent, At, InFlash, Entry, Stepped, After, Shows;
    EntryRuns(b, s, record);
    var s1 := After(b, s, Entry(record));
    var write := WriteRuns(b, s1, record, 0, |b.order|);
    var s2 := After(b, s1, write);
    WholeIsShown(b, s2.ram, record);
    WriteEnds(b, s2, record, record);
    var step := Step(record);
    var s3 := Next(b, s2, step);
    PublishSteps(b, s3, record, record);
    var s4 := Next(b, s3, step);
    OneFirst(b, s2, step, [step] + ([step] + []));
    OneFirst(b, s3, step, [step] + []);
    OneFirst(b, s4, step, []);
    NothingHappens(b, Next(b, s4, step));
    var publish := [step] + ([step] + ([step] + []));
    AfterConcat(b, s1, write, publish);
    AfterConcat(b, s, Entry(record), write + publish);
    events := Entry(record) + (write + publish);
  }

  /** The same, register by register: whatever a fault entry finds in the registers, the debugger
      finds at these places of RAM once the magic and the completion word are there. */
  lemma CaptureShowsRegisters(b: Board, s: State, regs: Registers) returns (events: seq<Event>)
    requires Fits(b, s) && s.ram[b.Capture()] == 0x4152_4D44
    requires 3 <= regs.exception <= 6 && |regs.frame| == 8
    requires regs.excReturn in {0xFFFF_FFF1, 0xFFFF_FFF9, 0xFFFF_FFFD, 0xFFFF_FFE1, 0xFFFF_FFE9, 0xFFFF_FFED}
    ensures var ram, stacked := After(b, s, events).ram, And(regs.cfsr, 0x3838) == 0 && regs.sp % 4 == 0;
            ram[b.Capture()] == 0x444F_4E45 && Word(b, ram, 0) == 0x4D41_4C46 && Word(b, ram, 1) == 1 &&
            Word(b, ram, 2) == regs.exception && Word(b, ram, 3) == regs.excReturn && Word(b, ram, 4) == regs.sp &&
            (forall i: nat :: i < 8 ==> Word(b, ram, 6 + i) == if stacked then regs.frame[i] else 0) &&
            Word(b, ram, 14) == regs.cfsr && Word(b, ram, 15) == regs.hfsr && Word(b, ram, 16) == regs.shcsr &&
            Word(b, ram, 17) == (if And(regs.cfsr, 0x80) != 0 then regs.mmfar else 0) &&
            Word(b, ram, 18) == (if And(regs.cfsr, 0x8000) != 0 then regs.bfar else 0)
    ensures regs.IsEntry() && Word(b, After(b, s, events).ram, 5) == Snapshot(regs)[5]
  {
    hide IsConsistent, At, InFlash, After, Snapshot, And, Word, Registers.IsEntry;
    SnapshotWords(regs);
    SnapshotIsRecord(regs);
    var record: Record := Snapshot(regs);
    events := CaptureRuns(b, s, record);
    WordsShown(b, After(b, s, events).ram, record);
  }

  lemma SnapshotIsRecord(regs: Registers)
    requires regs.IsEntry()
    ensures IsSnapshot(Snapshot(regs))
  {
    RecordsAreSnapshots(Snapshot(regs));
  }

  lemma WordsShown(b: Board, ram: seq<uint32>, r: Record)
    requires b.Valid() && |ram| == b.ramWords && Shows(b, ram, Published(r))
    ensures Word(b, ram, 0) == EVIDENCE_MAGIC && forall w: nat :: 0 < w < EVIDENCE_WORDS ==> Word(b, ram, w) == r[w]
  {
    hide IsConsistent, At, InFlash, Word;
  }

  // ------------------------------------------------------------------ before the stub's first store

  ghost predicate IsOneBoot(events: seq<Event>) {
    forall e :: e in events ==> e != Reset
  }

  /** Rust is entered for a capture while `.data` or `.bss` is not established. */
  ghost predicate EntersUnready(b: Board, ram: seq<uint32>, events: seq<Event>)
    requires Fits(b, PoweredOn(ram))
  {
    var s := After(b, PoweredOn(ram), events);
    s.entered != [] && !IsReady(b, s.ram)
  }

  /** Until the stub has made its first store: a ready RAM stays ready, and Rust stays out of
      reach unless the state word was armed to begin with. */
  ghost predicate IsEarly(b: Board, ram: seq<uint32>, s: State)
    requires Fits(b, s) && Fits(b, PoweredOn(ram))
  {
    !s.started ==>
      (IsReady(b, ram) ==> IsReady(b, s.ram)) &&
      (ram[b.Capture()] != CAPTURE_ARMED ==>
         s.ram[b.Capture()] == ram[b.Capture()] && s.entered == [] &&
         (s.thread.Resetting? || s.thread.Loading? || s.thread.Refused? ||
          (s.thread.Comparing? && s.thread.loaded != CAPTURE_ARMED)))
  }

  lemma {:induction false} OneBootIsEarly(b: Board, ram: seq<uint32>, events: seq<Event>)
    requires Fits(b, PoweredOn(ram)) && IsOneBoot(events)
    ensures IsEarly(b, ram, After(b, PoweredOn(ram), events))
  {
    hide IsConsistent, At, InFlash, IsEarly, Next, IsSafe;
    if events == [] {
      PowerOnIsEarly(b, ram);
    } else {
      var before, event := events[..|events| - 1], events[|events| - 1];
      assert event in events && forall e :: e in before ==> e in events;
      OneBootIsEarly(b, ram, before);
      EveryRunIsSafe(b, ram, before);
      NextIsEarly(b, ram, After(b, PoweredOn(ram), before), event);
    }
  }

  lemma PowerOnIsEarly(b: Board, ram: seq<uint32>)
    requires Fits(b, PoweredOn(ram))
    ensures IsEarly(b, ram, PoweredOn(ram))
  {
    hide IsConsistent, At, InFlash, IsReady;
  }

  lemma NextIsEarly(b: Board, ram: seq<uint32>, s: State, event: Event)
    requires Fits(b, s) && Fits(b, PoweredOn(ram)) && IsSafe(b, s) && IsEarly(b, ram, s) && event != Reset
    ensures IsEarly(b, ram, Next(b, s, event))
  {
    hide IsConsistent, At, InFlash, IsReady, Observed, IsWritten, Shows, IsCopied, IsCleared;
    if event.Step? && !s.started {
      match s.thread
      case Marking => StoreElsewhere(b, s.ram, b.Capture(), CAPTURING);
      case Writing(r, n) =>
        if n < |b.order| {
          StoreElsewhere(b, s.ram, b.Evidence() + b.order[n], r[b.order[n]]);
        }
      case Publishing(_) => StoreElsewhere(b, s.ram, b.Evidence(), EVIDENCE_MAGIC);
      case Completing(_) => StoreElsewhere(b, s.ram, b.Capture(), CAPTURE_COMPLETE);
      case _ =>
    }
  }

  /** The guard on entering Rust has one gap: a fault before the stub's first store finds what the
      state word held before the reset. Exactly from an armed word and unready RAM can a boot enter
      Rust with unready RAM. */
  lemma EntersUnreadyIff(b: Board, ram: seq<uint32>)
    requires Fits(b, PoweredOn(ram))
    ensures ram[b.Capture()] == CAPTURE_ARMED && !IsReady(b, ram) <==>
            exists events: seq<Event> :: IsOneBoot(events) && EntersUnready(b, ram, events)
  {
    hide IsConsistent, At, InFlash, IsReady, Next, IsSafe;
    if ram[b.Capture()] == CAPTURE_ARMED && !IsReady(b, ram) {
      TwoSnapshots();
      var record: Record := USAGE_FAULT;
      EntryRuns(b, PoweredOn(ram), record);
      MarkingKeepsUnready(b, ram);
      assert EntersUnready(b, ram, Entry(record)) && IsOneBoot(Entry(record));
    }
    forall events: seq<Event> | IsOneBoot(events) && EntersUnready(b, ram, events)
      ensures ram[b.Capture()] == CAPTURE_ARMED && !IsReady(b, ram)
    {
      CapturesOnceAndOnlyReady(b, ram, events);
      OneBootIsEarly(b, ram, events);
    }
  }

  lemma MarkingKeepsUnready(b: Board, ram: seq<uint32>)
    requires Fits(b, PoweredOn(ram)) && !IsReady(b, ram)
    ensures !IsReady(b, ram[b.Capture() := CAPTURING])
  {
    hide IsConsistent, At, InFlash;
    var after := ram[b.Capture() := CAPTURING];
    assert after[b.Capture() := ram[b.Capture()]] == ram;
    StoreElsewhere(b, after, b.Capture(), ram[b.Capture()]);
  }

  // ------------------------------------------------------------------ the magic word

  /** The magic word is stored before every word of the aggregate that can differ between captures. */
  ghost predicate MagicGoesFirst(order: seq<nat>) {
    exists p: nat :: IsMagicAt(order, p)
  }

  ghost predicate IsMagicAt(order: seq<nat>, p: nat) {
    p < |order| && order[p] == 0 && forall j :: 0 <= j < p ==> order[j] == 1
  }

  /** Whoever finds the magic word finds the whole snapshot of one capture with it. */
  ghost predicate MagicTells(b: Board, s: State)
    requires Fits(b, s)
  {
    s.ram[b.Evidence()] == EVIDENCE_MAGIC ==> ShowsACapture(b, s)
  }

  /** With the magic word at place `p` of the aggregate, it stays down until it is published. */
  ghost predicate IsDown(b: Board, s: State, p: nat)
    requires Fits(b, s)
  {
    s.thread.Writing? && p < s.thread.n ==> s.ram[b.Evidence()] == 0
  }

  lemma WritingTells(b: Board, s: State, record: Record, p: nat)
    requires Fits(b, s) && IsSafe(b, s) && IsMagicAt(b.order, p) && MagicTells(b, s) && IsDown(b, s, p)
    requires s.thread.Writing?
    ensures MagicTells(b, Stepped(b, s, record)) && IsDown(b, Stepped(b, s, record), p)
  {
    hide IsConsistent, At, InFlash, IsReady, IsCopied, IsCleared, IsWritten;
    var s' := Stepped(b, s, record);
    if s.thread.n < p && s.ram[b.Evidence()] == EVIDENCE_MAGIC {
      var r: Record :| r in s.records && Shows(b, s.ram, Published(r));
      assert Published(r)[1] == 1 && s.ram[b.Evidence() + 1] == 1;
      assert Shows(b, s'.ram, Published(r));
    }
  }

  lemma PublishingTells(b: Board, s: State, record: Record)
    requires Fits(b, s) && IsSafe(b, s) && s.thread.Publishing?
    ensures MagicTells(b, Stepped(b, s, record))
  {
    hide IsConsistent, At, InFlash, IsReady, IsCopied, IsCleared, IsWritten;
    assert Shows(b, Stepped(b, s, record).ram, Published(s.thread.record));
  }

  /** Other steps store no evidence. */
  lemma OthersTell(b: Board, s: State, event: Event)
    requires Fits(b, s) && IsSafe(b, s) && MagicTells(b, s)
    requires event.Step? ==> !s.thread.Writing? && !s.thread.Publishing?
    ensures MagicTells(b, Next(b, s, event))
  {
    hide IsConsistent, At, InFlash, IsReady, IsCopied, IsCleared, IsWritten, Shows, Observed, ShowsACapture;
    assert Next(b, s, event).ram[b.Evidence()] == s.ram[b.Evidence()];
    if s.ram[b.Evidence()] == EVIDENCE_MAGIC {
      NextShowsStill(b, s, event);
    }
  }

  lemma {:induction false} EveryRunTells(b: Board, ram: seq<uint32>, events: seq<Event>, p: nat)
    requires Fits(b, PoweredOn(ram)) && IsMagicAt(b.order, p) && ram[b.Evidence()] != EVIDENCE_MAGIC
    ensures var s := After(b, PoweredOn(ram), events); MagicTells(b, s) && IsDown(b, s, p)
  {
    hide IsConsistent, At, InFlash, Stepped, IsSafe, MagicTells;
    if events == [] {
      PowerOnTells(b, ram);
    } else {
      var s, event := After(b, PoweredOn(ram), events[..|events| - 1]), events[|events| - 1];
      EveryRunTells(b, ram, events[..|events| - 1], p);
      EveryRunIsSafe(b, ram, events[..|events| - 1]);
      NextTells(b, s, event, p);
    }
  }

  lemma PowerOnTells(b: Board, ram: seq<uint32>)
    requires Fits(b, PoweredOn(ram)) && ram[b.Evidence()] != EVIDENCE_MAGIC
    ensures MagicTells(b, PoweredOn(ram))
  {}

  lemma NextTells(b: Board, s: State, event: Event, p: nat)
    requires Fits(b, s) && IsSafe(b, s) && IsMagicAt(b.order, p) && MagicTells(b, s) && IsDown(b, s, p)
    ensures MagicTells(b, Next(b, s, event)) && IsDown(b, Next(b, s, event), p)
  {
    hide IsConsistent, At, InFlash, IsSafe, MagicTells, Observed;
    if event.Step? && s.thread.Writing? {
      WritingTells(b, s, event.record, p);
    } else if event.Step? && s.thread.Publishing? {
      PublishingTells(b, s, event.record);
    } else {
      OthersTell(b, s, event);
    }
  }

  /** From any memory without the magic word, over any number of boots, with resets and faults
      between any two stores: the magic word always comes with a whole snapshot. */
  ghost predicate IsCrashConsistent(b: Board)
    requires b.Valid()
  {
    forall ram: seq<uint32>, events: seq<Event> ::
      |ram| == b.ramWords && ram[b.Evidence()] != EVIDENCE_MAGIC ==> MagicTells(b, After(b, PoweredOn(ram), events))
  }

  /** The place of the first word other than the version. */
  lemma {:induction false} FirstDiffering(order: seq<nat>, j: nat) returns (p: nat)
    requires j < |order| && order[j] != 1
    ensures p <= j && order[p] != 1 && forall i :: 0 <= i < p ==> order[i] == 1
  {
    if i: nat :| i < j && order[i] != 1 {
      p := FirstDiffering(order, i);
    } else {
      p := j;
    }
  }

  /** One whole capture, a reset, and a boot: armed again, with the evidence still there. */
  lemma RearmedRun(b: Board, ram: seq<uint32>, first: Record) returns (events: seq<Event>)
    requires Fits(b, PoweredOn(ram))
    ensures var s := After(b, PoweredOn(ram), events);
            s.ram[b.Capture()] == CAPTURE_ARMED && s.records == {first} && Shows(b, s.ram, Published(first))
  {
    hide IsConsistent, At, InFlash, Next, Started, Established, Word, After;
    var boot := BootRuns(b, PoweredOn(ram), first);
    var s1 := After(b, PoweredOn(ram), boot);
    BootKeepsEvidence(b, ram);
    var capture := CaptureRuns(b, s1, first);
    var s2 := After(b, s1, capture);
    var s3 := Booted(s2.ram, s2.records);
    ResetRuns(b, s2);
    var reboot := BootRuns(b, s3, first);
    BootKeepsEvidence(b, s3.ram);
    AfterConcat(b, s2, [Reset], reboot);
    AfterConcat(b, s1, capture, [Reset] + reboot);
    AfterConcat(b, PoweredOn(ram), boot, capture + ([Reset] + reboot));
    events := boot + (capture + ([Reset] + reboot));
  }

  /** A second capture, stopped after it overwrote a word and before it took the magic word of the
      first one down: an undefined instruction in one boot, an escalated access fault in the next. */
  lemma TornRun(b: Board, ram: seq<uint32>, p: nat) returns (events: seq<Event>)
    requires Fits(b, PoweredOn(ram)) && p < |b.order| && 2 <= b.order[p] && forall j :: 0 <= j < p ==> b.order[j] == 1
    ensures !MagicTells(b, After(b, PoweredOn(ram), events))
  {
    hide IsConsistent, At, InFlash, Next, Entry, Word, Shows, After, MagicTells;
    TwoSnapshots();
    var first: Record, second: Record := USAGE_FAULT, HARD_FAULT;
    var rearm := RearmedRun(b, ram, first);
    var s1 := After(b, PoweredOn(ram), rearm);
    EntryRuns(b, s1, second);
    var s2 := After(b, s1, Entry(second));
    var write := WriteRuns(b, s2, second, 0, p + 1);
    MarkingKeepsEvidence(b, s1.ram);
    HalfOverwritten(b, s1.ram, first, second, After(b, s2, write), p);
    AfterConcat(b, s1, Entry(second), write);
    AfterConcat(b, PoweredOn(ram), rearm, Entry(second) + write);
    events := rearm + (Entry(second) + write);
  }

  lemma ResetRuns(b: Board, s: State)
    requires Fits(b, s)
    ensures After(b, s, [Reset]) == Booted(s.ram, s.records)
  {
    OneFirst(b, s, Reset, []);
    assert [Reset] + [] == [Reset];
  }

  lemma MarkingKeepsEvidence(b: Board, ram: seq<uint32>)
    requires b.Valid() && |ram| == b.ramWords
    ensures forall w: nat :: w < EVIDENCE_WORDS ==>
              Word(b, ram[b.Capture() := CAPTURING], w) == Word(b, ram, w)
  {
    hide IsConsistent, At, InFlash;
  }

  /** Neither snapshot is there: one word is of the second, another still of the first. */
  lemma HalfOverwritten(b: Board, ram: seq<uint32>, first: Record, second: Record, s: State, p: nat)
    requires Fits(b, s) && |ram| == b.ramWords && Shows(b, ram, Published(first))
    requires p < |b.order| && 2 <= b.order[p] && forall j :: 0 <= j < p ==> b.order[j] == 1
    requires forall w: nat :: 2 <= w < EVIDENCE_WORDS ==> first[w] != second[w]
    requires Word(b, s.ram, b.order[p]) == second[b.order[p]] && s.records == {first, second}
    requires forall w: nat :: w < EVIDENCE_WORDS && w !in b.order[0..p + 1] ==> Word(b, s.ram, w) == Word(b, ram, w)
    ensures !MagicTells(b, s)
  {
    hide IsConsistent, At, InFlash;
    var kept: nat := if b.order[p] == 2 then 3 else 2;
    assert 0 !in b.order[0..p + 1] && kept !in b.order[0..p + 1];
    assert Word(b, s.ram, 0) == EVIDENCE_MAGIC && Word(b, s.ram, kept) == first[kept];
  }

  /** The magic word is crash consistent exactly when the aggregate store takes it down before it
      overwrites any word that can differ between captures, as an ascending store does. */
  lemma CrashConsistentIff(b: Board)
    requires b.Valid()
    ensures IsCrashConsistent(b) <==> MagicGoesFirst(b.order)
  {
    hide IsConsistent, At, InFlash, MagicTells, After;
    if MagicGoesFirst(b.order) {
      var p: nat :| IsMagicAt(b.order, p);
      forall ram: seq<uint32>, events: seq<Event> | |ram| == b.ramWords && ram[b.Evidence()] != EVIDENCE_MAGIC
        ensures MagicTells(b, After(b, PoweredOn(ram), events))
      {
        EveryRunTells(b, ram, events, p);
      }
    } else {
      assert 0 in b.order;
      var j: nat :| j < |b.order| && b.order[j] == 0;
      var p := FirstDiffering(b.order, j);
      assert b.order[p] == 0 ==> IsMagicAt(b.order, p);
      var ram: seq<uint32> := seq(b.ramWords, k => 0);
      var events := TornRun(b, ram, p);
    }
  }
}
