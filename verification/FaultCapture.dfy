/** Fault capture as a step model: the reset stub, the first Rust entry and every fault handler
    share RAM word by word; a fault or a reset may strike between any two steps; RAM outlives
    resets. Fault handlers never return, so a fault suspends the thread that it strikes for good. */
module FaultCapture {
  import opened Words
  import opened Bits
  import opened Startup

  const CAPTURING: uint32 := 0x4341_5054
  const CAPTURE_COMPLETE: uint32 := 0x444F_4E45
  const EVIDENCE_MAGIC: uint32 := 0x4D41_4C46
  const EVIDENCE_VERSION: uint32 := 1

  // ------------------------------------------------------------------ snapshots

  const FRAME_VALID: uint32 := 1
  const FRAME_EXTENDED: uint32 := 2
  const FRAME_USED_PSP: uint32 := 4
  const FRAME_MMFAR_VALID: uint32 := 8
  const FRAME_BFAR_VALID: uint32 := 16

  /** Bit tests, by the weight of the bit. */
  predicate IsSet(word: uint32, weight: positive) {
    word / weight % 2 == 1
  }

  predicate StackingFailed(cfsr: uint32) {
    IsSet(cfsr, 0x8) || IsSet(cfsr, 0x10) || IsSet(cfsr, 0x20) ||
    IsSet(cfsr, 0x800) || IsSet(cfsr, 0x1000) || IsSet(cfsr, 0x2000)
  }

  predicate IsMmfarValid(cfsr: uint32) {
    IsSet(cfsr, 0x80)
  }

  predicate IsBfarValid(cfsr: uint32) {
    IsSet(cfsr, 0x8000)
  }

  /** The flags for each way in which the hardware stacks a frame. */
  function FrameLayout(excReturn: uint32): Option<uint32> {
    if excReturn == 0xFFFF_FFF1 || excReturn == 0xFFFF_FFF9 then Some(0)
    else if excReturn == 0xFFFF_FFFD then Some(FRAME_USED_PSP)
    else if excReturn == 0xFFFF_FFE1 || excReturn == 0xFFFF_FFE9 then Some(FRAME_EXTENDED)
    else if excReturn == 0xFFFF_FFED then Some(FRAME_EXTENDED + FRAME_USED_PSP)
    else None
  }

  /** What the capture routine finds: arguments, status registers and the stacked frame. */
  datatype Registers = Registers(
    exception: uint32, excReturn: uint32, sp: uint32, frame: seq<uint32>,
    cfsr: uint32, hfsr: uint32, shcsr: uint32, mmfar: uint32, bfar: uint32)
  {
    /** One of the four installed vectors, entered as the architecture enters them. */
    predicate IsEntry() {
      3 <= exception <= 6 && FrameLayout(excReturn).Some? && |frame| == 8
    }

    predicate HasFrame() {
      FrameLayout(excReturn).Some? && !StackingFailed(cfsr) && sp % 4 == 0
    }

    function Flags(): uint32
      requires IsEntry()
    {
      (if HasFrame() then FrameLayout(excReturn).value + FRAME_VALID else 0)
      + (if IsMmfarValid(cfsr) then FRAME_MMFAR_VALID else 0) + if IsBfarValid(cfsr) then FRAME_BFAR_VALID else 0
    }
  }

  /** The snapshot as it is first written: no magic yet, no address register without its valid bit,
      no frame that stacking did not complete. */
  function Snapshot(regs: Registers): (r: Record)
    requires regs.IsEntry()
  {
    var r := [0, EVIDENCE_VERSION, regs.exception, regs.excReturn, regs.sp, regs.Flags()]
      + (if regs.HasFrame() then regs.frame else NO_FRAME)
      + [regs.cfsr, regs.hfsr, regs.shcsr, if IsMmfarValid(regs.cfsr) then regs.mmfar else 0,
         if IsBfarValid(regs.cfsr) then regs.bfar else 0];
    assert r[6..14] == if regs.HasFrame() then regs.frame else NO_FRAME;
    r
  }

  const NO_FRAME: seq<uint32> := [0, 0, 0, 0, 0, 0, 0, 0]

  /** The registers that a snapshot shows. */
  function Shown(r: seq<uint32>): Registers
    requires |r| == EVIDENCE_WORDS
  {
    Registers(r[2], r[3], r[4], r[6..14], r[14], r[15], r[16], r[17], r[18])
  }

  /** Words that some capture can write. */
  predicate IsSnapshot(r: seq<uint32>) {
    |r| == EVIDENCE_WORDS && r[0] == 0 && r[1] == EVIDENCE_VERSION && IsConsistent(r)
  }

  predicate IsConsistent(r: seq<uint32>)
    requires |r| == EVIDENCE_WORDS
  {
    var regs := Shown(r);
    regs.IsEntry() && r[5] == regs.Flags() && (!regs.HasFrame() ==> regs.frame == NO_FRAME) &&
    (!IsMmfarValid(regs.cfsr) ==> regs.mmfar == 0) && (!IsBfarValid(regs.cfsr) ==> regs.bfar == 0)
  }

  type Record = r: seq<uint32> | IsSnapshot(r) witness USAGE_FAULT

  /** An undefined instruction in thread mode. */
  const USAGE_FAULT: seq<uint32> :=
    [0, 1, 6, 0xFFFF_FFF9, 0x2001_FFC0, 1, 1, 2, 3, 4, 5, 0x0800_0101, 0x0800_0200, 0x0100_0000,
     0x1_0000, 0, 0x7_0008, 0, 0]

  /** Escalated data access violations with both fault addresses valid. */
  const HARD_FAULT: seq<uint32> :=
    [0, 1, 3, 0xFFFF_FFFD, 0x2001_0000, 29, 11, 12, 13, 14, 15, 0x0800_0301, 0x0800_0400, 0x2100_0000,
     0x8282, 0x4000_0000, 0x7_0000, 0x10, 0x6000_0000]

  /** The records are exactly the snapshots that the capture routine takes. */
  lemma RecordsAreSnapshots(r: seq<uint32>)
    ensures IsSnapshot(r) <==> exists regs: Registers :: regs.IsEntry() && Snapshot(regs) == r
  {
    hide StackingFailed, IsMmfarValid, IsBfarValid, FrameLayout;
    if IsSnapshot(r) {
      assert Snapshot(Shown(r)) == r;
    }
  }

  // ------------------------------------------------------------------ which register goes where

  /** Six errors, three in each of two bytes of the status word. */
  lemma StackingErrors(q: nat)
    ensures Has(0x3838, q) <==> q == 3 || q == 4 || q == 5 || q == 11 || q == 12 || q == 13
  {
    assert ShiftRight(0x3838, 8) == 0x38;
    if 8 <= q {
      HasShifted(0x3838, 8, q - 8);
      ThreeBits(q - 8);
    }
  }

  lemma ThreeBits(q: nat)
    ensures Has(0x38, q) <==> q == 3 || q == 4 || q == 5
  {
    if 6 <= q {
      assert Pow2(6) == 0x40;
      Pow2Mono(6, q);
      NoBits(0x38, q);
    }
  }

  /** The hardware failed to stack the frame exactly when the status word meets the error mask. */
  lemma StackingFailedIsMasked(cfsr: uint32)
    ensures StackingFailed(cfsr) <==> And(cfsr, 0x3838) != 0
  {
    hide And;
    AndIffShared(cfsr, 0x3838);
    forall q: nat
      ensures Has(0x3838, q) <==> q == 3 || q == 4 || q == 5 || q == 11 || q == 12 || q == 13
    {
      StackingErrors(q);
    }
    StackingBits(cfsr);
  }

  lemma StackingBits(cfsr: uint32)
    ensures StackingFailed(cfsr) <==>
            Has(cfsr, 3) || Has(cfsr, 4) || Has(cfsr, 5) || Has(cfsr, 11) || Has(cfsr, 12) || Has(cfsr, 13)
  {
    hide Has;
    Powers();
    BitIsParity(cfsr, 3);
    BitIsParity(cfsr, 4);
    BitIsParity(cfsr, 5);
    BitIsParity(cfsr, 11);
    BitIsParity(cfsr, 12);
    BitIsParity(cfsr, 13);
  }

  lemma Powers()
    ensures Pow2(3) == 0x8 && Pow2(4) == 0x10 && Pow2(5) == 0x20 && Pow2(7) == 0x80
    ensures Pow2(11) == 0x800 && Pow2(12) == 0x1000 && Pow2(13) == 0x2000 && Pow2(15) == 0x8000
  {}

  lemma ValidBits(cfsr: uint32)
    ensures IsMmfarValid(cfsr) <==> And(cfsr, 0x80) != 0
    ensures IsBfarValid(cfsr) <==> And(cfsr, 0x8000) != 0
  {
    hide Has, And, Pow2;
    Powers();
    MaskTests(cfsr, 7);
    MaskTests(cfsr, 15);
    BitIsParity(cfsr, 7);
    BitIsParity(cfsr, 15);
  }

  /** The frame is there unless stacking failed or the stack pointer is misaligned. */
  lemma FrameIffStacked(regs: Registers)
    requires regs.IsEntry()
    ensures regs.HasFrame() <==> And(regs.cfsr, 0x3838) == 0 && regs.sp % 4 == 0
  {
    hide And, StackingFailed, FrameLayout;
    StackingFailedIsMasked(regs.cfsr);
  }

  /** Every fault entry, word by word: which register lands at which offset of the evidence, and what
      stands there when the hardware vouches for neither the frame nor an address. */
  lemma SnapshotWords(regs: Registers)
    requires 3 <= regs.exception <= 6 && |regs.frame| == 8
    requires regs.excReturn in {0xFFFF_FFF1, 0xFFFF_FFF9, 0xFFFF_FFFD, 0xFFFF_FFE1, 0xFFFF_FFE9, 0xFFFF_FFED}
    ensures regs.IsEntry()
    ensures var r, stacked := Snapshot(regs), And(regs.cfsr, 0x3838) == 0 && regs.sp % 4 == 0;
            r[0] == 0 && r[1] == 1 && r[2] == regs.exception && r[3] == regs.excReturn && r[4] == regs.sp &&
            (forall i: nat :: i < 8 ==> r[6 + i] == if stacked then regs.frame[i] else 0) &&
            r[14] == regs.cfsr && r[15] == regs.hfsr && r[16] == regs.shcsr &&
            r[17] == (if And(regs.cfsr, 0x80) != 0 then regs.mmfar else 0) &&
            r[18] == (if And(regs.cfsr, 0x8000) != 0 then regs.bfar else 0)
  {
    hide And, StackingFailed, IsMmfarValid, IsBfarValid;
    FrameIffStacked(regs);
    ValidBits(regs.cfsr);
  }

  /** The flags, bit by bit: frame present, extended frame, process stack, each address. */
  lemma SnapshotFlags(regs: Registers)
    requires regs.IsEntry()
    ensures var flags, stacked := Snapshot(regs)[5], And(regs.cfsr, 0x3838) == 0 && regs.sp % 4 == 0;
            flags < 32 && (Has(flags, 0) <==> stacked) &&
            (Has(flags, 1) <==> stacked && regs.excReturn in {0xFFFF_FFE1, 0xFFFF_FFE9, 0xFFFF_FFED}) &&
            (Has(flags, 2) <==> stacked && regs.excReturn in {0xFFFF_FFFD, 0xFFFF_FFED}) &&
            (Has(flags, 3) <==> And(regs.cfsr, 0x80) != 0) && (Has(flags, 4) <==> And(regs.cfsr, 0x8000) != 0)
  {
    hide And, Has, StackingFailed, IsMmfarValid, IsBfarValid;
    FrameIffStacked(regs);
    ValidBits(regs.cfsr);
    FiveBits(regs.Flags());
  }

  lemma FiveBits(flags: nat)
    ensures Has(flags, 0) == (flags % 2 == 1) && Has(flags, 1) == (flags / 2 % 2 == 1)
    ensures Has(flags, 2) == (flags / 4 % 2 == 1) && Has(flags, 3) == (flags / 8 % 2 == 1)
    ensures Has(flags, 4) == (flags / 16 % 2 == 1)
  {
    assert Pow2(1) == 2 && Pow2(2) == 4 && Pow2(3) == 8 && Pow2(4) == 16;
    BitIsParity(flags, 1);
    BitIsParity(flags, 2);
    BitIsParity(flags, 3);
    BitIsParity(flags, 4);
  }

  /** Two of them can differ in every word after the version. */
  lemma TwoSnapshots()
    ensures IsSnapshot(USAGE_FAULT) && IsSnapshot(HARD_FAULT)
    ensures forall w: nat :: 2 <= w < EVIDENCE_WORDS ==> USAGE_FAULT[w] != HARD_FAULT[w]
  {}

  /** A published snapshot. */
  function Published(r: Record): seq<uint32> {
    r[0 := EVIDENCE_MAGIC]
  }

  /** `order` is the sequence of words in which the compiler stores the snapshot aggregate. */
  datatype Board = Board(l: Layout, flash: seq<uint32>, ramWords: nat, order: seq<nat>) {
    ghost predicate Valid() {
      IsMapped(l, |flash|, ramWords) &&
      (forall k :: 0 <= k < |order| ==> order[k] < EVIDENCE_WORDS) &&
      forall w: nat :: w < EVIDENCE_WORDS ==> w in order
    }

    function Capture(): int { At(l, l.captureState) }

    function Evidence(): int { At(l, l.faultEvidence) }

    function DataWords(): int { At(l, l.edata) - At(l, l.sdata) }

    function BssWords(): int { At(l, l.ebss) - At(l, l.sbss) }
  }

  datatype Thread =
    // from reset to the idle loop, by the store that comes next
    | Resetting
    | Copying(n: nat)
    | Clearing(n: nat)
    | Starting
    | Arming
    | Idle
    // from a fault to one of the two endless loops
    | Loading
    | Comparing(loaded: uint32)
    | Marking
    | Entering
    | Writing(record: Record, n: nat)
    | Publishing(record: Record)
    | Completing(record: Record)
    | Halted
    | Refused

  /** RAM, the running thread above the suspended ones, and the history: whether the stub's first
      store was made in this boot, the snapshots Rust was entered for in this boot, and all ever. */
  datatype State = State(
    ram: seq<uint32>, below: seq<Thread>, thread: Thread, started: bool, entered: seq<Record>, records: set<Record>)

  datatype Event = Step(record: Record) | Fault | Reset

  function Booted(ram: seq<uint32>, records: set<Record>): State {
    State(ram, [], Resetting, false, [], records)
  }

  function PoweredOn(ram: seq<uint32>): State {
    Booted(ram, {})
  }

  ghost predicate Fits(b: Board, s: State) {
    b.Valid() && |s.ram| == b.ramWords
  }

  /** The running thread stores a word and moves on. */
  function Stored(s: State, k: int, word: uint32, thread: Thread): State
    requires 0 <= k < |s.ram|
  {
    s.(ram := s.ram[k := word], thread := thread)
  }

  /** One step of the running thread. A handler that enters Rust finds `record` in the registers. */
  function Stepped(b: Board, s: State, record: Record): (s': State)
    requires Fits(b, s)
    ensures Fits(b, s')
  {
    hide At;
    match s.thread
    case Resetting => Stored(s, b.Capture(), RESET_STARTED, Copying(0)).(started := true)
    case Copying(n) =>
      if n < b.DataWords() then
        var k := At(b.l, b.l.sdata) + n;
        Stored(s, k, b.flash[ImageIndex(b.l, k)], Copying(n + 1))
      else s.(thread := Clearing(0))
    case Clearing(n) =>
      if n < b.BssWords() then Stored(s, At(b.l, b.l.sbss) + n, 0, Clearing(n + 1)) else s.(thread := Starting)
    case Starting => Stored(s, At(b.l, b.l.bootEvidence), Observed(b.l, b.flash, s.ram), Arming)
    case Arming => Stored(s, b.Capture(), CAPTURE_ARMED, Idle)
    case Loading => s.(thread := Comparing(s.ram[b.Capture()]))
    case Comparing(loaded) => s.(thread := if loaded == CAPTURE_ARMED then Marking else Refused)
    case Marking => Stored(s, b.Capture(), CAPTURING, Entering)
    case Entering => s.(thread := Writing(record, 0), entered := s.entered + [record], records := s.records + {record})
    case Writing(r, n) =>
      if n < |b.order| then Stored(s, b.Evidence() + b.order[n], r[b.order[n]], Writing(r, n + 1))
      else s.(thread := Publishing(r))
    case Publishing(r) => Stored(s, b.Evidence(), EVIDENCE_MAGIC, Completing(r))
    case Completing(r) => Stored(s, b.Capture(), CAPTURE_COMPLETE, Halted)
    case Idle => s
    case Halted => s
    case Refused => s
  }

  function Next(b: Board, s: State, event: Event): (s': State)
    requires Fits(b, s)
    ensures Fits(b, s')
  {
    match event
    case Step(record) => Stepped(b, s, record)
    case Fault => s.(below := s.below + [s.thread], thread := Loading)
    case Reset => Booted(s.ram, s.records)
  }

  function After(b: Board, s: State, events: seq<Event>): (s': State)
    requires Fits(b, s)
    ensures Fits(b, s')
  {
    if events == [] then s else Next(b, After(b, s, events[..|events| - 1]), events[|events| - 1])
  }

  // ------------------------------------------------------------------ what RAM holds

  ghost predicate IsCopied(b: Board, ram: seq<uint32>, n: nat)
    requires b.Valid() && |ram| == b.ramWords && n <= b.DataWords()
  {
    forall k: nat :: At(b.l, b.l.sdata) <= k < At(b.l, b.l.sdata) + n ==> ram[k] == b.flash[ImageIndex(b.l, k)]
  }

  ghost predicate IsCleared(b: Board, ram: seq<uint32>, n: nat)
    requires b.Valid() && |ram| == b.ramWords && n <= b.BssWords()
  {
    forall k: nat :: At(b.l, b.l.sbss) <= k < At(b.l, b.l.sbss) + n ==> ram[k] == 0
  }

  /** `.data` equals its image and `.bss` is zero. */
  ghost predicate IsReady(b: Board, ram: seq<uint32>)
    requires b.Valid() && |ram| == b.ramWords
  {
    IsCopied(b, ram, b.DataWords()) && IsCleared(b, ram, b.BssWords())
  }

  /** One of the evidence words. */
  function Word(b: Board, ram: seq<uint32>, w: nat): uint32
    requires b.Valid() && |ram| == b.ramWords && w < EVIDENCE_WORDS
  {
    hide IsConsistent, At;
    ram[b.Evidence() + w]
  }

  /** The evidence words are exactly these. */
  ghost predicate Shows(b: Board, ram: seq<uint32>, words: seq<uint32>)
    requires b.Valid() && |ram| == b.ramWords && |words| == EVIDENCE_WORDS
  {
    forall w: nat :: w < EVIDENCE_WORDS ==> Word(b, ram, w) == words[w]
  }

  /** The first `n` stores of the aggregate have been made. */
  ghost predicate IsWritten(b: Board, ram: seq<uint32>, r: Record, n: nat)
    requires b.Valid() && |ram| == b.ramWords && n <= |b.order|
  {
    forall j :: 0 <= j < n ==> Word(b, ram, b.order[j]) == r[b.order[j]]
  }

  lemma StoreElsewhere(b: Board, ram: seq<uint32>, k: int, word: uint32)
    requires b.Valid() && |ram| == b.ramWords && At(b.l, b.l.suninit) <= k < b.ramWords
    ensures IsReady(b, ram) ==> IsReady(b, ram[k := word])
    ensures !(b.Evidence() <= k < b.Evidence() + EVIDENCE_WORDS) ==>
              forall words: seq<uint32> :: |words| == EVIDENCE_WORDS ==>
                (Shows(b, ram[k := word], words) <==> Shows(b, ram, words))
  {
    hide IsConsistent, At, InFlash;
  }

  lemma WholeIsShown(b: Board, ram: seq<uint32>, r: Record)
    requires b.Valid() && |ram| == b.ramWords && IsWritten(b, ram, r, |b.order|)
    ensures Shows(b, ram, r)
  {
    hide IsConsistent, At, InFlash;
    forall w: nat | w < EVIDENCE_WORDS
      ensures Word(b, ram, w) == r[w]
    {
      assert w in b.order;
    }
  }

  // ------------------------------------------------------------------ the invariant

  /** What holds of the running thread. */
  ghost predicate IsAt(b: Board, s: State)
    requires Fits(b, s)
  {
    var state := s.ram[b.Capture()];
    match s.thread
    case Resetting => !s.started && s.entered == []
    case Copying(n) =>
      s.started && s.entered == [] && state == RESET_STARTED && n <= b.DataWords() && IsCopied(b, s.ram, n)
    case Clearing(n) =>
      s.started && s.entered == [] && state == RESET_STARTED && IsCopied(b, s.ram, b.DataWords()) &&
      n <= b.BssWords() && IsCleared(b, s.ram, n)
    case Starting => s.started && s.entered == [] && state == RESET_STARTED && IsReady(b, s.ram)
    case Arming => s.started && s.entered == [] && state == RESET_STARTED && IsReady(b, s.ram)
    case Idle => s.started && state == CAPTURE_ARMED
    case Comparing(loaded) => loaded == CAPTURE_ARMED ==> state == CAPTURE_ARMED
    case Marking => state == CAPTURE_ARMED
    case Entering => s.entered == [] && state == CAPTURING && (s.started ==> IsReady(b, s.ram))
    case Writing(r, n) =>
      s.entered == [r] && state == CAPTURING && n <= |b.order| && IsWritten(b, s.ram, r, n)
    case Publishing(r) => s.entered == [r] && state == CAPTURING && Shows(b, s.ram, r)
    case Completing(r) => s.entered == [r] && state == CAPTURING && Shows(b, s.ram, Published(r))
    case _ => true
  }

  /** An armed state word means that Rust was not entered in this boot and, if the stub has made
      its first store, that RAM is ready. */
  ghost predicate IsSafe(b: Board, s: State)
    requires Fits(b, s)
  {
    IsAt(b, s) && |s.entered| <= 1 && (forall r :: r in s.entered ==> r in s.records) &&
    (s.ram[b.Capture()] == CAPTURE_ARMED ==> s.entered == []) &&
    (s.started && (s.entered != [] || s.ram[b.Capture()] == CAPTURE_ARMED) ==> IsReady(b, s.ram)) &&
    (s.ram[b.Capture()] == CAPTURE_COMPLETE && (s.started || s.entered != []) ==>
       s.entered != [] && Shows(b, s.ram, Published(s.entered[0])))
  }

  /** Is the running thread one that prepares RAM? */
  predicate Prepares(t: Thread) {
    t.Resetting? || t.Copying? || t.Clearing? || t.Starting? || t.Arming?
  }

  lemma PreparingIsSafe(b: Board, s: State, record: Record)
    requires Fits(b, s) && IsSafe(b, s) && Prepares(s.thread)
    ensures IsSafe(b, Stepped(b, s, record))
  {
    hide IsConsistent, At, InFlash, Observed;
  }

  lemma CheckingIsSafe(b: Board, s: State, record: Record)
    requires Fits(b, s) && IsSafe(b, s) && !Prepares(s.thread)
    requires !s.thread.Writing? && !s.thread.Publishing? && !s.thread.Completing?
    ensures IsSafe(b, Stepped(b, s, record))
  {
    hide IsConsistent, At, InFlash, Observed, IsReady;
    if s.thread.Marking? {
      StoreElsewhere(b, s.ram, b.Capture(), CAPTURING);
    }
  }

  lemma RecordingIsSafe(b: Board, s: State, record: Record)
    requires Fits(b, s) && IsSafe(b, s) && (s.thread.Writing? || s.thread.Publishing? || s.thread.Completing?)
    ensures IsSafe(b, Stepped(b, s, record))
  {
    hide IsConsistent, At, InFlash, Observed, IsReady, IsCopied, IsCleared;
    match s.thread
    case Writing(r, n) =>
      if n == |b.order| {
        WholeIsShown(b, s.ram, r);
      } else {
        StoreElsewhere(b, s.ram, b.Evidence() + b.order[n], r[b.order[n]]);
      }
    case Publishing(_) => StoreElsewhere(b, s.ram, b.Evidence(), EVIDENCE_MAGIC);
    case Completing(_) => StoreElsewhere(b, s.ram, b.Capture(), CAPTURE_COMPLETE);
  }

  lemma NextIsSafe(b: Board, s: State, event: Event)
    requires Fits(b, s) && IsSafe(b, s)
    ensures IsSafe(b, Next(b, s, event))
  {
    hide IsConsistent, At, InFlash, IsReady, Shows, IsCopied, IsCleared, IsWritten;
    if event.Step? {
      if Prepares(s.thread) {
        PreparingIsSafe(b, s, event.record);
      } else if s.thread.Writing? || s.thread.Publishing? || s.thread.Completing? {
        RecordingIsSafe(b, s, event.record);
      } else {
        CheckingIsSafe(b, s, event.record);
      }
    }
  }

  lemma {:induction false} EveryRunIsSafe(b: Board, ram: seq<uint32>, events: seq<Event>)
    requires Fits(b, PoweredOn(ram))
    ensures IsSafe(b, After(b, PoweredOn(ram), events))
  {
    hide IsConsistent, IsSafe, At, InFlash, Stepped;
    if events == [] {
      PowerOnIsSafe(b, ram);
    } else {
      EveryRunIsSafe(b, ram, events[..|events| - 1]);
      NextIsSafe(b, After(b, PoweredOn(ram), events[..|events| - 1]), events[|events| - 1]);
    }
  }

  lemma PowerOnIsSafe(b: Board, ram: seq<uint32>)
    requires Fits(b, PoweredOn(ram))
    ensures IsSafe(b, PoweredOn(ram))
  {
    hide IsConsistent, At, InFlash;
  }

  // ------------------------------------------------------------------ what the protocol promises

  /** Over every run, with faults, nested faults and resets anywhere and any memory at power-on:
      Rust is entered at most once in a boot, and once the stub has made its first store only with
      `.data` and `.bss` established. */
  lemma CapturesOnceAndOnlyReady(b: Board, ram: seq<uint32>, events: seq<Event>)
    requires Fits(b, PoweredOn(ram))
    ensures var s := After(b, PoweredOn(ram), events);
            |s.entered| <= 1 && (s.started && (s.thread.Entering? || s.entered != []) ==> IsReady(b, s.ram))
  {
    hide IsConsistent, At, InFlash, IsReady;
    EveryRunIsSafe(b, ram, events);
  }

  /** Completion in a boot means that all evidence words belong to that boot's only capture,
      whatever the order in which the aggregate is stored. */
  lemma CompleteMeansWhole(b: Board, ram: seq<uint32>, events: seq<Event>)
    requires Fits(b, PoweredOn(ram))
    ensures var s := After(b, PoweredOn(ram), events);
            s.started && s.ram[b.Capture()] == CAPTURE_COMPLETE ==>
              |s.entered| == 1 && Shows(b, s.ram, Published(s.entered[0]))
  {
    hide IsConsistent, At, InFlash, Shows;
    EveryRunIsSafe(b, ram, events);
  }

  /** Evidence of some capture, in this boot or an earlier one. */
  ghost predicate ShowsACapture(b: Board, s: State)
    requires Fits(b, s)
  {
    exists r: Record :: r in s.records && Shows(b, s.ram, Published(r))
  }

  /** A step keeps what is shown unless it stores evidence. */
  lemma NextShowsStill(b: Board, s: State, event: Event)
    requires Fits(b, s) && IsSafe(b, s) && ShowsACapture(b, s)
    requires event.Step? ==> !s.thread.Writing? && !s.thread.Publishing?
    ensures ShowsACapture(b, Next(b, s, event))
  {
    hide IsConsistent, At, InFlash, Observed, IsReady, IsWritten, IsCopied, IsCleared;
    var r: Record :| r in s.records && Shows(b, s.ram, Published(r));
    assert Shows(b, Next(b, s, event).ram, Published(r));
  }

  /** The completion word outlives resets, and so does what it means: unless memory happens to
      hold it at power-on, it always stands for a whole capture, of this boot or an earlier one. */
  lemma {:induction false} CompleteMeansWholeAcrossBoots(b: Board, ram: seq<uint32>, events: seq<Event>)
    requires Fits(b, PoweredOn(ram)) && ram[b.Capture()] != CAPTURE_COMPLETE
    ensures var s := After(b, PoweredOn(ram), events);
            s.ram[b.Capture()] == CAPTURE_COMPLETE ==> ShowsACapture(b, s)
  {
    hide IsConsistent, At, InFlash, Observed, IsReady, Shows, IsCopied, IsCleared, IsWritten;
    if events != [] {
      var s, event := After(b, PoweredOn(ram), events[..|events| - 1]), events[|events| - 1];
      CompleteMeansWholeAcrossBoots(b, ram, events[..|events| - 1]);
      EveryRunIsSafe(b, ram, events[..|events| - 1]);
      EveryRunIsSafe(b, ram, events);
      if s.ram[b.Capture()] == CAPTURE_COMPLETE {
        NextShowsStill(b, s, event);
      }
    }
  }
}
