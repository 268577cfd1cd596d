/** Cortex-M reset: two assembly loops establish RAM, then the first Rust entry records evidence
    and arms fault capture. Memory is an array of words; pointers are byte addresses. */
module Startup {
  import opened Words

  const RESET_STARTED: uint32 := 0x5253_5430
  const CAPTURE_ARMED: uint32 := 0x4152_4D44
  const DATA_PATTERN: uint32 := 0x4441_5441
  const EVIDENCE_OK: uint32 := 0x4D41_4C32
  const EVIDENCE_DATA_FAILED: uint32 := 0x4441_5441
  const EVIDENCE_BSS_FAILED: uint32 := 0x4253_5321
  const EVIDENCE_BOTH_FAILED: uint32 := 0x424F_5448
  const EVIDENCE_WORDS: nat := 19

  /** Byte addresses fixed by the linker: the two memories, the sections, and the statics. */
  datatype Layout = Layout(
    flash: uint32, sidata: uint32,
    ram: uint32, sdata: uint32, edata: uint32, sbss: uint32, ebss: uint32, suninit: uint32, euninit: uint32,
    dataSentinel: uint32, bssSentinel: uint32,
    bootEvidence: uint32, captureState: uint32, faultEvidence: uint32)

  /** Sections are aligned and whole numbers of words, and so is what they hold. */
  predicate IsAligned(l: Layout) {
    l.flash % 4 == 0 && l.sidata % 4 == 0 && l.ram % 4 == 0 && l.sdata % 4 == 0 && l.edata % 4 == 0 &&
    l.sbss % 4 == 0 && l.ebss % 4 == 0 && l.suninit % 4 == 0 && l.euninit % 4 == 0 &&
    l.dataSentinel % 4 == 0 && l.bssSentinel % 4 == 0 &&
    l.bootEvidence % 4 == 0 && l.captureState % 4 == 0 && l.faultEvidence % 4 == 0
  }

  /** Sections follow each other inside the RAM, the image fits the Flash, and the statics lie
      apart from each other inside their sections. */
  predicate IsPlaced(l: Layout, flashWords: nat, ramWords: nat) {
    l.flash <= l.sidata && l.sidata + (l.edata - l.sdata) <= l.flash + 4 * flashWords <= U32_MAX &&
    l.ram <= l.sdata <= l.edata <= l.sbss <= l.ebss <= l.suninit <= l.euninit <= l.ram + 4 * ramWords &&
    l.sdata <= l.dataSentinel < l.edata && l.sbss <= l.bssSentinel < l.ebss &&
    l.suninit <= l.bootEvidence < l.euninit && l.suninit <= l.captureState < l.euninit &&
    l.suninit <= l.faultEvidence && l.faultEvidence + 4 * EVIDENCE_WORDS <= l.euninit &&
    l.bootEvidence != l.captureState &&
    !(l.faultEvidence <= l.bootEvidence < l.faultEvidence + 4 * EVIDENCE_WORDS) &&
    !(l.faultEvidence <= l.captureState < l.faultEvidence + 4 * EVIDENCE_WORDS)
  }

  /** The word of RAM at a byte address. */
  function At(l: Layout, a: int): int {
    (a - l.ram) / 4
  }

  /** The word of Flash at a byte address. */
  function InFlash(l: Layout, a: int): int {
    (a - l.flash) / 4
  }

  /** What the linker script asserts and arranges; the image holds the probe pattern. */
  predicate IsLinked(l: Layout, flash: seq<uint32>, ramWords: nat) {
    IsAligned(l) && IsPlaced(l, |flash|, ramWords) &&
    var probe := InFlash(l, l.sidata + (l.dataSentinel - l.sdata));
    0 <= probe < |flash| && flash[probe] == DATA_PATTERN
  }

  lemma RamAddress(l: Layout, a: uint32)
    requires a % 4 == 0 && l.ram % 4 == 0
    ensures a == l.ram + 4 * At(l, a)
  {}

  lemma FlashAddress(l: Layout, a: uint32)
    requires a % 4 == 0 && l.flash % 4 == 0
    ensures a == l.flash + 4 * InFlash(l, a)
  {}

  lemma Addresses(l: Layout)
    requires IsAligned(l)
    ensures l.sdata == l.ram + 4 * At(l, l.sdata) && l.edata == l.ram + 4 * At(l, l.edata)
    ensures l.sbss == l.ram + 4 * At(l, l.sbss) && l.ebss == l.ram + 4 * At(l, l.ebss)
    ensures l.suninit == l.ram + 4 * At(l, l.suninit) && l.euninit == l.ram + 4 * At(l, l.euninit)
    ensures l.dataSentinel == l.ram + 4 * At(l, l.dataSentinel) && l.bssSentinel == l.ram + 4 * At(l, l.bssSentinel)
    ensures l.bootEvidence == l.ram + 4 * At(l, l.bootEvidence) && l.captureState == l.ram + 4 * At(l, l.captureState)
    ensures l.faultEvidence == l.ram + 4 * At(l, l.faultEvidence) && l.sidata == l.flash + 4 * InFlash(l, l.sidata)
  {
    hide At, InFlash;
    RamAddress(l, l.sdata);
    RamAddress(l, l.edata);
    RamAddress(l, l.sbss);
    RamAddress(l, l.ebss);
    RamAddress(l, l.suninit);
    RamAddress(l, l.euninit);
    RamAddress(l, l.dataSentinel);
    RamAddress(l, l.bssSentinel);
    RamAddress(l, l.bootEvidence);
    RamAddress(l, l.captureState);
    RamAddress(l, l.faultEvidence);
    FlashAddress(l, l.sidata);
  }

  /** Where everything lies, word by word. */
  ghost predicate IsMapped(l: Layout, flashWords: nat, ramWords: nat) {
    0 <= At(l, l.sdata) <= At(l, l.dataSentinel) < At(l, l.edata) <= At(l, l.sbss) &&
    At(l, l.sbss) <= At(l, l.bssSentinel) < At(l, l.ebss) <= At(l, l.suninit) <= At(l, l.euninit) <= ramWords &&
    At(l, l.suninit) <= At(l, l.bootEvidence) < At(l, l.euninit) &&
    At(l, l.suninit) <= At(l, l.captureState) < At(l, l.euninit) &&
    At(l, l.suninit) <= At(l, l.faultEvidence) <= At(l, l.euninit) - EVIDENCE_WORDS &&
    At(l, l.bootEvidence) != At(l, l.captureState) &&
    !(At(l, l.faultEvidence) <= At(l, l.bootEvidence) < At(l, l.faultEvidence) + EVIDENCE_WORDS) &&
    !(At(l, l.faultEvidence) <= At(l, l.captureState) < At(l, l.faultEvidence) + EVIDENCE_WORDS) &&
    0 <= InFlash(l, l.sidata) && InFlash(l, l.sidata) + (At(l, l.edata) - At(l, l.sdata)) <= flashWords
  }

  lemma LinkedIsMapped(l: Layout, flash: seq<uint32>, ramWords: nat)
    requires IsLinked(l, flash, ramWords)
    ensures IsMapped(l, |flash|, ramWords)
  {
    hide At, InFlash, IsAligned;
    Addresses(l);
  }

  // ------------------------------------------------------------------ specification

  /** The image word that belongs at word `k` of RAM. */
  function ImageIndex(l: Layout, k: int): int {
    InFlash(l, l.sidata) + (k - At(l, l.sdata))
  }

  /** RAM after the reset stub. */
  function Established(l: Layout, flash: seq<uint32>, ram: seq<uint32>): seq<uint32>
    requires IsMapped(l, |flash|, |ram|)
  {
    seq(|ram|, k requires 0 <= k < |ram| =>
      if At(l, l.sdata) <= k < At(l, l.edata) then flash[ImageIndex(l, k)]
      else if At(l, l.sbss) <= k < At(l, l.ebss) then 0
      else if k == At(l, l.captureState) then RESET_STARTED
      else ram[k])
  }

  function BootEvidence(dataOk: bool, bssOk: bool): uint32 {
    match (dataOk, bssOk)
    case (true, true) => EVIDENCE_OK
    case (false, true) => EVIDENCE_DATA_FAILED
    case (true, false) => EVIDENCE_BSS_FAILED
    case (false, false) => EVIDENCE_BOTH_FAILED
  }

  /** The evidence that the first Rust entry writes, whatever RAM holds. */
  function Observed(l: Layout, flash: seq<uint32>, ram: seq<uint32>): uint32
    requires IsMapped(l, |flash|, |ram|)
  {
    BootEvidence(ram[At(l, l.dataSentinel)] == DATA_PATTERN, ram[At(l, l.bssSentinel)] == 0)
  }

  /** RAM after the first Rust entry. */
  function Started(l: Layout, flash: seq<uint32>, ram: seq<uint32>): seq<uint32>
    requires IsMapped(l, |flash|, |ram|)
  {
    ram[At(l, l.bootEvidence) := Observed(l, flash, ram)][At(l, l.captureState) := CAPTURE_ARMED]
  }

  // ------------------------------------------------------------------ the code

  /** Post-increment addressing: a pointer short of a section's end is at a word of the section. */
  lemma NextWord(l: Layout, p: uint32, end: uint32)
    requires l.ram <= p < end && l.ram % 4 == 0 && p % 4 == 0 && end % 4 == 0
    ensures 0 <= At(l, p) < At(l, end) && p + 4 <= end && At(l, p + 4) == At(l, p) + 1
  {}

  lemma ImageWord(l: Layout, r0: uint32, r1: uint32)
    requires l.ram % 4 == 0 && l.flash % 4 == 0 && l.sdata % 4 == 0 && l.sidata % 4 == 0
    requires r1 % 4 == 0 && r0 - l.sidata == r1 - l.sdata
    ensures InFlash(l, r0) == ImageIndex(l, At(l, r1))
  {
    RamAddress(l, l.sdata);
    RamAddress(l, r1);
    FlashAddress(l, l.sidata);
  }

  /** One round of the copy loop reads and writes words that correspond, inside their memories. */
  lemma CopyRound(l: Layout, flash: seq<uint32>, ramWords: nat, r0: uint32, r1: uint32)
    requires IsLinked(l, flash, ramWords) && IsMapped(l, |flash|, ramWords)
    requires l.sdata <= r1 < l.edata && r1 % 4 == 0 && r0 - l.sidata == r1 - l.sdata
    requires At(l, l.sdata) <= At(l, r1)
    ensures At(l, r1) < At(l, l.edata) && InFlash(l, r0) == ImageIndex(l, At(l, r1)) && 0 <= InFlash(l, r0) < |flash|
    ensures At(l, r1 + 4) == At(l, r1) + 1 && r1 + 4 <= l.edata && r0 + 4 <= U32_MAX
  {
    hide At, InFlash;
    NextWord(l, r1, l.edata);
    ImageWord(l, r0, r1);
  }

  lemma LoopsStart(l: Layout, flash: seq<uint32>, ramWords: nat)
    requires IsLinked(l, flash, ramWords)
    ensures l.sdata <= l.edata && l.sdata % 4 == 0
    ensures l.ram <= l.sbss <= l.ebss && l.ram % 4 == 0 && l.sbss % 4 == 0 && l.ebss % 4 == 0
  {}

  /** `.Lcopy_data`. The comparison is unsigned, and both pointers move by a word per round. */
  method CopyData(l: Layout, flash: seq<uint32>, ram: array<uint32>)
    requires IsLinked(l, flash, ram.Length) && IsMapped(l, |flash|, ram.Length)
    modifies ram
    ensures forall k: nat :: k < ram.Length ==>
              ram[k] == if At(l, l.sdata) <= k < At(l, l.edata) then flash[ImageIndex(l, k)] else old(ram[k])
  {
    hide At, InFlash, IsAligned, IsPlaced;
    var r0: uint32, r1: uint32, r2 := l.sidata, l.sdata, l.edata;
    LoopsStart(l, flash, ram.Length);
    while r1 < r2
      invariant l.sdata <= r1 <= l.edata && r1 % 4 == 0 && r0 - l.sidata == r1 - l.sdata
      invariant At(l, l.sdata) <= At(l, r1) <= At(l, l.edata)
      invariant forall k: nat :: k < ram.Length ==>
        ram[k] == if At(l, l.sdata) <= k < At(l, r1) then flash[ImageIndex(l, k)] else old(ram[k])
    {
      CopyRound(l, flash, ram.Length, r0, r1);
      var r3 := flash[InFlash(l, r0)];
      r0 := r0 + 4;
      ram[At(l, r1)] := r3;
      r1 := r1 + 4;
    }
  }

  /** `.Lzero_bss`. */
  method ClearBss(l: Layout, flash: seq<uint32>, ram: array<uint32>)
    requires IsLinked(l, flash, ram.Length) && IsMapped(l, |flash|, ram.Length)
    modifies ram
    ensures forall k: nat :: k < ram.Length ==>
              ram[k] == if At(l, l.sbss) <= k < At(l, l.ebss) then 0 else old(ram[k])
  {
    hide At, InFlash, IsAligned, IsPlaced;
    LoopsStart(l, flash, ram.Length);
    var r1: uint32, r2 := l.sbss, l.ebss;
    while r1 < r2
      invariant l.sbss <= r1 <= l.ebss && r1 % 4 == 0
      invariant At(l, l.sbss) <= At(l, r1) <= At(l, l.ebss)
      invariant forall k: nat :: k < ram.Length ==>
        ram[k] == if At(l, l.sbss) <= k < At(l, r1) then 0 else old(ram[k])
    {
      NextWord(l, r1, r2);
      ram[At(l, r1)] := 0;
      r1 := r1 + 4;
    }
  }

  /** The reset stub, up to the call of the first Rust entry. For any section sizes and prior memory:
      `.data` equals its image, `.bss` is zero, and every other word, all of `.uninit` but the capture
      state included, is what it was. */
  method Reset(l: Layout, flash: seq<uint32>, ram: array<uint32>)
    requires IsLinked(l, flash, ram.Length)
    modifies ram
    ensures IsMapped(l, |flash|, ram.Length) && ram[..] == Established(l, flash, old(ram[..]))
    ensures var image := InFlash(l, l.sidata);
            ram[At(l, l.sdata)..At(l, l.edata)] == flash[image..image + (At(l, l.edata) - At(l, l.sdata))]
    ensures forall k :: At(l, l.sbss) <= k < At(l, l.ebss) ==> ram[k] == 0
    ensures ram[..At(l, l.sdata)] == old(ram[..At(l, l.sdata)])
    ensures ram[At(l, l.edata)..At(l, l.sbss)] == old(ram[At(l, l.edata)..At(l, l.sbss)])
    ensures ram[At(l, l.ebss)..] == old(ram[..])[At(l, l.captureState) := 0x5253_5430][At(l, l.ebss)..]
  {
    hide At, InFlash, IsLinked;
    LinkedIsMapped(l, flash, ram.Length);
    ram[At(l, l.captureState)] := RESET_STARTED;
    CopyData(l, flash, ram);
    ClearBss(l, flash, ram);
    ResetEstablishesRam(l, flash, old(ram[..]));
  }

  /** The first Rust entry, as built for the Cortex-M7. Whatever memory it finds, the evidence word
      tells which of the two loops left its probe wrong, and nothing but that word and the capture
      state changes. */
  method Start(l: Layout, flash: seq<uint32>, ram: array<uint32>)
    requires IsMapped(l, |flash|, ram.Length)
    modifies ram
    ensures ram[..] == Started(l, flash, old(ram[..]))
    ensures ram[At(l, l.bootEvidence)] ==
            match (old(ram[At(l, l.dataSentinel)]) == 0x4441_5441, old(ram[At(l, l.bssSentinel)]) == 0)
            case (true, true) => 0x4D41_4C32
            case (false, true) => 0x4441_5441
            case (true, false) => 0x4253_5321
            case (false, false) => 0x424F_5448
    ensures ram[At(l, l.captureState)] == 0x4152_4D44
    ensures forall k: nat :: k < ram.Length && k != At(l, l.bootEvidence) && k != At(l, l.captureState) ==>
              ram[k] == old(ram[k])
  {
    hide At, InFlash;
    EvidenceTellsWhich(l, flash, ram[..]);
    var dataOk := ram[At(l, l.dataSentinel)] == DATA_PATTERN;
    var bssOk := ram[At(l, l.bssSentinel)] == 0;
    var evidence := BootEvidence(dataOk, bssOk);
    ram[At(l, l.bootEvidence)] := evidence;
    ram[At(l, l.captureState)] := CAPTURE_ARMED;
  }

  /** From any memory a boot records success, arms capture, and keeps the rest of `.uninit`, the
      fault evidence of earlier boots included. */
  method Boot(l: Layout, flash: seq<uint32>, ram: array<uint32>)
    requires IsLinked(l, flash, ram.Length)
    modifies ram
    ensures IsMapped(l, |flash|, ram.Length) && ram[..] == Started(l, flash, Established(l, flash, old(ram[..])))
    ensures ram[At(l, l.bootEvidence)] == 0x4D41_4C32 && ram[At(l, l.captureState)] == 0x4152_4D44
    ensures forall k: nat :: At(l, l.suninit) <= k < ram.Length &&
                             k != At(l, l.bootEvidence) && k != At(l, l.captureState) ==>
              ram[k] == old(ram[k])
  {
    BootSucceeds(l, flash, ram[..]);
    hide At, InFlash, IsLinked;
    Reset(l, flash, ram);
    Start(l, flash, ram);
  }

  // ------------------------------------------------------------------ what they promise

  /** For any section sizes and prior memory: `.data` equals its image, `.bss` is zero, and every
      other word, all of `.uninit` but the capture state included, is what it was. */
  lemma ResetEstablishesRam(l: Layout, flash: seq<uint32>, ram: seq<uint32>)
    requires IsMapped(l, |flash|, |ram|)
    ensures var after, image := Established(l, flash, ram), InFlash(l, l.sidata);
            |after| == |ram| &&
            after[At(l, l.sdata)..At(l, l.edata)] == flash[image..image + (At(l, l.edata) - At(l, l.sdata))] &&
            (forall k :: At(l, l.sbss) <= k < At(l, l.ebss) ==> after[k] == 0) &&
            after[..At(l, l.sdata)] == ram[..At(l, l.sdata)] &&
            after[At(l, l.edata)..At(l, l.sbss)] == ram[At(l, l.edata)..At(l, l.sbss)] &&
            after[At(l, l.ebss)..] == ram[At(l, l.captureState) := RESET_STARTED][At(l, l.ebss)..]
  {
    hide At, InFlash;
  }

  /** Prior memory is irrelevant: two boots agree on `.data` and `.bss`, and a second reset changes nothing. */
  lemma ResetForgets(l: Layout, flash: seq<uint32>, ram: seq<uint32>, ram': seq<uint32>)
    requires IsMapped(l, |flash|, |ram|) && |ram'| == |ram|
    ensures forall k: nat :: At(l, l.sdata) <= k < At(l, l.edata) || At(l, l.sbss) <= k < At(l, l.ebss) ==>
              Established(l, flash, ram)[k] == Established(l, flash, ram')[k]
    ensures Established(l, flash, Established(l, flash, ram)) == Established(l, flash, ram)
  {
    hide At, InFlash;
  }

  /** A boot always reports success and arms capture, and keeps the rest of `.uninit`, the fault
      evidence of earlier boots included. */
  lemma BootSucceeds(l: Layout, flash: seq<uint32>, ram: seq<uint32>)
    requires IsLinked(l, flash, |ram|)
    ensures IsMapped(l, |flash|, |ram|)
    ensures var after := Started(l, flash, Established(l, flash, ram));
            after[At(l, l.bootEvidence)] == EVIDENCE_OK && after[At(l, l.captureState)] == CAPTURE_ARMED &&
            forall k :: At(l, l.suninit) <= k < |ram| && k != At(l, l.bootEvidence) && k != At(l, l.captureState) ==>
              after[k] == ram[k]
  {
    hide At, InFlash;
    LinkedIsMapped(l, flash, |ram|);
    ImageWord(l, l.sidata + (l.dataSentinel - l.sdata), l.dataSentinel);
    var after := Established(l, flash, ram);
    assert after[At(l, l.dataSentinel)] == DATA_PATTERN;
  }

  /** The evidence word tells which of the two loops left its probe wrong. */
  lemma EvidenceTellsWhich(l: Layout, flash: seq<uint32>, ram: seq<uint32>)
    requires IsMapped(l, |flash|, |ram|)
    ensures Started(l, flash, ram)[At(l, l.bootEvidence)] ==
            match (ram[At(l, l.dataSentinel)] == 0x4441_5441, ram[At(l, l.bssSentinel)] == 0)
            case (true, true) => 0x4D41_4C32
            case (false, true) => 0x4441_5441
            case (true, false) => 0x4253_5321
            case (false, false) => 0x424F_5448
  {
    hide At, InFlash;
  }
}
