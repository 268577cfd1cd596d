/** What the parsers make of every text, unit by unit, and how the printer writes every value. */
module UnitLaws {
  import opened Words
  import opened Units
  import opened Manifest

  // ------------------------------------------------------------------ durations and sizes

  /** The text reads as `n` if that fits 64 bits, and otherwise as no value at all. */
  ghost predicate Reads(kind: Kind, text: string, n: nat) {
    if n <= U64_MAX then Parse(kind, text) == Ok(n) else Parse(kind, text).Err? && Parse(kind, text).error.Overflow?
  }

  lemma ReadsScaled(kind: Kind, p: Spelling)
    requires p.IsFor(kind)
    ensures Reads(kind, p.Text(), Denoted(p.digits) * Multiplier(kind, p.unit).value)
  {
    hide Parse, Multiplier, ParseDigits, Denoted;
    ParseSpelling(kind, p);
    ParseDigitsChecksOnce(p.digits);
    MulMono(1, Multiplier(kind, p.unit).value, Denoted(p.digits));
  }

  /** A number with blanks around it. */
  predicate IsFramed(lead: string, digits: string, gap: string, trail: string) {
    IsBlank(lead) && IsBlank(gap) && IsBlank(trail) && digits != [] && IsDigits(digits)
  }

  /** Every duration unit: nanoseconds count one, and each larger unit a thousand of the one before. */
  lemma DurationUnits(lead: string, digits: string, gap: string, trail: string)
    requires IsFramed(lead, digits, gap, trail)
    ensures var n := Denoted(digits);
            Reads(Time, lead + (digits + gap + "ns") + trail, n) &&
            Reads(Time, lead + (digits + gap + "us") + trail, n * 1_000) &&
            Reads(Time, lead + (digits + gap + "\U{00B5}s") + trail, n * 1_000) &&
            Reads(Time, lead + (digits + gap + "ms") + trail, n * 1_000_000) &&
            Reads(Time, lead + (digits + gap + "s") + trail, n * 1_000_000_000)
  {
    hide Reads, Denoted;
    ReadsScaled(Time, Spelling(lead, digits, gap, "ns", trail));
    ReadsScaled(Time, Spelling(lead, digits, gap, "us", trail));
    ReadsScaled(Time, Spelling(lead, digits, gap, "\U{00B5}s", trail));
    ReadsScaled(Time, Spelling(lead, digits, gap, "ms", trail));
    ReadsScaled(Time, Spelling(lead, digits, gap, "s", trail));
  }

  /** Every size unit: binary, never decimal. */
  lemma SizeUnits(lead: string, digits: string, gap: string, trail: string)
    requires IsFramed(lead, digits, gap, trail)
    ensures var n := Denoted(digits);
            Reads(Size, lead + (digits + gap + "B") + trail, n) &&
            Reads(Size, lead + (digits + gap + "KiB") + trail, n * 1_024) &&
            Reads(Size, lead + (digits + gap + "MiB") + trail, n * 1_024 * 1_024)
  {
    hide Reads, Denoted;
    ReadsScaled(Size, Spelling(lead, digits, gap, "B", trail));
    ReadsScaled(Size, Spelling(lead, digits, gap, "KiB", trail));
    ReadsScaled(Size, Spelling(lead, digits, gap, "MiB", trail));
  }

  /** There is no other unit, and no default one. A number that fits is needed to get as far as
      looking at the unit. */
  lemma OtherUnitsAreUnknown(kind: Kind, p: Spelling)
    requires p.IsShaped() && Denoted(p.digits) <= U64_MAX
    requires kind == Time ==> p.unit !in ["ns", "us", "\U{00B5}s", "ms", "s"]
    requires kind == Size ==> p.unit !in ["B", "KiB", "MiB"]
    ensures Parse(kind, p.Text()) == Err(UnknownUnit(p.unit))
  {
    hide Denoted, ParseDigits, Trim, DigitRun;
    SplitSpelling(p);
    ParseDigitsChecksOnce(p.digits);
    UnknownHasNoMultiplier(kind, p.unit);
  }

  lemma UnknownHasNoMultiplier(kind: Kind, unit: string)
    requires kind == Time ==> unit !in ["ns", "us", "\U{00B5}s", "ms", "s"]
    requires kind == Size ==> unit !in ["B", "KiB", "MiB"]
    ensures Multiplier(kind, unit).None?
  {
    if kind == Time {
      var units := ["ns", "us", "\U{00B5}s", "ms", "s"];
      assert units[0] in units && units[1] in units && units[2] in units && units[3] in units && units[4] in units;
    } else {
      var units := ["B", "KiB", "MiB"];
      assert units[0] in units && units[1] in units && units[2] in units;
    }
  }

  /** Between the outer blanks there must be a number first, and something after it. */
  lemma NumberAndUnitAreNeeded(kind: Kind, lead: string, core: string, trail: string)
    requires IsBlank(lead) && IsBlank(trail) && (core == [] || IsTight(core))
    ensures IsDigits(core) ==> Parse(kind, lead + core + trail) == Err(MissingUnit(core))
    ensures core != [] && !IsDigit(core[0]) ==> Parse(kind, lead + core + trail) == Err(MissingNumber(core))
  {
    hide Multiplier, ParseDigits, IsTight;
    TrimCore(lead, core, trail);
    if IsDigits(core) {
      assert core + [] == core;
      DigitRunStops(core, []);
    } else {
      assert [] + core == core;
    }
  }

  lemma TrimCore(lead: string, core: string, trail: string)
    requires IsBlank(lead) && IsBlank(trail) && (core == [] || IsTight(core))
    ensures Trim(lead + core + trail) == core
  {
    if core == [] {
      assert lead + core + trail == (lead + trail) + [];
      TrimStartSkips(lead + trail, []);
    } else {
      TrimIsolates(lead, core, trail);
    }
  }

  // ------------------------------------------------------------------ printing

  lemma PrintsIn(kind: Kind, k: nat, unit: string)
    requires Multiplier(kind, unit).Some? && k * Multiplier(kind, unit).value <= U64_MAX
    requires DisplayUnit(kind, k * Multiplier(kind, unit).value) == unit
    ensures Print(kind, k * Multiplier(kind, unit).value) == Decimal(k) + unit
  {
    hide Multiplier, DisplayUnit, Decimal;
    var m := Multiplier(kind, unit).value;
    DivModUnique(k * m, m, k, 0);
  }

  lemma NotWhole(k: nat, n: positive, m: positive)
    requires 0 < k % n
    ensures 0 < k * m && k * m % (n * m) != 0
  {
    var q, r := k / n, k % n;
    assert k * m == q * (n * m) + r * m;
    MulMono(1, r, m);
    MulMono(r + 1, n, m);
    assert (r + 1) * m == r * m + m;
    DivModUnique(k * m, n * m, q, r * m);
  }

  lemma FactorDivides(k: nat, n: positive, m: positive)
    requires k % (n * m) == 0
    ensures k % n == 0
  {
    var q := k / (n * m);
    assert k == q * (n * m) && q * (n * m) == (q * m) * n;
    DivModUnique(k, n, q * m, 0);
  }

  lemma Whole(k: nat, m: positive)
    ensures k * m % m == 0 && (0 < k ==> m <= k * m)
  {
    DivModUnique(k * m, m, k, 0);
    if 0 < k {
      MulMono(1, k, m);
    }
  }

  lemma ShownAsNanos(k: nat)
    requires 0 < k % 1_000
    ensures k % 1_000_000 != 0 && k % 1_000_000_000 != 0
  {
    if k % 1_000_000 == 0 {
      FactorDivides(k, 1_000, 1_000);
    }
    if k % 1_000_000_000 == 0 {
      FactorDivides(k, 1_000, 1_000_000);
    }
  }

  lemma ShownAsMicros(k: nat)
    requires 0 < k % 1_000
    ensures k * 1_000 % 1_000_000_000 != 0
  {
    NotWhole(k, 1_000, 1_000);
    if k * 1_000 % 1_000_000_000 == 0 {
      FactorDivides(k * 1_000, 1_000_000, 1_000);
    }
  }

  /** A multiple of a unit, but not of the thousandfold one, is shown in that unit. */
  lemma ShownDuration(k: nat)
    ensures 0 < k % 1_000 ==> DisplayUnit(Time, k) == "ns"
    ensures 0 < k % 1_000 ==> DisplayUnit(Time, k * 1_000) == "us"
    ensures 0 < k % 1_000 ==> DisplayUnit(Time, k * 1_000_000) == "ms"
    ensures 0 < k ==> DisplayUnit(Time, k * 1_000_000_000) == "s"
  {
    if 0 < k % 1_000 {
      ShownAsNanos(k);
      NotWhole(k, 1_000, 1_000);
      ShownAsMicros(k);
      NotWhole(k, 1_000, 1_000_000);
    }
    Whole(k, 1_000);
    Whole(k, 1_000_000);
    Whole(k, 1_000_000_000);
  }

  lemma ShownSize(k: nat)
    ensures 0 < k % 1_024 ==> DisplayUnit(Size, k) == "B" && DisplayUnit(Size, k * 1_024) == "KiB"
    ensures 0 < k ==> DisplayUnit(Size, k * 1_048_576) == "MiB"
  {
    if 0 < k % 1_024 {
      if k % 1_048_576 == 0 {
        FactorDivides(k, 1_024, 1_024);
      }
      NotWhole(k, 1_024, 1_024);
    }
    Whole(k, 1_024);
    Whole(k, 1_048_576);
  }

  /** A duration is written in the largest unit that divides it. */
  lemma PrintedDurations(k: nat)
    ensures 0 < k % 1_000 && k <= U64_MAX ==> Print(Time, k) == Decimal(k) + "ns"
    ensures 0 < k % 1_000 && k * 1_000 <= U64_MAX ==> Print(Time, k * 1_000) == Decimal(k) + "us"
    ensures 0 < k % 1_000 && k * 1_000_000 <= U64_MAX ==> Print(Time, k * 1_000_000) == Decimal(k) + "ms"
    ensures 0 < k && k * 1_000_000_000 <= U64_MAX ==> Print(Time, k * 1_000_000_000) == Decimal(k) + "s"
    ensures Print(Time, 0) == "0ns"
  {
    hide DisplayUnit, Print, Decimal;
    ShownDuration(k);
    PrintedZero();
    if 0 < k % 1_000 && k <= U64_MAX {
      PrintsIn(Time, k, "ns");
    }
    if 0 < k % 1_000 && k * 1_000 <= U64_MAX {
      PrintsIn(Time, k, "us");
    }
    if 0 < k % 1_000 && k * 1_000_000 <= U64_MAX {
      PrintsIn(Time, k, "ms");
    }
    if 0 < k && k * 1_000_000_000 <= U64_MAX {
      PrintsIn(Time, k, "s");
    }
  }

  lemma PrintedZero()
    ensures Print(Time, 0) == "0ns" && Print(Size, 0) == "0B"
  {
    assert Decimal(0) == "0" && "0" + "ns" == "0ns" && "0" + "B" == "0B";
  }

  /** A size is written in the largest binary unit that divides it. */
  lemma PrintedSizes(k: nat)
    ensures 0 < k % 1_024 && k <= U64_MAX ==> Print(Size, k) == Decimal(k) + "B"
    ensures 0 < k % 1_024 && k * 1_024 <= U64_MAX ==> Print(Size, k * 1_024) == Decimal(k) + "KiB"
    ensures 0 < k && k * 1_048_576 <= U64_MAX ==> Print(Size, k * 1_048_576) == Decimal(k) + "MiB"
    ensures Print(Size, 0) == "0B"
  {
    hide DisplayUnit, Print, Decimal;
    ShownSize(k);
    PrintedZero();
    if 0 < k % 1_024 && k <= U64_MAX {
      PrintsIn(Size, k, "B");
    }
    if 0 < k % 1_024 && k * 1_024 <= U64_MAX {
      PrintsIn(Size, k, "KiB");
    }
    if 0 < k && k * 1_048_576 <= U64_MAX {
      PrintsIn(Size, k, "MiB");
    }
  }

  // ------------------------------------------------------------------ rates

  /** The text reads as a rate of `n` hertz if that fits 64 bits, and otherwise as no rate. */
  ghost predicate ReadsRate(text: string, n: nat) {
    ParseTickHz(text) == if n <= U64_MAX then Some(n) else None
  }

  lemma RateReadsScaled(p: Spelling)
    requires p.IsShaped()
    ensures HertzMultiplier(p.unit).Some? ==>
              ReadsRate(p.Text(), Denoted(p.digits) * HertzMultiplier(p.unit).value)
    ensures HertzMultiplier(p.unit).None? ==> ParseTickHz(p.Text()) == None
  {
    hide Denoted, ParseDigits, Trim, DigitRun, HertzMultiplier;
    SplitSpelling(p);
    ParseDigitsChecksOnce(p.digits);
    if HertzMultiplier(p.unit).Some? {
      MulMono(1, HertzMultiplier(p.unit).value, Denoted(p.digits));
    }
  }

  /** Every rate unit, each a thousand of the one before, and no other. */
  lemma RateUnits(lead: string, digits: string, gap: string, trail: string, unit: string)
    requires IsFramed(lead, digits, gap, trail)
    ensures var n := Denoted(digits);
            ReadsRate(lead + (digits + gap + "Hz") + trail, n) &&
            ReadsRate(lead + (digits + gap + "kHz") + trail, n * 1_000) &&
            ReadsRate(lead + (digits + gap + "MHz") + trail, n * 1_000_000)
    ensures IsTight(unit) && !IsDigit(unit[0]) && unit != "Hz" && unit != "kHz" && unit != "MHz" ==>
              ParseTickHz(lead + (digits + gap + unit) + trail) == None
  {
    hide ReadsRate, Denoted, ParseTickHz;
    RateReadsScaled(Spelling(lead, digits, gap, "Hz", trail));
    RateReadsScaled(Spelling(lead, digits, gap, "kHz", trail));
    RateReadsScaled(Spelling(lead, digits, gap, "MHz", trail));
    if IsTight(unit) && !IsDigit(unit[0]) {
      RateReadsScaled(Spelling(lead, digits, gap, unit, trail));
    }
  }
}
