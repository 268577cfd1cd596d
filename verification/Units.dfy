/** Human-written durations and sizes: the strict parser, the printer, and what they accept. */
module Units {
  import opened Words

  datatype ParseUnitError =
    | MissingNumber(text: string)
    | MissingUnit(text: string)
    | UnknownUnit(unit: string)
    | Overflow(text: string)

  datatype Result<+T> = Ok(value: T) | Err(error: ParseUnitError)

  /** A duration counts nanoseconds, a size counts bytes. */
  datatype Kind = Time | Size

  // ------------------------------------------------------------------ text

  predicate IsDigit(c: char) {
    '0' <= c <= '9'
  }

  /** The Unicode White_Space property. */
  predicate IsWhitespace(c: char) {
    '\U{0009}' <= c <= '\U{000D}' || c == ' ' || c == '\U{0085}' || c == '\U{00A0}' || c == '\U{1680}' ||
    '\U{2000}' <= c <= '\U{200A}' || c == '\U{2028}' || c == '\U{2029}' || c == '\U{202F}' ||
    c == '\U{205F}' || c == '\U{3000}'
  }

  /** That is 25 code points. */
  lemma WhitespaceIsListed(c: char)
    ensures IsWhitespace(c) <==>
            c as int in {0x9, 0xA, 0xB, 0xC, 0xD, 0x20, 0x85, 0xA0, 0x1680, 0x2000, 0x2001, 0x2002, 0x2003, 0x2004,
                         0x2005, 0x2006, 0x2007, 0x2008, 0x2009, 0x200A, 0x2028, 0x2029, 0x202F, 0x205F, 0x3000}
  {}

  predicate IsDigits(s: string) {
    forall c <- s :: IsDigit(c)
  }

  predicate IsBlank(s: string) {
    forall c <- s :: IsWhitespace(c)
  }

  function TrimStart(s: string): string {
    if s != [] && IsWhitespace(s[0]) then TrimStart(s[1..]) else s
  }

  function TrimEnd(s: string): string {
    if s != [] && IsWhitespace(s[|s| - 1]) then TrimEnd(s[..|s| - 1]) else s
  }

  function Trim(s: string): string {
    TrimEnd(TrimStart(s))
  }

  /** Length of the leading run of digits. */
  function DigitRun(s: string): (n: nat)
    ensures n <= |s| && IsDigits(s[..n]) && (n < |s| ==> !IsDigit(s[n]))
  {
    if s == [] || !IsDigit(s[0]) then 0
    else
      assert forall n :: 0 <= n <= |s[1..]| ==> s[..n + 1] == [s[0]] + s[1..][..n];
      1 + DigitRun(s[1..])
  }

  /** `u64::from_str` on digits: multiply and add, each step checked; the empty string is no number. */
  function ParseDigits(s: string): Option<uint64>
    requires IsDigits(s)
  {
    if s == [] then Some(0)
    else
      match ParseDigits(s[..|s| - 1])
      case None => None
      case Some(high) =>
        assert s[|s| - 1] in s;
        var value: nat := high * 10 + (s[|s| - 1] as int - '0' as int);
        if value <= U64_MAX then Some(value as uint64) else None
  }

  // ------------------------------------------------------------------ parser and printer

  function Multiplier(kind: Kind, unit: string): Option<positive> {
    match kind
    case Time =>
      if unit == "ns" then Some(1)
      else if unit == "us" || unit == "\U{00B5}s" then Some(1_000)
      else if unit == "ms" then Some(1_000_000)
      else if unit == "s" then Some(1_000_000_000)
      else None
    case Size =>
      if unit == "B" then Some(1)
      else if unit == "KiB" then Some(1_024)
      else if unit == "MiB" then Some(1_048_576)
      else None
  }

  function SplitValueUnit(s: string): Result<(uint64, string)> {
    var trimmed := Trim(s);
    var split := DigitRun(trimmed);
    if split == |trimmed| then Err(MissingUnit(trimmed))
    else if split == 0 then Err(MissingNumber(trimmed))
    else
      match ParseDigits(trimmed[..split])
      case None => Err(Overflow(trimmed))
      case Some(value) => Ok((value, Trim(trimmed[split..])))
  }

  function Parse(kind: Kind, s: string): Result<uint64> {
    match SplitValueUnit(s)
    case Err(error) => Err(error)
    case Ok((value, unit)) =>
      match Multiplier(kind, unit)
      case None => Err(UnknownUnit(unit))
      case Some(multiplier) =>
        if value * multiplier <= U64_MAX then Ok(value * multiplier) else Err(Overflow(s))
  }

  function Digit(n: nat): char
    requires n < 10
  {
    '0' + n as char
  }

  function Decimal(n: nat): string {
    if n < 10 then [Digit(n)] else Decimal(n / 10) + [Digit(n % 10)]
  }

  /** The largest unit that divides the value. */
  function DisplayUnit(kind: Kind, n: nat): string {
    match kind
    case Time =>
      if 1_000_000_000 <= n && n % 1_000_000_000 == 0 then "s"
      else if 1_000_000 <= n && n % 1_000_000 == 0 then "ms"
      else if 1_000 <= n && n % 1_000 == 0 then "us"
      else "ns"
    case Size =>
      if 1_048_576 <= n && n % 1_048_576 == 0 then "MiB"
      else if 1_024 <= n && n % 1_024 == 0 then "KiB"
      else "B"
  }

  function Print(kind: Kind, n: uint64): string {
    var unit := DisplayUnit(kind, n);
    Decimal(n / Multiplier(kind, unit).value) + unit
  }

  // ------------------------------------------------------------------ the grammar

  lemma {:induction false} TrimStartSkips(lead: string, s: string)
    requires IsBlank(lead) && (s == [] || !IsWhitespace(s[0]))
    ensures TrimStart(lead + s) == s
  {
    if lead == [] {
      assert lead + s == s;
    } else {
      assert (lead + s)[1..] == lead[1..] + s;
      TrimStartSkips(lead[1..], s);
    }
  }

  lemma {:induction false} TrimEndSkips(s: string, trail: string)
    requires IsBlank(trail) && (s == [] || !IsWhitespace(s[|s| - 1]))
    ensures TrimEnd(s + trail) == s
  {
    if trail == [] {
      assert s + trail == s;
    } else {
      assert (s + trail)[..|s + trail| - 1] == s + trail[..|trail| - 1];
      TrimEndSkips(s, trail[..|trail| - 1]);
    }
  }

  /** A text that neither starts nor ends blank. */
  predicate IsTight(s: string) {
    s != [] && !IsWhitespace(s[0]) && !IsWhitespace(s[|s| - 1])
  }

  lemma TrimIsolates(lead: string, s: string, trail: string)
    requires IsBlank(lead) && IsTight(s) && IsBlank(trail)
    ensures Trim(lead + s + trail) == s
  {
    assert lead + s + trail == lead + (s + trail);
    TrimStartSkips(lead, s + trail);
    TrimEndSkips(s, trail);
  }

  lemma {:induction false} TrimStartSplits(s: string) returns (lead: string)
    ensures IsBlank(lead) && s == lead + TrimStart(s)
    ensures TrimStart(s) != [] ==> !IsWhitespace(TrimStart(s)[0])
  {
    lead := [];
    if s != [] && IsWhitespace(s[0]) {
      lead := TrimStartSplits(s[1..]);
      lead := [s[0]] + lead;
    }
  }

  lemma {:induction false} TrimEndSplits(s: string) returns (trail: string)
    ensures IsBlank(trail) && s == TrimEnd(s) + trail
    ensures TrimEnd(s) != [] ==> !IsWhitespace(TrimEnd(s)[|TrimEnd(s)| - 1])
  {
    trail := [];
    if s != [] && IsWhitespace(s[|s| - 1]) {
      trail := TrimEndSplits(s[..|s| - 1]);
      trail := trail + [s[|s| - 1]];
    }
  }

  lemma TrimSplits(s: string) returns (lead: string, trail: string)
    ensures IsBlank(lead) && IsBlank(trail) && s == lead + Trim(s) + trail
    ensures Trim(s) != [] ==> IsTight(Trim(s))
  {
    lead := TrimStartSplits(s);
    trail := TrimEndSplits(TrimStart(s));
  }

  /** The parts of an accepted text. */
  datatype Spelling = Spelling(lead: string, digits: string, gap: string, unit: string, trail: string) {
    function Text(): string {
      lead + (digits + gap + unit) + trail
    }

    /** Blanks around a non-empty number and whatever is taken for its unit. */
    predicate IsShaped() {
      IsBlank(lead) && IsBlank(gap) && IsBlank(trail) && digits != [] && IsDigits(digits) &&
      IsTight(unit) && !IsDigit(unit[0])
    }

    /** Blanks around a non-empty number and a known unit, which never starts with a digit. */
    predicate IsFor(kind: Kind) {
      IsBlank(lead) && IsBlank(gap) && IsBlank(trail) && digits != [] && IsDigits(digits) &&
      Multiplier(kind, unit).Some?
    }
  }

  lemma UnitsAreTight(kind: Kind, unit: string)
    requires Multiplier(kind, unit).Some?
    ensures IsTight(unit) && !IsDigit(unit[0])
  {}

  lemma {:induction false} DigitRunStops(digits: string, rest: string)
    requires IsDigits(digits) && (rest == [] || !IsDigit(rest[0]))
    ensures DigitRun(digits + rest) == |digits|
  {
    if digits == [] {
      assert digits + rest == rest;
    } else {
      assert (digits + rest)[1..] == digits[1..] + rest;
      DigitRunStops(digits[1..], rest);
    }
  }

  /** What the parser makes of a text of the right shape. */
  lemma ParseSpelling(kind: Kind, p: Spelling)
    requires p.IsFor(kind)
    ensures var m := Multiplier(kind, p.unit).value;
            Parse(kind, p.Text()) ==
            match ParseDigits(p.digits)
            case None => Err(Overflow(p.digits + p.gap + p.unit))
            case Some(value) => if value * m <= U64_MAX then Ok(value * m) else Err(Overflow(p.Text()))
  {
    UnitsAreTight(kind, p.unit);
    SplitSpelling(p);
  }

  /** The number, blanks and unit between the outer blanks. */
  lemma CoreIsTight(p: Spelling)
    requires p.IsShaped()
    ensures IsTight(p.digits + p.gap + p.unit) && IsTight(p.unit) && p.unit != [] && !IsDigit((p.gap + p.unit)[0])
  {
    var core := p.digits + p.gap + p.unit;
    assert p.digits[0] in p.digits && (p.gap != [] ==> p.gap[0] in p.gap);
    assert core[0] == p.digits[0] && core[|core| - 1] == p.unit[|p.unit| - 1];
    assert (p.gap + p.unit)[0] == if p.gap == [] then p.unit[0] else p.gap[0];
  }

  lemma SplitSpelling(p: Spelling)
    requires p.IsShaped()
    ensures var core := p.digits + p.gap + p.unit;
            Trim(p.Text()) == core && DigitRun(core) == |p.digits| < |core| &&
            core[..|p.digits|] == p.digits && Trim(core[|p.digits|..]) == p.unit
  {
    hide IsTight, Trim, DigitRun;
    var core := p.digits + p.gap + p.unit;
    CoreIsTight(p);
    TrimIsolates(p.lead, core, p.trail);
    assert core == p.digits + (p.gap + p.unit);
    DigitRunStops(p.digits, p.gap + p.unit);
    assert p.gap + p.unit == p.gap + p.unit + [];
    TrimIsolates(p.gap, p.unit, []);
    assert core[..|p.digits|] == p.digits && core[|p.digits|..] == p.gap + p.unit;
  }

  lemma TightHasNoTrail(s: string, before: string, after: string)
    requires IsTight(s) && IsBlank(after) && s == before + after
    ensures after == []
  {}

  /** Everything the parser accepts has that shape. */
  lemma ParseOnlySpellings(kind: Kind, s: string) returns (p: Spelling)
    requires Parse(kind, s).Ok?
    ensures p.IsFor(kind) && p.Text() == s
  {
    hide Multiplier, ParseDigits, DigitRun, Trim, IsBlank;
    var lead, trail := TrimSplits(s);
    var core := Trim(s);
    var n := DigitRun(core);
    var unit := Trim(core[n..]);
    var gap, after := TrimSplits(core[n..]);
    assert core == core[..n] + core[n..];
    assert core == core[..n] + gap + unit + after;
    TightHasNoTrail(core, core[..n] + gap + unit, after);
    p := Spelling(lead, core[..n], gap, unit, trail);
    assert p.digits + p.gap + p.unit == core;
  }

  /** The parser accepts exactly: blanks, digits, blanks, a known unit, blanks, where the number
      and its product with the unit fit 64 bits; and it returns that product. */
  ghost predicate Spells(kind: Kind, p: Spelling, s: string, n: uint64) {
    p.IsFor(kind) && p.Text() == s && ParseDigits(p.digits).Some? &&
    n == ParseDigits(p.digits).value * Multiplier(kind, p.unit).value
  }

  lemma ParseIsGrammar(kind: Kind, s: string, n: uint64)
    ensures Parse(kind, s) == Ok(n) <==> exists p: Spelling :: Spells(kind, p, s, n)
  {
    if Parse(kind, s) == Ok(n) {
      var p := ParseOnlySpellings(kind, s);
      ParseSpelling(kind, p);
      assert Spells(kind, p, s, n);
    }
    forall p: Spelling | Spells(kind, p, s, n)
      ensures Parse(kind, s) == Ok(n)
    {
      ParseSpelling(kind, p);
    }
  }

  // ------------------------------------------------------------------ numbers

  /** The integer that a run of digits denotes. */
  function Denoted(digits: string): nat
    requires IsDigits(digits)
  {
    if digits == [] then 0
    else
      assert digits[|digits| - 1] in digits;
      10 * Denoted(digits[..|digits| - 1]) + (digits[|digits| - 1] as int - '0' as int)
  }

  /** Checking every step for overflow is the same as checking the result once. */
  lemma {:induction false} ParseDigitsChecksOnce(digits: string)
    requires IsDigits(digits)
    ensures ParseDigits(digits) == if Denoted(digits) <= U64_MAX then Some(Denoted(digits)) else None
  {
    if digits != [] {
      assert digits[|digits| - 1] in digits;
      ParseDigitsChecksOnce(digits[..|digits| - 1]);
    }
  }

  /** The printed number is the one numeral of the value without leading zeros. */
  lemma {:induction false} DecimalIsNumeral(n: nat)
    ensures Decimal(n) != [] && IsDigits(Decimal(n)) && Denoted(Decimal(n)) == n
    ensures Decimal(n)[0] == '0' <==> n == 0
    ensures n == 0 ==> Decimal(n) == "0"
  {
    if n < 10 {
      assert Decimal(n)[..0] == [];
    } else {
      DecimalIsNumeral(n / 10);
      assert Decimal(n)[..|Decimal(n)| - 1] == Decimal(n / 10);
    }
  }

  // ------------------------------------------------------------------ round trip

  lemma DecimalParses(n: uint64)
    ensures Decimal(n) != [] && IsDigits(Decimal(n)) && ParseDigits(Decimal(n)) == Some(n)
  {
    DecimalIsNumeral(n);
    ParseDigitsChecksOnce(Decimal(n));
  }

  /** The chosen unit divides the value, and no larger unit of the same kind does (zero aside). */
  lemma DisplayUnitIsLargest(kind: Kind, n: nat)
    ensures Multiplier(kind, DisplayUnit(kind, n)).Some?
    ensures var m := Multiplier(kind, DisplayUnit(kind, n)).value;
            n % m == 0 &&
            forall unit: string :: 0 < n && Multiplier(kind, unit).Some? && m < Multiplier(kind, unit).value ==>
              n % Multiplier(kind, unit).value != 0
  {}

  lemma DisplayUnitDivides(kind: Kind, n: nat)
    ensures var m := Multiplier(kind, DisplayUnit(kind, n)); m.Some? && n / m.value * m.value == n
  {
    DisplayUnitIsLargest(kind, n);
  }

  lemma ParsePlain(kind: Kind, value: uint64, unit: string)
    requires Multiplier(kind, unit).Some? && value * Multiplier(kind, unit).value <= U64_MAX
    ensures Parse(kind, Decimal(value) + unit) == Ok(value * Multiplier(kind, unit).value)
  {
    hide Multiplier, ParseDigits, Decimal;
    var p := Spelling("", Decimal(value), "", unit, "");
    DecimalParses(value);
    assert p.Text() == Decimal(value) + unit;
    ParseSpelling(kind, p);
  }

  /** Print then parse is the identity, for every value of either kind. */
  lemma PrintParse(kind: Kind, n: uint64)
    ensures Parse(kind, Print(kind, n)) == Ok(n)
  {
    DisplayUnitDivides(kind, n);
    var unit := DisplayUnit(kind, n);
    ParsePlain(kind, n / Multiplier(kind, unit).value, unit);
  }

  /** Printing what was parsed gives one normal form per value, stable under repetition. */
  lemma NormalForm(kind: Kind, s: string, s': string)
    requires Parse(kind, s).Ok? && Parse(kind, s').Ok?
    ensures var normal := Print(kind, Parse(kind, s).value);
            Parse(kind, normal) == Parse(kind, s) && Print(kind, Parse(kind, normal).value) == normal &&
            (Parse(kind, s') == Parse(kind, s) <==> Print(kind, Parse(kind, s').value) == normal)
  {
    PrintParse(kind, Parse(kind, s).value);
    PrintParse(kind, Parse(kind, s').value);
  }
}
