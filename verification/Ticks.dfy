/** From nanoseconds to ticks: the split, saturating, rounding-up conversion. */
module Ticks {
  import opened Words

  const NANOS_PER_SECOND: positive := 1_000_000_000

  /** `Duration::to_ticks`: whole seconds and the rest converted separately, each step saturating. */
  function ToTicks(nanos: uint64, tickHz: uint64): uint64 {
    if tickHz == 0 then 0
    else
      SatAdd(SatMul(nanos / NANOS_PER_SECOND, tickHz),
             DivCeil(SatMul(nanos % NANOS_PER_SECOND, tickHz), NANOS_PER_SECOND))
  }

  /** `Duration::is_tick_aligned`. */
  predicate IsTickAligned(nanos: uint64, tickHz: uint64) {
    tickHz != 0 &&
    var tickNanos := NANOS_PER_SECOND / tickHz;
    tickNanos != 0 && nanos % tickNanos == 0
  }

  /** `TickRate::ticks_from_micros`. */
  function TicksFromMicros(micros: uint64, tickHz: uint32): uint64 {
    DivCeil(SatMul(micros, tickHz), 1_000_000)
  }

  /** The number of ticks at `tickHz` that cover `nanos`, over unbounded integers. */
  function ExactTicks(nanos: nat, tickHz: nat): nat {
    DivCeil(nanos * tickHz, NANOS_PER_SECOND)
  }

  /** The highest rate at which the sub-second product cannot lose a tick to saturation. */
  const MAX_EXACT_HZ: uint64 := 18_446_744_092

  lemma DivCeilOffset(q: nat, y: nat, b: positive)
    ensures DivCeil(q * b + y, b) == q + DivCeil(y, b)
  {
    DivCeilBounds(y, b);
    var n := DivCeil(y, b);
    assert (q + n) * b == q * b + n * b;
    DivCeilUnique(q * b + y, b, q + n);
  }

  /** Converting seconds and the rest separately loses nothing. */
  lemma ExactTicksSplit(seconds: nat, rest: nat, tickHz: nat)
    ensures ExactTicks(seconds * NANOS_PER_SECOND + rest, tickHz)
         == seconds * tickHz + DivCeil(rest * tickHz, NANOS_PER_SECOND)
  {
    assert (seconds * NANOS_PER_SECOND + rest) * tickHz == (seconds * tickHz) * NANOS_PER_SECOND + rest * tickHz;
    DivCeilOffset(seconds * tickHz, rest * tickHz, NANOS_PER_SECOND);
  }

  lemma ToTicksIsExact(nanos: uint64, tickHz: uint64)
    requires tickHz <= MAX_EXACT_HZ
    ensures ToTicks(nanos, tickHz) == Cap(ExactTicks(nanos, tickHz))
    ensures tickHz <= NANOS_PER_SECOND ==> ToTicks(nanos, tickHz) == ExactTicks(nanos, tickHz)
  {
    var s, r := nanos / NANOS_PER_SECOND, nanos % NANOS_PER_SECOND;
    ProductMono(r, 999_999_999, tickHz, MAX_EXACT_HZ);
    ExactTicksSplit(s, r, tickHz);
    if tickHz <= NANOS_PER_SECOND {
      ProductMono(nanos, nanos, tickHz, NANOS_PER_SECOND);
      DivCeilLeast(nanos * tickHz, NANOS_PER_SECOND, nanos);
    }
    if tickHz == 0 {
      assert nanos * tickHz == 0;
    }
  }

  /** The conversion is the rounded-up exact value, capped once, at precisely the rates up to
      `MAX_EXACT_HZ`. */
  lemma ToTicksIsExactIff(tickHz: uint64)
    ensures tickHz <= MAX_EXACT_HZ <==>
            forall nanos: uint64 :: ToTicks(nanos, tickHz) == Cap(ExactTicks(nanos, tickHz))
  {
    if tickHz <= MAX_EXACT_HZ {
      forall nanos: uint64
        ensures ToTicks(nanos, tickHz) == Cap(ExactTicks(nanos, tickHz))
      {
        ToTicksIsExact(nanos, tickHz);
      }
    } else {
      var nanos: uint64 := 999_999_999;
      DivCeilUnique(U64_MAX, NANOS_PER_SECOND, 18_446_744_074);
      DivCeilMono(999_999_999 * (MAX_EXACT_HZ + 1), nanos * tickHz, NANOS_PER_SECOND, NANOS_PER_SECOND);
      assert ToTicks(nanos, tickHz) == 18_446_744_074;
      assert Cap(ExactTicks(nanos, tickHz)) != ToTicks(nanos, tickHz);
    }
  }

  /** Capping the dividend caps the quotient. */
  lemma CappedQuotient(x: nat, b: positive)
    ensures DivCeil(Cap(x), b) == if DivCeil(x, b) <= DivCeil(U64_MAX, b) then DivCeil(x, b) else DivCeil(U64_MAX, b)
  {
    if U64_MAX < x {
      DivCeilMono(U64_MAX, x, b, b);
    } else {
      DivCeilMono(x, U64_MAX, b, b);
    }
  }

  /** At any rate at all: every whole second counts `tickHz` ticks, the rest counts its rounded-up
      quotient but never more than 18 446 744 074 ticks, and the sum is capped once. */
  lemma ToTicksAtAnyRate(seconds: nat, rest: nat, tickHz: uint64)
    requires rest < 1_000_000_000 && seconds * 1_000_000_000 + rest <= U64_MAX
    ensures var exact := ExactTicks(rest, tickHz);
            ToTicks(seconds * 1_000_000_000 + rest, tickHz)
            == Cap(seconds * tickHz + if exact <= 18_446_744_074 then exact else 18_446_744_074)
  {
    hide DivCeil;
    var nanos := seconds * 1_000_000_000 + rest;
    DivModUnique(nanos, NANOS_PER_SECOND, seconds, rest);
    CappedQuotient(rest * tickHz, NANOS_PER_SECOND);
    DivCeilUnique(U64_MAX, NANOS_PER_SECOND, 18_446_744_074);
    if tickHz == 0 {
      assert rest * tickHz == 0 && seconds * tickHz == 0;
      DivCeilUnique(0, NANOS_PER_SECOND, 0);
    }
  }

  /** A longer duration never has fewer ticks, at any rate, saturated or not. */
  lemma ToTicksMono(a: uint64, b: uint64, tickHz: uint64)
    requires a <= b
    ensures ToTicks(a, tickHz) <= ToTicks(b, tickHz)
  {
    var sa, ra := a / NANOS_PER_SECOND, a % NANOS_PER_SECOND;
    var sb, rb := b / NANOS_PER_SECOND, b % NANOS_PER_SECOND;
    if sa == sb {
      MulMono(ra, rb, tickHz);
      DivCeilMono(SatMul(ra, tickHz), SatMul(rb, tickHz), NANOS_PER_SECOND, NANOS_PER_SECOND);
    } else {
      ProductMono(ra, NANOS_PER_SECOND, tickHz, tickHz);
      DivCeilLeast(SatMul(ra, tickHz), NANOS_PER_SECOND, tickHz);
      MulMono(sa + 1, sb, tickHz);
      assert (sa + 1) * tickHz == sa * tickHz + tickHz;
    }
  }

  lemma ToTicksPositive(nanos: uint64, tickHz: uint64)
    requires 0 < nanos && 0 < tickHz
    ensures 0 < ToTicks(nanos, tickHz)
  {
    var s, r := nanos / NANOS_PER_SECOND, nanos % NANOS_PER_SECOND;
    if s != 0 {
      MulMono(1, s, tickHz);
    } else {
      MulMono(1, r, tickHz);
      DivCeilBounds(SatMul(r, tickHz), NANOS_PER_SECOND);
    }
  }

  /** The conversion from nanoseconds and the board's conversion from microseconds agree. */
  lemma MicrosAgree(micros: uint64, tickHz: uint32)
    requires micros * 1_000 <= U64_MAX && micros * tickHz <= U64_MAX
    ensures ToTicks(micros * 1_000, tickHz) == TicksFromMicros(micros, tickHz)
  {
    var x := micros * tickHz;
    ToTicksIsExact(micros * 1_000, tickHz);
    assert micros * 1_000 * tickHz == x * 1_000;
    DivCeilScale(x, 1_000_000, 1_000);
    DivCeilLeast(x, 1_000_000, x);
  }

  /** Where the product does not fit, the board's conversion stops at 18 446 744 073 710 ticks. */
  lemma MicrosAtAnyRate(micros: uint64, tickHz: uint32)
    ensures var exact := DivCeil(micros * tickHz, 1_000_000);
            TicksFromMicros(micros, tickHz) == if exact <= 18_446_744_073_710 then exact else 18_446_744_073_710
  {
    hide DivCeil;
    CappedQuotient(micros * tickHz, 1_000_000);
    DivCeilUnique(U64_MAX, 1_000_000, 18_446_744_073_710);
  }

  // ------------------------------------------------------------------ alignment

  /** A rate whose tick is a whole number of nanoseconds. */
  predicate DividesSecond(tickHz: nat) {
    0 < tickHz && NANOS_PER_SECOND % tickHz == 0
  }

  lemma RemainderScales(n: nat, tick: positive, hz: nat, second: positive)
    requires tick * hz == second
    ensures n * hz % second == (n % tick) * hz
  {
    var q, r := n / tick, n % tick;
    assert n == q * tick + r;
    assert (q * tick + r) * hz == q * (tick * hz) + r * hz;
    assert (r + 1) * hz == r * hz + hz;
    MulMono(r + 1, tick, hz);
    DivModUnique(n * hz, second, q, r * hz);
  }

  lemma AlignedMeansExact(nanos: uint64, tickHz: uint64)
    requires DividesSecond(tickHz)
    ensures IsTickAligned(nanos, tickHz) <==> nanos * tickHz % NANOS_PER_SECOND == 0
  {
    var tick: positive := NANOS_PER_SECOND / tickHz;
    assert tick * tickHz == NANOS_PER_SECOND;
    RemainderScales(nanos, tick, tickHz, NANOS_PER_SECOND);
    if nanos % tick != 0 {
      MulMono(1, nanos % tick, tickHz);
    }
  }

  /** Alignment decides whether a conversion is exact at precisely the rates that divide a second. */
  lemma AlignedMeansExactIff(tickHz: uint64)
    ensures DividesSecond(tickHz) <==>
            forall nanos: uint64 :: IsTickAligned(nanos, tickHz) <==> nanos * tickHz % NANOS_PER_SECOND == 0
  {
    if DividesSecond(tickHz) {
      forall nanos: uint64
        ensures IsTickAligned(nanos, tickHz) <==> nanos * tickHz % NANOS_PER_SECOND == 0
      {
        AlignedMeansExact(nanos, tickHz);
      }
    } else if tickHz == 0 || NANOS_PER_SECOND < tickHz {
      var nanos: uint64 := 0;
      assert !IsTickAligned(nanos, tickHz) && nanos * tickHz % NANOS_PER_SECOND == 0;
    } else {
      var tick: uint64 := NANOS_PER_SECOND / tickHz;
      assert tick * tickHz + NANOS_PER_SECOND % tickHz == NANOS_PER_SECOND;
      assert 0 < tick * tickHz < NANOS_PER_SECOND;
      assert IsTickAligned(tick, tickHz) && tick * tickHz % NANOS_PER_SECOND != 0;
    }
  }
}
