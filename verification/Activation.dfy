/** Periodic activation on an absolute grid: constant-time catch-up against the naive loop. */
module Activation {
  import opened Words

  // ------------------------------------------------------------------ the naive loop, unbounded

  /** What the catch-up loop sees: an instant it skips, or the one it settles on. */
  datatype Event = Miss(at: nat) | Target(at: nat)

  /** While the next instant lies before `now`, count it as missed and add an interval. */
  function CatchUp(next: nat, interval: positive, now: nat): (log: seq<Event>)
    ensures log != []
    decreases if next < now then now - next else 0
  {
    if now <= next then [Target(next)]
    else [Miss(next)] + CatchUp(next + interval, interval, now)
  }

  /** Consecutive grid instants from `next` on, all missed except the last, which is the first
      one not before `now`. */
  ghost predicate IsCatchUp(log: seq<Event>, next: nat, interval: positive, now: nat) {
    log != [] &&
    forall k: nat :: k < |log| ==>
      log[k].at == next + k * interval && (log[k].Target? <==> k == |log| - 1) && (log[k].Miss? <==> log[k].at < now)
  }

  lemma {:induction false} CatchUpLog(next: nat, interval: positive, now: nat)
    ensures IsCatchUp(CatchUp(next, interval, now), next, interval, now)
    decreases if next < now then now - next else 0
  {
    if next < now {
      CatchUpLog(next + interval, interval, now);
      var rest := CatchUp(next + interval, interval, now);
      forall k: nat | k < |rest|
        ensures rest[k].at == next + (k + 1) * interval
      {
        assert (k + 1) * interval == k * interval + interval;
      }
    }
  }

  /** The position of a schedule, over unbounded integers. */
  datatype Grid = Grid(next: nat, missed: nat)

  function Step(g: Grid, interval: positive, now: nat): Grid {
    var log := CatchUp(g.next + interval, interval, now);
    Grid(log[|log| - 1].at, g.missed + |log| - 1)
  }

  /** The least grid instant after the current one that is not before `now`. */
  lemma StepIsLeast(g: Grid, interval: positive, now: nat, k: nat)
    requires 1 <= k && now <= g.next + k * interval
    ensures g.next < Step(g, interval, now).next && now <= Step(g, interval, now).next <= g.next + k * interval
  {
    var log := CatchUp(g.next + interval, interval, now);
    CatchUpLog(g.next + interval, interval, now);
    assert (k - 1) * interval == k * interval - interval;
    assert k - 1 < |log| ==> !log[k - 1].Miss?;
    MulMono(|log| - 1, k - 1, interval);
  }

  /** The number of skipped instants is a rounded-up quotient. */
  lemma CatchUpCount(next: nat, interval: positive, now: nat)
    requires next < now
    ensures |CatchUp(next, interval, now)| - 1 == DivCeil(now - next, interval)
  {
    var log := CatchUp(next, interval, now);
    var n := |log| - 1;
    CatchUpLog(next, interval, now);
    assert log[n].Target?;
    assert n != 0;
    assert log[n - 1].Miss?;
    assert (n - 1) * interval == n * interval - interval;
    DivCeilUnique(now - next, interval, n);
  }

  function Saturate(g: Grid): Grid {
    Grid(Cap(g.next), Cap32(g.missed))
  }

  // ------------------------------------------------------------------ the code

  class Period {
    var next: uint64
    const interval: uint64
    var missed: uint32

    function Position(): Grid
      reads this
    {
      Grid(next, missed)
    }

    constructor StartingAt(start: uint64, intervalTicks: uint64)
      ensures interval == intervalTicks && Position() == Saturate(Grid(start + intervalTicks, 0))
    {
      next := SatAdd(start, intervalTicks);
      interval := intervalTicks;
      missed := 0;
    }

    /** One step of the naive loop, saturated once at the end in time and in the counter. A zero
        interval, for which that loop would not end, counts one miss and stays where it is. */
    method Advance(now: uint64) returns (target: uint64)
      modifies this
      ensures target == next
      ensures 0 < interval ==> Position() == Saturate(Step(old(Position()), interval, now))
      ensures interval == 0 ==>
                Position() == Saturate(Grid(old(next), old(missed) + if old(next) < now then 1 else 0))
    {
      ghost var stepped := next + interval;
      next := SatAdd(next, interval);
      if now > next {
        var behind := SatSub(now, next);
        var skipped: nat := if interval == 0 then 1 else DivCeil(behind, interval);
        var skippedCount: uint32 := if skipped > U32_MAX then U32_MAX else skipped;
        missed := Cap32(missed + skippedCount);
        next := SatAdd(next, SatMul(skipped, interval));
        if interval != 0 {
          CatchUpCount(stepped, interval, now);
          CatchUpLog(stepped, interval, now);
        }
      }
      target := next;
    }
  }

  // ------------------------------------------------------------------ whole runs

  function RunNaive(g: Grid, interval: positive, nows: seq<uint64>): Grid {
    if nows == [] then g
    else Step(RunNaive(g, interval, nows[..|nows| - 1]), interval, nows[|nows| - 1])
  }

  /** What a `Period` holds after a sequence of calls to `Advance`. */
  function RunSaturating(g: Grid, interval: positive, nows: seq<uint64>): Grid {
    if nows == [] then Saturate(g)
    else Saturate(Step(RunSaturating(g, interval, nows[..|nows| - 1]), interval, nows[|nows| - 1]))
  }

  /** Saturating before a step or only after it makes no difference. */
  lemma SaturateCommutes(g: Grid, interval: positive, now: uint64)
    ensures Saturate(Step(Saturate(g), interval, now)) == Saturate(Step(g, interval, now))
  {
    if g.next <= U64_MAX {
      assert Saturate(g).next == g.next;
    }
  }

  /** Saturation never compounds: after any sequence of calls the code holds the unbounded
      schedule, capped once. */
  lemma {:induction false} RunRefinesNaive(g: Grid, interval: positive, nows: seq<uint64>)
    ensures RunSaturating(g, interval, nows) == Saturate(RunNaive(g, interval, nows))
  {
    if nows != [] {
      RunRefinesNaive(g, interval, nows[..|nows| - 1]);
      SaturateCommutes(RunNaive(g, interval, nows[..|nows| - 1]), interval, nows[|nows| - 1]);
    }
  }

  function Start(start: nat, interval: positive): Grid {
    Grid(start + interval, 0)
  }

  /** Everything that happened on the grid since `start`, in order. */
  function Log(start: nat, interval: positive, nows: seq<uint64>): seq<Event> {
    if nows == [] then [Target(start + interval)]
    else
      var before := nows[..|nows| - 1];
      Log(start, interval, before)
      + CatchUp(RunNaive(Start(start, interval), interval, before).next + interval, interval, nows[|nows| - 1])
  }

  function Misses(log: seq<Event>): nat {
    if log == [] then 0 else Misses(log[..|log| - 1]) + if log[|log| - 1].Miss? then 1 else 0
  }

  lemma {:induction false} MissesConcat(a: seq<Event>, b: seq<Event>)
    ensures Misses(a + b) == Misses(a) + Misses(b)
  {
    if b == [] {
      assert a + b == a;
    } else {
      MissesConcat(a, b[..|b| - 1]);
      assert (a + b)[..|a + b| - 1] == a + b[..|b| - 1];
    }
  }

  lemma {:induction false} AllMissed(log: seq<Event>)
    requires forall e :: e in log ==> e.Miss?
    ensures Misses(log) == |log|
  {
    if log != [] {
      AllMissed(log[..|log| - 1]);
    }
  }

  /** The k-th event is at the k-th grid instant after `start`. */
  ghost predicate IsOnGrid(log: seq<Event>, start: nat, interval: positive) {
    forall k: nat :: k < |log| ==> log[k].at == start + (k + 1) * interval
  }

  lemma AppendCatchUp(log: seq<Event>, added: seq<Event>, start: nat, interval: positive, now: nat)
    requires IsOnGrid(log, start, interval)
    requires IsCatchUp(added, start + |log| * interval + interval, interval, now)
    ensures IsOnGrid(log + added, start, interval) && Misses(log + added) == Misses(log) + |added| - 1
    ensures added[|added| - 1].at == start + |log + added| * interval
  {
    forall j: nat | j < |added|
      ensures added[j].at == start + (|log| + j + 1) * interval
    {
      assert (|log| + j + 1) * interval == |log| * interval + interval + j * interval;
    }
    MissesConcat(log, added);
    AllMissed(added[..|added| - 1]);
  }

  lemma StepLog(g: Grid, interval: positive, now: nat)
    ensures var added := CatchUp(g.next + interval, interval, now);
            IsCatchUp(added, g.next + interval, interval, now) && added != [] &&
            Step(g, interval, now) == Grid(added[|added| - 1].at, g.missed + |added| - 1)
  {
    CatchUpLog(g.next + interval, interval, now);
  }

  lemma FirstTarget(start: nat, interval: positive)
    ensures IsOnGrid([Target(start + interval)], start, interval) && Misses([Target(start + interval)]) == 0
  {}

  /** No drift and no phantom miss. The k-th event since the start is at grid instant k, so every
      instant up to the next activation is exactly once a target or a miss; the last one is the
      next activation; there is one target per call besides the first, and the rest are the
      counted misses. */
  lemma {:induction false} EveryInstantAccounted(start: nat, interval: positive, nows: seq<uint64>)
    ensures var g := RunNaive(Start(start, interval), interval, nows);
            var log := Log(start, interval, nows);
            IsOnGrid(log, start, interval) && |log| == 1 + |nows| + g.missed && Misses(log) == g.missed &&
            g.next == start + |log| * interval
  {
    hide Step, CatchUp, IsCatchUp, IsOnGrid, Misses;
    if nows == [] {
      FirstTarget(start, interval);
    } else {
      var before, now := nows[..|nows| - 1], nows[|nows| - 1];
      EveryInstantAccounted(start, interval, before);
      var g, log := RunNaive(Start(start, interval), interval, before), Log(start, interval, before);
      var added := CatchUp(g.next + interval, interval, now);
      StepLog(g, interval, now);
      AppendCatchUp(log, added, start, interval, now);
    }
  }

  /** For the words the code holds: with nothing saturated the next activation is
      `start + (1 + calls + missed) * interval` exactly, and otherwise that integer, capped. */
  lemma NoDrift(start: uint64, interval: positive, nows: seq<uint64>)
    ensures var m := Misses(Log(start, interval, nows));
            RunSaturating(Start(start, interval), interval, nows)
            == Saturate(Grid(start + (1 + |nows| + m) * interval, m))
  {
    RunRefinesNaive(Start(start, interval), interval, nows);
    EveryInstantAccounted(start, interval, nows);
  }

  /** With a positive interval the schedule is never left behind, saturated or not. */
  lemma NeverBehind(g: Grid, interval: positive, now: uint64)
    ensures now <= Saturate(Step(g, interval, now)).next
  {
    CatchUpLog(g.next + interval, interval, now);
  }
}
