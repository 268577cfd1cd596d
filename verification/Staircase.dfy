/** The limit of sustainability: a task set in which shrinking an execution time turns a `Pass` into
    an undecided verdict, because the smaller steps exhaust the rounds. */
module Staircase {
  import opened Words
  import opened Recurrence
  import opened ResponseTime
  import opened AnalysisLaws

  const STEPS: nat := 1000

  /** Interferers of one tick whose second activations come one tick apart. */
  function Stairs(m: nat): (hp: seq<Load>)
    ensures |hp| == m
  {
    seq(m, k requires 0 <= k < m => Load(STEPS + k, 1))
  }

  function Highs(m: nat): (tasks: seq<TaskTiming>)
    requires m <= STEPS
    ensures |tasks| == m
  {
    seq(m, k requires 0 <= k < m => TaskTiming("high", 2, Some(STEPS + k), None, Some(1), 0))
  }

  function Low(wcet: uint64): TaskTiming {
    TaskTiming("low", 1, Some(2004), None, Some(wcet), 0)
  }

  function Climb(wcet: uint64): seq<TaskTiming> {
    [Low(wcet)] + Highs(STEPS)
  }

  lemma {:induction false} ClimbGathers(wcet: uint64, m: nat)
    requires m <= STEPS
    ensures Gather(Low(wcet), [Low(wcet)] + Highs(m)) == Loads(Stairs(m))
  {
    var all := [Low(wcet)] + Highs(m);
    if m == 0 {
      assert all == [Low(wcet)] && all[..0] == [];
    } else {
      ClimbGathers(wcet, m - 1);
      assert all[..|all| - 1] == [Low(wcet)] + Highs(m - 1);
      assert Stairs(m) == Stairs(m - 1) + [Load(STEPS + m - 1, 1)];
    }
  }

  /** How many of the first `m` interferers run a second time in a window of `w` ticks. */
  function Second(m: nat, w: nat): nat {
    if w <= STEPS then 0 else if w - STEPS <= m then w - STEPS else m
  }

  lemma {:induction false} StairsDemand(base: nat, m: nat, w: nat)
    requires m <= STEPS && 1 <= w <= 2 * STEPS
    ensures Demand(base, Stairs(m), w) == base + m + Second(m, w)
  {
    if m != 0 {
      StairsDemand(base, m - 1, w);
      assert Stairs(m)[..m - 1] == Stairs(m - 1);
      DivCeilUnique(w, STEPS + m - 1, if w <= STEPS + m - 1 then 1 else 2);
    }
  }

  /** Just past the stairs only the first two have run a third time. */
  lemma {:induction false} StairsTop(base: nat, m: nat)
    requires m <= STEPS
    ensures Demand(base, Stairs(m), 2004) == base + 2 * m + if m <= 2 then m else 2
  {
    if m != 0 {
      StairsTop(base, m - 1);
      assert Stairs(m)[..m - 1] == Stairs(m - 1);
      DivCeilUnique(2004, STEPS + m - 1, if m <= 2 then 3 else 2);
    }
  }

  /** On the stairs every round climbs by the base. */
  lemma RoundClimbs(base: uint64, w: uint64)
    requires base <= 2 && STEPS <= w <= 2 * STEPS
    ensures SatDemand(base, Stairs(STEPS), w) == w + base
  {
    hide SatDemand, Demand;
    StairsDemand(base, STEPS, w);
    SatDemandIsCapped(base, Stairs(STEPS), w);
  }

  lemma FirstRound(base: uint64)
    requires 0 < base <= 2
    ensures SatDemand(base, Stairs(STEPS), base) == STEPS + base
  {
    hide SatDemand, Demand;
    StairsDemand(base, STEPS, base);
    SatDemandIsCapped(base, Stairs(STEPS), base);
  }

  lemma {:induction false} ClimbsByOne(w: uint64, rounds: nat)
    requires STEPS <= w && w + rounds <= 2 * STEPS + 1
    ensures Solve(1, Stairs(STEPS), 2004, w, rounds) == Unknown(NotConverged)
    decreases rounds
  {
    hide Stairs, SatDemand;
    if rounds != 0 {
      RoundClimbs(1, w);
      ClimbsByOne(w + 1, rounds - 1);
    }
  }

  lemma {:induction false} ClimbsByTwo(w: uint64, rounds: nat)
    requires STEPS <= w <= 2 * STEPS && 2 * STEPS + 4 < w + 2 * rounds
    ensures !Solve(2, Stairs(STEPS), 2004, w, rounds + 5).Unknown?
    decreases rounds
  {
    hide Stairs, SatDemand;
    RoundClimbs(2, w);
    if 2 * STEPS < w + 2 {
      if Solve(2, Stairs(STEPS), 2004, w, rounds + 5).Unknown? {
        RoundsConsume(2, Stairs(STEPS), 2004, w, rounds + 5);
      }
    } else {
      ClimbsByTwo(w + 2, rounds - 1);
    }
  }

  /** Two ticks of work pass in half the rounds ... */
  lemma TwoTicksPass()
    ensures VerdictOf(Low(2), Climb(2)).Pass?
  {
    hide Stairs, SatDemand, Gather, Demand, Highs;
    ClimbGathers(2, STEPS);
    StairsTop(2, STEPS);
    SaturationIsExact(Low(2), Climb(2));
    assert Suffices(Base(Low(2)), Stairs(STEPS), 2004);
    FirstRound(2);
    ClimbsByTwo(STEPS + 2, 994);
    SecondRound(2, Stairs(STEPS), 2004, STEPS + 2, MAX_ITERATIONS);
  }

  lemma SecondRound(base: uint64, hp: seq<Load>, deadline: uint64, next: uint64, rounds: nat)
    requires 0 < rounds && SatDemand(base, hp, base) == next && base < next <= deadline
    ensures Solve(base, hp, deadline, base, rounds) == Solve(base, hp, deadline, next, rounds - 1)
  {
    hide SatDemand;
  }

  /** ... that one tick of work exhausts. */
  lemma OneTickIsUndecided()
    ensures VerdictOf(Low(1), Climb(1)) == Unknown(NotConverged)
  {
    hide Stairs, SatDemand, Gather, Highs;
    ClimbGathers(1, STEPS);
    FirstRound(1);
    ClimbsByOne(STEPS + 1, 999);
    SecondRound(1, Stairs(STEPS), 2004, STEPS + 1, MAX_ITERATIONS);
  }

  /** So a relaxation can leave a passing task undecided. */
  lemma RelaxationCanExhaust()
    ensures VerdictOf(Low(2), Climb(2)).Pass?
    ensures IsRelaxation(Low(2), Climb(2), Climb(2), Low(1), Climb(1))
    ensures VerdictOf(Low(1), Climb(1)).Unknown?
  {
    hide VerdictOf;
    TwoTicksPass();
    OneTickIsUndecided();
  }
}
