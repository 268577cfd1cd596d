/** The response-time recurrence `R = base + sum of ceil(R / T_j) * C_j` over unbounded integers. */
module Recurrence {
  import opened Words

  /** What one higher-priority task costs: `wcet` ticks per `period` ticks. */
  datatype Load = Load(period: positive, wcet: nat)

  /** Ticks one interferer can take from a window of length `w`. */
  function Cost(load: Load, w: nat): nat {
    DivCeil(w, load.period) * load.wcet
  }

  /** Right-hand side of the recurrence at window length `w`. */
  function Demand(base: nat, hp: seq<Load>, w: nat): nat {
    if hp == [] then base
    else
      Demand(base, hp[..|hp| - 1], w) + Cost(hp[|hp| - 1], w)
  }

  /** Number of activations of all interferers in a window of length `w`. */
  function Activations(hp: seq<Load>, w: nat): nat {
    if hp == [] then 0
    else Activations(hp[..|hp| - 1], w) + DivCeil(w, hp[|hp| - 1].period)
  }

  /** `w` ticks are enough to serve everything demanded in a window of `w` ticks. */
  ghost predicate Suffices(base: nat, hp: seq<Load>, w: nat) {
    Demand(base, hp, w) <= w
  }

  /** No window shorter than `w` suffices. */
  ghost predicate IsLowerBound(base: nat, hp: seq<Load>, w: nat) {
    forall y: nat :: Suffices(base, hp, y) ==> w <= y
  }

  /** `w` solves the recurrence and no smaller window even suffices. */
  ghost predicate IsLeastSolution(base: nat, hp: seq<Load>, w: nat) {
    Demand(base, hp, w) == w && IsLowerBound(base, hp, w)
  }

  lemma CostMono(load: Load, w: nat, w': nat)
    requires w <= w'
    ensures Cost(load, w) <= Cost(load, w')
  {
    DivCeilMono(w, w', load.period, load.period);
    MulMono(DivCeil(w, load.period), DivCeil(w', load.period), load.wcet);
  }

  lemma {:induction false} DemandMono(base: nat, hp: seq<Load>, w: nat, w': nat)
    requires w <= w'
    ensures base <= Demand(base, hp, w) <= Demand(base, hp, w')
  {
    if hp != [] {
      DemandMono(base, hp[..|hp| - 1], w, w');
      CostMono(hp[|hp| - 1], w, w');
    }
  }

  lemma {:induction false} DemandBase(base: nat, hp: seq<Load>, w: nat)
    ensures Demand(base, hp, w) == base + Demand(0, hp, w)
  {
    if hp != [] {
      DemandBase(base, hp[..|hp| - 1], w);
    }
  }

  lemma DemandOne(base: nat, load: Load, w: nat)
    ensures Demand(base, [load], w) == base + Cost(load, w)
  {
    assert [load][..0] == [];
  }

  /** Any one interferer fits into the demand beside the base. */
  lemma {:induction false} CostWithin(base: nat, hp: seq<Load>, w: nat, k: nat)
    requires k < |hp|
    ensures base + Cost(hp[k], w) <= Demand(base, hp, w)
  {
    var n := |hp| - 1;
    if k == n {
      DemandMono(base, hp[..n], w, w);
    } else {
      CostWithin(base, hp[..n], w, k);
    }
  }

  /** A positive window holds an activation, which costs at least one execution time. */
  lemma WcetWithinCost(load: Load, w: positive)
    ensures 1 <= DivCeil(w, load.period) && load.wcet <= Cost(load, w)
  {
    DivCeilBounds(w, load.period);
    MulMono(1, DivCeil(w, load.period), load.wcet);
  }

  lemma {:induction false} DemandAtZero(base: nat, hp: seq<Load>)
    ensures Demand(base, hp, 0) == base
  {
    if hp != [] {
      DemandAtZero(base, hp[..|hp| - 1]);
    }
  }

  /** Demand can only grow when at least one new activation enters the window. */
  lemma {:induction false} MoreDemandMoreActivations(base: nat, hp: seq<Load>, w: nat, w': nat)
    requires w <= w'
    ensures Activations(hp, w) <= Activations(hp, w')
    ensures Demand(base, hp, w) < Demand(base, hp, w') ==> Activations(hp, w) < Activations(hp, w')
  {
    if hp != [] {
      var last := hp[|hp| - 1];
      MoreDemandMoreActivations(base, hp[..|hp| - 1], w, w');
      DivCeilMono(w, w', last.period, last.period);
    }
  }

  lemma {:induction false} PositiveWindowActivatesAll(hp: seq<Load>, w: nat)
    requires 0 < w
    ensures |hp| <= Activations(hp, w)
  {
    if hp != [] {
      PositiveWindowActivatesAll(hp[..|hp| - 1], w);
      DivCeilBounds(w, hp[|hp| - 1].period);
    }
  }

  /** Below any window that suffices lies an exact solution. */
  lemma {:induction false} SolutionBelow(base: nat, hp: seq<Load>, y: nat) returns (x: nat)
    requires Suffices(base, hp, y)
    ensures x <= y && Demand(base, hp, x) == x
    decreases y
  {
    x := Demand(base, hp, y);
    if x == y {
      return;
    }
    DemandMono(base, hp, x, y);
    x := SolutionBelow(base, hp, x);
  }

  // ------------------------------------------------------------------ comparing task sets

  /** Pointwise easier: same interferers, each no costlier and no more frequent. */
  ghost predicate Eased(hp: seq<Load>, hp': seq<Load>) {
    |hp| == |hp'| &&
    forall k :: 0 <= k < |hp| ==> hp'[k].wcet <= hp[k].wcet && hp[k].period <= hp'[k].period
  }

  lemma {:induction false} EasedDemand(base: nat, base': nat, hp: seq<Load>, hp': seq<Load>, w: nat)
    requires base' <= base && Eased(hp, hp')
    ensures Demand(base', hp', w) <= Demand(base, hp, w)
  {
    if hp != [] {
      var n := |hp| - 1;
      assert Eased(hp[..n], hp'[..n]);
      EasedDemand(base, base', hp[..n], hp'[..n], w);
      DivCeilMono(w, w, hp'[n].period, hp[n].period);
      ProductMono(DivCeil(w, hp'[n].period), DivCeil(w, hp[n].period), hp'[n].wcet, hp[n].wcet);
    }
  }

  function Without<T>(s: seq<T>, p: nat): seq<T>
    requires p < |s|
  {
    s[..p] + s[p + 1..]
  }

  lemma WithoutMultiset<T>(s: seq<T>, p: nat)
    requires p < |s|
    ensures multiset(Without(s, p)) == multiset(s) - multiset{s[p]}
  {
    assert s == s[..p] + [s[p]] + s[p + 1..];
  }

  lemma {:induction false} DemandWithout(base: nat, hp: seq<Load>, w: nat, p: nat)
    requires p < |hp|
    ensures Demand(base, hp, w) == Demand(base, Without(hp, p), w) + Cost(hp[p], w)
  {
    var n := |hp| - 1;
    if p == n {
      assert Without(hp, p) == hp[..n];
    } else {
      DemandWithout(base, hp[..n], w, p);
      assert Without(hp, p)[..n - 1] == Without(hp[..n], p);
    }
  }

  /** Demand depends on the interferers as a multiset, and dropping some never raises it. */
  lemma {:induction false} DemandSubset(base: nat, hp: seq<Load>, hp': seq<Load>, w: nat)
    requires multiset(hp') <= multiset(hp)
    ensures Demand(base, hp', w) <= Demand(base, hp, w)
    decreases |hp'|
  {
    if hp' == [] {
      DemandMono(base, hp, w, w);
    } else {
      var n := |hp'| - 1;
      assert hp' == hp'[..n] + [hp'[n]];
      assert hp'[n] in multiset(hp);
      var p :| 0 <= p < |hp| && hp[p] == hp'[n];
      DemandWithout(base, hp, w, p);
      WithoutMultiset(hp, p);
      DemandSubset(base, Without(hp, p), hp'[..n], w);
    }
  }
}
