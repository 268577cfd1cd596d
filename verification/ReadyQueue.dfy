/** The ready set: one bit per priority, the highest one found by its index. */
module ReadyQueue {
  import opened Words
  import opened Bits
  import opened ResponseTime
  import opened Scheduler

  const PRIORITY_LEVELS: nat := 32

  type Priority = p: nat | p < PRIORITY_LEVELS

  lemma HighestIsMaximum(w: uint32)
    ensures w == 0 ==> forall q: nat :: !Has(w, q)
    ensures w != 0 ==> Ilog2(w) < PRIORITY_LEVELS && Has(w, Ilog2(w)) && forall q: nat :: Has(w, q) ==> q <= Ilog2(w)
  {
    hide Has, Ilog2, Pow2;
    Width32();
    if w != 0 {
      HighestFits(w, 32);
    }
    forall q: nat
      ensures if w == 0 then !Has(w, q) else Has(w, Ilog2(w)) && (Has(w, q) ==> q <= Ilog2(w))
    {
      if w == 0 {
        NoBits(0, q);
      } else {
        HighestBit(w, q);
      }
    }
    assert w != 0 ==> Has(w, Ilog2(w)) by {
      if w != 0 {
        HighestBit(w, 0);
      }
    }
  }

  class ReadySet {
    var bits: uint32

    constructor ()
      ensures bits == 0
    {
      bits := 0;
    }

    method Insert(priority: Priority)
      modifies this
      ensures forall q: nat :: Has(bits, q) <==> q == priority || Has(old(bits), q)
    {
      WordWidth(bits, priority);
      ghost var before := bits;
      bits := Or(bits, Pow2(priority));
      forall q: nat
        ensures Has(bits, q) <==> q == priority || Has(before, q)
      {
        HasOr(before, Pow2(priority), q);
        HasPow2(priority, q);
      }
    }

    method Remove(priority: Priority)
      modifies this
      ensures forall q: nat :: Has(bits, q) <==> q != priority && Has(old(bits), q)
    {
      WordWidth(bits, priority);
      ghost var before := bits;
      bits := AndNot(bits, Pow2(priority));
      forall q: nat
        ensures Has(bits, q) <==> q != priority && Has(before, q)
      {
        HasAndNot(before, Pow2(priority), q);
        HasPow2(priority, q);
      }
    }

    predicate Contains(priority: Priority): (r: bool)
      reads this
      ensures r <==> Has(bits, priority)
    {
      MaskTests(bits, priority);
      And(bits, Pow2(priority)) != 0
    }

    /** The maximum of the set, if it has one. */
    function Highest(): (r: Option<Priority>)
      reads this
      ensures r.None? ==> forall q: nat :: !Has(bits, q)
      ensures r.Some? ==> Has(bits, r.value) && forall q: nat :: Has(bits, q) ==> q <= r.value
    {
      HighestIsMaximum(bits);
      if bits == 0 then None else Some(Ilog2(bits))
    }
  }

  lemma WordWidth(w: uint32, priority: Priority)
    ensures Or(w, Pow2(priority)) <= U32_MAX && AndNot(w, Pow2(priority)) <= U32_MAX
  {
    hide Or, AndNot, Pow2;
    Width32();
    Pow2Mono(priority, 31);
    StaysNarrow(w, Pow2(priority), 32);
  }

  lemma Width32()
    ensures Pow2(32) == U32_MAX + 1 && Pow2(31) < Pow2(32)
  {
    assert Pow2(8) == 256;
    Pow2Sum(8, 8);
    Pow2Sum(16, 16);
  }

  /** The word has exactly the bits of the priorities with work waiting at tick `t`. */
  ghost predicate IsReadyWord(all: seq<TaskTiming>, run: Run, t: nat, w: nat)
    requires t <= |run.cpu|
  {
    forall p: nat :: Has(w, p) <==> exists k: nat :: k < |all| && all[k].priority == p && Waiting(run, k, t, t)
  }

  /** Dispatching by the highest bit of the ready set is the declared policy: in every run the task
      that gets the tick has that priority, and the CPU idles exactly when the set is empty. */
  lemma HighestIsDispatched(all: seq<TaskTiming>, run: Run, t: nat, w: nat)
    requires IsRun(all, run) && t < |run.cpu| && IsReadyWord(all, run, t, w)
    ensures match run.cpu[t]
            case None => w == 0
            case Some(j) => w != 0 && j < |all| && all[j].priority == Ilog2(w)
  {
    assert FollowsPolicy(all, run, t);
    if w != 0 {
      HighestBit(w, 0);
      var k: nat :| k < |all| && all[k].priority == Ilog2(w) && Waiting(run, k, t, t);
      var j := run.cpu[t].value;
      assert MayPrecede(all, run, j, k, t);
      assert Has(w, all[j].priority);
      HighestBit(w, all[j].priority);
    } else if run.cpu[t].Some? {
      assert Has(w, all[run.cpu[t].value].priority);
      NoBits(0, all[run.cpu[t].value].priority);
    }
  }
}
