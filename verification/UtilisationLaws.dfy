/** What the reported utilisation says of any task set, complete or not. */
module UtilisationLaws {
  import opened Words
  import opened ResponseTime

  /** Two task sets together use what each of them uses, capped once. */
  lemma {:induction false} UtilisationAdds(a: seq<TaskTiming>, b: seq<TaskTiming>)
    ensures Utilisation(a + b) == Cap(Utilisation(a) + Utilisation(b))
  {
    if b == [] {
      assert a + b == a;
    } else {
      var n := |b| - 1;
      UtilisationAdds(a, b[..n]);
      assert (a + b)[..|a + b| - 1] == a + b[..n];
    }
  }

  /** One task alone: nothing unless it declares a period and an execution time, everything at a
      zero period, and otherwise its share in parts per million, rounded down, where the scaled
      execution time is held to 64 bits. */
  lemma UtilisationOfOne(task: TaskTiming)
    ensures match (task.period, task.wcet)
            case (Some(period), Some(wcet)) =>
              var share := Utilisation([task]);
              if period == 0 then share == U64_MAX
              else if 1_000_000 * wcet <= U64_MAX then
                share * period <= 1_000_000 * wcet < (share + 1) * period
              else
                share * period <= U64_MAX < (share + 1) * period
            case _ => Utilisation([task]) == 0
  {
    assert [task][..0] == [];
    if task.period.Some? && task.wcet.Some? && task.period.value != 0 {
      QuotientBounds(SatMul(task.wcet.value, 1_000_000), task.period.value);
    }
  }

  lemma QuotientBounds(x: nat, period: positive)
    ensures x / period * period <= x < (x / period + 1) * period
  {
    assert (x / period + 1) * period == x / period * period + period;
  }

  /** A task without a period or an execution time does not count, wherever it is declared. */
  lemma UndeclaredAddsNothing(before: seq<TaskTiming>, task: TaskTiming, after: seq<TaskTiming>)
    requires task.period.None? || task.wcet.None?
    ensures Utilisation(before + [task] + after) == Utilisation(before + after)
  {
    hide Utilisation;
    UtilisationOfOne(task);
    UtilisationAdds(before, [task]);
    UtilisationAdds(before + [task], after);
    UtilisationAdds(before, after);
  }

  /** A declared zero period is unbounded demand, wherever it is declared. */
  lemma ZeroPeriodFills(before: seq<TaskTiming>, task: TaskTiming, after: seq<TaskTiming>)
    requires task.period == Some(0) && task.wcet.Some?
    ensures Utilisation(before + [task] + after) == U64_MAX
  {
    hide Utilisation;
    UtilisationOfOne(task);
    UtilisationAdds(before, [task]);
    UtilisationAdds(before + [task], after);
  }

  // ------------------------------------------------------------------ how accurate it is

  predicate IsDeclared(task: TaskTiming) {
    task.period.Some? && task.wcet.Some?
  }

  /** A million times the sum of C / T over the tasks that declare both. */
  ghost function ExactPpm(tasks: seq<TaskTiming>): real
    requires forall t :: t in tasks && IsDeclared(t) ==> 0 < t.period.value
  {
    if tasks == [] then 0.0
    else
      var last := tasks[|tasks| - 1];
      ExactPpm(tasks[..|tasks| - 1]) + if IsDeclared(last) then Quotient(1_000_000 * last.wcet.value, last.period.value)
                                       else 0.0
  }

  ghost function Quotient(a: nat, b: positive): real {
    a as real / b as real
  }

  function DeclaredCount(tasks: seq<TaskTiming>): nat {
    if tasks == [] then 0
    else DeclaredCount(tasks[..|tasks| - 1]) + if IsDeclared(tasks[|tasks| - 1]) then 1 else 0
  }

  ghost predicate IsScalable(wcet: nat) {
    1_000_000 * wcet <= U64_MAX
  }

  lemma FloorBounds(a: nat, b: positive)
    ensures (a / b) as real <= Quotient(a, b) < (a / b) as real + 1.0
  {
    hide Quotient;
    var q, x := a / b, Quotient(a, b);
    QuotientBounds(a, b);
    QuotientTimes(a, b);
    ProductAsReal(q, b);
    ProductAsReal(q + 1, b);
    CancelReal(q as real, x, b as real);
    CancelReal(x, (q + 1) as real, b as real);
  }

  lemma QuotientTimes(a: nat, b: positive)
    ensures Quotient(a, b) * b as real == a as real
  {}

  lemma ProductAsReal(a: nat, b: nat)
    ensures (a * b) as real == a as real * b as real
  {}

  lemma CancelReal(x: real, y: real, b: real)
    requires 0.0 < b
    ensures x * b <= y * b <==> x <= y
    ensures x * b < y * b <==> x < y
  {
    assert (y - x) * b == y * b - x * b;
  }

  lemma QuotientMono(a: nat, a': nat, b: positive)
    requires a <= a'
    ensures Quotient(a, b) <= Quotient(a', b)
  {
    hide Quotient;
    QuotientTimes(a, b);
    QuotientTimes(a', b);
    CancelReal(Quotient(a, b), Quotient(a', b), b as real);
  }

  lemma ShareIsAccurate(period: positive, wcet: nat)
    ensures var share := Cap(1_000_000 * wcet) / period;
            share <= U64_MAX && share as real <= Quotient(1_000_000 * wcet, period) &&
            (IsScalable(wcet) ==> Quotient(1_000_000 * wcet, period) < share as real + 1.0)
  {
    hide Quotient;
    FloorBounds(Cap(1_000_000 * wcet), period);
    QuotientMono(Cap(1_000_000 * wcet), 1_000_000 * wcet, period);
    QuotientBounds(Cap(1_000_000 * wcet), period);
    FactorFits(Cap(1_000_000 * wcet) / period, period, Cap(1_000_000 * wcet));
  }

  lemma FactorFits(q: nat, b: positive, x: nat)
    requires q * b <= x
    ensures q <= x
  {
    MulMono(1, b, q);
  }

  /** With positive periods the figure, before the cap, never exceeds a million times the sum of
      C / T, and falls short of it by less than one part per million per declared task, unless a
      scaled execution time exceeds 64 bits. */
  lemma {:induction false} UtilisationIsAccurate(tasks: seq<TaskTiming>) returns (uncapped: nat)
    requires forall t :: t in tasks && IsDeclared(t) ==> 0 < t.period.value
    ensures Utilisation(tasks) == Cap(uncapped) && uncapped as real <= ExactPpm(tasks)
    ensures (forall t :: t in tasks && IsDeclared(t) ==> IsScalable(t.wcet.value)) && DeclaredCount(tasks) != 0 ==>
              ExactPpm(tasks) < (uncapped + DeclaredCount(tasks)) as real
    ensures DeclaredCount(tasks) == 0 ==> ExactPpm(tasks) == 0.0
  {
    hide Quotient, IsScalable;
    if tasks == [] {
      uncapped := 0;
    } else {
      var init, last := tasks[..|tasks| - 1], tasks[|tasks| - 1];
      assert last in tasks && forall t :: t in init ==> t in tasks;
      uncapped := UtilisationIsAccurate(init);
      if IsDeclared(last) {
        ShareIsAccurate(last.period.value, last.wcet.value);
        CapAbsorbs(uncapped, Cap(1_000_000 * last.wcet.value) / last.period.value);
        uncapped := uncapped + Cap(1_000_000 * last.wcet.value) / last.period.value;
      }
    }
  }

  /** The execution times whose share is accurate to one part per million beside every period:
      exactly those that fit 64 bits when scaled. */
  lemma ShareIsAccurateIff(task: TaskTiming, wcet: uint64)
    ensures IsScalable(wcet) <==>
            forall period: uint64 :: 0 < period ==>
              1_000_000 * wcet < (Utilisation([task.(period := Some(period), wcet := Some(wcet))]) + 1) * period
  {
    forall period: uint64 | 0 < period && IsScalable(wcet)
      ensures 1_000_000 * wcet < (Utilisation([task.(period := Some(period), wcet := Some(wcet))]) + 1) * period
    {
      UtilisationOfOne(task.(period := Some(period), wcet := Some(wcet)));
    }
    var full: uint64 := 1;
    UtilisationOfOne(task.(period := Some(full), wcet := Some(wcet)));
    if !IsScalable(wcet) {
      var share := Utilisation([task.(period := Some(full), wcet := Some(wcet))]);
      assert share == U64_MAX;
      assert 1_000_000 * wcet >= (share + 1) * full;
    }
  }
}
