/** The verdict read off the unbounded iterates of the recurrence, and every reason for withholding
    one read off the declarations. */
module VerdictReading {
  import opened Words
  import opened Recurrence
  import opened ResponseTime

  /** The recurrence applied `n` times to its base, over unbounded integers. */
  function Iterated(base: nat, hp: seq<Load>, n: nat): nat {
    if n == 0 then base else Demand(base, hp, Iterated(base, hp, n - 1))
  }

  lemma {:induction false} IteratesRise(base: nat, hp: seq<Load>, n: nat)
    ensures base <= Iterated(base, hp, n) <= Iterated(base, hp, n + 1)
  {
    if n == 0 {
      DemandMono(base, hp, base, base);
    } else {
      IteratesRise(base, hp, n - 1);
      DemandMono(base, hp, Iterated(base, hp, n - 1), Iterated(base, hp, n));
    }
  }

  /** An iterate beyond 64 bits is not lost by capping it. */
  lemma {:induction false} OverflowStays(base: nat, hp: seq<Load>, n: nat)
    requires U64_MAX < Iterated(base, hp, n)
    ensures U64_MAX < Demand(base, hp, U64_MAX)
  {
    if n == 0 {
      DemandMono(base, hp, U64_MAX, U64_MAX);
    } else if U64_MAX < Iterated(base, hp, n - 1) {
      OverflowStays(base, hp, n - 1);
    } else {
      DemandMono(base, hp, Iterated(base, hp, n - 1), U64_MAX);
    }
  }

  /** Saturation never compounds: a saturating round leads from one capped iterate to the next. */
  lemma RoundIsCapped(base: nat, hp: seq<Load>, n: nat)
    ensures SatDemand(Cap(base), hp, Cap(Iterated(base, hp, n))) == Cap(Iterated(base, hp, n + 1))
  {
    SatDemandIsCapped(base, hp, Cap(Iterated(base, hp, n)));
    if U64_MAX < Iterated(base, hp, n) {
      OverflowStays(base, hp, n);
      IteratesRise(base, hp, n);
    }
  }

  /** The iteration has settled on `response` by round `n`. */
  ghost predicate IsFixedAt(base: nat, hp: seq<Load>, response: nat, n: nat) {
    1 <= n <= 1000 && Cap(Iterated(base, hp, n - 1)) == response == Cap(Iterated(base, hp, n))
  }

  /** Round `n` is the first one to pass the deadline. */
  ghost predicate IsFirstBeyond(base: nat, hp: seq<Load>, deadline: nat, n: nat) {
    1 <= n <= 1000 && deadline < Iterated(base, hp, n) &&
    forall k: nat :: 1 <= k < n ==> Iterated(base, hp, k) <= deadline
  }

  /** Round `n` still rises, and still within the deadline. */
  ghost predicate IsUnsettledAt(base: nat, hp: seq<Load>, deadline: nat, n: nat) {
    1 <= n && Cap(Iterated(base, hp, n - 1)) < Cap(Iterated(base, hp, n)) <= deadline
  }

  /** What each verdict says of the iterates. No two of the cases can hold at once, and no two
      responses satisfy the same one, so this determines the verdict. */
  ghost predicate IsRead(base: nat, hp: seq<Load>, deadline: uint64, verdict: Verdict) {
    match verdict
    case Pass(response, slack) =>
      response + slack == deadline && exists n: nat :: IsFixedAt(base, hp, response, n)
    case Fail(response, overrun) =>
      response == deadline + overrun && 0 < overrun &&
      exists n: nat :: IsFirstBeyond(base, hp, deadline, n) && response == Cap(Iterated(base, hp, n))
    case Unknown(reason) =>
      reason == NotConverged && forall n: nat :: 1 <= n <= 1000 ==> IsUnsettledAt(base, hp, deadline, n)
  }

  /** What one more round shows, when every round so far was unsettled. */
  lemma RoundIsRead(base: nat, hp: seq<Load>, deadline: uint64, done: nat)
    requires done < 1000 && forall n: nat :: 1 <= n <= done ==> IsUnsettledAt(base, hp, deadline, n)
    ensures var response, next := Cap(Iterated(base, hp, done)), Cap(Iterated(base, hp, done + 1));
            if next == response && response <= deadline then
              IsRead(base, hp, deadline, Pass(response, deadline - response))
            else if deadline < next then
              IsRead(base, hp, deadline, Fail(next, next - deadline))
            else
              IsUnsettledAt(base, hp, deadline, done + 1)
  {
    hide Iterated;
    IteratesRise(base, hp, done);
    var response, next := Cap(Iterated(base, hp, done)), Cap(Iterated(base, hp, done + 1));
    if next == response && response <= deadline {
      assert IsFixedAt(base, hp, response, done + 1);
    } else if deadline < next {
      forall k: nat | 1 <= k <= done
        ensures Iterated(base, hp, k) <= deadline
      {
        assert IsUnsettledAt(base, hp, deadline, k);
      }
      assert IsFirstBeyond(base, hp, deadline, done + 1);
    }
  }

  lemma {:induction false} SolveIsRead(base: nat, hp: seq<Load>, deadline: uint64, done: nat, rounds: nat)
    requires done + rounds == 1000
    requires forall n: nat :: 1 <= n <= done ==> IsUnsettledAt(base, hp, deadline, n)
    ensures IsRead(base, hp, deadline, Solve(Cap(base), hp, deadline, Cap(Iterated(base, hp, done)), rounds))
    decreases rounds
  {
    hide Iterated, SatDemand, IsFixedAt, IsFirstBeyond, IsUnsettledAt;
    if rounds != 0 {
      RoundIsCapped(base, hp, done);
      RoundIsRead(base, hp, deadline, done);
      var response, next := Cap(Iterated(base, hp, done)), Cap(Iterated(base, hp, done + 1));
      if next != response && next <= deadline {
        SolveIsRead(base, hp, deadline, done + 1, rounds - 1);
      }
    }
  }

  /** The verdict of a task whose interference can be bounded, in terms of the unbounded recurrence
      alone. `Pass` reports the iterate on which it settles. `Fail` reports the first iterate beyond
      the deadline, capped, and by how much it is beyond. `Unknown` means that all 1000 rounds rise
      without passing the deadline. */
  lemma VerdictIsRead(task: TaskTiming, all: seq<TaskTiming>)
    requires IsAnalysable(task, all)
    ensures var base := task.wcet.value + task.blocking;
            var deadline := if task.deadline.Some? then task.deadline.value else task.period.value;
            IsRead(base, Gather(task, all).hp, deadline, VerdictOf(task, all))
  {
    hide Gather, Solve, IsRead;
    SolveIsRead(Base(task), Gather(task, all).hp, EffectiveDeadline(task).value, 0, 1000);
  }

  lemma {:induction false} IteratesMono(base: nat, hp: seq<Load>, m: nat, n: nat)
    requires m <= n
    ensures Iterated(base, hp, m) <= Iterated(base, hp, n)
    decreases n
  {
    if m < n {
      IteratesMono(base, hp, m, n - 1);
      IteratesRise(base, hp, n - 1);
    }
  }

  /** Settled once, settled for good. */
  lemma {:induction false} FixedStays(base: nat, hp: seq<Load>, m: nat, n: nat)
    requires 1 <= m <= n && Cap(Iterated(base, hp, m - 1)) == Cap(Iterated(base, hp, m))
    ensures Cap(Iterated(base, hp, n)) == Cap(Iterated(base, hp, m))
    decreases n
  {
    hide Iterated;
    if m < n {
      FixedStays(base, hp, m, n - 1);
      if m < n - 1 {
        FixedStays(base, hp, m, n - 2);
      }
      RoundIsCapped(base, hp, n - 2);
      RoundIsCapped(base, hp, n - 1);
    }
  }

  /** The reading leaves no choice: a verdict that reads the same iterates is the verdict given. */
  lemma ReadingIsUnique(base: nat, hp: seq<Load>, deadline: uint64, v: Verdict, v': Verdict)
    requires IsRead(base, hp, deadline, v) && IsRead(base, hp, deadline, v')
    ensures v == v'
  {
    hide Iterated;
    if v.Unknown? || v'.Unknown? {
      UnsettledExcludes(base, hp, deadline, if v.Unknown? then v else v', if v.Unknown? then v' else v);
    } else if v.Pass? && v'.Pass? {
      SamePass(base, hp, v.response, v'.response);
    } else if v.Fail? && v'.Fail? {
      SameFail(base, hp, deadline, v.response, v'.response);
    } else {
      var pass, fail := if v.Pass? then v else v', if v.Pass? then v' else v;
      var n: nat :| IsFirstBeyond(base, hp, deadline, n) && fail.response == Cap(Iterated(base, hp, n));
      PassExcludesFail(base, hp, deadline, pass.response, n);
    }
  }

  lemma UnsettledIsNeither(base: nat, hp: seq<Load>, deadline: uint64, r: nat, n: nat)
    ensures IsFixedAt(base, hp, r, n) ==> !IsUnsettledAt(base, hp, deadline, n)
    ensures deadline < Cap(Iterated(base, hp, n)) ==> !IsUnsettledAt(base, hp, deadline, n)
  {}

  lemma UnsettledExcludes(base: nat, hp: seq<Load>, deadline: uint64, unknown: Verdict, v: Verdict)
    requires IsRead(base, hp, deadline, unknown) && IsRead(base, hp, deadline, v) && unknown.Unknown?
    ensures v == unknown
  {
    hide Iterated;
    if v.Pass? {
      var n: nat :| IsFixedAt(base, hp, v.response, n);
      UnsettledIsNeither(base, hp, deadline, v.response, n);
    } else if v.Fail? {
      var n: nat :| IsFirstBeyond(base, hp, deadline, n) && v.response == Cap(Iterated(base, hp, n));
      UnsettledIsNeither(base, hp, deadline, v.response, n);
    }
  }

  lemma SamePass(base: nat, hp: seq<Load>, r: nat, r': nat)
    requires exists n: nat :: IsFixedAt(base, hp, r, n)
    requires exists n: nat :: IsFixedAt(base, hp, r', n)
    ensures r == r'
  {
    hide Iterated;
    var m: nat :| IsFixedAt(base, hp, r, m);
    var n: nat :| IsFixedAt(base, hp, r', n);
    if m <= n {
      FixedStays(base, hp, m, n);
    } else {
      FixedStays(base, hp, n, m);
    }
  }

  lemma SameFail(base: nat, hp: seq<Load>, deadline: nat, r: nat, r': nat)
    requires exists n: nat :: IsFirstBeyond(base, hp, deadline, n) && r == Cap(Iterated(base, hp, n))
    requires exists n: nat :: IsFirstBeyond(base, hp, deadline, n) && r' == Cap(Iterated(base, hp, n))
    ensures r == r'
  {
    hide Iterated;
    var m: nat :| IsFirstBeyond(base, hp, deadline, m) && r == Cap(Iterated(base, hp, m));
    var n: nat :| IsFirstBeyond(base, hp, deadline, n) && r' == Cap(Iterated(base, hp, n));
    assert m == n;
  }

  lemma PassExcludesFail(base: nat, hp: seq<Load>, deadline: uint64, r: nat, n: nat)
    requires r <= deadline && exists m: nat :: IsFixedAt(base, hp, r, m)
    requires 1 <= n <= 1000
    ensures Cap(Iterated(base, hp, n)) <= deadline
  {
    hide Iterated;
    var m: nat :| IsFixedAt(base, hp, r, m);
    if m <= n {
      FixedStays(base, hp, m, n);
    } else {
      IteratesMono(base, hp, n, m);
    }
  }

  // ------------------------------------------------------------------ why a verdict is withheld

  /** The first task in declaration order that is more urgent, has another name, and does not
      declare both a positive period and an execution time. */
  ghost predicate IsFirstUnbounded(task: TaskTiming, all: seq<TaskTiming>, j: nat) {
    j < |all| && IsUnboundedAbove(task, all[j]) && forall i: nat :: i < j ==> !IsUnboundedAbove(task, all[i])
  }

  predicate IsUnboundedAbove(task: TaskTiming, other: TaskTiming) {
    other.name != task.name && task.priority < other.priority &&
    (other.period.None? || other.period == Some(0) || other.wcet.None?)
  }

  lemma {:induction false} BlockedByFirst(task: TaskTiming, all: seq<TaskTiming>)
    ensures Gather(task, all).Loads? <==> forall j: nat :: j < |all| ==> !IsUnboundedAbove(task, all[j])
    ensures forall j: nat :: IsFirstUnbounded(task, all, j) ==>
              Gather(task, all) == Blocked(if all[j].period == Some(0) then ZeroPeriodAbove else UndeclaredAbove)
  {
    if all != [] {
      var n := |all| - 1;
      BlockedByFirst(task, all[..n]);
      forall j: nat | IsFirstUnbounded(task, all, j) && j < n
        ensures IsFirstUnbounded(task, all[..n], j)
      {
        assert forall i: nat :: i < j ==> all[..n][i] == all[i];
      }
      assert Gather(task, all[..n]).Loads? ==> forall j: nat :: j < n ==> !IsUnboundedAbove(task, all[..n][j]);
      assert forall j: nat :: j < n ==> all[..n][j] == all[j];
    }
  }

  lemma {:induction false} FirstUnbounded(task: TaskTiming, all: seq<TaskTiming>, k: nat) returns (j: nat)
    requires k < |all| && IsUnboundedAbove(task, all[k])
    ensures IsFirstUnbounded(task, all, j)
    decreases k
  {
    if i: nat :| i < k && IsUnboundedAbove(task, all[i]) {
      j := FirstUnbounded(task, all, i);
    } else {
      j := k;
    }
  }

  /** Why a verdict is withheld, in the order in which the analyser looks: the task's own figures
      first, then the first task above it that cannot be bounded, then the rounds. */
  lemma ReasonIsFirstGap(task: TaskTiming, all: seq<TaskTiming>)
    ensures var v := VerdictOf(task, all);
            var complete := task.wcet.Some? && task.period.Some?;
            (v == Unknown(NoWcet) <==> task.wcet.None?) &&
            (v == Unknown(NoDeadline) <==> task.wcet.Some? && task.deadline.None? && task.period.None?) &&
            (v == Unknown(NoPeriod) <==> task.wcet.Some? && task.deadline.Some? && task.period.None?) &&
            (v == Unknown(ZeroPeriodAbove) <==>
               complete && exists j: nat :: IsFirstUnbounded(task, all, j) && all[j].period == Some(0)) &&
            (v == Unknown(UndeclaredAbove) <==>
               complete && exists j: nat :: IsFirstUnbounded(task, all, j) && all[j].period != Some(0))
  {
    hide Gather, Solve;
    BlockedByFirst(task, all);
    if k: nat :| k < |all| && IsUnboundedAbove(task, all[k]) {
      var j := FirstUnbounded(task, all, k);
    } else if task.wcet.Some? && task.period.Some? {
      var base := SatAdd(task.wcet.value, task.blocking);
      OnlyNotConverged(base, Gather(task, all).hp, EffectiveDeadline(task).value, base, MAX_ITERATIONS);
    }
  }
}
