/** Laws of the analyser that relate several runs of it, or its two results: the round limit,
    sustainability, independence of task order, and verdicts against utilisation. */
module AnalysisLaws {
  import opened Words
  import opened Recurrence
  import opened ResponseTime

  // ------------------------------------------------------------------ the round limit

  /** A round that does not end the iteration strictly raises the response. */
  lemma RoundRaises(base: uint64, hp: seq<Load>, response: uint64)
    requires response <= SatDemand(base, hp, response)
    ensures SatDemand(base, hp, response) <= SatDemand(base, hp, SatDemand(base, hp, response))
  {
    var next := SatDemand(base, hp, response);
    SatDemandIsCapped(base, hp, response);
    SatDemandIsCapped(base, hp, next);
    DemandMono(base, hp, response, next);
  }

  /** ... and, unless it is the last one, consumes at least one new activation. */
  lemma RoundConsumes(base: uint64, hp: seq<Load>, response: uint64)
    requires var next := SatDemand(base, hp, response); response < next < SatDemand(base, hp, next)
    ensures Activations(hp, response) < Activations(hp, SatDemand(base, hp, response))
  {
    var next := SatDemand(base, hp, response);
    SatDemandIsCapped(base, hp, response);
    SatDemandIsCapped(base, hp, next);
    MoreDemandMoreActivations(base, hp, response, next);
  }

  lemma {:induction false} RoundsConsume(
      base: uint64, hp: seq<Load>, deadline: uint64, response: uint64, rounds: nat)
    requires 0 < rounds && response <= SatDemand(base, hp, response)
    requires Solve(base, hp, deadline, response, rounds).Unknown?
    ensures response < SatDemand(base, hp, response) && response + rounds <= deadline
    ensures Activations(hp, response) + rounds - 1 <= Activations(hp, deadline)
    decreases rounds
  {
    var next := SatDemand(base, hp, response);
    if rounds == 1 {
      MoreDemandMoreActivations(base, hp, response, deadline);
    } else {
      RoundRaises(base, hp, response);
      RoundsConsume(base, hp, deadline, next, rounds - 1);
      RoundConsumes(base, hp, response);
    }
  }

  lemma FirstRoundStarts(base: uint64, hp: seq<Load>)
    ensures base <= SatDemand(base, hp, base) && (base == 0 ==> SatDemand(base, hp, base) == 0)
  {
    SatDemandIsCapped(base, hp, base);
    DemandMono(base, hp, base, base);
    if base == 0 {
      DemandAtZero(0, hp);
    }
  }

  lemma UndecidedNeedsRoom(base: uint64, hp: seq<Load>, deadline: uint64, rounds: nat)
    requires 0 < rounds && Solve(base, hp, deadline, base, rounds).Unknown?
    ensures base + rounds <= deadline && |hp| + rounds - 1 <= Activations(hp, deadline)
  {
    FirstRoundStarts(base, hp);
    RoundsConsume(base, hp, deadline, base, rounds);
    PositiveWindowActivatesAll(hp, base);
  }

  /** Non-convergence is reported only when the deadline leaves room for 1000 rounds of growth
      and at least 999 activations beyond the first of each interferer fit before it. */
  lemma NotConvergedNeedsRoom(task: TaskTiming, all: seq<TaskTiming>)
    requires IsAnalysable(task, all) && VerdictOf(task, all) == Unknown(NotConverged)
    ensures var hp := Gather(task, all).hp;
            var deadline := EffectiveDeadline(task).value;
            Base(task) + 1000 <= deadline && |hp| + 999 <= Activations(hp, deadline)
  {
    var base: uint64 := SatAdd(task.wcet.value, task.blocking);
    UndecidedNeedsRoom(base, Gather(task, all).hp, EffectiveDeadline(task).value, MAX_ITERATIONS);
  }

  /** The bound is tight: beside an interferer that always wants the CPU, a one-tick task is
      undecided exactly when its deadline leaves room for every round. */
  lemma {:induction false} RoomBoundIsTight(deadline: uint64, response: uint64, rounds: nat)
    requires 0 < response <= deadline
    ensures Solve(1, [Load(1, 1)], deadline, response, rounds).Unknown? <==> response + rounds <= deadline
    decreases rounds
  {
    if rounds != 0 {
      var hp := [Load(1, 1)];
      assert Demand(1, hp, response) == Demand(1, hp[..0], response) + Cost(hp[0], response);
      assert Demand(1, hp, response) == 1 + response;
      SatDemandIsCapped(1, hp, response);
      if response < deadline {
        RoomBoundIsTight(deadline, response + 1, rounds - 1);
      }
    }
  }

  /** Two tasks that can be declared, of which the less urgent one is undecided. */
  lemma UndecidedPair(deadline: uint64) returns (low: TaskTiming, high: TaskTiming)
    requires 1000 < deadline
    ensures EffectiveDeadline(low) == Some(deadline) && IsAnalysable(low, [low, high])
    ensures VerdictOf(low, [low, high]) == Unknown(NotConverged)
  {
    low := TaskTiming("low", 1, Some(deadline), None, Some(1), 0);
    high := TaskTiming("high", 2, Some(1), None, Some(1), 0);
    GatherPair(low, high);
    RoomBoundIsTight(deadline, 1, MAX_ITERATIONS);
    OnlyNotConverged(1, [Load(1, 1)], deadline, 1, MAX_ITERATIONS);
  }

  /** The deadlines within which the iteration always settles, so that it "either converges or
      exceeds the deadline" for every task set: exactly those of at most 1000 ticks. */
  lemma AlwaysSettlesIff(deadline: uint64)
    ensures deadline <= 1000 <==>
            forall task: TaskTiming, all: seq<TaskTiming> ::
              task in all && IsAnalysable(task, all) && EffectiveDeadline(task) == Some(deadline) ==>
                !VerdictOf(task, all).Unknown?
  {
    hide VerdictOf, Gather;
    if deadline <= 1000 {
      forall task: TaskTiming, all: seq<TaskTiming> |
        IsAnalysable(task, all) && EffectiveDeadline(task) == Some(deadline)
        ensures !VerdictOf(task, all).Unknown?
      {
        ShortDeadlineSettles(task, all);
      }
    } else {
      var low, high := UndecidedPair(deadline);
      assert low in [low, high];
    }
  }

  lemma ShortDeadlineSettles(task: TaskTiming, all: seq<TaskTiming>)
    requires IsAnalysable(task, all) && EffectiveDeadline(task).value <= 1000
    ensures !VerdictOf(task, all).Unknown?
  {
    hide Gather, Solve;
    var base, hp := SatAdd(task.wcet.value, task.blocking), Gather(task, all).hp;
    if VerdictOf(task, all).Unknown? {
      UndecidedNeedsRoom(base, hp, EffectiveDeadline(task).value, MAX_ITERATIONS);
      SettlesAtZero(hp, EffectiveDeadline(task).value);
    }
  }

  lemma SettlesAtZero(hp: seq<Load>, deadline: uint64)
    ensures Solve(0, hp, deadline, 0, MAX_ITERATIONS).Pass?
  {
    FirstRoundStarts(0, hp);
  }

  /** A task passes when some window by its deadline suffices and too few activations fit before
      the deadline to exhaust the rounds. */
  lemma PassesWhenSuffices(task: TaskTiming, all: seq<TaskTiming>, w: nat)
    requires IsAnalysable(task, all) && w <= EffectiveDeadline(task).value < U64_MAX
    requires Suffices(Base(task), Gather(task, all).hp, w)
    requires Activations(Gather(task, all).hp, EffectiveDeadline(task).value) < |Gather(task, all).hp| + 999
    ensures VerdictOf(task, all).Pass? && VerdictOf(task, all).response <= w
  {
    hide Gather, Solve, Demand, Activations;
    SaturationIsExact(task, all);
    if VerdictOf(task, all).Unknown? {
      NotConvergedNeedsRoom(task, all);
    }
  }

  // ------------------------------------------------------------------ sustainability

  /** Same tasks, each no more demanding: longer periods, shorter execution times. */
  ghost predicate EasedTasks(all: seq<TaskTiming>, all': seq<TaskTiming>) {
    |all| == |all'| && forall k :: 0 <= k < |all| ==> EasedTask(all[k], all'[k])
  }

  ghost predicate EasedTask(t: TaskTiming, t': TaskTiming) {
    t'.name == t.name && t'.priority == t.priority &&
    (t.period.Some? ==> t'.period.Some? && t.period.value <= t'.period.value) &&
    (t.wcet.Some? ==> t'.wcet.Some? && t'.wcet.value <= t.wcet.value)
  }

  lemma {:induction false} GatherEased(task: TaskTiming, all: seq<TaskTiming>, all': seq<TaskTiming>)
    requires EasedTasks(all, all') && Gather(task, all).Loads?
    ensures Gather(task, all').Loads? && Eased(Gather(task, all).hp, Gather(task, all').hp)
  {
    if all != [] {
      var n := |all| - 1;
      assert EasedTask(all[n], all'[n]);
      GatherEased(task, all[..n], all'[..n]);
    }
  }

  /** Whose interference is counted depends on the task's name and priority only. */
  lemma {:induction false} GatherByIdentity(task: TaskTiming, task': TaskTiming, all: seq<TaskTiming>)
    requires task.name == task'.name && task.priority == task'.priority
    ensures Gather(task, all) == Gather(task', all)
  {
    if all != [] {
      GatherByIdentity(task, task', all[..|all| - 1]);
    }
  }

  /** The interferers one task contributes. */
  function Share(task: TaskTiming): TaskTiming -> multiset<Load> {
    other => if Preempts(other, task) && Classify(other).Loads? then multiset(Classify(other).hp) else multiset{}
  }

  /** The contributions of all elements, together. */
  function Pool<T, U>(s: seq<T>, share: T -> multiset<U>): multiset<U> {
    if s == [] then multiset{} else Pool(s[..|s| - 1], share) + share(s[|s| - 1])
  }

  lemma PoolSnoc<T, U>(before: seq<T>, last: T, share: T -> multiset<U>)
    ensures Pool(before + [last], share) == Pool(before, share) + share(last)
  {
    assert (before + [last])[..|before|] == before;
  }

  lemma {:induction false} PoolAround<T, U>(a: seq<T>, x: T, b: seq<T>, share: T -> multiset<U>)
    ensures Pool(a + [x] + b, share) == Pool(a + b, share) + share(x)
  {
    if b == [] {
      assert a + [x] + b == a + [x] && a + b == a;
      PoolSnoc(a, x, share);
    } else {
      var n := |b| - 1;
      PoolAround(a, x, b[..n], share);
      assert a + [x] + b == (a + [x] + b[..n]) + [b[n]] && a + b == (a + b[..n]) + [b[n]];
      PoolSnoc(a + [x] + b[..n], b[n], share);
      PoolSnoc(a + b[..n], b[n], share);
    }
  }

  lemma {:induction false} PoolSubset<T, U>(s: seq<T>, s': seq<T>, share: T -> multiset<U>)
    requires multiset(s') <= multiset(s)
    ensures Pool(s', share) <= Pool(s, share)
    decreases |s'|
  {
    if s' != [] {
      var n := |s'| - 1;
      assert s' == s'[..n] + [s'[n]];
      assert s'[n] in multiset(s);
      var p :| 0 <= p < |s| && s[p] == s'[n];
      assert s == s[..p] + [s[p]] + s[p + 1..];
      PoolAround(s[..p], s[p], s[p + 1..], share);
      WithoutMultiset(s, p);
      PoolSubset(Without(s, p), s'[..n], share);
    }
  }

  ghost predicate AllBounded(task: TaskTiming, all: seq<TaskTiming>) {
    forall t :: t in multiset(all) && Preempts(t, task) ==> Classify(t).Loads?
  }

  /** Gathering without regard to order: it succeeds when every preempting task is bounded, and
      then collects every task's contribution. */
  lemma {:induction false} GatherIsPool(task: TaskTiming, all: seq<TaskTiming>)
    ensures Gather(task, all).Loads? <==> AllBounded(task, all)
    ensures Gather(task, all).Loads? ==> multiset(Gather(task, all).hp) == Pool(all, Share(task))
  {
    if all != [] {
      var init, last := all[..|all| - 1], all[|all| - 1];
      GatherIsPool(task, init);
      assert all == init + [last];
      assert multiset(all) == multiset(init) + multiset{last};
    }
  }

  /** Dropping or reordering tasks drops or reorders interferers. */
  lemma GatherSubset(task: TaskTiming, all: seq<TaskTiming>, all': seq<TaskTiming>)
    requires multiset(all') <= multiset(all) && Gather(task, all).Loads?
    ensures Gather(task, all').Loads?
    ensures multiset(Gather(task, all').hp) <= multiset(Gather(task, all).hp)
  {
    GatherIsPool(task, all);
    GatherIsPool(task, all');
    PoolSubset(all, all', Share(task));
  }

  /** The whole change: some tasks removed or reordered (`all` to `kept`), then every remaining
      task eased (`kept` to `all'`), and the analysed task itself eased. */
  ghost predicate IsRelaxation(task: TaskTiming, all: seq<TaskTiming>, kept: seq<TaskTiming>,
                               task': TaskTiming, all': seq<TaskTiming>) {
    multiset(kept) <= multiset(all) && EasedTasks(kept, all') &&
    EasedTask(task, task') && task'.blocking <= task.blocking &&
    (EffectiveDeadline(task).Some? ==>
       EffectiveDeadline(task').Some? && EffectiveDeadline(task).value <= EffectiveDeadline(task').value)
  }

  /** Sustainability: no relaxation turns a `Pass` into a `Fail`, and the response of a task
      that still passes has not grown. */
  lemma PassIsSustainable(task: TaskTiming, all: seq<TaskTiming>, kept: seq<TaskTiming>,
                          task': TaskTiming, all': seq<TaskTiming>)
    requires VerdictOf(task, all).Pass? && EffectiveDeadline(task).value < U64_MAX
    requires IsRelaxation(task, all, kept, task', all')
    ensures var v := VerdictOf(task', all');
            !v.Fail? && (v.Pass? ==> v.response <= VerdictOf(task, all).response)
  {
    var r := VerdictOf(task, all).response;
    PassIsAnalysable(task, all);
    SaturationIsExact(task, all);
    GatherSubset(task, all, kept);
    GatherEased(task, kept, all');
    GatherByIdentity(task, task', all');
    DemandSubset(Base(task), Gather(task, all).hp, Gather(task, kept).hp, r);
    EasedDemand(Base(task), Base(task'), Gather(task, kept).hp, Gather(task', all').hp, r);
    VerdictDecides(task', all');
    assert Suffices(Base(task'), Gather(task', all').hp, r);
  }

  /** Within 1000 ticks a relaxation keeps the `Pass`; beyond, the rounds may run out. */
  lemma ShortPassStays(task: TaskTiming, all: seq<TaskTiming>, kept: seq<TaskTiming>,
                       task': TaskTiming, all': seq<TaskTiming>)
    requires VerdictOf(task, all).Pass? && IsRelaxation(task, all, kept, task', all')
    requires EffectiveDeadline(task').Some? && EffectiveDeadline(task').value <= 1000
    ensures VerdictOf(task', all').Pass? && VerdictOf(task', all').response <= VerdictOf(task, all).response
  {
    hide Gather, Solve;
    PassIsAnalysable(task, all);
    PassIsSustainable(task, all, kept, task', all');
    GatherSubset(task, all, kept);
    GatherEased(task, kept, all');
    GatherByIdentity(task, task', all');
    ShortDeadlineSettles(task', all');
  }

  lemma PassIsAnalysable(task: TaskTiming, all: seq<TaskTiming>)
    requires !VerdictOf(task, all).Unknown?
    ensures IsAnalysable(task, all)
  {}

  /** The decided verdict is a function of the interferers as a multiset. */
  lemma {:induction false} SolveByMultiset(
      base: uint64, hp: seq<Load>, hp': seq<Load>, deadline: uint64, response: uint64, rounds: nat)
    requires multiset(hp) == multiset(hp')
    ensures Solve(base, hp, deadline, response, rounds) == Solve(base, hp', deadline, response, rounds)
    decreases rounds
  {
    if rounds != 0 {
      DemandSubset(base, hp, hp', response);
      DemandSubset(base, hp', hp, response);
      SatDemandIsCapped(base, hp, response);
      SatDemandIsCapped(base, hp', response);
      SolveByMultiset(base, hp, hp', deadline, SatDemand(base, hp, response), rounds - 1);
    }
  }

  /** The verdict depends on the task's own figures and on the multiset of interfering
      (period, WCET) pairs, and on nothing else in the task set. */
  lemma VerdictByInterferers(task: TaskTiming, all: seq<TaskTiming>, task': TaskTiming, all': seq<TaskTiming>)
    requires task.period.Some? <==> task'.period.Some?
    requires task.wcet == task'.wcet && task.blocking == task'.blocking
    requires EffectiveDeadline(task) == EffectiveDeadline(task')
    requires Gather(task, all).Loads? && Gather(task', all').Loads?
    requires multiset(Gather(task, all).hp) == multiset(Gather(task', all').hp)
    ensures VerdictOf(task, all) == VerdictOf(task', all')
  {
    if IsAnalysable(task, all) {
      var hp, hp' := Gather(task, all).hp, Gather(task', all').hp;
      var base: uint64 := SatAdd(task.wcet.value, task.blocking);
      SolveByMultiset(base, hp, hp', EffectiveDeadline(task).value, base, MAX_ITERATIONS);
    }
  }

  /** Declaration order does not matter to a task whose interference can be bounded. */
  lemma VerdictIgnoresOrder(task: TaskTiming, all: seq<TaskTiming>, all': seq<TaskTiming>)
    requires multiset(all) == multiset(all') && Gather(task, all).Loads?
    ensures VerdictOf(task, all) == VerdictOf(task, all')
  {
    GatherSubset(task, all, all');
    GatherSubset(task, all', all);
    VerdictByInterferers(task, all, task, all');
  }

  // ------------------------------------------------------------------ verdicts against utilisation

  /** One task's share of the CPU in parts per million, as the report rounds it. */
  function Ppm(period: positive, wcet: nat): nat {
    SatMul(wcet, 1_000_000) / period
  }

  /** Over a window of `r` ticks a task's reported share never exceeds what it is charged. */
  lemma PpmIsCharged(r: nat, load: Load)
    ensures r * Ppm(load.period, load.wcet) <= 1_000_000 * Cost(load, r)
  {
    var n := DivCeil(r, load.period);
    var share := Ppm(load.period, load.wcet);
    DivCeilBounds(r, load.period);
    assert share * load.period <= 1_000_000 * load.wcet;
    ProductMono(r, n * load.period, share, share);
    ProductMono(n, n, share * load.period, 1_000_000 * load.wcet);
    assert (n * load.period) * share == n * (share * load.period);
    assert n * (1_000_000 * load.wcet) == 1_000_000 * (n * load.wcet);
  }

  ghost predicate IsDistinct(tasks: seq<TaskTiming>) {
    forall j, k :: 0 <= j < k < |tasks| ==>
      tasks[j].name != tasks[k].name && tasks[j].priority != tasks[k].priority
  }

  /** Every task passes, and its figures are such that a pass can be trusted. */
  ghost predicate PassesSoundly(task: TaskTiming, tasks: seq<TaskTiming>) {
    VerdictOf(task, tasks).Pass? && task.period.Some? && 0 < task.period.value &&
    EffectiveDeadline(task).value <= task.period.value && EffectiveDeadline(task).value < U64_MAX
  }

  /** The least urgent task that uses the CPU at all, if there is one. */
  lemma {:induction false} LeastUrgentBusy(tasks: seq<TaskTiming>) returns (least: Option<nat>)
    requires forall t :: t in tasks ==> t.wcet.Some?
    ensures match least
            case None => forall k :: 0 <= k < |tasks| ==> tasks[k].wcet.value == 0
            case Some(i) =>
              i < |tasks| && 0 < tasks[i].wcet.value &&
              forall k :: 0 <= k < |tasks| && tasks[k].wcet.value != 0 ==> tasks[i].priority <= tasks[k].priority
  {
    least := None;
    if tasks != [] {
      var n := |tasks| - 1;
      least := LeastUrgentBusy(tasks[..n]);
      if tasks[n].wcet.value != 0 &&
         (least.None? || tasks[n].priority < tasks[least.value].priority) {
        least := Some(n);
      }
    }
  }

  lemma ChargeStep(r: nat, before: nat, load: Load, charged: nat)
    requires r * before <= 1_000_000 * charged
    ensures r * SatAdd(before, Ppm(load.period, load.wcet)) <= 1_000_000 * (charged + Cost(load, r))
  {
    var share := Ppm(load.period, load.wcet);
    PpmIsCharged(r, load);
    ProductMono(r, r, SatAdd(before, share), before + share);
    assert r * (before + share) == r * before + r * share;
  }

  /** How one more declared task changes the reported sum and the charge to `task`. */
  lemma AddTask(task: TaskTiming, before: seq<TaskTiming>, last: TaskTiming, r: nat)
    requires last.wcet.Some? && last.period.Some? && 0 < last.period.value
    requires Gather(task, before).Loads?
    ensures var load := Load(last.period.value, last.wcet.value);
            var g := Gather(task, before + [last]);
            g.Loads? &&
            Utilisation(before + [last]) == SatAdd(Utilisation(before), Ppm(load.period, load.wcet)) &&
            Demand(0, g.hp, r)
            == Demand(0, Gather(task, before).hp, r) + if Preempts(last, task) then Cost(load, r) else 0
  {
    var load := Load(last.period.value, last.wcet.value);
    var hp := Gather(task, before).hp;
    assert (before + [last])[..|before|] == before;
    assert (hp + [load])[..|hp|] == hp;
  }

  /** What task `i` itself is charged once it is among the first tasks. */
  function Own(tasks: seq<TaskTiming>, i: nat, k: nat): nat
    requires i < |tasks| && tasks[i].wcet.Some?
  {
    if i < k then tasks[i].wcet.value else 0
  }

  /** A task is charged as an interferer, as the task itself, or costs nothing. */
  lemma OwnStep(tasks: seq<TaskTiming>, i: nat, r: nat, j: nat)
    requires i < |tasks| && j < |tasks| && IsDistinct(tasks)
    requires tasks[i].wcet.Some? && tasks[j].wcet.Some? && tasks[j].period.Some? && 0 < tasks[j].period.value
    requires tasks[j].wcet.value != 0 ==> tasks[i].priority <= tasks[j].priority
    requires 0 < r && (i == j ==> r <= tasks[j].period.value)
    ensures Own(tasks, i, j) + Cost(Load(tasks[j].period.value, tasks[j].wcet.value), r)
         == Own(tasks, i, j + 1)
          + if Preempts(tasks[j], tasks[i]) then Cost(Load(tasks[j].period.value, tasks[j].wcet.value), r) else 0
  {
    if i == j {
      DivCeilUnique(r, tasks[j].period.value, 1);
    } else {
      assert tasks[i].name != tasks[j].name && tasks[i].priority != tasks[j].priority;
    }
  }

  /** Within the response time of the least urgent busy task, the reported utilisation of the
      first `k` tasks is covered by what the recurrence charges for them. */
  lemma {:induction false} UtilisationIsCharged(tasks: seq<TaskTiming>, i: nat, r: nat, k: nat)
    requires IsDistinct(tasks) && i < |tasks| && k <= |tasks|
    requires forall t :: t in tasks ==> t.wcet.Some? && t.period.Some? && 0 < t.period.value
    requires forall j :: 0 <= j < |tasks| && tasks[j].wcet.value != 0 ==> tasks[i].priority <= tasks[j].priority
    requires 0 < r <= tasks[i].period.value
    requires Gather(tasks[i], tasks).Loads?
    ensures Gather(tasks[i], tasks[..k]).Loads?
    ensures r * Utilisation(tasks[..k])
         <= 1_000_000 * (Demand(0, Gather(tasks[i], tasks[..k]).hp, r) + Own(tasks, i, k))
    decreases k
  {
    hide Preempts, Cost, Ppm, Classify;
    if Gather(tasks[i], tasks[..k]).Blocked? {
      GatherStops(tasks[i], tasks, k);
    }
    if k != 0 {
      var j := k - 1;
      var last := tasks[j];
      UtilisationIsCharged(tasks, i, r, j);
      assert tasks[..k] == tasks[..j] + [last];
      AddTask(tasks[i], tasks[..j], last, r);
      var charged := Demand(0, Gather(tasks[i], tasks[..j]).hp, r) + Own(tasks, i, j);
      var load := Load(last.period.value, last.wcet.value);
      ChargeStep(r, Utilisation(tasks[..j]), load, charged);
      OwnStep(tasks, i, r, j);
    }
  }

  /** The two halves of the report agree: a task set reported schedulable is never reported as
      using more than the whole CPU. */
  lemma SchedulableFitsTheCpu(tasks: seq<TaskTiming>)
    requires IsDistinct(tasks) && forall t :: t in tasks ==> PassesSoundly(t, tasks)
    ensures Utilisation(tasks) <= 1_000_000
  {
    hide Gather, Solve, Demand, Utilisation, IsLowerBound;
    forall t | t in tasks
      ensures t.wcet.Some?
    {
      assert PassesSoundly(t, tasks);
    }
    var least := LeastUrgentBusy(tasks);
    if least.None? {
      IdleUsesNothing(tasks);
    } else {
      var i := least.value;
      var task := tasks[i];
      assert PassesSoundly(task, tasks);
      var r := VerdictOf(task, tasks).response;
      var hp := Gather(task, tasks).hp;
      SaturationIsExact(task, tasks);
      DemandBase(Base(task), hp, r);
      UtilisationIsCharged(tasks, i, r, |tasks|);
      assert tasks[..|tasks|] == tasks;
      CancelFactor(Utilisation(tasks), 1_000_000, r);
    }
  }

  /** Tasks that share a level are not charged for each other, so without distinct priorities the
      halves can disagree: any number of ticks `n` that each of two tasks needs in full is passed twice. */
  lemma SharedLevelOverloads(a: TaskTiming, b: TaskTiming, n: uint64)
    requires a.name != b.name && a.priority == b.priority && 0 < n && n * 1_000_000 <= U64_MAX
    requires forall t :: t in [a, b] ==>
               t.period == Some(n) && t.wcet == Some(n) && EffectiveDeadline(t) == Some(n) && t.blocking == 0
    ensures VerdictOf(a, [a, b]) == Pass(n, 0) && VerdictOf(b, [a, b]) == Pass(n, 0)
    ensures Utilisation([a, b]) == 2_000_000
  {
    assert a in [a, b] && b in [a, b];
    assert [a, b][..1] == [a] && [a][..0] == [];
    assert Gather(a, [a]) == Loads([]) && Gather(b, [a]) == Loads([]);
    DivModUnique(n * 1_000_000, n, 1_000_000, 0);
    assert Utilisation([a]) == 1_000_000;
  }

  lemma {:induction false} IdleUsesNothing(tasks: seq<TaskTiming>)
    requires forall t :: t in tasks ==> t.wcet == Some(0) && t.period.Some? && 0 < t.period.value
    ensures Utilisation(tasks) == 0
  {
    if tasks != [] {
      IdleUsesNothing(tasks[..|tasks| - 1]);
    }
  }

  // ------------------------------------------------------------------ the saturation hypothesis

  /** A task that fills the whole 64-bit range beside any interferer is passed with a response
      that does not suffice: the saturated iterate equals the deadline `U64_MAX`. */
  lemma SaturatedPass() returns (task: TaskTiming, all: seq<TaskTiming>)
    ensures task in all && EffectiveDeadline(task) == Some(U64_MAX) && VerdictOf(task, all) == Pass(U64_MAX, 0)
    ensures !Suffices(Base(task), Gather(task, all).hp, U64_MAX)
  {
    task := TaskTiming("low", 1, Some(U64_MAX), None, Some(U64_MAX), 0);
    var high := TaskTiming("high", 2, Some(U64_MAX), None, Some(1), 0);
    all := [task, high];
    var hp := [Load(U64_MAX, 1)];
    GatherPair(task, high);
    DemandOne(U64_MAX, hp[0], U64_MAX);
    DivCeilUnique(U64_MAX, U64_MAX, 1);
    SatDemandIsCapped(U64_MAX, hp, U64_MAX);
  }

  /** Deadlines for which every `Pass` reports a window that really suffices: exactly those below
      the largest representable one. */
  lemma DeadlineBelowMaxIsNeeded(deadline: uint64)
    ensures deadline < U64_MAX <==>
            forall task: TaskTiming, all: seq<TaskTiming> ::
              task in all && VerdictOf(task, all).Pass? && EffectiveDeadline(task) == Some(deadline) ==>
                Suffices(Base(task), Gather(task, all).hp, VerdictOf(task, all).response)
  {
    hide Solve, Gather;
    if deadline < U64_MAX {
      forall task: TaskTiming, all: seq<TaskTiming> |
        VerdictOf(task, all).Pass? && EffectiveDeadline(task) == Some(deadline)
        ensures Suffices(Base(task), Gather(task, all).hp, VerdictOf(task, all).response)
      {
        SaturationIsExact(task, all);
      }
    } else {
      var task, all := SaturatedPass();
    }
  }
}
