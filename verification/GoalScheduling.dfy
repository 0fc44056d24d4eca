/** Whole runs of the planner: executing ready goals, propagating each outcome. */
module GoalScheduling {
  import opened Sequences
  import opened Digraph
  import opened GoalStore

  // ----- Runs that mix scheduling with creation and deletion -----

  /** One turn of the caller's loop: execute a goal and propagate its outcome. */
  function Turn(s: Store, g: GoalId, succeeds: bool): Store {
    var t := Execute(s, g, succeeds);
    if succeeds then PropagateCompletion(t, g) else PropagateFailure(t, g)
  }

  datatype Act =
    | RunGoal(g: GoalId, succeeds: bool)
    | Edit(op: Op)

  /** Only ready goals are run; edits create, delete or unlink, and add no dependency. */
  predicate Disciplined(s: Store, a: Act) {
    match a
    case RunGoal(g, _) => g in Ready(s)
    case Edit(op) => (op.CreateOp? || op.DeleteOp? || op.RemoveOp?) && Enabled(s, op)
  }

  ghost function Perform(s: Store, a: Act): Store {
    match a
    case RunGoal(g, ok) => Turn(s, g, ok)
    case Edit(op) => Apply(s, op)
  }

  ghost predicate DisciplinedRun(s: Store, acts: seq<Act>)
    decreases |acts|
  {
    acts == [] || (Disciplined(s, acts[0]) && DisciplinedRun(Perform(s, acts[0]), acts[1..]))
  }

  ghost function PerformAll(s: Store, acts: seq<Act>): Store
    decreases |acts|
  {
    if acts == [] then s else PerformAll(Perform(s, acts[0]), acts[1..])
  }

  /** Every completed goal has all its existing dependencies completed. */
  predicate Settled(s: Store) {
    forall e :: e in LiveDeps(s) && s.goals[e.0].status == Completed ==> s.goals[e.1].status == Completed
  }

  lemma ActKeepsSettled(s: Store, a: Act)
    requires Settled(s) && Disciplined(s, a)
    ensures Settled(Perform(s, a))
  {
    var t := Perform(s, a);
    forall e | e in LiveDeps(t) && t.goals[e.0].status == Completed
      ensures t.goals[e.1].status == Completed {
      assert e in s.deps;
      if a.Edit? && a.op.CreateOp? && t != s {
        assert e.0 in s.goals && e.1 in s.goals;
      }
      assert e in LiveDeps(s);
    }
  }

  lemma {:induction false} RunKeepsSettled(s: Store, acts: seq<Act>)
    requires Settled(s) && DisciplinedRun(s, acts)
    ensures Settled(PerformAll(s, acts))
    decreases |acts|
  {
    if acts == [] {
    } else {
      ActKeepsSettled(s, acts[0]);
      RunKeepsSettled(Perform(s, acts[0]), acts[1..]);
    }
  }

  /** In such runs propagate_failure demotes no completed goal, and leaves none of the
      failed goal's dependents ready. */
  lemma FailureDemotesNothing(s: Store, g: GoalId)
    requires Settled(s) && g in Ready(s)
    ensures forall x :: x in NewlyBlocked(Execute(s, g, false), g) ==> s.goals[x].status != Completed
    ensures Dependents(s, g) !! Ready(Turn(s, g, false))
    ensures WithStatus(s, Completed) == WithStatus(Turn(s, g, false), Completed)
  {
    var t := Execute(s, g, false);
    forall x | x in Dependents(s, g) ensures s.goals[x].status != Completed {
      assert (x, g) in LiveDeps(s);
    }
    assert Dependents(t, g) == Dependents(s, g);
  }

  /** Whether a completed goal can be demoted depends on that discipline alone:
      propagate_failure demotes one exactly when some dependent is completed. */
  lemma FailureDemotesExactlyWhen(s: Store, g: GoalId)
    ensures WithStatus(PropagateFailure(s, g), Completed) != WithStatus(s, Completed)
       <==> exists x :: x in Dependents(s, g) && s.goals[x].status == Completed
  {
    var t := PropagateFailure(s, g);
    if x :| x in Dependents(s, g) && s.goals[x].status == Completed {
      assert x in NewlyBlocked(s, g) && x in t.goals && t.goals[x].status == Blocked;
      assert x in WithStatus(s, Completed) && x !in WithStatus(t, Completed);
    } else {
      assert WithStatus(t, Completed) == WithStatus(s, Completed);
    }
  }

  /** What propagate_failure does to each status: direct dependents that have not failed
      become blocked, and nothing else changes. */
  lemma FailureStatuses(s: Store, g: GoalId)
    ensures var t := PropagateFailure(s, g);
      && t.goals.Keys == s.goals.Keys && t.deps == s.deps && t.foreignKeys == s.foreignKeys
      && forall x :: x in s.goals ==>
           t.goals[x] == if (x, g) in s.deps && s.goals[x].status != Failed then s.goals[x].(status := Blocked)
                         else s.goals[x]
  {
    assert PropagateFailure(s, g).goals.Keys == s.goals.Keys;
    assert forall x :: x in s.goals ==> (x in Dependents(s, g) <==> (x, g) in s.deps);
  }

  /** What propagate_completion does to each status: a direct dependent that was blocked
      becomes pending exactly when none of its existing dependencies is uncompleted, and
      nothing else changes. */
  lemma CompletionStatuses(s: Store, g: GoalId)
    ensures var t := PropagateCompletion(s, g);
      && t.goals.Keys == s.goals.Keys && t.deps == s.deps && t.foreignKeys == s.foreignKeys
      && (forall x :: x in s.goals && (x, g) in s.deps && s.goals[x].status == Blocked ==>
            if exists d :: d in s.goals && (x, d) in s.deps && s.goals[d].status != Completed
            then t.goals[x] == s.goals[x] else t.goals[x] == s.goals[x].(status := Pending))
      && (forall x :: x in s.goals && ((x, g) !in s.deps || s.goals[x].status != Blocked) ==>
            t.goals[x] == s.goals[x])
  {
    var t := PropagateCompletion(s, g);
    assert t.goals.Keys == s.goals.Keys;
    forall x | x in s.goals && (x, g) in s.deps && s.goals[x].status == Blocked
      ensures if exists d :: d in s.goals && (x, d) in s.deps && s.goals[d].status != Completed
              then t.goals[x] == s.goals[x] else t.goals[x] == s.goals[x].(status := Pending) {
      assert x in Dependents(s, g);
      if d :| d in s.goals && (x, d) in s.deps && s.goals[d].status != Completed {
        assert !AllMet(s, x);
      } else {
        assert AllMet(s, x);
      }
    }
    forall x | x in s.goals && ((x, g) !in s.deps || s.goals[x].status != Blocked)
      ensures t.goals[x] == s.goals[x] {
      assert x in NewlyReady(s, g) ==> s.goals[x].status == Pending;
    }
  }

  /** propagate_completion returns exactly the dependents that are ready afterwards. */
  lemma CompletionReturnsTheReady(s: Store, g: GoalId)
    ensures NewlyReady(s, g) == Dependents(s, g) * Ready(PropagateCompletion(s, g))
  {
    var t := PropagateCompletion(s, g);
    forall x | x in Dependents(s, g) ensures AllMet(s, x) <==> AllMet(t, x) {
      forall e | e in s.deps && e.0 == x && e.1 in s.goals
        ensures s.goals[e.1].status == Completed <==> t.goals[e.1].status == Completed {
      }
    }
  }

  // ----- Schedules: any order of ready goals, with a given executor -----

  type Executor = GoalId -> bool

  ghost predicate Schedule(s: Store, sched: seq<GoalId>, ok: Executor)
    decreases |sched|
  {
    sched == [] || (sched[0] in Ready(s) && Schedule(Turn(s, sched[0], ok(sched[0])), sched[1..], ok))
  }

  ghost function After(s: Store, sched: seq<GoalId>, ok: Executor): Store
    decreases |sched|
  {
    if sched == [] then s else After(Turn(s, sched[0], ok(sched[0])), sched[1..], ok)
  }

  predicate Attempted(status: Status) { status == Completed || status == Failed }

  ghost predicate FailedBelow(s: Store, g: GoalId) {
    exists e :: e in LiveDeps(s) && e.0 == g && s.goals[e.1].status == Failed
  }

  /** What every schedule keeps: a goal is blocked exactly when an existing dependency failed,
      and a failed goal depends on completed goals, of which some may have been demoted. */
  ghost predicate Coherent(s: Store) {
    && (forall g :: g in s.goals ==> (s.goals[g].status == Blocked <==> FailedBelow(s, g)))
    && (forall e :: e in LiveDeps(s) && s.goals[e.0].status == Failed ==>
          s.goals[e.1].status == Completed || s.goals[e.1].status == Blocked)
    && (forall g :: g in s.goals ==> s.goals[g].status != Active)
  }

  /** What schedules keep that start settled: nothing completed has been demoted, so attempted
      goals have all dependencies completed. */
  ghost predicate Orderly(s: Store) {
    && Coherent(s)
    && forall e :: e in LiveDeps(s) && Attempted(s.goals[e.0].status) ==> s.goals[e.1].status == Completed
  }

  /** Where a scheduling loop starts: nothing but pending and completed goals. */
  predicate Untried(s: Store) {
    forall g :: g in s.goals ==> s.goals[g].status == Pending || s.goals[g].status == Completed
  }

  function TurnStatus(s: Store, g: GoalId, ok: bool, x: GoalId): Status
    requires x in s.goals
  {
    if x == g then if ok then Completed else Failed
    else if !ok && (x, g) in s.deps then Blocked
    else s.goals[x].status
  }

  lemma UntriedIsCoherent(s: Store)
    requires Untried(s)
    ensures Coherent(s) && (Settled(s) <==> Orderly(s))
  {
  }

  lemma DependentOfReady(s: Store, g: GoalId, x: GoalId)
    requires Coherent(s) && g in Ready(s) && x in Dependents(s, g)
    ensures x != g && s.goals[x].status != Failed
    ensures s.goals[x].status == Blocked ==> !AllMet(Execute(s, g, true), x)
  {
    assert (x, g) in LiveDeps(s);
    if s.goals[x].status == Blocked {
      var e :| e in LiveDeps(s) && e.0 == x && s.goals[e.1].status == Failed;
      assert Execute(s, g, true).goals[e.1].status == Failed;
    }
  }

  /** t differs from s in nothing but statuses. */
  ghost predicate SameRows(s: Store, t: Store) {
    && t.deps == s.deps && t.foreignKeys == s.foreignKeys && t.goals.Keys == s.goals.Keys
    && forall g :: g in s.goals ==> t.goals[g] == s.goals[g].(status := t.goals[g].status)
  }

  lemma SameLiveDeps(s: Store, t: Store)
    requires t.deps == s.deps && t.goals.Keys == s.goals.Keys
    ensures LiveDeps(t) == LiveDeps(s)
  {
  }

  /** t is s after g ran with the given outcome. */
  ghost predicate TurnOf(s: Store, t: Store, g: GoalId, ok: bool) {
    && SameRows(s, t)
    && forall x :: x in s.goals ==> t.goals[x].status == TurnStatus(s, g, ok, x)
  }

  lemma TurnRow(s: Store, g: GoalId, ok: bool, x: GoalId)
    requires Coherent(s) && g in Ready(s) && x in s.goals
    ensures x in Turn(s, g, ok).goals
    ensures Turn(s, g, ok).goals[x] == s.goals[x].(status := TurnStatus(s, g, ok, x))
  {
    var t0 := Execute(s, g, ok);
    assert Dependents(t0, g) == Dependents(s, g);
    if x in Dependents(s, g) {
      DependentOfReady(s, g, x);
      assert t0.goals[x] == s.goals[x];
    } else {
      assert x !in NewlyBlocked(t0, g) && x !in NewlyReady(t0, g);
    }
  }

  lemma TurnFrame(s: Store, g: GoalId, ok: bool)
    ensures var t := Turn(s, g, ok);
      t.deps == s.deps && t.foreignKeys == s.foreignKeys && t.goals.Keys == s.goals.Keys
  {
    assert Turn(s, g, ok).goals.Keys == s.goals.Keys;
  }

  /** A turn changes the goal it runs and, after a failure, blocks its dependents;
      propagate_completion finds nothing left to unblock. */
  lemma TurnStatuses(s: Store, g: GoalId, ok: bool)
    requires Coherent(s) && g in Ready(s)
    ensures TurnOf(s, Turn(s, g, ok), g, ok)
  {
    forall x | x in s.goals
      ensures x in Turn(s, g, ok).goals
      ensures Turn(s, g, ok).goals[x] == s.goals[x].(status := TurnStatus(s, g, ok, x)) {
      TurnRow(s, g, ok, x);
    }
    TurnFrame(s, g, ok);
    hide Turn, Coherent, Ready, TurnStatus;
  }

  lemma FailedBlocks(s: Store, g: GoalId, x: GoalId)
    requires Coherent(s) && g in s.goals && s.goals[g].status == Failed && x in s.goals
    ensures (x, g) in s.deps ==> s.goals[x].status == Blocked && x != g
  {
    assert (x, g) in s.deps ==> (x, g) in LiveDeps(s);
  }

  /** Recovery: a failed goal that is executed again, and succeeds, frees exactly the
      dependents that have no other uncompleted dependency; all of them were blocked, the
      others stay so, and nothing else changes. */
  lemma RecoveryFrees(s: Store, g: GoalId, x: GoalId)
    requires Coherent(s) && g in s.goals && s.goals[g].status == Failed && x in s.goals
    ensures x in Turn(s, g, true).goals
    ensures (x, g) in s.deps ==> s.goals[x].status == Blocked
    ensures Turn(s, g, true).goals[x].status ==
      if x == g then Completed
      else if (x, g) !in s.deps then s.goals[x].status
      else if exists d :: d in s.goals && d != g && (x, d) in s.deps && s.goals[d].status != Completed then Blocked
      else Pending
  {
    var t := Execute(s, g, true);
    FailedBlocks(s, g, x);
    CompletionStatuses(t, g);
    assert t.deps == s.deps && t.goals.Keys == s.goals.Keys;
    assert forall d :: d in s.goals ==> t.goals[d].status == if d == g then Completed else s.goals[d].status;
    hide Marked, NewlyReady, PropagateCompletion, Coherent, LiveDeps;
    if x != g && (x, g) in s.deps {
      if d :| d in s.goals && d != g && (x, d) in s.deps && s.goals[d].status != Completed {
        assert t.goals[d].status != Completed;
      }
    }
  }

  /** Nothing failed depends on a goal that is still pending. */
  lemma FailedNotDependent(s: Store, g: GoalId, x: GoalId)
    requires Coherent(s) && g in s.goals && s.goals[g].status == Pending
    requires x in s.goals && s.goals[x].status == Failed
    ensures (x, g) !in s.deps
  {
    assert (x, g) in s.deps ==> (x, g) in LiveDeps(s);
  }

  /** What a failed goal depends on after a turn. */
  lemma BelowFailedAfterTurn(s: Store, t: Store, g: GoalId, ok: bool, e: (GoalId, GoalId))
    requires Coherent(s) && g in Ready(s) && TurnOf(s, t, g, ok)
    requires e in LiveDeps(t) && t.goals[e.0].status == Failed
    ensures t.goals[e.1].status == Completed || t.goals[e.1].status == Blocked
  {
    SameLiveDeps(s, t);
    if e.0 == g {
      assert s.goals[e.1].status == Completed;
    } else {
      FailedNotDependent(s, g, e.0);
    }
  }

  lemma BlockedAfterTurn(s: Store, t: Store, g: GoalId, ok: bool, x: GoalId)
    requires Coherent(s) && g in Ready(s) && TurnOf(s, t, g, ok) && x in s.goals
    ensures t.goals[x].status == Blocked <==> FailedBelow(t, x)
  {
    SameLiveDeps(s, t);
    if t.goals[x].status == Blocked {
      if !ok && (x, g) in s.deps {
        assert (x, g) in LiveDeps(t) && t.goals[g].status == Failed;
      } else {
        var e :| e in LiveDeps(s) && e.0 == x && s.goals[e.1].status == Failed;
        FailedNotDependent(s, g, e.1);
        assert t.goals[e.1].status == Failed;
      }
    }
    forall e | e in LiveDeps(t) && e.0 == x && t.goals[e.1].status == Failed
      ensures t.goals[x].status == Blocked {
      if e.1 == g {
        assert x in Dependents(s, g);
        DependentOfReady(s, g, x);
      } else {
        assert s.goals[e.1].status == Failed;
        assert s.goals[x].status == Blocked;
      }
    }
  }

  lemma TurnKeepsCoherent(s: Store, t: Store, g: GoalId, ok: bool)
    requires Coherent(s) && g in Ready(s) && TurnOf(s, t, g, ok)
    ensures Coherent(t)
  {
    assert forall x :: x in t.goals ==> t.goals[x].status != Active;
    assert t.goals.Keys == s.goals.Keys;
    hide TurnOf, Ready, FailedBelow;
    forall x | x in t.goals ensures t.goals[x].status == Blocked <==> FailedBelow(t, x) {
      BlockedAfterTurn(s, t, g, ok, x);
    }
    forall e | e in LiveDeps(t) && t.goals[e.0].status == Failed
      ensures t.goals[e.1].status == Completed || t.goals[e.1].status == Blocked {
      BelowFailedAfterTurn(s, t, g, ok, e);
    }
  }

  lemma TurnKeepsOrderly(s: Store, t: Store, g: GoalId, ok: bool)
    requires Orderly(s) && g in Ready(s) && TurnOf(s, t, g, ok)
    ensures Orderly(t)
  {
    TurnKeepsCoherent(s, t, g, ok);
    SameLiveDeps(s, t);
    hide Coherent;
    forall e | e in LiveDeps(t) && Attempted(t.goals[e.0].status) ensures t.goals[e.1].status == Completed {
      assert s.goals[e.1].status == Completed;
      assert (e.1, g) in s.deps ==> (e.1, g) in LiveDeps(s);
    }
  }

  /** What becomes of a goal that is not executed. */
  predicate Waited(before: Status, after: Status) {
    after == before || (after == Blocked && (before == Pending || before == Completed))
  }

  /** How a schedule with executor ok leaves the statuses.  What an executed goal depends on
      was completed from the start, or is completed at the end. */
  ghost predicate Outcome(s: Store, t: Store, sched: seq<GoalId>, ok: Executor) {
    && SameRows(s, t)
    && (forall g :: g in sched ==> g in s.goals && s.goals[g].status == Pending)
    && (forall g :: g in s.goals ==>
          if g in sched then t.goals[g].status == (if ok(g) then Completed else Failed)
          else Waited(s.goals[g].status, t.goals[g].status))
    && (forall e :: e in LiveDeps(s) && e.0 in sched ==>
          s.goals[e.1].status == Completed || t.goals[e.1].status == Completed)
  }

  lemma OutcomeNil(s: Store, ok: Executor)
    ensures Outcome(s, s, [], ok)
  {
  }

  /** A goal that was executed first stays as it was left: its dependencies were completed,
      so none of them can fail later. */
  lemma FirstStays(s: Store, t: Store, u: Store, sched: seq<GoalId>, ok: Executor)
    requires sched != [] && sched[0] in Ready(s) && TurnOf(s, t, sched[0], ok(sched[0]))
    requires Outcome(t, u, sched[1..], ok) && Coherent(u)
    ensures u.goals[sched[0]].status == t.goals[sched[0]].status && sched[0] !in sched[1..]
  {
    var g := sched[0];
    SameLiveDeps(s, t);
    SameLiveDeps(t, u);
    assert u.goals[g].status == Blocked ==> FailedBelow(u, g);
    forall e | e in LiveDeps(u) && e.0 == g ensures u.goals[e.1].status != Failed {
      assert s.goals[e.1].status == Completed;
    }
  }

  lemma WaitedTwice(s: Store, t: Store, g: GoalId, ok: bool, x: GoalId, after: Status)
    requires Coherent(s) && g in Ready(s) && TurnOf(s, t, g, ok)
    requires x in s.goals && x != g && Waited(t.goals[x].status, after)
    ensures Waited(s.goals[x].status, after)
  {
    if s.goals[x].status == Failed {
      FailedNotDependent(s, g, x);
    }
  }

  lemma OutcomeCons(s: Store, t: Store, u: Store, sched: seq<GoalId>, ok: Executor)
    requires Coherent(s) && sched != [] && sched[0] in Ready(s) && TurnOf(s, t, sched[0], ok(sched[0]))
    requires Outcome(t, u, sched[1..], ok) && NoDup(sched[1..]) && Coherent(u)
    ensures Outcome(s, u, sched, ok) && NoDup(sched)
  {
    var g, rest := sched[0], sched[1..];
    FirstStays(s, t, u, sched, ok);
    SameLiveDeps(s, t);
    forall x ensures x in sched <==> x == g || x in rest {
    }
    forall x | x in s.goals && x !in sched ensures Waited(s.goals[x].status, u.goals[x].status) {
      WaitedTwice(s, t, g, ok(g), x, u.goals[x].status);
    }
    hide Coherent, Waited;
    forall e | e in LiveDeps(s) && e.0 in sched
      ensures s.goals[e.1].status == Completed || u.goals[e.1].status == Completed {
      if e.0 != g && t.goals[e.1].status == Completed {
        assert e.1 == g || s.goals[e.1].status == Completed;
      }
    }
  }

  /** A whole schedule attempts each goal at most once, and leaves the statuses its executor
      decides. */
  lemma {:induction false} ScheduleOutcome(s: Store, sched: seq<GoalId>, ok: Executor)
    requires Coherent(s) && Schedule(s, sched, ok)
    ensures Coherent(After(s, sched, ok)) && Outcome(s, After(s, sched, ok), sched, ok) && NoDup(sched)
    decreases |sched|
  {
    hide Turn, Coherent, Outcome, TurnOf;
    if sched == [] {
      OutcomeNil(s, ok);
    } else {
      var g := sched[0];
      var t := Turn(s, g, ok(g));
      TurnStatuses(s, g, ok(g));
      TurnKeepsCoherent(s, t, g, ok(g));
      ScheduleOutcome(t, sched[1..], ok);
      OutcomeCons(s, t, After(t, sched[1..], ok), sched, ok);
    }
  }

  lemma CompletedStays(s: Store, t: Store, g: GoalId, ok: bool)
    requires Orderly(s) && g in Ready(s) && TurnOf(s, t, g, ok)
    ensures WithStatus(s, Completed) <= WithStatus(t, Completed)
  {
    forall x | x in s.goals && s.goals[x].status == Completed ensures t.goals[x].status == Completed {
      assert (x, g) in s.deps ==> (x, g) in LiveDeps(s);
    }
  }

  /** From an orderly start, no schedule demotes a goal that was completed. */
  lemma {:induction false} OrderlyOutcome(s: Store, sched: seq<GoalId>, ok: Executor)
    requires Orderly(s) && Schedule(s, sched, ok)
    ensures Orderly(After(s, sched, ok))
    ensures WithStatus(s, Completed) <= WithStatus(After(s, sched, ok), Completed)
    decreases |sched|
  {
    hide Turn, Coherent, TurnOf;
    if sched == [] {
    } else {
      var g := sched[0];
      var t := Turn(s, g, ok(g));
      TurnStatuses(s, g, ok(g));
      TurnKeepsOrderly(s, t, g, ok(g));
      CompletedStays(s, t, g, ok(g));
      OrderlyOutcome(t, sched[1..], ok);
    }
  }

  /** As every failure is propagated, get_blocked_goals finds nothing during a schedule: the
      goals that wait for a failed one are no longer pending. */
  lemma NothingPendingIsBlocked(s: Store, sched: seq<GoalId>, ok: Executor)
    requires Coherent(s) && Schedule(s, sched, ok)
    ensures PendingBlocked(After(s, sched, ok)) == {}
  {
    ScheduleOutcome(s, sched, ok);
  }

  // ----- No deadlock -----

  /** With only pending and completed goals, some pending goal is always ready. */
  lemma NoDeadlock(s: Store)
    requires Acyclic(s.deps) && Untried(s)
    ensures Ready(s) == {} <==> WithStatus(s, Pending) == {}
  {
    var pending := WithStatus(s, Pending);
    if pending != {} {
      var x := SinkExists(s.deps, pending);
      assert x in Ready(s);
    }
  }

  lemma SuccessfulTurn(s: Store, g: GoalId)
    requires Untried(s) && g in Ready(s)
    ensures Turn(s, g, true) == SetStatus(s, g, Completed)
  {
    var t0 := Execute(s, g, true);
    assert forall x :: x in NewlyReady(t0, g) ==> t0.goals[x].status == Pending;
    assert Turn(s, g, true).goals == t0.goals;
  }

  /** Dependencies come first: what a scheduled goal depends on was completed before the
      run or succeeded earlier in it. */
  ghost predicate DependenciesFirst(s: Store, sched: seq<GoalId>) {
    forall i, e :: 0 <= i < |sched| && e in LiveDeps(s) && e.0 == sched[i] ==>
      s.goals[e.1].status == Completed || e.1 in sched[..i]
  }

  lemma MarkedTwice(s: Store, g: GoalId, ids: set<GoalId>)
    ensures Marked(SetStatus(s, g, Completed), ids, Completed) == Marked(s, {g} + ids, Completed)
  {
    var a, b := Marked(SetStatus(s, g, Completed), ids, Completed), Marked(s, {g} + ids, Completed);
    assert a.goals.Keys == b.goals.Keys;
    assert a.goals == b.goals;
  }

  lemma DependenciesFirstCons(s: Store, g: GoalId, rest: seq<GoalId>)
    requires g in Ready(s) && DependenciesFirst(SetStatus(s, g, Completed), rest)
    ensures DependenciesFirst(s, [g] + rest)
  {
    var t, sched := SetStatus(s, g, Completed), [g] + rest;
    SameLiveDeps(s, t);
    forall i, e | 0 <= i < |sched| && e in LiveDeps(s) && e.0 == sched[i]
      ensures s.goals[e.1].status == Completed || e.1 in sched[..i] {
      if i > 0 {
        assert e.0 == rest[i - 1];
        assert sched[..i] == [g] + rest[..i - 1];
        assert t.goals[e.1].status == Completed || e.1 in rest[..i - 1];
      }
    }
  }

  lemma {:induction false} SuccessfulSchedule(s: Store, sched: seq<GoalId>, ok: Executor)
    requires Untried(s) && Schedule(s, sched, ok) && forall g :: g in sched ==> ok(g)
    ensures After(s, sched, ok) == Marked(s, Elements(sched), Completed)
    ensures NoDup(sched) && Elements(sched) <= WithStatus(s, Pending) && DependenciesFirst(s, sched)
    decreases |sched|
  {
    hide Turn;
    if sched == [] {
      assert Marked(s, {}, Completed).goals == s.goals;
    } else {
      var g, rest := sched[0], sched[1..];
      var t := SetStatus(s, g, Completed);
      SuccessfulTurn(s, g);
      SuccessfulSchedule(t, rest, ok);
      assert sched == [g] + rest;
      assert Elements(sched) == {g} + Elements(rest);
      MarkedTwice(s, g, Elements(rest));
      DependenciesFirstCons(s, g, rest);
    }
  }

  lemma PendingExists(t: Store, g: GoalId)
    requires g in WithStatus(t, Pending)
    ensures g in t.goals && t.goals[g].status == Pending
  {
  }

  lemma MarkedCompleted(s: Store, ids: set<GoalId>)
    requires Acyclic(s.deps) && Untried(s) && ids <= WithStatus(s, Pending)
    ensures |ids| <= |WithStatus(s, Pending)|
    ensures var t := Marked(s, ids, Completed);
      Ready(t) == {} <==> |ids| == |WithStatus(s, Pending)|
    ensures var t := Marked(s, ids, Completed);
      Ready(t) == {} <==> forall g :: g in t.goals ==> t.goals[g].status == Completed
  {
    var t := Marked(s, ids, Completed);
    SubsetSize(ids, WithStatus(s, Pending));
    assert Untried(t);
    NoDeadlock(t);
    var before, after := WithStatus(s, Pending), WithStatus(t, Pending);
    assert after == before - ids;
    assert before == after + ids;
    assert after == {} ==> before == ids;
    assert ids == before ==> after == {};
    hide Marked, Ready;
    forall g | g in t.goals ensures t.goals[g].status == Completed <==> g !in after {
    }
    hide WithStatus, Untried, Acyclic;
    if after != {} {
      var g :| g in after;
      assert g in t.goals by { PendingExists(t, g); }
    }
  }

  /** Executing ready goals with a succeeding executor until none is ready takes exactly
      as many steps as there were pending goals, completes everything, and runs every
      dependency first; no run can be longer. */
  lemma SuccessfulRunsComplete(s: Store, sched: seq<GoalId>, ok: Executor)
    requires Acyclic(s.deps) && Untried(s) && Schedule(s, sched, ok) && forall g :: g in sched ==> ok(g)
    ensures |sched| <= |WithStatus(s, Pending)| && NoDup(sched) && DependenciesFirst(s, sched)
    ensures var t := After(s, sched, ok);
      Ready(t) == {} <==> |sched| == |WithStatus(s, Pending)|
    ensures var t := After(s, sched, ok);
      Ready(t) == {} <==> forall g :: g in t.goals ==> t.goals[g].status == Completed
  {
    hide Schedule, After;
    SuccessfulSchedule(s, sched, ok);
    NoDupCardinality(sched);
    MarkedCompleted(s, Elements(sched));
  }

  // ----- Failing executors: where runs stop -----

  lemma StuckHasStuckSuccessor(t: Store, y: GoalId, stuck: set<GoalId>)
    requires Orderly(t) && Ready(t) == {}
    requires forall g :: g in stuck <==>
      g in t.goals && t.goals[g].status != Completed
      && !exists f :: f in WithStatus(t, Failed) && Reach(LiveDeps(t), g, f)
    requires y in stuck
    ensures exists z :: z in stuck && (y, z) in LiveDeps(t)
  {
    var E := LiveDeps(t);
    ReachSelf(E, y);
    if t.goals[y].status == Blocked {
      var e :| e in E && e.0 == y && t.goals[e.1].status == Failed;
      ReachEdge(E, y, y, e.1);
    } else {
      assert t.goals[y].status == Pending && y !in Ready(t);
      var e :| e in t.deps && e.0 == y && e.1 in t.goals && t.goals[e.1].status != Completed;
      assert e in E;
      ReachEdge(E, y, y, e.1);
      forall f | f in WithStatus(t, Failed) ensures !Reach(E, e.1, f) {
        if Reach(E, e.1, f) {
          ReachTrans(E, y, e.1, f);
        }
      }
    }
  }

  lemma FailureBelow(t: Store, x: GoalId)
    requires Acyclic(t.deps) && Orderly(t) && Ready(t) == {} && x in t.goals
    requires t.goals[x].status != Completed
    ensures exists f :: f in WithStatus(t, Failed) && Reach(LiveDeps(t), x, f)
  {
    var E := LiveDeps(t);
    var stuck := set g | g in t.goals && t.goals[g].status != Completed
                      && !exists f :: f in WithStatus(t, Failed) && Reach(E, g, f);
    if stuck != {} {
      AcyclicSubset(E, t.deps);
      var y := SinkExists(E, stuck);
      StuckHasStuckSuccessor(t, y, stuck);
      assert false;
    }
    assert x !in stuck;
  }

  /** When nothing is ready any more, a goal is completed exactly when no failed goal is
      reachable from it along existing dependencies. */
  lemma QuiescentCompleted(t: Store, x: GoalId)
    requires Acyclic(t.deps) && Orderly(t) && Ready(t) == {} && x in t.goals
    ensures t.goals[x].status == Completed <==>
      !exists f :: f in WithStatus(t, Failed) && Reach(LiveDeps(t), x, f)
  {
    var E := LiveDeps(t);
    var completed := WithStatus(t, Completed);
    if t.goals[x].status == Completed {
      forall f | f in WithStatus(t, Failed) ensures !Reach(E, x, f) {
        if Reach(E, x, f) {
          ClosedReach(E, completed, x, f);
        }
      }
    } else {
      FailureBelow(t, x);
    }
  }
}
