/** When the order in which ready goals are executed does not matter. */
module GoalConfluence {
  import opened Sequences
  import opened Digraph
  import opened GoalStore
  import opened GoalScheduling

  /** sched runs until nothing is ready. */
  ghost predicate Complete(s: Store, sched: seq<GoalId>, ok: Executor) {
    Schedule(s, sched, ok) && Ready(After(s, sched, ok)) == {}
  }

  /** The dependency rows between pending goals. */
  function PendingDeps(s: Store): set<(GoalId, GoalId)> {
    set e | e in LiveDeps(s) && s.goals[e.0].status == Pending && s.goals[e.1].status == Pending
  }

  /** x waits for a, which is completed and depends on the pending goal b. */
  ghost predicate Exposed(s: Store, x: GoalId, a: GoalId, b: GoalId) {
    && (x, a) in LiveDeps(s) && (a, b) in LiveDeps(s)
    && s.goals[x].status == Pending && s.goals[a].status == Completed && s.goals[b].status == Pending
  }

  /** A goal that waits for a completed one waits also for whatever could still demote that. */
  ghost predicate RaceFree(s: Store) {
    forall x, a, b :: Exposed(s, x, a, b) ==> Reach(PendingDeps(s), x, b)
  }

  lemma SettledIsRaceFree(s: Store)
    requires Settled(s)
    ensures RaceFree(s)
  {
  }

  // ----- Race-free tables: the end does not depend on the order -----

  ghost predicate Finished(s: Store, t: Store, sched: seq<GoalId>, ok: Executor) {
    Coherent(t) && Outcome(s, t, sched, ok) && Ready(t) == {}
  }

  /** What an executed goal waited for was executed, and completed. */
  lemma WaitedFor(s: Store, t: Store, sched: seq<GoalId>, ok: Executor, x: GoalId, b: GoalId)
    requires Outcome(s, t, sched, ok) && x in sched && x != b && Reach(PendingDeps(s), x, b)
    ensures b in t.goals && t.goals[b].status == Completed
  {
    var E := PendingDeps(s);
    var done := set g | g in sched && (g == x || t.goals[g].status == Completed);
    forall e | e in E && e.0 in done ensures e.1 in done {
      assert t.goals[e.1].status == Completed;
    }
    ClosedReach(E, done, x, b);
  }

  /** No executed goal has lost a dependency since. */
  lemma ExecutedAreMet(s: Store, t: Store, sched: seq<GoalId>, ok: Executor, y: GoalId)
    requires Acyclic(s.deps) && Untried(s) && RaceFree(s) && Finished(s, t, sched, ok) && y in sched
    ensures AllMet(t, y)
  {
    SameLiveDeps(s, t);
    forall e | e in s.deps && e.0 == y && e.1 in s.goals ensures t.goals[e.1].status == Completed {
      assert e in LiveDeps(s);
      if t.goals[e.1].status == Blocked {
        var f :| f in LiveDeps(t) && f.0 == e.1 && t.goals[f.1].status == Failed;
        assert Exposed(s, y, e.1, f.1);
        if y == f.1 {
          ReachSelf(s.deps, y);
          ReachEdge(s.deps, y, y, e.1);
          ReachEdge(s.deps, y, e.1, y);
        }
        WaitedFor(s, t, sched, ok, y, f.1);
        assert false;
      }
    }
  }

  /** What a finished status is, in terms of the dependencies. */
  lemma FinishedStatus(s: Store, t: Store, sched: seq<GoalId>, ok: Executor, y: GoalId)
    requires Acyclic(s.deps) && Untried(s) && RaceFree(s) && y in s.goals && Finished(s, t, sched, ok)
    ensures t.goals[y].status ==
      if FailedBelow(t, y) then Blocked
      else if s.goals[y].status == Completed then Completed
      else if AllMet(t, y) then (if ok(y) then Completed else Failed)
      else Pending
  {
    if y in sched {
      ExecutedAreMet(s, t, sched, ok, y);
    }
    assert y !in Ready(t);
  }

  /** A finished goal's status is settled by those of its dependencies and the executor. */
  lemma AgreeAbove(s: Store, t: Store, a: seq<GoalId>, u: Store, b: seq<GoalId>, ok: Executor, y: GoalId)
    requires Acyclic(s.deps) && Untried(s) && RaceFree(s) && y in s.goals
    requires Finished(s, t, a, ok) && Finished(s, u, b, ok)
    requires forall e :: e in LiveDeps(s) && e.0 == y ==> t.goals[e.1].status == u.goals[e.1].status
    ensures t.goals[y].status == u.goals[y].status
  {
    SameLiveDeps(s, t);
    SameLiveDeps(s, u);
    FinishedStatus(s, t, a, ok, y);
    FinishedStatus(s, u, b, ok, y);
    assert AllMet(t, y) <==> AllMet(u, y) by {
      assert forall e :: e in s.deps && e.0 == y && e.1 in s.goals ==> e in LiveDeps(s);
    }
  }

  lemma SameStatus(s: Store, t: Store, a: seq<GoalId>, u: Store, b: seq<GoalId>, ok: Executor, x: GoalId)
    requires Acyclic(s.deps) && Untried(s) && RaceFree(s) && x in s.goals
    requires Finished(s, t, a, ok) && Finished(s, u, b, ok)
    ensures t.goals[x].status == u.goals[x].status
  {
    var differ := set g | g in s.goals && t.goals[g].status != u.goals[g].status;
    if differ != {} {
      AcyclicSubset(LiveDeps(s), s.deps);
      var y := SinkExists(LiveDeps(s), differ);
      AgreeAbove(s, t, a, u, b, ok, y);
      assert false;
    }
    assert x !in differ;
  }

  lemma {:induction false} NoDupCounts<T(!new)>(a: seq<T>)
    requires NoDup(a)
    ensures forall x :: x in a ==> multiset(a)[x] == 1
  {
    if a == [] {
    } else {
      var t := a[..|a| - 1];
      NoDupCounts(t);
      assert a == t + [a[|a| - 1]];
      assert a[|a| - 1] !in t;
    }
  }

  lemma {:induction false} SameElements<T(!new)>(a: seq<T>, b: seq<T>)
    requires NoDup(a) && NoDup(b) && forall x :: x in a <==> x in b
    ensures multiset(a) == multiset(b)
  {
    NoDupCounts(a);
    NoDupCounts(b);
    forall x ensures multiset(a)[x] == multiset(b)[x] {
      assert x in multiset(a) <==> x in a;
      assert x in multiset(b) <==> x in b;
    }
  }

  lemma SameEnd(s: Store, t: Store, a: seq<GoalId>, u: Store, b: seq<GoalId>, ok: Executor)
    requires Acyclic(s.deps) && Untried(s) && RaceFree(s) && NoDup(a) && NoDup(b)
    requires Finished(s, t, a, ok) && Finished(s, u, b, ok)
    ensures t == u && multiset(a) == multiset(b)
  {
    hide Coherent, Acyclic, Ready, RaceFree;
    forall x | x in s.goals ensures t.goals[x].status == u.goals[x].status {
      SameStatus(s, t, a, u, b, ok, x);
    }
    assert t.goals == u.goals;
    forall x ensures x in a <==> x in b {
      if x in a {
        assert Attempted(t.goals[x].status);
      }
      if x in b {
        assert Attempted(u.goals[x].status);
      }
    }
    SameElements(a, b);
  }

  /** Any two schedules run to the end from the same race-free tables, with the same executor,
      run the same goals and leave the same tables. */
  lemma ScheduleConfluence(s: Store, a: seq<GoalId>, b: seq<GoalId>, ok: Executor)
    requires Acyclic(s.deps) && Untried(s) && RaceFree(s)
    requires Complete(s, a, ok) && Complete(s, b, ok)
    ensures After(s, a, ok) == After(s, b, ok)
    ensures multiset(a) == multiset(b)
  {
    hide Schedule, After;
    UntriedIsCoherent(s);
    ScheduleOutcome(s, a, ok);
    ScheduleOutcome(s, b, ok);
    SameEnd(s, After(s, a, ok), a, After(s, b, ok), b, ok);
  }

  // ----- A race: two schedules that end differently -----

  lemma {:induction false} ScheduleAppend(s: Store, a: seq<GoalId>, b: seq<GoalId>, ok: Executor)
    requires Schedule(s, a, ok) && Schedule(After(s, a, ok), b, ok)
    ensures Schedule(s, a + b, ok) && After(s, a + b, ok) == After(After(s, a, ok), b, ok)
    decreases |a|
  {
    hide Turn, Ready;
    if a == [] {
      assert a + b == b;
    } else {
      ScheduleAppend(Turn(s, a[0], ok(a[0])), a[1..], b, ok);
      assert (a + b)[1..] == a[1..] + b;
    }
  }

  lemma FewerPending(s: Store, t: Store, g: GoalId, ok: bool)
    requires g in Ready(s) && TurnOf(s, t, g, ok)
    ensures |WithStatus(t, Pending)| < |WithStatus(s, Pending)|
  {
    SubsetSize(WithStatus(t, Pending), WithStatus(s, Pending) - {g});
  }

  /** From anywhere, ready goals can be executed until none is left. */
  lemma {:induction false} RunToEnd(s: Store, ok: Executor) returns (sched: seq<GoalId>)
    requires Coherent(s)
    ensures Complete(s, sched, ok)
    decreases |WithStatus(s, Pending)|
  {
    hide Coherent, Turn, TurnOf;
    if Ready(s) == {} {
      sched := [];
    } else {
      var g :| g in Ready(s);
      var t := Turn(s, g, ok(g));
      TurnStatuses(s, g, ok(g));
      TurnKeepsCoherent(s, t, g, ok(g));
      FewerPending(s, t, g, ok(g));
      var rest := RunToEnd(t, ok);
      sched := [g] + rest;
      assert sched[1..] == rest;
    }
  }

  lemma PendingSink(s: Store, x: GoalId) returns (y: GoalId)
    requires Acyclic(s.deps) && Untried(s) && x in WithStatus(s, Pending)
    ensures y in Ready(s) && Reach(PendingDeps(s), x, y)
  {
    var E := PendingDeps(s);
    var below := set g | g in WithStatus(s, Pending) && Reach(E, x, g);
    ReachSelf(E, x);
    AcyclicSubset(E, s.deps);
    assert x in below;
    y := SinkExists(E, below);
    forall e | e in s.deps && e.0 == y && e.1 in s.goals ensures s.goals[e.1].status == Completed {
      if s.goals[e.1].status == Pending {
        assert e in E;
        ReachEdge(E, x, y, e.1);
      }
    }
  }

  lemma OneCompleted(s: Store, y: GoalId, x: GoalId)
    requires Untried(s) && y in Ready(s)
    ensures var t := SetStatus(s, y, Completed);
      && Untried(t) && |WithStatus(t, Pending)| < |WithStatus(s, Pending)|
      && WithStatus(t, Pending) == WithStatus(s, Pending) - {y} && y in WithStatus(s, Pending)
      && forall z :: Reach(PendingDeps(t), x, z) ==> Reach(PendingDeps(s), x, z)
  {
    var t := SetStatus(s, y, Completed);
    assert WithStatus(t, Pending) == WithStatus(s, Pending) - {y};
    SubsetSize(WithStatus(t, Pending), WithStatus(s, Pending) - {y});
    assert PendingDeps(t) <= PendingDeps(s);
    forall z ensures Reach(PendingDeps(t), x, z) ==> Reach(PendingDeps(s), x, z) {
      ReachMono(PendingDeps(t), PendingDeps(s), x, z);
    }
  }

  /** Executing what a pending goal waits for makes it ready. */
  lemma {:induction false} MakeReady(s: Store, x: GoalId, ok: Executor) returns (sched: seq<GoalId>)
    requires Acyclic(s.deps) && Untried(s) && x in WithStatus(s, Pending)
    requires forall y :: Reach(PendingDeps(s), x, y) && y != x ==> ok(y)
    ensures Schedule(s, sched, ok) && After(s, sched, ok) == Marked(s, Elements(sched), Completed)
    ensures x in Ready(After(s, sched, ok))
    ensures forall y :: y in sched ==> y != x && y in WithStatus(s, Pending) && Reach(PendingDeps(s), x, y)
    decreases |WithStatus(s, Pending)|
  {
    hide Turn, Ready, Acyclic, PendingDeps, Untried, WithStatus, Reach;
    var y := PendingSink(s, x);
    if y == x {
      sched := [];
      assert Marked(s, {}, Completed).goals == s.goals;
    } else {
      var t := SetStatus(s, y, Completed);
      SuccessfulTurn(s, y);
      OneCompleted(s, y, x);
      var rest := MakeReady(t, x, ok);
      sched := [y] + rest;
      assert sched[1..] == rest && Elements(sched) == {y} + Elements(rest);
      MarkedTwice(s, y, Elements(rest));
    }
  }

  /** A schedule that makes g ready goes on with g, and then to the end. */
  lemma GoOn(s: Store, before: seq<GoalId>, g: GoalId, ok: Executor) returns (after: seq<GoalId>)
    requires Coherent(s) && Schedule(s, before, ok) && g in Ready(After(s, before, ok))
    ensures var t := After(s, before, ok); var u := Turn(t, g, ok(g));
      && TurnOf(t, u, g, ok(g)) && Coherent(u) && Schedule(u, after, ok)
      && Complete(s, before + ([g] + after), ok) && After(s, before + ([g] + after), ok) == After(u, after, ok)
  {
    hide Turn, Ready, Coherent, TurnOf, Outcome;
    ScheduleOutcome(s, before, ok);
    var t := After(s, before, ok);
    var u := Turn(t, g, ok(g));
    TurnStatuses(t, g, ok(g));
    TurnKeepsCoherent(t, u, g, ok(g));
    after := RunToEnd(u, ok);
    var rest := [g] + after;
    assert rest[1..] == after;
    assert Schedule(t, rest, ok) && After(t, rest, ok) == After(u, after, ok);
    ScheduleAppend(s, before, rest, ok);
  }

  /** x is executed before b fails. */
  lemma EarlyRun(s: Store, x: GoalId, b: GoalId, ok: Executor) returns (sched: seq<GoalId>)
    requires Acyclic(s.deps) && Untried(s) && x in WithStatus(s, Pending)
    requires !Reach(PendingDeps(s), x, b) && forall g :: ok(g) <==> g != b
    ensures Complete(s, sched, ok) && x in WithStatus(After(s, sched, ok), Completed)
  {
    hide Turn, Ready, Acyclic, Coherent, Marked;
    ReachSelf(PendingDeps(s), x);
    UntriedIsCoherent(s);
    var before := MakeReady(s, x, ok);
    var after := GoOn(s, before, x, ok);
    sched := before + ([x] + after);
    ScheduleOutcome(s, sched, ok);
    assert x in sched;
  }

  lemma NotBelow(s: Store, x: GoalId, a: GoalId, b: GoalId)
    requires Acyclic(s.deps) && Exposed(s, x, a, b)
    ensures !Reach(PendingDeps(s), b, x)
  {
    if Reach(PendingDeps(s), b, x) {
      ReachMono(PendingDeps(s), s.deps, b, x);
      ReachEdge(s.deps, b, x, a);
      ReachEdge(s.deps, b, a, b);
    }
  }

  /** A goal that waits for one that was demoted is not executed. */
  lemma NeverRun(t: Store, u: Store, w: Store, x: GoalId, a: GoalId, b: GoalId, after: seq<GoalId>, ok: Executor)
    requires (x, a) in LiveDeps(t) && (a, b) in LiveDeps(t) && x != b && a != b
    requires t.goals[x].status == Pending && t.goals[a].status == Completed
    requires TurnOf(t, u, b, false) && Outcome(u, w, after, ok)
    ensures x !in WithStatus(w, Completed)
  {
    SameLiveDeps(t, u);
    assert u.goals[a].status == Blocked && u.goals[x].status != Completed;
    assert a !in after && w.goals[a].status == Blocked;
    assert x !in after;
  }

  /** b fails before x is executed, which then never is. */
  lemma LateRun(s: Store, x: GoalId, a: GoalId, b: GoalId, ok: Executor) returns (sched: seq<GoalId>)
    requires Acyclic(s.deps) && Untried(s) && Exposed(s, x, a, b)
    requires forall g :: ok(g) <==> g != b
    ensures Complete(s, sched, ok) && x !in WithStatus(After(s, sched, ok), Completed)
  {
    var before := MakeReady(s, b, ok);
    var t := Marked(s, Elements(before), Completed);
    NotBelow(s, x, a, b);
    ReachSelf(PendingDeps(s), b);
    assert x !in before && x != b;
    SameLiveDeps(s, t);
    assert t.goals[x].status == Pending && t.goals[a].status == Completed && a != b;
    UntriedIsCoherent(s);
    hide Turn, Ready, Acyclic, Coherent, TurnOf, Outcome, PendingDeps, Marked, Schedule, LiveDeps, Complete, WithStatus;
    var after := GoOn(s, before, b, ok);
    sched := before + ([b] + after);
    var u := Turn(t, b, ok(b));
    ScheduleOutcome(u, after, ok);
    NeverRun(t, u, After(u, after, ok), x, a, b, after, ok);
  }

  /** Every executor leaves the same tables in whatever order the ready goals are run, exactly
      when the tables are race-free. */
  lemma ConfluentExactlyWhen(s: Store)
    requires Acyclic(s.deps) && Untried(s)
    ensures RaceFree(s) <==> forall ok: Executor, a, b :: Complete(s, a, ok) && Complete(s, b, ok) ==>
      After(s, a, ok) == After(s, b, ok)
  {
    hide Complete, After;
    if RaceFree(s) {
      forall ok: Executor, a, b | Complete(s, a, ok) && Complete(s, b, ok)
        ensures After(s, a, ok) == After(s, b, ok) {
        ScheduleConfluence(s, a, b, ok);
      }
    } else {
      var x, a, b :| Exposed(s, x, a, b) && !Reach(PendingDeps(s), x, b);
      var ok: Executor := g => g != b;
      var early := EarlyRun(s, x, b, ok);
      var late := LateRun(s, x, a, b, ok);
    }
  }
}
