/** What execution_order promises, and why Kahn's loop delivers it. */
module ExecutionOrder {
  import opened Sequences
  import opened Digraph
  import opened GoalStore
  import opened GoalScheduling

  /** The rows the query selects: pending and active goals. */
  function Live(s: Store): set<GoalId> {
    WithStatus(s, Pending) + WithStatus(s, Active)
  }

  /** Every dependency row of a listed goal, dangling or not, points to an earlier one. */
  ghost predicate RowsBefore(s: Store, order: seq<GoalId>) {
    forall i, e :: 0 <= i < |order| && e in s.deps && e.0 == order[i] ==> e.1 in order[..i]
  }

  /** g and everything it transitively depends on is pending or active. */
  ghost predicate Unhindered(s: Store, g: GoalId) {
    g in Live(s) && forall y :: Reach(s.deps, g, y) ==> y in Live(s)
  }

  ghost predicate IsExecutionOrder(s: Store, order: seq<GoalId>) {
    NoDup(order) && RowsBefore(s, order) && forall g :: g in order <==> Unhindered(s, g)
  }

  // ----- Kahn's algorithm -----

  /** The dependency rows of g whose target is not yet listed. */
  ghost function Open(s: Store, g: GoalId, done: seq<GoalId>): set<(GoalId, GoalId)> {
    set e | e in s.deps && e.0 == g && e.1 !in done
  }

  lemma OpenAfter(s: Store, g: GoalId, done: seq<GoalId>, c: GoalId)
    requires c !in done
    ensures Open(s, g, done + [c]) == Open(s, g, done) - {(g, c)}
    ensures |Open(s, g, done + [c])| == |Open(s, g, done)| - if (g, c) in s.deps then 1 else 0
  {
    assert Open(s, g, done + [c]) == Open(s, g, done) - {(g, c)};
    assert (g, c) in s.deps <==> (g, c) in Open(s, g, done);
  }

  /** Everything reachable from a listed goal is listed. */
  lemma ListedIsClosed(s: Store, order: seq<GoalId>, g: GoalId, y: GoalId)
    requires RowsBefore(s, order) && g in order && Reach(s.deps, g, y)
    ensures y in order
  {
    var listed := Elements(order);
    forall e | e in s.deps && e.0 in listed ensures e.1 in listed {
      var i :| 0 <= i < |order| && order[i] == e.0;
      assert e.1 in order[..i];
    }
    ClosedReach(s.deps, listed, g, y);
  }

  lemma LeftSuccessor(s: Store, g: GoalId, d: GoalId)
    requires Unhindered(s, g) && (g, d) in s.deps
    ensures Unhindered(s, d)
  {
    ReachSelf(s.deps, g);
    ReachEdge(s.deps, g, g, d);
    forall y | Reach(s.deps, d, y) ensures y in Live(s) {
      ReachTrans(s.deps, g, d, y);
    }
  }

  /** If only goals with an unlisted dependency remain, exactly the unhindered are listed. */
  lemma KahnIsExact(s: Store, order: seq<GoalId>)
    requires Acyclic(s.deps) && NoDup(order) && RowsBefore(s, order)
    requires forall g :: g in order ==> g in Live(s)
    requires forall g :: g in Live(s) && g !in order ==> Open(s, g, order) != {}
    ensures IsExecutionOrder(s, order)
  {
    forall g | g in order ensures Unhindered(s, g) {
      forall y | Reach(s.deps, g, y) ensures y in Live(s) {
        ListedIsClosed(s, order, g, y);
      }
    }
    var left := set g | g in Live(s) && Unhindered(s, g) && g !in order;
    forall g | g in left ensures exists d :: d in left && (g, d) in s.deps {
      var e :| e in Open(s, g, order);
      LeftSuccessor(s, g, e.1);
      assert (g, e.1) in s.deps;
    }
    if left != {} {
      var x := SinkExists(s.deps, left);
      assert false;
    }
    forall g | Unhindered(s, g) ensures g in order {
      assert g !in left;
    }
  }

  // ----- Consequences -----

  /** The order lists every pending or active goal exactly when none of them depends on
      any other goal. */
  lemma FullExactlyWhen(s: Store, order: seq<GoalId>)
    requires IsExecutionOrder(s, order)
    ensures Elements(order) == Live(s) <==> forall e :: e in s.deps && e.0 in Live(s) ==> e.1 in Live(s)
    ensures Elements(order) == Live(s) ==> |order| == |Live(s)|
  {
    NoDupCardinality(order);
    if Elements(order) == Live(s) {
      forall e | e in s.deps && e.0 in Live(s) ensures e.1 in Live(s) {
        assert e.0 in order;
        ReachSelf(s.deps, e.0);
        ReachEdge(s.deps, e.0, e.0, e.1);
      }
    }
    if forall e :: e in s.deps && e.0 in Live(s) ==> e.1 in Live(s) {
      forall g | g in Live(s) ensures g in order {
        forall y | Reach(s.deps, g, y) ensures y in Live(s) {
          ClosedReach(s.deps, Live(s), g, y);
        }
      }
    }
  }

  /** Running the listed goals in order, with a succeeding executor, only ever executes
      goals get_ready_goals would offer. */
  lemma {:induction false} OrderIsSchedule(s: Store, order: seq<GoalId>, ok: Executor)
    requires Untried(s) && NoDup(order) && Elements(order) <= WithStatus(s, Pending)
    requires forall i, e :: 0 <= i < |order| && e in LiveDeps(s) && e.0 == order[i] ==>
               s.goals[e.1].status == Completed || e.1 in order[..i]
    requires forall g :: g in order ==> ok(g)
    ensures Schedule(s, order, ok)
    decreases |order|
  {
    if order == [] {
    } else {
      var g, rest := order[0], order[1..];
      var t := SetStatus(s, g, Completed);
      assert g in Elements(order);
      assert AllMet(s, g) by {
        forall e | e in s.deps && e.0 == g && e.1 in s.goals ensures s.goals[e.1].status == Completed {
          assert e in LiveDeps(s) && order[..0] == [];
        }
      }
      SuccessfulTurn(s, g);
      SameLiveDeps(s, t);
      forall i, e | 0 <= i < |rest| && e in LiveDeps(t) && e.0 == rest[i]
        ensures t.goals[e.1].status == Completed || e.1 in rest[..i] {
        assert rest[i] == order[i + 1];
        assert order[..i + 1] == [g] + rest[..i];
      }
      forall x | x in Elements(rest) ensures x in WithStatus(t, Pending) {
        assert x in Elements(order);
        var i :| 0 <= i < |rest| && rest[i] == x;
        assert order[0] != order[i + 1];
      }
      OrderIsSchedule(t, rest, ok);
    }
  }

  lemma ExecutionOrderIsSchedule(s: Store, order: seq<GoalId>, ok: Executor)
    requires IsExecutionOrder(s, order) && Untried(s) && forall g :: g in order ==> ok(g)
    ensures Schedule(s, order, ok)
  {
    forall g | g in order ensures g in WithStatus(s, Pending) {
      assert Unhindered(s, g);
    }
    OrderIsSchedule(s, order, ok);
  }
}
