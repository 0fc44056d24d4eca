/** Reachable states in which the planner does less than its documentation says. */
module GoalExamples {
  import opened Wrappers
  import opened Digraph
  import opened GoalStore
  import opened GoalTree
  import opened GoalScheduling
  import opened GoalConfluence
  import opened ExecutionOrder
  import opened Conjunctions
  import opened GoalPlanner

  function Plain(status: Status): Goal {
    Goal(None, 0, "", "general", [], status, 4)
  }

  function Rows2(a: GoalId, b: GoalId, rowA: Goal, rowB: Goal): map<GoalId, Goal> {
    map[a := rowA, b := rowB]
  }

  /** Tables with two goals a and b of the given statuses, neither with a parent. */
  function Two(a: GoalId, b: GoalId, statusA: Status, statusB: Status, deps: set<(GoalId, GoalId)>,
               foreignKeys: bool): Store
  {
    Store(Rows2(a, b, Plain(statusA), Plain(statusB)), deps, foreignKeys)
  }

  function CreatePlain(id: GoalId): Op {
    CreateOp(id, None, "", "general", [], 4)
  }

  lemma RunCons(s: Store, op: Op, rest: seq<Op>)
    requires Enabled(s, op) && Runnable(Apply(s, op), rest)
    ensures Runnable(s, [op] + rest) && Run(s, [op] + rest) == Run(Apply(s, op), rest)
  {
    assert ([op] + rest)[1..] == rest;
  }

  lemma TwoCreated(a: GoalId, b: GoalId, foreignKeys: bool, rest: seq<Op>)
    requires a != b && Runnable(Two(a, b, Pending, Pending, {}, foreignKeys), rest)
    ensures var ops := [CreatePlain(a)] + ([CreatePlain(b)] + rest);
      && Runnable(Empty(foreignKeys), ops)
      && Run(Empty(foreignKeys), ops) == Run(Two(a, b, Pending, Pending, {}, foreignKeys), rest)
  {
    hide Runnable, Run;
    var one := Store(map[a := Plain(Pending)], {}, foreignKeys);
    assert Apply(Empty(foreignKeys), CreatePlain(a)) == one;
    assert Apply(one, CreatePlain(b)) == Two(a, b, Pending, Pending, {}, foreignKeys);
    RunCons(one, CreatePlain(b), rest);
    RunCons(Empty(foreignKeys), CreatePlain(a), [CreatePlain(b)] + rest);
  }

  lemma MarkedIsUpdate(s: Store, id: GoalId, status: Status)
    requires id in s.goals
    ensures SetStatus(s, id, status) == s.(goals := s.goals[id := s.goals[id].(status := status)])
  {
    assert SetStatus(s, id, status).goals == s.goals[id := s.goals[id].(status := status)];
  }

  lemma Update2(a: GoalId, b: GoalId, rowA: Goal, rowB: Goal, row: Goal)
    requires a != b
    ensures var m := Rows2(a, b, rowA, rowB);
      m[a := row] == Rows2(a, b, row, rowB) && m[b := row] == Rows2(a, b, rowA, row)
  {
  }

  lemma PlainMarked(before: Status, after: Status)
    ensures Plain(before).(status := after) == Plain(after)
  {
  }

  lemma TwoMarked(a: GoalId, b: GoalId, statusA: Status, statusB: Status, deps: set<(GoalId, GoalId)>,
                  foreignKeys: bool, status: Status)
    requires a != b
    ensures var s := Two(a, b, statusA, statusB, deps, foreignKeys);
      && SetStatus(s, a, status) == Two(a, b, status, statusB, deps, foreignKeys)
      && SetStatus(s, b, status) == Two(a, b, statusA, status, deps, foreignKeys)
  {
    var s := Two(a, b, statusA, statusB, deps, foreignKeys);
    Update2(a, b, Plain(statusA), Plain(statusB), Plain(status));
    PlainMarked(statusA, status);
    PlainMarked(statusB, status);
    hide Marked, Plain;
    MarkedIsUpdate(s, a, status);
    MarkedIsUpdate(s, b, status);
    assert s.goals[a] == Plain(statusA) && s.goals[b] == Plain(statusB);
    hide Rows2;
  }

  lemma TwoLinked(a: GoalId, b: GoalId, statusA: Status, statusB: Status, foreignKeys: bool)
    requires a != b
    ensures AddDependency(Two(a, b, statusA, statusB, {}, foreignKeys), a, b) ==
      Two(a, b, statusA, statusB, {(a, b)}, foreignKeys)
  {
    NothingEnters<GoalId>({}, b, a);
  }

  lemma RunNil(s: Store)
    ensures Runnable(s, []) && Run(s, []) == s
  {
  }

  lemma Demoted(s: Store, x: GoalId, g: GoalId)
    requires x in s.goals && (x, g) in s.deps && s.goals[x].status == Completed
    ensures x in WithStatus(s, Completed) && x !in WithStatus(PropagateFailure(s, g), Completed)
  {
    assert x in Dependents(s, g);
  }

  /** propagate_failure demotes a completed goal: a is completed, then made to depend on b,
      and b fails. */
  lemma FailureCanDemote(a: GoalId, b: GoalId, foreignKeys: bool) returns (ops: seq<Op>)
    requires a != b
    ensures Runnable(Empty(foreignKeys), ops)
    ensures var s := Run(Empty(foreignKeys), ops);
      a in WithStatus(s, Completed) && a !in WithStatus(PropagateFailure(s, b), Completed)
  {
    var done, add, fail := ExecuteOp(a, true), AddOp(a, b), ExecuteOp(b, false);
    var s := Two(a, b, Completed, Failed, {(a, b)}, foreignKeys);
    hide Runnable, Run, Marked, PropagateFailure, WithStatus, GoalStore.AddDependency;
    TwoMarked(a, b, Pending, Pending, {}, foreignKeys, Completed);
    TwoLinked(a, b, Completed, Pending, foreignKeys);
    TwoMarked(a, b, Completed, Pending, {(a, b)}, foreignKeys, Failed);
    Demoted(s, a, b);
    RunNil(s);
    hide Two;
    RunCons(Two(a, b, Completed, Pending, {(a, b)}, foreignKeys), fail, []);
    RunCons(Two(a, b, Completed, Pending, {}, foreignKeys), add, [fail] + []);
    RunCons(Two(a, b, Pending, Pending, {}, foreignKeys), done, [add] + ([fail] + []));
    TwoCreated(a, b, foreignKeys, [done] + ([add] + ([fail] + [])));
    ops := [CreatePlain(a)] + ([CreatePlain(b)] + ([done] + ([add] + ([fail] + []))));
  }

  lemma Omitted(s: Store, a: GoalId, b: GoalId)
    requires (a, b) in s.deps && b !in Live(s)
    ensures forall order :: IsExecutionOrder(s, order) ==> a !in order
  {
    ReachSelf(s.deps, a);
    ReachEdge(s.deps, a, a, b);
  }

  /** execution_order omits a goal that is ready: a is pending and its only dependency, b,
      is completed. */
  lemma OrderCanOmitReady(a: GoalId, b: GoalId, foreignKeys: bool) returns (ops: seq<Op>)
    requires a != b
    ensures Runnable(Empty(foreignKeys), ops)
    ensures var s := Run(Empty(foreignKeys), ops);
      a in Ready(s) && forall order :: IsExecutionOrder(s, order) ==> a !in order
  {
    var add, done := AddOp(a, b), ExecuteOp(b, true);
    var s := Two(a, b, Pending, Completed, {(a, b)}, foreignKeys);
    TwoLinked(a, b, Pending, Pending, foreignKeys);
    TwoMarked(a, b, Pending, Pending, {(a, b)}, foreignKeys, Completed);
    assert a in Ready(s) && b !in Live(s);
    RunNil(s);
    hide Runnable, Run, Two, Ready, Live;
    RunCons(Two(a, b, Pending, Pending, {(a, b)}, foreignKeys), done, []);
    RunCons(Two(a, b, Pending, Pending, {}, foreignKeys), add, [done] + []);
    TwoCreated(a, b, foreignKeys, [add] + ([done] + []));
    Omitted(s, a, b);
    ops := [CreatePlain(a)] + ([CreatePlain(b)] + ([add] + ([done] + [])));
  }

  /** A pending goal that is blocked: a is made to depend on b after b has failed. */
  lemma PendingCanBeBlocked(a: GoalId, b: GoalId, foreignKeys: bool) returns (ops: seq<Op>)
    requires a != b
    ensures Runnable(Empty(foreignKeys), ops)
    ensures PendingBlocked(Run(Empty(foreignKeys), ops)) == {a}
  {
    var fail, add := ExecuteOp(b, false), AddOp(a, b);
    var s := Two(a, b, Pending, Failed, {(a, b)}, foreignKeys);
    TwoMarked(a, b, Pending, Pending, {}, foreignKeys, Failed);
    TwoLinked(a, b, Pending, Failed, foreignKeys);
    assert LiveDeps(s) == {(a, b)};
    assert PendingBlocked(s) == {a};
    RunNil(s);
    hide Runnable, Run, Two, PendingBlocked;
    RunCons(Two(a, b, Pending, Failed, {}, foreignKeys), add, []);
    RunCons(Two(a, b, Pending, Pending, {}, foreignKeys), fail, [add] + []);
    TwoCreated(a, b, foreignKeys, [fail] + ([add] + []));
    ops := [CreatePlain(a)] + ([CreatePlain(b)] + ([fail] + ([add] + [])));
  }

  // ----- A goal with many children -----

  ghost predicate Distinct(uuid: nat -> GoalId) {
    forall i: nat, j: nat :: i < j ==> uuid(i) != uuid(j)
  }

  function Numbered(uuid: nat -> GoalId, lo: nat, hi: nat): set<GoalId> {
    set k: nat | lo <= k < hi :: uuid(k)
  }

  function WideChild(uuid: nat -> GoalId): Goal {
    Goal(Some(uuid(0)), 1, "", "general", [], Pending, 4)
  }

  function WideRow(uuid: nat -> GoalId, g: GoalId): Goal {
    if g == uuid(0) then Plain(Pending) else WideChild(uuid)
  }

  /** The goal uuid(0) with the children uuid(1) to uuid(n). */
  function Wide(uuid: nat -> GoalId, n: nat, foreignKeys: bool): Store {
    Store(map g | g in Numbered(uuid, 0, n + 1) :: WideRow(uuid, g), {}, foreignKeys)
  }

  function CreateWide(uuid: nat -> GoalId, n: nat): seq<Op> {
    if n == 0 then [CreatePlain(uuid(0))]
    else CreateWide(uuid, n - 1) + [CreateOp(uuid(n), Some(uuid(0)), "", "general", [], 4)]
  }

  lemma {:induction false} RunAppend(s: Store, ops: seq<Op>, op: Op)
    requires Runnable(s, ops) && Enabled(Run(s, ops), op)
    ensures Runnable(s, ops + [op]) && Run(s, ops + [op]) == Apply(Run(s, ops), op)
    decreases |ops|
  {
    hide Enabled, Apply;
    if ops == [] {
      RunNil(Apply(s, op));
      RunCons(s, op, []);
      assert [op] + [] == [] + [op];
    } else {
      RunAppend(Apply(s, ops[0]), ops[1..], op);
      RunCons(s, ops[0], ops[1..] + [op]);
      assert [ops[0]] + (ops[1..] + [op]) == ops + [op];
    }
  }

  lemma WideRoot(uuid: nat -> GoalId, foreignKeys: bool)
    ensures Enabled(Empty(foreignKeys), CreatePlain(uuid(0)))
    ensures Apply(Empty(foreignKeys), CreatePlain(uuid(0))) == Wide(uuid, 0, foreignKeys)
  {
    assert Numbered(uuid, 0, 1) == {uuid(0)};
  }

  lemma WideGrows(uuid: nat -> GoalId, n: nat, foreignKeys: bool)
    requires Distinct(uuid) && n > 0
    ensures var op := CreateOp(uuid(n), Some(uuid(0)), "", "general", [], 4);
      && Enabled(Wide(uuid, n - 1, foreignKeys), op)
      && Apply(Wide(uuid, n - 1, foreignKeys), op) == Wide(uuid, n, foreignKeys)
  {
    var s := Wide(uuid, n - 1, foreignKeys);
    assert Numbered(uuid, 0, n + 1) == Numbered(uuid, 0, n) + {uuid(n)};
    assert uuid(0) in Numbered(uuid, 0, n) && uuid(n) !in Numbered(uuid, 0, n);
    hide Numbered, Distinct;
    assert ChildDepth(s, Some(uuid(0))) == 1;
    assert s.goals[uuid(n) := WideChild(uuid)] == Wide(uuid, n, foreignKeys).goals;
  }

  lemma {:induction false} WideIsReachable(uuid: nat -> GoalId, n: nat, foreignKeys: bool)
    requires Distinct(uuid)
    ensures Runnable(Empty(foreignKeys), CreateWide(uuid, n))
    ensures Run(Empty(foreignKeys), CreateWide(uuid, n)) == Wide(uuid, n, foreignKeys)
  {
    hide Run, Runnable, Apply, Wide, Distinct;
    if n == 0 {
      WideRoot(uuid, foreignKeys);
      RunNil(Wide(uuid, 0, foreignKeys));
      RunCons(Empty(foreignKeys), CreatePlain(uuid(0)), []);
      assert [CreatePlain(uuid(0))] + [] == CreateWide(uuid, 0);
    } else {
      WideIsReachable(uuid, n - 1, foreignKeys);
      WideGrows(uuid, n, foreignKeys);
      RunAppend(Empty(foreignKeys), CreateWide(uuid, n - 1), CreateOp(uuid(n), Some(uuid(0)), "", "general", [], 4));
    }
  }

  lemma {:induction false} NumberedSize(uuid: nat -> GoalId, lo: nat, hi: nat)
    requires Distinct(uuid) && lo <= hi
    ensures |Numbered(uuid, lo, hi)| == hi - lo
    decreases hi
  {
    if lo == hi {
      assert Numbered(uuid, lo, hi) == {};
    } else {
      NumberedSize(uuid, lo, hi - 1);
      assert Numbered(uuid, lo, hi) == Numbered(uuid, lo, hi - 1) + {uuid(hi - 1)};
    }
  }

  /** get_subtree omits descendants: a goal with one child more than a query lists. */
  lemma SubtreeCanOmit(uuid: nat -> GoalId, foreignKeys: bool, list: Listing) returns (ops: seq<Op>)
    requires Distinct(uuid)
    ensures Runnable(Empty(foreignKeys), ops)
    ensures var s := Run(Empty(foreignKeys), ops);
      && uuid(0) in s.goals && GoalStore.Valid(s)
      && (IsListing(s, list) ==> Goals(Subtree(s, list, uuid(0))) < Descendants(s, uuid(0)))
  {
    var n := LIST_LIMIT + 1;
    ops := CreateWide(uuid, n);
    WideIsReachable(uuid, n, foreignKeys);
    ReachableStatesAreValid(foreignKeys, ops);
    hide CreateWide;
    var s := Wide(uuid, n, foreignKeys);
    NumberedSize(uuid, 1, n + 1);
    assert uuid(0) in Numbered(uuid, 0, n + 1);
    assert ChildrenOf(s, uuid(0)) == Numbered(uuid, 1, n + 1);
    ReachSelf(ParentEdges(s.goals), uuid(0));
    assert uuid(0) in s.goals && uuid(0) in Descendants(s, uuid(0));
    hide Run, Runnable, Wide, Numbered, ChildrenOf, GoalStore.Valid, Subtree, Goals, Descendants, Distinct;
    if IsListing(s, list) {
      SubtreeIsDescendants(s, list, uuid(0));
    }
  }

  // ----- A goal deeper than its limit -----

  lemma NoMatchAt(t: string, i: nat)
    requires i < |t| && !IsSpace(t[i])
    ensures MatchEnd(t, i) == None
  {
  }

  lemma SpaceAt(t: string, i: nat)
    requires i < |t| && t[i] == ' '
    ensures IsSpace(t[i])
  {
  }

  lemma MatchInside()
    ensures MatchEnd("a and b", 1) == Some(6)
  {
    var t := "a and b";
    assert t[2..5] == "and" && IsKeyword(t[2..5]);
    assert SpaceEnd(t, 2) == 2 && SpaceEnd(t, 6) == 6;
    assert SpaceEnd(t, 1) == 2 && SpaceEnd(t, 5) == 6;
    hide IsKeyword, IsSpace, SpaceEnd;
    assert KeywordEnd(t, 2) == Some(5) by {
      assert IsSpace(t[5]) by { SpaceAt(t, 5); }
    }
  }

  lemma TwoPieces()
    ensures Split("a and b", 0, 0).0 == ["a", "b"]
  {
    var t := "a and b";
    MatchInside();
    NoMatchAt(t, 0);
    NoMatchAt(t, 6);
    hide MatchEnd;
    assert t[6..] == "b" && t[0..1] == "a";
    assert Split(t, 6, 6).0 == Split(t, 6, 7).0 == ["b"];
    assert Split(t, 0, 0).0 == Split(t, 0, 1).0 == ["a"] + ["b"];
  }

  /** "a and b" is split into its two halves. */
  lemma TwoParts(maxSubgoals: int)
    requires maxSubgoals >= 2
    ensures Parts("a and b", maxSubgoals) == ["a", "b"]
  {
    TwoPieces();
    hide Split;
    assert Strip("a") == "a" && Strip("b") == "b";
    assert ["a", "b"][..1] == ["a"] && ["a"][..0] == [];
  }

  /** plan_long_horizon exceeds max_depth: a goal whose limit is 0 is expanded into goals of
      depth 1, by every plan that may. */
  lemma PlanCanExceedDepth(g: GoalId, foreignKeys: bool) returns (ops: seq<Op>)
    ensures Runnable(Empty(foreignKeys), ops)
    ensures var s := Run(Empty(foreignKeys), ops);
      && g in s.goals && s.goals[g].maxDepth == 0
      && forall t, horizon, maxPerLevel, plan: Plan |
           plan.Plan? && OneLevel(s, t, g, horizon, maxPerLevel, plan) && horizon >= 1 && maxPerLevel >= 2 ::
           |plan.created| == 2 && !DepthsRespected(t, plan.created)
  {
    var create := CreateOp(g, None, "a and b", "general", [], 0);
    var s := Apply(Empty(foreignKeys), create);
    RunNil(s);
    RunCons(Empty(foreignKeys), create, []);
    ops := [create] + [];
    forall t, horizon, maxPerLevel, plan: Plan |
      plan.Plan? && OneLevel(s, t, g, horizon, maxPerLevel, plan) && horizon >= 1 && maxPerLevel >= 2
      ensures |plan.created| == 2 && !DepthsRespected(t, plan.created) {
      TwoParts(maxPerLevel);
      PlanRespectsDepthExactlyWhen(s, t, g, horizon, maxPerLevel, plan);
    }
  }

  // ----- Two schedules that end differently -----

  function Rows3(a: GoalId, b: GoalId, c: GoalId, rowA: Goal, rowB: Goal, rowC: Goal): map<GoalId, Goal> {
    map[a := rowA, b := rowB, c := rowC]
  }

  /** Three goals of the given statuses, of which c depends on a, and a on b. */
  function Chain(a: GoalId, b: GoalId, c: GoalId, statusA: Status, statusB: Status, statusC: Status,
                 foreignKeys: bool): Store
  {
    Store(Rows3(a, b, c, Plain(statusA), Plain(statusB), Plain(statusC)), {(c, a), (a, b)}, foreignKeys)
  }

  lemma ChainRun(a: GoalId, b: GoalId, c: GoalId, foreignKeys: bool) returns (ops: seq<Op>)
    requires a != b && b != c && a != c
    ensures Runnable(Empty(foreignKeys), ops)
    ensures Run(Empty(foreignKeys), ops) == Chain(a, b, c, Completed, Pending, Pending, foreignKeys)
  {
    var create, done, link, late := CreatePlain(c), ExecuteOp(a, true), AddOp(c, a), AddOp(a, b);
    var s0 := Two(a, b, Pending, Pending, {}, foreignKeys);
    var s1 := Apply(s0, create);
    var s2 := Apply(s1, done);
    MarkedIsUpdate(s1, a, Completed);
    NothingEnters<GoalId>({}, a, c);
    var s3 := s2.(deps := {(c, a)});
    assert Apply(s2, link) == s3;
    assert !Reach(s3.deps, b, a) by {
      if Reach(s3.deps, b, a) {
        ClosedReach(s3.deps, {b}, b, a);
      }
    }
    var s4 := Chain(a, b, c, Completed, Pending, Pending, foreignKeys);
    assert Apply(s3, late) == s4 by {
      assert {(c, a)} + {(a, b)} == {(c, a), (a, b)};
      assert s3.goals == s4.goals;
    }
    RunNil(s4);
    assert Enabled(s0, create);
    hide Run, Runnable, Apply, Chain, Two;
    RunCons(s3, late, []);
    RunCons(s2, link, [late] + []);
    RunCons(s1, done, [link] + ([late] + []));
    RunCons(s0, create, [done] + ([link] + ([late] + [])));
    TwoCreated(a, b, foreignKeys, [create] + ([done] + ([link] + ([late] + []))));
    ops := [CreatePlain(a)] + ([CreatePlain(b)] + ([create] + ([done] + ([link] + ([late] + [])))));
  }

  lemma Update3(a: GoalId, b: GoalId, c: GoalId, rowA: Goal, rowB: Goal, rowC: Goal, row: Goal)
    requires a != b && b != c && a != c
    ensures var m := Rows3(a, b, c, rowA, rowB, rowC);
      && m[a := row] == Rows3(a, b, c, row, rowB, rowC) && m[b := row] == Rows3(a, b, c, rowA, row, rowC)
      && m[c := row] == Rows3(a, b, c, rowA, rowB, row)
  {
  }

  lemma ChainMarked(a: GoalId, b: GoalId, c: GoalId, statusA: Status, statusB: Status, statusC: Status,
                    foreignKeys: bool, status: Status)
    requires a != b && b != c && a != c
    ensures var s := Chain(a, b, c, statusA, statusB, statusC, foreignKeys);
      && SetStatus(s, a, status) == Chain(a, b, c, status, statusB, statusC, foreignKeys)
      && SetStatus(s, b, status) == Chain(a, b, c, statusA, status, statusC, foreignKeys)
      && SetStatus(s, c, status) == Chain(a, b, c, statusA, statusB, status, foreignKeys)
  {
    var s := Chain(a, b, c, statusA, statusB, statusC, foreignKeys);
    Update3(a, b, c, Plain(statusA), Plain(statusB), Plain(statusC), Plain(status));
    PlainMarked(statusA, status);
    PlainMarked(statusB, status);
    PlainMarked(statusC, status);
    hide Marked, Plain;
    MarkedIsUpdate(s, a, status);
    MarkedIsUpdate(s, b, status);
    MarkedIsUpdate(s, c, status);
    assert s.goals == Rows3(a, b, c, Plain(statusA), Plain(statusB), Plain(statusC));
    assert s.goals[a] == Plain(statusA) && s.goals[b] == Plain(statusB) && s.goals[c] == Plain(statusC);
    hide Rows3;
  }

  /** Executing c changes its status alone, since nothing depends on it. */
  lemma ChainTop(a: GoalId, b: GoalId, c: GoalId, foreignKeys: bool)
    requires a != b && b != c && a != c
    ensures var s := Chain(a, b, c, Completed, Pending, Pending, foreignKeys);
      c in Ready(s) && Turn(s, c, true) == Chain(a, b, c, Completed, Pending, Completed, foreignKeys)
  {
    var s := Chain(a, b, c, Completed, Pending, Pending, foreignKeys);
    ChainMarked(a, b, c, Completed, Pending, Pending, foreignKeys, Completed);
    var t := Chain(a, b, c, Completed, Pending, Completed, foreignKeys);
    assert NewlyReady(t, c) == {};
    assert Marked(t, {}, Pending).goals == t.goals;
  }

  lemma ChainEnd(a: GoalId, b: GoalId, c: GoalId, statusC: Status, foreignKeys: bool)
    requires a != b && b != c && a != c
    ensures Ready(Chain(a, b, c, Blocked, Failed, statusC, foreignKeys)) == {}
  {
    var u := Chain(a, b, c, Blocked, Failed, statusC, foreignKeys);
    assert (c, a) in u.deps && u.goals[a].status == Blocked;
  }

  lemma ChainDemotes(a: GoalId, b: GoalId, c: GoalId, statusC: Status, foreignKeys: bool)
    requires a != b && b != c && a != c
    ensures NewlyBlocked(Chain(a, b, c, Completed, Failed, statusC, foreignKeys), b) == {a}
  {
    assert (a, b) in Chain(a, b, c, Completed, Failed, statusC, foreignKeys).deps;
  }

  /** When b fails, a is demoted, and c is left as it is. */
  lemma ChainBottom(a: GoalId, b: GoalId, c: GoalId, statusC: Status, foreignKeys: bool)
    requires a != b && b != c && a != c
    ensures var s := Chain(a, b, c, Completed, Pending, statusC, foreignKeys);
      b in Ready(s) && Turn(s, b, false) == Chain(a, b, c, Blocked, Failed, statusC, foreignKeys)
  {
    assert b in Ready(Chain(a, b, c, Completed, Pending, statusC, foreignKeys));
    hide Chain, Marked, NewlyBlocked, Ready;
    ChainMarked(a, b, c, Completed, Pending, statusC, foreignKeys, Failed);
    ChainDemotes(a, b, c, statusC, foreignKeys);
    ChainMarked(a, b, c, Completed, Failed, statusC, foreignKeys, Blocked);
  }

  lemma ChainStart(a: GoalId, b: GoalId, c: GoalId, foreignKeys: bool)
    requires a != b && b != c && a != c
    ensures var s := Chain(a, b, c, Completed, Pending, Pending, foreignKeys); Untried(s) && !Settled(s)
  {
    var s := Chain(a, b, c, Completed, Pending, Pending, foreignKeys);
    assert (a, b) in LiveDeps(s);
  }

  lemma ChainStatus(a: GoalId, b: GoalId, c: GoalId, statusC: Status, foreignKeys: bool)
    requires a != b && b != c && a != c
    ensures c in WithStatus(Chain(a, b, c, Blocked, Failed, statusC, foreignKeys), statusC)
  {
  }

  lemma ScheduleCons(s: Store, g: GoalId, rest: seq<GoalId>, ok: Executor)
    requires g in Ready(s) && Schedule(Turn(s, g, ok(g)), rest, ok)
    ensures Schedule(s, [g] + rest, ok) && After(s, [g] + rest, ok) == After(Turn(s, g, ok(g)), rest, ok)
  {
    assert ([g] + rest)[1..] == rest;
  }

  /** Two schedules from reachable tables that end differently: c depends on a, which was
      completed and then made to depend on b.  If b fails, it matters whether c ran before. */
  lemma SchedulesCanDiverge(a: GoalId, b: GoalId, c: GoalId, foreignKeys: bool)
    returns (ops: seq<Op>, ok: Executor, x: seq<GoalId>, y: seq<GoalId>)
    requires a != b && b != c && a != c
    ensures Runnable(Empty(foreignKeys), ops)
    ensures var s := Run(Empty(foreignKeys), ops);
      && GoalStore.Valid(s) && Untried(s) && !Settled(s)
      && Complete(s, x, ok) && c in WithStatus(After(s, x, ok), Completed)
      && Complete(s, y, ok) && c in WithStatus(After(s, y, ok), Pending)
  {
    ops := ChainRun(a, b, c, foreignKeys);
    ReachableStatesAreValid(foreignKeys, ops);
    var s := Chain(a, b, c, Completed, Pending, Pending, foreignKeys);
    ok := g => g != b;
    ChainStart(a, b, c, foreignKeys);
    ChainTop(a, b, c, foreignKeys);
    ChainBottom(a, b, c, Completed, foreignKeys);
    ChainBottom(a, b, c, Pending, foreignKeys);
    ChainEnd(a, b, c, Completed, foreignKeys);
    ChainEnd(a, b, c, Pending, foreignKeys);
    ChainStatus(a, b, c, Completed, foreignKeys);
    ChainStatus(a, b, c, Pending, foreignKeys);
    hide Turn, Ready, Run, Runnable, Settled, Untried, Chain, WithStatus, GoalStore.Valid;
    ScheduleCons(Turn(s, c, true), b, [], ok);
    ScheduleCons(s, c, [b] + [], ok);
    ScheduleCons(s, b, [], ok);
    x, y := [c] + ([b] + []), [b] + [];
  }
}
