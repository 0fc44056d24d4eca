/** GoalPlanner: the operations of core/goal_planner.py over the two tables. */
module GoalPlanner {
  import opened Wrappers
  import opened Sequences
  import opened Digraph
  import opened GoalStore
  import opened GoalTree
  import opened GoalScheduling
  import opened ExecutionOrder
  import opened Conjunctions
  import opened StrategyLearner

  datatype Plan = NotFound | Plan(levelsExpanded: nat, created: seq<GoalId>)

  // ----- Decomposition -----

  /** Distinct uuids, of which those from the drawn-th on occur nowhere in the tables. */
  ghost predicate Supply(s: Store, uuid: nat -> GoalId, drawn: nat) {
    && (forall i: nat, j: nat :: i < j ==> uuid(i) != uuid(j))
    && (forall k: nat :: drawn <= k ==> Fresh(s, uuid(k)))
  }

  function Child(s: Store, g: GoalId, part: string): Goal
    requires g in s.goals
  {
    Goal(Some(g), ChildDepth(s, Some(g)), part, s.goals[g].domain, [], Pending, s.goals[g].maxDepth)
  }

  /** t is s with one new child of g per part, and nothing else changed. */
  ghost predicate Children(s: Store, t: Store, g: GoalId, parts: seq<string>, ids: seq<GoalId>) {
    && g in s.goals && |ids| == |parts| && NoDup(ids)
    && t.deps == s.deps && t.foreignKeys == s.foreignKeys
    && t.goals.Keys == s.goals.Keys + Elements(ids)
    && (forall x :: x in s.goals ==> t.goals[x] == s.goals[x])
    && (forall i :: 0 <= i < |ids| ==>
          ids[i] !in s.goals && ids[i] in t.goals && t.goals[ids[i]] == Child(s, g, parts[i]))
  }

  ghost predicate Decomposed(s: Store, t: Store, g: GoalId, maxSubgoals: int, ids: seq<GoalId>) {
    g in s.goals &&
    var parts := Parts(s.goals[g].description, maxSubgoals);
    if |parts| <= 1 then ids == [] && t == s else Children(s, t, g, parts, ids)
  }

  /** A plan expands the root alone, at most once, into at most max(1, maxPerLevel) goals. */
  ghost predicate OneLevel(s: Store, t: Store, g: GoalId, horizon: int, maxPerLevel: int, plan: Plan)
    requires plan.Plan?
  {
    var maxSubgoals := if maxPerLevel < 1 then 1 else maxPerLevel;
    && |plan.created| <= maxSubgoals
    && plan.levelsExpanded == (if plan.created == [] then 0 else 1)
    && if horizon <= 0 then plan.created == [] && t == s else Decomposed(s, t, g, maxSubgoals, plan.created)
  }

  lemma DecomposedInto(s: Store, g: GoalId, maxSubgoals: int, parts: seq<string>)
    requires g in s.goals && parts == Parts(s.goals[g].description, maxSubgoals)
    ensures |parts| <= 1 ==> Decomposed(s, s, g, maxSubgoals, [])
    ensures |parts| > 1 ==> forall t, ids :: Children(s, t, g, parts, ids) ==> Decomposed(s, t, g, maxSubgoals, ids)
  {
  }

  lemma NoChildren(s: Store, g: GoalId)
    requires g in s.goals
    ensures Children(s, s, g, [], [])
  {
  }

  lemma ChildrenKeep(s: Store, t: Store, g: GoalId, parts: seq<string>, ids: seq<GoalId>)
    requires Children(s, t, g, parts, ids)
    ensures g in t.goals && t.goals[g] == s.goals[g] && |ids| == |parts|
  {
  }

  lemma ChildAccepted(s: Store, id: GoalId, g: GoalId, part: string)
    requires GoalStore.Valid(s) && g in s.goals
    ensures Create(s, id, Some(g), part, s.goals[g].domain, [], s.goals[g].maxDepth).Ok?
  {
  }

  lemma SupplyAfter(s: Store, g: GoalId, part: string, uuid: nat -> GoalId, drawn: nat)
    requires Supply(s, uuid, drawn) && g in s.goals
    requires Create(s, uuid(drawn), Some(g), part, s.goals[g].domain, [], s.goals[g].maxDepth).Ok?
    ensures Supply(Create(s, uuid(drawn), Some(g), part, s.goals[g].domain, [], s.goals[g].maxDepth).value, uuid,
                   drawn + 1)
  {
    var t := Create(s, uuid(drawn), Some(g), part, s.goals[g].domain, [], s.goals[g].maxDepth).value;
    forall k: nat | drawn + 1 <= k ensures Fresh(t, uuid(k)) {
      assert Fresh(s, uuid(k)) && uuid(drawn) != uuid(k);
    }
  }

  lemma ChildAdded(s: Store, t: Store, g: GoalId, parts: seq<string>, k: nat, ids: seq<GoalId>, id: GoalId)
    requires k < |parts| && Children(s, t, g, parts[..k], ids) && Fresh(t, id)
    requires Create(t, id, Some(g), parts[k], s.goals[g].domain, [], s.goals[g].maxDepth).Ok?
    ensures Children(s, Create(t, id, Some(g), parts[k], s.goals[g].domain, [], s.goals[g].maxDepth).value,
                     g, parts[..k + 1], ids + [id])
  {
  }

  lemma CreatedBounded(s: Store, t: Store, g: GoalId, maxSubgoals: int, ids: seq<GoalId>)
    requires Decomposed(s, t, g, maxSubgoals, ids) && maxSubgoals >= 1
    ensures |ids| <= maxSubgoals
  {
    PartsAreConjunctionless(s.goals[g].description, maxSubgoals);
  }

  /** What auto_decompose creates, it cannot decompose further. */
  lemma ChildIsLeaf(s: Store, t: Store, g: GoalId, maxSubgoals: int, ids: seq<GoalId>, i: nat)
    requires Decomposed(s, t, g, maxSubgoals, ids) && i < |ids|
    ensures ids[i] in t.goals && Conjunctionless(t.goals[ids[i]].description)
  {
    PartsAreConjunctionless(s.goals[g].description, maxSubgoals);
  }

  /** Such a child is pending, one level below its parent, and inherits domain and limit. */
  lemma ChildInherits(s: Store, t: Store, g: GoalId, maxSubgoals: int, ids: seq<GoalId>, i: nat)
    requires Decomposed(s, t, g, maxSubgoals, ids) && i < |ids|
    ensures i < |Parts(s.goals[g].description, maxSubgoals)| && ids[i] !in s.goals && ids[i] in t.goals
    ensures var child, parent := t.goals[ids[i]], s.goals[g];
      && child.parent == Some(g) && child.status == Pending && child.preconditions == []
      && child.description == Parts(parent.description, maxSubgoals)[i]
      && child.domain == parent.domain && child.maxDepth == parent.maxDepth
      && child.depth == if parent.depth >= 8 then 8 else parent.depth + 1
  {
    hide Parts;
  }

  lemma NothingDecomposed(s: Store, t: Store, g: GoalId, maxSubgoals: int, ids: seq<GoalId>)
    requires Decomposed(s, t, g, maxSubgoals, ids) && Conjunctionless(s.goals[g].description)
    ensures ids == [] && t == s
  {
    ConjunctionlessHasOnePart(s.goals[g].description, maxSubgoals);
  }

  // ----- Depth limits -----

  /** No listed goal lies deeper than its own limit. */
  predicate DepthsRespected(t: Store, ids: seq<GoalId>) {
    forall id :: id in ids && id in t.goals ==> t.goals[id].depth <= t.goals[id].maxDepth
  }

  /** A child of the goal, whose depth is clamped, lies within the limit it inherits. */
  predicate RoomBelow(goal: Goal) {
    goal.depth < goal.maxDepth || (goal.depth == 8 && goal.maxDepth >= 8)
  }

  /** Automatic decomposition respects the limit of a goal exactly when it creates nothing or
      the goal has room below it. */
  lemma DepthRespectedExactlyWhen(s: Store, t: Store, g: GoalId, maxSubgoals: int, ids: seq<GoalId>)
    requires RowsChecked(s) && Decomposed(s, t, g, maxSubgoals, ids)
    ensures DepthsRespected(t, ids) <==>
      |Parts(s.goals[g].description, maxSubgoals)| <= 1 || RoomBelow(s.goals[g])
  {
    hide Parts;
    var parts := Parts(s.goals[g].description, maxSubgoals);
    if |parts| > 1 {
      forall i | 0 <= i < |ids|
        ensures ids[i] in t.goals
        ensures t.goals[ids[i]].depth <= t.goals[ids[i]].maxDepth <==> RoomBelow(s.goals[g]) {
        assert t.goals[ids[i]] == Child(s, g, parts[i]);
      }
      assert ids[0] in ids;
    }
  }

  /** So does a whole plan, which is never deeper than one level. */
  lemma PlanRespectsDepthExactlyWhen(s: Store, t: Store, g: GoalId, horizon: int, maxPerLevel: int, plan: Plan)
    requires RowsChecked(s) && g in s.goals && plan.Plan? && OneLevel(s, t, g, horizon, maxPerLevel, plan)
    ensures DepthsRespected(t, plan.created) <==>
      || horizon <= 0 || |Parts(s.goals[g].description, if maxPerLevel < 1 then 1 else maxPerLevel)| <= 1
      || RoomBelow(s.goals[g])
  {
    if horizon > 0 {
      DepthRespectedExactlyWhen(s, t, g, if maxPerLevel < 1 then 1 else maxPerLevel, plan.created);
    }
  }

  lemma MarkOne(s: Store, ids: seq<GoalId>, status: Status, d: GoalId)
    requires d in s.goals
    ensures var m := Marked(s, Elements(ids), status).goals;
      m[d := m[d].(status := status)] == Marked(s, Elements(ids + [d]), status).goals
  {
  }

  /** Turning pending or blocked rows pending changes no unmet count. */
  lemma UnmetIsStable(s: Store, ids: set<GoalId>, d: GoalId)
    requires forall x :: x in ids && x in s.goals ==> s.goals[x].status in {Blocked, Pending}
    ensures var t := Marked(s, ids, Pending);
      |set e | e in t.deps && e.0 == d && e.1 in t.goals && t.goals[e.1].status != Completed| == 0 <==> AllMet(s, d)
  {
    var t := Marked(s, ids, Pending);
    var unmet := set e | e in t.deps && e.0 == d && e.1 in t.goals && t.goals[e.1].status != Completed;
    assert forall e :: e in unmet <==> e in s.deps && e.0 == d && e.1 in s.goals && s.goals[e.1].status != Completed;
    assert |unmet| == 0 <==> unmet == {};
  }

  lemma ReadyExactly(s: Store, g: GoalId)
    ensures g in Ready(s) <==>
      && g in s.goals && s.goals[g].status == Pending
      && forall d :: d in s.goals && (g, d) in s.deps ==> s.goals[d].status == Completed
  {
    if g in s.goals && forall d :: d in s.goals && (g, d) in s.deps ==> s.goals[d].status == Completed {
      assert AllMet(s, g);
    }
    if g in Ready(s) {
      forall d | d in s.goals && (g, d) in s.deps ensures s.goals[d].status == Completed {
        assert (g, d).1 == d;
      }
    }
  }

  /** get_blocked_goals in terms of statuses. */
  lemma PendingBlockedExactly(s: Store, g: GoalId)
    ensures g in PendingBlocked(s) <==>
      && g in s.goals && s.goals[g].status == Pending
      && exists d :: d in s.goals && (g, d) in s.deps && s.goals[d].status == Failed
  {
    if d :| d in s.goals && (g, d) in s.deps && s.goals[d].status == Failed {
      assert g in s.goals ==> (g, d) in LiveDeps(s);
    }
    if g in PendingBlocked(s) {
      var e :| e in LiveDeps(s) && s.goals[e.0].status == Pending && s.goals[e.1].status == Failed && e.0 == g;
      assert (g, e.1) == e;
    }
  }

  /** The dependents that a completion returns, in terms of statuses. */
  lemma ReadyAgain(s: Store, g: GoalId, x: GoalId)
    ensures x in NewlyReady(s, g) <==>
      && x in s.goals && (x, g) in s.deps && (s.goals[x].status == Blocked || s.goals[x].status == Pending)
      && forall d :: d in s.goals && (x, d) in s.deps ==> s.goals[d].status == Completed
  {
    if x in s.goals && forall d :: d in s.goals && (x, d) in s.deps ==> s.goals[d].status == Completed {
      assert AllMet(s, x);
    }
    if x in NewlyReady(s, g) {
      forall d | d in s.goals && (x, d) in s.deps ensures s.goals[d].status == Completed {
        assert (x, d).1 == d;
      }
    }
    assert (x, g) in s.deps && x in s.goals ==> x in Dependents(s, g);
  }

  lemma AllReadyAgain(s: Store, g: GoalId)
    ensures forall x :: x in NewlyReady(s, g) <==>
      && x in s.goals && (x, g) in s.deps && (s.goals[x].status == Blocked || s.goals[x].status == Pending)
      && forall d :: d in s.goals && (x, d) in s.deps ==> s.goals[d].status == Completed
  {
    hide NewlyReady;
    forall x ensures x in NewlyReady(s, g) <==>
      && x in s.goals && (x, g) in s.deps && (s.goals[x].status == Blocked || s.goals[x].status == Pending)
      && forall d :: d in s.goals && (x, d) in s.deps ==> s.goals[d].status == Completed {
      ReadyAgain(s, g, x);
    }
  }

  lemma CountRow(rows: seq<(GoalId, GoalId)>, e: (GoalId, GoalId), g: GoalId)
    requires e !in rows
    ensures |set x | x in rows + [e] && x.0 == g| == |set x | x in rows && x.0 == g| + if e.0 == g then 1 else 0
  {
    assert (set x | x in rows + [e] && x.0 == g) == (set x | x in rows && x.0 == g) + if e.0 == g then {e} else {};
  }

  // ----- The state of Kahn's loop -----

  /** inDegree counts the open rows; queued and listed goals are those with none. */
  ghost predicate Kahn(s: Store, rows: seq<GoalId>, inDegree: map<GoalId, int>, order: seq<GoalId>,
                       queue: seq<GoalId>) {
    && (forall g :: g in rows <==> g in Live(s))
    && inDegree.Keys == Elements(rows)
    && NoDup(order + queue) && Elements(order + queue) <= Elements(rows)
    && RowsBefore(s, order)
    && (forall g :: g in rows ==> inDegree[g] == |Open(s, g, order)|)
    && (forall g :: g in rows ==> (inDegree[g] == 0 <==> g in order + queue))
  }

  ghost predicate ServedCounts(s: Store, rows: seq<GoalId>, k: nat, inDegree: map<GoalId, int>, order: seq<GoalId>,
                               current: GoalId)
    requires Elements(rows) <= inDegree.Keys
  {
    forall j :: 0 <= j < |rows| ==>
      rows[j] in Elements(rows)
      && inDegree[rows[j]] == |Open(s, rows[j], if j < k then order + [current] else order)|
  }

  /** As above, with `current` served to the first k goals only. */
  ghost predicate KahnStep(s: Store, rows: seq<GoalId>, k: nat, inDegree: map<GoalId, int>, order: seq<GoalId>,
                           current: GoalId, queue: seq<GoalId>)
  {
    var listed := order + [current];
    && k <= |rows| && NoDup(rows)
    && (forall g :: g in rows <==> g in Live(s))
    && inDegree.Keys == Elements(rows)
    && NoDup(listed + queue) && Elements(listed + queue) <= Elements(rows)
    && RowsBefore(s, listed)
    && ServedCounts(s, rows, k, inDegree, order, current)
    && (forall g :: g in rows ==> (inDegree[g] == 0 <==> g in listed + queue))
  }

  lemma KahnStart(s: Store, rows: seq<GoalId>, inDegree: map<GoalId, int>, queue: seq<GoalId>)
    requires forall g :: g in rows <==> g in Live(s)
    requires inDegree.Keys == Elements(rows)
    requires forall g :: g in rows ==> inDegree[g] == |Open(s, g, [])|
    requires NoDup(queue) && forall g :: g in queue <==> g in rows && inDegree[g] == 0
    ensures Kahn(s, rows, inDegree, [], queue)
  {
    assert [] + queue == queue;
  }

  lemma KahnEnd(s: Store, rows: seq<GoalId>, inDegree: map<GoalId, int>, order: seq<GoalId>)
    requires Acyclic(s.deps) && Kahn(s, rows, inDegree, order, [])
    ensures IsExecutionOrder(s, order)
  {
    assert order + [] == order;
    forall g | g in order ensures g in Live(s) {
      assert g in Elements(order) && g in Elements(rows);
    }
    KahnIsExact(s, order);
  }

  lemma KahnPop(s: Store, rows: seq<GoalId>, inDegree: map<GoalId, int>, order: seq<GoalId>, queue: seq<GoalId>)
    requires Kahn(s, rows, inDegree, order, queue) && NoDup(rows) && queue != []
    ensures KahnStep(s, rows, 0, inDegree, order, queue[0], queue[1..])
  {
    var c := queue[0];
    var listed := order + [c];
    assert listed + queue[1..] == order + queue;
    assert c in order + queue && c in Elements(order + queue);
    assert Open(s, c, order) == {};
    forall i, e | 0 <= i < |listed| && e in s.deps && e.0 == listed[i] ensures e.1 in listed[..i] {
      if i == |order| {
        assert e !in Open(s, c, order);
        assert listed[..i] == order;
      } else {
        assert listed[i] == order[i] && listed[..i] == order[..i];
      }
    }
    forall j | 0 <= j < |rows| ensures inDegree[rows[j]] == |Open(s, rows[j], order)| {
      assert rows[j] in rows;
    }
  }

  /** Serving one more goal lowers its counter exactly when it depends on the one listed. */
  lemma CountsServe(s: Store, rows: seq<GoalId>, k: nat, inDegree: map<GoalId, int>, order: seq<GoalId>,
                    current: GoalId)
    requires NoDup(rows) && k < |rows| && inDegree.Keys == Elements(rows) && current !in order
    requires ServedCounts(s, rows, k, inDegree, order, current)
    ensures rows[k] in inDegree
    ensures (rows[k], current) !in s.deps ==> ServedCounts(s, rows, k + 1, inDegree, order, current)
    ensures (rows[k], current) in s.deps ==>
      inDegree[rows[k]] > 0
      && ServedCounts(s, rows, k + 1, inDegree[rows[k] := inDegree[rows[k]] - 1], order, current)
  {
    var g := rows[k];
    assert g in Elements(rows);
    OpenAfter(s, g, order, current);
    if (g, current) in s.deps {
      assert (g, current) in Open(s, g, order);
    }
    hide Open;
  }

  lemma NotBefore(order: seq<GoalId>, current: GoalId, queue: seq<GoalId>)
    requires NoDup(order + [current] + queue)
    ensures current !in order
  {
    var all := order + [current] + queue;
    assert all[|order|] == current && forall i :: 0 <= i < |order| ==> all[i] == order[i];
  }

  lemma KahnServe(s: Store, rows: seq<GoalId>, k: nat, inDegree: map<GoalId, int>, order: seq<GoalId>,
                  current: GoalId, queue: seq<GoalId>)
    requires KahnStep(s, rows, k, inDegree, order, current, queue) && k < |rows|
    ensures rows[k] in inDegree
    ensures (rows[k], current) !in s.deps ==> KahnStep(s, rows, k + 1, inDegree, order, current, queue)
    ensures (rows[k], current) in s.deps ==>
      var d := inDegree[rows[k] := inDegree[rows[k]] - 1];
      KahnStep(s, rows, k + 1, d, order, current, if d[rows[k]] == 0 then queue + [rows[k]] else queue)
  {
    var g := rows[k];
    var listed := order + [current];
    var all := listed + queue;
    assert g in rows && g in inDegree.Keys;
    NotBefore(order, current, queue);
    CountsServe(s, rows, k, inDegree, order, current);
    hide ServedCounts, Open, Live, RowsBefore;
    if (g, current) in s.deps {
      var d := inDegree[g := inDegree[g] - 1];
      assert g !in all;
      if d[g] == 0 {
        NoDupAppend(all, g);
        assert listed + (queue + [g]) == all + [g];
      }
    }
  }

  lemma KahnProgress(s: Store, rows: seq<GoalId>, inDegree: map<GoalId, int>, order: seq<GoalId>,
                     current: GoalId, queue: seq<GoalId>)
    requires KahnStep(s, rows, |rows|, inDegree, order, current, queue)
    ensures Kahn(s, rows, inDegree, order + [current], queue) && |order| < |rows|
  {
    forall g | g in rows ensures inDegree[g] == |Open(s, g, order + [current])| {
      var j :| 0 <= j < |rows| && rows[j] == g;
    }
    NoDupCardinality(order + [current] + queue);
    NoDupCardinality(rows);
    SubsetSize(Elements(order + [current] + queue), Elements(rows));
  }

  // ----- The planner -----

  class Planner {
    var goals: map<GoalId, Goal>
    var deps: set<(GoalId, GoalId)>
    const foreignKeys: bool
    const learner: DecompositionStrategyLearner

    function Tables(): Store
      reads this
    {
      Store(goals, deps, foreignKeys)
    }

    ghost predicate Valid()
      reads this, learner
    {
      GoalStore.Valid(Tables()) && learner.Valid()
    }

    constructor (foreignKeys: bool)
      ensures Valid() && Tables() == Empty(foreignKeys) && learner.history == [] && fresh(learner)
    {
      this.foreignKeys := foreignKeys;
      goals, deps := map[], {};
      learner := new DecompositionStrategyLearner();
      new;
      EmptyIsValid(foreignKeys);
    }

    // ----- CRUD -----

    method CreateGoal(uuid: GoalId, parent: Option<GoalId>, description: string, domain: string,
                      preconditions: seq<string>, maxDepth: int) returns (r: Result<GoalId>)
      requires Valid() && Fresh(Tables(), uuid) && parent != Some(uuid)
      modifies this`goals
      ensures Valid()
      ensures r.Ok? ==> r.value == uuid
      ensures r.Refused? ==> Tables() == old(Tables())
      ensures Create(old(Tables()), uuid, parent, description, domain, preconditions, maxDepth)
           == if r.Ok? then Ok(Tables()) else Refused
    {
      ghost var before := Tables();
      StepKeepsValid(before, CreateOp(uuid, parent, description, domain, preconditions, maxDepth));
      var depth := 0;
      if parent.Some? && parent.value in goals {
        depth := goals[parent.value].depth + 1;
        if depth > 8 {
          depth := 8;
        }
      }
      if domain !in DOMAINS || (foreignKeys && parent.Some? && parent.value !in goals) {
        return Refused;
      }
      goals := goals[uuid := Goal(parent, depth, description, domain, preconditions, Pending, maxDepth)];
      return Ok(uuid);
    }

    /** update_goal restricted to its status field. */
    method UpdateStatus(id: GoalId, status: Status) returns (found: bool)
      requires Valid()
      modifies this`goals
      ensures Valid() && Tables() == SetStatus(old(Tables()), id, status) && found == (id in old(goals))
      ensures goals == if found then old(goals)[id := old(goals)[id].(status := status)] else old(goals)
    {
      MarkedKeepsValid(Tables(), {id}, status);
      found := id in goals;
      if found {
        goals := goals[id := goals[id].(status := status)];
      }
      assert goals == SetStatus(old(Tables()), id, status).goals;
    }

    /** The rows a cascading delete of id removes: the rows whose parent chain meets id. */
    method Cascade(id: GoalId) returns (gone: set<GoalId>)
      requires id in goals
      ensures gone == Descendants(Tables(), id)
    {
      ghost var E := ParentEdges(goals);
      gone := {id};
      var more := set g | g in goals && goals[g].parent == Some(id) && g != id;
      ReachSelf(E, id);
      while more != {}
        invariant id in gone && gone <= goals.Keys
        invariant forall g :: g in gone ==> Reach(E, g, id)
        invariant more == set g | g in goals && g !in gone && goals[g].parent.Some? && goals[g].parent.value in gone
        decreases goals.Keys - gone
      {
        forall g | g in more ensures Reach(E, g, id) {
          assert (g, goals[g].parent.value) in E;
          ReachSelf(E, g);
          ReachEdge(E, g, g, goals[g].parent.value);
          ReachTrans(E, g, goals[g].parent.value, id);
        }
        assert goals.Keys - (gone + more) < goals.Keys - gone;
        gone := gone + more;
        more := set g | g in goals && g !in gone && goals[g].parent.Some? && goals[g].parent.value in gone;
      }
      forall e | e in E && e.1 in gone ensures e.0 in gone {
        assert e.0 !in more;
      }
      forall g | g in goals && Reach(E, g, id) ensures g in gone {
        BackwardClosed(E, gone, g, id);
      }
    }

    method DeleteGoal(id: GoalId) returns (deleted: bool)
      requires Valid()
      modifies this`goals, this`deps
      ensures Valid() && Tables() == Delete(old(Tables()), id) && deleted == (id in old(goals))
      ensures !foreignKeys ==> goals == old(goals) - {id} && deps == old(deps)
    {
      DeleteKeepsValid(Tables(), id);
      deleted := id in goals;
      if deleted {
        var gone := {id};
        if foreignKeys {
          gone := Cascade(id);
          deps := set e | e in deps && e.0 !in gone && e.1 !in gone;
        }
        goals := map g | g in goals && g !in gone :: goals[g];
      }
    }

    // ----- Dependencies -----

    /** Depth-first search along dependency rows from dependsOn for goal. */
    method HasCircularDependency(goal: GoalId, dependsOn: GoalId) returns (circular: bool)
      ensures circular <==> Reach(deps, dependsOn, goal)
    {
      var visited: set<GoalId> := {};
      var stack := [dependsOn];
      ghost var nodes := Nodes(deps) + {dependsOn};
      ReachSelf(deps, dependsOn);
      while |stack| > 0
        invariant forall x :: x in stack ==> x in nodes && Reach(deps, dependsOn, x)
        invariant dependsOn in visited || dependsOn in stack
        invariant forall e :: e in deps && e.0 in visited ==> e.1 in visited || e.1 in stack
        invariant goal !in visited
        decreases nodes - visited, |stack|
      {
        var current := stack[|stack| - 1];
        ghost var popped := stack;
        stack := stack[..|stack| - 1];
        assert popped == stack + [current];
        if current in visited {
          continue;
        }
        visited := visited + {current};
        if current == goal {
          return true;
        }
        var rows := Rows(set e | e in deps && e.0 == current :: e.1);
        for k := 0 to |rows|
          invariant forall x :: x in stack ==> x in nodes && Reach(deps, dependsOn, x)
          invariant forall x :: x in popped ==> x == current || x in stack
          invariant forall j :: 0 <= j < k ==> rows[j] in visited || rows[j] in stack
        {
          if rows[k] !in visited {
            assert rows[k] in rows;
            ReachEdge(deps, dependsOn, current, rows[k]);
            stack := stack + [rows[k]];
          }
        }
        forall e | e in deps && e.0 in visited ensures e.1 in visited || e.1 in stack {
          if e.0 == current {
            assert e.1 in rows;
          }
        }
      }
      if Reach(deps, dependsOn, goal) {
        ClosedReach(deps, visited, dependsOn, goal);
      }
      return false;
    }

    method AddDependency(goal: GoalId, dependsOn: GoalId) returns (added: bool)
      requires Valid()
      modifies this`deps
      ensures Valid() && Tables() == GoalStore.AddDependency(old(Tables()), goal, dependsOn)
      ensures deps == if added then old(deps) + {(goal, dependsOn)} else old(deps)
      ensures added == AcceptsDependency(old(Tables()), goal, dependsOn)
    {
      StepKeepsValid(Tables(), AddOp(goal, dependsOn));
      var circular := HasCircularDependency(goal, dependsOn);
      if circular {
        return false;
      }
      if foreignKeys && !(goal in goals && dependsOn in goals) {
        return false;
      }
      deps := deps + {(goal, dependsOn)};
      return true;
    }

    method RemoveDependency(goal: GoalId, dependsOn: GoalId) returns (removed: bool)
      requires Valid()
      modifies this`deps
      ensures Valid() && Tables() == GoalStore.RemoveDependency(old(Tables()), goal, dependsOn)
      ensures removed == ((goal, dependsOn) in old(deps)) && deps == old(deps) - {(goal, dependsOn)}
    {
      StepKeepsValid(Tables(), RemoveOp(goal, dependsOn));
      removed := (goal, dependsOn) in deps;
      deps := deps - {(goal, dependsOn)};
    }

    // ----- Queries -----

    method GetReadyGoals() returns (ready: seq<GoalId>)
      ensures NoDup(ready) && Elements(ready) == Ready(Tables())
      ensures forall g :: g in ready <==>
        && g in goals && goals[g].status == Pending
        && forall d :: d in goals && (g, d) in deps ==> goals[d].status == Completed
    {
      ready := Rows(set g | g in goals && goals[g].status == Pending
                         && !exists e :: e in deps && e.0 == g && e.1 in goals && goals[e.1].status != Completed);
      forall g ensures g in ready <==>
        && g in goals && goals[g].status == Pending
        && forall d :: d in goals && (g, d) in deps ==> goals[d].status == Completed {
        ReadyExactly(Tables(), g);
        assert g in ready <==> g in Elements(ready);
      }
    }

    method GetBlockedGoals() returns (blocked: seq<GoalId>)
      ensures NoDup(blocked) && Elements(blocked) == PendingBlocked(Tables())
      ensures forall g :: g in blocked <==>
        && g in goals && goals[g].status == Pending
        && exists d :: d in goals && (g, d) in deps && goals[d].status == Failed
    {
      blocked := Rows(set g | g in goals && goals[g].status == Pending
                           && exists e :: e in deps && e.0 == g && e.1 in goals && goals[e.1].status == Failed);
      forall g ensures g in blocked <==>
        && g in goals && goals[g].status == Pending
        && exists d :: d in goals && (g, d) in deps && goals[d].status == Failed {
        PendingBlockedExactly(Tables(), g);
        assert g in blocked <==> g in Elements(blocked);
      }
    }

    /** get_subtree, with `list` for what each query for children returns. */
    method GetSubtree(id: GoalId, list: Listing) returns (tree: Option<Tree>)
      requires Valid() && IsListing(Tables(), list)
      ensures tree == if id in goals then Some(Subtree(Tables(), list, id)) else None
      ensures id in goals ==>
        && Goals(tree.value) <= Descendants(Tables(), id)
        && (Goals(tree.value) == Descendants(Tables(), id) <==>
              forall x :: x in Descendants(Tables(), id) ==> |ChildrenOf(Tables(), x)| <= 100)
      decreases Descendants(Tables(), id)
    {
      if id !in goals {
        return None;
      }
      var children := list(id);
      var subtrees := [];
      for i := 0 to |children|
        invariant |subtrees| == i
        invariant forall k :: 0 <= k < i ==> children[k] in goals && subtrees[k] == Subtree(Tables(), list, children[k])
      {
        assert children[i] in Elements(children);
        ChildBelow(Tables(), id, children[i]);
        var subtree := GetSubtree(children[i], list);
        if subtree.Some? {
          subtrees := subtrees + [subtree.value];
        }
      }
      SubtreesOf(Tables(), list, id, subtrees);
      SubtreeIsDescendants(Tables(), list, id);
      return Some(Tree(id, subtrees));
    }

    // ----- Propagation -----

    method PropagateFailure(g: GoalId) returns (newlyBlocked: seq<GoalId>)
      requires Valid()
      modifies this`goals
      ensures Valid() && Tables() == GoalStore.PropagateFailure(old(Tables()), g)
      ensures NoDup(newlyBlocked) && Elements(newlyBlocked) == NewlyBlocked(old(Tables()), g)
      ensures forall x :: x in newlyBlocked <==>
        && x in old(goals) && (x, g) in deps
        && old(goals[x]).status != Failed && old(goals[x]).status != Blocked
    {
      ghost var before := Tables();
      MarkedKeepsValid(before, NewlyBlocked(before, g), Blocked);
      var dependents := Rows(Dependents(Tables(), g));
      newlyBlocked := [];
      for k := 0 to |dependents|
        invariant deps == before.deps && goals == Marked(before, Elements(newlyBlocked), Blocked).goals
        invariant NoDup(newlyBlocked)
        invariant forall x :: x in newlyBlocked <==> x in dependents[..k] && x in NewlyBlocked(before, g)
      {
        var d := dependents[k];
        assert d in dependents && d !in dependents[..k] && dependents[..k + 1] == dependents[..k] + [d];
        if goals[d].status != Failed && goals[d].status != Blocked {
          MarkOne(before, newlyBlocked, Blocked, d);
          goals := goals[d := goals[d].(status := Blocked)];
          newlyBlocked := newlyBlocked + [d];
        }
      }
      assert dependents[..|dependents|] == dependents;
      assert Elements(newlyBlocked) == NewlyBlocked(before, g);
      assert forall x :: x in before.goals ==> (x in Dependents(before, g) <==> (x, g) in before.deps);
    }

    method PropagateCompletion(g: GoalId) returns (newlyReady: seq<GoalId>)
      requires Valid()
      modifies this`goals
      ensures Valid() && Tables() == GoalStore.PropagateCompletion(old(Tables()), g)
      ensures NoDup(newlyReady) && Elements(newlyReady) == Dependents(Tables(), g) * Ready(Tables())
      ensures forall x :: x in newlyReady <==>
        && x in old(goals) && (x, g) in deps && (old(goals[x]).status == Blocked || old(goals[x]).status == Pending)
        && forall d :: d in old(goals) && (x, d) in deps ==> old(goals[d]).status == Completed
    {
      ghost var before := Tables();
      MarkedKeepsValid(before, NewlyReady(before, g), Pending);
      var dependents := Rows(Dependents(Tables(), g));
      newlyReady := [];
      for k := 0 to |dependents|
        invariant deps == before.deps && goals == Marked(before, Elements(newlyReady), Pending).goals
        invariant NoDup(newlyReady)
        invariant forall x :: x in newlyReady <==> x in dependents[..k] && x in NewlyReady(before, g)
      {
        var d := dependents[k];
        assert d in dependents && d !in dependents[..k] && dependents[..k + 1] == dependents[..k] + [d];
        var unmet := |set e | e in deps && e.0 == d && e.1 in goals && goals[e.1].status != Completed|;
        UnmetIsStable(before, Elements(newlyReady), d);
        assert goals[d] == before.goals[d];
        if goals[d].status in {Blocked, Pending} && unmet == 0 {
          MarkOne(before, newlyReady, Pending, d);
          goals := goals[d := goals[d].(status := Pending)];
          newlyReady := newlyReady + [d];
        }
      }
      assert dependents[..|dependents|] == dependents;
      assert Elements(newlyReady) == NewlyReady(before, g);
      CompletionReturnsTheReady(before, g);
      AllReadyAgain(before, g);
    }

    // ----- Ordering -----

    /** The in-degree map: one count per dependency row of a selected goal. */
    method InDegrees(rows: seq<GoalId>) returns (inDegree: map<GoalId, int>)
      ensures inDegree.Keys == Elements(rows)
      ensures forall g :: g in rows ==> inDegree[g] == |Open(Tables(), g, [])|
    {
      inDegree := map g | g in rows :: 0;
      var depRows := Rows(set e | e in deps && e.0 in rows);
      for k := 0 to |depRows|
        invariant inDegree.Keys == Elements(rows)
        invariant forall g :: g in rows ==> inDegree[g] == |set e | e in depRows[..k] && e.0 == g|
      {
        var e := depRows[k];
        assert e in depRows && depRows[..k + 1] == depRows[..k] + [e];
        forall g | g in rows
          ensures |set x | x in depRows[..k + 1] && x.0 == g|
               == |set x | x in depRows[..k] && x.0 == g| + if e.0 == g then 1 else 0 {
          CountRow(depRows[..k], e, g);
        }
        inDegree := inDegree[e.0 := inDegree[e.0] + 1];
      }
      forall g | g in rows ensures inDegree[g] == |Open(Tables(), g, [])| {
        assert depRows[..|depRows|] == depRows;
        assert (set e | e in depRows[..|depRows|] && e.0 == g) == Open(Tables(), g, []);
      }
    }

    /** Kahn's algorithm over the pending and active goals. */
    method ExecutionOrder() returns (order: seq<GoalId>)
      requires Valid()
      ensures IsExecutionOrder(Tables(), order)
    {
      hide Kahn, KahnStep, IsExecutionOrder;
      ghost var s := Tables();
      var rows := Rows(Live(Tables()));
      var inDegree := InDegrees(rows);
      var queue: seq<GoalId> := [];
      for k := 0 to |rows|
        invariant NoDup(queue)
        invariant forall g :: g in queue <==> g in rows[..k] && inDegree[g] == 0
      {
        assert rows[..k + 1] == rows[..k] + [rows[k]] && rows[k] !in rows[..k];
        if inDegree[rows[k]] == 0 {
          queue := queue + [rows[k]];
        }
      }
      assert rows[..|rows|] == rows;
      KahnStart(s, rows, inDegree, queue);

      order := [];
      while |queue| > 0
        invariant Kahn(s, rows, inDegree, order, queue)
        decreases |rows| - |order|
      {
        var current := queue[0];
        ghost var oldQueue, oldOrder := queue, order;
        assert queue == [current] + queue[1..];
        queue := queue[1..];
        order := order + [current];
        KahnPop(s, rows, inDegree, oldOrder, oldQueue);
        for k := 0 to |rows|
          invariant KahnStep(s, rows, k, inDegree, oldOrder, current, queue)
        {
          KahnServe(s, rows, k, inDegree, oldOrder, current, queue);
          if (rows[k], current) in deps {
            inDegree := inDegree[rows[k] := inDegree[rows[k]] - 1];
            if inDegree[rows[k]] == 0 {
              queue := queue + [rows[k]];
            }
          }
        }
        KahnProgress(s, rows, inDegree, oldOrder, current, queue);
      }
      KahnEnd(s, rows, inDegree, order);
    }

    // ----- Execution -----

    /** execute_goal: `succeeds` is whether the executor returned a completed status; a
        different status and an exception both fail the goal. */
    method ExecuteGoal(id: GoalId, succeeds: bool) returns (found: bool)
      requires Valid()
      modifies this`goals, learner
      ensures Valid() && Tables() == Execute(old(Tables()), id, succeeds) && found == (id in old(goals))
      ensures goals == if found then old(goals)[id := old(goals)[id].(status := if succeeds then Completed else Failed)]
                       else old(goals)
      ensures learner.history == old(learner.history) +
        if id in old(goals) then [Attempt(old(goals[id].domain), old(goals[id].preconditions), succeeds)] else []
    {
      MarkedKeepsValid(Tables(), {id}, if succeeds then Completed else Failed);
      if id !in goals {
        assert goals == Execute(Tables(), id, succeeds).goals;
        return false;
      }
      goals := goals[id := goals[id].(status := Active)];
      goals := goals[id := goals[id].(status := if succeeds then Completed else Failed)];
      assert goals == Execute(old(Tables()), id, succeeds).goals;
      learner.RecordDecomposition(goals[id].domain, goals[id].preconditions, succeeds);
      return true;
    }

    // ----- Decomposition -----

    /** auto_decompose.  The k-th uuid drawn is uuid(k); `drawn` have been used before. */
    method AutoDecompose(g: GoalId, maxSubgoals: int, uuid: nat -> GoalId, drawn: nat) returns (ids: seq<GoalId>)
      requires Valid() && Supply(Tables(), uuid, drawn)
      modifies this`goals
      ensures Valid() && Supply(Tables(), uuid, drawn + |ids|)
      ensures if g in old(goals) then Decomposed(old(Tables()), Tables(), g, maxSubgoals, ids)
              else ids == [] && Tables() == old(Tables())
    {
      if g !in goals {
        return [];
      }
      hide Create, Supply, Children, Fresh, GoalStore.Valid, learner.Valid, Parts, Decomposed;
      ghost var s := Tables();
      var goal := goals[g];
      var parts := Parts(goal.description, maxSubgoals);
      DecomposedInto(s, g, maxSubgoals, parts);
      if |parts| <= 1 {
        return [];
      }
      ids := [];
      var next := drawn;
      NoChildren(s, g);
      for k := 0 to |parts|
        invariant Valid() && Supply(Tables(), uuid, next) && next == drawn + k
        invariant Children(s, Tables(), g, parts[..k], ids) && |ids| == k
      {
        ghost var t := Tables();
        var id := uuid(next);
        ChildrenKeep(s, t, g, parts[..k], ids);
        ChildAccepted(t, id, g, parts[k]);
        ghost var u := Create(t, id, Some(g), parts[k], goal.domain, [], goal.maxDepth);
        SupplyAfter(t, g, parts[k], uuid, next);
        ChildAdded(s, t, g, parts, k, ids, id);
        var r := CreateGoal(id, Some(g), parts[k], goal.domain, [], goal.maxDepth);
        assert Ok(Tables()) == u;
        if r.Ok? {
          ids := ids + [r.value];
        }
        next := next + 1;
      }
      assert parts[..|parts|] == parts;
    }

    method PlanLongHorizon(g: GoalId, horizon: int, maxPerLevel: int, uuid: nat -> GoalId) returns (plan: Plan)
      requires Valid() && Supply(Tables(), uuid, 0)
      modifies this`goals
      ensures Valid()
      ensures g !in old(goals) ==> plan == NotFound && Tables() == old(Tables())
      ensures g in old(goals) ==> plan.Plan? && OneLevel(old(Tables()), Tables(), g, horizon, maxPerLevel, plan)
      ensures g in old(goals) ==> (DepthsRespected(Tables(), plan.created) <==>
        || horizon <= 0 || |Parts(old(goals[g].description), if maxPerLevel < 1 then 1 else maxPerLevel)| <= 1
        || RoomBelow(old(goals[g])))
    {
      if g !in goals {
        return NotFound;
      }
      hide Supply, Decomposed, Planner.Valid, Conjunctionless, Parts, RoomBelow, DepthsRespected;
      ghost var s := Tables();
      var levels := if horizon < 0 then 0 else horizon;
      var maxSubgoals := if maxPerLevel < 1 then 1 else maxPerLevel;
      var frontier := [g];
      var created, levelsExpanded := [], 0;
      var drawn: nat := 0;
      for level := 0 to levels
        invariant Valid() && Supply(Tables(), uuid, drawn)
        invariant levelsExpanded == level && level <= 1
        invariant level == 0 ==> Tables() == s && frontier == [g] && created == []
        invariant level == 1 ==>
          created != [] && frontier == created && Decomposed(s, Tables(), g, maxSubgoals, created)
      {
        ghost var t, before := Tables(), created;
        var nextFrontier := [];
        for i := 0 to |frontier|
          invariant Valid() && Supply(Tables(), uuid, drawn) && created == before + nextFrontier
          invariant level == 0 ==> if i == 0 then Tables() == s && nextFrontier == []
                                   else Decomposed(s, Tables(), g, maxSubgoals, nextFrontier)
          invariant level == 1 ==> Tables() == t && nextFrontier == []
        {
          if level == 1 {
            ChildIsLeaf(s, t, g, maxSubgoals, created, i);
          }
          ghost var u := Tables();
          var ids := AutoDecompose(frontier[i], maxSubgoals, uuid, drawn);
          if level == 1 {
            NothingDecomposed(u, Tables(), frontier[i], maxSubgoals, ids);
          }
          assert created + ids == before + (nextFrontier + ids);
          assert nextFrontier == [] ==> nextFrontier + ids == ids;
          created, nextFrontier, drawn := created + ids, nextFrontier + ids, drawn + |ids|;
        }
        if |nextFrontier| == 0 {
          break;
        }
        levelsExpanded := levelsExpanded + 1;
        frontier := nextFrontier;
      }
      if created != [] {
        CreatedBounded(s, Tables(), g, maxSubgoals, created);
      }
      plan := Plan(levelsExpanded, created);
      PlanRespectsDepthExactlyWhen(s, Tables(), g, horizon, maxPerLevel, plan);
    }
  }
}
