/** The planner's two tables and what one call of each planner operation does to them.
    The goals table is a map from identifier to row; goal_dependencies is a set of
    (goal, depends-on) pairs, as its primary key makes it.  `foreignKeys` says whether
    the connection enforces REFERENCES ... ON DELETE CASCADE. */
module GoalStore {
  import opened Wrappers
  import opened Digraph

  type GoalId = string

  datatype Status = Pending | Active | Completed | Failed | Blocked

  datatype Goal = Goal(
    parent: Option<GoalId>,
    depth: nat,
    description: string,
    domain: string,
    preconditions: seq<string>,
    status: Status,
    maxDepth: int)

  datatype Store = Store(
    goals: map<GoalId, Goal>,
    deps: set<(GoalId, GoalId)>,
    foreignKeys: bool)

  const DOMAINS: set<string> := {"code", "math", "reasoning", "creative", "general"}
  const DEPTH_CAP := 8

  // ----- Queries -----

  /** get_dependents: rows of existing goals that depend on g. */
  function Dependents(s: Store, g: GoalId): set<GoalId> {
    set e | e in s.deps && e.1 == g && e.0 in s.goals :: e.0
  }

  /** No existing dependency of g is in a status other than completed. */
  predicate AllMet(s: Store, g: GoalId) {
    forall e :: e in s.deps && e.0 == g && e.1 in s.goals ==> s.goals[e.1].status == Completed
  }

  /** get_ready_goals. */
  function Ready(s: Store): set<GoalId> {
    set g | g in s.goals && s.goals[g].status == Pending && AllMet(s, g)
  }

  /** The dependency rows whose two ends both exist. */
  function LiveDeps(s: Store): set<(GoalId, GoalId)> {
    set e | e in s.deps && e.0 in s.goals && e.1 in s.goals
  }

  /** get_blocked_goals: pending goals with a failed dependency. */
  function PendingBlocked(s: Store): set<GoalId> {
    set e | e in LiveDeps(s) && s.goals[e.0].status == Pending && s.goals[e.1].status == Failed :: e.0
  }

  function WithStatus(s: Store, status: Status): set<GoalId> {
    set g | g in s.goals && s.goals[g].status == status
  }

  function ParentEdges(goals: map<GoalId, Goal>): set<(GoalId, GoalId)> {
    set g | g in goals && goals[g].parent.Some? :: (g, goals[g].parent.value)
  }

  // ----- Operations -----

  function Marked(s: Store, ids: set<GoalId>, status: Status): Store {
    s.(goals := map g | g in s.goals ::
      if g in ids then s.goals[g].(status := status) else s.goals[g])
  }

  /** A uuid never handed out before is mentioned nowhere in the tables. */
  predicate Fresh(s: Store, id: GoalId) {
    && id !in s.goals
    && (forall e :: e in s.deps ==> e.0 != id && e.1 != id)
    && (forall g :: g in s.goals ==> s.goals[g].parent != Some(id))
  }

  function ChildDepth(s: Store, parent: Option<GoalId>): nat {
    if parent.Some? && parent.value in s.goals then
      if s.goals[parent.value].depth + 1 > DEPTH_CAP then DEPTH_CAP else s.goals[parent.value].depth + 1
    else 0
  }

  /** create_goal: refused when a CHECK or, if enforced, a REFERENCES constraint fails. */
  function Create(s: Store, id: GoalId, parent: Option<GoalId>, description: string,
                  domain: string, preconditions: seq<string>, maxDepth: int): Result<Store>
  {
    if domain !in DOMAINS then Refused
    else if s.foreignKeys && parent.Some? && parent.value !in s.goals then Refused
    else Ok(s.(goals := s.goals[id :=
      Goal(parent, ChildDepth(s, parent), description, domain, preconditions, Pending, maxDepth)]))
  }

  /** When create_goal is refused, and otherwise the row it inserts. */
  lemma CreateExactly(s: Store, id: GoalId, parent: Option<GoalId>, description: string, domain: string,
                      preconditions: seq<string>, maxDepth: int)
    ensures var r := Create(s, id, parent, description, domain, preconditions, maxDepth);
      && (r.Refused? <==> domain !in {"code", "math", "reasoning", "creative", "general"}
                          || (s.foreignKeys && parent.Some? && parent.value !in s.goals))
      && (r.Ok? ==>
            var t := r.value;
            && t.deps == s.deps && t.foreignKeys == s.foreignKeys
            && t.goals.Keys == s.goals.Keys + {id} && (forall g :: g in s.goals && g != id ==> t.goals[g] == s.goals[g])
            && t.goals[id].parent == parent && t.goals[id].description == description
            && t.goals[id].domain == domain && t.goals[id].preconditions == preconditions
            && t.goals[id].status == Pending && t.goals[id].maxDepth == maxDepth
            && t.goals[id].depth ==
                 if parent.Some? && parent.value in s.goals
                 then if s.goals[parent.value].depth >= 8 then 8 else s.goals[parent.value].depth + 1
                 else 0)
  {
  }

  /** The rows ON DELETE CASCADE removes along with id. */
  ghost function Descendants(s: Store, id: GoalId): set<GoalId> {
    set g | g in s.goals && Reach(ParentEdges(s.goals), g, id)
  }

  function Without(s: Store, gone: set<GoalId>): Store {
    Store(map g | g in s.goals && g !in gone :: s.goals[g],
          if s.foreignKeys then set e | e in s.deps && e.0 !in gone && e.1 !in gone else s.deps,
          s.foreignKeys)
  }

  ghost function Delete(s: Store, id: GoalId): Store {
    if id !in s.goals then s
    else Without(s, if s.foreignKeys then Descendants(s, id) else {id})
  }

  /** Only the circularity test looks at the graph; the row itself may still be refused. */
  ghost predicate AcceptsDependency(s: Store, g: GoalId, d: GoalId) {
    !Reach(s.deps, d, g) && (s.foreignKeys ==> g in s.goals && d in s.goals)
  }

  ghost function AddDependency(s: Store, g: GoalId, d: GoalId): Store {
    if AcceptsDependency(s, g, d) then s.(deps := s.deps + {(g, d)}) else s
  }

  function RemoveDependency(s: Store, g: GoalId, d: GoalId): Store {
    s.(deps := s.deps - {(g, d)})
  }

  /** update_goal(status = ...), and the net effect of execute_goal. */
  function SetStatus(s: Store, id: GoalId, status: Status): Store {
    Marked(s, {id}, status)
  }

  function Execute(s: Store, id: GoalId, succeeds: bool): Store {
    SetStatus(s, id, if succeeds then Completed else Failed)
  }

  function NewlyBlocked(s: Store, g: GoalId): set<GoalId> {
    set x | x in Dependents(s, g) && s.goals[x].status != Failed && s.goals[x].status != Blocked
  }

  function PropagateFailure(s: Store, g: GoalId): Store {
    Marked(s, NewlyBlocked(s, g), Blocked)
  }

  function NewlyReady(s: Store, g: GoalId): set<GoalId> {
    set x | x in Dependents(s, g) && s.goals[x].status in {Blocked, Pending} && AllMet(s, x)
  }

  function PropagateCompletion(s: Store, g: GoalId): Store {
    Marked(s, NewlyReady(s, g), Pending)
  }

  // ----- What every reachable state keeps -----

  predicate Referential(s: Store) {
    s.foreignKeys ==>
      && (forall e :: e in s.deps ==> e.0 in s.goals && e.1 in s.goals)
      && (forall g :: g in s.goals && s.goals[g].parent.Some? ==> s.goals[g].parent.value in s.goals)
  }

  predicate RowsChecked(s: Store) {
    forall g :: g in s.goals ==> s.goals[g].depth <= DEPTH_CAP && s.goals[g].domain in DOMAINS
  }

  ghost predicate Valid(s: Store) {
    Acyclic(s.deps) && Acyclic(ParentEdges(s.goals)) && Referential(s) && RowsChecked(s)
  }

  datatype Op =
    | CreateOp(id: GoalId, parent: Option<GoalId>, description: string, domain: string,
               preconditions: seq<string>, maxDepth: int)
    | DeleteOp(id: GoalId)
    | AddOp(g: GoalId, d: GoalId)
    | RemoveOp(g: GoalId, d: GoalId)
    | StatusOp(id: GoalId, status: Status)
    | ExecuteOp(id: GoalId, succeeds: bool)
    | FailureOp(g: GoalId)
    | CompletionOp(g: GoalId)

  /** uuid4 supplies an identifier that occurs nowhere, nor as the requested parent. */
  predicate Enabled(s: Store, op: Op) {
    op.CreateOp? ==> Fresh(s, op.id) && op.parent != Some(op.id)
  }

  ghost function Apply(s: Store, op: Op): Store {
    match op
    case CreateOp(id, p, ds, dm, pre, m) =>
      (match Create(s, id, p, ds, dm, pre, m) case Ok(t) => t case Refused => s)
    case DeleteOp(id) => Delete(s, id)
    case AddOp(g, d) => AddDependency(s, g, d)
    case RemoveOp(g, d) => RemoveDependency(s, g, d)
    case StatusOp(id, st) => SetStatus(s, id, st)
    case ExecuteOp(id, ok) => Execute(s, id, ok)
    case FailureOp(g) => PropagateFailure(s, g)
    case CompletionOp(g) => PropagateCompletion(s, g)
  }

  ghost predicate Runnable(s: Store, ops: seq<Op>)
    decreases |ops|
  {
    ops == [] || (Enabled(s, ops[0]) && Runnable(Apply(s, ops[0]), ops[1..]))
  }

  ghost function Run(s: Store, ops: seq<Op>): Store
    decreases |ops|
  {
    if ops == [] then s else Run(Apply(s, ops[0]), ops[1..])
  }

  const EMPTY_TABLES: map<GoalId, Goal> := map[]

  function Empty(foreignKeys: bool): Store {
    Store(EMPTY_TABLES, {}, foreignKeys)
  }

  /** add_dependency refuses for circularity exactly the pairs that would close a cycle,
      a goal depending on itself included. */
  lemma RefusesExactlyCycles(s: Store, g: GoalId, d: GoalId)
    requires Acyclic(s.deps)
    ensures Reach(s.deps, d, g) <==> !Acyclic(s.deps + {(g, d)})
    ensures g == d ==> Reach(s.deps, d, g)
  {
    AddEdgeAcyclic(s.deps, g, d);
    ReachSelf(s.deps, g);
  }

  lemma ParentEdgesMarked(s: Store, ids: set<GoalId>, status: Status)
    ensures ParentEdges(Marked(s, ids, status).goals) == ParentEdges(s.goals)
  {
    var t := Marked(s, ids, status);
    forall g | g in s.goals ensures t.goals[g].parent == s.goals[g].parent {
    }
    assert t.goals.Keys == s.goals.Keys;
  }

  lemma MarkedKeepsValid(s: Store, ids: set<GoalId>, status: Status)
    requires Valid(s)
    ensures Valid(Marked(s, ids, status))
  {
    ParentEdgesMarked(s, ids, status);
    forall g | g in s.goals ensures Marked(s, ids, status).goals[g].depth == s.goals[g].depth
                                 && Marked(s, ids, status).goals[g].domain == s.goals[g].domain {
    }
  }

  /** A new goal has no children, so its parent link closes no cycle. */
  lemma CreateKeepsValid(s: Store, op: Op)
    requires Valid(s) && op.CreateOp? && Enabled(s, op)
    ensures Valid(Apply(s, op))
  {
    var t := Apply(s, op);
    if t != s {
      var E := ParentEdges(s.goals);
      forall g | g in s.goals ensures g in t.goals && t.goals[g] == s.goals[g] {
      }
      if op.parent.Some? {
        assert ParentEdges(t.goals) == E + {(op.id, op.parent.value)};
        AddEdgeAcyclic(E, op.id, op.parent.value);
        if Reach(E, op.parent.value, op.id) {
          NothingEnters(E, op.parent.value, op.id);
        }
      } else {
        assert ParentEdges(t.goals) == E;
      }
    }
  }

  /** Cascading removes every child of a removed goal. */
  lemma ParentSurvives(s: Store, id: GoalId, g: GoalId)
    requires Referential(s) && s.foreignKeys && id in s.goals
    requires g in s.goals && g !in Descendants(s, id) && s.goals[g].parent.Some?
    ensures s.goals[g].parent.value in s.goals && s.goals[g].parent.value !in Descendants(s, id)
  {
    var E := ParentEdges(s.goals);
    var p := s.goals[g].parent.value;
    assert (g, p) in E;
    ReachSelf(E, g);
    ReachEdge(E, g, g, p);
    if Reach(E, p, id) {
      ReachTrans(E, g, p, id);
    }
  }

  /** t keeps exactly the goals whose chain of parents does not meet id, unchanged and with
      their parents, and exactly the dependency rows between them. */
  ghost predicate SurvivorsOf(s: Store, t: Store, id: GoalId) {
    && (forall g :: g in t.goals <==> g in s.goals && !Reach(ParentEdges(s.goals), g, id))
    && (forall g :: g in t.goals ==> t.goals[g] == s.goals[g])
    && (forall g :: g in t.goals && t.goals[g].parent.Some? ==> t.goals[g].parent.value in t.goals)
    && (forall e :: e in t.deps <==> e in s.deps && e.0 in t.goals && e.1 in t.goals)
  }

  /** What a deletion leaves when foreign keys are enforced. */
  lemma OrphanFree(s: Store, id: GoalId)
    requires Referential(s) && s.foreignKeys && id in s.goals
    ensures SurvivorsOf(s, Delete(s, id), id)
  {
    var t := Delete(s, id);
    forall g | g in t.goals && t.goals[g].parent.Some? ensures t.goals[g].parent.value in t.goals {
      ParentSurvives(s, id, g);
    }
  }

  lemma DeleteKeepsValid(s: Store, id: GoalId)
    requires Valid(s)
    ensures Valid(Delete(s, id))
  {
    var t := Delete(s, id);
    if id in s.goals {
      AcyclicSubset(t.deps, s.deps);
      assert ParentEdges(t.goals) <= ParentEdges(s.goals) by {
        forall g | g in t.goals && t.goals[g].parent.Some?
          ensures (g, t.goals[g].parent.value) in ParentEdges(s.goals) {
          assert g in s.goals && s.goals[g] == t.goals[g];
        }
      }
      AcyclicSubset(ParentEdges(t.goals), ParentEdges(s.goals));
      if s.foreignKeys {
        OrphanFree(s, id);
      }
    }
  }

  lemma StepKeepsValid(s: Store, op: Op)
    requires Valid(s) && Enabled(s, op)
    ensures Valid(Apply(s, op))
  {
    match op
    case CreateOp(_, _, _, _, _, _) => CreateKeepsValid(s, op);
    case DeleteOp(id) => DeleteKeepsValid(s, id);
    case AddOp(g, d) => AddEdgeAcyclic(s.deps, g, d);
    case RemoveOp(g, d) => AcyclicSubset(RemoveDependency(s, g, d).deps, s.deps);
    case StatusOp(id, st) => MarkedKeepsValid(s, {id}, st);
    case ExecuteOp(id, ok) => MarkedKeepsValid(s, {id}, if ok then Completed else Failed);
    case FailureOp(g) => MarkedKeepsValid(s, NewlyBlocked(s, g), Blocked);
    case CompletionOp(g) => MarkedKeepsValid(s, NewlyReady(s, g), Pending);
  }

  lemma {:induction false} RunKeepsValid(s: Store, ops: seq<Op>)
    requires Valid(s) && Runnable(s, ops)
    ensures Valid(Run(s, ops))
    decreases |ops|
  {
    if ops == [] {
    } else {
      StepKeepsValid(s, ops[0]);
      RunKeepsValid(Apply(s, ops[0]), ops[1..]);
    }
  }

  lemma EmptyIsValid(foreignKeys: bool)
    ensures Valid(Empty(foreignKeys))
  {
    var E: set<(GoalId, GoalId)> := {};
    assert ParentEdges(EMPTY_TABLES) == E;
    forall u ensures !ReachPlus(E, u, u) {
      if ReachPlus(E, u, u) {
        var x := ReachPlusFirst(E, u, u);
      }
    }
  }

  /** The dependency relation and the parent relation are acyclic in every reachable
      state, and enforced references never dangle. */
  lemma ReachableStatesAreValid(foreignKeys: bool, ops: seq<Op>)
    requires Runnable(Empty(foreignKeys), ops)
    ensures Valid(Run(Empty(foreignKeys), ops))
  {
    EmptyIsValid(foreignKeys);
    RunKeepsValid(Empty(foreignKeys), ops);
  }
}
