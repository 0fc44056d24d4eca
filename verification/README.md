# Verified model of the planning, causal and deliberation engines

This Dafny project models the graph and scheduling engines of the repository and proves what
they promise, for every input, every run and every reachable state:

- **Goal planner** (`core/goal_planner.py`). `GoalStore` gives each operation on the two tables
  as a function on stores; the class in `GoalPlanner` performs the operations step by step and is
  proved against those functions. `GoalScheduling` is about whole runs, `GoalConfluence` about
  whether their order matters, `ExecutionOrder` about the topological order, `Conjunctions` about the text splitting of automatic decomposition, and
  `StrategyLearner` about the strategy counters. `GoalTree` is the tree query, and `GoalExamples`
  holds reachable states in which the code does less than it promises.
- **Causal graph and inference** (`core/causal_reasoning.py`). `CausalGraph` keeps the two
  adjacency dictionaries in insertion order, exports, imports, finds ancestors and enumerates
  paths (`CausalPaths` and `CausalEdges` hold the notions it is specified with). `Intervention` is
  the propagation loop as a function, `InterventionReach` its meaning in terms of distances,
  `InterventionValues` the values it computes, `SignedEffects` the graphs on which no effect can
  cancel another, and `CausalReasoning` the engine with `intervene` and `counterfactual`.
  `ObservationLog`, `ObservationMatching` and `Correlation` are strength estimation.
- **Deliberation** (`core/deliberation.py`, `core/deliberation_engine.py`). `Deliberation` is the
  hypothesis graph, its ranking and the network for the consensus; `FlowConsensus`, `FlowCuts`
  (maximum flows and minimum cuts), `FlowChains` and `FlowPaths` are what any maximum flow on such
  a network implies; `DeliberationEngine` is the pairwise similarity pass and the consensus it
  leads to.
- **Profile merging** (`core/config.py`) in `ProfileMerge`, and **credential rotation and
  backoff** (`core/cloud_auth.py`) in `CloudAuth`.

`Digraph`, `Sequences`, `Sums`, `Reals`, `StableSort`, `StringOrder` and `Wrappers` hold shared
mathematics. To verify the whole project: `dafny verify dfyconfig.toml`.

## Conventions

- Floating-point numbers are reals and rounding is dropped. `math.sqrt` is any function that
  squares back; `nx.maximum_flow` is any function that returns a feasible flow of greatest value.
- Time is a parameter, and a uuid is a parameter required to be fresh. The event bus, logging and
  locks are dropped, so each method is one atomic step.
- A query, or an iteration, whose order the source does not fix may yield its rows in any order.
- Foreign keys are enforced or not for the whole life of a planner, by the flag `foreignKeys`:
  the pragma is set only on the connection that applies the migrations
  (`core/_database_fallback.py:77` and `:268-278`), so deleting a goal cascades on an in-memory
  database and leaves rows behind on a file. The schema is
  `chimera-core/migrations/0004_goal_planner.sql`.

## States of the planner

The results about schedules start from tables of one of these kinds, named in the rows below. Where
a result needs acyclic dependencies, every reachable state has them (`ReachableStatesAreValid`).

- `Untried`: every goal is pending or completed, as when a scheduling loop starts.
- `Settled`: every completed goal has all its existing dependencies completed. Disciplined runs
  keep this (`RunKeepsSettled`); adding a dependency to a completed goal does not.
- `Coherent`: no goal is active, a goal is blocked exactly when an existing dependency failed, and
  failed goals depend on completed or blocked ones. Untried tables are coherent.
- `Orderly`: coherent, and completed and failed goals have all dependencies completed. Untried
  tables are orderly exactly when they are settled (`UntriedIsCoherent`).
- `RaceFree`: a pending goal that depends on a completed one also waits for every pending goal
  whose failure would demote that one. Settled tables are race-free.

## Where the code and its documentation differ

The model follows the code.

- `_bfs_paths` expands paths of `max_length + 1` nodes, so it returns paths of up to
  `max_length + 1` edges (`core/causal_reasoning.py:213`). `Enumerates` says so,
  `LimitCanBeExceeded` is an instance, and `LimitExceededExactlyWhen` gives the exact condition.
- `execution_order` counts dependency rows on goals that are already completed, or gone, and never
  discharges them, so goals that depend on completed ones are missing from the order
  (`core/goal_planner.py:755-771`). `OrderCanOmitReady` is a reachable state in which a ready goal
  is missing from every order; `FullExactlyWhen` gives the exact condition for a full one.
- `intervene` does not cut the edges into the intervened variable, so on a short enough cycle that
  variable affects itself (`core/causal_reasoning.py:475-480`). `SelfObservation` gives the exact
  condition for being affected. Hence `counterfactual` about the variable itself never finds a path
  and can still report a change: `SelfLoopChanges` is an instance, and the contract of
  `Counterfactual` says that without such a cycle there is no change, and with positive strengths
  and no PREVENTS edge that there is one exactly when the value changes and such a cycle exists.
- `propagate_failure` can demote a completed goal: `FailureCanDemote` is a reachable state in which
  it does, `FailureDemotesExactlyWhen` says when, and `FailureDemotesNothing` that it cannot in runs
  which execute only ready goals. Demotions can make the outcome of a schedule depend on its order:
  `SchedulesCanDiverge` is a reachable state with two complete schedules that end differently, and
  `ConfluentExactlyWhen` says from which tables that cannot happen.
- `get_subtree` lists at most 100 children of each goal, the default limit of `list_goals`
  (`core/goal_planner.py:355`): `SubtreeCanOmit` is a reachable state in which descendants are
  missing, and `SubtreeIsDescendants` gives the exact condition.
- `auto_decompose` does not look at `max_depth`; only the clamp of depths at 8 applies
  (`core/goal_planner.py:865-899`). `PlanCanExceedDepth` is a reachable goal whose plans all exceed
  its limit, and `PlanRespectsDepthExactlyWhen` gives the exact condition for a plan to keep it.
- `best_strategy` returns the first of the best entries (`core/goal_planner.py:96`), not the most
  recently added. `EarlierOfTwo` is an instance; `MostRecentExactlyWhen` says that the two agree
  exactly when no other strategy has the same rate.
- Two texts without words have similarity 1, not 0, so two such perspectives support each other
  (`core/deliberation_engine.py:193-206`).
- Switching from billing failures to ordinary ones can move a cooldown deadline earlier;
  `DeadlineMovesEarlierExactlyWhen` says when.
- A profile stored for a provider whose name contains `:`, or under an empty label, cannot be
  looked up by its own id; the contract of `AddApiKey` is an equivalence.
- An override file can leave a normalized profile unnormalized, which is why
  `load_runtime_profile` normalizes a second time: where the profile file had something other than
  an object for an object of the defaults, an object of the override takes its place without the
  default keys. `SecondNormalizationExactlyWhen` gives the exact condition on the two files,
  `NeverNeededExactlyWhen` that on the profile file alone, and `SecondNormalizationIsNeeded` is an
  instance.

## Model

| member | source | states |
|---|---|---|
| GoalStore.RefusesExactlyCycles | core/goal_planner.py:447-482 | a new dependency is refused for circularity exactly when it would close a cycle (self-dependency included); accepting it keeps the relation acyclic |
| GoalStore.MarkedKeepsValid | core/goal_planner.py:281-322 | changing the statuses of any goals keeps every table invariant |
| GoalStore.CreateKeepsValid | core/goal_planner.py:166-256 | inserting a goal keeps acyclic dependencies, the depth and domain checks and, with foreign keys, referential integrity and the acyclic parent forest |
| GoalStore.CreateExactly | core/goal_planner.py:166-256 | a goal is refused exactly for an unknown domain or, with foreign keys, a missing parent; otherwise its row holds what was asked for, pending, one level below an existing parent and at most at depth 8 |
| GoalStore.DeleteKeepsValid | core/goal_planner.py:324-348 | deleting keeps them too, with and without cascading |
| GoalStore.OrphanFree | chimera-core/migrations/0004_goal_planner.sql:4-33 | with foreign keys, a deletion removes exactly the goals whose chain of parents meets the deleted one and the dependency rows of removed goals; surviving rows are unchanged and refer to surviving goals only |
| GoalStore.StepKeepsValid | core/goal_planner.py:166-507 | every table operation keeps the invariants |
| GoalStore.RunKeepsValid | core/goal_planner.py:166-507 | so does every sequence of operations |
| GoalStore.ReachableStatesAreValid | core/goal_planner.py:146-507 | in every state reachable from empty tables the dependency relation is acyclic and the invariants hold |
| GoalPlanner.Planner.constructor | core/goal_planner.py:149-160 | a new planner has empty tables and an empty learner |
| GoalPlanner.Planner.CreateGoal | core/goal_planner.py:166-256 | the new row, with its clamped depth, or a refusal that changes nothing |
| GoalPlanner.Planner.UpdateStatus | core/goal_planner.py:281-322 | sets the status of exactly one existing goal |
| GoalPlanner.Planner.Cascade | chimera-core/migrations/0004_goal_planner.sql:6-6 | the rows a cascading delete removes are exactly those whose parent chain reaches the goal |
| GoalPlanner.Planner.DeleteGoal | core/goal_planner.py:324-348 | the new tables are those of the specification, cascading only with foreign keys |
| GoalPlanner.Planner.HasCircularDependency | core/goal_planner.py:1098-1142 | the depth-first search answers true exactly when the goal is reachable from its would-be dependency |
| GoalPlanner.Planner.AddDependency | core/goal_planner.py:447-482 | adds the row unless it closes a cycle or violates a foreign key, and stays acyclic |
| GoalPlanner.Planner.RemoveDependency | core/goal_planner.py:484-507 | removes exactly that row and reports whether it existed |
| GoalPlanner.Planner.GetReadyGoals | core/goal_planner.py:561-586 | exactly the pending goals none of whose existing dependencies is uncompleted, each once |
| GoalPlanner.Planner.GetBlockedGoals | core/goal_planner.py:588-613 | exactly the pending goals with a failed dependency, each once |
| GoalPlanner.PendingBlockedExactly | core/goal_planner.py:588-613 | which goals these are, by the statuses of both ends of a dependency row |
| GoalExamples.PendingCanBeBlocked | core/goal_planner.py:588-613 | a reachable state in which there is one |
| GoalPlanner.Planner.GetSubtree | core/goal_planner.py:696-720 | ends on any reachable tables, finds nothing for a missing goal, and otherwise the tree of the listed children, which holds descendants only and all of them exactly when none has more than 100 children |
| GoalTree.SubtreeIsListed | core/goal_planner.py:696-720 | every goal of the tree descends from the root, and each but the root is among the listed children of its parent |
| GoalTree.SubtreeIsDescendants | core/goal_planner.py:350-395 | the tree is the set of descendants exactly when no descendant has more children than one query lists |
| GoalExamples.SubtreeCanOmit | core/goal_planner.py:355-355 | a reachable state in which the tree omits descendants, whatever the query lists |
| GoalPlanner.Planner.PropagateFailure | core/goal_planner.py:615-645 | blocks exactly the dependents that are neither failed nor blocked, and lists each once |
| GoalPlanner.Planner.PropagateCompletion | core/goal_planner.py:647-692 | lists exactly the pending and blocked dependents all of whose existing dependencies are completed, each once; they are those that are ready afterwards |
| GoalScheduling.CompletionStatuses | core/goal_planner.py:647-692 | a blocked dependent becomes pending exactly when none of its existing dependencies is uncompleted, and no other status changes |
| GoalScheduling.FailureStatuses | core/goal_planner.py:615-645 | every dependent that has not failed becomes blocked, and no other status changes |
| GoalScheduling.RecoveryFrees | core/goal_planner.py:647-855 | from coherent tables, a failed goal that is executed again and succeeds frees exactly the dependents that have no other uncompleted dependency |
| GoalPlanner.Planner.InDegrees | core/goal_planner.py:755-771 | each selected goal's counter is the number of its dependency rows, discharged or not |
| GoalPlanner.Planner.ExecutionOrder | core/goal_planner.py:730-795 | the order has no duplicates, places every goal after all its dependencies, and holds exactly the goals whose whole transitive dependency closure is pending or active |
| GoalPlanner.Planner.ExecuteGoal | core/goal_planner.py:799-855 | the goal ends completed or failed by the executor's outcome and the attempt is recorded with the learner |
| GoalPlanner.Planner.AutoDecompose | core/goal_planner.py:865-899 | one pending child per part, with distinct fresh ids, and nothing else changed; nothing at all with fewer than two parts |
| GoalPlanner.Planner.PlanLongHorizon | core/goal_planner.py:905-954 | for any horizon, at most one level is expanded, the root's, into at most max_subgoals_per_level distinct children |
| GoalPlanner.ChildIsLeaf | core/goal_planner.py:880-899 | a child made by automatic decomposition has a description without conjunctions |
| GoalPlanner.ChildInherits | core/goal_planner.py:886-897 | it is pending, has the part as description, the domain and limit of its parent, and the clamped depth below it |
| GoalPlanner.NothingDecomposed | core/goal_planner.py:880-884 | a goal with such a description is not decomposed |
| GoalPlanner.DepthRespectedExactlyWhen | core/goal_planner.py:880-899 | every child lies within its max_depth exactly when nothing is created or the goal has room below it, the clamp of depths at 8 included |
| GoalPlanner.PlanRespectsDepthExactlyWhen | core/goal_planner.py:905-954 | the same for a whole plan, of any horizon |
| GoalExamples.PlanCanExceedDepth | core/goal_planner.py:911-915 | a reachable goal with max_depth 0 whose every plan of at least one level creates two goals beyond their limit |
| GoalPlanner.KahnServe | core/goal_planner.py:780-793 | one relaxation step of the order keeps counters, queue and listed goals in agreement |
| ExecutionOrder.KahnIsExact | core/goal_planner.py:776-795 | a duplicate-free list closed under dependencies that leaves only goals with an unlisted dependency is the exact execution order |
| ExecutionOrder.FullExactlyWhen | core/goal_planner.py:730-795 | the order holds all pending and active goals exactly when no dependency row leads from one of them to a goal that is neither (or is gone) |
| GoalExamples.OrderCanOmitReady | core/goal_planner.py:755-793 | a reachable state with a ready goal that no execution order lists, since its dependency is completed |
| ExecutionOrder.ExecutionOrderIsSchedule | core/goal_planner.py:730-795 | when every goal is pending or completed, executing the order front to back with a succeeding executor only ever executes ready goals |
| GoalScheduling.RunKeepsSettled | core/goal_planner.py:561-692 | runs that start settled, execute only ready goals, propagate each outcome and add no dependency stay settled: every completed goal has all its existing dependencies completed |
| GoalScheduling.FailureDemotesNothing | core/goal_planner.py:615-645 | from settled tables, propagating the failure of a ready goal demotes no completed goal and leaves no direct dependent ready |
| GoalScheduling.FailureDemotesExactlyWhen | core/goal_planner.py:615-645 | in general it demotes one exactly when some dependent is completed |
| GoalExamples.FailureCanDemote | core/goal_planner.py:615-645 | a reachable state in which it demotes one |
| GoalScheduling.CompletionReturnsTheReady | core/goal_planner.py:647-692 | what propagating a completion returns is exactly the dependents that are ready afterwards |
| GoalScheduling.TurnStatuses | core/goal_planner.py:615-692 | from coherent tables, one turn changes the goal it executes and, after a failure, blocks the dependents; propagating a completion changes nothing further |
| GoalScheduling.TurnKeepsCoherent | core/goal_planner.py:561-692 | every turn keeps tables coherent |
| GoalScheduling.TurnKeepsOrderly | core/goal_planner.py:561-692 | every turn keeps tables orderly: attempted goals have completed dependencies |
| GoalScheduling.ScheduleOutcome | core/goal_planner.py:561-692 | from coherent tables, a whole schedule attempts each goal at most once, leaves exactly the statuses its executor decides, and can only block the others |
| GoalScheduling.OrderlyOutcome | core/goal_planner.py:561-692 | from orderly tables, no schedule demotes a completed goal |
| GoalScheduling.NothingPendingIsBlocked | core/goal_planner.py:588-645 | from coherent tables, while every failure is propagated, no pending goal ever has a failed dependency |
| GoalScheduling.NoDeadlock | core/goal_planner.py:561-586 | in untried tables some goal is ready exactly when some goal is pending |
| GoalScheduling.SuccessfulSchedule | core/goal_planner.py:561-586 | from untried tables, with a succeeding executor, the executed goals become completed, dependencies first |
| GoalScheduling.SuccessfulRunsComplete | core/goal_planner.py:561-586 | from untried tables, a succeeding run can stop only after exactly as many steps as there were pending goals, with everything completed |
| GoalScheduling.QuiescentCompleted | core/goal_planner.py:561-692 | in orderly tables where nothing is ready, a goal is completed exactly when no failed goal is reachable along its dependencies |
| GoalConfluence.ScheduleConfluence | core/goal_planner.py:561-692 | any two schedules run to the end from the same untried, race-free tables with the same executor run the same goals and leave the same tables |
| GoalConfluence.ConfluentExactlyWhen | core/goal_planner.py:561-692 | from untried tables, the order of execution is irrelevant for every executor exactly when the tables are race-free |
| GoalConfluence.RunToEnd | core/goal_planner.py:561-692 | from coherent tables every executor has a schedule after which nothing is ready |
| GoalConfluence.MakeReady | core/goal_planner.py:561-692 | from untried tables, executing only what a pending goal waits for makes it ready, if all of that succeeds |
| GoalExamples.SchedulesCanDiverge | core/goal_planner.py:561-692 | reachable untried tables, not settled, with two complete schedules of one executor after which a goal is completed and pending |
| GoalConfluence.FinishedStatus | core/goal_planner.py:561-692 | after a complete schedule from untried, race-free tables, each status as a function of the dependencies' final statuses and the executor |
| Conjunctions.SplitLossless | core/goal_planner.py:880-880 | pieces and separators interleaved give back the description |
| Conjunctions.SplitCutsAtSeparators | core/goal_planner.py:880-880 | every cut is a conjunction between white space, in any letter case |
| Conjunctions.KeywordsExactly | core/goal_planner.py:880-880 | the conjunctions are and, then, also and while, in any letter case |
| Conjunctions.LettersExactly | core/goal_planner.py:880-880 | which characters match each of their letters when case is ignored |
| Conjunctions.SplitPieces | core/goal_planner.py:880-880 | no piece contains a separator |
| Conjunctions.PartsInOrder | core/goal_planner.py:880-881 | the parts are the first pieces that are not blank, stripped, in order, as many as the limit leaves |
| Conjunctions.StripExactly | core/goal_planner.py:881-881 | stripping takes away white space at both ends, and all of it |
| Conjunctions.PartsAreConjunctionless | core/goal_planner.py:880-881 | nor does any stripped part, and there are at most max_subgoals of them |
| Conjunctions.ConjunctionlessHasOnePart | core/goal_planner.py:880-884 | a description without conjunctions has at most one part |
| StrategyLearner.DecompositionStrategyLearner.RecordDecomposition | core/goal_planner.py:42-84 | the kept entries always summarize the whole history: one entry per distinct list of steps in order of first use, with its exact counts and success rate |
| StrategyLearner.CountsExactly | core/goal_planner.py:52-84 | the counters of a strategy are the numbers of its attempts and of its successful ones |
| StrategyLearner.RateExactly | core/goal_planner.py:62-68 | the success rate times the number of attempts is the number of successful ones |
| StrategyLearner.FirstSeenInOrder | core/goal_planner.py:70-84 | strategies are kept in the order in which they were first recorded |
| StrategyLearner.DecompositionStrategyLearner.BestStrategy | core/goal_planner.py:86-101 | the first-used among the strategies of the greatest success rate over the history, none for an unknown type; it is the last-used of them exactly when there is no tie |
| StrategyLearner.MostRecentExactlyWhen | core/goal_planner.py:86-101 | the first-used of the best is also the last-used, as the documentation promises, exactly when every other strategy has a lower rate |
| StrategyLearner.EarlierOfTwo | core/goal_planner.py:86-101 | a history of two attempts on which the earlier is chosen though the later ties with it |
| CausalGraph.Graph.AddEdge | core/causal_reasoning.py:138-144 | sets exactly one edge; in the rows of its cause and of its effect it takes the place of the edge it replaces, or comes last, and no other row changes; all endpoints are known variables |
| CausalGraph.Graph.RemoveEdge | core/causal_reasoning.py:146-155 | removes exactly that edge from both maps, leaves the others of its rows in their order and all other rows alone, and reports whether it existed |
| CausalGraph.Graph.GetEdge | core/causal_reasoning.py:157-160 | the edge held for the pair, if any |
| CausalGraph.Graph.Clear | core/causal_reasoning.py:341-345 | no edges and no variables |
| CausalGraph.Graph.ExportEdges | core/causal_reasoning.py:303-319 | one record per edge |
| CausalGraph.Graph.ImportEdges | core/causal_reasoning.py:321-339 | adds the edges of the readable records in order, skips the others, and counts those added; the rows are those that adding these edges one by one gives |
| CausalEdges.HoldsAfterPut | core/causal_reasoning.py:138-144 | replacing or appending in one row keeps an adjacency map equal to the set of edges |
| CausalEdges.HoldsAfterDrop | core/causal_reasoning.py:146-155 | so does removing from one row |
| CausalEdges.BuiltInOrder | core/causal_reasoning.py:138-144 | in a graph built by adding edges every row lists its edges in the order in which their ends were first added, replaced or not |
| CausalEdges.BuiltHolds | core/causal_reasoning.py:138-144 | such a graph holds, in both directions, the last edge added for each pair |
| CausalEdges.LatestIsLast | core/causal_reasoning.py:138-144 | of several edges with the same ends the last one added is held |
| CausalEdges.DecodeFields | core/causal_reasoning.py:321-339 | a record is read exactly when it has its five mandatory fields, a known edge type and, if any, a known level; each field, and what a missing level, count or time becomes |
| CausalEdges.ReadableInOrder | core/causal_reasoning.py:321-339 | the edges added are those of all readable records, in order |
| CausalEdges.DecodeEncode | core/causal_reasoning.py:303-339 | a record reads back as its edge without metadata |
| CausalEdges.ExportImportRoundTrip | core/causal_reasoning.py:303-339 | importing an export into an empty graph restores every edge apart from its metadata |
| CausalGraph.Graph.FindAncestors | core/causal_reasoning.py:284-297 | exactly the variables with a walk of at least one edge to the given one, hence itself exactly when it lies on a cycle |
| CausalGraph.Graph.FindConfounders | core/causal_reasoning.py:242-255 | exactly the common ancestors other than the two variables, symmetrically, in ascending order |
| CausalGraph.Graph.FindCausalPaths | core/causal_reasoning.py:186-200 | each simple path with at most max_length + 1 edges once and nothing else, in nondecreasing length, with the product of its strengths and the least of its confidences |
| CausalGraph.Graph.BfsPaths | core/causal_reasoning.py:202-236 | the same for the search itself, which ends on any graph, cycles included |
| CausalPaths.FrontierExtend | core/causal_reasoning.py:217-234 | one expansion keeps: found paths plus the extensions of queued paths are exactly the simple paths wanted |
| CausalPaths.ConfidenceIsLeast | core/causal_reasoning.py:222-232 | the confidence of a path is 1 or that of some edge on it, and no edge on it has less |
| CausalPaths.LimitExceededExactlyWhen | core/causal_reasoning.py:209-215 | a path longer than max_length is returned exactly when some simple path has max_length + 1 edges |
| CausalPaths.LimitCanBeExceeded | core/causal_reasoning.py:209-215 | one edge, and the limit 0: the edge is returned |
| CausalGraph.ExtendItem | core/causal_reasoning.py:209-234 | one iteration of the search keeps its whole invariant |
| CausalReasoning.Engine.SetVariable | core/causal_reasoning.py:394-400 | sets the value of exactly one variable and appends it to the log, which is trimmed past its limit |
| ObservationLog.LogIsRecent | core/causal_reasoning.py:394-400 | however many observations there were, the log holds the most recent ones in order: at most 5000, and all of them or at least 2500 |
| ObservationLog.LogLength | core/causal_reasoning.py:394-400 | its exact length after any number of observations |
| CausalReasoning.Engine.AddCause | core/causal_reasoning.py:411-436 | stores the edge with strength clamped to [-1, 1] and confidence to [0, 1], unchanged when already in range, in the place of the one it replaces or last in its rows |
| CausalReasoning.Engine.Intervene | core/causal_reasoning.py:442-518 | the loop computes the propagation function, and the confidence is the average over the edges between visited variables, in [0, 1] when all confidences are |
| CausalReasoning.MeanConfidence | core/causal_reasoning.py:496-505 | the average over those edges, one half when there are none |
| CausalReasoning.AverageTimesNumber | core/causal_reasoning.py:496-505 | the average times the number of those edges is the sum of their confidences |
| InterventionReach.InterveneReaches | core/causal_reasoning.py:459-494 | on any graph: expands exactly the nodes within max_depth, uses each edge leaving a node within max_depth - 1 exactly once, and affects exactly the ends of those edges, which apart from the variable itself are the nodes at distance 1..max_depth |
| InterventionReach.SpreadStep | core/causal_reasoning.py:471-494 | one iteration keeps the invariant that ties waves, used edges and visited nodes to distances |
| InterventionValues.InterveneDelivers | core/causal_reasoning.py:459-494 | each affected value is the sum over the near edges into the variable of the edge's effect applied to what its origin forwarded, each edge once, and the total that of the absolute effects; a variable forwards what arrived first, along a shortest way, earlier expanded origins and then earlier edges of a row winning |
| InterventionValues.InterveneByInsertion | core/causal_reasoning.py:138-494 | on a graph built by adding edges: a variable is first reached from the earliest expanded of its origins, and variables first reached from the same origin arrive in the order in which the edges to them were first added |
| InterventionValues.TrackedStep | core/causal_reasoning.py:471-494 | one iteration keeps the invariant behind that sum |
| InterventionValues.ForwardsAlong | core/causal_reasoning.py:459-494 | on any graph, what a variable forwards is what the change becomes along a shortest walk to it, edge by edge |
| InterventionValues.SinglePathEffect | core/causal_reasoning.py:459-494 | with one near edge into each variable, and edges of any types, the value at the end of a path is what the change becomes along the path |
| InterventionValues.AlongIsGains | core/causal_reasoning.py:833-848 | without PREVENTS edges that is the change times the product of the strengths, weighted by type, hence times the cumulative strength when all are CAUSES |
| SignedEffects.EffectsKeepSign | core/causal_reasoning.py:459-494 | with positive strengths and no PREVENTS edge, every affected value has the sign of the change, so a value is nonzero exactly when the change is and the variable is affected |
| Intervention.InterveneIsHomogeneous | core/causal_reasoning.py:459-494 | scaling the change by k >= 0 scales every affected value and the total by k, PREVENTS edges included |
| CausalReasoning.TotalEffectBounds | core/causal_reasoning.py:459-494 | with strengths in [-1, 1] the total effect lies between the sum of absolute affected values and edges used times the absolute change |
| CausalReasoning.EdgeEffectBounded | core/causal_reasoning.py:833-848 | no edge type amplifies a change when the strength is in [-1, 1] |
| CausalReasoning.EdgeEffectOrder | core/causal_reasoning.py:833-848 | PREVENTS edges never raise; the others keep the direction, ENABLES weaker than MODULATES weaker than CAUSES |
| CausalReasoning.Engine.Counterfactual | core/causal_reasoning.py:526-584 | the reported delta and confidence are the intervention's; if no path is found to another variable nothing changed; to itself no path is ever found, and it is unchanged without a short cycle; on promoting graphs the exact condition for a change |
| CausalReasoning.TraversalsAgree | core/causal_reasoning.py:546-566 | path search and propagation agree: another variable is affected exactly when a simple path of at most max_depth edges leads to it |
| CausalReasoning.SelfObservation | core/causal_reasoning.py:546-566 | the intervened variable is never the end of a path, yet is affected exactly when it lies on a cycle of at most max_depth edges |
| CausalReasoning.SelfLoopChanges | core/causal_reasoning.py:546-566 | one edge from a variable to itself: no path is ever found and yet the variable changes |
| ObservationMatching.MatchObservations | core/causal_reasoning.py:783-815 | each turn takes the nearest unused observation within the gap, the earlier one on a tie |
| ObservationMatching.Nearest | core/causal_reasoning.py:803-811 | the inner scan finds that observation or reports there is none |
| ObservationMatching.GapIsDistance | core/causal_reasoning.py:803-811 | the gap is the distance in time, whichever observation comes first |
| ObservationMatching.GreedyIsInjectiveAndMaximal | core/causal_reasoning.py:783-815 | no observation is used twice, every pair is within the gap, and an unmatched one has all its candidates used by earlier turns |
| ObservationMatching.MatchedIsUnique | core/causal_reasoning.py:783-815 | the result is determined by the two series and the gap |
| ObservationMatching.SimultaneousIsZip | core/causal_reasoning.py:783-815 | when all timestamps coincide the result is the zip of the two series |
| StableSort.SortIsStable | core/causal_reasoning.py:800-802 | sorting is ascending, loses nothing, and keeps the order of equal keys |
| Correlation.CauchySchwarz | core/causal_reasoning.py:818-830 | the squared covariance sum never exceeds the product of the sums of squares, for any length |
| Correlation.PearsonIsBounded | core/causal_reasoning.py:818-830 | the coefficient always lies in [-1, 1] |
| Correlation.AffineIsPerfect | core/causal_reasoning.py:818-830 | it is exactly 1 or -1 between a non-constant series and an increasing or decreasing affine image of it |
| Correlation.StrengthIsLeastSquares | core/causal_reasoning.py:613-830 | the least squared error of a line through the pairs is 1 - r^2 times that of a level line, and r has the sign of its slope; fewer than three pairs have strength 0 |
| Correlation.EstimateStrength | core/causal_reasoning.py:613-626 | the correlation of given pairs, or of two greedily matched series, in [-1, 1] |
| CausalReasoning.Engine.EstimateStrength | core/causal_reasoning.py:590-626 | the same with the two series taken from the log |
| ObservationLog.ExtractSeries | core/causal_reasoning.py:606-614 | the logged observations of one variable, in order |
| ObservationLog.SeriesInOrder | core/causal_reasoning.py:606-614 | the k-th observation is the k-th logged entry of the variable, with its time and value |
| Deliberation.DeliberationGraph.AddHypothesis | core/deliberation.py:59-113 | appends one hypothesis with its confidence clamped to [0, 1] |
| Deliberation.DeliberationGraph.AddSupport | core/deliberation.py:115-139 | sets one support edge, or changes nothing when the weight is not positive or an end is unknown |
| Deliberation.DeliberationGraph.AddContradiction | core/deliberation.py:141-197 | records one contradiction between known hypotheses with clamped severity |
| Deliberation.DeliberationGraph.DetectContradictions | core/deliberation.py:199-217 | exactly the contradictions at or above the threshold, in order |
| Deliberation.DeliberationGraph.RankHypotheses | core/deliberation.py:360-398 | the stable sort of all hypotheses by descending score |
| Deliberation.RankingIsStable | core/deliberation.py:360-398 | the ranking lists every hypothesis, by descending score, ties in insertion order |
| Deliberation.ScoreInCounts | core/deliberation.py:371-385 | the score of a hypothesis times one more than the number of contradictions it is a side of is its confidence, once for itself and once for each supporter |
| Deliberation.SevereInOrder | core/deliberation.py:199-217 | the contradictions detected are all those at or above the threshold, in the order recorded |
| Deliberation.SupportBoosts | core/deliberation.py:371-385 | a new supporter raises the score of the hypothesis it supports, unless its confidence is zero, and no other score |
| Deliberation.ContradictionLowers | core/deliberation.py:374-385 | a new contradiction lowers the scores of its two sides, except where the confidence is zero, and no other score |
| Deliberation.HeadIsTopRanked | core/deliberation.py:267-275 | its head is the first hypothesis with the greatest score |
| Deliberation.DeliberationGraph.MaxFlowConsensus | core/deliberation.py:219-338 | nothing on an empty graph, the ranking's head without roots or leaves, and otherwise the value of a maximum flow on the support network with the first root of greatest positive inflow |
| Deliberation.NetworkIsWellFormed | core/deliberation.py:283-308 | the network has known ends and nonnegative capacities |
| Deliberation.EndsInOrder | core/deliberation.py:250-262 | roots and leaves stand in the order of the hypotheses |
| Deliberation.FlowWithinSupports | core/deliberation.py:289-312 | in every consensus a support carries at most the supporter's confidence times its weight, and roots and leaves pass at most their confidence |
| Deliberation.ChainConsensus | core/deliberation.py:289-338 | when the supports form one chain, the value is exactly the least of the first confidence, the last one, and each supporter's confidence times the weight of its support |
| Deliberation.ConsensusIsBounded | core/deliberation.py:289-338 | on any support graph: the value is at most the root confidences and at most the leaf confidences, a winner exists exactly when it is positive, and the winner carries at least an equal share and at most its confidence |
| Deliberation.WinnerExactlyWhen | core/deliberation.py:289-338 | a winner exists exactly when a chain of supports with positive confidences leads from a root to a leaf |
| Deliberation.ConsensusIsMinimumCut | core/deliberation.py:289-338 | on any support graph the value is the least, over all ways to split the hypotheses, of the confidences of the roots on the far side, of the leaves on the near side, and of what the supports across can carry |
| Deliberation.SymmetricConsensus | core/deliberation.py:250-338 | with symmetric support roots, leaves and isolated hypotheses coincide; if there are any, every maximum flow has the sum of their confidences as value and the first of the most confident as winner, or nobody when all are zero; otherwise the ranking decides |
| FlowConsensus.ValueAtSink | core/deliberation.py:310-312 | what leaves the source arrives at the sink |
| FlowConsensus.ValueIsBounded | core/deliberation.py:310-312 | a feasible flow exceeds neither the source's nor the sink's capacity |
| FlowConsensus.PickWinner | core/deliberation.py:314-326 | the loop finds the first root of greatest positive inflow |
| FlowConsensus.WinnerCarriesShare | core/deliberation.py:314-326 | a winner exists exactly when the flow is positive and carries at least an equal share of it |
| FlowConsensus.IsolatedAreSaturated | core/deliberation.py:289-312 | when roots are isolated every maximum flow fills all of them |
| FlowCuts.CutBounds | core/deliberation.py:310-312 | no flow exceeds the capacity of any cut, and it meets it exactly when it fills the edges across and uses none back |
| FlowCuts.Augment | core/deliberation.py:310-312 | a path in the residual network, between nodes with room at the source and the sink, yields a greater feasible flow |
| FlowCuts.MaximumExactlyWhen | core/deliberation.py:310-312 | a feasible flow is a maximum exactly when it saturates some cut |
| FlowCuts.MinimumCut | core/deliberation.py:310-312 | the value of a maximum flow is the least capacity of a cut |
| FlowChains.ChainFlow | core/deliberation.py:310-312 | on a network that is one chain, the value of a maximum flow is the least capacity on it |
| FlowPaths.PositiveExactlyWhen | core/deliberation.py:310-312 | a maximum flow is positive exactly when edges of positive capacity lead from source to sink |
| DeliberationEngine.JaccardRange | core/deliberation_engine.py:193-206 | in [0, 1] and symmetric; 1 exactly for equal word sets, 0 exactly for disjoint ones not both empty |
| DeliberationEngine.JaccardCounts | core/deliberation_engine.py:193-206 | times the number of all words it is the number of common ones |
| DeliberationEngine.JaccardTriangle | core/deliberation_engine.py:193-206 | 1 - similarity satisfies the triangle inequality |
| DeliberationEngine.CouplingRange | core/deliberation_engine.py:209-239 | in [0, 1] and symmetric; reaches the support threshold exactly when a keyword group is shared |
| DeliberationEngine.JudgeExactly | core/deliberation_engine.py:86-112 | when a pair supports or contradicts each other, in terms of words, topics and names; severities and weights never need clamping |
| DeliberationEngine.JudgeInCounts | core/deliberation_engine.py:86-112 | the verdict, its weight and its severity in counts of common words, of all words, of keyword groups touched by both and of name tokens |
| DeliberationEngine.ClashesExactly | core/deliberation_engine.py:100-108 | a contradiction is recorded exactly for the pairs judged contradictory |
| DeliberationEngine.ClashExactly | core/deliberation_engine.py:100-108 | a recorded contradiction names the two sides in the order compared, with the severity judged |
| DeliberationEngine.ClashesInOrder | core/deliberation_engine.py:86-108 | they are listed row by row, and within a row column by column, each once |
| DeliberationEngine.ConfidenceGrows | core/deliberation_engine.py:68-68 | confidence is 0 only for an empty answer, strictly grows with length, and is 1 from 500 characters on |
| DeliberationEngine.HypothesisOf | core/deliberation_engine.py:58-77 | the claim is the first 500 characters of the answer, the confidence their number in 500ths; what a missing answer or name becomes |
| DeliberationEngine.EntriesExactly | core/deliberation_engine.py:58-92 | what is compared of an answer: the words of all of it, not of the claim alone, and the tokens of its name |
| DeliberationEngine.Engine.Pose | core/deliberation_engine.py:58-77 | one hypothesis per perspective, in order, with its name, its first 500 characters and its confidence |
| DeliberationEngine.Engine.CompareAll | core/deliberation_engine.py:86-112 | after the pass exactly the judged pairs carry edges, one each way of equal weight, and the contradictions are listed row by row |
| DeliberationEngine.Engine.Deliberate | core/deliberation_engine.py:43-132 | the graph holds the hypotheses, exactly the supporting pairs symmetrically with the weights judged, and all contradictions, which are all returned; consensus and ranking are those of that graph |
| DeliberationEngine.ConsensusOfVerdicts | core/deliberation_engine.py:86-115 | the consensus in terms of the verdicts alone: the most confident of the perspectives nobody supports, or the ranking when every one is supported |
| DeliberationEngine.Engine.ResolveContradictions | core/deliberation_engine.py:134-174 | resolves each contradiction with both sides known, in order |
| DeliberationEngine.ResolveExactly | core/deliberation_engine.py:152-171 | the more confident side wins, the first one on a tie, and a contradiction with an unknown side is skipped |
| DeliberationEngine.ResolutionsConcat | core/deliberation_engine.py:146-174 | resolutions come in the order of the contradictions, each independent of the others |
| DeliberationEngine.ResolutionsAreFair | core/deliberation_engine.py:152-171 | with both sides known none is skipped and no winner is less confident than either side |
| ProfileMerge.MergeDict | core/config.py:235-248 | the recursive merge with its flag computes the merge function, and the flag is off exactly when the source already covers the target |
| ProfileMerge.MergeOverrides | core/config.py:773-780 | the other implementation computes the same function |
| ProfileMerge.CoveredIsUnchanged | core/config.py:235-248 | merging defaults under a profile that covers them returns the profile |
| ProfileMerge.UnchangedIsCovered | core/config.py:235-248 | and only then |
| ProfileMerge.MergeIsIdempotent | core/config.py:230-254 | normalizing twice is normalizing once |
| ProfileMerge.NormalizeRuntimeProfile | core/config.py:230-254 | `changed` is false exactly when the result equals the incoming object, and the result is a fixed point |
| ProfileMerge.LoadRuntimeProfile | core/config.py:783-793 | the loaded profile is always a fixed point of normalization |
| ProfileMerge.SecondNormalizationExactlyWhen | core/config.py:783-789 | the second normalization changes nothing exactly when, at every level, an object of the override that meets an object of the defaults is laid over an object of the profile or holds the default keys itself |
| ProfileMerge.NeverNeededExactlyWhen | core/config.py:783-789 | it changes nothing for every override exactly when the profile file has, at every level, an object or nothing for each nonempty object of the defaults |
| ProfileMerge.SecondNormalizationIsNeeded | core/config.py:786-789 | an override and a profile file for which it changes something |
| CloudAuth.BackoffMono | core/cloud_auth.py:176-182 | backoff is nondecreasing in the number of failures, between base and cap |
| CloudAuth.BackoffDoubles | core/cloud_auth.py:176-182 | the first failure costs 60 seconds, or 18000 for billing, and each further one doubles the wait until 3600, or 86400 |
| CloudAuth.CooldownTracker.RecordFailure | core/cloud_auth.py:176-183 | counts the failure and sets the deadline from it; other profiles are untouched |
| CloudAuth.RepeatedFailures | core/cloud_auth.py:176-183 | while failures of one kind repeat under monotone time the deadline never moves earlier and never passes now + cap |
| CloudAuth.DeadlineMovesEarlierExactlyWhen | core/cloud_auth.py:176-183 | from any tracker state, for two failures in a row of any kinds, exactly when the second moves the deadline earlier |
| CloudAuth.BillingThenOrdinary | core/cloud_auth.py:176-183 | a concrete case in which it does |
| CloudAuth.DictRoundTrip | core/cloud_auth.py:141-163 | a profile survives its dictionary form |
| CloudAuth.FromDictFields | core/cloud_auth.py:150-163 | each field is read from its own key, and what a missing key stands for |
| CloudAuth.PartitionOfId | core/cloud_auth.py:209-209 | splitting an id at its first colon gives back provider and label exactly when the provider has no colon |
| CloudAuth.PartitionOfPlain | core/cloud_auth.py:209-209 | a text without a colon has no label |
| CloudAuth.CloudAuthManager.AddApiKey | core/cloud_auth.py:208-217 | the stored profile is found again by its id exactly when the provider has no colon and the label is not empty |
| CloudAuth.CloudAuthManager.AddOAuthToken | core/cloud_auth.py:219-239 | the same for tokens, whose empty email becomes the default label, so only a colon in the provider loses the profile |
| CloudAuth.CloudAuthManager.RemoveProfile | core/cloud_auth.py:241-247 | deletes exactly that credential and that cooldown, and changes nothing for an id without a label |
| CloudAuth.LookupDelete | core/cloud_auth.py:241-247 | deleting one label leaves the lookup of every other as it was |
| CloudAuth.ListedExactly | core/cloud_auth.py:249-265 | the listing holds the profiles of the provider asked for, or of all providers for the empty id |
| CloudAuth.ListedInOrder | core/_database_fallback.py:249-249 | the listing is ordered by provider, and by label within a provider |
| CloudAuth.AvailableExactly | core/cloud_auth.py:286-290 | the available profiles are exactly those neither cooling down nor expired |
| CloudAuth.AvailableInOrder | core/cloud_auth.py:286-290 | they stand in the order of the listing |
| CloudAuth.WrapIsRemainder | core/cloud_auth.py:294-294 | an index beyond the profiles left is reduced by a multiple of their number |
| CloudAuth.CloudAuthManager.NextAvailableProfile | core/cloud_auth.py:282-296 | among the listed profiles never a cooling or expired one, none only if every one is, and the index moves on by one |
| CloudAuth.CloudAuthManager.Calls | core/cloud_auth.py:282-296 | consecutive calls on an unchanged set follow the rotation |
| CloudAuth.CloudAuthManager.ReportSuccess | core/cloud_auth.py:298-299 | forgets the failures and the deadline of that profile only |
| CloudAuth.CloudAuthManager.ReportFailure | core/cloud_auth.py:301-302 | records one failure of that profile at the given time |
| CloudAuth.RotationIsFair | core/cloud_auth.py:294-296 | any n consecutive calls on n profiles return each exactly once, from any index |

## Left out

- SQLite, JSON text, threads, locks, the event bus, logging and timestamps: tables are maps and sets, and each method is one step.
- The other filters of `list_goals`, `get_root_goals`, `decompose`, `replan_goal`, the intervention metrics and the summaries: queries and bookkeeping that add only easy members.
- GoalPlanner.Planner.CreateGoal: the postconditions, success criteria, confidence and result columns, because nothing modelled here reads them.
- GoalPlanner.Planner.UpdateStatus: only the status column of `update_goal`, because the other columns take part in no property here.
- GoalPlanner.Planner.ExecuteGoal: the executor is its outcome, so what it could read or change while the goal is active is not modelled.
- The order in which SQLite returns rows: any order is allowed, so which of several possible execution orders is returned is not determined. For `get_subtree` the answers of its queries are a parameter.
- `minimal_adjustment_sets`, `strongest_pathway`, `total_causal_effect`, episode discovery and `CounterfactualReasoner`: thin layers over the modelled searches.
- CausalGraph.Graph.ExportEdges: the order in which the records are listed, because importing them does not depend on it.
- CausalReasoning.Engine.Counterfactual: the explanation is reduced to whether a path was found; its wording is not modelled.
- Deliberation.DeliberationGraph.MaxFlowConsensus: the algorithm inside networkx, and the fallback for an exception raised by it, are not modelled; that a maximum flow exists is assumed of the solver.
- DeliberationEngine.Engine.Deliberate: the tokenizer with its stemming and the splitting of perspective names are arbitrary functions from texts to sets of words; evidence, reasons and the identifiers of contradictions are dropped.
- `enhance_ascension_deliberation` and the graph summary: compositions of the modelled calls.
- ProfileMerge.LoadRuntimeProfile: the list of validation rules is an arbitrary predicate, and reading the files and caching the result are not modelled.
- `configured_providers`, `status` and the request headers of providers: reporting only.
