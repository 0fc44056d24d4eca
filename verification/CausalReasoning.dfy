/** CausalReasoning: interventions and counterfactuals over a causal graph. */
module CausalReasoning {
  import opened Wrappers
  import opened Reals
  import opened Digraph
  import opened Sums
  import opened CausalEdges
  import opened CausalPaths
  import opened CausalGraph
  import opened Intervention
  import opened InterventionReach
  import opened SignedEffects
  import opened ObservationLog
  import Correlation

  const DEFAULT_DEPTH := 5
  const DEFAULT_LENGTH := 6

  datatype InterventionResult = InterventionResult(
    target: Variable, value: real, affected: map<Variable, real>, totalEffect: real, pathsUsed: nat,
    confidence: real)

  datatype CounterfactualResult = CounterfactualResult(
    factual: real, counterfactual: real, delta: real, affected: map<Variable, real>, pathFound: bool,
    confidence: real)

  /** y lies in [lo, hi] and differs from x only by being the bound that x is beyond. */
  predicate Clamped(lo: real, hi: real, x: real, y: real) {
    lo <= y <= hi && (x < y ==> y == lo) && (x > y ==> y == hi)
  }

  /** Queue a wave along each edge of a row; past the depth limit only towards nodes not
      visited yet. */
  method SendAlong(row: seq<Edge>, delta: real, depth: int, visited: set<Variable>,
                   maxDepth: int) returns (fan: seq<Wave>)
    ensures fan == Fan(row, delta, depth, visited, maxDepth)
  {
    fan := [];
    for i := 0 to |row|
      invariant fan == Fan(row[..i], delta, depth, visited, maxDepth)
    {
      assert row[..i + 1][..i] == row[..i];
      if row[i].effect !in visited || depth <= maxDepth {
        fan := fan + [Wave(row[i].effect, EdgeEffect(row[i], delta), depth)];
      }
    }
    assert row[..|row|] == row;
  }

  lemma RunStep(adj: Adjacency, maxDepth: int, s: Spread)
    requires Inside(adj, s.queue) && s.queue != []
    ensures Run(adj, maxDepth, s) == Run(adj, maxDepth, Step(adj, maxDepth, s))
  {
  }

  lemma RunDone(adj: Adjacency, maxDepth: int, s: Spread)
    requires s.queue == []
    ensures Run(adj, maxDepth, s) == s
  {
  }

  ghost predicate Bounded(edges: Edges) {
    forall p :: p in edges ==> -1.0 <= edges[p].strength <= 1.0 && 0.0 <= edges[p].confidence <= 1.0
  }

  // ----- The two traversals agree -----

  lemma NonemptyPaths(E: set<Pair>, source: Variable, target: Variable, maxLength: int, paths: seq<Path>)
    requires Enumerates(E, source, target, maxLength, paths)
    ensures paths != [] <==> Connected(E, source, target, maxLength + 1)
  {
    if paths != [] {
      assert paths[0] in paths;
    }
    var bound := maxLength + 1;
    if p :| CausalPath(E, source, target, bound, p) {
      assert p in paths;
    }
  }

  lemma NoPathToItself(E: set<Pair>, v: Variable, k: int)
    ensures !Connected(E, v, v, k)
  {
  }

  lemma ShorterBound(E: set<Pair>, source: Variable, target: Variable, k: int, bound: int)
    requires k <= bound && Connected(E, source, target, k)
    ensures Connected(E, source, target, bound)
  {
    var p :| CausalPath(E, source, target, k, p);
    assert CausalPath(E, source, target, bound, p);
  }

  /** A different node is within distance k exactly when a simple path of at most k edges
      leads to it. */
  lemma BallIsPaths(E: set<Pair>, source: Variable, target: Variable, k: int)
    requires source != target
    ensures target in Ball(E, source, k) <==> Connected(E, source, target, k)
  {
    BallIsWalks(E, source, k, target);
    if target in Ball(E, source, k) {
      var w :| Walk(E, source, w, target) && |w| - 1 <= k;
      var p := Shortcut(E, source, w, target);
      assert CausalPath(E, source, target, k, p);
    }
    forall p | CausalPath(E, source, target, k, p) ensures target in Ball(E, source, k) {
      assert Walk(E, source, p, target) && |p| - 1 <= k;
    }
  }

  /** For any depth and length limits with maxDepth <= maxLength + 1, a variable other than
      the intervened one is affected exactly when a simple path of at most maxDepth edges
      leads to it, so if no path is enumerated it is not affected. */
  lemma TraversalsAgree(adj: Adjacency, edges: Edges, variable: Variable, delta: real, maxDepth: int,
                        observe: Variable, maxLength: int, paths: seq<Path>)
    requires Holds(adj, Forward, edges) && Consistent(edges) && observe != variable
    requires Enumerates(edges.Keys, variable, observe, maxLength, paths) && maxDepth <= maxLength + 1
    ensures observe in Intervention.Intervene(adj, variable, delta, maxDepth).affected <==>
      Connected(edges.Keys, variable, observe, maxDepth)
    ensures paths == [] ==> observe !in Intervention.Intervene(adj, variable, delta, maxDepth).affected
  {
    var affected := Intervention.Intervene(adj, variable, delta, maxDepth).affected;
    InterveneReaches(adj, edges, variable, delta, maxDepth);
    BallIsPaths(edges.Keys, variable, observe, maxDepth);
    assert observe in affected.Keys - {variable} <==> observe in Ball(edges.Keys, variable, maxDepth) - {variable};
    NonemptyPaths(edges.Keys, variable, observe, maxLength, paths);
    if observe in affected {
      ShorterBound(edges.Keys, variable, observe, maxDepth, maxLength + 1);
    }
  }

  /** Some walk of one to k edges leads from v back to v. */
  ghost predicate OnShortCycle(E: set<Pair>, v: Variable, k: int) {
    exists w :: Walk(E, v, w, v) && 2 <= |w| <= k + 1
  }

  lemma CloseCycle(E: set<Pair>, v: Variable, k: int, u: Variable) returns (c: Path)
    requires (u, v) in E && u in Ball(E, v, k - 1)
    ensures Walk(E, v, c, v) && 2 <= |c| <= k + 1
  {
    BallIsWalks(E, v, k - 1, u);
    hide Ball;
    var w :| Walk(E, v, w, u) && |w| - 1 <= k - 1;
    assert Walk(E, u, [u, v], v);
    WalkConcat(E, v, w, u, [u, v], v);
    c := w + [u, v][1..];
  }

  lemma OpenCycle(E: set<Pair>, v: Variable, k: int, w: Path)
    requires Walk(E, v, w, v) && 2 <= |w| <= k + 1
    ensures (w[|w| - 2], v) in Near(E, v, k)
  {
    hide Ball;
    var u, t := w[|w| - 2], w[..|w| - 1];
    forall i | 0 <= i < |t| - 1 ensures (t[i], t[i + 1]) in E {
      assert t[i] == w[i] && t[i + 1] == w[i + 1];
    }
    assert (w[|w| - 2], w[|w| - 2 + 1]) in E;
    assert Walk(E, v, t, u) && |t| - 1 <= k - 1;
    BallIsWalks(E, v, k - 1, u);
  }

  lemma ShortCycle(E: set<Pair>, v: Variable, k: int)
    ensures (exists e :: e in Near(E, v, k) && e.1 == v) <==> OnShortCycle(E, v, k)
  {
    if e :| e in Near(E, v, k) && e.1 == v {
      var w := CloseCycle(E, v, k, e.0);
    }
    forall w | Walk(E, v, w, v) && 2 <= |w| <= k + 1 ensures exists e :: e in Near(E, v, k) && e.1 == v {
      OpenCycle(E, v, k, w);
    }
  }

  /** Observing the intervened variable itself is the exception: no path to itself is ever
      reported, yet it is affected exactly when it lies on a cycle of at most maxDepth edges. */
  lemma SelfObservation(adj: Adjacency, edges: Edges, variable: Variable, delta: real, maxDepth: int)
    requires Holds(adj, Forward, edges) && Consistent(edges)
    ensures !Connected(edges.Keys, variable, variable, maxDepth)
    ensures variable in Intervention.Intervene(adj, variable, delta, maxDepth).affected <==>
      OnShortCycle(edges.Keys, variable, maxDepth)
  {
    hide Intervention.Intervene;
    InterveneReaches(adj, edges, variable, delta, maxDepth);
    ShortCycle(edges.Keys, variable, maxDepth);
  }

  /** An instance: one edge from a variable to itself.  No path is ever found, and yet the
      variable changes with its own change. */
  lemma SelfLoopChanges(v: Variable, delta: real, maxDepth: int, maxLength: int) returns (adj: Adjacency, edges: Edges)
    requires delta != 0.0 && maxDepth >= 1
    ensures Holds(adj, Forward, edges) && Holds(adj, Backward, edges) && Consistent(edges)
    ensures !Connected(edges.Keys, v, v, maxLength + 1)
    ensures Get(Intervention.Intervene(adj, v, delta, maxDepth).affected, v) != 0.0
  {
    var e := Edge(v, v, Causes, 1.0, 1.0, Observed, 0, 0.0, map[]);
    adj, edges := map[v := [e]], map[(v, v) := e];
    forall u, side ensures IsRow(edges, Row(adj, u), u, side) {
    }
    SelfObservation(adj, edges, v, delta, maxDepth);
    NoPathToItself(edges.Keys, v, maxLength + 1);
    assert Walk(edges.Keys, v, [v, v], v);
    EffectsKeepSign(adj, v, delta, maxDepth);
  }

  // ----- Bounds on the total effect -----

  ghost function SumAbs(m: map<Variable, real>): real {
    Sum(m.Keys, v => Abs(Get(m, v)))
  }

  lemma SumAbsAdd(m: map<Variable, real>, v: Variable, x: real)
    ensures SumAbs(m[v := Get(m, v) + x]) <= SumAbs(m) + Abs(x)
  {
    var n := m[v := Get(m, v) + x];
    var f, g := (u: Variable) => Abs(Get(m, u)), (u: Variable) => Abs(Get(n, u));
    SumPick(n.Keys, g, v);
    SumSame(n.Keys - {v}, f, g);
    if v in m {
      SumPick(m.Keys, f, v);
      assert n.Keys == m.Keys;
    } else {
      assert n.Keys - {v} == m.Keys;
    }
  }

  predicate StrengthsBounded(adj: Adjacency) {
    forall v, e :: v in adj && e in adj[v] ==> -1.0 <= e.strength <= 1.0
  }

  lemma ProductSign(x: real, y: real)
    requires x >= 0.0 && y >= 0.0
    ensures x * y >= 0.0
  {
  }

  lemma ProductBounded(x: real, s: real)
    requires -1.0 <= s <= 1.0
    ensures Abs(x * s) <= Abs(x)
  {
    ProductSign(Abs(x), 1.0 - s);
    ProductSign(Abs(x), 1.0 + s);
    assert Abs(x) * (1.0 - s) == Abs(x) - Abs(x) * s && Abs(x) * (1.0 + s) == Abs(x) + Abs(x) * s;
  }

  lemma EdgeEffectBounded(e: Edge, delta: real)
    requires -1.0 <= e.strength <= 1.0
    ensures Abs(EdgeEffect(e, delta)) <= Abs(delta)
  {
    ProductBounded(delta, e.strength);
  }

  /** A PREVENTS edge never raises, whatever the change was; the others keep its direction,
      ENABLES more weakly than MODULATES, MODULATES more weakly than CAUSES. */
  lemma EdgeEffectOrder(e: Edge, delta: real)
    ensures EdgeEffect(e.(edgeType := Prevents), delta) == -Abs(EdgeEffect(e.(edgeType := Causes), delta)) <= 0.0
    ensures var enables, modulates, causes := EdgeEffect(e.(edgeType := Enables), delta),
        EdgeEffect(e.(edgeType := Modulates), delta), EdgeEffect(e.(edgeType := Causes), delta);
      if delta * e.strength > 0.0 then 0.0 < enables < modulates < causes
      else if delta * e.strength < 0.0 then 0.0 > enables > modulates > causes
      else enables == modulates == causes == 0.0
  {
  }

  lemma {:induction false} FanBounded(adj: Adjacency, v: Variable, k: nat, delta: real, depth: int,
                                      visited: set<Variable>, maxDepth: int)
    requires k <= |Row(adj, v)| && StrengthsBounded(adj)
    ensures forall w :: w in Fan(Row(adj, v)[..k], delta, depth, visited, maxDepth) ==> Abs(w.effect) <= Abs(delta)
  {
    if k == 0 {
    } else {
      var row := Row(adj, v);
      FanBounded(adj, v, k - 1, delta, depth, visited, maxDepth);
      assert row[..k][..k - 1] == row[..k - 1];
      assert row[k - 1] in adj[v];
      EdgeEffectBounded(row[k - 1], delta);
    }
  }

  ghost predicate Totals(s: Spread, bound: real) {
    && SumAbs(s.affected) <= s.total && s.total <= Times(s.used as real, bound)
    && forall w :: w in s.queue ==> Abs(w.effect) <= bound
  }

  lemma OneMoreTimes(n: nat, c: real)
    ensures Times((n + 1) as real, c) == Times(n as real, c) + c
  {
  }

  lemma StepTotals(adj: Adjacency, maxDepth: int, s: Spread, bound: real)
    requires StrengthsBounded(adj) && s.queue != [] && Inside(adj, s.queue) && Totals(s, bound)
    ensures Totals(Step(adj, maxDepth, s), bound)
  {
    hide SumAbs, Abs, StrengthsBounded, Times, EdgeEffect, Fan;
    var w, t := s.queue[0], Step(adj, maxDepth, s);
    assert w in s.queue;
    if w.depth <= maxDepth {
      SumAbsAdd(s.affected, w.node, w.effect);
      OneMoreTimes(s.used, bound);
      assert SumAbs(t.affected) <= t.total && t.total <= Times(t.used as real, bound);
      var row := Row(adj, w.node);
      assert row[..|row|] == row;
      FanBounded(adj, w.node, |row|, w.effect, w.depth + 1, s.visited + {w.node}, maxDepth);
    }
    forall x | x in t.queue ensures Abs(x.effect) <= bound {
      assert x in s.queue || (w.depth <= maxDepth && Abs(x.effect) <= Abs(w.effect));
    }
  }

  lemma {:induction false} RunTotals(adj: Adjacency, maxDepth: int, s: Spread, bound: real)
    requires StrengthsBounded(adj) && Inside(adj, s.queue) && Totals(s, bound)
    ensures Totals(Run(adj, maxDepth, s), bound)
    decreases Universe(adj) - s.visited, |s.queue|
  {
    if s.queue == [] {
    } else {
      StepTotals(adj, maxDepth, s, bound);
      RunTotals(adj, maxDepth, Step(adj, maxDepth, s), bound);
    }
  }

  /** With strengths in [-1, 1], the total effect is at least the sum of the absolute
      affected values and at most the number of edges used times the absolute change. */
  lemma TotalEffectBounds(adj: Adjacency, variable: Variable, delta: real, maxDepth: int)
    requires StrengthsBounded(adj)
    ensures var s := Intervention.Intervene(adj, variable, delta, maxDepth);
      SumAbs(s.affected) <= s.total <= Times(s.used as real, Abs(delta))
  {
    var row := Row(adj, variable);
    assert row[..|row|] == row;
    FanBounded(adj, variable, |row|, delta, 1, {}, 1);
    RunTotals(adj, maxDepth, Start(adj, variable, delta), Abs(delta));
  }

  // ----- The confidence of an intervention -----

  ghost function ConfidenceOf(edges: Edges, p: Pair): real {
    if p in edges then edges[p].confidence else 0.0
  }

  /** The edges between visited variables. */
  ghost function Inner(edges: Edges, visited: set<Variable>): set<Pair> {
    set p | p in edges && p.0 in visited && p.1 in visited
  }

  /** Their average confidence, one half if there are none. */
  ghost function AverageConfidence(edges: Edges, visited: set<Variable>): real {
    var inner := Inner(edges, visited);
    if inner == {} then 0.5 else Sum(inner, p => ConfidenceOf(edges, p)) / |inner| as real
  }

  /** One half without edges between visited variables, and otherwise what makes up their total
      confidence when taken for each of them. */
  lemma AverageTimesNumber(edges: Edges, visited: set<Variable>)
    ensures var inner := set p | p in edges && p.0 in visited && p.1 in visited;
      if inner == {} then AverageConfidence(edges, visited) == 0.5
      else AverageConfidence(edges, visited) * |inner| as real
           == Sum(inner, p => if p in edges then edges[p].confidence else 0.0)
  {
    var inner := Inner(edges, visited);
    assert inner == set p | p in edges && p.0 in visited && p.1 in visited;
    SumSame(inner, p => ConfidenceOf(edges, p), p => if p in edges then edges[p].confidence else 0.0);
    if inner != {} {
      assert |inner| > 0;
    }
  }

  lemma AverageInRange(edges: Edges, visited: set<Variable>)
    requires Bounded(edges)
    ensures 0.0 <= AverageConfidence(edges, visited) <= 1.0
  {
    var inner, f := Inner(edges, visited), (p: Pair) => ConfidenceOf(edges, p);
    if inner != {} {
      SumLe(inner, _ => 0.0, f);
      SumZero<Pair>(inner, _ => 0.0);
      SumBounded(inner, f, 1.0);
    }
  }

  /** The edges whose records have been read. */
  ghost function Read(edges: Edges, records: seq<Record>): set<Pair> {
    set p | p in edges && Encode(edges[p]) in records
  }

  lemma ReadOneMore(edges: Edges, records: seq<Record>, k: nat) returns (e: Edge)
    requires Consistent(edges) && IsExport(edges, records) && k < |records|
    ensures Held(edges, e) && records[k] == Encode(e)
    ensures (e.cause, e.effect) !in Read(edges, records[..k])
    ensures Read(edges, records[..k + 1]) == Read(edges, records[..k]) + {(e.cause, e.effect)}
  {
    assert records[k] in records;
    e :| Held(edges, e) && records[k] == Encode(e);
    assert records[..k + 1] == records[..k] + [records[k]];
    forall p | p in edges && Encode(edges[p]) == records[k] ensures p == (e.cause, e.effect) {
    }
    assert forall i :: 0 <= i < k ==> records[i] != records[k];
  }

  /** The sum and the number of the confidences of the inner edges among those seen. */
  ghost predicate Averaged(edges: Edges, visited: set<Variable>, seen: set<Pair>, total: real, count: nat) {
    var inner := Inner(edges, visited) * seen;
    count == |inner| && total == Sum(inner, p => ConfidenceOf(edges, p))
  }

  lemma AveragedOneMore(edges: Edges, visited: set<Variable>, seen: set<Pair>, total: real, count: nat, e: Edge)
    requires Averaged(edges, visited, seen, total, count) && Held(edges, e) && (e.cause, e.effect) !in seen
    ensures var more := seen + {(e.cause, e.effect)};
      if e.cause in visited && e.effect in visited
      then Averaged(edges, visited, more, total + e.confidence, count + 1)
      else Averaged(edges, visited, more, total, count)
  {
    var p := (e.cause, e.effect);
    var before, after := Inner(edges, visited) * seen, Inner(edges, visited) * (seen + {p});
    if e.cause in visited && e.effect in visited {
      assert after == before + {p} && after - {p} == before;
      SumPick(after, q => ConfidenceOf(edges, q), p);
    } else {
      assert after == before;
    }
  }

  lemma RecordFields(e: Edge)
    ensures Encode(e).cause == Some(e.cause) && Encode(e).effect == Some(e.effect)
    ensures Encode(e).confidence == Some(e.confidence)
  {
  }

  lemma NothingAveraged(edges: Edges, visited: set<Variable>, records: seq<Record>)
    requires records == []
    ensures Averaged(edges, visited, Read(edges, records), 0.0, 0)
  {
    assert Inner(edges, visited) * Read(edges, records) == {};
  }

  lemma AllAveraged(edges: Edges, visited: set<Variable>, records: seq<Record>, total: real, count: nat)
    requires IsExport(edges, records) && Consistent(edges)
    requires Averaged(edges, visited, Read(edges, records), total, count)
    ensures AverageConfidence(edges, visited) == if count > 0 then total / count as real else 0.5
  {
    forall p | p in edges ensures Encode(edges[p]) in records {
      assert Held(edges, edges[p]);
    }
    assert Inner(edges, visited) * Read(edges, records) == Inner(edges, visited);
  }

  lemma ValidIsConsistent(graph: Graph)
    requires graph.Valid()
    ensures Consistent(graph.edges)
  {
  }

  method MeanConfidence(graph: Graph, visited: set<Variable>) returns (mean: real)
    requires graph.Valid()
    ensures mean == AverageConfidence(graph.edges, visited)
  {
    hide Encode, Graph.Valid, IsExport, Read, Consistent, Held, AverageConfidence, Averaged;
    ghost var edges := graph.edges;
    ValidIsConsistent(graph);
    var records := graph.ExportEdges();
    var total, count := 0.0, 0;
    NothingAveraged(edges, visited, records[..0]);
    for k := 0 to |records|
      invariant count >= 0 && Averaged(edges, visited, Read(edges, records[..k]), total, count)
    {
      ghost var e := ReadOneMore(edges, records, k);
      AveragedOneMore(edges, visited, Read(edges, records[..k]), total, count, e);
      RecordFields(e);
      if records[k].cause.value in visited && records[k].effect.value in visited {
        total, count := total + records[k].confidence.value, count + 1;
      }
    }
    assert records[..|records|] == records;
    AllAveraged(edges, visited, records, total, count);
    mean := if count > 0 then total / count as real else 0.5;
  }

  // ----- The engine -----

  class Engine {
    const graph: Graph
    var state: map<Variable, real>
    var observations: seq<Entry>

    constructor (graph: Graph)
      ensures this.graph == graph && state == map[] && observations == LogOf([])
    {
      this.graph := graph;
      state, observations := map[], [];
    }

    method SetVariable(name: Variable, value: real, now: real)
      modifies this
      ensures state == old(state)[name := value]
      ensures observations == Logged(old(observations), Entry(now, name, value))
    {
      state := state[name := value];
      observations := observations + [Entry(now, name, value)];
      if |observations| > LOG_LIMIT {
        observations := observations[|observations| - LOG_KEPT..];
      }
    }

    /** The correlation of the given pairs of values, or else of the logged observations of
        the two variables, matched by time. */
    method EstimateStrength(cause: Variable, effect: Variable, given: Option<seq<(real, real)>>, sqrt: real -> real)
      returns (r: real)
      requires Correlation.IsSqrt(sqrt)
      ensures -1.0 <= r <= 1.0
      ensures given.Some? ==> r == Correlation.PairsStrength(given.value, sqrt)
      ensures given.None? ==>
        Correlation.SeriesStrength(Series(observations, cause), Series(observations, effect), 60.0, sqrt, r)
    {
      var causes := ExtractSeries(observations, cause);
      var effects := ExtractSeries(observations, effect);
      r := Correlation.EstimateStrength(given, causes, effects, sqrt);
    }

    /** add_cause clamps the strength to [-1, 1] and the confidence to [0, 1]. */
    method AddCause(cause: Variable, effect: Variable, edgeType: EdgeType, strength: real, confidence: real,
                    level: ConfidenceLevel, evidenceCount: int, now: real) returns (edge: Edge)
      requires graph.Valid()
      modifies graph
      ensures graph.Valid() && graph.edges == old(graph.edges)[(cause, effect) := edge]
      ensures edge == Edge(cause, effect, edgeType, edge.strength, edge.confidence, level, evidenceCount, now, map[])
      ensures EdgeAdded(old(graph.forward), graph.forward, edge, Forward)
      ensures EdgeAdded(old(graph.backward), graph.backward, edge, Backward)
      ensures Clamped(-1.0, 1.0, strength, edge.strength) && Clamped(0.0, 1.0, confidence, edge.confidence)
      ensures old(Bounded(graph.edges)) ==> Bounded(graph.edges)
    {
      edge := Edge(cause, effect, edgeType, Clamp(-1.0, 1.0, strength), Clamp(0.0, 1.0, confidence), level,
                   evidenceCount, now, map[]);
      graph.AddEdge(edge);
    }

    /** do(variable = value): the change spreads breadth-first along outgoing edges. */
    method Intervene(variable: Variable, value: real, maxDepth: int) returns (r: InterventionResult)
      requires graph.Valid()
      ensures var s := Intervention.Intervene(graph.forward, variable, value - Get(state, variable), maxDepth);
        r == InterventionResult(variable, value, s.affected, s.total, s.used, AverageConfidence(graph.edges, s.visited))
      ensures Bounded(graph.edges) ==> 0.0 <= r.confidence <= 1.0
    {
      hide Run, Fan, EdgeEffect, Abs, AverageConfidence, Bounded;
      var delta := value - Get(state, variable);
      var adj := graph.forward;
      var affected: map<Variable, real> := map[];
      var visited := {variable};
      var queue := SendAlong(Row(adj, variable), delta, 1, {}, 1);
      var totalEffect, pathsUsed := 0.0, 0;
      ghost var goal := Intervention.Intervene(adj, variable, delta, maxDepth);
      while |queue| > 0
        invariant Inside(adj, queue)
        invariant Run(adj, maxDepth, Spread(queue, visited, affected, totalEffect, pathsUsed)) == goal
        decreases Universe(adj) - visited, |queue|
      {
        ghost var before := Spread(queue, visited, affected, totalEffect, pathsUsed);
        RunStep(adj, maxDepth, before);
        var w := queue[0];
        queue := queue[1..];
        if w.depth <= maxDepth {
          affected := affected[w.node := Get(affected, w.node) + w.effect];
          totalEffect := totalEffect + Abs(w.effect);
          pathsUsed := pathsUsed + 1;
          if w.node !in visited {
            visited := visited + {w.node};
            var fan := SendAlong(Row(adj, w.node), w.effect, w.depth + 1, visited, maxDepth);
            queue := queue + fan;
          }
        }
        assert Spread(queue, visited, affected, totalEffect, pathsUsed) == Step(adj, maxDepth, before);
      }
      RunDone(adj, maxDepth, Spread(queue, visited, affected, totalEffect, pathsUsed));
      var confidence := MeanConfidence(graph, visited);
      if Bounded(graph.edges) {
        AverageInRange(graph.edges, visited);
      }
      r := InterventionResult(variable, value, affected, totalEffect, pathsUsed, confidence);
    }

    /** What observe would be had variable been value; pathFound is whether the explanation
        names a causal path.  When it names none, nothing was predicted to change, unless the
        variable asks about itself: to itself no path is ever named, and it stays unchanged
        when no short enough cycle leads back to it.  With promoting edges only, a change is
        predicted exactly when the value does change and reaches the observed variable. */
    method Counterfactual(variable: Variable, value: real, observe: Variable) returns (r: CounterfactualResult)
      requires graph.Valid()
      ensures var s := Intervention.Intervene(graph.forward, variable, value - Get(state, variable), 5);
        && r.affected == s.affected && r.delta == Get(s.affected, observe)
        && r.confidence == AverageConfidence(graph.edges, s.visited)
      ensures r.factual == Get(state, observe) && r.counterfactual == r.factual + r.delta
      ensures r.pathFound <==> Connected(graph.edges.Keys, variable, observe, 7)
      ensures observe != variable && !r.pathFound ==> r.delta == 0.0 && observe !in r.affected
      ensures observe == variable ==> !r.pathFound
      ensures observe == variable && !OnShortCycle(graph.edges.Keys, variable, 5) ==> r.delta == 0.0
      ensures Promoting(graph.forward) ==>
        (r.delta != 0.0 <==>
          value != Get(state, variable) &&
          if observe == variable then OnShortCycle(graph.edges.Keys, variable, 5)
          else Connected(graph.edges.Keys, variable, observe, 5))
    {
      hide Run, Intervention.Intervene, Connected, OnShortCycle, Enumerates, Faithful, Promoting, AverageConfidence;
      var factual := Get(state, observe);
      var i := Intervene(variable, value, DEFAULT_DEPTH);
      var delta := Get(i.affected, observe);
      var paths := graph.FindCausalPaths(variable, observe, DEFAULT_LENGTH);
      NonemptyPaths(graph.edges.Keys, variable, observe, DEFAULT_LENGTH, PathsOf(paths));
      ghost var change := value - Get(state, variable);
      if observe != variable {
        TraversalsAgree(graph.forward, graph.edges, variable, change, DEFAULT_DEPTH,
                        observe, DEFAULT_LENGTH, PathsOf(paths));
      } else {
        SelfObservation(graph.forward, graph.edges, variable, change, DEFAULT_DEPTH);
        NoPathToItself(graph.edges.Keys, variable, DEFAULT_LENGTH + 1);
      }
      if Promoting(graph.forward) {
        EffectsKeepSign(graph.forward, variable, change, DEFAULT_DEPTH);
      }
      r := CounterfactualResult(factual, factual + delta, delta, i.affected, |paths| > 0, i.confidence);
    }
  }
}
