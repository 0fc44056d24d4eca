/** CausalReasoning.intervene: breadth-first propagation of a change, as a function of the
    forward adjacency map, with what it computes stated by distances. */
module Intervention {
  import opened Reals
  import opened CausalEdges

  type Adjacency = map<Variable, seq<Edge>>

  /** The effect an edge passes on. */
  function EdgeEffect(e: Edge, delta: real): real {
    var base := delta * e.strength;
    match e.edgeType
    case Prevents => -Abs(base)
    case Enables => base * 0.6
    case Modulates => base * 0.8
    case Causes => base
  }

  /** An effect on its way to a node. */
  datatype Wave = Wave(node: Variable, effect: real, depth: int)

  datatype Spread = Spread(
    queue: seq<Wave>,
    visited: set<Variable>,
    affected: map<Variable, real>,
    total: real,
    used: nat)

  /** The waves leaving a node along its row; past the depth limit only towards nodes not
      visited yet. */
  function Fan(row: seq<Edge>, delta: real, depth: int, visited: set<Variable>, maxDepth: int): seq<Wave> {
    if row == [] then []
    else
      var e := row[|row| - 1];
      var before := Fan(row[..|row| - 1], delta, depth, visited, maxDepth);
      if e.effect !in visited || depth <= maxDepth
      then before + [Wave(e.effect, EdgeEffect(e, delta), depth)]
      else before
  }

  /** All variables that waves can arrive at. */
  function Universe(adj: Adjacency): set<Variable> {
    set v, e | v in adj && e in adj[v] :: e.effect
  }

  predicate Inside(adj: Adjacency, queue: seq<Wave>) {
    forall w :: w in queue ==> w.node in Universe(adj)
  }

  lemma {:induction false} FanInside(adj: Adjacency, v: Variable, k: nat, delta: real, depth: int,
                                     visited: set<Variable>, maxDepth: int)
    requires k <= |Row(adj, v)|
    ensures Inside(adj, Fan(Row(adj, v)[..k], delta, depth, visited, maxDepth))
  {
    if k == 0 {
    } else {
      var row := Row(adj, v);
      FanInside(adj, v, k - 1, delta, depth, visited, maxDepth);
      assert row[..k][..k - 1] == row[..k - 1];
      assert row[k - 1] in adj[v];
    }
  }

  /** One iteration of the loop. */
  function Step(adj: Adjacency, maxDepth: int, s: Spread): (t: Spread)
    requires s.queue != [] && Inside(adj, s.queue)
    ensures Inside(adj, t.queue)
    ensures (t.visited == s.visited && |t.queue| < |s.queue|) ||
            (s.visited < t.visited && Universe(adj) - t.visited < Universe(adj) - s.visited)
  {
    var w, rest := s.queue[0], s.queue[1..];
    if w.depth > maxDepth then s.(queue := rest)
    else
      var affected := s.affected[w.node := Get(s.affected, w.node) + w.effect];
      if w.node in s.visited then
        Spread(rest, s.visited, affected, s.total + Abs(w.effect), s.used + 1)
      else
        var visited := s.visited + {w.node};
        var row := Row(adj, w.node);
        var fan := Fan(row, w.effect, w.depth + 1, visited, maxDepth);
        assert row[..|row|] == row;
        FanInside(adj, w.node, |row|, w.effect, w.depth + 1, visited, maxDepth);
        assert w in s.queue && w.node in Universe(adj) - s.visited;
        Spread(rest + fan, visited, affected, s.total + Abs(w.effect), s.used + 1)
  }

  /** The whole loop. */
  function Run(adj: Adjacency, maxDepth: int, s: Spread): Spread
    requires Inside(adj, s.queue)
    decreases Universe(adj) - s.visited, |s.queue|
  {
    if s.queue == [] then s else Run(adj, maxDepth, Step(adj, maxDepth, s))
  }

  /** The waves from the intervened variable itself are sent unconditionally. */
  function Start(adj: Adjacency, variable: Variable, delta: real): (s: Spread)
    ensures Inside(adj, s.queue)
  {
    var row := Row(adj, variable);
    assert row[..|row|] == row;
    FanInside(adj, variable, |row|, delta, 1, {}, 1);
    Spread(Fan(row, delta, 1, {}, 1), {variable}, map[], 0.0, 0)
  }

  function Intervene(adj: Adjacency, variable: Variable, delta: real, maxDepth: int): Spread {
    Run(adj, maxDepth, Start(adj, variable, delta))
  }

  // ----- Homogeneity -----

  function ScaleWave(k: real, w: Wave): Wave {
    Wave(w.node, Times(k, w.effect), w.depth)
  }

  function ScaleQueue(k: real, queue: seq<Wave>): (r: seq<Wave>)
    ensures |r| == |queue| && forall i :: 0 <= i < |queue| ==> r[i] == ScaleWave(k, queue[i])
  {
    seq(|queue|, i requires 0 <= i < |queue| => ScaleWave(k, queue[i]))
  }

  function Scale(k: real, s: Spread): Spread {
    var affected := map v | v in s.affected :: Times(k, s.affected[v]);
    Spread(ScaleQueue(k, s.queue), s.visited, affected, Times(k, s.total), s.used)
  }

  lemma AbsScales(k: real, x: real)
    requires k >= 0.0
    ensures Abs(Times(k, x)) == Times(k, Abs(x))
  {
    if x >= 0.0 {
      assert k * x >= 0.0;
    } else {
      assert k * x <= 0.0;
      assert k * (-x) == -(k * x);
    }
  }

  lemma EdgeEffectScales(e: Edge, k: real, delta: real)
    requires k >= 0.0
    ensures EdgeEffect(e, Times(k, delta)) == Times(k, EdgeEffect(e, delta))
  {
    var base := delta * e.strength;
    assert k * delta * e.strength == k * base;
    AbsScales(k, base);
  }

  lemma TimesAdds(k: real, x: real, y: real)
    ensures Times(k, x + y) == Times(k, x) + Times(k, y) && Times(k, 0.0) == 0.0
  {
  }

  lemma {:induction false} FanScales(row: seq<Edge>, k: real, delta: real, depth: int, visited: set<Variable>,
                                     maxDepth: int)
    requires k >= 0.0
    ensures Fan(row, Times(k, delta), depth, visited, maxDepth) ==
      ScaleQueue(k, Fan(row, delta, depth, visited, maxDepth))
  {
    if row == [] {
    } else {
      FanScales(row[..|row| - 1], k, delta, depth, visited, maxDepth);
      EdgeEffectScales(row[|row| - 1], k, delta);
      hide EdgeEffect, Times;
      var before := Fan(row[..|row| - 1], delta, depth, visited, maxDepth);
      var last := Wave(row[|row| - 1].effect, EdgeEffect(row[|row| - 1], delta), depth);
      assert ScaleQueue(k, before + [last]) == ScaleQueue(k, before) + [ScaleWave(k, last)];
    }
  }

  lemma AffectedScales(k: real, s: Spread, w: Wave)
    ensures var t := s.affected[w.node := Get(s.affected, w.node) + w.effect];
      Scale(k, s).affected[w.node := Get(Scale(k, s).affected, w.node) + Times(k, w.effect)]
      == map v | v in t :: Times(k, t[v])
  {
    TimesAdds(k, Get(s.affected, w.node), w.effect);
  }

  lemma ScaledInside(adj: Adjacency, k: real, queue: seq<Wave>)
    requires Inside(adj, queue)
    ensures Inside(adj, ScaleQueue(k, queue))
  {
    forall w | w in ScaleQueue(k, queue) ensures w.node in Universe(adj) {
      var i :| 0 <= i < |queue| && ScaleQueue(k, queue)[i] == w;
      assert queue[i] in queue;
    }
  }

  lemma StepScales(adj: Adjacency, maxDepth: int, k: real, s: Spread)
    requires k >= 0.0 && s.queue != [] && Inside(adj, s.queue)
    ensures Inside(adj, Scale(k, s).queue)
    ensures Step(adj, maxDepth, Scale(k, s)) == Scale(k, Step(adj, maxDepth, s))
  {
    hide Times, Abs, Inside, Fan;
    var w, rest := s.queue[0], s.queue[1..];
    ScaledInside(adj, k, s.queue);
    assert ScaleQueue(k, s.queue)[1..] == ScaleQueue(k, rest);
    if w.depth <= maxDepth {
      AbsScales(k, w.effect);
      TimesAdds(k, s.total, Abs(w.effect));
      AffectedScales(k, s, w);
      if w.node !in s.visited {
        var visited := s.visited + {w.node};
        var row := Row(adj, w.node);
        FanScales(row, k, w.effect, w.depth + 1, visited, maxDepth);
        var fan := Fan(row, w.effect, w.depth + 1, visited, maxDepth);
        assert ScaleQueue(k, rest + fan) == ScaleQueue(k, rest) + ScaleQueue(k, fan);
      }
    }
  }

  lemma {:induction false} RunScales(adj: Adjacency, maxDepth: int, k: real, s: Spread)
    requires k >= 0.0 && Inside(adj, s.queue)
    ensures Inside(adj, Scale(k, s).queue)
    ensures Run(adj, maxDepth, Scale(k, s)) == Scale(k, Run(adj, maxDepth, s))
    decreases Universe(adj) - s.visited, |s.queue|
  {
    ScaledInside(adj, k, s.queue);
    if s.queue == [] {
    } else {
      StepScales(adj, maxDepth, k, s);
      RunScales(adj, maxDepth, k, Step(adj, maxDepth, s));
    }
  }

  /** Scaling the change by k >= 0 scales every affected value and the total effect by k
      and leaves the traversal as it was, PREVENTS edges included. */
  lemma InterveneIsHomogeneous(adj: Adjacency, variable: Variable, delta: real, maxDepth: int, k: real)
    requires k >= 0.0
    ensures Intervene(adj, variable, Times(k, delta), maxDepth) == Scale(k, Intervene(adj, variable, delta, maxDepth))
  {
    FanScales(Row(adj, variable), k, delta, 1, {}, 1);
    TimesAdds(k, 0.0, 0.0);
    assert Start(adj, variable, Times(k, delta)) == Scale(k, Start(adj, variable, delta));
    RunScales(adj, maxDepth, k, Start(adj, variable, delta));
  }
}
