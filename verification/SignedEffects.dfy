/** Graphs of promoting edges only, where every effect has the sign of the change: a variable
    then changes exactly when the change reaches it. */
module SignedEffects {
  import opened Reals
  import opened CausalEdges
  import opened Intervention

  ghost predicate SameSign(x: real, d: real) {
    (d > 0.0 ==> x > 0.0) && (d < 0.0 ==> x < 0.0) && (d == 0.0 ==> x == 0.0)
  }

  /** Every strength is positive and no edge is of type PREVENTS. */
  predicate Promoting(adj: Adjacency) {
    forall v, e :: v in adj && e in adj[v] ==> e.strength > 0.0 && !e.edgeType.Prevents?
  }

  ghost predicate Signed(s: Spread, d: real) {
    && (forall w :: w in s.queue ==> SameSign(w.effect, d))
    && (forall v :: v in s.affected ==> SameSign(s.affected[v], d))
  }

  lemma {:induction false} FanSigned(adj: Adjacency, v: Variable, k: nat, x: real, depth: int, visited: set<Variable>,
                                     maxDepth: int, d: real)
    requires k <= |Row(adj, v)| && Promoting(adj) && SameSign(x, d)
    ensures forall w :: w in Fan(Row(adj, v)[..k], x, depth, visited, maxDepth) ==> SameSign(w.effect, d)
  {
    if k == 0 {
    } else {
      var row := Row(adj, v);
      FanSigned(adj, v, k - 1, x, depth, visited, maxDepth, d);
      assert row[..k][..k - 1] == row[..k - 1];
      assert row[k - 1] in adj[v];
    }
  }

  lemma StepSigned(adj: Adjacency, maxDepth: int, s: Spread, d: real)
    requires Promoting(adj) && s.queue != [] && Inside(adj, s.queue) && Signed(s, d)
    ensures Signed(Step(adj, maxDepth, s), d)
  {
    hide Fan, EdgeEffect, Promoting;
    var w, t := s.queue[0], Step(adj, maxDepth, s);
    assert w in s.queue;
    if w.depth <= maxDepth {
      var row := Row(adj, w.node);
      assert row[..|row|] == row;
      FanSigned(adj, w.node, |row|, w.effect, w.depth + 1, s.visited + {w.node}, maxDepth, d);
    }
    forall x | x in t.queue ensures SameSign(x.effect, d) {
      if x !in s.queue {
        assert w.depth <= maxDepth && w.node !in s.visited;
      }
    }
  }

  lemma {:induction false} RunSigned(adj: Adjacency, maxDepth: int, s: Spread, d: real)
    requires Promoting(adj) && Inside(adj, s.queue) && Signed(s, d)
    ensures Signed(Run(adj, maxDepth, s), d)
    decreases Universe(adj) - s.visited, |s.queue|
  {
    if s.queue == [] {
    } else {
      StepSigned(adj, maxDepth, s, d);
      RunSigned(adj, maxDepth, Step(adj, maxDepth, s), d);
    }
  }

  /** Every affected value has the sign of the change, so a variable ends up with a change
      exactly when there was one and it is affected. */
  lemma EffectsKeepSign(adj: Adjacency, variable: Variable, delta: real, maxDepth: int)
    requires Promoting(adj)
    ensures var affected := Intervene(adj, variable, delta, maxDepth).affected;
      && (forall v :: v in affected ==> SameSign(affected[v], delta))
      && (forall v :: Get(affected, v) != 0.0 <==> delta != 0.0 && v in affected)
  {
    var row := Row(adj, variable);
    assert row[..|row|] == row;
    FanSigned(adj, variable, |row|, delta, 1, {}, 1, delta);
    RunSigned(adj, maxDepth, Start(adj, variable, delta), delta);
  }
}
