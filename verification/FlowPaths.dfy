/** When a flow network carries anything at all: exactly when some chain of edges with
    positive capacity leads from the source to the sink. */
module FlowPaths {
  import opened Reals
  import opened Digraph
  import opened Sums
  import opened FlowConsensus
  import opened FlowCuts

  ghost function Positive(m: map<Pair, real>): set<Pair> {
    set e | e in m && m[e] > 0.0
  }

  ghost predicate Channel(n: Network, p: seq<Id>) {
    && IsWalk(Positive(n.between), p)
    && Get(n.fromSource, p[0]) > 0.0 && Get(n.toSink, p[|p| - 1]) > 0.0
  }

  ghost function Still(n: Network): Flow {
    Flow(map u | u in n.fromSource :: 0.0, map u | u in n.toSink :: 0.0, map e | e in n.between :: 0.0)
  }

  lemma StillIsFeasible(n: Network)
    requires WellFormed(n)
    ensures Feasible(n, Still(n)) && Value(Still(n)) == 0.0
  {
    var f := Still(n);
    var get := (e: Pair) => Get(f.between, e);
    forall u | u in n.nodes ensures Entering(f, u) == Leaving(f, u) {
      SumZero((set e | e in f.between.Keys && e.1 == u), get);
      SumZero((set e | e in f.between.Keys && e.0 == u), get);
    }
    SumZero(f.fromSource.Keys, u => Get(f.fromSource, u));
  }

  /** A channel makes room for a positive flow. */
  lemma ChannelCarries(n: Network, p: seq<Id>) returns (g: Flow)
    requires WellFormed(n) && Channel(n, p)
    ensures Feasible(n, g) && Value(g) > 0.0
  {
    var f := Still(n);
    StillIsFeasible(n);
    assert Positive(n.between) <= Residual(n, f);
    hide Feasible, Value;
    g := Augment(n, f, p[0], p, p[|p| - 1]);
  }

  ghost predicate Fed(n: Network, v: Id) {
    exists u :: Get(n.fromSource, u) > 0.0 && Reach(Positive(n.between), u, v)
  }

  lemma FedSpreads(n: Network, e: Pair)
    requires e in Positive(n.between) && Fed(n, e.0)
    ensures Fed(n, e.1)
  {
    var u :| Get(n.fromSource, u) > 0.0 && Reach(Positive(n.between), u, e.0);
    ReachEdge(Positive(n.between), u, e.0, e.1);
  }

  lemma FedSink(n: Network, v: Id)
    requires Fed(n, v) && Get(n.toSink, v) > 0.0
    ensures exists p :: Channel(n, p)
  {
    var u :| Get(n.fromSource, u) > 0.0 && Reach(Positive(n.between), u, v);
    var p :| Walk(Positive(n.between), u, p, v);
    assert Channel(n, p);
  }

  /** Without a channel, even the empty flow saturates the cut at what the source can feed. */
  lemma NoChannel(n: Network)
    requires WellFormed(n) && !exists p :: Channel(n, p)
    ensures Feasible(n, Still(n))
    ensures Saturates(n, Still(n), set v | v in n.nodes && Fed(n, v))
  {
    var f, r := Still(n), set v | v in n.nodes && Fed(n, v);
    StillIsFeasible(n);
    assert r <= n.nodes && forall v :: v in n.nodes ==> (v in r <==> Fed(n, v));
    forall u | u in n.fromSource && u !in r ensures n.fromSource[u] == 0.0 {
      ReachSelf(Positive(n.between), u);
    }
    forall v | v in n.toSink && v in r ensures n.toSink[v] == 0.0 {
      if n.toSink[v] > 0.0 {
        FedSink(n, v);
      }
    }
    forall e | e in Crossing(n.between.Keys, r) ensures n.between[e] == 0.0 {
      if n.between[e] > 0.0 {
        FedSpreads(n, e);
      }
    }
    hide Feasible, Fed, Channel;
  }

  /** A maximum flow is positive exactly when the network has a channel. */
  lemma PositiveExactlyWhen(n: Network, f: Flow)
    requires WellFormed(n) && MaximumFlow(n, f)
    ensures Value(f) > 0.0 <==> exists p :: Channel(n, p)
  {
    hide Value;
    if p :| Channel(n, p) {
      var g := ChannelCarries(n, p);
    } else {
      var r := set v | v in n.nodes && Fed(n, v);
      NoChannel(n);
      StillIsFeasible(n);
      CutBounds(n, Still(n), r);
      CutBounds(n, f, r);
    }
  }
}
