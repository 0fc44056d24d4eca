/** The flow network of max_flow_consensus, and what any maximum flow on it implies. */
module FlowConsensus {
  import opened Wrappers
  import opened Reals
  import opened Sequences
  import opened Sums

  type Id = string
  type Pair = (Id, Id)

  /** Capacities of the edges from the virtual source, to the virtual sink, and between
      hypotheses. */
  datatype Network = Network(nodes: set<Id>, fromSource: map<Id, real>, toSink: map<Id, real>, between: map<Pair, real>)

  datatype Flow = Flow(fromSource: map<Id, real>, toSink: map<Id, real>, between: map<Pair, real>)

  ghost predicate WellFormed(n: Network) {
    && n.fromSource.Keys <= n.nodes && n.toSink.Keys <= n.nodes
    && (forall e :: e in n.between ==> e.0 in n.nodes && e.1 in n.nodes)
    && (forall u :: u in n.fromSource ==> n.fromSource[u] >= 0.0)
    && (forall u :: u in n.toSink ==> n.toSink[u] >= 0.0)
    && (forall e :: e in n.between ==> n.between[e] >= 0.0)
  }

  ghost function Entering(f: Flow, u: Id): real {
    Get(f.fromSource, u) + Sum((set e | e in f.between.Keys && e.1 == u), e => Get(f.between, e))
  }

  ghost function Leaving(f: Flow, u: Id): real {
    Get(f.toSink, u) + Sum((set e | e in f.between.Keys && e.0 == u), e => Get(f.between, e))
  }

  ghost predicate Within<K(!new)>(f: map<K, real>, c: map<K, real>) {
    f.Keys == c.Keys && forall k :: k in c ==> 0.0 <= f[k] <= c[k]
  }

  ghost predicate Feasible(n: Network, f: Flow) {
    && Within(f.fromSource, n.fromSource) && Within(f.toSink, n.toSink) && Within(f.between, n.between)
    && forall u :: u in n.nodes ==> Entering(f, u) == Leaving(f, u)
  }

  ghost function Total(m: map<Id, real>): real {
    Sum(m.Keys, u => Get(m, u))
  }

  ghost function Value(f: Flow): real {
    Total(f.fromSource)
  }

  /** What is assumed of nx.maximum_flow. */
  ghost predicate MaximumFlow(n: Network, f: Flow) {
    Feasible(n, f) && forall g :: Feasible(n, g) ==> Value(g) <= Value(f)
  }

  lemma TotalWithin(f: map<Id, real>, c: map<Id, real>)
    requires Within(f, c)
    ensures Total(f) <= Total(c)
    ensures Total(f) == Total(c) ==> f == c
  {
    var ff, cc := (u: Id) => Get(f, u), (u: Id) => Get(c, u);
    SumLe(c.Keys, ff, cc);
    if Total(f) == Total(c) {
      forall u | u in c ensures f[u] == c[u] {
        assert ff(u) == cc(u);
      }
    }
  }

  /** Summed over all nodes, one side of the balance is the flow through the virtual edges
      plus the flow along all support edges. */
  lemma SideTotal(nodes: set<Id>, ends: map<Id, real>, edges: set<Pair>, key: Pair -> Id, along: Pair -> real,
                  side: Id -> real)
    requires ends.Keys <= nodes && forall e :: e in edges ==> key(e) in nodes
    requires forall u :: u in nodes ==> side(u) == Get(ends, u) + Sum(Group(edges, key, u), along)
    ensures Sum(nodes, side) == Total(ends) + Sum(edges, along)
  {
    var get, group := (u: Id) => Get(ends, u), (u: Id) => Sum(Group(edges, key, u), along);
    SumPlus(nodes, get, group, side);
    SumGroups(edges, nodes, key, along, group);
    SumExtend(ends.Keys, nodes, get);
  }

  lemma NodeSides(f: Flow, u: Id, along: Pair -> real, head: Pair -> Id, tail: Pair -> Id)
    requires forall e :: along(e) == Get(f.between, e) && head(e) == e.1 && tail(e) == e.0
    ensures Entering(f, u) == Get(f.fromSource, u) + Sum(Group(f.between.Keys, head, u), along)
    ensures Leaving(f, u) == Get(f.toSink, u) + Sum(Group(f.between.Keys, tail, u), along)
  {
    var get := (e: Pair) => Get(f.between, e);
    var into, out := set e | e in f.between.Keys && e.1 == u, set e | e in f.between.Keys && e.0 == u;
    assert into == Group(f.between.Keys, head, u) && out == Group(f.between.Keys, tail, u);
    SumSame(into, along, get);
    SumSame(out, along, get);
  }

  /** What leaves the source arrives at the sink. */
  lemma ValueAtSink(n: Network, f: Flow)
    requires WellFormed(n) && Feasible(n, f)
    ensures Value(f) == Total(f.toSink)
  {
    var along := (e: Pair) => Get(f.between, e);
    var head, tail := (e: Pair) => e.1, (e: Pair) => e.0;
    var entering, leaving := (u: Id) => Entering(f, u), (u: Id) => Leaving(f, u);
    forall u | u in n.nodes
      ensures entering(u) == Get(f.fromSource, u) + Sum(Group(f.between.Keys, head, u), along)
      ensures leaving(u) == Get(f.toSink, u) + Sum(Group(f.between.Keys, tail, u), along) {
      NodeSides(f, u, along, head, tail);
    }
    SumSame(n.nodes, entering, leaving);
    hide Entering, Leaving;
    SideTotal(n.nodes, f.fromSource, f.between.Keys, head, along, entering);
    SideTotal(n.nodes, f.toSink, f.between.Keys, tail, along, leaving);
  }

  /** The flow value exceeds neither the capacity out of the source nor that into the sink. */
  lemma ValueIsBounded(n: Network, f: Flow)
    requires WellFormed(n) && Feasible(n, f)
    ensures Value(f) <= Total(n.fromSource) && Value(f) <= Total(n.toSink)
  {
    ValueAtSink(n, f);
    TotalWithin(f.fromSource, n.fromSource);
    TotalWithin(f.toSink, n.toSink);
  }

  // ----- Choosing the winner -----

  /** The first root, in the given order, whose inflow is the greatest, if that is positive. */
  ghost predicate FirstGreatest(roots: seq<Id>, inflow: map<Id, real>, winner: Option<Id>) {
    match winner
    case None => forall r :: r in roots ==> Get(inflow, r) <= 0.0
    case Some(w) =>
      Get(inflow, w) > 0.0 &&
      exists i :: 0 <= i < |roots| && roots[i] == w && forall k :: 0 <= k < |roots| ==>
        if k < i then Get(inflow, roots[k]) < Get(inflow, w) else Get(inflow, roots[k]) <= Get(inflow, w)
  }

  method PickWinner(roots: seq<Id>, inflow: map<Id, real>) returns (winner: Option<Id>)
    ensures FirstGreatest(roots, inflow, winner)
    ensures winner.Some? ==> winner.value in roots
  {
    winner := None;
    var greatest := 0.0;
    ghost var at := 0;
    for i := 0 to |roots|
      invariant greatest == if winner.Some? then Get(inflow, winner.value) else 0.0
      invariant winner.Some? ==> at < i && roots[at] == winner.value && greatest > 0.0
      invariant forall k :: 0 <= k < i ==> Get(inflow, roots[k]) <= greatest
      invariant winner.Some? ==> forall k :: 0 <= k < at ==> Get(inflow, roots[k]) < greatest
    {
      var flow := Get(inflow, roots[i]);
      if flow > greatest {
        greatest, winner, at := flow, Some(roots[i]), i;
      }
    }
  }

  lemma NonnegativeSum(s: set<Id>, g: Id -> real)
    requires forall u :: u in s ==> g(u) >= 0.0
    ensures Sum(s, g) >= 0.0
  {
    SumLe(s, _ => 0.0, g);
    SumZero<Id>(s, _ => 0.0);
  }

  lemma Share(total: real, n: nat, c: real)
    requires n > 0 && total <= n as real * c
    ensures total / n as real <= c
  {
  }

  lemma GreatestShare(inflow: map<Id, real>, w: Id)
    requires w in inflow && inflow[w] > 0.0
    requires forall u :: u in inflow ==> 0.0 <= inflow[u] <= inflow[w]
    ensures Total(inflow) > 0.0 && |inflow.Keys| > 0 && Total(inflow) / |inflow.Keys| as real <= inflow[w]
  {
    var g := (u: Id) => Get(inflow, u);
    SumPick(inflow.Keys, g, w);
    NonnegativeSum(inflow.Keys - {w}, g);
    SumBounded(inflow.Keys, g, inflow[w]);
    Share(Total(inflow), |inflow.Keys|, inflow[w]);
  }

  /** A winner exists exactly when the flow is positive; it carries at least an equal share
      of the flow and at most its own capacity. */
  lemma WinnerCarriesShare(inflow: map<Id, real>, capacity: map<Id, real>, roots: seq<Id>, winner: Option<Id>)
    requires Within(inflow, capacity) && NoDup(roots) && Elements(roots) == capacity.Keys
    requires FirstGreatest(roots, inflow, winner)
    ensures winner.Some? <==> Total(inflow) > 0.0
    ensures winner.Some? ==> winner.value in capacity && roots != []
    ensures winner.Some? ==> Total(inflow) / |roots| as real <= inflow[winner.value] <= capacity[winner.value]
  {
    var g := (u: Id) => Get(inflow, u);
    NoDupCardinality(roots);
    hide FirstGreatest, NoDup;
    assert inflow.Keys == Elements(roots);
    match winner {
      case None =>
        forall u | u in inflow.Keys ensures g(u) == 0.0 {
          assert u in roots;
        }
        SumZero(inflow.Keys, g);
      case Some(w) =>
        GreatestShare(inflow, w);
    }
  }

  // ----- Symmetric support graphs -----

  /** Every root is also a leaf, and no support edge touches it. */
  ghost predicate RootsAreIsolated(n: Network) {
    && n.fromSource == n.toSink
    && forall e :: e in n.between ==> e.0 !in n.fromSource && e.1 !in n.fromSource
  }

  ghost function Direct(n: Network): Flow {
    Flow(n.fromSource, n.toSink, map e | e in n.between :: 0.0)
  }

  lemma DirectIsFeasible(n: Network)
    requires WellFormed(n) && RootsAreIsolated(n)
    ensures Feasible(n, Direct(n))
  {
    var f := Direct(n);
    var get := (e: Pair) => Get(f.between, e);
    forall u | u in n.nodes ensures Entering(f, u) == Leaving(f, u) {
      SumZero((set e | e in f.between.Keys && e.1 == u), get);
      SumZero((set e | e in f.between.Keys && e.0 == u), get);
    }
  }

  /** Then every maximum flow saturates the source: its value is the sum of the isolated
      confidences, and each isolated hypothesis carries exactly its own confidence. */
  lemma IsolatedAreSaturated(n: Network, f: Flow)
    requires WellFormed(n) && RootsAreIsolated(n) && MaximumFlow(n, f)
    ensures Value(f) == Total(n.fromSource) && f.fromSource == n.fromSource
  {
    DirectIsFeasible(n);
    assert Value(Direct(n)) == Total(n.fromSource);
    TotalWithin(f.fromSource, n.fromSource);
  }
}
