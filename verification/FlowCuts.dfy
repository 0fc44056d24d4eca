/** Cuts of a flow network, and augmenting paths: a flow is a maximum exactly when it
    saturates some cut. */
module FlowCuts {
  import opened Reals
  import opened Sequences
  import opened Digraph
  import opened Sums
  import opened FlowConsensus

  ghost function Restrict(m: map<Id, real>, s: set<Id>): map<Id, real> {
    map u | u in m && u in s :: m[u]
  }

  function Crossing(edges: set<Pair>, r: set<Id>): set<Pair> {
    set e | e in edges && e.0 in r && e.1 !in r
  }

  function Returning(edges: set<Pair>, r: set<Id>): set<Pair> {
    set e | e in edges && e.0 !in r && e.1 in r
  }

  ghost function Across(m: map<Pair, real>, edges: set<Pair>): real {
    Sum(edges, e => Get(m, e))
  }

  /** The capacity of the cut that has the source and r on one side: of the edges from the
      source to other nodes, from r to the sink, and from r to other nodes. */
  ghost function Cut(n: Network, r: set<Id>): real {
    Total(Restrict(n.fromSource, n.nodes - r)) + Total(Restrict(n.toSink, r))
    + Across(n.between, Crossing(n.between.Keys, r))
  }

  /** The edges across the cut are full, and those back are empty. */
  ghost predicate Saturates(n: Network, f: Flow, r: set<Id>)
    requires Feasible(n, f)
  {
    && (forall u :: u in n.fromSource && u !in r ==> f.fromSource[u] == n.fromSource[u])
    && (forall u :: u in n.toSink && u in r ==> f.toSink[u] == n.toSink[u])
    && (forall e :: e in Crossing(n.between.Keys, r) ==> f.between[e] == n.between[e])
    && (forall e :: e in Returning(n.between.Keys, r) ==> f.between[e] == 0.0)
  }

  // ----- Every cut bounds every flow -----

  lemma TotalSplits(m: map<Id, real>, r: set<Id>, rest: set<Id>)
    requires m.Keys <= r + rest && r !! rest
    ensures Total(m) == Total(Restrict(m, r)) + Total(Restrict(m, rest))
  {
    var get := (u: Id) => Get(m, u);
    var a, b := Restrict(m, r), Restrict(m, rest);
    assert m.Keys == a.Keys + b.Keys;
    SumUnion(a.Keys, b.Keys, get);
    SumSame(a.Keys, get, u => Get(a, u));
    SumSame(b.Keys, get, u => Get(b, u));
  }

  ghost function Sided(f: Flow, key: Pair -> Id, r: set<Id>): set<Pair> {
    set e | e in f.between.Keys && key(e) in r
  }

  /** The balance of a set of nodes: its virtual edges and the support edges at one side. */
  lemma SetSide(f: Flow, r: set<Id>, ends: map<Id, real>, key: Pair -> Id, along: Pair -> real, side: Id -> real)
    requires forall u :: u in r ==> side(u) == Get(ends, u) + Sum(Group(f.between.Keys, key, u), along)
    ensures Sum(r, side) == Total(Restrict(ends, r)) + Sum(Sided(f, key, r), along)
  {
    var edges := Sided(f, key, r);
    forall u | u in r ensures side(u) == Get(Restrict(ends, r), u) + Sum(Group(edges, key, u), along) {
      assert Group(edges, key, u) == Group(f.between.Keys, key, u);
    }
    SideTotal(r, Restrict(ends, r), edges, key, along, side);
  }

  /** What enters a set of nodes leaves it. */
  lemma SetBalance(n: Network, f: Flow, r: set<Id>)
    requires Feasible(n, f) && r <= n.nodes
    ensures Total(Restrict(f.fromSource, r)) + Across(f.between, Returning(f.between.Keys, r))
         == Total(Restrict(f.toSink, r)) + Across(f.between, Crossing(f.between.Keys, r))
  {
    var along := (e: Pair) => Get(f.between, e);
    var head, tail := (e: Pair) => e.1, (e: Pair) => e.0;
    var entering, leaving := (u: Id) => Entering(f, u), (u: Id) => Leaving(f, u);
    forall u | u in r
      ensures entering(u) == leaving(u)
      ensures entering(u) == Get(f.fromSource, u) + Sum(Group(f.between.Keys, head, u), along)
      ensures leaving(u) == Get(f.toSink, u) + Sum(Group(f.between.Keys, tail, u), along) {
      NodeSides(f, u, along, head, tail);
    }
    var inner := set e | e in f.between.Keys && e.0 in r && e.1 in r;
    assert Sided(f, head, r) == inner + Returning(f.between.Keys, r);
    assert Sided(f, tail, r) == inner + Crossing(f.between.Keys, r);
    SumUnion(inner, Returning(f.between.Keys, r), along);
    SumUnion(inner, Crossing(f.between.Keys, r), along);
    hide Entering, Leaving, Feasible, Group, Sided;
    SetSide(f, r, f.fromSource, head, along, entering);
    SetSide(f, r, f.toSink, tail, along, leaving);
    SumSame(r, entering, leaving);
  }

  /** The value of a flow is what crosses any cut, less what comes back. */
  lemma ValueAcross(n: Network, f: Flow, r: set<Id>)
    requires WellFormed(n) && Feasible(n, f) && r <= n.nodes
    ensures Value(f) == Total(Restrict(f.fromSource, n.nodes - r)) + Total(Restrict(f.toSink, r))
      + Across(f.between, Crossing(f.between.Keys, r)) - Across(f.between, Returning(f.between.Keys, r))
  {
    SetBalance(n, f, r);
    TotalSplits(f.fromSource, n.nodes - r, r);
  }

  lemma RestrictWithin(f: map<Id, real>, c: map<Id, real>, r: set<Id>)
    requires Within(f, c)
    ensures Total(Restrict(f, r)) <= Total(Restrict(c, r))
    ensures Total(Restrict(f, r)) == Total(Restrict(c, r)) <==> forall u :: u in c && u in r ==> f[u] == c[u]
  {
    TotalWithin(Restrict(f, r), Restrict(c, r));
    if forall u :: u in c && u in r ==> f[u] == c[u] {
      assert Restrict(f, r) == Restrict(c, r);
    }
    if Restrict(f, r) == Restrict(c, r) {
      forall u | u in c && u in r ensures f[u] == c[u] {
        assert Restrict(f, r)[u] == Restrict(c, r)[u];
      }
    }
  }

  lemma AcrossLe(f: map<Pair, real>, g: map<Pair, real>, edges: set<Pair>)
    requires edges <= f.Keys && edges <= g.Keys && forall e :: e in edges ==> f[e] <= g[e]
    ensures Across(f, edges) <= Across(g, edges)
    ensures Across(f, edges) == Across(g, edges) <==> forall e :: e in edges ==> f[e] == g[e]
  {
    var ff, gg := (e: Pair) => Get(f, e), (e: Pair) => Get(g, e);
    SumLe(edges, ff, gg);
    if forall e :: e in edges ==> f[e] == g[e] {
      SumSame(edges, ff, gg);
    }
    if Across(f, edges) == Across(g, edges) {
      forall e | e in edges ensures f[e] == g[e] {
        assert ff(e) == gg(e);
      }
    }
  }

  lemma AcrossEmpty(f: map<Pair, real>, edges: set<Pair>)
    requires edges <= f.Keys && forall e :: e in edges ==> f[e] >= 0.0
    ensures Across(f, edges) >= 0.0
    ensures Across(f, edges) == 0.0 <==> forall e :: e in edges ==> f[e] == 0.0
  {
    var zero: map<Pair, real> := map e | e in edges :: 0.0;
    AcrossLe(zero, f, edges);
    SumZero(edges, e => Get(zero, e));
  }

  /** What the four parts of a cut are compared with, and when they meet it. */
  lemma CutParts(n: Network, f: Flow, r: set<Id>)
    requires WellFormed(n) && Feasible(n, f)
    ensures var a, A := Total(Restrict(f.fromSource, n.nodes - r)), Total(Restrict(n.fromSource, n.nodes - r));
      var b, B := Total(Restrict(f.toSink, r)), Total(Restrict(n.toSink, r));
      var c, C := Across(f.between, Crossing(f.between.Keys, r)), Across(n.between, Crossing(n.between.Keys, r));
      var d := Across(f.between, Returning(f.between.Keys, r));
      && a <= A && b <= B && c <= C && d >= 0.0
      && (Saturates(n, f, r) <==> a == A && b == B && c == C && d == 0.0)
  {
    RestrictWithin(f.fromSource, n.fromSource, n.nodes - r);
    RestrictWithin(f.toSink, n.toSink, r);
    AcrossLe(f.between, n.between, Crossing(n.between.Keys, r));
    AcrossEmpty(f.between, Returning(n.between.Keys, r));
    assert f.between.Keys == n.between.Keys;
    assert forall u :: u in n.fromSource ==> (u !in r <==> u in n.nodes - r);
    hide Feasible, WellFormed, Restrict, Crossing, Returning, Total, Across;
  }

  /** No flow exceeds the capacity of any cut, and it meets it exactly when it saturates the
      cut. */
  lemma CutBounds(n: Network, f: Flow, r: set<Id>)
    requires WellFormed(n) && Feasible(n, f) && r <= n.nodes
    ensures Value(f) <= Cut(n, r)
    ensures Value(f) == Cut(n, r) <==> Saturates(n, f, r)
  {
    ValueAcross(n, f, r);
    CutParts(n, f, r);
    hide Value, Total, Across, Saturates, Feasible, WellFormed, Restrict, Crossing, Returning;
  }

  // ----- Augmenting paths -----

  /** x more can be sent from h.0 to h.1, along the edge or by taking back from the opposite one. */
  ghost predicate CanPush(n: Network, f: Flow, h: Pair, x: real) {
    || (h in n.between && h in f.between && f.between[h] + x <= n.between[h])
    || ((h.1, h.0) in f.between && f.between[(h.1, h.0)] >= x)
  }

  ghost function Excess(f: Flow, u: Id): real {
    Entering(f, u) - Leaving(f, u)
  }

  /** x at the node v alone. */
  function Spike(u: Id, v: Id, x: real): real {
    if u == v then x else 0.0
  }

  lemma SumChanged<K(!new)>(keys: set<K>, m: map<K, real>, k: K, x: real)
    requires k in m
    ensures Sum(keys, d => Get(m[k := m[k] + x], d)) == Sum(keys, d => Get(m, d)) + if k in keys then x else 0.0
  {
    var f, g := (d: K) => Get(m, d), (d: K) => Get(m[k := m[k] + x], d);
    if k in keys {
      SumPick(keys, f, k);
      SumPick(keys, g, k);
      SumSame(keys - {k}, f, g);
    } else {
      SumSame(keys, f, g);
    }
  }

  /** Changing one edge moves excess from its origin to its end. */
  lemma PushEdge(f: Flow, e: Pair, x: real, u: Id)
    requires e in f.between
    ensures Excess(f.(between := f.between[e := f.between[e] + x]), u)
         == Excess(f, u) + Spike(u, e.1, x) - Spike(u, e.0, x)
  {
    var g := f.(between := f.between[e := f.between[e] + x]);
    assert g.between.Keys == f.between.Keys;
    SumChanged((set d | d in f.between.Keys && d.1 == u), f.between, e, x);
    SumChanged((set d | d in f.between.Keys && d.0 == u), f.between, e, x);
  }

  /** Push x along one hop. */
  lemma PushHop(n: Network, f: Flow, h: Pair, x: real) returns (g: Flow)
    requires Within(f.between, n.between) && x > 0.0 && CanPush(n, f, h, x)
    ensures g.fromSource == f.fromSource && g.toSink == f.toSink && Within(g.between, n.between)
    ensures forall e :: e in f.between && e != h && e != (h.1, h.0) ==> g.between[e] == f.between[e]
    ensures forall u :: Excess(g, u) == Excess(f, u) + Spike(u, h.1, x) - Spike(u, h.0, x)
  {
    var forward := h in n.between && f.between[h] + x <= n.between[h];
    var e, y := if forward then h else (h.1, h.0), if forward then x else -x;
    g := f.(between := f.between[e := f.between[e] + y]);
    forall u ensures Excess(g, u) == Excess(f, u) + Spike(u, h.1, x) - Spike(u, h.0, x) {
      PushEdge(f, e, y, u);
    }
  }

  ghost predicate CanPushAlong(n: Network, f: Flow, p: seq<Id>, x: real) {
    forall i :: 0 <= i < |p| - 1 ==> CanPush(n, f, (p[i], p[i + 1]), x)
  }

  /** Push x along a simple path: excess moves from its first node to its last. */
  lemma {:induction false} PushPath(n: Network, f: Flow, p: seq<Id>, x: real) returns (g: Flow)
    requires p != [] && NoDup(p) && Within(f.between, n.between) && x > 0.0 && CanPushAlong(n, f, p, x)
    ensures g.fromSource == f.fromSource && g.toSink == f.toSink && Within(g.between, n.between)
    ensures forall u :: Excess(g, u) == Excess(f, u) + Spike(u, p[|p| - 1], x) - Spike(u, p[0], x)
    decreases |p|
  {
    hide Excess;
    if |p| == 1 {
      g := f;
    } else {
      var h, rest := (p[0], p[1]), p[1..];
      assert CanPush(n, f, (p[0], p[0 + 1]), x);
      var f1 := PushHop(n, f, h, x);
      forall i | 0 <= i < |rest| - 1 ensures CanPush(n, f1, (rest[i], rest[i + 1]), x) {
        assert CanPush(n, f, (p[i + 1], p[i + 1 + 1]), x);
        assert rest[i] != p[0] && rest[i + 1] != p[0];
      }
      g := PushPath(n, f1, rest, x);
    }
  }

  /** The hops along which more can be sent. */
  ghost function Residual(n: Network, f: Flow): set<Pair> {
    (set e | e in n.between && e in f.between && f.between[e] < n.between[e])
    + (set e | e in f.between && f.between[e] > 0.0 :: (e.1, e.0))
  }

  lemma HopRoom(n: Network, f: Flow, h: Pair) returns (x: real)
    requires h in Residual(n, f)
    ensures x > 0.0 && CanPush(n, f, h, x)
  {
    if h in n.between && h in f.between && f.between[h] < n.between[h] {
      x := n.between[h] - f.between[h];
    } else {
      x := f.between[(h.1, h.0)];
    }
  }

  lemma PushLess(n: Network, f: Flow, p: seq<Id>, x: real, y: real)
    requires CanPushAlong(n, f, p, x) && y <= x
    ensures CanPushAlong(n, f, p, y)
  {
    forall i | 0 <= i < |p| - 1 ensures CanPush(n, f, (p[i], p[i + 1]), y) {
      assert CanPush(n, f, (p[i], p[i + 1]), x);
    }
  }

  lemma {:induction false} PathRoom(n: Network, f: Flow, p: seq<Id>) returns (x: real)
    requires IsWalk(Residual(n, f), p)
    ensures x > 0.0 && CanPushAlong(n, f, p, x)
    decreases |p|
  {
    hide Residual, CanPush;
    if |p| == 1 {
      x := 1.0;
    } else {
      var q, h := p[..|p| - 1], (p[|p| - 2], p[|p| - 1]);
      forall i | 0 <= i < |q| - 1 ensures (q[i], q[i + 1]) in Residual(n, f) {
        assert (p[i], p[i + 1]) in Residual(n, f);
      }
      assert (p[|p| - 2], p[|p| - 2 + 1]) in Residual(n, f);
      var y := PathRoom(n, f, q);
      var z := HopRoom(n, f, h);
      x := Min(y, z);
      PushLess(n, f, q, y, x);
      PushLess(n, f, [h.0, h.1], z, x) by {
        assert CanPushAlong(n, f, [h.0, h.1], z);
      }
      assert CanPush(n, f, ([h.0, h.1][0], [h.0, h.1][0 + 1]), x);
      forall i | 0 <= i < |p| - 1 ensures CanPush(n, f, (p[i], p[i + 1]), x) {
        if i < |q| - 1 {
          assert CanPush(n, f, (q[i], q[i + 1]), x);
        }
      }
    }
  }

  /** More at one edge from the source, or to the sink. */
  lemma PushEnds(f: Flow, v: Id, x: real, u: Id)
    requires v in f.fromSource || v in f.toSink
    ensures v in f.fromSource ==>
      Excess(f.(fromSource := f.fromSource[v := f.fromSource[v] + x]), u) == Excess(f, u) + Spike(u, v, x)
    ensures v in f.toSink ==>
      Excess(f.(toSink := f.toSink[v := f.toSink[v] + x]), u) == Excess(f, u) - Spike(u, v, x)
  {
  }

  lemma SamePush(n: Network, f: Flow, g: Flow, p: seq<Id>, x: real)
    requires CanPushAlong(n, f, p, x) && g.between == f.between
    ensures CanPushAlong(n, g, p, x)
  {
    forall i | 0 <= i < |p| - 1 ensures CanPush(n, g, (p[i], p[i + 1]), x) {
      assert CanPush(n, f, (p[i], p[i + 1]), x);
    }
  }

  lemma SameExcess(n: Network, f: Flow, g: Flow)
    requires Feasible(n, f) && forall w :: w in n.nodes ==> Excess(g, w) == Excess(f, w)
    requires Within(g.fromSource, n.fromSource) && Within(g.toSink, n.toSink) && Within(g.between, n.between)
    ensures Feasible(n, g)
  {
    hide Entering, Leaving, Within;
    forall w | w in n.nodes ensures Entering(g, w) == Leaving(g, w) {
      assert Excess(f, w) == 0.0;
    }
  }

  lemma MoreWithin(f: map<Id, real>, c: map<Id, real>, u: Id, x: real)
    requires Within(f, c) && u in f && u in c && x >= 0.0 && f[u] + x <= c[u]
    ensures Within(f[u := f[u] + x], c)
  {
  }

  lemma MoreValue(f: Flow, g: Flow, u: Id, x: real)
    requires u in f.fromSource && g.fromSource == f.fromSource[u := f.fromSource[u] + x]
    ensures Value(g) == Value(f) + x
  {
    SumChanged(f.fromSource.Keys, f.fromSource, u, x);
    assert g.fromSource.Keys == f.fromSource.Keys;
  }

  lemma PushThrough(n: Network, f: Flow, p: seq<Id>, x: real) returns (g: Flow)
    requires Feasible(n, f) && p != [] && NoDup(p) && x > 0.0 && CanPushAlong(n, f, p, x)
    requires var u := p[0]; u in n.fromSource && u in f.fromSource && f.fromSource[u] + x <= n.fromSource[u]
    requires var v := p[|p| - 1]; v in n.toSink && v in f.toSink && f.toSink[v] + x <= n.toSink[v]
    ensures Feasible(n, g) && Value(g) == Value(f) + x
  {
    hide NoDup, CanPushAlong, Excess, Within, Value;
    var u, v := p[0], p[|p| - 1];
    var f0 := f.(fromSource := f.fromSource[u := f.fromSource[u] + x]);
    MoreWithin(f.fromSource, n.fromSource, u, x);
    SamePush(n, f, f0, p, x);
    var f1 := PushPath(n, f0, p, x);
    g := f1.(toSink := f1.toSink[v := f1.toSink[v] + x]);
    MoreWithin(f.toSink, n.toSink, v, x);
    forall w | w in n.nodes ensures Excess(g, w) == Excess(f, w) {
      PushEnds(f, u, x, w);
      PushEnds(f1, v, x, w);
    }
    SameExcess(n, f, g);
    MoreValue(f, g, u, x);
  }

  /** A path along which more can be sent, between nodes with room at the source and the sink,
      makes room for a greater flow. */
  lemma Augment(n: Network, f: Flow, u: Id, p: seq<Id>, v: Id) returns (g: Flow)
    requires Feasible(n, f) && Walk(Residual(n, f), u, p, v)
    requires u in n.fromSource && f.fromSource[u] < n.fromSource[u]
    requires v in n.toSink && f.toSink[v] < n.toSink[v]
    ensures Feasible(n, g) && Value(g) > Value(f)
  {
    assert u in f.fromSource && v in f.toSink;
    hide Feasible, NoDup, CanPushAlong, Residual, Value;
    var q := Shortcut(Residual(n, f), u, p, v);
    var room := PathRoom(n, f, q);
    var x := Min(room, Min(n.fromSource[u] - f.fromSource[u], n.toSink[v] - f.toSink[v]));
    PushLess(n, f, q, room, x);
    g := PushThrough(n, f, q, x);
  }

  // ----- Maximum flows and minimum cuts -----

  ghost predicate Supplied(n: Network, f: Flow, v: Id)
    requires Feasible(n, f)
  {
    exists u :: u in n.fromSource && f.fromSource[u] < n.fromSource[u] && Reach(Residual(n, f), u, v)
  }

  /** The nodes to which more could be sent from the source. */
  ghost function Open(n: Network, f: Flow): set<Id>
    requires Feasible(n, f)
  {
    set v | v in n.nodes && Supplied(n, f, v)
  }

  lemma OpenSpreads(n: Network, f: Flow, h: Pair)
    requires WellFormed(n) && Feasible(n, f) && h in Residual(n, f) && h.0 in Open(n, f)
    ensures h.1 in Open(n, f)
  {
    var u :| u in n.fromSource && f.fromSource[u] < n.fromSource[u] && Reach(Residual(n, f), u, h.0);
    ReachEdge(Residual(n, f), u, h.0, h.1);
  }

  lemma OpenSink(n: Network, f: Flow, v: Id)
    requires WellFormed(n) && MaximumFlow(n, f) && v in Open(n, f) && v in n.toSink
    ensures f.toSink[v] == n.toSink[v]
  {
    if f.toSink[v] < n.toSink[v] {
      var u :| u in n.fromSource && f.fromSource[u] < n.fromSource[u] && Reach(Residual(n, f), u, v);
      var p :| Walk(Residual(n, f), u, p, v);
      var g := Augment(n, f, u, p, v);
    }
  }

  lemma OpenIsSaturated(n: Network, f: Flow)
    requires WellFormed(n) && MaximumFlow(n, f)
    ensures Saturates(n, f, Open(n, f))
  {
    var r := Open(n, f);
    forall u | u in n.fromSource && u !in r ensures f.fromSource[u] == n.fromSource[u] {
      ReachSelf(Residual(n, f), u);
    }
    forall v | v in n.toSink && v in r ensures f.toSink[v] == n.toSink[v] {
      OpenSink(n, f, v);
    }
    forall e | e in Crossing(n.between.Keys, r) ensures f.between[e] == n.between[e] {
      if f.between[e] < n.between[e] {
        OpenSpreads(n, f, e);
      }
    }
    forall e | e in Returning(n.between.Keys, r) ensures f.between[e] == 0.0 {
      if f.between[e] > 0.0 {
        OpenSpreads(n, f, (e.1, e.0));
      }
    }
  }

  /** A flow is a maximum exactly when it saturates some cut. */
  lemma MaximumExactlyWhen(n: Network, f: Flow)
    requires WellFormed(n) && Feasible(n, f)
    ensures MaximumFlow(n, f) <==> exists r :: r <= n.nodes && Saturates(n, f, r)
  {
    hide Saturates, Feasible, WellFormed, Value;
    if MaximumFlow(n, f) {
      OpenIsSaturated(n, f);
      assert Open(n, f) <= n.nodes;
    }
    if r :| r <= n.nodes && Saturates(n, f, r) {
      CutBounds(n, f, r);
      forall g | Feasible(n, g) ensures Value(g) <= Value(f) {
        CutBounds(n, g, r);
      }
    }
  }

  /** The value of a maximum flow is the least capacity of a cut. */
  lemma MinimumCut(n: Network, f: Flow) returns (r: set<Id>)
    requires WellFormed(n) && MaximumFlow(n, f)
    ensures r <= n.nodes && Value(f) == Cut(n, r)
    ensures forall q :: q <= n.nodes ==> Cut(n, r) <= Cut(n, q)
  {
    hide Saturates, Feasible, WellFormed, Value, Cut;
    r := Open(n, f);
    OpenIsSaturated(n, f);
    CutBounds(n, f, r);
    forall q | q <= n.nodes ensures Value(f) <= Cut(n, q) {
      CutBounds(n, f, q);
    }
  }
}
