/** Networks whose edges form one chain from the source to the sink. */
module FlowChains {
  import opened Reals
  import opened Sequences
  import opened Sums
  import opened FlowConsensus
  import opened FlowCuts

  function Link(p: seq<Id>, k: nat): Pair
    requires 0 < k < |p|
  {
    (p[k - 1], p[k])
  }

  /** The edges lead from the source along p to the sink. */
  ghost predicate IsChain(n: Network, p: seq<Id>) {
    && p != [] && NoDup(p) && n.nodes == Elements(p)
    && n.fromSource.Keys == {p[0]} && n.toSink.Keys == {p[|p| - 1]}
    && (forall k :: 0 < k < |p| ==> Link(p, k) in n.between)
    && (forall e :: e in n.between ==> exists k :: 0 < k < |p| && e == Link(p, k))
  }

  /** The numbers given to the edges of the chain: 0 is the edge from the source, |p| that to
      the sink. */
  ghost function AtLink(fromSource: map<Id, real>, toSink: map<Id, real>, between: map<Pair, real>, p: seq<Id>,
                        k: nat): real
    requires p != [] && k <= |p|
  {
    if k == 0 then Get(fromSource, p[0]) else if k == |p| then Get(toSink, p[|p| - 1]) else Get(between, Link(p, k))
  }

  lemma SingleTotal(m: map<Id, real>, u: Id)
    requires m.Keys == {u}
    ensures Total(m) == Get(m, u)
  {
    SumPick({u}, v => Get(m, v), u);
    assert {u} - {u} == {};
  }

  lemma SingleAcross(m: map<Pair, real>, e: Pair)
    ensures Across(m, {e}) == Get(m, e) && Across(m, {}) == 0.0
  {
    SumPick({e}, d => Get(m, d), e);
    assert {e} - {e} == {};
  }

  lemma PrefixMembers(p: seq<Id>, k: nat)
    requires NoDup(p) && k <= |p|
    ensures forall i :: 0 <= i < |p| ==> (p[i] in Elements(p[..k]) <==> i < k)
    ensures Elements(p[..k]) <= Elements(p)
  {
    forall i | 0 <= i < |p| ensures p[i] in Elements(p[..k]) <==> i < k {
      if i < k {
        assert p[..k][i] == p[i];
      }
    }
  }

  /** Between the first k nodes and the others there is the k-th link alone. */
  lemma OneCrossing(n: Network, p: seq<Id>, k: nat)
    requires IsChain(n, p) && 0 < k < |p|
    ensures var r := Elements(p[..k]);
      Crossing(n.between.Keys, r) == {Link(p, k)} && Returning(n.between.Keys, r) == {}
  {
    PrefixMembers(p, k);
    var r := Elements(p[..k]);
    hide Elements;
    forall e | e in n.between ensures e in Crossing(n.between.Keys, r) <==> e == Link(p, k)
                             ensures e !in Returning(n.between.Keys, r) {
      var i :| 0 < i < |p| && e == Link(p, i);
    }
  }

  lemma NothingRestricted(m: map<Id, real>, s: set<Id>)
    requires m.Keys !! s
    ensures Total(Restrict(m, s)) == 0.0
  {
    assert Restrict(m, s) == map[];
  }

  /** Every link carries the value of the flow. */
  lemma EveryLinkCarries(n: Network, p: seq<Id>, f: Flow, k: nat)
    requires WellFormed(n) && IsChain(n, p) && Feasible(n, f) && k <= |p|
    ensures AtLink(f.fromSource, f.toSink, f.between, p, k) == Value(f)
  {
    if k == 0 {
      SingleTotal(f.fromSource, p[0]);
    } else if k == |p| {
      ValueAtSink(n, f);
      SingleTotal(f.toSink, p[|p| - 1]);
    } else {
      var r := Elements(p[..k]);
      PrefixMembers(p, k);
      assert p[0] in r && p[|p| - 1] !in r && f.between.Keys == n.between.Keys;
      NothingRestricted(f.fromSource, n.nodes - r);
      NothingRestricted(f.toSink, r);
      OneCrossing(n, p, k);
      SingleAcross(f.between, Link(p, k));
      hide Elements, IsChain, Feasible, WellFormed, Total, Across, Restrict, Crossing, Returning, Value;
      ValueAcross(n, f, r);
    }
  }

  lemma LinkBounds(n: Network, p: seq<Id>, f: Flow, k: nat)
    requires IsChain(n, p) && Feasible(n, f) && k <= |p|
    ensures AtLink(f.fromSource, f.toSink, f.between, p, k) <= AtLink(n.fromSource, n.toSink, n.between, p, k)
  {
    if 0 < k < |p| {
      assert Link(p, k) in n.between;
    }
  }

  lemma {:induction false} LastInside(p: seq<Id>, r: set<Id>) returns (k: nat)
    requires p != [] && p[0] in r && p[|p| - 1] !in r
    ensures 0 < k < |p| && p[k - 1] in r && p[k] !in r
  {
    if p[|p| - 2] in r {
      k := |p| - 1;
    } else {
      k := LastInside(p[..|p| - 1], r);
    }
  }

  /** Some link is full. */
  lemma FullLink(n: Network, p: seq<Id>, f: Flow) returns (k: nat)
    requires WellFormed(n) && IsChain(n, p) && MaximumFlow(n, f)
    ensures k <= |p|
    ensures AtLink(f.fromSource, f.toSink, f.between, p, k) == AtLink(n.fromSource, n.toSink, n.between, p, k)
  {
    MaximumExactlyWhen(n, f);
    var r :| r <= n.nodes && Saturates(n, f, r);
    if p[0] !in r {
      k := 0;
    } else if p[|p| - 1] in r {
      k := |p|;
    } else {
      k := LastInside(p, r);
      assert Link(p, k) in Crossing(n.between.Keys, r);
    }
  }

  /** The value of a maximum flow is the least capacity of a link. */
  lemma ChainFlow(n: Network, p: seq<Id>, f: Flow) returns (k: nat)
    requires WellFormed(n) && IsChain(n, p) && MaximumFlow(n, f)
    ensures k <= |p| && Value(f) == AtLink(n.fromSource, n.toSink, n.between, p, k)
    ensures forall i: nat :: i <= |p| ==> Value(f) <= AtLink(n.fromSource, n.toSink, n.between, p, i)
  {
    assert p != [] && Feasible(n, f);
    hide IsChain, WellFormed, Value, AtLink, Feasible, MaximumFlow;
    k := FullLink(n, p, f);
    EveryLinkCarries(n, p, f, k);
    forall i: nat | i <= |p| ensures Value(f) <= AtLink(n.fromSource, n.toSink, n.between, p, i) {
      EveryLinkCarries(n, p, f, i);
      LinkBounds(n, p, f, i);
    }
  }
}
