/** core/deliberation.py: hypotheses, their supports and contradictions, and the consensus. */
module Deliberation {
  import opened Wrappers
  import opened Reals
  import opened Sequences
  import opened StableSort
  import opened FlowConsensus
  import opened FlowCuts
  import opened FlowChains
  import opened FlowPaths
  import opened Digraph

  datatype Hypothesis = Hypothesis(id: Id, claim: string, perspective: string, confidence: real)

  datatype Contradiction = Contradiction(hypothesisA: Id, hypothesisB: Id, severity: real)

  datatype Ranked = Ranked(hypothesis: Hypothesis, score: real)

  /** allFlows is None where the source returns an empty dictionary. */
  datatype Consensus = Consensus(winner: Option<Hypothesis>, flowValue: real, path: seq<Id>, allFlows: Option<Flow>)

  /** What the graph holds: hypotheses in insertion order, weights of the support edges
      (supporter first), and the contradictions in the order recorded. */
  datatype Board = Board(
    order: seq<Id>,
    hypotheses: map<Id, Hypothesis>,
    supports: map<Pair, real>,
    contradictions: seq<Contradiction>)

  ghost predicate ValidBoard(b: Board) {
    && NoDup(b.order) && Elements(b.order) == b.hypotheses.Keys
    && (forall u :: u in b.hypotheses ==> b.hypotheses[u].id == u && 0.0 <= b.hypotheses[u].confidence <= 1.0)
    && (forall e :: e in b.supports ==> e.0 in b.hypotheses && e.1 in b.hypotheses && b.supports[e] > 0.0)
    && (forall c :: c in b.contradictions ==>
          c.hypothesisA in b.hypotheses && c.hypothesisB in b.hypotheses && 0.0 <= c.severity <= 1.0)
  }

  // ----- Ranking -----

  function InDegree(supports: map<Pair, real>, u: Id): nat {
    |set e | e in supports.Keys && e.1 == u|
  }

  function OutDegree(supports: map<Pair, real>, u: Id): nat {
    |set e | e in supports.Keys && e.0 == u|
  }

  lemma DegreeZero(supports: map<Pair, real>, u: Id)
    ensures InDegree(supports, u) == 0 <==> forall e :: e in supports ==> e.1 != u
    ensures OutDegree(supports, u) == 0 <==> forall e :: e in supports ==> e.0 != u
  {
    var into, out := set e | e in supports.Keys && e.1 == u, set e | e in supports.Keys && e.0 == u;
    assert |into| == 0 <==> into == {};
    assert |out| == 0 <==> out == {};
    assert forall e :: e in supports && e.1 == u ==> e in into;
    assert forall e :: e in supports && e.0 == u ==> e in out;
  }

  function Contested(contradictions: seq<Contradiction>, u: Id): nat {
    if contradictions == [] then 0
    else
      var c := contradictions[|contradictions| - 1];
      Contested(contradictions[..|contradictions| - 1], u) + if c.hypothesisA == u || c.hypothesisB == u then 1 else 0
  }

  function Composite(confidence: real, supportCount: nat, contradictionCount: nat): real {
    confidence * (1 + supportCount) as real / (1 + contradictionCount) as real
  }

  function Score(b: Board, u: Id): real
    requires u in b.hypotheses
  {
    Composite(b.hypotheses[u].confidence, InDegree(b.supports, u), Contested(b.contradictions, u))
  }

  lemma DivideBy(x: real, m: real, n: real)
    requires 0.0 < x && 0.0 < m < n
    ensures x / n < x / m
  {
    var q := x / n;
    assert q * n == x && q > 0.0;
    assert q * m < q * n;
    assert (q * m) / m == q;
  }

  lemma CompositeMoves(confidence: real, supportCount: nat, contradictionCount: nat)
    requires confidence > 0.0
    ensures Composite(confidence, supportCount + 1, contradictionCount)
          > Composite(confidence, supportCount, contradictionCount) > 0.0
    ensures Composite(confidence, supportCount, contradictionCount + 1)
          < Composite(confidence, supportCount, contradictionCount)
  {
    var x := confidence * (1 + supportCount) as real;
    assert confidence * (1 + (supportCount + 1)) as real == x + confidence;
    DivideBy(x, (1 + contradictionCount) as real, (1 + (contradictionCount + 1)) as real);
  }

  lemma InDegreeAfter(supports: map<Pair, real>, e: Pair, weight: real, u: Id)
    requires e !in supports
    ensures InDegree(supports[e := weight], u) == InDegree(supports, u) + if u == e.1 then 1 else 0
  {
    var after := supports[e := weight];
    var into := set x | x in supports.Keys && x.1 == u;
    assert (set x | x in after.Keys && x.1 == u) == if u == e.1 then into + {e} else into;
  }

  lemma ConfidenceInRange(b: Board, u: Id)
    requires ValidBoard(b) && u in b.hypotheses
    ensures 0.0 <= b.hypotheses[u].confidence <= 1.0
  {
  }

  lemma CompositeZero(supportCount: nat, contradictionCount: nat)
    ensures Composite(0.0, supportCount, contradictionCount) == 0.0
  {
  }

  /** The positions of the contradictions that a hypothesis is a side of. */
  ghost function Sides(contradictions: seq<Contradiction>, u: Id): set<nat> {
    set i: nat | i < |contradictions| && (contradictions[i].hypothesisA == u || contradictions[i].hypothesisB == u)
  }

  lemma {:induction false} ContestedCounts(contradictions: seq<Contradiction>, u: Id)
    ensures Contested(contradictions, u) == |Sides(contradictions, u)|
  {
    if contradictions == [] {
    } else {
      var n := |contradictions| - 1;
      ContestedCounts(contradictions[..n], u);
      var c := contradictions[n];
      assert Sides(contradictions, u) ==
        Sides(contradictions[..n], u) + if c.hypothesisA == u || c.hypothesisB == u then {n} else {};
    }
  }

  lemma CompositeValue(confidence: real, supportCount: nat, contradictionCount: nat)
    ensures Composite(confidence, supportCount, contradictionCount) * (contradictionCount + 1) as real
         == confidence + confidence * supportCount as real
  {
  }

  /** n contradictions divide a score by n + 1, and each supporter adds the same amount to it,
      the score of the hypothesis on its own being its confidence. */
  lemma ScoreInCounts(b: Board, u: Id)
    requires u in b.hypotheses
    ensures var supporters := set e | e in b.supports.Keys && e.1 == u;
      var confidence := b.hypotheses[u].confidence;
      Score(b, u) * (|Sides(b.contradictions, u)| + 1) as real == confidence + confidence * |supporters| as real
  {
    ContestedCounts(b.contradictions, u);
    CompositeValue(b.hypotheses[u].confidence, InDegree(b.supports, u), Contested(b.contradictions, u));
  }

  /** A new supporter raises the score of the hypothesis it supports and no other. */
  lemma SupportBoosts(b: Board, e: Pair, weight: real)
    requires ValidBoard(b) && e.0 in b.hypotheses && e.1 in b.hypotheses && e !in b.supports
    ensures var after := b.(supports := b.supports[e := weight]);
      forall u :: u in b.hypotheses ==>
        if u == e.1 && b.hypotheses[u].confidence > 0.0 then Score(after, u) > Score(b, u)
        else Score(after, u) == Score(b, u)
  {
    var after := b.(supports := b.supports[e := weight]);
    hide Composite, InDegree, ValidBoard;
    forall u | u in b.hypotheses
      ensures if u == e.1 && b.hypotheses[u].confidence > 0.0 then Score(after, u) > Score(b, u)
              else Score(after, u) == Score(b, u) {
      InDegreeAfter(b.supports, e, weight, u);
      var n := Contested(b.contradictions, u);
      if b.hypotheses[u].confidence > 0.0 {
        CompositeMoves(b.hypotheses[u].confidence, InDegree(b.supports, u), n);
      } else {
        assert b.hypotheses[u].confidence == 0.0 by { ConfidenceInRange(b, u); }
        CompositeZero(InDegree(b.supports, u), n);
        CompositeZero(InDegree(after.supports, u), n);
      }
    }
  }

  /** A new contradiction lowers the scores of its two sides and no other. */
  lemma ContradictionLowers(b: Board, c: Contradiction)
    requires ValidBoard(b) && c.hypothesisA in b.hypotheses && c.hypothesisB in b.hypotheses
    ensures var after := b.(contradictions := b.contradictions + [c]);
      forall u :: u in b.hypotheses ==>
        if (u == c.hypothesisA || u == c.hypothesisB) && b.hypotheses[u].confidence > 0.0
        then Score(after, u) < Score(b, u) else Score(after, u) == Score(b, u)
  {
    var after := b.(contradictions := b.contradictions + [c]);
    assert after.contradictions[..|after.contradictions| - 1] == b.contradictions;
    hide Composite, InDegree, ValidBoard;
    forall u | u in b.hypotheses
      ensures if (u == c.hypothesisA || u == c.hypothesisB) && b.hypotheses[u].confidence > 0.0
              then Score(after, u) < Score(b, u) else Score(after, u) == Score(b, u) {
      var n := InDegree(b.supports, u);
      if b.hypotheses[u].confidence > 0.0 {
        CompositeMoves(b.hypotheses[u].confidence, n, Contested(b.contradictions, u));
      } else {
        assert b.hypotheses[u].confidence == 0.0 by { ConfidenceInRange(b, u); }
        CompositeZero(n, Contested(b.contradictions, u));
        CompositeZero(n, Contested(after.contradictions, u));
      }
    }
  }

  ghost function Scored(b: Board): seq<Ranked>
    requires forall u :: u in b.order ==> u in b.hypotheses
  {
    seq(|b.order|, i requires 0 <= i < |b.order| => assert b.order[i] in b.order;
                                                    Ranked(b.hypotheses[b.order[i]], Score(b, b.order[i])))
  }

  /** Sorting by descending score. */
  function Descending(r: Ranked): real {
    -r.score
  }

  ghost predicate Known(b: Board) {
    forall u :: u in b.order ==> u in b.hypotheses
  }

  ghost predicate FirstBest(b: Board, i: nat)
    requires Known(b) && i < |b.order|
  {
    forall k :: 0 <= k < |b.order| ==>
      if k < i then Scored(b)[k].score < Scored(b)[i].score else Scored(b)[k].score <= Scored(b)[i].score
  }

  /** h is the earliest of the hypotheses whose score is the greatest. */
  ghost predicate TopRanked(b: Board, h: Hypothesis, score: real)
    requires Known(b)
  {
    exists i :: 0 <= i < |b.order| && Scored(b)[i] == Ranked(h, score) && FirstBest(b, i)
  }

  lemma HeadIsTopRanked(b: Board)
    requires Known(b) && b.order != []
    ensures Sort(Scored(b), Descending) != []
    ensures var top := Sort(Scored(b), Descending)[0]; TopRanked(b, top.hypothesis, top.score)
  {
    var i := HeadIsFirstLeast(Scored(b), Descending);
    assert forall k :: 0 <= k < |b.order| ==> Descending(Scored(b)[k]) == -Scored(b)[k].score;
    assert FirstBest(b, i);
  }

  /** The ranking lists every hypothesis once, by descending score, ties in insertion order. */
  lemma RankingIsStable(b: Board)
    requires ValidBoard(b)
    ensures var r := Sort(Scored(b), Descending);
      && |r| == |b.order| && (forall i, j :: 0 <= i < j < |r| ==> r[i].score >= r[j].score)
      && (forall u :: u in b.hypotheses ==> Ranked(b.hypotheses[u], Score(b, u)) in r)
      && forall k :: At(r, Descending, k) == At(Scored(b), Descending, k)
  {
    var r := Sort(Scored(b), Descending);
    SortIsStable(Scored(b), Descending);
    forall i, j | 0 <= i < j < |r| ensures r[i].score >= r[j].score {
      assert Descending(r[i]) <= Descending(r[j]);
    }
    forall u | u in b.hypotheses ensures Ranked(b.hypotheses[u], Score(b, u)) in r {
      assert u in Elements(b.order);
      var i :| 0 <= i < |b.order| && b.order[i] == u;
      assert Scored(b)[i] == Ranked(b.hypotheses[u], Score(b, u));
    }
  }

  // ----- Roots, leaves and the network -----

  lemma {:induction false} FilterKeeps(order: seq<Id>, keep: Id -> bool)
    requires NoDup(order)
    ensures NoDup(Filter(order, keep))
    ensures forall u :: u in Filter(order, keep) <==> u in order && keep(u)
  {
    if order == [] {
    } else {
      FilterKeeps(order[..|order| - 1], keep);
      assert order == order[..|order| - 1] + [order[|order| - 1]];
    }
  }

  /** The hypotheses nobody supports, and those that support nobody. */
  function Roots(b: Board): seq<Id> {
    Filter(b.order, u => InDegree(b.supports, u) == 0)
  }

  function Leaves(b: Board): seq<Id> {
    Filter(b.order, u => OutDegree(b.supports, u) == 0)
  }

  lemma RootsAndLeaves(b: Board)
    requires NoDup(b.order)
    ensures NoDup(Roots(b)) && NoDup(Leaves(b))
    ensures forall u :: u in Roots(b) <==> u in b.order && forall e :: e in b.supports ==> e.1 != u
    ensures forall u :: u in Leaves(b) <==> u in b.order && forall e :: e in b.supports ==> e.0 != u
  {
    FilterKeeps(b.order, u => InDegree(b.supports, u) == 0);
    FilterKeeps(b.order, u => OutDegree(b.supports, u) == 0);
    forall u ensures InDegree(b.supports, u) == 0 <==> forall e :: e in b.supports ==> e.1 != u
      ensures OutDegree(b.supports, u) == 0 <==> forall e :: e in b.supports ==> e.0 != u {
      DegreeZero(b.supports, u);
    }
  }

  /** They stand in the order of the hypotheses. */
  lemma EndsInOrder(b: Board) returns (rootAt: seq<nat>, leafAt: seq<nat>)
    ensures Picked(rootAt, b.order, Roots(b)) && forall i, j :: 0 <= i < j < |rootAt| ==> rootAt[i] < rootAt[j]
    ensures Picked(leafAt, b.order, Leaves(b)) && forall i, j :: 0 <= i < j < |leafAt| ==> leafAt[i] < leafAt[j]
  {
    rootAt := FilterInOrder(b.order, u => InDegree(b.supports, u) == 0);
    leafAt := FilterInOrder(b.order, u => OutDegree(b.supports, u) == 0);
  }

  lemma EndsAreHypotheses(b: Board)
    requires NoDup(b.order) && Elements(b.order) == b.hypotheses.Keys
    ensures Elements(Roots(b)) <= b.hypotheses.Keys && Elements(Leaves(b)) <= b.hypotheses.Keys
  {
    RootsAndLeaves(b);
    hide Roots, Leaves;
    assert forall u :: u in b.order ==> u in Elements(b.order);
  }

  ghost function Confidences(b: Board, ids: set<Id>): map<Id, real>
    requires ids <= b.hypotheses.Keys
  {
    map u | u in ids :: b.hypotheses[u].confidence
  }

  /** A support edge carries at most its weight times the supporter's confidence. */
  function Capacity(confidence: real, weight: real): (r: real)
    ensures confidence >= 0.0 && weight >= 0.0 ==> r >= 0.0
  {
    confidence * weight
  }

  ghost function Capacities(b: Board, edges: set<Pair>): map<Pair, real>
    requires edges <= b.supports.Keys && forall e :: e in edges ==> e.0 in b.hypotheses
  {
    map e | e in edges :: Capacity(b.hypotheses[e.0].confidence, b.supports[e])
  }

  lemma NoCapacities(b: Board, edges: set<Pair>)
    requires edges == {}
    ensures Capacities(b, edges) == map[]
  {
  }

  lemma CapacitiesAdd(b: Board, edges: set<Pair>, e: Pair)
    requires edges + {e} <= b.supports.Keys && forall s :: s in b.supports ==> s.0 in b.hypotheses
    ensures Capacities(b, edges + {e}) ==
      Capacities(b, edges)[e := Capacity(b.hypotheses[e.0].confidence, b.supports[e])]
  {
    hide Capacity;
  }

  ghost predicate IsFlowNetwork(b: Board, n: Network)
    requires ValidBoard(b)
  {
    EndsAreHypotheses(b);
    && n.nodes == b.hypotheses.Keys
    && n.fromSource == Confidences(b, Elements(Roots(b)))
    && n.toSink == Confidences(b, Elements(Leaves(b)))
    && n.between == Capacities(b, b.supports.Keys)
  }

  lemma NetworkIsWellFormed(b: Board, n: Network)
    requires ValidBoard(b) && IsFlowNetwork(b, n)
    ensures WellFormed(n)
  {
    hide Capacity, Roots, Leaves, NoDup;
    EndsAreHypotheses(b);
  }

  // ----- Consensus -----

  function WinnerId(c: Consensus): Option<Id> {
    if c.winner.Some? then Some(c.winner.value.id) else None
  }

  /** What max_flow_consensus returns on a board, for whatever maximum flow was found. */
  ghost predicate IsConsensus(b: Board, c: Consensus)
    requires ValidBoard(b)
  {
    if b.order == [] then c == Consensus(None, 0.0, [], None)
    else if Roots(b) == [] || Leaves(b) == [] then
      && c.winner.Some? && c.path == [c.winner.value.id] && c.allFlows.None?
      && TopRanked(b, c.winner.value, c.flowValue)
    else
      && c.allFlows.Some? && c.flowValue == Value(c.allFlows.value)
      && (exists n :: IsFlowNetwork(b, n) && MaximumFlow(n, c.allFlows.value))
      && (c.winner.Some? ==> c.winner.value.id in b.hypotheses && b.hypotheses[c.winner.value.id] == c.winner.value)
      && FirstGreatest(Roots(b), c.allFlows.value.fromSource, WinnerId(c))
      && c.path == if c.winner.Some? then [c.winner.value.id] else []
  }

  ghost predicate HasEnds(b: Board) {
    Roots(b) != [] && Leaves(b) != []
  }

  lemma MaximumIsFeasible(n: Network, f: Flow)
    requires MaximumFlow(n, f)
    ensures Feasible(n, f) && Within(f.fromSource, n.fromSource)
    ensures f.fromSource.Keys == n.fromSource.Keys
  {
  }

  /** On any support graph with roots and leaves: the value is bounded by the confidences of
      the roots and of the leaves, there is a winner exactly when it is positive, and the
      winner, a root, carries at least an equal share of it and at most its confidence. */
  lemma ConsensusIsBounded(b: Board, c: Consensus)
    requires ValidBoard(b) && HasEnds(b) && IsConsensus(b, c)
    ensures Elements(Roots(b)) <= b.hypotheses.Keys && Elements(Leaves(b)) <= b.hypotheses.Keys
    ensures c.flowValue <= Total(Confidences(b, Elements(Roots(b))))
    ensures c.flowValue <= Total(Confidences(b, Elements(Leaves(b))))
    ensures c.winner.Some? <==> c.flowValue > 0.0
    ensures c.winner.Some? ==> c.winner.value.id in Roots(b) && c.allFlows.Some?
    ensures c.winner.Some? ==>
      var carried := Get(c.allFlows.value.fromSource, c.winner.value.id);
      c.flowValue / |Roots(b)| as real <= carried <= c.winner.value.confidence
  {
    hide MaximumFlow, Feasible, WellFormed, FirstGreatest, NoDup, Capacities, Total, Within;
    RootsAndLeaves(b);
    EndsAreHypotheses(b);
    var f := c.allFlows.value;
    var n :| IsFlowNetwork(b, n) && MaximumFlow(n, f);
    hide Roots, Leaves, InDegree, OutDegree;
    NetworkIsWellFormed(b, n);
    MaximumIsFeasible(n, f);
    ValueIsBounded(n, f);
    WinnerCarriesShare(f.fromSource, n.fromSource, Roots(b), WinnerId(c));
  }

  /** A way to split the hypotheses, r being those on the side of the roots: the confidences
      of the roots outside r, those of the leaves in r, and what the supports out of r carry. */
  ghost function SupportCut(b: Board, r: set<Id>): real
    requires ValidBoard(b)
  {
    EndsAreHypotheses(b);
    Total(Confidences(b, Elements(Roots(b)) - r)) + Total(Confidences(b, Elements(Leaves(b)) * r))
    + Across(Capacities(b, b.supports.Keys), Crossing(b.supports.Keys, r))
  }

  lemma CapacityKeys(b: Board)
    requires ValidBoard(b)
    ensures (forall e :: e in b.supports ==> e.0 in b.hypotheses)
    ensures Capacities(b, b.supports.Keys).Keys == b.supports.Keys
  {
    EndsAreHypotheses(b);
  }

  lemma CutOfSupports(b: Board, n: Network, r: set<Id>)
    requires ValidBoard(b) && IsFlowNetwork(b, n) && r <= n.nodes
    ensures Cut(n, r) == SupportCut(b, r)
  {
    hide Roots, Leaves, Capacities;
    EndsAreHypotheses(b);
    assert Restrict(n.fromSource, n.nodes - r) == Confidences(b, Elements(Roots(b)) - r);
    assert Restrict(n.toSink, r) == Confidences(b, Elements(Leaves(b)) * r);
    assert n.between.Keys == b.supports.Keys by {
      CapacityKeys(b);
    }
  }

  /** The value of the consensus is the least such split. */
  lemma ConsensusIsMinimumCut(b: Board, c: Consensus) returns (r: set<Id>)
    requires ValidBoard(b) && HasEnds(b) && IsConsensus(b, c)
    ensures r <= b.hypotheses.Keys && c.flowValue == SupportCut(b, r)
    ensures forall q :: q <= b.hypotheses.Keys ==> SupportCut(b, r) <= SupportCut(b, q)
  {
    var n :| IsFlowNetwork(b, n) && MaximumFlow(n, c.allFlows.value);
    NetworkIsWellFormed(b, n);
    hide MaximumFlow, WellFormed, SupportCut;
    r := MinimumCut(n, c.allFlows.value);
    CutOfSupports(b, n, r);
    forall q | q <= b.hypotheses.Keys ensures SupportCut(b, r) <= SupportCut(b, q) {
      CutOfSupports(b, n, q);
    }
  }

  lemma SupportCapacity(b: Board, n: Network, e: Pair)
    requires ValidBoard(b) && IsFlowNetwork(b, n) && e in b.supports
    ensures e in n.between && e.0 in b.hypotheses && e.1 in b.hypotheses
    ensures Get(n.between, e) == n.between[e] == b.hypotheses[e.0].confidence * b.supports[e]
  {
    hide Roots, Leaves, NoDup;
    EndsAreHypotheses(b);
  }

  lemma EndCapacity(b: Board, n: Network, u: Id)
    requires ValidBoard(b) && IsFlowNetwork(b, n) && (u in Roots(b) || u in Leaves(b))
    ensures u in b.hypotheses
    ensures u in Roots(b) ==> u in n.fromSource && Get(n.fromSource, u) == n.fromSource[u] == b.hypotheses[u].confidence
    ensures u in Leaves(b) ==> u in n.toSink && Get(n.toSink, u) == n.toSink[u] == b.hypotheses[u].confidence
  {
    hide Roots, Leaves, NoDup;
    EndsAreHypotheses(b);
    assert u in Roots(b) ==> u in Elements(Roots(b));
    assert u in Leaves(b) ==> u in Elements(Leaves(b));
  }

  /** In every consensus, a support carries at most the confidence of the supporter times the
      weight of the support, and what a root or a leaf passes is at most its confidence. */
  lemma FlowWithinSupports(b: Board, c: Consensus)
    requires ValidBoard(b) && HasEnds(b) && IsConsensus(b, c)
    ensures c.allFlows.Some?
    ensures var f := c.allFlows.value;
      && (forall e :: e in b.supports ==>
            && e in f.between && e.0 in b.hypotheses
            && 0.0 <= f.between[e] <= b.hypotheses[e.0].confidence * b.supports[e])
      && (forall u :: u in Roots(b) ==>
            u in f.fromSource && u in b.hypotheses && 0.0 <= f.fromSource[u] <= b.hypotheses[u].confidence)
      && (forall u :: u in Leaves(b) ==>
            u in f.toSink && u in b.hypotheses && 0.0 <= f.toSink[u] <= b.hypotheses[u].confidence)
  {
    var f := c.allFlows.value;
    var n :| IsFlowNetwork(b, n) && MaximumFlow(n, f);
    assert Within(f.fromSource, n.fromSource) && Within(f.toSink, n.toSink) && Within(f.between, n.between);
    hide Roots, Leaves, IsFlowNetwork, ValidBoard, FirstGreatest, MaximumFlow;
    forall e | e in b.supports
      ensures e in f.between && e.0 in b.hypotheses
      ensures 0.0 <= f.between[e] <= b.hypotheses[e.0].confidence * b.supports[e] {
      SupportCapacity(b, n, e);
    }
    forall u | u in Roots(b)
      ensures u in f.fromSource && u in b.hypotheses && 0.0 <= f.fromSource[u] <= b.hypotheses[u].confidence {
      EndCapacity(b, n, u);
    }
    forall u | u in Leaves(b)
      ensures u in f.toSink && u in b.hypotheses && 0.0 <= f.toSink[u] <= b.hypotheses[u].confidence {
      EndCapacity(b, n, u);
    }
  }

  // ----- Supports that form one chain -----

  /** The supports lead from each hypothesis of p to the next, and p lists all hypotheses. */
  ghost predicate OneChain(b: Board, p: seq<Id>) {
    && p != [] && NoDup(p) && Elements(p) == b.hypotheses.Keys
    && (forall k :: 0 < k < |p| ==> Link(p, k) in b.supports)
    && (forall e :: e in b.supports ==> exists k :: 0 < k < |p| && e == Link(p, k))
  }

  lemma SupportedInChain(b: Board, p: seq<Id>, i: nat)
    requires OneChain(b, p) && i < |p|
    ensures (exists e :: e in b.supports && e.1 == p[i]) <==> i > 0
    ensures (exists e :: e in b.supports && e.0 == p[i]) <==> i < |p| - 1
  {
    if i > 0 {
      assert Link(p, i) in b.supports;
    }
    if i < |p| - 1 {
      assert Link(p, i + 1) in b.supports;
    }
  }

  lemma IsEnd(b: Board, u: Id)
    requires ValidBoard(b)
    ensures u in Roots(b) <==> u in b.order && !exists e :: e in b.supports && e.1 == u
    ensures u in Leaves(b) <==> u in b.order && !exists e :: e in b.supports && e.0 == u
  {
    RootsAndLeaves(b);
    hide Roots, Leaves;
  }

  lemma ChainMember(b: Board, p: seq<Id>, u: Id)
    requires ValidBoard(b) && OneChain(b, p)
    ensures u in b.order <==> exists i :: 0 <= i < |p| && p[i] == u
    ensures u in b.order <==> u in b.hypotheses
  {
    assert u in b.order <==> u in Elements(b.order);
    assert u in p <==> u in Elements(p);
  }

  /** The first hypothesis is the only root, the last the only leaf. */
  lemma ChainEnds(b: Board, p: seq<Id>, u: Id)
    requires ValidBoard(b) && OneChain(b, p)
    ensures u in Roots(b) <==> u == p[0]
    ensures u in Leaves(b) <==> u == p[|p| - 1]
  {
    assert NoDup(p) && p != [];
    hide Roots, Leaves, ValidBoard, OneChain;
    IsEnd(b, u);
    ChainMember(b, p, u);
    ChainMember(b, p, p[0]);
    if i :| 0 <= i < |p| && p[i] == u {
      SupportedInChain(b, p, i);
    }
    SupportedInChain(b, p, 0);
    SupportedInChain(b, p, |p| - 1);
  }

  /** The bounds on what a chain can carry: the confidence of its first hypothesis, what each
      of its supports can carry, and the confidence of its last hypothesis. */
  ghost function ChainBound(b: Board, p: seq<Id>, k: nat): real
    requires OneChain(b, p) && k <= |p|
  {
    assert forall i :: 0 <= i < |p| ==> p[i] in Elements(p);
    if k == 0 then b.hypotheses[p[0]].confidence
    else if k == |p| then b.hypotheses[p[|p| - 1]].confidence
    else
      assert Link(p, k) in b.supports;
      b.hypotheses[p[k - 1]].confidence * b.supports[(p[k - 1], p[k])]
  }

  lemma NetworkKeys(b: Board, n: Network)
    requires ValidBoard(b) && IsFlowNetwork(b, n)
    ensures n.nodes == b.hypotheses.Keys && n.between.Keys == b.supports.Keys
  {
    hide Roots, Leaves, NoDup;
    EndsAreHypotheses(b);
  }

  lemma EndKeys(b: Board, p: seq<Id>, n: Network)
    requires ValidBoard(b) && OneChain(b, p) && IsFlowNetwork(b, n)
    ensures n.fromSource.Keys == {p[0]} && n.toSink.Keys == {p[|p| - 1]}
  {
    EndsAreHypotheses(b);
    assert n.fromSource.Keys == Elements(Roots(b)) && n.toSink.Keys == Elements(Leaves(b));
    hide Roots, Leaves, ValidBoard, OneChain;
    forall u ensures u in Elements(Roots(b)) <==> u == p[0] ensures u in Elements(Leaves(b)) <==> u == p[|p| - 1] {
      ChainEnds(b, p, u);
    }
  }

  lemma ChainNetwork(b: Board, p: seq<Id>, n: Network)
    requires ValidBoard(b) && OneChain(b, p) && IsFlowNetwork(b, n)
    ensures IsChain(n, p)
  {
    hide ValidBoard, IsFlowNetwork, NoDup;
    NetworkKeys(b, n);
    EndKeys(b, p, n);
  }

  lemma ChainLink(b: Board, p: seq<Id>, n: Network, k: nat)
    requires ValidBoard(b) && OneChain(b, p) && IsFlowNetwork(b, n) && k <= |p|
    ensures AtLink(n.fromSource, n.toSink, n.between, p, k) == ChainBound(b, p, k)
  {
    hide Roots, Leaves, NoDup, Elements, IsFlowNetwork, ValidBoard, Get;
    if k == 0 {
      ChainEnds(b, p, p[0]);
      EndCapacity(b, n, p[0]);
    } else if k == |p| {
      ChainEnds(b, p, p[|p| - 1]);
      EndCapacity(b, n, p[|p| - 1]);
    } else {
      SupportCapacity(b, n, Link(p, k));
    }
  }

  /** Supports that form one chain: the value is the least of the confidence of the first
      hypothesis, that of the last, and each supporter's confidence times the weight of its
      support. */
  lemma ChainConsensus(b: Board, p: seq<Id>, c: Consensus) returns (k: nat)
    requires ValidBoard(b) && OneChain(b, p) && IsConsensus(b, c)
    ensures k <= |p| && c.flowValue == ChainBound(b, p, k)
    ensures forall i: nat :: i <= |p| ==> c.flowValue <= ChainBound(b, p, i)
  {
    ChainEnds(b, p, p[0]);
    ChainEnds(b, p, p[|p| - 1]);
    ChainMember(b, p, p[0]);
    assert p[0] in Roots(b) && p[|p| - 1] in Leaves(b) && p[0] in b.order;
    var n :| IsFlowNetwork(b, n) && MaximumFlow(n, c.allFlows.value);
    hide OneChain, ChainBound, IsFlowNetwork, AtLink, MaximumFlow, WellFormed, Value;
    NetworkIsWellFormed(b, n);
    ChainNetwork(b, p, n);
    k := ChainFlow(n, p, c.allFlows.value);
    forall i: nat | i <= |p| ensures AtLink(n.fromSource, n.toSink, n.between, p, i) == ChainBound(b, p, i) {
      ChainLink(b, p, n, i);
    }
  }

  /** A chain of supports from a hypothesis nobody supports to one that supports nobody,
      with some confidence in each. */
  ghost predicate SupportChain(b: Board, p: seq<Id>) {
    && IsWalk(b.supports.Keys, p) && p[0] in Roots(b) && p[|p| - 1] in Leaves(b)
    && forall i :: 0 <= i < |p| ==> p[i] in b.hypotheses && b.hypotheses[p[i]].confidence > 0.0
  }

  lemma CapacityPositive(confidence: real, weight: real)
    requires confidence >= 0.0 && weight > 0.0
    ensures Capacity(confidence, weight) > 0.0 <==> confidence > 0.0
  {
  }

  lemma ChannelIsChain(b: Board, n: Network, p: seq<Id>)
    requires ValidBoard(b) && IsFlowNetwork(b, n) && Channel(n, p)
    ensures SupportChain(b, p)
  {
    EndsAreHypotheses(b);
    hide Capacity, Roots, Leaves, NoDup;
    forall i | 0 <= i < |p| - 1 ensures (p[i], p[i + 1]) in b.supports && b.hypotheses[p[i]].confidence > 0.0 {
      assert (p[i], p[i + 1]) in Positive(n.between);
      CapacityPositive(b.hypotheses[p[i]].confidence, b.supports[(p[i], p[i + 1])]);
    }
    var last := p[|p| - 1];
    assert p[0] in Elements(Roots(b)) && last in Elements(Leaves(b)) && b.hypotheses[last].confidence > 0.0;
    forall i | 0 <= i < |p| ensures p[i] in b.hypotheses && b.hypotheses[p[i]].confidence > 0.0 {
      assert i < |p| - 1 ==> (p[i], p[i + 1]) in b.supports;
    }
  }

  lemma ChainIsChannel(b: Board, n: Network, p: seq<Id>)
    requires ValidBoard(b) && IsFlowNetwork(b, n) && SupportChain(b, p)
    ensures Channel(n, p)
  {
    EndsAreHypotheses(b);
    hide Capacity, Roots, Leaves, NoDup;
    forall i | 0 <= i < |p| - 1 ensures (p[i], p[i + 1]) in Positive(n.between) {
      assert (p[i], p[i + 1]) in b.supports;
      CapacityPositive(b.hypotheses[p[i]].confidence, b.supports[(p[i], p[i + 1])]);
    }
  }

  /** The flow finds a winner exactly when such a chain exists. */
  lemma WinnerExactlyWhen(b: Board, c: Consensus)
    requires ValidBoard(b) && HasEnds(b) && IsConsensus(b, c)
    ensures c.winner.Some? <==> exists p :: SupportChain(b, p)
  {
    ConsensusIsBounded(b, c);
    var n :| IsFlowNetwork(b, n) && MaximumFlow(n, c.allFlows.value);
    NetworkIsWellFormed(b, n);
    PositiveExactlyWhen(n, c.allFlows.value);
    hide IsConsensus, MaximumFlow, WellFormed, IsFlowNetwork;
    if p :| Channel(n, p) {
      ChannelIsChain(b, n, p);
    }
    if p :| SupportChain(b, p) {
      ChainIsChannel(b, n, p);
    }
  }

  // ----- Symmetric support -----

  ghost predicate Symmetric(supports: map<Pair, real>) {
    forall e :: e in supports ==> (e.1, e.0) in supports
  }

  ghost predicate IsIsolated(b: Board, u: Id) {
    u in b.order && forall e :: e in b.supports ==> e.0 != u && e.1 != u
  }

  ghost predicate Beats(b: Board, isolated: seq<Id>, i: nat, h: Hypothesis)
    requires forall u :: u in isolated ==> u in b.hypotheses
    requires i < |isolated|
  {
    && isolated[i] in b.hypotheses && b.hypotheses[isolated[i]] == h
    && forall k :: 0 <= k < |isolated| ==>
         isolated[k] in isolated
         && if k < i then b.hypotheses[isolated[k]].confidence < h.confidence
            else b.hypotheses[isolated[k]].confidence <= h.confidence
  }

  /** The isolated hypotheses in insertion order; the winner is the first of them with the
      greatest confidence, unless all their confidences are zero. */
  ghost predicate MostConfident(b: Board, isolated: seq<Id>, winner: Option<Hypothesis>)
    requires forall u :: u in isolated ==> u in b.hypotheses
  {
    match winner
    case None => forall u :: u in isolated ==> b.hypotheses[u].confidence == 0.0
    case Some(h) =>
      && h.confidence > 0.0
      && exists i :: 0 <= i < |isolated| && Beats(b, isolated, i, h)
  }

  lemma {:induction false} SameSelection(order: seq<Id>, keep: Id -> bool, also: Id -> bool)
    requires forall u :: keep(u) <==> also(u)
    ensures Filter(order, keep) == Filter(order, also)
  {
    if order == [] {
    } else {
      SameSelection(order[..|order| - 1], keep, also);
    }
  }

  lemma SymmetricDegrees(supports: map<Pair, real>, u: Id)
    requires Symmetric(supports)
    ensures (forall e :: e in supports ==> e.1 != u) <==> (forall e :: e in supports ==> e.0 != u)
    ensures InDegree(supports, u) == 0 <==> OutDegree(supports, u) == 0
  {
    DegreeZero(supports, u);
    hide InDegree, OutDegree;
    if e :| e in supports && e.1 == u {
      assert (e.1, e.0) in supports && (e.1, e.0).0 == u;
    }
    if e :| e in supports && e.0 == u {
      assert (e.1, e.0) in supports && (e.1, e.0).1 == u;
    }
  }

  lemma SymmetricEnds(b: Board)
    requires ValidBoard(b) && Symmetric(b.supports)
    ensures Roots(b) == Leaves(b)
    ensures forall u :: u in Roots(b) <==> IsIsolated(b, u)
  {
    RootsAndLeaves(b);
    forall u ensures InDegree(b.supports, u) == 0 <==> OutDegree(b.supports, u) == 0
             ensures (forall e :: e in b.supports ==> e.1 != u) <==> (forall e :: e in b.supports ==> e.0 != u) {
      SymmetricDegrees(b.supports, u);
    }
    hide Symmetric, InDegree, OutDegree, NoDup;
    SameSelection(b.order, u => InDegree(b.supports, u) == 0, u => OutDegree(b.supports, u) == 0);
    assert Roots(b) == Leaves(b);
    hide Roots, Leaves;
  }

  lemma IsKnown(b: Board)
    requires ValidBoard(b)
    ensures Known(b)
  {
    assert forall u :: u in b.order ==> u in Elements(b.order);
  }

  /** With nothing isolated, the top of the ranking; otherwise the total confidence of the
      isolated hypotheses and the most confident of them. */
  ghost predicate SymmetricOutcome(b: Board, c: Consensus)
    requires ValidBoard(b)
  {
    EndsAreHypotheses(b);
    if Roots(b) == [] then
      IsKnown(b); c.winner.Some? && TopRanked(b, c.winner.value, c.flowValue)
    else
      && c.flowValue == Total(Confidences(b, Elements(Roots(b))))
      && (forall u :: u in Roots(b) ==> u in Elements(Roots(b)))
      && MostConfident(b, Roots(b), c.winner)
  }

  lemma WinnerByConfidence(b: Board, inflow: map<Id, real>, winner: Option<Hypothesis>)
    requires ValidBoard(b) && Elements(Roots(b)) <= b.hypotheses.Keys
    requires inflow == Confidences(b, Elements(Roots(b)))
    requires winner.Some? ==> winner.value.id in b.hypotheses && b.hypotheses[winner.value.id] == winner.value
    requires FirstGreatest(Roots(b), inflow, if winner.Some? then Some(winner.value.id) else None)
    ensures forall u :: u in Roots(b) ==> u in b.hypotheses
    ensures MostConfident(b, Roots(b), winner)
  {
    var roots := Roots(b);
    assert forall u :: u in roots ==> u in Elements(roots) && Get(inflow, u) == b.hypotheses[u].confidence;
    if winner.Some? {
      var w := winner.value.id;
      var i :| 0 <= i < |roots| && roots[i] == w && forall k :: 0 <= k < |roots| ==>
        if k < i then Get(inflow, roots[k]) < Get(inflow, w) else Get(inflow, roots[k]) <= Get(inflow, w);
      assert forall k :: 0 <= k < |roots| ==> roots[k] in roots;
      assert Beats(b, roots, i, winner.value);
    }
  }

  /** With symmetric support the roots and the leaves are the isolated hypotheses, the ranking
      fallback is used only when there are none, and every maximum flow gives the same value
      and the same winner. */
  lemma SymmetricConsensus(b: Board, c: Consensus)
    requires ValidBoard(b) && Symmetric(b.supports) && IsConsensus(b, c) && b.order != []
    ensures Roots(b) == Leaves(b) && forall u :: u in Roots(b) <==> IsIsolated(b, u)
    ensures SymmetricOutcome(b, c)
  {
    RootsAndLeaves(b);
    SymmetricEnds(b);
    if Roots(b) != [] {
      var f := c.allFlows.value;
      var n :| IsFlowNetwork(b, n) && MaximumFlow(n, f);
      NetworkIsWellFormed(b, n);
      assert RootsAreIsolated(n);
      IsolatedAreSaturated(n, f);
      WinnerByConfidence(b, n.fromSource, c.winner);
    }
  }

  /** nx.maximum_flow: a maximum flow and its value. */
  ghost predicate IsSolver(solver: Network -> (real, Flow)) {
    forall n :: WellFormed(n) ==> MaximumFlow(n, solver(n).1) && solver(n).0 == Value(solver(n).1)
  }

  // ----- The graph -----

  function Severe(contradictions: seq<Contradiction>, threshold: real): seq<Contradiction> {
    Filter(contradictions, (c: Contradiction) => c.severity >= threshold)
  }

  /** All those at or above the threshold and no others, in the order recorded. */
  lemma SevereInOrder(contradictions: seq<Contradiction>, threshold: real) returns (pos: seq<nat>)
    ensures Lists(pos, contradictions, (c: Contradiction) => c.severity >= threshold)
    ensures Picked(pos, contradictions, Severe(contradictions, threshold))
  {
    pos := FilterInOrder(contradictions, (c: Contradiction) => c.severity >= threshold);
  }

  class DeliberationGraph {
    var order: seq<Id>
    var hypotheses: map<Id, Hypothesis>
    var supports: map<Pair, real>
    var contradictions: seq<Contradiction>

    function Contents(): Board
      reads this
    {
      Board(order, hypotheses, supports, contradictions)
    }

    ghost predicate Valid()
      reads this
    {
      ValidBoard(Contents())
    }

    constructor ()
      ensures Valid() && Contents() == Board([], map[], map[], [])
    {
      order, hypotheses, supports, contradictions := [], map[], map[], [];
    }

    method Clear()
      modifies this
      ensures Valid() && Contents() == Board([], map[], map[], [])
    {
      order, hypotheses, supports, contradictions := [], map[], map[], [];
    }

    /** id stands for the fresh uuid. */
    method AddHypothesis(id: Id, claim: string, perspective: string, confidence: real) returns (h: Hypothesis)
      requires Valid() && id !in hypotheses
      modifies this
      ensures Valid()
      ensures h == Hypothesis(id, claim, perspective, Clamp(0.0, 1.0, confidence))
      ensures Contents() == old(Contents()).(order := old(order) + [id], hypotheses := old(hypotheses)[id := h])
    {
      var kept := confidence;
      if !(0.0 <= confidence <= 1.0) {
        kept := if confidence < 0.0 then 0.0 else 1.0;
      }
      h := Hypothesis(id, claim, perspective, kept);
      NoDupAppend(order, id);
      order, hypotheses := order + [id], hypotheses[id := h];
    }

    /** Ignored unless the weight is positive and both hypotheses exist. */
    method AddSupport(fromId: Id, toId: Id, weight: real)
      requires Valid()
      modifies this
      ensures Valid()
      ensures Contents() == if weight > 0.0 && fromId in old(hypotheses) && toId in old(hypotheses)
                            then old(Contents()).(supports := old(supports)[(fromId, toId) := weight])
                            else old(Contents())
    {
      if weight <= 0.0 {
        return;
      }
      if fromId !in hypotheses || toId !in hypotheses {
        return;
      }
      supports := supports[(fromId, toId) := weight];
    }

    method AddContradiction(idA: Id, idB: Id, severity: real) returns (c: Option<Contradiction>)
      requires Valid()
      modifies this
      ensures Valid()
      ensures c == if idA in old(hypotheses) && idB in old(hypotheses)
                   then Some(Contradiction(idA, idB, Clamp(0.0, 1.0, severity))) else None
      ensures Contents() == if c.Some? then old(Contents()).(contradictions := old(contradictions) + [c.value])
                            else old(Contents())
    {
      var kept := severity;
      if !(0.0 <= severity <= 1.0) {
        kept := if severity < 0.0 then 0.0 else 1.0;
      }
      if idA !in hypotheses || idB !in hypotheses {
        return None;
      }
      c := Some(Contradiction(idA, idB, kept));
      contradictions := contradictions + [c.value];
    }

    /** Those at least as severe as the threshold, in the order recorded. */
    method DetectContradictions(threshold: real) returns (found: seq<Contradiction>)
      ensures found == Severe(contradictions, threshold)
    {
      found := [];
      for i := 0 to |contradictions|
        invariant found == Severe(contradictions[..i], threshold)
      {
        assert contradictions[..i + 1][..i] == contradictions[..i];
        if contradictions[i].severity >= threshold {
          found := found + [contradictions[i]];
        }
      }
      assert contradictions[..|contradictions|] == contradictions;
    }

    method CountContested(u: Id) returns (n: nat)
      ensures n == Contested(contradictions, u)
    {
      n := 0;
      for i := 0 to |contradictions|
        invariant n == Contested(contradictions[..i], u)
      {
        assert contradictions[..i + 1][..i] == contradictions[..i];
        if contradictions[i].hypothesisA == u || contradictions[i].hypothesisB == u {
          n := n + 1;
        }
      }
      assert contradictions[..|contradictions|] == contradictions;
    }

    method RankHypotheses() returns (ranked: seq<Ranked>)
      requires Valid()
      ensures Known(Contents()) && ranked == Sort(Scored(Contents()), Descending)
    {
      assert forall i :: 0 <= i < |order| ==> order[i] in Elements(order);
      var results: seq<Ranked> := [];
      for i := 0 to |order|
        invariant Known(Contents()) && results == Scored(Contents())[..i]
      {
        var u := order[i];
        var supportCount := InDegree(supports, u);
        var contradictionCount := CountContested(u);
        var score := Composite(hypotheses[u].confidence, supportCount, contradictionCount);
        assert Scored(Contents())[i] == Ranked(hypotheses[u], score);
        results := results + [Ranked(hypotheses[u], score)];
      }
      assert Scored(Contents())[..|order|] == Scored(Contents());
      ranked := Sort(results, Descending);
    }

    method ConfidencesOf(ids: seq<Id>) returns (capacity: map<Id, real>)
      requires Elements(ids) <= hypotheses.Keys
      ensures capacity == Confidences(Contents(), Elements(ids))
    {
      capacity := map[];
      for i := 0 to |ids|
        invariant Elements(ids[..i]) <= hypotheses.Keys
        invariant capacity == Confidences(Contents(), Elements(ids[..i]))
      {
        assert ids[i] in Elements(ids);
        assert Elements(ids[..i + 1]) == Elements(ids[..i]) + {ids[i]};
        capacity := capacity[ids[i] := hypotheses[ids[i]].confidence];
      }
      assert ids[..|ids|] == ids;
    }

    method SupportCapacities() returns (capacity: map<Pair, real>)
      requires Valid()
      ensures capacity == Capacities(Contents(), supports.Keys)
    {
      hide Capacity, Capacities, NoDup;
      capacity := map[];
      var edges := Rows(supports.Keys);
      NoCapacities(Contents(), Elements(edges[..0]));
      for i := 0 to |edges|
        invariant Elements(edges[..i]) <= supports.Keys
        invariant capacity == Capacities(Contents(), Elements(edges[..i]))
      {
        var e := edges[i];
        assert e in edges;
        assert Elements(edges[..i + 1]) == Elements(edges[..i]) + {e};
        CapacitiesAdd(Contents(), Elements(edges[..i]), e);
        capacity := capacity[e := Capacity(hypotheses[e.0].confidence, supports[e])];
      }
      assert Elements(edges[..|edges|]) == supports.Keys;
    }

    method MaxFlowConsensus(solver: Network -> (real, Flow)) returns (c: Consensus)
      requires Valid() && IsSolver(solver)
      ensures IsConsensus(Contents(), c)
    {
      if order == [] {
        return Consensus(None, 0.0, [], None);
      }
      var roots, leaves := Roots(Contents()), Leaves(Contents());
      if roots == [] || leaves == [] {
        var ranked := RankHypotheses();
        HeadIsTopRanked(Contents());
        var top := ranked[0];
        return Consensus(Some(top.hypothesis), top.score, [top.hypothesis.id], None);
      }
      RootsAndLeaves(Contents());
      var fromSource := ConfidencesOf(roots);
      var toSink := ConfidencesOf(leaves);
      var between := SupportCapacities();
      var network := Network(hypotheses.Keys, fromSource, toSink, between);
      NetworkIsWellFormed(Contents(), network);
      var (flowValue, flow) := solver(network);
      var winnerId := PickWinner(roots, flow.fromSource);
      var winner := None;
      var path := [];
      if winnerId.Some? {
        winner, path := Some(hypotheses[winnerId.value]), [winnerId.value];
      }
      c := Consensus(winner, flowValue, path, Some(flow));
      assert WinnerId(c) == winnerId;
    }
  }
}
