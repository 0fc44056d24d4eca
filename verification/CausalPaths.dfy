/** Which pathways find_causal_paths must return, and why breadth-first expansion of
    simple paths returns exactly those. */
module CausalPaths {
  import opened Reals
  import opened Sequences
  import opened Digraph
  import opened CausalEdges

  type Path = seq<Variable>

  datatype Pathway = Pathway(
    source: Variable,
    target: Variable,
    path: Path,
    strength: real,
    confidence: real,
    length: int)

  function Last(p: Path): Variable
    requires p != []
  {
    p[|p| - 1]
  }

  lemma PrefixIsWalk(E: set<(Variable, Variable)>, p: Path)
    requires IsWalk(E, p) && |p| > 1
    ensures IsWalk(E, p[..|p| - 1]) && (p[|p| - 2], p[|p| - 1]) in E
  {
    var t := p[..|p| - 1];
    forall i | 0 <= i < |t| - 1 ensures (t[i], t[i + 1]) in E {
      assert t[i] == p[i] && t[i + 1] == p[i + 1];
    }
    assert (p[|p| - 2], p[|p| - 2 + 1]) in E;
  }

  /** The product of the strengths along a walk. */
  ghost function Strength(edges: Edges, p: Path): real
    requires IsWalk(edges.Keys, p)
    decreases |p|
  {
    if |p| == 1 then 1.0
    else
      PrefixIsWalk(edges.Keys, p);
      Strength(edges, p[..|p| - 1]) * edges[(p[|p| - 2], p[|p| - 1])].strength
  }

  /** The least confidence along a walk, at most 1. */
  ghost function Confidence(edges: Edges, p: Path): real
    requires IsWalk(edges.Keys, p)
    decreases |p|
  {
    if |p| == 1 then 1.0
    else
      PrefixIsWalk(edges.Keys, p);
      Min(Confidence(edges, p[..|p| - 1]), edges[(p[|p| - 2], p[|p| - 1])].confidence)
  }

  lemma ExtendWalk(edges: Edges, source: Variable, p: Path, v: Variable)
    requires p != [] && Walk(edges.Keys, source, p, Last(p)) && (Last(p), v) in edges
    ensures Walk(edges.Keys, source, p + [v], v)
    ensures Strength(edges, p + [v]) == Strength(edges, p) * edges[(Last(p), v)].strength
    ensures Confidence(edges, p + [v]) == Min(Confidence(edges, p), edges[(Last(p), v)].confidence)
  {
    var q := p + [v];
    forall i | 0 <= i < |q| - 1 ensures (q[i], q[i + 1]) in edges.Keys {
      if i < |p| - 1 {
        assert q[i] == p[i] && q[i + 1] == p[i + 1];
      }
    }
    assert q[..|q| - 1] == p;
  }

  lemma PrefixHop(p: Path, i: nat)
    requires i < |p| - 2
    ensures p[..|p| - 1][i] == p[i] && p[..|p| - 1][i + 1] == p[i + 1]
  {
  }

  /** It is 1 or the confidence of some edge of the walk, and no edge has less. */
  lemma {:induction false} ConfidenceIsLeast(edges: Edges, p: Path)
    requires IsWalk(edges.Keys, p)
    ensures Confidence(edges, p) <= 1.0
    ensures forall i :: 0 <= i < |p| - 1 ==>
      (p[i], p[i + 1]) in edges && Confidence(edges, p) <= edges[(p[i], p[i + 1])].confidence
    ensures Confidence(edges, p) == 1.0
      || exists i :: 0 <= i < |p| - 1 && (p[i], p[i + 1]) in edges
                     && Confidence(edges, p) == edges[(p[i], p[i + 1])].confidence
    decreases |p|
  {
    if |p| == 1 {
    } else {
      var q, n := p[..|p| - 1], |p| - 2;
      PrefixIsWalk(edges.Keys, p);
      ConfidenceIsLeast(edges, q);
      forall i | 0 <= i < |p| - 1 ensures (p[i], p[i + 1]) in edges
                                  ensures Confidence(edges, p) <= edges[(p[i], p[i + 1])].confidence {
        if i < n {
          PrefixHop(p, i);
        }
      }
      if Confidence(edges, p) == Confidence(edges, q) && Confidence(edges, p) != 1.0 {
        var i :| 0 <= i < |q| - 1 && (q[i], q[i + 1]) in edges
                 && Confidence(edges, q) == edges[(q[i], q[i + 1])].confidence;
        PrefixHop(p, i);
        assert (p[i], p[i + 1]) in edges;
      } else {
        assert (p[n], p[n + 1]) in edges;
      }
    }
  }

  /** A simple path from source to target of at least one and at most `bound` edges. */
  ghost predicate CausalPath(E: set<(Variable, Variable)>, source: Variable, target: Variable, bound: int, p: Path) {
    |p| >= 2 && NoDup(p) && Walk(E, source, p, target) && |p| - 1 <= bound
  }

  ghost predicate Connected(E: set<(Variable, Variable)>, source: Variable, target: Variable, bound: int) {
    exists p :: CausalPath(E, source, target, bound, p)
  }

  function PathSet(s: seq<Path>): set<Path> {
    Elements(s)
  }

  /** Each simple path of at most maxLength + 1 edges exactly once and nothing else, in
      nondecreasing length. */
  ghost predicate Enumerates(E: set<(Variable, Variable)>, source: Variable, target: Variable, maxLength: int,
                             paths: seq<Path>) {
    && NoDup(paths)
    && (forall p :: p in paths <==> CausalPath(E, source, target, maxLength + 1, p))
    && forall i, j :: 0 <= i < j < |paths| ==> |paths[i]| <= |paths[j]|
  }

  lemma EdgeIsPath(E: set<(Variable, Variable)>, a: Variable, b: Variable)
    requires (a, b) in E && a != b
    ensures CausalPath(E, a, b, 1, [a, b])
  {
  }

  /** An instance of a path longer than the limit asked for: one edge, and the limit 0. */
  lemma LimitCanBeExceeded(a: Variable, b: Variable, paths: seq<Path>)
    requires a != b && Enumerates({(a, b)}, a, b, 0, paths)
    ensures paths == [[a, b]] && |paths[0]| - 1 == 1
  {
    EdgeIsPath({(a, b)}, a, b);
    forall p | p in paths ensures p == [a, b] {
      assert CausalPath({(a, b)}, a, b, 1, p);
    }
    assert [a, b] in paths;
    assert Elements(paths) == {[a, b]};
    NoDupCardinality(paths);
  }

  /** In general one is returned exactly when some simple path has one edge too many. */
  lemma LimitExceededExactlyWhen(E: set<(Variable, Variable)>, source: Variable, target: Variable, maxLength: int,
                                 paths: seq<Path>)
    requires Enumerates(E, source, target, maxLength, paths)
    ensures (exists p :: p in paths && |p| - 1 > maxLength)
       <==> exists p :: CausalPath(E, source, target, maxLength + 1, p) && |p| == maxLength + 2
  {
    var bound := maxLength + 1;
    if p :| p in paths && |p| - 1 > maxLength {
      assert CausalPath(E, source, target, bound, p);
    }
    if p :| CausalPath(E, source, target, bound, p) && |p| == maxLength + 2 {
      assert p in paths;
    }
  }

  // ----- The frontier of the search -----

  /** The one-edge simple extensions of q. */
  ghost function Extensions(E: set<(Variable, Variable)>, q: Path): set<Path>
    requires q != []
  {
    set e | e in E && e.0 == Last(q) && e.1 !in q :: q + [e.1]
  }

  /** No member is a prefix of another. */
  ghost predicate Antichain(X: set<Path>) {
    forall x, y :: x in X && y in X && x <= y ==> x == y
  }

  ghost predicate Begun(Q: set<Path>, p: Path) {
    exists k :: 1 <= k < |p| && p[..k] in Q
  }

  /** The paths found so far (R) and those still to be extended (Q): no path is a prefix
      of another, and every path to be found is found or begins with a queued one. */
  ghost predicate Frontier(E: set<(Variable, Variable)>, source: Variable, target: Variable, bound: int,
                           R: set<Path>, Q: set<Path>)
  {
    && R !! Q
    && (forall q :: q in Q ==> q != [] && NoDup(q) && Walk(E, source, q, Last(q)))
    && (forall r :: r in R ==> CausalPath(E, source, target, bound, r))
    && Antichain(R + Q)
    && (forall p :: CausalPath(E, source, target, bound, p) ==> p in R || Begun(Q, p))
  }

  lemma FrontierStart(E: set<(Variable, Variable)>, source: Variable, target: Variable, bound: int)
    ensures Frontier(E, source, target, bound, {}, {[source]})
  {
    forall p | CausalPath(E, source, target, bound, p) ensures Begun({[source]}, p) {
      assert p[..1] == [source];
    }
  }

  /** A queued path longer than the bound begins no path to be found. */
  lemma FrontierDiscard(E: set<(Variable, Variable)>, source: Variable, target: Variable, bound: int,
                        R: set<Path>, Q: set<Path>, q: Path)
    requires Frontier(E, source, target, bound, R, Q) && q in Q && |q| > bound
    ensures Frontier(E, source, target, bound, R, Q - {q})
  {
    assert R + (Q - {q}) <= R + Q;
    forall p | CausalPath(E, source, target, bound, p) && p !in R ensures Begun(Q - {q}, p) {
      var k :| 1 <= k < |p| && p[..k] in Q;
      assert |p[..k]| == k <= bound;
    }
  }

  lemma ExtensionPrefix(x: Path, q: Path, v: Variable)
    ensures x <= q + [v] <==> x <= q || x == q + [v]
    ensures q + [v] <= x ==> q <= x
  {
    if x <= q + [v] && |x| <= |q| {
      assert forall i :: 0 <= i < |x| ==> x[i] == (q + [v])[i] == q[i];
    }
    if x <= q + [v] && |x| == |q| + 1 {
      assert x == q + [v];
    }
    if q + [v] <= x {
      assert forall i :: 0 <= i < |q| ==> q[i] == (q + [v])[i] == x[i];
    }
  }

  lemma ExtensionPrefixes(E: set<(Variable, Variable)>, q: Path, c: Path, x: Path)
    requires q != [] && c in Extensions(E, q)
    ensures |c| == |q| + 1
    ensures x <= c <==> x <= q || x == c
    ensures c <= x ==> q <= x
  {
    var e :| e in E && e.1 !in q && c == q + [e.1];
    ExtensionPrefix(x, q, e.1);
  }

  lemma AntichainAfterExtend(E: set<(Variable, Variable)>, X: set<Path>, q: Path)
    requires q != [] && q in X && Antichain(X)
    ensures Antichain(X - {q} + Extensions(E, q))
  {
    var N := Extensions(E, q);
    forall c, x | c in N && x in X + N
      ensures |c| == |q| + 1 && (x <= c <==> x <= q || x == c) && (c <= x ==> q <= x) {
      ExtensionPrefixes(E, q, c, x);
    }
  }

  /** The next node of a path to be found that begins with q. */
  lemma NextStep(E: set<(Variable, Variable)>, source: Variable, target: Variable, bound: int, p: Path, k: nat)
    requires CausalPath(E, source, target, bound, p) && 1 <= k < |p|
    ensures p[..k + 1] in Extensions(E, p[..k])
    ensures p[k] == target ==> k + 1 == |p|
  {
    var q := p[..k];
    assert (p[k - 1], p[k - 1 + 1]) in E;
    assert p[..k + 1] == q + [p[k]];
    assert (Last(q), p[k]) in E && p[k] !in q;
  }

  lemma ExtensionsAreSimple(E: set<(Variable, Variable)>, source: Variable, q: Path, c: Path)
    requires q != [] && NoDup(q) && Walk(E, source, q, Last(q)) && c in Extensions(E, q)
    ensures NoDup(c) && c != [] && Walk(E, source, c, Last(c)) && |c| == |q| + 1 && q <= c && q != c
  {
    var e :| e in E && e.0 == Last(q) && e.1 !in q && c == q + [e.1];
    assert Walk(E, Last(q), [Last(q), e.1], e.1);
    WalkConcat(E, source, q, Last(q), [Last(q), e.1], e.1);
    assert q + [Last(q), e.1][1..] == c;
  }

  /** Extending a queued path: extensions that reach the target are found, the others
      are queued. */
  lemma FrontierExtend(E: set<(Variable, Variable)>, source: Variable, target: Variable, bound: int,
                       R: set<Path>, Q: set<Path>, q: Path, found: set<Path>, queued: set<Path>)
    requires Frontier(E, source, target, bound, R, Q) && q in Q && |q| <= bound
    requires found == set c | c in Extensions(E, q) && Last(c) == target
    requires queued == set c | c in Extensions(E, q) && Last(c) != target
    ensures Frontier(E, source, target, bound, R + found, Q - {q} + queued)
    ensures Extensions(E, q) !! R + Q
  {
    var N := Extensions(E, q);
    forall c | c in N
      ensures NoDup(c) && c != [] && Walk(E, source, c, Last(c)) && |c| == |q| + 1 && c !in R + Q {
      ExtensionsAreSimple(E, source, q, c);
    }
    AntichainAfterExtend(E, R + Q, q);
    assert R + found + (Q - {q} + queued) <= R + Q - {q} + N;
    forall p | CausalPath(E, source, target, bound, p) && p !in R + found ensures Begun(Q - {q} + queued, p) {
      var k :| 1 <= k < |p| && p[..k] in Q;
      if p[..k] == q {
        NextStep(E, source, target, bound, p, k);
        assert p[..|p|] == p;
        assert p[..k + 1] in queued;
      }
    }
  }

  /** A simple path visits no more nodes than there are. */
  lemma SimplePathLength(E: set<(Variable, Variable)>, source: Variable, p: Path, nodes: set<Variable>)
    requires NoDup(p) && p != [] && Walk(E, source, p, Last(p)) && source in nodes && Nodes(E) <= nodes
    ensures |p| <= |nodes|
  {
    forall x | x in p ensures x in nodes {
      var i :| 0 <= i < |p| && p[i] == x;
      if i > 0 {
        assert (p[i - 1], p[i - 1 + 1]) in E;
      }
    }
    NoDupCardinality(p);
    SubsetSize(Elements(p), nodes);
  }

  lemma PathInside(E: set<(Variable, Variable)>, source: Variable, target: Variable, bound: int, p: Path)
    requires CausalPath(E, source, target, bound, p)
    ensures source in Nodes(E) && target in Nodes(E)
  {
    assert (p[0], p[0 + 1]) in E;
    assert (p[|p| - 2], p[|p| - 2 + 1]) in E;
  }

  lemma NoPathOutside(E: set<(Variable, Variable)>, source: Variable, target: Variable, maxLength: int)
    requires source !in Nodes(E) || target !in Nodes(E)
    ensures Enumerates(E, source, target, maxLength, [])
  {
    var bound := maxLength + 1;
    forall p ensures !CausalPath(E, source, target, bound, p) {
      if CausalPath(E, source, target, bound, p) {
        PathInside(E, source, target, bound, p);
      }
    }
  }
}
