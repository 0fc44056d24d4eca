/** Finite directed graphs given as sets of edges: walks, reachability, cycles and
    distances.  Every engine of the repository that follows edges (goal dependencies,
    parent links, causal edges) is specified with these notions. */
module Digraph {
  import opened Sequences

  // ----- Walks and reachability -----

  ghost predicate IsWalk<V(!new)>(E: set<(V, V)>, w: seq<V>) {
    |w| > 0 && forall i :: 0 <= i < |w| - 1 ==> (w[i], w[i + 1]) in E
  }

  ghost predicate Walk<V(!new)>(E: set<(V, V)>, u: V, w: seq<V>, v: V) {
    IsWalk(E, w) && w[0] == u && w[|w| - 1] == v
  }

  /** There is a walk of zero or more edges from u to v. */
  ghost predicate Reach<V(!new)>(E: set<(V, V)>, u: V, v: V) {
    exists w :: Walk(E, u, w, v)
  }

  /** There is a walk of one or more edges from u to v. */
  ghost predicate ReachPlus<V(!new)>(E: set<(V, V)>, u: V, v: V) {
    exists w :: Walk(E, u, w, v) && |w| >= 2
  }

  ghost predicate Acyclic<V(!new)>(E: set<(V, V)>) {
    forall u :: !ReachPlus(E, u, u)
  }

  ghost predicate Closed<V(!new)>(E: set<(V, V)>, S: set<V>) {
    forall e :: e in E && e.0 in S ==> e.1 in S
  }

  ghost function Nodes<V(!new)>(E: set<(V, V)>): set<V> {
    (set e | e in E :: e.0) + (set e | e in E :: e.1)
  }

  lemma ReachSelf<V(!new)>(E: set<(V, V)>, u: V)
    ensures Reach(E, u, u)
  {
    assert Walk(E, u, [u], u);
  }

  lemma ReachEdge<V(!new)>(E: set<(V, V)>, u: V, v: V, x: V)
    requires Reach(E, u, v) && (v, x) in E
    ensures Reach(E, u, x) && ReachPlus(E, u, x)
  {
    var w :| Walk(E, u, w, v);
    var w' := w + [x];
    forall i | 0 <= i < |w'| - 1 ensures (w'[i], w'[i + 1]) in E {
      if i == |w| - 1 {
        assert w'[i] == v && w'[i + 1] == x;
      } else {
        assert w'[i] == w[i] && w'[i + 1] == w[i + 1];
      }
    }
    assert Walk(E, u, w', x);
  }

  lemma WalkConcat<V(!new)>(E: set<(V, V)>, u: V, a: seq<V>, v: V, b: seq<V>, x: V)
    requires Walk(E, u, a, v) && Walk(E, v, b, x)
    ensures Walk(E, u, a + b[1..], x)
  {
    var w := a + b[1..];
    forall i | 0 <= i < |w| - 1 ensures (w[i], w[i + 1]) in E {
      if i < |a| - 1 {
        assert w[i] == a[i] && w[i + 1] == a[i + 1];
      } else {
        var k := i - (|a| - 1);
        assert w[i] == b[k] && w[i + 1] == b[k + 1];
      }
    }
  }

  lemma ReachTrans<V(!new)>(E: set<(V, V)>, u: V, v: V, x: V)
    requires Reach(E, u, v) && Reach(E, v, x)
    ensures Reach(E, u, x)
    ensures ReachPlus(E, u, v) || ReachPlus(E, v, x) ==> ReachPlus(E, u, x)
  {
    var a :| Walk(E, u, a, v) && (ReachPlus(E, u, v) ==> |a| >= 2);
    var b :| Walk(E, v, b, x) && (ReachPlus(E, v, x) ==> |b| >= 2);
    WalkConcat(E, u, a, v, b, x);
  }

  /** The first edge of a nonempty walk, and the rest. */
  lemma ReachPlusFirst<V(!new)>(E: set<(V, V)>, u: V, v: V) returns (x: V)
    requires ReachPlus(E, u, v)
    ensures (u, x) in E && Reach(E, x, v)
  {
    var w :| Walk(E, u, w, v) && |w| >= 2;
    x := w[1];
    var t := w[1..];
    forall i | 0 <= i < |t| - 1 ensures (t[i], t[i + 1]) in E {
      assert t[i] == w[i + 1] && t[i + 1] == w[i + 2];
    }
    assert (w[0], w[0 + 1]) in E;
    assert Walk(E, x, t, v);
  }

  /** The last edge of a nonempty walk. */
  lemma ReachPlusLast<V(!new)>(E: set<(V, V)>, u: V, v: V) returns (x: V)
    requires ReachPlus(E, u, v)
    ensures (x, v) in E
  {
    var w :| Walk(E, u, w, v) && |w| >= 2;
    x := w[|w| - 2];
    assert (w[|w| - 2], w[|w| - 2 + 1]) in E;
  }

  lemma ReachCases<V(!new)>(E: set<(V, V)>, u: V, v: V)
    ensures Reach(E, u, v) <==> u == v || ReachPlus(E, u, v)
  {
    ReachSelf(E, u);
    if Reach(E, u, v) && u != v {
      var w :| Walk(E, u, w, v);
      assert |w| >= 2;
    }
  }

  lemma {:induction false} ClosedWalk<V(!new)>(E: set<(V, V)>, S: set<V>, w: seq<V>)
    requires IsWalk(E, w) && Closed(E, S) && w[0] in S
    ensures forall x :: x in w ==> x in S
    decreases |w|
  {
    if |w| > 1 {
      var t := w[..|w| - 1];
      assert IsWalk(E, t) by {
        forall i | 0 <= i < |t| - 1 ensures (t[i], t[i + 1]) in E {
          assert t[i] == w[i] && t[i + 1] == w[i + 1];
        }
      }
      ClosedWalk(E, S, t);
      assert t[|w| - 2] == w[|w| - 2] && w[|w| - 2] in S;
      assert (w[|w| - 2], w[|w| - 2 + 1]) in E;
      assert w == t + [w[|w| - 1]];
    }
  }

  /** A closed set that holds u holds everything reachable from u. */
  lemma ClosedReach<V(!new)>(E: set<(V, V)>, S: set<V>, u: V, v: V)
    requires Closed(E, S) && u in S && Reach(E, u, v)
    ensures v in S
  {
    var w :| Walk(E, u, w, v);
    ClosedWalk(E, S, w);
  }

  lemma {:induction false} BackwardWalk<V(!new)>(E: set<(V, V)>, S: set<V>, w: seq<V>)
    requires IsWalk(E, w) && w[|w| - 1] in S
    requires forall e :: e in E && e.1 in S ==> e.0 in S
    ensures w[0] in S
    decreases |w|
  {
    if |w| > 1 {
      var t := w[1..];
      forall i | 0 <= i < |t| - 1 ensures (t[i], t[i + 1]) in E {
        assert t[i] == w[i + 1] && t[i + 1] == w[i + 2];
      }
      BackwardWalk(E, S, t);
      assert (w[0], w[0 + 1]) in E;
    }
  }

  lemma BackwardClosed<V(!new)>(E: set<(V, V)>, S: set<V>, u: V, v: V)
    requires v in S && Reach(E, u, v)
    requires forall e :: e in E && e.1 in S ==> e.0 in S
    ensures u in S
  {
    var w :| Walk(E, u, w, v);
    BackwardWalk(E, S, w);
  }

  lemma ReachMono<V(!new)>(E: set<(V, V)>, F: set<(V, V)>, u: V, v: V)
    requires E <= F
    ensures Reach(E, u, v) ==> Reach(F, u, v)
    ensures ReachPlus(E, u, v) ==> ReachPlus(F, u, v)
  {
    if Reach(E, u, v) {
      var w :| Walk(E, u, w, v) && (ReachPlus(E, u, v) ==> |w| >= 2);
      assert Walk(F, u, w, v);
    }
    if ReachPlus(E, u, v) {
      var w :| Walk(E, u, w, v) && |w| >= 2;
      assert Walk(F, u, w, v);
    }
  }

  /** A node no edge enters is reached from itself only. */
  lemma NothingEnters<V(!new)>(E: set<(V, V)>, u: V, v: V)
    requires forall e :: e in E ==> e.1 != v
    ensures Reach(E, u, v) ==> u == v
  {
    ReachCases(E, u, v);
    if ReachPlus(E, u, v) {
      var x := ReachPlusLast(E, u, v);
    }
  }

  // ----- Cycles -----

  lemma AcyclicSubset<V(!new)>(E: set<(V, V)>, F: set<(V, V)>)
    requires E <= F && Acyclic(F)
    ensures Acyclic(E)
  {
    forall u ensures !ReachPlus(E, u, u) {
      ReachMono(E, F, u, u);
    }
  }

  /** A walk that may use the extra edge (g, d) either avoids it, or reaches g before
      its first use and leaves from d after its last. */
  lemma {:induction false} SplitWalk<V(!new)>(E: set<(V, V)>, g: V, d: V, w: seq<V>)
    requires IsWalk(E + {(g, d)}, w)
    ensures IsWalk(E, w) || (Reach(E, w[0], g) && Reach(E, d, w[|w| - 1]))
    decreases |w|
  {
    if |w| > 1 {
      var t := w[..|w| - 1];
      var a, b := w[|w| - 2], w[|w| - 1];
      assert IsWalk(E + {(g, d)}, t) by {
        forall i | 0 <= i < |t| - 1 ensures (t[i], t[i + 1]) in E + {(g, d)} {
          assert t[i] == w[i] && t[i + 1] == w[i + 1];
        }
      }
      SplitWalk(E, g, d, t);
      assert (w[|w| - 2], w[|w| - 2 + 1]) in E + {(g, d)};
      if (a, b) in E {
        if IsWalk(E, t) {
          forall i | 0 <= i < |w| - 1 ensures (w[i], w[i + 1]) in E {
            if i < |w| - 2 {
              assert t[i] == w[i] && t[i + 1] == w[i + 1];
            }
          }
        } else {
          ReachEdge(E, d, a, b);
        }
      } else {
        assert a == g && b == d;
        if IsWalk(E, t) {
          assert Walk(E, w[0], t, g);
        }
        ReachSelf(E, d);
      }
    }
  }

  lemma NewCycle<V(!new)>(E: set<(V, V)>, g: V, d: V, u: V)
    ensures ReachPlus(E + {(g, d)}, u, u) ==> ReachPlus(E, u, u) || Reach(E, d, g)
  {
    if ReachPlus(E + {(g, d)}, u, u) {
      var w :| Walk(E + {(g, d)}, u, w, u) && |w| >= 2;
      SplitWalk(E, g, d, w);
      if IsWalk(E, w) {
      } else {
        ReachTrans(E, d, u, g);
      }
    }
  }

  /** The edge (g, d) closes a cycle exactly when g was reachable from d. */
  lemma AddEdgeAcyclic<V(!new)>(E: set<(V, V)>, g: V, d: V)
    requires Acyclic(E)
    ensures Acyclic(E + {(g, d)}) <==> !Reach(E, d, g)
  {
    var F := E + {(g, d)};
    if Reach(E, d, g) {
      ReachMono(E, F, d, g);
      ReachEdge(F, d, g, d);
    } else {
      forall u ensures !ReachPlus(F, u, u) {
        NewCycle(E, g, d, u);
      }
    }
  }

  /** In an acyclic graph every nonempty finite set of nodes has one without a
      successor in the set. */
  lemma {:induction false} SinkExists<V(!new)>(E: set<(V, V)>, S: set<V>) returns (x: V)
    requires Acyclic(E) && S != {}
    ensures x in S && forall y :: y in S ==> (x, y) !in E
    decreases S
  {
    x :| x in S;
    var below := set y | y in S && ReachPlus(E, x, y);
    assert x !in below;
    forall z, y | (z == x || z in below) && y in S && (z, y) in E ensures y in below {
      ReachCases(E, x, z);
      ReachEdge(E, x, z, y);
    }
    if below == {} {
    } else {
      assert below < S;
      x := SinkExists(E, below);
    }
  }

  // ----- Distances -----

  ghost function Successors<V(!new)>(E: set<(V, V)>, S: set<V>): set<V> {
    set e | e in E && e.0 in S :: e.1
  }

  /** The nodes at distance at most k from src; none when k is negative. */
  ghost function Ball<V(!new)>(E: set<(V, V)>, src: V, k: int): set<V>
    decreases k
  {
    if k < 0 then {}
    else if k == 0 then {src}
    else Ball(E, src, k - 1) + Successors(E, Ball(E, src, k - 1))
  }

  lemma {:induction false} BallMono<V(!new)>(E: set<(V, V)>, src: V, j: int, k: int)
    requires j <= k
    ensures Ball(E, src, j) <= Ball(E, src, k)
    decreases k - j
  {
    if j < k {
      BallMono(E, src, j, k - 1);
    }
  }

  /** The ball of radius k holds exactly the ends of walks of at most k edges. */
  lemma {:induction false} BallIsWalks<V(!new)>(E: set<(V, V)>, src: V, k: int, v: V)
    ensures v in Ball(E, src, k) <==> exists w :: Walk(E, src, w, v) && |w| - 1 <= k
    decreases k
  {
    if k == 0 {
      assert Walk(E, src, [src], src);
    } else if k > 0 {
      if v in Ball(E, src, k) {
        BallIsWalks(E, src, k - 1, v);
        if v !in Ball(E, src, k - 1) {
          var e :| e in E && e.0 in Ball(E, src, k - 1) && e.1 == v;
          BallIsWalks(E, src, k - 1, e.0);
          var w :| Walk(E, src, w, e.0) && |w| - 1 <= k - 1;
          assert Walk(E, e.0, [e.0, v], v);
          WalkConcat(E, src, w, e.0, [e.0, v], v);
        }
      }
      forall w | Walk(E, src, w, v) && |w| - 1 <= k ensures v in Ball(E, src, k) {
        if |w| == 1 {
          BallMono(E, src, 0, k);
        } else {
          var t := w[..|w| - 1];
          forall i | 0 <= i < |t| - 1 ensures (t[i], t[i + 1]) in E {
            assert t[i] == w[i] && t[i + 1] == w[i + 1];
          }
          assert Walk(E, src, t, w[|w| - 2]);
          BallIsWalks(E, src, k - 1, w[|w| - 2]);
          assert (w[|w| - 2], w[|w| - 2 + 1]) in E;
        }
      }
    }
  }

  // ----- Simple paths -----

  /** Cutting a loop out of a walk leaves a walk with the same ends. */
  lemma CutLoop<V(!new)>(E: set<(V, V)>, w: seq<V>, i: nat, j: nat)
    requires IsWalk(E, w) && i < j < |w| && w[i] == w[j]
    ensures Walk(E, w[0], w[..i] + w[j..], w[|w| - 1])
  {
    var t := w[..i] + w[j..];
    forall k | 0 <= k < |t| - 1 ensures (t[k], t[k + 1]) in E {
      if k < i - 1 {
        assert t[k] == w[k] && t[k + 1] == w[k + 1];
      } else if k == i - 1 {
        assert t[k] == w[k] && t[k + 1] == w[j] == w[k + 1];
      } else {
        assert t[k] == w[k - i + j] && t[k + 1] == w[k - i + j + 1];
      }
    }
    if i == 0 { assert t[0] == w[j]; }
  }

  /** Every walk can be shortened to a simple one with the same ends. */
  lemma {:induction false} Shortcut<V(!new)>(E: set<(V, V)>, u: V, w: seq<V>, v: V) returns (p: seq<V>)
    requires Walk(E, u, w, v)
    ensures Walk(E, u, p, v) && NoDup(p) && |p| <= |w|
    decreases |w|
  {
    if NoDup(w) {
      p := w;
    } else {
      var i, j :| 0 <= i < j < |w| && w[i] == w[j];
      CutLoop(E, w, i, j);
      p := Shortcut(E, u, w[..i] + w[j..], v);
    }
  }
}
