/** The values intervene computes: every near edge delivers its effect once, applied to what
    its origin forwarded, and a node forwards the first effect that reached it. */
module InterventionValues {
  import opened Reals
  import opened Sequences
  import opened Digraph
  import opened Sums
  import opened CausalEdges
  import opened CausalPaths
  import opened Intervention
  import opened InterventionReach

  /** What an edge delivers when each variable forwards the given effect. */
  ghost function Carried(edges: Edges, sent: map<Variable, real>, e: Pair): real {
    if e in edges then EdgeEffect(edges[e], Get(sent, e.0)) else 0.0
  }

  ghost function Into(done: set<Pair>, v: Variable): set<Pair> {
    set e | e in done && e.1 == v
  }

  ghost function Delivered(edges: Edges, sent: map<Variable, real>, done: set<Pair>): real {
    Sum(done, e => Carried(edges, sent, e))
  }

  ghost function Traffic(edges: Edges, sent: map<Variable, real>, done: set<Pair>): real {
    Sum(done, e => Abs(Carried(edges, sent, e)))
  }

  // ----- The order of arrival -----

  function PairOf(e: Edge): Pair {
    (e.cause, e.effect)
  }

  /** e stands before f in a row. */
  ghost predicate RowBefore(row: seq<Edge>, e: Pair, f: Pair) {
    exists a, b :: 0 <= a < b < |row| && PairOf(row[a]) == e && PairOf(row[b]) == f
  }

  /** e is queued before f: its origin was expanded earlier, or it stands earlier in the row. */
  ghost predicate Before(adj: Adjacency, rank: map<Variable, nat>, e: Pair, f: Pair) {
    && e.0 in rank && f.0 in rank
    && (rank[e.0] < rank[f.0] || (e.0 == f.0 && RowBefore(Row(adj, e.0), e, f)))
  }

  /** How the variables were reached: the edge of the first arrival at each, the position of
      each in the order of first arrivals, and the effect that each forwarded. */
  datatype Trail = Trail(first: map<Variable, Pair>, rank: map<Variable, nat>, sent: map<Variable, real>)

  /** No shorter way leads to v than through its first edge. */
  ghost predicate Shortest(E: set<Pair>, src: Variable, first: map<Variable, Pair>) {
    forall v, k: int :: v in first && v in Ball(E, src, k) ==> first[v].0 in Ball(E, src, k - 1)
  }

  /** Ranks number the visited variables from the source on. */
  ghost predicate Ranks(src: Variable, visited: set<Variable>, rank: map<Variable, nat>) {
    && rank.Keys == visited && src in visited && rank[src] == 0
    && (forall v :: v in visited ==> rank[v] < |visited|)
    && (forall u, v :: u in visited && v in visited && rank[u] == rank[v] ==> u == v)
  }

  /** The first edge of each variable comes before all other edges into it. */
  ghost predicate Earliest(adj: Adjacency, seen: set<Pair>, first: map<Variable, Pair>, rank: map<Variable, nat>) {
    forall v, e :: v in first && e in seen && e.1 == v && e != first[v] ==> Before(adj, rank, first[v], e)
  }

  /** Variables arrive in the order of their first edges. */
  ghost predicate InTurn(adj: Adjacency, first: map<Variable, Pair>, rank: map<Variable, nat>) {
    forall u, v :: u in first && v in first && u in rank && v in rank && rank[u] < rank[v] ==>
      Before(adj, rank, first[u], first[v])
  }

  ghost predicate Arrivals(adj: Adjacency, src: Variable, visited: set<Variable>, seen: set<Pair>, trail: Trail) {
    && Ranks(src, visited, trail.rank) && trail.first.Keys == visited - {src}
    && (forall v :: v in trail.first ==>
          && trail.first[v] in seen && trail.first[v].0 in visited && trail.first[v].1 == v
          && trail.rank[trail.first[v].0] < trail.rank[v])
    && Earliest(adj, seen, trail.first, trail.rank) && InTurn(adj, trail.first, trail.rank)
  }

  /** Every variable but the source forwards what its first edge delivered. */
  ghost predicate Forwards(edges: Edges, src: Variable, delta: real, trail: Trail) {
    && src in trail.sent && trail.sent[src] == delta && trail.sent.Keys == trail.first.Keys + {src}
    && forall v :: v in trail.first ==> trail.sent[v] == Carried(edges, trail.sent, trail.first[v])
  }

  ghost predicate Tallied(edges: Edges, s: Spread, done: set<Pair>, sent: map<Variable, real>) {
    && (forall v :: Get(s.affected, v) == Delivered(edges, sent, Into(done, v)))
    && s.total == Traffic(edges, sent, done)
  }

  /** Each queued wave carries what its edge delivers, and the queue is in order. */
  ghost predicate Queued(adj: Adjacency, edges: Edges, s: Spread, via: seq<Pair>, done: set<Pair>, trail: Trail) {
    && |via| == |s.queue|
    && (forall i :: 0 <= i < |via| ==> s.queue[i].effect == Carried(edges, trail.sent, via[i]))
    && (forall i, j :: 0 <= i < j < |via| ==> Before(adj, trail.rank, via[i], via[j]))
    && (forall e, i :: e in done && 0 <= i < |via| ==> Before(adj, trail.rank, e, via[i]))
    && (forall v :: v in trail.first ==> trail.first[v] in done)
  }

  // ----- What a fan carries -----

  lemma {:induction false} FanCarries(edges: Edges, row: seq<Edge>, x: real, depth: int, visited: set<Variable>,
                                      maxDepth: int)
    requires forall e :: e in row ==> Held(edges, e)
    ensures var fan, via := Fan(row, x, depth, visited, maxDepth), FanEdges(row, depth, visited, maxDepth);
      |via| == |fan| && forall i :: 0 <= i < |via| ==> via[i] in edges && fan[i].effect == EdgeEffect(edges[via[i]], x)
  {
    hide EdgeEffect;
    if row == [] {
    } else {
      assert row[|row| - 1] in row;
      FanCarries(edges, row[..|row| - 1], x, depth, visited, maxDepth);
    }
  }

  ghost predicate InRow(row: seq<Edge>, e: Pair) {
    exists a :: 0 <= a < |row| && PairOf(row[a]) == e
  }

  lemma RowGrows(rest: seq<Edge>, e: Edge)
    ensures var row := rest + [e];
      && InRow(row, PairOf(e))
      && (forall p :: InRow(rest, p) ==> InRow(row, p) && RowBefore(row, p, PairOf(e)))
      && (forall p, q :: RowBefore(rest, p, q) ==> RowBefore(row, p, q))
  {
    var row := rest + [e];
    assert row[|rest|] == e;
    forall p | InRow(rest, p) ensures InRow(row, p) && RowBefore(row, p, PairOf(e)) {
      var a :| 0 <= a < |rest| && PairOf(rest[a]) == p;
      assert PairOf(row[a]) == p;
    }
    forall p, q | RowBefore(rest, p, q) ensures RowBefore(row, p, q) {
      var a, b :| 0 <= a < b < |rest| && PairOf(rest[a]) == p && PairOf(rest[b]) == q;
      assert PairOf(row[a]) == p && PairOf(row[b]) == q;
    }
  }

  /** via lists edges of the row in the order of the row. */
  ghost predicate InRowOrder(row: seq<Edge>, via: seq<Pair>) {
    && (forall i :: 0 <= i < |via| ==> InRow(row, via[i]))
    && (forall i, j :: 0 <= i < j < |via| ==> RowBefore(row, via[i], via[j]))
  }

  lemma OrderGrows(rest: seq<Edge>, e: Edge, before: seq<Pair>, via: seq<Pair>)
    requires InRowOrder(rest, before) && (via == before || via == before + [PairOf(e)])
    ensures InRowOrder(rest + [e], via)
  {
    RowGrows(rest, e);
    hide InRow, RowBefore;
  }

  lemma {:induction false} FanInOrder(row: seq<Edge>, depth: int, visited: set<Variable>, maxDepth: int)
    ensures InRowOrder(row, FanEdges(row, depth, visited, maxDepth))
  {
    if row == [] {
    } else {
      var rest, e := row[..|row| - 1], row[|row| - 1];
      FanInOrder(rest, depth, visited, maxDepth);
      hide InRowOrder;
      assert rest + [e] == row;
      OrderGrows(rest, e, FanEdges(rest, depth, visited, maxDepth), FanEdges(row, depth, visited, maxDepth));
    }
  }

  // ----- Tallies -----

  lemma TallyOne(edges: Edges, s: Spread, t: Spread, done: set<Pair>, e: Pair, sent: map<Variable, real>)
    requires Tallied(edges, s, done, sent) && e !in done
    requires t.affected == s.affected[e.1 := Get(s.affected, e.1) + Carried(edges, sent, e)]
    requires t.total == s.total + Abs(Carried(edges, sent, e))
    ensures Tallied(edges, t, done + {e}, sent)
  {
    hide Carried;
    var f, g := (d: Pair) => Carried(edges, sent, d), (d: Pair) => Abs(Carried(edges, sent, d));
    assert done + {e} - {e} == done;
    SumPick(done + {e}, g, e);
    forall v ensures Get(t.affected, v) == Delivered(edges, sent, Into(done + {e}, v)) {
      if v == e.1 {
        assert Into(done + {e}, v) - {e} == Into(done, v);
        SumPick(Into(done + {e}, v), f, e);
      } else {
        assert Into(done + {e}, v) == Into(done, v);
      }
    }
  }

  /** What a newly reached variable forwards does not bear on the edges used before. */
  lemma TallySent(edges: Edges, s: Spread, done: set<Pair>, sent: map<Variable, real>, more: map<Variable, real>)
    requires Tallied(edges, s, done, sent)
    requires forall e :: e in done ==> Carried(edges, more, e) == Carried(edges, sent, e)
    ensures Tallied(edges, s, done, more)
  {
    hide Carried;
    var f, g := (d: Pair) => Carried(edges, sent, d), (d: Pair) => Carried(edges, more, d);
    SumSame(done, d => Abs(Carried(edges, sent, d)), d => Abs(Carried(edges, more, d)));
    forall v ensures Delivered(edges, more, Into(done, v)) == Delivered(edges, sent, Into(done, v)) {
      SumSame(Into(done, v), f, g);
    }
  }

  // ----- One iteration -----

  ghost predicate Wired(s: Spread, via: seq<Pair>, done: set<Pair>) {
    && |via| == |s.queue| && NoDup(via)
    && (forall i :: 0 <= i < |via| ==> via[i].0 in s.visited && via[i].1 == s.queue[i].node)
    && (forall e :: e in done ==> e.0 in s.visited && e.1 in s.visited && e !in via)
  }

  lemma SpreadingIsWired(E: set<Pair>, src: Variable, maxDepth: int, s: Spread, via: seq<Pair>, done: set<Pair>,
                         level: int, now: nat)
    requires Spreading(E, src, maxDepth, s, via, done, level, now)
    ensures Wired(s, via, done)
  {
    hide Ball, Near, Visited;
  }

  /** What an iteration makes of the trail: a new variable records its first edge, the next
      rank, and the effect that arrived. */
  ghost function NextTrail(maxDepth: int, s: Spread, via: seq<Pair>, trail: Trail): Trail
    requires s.queue != [] && via != []
  {
    var w := s.queue[0];
    if w.depth <= maxDepth && w.node !in s.visited
    then Trail(trail.first[w.node := via[0]], trail.rank[w.node := |s.visited|], trail.sent[w.node := w.effect])
    else trail
  }

  lemma TallySame(edges: Edges, s: Spread, t: Spread, done: set<Pair>, sent: map<Variable, real>)
    requires Tallied(edges, s, done, sent) && t.affected == s.affected && t.total == s.total
    ensures Tallied(edges, t, done, sent)
  {
  }

  lemma TallyStep(adj: Adjacency, edges: Edges, maxDepth: int, s: Spread, via: seq<Pair>, done: set<Pair>, trail: Trail)
    requires s.queue != [] && Inside(adj, s.queue) && Wired(s, via, done) && trail.sent.Keys == s.visited
    requires Queued(adj, edges, s, via, done, trail) && Tallied(edges, s, done, trail.sent)
    ensures Tallied(edges, Step(adj, maxDepth, s), NextDone(maxDepth, s, via, done),
                    NextTrail(maxDepth, s, via, trail).sent)
  {
    hide NoDup, Fan, EdgeEffect, Before, Tallied;
    var w, t, next := s.queue[0], Step(adj, maxDepth, s), NextTrail(maxDepth, s, via, trail);
    assert via[0] in via && via[0] !in done && via[0].1 == w.node && via[0].0 in s.visited;
    assert w.effect == Carried(edges, trail.sent, via[0]);
    assert forall e :: e in done ==> e.0 in s.visited;
    hide Queued, Wired;
    if w.depth <= maxDepth {
      TallyOne(edges, s, t, done, via[0], trail.sent);
      forall e | e in done + {via[0]} ensures Carried(edges, next.sent, e) == Carried(edges, trail.sent, e) {
        assert e.0 in s.visited;
      }
      TallySent(edges, t, done + {via[0]}, trail.sent, next.sent);
    } else {
      TallySame(edges, s, t, done, trail.sent);
    }
  }

  lemma QueueTail(adj: Adjacency, edges: Edges, s: Spread, t: Spread, via: seq<Pair>, done: set<Pair>, more: set<Pair>,
                  trail: Trail)
    requires Queued(adj, edges, s, via, done, trail) && via != []
    requires t.queue == s.queue[1..] && done <= more <= done + {via[0]}
    ensures Queued(adj, edges, t, via[1..], more, trail)
  {
    hide Before, Carried;
  }

  /** The waves of a newly reached variable are queued behind all others. */
  lemma QueueExpand(adj: Adjacency, edges: Edges, s: Spread, t: Spread, rest: seq<Pair>, done: set<Pair>, trail: Trail,
                    next: Trail, w: Variable, n: nat, fan: seq<Pair>, waves: seq<Wave>)
    requires Queued(adj, edges, s, rest, done, trail) && t.queue == s.queue + waves
    requires w !in trail.rank && trail.sent.Keys == trail.rank.Keys && forall v :: v in trail.rank ==> trail.rank[v] < n
    requires next.rank == trail.rank[w := n] && w in next.sent && next.sent == trail.sent[w := next.sent[w]]
    requires forall v :: v in next.first ==> next.first[v] in done
    requires (forall e :: e in done ==> e.0 in trail.rank) && (forall e :: e in rest ==> e.0 in trail.rank)
    requires |fan| == |waves| && InRowOrder(Row(adj, w), fan) && forall i :: 0 <= i < |fan| ==> fan[i].0 == w
    requires forall i :: 0 <= i < |fan| ==> waves[i].effect == Carried(edges, next.sent, fan[i])
    ensures Queued(adj, edges, t, rest + fan, done, next)
  {
    hide RowBefore, EdgeEffect, InRow;
    var all := rest + fan;
    forall i | 0 <= i < |all| ensures t.queue[i].effect == Carried(edges, next.sent, all[i]) {
      if i < |rest| {
        assert rest[i] in rest && s.queue[i].effect == Carried(edges, trail.sent, rest[i]);
      }
    }
    forall i, j | 0 <= i < j < |all| ensures Before(adj, next.rank, all[i], all[j]) {
      if j < |rest| {
        assert rest[i] in rest && rest[j] in rest && Before(adj, trail.rank, rest[i], rest[j]);
      } else if i < |rest| {
        assert rest[i] in rest;
      } else {
        assert RowBefore(Row(adj, w), fan[i - |rest|], fan[j - |rest|]);
      }
    }
    forall e, i | e in done && 0 <= i < |all| ensures Before(adj, next.rank, e, all[i]) {
      if i < |rest| {
        assert rest[i] in rest && Before(adj, trail.rank, e, rest[i]);
      }
    }
  }

  lemma ArrivalsShrink(adj: Adjacency, src: Variable, visited: set<Variable>, seen: set<Pair>, less: set<Pair>,
                       trail: Trail)
    requires Arrivals(adj, src, visited, seen, trail) && less <= seen
    requires forall v :: v in trail.first ==> trail.first[v] in less
    ensures Arrivals(adj, src, visited, less, trail)
  {
    hide Before;
  }

  lemma RanksBounded(src: Variable, visited: set<Variable>, rank: map<Variable, nat>)
    requires Ranks(src, visited, rank)
    ensures src in visited && rank.Keys == visited && forall v :: v in visited ==> rank[v] < |visited|
  {
  }

  lemma RanksGrow(src: Variable, visited: set<Variable>, rank: map<Variable, nat>, w: Variable)
    requires Ranks(src, visited, rank) && w !in visited
    ensures Ranks(src, visited + {w}, rank[w := |visited|])
  {
    assert |visited + {w}| == |visited| + 1;
  }

  lemma BeforeKeeps(adj: Adjacency, rank: map<Variable, nat>, w: Variable, n: nat, e: Pair, f: Pair)
    requires Before(adj, rank, e, f) && w !in rank
    ensures Before(adj, rank[w := n], e, f)
  {
    hide RowBefore;
  }

  lemma EarliestGrows(adj: Adjacency, visited: set<Variable>, seen: set<Pair>, more: set<Pair>,
                      first: map<Variable, Pair>, rank: map<Variable, nat>, w: Variable, arrival: Pair)
    requires Earliest(adj, seen, first, rank) && w !in visited && rank.Keys == visited
    requires arrival.0 in visited && forall v :: v in visited ==> rank[v] < |visited|
    requires forall v :: v in first ==> first[v].0 in visited
    requires forall e :: e in more ==> e.0 == w || (e.0 in visited && e in seen)
    requires forall e :: e in more && e.0 in visited && e.1 == w && e != arrival ==> Before(adj, rank, arrival, e)
    ensures Earliest(adj, more, first[w := arrival], rank[w := |visited|])
  {
    var f, r := first[w := arrival], rank[w := |visited|];
    forall v, e | v in f && e in more && e.1 == v && e != f[v] ensures Before(adj, r, f[v], e) {
      if e.0 == w {
        assert r[f[v].0] < r[w];
      } else {
        assert Before(adj, rank, f[v], e);
        BeforeKeeps(adj, rank, w, |visited|, f[v], e);
      }
    }
  }

  lemma InTurnGrows(adj: Adjacency, visited: set<Variable>, first: map<Variable, Pair>, rank: map<Variable, nat>,
                    w: Variable, arrival: Pair)
    requires InTurn(adj, first, rank) && w !in visited && rank.Keys == visited && first.Keys <= visited
    requires forall v :: v in visited ==> rank[v] < |visited|
    requires forall v :: v in first ==> Before(adj, rank, first[v], arrival)
    ensures InTurn(adj, first[w := arrival], rank[w := |visited|])
  {
    var f, r := first[w := arrival], rank[w := |visited|];
    hide Before;
    forall u, v | u in f && v in f && r[u] < r[v] ensures Before(adj, r, f[u], f[v]) {
      BeforeKeeps(adj, rank, w, |visited|, f[u], f[v]);
    }
  }

  lemma ArrivalsGrow(adj: Adjacency, src: Variable, visited: set<Variable>, seen: set<Pair>, more: set<Pair>,
                     trail: Trail, next: Trail, w: Variable, arrival: Pair)
    requires Arrivals(adj, src, visited, seen, trail) && w !in visited
    requires next.first == trail.first[w := arrival] && next.rank == trail.rank[w := |visited|]
    requires arrival in more && arrival.0 in visited && arrival.1 == w
    requires forall v :: v in trail.first ==>
      trail.first[v] in more && Before(adj, trail.rank, trail.first[v], arrival)
    requires forall e :: e in more ==> e.0 == w || (e.0 in visited && e in seen)
    requires forall e :: e in more && e.0 in visited && e.1 == w && e != arrival ==> Before(adj, trail.rank, arrival, e)
    ensures Arrivals(adj, src, visited + {w}, more, next)
  {
    hide Ranks, Earliest, InTurn, Before;
    RanksBounded(src, visited, trail.rank);
    RanksGrow(src, visited, trail.rank, w);
    EarliestGrows(adj, visited, seen, more, trail.first, trail.rank, w, arrival);
    InTurnGrows(adj, visited, trail.first, trail.rank, w, arrival);
  }

  lemma ForwardsGrow(edges: Edges, src: Variable, delta: real, trail: Trail, next: Trail, w: Variable, arrival: Pair)
    requires Forwards(edges, src, delta, trail) && w !in trail.sent && arrival.0 in trail.sent
    requires forall v :: v in trail.first ==> trail.first[v].0 in trail.sent
    requires next.first == trail.first[w := arrival]
    requires next.sent == trail.sent[w := Carried(edges, trail.sent, arrival)]
    ensures Forwards(edges, src, delta, next)
  {
    hide EdgeEffect;
  }

  lemma ShortestGrows(E: set<Pair>, src: Variable, first: map<Variable, Pair>, w: Variable, arrival: Pair, level: int)
    requires Shortest(E, src, first) && arrival.0 in Ball(E, src, level - 1) && w !in Ball(E, src, level - 1)
    ensures Shortest(E, src, first[w := arrival])
  {
    hide Ball;
    forall k: int | w in Ball(E, src, k) ensures arrival.0 in Ball(E, src, k - 1) {
      if k < level {
        BallMono(E, src, k, level - 1);
      } else {
        BallMono(E, src, level - 1, k - 1);
      }
    }
  }

  // ----- The whole propagation -----

  ghost predicate Tracked(adj: Adjacency, edges: Edges, src: Variable, delta: real, s: Spread, via: seq<Pair>,
                          done: set<Pair>, trail: Trail)
  {
    && Arrivals(adj, src, s.visited, done + Elements(via), trail)
    && Forwards(edges, src, delta, trail) && Shortest(edges.Keys, src, trail.first)
    && Tallied(edges, s, done, trail.sent) && Queued(adj, edges, s, via, done, trail)
  }

  lemma TrailKeys(adj: Adjacency, edges: Edges, src: Variable, delta: real, visited: set<Variable>,
                  seen: set<Pair>, trail: Trail)
    requires Arrivals(adj, src, visited, seen, trail) && Forwards(edges, src, delta, trail)
    ensures trail.rank.Keys == trail.sent.Keys == visited && trail.first.Keys == visited - {src} && src in visited
    ensures forall v :: v in visited ==> trail.rank[v] < |visited|
    ensures forall v :: v in trail.first ==> trail.first[v].0 in visited
  {
    hide Earliest, InTurn, Carried;
  }

  /** An iteration that reaches no new variable. */
  lemma TrackedKeep(adj: Adjacency, edges: Edges, src: Variable, delta: real, s: Spread, t: Spread, via: seq<Pair>,
                    done: set<Pair>, more: set<Pair>, trail: Trail)
    requires Tracked(adj, edges, src, delta, s, via, done, trail) && via != []
    requires t.queue == s.queue[1..] && t.visited == s.visited && done <= more <= done + {via[0]}
    requires Tallied(edges, t, more, trail.sent)
    ensures Tracked(adj, edges, src, delta, t, via[1..], more, trail)
  {
    QueueTail(adj, edges, s, t, via, done, more, trail);
    assert forall v :: v in trail.first ==> trail.first[v] in more;
    hide Queued, Arrivals, Tallied, Forwards, Shortest;
    assert forall e :: e in via[1..] ==> e in via;
    ArrivalsShrink(adj, src, s.visited, done + Elements(via), more + Elements(via[1..]), trail);
  }

  lemma FanDelivers(edges: Edges, sent: map<Variable, real>, w: Wave, fan: seq<Pair>, waves: seq<Wave>)
    requires |fan| == |waves| && w.node in sent && sent[w.node] == w.effect
    requires forall i :: 0 <= i < |fan| ==>
      fan[i].0 == w.node && fan[i] in edges && waves[i].effect == EdgeEffect(edges[fan[i]], w.effect)
    ensures forall i :: 0 <= i < |fan| ==> waves[i].effect == Carried(edges, sent, fan[i])
  {
    hide EdgeEffect;
  }

  lemma WiredEnds(s: Spread, via: seq<Pair>, done: set<Pair>)
    requires Wired(s, via, done) && via != []
    ensures forall e :: e in via ==> e.0 in s.visited
    ensures forall e :: e in done ==> e.0 in s.visited && e.1 in s.visited
    ensures forall e :: e in via <==> e == via[0] || e in via[1..]
  {
    assert via == [via[0]] + via[1..];
  }

  /** The head edge comes after every first edge and before all other queued edges. */
  lemma HeadArrives(adj: Adjacency, edges: Edges, s: Spread, via: seq<Pair>, done: set<Pair>, trail: Trail)
    requires Queued(adj, edges, s, via, done, trail) && Wired(s, via, done) && via != []
    ensures via[0].0 in s.visited && via[0].1 == s.queue[0].node
    ensures s.queue[0].effect == Carried(edges, trail.sent, via[0])
    ensures forall v :: v in trail.first ==> trail.first[v] in done && Before(adj, trail.rank, trail.first[v], via[0])
    ensures forall e :: e in via && e != via[0] ==> Before(adj, trail.rank, via[0], e)
  {
    hide Before, Carried;
  }

  /** An iteration that reaches w for the first time, along the edge at the head. */
  lemma TrackedExpand(adj: Adjacency, edges: Edges, src: Variable, delta: real, s: Spread, t: Spread, via: seq<Pair>,
                      done: set<Pair>, trail: Trail, next: Trail, fan: seq<Pair>, waves: seq<Wave>, level: int)
    requires Tracked(adj, edges, src, delta, s, via, done, trail) && Wired(s, via, done) && via != [] && s.queue != []
    requires var w := s.queue[0];
      && w.node !in s.visited && t.visited == s.visited + {w.node} && t.queue == s.queue[1..] + waves
      && next == Trail(trail.first[w.node := via[0]], trail.rank[w.node := |s.visited|], trail.sent[w.node := w.effect])
      && InRowOrder(Row(adj, w.node), fan) && |fan| == |waves| && w.node !in Ball(edges.Keys, src, level - 1)
      && forall i :: 0 <= i < |fan| ==>
           fan[i].0 == w.node && fan[i] in edges && waves[i].effect == EdgeEffect(edges[fan[i]], w.effect)
    requires via[0].0 in Ball(edges.Keys, src, level - 1)
    requires Tallied(edges, t, done + {via[0]}, next.sent)
    ensures Tracked(adj, edges, src, delta, t, via[1..] + fan, done + {via[0]}, next)
  {
    hide Arrivals, Forwards, Tallied, Queued, Wired, Shortest, InRowOrder, NoDup, Before, Ball, Carried;
    var w, rest, more := s.queue[0], via[1..], done + {via[0]};
    var mid := t.(queue := s.queue[1..]);
    TrailKeys(adj, edges, src, delta, s.visited, done + Elements(via), trail);
    QueueTail(adj, edges, s, mid, via, done, more, trail);
    HeadArrives(adj, edges, s, via, done, trail);
    WiredEnds(s, via, done);
    ShortestGrows(edges.Keys, src, trail.first, w.node, via[0], level);
    ForwardsGrow(edges, src, delta, trail, next, w.node, via[0]);
    FanDelivers(edges, next.sent, w, fan, waves);
    QueueExpand(adj, edges, mid, t, rest, more, trail, next, w.node, |s.visited|, fan, waves);
    ArrivalsGrow(adj, src, s.visited, done + Elements(via), more + Elements(rest + fan), trail, next, w.node, via[0]);
  }

  lemma FanOf(adj: Adjacency, edges: Edges, w: Wave, visited: set<Variable>, maxDepth: int)
    requires Holds(adj, Forward, edges) && Consistent(edges)
    ensures var fan := FanEdges(Row(adj, w.node), w.depth + 1, visited, maxDepth);
      var waves := Fan(Row(adj, w.node), w.effect, w.depth + 1, visited, maxDepth);
      && |fan| == |waves| && InRowOrder(Row(adj, w.node), fan)
      && forall i :: 0 <= i < |fan| ==>
           fan[i].0 == w.node && fan[i] in edges && waves[i].effect == EdgeEffect(edges[fan[i]], w.effect)
  {
    var row := Row(adj, w.node);
    assert IsRow(edges, row, w.node, Forward);
    FanInOrder(row, w.depth + 1, visited, maxDepth);
    FanCarries(edges, row, w.effect, w.depth + 1, visited, maxDepth);
    FanLeaves(adj, edges, w.node, w.effect, w.depth + 1, visited, maxDepth);
    hide IsRow, InRowOrder, Fan, FanEdges, EdgeEffect, Holds;
    var fan := FanEdges(row, w.depth + 1, visited, maxDepth);
    forall i | 0 <= i < |fan| ensures fan[i].0 == w.node {
      assert fan[i] in fan;
    }
  }

  lemma TrackedStep(adj: Adjacency, edges: Edges, src: Variable, delta: real, maxDepth: int, s: Spread, via: seq<Pair>,
                    done: set<Pair>, level: int, now: nat, trail: Trail)
    requires Holds(adj, Forward, edges) && Consistent(edges) && s.queue != [] && Inside(adj, s.queue) && via != []
    requires Spreading(edges.Keys, src, maxDepth, s, via, done, level, now)
    requires Tracked(adj, edges, src, delta, s, via, done, trail)
    ensures Tracked(adj, edges, src, delta, Step(adj, maxDepth, s), NextVia(adj, maxDepth, s, via),
                    NextDone(maxDepth, s, via, done), NextTrail(maxDepth, s, via, trail))
  {
    hide Tallied, Queued, Arrivals, Forwards, Shortest, Holds, Waves, Counted, Visited, Ball, Wired, NoDup, EdgeEffect;
    var w, t := s.queue[0], Step(adj, maxDepth, s);
    SpreadingIsWired(edges.Keys, src, maxDepth, s, via, done, level, now);
    TrailKeys(adj, edges, src, delta, s.visited, done + Elements(via), trail);
    TallyStep(adj, edges, maxDepth, s, via, done, trail);
    if w.depth <= maxDepth && w.node !in s.visited {
      HeadWave(edges.Keys, src, s, via, level, now);
      NewNodeIsFar(edges.Keys, src, maxDepth, s, w.node, level);
      var fan := FanEdges(Row(adj, w.node), w.depth + 1, t.visited, maxDepth);
      var waves := Fan(Row(adj, w.node), w.effect, w.depth + 1, t.visited, maxDepth);
      FanOf(adj, edges, w, t.visited, maxDepth);
      TrackedExpand(adj, edges, src, delta, s, t, via, done, trail, NextTrail(maxDepth, s, via, trail), fan, waves,
                    level);
    } else {
      TrackedKeep(adj, edges, src, delta, s, t, via, done, NextDone(maxDepth, s, via, done), trail);
    }
  }

  lemma QueuedStart(adj: Adjacency, edges: Edges, s: Spread, via: seq<Pair>, src: Variable, trail: Trail)
    requires |via| == |s.queue| && trail.first == map[] && trail.rank == map[src := 0]
    requires InRowOrder(Row(adj, src), via) && forall i :: 0 <= i < |via| ==> via[i].0 == src
    requires forall i :: 0 <= i < |via| ==> s.queue[i].effect == Carried(edges, trail.sent, via[i])
    ensures Queued(adj, edges, s, via, {}, trail)
  {
    hide RowBefore, Carried, InRow;
    forall i, j | 0 <= i < j < |via| ensures Before(adj, trail.rank, via[i], via[j]) {
      assert RowBefore(Row(adj, src), via[i], via[j]);
    }
  }

  lemma ArrivalsStart(adj: Adjacency, src: Variable, seen: set<Pair>, trail: Trail)
    requires trail.first == map[] && trail.rank == map[src := 0]
    ensures Arrivals(adj, src, {src}, seen, trail)
  {
    assert |{src}| == 1;
  }

  lemma TalliedStart(edges: Edges, s: Spread, sent: map<Variable, real>)
    requires s.affected == map[] && s.total == 0.0
    ensures Tallied(edges, s, {}, sent)
  {
    forall v ensures Delivered(edges, sent, Into({}, v)) == 0.0 {
      assert Into({}, v) == {};
    }
  }

  lemma TrackedStart(adj: Adjacency, edges: Edges, src: Variable, delta: real)
    requires Holds(adj, Forward, edges) && Consistent(edges)
    ensures Tracked(adj, edges, src, delta, Start(adj, src, delta), FanEdges(Row(adj, src), 1, {}, 1), {},
                    Trail(map[], map[src := 0], map[src := delta]))
  {
    hide Fan, FanEdges, Holds, EdgeEffect, Queued, Arrivals, Tallied, InRowOrder, Carried;
    var s, via := Start(adj, src, delta), FanEdges(Row(adj, src), 1, {}, 1);
    var trail := Trail(map[], map[src := 0], map[src := delta]);
    FanOf(adj, edges, Wave(src, delta, 0), {}, 1);
    FanDelivers(edges, trail.sent, Wave(src, delta, 0), via, s.queue);
    QueuedStart(adj, edges, s, via, src, trail);
    ArrivalsStart(adj, src, {} + Elements(via), trail);
    TalliedStart(edges, s, trail.sent);
  }

  lemma {:induction false} TrackedRun(adj: Adjacency, edges: Edges, src: Variable, delta: real, maxDepth: int,
                                      s: Spread, via: seq<Pair>, done: set<Pair>, level: int, now: nat, trail: Trail)
    returns (done': set<Pair>, level': int, now': nat, trail': Trail)
    requires Holds(adj, Forward, edges) && Consistent(edges) && Inside(adj, s.queue)
    requires Spreading(edges.Keys, src, maxDepth, s, via, done, level, now)
    requires Tracked(adj, edges, src, delta, s, via, done, trail)
    ensures Spreading(edges.Keys, src, maxDepth, Run(adj, maxDepth, s), [], done', level', now')
    ensures Tracked(adj, edges, src, delta, Run(adj, maxDepth, s), [], done', trail')
    decreases Universe(adj) - s.visited, |s.queue|
  {
    hide Spreading, Tracked, Holds, NextVia, NextDone, NextTrail;
    SpreadingLength(edges.Keys, src, maxDepth, s, via, done, level, now);
    if s.queue == [] {
      assert via == [];
      done', level', now', trail' := done, level, now, trail;
    } else {
      var via1, done1, level1, now1 := SpreadStep(adj, edges, src, maxDepth, s, via, done, level, now);
      TrackedStep(adj, edges, src, delta, maxDepth, s, via, done, level, now, trail);
      done', level', now', trail' := TrackedRun(adj, edges, src, delta, maxDepth, Step(adj, maxDepth, s), via1, done1,
                                                level1, now1, NextTrail(maxDepth, s, via, trail));
    }
  }

  /** The trail of a propagation, and the values it leaves: each variable's is the sum over the
      near edges into it of what they deliver, and the total that of all absolute deliveries. */
  ghost predicate Delivers(adj: Adjacency, edges: Edges, src: Variable, delta: real, maxDepth: int, s: Spread,
                           trail: Trail) {
    var near := Near(edges.Keys, src, maxDepth);
    && Arrivals(adj, src, Ball(edges.Keys, src, maxDepth) + {src}, near, trail)
    && Shortest(edges.Keys, src, trail.first) && Forwards(edges, src, delta, trail)
    && (forall v :: Get(s.affected, v) == Delivered(edges, trail.sent, Into(near, v)))
    && s.total == Traffic(edges, trail.sent, near)
  }

  lemma TrackedEnd(adj: Adjacency, edges: Edges, src: Variable, delta: real, maxDepth: int, t: Spread, done: set<Pair>,
                   trail: Trail)
    requires Tracked(adj, edges, src, delta, t, [], done, trail) && done == Near(edges.Keys, src, maxDepth)
    requires t.visited == Ball(edges.Keys, src, maxDepth) + {src}
    ensures Delivers(adj, edges, src, delta, maxDepth, t, trail)
  {
    hide Ball, Near, Arrivals, Forwards, Shortest, Queued;
    assert done + Elements([]) == done;
  }

  /** Every near edge delivers exactly once: its effect applied to what its origin forwards,
      which is the change for the variable itself and otherwise what arrived first, along a
      shortest way, the earlier expanded origin and then the earlier edge of its row winning. */
  lemma InterveneDelivers(adj: Adjacency, edges: Edges, src: Variable, delta: real,
                          maxDepth: int) returns (trail: Trail)
    requires Holds(adj, Forward, edges) && Consistent(edges)
    ensures Delivers(adj, edges, src, delta, maxDepth, Intervene(adj, src, delta, maxDepth), trail)
  {
    var via, s := FanEdges(Row(adj, src), 1, {}, 1), Start(adj, src, delta);
    SpreadStart(adj, edges, src, delta, maxDepth);
    TrackedStart(adj, edges, src, delta);
    hide Spreading, Tracked, Holds, FanEdges, Start;
    var done, level, now;
    done, level, now, trail := TrackedRun(adj, edges, src, delta, maxDepth, s, via, {}, 1, |via|,
                                          Trail(map[], map[src := 0], map[src := delta]));
    var t := Intervene(adj, src, delta, maxDepth);
    SpreadEnd(edges.Keys, src, maxDepth, t, done, level, now);
    TrackedEnd(adj, edges, src, delta, maxDepth, t, done, trail);
  }

  // ----- Graphs built by adding edges -----

  lemma RowByFirstAdd(adds: seq<Edge>, owner: Variable, e: Pair, f: Pair)
    requires RowBefore(Row(WithEdges(map[], adds, Forward), owner), e, f)
    ensures FirstAdd(adds, owner, e.1, Forward) < FirstAdd(adds, owner, f.1, Forward)
  {
    var row := Row(WithEdges(map[], adds, Forward), owner);
    BuiltInOrder(adds, Forward, owner);
    hide FirstAdd, WithEdges, Row;
    var a, b :| 0 <= a < b < |row| && PairOf(row[a]) == e && PairOf(row[b]) == f;
    assert KeysOf(row, Forward)[a] == e.1 && KeysOf(row, Forward)[b] == f.1;
  }

  /** The order of arrival in terms of the edges added: a variable is first reached from the
      earliest expanded of its origins, and variables first reached from the same origin arrive
      in the order in which the edges to them were first added. */
  ghost predicate ByInsertion(adds: seq<Edge>, near: set<Pair>, trail: Trail) {
    && (forall v, e :: v in trail.first && e in near && e.1 == v && e != trail.first[v] ==>
          var f := trail.first[v]; f.0 in trail.rank && e.0 in trail.rank && trail.rank[f.0] < trail.rank[e.0])
    && (forall u, v :: u in trail.first && v in trail.first && u in trail.rank && v in trail.rank
                       && trail.rank[u] < trail.rank[v] ==>
          var e, f := trail.first[u], trail.first[v];
          && e.0 in trail.rank && f.0 in trail.rank
          && (trail.rank[e.0] < trail.rank[f.0]
              || (e.0 == f.0 && FirstAdd(adds, e.0, u, Forward) < FirstAdd(adds, e.0, v, Forward))))
  }

  lemma ArrivalsByInsertion(adds: seq<Edge>, src: Variable, visited: set<Variable>, near: set<Pair>, trail: Trail)
    requires Arrivals(WithEdges(map[], adds, Forward), src, visited, near, trail)
    ensures ByInsertion(adds, near, trail)
  {
    hide FirstAdd, WithEdges, Row, Ranks;
    var adj := WithEdges(map[], adds, Forward);
    forall owner, e, f | RowBefore(Row(adj, owner), e, f)
      ensures FirstAdd(adds, owner, e.1, Forward) < FirstAdd(adds, owner, f.1, Forward) {
      RowByFirstAdd(adds, owner, e, f);
    }
    hide RowBefore;
  }

  /** Intervening on a graph built by adding edges forwards, among equally short ways, by the
      order of insertion. */
  lemma InterveneByInsertion(adds: seq<Edge>, src: Variable, delta: real, maxDepth: int) returns (trail: Trail)
    ensures var adj, edges := WithEdges(map[], adds, Forward), Latest(map[], adds);
      && Delivers(adj, edges, src, delta, maxDepth, Intervene(adj, src, delta, maxDepth), trail)
      && ByInsertion(adds, Near(edges.Keys, src, maxDepth), trail)
  {
    var adj, edges := WithEdges(map[], adds, Forward), Latest(map[], adds);
    BuiltHolds(adds, Forward);
    hide Holds, Intervene, ByInsertion, Arrivals, Shortest, Forwards, Ball, Near;
    trail := InterveneDelivers(adj, edges, src, delta, maxDepth);
    ArrivalsByInsertion(adds, src, Ball(edges.Keys, src, maxDepth) + {src}, Near(edges.Keys, src, maxDepth), trail);
  }

  // ----- The effect along a way -----

  /** What a change becomes along a walk. */
  ghost function Along(edges: Edges, p: Path, delta: real): real
    requires IsWalk(edges.Keys, p)
    decreases |p|
  {
    if |p| == 1 then delta
    else
      PrefixIsWalk(edges.Keys, p);
      EdgeEffect(edges[(p[|p| - 2], p[|p| - 1])], Along(edges, p[..|p| - 1], delta))
  }

  lemma AlongExtend(edges: Edges, src: Variable, p: Path, v: Variable, delta: real)
    requires p != [] && Walk(edges.Keys, src, p, Last(p)) && (Last(p), v) in edges
    ensures Walk(edges.Keys, src, p + [v], v)
    ensures Along(edges, p + [v], delta) == EdgeEffect(edges[(Last(p), v)], Along(edges, p, delta))
  {
    ExtendWalk(edges, src, p, v);
    assert (p + [v])[..|p + [v]| - 1] == p;
  }

  lemma AlongNothing(edges: Edges, src: Variable, delta: real)
    ensures IsWalk(edges.Keys, [src]) && Along(edges, [src], delta) == delta
  {
  }

  /** A walk that no walk with the same ends is shorter than. */
  ghost predicate ShortestWalk(E: set<Pair>, src: Variable, p: Path, v: Variable) {
    Walk(E, src, p, v) && forall w :: Walk(E, src, w, v) ==> |p| <= |w|
  }

  lemma ShortestExtend(E: set<Pair>, src: Variable, p: Path, q: Path, v: Variable, first: map<Variable, Pair>)
    requires Shortest(E, src, first) && v in first && first[v].1 == v
    requires ShortestWalk(E, src, p, first[v].0) && q == p + [v] && Walk(E, src, q, v)
    ensures ShortestWalk(E, src, q, v)
  {
    forall w | Walk(E, src, w, v) ensures |q| <= |w| {
      BallIsWalks(E, src, |w| - 1, v);
      BallIsWalks(E, src, |w| - 2, first[v].0);
    }
  }

  /** On any graph, every variable forwards what the change becomes along a shortest walk. */
  lemma {:induction false} ForwardsAlong(adj: Adjacency, edges: Edges, src: Variable, delta: real, maxDepth: int,
                                         s: Spread, trail: Trail, v: Variable) returns (p: Path)
    requires Delivers(adj, edges, src, delta, maxDepth, s, trail) && v in trail.sent && v in trail.rank
    ensures ShortestWalk(edges.Keys, src, p, v) && trail.sent[v] == Along(edges, p, delta)
    decreases trail.rank[v]
  {
    hide Ball, Earliest, InTurn, EdgeEffect, Shortest, Along;
    if v == src {
      p := [src];
      assert Walk(edges.Keys, src, p, src) && Along(edges, p, delta) == delta by {
        AlongNothing(edges, src, delta);
      }
    } else {
      var e := trail.first[v];
      assert e in Near(edges.Keys, src, maxDepth) && e in edges;
      var q := ForwardsAlong(adj, edges, src, delta, maxDepth, s, trail, e.0);
      AlongExtend(edges, src, q, v, delta);
      p := q + [v];
      ShortestExtend(edges.Keys, src, q, p, v, trail.first);
    }
  }

  // ----- One way to each variable -----

  /** No variable other than the source has two near edges into it. */
  ghost predicate SingleWay(E: set<Pair>, src: Variable, maxDepth: int) {
    forall e, f :: e in Near(E, src, maxDepth) && f in Near(E, src, maxDepth) && e.1 == f.1 && e.1 != src ==> e == f
  }

  /** The only delivery is then the affected value, and what the variable forwards. */
  lemma SingleDelivery(adj: Adjacency, edges: Edges, src: Variable, delta: real, maxDepth: int, s: Spread,
                       trail: Trail, e: Pair)
    requires Delivers(adj, edges, src, delta, maxDepth, s, trail) && SingleWay(edges.Keys, src, maxDepth)
    requires e in Near(edges.Keys, src, maxDepth) && e.1 != src
    ensures Get(s.affected, e.1) == Carried(edges, trail.sent, e)
    ensures e.1 in trail.first ==> trail.sent[e.1] == Get(s.affected, e.1)
  {
    hide Ball, Carried, Ranks, Earliest, InTurn, Shortest;
    var near := Near(edges.Keys, src, maxDepth);
    assert Into(near, e.1) == {e};
    SumPick({e}, d => Carried(edges, trail.sent, d), e);
    assert {e} - {e} == {};
  }

  lemma PathLastEdge(E: set<Pair>, src: Variable, maxDepth: int, p: Path)
    requires p != [] && CausalPath(E, src, Last(p), maxDepth, p)
    ensures var n := |p| - 1;
      && (p[n - 1], p[n]) in Near(E, src, maxDepth) && Last(p) != src && IsWalk(E, p[..n])
      && (n > 1 ==> CausalPath(E, src, p[n - 1], maxDepth, p[..n]))
  {
    hide Ball;
    var n := |p| - 1;
    PrefixIsWalk(E, p);
    assert Walk(E, src, p[..n], p[n - 1]);
    BallIsWalks(E, src, maxDepth - 1, p[n - 1]);
  }

  lemma PathLength(E: set<Pair>, src: Variable, maxDepth: int, p: Path)
    requires p != [] && CausalPath(E, src, Last(p), maxDepth, p)
    ensures |p| >= 2 && p[0] == src && IsWalk(E, p) && (p[|p| - 2], p[|p| - 1]) in E
  {
    PrefixIsWalk(E, p);
  }

  lemma SourceSends(adj: Adjacency, edges: Edges, src: Variable, delta: real, maxDepth: int, s: Spread, trail: Trail)
    requires Delivers(adj, edges, src, delta, maxDepth, s, trail)
    ensures Get(trail.sent, src) == delta
  {
    hide Arrivals, Shortest;
  }

  lemma EndIsReached(adj: Adjacency, edges: Edges, src: Variable, delta: real, maxDepth: int, s: Spread,
                     trail: Trail, q: Path)
    requires Delivers(adj, edges, src, delta, maxDepth, s, trail)
    requires q != [] && CausalPath(edges.Keys, src, Last(q), maxDepth, q)
    ensures Last(q) in trail.first && Last(q) in trail.sent
  {
    PathLastEdge(edges.Keys, src, maxDepth, q);
    BallIsWalks(edges.Keys, src, maxDepth, Last(q));
    hide Ball, Ranks, Earliest, InTurn, Shortest, Carried;
    assert Walk(edges.Keys, src, q, Last(q));
  }

  lemma AlongLast(edges: Edges, sent: map<Variable, real>, p: Path, delta: real)
    requires |p| > 1 && IsWalk(edges.Keys, p) && IsWalk(edges.Keys, p[..|p| - 1])
    requires Get(sent, p[|p| - 2]) == Along(edges, p[..|p| - 1], delta)
    ensures Carried(edges, sent, (p[|p| - 2], p[|p| - 1])) == Along(edges, p, delta)
  {
    hide EdgeEffect;
    PrefixIsWalk(edges.Keys, p);
  }

  lemma {:induction false} SinglePathAlong(adj: Adjacency, edges: Edges, src: Variable, delta: real, maxDepth: int,
                                           s: Spread, p: Path, trail: Trail)
    requires SingleWay(edges.Keys, src, maxDepth) && Delivers(adj, edges, src, delta, maxDepth, s, trail)
    requires p != [] && CausalPath(edges.Keys, src, Last(p), maxDepth, p) && IsWalk(edges.Keys, p)
    ensures Get(s.affected, Last(p)) == Along(edges, p, delta)
    decreases |p|
  {
    hide Delivers, Carried, Near, CausalPath, IsWalk, SingleWay;
    var n := |p| - 1;
    PathLength(edges.Keys, src, maxDepth, p);
    PathLastEdge(edges.Keys, src, maxDepth, p);
    var q := p[..n];
    SingleDelivery(adj, edges, src, delta, maxDepth, s, trail, (p[n - 1], p[n]));
    if n == 1 {
      SourceSends(adj, edges, src, delta, maxDepth, s, trail);
    } else {
      PathLastEdge(edges.Keys, src, maxDepth, q);
      SinglePathAlong(adj, edges, src, delta, maxDepth, s, q, trail);
      SingleDelivery(adj, edges, src, delta, maxDepth, s, trail, (q[n - 2], q[n - 1]));
      EndIsReached(adj, edges, src, delta, maxDepth, s, trail, q);
    }
    AlongLast(edges, trail.sent, p, delta);
  }

  /** On any graph where no variable has two near edges into it, the value at the end of a path
      is what the change becomes along the path. */
  lemma SinglePathEffect(adj: Adjacency, edges: Edges, src: Variable, delta: real, maxDepth: int, p: Path)
    requires Holds(adj, Forward, edges) && Consistent(edges) && SingleWay(edges.Keys, src, maxDepth)
    requires p != [] && CausalPath(edges.Keys, src, Last(p), maxDepth, p)
    ensures Get(Intervene(adj, src, delta, maxDepth).affected, Last(p)) == Along(edges, p, delta)
  {
    assert IsWalk(edges.Keys, p);
    hide Delivers, Intervene, Along, Holds, CausalPath, SingleWay;
    var trail := InterveneDelivers(adj, edges, src, delta, maxDepth);
    SinglePathAlong(adj, edges, src, delta, maxDepth, Intervene(adj, src, delta, maxDepth), p, trail);
  }

  // ----- Gains -----

  /** The factor by which an edge that is not of type PREVENTS changes an effect. */
  function Gain(e: Edge): real {
    match e.edgeType
    case Enables => e.strength * 0.6
    case Modulates => e.strength * 0.8
    case _ => e.strength
  }

  /** The product of the gains along a walk. */
  ghost function Gains(edges: Edges, p: Path): real
    requires IsWalk(edges.Keys, p)
    decreases |p|
  {
    if |p| == 1 then 1.0
    else
      PrefixIsWalk(edges.Keys, p);
      Times(Gains(edges, p[..|p| - 1]), Gain(edges[(p[|p| - 2], p[|p| - 1])]))
  }

  ghost predicate NonePrevents(edges: Edges, p: Path)
    requires IsWalk(edges.Keys, p)
  {
    forall i :: 0 <= i < |p| - 1 ==> (p[i], p[i + 1]) in edges && !edges[(p[i], p[i + 1])].edgeType.Prevents?
  }

  lemma GainOfEffect(e: Edge, delta: real, k: real)
    requires !e.edgeType.Prevents?
    ensures EdgeEffect(e, Times(delta, k)) == Times(delta, Times(k, Gain(e)))
  {
    var r := e.strength;
    assert delta * k * r == delta * (k * r);
    assert delta * (k * r) * 0.6 == delta * (k * (r * 0.6));
    assert delta * (k * r) * 0.8 == delta * (k * (r * 0.8));
  }

  /** Along edges that are not of type PREVENTS a change is multiplied by the product of their
      gains, which is the cumulative strength when all are of type CAUSES. */
  lemma {:induction false} AlongIsGains(edges: Edges, p: Path, delta: real)
    requires IsWalk(edges.Keys, p) && NonePrevents(edges, p)
    ensures Along(edges, p, delta) == Times(delta, Gains(edges, p))
    ensures (forall i :: 0 <= i < |p| - 1 ==> (p[i], p[i + 1]) in edges && edges[(p[i], p[i + 1])].edgeType.Causes?)
      ==> Gains(edges, p) == Strength(edges, p)
    decreases |p|
  {
    hide EdgeEffect;
    if |p| == 1 {
    } else {
      PrefixIsWalk(edges.Keys, p);
      var q, e := p[..|p| - 1], (p[|p| - 2], p[|p| - 2 + 1]);
      forall i | 0 <= i < |q| - 1 ensures (q[i], q[i + 1]) in edges && (q[i], q[i + 1]) == (p[i], p[i + 1]) {
        assert q[i] == p[i] && q[i + 1] == p[i + 1];
      }
      AlongIsGains(edges, q, delta);
      GainOfEffect(edges[e], delta, Gains(edges, q));
    }
  }
}
