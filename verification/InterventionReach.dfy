/** What intervene reaches: each node is expanded once, at its distance from the
    intervened variable, and every edge leaving a near enough node is used once. */
module InterventionReach {
  import opened Sequences
  import opened Digraph
  import opened CausalEdges
  import opened Intervention

  type Pair = (Variable, Variable)

  /** The edges that the waves of a fan travel along. */
  ghost function FanEdges(row: seq<Edge>, depth: int, visited: set<Variable>, maxDepth: int): seq<Pair> {
    if row == [] then []
    else
      var e := row[|row| - 1];
      var before := FanEdges(row[..|row| - 1], depth, visited, maxDepth);
      if e.effect !in visited || depth <= maxDepth then before + [(e.cause, e.effect)] else before
  }

  ghost function Leaving(E: set<Pair>, v: Variable): set<Pair> {
    set e | e in E && e.0 == v
  }

  ghost predicate FanSpec(row: seq<Edge>, delta: real, depth: int, visited: set<Variable>, maxDepth: int,
                          fan: seq<Wave>, via: seq<Pair>) {
    && |via| == |fan| && NoDup(via)
    && (forall i :: 0 <= i < |via| ==> via[i].1 == fan[i].node && fan[i].depth == depth)
    && (forall p :: p in via ==> exists e :: e in row && p == (e.cause, e.effect))
    && (depth <= maxDepth ==> forall e :: e in row ==> (e.cause, e.effect) in via)
  }

  lemma {:induction false} FanEdgesSpec(row: seq<Edge>, delta: real, depth: int, visited: set<Variable>, maxDepth: int)
    requires DistinctKeys(row, Forward)
    ensures FanSpec(row, delta, depth, visited, maxDepth, Fan(row, delta, depth, visited, maxDepth),
                    FanEdges(row, depth, visited, maxDepth))
  {
    if row == [] {
    } else {
      var e, rest := row[|row| - 1], row[..|row| - 1];
      assert row == rest + [e];
      FanEdgesSpec(rest, delta, depth, visited, maxDepth);
      var before := FanEdges(rest, depth, visited, maxDepth);
      assert (e.cause, e.effect) !in before by {
        forall x | x in rest ensures x.effect != e.effect {
        }
      }
      if e.effect !in visited || depth <= maxDepth {
        NoDupAppend(before, (e.cause, e.effect));
      }
    }
  }

  lemma FanLeaves(adj: Adjacency, edges: Edges, v: Variable, delta: real, depth: int, visited: set<Variable>,
                  maxDepth: int)
    requires Holds(adj, Forward, edges) && Consistent(edges)
    ensures var fan := Fan(Row(adj, v), delta, depth, visited, maxDepth);
      var via := FanEdges(Row(adj, v), depth, visited, maxDepth);
      && |via| == |fan| && NoDup(via)
      && (forall i :: 0 <= i < |via| ==> via[i].1 == fan[i].node && fan[i].depth == depth)
      && (forall p :: p in via ==> p in Leaving(edges.Keys, v))
      && (depth <= maxDepth ==> forall p :: p in Leaving(edges.Keys, v) ==> p in via)
  {
    var row := Row(adj, v);
    assert IsRow(edges, row, v, Forward);
    FanEdgesSpec(row, delta, depth, visited, maxDepth);
    var via := FanEdges(row, depth, visited, maxDepth);
    forall p | p in via ensures p in Leaving(edges.Keys, v) {
      var e :| e in row && p == (e.cause, e.effect);
      assert Held(edges, e);
    }
    if depth <= maxDepth {
      forall p | p in Leaving(edges.Keys, v) ensures p in via {
        assert Held(edges, edges[p]) && edges[p] in row;
      }
    }
  }

  // ----- The invariant of the propagation -----

  ghost function Near(E: set<Pair>, src: Variable, maxDepth: int): set<Pair> {
    set e | e in E && e.0 in Ball(E, src, maxDepth - 1)
  }

  /** Each wave travels along its own edge, and its depth is one more than the distance
      of the edge's origin. */
  ghost predicate Waves(E: set<Pair>, src: Variable, s: Spread, via: seq<Pair>, level: int, now: nat) {
    && |via| == |s.queue| && NoDup(via) && now <= |via| && (via != [] ==> now > 0) && level >= 1
    && forall i :: 0 <= i < |via| ==>
         && via[i] in E && via[i].0 in s.visited && via[i].1 == s.queue[i].node
         && s.queue[i].depth == (if i < now then level else level + 1)
         && via[i].0 in Ball(E, src, s.queue[i].depth - 1) && via[i].0 !in Ball(E, src, s.queue[i].depth - 2)
  }

  ghost function Ends(edges: set<Pair>): set<Variable> {
    set e | e in edges :: e.1
  }

  lemma OneMoreEdge(edges: set<Pair>, e: Pair)
    requires e !in edges
    ensures Ends(edges + {e}) == Ends(edges) + {e.1} && |edges + {e}| == |edges| + 1
  {
  }

  ghost predicate Counted(E: set<Pair>, src: Variable, maxDepth: int, s: Spread, via: seq<Pair>, done: set<Pair>) {
    && done <= Near(E, src, maxDepth) && (forall e :: e in done ==> e.0 in s.visited && e.1 in s.visited && e !in via)
    && (forall e :: e in Near(E, src, maxDepth) && e.0 in s.visited ==> e in done || e in via)
    && s.used == |done| && s.affected.Keys == Ends(done)
  }

  ghost predicate Visited(E: set<Pair>, src: Variable, maxDepth: int, s: Spread, level: int) {
    && src in s.visited
    && (forall v :: v in s.visited ==> v == src || v in Ball(E, src, maxDepth))
    && Ball(E, src, if level - 1 <= maxDepth then level - 1 else maxDepth) <= s.visited
  }

  ghost predicate Spreading(E: set<Pair>, src: Variable, maxDepth: int, s: Spread, via: seq<Pair>, done: set<Pair>,
                            level: int, now: nat) {
    Waves(E, src, s, via, level, now) && Counted(E, src, maxDepth, s, via, done) && Visited(E, src, maxDepth, s, level)
  }

  /** When the last wave of a level has been served, the next level begins. */
  ghost predicate Served(E: set<Pair>, src: Variable, maxDepth: int, s: Spread, via: seq<Pair>, done: set<Pair>,
                         level: int, left: nat) {
    Spreading(E, src, maxDepth, s, via, done, if left == 0 then level + 1 else level, if left == 0 then |via| else left)
  }

  lemma BallEntered(E: set<Pair>, src: Variable, k: int, v: Variable) returns (e: Pair)
    requires k >= 1 && v in Ball(E, src, k) && v !in Ball(E, src, k - 1)
    ensures e in E && e.0 in Ball(E, src, k - 1) && e.1 == v
  {
    e :| e in E && e.0 in Ball(E, src, k - 1) && e.1 == v;
  }

  lemma LevelCovered(E: set<Pair>, src: Variable, maxDepth: int, s: Spread, via: seq<Pair>, done: set<Pair>, level: int)
    requires 1 <= level <= maxDepth && Ball(E, src, level - 1) <= s.visited
    requires Counted(E, src, maxDepth, s, via, done)
    requires forall i :: 0 <= i < |via| ==> via[i].0 !in Ball(E, src, level - 1)
    ensures Ball(E, src, level) <= s.visited
  {
    BallMono(E, src, level - 1, maxDepth - 1);
    forall v | v in Ball(E, src, level) && v !in Ball(E, src, level - 1) ensures v in s.visited {
      var e := BallEntered(E, src, level, v);
      hide Ball;
      assert e in Near(E, src, maxDepth) && e !in via;
    }
  }

  lemma NoDupRest(via: seq<Pair>)
    requires NoDup(via) && via != []
    ensures NoDup(via[1..]) && via[0] !in via[1..] && forall p :: p in via <==> p == via[0] || p in via[1..]
  {
    assert via == [via[0]] + via[1..];
  }

  lemma WavesTail(E: set<Pair>, src: Variable, s: Spread, t: Spread, via: seq<Pair>, level: int, now: nat)
    requires Waves(E, src, s, via, level, now) && via != []
    requires t.queue == s.queue[1..] && s.visited <= t.visited
    ensures now > 0 && Waves(E, src, t, via[1..], if now == 1 then level + 1 else level,
      if now == 1 then |via| - 1 else now - 1)
  {
    hide Ball;
    NoDupRest(via);
  }

  lemma VisitedNext(E: set<Pair>, src: Variable, maxDepth: int, s: Spread, level: int)
    requires Visited(E, src, maxDepth, s, level)
    requires level <= maxDepth ==> Ball(E, src, level) <= s.visited
    ensures Visited(E, src, maxDepth, s, level + 1)
  {
    hide Ball;
    assert level - 1 == maxDepth ==> Ball(E, src, level - 1) == Ball(E, src, maxDepth);
  }

  lemma CountedTail(E: set<Pair>, src: Variable, maxDepth: int, s: Spread, t: Spread, via: seq<Pair>, done: set<Pair>)
    requires Counted(E, src, maxDepth, s, via, done) && NoDup(via) && via != [] && via[0] !in Near(E, src, maxDepth)
    requires t == s.(queue := t.queue)
    ensures Counted(E, src, maxDepth, t, via[1..], done)
  {
    NoDupRest(via);
    hide Near;
  }

  lemma HeadWave(E: set<Pair>, src: Variable, s: Spread, via: seq<Pair>, level: int, now: nat)
    requires Waves(E, src, s, via, level, now) && via != []
    ensures s.queue != [] && s.queue[0].depth == level >= 1 && via[0] in E && via[0].1 == s.queue[0].node
    ensures via[0].0 in Ball(E, src, level - 1) && via[0].0 !in Ball(E, src, level - 2) && via[0].0 in s.visited
  {
  }

  lemma OriginsVisited(E: set<Pair>, src: Variable, s: Spread, via: seq<Pair>, level: int, now: nat)
    requires Waves(E, src, s, via, level, now)
    ensures NoDup(via) && forall i :: 0 <= i < |via| ==> via[i] in E && via[i].0 in s.visited
  {
  }

  lemma VisitedGrows(E: set<Pair>, src: Variable, maxDepth: int, s: Spread, t: Spread, level: int)
    requires Visited(E, src, maxDepth, s, level) && s.visited <= t.visited
    requires forall v :: v in t.visited ==> v in s.visited || v in Ball(E, src, maxDepth)
    ensures Visited(E, src, maxDepth, t, level)
  {
    hide Ball;
  }

  lemma DropTooDeep(E: set<Pair>, src: Variable, maxDepth: int, s: Spread, via: seq<Pair>, done: set<Pair>,
                    level: int, now: nat)
    requires Spreading(E, src, maxDepth, s, via, done, level, now) && via != [] && level > maxDepth
    ensures now > 0 && Served(E, src, maxDepth, s.(queue := s.queue[1..]), via[1..], done, level, now - 1)
  {
    hide Waves, Counted, Visited;
    HeadWave(E, src, s, via, level, now);
    var t := s.(queue := s.queue[1..]);
    WavesTail(E, src, s, t, via, level, now);
    OriginsVisited(E, src, s, via, level, now);
    BallMono(E, src, maxDepth - 1, level - 2);
    hide Ball;
    CountedTail(E, src, maxDepth, s, t, via, done);
    VisitedGrows(E, src, maxDepth, s, t, level);
    VisitedNext(E, src, maxDepth, t, level);
  }

  lemma CountedUse(E: set<Pair>, src: Variable, maxDepth: int, s: Spread, t: Spread, via: seq<Pair>, done: set<Pair>)
    requires Counted(E, src, maxDepth, s, via, done) && NoDup(via) && via != [] && via[0] in Near(E, src, maxDepth)
    requires via[0].0 in s.visited && via[0].1 in s.visited
    requires t.visited == s.visited + {via[0].1} && t.used == s.used + 1
    requires t.affected.Keys == s.affected.Keys + {via[0].1}
    ensures Counted(E, src, maxDepth, t, via[1..], done + {via[0]})
  {
    hide Near, Ends, NoDup;
    NoDupRest(via);
    assert via[0] !in done;
    OneMoreEdge(done, via[0]);
  }

  /** A wave within the limit: its edge is used. */
  lemma UseWave(E: set<Pair>, src: Variable, maxDepth: int, s: Spread, t: Spread, via: seq<Pair>, done: set<Pair>,
                level: int, now: nat)
    requires Spreading(E, src, maxDepth, s, via, done, level, now) && via != [] && level <= maxDepth
    requires t.visited == s.visited + {via[0].1} && t.used == s.used + 1
    requires t.affected.Keys == s.affected.Keys + {via[0].1}
    requires via[0].1 in s.visited
    ensures Counted(E, src, maxDepth, t, via[1..], done + {via[0]})
  {
    hide Waves, Visited, Counted;
    HeadWave(E, src, s, via, level, now);
    OriginsVisited(E, src, s, via, level, now);
    BallMono(E, src, level - 1, maxDepth - 1);
    assert via[0] in Near(E, src, maxDepth);
    CountedUse(E, src, maxDepth, s, t, via, done);
  }

  /** A node first met at some level is no nearer than that. */
  lemma NewNodeIsFar(E: set<Pair>, src: Variable, maxDepth: int, s: Spread, v: Variable, level: int)
    requires Visited(E, src, maxDepth, s, level) && level <= maxDepth && v !in s.visited
    ensures v !in Ball(E, src, level - 1)
  {
  }

  lemma CountedExpand(E: set<Pair>, src: Variable, maxDepth: int, s: Spread, t: Spread, via: seq<Pair>,
                      done: set<Pair>, fan: seq<Pair>)
    requires Counted(E, src, maxDepth, s, via, done) && NoDup(via) && via != [] && via[0] in Near(E, src, maxDepth)
    requires forall i :: 0 <= i < |via| ==> via[i].0 in s.visited
    requires t.visited == s.visited + {via[0].1} && t.used == s.used + 1 && via[0].1 !in s.visited
    requires t.affected.Keys == s.affected.Keys + {via[0].1}
    requires forall p :: p in fan ==> p.0 == via[0].1
    requires forall e :: e in Near(E, src, maxDepth) && e.0 == via[0].1 ==> e in fan
    ensures Counted(E, src, maxDepth, t, via[1..] + fan, done + {via[0]})
  {
    hide Near, Ends, NoDup;
    NoDupRest(via);
    assert via[0] !in done;
    OneMoreEdge(done, via[0]);
    forall e ensures e in via[1..] + fan <==> e in via[1..] || e in fan {
    }
  }

  /** ... and if its node is new, the node's own edges are queued behind. */
  lemma UseAndExpand(E: set<Pair>, src: Variable, maxDepth: int, s: Spread, t: Spread, via: seq<Pair>, done: set<Pair>,
                     level: int, now: nat, fan: seq<Pair>)
    requires Spreading(E, src, maxDepth, s, via, done, level, now) && via != [] && level <= maxDepth
    requires t.visited == s.visited + {via[0].1} && t.used == s.used + 1
    requires t.affected.Keys == s.affected.Keys + {via[0].1}
    requires via[0].1 !in s.visited
    requires forall p :: p in fan ==> p in Leaving(E, via[0].1)
    requires level + 1 <= maxDepth ==> forall p :: p in Leaving(E, via[0].1) ==> p in fan
    ensures Counted(E, src, maxDepth, t, via[1..] + fan, done + {via[0]})
  {
    hide Waves, Visited, Counted;
    HeadWave(E, src, s, via, level, now);
    OriginsVisited(E, src, s, via, level, now);
    BallMono(E, src, level - 1, maxDepth - 1);
    assert via[0] in Near(E, src, maxDepth);
    forall e | e in Near(E, src, maxDepth) && e.0 == via[0].1 ensures e in fan {
      assert e in Leaving(E, via[0].1);
      if maxDepth == level {
        NewNodeIsFar(E, src, maxDepth, s, via[0].1, level);
      }
    }
    CountedExpand(E, src, maxDepth, s, t, via, done, fan);
  }

  lemma WavesAppend(E: set<Pair>, src: Variable, s: Spread, t: Spread, via: seq<Pair>, level: int, now: nat,
                    fan: seq<Pair>, waves: seq<Wave>)
    requires Waves(E, src, s, via, level, now) && via != []
    requires t.queue == s.queue[1..] + waves && s.visited <= t.visited
    requires |fan| == |waves| && NoDup(fan)
    requires forall i :: 0 <= i < |fan| ==>
      && fan[i] in E && fan[i].0 in t.visited && fan[i].0 !in s.visited
      && fan[i].1 == waves[i].node && waves[i].depth == level + 1
      && fan[i].0 in Ball(E, src, level) && fan[i].0 !in Ball(E, src, level - 1)
    ensures now > 0 && Waves(E, src, t, via[1..] + fan, if now == 1 then level + 1 else level,
      if now == 1 then |via[1..] + fan| else now - 1)
  {
    WavesTail(E, src, s, s.(queue := s.queue[1..]), via, level, now);
    hide Ball;
    var all := via[1..] + fan;
    forall i, j | 0 <= i < j < |all| ensures all[i] != all[j] {
      if i < |via| - 1 <= j {
        assert all[i] == via[i + 1] && all[j] == fan[j - (|via| - 1)];
      }
    }
  }

  // ----- Every iteration keeps the invariant -----

  lemma HeadInBall(E: set<Pair>, src: Variable, maxDepth: int, e: Pair, level: int)
    requires e in E && e.0 in Ball(E, src, level - 1) && 1 <= level <= maxDepth
    ensures e.1 in Ball(E, src, level) && e.1 in Ball(E, src, maxDepth)
  {
    BallMono(E, src, level, maxDepth);
  }

  lemma FarOrigins(E: set<Pair>, src: Variable, t: Spread, via: seq<Pair>, level: int)
    requires Waves(E, src, t, via, level + 1, |via|)
    ensures forall i :: 0 <= i < |via| ==> via[i].0 !in Ball(E, src, level - 1)
  {
    hide Ball;
    forall i | 0 <= i < |via| ensures via[i].0 !in Ball(E, src, level - 1) {
      assert t.queue[i].depth - 2 == level - 1;
    }
  }

  /** After the last wave of a level, the whole ball of that radius has been visited. */
  lemma LevelDone(E: set<Pair>, src: Variable, maxDepth: int, t: Spread, via: seq<Pair>, done: set<Pair>, level: int)
    requires Counted(E, src, maxDepth, t, via, done) && Visited(E, src, maxDepth, t, level) && level >= 1
    requires Waves(E, src, t, via, level + 1, |via|)
    ensures Visited(E, src, maxDepth, t, level + 1)
  {
    hide Ball, Counted;
    if level <= maxDepth {
      assert Ball(E, src, level - 1) <= t.visited;
      FarOrigins(E, src, t, via, level);
      hide Waves, Visited;
      LevelCovered(E, src, maxDepth, t, via, done, level);
    }
    VisitedNext(E, src, maxDepth, t, level);
  }

  /** The edges of the waves queued after an iteration, and the edges used so far. */
  ghost function NextVia(adj: Adjacency, maxDepth: int, s: Spread, via: seq<Pair>): seq<Pair>
    requires s.queue != [] && via != []
  {
    var w := s.queue[0];
    if w.depth <= maxDepth && w.node !in s.visited
    then via[1..] + FanEdges(Row(adj, w.node), w.depth + 1, s.visited + {w.node}, maxDepth)
    else via[1..]
  }

  ghost function NextDone(maxDepth: int, s: Spread, via: seq<Pair>, done: set<Pair>): set<Pair>
    requires s.queue != [] && via != []
  {
    if s.queue[0].depth <= maxDepth then done + {via[0]} else done
  }

  lemma SameLength(E: set<Pair>, src: Variable, s: Spread, via: seq<Pair>, level: int, now: nat)
    requires Waves(E, src, s, via, level, now)
    ensures |via| == |s.queue|
  {
  }

  lemma SpreadStep(adj: Adjacency, edges: Edges, src: Variable, maxDepth: int, s: Spread,
                   via: seq<Pair>, done: set<Pair>, level: int, now: nat)
    returns (via': seq<Pair>, done': set<Pair>, level': int, now': nat)
    requires Holds(adj, Forward, edges) && Consistent(edges) && s.queue != [] && Inside(adj, s.queue)
    requires Spreading(edges.Keys, src, maxDepth, s, via, done, level, now)
    ensures Spreading(edges.Keys, src, maxDepth, Step(adj, maxDepth, s), via', done', level', now')
    ensures via != [] && via' == NextVia(adj, maxDepth, s, via) && done' == NextDone(maxDepth, s, via, done)
  {
    hide Waves, Counted, Visited, Ball, Near, Holds;
    var E, t, w := edges.Keys, Step(adj, maxDepth, s), s.queue[0];
    assert via != [] by { SameLength(E, src, s, via, level, now); }
    HeadWave(E, src, s, via, level, now);
    if level > maxDepth {
      DropTooDeep(E, src, maxDepth, s, via, done, level, now);
      via', done' := via[1..], done;
      level', now' := if now == 1 then level + 1 else level, if now == 1 then |via'| else now - 1;
    } else {
      assert t.affected.Keys == s.affected.Keys + {via[0].1};
      done' := done + {via[0]};
      HeadInBall(E, src, maxDepth, via[0], level);
      if w.node in s.visited {
        via' := via[1..];
        UseWave(E, src, maxDepth, s, t, via, done, level, now);
        WavesTail(E, src, s, t, via, level, now);
      } else {
        var fan := FanEdges(Row(adj, w.node), level + 1, t.visited, maxDepth);
        var waves := Fan(Row(adj, w.node), w.effect, level + 1, t.visited, maxDepth);
        via' := via[1..] + fan;
        FanLeaves(adj, edges, w.node, w.effect, level + 1, t.visited, maxDepth);
        UseAndExpand(E, src, maxDepth, s, t, via, done, level, now, fan);
        NewNodeIsFar(E, src, maxDepth, s, w.node, level);
        forall i | 0 <= i < |fan| ensures fan[i] in E && fan[i].0 == w.node {
          assert fan[i] in fan;
        }
        WavesAppend(E, src, s, t, via, level, now, fan, waves);
      }
      VisitedGrows(E, src, maxDepth, s, t, level);
      if now == 1 {
        LevelDone(E, src, maxDepth, t, via', done', level);
      }
      level', now' := if now == 1 then level + 1 else level, if now == 1 then |via'| else now - 1;
    }
  }

  lemma SpreadingLength(E: set<Pair>, src: Variable, maxDepth: int, s: Spread, via: seq<Pair>, done: set<Pair>,
                        level: int, now: nat)
    requires Spreading(E, src, maxDepth, s, via, done, level, now)
    ensures |via| == |s.queue|
  {
  }

  lemma {:induction false} SpreadRun(adj: Adjacency, edges: Edges, src: Variable, maxDepth: int, s: Spread,
                                     via: seq<Pair>, done: set<Pair>, level: int, now: nat)
    returns (done': set<Pair>, level': int, now': nat)
    requires Holds(adj, Forward, edges) && Consistent(edges) && Inside(adj, s.queue)
    requires Spreading(edges.Keys, src, maxDepth, s, via, done, level, now)
    ensures Spreading(edges.Keys, src, maxDepth, Run(adj, maxDepth, s), [], done', level', now')
    decreases Universe(adj) - s.visited, |s.queue|
  {
    hide Spreading;
    if s.queue == [] {
      assert via == [] by { SpreadingLength(edges.Keys, src, maxDepth, s, via, done, level, now); }
      done', level', now' := done, level, now;
    } else {
      var via1, done1, level1, now1 := SpreadStep(adj, edges, src, maxDepth, s, via, done, level, now);
      done', level', now' := SpreadRun(adj, edges, src, maxDepth, Step(adj, maxDepth, s), via1, done1, level1, now1);
    }
  }

  lemma FirstWaves(E: set<Pair>, src: Variable, maxDepth: int, s: Spread, via: seq<Pair>)
    requires s.visited == {src} && s.used == 0 && s.affected == map[] && |via| == |s.queue| && NoDup(via)
    requires forall i :: 0 <= i < |via| ==>
      via[i] in E && via[i].0 == src && via[i].1 == s.queue[i].node && s.queue[i].depth == 1
    requires forall e :: e in E && e.0 == src ==> e in via
    ensures Spreading(E, src, maxDepth, s, via, {}, 1, |via|)
  {
  }

  lemma SpreadStart(adj: Adjacency, edges: Edges, src: Variable, delta: real, maxDepth: int)
    requires Holds(adj, Forward, edges) && Consistent(edges)
    ensures var via := FanEdges(Row(adj, src), 1, {}, 1);
      Spreading(edges.Keys, src, maxDepth, Start(adj, src, delta), via, {}, 1, |via|)
  {
    FanLeaves(adj, edges, src, delta, 1, {}, 1);
    var via := FanEdges(Row(adj, src), 1, {}, 1);
    forall i | 0 <= i < |via| ensures via[i] in edges.Keys && via[i].0 == src {
      assert via[i] in via;
    }
    forall e | e in edges.Keys && e.0 == src ensures e in via {
      assert e in Leaving(edges.Keys, src);
    }
    hide Fan, FanEdges, Holds;
    FirstWaves(edges.Keys, src, maxDepth, Start(adj, src, delta), via);
  }

  lemma BallCentre(E: set<Pair>, src: Variable, k: int)
    requires k <= 0
    ensures Ball(E, src, k) <= {src}
  {
  }

  lemma EndVisited(E: set<Pair>, src: Variable, maxDepth: int, s: Spread, done: set<Pair>, e: Pair)
    requires Counted(E, src, maxDepth, s, [], done) && e in Near(E, src, maxDepth) && e.0 in s.visited
    ensures e.1 in s.visited
  {
  }

  lemma {:induction false} BallVisited(E: set<Pair>, src: Variable, maxDepth: int, s: Spread, done: set<Pair>,
                                       k: int, v: Variable)
    requires Counted(E, src, maxDepth, s, [], done) && src in s.visited && k <= maxDepth && v in Ball(E, src, k)
    ensures v in s.visited
    decreases k
  {
    hide Counted, Ball;
    if k <= 0 {
      BallCentre(E, src, k);
    } else if v in Ball(E, src, k - 1) {
      BallVisited(E, src, maxDepth, s, done, k - 1, v);
    } else {
      var e := BallEntered(E, src, k, v);
      BallVisited(E, src, maxDepth, s, done, k - 1, e.0);
      BallMono(E, src, k - 1, maxDepth - 1);
      assert e in Near(E, src, maxDepth);
      EndVisited(E, src, maxDepth, s, done, e);
    }
  }

  lemma {:induction false} EnteredFromBall(E: set<Pair>, src: Variable, k: int, v: Variable)
    requires v in Ball(E, src, k) && v != src
    ensures exists e :: e in Near(E, src, k) && e.1 == v
    decreases k
  {
    if v in Ball(E, src, k - 1) {
      EnteredFromBall(E, src, k - 1, v);
      BallMono(E, src, k - 2, k - 1);
    } else {
      var e :| e in E && e.0 in Ball(E, src, k - 1) && e.1 == v;
      assert e in Near(E, src, k);
    }
  }

  /** The other ends of the near edges are the nodes at distance 1..maxDepth, and the
      source itself when it lies on a short enough cycle. */
  lemma NearEnds(E: set<Pair>, src: Variable, maxDepth: int)
    ensures Ends(Near(E, src, maxDepth)) - {src} == Ball(E, src, maxDepth) - {src}
  {
    if maxDepth > 0 {
      forall v | v in Ball(E, src, maxDepth) && v != src ensures exists e :: e in Near(E, src, maxDepth) && e.1 == v {
        EnteredFromBall(E, src, maxDepth, v);
      }
    }
  }

  lemma SpreadEnd(E: set<Pair>, src: Variable, maxDepth: int, s: Spread, done: set<Pair>, level: int, now: nat)
    requires Spreading(E, src, maxDepth, s, [], done, level, now)
    ensures done == Near(E, src, maxDepth) && s.used == |Near(E, src, maxDepth)|
    ensures s.affected.Keys == Ends(Near(E, src, maxDepth))
    ensures s.affected.Keys - {src} == Ball(E, src, maxDepth) - {src}
    ensures s.visited == Ball(E, src, maxDepth) + {src}
  {
    forall v | v in Ball(E, src, maxDepth) ensures v in s.visited {
      BallVisited(E, src, maxDepth, s, done, maxDepth, v);
    }
    BallMono(E, src, maxDepth - 1, maxDepth);
    NearEnds(E, src, maxDepth);
    hide Ball;
    assert done == Near(E, src, maxDepth);
  }

  /** intervene terminates on any graph, cycles included, and: it expands exactly the nodes
      within maxDepth of the variable, uses each edge that leaves a node within maxDepth - 1
      exactly once, and affects exactly the ends of those edges. */
  lemma InterveneReaches(adj: Adjacency, edges: Edges, src: Variable, delta: real, maxDepth: int)
    requires Holds(adj, Forward, edges) && Consistent(edges)
    ensures var s, E := Intervene(adj, src, delta, maxDepth), edges.Keys;
      && s.used == |Near(E, src, maxDepth)|
      && s.affected.Keys == Ends(Near(E, src, maxDepth))
      && s.affected.Keys - {src} == Ball(E, src, maxDepth) - {src}
      && s.visited == Ball(E, src, maxDepth) + {src}
  {
    hide Spreading;
    var via := FanEdges(Row(adj, src), 1, {}, 1);
    SpreadStart(adj, edges, src, delta, maxDepth);
    var done, level, now := SpreadRun(adj, edges, src, maxDepth, Start(adj, src, delta), via, {}, 1, |via|);
    SpreadEnd(edges.Keys, src, maxDepth, Intervene(adj, src, delta, maxDepth), done, level, now);
  }
}
