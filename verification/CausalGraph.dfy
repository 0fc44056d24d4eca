/** CausalGraph: the structural causal model of core/causal_reasoning.py. */
module CausalGraph {
  import opened Wrappers
  import opened Reals
  import opened StringOrder
  import opened Sequences
  import opened Digraph
  import opened CausalEdges
  import opened CausalPaths

  /** A queued path with what has been accumulated along it. */
  datatype Item = Item(path: Path, strength: real, confidence: real)

  function PathsOf(results: seq<Pathway>): seq<Path> {
    seq(|results|, i requires 0 <= i < |results| => results[i].path)
  }

  function QueuedPaths(queue: seq<Item>): seq<Path> {
    seq(|queue|, i requires 0 <= i < |queue| => queue[i].path)
  }

  /** A pathway carries the product of its strengths and the least of its confidences. */
  ghost predicate Faithful(edges: Edges, source: Variable, target: Variable, r: Pathway) {
    IsWalk(edges.Keys, r.path) &&
    r == Pathway(source, target, r.path, Strength(edges, r.path), Confidence(edges, r.path), |r.path| - 1)
  }

  lemma EdgeThenReach(E: set<(Variable, Variable)>, x: Variable, y: Variable, v: Variable)
    requires (x, y) in E && Reach(E, y, v)
    ensures Reach(E, x, v) && ReachPlus(E, x, v)
  {
    ReachSelf(E, x);
    ReachEdge(E, x, x, y);
    ReachTrans(E, x, y, v);
  }

  /** The edges whose cause is among `causes`, or which are among `more`. */
  ghost function Below(edges: Edges, causes: seq<Variable>, more: set<Edge>): Edges {
    map p | p in edges && (p.0 in causes || edges[p] in more) :: edges[p]
  }

  lemma ExportOne(edges: Edges, causes: seq<Variable>, c: nat, row: seq<Edge>, i: nat, records: seq<Record>)
    requires NoDup(causes) && c < |causes| && Consistent(edges)
    requires IsRow(edges, row, causes[c], Forward) && i < |row|
    requires IsExport(Below(edges, causes[..c], Elements(row[..i])), records)
    ensures IsExport(Below(edges, causes[..c], Elements(row[..i + 1])), records + [Encode(row[i])])
  {
    var before := Below(edges, causes[..c], Elements(row[..i]));
    var after := Below(edges, causes[..c], Elements(row[..i + 1]));
    var e := row[i];
    assert e in row;
    assert row[..i + 1] == row[..i] + [e];
    forall x ensures Held(after, x) <==> Held(before, x) || x == e {
    }
    assert !Held(before, e) by {
      assert forall k :: 0 <= k < i ==> row[k] != e;
    }
    forall k | 0 <= k < |records|
      ensures records[k].cause != Encode(e).cause || records[k].effect != Encode(e).effect {
      assert records[k] in records;
      var x :| Held(before, x) && records[k] == Encode(x);
    }
  }

  lemma RowExported(edges: Edges, causes: seq<Variable>, c: nat, row: seq<Edge>)
    requires c < |causes| && Consistent(edges) && IsRow(edges, row, causes[c], Forward)
    ensures Below(edges, causes[..c], Elements(row[..|row|])) == Below(edges, causes[..c + 1], {})
  {
    assert row[..|row|] == row && causes[..c + 1] == causes[..c] + [causes[c]];
    forall p | p in edges ensures edges[p] in row <==> p.0 == causes[c] {
      assert Held(edges, edges[p]);
    }
  }

  // ----- The state of the breadth-first search -----

  ghost predicate CarriesPath(edges: Edges, source: Variable, item: Item) {
    && item.path != [] && Walk(edges.Keys, source, item.path, Last(item.path))
    && item.strength == Strength(edges, item.path) && item.confidence == Confidence(edges, item.path)
  }

  ghost predicate Levels(results: seq<Pathway>, queue: seq<Item>, level: nat, now: nat) {
    && now <= |queue| && (queue != [] ==> now > 0)
    && (forall i :: 0 <= i < |queue| ==> |queue[i].path| == if i < now then level else level + 1)
    && (forall i, j :: 0 <= i < j < |results| ==> |results[i].path| <= |results[j].path|)
    && (forall i :: 0 <= i < |results| ==> |results[i].path| <= level + 1)
  }

  ghost predicate Searching(edges: Edges, source: Variable, target: Variable, maxLength: int,
                            results: seq<Pathway>, queue: seq<Item>, level: nat, now: nat)
  {
    && Frontier(edges.Keys, source, target, maxLength + 1, PathSet(PathsOf(results)), PathSet(QueuedPaths(queue)))
    && NoDup(PathsOf(results)) && NoDup(QueuedPaths(queue))
    && (forall i :: 0 <= i < |queue| ==> CarriesPath(edges, source, queue[i]))
    && (forall r :: r in results ==> Faithful(edges, source, target, r))
    && Levels(results, queue, level, now)
  }

  predicate Keeps(item: Item, e: Edge, target: Variable, hit: bool) {
    e.effect !in item.path && (if hit then e.effect == target else e.effect != target)
  }

  function Extended(item: Item, e: Edge): Item {
    Item(item.path + [e.effect], item.strength * e.strength, Min(item.confidence, e.confidence))
  }

  /** The extensions of an item along a row that do not revisit a node; those that end
      in the target (hit), or the others. */
  function Kept(item: Item, row: seq<Edge>, target: Variable, hit: bool): seq<Item> {
    if row == [] then []
    else if Keeps(item, row[|row| - 1], target, hit)
    then Kept(item, row[..|row| - 1], target, hit) + [Extended(item, row[|row| - 1])]
    else Kept(item, row[..|row| - 1], target, hit)
  }

  function ToPathway(item: Item, source: Variable, target: Variable): Pathway {
    Pathway(source, target, item.path, item.strength, item.confidence, |item.path| - 1)
  }

  function Found(item: Item, row: seq<Edge>, source: Variable, target: Variable): seq<Pathway> {
    var kept := Kept(item, row, target, true);
    seq(|kept|, i requires 0 <= i < |kept| => ToPathway(kept[i], source, target))
  }

  lemma KeptStep(item: Item, row: seq<Edge>, i: nat, source: Variable, target: Variable)
    requires i < |row|
    ensures Found(item, row[..i + 1], source, target) ==
      if Keeps(item, row[i], target, true)
      then Found(item, row[..i], source, target) + [ToPathway(Extended(item, row[i]), source, target)]
      else Found(item, row[..i], source, target)
    ensures Kept(item, row[..i + 1], target, false) ==
      if Keeps(item, row[i], target, false)
      then Kept(item, row[..i], target, false) + [Extended(item, row[i])]
      else Kept(item, row[..i], target, false)
  {
    assert row[..i + 1][..i] == row[..i];
  }

  lemma NothingKept(item: Item, row: seq<Edge>, source: Variable, target: Variable)
    requires row == []
    ensures Found(item, row, source, target) == [] && Kept(item, row, target, false) == []
  {
  }

  lemma SearchStart(edges: Edges, source: Variable, target: Variable, maxLength: int)
    ensures Searching(edges, source, target, maxLength, [], [Item([source], 1.0, 1.0)], 1, 1)
  {
    FrontierStart(edges.Keys, source, target, maxLength + 1);
    assert QueuedPaths([Item([source], 1.0, 1.0)]) == [[source]] && PathsOf([]) == [];
    assert PathSet([[source]]) == {[source]};
  }

  lemma SearchEnd(edges: Edges, source: Variable, target: Variable, maxLength: int, results: seq<Pathway>,
                  level: nat, now: nat)
    requires Searching(edges, source, target, maxLength, results, [], level, now)
    ensures Enumerates(edges.Keys, source, target, maxLength, PathsOf(results))
    ensures forall r :: r in results ==> Faithful(edges, source, target, r)
  {
    assert PathSet(QueuedPaths([])) == {};
    assert forall p :: p in PathsOf(results) <==> p in PathSet(PathsOf(results));
  }

  lemma HeadItem(edges: Edges, source: Variable, target: Variable, maxLength: int,
                 results: seq<Pathway>, queue: seq<Item>, level: nat, now: nat, variables: set<Variable>)
    requires Searching(edges, source, target, maxLength, results, queue, level, now) && queue != []
    requires source in variables && Nodes(edges.Keys) <= variables
    ensures CarriesPath(edges, source, queue[0]) && level == |queue[0].path| <= |variables|
  {
    assert QueuedPaths(queue)[0] == queue[0].path;
    SimplePathLength(edges.Keys, source, queue[0].path, variables);
  }

  /** Kept extensions carry their paths, are one node longer and pairwise different. */
  ghost predicate KeptSpec(edges: Edges, source: Variable, item: Item, row: seq<Edge>, target: Variable, hit: bool,
                           kept: seq<Item>) {
    && (forall k :: 0 <= k < |kept| ==> CarriesPath(edges, source, kept[k]) && |kept[k].path| == |item.path| + 1)
    && NoDup(QueuedPaths(kept))
    && (forall c :: c in QueuedPaths(kept) <==>
          exists e :: e in row && Keeps(item, e, target, hit) && c == item.path + [e.effect])
  }

  lemma KeptMore(edges: Edges, source: Variable, item: Item, rest: seq<Edge>, e: Edge, target: Variable, hit: bool,
                 before: seq<Item>)
    requires KeptSpec(edges, source, item, rest, target, hit, before) && Keeps(item, e, target, hit)
    requires forall x :: x in rest ==> x.effect != e.effect
    requires CarriesPath(edges, source, item) && Held(edges, e) && e.cause == Last(item.path)
    ensures KeptSpec(edges, source, item, rest + [e], target, hit, before + [Extended(item, e)])
  {
    var next := Extended(item, e);
    ExtendWalk(edges, source, item.path, e.effect);
    assert CarriesPath(edges, source, next);
    hide CarriesPath;
    assert QueuedPaths(before + [next]) == QueuedPaths(before) + [next.path];
    forall x | x in rest ensures item.path + [x.effect] != next.path {
      assert (item.path + [x.effect])[|item.path|] != next.path[|item.path|];
    }
    NoDupAppend(QueuedPaths(before), next.path);
  }

  lemma {:induction false} KeptItems(edges: Edges, source: Variable, item: Item, row: seq<Edge>, target: Variable,
                                     hit: bool)
    requires CarriesPath(edges, source, item) && DistinctKeys(row, Forward)
    requires forall e :: e in row ==> Held(edges, e) && e.cause == Last(item.path)
    ensures KeptSpec(edges, source, item, row, target, hit, Kept(item, row, target, hit))
  {
    if row == [] {
      assert QueuedPaths([]) == [];
    } else {
      var e, rest := row[|row| - 1], row[..|row| - 1];
      assert row == rest + [e];
      KeptItems(edges, source, item, rest, target, hit);
      var before := Kept(item, rest, target, hit);
      assert forall x :: x in rest ==> x.effect != e.effect;
      hide KeptSpec, CarriesPath;
      if Keeps(item, e, target, hit) {
        KeptMore(edges, source, item, rest, e, target, hit, before);
      } else {
      }
    }
  }

  /** The kept extensions are the extensions of the path in the graph. */
  lemma KeptIsExtensions(edges: Edges, source: Variable, item: Item, row: seq<Edge>, target: Variable, hit: bool)
    requires CarriesPath(edges, source, item) && Consistent(edges) && IsRow(edges, row, Last(item.path), Forward)
    ensures KeptSpec(edges, source, item, row, target, hit, Kept(item, row, target, hit))
    ensures PathSet(QueuedPaths(Kept(item, row, target, hit)))
         == set c | c in Extensions(edges.Keys, item.path) && (Last(c) == target) == hit
  {
    KeptItems(edges, source, item, row, target, hit);
    forall c | c in Extensions(edges.Keys, item.path) && (Last(c) == target) == hit
      ensures c in QueuedPaths(Kept(item, row, target, hit)) {
      var p :| p in edges.Keys && p.0 == Last(item.path) && p.1 !in item.path && c == item.path + [p.1];
      assert Held(edges, edges[p]) && edges[p] in row;
    }
    forall c | c in QueuedPaths(Kept(item, row, target, hit))
      ensures c in Extensions(edges.Keys, item.path) && (Last(c) == target) == hit {
      var e :| e in row && Keeps(item, e, target, hit) && c == item.path + [e.effect];
      assert (e.cause, e.effect) in edges.Keys;
    }
  }

  lemma NoDupConcat<T(!new)>(a: seq<T>, b: seq<T>)
    requires NoDup(a) && NoDup(b) && Elements(a) !! Elements(b)
    ensures NoDup(a + b) && Elements(a + b) == Elements(a) + Elements(b)
  {
    forall i, j | 0 <= i < j < |a + b| ensures (a + b)[i] != (a + b)[j] {
      if i < |a| <= j {
        assert a[i] in Elements(a) && b[j - |a|] in Elements(b);
      }
    }
  }

  lemma NoDupTail<T(!new)>(a: seq<T>)
    requires NoDup(a) && a != []
    ensures NoDup(a[1..]) && Elements(a[1..]) == Elements(a) - {a[0]}
  {
    assert a == [a[0]] + a[1..];
  }

  lemma DiscardItem(edges: Edges, source: Variable, target: Variable, maxLength: int,
                    results: seq<Pathway>, queue: seq<Item>, level: nat, now: nat)
    requires Searching(edges, source, target, maxLength, results, queue, level, now)
    requires queue != [] && |queue[0].path| > maxLength + 1
    ensures now > 0 && Searching(edges, source, target, maxLength, results, queue[1..],
      if now == 1 then level + 1 else level, if now == 1 then |queue| - 1 else now - 1)
  {
    var rest := queue[1..];
    assert QueuedPaths(rest) == QueuedPaths(queue)[1..];
    NoDupTail(QueuedPaths(queue));
    FrontierDiscard(edges.Keys, source, target, maxLength + 1, PathSet(PathsOf(results)), PathSet(QueuedPaths(queue)),
                    queue[0].path);
  }

  lemma ResultsAfter(edges: Edges, source: Variable, target: Variable, results: seq<Pathway>, item: Item,
                     row: seq<Edge>)
    requires NoDup(PathsOf(results)) && forall r :: r in results ==> Faithful(edges, source, target, r)
    requires var found := Kept(item, row, target, true);
      && NoDup(QueuedPaths(found)) && PathSet(QueuedPaths(found)) !! PathSet(PathsOf(results))
      && forall k :: 0 <= k < |found| ==> CarriesPath(edges, source, found[k])
    ensures var results' := results + Found(item, row, source, target);
      && NoDup(PathsOf(results')) && (forall r :: r in results' ==> Faithful(edges, source, target, r))
      && PathSet(PathsOf(results')) == PathSet(PathsOf(results)) + PathSet(QueuedPaths(Kept(item, row, target, true)))
  {
    var found := Found(item, row, source, target);
    assert PathsOf(found) == QueuedPaths(Kept(item, row, target, true));
    assert PathsOf(results + found) == PathsOf(results) + PathsOf(found);
    NoDupConcat(PathsOf(results), PathsOf(found));
  }

  lemma QueueAfter(edges: Edges, source: Variable, queue: seq<Item>, kept: seq<Item>)
    requires queue != [] && NoDup(QueuedPaths(queue)) && NoDup(QueuedPaths(kept))
    requires PathSet(QueuedPaths(kept)) !! PathSet(QueuedPaths(queue))
    requires forall i :: 0 <= i < |queue| ==> CarriesPath(edges, source, queue[i])
    requires forall i :: 0 <= i < |kept| ==> CarriesPath(edges, source, kept[i])
    ensures var queue' := queue[1..] + kept;
      && NoDup(QueuedPaths(queue')) && (forall i :: 0 <= i < |queue'| ==> CarriesPath(edges, source, queue'[i]))
      && PathSet(QueuedPaths(queue')) == PathSet(QueuedPaths(queue)) - {queue[0].path} + PathSet(QueuedPaths(kept))
  {
    assert QueuedPaths(queue[1..]) == QueuedPaths(queue)[1..];
    NoDupTail(QueuedPaths(queue));
    assert QueuedPaths(queue[1..] + kept) == QueuedPaths(queue[1..]) + QueuedPaths(kept);
    NoDupConcat(QueuedPaths(queue[1..]), QueuedPaths(kept));
  }

  lemma LevelsAfter(edges: Edges, source: Variable, target: Variable, results: seq<Pathway>, queue: seq<Item>,
                    level: nat, now: nat, row: seq<Edge>)
    requires queue != [] && Levels(results, queue, level, now)
    requires forall hit, k :: 0 <= k < |Kept(queue[0], row, target, hit)| ==>
      |Kept(queue[0], row, target, hit)[k].path| == |queue[0].path| + 1
    ensures var queue' := queue[1..] + Kept(queue[0], row, target, false);
      now > 0 && Levels(results + Found(queue[0], row, source, target), queue',
        if now == 1 then level + 1 else level, if now == 1 then |queue'| else now - 1)
  {
  }

  lemma ExtendItem(edges: Edges, source: Variable, target: Variable, maxLength: int,
                   results: seq<Pathway>, queue: seq<Item>, level: nat, now: nat, row: seq<Edge>)
    requires Searching(edges, source, target, maxLength, results, queue, level, now) && Consistent(edges)
    requires queue != [] && |queue[0].path| <= maxLength + 1 && IsRow(edges, row, Last(queue[0].path), Forward)
    ensures var queue' := queue[1..] + Kept(queue[0], row, target, false);
      now > 0 && Searching(edges, source, target, maxLength, results + Found(queue[0], row, source, target), queue',
        if now == 1 then level + 1 else level, if now == 1 then |queue'| else now - 1)
  {
    hide IsRow, Faithful, Frontier, CarriesPath, Extensions, Found;
    var item, E := queue[0], edges.Keys;
    var found, kept := Kept(item, row, target, true), Kept(item, row, target, false);
    var R, Q := PathSet(PathsOf(results)), PathSet(QueuedPaths(queue));
    var results', queue' := results + Found(item, row, source, target), queue[1..] + kept;
    assert CarriesPath(edges, source, item);
    KeptIsExtensions(edges, source, item, row, target, true);
    KeptIsExtensions(edges, source, item, row, target, false);
    assert item.path in Q by {
      assert QueuedPaths(queue)[0] == item.path;
    }
    FrontierExtend(E, source, target, maxLength + 1, R, Q, item.path,
                   PathSet(QueuedPaths(found)), PathSet(QueuedPaths(kept)));
    ResultsAfter(edges, source, target, results, item, row);
    QueueAfter(edges, source, queue, kept);
    LevelsAfter(edges, source, target, results, queue, level, now, row);
  }

  /** One round of the search: extend a path along the row of its last node. */
  method Extend(item: Item, row: seq<Edge>, source: Variable, target: Variable, results0: seq<Pathway>,
                queue0: seq<Item>)
    returns (results: seq<Pathway>, queue: seq<Item>)
    ensures results == results0 + Found(item, row, source, target)
    ensures queue == queue0 + Kept(item, row, target, false)
  {
    hide Kept, Found;
    results, queue := results0, queue0;
    NothingKept(item, row[..0], source, target);
    var path := item.path;
    for i := 0 to |row|
      invariant results == results0 + Found(item, row[..i], source, target)
      invariant queue == queue0 + Kept(item, row[..i], target, false)
    {
      KeptStep(item, row, i, source, target);
      if row[i].effect in path {
        continue;
      }
      var strength := item.strength * row[i].strength;
      var confidence := if row[i].confidence < item.confidence then row[i].confidence else item.confidence;
      var newPath := path + [row[i].effect];
      assert Item(newPath, strength, confidence) == Extended(item, row[i]);
      if row[i].effect == target {
        var pathway := Pathway(source, target, newPath, strength, confidence, |newPath| - 1);
        assert results + [pathway] == results0 + (Found(item, row[..i], source, target) + [pathway]);
        results := results + [pathway];
      } else {
        var next := Item(newPath, strength, confidence);
        assert queue + [next] == queue0 + (Kept(item, row[..i], target, false) + [next]);
        queue := queue + [next];
      }
    }
    assert row[..|row|] == row;
  }

  lemma NothingRemoved(adjacency: map<Variable, seq<Edge>>, side: Side, edges: Edges, owner: Variable, key: Variable)
    requires Holds(adjacency, side, edges) && Consistent(edges)
    requires (if side.Forward? then (owner, key) else (key, owner)) !in edges
    ensures EdgeRemoved(adjacency, adjacency, owner, key, side)
  {
    var row := Row(adjacency, owner);
    assert IsRow(edges, row, owner, side);
    forall k | 0 <= k < |row| ensures Key(row[k], side) != key {
      assert row[k] in row;
    }
  }

  lemma WithoutPair(edges: Edges, p: (Variable, Variable), variables: set<Variable>)
    requires Consistent(edges) && Nodes(edges.Keys) <= variables
    ensures Consistent(edges - {p}) && Nodes((edges - {p}).Keys) <= variables
  {
    assert Nodes((edges - {p}).Keys) <= Nodes(edges.Keys);
  }

  lemma NothingImported(edges: Edges)
    ensures Imported(edges, []) == edges
  {
  }

  // ----- The graph -----

  class Graph {
    var forward: map<Variable, seq<Edge>>
    var backward: map<Variable, seq<Edge>>
    var variables: set<Variable>
    ghost var edges: Edges

    /** Both adjacency maps hold exactly `edges`, and every endpoint is a known variable. */
    ghost predicate Valid()
      reads this
    {
      && Holds(forward, Forward, edges) && Holds(backward, Backward, edges)
      && Consistent(edges)
      && Nodes(edges.Keys) <= variables
    }

    constructor ()
      ensures Valid() && edges == map[] && variables == {} && forward == map[] && backward == map[]
    {
      forward, backward, variables, edges := map[], map[], {}, map[];
    }

    // ----- Edge management -----

    /** In the row of its cause and in that of its effect the edge takes the place of the one
        it replaces, or comes last; no other row changes. */
    method AddEdge(edge: Edge)
      requires Valid()
      modifies this
      ensures Valid() && edges == old(edges)[(edge.cause, edge.effect) := edge]
      ensures variables == old(variables) + {edge.cause, edge.effect}
      ensures EdgeAdded(old(forward), forward, edge, Forward) && EdgeAdded(old(backward), backward, edge, Backward)
      ensures forward == WithEdge(old(forward), edge, Forward) && backward == WithEdge(old(backward), edge, Backward)
    {
      hide Put, Inserted;
      HoldsAfterPut(forward, Forward, edges, edge);
      HoldsAfterPut(backward, Backward, edges, edge);
      WithEdgeAdds(forward, edge, Forward);
      WithEdgeAdds(backward, edge, Backward);
      forward := forward[edge.cause := Put(Row(forward, edge.cause), edge, Forward)];
      backward := backward[edge.effect := Put(Row(backward, edge.effect), edge, Backward)];
      variables := variables + {edge.cause, edge.effect};
      edges := edges[(edge.cause, edge.effect) := edge];
    }

    method RemoveEdge(cause: Variable, effect: Variable) returns (removed: bool)
      requires Valid()
      modifies this
      ensures Valid() && edges == old(edges) - {(cause, effect)} && variables == old(variables)
      ensures removed == ((cause, effect) in old(edges))
      ensures EdgeRemoved(old(forward), forward, cause, effect, Forward)
      ensures EdgeRemoved(old(backward), backward, effect, cause, Backward)
    {
      var row := Row(forward, cause);
      assert (cause, effect) in edges ==> edges[(cause, effect)] in row;
      removed := exists e :: e in row && e.effect == effect;
      hide Drop, Removed, DistinctKeys;
      if !removed {
        NothingRemoved(forward, Forward, edges, cause, effect);
        NothingRemoved(backward, Backward, edges, effect, cause);
        assert edges - {(cause, effect)} == edges;
        return;
      }
      assert cause in forward;
      HoldsAfterDrop(forward, Forward, edges, cause, effect);
      HoldsAfterDrop(backward, Backward, edges, cause, effect);
      WithoutEdgeRemoves(forward, cause, effect, Forward);
      WithoutEdgeRemoves(backward, effect, cause, Backward);
      WithoutPair(edges, (cause, effect), variables);
      hide Row, IsRow, Holds, Held, EdgeRemoved, Consistent, Nodes;
      forward := forward[cause := Drop(row, effect, Forward)];
      if effect in backward {
        backward := backward[effect := Drop(backward[effect], cause, Backward)];
      }
      edges := edges - {(cause, effect)};
    }

    method GetEdge(cause: Variable, effect: Variable) returns (edge: Option<Edge>)
      requires Valid()
      ensures edge == if (cause, effect) in edges then Some(edges[(cause, effect)]) else None
    {
      var row := Row(forward, cause);
      assert (cause, effect) in edges ==> edges[(cause, effect)] in row;
      for i := 0 to |row|
        invariant forall k :: 0 <= k < i ==> row[k].effect != effect
      {
        if row[i].effect == effect {
          assert row[i] in row;
          return Some(row[i]);
        }
      }
      return None;
    }

    method Clear()
      modifies this
      ensures Valid() && edges == map[] && variables == {} && forward == map[] && backward == map[]
    {
      forward, backward, variables, edges := map[], map[], {}, map[];
    }

    // ----- Export and import -----

    method ExportEdges() returns (records: seq<Record>)
      requires Valid()
      ensures IsExport(edges, records)
    {
      records := [];
      var causes := Rows(forward.Keys);
      for c := 0 to |causes|
        invariant IsExport(Below(edges, causes[..c], {}), records)
      {
        var row := forward[causes[c]];
        assert row == Row(forward, causes[c]);
        assert Below(edges, causes[..c], {}) == Below(edges, causes[..c], Elements(row[..0]));
        for i := 0 to |row|
          invariant IsExport(Below(edges, causes[..c], Elements(row[..i])), records)
        {
          ExportOne(edges, causes, c, row, i, records);
          records := records + [Encode(row[i])];
        }
        RowExported(edges, causes, c, row);
      }
      assert Below(edges, causes[..|causes|], {}) == edges by {
        assert causes[..|causes|] == causes;
        forall p | p in edges ensures p.0 in causes {
          assert edges[p] in Row(forward, p.0);
        }
      }
    }

    method ImportEdges(records: seq<Record>) returns (count: nat)
      requires Valid()
      modifies this
      ensures Valid() && edges == Imported(old(edges), records) && count == |Readable(records)|
      ensures forward == WithEdges(old(forward), Readable(records), Forward)
      ensures backward == WithEdges(old(backward), Readable(records), Backward)
    {
      hide Decode, Imported, WithEdge, Graph.Valid, EdgeAdded;
      count := 0;
      NothingImported(edges);
      for k := 0 to |records|
        invariant Valid() && edges == Imported(old(edges), records[..k]) && count == |Readable(records[..k])|
        invariant forward == WithEdges(old(forward), Readable(records[..k]), Forward)
        invariant backward == WithEdges(old(backward), Readable(records[..k]), Backward)
      {
        assert records[..k + 1][..k] == records[..k];
        ImportedOneMore(old(edges), records[..k + 1]);
        match Decode(records[k])
        case Some(e) =>
          AddEdge(e);
          count := count + 1;
        case None =>
      }
      assert records[..|records|] == records;
    }

    // ----- Ancestors -----

    /** The variables with a walk of at least one edge to v: v itself iff it lies on a cycle. */
    method FindAncestors(v: Variable) returns (ancestors: set<Variable>)
      requires Valid()
      ensures forall x :: x in ancestors <==> ReachPlus(edges.Keys, x, v)
    {
      ghost var E := edges.Keys;
      ancestors := {};
      var visited: set<Variable> := {};
      var queue := [v];
      ghost var nodes := variables + {v};
      ReachSelf(E, v);
      while |queue| > 0
        invariant forall x :: x in queue ==> x in nodes && Reach(E, x, v)
        invariant forall x :: x in ancestors ==> ReachPlus(E, x, v)
        invariant v in visited || v in queue
        invariant forall e :: e in E && e.1 in visited ==> e.0 in ancestors && (e.0 in visited || e.0 in queue)
        decreases nodes - visited, |queue|
      {
        var current := queue[0];
        ghost var popped := queue;
        queue := queue[1..];
        assert popped == [current] + queue;
        if current in visited {
          continue;
        }
        visited := visited + {current};
        var row := Row(backward, current);
        for i := 0 to |row|
          invariant forall x :: x in queue ==> x in nodes && Reach(E, x, v)
          invariant forall x :: x in ancestors ==> ReachPlus(E, x, v)
          invariant forall x :: x in popped ==> x == current || x in queue
          invariant forall e :: e in E && e.1 in visited && e.1 != current ==>
                      e.0 in ancestors && (e.0 in visited || e.0 in queue)
          invariant forall j :: 0 <= j < i ==> row[j].cause in ancestors && row[j].cause in queue
        {
          assert row[i] in row;
          EdgeThenReach(E, row[i].cause, current, v);
          ancestors := ancestors + {row[i].cause};
          queue := queue + [row[i].cause];
        }
        forall e | e in E && e.1 == current ensures e.0 in ancestors && e.0 in queue {
          assert edges[e] in row;
        }
      }
      forall x | ReachPlus(E, x, v) ensures x in ancestors {
        var y := ReachPlusFirst(E, x, v);
        forall e | e in E && e.1 in visited ensures e.0 in visited {
        }
        BackwardClosed(E, visited, y, v);
      }
    }

    /** Common ancestors of a and b other than a and b, in ascending order. */
    method FindConfounders(a: Variable, b: Variable) returns (common: seq<Variable>)
      requires Valid()
      ensures forall z :: z in common <==>
        z != a && z != b && ReachPlus(edges.Keys, z, a) && ReachPlus(edges.Keys, z, b)
      ensures forall i, j :: 0 <= i < j < |common| ==> Precedes(common[i], common[j])
    {
      var ancestorsA := FindAncestors(a);
      var ancestorsB := FindAncestors(b);
      common := Ascending(ancestorsA * ancestorsB - {a} - {b});
    }

    // ----- Paths -----

    method BfsPaths(source: Variable, target: Variable, maxLength: int) returns (results: seq<Pathway>)
      requires Valid() && source in variables
      ensures Enumerates(edges.Keys, source, target, maxLength, PathsOf(results))
      ensures forall r :: r in results ==> Faithful(edges, source, target, r)
    {
      ghost var E := edges.Keys;
      results := [];
      var queue := [Item([source], 1.0, 1.0)];
      // All queued paths have `level` nodes, up to index `now`, or one more.
      ghost var level: nat, now: nat := 1, 1;
      SearchStart(edges, source, target, maxLength);
      hide Searching, Found, Kept, Holds, Enumerates, Faithful;
      while |queue| > 0
        invariant Searching(edges, source, target, maxLength, results, queue, level, now)
        decreases |variables| + 1 - level, now
      {
        var item := queue[0];
        HeadItem(edges, source, target, maxLength, results, queue, level, now, variables);
        ghost var queue0, results0 := queue, results;
        queue := queue[1..];
        if |item.path| > maxLength + 1 {
          DiscardItem(edges, source, target, maxLength, results, queue0, level, now);
        } else {
          var row := Row(forward, Last(item.path));
          results, queue := Extend(item, row, source, target, results, queue);
          ExtendItem(edges, source, target, maxLength, results0, queue0, level, now, row);
        }
        now := now - 1;
        if now == 0 {
          level, now := level + 1, |queue|;
        }
      }
      SearchEnd(edges, source, target, maxLength, results, level, now);
    }

    method FindCausalPaths(source: Variable, target: Variable, maxLength: int) returns (results: seq<Pathway>)
      requires Valid()
      ensures Enumerates(edges.Keys, source, target, maxLength, PathsOf(results))
      ensures forall r :: r in results ==> Faithful(edges, source, target, r)
    {
      if source !in variables || target !in variables {
        NoPathOutside(edges.Keys, source, target, maxLength);
        return [];
      }
      results := BfsPaths(source, target, maxLength);
    }
  }
}
