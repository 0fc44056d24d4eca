/** Causal edges, the insertion-ordered rows that hold them, and their exported form. */
module CausalEdges {
  import opened Wrappers
  import opened Sequences

  type Variable = string

  datatype EdgeType = Causes | Prevents | Enables | Modulates

  datatype ConfidenceLevel = Observed | Inferred | Hypothesised

  datatype Edge = Edge(
    cause: Variable,
    effect: Variable,
    edgeType: EdgeType,
    strength: real,
    confidence: real,
    level: ConfidenceLevel,
    evidenceCount: int,
    createdAt: real,
    metadata: map<string, string>)

  type Edges = map<(Variable, Variable), Edge>

  // ----- Dictionaries in insertion order -----

  datatype Side = Forward | Backward

  /** The variable a row belongs to, and the variable that is the key within the row. */
  function Owner(e: Edge, side: Side): Variable {
    if side.Forward? then e.cause else e.effect
  }

  function Key(e: Edge, side: Side): Variable {
    if side.Forward? then e.effect else e.cause
  }

  function Row(adjacency: map<Variable, seq<Edge>>, v: Variable): seq<Edge> {
    if v in adjacency then adjacency[v] else []
  }

  /** Assigning to a dictionary key keeps the position of a key already there. */
  function Put(row: seq<Edge>, e: Edge, side: Side): seq<Edge> {
    if row == [] then [e]
    else if Key(row[0], side) == Key(e, side) then [e] + row[1..]
    else [row[0]] + Put(row[1..], e, side)
  }

  function Drop(row: seq<Edge>, key: Variable, side: Side): seq<Edge> {
    if row == [] then []
    else if Key(row[0], side) == key then row[1..]
    else [row[0]] + Drop(row[1..], key, side)
  }

  ghost predicate DistinctKeys(row: seq<Edge>, side: Side) {
    forall i, j :: 0 <= i < j < |row| ==> Key(row[i], side) != Key(row[j], side)
  }

  lemma {:induction false} PutRow(row: seq<Edge>, e: Edge, side: Side)
    requires DistinctKeys(row, side)
    ensures DistinctKeys(Put(row, e, side), side)
    ensures forall x :: x in Put(row, e, side) <==> x == e || (x in row && Key(x, side) != Key(e, side))
  {
    hide Key;
    if row == [] {
    } else {
      var rest := row[1..];
      assert row == [row[0]] + rest;
      if Key(row[0], side) == Key(e, side) {
        assert forall x :: x in rest ==> Key(x, side) != Key(e, side);
      } else {
        PutRow(rest, e, side);
        assert forall x :: x in rest ==> Key(x, side) != Key(row[0], side);
        var tail := Put(rest, e, side);
        assert forall j :: 0 <= j < |tail| ==> tail[j] in tail;
      }
    }
  }

  lemma {:induction false} DropRow(row: seq<Edge>, key: Variable, side: Side)
    requires DistinctKeys(row, side)
    ensures DistinctKeys(Drop(row, key, side), side)
    ensures forall x :: x in Drop(row, key, side) <==> x in row && Key(x, side) != key
  {
    hide Key;
    if row == [] {
    } else {
      var rest := row[1..];
      assert row == [row[0]] + rest;
      assert forall x :: x in rest ==> Key(x, side) != Key(row[0], side);
      if Key(row[0], side) != key {
        DropRow(rest, key, side);
        var tail := Drop(rest, key, side);
        assert forall j :: 0 <= j < |tail| ==> tail[j] in tail;
      }
    }
  }

  /** after is the row with e: in the place of the edge with the same key, or else at the end. */
  ghost predicate Inserted(row: seq<Edge>, after: seq<Edge>, e: Edge, side: Side) {
    if exists k :: 0 <= k < |row| && Key(row[k], side) == Key(e, side)
    then exists k :: 0 <= k < |row| && Key(row[k], side) == Key(e, side) && after == row[k := e]
    else after == row + [e]
  }

  /** after is the row without the edge of the given key, the others in the order they had. */
  ghost predicate Removed(row: seq<Edge>, after: seq<Edge>, key: Variable, side: Side) {
    if exists k :: 0 <= k < |row| && Key(row[k], side) == key
    then exists k :: 0 <= k < |row| && Key(row[k], side) == key && after == row[..k] + row[k + 1..]
    else after == row
  }

  lemma InsertedBelow(head: Edge, rest: seq<Edge>, after: seq<Edge>, e: Edge, side: Side)
    requires Inserted(rest, after, e, side) && Key(head, side) != Key(e, side)
    ensures Inserted([head] + rest, [head] + after, e, side)
  {
    hide Key;
    var row := [head] + rest;
    if exists k :: 0 <= k < |rest| && Key(rest[k], side) == Key(e, side) {
      var k :| 0 <= k < |rest| && Key(rest[k], side) == Key(e, side) && after == rest[k := e];
      var n := k + 1;
      assert row[n] == rest[k];
      assert [head] + after == row[n := e];
    } else {
      assert forall k :: 0 < k < |row| ==> row[k] == rest[k - 1];
      assert [head] + after == row + [e];
    }
  }

  lemma RemovedBelow(head: Edge, rest: seq<Edge>, after: seq<Edge>, key: Variable, side: Side)
    requires Removed(rest, after, key, side) && Key(head, side) != key
    ensures Removed([head] + rest, [head] + after, key, side)
  {
    hide Key;
    var row := [head] + rest;
    if exists k :: 0 <= k < |rest| && Key(rest[k], side) == key {
      var k :| 0 <= k < |rest| && Key(rest[k], side) == key && after == rest[..k] + rest[k + 1..];
      var n := k + 1;
      assert row[n] == rest[k];
      assert row[..n] == [head] + rest[..k] && row[n + 1..] == rest[k + 1..];
      assert [head] + after == row[..n] + row[n + 1..];
    } else {
      assert forall k :: 0 < k < |row| ==> row[k] == rest[k - 1];
    }
  }

  lemma {:induction false} PutInserts(row: seq<Edge>, e: Edge, side: Side)
    ensures Inserted(row, Put(row, e, side), e, side)
  {
    if row == [] {
    } else {
      assert row == [row[0]] + row[1..];
      if Key(row[0], side) == Key(e, side) {
        assert row[0 := e] == [e] + row[1..];
      } else {
        PutInserts(row[1..], e, side);
        InsertedBelow(row[0], row[1..], Put(row[1..], e, side), e, side);
      }
    }
  }

  lemma {:induction false} DropRemoves(row: seq<Edge>, key: Variable, side: Side)
    ensures Removed(row, Drop(row, key, side), key, side)
  {
    if row == [] {
    } else {
      assert row == [row[0]] + row[1..];
      if Key(row[0], side) == key {
        assert row[..0] + row[0 + 1..] == row[1..];
      } else {
        DropRemoves(row[1..], key, side);
        RemovedBelow(row[0], row[1..], Drop(row[1..], key, side), key, side);
      }
    }
  }

  ghost predicate Held(edges: Edges, e: Edge) {
    (e.cause, e.effect) in edges && edges[(e.cause, e.effect)] == e
  }

  ghost predicate Consistent(edges: Edges) {
    forall p :: p in edges ==> edges[p].cause == p.0 && edges[p].effect == p.1
  }

  /** The row of v holds each edge at v once. */
  ghost predicate IsRow(edges: Edges, row: seq<Edge>, v: Variable, side: Side) {
    && DistinctKeys(row, side)
    && forall e :: e in row <==> Held(edges, e) && Owner(e, side) == v
  }

  /** Every row of an adjacency map holds the edges of its owner. */
  ghost predicate Holds(adjacency: map<Variable, seq<Edge>>, side: Side, edges: Edges) {
    forall v :: IsRow(edges, Row(adjacency, v), v, side)
  }

  lemma RowAfterPut(edges: Edges, row: seq<Edge>, v: Variable, side: Side, e: Edge)
    requires IsRow(edges, row, v, side)
    ensures IsRow(edges[(e.cause, e.effect) := e], if v == Owner(e, side) then Put(row, e, side) else row, v, side)
  {
    PutRow(row, e, side);
    hide DistinctKeys, Put;
  }

  lemma HoldsAfterPut(adjacency: map<Variable, seq<Edge>>, side: Side, edges: Edges, e: Edge)
    requires Holds(adjacency, side, edges)
    ensures Holds(adjacency[Owner(e, side) := Put(Row(adjacency, Owner(e, side)), e, side)], side,
                  edges[(e.cause, e.effect) := e])
  {
    var after := adjacency[Owner(e, side) := Put(Row(adjacency, Owner(e, side)), e, side)];
    forall v ensures IsRow(edges[(e.cause, e.effect) := e], Row(after, v), v, side) {
      RowAfterPut(edges, Row(adjacency, v), v, side, e);
      hide IsRow, Put;
    }
  }

  lemma HoldsAfterDrop(adjacency: map<Variable, seq<Edge>>, side: Side, edges: Edges, cause: Variable, effect: Variable)
    requires Holds(adjacency, side, edges)
    ensures var v, key := if side.Forward? then cause else effect, if side.Forward? then effect else cause;
      Holds(if v in adjacency then adjacency[v := Drop(adjacency[v], key, side)] else adjacency, side,
            edges - {(cause, effect)})
  {
    var u, key := if side.Forward? then cause else effect, if side.Forward? then effect else cause;
    var after := if u in adjacency then adjacency[u := Drop(adjacency[u], key, side)] else adjacency;
    forall v ensures IsRow(edges - {(cause, effect)}, Row(after, v), v, side) {
      DropRow(Row(adjacency, v), key, side);
    }
  }

  // ----- The order of rows -----

  /** after is adjacency with e inserted into the row of its owner, and no other row changed. */
  ghost predicate EdgeAdded(adjacency: map<Variable, seq<Edge>>, after: map<Variable, seq<Edge>>, e: Edge, side: Side) {
    forall v ::
      if v == Owner(e, side) then Inserted(Row(adjacency, v), Row(after, v), e, side)
      else Row(after, v) == Row(adjacency, v)
  }

  ghost predicate EdgeRemoved(adjacency: map<Variable, seq<Edge>>, after: map<Variable, seq<Edge>>, owner: Variable,
                              key: Variable, side: Side) {
    forall v ::
      if v == owner then Removed(Row(adjacency, v), Row(after, v), key, side)
      else Row(after, v) == Row(adjacency, v)
  }

  function WithEdge(adjacency: map<Variable, seq<Edge>>, e: Edge, side: Side): map<Variable, seq<Edge>> {
    adjacency[Owner(e, side) := Put(Row(adjacency, Owner(e, side)), e, side)]
  }

  function WithoutEdge(adjacency: map<Variable, seq<Edge>>, owner: Variable, key: Variable,
                       side: Side): map<Variable, seq<Edge>>
  {
    if owner in adjacency then adjacency[owner := Drop(adjacency[owner], key, side)] else adjacency
  }

  lemma WithEdgeAdds(adjacency: map<Variable, seq<Edge>>, e: Edge, side: Side)
    ensures EdgeAdded(adjacency, WithEdge(adjacency, e, side), e, side)
  {
    PutInserts(Row(adjacency, Owner(e, side)), e, side);
  }

  lemma WithoutEdgeRemoves(adjacency: map<Variable, seq<Edge>>, owner: Variable, key: Variable, side: Side)
    ensures EdgeRemoved(adjacency, WithoutEdge(adjacency, owner, key, side), owner, key, side)
  {
    DropRemoves(Row(adjacency, owner), key, side);
  }

  /** What adding the edges one after the other makes of adjacency. */
  function WithEdges(adjacency: map<Variable, seq<Edge>>, adds: seq<Edge>, side: Side): map<Variable, seq<Edge>> {
    if adds == [] then adjacency
    else WithEdge(WithEdges(adjacency, adds[..|adds| - 1], side), adds[|adds| - 1], side)
  }

  predicate Between(e: Edge, owner: Variable, key: Variable, side: Side) {
    Owner(e, side) == owner && Key(e, side) == key
  }

  /** When an edge between the two was first added: its number, or |adds| if none was. */
  function FirstAdd(adds: seq<Edge>, owner: Variable, key: Variable, side: Side): (k: nat)
    ensures k <= |adds|
  {
    if adds == [] then 0
    else
      var n := |adds| - 1;
      var k := FirstAdd(adds[..n], owner, key, side);
      if k < n || Between(adds[n], owner, key, side) then k else n + 1
  }

  lemma {:induction false} FirstAddIsFirst(adds: seq<Edge>, owner: Variable, key: Variable, side: Side)
    ensures var k := FirstAdd(adds, owner, key, side);
      && (k < |adds| ==> Between(adds[k], owner, key, side))
      && forall j :: 0 <= j < k ==> !Between(adds[j], owner, key, side)
  {
    if adds == [] {
    } else {
      FirstAddIsFirst(adds[..|adds| - 1], owner, key, side);
    }
  }

  function KeysOf(row: seq<Edge>, side: Side): (keys: seq<Variable>)
    ensures |keys| == |row| && forall i :: 0 <= i < |row| ==> keys[i] == Key(row[i], side)
  {
    seq(|row|, i requires 0 <= i < |row| => Key(row[i], side))
  }

  /** The keys are those added for the owner, in the order in which they were first added. */
  ghost predicate ByFirstAdd(adds: seq<Edge>, keys: seq<Variable>, owner: Variable, side: Side) {
    && (forall key :: key in keys <==> FirstAdd(adds, owner, key, side) < |adds|)
    && (forall i, j :: 0 <= i < j < |keys| ==>
          FirstAdd(adds, owner, keys[i], side) < FirstAdd(adds, owner, keys[j], side))
  }

  lemma FirstAddGrows(adds: seq<Edge>, x: Edge, owner: Variable, key: Variable, side: Side)
    ensures FirstAdd(adds + [x], owner, key, side) ==
      var k := FirstAdd(adds, owner, key, side);
      if k < |adds| || Between(x, owner, key, side) then k else |adds| + 1
  {
    assert (adds + [x])[..|adds|] == adds;
  }

  lemma OrderGrows(adds: seq<Edge>, x: Edge, keys: seq<Variable>, owner: Variable, side: Side)
    requires ByFirstAdd(adds, keys, owner, side)
    ensures var key := Key(x, side);
      ByFirstAdd(adds + [x], if Owner(x, side) == owner && key !in keys then keys + [key] else keys, owner, side)
  {
    forall key ensures FirstAdd(adds + [x], owner, key, side) ==
      var k := FirstAdd(adds, owner, key, side);
      if k < |adds| || (Owner(x, side) == owner && Key(x, side) == key) then k else |adds| + 1 {
      FirstAddGrows(adds, x, owner, key, side);
    }
    hide FirstAdd, Key, Owner;
  }

  lemma KeysAfterInsert(row: seq<Edge>, after: seq<Edge>, e: Edge, side: Side)
    requires Inserted(row, after, e, side)
    ensures var keys, key := KeysOf(row, side), Key(e, side);
      KeysOf(after, side) == if key in keys then keys else keys + [key]
  {
    hide Key;
    var keys := KeysOf(row, side);
    if exists k :: 0 <= k < |row| && Key(row[k], side) == Key(e, side) {
      var k :| 0 <= k < |row| && Key(row[k], side) == Key(e, side) && after == row[k := e];
      assert keys[k] == Key(e, side);
    } else {
      assert forall i :: 0 <= i < |row| ==> keys[i] == Key(row[i], side);
    }
  }

  lemma RowOrderGrows(adds: seq<Edge>, x: Edge, before: map<Variable, seq<Edge>>, side: Side, owner: Variable)
    requires ByFirstAdd(adds, KeysOf(Row(before, owner), side), owner, side)
    ensures ByFirstAdd(adds + [x], KeysOf(Row(WithEdge(before, x, side), owner), side), owner, side)
  {
    WithEdgeAdds(before, x, side);
    hide ByFirstAdd, Inserted, WithEdge, Row, Owner, KeysOf, Key;
    OrderGrows(adds, x, KeysOf(Row(before, owner), side), owner, side);
    if owner == Owner(x, side) {
      KeysAfterInsert(Row(before, owner), Row(WithEdge(before, x, side), owner), x, side);
    }
  }

  /** Adding edges one after the other to an empty graph fills every row in the order in which
      its edges were first added, and replacing an edge does not move it. */
  lemma {:induction false} BuiltInOrder(adds: seq<Edge>, side: Side, owner: Variable)
    ensures ByFirstAdd(adds, KeysOf(Row(WithEdges(map[], adds, side), owner), side), owner, side)
  {
    if adds == [] {
    } else {
      var rest, x := adds[..|adds| - 1], adds[|adds| - 1];
      var before := WithEdges(map[], rest, side);
      assert WithEdges(map[], adds, side) == WithEdge(before, x, side) && rest + [x] == adds;
      hide *;
      BuiltInOrder(rest, side, owner);
      RowOrderGrows(rest, x, before, side, owner);
    }
  }

  // ----- Export and import -----

  /** An exported edge: every field may be missing on import; metadata is not exported. */
  datatype Record = Record(
    cause: Option<string>,
    effect: Option<string>,
    edgeType: Option<string>,
    strength: Option<real>,
    confidence: Option<real>,
    level: Option<string>,
    evidenceCount: Option<int>,
    createdAt: Option<real>)

  function EdgeTypeValue(t: EdgeType): string {
    match t case Causes => "causes" case Prevents => "prevents" case Enables => "enables" case Modulates => "modulates"
  }

  function ParseEdgeType(s: string): Option<EdgeType> {
    if s == "causes" then Some(Causes) else if s == "prevents" then Some(Prevents)
    else if s == "enables" then Some(Enables) else if s == "modulates" then Some(Modulates)
    else None
  }

  function LevelValue(l: ConfidenceLevel): string {
    match l case Observed => "observed" case Inferred => "inferred" case Hypothesised => "hypothesised"
  }

  function ParseLevel(s: string): Option<ConfidenceLevel> {
    if s == "observed" then Some(Observed) else if s == "inferred" then Some(Inferred)
    else if s == "hypothesised" then Some(Hypothesised)
    else None
  }

  function Encode(e: Edge): Record {
    Record(Some(e.cause), Some(e.effect), Some(EdgeTypeValue(e.edgeType)), Some(e.strength), Some(e.confidence),
           Some(LevelValue(e.level)), Some(e.evidenceCount), Some(e.createdAt))
  }

  function OrElse<T>(o: Option<T>, default: T): T {
    match o case Some(v) => v case None => default
  }

  /** None stands for the KeyError or ValueError that makes import_edges skip a record. */
  function Decode(r: Record): Option<Edge> {
    if r.cause.None? || r.effect.None? || r.edgeType.None? || r.strength.None? || r.confidence.None? then None
    else
      var t := ParseEdgeType(r.edgeType.value);
      var l := ParseLevel(OrElse(r.level, "hypothesised"));
      if t.None? || l.None? then None
      else Some(Edge(r.cause.value, r.effect.value, t.value, r.strength.value, r.confidence.value, l.value,
                     OrElse(r.evidenceCount, 0), OrElse(r.createdAt, 0.0), map[]))
  }

  lemma DecodeEncode(e: Edge)
    ensures Decode(Encode(e)) == Some(e.(metadata := map[]))
  {
  }

  lemma DecodeFields(r: Record)
    ensures Decode(r).Some? <==>
      && r.cause.Some? && r.effect.Some? && r.strength.Some? && r.confidence.Some?
      && r.edgeType.Some? && r.edgeType.value in {"causes", "prevents", "enables", "modulates"}
      && (r.level.None? || r.level.value in {"observed", "inferred", "hypothesised"})
    ensures Decode(r).Some? ==>
      var e := Decode(r).value;
      && Some(e.cause) == r.cause && Some(e.effect) == r.effect
      && Some(e.strength) == r.strength && Some(e.confidence) == r.confidence
      && (e.edgeType.Causes? <==> r.edgeType == Some("causes"))
      && (e.edgeType.Prevents? <==> r.edgeType == Some("prevents"))
      && (e.edgeType.Enables? <==> r.edgeType == Some("enables"))
      && (e.edgeType.Modulates? <==> r.edgeType == Some("modulates"))
      && (e.level.Observed? <==> r.level == Some("observed"))
      && (e.level.Inferred? <==> r.level == Some("inferred"))
      && (e.level.Hypothesised? <==> r.level.None? || r.level == Some("hypothesised"))
      && (r.evidenceCount.None? ==> e.evidenceCount == 0)
      && (r.evidenceCount.Some? ==> r.evidenceCount == Some(e.evidenceCount))
      && (r.createdAt.None? ==> e.createdAt == 0.0) && (r.createdAt.Some? ==> r.createdAt == Some(e.createdAt))
      && e.metadata == map[]
  {
  }

  /** The edges of the records that can be read, in order. */
  function Readable(records: seq<Record>): seq<Edge> {
    if records == [] then []
    else
      var e := Decode(records[|records| - 1]);
      Readable(records[..|records| - 1]) + if e.Some? then [e.value] else []
  }

  lemma {:induction false} ReadableIsFiltered(records: seq<Record>)
    ensures var kept := Filter(records, (r: Record) => Decode(r).Some?);
      |Readable(records)| == |kept| && forall k :: 0 <= k < |kept| ==> Decode(kept[k]) == Some(Readable(records)[k])
  {
    hide Decode;
    if records == [] {
    } else {
      ReadableIsFiltered(records[..|records| - 1]);
    }
  }

  /** None of them is lost, and unreadable ones are skipped. */
  lemma ReadableInOrder(records: seq<Record>) returns (pos: seq<nat>)
    ensures Lists(pos, records, (r: Record) => Decode(r).Some?) && |Readable(records)| == |pos|
    ensures forall k :: 0 <= k < |pos| ==> pos[k] < |records| && Decode(records[pos[k]]) == Some(Readable(records)[k])
  {
    hide Decode;
    ReadableIsFiltered(records);
    pos := FilterInOrder(records, (r: Record) => Decode(r).Some?);
  }

  /** The edges held after adding the given ones, one after the other. */
  function Latest(edges: Edges, adds: seq<Edge>): Edges {
    if adds == [] then edges
    else
      var e := adds[|adds| - 1];
      Latest(edges, adds[..|adds| - 1])[(e.cause, e.effect) := e]
  }

  /** Of several edges with the same ends the last one is held. */
  lemma {:induction false} LatestIsLast(edges: Edges, adds: seq<Edge>, k: nat)
    requires k < |adds|
    requires forall j :: k < j < |adds| ==> adds[j].cause != adds[k].cause || adds[j].effect != adds[k].effect
    ensures Held(Latest(edges, adds), adds[k])
  {
    if k == |adds| - 1 {
    } else {
      LatestIsLast(edges, adds[..|adds| - 1], k);
      assert adds[|adds| - 1].cause != adds[k].cause || adds[|adds| - 1].effect != adds[k].effect;
    }
  }

  lemma {:induction false} LatestKeeps(edges: Edges, adds: seq<Edge>, p: (Variable, Variable))
    requires forall j :: 0 <= j < |adds| ==> (adds[j].cause, adds[j].effect) != p
    ensures p in Latest(edges, adds) <==> p in edges
    ensures p in edges ==> Latest(edges, adds)[p] == edges[p]
  {
    if adds == [] {
    } else {
      LatestKeeps(edges, adds[..|adds| - 1], p);
      assert (adds[|adds| - 1].cause, adds[|adds| - 1].effect) != p;
    }
  }

  /** A graph built by adding edges holds, in both directions, the last edge of each pair. */
  lemma {:induction false} BuiltHolds(adds: seq<Edge>, side: Side)
    ensures Holds(WithEdges(map[], adds, side), side, Latest(map[], adds)) && Consistent(Latest(map[], adds))
  {
    if adds == [] {
    } else {
      hide Holds, Put;
      BuiltHolds(adds[..|adds| - 1], side);
      HoldsAfterPut(WithEdges(map[], adds[..|adds| - 1], side), side, Latest(map[], adds[..|adds| - 1]),
                    adds[|adds| - 1]);
    }
  }

  /** What importing a list of records makes of the edges held before. */
  function Imported(edges: Edges, records: seq<Record>): Edges {
    Latest(edges, Readable(records))
  }

  lemma ImportedOneMore(edges: Edges, records: seq<Record>)
    requires records != []
    ensures var before, r := records[..|records| - 1], records[|records| - 1];
      match Decode(r)
      case Some(e) =>
        && Readable(records) == Readable(before) + [e]
        && Imported(edges, records) == Imported(edges, before)[(e.cause, e.effect) := e]
      case None => Readable(records) == Readable(before) && Imported(edges, records) == Imported(edges, before)
  {
    hide Decode;
    var before, r := records[..|records| - 1], records[|records| - 1];
    if Decode(r).Some? {
      var adds := Readable(records);
      assert adds[..|adds| - 1] == Readable(before);
    }
  }

  /** One record per edge, in some order. */
  ghost predicate IsExport(edges: Edges, records: seq<Record>) {
    && (forall i, j :: 0 <= i < j < |records| ==>
          records[i].cause != records[j].cause || records[i].effect != records[j].effect)
    && (forall r :: r in records <==> exists e :: Held(edges, e) && r == Encode(e))
  }

  /** The edges whose records are among those read, without their metadata. */
  ghost predicate Restored(edges: Edges, imported: Edges, records: seq<Record>) {
    && (forall p :: p in imported <==> p in edges && Encode(edges[p]) in records)
    && (forall p :: p in imported ==> imported[p] == edges[p].(metadata := map[]))
  }

  lemma RestoredOneMore(edges: Edges, imported: Edges, records: seq<Record>, e: Edge)
    requires Consistent(edges) && Held(edges, e) && Restored(edges, imported, records)
    ensures Restored(edges, imported[(e.cause, e.effect) := e.(metadata := map[])], records + [Encode(e)])
  {
    forall p | p in edges && Encode(edges[p]) == Encode(e) ensures p == (e.cause, e.effect) {
    }
    hide Encode;
  }

  lemma RestoredStep(edges: Edges, records: seq<Record>, k: nat)
    requires 0 < k <= |records| && Consistent(edges) && IsExport(edges, records)
    requires records[..k][..k - 1] == records[..k - 1]
    requires Restored(edges, Imported(map[], records[..k - 1]), records[..k - 1])
    ensures Restored(edges, Imported(map[], records[..k]), records[..k - 1] + [records[k - 1]])
  {
    assert records[k - 1] in records;
    var e :| Held(edges, e) && records[k - 1] == Encode(e);
    hide *;
    DecodeEncode(e);
    ImportedOneMore(map[], records[..k]);
    RestoredOneMore(edges, Imported(map[], records[..k - 1]), records[..k - 1], e);
  }

  lemma {:induction false} ImportedPrefix(edges: Edges, records: seq<Record>, k: nat)
    requires k <= |records| && Consistent(edges) && IsExport(edges, records)
    ensures Restored(edges, Imported(map[], records[..k]), records[..k])
  {
    if k == 0 {
    } else {
      ImportedPrefix(edges, records, k - 1);
      hide Restored;
      assert records[..k][..k - 1] == records[..k - 1] && records[..k] == records[..k - 1] + [records[k - 1]];
      RestoredStep(edges, records, k);
    }
  }

  /** Importing an export into an empty graph restores every edge except its metadata. */
  lemma ExportImportRoundTrip(edges: Edges, records: seq<Record>)
    requires Consistent(edges) && IsExport(edges, records)
    ensures Imported(map[], records) == map p | p in edges :: edges[p].(metadata := map[])
  {
    assert records[..|records|] == records;
    ImportedPrefix(edges, records, |records|);
    forall p | p in edges ensures Encode(edges[p]) in records {
      assert Held(edges, edges[p]);
    }
  }
}
