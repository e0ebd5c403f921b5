/** Runs of operations on a store, and the same operations on the tables alone. */
module GraphRuns {
  import opened Transducer
  import opened Bitmaps
  import opened Indices
  import opened EdgeSlabs
  import opened GraphTables
  import opened GraphStore

  /** The tables of vertices and edges, and the identifiers in the order of their indices. */
  datatype Database<T> = Database(vertexRows: map<Uuid, VertexRow<T>>, edgeRows: EdgeTable, ids: seq<Uuid>)

  datatype Op<T> =
    | PutVertex(id: Uuid, value: T, weight: int, attributes: map<string, string>)
    | ChangeVertex(id: Uuid, value: T, weight: int, attributes: map<string, string>)
    | DropVertex(id: Uuid)
    | PutEdge(source: Uuid, target: Uuid, edge: Edge)
    | ChangeEdge(source: Uuid, target: Uuid, edge: Edge)
    | DropEdge(source: Uuid, target: Uuid)
    | AskVertex(id: Uuid)
    | AskEdge(source: Uuid, target: Uuid)
    | AskEdgeCount

  datatype Outcome<T> =
    | Done(error: StoreError)
    | GotVertex(row: Option<VertexRow<T>>)
    | GotEdge(weight: int, data: Option<string>)
    | NoEdge
    | Counted(n: int)

  function Registered(ids: seq<Uuid>, id: Uuid): seq<Uuid> {
    if id in ids then ids else ids + [id]
  }

  /** One operation on the tables: there is no cache, no slab and no index here but the registry's own order. */
  function Step<T>(d: Database<T>, op: Op<T>): (Database<T>, Outcome<T>) {
    match op
    case PutVertex(id, value, weight, _) =>
      var known := d.(ids := Registered(d.ids, id));
      if id in d.vertexRows then (known, Done(VertexAlreadyExists))
      else (known.(vertexRows := d.vertexRows[id := VertexRow(value, weight)]), Done(Ok))
    case ChangeVertex(id, value, weight, _) =>
      if id !in d.vertexRows then (d, Done(VertexNotFound))
      else (d.(vertexRows := d.vertexRows[id := VertexRow(value, weight)]), Done(Ok))
    case DropVertex(id) =>
      if id !in d.vertexRows then (d, Done(VertexNotFound))
      else if exists e :: e in d.edgeRows && (e.0 == id || e.1 == id) then (d, Done(VertexHasEdges))
      else (d.(vertexRows := d.vertexRows - {id}), Done(Ok))
    case PutEdge(source, target, edge) =>
      if source !in d.vertexRows || target !in d.vertexRows then (d, Done(VertexNotFound))
      else if Canonical(source, target) in d.edgeRows then (d, Done(EdgeAlreadyExists))
      else (d.(edgeRows := d.edgeRows[Canonical(source, target) := RowOf(edge)]), Done(Ok))
    case ChangeEdge(source, target, edge) =>
      if source !in d.ids || target !in d.ids then (d, Done(VertexNotFound))
      else if Canonical(source, target) !in d.edgeRows then (d, Done(EdgeNotFound))
      else (d.(edgeRows := d.edgeRows[Canonical(source, target) := RowOf(edge)]), Done(Ok))
    case DropEdge(source, target) =>
      if Canonical(source, target) !in d.edgeRows then (d, Done(EdgeNotFound))
      else (d.(edgeRows := d.edgeRows - {Canonical(source, target)}), Done(Ok))
    case AskVertex(id) =>
      (d, GotVertex(if id in d.vertexRows then Some(d.vertexRows[id]) else None))
    case AskEdge(source, target) =>
      if Canonical(source, target) !in d.edgeRows then (d, NoEdge)
      else var row := d.edgeRows[Canonical(source, target)]; (d, GotEdge(row.weight, row.data))
    case AskEdgeCount => (d, Counted(|d.edgeRows|))
  }

  /** All operations on the tables alone. */
  function Replay<T>(d: Database<T>, ops: seq<Op<T>>): (r: (Database<T>, seq<Outcome<T>>))
    ensures |r.1| == |ops|
  {
    if ops == [] then (d, [])
    else
      var before := Replay(d, ops[..|ops| - 1]);
      var last := Step(before.0, ops[|ops| - 1]);
      (last.0, before.1 + [last.1])
  }

  /** The tables of a store. */
  ghost function DatabaseOf<T(!new)>(s: SQLiteStore<T>): Database<T>
    reads s, s.registry
  {
    Database(s.vertexRows, s.edgeRows, s.registry.idxToUUID)
  }

  /** Places left for n more operations. */
  ghost predicate Room<T(!new)>(s: SQLiteStore<T>, n: nat)
    reads s, s.registry, s.slab
  {
    |s.edgeRows| + n < U32_LIMIT && |s.slab.edges| + n < U32_LIMIT && |s.registry.idxToUUID| + n <= U32_LIMIT
  }

  lemma CachedAreRows<T(!new)>(s: SQLiteStore<T>)
    requires s.Valid()
    ensures s.registry.Valid() && s.slab.Valid() && s.vertices.Keys <= s.vertexRows.Keys
  {
  }

  lemma RegistryIds(registry: IndexRegistry, id: Uuid)
    requires registry.Valid()
    ensures id in registry.uuidToIdx <==> id in registry.idxToUUID
  {
    if id in registry.uuidToIdx { assert registry.idxToUUID[registry.uuidToIdx[id]] == id; }
  }

  lemma RowCount(rows: EdgeTable, e: (Uuid, Uuid), row: EdgeRow)
    ensures |rows[e := row]| <= |rows| + 1 && |rows - {e}| <= |rows|
  {
    assert rows[e := row].Keys == rows.Keys + {e};
    assert (rows - {e}).Keys == rows.Keys - {e};
  }

  lemma MentionedBy(rows: EdgeTable, id: Uuid)
    ensures !Unmentioned(rows, id) <==> exists e :: e in rows && (e.0 == id || e.1 == id)
  {
  }

  method PutVertexOn<T(!new)>(s: SQLiteStore<T>, id: Uuid, value: T, weight: int, attributes: map<string, string>,
    ghost room: nat)
    returns (out: Outcome<T>)
    requires s.Valid() && Room(s, room) && room > 0
    modifies s, s.slab, s.registry
    ensures s.Valid() && Room(s, room - 1) && (s.slab == old(s.slab) || fresh(s.slab))
    ensures (DatabaseOf(s), out) == Step(old(DatabaseOf(s)), PutVertex(id, value, weight, attributes))
  {
    hide Canonical, RowsOk, SlabOk, AdjacencyOk, SameVertices, RowOf, Unmentioned, SQLiteStore.Tables,
      SQLiteStore.EdgesWarm, IndexRegistry.Valid, EdgeSlab.Valid;
    ghost var ids := s.registry.idxToUUID;
    CachedAreRows(s);
    RegistryIds(s.registry, id);
    var e := s.AddVertex(id, value, weight, attributes);
    assert s.registry.idxToUUID == Registered(ids, id);
    return Done(e);
  }

  method ChangeVertexOn<T(!new)>(s: SQLiteStore<T>, id: Uuid, value: T, weight: int, attributes: map<string, string>,
    ghost room: nat)
    returns (out: Outcome<T>)
    requires s.Ready() && Room(s, room) && room > 0
    modifies s, s.slab, s.registry
    ensures s.Valid() && Room(s, room - 1) && (s.slab == old(s.slab) || fresh(s.slab))
    ensures (DatabaseOf(s), out) == Step(old(DatabaseOf(s)), ChangeVertex(id, value, weight, attributes))
  {
    hide Canonical, RowsOk, SlabOk, AdjacencyOk, SameVertices, RowOf, Unmentioned;
    var e := s.UpdateVertex(id, value, weight, attributes);
    return Done(e);
  }

  method DropVertexOn<T(!new)>(s: SQLiteStore<T>, id: Uuid, ghost room: nat)
    returns (out: Outcome<T>)
    requires s.Ready() && Room(s, room) && room > 0
    modifies s, s.slab, s.registry
    ensures s.Valid() && Room(s, room - 1) && (s.slab == old(s.slab) || fresh(s.slab))
    ensures (DatabaseOf(s), out) == Step(old(DatabaseOf(s)), DropVertex(id))
  {
    hide Canonical, RowsOk, SlabOk, AdjacencyOk, SameVertices, RowOf, Unmentioned;
    MentionedBy(s.edgeRows, id);
    var e := s.RemoveVertex(id);
    return Done(e);
  }

  method PutEdgeOn<T(!new)>(s: SQLiteStore<T>, source: Uuid, target: Uuid, edge: Edge, ghost room: nat)
    returns (out: Outcome<T>)
    requires s.Ready() && Room(s, room) && room > 0
    modifies s, s.slab, s.registry
    ensures s.Valid() && Room(s, room - 1) && (s.slab == old(s.slab) || fresh(s.slab))
    ensures (DatabaseOf(s), out) == Step(old(DatabaseOf(s)), PutEdge(source, target, edge))
  {
    hide Canonical, RowsOk, SlabOk, AdjacencyOk, SameVertices, RowOf, Unmentioned;
    RowCount(s.edgeRows, Canonical(source, target), RowOf(edge));
    var e := s.AddEdge(source, target, edge);
    return Done(e);
  }

  method ChangeEdgeOn<T(!new)>(s: SQLiteStore<T>, source: Uuid, target: Uuid, edge: Edge, ghost room: nat)
    returns (out: Outcome<T>)
    requires s.Ready() && Room(s, room) && room > 0
    modifies s, s.slab, s.registry
    ensures s.Valid() && Room(s, room - 1) && (s.slab == old(s.slab) || fresh(s.slab))
    ensures (DatabaseOf(s), out) == Step(old(DatabaseOf(s)), ChangeEdge(source, target, edge))
  {
    hide Canonical, RowsOk, SlabOk, AdjacencyOk, SameVertices, RowOf, Unmentioned;
    RowCount(s.edgeRows, Canonical(source, target), RowOf(edge));
    RegistryIds(s.registry, source);
    RegistryIds(s.registry, target);
    var e := s.UpdateEdge(source, target, edge);
    return Done(e);
  }

  method DropEdgeOn<T(!new)>(s: SQLiteStore<T>, source: Uuid, target: Uuid, ghost room: nat)
    returns (out: Outcome<T>)
    requires s.Ready() && Room(s, room) && room > 0
    modifies s, s.slab, s.registry
    ensures s.Valid() && Room(s, room - 1) && (s.slab == old(s.slab) || fresh(s.slab))
    ensures (DatabaseOf(s), out) == Step(old(DatabaseOf(s)), DropEdge(source, target))
  {
    hide Canonical, RowsOk, SlabOk, AdjacencyOk, SameVertices, RowOf, Unmentioned;
    RowCount(s.edgeRows, Canonical(source, target), EdgeRow(0, None, ""));
    var e := s.RemoveEdge(source, target);
    return Done(e);
  }

  /** The cache as a question finds it: loaded, and nothing else has changed. */
  method Warm<T(!new)>(s: SQLiteStore<T>, ghost room: nat)
    requires s.Ready() && Room(s, room) && room > 0
    modifies s
    ensures s.Valid() && Room(s, room - 1) && (s.slab == old(s.slab) || fresh(s.slab))
    ensures DatabaseOf(s) == old(DatabaseOf(s))
  {
    hide SQLiteStore.Valid;
    CountsFit(s);
    s.WarmCache();
  }

  lemma CountsFit<T(!new)>(s: SQLiteStore<T>)
    requires s.Ready()
    ensures s.Tables() && |s.edgeRows| < U32_LIMIT
  {
  }

  method AskVertexOn<T(!new)>(s: SQLiteStore<T>, id: Uuid, ghost room: nat)
    returns (out: Outcome<T>)
    requires s.Ready() && Room(s, room) && room > 0
    modifies s, s.slab, s.registry
    ensures s.Valid() && Room(s, room - 1) && (s.slab == old(s.slab) || fresh(s.slab))
    ensures (DatabaseOf(s), out) == Step(old(DatabaseOf(s)), AskVertex(id))
  {
    hide Canonical, SQLiteStore.Valid, SQLiteStore.Ready, Room;
    Warm(s, room);
    var r := s.Vertex(id);
    return GotVertex(if r == None then None else Some(VertexRow(r.value.value, r.value.weight)));
  }

  method AskEdgeOn<T(!new)>(s: SQLiteStore<T>, source: Uuid, target: Uuid, ghost room: nat)
    returns (out: Outcome<T>)
    requires s.Ready() && Room(s, room) && room > 0
    modifies s, s.slab, s.registry
    ensures s.Valid() && Room(s, room - 1) && (s.slab == old(s.slab) || fresh(s.slab))
    ensures (DatabaseOf(s), out) == Step(old(DatabaseOf(s)), AskEdge(source, target))
  {
    hide Canonical, SQLiteStore.Valid, SQLiteStore.Ready, Room;
    Warm(s, room);
    var r := s.GetEdge(source, target);
    return if r == None then NoEdge else GotEdge(r.value.weight, r.value.data);
  }

  method AskEdgeCountOn<T(!new)>(s: SQLiteStore<T>, ghost room: nat)
    returns (out: Outcome<T>)
    requires s.Ready() && Room(s, room) && room > 0
    modifies s, s.slab, s.registry
    ensures s.Valid() && Room(s, room - 1) && (s.slab == old(s.slab) || fresh(s.slab))
    ensures (DatabaseOf(s), out) == Step(old(DatabaseOf(s)), AskEdgeCount)
  {
    hide Canonical, SQLiteStore.Valid, SQLiteStore.Ready, Room;
    Warm(s, room);
    var n := s.EdgeCount();
    return Counted(n);
  }

  /** One operation on a store: afterwards its cache refines its tables, and both have done what the tables alone do. */
  method Perform<T(!new)>(s: SQLiteStore<T>, op: Op<T>, ghost room: nat) returns (out: Outcome<T>)
    requires s.Ready() && Room(s, room) && room > 0 && (op.PutVertex? ==> s.Valid())
    modifies s, s.slab, s.registry
    ensures s.Valid() && Room(s, room - 1) && (s.slab == old(s.slab) || fresh(s.slab))
    ensures (DatabaseOf(s), out) == Step(old(DatabaseOf(s)), op)
  {
    hide Step, SQLiteStore.Valid, SQLiteStore.Ready, Room;
    match op
    case PutVertex(id, value, weight, attributes) => out := PutVertexOn(s, id, value, weight, attributes, room);
    case ChangeVertex(id, value, weight, attributes) => out := ChangeVertexOn(s, id, value, weight, attributes, room);
    case DropVertex(id) => out := DropVertexOn(s, id, room);
    case PutEdge(source, target, edge) => out := PutEdgeOn(s, source, target, edge, room);
    case ChangeEdge(source, target, edge) => out := ChangeEdgeOn(s, source, target, edge, room);
    case DropEdge(source, target) => out := DropEdgeOn(s, source, target, room);
    case AskVertex(id) => out := AskVertexOn(s, id, room);
    case AskEdge(source, target) => out := AskEdgeOn(s, source, target, room);
    case AskEdgeCount => out := AskEdgeCountOn(s, room);
  }

  /**
   * A run: whatever the operations, succeeding or refused, after each of them the cache refines the tables
   * (always tells whether it did), and outcomes and tables are those of the operations on the tables alone.
   * It starts from a warm cache, as that of an empty database is, or from any that an operation other than
   * adding a vertex loads first.
   */
  method Run<T(!new)>(s: SQLiteStore<T>, ops: seq<Op<T>>) returns (outs: seq<Outcome<T>>, ghost always: bool)
    requires s.Ready() && Room(s, |ops|) && (s.Valid() || ops == [] || !ops[0].PutVertex?)
    modifies s, s.slab, s.registry
    ensures (DatabaseOf(s), outs) == Replay(old(DatabaseOf(s)), ops)
    ensures always && (ops != [] || old(s.Valid()) ==> s.Valid())
  {
    hide Step, Replay, DatabaseOf, SQLiteStore.Valid, SQLiteStore.Ready, Room;
    ghost var d := DatabaseOf(s);
    outs, always := [], true;
    ReplayNone(d);
    for k := 0 to |ops|
      invariant always && s.Ready() && Room(s, |ops| - k) && (s.slab == old(s.slab) || fresh(s.slab))
      invariant k > 0 || old(s.Valid()) ==> s.Valid()
      invariant (DatabaseOf(s), outs) == Replay(d, ops[..k])
    {
      ReplayNext(d, ops, k);
      var out := Perform(s, ops[k], |ops| - k);
      outs, always := outs + [out], always && s.Valid();
      StaysReady(s, |ops| - k - 1);
    }
    assert ops[..|ops|] == ops;
  }

  /** A run from an empty database, as long as indices last. */
  method RunFromEmpty<T(!new)>(ops: seq<Op<T>>) returns (s: SQLiteStore<T>, outs: seq<Outcome<T>>, ghost always: bool)
    requires |ops| < U32_LIMIT
    ensures (DatabaseOf(s), outs) == Replay(Database(map[], map[], []), ops) && always && s.Valid()
  {
    hide Replay, Step, SQLiteStore.Valid, SQLiteStore.Ready, Room, DatabaseOf;
    s := EmptyStore(|ops|);
    outs, always := Run(s, ops);
  }

  /** A store over empty tables. */
  method EmptyStore<T(!new)>(ghost room: nat) returns (s: SQLiteStore<T>)
    requires room < U32_LIMIT
    ensures fresh(s) && fresh(s.slab) && fresh(s.registry)
    ensures s.Ready() && s.Valid() && Room(s, room) && DatabaseOf(s) == Database(map[], map[], [])
  {
    hide SQLiteStore.EdgesWarm, RowsOk;
    var registry := new IndexRegistry([]);
    NoRows<T>(registry.uuidToIdx);
    s := new SQLiteStore<T>(registry, map[], map[]);
  }

  lemma NoRows<T>(known: map<Uuid, U32>)
    ensures RowsOk<T>(map[], map[], known)
  {
  }

  lemma ReplayNone<T>(d: Database<T>)
    ensures forall ops: seq<Op<T>> :: Replay(d, ops[..0]) == (d, [])
  {
  }

  lemma ReplayNext<T>(d: Database<T>, ops: seq<Op<T>>, k: nat)
    requires k < |ops|
    ensures var before := Replay(d, ops[..k]);
      Replay(d, ops[..k + 1]) == (Step(before.0, ops[k]).0, before.1 + [Step(before.0, ops[k]).1])
  {
    hide Step;
    assert ops[..k + 1][..k] == ops[..k];
  }

  lemma StaysReady<T(!new)>(s: SQLiteStore<T>, room: nat)
    requires s.Valid() && Room(s, room)
    ensures s.Ready()
  {
  }
}
