/** store.go, store_vertex.go, store_edge.go: an undirected graph in tables, with a cache kept beside them. */
module GraphStore {
  import opened Keys
  import opened Transducer
  import opened Bitmaps
  import opened Indices
  import opened EdgeSlabs
  import opened GraphTables

  /** A row of graph_vertices; its attributes column is always empty. */
  datatype VertexRow<T> = VertexRow(value: T, weight: int)

  datatype CachedVertex<T> = CachedVertex(value: T, weight: int, attributes: map<string, string>)

  datatype StoreError = Ok | VertexNotFound | VertexAlreadyExists | VertexHasEdges | EdgeNotFound | EdgeAlreadyExists

  /** The type attribute, or the default. */
  function EdgeType(e: Edge): string {
    if "type" in e.attributes then e.attributes["type"] else "default"
  }

  function RowOf(e: Edge): EdgeRow {
    EdgeRow(e.weight, e.data, EdgeType(e))
  }

  /** The row keeps the type an edge is given, "default" when it is given none, and the weight and data. */
  lemma RowKeeps(e: Edge, t: string)
    ensures var row := RowOf(e.(attributes := e.attributes["type" := t]));
      row.edgeType == t && row.weight == e.weight && row.data == e.data
    ensures RowOf(e.(attributes := e.attributes - {"type"})).edgeType == "default"
  {
  }

  class SQLiteStore<T(!new)> {
    /** The tables. */
    var vertexRows: map<Uuid, VertexRow<T>>
    var edgeRows: EdgeTable

    const registry: IndexRegistry

    /** The cache. */
    var vertices: map<Uuid, CachedVertex<T>>
    var outEdges: Links
    var slab: EdgeSlab
    var edgeCount: int
    var dirty: bool

    /** What the tables promise by themselves: edges between vertices, vertices with an index. */
    ghost predicate Tables()
      reads this`vertexRows, this`edgeRows, registry
    {
      registry.Valid() && RowsOk(vertexRows, edgeRows, registry.uuidToIdx)
    }

    ghost predicate VerticesWarm()
      reads this`vertexRows, this`vertices
    {
      SameVertices(vertices, vertexRows)
    }

    ghost predicate EdgesWarm()
      reads this`edgeRows, this`outEdges, this`slab, this`edgeCount, registry, slab
    {
      && slab.Valid() && AdjacencyOk(edgeRows, registry.idxToUUID, outEdges)
      && SlabOk(edgeRows, registry.idxToUUID, slab.Contents())
      && edgeCount == |slab.Contents()| == |edgeRows|
    }

    /** The cache refines the tables. */
    ghost predicate Valid()
      reads this, registry, slab
    {
      Tables() && VerticesWarm() && EdgesWarm()
    }

    lemma AllWarm()
      ensures Valid() <==> Tables() && VerticesWarm() && EdgesWarm()
    {
    }

    /** What a search needs of the cache, warm or not: links go both ways and stay inside the registry. */
    ghost predicate Searchable()
      reads this`outEdges, this`slab, registry, slab
    {
      && registry.Valid() && slab.Valid()
      && Symmetric(outEdges) && Within(outEdges, |registry.idxToUUID|)
    }

    lemma WarmSearchable()
      requires Valid()
      ensures Searchable()
    {
      hide SlabOk, Linked;
      AdjacencySymmetric(edgeRows, registry.idxToUUID, outEdges);
    }

    lemma ColdSearchable()
      requires registry.Valid() && slab.Valid() && outEdges == map[]
      ensures Searchable()
    {
    }

    /** The cache either refines the tables or is about to be rebuilt. */
    ghost predicate Ready()
      reads this, registry, slab
    {
      && Tables() && (Valid() || vertices == map[] || dirty)
      && |edgeRows| < U32_LIMIT && |slab.edges| < U32_LIMIT
    }

    /** A store over tables as they are; nothing is cached yet. */
    constructor (registry: IndexRegistry, vertexRows: map<Uuid, VertexRow<T>>, edgeRows: EdgeTable)
      requires registry.Valid() && |edgeRows| < U32_LIMIT
      requires RowsOk(vertexRows, edgeRows, registry.uuidToIdx)
      ensures Ready() && this.registry == registry && fresh(slab)
      ensures this.vertexRows == vertexRows && this.edgeRows == edgeRows
      ensures vertices == map[] && outEdges == map[] && !dirty && slab.Valid() && slab.edges == []
      ensures edgeRows == map[] ==> EdgesWarm()
    {
      this.registry, this.vertexRows, this.edgeRows := registry, vertexRows, edgeRows;
      vertices, outEdges, edgeCount, dirty := map[], map[], 0, false;
      slab := new EdgeSlab();
      new;
      NothingLinked(registry.idxToUUID);
    }

    /** Loads the tables into the cache, unless it has vertices already: then it stays as it is, warm or not. */
    method WarmCache()
      requires Tables() && |edgeRows| < U32_LIMIT
      modifies this`vertices, this`outEdges, this`slab, this`edgeCount, this`dirty
      ensures old(vertices) != map[] && !old(dirty) ==> unchanged(this)
      ensures old(vertices) == map[] || old(dirty) ==>
        Valid() && fresh(slab) && !dirty && |slab.edges| <= |edgeRows| && NoneEmpty(outEdges)
      ensures old(Ready()) ==> Valid() && |slab.edges| < U32_LIMIT
      ensures slab == old(slab) || fresh(slab)
    {
      hide Tables, VerticesWarm, EdgesWarm;
      if vertices != map[] && !dirty {
        return;
      }
      edgeCount := |edgeRows|;
      LoadVertices();
      LoadEdges();
      dirty := false;
    }

    method LoadVertices()
      modifies this`vertices
      ensures VerticesWarm()
    {
      vertices := map[];
      var rest := vertexRows.Keys;
      while rest != {}
        invariant rest <= vertexRows.Keys && vertices.Keys == vertexRows.Keys - rest
        invariant forall id :: id in vertices ==> VertexRow(vertices[id].value, vertices[id].weight) == vertexRows[id]
        decreases |rest|
      {
        var id :| id in rest;
        vertices := vertices[id := CachedVertex(vertexRows[id].value, vertexRows[id].weight, map[])];
        rest := rest - {id};
      }
    }

    method LoadEdges()
      requires Tables() && |edgeRows| < U32_LIMIT && edgeCount == |edgeRows|
      modifies this`outEdges, this`slab
      ensures EdgesWarm() && fresh(slab) && |slab.edges| <= |edgeRows| && NoneEmpty(outEdges)
    {
      hide SlabOk, AdjacencyOk, Tables, LoadedRows;
      outEdges := map[];
      slab := new EdgeSlab();
      var rest := edgeRows.Keys;
      ghost var done: EdgeTable := map[];
      NothingLinked(registry.idxToUUID);
      NothingLoaded(edgeRows);
      while rest != {}
        invariant fresh(slab) && slab.Valid() && |slab.edges| <= |done| && LoadedRows(edgeRows, done, rest)
        invariant AdjacencyOk(done, registry.idxToUUID, outEdges) && NoneEmpty(outEdges)
        invariant SlabOk(done, registry.idxToUUID, slab.Contents()) && |slab.Contents()| == |done|
        decreases |rest|
      {
        var e :| e in rest;
        LoadedNext(edgeRows, done, rest, e);
        LoadEdge(e, done);
        done := done[e := edgeRows[e]];
        rest := rest - {e};
      }
      AllLoaded(edgeRows, done);
    }

    /** One row into the slab and the adjacency. */
    method LoadEdge(e: (Uuid, Uuid), ghost done: EdgeTable)
      requires Tables() && slab.Valid() && e in edgeRows && e !in done && |slab.edges| < U32_LIMIT
      requires AdjacencyOk(done, registry.idxToUUID, outEdges) && NoneEmpty(outEdges)
      requires SlabOk(done, registry.idxToUUID, slab.Contents())
      modifies this`outEdges, slab
      ensures slab.Valid() && |slab.edges| <= old(|slab.edges|) + 1
      ensures AdjacencyOk(done[e := edgeRows[e]], registry.idxToUUID, outEdges) && NoneEmpty(outEdges)
      ensures SlabOk(done[e := edgeRows[e]], registry.idxToUUID, slab.Contents())
      ensures |slab.Contents()| == old(|slab.Contents()|) + 1
    {
      hide SlabOk, AdjacencyOk, EdgeKey, Canonical, Linked, AddNeighbour;
      var row := edgeRows[e];
      var u, v := registry.uuidToIdx[e.0], registry.uuidToIdx[e.1];
      var edge := Edge(e.0, e.1, row.weight, map[], row.data);
      ghost var ids := registry.idxToUUID;
      DistinctIds();
      NewInSlab(done, ids, slab.Contents(), u, v);
      SlabPut(done, ids, slab.Contents(), u, v, row, edge);
      AdjacencyAdd(done, ids, outEdges, u, v, row);
      OneMore(slab.Contents(), EdgeKey(u, v), edge);
      var _ := slab.Put(u, v, edge);
      NoneEmptyAfterAdd(outEdges, u, v);
      outEdges := AddNeighbour(outEdges, u, v);
      NoneEmptyAfterAdd(outEdges, v, u);
      outEdges := AddNeighbour(outEdges, v, u);
    }

    lemma DistinctIds()
      requires registry.Valid()
      ensures Distinct(registry.idxToUUID)
    {
      var ids := registry.idxToUUID;
      forall i, j | 0 <= i < j < |ids| ensures ids[i] != ids[j] {
        assert registry.uuidToIdx[ids[i]] == i && registry.uuidToIdx[ids[j]] == j;
      }
    }

    /** Gives id an index; it has no edges. */
    method Assign(id: Uuid)
      requires Tables() && slab.Valid() && (id in registry.uuidToIdx || |registry.idxToUUID| < U32_LIMIT)
      modifies registry
      ensures Tables() && id in registry.uuidToIdx
      ensures registry.idxToUUID == old(registry.idxToUUID) + if id in old(registry.uuidToIdx) then [] else [id]
      ensures old(EdgesWarm()) ==> EdgesWarm()
    {
      hide SlabOk, AdjacencyOk, RowsOk, Unmentioned;
      if id !in registry.uuidToIdx && AdjacencyOk(edgeRows, registry.idxToUUID, outEdges) && EdgesWarm() {
        NewUnmentioned(vertexRows, edgeRows, registry.uuidToIdx, id);
        AssignKeeps(edgeRows, registry.idxToUUID, id, outEdges, slab.Contents());
      }
      RowsAfterAssign(vertexRows, edgeRows, registry.uuidToIdx, id, |registry.idxToUUID|);
      var _ := registry.GetOrAssign(id);
    }

    /**
     * Adds a vertex without looking at the cache first: a warm cache stays warm, and a cold one is not
     * warm afterwards, so that the rest is never loaded.
     */
    method AddVertex(id: Uuid, value: T, weight: int, attributes: map<string, string>) returns (e: StoreError)
      requires Tables() && slab.Valid() && vertices.Keys <= vertexRows.Keys
      requires id in registry.uuidToIdx || |registry.idxToUUID| < U32_LIMIT
      modifies this`vertexRows, this`vertices, registry
      ensures Tables() && slab == old(slab) && e == if id in old(vertexRows) then VertexAlreadyExists else Ok
      ensures vertexRows == if e == Ok then old(vertexRows)[id := VertexRow(value, weight)] else old(vertexRows)
      ensures registry.idxToUUID == old(registry.idxToUUID) + if id in old(registry.uuidToIdx) then [] else [id]
      ensures VerticesWarm() <==> old(VerticesWarm())
      ensures old(EdgesWarm()) ==> EdgesWarm()
      ensures vertices == if e == Ok then old(vertices)[id := CachedVertex(value, weight, attributes)]
        else old(vertices)
    {
      hide EdgesWarm, SameVertices, RowsOk;
      Assign(id);
      RowsAfterVertex(vertexRows, edgeRows, registry.uuidToIdx, id, VertexRow(value, weight));
      if id in vertexRows {
        return VertexAlreadyExists;
      }
      SameAfterInsert(vertices, vertexRows, id, value, weight, attributes);
      vertexRows := vertexRows[id := VertexRow(value, weight)];
      vertices := vertices[id := CachedVertex(value, weight, attributes)];
      return Ok;
    }

    /**
     * Adds an edge between two vertices, once for both directions. Whatever happens the cache refines
     * the tables afterwards.
     */
    method AddEdge(source: Uuid, target: Uuid, edge: Edge) returns (e: StoreError)
      requires Ready()
      modifies this, slab, registry
      ensures Valid() && (slab == old(slab) || fresh(slab))
      ensures |slab.edges| <= (if slab == old(slab) then old(|slab.edges|) else old(|edgeRows|)) + 1
      ensures e == if source !in vertexRows || target !in vertexRows then VertexNotFound
        else if Canonical(source, target) in old(edgeRows) then EdgeAlreadyExists else Ok
      ensures edgeRows == if e == Ok then old(edgeRows)[Canonical(source, target) := RowOf(edge)] else old(edgeRows)
      ensures vertexRows == old(vertexRows) && registry.idxToUUID == old(registry.idxToUUID)
    {
      hide SlabOk, AdjacencyOk, Canonical, SameVertices, RowsOk, EdgesWarm;
      WarmCache();
      SameIds(vertices, vertexRows, source);
      SameIds(vertices, vertexRows, target);
      RowsKnown(vertexRows, edgeRows, registry.uuidToIdx, source);
      RowsKnown(vertexRows, edgeRows, registry.uuidToIdx, target);
      if source !in vertices || target !in vertices {
        return VertexNotFound;
      }
      var uIdx := registry.GetOrAssign(source);
      var vIdx := registry.GetOrAssign(target);
      var pair := Canonical(source, target);
      if pair in edgeRows {
        return EdgeAlreadyExists;
      }
      InsertEdge(uIdx, vIdx, edge.(source := source, target := target));
      return Ok;
    }

    /** The row, the slab, both neighbour sets and the count of a new edge. */
    method InsertEdge(u: U32, v: U32, edge: Edge)
      requires Valid() && |slab.edges| < U32_LIMIT && u < |registry.idxToUUID| && v < |registry.idxToUUID|
      requires edge.source == registry.idxToUUID[u] && edge.target == registry.idxToUUID[v]
      requires edge.source in vertexRows && edge.target in vertexRows
      requires Canonical(edge.source, edge.target) !in edgeRows
      modifies this`edgeRows, this`outEdges, this`edgeCount, slab
      ensures Valid() && edgeRows == old(edgeRows)[Canonical(edge.source, edge.target) := RowOf(edge)]
      ensures |slab.edges| <= old(|slab.edges|) + 1
    {
      hide SlabOk, AdjacencyOk, EdgeKey, Canonical, Linked, AddNeighbour, SameVertices, EdgeType, RowsOk,
        EdgeSlab.Valid, EdgeSlab.Contents, IndexRegistry.Valid;
      ghost var ids, was := registry.idxToUUID, slab.Contents();
      DistinctIds();
      RowsAfterAdd(vertexRows, edgeRows, registry.uuidToIdx, edge.source, edge.target, RowOf(edge));
      NewInSlab(edgeRows, ids, was, u, v);
      SlabPut(edgeRows, ids, was, u, v, RowOf(edge), edge);
      AdjacencyAdd(edgeRows, ids, outEdges, u, v, RowOf(edge));
      OneMore(was, EdgeKey(u, v), edge);
      OneMore(edgeRows, Canonical(ids[u], ids[v]), RowOf(edge));
      edgeRows := edgeRows[Canonical(edge.source, edge.target) := RowOf(edge)];
      var _ := slab.Put(u, v, edge);
      outEdges := AddNeighbour(outEdges, u, v);
      outEdges := AddNeighbour(outEdges, v, u);
      edgeCount := edgeCount + 1;
    }

    /** Whether the cache has the edge, by index. */
    method FindEdge(source: Uuid, target: Uuid) returns (uIdx: Option<U32>, vIdx: Option<U32>, found: bool)
      requires Valid()
      ensures uIdx == registry.Get(source) && vIdx == registry.Get(target)
      ensures found <==> Canonical(source, target) in edgeRows
      ensures found ==> uIdx.Some? && vIdx.Some? && EdgeKey(uIdx.value, vIdx.value) in slab.Contents()
    {
      hide EdgeKey, Canonical, SameVertices, Tells, KeyEnds;
      uIdx, vIdx, found := registry.Get(source), registry.Get(target), false;
      CanonicalPair(source, target);
      if uIdx.Some? && vIdx.Some? {
        found := uIdx.value in outEdges && vIdx.value in outEdges[uIdx.value];
        assert vIdx.value in Neighbours(outEdges, uIdx.value) <==>
          Linked(edgeRows, registry.idxToUUID, uIdx.value, vIdx.value);
      }
    }

    method UpdateEdge(source: Uuid, target: Uuid, edge: Edge) returns (e: StoreError)
      requires Ready()
      modifies this, slab
      ensures Valid() && (slab == old(slab) || fresh(slab))
      ensures |slab.edges| <= (if slab == old(slab) then old(|slab.edges|) else old(|edgeRows|)) + 1
      ensures e == if registry.Get(source) == None || registry.Get(target) == None then VertexNotFound
        else if Canonical(source, target) !in old(edgeRows) then EdgeNotFound else Ok
      ensures edgeRows == if e == Ok then old(edgeRows)[Canonical(source, target) := RowOf(edge)] else old(edgeRows)
      ensures vertexRows == old(vertexRows)
    {
      hide SlabOk, AdjacencyOk, Canonical, SameVertices, RowsOk, EdgesWarm;
      WarmCache();
      var uIdx, vIdx, found := FindEdge(source, target);
      if uIdx == None || vIdx == None {
        return VertexNotFound;
      }
      if !found {
        return EdgeNotFound;
      }
      ReplaceEdge(uIdx.value, vIdx.value, edge.(source := source, target := target));
      return Ok;
    }

    method ReplaceEdge(u: U32, v: U32, edge: Edge)
      requires Valid() && u < |registry.idxToUUID| && v < |registry.idxToUUID|
      requires edge.source == registry.idxToUUID[u] && edge.target == registry.idxToUUID[v]
      requires Canonical(edge.source, edge.target) in edgeRows && EdgeKey(u, v) in slab.Contents()
      modifies this`edgeRows, slab
      ensures Valid() && edgeRows == old(edgeRows)[Canonical(edge.source, edge.target) := RowOf(edge)]
      ensures |slab.edges| <= old(|slab.edges|) + 1
    {
      hide SlabOk, AdjacencyOk, EdgeKey, Canonical, Linked, SameVertices, EdgeType, RowsOk, EdgeSlab.Valid,
        IndexRegistry.Valid;
      ghost var ids, was := registry.idxToUUID, slab.Contents();
      DistinctIds();
      SlabPut(edgeRows, ids, was, u, v, RowOf(edge), edge);
      RowEnds(vertexRows, edgeRows, registry.uuidToIdx, edge.source, edge.target);
      RowsAfterAdd(vertexRows, edgeRows, registry.uuidToIdx, edge.source, edge.target, RowOf(edge));
      AdjacencyKept(edgeRows, ids, outEdges, Canonical(edge.source, edge.target), RowOf(edge));
      Overwritten(was, EdgeKey(u, v), edge);
      Overwritten(edgeRows, Canonical(edge.source, edge.target), RowOf(edge));
      edgeRows := edgeRows[Canonical(edge.source, edge.target) := RowOf(edge)];
      var _ := slab.Put(u, v, edge);
    }

    method RemoveEdge(source: Uuid, target: Uuid) returns (e: StoreError)
      requires Ready()
      modifies this, slab
      ensures Valid() && (slab == old(slab) || fresh(slab))
      ensures |slab.edges| <= (if slab == old(slab) then old(|slab.edges|) else old(|edgeRows|)) + 1
      ensures e == if Canonical(source, target) in old(edgeRows) then Ok else EdgeNotFound
      ensures edgeRows == if e == Ok then old(edgeRows) - {Canonical(source, target)} else old(edgeRows)
      ensures vertexRows == old(vertexRows)
    {
      hide SlabOk, AdjacencyOk, Canonical, SameVertices, RowsOk, EdgesWarm;
      WarmCache();
      var uIdx, vIdx, found := FindEdge(source, target);
      if uIdx == None || vIdx == None || !found {
        return EdgeNotFound;
      }
      DeleteEdge(uIdx.value, vIdx.value);
      return Ok;
    }

    method DeleteEdge(u: U32, v: U32)
      requires Valid() && u < |registry.idxToUUID| && v < |registry.idxToUUID|
      requires Canonical(registry.idxToUUID[u], registry.idxToUUID[v]) in edgeRows && EdgeKey(u, v) in slab.Contents()
      modifies this`edgeRows, this`outEdges, this`edgeCount, slab
      ensures Valid() && edgeRows == old(edgeRows) - {Canonical(registry.idxToUUID[u], registry.idxToUUID[v])}
      ensures |slab.edges| == old(|slab.edges|)
    {
      hide SlabOk, AdjacencyOk, EdgeKey, Canonical, Linked, SameVertices, RemoveNeighbour, RowsOk, EdgeSlab.Valid,
        EdgeSlab.Contents, IndexRegistry.Valid;
      ghost var ids, was := registry.idxToUUID, slab.Contents();
      DistinctIds();
      SlabRemove(edgeRows, ids, was, u, v);
      RowsAfterRemove(vertexRows, edgeRows, registry.uuidToIdx, Canonical(ids[u], ids[v]));
      AdjacencyRemove(edgeRows, ids, outEdges, u, v);
      OneLess(was, EdgeKey(u, v));
      OneLess(edgeRows, Canonical(ids[u], ids[v]));
      edgeRows := edgeRows - {Canonical(registry.idxToUUID[u], registry.idxToUUID[v])};
      outEdges := RemoveNeighbour(outEdges, u, v);
      outEdges := RemoveNeighbour(outEdges, v, u);
      var _ := slab.Remove(u, v);
      edgeCount := edgeCount - 1;
    }

    /** The edge as it was asked for, whichever way round it is kept. */
    method GetEdge(source: Uuid, target: Uuid) returns (r: Option<Edge>)
      requires Valid()
      ensures r.Some? <==> Canonical(source, target) in edgeRows
      ensures r.Some? ==> r.value.source == source && r.value.target == target
      ensures r.Some? ==> Tells(r.value, source, target, edgeRows[Canonical(source, target)])
    {
      hide EdgeKey, Canonical, SameVertices, KeyEnds;
      var uIdx, vIdx, found := FindEdge(source, target);
      if uIdx == None || vIdx == None || !found {
        return None;
      }
      var edge := slab.Get(uIdx.value, vIdx.value);
      if edge == None {
        return None;
      }
      assert Linked(edgeRows, registry.idxToUUID, uIdx.value, vIdx.value);
      return Some(edge.value.(source := source, target := target));
    }

    /** The edges of a vertex: one for each neighbour, in the order of their indices. */
    method Edges(id: Uuid) returns (r: Option<seq<Edge>>)
      requires Valid()
      ensures r == None <==> registry.Get(id) == None
      ensures r.Some? ==> |r.value| == |Neighbours(outEdges, registry.Get(id).value)|
      ensures r.Some? ==> forall k :: 0 <= k < |r.value| ==>
        TellsNeighbour(r.value[k], id, Sorted(Neighbours(outEdges, registry.Get(id).value))[k])
    {
      hide SlabOk, AdjacencyOk, RowsOk, SameVertices, EdgeKey, Tells, Sorted;
      var idx := registry.Get(id);
      if idx == None {
        return None;
      }
      if idx.value !in outEdges {
        return Some([]);
      }
      var neighbours := Sorted(outEdges[idx.value]);
      var edges := [];
      for k := 0 to |neighbours|
        invariant |edges| == k && forall i :: 0 <= i < k ==> TellsNeighbour(edges[i], id, neighbours[i])
      {
        NeighbourTold(id, idx.value, neighbours[k]);
        var edge := slab.Get(idx.value, neighbours[k]);
        if edge.Some? {
          edges := edges + [edge.value];
        }
      }
      return Some(edges);
    }

    /** The edge tells the row of id and the identifier at index n. */
    predicate TellsNeighbour(e: Edge, id: Uuid, n: U32)
      reads this`edgeRows, registry
    {
      && n < |registry.idxToUUID| && Canonical(id, registry.idxToUUID[n]) in edgeRows
      && Tells(e, id, registry.idxToUUID[n], edgeRows[Canonical(id, registry.idxToUUID[n])])
    }

    lemma NeighbourTold(id: Uuid, i: U32, n: U32)
      requires Valid() && registry.Get(id) == Some(i) && n in Neighbours(outEdges, i)
      ensures EdgeKey(i, n) in slab.Contents() && TellsNeighbour(slab.Contents()[EdgeKey(i, n)], id, n)
    {
      hide Canonical, Tells, EdgeKey, RowsOk, SameVertices, KeyEnds;
      assert Linked(edgeRows, registry.idxToUUID, i, n);
    }

    /** Every edge once: as many as there are rows, each one telling a row. */
    method ListEdges() returns (edges: seq<Edge>)
      requires Valid()
      ensures |edges| == |edgeRows|
      ensures forall e :: e in edgeRows ==> exists k :: 0 <= k < |edges| && Tells(edges[k], e.0, e.1, edgeRows[e])
    {
      hide SlabOk, AdjacencyOk, SameVertices, Tells, Canonical, KeyEnds;
      edges := [];
      var rest := slab.lookup.Keys;
      while rest != {}
        invariant rest <= slab.lookup.Keys && |edges| + |rest| == |slab.lookup.Keys|
        invariant forall k :: k in slab.lookup && k !in rest ==> slab.edges[slab.lookup[k]] in edges
        decreases |rest|
      {
        var k :| k in rest;
        edges := edges + [slab.edges[slab.lookup[k]]];
        rest := rest - {k};
      }
      assert slab.Contents().Keys == slab.lookup.Keys;
      forall e | e in edgeRows ensures exists k :: 0 <= k < |edges| && Tells(edges[k], e.0, e.1, edgeRows[e]) {
        RowKept(e);
        var key := EdgeKey(registry.uuidToIdx[e.0], registry.uuidToIdx[e.1]);
        var k :| 0 <= k < |edges| && edges[k] == slab.edges[slab.lookup[key]];
      }
    }

    lemma RowKept(e: (Uuid, Uuid))
      requires Valid() && e in edgeRows
      ensures e.0 in registry.uuidToIdx && e.1 in registry.uuidToIdx
      ensures var key := EdgeKey(registry.uuidToIdx[e.0], registry.uuidToIdx[e.1]);
        key in slab.Contents() && Tells(slab.Contents()[key], e.0, e.1, edgeRows[e])
    {
      hide Tells, EdgeKey, SameVertices, KeyEnds, Canonical;
      var u, v := registry.uuidToIdx[e.0], registry.uuidToIdx[e.1];
      assert Linked(edgeRows, registry.idxToUUID, u, v);
    }

    method EdgeCount() returns (n: int)
      requires Valid()
      ensures n == |edgeRows|
    {
      return edgeCount;
    }

    /** A vertex can go only when it has no edges; its index stays. */
    method RemoveVertex(id: Uuid) returns (e: StoreError)
      requires Ready()
      modifies this
      ensures Valid() && (slab == old(slab) || fresh(slab))
      ensures |slab.edges| <= (if slab == old(slab) then old(|slab.edges|) else old(|edgeRows|)) + 1
      ensures e == if id !in old(vertexRows) then VertexNotFound
        else if !Unmentioned(edgeRows, id) then VertexHasEdges else Ok
      ensures vertexRows == if e == Ok then old(vertexRows) - {id} else old(vertexRows)
      ensures edgeRows == old(edgeRows)
    {
      hide Unmentioned, SameVertices, RowsOk, EdgesWarm;
      WarmCache();
      SameIds(vertices, vertexRows, id);
      RowsKnown(vertexRows, edgeRows, registry.uuidToIdx, id);
      if id !in vertices {
        return VertexNotFound;
      }
      var idx := registry.Get(id);
      EdgesMention(id);
      if idx.Some? && idx.value in outEdges && outEdges[idx.value] != {} {
        return VertexHasEdges;
      }
      RowsAfterVertex(vertexRows, edgeRows, registry.uuidToIdx, id, vertexRows[id]);
      SameAfterChange(vertices, vertexRows, id, vertices[id].value, 0, map[]);
      vertexRows := vertexRows - {id};
      vertices := vertices - {id};
      return Ok;
    }

    lemma EdgesMention(id: Uuid)
      requires Valid() && id in vertexRows
      ensures Neighbours(outEdges, registry.uuidToIdx[id]) == {} <==> Unmentioned(edgeRows, id)
    {
      hide Canonical, AdjacencyOk, Unmentioned, SlabOk;
      forall e | e in edgeRows ensures e.0 in registry.idxToUUID && e.1 in registry.idxToUUID {
        assert registry.idxToUUID[registry.uuidToIdx[e.0]] == e.0 && registry.idxToUUID[registry.uuidToIdx[e.1]] == e.1;
      }
      NoNeighbours(edgeRows, registry.idxToUUID, outEdges, registry.uuidToIdx[id]);
    }

    method UpdateVertex(id: Uuid, value: T, weight: int, attributes: map<string, string>) returns (e: StoreError)
      requires Ready()
      modifies this
      ensures Valid() && (slab == old(slab) || fresh(slab))
      ensures |slab.edges| <= (if slab == old(slab) then old(|slab.edges|) else old(|edgeRows|)) + 1
      ensures e == if id in old(vertexRows) then Ok else VertexNotFound
      ensures vertexRows == if e == Ok then old(vertexRows)[id := VertexRow(value, weight)] else old(vertexRows)
      ensures edgeRows == old(edgeRows)
    {
      hide SameVertices, RowsOk, EdgesWarm;
      WarmCache();
      SameIds(vertices, vertexRows, id);
      RowsKnown(vertexRows, edgeRows, registry.uuidToIdx, id);
      if id !in vertices {
        return VertexNotFound;
      }
      RowsAfterVertex(vertexRows, edgeRows, registry.uuidToIdx, id, VertexRow(value, weight));
      SameAfterChange(vertices, vertexRows, id, value, weight, attributes);
      vertexRows := vertexRows[id := VertexRow(value, weight)];
      vertices := vertices[id := CachedVertex(value, weight, attributes)];
      return Ok;
    }

    method Vertex(id: Uuid) returns (r: Option<CachedVertex<T>>)
      requires Valid()
      ensures r.Some? <==> id in vertexRows
      ensures r.Some? ==> VertexRow(r.value.value, r.value.weight) == vertexRows[id]
    {
      if id !in vertices {
        return None;
      }
      return Some(vertices[id]);
    }
  }

  /**
   * A vertex added to a store that has loaded nothing yet, and the cache asked for afterwards: it refines
   * the tables only when there was nothing else to load, or nothing was added.
   */
  method AddToColdCache<T(!new)>(registry: IndexRegistry, vertexRows: map<Uuid, VertexRow<T>>, edgeRows: EdgeTable,
    id: Uuid, value: T, weight: int, attributes: map<string, string>) returns (s: SQLiteStore<T>)
    requires registry.Valid() && |edgeRows| < U32_LIMIT && RowsOk(vertexRows, edgeRows, registry.uuidToIdx)
    requires id in registry.uuidToIdx || |registry.idxToUUID| < U32_LIMIT
    modifies registry
    ensures s.Tables() && s.vertexRows.Keys == vertexRows.Keys + {id} && s.edgeRows == edgeRows
    ensures s.VerticesWarm() <==> vertexRows == map[] || id in vertexRows
    ensures vertexRows == map[] || id in vertexRows ==> s.Valid()
    ensures !s.VerticesWarm() ==> s.vertices.Keys == {id} && !s.dirty
  {
    hide RowsOk, SQLiteStore.Tables, SQLiteStore.VerticesWarm, SQLiteStore.EdgesWarm, SQLiteStore.Valid,
      SQLiteStore.Ready, IndexRegistry.Valid, NoneEmpty;
    s := ColdStoreWith(registry, vertexRows, edgeRows, id, value, weight, attributes);
    assert map[id := CachedVertex(value, weight, attributes)].Keys == {id};
    s.WarmCache();
    s.AllWarm();
  }

  /** The store before its cache is asked for. */
  method ColdStoreWith<T(!new)>(registry: IndexRegistry, vertexRows: map<Uuid, VertexRow<T>>, edgeRows: EdgeTable,
    id: Uuid, value: T, weight: int, attributes: map<string, string>) returns (s: SQLiteStore<T>)
    requires registry.Valid() && |edgeRows| < U32_LIMIT && RowsOk(vertexRows, edgeRows, registry.uuidToIdx)
    requires id in registry.uuidToIdx || |registry.idxToUUID| < U32_LIMIT
    modifies registry
    ensures fresh(s) && fresh(s.slab) && s.Tables() && !s.dirty && s.edgeRows == edgeRows
    ensures s.vertexRows.Keys == vertexRows.Keys + {id}
    ensures s.vertices == if id in vertexRows then map[] else map[id := CachedVertex(value, weight, attributes)]
    ensures s.VerticesWarm() <==> vertexRows == map[]
    ensures vertexRows == map[] ==> s.EdgesWarm()
  {
    hide RowsOk, SlabOk, AdjacencyOk, SameVertices, SQLiteStore.Tables, SQLiteStore.EdgesWarm, SQLiteStore.Ready,
      IndexRegistry.Valid, EdgeSlab.Valid;
    s := ColdStore(registry, vertexRows, edgeRows);
    NothingCached(vertexRows);
    var e := s.AddVertex(id, value, weight, attributes);
  }

  /** A store over tables; without vertices there is nothing to load. */
  method ColdStore<T(!new)>(registry: IndexRegistry, vertexRows: map<Uuid, VertexRow<T>>, edgeRows: EdgeTable)
    returns (s: SQLiteStore<T>)
    requires registry.Valid() && |edgeRows| < U32_LIMIT && RowsOk(vertexRows, edgeRows, registry.uuidToIdx)
    ensures s.Tables() && s.slab.Valid() && fresh(s) && fresh(s.slab)
    ensures s.registry == registry && s.vertexRows == vertexRows && s.edgeRows == edgeRows
    ensures s.vertices == map[] && !s.dirty && (vertexRows == map[] ==> s.EdgesWarm())
  {
    s := new SQLiteStore<T>(registry, vertexRows, edgeRows);
    NoVerticesNoEdges(vertexRows, edgeRows, registry.uuidToIdx);
  }

  lemma NothingCached<T(!new)>(rows: map<Uuid, VertexRow<T>>)
    ensures SameVertices(map[], rows) <==> rows == map[]
  {
  }

  lemma NoVerticesNoEdges<T>(vertexRows: map<Uuid, VertexRow<T>>, edgeRows: EdgeTable, known: map<Uuid, U32>)
    requires RowsOk(vertexRows, edgeRows, known)
    ensures vertexRows == map[] ==> edgeRows == map[]
  {
    if edgeRows != map[] {
      var e :| e in edgeRows;
      assert e.0 in vertexRows;
    }
  }

  /** Edges run between vertices, under their canonical pair; vertices have an index. */
  ghost predicate RowsOk<T>(vertexRows: map<Uuid, VertexRow<T>>, edgeRows: EdgeTable, known: map<Uuid, U32>) {
    && (forall id :: id in vertexRows ==> id in known)
    && (forall e :: e in edgeRows ==> e.0 in vertexRows && e.1 in vertexRows && Canonical(e.0, e.1) == e)
  }

  lemma RowsAfterAdd<T>(vertexRows: map<Uuid, VertexRow<T>>, edgeRows: EdgeTable, known: map<Uuid, U32>, a: Uuid,
    b: Uuid, row: EdgeRow)
    requires RowsOk(vertexRows, edgeRows, known) && a in vertexRows && b in vertexRows
    ensures RowsOk(vertexRows, edgeRows[Canonical(a, b) := row], known)
  {
    hide Canonical;
    CanonicalPair(a, b);
  }

  lemma RowsKnown<T>(vertexRows: map<Uuid, VertexRow<T>>, edgeRows: EdgeTable, known: map<Uuid, U32>, id: Uuid)
    requires RowsOk(vertexRows, edgeRows, known)
    ensures id in vertexRows ==> id in known
  {
  }

  lemma NewUnmentioned<T>(vertexRows: map<Uuid, VertexRow<T>>, edgeRows: EdgeTable, known: map<Uuid, U32>, id: Uuid)
    requires RowsOk(vertexRows, edgeRows, known) && id !in known
    ensures Unmentioned(edgeRows, id)
  {
  }

  lemma RowsAfterAssign<T>(vertexRows: map<Uuid, VertexRow<T>>, edgeRows: EdgeTable, known: map<Uuid, U32>, id: Uuid,
    n: int)
    requires RowsOk(vertexRows, edgeRows, known)
    ensures 0 <= n < U32_LIMIT ==> RowsOk(vertexRows, edgeRows, known[id := n])
  {
    hide Canonical;
  }

  lemma RowEnds<T>(vertexRows: map<Uuid, VertexRow<T>>, edgeRows: EdgeTable, known: map<Uuid, U32>, a: Uuid, b: Uuid)
    requires RowsOk(vertexRows, edgeRows, known) && Canonical(a, b) in edgeRows
    ensures a in vertexRows && b in vertexRows
  {
    hide Canonical;
    CanonicalPair(a, b);
  }

  lemma RowsAfterRemove<T>(vertexRows: map<Uuid, VertexRow<T>>, edgeRows: EdgeTable, known: map<Uuid, U32>,
    e: (Uuid, Uuid))
    requires RowsOk(vertexRows, edgeRows, known)
    ensures RowsOk(vertexRows, edgeRows - {e}, known)
  {
    hide Canonical;
  }

  lemma RowsAfterVertex<T>(vertexRows: map<Uuid, VertexRow<T>>, edgeRows: EdgeTable, known: map<Uuid, U32>, id: Uuid,
    row: VertexRow<T>)
    requires RowsOk(vertexRows, edgeRows, known) && id in known
    ensures RowsOk(vertexRows[id := row], edgeRows, known)
    ensures Unmentioned(edgeRows, id) ==> RowsOk(vertexRows - {id}, edgeRows, known)
  {
    hide Canonical;
  }

  /** The cached vertices are those of the table; attributes are kept elsewhere. */
  ghost predicate SameVertices<T(!new)>(vertices: map<Uuid, CachedVertex<T>>, rows: map<Uuid, VertexRow<T>>) {
    && vertices.Keys == rows.Keys
    && forall id :: id in vertices ==> VertexRow(vertices[id].value, vertices[id].weight) == rows[id]
  }

  lemma SameIds<T(!new)>(vertices: map<Uuid, CachedVertex<T>>, rows: map<Uuid, VertexRow<T>>, id: Uuid)
    requires SameVertices(vertices, rows)
    ensures id in vertices <==> id in rows
  {
  }

  lemma SameAfterChange<T(!new)>(vertices: map<Uuid, CachedVertex<T>>, rows: map<Uuid, VertexRow<T>>, id: Uuid,
    value: T, weight: int, attributes: map<string, string>)
    requires SameVertices(vertices, rows)
    ensures SameVertices(vertices[id := CachedVertex(value, weight, attributes)], rows[id := VertexRow(value, weight)])
    ensures SameVertices(vertices - {id}, rows - {id})
  {
  }

  lemma SameAfterInsert<T(!new)>(vertices: map<Uuid, CachedVertex<T>>, rows: map<Uuid, VertexRow<T>>, id: Uuid,
    value: T, weight: int, attributes: map<string, string>)
    requires vertices.Keys <= rows.Keys && id !in rows
    ensures SameVertices(vertices[id := CachedVertex(value, weight, attributes)], rows[id := VertexRow(value, weight)])
      <==> SameVertices(vertices, rows)
  {
    var v, r := vertices[id := CachedVertex(value, weight, attributes)], rows[id := VertexRow(value, weight)];
    if SameVertices(v, r) {
      forall x ensures x in vertices <==> x in rows { assert x in v <==> x in r; }
      forall x | x in vertices ensures VertexRow(vertices[x].value, vertices[x].weight) == rows[x] { assert x in v; }
    }
  }

  /** The rows taken in so far. */
  ghost predicate LoadedRows(rows: EdgeTable, done: EdgeTable, rest: set<(Uuid, Uuid)>) {
    && rest <= rows.Keys && done.Keys == rows.Keys - rest && |done| + |rest| == |rows|
    && forall e :: e in done ==> done[e] == rows[e]
  }

  lemma NothingLoaded(rows: EdgeTable)
    ensures LoadedRows(rows, map[], rows.Keys)
  {
  }

  lemma LoadedNext(rows: EdgeTable, done: EdgeTable, rest: set<(Uuid, Uuid)>, e: (Uuid, Uuid))
    requires LoadedRows(rows, done, rest) && e in rest
    ensures e in rows && e !in done && |done| < |rows| && |done[e := rows[e]]| == |done| + 1
    ensures LoadedRows(rows, done[e := rows[e]], rest - {e})
  {
    OneMore(done, e, rows[e]);
    assert |rest - {e}| == |rest| - 1;
  }

  lemma AllLoaded(rows: EdgeTable, done: EdgeTable)
    requires LoadedRows(rows, done, {})
    ensures done == rows
  {
  }

  lemma NothingLinked(ids: seq<Uuid>)
    ensures AdjacencyOk(map[], ids, map[]) && SlabOk(map[], ids, map[])
  {
  }

  /** A pair without a row has no slot. */
  lemma NewInSlab(rows: EdgeTable, ids: seq<Uuid>, contents: map<U64, Edge>, u: U32, v: U32)
    requires SlabOk(rows, ids, contents) && u < |ids| && v < |ids| && Canonical(ids[u], ids[v]) !in rows
    ensures EdgeKey(u, v) !in contents
  {
    hide EdgeKey, Canonical;
  }

  lemma OneMore<K, V>(m: map<K, V>, k: K, v: V)
    requires k !in m
    ensures |m[k := v]| == |m| + 1
  {
    assert m[k := v].Keys == m.Keys + {k};
  }

  lemma Overwritten<K, V>(m: map<K, V>, k: K, v: V)
    requires k in m
    ensures |m[k := v]| == |m|
  {
    assert m[k := v].Keys == m.Keys;
  }

  /** A new value for a row changes no adjacency. */
  lemma AdjacencyKept(rows: EdgeTable, ids: seq<Uuid>, g: Links, e: (Uuid, Uuid), row: EdgeRow)
    requires e in rows && AdjacencyOk(rows, ids, g)
    ensures AdjacencyOk(rows[e := row], ids, g)
  {
    hide Canonical;
    forall i: U32, j: U32 ensures Linked(rows[e := row], ids, i, j) <==> Linked(rows, ids, i, j) {
    }
  }

  lemma OneLess<K, V>(m: map<K, V>, k: K)
    requires k in m
    ensures |m - {k}| == |m| - 1
  {
    assert (m - {k}).Keys == m.Keys - {k};
  }
}
