/** Searches do not load the cache: what they answer of a store that has loaded nothing yet. */
module ColdSearches {
  import opened Transducer
  import opened Bitmaps
  import opened Indices
  import opened EdgeSlabs
  import opened GraphTables
  import opened GraphStore
  import opened Reach
  import opened AlgoPaths

  /** Each identifier has a row with the next. */
  ghost predicate RowPath(rows: EdgeTable, src: Uuid, tgt: Uuid, q: seq<Uuid>) {
    && q != [] && q[0] == src && q[|q| - 1] == tgt
    && forall k :: 0 <= k < |q| - 1 ==> Canonical(q[k], q[k + 1]) in rows
  }

  /** One hop in the cache is one row of the table. */
  lemma HopIsRow<T(!new)>(s: SQLiteStore<T>, u: U32, v: U32)
    requires s.Valid()
    ensures v in Neighbours(s.outEdges, u) <==>
      u < |s.registry.idxToUUID| && v < |s.registry.idxToUUID|
      && Canonical(s.registry.idxToUUID[u], s.registry.idxToUUID[v]) in s.edgeRows
  {
    hide Canonical, SlabOk, SQLiteStore.VerticesWarm;
    assert v in Neighbours(s.outEdges, u) <==> Linked(s.edgeRows, s.registry.idxToUUID, u, v);
  }

  lemma RowEndsKnown<T(!new)>(s: SQLiteStore<T>, x: Uuid, y: Uuid)
    requires s.Valid() && Canonical(x, y) in s.edgeRows
    ensures x in s.registry.uuidToIdx && y in s.registry.uuidToIdx
  {
    hide SlabOk, AdjacencyOk, SQLiteStore.VerticesWarm;
    CanonicalPair(x, y);
  }

  lemma IndexNames<T(!new)>(s: SQLiteStore<T>, id: Uuid)
    requires s.Valid() && id in s.registry.uuidToIdx
    ensures var i := s.registry.uuidToIdx[id]; i < |s.registry.idxToUUID| && s.registry.idxToUUID[i] == id
  {
  }

  lemma NamedPath<T(!new)>(s: SQLiteStore<T>, src: Uuid, tgt: Uuid, p: seq<U32>) returns (q: seq<Uuid>)
    requires s.Valid() && src in s.registry.uuidToIdx && tgt in s.registry.uuidToIdx
    requires PathFrom(s.outEdges, s.registry.uuidToIdx[src], s.registry.uuidToIdx[tgt], p)
    ensures RowPath(s.edgeRows, src, tgt, q)
  {
    hide SQLiteStore.Valid, Canonical;
    var names := s.registry.idxToUUID;
    IndexNames(s, src);
    IndexNames(s, tgt);
    q := seq(|p|, k requires 0 <= k < |p| => if p[k] < |names| then names[p[k]] else src);
    forall k | 0 <= k < |q| - 1 ensures Canonical(q[k], q[k + 1]) in s.edgeRows {
      HopIsRow(s, p[k], p[k + 1]);
    }
  }

  lemma NumberedPath<T(!new)>(s: SQLiteStore<T>, src: Uuid, tgt: Uuid, q: seq<Uuid>) returns (p: seq<U32>)
    requires s.Valid() && src in s.registry.uuidToIdx && tgt in s.registry.uuidToIdx
    requires RowPath(s.edgeRows, src, tgt, q)
    ensures PathFrom(s.outEdges, s.registry.uuidToIdx[src], s.registry.uuidToIdx[tgt], p)
  {
    hide SQLiteStore.Valid, Canonical;
    var known := s.registry.uuidToIdx;
    p := seq(|q|, k requires 0 <= k < |q| => if q[k] in known then known[q[k]] else 0);
    forall k | 0 <= k < |p| - 1 ensures p[k + 1] in Neighbours(s.outEdges, p[k]) {
      assert Canonical(q[k], q[k + 1]) in s.edgeRows;
      RowEndsKnown(s, q[k], q[k + 1]);
      IndexNames(s, q[k]);
      IndexNames(s, q[k + 1]);
      HopIsRow(s, p[k], p[k + 1]);
    }
  }

  /** Vertices are joined in the cache exactly when rows join them. */
  lemma PathsAreRowPaths<T(!new)>(s: SQLiteStore<T>, src: Uuid, tgt: Uuid)
    requires s.Valid() && src in s.registry.uuidToIdx && tgt in s.registry.uuidToIdx
    ensures (exists p :: PathFrom(s.outEdges, s.registry.uuidToIdx[src], s.registry.uuidToIdx[tgt], p)) <==>
      exists q :: RowPath(s.edgeRows, src, tgt, q)
  {
    hide SQLiteStore.Valid, PathFrom, RowPath;
    var a, b := s.registry.uuidToIdx[src], s.registry.uuidToIdx[tgt];
    forall p | PathFrom(s.outEdges, a, b, p) ensures exists q :: RowPath(s.edgeRows, src, tgt, q) {
      var q := NamedPath(s, src, tgt, p);
    }
    forall q | RowPath(s.edgeRows, src, tgt, q) ensures exists p :: PathFrom(s.outEdges, a, b, p) {
      var p := NumberedPath(s, src, tgt, q);
    }
  }

  /** Without links nothing but a vertex itself is reached. */
  lemma NoLinksNoPath(g: Links, a: U32, b: U32)
    requires a != b && forall u: U32 :: Neighbours(g, u) == {}
    ensures forall p :: !PathFrom(g, a, b, p)
  {
    forall p: seq<U32> ensures !PathFrom(g, a, b, p) {
      if |p| > 1 { assert p[1] !in Neighbours(g, p[0]); }
    }
  }

  lemma FoundIsPath(g: Links, a: U32, b: U32, r: PathResult, p: seq<U32>)
    requires r.Found? ==> Shortest(g, a, b, p)
    ensures r.Found? ==> PathFrom(g, a, b, p)
  {
  }

  /**
   * A path asked for before and after the cache is loaded: of two different registered vertices the first
   * answer is always that there is none, and it is right if and only if no rows join them.
   */
  method AskColdAndWarm<T(!new)>(registry: IndexRegistry, vertexRows: map<Uuid, VertexRow<T>>, edgeRows: EdgeTable,
    src: Uuid, tgt: Uuid) returns (cold: PathResult, warm: PathResult)
    requires registry.Valid() && |edgeRows| < U32_LIMIT && RowsOk(vertexRows, edgeRows, registry.uuidToIdx)
    requires src in registry.uuidToIdx && tgt in registry.uuidToIdx && src != tgt
    ensures cold == NoPath
    ensures warm == cold <==> forall q :: !RowPath(edgeRows, src, tgt, q)
  {
    hide RowsOk, SlabOk, AdjacencyOk, SameVertices, RowPath, PathFrom, Shortest, SQLiteStore.Valid, SQLiteStore.Ready;
    var s := new SQLiteStore<T>(registry, vertexRows, edgeRows);
    DifferentIndices(s.registry, src, tgt);
    s.ColdSearchable();
    ghost var p;
    cold, p := ShortestPathUnweightedFiltered(s, src, tgt, None, s.outEdges);
    FoundIsPath(s.outEdges, registry.uuidToIdx[src], registry.uuidToIdx[tgt], cold, p);
    NoLinksNoPath(s.outEdges, registry.uuidToIdx[src], registry.uuidToIdx[tgt]);
    s.WarmCache();
    s.WarmSearchable();
    PathsAreRowPaths(s, src, tgt);
    warm, p := ShortestPathUnweightedFiltered(s, src, tgt, None, s.outEdges);
    FoundIsPath(s.outEdges, registry.uuidToIdx[src], registry.uuidToIdx[tgt], warm, p);
  }

  lemma DifferentIndices(registry: IndexRegistry, src: Uuid, tgt: Uuid)
    requires registry.Valid() && src in registry.uuidToIdx && tgt in registry.uuidToIdx && src != tgt
    ensures registry.uuidToIdx[src] != registry.uuidToIdx[tgt]
  {
  }
}
