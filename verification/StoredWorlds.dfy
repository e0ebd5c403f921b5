/** The worlds of queries are those of stores: every store is in a possible one, and traps can be stored. */
module StoredWorlds {
  import opened Transducer
  import opened Bitmaps
  import opened Indices
  import opened EdgeSlabs
  import opened GraphTables
  import opened GraphStore
  import opened Joins
  import opened QueryEngine
  import opened Traps

  /** A store whose cache refines its tables, with labels on registered vertices only, is in a possible world. */
  lemma StoreWorldPossible<T(!new)>(s: SQLiteStore<T>, index: LabelIndex)
    requires s.Valid()
    requires forall l :: l in index ==> forall u :: u in index[l] ==> u < |s.registry.idxToUUID|
    ensures Possible(WorldOf(s, index))
  {
    hide Linked, SQLiteStore.VerticesWarm, SlabOk;
    AdjacencySymmetric(s.edgeRows, s.registry.idxToUUID, s.outEdges);
    s.registry.AsManyIndices();
  }

  /** All links, as pairs. */
  function Ends(g: Links): (p: Pairs)
    ensures forall u: U32, v: U32 :: (u, v) in p <==> v in Neighbours(g, u)
  {
    set u, v | u in g && v in g[u] :: (u, v)
  }

  lemma SamePairs(a: Pairs, b: Pairs)
    requires forall u: U32, v: U32 :: (u, v) in a <==> (u, v) in b
    ensures a == b
  {
    forall p: (U32, U32) ensures p in a <==> p in b { assert p == (p.0, p.1); }
  }

  lemma TrapEnds(q: Query, x: string)
    requires |q.patterns| + 3 < U32_LIMIT
    ensures |Ends(Trap(q, x).links)| <= 4 * |q.edges| + 4
    ensures NoneEmpty(Trap(q, x).links)
    ensures |Trap(q, x).known| <= U32_LIMIT
  {
    hide LinksOf, TrapPairs, TrapIds, UpTo, LabelsOf, Ends;
    var g, p := Trap(q, x).links, TrapPairs(q.patterns, q.edges, x);
    forall u: U32, v: U32 ensures (u, v) in Ends(g) <==> (u, v) in p {}
    SamePairs(Ends(g), p);
  }

  lemma {:induction false} UpToCount(n: nat)
    requires n <= U32_LIMIT
    ensures |UpTo(n)| == n
  {
    if n > 0 { UpToCount(n - 1); }
  }

  lemma {:induction false} ValuesCount(known: map<Uuid, U32>, s: Bitmap)
    requires Injective(known) && forall i :: i in s <==> exists id :: id in known && known[id] == i
    ensures |s| == |known|
    decreases |known|
  {
    if known == map[] {
      assert s == {};
    } else {
      var id :| id in known;
      var fewer := known - {id};
      assert known.Keys == fewer.Keys + {id};
      assert known[id] in s;
      forall i | i in s - {known[id]} ensures exists k :: k in fewer && fewer[k] == i {
        var k :| k in known && known[k] == i;
        assert k in fewer && fewer[k] == i;
      }
      ValuesCount(fewer, s - {known[id]});
    }
  }

  /** Numbered densely, identifiers have all the first indices. */
  lemma EveryIndex(known: map<Uuid, U32>, i: U32) returns (id: Uuid)
    requires NumberedDensely(known) && i < |known| <= U32_LIMIT
    ensures id in known && known[id] == i
  {
    var s: Bitmap := set k | k in known :: known[k];
    ValuesCount(known, s);
    UpToCount(|known|);
    SubsetAll(s, UpTo(|known|));
    assert i in s;
    id :| id in known && known[id] == i;
  }

  lemma SubsetAll(a: Bitmap, b: Bitmap)
    requires a <= b && |a| == |b|
    ensures a == b
  {
    assert b == a + (b - a);
    assert b - a == {};
  }

  /** The identifiers by index. */
  method ByIndex(known: map<Uuid, U32>) returns (ids: seq<Uuid>)
    requires NumberedDensely(known) && |known| <= U32_LIMIT
    ensures |ids| == |known| && forall id :: id in known ==> known[id] < |ids| && ids[known[id]] == id
    ensures Distinct(ids) && forall i :: 0 <= i < |ids| ==> ids[i] in known && known[ids[i]] == i
  {
    ids := seq(|known|, _ => NIL);
    var rest := known.Keys;
    while rest != {}
      invariant rest <= known.Keys && |ids| == |known|
      invariant forall id :: id in known && id !in rest ==> ids[known[id]] == id
      decreases |rest|
    {
      var id :| id in rest;
      ids := ids[known[id] := id];
      rest := rest - {id};
    }
    forall i: U32 | i < |ids| ensures ids[i] in known && known[ids[i]] == i {
      var id := EveryIndex(known, i);
    }
  }

  /** The rows stand for the links that are no longer to do. */
  ghost predicate RowsDone(ids: seq<Uuid>, ends: Pairs, rest: Pairs, rows: EdgeTable) {
    && |ids| <= U32_LIMIT && rest <= ends && |rows| + |rest| <= |ends|
    && (forall i: U32, j: U32 :: Linked(rows, ids, i, j) <==>
      ((i, j) in ends && (i, j) !in rest) || ((j, i) in ends && (j, i) !in rest))
    && (forall e :: e in rows ==> e.0 in ids && e.1 in ids && Canonical(e.0, e.1) == e)
  }

  const TRAP_ROW: EdgeRow := EdgeRow(0, None, "default")

  lemma RowDone(ids: seq<Uuid>, ends: Pairs, rest: Pairs, rows: EdgeTable, p: (U32, U32))
    requires RowsDone(ids, ends, rest, rows) && p in rest && Distinct(ids) && p.0 < |ids| && p.1 < |ids|
    ensures RowsDone(ids, ends, rest - {p}, rows[Canonical(ids[p.0], ids[p.1]) := TRAP_ROW])
  {
    hide Canonical, Linked;
    var more := rows[Canonical(ids[p.0], ids[p.1]) := TRAP_ROW];
    forall i: U32, j: U32 ensures Linked(more, ids, i, j) <==>
      ((i, j) in ends && (i, j) !in rest - {p}) || ((j, i) in ends && (j, i) !in rest - {p})
    {
      LinkedAfterAdd(rows, ids, p.0, p.1, TRAP_ROW, i, j);
      assert (i, j) == p <==> i == p.0 && j == p.1;
      assert (j, i) == p <==> j == p.0 && i == p.1;
    }
    CanonicalPair(ids[p.0], ids[p.1]);
  }

  /** The rows of links, one for each unordered pair. */
  method RowsFor(ids: seq<Uuid>, ghost g: Links, ends: Pairs) returns (rows: EdgeTable)
    requires |ids| <= U32_LIMIT && ends == Ends(g) && Symmetric(g) && Within(g, |ids|) && Distinct(ids)
    ensures |rows| <= |ends| && forall i: U32, j: U32 :: j in Neighbours(g, i) <==> Linked(rows, ids, i, j)
    ensures forall e :: e in rows ==> e.0 in ids && e.1 in ids && Canonical(e.0, e.1) == e
  {
    hide Canonical, Neighbours, Linked, Ends;
    rows := map[];
    var rest := ends;
    NothingDone(ids, ends);
    while rest != {}
      invariant RowsDone(ids, ends, rest, rows)
      decreases |rest|
    {
      var p :| p in rest;
      assert p == (p.0, p.1);
      RowDone(ids, ends, rest, rows, p);
      rows := rows[Canonical(ids[p.0], ids[p.1]) := TRAP_ROW];
      rest := rest - {p};
    }
  }

  lemma NothingDone(ids: seq<Uuid>, ends: Pairs)
    requires |ids| <= U32_LIMIT
    ensures RowsDone(ids, ends, ends, map[])
  {
  }

  function TableOf(ids: seq<Uuid>): seq<IndexRow>
    requires |ids| <= U32_LIMIT
  {
    seq(|ids|, i requires 0 <= i < |ids| => IndexRow(ids[i], i))
  }

  /** A store in a world: any possible one whose rows fit the slab, without empty neighbour sets. */
  method StoreIn(w: World) returns (s: SQLiteStore<int>)
    requires Possible(w) && |w.known| <= U32_LIMIT && |Ends(w.links)| < U32_LIMIT
    requires NoneEmpty(w.links)
    ensures s.Valid() && WorldOf(s, w.labels) == w
  {
    hide Canonical, Linked, Ends, Symmetric, Within, AdjacencyOk, NoneEmpty, RowsOk, Distinct, SQLiteStore.Valid,
      IndexRegistry.Valid;
    var ids := ByIndex(w.known);
    var edgeRows := RowsFor(ids, w.links, Ends(w.links));
    var registry := RegistryOf(w.known, ids);
    var vertexRows := map id | id in w.known :: VertexRow(0, 0);
    RowsFit(vertexRows, edgeRows, w.known, ids);
    s := LoadedStore(registry, vertexRows, edgeRows);
    SameLinks(edgeRows, ids, w.links, s.outEdges);
  }

  lemma RowsFit(vertexRows: map<Uuid, VertexRow<int>>, edgeRows: EdgeTable, known: map<Uuid, U32>, ids: seq<Uuid>)
    requires vertexRows.Keys == known.Keys && forall i :: 0 <= i < |ids| ==> ids[i] in known
    requires forall e :: e in edgeRows ==> e.0 in ids && e.1 in ids && Canonical(e.0, e.1) == e
    ensures RowsOk(vertexRows, edgeRows, known)
  {
    hide Canonical;
    forall e | e in edgeRows ensures e.0 in vertexRows && e.1 in vertexRows {}
  }

  /** A store over tables, its cache warm. */
  method LoadedStore(registry: IndexRegistry, vertexRows: map<Uuid, VertexRow<int>>, edgeRows: EdgeTable)
    returns (s: SQLiteStore<int>)
    requires registry.Valid() && |edgeRows| < U32_LIMIT && RowsOk(vertexRows, edgeRows, registry.uuidToIdx)
    ensures s.Valid() && s.registry == registry && NoneEmpty(s.outEdges)
    ensures AdjacencyOk(edgeRows, registry.idxToUUID, s.outEdges)
  {
    hide RowsOk, SlabOk, AdjacencyOk, EdgeSlab.Valid;
    s := new SQLiteStore<int>(registry, vertexRows, edgeRows);
    s.WarmCache();
  }

  /** Links that agree with the same rows, and have no empty sets, are the same. */
  lemma SameLinks(rows: EdgeTable, ids: seq<Uuid>, g: Links, h: Links)
    requires forall i: U32, j: U32 :: j in Neighbours(g, i) <==> Linked(rows, ids, i, j)
    requires AdjacencyOk(rows, ids, h) && NoneEmpty(g) && NoneEmpty(h)
    ensures g == h
  {
    hide Linked;
    forall u: U32 ensures Neighbours(g, u) == Neighbours(h, u) {}
    forall u: U32 ensures u in g <==> u in h {
      assert u in g <==> Neighbours(g, u) != {};
      assert u in h <==> Neighbours(h, u) != {};
    }
    forall u: U32 | u in g ensures g[u] == h[u] { assert Neighbours(g, u) == Neighbours(h, u); }
  }

  /** A registry of identifiers as they are numbered. */
  method RegistryOf(ghost known: map<Uuid, U32>, ids: seq<Uuid>) returns (registry: IndexRegistry)
    requires |ids| == |known| && |ids| <= U32_LIMIT && Distinct(ids)
    requires forall id :: id in known ==> known[id] < |ids| && ids[known[id]] == id
    requires forall i :: 0 <= i < |ids| ==> ids[i] in known && known[ids[i]] == i
    ensures registry.Valid() && fresh(registry) && registry.idxToUUID == ids && registry.uuidToIdx == known
  {
    registry := new IndexRegistry(TableOf(ids));
    assert forall i: U32 :: i < |ids| ==> registry.table[i] == IndexRow(ids[i], i);
    assert registry.idxToUUID == ids;
    forall id | id in registry.uuidToIdx ensures id in known && known[id] == registry.uuidToIdx[id] {
      assert ids[registry.uuidToIdx[id]] == id;
    }
    forall id | id in known ensures id in registry.uuidToIdx { assert ids[known[id]] in registry.uuidToIdx; }
  }

  /** Any query with an unpinned loop is answered wrongly in the world of some store. */
  method Ensnare(q: Query, e: EdgePattern) returns (s: SQLiteStore<int>, labels: LabelIndex)
    requires Wellformed(q) && |q.patterns| + 3 < U32_LIMIT && 4 * |q.edges| + 4 < U32_LIMIT
    requires e in q.edges && e.source == e.target && Deciding(q.patterns, e.source).value.idFilter == None
    ensures s.Valid() && !Exact(WorldOf(s, labels), q)
  {
    hide Trap, Exact, Ends;
    TrapPossible(q, e.source);
    TrapEnds(q, e.source);
    TrapCatches(q, e);
    var w := Trap(q, e.source);
    labels := w.labels;
    s := StoreIn(w);
  }
}
