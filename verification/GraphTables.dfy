/** What the in-memory graph has to agree on with its tables, and how single changes keep it so. */
module GraphTables {
  import opened Keys
  import opened Transducer
  import opened Bitmaps
  import opened Indices
  import opened EdgeSlabs

  /** A row of graph_edges, under its canonical pair. */
  datatype EdgeRow = EdgeRow(weight: int, data: Option<string>, edgeType: string)

  type EdgeTable = map<(Uuid, Uuid), EdgeRow>

  /** The table has a row for the pair of indices. */
  predicate Linked(rows: EdgeTable, ids: seq<Uuid>, i: U32, j: U32) {
    i < |ids| && j < |ids| && Canonical(ids[i], ids[j]) in rows
  }

  ghost predicate Distinct(ids: seq<Uuid>) {
    forall i, j :: 0 <= i < j < |ids| ==> ids[i] != ids[j]
  }

  /** Neighbours are exactly the pairs with a row. */
  ghost predicate AdjacencyOk(rows: EdgeTable, ids: seq<Uuid>, g: Links) {
    && (forall i: U32, j: U32 :: j in Neighbours(g, i) <==> Linked(rows, ids, i, j))
    && (forall i :: i in g ==> i < |ids|)
  }

  /** The edge kept for a pair says what its row says, in one direction or the other. */
  predicate Tells(e: Edge, a: Uuid, b: Uuid, row: EdgeRow) {
    && e.weight == row.weight && e.data == row.data
    && ((e.source == a && e.target == b) || (e.source == b && e.target == a))
  }

  /** The slab holds exactly the pairs with a row. */
  ghost predicate SlabOk(rows: EdgeTable, ids: seq<Uuid>, contents: map<U64, Edge>) {
    && (forall i: U32, j: U32 :: EdgeKey(i, j) in contents <==> Linked(rows, ids, i, j))
    && (forall i: U32, j: U32 :: Linked(rows, ids, i, j) ==>
      Tells(contents[EdgeKey(i, j)], ids[i], ids[j], rows[Canonical(ids[i], ids[j])]))
    && (forall k :: k in contents ==> k == EdgeKey(KeyEnds(k).0, KeyEnds(k).1))
  }

  /** Adjacency that agrees with a table is symmetric, and inside the registry. */
  lemma AdjacencySymmetric(rows: EdgeTable, ids: seq<Uuid>, g: Links)
    requires AdjacencyOk(rows, ids, g)
    ensures Symmetric(g) && Within(g, |ids|)
  {
    forall u: U32, v: U32 ensures v in Neighbours(g, u) <==> u in Neighbours(g, v) {
      if u < |ids| && v < |ids| { CanonicalPair(ids[u], ids[v]); }
    }
  }

  function AddNeighbour(g: Links, u: U32, v: U32): Links {
    g[u := Neighbours(g, u) + {v}]
  }

  /** Only what has a neighbour has a set, as after loading. */
  ghost predicate NoneEmpty(g: Links) {
    forall u :: u in g ==> g[u] != {}
  }

  lemma NoneEmptyAfterAdd(g: Links, u: U32, v: U32)
    requires NoneEmpty(g)
    ensures NoneEmpty(AddNeighbour(g, u, v))
  {
    assert v in AddNeighbour(g, u, v)[u];
  }

  function RemoveNeighbour(g: Links, u: U32, v: U32): Links {
    if u in g then g[u := g[u] - {v}] else g
  }

  /** Two pairs of indices share a row only when they are the same pair. */
  lemma SameRow(ids: seq<Uuid>, u: U32, v: U32, i: U32, j: U32)
    requires Distinct(ids) && u < |ids| && v < |ids| && i < |ids| && j < |ids|
    ensures Canonical(ids[i], ids[j]) == Canonical(ids[u], ids[v]) <==> (i == u && j == v) || (i == v && j == u)
  {
    CanonicalInjective(ids[i], ids[j], ids[u], ids[v]);
  }

  lemma LinkedAfterAdd(rows: EdgeTable, ids: seq<Uuid>, u: U32, v: U32, row: EdgeRow, i: U32, j: U32)
    requires Distinct(ids) && u < |ids| && v < |ids|
    ensures Linked(rows[Canonical(ids[u], ids[v]) := row], ids, i, j)
      <==> Linked(rows, ids, i, j) || (i == u && j == v) || (i == v && j == u)
  {
    if i < |ids| && j < |ids| { SameRow(ids, u, v, i, j); }
  }

  lemma LinkedAfterRemove(rows: EdgeTable, ids: seq<Uuid>, u: U32, v: U32, i: U32, j: U32)
    requires Distinct(ids) && u < |ids| && v < |ids|
    ensures Linked(rows - {Canonical(ids[u], ids[v])}, ids, i, j)
      <==> Linked(rows, ids, i, j) && !(i == u && j == v) && !(i == v && j == u)
  {
    if i < |ids| && j < |ids| { SameRow(ids, u, v, i, j); }
  }

  lemma AdjacencyAdd(rows: EdgeTable, ids: seq<Uuid>, g: Links, u: U32, v: U32, row: EdgeRow)
    requires Distinct(ids) && u < |ids| && v < |ids| && AdjacencyOk(rows, ids, g)
    ensures AdjacencyOk(rows[Canonical(ids[u], ids[v]) := row], ids, AddNeighbour(AddNeighbour(g, u, v), v, u))
  {
    hide Linked;
    var h := AddNeighbour(AddNeighbour(g, u, v), v, u);
    forall i: U32, j: U32 ensures j in Neighbours(h, i) <==> Linked(rows[Canonical(ids[u], ids[v]) := row], ids, i, j) {
      LinkedAfterAdd(rows, ids, u, v, row, i, j);
    }
  }

  lemma AdjacencyRemove(rows: EdgeTable, ids: seq<Uuid>, g: Links, u: U32, v: U32)
    requires Distinct(ids) && u < |ids| && v < |ids| && AdjacencyOk(rows, ids, g)
    ensures AdjacencyOk(rows - {Canonical(ids[u], ids[v])}, ids, RemoveNeighbour(RemoveNeighbour(g, u, v), v, u))
  {
    hide Linked;
    var h := RemoveNeighbour(RemoveNeighbour(g, u, v), v, u);
    forall i: U32, j: U32 ensures j in Neighbours(h, i) <==> Linked(rows - {Canonical(ids[u], ids[v])}, ids, i, j) {
      LinkedAfterRemove(rows, ids, u, v, i, j);
    }
  }

  lemma SlabPut(rows: EdgeTable, ids: seq<Uuid>, contents: map<U64, Edge>, u: U32, v: U32, row: EdgeRow, e: Edge)
    requires Distinct(ids) && u < |ids| && v < |ids| && SlabOk(rows, ids, contents)
    requires Tells(e, ids[u], ids[v], row)
    ensures SlabOk(rows[Canonical(ids[u], ids[v]) := row], ids, contents[EdgeKey(u, v) := e])
  {
    hide EdgeKey, Canonical, Tells, KeyEnds;
    var rows', contents' := rows[Canonical(ids[u], ids[v]) := row], contents[EdgeKey(u, v) := e];
    forall i: U32, j: U32 ensures EdgeKey(i, j) in contents' <==> Linked(rows', ids, i, j)
      ensures Linked(rows', ids, i, j) ==>
        Tells(contents'[EdgeKey(i, j)], ids[i], ids[j], rows'[Canonical(ids[i], ids[j])])
    {
      LinkedAfterAdd(rows, ids, u, v, row, i, j);
      EdgeKeyInjective(i, j, u, v);
      if i < |ids| && j < |ids| { SameRow(ids, u, v, i, j); }
      TellsEither(e, ids[u], ids[v], row);
    }
    KeyEndsBack(u, v);
  }

  lemma TellsEither(e: Edge, a: Uuid, b: Uuid, row: EdgeRow)
    ensures Tells(e, a, b, row) <==> Tells(e, b, a, row)
  {
  }

  lemma KeyEndsBack(u: U32, v: U32)
    ensures EdgeKey(u, v) == EdgeKey(KeyEnds(EdgeKey(u, v)).0, KeyEnds(EdgeKey(u, v)).1)
  {
    KeyEndsOf(u, v);
    EdgeKeyInjective(u, v, v, u);
  }

  lemma SlabRemove(rows: EdgeTable, ids: seq<Uuid>, contents: map<U64, Edge>, u: U32, v: U32)
    requires Distinct(ids) && u < |ids| && v < |ids| && SlabOk(rows, ids, contents)
    ensures SlabOk(rows - {Canonical(ids[u], ids[v])}, ids, contents - {EdgeKey(u, v)})
  {
    hide EdgeKey, Canonical, Tells, KeyEnds;
    var rows', contents' := rows - {Canonical(ids[u], ids[v])}, contents - {EdgeKey(u, v)};
    forall i: U32, j: U32 ensures EdgeKey(i, j) in contents' <==> Linked(rows', ids, i, j)
      ensures Linked(rows', ids, i, j) ==>
        Tells(contents'[EdgeKey(i, j)], ids[i], ids[j], rows'[Canonical(ids[i], ids[j])])
    {
      LinkedAfterRemove(rows, ids, u, v, i, j);
      EdgeKeyInjective(i, j, u, v);
    }
  }

  /** No row mentions id. */
  ghost predicate Unmentioned(rows: EdgeTable, id: Uuid) {
    forall e :: e in rows ==> e.0 != id && e.1 != id
  }

  /** A new identifier has no edges yet. */
  lemma LinkedAfterAssign(rows: EdgeTable, ids: seq<Uuid>, id: Uuid, i: U32, j: U32)
    requires Unmentioned(rows, id)
    ensures Linked(rows, ids + [id], i, j) <==> Linked(rows, ids, i, j)
  {
    var more := ids + [id];
    if i < |more| && j < |more| { CanonicalPair(more[i], more[j]); }
  }

  lemma AssignKeeps(rows: EdgeTable, ids: seq<Uuid>, id: Uuid, g: Links, contents: map<U64, Edge>)
    requires Unmentioned(rows, id) && AdjacencyOk(rows, ids, g) && SlabOk(rows, ids, contents)
    ensures AdjacencyOk(rows, ids + [id], g) && SlabOk(rows, ids + [id], contents)
  {
    hide EdgeKey, Canonical, Tells, KeyEnds, Linked;
    forall i: U32, j: U32 ensures Linked(rows, ids + [id], i, j) <==> Linked(rows, ids, i, j) {
      LinkedAfterAssign(rows, ids, id, i, j);
    }
    var more := ids + [id];
    forall i: U32, j: U32 | Linked(rows, more, i, j)
      ensures i < |ids| && j < |ids| && Canonical(ids[i], ids[j]) in rows && more[i] == ids[i] && more[j] == ids[j]
    {
      LinkedInside(rows, ids, i, j);
    }
  }

  lemma LinkedInside(rows: EdgeTable, ids: seq<Uuid>, i: U32, j: U32)
    requires Linked(rows, ids, i, j)
    ensures i < |ids| && j < |ids| && Canonical(ids[i], ids[j]) in rows
  {
  }

  /** An identifier none of whose indices has a neighbour is in no row. */
  lemma NoNeighbours(rows: EdgeTable, ids: seq<Uuid>, g: Links, u: U32)
    requires AdjacencyOk(rows, ids, g) && u < |ids|
    requires forall e :: e in rows ==> e.0 in ids && e.1 in ids && Canonical(e.0, e.1) == e
    requires |ids| <= U32_LIMIT
    ensures Neighbours(g, u) == {} <==> Unmentioned(rows, ids[u])
  {
    hide Canonical;
    if !Unmentioned(rows, ids[u]) {
      var e :| e in rows && (e.0 == ids[u] || e.1 == ids[u]);
      var i: int :| 0 <= i < |ids| && ids[i] == if e.0 == ids[u] then e.1 else e.0;
      CanonicalPair(e.0, e.1);
      assert Linked(rows, ids, u, i);
    } else if v :| v in Neighbours(g, u) {
      assert Linked(rows, ids, u, v);
      CanonicalPair(ids[u], ids[v]);
    }
  }
}
