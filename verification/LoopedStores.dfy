/** A store whose clustering coefficient counts loops as triangles. */
module LoopedStores {
  import opened Transducer
  import opened Bitmaps
  import opened Indices
  import opened GraphStore
  import opened GraphTables
  import opened AlgoStructural
  import Joins
  import StoredWorlds
  import Traps

  /** Two neighbours of 0, each linked to itself and not to the other. */
  function LoopedPairs(): Traps.Pairs {
    {(0, 1), (1, 0), (0, 2), (2, 0), (1, 1), (2, 2)}
  }

  function LoopedLinks(): (g: Links)
    ensures forall u: U32, v: U32 :: v in Neighbours(g, u) <==> (u, v) in LoopedPairs()
    ensures NoneEmpty(g)
  {
    Traps.LinksOf(LoopedPairs())
  }

  lemma LoopedSymmetric()
    ensures Symmetric(LoopedLinks()) && Within(LoopedLinks(), 3)
  {
    hide LoopedLinks, Neighbours;
  }

  lemma LoopedKeys(u: U32)
    ensures u in LoopedLinks() ==> u < 3
  {
    hide LoopedLinks;
    if u in LoopedLinks() {
      var v :| v in LoopedLinks()[u];
      assert v in Neighbours(LoopedLinks(), u);
    }
  }

  lemma LoopedFew()
    ensures |StoredWorlds.Ends(LoopedLinks())| <= 6
  {
    hide LoopedLinks, StoredWorlds.Ends, Neighbours;
    var ends := StoredWorlds.Ends(LoopedLinks());
    forall u: U32, v: U32 ensures (u, v) in ends <==> (u, v) in LoopedPairs() {}
    StoredWorlds.SamePairs(ends, LoopedPairs());
  }

  /** 1 and 2 are the neighbours of 0; both have loops, and there is no edge between them. */
  lemma LoopsCounted(g: Links)
    requires g == LoopedLinks()
    ensures Neighbours(g, 0) == {1, 2} && EdgesAmong(g, {1, 2}) == {} && LoopsAmong(g, {1, 2}) == {1, 2}
  {
    hide LoopedLinks, Neighbours;
    forall v: U32 ensures v in Neighbours(g, 0) <==> v in {1, 2} {}
  }

  function LoopedIds(): (m: map<Uuid, U32>)
    ensures |m| == 3 && Traps.NumberedDensely(m) && Traps.IdOf(0) in m && m[Traps.IdOf(0)] == 0
  {
    hide Traps.IdOf, Traps.WithFresh;
    Traps.WithFresh(Traps.WithFresh(map[Traps.IdOf(0) := 0], 1), 2)
  }

  lemma OneOfOne(r: real)
    ensures r * Possible(2) as real == 1.0 ==> r == 1.0
  {
    assert Possible(2) == 1;
  }

  /** The coefficient of id is 1, although no two of its neighbours are linked. */
  method LoopedNeighbours() returns (s: SQLiteStore<int>, id: Uuid, r: Option<real>)
    ensures s.Valid() && r == Some(1.0) && s.registry.Get(id) == Some(0)
    ensures Neighbours(s.outEdges, 0) == {1, 2} && EdgesAmong(s.outEdges, {1, 2}) == {}
  {
    hide SQLiteStore.Valid, LoopedLinks, LoopedIds, EdgesAmong, LoopsAmong, StoredWorlds.Ends, Traps.IdOf, Symmetric,
      Within, Traps.NumberedDensely, NoneEmpty, Neighbours, Possible;
    LoopedSymmetric();
    LoopedFew();
    forall u: U32 ensures u in LoopedLinks() ==> u < 3 { LoopedKeys(u); }
    LoopsCounted(LoopedLinks());
    id := Traps.IdOf(0);
    s := StoredWorlds.StoreIn(Joins.World(LoopedLinks(), map[], LoopedIds()));
    s.WarmSearchable();
    r := ClusteringCoefficient(s, id, {1, 2});
    OneOfOne(r.value);
  }
}
