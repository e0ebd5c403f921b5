/** algo_components.go: one sweep of breadth-first searches, a list for each component. */
module Components {
  import opened Bitmaps
  import opened Indices
  import opened GraphStore
  import opened Reach
  import opened AlgoPaths

  /** Some path joins the two. */
  ghost predicate Joined(g: Links, a: U32, b: U32) {
    exists p :: PathFrom(g, a, b, p)
  }

  lemma JoinedItself(g: Links, a: U32)
    ensures Joined(g, a, a)
  {
    assert PathFrom(g, a, a, [a]);
  }

  lemma JoinedOn(g: Links, a: U32, b: U32, c: U32)
    requires Joined(g, a, b) && c in Neighbours(g, b)
    ensures Joined(g, a, c)
  {
    var p :| PathFrom(g, a, b, p);
    assert PathFrom(g, a, c, p + [c]);
  }

  lemma JoinedBack(g: Links, a: U32, b: U32)
    requires Symmetric(g) && Joined(g, a, b)
    ensures Joined(g, b, a)
  {
    var p :| PathFrom(g, a, b, p);
    var q := seq(|p|, i requires 0 <= i < |p| => p[|p| - 1 - i]);
    forall i | 0 <= i < |q| - 1 ensures q[i + 1] in Neighbours(g, q[i]) {
      var j := |p| - 2 - i;
      assert p[j + 1] in Neighbours(g, p[j]);
    }
    assert PathFrom(g, b, a, q);
  }

  lemma JoinedAcross(g: Links, a: U32, b: U32, c: U32)
    requires Joined(g, a, b) && Joined(g, b, c)
    ensures Joined(g, a, c)
  {
    var p :| PathFrom(g, a, b, p);
    var q :| PathFrom(g, b, c, q);
    var r := p + q[1..];
    forall i | 0 <= i < |r| - 1 ensures r[i + 1] in Neighbours(g, r[i]) {
      if i < |p| - 1 { assert p[i + 1] in Neighbours(g, p[i]); } else {
        var j := i - (|p| - 1);
        assert q[j + 1] in Neighbours(g, q[j]);
      }
    }
    assert PathFrom(g, a, c, r);
  }

  /** A set no link leaves holds everything joined to its members. */
  lemma {:induction false} ClosedHolds(g: Links, s: Bitmap, a: U32, b: U32, p: seq<U32>)
    requires Spread(g, s) <= s && a in s && PathFrom(g, a, b, p)
    ensures b in s
    decreases |p|
  {
    if |p| > 1 {
      assert p[0 + 1] in Neighbours(g, p[0]);
      assert PathFrom(g, p[1], b, p[1..]) by {
        forall i | 0 <= i < |p[1..]| - 1 ensures p[1..][i + 1] in Neighbours(g, p[1..][i]) {
          assert p[i + 1 + 1] in Neighbours(g, p[i + 1]);
        }
      }
      ClosedHolds(g, s, p[1], b, p[1..]);
    }
  }

  /** The search from a seed so far: joined to it, and closed but for the frontier. */
  ghost predicate Growing(g: Links, before: Bitmap, seed: U32, component: Bitmap, frontier: Bitmap) {
    && seed in component && frontier <= component && before !! component
    && (forall v :: v in component ==> Joined(g, seed, v))
    && Spread(g, component - frontier) <= component
  }

  lemma GrowingStart(g: Links, before: Bitmap, seed: U32)
    requires seed !in before
    ensures Growing(g, before, seed, {seed}, {seed})
  {
    JoinedItself(g, seed);
  }

  lemma SpreadHas(g: Links, s: Bitmap, u: U32, v: U32)
    ensures u in s && v in Neighbours(g, u) ==> v in Spread(g, s)
  {
  }

  /** Links do not cross into what was visited before. */
  lemma GrowingNext(g: Links, before: Bitmap, seed: U32, component: Bitmap, frontier: Bitmap, next: Bitmap)
    requires Symmetric(g) && Spread(g, before) <= before && Growing(g, before, seed, component, frontier)
    requires next == Spread(g, frontier) - (before + component)
    ensures Growing(g, before, seed, component + next, next)
  {
    forall v | v in next ensures Joined(g, seed, v) {
      var u :| u in frontier && v in Neighbours(g, u);
      JoinedOn(g, seed, u, v);
    }
    forall v | v in Spread(g, (component + next) - next) ensures v in component + next {
      var u :| u in component && v in Neighbours(g, u);
      SpreadHas(g, before, v, u);
      if u in frontier { assert v in Spread(g, frontier); } else { assert v in Spread(g, component - frontier); }
    }
  }

  /** A finished search has exactly what is joined to its seed. */
  lemma GrownAll(g: Links, before: Bitmap, seed: U32, component: Bitmap)
    requires Growing(g, before, seed, component, {})
    ensures Spread(g, component) <= component && component !! before
    ensures forall v :: v in component <==> Joined(g, seed, v)
  {
    assert component - {} == component;
    forall v | Joined(g, seed, v) ensures v in component {
      var p :| PathFrom(g, seed, v, p);
      ClosedHolds(g, component, seed, v, p);
    }
  }

  /** One hop from the frontier, past nothing visited. */
  method Hop(g: Links, frontier: Bitmap, visited: Bitmap) returns (next: Bitmap)
    ensures next == Spread(g, frontier) - visited
  {
    hide Spread;
    next := {};
    ghost var done: Bitmap := {};
    var rest := frontier;
    SpreadNone(g);
    while rest != {}
      invariant rest <= frontier && done == frontier - rest
      invariant forall v :: v in next <==> v in Spread(g, done) && v !in visited
      decreases |rest|
    {
      var f := Least(rest);
      if f in g {
        next := next + (g[f] - visited);
      }
      SpreadMore(g, done, f);
      done := done + {f};
      rest := rest - {f};
    }
    assert done == frontier;
  }

  /** The search from one seed. */
  method Grow(g: Links, seed: U32, visited: Bitmap) returns (component: Bitmap, visited': Bitmap)
    requires Symmetric(g) && seed !in visited && Spread(g, visited) <= visited
    ensures forall v :: v in component <==> Joined(g, seed, v)
    ensures component !! visited && visited' == visited + component && Spread(g, visited') <= visited'
  {
    hide Spread, Joined, Symmetric, Universe, Growing;
    component, visited' := {seed}, visited + {seed};
    var frontier: Bitmap := {seed};
    GrowingStart(g, visited, seed);
    ComponentInUniverse(g, seed);
    while frontier != {}
      invariant Growing(g, visited, seed, component, frontier) && visited' == visited + component
      invariant component <= Universe(g, seed)
      decreases |Universe(g, seed) - component|, if frontier == {} then 0 else 1
    {
      var next := Hop(g, frontier, visited');
      GrowingNext(g, visited, seed, component, frontier, next);
      SpreadInUniverse(g, seed, frontier);
      FewerLeft(Universe(g, seed), component, next);
      visited' := visited' + next;
      component := component + next;
      frontier := next;
    }
    GrownAll(g, visited, seed, component);
    SpreadBoth(g, visited, component);
  }

  lemma FewerLeft(all: Bitmap, s: Bitmap, next: Bitmap)
    requires s <= all && next <= all && s !! next
    ensures next != {} ==> |all - (s + next)| < |all - s|
    ensures next == {} ==> s + next == s
  {
    if v :| v in next { Shrinks(all - (s + next), all - s, v); }
  }

  lemma ComponentInUniverse(g: Links, a: U32)
    ensures {a} <= Universe(g, a)
  {
  }

  lemma SpreadInUniverse(g: Links, a: U32, s: Bitmap)
    ensures Spread(g, s) <= Universe(g, a)
  {
    forall v | v in Spread(g, s) ensures v in Universe(g, a) {
      var u :| u in s && v in Neighbours(g, u);
      assert u in g.Keys;
    }
  }

  lemma SpreadBoth(g: Links, s: Bitmap, t: Bitmap)
    requires Spread(g, s) <= s && Spread(g, t) <= t
    ensures Spread(g, s + t) <= s + t
  {
    forall v | v in Spread(g, s + t) ensures v in s + t {
      var u :| u in s + t && v in Neighbours(g, u);
      if u in s { assert v in Spread(g, s); } else { assert v in Spread(g, t); }
    }
  }

  /**
   * The components found so far: each one everything joined to its seed, no two sharing a vertex,
   * together all that has been visited.
   */
  ghost predicate Partial(g: Links, parts: seq<Bitmap>, seeds: seq<U32>, visited: Bitmap) {
    && |parts| == |seeds|
    && (forall k, v :: 0 <= k < |parts| ==> (v in parts[k] <==> Joined(g, seeds[k], v)))
    && (forall i, j :: 0 <= i < j < |parts| ==> parts[i] !! parts[j])
    && (forall v :: v in visited <==> InSome(parts, v))
  }

  ghost predicate InSome(parts: seq<Bitmap>, v: U32) {
    exists k :: 0 <= k < |parts| && v in parts[k]
  }

  ghost predicate Together(parts: seq<Bitmap>, u: U32, v: U32) {
    exists k :: 0 <= k < |parts| && u in parts[k] && v in parts[k]
  }

  lemma PartialMore(g: Links, parts: seq<Bitmap>, seeds: seq<U32>, visited: Bitmap, part: Bitmap, seed: U32)
    requires Partial(g, parts, seeds, visited) && part !! visited
    requires forall v :: v in part <==> Joined(g, seed, v)
    ensures Partial(g, parts + [part], seeds + [seed], visited + part)
  {
    hide Joined;
    var more := parts + [part];
    forall i, j | 0 <= i < j < |more| ensures more[i] !! more[j] {
      if j == |parts| { assert parts[i] <= visited by { forall v | v in parts[i] ensures v in visited {} } }
    }
    forall v ensures v in visited + part <==> InSome(more, v) {
      if v in visited { var k :| 0 <= k < |parts| && v in parts[k]; assert v in more[k]; }
      if v in part { assert v in more[|parts|]; }
    }
  }

  /** Two vertices are in one list exactly when a path joins them. */
  lemma SameComponent(g: Links, parts: seq<Bitmap>, seeds: seq<U32>, visited: Bitmap, u: U32, v: U32)
    requires Symmetric(g) && Partial(g, parts, seeds, visited) && u in visited
    ensures Joined(g, u, v) <==> Together(parts, u, v)
  {
    hide Symmetric;
    var k :| 0 <= k < |parts| && u in parts[k];
    if Joined(g, u, v) {
      JoinedAcross(g, seeds[k], u, v);
    }
    if j :| 0 <= j < |parts| && u in parts[j] && v in parts[j] {
      JoinedBack(g, seeds[j], u);
      JoinedAcross(g, u, seeds[j], v);
    }
  }

  /** The component of one seed, and its identifiers in the order of their indices. */
  method Component<T(!new)>(s: SQLiteStore<T>, seed: U32, visited: Bitmap, ghost all: Bitmap)
    returns (ids: seq<Uuid>, component: Bitmap, visited': Bitmap)
    requires s.Valid() && seed !in visited && Spread(s.outEdges, visited) <= visited
    requires seed in all && forall v: U32 :: v in all <==> v < |s.registry.idxToUUID|
    ensures forall v :: v in component <==> Joined(s.outEdges, seed, v)
    ensures component !! visited && visited' == visited + component && Spread(s.outEdges, visited') <= visited'
    ensures Named(ids, Sorted(component), s.registry.idxToUUID) && seed in component && component <= all
  {
    hide SQLiteStore.Valid, Joined, Spread, Symmetric, Within, Named, Sorted;
    StoreLinks(s);
    component, visited' := Grow(s.outEdges, seed, visited);
    JoinedItself(s.outEdges, seed);
    ComponentInside(s.outEdges, seed, component, |s.registry.idxToUUID|);
    ids := Names(s, Sorted(component));
  }

  ghost predicate Listed(lists: seq<seq<Uuid>>, a: Uuid, b: Uuid) {
    exists k :: 0 <= k < |lists| && a in lists[k] && b in lists[k]
  }

  /** The lists share no identifier, and none comes twice in one. */
  ghost predicate Disjoint(lists: seq<seq<Uuid>>) {
    && (forall k, i, j :: 0 <= k < |lists| && 0 <= i < j < |lists[k]| ==> lists[k][i] != lists[k][j])
    && (forall k, l, i, j :: 0 <= k < l < |lists| && 0 <= i < |lists[k]| && 0 <= j < |lists[l]| ==>
      lists[k][i] != lists[l][j])
  }

  /**
   * `ConnectedComponents`: the registered identifiers split into lists; two are in the same list exactly
   * when a path joins them, and each is in one.
   */
  method ConnectedComponents<T(!new)>(s: SQLiteStore<T>) returns (lists: seq<seq<Uuid>>)
    requires s.Valid()
    ensures Disjoint(lists)
    ensures forall a :: Listed(lists, a, a) <==> a in s.registry.uuidToIdx
    ensures forall a, b :: a in s.registry.uuidToIdx && b in s.registry.uuidToIdx ==>
      (Listed(lists, a, b) <==> Joined(s.outEdges, s.registry.uuidToIdx[a], s.registry.uuidToIdx[b]))
  {
    hide SQLiteStore.Valid, Joined, Spread, Symmetric, Within, Sorted, Named, Partial, InSome, Together, Listed,
      Disjoint;
    var n := |s.registry.idxToUUID|;
    StoreLinks(s);
    var indices := s.registry.AllIndices();
    var allNodes: Bitmap := set i | i in indices;
    lists := [];
    ghost var parts: seq<Bitmap> := [];
    ghost var seeds: seq<U32> := [];
    var visited: Bitmap := {};
    SpreadNone(s.outEdges);
    NoParts(s.outEdges);
    var rest := allNodes;
    while rest != {}
      invariant rest <= allNodes && allNodes - rest <= visited <= allNodes
      invariant Spread(s.outEdges, visited) <= visited
      invariant Partial(s.outEdges, parts, seeds, visited) && |lists| == |parts|
      invariant forall k :: 0 <= k < |parts| ==> Named(lists[k], Sorted(parts[k]), s.registry.idxToUUID)
      decreases |rest|
    {
      var seed := Least(rest);
      rest := rest - {seed};
      if seed in visited {
        continue;
      }
      ghost var was := visited;
      var ids, component;
      ids, component, visited := Component(s, seed, visited, allNodes);
      PartialMore(s.outEdges, parts, seeds, was, component, seed);
      lists, parts, seeds := lists + [ids], parts + [component], seeds + [seed];
    }
    assert visited == allNodes;
    Partitioned(s.outEdges, parts, seeds, visited);
    ListsSay(s.registry, lists, parts);
  }

  /** The lists say of identifiers what the sets say of indices. */
  lemma ListsSay(reg: IndexRegistry, lists: seq<seq<Uuid>>, parts: seq<Bitmap>)
    requires reg.Valid() && |lists| == |parts|
    requires forall k :: 0 <= k < |parts| ==> Named(lists[k], Sorted(parts[k]), reg.idxToUUID)
    requires forall i, j :: 0 <= i < j < |parts| ==> parts[i] !! parts[j]
    requires forall v: U32 :: v < |reg.idxToUUID| <==> InSome(parts, v)
    ensures Disjoint(lists)
    ensures forall a :: Listed(lists, a, a) <==> a in reg.uuidToIdx
    ensures forall a, b :: a in reg.uuidToIdx && b in reg.uuidToIdx ==>
      (Listed(lists, a, b) <==> Together(parts, reg.uuidToIdx[a], reg.uuidToIdx[b]))
  {
    hide Sorted, Named, InSome, Disjoint;
    forall k, a | 0 <= k < |lists| ensures a in lists[k] <==> a in reg.uuidToIdx && reg.uuidToIdx[a] in parts[k] {
      InListWhen(reg, lists[k], parts[k], a);
    }
    forall a | a in reg.uuidToIdx ensures Listed(lists, a, a) {
      var k := PlaceIn(parts, reg.uuidToIdx[a], |reg.idxToUUID|);
      assert a in lists[k];
    }
    ListsDisjoint(reg, lists, parts);
  }

  lemma PlaceIn(parts: seq<Bitmap>, v: U32, n: nat) returns (k: nat)
    requires v < n && forall v: U32 :: v < n <==> InSome(parts, v)
    ensures k < |parts| && v in parts[k]
  {
    assert InSome(parts, v);
    k :| 0 <= k < |parts| && v in parts[k];
  }

  lemma InListWhen(reg: IndexRegistry, list: seq<Uuid>, part: Bitmap, a: Uuid)
    requires reg.Valid() && Named(list, Sorted(part), reg.idxToUUID)
    ensures a in list <==> a in reg.uuidToIdx && reg.uuidToIdx[a] in part
  {
    hide Sorted;
    var order := Sorted(part);
    if a in list {
      var i :| 0 <= i < |list| && list[i] == a;
      assert order[i] in part && reg.uuidToIdx[a] == order[i];
    }
    if a in reg.uuidToIdx && reg.uuidToIdx[a] in part {
      var i :| 0 <= i < |order| && order[i] == reg.uuidToIdx[a];
      assert list[i] == a;
    }
  }

  lemma ListsDisjoint(reg: IndexRegistry, lists: seq<seq<Uuid>>, parts: seq<Bitmap>)
    requires reg.Valid() && |lists| == |parts|
    requires forall k :: 0 <= k < |parts| ==> Named(lists[k], Sorted(parts[k]), reg.idxToUUID)
    requires forall i, j :: 0 <= i < j < |parts| ==> parts[i] !! parts[j]
    ensures Disjoint(lists)
  {
    hide Sorted;
    forall k, i, j | 0 <= k < |lists| && 0 <= i < j < |lists[k]| ensures lists[k][i] != lists[k][j] {
      var order := Sorted(parts[k]);
      assert order[i] < order[j];
      assert reg.uuidToIdx[lists[k][i]] == order[i] && reg.uuidToIdx[lists[k][j]] == order[j];
    }
    forall k, l, i, j | 0 <= k < l < |lists| && 0 <= i < |lists[k]| && 0 <= j < |lists[l]|
      ensures lists[k][i] != lists[l][j]
    {
      var u, v := Sorted(parts[k])[i], Sorted(parts[l])[j];
      assert u in parts[k] && v in parts[l];
      assert reg.uuidToIdx[lists[k][i]] == u && reg.uuidToIdx[lists[l][j]] == v;
    }
  }

  lemma Partitioned(g: Links, parts: seq<Bitmap>, seeds: seq<U32>, visited: Bitmap)
    requires Symmetric(g) && Partial(g, parts, seeds, visited)
    ensures forall i, j :: 0 <= i < j < |parts| ==> parts[i] !! parts[j]
    ensures forall v :: v in visited <==> InSome(parts, v)
    ensures forall u, v :: u in visited ==> (Joined(g, u, v) <==> Together(parts, u, v))
  {
    hide Joined, Together, InSome, Symmetric;
    forall u, v | u in visited ensures Joined(g, u, v) <==> Together(parts, u, v) {
      SameComponent(g, parts, seeds, visited, u, v);
    }
  }

  lemma NoParts(g: Links)
    ensures Partial(g, [], [], {})
  {
  }

  lemma ComponentInside(g: Links, seed: U32, component: Bitmap, n: nat)
    requires Within(g, n) && seed < n && forall v :: v in component <==> Joined(g, seed, v)
    ensures forall v :: v in component ==> v < n
    ensures forall k :: 0 <= k < |Sorted(component)| ==> Sorted(component)[k] < n
  {
    hide Sorted;
    forall v | v in component ensures v < n {
      var p :| PathFrom(g, seed, v, p);
      PathInside(g, seed, v, p, n);
    }
    forall k | 0 <= k < |Sorted(component)| ensures Sorted(component)[k] < n {
      assert Sorted(component)[k] in component;
    }
  }
}
