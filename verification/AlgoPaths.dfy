/** algo_paths.go: breadth-first search over the cached adjacency. */
module AlgoPaths {
  import opened Keys
  import opened Transducer
  import opened Bitmaps
  import opened Indices
  import opened EdgeSlabs
  import opened GraphTables
  import opened GraphStore
  import opened Reach

  /** Decides whether an edge may be walked from its first index to its second. */
  type EdgeFilter = (U32, U32, Edge) -> bool

  /** The adjacency of a store is symmetric and inside its registry. */
  lemma StoreLinks<T(!new)>(s: SQLiteStore<T>)
    requires s.Valid()
    ensures Symmetric(s.outEdges) && Within(s.outEdges, |s.registry.idxToUUID|) && s.registry.Valid()
  {
    s.WarmSearchable();
  }

  /** The links a search may walk: all, or those whose edge passes. */
  ghost function Walkable(g: Links, contents: map<U64, Edge>, filter: Option<EdgeFilter>): Links {
    match filter
    case None => g
    case Some(f) => Passing(g, (u: U32, v: U32) => EdgeKey(u, v) in contents && f(u, v, contents[EdgeKey(u, v)]))
  }

  ghost function WalkableIn<T(!new)>(s: SQLiteStore<T>, filter: Option<EdgeFilter>): Links
    reads s, s.registry, s.slab
    requires s.Searchable()
  {
    Walkable(s.outEdges, s.slab.Contents(), filter)
  }

  /** Everything new one hop from the frontier. */
  method Hop<T(!new)>(s: SQLiteStore<T>, frontier: Bitmap, visited: Bitmap, filter: Option<EdgeFilter>, ghost g: Links)
    returns (next: Bitmap)
    requires s.Searchable() && g == WalkableIn(s, filter)
    ensures next == Spread(g, frontier) - visited
  {
    hide SQLiteStore.Searchable, Spread, WalkableIn;
    ghost var done: Bitmap := {};
    next := {};
    SpreadNone(g);
    var rest := frontier;
    while rest != {}
      invariant rest <= frontier && done == frontier - rest
      invariant forall v :: v in next <==> v in Spread(g, done) && v !in visited
      decreases |rest|
    {
      var f := Least(rest);
      var found := NewNeighbours(s, f, visited, filter, g);
      SpreadMore(g, done, f);
      next := next + found;
      done := done + {f};
      rest := rest - {f};
    }
    assert done == frontier;
  }

  lemma SpreadMore(g: Links, s: Bitmap, f: U32)
    ensures Spread(g, s + {f}) == Spread(g, s) + Neighbours(g, f)
  {
  }

  /** The walkable neighbours of f that have not been visited. */
  method NewNeighbours<T(!new)>(s: SQLiteStore<T>, f: U32, visited: Bitmap, filter: Option<EdgeFilter>, ghost g: Links)
    returns (r: Bitmap)
    requires s.Searchable() && g == WalkableIn(s, filter)
    ensures r == Neighbours(g, f) - visited
  {
    hide SQLiteStore.Searchable, Walkable, WalkableIn, EdgeSlab.Valid, EdgeSlab.Contents, EdgeKey;
    SlabValid(s);
    WalkableFrom(s, f, filter);
    if f !in s.outEdges {
      return {};
    }
    if filter == None {
      return s.outEdges[f] - visited;
    }
    r := {};
    var rest := s.outEdges[f];
    while rest != {}
      invariant rest <= s.outEdges[f]
      invariant forall n :: n in r <==> n in Neighbours(g, f) && n !in visited && n !in rest
      decreases |rest|
    {
      var n := Least(rest);
      rest := rest - {n};
      if n in visited {
        continue;
      }
      var edge := s.slab.Get(f, n);
      if edge.Some? && filter.value(f, n, edge.value) {
        r := r + {n};
      }
    }
  }

  lemma SlabValid<T(!new)>(s: SQLiteStore<T>)
    requires s.Searchable()
    ensures s.slab.Valid()
  {
  }

  lemma WalkableFrom<T(!new)>(s: SQLiteStore<T>, f: U32, filter: Option<EdgeFilter>)
    requires s.Searchable()
    ensures Neighbours(WalkableIn(s, filter), f) <= Neighbours(s.outEdges, f)
    ensures filter == None ==> Neighbours(WalkableIn(s, filter), f) == Neighbours(s.outEdges, f)
    ensures filter.Some? ==> forall n :: n in Neighbours(s.outEdges, f) ==>
      (n in Neighbours(WalkableIn(s, filter), f) <==>
        EdgeKey(f, n) in s.slab.Contents() && filter.value(f, n, s.slab.Contents()[EdgeKey(f, n)]))
  {
    hide SQLiteStore.Searchable, EdgeKey, EdgeSlab.Valid, EdgeSlab.Contents;
  }

  /** One to k hops from a. */
  ghost function HopsAway(g: Links, a: U32, k: int): Bitmap {
    Ball(g, a, if k < 0 then 0 else k) - {a}
  }

  /** `KHopBitmapFiltered`: exactly the vertices one to k hops away. */
  method KHopBitmapFiltered<T(!new)>(s: SQLiteStore<T>, id: Uuid, k: int, filter: Option<EdgeFilter>, ghost g: Links)
    returns (r: Option<Bitmap>)
    requires s.Searchable() && g == WalkableIn(s, filter)
    ensures r == None <==> s.registry.Get(id) == None
    ensures r.Some? ==> r.value == HopsAway(g, s.registry.Get(id).value, k)
  {
    hide SQLiteStore.Searchable, Ball, Spread, WalkableIn;
    var idx := s.registry.Get(id);
    if idx == None {
      return None;
    }
    var a := idx.value;
    var visited, frontier, result: Bitmap := {a}, {a}, {};
    BallStart(g, a);
    var hop := 0;
    while hop < k && frontier != {}
      invariant 0 <= hop && (k >= 0 ==> hop <= k) && (k < 0 ==> hop == 0)
      invariant visited == Ball(g, a, hop) && frontier == Sphere(g, a, hop) && result == Ball(g, a, hop) - {a}
      decreases k - hop
    {
      var next := Hop(s, frontier, visited, filter, g);
      NextSphere(g, a, hop);
      StartStays(g, a, hop);
      visited := visited + next;
      result := result + next;
      frontier := next;
      hop := hop + 1;
    }
    if hop < k {
      BallEnds(g, a, hop, k);
      BallGrows(g, a, hop, k);
    }
    return Some(result);
  }

  lemma BallStart(g: Links, a: U32)
    ensures Ball(g, a, 0) == {a} == Sphere(g, a, 0)
  {
  }

  lemma StartStays(g: Links, a: U32, k: nat)
    ensures a in Ball(g, a, k)
  {
    BallGrows(g, a, 0, k);
  }

  /** Every vertex in the map but a itself was reached from its parent, one level earlier. */
  ghost predicate Parents(g: Links, a: U32, parent: map<U32, U32>, dist: map<U32, nat>) {
    && parent.Keys == dist.Keys && a in dist && dist[a] == 0
    && (forall n :: n in dist ==> n in Sphere(g, a, dist[n]))
    && (forall n :: n in dist && n != a ==>
      parent[n] in dist && dist[n] == dist[parent[n]] + 1 && n in Neighbours(g, parent[n]))
  }

  lemma ParentsStart(g: Links, a: U32)
    ensures Parents(g, a, map[a := a], map[a := 0])
  {
  }

  /** A vertex beyond level d gets, or gets another, parent on level d. */
  lemma ParentSet(g: Links, a: U32, parent: map<U32, U32>, dist: map<U32, nat>, d: nat, f: U32, n: U32)
    requires Parents(g, a, parent, dist) && f in dist && dist[f] == d
    requires n in Neighbours(g, f) && n !in Ball(g, a, d)
    ensures Parents(g, a, parent[n := f], dist[n := d + 1])
    ensures n in Sphere(g, a, d + 1)
  {
    hide Ball, Sphere, Spread, Neighbours;
    NeighbourBeyond(g, a, d, f, n);
    if n in dist { SpheresApart(g, a, dist[n], d + 1, n); }
  }

  lemma NeighbourBeyond(g: Links, a: U32, d: nat, f: U32, n: U32)
    requires f in Sphere(g, a, d) && n in Neighbours(g, f) && n !in Ball(g, a, d)
    ensures n in Sphere(g, a, d + 1) && n != a && f != n
  {
    hide Ball, Sphere;
    assert n in Spread(g, Sphere(g, a, d));
    NextSphere(g, a, d);
    StartStays(g, a, d);
    SphereInBall(g, a, d, f);
  }

  lemma SphereInBall(g: Links, a: U32, d: nat, n: U32)
    requires n in Sphere(g, a, d)
    ensures n in Ball(g, a, d)
  {
  }

  /** How far a level of the path search has come. */
  ghost predicate Claimed(g: Links, a: U32, b: U32, d: nat, parent: map<U32, U32>, dist: map<U32, nat>, next: Bitmap,
    found: bool)
  {
    && Parents(g, a, parent, dist) && next <= dist.Keys
    && (found ==> b in dist && b in Sphere(g, a, d + 1))
    && (!found ==> b !in next)
  }

  /** Makes f the parent of what is new next to it, up to the target. */
  method Claim(f: U32, fresh': Bitmap, b: U32, parent: map<U32, U32>, next: Bitmap, ghost g: Links, ghost a: U32,
    ghost d: nat, ghost dist: map<U32, nat>)
    returns (found: bool, parent': map<U32, U32>, next': Bitmap, ghost dist': map<U32, nat>)
    requires Claimed(g, a, b, d, parent, dist, next, false) && f in dist && dist[f] == d
    requires fresh' == Neighbours(g, f) - Ball(g, a, d)
    ensures Claimed(g, a, b, d, parent', dist', next', found)
    ensures !found ==> next' == next + fresh'
    ensures forall n :: n in dist && n in Ball(g, a, d) ==> n in dist' && dist'[n] == dist[n]
  {
    hide Parents, Ball, Sphere, Neighbours;
    found, parent', next', dist' := false, parent, next, dist;
    var rest := fresh';
    while rest != {}
      invariant rest <= fresh' && !found
      invariant Claimed(g, a, b, d, parent', dist', next', false) && f in dist' && dist'[f] == d
      invariant next' == next + (fresh' - rest)
      invariant forall n :: n in dist && n in Ball(g, a, d) ==> n in dist' && dist'[n] == dist[n]
      decreases |rest|
    {
      var n := Least(rest);
      ParentSet(g, a, parent', dist', d, f, n);
      StillOnLevel(g, a, parent', dist', d, f, n);
      parent', dist' := parent'[n := f], dist'[n := d + 1];
      if n == b {
        found := true;
        return;
      }
      next' := next' + {n};
      rest := rest - {n};
    }
  }

  lemma StillOnLevel(g: Links, a: U32, parent: map<U32, U32>, dist: map<U32, nat>, d: nat, f: U32, n: U32)
    requires Parents(g, a, parent, dist) && f in dist && dist[f] == d && n !in Ball(g, a, d)
    ensures f != n && parent.Keys == dist.Keys
  {
    SphereInBall(g, a, d, f);
  }

  /** One level of the path search: the next frontier, or the target's parent. */
  method Level<T(!new)>(s: SQLiteStore<T>, frontier: Bitmap, visited: Bitmap, b: U32, parent: map<U32, U32>,
    filter: Option<EdgeFilter>, ghost g: Links, ghost a: U32, ghost d: nat, ghost dist: map<U32, nat>)
    returns (found: bool, parent': map<U32, U32>, next: Bitmap, ghost dist': map<U32, nat>)
    requires s.Searchable() && g == WalkableIn(s, filter)
    requires visited == Ball(g, a, d) && frontier == Sphere(g, a, d) && frontier <= dist.Keys
    requires Claimed(g, a, b, d, parent, dist, {}, false)
    ensures Claimed(g, a, b, d, parent', dist', next, found)
    ensures !found ==> next == Sphere(g, a, d + 1)
  {
    hide SQLiteStore.Searchable, WalkableIn, Ball, Sphere, Spread, Parents, Neighbours;
    found, parent', next, dist' := false, parent, {}, dist;
    ghost var done: Bitmap := {};
    var rest := frontier;
    SpreadNone(g);
    OnLevel(g, a, parent, dist, d, frontier);
    while rest != {}
      invariant rest <= frontier && done == frontier - rest && !found
      invariant Claimed(g, a, b, d, parent', dist', next, false)
      invariant forall f :: f in frontier ==> f in dist' && dist'[f] == d && f in visited
      invariant forall v :: v in next <==> v in Spread(g, done) && v !in visited
      decreases |rest|
    {
      var f := Least(rest);
      var new' := NewNeighbours(s, f, visited, filter, g);
      found, parent', next, dist' := Claim(f, new', b, parent', next, g, a, d, dist');
      if found {
        return;
      }
      SpreadMore(g, done, f);
      done := done + {f};
      rest := rest - {f};
    }
    assert done == frontier;
    NextSphere(g, a, d);
  }

  lemma OnLevel(g: Links, a: U32, parent: map<U32, U32>, dist: map<U32, nat>, d: nat, frontier: Bitmap)
    requires Parents(g, a, parent, dist) && frontier == Sphere(g, a, d) && frontier <= dist.Keys
    ensures forall f :: f in frontier ==> dist[f] == d && f in Ball(g, a, d)
  {
    forall f | f in frontier ensures dist[f] == d && f in Ball(g, a, d) {
      SpheresApart(g, a, dist[f], d, f);
      SphereInBall(g, a, d, f);
    }
  }

  datatype PathResult = NotFound | NoPath | Found(ids: seq<Uuid>)

  /**
   * `ShortestPathUnweightedFiltered`: a path with the fewest hops among those the filter allows; no
   * path exactly when none is allowed.
   */
  method ShortestPathUnweightedFiltered<T(!new)>(s: SQLiteStore<T>, src: Uuid, tgt: Uuid, filter: Option<EdgeFilter>,
    ghost g: Links) returns (r: PathResult, ghost p: seq<U32>)
    requires s.Searchable() && g == WalkableIn(s, filter)
    ensures r == NotFound <==> s.registry.Get(src) == None || s.registry.Get(tgt) == None
    ensures r == NoPath ==> forall q :: !PathFrom(g, s.registry.Get(src).value, s.registry.Get(tgt).value, q)
    ensures r.Found? ==> Shortest(g, s.registry.Get(src).value, s.registry.Get(tgt).value, p)
    ensures r.Found? ==> Named(r.ids, p, s.registry.idxToUUID)
  {
    hide SQLiteStore.Searchable, WalkableIn, PathFrom, Shortest, Within, Named, Parents, EdgeSlab.Contents;
    var srcIdx, tgtIdx := s.registry.Get(src), s.registry.Get(tgt);
    p := [];
    if srcIdx == None || tgtIdx == None {
      return NotFound, [];
    }
    var a, b := srcIdx.value, tgtIdx.value;
    Registered(s, src);
    if a == b {
      ItselfShortest(g, a);
      NamedOne(src, a, s.registry.idxToUUID);
      return Found([src]), [a];
    }
    var found, parent;
    ghost var dist;
    found, parent, dist := Search(s, a, b, filter, g);
    if !found {
      return NoPath, [];
    }
    WalkInside(s, filter, g);
    var path := Rebuild(parent, a, b, g, dist);
    PathInside(g, a, b, path, |s.registry.idxToUUID|);
    var ids := Names(s, path);
    return Found(ids), path;
  }

  method Names<T(!new)>(s: SQLiteStore<T>, path: seq<U32>) returns (ids: seq<Uuid>)
    requires forall k :: 0 <= k < |path| ==> path[k] < |s.registry.idxToUUID|
    ensures Named(ids, path, s.registry.idxToUUID)
  {
    ids := [];
    for k := 0 to |path|
      invariant Named(ids, path[..k], s.registry.idxToUUID)
    {
      var id := s.registry.ReverseLookup(path[k]);
      if id.Some? {
        ids := ids + [id.value];
      }
      assert path[..k + 1] == path[..k] + [path[k]];
    }
    assert path[..|path|] == path;
  }

  /** The identifiers of the indices, one by one. */
  ghost predicate Named(ids: seq<Uuid>, p: seq<U32>, names: seq<Uuid>) {
    |ids| == |p| && forall k :: 0 <= k < |p| ==> p[k] < |names| && ids[k] == names[p[k]]
  }

  lemma Registered<T(!new)>(s: SQLiteStore<T>, id: Uuid)
    requires s.Searchable()
    ensures var i := s.registry.Get(id); i.Some? ==>
      i.value < |s.registry.idxToUUID| && s.registry.idxToUUID[i.value] == id
  {
  }

  lemma NamedOne(id: Uuid, a: U32, names: seq<Uuid>)
    requires a < |names| && names[a] == id
    ensures Named([id], [a], names)
  {
  }

  lemma ItselfShortest(g: Links, a: U32)
    ensures Shortest(g, a, a, [a])
  {
  }

  lemma WalkInside<T(!new)>(s: SQLiteStore<T>, filter: Option<EdgeFilter>, g: Links)
    requires s.Searchable() && g == WalkableIn(s, filter)
    ensures Within(g, |s.registry.idxToUUID|)
  {
    hide SlabOk, EdgeKey, Linked, WalkableIn;
    forall u: U32, v: U32 | v in Neighbours(g, u) ensures u < |s.registry.idxToUUID| && v < |s.registry.idxToUUID| {
      WalkableFrom(s, u, filter);
    }
  }

  lemma PathInside(g: Links, a: U32, b: U32, p: seq<U32>, n: nat)
    requires PathFrom(g, a, b, p) && Within(g, n) && a < n
    ensures forall k :: 0 <= k < |p| ==> p[k] < n
  {
    forall k | 0 <= k < |p| ensures p[k] < n { if k > 0 { assert p[k - 1 + 1] in Neighbours(g, p[k - 1]); } }
  }

  /** The breadth-first search: the target with its parents, or every path ruled out. */
  method Search<T(!new)>(s: SQLiteStore<T>, a: U32, b: U32, filter: Option<EdgeFilter>, ghost g: Links)
    returns (found: bool, parent: map<U32, U32>, ghost dist: map<U32, nat>)
    requires s.Searchable() && g == WalkableIn(s, filter) && a != b
    ensures found ==> Parents(g, a, parent, dist) && b in dist
    ensures !found ==> forall q :: !PathFrom(g, a, b, q)
  {
    hide SQLiteStore.Searchable, WalkableIn, Ball, Sphere, Spread, Parents, Neighbours, PathFrom, Universe;
    parent, dist := map[a := a], map[a := 0];
    ParentsStart(g, a);
    BallStart(g, a);
    var visited, frontier: Bitmap := {a}, {a};
    found := false;
    ghost var d := 0;
    while frontier != {} && !found
      invariant found ==> Parents(g, a, parent, dist) && b in dist
      invariant !found ==> visited == Ball(g, a, d) && frontier == Sphere(g, a, d) && frontier <= dist.Keys
      invariant !found ==> Parents(g, a, parent, dist) && b !in visited
      decreases !found, |Universe(g, a) - Ball(g, a, d)|, if frontier == {} then 0 else 1
    {
      var next;
      found, parent, next, dist := Level(s, frontier, visited, b, parent, filter, g, a, d, dist);
      NextSphere(g, a, d);
      LeavesFewer(g, a, d);
      visited := visited + next;
      frontier := next;
      d := d + 1;
    }
    if !found { NoneReaches(g, a, b, d); }
  }

  lemma LeavesFewer(g: Links, a: U32, d: nat)
    ensures Sphere(g, a, d + 1) != {} ==> |Universe(g, a) - Ball(g, a, d + 1)| < |Universe(g, a) - Ball(g, a, d)|
    ensures Sphere(g, a, d + 1) == {} ==> Ball(g, a, d + 1) == Ball(g, a, d)
  {
    NextSphere(g, a, d);
    if Sphere(g, a, d + 1) != {} { FewerToVisit(g, a, d); }
  }

  lemma NoneReaches(g: Links, a: U32, b: U32, d: nat)
    requires Sphere(g, a, d) == {} && b !in Ball(g, a, d)
    ensures forall q :: !PathFrom(g, a, b, q)
  {
    forall q ensures !PathFrom(g, a, b, q) {
      if PathFrom(g, a, b, q) {
        PathInBall(g, a, b, q);
        if |q| - 1 <= d { BallGrows(g, a, |q| - 1, d); } else { BallEnds(g, a, d, |q| - 1); }
      }
    }
  }

  /** The walk back through the parents, turned round in place. */
  method Rebuild(parent: map<U32, U32>, a: U32, b: U32, ghost g: Links, ghost dist: map<U32, nat>)
    returns (path: seq<U32>)
    requires Parents(g, a, parent, dist) && b in dist
    ensures PathFrom(g, a, b, path) && Shortest(g, a, b, path)
  {
    hide Sphere, Shortest, PathFrom;
    var back := WalkBack(parent, a, b, g, dist);
    path := TurnRound(back);
    TurnedRound(g, a, b, back, path);
    FewestHops(g, a, b, path, dist[b]);
  }

  method WalkBack(parent: map<U32, U32>, a: U32, b: U32, ghost g: Links, ghost dist: map<U32, nat>)
    returns (path: seq<U32>)
    requires Parents(g, a, parent, dist) && b in dist
    ensures |path| == dist[b] + 1 && path[0] == b && path[|path| - 1] == a
    ensures forall i :: 0 <= i < |path| - 1 ==> path[i] in Neighbours(g, path[i + 1])
  {
    hide Sphere, Neighbours;
    path := [b];
    var cur := b;
    while cur != a
      invariant cur in dist && path != [] && path[0] == b && path[|path| - 1] == cur
      invariant |path| + dist[cur] == dist[b] + 1
      invariant forall i :: 0 <= i < |path| - 1 ==> path[i] in Neighbours(g, path[i + 1])
      decreases dist[cur]
    {
      cur := parent[cur];
      path := path + [cur];
    }
  }

  method TurnRound(back: seq<U32>) returns (path: seq<U32>)
    ensures |path| == |back| && forall k :: 0 <= k < |path| ==> path[k] == back[|back| - 1 - k]
  {
    path := back;
    var i, j := 0, |path| - 1;
    while i < j
      invariant 0 <= i && j == |path| - 1 - i && |path| == |back|
      invariant forall k :: 0 <= k < i && k < |path| ==> path[k] == back[|back| - 1 - k]
      invariant forall k :: j < k < |path| && 0 <= k ==> path[k] == back[|back| - 1 - k]
      invariant forall k :: i <= k <= j ==> path[k] == back[k]
    {
      path := path[i := path[j]][j := path[i]];
      i, j := i + 1, j - 1;
    }
  }

  lemma TurnedRound(g: Links, a: U32, b: U32, back: seq<U32>, path: seq<U32>)
    requires |path| == |back| > 0 && back[0] == b && back[|back| - 1] == a
    requires forall k :: 0 <= k < |path| ==> path[k] == back[|back| - 1 - k]
    requires forall i :: 0 <= i < |back| - 1 ==> back[i] in Neighbours(g, back[i + 1])
    ensures PathFrom(g, a, b, path)
  {
    forall i | 0 <= i < |path| - 1 ensures path[i + 1] in Neighbours(g, path[i]) {
      assert back[|back| - 2 - i] in Neighbours(g, back[|back| - 2 - i + 1]);
    }
  }

  /** A path to level d with d hops is a shortest one. */
  lemma FewestHops(g: Links, a: U32, b: U32, p: seq<U32>, d: nat)
    requires PathFrom(g, a, b, p) && |p| == d + 1 && b in Sphere(g, a, d)
    ensures Shortest(g, a, b, p)
  {
    forall q | PathFrom(g, a, b, q) ensures |p| <= |q| {
      PathInBall(g, a, b, q);
      if |q| < |p| { BallGrows(g, a, |q| - 1, d - 1); }
    }
  }
}
