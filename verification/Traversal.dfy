/** traversal.go: a level-by-level traversal that reports every vertex with a path to it. */
module Traversal {
  import opened Transducer
  import opened Bitmaps
  import opened Indices
  import opened EdgeSlabs
  import opened GraphTables
  import opened GraphStore
  import opened Reach
  import opened AlgoPaths

  datatype TraversalResult = TraversalResult(path: seq<Uuid>, depth: nat)

  /** Direction, strategy and edge filter change nothing and are left out. A negative maximum is none. */
  datatype TraversalOptions = TraversalOptions(root: Uuid, minDepth: int, maxDepth: int, labels: seq<string>)

  /** Vertices with any of the labels. */
  function AnyOf(index: LabelIndex, labels: seq<string>): Bitmap {
    if labels == [] then {}
    else AnyOf(index, labels[..|labels| - 1]) + if labels[|labels| - 1] in index then index[labels[|labels| - 1]]
      else {}
  }

  lemma {:induction false} AnyOfSome(index: LabelIndex, labels: seq<string>, v: U32)
    ensures v in AnyOf(index, labels) <==> exists l :: l in labels && l in index && v in index[l]
  {
    if labels != [] {
      var n := |labels| - 1;
      AnyOfSome(index, labels[..n], v);
      assert labels == labels[..n] + [labels[n]];
    }
  }

  /** `LabelFilter`: nothing when no label is asked for, else the vertices with any of them. */
  method LabelFilter(index: LabelIndex, labels: seq<string>) returns (r: Option<Bitmap>)
    ensures r == if labels == [] then None else Some(AnyOf(index, labels))
  {
    if |labels| == 0 {
      return None;
    }
    var filter: Bitmap := {};
    var first := true;
    for k := 0 to |labels|
      invariant (if first then {} else filter) == AnyOf(index, labels[..k])
    {
      assert labels[..k + 1][..k] == labels[..k];
      if labels[k] in index {
        if first {
          filter := index[labels[k]];
          first := false;
        } else {
          filter := filter + index[labels[k]];
        }
      }
    }
    assert labels[..|labels|] == labels;
    if first {
      filter := {};
    }
    return Some(filter);
  }

  /** The links a traversal follows: into vertices the filter lets through. */
  ghost function Followed(g: Links, filter: Option<Bitmap>): Links {
    match filter
    case None => g
    case Some(f) => Passing(g, (u: U32, v: U32) => v in f)
  }

  lemma FollowedFrom(g: Links, filter: Option<Bitmap>, u: U32)
    ensures Neighbours(Followed(g, filter), u) == if filter == None then Neighbours(g, u)
      else Neighbours(g, u) * filter.value
  {
  }

  /** The parents as a traversal keeps them: none for the root. */
  ghost predicate Tree(g: Links, a: U32, parents: map<U32, U32>, dist: map<U32, nat>) {
    a !in parents && Parents(g, a, parents[a := a], dist)
  }

  lemma TreeSet(g: Links, a: U32, parents: map<U32, U32>, dist: map<U32, nat>, d: nat, u: U32, v: U32)
    requires Tree(g, a, parents, dist) && u in Sphere(g, a, d) && u in dist
    requires v in Neighbours(g, u) && v !in Ball(g, a, d)
    ensures Tree(g, a, parents[v := u], dist[v := d + 1])
    ensures u in dist[v := d + 1]
  {
    hide Sphere, Ball, Parents;
    NeighbourBeyond(g, a, d, u, v);
    ParentDist(g, a, parents[a := a], dist, d, u);
    ParentSet(g, a, parents[a := a], dist, d, u, v);
    assert parents[a := a][v := u] == parents[v := u][a := a];
  }

  lemma ParentDist(g: Links, a: U32, parent: map<U32, U32>, dist: map<U32, nat>, d: nat, u: U32)
    requires Parents(g, a, parent, dist) && u in Sphere(g, a, d) && u in dist
    ensures dist[u] == d
  {
    hide Sphere;
    SpheresApart(g, a, dist[u], d, u);
  }

  /** One level: the next frontier, each vertex of it with its first parent. */
  method Wave<T(!new)>(s: SQLiteStore<T>, filter: Option<Bitmap>, frontier: Bitmap, visited: Bitmap,
    parents: map<U32, U32>, ghost g: Links, ghost a: U32, ghost d: nat, ghost dist: map<U32, nat>)
    returns (next: Bitmap, parents': map<U32, U32>, ghost dist': map<U32, nat>)
    requires g == Followed(s.outEdges, filter) && visited == Ball(g, a, d) && frontier == Sphere(g, a, d)
    requires Tree(g, a, parents, dist) && frontier <= dist.Keys
    ensures next == Sphere(g, a, d + 1) && Tree(g, a, parents', dist') && next <= dist'.Keys && dist.Keys <= dist'.Keys
  {
    hide Ball, Sphere, Spread, Tree, Followed, Neighbours;
    next, parents', dist' := {}, parents, dist;
    ghost var done: Bitmap := {};
    var rest := frontier;
    SpreadNone(g);
    while rest != {}
      invariant rest <= frontier && done == frontier - rest
      invariant Tree(g, a, parents', dist') && next <= dist'.Keys && dist.Keys <= dist'.Keys
      invariant forall v :: v in next <==> v in Spread(g, done) && v !in visited
      decreases |rest|
    {
      var u := Least(rest);
      FollowedFrom(s.outEdges, filter, u);
      var new' := Neighbours(s.outEdges, u) - visited;
      if filter.Some? {
        new' := new' * filter.value;
      }
      next, parents', dist' := Adopt(u, new', next, parents', g, a, d, dist');
      SpreadMore(g, done, u);
      done := done + {u};
      rest := rest - {u};
    }
    assert done == frontier;
    NextSphere(g, a, d);
  }

  /** The vertices newly found from u get it as parent, unless they have one of this level. */
  method Adopt(u: U32, new': Bitmap, next: Bitmap, parents: map<U32, U32>, ghost g: Links, ghost a: U32, ghost d: nat,
    ghost dist: map<U32, nat>)
    returns (next': Bitmap, parents': map<U32, U32>, ghost dist': map<U32, nat>)
    requires Tree(g, a, parents, dist) && next <= dist.Keys
    requires u in Sphere(g, a, d) && u in dist && new' == Neighbours(g, u) - Ball(g, a, d)
    ensures next' == next + new' && Tree(g, a, parents', dist') && next' <= dist'.Keys && dist.Keys <= dist'.Keys
  {
    hide Ball, Sphere, Tree, Neighbours;
    next', parents', dist' := next, parents, dist;
    var rest := new';
    while rest != {}
      invariant rest <= new' && next' == next + (new' - rest)
      invariant Tree(g, a, parents', dist') && next' <= dist'.Keys && dist.Keys <= dist'.Keys
      decreases |rest|
    {
      var v := Least(rest);
      if v !in next' {
        TreeSet(g, a, parents', dist', d, u, v);
        parents', dist' := parents'[v := u], dist'[v := d + 1];
        next' := next' + {v};
      }
      rest := rest - {v};
    }
  }

  /** The path to v, put together from its end. */
  method PathTo<T(!new)>(s: SQLiteStore<T>, v: U32, a: U32, parents: map<U32, U32>, ghost g: Links,
    ghost dist: map<U32, nat>)
    returns (path: seq<Uuid>)
    requires Tree(g, a, parents, dist) && v in dist && v != a
    requires Within(g, |s.registry.idxToUUID|)
    ensures Route(g, a, v, path, s.registry.idxToUUID) && |path| == dist[v] + 1
  {
    hide Sphere, Within, Named, PathFrom;
    path := [];
    ghost var p: seq<U32> := [];
    var curr := v;
    NamedNone(s.registry.idxToUUID);
    while true
      invariant curr in dist && curr != a && |p| + dist[curr] == dist[v]
      invariant Suffix(g, curr, v, p) && Named(path, p, s.registry.idxToUUID)
      decreases dist[curr]
    {
      TreeStep(g, a, parents, dist, curr, |s.registry.idxToUUID|);
      var id := s.registry.ReverseLookup(curr);
      if id.Some? {
        path := [id.value] + path;
      }
      NamedMore(path[1..], p, s.registry.idxToUUID, curr);
      SuffixMore(g, parents[curr], curr, v, p);
      p := [curr] + p;
      if curr !in parents {
        break;
      }
      curr := parents[curr];
      if curr == a {
        var root := s.registry.ReverseLookup(a);
        if root.Some? {
          path := [root.value] + path;
        }
        NamedMore(path[1..], p, s.registry.idxToUUID, a);
        p := [a] + p;
        break;
      }
    }
    RouteIs(g, a, v, path, p, s.registry.idxToUUID);
  }

  /** The identifiers name a walk from a to v. */
  ghost predicate Route(g: Links, a: U32, v: U32, path: seq<Uuid>, names: seq<Uuid>) {
    exists p :: PathFrom(g, a, v, p) && Named(path, p, names)
  }

  lemma RouteIs(g: Links, a: U32, v: U32, path: seq<Uuid>, p: seq<U32>, names: seq<Uuid>)
    requires PathFrom(g, a, v, p) && Named(path, p, names)
    ensures Route(g, a, v, path, names) && |path| == |p|
  {
  }

  /** p leads on from a neighbour of u to v, or is empty at v itself. */
  ghost predicate Suffix(g: Links, u: U32, v: U32, p: seq<U32>) {
    if p == [] then u == v else p[0] in Neighbours(g, u) && PathFrom(g, p[0], v, p)
  }

  lemma SuffixMore(g: Links, parent: U32, u: U32, v: U32, p: seq<U32>)
    requires Suffix(g, u, v, p) && u in Neighbours(g, parent)
    ensures Suffix(g, parent, v, [u] + p) && PathFrom(g, parent, v, [parent] + ([u] + p))
  {
    var q := [u] + p;
    forall i | 0 <= i < |q| - 1 ensures q[i + 1] in Neighbours(g, q[i]) {
      if i > 0 { assert p[i - 1 + 1] in Neighbours(g, p[i - 1]); }
    }
    var r := [parent] + q;
    forall i | 0 <= i < |r| - 1 ensures r[i + 1] in Neighbours(g, r[i]) {
      if i > 0 { assert q[i - 1 + 1] in Neighbours(g, q[i - 1]); }
    }
  }

  lemma NamedNone(names: seq<Uuid>)
    ensures Named([], [], names)
  {
  }

  lemma NamedMore(ids: seq<Uuid>, p: seq<U32>, names: seq<Uuid>, u: U32)
    requires Named(ids, p, names) && u < |names|
    ensures Named([names[u]] + ids, [u] + p, names)
  {
  }

  lemma TreeStep(g: Links, a: U32, parents: map<U32, U32>, dist: map<U32, nat>, u: U32, n: nat)
    requires Tree(g, a, parents, dist) && u in dist && u != a && Within(g, n)
    ensures u in parents && parents[u] in dist && dist[u] == dist[parents[u]] + 1 && u in Neighbours(g, parents[u])
    ensures dist[a] == 0 && u < n && parents[u] < n
  {
    hide Sphere;
    assert u in parents[a := a] && parents[a := a][u] == parents[u];
  }

  /** One report: a vertex, its distance, and a path of that many hops to it from a. */
  ghost predicate Tells(g: Links, a: U32, v: U32, r: TraversalResult, names: seq<Uuid>) {
    v in Sphere(g, a, r.depth) && |r.path| == r.depth + 1 && Route(g, a, v, r.path, names)
  }

  /** The reports are of the vertices named, each once. */
  ghost predicate Reports(g: Links, a: U32, out: seq<TraversalResult>, verts: seq<U32>, names: seq<Uuid>) {
    && |out| == |verts|
    && (forall i, j :: 0 <= i < j < |verts| ==> verts[i] != verts[j])
    && (forall k :: 0 <= k < |out| ==> Tells(g, a, verts[k], out[k], names))
  }

  /** What is reported lies exactly at distances from min up to max, but not max itself. */
  ghost predicate Covers(g: Links, a: U32, verts: seq<U32>, min: int, max: int) {
    forall v :: v in verts <==> exists d: nat :: min <= d < max && v in Sphere(g, a, d)
  }

  lemma ReportsMore(g: Links, a: U32, out: seq<TraversalResult>, verts: seq<U32>, names: seq<Uuid>,
    r: TraversalResult, v: U32)
    requires Reports(g, a, out, verts, names) && v !in verts && Tells(g, a, v, r, names)
    ensures Reports(g, a, out + [r], verts + [v], names)
  {
    hide Tells;
  }

  /** Reports one level. */
  method Emit<T(!new)>(s: SQLiteStore<T>, opts: TraversalOptions, depth: nat, level: Bitmap, parents: map<U32, U32>,
    out: seq<TraversalResult>, a: U32, ghost verts: seq<U32>, ghost g: Links, ghost dist: map<U32, nat>)
    returns (out': seq<TraversalResult>, ghost verts': seq<U32>)
    requires Tree(g, a, parents, dist) && level <= dist.Keys && level == Sphere(g, a, depth) && depth > 0
    requires Within(g, |s.registry.idxToUUID|)
    requires Reports(g, a, out, verts, s.registry.idxToUUID) && Covers(g, a, verts, opts.minDepth, depth)
    ensures Reports(g, a, out', verts', s.registry.idxToUUID) && Covers(g, a, verts', opts.minDepth, depth + 1)
  {
    hide Tree, Sphere, Within, Reports, Covers, Named, PathFrom, Route;
    out', verts' := out, verts;
    NoneSeen(g, a, verts, opts.minDepth, depth, level);
    var rest := level;
    while rest != {}
      invariant rest <= level && Reports(g, a, out', verts', s.registry.idxToUUID)
      invariant forall v :: v in verts' <==> v in verts || (v in level && v !in rest && depth >= opts.minDepth)
      decreases |rest|
    {
      var v := Least(rest);
      LevelDist(g, a, parents, dist, depth, v);
      var path := PathTo(s, v, a, parents, g, dist);
      if depth >= opts.minDepth {
        var val := TraversalResult(path, depth);
        assert Tells(g, a, v, val, s.registry.idxToUUID);
        ReportsMore(g, a, out', verts', s.registry.idxToUUID, val, v);
        out', verts' := out' + [val], verts' + [v];
      }
      rest := rest - {v};
    }
    LevelCovered(g, a, verts, verts', opts.minDepth, depth, level);
  }

  lemma LevelDist(g: Links, a: U32, parents: map<U32, U32>, dist: map<U32, nat>, d: nat, v: U32)
    requires Tree(g, a, parents, dist) && v in dist && v in Sphere(g, a, d) && d > 0
    ensures dist[v] == d && v != a
  {
    hide Sphere;
    ParentDist(g, a, parents[a := a], dist, d, v);
  }

  lemma NoneSeen(g: Links, a: U32, verts: seq<U32>, min: int, depth: nat, level: Bitmap)
    requires Covers(g, a, verts, min, depth) && level == Sphere(g, a, depth)
    ensures forall v :: v in level ==> v !in verts
  {
    hide Sphere;
    forall v | v in level && v in verts ensures false {
      var d: nat :| min <= d < depth && v in Sphere(g, a, d);
      SpheresApart(g, a, d, depth, v);
    }
  }

  lemma LevelCovered(g: Links, a: U32, verts: seq<U32>, verts': seq<U32>, min: int, depth: nat, level: Bitmap)
    requires Covers(g, a, verts, min, depth) && level == Sphere(g, a, depth)
    requires forall v :: v in verts' <==> v in verts || (v in level && depth >= min)
    ensures Covers(g, a, verts', min, depth + 1)
  {
    hide Sphere;
    forall v ensures v in verts' <==> exists d: nat :: min <= d < depth + 1 && v in Sphere(g, a, d) {
      if v in verts {
        var d: nat :| min <= d < depth && v in Sphere(g, a, d);
        assert d < depth + 1;
      }
    }
  }

  /** The distances that are reported. */
  ghost predicate Reported(g: Links, a: U32, opts: TraversalOptions, v: U32) {
    exists d: nat :: opts.minDepth <= d && (opts.maxDepth < 0 || d <= opts.maxDepth) && v in Sphere(g, a, d)
  }

  /** The goroutine of `Traverse`, everything it sends collected. */
  method Send<T(!new)>(s: SQLiteStore<T>, index: LabelIndex, opts: TraversalOptions, ghost g: Links)
    returns (out: seq<TraversalResult>, ghost verts: seq<U32>)
    requires s.Valid()
    requires g == Followed(s.outEdges, if opts.labels == [] then None else Some(AnyOf(index, opts.labels)))
    ensures s.registry.Get(opts.root) == None ==> out == []
    ensures s.registry.Get(opts.root).Some? ==>
      Reports(g, s.registry.Get(opts.root).value, out, verts, s.registry.idxToUUID)
    ensures s.registry.Get(opts.root).Some? ==>
      forall v :: v in verts <==> Reported(g, s.registry.Get(opts.root).value, opts, v)
  {
    hide SQLiteStore.Valid, Followed, Ball, Sphere, Tree, Reports, Covers, Reported, Within, Universe, Spread;
    out, verts := [], [];
    var rootIdx := s.registry.Get(opts.root);
    if rootIdx == None {
      return;
    }
    var a := rootIdx.value;
    s.WarmSearchable();
    Registered(s, opts.root);
    var filter := LabelFilter(index, opts.labels);
    FollowedWithin(s, filter, g);
    var visited, frontier: Bitmap := {a}, {a};
    var parents: map<U32, U32> := map[];
    ghost var dist: map<U32, nat> := map[a := 0];
    TreeStart(g, a);
    RootReport(g, a, opts.root, s.registry.idxToUUID, opts.minDepth);
    if opts.minDepth <= 0 {
      out, verts := [TraversalResult([opts.root], 0)], [a];
    }
    var depth := 0;
    while frontier != {}
      invariant visited == Ball(g, a, depth) && frontier == Sphere(g, a, depth) && frontier <= dist.Keys
      invariant Tree(g, a, parents, dist) && Reports(g, a, out, verts, s.registry.idxToUUID)
      invariant Covers(g, a, verts, opts.minDepth, depth + 1)
      invariant opts.maxDepth >= 0 ==> depth <= opts.maxDepth
      decreases |Universe(g, a) - Ball(g, a, depth)|, if frontier == {} then 0 else 1
    {
      if opts.maxDepth >= 0 && depth >= opts.maxDepth {
        AllReported(g, a, opts, verts, depth);
        return;
      }
      LeavesFewer(g, a, depth);
      NextSphere(g, a, depth);
      depth := depth + 1;
      var next;
      next, parents, dist := Wave(s, filter, frontier, visited, parents, g, a, depth - 1, dist);
      if next == {} {
        AllReported(g, a, opts, verts, depth - 1);
        return;
      }
      out, verts := Emit(s, opts, depth, next, parents, out, a, verts, g, dist);
      visited := visited + next;
      frontier := next;
    }
    AllReported(g, a, opts, verts, depth);
  }

  lemma TreeStart(g: Links, a: U32)
    ensures Tree(g, a, map[], map[a := 0]) && Ball(g, a, 0) == {a} == Sphere(g, a, 0)
  {
    assert (map[])[a := a] == map[a := a];
  }

  lemma RootReport(g: Links, a: U32, root: Uuid, names: seq<Uuid>, min: int)
    requires a < |names| && names[a] == root
    ensures min <= 0 ==> Reports(g, a, [TraversalResult([root], 0)], [a], names) && Covers(g, a, [a], min, 1)
    ensures min > 0 ==> Reports(g, a, [], [], names) && Covers(g, a, [], min, 1)
  {
    RouteIs(g, a, a, [root], [a], names);
    assert a in Sphere(g, a, 0);
  }

  lemma FollowedWithin<T(!new)>(s: SQLiteStore<T>, filter: Option<Bitmap>, g: Links)
    requires s.Valid() && g == Followed(s.outEdges, filter)
    ensures Within(g, |s.registry.idxToUUID|)
  {
    hide SlabOk, EdgeKey, Linked;
    AdjacencySymmetric(s.edgeRows, s.registry.idxToUUID, s.outEdges);
    forall u: U32, v: U32 | v in Neighbours(g, u) ensures u < |s.registry.idxToUUID| && v < |s.registry.idxToUUID| {
      FollowedFrom(s.outEdges, filter, u);
    }
  }

  /** Nothing further is in range, or there is nothing further. */
  lemma AllReported(g: Links, a: U32, opts: TraversalOptions, verts: seq<U32>, depth: nat)
    requires Covers(g, a, verts, opts.minDepth, depth + 1)
    requires depth == opts.maxDepth || Sphere(g, a, depth + 1) == {} || Sphere(g, a, depth) == {}
    requires opts.maxDepth >= 0 ==> depth <= opts.maxDepth
    ensures forall v :: v in verts <==> Reported(g, a, opts, v)
  {
    hide Sphere;
    forall v ensures v in verts <==> Reported(g, a, opts, v) {
      if Reported(g, a, opts, v) {
        var d: nat :| opts.minDepth <= d && (opts.maxDepth < 0 || d <= opts.maxDepth) && v in Sphere(g, a, d);
        if d > depth {
          if Sphere(g, a, depth) == {} { BallEnds(g, a, depth, d); }
          if Sphere(g, a, depth + 1) == {} { BallEnds(g, a, depth + 1, d); }
        }
      }
      if v in verts {
        var d: nat :| opts.minDepth <= d < depth + 1 && v in Sphere(g, a, d);
      }
    }
  }

  /** The vertex a report is of. */
  function Target(r: TraversalResult): Uuid
    requires r.path != []
  {
    r.path[|r.path| - 1]
  }

  predicate IsOf(r: TraversalResult, id: Uuid) {
    r.path != [] && Target(r) == id
  }

  ghost predicate Sent(out: seq<TraversalResult>, id: Uuid) {
    exists k :: 0 <= k < |out| && IsOf(out[k], id)
  }

  /** The reports of a run: each of a registered vertex, once, and of every vertex in range. */
  ghost predicate Complete(g: Links, a: U32, opts: TraversalOptions, known: map<Uuid, U32>, names: seq<Uuid>,
    out: seq<TraversalResult>)
  {
    && (forall r :: r in out ==> Right(g, a, opts, known, names, r))
    && (forall i, j :: 0 <= i < j < |out| && out[i].path != [] ==> !IsOf(out[j], Target(out[i])))
    && (forall id :: id in known && Reported(g, a, opts, known[id]) ==> Sent(out, id))
  }

  /** A report of a registered vertex in range. */
  ghost predicate Right(g: Links, a: U32, opts: TraversalOptions, known: map<Uuid, U32>, names: seq<Uuid>,
    r: TraversalResult)
  {
    r.path != [] && var id := Target(r);
    id in known && Tells(g, a, known[id], r, names) && Reported(g, a, opts, known[id])
  }

  /**
   * `Traverse` run to completion: every vertex whose distance is in range, once, with that distance and
   * a path of as many hops from the root; nothing when the root has no index.
   */
  method Traverse<T(!new)>(s: SQLiteStore<T>, index: LabelIndex, opts: TraversalOptions, ghost g: Links)
    returns (out: seq<TraversalResult>)
    requires s.Valid()
    requires g == Followed(s.outEdges, if opts.labels == [] then None else Some(AnyOf(index, opts.labels)))
    ensures s.registry.Get(opts.root) == None ==> out == []
    ensures s.registry.Get(opts.root).Some? ==>
      Complete(g, s.registry.Get(opts.root).value, opts, s.registry.uuidToIdx, s.registry.idxToUUID, out)
  {
    hide SQLiteStore.Valid, Followed, Reports, Complete, Reported;
    ghost var verts;
    out, verts := Send(s, index, opts, g);
    var rootIdx := s.registry.Get(opts.root);
    if rootIdx.Some? {
      StoreLinks(s);
      AllComplete(s.registry, g, rootIdx.value, opts, out, verts);
    }
  }

  lemma AllComplete(reg: IndexRegistry, g: Links, a: U32, opts: TraversalOptions, out: seq<TraversalResult>,
    verts: seq<U32>)
    requires reg.Valid() && Reports(g, a, out, verts, reg.idxToUUID)
    requires forall v :: v in verts <==> Reported(g, a, opts, v)
    ensures Complete(g, a, opts, reg.uuidToIdx, reg.idxToUUID, out)
  {
    hide Reported, Sphere;
    forall k | 0 <= k < |out|
      ensures out[k].path != [] && Target(out[k]) in reg.uuidToIdx && reg.uuidToIdx[Target(out[k])] == verts[k]
        && verts[k] in verts
    {
      TargetIs(reg, g, a, verts[k], out[k]);
    }
    forall id | id in reg.uuidToIdx && Reported(g, a, opts, reg.uuidToIdx[id])
      ensures Sent(out, id)
    {
      var k :| 0 <= k < |verts| && verts[k] == reg.uuidToIdx[id];
      TargetIs(reg, g, a, verts[k], out[k]);
    }
  }

  lemma TargetIs(reg: IndexRegistry, g: Links, a: U32, v: U32, r: TraversalResult)
    requires reg.Valid() && Tells(g, a, v, r, reg.idxToUUID)
    ensures r.path != [] && v < |reg.idxToUUID| && Target(r) == reg.idxToUUID[v]
    ensures Target(r) in reg.uuidToIdx && reg.uuidToIdx[Target(r)] == v
  {
    var p :| PathFrom(g, a, v, p) && Named(r.path, p, reg.idxToUUID);
    assert p[|p| - 1] == v;
  }
}
