/** algo_structural.go: what the neighbourhoods of one or two vertices look like. */
module AlgoStructural {
  import opened Transducer
  import opened Bitmaps
  import opened Indices
  import opened GraphStore

  type Pairs = set<(U32, U32)>

  /** The links from members of d to members of s. */
  ghost function LinksBetween(g: Links, d: Bitmap, s: Bitmap): Pairs {
    set a: U32, b: U32 | a in d && b in s && b in Neighbours(g, a) :: (a, b)
  }

  /** The edges between two different members of s, each once. */
  ghost function EdgesAmong(g: Links, s: Bitmap): Pairs {
    set a: U32, b: U32 | a in s && b in s && a < b && b in Neighbours(g, a) :: (a, b)
  }

  /** The members of s linked to themselves. */
  ghost function LoopsAmong(g: Links, s: Bitmap): Bitmap {
    set a | a in s && a in Neighbours(g, a)
  }

  ghost function RowOfPairs(u: U32, t: Bitmap): Pairs {
    set b | b in t :: (u, b)
  }

  lemma {:induction false} RowSize(u: U32, t: Bitmap)
    ensures |RowOfPairs(u, t)| == |t|
    decreases |t|
  {
    if t != {} {
      var b :| b in t;
      RowSize(u, t - {b});
      assert RowOfPairs(u, t) == RowOfPairs(u, t - {b}) + {(u, b)};
    }
  }

  ghost function Diagonal(t: Bitmap): Pairs {
    set b | b in t :: (b, b)
  }

  lemma {:induction false} DiagonalSize(t: Bitmap)
    ensures |Diagonal(t)| == |t|
    decreases |t|
  {
    if t != {} {
      var b :| b in t;
      DiagonalSize(t - {b});
      assert Diagonal(t) == Diagonal(t - {b}) + {(b, b)};
    }
  }

  ghost function Flipped(p: Pairs): Pairs {
    set e | e in p :: (e.1, e.0)
  }

  lemma {:induction false} FlippedSize(p: Pairs)
    ensures |Flipped(p)| == |p|
    decreases |p|
  {
    if p != {} {
      var e :| e in p;
      FlippedSize(p - {e});
      assert Flipped(p) == Flipped(p - {e}) + {(e.1, e.0)};
    }
  }

  /** Counted from both ends, every edge comes twice and every loop once. */
  lemma LinksCounted(g: Links, s: Bitmap)
    requires Symmetric(g)
    ensures |LinksBetween(g, s, s)| == 2 * |EdgesAmong(g, s)| + |LoopsAmong(g, s)|
  {
    hide EdgesAmong, LoopsAmong, LinksBetween, Flipped, Diagonal;
    var up, loops := EdgesAmong(g, s), Diagonal(LoopsAmong(g, s));
    var down := Flipped(up);
    FlippedSize(up);
    DiagonalSize(LoopsAmong(g, s));
    PartsOfLinks(g, s, down, loops);
    ThreeParts(up, down, loops);
  }

  lemma ThreeParts(a: Pairs, b: Pairs, c: Pairs)
    requires a !! b && a + b !! c
    ensures |a + b + c| == |a| + |b| + |c|
  {
  }

  lemma PartsOfLinks(g: Links, s: Bitmap, down: Pairs, loops: Pairs)
    requires Symmetric(g) && down == Flipped(EdgesAmong(g, s)) && loops == Diagonal(LoopsAmong(g, s))
    ensures LinksBetween(g, s, s) == EdgesAmong(g, s) + down + loops
    ensures EdgesAmong(g, s) !! down && EdgesAmong(g, s) + down !! loops
  {
    var up := EdgesAmong(g, s);
    forall e ensures e in LinksBetween(g, s, s) <==> e in up + down + loops {
      if e in LinksBetween(g, s, s) {
        if e.1 < e.0 { assert (e.1, e.0) in up; }
        if e.0 == e.1 { assert e.0 in LoopsAmong(g, s); }
      }
    }
  }

  /** There are at most k (k - 1) / 2 edges among k vertices. */
  lemma {:induction false} EdgesBounded(g: Links, s: Bitmap)
    ensures 2 * |EdgesAmong(g, s)| <= |s| * (|s| - 1)
    decreases |s|
  {
    if s == {} {
      assert EdgesAmong(g, s) == {};
    } else {
      var m := Least(s);
      EdgesBounded(g, s - {m});
      EdgesFromLeast(g, s, m);
      Doubling(|s|, |EdgesAmong(g, s - {m})|, |EdgesAmong(g, s)|);
    }
  }

  lemma EdgesFromLeast(g: Links, s: Bitmap, m: U32)
    requires s != {} && m == Least(s)
    ensures |EdgesAmong(g, s)| <= |EdgesAmong(g, s - {m})| + |s| - 1
    ensures |s - {m}| == |s| - 1
  {
    hide EdgesAmong, RowOfPairs;
    var rest := s - {m};
    var near := Neighbours(g, m) * rest;
    RowSize(m, near);
    EdgesSplit(g, s, m);
    NoLarger(near, rest);
    UnionSize(EdgesAmong(g, rest), RowOfPairs(m, near));
  }

  lemma EdgesSplit(g: Links, s: Bitmap, m: U32)
    requires s != {} && m == Least(s)
    ensures EdgesAmong(g, s) == EdgesAmong(g, s - {m}) + RowOfPairs(m, Neighbours(g, m) * (s - {m}))
  {
  }

  lemma UnionSize(a: Pairs, b: Pairs)
    ensures |a + b| <= |a| + |b|
  {
    assert a + b == a + (b - a);
    assert b == b * a + (b - a);
  }

  lemma Doubling(n: nat, e: nat, f: nat)
    requires n > 0 && 2 * e <= (n - 1) * (n - 2) && f <= e + n - 1
    ensures 2 * f <= n * (n - 1)
  {
    assert n * (n - 1) == (n - 1) * (n - 2) + 2 * (n - 1);
  }

  lemma NoLarger(s: Bitmap, t: Bitmap)
    requires s <= t
    ensures |s| <= |t|
  {
    assert t == s + (t - s);
  }

  lemma LinksMore(g: Links, d: Bitmap, s: Bitmap, u: U32)
    requires u !in d
    ensures |LinksBetween(g, d + {u}, s)| == |LinksBetween(g, d, s)| + |Neighbours(g, u) * s|
  {
    hide Neighbours, LinksBetween, RowOfPairs;
    var near := Neighbours(g, u) * s;
    RowSize(u, near);
    LinksSplit(g, d, s, u);
    assert |LinksBetween(g, d, s) + RowOfPairs(u, near)| == |LinksBetween(g, d, s)| + |RowOfPairs(u, near)|;
  }

  lemma LinksSplit(g: Links, d: Bitmap, s: Bitmap, u: U32)
    requires u !in d
    ensures LinksBetween(g, d + {u}, s) == LinksBetween(g, d, s) + RowOfPairs(u, Neighbours(g, u) * s)
    ensures LinksBetween(g, d, s) !! RowOfPairs(u, Neighbours(g, u) * s)
  {
    hide Neighbours;
  }

  /** The summed intersections of the neighbourhoods of s with s. */
  method CountLinks(g: Links, s: Bitmap) returns (n: nat)
    ensures n == |LinksBetween(g, s, s)|
  {
    n := 0;
    ghost var done: Bitmap := {};
    assert LinksBetween(g, {}, s) == {};
    var rest := s;
    while rest != {}
      invariant rest <= s && done == s - rest && n == |LinksBetween(g, done, s)|
      decreases |rest|
    {
      var u := Least(rest);
      LinksMore(g, done, s, u);
      if u in g {
        n := n + |g[u] * s|;
      }
      done := done + {u};
      rest := rest - {u};
    }
    assert done == s;
  }

  lemma SearchableLinks<T(!new)>(s: SQLiteStore<T>)
    requires s.Searchable()
    ensures Symmetric(s.outEdges)
  {
  }

  /**
   * `ClusteringCoefficient`: edges among the neighbours over possible ones. Half the neighbours linked
   * to themselves, rounded down, are counted with the edges.
   */
  method ClusteringCoefficient<T(!new)>(s: SQLiteStore<T>, id: Uuid, ghost near: Bitmap) returns (r: Option<real>)
    requires s.Searchable() && (s.registry.Get(id).Some? ==> near == Neighbours(s.outEdges, s.registry.Get(id).value))
    ensures r == None <==> s.registry.Get(id) == None
    ensures r.Some? && |near| < 2 ==> r.value == 0.0
    ensures r.Some? && |near| >= 2 ==>
      r.value * Possible(|near|) as real ==
        (|EdgesAmong(s.outEdges, near)| + |LoopsAmong(s.outEdges, near)| / 2) as real
  {
    hide SQLiteStore.Searchable, EdgesAmong, LoopsAmong, LinksBetween, Possible, Part;
    var idx := s.registry.Get(id);
    if idx == None {
      return None;
    }
    if idx.value !in s.outEdges {
      return Some(0.0);
    }
    var adj := s.outEdges[idx.value];
    var k := |adj|;
    if k < 2 {
      return Some(0.0);
    }
    var triangles := CountLinks(s.outEdges, adj);
    SearchableLinks(s);
    LinksCounted(s.outEdges, adj);
    Halved(|EdgesAmong(s.outEdges, adj)|, |LoopsAmong(s.outEdges, adj)|);
    triangles := triangles / 2;
    PossiblePositive(k);
    assert near == adj && triangles == |EdgesAmong(s.outEdges, adj)| + |LoopsAmong(s.outEdges, adj)| / 2;
    var c := Part(triangles, Possible(k));
    assert c * Possible(k) as real == triangles as real;
    return Some(c);
  }

  lemma Halved(e: nat, l: nat)
    ensures (2 * e + l) / 2 == e + l / 2
  {
  }

  function Part(m: nat, n: nat): (r: real)
    requires n > 0
    ensures r * n as real == m as real
  {
    m as real / n as real
  }

  function Possible(k: nat): nat
    requires k > 0
  {
    k * (k - 1) / 2
  }

  lemma PossiblePositive(k: nat)
    requires k >= 2
    ensures Possible(k) > 0
  {
    assert k * (k - 1) >= 2 * (k - 1);
  }

  /** The halving loses nothing, and the coefficient is exact, when fewer than two neighbours have loops. */
  lemma CoefficientExact(g: Links, near: Bitmap, r: real)
    requires |near| >= 2
    requires r * Possible(|near|) as real == (|EdgesAmong(g, near)| + |LoopsAmong(g, near)| / 2) as real
    ensures r * Possible(|near|) as real == |EdgesAmong(g, near)| as real <==> |LoopsAmong(g, near)| < 2
    ensures |LoopsAmong(g, near)| < 2 ==> 0.0 <= r <= 1.0
  {
    hide EdgesAmong, LoopsAmong;
    EdgesBounded(g, near);
    PossiblePositive(|near|);
    if |LoopsAmong(g, near)| < 2 {
      InUnit(r, Possible(|near|), |EdgesAmong(g, near)|);
    }
  }

  lemma Signs(r: real, q: real)
    requires q > 0.0
    ensures r < 0.0 ==> r * q < 0.0
    ensures r > 1.0 ==> r * q > q
  {
    if r > 1.0 { assert (r - 1.0) * q > 0.0; }
  }

  lemma InUnit(r: real, p: nat, e: nat)
    requires p > 0 && e <= p && r * p as real == e as real
    ensures 0.0 <= r <= 1.0
  {
    Signs(r, p as real);
  }

  /** `Jaccard` of two registered vertices: shared over all neighbours; 1 exactly for equal, non-empty ones. */
  method Jaccard<T(!new)>(s: SQLiteStore<T>, a: Uuid, b: Uuid, ghost na: Bitmap, ghost nb: Bitmap)
    returns (r: Option<real>)
    requires s.Searchable()
    requires s.registry.Get(a).Some? ==> na == Neighbours(s.outEdges, s.registry.Get(a).value)
    requires s.registry.Get(b).Some? ==> nb == Neighbours(s.outEdges, s.registry.Get(b).value)
    ensures r == None <==> s.registry.Get(a) == None || s.registry.Get(b) == None
    ensures r.Some? ==> r.value * |na + nb| as real == |na * nb| as real && 0.0 <= r.value <= 1.0
    ensures r.Some? ==> (r.value == 1.0 <==> na == nb != {})
  {
    hide SQLiteStore.Searchable, Neighbours, Part;
    var aIdx, bIdx := s.registry.Get(a), s.registry.Get(b);
    if aIdx == None || bIdx == None {
      return None;
    }
    JaccardValue(na, nb);
    NeighboursAre(s.outEdges, aIdx.value);
    NeighboursAre(s.outEdges, bIdx.value);
    if aIdx.value !in s.outEdges || bIdx.value !in s.outEdges {
      assert na * nb == {};
      return Some(0.0);
    }
    var common := s.outEdges[aIdx.value] * s.outEdges[bIdx.value];
    if common == {} {
      return Some(0.0);
    }
    var union := s.outEdges[aIdx.value] + s.outEdges[bIdx.value];
    return Some(Part(|common|, |union|));
  }

  lemma NeighboursAre(g: Links, u: U32)
    ensures Neighbours(g, u) == if u in g then g[u] else {}
  {
  }

  lemma JaccardValue(s: Bitmap, t: Bitmap)
    ensures s * t == {} ==> 0.0 * |s + t| as real == |s * t| as real && !(s == t != {})
    ensures s * t != {} ==> |s + t| > 0 && var r := Part(|s * t|, |s + t|);
      r * |s + t| as real == |s * t| as real && 0.0 <= r <= 1.0 && (r == 1.0 <==> s == t)
  {
    JaccardBounds(s, t);
    if s * t != {} { Ratio(|s * t|, |s + t|); }
  }

  lemma Ratio(m: nat, n: nat)
    requires m <= n && n > 0
    ensures var r := Part(m, n); 0.0 <= r <= 1.0 && (r == 1.0 <==> m == n)
  {
    hide Part;
    var r := Part(m, n);
    InUnit(r, n, m);
    Signs(r - 1.0, n as real);
    if r == 1.0 { assert 1.0 * n as real == m as real; }
  }

  lemma JaccardBounds(s: Bitmap, t: Bitmap)
    ensures |s * t| <= |s + t|
    ensures |s * t| == |s + t| <==> s == t
    ensures s * t != {} ==> |s + t| > 0
  {
    assert s + t == s * t + ((s + t) - s * t);
    if |s * t| == |s + t| {
      assert (s + t) - s * t == {};
      forall x ensures x in s <==> x in t { assert x in s + t <==> x in s * t; }
    }
  }
}
