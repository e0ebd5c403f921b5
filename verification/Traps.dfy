/** Which queries the engine gets right in every world a store can be in, and a world that catches any other. */
module Traps {
  import opened Transducer
  import opened Bitmaps
  import opened Indices
  import opened Joins

  ghost predicate Injective(known: map<Uuid, U32>) {
    forall a, b :: a in known && b in known && known[a] == known[b] ==> a == b
  }

  /** Identifiers have the first indices, each its own. */
  ghost predicate NumberedDensely(known: map<Uuid, U32>) {
    Injective(known) && forall id :: id in known ==> known[id] < |known|
  }

  /** What a store's cache promises: links go both ways, and nothing is linked or labelled that has no identifier. */
  ghost predicate Possible(w: World) {
    && NumberedDensely(w.known) && Symmetric(w.links) && Within(w.links, |w.known|)
    && (forall u :: u in w.links ==> u < |w.known|)
    && (forall l :: l in w.labels ==> forall u :: u in w.labels[l] ==> u < |w.known|)
  }

  /** An identifier made of a number. */
  function IdOf(k: U32): (id: Uuid) {
    [k / 0x1000000, k / 0x10000 % 0x100, k / 0x100 % 0x100, k % 0x100] + seq(12, _ => 0)
  }

  lemma IdOfInjective(j: U32, k: U32)
    requires IdOf(j) == IdOf(k)
    ensures j == k
  {
    assert forall i :: 0 <= i < 4 ==> IdOf(j)[i] == IdOf(k)[i];
    Digits(j);
    Digits(k);
  }

  lemma Digits(k: U32)
    ensures var d := IdOf(k);
      k == (d[0] as int) * 0x1000000 + (d[1] as int) * 0x10000 + (d[2] as int) * 0x100 + d[3] as int
  {
  }

  /** A number from k on whose identifier is not used. */
  function FreshFrom(used: set<Uuid>, k: U32): (r: U32)
    requires k + |used| < U32_LIMIT
    ensures IdOf(r) !in used && k <= r
    decreases |used|
  {
    if IdOf(k) !in used then k
    else
      var r := FreshFrom(used - {IdOf(k)}, k + 1);
      assert IdOf(r) != IdOf(k) by {
        if IdOf(r) == IdOf(k) { IdOfInjective(r, k); }
      }
      r
  }

  /** Indices from 3 on for the identifiers of a query. */
  function Numbered(patterns: seq<NodePattern>): (m: map<Uuid, U32>)
    requires |patterns| + 3 < U32_LIMIT
    ensures |m| <= |patterns| && Injective(m)
    ensures forall id :: id in m ==> 3 <= m[id] < 3 + |m|
  {
    if patterns == [] then map[]
    else
      var m := Numbered(patterns[..|patterns| - 1]);
      var p := patterns[|patterns| - 1];
      if p.idFilter == None || p.idFilter.value in m then m
      else
        var r := m[p.idFilter.value := 3 + |m|];
        assert r.Keys == m.Keys + {p.idFilter.value};
        r
  }

  lemma {:induction false} NumberedHas(patterns: seq<NodePattern>, p: NodePattern)
    requires |patterns| + 3 < U32_LIMIT && p in patterns && p.idFilter.Some?
    ensures p.idFilter.value in Numbered(patterns)
  {
    if p != patterns[|patterns| - 1] { NumberedHas(patterns[..|patterns| - 1], p); }
  }

  /** One more identifier, with the index i. */
  function WithFresh(m: map<Uuid, U32>, i: U32): (r: map<Uuid, U32>)
    requires |m| < U32_LIMIT && Injective(m) && forall id :: id in m ==> m[id] != i
    ensures |r| == |m| + 1 && Injective(r)
    ensures forall id :: id in r ==> r[id] == i || (id in m && r[id] == m[id])
    ensures forall id :: id in m ==> id in r && r[id] == m[id]
  {
    var id := IdOf(FreshFrom(m.Keys, 0));
    assert id !in m;
    var r := m[id := i];
    assert r.Keys == m.Keys + {id};
    r
  }

  /** The identifiers of the query, and three others with the indices 0, 1 and 2. */
  function TrapIds(patterns: seq<NodePattern>): (m: map<Uuid, U32>)
    requires |patterns| + 3 < U32_LIMIT
    ensures |m| == 3 + |Numbered(patterns)| && NumberedDensely(m)
    ensures forall id :: id in Numbered(patterns) ==> id in m && m[id] == Numbered(patterns)[id]
  {
    hide IdOf, Injective, Numbered, WithFresh, FreshFrom;
    WithFresh(WithFresh(WithFresh(Numbered(patterns), 0), 1), 2)
  }

  /** The vertex for y: z for x, the one a variable is given by, and 2 for the rest. */
  function Place(patterns: seq<NodePattern>, x: string, z: U32, y: string): (v: U32)
    requires |patterns| + 3 < U32_LIMIT && z < 2
    ensures v < 3 + |Numbered(patterns)| && (y != x ==> v >= 2)
  {
    if y == x then z else
      match Deciding(patterns, y)
      case Some(p) => if p.idFilter.Some? && p.idFilter.value in Numbered(patterns)
        then Numbered(patterns)[p.idFilter.value] else 2
      case None => 2
  }

  type Pairs = set<(U32, U32)>

  /** A link both ways. */
  function Both(u: U32, v: U32): (p: Pairs)
    ensures |p| <= 2
    ensures forall a, b :: (a, b) in p <==> (a == u && b == v) || (a == v && b == u)
  {
    {(u, v), (v, u)}
  }

  /** The links an edge pattern asks for with 0 for x and with 1 for x; none when it asks for a loop at x. */
  function Asked(patterns: seq<NodePattern>, x: string, e: EdgePattern): (p: Pairs)
    requires |patterns| + 3 < U32_LIMIT
    ensures |p| <= 4
  {
    if e.source == x && e.target == x then {}
    else
      var s0, t0 := Place(patterns, x, 0, e.source), Place(patterns, x, 0, e.target);
      var s1, t1 := Place(patterns, x, 1, e.source), Place(patterns, x, 1, e.target);
      Both(s0, t0) + Both(s1, t1)
  }

  /** All links: those asked for, and 1 linked to 0 and to 2. */
  function TrapPairs(patterns: seq<NodePattern>, edges: seq<EdgePattern>, x: string): (p: Pairs)
    requires |patterns| + 3 < U32_LIMIT
    ensures |p| <= 4 * |edges| + 4
  {
    if edges == [] then {(0, 1), (1, 0), (1, 2), (2, 1)}
    else TrapPairs(patterns, edges[..|edges| - 1], x) + Asked(patterns, x, edges[|edges| - 1])
  }

  /** Links both ways between the indices that have identifiers, and no loop at 0. */
  ghost predicate Sound(patterns: seq<NodePattern>, p: Pairs)
    requires |patterns| + 3 < U32_LIMIT
  {
    && (forall u, v :: (u, v) in p ==> (v, u) in p && u < 3 + |Numbered(patterns)|)
    && (0, 1) in p && (1, 2) in p && (0, 0) !in p
  }

  lemma {:induction false} TrapPairsSound(patterns: seq<NodePattern>, edges: seq<EdgePattern>, x: string)
    requires |patterns| + 3 < U32_LIMIT
    ensures Sound(patterns, TrapPairs(patterns, edges, x))
  {
    if edges != [] {
      TrapPairsSound(patterns, edges[..|edges| - 1], x);
      AskedSound(patterns, x, edges[|edges| - 1]);
    }
  }

  lemma AskedSound(patterns: seq<NodePattern>, x: string, e: EdgePattern)
    requires |patterns| + 3 < U32_LIMIT
    ensures forall u, v :: (u, v) in Asked(patterns, x, e) ==>
      (v, u) in Asked(patterns, x, e) && u < 3 + |Numbered(patterns)|
    ensures (0, 0) !in Asked(patterns, x, e)
  {
    hide Place, Numbered, Both;
  }

  lemma {:induction false} TrapPairsHave(patterns: seq<NodePattern>, edges: seq<EdgePattern>, x: string, e: EdgePattern)
    requires |patterns| + 3 < U32_LIMIT && e in edges
    ensures Asked(patterns, x, e) <= TrapPairs(patterns, edges, x)
  {
    var n := |edges| - 1;
    if e != edges[n] {
      assert e in edges[..n];
      TrapPairsHave(patterns, edges[..n], x, e);
    }
  }

  function LinksOf(p: Pairs): (g: Links)
    ensures forall u: U32, v: U32 :: v in Neighbours(g, u) <==> (u, v) in p
    ensures forall u :: u in g ==> g[u] != {}
  {
    map u | u in (set q | q in p :: q.0) :: Beyond(p, u)
  }

  function Beyond(p: Pairs, u: U32): (s: Bitmap)
    ensures forall v: U32 :: v in s <==> (u, v) in p
  {
    set q | q in p && q.0 == u :: q.1
  }

  function LabelsOf(patterns: seq<NodePattern>): set<string> {
    set p, l | p in patterns && l in p.labelFilter :: l
  }

  function UpTo(n: nat): (s: Bitmap)
    requires n <= U32_LIMIT
    ensures forall v: U32 :: v in s <==> v < n
  {
    if n == 0 then {} else UpTo(n - 1) + {n - 1}
  }

  /** Linked as the query asks, with every label on every vertex, but 0 not linked to itself. */
  function Trap(q: Query, x: string): World
    requires |q.patterns| + 3 < U32_LIMIT
  {
    var known := TrapIds(q.patterns);
    var all := UpTo(|known|);
    World(LinksOf(TrapPairs(q.patterns, q.edges, x)), map l | l in LabelsOf(q.patterns) :: all, known)
  }

  lemma TrapPossible(q: Query, x: string)
    requires |q.patterns| + 3 < U32_LIMIT
    ensures Possible(Trap(q, x))
  {
    hide TrapPairs, LinksOf, TrapIds, Injective, Numbered, UpTo, LabelsOf;
    TrapPairsSound(q.patterns, q.edges, x);
    PairsPossible(q.patterns, TrapPairs(q.patterns, q.edges, x));
  }

  lemma PairsPossible(patterns: seq<NodePattern>, p: Pairs)
    requires |patterns| + 3 < U32_LIMIT && Sound(patterns, p)
    ensures var g, n := LinksOf(p), 3 + |Numbered(patterns)|;
      Symmetric(g) && Within(g, n) && forall u :: u in g ==> u < n
  {
    hide LinksOf, Numbered, Neighbours, Sound;
    var g, n := LinksOf(p), 3 + |Numbered(patterns)|;
    forall u: U32, v: U32 | v in Neighbours(g, u) ensures u < n && v < n {
      PairSound(patterns, p, u, v);
    }
    forall u: U32, v: U32 ensures v in Neighbours(g, u) <==> u in Neighbours(g, v) {
      if (u, v) in p { PairSound(patterns, p, u, v); }
      if (v, u) in p { PairSound(patterns, p, v, u); }
    }
    forall u | u in g ensures u < n {
      var v := SomeNeighbour(g, u);
      PairSound(patterns, p, u, v);
    }
  }

  lemma PairSound(patterns: seq<NodePattern>, p: Pairs, u: U32, v: U32)
    requires |patterns| + 3 < U32_LIMIT && Sound(patterns, p) && (u, v) in p
    ensures (v, u) in p && u < 3 + |Numbered(patterns)| && v < 3 + |Numbered(patterns)|
  {
    hide Numbered;
  }

  lemma SomeNeighbour(g: Links, u: U32) returns (v: U32)
    requires u in g && g[u] != {}
    ensures v in Neighbours(g, u)
  {
    v :| v in g[u];
  }

  lemma {:induction false} AllOfTrap(index: LabelIndex, labels: seq<string>, v: U32)
    requires labels != [] && forall l :: l in labels ==> l in index && v in index[l]
    ensures v in AllOf(index, labels)
  {
    if |labels| > 1 { AllOfTrap(index, labels[..|labels| - 1], v); }
  }

  /** The assignment of z to x. */
  function Bait(patterns: seq<NodePattern>, c: Candidates, x: string, z: U32): Binding
    requires |patterns| + 3 < U32_LIMIT && z < 2
  {
    map y | y in c :: Place(patterns, x, z, y)
  }

  lemma BaitFits(q: Query, x: string, z: U32)
    requires |q.patterns| + 3 < U32_LIMIT && z < 2
    requires Deciding(q.patterns, x).Some? && Deciding(q.patterns, x).value.idFilter == None
    ensures Inside(Initial(Trap(q, x), q.patterns), Bait(q.patterns, Initial(Trap(q, x), q.patterns), x, z))
  {
    hide TrapPairs, LinksOf, TrapIds, Initial, Injective, Numbered, AllOf;
    var w := Trap(q, x);
    var c := Initial(w, q.patterns);
    var b := Bait(q.patterns, c, x, z);
    TrapPairsSound(q.patterns, q.edges, x);
    forall y | y in c ensures b[y] in c[y] {
      DecidingDecides(w, q.patterns, y);
      var p := Deciding(q.patterns, y).value;
      if p.idFilter.Some? {
        NumberedHas(q.patterns, p);
      } else if p.labelFilter != [] {
        forall l | l in p.labelFilter ensures l in w.labels && b[y] in w.labels[l] { assert l in LabelsOf(q.patterns); }
        AllOfTrap(w.labels, p.labelFilter, b[y]);
      } else {
        assert 1 in Neighbours(w.links, 0) && 2 in Neighbours(w.links, 1) && 1 in Neighbours(w.links, 2);
      }
    }
  }

  /** Both baits meet every edge pattern but a loop at x. */
  lemma BaitLinked(q: Query, c: Candidates, x: string, e: EdgePattern)
    requires |q.patterns| + 3 < U32_LIMIT && e in q.edges && e.source in c && e.target in c
    requires e.source != x || e.target != x
    ensures Connects(Trap(q, x).links, Bait(q.patterns, c, x, 0), e)
    ensures Connects(Trap(q, x).links, Bait(q.patterns, c, x, 1), e)
  {
    hide TrapPairs, LinksOf, TrapIds, Place;
    TrapPairsHave(q.patterns, q.edges, x, e);
  }

  /** Pruning keeps both baits: each of 0 and 1 is the other's neighbour. */
  lemma PruneKeepsBaits(q: Query, c0: Candidates, c: Candidates, e: EdgePattern, x: string)
    requires |q.patterns| + 3 < U32_LIMIT && e in q.edges && c.Keys == c0.Keys && e.source in c && e.target in c
      && x in c
    requires Inside(c, Bait(q.patterns, c0, x, 0)) && Inside(c, Bait(q.patterns, c0, x, 1))
    ensures Inside(Pruned(Trap(q, x).links, c, e), Bait(q.patterns, c0, x, 0))
    ensures Inside(Pruned(Trap(q, x).links, c, e), Bait(q.patterns, c0, x, 1))
  {
    hide TrapPairs, LinksOf, TrapIds;
    var g, b0, b1 := Trap(q, x).links, Bait(q.patterns, c0, x, 0), Bait(q.patterns, c0, x, 1);
    if e.source == x && e.target == x {
      TrapPairsSound(q.patterns, q.edges, x);
      assert 1 in Neighbours(g, 0) && 0 in Neighbours(g, 1);
      assert b0[x] == 0 && b1[x] == 1;
      LoopPruned(g, c, x, b0, b1);
    } else {
      BaitLinked(q, c0, x, e);
      PruneKeeps(g, c, e, b0);
      PruneKeeps(g, c, e, b1);
    }
  }

  lemma LoopPruned(g: Links, c: Candidates, x: string, b0: Binding, b1: Binding)
    requires x in c && Inside(c, b0) && Inside(c, b1)
    requires b1[x] in Neighbours(g, b0[x]) && b0[x] in Neighbours(g, b1[x])
    ensures Inside(Pruned(g, c, EdgePattern(x, x)), b0) && Inside(Pruned(g, c, EdgePattern(x, x)), b1)
  {
    assert b1[x] in Neighbours(g, b0[x]) * c[x] && b0[x] in Neighbours(g, b1[x]) * c[x];
  }

  lemma {:induction false} AllPruningKeepsBaits(q: Query, c: Candidates, edges: seq<EdgePattern>, x: string)
    requires |q.patterns| + 3 < U32_LIMIT && KnownVars(c, edges) && x in c && forall e :: e in edges ==> e in q.edges
    requires Inside(c, Bait(q.patterns, c, x, 0)) && Inside(c, Bait(q.patterns, c, x, 1))
    ensures Inside(PrunedBy(Trap(q, x).links, c, edges), Bait(q.patterns, c, x, 0))
    ensures Inside(PrunedBy(Trap(q, x).links, c, edges), Bait(q.patterns, c, x, 1))
  {
    hide Trap, Bait, Inside;
    if edges != [] {
      var n := |edges| - 1;
      assert forall f :: f in edges[..n] ==> f in edges;
      assert edges[n] in edges;
      AllPruningKeepsBaits(q, c, edges[..n], x);
      PruneKeepsBaits(q, c, PrunedBy(Trap(q, x).links, c, edges[..n]), edges[n], x);
    }
  }

  lemma TrapCatches(q: Query, e: EdgePattern)
    requires Wellformed(q) && |q.patterns| + 3 < U32_LIMIT
    requires e in q.edges && e.source == e.target && Deciding(q.patterns, e.source).value.idFilter == None
    ensures !Exact(Trap(q, e.source), q)
  {
    hide Trap, Bait, Joined, Answer, Inside, Consistent, PrunedBy, Initial;
    var x := e.source;
    var w := Trap(q, x);
    var c := Initial(w, q.patterns);
    WellformedKnown(w, q);
    BaitFits(q, x, 0);
    BaitFits(q, x, 1);
    AllPruningKeepsBaits(q, c, q.edges, x);
    BaitTaken(q, c, x);
    AnswerNotJoin(w.links, c, q.edges, Bait(q.patterns, c, x, 0));
  }

  lemma AnswerNotJoin(g: Links, c: Candidates, edges: seq<EdgePattern>, b: Binding)
    requires KnownVars(c, edges) && Inside(PrunedBy(g, c, edges), b) && Consistent(g, edges, b)
      && !Joined(g, c, edges, b)
    ensures exists b: Binding :: Answer(g, c, edges, b) && !Joined(g, c, edges, b)
  {
    assert Answer(g, c, edges, b);
  }

  lemma BaitTaken(q: Query, c: Candidates, x: string)
    requires |q.patterns| + 3 < U32_LIMIT && KnownVars(c, q.edges)
    requires EdgePattern(x, x) in q.edges
    ensures var g, b := Trap(q, x).links, Bait(q.patterns, c, x, 0);
      Consistent(g, q.edges, b) && !Joined(g, c, q.edges, b)
  {
    hide TrapPairs, LinksOf, TrapIds;
    var g, b := Trap(q, x).links, Bait(q.patterns, c, x, 0);
    forall e | e in q.edges && e.source != e.target && e.source in b && e.target in b ensures Connects(g, b, e) {
      BaitLinked(q, c, x, e);
    }
    TrapPairsSound(q.patterns, q.edges, x);
    assert !Connects(g, b, EdgePattern(x, x));
  }

  /**
   * The queries the engine gets right in every possible world: exactly those whose variables with an
   * edge to themselves are given by identifier.
   */
  lemma ExactWhen(q: Query)
    requires Wellformed(q) && |q.patterns| + 3 < U32_LIMIT
    ensures (forall w: World :: Possible(w) ==> Exact(w, q)) <==> SelfPinned(q)
  {
    if SelfPinned(q) {
      forall w: World ensures Exact(w, q) { PinnedIsExact(w, q); }
    } else {
      var e :| e in q.edges && e.source == e.target && Deciding(q.patterns, e.source).Some?
        && Deciding(q.patterns, e.source).value.idFilter == None;
      TrapPossible(q, e.source);
      TrapCatches(q, e);
    }
  }
}
