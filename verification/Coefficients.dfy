/** When the clustering coefficient is the proper one: of the neighbours other than the vertex itself. */
module Coefficients {
  import opened Bitmaps
  import opened AlgoStructural

  /** What `ClusteringCoefficient` answers for the neighbours it finds. */
  ghost predicate Answers(g: Links, near: Bitmap, r: real) {
    if |near| < 2 then r == 0.0
    else r * Possible(|near|) as real == (|EdgesAmong(g, near)| + |LoopsAmong(g, near)| / 2) as real
  }

  /** Edges over possible edges among the other vertices. */
  ghost predicate Proper(g: Links, others: Bitmap, r: real) {
    if |others| < 2 then r == 0.0 else r * Possible(|others|) as real == |EdgesAmong(g, others)| as real
  }

  /** Links from s to itself and to one vertex more, which all of s is linked to. */
  lemma LinksToOneMore(g: Links, s: Bitmap, u: U32)
    requires Symmetric(g) && u !in s && s <= Neighbours(g, u)
    ensures |LinksBetween(g, s, s + {u})| == |LinksBetween(g, s, s)| + |s|
  {
    var column := Flipped(RowOfPairs(u, s));
    FlippedSize(RowOfPairs(u, s));
    RowSize(u, s);
    forall e ensures e in LinksBetween(g, s, s + {u}) <==> e in LinksBetween(g, s, s) || e in column {
      if e.1 == u && e.0 in s { assert (u, e.0) in RowOfPairs(u, s); }
    }
    assert LinksBetween(g, s, s + {u}) == LinksBetween(g, s, s) + column;
    assert LinksBetween(g, s, s) !! column;
  }

  /** A vertex linked to itself brings an edge to each of its other neighbours, and a loop. */
  lemma SelfCounted(g: Links, s: Bitmap, u: U32)
    requires Symmetric(g) && u !in s && s <= Neighbours(g, u) && u in Neighbours(g, u)
    ensures |LoopsAmong(g, s + {u})| == |LoopsAmong(g, s)| + 1
    ensures |EdgesAmong(g, s + {u})| == |EdgesAmong(g, s)| + |s|
  {
    hide EdgesAmong, LinksBetween;
    assert LoopsAmong(g, s + {u}) == LoopsAmong(g, s) + {u};
    assert Neighbours(g, u) * (s + {u}) == s + {u};
    LinksMore(g, s, s + {u}, u);
    LinksToOneMore(g, s, u);
    LinksCounted(g, s);
    LinksCounted(g, s + {u});
  }

  lemma PossibleNext(n: nat)
    requires n > 0
    ensures Possible(n + 1) == Possible(n) + n
  {
    assert (n + 1) * n == n * (n - 1) + 2 * n;
  }

  /** With q possible edges among n vertices, e of them there, and h loops too many. */
  lemma OnlyWhenFull(r: real, n: nat, q: nat, e: nat, h: nat)
    requires n > 0 && q > 0 && e <= q && r * (q + n) as real == (e + n + h) as real
    ensures r * q as real == e as real <==> h == 0 && e == q
  {
    assert r * (q + n) as real == r * q as real + r * n as real;
    if r * q as real == e as real {
      assert r * n as real == (n + h) as real;
      AtLeastOne(r, n, n + h);
      AtMostOne(r, q, e);
    }
    if h == 0 && e == q { Cancelled(r, q + n); }
  }

  lemma AtLeastOne(r: real, n: nat, m: nat)
    requires n > 0 && m >= n && r * n as real == m as real
    ensures r >= 1.0
  {
    if r < 1.0 { Signs(r - 1.0, n as real); }
  }

  lemma AtMostOne(r: real, q: nat, e: nat)
    requires q > 0 && e <= q && r * q as real == e as real
    ensures r <= 1.0
  {
    if r > 1.0 { assert (r - 1.0) * q as real > 0.0; }
  }

  lemma Cancelled(r: real, m: nat)
    requires m > 0 && r * m as real == m as real
    ensures r == 1.0
  {
    AtLeastOne(r, m, m);
    AtMostOne(r, m, m);
  }

  /** All linked to each other, two at least, and none to itself. */
  ghost predicate Full(g: Links, s: Bitmap) {
    |s| >= 2 && LoopsAmong(g, s) == {} && |EdgesAmong(g, s)| == Possible(|s|)
  }

  lemma ProperWithoutLoop(g: Links, near: Bitmap, r: real)
    requires Answers(g, near, r)
    ensures Proper(g, near, r) <==> |near| < 2 || |LoopsAmong(g, near)| < 2
  {
    hide EdgesAmong, LoopsAmong, Possible;
    if |near| >= 2 { CoefficientExact(g, near, r); }
  }

  lemma ProperWithLoop(g: Links, others: Bitmap, u: U32, r: real)
    requires Symmetric(g) && u !in others && others <= Neighbours(g, u) && u in Neighbours(g, u)
    requires Answers(g, others + {u}, r)
    ensures Proper(g, others, r) <==> others == {} || Full(g, others)
  {
    hide EdgesAmong, LoopsAmong, Possible, Symmetric, Neighbours;
    var n, e, l := |others|, |EdgesAmong(g, others)|, |LoopsAmong(g, others)|;
    SelfCounted(g, others, u);
    assert |others + {u}| == n + 1;
    if n == 1 {
      PossibleTwo();
      assert r == (e + 1 + (l + 1) / 2) as real;
    } else if n >= 2 {
      PossibleNext(n);
      PossiblePositive(n);
      EdgesAtMost(g, others);
      OnlyWhenFull(r, n, Possible(n), e, (l + 1) / 2);
    }
  }

  lemma PossibleTwo()
    ensures Possible(2) == 1
  {
  }

  lemma EdgesAtMost(g: Links, s: Bitmap)
    requires s != {}
    ensures |EdgesAmong(g, s)| <= Possible(|s|)
  {
    EdgesBounded(g, s);
  }

  /**
   * Of a vertex without a loop the coefficient is proper exactly when fewer than two neighbours have loops;
   * of one with a loop, exactly when it has no other neighbour, or all the others are linked to each other
   * and none to itself.
   */
  lemma CoefficientProper(g: Links, u: U32, r: real)
    requires Symmetric(g) && Answers(g, Neighbours(g, u), r)
    ensures var near := Neighbours(g, u);
      if u !in near then Proper(g, near, r) <==> |near| < 2 || |LoopsAmong(g, near)| < 2
      else Proper(g, near - {u}, r) <==> near == {u} || Full(g, near - {u})
  {
    hide EdgesAmong, LoopsAmong, Neighbours, Symmetric, Answers, Proper, Full;
    var near := Neighbours(g, u);
    if u !in near {
      ProperWithoutLoop(g, near, r);
    } else {
      assert near - {u} + {u} == near;
      assert near == {u} <==> near - {u} == {};
      ProperWithLoop(g, near - {u}, u, r);
    }
  }

  /** 0 linked to itself, to 1 and to 2: it is in no triangle, and its coefficient is 2/3. */
  lemma LoopAtTheVertex(r: real)
    requires Answers(Star(), Neighbours(Star(), 0), r)
    ensures r == 2.0 / 3.0 && !Proper(Star(), Neighbours(Star(), 0) - {0}, r)
  {
    var g: Links := Star();
    assert Neighbours(g, 0) == {0, 1, 2};
    assert EdgesAmong(g, {0, 1, 2}) == {(0, 1), (0, 2)} && LoopsAmong(g, {0, 1, 2}) == {0};
    assert {0, 1, 2} - {0} == {1, 2} && EdgesAmong(g, {1, 2}) == {};
  }

  function Star(): Links {
    map[0 := {0, 1, 2}, 1 := {0}, 2 := {0}]
  }
}
