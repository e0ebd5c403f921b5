/** algo_ranking.go: power iteration over exact reals. */
module Ranking {
  import opened Transducer
  import opened Bitmaps
  import opened Indices
  import opened GraphStore
  import opened AlgoPaths

  /** The sum of f over the numbers below n. */
  ghost function Total(n: nat, f: int -> real): real {
    if n == 0 then 0.0 else Total(n - 1, f) + f(n - 1)
  }

  /** The sum of f over a set, least first. */
  ghost function SetSum(s: Bitmap, f: int -> real): real
    decreases |s|
  {
    if s == {} then 0.0 else f(Least(s)) + SetSum(s - {Least(s)}, f)
  }

  lemma {:induction false} TotalSame(n: nat, f: int -> real, h: int -> real)
    requires forall i :: 0 <= i < n ==> f(i) == h(i)
    ensures Total(n, f) == Total(n, h)
  {
    if n > 0 { TotalSame(n - 1, f, h); }
  }

  lemma {:induction false} TotalLinear(n: nat, a: real, d: real, f: int -> real)
    ensures Total(n, i => a + d * f(i)) == n as real * a + d * Total(n, f)
  {
    if n > 0 { TotalLinear(n - 1, a, d, f); }
  }

  lemma {:induction false} TotalPlus(n: nat, f: int -> real, h: int -> real)
    ensures Total(n, i => f(i) + h(i)) == Total(n, f) + Total(n, h)
  {
    if n > 0 { TotalPlus(n - 1, f, h); }
  }

  lemma {:induction false} TotalAtMost(n: nat, f: int -> real, h: int -> real)
    requires forall i :: 0 <= i < n ==> f(i) <= h(i)
    ensures Total(n, f) <= Total(n, h)
  {
    if n > 0 { TotalAtMost(n - 1, f, h); }
  }

  /** A sum over a set is a sum over all numbers, with nothing for those outside. */
  lemma {:induction false} SetSumIsTotal(n: nat, s: Bitmap, f: int -> real)
    requires forall x :: x in s ==> x < n
    ensures SetSum(s, f) == Total(n, i => if i in s then f(i) else 0.0)
    decreases |s|
  {
    if s == {} {
      TotalZero(n, i => if i in s then f(i) else 0.0);
    } else {
      var m := Least(s);
      SetSumIsTotal(n, s - {m}, f);
      OneTotal(n, m, f(m));
      var rest, one := i => if i in s - {m} then f(i) else 0.0, i => if i == m then f(m) else 0.0;
      TotalPlus(n, rest, one);
      TotalSame(n, i => if i in s then f(i) else 0.0, i => rest(i) + one(i));
    }
  }

  lemma {:induction false} TotalZero(n: nat, f: int -> real)
    requires forall i :: 0 <= i < n ==> f(i) == 0.0
    ensures Total(n, f) == 0.0
  {
    if n > 0 { TotalZero(n - 1, f); }
  }

  lemma {:induction false} OneTotal(n: nat, m: int, c: real)
    requires 0 <= m < n
    ensures Total(n, i => if i == m then c else 0.0) == c
  {
    if m == n - 1 {
      TotalZero(n - 1, i => if i == m then c else 0.0);
    } else {
      OneTotal(n - 1, m, c);
    }
  }

  ghost function Row(f: (int, int) -> real, u: int): int -> real {
    v => f(u, v)
  }

  ghost function Column(f: (int, int) -> real, v: int): int -> real {
    u => f(u, v)
  }

  ghost function RowTotals(f: (int, int) -> real, n: nat): int -> real {
    u => Total(n, Row(f, u))
  }

  ghost function ColumnTotals(f: (int, int) -> real, m: nat): int -> real {
    v => Total(m, Column(f, v))
  }

  /** Rows first or columns first. */
  lemma {:induction false} TotalExchange(m: nat, n: nat, f: (int, int) -> real)
    ensures Total(m, RowTotals(f, n)) == Total(n, ColumnTotals(f, m))
  {
    if m == 0 {
      TotalZero(n, ColumnTotals(f, 0));
    } else {
      TotalExchange(m - 1, n, f);
      var before, last := ColumnTotals(f, m - 1), Row(f, m - 1);
      TotalPlus(n, before, last);
      TotalSame(n, ColumnTotals(f, m), i => before(i) + last(i));
    }
  }

  lemma {:induction false} SetSumConstant(s: Bitmap, c: real)
    ensures SetSum(s, _ => c) == |s| as real * c
    decreases |s|
  {
    if s != {} { SetSumConstant(s - {Least(s)}, c); }
  }

  /** What v gives each neighbour. */
  ghost function Share(g: Links, rank: seq<real>, v: int): real {
    if 0 <= v < U32_LIMIT && v < |rank| then
      rank[v] / (if Neighbours(g, v) == {} then 1 else |Neighbours(g, v)|) as real
    else 0.0
  }

  /** What u is given. */
  ghost function Given(g: Links, rank: seq<real>, u: int): real {
    if 0 <= u < U32_LIMIT then SetSum(Neighbours(g, u), AllShares(g, rank)) else 0.0
  }

  /** What v has to give: its rank, if it has anybody to give to. */
  ghost function Gives(g: Links, rank: seq<real>, v: int): real {
    if 0 <= v < U32_LIMIT && v < |rank| && Neighbours(g, v) != {} then rank[v] else 0.0
  }

  /** What v gives u. */
  ghost function Flow(g: Links, rank: seq<real>): (int, int) -> real {
    (u: int, v: int) => if 0 <= u < U32_LIMIT && v in Neighbours(g, u) then Share(g, rank, v) else 0.0
  }

  ghost function AllShares(g: Links, rank: seq<real>): int -> real {
    v => Share(g, rank, v)
  }

  ghost function Gifts(g: Links, rank: seq<real>): int -> real {
    u => Given(g, rank, u)
  }

  ghost function Means(g: Links, rank: seq<real>): int -> real {
    v => Gives(g, rank, v)
  }

  /** Over symmetric links, all that is given is all that there is to give. */
  lemma AllGiven(g: Links, rank: seq<real>)
    requires Symmetric(g) && Within(g, |rank|) && |rank| <= U32_LIMIT
    ensures Total(|rank|, Gifts(g, rank)) == Total(|rank|, Means(g, rank))
  {
    hide Share;
    var n, f := |rank|, Flow(g, rank);
    forall u | 0 <= u < n ensures Given(g, rank, u) == RowTotals(f, n)(u) {
      var near, shares := Neighbours(g, u), AllShares(g, rank);
      SetSumIsTotal(n, near, shares);
      TotalSame(n, i => if i in near then shares(i) else 0.0, Row(f, u));
    }
    TotalSame(n, Gifts(g, rank), RowTotals(f, n));
    TotalExchange(n, n, f);
    forall v | 0 <= v < n ensures ColumnTotals(f, n)(v) == Gives(g, rank, v) {
      ColumnGiven(g, rank, v);
      var near, c := Neighbours(g, v), Share(g, rank, v);
      TotalSame(n, Column(f, v), u => if u in near then c else 0.0);
    }
    TotalSame(n, ColumnTotals(f, n), Means(g, rank));
  }

  /** The shares of v come to its rank. */
  lemma ColumnGiven(g: Links, rank: seq<real>, v: U32)
    requires Within(g, |rank|) && v < |rank|
    ensures var near, c := Neighbours(g, v), Share(g, rank, v);
      Total(|rank|, u => if u in near then c else 0.0) == Gives(g, rank, v)
  {
    hide Share, Gives, Neighbours;
    var near, c := Neighbours(g, v), Share(g, rank, v);
    var same: int -> real := _ => c;
    NeighboursBelow(g, |rank|, v);
    SetSumIsTotal(|rank|, near, same);
    TotalSame(|rank|, u => if u in near then c else 0.0, u => if u in near then same(u) else 0.0);
    SetSumConstant(near, c);
    SharesAddUp(g, rank, v);
  }

  lemma NeighboursBelow(g: Links, n: nat, v: U32)
    requires Within(g, n)
    ensures forall u :: u in Neighbours(g, v) ==> u < n
  {
  }

  lemma SharesAddUp(g: Links, rank: seq<real>, v: U32)
    requires v < |rank|
    ensures |Neighbours(g, v)| as real * Share(g, rank, v) == Gives(g, rank, v)
  {
    if Neighbours(g, v) != {} { Divided(rank[v], |Neighbours(g, v)|); }
  }

  lemma Divided(r: real, n: nat)
    requires n > 0
    ensures n as real * (r / n as real) == r
  {
  }

  ghost function At(rank: seq<real>): int -> real {
    i => if 0 <= i < |rank| then rank[i] else 0.0
  }

  ghost function Mass(rank: seq<real>): real {
    Total(|rank|, At(rank))
  }

  /** One iteration turns one ranking into the next. */
  ghost predicate Stepped(g: Links, d: real, before: seq<real>, after: seq<real>) {
    |after| == |before| && forall u :: 0 <= u < |after| ==>
      after[u] == (1.0 - d) / |after| as real + d * Given(g, before, u)
  }

  ghost predicate NoneIsolated(g: Links, n: nat) {
    forall u: U32 :: u < n ==> Neighbours(g, u) != {}
  }

  /** What holds of the ranks before and after every iteration. */
  ghost predicate Ranked(g: Links, d: real, rank: seq<real>) {
    && (forall u :: 0 <= u < |rank| ==> rank[u] >= (1.0 - d) / |rank| as real)
    && Mass(rank) <= 1.0
    && (NoneIsolated(g, |rank|) ==> Mass(rank) == 1.0)
  }

  lemma StepMass(g: Links, d: real, before: seq<real>, after: seq<real>)
    requires Stepped(g, d, before, after) && Symmetric(g) && Within(g, |before|) && 0 < |before| <= U32_LIMIT
    ensures Mass(after) == (1.0 - d) + d * Total(|before|, Means(g, before))
  {
    hide Given, Symmetric, Within, Gives, Stepped, Mass, Gifts, Means, Total;
    AllGiven(g, before);
    MassSplits(g, d, before, after);
    Divided(1.0 - d, |after|);
  }

  /** The new ranks sum to N teleport shares and the damped sum of all that was given. */
  lemma MassSplits(g: Links, d: real, before: seq<real>, after: seq<real>)
    requires Stepped(g, d, before, after) && |before| > 0
    ensures |after| == |before|
    ensures Mass(after)
         == |after| as real * ((1.0 - d) / |after| as real) + d * Total(|before|, Gifts(g, before))
  {
    hide Given;
    var n := |after|;
    var a := (1.0 - d) / n as real;
    TotalLinear(n, a, d, Gifts(g, before));
    TotalSame(n, At(after), i => a + d * Gifts(g, before)(i));
  }

  /** No more is given than there is; all of it when nobody is isolated. */
  lemma MeansMass(g: Links, rank: seq<real>)
    requires |rank| <= U32_LIMIT && forall u :: 0 <= u < |rank| ==> rank[u] >= 0.0
    ensures Total(|rank|, Means(g, rank)) <= Mass(rank)
    ensures NoneIsolated(g, |rank|) ==> Total(|rank|, Means(g, rank)) == Mass(rank)
  {
    hide Neighbours;
    TotalAtMost(|rank|, Means(g, rank), At(rank));
    if NoneIsolated(g, |rank|) { TotalSame(|rank|, Means(g, rank), At(rank)); }
  }

  lemma {:induction false} SetSumNatural(s: Bitmap, f: int -> real)
    requires forall x :: x in s ==> f(x) >= 0.0
    ensures SetSum(s, f) >= 0.0
    decreases |s|
  {
    if s != {} { SetSumNatural(s - {Least(s)}, f); }
  }

  lemma GivenNatural(g: Links, rank: seq<real>, u: int)
    requires forall v :: 0 <= v < |rank| ==> rank[v] >= 0.0
    ensures Given(g, rank, u) >= 0.0
  {
    if 0 <= u < U32_LIMIT {
      forall v | v in Neighbours(g, u) ensures AllShares(g, rank)(v) >= 0.0 {
        if v < |rank| { ShareNatural(rank[v], if Neighbours(g, v) == {} then 1 else |Neighbours(g, v)|); }
      }
      SetSumNatural(Neighbours(g, u), AllShares(g, rank));
    }
  }

  lemma ShareNatural(r: real, n: nat)
    requires r >= 0.0 && n > 0
    ensures r / n as real >= 0.0
  {
  }

  /** For damping strictly between 0 and 1 an iteration keeps what holds of the ranks. */
  lemma StepKeeps(g: Links, d: real, before: seq<real>, after: seq<real>)
    requires 0.0 < d < 1.0 && Stepped(g, d, before, after) && Ranked(g, d, before)
    requires Symmetric(g) && Within(g, |before|) && 0 < |before| <= U32_LIMIT
    ensures Ranked(g, d, after)
  {
    hide Given, Symmetric, Within, Mass, NoneIsolated, Means;
    var n := |before|;
    ShareNatural(1.0 - d, n);
    StepMass(g, d, before, after);
    MeansMass(g, before);
    Scaled(d, Total(n, Means(g, before)), Mass(before));
    forall u | 0 <= u < n ensures after[u] >= (1.0 - d) / n as real {
      GivenNatural(g, before, u);
      Scaled(d, 0.0, Given(g, before, u));
    }
  }

  lemma Scaled(d: real, a: real, b: real)
    requires d > 0.0
    ensures a <= b ==> d * a <= d * b
  {
    if a <= b { assert d * (b - a) >= 0.0; }
  }

  /** The ranks to begin with. */
  lemma UniformRanked(g: Links, d: real, rank: seq<real>)
    requires |rank| > 0 && 0.0 < d < 1.0 && forall u :: 0 <= u < |rank| ==> rank[u] == 1.0 / |rank| as real
    ensures Ranked(g, d, rank)
  {
    hide NoneIsolated;
    var n := |rank|;
    var c := 1.0 / n as real;
    TotalLinear(n, c, 0.0, At(rank));
    TotalSame(n, At(rank), i => c + 0.0 * At(rank)(i));
    Divided(1.0, n);
    ShareNatural(d, n);
    assert (1.0 - d) / n as real == c - d / n as real;
  }

  /** What one vertex is given in an iteration. */
  method Contribution(g: Links, rank: array<real>, u: U32) returns (contrib: real)
    requires Within(g, rank.Length)
    ensures contrib == Given(g, rank[..], u)
  {
    hide SetSum, Within;
    contrib := 0.0;
    ghost var f := AllShares(g, rank[..]);
    SetSumSplit({}, f);
    if u in g {
      var rest := g[u];
      while rest != {}
        invariant rest <= g[u] && contrib + SetSum(rest, f) == SetSum(g[u], f)
        decreases |rest|
      {
        var n := Least(rest);
        SetSumSplit(rest, f);
        NeighbourInside(g, rank.Length, u, n);
        var nDeg := 1;
        if n in g {
          nDeg := |g[n]|;
          if nDeg == 0 {
            nDeg := 1;
          }
        }
        contrib := contrib + rank[n] / nDeg as real;
        rest := rest - {n};
      }
    }
  }

  lemma SetSumSplit(s: Bitmap, f: int -> real)
    ensures SetSum({}, f) == 0.0
    ensures s != {} ==> SetSum(s, f) == f(Least(s)) + SetSum(s - {Least(s)}, f)
  {
  }

  lemma NeighbourInside(g: Links, n: nat, u: U32, v: U32)
    requires Within(g, n) && v in Neighbours(g, u)
    ensures v < n
  {
  }

  /** All the numbers below the length, in some order. */
  ghost predicate Listed(indices: seq<U32>) {
    && |indices| <= U32_LIMIT && (forall k :: 0 <= k < |indices| ==> indices[k] < |indices|)
    && (forall i: U32 :: i < |indices| ==> i in indices)
    && (forall j, k :: 0 <= j < k < |indices| ==> indices[j] != indices[k])
  }

  lemma PlaceOf(indices: seq<U32>, u: int) returns (k: nat)
    requires Listed(indices) && 0 <= u < |indices|
    ensures k < |indices| && indices[k] == u
  {
    var v: U32 := u;
    assert v in indices;
    k :| 0 <= k < |indices| && indices[k] == v;
  }

  lemma AllListed(indices: seq<U32>)
    requires |indices| <= U32_LIMIT && forall i: U32 :: i in indices <==> i < |indices|
    requires forall j, k :: 0 <= j < k < |indices| ==> indices[j] != indices[k]
    ensures Listed(indices)
  {
    forall k | 0 <= k < |indices| ensures indices[k] < |indices| { assert indices[k] in indices; }
  }

  function Abs(x: real): (r: real)
    ensures r >= 0.0 && (r == x || r == -x)
  {
    if x < 0.0 then -x else x
  }

  /** How far each rank moved from one ranking to the next. */
  ghost function Moves(before: seq<real>, after: seq<real>): int -> real {
    i => if 0 <= i < |before| && i < |after| then Abs(after[i] - before[i]) else 0.0
  }

  /** How far all of them moved. */
  ghost function Moved(before: seq<real>, after: seq<real>): real {
    Total(|before|, Moves(before, after))
  }

  /** f on s, and nothing elsewhere. */
  ghost function Only(s: set<int>, f: int -> real): int -> real {
    i => if i in s then f(i) else 0.0
  }

  lemma OnlyMore(n: nat, s: set<int>, x: int, f: int -> real)
    requires x !in s && 0 <= x < n
    ensures Total(n, Only(s + {x}, f)) == Total(n, Only(s, f)) + f(x)
  {
    var one := i => if i == x then f(x) else 0.0;
    OneTotal(n, x, f(x));
    TotalPlus(n, Only(s, f), one);
    TotalSame(n, Only(s + {x}, f), i => Only(s, f)(i) + one(i));
  }

  lemma OnlyNone(n: nat, f: int -> real)
    ensures Total(n, Only({}, f)) == 0.0
  {
    TotalZero(n, Only({}, f));
  }

  lemma OnlyAll(n: nat, s: set<int>, f: int -> real)
    requires forall i :: 0 <= i < n ==> i in s
    ensures Total(n, Only(s, f)) == Total(n, f)
  {
    TotalSame(n, Only(s, f), f);
  }

  /** The ranks after an iteration. */
  ghost function NextRanks(g: Links, d: real, before: seq<real>): (after: seq<real>)
    requires |before| > 0
    ensures Stepped(g, d, before, after)
  {
    seq(|before|, u requires 0 <= u < |before| => (1.0 - d) / |before| as real + d * Given(g, before, u))
  }

  lemma NextRanksFit(g: Links, d: real, before: seq<real>)
    requires |before| > 0
    ensures |NextRanks(g, d, before)| == |before|
  {
  }

  lemma NextRankAt(g: Links, d: real, before: seq<real>, u: nat)
    requires u < |before|
    ensures var after := NextRanks(g, d, before);
      u < |after| && after[u] == (1.0 - d) / |before| as real + d * Given(g, before, u)
      && Moves(before, after)(u) == Abs(after[u] - before[u])
  {
  }

  /** One iteration, and how far it moved the ranks. */
  method Iterate(g: Links, indices: seq<U32>, rank: array<real>, next: array<real>, damping: real) returns (delta: real)
    requires rank != next && rank.Length == next.Length == |indices| && |indices| > 0 && Within(g, |indices|)
    requires Listed(indices)
    modifies next
    ensures rank[..] == old(rank[..]) && Stepped(g, damping, rank[..], next[..])
    ensures delta == Moved(rank[..], next[..])
  {
    hide Within, Given, Total, Stepped, Only, Moves, NextRanks, Abs;
    ghost var ranks := rank[..];
    ghost var after := NextRanks(g, damping, ranks);
    NextRanksFit(g, damping, ranks);
    ghost var moves, done: set<int> := Moves(ranks, after), {};
    forall i | 0 <= i < next.Length {
      next[i] := 0.0;
    }
    delta := 0.0;
    OnlyNone(rank.Length, moves);
    var teleport := (1.0 - damping) / |indices| as real;
    for k := 0 to |indices|
      invariant rank[..] == ranks
      invariant forall i :: 0 <= i < k ==> next[indices[i]] == after[indices[i]]
      invariant forall i: int :: i in done <==> exists j :: 0 <= j < k && indices[j] == i
      invariant delta == Total(rank.Length, Only(done, moves))
    {
      var idx := indices[k];
      var contrib := Contribution(g, rank, idx);
      OnlyMore(rank.Length, done, idx, moves);
      NextRankAt(g, damping, ranks, idx);
      next[idx] := teleport + damping * contrib;
      delta := delta + Abs(next[idx] - rank[idx]);
      done := done + {idx};
    }
    forall u | 0 <= u < next.Length ensures next[u] == after[u] && u in done {
      var i := PlaceOf(indices, u);
    }
    assert next[..] == after;
    OnlyAll(rank.Length, done, moves);
  }

  const DEFAULT_DAMPING: real := 0.85
  const DEFAULT_MAX_ITER: int := 100
  const DEFAULT_TOLERANCE: real := 0.000001

  ghost predicate Uniform(rank: seq<real>) {
    forall u :: 0 <= u < |rank| ==> rank[u] == 1.0 / |rank| as real
  }

  /** The rankings one after the other: from the uniform one, each step an iteration, all but the last still moving. */
  ghost predicate Iterating(g: Links, d: real, limit: int, tolerance: real, rs: seq<seq<real>>) {
    && rs != [] && Uniform(rs[0])
    && (forall i :: 0 <= i < |rs| - 1 ==> Stepped(g, d, rs[i], rs[i + 1]))
    && (forall i :: 0 <= i < |rs| - 2 ==> Moved(rs[i], rs[i + 1]) >= tolerance)
    && (|rs| == 1 || |rs| - 1 <= limit)
  }

  /** And the last is where they end: at the limit, or where the ranks have stopped moving. */
  ghost predicate Iterated(g: Links, d: real, limit: int, tolerance: real, rs: seq<seq<real>>) {
    && Iterating(g, d, limit, tolerance, rs)
    && (|rs| - 1 >= limit || (|rs| > 1 && Moved(rs[|rs| - 2], rs[|rs| - 1]) < tolerance))
  }

  lemma IteratesOn(g: Links, d: real, limit: int, tolerance: real, rs: seq<seq<real>>, after: seq<real>)
    requires Iterating(g, d, limit, tolerance, rs) && |rs| - 1 < limit
    requires |rs| > 1 ==> Moved(rs[|rs| - 2], rs[|rs| - 1]) >= tolerance
    requires Stepped(g, d, rs[|rs| - 1], after)
    ensures Iterating(g, d, limit, tolerance, rs + [after])
  {
    hide Stepped, Moved, Uniform;
  }

  /**
   * `PageRank`: the last of the rankings that iterating from the uniform one gives, up to the limit or until
   * they stop moving. With damping strictly between 0 and 1 no rank is below its share of the teleport, the
   * ranks sum to 1 when no vertex is isolated, and never to more.
   */
  method PageRank<T(!new)>(s: SQLiteStore<T>, damping: real, maxIter: int, tolerance: real)
    returns (result: map<Uuid, real>, ghost ranks: seq<real>, ghost rs: seq<seq<real>>)
    requires s.Valid() && |s.registry.idxToUUID| < U32_LIMIT
    ensures |ranks| == |s.registry.idxToUUID|
    ensures result.Keys == s.registry.uuidToIdx.Keys
    ensures forall i: U32 :: i < |ranks| ==>
      s.registry.idxToUUID[i] in result && result[s.registry.idxToUUID[i]] == ranks[i]
    ensures ranks != [] ==> |rs| > 0 && ranks == rs[|rs| - 1] && |rs[0]| == |ranks|
    ensures ranks != [] ==> Iterated(s.outEdges, if damping == 0.0 then DEFAULT_DAMPING else damping,
      if maxIter == 0 then DEFAULT_MAX_ITER else maxIter, if tolerance == 0.0 then DEFAULT_TOLERANCE else tolerance, rs)
    ensures ranks != [] && (damping == 0.0 || 0.0 < damping < 1.0) ==>
      Ranked(s.outEdges, if damping == 0.0 then DEFAULT_DAMPING else damping, ranks)
  {
    hide SQLiteStore.Valid, Ranked, Within, Symmetric, Listed, Iterated;
    var d := if damping == 0.0 then DEFAULT_DAMPING else damping;
    var iterations := if maxIter == 0 then DEFAULT_MAX_ITER else maxIter;
    var tol := if tolerance == 0.0 then DEFAULT_TOLERANCE else tolerance;
    StoreLinks(s);
    var indices := s.registry.AllIndices();
    var n := |indices|;
    if n == 0 {
      assert s.registry.uuidToIdx == map[];
      return map[], [], [];
    }
    AllListed(indices);
    var rank;
    rank, rs := Rank(s.outEdges, indices, s.registry.nextIdx, d, iterations, tol);
    ranks := rank[..];
    result := RanksById(s.registry, indices, rank);
  }

  /** The ranks under the vertices' identifiers. */
  method RanksById(reg: IndexRegistry, indices: seq<U32>, rank: array<real>) returns (result: map<Uuid, real>)
    requires reg.Valid() && rank.Length == |indices| == |reg.idxToUUID| && Listed(indices)
    ensures result.Keys == reg.uuidToIdx.Keys
    ensures forall i: U32 :: i < rank.Length ==> reg.idxToUUID[i] in result && result[reg.idxToUUID[i]] == rank[i]
  {
    result := map[];
    for k := 0 to |indices|
      invariant forall id :: id in result <==> exists i :: 0 <= i < k && reg.idxToUUID[indices[i]] == id
      invariant forall i :: 0 <= i < k ==>
        reg.idxToUUID[indices[i]] in result && result[reg.idxToUUID[indices[i]]] == rank[indices[i]]
    {
      var uid := reg.ReverseLookup(indices[k]);
      if uid.Some? {
        result := result[uid.value := rank[indices[k]]];
      }
    }
    AllRanked(reg, indices, result, rank[..]);
  }

  lemma AllRanked(reg: IndexRegistry, indices: seq<U32>, result: map<Uuid, real>, ranks: seq<real>)
    requires reg.Valid() && |ranks| == |indices| == |reg.idxToUUID|
    requires Listed(indices)
    requires forall id :: id in result <==> exists i :: 0 <= i < |indices| && reg.idxToUUID[indices[i]] == id
    requires forall i :: 0 <= i < |indices| ==>
      reg.idxToUUID[indices[i]] in result && result[reg.idxToUUID[indices[i]]] == ranks[indices[i]]
    ensures result.Keys == reg.uuidToIdx.Keys
    ensures forall i: U32 :: i < |ranks| ==> reg.idxToUUID[i] in result && result[reg.idxToUUID[i]] == ranks[i]
  {
    forall i: U32 | i < |ranks| ensures reg.idxToUUID[i] in result && result[reg.idxToUUID[i]] == ranks[i] {
      var k := PlaceOf(indices, i);
    }
    forall id ensures id in result <==> id in reg.uuidToIdx {
      if id in reg.uuidToIdx { assert reg.idxToUUID[reg.uuidToIdx[id]] == id; }
    }
  }

  /** The iterations, on two arrays that change places. */
  method Rank(g: Links, indices: seq<U32>, maxIdx: nat, damping: real, maxIter: int, tolerance: real)
    returns (rank: array<real>, ghost rs: seq<seq<real>>)
    requires maxIdx == |indices| && 0 < |indices| < U32_LIMIT && Within(g, |indices|) && Symmetric(g)
    requires Listed(indices)
    ensures rank.Length == maxIdx && fresh(rank)
    ensures |rs| > 0 && rs[|rs| - 1] == rank[..] && |rs[0]| == maxIdx && Iterated(g, damping, maxIter, tolerance, rs)
    ensures 0.0 < damping < 1.0 ==> Ranked(g, damping, rank[..])
  {
    hide Ranked, Within, Symmetric, Stepped, Moved, Iterating;
    rank := new real[maxIdx](_ => 0.0);
    var next := new real[maxIdx](_ => 0.0);
    var initial := 1.0 / |indices| as real;
    for k := 0 to |indices|
      invariant forall i :: 0 <= i < k ==> rank[indices[i]] == initial
    {
      rank[indices[k]] := initial;
    }
    forall u | 0 <= u < rank.Length ensures rank[u] == initial {
      var i := PlaceOf(indices, u);
    }
    rs := [rank[..]];
    StartIterating(g, damping, maxIter, tolerance, rank[..]);
    if 0.0 < damping < 1.0 { UniformRanked(g, damping, rank[..]); }
    var iter := 0;
    while iter < maxIter
      invariant fresh(rank) && fresh(next) && rank != next && rank.Length == next.Length == |indices|
      invariant 0.0 < damping < 1.0 ==> Ranked(g, damping, rank[..])
      invariant |rs| == iter + 1 && rs[iter] == rank[..] && |rs[0]| == maxIdx
      invariant Iterating(g, damping, maxIter, tolerance, rs)
      invariant iter > 0 ==> Moved(rs[iter - 1], rs[iter]) >= tolerance
      decreases maxIter - iter
    {
      var delta := Iterate(g, indices, rank, next, damping);
      if 0.0 < damping < 1.0 { StepKeeps(g, damping, rank[..], next[..]); }
      IteratesOn(g, damping, maxIter, tolerance, rs, next[..]);
      rs := rs + [next[..]];
      rank, next := next, rank;
      if delta < tolerance {
        break;
      }
      iter := iter + 1;
    }
  }

  lemma StartIterating(g: Links, d: real, limit: int, tolerance: real, rank: seq<real>)
    requires Uniform(rank)
    ensures Iterating(g, d, limit, tolerance, [rank])
  {
  }
}
