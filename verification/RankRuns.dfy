/** algo_ranking.go: where the iterations lead. */
module RankRuns {
  import opened Bitmaps
  import opened Ranking

  lemma SteppedOnce(g: Links, d: real, before: seq<real>, one: seq<real>, other: seq<real>)
    requires Stepped(g, d, before, one) && Stepped(g, d, before, other)
    ensures one == other
  {
    hide Given;
  }

  /** Rankings that iterate from as many vertices agree as far as both go. */
  lemma {:induction false} SameSoFar(g: Links, d: real, limit: int, tolerance: real,
                                     rs: seq<seq<real>>, others: seq<seq<real>>, k: nat)
    requires Iterating(g, d, limit, tolerance, rs) && Iterating(g, d, limit, tolerance, others)
    requires |rs[0]| == |others[0]| && k < |rs| && k < |others|
    ensures rs[k] == others[k]
  {
    hide Stepped, Moved;
    if k == 0 {
      assert rs[0] == others[0];
    } else {
      SameSoFar(g, d, limit, tolerance, rs, others, k - 1);
      SteppedOnce(g, d, rs[k - 1], rs[k - 1 + 1], others[k - 1 + 1]);
    }
  }

  /** The links, the options and the number of vertices decide every ranking on the way and where they end. */
  lemma IteratedUnique(g: Links, d: real, limit: int, tolerance: real,
                       rs: seq<seq<real>>, others: seq<seq<real>>)
    requires Iterated(g, d, limit, tolerance, rs) && Iterated(g, d, limit, tolerance, others)
    requires |rs[0]| == |others[0]|
    ensures rs == others
  {
    IteratedNoLonger(g, d, limit, tolerance, rs, others);
    IteratedNoLonger(g, d, limit, tolerance, others, rs);
    forall k | 0 <= k < |rs| ensures rs[k] == others[k] {
      SameSoFar(g, d, limit, tolerance, rs, others, k);
    }
  }

  lemma IteratedNoLonger(g: Links, d: real, limit: int, tolerance: real,
                         rs: seq<seq<real>>, others: seq<seq<real>>)
    requires Iterated(g, d, limit, tolerance, rs) && Iterating(g, d, limit, tolerance, others)
    requires |rs[0]| == |others[0]|
    ensures |others| <= |rs|
  {
    hide Stepped, Moved, Uniform;
    var n := |rs|;
    if n < |others| && 1 < n {
      SameSoFar(g, d, limit, tolerance, rs, others, n - 1);
      SameSoFar(g, d, limit, tolerance, rs, others, n - 2);
    }
  }

  /** How far apart two rankings are, vertex by vertex. */
  ghost function Apart(a: seq<real>, b: seq<real>): (r: seq<real>)
    requires |a| == |b|
    ensures |r| == |a| && forall i :: 0 <= i < |r| ==> r[i] == Abs(b[i] - a[i])
  {
    seq(|a|, i requires 0 <= i < |a| => Abs(b[i] - a[i]))
  }

  lemma {:induction false} SetSumApart(s: Bitmap, f: int -> real, h: int -> real, gap: int -> real)
    requires forall x :: x in s ==> Abs(h(x) - f(x)) <= gap(x)
    ensures Abs(SetSum(s, h) - SetSum(s, f)) <= SetSum(s, gap)
    decreases |s|
  {
    if s != {} { SetSumApart(s - {Least(s)}, f, h, gap); }
  }

  lemma SharesApart(x: real, y: real, n: nat)
    requires n > 0
    ensures Abs(y / n as real - x / n as real) == Abs(y - x) / n as real
  {
    var m := n as real;
    assert y / m - x / m == (y - x) / m;
    assert (x - y) / m == -((y - x) / m);
    ShareNatural(Abs(y - x), n);
  }

  /** What a vertex is given differs by no more than it would be given of the difference. */
  lemma GivenApart(g: Links, a: seq<real>, b: seq<real>, u: int)
    requires |a| == |b|
    ensures Abs(Given(g, b, u) - Given(g, a, u)) <= Given(g, Apart(a, b), u)
  {
    var gap := Apart(a, b);
    if 0 <= u < U32_LIMIT {
      forall v | v in Neighbours(g, u)
        ensures Abs(AllShares(g, b)(v) - AllShares(g, a)(v)) <= AllShares(g, gap)(v)
      {
        if v < |a| { SharesApart(a[v], b[v], if Neighbours(g, v) == {} then 1 else |Neighbours(g, v)|); }
      }
      SetSumApart(Neighbours(g, u), AllShares(g, a), AllShares(g, b), AllShares(g, gap));
    }
  }

  lemma VertexCloser(g: Links, d: real, a: seq<real>, b: seq<real>, afterA: seq<real>, afterB: seq<real>, u: nat)
    requires 0.0 < d && Stepped(g, d, a, afterA) && Stepped(g, d, b, afterB) && |a| == |b| && u < |a|
    ensures Moves(afterA, afterB)(u) <= d * Given(g, Apart(a, b), u)
  {
    hide Given, Apart;
    var x, y := Given(g, a, u), Given(g, b, u);
    GivenApart(g, a, b, u);
    DampedApart(d, x, y);
    Scaled(d, Abs(y - x), Given(g, Apart(a, b), u));
    assert afterB[u] - afterA[u] == d * y - d * x;
  }

  /** The differences, summed over the vertices. */
  lemma MovedIsMass(a: seq<real>, b: seq<real>)
    requires |a| == |b|
    ensures Mass(Apart(a, b)) == Moved(a, b)
  {
    TotalSame(|a|, At(Apart(a, b)), Moves(a, b));
  }

  /** An iteration brings any two rankings closer, at least by the damping. */
  lemma Contracts(g: Links, d: real, a: seq<real>, b: seq<real>, afterA: seq<real>, afterB: seq<real>)
    requires 0.0 < d && Stepped(g, d, a, afterA) && Stepped(g, d, b, afterB) && |a| == |b|
    requires Symmetric(g) && Within(g, |a|) && |a| <= U32_LIMIT
    ensures Moved(afterA, afterB) <= d * Moved(a, b)
  {
    hide Given, Symmetric, Within, Means, NoneIsolated, Total, Apart, Mass, Stepped, Moves;
    var n, gap := |a|, Apart(a, b);
    SteppedLength(g, d, a, afterA);
    forall u | 0 <= u < n ensures Moves(afterA, afterB)(u) <= 0.0 + d * Gifts(g, gap)(u) {
      VertexCloser(g, d, a, b, afterA, afterB, u);
    }
    TotalAtMost(n, Moves(afterA, afterB), i => 0.0 + d * Gifts(g, gap)(i));
    TotalLinear(n, 0.0, d, Gifts(g, gap));
    AllGiven(g, gap);
    MeansMass(g, gap);
    MovedIsMass(a, b);
    Scaled(d, Total(n, Means(g, gap)), Moved(a, b));
  }

  lemma DampedApart(d: real, x: real, y: real)
    requires 0.0 < d
    ensures Abs(d * y - d * x) == d * Abs(y - x)
  {
    assert d * y - d * x == d * (y - x);
    if y >= x { assert d * (y - x) >= 0.0; } else { assert d * (x - y) >= 0.0; }
  }

  ghost function Power(d: real, k: nat): real {
    if k == 0 then 1.0 else d * Power(d, k - 1)
  }

  /** The ranks come closer to any that an iteration leaves alone, by the damping each time. */
  lemma {:induction false} Approaches(g: Links, d: real, limit: int, tolerance: real, rs: seq<seq<real>>,
                                      rest: seq<real>, k: nat)
    requires 0.0 < d && Iterating(g, d, limit, tolerance, rs) && k < |rs|
    requires Stepped(g, d, rest, rest) && |rest| == |rs[0]|
    requires Symmetric(g) && Within(g, |rest|) && |rest| <= U32_LIMIT
    ensures |rs[k]| == |rest| && Moved(rest, rs[k]) <= Power(d, k) * Moved(rest, rs[0])
  {
    hide Stepped, Moved, Symmetric, Within, Uniform;
    if k > 0 {
      Approaches(g, d, limit, tolerance, rs, rest, k - 1);
      SteppedLength(g, d, rs[k - 1], rs[k - 1 + 1]);
      Contracts(g, d, rest, rs[k - 1], rest, rs[k - 1 + 1]);
      Scaled(d, Moved(rest, rs[k - 1]), Power(d, k - 1) * Moved(rest, rs[0]));
    }
  }

  lemma SteppedLength(g: Links, d: real, before: seq<real>, after: seq<real>)
    requires Stepped(g, d, before, after)
    ensures |after| == |before|
  {
  }

  lemma {:induction false} TotalNothing(n: nat, f: int -> real)
    requires forall i :: 0 <= i < n ==> f(i) >= 0.0
    ensures Total(n, f) >= 0.0
    ensures Total(n, f) == 0.0 ==> forall i :: 0 <= i < n ==> f(i) == 0.0
  {
    if n > 0 { TotalNothing(n - 1, f); }
  }

  /** An iteration leaves no two rankings alone. */
  lemma StationaryUnique(g: Links, d: real, a: seq<real>, b: seq<real>)
    requires 0.0 < d < 1.0 && Stepped(g, d, a, a) && Stepped(g, d, b, b) && |a| == |b|
    requires Symmetric(g) && Within(g, |a|) && |a| <= U32_LIMIT
    ensures a == b
  {
    hide Stepped, Symmetric, Within, Total;
    Contracts(g, d, a, b, a, b);
    TotalNothing(|a|, Moves(a, b));
    NoneMoved(d, Moved(a, b));
    forall i | 0 <= i < |a| ensures a[i] == b[i] { assert Moves(a, b)(i) == 0.0; }
  }

  lemma NoneMoved(d: real, m: real)
    requires d < 1.0 && m >= 0.0 && m <= d * m
    ensures m == 0.0
  {
    if m > 0.0 { Scaled(m, d, 1.0); }
  }

  /** The distances of three rankings. */
  lemma Triangle(a: seq<real>, b: seq<real>, c: seq<real>)
    requires |a| == |b| == |c|
    ensures Moved(a, c) <= Moved(a, b) + Moved(c, b)
  {
    TotalPlus(|a|, Moves(a, b), Moves(c, b));
    TotalAtMost(|a|, Moves(a, c), i => Moves(a, b)(i) + Moves(c, b)(i));
  }

  /** Where the ranks have stopped moving they are near those that an iteration leaves alone. */
  lemma StopsNear(g: Links, d: real, before: seq<real>, after: seq<real>, rest: seq<real>, tolerance: real)
    requires 0.0 < d < 1.0 && Stepped(g, d, before, after) && Moved(before, after) < tolerance
    requires Stepped(g, d, rest, rest) && |rest| == |before|
    requires Symmetric(g) && Within(g, |rest|) && |rest| <= U32_LIMIT
    ensures |after| == |rest| && (1.0 - d) * Moved(rest, after) <= d * tolerance
  {
    hide Stepped, Moved, Symmetric, Within;
    SteppedLength(g, d, before, after);
    Contracts(g, d, rest, before, rest, after);
    Triangle(rest, after, before);
    var near, far, step := Moved(rest, after), Moved(rest, before), Moved(before, after);
    Scaled(d, far, near + step);
    Scaled(d, step, tolerance);
    assert d * (near + step) == d * near + d * step;
    assert (1.0 - d) * near == near - d * near;
  }

  /** Each iteration moves the ranks less than the one before, at least by the damping. */
  lemma SlowsDown(g: Links, d: real, limit: int, tolerance: real, rs: seq<seq<real>>, k: nat)
    requires 0.0 < d && Iterating(g, d, limit, tolerance, rs) && k + 2 < |rs|
    requires Symmetric(g) && Within(g, |rs[k]|) && |rs[k]| <= U32_LIMIT
    ensures Moved(rs[k + 1], rs[k + 2]) <= d * Moved(rs[k], rs[k + 1])
  {
    hide Moved, Symmetric, Within, Uniform, Given;
    assert Stepped(g, d, rs[k + 1], rs[k + 1 + 1]);
    Contracts(g, d, rs[k], rs[k + 1], rs[k + 1], rs[k + 2]);
  }

  /** The path 0 - 1 - 2. */
  ghost predicate PathOfThree(g: Links) {
    Neighbours(g, 0) == {1} && Neighbours(g, 1) == {0, 2} && Neighbours(g, 2) == {1}
  }

  lemma SumOfOne(x: U32, f: int -> real)
    ensures SetSum({x}, f) == f(x)
  {
    assert {x} - {x} == {};
  }

  lemma SumOfTwo(x: U32, y: U32, f: int -> real)
    requires x < y
    ensures SetSum({x, y}, f) == f(x) + f(y)
  {
    assert {x, y} - {x} == {y} && {x, y} - {y} == {x};
    SumOfOne(x, f);
    SumOfOne(y, f);
  }

  /** Each end is given half of what the middle has, and the middle all that the ends have. */
  lemma PathStep(g: Links, d: real, before: seq<real>, after: seq<real>)
    requires PathOfThree(g) && |before| == 3 && Stepped(g, d, before, after)
    ensures |after| == 3
    ensures after[0] == after[2] == (1.0 - d) / 3.0 + d * (before[1] / 2.0)
    ensures after[1] == (1.0 - d) / 3.0 + d * (before[0] + before[2])
  {
    hide Neighbours;
    var f := AllShares(g, before);
    SumOfOne(1, f);
    SumOfTwo(0, 2, f);
    assert |{0 as U32, 2}| == 2;
  }

  /** Never below the ends, and never four times as high. */
  ghost predicate MiddleHigh(r: seq<real>) {
    |r| == 3 && r[0] == r[2] > 0.0 && r[0] <= r[1] < 4.0 * r[0]
  }

  lemma MiddleRises(g: Links, d: real, before: seq<real>, after: seq<real>)
    requires PathOfThree(g) && 0.0 < d < 1.0 && MiddleHigh(before) && Stepped(g, d, before, after)
    ensures MiddleHigh(after) && after[1] > after[0]
  {
    hide Stepped, PathOfThree;
    PathStep(g, d, before, after);
    var x, y := before[0], before[1];
    assert d * (4.0 * x - y) > 0.0;
    assert d * (y - x) >= 0.0 && d * y > 0.0;
  }

  /** On the path 0 - 1 - 2 every ranking after the first has the middle above both ends, which are level. */
  lemma {:induction false} MiddleOnTop(g: Links, d: real, limit: int, tolerance: real, rs: seq<seq<real>>, k: nat)
    requires PathOfThree(g) && 0.0 < d < 1.0 && Iterating(g, d, limit, tolerance, rs) && |rs[0]| == 3
    requires k < |rs|
    ensures MiddleHigh(rs[k]) && (k > 0 ==> rs[k][1] > rs[k][0])
  {
    hide Stepped, Moved, PathOfThree;
    if k > 0 {
      MiddleOnTop(g, d, limit, tolerance, rs, k - 1);
      MiddleRises(g, d, rs[k - 1], rs[k - 1 + 1]);
    }
  }

  lemma AboveTeleport(g: Links, d: real, before: seq<real>, after: seq<real>)
    requires PathOfThree(g) && 0.0 < d < 1.0 && MiddleHigh(before) && Stepped(g, d, before, after)
    ensures |after| == 3 && after[0] > (1.0 - d) / 3.0
  {
    hide Stepped, PathOfThree;
    PathStep(g, d, before, after);
    var half := before[1] / 2.0;
    assert half > 0.0 && d * half > 0.0;
  }

  /** Where `PageRank` is allowed an iteration, it ends with the middle of the path above its ends. */
  lemma MiddleEndsOnTop(g: Links, d: real, limit: int, tolerance: real, rs: seq<seq<real>>)
    requires PathOfThree(g) && 0.0 < d < 1.0 && limit > 0
    requires Iterated(g, d, limit, tolerance, rs) && |rs[0]| == 3
    ensures var ranks := rs[|rs| - 1];
      |ranks| == 3 && ranks[1] > ranks[0] == ranks[2] > (1.0 - d) / 3.0
  {
    hide Stepped, Moved, PathOfThree;
    var n := |rs| - 1;
    MiddleOnTop(g, d, limit, tolerance, rs, n);
    MiddleOnTop(g, d, limit, tolerance, rs, n - 1);
    AboveTeleport(g, d, rs[n - 1], rs[n - 1 + 1]);
  }
}
