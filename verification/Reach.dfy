/** Paths, and the vertices within a number of hops: what the breadth-first algorithms compute. */
module Reach {
  import opened Bitmaps

  /** A walk over links, at least one vertex long. */
  ghost predicate IsPath(g: Links, p: seq<U32>) {
    p != [] && forall i :: 0 <= i < |p| - 1 ==> p[i + 1] in Neighbours(g, p[i])
  }

  ghost predicate PathFrom(g: Links, a: U32, b: U32, p: seq<U32>) {
    IsPath(g, p) && p[0] == a && p[|p| - 1] == b
  }

  /** No way from a to b is shorter. */
  ghost predicate Shortest(g: Links, a: U32, b: U32, p: seq<U32>) {
    PathFrom(g, a, b, p) && forall q :: PathFrom(g, a, b, q) ==> |p| <= |q|
  }

  /** Everything one hop from s. */
  ghost function Spread(g: Links, s: Bitmap): Bitmap {
    set u: U32, v: U32 | u in s && v in Neighbours(g, u) :: v
  }

  /** Everything at most k hops from a. */
  ghost function Ball(g: Links, a: U32, k: nat): Bitmap {
    if k == 0 then {a} else Ball(g, a, k - 1) + Spread(g, Ball(g, a, k - 1))
  }

  /** Everything exactly k hops from a. */
  ghost function Sphere(g: Links, a: U32, k: nat): Bitmap {
    if k == 0 then {a} else Ball(g, a, k) - Ball(g, a, k - 1)
  }

  lemma {:induction false} BallGrows(g: Links, a: U32, j: nat, k: nat)
    requires j <= k
    ensures Ball(g, a, j) <= Ball(g, a, k)
    decreases k
  {
    if j < k { BallGrows(g, a, j, k - 1); }
  }

  /** A path of k hops ends within k hops. */
  lemma {:induction false} PathInBall(g: Links, a: U32, b: U32, p: seq<U32>)
    requires PathFrom(g, a, b, p)
    ensures b in Ball(g, a, |p| - 1)
    decreases |p|
  {
    if |p| > 1 {
      var q := p[..|p| - 1];
      assert PathFrom(g, a, q[|q| - 1], q);
      PathInBall(g, a, q[|q| - 1], q);
      assert p[|p| - 2 + 1] in Neighbours(g, p[|p| - 2]);
    }
  }

  /** Whatever is within k hops has a path of at most k hops. */
  lemma {:induction false} BallHasPath(g: Links, a: U32, b: U32, k: nat) returns (p: seq<U32>)
    requires b in Ball(g, a, k)
    ensures PathFrom(g, a, b, p) && |p| <= k + 1
    decreases k
  {
    if k == 0 {
      p := [a];
    } else if b in Ball(g, a, k - 1) {
      p := BallHasPath(g, a, b, k - 1);
    } else {
      var u :| u in Ball(g, a, k - 1) && b in Neighbours(g, u);
      var q := BallHasPath(g, a, u, k - 1);
      p := q + [b];
    }
  }

  lemma InnerStays(g: Links, a: U32, k: nat, u: U32, v: U32)
    requires k > 0 && v in Neighbours(g, u)
    ensures u in Ball(g, a, k - 1) ==> v in Ball(g, a, k)
  {
  }

  /** The next level is what the last one reaches that has not been seen. */
  lemma NextSphere(g: Links, a: U32, k: nat)
    ensures Sphere(g, a, k + 1) == Spread(g, Sphere(g, a, k)) - Ball(g, a, k)
    ensures Ball(g, a, k + 1) == Ball(g, a, k) + Sphere(g, a, k + 1)
  {
    forall v | v in Ball(g, a, k + 1) && v !in Ball(g, a, k) ensures v in Spread(g, Sphere(g, a, k)) {
      var u :| u in Ball(g, a, k) && v in Neighbours(g, u);
      if k > 0 { InnerStays(g, a, k, u, v); }
    }
    forall v | v in Spread(g, Sphere(g, a, k)) ensures v in Ball(g, a, k + 1) {
      var u :| u in Sphere(g, a, k) && v in Neighbours(g, u);
      assert u in Ball(g, a, k);
    }
  }

  /** Once a level is empty there is nothing further on. */
  lemma {:induction false} BallEnds(g: Links, a: U32, k: nat, m: nat)
    requires Sphere(g, a, k) == {} && k <= m
    ensures Ball(g, a, m) <= Ball(g, a, k)
    ensures Sphere(g, a, m) == {}
    decreases m
  {
    hide Ball, Sphere, Spread;
    if k < m {
      BallEnds(g, a, k, m - 1);
      NextSphere(g, a, m - 1);
      SpreadNone(g);
    }
  }

  lemma SpreadNone(g: Links)
    ensures Spread(g, {}) == {}
  {
  }

  /** Spheres at different distances share nothing. */
  lemma SpheresApart(g: Links, a: U32, j: nat, k: nat, v: U32)
    requires v in Sphere(g, a, j) && v in Sphere(g, a, k)
    ensures j == k
  {
    hide Ball, Sphere;
    if j < k { Further(g, a, j, k, v); }
    if k < j { Further(g, a, k, j, v); }
  }

  lemma Further(g: Links, a: U32, j: nat, k: nat, v: U32)
    requires j < k && v in Sphere(g, a, j)
    ensures v !in Sphere(g, a, k)
  {
    BallGrows(g, a, j, k - 1);
  }

  /** Links that pass a test. */
  ghost function Passing(g: Links, ok: (U32, U32) -> bool): Links {
    map u | u in g :: set v | v in g[u] && ok(u, v)
  }

  /** All that can ever be visited from a. */
  ghost function Universe(g: Links, a: U32): Bitmap {
    {a} + Spread(g, g.Keys)
  }

  lemma {:induction false} BallInUniverse(g: Links, a: U32, k: nat)
    ensures Ball(g, a, k) <= Universe(g, a)
  {
    if k > 0 { BallInUniverse(g, a, k - 1); }
  }

  /** A level that is not empty leaves fewer vertices to visit. */
  lemma FewerToVisit(g: Links, a: U32, k: nat)
    requires Sphere(g, a, k + 1) != {}
    ensures |Universe(g, a) - Ball(g, a, k + 1)| < |Universe(g, a) - Ball(g, a, k)|
  {
    NextSphere(g, a, k);
    BallInUniverse(g, a, k + 1);
    var v :| v in Sphere(g, a, k + 1);
    Shrinks(Universe(g, a) - Ball(g, a, k + 1), Universe(g, a) - Ball(g, a, k), v);
  }

  lemma Shrinks(s: Bitmap, t: Bitmap, v: U32)
    requires s <= t && v in t && v !in s
    ensures |s| < |t|
  {
    var d := t - s;
    assert t == s + d && v in d;
  }
}
