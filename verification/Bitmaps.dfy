/** Bitmaps of 32-bit indices, as finite sets walked in ascending order, and the adjacency made of them. */
module Bitmaps {

  const U32_LIMIT: nat := 0x1_0000_0000

  type U32 = x: int | 0 <= x < 0x1_0000_0000

  type Bitmap = set<U32>

  /** Neighbours by index. */
  type Links = map<U32, Bitmap>

  /** Vertices by label. */
  type LabelIndex = map<string, Bitmap>

  /** The next index an iteration over s gives. */
  function Least(s: Bitmap): (m: U32)
    requires s != {}
    ensures m in s && forall x :: x in s ==> m <= x
  {
    var x :| x in s;
    HasLeast(s, x);
    var m :| m in s && forall x :: x in s ==> m <= x;
    m
  }

  lemma {:induction false} HasLeast(s: Bitmap, x: U32)
    requires x in s
    ensures exists m :: m in s && forall y :: y in s ==> m <= y
    decreases x
  {
    if y :| y in s && y < x {
      HasLeast(s, y);
    }
  }

  /** The indices in the order an iteration gives them. */
  function Sorted(s: Bitmap): (r: seq<U32>)
    ensures |r| == |s|
    ensures forall x :: x in r <==> x in s
    ensures forall i, j :: 0 <= i < j < |r| ==> r[i] < r[j]
    decreases |s|
  {
    if s == {} then []
    else
      var m := Least(s);
      var rest := Sorted(s - {m});
      LeastFirst(s, m, rest);
      [m] + rest
  }

  lemma LeastFirst(s: Bitmap, m: U32, rest: seq<U32>)
    requires m in s && (forall x :: x in s ==> m <= x) && |rest| == |s - {m}|
    requires forall x :: x in rest <==> x in s - {m}
    requires forall i, j :: 0 <= i < j < |rest| ==> rest[i] < rest[j]
    ensures var r := [m] + rest;
      && |r| == |s| && (forall x :: x in r <==> x in s)
      && forall i, j :: 0 <= i < j < |r| ==> r[i] < r[j]
  {
    forall j | 0 <= j < |rest| ensures m < rest[j] { assert rest[j] in rest; }
  }

  function Neighbours(g: Links, u: U32): Bitmap {
    if u in g then g[u] else {}
  }

  ghost predicate Symmetric(g: Links) {
    forall u: U32, v: U32 :: v in Neighbours(g, u) <==> u in Neighbours(g, v)
  }

  /** Every neighbour is one of the first n indices, and so is everything that has a neighbour. */
  ghost predicate Within(g: Links, n: nat) {
    forall u: U32, v: U32 :: v in Neighbours(g, u) ==> u < n && v < n
  }
}
