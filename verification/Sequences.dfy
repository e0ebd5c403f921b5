/** Facts about cutting and joining sequences. */
module Sequences {

  lemma Concat<T>(a: seq<T>, b: seq<T>, c: seq<T>)
    ensures (a + b) + c == a + (b + c)
  {
  }

  lemma SliceOfSlice<T>(s: seq<T>, b: nat, t: nat, p: nat, q: nat)
    requires b <= t <= |s| && p <= q <= t - b
    ensures s[b..t][p..q] == s[b + p..b + q]
  {
    assert forall i :: 0 <= i < q - p ==> s[b..t][p..q][i] == s[b..t][p + i] == s[b + p + i];
  }

  /** A stretch that ends in y splits there. */
  lemma Peel<T>(s: seq<T>, start: nat, e: nat, x: seq<T>, y: seq<T>)
    requires start <= e <= |s| && s[start..e] == x + y
    ensures start + |x| == e - |y|
    ensures s[start..e - |y|] == x && s[e - |y|..e] == y
  {
    assert |s[start..e]| == e - start;
    assert s[start..e - |y|] == (x + y)[..|x|];
    assert s[e - |y|..e] == (x + y)[|x|..];
  }

  lemma PeelOne<T>(s: seq<T>, start: nat, e: nat, x: seq<T>, y: T)
    requires start <= e <= |s| && s[start..e] == x + [y]
    ensures start + |x| == e - 1
    ensures s[start..e - 1] == x && s[e - 1] == y
  {
    Peel(s, start, e, x, [y]);
    assert s[e - 1] == s[e - 1..e][0];
  }

  /** Four stretches laid end to end, found from the top. */
  lemma PeelThree<T>(s: seq<T>, start: nat, p: nat, f: seq<T>, o: seq<T>, d: seq<T>, k: seq<T>)
    requires start <= p <= |s| && s[start..p] == f + o + d + k
    ensures start + |f| == p - |k| - |d| - |o|
    ensures s[p - |k|..p] == k && s[p - |k| - |d|..p - |k|] == d
    ensures s[p - |k| - |d| - |o|..p - |k| - |d|] == o && s[start..start + |f|] == f
  {
    Peel(s, start, p, f + o + d, k);
    Peel(s, start, p - |k|, f + o, d);
    Peel(s, start, p - |k| - |d|, f, o);
  }
}
