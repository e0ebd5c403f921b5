/**
 * Where a depth-first scan stands: what lies ahead of it, and how pushing, skipping and popping keep
 * the stored keys that lie ahead.
 */
module Frontier {
  import opened Keys
  import opened Transducer
  import opened Walking

  /** The path the iterator is on: addresses, one more than the bytes, positions and outputs between them. */
  ghost predicate Path(g: Graph, root: nat, addrs: seq<nat>, keys: Key, poss: seq<nat>, vals: seq<U64>) {
    && GraphOk(g) && |addrs| == |keys| + 1 && |poss| == |vals| == |keys|
    && addrs[0] == root
    && (forall j :: 0 <= j < |addrs| ==> Known(g, addrs[j]))
    && (forall j :: 0 <= j < |keys| ==> Step(g, addrs[j], addrs[j + 1], keys[j], poss[j], vals[j]))
  }

  ghost predicate Step(g: Graph, a: nat, b: nat, key: Byte, pos: nat, val: U64)
    requires GraphOk(g) && Known(g, a)
  {
    pos < |StateAt(g, a).trans| && StateAt(g, a).trans[pos] == Trans(key, val, b)
  }

  function ValSum(vals: seq<U64>): nat {
    if vals == [] then 0 else ValSum(vals[..|vals| - 1]) + vals[|vals| - 1]
  }

  /** The path is the walk its bytes spell. */
  lemma {:induction false} PathWalks(g: Graph, root: nat, addrs: seq<nat>, keys: Key, poss: seq<nat>, vals: seq<U64>,
    n: nat)
    requires Path(g, root, addrs, keys, poss, vals) && n <= |keys|
    ensures Walk(g, root, keys[..n]) == Some((addrs[n], ValSum(vals[..n])))
  {
    hide Walk, WellFormed, Closed, Earlier;
    if n == 0 {
      assert keys[..0] == [];
      WalkNowhere(g, root);
    } else {
      var m := n - 1;
      PathWalks(g, root, addrs, keys, poss, vals, m);
      assert Step(g, addrs[m], addrs[m + 1], keys[m], poss[m], vals[m]);
      StepFinds(g, addrs[m], addrs[n], keys[m], poss[m], vals[m]);
      assert keys[..n] == keys[..m] + [keys[m]];
      WalkSnoc(g, root, keys[..m], keys[m]);
      assert vals[..n][..m] == vals[..m];
    }
  }

  lemma StepFinds(g: Graph, a: nat, b: nat, key: Byte, pos: nat, val: U64)
    requires GraphOk(g) && Known(g, a) && Step(g, a, b, key, pos, val)
    ensures FindTrans(StateAt(g, a).trans, key) == pos
  {
    FindTransAt(StateAt(g, a).trans, pos);
  }

  /** k comes after the scan position: beyond keys, from transition off on, or at keys itself when allowed. */
  predicate Ahead(keys: Key, trans: seq<Trans>, off: nat, allow: bool, k: Key) {
    if keys <= k then allow || (|k| > |keys| && FindTrans(trans, k[|keys|]) >= off) else Less(keys, k)
  }

  lemma AheadIsGreater(keys: Key, trans: seq<Trans>, off: nat, k: Key)
    requires Ahead(keys, trans, off, false, k)
    ensures Less(keys, k)
  {
    if keys <= k { LessAt(keys, k, |keys|); }
  }

  /** From the first transition on, what is ahead is what is greater. */
  lemma AheadFromStart(keys: Key, trans: seq<Trans>, k: Key)
    ensures Ahead(keys, trans, 0, false, k) <==> Less(keys, k)
  {
    if keys <= k {
      if |k| > |keys| { LessAt(keys, k, |keys|); } else { assert k == keys; Trichotomy(k, keys); }
    }
  }

  /** Taking transition off: nothing ahead is lost but what went through no transition. */
  lemma AheadPush(keys: Key, trans: seq<Trans>, off: nat, next: seq<Trans>, k: Key)
    requires Ascending(trans) && off < |trans|
    requires keys <= k && |k| > |keys| ==> FindTrans(trans, k[|keys|]) < |trans|
    ensures Ahead(keys, trans, off, false, k) <==> Ahead(keys + [trans[off].input], next, 0, true, k)
  {
    var c, n := trans[off].input, |keys|;
    var longer := keys + [c];
    if keys <= k {
      if |k| == n {
        assert k == keys && !(longer <= k);
        LessAt(k, longer, n);
        Trichotomy(k, longer);
      } else {
        assert k[..n] == keys == longer[..n];
        var i := FindTrans(trans, k[n]);
        FindTransAt(trans, off);
        if i < off {
          LessAt(k, longer, n);
          Trichotomy(k, longer);
        } else if i > off {
          LessAt(longer, k, n);
        }
      }
    } else {
      if longer <= k { LongerPrefix(keys, c, k); }
      NotExtendedSnoc(keys, c, k);
    }
  }

  lemma NotExtendedSnoc(keys: Key, c: Byte, k: Key)
    requires !(keys <= k)
    ensures Less(keys, k) <==> Less(keys + [c], k)
  {
    var p := CommonLen(keys, k);
    var longer := keys + [c];
    assert keys[..p] == k[..p] == longer[..p];
    CommonPrefix(keys, k);
    CommonLenUnique(longer, k, p);
  }

  lemma LongerPrefix(keys: Key, c: Byte, k: Key)
    requires keys + [c] <= k
    ensures keys <= k
  {
    assert keys == (keys + [c])[..|keys|] == k[..|keys|];
  }

  lemma CommonPrefix(keys: Key, k: Key)
    ensures CommonLen(keys, k) == |keys| ==> keys <= k
  {
    assert CommonLen(keys, k) == |keys| ==> keys == k[..|keys|];
  }

  /** Keys that part from keys at position p compare by the byte there, whatever follows. */
  lemma PartAt(keys: Key, k: Key, p: nat)
    requires p < |keys| && p < |k| && keys[..p] == k[..p] && keys[p] != k[p]
    ensures Less(keys, k) <==> keys[p] < k[p]
  {
    CommonLenUnique(keys, k, p);
  }

  /**
   * Going back from keys, whose state is exhausted, to the shorter keys[..m] past the transition
   * taken there: right as long as the states popped in between have one transition each.
   */
  lemma AheadPop(g: Graph, root: nat, addrs: seq<nat>, keys: Key, poss: seq<nat>, vals: seq<U64>, off: nat, m: nat,
    k: Key)
    requires Path(g, root, addrs, keys, poss, vals) && m < |keys|
    requires off >= |StateAt(g, addrs[|keys|]).trans|
    requires forall j :: m < j < |keys| ==> |StateAt(g, addrs[j]).trans| == 1
    requires Known(g, root) && Walk(g, root, k).Some?
    ensures Ahead(keys, StateAt(g, addrs[|keys|]).trans, off, false, k)
      <==> Ahead(keys[..m], StateAt(g, addrs[m]).trans, poss[m] + 1, false, k)
  {
    hide GraphOk, Walk, Less, ValSum;
    var n := |keys|;
    var p := CommonLen(keys, k);
    assert keys[..p] == k[..p];
    if p == n {
      assert keys <= k;
      WalkGoesOn(g, root, addrs, keys, poss, vals, k, n);
      AheadPopBeyond(g, root, addrs, keys, poss, vals, m, k);
    } else if p == |k| {
      Prefixes(keys, k, m);
      if m < |k| { AheadPopBeyond(g, root, addrs, keys, poss, vals, m, k); }
    } else {
      PartAt(keys, k, p);
      assert !(keys <= k);
      WalkGoesOn(g, root, addrs, keys, poss, vals, k, p);
      if p < m {
        assert keys[..m][..p] == k[..p] && keys[..m][p] == keys[p];
        PartAt(keys[..m], k, p);
        assert !(keys[..m] <= k);
      } else if p == m {
        assert keys[..m] <= k;
        AheadPopHere(g, addrs[m], keys[m], poss[m], vals[m], addrs[m + 1], k[m]);
        assert Step(g, addrs[m], addrs[m + 1], keys[m], poss[m], vals[m]);
      } else {
        OnlyOne(g, addrs[p], keys[p], poss[p], vals[p], addrs[p + 1], k[p]);
      }
    }
  }

  /** k shares its first p bytes with the path, so its next byte is a transition of the state there. */
  lemma WalkGoesOn(g: Graph, root: nat, addrs: seq<nat>, keys: Key, poss: seq<nat>, vals: seq<U64>, k: Key, p: nat)
    requires Path(g, root, addrs, keys, poss, vals) && p <= |keys| && p <= |k| && keys[..p] == k[..p]
    requires Known(g, root) && Walk(g, root, k).Some?
    ensures p < |k| ==> FindTrans(StateAt(g, addrs[p]).trans, k[p]) < |StateAt(g, addrs[p]).trans|
  {
    hide Walk;
    if p < |k| {
      PathWalks(g, root, addrs, keys, poss, vals, p);
      WalkNext(g, root, k, p);
    }
  }

  /** A key that has the path's byte at m is not ahead of the transition after it. */
  lemma AheadPopBeyond(g: Graph, root: nat, addrs: seq<nat>, keys: Key, poss: seq<nat>, vals: seq<U64>, m: nat, k: Key)
    requires Path(g, root, addrs, keys, poss, vals) && m < |keys| && m < |k| && keys[..m + 1] == k[..m + 1]
    ensures !Ahead(keys[..m], StateAt(g, addrs[m]).trans, poss[m] + 1, false, k)
  {
    assert Step(g, addrs[m], addrs[m + 1], keys[m], poss[m], vals[m]);
    FindTransAt(StateAt(g, addrs[m]).trans, poss[m]);
    assert keys[m] == keys[..m + 1][m] == k[..m + 1][m] == k[m];
    assert keys[..m] == keys[..m + 1][..m] == k[..m + 1][..m] == k[..m];
  }

  lemma AheadPopHere(g: Graph, a: nat, key: Byte, pos: nat, val: U64, b: nat, c: Byte)
    requires GraphOk(g) && Known(g, a) && Step(g, a, b, key, pos, val) && c != key
    requires FindTrans(StateAt(g, a).trans, c) < |StateAt(g, a).trans|
    ensures FindTrans(StateAt(g, a).trans, c) >= pos + 1 <==> key < c
  {
    var trans := StateAt(g, a).trans;
    var i := FindTrans(trans, c);
    assert trans[i].input == c && trans[pos].input == key;
  }

  lemma OnlyOne(g: Graph, a: nat, key: Byte, pos: nat, val: U64, b: nat, c: Byte)
    requires GraphOk(g) && Known(g, a) && Step(g, a, b, key, pos, val) && |StateAt(g, a).trans| == 1
    requires FindTrans(StateAt(g, a).trans, c) < |StateAt(g, a).trans|
    ensures c == key
  {
  }

  /** A proper prefix of the path is ahead of nothing on it. */
  lemma Prefixes(keys: Key, k: Key, m: nat)
    requires m < |keys| && k < keys
    ensures !(keys <= k) && !Less(keys, k)
    ensures |k| <= m ==> !Less(keys[..m], k) && (keys[..m] <= k ==> |k| == m)
    ensures m < |k| ==> keys[..m + 1] == k[..m + 1]
  {
    assert k == keys[..|k|];
    LessAt(k, keys, |k|);
    Trichotomy(k, keys);
    if |k| <= m {
      assert k == keys[..m][..|k|];
      if |k| < m { LessAt(k, keys[..m], |k|); } else { assert k == keys[..m]; }
      Trichotomy(k, keys[..m]);
    }
  }

  /** Work left at state a from transition i on: two for every transition and all the work it leads to. */
  ghost function Rem(g: Graph, a: nat, i: nat): nat
    requires GraphOk(g) && Known(g, a)
    decreases a, |StateAt(g, a).trans| - i
  {
    var s := StateAt(g, a);
    if i >= |s.trans| then 0 else 2 + Rem(g, s.trans[i].addr, 0) + Rem(g, a, i + 1)
  }

  /** Work left on the states below the top of the path. */
  ghost function StackWork(g: Graph, addrs: seq<nat>, poss: seq<nat>): nat
    requires GraphOk(g) && |addrs| >= |poss|
    requires forall j :: 0 <= j < |addrs| ==> Known(g, addrs[j])
  {
    if poss == [] then 0
    else
      var n := |poss| - 1;
      StackWork(g, addrs, poss[..n]) + Rem(g, addrs[n], poss[n] + 1)
  }

  lemma {:induction false} StackWorkSame(g: Graph, a: seq<nat>, b: seq<nat>, poss: seq<nat>)
    requires GraphOk(g) && |a| >= |poss| && |b| >= |poss| && a[..|poss|] == b[..|poss|]
    requires forall j :: 0 <= j < |a| ==> Known(g, a[j])
    requires forall j :: 0 <= j < |b| ==> Known(g, b[j])
    ensures StackWork(g, a, poss) == StackWork(g, b, poss)
  {
    if poss != [] {
      var n := |poss| - 1;
      assert a[n] == a[..|poss|][n] == b[..|poss|][n] == b[n];
      assert a[..n] == a[..|poss|][..n] == b[..|poss|][..n] == b[..n];
      StackWorkSame(g, a, b, poss[..n]);
    }
  }

  /** The part of the path kept by a pop had no more work than the whole. */
  lemma {:induction false} StackWorkLess(g: Graph, addrs: seq<nat>, poss: seq<nat>, m: nat)
    requires GraphOk(g) && |addrs| >= |poss| && m < |poss|
    requires forall j :: 0 <= j < |addrs| ==> Known(g, addrs[j])
    ensures StackWork(g, addrs, poss[..m]) + Rem(g, addrs[m], poss[m] + 1) <= StackWork(g, addrs, poss)
  {
    var n := |poss| - 1;
    if m < n {
      StackWorkLess(g, addrs, poss[..n], m);
      assert poss[..n][..m] == poss[..m];
    }
  }

  lemma WorkPush(g: Graph, addrs: seq<nat>, poss: seq<nat>, a: nat, off: nat)
    requires GraphOk(g) && |addrs| == |poss| + 1 && Known(g, a)
    requires forall j :: 0 <= j < |addrs| ==> Known(g, addrs[j])
    ensures forall j :: 0 <= j < |addrs + [a]| ==> Known(g, (addrs + [a])[j])
    ensures StackWork(g, addrs + [a], poss + [off]) == StackWork(g, addrs, poss) + Rem(g, addrs[|poss|], off + 1)
  {
    hide GraphOk, Rem;
    var n := |poss|;
    assert (poss + [off])[..n] == poss;
    assert (addrs + [a])[..n] == addrs[..n];
    StackWorkSame(g, addrs + [a], addrs, poss);
  }

  lemma WorkPop(g: Graph, addrs: seq<nat>, poss: seq<nat>, m: nat, short: seq<nat>, shortPoss: seq<nat>)
    requires GraphOk(g) && |addrs| == |poss| + 1 && m < |poss|
    requires short == addrs[..m + 1] && shortPoss == poss[..m]
    requires forall j :: 0 <= j < |addrs| ==> Known(g, addrs[j])
    ensures forall j :: 0 <= j < |short| ==> Known(g, short[j])
    ensures StackWork(g, short, shortPoss) + Rem(g, addrs[m], poss[m] + 1) <= StackWork(g, addrs, poss)
  {
    hide GraphOk, Rem;
    assert short[..m] == addrs[..m];
    StackWorkSame(g, short, addrs, shortPoss);
    StackWorkLess(g, addrs, poss, m);
  }
}
