/** Following a key through the graph from one address to another. */
module Walking {
  import opened Keys
  import opened Transducer

  /** The address key leads to from a, and the outputs on the way. */
  function Walk(g: Graph, a: nat, key: Key): (r: Option<(nat, nat)>)
    requires GraphOk(g) && Known(g, a)
    ensures r.Some? ==> Known(g, r.value.0)
    decreases |key|
  {
    if key == [] then Some((a, 0))
    else
      var s := StateAt(g, a);
      var i := FindTrans(s.trans, key[0]);
      if i == |s.trans| then None
      else
        match Walk(g, s.trans[i].addr, key[1..])
        case None => None
        case Some(r) => Some((r.0, s.trans[i].out + r.1))
  }

  /** A lookup goes on from wherever the first part of its key leads. */
  lemma {:induction false} WalkLookup(g: Graph, a: nat, p: Key, k: Key)
    requires GraphOk(g) && Known(g, a)
    ensures LookupIn(g, StateAt(g, a), p + k) ==
      match Walk(g, a, p) case None => None case Some(r) => AddOut(r.1, LookupIn(g, StateAt(g, r.0), k))
    decreases |p|
  {
    if p == [] {
      assert p + k == k;
    } else {
      assert (p + k)[1..] == p[1..] + k;
      var s := StateAt(g, a);
      var i := FindTrans(s.trans, p[0]);
      if i < |s.trans| {
        WalkLookup(g, s.trans[i].addr, p[1..], k);
      }
    }
  }

  lemma {:induction false} WalkOn(g: Graph, a: nat, p: Key, q: Key)
    requires GraphOk(g) && Known(g, a)
    ensures Walk(g, a, p + q) ==
      match Walk(g, a, p)
      case None => None
      case Some(r) =>
        (match Walk(g, r.0, q) case None => None case Some(t) => Some((t.0, r.1 + t.1)))
    decreases |p|
  {
    if p == [] {
      assert p + q == q;
    } else {
      assert (p + q)[1..] == p[1..] + q;
      var s := StateAt(g, a);
      var i := FindTrans(s.trans, p[0]);
      if i < |s.trans| {
        WalkOn(g, s.trans[i].addr, p[1..], q);
      }
    }
  }

  lemma WalkNowhere(g: Graph, a: nat)
    requires GraphOk(g) && Known(g, a)
    ensures Walk(g, a, []) == Some((a, 0))
  {
  }

  /** One byte more. */
  lemma WalkSnoc(g: Graph, a: nat, p: Key, c: Byte)
    requires GraphOk(g) && Known(g, a) && Walk(g, a, p).Some?
    ensures var s := StateAt(g, Walk(g, a, p).value.0);
      var i := FindTrans(s.trans, c);
      Walk(g, a, p + [c]) ==
        if i == |s.trans| then None else Some((s.trans[i].addr, Walk(g, a, p).value.1 + s.trans[i].out))
  {
    WalkOn(g, a, p, [c]);
    var b := Walk(g, a, p).value.0;
    var s := StateAt(g, b);
    var i := FindTrans(s.trans, c);
    assert [c][1..] == [];
    assert Walk(g, b, [c]) == if i == |s.trans| then None else Some((s.trans[i].addr, s.trans[i].out));
  }

  /** Every accepted key can be walked, to a final state, and gets what it collects. */
  lemma WalkWhole(g: Graph, a: nat, key: Key)
    requires GraphOk(g) && Known(g, a)
    ensures LookupIn(g, StateAt(g, a), key) ==
      match Walk(g, a, key)
      case None => None
      case Some(r) =>
        (var s := StateAt(g, r.0); if s.final then Some(r.1 + s.finalOutput) else None)
  {
    assert key + [] == key;
    WalkLookup(g, a, key, []);
  }

  /** Every prefix of a walkable key is walkable. */
  lemma WalkPrefix(g: Graph, a: nat, key: Key, n: nat)
    requires GraphOk(g) && Known(g, a) && n <= |key| && Walk(g, a, key).Some?
    ensures Walk(g, a, key[..n]).Some?
  {
    assert key == key[..n] + key[n..];
    WalkOn(g, a, key[..n], key[n..]);
  }

  /** The byte after a prefix is one of the transitions of the state the prefix leads to. */
  lemma WalkNext(g: Graph, a: nat, key: Key, n: nat)
    requires GraphOk(g) && Known(g, a) && n < |key| && Walk(g, a, key).Some?
    ensures Walk(g, a, key[..n]).Some?
    ensures var s := StateAt(g, Walk(g, a, key[..n]).value.0);
      FindTrans(s.trans, key[n]) < |s.trans|
  {
    hide Walk;
    WalkPrefix(g, a, key, n);
    WalkPrefix(g, a, key, n + 1);
    assert key[..n + 1] == key[..n] + [key[n]];
    WalkSnoc(g, a, key[..n], key[n]);
  }
}
