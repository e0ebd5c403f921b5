/** The bytes of a transducer determine its map: there is one way to read them. */
module Uniqueness {
  import opened Keys
  import opened Packing
  import opened Transducer
  import opened StateBytes
  import opened StateReading
  import opened Fst
  import opened FstFile

  lemma DeltaInjective(base: nat, x: nat, y: nat)
    requires (x == 0 || x < base) && (y == 0 || y < base) && DeltaAddr(base, x) == DeltaAddr(base, y)
    ensures x == y
  {
  }

  lemma SingleReadOnce(data: seq<Byte>, a: nat, s: State, t: State)
    requires WellFormed(s) && WellFormed(t) && SingleAt(data, a, s) && SingleAt(data, a, t)
    ensures s == t
  {
    hide PackedValue, Ascending;
    var u, v := s.trans[0], t.trans[0];
    assert s.trans == [u] && t.trans == [v];
    var b := SingleInputPos(data, a);
    if data[a] / TRANSITION_NEXT % 2 == 0 {
      var p, sizes := b - 1, DecodePackSize(data[b - 1]);
      DeltaInjective(p - sizes.0 - sizes.1, u.addr, v.addr);
    }
  }

  /** Two ways to read the same runs are the same. */
  lemma RunsReadOnce(data: seq<Byte>, p: nat, sizes: (nat, nat), s: State, t: State)
    requires WellFormed(s) && WellFormed(t) && s.final == t.final && |s.trans| == |t.trans|
    requires RunsAt(data, p, sizes, s) && RunsAt(data, p, sizes, t)
    ensures s == t
  {
    hide FieldIn, PackedValue, Ascending, Times;
    var n := |s.trans|;
    var keys := p - n;
    var dests := keys - Times(n, sizes.0);
    var outs := dests - Times(n, sizes.1);
    var start := if s.final then outs - sizes.1 else outs;
    forall i | 0 <= i < n ensures s.trans[i] == t.trans[i] {
      assert data[keys..p][n - 1 - i] == s.trans[i].input == t.trans[i].input;
      DeltaInjective(start, s.trans[i].addr, t.trans[i].addr);
    }
  }

  lemma MultiReadOnce(data: seq<Byte>, a: nat, s: State, t: State)
    requires WellFormed(s) && WellFormed(t) && MultiAt(data, a, s) && MultiAt(data, a, t)
    ensures s == t
  {
    hide RunsAt, Ascending;
    var p := ManySizesPos(data, a);
    RunsReadOnce(data, p, DecodePackSize(data[p]), s, t);
  }

  /** An address reads as one state only. */
  lemma ReadOnce(data: seq<Byte>, a: nat, s: State, t: State)
    requires ReadsAs(data, a, s) && ReadsAs(data, a, t)
    ensures s == t
  {
    hide WellFormed, RunsAt, FrontAt;
    if data[a] >= 128 { SingleReadOnce(data, a, s, t); } else { MultiReadOnce(data, a, s, t); }
  }

  /** The graphs give the same state wherever both have one. */
  ghost predicate Agree(g: Graph, h: Graph) {
    forall a :: a in g && a in h ==> g[a] == h[a]
  }

  lemma SameDataAgrees(data: seq<Byte>, g: Graph, h: Graph)
    requires Encodes(data, g) && Encodes(data, h) && |data| < SLICE_LIMIT
    ensures Agree(g, h)
  {
    hide Encodes, ReadsAs;
    forall a | a in g && a in h ensures g[a] == h[a] {
      EncodedReads(data, g, a);
      EncodedReads(data, h, a);
      ReadOnce(data, a, g[a], h[a]);
    }
  }

  lemma {:induction false} LookupAgrees(g: Graph, h: Graph, s: State, key: Key)
    requires GraphOk(g) && GraphOk(h) && Agree(g, h) && Closed(g, s) && Closed(h, s)
    ensures LookupIn(g, s, key) == LookupIn(h, s, key)
    decreases |key|
  {
    if key != [] {
      var i := FindTrans(s.trans, key[0]);
      if i < |s.trans| {
        LookupAgrees(g, h, StateAt(g, s.trans[i].addr), key[1..]);
      }
    }
  }

  /** Bytes that are a transducer for two maps are one for a single map. */
  lemma MeaningUnique(data: seq<Byte>, m: map<Key, U64>, n: map<Key, U64>)
    requires Represents(data, m) && Represents(data, n) && |data| < SLICE_LIMIT
    ensures m == n
  {
    var g: Graph, r: nat, c: nat :| IsFst(data, g, r, c, m);
    var h: Graph, q: nat, d: nat :| IsFst(data, h, q, d, n);
    SameMeaning(data, g, r, c, m, h, q, d, n);
  }

  lemma SameMeaning(data: seq<Byte>, g: Graph, r: nat, c: nat, m: map<Key, U64>, h: Graph, q: nat, d: nat, n: map<Key,
    U64>)
    requires IsFst(data, g, r, c, m) && IsFst(data, h, q, d, n) && |data| < SLICE_LIMIT
    ensures m == n
  {
    hide Encodes, GraphOk, LookupIn, Closed;
    FooterReads(data, g, r, c);
    FooterReads(data, h, q, d);
    SameDataAgrees(data, g, h);
    RootsClosed(g, r);
    RootsClosed(h, q);
    forall k: Key ensures (k in m <==> k in n) && (k in m ==> m[k] == n[k]) {
      LookupAgrees(g, h, StateAt(g, r), k);
      assert LookupIn(g, StateAt(g, r), k) == if k in m then Some(m[k]) else None;
      assert LookupIn(h, StateAt(h, q), k) == if k in n then Some(n[k]) else None;
    }
  }

  lemma RootsClosed(g: Graph, r: nat)
    requires GraphOk(g) && Known(g, r)
    ensures Closed(g, StateAt(g, r))
  {
  }
}
