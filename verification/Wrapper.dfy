/** wrapper.go: an index built from a map in memory and read back. */
module Wrapper {
  import opened Keys
  import opened Transducer
  import opened FstFile
  import opened FstBuilder
  import opened Fst
  import opened FstIterator
  import opened Automata
  import opened Scans
  import opened Vellum

  /** The registry sizes used when none are given. */
  const DEFAULT_TABLE_SIZE: nat := 10000
  const DEFAULT_MRU_SIZE: nat := 2

  datatype KeyValueTuple = KeyValueTuple(key: Key, val: U64)

  /** Distinct tuples, one for each entry of m. */
  ghost predicate TuplesOf(ts: seq<KeyValueTuple>, m: map<Key, U64>) {
    && |ts| == |m|
    && (forall t :: t in ts ==> t.key in m && m[t.key] == t.val)
    && (forall k :: k in m ==> KeyValueTuple(k, m[k]) in ts)
  }

  ghost predicate SortedTuples(ts: seq<KeyValueTuple>) {
    forall i, j :: 0 <= i < j < |ts| ==> Less(ts[i].key, ts[j].key)
  }

  /** The entries of a map in whatever order its iteration gives. */
  method Tuples(m: map<Key, U64>) returns (ts: seq<KeyValueTuple>)
    ensures TuplesOf(ts, m) && forall i, j :: 0 <= i < j < |ts| ==> ts[i].key != ts[j].key
  {
    ts := [];
    var rest := m.Keys;
    while rest != {}
      invariant rest <= m.Keys && |ts| + |rest| == |m|
      invariant forall t :: t in ts ==> t.key in m && m[t.key] == t.val && t.key !in rest
      invariant forall k :: k in m ==> k in rest || KeyValueTuple(k, m[k]) in ts
      invariant forall i, j :: 0 <= i < j < |ts| ==> ts[i].key != ts[j].key
      decreases |rest|
    {
      var k :| k in rest;
      assert forall t :: t in ts ==> t.key != k;
      ts := ts + [KeyValueTuple(k, m[k])];
      rest := rest - {k};
    }
  }

  /** Stands for `sort.Slice` with `bytes.Compare` on the keys. */
  method SortTuples(ts: seq<KeyValueTuple>) returns (r: seq<KeyValueTuple>)
    requires forall i, j :: 0 <= i < j < |ts| ==> ts[i].key != ts[j].key
    ensures SortedTuples(r) && |r| == |ts| && forall t :: t in r <==> t in ts
  {
    r := [];
    for n := 0 to |ts|
      invariant SortedTuples(r) && |r| == n
      invariant forall t :: t in r <==> t in ts[..n]
    {
      assert ts[..n + 1] == ts[..n] + [ts[n]];
      forall i | 0 <= i < |r| ensures r[i].key != ts[n].key { assert r[i] in ts[..n]; }
      r := Placed(r, ts[n]);
    }
    assert ts[..|ts|] == ts;
  }

  function Placed(ts: seq<KeyValueTuple>, t: KeyValueTuple): (r: seq<KeyValueTuple>)
    requires SortedTuples(ts) && forall i :: 0 <= i < |ts| ==> ts[i].key != t.key
    ensures SortedTuples(r) && |r| == |ts| + 1
    ensures forall u :: u in r <==> u == t || u in ts
  {
    hide Less, SortedTuples;
    AloneSorted(t);
    if ts == [] then [t]
    else
      var n := |ts| - 1;
      Trichotomy(ts[n].key, t.key);
      if Less(ts[n].key, t.key) then
        LastPlaced(ts, t);
        ts + [t]
      else
        FrontSorted(ts);
        var r := Placed(ts[..n], t);
        KeepsLast(ts, t, r);
        r + [ts[n]]
  }

  lemma AloneSorted(t: KeyValueTuple)
    ensures SortedTuples([t])
  {
  }

  lemma FrontSorted(ts: seq<KeyValueTuple>)
    requires SortedTuples(ts) && ts != []
    ensures SortedTuples(ts[..|ts| - 1])
  {
  }

  lemma LastPlaced(ts: seq<KeyValueTuple>, t: KeyValueTuple)
    requires SortedTuples(ts) && ts != [] && Less(ts[|ts| - 1].key, t.key)
    ensures SortedTuples(ts + [t]) && forall u :: u in ts + [t] <==> u == t || u in ts
  {
    hide Less;
    forall i | 0 <= i < |ts| ensures Less(ts[i].key, t.key) {
      if i < |ts| - 1 { LessTransitive(ts[i].key, ts[|ts| - 1].key, t.key); }
    }
  }

  lemma KeepsLast(ts: seq<KeyValueTuple>, t: KeyValueTuple, r: seq<KeyValueTuple>)
    requires SortedTuples(ts) && ts != [] && Less(t.key, ts[|ts| - 1].key)
    requires SortedTuples(r) && forall u :: u in r <==> u == t || u in ts[..|ts| - 1]
    ensures SortedTuples(r + [ts[|ts| - 1]])
    ensures forall u :: u in r + [ts[|ts| - 1]] <==> u == t || u in ts
  {
    hide Less;
    var n := |ts| - 1;
    assert ts == ts[..n] + [ts[n]];
    forall i | 0 <= i < |r| ensures Less(r[i].key, ts[n].key) { assert r[i] in r; }
  }

  /** What n sorted insertions have put in. */
  ghost predicate InsertedSoFar(ts: seq<KeyValueTuple>, n: nat, content: map<Key, U64>, last: Key, len: nat)
    requires n <= |ts|
  {
    && len == n && last == (if n == 0 then [] else ts[n - 1].key)
    && (forall i :: 0 <= i < n ==> ts[i].key in content && content[ts[i].key] == ts[i].val)
    && (forall k :: k in content ==> exists i :: 0 <= i < n && ts[i].key == k)
  }

  lemma InsertedNext(ts: seq<KeyValueTuple>, n: nat, content: map<Key, U64>, last: Key, len: nat)
    requires SortedTuples(ts) && n < |ts| && InsertedSoFar(ts, n, content, last, len)
    ensures !Less(ts[n].key, last) && (ts[n].key == [] ==> n == 0) && len == n
    ensures InsertedSoFar(ts, n + 1, Inserted(content, last, ts[n].key, ts[n].val), ts[n].key, n + 1)
  {
    hide Less;
    EmptyIsLeast(if n == 0 then ts[0].key else ts[n - 1].key);
    forall i | 0 <= i < n ensures ts[i].key != ts[n].key { Trichotomy(ts[i].key, ts[n].key); }
    if n > 0 { Trichotomy(ts[n - 1].key, ts[n].key); }
  }

  lemma AllInserted(ts: seq<KeyValueTuple>, content: map<Key, U64>, last: Key, len: nat, m: map<Key, U64>)
    requires InsertedSoFar(ts, |ts|, content, last, len) && TuplesOf(ts, m)
    ensures content == m && len == |m|
  {
    forall k ensures k in content <==> k in m {
      if k in m {
        var i :| 0 <= i < |ts| && ts[i] == KeyValueTuple(k, m[k]);
      }
    }
    forall k | k in m ensures content[k] == m[k] {
      var i :| 0 <= i < |ts| && ts[i] == KeyValueTuple(k, m[k]);
    }
  }

  /** `BuildSortedFST`: the bytes are a transducer for the map, and say how many keys it has. */
  method BuildSortedFST(m: map<Key, U64>) returns (data: seq<Byte>)
    ensures Counts(data, m, |m|)
  {
    hide Builder.Valid, Less, IsFst, InsertedSoFar, SortedTuples, Inserted;
    var ts := Tuples(m);
    ts := SortTuples(ts);
    var builder := new Builder(DEFAULT_TABLE_SIZE, DEFAULT_MRU_SIZE);
    NoneInserted(ts);
    for n := 0 to |ts|
      invariant builder.Valid() && fresh(builder.nodes)
      invariant InsertedSoFar(ts, n, builder.content, builder.last, builder.len)
    {
      InsertedNext(ts, n, builder.content, builder.last, builder.len);
      var ok := builder.Insert(ts[n].key, ts[n].val);
    }
    AllInserted(ts, builder.content, builder.last, builder.len, m);
    ghost var root := builder.Close();
    data := builder.encoder.bw.buf;
  }

  lemma NoneInserted(ts: seq<KeyValueTuple>)
    ensures InsertedSoFar(ts, 0, map[], [], 0)
  {
  }

  class IndexReader {
    const fst: FST

    ghost predicate Valid() {
      fst.Valid()
    }

    /** `OpenIndex` on bytes that hold a transducer. */
    constructor (data: seq<Byte>, ghost m: map<Key, U64>)
      requires Represents(data, m) && |data| < SLICE_LIMIT
      ensures Valid() && fst.content == m && fst.data == data
    {
      RepresentedLoads(data, m);
      var f := Load(data, m);
      fst := f.value;
    }

    method Len() returns (n: nat)
      requires Valid()
      ensures forall count: nat :: Counts(fst.data, fst.content, count) ==> n == count % U64_LIMIT
    {
      n := fst.len;
      fst.LenCounts();
    }

    method Get(key: Key) returns (v: U64, found: bool)
      requires Valid()
      ensures found <==> key in fst.content
      ensures v == if found then fst.content[key] else 0
    {
      v, found := fst.Get(key);
    }

    /**
     * `SearchPrefix`: exactly the keys with the prefix, ascending, with their values. It is an error
     * exactly when no key is at or after the prefix.
     */
    method SearchPrefix(prefix: Key) returns (r: Option<(seq<Key>, seq<U64>)>)
      requires Valid()
      ensures r == None <==> forall k :: k in fst.content ==> Less(k, prefix)
      ensures r.Some? ==> Lists(fst.content, r.value.0, r.value.1)
      ensures r.Some? ==> forall k: Key :: k in r.value.0 <==> k in fst.content && prefix <= k
    {
      hide FST.Valid, FSTIterator.Valid, Less, Lists, Reached, Sound, Accepts;
      AlwaysMatchSound();
      var itr, ok := NewIterator(fst, prefix, None, None);
      StartUnclamped(itr, None);
      NoneAtOrAfter(fst.content, prefix);
      if !ok {
        assert forall k :: k in fst.content ==> itr.Stored(k);
        return None;
      }
      var keys, vals := [], [];
      ReachedFirst(fst.content, AlwaysMatch, prefix, itr.keysStack);
      while ok
        invariant itr.Valid() && itr.f == fst && itr.aut == AlwaysMatch && fresh(itr)
        invariant itr.endKeyExclusive == None
        invariant ok ==> itr.keysStack in fst.content && AtMost(prefix, itr.keysStack)
        invariant ok ==> Reached(fst.content, AlwaysMatch, prefix, itr.keysStack, keys, vals)
        invariant !ok ==> Lists(fst.content, keys, vals) && forall k :: k in keys <==>
          k in fst.content && AtMost(prefix, k)
        invariant forall k :: k in keys ==> prefix <= k
        decreases if ok then 1 + KeysAfter(fst.content, itr.keysStack) else 0
      {
        ghost var cur, seen, seenVals := itr.keysStack, keys, vals;
        var key, val := itr.Current();
        var k := if key == None then [] else key.value;
        if !(prefix <= k) {
          PrefixOver(fst.content, prefix, cur, keys, vals);
          return Some((keys, vals));
        }
        keys, vals := keys + [k], vals + [val];
        ok := itr.Next();
        if ok {
          ReachedNext(fst.content, AlwaysMatch, prefix, cur, itr.keysStack, seen, seenVals);
          AtMostTransitive(prefix, cur, itr.keysStack);
          FewerAfter(fst.content, cur, itr.keysStack);
        } else {
          ReachedLast(fst.content, AlwaysMatch, prefix, cur, None, seen, seenVals);
        }
      }
      AllPrefixed(fst.content, prefix, keys);
      return Some((keys, vals));
    }
  }

  /** Nothing at or after k is everything before it. */
  lemma NoneAtOrAfter(m: map<Key, U64>, k: Key)
    ensures (forall x :: x in m ==> Less(x, k)) <==> (forall x :: x in m ==> !AtMost(k, x))
  {
    hide Less;
    forall x ensures Less(x, k) <==> !AtMost(k, x) { Trichotomy(x, k); }
  }

  lemma PrefixAtMost(prefix: Key, k: Key)
    requires prefix <= k
    ensures AtMost(prefix, k)
  {
    if |prefix| < |k| { LessAt(prefix, k, |prefix|); } else { assert prefix == k; }
  }

  /** Keys with a prefix lie together: one without it, at or after the prefix, is after all of them. */
  lemma PrefixTogether(prefix: Key, k: Key, x: Key)
    requires AtMost(prefix, k) && !(prefix <= k) && prefix <= x
    ensures Less(x, k)
  {
    var p := CommonLen(prefix, k);
    assert prefix[..p] == k[..p] == x[..p];
    assert x[p] == prefix[p];
    LessAt(x, k, p);
  }

  lemma PrefixOver(m: map<Key, U64>, prefix: Key, cur: Key, ks: seq<Key>, vs: seq<U64>)
    requires Reached(m, AlwaysMatch, prefix, cur, ks, vs) && AtMost(prefix, cur) && !(prefix <= cur)
    requires forall k :: k in ks ==> prefix <= k
    ensures Lists(m, ks, vs) && forall k: Key :: k in ks <==> k in m && prefix <= k
  {
    hide Less, Lists;
    AlwaysMatchSound();
    forall k | k in m && prefix <= k ensures k in ks {
      PrefixAtMost(prefix, k);
      PrefixTogether(prefix, cur, k);
    }
  }

  lemma AllPrefixed(m: map<Key, U64>, prefix: Key, ks: seq<Key>)
    requires forall k :: k in ks <==> k in m && AtMost(prefix, k)
    requires forall k :: k in ks ==> prefix <= k
    ensures forall k: Key :: k in ks <==> k in m && prefix <= k
  {
    forall k: Key | prefix <= k ensures AtMost(prefix, k) { PrefixAtMost(prefix, k); }
  }

  /** Building an index and reading it back is the identity on maps. */
  method BuildThenGet(m: map<Key, U64>, key: Key) returns (data: seq<Byte>, v: U64, found: bool)
    ensures |data| < SLICE_LIMIT ==> (found <==> key in m) && v == if key in m then m[key] else 0
  {
    data := BuildSortedFST(m);
    v, found := 0, false;
    if |data| < SLICE_LIMIT {
      CountsRepresents(data, m, |m|);
      var ir := new IndexReader(data, m);
      v, found := ir.Get(key);
    }
  }
}
