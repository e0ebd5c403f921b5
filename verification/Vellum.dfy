/** vellum.go: opening a transducer, and merging several into one. */
module Vellum {
  import opened Keys
  import opened Transducer
  import opened Encoder
  import opened StateBytes
  import opened FstFile
  import opened FstBuilder
  import opened Fst
  import opened FstIterator
  import opened Automata
  import opened Merging
  import opened MergedValues
  import Uniqueness

  /**
   * `Load`: refuses data without a header or with another version. Data with a good header is taken to
   * be a transducer.
   */
  method Load(data: seq<Byte>, ghost m: map<Key, U64>) returns (r: Option<FST>)
    requires |data| < SLICE_LIMIT
    requires DecodeHeader(data) == Some(VERSION_V1) ==> Represents(data, m)
    ensures r.None? <==> DecodeHeader(data) != Some(VERSION_V1)
    ensures r.Some? ==> fresh(r.value) && r.value.Valid() && r.value.data == data && r.value.content == m
  {
    if DecodeHeader(data) != Some(VERSION_V1) {
      return None;
    }
    var f := new FST(data, m);
    return Some(f);
  }

  lemma RepresentedLoads(data: seq<Byte>, m: map<Key, U64>)
    requires Represents(data, m) && |data| < SLICE_LIMIT
    ensures DecodeHeader(data) == Some(VERSION_V1)
  {
    hide Encodes, GraphOk, HeaderBytes, FooterBytes, Holds;
    HeaderReads(data);
  }

  lemma CountsRepresents(data: seq<Byte>, m: map<Key, U64>, count: nat)
    requires Counts(data, m, count)
    ensures Represents(data, m)
  {
    hide IsFst;
    var g: Graph, root: nat :| IsFst(data, g, root, count, m);
  }

  lemma FstCounts(data: seq<Byte>, g: Graph, root: nat, count: nat, m: map<Key, U64>)
    requires IsFst(data, g, root, count, m)
    ensures Counts(data, m, count)
  {
  }

  /** A fresh iterator over a whole transducer gives all of it, unless the empty key hides everything. */
  lemma WholeLeft(i: FSTIterator, ok: bool)
    requires i.Valid() && i.endKeyExclusive == None && i.startKeyInclusive == [] && i.aut == AlwaysMatch
    requires ok ==> i.LeastFrom([]) && i.keysNil == (i.keysStack == [])
    requires !ok ==> i.keysStack == [] && forall k: Key :: i.Stored(k) ==> i.PastEnd(k)
    ensures Usable(i)
    ensures Left(i) == if [] in i.f.content then map[] else i.f.content
  {
    hide FSTIterator.Valid, FST.Valid, Less;
    AlwaysMatchSound();
    forall k: Key | k in i.f.content ensures ok && AtMost(i.keysStack, k) {
      assert i.Stored(k);
      EmptyIsLeast(k);
    }
    EmptyIsLeast(i.keysStack);
  }

  /** The part of the union still to be written. */
  ghost predicate Pending(all: map<Key, U64>, done: map<Key, U64>, rest: map<Key, U64>, last: Key) {
    && all == done + rest && done.Keys !! rest.Keys
    && forall k :: k in rest ==> k != [] && Less(last, k)
  }

  lemma PendingStart(f: MergeFunc, lefts: seq<map<Key, U64>>)
    requires forall j :: 0 <= j < |lefts| ==> [] !in lefts[j]
    ensures Pending(Union(f, lefts), map[], Union(f, lefts), [])
  {
    hide Less, Combined;
    ValuesEmpty(lefts, []);
    forall k: Key ensures k != [] ==> Less([], k) { EmptyIsLeast(k); }
  }

  lemma OneMore(done: map<Key, U64>, k: Key, v: U64)
    requires k !in done
    ensures |done[k := v]| == |done| + 1
  {
    assert done[k := v].Keys == done.Keys + {k};
  }

  lemma OneMoved(done: map<Key, U64>, rest: map<Key, U64>, k: Key)
    requires k in rest && done.Keys !! rest.Keys
    ensures done + rest == done[k := rest[k]] + (rest - {k})
    ensures done[k := rest[k]].Keys !! (rest - {k}).Keys
  {
    var a, b := done + rest, done[k := rest[k]] + (rest - {k});
    assert forall x: Key :: x in a <==> x in b;
    assert forall x: Key | x in a :: a[x] == b[x];
  }

  lemma PendingNext(all: map<Key, U64>, done: map<Key, U64>, rest: map<Key, U64>, last: Key, k: Key, v: U64)
    requires Pending(all, done, rest, last) && Heads(rest, Some(k), v)
    ensures k != [] && !Less(k, last) && Inserted(done, last, k, v) == done[k := v] && |done[k := v]| == |done| + 1
    ensures Pending(all, done[k := v], rest - {k}, k)
  {
    hide Less;
    Trichotomy(k, last);
    OneMore(done, k, v);
    OneMoved(done, rest, k);
    forall x | x in rest - {k} ensures Less(k, x) { Trichotomy(k, x); }
  }

  /** What is written and what is left make up the whole. */
  ghost predicate Merged(builder: Builder, itr: MergeIterator, all: map<Key, U64>)
    reads builder`content, builder`last, builder`len, itr`left
  {
    Pending(all, builder.content, Union(itr.f, itr.left), builder.last) && builder.len == |builder.content|
  }

  /** Writes the current key and moves on. */
  method MergeNext(builder: Builder, itr: MergeIterator, ghost all: map<Key, U64>) returns (more: bool)
    requires builder.Valid() && itr.Valid() && itr.lowK.Some? && Merged(builder, itr, all)
    modifies builder, builder.unfinished`stack, builder.unfinished`view, builder.nodes, builder.registry.table,
      builder.pool, builder.encoder.bw, itr, itr.itrs
    ensures builder.Valid() && itr.Valid() && Merged(builder, itr, all)
    ensures fresh(builder.nodes - old(builder.nodes))
    ensures more <==> itr.lowK.Some?
    ensures |Union(itr.f, itr.left)| < old(|Union(itr.f, itr.left)|)
  {
    hide Builder.Valid, MergeIterator.Valid, Less, Union, Pending, Heads, Inserted, Merged;
    MergedMeans(builder, itr, all);
    var k, v := itr.Current();
    ghost var rest, done := Union(itr.f, itr.left), builder.content;
    PendingNext(all, done, rest, builder.last, k.value, v);
    SmallerRest(rest, k.value, v);
    var _ := builder.Insert(k.value, v);
    more := itr.Next();
    MergedMeans(builder, itr, all);
  }

  lemma MergedMeans(builder: Builder, itr: MergeIterator, all: map<Key, U64>)
    ensures Merged(builder, itr, all) <==>
      Pending(all, builder.content, Union(itr.f, itr.left), builder.last) && builder.len == |builder.content|
  {
  }

  /**
   * `Merge`: the transducer written is one for the union of what the iterators had left, colliding
   * values merged in their order.
   */
  method Merge(tableSize: nat, mruSize: nat, itrs: seq<FSTIterator>, f: MergeFunc, ghost lefts: seq<map<Key, U64>>)
    returns (data: seq<Byte>)
    requires tableSize > 0 && mruSize > 0
    requires forall i, j :: 0 <= i < j < |itrs| ==> itrs[i] != itrs[j]
    requires |lefts| == |itrs| && forall j :: 0 <= j < |itrs| ==> Usable(itrs[j]) && lefts[j] == Left(itrs[j])
    modifies itrs
    ensures Counts(data, Union(f, lefts), |Union(f, lefts)|) && MergedFrom(f, lefts, Union(f, lefts))
    ensures |data| < SLICE_LIMIT ==> forall m :: Represents(data, m) ==> MergedFrom(f, lefts, m)
    ensures |data| < SLICE_LIMIT ==> forall m, k: Key, i: nat, j: nat ::
      Represents(data, m) && InTwo(lefts, k, i, j) ==> k in m && m[k] == f([lefts[i][k], lefts[j][k]])
  {
    hide Usable, Left, Builder.Valid, MergeIterator.Valid, Less, IsFst, Union, Pending, Heads, Merged, MergedFrom,
      InTwo, Represents, Counts;
    ghost var all := Union(f, lefts);
    var builder := new Builder(tableSize, mruSize);
    var itr := new MergeIterator(itrs, f);
    itr.Init();
    assert itr.left == lefts;
    NoEmptyKeys(itrs, lefts);
    PendingStart(f, lefts);
    StartMerged(builder, itr, all);
    var more := itr.lowK.Some?;
    while more
      invariant builder.Valid() && itr.Valid() && fresh(builder.nodes) && itr.itrs == itrs && itr.f == f
      invariant Merged(builder, itr, all)
      invariant more <==> itr.lowK.Some?
      decreases |Union(f, itr.left)|
    {
      more := MergeNext(builder, itr, all);
    }
    NothingLeft(builder, itr, all);
    ghost var root := builder.Close();
    data := builder.encoder.bw.buf;
    FstCounts(data, builder.graph, root, |all|, all);
    UnionMerged(f, lefts, all);
    if |data| < SLICE_LIMIT {
      CountsRepresents(data, all, |all|);
      UnionRead(data, f, lefts);
    }
  }

  lemma NoEmptyKeys(itrs: seq<FSTIterator>, lefts: seq<map<Key, U64>>)
    requires |lefts| == |itrs| && forall j :: 0 <= j < |itrs| ==> lefts[j] == Left(itrs[j])
    ensures forall j :: 0 <= j < |lefts| ==> [] !in lefts[j]
  {
    hide Less;
    forall j | 0 <= j < |lefts| ensures [] !in lefts[j] {
      EmptyIsLeast(itrs[j].keysStack);
    }
  }

  lemma SmallerRest(rest: map<Key, U64>, k: Key, v: U64)
    requires Heads(rest, Some(k), v)
    ensures |rest - {k}| < |rest|
  {
    assert (rest - {k}).Keys == rest.Keys - {k};
    assert |rest.Keys - {k}| < |rest.Keys|;
  }

  lemma NothingLeft(builder: Builder, itr: MergeIterator, all: map<Key, U64>)
    requires itr.Valid() && itr.lowK == None && Merged(builder, itr, all)
    ensures all == builder.content && builder.len == |all|
  {
    hide MergeIterator.UpToDate, Lowest, Union;
  }

  lemma StartMerged(builder: Builder, itr: MergeIterator, all: map<Key, U64>)
    requires builder.content == map[] && builder.last == [] && builder.len == 0
    requires Pending(all, map[], Union(itr.f, itr.left), [])
    ensures Merged(builder, itr, all)
  {
  }

  /** What a merge of whole transducers keeps: nothing of an input that holds the empty key. */
  function Kept(ms: seq<map<Key, U64>>): (ks: seq<map<Key, U64>>)
    ensures |ks| == |ms|
    ensures forall j :: 0 <= j < |ms| ==> ks[j] == if [] in ms[j] then map[] else ms[j]
  {
    if ms == [] then [] else Kept(ms[..|ms| - 1]) + [if [] in ms[|ms| - 1] then map[] else ms[|ms| - 1]]
  }

  /** Merging fresh iterators is the union of the inputs exactly when no input holds the empty key. */
  lemma MergeIsUnion(f: MergeFunc, ms: seq<map<Key, U64>>)
    ensures Union(f, Kept(ms)) == Union(f, ms) <==> forall j :: 0 <= j < |ms| ==> [] !in ms[j]
  {
    ValuesEmpty(ms, []);
    ValuesEmpty(Kept(ms), []);
    if forall j :: 0 <= j < |ms| ==> [] !in ms[j] {
      assert Kept(ms) == ms;
    } else {
      assert [] in AllKeys(ms) && [] !in AllKeys(Kept(ms));
      assert [] in Union(f, ms) && [] !in Union(f, Kept(ms));
    }
  }

  ghost function Contents(fsts: seq<FST>): (ms: seq<map<Key, U64>>)
    ensures |ms| == |fsts| && forall j :: 0 <= j < |fsts| ==> ms[j] == fsts[j].content
  {
    seq(|fsts|, j requires 0 <= j < |fsts| => fsts[j].content)
  }

  /** Opens an iterator over the whole of each transducer. */
  method OpenAll(fsts: seq<FST>) returns (itrs: seq<FSTIterator>)
    requires forall j :: 0 <= j < |fsts| ==> fsts[j].Valid()
    ensures |itrs| == |fsts| && fresh(itrs) && forall i, j :: 0 <= i < j < |itrs| ==> itrs[i] != itrs[j]
    ensures forall j :: 0 <= j < |itrs| ==> Usable(itrs[j]) && Left(itrs[j]) == Kept(Contents(fsts))[j]
  {
    hide Usable, Left, FSTIterator.Valid, FSTIterator.LeastFrom, FST.Valid, Kept;
    itrs := [];
    for k := 0 to |fsts|
      invariant |itrs| == k && fresh(itrs) && forall i, j :: 0 <= i < j < |itrs| ==> itrs[i] != itrs[j]
      invariant forall j :: 0 <= j < k ==> Usable(itrs[j]) && Left(itrs[j]) == Kept(Contents(fsts))[j]
    {
      var i := OpenWhole(fsts[k]);
      itrs := itrs + [i];
    }
  }

  method OpenWhole(f: FST) returns (i: FSTIterator)
    requires f.Valid()
    ensures fresh(i) && Usable(i) && Left(i) == if [] in f.content then map[] else f.content
  {
    var ok;
    i, ok := NewIterator(f, [], None, None);
    WholeLeft(i, ok);
  }

  /**
   * Whole transducers merged: the data is a transducer for the union of their maps exactly when none of
   * them holds the empty key; it is always one for the union of those that do not, colliding values
   * merged in their order.
   */
  method MergeWhole(tableSize: nat, mruSize: nat, fsts: seq<FST>, f: MergeFunc) returns (data: seq<Byte>)
    requires tableSize > 0 && mruSize > 0 && forall j :: 0 <= j < |fsts| ==> fsts[j].Valid()
    ensures Represents(data, Union(f, Kept(Contents(fsts))))
    ensures MergedFrom(f, Kept(Contents(fsts)), Union(f, Kept(Contents(fsts))))
    ensures |data| < SLICE_LIMIT ==> forall m :: Represents(data, m) ==> MergedFrom(f, Kept(Contents(fsts)), m)
    ensures |data| < SLICE_LIMIT ==>
      (Represents(data, Union(f, Contents(fsts))) <==> forall j :: 0 <= j < |fsts| ==> [] !in fsts[j].content)
  {
    hide FST.Valid, Union, Kept, IsFst, Represents, Usable, Left, Counts, MergedFrom, InTwo;
    ghost var ms := Contents(fsts);
    ghost var kept := Union(f, Kept(ms));
    var itrs := OpenAll(fsts);
    data := Merge(tableSize, mruSize, itrs, f, Kept(ms));
    CountsRepresents(data, kept, |kept|);
    MergeIsUnion(f, ms);
    assert |ms| == |fsts| && forall j :: 0 <= j < |ms| ==> ms[j] == fsts[j].content;
    if |data| < SLICE_LIMIT && Represents(data, Union(f, ms)) {
      Uniqueness.MeaningUnique(data, kept, Union(f, ms));
    }
  }

  /** `MergeMin`: the least of the values. */
  method MergeMin(vals: seq<U64>) returns (rv: U64)
    requires vals != []
    ensures rv in vals && forall v :: v in vals ==> rv <= v
  {
    rv := vals[0];
    for j := 1 to |vals|
      invariant rv in vals && forall i :: 0 <= i < j ==> rv <= vals[i]
    {
      if vals[j] < rv { rv := vals[j]; }
    }
  }

  /** `MergeMax`: the greatest of the values. */
  method MergeMax(vals: seq<U64>) returns (rv: U64)
    requires vals != []
    ensures rv in vals && forall v :: v in vals ==> v <= rv
  {
    rv := vals[0];
    for j := 1 to |vals|
      invariant rv in vals && forall i :: 0 <= i < j ==> vals[i] <= rv
    {
      if vals[j] > rv { rv := vals[j]; }
    }
  }

  function Total(vals: seq<U64>): nat {
    if vals == [] then 0 else Total(vals[..|vals| - 1]) + vals[|vals| - 1]
  }

  lemma TotalOne(v: U64)
    ensures Total([v]) == v
  {
    assert [v][..0] == [];
  }

  lemma {:induction false} TotalAppend(a: seq<U64>, b: seq<U64>)
    ensures Total(a + b) == Total(a) + Total(b)
  {
    if b == [] {
      assert a + b == a;
    } else {
      TotalAppend(a, b[..|b| - 1]);
      assert (a + b)[..|a + b| - 1] == a + b[..|b| - 1];
    }
  }

  /** `MergeSum`: the sum, in 64 bits. */
  method MergeSum(vals: seq<U64>) returns (rv: U64)
    requires vals != []
    ensures rv == Total(vals) % U64_LIMIT
  {
    rv := vals[0];
    assert vals[..1][..0] == [] && vals[..|vals|] == vals;
    for j := 1 to |vals|
      invariant rv == Total(vals[..j]) % U64_LIMIT
    {
      assert vals[..j + 1][..j] == vals[..j];
      rv := (rv + vals[j]) % U64_LIMIT;
    }
  }
}
