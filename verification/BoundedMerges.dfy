/** Merging iterators over ranges: a merge goes on past their ends. */
module BoundedMerges {
  import opened Keys
  import opened Transducer
  import opened FstFile
  import opened Fst
  import opened FstIterator
  import opened Automata
  import opened Merging
  import opened MergedValues
  import opened Vellum

  datatype Range = Range(start: Key, end: Option<Key>)

  predicate InRange(r: Range, k: Key) {
    AtMost(r.start, k) && (r.end.Some? ==> Less(k, r.end.value))
  }

  /** Where an iterator on the range begins: its start, but its end when that is less. */
  function Begins(r: Range): Key {
    if r.end.Some? && Less(r.end.value, r.start) then r.end.value else r.start
  }

  /** The part of a map a scan of the range gives. */
  function RangeOf(m: map<Key, U64>, r: Range): map<Key, U64> {
    map k | k in m && InRange(r, k) :: m[k]
  }

  /** The part a merge takes of it. */
  function TailOf(m: map<Key, U64>, r: Range): map<Key, U64> {
    map k | k in m && AtMost(Begins(r), k) :: m[k]
  }

  /** A tail goes from the start to the last key, and so past the end; from the end when the start is past it. */
  lemma TailMembers(m: map<Key, U64>, r: Range, k: Key)
    ensures k in TailOf(m, r) ==> k in m && TailOf(m, r)[k] == m[k]
    ensures r.end.None? || AtMost(r.start, r.end.value) ==> (k in TailOf(m, r) <==> k in m && AtMost(r.start, k))
    ensures r.end.Some? && !AtMost(r.start, r.end.value) ==>
      (k in TailOf(m, r) <==> k in m && AtMost(r.end.value, k))
  {
    hide Less;
    if r.end.Some? { Trichotomy(r.start, r.end.value); }
  }

  ghost function RangesOf(fsts: seq<FST>, rs: seq<Range>): (ms: seq<map<Key, U64>>)
    requires |rs| == |fsts|
    ensures |ms| == |fsts|
  {
    seq(|fsts|, j requires 0 <= j < |fsts| => RangeOf(fsts[j].content, rs[j]))
  }

  ghost function TailsOf(fsts: seq<FST>, rs: seq<Range>): (ms: seq<map<Key, U64>>)
    requires |rs| == |fsts|
    ensures |ms| == |fsts| && forall j :: 0 <= j < |fsts| ==> ms[j] == TailOf(fsts[j].content, rs[j])
  {
    seq(|fsts|, j requires 0 <= j < |fsts| => TailOf(fsts[j].content, rs[j]))
  }

  lemma RangeInTail(m: map<Key, U64>, r: Range)
    ensures forall k :: k in RangeOf(m, r) ==> k in TailOf(m, r) && TailOf(m, r)[k] == RangeOf(m, r)[k]
  {
    hide Less;
    forall k | k in RangeOf(m, r) ensures k in TailOf(m, r) {
      if Less(r.start, k) && Begins(r) != r.start { AtMostTransitive(Begins(r), r.start, k); }
    }
  }

  /** Nothing is stored at or after the end. */
  ghost predicate EndsBehind(m: map<Key, U64>, r: Range) {
    r.end.Some? ==> forall k :: k in m ==> Less(k, r.end.value)
  }

  lemma TailIsRange(m: map<Key, U64>, r: Range)
    ensures TailOf(m, r) == RangeOf(m, r) <==> EndsBehind(m, r)
  {
    hide Less;
    if r.end.Some? {
      var end := r.end.value;
      Trichotomy(end, r.start);
      if forall k :: k in m ==> Less(k, end) {
        forall k | k in TailOf(m, r) ensures k in RangeOf(m, r) { Trichotomy(k, end); }
        RangeInTail(m, r);
      } else {
        var k :| k in m && !Less(k, end);
        Trichotomy(k, end);
        AtMostTransitive(Begins(r), end, k);
        assert k in TailOf(m, r) && k !in RangeOf(m, r);
      }
    }
  }

  ghost predicate Within(a: map<Key, U64>, b: map<Key, U64>) {
    forall k :: k in a ==> k in b && b[k] == a[k]
  }

  /** A key that some map has, where the smaller map has not, has more values. */
  lemma {:induction false} MoreValues(a: seq<map<Key, U64>>, b: seq<map<Key, U64>>, k: Key)
    requires |a| == |b| && forall j :: 0 <= j < |a| ==> Within(a[j], b[j])
    ensures |Values(a, k)| <= |Values(b, k)|
    ensures (exists j :: 0 <= j < |a| && k in b[j] && k !in a[j]) ==> |Values(a, k)| < |Values(b, k)|
  {
    if a != [] {
      var n := |a| - 1;
      MoreValues(a[..n], b[..n], k);
      if j :| 0 <= j < n && k in b[j] && k !in a[j] {
        assert k in b[..n][j] && k !in a[..n][j];
      }
    }
  }

  /** Smaller maps have the same union, however values are merged, exactly when they are no smaller. */
  lemma UnionsAgree(a: seq<map<Key, U64>>, b: seq<map<Key, U64>>)
    requires |a| == |b| && forall j :: 0 <= j < |a| ==> Within(a[j], b[j])
    ensures (forall f: MergeFunc :: Union(f, a) == Union(f, b)) <==> a == b
  {
    hide Within;
    if a != b {
      var j :| 0 <= j < |a| && a[j] != b[j];
      var k := MissingKey(a[j], b[j]);
      MoreValues(a, b, k);
      TellsApart(a, b, k);
    }
  }

  lemma MissingKey(a: map<Key, U64>, b: map<Key, U64>) returns (k: Key)
    requires Within(a, b) && a != b
    ensures k in b && k !in a
  {
    if b.Keys <= a.Keys { SameKeys(a, b); }
    k :| k in b.Keys && k !in a.Keys;
  }

  lemma SameKeys(a: map<Key, U64>, b: map<Key, U64>)
    requires Within(a, b) && b.Keys <= a.Keys
    ensures a == b
  {
  }

  /** A merge function that sees the difference. */
  lemma TellsApart(a: seq<map<Key, U64>>, b: seq<map<Key, U64>>, k: Key)
    requires |Values(a, k)| < |Values(b, k)|
    ensures exists f: MergeFunc :: Union(f, a) != Union(f, b)
  {
    hide Values;
    var va, vb := Values(a, k), Values(b, k);
    var y: U64 := if va == [] then 0 else va[0];
    var x: U64 := if y == 0 then 1 else 0;
    var f: MergeFunc := vs => if |vs| == |vb| then x else y;
    assert k in Union(f, b);
    if va != [] {
      assert Union(f, a)[k] == y && Union(f, b)[k] == x;
    }
    assert Union(f, a) != Union(f, b);
  }

  /**
   * What is merged is the union of the ranges, whatever the merge function, if and only if no transducer
   * stores a key at or after the end of its range.
   */
  lemma MergedRanges(fsts: seq<FST>, rs: seq<Range>)
    requires |rs| == |fsts|
    ensures (forall f: MergeFunc :: Union(f, RangesOf(fsts, rs)) == Union(f, TailsOf(fsts, rs))) <==>
      forall j :: 0 <= j < |fsts| ==> EndsBehind(fsts[j].content, rs[j])
  {
    hide EndsBehind, RangeOf, TailOf, Union, Within;
    var a, b := RangesOf(fsts, rs), TailsOf(fsts, rs);
    forall j | 0 <= j < |fsts| ensures Within(a[j], b[j]) && (a[j] == b[j] <==> EndsBehind(fsts[j].content, rs[j])) {
      RangeWithin(fsts[j].content, rs[j]);
      TailIsRange(fsts[j].content, rs[j]);
    }
    UnionsAgree(a, b);
    assert a == b <==> forall j :: 0 <= j < |fsts| ==> a[j] == b[j];
  }

  lemma RangeWithin(m: map<Key, U64>, r: Range)
    ensures Within(RangeOf(m, r), TailOf(m, r))
  {
    RangeInTail(m, r);
  }

  /** A fresh iterator on a range has all of the tail left, done or not. */
  method OpenRange(f: FST, r: Range) returns (i: FSTIterator)
    requires f.Valid() && [] !in f.content
    ensures fresh(i) && Usable(i) && Left(i) == TailOf(f.content, r)
  {
    hide FSTIterator.Valid, FST.Valid, Less;
    var ok;
    i, ok := NewIterator(f, r.start, r.end, None);
    AlwaysMatchSound();
    assert i.Clamped(r.start) == Begins(r);
    LeftFrom(i, Begins(r));
  }

  lemma LeftFrom(i: FSTIterator, begin: Key)
    requires i.Valid() && [] !in i.f.content && i.aut == AlwaysMatch && (i.LeastFrom(begin) || i.DoneFrom(begin))
    ensures Usable(i) && forall k :: k in Left(i) <==> k in i.f.content && AtMost(begin, k)
  {
    hide FSTIterator.Valid, FST.Valid, Less;
    AlwaysMatchSound();
    forall k: Key ensures k in Left(i) <==> k in i.f.content && AtMost(begin, k) {
      assert i.Stored(k) <==> k in i.f.content;
      if i.keysStack != [] && AtMost(i.keysStack, k) { AtMostTransitive(begin, i.keysStack, k); }
    }
  }

  method OpenRanges(fsts: seq<FST>, rs: seq<Range>) returns (itrs: seq<FSTIterator>)
    requires |rs| == |fsts| && forall j :: 0 <= j < |fsts| ==> fsts[j].Valid() && [] !in fsts[j].content
    ensures |itrs| == |fsts| && fresh(itrs) && forall i, j :: 0 <= i < j < |itrs| ==> itrs[i] != itrs[j]
    ensures forall j :: 0 <= j < |itrs| ==> Usable(itrs[j]) && Left(itrs[j]) == TailsOf(fsts, rs)[j]
  {
    hide Usable, Left, FST.Valid, TailOf;
    itrs := [];
    for k := 0 to |fsts|
      invariant |itrs| == k && fresh(itrs) && forall i, j :: 0 <= i < j < |itrs| ==> itrs[i] != itrs[j]
      invariant forall j :: 0 <= j < k ==> Usable(itrs[j]) && Left(itrs[j]) == TailsOf(fsts, rs)[j]
    {
      var i := OpenRange(fsts[k], rs[k]);
      itrs := itrs + [i];
    }
  }

  /**
   * Iterators on ranges merged: the data is a transducer for the union of the tails, colliding values
   * merged in their order, and so for that of the ranges when nothing is stored at or after an end.
   */
  method MergeRanges(tableSize: nat, mruSize: nat, fsts: seq<FST>, rs: seq<Range>, f: MergeFunc)
    returns (data: seq<Byte>)
    requires tableSize > 0 && mruSize > 0 && |rs| == |fsts|
    requires forall j :: 0 <= j < |fsts| ==> fsts[j].Valid() && [] !in fsts[j].content
    ensures Represents(data, Union(f, TailsOf(fsts, rs)))
    ensures MergedFrom(f, TailsOf(fsts, rs), Union(f, TailsOf(fsts, rs)))
    ensures |data| < SLICE_LIMIT ==> forall m :: Represents(data, m) ==> MergedFrom(f, TailsOf(fsts, rs), m)
    ensures (forall j :: 0 <= j < |fsts| ==> EndsBehind(fsts[j].content, rs[j])) ==>
      Represents(data, Union(f, RangesOf(fsts, rs)))
  {
    hide FST.Valid, Union, IsFst, Represents, Usable, Left, Counts, EndsBehind, TailOf, RangeOf, MergedFrom, InTwo;
    var itrs := OpenRanges(fsts, rs);
    data := Merge(tableSize, mruSize, itrs, f, TailsOf(fsts, rs));
    CountsRepresents(data, Union(f, TailsOf(fsts, rs)), |Union(f, TailsOf(fsts, rs))|);
    MergedRanges(fsts, rs);
  }
}
