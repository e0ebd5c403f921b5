/** merge_iterator.go: several iterators walked together, and the map their union stands for. */
module Merging {
  import opened Keys
  import opened Transducer
  import opened Fst
  import opened FstIterator
  import opened Automata

  /** `MergeFunc`: one value for the values a key has in several inputs, given in their order. */
  type MergeFunc = seq<U64> -> U64

  /** What the maps hold for k, in their order. */
  function Values(ms: seq<map<Key, U64>>, k: Key): seq<U64> {
    if ms == [] then []
    else
      var n := |ms| - 1;
      Values(ms[..n], k) + if k in ms[n] then [ms[n][k]] else []
  }

  /** The merge function is asked only when there is something to merge. */
  function Combined(f: MergeFunc, vs: seq<U64>): U64
    requires vs != []
  {
    if |vs| > 1 then f(vs) else vs[0]
  }

  function AllKeys(ms: seq<map<Key, U64>>): (ks: set<Key>)
    ensures forall k :: k in ks <==> Values(ms, k) != []
  {
    if ms == [] then {} else AllKeys(ms[..|ms| - 1]) + ms[|ms| - 1].Keys
  }

  /** The union of the maps, colliding values combined. */
  function Union(f: MergeFunc, ms: seq<map<Key, U64>>): map<Key, U64> {
    map k | k in AllKeys(ms) :: Combined(f, Values(ms, k))
  }

  lemma {:induction false} ValuesEmpty(ms: seq<map<Key, U64>>, k: Key)
    ensures Values(ms, k) == [] <==> forall j :: 0 <= j < |ms| ==> k !in ms[j]
  {
    if ms != [] {
      var n := |ms| - 1;
      ValuesEmpty(ms[..n], k);
      assert forall j :: 0 <= j < n ==> ms[..n][j] == ms[j];
    }
  }

  lemma {:induction false} ValuesAlike(a: seq<map<Key, U64>>, b: seq<map<Key, U64>>, k: Key)
    requires |a| == |b|
    requires forall j :: 0 <= j < |a| ==> (k in a[j] <==> k in b[j]) && (k in a[j] ==> a[j][k] == b[j][k])
    ensures Values(a, k) == Values(b, k)
  {
    if a != [] {
      var n := |a| - 1;
      ValuesAlike(a[..n], b[..n], k);
    }
  }

  /** Taking one key out of every map takes it out of the union. */
  lemma UnionWithout(f: MergeFunc, ms: seq<map<Key, U64>>, rest: seq<map<Key, U64>>, k: Key)
    requires |rest| == |ms| && forall j :: 0 <= j < |ms| ==> rest[j] == ms[j] - {k}
    ensures Union(f, rest) == Union(f, ms) - {k}
  {
    hide Values, Combined;
    forall x: Key ensures Values(rest, x) == if x == k then [] else Values(ms, x) {
      ValuesWithout(ms, rest, k, x);
    }
  }

  lemma ValuesWithout(ms: seq<map<Key, U64>>, rest: seq<map<Key, U64>>, k: Key, x: Key)
    requires |rest| == |ms| && forall j :: 0 <= j < |ms| ==> rest[j] == ms[j] - {k}
    ensures Values(rest, x) == if x == k then [] else Values(ms, x)
  {
    hide Values;
    if x == k { ValuesEmpty(rest, x); } else { ValuesAlike(rest, ms, x); }
  }

  /** k heads m: its least key, with its value; nothing when m is empty. */
  ghost predicate Heads(m: map<Key, U64>, k: Option<Key>, v: U64) {
    match k
    case None => m == map[]
    case Some(x) => x in m && v == m[x] && forall y :: y in m ==> AtMost(x, y)
  }

  ghost predicate AllHead(ms: seq<map<Key, U64>>, ks: seq<Option<Key>>, vs: seq<U64>) {
    |ms| == |ks| == |vs| && forall j :: 0 <= j < |ms| ==> Heads(ms[j], ks[j], vs[j])
  }

  /** The places among the first n that are at k. */
  function Matches(ks: seq<Option<Key>>, k: Option<Key>, n: nat): (idxs: seq<nat>)
    requires n <= |ks|
    ensures forall i :: 0 <= i < |idxs| ==> idxs[i] < n && ks[idxs[i]] == k
    ensures forall j :: 0 <= j < n && ks[j] == k ==> j in idxs
    ensures forall i, j :: 0 <= i < j < |idxs| ==> idxs[i] < idxs[j]
  {
    if n == 0 then [] else Matches(ks, k, n - 1) + if ks[n - 1] == k then [n - 1] else []
  }

  function Picked(vs: seq<U64>, idxs: seq<nat>): seq<U64>
    requires forall j :: 0 <= j < |idxs| ==> idxs[j] < |vs|
  {
    if idxs == [] then [] else Picked(vs, idxs[..|idxs| - 1]) + [vs[idxs[|idxs| - 1]]]
  }

  /** low is the least of the first n. */
  ghost predicate Lowest(ks: seq<Option<Key>>, low: Option<Key>, n: nat)
    requires n <= |ks|
  {
    && (low.None? ==> forall j :: 0 <= j < n ==> ks[j].None?)
    && (low.Some? ==> low in ks[..n] && forall j :: 0 <= j < n && ks[j].Some? ==> AtMost(low.value, ks[j].value))
  }

  lemma PickedSnoc(vs: seq<U64>, idxs: seq<nat>, i: nat)
    requires i < |vs| && forall j :: 0 <= j < |idxs| ==> idxs[j] < |vs|
    ensures Picked(vs, idxs + [i]) == Picked(vs, idxs) + [vs[i]]
  {
    assert (idxs + [i])[..|idxs|] == idxs;
  }

  lemma ValuesSnoc(ms: seq<map<Key, U64>>, n: nat, k: Key)
    requires n < |ms|
    ensures Values(ms[..n + 1], k) == Values(ms[..n], k) + if k in ms[n] then [ms[n][k]] else []
  {
    assert ms[..n + 1][..n] == ms[..n];
  }

  lemma {:induction false} PickedValues(ms: seq<map<Key, U64>>, ks: seq<Option<Key>>, vs: seq<U64>, k: Key, n: nat)
    requires AllHead(ms, ks, vs) && n <= |ks| && Lowest(ks, Some(k), |ks|)
    ensures Picked(vs, Matches(ks, Some(k), n)) == Values(ms[..n], k)
  {
    hide Less, Heads, AtMost, Picked, Values;
    if n == 0 {
      NothingPicked(vs, k);
      assert ms[..0] == [];
    } else {
      var m := n - 1;
      var before := Matches(ks, Some(k), m);
      PickedValues(ms, ks, vs, k, m);
      ValuesSnoc(ms, m, k);
      HeadMatches(ms[m], ks[m], vs[m], k);
      if ks[m] == Some(k) { PickedSnoc(vs, before, m); } else { assert before + [] == before; }
    }
  }

  lemma NothingPicked(vs: seq<U64>, k: Key)
    ensures Picked(vs, []) == [] == Values([], k)
  {
  }

  /** A key no greater than a map's head is in the map only as its head. */
  lemma HeadMatches(m: map<Key, U64>, head: Option<Key>, v: U64, k: Key)
    requires Heads(m, head, v) && (head.Some? ==> AtMost(k, head.value))
    ensures k in m <==> head == Some(k)
    ensures k in m ==> m[k] == v
  {
    if k in m { Trichotomy(k, head.value); }
  }

  /** The least head is the union's head, and the matching values are what the union combines. */
  lemma LowHeads(f: MergeFunc, ms: seq<map<Key, U64>>, ks: seq<Option<Key>>, vs: seq<U64>, low: Option<Key>, v: U64)
    requires AllHead(ms, ks, vs) && Lowest(ks, low, |ks|)
    requires low.Some? ==> Matches(ks, low, |ks|) != []
    requires low.Some? ==> Picked(vs, Matches(ks, low, |ks|)) != []
    requires low.Some? ==> v == Combined(f, Picked(vs, Matches(ks, low, |ks|)))
    ensures Heads(Union(f, ms), low, v)
  {
    hide Less;
    if low.Some? {
      PickedValues(ms, ks, vs, low.value, |ks|);
      assert ms[..|ks|] == ms;
    }
    forall x: Key | Values(ms, x) != [] ensures low.Some? && AtMost(low.value, x) {
      ValuesEmpty(ms, x);
      var j :| 0 <= j < |ms| && x in ms[j];
      assert Heads(ms[j], ks[j], vs[j]);
      AtMostTransitive(low.value, ks[j].value, x);
    }
    if low == None { assert Union(f, ms) == map[]; }
  }

  /**
   * An iterator a merge can take: pointing at a key or at nothing. The empty key counts as nothing, so
   * it may only be there for an iterator that has never left it.
   */
  ghost predicate Usable(i: FSTIterator)
    reads i
  {
    && i.Valid()
    && if i.keysStack == [] then i.keysNil || [] !in i.f.content
       else i.Stored(i.keysStack) && [] !in i.f.content
  }

  /** What the iterator has yet to give: a merge does not ask whether it is done, so its end is no end. */
  ghost function Left(i: FSTIterator): map<Key, U64>
    reads i
  {
    if i.keysStack == [] then map[]
    else map k | k in i.f.content && Accepts(i.aut, k) && AtMost(i.keysStack, k) :: i.f.content[k]
  }

  /** The key an iterator gives, nothing for the nil slice. */
  ghost function KeyOf(i: FSTIterator): Option<Key>
    reads i
  {
    if i.keysStack == [] then None else Some(i.keysStack)
  }

  method Read(i: FSTIterator) returns (k: Option<Key>, v: U64)
    requires Usable(i)
    ensures k == KeyOf(i) && Heads(Left(i), k, v)
  {
    hide FSTIterator.Valid, Less, Accepts;
    k, v := i.Current();
  }

  method Advance(i: FSTIterator) returns (ok: bool)
    requires Usable(i) && i.keysStack != []
    modifies i
    ensures Usable(i) && i.f == old(i.f)
    ensures Left(i) == old(Left(i)) - {old(i.keysStack)}
  {
    hide FSTIterator.Valid, Less, Accepts, FST.Valid;
    ghost var was, cur := Left(i), i.keysStack;
    ok := i.Next();
    forall k: Key ensures k in Left(i) <==> k in was && k != cur {
      Trichotomy(k, cur);
      Trichotomy(k, i.keysStack);
      if i.keysStack != [] && AtMost(i.keysStack, k) { AtMostTransitive(cur, i.keysStack, k); }
    }
    assert forall k: Key | k in Left(i) :: Left(i)[k] == was[k];
  }

  class MergeIterator {
    const itrs: seq<FSTIterator>
    const f: MergeFunc
    var currKs: seq<Option<Key>>
    var currVs: seq<U64>
    var lowK: Option<Key>
    var lowV: U64
    var lowIdxs: seq<nat>
    var mergeV: seq<U64>

    /** What each input has yet to give. */
    ghost var left: seq<map<Key, U64>>

    /** The inputs are where the fields say they are. */
    ghost predicate Tracks()
      reads this, itrs
    {
      && |left| == |itrs|
      && (forall i, j :: 0 <= i < j < |itrs| ==> itrs[i] != itrs[j])
      && (forall j :: 0 <= j < |itrs| ==> Usable(itrs[j]) && left[j] == Left(itrs[j]))
    }

    ghost predicate UpToDate()
      reads this, itrs
    {
      && Tracks() && |currKs| == |currVs| == |itrs| && AllHead(left, currKs, currVs)
      && (forall j :: 0 <= j < |itrs| ==> currKs[j] == KeyOf(itrs[j]))
    }

    ghost predicate Valid()
      reads this, itrs
    {
      && UpToDate() && Lowest(currKs, lowK, |currKs|)
      && (lowK.Some? ==> lowIdxs == Matches(currKs, lowK, |currKs|))
      && Heads(Union(f, left), lowK, lowV)
    }

    constructor (itrs: seq<FSTIterator>, f: MergeFunc)
      ensures this.itrs == itrs && this.f == f && lowK == None
      ensures |currKs| == |currVs| == |itrs|
    {
      this.itrs := itrs;
      this.f := f;
      currKs := seq(|itrs|, _ => None);
      currVs := seq(|itrs|, _ => 0);
      lowK, lowV, lowIdxs, mergeV := None, 0, [], [];
      left := [];
    }

    method Init()
      requires |currKs| == |currVs| == |itrs| && lowK == None
      requires forall i, j :: 0 <= i < j < |itrs| ==> itrs[i] != itrs[j]
      requires forall j :: 0 <= j < |itrs| ==> Usable(itrs[j])
      modifies this
      ensures Valid()
      ensures |left| == |itrs| && forall j :: 0 <= j < |itrs| ==> left[j] == Left(itrs[j])
    {
      hide Usable, Left, Heads, Lowest, KeyOf;
      left := seq(|itrs|, j requires 0 <= j < |itrs| reads this, itrs => Left(itrs[j]));
      ghost var ls := left;
      var i := 0;
      while i < |itrs|
        invariant 0 <= i <= |itrs| == |currKs| == |currVs|
        invariant lowK == None && left == ls
        invariant forall j :: 0 <= j < i ==> Heads(left[j], currKs[j], currVs[j]) && currKs[j] == KeyOf(itrs[j])
      {
        var k, v := Read(itrs[i]);
        currKs, currVs := currKs[i := k], currVs[i := v];
        i := i + 1;
      }
      UpdateMatches();
    }

    /** Finds the least of the current keys, and the value to give for it. */
    method UpdateMatches()
      requires UpToDate() && (|itrs| == 0 ==> lowK == None)
      modifies this`lowK, this`lowV, this`lowIdxs, this`mergeV
      ensures Valid()
    {
      hide Usable, Left, Heads, Less, KeyOf, Matches, LowAt, Lowest;
      if |itrs| < 1 {
        NoLow(currKs);
        LowHeads(f, left, currKs, currVs, None, lowV);
        return;
      }
      lowK := currKs[0];
      lowIdxs := [0];
      LowFirst(currKs);
      for i := 1 to |itrs|
        invariant LowAt(currKs, lowK, lowIdxs, i)
      {
        LowNext(currKs, lowK, lowIdxs, i);
        if currKs[i] == None {
          continue;
        }
        var cmp := Compare(currKs[i].value, if lowK == None then [] else lowK.value);
        if lowK == None || cmp < 0 {
          lowK := currKs[i];
          lowIdxs := [i];
        } else if cmp == 0 {
          lowIdxs := lowIdxs + [i];
        }
      }
      MergeValues();
    }

    /** The value for the key found: merged from several, or the only one. */
    method MergeValues()
      requires UpToDate() && LowAt(currKs, lowK, lowIdxs, |currKs|)
      modifies this`lowV, this`mergeV
      ensures Valid()
    {
      hide Usable, Left, Heads, Less, KeyOf, Matches, Lowest, Picked, Union, AllHead;
      if |lowIdxs| > 1 {
        mergeV := [];
        NothingPicked(currVs, []);
        assert lowIdxs[..0] == [];
        for t := 0 to |lowIdxs|
          invariant mergeV == Picked(currVs, lowIdxs[..t])
        {
          PickedSnoc(currVs, lowIdxs[..t], lowIdxs[t]);
          assert lowIdxs[..t + 1] == lowIdxs[..t] + [lowIdxs[t]];
          mergeV := mergeV + [currVs[lowIdxs[t]]];
        }
        assert lowIdxs[..|lowIdxs|] == lowIdxs;
        lowV := f(mergeV);
      } else if |lowIdxs| == 1 {
        lowV := currVs[lowIdxs[0]];
      }
      PickedLen(currVs, lowIdxs);
      LowHeads(f, left, currKs, currVs, lowK, lowV);
    }

    /** The least key left in any input, with its merged value. */
    method Current() returns (key: Option<Key>, val: U64)
      requires Valid()
      ensures key == lowK && Heads(Union(f, left), key, val)
    {
      return lowK, lowV;
    }

    /** Moves one input on and reads where it is now. */
    method AdvanceAt(vi: nat)
      requires UpToDate() && vi < |itrs| && currKs[vi].Some?
      modifies this`currKs, this`currVs, this`left, itrs[vi]
      ensures UpToDate() && |left| == old(|left|)
      ensures left == old(left)[vi := old(left)[vi] - {old(currKs)[vi].value}]
      ensures forall j :: 0 <= j < |itrs| && j != vi ==> currKs[j] == old(currKs)[j]
    {
      hide Usable, Left, Heads;
      ghost var k := currKs[vi].value;
      var _ := Advance(itrs[vi]);
      var key, val := Read(itrs[vi]);
      left := left[vi := Left(itrs[vi])];
      currKs, currVs := currKs[vi := key], currVs[vi := val];
    }

    /** Moves every input that is at the least key; false when nothing is left. */
    method Next() returns (ok: bool)
      requires Valid() && lowK.Some?
      modifies this, itrs
      ensures Valid()
      ensures Union(f, left) == old(Union(f, left)) - {old(lowK).value}
      ensures ok <==> lowK.Some?
    {
      hide Usable, Left, Heads, Less, KeyOf, Matches, Lowest, AllHead, Union;
      var t := 0;
      ghost var before, k, idxs, heads, vals := left, lowK.value, lowIdxs, currKs, currVs;
      AdvancedNone(before, k, idxs);
      MatchesAre(currKs, lowK, lowIdxs);
      while t < |lowIdxs|
        invariant 0 <= t <= |lowIdxs| && lowIdxs == idxs && UpToDate() && |left| == |before|
        invariant Advanced(before, left, k, idxs[..t])
        invariant forall u :: t <= u < |idxs| ==> currKs[idxs[u]] == Some(k)
      {
        ghost var was := left;
        AdvanceAt(lowIdxs[t]);
        AdvancedNext(before, was, left, k, idxs, t);
        t := t + 1;
      }
      AllAdvanced(f, before, left, k, heads, vals, idxs);
      UpdateMatches();
      ok := lowK.Some?;
    }
  }

  lemma MatchesAre(ks: seq<Option<Key>>, low: Option<Key>, idxs: seq<nat>)
    requires Lowest(ks, low, |ks|) && low.Some? && idxs == Matches(ks, low, |ks|)
    ensures |ks| > 0
    ensures forall u :: 0 <= u < |idxs| ==> idxs[u] < |ks| && ks[idxs[u]] == low
    ensures forall u, w :: 0 <= u < w < |idxs| ==> idxs[u] < idxs[w]
  {
  }

  /** The maps at the places listed have lost k; the others are as they were. */
  ghost predicate Advanced(before: seq<map<Key, U64>>, now: seq<map<Key, U64>>, k: Key, idxs: seq<nat>) {
    && |now| == |before|
    && forall j: nat :: j < |now| ==> now[j] == if j in idxs then before[j] - {k} else before[j]
  }

  /** After n keys: the least so far and where it is, or place 0 while there is none. */
  ghost predicate LowAt(ks: seq<Option<Key>>, low: Option<Key>, idxs: seq<nat>, n: nat)
    requires n <= |ks|
  {
    && Lowest(ks, low, n) && (forall j :: 0 <= j < |idxs| ==> idxs[j] < |ks|)
    && idxs != [] && (low.Some? ==> idxs == Matches(ks, low, n))
  }

  lemma AdvancedNone(before: seq<map<Key, U64>>, k: Key, idxs: seq<nat>)
    ensures Advanced(before, before, k, idxs[..0])
  {
  }

  lemma AdvancedNext(before: seq<map<Key, U64>>, was: seq<map<Key, U64>>, now: seq<map<Key, U64>>, k: Key,
    idxs: seq<nat>, t: nat)
    requires t < |idxs| && Advanced(before, was, k, idxs[..t]) && idxs[t] < |was|
    requires now == was[idxs[t] := was[idxs[t]] - {k}]
    ensures Advanced(before, now, k, idxs[..t + 1])
  {
    assert idxs[..t + 1] == idxs[..t] + [idxs[t]];
  }

  lemma AllAdvanced(f: MergeFunc, before: seq<map<Key, U64>>, now: seq<map<Key, U64>>, k: Key, ks: seq<Option<Key>>,
    vs: seq<U64>, idxs: seq<nat>)
    requires Advanced(before, now, k, idxs[..|idxs|]) && AllHead(before, ks, vs)
    requires Lowest(ks, Some(k), |ks|) && idxs == Matches(ks, Some(k), |ks|)
    ensures Union(f, now) == Union(f, before) - {k}
  {
    hide Union, Less;
    assert idxs[..|idxs|] == idxs;
    forall j | 0 <= j < |before| ensures now[j] == before[j] - {k} {
      HeadMatches(before[j], ks[j], vs[j], k);
    }
    UnionWithout(f, before, now, k);
  }

  lemma NoLow(ks: seq<Option<Key>>)
    ensures Lowest(ks, None, 0)
  {
  }

  lemma LowFirst(ks: seq<Option<Key>>)
    requires ks != []
    ensures LowAt(ks, ks[0], [0], 1)
  {
    assert Matches(ks, ks[0], 0) == [];
  }

  /** One more key: nothing, a new low, the low again, or above it. */
  lemma LowNext(ks: seq<Option<Key>>, low: Option<Key>, idxs: seq<nat>, i: nat)
    requires i < |ks| && LowAt(ks, low, idxs, i)
    ensures ks[i] == None ==> LowAt(ks, low, idxs, i + 1)
    ensures ks[i].Some? && low == None ==> LowAt(ks, ks[i], [i], i + 1)
    ensures ks[i].Some? && low.Some? && Less(ks[i].value, low.value) ==> LowAt(ks, ks[i], [i], i + 1)
    ensures low.Some? && ks[i] == low ==> LowAt(ks, low, idxs + [i], i + 1)
    ensures ks[i].Some? && low.Some? && Less(low.value, ks[i].value) ==> LowAt(ks, low, idxs, i + 1)
  {
    hide Less, LowAt, Lowest, Matches;
    if ks[i] == None {
      LowPast(ks, low, idxs, i);
    } else if low == None || Less(ks[i].value, low.value) {
      LowNew(ks, low, idxs, i);
      if low.Some? { Trichotomy(ks[i].value, low.value); }
    } else if ks[i] == low {
      LowAgain(ks, low, idxs, i);
      Trichotomy(low.value, low.value);
    } else {
      Trichotomy(ks[i].value, low.value);
      LowPast(ks, low, idxs, i);
    }
  }

  lemma LowPast(ks: seq<Option<Key>>, low: Option<Key>, idxs: seq<nat>, i: nat)
    requires i < |ks| && LowAt(ks, low, idxs, i)
    requires ks[i] == None || (low.Some? && Less(low.value, ks[i].value) && ks[i] != low)
    ensures LowAt(ks, low, idxs, i + 1)
  {
    hide Less, Matches;
    assert ks[..i + 1] == ks[..i] + [ks[i]];
    if low.Some? { MatchesPast(ks, low, i); }
  }

  lemma MatchesPast(ks: seq<Option<Key>>, low: Option<Key>, i: nat)
    requires i < |ks| && ks[i] != low
    ensures Matches(ks, low, i + 1) == Matches(ks, low, i)
  {
    assert Matches(ks, low, i) + [] == Matches(ks, low, i);
  }

  lemma LowAgain(ks: seq<Option<Key>>, low: Option<Key>, idxs: seq<nat>, i: nat)
    requires i < |ks| && LowAt(ks, low, idxs, i) && low.Some? && ks[i] == low
    ensures LowAt(ks, low, idxs + [i], i + 1)
  {
    hide Less;
    assert ks[..i + 1] == ks[..i] + [ks[i]];
  }

  lemma LowNew(ks: seq<Option<Key>>, low: Option<Key>, idxs: seq<nat>, i: nat)
    requires i < |ks| && LowAt(ks, low, idxs, i) && ks[i].Some?
    requires low == None || Less(ks[i].value, low.value)
    ensures LowAt(ks, ks[i], [i], i + 1)
  {
    hide Less, Matches;
    assert ks[..i + 1] == ks[..i] + [ks[i]];
    forall j | 0 <= j < i ensures ks[j] != ks[i] && (ks[j].Some? ==> Less(ks[i].value, ks[j].value)) {
      if low.Some? && ks[j].Some? {
        BelowAll(ks[i].value, low.value, ks[j].value);
      }
    }
    NoMatches(ks, ks[i], i);
    OnlyMatch(ks, i);
  }

  lemma BelowAll(a: Key, b: Key, c: Key)
    requires Less(a, b) && AtMost(b, c)
    ensures Less(a, c) && a != c
  {
    if Less(b, c) { LessTransitive(a, b, c); }
    Trichotomy(a, c);
  }

  lemma OnlyMatch(ks: seq<Option<Key>>, i: nat)
    requires i < |ks| && Matches(ks, ks[i], i) == []
    ensures Matches(ks, ks[i], i + 1) == [i]
  {
  }

  lemma {:induction false} NoMatches(ks: seq<Option<Key>>, k: Option<Key>, n: nat)
    requires n <= |ks| && forall j :: 0 <= j < n ==> ks[j] != k
    ensures Matches(ks, k, n) == []
  {
    if n > 0 { NoMatches(ks, k, n - 1); }
  }

  lemma {:induction false} PickedLen(vs: seq<U64>, idxs: seq<nat>)
    requires forall j :: 0 <= j < |idxs| ==> idxs[j] < |vs|
    ensures |Picked(vs, idxs)| == |idxs|
    ensures |idxs| == 1 ==> Picked(vs, idxs) == [vs[idxs[0]]]
  {
    if idxs != [] { PickedLen(vs, idxs[..|idxs| - 1]); }
  }
}
