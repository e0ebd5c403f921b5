/** What a union of maps holds, key by key. */
module MergedValues {
  import opened Keys
  import opened FstFile
  import opened Merging
  import Uniqueness

  /** The ascending places of exactly the maps that hold k. */
  ghost predicate Holders(ms: seq<map<Key, U64>>, k: Key, idxs: seq<nat>) {
    && (forall i, j :: 0 <= i < j < |idxs| ==> idxs[i] < idxs[j])
    && (forall j: nat :: j in idxs <==> j < |ms| && k in ms[j])
  }

  /** The values found at the places, one after the other. */
  ghost predicate Found(ms: seq<map<Key, U64>>, k: Key, idxs: seq<nat>, vs: seq<U64>) {
    |vs| == |idxs| && forall t :: 0 <= t < |idxs| ==> idxs[t] < |ms| && k in ms[idxs[t]] && vs[t] == ms[idxs[t]][k]
  }

  /** A key with one value keeps it, and one with several gets what f makes of them, from the first map to the last. */
  ghost predicate MergedFrom(f: MergeFunc, ms: seq<map<Key, U64>>, m: map<Key, U64>) {
    forall k: Key, idxs: seq<nat>, vs: seq<U64> :: Holders(ms, k, idxs) && Found(ms, k, idxs, vs) ==>
      (k in m <==> |idxs| > 0) && (|idxs| == 1 ==> m[k] == vs[0]) && (|idxs| > 1 ==> m[k] == f(vs))
  }

  lemma LastHolder(ms: seq<map<Key, U64>>, k: Key, idxs: seq<nat>)
    requires ms != [] && Holders(ms, k, idxs)
    ensures var n := |ms| - 1;
      if k in ms[n] then idxs != [] && idxs[|idxs| - 1] == n && Holders(ms[..n], k, idxs[..|idxs| - 1])
      else Holders(ms[..n], k, idxs)
  {
    var n: nat := |ms| - 1;
    if k in ms[n] {
      assert n in idxs;
      var t :| 0 <= t < |idxs| && idxs[t] == n;
      assert idxs[|idxs| - 1] in idxs;
      forall j: nat | j in idxs && j < n ensures j in idxs[..t] {
        var i :| 0 <= i < |idxs| && idxs[i] == j;
        assert idxs[..t][i] == j;
      }
    }
  }

  lemma HolderIn(ms: seq<map<Key, U64>>, k: Key, idxs: seq<nat>, t: nat)
    requires Holders(ms, k, idxs) && t < |idxs|
    ensures idxs[t] < |ms|
  {
    assert idxs[t] in idxs;
  }

  lemma NoHolders(k: Key, idxs: seq<nat>)
    requires Holders([], k, idxs)
    ensures idxs == []
  {
    hide Holders;
    if idxs != [] { HolderIn([], k, idxs, 0); }
  }

  lemma {:induction false} ValuesFound(ms: seq<map<Key, U64>>, k: Key, idxs: seq<nat>, vs: seq<U64>)
    requires Holders(ms, k, idxs) && Found(ms, k, idxs, vs)
    ensures Values(ms, k) == vs
  {
    hide Holders;
    if ms == [] {
      assert idxs == [] by { NoHolders(k, idxs); }
    } else {
      var n: nat := |ms| - 1;
      LastHolder(ms, k, idxs);
      var t: nat := if k in ms[n] then |idxs| - 1 else |idxs|;
      assert |idxs| == |vs| && idxs[..|idxs|] == idxs && vs[..|vs|] == vs;
      EarlierFound(ms, k, idxs, vs, t);
      ValuesFound(ms[..n], k, idxs[..t], vs[..t]);
      assert k in ms[n] ==> vs[..t] + [ms[n][k]] == vs;
    }
  }

  lemma EarlierFound(ms: seq<map<Key, U64>>, k: Key, idxs: seq<nat>, vs: seq<U64>, t: nat)
    requires ms != [] && Found(ms, k, idxs, vs) && t <= |idxs| && Holders(ms[..|ms| - 1], k, idxs[..t])
    ensures Found(ms[..|ms| - 1], k, idxs[..t], vs[..t])
  {
    forall i | 0 <= i < t ensures idxs[i] < |ms| - 1 { assert idxs[..t][i] in idxs[..t]; }
  }

  lemma {:induction false} HoldersExist(ms: seq<map<Key, U64>>, k: Key) returns (idxs: seq<nat>, vs: seq<U64>)
    ensures Holders(ms, k, idxs) && Found(ms, k, idxs, vs)
  {
    if ms == [] {
      idxs, vs := [], [];
    } else {
      var n: nat := |ms| - 1;
      idxs, vs := HoldersExist(ms[..n], k);
      assert forall j :: j in idxs ==> j < n;
      if k in ms[n] {
        idxs, vs := idxs + [n], vs + [ms[n][k]];
      }
    }
  }

  /** The union is that map, and no other map is. */
  lemma UnionMerged(f: MergeFunc, ms: seq<map<Key, U64>>, m: map<Key, U64>)
    ensures MergedFrom(f, ms, m) <==> m == Union(f, ms)
  {
    hide Holders, Found, Values;
    var u := Union(f, ms);
    forall k, idxs, vs | Holders(ms, k, idxs) && Found(ms, k, idxs, vs)
      ensures Values(ms, k) == vs && |vs| == |idxs|
    {
      ValuesFound(ms, k, idxs, vs);
      FoundAll(ms, k, idxs, vs);
    }
    if MergedFrom(f, ms, m) {
      forall k ensures (k in m <==> k in u) && (k in m ==> m[k] == u[k]) {
        var idxs, vs := HoldersExist(ms, k);
      }
    }
  }

  lemma FoundAll(ms: seq<map<Key, U64>>, k: Key, idxs: seq<nat>, vs: seq<U64>)
    requires Found(ms, k, idxs, vs)
    ensures |vs| == |idxs|
  {
  }

  /** k is in the maps i and j and in no other. */
  ghost predicate InTwo(ms: seq<map<Key, U64>>, k: Key, i: nat, j: nat) {
    && i < j < |ms| && k in ms[i] && k in ms[j]
    && forall l :: 0 <= l < |ms| && k in ms[l] ==> l == i || l == j
  }

  /** f is given the value of the earlier map first. */
  lemma MergedFromTwo(f: MergeFunc, ms: seq<map<Key, U64>>, m: map<Key, U64>, k: Key, i: nat, j: nat)
    requires MergedFrom(f, ms, m) && InTwo(ms, k, i, j)
    ensures k in m && m[k] == f([ms[i][k], ms[j][k]])
  {
    assert Holders(ms, k, [i, j]);
    assert Found(ms, k, [i, j], [ms[i][k], ms[j][k]]);
  }

  /** A key in exactly one of the maps. */
  lemma MergedFromOne(f: MergeFunc, ms: seq<map<Key, U64>>, m: map<Key, U64>, k: Key, i: nat)
    requires MergedFrom(f, ms, m) && i < |ms| && k in ms[i]
    requires forall l :: 0 <= l < |ms| && k in ms[l] ==> l == i
    ensures k in m && m[k] == ms[i][k]
  {
    assert Holders(ms, k, [i]);
    assert Found(ms, k, [i], [ms[i][k]]);
  }

  /** What the bytes of a union say of each key. */
  lemma UnionRead(data: seq<Byte>, f: MergeFunc, ms: seq<map<Key, U64>>)
    requires Represents(data, Union(f, ms)) && |data| < SLICE_LIMIT
    ensures forall m :: Represents(data, m) ==> MergedFrom(f, ms, m)
    ensures forall m, k: Key, i: nat, j: nat :: Represents(data, m) && InTwo(ms, k, i, j) ==>
      k in m && m[k] == f([ms[i][k], ms[j][k]])
  {
    hide Represents, Union, MergedFrom;
    var u := Union(f, ms);
    UnionMerged(f, ms, u);
    forall m | Represents(data, m) ensures m == u { Uniqueness.MeaningUnique(data, m, u); }
    forall k: Key, i: nat, j: nat | InTwo(ms, k, i, j) ensures k in u && u[k] == f([ms[i][k], ms[j][k]]) {
      MergedFromTwo(f, ms, u, k, i, j);
    }
  }
}
