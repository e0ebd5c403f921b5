/** index.go: identifiers numbered densely, in memory and in a table. */
module Indices {
  import opened Keys
  import opened Transducer
  import opened Bitmaps

  /** A UUID's 16 bytes. */
  type Uuid = u: seq<Byte> | |u| == 16 witness seq(16, _ => 0)

  const NIL: Uuid := seq(16, _ => 0)

  /** A row of graph_node_index. */
  datatype IndexRow = IndexRow(id: Uuid, idx: U32)

  /** What `GetOrAssign` leaves in the table: indices without gaps, each identifier once. */
  ghost predicate Dense(rows: seq<IndexRow>) {
    && |rows| <= U32_LIMIT
    && (forall i :: 0 <= i < |rows| ==> rows[i].idx == i)
    && (forall i, j :: 0 <= i < j < |rows| ==> rows[i].id != rows[j].id)
  }

  class IndexRegistry {
    var uuidToIdx: map<Uuid, U32>
    var idxToUUID: seq<Uuid>
    var nextIdx: U32
    /** The table, in the order of its indices. */
    var table: seq<IndexRow>

    /** The two lookups are inverse, and the table holds the same. */
    ghost predicate Valid()
      reads this
    {
      && |idxToUUID| <= U32_LIMIT && nextIdx == |idxToUUID| % U32_LIMIT
      && (forall id :: id in uuidToIdx ==> uuidToIdx[id] < |idxToUUID| && idxToUUID[uuidToIdx[id]] == id)
      && (forall i: U32 :: i < |idxToUUID| ==> idxToUUID[i] in uuidToIdx && uuidToIdx[idxToUUID[i]] == i)
      && |table| == |idxToUUID|
      && (forall i: U32 :: i < |table| ==> table[i] == IndexRow(idxToUUID[i], i))
    }

    constructor (rows: seq<IndexRow>)
      requires Dense(rows)
      ensures Valid() && table == rows
    {
      uuidToIdx, idxToUUID, nextIdx, table := map[], [], 0, rows;
      new;
      Load();
    }

    /** Reads the table into an empty registry, or once more into one that has read it. */
    method Load()
      requires Dense(table)
      requires (uuidToIdx == map[] && idxToUUID == []) || Valid()
      modifies this
      ensures Valid() && table == old(table)
      ensures old(Valid()) ==> uuidToIdx == old(uuidToIdx) && idxToUUID == old(idxToUUID)
    {
      var maxIdx := -1;
      ghost var again := idxToUUID != [];
      for n := 0 to |table|
        invariant table == old(table) && maxIdx == n - 1
        invariant again ==> uuidToIdx == old(uuidToIdx) && idxToUUID == old(idxToUUID)
        invariant !again ==> |idxToUUID| == n
        invariant n <= |idxToUUID| && forall i :: 0 <= i < n ==> idxToUUID[i] == table[i].id
        invariant !again ==> forall id :: id in uuidToIdx <==> exists i :: 0 <= i < n && table[i].id == id
        invariant forall i :: 0 <= i < n ==> table[i].id in uuidToIdx && uuidToIdx[table[i].id] == i
      {
        var row := table[n];
        uuidToIdx := uuidToIdx[row.id := row.idx];
        if row.idx >= |idxToUUID| {
          idxToUUID := idxToUUID + seq(row.idx + 1 - |idxToUUID|, _ => NIL);
        }
        idxToUUID := idxToUUID[row.idx := row.id];
        if row.idx > maxIdx {
          maxIdx := row.idx;
        }
      }
      nextIdx := (maxIdx + 1) % U32_LIMIT;
    }

    /** The index of id; a new one, at the end, is persisted first. */
    method GetOrAssign(id: Uuid) returns (idx: U32)
      requires Valid() && (id in uuidToIdx || |idxToUUID| < U32_LIMIT)
      modifies this
      ensures Valid() && id in uuidToIdx && idx == uuidToIdx[id]
      ensures id in old(uuidToIdx) ==> unchanged(this)
      ensures id !in old(uuidToIdx) ==>
        idxToUUID == old(idxToUUID) + [id] && uuidToIdx == old(uuidToIdx)[id := |old(idxToUUID)|]
    {
      if id in uuidToIdx {
        return uuidToIdx[id];
      }
      var newIdx := nextIdx;
      nextIdx := (nextIdx + 1) % U32_LIMIT;
      table := table + [IndexRow(id, newIdx)];
      uuidToIdx := uuidToIdx[id := newIdx];
      idxToUUID := idxToUUID + [id];
      return newIdx;
    }

    function Get(id: Uuid): Option<U32>
      reads this
    {
      if id in uuidToIdx then Some(uuidToIdx[id]) else None
    }

    function ReverseLookup(idx: U32): Option<Uuid>
      reads this
    {
      if idx >= |idxToUUID| then None else Some(idxToUUID[idx])
    }

    lemma LookupsInverse(id: Uuid, idx: U32)
      requires Valid()
      ensures Get(id) == Some(idx) <==> ReverseLookup(idx) == Some(id)
    {
      if idx < |idxToUUID| { assert idxToUUID[idx] in uuidToIdx; }
    }

    lemma AsManyIndices()
      requires Valid()
      ensures |uuidToIdx| == |idxToUUID|
    {
      forall i, j | 0 <= i < j < |idxToUUID| ensures idxToUUID[i] != idxToUUID[j] {
        assert uuidToIdx[idxToUUID[i]] == i && uuidToIdx[idxToUUID[j]] == j;
      }
      forall id | id in uuidToIdx ensures id in idxToUUID { assert idxToUUID[uuidToIdx[id]] == id; }
      DistinctCount(idxToUUID, uuidToIdx.Keys);
    }

    /** All indices, in no particular order: exactly the numbers below the count. */
    method AllIndices() returns (out: seq<U32>)
      requires Valid()
      ensures |out| == |idxToUUID| && forall i: U32 :: i in out <==> i < |idxToUUID|
      ensures forall i, j :: 0 <= i < j < |out| ==> out[i] != out[j]
    {
      out := [];
      var rest := uuidToIdx.Keys;
      while rest != {}
        invariant rest <= uuidToIdx.Keys && |out| + |rest| == |uuidToIdx|
        invariant forall id :: id in uuidToIdx ==> id in rest || uuidToIdx[id] in out
        invariant forall i :: 0 <= i < |out| ==> out[i] < |idxToUUID| && idxToUUID[out[i]] !in rest
        invariant forall i, j :: 0 <= i < j < |out| ==> out[i] != out[j]
        decreases |rest|
      {
        var id :| id in rest;
        out := out + [uuidToIdx[id]];
        rest := rest - {id};
      }
      AsManyIndices();
      forall i: U32 | i < |idxToUUID| ensures i in out { assert idxToUUID[i] in uuidToIdx; }
    }
  }

  lemma {:induction false} DistinctCount(ids: seq<Uuid>, s: set<Uuid>)
    requires forall i, j :: 0 <= i < j < |ids| ==> ids[i] != ids[j]
    requires forall id :: id in s <==> id in ids
    ensures |s| == |ids|
  {
    if ids == [] {
      assert s == {};
    } else {
      var last := ids[|ids| - 1];
      DistinctCount(ids[..|ids| - 1], s - {last});
    }
  }

  /** `canonical`: the two in a fixed order. */
  function Canonical(a: Uuid, b: Uuid): (Uuid, Uuid) {
    if Less(b, a) then (b, a) else (a, b)
  }

  /** The order of the arguments does not matter, and nothing but their order is lost. */
  lemma CanonicalPair(a: Uuid, b: Uuid)
    ensures Canonical(a, b) == Canonical(b, a)
    ensures Canonical(a, b) == (a, b) || Canonical(a, b) == (b, a)
    ensures Canonical(Canonical(a, b).0, Canonical(a, b).1) == Canonical(a, b)
  {
    Trichotomy(a, b);
  }

  lemma CanonicalInjective(a: Uuid, b: Uuid, c: Uuid, d: Uuid)
    ensures Canonical(a, b) == Canonical(c, d) <==> (a == c && b == d) || (a == d && b == c)
  {
    CanonicalPair(a, b);
    CanonicalPair(c, d);
  }

  /** The comparison loop. */
  method CanonicalOf(a: Uuid, b: Uuid) returns (x: Uuid, y: Uuid)
    ensures (x, y) == Canonical(a, b)
  {
    Trichotomy(a, b);
    for i := 0 to 16
      invariant a[..i] == b[..i]
    {
      if a[i] < b[i] {
        LessAt(a, b, i);
        return a, b;
      }
      if a[i] > b[i] {
        LessAt(b, a, i);
        return b, a;
      }
    }
    assert a[..16] == a && b[..16] == b;
    return a, b;
  }
}
