/** cache.go: edges kept once each in a flat slice, found by their unordered pair of indices. */
module EdgeSlabs {
  import opened Keys
  import opened Transducer
  import opened Bitmaps
  import opened Indices

  /** Edge data is JSON text. */
  datatype Edge = Edge(source: Uuid, target: Uuid, weight: int, attributes: map<string, string>, data: Option<string>)

  const ZERO_EDGE: Edge := Edge(NIL, NIL, 0, map[], None)

  /** `edgeKey`: the lesser index in the high half, the greater in the low half. */
  function EdgeKey(u: U32, v: U32): U64 {
    if u <= v then u * U32_LIMIT + v else v * U32_LIMIT + u
  }

  lemma EdgeKeyInjective(a: U32, b: U32, c: U32, d: U32)
    ensures EdgeKey(a, b) == EdgeKey(c, d) <==> (a == c && b == d) || (a == d && b == c)
  {
  }

  /** A pair of indices a key may be of, in ascending order. */
  function KeyEnds(k: U64): (U32, U32) {
    (k / U32_LIMIT, k % U32_LIMIT)
  }

  lemma KeyEndsOf(u: U32, v: U32)
    ensures KeyEnds(EdgeKey(u, v)) == if u <= v then (u, v) else (v, u)
  {
  }

  class EdgeSlab {
    var edges: seq<Edge>
    var lookup: map<U64, U32>

    /** Every key has a slot of its own; slots without a key are dead. */
    ghost predicate Valid()
      reads this
    {
      && |edges| <= U32_LIMIT
      && (forall k :: k in lookup ==> lookup[k] < |edges|)
      && (forall k, l :: k in lookup && l in lookup && lookup[k] == lookup[l] ==> k == l)
    }

    ghost function Contents(): map<U64, Edge>
      reads this
      requires Valid()
    {
      map k | k in lookup :: edges[lookup[k]]
    }

    constructor ()
      ensures Valid() && Contents() == map[] && edges == []
    {
      edges, lookup := [], map[];
    }

    method Put(u: U32, v: U32, edge: Edge) returns (idx: U32)
      requires Valid() && (EdgeKey(u, v) in lookup || |edges| < U32_LIMIT)
      modifies this
      ensures Valid() && Contents() == old(Contents())[EdgeKey(u, v) := edge]
      ensures |edges| <= old(|edges|) + 1
    {
      var key := EdgeKey(u, v);
      if key in lookup {
        edges := edges[lookup[key] := edge];
        return lookup[key];
      }
      idx := |edges|;
      edges := edges + [edge];
      lookup := lookup[key := idx];
    }

    method Get(u: U32, v: U32) returns (r: Option<Edge>)
      requires Valid()
      ensures r == if EdgeKey(u, v) in Contents() then Some(Contents()[EdgeKey(u, v)]) else None
    {
      var key := EdgeKey(u, v);
      if key !in lookup {
        return None;
      }
      return Some(edges[lookup[key]]);
    }

    /** Leaves a dead slot behind. */
    method Remove(u: U32, v: U32) returns (ok: bool)
      requires Valid()
      modifies this
      ensures Valid() && Contents() == old(Contents()) - {EdgeKey(u, v)}
      ensures ok <==> EdgeKey(u, v) in old(Contents())
      ensures |edges| == old(|edges|)
    {
      var key := EdgeKey(u, v);
      if key !in lookup {
        return false;
      }
      edges := edges[lookup[key] := ZERO_EDGE];
      lookup := lookup - {key};
      return true;
    }

    /** The number of live edges, however many slots are dead. */
    method Len() returns (n: nat)
      requires Valid()
      ensures n == |Contents()|
    {
      assert Contents().Keys == lookup.Keys;
      n := |lookup|;
    }
  }
}
