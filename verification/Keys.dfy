/** Byte strings and the order `bytes.Compare` puts on them. */
module Keys {

  type Byte = x: int | 0 <= x < 256
  type Key = seq<Byte>

  const U64_LIMIT: nat := 0x1_0000_0000_0000_0000

  type U64 = x: int | 0 <= x < 0x1_0000_0000_0000_0000

  /** A Go slice never holds more bytes than an int can count. */
  const SLICE_LIMIT: nat := 0x8000_0000_0000_0000

  /** Length of the longest common prefix. */
  function CommonLen(a: Key, b: Key): (p: nat)
    ensures p <= |a| && p <= |b|
    ensures forall i :: 0 <= i < p ==> a[i] == b[i]
    ensures p < |a| && p < |b| ==> a[p] != b[p]
  {
    if a == [] || b == [] || a[0] != b[0] then 0
    else
      var p := CommonLen(a[1..], b[1..]);
      assert forall i :: 1 <= i < p + 1 ==> a[i] == a[1..][i - 1] && b[i] == b[1..][i - 1];
      1 + p
  }

  /** `bytes.Compare(a, b) < 0`. */
  predicate Less(a: Key, b: Key) {
    var p := CommonLen(a, b);
    p < |b| && (p == |a| || a[p] < b[p])
  }

  predicate AtMost(a: Key, b: Key) {
    a == b || Less(a, b)
  }

  /** `bytes.Compare`, whose sign is all its callers look at. */
  function Compare(a: Key, b: Key): (c: int)
    ensures c < 0 <==> Less(a, b)
    ensures c == 0 <==> a == b
    ensures c > 0 <==> Less(b, a)
  {
    Trichotomy(a, b);
    if a == b then 0 else if Less(a, b) then -1 else 1
  }

  /** The position where two keys part company determines how they compare. */
  lemma CommonLenUnique(a: Key, b: Key, p: nat)
    requires p <= |a| && p <= |b|
    requires a[..p] == b[..p]
    requires p == |a| || p == |b| || a[p] != b[p]
    ensures CommonLen(a, b) == p
  {
    var q := CommonLen(a, b);
    assert forall i :: 0 <= i < p ==> a[i] == a[..p][i] == b[..p][i] == b[i];
  }

  lemma LessAt(a: Key, b: Key, p: nat)
    requires p <= |a| && p < |b|
    requires a[..p] == b[..p]
    requires p == |a| || a[p] < b[p]
    ensures Less(a, b)
  {
    CommonLenUnique(a, b, p);
  }

  lemma CommonLenSymmetric(a: Key, b: Key)
    ensures CommonLen(a, b) == CommonLen(b, a)
  {
    var p := CommonLen(b, a);
    assert a[..p] == b[..p];
    CommonLenUnique(a, b, p);
  }

  lemma Trichotomy(a: Key, b: Key)
    ensures a == b || Less(a, b) || Less(b, a)
    ensures !(Less(a, b) && Less(b, a))
    ensures !Less(a, a)
  {
    CommonLenSymmetric(a, b);
    var p := CommonLen(a, b);
    if p == |a| && p == |b| {
      assert a == b;
    }
    CommonLenUnique(a, a, |a|);
  }

  lemma LessTransitive(a: Key, b: Key, c: Key)
    requires Less(a, b) && Less(b, c)
    ensures Less(a, c)
  {
    var p, q := CommonLen(a, b), CommonLen(b, c);
    var r := if p < q then p else q;
    assert a[..r] == c[..r] by {
      forall i | 0 <= i < r ensures a[i] == c[i] { assert a[i] == b[i]; }
    }
    LessAt(a, c, r);
  }

  lemma EmptyIsLeast(a: Key)
    ensures AtMost([], a)
    ensures !Less(a, [])
  {
  }
}
