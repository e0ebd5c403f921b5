/** Little-endian integers of a chosen width, and the size codes of pack.go and writer.go. */
module Packing {
  import opened Keys

  function Pow256(n: nat): (r: nat)
    ensures r >= 1
  {
    if n == 0 then 1 else 256 * Pow256(n - 1)
  }

  lemma Pow256Table()
    ensures Pow256(0) == 1 && Pow256(1) == 0x100 && Pow256(2) == 0x1_0000
    ensures Pow256(3) == 0x100_0000 && Pow256(4) == 0x1_0000_0000
    ensures Pow256(5) == 0x100_0000_0000 && Pow256(6) == 0x1_0000_0000_0000
    ensures Pow256(7) == 0x100_0000_0000_0000 && Pow256(8) == 0x1_0000_0000_0000_0000
  {
    assert Pow256(2) == 256 * Pow256(1);
    assert Pow256(4) == 256 * Pow256(3);
    assert Pow256(6) == 256 * Pow256(5);
    assert Pow256(8) == 256 * Pow256(7);
  }

  lemma Pow256Monotone(m: nat, n: nat)
    requires m <= n
    ensures Pow256(m) <= Pow256(n)
    decreases n
  {
    if m < n { Pow256Monotone(m, n - 1); }
  }

  /** The number of bytes writer.go gives to a value: the least that holds it, at most eight. */
  function PackedSize(n: nat): (k: nat)
    ensures 1 <= k <= 8
  {
    if n < 0x100 then 1
    else if n < 0x1_0000 then 2
    else if n < 0x100_0000 then 3
    else if n < 0x1_0000_0000 then 4
    else if n < 0x100_0000_0000 then 5
    else if n < 0x1_0000_0000_0000 then 6
    else if n < 0x100_0000_0000_0000 then 7
    else 8
  }

  /** A packed size is large enough, and no larger than needed. */
  lemma PackedSizeLeast(n: U64)
    ensures n < Pow256(PackedSize(n))
    ensures PackedSize(n) > 1 ==> n >= Pow256(PackedSize(n) - 1)
  {
    Pow256Table();
  }

  /** The bytes `WritePackedUintIn(v, n)` emits. */
  function PackedBytes(v: nat, n: nat): (bs: seq<Byte>)
    ensures |bs| == n
  {
    if n == 0 then [] else [v % 256] + PackedBytes(v / 256, n - 1)
  }

  /** The number a little-endian byte string stands for. */
  function PackedValue(bs: seq<Byte>): (v: nat)
    ensures v < Pow256(|bs|)
  {
    if bs == [] then 0 else bs[0] + 256 * PackedValue(bs[1..])
  }

  lemma {:induction false} PackedRoundTrip(v: nat, n: nat)
    requires v < Pow256(n)
    ensures PackedValue(PackedBytes(v, n)) == v
  {
    if n > 0 {
      assert v / 256 < Pow256(n - 1);
      PackedRoundTrip(v / 256, n - 1);
      assert PackedBytes(v, n)[1..] == PackedBytes(v / 256, n - 1);
    }
  }

  lemma FirstByte(b: Byte, v: nat)
    ensures (b + 256 * v) % 256 == b && (b + 256 * v) / 256 == v
  {
  }

  /** Any byte string is what its own value packs to, so packing loses no bytes either. */
  lemma {:induction false} UnpackedRoundTrip(bs: seq<Byte>)
    ensures PackedBytes(PackedValue(bs), |bs|) == bs
  {
    if bs != [] {
      UnpackedRoundTrip(bs[1..]);
      FirstByte(bs[0], PackedValue(bs[1..]));
      assert bs == [bs[0]] + bs[1..];
    }
  }

  lemma {:induction false} PackedValueSnoc(bs: seq<Byte>, b: Byte)
    ensures PackedValue(bs + [b]) == PackedValue(bs) + b * Pow256(|bs|)
  {
    if bs == [] {
      assert [b][1..] == [];
    } else {
      assert (bs + [b])[1..] == bs[1..] + [b];
      PackedValueSnoc(bs[1..], b);
      assert 256 * (b * Pow256(|bs| - 1)) == b * Pow256(|bs|);
    }
  }

  /**
   * `readPackedUint`. A shift of 64 bits or more leaves nothing in a uint64, so only the
   * first eight bytes count; the bits or-ed in at one step are all above those already there.
   */
  method ReadPackedUint(data: seq<Byte>) returns (rv: U64)
    ensures rv == PackedValue(if |data| <= 8 then data else data[..8])
  {
    Pow256Table();
    rv := 0;
    for i := 0 to |data|
      invariant rv == PackedValue(if i <= 8 then data[..i] else data[..8])
    {
      if i < 8 {
        assert data[..i + 1] == data[..i] + [data[i]];
        PackedValueSnoc(data[..i], data[i]);
        Pow256Monotone(i + 1, 8);
        rv := rv + data[i] * Pow256(i);
      }
    }
    assert data[..|data|] == data;
  }

  /** Distance back to a destination; 0 is kept for the empty final state. */
  function DeltaAddr(base: nat, trans: nat): (d: int)
    requires trans <= base
    ensures 0 <= d <= base
  {
    if trans == 0 then 0 else base - trans
  }

  /** Two sizes of at most eight share one byte, four bits each. */
  function EncodePackSize(transSize: nat, outSize: nat): (b: Byte)
    requires transSize <= 8 && outSize <= 8
    ensures DecodePackSize(b) == (transSize, outSize)
  {
    transSize * 16 + outSize
  }

  function DecodePackSize(pack: Byte): (r: (nat, nat)) {
    (pack / 16, pack % 16)
  }

  const MAX_NUM_TRANS: nat := 63

  /** The transition count when it fits the low six bits of a state's header, and 0 otherwise. */
  function EncodeNumTrans(n: nat): (b: Byte) {
    if n <= MAX_NUM_TRANS then n else 0
  }
}
