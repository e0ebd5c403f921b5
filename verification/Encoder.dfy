/** writer.go and encoder_v1.go: states appended to a growing buffer. */
module Encoder {
  import opened Keys
  import opened Packing
  import opened CommonInputs
  import opened Transducer
  import opened StateBytes
  import opened Sequences

  const VERSION_V1: nat := 1

  function HeaderBytes(): (bs: seq<Byte>)
    ensures |bs| == HEADER_SIZE
  {
    PackedBytes(VERSION_V1, 8) + PackedBytes(0, 8)
  }

  function FooterBytes(count: nat, rootAddr: nat): (bs: seq<Byte>)
    ensures |bs| == 16
  {
    PackedBytes(count, 8) + PackedBytes(rootAddr, 8)
  }

  /** The counting writer; its buffer is everything written so far. */
  class Writer {
    var buf: seq<Byte>
    var counter: nat

    predicate Valid()
      reads this
    {
      counter == |buf|
    }

    constructor ()
      ensures Valid() && buf == []
    {
      buf, counter := [], 0;
    }

    method WriteByte(c: Byte)
      requires Valid()
      modifies this
      ensures Valid() && buf == old(buf) + [c]
    {
      buf := buf + [c];
      counter := counter + 1;
    }

    method Write(p: seq<Byte>)
      requires Valid()
      modifies this
      ensures Valid() && buf == old(buf) + p
    {
      buf := buf + p;
      counter := counter + |p|;
    }

    method WritePackedUintIn(v: nat, n: nat)
      requires Valid()
      modifies this
      ensures Valid() && buf == old(buf) + PackedBytes(v, n)
    {
      var rest := v;
      for i := 0 to n
        invariant Valid()
        invariant buf + PackedBytes(rest, n - i) == old(buf) + PackedBytes(v, n)
      {
        ghost var before := buf;
        WriteByte(rest % 256);
        Concat(before, [rest % 256], PackedBytes(rest / 256, n - i - 1));
        rest := rest / 256;
      }
    }
  }

  class EncoderV1 {
    const bw: Writer

    constructor (w: Writer)
      ensures bw == w
    {
      bw := w;
    }

    method Start()
      requires bw.Valid()
      modifies bw
      ensures bw.Valid() && bw.buf == old(bw.buf) + HeaderBytes()
    {
      bw.Write(HeaderBytes());
    }

    /**
     * Appends the encoding of s and answers the address of its last byte, or 0 for the state that
     * is never written. The caller's lastAddr has to tell the state ending just before the buffer's end.
     */
    method EncodeState(s: State, lastAddr: nat) returns (addr: nat)
      requires bw.Valid() && WellFormed(s) && Earlier(s, bw.counter)
      requires forall i :: 0 <= i < |s.trans| ==>
        (s.trans[i].addr == lastAddr <==> s.trans[i].addr == bw.counter - 1)
      modifies bw
      ensures bw.Valid()
      ensures s == FINAL_STATE ==> addr == EMPTY_ADDR && bw.buf == old(bw.buf)
      ensures s != FINAL_STATE ==>
        addr == |bw.buf| - 1 && bw.buf == old(bw.buf) + EncodedState(s, old(|bw.buf|))
    {
      AtMost256(s);
      if |s.trans| == 0 && s.final && s.finalOutput == 0 {
        return EMPTY_ADDR;
      } else if |s.trans| != 1 || s.final {
        addr := EncodeStateMany(s);
      } else if !s.final && s.trans[0].out == 0 && s.trans[0].addr == lastAddr {
        addr := EncodeStateOneFinish(s, TRANSITION_NEXT);
      } else {
        addr := EncodeStateOne(s);
      }
    }

    method EncodeStateOne(s: State) returns (addr: nat)
      requires bw.Valid() && |s.trans| == 1 && s.trans[0].addr <= bw.counter
      modifies bw
      ensures bw.Valid() && addr == |bw.buf| - 1
      ensures bw.buf == old(bw.buf) + OneBytes(s.trans[0], old(|bw.buf|))
    {
      var start := bw.counter;
      var outPackSize := 0;
      if s.trans[0].out != 0 {
        outPackSize := PackedSize(s.trans[0].out);
        bw.WritePackedUintIn(s.trans[0].out, outPackSize);
      }
      assert bw.buf == old(bw.buf) + PackedBytes(s.trans[0].out, outPackSize);
      var delta := DeltaAddr(start, s.trans[0].addr);
      var transPackSize := PackedSize(delta);
      bw.WritePackedUintIn(delta, transPackSize);
      bw.WriteByte(EncodePackSize(transPackSize, outPackSize));
      addr := EncodeStateOneFinish(s, 0);
    }

    method EncodeStateOneFinish(s: State, next: Byte) returns (addr: nat)
      requires bw.Valid() && |s.trans| == 1
      requires next == 0 || next == TRANSITION_NEXT
      modifies bw
      ensures bw.Valid() && addr == |bw.buf| - 1
      ensures bw.buf == old(bw.buf) + FinishBytes(s.trans[0].input, next)
    {
      var enc := EncodeCommon(s.trans[0].input);
      if enc == 0 {
        bw.WriteByte(s.trans[0].input);
      }
      bw.WriteByte(ONE_TRANSITION + next + enc);
      return bw.counter - 1;
    }

    method EncodeStateMany(s: State) returns (addr: nat)
      requires bw.Valid() && |s.trans| <= 256
      requires forall i :: 0 <= i < |s.trans| ==> s.trans[i].addr <= bw.counter
      modifies bw
      ensures bw.Valid() && addr == |bw.buf| - 1
      ensures bw.buf == old(bw.buf) + ManyBytes(s, old(|bw.buf|))
    {
      var start := bw.counter;
      ghost var outs, deltas := Outs(s.trans), Deltas(s.trans, start);
      var transPackSize, outPackSize, anyOutputs := ManySizes(s, start);
      if anyOutputs {
        if s.final {
          bw.WritePackedUintIn(s.finalOutput, outPackSize);
        }
        assert bw.buf == old(bw.buf) + FinalBytes(s);
        WriteReversed(outs, s, start, false, outPackSize);
      } else {
        NoBytesInZeroSize(s);
      }
      assert bw.buf == old(bw.buf) + FinalBytes(s) + Fields(outs, OutSize(s));
      WriteReversed(deltas, s, start, true, transPackSize);
      WriteKeysReversed(s);
      bw.WriteByte(EncodePackSize(transPackSize, outPackSize));
      WriteManyHeader(s);
      ConcatFromOld(old(bw.buf), FinalBytes(s), Fields(outs, OutSize(s)), Fields(deltas, transPackSize),
        KeyBytes(s.trans), [EncodePackSize(transPackSize, outPackSize)], CountBytes(|s.trans|), [ManyHeader(s)]);
      return bw.counter - 1;
    }

    /** The first loop of encodeStateMany: how wide its destination and output fields have to be. */
    method ManySizes(s: State, start: nat) returns (transPackSize: nat, outPackSize: nat, anyOutputs: bool)
      requires forall i :: 0 <= i < |s.trans| ==> s.trans[i].addr <= start
      ensures transPackSize == SizeFor(Deltas(s.trans, start), 0)
      ensures outPackSize == OutSize(s) && anyOutputs == AnyOutputs(s)
    {
      hide PackedSize, Pow256, SizeFor;
      ghost var outs, deltas := Outs(s.trans), Deltas(s.trans, start);
      NoSizes(deltas, outs, PackedSize(s.finalOutput));
      transPackSize := 0;
      outPackSize := PackedSize(s.finalOutput);
      anyOutputs := s.finalOutput != 0;
      for i := 0 to |s.trans|
        invariant transPackSize == SizeFor(deltas[..i], 0)
        invariant outPackSize == SizeFor(outs[..i], PackedSize(s.finalOutput))
        invariant anyOutputs <==> s.finalOutput != 0 || exists j :: 0 <= j < i && s.trans[j].out != 0
      {
        SizeForSnoc(deltas, i, 0);
        SizeForSnoc(outs, i, PackedSize(s.finalOutput));
        var delta := DeltaAddr(start, s.trans[i].addr);
        var tsize := PackedSize(delta);
        if tsize > transPackSize {
          transPackSize := tsize;
        }
        var osize := PackedSize(s.trans[i].out);
        if osize > outPackSize {
          outPackSize := osize;
        }
        anyOutputs := anyOutputs || s.trans[i].out != 0;
      }
      assert deltas[..|s.trans|] == deltas && outs[..|s.trans|] == outs;
      if !anyOutputs {
        outPackSize := 0;
      }
    }

    /** The end of encodeStateMany: the count, when it does not fit the header, and the header. */
    method WriteManyHeader(s: State)
      requires bw.Valid() && |s.trans| <= 256
      modifies bw
      ensures bw.Valid() && bw.buf == old(bw.buf) + (CountBytes(|s.trans|) + [ManyHeader(s)])
    {
      var numTrans := EncodeNumTrans(|s.trans|);
      if numTrans == 0 {
        if |s.trans| == 256 {
          bw.WriteByte(1);
        } else {
          bw.WriteByte(|s.trans|);
        }
      }
      if s.final {
        numTrans := numTrans + STATE_FINAL;
      }
      bw.WriteByte(numTrans);
    }

    /** The two loops of encodeStateMany that pack outputs or destinations, last transition first. */
    method WriteReversed(ghost vals: seq<nat>, s: State, start: nat, dests: bool, sz: nat)
      requires bw.Valid()
      requires forall i :: 0 <= i < |s.trans| ==> s.trans[i].addr <= start
      requires vals == if dests then Deltas(s.trans, start) else Outs(s.trans)
      modifies bw
      ensures bw.Valid() && bw.buf == old(bw.buf) + Fields(vals, sz)
    {
      var j := |s.trans|;
      assert vals[..j] == vals;
      while j > 0
        invariant 0 <= j <= |s.trans| && bw.Valid()
        invariant bw.buf + Fields(vals[..j], sz) == old(bw.buf) + Fields(vals, sz)
      {
        j := j - 1;
        ghost var before := bw.buf;
        var v := if dests then DeltaAddr(start, s.trans[j].addr) else s.trans[j].out;
        assert vals[..j + 1][..j] == vals[..j];
        bw.WritePackedUintIn(v, sz);
        Concat(before, PackedBytes(v, sz), Fields(vals[..j], sz));
      }
    }

    method WriteKeysReversed(s: State)
      requires bw.Valid()
      modifies bw
      ensures bw.Valid() && bw.buf == old(bw.buf) + KeyBytes(s.trans)
    {
      ghost var keys := KeyBytes(s.trans);
      var j := |s.trans|;
      while j > 0
        invariant 0 <= j <= |s.trans| && bw.Valid()
        invariant bw.buf == old(bw.buf) + keys[..|s.trans| - j]
      {
        j := j - 1;
        bw.WriteByte(s.trans[j].input);
        assert keys[..|s.trans| - j] == keys[..|s.trans| - j - 1] + [s.trans[j].input];
      }
      assert keys[..|s.trans|] == keys;
    }

    method Finish(count: nat, rootAddr: nat)
      requires bw.Valid()
      modifies bw
      ensures bw.Valid() && bw.buf == old(bw.buf) + FooterBytes(count, rootAddr)
    {
      bw.Write(FooterBytes(count, rootAddr));
    }
  }

  lemma ConcatFromOld<T>(o: seq<T>, a: seq<T>, b: seq<T>, c: seq<T>, d: seq<T>, e: seq<T>, f: seq<T>, h: seq<T>)
    ensures o + a + b + c + d + e + (f + h) == o + (a + b + c + d + e + f + h)
    ensures o + a + b + c + d + e + f + h == o + (a + b + c + d + e + f + h)
  {
    Concat(o, a, b);
    Concat(o, a + b, c);
    Concat(o, a + b + c, d);
    Concat(o, a + b + c + d, e);
    Concat(o, a + b + c + d + e, f);
    Concat(o, a + b + c + d + e + f, h);
    Concat(o + a + b + c + d + e, f, h);
  }

  lemma NoSizes(deltas: seq<nat>, outs: seq<nat>, base: nat)
    requires base <= 8
    ensures SizeFor(deltas[..0], 0) == 0 && SizeFor(outs[..0], base) == base
  {
  }

  lemma {:induction false} FieldsOfNoBytes(vals: seq<nat>)
    ensures Fields(vals, 0) == []
  {
    if vals != [] { FieldsOfNoBytes(vals[..|vals| - 1]); }
  }

  lemma NoBytesInZeroSize(s: State)
    requires OutSize(s) == 0
    ensures FinalBytes(s) == [] && Fields(Outs(s.trans), OutSize(s)) == []
  {
    FieldsOfNoBytes(Outs(s.trans));
  }
}
