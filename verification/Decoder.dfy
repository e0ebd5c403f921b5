/**
 * decoder_v1.go: one state read from its last byte downwards into a struct. The fields of the struct
 * are assigned in locals of the same names, then stored together.
 */
module Decoder {
  import opened Keys
  import opened Packing
  import opened CommonInputs
  import opened Transducer
  import opened StateBytes
  import opened StateReading
  import opened Sequences

  /** `bytes.IndexByte`: the first place of b, or -1. */
  function IndexByte(bs: seq<Byte>, b: Byte): (i: int)
    ensures -1 <= i < |bs|
    ensures i >= 0 ==> bs[i] == b && forall j :: 0 <= j < i ==> bs[j] != b
    ensures i < 0 ==> forall j :: 0 <= j < |bs| ==> bs[j] != b
  {
    if bs == [] then -1
    else if bs[0] == b then 0
    else
      var i := IndexByte(bs[1..], b);
      assert forall j :: 1 <= j < |bs| ==> bs[j] == bs[1..][j - 1];
      if i < 0 then -1 else i + 1
  }

  /** The transition on b sits at the mirrored place among the transition bytes. */
  lemma IndexMirrors(keys: seq<Byte>, trans: seq<Trans>, b: Byte)
    requires Ascending(trans) && KeysAre(keys, trans)
    ensures var pos := IndexByte(keys, b);
      if pos < 0 then FindTrans(trans, b) == |trans| else FindTrans(trans, b) == |trans| - 1 - pos
  {
    var pos, i := IndexByte(keys, b), FindTrans(trans, b);
    if i < |trans| {
      assert keys[|trans| - 1 - i] == b;
    }
    if pos >= 0 {
      assert keys[|trans| - 1 - (|trans| - 1 - pos)] == trans[|trans| - 1 - pos].input;
      FindTransAt(trans, |trans| - 1 - pos);
    }
  }

  /** The fields for one-transition states only. */
  datatype SingleFields = SingleFields(input: Byte, next: bool, addr: int, out: U64)

  /** The fields for many-transition states only. */
  datatype MultiFields = MultiFields(
    transTop: int, transBottom: int, destTop: int, destBottom: int, outTop: int, outBottom: int, outFinal: int)

  /** The struct a state is decoded into. */
  datatype FstStateV1 = FstStateV1(
    data: seq<Byte>, top: nat, bottom: int, numTrans: nat, transSize: nat, outSize: nat, final: bool,
    single: SingleFields, multi: MultiFields)
  {
    predicate IsEncodedSingle()
      requires top < |data|
    {
      data[top] / 128 > 0
    }

    /** The fields a one-transition state gives rise to. */
    predicate SingleSet()
      requires HEADER_SIZE <= top < |data|
    {
      var b := SingleInputPos(data, top);
      && numTrans == 1 && !final && single.input == SingleInput(data, top)
      && if data[top] / TRANSITION_NEXT % 2 > 0 then single.addr == b - 1 && single.out == 0
         else FrontSet(b - 1)
    }

    predicate FrontSet(p: nat)
      requires p < |data|
    {
      && transSize == DecodePackSize(data[p]).0 && outSize == DecodePackSize(data[p]).1
      && transSize <= 8 && outSize <= 8 && bottom == p - transSize - outSize && 0 <= bottom
      && single.out == (if outSize > 0 then PackedValue(data[bottom..bottom + outSize]) else 0)
      && var delta := PackedValue(data[p - transSize..p]);
      single.addr == if delta == 0 then 0 else bottom - delta
    }

    /** The fields a many-transition state gives rise to. */
    predicate MultiSet()
      requires HEADER_SIZE <= top < |data|
    {
      && multi.transTop == ManySizesPos(data, top) && numTrans == CountAt(data, top)
      && (final <==> data[top] / STATE_FINAL % 2 > 0)
      && transSize == DecodePackSize(data[multi.transTop]).0 && outSize == DecodePackSize(data[multi.transTop]).1
      && multi.transBottom == multi.transTop - numTrans
      && multi.destTop == multi.transBottom && multi.destBottom == multi.destTop - Times(numTrans, transSize)
      && if outSize == 0 then bottom == multi.destBottom else
           && multi.outTop == multi.destBottom && multi.outBottom == multi.outTop - Times(numTrans, outSize)
           && bottom == (if final then multi.outBottom - outSize else multi.outBottom)
           && (final ==> multi.outFinal == bottom)
    }

    /** The struct shows s. */
    ghost predicate Shows(s: State) {
      && top < |data| && WellFormed(s)
      && if top == 0 then
           data[0] < 128 && s.trans == [] && s.finalOutput == 0 && final == s.final
           && numTrans == 0 && outSize == 0 && multi.transBottom == multi.transTop == 0
         else if data[top] >= 128 then SingleAt(data, top, s) && SingleSet()
         else MultiAt(data, top, s) && MultiSet()
    }

    method FinalOutput(ghost s: State) returns (v: U64)
      requires Shows(s)
      ensures v == s.finalOutput
    {
      if final && outSize > 0 {
        v := ReadPackedUint(data[multi.outFinal..multi.outFinal + outSize]);
        return v;
      }
      return 0;
    }

    function TransitionAt(i: nat, ghost s: State): (b: Byte)
      requires Shows(s) && i < numTrans
      ensures b == s.trans[i].input
    {
      if IsEncodedSingle() then single.input
      else data[multi.transBottom..multi.transTop][numTrans - i - 1]
    }

    /** Position, destination and output of the transition on b; -1 and the none address without one. */
    method TransitionFor(b: Byte, ghost s: State) returns (index: int, addr: int, out: U64)
      requires Shows(s)
      ensures var i := FindTrans(s.trans, b);
        if i == |s.trans| then index == -1 && addr == NONE_ADDR && out == 0
        else index == i && addr == s.trans[i].addr && out == s.trans[i].out
    {
      if IsEncodedSingle() {
        if single.input == b {
          return 0, single.addr, single.out;
        }
        return -1, NONE_ADDR, 0;
      }
      index, addr, out := TransitionForMulti(b, s);
    }

    /** What the runs of a many-transition struct hold. */
    lemma MultiTells(s: State)
      requires Shows(s) && top < |data| && data[top] < 128
      ensures numTrans == |s.trans| && Ascending(s.trans)
      ensures 0 <= multi.transBottom <= multi.transTop <= |data|
      ensures KeysAre(data[multi.transBottom..multi.transTop], s.trans)
      ensures s.trans != [] ==> transSize <= 8 && 0 <= multi.destBottom <= multi.destTop <= |data| && bottom >= 0
      ensures s.trans != [] ==> multi.destTop - multi.destBottom == Times(|s.trans|, transSize)
      ensures s.trans != [] ==> DestsAre(data[multi.destBottom..multi.destTop], transSize, s.trans, bottom)
      ensures outSize > 0 ==> outSize <= 8 && 0 <= multi.outBottom <= multi.outTop <= |data|
      ensures outSize > 0 ==> multi.outTop - multi.outBottom == Times(|s.trans|, outSize)
      ensures outSize > 0 ==> OutsAre(data[multi.outBottom..multi.outTop], outSize, s.trans)
      ensures outSize == 0 ==> NoOutputs(s)
    {
      hide KeysAre, DestsAre, OutsAre, NoOutputs, FieldIn, Ascending, Times;
      TimesIsProduct(numTrans, 0);
      if top == 0 { NothingRead(s); }
    }

    lemma NothingRead(s: State)
      requires s.trans == [] && s.finalOutput == 0
      ensures Ascending(s.trans) && KeysAre([], s.trans) && NoOutputs(s)
    {
    }

    method TransitionForMulti(b: Byte, ghost s: State) returns (index: int, addr: int, out: U64)
      requires Shows(s) && top < |data| && data[top] < 128
      ensures var i := FindTrans(s.trans, b);
        if i == |s.trans| then index == -1 && addr == NONE_ADDR && out == 0
        else index == i && addr == s.trans[i].addr && out == s.trans[i].out
    {
      hide FstStateV1.Shows, KeysAre, FieldIn, Ascending, Times, NoOutputs, IndexByte;
      MultiTells(s);
      var transitionKeys := data[multi.transBottom..multi.transTop];
      var pos := IndexByte(transitionKeys, b);
      IndexMirrors(transitionKeys, s.trans, b);
      if pos < 0 {
        return -1, NONE_ADDR, 0;
      }
      ghost var i := FindTrans(s.trans, b);
      assert |s.trans| - 1 - i == pos;
      addr := FieldFrom(data[multi.destBottom..multi.destTop], transSize, pos, numTrans);
      assert addr == DeltaAddr(bottom, s.trans[i].addr);
      if addr > 0 {
        addr := bottom - addr;
      }
      out := 0;
      if outSize > 0 {
        out := FieldFrom(data[multi.outBottom..multi.outTop], outSize, pos, numTrans);
      } else {
        NoOutputAt(s, i);
      }
      return numTrans - pos - 1, addr, out;
    }
  }

  lemma NoOutputAt(s: State, i: nat)
    requires NoOutputs(s) && i < |s.trans|
    ensures s.trans[i].out == 0
  {
  }

  /** `readPackedUint(run[pos*sz : pos*sz+sz])` for a run of n fields. */
  method FieldFrom(run: seq<Byte>, sz: nat, pos: nat, n: nat) returns (v: U64)
    requires pos < n && sz <= 8 && |run| == Times(n, sz)
    ensures v == FieldIn(run, sz, pos)
  {
    TimesMonotone(pos, n, sz);
    FieldSlice(run, sz, pos);
    var lo := Times(pos, sz);
    v := ReadPackedUint(run[lo..lo + sz]);
  }

  lemma {:induction false} TimesMonotone(p: nat, n: nat, sz: nat)
    requires p < n
    ensures Times(p, sz) + sz <= Times(n, sz)
    decreases n
  {
    if p < n - 1 { TimesMonotone(p, n - 1, sz); }
  }

  lemma {:induction false} FieldSlice(run: seq<Byte>, sz: nat, p: nat)
    requires Times(p, sz) + sz <= |run|
    ensures FieldIn(run, sz, p) == PackedValue(run[Times(p, sz)..Times(p, sz) + sz])
  {
    if p > 0 {
      FieldSlice(run[sz..], sz, p - 1);
      SliceOfSlice(run, sz, |run|, Times(p - 1, sz), Times(p - 1, sz) + sz);
      assert run[sz..|run|] == run[sz..];
    }
  }

  /** Data that starts with a header naming a version below 128, and fits a slice. */
  predicate HasHeader(data: seq<Byte>) {
    HEADER_SIZE <= |data| < SLICE_LIMIT && data[0] < 128
  }

  /**
   * Reads the state at addr; an address outside the data is refused. Address 0 shows the bare
   * final state and address 1 a dead one, both through the first header byte.
   */
  method At(data: seq<Byte>, addr: nat, ghost s: State) returns (ok: bool, f: FstStateV1)
    requires HasHeader(data)
    requires addr == EMPTY_ADDR ==> s == FINAL_STATE
    requires addr == NONE_ADDR ==> s == State(false, 0, [])
    requires HEADER_SIZE <= addr <= |data| ==> ReadsAs(data, addr, s)
    ensures ok <==> addr == EMPTY_ADDR || addr == NONE_ADDR || HEADER_SIZE <= addr <= |data|
    ensures ok ==> f.Shows(s) && f.data == data
  {
    var noSingle, noMulti := SingleFields(0, false, 0, 0), MultiFields(0, 0, 0, 0, 0, 0, 0);
    if addr == EMPTY_ADDR {
      f := FstStateV1(data, 0, 1, 0, 0, 0, true, noSingle, noMulti);
      return true, f;
    } else if addr == NONE_ADDR {
      f := FstStateV1(data, 0, 1, 0, 0, 0, false, noSingle, noMulti);
      return true, f;
    }
    f := FstStateV1(data, addr, addr, 0, 0, 0, false, noSingle, noMulti);
    if addr > |data| || addr < 16 {
      return false, f;
    }
    if f.IsEncodedSingle() {
      assert SingleFits(data, addr);
      f := AtSingle(f);
    } else {
      f := AtMulti(f);
    }
    return true, f;
  }

  predicate SingleFits(data: seq<Byte>, top: nat) {
    && HEADER_SIZE <= top < |data|
    && if data[top] / TRANSITION_NEXT % 2 > 0 then true else FrontFits(data, SingleInputPos(data, top) - 1)
  }

  predicate FrontFits(data: seq<Byte>, p: nat)
    requires p < |data|
  {
    var (ts, os) := DecodePackSize(data[p]);
    ts <= 8 && os <= 8 && ts + os <= p
  }

  method AtSingle(f0: FstStateV1) returns (f: FstStateV1)
    requires SingleFits(f0.data, f0.top) && f0.bottom == f0.top && !f0.final
    ensures f.data == f0.data && f.top == f0.top && f.SingleSet()
  {
    f := f0.(numTrans := 1);
    var bottom := f.bottom;
    var next := f.data[f.top] / TRANSITION_NEXT % 2 > 0;
    var input: Byte := f.data[f.top] % 64;
    if input == 0 {
      bottom := bottom - 1;
      input := f.data[bottom];
    } else {
      input := DecodeCommon(input);
    }
    if next {
      f := f.(bottom := bottom, single := SingleFields(input, next, bottom - 1, 0));
    } else {
      f := AtSingleFront(f, bottom, input);
    }
  }

  /** The part of atSingle that reads sizes, destination and output. */
  method AtSingleFront(f0: FstStateV1, b: nat, input: Byte) returns (f: FstStateV1)
    requires 1 <= b <= |f0.data| && FrontFits(f0.data, b - 1)
    ensures f.data == f0.data && f.FrontSet(b - 1)
    ensures f.top == f0.top && f.numTrans == f0.numTrans && f.final == f0.final && f.single.input == input
  {
    var data, bottom: int := f0.data, b - 1;
    var transSize, outSize := DecodePackSize(data[bottom]).0, DecodePackSize(data[bottom]).1;
    bottom := bottom - transSize;
    var addr: int := ReadPackedUint(data[bottom..bottom + transSize]);
    var out: U64 := 0;
    if outSize > 0 {
      bottom := bottom - outSize;
      out := ReadPackedUint(data[bottom..bottom + outSize]);
    }
    if addr != 0 {
      addr := bottom - addr;
    }
    f := f0.(bottom := bottom, transSize := transSize, outSize := outSize,
      single := SingleFields(input, false, addr, out));
  }

  method AtMulti(f0: FstStateV1) returns (f: FstStateV1)
    requires HEADER_SIZE <= f0.top < |f0.data| && f0.bottom == f0.top
    ensures f.data == f0.data && f.top == f0.top && f.MultiSet()
  {
    var data, bottom := f0.data, f0.bottom;
    var final := data[f0.top] / STATE_FINAL % 2 > 0;
    var numTrans: nat := data[f0.top] % 64;
    if numTrans == 0 {
      bottom := bottom - 1;
      numTrans := data[bottom];
      if numTrans == 1 {
        numTrans := 256;
      }
    }
    bottom := bottom - 1;
    var transSize, outSize := DecodePackSize(data[bottom]).0, DecodePackSize(data[bottom]).1;

    var transTop := bottom;
    bottom := bottom - numTrans;
    var transBottom := bottom;

    var destTop := bottom;
    bottom := bottom - Times(numTrans, transSize);
    var destBottom := bottom;

    var outTop, outBottom, outFinal := 0, 0, 0;
    if outSize > 0 {
      outTop := bottom;
      bottom := bottom - Times(numTrans, outSize);
      outBottom := bottom;
      if final {
        bottom := bottom - outSize;
        outFinal := bottom;
      }
    }
    f := f0.(bottom := bottom, numTrans := numTrans, transSize := transSize, outSize := outSize, final := final,
      multi := MultiFields(transTop, transBottom, destTop, destBottom, outTop, outBottom, outFinal));
  }
}
