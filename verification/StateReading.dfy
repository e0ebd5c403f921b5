/**
 * What the decoder has to find in the bytes of a state, from the top byte down, and that the
 * encoder's layout always gives it.
 */
module StateReading {
  import opened Keys
  import opened Packing
  import opened CommonInputs
  import opened Transducer
  import opened StateBytes
  import opened Sequences

  /** The number in field p of a run of sz-byte fields. */
  function FieldIn(run: seq<Byte>, sz: nat, p: nat): nat {
    if |run| < sz then 0
    else if p == 0 then PackedValue(run[..sz])
    else FieldIn(run[sz..], sz, p - 1)
  }

  ghost predicate KeysAre(keys: seq<Byte>, trans: seq<Trans>) {
    |keys| == |trans| && forall i :: 0 <= i < |trans| ==> keys[|trans| - 1 - i] == trans[i].input
  }

  ghost predicate OutsAre(run: seq<Byte>, sz: nat, trans: seq<Trans>) {
    forall i :: 0 <= i < |trans| ==> FieldIn(run, sz, |trans| - 1 - i) == trans[i].out
  }

  ghost predicate DestsAre(run: seq<Byte>, sz: nat, trans: seq<Trans>, start: nat) {
    forall i :: 0 <= i < |trans| ==>
      && (trans[i].addr == 0 || trans[i].addr < start)
      && FieldIn(run, sz, |trans| - 1 - i) == DeltaAddr(start, trans[i].addr)
  }

  /** The runs of a many-transition state whose sizes byte is at p. */
  ghost predicate RunsAt(data: seq<Byte>, p: nat, sizes: (nat, nat), s: State) {
    var n := |s.trans|;
    var keys := p - n;
    var dests := keys - Times(n, sizes.0);
    var outs := dests - Times(n, sizes.1);
    var start := if s.final then outs - sizes.1 else outs;
    && sizes.0 <= 8 && sizes.1 <= 8 && 0 <= start && p <= |data|
    && KeysAre(data[keys..p], s.trans)
    && DestsAre(data[dests..keys], sizes.0, s.trans, start)
    && (sizes.1 == 0 ==> NoOutputs(s))
    && (sizes.1 > 0 ==> OutsAre(data[outs..dests], sizes.1, s.trans))
    && (sizes.1 > 0 && s.final ==> PackedValue(data[start..outs]) == s.finalOutput)
  }

  /** Where the sizes byte of the many-transition state at a is. */
  function ManySizesPos(data: seq<Byte>, a: nat): nat
    requires 2 <= a < |data|
  {
    if data[a] % 64 != 0 then a - 1 else a - 2
  }

  ghost predicate NoOutputs(s: State) {
    s.finalOutput == 0 && forall i :: 0 <= i < |s.trans| ==> s.trans[i].out == 0
  }

  /** How many transitions the header at a, or the byte below it, announces. */
  function CountAt(data: seq<Byte>, a: nat): nat
    requires 1 <= a < |data|
  {
    if data[a] % 64 != 0 then data[a] % 64 else if data[a - 1] == 1 then 256 else data[a - 1]
  }

  /** The many-transition state at a reads as s. */
  ghost predicate MultiAt(data: seq<Byte>, a: nat, s: State) {
    && HEADER_SIZE <= a < |data| && data[a] < 128
    && (data[a] / STATE_FINAL % 2 > 0 <==> s.final)
    && CountAt(data, a) == |s.trans|
    && var p := ManySizesPos(data, a);
    && RunsAt(data, p, DecodePackSize(data[p]), s)
  }

  /** Destination and output of a one-transition state whose sizes byte is at p. */
  ghost predicate FrontAt(data: seq<Byte>, p: nat, sizes: (nat, nat), t: Trans) {
    var start := p - sizes.0 - sizes.1;
    && sizes.0 <= 8 && sizes.1 <= 8 && 0 <= start && p <= |data|
    && (t.addr == 0 || t.addr < start)
    && PackedValue(data[p - sizes.0..p]) == DeltaAddr(start, t.addr)
    && (sizes.1 > 0 ==> PackedValue(data[start..start + sizes.1]) == t.out)
    && (sizes.1 == 0 ==> t.out == 0)
  }

  /** The lowest byte that tells the input of the one-transition state at a. */
  function SingleInputPos(data: seq<Byte>, a: nat): nat
    requires 1 <= a < |data|
  {
    if data[a] % 64 == 0 then a - 1 else a
  }

  function SingleInput(data: seq<Byte>, a: nat): Byte
    requires 1 <= a < |data|
  {
    if data[a] % 64 == 0 then data[a - 1] else DecodeCommon(data[a] % 64)
  }

  /** The one-transition state at a reads as s. */
  ghost predicate SingleAt(data: seq<Byte>, a: nat, s: State) {
    && HEADER_SIZE <= a < |data| && data[a] >= 128 && |s.trans| == 1 && !s.final
    && var t := s.trans[0];
    && var b := SingleInputPos(data, a);
    && SingleInput(data, a) == t.input
    && if data[a] / TRANSITION_NEXT % 2 > 0 then t.out == 0 && t.addr == b - 1
       else FrontAt(data, b - 1, DecodePackSize(data[b - 1]), t)
  }

  /** The state at a reads as s. */
  ghost predicate ReadsAs(data: seq<Byte>, a: nat, s: State) {
    WellFormed(s) && (SingleAt(data, a, s) || MultiAt(data, a, s))
  }

  /** A field of a packed run reads back as the value packed into it. */
  lemma {:induction false} FieldReads(vals: seq<nat>, sz: nat, i: nat)
    requires i < |vals| && vals[i] < Pow256(sz)
    ensures FieldIn(Fields(vals, sz), sz, |vals| - 1 - i) == vals[i]
  {
    var n := |vals| - 1;
    var head, rest := PackedBytes(vals[n], sz), Fields(vals[..n], sz);
    if i == n {
      assert (head + rest)[..sz] == head;
      PackedRoundTrip(vals[n], sz);
    } else {
      assert (head + rest)[sz..] == rest;
      FieldReads(vals[..n], sz, i);
    }
  }

  lemma FitsSize(v: U64, sz: nat)
    requires PackedSize(v) <= sz
    ensures v < Pow256(sz)
  {
    PackedSizeLeast(v);
    Pow256Monotone(PackedSize(v), sz);
  }

  lemma DestsRead(trans: seq<Trans>, start: nat)
    requires start < U64_LIMIT && forall i :: 0 <= i < |trans| ==> trans[i].addr == 0 || trans[i].addr < start
    ensures var sz := SizeFor(Deltas(trans, start), 0);
      DestsAre(Fields(Deltas(trans, start), sz), sz, trans, start)
  {
    hide FieldIn, Fields, Pow256, PackedSize, SizeFor;
    var deltas := Deltas(trans, start);
    var sz := SizeFor(deltas, 0);
    forall i | 0 <= i < |trans|
      ensures FieldIn(Fields(deltas, sz), sz, |trans| - 1 - i) == DeltaAddr(start, trans[i].addr)
    {
      FitsSize(deltas[i], sz);
      FieldReads(deltas, sz, i);
    }
  }

  lemma OutsRead(trans: seq<Trans>, sz: nat)
    requires forall i :: 0 <= i < |trans| ==> PackedSize(trans[i].out) <= sz
    ensures OutsAre(Fields(Outs(trans), sz), sz, trans)
  {
    forall i | 0 <= i < |trans|
      ensures FieldIn(Fields(Outs(trans), sz), sz, |trans| - 1 - i) == trans[i].out
    {
      FitsSize(trans[i].out, sz);
      FieldReads(Outs(trans), sz, i);
    }
  }

  lemma OutSizeFits(s: State)
    ensures OutSize(s) == 0 ==> NoOutputs(s)
    ensures OutSize(s) > 0 ==> PackedSize(s.finalOutput) <= OutSize(s)
    ensures OutSize(s) > 0 ==> forall i :: 0 <= i < |s.trans| ==> PackedSize(s.trans[i].out) <= OutSize(s)
  {
    if AnyOutputs(s) {
      var outs := Outs(s.trans);
      forall i | 0 <= i < |s.trans| ensures PackedSize(s.trans[i].out) <= OutSize(s) {
        assert outs[i] == s.trans[i].out;
      }
    }
  }

  lemma KeysRead(trans: seq<Trans>)
    ensures KeysAre(KeyBytes(trans), trans)
  {
  }

  lemma FinalLength(s: State)
    ensures |FinalBytes(s)| == if s.final then OutSize(s) else 0
  {
  }

  lemma FinalRead(s: State)
    requires OutSize(s) > 0
    ensures s.final ==> PackedValue(FinalBytes(s)) == s.finalOutput
  {
    OutSizeFits(s);
    FitsSize(s.finalOutput, OutSize(s));
    PackedRoundTrip(s.finalOutput, OutSize(s));
  }

  lemma RunsRead(data: seq<Byte>, start: nat, p: nat, s: State)
    requires start <= p <= |data| && start < U64_LIMIT && Earlier(s, start) && data[start..p] == MultiRuns(s, start)
    ensures RunsAt(data, p, (SizeFor(Deltas(s.trans, start), 0), OutSize(s)), s)
  {
    hide KeysAre, DestsAre, OutsAre, NoOutputs, Fields, FinalBytes, OutSize, SizeFor, Deltas, Outs, KeyBytes;
    var ts, os := SizeFor(Deltas(s.trans, start), 0), OutSize(s);
    PeelThree(data, start, p, FinalBytes(s), Fields(Outs(s.trans), os), Fields(Deltas(s.trans, start), ts),
      KeyBytes(s.trans));
    FieldsLength(Outs(s.trans), os);
    FieldsLength(Deltas(s.trans, start), ts);
    KeysRead(s.trans);
    DestsRead(s.trans, start);
    OutSizeFits(s);
    FinalLength(s);
    if os > 0 {
      OutsRead(s.trans, os);
      FinalRead(s);
    }
  }

  /** A count of up to 256 reads back from the header, or from the byte below it when it does not fit there. */
  lemma CountReads(n: nat, data: seq<Byte>, a: nat)
    requires n <= 256 && 1 <= a < |data|
    requires data[a] % 64 == EncodeNumTrans(n) && (CountBytes(n) != [] ==> [data[a - 1]] == CountBytes(n))
    ensures CountAt(data, a) == n
  {
  }

  lemma ManyHeaderReads(s: State)
    requires |s.trans| <= 256
    ensures ManyHeader(s) < 128
    ensures ManyHeader(s) / STATE_FINAL % 2 > 0 <==> s.final
    ensures ManyHeader(s) % 64 == EncodeNumTrans(|s.trans|)
  {
  }

  /** Reading undoes writing for the states encodeStateMany writes. */
  lemma MultiReads(data: seq<Byte>, a: nat, s: State, start: nat)
    requires PlacedFrom(data, a, s, start) && (|s.trans| != 1 || s.final) && |data| < U64_LIMIT
    ensures MultiAt(data, a, s)
  {
    hide RunsAt, MultiRuns, ManyHeader, WellFormed, SizeFor, OutSize;
    AtMost256(s);
    ManyHeaderReads(s);
    var runs, pack, count := MultiRuns(s, start), ManyPack(s, start), CountBytes(|s.trans|);
    PeelOne(data, start, a + 1, runs + [pack] + count, ManyHeader(s));
    var p := a;
    if EncodeNumTrans(|s.trans|) == 0 {
      PeelOne(data, start, a, runs + [pack], count[0]);
      p := a - 1;
    } else {
      assert runs + [pack] + count == runs + [pack];
    }
    CountReads(|s.trans|, data, a);
    PeelOne(data, start, p, runs, pack);
    RunsRead(data, start, p - 1, s);
  }

  ghost predicate FinishAs(bs: seq<Byte>, input: Byte, next: Byte)
    requires bs != []
  {
    var h := bs[|bs| - 1];
    h >= 128 && (h / TRANSITION_NEXT % 2 > 0 <==> next == TRANSITION_NEXT)
    && if h % 64 == 0 then |bs| == 2 && bs[0] == input else |bs| == 1 && DecodeCommon(h % 64) == input
  }

  lemma FinishReadsWith(input: Byte, next: Byte, enc: Byte)
    requires next == 0 || next == TRANSITION_NEXT
    requires enc <= MAX_COMMON
    requires enc != 0 ==> DecodeCommon(enc) == input
    ensures FinishAs(FinishWith(input, next, enc), input, next)
  {
    var h := ONE_TRANSITION + next + enc;
    assert h % 64 == enc && (h / 64 % 2 > 0 <==> next == TRANSITION_NEXT);
  }

  lemma FinishReads(input: Byte, next: Byte)
    requires next == 0 || next == TRANSITION_NEXT
    ensures FinishAs(FinishBytes(input, next), input, next)
  {
    if EncodeCommon(input) != 0 { CommonRoundTrip(input); }
    FinishReadsWith(input, next, EncodeCommon(input));
  }

  lemma FrontReads(t: Trans, start: nat, data: seq<Byte>, b: nat)
    requires start <= b <= |data| < U64_LIMIT && (t.addr == 0 || t.addr < start) && data[start..b] == OneFront(t, start)
    ensures start < b && FrontAt(data, b - 1, DecodePackSize(data[b - 1]), t)
    ensures start == b - 1 - DecodePackSize(data[b - 1]).0 - DecodePackSize(data[b - 1]).1
  {
    hide PackedBytes, PackedSize, PackedValue, EncodePackSize, DecodePackSize;
    var delta := DeltaAddr(start, t.addr);
    var outBytes, deltaBytes := PackedBytes(t.out, OneOutSize(t)), PackedBytes(delta, PackedSize(delta));
    PeelOne(data, start, b, outBytes + deltaBytes, EncodePackSize(PackedSize(delta), OneOutSize(t)));
    Peel(data, start, b - 1, outBytes, deltaBytes);
    PackedBack(delta);
    PackedBack(t.out);
  }

  /** A number written in the least bytes that hold it reads back; none are written for 0. */
  lemma PackedBack(x: U64)
    ensures |PackedBytes(x, PackedSize(x))| == PackedSize(x) && PackedValue(PackedBytes(x, PackedSize(x))) == x
    ensures PackedBytes(0, 0) == [] && PackedValue([]) == 0
  {
    PackedSizeLeast(x);
    PackedRoundTrip(x, PackedSize(x));
  }

  /** Reading undoes writing for the two short layouts of a one-transition state. */
  lemma SingleReads(data: seq<Byte>, a: nat, s: State, start: nat)
    requires PlacedFrom(data, a, s, start) && |s.trans| == 1 && !s.final && |data| < U64_LIMIT
    ensures SingleAt(data, a, s)
  {
    hide EncodeCommon, DecodeCommon, FinishBytes, FrontAt, OneFront, WellFormed, DecodePackSize, ManyBytes;
    var t := s.trans[0];
    var next := if IsNext(s, start) then TRANSITION_NEXT else 0;
    var front := if IsNext(s, start) then [] else OneFront(t, start);
    var last := FinishBytes(t.input, next);
    assert EncodedState(s, start) == front + last;
    FinishReads(t.input, next);
    Peel(data, start, a + 1, front, last);
    var b := a + 1 - |last|;
    assert data[b] == data[b..a + 1][0] && data[a] == data[b..a + 1][|last| - 1];
    if !IsNext(s, start) {
      FrontReads(t, start, data, if data[a] % 64 == 0 then a - 1 else a);
    }
  }

  /** Encoding then decoding is the identity, in all three layouts. */
  lemma PlacedReads(data: seq<Byte>, a: nat, s: State)
    requires Placed(data, a, s) && |data| < U64_LIMIT
    ensures ReadsAs(data, a, s)
  {
    var start: nat :| PlacedFrom(data, a, s, start);
    if |s.trans| == 1 && !s.final {
      SingleReads(data, a, s, start);
    } else {
      MultiReads(data, a, s, start);
    }
  }
}
