/** The byte layout of one encoded state: what the encoder appends and the decoder reads from the top down. */
module StateBytes {
  import opened Keys
  import opened Packing
  import opened CommonInputs
  import opened Transducer

  const ONE_TRANSITION: Byte := 128
  const TRANSITION_NEXT: Byte := 64
  const STATE_FINAL: Byte := 64

  /** n * sz, by repeated addition so that the solver keeps to linear arithmetic. */
  function Times(n: nat, sz: nat): nat {
    if n == 0 then 0 else Times(n - 1, sz) + sz
  }

  lemma {:induction false} TimesIsProduct(n: nat, sz: nat)
    ensures Times(n, sz) == n * sz
  {
    if n > 0 { TimesIsProduct(n - 1, sz); }
  }

  /** Values packed side by side in reverse order, each in sz bytes. */
  function Fields(vals: seq<nat>, sz: nat): (bs: seq<Byte>) {
    if vals == [] then []
    else
      var n := |vals| - 1;
      PackedBytes(vals[n], sz) + Fields(vals[..n], sz)
  }

  lemma {:induction false} FieldsLength(vals: seq<nat>, sz: nat)
    ensures |Fields(vals, sz)| == Times(|vals|, sz)
  {
    if vals != [] { FieldsLength(vals[..|vals| - 1], sz); }
  }

  /** The transition bytes in reverse order. */
  function KeyBytes(trans: seq<Trans>): (r: seq<Byte>)
    ensures |r| == |trans|
    ensures forall p :: 0 <= p < |r| ==> r[p] == trans[|trans| - 1 - p].input
  {
    seq(|trans|, p requires 0 <= p < |trans| => trans[|trans| - 1 - p].input)
  }

  function Outs(trans: seq<Trans>): (r: seq<nat>)
    ensures |r| == |trans|
  {
    seq(|trans|, i requires 0 <= i < |trans| => trans[i].out)
  }

  function Deltas(trans: seq<Trans>, start: nat): (r: seq<nat>)
    requires forall i :: 0 <= i < |trans| ==> trans[i].addr <= start
    ensures |r| == |trans|
  {
    seq(|trans|, i requires 0 <= i < |trans| => DeltaAddr(start, trans[i].addr))
  }

  function Max(a: nat, b: nat): nat {
    if a < b then b else a
  }

  /** The largest packed size among vals and the base. */
  function SizeFor(vals: seq<nat>, base: nat): (k: nat)
    requires base <= 8
    ensures base <= k <= 8
    ensures forall i :: 0 <= i < |vals| ==> PackedSize(vals[i]) <= k
    ensures vals != [] ==> k >= 1
  {
    if vals == [] then base
    else
      var n := |vals| - 1;
      var k := SizeFor(vals[..n], base);
      assert forall i :: 0 <= i < n ==> vals[i] == vals[..n][i];
      Max(k, PackedSize(vals[n]))
  }

  lemma SizeForSnoc(vals: seq<nat>, i: nat, base: nat)
    requires i < |vals| && base <= 8
    ensures SizeFor(vals[..i + 1], base) == Max(SizeFor(vals[..i], base), PackedSize(vals[i]))
  {
    assert vals[..i + 1][..i] == vals[..i];
  }

  predicate AnyOutputs(s: State) {
    s.finalOutput != 0 || exists i :: 0 <= i < |s.trans| && s.trans[i].out != 0
  }

  /** How many transitions, when that does not fit the header byte; 1 stands for 256. */
  function CountBytes(n: nat): seq<Byte>
    requires n <= 256
  {
    if EncodeNumTrans(n) != 0 then [] else if n == 256 then [1] else [n]
  }

  function OutSize(s: State): (k: nat)
    ensures k <= 8
  {
    if AnyOutputs(s) then SizeFor(Outs(s.trans), PackedSize(s.finalOutput)) else 0
  }

  function FinalBytes(s: State): seq<Byte> {
    if s.final then PackedBytes(s.finalOutput, OutSize(s)) else []
  }

  function ManyHeader(s: State): Byte {
    EncodeNumTrans(|s.trans|) + if s.final then STATE_FINAL else 0
  }

  /** Final output, outputs, destinations and transition bytes, each run in reverse. */
  function MultiRuns(s: State, start: nat): seq<Byte>
    requires forall i :: 0 <= i < |s.trans| ==> s.trans[i].addr <= start
  {
    var deltas := Deltas(s.trans, start);
    FinalBytes(s) + Fields(Outs(s.trans), OutSize(s)) + Fields(deltas, SizeFor(deltas, 0)) + KeyBytes(s.trans)
  }

  function ManyPack(s: State, start: nat): Byte
    requires forall i :: 0 <= i < |s.trans| ==> s.trans[i].addr <= start
  {
    EncodePackSize(SizeFor(Deltas(s.trans, start), 0), OutSize(s))
  }

  /** The runs, then field sizes, count and header. */
  function ManyBytes(s: State, start: nat): seq<Byte>
    requires forall i :: 0 <= i < |s.trans| ==> s.trans[i].addr <= start
    requires |s.trans| <= 256
  {
    MultiRuns(s, start) + [ManyPack(s, start)] + CountBytes(|s.trans|) + [ManyHeader(s)]
  }

  /** The last one or two bytes of a one-transition state, given the code of its byte. */
  function FinishWith(input: Byte, next: Byte, enc: Byte): (bs: seq<Byte>)
    requires next == 0 || next == TRANSITION_NEXT
    requires enc <= MAX_COMMON
    ensures bs != []
  {
    (if enc == 0 then [input] else []) + [ONE_TRANSITION + next + enc]
  }

  function FinishBytes(input: Byte, next: Byte): (bs: seq<Byte>)
    requires next == 0 || next == TRANSITION_NEXT
    ensures bs != []
  {
    FinishWith(input, next, EncodeCommon(input))
  }

  function OneOutSize(t: Trans): (k: nat)
    ensures k <= 8
  {
    if t.out == 0 then 0 else PackedSize(t.out)
  }

  /** The bytes of a full one-transition state below its last one or two. */
  function OneFront(t: Trans, start: nat): seq<Byte>
    requires t.addr <= start
  {
    var delta := DeltaAddr(start, t.addr);
    PackedBytes(t.out, OneOutSize(t)) + PackedBytes(delta, PackedSize(delta))
    + [EncodePackSize(PackedSize(delta), OneOutSize(t))]
  }

  function OneBytes(t: Trans, start: nat): seq<Byte>
    requires t.addr <= start
  {
    OneFront(t, start) + FinishBytes(t.input, 0)
  }

  /** A lone transition without output into the state that ends just before start needs no destination. */
  predicate IsNext(s: State, start: nat) {
    !s.final && |s.trans| == 1 && s.trans[0].out == 0 && s.trans[0].addr == start - 1
  }

  /** The encoding of s when it is written from offset start. */
  function EncodedState(s: State, start: nat): (bs: seq<Byte>)
    requires WellFormed(s) && Earlier(s, start)
    ensures bs != []
  {
    AtMost256(s);
    if |s.trans| != 1 || s.final then ManyBytes(s, start)
    else if IsNext(s, start) then FinishBytes(s.trans[0].input, TRANSITION_NEXT)
    else OneBytes(s.trans[0], start)
  }

  lemma {:induction false} AscendingAtLeast(trans: seq<Trans>, i: nat)
    requires Ascending(trans) && i < |trans|
    ensures trans[i].input >= i
  {
    if i > 0 { AscendingAtLeast(trans, i - 1); }
  }

  lemma AtMost256(s: State)
    requires WellFormed(s)
    ensures |s.trans| <= 256
  {
    if |s.trans| > 256 { AscendingAtLeast(s.trans, 256); }
  }

  /** State s is encoded in data with its last byte at a. */
  ghost predicate Placed(data: seq<Byte>, a: nat, s: State) {
    exists start: nat :: PlacedFrom(data, a, s, start)
  }

  ghost predicate PlacedFrom(data: seq<Byte>, a: nat, s: State, start: nat) {
    HEADER_SIZE <= start <= a < |data| && WellFormed(s) && Earlier(s, start)
    && data[start..a + 1] == EncodedState(s, start)
  }

  /** Everything of the graph is in data. */
  ghost predicate Encodes(data: seq<Byte>, g: Graph) {
    forall a :: a in g ==> Placed(data, a, g[a])
  }

  lemma PlacedAppend(data: seq<Byte>, more: seq<Byte>, a: nat, s: State)
    requires Placed(data, a, s)
    ensures Placed(data + more, a, s)
  {
    var start: nat :| PlacedFrom(data, a, s, start);
    assert (data + more)[start..a + 1] == data[start..a + 1];
    assert PlacedFrom(data + more, a, s, start);
  }

  /** Appending never disturbs what was encoded. */
  lemma EncodesAppend(data: seq<Byte>, more: seq<Byte>, g: Graph)
    requires Encodes(data, g)
    ensures Encodes(data + more, g)
  {
    forall a | a in g ensures Placed(data + more, a, g[a]) {
      PlacedAppend(data, more, a, g[a]);
    }
  }
}
