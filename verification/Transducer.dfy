/**
 * What a transducer means, before any bytes: states that refer to one another by address, and the
 * sum of outputs along the path a key spells.
 */
module Transducer {
  import opened Keys

  datatype Option<+T> = None | Some(value: T)

  datatype Trans = Trans(input: Byte, out: U64, addr: nat)

  datatype State = State(final: bool, finalOutput: U64, trans: seq<Trans>)

  /** Encoded states by address. */
  type Graph = map<nat, State>

  const EMPTY_ADDR: nat := 0
  const NONE_ADDR: nat := 1
  const HEADER_SIZE: nat := 16

  /** The state every key may end in without it being written: address 0. */
  const FINAL_STATE: State := State(true, 0, [])

  ghost predicate Ascending(trans: seq<Trans>) {
    forall i, j :: 0 <= i < j < |trans| ==> trans[i].input < trans[j].input
  }

  ghost predicate WellFormed(s: State) {
    Ascending(s.trans) && (!s.final ==> s.finalOutput == 0)
  }

  /** A state from which something may still be accepted. */
  predicate Live(s: State) {
    s.final || s.trans != []
  }

  predicate Known(g: Graph, a: nat) {
    a == EMPTY_ADDR || a in g
  }

  function StateAt(g: Graph, a: nat): State
    requires Known(g, a)
  {
    if a == EMPTY_ADDR then FINAL_STATE else g[a]
  }

  /** Every transition leads to a live state of the graph. */
  ghost predicate Closed(g: Graph, s: State) {
    forall i :: 0 <= i < |s.trans| ==> Known(g, s.trans[i].addr) && Live(StateAt(g, s.trans[i].addr))
  }

  /** Every transition leads to address 0 or to one in [16, a). */
  ghost predicate Earlier(s: State, a: nat) {
    forall i :: 0 <= i < |s.trans| ==>
      s.trans[i].addr == EMPTY_ADDR || HEADER_SIZE <= s.trans[i].addr < a
  }

  /** The address discipline of a build: states point only backwards, past the header. */
  ghost predicate GraphOk(g: Graph) {
    forall a :: a in g ==> HEADER_SIZE <= a && WellFormed(g[a]) && Closed(g, g[a]) && Earlier(g[a], a)
  }

  /** Index of the transition on b, or the number of transitions when there is none. */
  function FindTrans(trans: seq<Trans>, b: Byte): (i: nat)
    ensures i <= |trans|
    ensures i < |trans| ==> trans[i].input == b
    ensures forall j :: 0 <= j < i ==> trans[j].input != b
  {
    if trans == [] || trans[0].input == b then 0
    else
      var i := FindTrans(trans[1..], b);
      assert forall j :: 1 <= j < i + 1 ==> trans[j] == trans[1..][j - 1];
      1 + i
  }

  lemma FindTransAt(trans: seq<Trans>, i: nat)
    requires Ascending(trans) && i < |trans|
    ensures FindTrans(trans, trans[i].input) == i
  {
    var j := FindTrans(trans, trans[i].input);
  }

  function AddOut(out: nat, r: Option<nat>): Option<nat> {
    match r
    case None => None
    case Some(v) => Some(out + v)
  }

  /** The sum of outputs along the path key spells from s, if that path ends in a final state. */
  function LookupIn(g: Graph, s: State, key: Key): Option<nat>
    requires GraphOk(g) && Closed(g, s)
    decreases |key|
  {
    if key == [] then (if s.final then Some(s.finalOutput) else None)
    else
      var i := FindTrans(s.trans, key[0]);
      if i == |s.trans| then None
      else AddOut(s.trans[i].out, LookupIn(g, StateAt(g, s.trans[i].addr), key[1..]))
  }

  /** The keys and values reached from s are exactly those of m. */
  ghost predicate Holds(g: Graph, s: State, m: map<Key, U64>)
    requires GraphOk(g) && Closed(g, s)
  {
    forall k: Key :: LookupIn(g, s, k) == if k in m then Some(m[k]) else None
  }

  ghost predicate Extends(g: Graph, h: Graph) {
    forall a :: a in g ==> a in h && h[a] == g[a]
  }

  /** Adding states changes nothing that was reachable before. */
  lemma {:induction false} LookupExtends(g: Graph, h: Graph, s: State, key: Key)
    requires GraphOk(g) && GraphOk(h) && Extends(g, h) && Closed(g, s)
    ensures Closed(h, s)
    ensures LookupIn(h, s, key) == LookupIn(g, s, key)
    decreases |key|
  {
    if key != [] {
      var i := FindTrans(s.trans, key[0]);
      if i < |s.trans| {
        LookupExtends(g, h, StateAt(g, s.trans[i].addr), key[1..]);
      }
    }
  }

  /** From a live state some key is accepted: no dead ends, and no cycles to be lost in. */
  lemma {:induction false} LiveKey(g: Graph, s: State, a: nat) returns (key: Key)
    requires GraphOk(g) && WellFormed(s) && Closed(g, s) && Earlier(s, a) && Live(s)
    ensures LookupIn(g, s, key).Some?
    decreases a
  {
    if s.final {
      key := [];
    } else {
      var t := s.trans[0];
      var rest := [];
      if t.addr != EMPTY_ADDR {
        rest := LiveKey(g, g[t.addr], t.addr);
      }
      key := [t.input] + rest;
      assert key[1..] == rest;
      FindTransAt(s.trans, 0);
    }
  }
}
