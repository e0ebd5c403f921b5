/** Freezing the top of the stack into the entry below, and growing a new suffix: what each does to the meaning. */
module StackSteps {
  import opened Keys
  import opened Transducer
  import opened StackMeaning

  const BLANK_STATE: State := State(false, 0, [])

  /** `lastCompiled`. */
  function FrozenUnf(u: Unf, addr: nat): Unf {
    if u.hasLastT
    then Unf(u.node.(trans := u.node.trans + [Trans(u.lastIn, u.lastOut, addr)]), 0, u.lastIn, false)
    else u
  }

  /** The stack without its top, which has been compiled to addr. */
  function Popped(stk: seq<Unf>, addr: nat): seq<Unf>
    requires |stk| >= 2
  {
    stk[..|stk| - 2] + [FrozenUnf(stk[|stk| - 2], addr)]
  }

  lemma {:induction false} FindSnoc(trans: seq<Trans>, t: Trans, b: Byte)
    requires forall u :: u in trans ==> u.input < t.input
    ensures b == t.input ==> FindTrans(trans + [t], b) == |trans| && FindTrans(trans, b) == |trans|
    ensures b != t.input ==>
      FindTrans(trans + [t], b) == if FindTrans(trans, b) == |trans| then |trans| + 1 else FindTrans(trans, b)
  {
    var i, j := FindTrans(trans + [t], b), FindTrans(trans, b);
    if j < |trans| { assert (trans + [t])[j] == trans[j] && trans[j] in trans; }
    if i < |trans| { assert (trans + [t])[i] == trans[i] && trans[i] in trans; }
    assert (trans + [t])[|trans|] == t;
  }

  lemma FrozenOk(g: Graph, u: Unf, addr: nat)
    requires NodeOk(g, u.node) && u.hasLastT && PendingLast(u)
    requires Known(g, addr) && Live(StateAt(g, addr))
    ensures NodeOk(g, FrozenUnf(u, addr).node) && Live(FrozenUnf(u, addr).node)
  {
    assert forall i :: 0 <= i < |u.node.trans| ==> u.node.trans[i] in u.node.trans;
  }

  /** A frozen entry finds on its last byte what the pending one found in the entry above. */
  lemma FrozenLookup(g: Graph, u: Unf, addr: nat, k: Key)
    requires GraphOk(g) && NodeOk(g, u.node) && u.hasLastT && PendingLast(u)
    requires Known(g, addr) && Live(StateAt(g, addr))
    ensures NodeOk(g, FrozenUnf(u, addr).node)
    ensures LookupIn(g, FrozenUnf(u, addr).node, k) ==
      if k != [] && k[0] == u.lastIn then AddOut(u.lastOut, LookupIn(g, StateAt(g, addr), k[1..]))
      else LookupIn(g, u.node, k)
  {
    FrozenOk(g, u, addr);
    hide WellFormed, Closed, GraphOk;
    if k != [] {
      FindSnoc(u.node.trans, Trans(u.lastIn, u.lastOut, addr), k[0]);
    }
  }

  lemma NodeExtends(g: Graph, h: Graph, s: State)
    requires GraphOk(h) && Extends(g, h) && NodeOk(g, s)
    ensures NodeOk(h, s)
  {
  }

  lemma PoppedOk(g: Graph, h: Graph, stk: seq<Unf>, addr: nat)
    requires StackOk(g, stk) && |stk| >= 2 && GraphOk(h) && Extends(g, h)
    requires Known(h, addr) && StateAt(h, addr) == stk[|stk| - 1].node
    ensures StackOk(h, Popped(stk, addr)) && StackOk(h, stk)
  {
    hide NodeOk, GraphOk, PendingLast;
    var n := |stk| - 2;
    forall j | 0 <= j < |stk| ensures NodeOk(h, stk[j].node) {
      NodeExtends(g, h, stk[j].node);
    }
    FrozenOk(h, stk[n], addr);
  }

  /** Freezing the top of the stack and popping it changes no key and no value. */
  lemma PopKeeps(g: Graph, h: Graph, stk: seq<Unf>, addr: nat)
    requires StackOk(g, stk) && |stk| >= 2 && GraphOk(h) && Extends(g, h)
    requires Known(h, addr) && StateAt(h, addr) == stk[|stk| - 1].node
    ensures StackOk(h, Popped(stk, addr)) && SameAt(g, stk, h, Popped(stk, addr), 0)
  {
    PoppedOk(g, h, stk, addr);
    hide GraphOk, NodeOk, PendingLast, FrozenUnf, LookupIn;
    var n := |stk| - 2;
    var r := Popped(stk, addr);
    assert r[n] == FrozenUnf(stk[n], addr);
    forall k: Key ensures StackLookup(g, stk, n, k) == StackLookup(h, r, n, k) {
      LookupExtends(g, h, stk[n].node, k) by { ClosedOf(g, stk[n].node); }
      FrozenLookup(h, stk[n], addr, k);
      if k != [] {
        LookupExtends(g, h, stk[n + 1].node, k[1..]) by { ClosedOf(g, stk[n + 1].node); }
      }
    }
    SameDown(g, stk, h, r, n);
  }

  lemma ClosedOf(g: Graph, s: State)
    requires NodeOk(g, s)
    ensures Closed(g, s)
  {
  }

  /** The entries addSuffix pushes for the bytes after the first. */
  function Chain(bs: Key): seq<Unf> {
    if bs == [] then [Unf(State(true, 0, []), 0, 0, false)]
    else [Unf(BLANK_STATE, 0, bs[0], true)] + Chain(bs[1..])
  }

  /** `addSuffix`. */
  function Suffixed(stk: seq<Unf>, bs: Key, out: U64): seq<Unf>
    requires stk != [] && bs != []
  {
    var n := |stk| - 1;
    stk[..n] + [stk[n].(hasLastT := true, lastIn := bs[0], lastOut := out)] + Chain(bs[1..])
  }

  lemma {:induction false} ChainShape(bs: Key)
    ensures |Chain(bs)| == |bs| + 1
    ensures forall j :: 0 <= j < |bs| ==> Chain(bs)[j] == Unf(BLANK_STATE, 0, bs[j], true)
    ensures Chain(bs)[|bs|] == Unf(State(true, 0, []), 0, 0, false)
  {
    if bs != [] { ChainShape(bs[1..]); }
  }

  lemma SuffixedShape(stk: seq<Unf>, bs: Key, out: U64)
    requires stk != [] && bs != []
    ensures var r, n := Suffixed(stk, bs, out), |stk| - 1;
      && |r| == |stk| + |bs| && r[..n] == stk[..n]
      && r[n] == stk[n].(hasLastT := true, lastIn := bs[0], lastOut := out)
      && (forall j :: 0 < j < |bs| ==> r[n + j] == Unf(BLANK_STATE, 0, bs[j], true))
      && r[n + |bs|] == Unf(State(true, 0, []), 0, 0, false)
  {
    ChainShape(bs[1..]);
    var r, n := Suffixed(stk, bs, out), |stk| - 1;
    forall j | 0 < j < |bs| ensures r[n + j] == Unf(BLANK_STATE, 0, bs[j], true) {
      assert r[n + j] == Chain(bs[1..])[j - 1];
    }
    assert r[n + |bs|] == Chain(bs[1..])[|bs| - 1];
  }

  ghost predicate AllBelow(trans: seq<Trans>, b: Byte) {
    forall t :: t in trans ==> t.input < b
  }

  lemma SuffixedOk(g: Graph, stk: seq<Unf>, bs: Key, out: U64)
    requires StackOk(g, stk) && bs != [] && AllBelow(stk[|stk| - 1].node.trans, bs[0])
    ensures StackOk(g, Suffixed(stk, bs, out))
    ensures Spelled(Suffixed(stk, bs, out)) == Spelled(stk) + bs
  {
    SuffixedShape(stk, bs, out);
    hide Suffixed, GraphOk;
    var r, n := Suffixed(stk, bs, out), |stk| - 1;
    forall j | 0 <= j < |r|
      ensures NodeOk(g, r[j].node)
      ensures j < |r| - 1 ==> PendingLast(r[j]) && r[j].hasLastT && r[j].lastIn == (Spelled(stk) + bs)[j]
    {
      if j < n {
        assert r[j] == r[..n][j] == stk[j] && Spelled(stk)[j] == stk[j].lastIn;
      } else if j == n {
        assert (Spelled(stk) + bs)[j] == bs[0];
      } else if j < n + |bs| {
        assert r[n + (j - n)] == Unf(BLANK_STATE, 0, bs[j - n], true);
      }
    }
  }

  /** Within the chain only its own key is accepted, with nothing added. */
  lemma {:induction false} ChainLookup(g: Graph, stk: seq<Unf>, bs: Key, out: U64, j: nat, k: Key)
    requires StackOk(g, stk) && bs != [] && 0 < j <= |bs|
    requires StackOk(g, Suffixed(stk, bs, out))
    ensures |stk| - 1 + j < |Suffixed(stk, bs, out)|
    ensures StackLookup(g, Suffixed(stk, bs, out), |stk| - 1 + j, k) == if k == bs[j..] then Some(0) else None
    decreases |bs| - j
  {
    SuffixedShape(stk, bs, out);
    hide Suffixed, GraphOk, NodeOk, PendingLast;
    if j < |bs| && k != [] && k[0] == bs[j] {
      ChainLookup(g, stk, bs, out, j + 1, k[1..]);
      assert k == [k[0]] + k[1..] && bs[j..] == [bs[j]] + bs[j + 1..];
    } else {
      assert j < |bs| ==> bs[j..][0] == bs[j];
      BareLookup(g, BLANK_STATE, k);
      BareLookup(g, State(true, 0, []), k);
    }
  }

  lemma BareLookup(g: Graph, s: State, k: Key)
    requires GraphOk(g) && s.trans == []
    ensures LookupIn(g, s, k) == if k == [] && s.final then Some(s.finalOutput) else None
  {
  }

  /** A byte above all transitions leads nowhere. */
  lemma NoneAbove(g: Graph, s: State, k: Key)
    requires GraphOk(g) && NodeOk(g, s) && k != [] && AllBelow(s.trans, k[0])
    ensures LookupIn(g, s, k) == None
  {
    assert forall i :: 0 <= i < |s.trans| ==> s.trans[i] in s.trans;
  }

  /** What the new suffix adds at the entry it grows from. */
  lemma SuffixLookupTop(g: Graph, stk: seq<Unf>, bs: Key, out: U64, k: Key)
    requires StackOk(g, stk) && bs != [] && AllBelow(stk[|stk| - 1].node.trans, bs[0])
    requires StackOk(g, Suffixed(stk, bs, out)) && |stk| <= |Suffixed(stk, bs, out)|
    ensures StackLookup(g, Suffixed(stk, bs, out), |stk| - 1, k) ==
      if k == bs then Some(out) else StackLookup(g, stk, |stk| - 1, k)
    ensures StackLookup(g, stk, |stk| - 1, bs) == None
  {
    var n := |stk| - 1;
    SuffixedShape(stk, bs, out);
    hide Suffixed, GraphOk, NodeOk, PendingLast, AllBelow, LookupIn, Linked;
    NoneAbove(g, stk[n].node, bs);
    if k != [] && k[0] == bs[0] {
      assert k == [k[0]] + k[1..] && bs == [bs[0]] + bs[1..];
      ChainLookup(g, stk, bs, out, 1, k[1..]);
      NoneAbove(g, stk[n].node, k);
    }
  }

  /** The value the new key gets from entry i on. */
  function SuffixValue(stk: seq<Unf>, i: nat, out: U64): nat
    requires i < |stk|
    decreases |stk| - i
  {
    if i == |stk| - 1 then out else stk[i].lastOut + SuffixValue(stk, i + 1, out)
  }

  lemma {:induction false} SuffixValueWhole(stk: seq<Unf>, i: nat, out: U64)
    requires i < |stk|
    ensures PathOut(stk, i) + SuffixValue(stk, i, out) == PathOut(stk, |stk| - 1) + out
    decreases |stk| - i
  {
    if i < |stk| - 1 { SuffixValueWhole(stk, i + 1, out); }
  }

  /** The suffix adds one key, with the given output, and disturbs no other. */
  lemma {:induction false} SuffixLookup(g: Graph, stk: seq<Unf>, bs: Key, out: U64, i: nat, k: Key)
    requires StackOk(g, stk) && bs != [] && i < |stk|
    requires AllBelow(stk[|stk| - 1].node.trans, bs[0])
    requires StackOk(g, Suffixed(stk, bs, out)) && |stk| <= |Suffixed(stk, bs, out)|
    ensures StackLookup(g, Suffixed(stk, bs, out), i, k) ==
      if k == Spelled(stk)[i..] + bs then Some(SuffixValue(stk, i, out)) else StackLookup(g, stk, i, k)
    decreases |stk| - i
  {
    var r, n := Suffixed(stk, bs, out), |stk| - 1;
    SuffixedShape(stk, bs, out);
    hide Suffixed, GraphOk, NodeOk, PendingLast, AllBelow, LookupIn, Linked;
    if i == n {
      assert Spelled(stk)[n..] + bs == bs;
      SuffixLookupTop(g, stk, bs, out, k);
    } else {
      assert r[i] == r[..n][i] == stk[i];
      var key := Spelled(stk)[i..] + bs;
      assert key[0] == stk[i].lastIn && key[1..] == Spelled(stk)[i + 1..] + bs;
      if k != [] && k[0] == stk[i].lastIn {
        assert k == [k[0]] + k[1..] && key == [key[0]] + key[1..];
        SuffixLookup(g, stk, bs, out, i + 1, k[1..]);
      }
    }
  }

  lemma SuffixLookupWhole(g: Graph, stk: seq<Unf>, bs: Key, out: U64, k: Key)
    requires StackOk(g, stk) && bs != [] && AllBelow(stk[|stk| - 1].node.trans, bs[0])
    requires StackOk(g, Suffixed(stk, bs, out))
    ensures StackLookup(g, Suffixed(stk, bs, out), 0, k) ==
      if k == Spelled(stk) + bs then Some(PathOut(stk, |stk| - 1) + out) else StackLookup(g, stk, 0, k)
  {
    assert stk != [] && |stk| <= |Suffixed(stk, bs, out)| by { SuffixedShape(stk, bs, out); }
    hide StackOk, Suffixed, StackLookup, AllBelow;
    SuffixValueWhole(stk, 0, out);
    assert Spelled(stk)[0..] == Spelled(stk);
    SuffixLookup(g, stk, bs, out, 0, k);
  }

  /** Inserting: the stack comes to hold the new key as well. */
  lemma SuffixHolds(g: Graph, stk: seq<Unf>, bs: Key, out: U64, m: map<Key, U64>, val: U64)
    requires StackOk(g, stk) && bs != [] && AllBelow(stk[|stk| - 1].node.trans, bs[0])
    requires StackHolds(g, stk, m) && PathOut(stk, |stk| - 1) + out == val
    ensures StackOk(g, Suffixed(stk, bs, out))
    ensures StackHolds(g, Suffixed(stk, bs, out), m[Spelled(stk) + bs := val])
  {
    hide StackOk, Suffixed, StackLookup, AllBelow, Spelled, PathOut;
    SuffixedOk(g, stk, bs, out);
    var r, m2 := Suffixed(stk, bs, out), m[Spelled(stk) + bs := val];
    forall k: Key ensures StackLookup(g, r, 0, k) == if k in m2 then Some(m2[k]) else None {
      SuffixLookupWhole(g, stk, bs, out, k);
    }
  }
}
