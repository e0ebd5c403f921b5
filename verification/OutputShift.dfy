/**
 * Moving outputs down the stack: what findCommonPrefixAndSetOutput does to one entry, in uint64
 * arithmetic, and that it changes the value of no key and never wraps.
 */
module OutputShift {
  import opened Keys
  import opened Transducer
  import opened StackMeaning

  function OutputPrefix(l: U64, r: U64): U64 {
    if l < r then l else r
  }

  /** `l - r` on uint64. */
  function OutputSub(l: U64, r: U64): U64 {
    (l - r) % U64_LIMIT
  }

  /** `l + r` on uint64. */
  function OutputCat(l: U64, r: U64): U64 {
    (l + r) % U64_LIMIT
  }

  /**
   * What a turn keeps of a pending output and of a new one is at most either, so that both differences
   * are the exact ones; one of them is 0.
   */
  lemma DifferencesExact(pending: U64, out: U64)
    ensures var common := OutputPrefix(pending, out);
      && OutputSub(pending, common) == pending - common && OutputSub(out, common) == out - common
      && (common == pending || common == out)
  {
  }

  function PrefixedTrans(trans: seq<Trans>, d: U64): (r: seq<Trans>)
    ensures |r| == |trans|
    ensures forall i :: 0 <= i < |r| ==> r[i] == trans[i].(out := OutputCat(d, trans[i].out))
  {
    seq(|trans|, i requires 0 <= i < |trans| => trans[i].(out := OutputCat(d, trans[i].out)))
  }

  function Prefixed(s: State, d: U64): State {
    State(s.final, if s.final then OutputCat(d, s.finalOutput) else s.finalOutput, PrefixedTrans(s.trans, d))
  }

  /** `addOutputPrefix`. */
  function PrefixedUnf(u: Unf, d: U64): Unf {
    u.(node := Prefixed(u.node, d), lastOut := if u.hasLastT then OutputCat(d, u.lastOut) else u.lastOut)
  }

  /** One turn of the loop at entry i, for a remaining output. */
  function Shifted(stk: seq<Unf>, i: nat, out: U64): (r: seq<Unf>)
    requires i + 1 < |stk|
    ensures |r| == |stk|
  {
    var common := OutputPrefix(stk[i].lastOut, out);
    var add := OutputSub(stk[i].lastOut, common);
    var lowered := stk[i := stk[i].(lastOut := common)];
    if add != 0 then lowered[i + 1 := PrefixedUnf(stk[i + 1], add)] else lowered
  }

  function Remaining(stk: seq<Unf>, i: nat, out: U64): U64
    requires i < |stk|
  {
    OutputSub(out, OutputPrefix(stk[i].lastOut, out))
  }

  /** All values fit a uint64. */
  ghost predicate Bounded(g: Graph, stk: seq<Unf>)
    requires StackOk(g, stk)
  {
    forall k: Key :: StackLookup(g, stk, 0, k).Some? ==> StackLookup(g, stk, 0, k).value < U64_LIMIT
  }

  /** A value below entry i, with the outputs pending above it, is a value of the stack. */
  lemma {:induction false} BoundedBelow(g: Graph, stk: seq<Unf>, i: nat, k: Key)
    requires StackOk(g, stk) && Bounded(g, stk) && i < |stk|
    requires StackLookup(g, stk, i, k).Some?
    ensures PathOut(stk, i) + StackLookup(g, stk, i, k).value < U64_LIMIT
  {
    if i > 0 {
      var up := [stk[i - 1].lastIn] + k;
      assert up[1..] == k;
      BoundedBelow(g, stk, i - 1, up);
    }
  }

  /** Adding d to every output of an entry wraps none of them. */
  ghost predicate NoWrap(u: Unf, d: nat) {
    && (u.node.final ==> d + u.node.finalOutput < U64_LIMIT)
    && (forall j :: 0 <= j < |u.node.trans| ==> d + u.node.trans[j].out < U64_LIMIT)
    && (u.hasLastT ==> d + u.lastOut < U64_LIMIT)
  }

  /** What is pending on one entry never wraps the outputs of the next. */
  lemma ShiftNeverWraps(g: Graph, stk: seq<Unf>, i: nat)
    requires StackOk(g, stk) && Bounded(g, stk) && i + 1 < |stk|
    ensures NoWrap(stk[i + 1], stk[i].lastOut)
  {
    hide GraphOk, NodeOk, PendingLast, Bounded, LookupIn;
    var u := stk[i + 1];
    assert PathOut(stk, i + 1) >= stk[i].lastOut;
    if u.node.final {
      FinalValue(g, u.node);
      BoundedBelow(g, stk, i + 1, []);
    }
    forall j | 0 <= j < |u.node.trans| ensures stk[i].lastOut + u.node.trans[j].out < U64_LIMIT {
      TransBounded(g, stk, i + 1, j);
    }
    if u.hasLastT {
      var k := StackLive(g, stk, i + 1);
      BoundedBelow(g, stk, i + 1, k);
    }
  }

  lemma FinalValue(g: Graph, s: State)
    requires GraphOk(g) && NodeOk(g, s) && s.final
    ensures LookupIn(g, s, []) == Some(s.finalOutput)
  {
  }

  lemma TransBounded(g: Graph, stk: seq<Unf>, i: nat, j: nat)
    requires StackOk(g, stk) && Bounded(g, stk) && i < |stk| && j < |stk[i].node.trans|
    ensures PathOut(stk, i) + stk[i].node.trans[j].out < U64_LIMIT
  {
    hide GraphOk, NodeOk, Bounded, LookupIn;
    var k := KeyThrough(g, stk[i].node, j);
    assert stk[i].node.trans[j] in stk[i].node.trans;
    BoundedBelow(g, stk, i, k);
  }

  lemma {:induction false} PrefixedFind(trans: seq<Trans>, d: U64, b: Byte)
    ensures FindTrans(PrefixedTrans(trans, d), b) == FindTrans(trans, b)
  {
    if trans != [] && trans[0].input != b {
      assert PrefixedTrans(trans, d)[1..] == PrefixedTrans(trans[1..], d);
      PrefixedFind(trans[1..], d, b);
    }
  }

  lemma PrefixedOk(g: Graph, s: State, d: U64)
    requires NodeOk(g, s)
    ensures NodeOk(g, Prefixed(s, d))
  {
  }

  /** A node with d added to its outputs gives every key d more. */
  lemma PrefixedLookup(g: Graph, u: Unf, d: U64, k: Key)
    requires GraphOk(g) && NodeOk(g, u.node) && NoWrap(u, d)
    ensures NodeOk(g, Prefixed(u.node, d))
    ensures LookupIn(g, Prefixed(u.node, d), k) == AddOut(d, LookupIn(g, u.node, k))
  {
    hide WellFormed, Closed, GraphOk, OutputCat, LookupIn, FindTrans, NoWrap;
    var s := u.node;
    PrefixedOk(g, s, d);
    LookupStep(g, s, k);
    LookupStep(g, Prefixed(s, d), k);
    if k == [] {
      if s.final { FinalNoWrap(u, d); }
    } else {
      PrefixedFind(s.trans, d, k[0]);
      var i := FindTrans(s.trans, k[0]);
      if i < |s.trans| {
        TransNoWrap(u, d, i);
        AddOutTwice(d, s.trans[i].out, LookupIn(g, StateAt(g, s.trans[i].addr), k[1..]));
      }
    }
  }

  /** One step of a lookup. */
  lemma LookupStep(g: Graph, s: State, k: Key)
    requires GraphOk(g) && Closed(g, s)
    ensures k == [] ==> LookupIn(g, s, k) == if s.final then Some(s.finalOutput) else None
    ensures k != [] && FindTrans(s.trans, k[0]) == |s.trans| ==> LookupIn(g, s, k) == None
    ensures k != [] && FindTrans(s.trans, k[0]) < |s.trans| ==> var t := s.trans[FindTrans(s.trans, k[0])];
      Known(g, t.addr) && Closed(g, StateAt(g, t.addr))
      && LookupIn(g, s, k) == AddOut(t.out, LookupIn(g, StateAt(g, t.addr), k[1..]))
  {
  }

  lemma FinalNoWrap(u: Unf, d: U64)
    requires NoWrap(u, d) && u.node.final
    ensures OutputCat(d, u.node.finalOutput) == d + u.node.finalOutput
  {
  }

  lemma LastNoWrap(u: Unf, d: U64)
    requires NoWrap(u, d) && u.hasLastT
    ensures OutputCat(d, u.lastOut) == d + u.lastOut
  {
  }

  lemma TransNoWrap(u: Unf, d: U64, i: nat)
    requires NoWrap(u, d) && i < |u.node.trans|
    ensures OutputCat(d, u.node.trans[i].out) == d + u.node.trans[i].out
  {
  }

  lemma AddOutTwice(a: nat, b: nat, r: Option<nat>)
    ensures AddOut(a, AddOut(b, r)) == AddOut(a + b, r)
  {
  }

  lemma NoWrapLess(u: Unf, d: nat, e: nat)
    requires NoWrap(u, e) && d <= e
    ensures NoWrap(u, d)
  {
  }

  /** After the turn entry i + 1 gives every key what entry i lost. */
  lemma {:induction false} ShiftedBelow(g: Graph, stk: seq<Unf>, i: nat, d: U64, k: Key)
    requires StackOk(g, stk) && i < |stk| && NoWrap(stk[i], d)
    requires StackOk(g, stk[i := PrefixedUnf(stk[i], d)])
    requires stk[i].hasLastT || i + 1 == |stk|
    ensures StackLookup(g, stk[i := PrefixedUnf(stk[i], d)], i, k) == AddOut(d, StackLookup(g, stk, i, k))
  {
    hide GraphOk, NodeOk, PendingLast, NoWrap, Prefixed, LookupIn, OutputCat, FindTrans;
    var b := stk[i := PrefixedUnf(stk[i], d)];
    PrefixedLookup(g, stk[i], d, k);
    if stk[i].hasLastT { LastNoWrap(stk[i], d); }
    if i + 1 < |stk| && k != [] && k[0] == stk[i].lastIn {
      AboveAlike(g, stk, b, i + 1, k[1..]);
    }
  }

  /** The meaning of an entry depends on it and those above only. */
  lemma {:induction false} AboveAlike(g: Graph, a: seq<Unf>, b: seq<Unf>, i: nat, k: Key)
    requires StackOk(g, a) && StackOk(g, b) && i < |a| == |b| && a[i..] == b[i..]
    ensures StackLookup(g, a, i, k) == StackLookup(g, b, i, k)
    decreases |a| - i
  {
    assert a[i] == a[i..][0] == b[i..][0] == b[i];
    if k != [] && i + 1 < |a| {
      assert a[i + 1..] == a[i..][1..] == b[i..][1..] == b[i + 1..];
      AboveAlike(g, a, b, i + 1, k[1..]);
    }
  }

  lemma ShiftedOk(g: Graph, stk: seq<Unf>, i: nat, out: U64)
    requires StackOk(g, stk) && Bounded(g, stk) && i + 1 < |stk|
    ensures StackOk(g, Shifted(stk, i, out)) && Spelled(Shifted(stk, i, out)) == Spelled(stk)
  {
    var r := Shifted(stk, i, out);
    forall j | 0 <= j < |r| ensures NodeOk(g, r[j].node) && (PendingLast(stk[j]) ==> PendingLast(r[j]))
      ensures r[j].hasLastT == stk[j].hasLastT && r[j].lastIn == stk[j].lastIn
      ensures Live(stk[j].node) ==> Live(r[j].node)
    {
    }
  }

  lemma ShiftedAt(g: Graph, stk: seq<Unf>, i: nat, out: U64, k: Key)
    requires StackOk(g, stk) && Bounded(g, stk) && i + 1 < |stk|
    requires StackOk(g, Shifted(stk, i, out))
    ensures StackLookup(g, Shifted(stk, i, out), i, k) == StackLookup(g, stk, i, k)
  {
    hide GraphOk, NodeOk, PendingLast, Bounded, NoWrap, Prefixed, LookupIn, OutputSub, OutputPrefix;
    var r := Shifted(stk, i, out);
    DifferencesExact(stk[i].lastOut, out);
    var add := OutputSub(stk[i].lastOut, OutputPrefix(stk[i].lastOut, out));
    if k != [] && k[0] == stk[i].lastIn {
      if add == 0 {
        AboveAlike(g, stk, r, i + 1, k[1..]);
      } else {
        ShiftNeverWraps(g, stk, i);
        NoWrapLess(stk[i + 1], add, stk[i].lastOut);
        var b := stk[i + 1 := PrefixedUnf(stk[i + 1], add)];
        AboveOk(g, r, b, i + 1);
        ShiftedBelow(g, stk, i + 1, add, k[1..]);
        AboveAlike(g, r, b, i + 1, k[1..]);
      }
    }
  }

  lemma AboveOk(g: Graph, r: seq<Unf>, b: seq<Unf>, i: nat)
    requires StackOk(g, r) && 0 < i < |r| == |b|
    requires b == r[i - 1 := b[i - 1]] && b[i - 1].lastIn == r[i - 1].lastIn
    requires b[i - 1].hasLastT && b[i - 1].node == r[i - 1].node
    ensures StackOk(g, b)
  {
  }

  /** One turn of the loop: no value changes, and what is kept on the path plus the remainder is the same. */
  lemma ShiftKeepsValues(g: Graph, stk: seq<Unf>, i: nat, out: U64)
    requires StackOk(g, stk) && Bounded(g, stk) && i + 1 < |stk|
    ensures var r := Shifted(stk, i, out);
      && StackOk(g, r) && SameAt(g, stk, g, r, 0) && Bounded(g, r) && Spelled(r) == Spelled(stk)
      && PathOut(r, i + 1) + Remaining(stk, i, out) == PathOut(stk, i) + out
  {
    hide OutputSub, OutputPrefix;
    var r := Shifted(stk, i, out);
    DifferencesExact(stk[i].lastOut, out);
    ShiftedOk(g, stk, i, out);
    forall k: Key ensures StackLookup(g, stk, i, k) == StackLookup(g, r, i, k) {
      ShiftedAt(g, stk, i, out, k);
    }
    SameDown(g, stk, g, r, i);
    PathOutAlike(stk, r, i);
  }

  lemma {:induction false} PathOutAlike(a: seq<Unf>, b: seq<Unf>, n: nat)
    requires n <= |a| && n <= |b| && a[..n] == b[..n]
    ensures PathOut(a, n) == PathOut(b, n)
  {
    if n > 0 {
      assert a[n - 1] == a[..n][n - 1] == b[..n][n - 1] == b[n - 1];
      assert a[..n - 1] == a[..n][..n - 1] == b[..n][..n - 1] == b[..n - 1];
      PathOutAlike(a, b, n - 1);
    }
  }
}
