/**
 * What a stack of unfinished nodes stands for: the nodes along the last key inserted, each but the
 * top with a pending last transition into the next.
 */
module StackMeaning {
  import opened Keys
  import opened Transducer

  datatype Unf = Unf(node: State, lastOut: U64, lastIn: Byte, hasLastT: bool)

  /** Only the top has no pending transition. */
  ghost predicate Linked(stk: seq<Unf>) {
    && stk != []
    && (forall j :: 0 <= j < |stk| - 1 ==> stk[j].hasLastT)
    && !stk[|stk| - 1].hasLastT
  }

  ghost predicate NodeOk(g: Graph, s: State) {
    WellFormed(s) && Closed(g, s)
  }

  /** The pending byte is above those of the finished transitions. */
  ghost predicate PendingLast(u: Unf) {
    forall t :: t in u.node.trans ==> t.input < u.lastIn
  }

  ghost predicate StackOk(g: Graph, stk: seq<Unf>) {
    && GraphOk(g) && Linked(stk)
    && (forall j :: 0 <= j < |stk| ==> NodeOk(g, stk[j].node))
    && (forall j :: 0 <= j < |stk| - 1 ==> PendingLast(stk[j]))
    && (|stk| > 1 ==> Live(stk[|stk| - 1].node))
  }

  /** The sum of outputs along key from entry i of the stack. */
  function StackLookup(g: Graph, stk: seq<Unf>, i: nat, key: Key): Option<nat>
    requires StackOk(g, stk) && i < |stk|
    decreases |stk| - i
  {
    if key != [] && i + 1 < |stk| && key[0] == stk[i].lastIn
    then AddOut(stk[i].lastOut, StackLookup(g, stk, i + 1, key[1..]))
    else LookupIn(g, stk[i].node, key)
  }

  /** The keys and values of the whole stack are those of m. */
  ghost predicate StackHolds(g: Graph, stk: seq<Unf>, m: map<Key, U64>)
    requires StackOk(g, stk)
  {
    forall k: Key :: StackLookup(g, stk, 0, k) == if k in m then Some(m[k]) else None
  }

  /** The key the pending transitions spell. */
  function Spelled(stk: seq<Unf>): (k: Key)
    requires stk != []
    ensures |k| == |stk| - 1
  {
    seq(|stk| - 1, j requires 0 <= j < |stk| - 1 => stk[j].lastIn)
  }

  /** The outputs pending on the first n entries. */
  function PathOut(stk: seq<Unf>, n: nat): nat
    requires n <= |stk|
  {
    if n == 0 then 0 else PathOut(stk, n - 1) + stk[n - 1].lastOut
  }

  /** Entry i stands for the same keys and values in both stacks. */
  ghost predicate SameAt(g: Graph, a: seq<Unf>, h: Graph, b: seq<Unf>, i: nat)
    requires StackOk(g, a) && StackOk(h, b) && i < |a| && i < |b|
  {
    forall k: Key :: StackLookup(g, a, i, k) == StackLookup(h, b, i, k)
  }

  /** Stacks alike up to entry i and equal in meaning there are equal in meaning as a whole. */
  lemma {:induction false} SameDown(g: Graph, a: seq<Unf>, h: Graph, b: seq<Unf>, i: nat)
    requires StackOk(g, a) && StackOk(h, b) && i < |a| && i < |b|
    requires a[..i] == b[..i] && Extends(g, h)
    requires SameAt(g, a, h, b, i)
    ensures SameAt(g, a, h, b, 0)
  {
    if i > 0 {
      var p := i - 1;
      assert a[p] == a[..i][p] == b[..i][p] == b[p];
      forall k: Key ensures StackLookup(g, a, p, k) == StackLookup(h, b, p, k) {
        LookupExtends(g, h, a[p].node, k);
        if k != [] && k[0] == a[p].lastIn {
          assert StackLookup(g, a, i, k[1..]) == StackLookup(h, b, i, k[1..]);
        }
      }
      assert a[..p] == a[..i][..p] == b[..i][..p] == b[..p];
      SameDown(g, a, h, b, p);
    }
  }

  /** Some key is accepted from every entry of a stack that has more than one. */
  lemma {:induction false} StackLive(g: Graph, stk: seq<Unf>, i: nat) returns (key: Key)
    requires StackOk(g, stk) && 0 < |stk| - 1 && i < |stk|
    ensures StackLookup(g, stk, i, key).Some?
    ensures i + 1 < |stk| ==> key != [] && key[0] == stk[i].lastIn
    decreases |stk| - i
  {
    if i + 1 == |stk| {
      key := LiveKeyOf(g, stk[i].node);
    } else {
      var rest := StackLive(g, stk, i + 1);
      key := [stk[i].lastIn] + rest;
      assert key[1..] == rest;
    }
  }

  lemma LiveKeyOf(g: Graph, s: State) returns (key: Key)
    requires GraphOk(g) && NodeOk(g, s) && Live(s)
    ensures LookupIn(g, s, key).Some?
  {
    if s.final {
      key := [];
    } else {
      key := KeyThrough(g, s, 0);
    }
  }

  /** Some key is accepted through each transition of a node. */
  lemma KeyThrough(g: Graph, s: State, i: nat) returns (key: Key)
    requires GraphOk(g) && NodeOk(g, s) && i < |s.trans|
    ensures key != [] && key[0] == s.trans[i].input
    ensures LookupIn(g, s, key).Some? && LookupIn(g, s, key).value >= s.trans[i].out
  {
    var t := s.trans[i];
    var rest := [];
    if t.addr != EMPTY_ADDR {
      rest := LiveKey(g, g[t.addr], t.addr);
    }
    key := [t.input] + rest;
    assert key[1..] == rest;
    FindTransAt(s.trans, i);
  }
}
