/** The stack of unfinished nodes (builder.go), changed in place. */
module Unfinished {
  import opened Keys
  import opened Transducer
  import opened NodePool
  import opened StackMeaning
  import opened OutputShift
  import opened StackSteps

  /** An entry of the stack: a node and the transition it is still waiting to finish. */
  datatype Pending = Pending(node: BuilderNode, lastOut: U64, lastIn: Byte, hasLastT: bool)

  ghost function StackNodes(stack: seq<Pending>): set<BuilderNode> {
    set c | c in stack :: c.node
  }

  class UnfinishedNodes {
    const pool: BuilderNodePool
    var stack: seq<Pending>
    /** The entries with their nodes' values. */
    ghost var view: seq<Unf>

    ghost predicate Shows(j: nat)
      requires j < |stack| && j < |view|
      reads this, stack[j].node
    {
      view[j] == Unf(stack[j].node.View(), stack[j].lastOut, stack[j].lastIn, stack[j].hasLastT)
    }

    /** The view is current, and no node is in two entries or in the pool. */
    ghost predicate Valid()
      reads this, StackNodes(stack), pool, pool.members
    {
      && |view| == |stack| && pool.Valid()
      && (forall j :: 0 <= j < |stack| ==> Shows(j))
      && (forall i, j :: 0 <= i < j < |stack| ==> stack[i].node != stack[j].node)
      && StackNodes(stack) !! pool.members
    }

    constructor (p: BuilderNodePool)
      requires p.Valid()
      modifies p, p.members
      ensures Valid() && pool == p && view == [Unf(BLANK, 0, 0, false)]
      ensures forall n :: n in StackNodes(stack) ==> n in old(p.members) || fresh(n)
      ensures p.members <= old(p.members)
    {
      pool := p;
      stack := [];
      view := [];
      new;
      PushEmpty(false);
    }

    method PushEmpty(final: bool)
      requires Valid()
      modifies this`stack, this`view, pool, pool.members
      ensures Valid() && view == old(view) + [Unf(State(final, 0, []), 0, 0, false)]
      ensures |stack| == old(|stack|) + 1 && stack[..old(|stack|)] == old(stack)
      ensures forall n :: n in StackNodes(stack) ==> n in old(StackNodes(stack)) || n in old(pool.members) || fresh(n)
      ensures pool.members <= old(pool.members)
    {
      Push(final, 0, false);
    }

    /** Takes a node from the pool and pushes it as a new entry. */
    method Push(final: bool, lastIn: Byte, hasLastT: bool)
      requires Valid()
      modifies this`stack, this`view, pool, pool.members
      ensures Valid() && view == old(view) + [Unf(State(final, 0, []), 0, lastIn, hasLastT)]
      ensures |stack| == old(|stack|) + 1 && stack[..old(|stack|)] == old(stack)
      ensures forall n :: n in StackNodes(stack) ==> n in old(StackNodes(stack)) || n in old(pool.members) || fresh(n)
      ensures pool.members <= old(pool.members)
    {
      var node := Take(final);
      Append(node, lastIn, hasLastT);
    }

    /** A blank node from the pool, with its final flag set. */
    method Take(final: bool) returns (node: BuilderNode)
      requires Valid()
      modifies pool, pool.members
      ensures Valid() && node.View() == State(final, 0, [])
      ensures node !in StackNodes(stack) && node !in pool.members && (node in old(pool.members) || fresh(node))
      ensures pool.members <= old(pool.members)
    {
      node := pool.Get();
      assert node in old(pool.members) || fresh(node);
      assert forall j :: 0 <= j < |stack| ==> stack[j] in stack && stack[j].node in old(StackNodes(stack));
      node.final := final;
      assert forall j :: 0 <= j < |stack| ==> old(Shows(j)) ==> Shows(j);
    }

    method Append(node: BuilderNode, lastIn: Byte, hasLastT: bool)
      requires Valid() && node !in StackNodes(stack) && node !in pool.members
      modifies this`stack, this`view
      ensures Valid() && view == old(view) + [Unf(node.View(), 0, lastIn, hasLastT)]
      ensures |stack| == old(|stack|) + 1 && stack[..old(|stack|)] == old(stack)
      ensures StackNodes(stack) == old(StackNodes(stack)) + {node}
    {
      assert forall j :: 0 <= j < |stack| ==> stack[j] in stack;
      stack := stack + [Pending(node, 0, lastIn, hasLastT)];
      view := view + [Unf(node.View(), 0, lastIn, hasLastT)];
      assert forall j :: 0 <= j < |stack| - 1 ==> old(Shows(j)) ==> Shows(j);
      OneMoreNode(old(stack), Pending(node, 0, lastIn, hasLastT));
    }

    /** `addOutputPrefix` on entry i. */
    method AddOutputPrefix(i: nat, prefix: U64)
      requires Valid() && i < |stack|
      modifies this`stack, this`view, stack[i].node
      ensures Valid() && view == old(view)[i := PrefixedUnf(old(view)[i], prefix)]
      ensures |stack| == old(|stack|) && forall j :: 0 <= j < |stack| ==> stack[j].node == old(stack)[j].node
    {
      assert Shows(i);
      var node: BuilderNode := stack[i].node;
      PrefixNode(node, prefix);
      if stack[i].hasLastT {
        stack := stack[i := stack[i].(lastOut := OutputCat(prefix, stack[i].lastOut))];
      }
      view := view[i := PrefixedUnf(view[i], prefix)];
      assert StackNodes(stack) == old(StackNodes(stack)) by { SameNodes(stack, old(stack)); }
      assert forall j :: 0 <= j < |stack| && j != i ==> old(Shows(j)) ==> Shows(j);
    }

    /** `lastCompiled` on the top entry. */
    method TopLastFreeze(addr: nat)
      requires Valid() && stack != []
      modifies this`stack, this`view, stack[|stack| - 1].node
      ensures Valid() && view == old(view)[old(|view|) - 1 := FrozenUnf(old(view)[old(|view|) - 1], addr)]
      ensures |stack| == old(|stack|) && forall j :: 0 <= j < |stack| ==> stack[j].node == old(stack)[j].node
      ensures stack[..|stack| - 1] == old(stack)[..|stack| - 1]
    {
      var last := |stack| - 1;
      assert Shows(last);
      var b := stack[last];
      if b.hasLastT {
        stack := stack[last := b.(hasLastT := false, lastOut := 0)];
        b.node.trans := b.node.trans + [Trans(b.lastIn, b.lastOut, addr)];
      }
      view := view[last := FrozenUnf(view[last], addr)];
      assert StackNodes(stack) == old(StackNodes(stack)) by { SameNodes(stack, old(stack)); }
      assert forall j :: 0 <= j < last ==> old(Shows(j)) ==> Shows(j);
    }

    method PopEmpty() returns (node: BuilderNode)
      requires Valid() && stack != []
      modifies this`stack, this`view
      ensures Valid() && view == old(view)[..old(|view|) - 1] && stack == old(stack)[..old(|stack|) - 1]
      ensures node == old(stack)[old(|stack|) - 1].node && node !in StackNodes(stack)
      ensures node.View() == old(view)[old(|view|) - 1].node && node !in pool.members
    {
      var l := |stack|;
      assert Shows(l - 1);
      assert stack[l - 1] in stack;
      node := stack[l - 1].node;
      stack := stack[..l - 1];
      view := view[..l - 1];
      assert forall j :: 0 <= j < l - 1 ==> stack[j] == old(stack)[j];
      assert forall j :: 0 <= j < l - 1 ==> old(Shows(j)) ==> Shows(j);
      assert forall c :: c in stack ==> c in old(stack);
    }

    method PopRoot() returns (node: BuilderNode)
      requires Valid() && stack != []
      modifies this`stack, this`view
      ensures Valid() && view == old(view)[..old(|view|) - 1] && stack == old(stack)[..old(|stack|) - 1]
      ensures node == old(stack)[old(|stack|) - 1].node && node !in StackNodes(stack)
      ensures node.View() == old(view)[old(|view|) - 1].node && node !in pool.members
    {
      node := PopEmpty();
    }

    /** Pops the top entry after finishing its pending transition with addr. */
    method PopFreeze(addr: nat) returns (node: BuilderNode)
      requires Valid() && stack != []
      modifies this`stack, this`view, stack[|stack| - 1].node
      ensures Valid() && view == old(view)[..old(|view|) - 1] && stack == old(stack)[..old(|stack|) - 1]
      ensures node == old(stack)[old(|stack|) - 1].node && node !in StackNodes(stack)
      ensures node.View() == FrozenUnf(old(view)[old(|view|) - 1], addr).node && node !in pool.members
    {
      TopLastFreeze(addr);
      ghost var frozen := view;
      ghost var mid := stack;
      node := PopEmpty();
      assert forall j :: 0 <= j < |stack| ==> stack[j] == mid[j];
      assert view == old(view)[..old(|view|) - 1];
      assert stack == old(stack)[..old(|stack|) - 1];
    }

    /** Gives the top entry the pending transition an inserted suffix starts with. */
    method SetTopPending(b: Byte, out: U64)
      requires Valid() && stack != []
      modifies this`stack, this`view
      ensures Valid() && |view| == old(|view|) && StackNodes(stack) == old(StackNodes(stack))
      ensures var last := |view| - 1;
        view == old(view)[last := old(view)[last].(hasLastT := true, lastIn := b, lastOut := out)]
    {
      var last := |stack| - 1;
      assert Shows(last);
      stack := stack[last := stack[last].(hasLastT := true, lastIn := b, lastOut := out)];
      view := view[last := view[last].(hasLastT := true, lastIn := b, lastOut := out)];
      SameNodes(stack, old(stack));
      assert forall j :: 0 <= j < last ==> old(Shows(j)) ==> Shows(j);
    }

    method AddSuffix(bs: Key, out: U64)
      requires Valid() && stack != []
      modifies this`stack, this`view, pool, pool.members
      ensures Valid() && view == if bs == [] then old(view) else Suffixed(old(view), bs, out)
      ensures forall n :: n in StackNodes(stack) ==> n in old(StackNodes(stack)) || n in old(pool.members) || fresh(n)
      ensures pool.members <= old(pool.members)
    {
      if |bs| == 0 {
        return;
      }
      SetTopPending(bs[0], out);
      assert view + Chain(bs[1..]) == Suffixed(old(view), bs, out);
      for i := 1 to |bs|
        invariant Valid() && view + Chain(bs[i..]) == Suffixed(old(view), bs, out)
        invariant forall n :: n in StackNodes(stack) ==>
          n in old(StackNodes(stack)) || n in old(pool.members) || fresh(n)
        invariant pool.members <= old(pool.members)
      {
        ghost var before := view;
        Push(false, bs[i], true);
        ChainStep(before, bs, i);
      }
      assert Chain(bs[|bs|..]) == [Unf(State(true, 0, []), 0, 0, false)];
      PushEmpty(true);
    }

    /**
     * Walks down the part of the stack that key shares with the last key, leaving on it no more
     * output than out allows and moving the rest down. Answers the length of that part and what is
     * left of out.
     */
    method FindCommonPrefixAndSetOutput(key: Key, out: U64, ghost g: Graph) returns (n: nat, rest: U64)
      requires Valid() && StackOk(g, view) && Bounded(g, view)
      modifies this`stack, this`view, StackNodes(stack)
      ensures Valid() && Walked(g, old(view), view, key, n, out, rest)
      ensures StackNodes(stack) == old(StackNodes(stack))
      ensures n == CommonLen(key, Spelled(view))
    {
      n, rest := 0, out;
      WalkStart(g, view, key, out);
      while n < |key|
        invariant n <= |key| && Valid() && Walked(g, old(view), view, key, n, out, rest)
        invariant StackNodes(stack) == old(StackNodes(stack))
      {
        if n >= |stack| {
          break;
        }
        assert Shows(n);
        if !stack[n].hasLastT {
          break;
        }
        if stack[n].lastIn != key[n] {
          break;
        }
        WalkStep(g, old(view), view, key, n, out, rest);
        rest := ShiftAt(n, rest);
        n := n + 1;
      }
      WalkEnd(g, old(view), view, key, n, out, rest);
    }

    /** One turn of that loop: what the pending output of entry i cannot keep goes to entry i + 1. */
    method ShiftAt(i: nat, out: U64) returns (rest: U64)
      requires Valid() && i + 1 < |stack|
      modifies this`stack, this`view, StackNodes(stack)
      ensures Valid() && view == Shifted(old(view), i, out) && rest == Remaining(old(view), i, out)
      ensures StackNodes(stack) == old(StackNodes(stack))
      ensures forall j :: 0 <= j < |view| ==> SameForm(view[j], old(view)[j])
    {
      assert Shows(i);
      var commonPre := OutputPrefix(stack[i].lastOut, out);
      var addPrefix := OutputSub(stack[i].lastOut, commonPre);
      rest := OutputSub(out, commonPre);
      SetPendingOut(i, commonPre);
      if addPrefix != 0 {
        assert stack[i + 1] in stack;
        AddOutputPrefix(i + 1, addPrefix);
        SameNodes(stack, old(stack));
      }
    }

    method SetPendingOut(i: nat, out: U64)
      requires Valid() && i < |stack|
      modifies this`stack, this`view
      ensures Valid() && view == old(view)[i := old(view)[i].(lastOut := out)]
      ensures |stack| == old(|stack|) && forall j :: 0 <= j < |stack| ==> stack[j].node == old(stack)[j].node
      ensures StackNodes(stack) == old(StackNodes(stack))
    {
      assert Shows(i);
      stack := stack[i := stack[i].(lastOut := out)];
      view := view[i := view[i].(lastOut := out)];
      SameNodes(stack, old(stack));
      assert forall j :: 0 <= j < |stack| && j != i ==> old(Shows(j)) ==> Shows(j);
    }

    method SetRootOutput(out: U64)
      requires Valid() && stack != []
      modifies this`view, stack[0].node
      ensures Valid() && view == old(view)[0 := old(view)[0].(node := State(true, out, old(view)[0].node.trans))]
    {
      assert Shows(0);
      stack[0].node.final := true;
      stack[0].node.finalOutput := out;
      view := view[0 := view[0].(node := State(true, out, view[0].node.trans))];
      assert forall j :: 0 < j < |stack| ==> old(Shows(j)) ==> Shows(j);
    }
  }

  /** The same node but for its outputs. */
  ghost predicate SameForm(a: Unf, b: Unf) {
    a.node.final == b.node.final && |a.node.trans| == |b.node.trans|
  }

  /** After n turns the stack b, once a, agrees with key that far and keeps every value. */
  ghost predicate Walked(g: Graph, a: seq<Unf>, b: seq<Unf>, key: Key, n: nat, out: U64, rest: U64) {
    && StackOk(g, a) && StackOk(g, b) && Bounded(g, b) && SameAt(g, a, g, b, 0)
    && |b| == |a| && Spelled(b) == Spelled(a)
    && n <= |key| && n < |b| && key[..n] == Spelled(b)[..n]
    && PathOut(b, n) + rest == out
    && forall j :: 0 <= j < |b| ==> SameForm(b[j], a[j])
  }

  lemma WalkStart(g: Graph, a: seq<Unf>, key: Key, out: U64)
    requires StackOk(g, a) && Bounded(g, a)
    ensures Walked(g, a, a, key, 0, out, out)
  {
  }

  lemma ShiftedForm(b: seq<Unf>, n: nat, rest: U64)
    requires n + 1 < |b|
    ensures forall j :: 0 <= j < |b| ==> SameForm(Shifted(b, n, rest)[j], b[j])
  {
  }

  lemma WalkStep(g: Graph, a: seq<Unf>, b: seq<Unf>, key: Key, n: nat, out: U64, rest: U64)
    requires Walked(g, a, b, key, n, out, rest)
    requires n < |key| && b[n].hasLastT && b[n].lastIn == key[n]
    ensures n + 1 < |b|
    ensures Walked(g, a, Shifted(b, n, rest), key, n + 1, out, Remaining(b, n, rest))
  {
    hide NodeOk, GraphOk, PendingLast, Bounded, SameAt, Shifted, Remaining;
    assert Spelled(b)[n] == key[n];
    assert key[..n + 1] == key[..n] + [key[n]] && Spelled(b)[..n + 1] == Spelled(b)[..n] + [key[n]];
    ShiftKeepsValues(g, b, n, rest);
    ShiftedForm(b, n, rest);
    SameAtTrans(g, a, b, Shifted(b, n, rest));
  }

  lemma WalkEnd(g: Graph, a: seq<Unf>, b: seq<Unf>, key: Key, n: nat, out: U64, rest: U64)
    requires Walked(g, a, b, key, n, out, rest)
    requires n == |key| || !b[n].hasLastT || b[n].lastIn != key[n]
    ensures n == CommonLen(key, Spelled(b))
  {
    CommonLenUnique(key, Spelled(b), n);
  }

  lemma SameAtTrans(g: Graph, a: seq<Unf>, b: seq<Unf>, c: seq<Unf>)
    requires StackOk(g, a) && StackOk(g, b) && StackOk(g, c)
    requires SameAt(g, a, g, b, 0) && SameAt(g, b, g, c, 0)
    ensures SameAt(g, a, g, c, 0)
  {
    forall k: Key ensures StackLookup(g, a, 0, k) == StackLookup(g, c, 0, k) {
      assert StackLookup(g, a, 0, k) == StackLookup(g, b, 0, k);
    }
  }

  lemma ChainStep(before: seq<Unf>, bs: Key, i: nat)
    requires i < |bs|
    ensures before + Chain(bs[i..]) == (before + [Unf(BLANK_STATE, 0, bs[i], true)]) + Chain(bs[i + 1..])
  {
    assert bs[i..][1..] == bs[i + 1..];
  }

  /** The part of addOutputPrefix that changes the node. */
  method PrefixNode(node: BuilderNode, prefix: U64)
    modifies node
    ensures node.View() == Prefixed(old(node.View()), prefix) && node.next == old(node.next)
  {
    ghost var trans := node.trans;
    if node.final {
      node.finalOutput := OutputCat(prefix, node.finalOutput);
    }
    hide OutputCat;
    for j := 0 to |node.trans|
      invariant |node.trans| == |trans|
      invariant forall k :: 0 <= k < j ==> node.trans[k] == trans[k].(out := OutputCat(prefix, trans[k].out))
      invariant forall k :: j <= k < |trans| ==> node.trans[k] == trans[k]
      modifies node`trans
    {
      node.trans := node.trans[j := node.trans[j].(out := OutputCat(prefix, node.trans[j].out))];
    }
    assert node.trans == PrefixedTrans(trans, prefix);
  }

  lemma OneMoreNode(stack: seq<Pending>, c: Pending)
    ensures StackNodes(stack + [c]) == StackNodes(stack) + {c.node}
  {
    assert c in stack + [c];
    assert forall d :: d in stack ==> d in stack + [c];
  }

  lemma SameNodes(a: seq<Pending>, b: seq<Pending>)
    requires |a| == |b| && forall j :: 0 <= j < |a| ==> a[j].node == b[j].node
    ensures StackNodes(a) == StackNodes(b)
  {
    forall n | n in StackNodes(a) ensures n in StackNodes(b) {
      var c :| c in a && c.node == n;
      var j :| 0 <= j < |a| && a[j] == c;
      assert b[j] in b;
    }
    forall n | n in StackNodes(b) ensures n in StackNodes(a) {
      var c :| c in b && c.node == n;
      var j :| 0 <= j < |b| && b[j] == c;
      assert a[j] in a;
    }
  }
}
