/** The builder's mutable nodes and the free list they are recycled through (builder.go). */
module NodePool {
  import opened Keys
  import opened Transducer

  const BLANK: State := State(false, 0, [])

  class BuilderNode {
    var finalOutput: U64
    var trans: seq<Trans>
    var final: bool
    /** The intrusive link of the free list. */
    var next: BuilderNode?

    constructor ()
      ensures View() == BLANK && next == null
    {
      finalOutput, trans, final, next := 0, [], false, null;
    }

    function View(): State
      reads this
    {
      State(final, finalOutput, trans)
    }

    method Reset()
      modifies this
      ensures View() == BLANK && next == null
    {
      final := false;
      finalOutput := 0;
      trans := trans[..0];
      next := null;
    }

    /** Two nodes are equivalent exactly when nothing but their identity sets them apart. */
    method Equiv(o: BuilderNode) returns (same: bool)
      ensures same <==> View() == o.View()
    {
      if final != o.final {
        return false;
      }
      if finalOutput != o.finalOutput {
        return false;
      }
      if |trans| != |o.trans| {
        return false;
      }
      for i := 0 to |trans|
        invariant trans[..i] == o.trans[..i]
      {
        if trans[i].input != o.trans[i].input {
          return false;
        }
        if trans[i].addr != o.trans[i].addr {
          return false;
        }
        if trans[i].out != o.trans[i].out {
          return false;
        }
        assert trans[..i + 1] == trans[..i] + [trans[i]] && o.trans[..i + 1] == o.trans[..i] + [o.trans[i]];
      }
      assert trans[..|trans|] == trans && o.trans[..|trans|] == o.trans;
      return true;
    }
  }

  class BuilderNodePool {
    var head: BuilderNode?
    /** The nodes of the list, head first. */
    ghost var free: seq<BuilderNode>
    ghost var members: set<BuilderNode>

    /** A list without repetition, linked through `next`, of nodes ready for reuse. */
    ghost predicate Valid()
      reads this, members
    {
      && members == (set n | n in free)
      && (head == null <==> free == [])
      && (free != [] ==> head == free[0])
      && (forall n :: n in free ==> n.View() == BLANK)
      && (forall i, j :: 0 <= i && j == i + 1 < |free| ==> free[i].next == free[j])
      && (free != [] ==> free[|free| - 1].next == null)
      && (forall i, j :: 0 <= i < j < |free| ==> free[i] != free[j])
    }

    constructor ()
      ensures Valid() && free == [] && members == {}
    {
      head := null;
      free, members := [], {};
    }

    /** Takes the head of the list, or a new node when there is none: blank, and no longer in the list. */
    method Get() returns (n: BuilderNode)
      requires Valid()
      modifies this
      ensures Valid() && n.View() == BLANK
      ensures if old(free) == [] then fresh(n) && free == [] else n == old(free)[0] && free == old(free)[1..]
      ensures n !in members && members == old(members) - {n} && (n in old(members) || fresh(n))
    {
      if head == null {
        n := new BuilderNode();
        return n;
      }
      n := head;
      assert 1 < |free| ==> free[0].next == free[1];
      head := n.next;
      assert forall i :: 1 <= i < |free| ==> free[i] == free[1..][i - 1];
      free, members := free[1..], members - {n};
    }

    method Put(v: BuilderNode?)
      requires Valid() && (v != null ==> v !in members)
      modifies this, if v == null then {} else {v}
      ensures Valid()
      ensures free == if v == null then old(free) else [v] + old(free)
      ensures members == if v == null then old(members) else old(members) + {v}
    {
      if v == null {
        return;
      }
      v.Reset();
      v.next := head;
      head := v;
      free, members := [v] + free, members + {v};
      assert forall i :: 1 <= i < |free| ==> free[i] == old(free)[i - 1];
    }
  }
}
