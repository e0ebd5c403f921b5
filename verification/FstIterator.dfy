/** fst_iterator.go: an ordered scan of a transducer as a depth-first search with parallel stacks. */
module FstIterator {
  import opened Keys
  import opened Transducer
  import opened Walking
  import opened Decoder
  import opened Fst
  import opened FstFile
  import opened Automata
  import opened Frontier

  /** A scan position: a path, the transitions of the state there, the next one to take. */
  datatype Pos = Pos(keys: Key, trans: seq<Trans>, off: nat, allow: bool)

  predicate AheadOf(p: Pos, k: Key) {
    Ahead(p.keys, p.trans, p.off, p.allow, k)
  }

  /** The keys a scan is after. */
  predicate Wanted(m: map<Key, U64>, aut: Automaton, k: Key) {
    k in m && Accepts(aut, k)
  }

  /** The same wanted keys are ahead of both positions. */
  ghost predicate SameAhead(m: map<Key, U64>, aut: Automaton, p: Pos, q: Pos) {
    forall k: Key :: Wanted(m, aut, k) ==> (AheadOf(p, k) <==> AheadOf(q, k))
  }

  lemma SameAheadTrans(m: map<Key, U64>, aut: Automaton, p: Pos, q: Pos, r: Pos)
    requires SameAhead(m, aut, p, q) && SameAhead(m, aut, q, r)
    ensures SameAhead(m, aut, p, r)
  {
  }

  lemma AtMostTransitive(a: Key, b: Key, c: Key)
    requires AtMost(a, b) && AtMost(b, c)
    ensures AtMost(a, c)
  {
    if Less(a, b) && Less(b, c) { LessTransitive(a, b, c); }
  }

  /** No extension of a hopeless path is accepted. */
  lemma Hopeless(aut: Automaton, keys: Key, c: Byte, k: Key)
    requires Sound(aut) && keys + [c] <= k && !aut.canMatch(aut.accept(Run(aut, aut.start, keys), c))
    ensures !Accepts(aut, k)
  {
    var rest := k[|keys| + 1..];
    assert k == (keys + [c]) + rest;
    RunSnoc(aut, aut.start, keys, c);
    RunOn(aut, aut.start, keys + [c], rest);
  }

  /** The stacks agree: one path through the transducer, its decoded states, the automaton's run along it. */
  ghost predicate Stacks(f: FST, aut: Automaton, addrs: seq<nat>, states: seq<FstStateV1>, keys: Key, poss: seq<nat>,
    vals: seq<U64>, auts: seq<int>)
  {
    && Path(f.graph, f.root, addrs, keys, poss, vals)
    && |states| == |auts| == |addrs|
    && (forall j :: 0 <= j < |addrs| ==> states[j].Shows(StateAt(f.graph, addrs[j])))
    && (forall j :: 0 <= j < |addrs| ==> auts[j] == Run(aut, aut.start, keys[..j]))
  }

  lemma RootStacks(f: FST, aut: Automaton, root: FstStateV1)
    requires f.Valid() && GraphOk(f.graph) && Known(f.graph, f.root) && root.Shows(StateAt(f.graph, f.root))
    ensures Stacks(f, aut, [f.root], [root], [], [], [], [aut.start])
  {
    hide Walk, GraphOk, FstStateV1.Shows, IsFst, FST.Valid;
  }

  class FSTIterator {
    var f: FST
    var aut: Automaton
    var startKeyInclusive: Key
    /** No bound when there is none. */
    var endKeyExclusive: Option<Key>

    var statesStack: seq<FstStateV1>
    var keysStack: Key
    /** The slice of keysStack is nil until something is first appended to it. */
    var keysNil: bool
    var keysPosStack: seq<nat>
    var valsStack: seq<U64>
    var autStatesStack: seq<int>
    var nextStart: Key

    /** The addresses of the states on the stack. */
    ghost var addrs: seq<nat>

    /** The stacks show one path through the transducer, and the automaton's run along it. */
    ghost predicate Valid()
      reads this
    {
      && f.Valid() && Sound(aut) && (keysNil ==> keysStack == [])
      && Stacks(f, aut, addrs, statesStack, keysStack, keysPosStack, valsStack, autStatesStack)
    }

    /** The state on top. */
    ghost function Top(): State
      reads this
      requires Valid()
    {
      StateAt(f.graph, addrs[|keysStack|])
    }

    ghost function Here(off: nat, allow: bool): Pos
      reads this
      requires Valid()
    {
      Pos(keysStack, Top().trans, off, allow)
    }

    ghost predicate Stored(k: Key)
      reads this
    {
      Wanted(f.content, aut, k)
    }

    ghost function Work(off: nat): nat
      reads this
      requires Valid()
    {
      StackWork(f.graph, addrs, keysPosStack) + Rem(f.graph, addrs[|keysStack|], off)
    }

    constructor (f: FST)
      ensures this.f == f && keysNil && keysStack == []
    {
      this.f := f;
      aut := AlwaysMatch;
      startKeyInclusive, endKeyExclusive := [], None;
      statesStack, keysStack, keysNil, keysPosStack, valsStack, autStatesStack := [], [], true, [], [], [];
      nextStart := [];
      addrs := [];
    }

    /** What the top of the stacks says about the key spelled. */
    lemma TopTells()
      requires Valid()
      ensures |statesStack| == |autStatesStack| == |addrs| == |keysStack| + 1
      ensures |keysPosStack| == |valsStack| == |keysStack|
      ensures statesStack[|keysStack|].final == Top().final && statesStack[|keysStack|].numTrans == |Top().trans|
      ensures statesStack[|keysStack|].Shows(Top())
      ensures Walk(f.graph, f.root, keysStack) == Some((addrs[|keysStack|], ValSum(valsStack)))
      ensures keysStack in f.content <==> Top().final
      ensures keysStack in f.content ==> f.content[keysStack] == ValSum(valsStack) + Top().finalOutput
      ensures Accepts(aut, keysStack) <==> aut.isMatch(autStatesStack[|keysStack|])
    {
      hide Walk, ValSum, Run, GraphOk, FstStateV1.Shows, IsFst;
      PathWalks(f.graph, f.root, addrs, keysStack, keysPosStack, valsStack, |keysStack|);
      assert keysStack[..|keysStack|] == keysStack && valsStack[..|keysStack|] == valsStack;
      f.ContentAt(keysStack);
      StateFinal(statesStack[|keysStack|], Top());
    }

    /**
     * The key and value the iterator points to; nothing where no key ends. The bare empty key of a
     * fresh iterator comes as a nil slice.
     */
    method Current() returns (key: Option<Key>, val: U64)
      requires Valid()
      ensures keysStack in f.content ==> val == f.content[keysStack] && key == if keysNil then None else Some(keysStack)
      ensures keysStack !in f.content ==> key == None && val == 0
      ensures keysNil ==> keysStack == []
    {
      hide Walk, Run, GraphOk, FstStateV1.Shows, IsFst, Path;
      TopTells();
      var curr := statesStack[|statesStack| - 1];
      if curr.final {
        var total: U64 := 0;
        for j := 0 to |valsStack|
          invariant total == ValSum(valsStack[..j]) % U64_LIMIT
        {
          assert valsStack[..j + 1][..j] == valsStack[..j];
          total := (total + valsStack[j]) % U64_LIMIT;
        }
        assert valsStack[..|valsStack|] == valsStack;
        var out := curr.FinalOutput(Top());
        total := (total + out) % U64_LIMIT;
        return if keysNil then None else Some(keysStack), total;
      }
      return None, 0;
    }

    /**
     * The inner loop of `next`: skips the transitions the automaton rules out and takes the first it
     * does not.
     */
    method Expand(lastOffset: nat) returns (pushed: bool, nextOffset: nat)
      requires Valid()
      modifies this
      ensures Valid() && Unmoved(old(f), old(aut), old(startKeyInclusive), old(endKeyExclusive), old(nextStart))
      ensures SameAhead(f.content, aut, old(Here(lastOffset, false)), Here(nextOffset, pushed))
      ensures |statesStack| == |keysStack| + 1 && (pushed ==> !keysNil)
      ensures pushed ==> nextOffset == 0 && Work(0) < old(Work(lastOffset))
      ensures !pushed ==> nextOffset >= |Top().trans| && Work(nextOffset) <= old(Work(lastOffset))
      ensures !pushed ==> addrs == old(addrs) && keysStack == old(keysStack) && keysPosStack == old(keysPosStack)
    {
      hide Walk, Run, GraphOk, FstStateV1.Shows, IsFst, Path, Rem, StackWork, Sound, Ahead;
      nextOffset := lastOffset;
      TopTells();
      var curr := statesStack[|statesStack| - 1];
      var autCurr := autStatesStack[|autStatesStack| - 1];
      var numTrans := curr.numTrans;
      while nextOffset < numTrans
        invariant Valid() && unchanged(this)
        invariant SameAhead(f.content, aut, Here(lastOffset, false), Here(nextOffset, false))
        invariant Work(nextOffset) <= Work(lastOffset)
      {
        var t := curr.TransitionAt(nextOffset, Top());
        var autNext := aut.accept(autCurr, t);
        WorkAt(nextOffset);
        if !aut.canMatch(autNext) {
          SkipHopeless(nextOffset);
          nextOffset := nextOffset + 1;
          continue;
        }
        PushAhead(nextOffset);
        Push(nextOffset, t, autNext);
        return true, 0;
      }
      return false, nextOffset;
    }

    ghost predicate Unmoved(f: FST, aut: Automaton, start: Key, end: Option<Key>, from: Key)
      reads this
    {
      this.f == f && this.aut == aut && startKeyInclusive == start && endKeyExclusive == end && nextStart == from
    }

    lemma WorkAt(off: nat)
      requires Valid() && off < |Top().trans|
      ensures Known(f.graph, Top().trans[off].addr)
      ensures Work(off) == 2 + Rem(f.graph, Top().trans[off].addr, 0) + Work(off + 1)
    {
      hide Walk, Run, FstStateV1.Shows, StackWork, Sound;
    }

    /** Nothing wanted goes through a transition the automaton rules out. */
    lemma SkipHopeless(off: nat)
      requires Valid() && off < |Top().trans|
      requires !aut.canMatch(aut.accept(autStatesStack[|keysStack|], Top().trans[off].input))
      ensures SameAhead(f.content, aut, Here(off, false), Here(off + 1, false))
    {
      hide Walk, GraphOk, FstStateV1.Shows, IsFst, Less;
      var n, c := |keysStack|, Top().trans[off].input;
      assert keysStack[..n] == keysStack;
      forall k: Key | Wanted(f.content, aut, k)
        ensures AheadOf(Here(off, false), k) <==> AheadOf(Here(off + 1, false), k)
      {
        if keysStack <= k && |k| > n && FindTrans(Top().trans, k[n]) == off {
          Hopeless(aut, keysStack, c, k);
        }
      }
    }

    /** What lies ahead stays ahead when transition off is taken. */
    lemma PushAhead(off: nat)
      requires Valid() && off < |Top().trans|
      ensures forall next: seq<Trans> ::
        SameAhead(f.content, aut, Here(off, false), Pos(keysStack + [Top().trans[off].input], next, 0, true))
    {
      hide Walk, GraphOk, FstStateV1.Shows, Path, Run, Ahead, Ascending;
      var longer := keysStack + [Top().trans[off].input];
      TopAscending();
      forall next: seq<Trans>, k: Key | Wanted(f.content, aut, k)
        ensures AheadOf(Here(off, false), k) <==> AheadOf(Pos(longer, next, 0, true), k)
      {
        WantedGoesOn(k);
        AheadPush(keysStack, Top().trans, off, next, k);
      }
    }

    lemma TopAscending()
      requires Valid()
      ensures Ascending(Top().trans)
    {
      hide Walk, Run, FstStateV1.Shows, Sound;
    }

    /** A stored key that extends the path goes on with a transition of the top state. */
    lemma WantedGoesOn(k: Key)
      requires Valid() && k in f.content
      ensures Walk(f.graph, f.root, k).Some?
      ensures keysStack <= k && |k| > |keysStack| ==> FindTrans(Top().trans, k[|keysStack|]) < |Top().trans|
    {
      hide Walk, GraphOk, FstStateV1.Shows, Run, IsFst;
      f.ContentAt(k);
      if keysStack <= k && |k| > |keysStack| {
        assert keysStack[..|keysStack|] == k[..|keysStack|];
        WalkGoesOn(f.graph, f.root, addrs, keysStack, keysPosStack, valsStack, k, |keysStack|);
      }
    }

    /** Pushes the state transition off leads to onto the stacks. */
    method Push(off: nat, t: Byte, autNext: int)
      requires Valid() && off < |Top().trans| && t == Top().trans[off].input
      requires autNext == aut.accept(autStatesStack[|keysStack|], t)
      modifies this
      ensures Valid() && Unmoved(old(f), old(aut), old(startKeyInclusive), old(endKeyExclusive), old(nextStart))
      ensures keysStack == old(keysStack) + [t] && !keysNil && |statesStack| == |keysStack| + 1
      ensures Work(0) < old(Work(off))
    {
      hide Walk, Run, GraphOk, FstStateV1.Shows, IsFst, Path, Rem, StackWork, Sound, Stacks, FST.Valid, ValSum,
        FindTrans, FstStateV1.SingleSet;
      TopTells();
      TopGoesTo(off);
      var curr := statesStack[|statesStack| - 1];
      var pos, nextAddr, v := curr.TransitionFor(t, Top());
      var next := f.DecodeAt(nextAddr);
      PushedStacks(off, next);
      PushedWork(off);
      Append(next, t, pos, v, autNext, nextAddr);
    }

    method Append(next: FstStateV1, t: Byte, pos: nat, v: U64, autNext: int, ghost addr: nat)
      requires f.Valid() && Sound(aut)
      requires Stacks(f, aut, addrs + [addr], statesStack + [next], keysStack + [t], keysPosStack + [pos],
        valsStack + [v], autStatesStack + [autNext])
      modifies this
      ensures Valid() && Unmoved(old(f), old(aut), old(startKeyInclusive), old(endKeyExclusive), old(nextStart))
      ensures addrs == old(addrs) + [addr] && keysStack == old(keysStack) + [t] && !keysNil
      ensures keysPosStack == old(keysPosStack) + [pos] && |statesStack| == old(|statesStack|) + 1
    {
      hide Stacks, FST.Valid, Sound, GraphOk;
      statesStack := statesStack + [next];
      keysStack := keysStack + [t];
      keysNil := false;
      keysPosStack := keysPosStack + [pos];
      valsStack := valsStack + [v];
      autStatesStack := autStatesStack + [autNext];
      addrs := addrs + [addr];
    }

    /** The transition found for the byte of transition off is that transition, and leads somewhere. */
    lemma TopGoesTo(off: nat)
      requires Valid() && off < |Top().trans|
      ensures FindTrans(Top().trans, Top().trans[off].input) == off
      ensures Known(f.graph, Top().trans[off].addr) && Top().trans[off].addr != NONE_ADDR
    {
      hide Walk, Run, FstStateV1.Shows, Sound, ValSum;
      TopAscending();
      FindTransAt(Top().trans, off);
      AddressNotNone(f.graph, addrs[|keysStack|], Top().trans[off].input);
    }

    lemma PushedPath(off: nat)
      requires Valid() && off < |Top().trans|
      ensures var t := Top().trans[off];
        Path(f.graph, f.root, addrs + [t.addr], keysStack + [t.input], keysPosStack + [off], valsStack + [t.out])
    {
      hide Walk, Run, FstStateV1.Shows, Sound, ValSum, IsFst, GraphOk, FST.Valid;
      var t := Top().trans[off];
      var a, k, p, v := addrs + [t.addr], keysStack + [t.input], keysPosStack + [off], valsStack + [t.out];
      WorkAt(off);
      assert forall j :: 0 <= j < |addrs| ==> a[j] == addrs[j];
      forall j | 0 <= j < |k| ensures Step(f.graph, a[j], a[j + 1], k[j], p[j], v[j]) {
        if j < |keysStack| {
          assert Step(f.graph, addrs[j], addrs[j + 1], keysStack[j], keysPosStack[j], valsStack[j]);
        }
      }
    }

    lemma PushedStacks(off: nat, next: FstStateV1)
      requires Valid() && off < |Top().trans| && Known(f.graph, Top().trans[off].addr)
      requires next.Shows(StateAt(f.graph, Top().trans[off].addr))
      ensures var t, n := Top().trans[off], |keysStack|;
        |autStatesStack| == n + 1 && Stacks(f, aut, addrs + [t.addr], statesStack + [next], keysStack + [t.input],
          keysPosStack + [off], valsStack + [t.out], autStatesStack + [aut.accept(autStatesStack[n], t.input)])
    {
      hide Walk, Run, FstStateV1.Shows, Sound, ValSum, IsFst, GraphOk, FST.Valid;
      PushedPath(off);
      PushedRun(Top().trans[off].input);
    }

    lemma PushedRun(t: Byte)
      requires Valid()
      ensures var next := aut.accept(autStatesStack[|keysStack|], t);
        forall j :: 0 <= j <= |addrs| ==> (autStatesStack + [next])[j] == Run(aut, aut.start, (keysStack + [t])[..j])
    {
      hide Walk, FstStateV1.Shows, Sound, ValSum, IsFst, GraphOk, FST.Valid;
      var n, longer := |keysStack|, keysStack + [t];
      assert longer[..n + 1] == longer && keysStack[..n] == keysStack;
      RunSnoc(aut, aut.start, keysStack, t);
      assert forall j :: 0 <= j <= n ==> longer[..j] == keysStack[..j];
    }

    lemma PushedWork(off: nat)
      requires Valid() && off < |Top().trans|
      ensures var t := Top().trans[off];
        (forall j :: 0 <= j < |addrs| + 1 ==> Known(f.graph, (addrs + [t.addr])[j]))
        && StackWork(f.graph, addrs + [t.addr], keysPosStack + [off]) + Rem(f.graph, t.addr, 0) < Work(off)
    {
      hide Walk, Run, FstStateV1.Shows, Sound, ValSum, StackWork, Rem;
      WorkAt(off);
      WorkPush(f.graph, addrs, keysPosStack, Top().trans[off].addr, off);
    }

    /** The stacks cut back to the first m bytes. */
    method Truncate(m: nat)
      requires Valid() && m < |keysStack|
      requires |statesStack| == |autStatesStack| == |addrs| == |keysStack| + 1
      requires |keysPosStack| == |valsStack| == |keysStack|
      requires Stacks(f, aut, addrs[..m + 1], statesStack[..m + 1], keysStack[..m], keysPosStack[..m], valsStack[..m],
        autStatesStack[..m + 1])
      modifies this
      ensures Valid() && Unmoved(old(f), old(aut), old(startKeyInclusive), old(endKeyExclusive), old(nextStart))
      ensures addrs == old(addrs)[..m + 1] && keysStack == old(keysStack)[..m]
      ensures keysPosStack == old(keysPosStack)[..m]
    {
      hide Stacks, FST.Valid, Sound, GraphOk;
      statesStack := statesStack[..m + 1];
      keysStack := keysStack[..m];
      keysPosStack := keysPosStack[..m];
      valsStack := valsStack[..m];
      autStatesStack := autStatesStack[..m + 1];
      addrs := addrs[..m + 1];
    }

    /**
     * The pop of `next`: goes back past a whole chain of one-transition states in one shot, which
     * lands where popping one by one would end up.
     */
    method Pop(ghost off: nat) returns (nextOffset: nat)
      requires Valid() && |keysStack| > 0 && off >= |Top().trans|
      modifies this
      ensures Valid() && Unmoved(old(f), old(aut), old(startKeyInclusive), old(endKeyExclusive), old(nextStart))
      ensures SameAhead(f.content, aut, old(Here(off, false)), Here(nextOffset, false))
      ensures Work(nextOffset) <= old(Work(off))
      ensures |addrs| < old(|addrs|)
    {
      hide Walk, Run, GraphOk, FstStateV1.Shows, IsFst, Path, Rem, StackWork, Sound, Ahead, FST.Valid, Stacks;
      TopTells();
      var popNum := 0;
      var j := |statesStack| - 1;
      while j > 0
        invariant 0 < j < |statesStack| && popNum == 0
        invariant forall i :: j < i < |statesStack| ==> statesStack[i].numTrans == 1
      {
        if j == 1 || statesStack[j].numTrans != 1 {
          popNum := |statesStack| - 1 - j;
          break;
        }
        j := j - 1;
      }
      if popNum < 1 {
        popNum := 1;
      }
      nextOffset := keysPosStack[|keysPosStack| - popNum] + 1;
      ghost var m := |keysStack| - popNum;
      PoppedStacks(m);
      PoppedAhead(off, m);
      PoppedWork(off, m);
      Truncate(|statesStack| - popNum - 1);
    }

    lemma PoppedStacks(m: nat)
      requires Valid() && m < |keysStack|
      ensures Stacks(f, aut, addrs[..m + 1], statesStack[..m + 1], keysStack[..m], keysPosStack[..m], valsStack[..m],
        autStatesStack[..m + 1])
      ensures Known(f.graph, addrs[m])
    {
      hide Walk, Run, FstStateV1.Shows, Sound, ValSum, IsFst, GraphOk, FST.Valid;
      var a, k, p, v := addrs[..m + 1], keysStack[..m], keysPosStack[..m], valsStack[..m];
      forall i | 0 <= i < m ensures Step(f.graph, a[i], a[i + 1], k[i], p[i], v[i]) {
        assert Step(f.graph, addrs[i], addrs[i + 1], keysStack[i], keysPosStack[i], valsStack[i]);
      }
      assert forall i :: 0 <= i <= m ==> k[..i] == keysStack[..i];
    }

    lemma PoppedAhead(off: nat, m: nat)
      requires Valid() && m < |keysStack| && off >= |Top().trans|
      requires |statesStack| == |keysStack| + 1 && |keysPosStack| == |keysStack| && Known(f.graph, addrs[m])
      requires forall i :: m < i < |keysStack| ==> statesStack[i].numTrans == 1
      ensures SameAhead(f.content, aut, Here(off, false),
        Pos(keysStack[..m], StateAt(f.graph, addrs[m]).trans, keysPosStack[m] + 1, false))
    {
      hide Walk, Run, FstStateV1.Shows, Sound, ValSum, IsFst, Ahead;
      forall i | m < i < |keysStack| ensures |StateAt(f.graph, addrs[i]).trans| == 1 {
        StateFinal(statesStack[i], StateAt(f.graph, addrs[i]));
      }
      forall k | Wanted(f.content, aut, k)
        ensures AheadOf(Here(off, false), k)
          <==> AheadOf(Pos(keysStack[..m], StateAt(f.graph, addrs[m]).trans, keysPosStack[m] + 1, false), k)
      {
        WantedGoesOn(k);
        AheadPop(f.graph, f.root, addrs, keysStack, keysPosStack, valsStack, off, m, k);
      }
    }

    lemma PoppedWork(off: nat, m: nat)
      requires Valid() && m < |keysStack| && |keysPosStack| == |keysStack|
      ensures var short := addrs[..m + 1];
        && (forall i :: 0 <= i < |short| ==> Known(f.graph, short[i])) && Known(f.graph, addrs[m])
        && StackWork(f.graph, short, keysPosStack[..m]) + Rem(f.graph, addrs[m], keysPosStack[m] + 1) <= Work(off)
    {
      hide Walk, Run, FstStateV1.Shows, Sound, ValSum, StackWork, Rem, GraphOk, IsFst, FST.Valid;
      WorkPop(f.graph, addrs, keysPosStack, m, addrs[..m + 1], keysPosStack[..m]);
    }

    /** At the top of the outer loop of `next`: a key that is not accepted can be passed over. */
    lemma NotHere(off: nat, allow: bool)
      requires Valid() && (allow ==> off == 0) && (allow ==> !Stored(keysStack))
      ensures SameAhead(f.content, aut, Here(off, allow), Here(off, false))
    {
      hide Walk, GraphOk, FstStateV1.Shows, Run, IsFst, Less;
      forall k: Key | Stored(k) ensures AheadOf(Here(off, allow), k) <==> AheadOf(Here(off, false), k) {
        if allow && keysStack <= k {
          assert |k| == |keysStack| ==> k == keysStack;
        }
      }
    }

    /** What is ahead of an accepted key reached by a push is not less than it. */
    lemma HereIsLeast()
      requires Valid()
      ensures AheadOf(Here(0, true), keysStack)
      ensures forall k: Key :: AheadOf(Here(0, true), k) ==> AtMost(keysStack, k)
    {
      hide Walk, GraphOk, FstStateV1.Shows, Run, IsFst, Less;
      forall k: Key | AheadOf(Here(0, true), k) ensures AtMost(keysStack, k) {
        if keysStack <= k && |k| > |keysStack| {
          LessAt(keysStack, k, |keysStack|);
        } else if keysStack <= k {
          assert k == keysStack;
        }
      }
    }

    /** Nothing is ahead of an exhausted root. */
    lemma NothingAhead(off: nat)
      requires Valid() && keysStack == [] && off >= |Top().trans|
      ensures forall k: Key :: Stored(k) ==> !AheadOf(Here(off, false), k)
    {
      hide Walk, GraphOk, FstStateV1.Shows, Run, IsFst, Less;
      forall k: Key | Stored(k) ensures !AheadOf(Here(off, false), k) {
        WantedGoesOn(k);
      }
    }

    /** Some key the iterator is after lies at or beyond the end. */
    ghost predicate PastEnd(k: Key)
      reads this
    {
      endKeyExclusive.Some? && AtMost(endKeyExclusive.value, k)
    }

    /** keysStack is the least wanted key ahead of p. */
    ghost predicate LeastAhead(p: Pos)
      reads this
    {
      Stored(keysStack) && AheadOf(p, keysStack) && forall k: Key :: Stored(k) && AheadOf(p, k) ==> AtMost(keysStack, k)
    }

    /** Done: at the root with nothing ahead of p, or pointing at the least wanted key ahead, which is past the end. */
    ghost predicate DoneAhead(p: Pos)
      reads this
    {
      if keysStack == [] then forall k: Key :: Stored(k) ==> !AheadOf(p, k)
      else LeastAhead(p) && PastEnd(keysStack)
    }

    /**
     * `next`: moves to the least wanted key from transition lastOffset + 1 of the state on top on; done
     * when there is none before the end, and then pointing at the root or at the least one past the end.
     */
    method NextFrom(lastOffset: int) returns (ok: bool)
      requires Valid() && lastOffset >= -1
      modifies this
      ensures Valid() && Unmoved(old(f), old(aut), old(startKeyInclusive), old(endKeyExclusive), old(keysStack))
      ensures ok ==> LeastAhead(old(Here(lastOffset + 1, false))) && !PastEnd(keysStack) && !keysNil
      ensures !ok ==> forall k: Key :: Stored(k) && AheadOf(old(Here(lastOffset + 1, false)), k) ==> PastEnd(k)
      ensures !ok ==> DoneAhead(old(Here(lastOffset + 1, false)))
    {
      hide Walk, Run, GraphOk, FstStateV1.Shows, IsFst, Path, Rem, StackWork, Sound, Ahead, FST.Valid, Stacks;
      nextStart := keysStack;
      var nextOffset: nat, allowCompare := lastOffset + 1, false;
      ghost var from := Here(nextOffset, false);
      while true
        invariant Valid() && Unmoved(old(f), old(aut), old(startKeyInclusive), old(endKeyExclusive), old(keysStack))
        invariant SameAhead(f.content, aut, from, Here(nextOffset, allowCompare))
        invariant allowCompare ==> nextOffset == 0 && !keysNil
        decreases Work(nextOffset), |addrs|
      {
        TopTells();
        var curr := statesStack[|statesStack| - 1];
        var autCurr := autStatesStack[|autStatesStack| - 1];
        if curr.final && aut.isMatch(autCurr) && allowCompare {
          HereIsLeast();
          if endKeyExclusive.Some? && Compare(keysStack, endKeyExclusive.value) >= 0 {
            DoneBeyond(from);
            return false;
          }
          AheadIsGreater(from.keys, from.trans, from.off, keysStack);
          if Compare(keysStack, nextStart) > 0 {
            return true;
          }
        }
        NotHere(nextOffset, allowCompare);
        ghost var here := Here(nextOffset, false);
        SameAheadTrans(f.content, aut, from, Here(nextOffset, allowCompare), here);
        allowCompare, nextOffset := Expand(nextOffset);
        SameAheadTrans(f.content, aut, from, here, Here(nextOffset, allowCompare));
        if allowCompare {
          continue;
        }
        if |statesStack| <= 1 {
          NothingAhead(nextOffset);
          return false;
        }
        here := Here(nextOffset, false);
        nextOffset := Pop(nextOffset);
        SameAheadTrans(f.content, aut, from, here, Here(nextOffset, false));
      }
    }

    lemma DoneBeyond(from: Pos)
      requires Valid() && SameAhead(f.content, aut, from, Here(0, true)) && PastEnd(keysStack)
      requires !from.allow && Stored(keysStack)
      ensures forall k: Key :: Stored(k) && AheadOf(from, k) ==> PastEnd(k)
      ensures keysStack != [] && DoneAhead(from)
    {
      hide Walk, GraphOk, FstStateV1.Shows, Run, IsFst, Less, Ahead, Stacks;
      HereIsLeast();
      AheadIsGreater(from.keys, from.trans, from.off, keysStack);
      EmptyIsLeast(from.keys);
      forall k: Key | Stored(k) && AheadOf(from, k) ensures PastEnd(k) {
        AtMostTransitive(endKeyExclusive.value, keysStack, k);
      }
    }

    /** keysStack is the least wanted key at or after key. */
    ghost predicate LeastFrom(key: Key)
      reads this
    {
      && Stored(keysStack) && AtMost(key, keysStack)
      && forall k: Key :: Stored(k) && AtMost(key, k) ==> AtMost(keysStack, k)
    }

    /** Done: at the root with no wanted key at or after key, or at the least such key, which is past the end. */
    ghost predicate DoneFrom(key: Key)
      reads this
    {
      if keysStack == [] then forall k: Key :: Stored(k) ==> !AtMost(key, k)
      else LeastFrom(key) && PastEnd(keysStack)
    }

    /** Moves to the least wanted key after the current path; done when there is none before the end. */
    method Next() returns (ok: bool)
      requires Valid()
      modifies this
      ensures Valid() && Unmoved(old(f), old(aut), old(startKeyInclusive), old(endKeyExclusive), old(keysStack))
      ensures ok ==> Stored(keysStack) && Less(old(keysStack), keysStack) && !PastEnd(keysStack) && !keysNil
      ensures ok ==> forall k: Key :: Stored(k) && Less(old(keysStack), k) ==> AtMost(keysStack, k)
      ensures !ok ==> forall k: Key :: Stored(k) && Less(old(keysStack), k) ==> PastEnd(k)
      ensures !ok && keysStack == [] ==> forall k: Key :: Stored(k) ==> !Less(old(keysStack), k)
      ensures !ok && keysStack != [] ==> Stored(keysStack) && Less(old(keysStack), keysStack) && PastEnd(keysStack)
      ensures !ok && keysStack != [] ==> forall k: Key :: Stored(k) && Less(old(keysStack), k) ==> AtMost(keysStack, k)
    {
      hide Walk, Run, GraphOk, FstStateV1.Shows, IsFst, Path, Sound, Ahead, FST.Valid, Stacks;
      ghost var from := Here(0, false);
      ok := NextFrom(-1);
      forall k: Key ensures AheadOf(from, k) <==> Less(from.keys, k) {
        AheadFromStart(from.keys, from.trans, k);
      }
    }

    /** Where a request for key really goes. */
    function Clamped(key: Key): Key
      reads this
    {
      var low := if Compare(key, startKeyInclusive) < 0 then startKeyInclusive else key;
      if endKeyExclusive.Some? && Compare(low, endKeyExclusive.value) > 0 then endKeyExclusive.value else low
    }

    /** At the least wanted key from at on; or, not ok, with none of them before the end. */
    ghost predicate Finds(at: Key, ok: bool)
      reads this
    {
      if ok then
        && Stored(keysStack) && AtMost(at, keysStack)
        && forall k: Key :: Stored(k) && AtMost(at, k) ==> AtMost(keysStack, k)
      else forall k: Key :: Stored(k) && AtMost(at, k) ==> PastEnd(k)
    }

    /**
     * A request for key looks from key itself when that is within the bounds, from the start when it is
     * before it, and otherwise finds the end or nothing.
     */
    ghost predicate Sought(key: Key, ok: bool)
      reads this
    {
      if endKeyExclusive.Some? && (PastEnd(key) || PastEnd(startKeyInclusive)) then
        (ok <==> Stored(endKeyExclusive.value)) && (ok ==> keysStack == endKeyExclusive.value)
      else
        && (ok ==> !PastEnd(keysStack))
        && (AtMost(startKeyInclusive, key) ==> Finds(key, ok))
        && (Less(key, startKeyInclusive) ==> Finds(startKeyInclusive, ok))
    }

    /** What is found from where a request really goes is what was asked for. */
    lemma ClampedSought(key: Key, ok: bool)
      requires ok ==> LeastFrom(Clamped(key)) && (keysStack == Clamped(key) || !PastEnd(keysStack))
      requires !ok ==> forall k: Key :: Stored(k) && AtMost(Clamped(key), k) ==> PastEnd(k)
      requires !ok ==> !Stored(Clamped(key))
      ensures Sought(key, ok)
    {
      hide Less, Stored;
      var start := startKeyInclusive;
      Trichotomy(key, start);
      if endKeyExclusive.Some? {
        var end := endKeyExclusive.value;
        Trichotomy(key, end);
        Trichotomy(start, end);
        if AtMost(end, start) && AtMost(start, key) { AtMostTransitive(end, start, key); }
        if AtMost(end, key) && AtMost(key, start) { AtMostTransitive(end, key, start); }
        Trichotomy(keysStack, end);
      }
    }

    /** The stacks with nothing but the root on them. */
    method Restart()
      requires f.Valid() && Sound(aut) && (keysNil ==> keysStack == [])
      modifies this
      ensures Valid() && keysStack == [] && keysNil == old(keysNil)
      ensures Unmoved(old(f), old(aut), old(startKeyInclusive), old(endKeyExclusive), old(nextStart))
    {
      hide Walk, GraphOk, FstStateV1.Shows, IsFst, Sound, Stacks, FST.Valid, Run;
      f.RootKnown();
      var addr := f.GetRoot();
      var root := f.DecodeAt(addr);
      RootStacks(f, aut, root);
      statesStack, keysStack, keysPosStack, valsStack, autStatesStack := [], [], [], [], [];
      statesStack := statesStack + [root];
      autStatesStack := autStatesStack + [aut.start];
      addrs := [addr];
      assert statesStack == [root] && autStatesStack == [aut.start];
    }

    /** One byte of `pointTo`: onto the stacks if there is a transition, else the last transition before it. */
    method Follow(b: Byte) returns (found: bool, maxQ: int)
      requires Valid()
      modifies this
      ensures Valid() && Unmoved(old(f), old(aut), old(startKeyInclusive), old(endKeyExclusive), old(nextStart))
      ensures found ==> keysStack == old(keysStack) + [b] && !keysNil && maxQ == -1
      ensures !found ==> keysStack == old(keysStack) && keysNil == old(keysNil) && Misses(Top().trans, b, maxQ)
    {
      hide Walk, Run, GraphOk, FstStateV1.Shows, IsFst, Path, Rem, StackWork, Sound, Stacks, FST.Valid, ValSum,
        Ascending;
      TopTells();
      var curr := statesStack[|statesStack| - 1];
      var autCurr := autStatesStack[|autStatesStack| - 1];
      ghost var off := FindTrans(Top().trans, b);
      if off < |Top().trans| { TopGoesTo(off); }
      var pos, nextAddr, nextVal := curr.TransitionFor(b, Top());
      maxQ := -1;
      if nextAddr == NONE_ADDR {
        var q := curr.numTrans - 1;
        while q >= 0
          invariant -1 <= q < curr.numTrans && maxQ == -1
          invariant forall i :: q < i < |Top().trans| ==> Top().trans[i].input >= b
        {
          if curr.TransitionAt(q, Top()) < b {
            maxQ := q;
            break;
          }
          q := q - 1;
        }
        TopAscending();
        MissesFrom(Top().trans, b, maxQ);
        return false, maxQ;
      }
      var autNext := aut.accept(autCurr, b);
      var next := f.DecodeAt(nextAddr);
      PushedStacks(off, next);
      Append(next, b, pos, nextVal, autNext, nextAddr);
      return true, maxQ;
    }

    /**
     * `pointTo`: moves to the least wanted key at or after key, brought within the bounds. The end is
     * not tested when that very key is found.
     */
    method PointTo(key: Key) returns (ok: bool)
      requires f.Valid() && Sound(aut) && (keysNil ==> keysStack == [])
      modifies this
      ensures Valid()
      ensures f == old(f) && aut == old(aut)
      ensures startKeyInclusive == old(startKeyInclusive) && endKeyExclusive == old(endKeyExclusive)
      ensures ok ==> LeastFrom(Clamped(key)) && (keysStack == Clamped(key) || !PastEnd(keysStack))
      ensures ok ==> keysNil == (old(keysNil) && keysStack == [])
      ensures !ok ==> forall k: Key :: Stored(k) && AtMost(Clamped(key), k) ==> PastEnd(k)
      ensures !ok ==> DoneFrom(Clamped(key)) && !Stored(Clamped(key))
      ensures Sought(key, ok)
    {
      hide Walk, Run, GraphOk, FstStateV1.Shows, IsFst, Path, Sound, Ahead, FST.Valid, Stacks, PastEnd, LeastFrom,
        DoneFrom, Stored, Less, Sought;
      var target := key;
      if Compare(target, startKeyInclusive) < 0 {
        target := startKeyInclusive;
      }
      if endKeyExclusive.Some? && Compare(target, endKeyExclusive.value) > 0 {
        target := endKeyExclusive.value;
      }
      assert target == Clamped(key);
      Restart();
      var maxQ := -1;
      var j := 0;
      while j < |target|
        invariant 0 <= j <= |target| && maxQ == -1
        invariant Valid() && Unmoved(old(f), old(aut), old(startKeyInclusive), old(endKeyExclusive), old(nextStart))
        invariant keysStack == target[..j] && keysNil == (old(keysNil) && j == 0)
      {
        var found;
        found, maxQ := Follow(target[j]);
        if !found {
          break;
        }
        assert target[..j + 1] == target[..j] + [target[j]];
        j := j + 1;
      }
      assert target[..|target|] == target;
      ok := Settle(target, j, maxQ);
      ClampedSought(key, ok);
    }

    /** The end of `pointTo`: here if this is a wanted key and the target itself, else the next one. */
    method Settle(target: Key, ghost j: nat, maxQ: int) returns (ok: bool)
      requires Valid() && j <= |target| && keysStack == target[..j] && maxQ >= -1
      requires if j == |target| then maxQ == -1 else Misses(Top().trans, target[j], maxQ)
      modifies this
      ensures Valid() && Unmoved(old(f), old(aut), old(startKeyInclusive), old(endKeyExclusive), nextStart)
      ensures ok ==> LeastFrom(target) && (keysStack == target || !PastEnd(keysStack))
      ensures ok ==> keysNil == (old(keysNil) && keysStack == []) && (keysStack == [] ==> target == [])
      ensures !ok ==> forall k: Key :: Stored(k) && AtMost(target, k) ==> PastEnd(k)
      ensures !ok ==> DoneFrom(target) && !Stored(target)
    {
      hide Walk, Run, GraphOk, FstStateV1.Shows, IsFst, Path, Sound, Ahead, FST.Valid, Stacks, PastEnd, Less, Misses;
      assert target[..|target|] == target;
      if j < |target| { LessAt(keysStack, target, j); }
      TopTells();
      if !statesStack[|statesStack| - 1].final || !aut.isMatch(autStatesStack[|autStatesStack| - 1])
         || Compare(keysStack, target) < 0
      {
        FromHere(target, j, maxQ);
        ok := NextFrom(maxQ);
        EmptyIsLeast(target);
        return ok;
      }
      return true;
    }

    method Reset(f: FST, start: Key, end: Option<Key>, aut: Option<Automaton>) returns (ok: bool)
      requires f.Valid() && (aut.Some? ==> Sound(aut.value)) && (keysNil ==> keysStack == [])
      modifies this
      ensures Valid() && this.f == f && this.aut == (if aut == None then AlwaysMatch else aut.value)
      ensures startKeyInclusive == start && endKeyExclusive == end
      ensures ok ==> LeastFrom(Clamped(start)) && (keysStack == Clamped(start) || !PastEnd(keysStack))
      ensures ok ==> keysNil == (old(keysNil) && keysStack == [])
      ensures !ok ==> forall k: Key :: Stored(k) && AtMost(Clamped(start), k) ==> PastEnd(k)
      ensures !ok ==> DoneFrom(Clamped(start)) && !Stored(Clamped(start))
      ensures Sought(start, ok)
    {
      hide Sound, Run, Accepts, GraphOk, IsFst, Stacks, FST.Valid, LeastFrom, DoneFrom, PastEnd, Clamped,
        Less, Stored, Sought;
      AlwaysMatchSound();
      this.f := f;
      startKeyInclusive := start;
      endKeyExclusive := end;
      this.aut := if aut == None then AlwaysMatch else aut.value;
      ok := PointTo(start);
    }

    method Seek(key: Key) returns (ok: bool)
      requires Valid()
      modifies this
      ensures Valid()
      ensures f == old(f) && aut == old(aut)
      ensures startKeyInclusive == old(startKeyInclusive) && endKeyExclusive == old(endKeyExclusive)
      ensures ok ==> LeastFrom(Clamped(key)) && (keysStack == Clamped(key) || !PastEnd(keysStack))
      ensures ok ==> keysNil == (old(keysNil) && keysStack == [])
      ensures !ok ==> forall k: Key :: Stored(k) && AtMost(Clamped(key), k) ==> PastEnd(k)
      ensures !ok ==> DoneFrom(Clamped(key)) && !Stored(Clamped(key))
      ensures Sought(key, ok)
    {
      hide Sound, Run, Accepts, GraphOk, IsFst, Stacks, FST.Valid, LeastFrom, DoneFrom, PastEnd, Clamped,
        Less, Stored, Sought;
      ok := PointTo(key);
    }

    /**
     * A successful `pointTo` is out of bounds exactly when the end is not after both the start and the
     * key asked for.
     */
    lemma InBoundsWhen(key: Key)
      requires LeastFrom(Clamped(key)) && (keysStack == Clamped(key) || !PastEnd(keysStack))
      ensures PastEnd(keysStack) <==>
        endKeyExclusive.Some? && (AtMost(endKeyExclusive.value, startKeyInclusive)
          || AtMost(endKeyExclusive.value, key))
    {
      hide Less;
      if endKeyExclusive.Some? {
        var end, start := endKeyExclusive.value, startKeyInclusive;
        Trichotomy(key, start);
        Trichotomy(end, start);
        Trichotomy(end, key);
        if AtMost(end, start) && Less(start, key) { AtMostTransitive(end, start, key); }
        if AtMost(end, key) && Less(key, start) { AtMostTransitive(end, key, start); }
        if PastEnd(Clamped(key)) { AtMostTransitive(end, Clamped(key), keysStack); }
      }
    }

    /** Beyond a path that is not itself wanted, what is at or after the target is what is ahead. */
    lemma FromHere(target: Key, j: nat, maxQ: int)
      requires Valid() && j <= |target| && keysStack == target[..j] && maxQ >= -1
      requires if j == |target| then maxQ == -1 && !Stored(target) else Misses(Top().trans, target[j], maxQ)
      ensures !Stored(target)
      ensures forall k: Key :: Stored(k) ==> (AtMost(target, k) <==> AheadOf(Here(maxQ + 1, false), k))
    {
      hide Walk, GraphOk, FstStateV1.Shows, Run, IsFst, Less, Ahead, Path;
      if j < |target| && Stored(target) { WantedGoesOn(target); }
      forall k: Key | Stored(k) ensures AtMost(target, k) <==> AheadOf(Here(maxQ + 1, false), k) {
        if j == |target| {
          assert target[..j] == target;
          AheadFromStart(keysStack, Top().trans, k);
        } else {
          WantedGoesOn(k);
          AheadMissing(target, j, Top().trans, maxQ, k);
        }
      }
    }
  }

  /** b lies between transitions q and q + 1. */
  ghost predicate Misses(trans: seq<Trans>, b: Byte, q: int) {
    && -1 <= q < |trans|
    && (forall i :: 0 <= i <= q ==> trans[i].input < b)
    && (forall i :: q < i < |trans| ==> trans[i].input > b)
  }

  lemma MissesFrom(trans: seq<Trans>, b: Byte, q: int)
    requires Ascending(trans) && FindTrans(trans, b) == |trans| && -1 <= q < |trans|
    requires q >= 0 ==> trans[q].input < b
    requires forall i :: q < i < |trans| ==> trans[i].input >= b
    ensures Misses(trans, b, q)
  {
  }

  /** Where the path leaves the target, the keys after the target are those from the next transition on. */
  lemma AheadMissing(target: Key, j: nat, trans: seq<Trans>, q: int, k: Key)
    requires j < |target| && Misses(trans, target[j], q)
    requires target[..j] <= k && |k| > j ==> FindTrans(trans, k[j]) < |trans|
    ensures AtMost(target, k) <==> Ahead(target[..j], trans, q + 1, false, k)
  {
    hide Less, FindTrans;
    var keys := target[..j];
    if keys <= k {
      assert k[..j] == keys;
      if |k| == j {
        assert k == keys;
        LessAt(k, target, j);
        Trichotomy(k, target);
      } else {
        var i := FindTrans(trans, k[j]);
        assert trans[i].input == k[j];
        PartAt(target, k, j);
      }
    } else {
      var p := CommonLen(keys, k);
      CommonPrefix(keys, k);
      assert keys[..p] == k[..p] == target[..p];
      assert k != target;
      if p == |k| {
        LessAt(k, keys, p);
        LessAt(k, target, p);
        Trichotomy(k, keys);
        Trichotomy(k, target);
      } else {
        PartAt(keys, k, p);
        PartAt(target, k, p);
      }
    }
  }

  /** `newIterator`. */
  method NewIterator(f: FST, start: Key, end: Option<Key>, aut: Option<Automaton>) returns (i: FSTIterator, ok: bool)
    requires f.Valid() && (aut.Some? ==> Sound(aut.value))
    ensures fresh(i) && i.Valid() && i.f == f && i.aut == (if aut == None then AlwaysMatch else aut.value)
    ensures i.startKeyInclusive == start && i.endKeyExclusive == end
    ensures ok ==> i.LeastFrom(i.Clamped(start)) && (i.keysStack == i.Clamped(start) || !i.PastEnd(i.keysStack))
    ensures ok ==> i.keysNil == (i.keysStack == [])
    ensures !ok ==> forall k: Key :: i.Stored(k) && AtMost(i.Clamped(start), k) ==> i.PastEnd(k)
    ensures !ok ==> i.DoneFrom(i.Clamped(start)) && !i.Stored(i.Clamped(start))
    ensures i.Sought(start, ok)
  {
    hide Sound, Run, Accepts, GraphOk, IsFst, Stacks, FST.Valid, Less;
    hide FSTIterator.LeastFrom, FSTIterator.DoneFrom, FSTIterator.PastEnd, FSTIterator.Clamped, FSTIterator.Stored;
    hide FSTIterator.Valid, FSTIterator.Sought;
    i := new FSTIterator(f);
    ok := i.Reset(f, start, end, aut);
  }

  /** A scan of [key, key) is empty, yet it starts by pointing at a stored key. */
  method EmptyRangeFindsKey(f: FST, key: Key) returns (i: FSTIterator, ok: bool)
    requires f.Valid() && key in f.content
    ensures i.Valid() && i.startKeyInclusive == key && i.endKeyExclusive == Some(key)
    ensures ok && i.keysStack == key && i.PastEnd(key)
  {
    hide FSTIterator.Valid, FST.Valid;
    AlwaysMatchSound();
    i, ok := NewIterator(f, key, Some(key), None);
    assert i.Clamped(key) == key;
    assert i.Stored(key);
  }
}
