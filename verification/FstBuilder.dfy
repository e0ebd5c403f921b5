/** builder.go: keys and values in ascending order in, an encoded minimised transducer out. */
module FstBuilder {
  import opened Keys
  import opened Transducer
  import opened StateBytes
  import opened Encoder
  import opened NodePool
  import opened NodeRegistry
  import opened Unfinished
  import opened StackMeaning
  import opened StackSteps
  import opened OutputShift
  import opened FstFile

  /** The stack with its top's pending transition finished with addr, when there is an addr. */
  ghost function Virtual(view: seq<Unf>, addr: nat): seq<Unf>
    requires view != []
  {
    if addr == NONE_ADDR then view else view[|view| - 1 := FrozenUnf(view[|view| - 1], addr)]
  }

  class Builder {
    const unfinished: UnfinishedNodes
    const registry: Registry
    const pool: BuilderNodePool
    const encoder: EncoderV1
    var last: Key
    var len: nat
    var lastAddr: nat

    /** The states encoded so far. */
    ghost var graph: Graph
    /** What has been inserted. */
    ghost var content: map<Key, U64>
    /** Every node the builder may change. */
    ghost var nodes: set<BuilderNode>

    /** A node is in at most one of the stack, the registry and the pool. */
    ghost predicate Owned()
      reads this`nodes, unfinished, registry, registry.table, pool
    {
      && unfinished.pool == pool && registry.pool == pool
      && StackNodes(unfinished.stack) + registry.Nodes() + pool.members <= nodes
      && StackNodes(unfinished.stack) !! registry.Nodes() !! pool.members
    }

    /** The buffer holds the header and every state of the graph; lastAddr is the last byte of a state. */
    ghost predicate Written()
      reads this`graph, this`lastAddr, encoder.bw
    {
      && encoder.bw.Valid() && GraphOk(graph)
      && |encoder.bw.buf| >= HEADER_SIZE && encoder.bw.buf[..HEADER_SIZE] == HeaderBytes()
      && Encodes(encoder.bw.buf, graph)
      && (lastAddr == |encoder.bw.buf| - 1 || (lastAddr == NONE_ADDR && graph == map[]))
    }

    /** All but the meaning of the stack. */
    ghost predicate Parts()
      reads this`graph, this`lastAddr, this`nodes, unfinished, registry, registry.table, pool, encoder.bw, nodes
    {
      && Owned() && Written()
      && unfinished.Valid() && registry.Valid()
      && CellsShow(graph, registry.table[..], -1)
    }

    /** Between insertions: the stack spells the last key, holds all the content and has nothing finished on top. */
    ghost predicate Valid()
      reads this, unfinished, registry, registry.table, pool, encoder.bw, nodes
    {
      && Parts()
      && StackOk(graph, unfinished.view) && StackHolds(graph, unfinished.view, content)
      && Spelled(unfinished.view) == last
      && unfinished.view[|unfinished.view| - 1].node.trans == []
    }

    constructor (tableSize: nat, mruSize: nat)
      requires tableSize > 0 && mruSize > 0
      ensures Valid() && fresh(nodes) && fresh(unfinished) && fresh(registry) && fresh(registry.table)
      ensures fresh(pool) && fresh(encoder) && fresh(encoder.bw)
      ensures content == map[] && last == [] && len == 0
    {
      hide UnfinishedNodes.Valid, Registry.Valid, HeaderBytes, StackOk, StackHolds, Written;
      var p := new BuilderNodePool();
      var w := new Writer();
      var e := new EncoderV1(w);
      e.Start();
      var r := new Registry(p, tableSize, mruSize);
      var u := new UnfinishedNodes(p);
      pool, unfinished, registry, encoder := p, u, r, e;
      last, len, lastAddr := [], 0, NONE_ADDR;
      graph, content := map[], map[];
      nodes := StackNodes(u.stack) + p.members;
      new;
      assert encoder.bw.buf == HeaderBytes();
      InitiallyValid();
    }

    lemma InitiallyValid()
      requires unfinished.pool == pool && registry.pool == pool && unfinished.Valid() && registry.Valid()
      requires forall i :: 0 <= i < |registry.table[..]| ==> registry.table[..][i].node == null
      requires nodes == StackNodes(unfinished.stack) + pool.members
      requires unfinished.view == [Unf(BLANK, 0, 0, false)] && last == []
      requires encoder.bw.Valid() && encoder.bw.buf == HeaderBytes() && lastAddr == NONE_ADDR
      requires graph == map[] && content == map[]
      ensures Valid()
    {
      hide StackOk, StackHolds, GraphOk, Encodes, CellsShow, Spelled, CellNodes, HeaderBytes, DistinctNodes;
      assert encoder.bw.buf[..HEADER_SIZE] == HeaderBytes();
      EmptyHolds(unfinished.view, encoder.bw.buf);
      NoCells(registry.table[..]);
    }

    /**
     * The address of a state equal to the node: 0 for the bare final state, one the registry knows,
     * or that of a state newly written. Nothing already written changes.
     */
    method Compile(node: BuilderNode) returns (addr: nat)
      requires Parts() && NodeOk(graph, node.View())
      requires node in nodes && node !in StackNodes(unfinished.stack)
      requires node !in registry.Nodes() && node !in pool.members
      modifies this`lastAddr, this`graph, registry.table, pool, registry.Nodes(), encoder.bw
      ensures Parts() && GraphOk(graph) && Extends(old(graph), graph)
      ensures Known(graph, addr) && StateAt(graph, addr) == old(node.View()) && addr != NONE_ADDR
    {
      hide Encodes, GraphOk, HeaderBytes, DistinctNodes, NodeOk, CellNodes;
      if node.final && |node.trans| == 0 && node.finalOutput == 0 {
        return EMPTY_ADDR;
      }
      ghost var s := node.View();
      var found, known, cell := registry.Entry(node, graph);
      assert node.View() == s;
      if found {
        NotReserved(graph, known);
        return known;
      }
      addr := Encode(node, cell);
    }

    /** Writes the state of the node in the registry cell, and notes its address there. */
    method Encode(node: BuilderNode, cell: nat) returns (addr: nat)
      requires Owned() && Written() && unfinished.Valid() && registry.Valid()
      requires CellsShow(graph, registry.table[..], cell)
      requires cell < registry.table.Length && registry.table[cell].node == node
      requires NodeOk(graph, node.View()) && node.View() != FINAL_STATE
      modifies this`lastAddr, this`graph, registry.table, encoder.bw
      ensures Parts() && GraphOk(graph) && Extends(old(graph), graph)
      ensures Known(graph, addr) && StateAt(graph, addr) == node.View() && addr != NONE_ADDR
    {
      hide Written, GraphOk, NodeOk, UnfinishedNodes.Valid, CellsShow, Extends;
      var s := node.View();
      ghost var g := graph;
      addr := WriteState(s);
      ShownStill(g, graph, registry.table[..], cell);
      var entry := registry.table[cell];
      registry.table[cell] := entry.(addr := addr);
      CellFilled(old(registry.table[..]), registry.table[..], cell);
      FilledShows(graph, old(registry.table[..]), registry.table[..], cell);
    }

    /** The bytes of a state, which becomes the last one written. */
    method WriteState(s: State) returns (addr: nat)
      requires Written() && NodeOk(graph, s) && s != FINAL_STATE
      modifies this`lastAddr, this`graph, encoder.bw
      ensures Written() && GraphOk(graph) && Extends(old(graph), graph)
      ensures Known(graph, addr) && StateAt(graph, addr) == s && addr != NONE_ADDR
    {
      hide EncodedState, Encodes, GraphOk, Earlier, WellFormed, Closed;
      EarlierInBuffer(encoder.bw.buf, graph, s);
      ghost var before := encoder.bw.buf;
      addr := encoder.EncodeState(s, lastAddr);
      StateAdded(before, encoder.bw.buf, graph, s, addr);
      graph := graph[addr := s];
      lastAddr := addr;
    }

    /** One turn of compileFrom: the top of the stack is finished, popped and compiled. */
    method PopAndCompile(addr: nat) returns (next: nat)
      requires Parts() && |unfinished.view| >= 2
      requires StackOk(graph, Virtual(unfinished.view, addr))
      requires StackHolds(graph, Virtual(unfinished.view, addr), content)
      modifies this`lastAddr, this`graph, unfinished`stack, unfinished`view, nodes, registry.table, pool, encoder.bw
      ensures Parts() && next != NONE_ADDR
      ensures unfinished.view == old(unfinished.view)[..old(|unfinished.view|) - 1]
      ensures StackOk(graph, Virtual(unfinished.view, next))
      ensures StackHolds(graph, Virtual(unfinished.view, next), content)
    {
      hide StackOk, StackHolds, GraphOk, NodeOk, Written, CellsShow, UnfinishedNodes.Valid, Registry.Valid, FrozenUnf;
      ghost var g, stk := graph, Virtual(unfinished.view, addr);
      TopOk(g, stk);
      ghost var top := |stk| - 1;
      var node := PopTop(addr);
      assert node.View() == stk[top].node;
      next := Compile(node);
      assert Virtual(unfinished.view, next) == Popped(stk, next);
      PopHolds(g, graph, stk, next, content);
    }

    /**
     * Finishes all entries above iState, and with them the pending transition of iState itself:
     * no key and no value changes.
     */
    method CompileFrom(iState: nat) returns (ghost addr: nat)
      requires Parts() && StackOk(graph, unfinished.view) && StackHolds(graph, unfinished.view, content)
      requires iState < |unfinished.view|
      modifies this`lastAddr, this`graph, unfinished`stack, unfinished`view, nodes, registry.table, pool, encoder.bw
      ensures Parts() && StackOk(graph, unfinished.view) && StackHolds(graph, unfinished.view, content)
      ensures unfinished.view == FrozenAt(old(unfinished.view), iState, addr)
    {
      hide StackOk, StackHolds, FrozenUnf, Written, CellsShow, UnfinishedNodes.Valid, Registry.Valid;
      var next := NONE_ADDR;
      SameLengths();
      while iState + 1 < |unfinished.stack|
        invariant Parts() && iState < |unfinished.view| <= old(|unfinished.view|)
        invariant |unfinished.view| == |unfinished.stack|
        invariant unfinished.view == old(unfinished.view)[..|unfinished.view|]
        invariant next == NONE_ADDR <==> |unfinished.view| == old(|unfinished.view|)
        invariant StackOk(graph, Virtual(unfinished.view, next))
        invariant StackHolds(graph, Virtual(unfinished.view, next), content)
        decreases |unfinished.stack|
      {
        next := PopAndCompile(next);
        SameLengths();
      }
      addr := next;
      FreezeTop(next);
    }

    lemma SameLengths()
      requires Parts()
      ensures |unfinished.view| == |unfinished.stack|
    {
    }

    method FreezeTop(addr: nat)
      requires Parts() && unfinished.view != [] && StackOk(graph, Virtual(unfinished.view, addr))
      modifies unfinished`stack, unfinished`view, StackNodes(unfinished.stack)
      ensures Parts() && unfinished.view == Virtual(old(unfinished.view), addr)
    {
      assert unfinished.stack[|unfinished.stack| - 1] in unfinished.stack;
      unfinished.TopLastFreeze(addr);
      SameNodes(unfinished.stack, old(unfinished.stack));
    }

    /**
     * Keys have to come in ascending order. The empty key can be given again as long as it is the
     * last; a non-empty key given again keeps its first value, though it counts once more.
     */
    method Insert(key: Key, val: U64) returns (ok: bool)
      requires Valid()
      modifies this, unfinished`stack, unfinished`view, nodes, registry.table, pool, encoder.bw
      ensures Valid() && fresh(nodes - old(nodes))
      ensures ok <==> !Less(key, old(last))
      ensures !ok ==> content == old(content) && last == old(last) && len == old(len)
      ensures ok ==> content == Inserted(old(content), old(last), key, val) && last == key
      ensures ok ==> len == if key == [] then 1 else old(len) + 1
    {
      hide StackOk, StackHolds, Written, CellsShow, UnfinishedNodes.Valid, Registry.Valid, Less;
      if Compare(key, last) < 0 {
        return false;
      }
      if |key| == 0 {
        EmptyIsLeast(last);
        len := 1;
        SetRoot(val);
        return true;
      }
      InsertKey(key, val);
      return true;
    }

    /** The empty key, before any other. */
    method SetRoot(val: U64)
      requires Valid() && last == []
      modifies this`content, unfinished`view, nodes
      ensures Valid() && content == old(content)[[] := val]
    {
      hide Written, CellsShow, Registry.Valid, StackHolds, CellNodes;
      assert |unfinished.view| == 1;
      assert unfinished.stack[0] in unfinished.stack;
      ghost var before := unfinished.view;
      unfinished.SetRootOutput(val);
      content := content[[] := val];
      RootHolds(graph, before, old(content), val);
    }

    /** A non-empty key no smaller than the last. */
    method InsertKey(key: Key, val: U64)
      requires Valid() && key != [] && !Less(key, last)
      modifies this, unfinished`stack, unfinished`view, nodes, registry.table, pool, encoder.bw
      ensures Valid() && fresh(nodes - old(nodes))
      ensures content == Inserted(old(content), old(last), key, val) && last == key && len == old(len) + 1
    {
      hide StackOk, StackHolds, Written, CellsShow, UnfinishedNodes.Valid, Registry.Valid, FrozenAt, Spelled,
        Inserted, PathOut;
      var prefixLen, out := Share(key, val);
      len := len + 1;
      ghost var g, shared := graph, unfinished.view;
      ghost var addr := CompileFrom(prefixLen);
      last := key;
      Grow(key, prefixLen, out, val, g, shared, addr);
    }

    /** findCommonPrefixAndSetOutput, from one insertion to the next. */
    method Share(key: Key, val: U64) returns (prefixLen: nat, out: U64)
      requires Valid()
      modifies unfinished`stack, unfinished`view, nodes
      ensures Valid() && prefixLen == CommonLen(key, last)
      ensures prefixLen < |unfinished.view| && PathOut(unfinished.view, prefixLen) + out == val
    {
      hide Written, CellsShow, Registry.Valid, StackHolds, CellNodes, Bounded, Walked;
      ghost var before := unfinished.view;
      HoldsBounded(graph, before, content);
      prefixLen, out := unfinished.FindCommonPrefixAndSetOutput(key, val, graph);
      WalkedHolds(graph, before, unfinished.view, key, prefixLen, val, out, content);
    }

    /** addSuffix, after the stack has been cut back to what key shares with the last key. */
    method Grow(key: Key, prefixLen: nat, out: U64, ghost val: U64,
        ghost g: Graph, ghost shared: seq<Unf>, ghost addr: nat)
      requires Parts() && StackOk(graph, unfinished.view) && StackHolds(graph, unfinished.view, content)
      requires key == last && key != [] && StackOk(g, shared) && !Less(key, Spelled(shared))
      requires shared[|shared| - 1].node.trans == []
      requires prefixLen == CommonLen(key, Spelled(shared)) && PathOut(shared, prefixLen) + out == val
      requires unfinished.view == FrozenAt(shared, prefixLen, addr)
      modifies this`content, this`nodes, unfinished`stack, unfinished`view, pool, pool.members
      ensures Valid() && fresh(nodes - old(nodes))
      ensures content == Inserted(old(content), Spelled(shared), key, val)
    {
      hide StackOk, StackHolds, Owned, Written, CellsShow, UnfinishedNodes.Valid, Registry.Valid, FrozenAt, Spelled,
        AllBelow, Suffixed, PathOut;
      ghost var stk := unfinished.view;
      CutBack(g, shared, key, prefixLen, addr);
      PushSuffix(key[prefixLen..], out);
      if prefixLen < |key| {
        content := content[key := val];
        assert key[..prefixLen] + key[prefixLen..] == key;
        SuffixEnds(graph, stk, key[prefixLen..], out, old(content), val);
      } else {
        assert key[prefixLen..] == [] && key[..prefixLen] == key;
      }
    }

    method PushSuffix(bs: Key, out: U64)
      requires Parts() && unfinished.view != []
      modifies this`nodes, unfinished`stack, unfinished`view, pool, pool.members
      ensures Parts() && fresh(nodes - old(nodes))
      ensures unfinished.view == if bs == [] then old(unfinished.view) else Suffixed(old(unfinished.view), bs, out)
    {
      hide Written, CellNodes, Suffixed;
      unfinished.AddSuffix(bs, out);
      nodes := nodes + StackNodes(unfinished.stack);
    }

    /** Compiles what is left of the stack and writes the footer: the buffer is a transducer for the content. */
    method Close() returns (ghost root: nat)
      requires Valid()
      modifies this, unfinished`stack, unfinished`view, nodes, registry.table, pool, encoder.bw
      ensures content == old(content) && len == old(len)
      ensures IsFst(encoder.bw.buf, graph, root, len, content)
    {
      hide StackOk, StackHolds, Written, CellsShow, UnfinishedNodes.Valid, Registry.Valid, FrozenUnf, IsFst, Holds,
        Spelled;
      ghost var addr := CompileFrom(0);
      ghost var g, view := graph, unfinished.view;
      RootMeans(g, view, content);
      var node := TakeRoot();
      var rootAddr := Compile(node);
      ghost var before := encoder.bw.buf;
      ReadyToFinish();
      encoder.Finish(len, rootAddr);
      root := rootAddr;
      HoldsExtends(g, graph, view[0].node, content);
      Finished(before, encoder.bw.buf, graph, root, len, content);
    }

    lemma ReadyToFinish()
      requires Parts()
      ensures encoder.bw.Valid() && GraphOk(graph) && Encodes(encoder.bw.buf, graph)
      ensures |encoder.bw.buf| >= HEADER_SIZE && encoder.bw.buf[..HEADER_SIZE] == HeaderBytes()
    {
    }

    method TakeRoot() returns (node: BuilderNode)
      requires Parts() && |unfinished.view| == 1
      modifies unfinished`stack, unfinished`view
      ensures Parts() && node.View() == old(unfinished.view)[0].node
      ensures node in nodes && node !in StackNodes(unfinished.stack)
      ensures node !in registry.Nodes() && node !in pool.members
    {
      assert unfinished.stack[0] in unfinished.stack;
      node := unfinished.PopRoot();
      assert unfinished.stack == [];
    }

    method PopTop(addr: nat) returns (node: BuilderNode)
      requires Parts() && |unfinished.view| >= 2
      modifies unfinished`stack, unfinished`view, StackNodes(unfinished.stack)
      ensures Parts()
      ensures unfinished.view == old(unfinished.view)[..old(|unfinished.view|) - 1]
      ensures node in nodes && node !in StackNodes(unfinished.stack)
      ensures node !in registry.Nodes() && node !in pool.members
      ensures node.View() == Virtual(old(unfinished.view), addr)[old(|unfinished.view|) - 1].node
    {
      hide Written, CellsShow, Registry.Valid, FrozenUnf, CellNodes;
      assert unfinished.stack[|unfinished.stack| - 1] in unfinished.stack;
      if addr == NONE_ADDR {
        node := unfinished.PopEmpty();
      } else {
        node := unfinished.PopFreeze(addr);
      }
      assert forall c :: c in unfinished.stack ==> c in old(unfinished.stack);
    }
  }

  /** The first iState + 1 entries, the last of them frozen when others lay above it. */
  ghost function FrozenAt(view: seq<Unf>, iState: nat, addr: nat): seq<Unf>
    requires iState < |view|
  {
    if iState + 1 == |view| then view else view[..iState] + [FrozenUnf(view[iState], addr)]
  }

  /** The content after an accepted insertion. */
  function Inserted(m: map<Key, U64>, last: Key, key: Key, val: U64): map<Key, U64> {
    if key != [] && key == last then m else m[key := val]
  }

  lemma HoldsBounded(g: Graph, stk: seq<Unf>, m: map<Key, U64>)
    requires StackOk(g, stk) && StackHolds(g, stk, m)
    ensures Bounded(g, stk)
  {
    forall k: Key | StackLookup(g, stk, 0, k).Some? ensures StackLookup(g, stk, 0, k).value < U64_LIMIT {
      assert k in m && m[k] < U64_LIMIT;
    }
  }

  lemma WalkedHolds(g: Graph, a: seq<Unf>, b: seq<Unf>, key: Key, n: nat, out: U64, rest: U64, m: map<Key, U64>)
    requires Walked(g, a, b, key, n, out, rest) && StackHolds(g, a, m)
    requires a[|a| - 1].node.trans == []
    ensures StackHolds(g, b, m) && b[|b| - 1].node.trans == []
  {
    SameHolds(g, a, g, b, m);
    assert SameForm(b[|b| - 1], a[|a| - 1]);
  }

  lemma RootHolds(g: Graph, before: seq<Unf>, m: map<Key, U64>, val: U64)
    requires StackOk(g, before) && |before| == 1 && before[0].node.trans == [] && StackHolds(g, before, m)
    ensures var r := before[0 := before[0].(node := State(true, val, before[0].node.trans))];
      StackOk(g, r) && StackHolds(g, r, m[[] := val]) && Spelled(r) == []
  {
    var r := before[0 := before[0].(node := State(true, val, before[0].node.trans))];
    forall k: Key ensures StackLookup(g, r, 0, k) == if k in m[[] := val] then Some(m[[] := val][k]) else None {
      BareLookup(g, r[0].node, k);
      BareLookup(g, before[0].node, k);
      assert StackLookup(g, before, 0, k) == if k in m then Some(m[k]) else None;
    }
  }

  /**
   * Cut back to what key shares with the last key, the stack spells that part, and the top has no
   * transition on the byte that comes next in key.
   */
  lemma CutBack(g: Graph, shared: seq<Unf>, key: Key, n: nat, addr: nat)
    requires StackOk(g, shared) && shared[|shared| - 1].node.trans == []
    requires n == CommonLen(key, Spelled(shared)) && !Less(key, Spelled(shared))
    ensures n < |shared|
    ensures var r := FrozenAt(shared, n, addr);
      && |r| == n + 1 && Spelled(r) == key[..n] && PathOut(r, n) == PathOut(shared, n)
      && (n == |key| ==> key == Spelled(shared) && r == shared)
      && (n < |key| ==> key != Spelled(shared) && AllBelow(r[n].node.trans, key[n]))
  {
    hide GraphOk, NodeOk, Less, CommonLen, Spelled, FrozenUnf, PathOut;
    var r := FrozenAt(shared, n, addr);
    assert r[..n] == shared[..n];
    PathOutAlike(r, shared, n);
    CutSpelled(shared, r, key, n);
    CutCompare(key, Spelled(shared), n);
    if n < |shared| - 1 && n < |key| {
      FrozenBelow(shared[n], addr, key[n]);
    }
  }

  lemma CutSpelled(shared: seq<Unf>, r: seq<Unf>, key: Key, n: nat)
    requires n < |shared| && |r| == n + 1 && r[..n] == shared[..n] && n == CommonLen(key, Spelled(shared))
    ensures Spelled(r) == key[..n]
    ensures n < |shared| - 1 ==> Spelled(shared)[n] == shared[n].lastIn
  {
    forall j | 0 <= j < n ensures Spelled(r)[j] == key[j] {
      assert r[j] == r[..n][j] == shared[..n][j] == shared[j];
      assert Spelled(shared)[j] == shared[j].lastIn;
    }
  }

  lemma CutCompare(key: Key, last: Key, n: nat)
    requires n == CommonLen(key, last) && !Less(key, last)
    ensures n == |key| ==> key == last
    ensures n < |key| ==> key != last
    ensures n < |key| && n < |last| ==> last[n] < key[n]
  {
  }

  lemma FrozenBelow(u: Unf, addr: nat, b: Byte)
    requires PendingLast(u) && u.hasLastT && u.lastIn < b
    ensures AllBelow(FrozenUnf(u, addr).node.trans, b)
  {
  }

  lemma SuffixEnds(g: Graph, stk: seq<Unf>, bs: Key, out: U64, m: map<Key, U64>, val: U64)
    requires StackOk(g, stk) && bs != [] && AllBelow(stk[|stk| - 1].node.trans, bs[0])
    requires StackHolds(g, stk, m) && PathOut(stk, |stk| - 1) + out == val
    ensures var r := Suffixed(stk, bs, out);
      && StackOk(g, r) && StackHolds(g, r, m[Spelled(stk) + bs := val])
      && Spelled(r) == Spelled(stk) + bs && r[|r| - 1].node.trans == []
  {
    hide StackOk, Suffixed, Spelled;
    TopOk(g, stk);
    SuffixedShape(stk, bs, out);
    SuffixedOk(g, stk, bs, out);
    SuffixHolds(g, stk, bs, out, m, val);
  }

  /** A stack of one entry means what its node means. */
  lemma RootMeans(g: Graph, view: seq<Unf>, m: map<Key, U64>)
    requires StackOk(g, view) && |view| == 1 && StackHolds(g, view, m)
    ensures GraphOk(g) && NodeOk(g, view[0].node) && Holds(g, view[0].node, m)
  {
    forall k: Key ensures LookupIn(g, view[0].node, k) == if k in m then Some(m[k]) else None {
      assert StackLookup(g, view, 0, k) == LookupIn(g, view[0].node, k);
    }
  }

  lemma HoldsExtends(g: Graph, h: Graph, s: State, m: map<Key, U64>)
    requires GraphOk(g) && GraphOk(h) && Extends(g, h) && Closed(g, s) && Holds(g, s, m)
    ensures Closed(h, s) && Holds(h, s, m)
  {
    LookupExtends(g, h, s, []);
    forall k: Key ensures LookupIn(h, s, k) == if k in m then Some(m[k]) else None {
      LookupExtends(g, h, s, k);
    }
  }

  lemma Finished(buf: seq<Byte>, data: seq<Byte>, g: Graph, root: nat, count: nat, m: map<Key, U64>)
    requires GraphOk(g) && Encodes(buf, g) && |buf| >= HEADER_SIZE && buf[..HEADER_SIZE] == HeaderBytes()
    requires data == buf + FooterBytes(count, root)
    requires Known(g, root) && Holds(g, StateAt(g, root), m)
    ensures IsFst(data, g, root, count, m)
  {
    hide Encodes, GraphOk, Holds, HeaderBytes, FooterBytes;
    EncodesAppend(buf, FooterBytes(count, root), g);
    assert data[..HEADER_SIZE] == buf[..HEADER_SIZE];
    assert data[|data| - 16..] == FooterBytes(count, root);
  }

  lemma NotReserved(g: Graph, a: nat)
    requires GraphOk(g) && a in g
    ensures a != EMPTY_ADDR && a != NONE_ADDR
  {
  }

  lemma TopOk(g: Graph, stk: seq<Unf>)
    requires StackOk(g, stk)
    ensures stk != [] && GraphOk(g) && NodeOk(g, stk[|stk| - 1].node)
  {
  }

  lemma SameHolds(g: Graph, a: seq<Unf>, h: Graph, b: seq<Unf>, m: map<Key, U64>)
    requires StackOk(g, a) && StackOk(h, b) && SameAt(g, a, h, b, 0) && StackHolds(g, a, m)
    ensures StackHolds(h, b, m)
  {
    forall k: Key ensures StackLookup(h, b, 0, k) == if k in m then Some(m[k]) else None {
      assert StackLookup(g, a, 0, k) == StackLookup(h, b, 0, k);
    }
  }

  lemma PopHolds(g: Graph, h: Graph, stk: seq<Unf>, addr: nat, m: map<Key, U64>)
    requires StackOk(g, stk) && |stk| >= 2 && GraphOk(h) && Extends(g, h)
    requires Known(h, addr) && StateAt(h, addr) == stk[|stk| - 1].node
    requires StackHolds(g, stk, m)
    ensures StackOk(h, Popped(stk, addr)) && StackHolds(h, Popped(stk, addr), m)
  {
    hide Popped;
    PopKeeps(g, h, stk, addr);
    SameHolds(g, stk, h, Popped(stk, addr), m);
  }

  lemma NoCells(cells: seq<RegistryCell>)
    requires forall i :: 0 <= i < |cells| ==> cells[i].node == null
    ensures CellsShow(map[], cells, -1) && CellNodes(cells) == {}
  {
  }

  lemma EmptyHolds(view: seq<Unf>, buf: seq<Byte>)
    requires view == [Unf(BLANK, 0, 0, false)]
    ensures Encodes(buf, map[])
    ensures GraphOk(map[]) && StackOk(map[], view) && StackHolds(map[], view, map[]) && Spelled(view) == []
  {
    forall k: Key ensures StackLookup(map[], view, 0, k) == None {
      BareLookup(map[], BLANK, k);
    }
  }

  /** Every address a state can refer to is already in the buffer. */
  lemma EarlierInBuffer(buf: seq<Byte>, g: Graph, s: State)
    requires Encodes(buf, g) && Closed(g, s)
    ensures Earlier(s, |buf|)
    ensures g == map[] ==> forall i :: 0 <= i < |s.trans| ==> s.trans[i].addr == EMPTY_ADDR
  {
    forall i | 0 <= i < |s.trans| && s.trans[i].addr != EMPTY_ADDR
      ensures HEADER_SIZE <= s.trans[i].addr < |buf|
    {
      assert Placed(buf, s.trans[i].addr, g[s.trans[i].addr]);
    }
  }

  lemma GraphGrows(g: Graph, addr: nat, s: State)
    requires GraphOk(g) && NodeOk(g, s) && Earlier(s, addr) && HEADER_SIZE <= addr && addr !in g
    ensures GraphOk(g[addr := s]) && Extends(g, g[addr := s])
  {
  }

  lemma PlacedAtEnd(buf: seq<Byte>, bytes: seq<Byte>, s: State)
    requires WellFormed(s) && Earlier(s, |buf|) && |buf| >= HEADER_SIZE
    requires bytes == EncodedState(s, |buf|)
    ensures bytes != [] && Placed(buf + bytes, |buf + bytes| - 1, s)
  {
    hide WellFormed, Earlier;
    assert (buf + bytes)[|buf|..|buf + bytes|] == bytes;
    assert PlacedFrom(buf + bytes, |buf + bytes| - 1, s, |buf|) by { hide EncodedState; }
  }

  lemma AddressesInside(buf: seq<Byte>, g: Graph)
    requires Encodes(buf, g)
    ensures forall a :: a in g ==> a < |buf|
  {
    hide EncodedState;
    forall a | a in g ensures a < |buf| {
      assert Placed(buf, a, g[a]);
    }
  }

  lemma EncodesMore(buf: seq<Byte>, more: seq<Byte>, g: Graph, s: State, addr: nat)
    requires Encodes(buf, g) && WellFormed(s) && Earlier(s, |buf|) && |buf| >= HEADER_SIZE
    requires more == buf + EncodedState(s, |buf|) && addr == |more| - 1
    ensures addr !in g && addr >= |buf| && Encodes(more, g[addr := s])
  {
    hide EncodedState, Placed, WellFormed, Earlier;
    var bytes := EncodedState(s, |buf|);
    PlacedAtEnd(buf, bytes, s);
    AddressesInside(buf, g);
    EncodesAppend(buf, bytes, g);
  }

  lemma EarlierLonger(s: State, a: nat, b: nat)
    requires Earlier(s, a) && a <= b
    ensures Earlier(s, b)
  {
  }

  /** A state written at the end of the buffer joins the graph. */
  lemma StateAdded(buf: seq<Byte>, more: seq<Byte>, g: Graph, s: State, addr: nat)
    requires GraphOk(g) && Encodes(buf, g) && NodeOk(g, s) && Earlier(s, |buf|) && |buf| >= HEADER_SIZE
    requires more == buf + EncodedState(s, |buf|) && addr == |more| - 1
    ensures var h := g[addr := s];
      addr !in g && addr >= HEADER_SIZE && Extends(g, h) && GraphOk(h) && Encodes(more, h)
    ensures more[..HEADER_SIZE] == buf[..HEADER_SIZE]
  {
    hide EncodedState, Encodes, GraphOk, Earlier, WellFormed, Closed;
    EncodesMore(buf, more, g, s, addr);
    EarlierLonger(s, |buf|, addr);
    GraphGrows(g, addr, s);
  }

  /** What the cells show stays so as the graph grows. */
  lemma ShownStill(g: Graph, h: Graph, cells: seq<RegistryCell>, cell: nat)
    requires CellsShow(g, cells, cell) && Extends(g, h)
    ensures CellsShow(h, cells, cell)
  {
  }

  lemma FilledShows(g: Graph, a: seq<RegistryCell>, b: seq<RegistryCell>, cell: nat)
    requires cell < |a| == |b| && b == a[cell := b[cell]] && CellsShow(g, a, cell)
    requires b[cell].node != null ==> b[cell].addr in g && g[b[cell].addr] == b[cell].node.View()
    ensures CellsShow(g, b, -1)
  {
  }

  lemma CellFilled(a: seq<RegistryCell>, b: seq<RegistryCell>, cell: nat)
    requires cell < |a| == |b| && DistinctNodes(a)
    requires b == a[cell := b[cell]] && b[cell].node == a[cell].node
    ensures DistinctNodes(b) && CellNodes(b) == CellNodes(a)
  {
    forall n | n in CellNodes(a) ensures n in CellNodes(b) {
      var c :| c in a && c.node == n;
      var i :| 0 <= i < |a| && a[i] == c;
      assert b[i] in b && b[i].node == n;
    }
    forall n | n in CellNodes(b) ensures n in CellNodes(a) {
      var c :| c in b && c.node == n;
      var i :| 0 <= i < |b| && b[i] == c;
      assert a[i] in a && a[i].node == n;
    }
  }

  /** The content after a run of accepted insertions. */
  function InsertedAll(kvs: seq<(Key, U64)>): map<Key, U64> {
    if kvs == [] then map[]
    else
      var n := |kvs| - 1;
      Inserted(InsertedAll(kvs[..n]), if n == 0 then [] else kvs[n - 1].0, kvs[n].0, kvs[n].1)
  }

  lemma {:induction false} InsertedKeys(kvs: seq<(Key, U64)>, k: Key)
    ensures k in InsertedAll(kvs) <==> exists i :: 0 <= i < |kvs| && kvs[i].0 == k
  {
    if kvs != [] {
      var n := |kvs| - 1;
      var front := kvs[..n];
      InsertedKeys(front, k);
      if n > 0 { InsertedKeys(front, front[n - 1].0); }
      if i :| 0 <= i < |kvs| && kvs[i].0 == k { assert i < n ==> front[i].0 == k; }
      if i :| 0 <= i < |front| && front[i].0 == k { assert kvs[i].0 == k; }
    }
  }

  ghost predicate Ordered(kvs: seq<(Key, U64)>) {
    forall i, j :: 0 <= i < j < |kvs| ==> AtMost(kvs[i].0, kvs[j].0)
  }

  /** The same key twice has nothing else between. */
  lemma Between(kvs: seq<(Key, U64)>, i: nat, j: nat, k: nat)
    requires Ordered(kvs) && i <= j <= k < |kvs| && kvs[i].0 == kvs[k].0
    ensures kvs[j].0 == kvs[k].0
  {
    Trichotomy(kvs[j].0, kvs[k].0);
  }

  /** Of a non-empty key given several times the first value is kept. */
  lemma {:induction false} FirstValueKept(kvs: seq<(Key, U64)>, i: nat)
    requires Ordered(kvs) && i < |kvs| && kvs[i].0 != [] && (i == 0 || kvs[i - 1].0 != kvs[i].0)
    ensures kvs[i].0 in InsertedAll(kvs) && InsertedAll(kvs)[kvs[i].0] == kvs[i].1
  {
    hide Less, AtMost;
    var n := |kvs| - 1;
    if i < n {
      assert kvs[..n][i] == kvs[i] && (i > 0 ==> kvs[..n][i - 1] == kvs[i - 1]);
      FirstValueKept(kvs[..n], i);
      if kvs[n].0 == kvs[i].0 { Between(kvs, i, n - 1, n); }
    }
  }

  /** Of the empty key given several times the last value is kept. */
  lemma {:induction false} LastEmptyKept(kvs: seq<(Key, U64)>, i: nat)
    requires Ordered(kvs) && i < |kvs| && kvs[i].0 == [] && (i == |kvs| - 1 || kvs[i + 1].0 != [])
    ensures [] in InsertedAll(kvs) && InsertedAll(kvs)[[]] == kvs[i].1
  {
    hide Less, AtMost;
    var n := |kvs| - 1;
    if i < n {
      assert kvs[..n][i] == kvs[i] && (i + 1 < n ==> kvs[..n][i + 1] == kvs[i + 1]);
      LastEmptyKept(kvs[..n], i);
      if kvs[n].0 == [] { Between(kvs, i, i + 1, n); }
    }
  }
}
