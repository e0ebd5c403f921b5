/** fst.go and the top level of decoder_v1.go: answers read straight from the bytes. */
module Fst {
  import opened Keys
  import opened Packing
  import opened Transducer
  import opened Walking
  import opened StateBytes
  import opened StateReading
  import opened Encoder
  import opened Decoder
  import opened FstFile

  const FOOTER_SIZE: nat := 16

  lemma FooterReads(data: seq<Byte>, g: Graph, root: nat, count: nat)
    requires Laid(data, g, root, count) && |data| < SLICE_LIMIT
    ensures PackedValue(data[|data| - 8..]) == root
    ensures PackedValue(data[|data| - 16..|data| - 8]) == count % U64_LIMIT
  {
    hide Encodes, GraphOk, HeaderBytes, PackedBytes, PackedValue;
    var n := |data|;
    var footer := PackedBytes(count, 8) + PackedBytes(root, 8);
    assert data[n - 16..] == footer;
    assert data[n - 8..] == footer[8..] == PackedBytes(root, 8);
    assert data[n - 16..n - 8] == footer[..8] == PackedBytes(count, 8);
    RootInside(data, g, root);
    Pow256Table();
    PackedRoundTrip(root, 8);
    PackedTruncates(count, 8);
  }

  lemma RootInside(data: seq<Byte>, g: Graph, root: nat)
    requires Encodes(data, g) && Known(g, root)
    ensures root == EMPTY_ADDR || HEADER_SIZE <= root < |data|
  {
    hide EncodedState;
    if root in g { assert Placed(data, root, g[root]); }
  }

  /** A value too wide for its field loses its high bytes. */
  lemma {:induction false} PackedTruncates(v: nat, n: nat)
    ensures PackedValue(PackedBytes(v, n)) == v % Pow256(n)
  {
    if n > 0 {
      var p := Pow256(n - 1);
      PackedTruncates(v / 256, n - 1);
      assert PackedBytes(v, n)[1..] == PackedBytes(v / 256, n - 1);
      DivModSplit(v, p);
    }
  }

  lemma DivModSplit(v: nat, p: nat)
    requires p > 0
    ensures v % 256 + 256 * (v / 256 % p) == v % (256 * p)
  {
    var q, r := v / 256, v % 256;
    var a, b := q / p, q % p;
    assert v == 256 * q + r && q == p * a + b;
    assert v == (256 * p) * a + (256 * b + r);
    assert 256 * b + r < 256 * p;
    ModUnique(v, 256 * p, a, 256 * b + r);
  }

  lemma ModUnique(v: nat, m: nat, a: nat, c: nat)
    requires c < m && v == m * a + c
    ensures v % m == c
  {
    var a', c' := v / m, v % m;
    var x: int := a - a';
    assert m * x == c' - c;
    if x >= 1 { MulGrows(m, x); }
    if x <= -1 { MulGrows(m, -x); }
  }

  lemma MulGrows(m: nat, x: int)
    requires x >= 1
    ensures m * x >= m
  {
  }

  /** `decodeHeader`: the version, or nothing when there is no room for a header. */
  function DecodeHeader(data: seq<Byte>): (ver: Option<nat>)
    ensures ver.None? <==> |data| < HEADER_SIZE
  {
    if |data| < HEADER_SIZE then None else Some(PackedValue(data[0..8]))
  }

  lemma HeaderReads(data: seq<Byte>)
    requires HEADER_SIZE <= |data| < SLICE_LIMIT && data[..HEADER_SIZE] == HeaderBytes()
    ensures HasHeader(data) && DecodeHeader(data) == Some(VERSION_V1)
  {
    assert data[0..8] == HeaderBytes()[..8] == PackedBytes(VERSION_V1, 8);
    Pow256Table();
    PackedRoundTrip(VERSION_V1, 8);
    assert data[0] == HeaderBytes()[0] == PackedBytes(VERSION_V1, 8)[0] == 1;
  }

  lemma EncodedReads(data: seq<Byte>, g: Graph, a: nat)
    requires Encodes(data, g) && a in g && |data| < SLICE_LIMIT
    ensures HEADER_SIZE <= a < |data| && ReadsAs(data, a, g[a])
  {
    hide EncodedState, ReadsAs;
    assert Placed(data, a, g[a]);
    PlacedReads(data, a, g[a]);
  }

  class FST {
    const data: seq<Byte>
    const len: nat
    /** The graph in the data, the address of its root, and the map it stands for. */
    ghost const graph: Graph
    ghost const root: nat
    ghost const count: nat
    ghost const content: map<Key, U64>

    ghost predicate Valid() {
      IsFst(data, graph, root, count, content) && |data| < SLICE_LIMIT && len == count % U64_LIMIT
    }

    /** Opens data as a transducer for m; the header has been checked by `Load`. */
    constructor (data: seq<Byte>, ghost m: map<Key, U64>)
      requires Represents(data, m) && |data| < SLICE_LIMIT
      ensures Valid() && this.data == data && content == m
    {
      ghost var g: Graph, r: nat, c: nat :| IsFst(data, g, r, c, m);
      FooterReads(data, g, r, c);
      this.data := data;
      graph, root, count, content := g, r, c, m;
      var dlen := GetLen(data);
      this.len := dlen;
    }

    /** The state an address stands for in the graph; the none address has a dead one. */
    ghost function StateOf(addr: nat): State
      requires Valid() && (Known(graph, addr) || addr == NONE_ADDR)
    {
      if addr == NONE_ADDR then State(false, 0, []) else StateAt(graph, addr)
    }

    /** The footer has one count only. */
    lemma LenCounts()
      requires Valid()
      ensures forall c: nat :: Counts(data, content, c) ==> len == c % U64_LIMIT
    {
      hide Encodes, GraphOk, HeaderBytes, FooterBytes, PackedBytes, PackedValue, Holds;
      FooterReads(data, graph, root, count);
      forall c: nat | Counts(data, content, c) ensures len == c % U64_LIMIT {
        var g: Graph, r: nat :| IsFst(data, g, r, c, content);
        FooterReads(data, g, r, c);
      }
    }

    lemma RootKnown()
      requires Valid()
      ensures GraphOk(graph) && Known(graph, root)
    {
    }

    method GetRoot() returns (addr: nat)
      requires Valid()
      ensures addr == root
    {
      hide Encodes, GraphOk, HeaderBytes, FooterBytes, PackedBytes, PackedValue, Holds;
      if |data| < FOOTER_SIZE {
        return NONE_ADDR;
      }
      FooterReads(data, graph, root, count);
      var footer := data[|data| - FOOTER_SIZE..];
      assert footer[8..] == data[|data| - 8..];
      addr := ReadPackedUint(footer[8..]);
    }

    method DecodeAt(addr: nat) returns (state: FstStateV1)
      requires Valid() && (Known(graph, addr) || addr == NONE_ADDR)
      ensures state.Shows(StateOf(addr)) && state.data == data
      ensures Known(graph, addr) ==> StateOf(addr) == StateAt(graph, addr)
    {
      HeaderReads(data);
      if addr in graph { EncodedReads(data, graph, addr); }
      var ok;
      ok, state := At(data, addr, StateOf(addr));
      assert ok;
    }

    /** The content, told by walks from the root. */
    lemma ContentAt(key: Key)
      requires Valid()
      ensures key in content <==>
        var w := Walk(graph, root, key); w.Some? && StateAt(graph, w.value.0).final
      ensures key in content ==>
        var w := Walk(graph, root, key).value; content[key] == w.1 + StateAt(graph, w.0).finalOutput
    {
      hide Walk, Encodes, HeaderBytes, FooterBytes;
      WalkWhole(graph, root, key);
      assert LookupIn(graph, StateAt(graph, root), key) == if key in content then Some(content[key]) else None;
    }

    /** A key whose prefix leads nowhere is not there. */
    lemma NotThere(key: Key, n: nat)
      requires Valid() && n <= |key| && Walk(graph, root, key[..n]) == None
      ensures key !in content
    {
      hide Walk, Encodes, GraphOk, HeaderBytes, FooterBytes, Holds;
      ContentAt(key);
      if Walk(graph, root, key).Some? { WalkPrefix(graph, root, key, n); }
    }

    /** The value of a key, and whether it is there. */
    method Get(input: Key) returns (total: U64, found: bool)
      requires Valid()
      ensures found <==> input in content
      ensures total == if found then content[input] else 0
    {
      hide Walk, Encodes, GraphOk, HeaderBytes, FooterBytes, Holds, FstStateV1.Shows;
      total := 0;
      var curr: nat := GetRoot();
      var state := DecodeAt(curr);
      ghost var sum := 0;
      assert input[..0] == [];
      WalkNowhere(graph, root);
      for i := 0 to |input|
        invariant Known(graph, curr) && state.Shows(StateAt(graph, curr))
        invariant Walk(graph, root, input[..i]) == Some((curr, sum)) && total == sum % U64_LIMIT
      {
        ghost var s := StateAt(graph, curr);
        WalkSnoc(graph, root, input[..i], input[i]);
        assert input[..i + 1] == input[..i] + [input[i]];
        var _, next, output := state.TransitionFor(input[i], s);
        AddressNotNone(graph, curr, input[i]);
        if next == NONE_ADDR {
          NotThere(input, i + 1);
          return 0, false;
        }
        curr := next;
        state := DecodeAt(curr);
        total := (total + output) % U64_LIMIT;
        sum := sum + output;
      }
      assert input[..|input|] == input;
      ContentAt(input);
      StateFinal(state, StateAt(graph, curr));
      if state.final {
        var out := state.FinalOutput(StateAt(graph, curr));
        total := (total + out) % U64_LIMIT;
        return total, true;
      }
      return 0, false;
    }

    /** `IsMatchWithVal`. */
    method IsMatchWithVal(addr: nat) returns (match_: bool, out: U64)
      requires Valid() && (Known(graph, addr) || addr == NONE_ADDR)
      ensures match_ == StateOf(addr).final && out == StateOf(addr).finalOutput
    {
      hide Encodes, GraphOk, HeaderBytes, FooterBytes, Holds, FstStateV1.Shows;
      var s := DecodeAt(addr);
      StateFinal(s, StateOf(addr));
      out := s.FinalOutput(StateOf(addr));
      return s.final, out;
    }

    /** `AcceptWithVal`: one byte of a walk, to the none address when there is no such transition. */
    method AcceptWithVal(addr: nat, b: Byte) returns (next: nat, out: U64)
      requires Valid() && (Known(graph, addr) || addr == NONE_ADDR)
      ensures Known(graph, addr) ==>
        match Walk(graph, addr, [b])
        case None => next == NONE_ADDR && out == 0
        case Some(w) => next == w.0 && next != NONE_ADDR && out == w.1
      ensures addr == NONE_ADDR ==> next == NONE_ADDR
    {
      hide Walk, Encodes, GraphOk, HeaderBytes, FooterBytes, Holds, FstStateV1.Shows;
      var s := DecodeAt(addr);
      if Known(graph, addr) {
        WalkNowhere(graph, addr);
        assert [] + [b] == [b];
        WalkSnoc(graph, addr, [], b);
        AddressNotNone(graph, addr, b);
      }
      var _, n, o := s.TransitionFor(b, StateOf(addr));
      return n, o;
    }

    /** No accepted key comes before rv: each extends it or is greater. */
    ghost predicate NoneBefore(rv: Key) {
      forall k :: k in content ==> rv <= k || Less(rv, k)
    }

    /** No accepted key comes after those that extend rv. */
    ghost predicate NoneAfter(rv: Key) {
      forall k :: k in content ==> rv <= k || Less(k, rv)
    }

    lemma RootLive(k: Key)
      requires Valid() && k in content
      ensures Live(StateAt(graph, root))
    {
      assert LookupIn(graph, StateAt(graph, root), k) == Some(content[k]);
    }

    /** An accepted key that extends rv stops there or goes on with one of its transitions. */
    lemma KeyGoesOn(rv: Key, k: Key)
      requires Valid() && k in content && rv <= k && Walk(graph, root, rv).Some?
      ensures var s := StateAt(graph, Walk(graph, root, rv).value.0);
        if |k| == |rv| then k == rv && s.final
        else FindTrans(s.trans, k[|rv|]) < |s.trans|
    {
      hide Walk, Encodes, GraphOk, HeaderBytes, FooterBytes, Holds;
      ContentAt(k);
      assert k[..|rv|] == rv;
      if |k| > |rv| { WalkNext(graph, root, k, |rv|); } else { assert k == rv; }
    }

    /** `GetMinKey`. On the empty transducer the source indexes past the end, so there has to be a key. */
    method GetMinKey() returns (rv: Key)
      requires Valid() && content != map[]
      ensures rv in content && forall k :: k in content ==> AtMost(rv, k)
    {
      hide Walk, Encodes, GraphOk, HeaderBytes, FooterBytes, Holds, FstStateV1.Shows, Less;
      rv := [];
      var curr: nat := GetRoot();
      var state := DecodeAt(curr);
      EmptyStart();
      StateFinal(state, StateAt(graph, curr));
      while !state.final
        invariant Known(graph, curr) && state.Shows(StateAt(graph, curr)) && state.final == StateAt(graph, curr).final
        invariant state.numTrans == |StateAt(graph, curr).trans|
        invariant Walk(graph, root, rv).Some? && Walk(graph, root, rv).value.0 == curr
        invariant Live(StateAt(graph, curr)) && NoneBefore(rv)
        decreases curr
      {
        ghost var s := StateAt(graph, curr);
        var nextTrans := state.TransitionAt(0, s);
        MinStep(rv);
        Descend(rv, 0);
        var _, next, _ := state.TransitionFor(nextTrans, s);
        curr := next;
        state := DecodeAt(curr);
        StateFinal(state, StateAt(graph, curr));
        rv := rv + [nextTrans];
      }
      ContentAt(rv);
      FirstIsLeast(rv);
    }

    /** `GetMaxKey`; the empty key for the empty transducer. */
    method GetMaxKey() returns (rv: Key)
      requires Valid()
      ensures content != map[] ==> rv in content && forall k :: k in content ==> AtMost(k, rv)
      ensures content == map[] ==> rv == []
    {
      hide Walk, Encodes, GraphOk, HeaderBytes, FooterBytes, Holds, FstStateV1.Shows, Less;
      rv := [];
      var curr: nat := GetRoot();
      var state := DecodeAt(curr);
      EmptyStart();
      EmptyHasNoTransitions();
      StateFinal(state, StateAt(graph, curr));
      while state.numTrans > 0
        invariant Known(graph, curr) && state.Shows(StateAt(graph, curr))
          && state.numTrans == |StateAt(graph, curr).trans|
        invariant Walk(graph, root, rv).Some? && Walk(graph, root, rv).value.0 == curr
        invariant (content != map[] ==> Live(StateAt(graph, curr))) && NoneAfter(rv)
        invariant content == map[] ==> rv == [] && state.numTrans == 0
        decreases curr
      {
        ghost var s := StateAt(graph, curr);
        var nextTrans := state.TransitionAt(state.numTrans - 1, s);
        MaxStep(rv);
        Descend(rv, |s.trans| - 1);
        var _, next, _ := state.TransitionFor(nextTrans, s);
        curr := next;
        state := DecodeAt(curr);
        StateFinal(state, StateAt(graph, curr));
        rv := rv + [nextTrans];
      }
      ContentAt(rv);
      LastIsGreatest(rv);
    }

    lemma EmptyStart()
      requires Valid()
      ensures Walk(graph, root, []) == Some((root, 0)) && NoneBefore([]) && NoneAfter([])
      ensures content != map[] ==> Live(StateAt(graph, root))
    {
      hide Encodes, HeaderBytes, FooterBytes;
      if content != map[] {
        var k :| k in content;
        RootLive(k);
      }
    }

    lemma EmptyHasNoTransitions()
      requires Valid()
      ensures content == map[] ==> StateAt(graph, root).trans == []
    {
      hide Encodes, HeaderBytes, FooterBytes;
      var s := StateAt(graph, root);
      if s.trans != [] {
        var t := s.trans[0];
        var rest := [];
        if t.addr != EMPTY_ADDR { rest := LiveKey(graph, graph[t.addr], t.addr); }
        var k := [t.input] + rest;
        assert k[1..] == rest;
        FindTransAt(s.trans, 0);
        assert LookupIn(graph, s, k).Some?;
        assert k in content;
      }
    }

    /** Transition i of the state rv leads to ends nearer the start of the data, in a live state. */
    lemma Descend(rv: Key, i: nat)
      requires Valid() && Walk(graph, root, rv).Some?
      requires i < |StateAt(graph, Walk(graph, root, rv).value.0).trans|
      ensures var a := Walk(graph, root, rv).value.0;
        var t := StateAt(graph, a).trans[i];
        && FindTrans(StateAt(graph, a).trans, t.input) == i
        && Walk(graph, root, rv + [t.input]).Some? && Walk(graph, root, rv + [t.input]).value.0 == t.addr
        && t.addr < a && Known(graph, t.addr) && Live(StateAt(graph, t.addr)) && t.addr != NONE_ADDR
    {
      hide Walk, Encodes, HeaderBytes, FooterBytes, Holds;
      var s := StateAt(graph, Walk(graph, root, rv).value.0);
      FindTransAt(s.trans, i);
      WalkSnoc(graph, root, rv, s.trans[i].input);
    }

    lemma MinStep(rv: Key)
      requires Valid() && Walk(graph, root, rv).Some? && NoneBefore(rv)
      requires var s := StateAt(graph, Walk(graph, root, rv).value.0); !s.final && s.trans != []
      ensures NoneBefore(rv + [StateAt(graph, Walk(graph, root, rv).value.0).trans[0].input])
    {
      hide Walk, Encodes, HeaderBytes, FooterBytes, Holds, Less;
      var s := StateAt(graph, Walk(graph, root, rv).value.0);
      var longer := rv + [s.trans[0].input];
      forall k | k in content ensures longer <= k || Less(longer, k) {
        if rv <= k {
          KeyGoesOn(rv, k);
          ExtensionCompare(rv, s.trans[0].input, k);
        } else {
          LessSnoc(rv, s.trans[0].input, k);
        }
      }
    }

    lemma MaxStep(rv: Key)
      requires Valid() && Walk(graph, root, rv).Some? && NoneAfter(rv)
      requires StateAt(graph, Walk(graph, root, rv).value.0).trans != []
      ensures var s := StateAt(graph, Walk(graph, root, rv).value.0);
        NoneAfter(rv + [s.trans[|s.trans| - 1].input])
    {
      hide Walk, Encodes, HeaderBytes, FooterBytes, Holds, Less;
      var s := StateAt(graph, Walk(graph, root, rv).value.0);
      var c := s.trans[|s.trans| - 1].input;
      forall k | k in content ensures rv + [c] <= k || Less(k, rv + [c]) {
        if rv <= k {
          KeyGoesOn(rv, k);
          if k == rv { LessAt(k, rv + [c], |k|); } else { ExtensionCompare(rv, c, k); }
        } else {
          SnocLess(rv, c, k);
        }
      }
    }

    lemma FirstIsLeast(rv: Key)
      requires NoneBefore(rv)
      ensures forall k :: k in content ==> AtMost(rv, k)
    {
      forall k | k in content ensures AtMost(rv, k) {
        if rv <= k && k != rv { LessAt(rv, k, |rv|); }
      }
    }

    lemma LastIsGreatest(rv: Key)
      requires Valid() && NoneAfter(rv) && Walk(graph, root, rv).Some?
      requires StateAt(graph, Walk(graph, root, rv).value.0).trans == []
      ensures forall k :: k in content ==> AtMost(k, rv)
    {
      forall k | k in content ensures AtMost(k, rv) {
        if rv <= k { KeyGoesOn(rv, k); }
      }
    }
  }

  /** A key that goes on from rv compares with rv + [c] by its next byte. */
  lemma ExtensionCompare(rv: Key, c: Byte, k: Key)
    requires rv <= k && |k| > |rv|
    ensures k[|rv|] > c ==> Less(rv + [c], k)
    ensures k[|rv|] < c ==> Less(k, rv + [c])
    ensures k[|rv|] == c ==> rv + [c] <= k
  {
    var n := |rv|;
    assert k[..n] == rv == (rv + [c])[..n];
    if k[n] > c { LessAt(rv + [c], k, n); }
    if k[n] < c { LessAt(k, rv + [c], n); }
  }

  lemma LessSnoc(rv: Key, c: Byte, k: Key)
    requires Less(rv, k) && !(rv <= k)
    ensures Less(rv + [c], k)
  {
    var p := CommonLen(rv, k);
    assert rv[..p] == k[..p] == (rv + [c])[..p];
    LessAt(rv + [c], k, p);
  }

  lemma SnocLess(rv: Key, c: Byte, k: Key)
    requires Less(k, rv) && !(rv <= k)
    ensures Less(k, rv + [c])
  {
    var p := CommonLen(k, rv);
    assert k[..p] == rv[..p] == (rv + [c])[..p];
    LessAt(k, rv + [c], p);
  }

  lemma StateFinal(state: FstStateV1, s: State)
    requires state.Shows(s)
    ensures state.final == s.final && state.numTrans == |s.trans|
  {
  }

  method GetLen(data: seq<Byte>) returns (n: nat)
    requires |data| >= FOOTER_SIZE
    ensures n == PackedValue(data[|data| - 16..|data| - 8])
  {
    var footer := data[|data| - FOOTER_SIZE..];
    assert footer[..8] == data[|data| - 16..|data| - 8];
    n := ReadPackedUint(footer[..8]);
  }

  lemma AddressNotNone(g: Graph, a: nat, c: Byte)
    requires GraphOk(g) && Known(g, a)
    ensures var s := StateAt(g, a);
      var i := FindTrans(s.trans, c);
      i < |s.trans| ==> s.trans[i].addr != NONE_ADDR && Known(g, s.trans[i].addr)
  {
  }
}
