/** query_engine.go: candidate sets, pruning, and a backtracking join over what is left. */
module QueryEngine {
  import opened Transducer
  import opened Bitmaps
  import opened Indices
  import opened GraphTables
  import opened GraphStore
  import opened Joins

  /** A result row: identifiers by variable. */
  type Row = map<string, Uuid>

  datatype ResultSet = UnknownVars(source: string, target: string) | Bindings(rows: seq<Row>)

  function RowFor(b: Binding, ids: seq<Uuid>): Row {
    map x | x in b && b[x] < |ids| :: ids[b[x]]
  }

  /** The store and its label bitmaps as queries see them. */
  ghost function WorldOf<T(!new)>(s: SQLiteStore<T>, index: LabelIndex): World
    reads s, s.registry
  {
    World(s.outEdges, index, s.registry.uuidToIdx)
  }

  /** The bitmaps of several labels at once; a label nobody has ends it. */
  method LabelCandidates(index: LabelIndex, labels: seq<string>) returns (current: Bitmap)
    requires labels != []
    ensures current == AllOf(index, labels)
  {
    current := {};
    var first := true;
    for k := 0 to |labels|
      invariant first <==> k == 0
      invariant k > 0 ==> current == AllOf(index, labels[..k])
    {
      if labels[k] !in index {
        AllOfMissing(index, labels, k);
        return {};
      }
      assert labels[..k + 1][..k] == labels[..k];
      if first {
        current := index[labels[k]];
        first := false;
      } else {
        current := current * index[labels[k]];
      }
    }
    assert labels[..|labels|] == labels;
  }

  /** The unary constraints. */
  method NodeCandidates<T(!new)>(s: SQLiteStore<T>, index: LabelIndex, patterns: seq<NodePattern>)
    returns (c: Candidates)
    requires s.Valid()
    ensures c == Initial(WorldOf(s, index), patterns)
  {
    hide SQLiteStore.Valid;
    c := map[];
    for k := 0 to |patterns|
      invariant c == Initial(WorldOf(s, index), patterns[..k])
    {
      var p := patterns[k];
      var current: Bitmap := {};
      if p.idFilter.Some? {
        var idx := s.registry.Get(p.idFilter.value);
        if idx.Some? {
          current := {idx.value};
        }
      } else if |p.labelFilter| > 0 {
        current := LabelCandidates(index, p.labelFilter);
      } else {
        current := s.outEdges.Keys;
      }
      c := c[p.name := current];
      assert patterns[..k + 1][..k] == patterns[..k];
    }
    assert patterns[..|patterns|] == patterns;
  }

  /** The binary constraints, one edge pattern at a time. */
  method PruneCandidates(g: Links, c0: Candidates, edges: seq<EdgePattern>)
    returns (c: Candidates, bad: Option<EdgePattern>)
    ensures bad == None <==> KnownVars(c0, edges)
    ensures bad == None ==> c == PrunedBy(g, c0, edges)
    ensures bad.Some? ==> bad.value in edges && !(bad.value.source in c0 && bad.value.target in c0)
  {
    hide Pruned;
    c, bad := c0, None;
    for k := 0 to |edges|
      invariant KnownVars(c0, edges[..k]) && c == PrunedBy(g, c0, edges[..k])
    {
      var e := edges[k];
      if e.source !in c || e.target !in c {
        return c, Some(e);
      }
      assert edges[..k + 1] == edges[..k] + [e] && edges[..k + 1][..k] == edges[..k];
      c := PruneByEdge(g, c, e);
    }
    assert edges[..|edges|] == edges;
  }

  method PruneByEdge(g: Links, c: Candidates, e: EdgePattern) returns (r: Candidates)
    requires e.source in c && e.target in c
    ensures r == Pruned(g, c, e)
  {
    var srcBmp, tgtBmp := c[e.source], c[e.target];
    var nextSrc: Bitmap, nextTgt: Bitmap := {}, {};
    var rest := srcBmp;
    while rest != {}
      invariant rest <= srcBmp
      invariant forall u :: u in nextSrc <==> u in srcBmp && u !in rest && Neighbours(g, u) * tgtBmp != {}
      invariant forall v :: v in nextTgt <==> exists u :: u in srcBmp && u !in rest && v in Neighbours(g, u) * tgtBmp
      decreases |rest|
    {
      var u := Least(rest);
      rest := rest - {u};
      if u !in g {
        continue;
      }
      var common := g[u] * tgtBmp;
      if common != {} {
        nextSrc := nextSrc + {u};
        nextTgt := nextTgt + common;
      }
    }
    SourcesAndTargets(g, srcBmp, tgtBmp, nextSrc, nextTgt);
    r := c[e.source := nextSrc];
    r := r[e.target := nextTgt];
  }

  lemma SourcesAndTargets(g: Links, src: Bitmap, tgt: Bitmap, nextSrc: Bitmap, nextTgt: Bitmap)
    requires forall u :: u in nextSrc <==> u in src && Neighbours(g, u) * tgt != {}
    requires forall v :: v in nextTgt <==> exists u :: u in src && v in Neighbours(g, u) * tgt
    ensures nextSrc == Sources(g, src, tgt) && nextTgt == Targets(g, src, tgt)
  {
    forall v | v in nextTgt ensures v in Targets(g, src, tgt) {
      var u :| u in src && v in Neighbours(g, u) * tgt;
    }
    forall v | v in Targets(g, src, tgt) ensures v in nextTgt {
      var u :| u in src && v in Neighbours(g, u) && v in tgt;
      assert v in Neighbours(g, u) * tgt;
    }
  }

  /** The closure that binds variables in turn, with what it captures. */
  class Solver {
    const g: Links
    const edges: seq<EdgePattern>
    const candidates: Candidates
    const vars: seq<string>
    const ids: seq<Uuid>
    var binding: Binding
    var results: seq<Row>

    ghost predicate Ready() {
      && (forall x :: x in vars <==> x in candidates)
      && (forall i, j :: 0 <= i < j < |vars| ==> vars[i] != vars[j])
    }

    constructor (g: Links, edges: seq<EdgePattern>, candidates: Candidates, vars: seq<string>, ids: seq<Uuid>)
      ensures this.g == g && this.edges == edges && this.candidates == candidates && this.vars == vars
        && this.ids == ids
      ensures binding == map[] && results == []
    {
      this.g, this.edges, this.candidates, this.vars, this.ids := g, edges, candidates, vars, ids;
      binding, results := map[], [];
    }

    /** A full, consistent assignment. */
    ghost predicate Full(b: Binding) {
      Inside(candidates, b) && Consistent(g, edges, b)
    }

    /** The variables bound so far are the first n. */
    ghost predicate BoundTo(b: Binding, n: nat)
      requires n <= |vars|
    {
      && (forall x :: x in b <==> x in vars[..n])
      && (forall x :: x in b ==> x in candidates && b[x] in candidates[x])
      && Consistent(g, edges, b)
    }

    /** Whether val can be bound to a variable next to what is bound already. */
    method Fits(v: string, val: U32) returns (consistent: bool)
      requires v !in binding
      ensures consistent <==> Suits(g, edges, binding[v := val], v)
    {
      for k := 0 to |edges|
        invariant Suits(g, edges[..k], binding[v := val], v)
      {
        var e := edges[k];
        assert edges[..k + 1] == edges[..k] + [e];
        if e.source == v {
          if e.target in binding && (val !in g || binding[e.target] !in g[val]) {
            return false;
          }
        } else if e.target == v {
          if e.source in binding && (binding[e.source] !in g || val !in g[binding[e.source]]) {
            return false;
          }
        }
      }
      assert edges[..|edges|] == edges;
      return true;
    }

    /** The rows of new answers are appended, those that extend what is bound, each once. */
    ghost predicate Added(found: seq<Binding>, before: seq<Row>, after: seq<Row>, b: Binding) {
      && after == before + RowsFor(found, ids) && NoRepeats(found)
      && forall x :: x in found <==> Full(x) && Widens(x, b)
    }

    /**
     * `solve`: binds the variables from the idx-th on in every consistent way and leaves the binding as
     * it was.
     */
    method Solve(idx: nat) returns (ghost found: seq<Binding>)
      requires Ready() && idx <= |vars| && BoundTo(binding, idx)
      modifies this
      ensures binding == old(binding) && Added(found, old(results), results, binding)
      decreases |vars| - idx
    {
      hide Solver.Added, Solver.BoundTo, Solver.Full, Solver.Ready;
      if idx >= |vars| {
        OnlyItself(binding, results);
        results := results + [RowFor(binding, ids)];
        return [binding];
      }
      var vName := vars[idx];
      var rest := Candidate(vName);
      ghost var cand, base, before := rest, binding, results;
      found := [];
      NothingYet(base, idx, results);
      while rest != {}
        invariant rest <= cand && binding == base && PartlyAdded(found, before, results, base, vName, cand - rest)
        decreases |rest|
      {
        var val := Least(rest);
        NotBound(binding, idx);
        var consistent := Fits(vName, val);
        ghost var done, sofar, mid := cand - rest, found, results;
        if consistent {
          BindOne(base, idx, val);
          binding := binding[vName := val];
          ghost var more := Solve(idx + 1);
          binding := binding - {vName};
          assert binding == base;
          Gathered(sofar, more, before, mid, results, base, idx, val, done);
          found := sofar + more;
        } else {
          Refused(sofar, before, results, base, idx, val, done);
        }
        rest := rest - {val};
        assert cand - rest == done + {val};
      }
      assert cand - rest == cand;
      AllAdded(found, before, results, base, idx);
    }

    method Candidate(v: string) returns (c: Bitmap)
      requires Ready() && v in vars
      ensures v in candidates && c == candidates[v]
    {
      c := candidates[v];
    }

    /** What is appended once the variable has been tried with the values done. */
    ghost predicate PartlyAdded(found: seq<Binding>, before: seq<Row>, after: seq<Row>, b: Binding, v: string,
      done: Bitmap) {
      && after == before + RowsFor(found, ids) && NoRepeats(found)
      && forall x :: x in found <==> Full(x) && Widens(x, b) && v in x && x[v] in done
    }

    lemma NothingBound()
      ensures BoundTo(map[], 0)
    {
    }

    lemma OnlyItself(b: Binding, before: seq<Row>)
      requires Ready() && BoundTo(b, |vars|)
      ensures Added([b], before, before + [RowFor(b, ids)], b)
    {
      assert RowsFor([b], ids) == [RowFor(b, ids)];
      assert vars[..|vars|] == vars;
      assert b.Keys == candidates.Keys;
      forall x: Binding ensures x in [b] <==> Full(x) && Widens(x, b) {
        if Full(x) && Widens(x, b) { assert x.Keys == b.Keys; assert x == b; }
      }
    }

    lemma NothingYet(b: Binding, idx: nat, before: seq<Row>)
      requires idx < |vars|
      ensures PartlyAdded([], before, before, b, vars[idx], {})
    {
      assert RowsFor([], ids) == [];
    }

    lemma NotBound(b: Binding, idx: nat)
      requires Ready() && idx < |vars| && BoundTo(b, idx)
      ensures vars[idx] !in b
    {
    }

    lemma BindOne(b: Binding, idx: nat, val: U32)
      requires Ready() && idx < |vars| && BoundTo(b, idx) && vars[idx] in candidates && val in candidates[vars[idx]]
      requires Suits(g, edges, b[vars[idx] := val], vars[idx])
      ensures BoundTo(b[vars[idx] := val], idx + 1)
    {
      assert vars[..idx + 1] == vars[..idx] + [vars[idx]];
    }

    lemma Gathered(sofar: seq<Binding>, more: seq<Binding>, before: seq<Row>, mid: seq<Row>, after: seq<Row>,
      b: Binding, idx: nat, val: U32, done: Bitmap)
      requires idx < |vars| && vars[idx] !in b && val !in done
      requires PartlyAdded(sofar, before, mid, b, vars[idx], done)
      requires Added(more, mid, after, b[vars[idx] := val])
      ensures PartlyAdded(sofar + more, before, after, b, vars[idx], done + {val})
    {
      hide Solver.Full;
      var v, all := vars[idx], sofar + more;
      assert RowsFor(all, ids) == RowsFor(sofar, ids) + RowsFor(more, ids);
      forall x: Binding ensures x in more <==> Full(x) && Widens(x, b) && v in x && x[v] == val { }
      forall i, j | 0 <= i < j < |all| ensures all[i] != all[j] {
        if i < |sofar| <= j { assert all[i] in sofar && all[j] in more; }
      }
    }

    lemma Refused(sofar: seq<Binding>, before: seq<Row>, after: seq<Row>, b: Binding, idx: nat, val: U32, done: Bitmap)
      requires idx < |vars| && vars[idx] !in b && PartlyAdded(sofar, before, after, b, vars[idx], done)
      requires !Suits(g, edges, b[vars[idx] := val], vars[idx])
      ensures PartlyAdded(sofar, before, after, b, vars[idx], done + {val})
    {
      var v := vars[idx];
      forall x: Binding | Full(x) && Widens(x, b) && v in x ensures x[v] != val {
        SuitsNarrowed(x, b[v := val], v);
      }
    }

    lemma SuitsNarrowed(x: Binding, b: Binding, v: string)
      ensures Full(x) && Widens(x, b) ==> Suits(g, edges, b, v)
    {
      if Full(x) && Widens(x, b) {
        forall e | e in edges && e.source != e.target && e.source in b && e.target in b ensures Connects(g, b, e) {
          assert x[e.source] == b[e.source] && x[e.target] == b[e.target];
        }
      }
    }

    lemma AllAdded(found: seq<Binding>, before: seq<Row>, after: seq<Row>, b: Binding, idx: nat)
      requires Ready() && idx < |vars| && vars[idx] in candidates
      requires PartlyAdded(found, before, after, b, vars[idx], candidates[vars[idx]])
      ensures Added(found, before, after, b)
    {
    }
  }

  /** The edges between v and another bound variable hold. */
  ghost predicate Suits(g: Links, edges: seq<EdgePattern>, b: Binding, v: string) {
    forall e :: (e in edges && e.source != e.target && (e.source == v || e.target == v) && e.source in b
      && e.target in b)
      ==> Connects(g, b, e)
  }

  ghost predicate Widens(b: Binding, base: Binding) {
    forall x :: x in base ==> x in b && b[x] == base[x]
  }

  function RowsFor(bs: seq<Binding>, ids: seq<Uuid>): seq<Row> {
    seq(|bs|, k requires 0 <= k < |bs| => RowFor(bs[k], ids))
  }

  ghost predicate NoRepeats(bs: seq<Binding>) {
    forall i, j :: 0 <= i < j < |bs| ==> bs[i] != bs[j]
  }

  /**
   * `Execute`: one row for each answer, and each once, whatever order the variables come in. A pattern
   * with an unknown variable is an error.
   */
  method Execute<T(!new)>(s: SQLiteStore<T>, index: LabelIndex, q: Query)
    returns (r: ResultSet, ghost answers: seq<Binding>)
    requires s.Valid()
    ensures r.UnknownVars? <==> !Wellformed(q)
    ensures r.Bindings? ==> r.rows == RowsFor(answers, s.registry.idxToUUID) && NoRepeats(answers)
    ensures r.Bindings? ==> AnswersOf(WorldOf(s, index), q, answers)
    ensures r.Bindings? && SelfPinned(q) ==> JoinOf(WorldOf(s, index), q, answers)
  {
    hide SQLiteStore.Valid, Initial, PrunedBy, NoRepeats, AnswersOf, JoinOf, Wellformed, SelfPinned, KnownVars;
    ghost var w := WorldOf(s, index);
    var candidates := NodeCandidates(s, index, q.patterns);
    WellformedKnown(w, q);
    var pruned, bad := PruneCandidates(s.outEdges, candidates, q.edges);
    if bad.Some? {
      return UnknownVars(bad.value.source, bad.value.target), [];
    }
    var vars := AnyOrder(pruned);
    var solver := new Solver(s.outEdges, q.edges, pruned, vars, s.registry.idxToUUID);
    solver.NothingBound();
    answers := solver.Solve(0);
    Solved(solver, w, q, answers, solver.results);
    r := Bindings(solver.results);
  }

  /** The answers are the engine's. */
  ghost predicate AnswersOf(w: World, q: Query, bs: seq<Binding>)
    requires Wellformed(q)
  {
    WellformedKnown(w, q);
    forall b: Binding :: b in bs <==> Answer(w.links, Initial(w, q.patterns), q.edges, b)
  }

  /** The answers are the brute-force join. */
  ghost predicate JoinOf(w: World, q: Query, bs: seq<Binding>) {
    forall b: Binding :: b in bs <==> Joined(w.links, Initial(w, q.patterns), q.edges, b)
  }

  lemma Solved(solver: Solver, w: World, q: Query, bs: seq<Binding>, rows: seq<Row>)
    requires Wellformed(q) && KnownVars(Initial(w, q.patterns), q.edges)
    requires solver.g == w.links && solver.edges == q.edges
    requires solver.candidates == PrunedBy(w.links, Initial(w, q.patterns), q.edges)
    requires solver.Added(bs, [], rows, map[])
    ensures rows == RowsFor(bs, solver.ids) && NoRepeats(bs)
    ensures AnswersOf(w, q, bs)
    ensures SelfPinned(q) ==> JoinOf(w, q, bs)
  {
    hide Initial, PrunedBy, Inside, Consistent, Joined;
    if SelfPinned(q) { PinnedIsExact(w, q); }
  }

  /** The variables in whatever order the map gives them. */
  method AnyOrder(c: Candidates) returns (vars: seq<string>)
    ensures forall x :: x in vars <==> x in c
    ensures forall i, j :: 0 <= i < j < |vars| ==> vars[i] != vars[j]
  {
    vars := [];
    var rest := c.Keys;
    while rest != {}
      invariant rest <= c.Keys && forall x :: x in vars <==> x in c && x !in rest
      invariant forall i, j :: 0 <= i < j < |vars| ==> vars[i] != vars[j]
      decreases |rest|
    {
      var v :| v in rest;
      assert v !in vars;
      vars := vars + [v];
      rest := rest - {v};
    }
  }

  /** Different answers make different rows. */
  lemma RowsDiffer(a: Binding, b: Binding, ids: seq<Uuid>)
    requires Distinct(ids)
    requires forall x :: x in a ==> a[x] < |ids|
    requires forall x :: x in b ==> b[x] < |ids|
    ensures RowFor(a, ids) == RowFor(b, ids) <==> a == b
  {
    var p, q := RowFor(a, ids), RowFor(b, ids);
    if p == q {
      assert a.Keys == p.Keys == q.Keys == b.Keys;
      forall x | x in a ensures a[x] == b[x] {
        assert ids[a[x]] == p[x] == q[x] == ids[b[x]];
      }
    }
  }
}
