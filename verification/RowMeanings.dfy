/** The rows of a query said of identifiers and tables. */
module RowMeanings {
  import opened Transducer
  import opened Bitmaps
  import opened Indices
  import opened GraphTables
  import opened GraphStore
  import opened Joins
  import opened Traps
  import opened QueryEngine
  import opened QueryRows
  import StoredWorlds

  /** No later pattern has the same variable. */
  predicate LastOf(patterns: seq<NodePattern>, k: nat)
    requires k < |patterns|
  {
    forall j :: k < j < |patterns| ==> patterns[j].name != patterns[k].name
  }

  /** A registered vertex as the pattern asks: the one it names, one with all its labels, one in the adjacency. */
  predicate Suitable(w: World, p: NodePattern, id: Uuid) {
    && id in w.known
    && if p.idFilter.Some? then id == p.idFilter.value
       else if p.labelFilter != [] then forall l :: l in p.labelFilter ==> l in w.labels && w.known[id] in w.labels[l]
       else w.known[id] in w.links
  }

  /** A vertex for each variable, as its last pattern asks. */
  ghost predicate MeetsPatterns(w: World, patterns: seq<NodePattern>, row: Row) {
    && (forall x :: x in row ==> exists k :: 0 <= k < |patterns| && patterns[k].name == x)
    && forall k :: 0 <= k < |patterns| ==>
      patterns[k].name in row && (LastOf(patterns, k) ==> Suitable(w, patterns[k], row[patterns[k].name]))
  }

  /** The table has a row for the edge asked for. */
  ghost predicate MeetsEdge(table: EdgeTable, e: EdgePattern, row: Row) {
    e.source in row && e.target in row && Canonical(row[e.source], row[e.target]) in table
  }

  /** Identifiers and indices name each other. */
  ghost predicate Named(known: map<Uuid, U32>, ids: seq<Uuid>) {
    && (forall id :: id in known ==> known[id] < |ids| && ids[known[id]] == id)
    && (forall i: U32 :: i < |ids| ==> ids[i] in known && known[ids[i]] == i)
  }

  /** The assignment of indices behind a row. */
  function Numbers(known: map<Uuid, U32>, row: Row): Binding {
    map x | x in row && row[x] in known :: known[row[x]]
  }

  lemma RowNames(known: map<Uuid, U32>, ids: seq<Uuid>, b: Binding)
    requires Named(known, ids) && forall x :: x in b ==> b[x] < |ids|
    ensures RowFor(b, ids).Keys == b.Keys
    ensures forall x :: x in b ==> RowFor(b, ids)[x] in known && known[RowFor(b, ids)[x]] == b[x]
    ensures Numbers(known, RowFor(b, ids)) == b
  {
  }

  lemma NumbersRow(known: map<Uuid, U32>, ids: seq<Uuid>, row: Row)
    requires Named(known, ids) && forall x :: x in row ==> row[x] in known
    ensures Numbers(known, row).Keys == row.Keys && RowFor(Numbers(known, row), ids) == row
  {
    var b := Numbers(known, row);
    assert RowFor(b, ids).Keys == row.Keys;
  }

  lemma {:induction false} AllOfEach(index: LabelIndex, labels: seq<string>, v: U32)
    requires labels != []
    ensures v in AllOf(index, labels) <==> forall l :: l in labels ==> l in index && v in index[l]
  {
    var n := |labels| - 1;
    if n > 0 { AllOfEach(index, labels[..n], v); }
    FrontOrLast(labels);
  }

  lemma FrontOrLast(labels: seq<string>)
    requires labels != []
    ensures forall l :: l in labels <==> l in labels[..|labels| - 1] || l == labels[|labels| - 1]
  {
  }

  lemma SuitableFits(w: World, p: NodePattern, id: Uuid)
    requires Injective(w.known) && id in w.known
    ensures w.known[id] in Fitting(w, p) <==> Suitable(w, p, id)
  {
    if p.idFilter == None && p.labelFilter != [] { AllOfEach(w.labels, p.labelFilter, w.known[id]); }
  }

  lemma {:induction false} InitialByLast(w: World, patterns: seq<NodePattern>, k: nat)
    requires k < |patterns|
    ensures patterns[k].name in Initial(w, patterns)
    ensures LastOf(patterns, k) ==> Initial(w, patterns)[patterns[k].name] == Fitting(w, patterns[k])
  {
    var n := |patterns| - 1;
    if k < n {
      assert patterns[..n][k] == patterns[k];
      InitialByLast(w, patterns[..n], k);
    }
  }

  /** Every variable has a last pattern. */
  lemma {:induction false} HasLast(w: World, patterns: seq<NodePattern>, x: string) returns (k: nat)
    requires x in Initial(w, patterns)
    ensures k < |patterns| && patterns[k].name == x && LastOf(patterns, k)
  {
    var n := |patterns| - 1;
    if patterns[n].name == x {
      k := n;
    } else {
      k := HasLast(w, patterns[..n], x);
    }
  }

  /** Assignments within the candidate sets are the rows that meet the patterns. */
  lemma InsideMeets(w: World, patterns: seq<NodePattern>, row: Row)
    requires Injective(w.known) && forall x :: x in row ==> row[x] in w.known
    ensures Inside(Initial(w, patterns), Numbers(w.known, row)) <==> MeetsPatterns(w, patterns, row)
  {
    hide Initial, Fitting, Suitable, LastOf;
    var c, b := Initial(w, patterns), Numbers(w.known, row);
    assert b.Keys == row.Keys;
    forall k: nat | k < |patterns|
      ensures patterns[k].name in c
      ensures LastOf(patterns, k) ==> c[patterns[k].name] == Fitting(w, patterns[k])
    {
      InitialByLast(w, patterns, k);
    }
    forall p: NodePattern, id | id in w.known ensures w.known[id] in Fitting(w, p) <==> Suitable(w, p, id) {
      SuitableFits(w, p, id);
    }
    forall x | x in c ensures exists k :: 0 <= k < |patterns| && patterns[k].name == x && LastOf(patterns, k) {
      var k := HasLast(w, patterns, x);
    }
  }

  /** A hop between the indices is a row of the table. */
  lemma ConnectsMeets(w: World, ids: seq<Uuid>, table: EdgeTable, row: Row, e: EdgePattern)
    requires Named(w.known, ids) && AdjacencyOk(table, ids, w.links) && forall x :: x in row ==> row[x] in w.known
    requires e.source in row && e.target in row
    ensures Connects(w.links, Numbers(w.known, row), e) <==> MeetsEdge(table, e, row)
  {
    hide Canonical;
    var u, v := w.known[row[e.source]], w.known[row[e.target]];
    assert v in Neighbours(w.links, u) <==> Linked(table, ids, u, v);
  }

  /** A row for the patterns and for the edges between different variables. */
  ghost predicate Matches(w: World, table: EdgeTable, q: Query, row: Row) {
    MeetsPatterns(w, q.patterns, row) && forall e :: e in q.edges && e.source != e.target ==> MeetsEdge(table, e, row)
  }

  /** A row for the patterns and all edges. */
  ghost predicate MatchesAll(w: World, table: EdgeTable, q: Query, row: Row) {
    MeetsPatterns(w, q.patterns, row) && forall e :: e in q.edges ==> MeetsEdge(table, e, row)
  }

  predicate HasPattern(patterns: seq<NodePattern>, x: string) {
    exists k :: 0 <= k < |patterns| && patterns[k].name == x
  }

  lemma {:induction false} DecidingHas(patterns: seq<NodePattern>, x: string)
    ensures Deciding(patterns, x).Some? <==> HasPattern(patterns, x)
  {
    if patterns != [] {
      var n := |patterns| - 1;
      DecidingHas(patterns[..n], x);
      if k :| 0 <= k < n && patterns[k].name == x { assert patterns[..n][k].name == x; }
    }
  }

  /** The edges of a row that meets the patterns all have their ends. */
  lemma EdgeEnds(w: World, q: Query, row: Row, e: EdgePattern)
    requires Wellformed(q) && MeetsPatterns(w, q.patterns, row) && e in q.edges
    ensures e.source in row && e.target in row
  {
    DecidingHas(q.patterns, e.source);
    DecidingHas(q.patterns, e.target);
  }

  /** The assignment behind a row is an answer only for a row that matches, and if it matches in full. */
  lemma AnswerMatches(w: World, ids: seq<Uuid>, table: EdgeTable, q: Query, row: Row)
    requires Named(w.known, ids) && AdjacencyOk(table, ids, w.links) && Injective(w.known) && Wellformed(q)
    requires KnownVars(Initial(w, q.patterns), q.edges) && forall x :: x in row ==> row[x] in w.known
    ensures var c, b := Initial(w, q.patterns), Numbers(w.known, row);
      && (Answer(w.links, c, q.edges, b) ==> Matches(w, table, q, row))
      && (MatchesAll(w, table, q, row) ==> Answer(w.links, c, q.edges, b))
      && (Answer(w.links, c, q.edges, b) && Joined(w.links, c, q.edges, b) ==> MatchesAll(w, table, q, row))
  {
    hide Initial, PrunedBy, Inside, MeetsPatterns, MeetsEdge, Named, AdjacencyOk, Injective, Connects, Wellformed;
    var c, b := Initial(w, q.patterns), Numbers(w.known, row);
    InsideMeets(w, q.patterns, row);
    if Answer(w.links, c, q.edges, b) { AllPruningShrinks(w.links, c, q.edges, b); }
    if MeetsPatterns(w, q.patterns, row) {
      forall e | e in q.edges
        ensures e.source in row && e.target in row && e.source in b && e.target in b
        ensures Connects(w.links, b, e) <==> MeetsEdge(table, e, row)
      {
        EdgeEnds(w, q, row, e);
        ConnectsMeets(w, ids, table, row, e);
      }
      if MatchesAll(w, table, q, row) { AllPruningKeeps(w.links, c, q.edges, b); }
    }
  }

  lemma RowsMatch(w: World, ids: seq<Uuid>, table: EdgeTable, q: Query, bs: seq<Binding>)
    requires Possible(w) && Named(w.known, ids) && |w.known| == |ids| && AdjacencyOk(table, ids, w.links)
    requires Wellformed(q) && AnswersOf(w, q, bs)
    ensures var rows := RowsFor(bs, ids);
      && (forall row :: row in rows ==> Matches(w, table, q, row))
      && (forall row :: MatchesAll(w, table, q, row) ==> row in rows)
      && (SelfPinned(q) ==> forall row :: row in rows ==> MatchesAll(w, table, q, row))
  {
    hide Initial, Answer, Matches, MatchesAll, Named, AdjacencyOk, Joined, Wellformed, SelfPinned;
    WellformedKnown(w, q);
    var c, rows := Initial(w, q.patterns), RowsFor(bs, ids);
    forall row | row in rows
      ensures Matches(w, table, q, row) && (SelfPinned(q) ==> MatchesAll(w, table, q, row))
    {
      var k :| 0 <= k < |rows| && rows[k] == row;
      assert bs[k] in bs;
      AnswerBelow(w, q, bs[k]);
      RowNames(w.known, ids, bs[k]);
      AnswerMatches(w, ids, table, q, row);
      if SelfPinned(q) { PinnedIsExact(w, q); }
    }
    forall row | MatchesAll(w, table, q, row) ensures row in rows {
      MatchesKnown(w, table, q, row);
      AnswerMatches(w, ids, table, q, row);
      NumbersRow(w.known, ids, row);
      var b := Numbers(w.known, row);
      var k :| 0 <= k < |bs| && bs[k] == b;
      assert rows[k] == row;
    }
  }

  lemma MatchesKnown(w: World, table: EdgeTable, q: Query, row: Row)
    requires MatchesAll(w, table, q, row)
    ensures forall x :: x in row ==> row[x] in w.known
  {
    forall x | x in row ensures row[x] in w.known {
      var i :| 0 <= i < |q.patterns| && q.patterns[i].name == x;
      InitialByLast(w, q.patterns, i);
      var k := HasLast(w, q.patterns, x);
    }
  }

  /**
   * `Execute` said of identifiers and tables: each row gives every variable a vertex as its last pattern
   * asks, with rows of the edge table between different variables; each assignment that meets all the
   * patterns and edges is a row; and no two rows are the same.
   */
  method Ask<T(!new)>(s: SQLiteStore<T>, index: LabelIndex, q: Query) returns (r: ResultSet)
    requires s.Valid()
    requires forall l :: l in index ==> forall u :: u in index[l] ==> u < |s.registry.idxToUUID|
    ensures r.UnknownVars? <==>
      exists e :: e in q.edges && !(HasPattern(q.patterns, e.source) && HasPattern(q.patterns, e.target))
    ensures r.Bindings? ==> forall row :: row in r.rows ==> Matches(WorldOf(s, index), s.edgeRows, q, row)
    ensures r.Bindings? ==> forall row :: MatchesAll(WorldOf(s, index), s.edgeRows, q, row) ==> row in r.rows
    ensures r.Bindings? && SelfPinned(q) ==>
      forall row :: row in r.rows ==> MatchesAll(WorldOf(s, index), s.edgeRows, q, row)
    ensures r.Bindings? ==> forall i, j :: 0 <= i < j < |r.rows| ==> r.rows[i] != r.rows[j]
  {
    hide SQLiteStore.Valid, Matches, MatchesAll, Possible, AnswersOf, SelfPinned, JoinOf;
    ghost var answers;
    r, answers := Execute(s, index, q);
    forall e | e in q.edges
      ensures Deciding(q.patterns, e.source).Some? <==> HasPattern(q.patterns, e.source)
      ensures Deciding(q.patterns, e.target).Some? <==> HasPattern(q.patterns, e.target)
    {
      DecidingHas(q.patterns, e.source);
      DecidingHas(q.patterns, e.target);
    }
    if r.Bindings? {
      StoredWorlds.StoreWorldPossible(s, index);
      StoreNamed(s, index);
      RowsMatch(WorldOf(s, index), s.registry.idxToUUID, s.edgeRows, q, answers);
      ExecutedRowsDiffer(s, index, q, answers);
    }
  }

  lemma StoreNamed<T(!new)>(s: SQLiteStore<T>, index: LabelIndex)
    requires s.Valid()
    ensures var w := WorldOf(s, index);
      && Named(w.known, s.registry.idxToUUID) && |w.known| == |s.registry.idxToUUID|
      && AdjacencyOk(s.edgeRows, s.registry.idxToUUID, w.links)
  {
    hide SQLiteStore.VerticesWarm, SlabOk, AdjacencyOk;
    s.registry.AsManyIndices();
  }
}
