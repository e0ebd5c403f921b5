/** The rows of a query on a store: all different, and none for vertices that never had an edge. */
module QueryRows {
  import opened Transducer
  import opened Bitmaps
  import opened Indices
  import opened GraphTables
  import opened GraphStore
  import opened Joins
  import opened QueryEngine
  import StoredWorlds
  import opened Traps

  lemma {:induction false} AllOfBelow(index: LabelIndex, labels: seq<string>, n: nat)
    requires labels != [] && forall l :: l in index ==> forall u :: u in index[l] ==> u < n
    ensures forall v :: v in AllOf(index, labels) ==> v < n
  {
    if |labels| > 1 { AllOfBelow(index, labels[..|labels| - 1], n); }
  }

  /** In a possible world only vertices with identifiers are candidates. */
  lemma CandidatesBelow(w: World, patterns: seq<NodePattern>, x: string)
    requires Possible(w) && x in Initial(w, patterns)
    ensures forall v :: v in Initial(w, patterns)[x] ==> v < |w.known|
  {
    hide AllOf, Initial;
    DecidingDecides(w, patterns, x);
    var p := Deciding(patterns, x).value;
    if p.idFilter == None && p.labelFilter != [] { AllOfBelow(w.labels, p.labelFilter, |w.known|); }
  }

  lemma AnswerBelow(w: World, q: Query, b: Binding)
    requires Possible(w) && Wellformed(q) && KnownVars(Initial(w, q.patterns), q.edges)
    requires Answer(w.links, Initial(w, q.patterns), q.edges, b)
    ensures forall x :: x in b ==> b[x] < |w.known|
  {
    hide Initial, PrunedBy, Consistent, Possible;
    AllPruningShrinks(w.links, Initial(w, q.patterns), q.edges, b);
    forall x | x in b ensures b[x] < |w.known| { CandidatesBelow(w, q.patterns, x); }
  }

  /** The rows of different answers differ, when labels are on registered vertices. */
  lemma ExecutedRowsDiffer<T(!new)>(s: SQLiteStore<T>, index: LabelIndex, q: Query, bs: seq<Binding>)
    requires s.Valid() && Wellformed(q) && AnswersOf(WorldOf(s, index), q, bs) && NoRepeats(bs)
    requires forall l :: l in index ==> forall u :: u in index[l] ==> u < |s.registry.idxToUUID|
    ensures var rows := RowsFor(bs, s.registry.idxToUUID);
      |rows| == |bs| && forall i, j :: 0 <= i < j < |rows| ==> rows[i] != rows[j]
  {
    hide SQLiteStore.Valid, Initial, Answer, Possible;
    var w := WorldOf(s, index);
    StoredWorlds.StoreWorldPossible(s, index);
    WellformedKnown(w, q);
    Registered(s);
    var rows := RowsFor(bs, s.registry.idxToUUID);
    forall i, j | 0 <= i < j < |rows| ensures rows[i] != rows[j] {
      assert bs[i] in bs && bs[j] in bs;
      AnswerBelow(w, q, bs[i]);
      AnswerBelow(w, q, bs[j]);
      RowsDiffer(bs[i], bs[j], s.registry.idxToUUID);
    }
  }

  lemma Registered<T(!new)>(s: SQLiteStore<T>)
    requires s.Valid()
    ensures |s.registry.uuidToIdx| == |s.registry.idxToUUID| && Distinct(s.registry.idxToUUID)
  {
    hide SQLiteStore.VerticesWarm, SlabOk, AdjacencyOk;
    s.registry.AsManyIndices();
    s.DistinctIds();
  }

  function AnyVertex(): Query {
    Query([NodePattern("x", None, [])], [])
  }

  lemma NothingLinkedNoAnswer(w: World, bs: seq<Binding>)
    requires w.links == map[] && Wellformed(AnyVertex()) && AnswersOf(w, AnyVertex(), bs)
    ensures bs == []
  {
    if bs != [] {
      WellformedKnown(w, AnyVertex());
      assert bs[0] in bs;
      assert Answer(w.links, Initial(w, AnyVertex().patterns), [], bs[0]);
      DecidingDecides(w, AnyVertex().patterns, "x");
    }
  }

  lemma AnyVertexWellformed(w: World)
    ensures Wellformed(AnyVertex()) && KnownVars(Initial(w, AnyVertex().patterns), [])
  {
  }

  /** A vertex alone is no answer to a query for any: candidates without a filter are those with a neighbour set. */
  method LonelyVertex(id: Uuid) returns (s: SQLiteStore<int>, r: ResultSet)
    ensures s.Valid() && id in s.vertexRows && r == Bindings([])
  {
    hide SQLiteStore.Tables, SQLiteStore.EdgesWarm, Answer, Wellformed, AnswersOf, AnyVertex, Initial;
    var registry := new IndexRegistry([]);
    s := new SQLiteStore<int>(registry, map[], map[]);
    var e := s.AddVertex(id, 0, 0, map[]);
    AnyVertexWellformed(WorldOf(s, map[]));
    ghost var answers;
    r, answers := Execute(s, map[], AnyVertex());
    NothingLinkedNoAnswer(WorldOf(s, map[]), answers);
  }
}
