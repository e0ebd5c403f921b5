/** What a query asks for, what pruning keeps of it, and when the engine's answer is the right one. */
module Joins {
  import opened Transducer
  import opened Bitmaps
  import opened Indices

  /** A variable, with the identifier or the labels its vertex must have. */
  datatype NodePattern = NodePattern(name: string, idFilter: Option<Uuid>, labelFilter: seq<string>)

  datatype EdgePattern = EdgePattern(source: string, target: string)

  datatype Query = Query(patterns: seq<NodePattern>, edges: seq<EdgePattern>)

  type Candidates = map<string, Bitmap>

  type Binding = map<string, U32>

  /** What a query is asked of: adjacency, labels, and the indices of identifiers. */
  datatype World = World(links: Links, labels: LabelIndex, known: map<Uuid, U32>)

  function Labelled(index: LabelIndex, lbl: string): Bitmap {
    if lbl in index then index[lbl] else {}
  }

  /** Vertices with every label. */
  function AllOf(index: LabelIndex, labels: seq<string>): Bitmap
    requires labels != []
  {
    var n := |labels| - 1;
    if n == 0 then Labelled(index, labels[0]) else AllOf(index, labels[..n]) * Labelled(index, labels[n])
  }

  lemma {:induction false} AllOfMissing(index: LabelIndex, labels: seq<string>, k: nat)
    requires k < |labels| && labels[k] !in index
    ensures AllOf(index, labels) == {}
  {
    var n := |labels| - 1;
    if k < n {
      assert labels[..n][k] == labels[k];
      AllOfMissing(index, labels[..n], k);
    }
  }

  /** Vertices that fit a pattern; without any filter, those that have ever had an edge. */
  function Fitting(w: World, p: NodePattern): Bitmap {
    if p.idFilter.Some? then (if p.idFilter.value in w.known then {w.known[p.idFilter.value]} else {})
    else if p.labelFilter != [] then AllOf(w.labels, p.labelFilter)
    else w.links.Keys
  }

  /** The last pattern of a variable decides. */
  function Initial(w: World, patterns: seq<NodePattern>): Candidates {
    if patterns == [] then map[]
    else
      var n := |patterns| - 1;
      Initial(w, patterns[..n])[patterns[n].name := Fitting(w, patterns[n])]
  }

  /** With distinct variables every pattern decides its own. */
  lemma {:induction false} InitialEach(w: World, patterns: seq<NodePattern>, k: nat)
    requires k < |patterns| && forall i, j :: 0 <= i < j < |patterns| ==> patterns[i].name != patterns[j].name
    ensures patterns[k].name in Initial(w, patterns)
      && Initial(w, patterns)[patterns[k].name] == Fitting(w, patterns[k])
  {
    var n := |patterns| - 1;
    if k < n {
      assert patterns[..n][k] == patterns[k];
      InitialEach(w, patterns[..n], k);
    }
  }

  ghost predicate KnownVars(c: Candidates, edges: seq<EdgePattern>) {
    forall e :: e in edges ==> e.source in c && e.target in c
  }

  predicate Connects(g: Links, b: Binding, e: EdgePattern)
    requires e.source in b && e.target in b
  {
    b[e.target] in Neighbours(g, b[e.source])
  }

  /** An assignment within the candidate sets. */
  ghost predicate Inside(c: Candidates, b: Binding) {
    b.Keys == c.Keys && forall x :: x in b ==> b[x] in c[x]
  }

  /** The brute-force join: an assignment that fits every pattern, edges included. */
  ghost predicate Joined(g: Links, c: Candidates, edges: seq<EdgePattern>, b: Binding) {
    Inside(c, b) && forall e :: e in edges && e.source in b && e.target in b ==> Connects(g, b, e)
  }

  /** One edge pattern's pruning: sources with a target, targets with a source. */
  function Pruned(g: Links, c: Candidates, e: EdgePattern): Candidates
    requires e.source in c && e.target in c
  {
    var src, tgt := c[e.source], c[e.target];
    c[e.source := Sources(g, src, tgt)][e.target := Targets(g, src, tgt)]
  }

  function Sources(g: Links, src: Bitmap, tgt: Bitmap): Bitmap {
    set u | u in src && Neighbours(g, u) * tgt != {}
  }

  function Targets(g: Links, src: Bitmap, tgt: Bitmap): Bitmap {
    set u, v | u in src && v in Neighbours(g, u) && v in tgt :: v
  }

  function PrunedBy(g: Links, c: Candidates, edges: seq<EdgePattern>): (r: Candidates)
    requires KnownVars(c, edges)
    ensures r.Keys == c.Keys
  {
    if edges == [] then c
    else
      var n := |edges| - 1;
      assert forall e :: e in edges[..n] ==> e in edges;
      var r := PrunedBy(g, c, edges[..n]);
      assert edges[n] in edges;
      Pruned(g, r, edges[n])
  }

  /** Pruning by an edge an assignment satisfies keeps the assignment. */
  lemma PruneKeeps(g: Links, c: Candidates, e: EdgePattern, b: Binding)
    requires e.source in c && e.target in c && Inside(c, b) && Connects(g, b, e)
    ensures Inside(Pruned(g, c, e), b)
  {
    assert b[e.target] in Neighbours(g, b[e.source]) * c[e.target];
  }

  lemma PruneShrinks(g: Links, c: Candidates, e: EdgePattern, b: Binding)
    requires e.source in c && e.target in c && Inside(Pruned(g, c, e), b)
    ensures Inside(c, b)
  {
  }

  lemma {:induction false} AllPruningKeeps(g: Links, c: Candidates, edges: seq<EdgePattern>, b: Binding)
    requires KnownVars(c, edges) && Joined(g, c, edges, b)
    ensures Inside(PrunedBy(g, c, edges), b)
  {
    if edges != [] {
      var n := |edges| - 1;
      assert forall e :: e in edges[..n] ==> e in edges;
      AllPruningKeeps(g, c, edges[..n], b);
      assert edges[n] in edges;
      PruneKeeps(g, PrunedBy(g, c, edges[..n]), edges[n], b);
    }
  }

  lemma {:induction false} AllPruningShrinks(g: Links, c: Candidates, edges: seq<EdgePattern>, b: Binding)
    requires KnownVars(c, edges) && Inside(PrunedBy(g, c, edges), b)
    ensures Inside(c, b)
  {
    if edges != [] {
      var n := |edges| - 1;
      assert forall e :: e in edges[..n] ==> e in edges;
      PruneShrinks(g, PrunedBy(g, c, edges[..n]), edges[n], b);
      AllPruningShrinks(g, c, edges[..n], b);
    }
  }

  /** What backtracking tests: edges between two different variables, both bound. */
  ghost predicate Consistent(g: Links, edges: seq<EdgePattern>, b: Binding) {
    forall e :: e in edges && e.source != e.target && e.source in b && e.target in b ==> Connects(g, b, e)
  }

  /** An answer of the engine. */
  ghost predicate Answer(g: Links, c: Candidates, edges: seq<EdgePattern>, b: Binding)
    requires KnownVars(c, edges)
  {
    Inside(PrunedBy(g, c, edges), b) && Consistent(g, edges, b)
  }

  /** Without edges from a variable to itself the engine's answers are the join. */
  lemma AnswersAreJoin(g: Links, c: Candidates, edges: seq<EdgePattern>, b: Binding)
    requires KnownVars(c, edges) && forall e :: e in edges ==> e.source != e.target
    ensures Answer(g, c, edges, b) <==> Joined(g, c, edges, b)
  {
    if Joined(g, c, edges, b) { AllPruningKeeps(g, c, edges, b); }
    if Answer(g, c, edges, b) { AllPruningShrinks(g, c, edges, b); }
  }

  /** An edge from a variable to itself is answered rightly when the variable has one candidate at most. */
  lemma {:induction false} SelfEdgeTested(g: Links, c: Candidates, edges: seq<EdgePattern>, e: EdgePattern, b: Binding)
    requires KnownVars(c, edges) && e in edges && e.source == e.target
    requires forall u, v :: u in c[e.source] && v in c[e.source] ==> u == v
    requires Inside(PrunedBy(g, c, edges), b)
    ensures e.source in b && Connects(g, b, e)
  {
    var n := |edges| - 1;
    assert forall f :: f in edges[..n] ==> f in edges;
    assert edges[n] in edges;
    var r := PrunedBy(g, c, edges[..n]);
    if e == edges[n] {
      PrunedSubset(g, c, edges[..n]);
    } else {
      PruneShrinks(g, r, edges[n], b);
      assert e in edges[..n];
      SelfEdgeTested(g, c, edges[..n], e, b);
    }
  }

  lemma {:induction false} PrunedSubset(g: Links, c: Candidates, edges: seq<EdgePattern>)
    requires KnownVars(c, edges)
    ensures forall x :: x in c ==> PrunedBy(g, c, edges)[x] <= c[x]
  {
    if edges != [] {
      var n := |edges| - 1;
      assert forall f :: f in edges[..n] ==> f in edges;
      assert edges[n] in edges;
      PrunedSubset(g, c, edges[..n]);
    }
  }

  /** The pattern that decides a variable. */
  function Deciding(patterns: seq<NodePattern>, x: string): Option<NodePattern> {
    if patterns == [] then None
    else if patterns[|patterns| - 1].name == x then Some(patterns[|patterns| - 1])
    else Deciding(patterns[..|patterns| - 1], x)
  }

  lemma {:induction false} DecidingDecides(w: World, patterns: seq<NodePattern>, x: string)
    ensures x in Initial(w, patterns) <==> Deciding(patterns, x).Some?
    ensures x in Initial(w, patterns) ==> Deciding(patterns, x).value in patterns
    ensures x in Initial(w, patterns) ==> Initial(w, patterns)[x] == Fitting(w, Deciding(patterns, x).value)
  {
    if patterns != [] { DecidingDecides(w, patterns[..|patterns| - 1], x); }
  }

  /** Every variable of an edge has a pattern. */
  ghost predicate Wellformed(q: Query) {
    forall e :: e in q.edges ==> Deciding(q.patterns, e.source).Some? && Deciding(q.patterns, e.target).Some?
  }

  lemma WellformedKnown(w: World, q: Query)
    ensures Wellformed(q) <==> KnownVars(Initial(w, q.patterns), q.edges)
  {
    forall x ensures x in Initial(w, q.patterns) <==> Deciding(q.patterns, x).Some? {
      DecidingDecides(w, q.patterns, x);
    }
  }

  /** In this world the engine's answers are the join. */
  ghost predicate Exact(w: World, q: Query)
    requires Wellformed(q)
  {
    WellformedKnown(w, q);
    var c := Initial(w, q.patterns);
    forall b: Binding :: Answer(w.links, c, q.edges, b) <==> Joined(w.links, c, q.edges, b)
  }

  /** A variable with an edge to itself is given by its identifier. */
  ghost predicate SelfPinned(q: Query) {
    forall e :: e in q.edges && e.source == e.target && Deciding(q.patterns, e.source).Some? ==>
      Deciding(q.patterns, e.source).value.idFilter.Some?
  }

  lemma PinnedIsExact(w: World, q: Query)
    requires Wellformed(q) && SelfPinned(q)
    ensures Exact(w, q)
  {
    WellformedKnown(w, q);
    var c := Initial(w, q.patterns);
    forall b: Binding ensures Answer(w.links, c, q.edges, b) <==> Joined(w.links, c, q.edges, b) {
      if Joined(w.links, c, q.edges, b) { AllPruningKeeps(w.links, c, q.edges, b); }
      if Answer(w.links, c, q.edges, b) {
        AllPruningShrinks(w.links, c, q.edges, b);
        forall e | e in q.edges && e.source in b && e.target in b ensures Connects(w.links, b, e) {
          if e.source == e.target {
            DecidingDecides(w, q.patterns, e.source);
            SelfEdgeTested(w.links, c, q.edges, e, b);
          }
        }
      }
    }
  }
}
