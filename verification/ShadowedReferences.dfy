/**
Several records for one namespace: the last one with references replaces the edges of the others, so
references can be missing from the graph that ComputeBlockedImports breaks. Exactly when the promise that no
import cycle is left holds all the same.
*/
module ShadowedReferences {
  import opened Options
  import opened Names
  import opened Metadata
  import opened ImportGraph
  import opened CycleBreaking
  import opened ExtraEdges
  import opened ImportBlocking

  /** Record `i` belongs to namespace `a` and refers to `b`. */
  ghost predicate RefersFrom(records: seq<NamespaceMeta>, i: int, a: Name, b: Name) {
    0 <= i < |records| && records[i].namespace == a && Refers(records[i], b)
  }

  /** Which namespace refers to which, in any record. */
  ghost function References(records: seq<NamespaceMeta>): set<Arc> {
    set i, b | 0 <= i < |records| && b in Mentions(records[i]) :: Arc(records[i].namespace, b)
  }

  lemma {:induction false} ReferencesIff(records: seq<NamespaceMeta>, a: Name, b: Name)
    ensures Arc(a, b) in References(records) <==> exists i :: RefersFrom(records, i, a, b)
  {
    if Arc(a, b) in References(records) {
      var i :| 0 <= i < |records| && b in Mentions(records[i]) && records[i].namespace == a;
      MentionsAgree(records[i], b);
      assert RefersFrom(records, i, a, b);
    }
    forall i | RefersFrom(records, i, a, b) ensures Arc(a, b) in References(records) {
      MentionsAgree(records[i], b);
    }
  }

  /** References that are no edge of the graph: a later record of the namespace has replaced them. */
  ghost function Shadowed(records: seq<NamespaceMeta>): set<Arc> {
    References(records) - Arcs(GraphOf(records))
  }

  lemma {:induction false} EdgesAreReferences(records: seq<NamespaceMeta>)
    ensures Arcs(GraphOf(records)) <= References(records)
  {
    forall a, b | Edge(GraphOf(records), a, b) ensures Arc(a, b) in References(records) {
      EdgeIff(records, a, b);
      var i: nat :| ShowsReference(records, i, a, b);
      assert RefersFrom(records, i, a, b);
      ReferencesIff(records, a, b);
    }
  }

  // ---- the promise --------------------------------------------------------

  /** Under `rank` every reference of every record, at any depth, is blocked or strictly descends. */
  ghost predicate Orders(records: seq<NamespaceMeta>, rank: map<Name, nat>) {
    forall i, a, b :: RefersFrom(records, i, a, b) ==> Arc(a, b) in Blocked(records) || Below(rank, a, b)
  }

  /** No import cycle is left. */
  ghost predicate Ordered(records: seq<NamespaceMeta>) {
    exists rank :: Orders(records, rank)
  }

  lemma {:induction false} OrdersIff(records: seq<NamespaceMeta>, rank: map<Name, nat>)
    ensures Orders(records, rank) <==> OrdersArcs(References(records), Blocked(records), rank)
  {
    forall a, b ensures Arc(a, b) in References(records) <==> exists i :: RefersFrom(records, i, a, b) {
      ReferencesIff(records, a, b);
    }
  }

  lemma {:induction false} OrderedIffArcs(records: seq<NamespaceMeta>)
    ensures Ordered(records) <==> CanOrder(References(records), Blocked(records))
  {
    if Ordered(records) {
      var rank :| Orders(records, rank);
      OrdersIff(records, rank);
    }
    forall rank | OrdersArcs(References(records), Blocked(records), rank) ensures Ordered(records) {
      OrdersIff(records, rank);
    }
  }

  lemma {:induction false} OrderedIsAcyclic(records: seq<NamespaceMeta>)
    ensures Ordered(records) <==> Acyclic(Union(BreakCycles(GraphOf(records)).rest, Shadowed(records)))
  {
    var g, arcs := GraphOf(records), References(records);
    EdgesAreReferences(records);
    OrderedIffAcyclic(g, arcs);
    OrderedIffArcs(records);
    assert Shadowed(records) == arcs - Arcs(g);
  }

  // ---- when it holds ------------------------------------------------------

  /** No cycle of references goes through a shadowed one. */
  ghost predicate ShadowsOffCycles(records: seq<NamespaceMeta>) {
    ExtrasOffCycles(GraphOf(records), Shadowed(records))
  }

  /** The graph of that condition has all references of all records for edges. */
  lemma {:induction false} AllReferencesEdge(records: seq<NamespaceMeta>, a: Name, b: Name)
    ensures Edge(Union(GraphOf(records), Shadowed(records)), a, b) <==> exists i :: RefersFrom(records, i, a, b)
  {
    UnionEdge(GraphOf(records), Shadowed(records), a, b);
    EdgesAreReferences(records);
    ReferencesIff(records, a, b);
    assert Edge(GraphOf(records), a, b) <==> Arc(a, b) in Arcs(GraphOf(records));
  }

  /** Under that condition there is a ranking under which every unblocked reference descends. */
  lemma {:induction false} AllReferencesDescend(records: seq<NamespaceMeta>)
    requires ShadowsOffCycles(records)
    ensures Ordered(records)
  {
    StaysAcyclic(GraphOf(records), Shadowed(records));
    OrderedIsAcyclic(records);
  }

  /** The same namespaces refer to the same namespaces, record by record; how often does not matter. */
  ghost predicate SameReferences(records: seq<NamespaceMeta>, others: seq<NamespaceMeta>) {
    && |others| == |records|
    && forall i :: 0 <= i < |records| ==> SameSources(records[i], others[i])
  }

  ghost predicate SameSources(r: NamespaceMeta, s: NamespaceMeta) {
    s.namespace == r.namespace && forall b :: Refers(s, b) <==> Refers(r, b)
  }

  lemma {:induction false} SameMentions(r: NamespaceMeta, s: NamespaceMeta)
    requires SameSources(r, s)
    ensures forall b :: b in Mentions(s) <==> b in Mentions(r)
  {
    forall b ensures b in Mentions(s) <==> b in Mentions(r) {
      MentionsAgree(r, b);
      MentionsAgree(s, b);
    }
  }

  lemma {:induction false} SameGraphRows(rows: seq<Row>, others: seq<Row>, n: nat)
    requires n <= |rows| == |others|
    requires forall i :: 0 <= i < n ==> others[i].namespace == rows[i].namespace && forall b :: b in others[i].mentions <==> b in rows[i].mentions
    ensures SameEdges(BuildGraph(rows, n), BuildGraph(others, n))
    decreases n
  {
    if n > 0 {
      SameGraphRows(rows, others, n - 1);
      SameEdgesNext(BuildGraph(rows, n - 1), BuildGraph(others, n - 1), rows[n - 1], others[n - 1]);
    }
  }

  lemma {:induction false} SameEdgesNext(g: Graph, h: Graph, r: Row, s: Row)
    requires SameEdges(g, h) && s.namespace == r.namespace && forall b :: b in s.mentions <==> b in r.mentions
    ensures SameEdges(AddRow(g, r), AddRow(h, s))
  {
    AddRowEdges(g, r);
    AddRowEdges(h, s);
    if r.mentions != multiset{} {
      var b :| b in r.mentions;
    }
    if s.mentions != multiset{} {
      var b :| b in s.mentions;
    }
  }

  lemma {:induction false} AddRowEdges(g: Graph, r: Row)
    ensures forall a, b :: Edge(AddRow(g, r), a, b) <==>
      if a == r.namespace && r.mentions != multiset{} then b in r.mentions else Edge(g, a, b)
  {}

  lemma {:induction false} SameGraph(records: seq<NamespaceMeta>, others: seq<NamespaceMeta>)
    requires SameReferences(records, others)
    ensures SameEdges(GraphOf(records), GraphOf(others))
    ensures Shadowed(records) == Shadowed(others)
  {
    var rows, theirs := Rows(records), Rows(others);
    forall i | 0 <= i < |rows|
      ensures theirs[i].namespace == rows[i].namespace && forall b :: b in theirs[i].mentions <==> b in rows[i].mentions
    {
      SameMentions(records[i], others[i]);
    }
    SameGraphRows(rows, theirs, |records|);
    forall e ensures e in Arcs(GraphOf(records)) <==> e in Arcs(GraphOf(others)) {
      assert Edge(GraphOf(records), e.src, e.dst) <==> Edge(GraphOf(others), e.src, e.dst);
    }
    forall e ensures e in References(records) <==> e in References(others) {
      SameArcs(records, others, e);
    }
  }

  lemma {:induction false} SameArcs(records: seq<NamespaceMeta>, others: seq<NamespaceMeta>, e: Arc)
    requires SameReferences(records, others)
    ensures e in References(records) <==> e in References(others)
  {
    forall i, b | 0 <= i < |records| ensures b in Mentions(others[i]) <==> b in Mentions(records[i]) {
      SameMentions(records[i], others[i]);
    }
    forall i | 0 <= i < |records| ensures others[i].namespace == records[i].namespace {
      assert SameSources(records[i], others[i]);
    }
  }

  // ---- metadata with given counts -----------------------------------------

  function RefTo(a: Name): TypeRef {
    TypeRef("ApiRef", "T", a, None)
  }

  /** Constants whose types make exactly these mentions. */
  ghost function ConstantsFor(m: multiset<Name>): seq<TypeRef>
    decreases |m|
  {
    if m == multiset{} then [] else
      var a :| a in m;
      ConstantsFor(m - multiset{a}) + [RefTo(a)]
  }

  lemma {:induction false} RefMentionsOnly(self: Name, refs: seq<TypeRef>, a: Name)
    requires a != self && a != ""
    ensures Total(RefList(self, refs + [RefTo(a)])) == Total(RefList(self, refs)) + multiset{a}
  {
    var list := RefList(self, refs + [RefTo(a)]);
    assert RefMentions(self, RefTo(a)) == multiset{a};
    assert list[..|refs|] == RefList(self, refs);
  }

  lemma {:induction false} ConstantsMention(self: Name, m: multiset<Name>)
    requires self !in m && "" !in m
    ensures Total(RefList(self, ConstantsFor(m))) == m
    decreases |m|
  {
    if m != multiset{} {
      var a :| a in m && ConstantsFor(m) == ConstantsFor(m - multiset{a}) + [RefTo(a)];
      ConstantsMention(self, m - multiset{a});
      RefMentionsOnly(self, ConstantsFor(m - multiset{a}), a);
    }
  }

  /** A record with nothing but these mentions. */
  ghost function Mentioning(n: Name, m: multiset<Name>): NamespaceMeta {
    NamespaceMeta(n, [], map[], map[], map[], ConstantsFor(m), map[])
  }

  lemma {:induction false} MentioningMentions(n: Name, m: multiset<Name>)
    requires n !in m && "" !in m
    ensures Mentions(Mentioning(n, m)) == m
  {
    ConstantsMention(n, m);
  }

  /** Each mention once, and once more if it lies on the cycle `c`. */
  ghost function Doubled(n: Name, m: multiset<Name>, c: seq<Name>): (r: multiset<Name>)
    ensures forall b :: r[b] == if b !in m then 0 else if OnCycle(c, Arc(n, b)) then 2 else 1
  {
    multiset(set b | b in m) + multiset(set b | b in m && OnCycle(c, Arc(n, b)))
  }

  /** The same references, counted so that the loop prefers to sever anything but `c`. */
  ghost function Recounted(records: seq<NamespaceMeta>, c: seq<Name>): (others: seq<NamespaceMeta>)
    ensures |others| == |records|
    ensures forall i :: 0 <= i < |others| ==>
      others[i] == Mentioning(records[i].namespace, Doubled(records[i].namespace, Mentions(records[i]), c))
  {
    seq(|records|, i requires 0 <= i < |records| =>
      Mentioning(records[i].namespace, Doubled(records[i].namespace, Mentions(records[i]), c)))
  }

  lemma {:induction false} RecountedOne(r: NamespaceMeta, s: NamespaceMeta, c: seq<Name>)
    requires s == Mentioning(r.namespace, Doubled(r.namespace, Mentions(r), c))
    ensures SameSources(r, s)
    ensures Mentions(s) == Doubled(r.namespace, Mentions(r), c)
  {
    NeverSelf(r);
    MentioningMentions(r.namespace, Doubled(r.namespace, Mentions(r), c));
    forall b ensures Refers(s, b) <==> Refers(r, b) {
      MentionsAgree(r, b);
      MentionsAgree(s, b);
    }
  }

  lemma {:induction false} RecountedFavours(records: seq<NamespaceMeta>, c: seq<Name>)
    ensures SameReferences(records, Recounted(records, c))
    ensures Favours(GraphOf(Recounted(records, c)), c)
  {
    var others := Recounted(records, c);
    forall i | 0 <= i < |records|
      ensures SameSources(records[i], others[i])
      ensures Mentions(others[i]) == Doubled(records[i].namespace, Mentions(records[i]), c)
    {
      RecountedOne(records[i], others[i], c);
    }
    forall a, b | Edge(GraphOf(others), a, b) ensures Weight(GraphOf(others), a, b) == if OnCycle(c, Arc(a, b)) then 2 else 1 {
      var i := EdgeWeight(others, a, b);
    }
  }

  lemma {:induction false} EdgeWeight(records: seq<NamespaceMeta>, a: Name, b: Name) returns (i: nat)
    requires Edge(GraphOf(records), a, b)
    ensures i < |records| && records[i].namespace == a && b in Mentions(records[i])
    ensures Weight(GraphOf(records), a, b) == Mentions(records[i])[b]
  {
    i := RowHasSource(Rows(records), |records|, a);
    RowOfShown(Rows(records), |records|, i);
  }

  /**
  The promise holds of a metadata set however often each reference occurs if and only if no cycle of
  references goes through a shadowed one.
  */
  lemma {:induction false} OrderedIff(records: seq<NamespaceMeta>)
    ensures (forall others :: SameReferences(records, others) ==> Ordered(others)) <==> ShadowsOffCycles(records)
  {
    if ShadowsOffCycles(records) {
      forall others | SameReferences(records, others) ensures Ordered(others) {
        OffCyclesForAll(records, others);
      }
    } else {
      var others := ACycleSurvives(records);
    }
  }

  lemma {:induction false} OffCyclesForAll(records: seq<NamespaceMeta>, others: seq<NamespaceMeta>)
    requires ShadowsOffCycles(records) && SameReferences(records, others)
    ensures Ordered(others)
  {
    SameGraph(records, others);
    SameEdgesSameUnion(GraphOf(records), GraphOf(others), Shadowed(records));
    AllReferencesDescend(others);
  }

  /** Where a cycle goes through a shadowed reference, some counts leave an import cycle. */
  lemma {:induction false} ACycleSurvives(records: seq<NamespaceMeta>) returns (others: seq<NamespaceMeta>)
    requires !ShadowsOffCycles(records)
    ensures SameReferences(records, others) && !Ordered(others)
  {
    var g, extra := GraphOf(records), Shadowed(records);
    var c, e :| IsCycle(Union(g, extra), c) && e in extra && OnCycle(c, e);
    others := Recounted(records, c);
    RecountedFavours(records, c);
    SameGraph(records, others);
    SameEdgesSameUnion(g, GraphOf(others), extra);
    CycleOfMoreEdges(Union(g, extra), Union(GraphOf(others), extra), c);
    FavouredCycleSurvives(GraphOf(others), extra, c, e);
    OrderedIsAcyclic(others);
  }

  // ---- one record per namespace -------------------------------------------

  ghost predicate DistinctNamespaces(records: seq<NamespaceMeta>) {
    forall i, j :: 0 <= i < j < |records| ==> records[i].namespace != records[j].namespace
  }

  /** A reference is shadowed exactly when the shown record of its namespace lacks it. */
  lemma {:induction false} ShadowedIff(records: seq<NamespaceMeta>, a: Name, b: Name)
    ensures Arc(a, b) in Shadowed(records) <==>
      (exists i :: RefersFrom(records, i, a, b)) && !exists i: nat :: ShowsReference(records, i, a, b)
  {
    ReferencesIff(records, a, b);
    EdgeIff(records, a, b);
    assert Edge(GraphOf(records), a, b) <==> Arc(a, b) in Arcs(GraphOf(records));
  }

  /** With one record per namespace nothing is shadowed, so no import cycle is left. */
  lemma {:induction false} DistinctNamespacesOrdered(records: seq<NamespaceMeta>)
    requires DistinctNamespaces(records)
    ensures Shadowed(records) == {} && Ordered(records)
  {
    forall e | e in References(records) ensures e in Arcs(GraphOf(records)) {
      var i, b :| 0 <= i < |records| && b in Mentions(records[i]) && e == Arc(records[i].namespace, b);
      assert Shown(records, i);
      RowOfShown(Rows(records), |records|, i);
    }
    AllReferencesDescend(records);
  }

  // ---- a cycle that is left -----------------------------------------------

  /** A namespace with one constant, of a type from `a`. */
  function OneReference(n: Name, a: Name): NamespaceMeta {
    NamespaceMeta(n, [], map[], map[], map[], [RefTo(a)], map[])
  }

  lemma {:induction false} OneReferenceMentions(n: Name, a: Name)
    requires a != n && a != ""
    ensures Mentions(OneReference(n, a)) == multiset{a}
  {
    RefMentionsOnly(n, [], a);
    assert [] + [RefTo(a)] == [RefTo(a)];
  }

  /** Two records for namespace X, the first referring to Y, the second to Z; and Y refers to X. */
  function DuplicateRecords(): seq<NamespaceMeta> {
    [OneReference("X", "Y"), OneReference("X", "Z"), OneReference("Y", "X")]
  }

  lemma {:induction false} DuplicateRows()
    ensures Rows(DuplicateRecords()) == [Row("X", multiset{"Y"}), Row("X", multiset{"Z"}), Row("Y", multiset{"X"})]
  {
    OneReferenceMentions("X", "Y");
    OneReferenceMentions("X", "Z");
    OneReferenceMentions("Y", "X");
    RowsOfThree(OneReference("X", "Y"), OneReference("X", "Z"), OneReference("Y", "X"));
  }

  lemma {:induction false} RowsOfThree(a: NamespaceMeta, b: NamespaceMeta, c: NamespaceMeta)
    ensures Rows([a, b, c])
         == [Row(a.namespace, Mentions(a)), Row(b.namespace, Mentions(b)), Row(c.namespace, Mentions(c))]
  {}

  lemma {:induction false} DuplicateGraph()
    ensures GraphOf(DuplicateRecords()) == map["X" := map["Z" := 1], "Y" := map["X" := 1]]
  {
    DuplicateRows();
    ThreeRows(Rows(DuplicateRecords()));
  }

  lemma {:induction false} ThreeRows(rows: seq<Row>)
    requires rows == [Row("X", multiset{"Y"}), Row("X", multiset{"Z"}), Row("Y", multiset{"X"})]
    ensures BuildGraph(rows, 3) == map["X" := map["Z" := 1], "Y" := map["X" := 1]]
  {
    assert Tally(multiset{"Z"}) == map["Z" := 1] && Tally(multiset{"X"}) == map["X" := 1];
    assert BuildGraph(rows, 0) == map[];
    assert BuildGraph(rows, 1) == map["X" := Tally(multiset{"Y"})];
    assert BuildGraph(rows, 2) == map["X" := Tally(multiset{"Z"})];
  }

  lemma {:induction false} DuplicateReferences()
    ensures Arc("X", "Y") in References(DuplicateRecords()) && Arc("Y", "X") in References(DuplicateRecords())
  {
    var records := DuplicateRecords();
    OneReferenceMentions("X", "Y");
    OneReferenceMentions("Y", "X");
    assert "Y" in Mentions(records[0]) && "X" in Mentions(records[2]);
  }

  lemma {:induction false} ChainBlocksNothing(g: Graph)
    requires g == map["X" := map["Z" := 1], "Y" := map["X" := 1]]
    ensures BreakCycles(g).blocked == {}
  {
    DescendingIsAcyclic(g, map["Z" := 0, "X" := 1, "Y" := 2]);
    FindCycleCorrect(g);
  }

  /** The reference of X's first record never becomes an edge, so nothing is blocked, and no ranking orders
      the references: X and Y import each other. */
  lemma {:induction false} DuplicateRecordsLeaveACycle()
    ensures Blocked(DuplicateRecords()) == {}
    ensures !exists rank :: Orders(DuplicateRecords(), rank)
    ensures !ShadowsOffCycles(DuplicateRecords())
  {
    var records := DuplicateRecords();
    DuplicateGraph();
    DuplicateReferences();
    ChainBlocksNothing(GraphOf(records));
    forall rank ensures !Orders(records, rank) {
      OrdersIff(records, rank);
      assert Below(rank, "X", "Y") ==> !Below(rank, "Y", "X");
    }
    if ShadowsOffCycles(records) {
      AllReferencesDescend(records);
    }
  }
}
