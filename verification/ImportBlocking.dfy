/**
What ComputeBlockedImports promises of a whole metadata set: the graph built from the
records, and the ranking of namespaces that the blocked edges leave behind.
*/
module ImportBlocking {
  import opened Names
  import opened Metadata
  import opened ImportGraph
  import opened CycleBreaking
  import opened ReferencePositions

  /** A namespace and the references counted for it. */
  datatype Row = Row(namespace: Name, mentions: multiset<Name>)

  ghost function RowOf(record: NamespaceMeta): Row {
    Row(record.namespace, Mentions(record))
  }

  ghost function Rows(records: seq<NamespaceMeta>): (rows: seq<Row>)
    ensures |rows| == |records|
    ensures forall i :: 0 <= i < |rows| ==> rows[i] == RowOf(records[i])
  {
    seq(|records|, i requires 0 <= i < |records| => RowOf(records[i]))
  }

  /** A row with references replaces an earlier one of the same namespace. */
  ghost function AddRow(g: Graph, row: Row): Graph {
    if row.mentions == multiset{} then g else g[row.namespace := Tally(row.mentions)]
  }

  /** The first `n` rows. */
  ghost function BuildGraph(rows: seq<Row>, n: nat): Graph
    requires n <= |rows|
  {
    if n == 0 then map[] else AddRow(BuildGraph(rows, n - 1), rows[n - 1])
  }

  ghost function GraphOf(records: seq<NamespaceMeta>): Graph {
    BuildGraph(Rows(records), |records|)
  }

  /** Row `i` is the one the graph of the first `n` rows shows for its namespace. */
  ghost predicate ShownRow(rows: seq<Row>, n: nat, i: nat)
    requires n <= |rows|
  {
    && i < n && rows[i].mentions != multiset{}
    && forall j :: i < j < n && rows[j].namespace == rows[i].namespace ==> rows[j].mentions == multiset{}
  }

  ghost predicate Shown(records: seq<NamespaceMeta>, i: nat) {
    ShownRow(Rows(records), |records|, i)
  }

  lemma {:induction false} RowOfShown(rows: seq<Row>, n: nat, i: nat)
    requires n <= |rows| && ShownRow(rows, n, i)
    ensures rows[i].namespace in BuildGraph(rows, n)
    ensures BuildGraph(rows, n)[rows[i].namespace] == Tally(rows[i].mentions)
    decreases n
  {
    if i < n - 1 {
      RowOfShown(rows, n - 1, i);
    }
  }

  lemma {:induction false} RowHasSource(rows: seq<Row>, n: nat, a: Name) returns (i: nat)
    requires n <= |rows| && a in BuildGraph(rows, n)
    ensures ShownRow(rows, n, i) && rows[i].namespace == a
    decreases n
  {
    var last := rows[n - 1];
    if last.mentions != multiset{} && last.namespace == a {
      i := n - 1;
    } else {
      i := RowHasSource(rows, n - 1, a);
    }
  }

  /** Record `i` is shown, belongs to namespace `a` and refers to `b`. */
  ghost predicate ShowsReference(records: seq<NamespaceMeta>, i: nat, a: Name, b: Name) {
    Shown(records, i) && records[i].namespace == a && Refers(records[i], b)
  }

  lemma {:induction false} ReferenceIsEdge(records: seq<NamespaceMeta>, i: nat, b: Name)
    requires Shown(records, i) && Refers(records[i], b)
    ensures Edge(GraphOf(records), records[i].namespace, b)
    ensures Weight(GraphOf(records), records[i].namespace, b) == Mentions(records[i])[b]
  {
    RowOfShown(Rows(records), |records|, i);
    MentionsAgree(records[i], b);
  }

  /** The graph has an edge exactly when the shown record of a namespace refers to another. */
  lemma {:induction false} EdgeIff(records: seq<NamespaceMeta>, a: Name, b: Name)
    ensures Edge(GraphOf(records), a, b) <==> exists i: nat :: ShowsReference(records, i, a, b)
  {
    if Edge(GraphOf(records), a, b) {
      var i := RowHasSource(Rows(records), |records|, a);
      RowOfShown(Rows(records), |records|, i);
      MentionsAgree(records[i], b);
      assert ShowsReference(records, i, a, b);
    }
    forall i: nat | ShowsReference(records, i, a, b) ensures Edge(GraphOf(records), a, b) {
      ReferenceIsEdge(records, i, b);
    }
  }

  /** The weight of an edge is the number of places in the shown record that refer to its target, plus a thousand
      for every interface with a base there. */
  lemma {:induction false} EdgeWeightCounts(records: seq<NamespaceMeta>, i: nat, b: Name)
    requires Shown(records, i) && Refers(records[i], b)
    ensures Edge(GraphOf(records), records[i].namespace, b)
    ensures forall p :: p in Places(records[i], b) <==> PointsTo(RefAt(records[i], p), records[i].namespace, b)
    ensures Weight(GraphOf(records), records[i].namespace, b) == |Places(records[i], b)| + 1000 * |Embedding(records[i], b)|
  {
    ReferenceIsEdge(records, i, b);
    WeightCountsPlaces(records[i], b);
  }

  /** An edge that embeds a base interface weighs at least 1000. */
  lemma {:induction false} EmbeddingEdge(records: seq<NamespaceMeta>, i: nat, b: Name)
    requires Shown(records, i) && EmbedsFrom(records[i], b)
    ensures Edge(GraphOf(records), records[i].namespace, b)
    ensures Weight(GraphOf(records), records[i].namespace, b) >= 1000
  {
    assert Refers(records[i], b);
    ReferenceIsEdge(records, i, b);
    EmbeddingIsHeavy(records[i], b);
  }

  ghost function Blocked(records: seq<NamespaceMeta>): set<Arc> {
    BreakCycles(GraphOf(records)).blocked
  }

  ghost function NamespaceRank(records: seq<NamespaceMeta>): map<Name, nat> {
    Ranking(GraphOf(records))
  }

  /**
  For every metadata set there is one ranking under which every reference of every shown record,
  a type reference at any depth or a base embedding, is either blocked or strictly descends.
  */
  lemma {:induction false} UnblockedReferencesDescend(records: seq<NamespaceMeta>, i: nat, b: Name)
    requires Shown(records, i) && Refers(records[i], b)
    ensures Arc(records[i].namespace, b) in Blocked(records)
         || Below(NamespaceRank(records), records[i].namespace, b)
  {
    ReferenceIsEdge(records, i, b);
    EdgeBlockedOrDescends(GraphOf(records), records[i].namespace, b);
  }

  lemma {:induction false} EdgeBlockedOrDescends(g: Graph, a: Name, b: Name)
    requires Edge(g, a, b)
    ensures Arc(a, b) in BreakCycles(g).blocked || Below(Ranking(g), a, b)
  {
    BreakCyclesCorrect(g);
    var r := BreakCycles(g);
    assert Arc(a, b) in r.blocked + Arcs(r.rest);
    assert Arc(a, b) in Arcs(r.rest) ==> Edge(r.rest, a, b);
  }

  /** If every cycle of references has an edge counted fewer than 1000 times, no base embedding
      is severed. */
  lemma {:induction false} EmbeddingsSurvive(records: seq<NamespaceMeta>, i: nat, b: Name)
    requires Shown(records, i) && EmbedsFrom(records[i], b)
    requires forall c :: IsCycle(GraphOf(records), c) ==>
      exists f :: OnCycle(c, f) && InGraph(GraphOf(records), f) && ArcWeight(GraphOf(records), f) < 1000
    ensures Arc(records[i].namespace, b) !in Blocked(records)
  {
    var e := Arc(records[i].namespace, b);
    EmbeddingEdge(records, i, b);
    if e in BreakCycles(GraphOf(records)).blocked {
      HeavyEdgesSurvive(GraphOf(records), 1000, e);
    }
  }
}
