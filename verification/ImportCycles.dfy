/**
ComputeBlockedImports as it runs: the loop that deletes edges and fills `blocked`, proved to compute
the set that ImportBlocking reasons about.
*/
module ImportCycles {
  import opened Names
  import opened Metadata
  import opened ImportGraph
  import opened CycleBreaking
  import opened SeveranceOrder
  import opened ImportBlocking
  import opened CycleSearch
  import opened ReferenceWalk
  import opened ReferencePositions

  // ---- lightestEdge -------------------------------------------------------

  method LightestEdge(edges: Graph, cycle: seq<Name>) returns (src: Name, dst: Name)
    requires |cycle| >= 2 && Walk(edges, cycle)
    ensures Arc(src, dst) == Lightest(edges, cycle)
    ensures Best(edges, cycle, Arc(src, dst))
    ensures exists i :: FirstBest(edges, cycle, i) && Arc(src, dst) == ArcAt(cycle, i)
  {
    LightestIsBest(edges, cycle);
    src, dst := cycle[0], cycle[1];
    var bestWeight := edges[src][dst];
    for i := 0 to |cycle| - 1
      invariant Edge(edges, src, dst) && bestWeight == edges[src][dst]
      invariant LightestFrom(edges, cycle, i, Arc(src, dst)) == Lightest(edges, cycle)
    {
      var weight := edges[cycle[i]][cycle[i + 1]];
      if weight < bestWeight || (weight == bestWeight && Less(Label(cycle[i], cycle[i + 1]), Label(src, dst))) {
        src, dst, bestWeight := cycle[i], cycle[i + 1], weight;
      }
    }
  }

  // ---- ComputeBlockedImports ----------------------------------------------

  /** For every source, the targets blocked from it. */
  type BlockedMap = map<Name, set<Name>>

  ghost function BlockedArcs(blocked: BlockedMap): set<Arc> {
    set a, b | a in blocked && b in blocked[a] :: Arc(a, b)
  }

  method CountReferences(record: NamespaceMeta) returns (weights: map<Name, int>)
    ensures weights == Tally(Mentions(record))
  {
    var counter := new ReferenceCounter(record.namespace);
    counter.WalkNamespaceRefs(record);
    counter.CountEmbeddings(record);
    assert counter.seen == Mentions(record);
    weights := counter.weights;
  }

  /** The weights of one record: for every other namespace, the places that refer to it and a thousand for every
      interface with a base there. */
  method Weights(record: NamespaceMeta) returns (weights: map<Name, int>)
    ensures weights == Tally(Mentions(record))
    ensures forall a :: (if a in weights then weights[a] else 0) == |Places(record, a)| + 1000 * |Embedding(record, a)|
  {
    weights := CountReferences(record);
    TallyCounts(record, weights);
  }

  lemma {:induction false} TallyCounts(record: NamespaceMeta, weights: map<Name, int>)
    requires weights == Tally(Mentions(record))
    ensures forall a :: (if a in weights then weights[a] else 0) == |Places(record, a)| + 1000 * |Embedding(record, a)|
  {
    forall a ensures (if a in weights then weights[a] else 0) == |Places(record, a)| + 1000 * |Embedding(record, a)| {
      WeightCountsPlaces(record, a);
      assert (if a in weights then weights[a] else 0) == Mentions(record)[a];
    }
  }

  /** One turn of the loop over records. */
  method AddRecord(edges: Graph, record: NamespaceMeta) returns (after: Graph)
    ensures after == AddRow(edges, RowOf(record))
  {
    var weights := Weights(record);
    TallyEmpty(Mentions(record));
    after := if weights == map[] then edges else edges[record.namespace := weights];
  }

  method Edges(records: seq<NamespaceMeta>) returns (edges: Graph)
    ensures edges == GraphOf(records)
  {
    edges := EdgesOfRows(records, Rows(records));
  }

  method EdgesOfRows(records: seq<NamespaceMeta>, ghost rows: seq<Row>) returns (edges: Graph)
    requires |rows| == |records| && forall i {:trigger RowOf(records[i])} :: 0 <= i < |rows| ==> rows[i] == RowOf(records[i])
    ensures edges == BuildGraph(rows, |rows|)
  {
    edges := map[];
    for i := 0 to |records|
      invariant edges == BuildGraph(rows, i)
    {
      edges := AddRecord(edges, records[i]);
    }
  }

  lemma {:induction false} TallyEmpty(m: multiset<Name>)
    ensures Tally(m) == map[] <==> m == multiset{}
  {
    if m != multiset{} {
      var a :| a in m;
      assert a in Tally(m);
    }
  }

  /** Find a cycle, sever its lightest edge, again until none is left. */
  method ComputeBlockedImports(records: seq<NamespaceMeta>) returns (blocked: BlockedMap)
    ensures BlockedArcs(blocked) == Blocked(records)
    ensures exists es :: IsSeverance(GraphOf(records), es) && BlockedArcs(blocked) == Members(es)
  {
    BlockedIsSeverance(GraphOf(records));
    var edges := Edges(records);
    blocked := Break(edges);
  }

  method Break(graph: Graph) returns (blocked: BlockedMap)
    ensures BlockedArcs(blocked) == BreakCycles(graph).blocked
  {
    var edges := graph;
    blocked := map[];
    assert BlockedArcs(blocked) == {};
    while true
      invariant BreakFrom(edges, BlockedArcs(blocked)) == BreakCycles(graph)
      decreases |Arcs(edges)|
    {
      var found, cycle := RunSearch(edges);
      BreakFromNext(edges, BlockedArcs(blocked));
      if !found {
        return;
      }
      var src, dst := LightestEdge(edges, cycle);
      edges := edges[src := edges[src] - {dst}];
      blocked := Block(blocked, src, dst);
    }
  }

  /** Block one arc; the first one of a source makes its inner map. */
  method Block(blocked: BlockedMap, src: Name, dst: Name) returns (after: BlockedMap)
    ensures BlockedArcs(after) == BlockedArcs(blocked) + {Arc(src, dst)}
  {
    after := blocked;
    if src !in after {
      after := after[src := {}];
    }
    after := after[src := after[src] + {dst}];
    BlockedNext(blocked, src, dst);
  }

  method RunSearch(edges: Graph) returns (found: bool, cycle: seq<Name>)
    ensures found ==> FindCycle(edges) == Found(cycle)
    ensures !found ==> FindCycle(edges).Clear?
  {
    var finder := new CycleFinder(edges);
    found := finder.Run();
    cycle := finder.cycle;
  }

  lemma {:induction false} BlockedNext(blocked: BlockedMap, src: Name, dst: Name)
    ensures BlockedArcs(blocked[src := (if src in blocked then blocked[src] else {}) + {dst}])
         == BlockedArcs(blocked) + {Arc(src, dst)}
  {
    var after := blocked[src := (if src in blocked then blocked[src] else {}) + {dst}];
    forall e ensures e in BlockedArcs(after) <==> e in BlockedArcs(blocked) + {Arc(src, dst)} {
    }
  }
}
