/**
What breaking cycles is worth when some edges are missing from the graph: the loop never sees
them, so a cycle through one of them can survive. When exactly it can does not depend on what the
loop does, only on the edges.
*/
module ExtraEdges {
  import opened Names
  import opened ImportGraph
  import opened CycleBreaking

  /** `g` with the arcs `extra` added; an arc that is new weighs 1. */
  function Union(g: Graph, extra: set<Arc>): Graph {
    map a | a in g.Keys + (set e | e in extra :: e.src) ::
      map b | b in Targets(g, a) + (set e | e in extra && e.src == a :: e.dst) :: if Edge(g, a, b) then g[a][b] else 1
  }

  lemma {:induction false} UnionEdge(g: Graph, extra: set<Arc>, a: Name, b: Name)
    ensures Edge(Union(g, extra), a, b) <==> Edge(g, a, b) || Arc(a, b) in extra
  {
    if Arc(a, b) in extra {
      assert Arc(a, b).src == a && Arc(a, b).dst == b;
    }
  }

  ghost predicate SameEdges(g: Graph, h: Graph) {
    forall a, b :: Edge(g, a, b) <==> Edge(h, a, b)
  }

  /** No cycle of the graph with the extra arcs goes through one of them. */
  ghost predicate ExtrasOffCycles(g: Graph, extra: set<Arc>) {
    forall c, e :: IsCycle(Union(g, extra), c) && e in extra ==> !OnCycle(c, e)
  }

  /** A cycle that uses no extra arc is a cycle of the graph. */
  lemma {:induction false} CycleWithoutExtras(g: Graph, extra: set<Arc>, c: seq<Name>)
    requires IsCycle(Union(g, extra), c) && forall e :: e in extra ==> !OnCycle(c, e)
    ensures IsCycle(g, c)
  {
    forall i | 0 <= i < |c| - 1 ensures Edge(g, c[i], c[i + 1]) {
      assert OnCycle(c, ArcAt(c, i));
      UnionEdge(g, extra, c[i], c[i + 1]);
    }
  }

  lemma {:induction false} CycleOfMoreEdges(g: Graph, h: Graph, c: seq<Name>)
    requires IsCycle(g, c) && forall a, b :: Edge(g, a, b) ==> Edge(h, a, b)
    ensures IsCycle(h, c)
  {}

  lemma {:induction false} RestHasEdges(g: Graph, a: Name, b: Name)
    ensures Edge(BreakCycles(g).rest, a, b) <==> Edge(g, a, b) && Arc(a, b) !in BreakCycles(g).blocked
  {
    BreakCyclesCorrect(g);
    var r := BreakCycles(g);
    assert Edge(r.rest, a, b) <==> Arc(a, b) in Arcs(r.rest);
    assert Edge(g, a, b) <==> Arc(a, b) in Arcs(g);
  }

  /** If no cycle uses an extra arc, the broken graph is acyclic with them. */
  lemma {:induction false} StaysAcyclic(g: Graph, extra: set<Arc>)
    requires ExtrasOffCycles(g, extra)
    ensures Acyclic(Union(BreakCycles(g).rest, extra))
  {
    var rest := BreakCycles(g).rest;
    var u := Union(rest, extra);
    FindCycleCorrect(u);
    if FindCycle(u).Found? {
      var c := FindCycle(u).cycle;
      forall a, b | Edge(u, a, b) ensures Edge(Union(g, extra), a, b) {
        UnionEdge(rest, extra, a, b);
        UnionEdge(g, extra, a, b);
        RestHasEdges(g, a, b);
      }
      CycleOfMoreEdges(u, Union(g, extra), c);
      CycleWithoutExtras(rest, extra, c);
      BreakCyclesCorrect(g);
      assert false;
    }
  }

  // ---- the other direction ------------------------------------------------

  /** Every arc of the cycle `c` weighs 2 and every other arc 1. */
  ghost predicate Favours(g: Graph, c: seq<Name>) {
    forall a, b :: Edge(g, a, b) ==> Weight(g, a, b) == if OnCycle(c, Arc(a, b)) then 2 else 1
  }

  /** Where a node is on a cycle. */
  ghost predicate PositionOn(c: seq<Name>, n: Name, i: int) {
    0 <= i < |c| - 1 && c[i] == n
  }

  /** Steps from position `i` to position `k` of a cycle of `n` arcs. */
  function StepsTo(i: int, k: int, n: int): int {
    if i <= k then k - i else k - i + n
  }

  /** A walk along arcs of a cycle that avoids its `k`-th arc comes closer to that arc with every step. */
  lemma {:induction false} WalkApproaches(c: seq<Name>, k: nat, p: seq<Name>, j: nat, from: nat) returns (at: nat)
    requires |c| >= 2 && Distinct(c[..|c| - 1]) && c[0] == c[|c| - 1] && k < |c| - 1
    requires 0 < j < |p| && PositionOn(c, p[0], from)
    requires forall i :: 0 <= i < |p| - 1 ==> OnCycle(c, ArcAt(p, i)) && ArcAt(p, i) != ArcAt(c, k)
    ensures PositionOn(c, p[j], at) && StepsTo(at, k, |c| - 1) < StepsTo(from, k, |c| - 1)
    decreases j
  {
    var before := from;
    if j > 1 {
      before := WalkApproaches(c, k, p, j - 1, from);
    }
    assert ArcAt(p, j - 1) == Arc(p[j - 1], p[j]);
    at := NextPosition(c, p[j - 1], p[j], before, k);
  }

  lemma {:induction false} NextPosition(c: seq<Name>, a: Name, b: Name, i: nat, k: nat) returns (at: nat)
    requires |c| >= 2 && Distinct(c[..|c| - 1]) && c[0] == c[|c| - 1] && k < |c| - 1
    requires PositionOn(c, a, i) && OnCycle(c, Arc(a, b)) && Arc(a, b) != ArcAt(c, k)
    ensures PositionOn(c, b, at) && StepsTo(at, k, |c| - 1) < StepsTo(i, k, |c| - 1)
  {
    var n := |c| - 1;
    var m :| 0 <= m < n && Arc(a, b) == ArcAt(c, m);
    assert c[..n][m] == c[..n][i];
    assert m == i && i != k;
    at := if i + 1 < n then i + 1 else 0;
  }

  /** The arcs of a cycle less one do not close up. */
  lemma {:induction false} NoCycleAvoidsOne(g: Graph, c: seq<Name>, k: nat, p: seq<Name>)
    requires IsCycle(g, c) && k < |c| - 1 && |p| >= 2 && p[0] == p[|p| - 1]
    ensures exists i :: 0 <= i < |p| - 1 && (ArcAt(p, i) == ArcAt(c, k) || !OnCycle(c, ArcAt(p, i)))
  {
    if forall i :: 0 <= i < |p| - 1 ==> OnCycle(c, ArcAt(p, i)) && ArcAt(p, i) != ArcAt(c, k) {
      assert OnCycle(c, ArcAt(p, 0));
      var m :| 0 <= m < |c| - 1 && ArcAt(p, 0) == ArcAt(c, m);
      var at := WalkApproaches(c, k, p, |p| - 1, m);
      assert false;
    }
  }

  /** When the loop is given weights that favour a cycle through an extra arc, it severs no arc of it. */
  lemma {:induction false} FavouredCycleSurvives(g: Graph, extra: set<Arc>, c: seq<Name>, e: Arc)
    requires IsCycle(Union(g, extra), c) && e in extra && OnCycle(c, e) && e !in Arcs(g)
    requires Favours(g, c)
    ensures ClosedWalk(Union(BreakCycles(g).rest, extra), c)
  {
    var k :| 0 <= k < |c| - 1 && e == ArcAt(c, k);
    forall p ensures !HeavyCycle(g, p, 2) {
      if IsCycle(g, p) {
        NoCycleAvoidsOne(Union(g, extra), c, k, p);
        var i :| 0 <= i < |p| - 1 && (ArcAt(p, i) == ArcAt(c, k) || !OnCycle(c, ArcAt(p, i)));
        assert Edge(g, p[i], p[i + 1]) && ArcAt(p, i) in Arcs(g);
        assert OnCycle(p, ArcAt(p, i)) && ArcWeight(g, ArcAt(p, i)) == 1;
      }
    }
    SeversHeavyIff(g, 2);
    forall i | 0 <= i < |c| - 1 ensures Edge(Union(BreakCycles(g).rest, extra), c[i], c[i + 1]) {
      var f := ArcAt(c, i);
      assert OnCycle(c, f) && Edge(Union(g, extra), c[i], c[i + 1]);
      UnionEdge(g, extra, c[i], c[i + 1]);
      UnionEdge(BreakCycles(g).rest, extra, c[i], c[i + 1]);
      RestHasEdges(g, c[i], c[i + 1]);
      assert Edge(g, c[i], c[i + 1]) ==> ArcWeight(g, f) == 2;
    }
  }

  /** `g` weighed so. */
  ghost function Favouring(g: Graph, c: seq<Name>): Graph {
    map a | a in g :: map b | b in g[a] :: if OnCycle(c, Arc(a, b)) then 2 else 1
  }

  lemma {:induction false} SameEdgesSameUnion(g: Graph, h: Graph, extra: set<Arc>)
    requires SameEdges(g, h)
    ensures SameEdges(Union(g, extra), Union(h, extra))
    ensures ExtrasOffCycles(g, extra) <==> ExtrasOffCycles(h, extra)
  {
    forall a, b ensures Edge(Union(g, extra), a, b) <==> Edge(Union(h, extra), a, b) {
      UnionEdge(g, extra, a, b);
      UnionEdge(h, extra, a, b);
    }
    forall c ensures IsCycle(Union(g, extra), c) <==> IsCycle(Union(h, extra), c) {
      if IsCycle(Union(g, extra), c) {
        CycleOfMoreEdges(Union(g, extra), Union(h, extra), c);
      }
      if IsCycle(Union(h, extra), c) {
        CycleOfMoreEdges(Union(h, extra), Union(g, extra), c);
      }
    }
  }

  /**
  Breaking the cycles of a graph leaves none with the extra arcs either, whatever the weights, if and
  only if no cycle with the extra arcs goes through one of them.
  */
  lemma {:induction false} ExtrasHarmlessIff(g: Graph, extra: set<Arc>)
    requires extra !! Arcs(g)
    ensures (forall h :: SameEdges(g, h) ==> Acyclic(Union(BreakCycles(h).rest, extra))) <==> ExtrasOffCycles(g, extra)
  {
    forall h | SameEdges(g, h) && ExtrasOffCycles(g, extra) ensures Acyclic(Union(BreakCycles(h).rest, extra)) {
      SameEdgesSameUnion(g, h, extra);
      StaysAcyclic(h, extra);
    }
    forall c, e | IsCycle(Union(g, extra), c) && e in extra && OnCycle(c, e)
      ensures exists h :: SameEdges(g, h) && !Acyclic(Union(BreakCycles(h).rest, extra))
    {
      var h := Favouring(g, c);
      SameEdgesSameUnion(g, h, extra);
      CycleOfMoreEdges(Union(g, extra), Union(h, extra), c);
      assert e !in Arcs(h);
      FavouredCycleSurvives(h, extra, c, e);
    }
  }

  // ---- orders -------------------------------------------------------------

  /** Under `rank` every arc that is not blocked strictly descends. */
  ghost predicate OrdersArcs(arcs: set<Arc>, blocked: set<Arc>, rank: map<Name, nat>) {
    forall a, b :: Arc(a, b) in arcs && Arc(a, b) !in blocked ==> Below(rank, a, b)
  }

  ghost predicate CanOrder(arcs: set<Arc>, blocked: set<Arc>) {
    exists rank :: OrdersArcs(arcs, blocked, rank)
  }

  /** The arcs that breaking the cycles of `g` leaves unblocked. */
  lemma {:induction false} LeftIff(g: Graph, arcs: set<Arc>, a: Name, b: Name)
    requires Arcs(g) <= arcs
    ensures Edge(Union(BreakCycles(g).rest, arcs - Arcs(g)), a, b) <==> Arc(a, b) in arcs && Arc(a, b) !in BreakCycles(g).blocked
  {
    UnionEdge(BreakCycles(g).rest, arcs - Arcs(g), a, b);
    RestHasEdges(g, a, b);
    BreakCyclesCorrect(g);
    assert Edge(g, a, b) <==> Arc(a, b) in Arcs(g);
  }

  /** They can be ordered if and only if they close no cycle. */
  lemma {:induction false} OrderedIffAcyclic(g: Graph, arcs: set<Arc>)
    requires Arcs(g) <= arcs
    ensures CanOrder(arcs, BreakCycles(g).blocked) <==> Acyclic(Union(BreakCycles(g).rest, arcs - Arcs(g)))
  {
    var left := Union(BreakCycles(g).rest, arcs - Arcs(g));
    forall a, b ensures Edge(left, a, b) <==> Arc(a, b) in arcs && Arc(a, b) !in BreakCycles(g).blocked {
      LeftIff(g, arcs, a, b);
    }
    forall rank | OrdersArcs(arcs, BreakCycles(g).blocked, rank) ensures Acyclic(left) {
      DescendingIsAcyclic(left, rank);
    }
    FindCycleCorrect(left);
    if Acyclic(left) {
      assert OrdersArcs(arcs, BreakCycles(g).blocked, RankOf(FindCycle(left).done));
    }
  }
}
