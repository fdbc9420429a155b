/**
Breaking import cycles: lightestEdge and the loop of ComputeBlockedImports as functions of
the graph, with what they promise about the edges that are severed and those that
are left.
*/
module CycleBreaking {
  import opened Names
  import opened ImportGraph

  /** The separator lightestEdge puts between two names to break ties. */
  const ARROW: Name := "\U{2192}"

  function Label(a: Name, b: Name): Name {
    a + ARROW + b
  }

  datatype Arc = Arc(src: Name, dst: Name)

  predicate InGraph(g: Graph, e: Arc) {
    Edge(g, e.src, e.dst)
  }

  function ArcWeight(g: Graph, e: Arc): int
    requires InGraph(g, e)
  {
    Weight(g, e.src, e.dst)
  }

  /** Strictly preferred: fewer references, or as many and an earlier label. */
  predicate Better(g: Graph, e: Arc, f: Arc)
    requires InGraph(g, e) && InGraph(g, f)
  {
    || ArcWeight(g, e) < ArcWeight(g, f)
    || (ArcWeight(g, e) == ArcWeight(g, f) && Less(Label(e.src, e.dst), Label(f.src, f.dst)))
  }

  function ArcAt(c: seq<Name>, i: nat): Arc
    requires i + 1 < |c|
  {
    Arc(c[i], c[i + 1])
  }

  ghost predicate OnCycle(c: seq<Name>, e: Arc) {
    exists i :: 0 <= i < |c| - 1 && e == ArcAt(c, i)
  }

  /** The best arc among `best` and those from position `i` on. */
  function LightestFrom(g: Graph, c: seq<Name>, i: nat, best: Arc): (e: Arc)
    requires |c| >= 2 && i <= |c| - 1 && Walk(g, c) && InGraph(g, best)
    ensures InGraph(g, e)
    decreases |c| - i
  {
    if i == |c| - 1 then best
    else LightestFrom(g, c, i + 1, if Better(g, ArcAt(c, i), best) then ArcAt(c, i) else best)
  }

  function Lightest(g: Graph, c: seq<Name>): (e: Arc)
    requires |c| >= 2 && Walk(g, c)
    ensures InGraph(g, e)
  {
    LightestFrom(g, c, 0, ArcAt(c, 0))
  }

  lemma {:induction false} BetterTransitive(g: Graph, e: Arc, f: Arc, h: Arc)
    requires InGraph(g, e) && InGraph(g, f) && InGraph(g, h)
    requires !Better(g, f, e) && !Better(g, h, f)
    ensures !Better(g, h, e)
  {
    var x, y, z := Label(e.src, e.dst), Label(f.src, f.dst), Label(h.src, h.dst);
    LessTrichotomy(x, y);
    LessTrichotomy(y, z);
    LessTrichotomy(x, z);
    if Less(x, y) && Less(y, z) {
      LessTransitive(x, y, z);
    }
  }

  lemma {:induction false} BetterIrreflexive(g: Graph, e: Arc, f: Arc)
    requires InGraph(g, e) && InGraph(g, f)
    ensures !Better(g, e, e)
    ensures Better(g, e, f) ==> !Better(g, f, e)
  {
    LessTrichotomy(Label(e.src, e.dst), Label(e.src, e.dst));
    LessTrichotomy(Label(e.src, e.dst), Label(f.src, f.dst));
  }

  lemma {:induction false} LightestFromBest(g: Graph, c: seq<Name>, i: nat, best: Arc)
    requires |c| >= 2 && i <= |c| - 1 && Walk(g, c) && InGraph(g, best)
    ensures !Better(g, best, LightestFrom(g, c, i, best))
    ensures forall j :: i <= j < |c| - 1 ==> InGraph(g, ArcAt(c, j)) && !Better(g, ArcAt(c, j), LightestFrom(g, c, i, best))
    ensures LightestFrom(g, c, i, best) == best || OnCycle(c, LightestFrom(g, c, i, best))
    decreases |c| - i
  {
    BetterIrreflexive(g, best, best);
    if i < |c| - 1 {
      var here := ArcAt(c, i);
      var next := if Better(g, here, best) then here else best;
      LightestFromBest(g, c, i + 1, next);
      BetterIrreflexive(g, here, best);
      BetterIrreflexive(g, here, here);
      var e := LightestFrom(g, c, i + 1, next);
      BetterTransitive(g, e, next, here);
      BetterTransitive(g, e, next, best);
    }
  }

  /** The edge of the cycle to sever: no edge of the cycle has fewer references, and among those with as few
      none has an earlier label, source and target joined by an arrow, in string order. */
  ghost predicate Best(g: Graph, c: seq<Name>, e: Arc) {
    OnCycle(c, e) && InGraph(g, e) && forall f :: OnCycle(c, f) && InGraph(g, f) ==> AsGood(g, e, f)
  }

  ghost predicate AsGood(g: Graph, e: Arc, f: Arc)
    requires InGraph(g, e) && InGraph(g, f)
  {
    var x, y := e.src + "\U{2192}" + e.dst, f.src + "\U{2192}" + f.dst;
    || g[e.src][e.dst] < g[f.src][f.dst]
    || (g[e.src][e.dst] == g[f.src][f.dst] && (x == y || Precedes(x, y)))
  }

  lemma {:induction false} AsGoodIff(g: Graph, e: Arc, f: Arc)
    requires InGraph(g, e) && InGraph(g, f)
    ensures AsGood(g, e, f) <==> !Better(g, f, e)
  {
    LessTrichotomy(Label(e.src, e.dst), Label(f.src, f.dst));
    LessIsPrecedes(Label(e.src, e.dst), Label(f.src, f.dst));
  }

  lemma {:induction false} BestIff(g: Graph, c: seq<Name>, e: Arc)
    ensures Best(g, c, e) <==> OnCycle(c, e) && InGraph(g, e) && forall f :: OnCycle(c, f) && InGraph(g, f) ==> !Better(g, f, e)
  {
    if InGraph(g, e) {
      forall f | InGraph(g, f) ensures AsGood(g, e, f) <==> !Better(g, f, e) {
        AsGoodIff(g, e, f);
      }
    }
  }

  lemma {:induction false} LightestFromFirst(g: Graph, c: seq<Name>, i: nat, best: Arc) returns (k: nat)
    requires |c| >= 2 && i <= |c| - 1 && Walk(g, c) && InGraph(g, best)
    ensures k == |c| - 1 ==> LightestFrom(g, c, i, best) == best
    ensures i <= k <= |c| - 1
    ensures k < |c| - 1 ==>
      && LightestFrom(g, c, i, best) == ArcAt(c, k) && Better(g, ArcAt(c, k), best)
      && forall j :: i <= j < k ==> Edge(g, c[j], c[j + 1]) && Better(g, ArcAt(c, k), ArcAt(c, j))
    decreases |c| - i
  {
    if i == |c| - 1 {
      k := i;
    } else {
      var here := ArcAt(c, i);
      if Better(g, here, best) {
        k := LightestFromFirst(g, c, i + 1, here);
        if k == |c| - 1 {
          k := i;
        } else {
          BetterIrreflexive(g, here, best);
          StrictlyBetter(g, ArcAt(c, k), here, best);
        }
      } else {
        k := LightestFromFirst(g, c, i + 1, best);
        if k < |c| - 1 {
          StrictlyBetter(g, ArcAt(c, k), best, here);
        }
      }
    }
  }

  lemma {:induction false} StrictlyBetter(g: Graph, e: Arc, f: Arc, h: Arc)
    requires InGraph(g, e) && InGraph(g, f) && InGraph(g, h)
    requires Better(g, e, f) && !Better(g, h, f)
    ensures Better(g, e, h)
  {
    BetterIrreflexive(g, e, f);
    if !Better(g, e, h) {
      BetterTransitive(g, f, h, e);
    }
  }

  /** Position `i` of the cycle has the first edge that is to be severed. */
  ghost predicate FirstBest(g: Graph, c: seq<Name>, i: int) {
    && 0 <= i < |c| - 1 && Best(g, c, ArcAt(c, i))
    && forall j :: 0 <= j < i ==> !Best(g, c, ArcAt(c, j))
  }

  /** lightestEdge returns the edge to sever; on a tie of labels, the first such edge of the path. */
  lemma {:induction false} LightestIsBest(g: Graph, c: seq<Name>)
    requires |c| >= 2 && Walk(g, c)
    ensures forall e :: OnCycle(c, e) ==> InGraph(g, e)
    ensures Best(g, c, Lightest(g, c))
    ensures exists i :: FirstBest(g, c, i) && Lightest(g, c) == ArcAt(c, i)
  {
    LightestFromBest(g, c, 0, ArcAt(c, 0));
    assert OnCycle(c, ArcAt(c, 0));
    BestIff(g, c, Lightest(g, c));
    var k := LightestFromFirst(g, c, 0, ArcAt(c, 0));
    if k == |c| - 1 {
      assert FirstBest(g, c, 0);
    } else {
      forall j | 0 <= j < k ensures !Best(g, c, ArcAt(c, j)) {
        BestIff(g, c, ArcAt(c, j));
        assert OnCycle(c, ArcAt(c, k));
      }
      assert FirstBest(g, c, k);
    }
  }

  // ---- the loop -----------------------------------------------------------

  function Without(g: Graph, e: Arc): Graph
    requires InGraph(g, e)
  {
    g[e.src := g[e.src] - {e.dst}]
  }

  ghost function Arcs(g: Graph): set<Arc> {
    set a, b | a in g && b in g[a] :: Arc(a, b)
  }

  lemma {:induction false} WithoutRemovesOne(g: Graph, e: Arc)
    requires InGraph(g, e)
    ensures Arcs(Without(g, e)) == Arcs(g) - {e}
    ensures |Arcs(Without(g, e))| < |Arcs(g)|
    ensures forall a, b :: Edge(Without(g, e), a, b) ==> Edge(g, a, b) && Weight(Without(g, e), a, b) == Weight(g, a, b)
  {
    assert e in Arcs(g);
  }

  datatype Broken = Broken(blocked: set<Arc>, rest: Graph)

  ghost function BreakFrom(g: Graph, blocked: set<Arc>): Broken
    decreases |Arcs(g)|
  {
    match FindCycle(g)
    case Clear(_) => Broken(blocked, g)
    case Found(cycle) =>
      FindCycleCorrect(g);
      var e := Lightest(g, cycle);
      WithoutRemovesOne(g, e);
      BreakFrom(Without(g, e), blocked + {e})
  }

  /** ComputeBlockedImports on a graph; it terminates because every round removes an edge. */
  ghost function BreakCycles(g: Graph): Broken {
    BreakFrom(g, {})
  }

  /** One round of the loop. */
  lemma {:induction false} BreakFromNext(g: Graph, blocked: set<Arc>)
    ensures FindCycle(g).Clear? ==> BreakFrom(g, blocked) == Broken(blocked, g)
    ensures FindCycle(g).Found? ==>
      var c := FindCycle(g).cycle;
      && IsCycle(g, c)
      && BreakFrom(g, blocked) == BreakFrom(Without(g, Lightest(g, c)), blocked + {Lightest(g, c)})
      && |Arcs(Without(g, Lightest(g, c)))| < |Arcs(g)|
  {
    FindCycleCorrect(g);
    if FindCycle(g).Found? {
      WithoutRemovesOne(g, Lightest(g, FindCycle(g).cycle));
    }
  }

  lemma {:induction false} BreakFromPartitions(g: Graph, blocked: set<Arc>)
    requires blocked !! Arcs(g)
    ensures var r := BreakFrom(g, blocked);
            && r.blocked + Arcs(r.rest) == blocked + Arcs(g) && r.blocked !! Arcs(r.rest)
    ensures FindCycle(BreakFrom(g, blocked).rest).Clear?
    ensures Descends(BreakFrom(g, blocked).rest, RankOf(FindCycle(BreakFrom(g, blocked).rest).done))
    decreases |Arcs(g)|
  {
    BreakFromNext(g, blocked);
    if FindCycle(g).Clear? {
      FindCycleCorrect(g);
    } else {
      var e := Lightest(g, FindCycle(g).cycle);
      WithoutRemovesOne(g, e);
      assert e in Arcs(g);
      BreakFromPartitions(Without(g, e), blocked + {e});
    }
  }

  /** The ranking of namespaces left behind: the finishing order of the last, empty-handed search. */
  ghost function Ranking(g: Graph): map<Name, nat> {
    BreakFromPartitions(g, {});
    RankOf(FindCycle(BreakCycles(g).rest).done)
  }

  /** Blocked and surviving edges partition the original ones, and the surviving ones strictly
      descend under a ranking, so no import cycle is left. */
  lemma {:induction false} BreakCyclesCorrect(g: Graph)
    ensures BreakCycles(g).blocked + Arcs(BreakCycles(g).rest) == Arcs(g)
    ensures BreakCycles(g).blocked !! Arcs(BreakCycles(g).rest)
    ensures Descends(BreakCycles(g).rest, Ranking(g))
    ensures Acyclic(BreakCycles(g).rest)
  {
    BreakFromPartitions(g, {});
    DescendingIsAcyclic(BreakCycles(g).rest, Ranking(g));
  }

  // ---- which edges are severed --------------------------------------------

  ghost predicate SubGraph(h: Graph, g: Graph) {
    forall a, b :: Edge(h, a, b) ==> Edge(g, a, b) && Weight(h, a, b) == Weight(g, a, b)
  }

  ghost predicate LightestOn(g: Graph, c: seq<Name>, e: Arc) {
    && IsCycle(g, c) && OnCycle(c, e) && InGraph(g, e)
    && forall f :: OnCycle(c, f) && InGraph(g, f) ==> ArcWeight(g, e) <= ArcWeight(g, f)
  }

  lemma {:induction false} CycleOfSubGraph(h: Graph, g: Graph, c: seq<Name>)
    requires SubGraph(h, g) && IsCycle(h, c)
    ensures IsCycle(g, c)
  {}

  lemma {:induction false} ChosenIsLightest(h: Graph, g: Graph, c: seq<Name>)
    requires SubGraph(h, g) && IsCycle(h, c)
    ensures LightestOn(g, c, Lightest(h, c))
  {
    CycleOfSubGraph(h, g, c);
    LightestIsBest(h, c);
  }

  lemma {:induction false} BreakFromBlocksLightest(g: Graph, h: Graph, blocked: set<Arc>, e: Arc)
    requires SubGraph(h, g) && e in BreakFrom(h, blocked).blocked
    ensures e in blocked || exists c :: LightestOn(g, c, e)
    decreases |Arcs(h)|
  {
    BreakFromNext(h, blocked);
    if FindCycle(h).Found? {
      var c := FindCycle(h).cycle;
      var chosen := Lightest(h, c);
      SubGraphWithout(h, g, chosen);
      BreakFromBlocksLightest(g, Without(h, chosen), blocked + {chosen}, e);
      ChosenIsLightest(h, g, c);
    }
  }

  lemma {:induction false} SubGraphWithout(h: Graph, g: Graph, e: Arc)
    requires SubGraph(h, g) && InGraph(h, e)
    ensures SubGraph(Without(h, e), g)
  {
    WithoutRemovesOne(h, e);
  }

  /** Every severed edge lay on a cycle of the original graph and was no heavier than any edge of it. */
  lemma {:induction false} SeveredIsLightest(g: Graph, e: Arc)
    requires e in BreakCycles(g).blocked
    ensures exists c :: LightestOn(g, c, e)
  {
    BreakFromBlocksLightest(g, g, {}, e);
  }

  ghost predicate SeversHeavy(g: Graph, bound: int) {
    exists e :: e in BreakCycles(g).blocked && InGraph(g, e) && ArcWeight(g, e) >= bound
  }

  ghost predicate HeavyCycle(g: Graph, c: seq<Name>, bound: int) {
    IsCycle(g, c) && forall e :: OnCycle(c, e) && InGraph(g, e) ==> ArcWeight(g, e) >= bound
  }

  /** Some edge of weight `bound` or more is severed if and only if some cycle of the original graph
      has no lighter edge. */
  lemma {:induction false} SeversHeavyIff(g: Graph, bound: int)
    ensures SeversHeavy(g, bound) <==> exists c :: HeavyCycle(g, c, bound)
  {
    if SeversHeavy(g, bound) {
      var e :| e in BreakCycles(g).blocked && InGraph(g, e) && ArcWeight(g, e) >= bound;
      SeveredIsLightest(g, e);
      var c :| LightestOn(g, c, e);
      assert HeavyCycle(g, c, bound);
    }
    forall c | HeavyCycle(g, c, bound) ensures SeversHeavy(g, bound) {
      var i := SeveredOn(g, c);
      assert OnCycle(c, ArcAt(c, i));
    }
  }

  /** On every cycle some edge is severed. */
  lemma {:induction false} SeveredOn(g: Graph, c: seq<Name>) returns (i: nat)
    requires ClosedWalk(g, c)
    ensures i < |c| - 1 && InGraph(g, ArcAt(c, i)) && ArcAt(c, i) in BreakCycles(g).blocked
  {
    BreakCyclesCorrect(g);
    var rest := BreakCycles(g).rest;
    assert !ClosedWalk(rest, c);
    i :| 0 <= i < |c| - 1 && !Edge(rest, c[i], c[i + 1]);
    assert Edge(g, c[i], c[i + 1]) && ArcAt(c, i) in Arcs(g);
    assert ArcAt(c, i) !in Arcs(rest);
  }

  /** So if every cycle of the original graph has an edge lighter than `bound`, every severed edge is lighter. */
  lemma {:induction false} HeavyEdgesSurvive(g: Graph, bound: int, e: Arc)
    requires forall c :: IsCycle(g, c) ==> exists f :: OnCycle(c, f) && InGraph(g, f) && ArcWeight(g, f) < bound
    requires e in BreakCycles(g).blocked
    ensures exists c :: LightestOn(g, c, e)
    ensures InGraph(g, e) && ArcWeight(g, e) < bound
  {
    SeveredIsLightest(g, e);
    SeversHeavyIff(g, bound);
  }

  // ---- rotation -----------------------------------------------------------

  /** The same closed walk entered at its `k`-th node. */
  function Rotate(c: seq<Name>, k: nat): seq<Name>
    requires k < |c| - 1
  {
    c[k..|c| - 1] + c[..k] + [c[k]]
  }

  lemma {:induction false} RotateSameArcs(g: Graph, c: seq<Name>, k: nat)
    requires ClosedWalk(g, c) && k < |c| - 1
    ensures ClosedWalk(g, Rotate(c, k))
    ensures forall e :: OnCycle(Rotate(c, k), e) <==> OnCycle(c, e)
  {
    var r, n := Rotate(c, k), |c| - 1;
    forall i | 0 <= i < n ensures ArcAt(r, i) == ArcAt(c, if i + k < n then i + k else i + k - n) {
    }
    forall i | 0 <= i < n ensures ArcAt(c, i) == ArcAt(r, if i >= k then i - k else i + n - k) {
    }
    forall i | 0 <= i < n ensures Edge(g, r[i], r[i + 1]) {
      var j := if i + k < n then i + k else i + k - n;
      assert ArcAt(r, i) == ArcAt(c, j) && Edge(g, c[j], c[j + 1]);
    }
    forall e | OnCycle(r, e) ensures OnCycle(c, e) {
      var i :| 0 <= i < |r| - 1 && e == ArcAt(r, i);
      assert e == ArcAt(c, if i + k < n then i + k else i + k - n);
    }
    forall e | OnCycle(c, e) ensures OnCycle(r, e) {
      var i :| 0 <= i < |c| - 1 && e == ArcAt(c, i);
      assert e == ArcAt(r, if i >= k then i - k else i + n - k);
    }
  }

  /** No two different edges of the cycle are both best: neither weight nor label decides. */
  ghost predicate NoTie(g: Graph, c: seq<Name>) {
    forall e, f :: Best(g, c, e) && Best(g, c, f) ==> e == f
  }

  lemma {:induction false} BestFirstWins(g: Graph, c: seq<Name>, i: nat)
    requires |c| >= 2 && Walk(g, c) && Best(g, c, ArcAt(c, 0)) && i <= |c| - 1
    ensures LightestFrom(g, c, i, ArcAt(c, 0)) == ArcAt(c, 0)
    decreases |c| - i
  {
    BestIff(g, c, ArcAt(c, 0));
    if i < |c| - 1 {
      assert OnCycle(c, ArcAt(c, i));
      BestFirstWins(g, c, i + 1);
    }
  }

  ghost predicate RotationInvariant(g: Graph, c: seq<Name>)
    requires ClosedWalk(g, c)
  {
    forall k :: 0 <= k < |c| - 1 ==> Walk(g, Rotate(c, k)) && Lightest(g, Rotate(c, k)) == Lightest(g, c)
  }

  lemma {:induction false} SameBest(g: Graph, c: seq<Name>, r: seq<Name>, e: Arc)
    requires forall f :: OnCycle(r, f) <==> OnCycle(c, f)
    ensures Best(g, r, e) <==> Best(g, c, e)
  {}

  lemma {:induction false} RotatedLightestIsBest(g: Graph, c: seq<Name>, k: nat)
    requires ClosedWalk(g, c) && k < |c| - 1
    ensures Walk(g, Rotate(c, k)) && Best(g, c, Lightest(g, Rotate(c, k)))
  {
    RotateSameArcs(g, c, k);
    LightestIsBest(g, Rotate(c, k));
    SameBest(g, c, Rotate(c, k), Lightest(g, Rotate(c, k)));
  }

  /** A best edge is the one found when the cycle is entered right at it. */
  lemma {:induction false} BestIsSomeLightest(g: Graph, c: seq<Name>, e: Arc)
    requires ClosedWalk(g, c) && Best(g, c, e)
    ensures exists k :: 0 <= k < |c| - 1 && Walk(g, Rotate(c, k)) && Lightest(g, Rotate(c, k)) == e
  {
    var k :| 0 <= k < |c| - 1 && e == ArcAt(c, k);
    var r := Rotate(c, k);
    RotateSameArcs(g, c, k);
    assert ArcAt(r, 0) == e;
    SameBest(g, c, r, e);
    BestFirstWins(g, r, 0);
  }

  /** lightestEdge does not depend on where the cycle is entered if and only if no two edges of
      the cycle tie for best. */
  lemma {:induction false} RotationInvariantIff(g: Graph, c: seq<Name>)
    requires ClosedWalk(g, c)
    ensures RotationInvariant(g, c) <==> NoTie(g, c)
  {
    LightestIsBest(g, c);
    forall k | 0 <= k < |c| - 1 ensures Walk(g, Rotate(c, k)) && Best(g, c, Lightest(g, Rotate(c, k))) {
      RotatedLightestIsBest(g, c, k);
    }
    forall e | Best(g, c, e)
      ensures exists k :: 0 <= k < |c| - 1 && Walk(g, Rotate(c, k)) && Lightest(g, Rotate(c, k)) == e
    {
      BestIsSomeLightest(g, c, e);
    }
    assert Best(g, c, Lightest(g, c));
  }

  lemma {:induction false} LabelInjective(e: Arc, f: Arc)
    requires ARROW[0] !in e.src && ARROW[0] !in f.src
    requires Label(e.src, e.dst) == Label(f.src, f.dst)
    ensures e == f
  {
    var s := Label(e.src, e.dst);
    assert s[|e.src|] == ARROW[0] && s[|f.src|] == ARROW[0];
    assert forall i :: 0 <= i < |e.src| ==> s[i] == e.src[i];
    assert forall i :: 0 <= i < |f.src| ==> s[i] == f.src[i];
    assert e.src == s[..|e.src|] && e.dst == s[|e.src| + 1..];
  }

  /** Names without the separator never tie, so for them the choice is rotation invariant. */
  lemma {:induction false} ArrowFreeNamesNeverTie(g: Graph, c: seq<Name>)
    requires ClosedWalk(g, c) && forall n :: n in c ==> ARROW[0] !in n
    ensures NoTie(g, c)
  {
    forall e, f | Best(g, c, e) && Best(g, c, f) ensures e == f {
      BestIff(g, c, e);
      BestIff(g, c, f);
      LessTrichotomy(Label(e.src, e.dst), Label(f.src, f.dst));
      LabelInjective(e, f);
    }
  }

  /** With the separator in a name they can: two different edges labelled "a→b→c". */
  lemma {:induction false} ArrowsCanTie()
    ensures exists g, c :: IsCycle(g, c) && !NoTie(g, c)
  {
    var a, bc, ab, c := "a", "b" + ARROW + "c", "a" + ARROW + "b", "c";
    var g: Graph := map[a := map[bc := 1], bc := map[ab := 2], ab := map[c := 1], c := map[a := 2]];
    var cycle := [a, bc, ab, c, a];
    var e, f := Arc(a, bc), Arc(ab, c);
    assert |a| == 1 && |c| == 1 && |bc| == 3 && |ab| == 3 && a[0] != c[0] && ab[0] != bc[0];
    assert IsCycle(g, cycle);
    assert Label(a, bc) == Label(ab, c);
    assert e == ArcAt(cycle, 0) && f == ArcAt(cycle, 2);
    BetterIrreflexive(g, e, e);
    forall h | OnCycle(cycle, h) && InGraph(g, h) ensures !Better(g, h, e) && !Better(g, h, f) {
      var i :| 0 <= i < 4 && h == ArcAt(cycle, i);
    }
    BestIff(g, cycle, e);
    BestIff(g, cycle, f);
    assert Best(g, cycle, e) && Best(g, cycle, f) && e != f;
  }
}
