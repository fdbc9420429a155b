/**
The blocked set pinned down without the loop: the arcs can be severed one after the other, each being the first best
edge of the first cycle of what is left, until no cycle is left, and only this set can.
*/
module SeveranceOrder {
  import opened Names
  import opened ImportGraph
  import opened CycleBreaking
  import opened FirstCycle

  /** The graph without some of its arcs; namespaces stay even when they lose all of theirs. */
  function Minus(g: Graph, gone: set<Arc>): Graph {
    map a | a in g :: map b | b in g[a] && Arc(a, b) !in gone :: g[a][b]
  }

  function Members(es: seq<Arc>): set<Arc> {
    set e | e in es
  }

  /** The arc to sever next: the first best edge of the first cycle. */
  ghost predicate NextSevered(g: Graph, e: Arc) {
    exists c, i :: SeversAt(g, c, i, e)
  }

  ghost predicate SeversAt(g: Graph, c: seq<Name>, i: int, e: Arc) {
    IsFirstCycle(g, c) && FirstBest(g, c, i) && e == ArcAt(c, i)
  }

  /** The graph when the first `k` arcs have gone. */
  function After(g: Graph, es: seq<Arc>, k: nat): Graph
    requires k <= |es|
  {
    Minus(g, Members(es[..k]))
  }

  ghost predicate InOrder(g: Graph, es: seq<Arc>) {
    forall k :: 0 <= k < |es| ==> NextSevered(After(g, es, k), es[k])
  }

  ghost predicate IsSeverance(g: Graph, es: seq<Arc>) {
    InOrder(g, es) && Acyclic(Minus(g, Members(es)))
  }

  lemma {:induction false} NextIsLightest(g: Graph, e: Arc)
    requires NextSevered(g, e)
    ensures FindCycle(g).Found? && |FindCycle(g).cycle| >= 2 && Walk(g, FindCycle(g).cycle)
    ensures e == Lightest(g, FindCycle(g).cycle)
  {
    var c, i :| SeversAt(g, c, i, e);
    FindCycleIsFirst(g, c);
    FindCycleCorrect(g);
    LightestIsBest(g, c);
    var j :| FirstBest(g, c, j) && Lightest(g, c) == ArcAt(c, j);
    assert i == j;
  }

  lemma {:induction false} LightestIsNext(g: Graph)
    requires FindCycle(g).Found?
    ensures |FindCycle(g).cycle| >= 2 && Walk(g, FindCycle(g).cycle)
    ensures NextSevered(g, Lightest(g, FindCycle(g).cycle))
  {
    var c := FindCycle(g).cycle;
    FindCycleIsFirst(g, c);
    FindCycleCorrect(g);
    LightestIsBest(g, c);
    var i :| FirstBest(g, c, i) && Lightest(g, c) == ArcAt(c, i);
    assert SeversAt(g, c, i, Lightest(g, c));
  }

  lemma {:induction false} MinusNothing(g: Graph)
    ensures Minus(g, {}) == g
  {
    forall a | a in g ensures Minus(g, {})[a] == g[a] {}
  }

  lemma {:induction false} MinusOneMore(g: Graph, gone: set<Arc>, e: Arc)
    requires InGraph(Minus(g, gone), e)
    ensures Minus(g, gone + {e}) == Without(Minus(g, gone), e)
  {
    var l, r := Minus(g, gone + {e}), Without(Minus(g, gone), e);
    forall a | a in g ensures l[a] == r[a] {
      assert l[a].Keys == r[a].Keys;
    }
  }

  /** One round of the loop severs the next arc. */
  lemma {:induction false} OneRound(h: Graph, gone: set<Arc>, e: Arc)
    requires NextSevered(h, e)
    ensures InGraph(h, e) && BreakFrom(h, gone) == BreakFrom(Without(h, e), gone + {e})
  {
    NextIsLightest(h, e);
    BreakFromNext(h, gone);
  }

  lemma {:induction false} LastRound(h: Graph, gone: set<Arc>)
    requires Acyclic(h)
    ensures BreakFrom(h, gone).blocked == gone
  {
    FindCycleCorrect(h);
    BreakFromNext(h, gone);
  }

  lemma {:induction false} AfterNext(g: Graph, es: seq<Arc>, k: nat)
    requires k < |es| && InGraph(After(g, es, k), es[k])
    ensures Members(es[..k + 1]) == Members(es[..k]) + {es[k]}
    ensures After(g, es, k + 1) == Without(After(g, es, k), es[k])
  {
    assert es[..k + 1] == es[..k] + [es[k]];
    MinusOneMore(g, Members(es[..k]), es[k]);
  }

  /** From the arcs severed so far, any completion of the order gives what the loop gives. */
  lemma {:induction false} LoopFollows(g: Graph, es: seq<Arc>, k: nat)
    requires IsSeverance(g, es) && k <= |es|
    ensures BreakFrom(After(g, es, k), Members(es[..k])).blocked == Members(es)
    decreases |es| - k
  {
    if k == |es| {
      assert es[..k] == es;
      LastRound(After(g, es, k), Members(es));
    } else {
      OneRound(After(g, es, k), Members(es[..k]), es[k]);
      AfterNext(g, es, k);
      LoopFollows(g, es, k + 1);
    }
  }

  lemma {:induction false} AppendNext(g: Graph, before: seq<Arc>, e: Arc)
    requires InOrder(g, before) && NextSevered(Minus(g, Members(before)), e)
    ensures InOrder(g, before + [e])
  {
    var more := before + [e];
    forall k | 0 <= k < |more| ensures NextSevered(After(g, more, k), more[k]) {
      assert more[..k] == before[..k];
      if k == |before| {
        assert before[..k] == before;
      } else {
        assert NextSevered(After(g, before, k), before[k]);
      }
    }
  }

  lemma {:induction false} FewerLeft(g: Graph, before: seq<Arc>, e: Arc)
    requires InGraph(Minus(g, Members(before)), e)
    ensures |Arcs(Minus(g, Members(before + [e])))| < |Arcs(Minus(g, Members(before)))|
  {
    assert Members(before + [e]) == Members(before) + {e};
    MinusOneMore(g, Members(before), e);
    WithoutRemovesOne(Minus(g, Members(before)), e);
  }

  lemma {:induction false} LoopGivesOrder(g: Graph, before: seq<Arc>) returns (es: seq<Arc>)
    requires InOrder(g, before)
    ensures IsSeverance(g, es)
    decreases |Arcs(Minus(g, Members(before)))|
  {
    var h := Minus(g, Members(before));
    FindCycleCorrect(h);
    if FindCycle(h).Clear? {
      es := before;
    } else {
      LightestIsNext(h);
      var e := Lightest(h, FindCycle(h).cycle);
      AppendNext(g, before, e);
      FewerLeft(g, before, e);
      es := LoopGivesOrder(g, before + [e]);
    }
  }

  /** ComputeBlockedImports blocks exactly the arcs of the severance order: there is one, and whoever follows one blocks
      the same set. */
  lemma {:induction false} BlockedIsSeverance(g: Graph)
    ensures exists es :: IsSeverance(g, es)
    ensures forall es :: IsSeverance(g, es) ==> BreakCycles(g).blocked == Members(es)
  {
    var order := LoopGivesOrder(g, []);
    MinusNothing(g);
    forall es | IsSeverance(g, es) ensures BreakCycles(g).blocked == Members(es) {
      assert es[..0] == [] && Members(es[..0]) == {};
      LoopFollows(g, es, 0);
    }
  }
}
