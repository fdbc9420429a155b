/**
The cross-namespace reference graph and its cycle search (findCycle): a depth-first search
over sorted nodes and sorted targets, as a function of the graph, proved sound and
complete.
*/
module ImportGraph {
  import opened Names

  /** For every namespace with references, how many go to which other namespace. */
  type Graph = map<Name, map<Name, int>>

  predicate Edge(g: Graph, a: Name, b: Name) {
    a in g && b in g[a]
  }

  function Weight(g: Graph, a: Name, b: Name): int
    requires Edge(g, a, b)
  {
    g[a][b]
  }

  function Targets(g: Graph, a: Name): set<Name> {
    if a in g then g[a].Keys else {}
  }

  ghost function Nodes(g: Graph): set<Name> {
    g.Keys + set a, b | a in g && b in g[a] :: b
  }

  // ---- what the search is about -------------------------------------------

  ghost predicate Walk(g: Graph, p: seq<Name>) {
    forall i :: 0 <= i < |p| - 1 ==> Edge(g, p[i], p[i + 1])
  }

  ghost predicate Distinct(p: seq<Name>) {
    forall i, j :: 0 <= i < j < |p| ==> p[i] != p[j]
  }

  /** v0, v1, ..., v0 along edges, at least one edge long. */
  ghost predicate ClosedWalk(g: Graph, p: seq<Name>) {
    |p| >= 2 && p[0] == p[|p| - 1] && Walk(g, p)
  }

  /** A closed walk that repeats nothing but its end. */
  ghost predicate IsCycle(g: Graph, p: seq<Name>) {
    ClosedWalk(g, p) && Distinct(p[..|p| - 1])
  }

  ghost predicate Acyclic(g: Graph) {
    forall p :: !ClosedWalk(g, p)
  }

  /** `order` lists nodes so that every edge out of a listed node goes to an earlier one. */
  ghost predicate Topological(g: Graph, order: seq<Name>) {
    && Distinct(order)
    && forall i, b :: 0 <= i < |order| && Edge(g, order[i], b) ==> b in order[..i]
  }

  // ---- the search ---------------------------------------------------------

  datatype Search = Found(cycle: seq<Name>) | Clear(done: seq<Name>)

  ghost function Unvisited(g: Graph, done: seq<Name>, stack: seq<Name>): set<Name> {
    Nodes(g) - Elements(done) - Elements(stack)
  }

  function LastIndex(stack: seq<Name>, target: Name): (i: nat)
    requires target in stack
    ensures i < |stack| && stack[i] == target
    ensures forall j :: i < j < |stack| ==> stack[j] != target
  {
    if stack[|stack| - 1] == target then |stack| - 1 else LastIndex(stack[..|stack| - 1], target)
  }

  /** From the last occurrence of `target` up to the top, closed with `target`. */
  function CutCycle(stack: seq<Name>, target: Name): seq<Name>
    requires target in stack
  {
    stack[LastIndex(stack, target)..] + [target]
  }

  /** Visit one node that is neither done nor on the stack. */
  ghost function Visit(g: Graph, done: seq<Name>, stack: seq<Name>, node: Name): (r: Search)
    requires node in Unvisited(g, done, stack)
    ensures r.Clear? ==> done <= r.done
    decreases |Unvisited(g, done, stack)|, 0
  {
    UnvisitedShrinks(g, done, stack, node);
    match Scan(g, done, stack + [node], Sorted(Targets(g, node)))
    case Found(cycle) => Found(cycle)
    case Clear(after) => Clear(after + [node])
  }

  /** The targets of the node on top of the stack, from `targets` on. */
  ghost function Scan(g: Graph, done: seq<Name>, stack: seq<Name>, targets: seq<Name>): (r: Search)
    requires forall t :: t in targets ==> t in Nodes(g)
    ensures r.Clear? ==> done <= r.done
    decreases |Unvisited(g, done, stack)|, |targets| + 1
  {
    if targets == [] then Clear(done)
    else if targets[0] in stack then Found(CutCycle(stack, targets[0]))
    else if targets[0] in done then Scan(g, done, stack, targets[1..])
    else
      match Visit(g, done, stack, targets[0])
      case Found(cycle) => Found(cycle)
      case Clear(after) =>
        UnvisitedMonotone(g, done, after, stack);
        Scan(g, after, stack, targets[1..])
  }

  /** Start from every node that has targets and is still unvisited. */
  ghost function SearchFrom(g: Graph, done: seq<Name>, nodes: seq<Name>): Search
    requires forall n :: n in nodes ==> n in Nodes(g)
    decreases |nodes|
  {
    if nodes == [] then Clear(done)
    else if nodes[0] in done then SearchFrom(g, done, nodes[1..])
    else
      match Visit(g, done, [], nodes[0])
      case Found(cycle) => Found(cycle)
      case Clear(after) => SearchFrom(g, after, nodes[1..])
  }

  ghost function FindCycle(g: Graph): Search {
    SearchFrom(g, [], Sorted(g.Keys))
  }

  lemma {:induction false} UnvisitedShrinks(g: Graph, done: seq<Name>, stack: seq<Name>, node: Name)
    requires node in Unvisited(g, done, stack)
    ensures |Unvisited(g, done, stack + [node])| < |Unvisited(g, done, stack)|
  {
    assert Unvisited(g, done, stack + [node]) == Unvisited(g, done, stack) - {node};
  }

  lemma {:induction false} UnvisitedMonotone(g: Graph, done: seq<Name>, after: seq<Name>, stack: seq<Name>)
    requires done <= after
    ensures |Unvisited(g, after, stack)| <= |Unvisited(g, done, stack)|
  {
    SmallerSet(Unvisited(g, after, stack), Unvisited(g, done, stack));
  }

  lemma {:induction false} SmallerSet<T>(a: set<T>, b: set<T>)
    requires a <= b
    ensures |a| <= |b|
  {
    assert b == a + (b - a);
  }

  // ---- soundness and completeness -----------------------------------------

  /** What the search knows on entry to a node or a scan. */
  ghost predicate SearchState(g: Graph, done: seq<Name>, stack: seq<Name>) {
    && Topological(g, done)
    && Walk(g, stack) && Distinct(stack)
    && (forall n :: n in stack ==> n !in done)
  }

  ghost predicate GoodResult(g: Graph, stack: seq<Name>, r: Search) {
    match r
    case Found(cycle) => IsCycle(g, cycle)
    case Clear(after) => Topological(g, after) && forall n :: n in stack ==> n !in after
  }

  lemma {:induction false} CutIsCycle(g: Graph, stack: seq<Name>, target: Name)
    requires Walk(g, stack) && Distinct(stack) && target in stack
    requires Edge(g, stack[|stack| - 1], target)
    ensures IsCycle(g, CutCycle(stack, target))
  {
    var tail := stack[LastIndex(stack, target)..];
    assert CutCycle(stack, target)[..|tail|] == tail;
  }

  lemma {:induction false} PushKeepsState(g: Graph, done: seq<Name>, stack: seq<Name>, node: Name)
    requires SearchState(g, done, stack) && node !in done && node !in stack
    requires stack != [] ==> Edge(g, stack[|stack| - 1], node)
    ensures SearchState(g, done, stack + [node])
  {}

  lemma {:induction false} FinishKeepsTopological(g: Graph, done: seq<Name>, node: Name)
    requires Topological(g, done) && node !in done
    requires forall b :: b in Targets(g, node) ==> b in done
    ensures Topological(g, done + [node])
  {
    var order := done + [node];
    forall i, b | 0 <= i < |order| && Edge(g, order[i], b) ensures b in order[..i] {
      if i < |done| {
        assert order[..i] == done[..i];
      } else {
        assert order[..i] == done;
      }
    }
  }

  lemma {:induction false} VisitGood(g: Graph, done: seq<Name>, stack: seq<Name>, node: Name)
    requires node in Unvisited(g, done, stack) && SearchState(g, done, stack)
    requires stack != [] ==> Edge(g, stack[|stack| - 1], node)
    ensures GoodResult(g, stack, Visit(g, done, stack, node))
    ensures Visit(g, done, stack, node).Clear? ==> node in Visit(g, done, stack, node).done
    decreases |Unvisited(g, done, stack)|, 0
  {
    UnvisitedShrinks(g, done, stack, node);
    PushKeepsState(g, done, stack, node);
    var targets := Sorted(Targets(g, node));
    ScanGood(g, done, stack + [node], targets);
    var r := Scan(g, done, stack + [node], targets);
    if r.Clear? {
      assert node in stack + [node];
      forall b | b in Targets(g, node) ensures b in r.done {
        assert b in targets;
      }
      FinishKeepsTopological(g, r.done, node);
      forall n | n in stack ensures n !in r.done + [node] {
        assert n in stack + [node];
      }
    }
  }

  lemma {:induction false} ScanGood(g: Graph, done: seq<Name>, stack: seq<Name>, targets: seq<Name>)
    requires stack != [] && SearchState(g, done, stack)
    requires forall t :: t in targets ==> t in Nodes(g) && Edge(g, stack[|stack| - 1], t)
    ensures GoodResult(g, stack, Scan(g, done, stack, targets))
    ensures Scan(g, done, stack, targets).Clear? ==> forall t :: t in targets ==> t in Scan(g, done, stack, targets).done
    decreases |Unvisited(g, done, stack)|, |targets| + 1
  {
    if targets != [] {
      var t := targets[0];
      if t in stack {
        assert t in targets;
        CutIsCycle(g, stack, t);
      } else if t in done {
        ScanGood(g, done, stack, targets[1..]);
      } else {
        VisitGood(g, done, stack, t);
        var r := Visit(g, done, stack, t);
        if r.Clear? {
          UnvisitedMonotone(g, done, r.done, stack);
          ScanGood(g, r.done, stack, targets[1..]);
        }
      }
    }
  }

  lemma {:induction false} SearchFromGood(g: Graph, done: seq<Name>, nodes: seq<Name>)
    requires (forall n :: n in nodes ==> n in Nodes(g)) && Topological(g, done)
    ensures GoodResult(g, [], SearchFrom(g, done, nodes))
    ensures SearchFrom(g, done, nodes).Clear? ==>
              done <= SearchFrom(g, done, nodes).done && forall n :: n in nodes ==> n in SearchFrom(g, done, nodes).done
    decreases |nodes|
  {
    if nodes != [] {
      if nodes[0] in done {
        SearchFromGood(g, done, nodes[1..]);
      } else {
        VisitGood(g, done, [], nodes[0]);
        var r := Visit(g, done, [], nodes[0]);
        if r.Clear? {
          SearchFromGood(g, r.done, nodes[1..]);
        }
      }
    }
  }

  // ---- rankings -----------------------------------------------------------

  /** `a` comes strictly after `b` in the ranking, so importing `b` from `a` closes no cycle. */
  ghost predicate Below(rank: map<Name, nat>, a: Name, b: Name) {
    a in rank && b in rank && rank[b] < rank[a]
  }

  /** Every edge of the graph strictly descends under `rank`. */
  ghost predicate Descends(g: Graph, rank: map<Name, nat>) {
    forall a, b :: Edge(g, a, b) ==> Below(rank, a, b)
  }

  ghost function Position(order: seq<Name>, n: Name): (i: nat)
    requires n in order
    ensures i < |order| && order[i] == n
  {
    var i :| 0 <= i < |order| && order[i] == n;
    i
  }

  ghost function RankOf(order: seq<Name>): map<Name, nat> {
    map n | n in order :: Position(order, n)
  }

  lemma {:induction false} TopologicalRanks(g: Graph, order: seq<Name>)
    requires Topological(g, order) && forall n :: n in g ==> n in order
    ensures Descends(g, RankOf(order))
  {
    var rank := RankOf(order);
    forall a, b | Edge(g, a, b) ensures a in rank && b in rank && rank[b] < rank[a] {
      var i := Position(order, a);
      assert b in order[..i];
      var j :| 0 <= j < i && order[j] == b;
      assert b in order && Position(order, b) == j;
    }
  }

  lemma {:induction false} WalkDescends(g: Graph, rank: map<Name, nat>, p: seq<Name>, i: nat)
    requires Descends(g, rank) && Walk(g, p) && 0 < i < |p|
    ensures p[0] in rank && p[i] in rank && rank[p[i]] < rank[p[0]]
  {
    assert Edge(g, p[i - 1], p[i]);
    if i > 1 {
      WalkDescends(g, rank, p, i - 1);
    }
  }

  lemma {:induction false} DescendingIsAcyclic(g: Graph, rank: map<Name, nat>)
    requires Descends(g, rank)
    ensures Acyclic(g)
  {
    forall p ensures !ClosedWalk(g, p) {
      if ClosedWalk(g, p) {
        WalkDescends(g, rank, p, |p| - 1);
      }
    }
  }

  /**
  findCycle is sound and complete: it reports nothing exactly when no closed walk exists, and
  what it reports is a cycle of the graph, of length at least two, along edges, with no
  node repeated but the end. When it reports nothing, its finishing order ranks the graph.
  */
  lemma {:induction false} FindCycleCorrect(g: Graph)
    ensures FindCycle(g).Clear? <==> Acyclic(g)
    ensures FindCycle(g).Found? ==> IsCycle(g, FindCycle(g).cycle)
    ensures FindCycle(g).Clear? ==> Descends(g, RankOf(FindCycle(g).done))
  {
    SearchFromGood(g, [], Sorted(g.Keys));
    match FindCycle(g) {
      case Found(cycle) => assert ClosedWalk(g, cycle);
      case Clear(order) =>
        TopologicalRanks(g, order);
        DescendingIsAcyclic(g, RankOf(order));
    }
  }
}
