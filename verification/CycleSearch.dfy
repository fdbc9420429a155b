/**
findCycle as it runs: a depth-first search over a state map and a stack that it mutates. Map keys
arrive in an arbitrary order and are sorted; the search is proved to compute ImportGraph's
function of the graph.
*/
module CycleSearch {
  import opened Names
  import opened ImportGraph

  // ---- findCycle ----------------------------------------------------------

  datatype Mark = Unvisited | InStack | Done

  class CycleFinder {
    const edges: Graph
    var state: map<Name, Mark>
    var stack: seq<Name>
    var cycle: seq<Name>
    /** The finished nodes, in finishing order. */
    ghost var finished: seq<Name>

    constructor (edges: Graph)
      ensures this.edges == edges && Valid() && stack == [] && finished == []
    {
      this.edges := edges;
      state, stack, cycle, finished := map[], [], [], [];
    }

    /** A missing entry of a Go map reads as its zero value. */
    function MarkOf(n: Name): Mark
      reads this`state
    {
      if n in state then state[n] else Unvisited
    }

    ghost predicate Valid()
      reads this
    {
      && (forall n :: MarkOf(n).InStack? <==> n in stack)
      && (forall n :: MarkOf(n).Done? <==> n in finished)
    }

    /** Close the cycle at `target`, found by scanning down from the top of the stack. */
    method Cut(target: Name)
      requires target in stack
      modifies this`cycle
      ensures cycle == CutCycle(stack, target)
    {
      var i := |stack| - 1;
      while stack[i] != target
        invariant 0 <= i < |stack|
        invariant forall j :: i < j < |stack| ==> stack[j] != target
        decreases i
      {
        i := i - 1;
      }
      assert i == LastIndex(stack, target);
      cycle := stack[i..] + [target];
    }

    method Push(node: Name)
      requires Valid() && MarkOf(node).Unvisited?
      modifies this`state, this`stack
      ensures Valid() && stack == old(stack) + [node]
    {
      state := state[node := InStack];
      stack := stack + [node];
    }

    method Finish(node: Name)
      requires Valid() && stack != [] && stack[|stack| - 1] == node && node !in stack[..|stack| - 1]
      modifies this`state, this`stack, this`finished
      ensures Valid() && stack == old(stack)[..|old(stack)| - 1] && finished == old(finished) + [node]
    {
      ghost var below := stack[..|stack| - 1];
      assert stack == below + [node];
      assert forall n :: n in stack <==> n in below || n == node;
      stack := stack[..|stack| - 1];
      state := state[node := Done];
      finished := finished + [node];
    }

    /** Visit one node and, unless a cycle turns up, everything it reaches. */
    method Visit(node: Name) returns (found: bool)
      requires Valid() && node in ImportGraph.Unvisited(edges, finished, stack)
      modifies this
      ensures found ==> ImportGraph.Visit(edges, old(finished), old(stack), node) == Found(cycle)
      ensures !found ==>
        && Valid() && stack == old(stack)
        && ImportGraph.Visit(edges, old(finished), old(stack), node) == Clear(finished)
      decreases |ImportGraph.Unvisited(edges, finished, stack)|, 0
    {
      ghost var scan := VisitUnfolds(edges, finished, stack, node);
      Push(node);
      assert stack[..|stack| - 1] == old(stack);
      found := VisitTargets(node);
      assert found ==> scan == Found(cycle);
      assert !found ==> scan == Clear(finished);
      if !found {
        Finish(node);
      }
    }

    /** The loop over the sorted targets of the node on top of the stack. */
    method VisitTargets(node: Name) returns (found: bool)
      requires Valid() && forall t :: t in Sorted(Targets(edges, node)) ==> t in Nodes(edges)
      modifies this
      ensures found ==> Scan(edges, old(finished), old(stack), Sorted(Targets(edges, node))) == Found(cycle)
      ensures !found ==> Valid() && Scan(edges, old(finished), old(stack), Sorted(Targets(edges, node))) == Clear(finished)
      ensures !found ==> stack == old(stack)
      decreases |ImportGraph.Unvisited(edges, finished, stack)|, 2
    {
      var targets := SortedKeys(if node in edges then edges[node].Keys else {});
      ghost var goal, below := Scan(edges, finished, stack, targets), stack;
      assert targets[0..] == targets;
      for i := 0 to |targets|
        invariant Valid() && stack == below && old(finished) <= finished
        invariant Scan(edges, finished, below, targets[i..]) == goal
      {
        ScanNext(edges, finished, below, targets, i);
        UnvisitedMonotone(edges, old(finished), finished, below);
        found := VisitTarget(targets[i]);
        if found {
          return;
        }
      }
      assert targets[|targets|..] == [];
      found := false;
    }

    /** The body of that loop. */
    method VisitTarget(target: Name) returns (found: bool)
      requires Valid() && target in Nodes(edges)
      modifies this
      ensures found ==> ScanOne(edges, old(finished), old(stack), target) == Found(cycle)
      ensures !found ==> Valid() && ScanOne(edges, old(finished), old(stack), target) == Clear(finished)
      ensures !found ==> stack == old(stack) && old(finished) <= finished
      decreases |ImportGraph.Unvisited(edges, finished, stack)|, 1
    {
      if MarkOf(target).InStack? {
        Cut(target);
        found := true;
      } else if MarkOf(target).Unvisited? {
        found := Visit(target);
      } else {
        found := false;
      }
    }

    /** The outer loop: nil (false), or one cycle. */
    method Run() returns (found: bool)
      requires Valid() && stack == [] && finished == []
      modifies this
      ensures found ==> ImportGraph.FindCycle(edges) == Found(cycle)
      ensures !found ==> ImportGraph.FindCycle(edges) == Clear(finished)
    {
      var nodes := SortedKeys(edges.Keys);
      assert nodes[0..] == nodes;
      for i := 0 to |nodes|
        invariant Valid() && stack == []
        invariant SearchFrom(edges, finished, nodes[i..]) == ImportGraph.FindCycle(edges)
      {
        assert nodes[i..][1..] == nodes[i + 1..];
        if MarkOf(nodes[i]).Unvisited? {
          found := Visit(nodes[i]);
          if found {
            return true;
          }
        }
      }
      assert nodes[|nodes|..] == [];
      found := false;
    }
  }

  /** Visiting a node is scanning its targets with the node pushed, then finishing it. */
  lemma {:induction false} VisitUnfolds(g: Graph, done: seq<Name>, stack: seq<Name>, node: Name) returns (scan: Search)
    requires node in ImportGraph.Unvisited(g, done, stack)
    ensures node !in stack && node !in done
    ensures |ImportGraph.Unvisited(g, done, stack + [node])| < |ImportGraph.Unvisited(g, done, stack)|
    ensures forall t :: t in Sorted(Targets(g, node)) ==> t in Nodes(g)
    ensures scan == Scan(g, done, stack + [node], Sorted(Targets(g, node)))
    ensures ImportGraph.Visit(g, done, stack, node)
         == match scan
            case Found(cycle) => Found(cycle)
            case Clear(after) => Clear(after + [node])
  {
    UnvisitedShrinks(g, done, stack, node);
    scan := Scan(g, done, stack + [node], Sorted(Targets(g, node)));
  }

  /** What one target does to the search. */
  ghost function ScanOne(g: Graph, done: seq<Name>, stack: seq<Name>, t: Name): Search
    requires t in Nodes(g)
  {
    if t in stack then Found(CutCycle(stack, t))
    else if t in done then Clear(done)
    else ImportGraph.Visit(g, done, stack, t)
  }

  /** One turn of the loop over sorted targets. */
  lemma {:induction false} ScanNext(g: Graph, done: seq<Name>, stack: seq<Name>, targets: seq<Name>, i: nat)
    requires i < |targets| && forall t :: t in targets ==> t in Nodes(g)
    ensures targets[i] in Nodes(g)
    ensures Scan(g, done, stack, targets[i..])
         == match ScanOne(g, done, stack, targets[i])
            case Found(cycle) => Found(cycle)
            case Clear(after) => Scan(g, after, stack, targets[i + 1..])
  {
    assert targets[i] in targets;
    assert targets[i..][0] == targets[i] && targets[i..][1..] == targets[i + 1..];
  }
}
