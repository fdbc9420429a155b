/**
Which cycle findCycle reports. Because nodes and targets are taken in string order, it is one particular cycle, and it
can be said without the search: start at the first node from which some walk comes back on itself, go on
to the first such target each time, and stop at the first node met twice.
*/
module FirstCycle {
  import opened Names
  import opened ImportGraph

  /** A walk from `n` that meets some node twice. */
  ghost predicate ComesBack(g: Graph, n: Name, p: seq<Name>) {
    p != [] && p[0] == n && Walk(g, p) && !Distinct(p)
  }

  ghost predicate Doomed(g: Graph, n: Name) {
    exists p :: ComesBack(g, n, p)
  }

  /** The first doomed element of a set, in string order. */
  ghost predicate FirstDoomed(g: Graph, s: set<Name>, n: Name) {
    n in s && Doomed(g, n) && forall u :: u in s && Doomed(g, u) && u != n ==> Precedes(n, u)
  }

  /** A path from the first doomed source along first doomed targets. */
  ghost predicate DoomedPath(g: Graph, p: seq<Name>) {
    && p != [] && FirstDoomed(g, g.Keys, p[0])
    && ChosenFrom(g, p, 1)
  }

  /** The last node of `p` is the first one met twice, and `c` is the part from its first occurrence on. */
  ghost predicate ClosesWith(p: seq<Name>, c: seq<Name>) {
    |p| >= 2 && Distinct(p[..|p| - 1]) && exists i :: ClosesAt(p, i, c)
  }

  predicate ClosesAt(p: seq<Name>, i: int, c: seq<Name>) {
    0 <= i < |p| - 1 && p[i] == p[|p| - 1] && c == p[i..]
  }

  ghost predicate IsFirstCycle(g: Graph, c: seq<Name>) {
    exists p :: DoomedPath(g, p) && ClosesWith(p, c)
  }

  // ---- finished nodes are not doomed --------------------------------------

  lemma {:induction false} StaysBelow(g: Graph, order: seq<Name>, p: seq<Name>, i: nat, j: nat)
    requires Topological(g, order) && Walk(g, p) && p != [] && p[0] in order && i <= j < |p|
    ensures p[i] in order && p[j] in order
    ensures i < j ==> Position(order, p[j]) < Position(order, p[i])
    decreases j
  {
    if j > 0 {
      if i < j {
        StaysBelow(g, order, p, i, j - 1);
      } else {
        StaysBelow(g, order, p, i - 1, j - 1);
      }
      var m := Position(order, p[j - 1]);
      assert Edge(g, p[j - 1], p[j]);
      assert p[j] in order[..m];
      var l :| 0 <= l < m && order[l] == p[j];
      assert p[j] in order && Position(order, p[j]) == l;
    }
  }

  lemma {:induction false} FinishedNotDoomed(g: Graph, order: seq<Name>, n: Name)
    requires Topological(g, order) && n in order
    ensures !Doomed(g, n)
  {
    forall p ensures !ComesBack(g, n, p) {
      if p != [] && p[0] == n && Walk(g, p) {
        forall i, j | 0 <= i < j < |p| ensures p[i] != p[j] {
          StaysBelow(g, order, p, i, j);
        }
      }
    }
  }

  // ---- what the search has found ------------------------------------------

  /** `p` goes on from the stack along first doomed targets and closes with `c`. */
  ghost predicate Completes(g: Graph, stack: seq<Name>, c: seq<Name>, p: seq<Name>) {
    && |stack| < |p| && p[..|stack|] == stack && Walk(g, p) && ClosesWith(p, c)
    && ChosenFrom(g, p, |stack|)
  }

  /** From position `from` on, each node is the first doomed target of the one before. */
  ghost predicate ChosenFrom(g: Graph, p: seq<Name>, from: nat) {
    forall k :: 0 < k < |p| && from <= k ==> Chosen(g, p, k)
  }

  ghost predicate Chosen(g: Graph, p: seq<Name>, k: int)
    requires 0 < k < |p|
  {
    FirstDoomed(g, Targets(g, p[k - 1]), p[k])
  }

  /** Every node of a path that closes is doomed. */
  lemma {:induction false} OnPathDoomed(g: Graph, p: seq<Name>, i: int, c: seq<Name>, k: nat)
    requires Walk(g, p) && ClosesAt(p, i, c) && k < |p|
    ensures Doomed(g, p[k])
  {
    if k <= i {
      var q := p[k..];
      assert q[i - k] == q[|q| - 1];
      assert ComesBack(g, p[k], q);
    } else {
      var q := p[k..] + p[i + 1..k + 1];
      assert q[0] == p[k] && q[|q| - 1] == p[k];
      forall m | 0 <= m < |q| - 1 ensures Edge(g, q[m], q[m + 1]) {
        if m < |p| - k - 1 {
          assert q[m] == p[k + m] && q[m + 1] == p[k + m + 1];
        } else {
          var l := i + m - (|p| - k - 1);
          assert q[m] == p[l] && q[m + 1] == p[l + 1];
        }
      }
      assert ComesBack(g, p[k], q);
    }
  }

  /** The names before the `i`-th are all finished. */
  ghost predicate Passed(all: seq<Name>, i: nat, done: seq<Name>) {
    forall j :: 0 <= j < i && j < |all| ==> all[j] in done
  }

  lemma {:induction false} FirstOfSorted(g: Graph, s: set<Name>, all: seq<Name>, done: seq<Name>, i: nat)
    requires all == Sorted(s) && i < |all| && Topological(g, done) && Doomed(g, all[i])
    requires Passed(all, i, done)
    ensures FirstDoomed(g, s, all[i])
  {
    assert all[i] in all;
    forall u | u in s && Doomed(g, u) && u != all[i] ensures Precedes(all[i], u) {
      assert u in all;
      var j :| 0 <= j < |all| && all[j] == u;
      if j < i {
        FinishedNotDoomed(g, done, u);
      }
      LessIsPrecedes(all[i], u);
    }
  }

  lemma {:induction false} VisitCompletes(g: Graph, done: seq<Name>, stack: seq<Name>, node: Name, c: seq<Name>) returns (p: seq<Name>)
    requires node in Unvisited(g, done, stack) && SearchState(g, done, stack)
    requires stack != [] ==> Edge(g, stack[|stack| - 1], node)
    requires Visit(g, done, stack, node) == Found(c)
    ensures Completes(g, stack + [node], c, p)
    decreases |Unvisited(g, done, stack)|, 0
  {
    UnvisitedShrinks(g, done, stack, node);
    PushKeepsState(g, done, stack, node);
    var all := Sorted(Targets(g, node));
    assert all[0..] == all;
    p := ScanCompletes(g, done, stack + [node], all, 0, c);
  }

  lemma {:induction false} ScanCompletes(g: Graph, done: seq<Name>, stack: seq<Name>, all: seq<Name>, i: nat, c: seq<Name>)
    returns (p: seq<Name>)
    requires stack != [] && SearchState(g, done, stack) && all == Sorted(Targets(g, stack[|stack| - 1]))
    requires forall t :: t in all ==> t in Nodes(g) && Edge(g, stack[|stack| - 1], t)
    requires i <= |all| && Passed(all, i, done)
    requires Scan(g, done, stack, all[i..]) == Found(c)
    ensures Completes(g, stack, c, p)
    decreases |Unvisited(g, done, stack)|, |all| + 1 - i
  {
    var after := ScanUnfolds(g, done, stack, all, i, c);
    var t := all[i];
    if t in stack {
      p := stack + [t];
      CompletedAtTop(g, done, stack, all, i);
    } else if t !in done && Visit(g, done, stack, t) == Found(c) {
      p := VisitCompletes(g, done, stack, t, c);
      ThroughTarget(g, done, stack, all, i, c, p);
    } else {
      AfterTarget(g, done, stack, all, i, after);
      p := ScanCompletes(g, after, stack, all, i + 1, c);
    }
  }

  /** What is finished when the search goes on past a target. */
  lemma {:induction false} AfterTarget(g: Graph, done: seq<Name>, stack: seq<Name>, all: seq<Name>, i: nat, after: seq<Name>)
    requires stack != [] && SearchState(g, done, stack) && i < |all| && Passed(all, i, done)
    requires all[i] in Nodes(g) && Edge(g, stack[|stack| - 1], all[i]) && all[i] !in stack
    requires if all[i] in done then after == done else Visit(g, done, stack, all[i]) == Clear(after)
    ensures SearchState(g, after, stack) && Passed(all, i + 1, after)
    ensures |Unvisited(g, after, stack)| <= |Unvisited(g, done, stack)|
  {
    if all[i] !in done {
      TargetVisited(g, done, stack, all[i], after);
    }
    PassedNext(all, i, done, after);
  }

  lemma {:induction false} PassedNext(all: seq<Name>, i: nat, done: seq<Name>, after: seq<Name>)
    requires i < |all| && Passed(all, i, done) && done <= after && all[i] in after
    ensures Passed(all, i + 1, after)
  {}

  lemma {:induction false} TargetVisited(g: Graph, done: seq<Name>, stack: seq<Name>, t: Name, after: seq<Name>)
    requires stack != [] && SearchState(g, done, stack) && t in Unvisited(g, done, stack) && Edge(g, stack[|stack| - 1], t)
    requires Visit(g, done, stack, t) == Clear(after)
    ensures SearchState(g, after, stack) && t in after && done <= after
    ensures |Unvisited(g, after, stack)| <= |Unvisited(g, done, stack)|
  {
    VisitGood(g, done, stack, t);
    UnvisitedMonotone(g, done, after, stack);
  }

  /** A scan that finds a cycle still has a target to look at: it closes the cycle, leads to it, or is passed. */
  lemma {:induction false} ScanUnfolds(g: Graph, done: seq<Name>, stack: seq<Name>, all: seq<Name>, i: nat, c: seq<Name>)
    returns (after: seq<Name>)
    requires i <= |all| && forall t :: t in all ==> t in Nodes(g)
    requires Scan(g, done, stack, all[i..]) == Found(c)
    ensures i < |all| && all[i] in all
    ensures all[i] in stack ==> c == CutCycle(stack, all[i])
    ensures all[i] !in stack && all[i] !in done ==> Visit(g, done, stack, all[i]) in {Found(c), Clear(after)}
    ensures all[i] !in stack && (all[i] in done || Visit(g, done, stack, all[i]).Clear?) ==>
      && Scan(g, after, stack, all[i + 1..]) == Found(c)
      && (all[i] in done ==> after == done)
  {
    assert all[|all|..] == [];
    assert all[i] in all && all[i..][0] == all[i] && all[i..][1..] == all[i + 1..];
    after := done;
    if all[i] !in stack && all[i] !in done && Visit(g, done, stack, all[i]).Clear? {
      after := Visit(g, done, stack, all[i]).done;
    }
  }

  lemma {:induction false} CompletedAtTop(g: Graph, done: seq<Name>, stack: seq<Name>, all: seq<Name>, i: nat)
    requires stack != [] && SearchState(g, done, stack) && all == Sorted(Targets(g, stack[|stack| - 1]))
    requires i < |all| && Passed(all, i, done) && all[i] in stack && Edge(g, stack[|stack| - 1], all[i])
    ensures Completes(g, stack, CutCycle(stack, all[i]), stack + [all[i]])
  {
    var t := all[i];
    var p := stack + [t];
    ClosedAtTop(g, stack, t);
    OnPathDoomed(g, p, LastIndex(stack, t), CutCycle(stack, t), |stack|);
    FirstOfSorted(g, Targets(g, stack[|stack| - 1]), all, done, i);
    assert Chosen(g, p, |stack|);
    ChosenLast(g, p);
  }

  lemma {:induction false} ChosenLast(g: Graph, p: seq<Name>)
    requires |p| >= 2 && Chosen(g, p, |p| - 1)
    ensures ChosenFrom(g, p, |p| - 1)
  {}

  lemma {:induction false} ClosedAtTop(g: Graph, stack: seq<Name>, t: Name)
    requires stack != [] && Walk(g, stack) && Distinct(stack) && t in stack && Edge(g, stack[|stack| - 1], t)
    ensures Walk(g, stack + [t]) && ClosesWith(stack + [t], CutCycle(stack, t))
    ensures ClosesAt(stack + [t], LastIndex(stack, t), CutCycle(stack, t))
  {
    var p, i := stack + [t], LastIndex(stack, t);
    assert p[..|p| - 1] == stack;
    assert p[i..] == CutCycle(stack, t);
    assert ClosesAt(p, i, CutCycle(stack, t));
  }

  lemma {:induction false} ThroughTarget(g: Graph, done: seq<Name>, stack: seq<Name>, all: seq<Name>, i: nat, c: seq<Name>, p: seq<Name>)
    requires stack != [] && Topological(g, done) && all == Sorted(Targets(g, stack[|stack| - 1]))
    requires i < |all| && Passed(all, i, done) && Completes(g, stack + [all[i]], c, p)
    ensures Completes(g, stack, c, p)
  {
    var top, t := stack[|stack| - 1], all[i];
    var longer := stack + [t];
    assert p[..|stack|] == p[..|longer|][..|stack|] == stack;
    assert p[|stack|] == p[..|longer|][|stack|] == t;
    assert p[|stack| - 1] == p[..|stack|][|stack| - 1] == top;
    var m :| ClosesAt(p, m, c);
    OnPathDoomed(g, p, m, c, |stack|);
    FirstOfSorted(g, Targets(g, top), all, done, i);
  }

  lemma {:induction false} SearchCompletes(g: Graph, done: seq<Name>, all: seq<Name>, i: nat, c: seq<Name>) returns (p: seq<Name>)
    requires all == Sorted(g.Keys) && (forall n :: n in all ==> n in Nodes(g))
    requires i <= |all| && Topological(g, done) && Passed(all, i, done)
    requires SearchFrom(g, done, all[i..]) == Found(c)
    ensures DoomedPath(g, p) && ClosesWith(p, c)
    decreases |all| - i
  {
    var after := SearchUnfolds(g, done, all, i, c);
    if all[i] !in done && Visit(g, done, [], all[i]) == Found(c) {
      p := VisitCompletes(g, done, [], all[i], c);
      FromSource(g, done, all, i, c, p);
    } else {
      p := SearchCompletes(g, after, all, i + 1, c);
    }
  }

  lemma {:induction false} SearchUnfolds(g: Graph, done: seq<Name>, all: seq<Name>, i: nat, c: seq<Name>) returns (after: seq<Name>)
    requires i <= |all| && (forall n :: n in all ==> n in Nodes(g)) && Topological(g, done) && Passed(all, i, done)
    requires SearchFrom(g, done, all[i..]) == Found(c)
    ensures i < |all| && all[i] in Nodes(g)
    ensures (all[i] !in done && Visit(g, done, [], all[i]) == Found(c))
         || (Topological(g, after) && Passed(all, i + 1, after) && SearchFrom(g, after, all[i + 1..]) == Found(c))
  {
    assert all[|all|..] == [];
    assert all[i] in all && all[i..][0] == all[i] && all[i..][1..] == all[i + 1..];
    after := done;
    if all[i] !in done {
      VisitGood(g, done, [], all[i]);
      if Visit(g, done, [], all[i]).Clear? {
        after := Visit(g, done, [], all[i]).done;
      }
    }
  }

  lemma {:induction false} FromSource(g: Graph, done: seq<Name>, all: seq<Name>, i: nat, c: seq<Name>, p: seq<Name>)
    requires all == Sorted(g.Keys) && i < |all| && Topological(g, done) && Passed(all, i, done)
    requires Completes(g, [all[i]], c, p)
    ensures DoomedPath(g, p)
  {
    assert p[0] == p[..1][0] == all[i];
    var m :| ClosesAt(p, m, c);
    OnPathDoomed(g, p, m, c, 0);
    FirstOfSorted(g, g.Keys, all, done, i);
  }

  // ---- there is only one --------------------------------------------------

  lemma {:induction false} FirstDoomedUnique(g: Graph, s: set<Name>, a: Name, b: Name)
    requires FirstDoomed(g, s, a) && FirstDoomed(g, s, b)
    ensures a == b
  {
    LessIsPrecedes(a, b);
    LessIsPrecedes(b, a);
    LessTrichotomy(a, b);
  }

  lemma {:induction false} PathsAgree(g: Graph, p: seq<Name>, q: seq<Name>, k: nat)
    requires DoomedPath(g, p) && DoomedPath(g, q) && k < |p| && k < |q|
    ensures p[k] == q[k]
    decreases k
  {
    if k == 0 {
      FirstDoomedUnique(g, g.Keys, p[0], q[0]);
    } else {
      PathsAgree(g, p, q, k - 1);
      assert Chosen(g, p, k) && Chosen(g, q, k);
      FirstDoomedUnique(g, Targets(g, p[k - 1]), p[k], q[k]);
    }
  }

  lemma {:induction false} NotLonger(g: Graph, p: seq<Name>, c: seq<Name>, q: seq<Name>, d: seq<Name>)
    requires DoomedPath(g, p) && DoomedPath(g, q) && ClosesWith(p, c) && ClosesWith(q, d)
    ensures |q| <= |p|
  {
    if |p| < |q| {
      var i :| ClosesAt(p, i, c);
      PathsAgree(g, p, q, i);
      PathsAgree(g, p, q, |p| - 1);
      MeetsTwice(q, i, |p| - 1);
    }
  }

  lemma {:induction false} MeetsTwice(q: seq<Name>, i: int, j: int)
    requires 0 <= i < j < |q| - 1 && q[i] == q[j]
    ensures !Distinct(q[..|q| - 1])
  {
    var front := q[..|q| - 1];
    assert front[i] == front[j];
  }

  lemma {:induction false} FirstCycleUnique(g: Graph, c: seq<Name>, d: seq<Name>)
    requires IsFirstCycle(g, c) && IsFirstCycle(g, d)
    ensures c == d
  {
    var p :| DoomedPath(g, p) && ClosesWith(p, c);
    var q :| DoomedPath(g, q) && ClosesWith(q, d);
    NotLonger(g, p, c, q, d);
    NotLonger(g, q, d, p, c);
    forall k | 0 <= k < |p| ensures p[k] == q[k] {
      PathsAgree(g, p, q, k);
    }
    assert p == q;
    var i :| ClosesAt(p, i, c);
    var j :| ClosesAt(q, j, d);
    var front := p[..|p| - 1];
    assert front[i] == front[j];
  }

  /** findCycle reports exactly the first cycle: it reports a cycle if and only if there is one, and then this one. */
  lemma {:induction false} FindCycleIsFirst(g: Graph, c: seq<Name>)
    ensures FindCycle(g) == Found(c) <==> IsFirstCycle(g, c)
  {
    var all := Sorted(g.Keys);
    assert all[0..] == all;
    if FindCycle(g).Found? {
      var p := SearchCompletes(g, [], all, 0, FindCycle(g).cycle);
      assert IsFirstCycle(g, FindCycle(g).cycle);
      if IsFirstCycle(g, c) {
        FirstCycleUnique(g, c, FindCycle(g).cycle);
      }
    } else if IsFirstCycle(g, c) {
      FirstCycleIsCycle(g, c);
      FindCycleCorrect(g);
      assert false;
    }
  }

  lemma {:induction false} FirstCycleIsCycle(g: Graph, c: seq<Name>)
    requires IsFirstCycle(g, c)
    ensures ClosedWalk(g, c)
  {
    var p :| DoomedPath(g, p) && ClosesWith(p, c);
    var i :| ClosesAt(p, i, c);
    forall k | 0 <= k < |c| - 1 ensures Edge(g, c[k], c[k + 1]) {
      assert Chosen(g, p, i + k + 1);
    }
  }
}
