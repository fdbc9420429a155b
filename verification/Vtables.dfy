/**
Vtable layout: VtableStartSlot over the interface index, against the chain of ancestors it
walks (internal/codegen/pipeline/loader.go).
*/
module Vtables {
  import opened Names
  import opened Metadata

  type InterfaceIndex = map<Name, ComInterface>

  /** qualified: the "Api.Name" index key. */
  function Qualified(api: Name, name: Name): Name {
    api + "." + name
  }

  function BaseKey(c: ComInterface): Name {
    Qualified(c.baseInterfaceApi, c.baseInterface)
  }

  predicate HasBase(c: ComInterface) {
    c.baseInterface != ""
  }

  // ---- ancestry -----------------------------------------------------------

  /** `p` lists the proper ancestors of `c`, nearest first, all indexed, the last without a base. */
  ghost predicate IsAncestry(index: InterfaceIndex, c: ComInterface, p: seq<Name>)
    decreases |p|
  {
    if !HasBase(c) then p == []
    else p != [] && p[0] == BaseKey(c) && p[0] in index && IsAncestry(index, index[p[0]], p[1..])
  }

  /** The base chain is finite and fully resolved. */
  ghost predicate Resolved(index: InterfaceIndex, c: ComInterface) {
    exists p :: IsAncestry(index, c, p)
  }

  function MethodsOf(index: InterfaceIndex, p: seq<Name>): nat {
    if p == [] then 0
    else (if p[0] in index then |index[p[0]].methods| else 0) + MethodsOf(index, p[1..])
  }

  lemma {:induction false} AncestryUnique(index: InterfaceIndex, c: ComInterface, p: seq<Name>, q: seq<Name>)
    requires IsAncestry(index, c, p) && IsAncestry(index, c, q)
    ensures p == q
    decreases |p|
  {
    if p != [] {
      AncestryUnique(index, index[p[0]], p[1..], q[1..]);
      assert p == [p[0]] + p[1..] && q == [q[0]] + q[1..];
    }
  }

  /** What is left of an ancestry from its `i`-th member on. */
  lemma {:induction false} AncestrySuffix(index: InterfaceIndex, c: ComInterface, p: seq<Name>, i: nat)
    requires IsAncestry(index, c, p) && i < |p|
    ensures p[i] in index && IsAncestry(index, index[p[i]], p[i + 1..])
    decreases i
  {
    if i > 0 {
      AncestrySuffix(index, index[p[0]], p[1..], i - 1);
      assert p[1..][i..] == p[i + 1..];
    }
  }

  /** No interface is its own ancestor in a finite chain. */
  lemma {:induction false} AncestryDistinct(index: InterfaceIndex, c: ComInterface, p: seq<Name>)
    requires IsAncestry(index, c, p)
    ensures forall i, j :: 0 <= i < j < |p| ==> p[i] != p[j]
  {
    forall i, j | 0 <= i < j < |p| ensures p[i] != p[j] {
      AncestrySuffix(index, c, p, i);
      AncestrySuffix(index, c, p, j);
      if p[i] == p[j] {
        AncestryUnique(index, index[p[i]], p[i + 1..], p[j + 1..]);
      }
    }
  }

  // ---- the loop -----------------------------------------------------------

  /** What the loop returns from `current` with the keys `seen` and the slots so far. */
  function WalkBases(index: InterfaceIndex, current: ComInterface, seen: set<Name>, slot: nat): (nat, bool)
    decreases |index.Keys - seen|
  {
    if !HasBase(current) then (slot, true)
    else
      var key := BaseKey(current);
      if key in seen || key !in index then (0, false)
      else
        assert index.Keys - (seen + {key}) == index.Keys - seen - {key};
        WalkBases(index, index[key], seen + {key}, slot + |index[key].methods|)
  }

  function StartSlot(index: InterfaceIndex, api: Name, name: Name): (nat, bool) {
    var key := Qualified(api, name);
    if key in index then WalkBases(index, index[key], {}, 0) else (0, true)
  }

  lemma {:induction false} WalkFailsAtZero(index: InterfaceIndex, current: ComInterface, seen: set<Name>, slot: nat)
    ensures !WalkBases(index, current, seen, slot).1 ==> WalkBases(index, current, seen, slot).0 == 0
    decreases |index.Keys - seen|
  {
    if HasBase(current) && BaseKey(current) !in seen && BaseKey(current) in index {
      var key := BaseKey(current);
      assert index.Keys - (seen + {key}) == index.Keys - seen - {key};
      WalkFailsAtZero(index, index[key], seen + {key}, slot + |index[key].methods|);
    }
  }

  lemma {:induction false} FailsAtZero(index: InterfaceIndex, api: Name, name: Name)
    ensures !StartSlot(index, api, name).1 ==> StartSlot(index, api, name).0 == 0
    ensures api + "." + name !in index ==> StartSlot(index, api, name) == (0, true)
  {
    if Qualified(api, name) in index {
      WalkFailsAtZero(index, index[Qualified(api, name)], {}, 0);
    }
  }

  /** VtableStartSlot as it runs, over `slot`, `seen` and `current`. It ends on every registry,
      because `seen` only grows inside the index. */
  method VtableStartSlot(index: InterfaceIndex, api: Name, name: Name) returns (slot: nat, ok: bool)
    ensures (slot, ok) == StartSlot(index, api, name)
    ensures api + "." + name !in index ==> slot == 0 && ok
    ensures !ok ==> slot == 0
  {
    FailsAtZero(index, api, name);
    slot, ok := 0, true;
    var seen: set<Name> := {};
    var key := Qualified(api, name);
    if key !in index {
      return;
    }
    var current := index[key];
    while HasBase(current)
      invariant WalkBases(index, current, seen, slot) == StartSlot(index, api, name)
      decreases |index.Keys - seen|
    {
      key := BaseKey(current);
      if key in seen || key !in index {
        return 0, false;
      }
      assert index.Keys - (seen + {key}) == index.Keys - seen - {key};
      seen := seen + {key};
      slot := slot + |index[key].methods|;
      current := index[key];
    }
  }

  lemma {:induction false} WalkOfAncestry(index: InterfaceIndex, c: ComInterface, seen: set<Name>, slot: nat, p: seq<Name>)
    requires IsAncestry(index, c, p)
    requires forall i, j :: 0 <= i < j < |p| ==> p[i] != p[j]
    requires forall k :: k in p ==> k !in seen
    ensures WalkBases(index, c, seen, slot) == (slot + MethodsOf(index, p), true)
    decreases |p|
  {
    if p != [] {
      assert p[0] in p;
      forall k | k in p[1..] ensures k !in seen + {p[0]} {
        assert k in p;
      }
      assert index.Keys - (seen + {p[0]}) == index.Keys - seen - {p[0]};
      WalkOfAncestry(index, index[p[0]], seen + {p[0]}, slot + |index[p[0]].methods|, p[1..]);
    }
  }

  lemma {:induction false} WalkOkResolves(index: InterfaceIndex, c: ComInterface, seen: set<Name>, slot: nat)
    requires WalkBases(index, c, seen, slot).1
    ensures Resolved(index, c)
    decreases |index.Keys - seen|
  {
    if !HasBase(c) {
      assert IsAncestry(index, c, []);
    } else {
      var key := BaseKey(c);
      assert index.Keys - (seen + {key}) == index.Keys - seen - {key};
      WalkOkResolves(index, index[key], seen + {key}, slot + |index[key].methods|);
      var p :| IsAncestry(index, index[key], p);
      assert ([key] + p)[1..] == p;
      assert IsAncestry(index, c, [key] + p);
    }
  }

  ghost predicate Ok(index: InterfaceIndex, api: Name, name: Name) {
    StartSlot(index, api, name).1
  }

  /**
  For an indexed interface, VtableStartSlot succeeds exactly when the base chain is finite and fully
  resolved, and then returns the number of methods of all proper ancestors.
  */
  lemma {:induction false} StartSlotCorrect(index: InterfaceIndex, api: Name, name: Name)
    requires Qualified(api, name) in index
    ensures Ok(index, api, name) <==> Resolved(index, index[Qualified(api, name)])
    ensures forall p :: IsAncestry(index, index[Qualified(api, name)], p) ==>
              StartSlot(index, api, name) == (MethodsOf(index, p), true)
  {
    var c := index[Qualified(api, name)];
    forall p | IsAncestry(index, c, p) ensures StartSlot(index, api, name) == (MethodsOf(index, p), true) {
      AncestryDistinct(index, c, p);
      WalkOfAncestry(index, c, {}, 0, p);
    }
    if Ok(index, api, name) {
      WalkOkResolves(index, c, {}, 0);
    }
  }

  // ---- tiling -------------------------------------------------------------

  /** An interface starts where its base ends, and is laid out exactly when its base is. */
  lemma {:induction false} StartsWhereBaseEnds(index: InterfaceIndex, api: Name, name: Name)
    requires Qualified(api, name) in index && HasBase(index[Qualified(api, name)])
    ensures var d := index[Qualified(api, name)];
            var baseIndexed := BaseKey(d) in index;
            && (Ok(index, api, name) <==> baseIndexed && Ok(index, d.baseInterfaceApi, d.baseInterface))
            && (Ok(index, api, name) ==>
                  StartSlot(index, api, name).0
                  == StartSlot(index, d.baseInterfaceApi, d.baseInterface).0 + |index[BaseKey(d)].methods|)
  {
    var d := index[Qualified(api, name)];
    StartSlotCorrect(index, api, name);
    if BaseKey(d) in index {
      var b := index[BaseKey(d)];
      StartSlotCorrect(index, d.baseInterfaceApi, d.baseInterface);
      if Resolved(index, d) {
        var p :| IsAncestry(index, d, p);
        assert IsAncestry(index, b, p[1..]);
      }
      if Resolved(index, b) {
        var q :| IsAncestry(index, b, q);
        assert ([BaseKey(d)] + q)[1..] == q;
        assert IsAncestry(index, d, [BaseKey(d)] + q);
      }
    }
  }

  /** Method `m` of the `i`-th ancestor. */
  datatype Slot = Slot(i: nat, m: nat)

  /** The slot number of a method of an ancestor: the methods of everything above it, plus its own
      position. */
  ghost predicate Occupies(index: InterfaceIndex, p: seq<Name>, at: Slot, s: nat) {
    && at.i < |p| && p[at.i] in index && at.m < |index[p[at.i]].methods|
    && s == MethodsOf(index, p[at.i + 1..]) + at.m
  }

  lemma {:induction false} MethodsOfSuffix(index: InterfaceIndex, p: seq<Name>, i: nat)
    requires i < |p|
    ensures MethodsOf(index, p[i + 1..]) + (if p[i] in index then |index[p[i]].methods| else 0) == MethodsOf(index, p[i..]) <= MethodsOf(index, p)
    decreases i
  {
    assert p[i..][0] == p[i] && p[i..][1..] == p[i + 1..];
    if i > 0 {
      MethodsOfSuffix(index, p, i - 1);
      assert p[i - 1..][1..] == p[i..];
    } else {
      assert p[0..] == p;
    }
  }

  lemma {:induction false} SuffixMonotone(index: InterfaceIndex, p: seq<Name>, i: nat, j: nat)
    requires i <= j <= |p|
    ensures MethodsOf(index, p[j..]) <= MethodsOf(index, p[i..])
    decreases j - i
  {
    if i < j {
      MethodsOfSuffix(index, p, i);
      SuffixMonotone(index, p, i + 1, j);
    }
  }

  lemma {:induction false} SlotHasOwner(index: InterfaceIndex, c: ComInterface, p: seq<Name>, s: nat) returns (at: Slot)
    requires IsAncestry(index, c, p) && s < MethodsOf(index, p)
    ensures Occupies(index, p, at, s)
    decreases |p|
  {
    if s >= MethodsOf(index, p[1..]) {
      at := Slot(0, s - MethodsOf(index, p[1..]));
    } else {
      var inner := SlotHasOwner(index, index[p[0]], p[1..], s);
      assert p[1..][inner.i + 1..] == p[inner.i + 2..];
      at := Slot(inner.i + 1, inner.m);
    }
  }

  ghost predicate Occupied(index: InterfaceIndex, p: seq<Name>, s: nat) {
    exists at :: Occupies(index, p, at, s)
  }

  /**
  Tiling: the slots that ancestors' methods occupy are exactly those below the interface's own first
  slot, and no slot is occupied twice. No gaps, no overlaps.
  */
  lemma {:induction false} VtableTiles(index: InterfaceIndex, c: ComInterface, p: seq<Name>)
    requires IsAncestry(index, c, p)
    ensures forall s: nat :: Occupied(index, p, s) <==> s < MethodsOf(index, p)
    ensures forall s: nat, at, other :: Occupies(index, p, at, s) && Occupies(index, p, other, s) ==> at == other
  {
    forall s: nat ensures Occupied(index, p, s) <==> s < MethodsOf(index, p) {
      if s < MethodsOf(index, p) {
        var at := SlotHasOwner(index, c, p, s);
      }
      forall at | Occupies(index, p, at, s) ensures s < MethodsOf(index, p) {
        MethodsOfSuffix(index, p, at.i);
      }
    }
    forall s: nat, at, other | Occupies(index, p, at, s) && Occupies(index, p, other, s) ensures at == other {
      MethodsOfSuffix(index, p, at.i);
      MethodsOfSuffix(index, p, other.i);
      if at.i < other.i {
        SuffixMonotone(index, p, at.i + 1, other.i);
      } else if other.i < at.i {
        SuffixMonotone(index, p, other.i + 1, at.i);
      }
    }
  }

  /** An ancestor's own start slot is the methods above it. */
  lemma {:induction false} AncestorStart(index: InterfaceIndex, c: ComInterface, p: seq<Name>, i: nat, api: Name, name: Name)
    requires IsAncestry(index, c, p) && i < |p| && p[i] == Qualified(api, name)
    ensures StartSlot(index, api, name) == (MethodsOf(index, p[i + 1..]), true)
  {
    AncestrySuffix(index, c, p, i);
    StartSlotCorrect(index, api, name);
  }

  // ---- cyclic chains ------------------------------------------------------

  /** `p` follows bases from `c`, for as long as it goes. */
  ghost predicate FollowsBases(index: InterfaceIndex, c: ComInterface, p: seq<Name>)
    decreases |p|
  {
    p != [] ==> HasBase(c) && p[0] == BaseKey(c) && p[0] in index && FollowsBases(index, index[p[0]], p[1..])
  }

  ghost predicate Repeats(p: seq<Name>) {
    exists i, j :: 0 <= i < j < |p| && p[i] == p[j]
  }

  /** Following bases from `c` comes back to an interface already passed. */
  ghost predicate CyclicChain(index: InterfaceIndex, c: ComInterface) {
    exists p :: FollowsBases(index, c, p) && Repeats(p)
  }

  ghost predicate NoDanglingBase(index: InterfaceIndex) {
    forall k :: k in index && HasBase(index[k]) ==> BaseKey(index[k]) in index
  }

  function EndOf(index: InterfaceIndex, c: ComInterface, p: seq<Name>): ComInterface
    requires forall k :: k in p ==> k in index
  {
    if p == [] then c else index[p[|p| - 1]]
  }

  lemma {:induction false} FollowOneMore(index: InterfaceIndex, c: ComInterface, p: seq<Name>, key: Name)
    requires FollowsBases(index, c, p) && forall k :: k in p ==> k in index
    requires HasBase(EndOf(index, c, p)) && BaseKey(EndOf(index, c, p)) == key && key in index
    ensures FollowsBases(index, c, p + [key])
    decreases |p|
  {
    if p == [] {
      assert [key][1..] == [];
    } else {
      assert forall k :: k in p[1..] ==> k in p;
      assert EndOf(index, index[p[0]], p[1..]) == EndOf(index, c, p);
      FollowOneMore(index, index[p[0]], p[1..], key);
      assert (p + [key])[1..] == p[1..] + [key];
    }
  }

  lemma {:induction false} SeenMeansRepeat(p: seq<Name>, key: Name)
    requires key in p
    ensures Repeats(p + [key])
  {
    var i :| 0 <= i < |p| && p[i] == key;
    assert (p + [key])[i] == (p + [key])[|p|];
  }

  lemma {:induction false} ExtendEnd(index: InterfaceIndex, c: ComInterface, p: seq<Name>, key: Name)
    requires (forall k :: k in p ==> k in index) && key in index
    ensures forall k :: k in p + [key] ==> k in index
    ensures EndOf(index, c, p + [key]) == index[key]
    ensures Elements(p + [key]) == Elements(p) + {key}
  {}

  /** A failing walk stops at a key already seen, or goes on to fail from the next interface. */
  lemma {:induction false} FailureSteps(index: InterfaceIndex, current: ComInterface, seen: set<Name>, slot: nat)
    returns (key: Name, after: set<Name>, next: ComInterface, total: nat)
    requires !WalkBases(index, current, seen, slot).1
    requires HasBase(current) ==> BaseKey(current) in index
    ensures HasBase(current) && key == BaseKey(current) && key in index && next == index[key]
    ensures after == seen + {key}
    ensures key in seen || (|index.Keys - after| < |index.Keys - seen| && !WalkBases(index, next, after, total).1)
  {
    key := BaseKey(current);
    after, next := seen + {key}, index[key];
    total := slot + |next.methods|;
    assert index.Keys - after == index.Keys - seen - {key};
  }

  lemma {:induction false} FailureIsCycle(index: InterfaceIndex, c: ComInterface, p: seq<Name>, current: ComInterface, seen: set<Name>, slot: nat)
    requires NoDanglingBase(index) && (HasBase(current) ==> BaseKey(current) in index)
    requires FollowsBases(index, c, p) && (forall k :: k in p ==> k in index) && current == EndOf(index, c, p)
    requires seen == Elements(p)
    requires !WalkBases(index, current, seen, slot).1
    ensures CyclicChain(index, c)
    decreases |index.Keys - seen|
  {
    var key, after, next, total := FailureSteps(index, current, seen, slot);
    FollowOneMore(index, c, p, key);
    if key in seen {
      SeenMeansRepeat(p, key);
    } else {
      ExtendEnd(index, c, p, key);
      FailureIsCycle(index, c, p + [key], next, after, total);
    }
  }

  lemma {:induction false} FollowsIsPrefix(index: InterfaceIndex, c: ComInterface, p: seq<Name>, q: seq<Name>)
    requires IsAncestry(index, c, p) && FollowsBases(index, c, q)
    ensures q <= p
    decreases |q|
  {
    if q != [] {
      FollowsIsPrefix(index, index[q[0]], p[1..], q[1..]);
      assert q == [q[0]] + q[1..] && p == [p[0]] + p[1..];
    }
  }

  /** When no base dangles, VtableStartSlot fails on an indexed interface exactly when following its
      bases runs into a cycle. */
  lemma {:induction false} FailsExactlyWhenCyclic(index: InterfaceIndex, api: Name, name: Name)
    requires NoDanglingBase(index) && Qualified(api, name) in index
    ensures !Ok(index, api, name) <==> CyclicChain(index, index[Qualified(api, name)])
  {
    var c := index[Qualified(api, name)];
    StartSlotCorrect(index, api, name);
    if !Ok(index, api, name) {
      assert Elements([]) == {};
      FailureIsCycle(index, c, [], c, {}, 0);
    }
    if Resolved(index, c) && CyclicChain(index, c) {
      var p :| IsAncestry(index, c, p);
      var q :| FollowsBases(index, c, q) && Repeats(q);
      AncestryDistinct(index, c, p);
      FollowsIsPrefix(index, c, p, q);
    }
  }
}
