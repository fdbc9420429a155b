/**
Where the arm64 planner puts things: no two arguments share a register or a stack word,
the int and float counters do not see each other, and a class that has spilled to
the stack never goes back to registers.
*/
module Arm64Placement {
  import opened Bytes
  import opened Calls
  import opened Arm64Planner

  datatype Slot = IntReg(i: nat) | FloatReg(i: nat) | StackWord(i: nat)

  datatype Home = IntRegs(first: nat, count: nat) | FloatRegs(first: nat, count: nat) | Stacked(first: nat, count: nat) {
    predicate Uses(slot: Slot) {
      && first <= slot.i < first + count
      && match slot
         case IntReg(_) => IntRegs?
         case FloatReg(_) => FloatRegs?
         case StackWord(_) => Stacked?
    }
  }

  predicate Spills(s: State, op: Operand)
    requires s.Valid() && op.WellFormed()
  {
    |s.stack| < |Step(s, op).stack|
  }

  /** The words an argument consists of, in registers or on the stack. */
  function Carried(op: Operand, spilled: bool): seq<Word>
    requires op.WellFormed()
  {
    if !op.arg.kind.ArgStruct? then [op.word]
    else if ByReference(op.arg) then [CopyAddress(op, Arm64.CopyAlign())]
    else if op.arg.IsHfa() && !spilled then HfaWords(op)
    else PackWords(op.bytes)
  }

  /** The slots that a step consumed last: what it appended, or the registers it counted past. */
  function HomeOf(s: State, op: Operand): Home
    requires s.Valid() && op.WellFormed()
  {
    var t := Step(s, op);
    var n := |Carried(op, Spills(s, op))|;
    if Spills(s, op) then Stacked(if n <= |t.stack| then |t.stack| - n else 0, n)
    else if op.arg.FloatClass() then FloatRegs(if n <= t.nsrn then t.nsrn - n else 0, n)
    else IntRegs(if n <= t.ngrn then t.ngrn - n else 0, n)
  }

  function Homes(s: State, ops: seq<Operand>): (hs: seq<Home>)
    requires s.Valid() && AllWellFormed(ops)
    ensures |hs| == |ops|
    decreases |ops|
  {
    if ops == [] then [] else [HomeOf(s, ops[0])] + Homes(Step(s, ops[0]), ops[1..])
  }

  predicate Exists(s: State, slot: Slot) {
    match slot
    case IntReg(i) => i < |s.ints|
    case FloatReg(i) => i < |s.floats|
    case StackWord(i) => i < |s.stack|
  }

  function At(s: State, slot: Slot): Word
    requires Exists(s, slot)
  {
    match slot
    case IntReg(i) => s.ints[i]
    case FloatReg(i) => s.floats[i]
    case StackWord(i) => s.stack[i]
  }

  /** Not yet handed out in `s`. */
  predicate Free(s: State, slot: Slot) {
    match slot
    case IntReg(i) => s.ngrn <= i
    case FloatReg(i) => s.nsrn <= i
    case StackWord(i) => |s.stack| <= i
  }

  predicate WideAligned(arg: Arg) {
    arg.kind.ArgStruct? && !ByReference(arg) && arg.align >= 16
  }

  lemma {:induction false} CarriedCount(op: Operand)
    requires op.WellFormed()
    ensures |Carried(op, true)| >= 1 && |Carried(op, false)| >= 1
  {
    PackWordsCount(op.bytes);
  }

  /** `t` is `s` with the words `ws` added at home `h` and nothing else changed, except for
      a zero word in front of a stacked home that needs an even one. */
  ghost predicate Placed(s: State, t: State, h: Home, ws: seq<Word>, wide: bool)
    requires s.Valid() && t.Valid()
  {
    && h.count == |ws|
    && match h
       case IntRegs(first, n) =>
         && s.ngrn <= first && first + n == t.ngrn && t.ints == Load(s.ints, first, ws)
         && t.nsrn == s.nsrn && t.floats == s.floats && t.stack == s.stack
       case FloatRegs(first, n) =>
         && s.nsrn <= first && first + n == t.nsrn && t.floats == Load(s.floats, first, ws)
         && t.ngrn == s.ngrn && t.ints == s.ints && t.stack == s.stack
       case Stacked(first, n) =>
         && s.ngrn <= t.ngrn && t.ints == s.ints
         && s.nsrn <= t.nsrn && t.floats == s.floats
         && t.stack == s.stack + (if wide && |s.stack| % 2 == 1 then [0] else []) + ws
         && first + n == |t.stack|
  }

  lemma {:induction false} WordPlaced(s: State, op: Operand)
    requires s.Valid() && op.WellFormed() && !op.arg.kind.ArgStruct?
    ensures Placed(s, Step(s, op), HomeOf(s, op), [op.word], false)
  {}

  lemma {:induction false} HfaPlaced(s: State, op: Operand)
    requires s.Valid() && op.WellFormed() && op.arg.IsHfa()
    ensures Placed(s, Step(s, op), HomeOf(s, op), Carried(op, Spills(s, op)), WideAligned(op.arg))
  {
    PackWordsCount(op.bytes);
  }

  lemma {:induction false} ReferencePlaced(s: State, op: Operand)
    requires s.Valid() && op.WellFormed() && ByReference(op.arg)
    ensures Placed(s, Step(s, op), HomeOf(s, op), [CopyAddress(op, Arm64.CopyAlign())], false)
  {}

  lemma {:induction false} SmallPlaced(s: State, op: Operand)
    requires s.Valid() && op.WellFormed() && SmallComposite(op.arg)
    ensures Placed(s, Step(s, op), HomeOf(s, op), PackWords(op.bytes), WideAligned(op.arg))
  {
    PackWordsCount(op.bytes);
  }

  lemma {:induction false} StepPlaced(s: State, op: Operand)
    requires s.Valid() && op.WellFormed()
    ensures Placed(s, Step(s, op), HomeOf(s, op), Carried(op, Spills(s, op)), WideAligned(op.arg))
    ensures HomeOf(s, op).Stacked? == Spills(s, op)
  {
    if !op.arg.kind.ArgStruct? {
      WordPlaced(s, op);
    } else if op.arg.hfa > 0 {
      HfaPlaced(s, op);
    } else if op.arg.size > 16 {
      ReferencePlaced(s, op);
    } else {
      SmallPlaced(s, op);
    }
  }

  /** A home was free, is handed out now, and holds the argument's words. */
  lemma {:induction false} PlacedHome(s: State, t: State, h: Home, ws: seq<Word>, wide: bool, slot: Slot)
    requires s.Valid() && t.Valid() && Placed(s, t, h, ws, wide) && h.Uses(slot)
    ensures Free(s, slot) && !Free(t, slot) && Exists(t, slot)
    ensures At(t, slot) == ws[slot.i - h.first]
  {}

  /** A slot that is not the home is untouched, or is a zero padding word right before it. */
  lemma {:induction false} PlacedElsewhere(s: State, t: State, h: Home, ws: seq<Word>, wide: bool, slot: Slot)
    requires s.Valid() && t.Valid() && Placed(s, t, h, ws, wide)
    requires !h.Uses(slot) && Exists(t, slot)
    ensures Exists(s, slot) ==> At(t, slot) == At(s, slot)
    ensures !Exists(s, slot) ==> slot.StackWord? && At(t, slot) == 0 && wide && h.Stacked? && h.first == slot.i + 1
  {}

  lemma {:induction false} PlacedWide(s: State, t: State, h: Home, ws: seq<Word>)
    requires s.Valid() && t.Valid() && h.Stacked? && Placed(s, t, h, ws, true)
    ensures h.first % 2 == 0
  {}

  lemma {:induction false} StepHome(s: State, op: Operand, slot: Slot)
    requires s.Valid() && op.WellFormed() && HomeOf(s, op).Uses(slot)
    ensures Free(s, slot) && !Free(Step(s, op), slot) && Exists(Step(s, op), slot)
    ensures HomeOf(s, op).count == |Carried(op, HomeOf(s, op).Stacked?)|
    ensures At(Step(s, op), slot) == Carried(op, HomeOf(s, op).Stacked?)[slot.i - HomeOf(s, op).first]
  {
    StepPlaced(s, op);
    PlacedHome(s, Step(s, op), HomeOf(s, op), Carried(op, Spills(s, op)), WideAligned(op.arg), slot);
  }

  lemma {:induction false} HomesFree(s: State, ops: seq<Operand>, i: nat, slot: Slot)
    requires s.Valid() && AllWellFormed(ops) && i < |ops|
    requires Homes(s, ops)[i].Uses(slot)
    ensures Free(s, slot)
    decreases i
  {
    StepKeeps(s, ops[0]);
    if i == 0 {
      StepHome(s, ops[0], slot);
    } else {
      HomesFree(Step(s, ops[0]), ops[1..], i - 1, slot);
    }
  }

  lemma {:induction false} FirstHomeDisjoint(s: State, op: Operand, rest: seq<Operand>, j: nat, slot: Slot)
    requires s.Valid() && op.WellFormed() && AllWellFormed(rest) && j < |rest|
    ensures !(HomeOf(s, op).Uses(slot) && Homes(Step(s, op), rest)[j].Uses(slot))
  {
    if HomeOf(s, op).Uses(slot) && Homes(Step(s, op), rest)[j].Uses(slot) {
      StepHome(s, op, slot);
      HomesFree(Step(s, op), rest, j, slot);
    }
  }

  lemma {:induction false} HomesCons(s: State, ops: seq<Operand>)
    requires s.Valid() && AllWellFormed(ops) && ops != []
    ensures Homes(s, ops) == [HomeOf(s, ops[0])] + Homes(Step(s, ops[0]), ops[1..])
  {}

  ghost predicate DisjointHomes(hs: seq<Home>) {
    forall i, j, slot :: 0 <= i < j < |hs| ==> !(hs[i].Uses(slot) && hs[j].Uses(slot))
  }

  lemma {:induction false} DisjointCons(h: Home, rest: seq<Home>)
    requires DisjointHomes(rest)
    requires forall j, slot :: 0 <= j < |rest| ==> !(h.Uses(slot) && rest[j].Uses(slot))
    ensures DisjointHomes([h] + rest)
  {
    var hs := [h] + rest;
    forall i, j, slot | 0 <= i < j < |hs| ensures !(hs[i].Uses(slot) && hs[j].Uses(slot)) {
      assert hs[j] == rest[j - 1];
      if i > 0 {
        assert hs[i] == rest[i - 1];
      }
    }
  }

  /** No two arguments share a register or a stack word. */
  lemma {:induction false} HomesDisjoint(s: State, ops: seq<Operand>)
    requires s.Valid() && AllWellFormed(ops)
    ensures DisjointHomes(Homes(s, ops))
    decreases |ops|
  {
    if ops != [] {
      var op, rest := ops[0], ops[1..];
      HomesDisjoint(Step(s, op), rest);
      forall j, slot | 0 <= j < |rest| ensures !(HomeOf(s, op).Uses(slot) && Homes(Step(s, op), rest)[j].Uses(slot)) {
        FirstHomeDisjoint(s, op, rest, j, slot);
      }
      DisjointCons(HomeOf(s, op), Homes(Step(s, op), rest));
      HomesCons(s, ops);
    }
  }

  lemma {:induction false} KeptSlot(s: State, t: State, slot: Slot)
    requires s.Valid() && t.Valid() && Keeps(s, t)
    requires Exists(s, slot) && !Free(s, slot)
    ensures Exists(t, slot) && At(t, slot) == At(s, slot)
  {
    match slot {
      case IntReg(i) => assert s.ints[..s.ngrn][i] == t.ints[..s.ngrn][i];
      case FloatReg(i) => assert s.floats[..s.nsrn][i] == t.floats[..s.nsrn][i];
      case StackWord(i) =>
    }
  }

  /** This slot of home `h` holds the word of `op` that belongs there. */
  ghost predicate Holds(t: State, op: Operand, h: Home, slot: Slot)
    requires op.WellFormed() && h.Uses(slot)
  {
    && Exists(t, slot)
    && h.count == |Carried(op, h.Stacked?)|
    && At(t, slot) == Carried(op, h.Stacked?)[slot.i - h.first]
  }

  /** Later arguments leave the slots of an earlier one alone. */
  lemma {:induction false} FirstHomeContents(s: State, op: Operand, t: State, h: Home, rest: seq<Operand>, slot: Slot)
    requires s.Valid() && op.WellFormed() && AllWellFormed(rest)
    requires t == Step(s, op) && h == HomeOf(s, op) && h.Uses(slot)
    ensures Holds(Run(t, rest), op, h, slot)
  {
    StepHome(s, op, slot);
    RunKeeps(t, rest);
    KeptSlot(t, Run(t, rest), slot);
  }

  /** An argument's slots still hold its words when every argument has been placed. */
  lemma {:induction false} HomeContents(s: State, ops: seq<Operand>, i: nat, slot: Slot)
    requires s.Valid() && AllWellFormed(ops) && i < |ops|
    requires Homes(s, ops)[i].Uses(slot)
    ensures Holds(Run(s, ops), ops[i], Homes(s, ops)[i], slot)
    decreases i
  {
    var t := Step(s, ops[0]);
    if i == 0 {
      FirstHomeContents(s, ops[0], t, HomeOf(s, ops[0]), ops[1..], slot);
    } else {
      HomeContents(t, ops[1..], i - 1, slot);
    }
  }

  /** Is this slot the home, or part of the home, of some argument? */
  ghost predicate Covered(s: State, ops: seq<Operand>, slot: Slot)
    requires s.Valid() && AllWellFormed(ops)
  {
    exists i :: 0 <= i < |ops| && Homes(s, ops)[i].Uses(slot)
  }

  /** Is this stack word the padding in front of a 16-byte-aligned composite? */
  ghost predicate Padding(s: State, ops: seq<Operand>, slot: Slot)
    requires s.Valid() && AllWellFormed(ops)
  {
    exists i :: 0 <= i < |ops| && WideAligned(ops[i].arg)
             && Homes(s, ops)[i].Stacked? && Homes(s, ops)[i].first == slot.i + 1
  }

  lemma {:induction false} StepElsewhere(s: State, op: Operand, slot: Slot)
    requires s.Valid() && op.WellFormed() && !HomeOf(s, op).Uses(slot) && Exists(Step(s, op), slot)
    ensures Exists(s, slot) ==> At(Step(s, op), slot) == At(s, slot)
    ensures !Exists(s, slot) ==>
      slot.StackWord? && At(Step(s, op), slot) == 0 && WideAligned(op.arg) && HomeOf(s, op) == Stacked(slot.i + 1, HomeOf(s, op).count)
  {
    StepPlaced(s, op);
    PlacedElsewhere(s, Step(s, op), HomeOf(s, op), Carried(op, Spills(s, op)), WideAligned(op.arg), slot);
  }

  lemma {:induction false} Uncovered(s: State, ops: seq<Operand>, slot: Slot)
    requires s.Valid() && AllWellFormed(ops)
    requires Exists(Run(s, ops), slot) && !Covered(s, ops, slot)
    ensures Exists(s, slot) ==> At(Run(s, ops), slot) == At(s, slot)
    ensures !Exists(s, slot) ==> slot.StackWord? && At(Run(s, ops), slot) == 0 && Padding(s, ops, slot)
    decreases |ops|
  {
    if ops != [] {
      var t, rest, hs := Step(s, ops[0]), ops[1..], Homes(s, ops);
      assert !hs[0].Uses(slot);
      forall i | 0 <= i < |rest| ensures !Homes(t, rest)[i].Uses(slot) {
        assert hs[i + 1] == Homes(t, rest)[i];
      }
      Uncovered(t, rest, slot);
      if Exists(t, slot) {
        StepElsewhere(s, ops[0], slot);
      } else {
        StepKeeps(s, ops[0]);
        var i :| 0 <= i < |rest| && WideAligned(rest[i].arg)
              && Homes(t, rest)[i].Stacked? && Homes(t, rest)[i].first == slot.i + 1;
        assert hs[i + 1] == Homes(t, rest)[i] && ops[i + 1] == rest[i];
      }
    }
  }

  lemma {:induction false} WideStartsEven(s: State, ops: seq<Operand>, i: nat)
    requires s.Valid() && AllWellFormed(ops) && i < |ops|
    requires WideAligned(ops[i].arg) && Homes(s, ops)[i].Stacked?
    ensures Homes(s, ops)[i].first % 2 == 0
    decreases i
  {
    if i == 0 {
      StepPlaced(s, ops[0]);
      PlacedWide(s, Step(s, ops[0]), HomeOf(s, ops[0]), Carried(ops[0], true));
    } else {
      WideStartsEven(Step(s, ops[0]), ops[1..], i - 1);
    }
  }

  lemma {:induction false} FirstStackOrder(s: State, op: Operand, rest: seq<Operand>, j: nat)
    requires s.Valid() && op.WellFormed() && AllWellFormed(rest) && j < |rest|
    requires HomeOf(s, op).Stacked? && Homes(Step(s, op), rest)[j].Stacked?
    ensures HomeOf(s, op).first + HomeOf(s, op).count <= Homes(Step(s, op), rest)[j].first
  {
    var h, first := HomeOf(s, op), Homes(Step(s, op), rest)[j].first;
    CarriedCount(op);
    StepHome(s, op, StackWord(h.first + h.count - 1));
    HomeNonEmpty(Step(s, op), rest, j);
    HomesFree(Step(s, op), rest, j, StackWord(first));
  }

  lemma {:induction false} StackOrder(s: State, ops: seq<Operand>, i: nat, j: nat)
    requires s.Valid() && AllWellFormed(ops) && i < j < |ops|
    requires Homes(s, ops)[i].Stacked? && Homes(s, ops)[j].Stacked?
    ensures Homes(s, ops)[i].first + Homes(s, ops)[i].count <= Homes(s, ops)[j].first
    decreases i
  {
    HomesCons(s, ops);
    if i > 0 {
      StackOrder(Step(s, ops[0]), ops[1..], i - 1, j - 1);
    } else {
      FirstStackOrder(s, ops[0], ops[1..], j - 1);
    }
  }

  lemma {:induction false} HomeNonEmpty(s: State, ops: seq<Operand>, i: nat)
    requires s.Valid() && AllWellFormed(ops) && i < |ops|
    ensures Homes(s, ops)[i].count == |Carried(ops[i], Homes(s, ops)[i].Stacked?)| >= 1
    decreases i
  {
    if i == 0 {
      CarriedCount(ops[0]);
    } else {
      HomeNonEmpty(Step(s, ops[0]), ops[1..], i - 1);
    }
  }

  ghost predicate HomesHold(t: State, ops: seq<Operand>, hs: seq<Home>)
    requires |hs| == |ops| && AllWellFormed(ops)
  {
    forall i, slot :: 0 <= i < |ops| && hs[i].Uses(slot) ==> Holds(t, ops[i], hs[i], slot)
  }

  ghost predicate StackedInOrder(ops: seq<Operand>, hs: seq<Home>)
    requires |hs| == |ops|
  {
    && (forall i, j :: 0 <= i < j < |hs| && hs[i].Stacked? && hs[j].Stacked? ==>
          hs[i].first + hs[i].count <= hs[j].first)
    && (forall i :: 0 <= i < |hs| && hs[i].Stacked? && WideAligned(ops[i].arg) ==> hs[i].first % 2 == 0)
  }

  /**
  Exact cover of one call, from a zeroed frame: distinct arguments have disjoint homes; a
  home holds exactly its argument's words; stacked homes are in argument order and the
  16-byte-aligned ones start at an even word; and every other slot is zero, a stack
  word being uncovered only when it is the padding in front of a 16-byte-aligned home.
  */
  lemma {:induction false} ExactCover(ops: seq<Operand>, m: Memory)
    requires AllWellFormed(ops)
    ensures DisjointHomes(Homes(Initial(m), ops))
    ensures HomesHold(Run(Initial(m), ops), ops, Homes(Initial(m), ops))
    ensures StackedInOrder(ops, Homes(Initial(m), ops))
    ensures forall slot :: Exists(Run(Initial(m), ops), slot) && !Covered(Initial(m), ops, slot) ==>
              && At(Run(Initial(m), ops), slot) == 0
              && (slot.StackWord? ==> Padding(Initial(m), ops, slot))
  {
    var s, hs := Initial(m), Homes(Initial(m), ops);
    HomesDisjoint(s, ops);
    forall i, slot | 0 <= i < |ops| && hs[i].Uses(slot) ensures Holds(Run(s, ops), ops[i], hs[i], slot) {
      HomeContents(s, ops, i, slot);
    }
    assert StackedInOrder(ops, hs) by {
      forall i, j | 0 <= i < j < |hs| && hs[i].Stacked? && hs[j].Stacked?
        ensures hs[i].first + hs[i].count <= hs[j].first
      {
        StackOrder(s, ops, i, j);
      }
      forall i | 0 <= i < |hs| && hs[i].Stacked? && WideAligned(ops[i].arg) ensures hs[i].first % 2 == 0 {
        WideStartsEven(s, ops, i);
      }
    }
    forall slot | Exists(Run(s, ops), slot) && !Covered(s, ops, slot)
      ensures At(Run(s, ops), slot) == 0 && (slot.StackWord? ==> Padding(s, ops, slot))
    {
      Uncovered(s, ops, slot);
    }
  }

  // ---- counter independence -----------------------------------------------

  /** The arguments of one class, in order. */
  function OfClass(ops: seq<Operand>, floats: bool): (r: seq<Operand>)
    ensures forall i :: 0 <= i < |r| ==> r[i] in ops
    decreases |ops|
  {
    if ops == [] then []
    else (if ops[0].arg.FloatClass() == floats then [ops[0]] else []) + OfClass(ops[1..], floats)
  }

  /** The register homes of one class, in order. */
  function RegisterHomes(hs: seq<Home>, floats: bool): seq<Home>
    decreases |hs|
  {
    if hs == [] then []
    else (if (if floats then hs[0].FloatRegs? else hs[0].IntRegs?) then [hs[0]] else []) + RegisterHomes(hs[1..], floats)
  }

  predicate SameCounter(s: State, t: State, floats: bool) {
    if floats then s.floats == t.floats && s.nsrn == t.nsrn
    else s.ints == t.ints && s.ngrn == t.ngrn
  }

  lemma {:induction false} OtherClassStep(s: State, op: Operand, floats: bool)
    requires s.Valid() && op.WellFormed() && op.arg.FloatClass() != floats
    ensures SameCounter(s, Step(s, op), floats)
  {}

  lemma {:induction false} OwnClassStep(s: State, t: State, op: Operand, floats: bool)
    requires s.Valid() && t.Valid() && op.WellFormed() && op.arg.FloatClass() == floats
    requires SameCounter(s, t, floats)
    ensures SameCounter(Step(s, op), Step(t, op), floats)
    ensures Spills(s, op) == Spills(t, op)
    ensures !Spills(s, op) ==> HomeOf(s, op) == HomeOf(t, op)
  {
    PackWordsCount(op.bytes);
  }

  lemma {:induction false} RegisterHomesTail(h: Home, rest: seq<Home>, floats: bool)
    ensures RegisterHomes([h] + rest, floats) == RegisterHomes([h], floats) + RegisterHomes(rest, floats)
  {
    assert ([h] + rest)[1..] == rest;
    assert [h][1..] == [];
  }

  lemma {:induction false} HomesTail(s: State, op: Operand, rest: seq<Operand>, floats: bool)
    requires s.Valid() && op.WellFormed() && AllWellFormed(rest)
    ensures Run(s, [op] + rest) == Run(Step(s, op), rest)
    ensures RegisterHomes(Homes(s, [op] + rest), floats)
         == RegisterHomes([HomeOf(s, op)], floats) + RegisterHomes(Homes(Step(s, op), rest), floats)
  {
    assert ([op] + rest)[1..] == rest;
    RegisterHomesTail(HomeOf(s, op), Homes(Step(s, op), rest), floats);
  }

  /** Deleting every argument of the other class changes no register of this class and
      moves no register home of this class. */
  lemma {:induction false} CountersIndependent(s: State, t: State, ops: seq<Operand>, floats: bool)
    requires s.Valid() && t.Valid() && AllWellFormed(ops) && SameCounter(s, t, floats)
    ensures SameCounter(Run(s, ops), Run(t, OfClass(ops, floats)), floats)
    ensures RegisterHomes(Homes(s, ops), floats) == RegisterHomes(Homes(t, OfClass(ops, floats)), floats)
    decreases |ops|
  {
    if ops != [] {
      var op, rest := ops[0], ops[1..];
      var kept := OfClass(rest, floats);
      assert ops == [op] + rest;
      HomesTail(s, op, rest, floats);
      if op.arg.FloatClass() == floats {
        OwnClassStep(s, t, op, floats);
        CountersIndependent(Step(s, op), Step(t, op), rest, floats);
        HomesTail(t, op, kept, floats);
        assert RegisterHomes([HomeOf(s, op)], floats) == RegisterHomes([HomeOf(t, op)], floats);
      } else {
        OtherClassStep(s, op, floats);
        CountersIndependent(Step(s, op), t, rest, floats);
        assert OfClass(ops, floats) == kept;
        assert RegisterHomes([HomeOf(s, op)], floats) == [];
      }
    }
  }

  // ---- no back-fill -------------------------------------------------------

  predicate Full(s: State, floats: bool) {
    if floats then s.nsrn == REGISTERS else s.ngrn == REGISTERS
  }

  lemma {:induction false} FullStep(s: State, op: Operand, floats: bool)
    requires s.Valid() && op.WellFormed() && Full(s, floats)
    ensures SameCounter(s, Step(s, op), floats)
    ensures RegisterHomes([HomeOf(s, op)], floats) == []
  {
    PackWordsCount(op.bytes);
    assert [HomeOf(s, op)][1..] == [];
  }

  lemma {:induction false} FullStaysFull(s: State, ops: seq<Operand>, floats: bool)
    requires s.Valid() && AllWellFormed(ops) && Full(s, floats)
    ensures SameCounter(s, Run(s, ops), floats)
    ensures RegisterHomes(Homes(s, ops), floats) == []
    decreases |ops|
  {
    if ops != [] {
      assert ops == [ops[0]] + ops[1..];
      FullStep(s, ops[0], floats);
      HomesTail(s, ops[0], ops[1..], floats);
      FullStaysFull(Step(s, ops[0]), ops[1..], floats);
    }
  }

  /** Once an argument has gone to the stack, no later argument of its class gets a register. */
  lemma {:induction false} NoBackfill(s: State, op: Operand, later: seq<Operand>)
    requires s.Valid() && op.WellFormed() && AllWellFormed(later)
    requires Spills(s, op)
    ensures SameCounter(Step(s, op), Run(Step(s, op), later), op.arg.FloatClass())
    ensures RegisterHomes(Homes(Step(s, op), later), op.arg.FloatClass()) == []
  {
    FullStaysFull(Step(s, op), later, op.arg.FloatClass());
  }

  // ---- alignment of by-reference copies -----------------------------------

  /**
  A by-reference copy is 8-byte aligned whatever the composite asks for. So the copy meets
  the composite's own alignment for every answer of the allocator if and only if
  that alignment divides 8.
  */
  lemma {:induction false} CopyMeetsAlignmentIff(op: Operand)
    requires op.WellFormed() && ByReference(op.arg) && op.arg.align > 0
    ensures (forall b :: op.(base := b).WellFormed() ==> CopyAddress(op.(base := b), Arm64.CopyAlign()) % op.arg.align == 0)
       <==> 8 % op.arg.align == 0
  {
    if 8 % op.arg.align == 0 {
      forall b | op.(base := b).WellFormed() ensures CopyAddress(op.(base := b), Arm64.CopyAlign()) % op.arg.align == 0 {
        DividesMultipleOf8(CopyAddress(op.(base := b), Arm64.CopyAlign()), op.arg.align);
      }
    } else {
      var at8 := op.(base := 8);
      assert at8.WellFormed() && CopyAddress(at8, Arm64.CopyAlign()) == 8;
    }
  }

  lemma {:induction false} DivisorsOf8(align: nat)
    requires align > 0 && 8 % align == 0
    ensures align == 1 || align == 2 || align == 4 || align == 8
  {
  }

  lemma {:induction false} DividesMultipleOf8(a: int, align: nat)
    requires align > 0 && a % 8 == 0 && 8 % align == 0
    ensures a % align == 0
  {
    DivisorsOf8(align);
    assert a == 8 * (a / 8);
    assert align == 1 ==> a % align == 0;
    assert align == 2 ==> a % align == 0;
    assert align == 4 ==> a % align == 0;
  }
}
