/**
The x64 argument planner (planAMD64) as a function of the call, and what it promises:
positional words, mirrored into the float registers, the rest on the stack.
*/
module Amd64Planner {
  import opened Options
  import opened Bytes
  import opened Calls

  const REGISTER_ARGS := 4

  /** What the planner leaves for the trampoline. */
  datatype Plan = Plan(ints: seq<Word>, floats: seq<Word>, stack: seq<Word>, memory: Memory)

  predicate HiddenReturn(ret: Arg) {
    ret.kind.ArgStruct? && !RegisterSized(ret.size)
  }

  /** The one word an argument becomes. */
  function ArgumentWord(op: Operand): Word
    requires op.WellFormed()
  {
    if !op.arg.kind.ArgStruct? then op.word
    else if RegisterSized(op.arg.size) then PackWord(op.bytes)
    else CopyAddress(op, Amd64.CopyAlign())
  }

  function ArgumentWords(ops: seq<Operand>): (ws: seq<Word>)
    requires AllWellFormed(ops)
    ensures |ws| == |ops|
    ensures forall i :: 0 <= i < |ops| ==> ws[i] == ArgumentWord(ops[i])
  {
    if ops == [] then [] else [ArgumentWord(ops[0])] + ArgumentWords(ops[1..])
  }

  function MemoryAfterAll(m: Memory, ops: seq<Operand>): Memory
    requires AllWellFormed(ops)
    decreases |ops|
  {
    if ops == [] then m else MemoryAfterAll(MemoryAfter(Amd64, m, ops[0]), ops[1..])
  }

  /** All argument words, a hidden return pointer first. */
  function CallWords(ret: Arg, retAt: Word, ops: seq<Operand>): seq<Word>
    requires AllWellFormed(ops)
  {
    (if HiddenReturn(ret) then [retAt] else []) + ArgumentWords(ops)
  }

  function RegisterFile(words: seq<Word>): (regs: seq<Word>)
    ensures |regs| == 8
  {
    seq(8, i requires 0 <= i < 8 => if i < REGISTER_ARGS && i < |words| then words[i] else 0)
  }

  function StackPart(words: seq<Word>): seq<Word> {
    if |words| <= REGISTER_ARGS then [] else words[REGISTER_ARGS..]
  }

  function PlanCall(ret: Arg, retAt: Word, ops: seq<Operand>, m: Memory): Plan
    requires AllWellFormed(ops)
  {
    var words := CallWords(ret, retAt, ops);
    Plan(RegisterFile(words), RegisterFile(words), StackPart(words), MemoryAfterAll(m, ops))
  }

  lemma {:induction false} CopiesHold(m: Memory, ops: seq<Operand>, i: nat)
    requires AllWellFormed(ops) && FreshBuffers(Amd64, m, ops) && i < |ops| && Amd64.Copies(ops[i].arg)
    ensures ReadMemory(MemoryAfterAll(m, ops), CopyAddress(ops[i], 16), ops[i].arg.size) == Some(ops[i].bytes)
    decreases |ops|
  {
    var next := MemoryAfter(Amd64, m, ops[0]);
    FreshBuffersAfterStep(Amd64, m, ops);
    if i == 0 {
      WithCopyHolds(m, ops[0], 16);
      AllPreserved(next, ops[1..]);
      ReadPreserved(next, MemoryAfterAll(m, ops), CopyAddress(ops[0], 16), ops[0].arg.size);
    } else {
      CopiesHold(next, ops[1..], i - 1);
    }
  }

  /** Planning maps nothing but the buffers of the copies. */
  lemma {:induction false} AllMaps(m: Memory, ops: seq<Operand>, a: int)
    requires AllWellFormed(ops) && FreshBuffers(Amd64, m, ops)
    ensures a in MemoryAfterAll(m, ops) <==> a in m || InBuffers(Amd64, ops, a)
    decreases |ops|
  {
    if ops != [] {
      StepDomain(Amd64, m, ops[0], a);
      FreshBuffersAfterStep(Amd64, m, ops);
      InBuffersNext(Amd64, ops, a);
      AllMaps(MemoryAfter(Amd64, m, ops[0]), ops[1..], a);
    }
  }

  lemma {:induction false} AllPreserved(m: Memory, ops: seq<Operand>)
    requires AllWellFormed(ops) && FreshBuffers(Amd64, m, ops)
    ensures Preserves(m, MemoryAfterAll(m, ops))
    decreases |ops|
  {
    if ops != [] {
      FreshBuffersAfterStep(Amd64, m, ops);
      AllPreserved(MemoryAfter(Amd64, m, ops[0]), ops[1..]);
    }
  }
}

/**
The callee's side of the Microsoft x64 calling convention ("Parameter passing" and "Return
values"), written from the convention: parameter `p` has one 8-byte home, register
number `p` of its class for the first four and the stack above the 32-byte shadow
space for the rest.
*/
module MicrosoftX64 {
  import opened Options
  import opened Bytes
  import opened Calls

  /** RCX, RDX, R8, R9; XMM0-3; the bytes from RSP upwards at the call; memory. */
  datatype Callee = Callee(ints: seq<Word>, xmm: seq<Word>, stack: seq<Byte>, memory: Memory) {
    ghost predicate Valid() {
      |ints| == 4 && |xmm| == 4
    }
  }

  const SHADOW_BYTES := 32

  function Home(c: Callee, p: nat, float: bool): Option<Word>
    requires c.Valid()
  {
    if p < 4 then Some(if float then c.xmm[p] else c.ints[p])
    else
      var at := SHADOW_BYTES + 8 * (p - 4);
      if at + 8 <= |c.stack| then Some(PackWord(c.stack[at .. at + 8])) else None
  }

  /** Aggregates of 8, 16, 32 or 64 bits travel as integers of that size. */
  predicate AsInteger(bits: nat) {
    bits == 8 || bits == 16 || bits == 32 || bits == 64
  }

  function Fetch(c: Callee, ty: Arg, p: nat): Option<Value>
    requires c.Valid()
  {
    var isFloat := ty.kind.ArgFloat32? || ty.kind.ArgFloat64?;
    match Home(c, p, isFloat)
    case None => None
    case Some(w) =>
      match ty.kind
      case ArgWord => Some(WordValue(w))
      case ArgFloat32 => Some(FloatValue(LowBytes(w, 4)))
      case ArgFloat64 => Some(FloatValue(LowBytes(w, 8)))
      case ArgStruct =>
        if AsInteger(8 * ty.size) then Some(CompositeValue(LowBytes(w, ty.size)))
        else
          match ReadMemory(c.memory, w, ty.size)
          case None => None
          case Some(bytes) => Some(CompositeValue(bytes))
  }

  function FetchAll(c: Callee, types: seq<Arg>, p: nat): Option<seq<Value>>
    requires c.Valid()
    decreases |types|
  {
    if types == [] then Some([])
    else
      match Fetch(c, types[0], p)
      case None => None
      case Some(v) =>
        match FetchAll(c, types[1..], p + 1)
        case None => None
        case Some(rest) => Some([v] + rest)
  }

  predicate ReturnsInMemory(ret: Arg) {
    ret.kind.ArgStruct? && !AsInteger(8 * ret.size)
  }

  /** A callee that returns through memory has its real parameters one position later. */
  function Parameters(c: Callee, types: seq<Arg>, ret: Arg): Option<seq<Value>>
    requires c.Valid()
  {
    FetchAll(c, types, if ReturnsInMemory(ret) then 1 else 0)
  }

  /** The callee has returned `bytes`: in the low end of RAX, or at the hidden pointer it
      received as parameter 0. */
  ghost predicate Returned(c: Callee, ret: Arg, bytes: seq<Byte>, rax: Word, after: Memory)
    requires c.Valid()
  {
    if ReturnsInMemory(ret) then ReadMemory(after, c.ints[0], ret.size) == Some(bytes)
    else LowBytes(rax, ret.size) == bytes
  }

  /** The same for any result: integers in RAX, floats in the low end of XMM0. */
  ghost predicate ReturnedValue(c: Callee, ret: Arg, value: Value, rax: Word, xmm0: Word, after: Memory)
    requires c.Valid()
  {
    match ret.kind
    case ArgWord => value == WordValue(rax)
    case ArgFloat32 => value == FloatValue(LowBytes(xmm0, 4))
    case ArgFloat64 => value == FloatValue(LowBytes(xmm0, 8))
    case ArgStruct => value.CompositeValue? && Returned(c, ret, value.bytes, rax, after)
  }
}

module Amd64RoundTrip {
  import opened Options
  import opened Bytes
  import opened Calls
  import opened Amd64Planner
  import opened MicrosoftX64

  /** What the trampoline sets up; the shadow space holds anything. */
  function AtEntry(plan: Plan, shadow: seq<Byte>): Callee
    requires |plan.ints| == 8 && |plan.floats| == 8
  {
    Callee(plan.ints[..4], plan.floats[..4], shadow + WordsBytes(plan.stack), plan.memory)
  }

  /** The words on the stack start above the shadow space, eight bytes each. */
  lemma {:induction false} StackBytes(stack: seq<Word>, i: nat, shadow: seq<Byte>)
    requires i < |stack| && |shadow| == SHADOW_BYTES
    ensures (shadow + WordsBytes(stack))[SHADOW_BYTES + 8 * i .. SHADOW_BYTES + 8 * i + 8] == LowBytes(stack[i], 8)
  {
    WordsBytesSlice(stack, i, 1);
    assert stack[i .. i + 1] == [stack[i]];
    WordsBytesSingle(stack[i]);
    assert (shadow + WordsBytes(stack))[SHADOW_BYTES + 8 * i .. SHADOW_BYTES + 8 * i + 8] == WordsBytes(stack)[8 * i .. 8 * (i + 1)];
  }

  lemma {:induction false} StackHome(plan: Plan, p: nat, float: bool, shadow: seq<Byte>)
    requires 4 <= p < 4 + |plan.stack| && |shadow| == SHADOW_BYTES && |plan.ints| == 8 && |plan.floats| == 8
    ensures Home(AtEntry(plan, shadow), p, float) == Some(plan.stack[p - 4])
  {
    StackBytes(plan.stack, p - 4, shadow);
    WordRoundTrip(plan.stack[p - 4]);
  }

  /** Word `p` of the call: both register files for the first four, the stack after. */
  lemma {:induction false} Positional(words: seq<Word>, p: nat, float: bool, m: Memory, shadow: seq<Byte>)
    requires p < |words| && |shadow| == SHADOW_BYTES
    ensures Home(AtEntry(Plan(RegisterFile(words), RegisterFile(words), StackPart(words), m), shadow), p, float)
         == Some(words[p])
  {
    if p >= 4 {
      StackHome(Plan(RegisterFile(words), RegisterFile(words), StackPart(words), m), p, float, shadow);
    }
  }

  /** Position `p` holds this operand's word, whichever class the callee reads it as, and
      what that word may point to is in memory. */
  ghost predicate InHome(c: Callee, op: Operand, p: nat)
    requires c.Valid() && op.WellFormed()
  {
    && Home(c, p, false) == Some(ArgumentWord(op)) == Home(c, p, true)
    && (Amd64.Copies(op.arg) ==> ReadMemory(c.memory, CopyAddress(op, 16), op.arg.size) == Some(op.bytes))
  }

  lemma {:induction false} OperandRecovered(c: Callee, op: Operand, p: nat)
    requires c.Valid() && op.WellFormed() && InHome(c, op, p)
    ensures Fetch(c, op.arg, p) == Some(PassedValue(op))
  {
    if op.arg.kind.ArgStruct? && RegisterSized(op.arg.size) {
      PackWordRoundTrip(op.bytes, 8);
    }
  }

  lemma {:induction false} SuffixRecovered(c: Callee, ops: seq<Operand>, from: nat, first: nat)
    requires c.Valid() && AllWellFormed(ops) && from <= |ops|
    requires forall i :: 0 <= i < |ops| ==> InHome(c, ops[i], first + i)
    ensures FetchAll(c, Types(ops[from..]), first + from) == Some(PassedValues(ops[from..]))
    decreases |ops| - from
  {
    if from < |ops| {
      OperandRecovered(c, ops[from], first + from);
      SuffixRecovered(c, ops, from + 1, first);
      assert ops[from..][1..] == ops[from + 1..];
      assert Types(ops[from..])[1..] == Types(ops[from + 1..]);
    }
  }

  lemma {:induction false} ArgumentInHome(ret: Arg, retAt: Word, ops: seq<Operand>, m: Memory, shadow: seq<Byte>, i: nat)
    requires AllWellFormed(ops) && FreshBuffers(Amd64, m, ops) && |shadow| == SHADOW_BYTES && i < |ops|
    ensures InHome(AtEntry(PlanCall(ret, retAt, ops, m), shadow), ops[i], PositionOf(ret, i))
  {
    ArgumentAtHome(ret, retAt, ops, m, shadow, i, false);
    ArgumentAtHome(ret, retAt, ops, m, shadow, i, true);
    if Amd64.Copies(ops[i].arg) {
      CopiesHold(m, ops, i);
    }
  }

  lemma {:induction false} AllRecovered(ret: Arg, retAt: Word, ops: seq<Operand>, m: Memory, shadow: seq<Byte>)
    requires AllWellFormed(ops) && FreshBuffers(Amd64, m, ops) && |shadow| == SHADOW_BYTES
    ensures Parameters(AtEntry(PlanCall(ret, retAt, ops, m), shadow), Types(ops), ret) == Some(PassedValues(ops))
  {
    var c, first := AtEntry(PlanCall(ret, retAt, ops, m), shadow), PositionOf(ret, 0);
    forall i | 0 <= i < |ops| ensures InHome(c, ops[i], first + i) {
      ArgumentInHome(ret, retAt, ops, m, shadow, i);
    }
    SuffixRecovered(c, ops, 0, first);
    assert ops[0..] == ops;
  }

  /**
  The x64 round trip: for every call, an x64 callee finds every argument's value, and the
  hidden return pointer, when there is one, in RCX; and the stack holds no more than the
  shadow space and the words past the fourth, and registers without an argument zero.
  */
  lemma {:induction false} RoundTrip(ret: Arg, retAt: Word, ops: seq<Operand>, m: Memory, shadow: seq<Byte>)
    requires AllWellFormed(ops) && FreshBuffers(Amd64, m, ops) && |shadow| == SHADOW_BYTES
    ensures var c := AtEntry(PlanCall(ret, retAt, ops, m), shadow);
            && Parameters(c, Types(ops), ret) == Some(PassedValues(ops))
            && (ReturnsInMemory(ret) ==> c.ints[0] == retAt)
            && |c.stack| == SHADOW_BYTES + 8 * (if PositionOf(ret, |ops|) <= 4 then 0 else PositionOf(ret, |ops|) - 4)
    ensures Preserves(m, PlanCall(ret, retAt, ops, m).memory)
    ensures forall a :: a in PlanCall(ret, retAt, ops, m).memory <==> a in m || InBuffers(Amd64, ops, a)
    ensures forall i :: 0 <= i < 8 && (4 <= i || PositionOf(ret, |ops|) <= i) ==>
              PlanCall(ret, retAt, ops, m).ints[i] == 0 == PlanCall(ret, retAt, ops, m).floats[i]
  {
    forall a ensures a in PlanCall(ret, retAt, ops, m).memory <==> a in m || InBuffers(Amd64, ops, a) {
      AllMaps(m, ops, a);
    }
    AllRecovered(ret, retAt, ops, m, shadow);
    AllPreserved(m, ops);
  }

  /** The position of argument `i`: one further when a hidden return pointer comes first. */
  function PositionOf(ret: Arg, i: nat): nat {
    if HiddenReturn(ret) then i + 1 else i
  }

  /** Argument `i` of any call is where the convention looks for it, in whichever class. */
  lemma {:induction false} ArgumentAtHome(ret: Arg, retAt: Word, ops: seq<Operand>, m: Memory, shadow: seq<Byte>, i: nat, float: bool)
    requires AllWellFormed(ops) && i < |ops| && |shadow| == SHADOW_BYTES
    ensures Home(AtEntry(PlanCall(ret, retAt, ops, m), shadow), PositionOf(ret, i), float) == Some(ArgumentWord(ops[i]))
  {
    Positional(CallWords(ret, retAt, ops), PositionOf(ret, i), float, MemoryAfterAll(m, ops), shadow);
  }

  /** Every by-reference copy is 16-byte aligned, inside its own buffer and equal to the source. */
  lemma {:induction false} CopyIsFaithful(ops: seq<Operand>, m: Memory, i: nat)
    requires AllWellFormed(ops) && FreshBuffers(Amd64, m, ops) && i < |ops| && Amd64.Copies(ops[i].arg)
    ensures var at := ArgumentWord(ops[i]);
            && at % 16 == 0
            && ops[i].base <= at && at + ops[i].arg.size <= ops[i].base + ops[i].arg.size + 16
            && ReadMemory(MemoryAfterAll(m, ops), at, ops[i].arg.size) == Some(ops[i].bytes)
  {
    CopiesHold(m, ops, i);
  }
}
