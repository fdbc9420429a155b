/**
The arm64 argument planner (planARM64) as a step function over the planner's state: the
register file of the call frame, the two register counters, the outgoing stack words and
memory with the by-reference copies. CallFrames.dfy proves the imperative planner equal
to this one.
*/
module Arm64Planner {
  import opened Bytes
  import opened Calls

  const REGISTERS := 8

  datatype State = State(ints: seq<Word>, floats: seq<Word>, ngrn: nat, nsrn: nat,
                         stack: seq<Word>, memory: Memory) {
    ghost predicate Valid() {
      |ints| == REGISTERS && |floats| == REGISTERS && ngrn <= REGISTERS && nsrn <= REGISTERS
    }
  }

  predicate ByReference(arg: Arg) {
    Arm64.Copies(arg)
  }

  predicate SmallComposite(arg: Arg) {
    arg.kind.ArgStruct? && arg.hfa == 0 && arg.size <= 16
  }

  /** The registers with `ws` loaded from register `at` on. */
  function Load(regs: seq<Word>, at: nat, ws: seq<Word>): (r: seq<Word>)
    requires at + |ws| <= |regs|
    ensures |r| == |regs|
  {
    regs[..at] + ws + regs[at + |ws|..]
  }

  /** The bits of each HFA element as a D register carries them. */
  function HfaWords(op: Operand): (ws: seq<Word>)
    requires op.WellFormed() && op.arg.IsHfa()
    ensures |ws| == op.arg.hfa
  {
    seq(op.arg.hfa, e requires 0 <= e < op.arg.hfa => HfaElement(op, e))
  }

  function HfaElement(op: Operand, e: nat): Word
    requires op.WellFormed() && op.arg.IsHfa() && e < op.arg.hfa
  {
    var w := op.arg.ElementSize();
    HfaElementInside(op.arg, e);
    PackWord(op.bytes[e * w .. (e + 1) * w])
  }

  lemma {:induction false} HfaElementInside(arg: Arg, e: nat)
    requires arg.WellFormed() && arg.IsHfa() && e < arg.hfa
    ensures 0 <= e * arg.ElementSize() <= (e + 1) * arg.ElementSize() <= arg.size
    ensures (e + 1) * arg.ElementSize() - e * arg.ElementSize() == arg.ElementSize()
  {}

  /** appendComposite: pad to an even word when 16-byte aligned, then whole words. */
  function AppendComposite(stack: seq<Word>, bytes: seq<Byte>, align: nat): seq<Word> {
    (if align >= 16 && |stack| % 2 == 1 then stack + [0] else stack) + PackWords(bytes)
  }

  function PutInt(s: State, word: Word): State
    requires s.Valid()
  {
    if s.ngrn < REGISTERS then s.(ints := s.ints[s.ngrn := word], ngrn := s.ngrn + 1)
    else s.(stack := s.stack + [word])
  }

  function PutFloat(s: State, word: Word): State
    requires s.Valid()
  {
    if s.nsrn < REGISTERS then s.(floats := s.floats[s.nsrn := word], nsrn := s.nsrn + 1)
    else s.(nsrn := REGISTERS, stack := s.stack + [word])
  }

  function PutHfa(s: State, op: Operand): State
    requires s.Valid() && op.WellFormed() && op.arg.IsHfa()
  {
    if s.nsrn + op.arg.hfa <= REGISTERS then
      s.(floats := Load(s.floats, s.nsrn, HfaWords(op)), nsrn := s.nsrn + op.arg.hfa)
    else
      s.(nsrn := REGISTERS, stack := AppendComposite(s.stack, op.bytes, op.arg.align))
  }

  function PutReference(s: State, op: Operand): State
    requires s.Valid() && op.WellFormed() && ByReference(op.arg)
  {
    PutInt(s.(memory := WithCopy(s.memory, op, Arm64.CopyAlign())), CopyAddress(op, Arm64.CopyAlign()))
  }

  /** The register a composite starts at: an even one when it is 16-byte aligned. */
  function FirstRegister(ngrn: nat, align: nat): nat {
    if align >= 16 && ngrn % 2 == 1 then ngrn + 1 else ngrn
  }

  function PutSmall(s: State, op: Operand): State
    requires s.Valid() && op.WellFormed() && SmallComposite(op.arg)
  {
    var first := FirstRegister(s.ngrn, op.arg.align);
    var words := (op.arg.size + 7) / 8;
    PackWordsCount(op.bytes);
    if first + words <= REGISTERS then
      s.(ints := Load(s.ints, first, PackWords(op.bytes)), ngrn := first + words)
    else
      s.(ngrn := REGISTERS, stack := AppendComposite(s.stack, op.bytes, op.arg.align))
  }

  function Step(s: State, op: Operand): (t: State)
    requires s.Valid() && op.WellFormed()
    ensures t.Valid()
  {
    match op.arg.kind
    case ArgWord => PutInt(s, op.word)
    case ArgFloat32 => PutFloat(s, op.word)
    case ArgFloat64 => PutFloat(s, op.word)
    case ArgStruct =>
      if op.arg.hfa > 0 then PutHfa(s, op)
      else if op.arg.size > 16 then PutReference(s, op)
      else PutSmall(s, op)
  }

  function Run(s: State, ops: seq<Operand>): (t: State)
    requires s.Valid() && AllWellFormed(ops)
    ensures t.Valid()
    decreases |ops|
  {
    if ops == [] then s else Run(Step(s, ops[0]), ops[1..])
  }

  function NoWords(n: nat): (ws: seq<Word>)
    ensures |ws| == n
    ensures forall i :: 0 <= i < n ==> ws[i] == 0
  {
    seq(n, _ => 0)
  }

  /** A zeroed call frame over the caller's memory. */
  function Initial(m: Memory): (s: State)
    ensures s.Valid()
  {
    State(NoWords(REGISTERS), NoWords(REGISTERS), 0, 0, [], m)
  }

  // ---- what a step keeps --------------------------------------------------

  /** `t` has every word `s` had placed: registers below the counters, stack words. */
  ghost predicate Keeps(s: State, t: State)
    requires s.Valid() && t.Valid()
  {
    && s.ngrn <= t.ngrn && s.nsrn <= t.nsrn
    && s.ints[..s.ngrn] == t.ints[..s.ngrn]
    && s.floats[..s.nsrn] == t.floats[..s.nsrn]
    && s.stack <= t.stack
  }

  ghost predicate Extends(s: State, t: State)
    requires s.Valid() && t.Valid()
  {
    Keeps(s, t) && Preserves(s.memory, t.memory)
  }

  lemma {:induction false} StepKeeps(s: State, op: Operand)
    requires s.Valid() && op.WellFormed()
    ensures Keeps(s, Step(s, op))
  {}

  lemma {:induction false} KeepsTransitive(s: State, t: State, u: State)
    requires s.Valid() && t.Valid() && u.Valid()
    requires Keeps(s, t) && Keeps(t, u)
    ensures Keeps(s, u)
  {
    assert s.ints[..s.ngrn] == t.ints[..t.ngrn][..s.ngrn] == u.ints[..t.ngrn][..s.ngrn] == u.ints[..s.ngrn];
    assert s.floats[..s.nsrn] == t.floats[..t.nsrn][..s.nsrn] == u.floats[..t.nsrn][..s.nsrn] == u.floats[..s.nsrn];
  }

  lemma {:induction false} RunKeeps(s: State, ops: seq<Operand>)
    requires s.Valid() && AllWellFormed(ops)
    ensures Keeps(s, Run(s, ops))
    decreases |ops|
  {
    if ops != [] {
      StepKeeps(s, ops[0]);
      RunKeeps(Step(s, ops[0]), ops[1..]);
      KeepsTransitive(s, Step(s, ops[0]), Run(s, ops));
    }
  }

  lemma {:induction false} StepMemory(s: State, op: Operand)
    requires s.Valid() && op.WellFormed()
    ensures Step(s, op).memory == MemoryAfter(Arm64, s.memory, op)
  {}

  lemma {:induction false} RunPreserves(s: State, ops: seq<Operand>)
    requires s.Valid() && AllWellFormed(ops) && FreshBuffers(Arm64, s.memory, ops)
    ensures Preserves(s.memory, Run(s, ops).memory)
    decreases |ops|
  {
    if ops != [] {
      StepMemory(s, ops[0]);
      FreshBuffersAfterStep(Arm64, s.memory, ops);
      RunPreserves(Step(s, ops[0]), ops[1..]);
    }
  }

  /** Planning maps nothing but the buffers of the copies. */
  lemma {:induction false} RunMaps(s: State, ops: seq<Operand>, a: int)
    requires s.Valid() && AllWellFormed(ops) && FreshBuffers(Arm64, s.memory, ops)
    ensures a in Run(s, ops).memory <==> a in s.memory || InBuffers(Arm64, ops, a)
    decreases |ops|
  {
    if ops != [] {
      StepMemory(s, ops[0]);
      StepDomain(Arm64, s.memory, ops[0], a);
      FreshBuffersAfterStep(Arm64, s.memory, ops);
      InBuffersNext(Arm64, ops, a);
      RunMaps(Step(s, ops[0]), ops[1..], a);
    }
  }

  lemma {:induction false} RunExtends(s: State, ops: seq<Operand>)
    requires s.Valid() && AllWellFormed(ops) && FreshBuffers(Arm64, s.memory, ops)
    ensures Extends(s, Run(s, ops))
  {
    RunKeeps(s, ops);
    RunPreserves(s, ops);
  }
}
