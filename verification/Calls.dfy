/**
Call-site descriptors of the register-aware call path
(bindings/runtime/win32/call.go): what one argument is, what a caller hands over
for it, and the value a callee is meant to see.
*/
module Calls {
  import opened Options
  import opened Bytes

  /** The outgoing stack area the trampolines reserve. */
  const MAX_STACK_WORDS := 42

  datatype ArgKind = ArgWord | ArgFloat32 | ArgFloat64 | ArgStruct

  /** `size`, `align`, `hfa` and `hfa64` are the C layout of an ArgStruct. */
  datatype Arg = Arg(kind: ArgKind, size: nat, align: nat, hfa: nat, hfa64: bool) {

    /** What the generator promises of a descriptor: a composite is not empty, leaves room
        for a 16-byte alignment slack in a uint32, and an HFA is exactly its elements. */
    ghost predicate WellFormed() {
      kind.ArgStruct? ==>
        && 0 < size && size + 16 < 0x1_0000_0000
        && hfa <= 4
        && (hfa > 0 ==> size == hfa * ElementSize())
    }

    function ElementSize(): nat {
      if hfa64 then 8 else 4
    }

    predicate IsHfa() {
      kind.ArgStruct? && hfa > 0
    }

    /** Arguments AAPCS64 counts with NSRN; all others count with NGRN. */
    predicate FloatClass() {
      kind.ArgFloat32? || kind.ArgFloat64? || IsHfa()
    }
  }

  /** An aggregate size x64 passes as if it were an integer. */
  predicate RegisterSized(size: nat) {
    size == 1 || size == 2 || size == 4 || size == 8
  }

  datatype Arch = Amd64 | Arm64 {

    /** Is this argument passed as a pointer to a caller copy? */
    predicate Copies(arg: Arg) {
      && arg.kind.ArgStruct?
      && match this
         case Amd64 => !RegisterSized(arg.size)
         case Arm64 => arg.hfa == 0 && arg.size > 16
    }

    function CopyAlign(): (align: nat)
      ensures CopyAlignment(align)
    {
      if Amd64? then 16 else 8
    }
  }

  /**
  One argument of one call: its descriptor, the word passed to Call, and for a composite
  the bytes that word points to and the address the Go allocator would answer with
  if the composite has to be copied.
  */
  datatype Operand = Operand(arg: Arg, word: Word, bytes: seq<Byte>, base: int) {

    ghost predicate WellFormed() {
      && arg.WellFormed()
      && (arg.kind.ArgStruct? ==>
            |bytes| == arg.size && 0 <= base && base + arg.size + 16 <= WORD_LIMIT)
    }
  }

  datatype Value =
    | WordValue(word: Word)
    | FloatValue(bits: seq<Byte>)
    | CompositeValue(bytes: seq<Byte>)

  /** What the caller means to pass: the word, the IEEE bits, or the composite itself. */
  function PassedValue(op: Operand): Value {
    match op.arg.kind
    case ArgWord => WordValue(op.word)
    case ArgFloat32 => FloatValue(LowBytes(op.word, 4))
    case ArgFloat64 => FloatValue(LowBytes(op.word, 8))
    case ArgStruct => CompositeValue(op.bytes)
  }

  function PassedValues(ops: seq<Operand>): seq<Value> {
    if ops == [] then [] else [PassedValue(ops[0])] + PassedValues(ops[1..])
  }

  function Types(ops: seq<Operand>): seq<Arg> {
    if ops == [] then [] else [ops[0].arg] + Types(ops[1..])
  }

  ghost predicate AllWellFormed(ops: seq<Operand>) {
    forall i :: 0 <= i < |ops| ==> ops[i].WellFormed()
  }

  // ---- by-reference copies ------------------------------------------------

  /** The alignments alignedCopy is asked for: 8 on arm64, 16 on x64. */
  predicate CopyAlignment(align: nat) {
    align == 8 || align == 16
  }

  function AlignmentOffset(base: int, align: nat): (offset: nat)
    requires CopyAlignment(align)
    ensures offset < align
    ensures (base + offset) % align == 0
  {
    (align - base % align) % align
  }

  /** Where alignedCopy puts the composite inside the buffer at `base`. */
  function CopyAddress(op: Operand, align: nat): (a: Word)
    requires op.WellFormed() && op.arg.kind.ArgStruct? && CopyAlignment(align)
    ensures op.base <= a < op.base + align
    ensures a % align == 0
  {
    op.base + AlignmentOffset(op.base, align)
  }

  /** The memory after alignedCopy: a zeroed buffer of size + align bytes holding the copy. */
  function WithCopy(m: Memory, op: Operand, align: nat): Memory
    requires op.WellFormed() && op.arg.kind.ArgStruct? && CopyAlignment(align)
  {
    WriteMemory(WriteMemory(m, op.base, Zeros(op.arg.size + align)), CopyAddress(op, align), op.bytes)
  }

  /** The allocator's answer for this operand overlaps nothing that is in use. */
  ghost predicate FreshBuffer(m: Memory, op: Operand, align: nat) {
    forall a :: op.base <= a < op.base + op.arg.size + align ==> a !in m
  }

  ghost predicate DisjointBuffers(a: Operand, b: Operand, align: nat) {
    a.base + a.arg.size + align <= b.base || b.base + b.arg.size + align <= a.base
  }

  /** The allocator hands out buffers that overlap neither live memory nor each other. */
  ghost predicate FreshBuffers(arch: Arch, m: Memory, ops: seq<Operand>) {
    && (forall i :: 0 <= i < |ops| && arch.Copies(ops[i].arg) ==> FreshBuffer(m, ops[i], arch.CopyAlign()))
    && (forall i, j :: 0 <= i < j < |ops| && arch.Copies(ops[i].arg) && arch.Copies(ops[j].arg) ==>
          DisjointBuffers(ops[i], ops[j], arch.CopyAlign()))
  }

  lemma {:induction false} WithCopyHolds(m: Memory, op: Operand, align: nat)
    requires op.WellFormed() && op.arg.kind.ArgStruct? && CopyAlignment(align)
    requires FreshBuffer(m, op, align)
    ensures Preserves(m, WithCopy(m, op, align))
    ensures ReadMemory(WithCopy(m, op, align), CopyAddress(op, align), op.arg.size) == Some(op.bytes)
    ensures forall a :: a in WithCopy(m, op, align) <==> a in m || op.base <= a < op.base + op.arg.size + align
  {
    ReadOfWrite(WriteMemory(m, op.base, Zeros(op.arg.size + align)), CopyAddress(op, align), op.bytes);
  }

  function MemoryAfter(arch: Arch, m: Memory, op: Operand): Memory
    requires op.WellFormed()
  {
    if arch.Copies(op.arg) then WithCopy(m, op, arch.CopyAlign()) else m
  }

  lemma {:induction false} FreshBuffersAfterStep(arch: Arch, m: Memory, ops: seq<Operand>)
    requires AllWellFormed(ops) && ops != [] && FreshBuffers(arch, m, ops)
    ensures Preserves(m, MemoryAfter(arch, m, ops[0]))
    ensures FreshBuffers(arch, MemoryAfter(arch, m, ops[0]), ops[1..])
  {
    var rest, align := ops[1..], arch.CopyAlign();
    if arch.Copies(ops[0].arg) {
      WithCopyHolds(m, ops[0], align);
    }
    forall i | 0 <= i < |rest| && arch.Copies(rest[i].arg)
      ensures FreshBuffer(MemoryAfter(arch, m, ops[0]), rest[i], align)
    {
      assert rest[i] == ops[i + 1];
      assert FreshBuffer(m, ops[i + 1], align);
      if arch.Copies(ops[0].arg) {
        assert DisjointBuffers(ops[0], ops[i + 1], align);
      }
    }
  }

  // ---- what planning adds to memory ---------------------------------------

  /** Address `a` is in the buffer of some argument that is passed as a copy. */
  ghost predicate InBuffers(arch: Arch, ops: seq<Operand>, a: int) {
    exists i :: 0 <= i < |ops| && arch.Copies(ops[i].arg) && ops[i].base <= a < ops[i].base + ops[i].arg.size + arch.CopyAlign()
  }

  lemma {:induction false} StepDomain(arch: Arch, m: Memory, op: Operand, a: int)
    requires op.WellFormed() && (arch.Copies(op.arg) ==> FreshBuffer(m, op, arch.CopyAlign()))
    ensures a in MemoryAfter(arch, m, op) <==>
      a in m || (arch.Copies(op.arg) && op.base <= a < op.base + op.arg.size + arch.CopyAlign())
  {
    if arch.Copies(op.arg) {
      WithCopyHolds(m, op, arch.CopyAlign());
    }
  }

  lemma {:induction false} InBuffersNext(arch: Arch, ops: seq<Operand>, a: int)
    requires ops != []
    ensures InBuffers(arch, ops, a) <==>
      || (arch.Copies(ops[0].arg) && ops[0].base <= a < ops[0].base + ops[0].arg.size + arch.CopyAlign())
      || InBuffers(arch, ops[1..], a)
  {
    if InBuffers(arch, ops[1..], a) {
      var i :| 0 <= i < |ops[1..]| && arch.Copies(ops[1..][i].arg)
            && ops[1..][i].base <= a < ops[1..][i].base + ops[1..][i].arg.size + arch.CopyAlign();
      assert ops[1..][i] == ops[i + 1];
    }
    if i :| 0 < i < |ops| && arch.Copies(ops[i].arg) && ops[i].base <= a < ops[i].base + ops[i].arg.size + arch.CopyAlign() {
      assert ops[i] == ops[1..][i - 1];
    }
  }
}
