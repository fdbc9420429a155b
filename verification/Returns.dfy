/**
Composite returns: what finishARM64 and finishAMD64 do to memory after the call, and that
a conforming callee's result arrives in the caller's buffer on both architectures.
*/
module Returns {
  import opened Options
  import opened Bytes
  import opened Calls
  import Aapcs64
  import MicrosoftX64
  import Arm64Planner
  import Arm64RoundTrip
  import Amd64Planner
  import Amd64RoundTrip

  // ---- arm64 --------------------------------------------------------------

  /** The bytes finishARM64 stores for one HFA element: a uint64, or the low uint32. */
  function ElementBytes(w: Word, hfa64: bool): seq<Byte> {
    if hfa64 then LowBytes(w, 8) else LowBytes(w % 0x1_0000_0000, 4)
  }

  /** Consecutive HFA elements from `at` on. */
  function StoreElements(m: Memory, at: int, v: seq<Word>, hfa64: bool): Memory
    decreases |v|
  {
    if v == [] then m
    else StoreElements(WriteMemory(m, at, ElementBytes(v[0], hfa64)), at + (if hfa64 then 8 else 4), v[1..], hfa64)
  }

  function FinishArm64(ret: Arg, at: int, regs: Aapcs64.Captured, m: Memory): Memory
    requires ret.WellFormed() && |regs.v| == 4
  {
    if !ret.kind.ArgStruct? then m
    else if ret.hfa > 0 then StoreElements(m, at, regs.v[..ret.hfa], ret.hfa64)
    else if ret.size <= 8 then WriteMemory(m, at, LowBytes(regs.x0, ret.size))
    else if ret.size <= 16 then
      WriteMemory(WriteMemory(m, at, LowBytes(regs.x0, 8)), at + 8, LowBytes(regs.x1, ret.size - 8))
    else m
  }

  /** The address planARM64 puts in X8 (zero when none is needed). */
  function IndirectResult(ret: Arg, at: Word): Word {
    if ret.kind.ArgStruct? && ret.hfa == 0 && ret.size > 16 then at else 0
  }

  /** Bytes above the low `n` do not matter. */
  lemma {:induction false} ToBytesDrops(v: nat, q: nat, n: nat)
    ensures ToBytes(v + Pow256(n) * q, n) == ToBytes(v, n)
  {
    if n > 0 {
      var t := Pow256(n - 1) * q;
      assert Pow256(n) * q == 256 * t;
      assert (v + 256 * t) % 256 == v % 256 && (v + 256 * t) / 256 == v / 256 + t;
      ToBytesDrops(v / 256, q, n - 1);
    }
  }

  lemma {:induction false} Low32Bytes(w: Word)
    ensures LowBytes(w % 0x1_0000_0000, 4) == LowBytes(w, 4)
  {
    assert Pow256(2) == 0x1_0000;
    assert Pow256(4) == 0x1_0000_0000;
    ToBytesDrops(w % 0x1_0000_0000, w / 0x1_0000_0000, 4);
  }

  /** `bs` is at `at` in `n`, and `n` is otherwise `m`. */
  ghost predicate OnlyWrote(m: Memory, n: Memory, at: int, bs: seq<Byte>) {
    n == WriteMemory(m, at, bs)
  }

  lemma {:induction false} ElementsStored(m: Memory, at: int, v: seq<Word>, hfa64: bool)
    ensures OnlyWrote(m, StoreElements(m, at, v, hfa64), at, Aapcs64.Members(v, if hfa64 then 8 else 4))
    decreases |v|
  {
    if v != [] {
      var w := if hfa64 then 8 else 4;
      var here := LowBytes(v[0], w);
      Low32Bytes(v[0]);
      ElementsStored(WriteMemory(m, at, here), at + w, v[1..], hfa64);
      WriteAdjacent(m, at, here, Aapcs64.Members(v[1..], w));
    }
  }

  lemma {:induction false} PairStored(m: Memory, at: int, x0: Word, x1: Word, size: nat)
    requires 8 < size <= 16
    ensures WriteMemory(WriteMemory(m, at, LowBytes(x0, 8)), at + 8, LowBytes(x1, size - 8))
         == WriteMemory(m, at, WordsBytes([x0, x1])[..size])
  {
    WriteAdjacent(m, at, LowBytes(x0, 8), LowBytes(x1, size - 8));
    WordsBytesSingle(x1);
    assert [x0, x1][1..] == [x1];
    ToBytesTruncates(x1, size - 8, 8);
    assert (LowBytes(x0, 8) + LowBytes(x1, 8))[..size] == LowBytes(x0, 8) + LowBytes(x1, 8)[..size - 8];
  }

  /**
  Whatever composite a conforming arm64 callee returns, finishing the call leaves exactly its
  bytes in the buffer and no other byte changed. Register results are stored by the
  finish; results through X8 are left alone, and X8 was the buffer's address
  exactly for those.
  */
  lemma {:induction false} Arm64ReturnArrives(ret: Arg, at: Word, bytes: seq<Byte>, regs: Aapcs64.Captured, after: Memory)
    requires ret.kind.ArgStruct? && ret.WellFormed() && |regs.v| == 4
    requires Aapcs64.Returned(ret, bytes, regs, IndirectResult(ret, at), after)
    ensures ReadMemory(FinishArm64(ret, at, regs, after), at, ret.size) == Some(bytes)
    ensures if Aapcs64.ReturnsInRegisters(ret) then OnlyWrote(after, FinishArm64(ret, at, regs, after), at, bytes)
            else FinishArm64(ret, at, regs, after) == after
  {
    if ret.hfa > 0 {
      HfaReturnArrives(ret, at, bytes, regs, IndirectResult(ret, at), after);
    } else if ret.size <= 16 {
      ReturnedSmall(ret, bytes, regs, IndirectResult(ret, at), after);
      SmallStored(ret, at, regs, after);
      ReadOfWrite(after, at, bytes);
    }
  }

  lemma {:induction false} HfaReturnArrives(ret: Arg, at: Word, bytes: seq<Byte>, regs: Aapcs64.Captured, x8: Word, after: Memory)
    requires ret.kind.ArgStruct? && ret.WellFormed() && ret.hfa > 0 && |regs.v| == 4
    requires Aapcs64.Returned(ret, bytes, regs, x8, after)
    ensures OnlyWrote(after, FinishArm64(ret, at, regs, after), at, bytes)
    ensures ReadMemory(FinishArm64(ret, at, regs, after), at, ret.size) == Some(bytes)
  {
    assert (regs.v + [0, 0, 0, 0])[0 .. ret.hfa] == regs.v[..ret.hfa];
    ElementsStored(after, at, regs.v[..ret.hfa], ret.hfa64);
    ReturnedSize(ret, bytes, regs);
    ReadOfWrite(after, at, bytes);
  }

  lemma {:induction false} SmallStored(ret: Arg, at: Word, regs: Aapcs64.Captured, after: Memory)
    requires ret.kind.ArgStruct? && ret.WellFormed() && ret.hfa == 0 && ret.size <= 16 && |regs.v| == 4
    ensures FinishArm64(ret, at, regs, after)
         == WriteMemory(after, at, WordsBytes(if ret.size <= 8 then [regs.x0] else [regs.x0, regs.x1])[..ret.size])
  {
    if ret.size <= 8 {
      WordsBytesSingle(regs.x0);
      ToBytesTruncates(regs.x0, ret.size, 8);
    } else {
      PairStored(after, at, regs.x0, regs.x1, ret.size);
    }
  }

  lemma {:induction false} ReturnedSize(ret: Arg, bytes: seq<Byte>, regs: Aapcs64.Captured)
    requires ret.kind.ArgStruct? && ret.WellFormed() && ret.hfa > 0 && |regs.v| == 4
    requires bytes == Aapcs64.Members(regs.v[..ret.hfa], ret.ElementSize())
    ensures |bytes| == ret.size
  {
    MembersLength(regs.v[..ret.hfa], ret.ElementSize());
  }

  lemma {:induction false} MembersLength(regs: seq<Word>, size: nat)
    ensures |Aapcs64.Members(regs, size)| == |regs| * size
  {
    if regs != [] {
      MembersLength(regs[1..], size);
    }
  }

  lemma {:induction false} ReturnedSmall(ret: Arg, bytes: seq<Byte>, regs: Aapcs64.Captured, x8: Word, after: Memory)
    requires ret.kind.ArgStruct? && ret.WellFormed() && ret.hfa == 0 && ret.size <= 16 && |regs.v| == 4
    requires Aapcs64.Returned(ret, bytes, regs, x8, after)
    ensures bytes == WordsBytes(if ret.size <= 8 then [regs.x0] else [regs.x0, regs.x1])[..ret.size]
  {
    var x := [regs.x0, regs.x1, 0, 0, 0, 0, 0, 0];
    assert x[0 .. 1] == [regs.x0] && x[0 .. 2] == [regs.x0, regs.x1];
  }

  // ---- x64 ----------------------------------------------------------------

  function FinishAmd64(ret: Arg, at: int, rax: Word, m: Memory): Memory {
    if ret.kind.ArgStruct? && RegisterSized(ret.size) then WriteMemory(m, at, LowBytes(rax, ret.size)) else m
  }

  lemma {:induction false} Amd64ReturnArrives(ret: Arg, at: Word, ops: seq<Operand>, m: Memory, shadow: seq<Byte>,
                                              bytes: seq<Byte>, rax: Word, after: Memory)
    requires ret.kind.ArgStruct? && AllWellFormed(ops) && FreshBuffers(Amd64, m, ops) && |shadow| == 32
    requires MicrosoftX64.Returned(Amd64RoundTrip.AtEntry(Amd64Planner.PlanCall(ret, at, ops, m), shadow), ret, bytes, rax, after)
    ensures ReadMemory(FinishAmd64(ret, at, rax, after), at, ret.size) == Some(bytes)
    ensures if MicrosoftX64.ReturnsInMemory(ret) then FinishAmd64(ret, at, rax, after) == after
            else OnlyWrote(after, FinishAmd64(ret, at, rax, after), at, bytes)
  {
    Amd64RoundTrip.RoundTrip(ret, at, ops, m, shadow);
    if !MicrosoftX64.ReturnsInMemory(ret) {
      ReadOfWrite(after, at, bytes);
    }
  }

  // ---- what finishing leaves alone ----------------------------------------

  /** The two memories agree outside `[at, at + size)`. */
  ghost predicate SameOutside(m: Memory, n: Memory, at: int, size: nat) {
    forall a :: !(at <= a < at + size) ==> (a in m <==> a in n) && (a in m ==> m[a] == n[a])
  }

  /** Memory after a call that left `m`, with a result of type `ret` wanted at `at`: untouched unless the result
      is a composite, and otherwise untouched outside the caller's buffer. */
  ghost predicate OnlyBufferWritten(ret: Arg, at: int, m: Memory, n: Memory) {
    if ret.kind.ArgStruct? then SameOutside(m, n, at, ret.size) else n == m
  }

  /** Whatever the registers hold, finishing an arm64 call writes nowhere but in the buffer of a composite. */
  lemma {:induction false} Arm64FinishFrame(ret: Arg, at: int, regs: Aapcs64.Captured, m: Memory)
    requires ret.WellFormed() && |regs.v| == 4
    ensures OnlyBufferWritten(ret, at, m, FinishArm64(ret, at, regs, m))
  {
    if ret.kind.ArgStruct? && ret.hfa > 0 {
      ElementsStored(m, at, regs.v[..ret.hfa], ret.hfa64);
      MembersLength(regs.v[..ret.hfa], ret.ElementSize());
    }
  }

  lemma {:induction false} Amd64FinishFrame(ret: Arg, at: int, rax: Word, m: Memory)
    ensures OnlyBufferWritten(ret, at, m, FinishAmd64(ret, at, rax, m))
  {}

  /** X8 is the buffer's address exactly for a result the callee returns through memory, and zero for any other. */
  lemma {:induction false} IndirectResultIff(ret: Arg, at: Word)
    ensures IndirectResult(ret, at) == if ret.kind.ArgStruct? && !Aapcs64.ReturnsInRegisters(ret) then at else 0
  {}

  // ---- whole calls --------------------------------------------------------

  /** What the caller reads after the call: the integer register, the float register, or its buffer. */
  function ReadBack(ret: Arg, at: int, r1: Word, f0: Word, m: Memory): Option<Value> {
    match ret.kind
    case ArgWord => Some(WordValue(r1))
    case ArgFloat32 => Some(FloatValue(LowBytes(f0, 4)))
    case ArgFloat64 => Some(FloatValue(LowBytes(f0, 8)))
    case ArgStruct =>
      match ReadMemory(m, at, ret.size)
      case None => None
      case Some(bytes) => Some(CompositeValue(bytes))
  }

  /** The callee follows the standard and computes `f` of whatever parameters it finds. */
  ghost predicate Arm64Conforms(ret: Arg, at: Word, ops: seq<Operand>, m: Memory,
                                f: seq<Value> -> Value, regs: Aapcs64.Captured, after: Memory)
    requires AllWellFormed(ops) && |regs.v| == 4
  {
    forall vs ::
      Aapcs64.FetchAll(Arm64RoundTrip.AtEntry(Arm64Planner.Run(Arm64Planner.Initial(m), ops)), Types(ops), Aapcs64.START) == Some(vs)
      ==> Aapcs64.ReturnedValue(ret, f(vs), regs, IndirectResult(ret, at), after)
  }

  /**
  Calling through the arm64 planner is transparent: if the callee conforms to the standard and
  computes `f` of whatever parameters it finds, the caller reads back `f` of the values it meant to
  pass, a word, a float or a composite.
  */
  lemma {:induction false} Arm64CallIsTransparent(ret: Arg, at: Word, ops: seq<Operand>, m: Memory,
                                                  f: seq<Value> -> Value, regs: Aapcs64.Captured, after: Memory)
    requires ret.WellFormed() && |regs.v| == 4
    requires AllWellFormed(ops) && FreshBuffers(Arm64, m, ops)
    requires Arm64Conforms(ret, at, ops, m, f, regs, after)
    ensures ReadBack(ret, at, regs.x0, regs.v[0], FinishArm64(ret, at, regs, after)) == Some(f(PassedValues(ops)))
    ensures OnlyBufferWritten(ret, at, after, FinishArm64(ret, at, regs, after))
  {
    Arm64FinishFrame(ret, at, regs, after);
    Arm64RoundTrip.RoundTrip(ops, m);
    if ret.kind.ArgStruct? {
      Arm64ReturnArrives(ret, at, f(PassedValues(ops)).bytes, regs, after);
    }
  }

  ghost predicate Amd64Conforms(ret: Arg, at: Word, ops: seq<Operand>, m: Memory, shadow: seq<Byte>,
                                f: seq<Value> -> Value, rax: Word, xmm0: Word, after: Memory)
    requires AllWellFormed(ops)
  {
    var c := Amd64RoundTrip.AtEntry(Amd64Planner.PlanCall(ret, at, ops, m), shadow);
    forall vs :: MicrosoftX64.Parameters(c, Types(ops), ret) == Some(vs)
      ==> MicrosoftX64.ReturnedValue(c, ret, f(vs), rax, xmm0, after)
  }

  /** Calling through the x64 planner is transparent in the same sense. */
  lemma {:induction false} Amd64CallIsTransparent(ret: Arg, at: Word, ops: seq<Operand>, m: Memory, shadow: seq<Byte>,
                                                  f: seq<Value> -> Value, rax: Word, xmm0: Word, after: Memory)
    requires AllWellFormed(ops) && FreshBuffers(Amd64, m, ops) && |shadow| == 32
    requires Amd64Conforms(ret, at, ops, m, shadow, f, rax, xmm0, after)
    ensures ReadBack(ret, at, rax, xmm0, FinishAmd64(ret, at, rax, after)) == Some(f(PassedValues(ops)))
    ensures OnlyBufferWritten(ret, at, after, FinishAmd64(ret, at, rax, after))
  {
    Amd64FinishFrame(ret, at, rax, after);
    Amd64RoundTrip.RoundTrip(ret, at, ops, m, shadow);
    if ret.kind.ArgStruct? {
      Amd64ReturnArrives(ret, at, ops, m, shadow, f(PassedValues(ops)).bytes, rax, after);
    }
  }
}
