/**
An AAPCS64 callee recovers exactly what an arm64 Call passed: the planner of
Arm64Planner.dfy against the independent callee of Aapcs64.dfy.
*/
module Arm64RoundTrip {
  import opened Options
  import opened Bytes
  import opened Calls
  import opened Arm64Planner
  import opened Aapcs64

  /** What the trampoline loads: the registers, and the stack words from SP upwards. */
  function AtEntry(s: State): Callee {
    Callee(s.ints, s.floats, WordsBytes(s.stack), s.memory)
  }

  function CursorOf(s: State): Cursor {
    Cursor(s.ngrn, s.nsrn, 8 * |s.stack|)
  }

  /** `s` and then whatever later arguments add. */
  ghost predicate Later(s: State, t: State) {
    s.Valid() && t.Valid() && Extends(s, t)
  }

  lemma {:induction false} StackedBytes(stack: seq<Word>, before: seq<Word>, ws: seq<Word>, n: nat)
    requires before + ws <= stack
    requires n <= 8 * |ws|
    ensures 8 * |before| + n <= |WordsBytes(stack)|
    ensures WordsBytes(stack)[8 * |before| .. 8 * |before| + n] == WordsBytes(ws)[..n]
  {
    var at := |before|;
    assert ws == stack[at .. at + |ws|];
    WordsBytesSlice(stack, at, |ws|);
    var image := WordsBytes(stack);
    assert image[8 * at .. 8 * (at + |ws|)][..n] == image[8 * at .. 8 * at + n];
  }

  lemma {:induction false} FetchStackedWords(t: State, k: Cursor, before: seq<Word>, bytes: seq<Byte>, unit: nat)
    requires unit == 8 || unit == 16
    requires t.Valid() && before + PackWords(bytes) <= t.stack
    requires RoundUp(k.nsaa, unit) == 8 * |before|
    ensures FetchStacked(AtEntry(t), k, |bytes|, unit)
         == Some(Fetched(bytes, k.(nsaa := 8 * |before + PackWords(bytes)|)))
  {
    PackWordsRoundTrip(bytes);
    PackWordsCount(bytes);
    StackedBytes(t.stack, before, PackWords(bytes), |bytes|);
  }

  lemma {:induction false} FetchStackedWord(t: State, k: Cursor, before: seq<Word>, w: Word, n: nat)
    requires t.Valid() && before + [w] <= t.stack
    requires k.nsaa == 8 * |before|
    requires 1 <= n <= 8
    ensures FetchStacked(AtEntry(t), k, n, 8)
         == Some(Fetched(LowBytes(w, n), k.(nsaa := 8 * |before + [w]|)))
  {
    WordsBytesSingle(w);
    StackedBytes(t.stack, before, [w], n);
    ToBytesTruncates(w, n, 8);
  }

  lemma {:induction false} WordRecovered(s: State, w: Word, t: State)
    requires s.Valid() && Later(PutInt(s, w), t)
    ensures FetchWord(AtEntry(t), CursorOf(s)) == Some(Fetched(w, CursorOf(PutInt(s, w))))
  {
    if s.ngrn < 8 {
      assert t.ints[s.ngrn] == t.ints[..s.ngrn + 1][s.ngrn] == w;
    } else {
      FetchStackedWord(t, CursorOf(s), s.stack, w, 8);
      WordRoundTrip(w);
    }
  }

  lemma {:induction false} FloatRecovered(s: State, w: Word, n: nat, t: State)
    requires s.Valid() && 1 <= n <= 8 && Later(PutFloat(s, w), t)
    ensures FetchFloat(AtEntry(t), n, CursorOf(s)) == Some(Fetched(LowBytes(w, n), CursorOf(PutFloat(s, w))))
  {
    if s.nsrn < 8 {
      assert t.floats[s.nsrn] == t.floats[..s.nsrn + 1][s.nsrn] == w;
    } else {
      FetchStackedWord(t, CursorOf(s), s.stack, w, n);
    }
  }

  /** Rounding the stacked address up is padding to an even word. */
  lemma {:induction false} PaddedStart(words: nat, unit: nat)
    requires unit == 8 || unit == 16
    ensures RoundUp(8 * words, unit) == 8 * (if unit == 16 && words % 2 == 1 then words + 1 else words)
  {
    if unit == 8 {
      assert RoundUp(8 * words, 8) == 8 * words;
    } else {
      var q := words / 2;
      assert words == 2 * q + words % 2;
      assert RoundUp(16 * q, 16) == 16 * q && RoundUp(16 * q + 8, 16) == 16 * q + 16;
    }
  }

  /** A composite on the stack, padded the way the planner pads and the standard rounds. */
  lemma {:induction false} StackedCompositeRecovered(stack: seq<Word>, k: Cursor, op: Operand, t: State)
    requires op.WellFormed() && op.arg.kind.ArgStruct? && t.Valid()
    requires k.nsaa == 8 * |stack|
    requires AppendComposite(stack, op.bytes, op.arg.align) <= t.stack
    ensures FetchStacked(AtEntry(t), k, op.arg.size, AdjustedAlignment(op.arg))
         == Some(Fetched(op.bytes, k.(nsaa := 8 * |AppendComposite(stack, op.bytes, op.arg.align)|)))
  {
    var before := if op.arg.align >= 16 && |stack| % 2 == 1 then stack + [0] else stack;
    PaddedStart(|stack|, AdjustedAlignment(op.arg));
    FetchStackedWords(t, k, before, op.bytes, AdjustedAlignment(op.arg));
  }

  lemma {:induction false} MembersOfElements(op: Operand, from: nat)
    requires op.WellFormed() && op.arg.IsHfa() && from <= op.arg.hfa
    ensures from * op.arg.ElementSize() <= op.arg.size
    ensures Members(HfaWords(op)[from..], op.arg.ElementSize()) == op.bytes[from * op.arg.ElementSize()..]
    decreases op.arg.hfa - from
  {
    var w, words := op.arg.ElementSize(), HfaWords(op);
    if from < op.arg.hfa {
      HfaElementInside(op.arg, from);
      MembersOfElements(op, from + 1);
      var element := op.bytes[from * w .. (from + 1) * w];
      PackWordRoundTrip(element, w);
      assert words[from..][0] == HfaElement(op, from);
      assert words[from..][1..] == words[from + 1..];
      assert op.bytes[from * w..] == element + op.bytes[(from + 1) * w..];
    }
  }

  lemma {:induction false} LoadedWords(regs: seq<Word>, at: nat, ws: seq<Word>, later: seq<Word>)
    requires at + |ws| <= |regs| == |later|
    requires Load(regs, at, ws)[..at + |ws|] == later[..at + |ws|]
    ensures later[at .. at + |ws|] == ws
  {
    assert later[at .. at + |ws|] == later[..at + |ws|][at..] == Load(regs, at, ws)[..at + |ws|][at..];
  }

  lemma {:induction false} HfaRecovered(s: State, op: Operand, t: State)
    requires s.Valid() && op.WellFormed() && op.arg.IsHfa() && Later(PutHfa(s, op), t)
    ensures FetchHfa(AtEntry(t), op.arg, CursorOf(s)) == Some(Fetched(op.bytes, CursorOf(PutHfa(s, op))))
  {
    if s.nsrn + op.arg.hfa <= 8 {
      LoadedWords(s.floats, s.nsrn, HfaWords(op), t.floats);
      MembersOfElements(op, 0);
      assert HfaWords(op)[0..] == HfaWords(op) && op.bytes[0..] == op.bytes;
    } else {
      StackedCompositeRecovered(s.stack, CursorOf(s).(nsrn := 8), op, t);
    }
  }

  /** The planner's parity bump and word count are the standard's rounding. */
  lemma {:induction false} SmallPlacement(ngrn: nat, arg: Arg)
    ensures FirstRegister(ngrn, arg.align) == if AdjustedAlignment(arg) == 16 then RoundUp(ngrn, 2) else ngrn
    ensures (arg.size + 7) / 8 == RoundUp(arg.size, 8) / 8
  {}

  lemma {:induction false} SmallRecovered(s: State, op: Operand, t: State)
    requires s.Valid() && op.WellFormed() && SmallComposite(op.arg) && Later(PutSmall(s, op), t)
    ensures FetchComposite(AtEntry(t), op.arg, CursorOf(s)) == Some(Fetched(op.bytes, CursorOf(PutSmall(s, op))))
  {
    var first := FirstRegister(s.ngrn, op.arg.align);
    var n := (op.arg.size + 7) / 8;
    SmallPlacement(s.ngrn, op.arg);
    PackWordsCount(op.bytes);
    if first + n <= 8 {
      LoadedWords(s.ints, first, PackWords(op.bytes), t.ints);
      PackWordsRoundTrip(op.bytes);
    } else {
      StackedCompositeRecovered(s.stack, CursorOf(s).(ngrn := 8), op, t);
    }
  }

  lemma {:induction false} ReferenceRecovered(s: State, op: Operand, t: State)
    requires s.Valid() && op.WellFormed() && ByReference(op.arg) && FreshBuffer(s.memory, op, Arm64.CopyAlign())
    requires Later(PutReference(s, op), t)
    ensures FetchReference(AtEntry(t), op.arg, CursorOf(s))
         == Some(Fetched(op.bytes, CursorOf(PutReference(s, op))))
  {
    var copied := s.(memory := WithCopy(s.memory, op, Arm64.CopyAlign()));
    WordRecovered(copied, CopyAddress(op, Arm64.CopyAlign()), t);
    WithCopyHolds(s.memory, op, Arm64.CopyAlign());
    ReadPreserved(copied.memory, t.memory, CopyAddress(op, Arm64.CopyAlign()), op.arg.size);
  }

  /** Whatever follows, the callee's cursor and the planner's counters stay in step. */
  lemma {:induction false} OperandRecovered(s: State, op: Operand, t: State)
    requires s.Valid() && op.WellFormed()
    requires ByReference(op.arg) ==> FreshBuffer(s.memory, op, Arm64.CopyAlign())
    requires Later(Step(s, op), t)
    ensures Fetch(AtEntry(t), op.arg, CursorOf(s)) == Some(Fetched(PassedValue(op), CursorOf(Step(s, op))))
  {
    match op.arg.kind {
      case ArgWord => WordRecovered(s, op.word, t);
      case ArgFloat32 => FloatRecovered(s, op.word, 4, t);
      case ArgFloat64 => FloatRecovered(s, op.word, 8, t);
      case ArgStruct =>
        if op.arg.hfa > 0 {
          HfaRecovered(s, op, t);
        } else if op.arg.size > 16 {
          ReferenceRecovered(s, op, t);
        } else {
          SmallRecovered(s, op, t);
        }
    }
  }

  lemma {:induction false} RunRecovered(s: State, ops: seq<Operand>)
    requires s.Valid() && AllWellFormed(ops) && FreshBuffers(Arm64, s.memory, ops)
    ensures FetchAll(AtEntry(Run(s, ops)), Types(ops), CursorOf(s)) == Some(PassedValues(ops))
    decreases |ops|
  {
    if ops != [] {
      var t := Step(s, ops[0]);
      StepMemory(s, ops[0]);
      FreshBuffersAfterStep(Arm64, s.memory, ops);
      RunExtends(t, ops[1..]);
      OperandRecovered(s, ops[0], Run(s, ops));
      RunRecovered(t, ops[1..]);
      assert Types(ops)[1..] == Types(ops[1..]);
    }
  }

  /**
  The arm64 round trip: for every argument list and every honest allocator, a callee that
  follows the standard finds every word, every float's bits and every composite's
  bytes, and finds them without touching anything the caller did not provide.
  */
  lemma {:induction false} RoundTrip(ops: seq<Operand>, m: Memory)
    requires AllWellFormed(ops) && FreshBuffers(Arm64, m, ops)
    ensures FetchAll(AtEntry(Run(Initial(m), ops)), Types(ops), START) == Some(PassedValues(ops))
    ensures Preserves(m, Run(Initial(m), ops).memory)
    ensures forall a :: a in Run(Initial(m), ops).memory <==> a in m || InBuffers(Arm64, ops, a)
  {
    forall a ensures a in Run(Initial(m), ops).memory <==> a in m || InBuffers(Arm64, ops, a) {
      RunMaps(Initial(m), ops, a);
    }
    RunRecovered(Initial(m), ops);
    RunExtends(Initial(m), ops);
  }
}
