/**
The call path as it runs: pooled call frames with their register arrays, the growing slice
of stack words, and a heap that is written in place. Each operation is proved equal to
the function that specifies it in Arm64Planner, Amd64Planner and Returns.
*/
module CallFrames {
  import opened Options
  import opened Bytes
  import opened Calls
  import Arm64Planner
  import Amd64Planner
  import Aapcs64
  import Returns

  // ---- heap ---------------------------------------------------------------

  class Heap {
    var cells: Memory

    ghost predicate Mapped(at: int, n: nat)
      reads this
    {
      ReadMemory(cells, at, n).Some?
    }

    /** copyBytes: the bytes that were at `src`, also when the ranges overlap. */
    method CopyBytes(dst: int, src: int, n: nat)
      requires Mapped(src, n)
      modifies this
      ensures cells == WriteMemory(old(cells), dst, ReadMemory(old(cells), src, n).value)
    {
      ghost var before := cells;
      var bytes := ReadMemory(cells, src, n).value;
      for i := 0 to n
        invariant cells == WriteMemory(before, dst, bytes[..i])
      {
        WriteNext(before, dst, bytes, i);
        cells := cells[dst + i := bytes[i]];
      }
      assert bytes[..n] == bytes;
    }

    /** loadWord: `size` bytes at `p` in the low end of a word. */
    method LoadWord(p: int, size: nat) returns (word: Word)
      requires size <= 8 && Mapped(p, size)
      ensures word == PackWord(ReadMemory(cells, p, size).value)
    {
      ghost var bytes := ReadMemory(cells, p, size).value;
      var value: nat := 0;
      var i := size;
      assert bytes[size..] == [];
      while i > 0
        invariant 0 <= i <= size
        invariant value == FromBytes(bytes[i..])
      {
        i := i - 1;
        assert bytes[i..][1..] == bytes[i + 1..];
        value := cells[p + i] + 256 * value;
      }
      assert bytes[0..] == bytes;
      assert value == PackWord(bytes);
      word := value;
    }

    /** storeWord: the low `size` bytes of `word` at `p`. */
    method StoreWord(p: int, word: Word, size: nat)
      modifies this
      ensures cells == WriteMemory(old(cells), p, LowBytes(word, size))
    {
      ghost var before, bytes := cells, LowBytes(word, size);
      var rest: nat := word;
      for i := 0 to size
        invariant cells == WriteMemory(before, p, bytes[..i])
        invariant ToBytes(rest, size - i) == bytes[i..]
      {
        LowByteNext(rest, bytes, i);
        WriteNext(before, p, bytes, i);
        cells := cells[p + i := rest % 256];
        rest := rest / 256;
      }
      assert bytes[..size] == bytes;
    }

    /** alignedCopy: the allocator answers with `base`, and the composite lands on the first
        aligned address in the zeroed buffer there. */
    method AlignedCopy(p: Word, base: int, align: nat, size: nat, ghost op: Operand) returns (aligned: Word)
      requires op.WellFormed() && op.arg.kind.ArgStruct? && CopyAlignment(align)
      requires op.base == base && op.arg.size == size
      requires ReadMemory(cells, p, size) == Some(op.bytes) && FreshBuffer(cells, op, align)
      modifies this
      ensures aligned == CopyAddress(op, align)
      ensures cells == WithCopy(old(cells), op, align)
    {
      CopyLands(cells, op, align, p);
      cells := WriteMemory(cells, base, Zeros(size + align));
      aligned := FirstAligned(base, align, op);
      CopyBytes(aligned, p, size);
    }

    method FirstAligned(base: int, align: nat, ghost op: Operand) returns (aligned: Word)
      requires op.WellFormed() && op.arg.kind.ArgStruct? && CopyAlignment(align) && op.base == base
      ensures aligned == CopyAddress(op, align)
    {
      var offset := (align - base % align) % align;
      assert offset == AlignmentOffset(base, align);
      aligned := base + offset;
    }
  }

  /** Copying from live memory into the fresh buffer is the memory that WithCopy means. */
  lemma {:induction false} CopyLands(m: Memory, op: Operand, align: nat, p: int)
    requires op.WellFormed() && op.arg.kind.ArgStruct? && CopyAlignment(align)
    requires ReadMemory(m, p, op.arg.size) == Some(op.bytes) && FreshBuffer(m, op, align)
    ensures ReadMemory(WriteMemory(m, op.base, Zeros(op.arg.size + align)), p, op.arg.size) == Some(op.bytes)
  {
    MappedApart(m, p, op.arg.size, op.base, op.arg.size + align);
    ReadElsewhere(m, op.base, Zeros(op.arg.size + align), p, op.arg.size);
  }

  lemma {:induction false} WriteNext(m: Memory, at: int, bytes: seq<Byte>, i: nat)
    requires i < |bytes|
    ensures WriteMemory(m, at, bytes[..i])[at + i := bytes[i]] == WriteMemory(m, at, bytes[..i + 1])
  {
    WriteAdjacent(m, at, bytes[..i], [bytes[i]]);
    assert bytes[..i] + [bytes[i]] == bytes[..i + 1];
  }

  lemma {:induction false} LowByteNext(rest: nat, bytes: seq<Byte>, i: nat)
    requires i < |bytes| && ToBytes(rest, |bytes| - i) == bytes[i..]
    ensures bytes[i] == rest % 256 && ToBytes(rest / 256, |bytes| - i - 1) == bytes[i + 1..]
  {
    assert bytes[i..][0] == bytes[i] && bytes[i..][1..] == bytes[i + 1..];
  }

  // ---- slices of words ----------------------------------------------------

  /** A Go slice of words that starts out on an array it does not own and moves to a larger
      one of its own when that is full. */
  class WordSlice {
    const home: array<Word>
    var backing: array<Word>
    var len: nat

    /** As long as the words fit, they are still in the array the slice started on. */
    ghost predicate Valid()
      reads this
    {
      && len <= backing.Length
      && (backing == home || home.Length < len)
    }

    ghost function Words(): seq<Word>
      reads this, backing
      requires Valid()
    {
      backing[..len]
    }

    /** An empty slice on that array. */
    constructor (home: array<Word>)
      ensures Valid() && this.home == home == backing && Words() == []
    {
      this.home := home;
      backing := home;
      len := 0;
    }

    method Append(word: Word)
      requires Valid()
      modifies this, backing
      ensures Valid() && Words() == old(Words()) + [word]
      ensures backing == old(backing) || fresh(backing)
    {
      if len == backing.Length {
        var larger := new Word[2 * len + 1];
        for i := 0 to len
          invariant larger[..i] == backing[..i]
          modifies larger
        {
          larger[i] := backing[i];
        }
        backing := larger;
      }
      backing[len] := word;
      len := len + 1;
    }

    /** The bytes at `p` in whole words. */
    method AppendBytes(heap: Heap, p: int, size: nat)
      requires Valid() && heap.Mapped(p, size)
      modifies this, backing
      ensures Valid()
      ensures Words() == old(Words()) + PackWords(ReadMemory(heap.cells, p, size).value)
      ensures backing == old(backing) || fresh(backing)
    {
      ghost var bytes := ReadMemory(heap.cells, p, size).value;
      ghost var goal := Words() + PackWords(bytes);
      var done := 0;
      assert bytes[0..] == bytes;
      while done < size
        invariant 0 <= done <= size
        invariant Valid() && (backing == old(backing) || fresh(backing))
        invariant Words() + PackWords(bytes[done..]) == goal
      {
        var n := if size - done < 8 then size - done else 8;
        PackNext(bytes, done, n);
        ReadInside(heap.cells, p, size, done, n);
        var word := heap.LoadWord(p + done, n);
        AppendNext(Words(), word, PackWords(bytes[done + n..]));
        Append(word);
        done := done + n;
      }
      assert bytes[size..] == [];
    }

    /** appendComposite: pad to an even word when 16-byte aligned, then the composite. */
    method AppendComposite(heap: Heap, p: int, size: nat, align: nat)
      requires Valid() && heap.Mapped(p, size)
      modifies this, backing
      ensures Valid()
      ensures Words() == Arm64Planner.AppendComposite(old(Words()), ReadMemory(heap.cells, p, size).value, align)
      ensures backing == old(backing) || fresh(backing)
    {
      if align >= 16 && len % 2 == 1 {
        Append(0);
      }
      AppendBytes(heap, p, size);
    }
  }

  lemma {:induction false} AppendNext(words: seq<Word>, word: Word, rest: seq<Word>)
    ensures words + ([word] + rest) == words + [word] + rest
  {}

  lemma {:induction false} PackNext(bytes: seq<Byte>, done: nat, n: nat)
    requires done < |bytes| && n == if |bytes| - done < 8 then |bytes| - done else 8
    ensures PackWords(bytes[done..]) == [PackWord(bytes[done .. done + n])] + PackWords(bytes[done + n..])
  {
    var rest := bytes[done..];
    assert rest[..n] == bytes[done .. done + n];
    assert rest[n..] == bytes[done + n..];
    if |rest| <= 8 {
      assert rest[..n] == rest && rest[n..] == [];
    }
  }

  // ---- frames -------------------------------------------------------------

  class CallFrame {
    var fn: Word
    const ints: array<Word>
    const floats: array<Word>
    var nstack: nat
    var stack: array?<Word>
    var x8: Word
    var r1: Word
    var r2: Word
    const f: array<Word>
    const stackWords: array<Word>

    ghost predicate Valid() {
      && ints.Length == 8 && floats.Length == 8 && f.Length == 4 && stackWords.Length == MAX_STACK_WORDS
      && ints != floats && f != ints && f != floats
      && stackWords != ints && stackWords != floats && stackWords != f
    }

    /** A zeroed frame. */
    constructor ()
      ensures Valid() && fresh(ints) && fresh(floats) && fresh(f) && fresh(stackWords)
    {
      fn, nstack, stack, x8, r1, r2 := 0, 0, null, 0, 0, 0;
      ints, floats := new Word[8](_ => 0), new Word[8](_ => 0);
      f, stackWords := new Word[4](_ => 0), new Word[MAX_STACK_WORDS](_ => 0);
    }

    /** The reset of a pooled frame: whatever a previous call left is gone. */
    method Reset(fn: Word)
      requires Valid()
      modifies this, ints, floats, f, stackWords
      ensures this.fn == fn && nstack == 0 && stack == null && x8 == 0 && r1 == 0 && r2 == 0
      ensures ints[..] == Arm64Planner.NoWords(8) == floats[..]
      ensures f[..] == Arm64Planner.NoWords(4) && stackWords[..] == Arm64Planner.NoWords(MAX_STACK_WORDS)
    {
      this.fn, nstack, stack, x8, r1, r2 := fn, 0, null, 0, 0, 0;
      Clear(ints);
      Clear(floats);
      Clear(f);
      Clear(stackWords);
    }

    /** The words the trampoline copies to the outgoing stack area. */
    ghost function StackArguments(): seq<Word>
      reads this, stack
      requires nstack > 0 ==> stack != null && nstack <= stack.Length
    {
      if nstack == 0 then [] else stack[..nstack]
    }
  }

  method Clear(a: array<Word>)
    modifies a
    ensures a[..] == Arm64Planner.NoWords(a.Length)
  {
    for i := 0 to a.Length
      invariant forall k :: 0 <= k < i ==> a[k] == 0
    {
      a[i] := 0;
    }
  }

  // ---- arm64 --------------------------------------------------------------

  /** What planARM64 works on: the frame, the stack words so far and the two counters. */
  class Arm64Plan {
    const frame: CallFrame
    const heap: Heap
    const stack: WordSlice
    var ngrn: nat
    var nsrn: nat

    ghost predicate Valid()
      reads this, stack
    {
      && frame.Valid() && stack.Valid() && stack.home == frame.stackWords
      && stack.backing != frame.ints && stack.backing != frame.floats && stack.backing != frame.f
      && ngrn <= 8 && nsrn <= 8
    }

    ghost function Planned(): (s: Arm64Planner.State)
      reads this, frame.ints, frame.floats, stack, stack.backing, heap
      requires Valid()
      ensures s.Valid()
    {
      Arm64Planner.State(frame.ints[..], frame.floats[..], ngrn, nsrn, stack.Words(), heap.cells)
    }

    constructor (frame: CallFrame, heap: Heap, stack: WordSlice)
      requires frame.Valid() && stack.Valid() && stack.Words() == []
      requires stack.backing == stack.home == frame.stackWords
      requires frame.ints[..] == Arm64Planner.NoWords(8) == frame.floats[..]
      ensures Valid() && this.frame == frame && this.heap == heap && this.stack == stack
      ensures Planned() == Arm64Planner.Initial(heap.cells)
    {
      this.frame, this.heap, this.stack := frame, heap, stack;
      ngrn, nsrn := 0, 0;
    }

    method PutInt(word: Word)
      requires Valid()
      modifies this`ngrn, frame.ints, stack, stack.backing
      ensures Valid() && (stack.backing == old(stack.backing) || fresh(stack.backing))
      ensures Planned() == Arm64Planner.PutInt(old(Planned()), word)
    {
      if ngrn < 8 {
        frame.ints[ngrn] := word;
        ngrn := ngrn + 1;
      } else {
        stack.Append(word);
      }
    }

    method PutFloat(word: Word)
      requires Valid()
      modifies this`nsrn, frame.floats, stack, stack.backing
      ensures Valid() && (stack.backing == old(stack.backing) || fresh(stack.backing))
      ensures Planned() == Arm64Planner.PutFloat(old(Planned()), word)
    {
      if nsrn < 8 {
        frame.floats[nsrn] := word;
        nsrn := nsrn + 1;
      } else {
        nsrn := 8;
        stack.Append(word);
      }
    }

    /** hfaElement: one element as the bits a D register carries. */
    method HfaElement(arg: Arg, p: Word, e: nat, ghost op: Operand) returns (word: Word)
      requires op.WellFormed() && op.arg == arg && arg.IsHfa() && e < arg.hfa
      requires ReadMemory(heap.cells, p, arg.size) == Some(op.bytes)
      ensures word == Arm64Planner.HfaElement(op, e)
    {
      Arm64Planner.HfaElementInside(arg, e);
      ReadInside(heap.cells, p, arg.size, e * arg.ElementSize(), arg.ElementSize());
      word := heap.LoadWord(p + e * arg.ElementSize(), arg.ElementSize());
    }

    /** The register half of an HFA: one element per register. */
    method LoadElements(arg: Arg, p: Word, ghost op: Operand)
      requires Valid() && op.WellFormed() && op.arg == arg && arg.IsHfa() && nsrn + arg.hfa <= 8
      requires ReadMemory(heap.cells, p, arg.size) == Some(op.bytes)
      modifies this`nsrn, frame.floats
      ensures nsrn == old(nsrn) + arg.hfa
      ensures frame.floats[..] == Arm64Planner.Load(old(frame.floats[..]), old(nsrn), Arm64Planner.HfaWords(op))
    {
      ghost var first, words := nsrn, Arm64Planner.HfaWords(op);
      for e := 0 to arg.hfa
        invariant nsrn == first + e
        invariant frame.floats[..] == Arm64Planner.Load(old(frame.floats[..]), first, words[..e])
      {
        var word := HfaElement(arg, p, e, op);
        LoadNext(old(frame.floats[..]), first, words, e);
        frame.floats[nsrn] := word;
        nsrn := nsrn + 1;
      }
      assert words[..arg.hfa] == words;
    }

    method PutHfa(arg: Arg, p: Word, ghost op: Operand)
      requires Valid() && op.WellFormed() && op.arg == arg && arg.IsHfa()
      requires ReadMemory(heap.cells, p, arg.size) == Some(op.bytes)
      modifies this`nsrn, frame.floats, stack, stack.backing
      ensures Valid() && (stack.backing == old(stack.backing) || fresh(stack.backing))
      ensures Planned() == Arm64Planner.PutHfa(old(Planned()), op)
    {
      if nsrn + arg.hfa <= 8 {
        LoadElements(arg, p, op);
      } else {
        nsrn := 8;
        stack.AppendComposite(heap, p, arg.size, arg.align);
      }
    }

    /** The `w`-th word of a small composite. */
    method PackedAt(p: Word, size: nat, w: nat, n: nat, ghost bytes: seq<Byte>) returns (word: Word)
      requires 8 * w < size <= 16 && n == if size - 8 * w < 8 then size - 8 * w else 8
      requires ReadMemory(heap.cells, p, size) == Some(bytes)
      ensures w < |PackWords(bytes)| && word == PackWords(bytes)[w]
    {
      ReadInside(heap.cells, p, size, 8 * w, n);
      PackedWord(bytes, w, n);
      word := heap.LoadWord(p + 8 * w, n);
    }

    /** The register half of a small composite: its words to consecutive registers. */
    method LoadRegisters(p: Word, size: nat, ghost bytes: seq<Byte>)
      requires Valid() && 0 < size <= 16 && ngrn + (size + 7) / 8 <= 8
      requires ReadMemory(heap.cells, p, size) == Some(bytes)
      modifies this`ngrn, frame.ints
      ensures ngrn == old(ngrn) + (size + 7) / 8
      ensures |PackWords(bytes)| == (size + 7) / 8
      ensures frame.ints[..] == Arm64Planner.Load(old(frame.ints[..]), old(ngrn), PackWords(bytes))
    {
      PackWordsCount(bytes);
      ghost var first, packed := ngrn, PackWords(bytes);
      var words := (size + 7) / 8;
      for w := 0 to words
        invariant ngrn == first + w
        invariant frame.ints[..] == Arm64Planner.Load(old(frame.ints[..]), first, packed[..w])
      {
        var n := if size - 8 * w < 8 then size - 8 * w else 8;
        var word := PackedAt(p, size, w, n, bytes);
        LoadNext(old(frame.ints[..]), first, packed, w);
        frame.ints[ngrn] := word;
        ngrn := ngrn + 1;
      }
      assert packed[..words] == packed;
    }

    /** The other half: the composite to the stack, and no int register for anyone after it. */
    method SpillSmall(arg: Arg, p: Word, ghost bytes: seq<Byte>)
      requires Valid() && ReadMemory(heap.cells, p, arg.size) == Some(bytes)
      modifies this`ngrn, stack, stack.backing
      ensures Valid() && (stack.backing == old(stack.backing) || fresh(stack.backing))
      ensures ngrn == 8 && frame.ints[..] == old(frame.ints[..]) && frame.floats[..] == old(frame.floats[..])
      ensures stack.Words() == Arm64Planner.AppendComposite(old(stack.Words()), bytes, arg.align)
    {
      ngrn := 8;
      stack.AppendComposite(heap, p, arg.size, arg.align);
    }

    method PutSmall(arg: Arg, p: Word, ghost op: Operand)
      requires Valid() && op.WellFormed() && op.arg == arg && Arm64Planner.SmallComposite(arg)
      requires ReadMemory(heap.cells, p, arg.size) == Some(op.bytes)
      modifies this`ngrn, frame.ints, stack, stack.backing
      ensures Valid() && (stack.backing == old(stack.backing) || fresh(stack.backing))
      ensures Planned() == Arm64Planner.PutSmall(old(Planned()), op)
    {
      var words := (arg.size + 7) / 8;
      if arg.align >= 16 && ngrn % 2 == 1 {
        ngrn := ngrn + 1;
      }
      if ngrn + words <= 8 {
        LoadRegisters(p, arg.size, op.bytes);
      } else {
        SpillSmall(arg, p, op.bytes);
      }
    }

    method PutReference(arg: Arg, p: Word, base: int, ghost op: Operand)
      requires Valid() && op.WellFormed() && op.arg == arg && op.base == base && Arm64Planner.ByReference(arg)
      requires ReadMemory(heap.cells, p, arg.size) == Some(op.bytes) && FreshBuffer(heap.cells, op, 8)
      modifies this`ngrn, frame.ints, stack, stack.backing, heap
      ensures Valid() && (stack.backing == old(stack.backing) || fresh(stack.backing))
      ensures Planned() == Arm64Planner.PutReference(old(Planned()), op)
    {
      var aligned := heap.AlignedCopy(p, base, 8, arg.size, op);
      PutInt(aligned);
    }

    /** One argument of the planner's loop. */
    method Put(arg: Arg, word: Word, base: int, ghost op: Operand)
      requires Valid() && op.WellFormed() && op.arg == arg && op.word == word && op.base == base
      requires arg.kind.ArgStruct? ==> ReadMemory(heap.cells, word, arg.size) == Some(op.bytes)
      requires Arm64Planner.ByReference(arg) ==> FreshBuffer(heap.cells, op, 8)
      modifies this, frame.ints, frame.floats, stack, stack.backing, heap
      ensures Valid() && (stack.backing == old(stack.backing) || fresh(stack.backing))
      ensures Planned() == Arm64Planner.Step(old(Planned()), op)
    {
      match arg.kind {
        case ArgWord => PutInt(word);
        case ArgFloat32 => PutFloat(word);
        case ArgFloat64 => PutFloat(word);
        case ArgStruct =>
          if arg.hfa > 0 {
            PutHfa(arg, word, op);
          } else if arg.size > 16 {
            PutReference(arg, word, base, op);
          } else {
            PutSmall(arg, word, op);
          }
      }
    }
  }

  lemma {:induction false} LoadNext(regs: seq<Word>, first: nat, words: seq<Word>, e: nat)
    requires e < |words| && first + |words| <= |regs|
    ensures Arm64Planner.Load(regs, first, words[..e])[first + e := words[e]] == Arm64Planner.Load(regs, first, words[..e + 1])
  {}

  lemma {:induction false} PackedWord(bytes: seq<Byte>, w: nat, n: nat)
    requires 8 * w < |bytes| <= 16 && n == if |bytes| - 8 * w < 8 then |bytes| - 8 * w else 8
    ensures w < |PackWords(bytes)| && PackWords(bytes)[w] == PackWord(bytes[8 * w .. 8 * w + n])
  {
    PackWordsCount(bytes);
    PackNext(bytes, 0, if |bytes| < 8 then |bytes| else 8);
    assert bytes[0..] == bytes;
    if w == 1 {
      PackNext(bytes, 8, n);
    }
  }

  // ---- whole call sites ---------------------------------------------------

  datatype Spec = Spec(args: seq<Arg>, ret: Arg)

  /** `ops` is what this call site passes: the descriptors, the words, the bytes the composite
      words point to, and the allocator's answers. */
  ghost predicate Describes(ops: seq<Operand>, types: seq<Arg>, args: seq<Word>, bases: seq<int>, m: Memory) {
    && |ops| == |types| == |args| == |bases|
    && AllWellFormed(ops)
    && forall i :: 0 <= i < |ops| ==>
         && ops[i].arg == types[i] && ops[i].word == args[i] && ops[i].base == bases[i]
         && (types[i].kind.ArgStruct? ==> ReadMemory(m, args[i], types[i].size) == Some(ops[i].bytes))
  }

  lemma {:induction false} DescribesLater(ops: seq<Operand>, types: seq<Arg>, args: seq<Word>, bases: seq<int>, m: Memory, n: Memory)
    requires Describes(ops, types, args, bases, m) && Preserves(m, n)
    ensures Describes(ops, types, args, bases, n)
  {
    forall i | 0 <= i < |ops| && types[i].kind.ArgStruct?
      ensures ReadMemory(n, args[i], types[i].size) == Some(ops[i].bytes)
    {
      ReadPreserved(m, n, args[i], types[i].size);
    }
  }

  /** Arguments from `i` on are still to be placed, over memory `m`. */
  ghost predicate Pending(arch: Arch, ops: seq<Operand>, types: seq<Arg>, args: seq<Word>, bases: seq<int>, m: Memory, i: nat) {
    && Describes(ops, types, args, bases, m)
    && i <= |ops|
    && FreshBuffers(arch, m, ops[i..])
  }

  lemma {:induction false} PendingNext(arch: Arch, ops: seq<Operand>, types: seq<Arg>, args: seq<Word>, bases: seq<int>, m: Memory, i: nat)
    requires Pending(arch, ops, types, args, bases, m, i) && i < |ops|
    ensures arch.Copies(ops[i].arg) ==> FreshBuffer(m, ops[i], arch.CopyAlign())
    ensures Pending(arch, ops, types, args, bases, MemoryAfter(arch, m, ops[i]), i + 1)
  {
    var rest := ops[i..];
    assert rest[0] == ops[i] && rest[1..] == ops[i + 1..];
    FreshBuffersAfterStep(arch, m, rest);
    DescribesLater(ops, types, args, bases, m, MemoryAfter(arch, m, ops[i]));
  }

  lemma {:induction false} RunNext(s: Arm64Planner.State, ops: seq<Operand>, i: nat)
    requires s.Valid() && AllWellFormed(ops) && i < |ops|
    ensures Arm64Planner.Run(s, ops[i..]) == Arm64Planner.Run(Arm64Planner.Step(s, ops[i]), ops[i + 1..])
    ensures Arm64Planner.Step(s, ops[i]).memory == MemoryAfter(Arm64, s.memory, ops[i])
  {
    Arm64Planner.StepMemory(s, ops[i]);
    assert ops[i..][1..] == ops[i + 1..];
  }

  /** The planner's loop. */
  method PutAll(plan: Arm64Plan, types: seq<Arg>, args: seq<Word>, bases: seq<int>, ghost ops: seq<Operand>)
    requires plan.Valid()
    requires Describes(ops, types, args, bases, plan.heap.cells) && FreshBuffers(Arm64, plan.heap.cells, ops)
    modifies plan, plan.frame.ints, plan.frame.floats, plan.stack, plan.stack.backing, plan.heap
    ensures plan.Valid() && (plan.stack.backing == old(plan.stack.backing) || fresh(plan.stack.backing))
    ensures plan.Planned() == Arm64Planner.Run(old(plan.Planned()), ops)
  {
    ghost var goal := Arm64Planner.Run(plan.Planned(), ops);
    assert ops[0..] == ops;
    for i := 0 to |types|
      invariant plan.Valid() && (plan.stack.backing == old(plan.stack.backing) || fresh(plan.stack.backing))
      invariant Pending(Arm64, ops, types, args, bases, plan.heap.cells, i)
      invariant Arm64Planner.Run(plan.Planned(), ops[i..]) == goal
    {
      PendingNext(Arm64, ops, types, args, bases, plan.heap.cells, i);
      RunNext(plan.Planned(), ops, i);
      plan.Put(types[i], args[i], bases[i], ops[i]);
    }
    assert ops[|types|..] == [];
  }

  method PlanArm64(frame: CallFrame, heap: Heap, spec: Spec, ret: Word, args: seq<Word>, bases: seq<int>, ghost ops: seq<Operand>)
    returns (stack: WordSlice)
    requires frame.Valid() && frame.ints[..] == Arm64Planner.NoWords(8) == frame.floats[..] && frame.x8 == 0
    requires Describes(ops, spec.args, args, bases, heap.cells) && FreshBuffers(Arm64, heap.cells, ops)
    modifies frame`x8, frame.ints, frame.floats, frame.stackWords, heap
    ensures var t := Arm64Planner.Run(Arm64Planner.Initial(old(heap.cells)), ops);
            && frame.ints[..] == t.ints && frame.floats[..] == t.floats && heap.cells == t.memory
            && stack.Valid() && stack.Words() == t.stack
    ensures frame.x8 == Returns.IndirectResult(spec.ret, ret)
    ensures stack.home == frame.stackWords
  {
    stack := new WordSlice(frame.stackWords);
    var plan := new Arm64Plan(frame, heap, stack);
    if spec.ret.kind.ArgStruct? && spec.ret.hfa == 0 && spec.ret.size > 16 {
      frame.x8 := ret;
    }
    PutAll(plan, spec.args, args, bases, ops);
  }

  method PlanAmd64(frame: CallFrame, heap: Heap, spec: Spec, ret: Word, args: seq<Word>, bases: seq<int>, ghost ops: seq<Operand>)
    returns (stack: WordSlice)
    requires frame.Valid() && frame.ints[..] == Arm64Planner.NoWords(8) == frame.floats[..]
    requires Describes(ops, spec.args, args, bases, heap.cells) && FreshBuffers(Amd64, heap.cells, ops)
    modifies frame.ints, frame.floats, frame.stackWords, heap
    ensures var plan := Amd64Planner.PlanCall(spec.ret, ret, ops, old(heap.cells));
            && frame.ints[..] == plan.ints && frame.floats[..] == plan.floats && heap.cells == plan.memory
            && stack.Valid() && stack.Words() == plan.stack
    ensures stack.home == frame.stackWords
  {
    var words := ArgumentWordsAmd64(heap, spec, ret, args, bases, ops);
    stack := SpreadAmd64(frame, words);
  }

  /** The second half of planAMD64: the first four words to both register files, the rest to
      the stack. */
  method SpreadAmd64(frame: CallFrame, words: seq<Word>) returns (stack: WordSlice)
    requires frame.Valid() && frame.ints[..] == Arm64Planner.NoWords(8) == frame.floats[..]
    modifies frame.ints, frame.floats, frame.stackWords
    ensures frame.ints[..] == Amd64Planner.RegisterFile(words) == frame.floats[..]
    ensures stack.Valid() && stack.home == frame.stackWords && stack.Words() == Amd64Planner.StackPart(words)
  {
    stack := new WordSlice(frame.stackWords);
    var ints, floats := frame.ints, frame.floats;
    for i := 0 to |words|
      invariant stack.Valid() && (stack.backing == frame.stackWords || fresh(stack.backing))
      invariant ints[..] == Amd64Planner.RegisterFile(words[..i])
      invariant floats[..] == Amd64Planner.RegisterFile(words[..i])
      invariant stack.Words() == Amd64Planner.StackPart(words[..i])
    {
      RegisterFileNext(words, i);
      if i < 4 {
        ints[i] := words[i];
        floats[i] := words[i];
      } else {
        stack.Append(words[i]);
      }
    }
    assert words[..|words|] == words;
  }

  lemma {:induction false} RegisterFileNext(words: seq<Word>, i: nat)
    requires i < |words|
    ensures Amd64Planner.RegisterFile(words[..i + 1])
         == if i < 4 then Amd64Planner.RegisterFile(words[..i])[i := words[i]] else Amd64Planner.RegisterFile(words[..i])
    ensures Amd64Planner.StackPart(words[..i + 1])
         == if i < 4 then Amd64Planner.StackPart(words[..i]) else Amd64Planner.StackPart(words[..i]) + [words[i]]
  {}

  /** The first half of planAMD64: one word per argument, copying what travels by reference. */
  method ArgumentWordsAmd64(heap: Heap, spec: Spec, ret: Word, args: seq<Word>, bases: seq<int>, ghost ops: seq<Operand>)
    returns (words: seq<Word>)
    requires Describes(ops, spec.args, args, bases, heap.cells) && FreshBuffers(Amd64, heap.cells, ops)
    modifies heap
    ensures words == Amd64Planner.CallWords(spec.ret, ret, ops)
    ensures heap.cells == Amd64Planner.MemoryAfterAll(old(heap.cells), ops)
  {
    words := [];
    if spec.ret.kind.ArgStruct? && !RegisterSized(spec.ret.size) {
      words := words + [ret];
    }
    ghost var hidden, all := words, Amd64Planner.ArgumentWords(ops);
    ghost var goal := Amd64Planner.MemoryAfterAll(heap.cells, ops);
    assert ops[0..] == ops;
    for i := 0 to |spec.args|
      invariant Pending(Amd64, ops, spec.args, args, bases, heap.cells, i)
      invariant Amd64Planner.MemoryAfterAll(heap.cells, ops[i..]) == goal
      invariant words == hidden + all[..i]
    {
      PendingNext(Amd64, ops, spec.args, args, bases, heap.cells, i);
      MemoryNext(heap.cells, ops, i);
      WordNext(hidden, all, i);
      var word := ArgumentWordAmd64(heap, spec.args[i], args[i], bases[i], ops[i]);
      words := words + [word];
    }
    assert all[..|ops|] == all;
  }

  lemma {:induction false} MemoryNext(m: Memory, ops: seq<Operand>, i: nat)
    requires AllWellFormed(ops) && i < |ops|
    ensures Amd64Planner.MemoryAfterAll(m, ops[i..]) == Amd64Planner.MemoryAfterAll(MemoryAfter(Amd64, m, ops[i]), ops[i + 1..])
  {
    assert ops[i..][0] == ops[i] && ops[i..][1..] == ops[i + 1..];
  }

  lemma {:induction false} WordNext(hidden: seq<Word>, all: seq<Word>, i: nat)
    requires i < |all|
    ensures hidden + all[..i] + [all[i]] == hidden + all[..i + 1]
  {}

  method ArgumentWordAmd64(heap: Heap, arg: Arg, given: Word, base: int, ghost op: Operand) returns (word: Word)
    requires op.WellFormed() && op.arg == arg && op.word == given && op.base == base
    requires arg.kind.ArgStruct? ==> ReadMemory(heap.cells, given, arg.size) == Some(op.bytes)
    requires Amd64.Copies(arg) ==> FreshBuffer(heap.cells, op, 16)
    modifies heap
    ensures word == Amd64Planner.ArgumentWord(op)
    ensures heap.cells == MemoryAfter(Amd64, old(heap.cells), op)
  {
    word := given;
    if arg.kind.ArgStruct? {
      if RegisterSized(arg.size) {
        word := heap.LoadWord(given, arg.size);
      } else {
        word := heap.AlignedCopy(given, base, 16, arg.size, op);
      }
    }
  }

  // ---- after the call -----------------------------------------------------

  method FinishArm64(frame: CallFrame, heap: Heap, ret: Arg, at: Word)
    requires frame.Valid() && ret.WellFormed()
    modifies heap
    ensures heap.cells == Returns.FinishArm64(ret, at, Aapcs64.Captured(frame.r1, frame.r2, frame.f[..]), old(heap.cells))
  {
    if ret.kind.ArgStruct? {
      if ret.hfa > 0 {
        StoreElements(frame, heap, ret, at);
      } else if ret.size <= 8 {
        heap.StoreWord(at, frame.r1, ret.size);
      } else if ret.size <= 16 {
        heap.StoreWord(at, frame.r1, 8);
        heap.StoreWord(at + 8, frame.r2, ret.size - 8);
      }
    }
  }

  method StoreElements(frame: CallFrame, heap: Heap, ret: Arg, at: Word)
    requires frame.Valid() && ret.WellFormed() && ret.IsHfa()
    modifies heap
    ensures heap.cells == Returns.StoreElements(old(heap.cells), at, frame.f[..ret.hfa], ret.hfa64)
  {
    ghost var goal := Returns.StoreElements(heap.cells, at, frame.f[..ret.hfa], ret.hfa64);
    var to: int := at;
    for e := 0 to ret.hfa
      invariant Returns.StoreElements(heap.cells, to, frame.f[e .. ret.hfa], ret.hfa64) == goal
    {
      assert frame.f[e .. ret.hfa][1..] == frame.f[e + 1 .. ret.hfa];
      if ret.hfa64 {
        heap.StoreWord(to, frame.f[e], 8);
        to := to + 8;
      } else {
        heap.StoreWord(to, frame.f[e] % 0x1_0000_0000, 4);
        to := to + 4;
      }
    }
  }

  method FinishAmd64(frame: CallFrame, heap: Heap, ret: Arg, at: Word)
    modifies heap
    ensures heap.cells == Returns.FinishAmd64(ret, at, frame.r1, old(heap.cells))
  {
    if ret.kind.ArgStruct? && RegisterSized(ret.size) {
      heap.StoreWord(at, frame.r1, ret.size);
    }
  }

  // ---- entering a call ----------------------------------------------------

  /** GOARCH: one of the two with a planner, or another. */
  datatype Target = Supported(arch: Arch) | Unsupported

  /** Ready for the trampoline, or the panic that Call ends in before it. */
  datatype Entry = Ready | CountMismatch | NotSupported | TooManyStackArguments

  /** The frame is what the planner makes of a zeroed one. */
  ghost predicate Holds(arch: Arch, frame: CallFrame, cells: Memory, spec: Spec, ret: Word, ops: seq<Operand>, m: Memory)
    requires AllWellFormed(ops)
    reads frame, frame.ints, frame.floats
  {
    match arch
    case Arm64 =>
      var t := Arm64Planner.Run(Arm64Planner.Initial(m), ops);
      frame.ints[..] == t.ints && frame.floats[..] == t.floats && cells == t.memory
      && frame.x8 == Returns.IndirectResult(spec.ret, ret)
    case Amd64 =>
      var plan := Amd64Planner.PlanCall(spec.ret, ret, ops, m);
      frame.ints[..] == plan.ints && frame.floats[..] == plan.floats && cells == plan.memory
  }

  /**
  Call up to the trampoline: reset the pooled frame, plan, check the stack, publish the stack
  words. Whatever the frame held before, a ready frame is the plan over a zeroed one, and
  its stack words, if any, are in its own 42-word array.
  */
  method Enter(target: Target, frame: CallFrame, heap: Heap, fn: Word, spec: Spec, ret: Word, args: seq<Word>, bases: seq<int>,
               ghost ops: seq<Operand>)
    returns (entry: Entry)
    requires frame.Valid()
    requires |args| == |spec.args| && target.Supported? ==>
               Describes(ops, spec.args, args, bases, heap.cells) && FreshBuffers(target.arch, heap.cells, ops)
    modifies frame, frame.ints, frame.floats, frame.f, frame.stackWords, heap
    ensures entry.CountMismatch? <==> |args| != |spec.args|
    ensures entry.NotSupported? <==> |args| == |spec.args| && target.Unsupported?
    ensures entry.CountMismatch? || entry.NotSupported? ==> heap.cells == old(heap.cells)
    ensures entry.TooManyStackArguments? <==>
      |args| == |spec.args| && target.Supported? && 42 < |PlannedStack(target.arch, spec, ret, ops, old(heap.cells))|
    ensures entry.Ready? ==>
      && frame.fn == fn
      && frame.nstack == |PlannedStack(target.arch, spec, ret, ops, old(heap.cells))| <= 42
      && frame.stack == (if frame.nstack > 0 then frame.stackWords else null)
      && frame.StackArguments() == PlannedStack(target.arch, spec, ret, ops, old(heap.cells))
      && Holds(target.arch, frame, heap.cells, spec, ret, ops, old(heap.cells))
  {
    if |args| != |spec.args| {
      return CountMismatch;
    }
    frame.Reset(fn);
    var stack: WordSlice;
    match target {
      case Supported(Arm64) => stack := PlanArm64(frame, heap, spec, ret, args, bases, ops);
      case Supported(Amd64) => stack := PlanAmd64(frame, heap, spec, ret, args, bases, ops);
      case Unsupported => return NotSupported;
    }
    if stack.len > MAX_STACK_WORDS {
      return TooManyStackArguments;
    }
    if stack.len > 0 {
      frame.nstack := stack.len;
      frame.stack := stack.backing;
    }
    entry := Ready;
  }

  // ---- a whole call -------------------------------------------------------

  /** What a callee leaves behind: registers, memory and the last error. */
  datatype Answer = Answer(r1: Word, r2: Word, f: seq<Word>, memory: Memory, err: Word)

  datatype CallResult = CallResult(r1: Word, r2: Word, f0: Word, err: Word)

  /** The callee follows the convention and computes `f` of whatever parameters it finds; `shadow` is what the
      x64 shadow space happens to hold. */
  ghost predicate Conforms(arch: Arch, spec: Spec, ret: Word, ops: seq<Operand>, m: Memory, shadow: seq<Byte>,
                           f: seq<Value> -> Value, answer: Answer)
    requires AllWellFormed(ops) && |answer.f| == 4
  {
    match arch
    case Arm64 => Returns.Arm64Conforms(spec.ret, ret, ops, m, f, Aapcs64.Captured(answer.r1, answer.r2, answer.f), answer.memory)
    case Amd64 => Returns.Amd64Conforms(spec.ret, ret, ops, m, shadow, f, answer.r1, answer.f[0], answer.memory)
  }

  /** The callee runs, and the trampoline captures its registers in the frame. */
  method Trampoline(frame: CallFrame, heap: Heap, answer: Answer)
    requires frame.Valid() && |answer.f| == 4
    modifies frame`r1, frame`r2, frame.f, heap
    ensures frame.r1 == answer.r1 && frame.r2 == answer.r2 && frame.f[..] == answer.f
    ensures heap.cells == answer.memory
  {
    frame.r1, frame.r2 := answer.r1, answer.r2;
    for i := 0 to 4
      invariant frame.f[..i] == answer.f[..i]
      modifies frame.f
    {
      frame.f[i] := answer.f[i];
    }
    assert frame.f[..4] == frame.f[..] && answer.f[..4] == answer.f;
    heap.cells := answer.memory;
  }

  /** The part after the trampoline: store a composite result and read the captured registers. */
  method Leave(arch: Arch, frame: CallFrame, heap: Heap, ret: Arg, at: Word, err: Word) returns (result: CallResult)
    requires frame.Valid() && ret.WellFormed()
    modifies heap
    ensures result == CallResult(frame.r1, frame.r2, frame.f[0], err)
    ensures heap.cells == match arch
                          case Arm64 => Returns.FinishArm64(ret, at, Aapcs64.Captured(frame.r1, frame.r2, frame.f[..]), old(heap.cells))
                          case Amd64 => Returns.FinishAmd64(ret, at, frame.r1, old(heap.cells))
  {
    match arch {
      case Arm64 => FinishArm64(frame, heap, ret, at);
      case Amd64 => FinishAmd64(frame, heap, ret, at);
    }
    result := CallResult(frame.r1, frame.r2, frame.f[0], err);
  }

  lemma {:induction false} CallIsTransparent(arch: Arch, spec: Spec, ret: Word, ops: seq<Operand>, m: Memory, shadow: seq<Byte>,
                                             f: seq<Value> -> Value, answer: Answer, after: Memory)
    requires spec.ret.WellFormed() && |answer.f| == 4 && |shadow| == 32
    requires AllWellFormed(ops) && FreshBuffers(arch, m, ops) && Conforms(arch, spec, ret, ops, m, shadow, f, answer)
    requires after == match arch
                      case Arm64 => Returns.FinishArm64(spec.ret, ret, Aapcs64.Captured(answer.r1, answer.r2, answer.f), answer.memory)
                      case Amd64 => Returns.FinishAmd64(spec.ret, ret, answer.r1, answer.memory)
    ensures Returns.ReadBack(spec.ret, ret, answer.r1, answer.f[0], after) == Some(f(PassedValues(ops)))
    ensures Returns.OnlyBufferWritten(spec.ret, ret, answer.memory, after)
  {
    match arch {
      case Arm64 =>
        Returns.Arm64CallIsTransparent(spec.ret, ret, ops, m, f, Aapcs64.Captured(answer.r1, answer.r2, answer.f), answer.memory);
      case Amd64 =>
        Returns.Amd64CallIsTransparent(spec.ret, ret, ops, m, shadow, f, answer.r1, answer.f[0], answer.memory);
    }
  }

  /**
  Call from entry to return, on a frame with any history. Unless it panics, and exactly the three conditions make
  it, the caller of a conforming callee that computes `f` reads back `f` of the values it meant to
  pass: from the result's registers, or from its buffer for a composite. Of the memory that the callee left,
  nothing but the buffer of a composite is written.
  */
  method Call(target: Target, frame: CallFrame, heap: Heap, fn: Word, spec: Spec, ret: Word, args: seq<Word>, bases: seq<int>,
              answer: Answer, ghost ops: seq<Operand>, ghost shadow: seq<Byte>, ghost f: seq<Value> -> Value)
    returns (entry: Entry, result: CallResult)
    requires frame.Valid() && spec.ret.WellFormed() && |answer.f| == 4 && |shadow| == 32
    requires |args| == |spec.args| && target.Supported? ==>
               && Describes(ops, spec.args, args, bases, heap.cells) && FreshBuffers(target.arch, heap.cells, ops)
               && Conforms(target.arch, spec, ret, ops, heap.cells, shadow, f, answer)
    modifies frame, frame.ints, frame.floats, frame.f, frame.stackWords, heap
    ensures entry.CountMismatch? <==> |args| != |spec.args|
    ensures entry.NotSupported? <==> |args| == |spec.args| && target.Unsupported?
    ensures entry.TooManyStackArguments? <==>
      |args| == |spec.args| && target.Supported? && 42 < |PlannedStack(target.arch, spec, ret, ops, old(heap.cells))|
    ensures entry.Ready? ==>
      && result == CallResult(answer.r1, answer.r2, answer.f[0], answer.err)
      && Returns.ReadBack(spec.ret, ret, result.r1, result.f0, heap.cells) == Some(f(PassedValues(ops)))
      && Returns.OnlyBufferWritten(spec.ret, ret, answer.memory, heap.cells)
    ensures entry.CountMismatch? || entry.NotSupported? ==> heap.cells == old(heap.cells)
  {
    ghost var m := heap.cells;
    result := CallResult(0, 0, 0, 0);
    entry := Enter(target, frame, heap, fn, spec, ret, args, bases, ops);
    if entry.Ready? {
      Trampoline(frame, heap, answer);
      result := Leave(target.arch, frame, heap, spec.ret, ret, answer.err);
      CallIsTransparent(target.arch, spec, ret, ops, m, shadow, f, answer, heap.cells);
    }
  }

  function PlannedStack(arch: Arch, spec: Spec, ret: Word, ops: seq<Operand>, m: Memory): seq<Word>
    requires AllWellFormed(ops)
  {
    match arch
    case Arm64 => Arm64Planner.Run(Arm64Planner.Initial(m), ops).stack
    case Amd64 => Amd64Planner.PlanCall(spec.ret, ret, ops, m).stack
  }
}
