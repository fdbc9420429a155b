/**
Bytes and 64-bit machine words. Windows runs only on little-endian machines, so
a word is the little-endian reading of its eight bytes, and reading fewer bytes
zero-extends.
*/
module Bytes {
  import opened Options

  type Byte = b: int | 0 <= b < 256

  const WORD_LIMIT := 0x1_0000_0000_0000_0000

  /** A uintptr or uint64. */
  type Word = w: int | 0 <= w < WORD_LIMIT

  /** Addresses that hold something, with what they hold. */
  type Memory = map<int, Byte>

  function FromBytes(bs: seq<Byte>): nat {
    if bs == [] then 0 else bs[0] + 256 * FromBytes(bs[1..])
  }

  function ToBytes(v: nat, n: nat): (bs: seq<Byte>)
    ensures |bs| == n
  {
    if n == 0 then [] else [v % 256] + ToBytes(v / 256, n - 1)
  }

  function Zeros(n: nat): (bs: seq<Byte>)
    ensures |bs| == n
    ensures forall i :: 0 <= i < n ==> bs[i] == 0
  {
    seq(n, _ => 0)
  }

  ghost function Pow256(n: nat): nat {
    if n == 0 then 1 else 256 * Pow256(n - 1)
  }

  lemma {:induction false} FromBytesBound(bs: seq<Byte>)
    ensures FromBytes(bs) < Pow256(|bs|)
  {
    if bs != [] {
      FromBytesBound(bs[1..]);
    }
  }

  lemma {:induction false} Pow256Monotone(m: nat, n: nat)
    requires m <= n
    ensures Pow256(m) <= Pow256(n)
    decreases n
  {
    if m < n {
      Pow256Monotone(m, n - 1);
    }
  }

  lemma {:induction false} Pow256Of8()
    ensures Pow256(8) == WORD_LIMIT
  {
    assert Pow256(2) == 0x1_0000;
    assert Pow256(4) == 0x1_0000_0000;
    assert Pow256(6) == 0x1_0000_0000_0000;
  }

  /** Up to eight bytes in the low end of a zeroed word. */
  function PackWord(bs: seq<Byte>): Word
    requires |bs| <= 8
  {
    FromBytesBound(bs); Pow256Monotone(|bs|, 8); Pow256Of8();
    FromBytes(bs)
  }

  /** The low `n` bytes of a word. */
  function LowBytes(w: Word, n: nat): (bs: seq<Byte>)
    ensures |bs| == n
  {
    ToBytes(w, n)
  }

  /** A run of bytes as whole words, the last one zero-extended. */
  function PackWords(bs: seq<Byte>): seq<Word> {
    if bs == [] then []
    else if |bs| <= 8 then [PackWord(bs)]
    else [PackWord(bs[..8])] + PackWords(bs[8..])
  }

  /** The memory image of a run of words. */
  function WordsBytes(ws: seq<Word>): (bs: seq<Byte>)
    ensures |bs| == 8 * |ws|
  {
    if ws == [] then [] else LowBytes(ws[0], 8) + WordsBytes(ws[1..])
  }

  lemma {:induction false} ToBytesOfFromBytes(bs: seq<Byte>, n: nat)
    requires |bs| <= n
    ensures ToBytes(FromBytes(bs), n) == bs + Zeros(n - |bs|)
    decreases n
  {
    if n == 0 {
    } else if bs == [] {
      ToBytesOfFromBytes([], n - 1);
    } else {
      ToBytesOfFromBytes(bs[1..], n - 1);
      assert FromBytes(bs) % 256 == bs[0] && FromBytes(bs) / 256 == FromBytes(bs[1..]);
      assert bs == [bs[0]] + bs[1..];
    }
  }

  lemma {:induction false} ToBytesTruncates(v: nat, m: nat, n: nat)
    requires m <= n
    ensures ToBytes(v, n)[..m] == ToBytes(v, m)
    decreases n
  {
    if m > 0 {
      ToBytesTruncates(v / 256, m - 1, n - 1);
    }
  }

  lemma {:induction false} FromBytesOfToBytes(v: nat, n: nat)
    requires v < Pow256(n)
    ensures FromBytes(ToBytes(v, n)) == v
    decreases n
  {
    if n > 0 {
      FromBytesOfToBytes(v / 256, n - 1);
    }
  }

  /** Little-endian: byte `i` of a word is its digit of weight 256 to the `i`. */
  lemma {:induction false} ByteOfWord(v: nat, n: nat, i: nat) returns (low: nat, high: nat)
    requires i < n
    ensures v == low + Pow256(i) * (ToBytes(v, n)[i] + 256 * high) && low < Pow256(i)
    decreases i
  {
    if i == 0 {
      low, high := 0, v / 256;
    } else {
      var l, h := ByteOfWord(v / 256, n - 1, i - 1);
      low, high := v % 256 + 256 * l, h;
      var digits := ToBytes(v, n)[i] + 256 * h;
      assert v / 256 == l + Pow256(i - 1) * digits;
      assert 256 * (Pow256(i - 1) * digits) == Pow256(i) * digits;
    }
  }

  /** A word is the reading of its own eight bytes. */
  lemma {:induction false} WordRoundTrip(w: Word)
    ensures PackWord(LowBytes(w, 8)) == w
  {
    Pow256Of8();
    FromBytesOfToBytes(w, 8);
  }

  /** Packing bytes into a word and reading the low bytes back loses nothing. */
  lemma {:induction false} PackWordRoundTrip(bs: seq<Byte>, n: nat)
    requires |bs| <= n <= 8
    ensures LowBytes(PackWord(bs), n) == bs + Zeros(n - |bs|)
    ensures LowBytes(PackWord(bs), |bs|) == bs
  {
    ToBytesOfFromBytes(bs, n);
    ToBytesTruncates(PackWord(bs), |bs|, n);
  }

  lemma {:induction false} PackWordsCount(bs: seq<Byte>)
    ensures |PackWords(bs)| == (|bs| + 7) / 8
  {
    if |bs| > 8 {
      PackWordsCount(bs[8..]);
    }
  }

  lemma {:induction false} PackWordsRoundTrip(bs: seq<Byte>)
    ensures |bs| <= 8 * |PackWords(bs)| < |bs| + 8
    ensures WordsBytes(PackWords(bs))[..|bs|] == bs
  {
    PackWordsCount(bs);
    if bs == [] {
    } else if |bs| <= 8 {
      PackWordRoundTrip(bs, 8);
      assert PackWords(bs)[1..] == [];
    } else {
      var head, tail := bs[..8], bs[8..];
      PackWordRoundTrip(head, 8);
      PackWordsRoundTrip(tail);
      assert PackWords(bs)[1..] == PackWords(tail);
      assert WordsBytes(PackWords(bs)) == head + WordsBytes(PackWords(tail));
      assert (head + WordsBytes(PackWords(tail)))[..|bs|] == head + WordsBytes(PackWords(tail))[..|tail|];
    }
  }

  lemma {:induction false} WordsBytesAppend(a: seq<Word>, b: seq<Word>)
    ensures WordsBytes(a + b) == WordsBytes(a) + WordsBytes(b)
  {
    if a == [] {
      assert a + b == b;
    } else {
      assert (a + b)[1..] == a[1..] + b;
      WordsBytesAppend(a[1..], b);
    }
  }

  /** Reading words `[from, from + n)` of a memory image. */
  lemma {:induction false} WordsBytesSlice(ws: seq<Word>, from: nat, n: nat)
    requires from + n <= |ws|
    ensures WordsBytes(ws)[8 * from .. 8 * (from + n)] == WordsBytes(ws[from .. from + n])
  {
    var a, b, c := ws[..from], ws[from .. from + n], ws[from + n ..];
    WordsBytesAppend(a, b + c);
    WordsBytesAppend(b, c);
    var wa, wb, wc := WordsBytes(a), WordsBytes(b), WordsBytes(c);
    SliceMiddle(wa, wb, wc);
    assert ws == a + (b + c);
    assert |wa| == 8 * from && |wb| == 8 * n;
  }

  lemma {:induction false} SliceMiddle(a: seq<Byte>, b: seq<Byte>, c: seq<Byte>)
    ensures (a + (b + c))[|a| .. |a| + |b|] == b
  {}

  lemma {:induction false} WordsBytesSingle(w: Word)
    ensures WordsBytes([w]) == LowBytes(w, 8)
  {
    assert [w][1..] == [];
  }

  // ---- memory -------------------------------------------------------------

  /** The `n` bytes at `at`, when all of them are mapped. */
  function ReadMemory(m: Memory, at: int, n: nat): (r: Option<seq<Byte>>)
    ensures r.Some? ==> |r.value| == n
    ensures r.Some? <==> forall a :: at <= a < at + n ==> a in m
  {
    if forall a :: at <= a < at + n ==> a in m then
      Some(seq(n, i requires 0 <= i < n => m[at + i]))
    else
      None
  }

  /** `m` with the bytes `bs` stored at `at`. */
  function WriteMemory(m: Memory, at: int, bs: seq<Byte>): (r: Memory)
    ensures forall a :: a in r <==> a in m || at <= a < at + |bs|
    ensures forall a :: at <= a < at + |bs| ==> r[a] == bs[a - at]
    ensures forall a :: a in m && !(at <= a < at + |bs|) ==> r[a] == m[a]
    decreases |bs|
  {
    if bs == [] then m else WriteMemory(m[at := bs[0]], at + 1, bs[1..])
  }

  lemma {:induction false} ReadOfWrite(m: Memory, at: int, bs: seq<Byte>)
    ensures ReadMemory(WriteMemory(m, at, bs), at, |bs|) == Some(bs)
  {
    assert ReadMemory(WriteMemory(m, at, bs), at, |bs|).value == bs;
  }

  lemma {:induction false} WriteAdjacent(m: Memory, at: int, a: seq<Byte>, b: seq<Byte>)
    ensures WriteMemory(WriteMemory(m, at, a), at + |a|, b) == WriteMemory(m, at, a + b)
  {
    var l, r := WriteMemory(WriteMemory(m, at, a), at + |a|, b), WriteMemory(m, at, a + b);
    assert l.Keys == r.Keys;
  }

  lemma {:induction false} ReadInside(m: Memory, p: int, size: nat, from: nat, n: nat)
    requires ReadMemory(m, p, size).Some? && from + n <= size
    ensures ReadMemory(m, p + from, n) == Some(ReadMemory(m, p, size).value[from .. from + n])
  {
    assert ReadMemory(m, p + from, n).Some?;
    assert ReadMemory(m, p + from, n).value == ReadMemory(m, p, size).value[from .. from + n];
  }

  lemma {:induction false} ReadElsewhere(m: Memory, at: int, bs: seq<Byte>, p: int, size: nat)
    requires ReadMemory(m, p, size).Some?
    requires p + size <= at || at + |bs| <= p
    ensures ReadMemory(WriteMemory(m, at, bs), p, size) == ReadMemory(m, p, size)
  {
    assert ReadMemory(WriteMemory(m, at, bs), p, size).value == ReadMemory(m, p, size).value;
  }

  /** Mapped bytes and unmapped bytes do not overlap. */
  lemma {:induction false} MappedApart(m: Memory, p: int, size: nat, base: int, n: nat)
    requires ReadMemory(m, p, size).Some? && size > 0
    requires forall a :: base <= a < base + n ==> a !in m
    requires n > 0
    ensures p + size <= base || base + n <= p
  {
    assert p <= base < p + size ==> base in m;
    assert base <= p < base + n ==> p !in m && p in m;
  }

  /** `n` holds everything `m` holds. */
  ghost predicate Preserves(m: Memory, n: Memory) {
    forall a :: a in m ==> a in n && n[a] == m[a]
  }

  lemma {:induction false} ReadPreserved(m: Memory, n: Memory, at: int, size: nat)
    requires Preserves(m, n)
    ensures ReadMemory(m, at, size).Some? ==> ReadMemory(n, at, size) == ReadMemory(m, at, size)
  {
    if ReadMemory(m, at, size).Some? {
      assert ReadMemory(n, at, size).value == ReadMemory(m, at, size).value;
    }
  }
}
