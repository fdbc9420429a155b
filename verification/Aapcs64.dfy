/**
The callee's side of the arm64 procedure call standard, written from the rules of the
AAPCS64 and not from the planner: section 6.8.2 (parameter passing rules) says where a
callee looks for each parameter, section 6.9 (result return) where it leaves its result.
Counters follow the standard's names; NSAA counts bytes from the stack pointer at entry.
*/
module Aapcs64 {
  import opened Options
  import opened Bytes
  import opened Calls

  /** What a callee can read at entry. */
  datatype Callee = Callee(x: seq<Word>, v: seq<Word>, stack: seq<Byte>, memory: Memory) {
    ghost predicate Valid() {
      |x| == 8 && |v| == 8
    }
  }

  datatype Cursor = Cursor(ngrn: nat, nsrn: nat, nsaa: nat)

  datatype Fetched<T> = Fetched(value: T, next: Cursor)

  /** Stage A. */
  const START := Cursor(0, 0, 0)

  function RoundUp(n: nat, unit: nat): nat
    requires unit == 2 || unit == 8 || unit == 16
  {
    if unit == 2 then (n + 1) / 2 * 2
    else if unit == 8 then (n + 7) / 8 * 8
    else (n + 15) / 16 * 16
  }

  /** The alignment the standard uses for a composite or HFA: 8, or 16 when it needs more than 8. */
  function AdjustedAlignment(ty: Arg): (a: nat)
    ensures a == 8 || a == 16
  {
    if ty.align >= 16 then 16 else 8
  }

  /** `n` bytes of the stacked argument area at the next free address, rounded up to `unit`;
      the area taken is a whole number of doublewords. */
  function FetchStacked(c: Callee, k: Cursor, n: nat, unit: nat): Option<Fetched<seq<Byte>>>
    requires unit == 8 || unit == 16
  {
    var at := RoundUp(k.nsaa, unit);
    if at + n <= |c.stack| then
      Some(Fetched(c.stack[at .. at + n], k.(nsaa := at + RoundUp(n, 8))))
    else
      None
  }

  /** Rules C.9 and C.13-C.17: an integral or pointer parameter. */
  function FetchWord(c: Callee, k: Cursor): Option<Fetched<Word>>
    requires c.Valid()
  {
    if k.ngrn < 8 then
      Some(Fetched(c.x[k.ngrn], k.(ngrn := k.ngrn + 1)))
    else
      match FetchStacked(c, k.(ngrn := 8), 8, 8)
      case None => None
      case Some(f) => Some(Fetched(PackWord(f.value), f.next))
  }

  /** Rules C.1, C.5 and C.6: a single or double precision parameter of `n` bytes. */
  function FetchFloat(c: Callee, n: nat, k: Cursor): Option<Fetched<seq<Byte>>>
    requires c.Valid() && n <= 8
  {
    if k.nsrn < 8 then
      Some(Fetched(LowBytes(c.v[k.nsrn], n), k.(nsrn := k.nsrn + 1)))
    else
      FetchStacked(c, k, n, 8)
  }

  /** One member per V register, each in the register's least significant bits. */
  function Members(regs: seq<Word>, size: nat): seq<Byte> {
    if regs == [] then [] else LowBytes(regs[0], size) + Members(regs[1..], size)
  }

  /** Rules C.2, C.3, C.4 and C.6: an HFA, all in V registers or all on the stack. */
  function FetchHfa(c: Callee, ty: Arg, k: Cursor): Option<Fetched<seq<Byte>>>
    requires c.Valid()
  {
    if k.nsrn + ty.hfa <= 8 then
      Some(Fetched(Members(c.v[k.nsrn .. k.nsrn + ty.hfa], ty.ElementSize()), k.(nsrn := k.nsrn + ty.hfa)))
    else
      FetchStacked(c, k.(nsrn := 8), ty.size, AdjustedAlignment(ty))
  }

  /** Rules B.5, C.10 and C.12-C.15: a composite of at most 16 bytes, in consecutive
      X registers as if loaded from doubleword-aligned memory, or on the stack. */
  function FetchComposite(c: Callee, ty: Arg, k: Cursor): Option<Fetched<seq<Byte>>>
    requires c.Valid() && k.ngrn <= 8
  {
    var doublewords := RoundUp(ty.size, 8) / 8;
    var first := if AdjustedAlignment(ty) == 16 then RoundUp(k.ngrn, 2) else k.ngrn;
    if doublewords <= 8 - first then
      Some(Fetched(WordsBytes(c.x[first .. first + doublewords])[..ty.size], k.(ngrn := first + doublewords)))
    else
      FetchStacked(c, k.(ngrn := 8), ty.size, AdjustedAlignment(ty))
  }

  /** Rule B.4: a larger composite is a pointer to the caller's copy. */
  function FetchReference(c: Callee, ty: Arg, k: Cursor): Option<Fetched<seq<Byte>>>
    requires c.Valid()
  {
    match FetchWord(c, k)
    case None => None
    case Some(p) =>
      match ReadMemory(c.memory, p.value, ty.size)
      case None => None
      case Some(bytes) => Some(Fetched(bytes, p.next))
  }

  function FetchStruct(c: Callee, ty: Arg, k: Cursor): Option<Fetched<seq<Byte>>>
    requires c.Valid() && k.ngrn <= 8
  {
    if ty.hfa > 0 then FetchHfa(c, ty, k)
    else if ty.size > 16 then FetchReference(c, ty, k)
    else FetchComposite(c, ty, k)
  }

  function Fetch(c: Callee, ty: Arg, k: Cursor): (r: Option<Fetched<Value>>)
    requires c.Valid() && k.ngrn <= 8
    ensures r.Some? ==> r.value.next.ngrn <= 8
  {
    match ty.kind
    case ArgWord =>
      (match FetchWord(c, k)
       case None => None
       case Some(f) => Some(Fetched(WordValue(f.value), f.next)))
    case ArgFloat32 =>
      (match FetchFloat(c, 4, k)
       case None => None
       case Some(f) => Some(Fetched(FloatValue(f.value), f.next)))
    case ArgFloat64 =>
      (match FetchFloat(c, 8, k)
       case None => None
       case Some(f) => Some(Fetched(FloatValue(f.value), f.next)))
    case ArgStruct =>
      (match FetchStruct(c, ty, k)
       case None => None
       case Some(f) => Some(Fetched(CompositeValue(f.value), f.next)))
  }

  /** All parameters, in order; None if one lies where the caller put nothing. */
  function FetchAll(c: Callee, types: seq<Arg>, k: Cursor): Option<seq<Value>>
    requires c.Valid() && k.ngrn <= 8
    decreases |types|
  {
    if types == [] then Some([])
    else
      match Fetch(c, types[0], k)
      case None => None
      case Some(f) =>
        match FetchAll(c, types[1..], f.next)
        case None => None
        case Some(rest) => Some([f.value] + rest)
  }

  // ---- section 6.9 --------------------------------------------------------

  /** The registers a caller may read after the call: X0, X1 and V0-V3. */
  datatype Captured = Captured(x0: Word, x1: Word, v: seq<Word>)

  /** Would a lone parameter of this type travel in registers? */
  predicate ReturnsInRegisters(ty: Arg) {
    ty.hfa > 0 || ty.size <= 16
  }

  /**
  The callee has returned `bytes` as a composite of type `ty`: in the registers in which it
  would receive a lone parameter of that type, or else in memory at the address that
  X8 held at entry. Bits outside the value are unspecified, and so is all other memory.
  */
  ghost predicate Returned(ty: Arg, bytes: seq<Byte>, regs: Captured, x8: Word, after: Memory)
    requires |regs.v| == 4
  {
    if ReturnsInRegisters(ty) then
      var image := Callee([regs.x0, regs.x1, 0, 0, 0, 0, 0, 0], regs.v + [0, 0, 0, 0], [], map[]);
      var got := FetchStruct(image, ty, START);
      got.Some? && got.value.value == bytes
    else
      ReadMemory(after, x8, ty.size) == Some(bytes)
  }

  /** The same for any result: a scalar is where it would arrive as a lone parameter. */
  ghost predicate ReturnedValue(ty: Arg, value: Value, regs: Captured, x8: Word, after: Memory)
    requires |regs.v| == 4
  {
    if ty.kind.ArgStruct? then value.CompositeValue? && Returned(ty, value.bytes, regs, x8, after)
    else
      var image := Callee([regs.x0, regs.x1, 0, 0, 0, 0, 0, 0], regs.v + [0, 0, 0, 0], [], map[]);
      var got := Fetch(image, ty, START);
      got.Some? && got.value.value == value
  }
}
