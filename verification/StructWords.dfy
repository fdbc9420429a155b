/**
By-value structs of up to eight bytes as machine words (bindings/runtime/win32/runtime.go).
*/
module StructWords {
  import opened Options
  import opened Bytes
  import opened Calls
  import MicrosoftX64
  import Amd64Planner
  import Amd64RoundTrip

  /** StructArg; None where it panics: the struct is larger than a word. */
  function StructArg(value: seq<Byte>): Option<Word> {
    if |value| > 8 then None else Some(PackWord(value))
  }

  /** StructRet, for a result type of `size` bytes. */
  function StructRet(word: Word, size: nat): Option<seq<Byte>> {
    if size > 8 then None else Some(LowBytes(word, size))
  }

  /** Passing a struct as a word and taking it back loses nothing; the panics are the only exceptions. */
  lemma {:induction false} StructRoundTrip(value: seq<Byte>)
    ensures StructArg(value).Some? <==> |value| <= 8
    ensures StructArg(value).Some? ==> StructRet(StructArg(value).value, |value|) == Some(value)
  {
    if |value| <= 8 {
      PackWordRoundTrip(value, |value|);
    }
  }

  /** In any call the word that an x64 callee finds for a register-sized struct is StructArg's, and StructRet
      reads the struct back from it. */
  lemma {:induction false} StructArgIsThePlannersWord(ret: Arg, retAt: Word, ops: seq<Operand>, m: Memory, shadow: seq<Byte>, i: nat)
    requires AllWellFormed(ops) && i < |ops| && |shadow| == MicrosoftX64.SHADOW_BYTES
    requires ops[i].arg.kind.ArgStruct? && RegisterSized(ops[i].arg.size)
    ensures var c := Amd64RoundTrip.AtEntry(Amd64Planner.PlanCall(ret, retAt, ops, m), shadow);
            var found := MicrosoftX64.Home(c, Amd64RoundTrip.PositionOf(ret, i), false);
            found.Some? && found == StructArg(ops[i].bytes) && StructRet(found.value, ops[i].arg.size) == Some(ops[i].bytes)
  {
    Amd64RoundTrip.ArgumentAtHome(ret, retAt, ops, m, shadow, i, false);
    StructRoundTrip(ops[i].bytes);
  }
}
