/**
The metadata tree as the import analysis walks it (internal/win32meta/model.go), and which
namespaces one namespace's record refers to, however deeply the reference is nested.
*/
module Metadata {
  import opened Options
  import opened Names

  datatype TypeRef = TypeRef(kind: string, name: string, api: Name, child: Option<TypeRef>)

  datatype Struct = Struct(fields: seq<TypeRef>, nested: map<Name, Struct>, archVariants: seq<Struct>)

  /** A return type and parameter types: a function, a delegate or a COM method. */
  datatype Signature = Signature(ret: TypeRef, params: seq<TypeRef>)

  datatype Function = Function(name: Name, signature: Signature)

  datatype ComInterface = ComInterface(baseInterface: Name, baseInterfaceApi: Name, methods: seq<Signature>)

  datatype NamespaceMeta = NamespaceMeta(
    namespace: Name,
    functions: seq<Function>,
    structs: map<Name, Struct>,
    typedefs: map<Name, TypeRef>,
    delegates: map<Name, Signature>,
    constants: seq<TypeRef>,
    interfaces: map<Name, ComInterface>)

  // ---- references, as the documentation means them ------------------------

  /** A reference out of namespace `self`, to be counted as an import. */
  predicate CrossReference(self: Name, ref: TypeRef) {
    ref.kind == "ApiRef" && ref.api != "" && ref.api != self
  }

  ghost predicate RefRefers(self: Name, ref: TypeRef, a: Name) {
    || (CrossReference(self, ref) && ref.api == a)
    || (ref.child.Some? && RefRefers(self, ref.child.value, a))
  }

  ghost predicate AnyRefers(self: Name, refs: seq<TypeRef>, a: Name) {
    exists i :: 0 <= i < |refs| && RefRefers(self, refs[i], a)
  }

  ghost predicate SignatureRefers(self: Name, s: Signature, a: Name) {
    RefRefers(self, s.ret, a) || AnyRefers(self, s.params, a)
  }

  ghost predicate StructRefers(self: Name, s: Struct, a: Name) {
    || AnyRefers(self, s.fields, a)
    || (exists k :: k in s.nested && StructRefers(self, s.nested[k], a))
    || (exists i :: 0 <= i < |s.archVariants| && StructRefers(self, s.archVariants[i], a))
  }

  ghost predicate InterfaceRefers(self: Name, c: ComInterface, a: Name) {
    exists i :: 0 <= i < |c.methods| && SignatureRefers(self, c.methods[i], a)
  }

  /** Interface `c` embeds a base interface that lives in namespace `a`. */
  predicate Embeds(self: Name, c: ComInterface, a: Name) {
    a != "" && a != self && c.baseInterfaceApi == a
  }

  ghost predicate EmbedsFrom(meta: NamespaceMeta, a: Name) {
    exists k :: k in meta.interfaces && Embeds(meta.namespace, meta.interfaces[k], a)
  }

  /** Somewhere in this namespace's record there is a type reference to namespace `a`, or a
      base interface from `a` is embedded. */
  ghost predicate Refers(meta: NamespaceMeta, a: Name) {
    var self := meta.namespace;
    || (exists i :: 0 <= i < |meta.functions| && SignatureRefers(self, meta.functions[i].signature, a))
    || (exists k :: k in meta.structs && StructRefers(self, meta.structs[k], a))
    || (exists k :: k in meta.typedefs && RefRefers(self, meta.typedefs[k], a))
    || (exists k :: k in meta.delegates && SignatureRefers(self, meta.delegates[k], a))
    || AnyRefers(self, meta.constants, a)
    || (exists k :: k in meta.interfaces && InterfaceRefers(self, meta.interfaces[k], a))
    || EmbedsFrom(meta, a)
  }

  // ---- references, as the walk counts them --------------------------------

  /** One entry per visited reference that counts. */
  function Counted(self: Name, ref: TypeRef): multiset<Name> {
    if CrossReference(self, ref) then multiset{ref.api} else multiset{}
  }

  function RefMentions(self: Name, ref: TypeRef): multiset<Name> {
    Counted(self, ref) + (if ref.child.Some? then RefMentions(self, ref.child.value) else multiset{})
  }

  /** The sum of a list's values. */
  function Total(ms: seq<multiset<Name>>): multiset<Name> {
    if ms == [] then multiset{} else Total(ms[..|ms| - 1]) + ms[|ms| - 1]
  }

  lemma {:induction false} TotalNext(start: multiset<Name>, ms: seq<multiset<Name>>, i: nat)
    requires i < |ms|
    ensures start + Total(ms[..i + 1]) == start + Total(ms[..i]) + ms[i]
  {
    assert ms[..i + 1][..i] == ms[..i];
    assert start + (Total(ms[..i]) + ms[i]) == start + Total(ms[..i]) + ms[i];
  }

  lemma {:induction false} InTotal(ms: seq<multiset<Name>>, a: Name)
    ensures a in Total(ms) <==> exists i :: 0 <= i < |ms| && a in ms[i]
  {
    if ms != [] {
      var n := |ms| - 1;
      InTotal(ms[..n], a);
      if i :| 0 <= i < |ms| && a in ms[i] {
        assert i < n ==> a in ms[..n][i];
      }
    }
  }

  function RefList(self: Name, refs: seq<TypeRef>): (ms: seq<multiset<Name>>)
    ensures |ms| == |refs| && forall i :: 0 <= i < |refs| ==> ms[i] == RefMentions(self, refs[i])
  {
    seq(|refs|, i requires 0 <= i < |refs| => RefMentions(self, refs[i]))
  }

  function SignatureMentions(self: Name, s: Signature): multiset<Name> {
    RefMentions(self, s.ret) + Total(RefList(self, s.params))
  }

  function SignatureList(self: Name, ss: seq<Signature>): (ms: seq<multiset<Name>>)
    ensures |ms| == |ss| && forall i :: 0 <= i < |ss| ==> ms[i] == SignatureMentions(self, ss[i])
  {
    seq(|ss|, i requires 0 <= i < |ss| => SignatureMentions(self, ss[i]))
  }

  function FunctionList(self: Name, fs: seq<Function>): (ms: seq<multiset<Name>>)
    ensures |ms| == |fs| && forall i :: 0 <= i < |fs| ==> ms[i] == SignatureMentions(self, fs[i].signature)
  {
    seq(|fs|, i requires 0 <= i < |fs| => SignatureMentions(self, fs[i].signature))
  }

  /** The sum of a map's values, whatever order they are enumerated in. */
  ghost function Sum(m: map<Name, multiset<Name>>): multiset<Name> {
    if m == map[] then multiset{}
    else
      assert m.Keys != {};
      var k :| k in m;
      m[k] + Sum(m - {k})
  }

  lemma {:induction false} SumAnyOrder(m: map<Name, multiset<Name>>, k: Name)
    requires k in m
    ensures Sum(m) == m[k] + Sum(m - {k})
    decreases |m|
  {
    assert m.Keys != {};
    var first :| first in m && Sum(m) == m[first] + Sum(m - {first});
    if first != k {
      SumAnyOrder(m - {first}, k);
      SumAnyOrder(m - {k}, first);
      assert m - {first} - {k} == m - {k} - {first};
    }
  }

  function Rest(all: map<Name, multiset<Name>>, names: set<Name>): (m: map<Name, multiset<Name>>)
    requires names <= all.Keys
    ensures m.Keys == names
  {
    map k | k in names :: all[k]
  }

  /** One turn of a loop that adds up a map in arbitrary order. */
  lemma {:induction false} RestNext(all: map<Name, multiset<Name>>, names: set<Name>, seen: multiset<Name>, k: Name)
    requires names <= all.Keys && k in names
    ensures seen + all[k] + Sum(Rest(all, names - {k})) == seen + Sum(Rest(all, names))
  {
    var left := Rest(all, names);
    SumAnyOrder(left, k);
    assert left - {k} == Rest(all, names - {k});
    assert seen + (all[k] + Sum(left - {k})) == seen + all[k] + Sum(left - {k});
  }

  lemma {:induction false} RestEnds(all: map<Name, multiset<Name>>, seen: multiset<Name>)
    ensures Rest(all, all.Keys) == all
    ensures seen + Sum(Rest(all, {})) == seen
  {
    assert Rest(all, {}) == map[];
  }

  lemma {:induction false} InSum(m: map<Name, multiset<Name>>, a: Name)
    ensures a in Sum(m) <==> exists k :: k in m && a in m[k]
    decreases |m|
  {
    if m != map[] {
      assert m.Keys != {};
      var k :| k in m && Sum(m) == m[k] + Sum(m - {k});
      InSum(m - {k}, a);
      if exists j :: j in m && a in m[j] {
        var j :| j in m && a in m[j];
        assert j != k ==> j in m - {k} && a in (m - {k})[j];
      }
    }
  }

  ghost function StructMentions(self: Name, s: Struct): multiset<Name>
    decreases s, 0
  {
    Total(RefList(self, s.fields)) + Sum(NestedMentions(self, s)) + Total(VariantList(self, s))
  }

  ghost function NestedMentions(self: Name, s: Struct): map<Name, multiset<Name>>
    decreases s, 0, 0
  {
    map k | k in s.nested :: StructMentions(self, s.nested[k])
  }

  ghost function VariantList(self: Name, s: Struct): seq<multiset<Name>>
    decreases s, 0, 0
  {
    seq(|s.archVariants|, i requires 0 <= i < |s.archVariants| => StructMentions(self, s.archVariants[i]))
  }

  ghost function StructsMentions(meta: NamespaceMeta): map<Name, multiset<Name>> {
    map k | k in meta.structs :: StructMentions(meta.namespace, meta.structs[k])
  }

  ghost function TypedefsMentions(meta: NamespaceMeta): map<Name, multiset<Name>> {
    map k | k in meta.typedefs :: RefMentions(meta.namespace, meta.typedefs[k])
  }

  ghost function DelegatesMentions(meta: NamespaceMeta): map<Name, multiset<Name>> {
    map k | k in meta.delegates :: SignatureMentions(meta.namespace, meta.delegates[k])
  }

  ghost function InterfacesMentions(meta: NamespaceMeta): map<Name, multiset<Name>> {
    map k | k in meta.interfaces :: Total(SignatureList(meta.namespace, meta.interfaces[k].methods))
  }

  /** Everything WalkNamespaceRefs visits. */
  ghost function WalkMentions(meta: NamespaceMeta): multiset<Name> {
    Total(FunctionList(meta.namespace, meta.functions))
    + Sum(StructsMentions(meta))
    + Sum(TypedefsMentions(meta))
    + Sum(DelegatesMentions(meta))
    + Total(RefList(meta.namespace, meta.constants))
    + Sum(InterfacesMentions(meta))
  }

  /** An embedding counts as this many references. */
  const BASE_EMBED_WEIGHT := 1000

  function BaseMention(self: Name, c: ComInterface): multiset<Name> {
    if c.baseInterfaceApi != "" && c.baseInterfaceApi != self
    then multiset{}[c.baseInterfaceApi := BASE_EMBED_WEIGHT]
    else multiset{}
  }

  ghost function BasesMentions(meta: NamespaceMeta): map<Name, multiset<Name>> {
    map k | k in meta.interfaces :: BaseMention(meta.namespace, meta.interfaces[k])
  }

  ghost function Mentions(meta: NamespaceMeta): multiset<Name> {
    WalkMentions(meta) + Sum(BasesMentions(meta))
  }

  // ---- the two agree ------------------------------------------------------

  lemma {:induction false} RefAgrees(self: Name, ref: TypeRef, a: Name)
    ensures a in RefMentions(self, ref) <==> RefRefers(self, ref, a)
  {
    if ref.child.Some? {
      RefAgrees(self, ref.child.value, a);
    }
  }

  lemma {:induction false} RefsAgree(self: Name, refs: seq<TypeRef>, a: Name)
    ensures a in Total(RefList(self, refs)) <==> AnyRefers(self, refs, a)
  {
    InTotal(RefList(self, refs), a);
    forall i | 0 <= i < |refs| ensures a in RefList(self, refs)[i] <==> RefRefers(self, refs[i], a) {
      RefAgrees(self, refs[i], a);
    }
  }

  lemma {:induction false} SignatureAgrees(self: Name, s: Signature, a: Name)
    ensures a in SignatureMentions(self, s) <==> SignatureRefers(self, s, a)
  {
    RefAgrees(self, s.ret, a);
    RefsAgree(self, s.params, a);
  }

  lemma {:induction false} SignaturesAgree(self: Name, ss: seq<Signature>, a: Name)
    ensures a in Total(SignatureList(self, ss)) <==> exists i :: 0 <= i < |ss| && SignatureRefers(self, ss[i], a)
  {
    InTotal(SignatureList(self, ss), a);
    forall i | 0 <= i < |ss| ensures a in SignatureList(self, ss)[i] <==> SignatureRefers(self, ss[i], a) {
      SignatureAgrees(self, ss[i], a);
    }
  }

  lemma {:induction false} FunctionsAgree(self: Name, fs: seq<Function>, a: Name)
    ensures a in Total(FunctionList(self, fs)) <==> exists i :: 0 <= i < |fs| && SignatureRefers(self, fs[i].signature, a)
  {
    InTotal(FunctionList(self, fs), a);
    forall i | 0 <= i < |fs| ensures a in FunctionList(self, fs)[i] <==> SignatureRefers(self, fs[i].signature, a) {
      SignatureAgrees(self, fs[i].signature, a);
    }
  }

  lemma {:induction false} StructAgrees(self: Name, s: Struct, a: Name)
    ensures a in StructMentions(self, s) <==> StructRefers(self, s, a)
    decreases s, 1
  {
    RefsAgree(self, s.fields, a);
    NestedAgree(self, s, a);
    VariantsAgree(self, s, a);
  }

  lemma {:induction false} NestedAgree(self: Name, s: Struct, a: Name)
    ensures a in Sum(NestedMentions(self, s)) <==> exists k :: k in s.nested && StructRefers(self, s.nested[k], a)
    decreases s, 0
  {
    InSum(NestedMentions(self, s), a);
    forall k | k in s.nested ensures a in NestedMentions(self, s)[k] <==> StructRefers(self, s.nested[k], a) {
      StructAgrees(self, s.nested[k], a);
    }
  }

  lemma {:induction false} VariantsAgree(self: Name, s: Struct, a: Name)
    ensures a in Total(VariantList(self, s)) <==> exists i :: 0 <= i < |s.archVariants| && StructRefers(self, s.archVariants[i], a)
    decreases s, 0
  {
    InTotal(VariantList(self, s), a);
    forall i | 0 <= i < |s.archVariants|
      ensures a in VariantList(self, s)[i] <==> StructRefers(self, s.archVariants[i], a)
    {
      StructAgrees(self, s.archVariants[i], a);
    }
  }

  lemma {:induction false} StructsAgree(meta: NamespaceMeta, a: Name)
    ensures a in Sum(StructsMentions(meta)) <==> exists k :: k in meta.structs && StructRefers(meta.namespace, meta.structs[k], a)
  {
    InSum(StructsMentions(meta), a);
    forall k | k in meta.structs ensures a in StructsMentions(meta)[k] <==> StructRefers(meta.namespace, meta.structs[k], a) {
      StructAgrees(meta.namespace, meta.structs[k], a);
    }
  }

  lemma {:induction false} TypedefsAgree(meta: NamespaceMeta, a: Name)
    ensures a in Sum(TypedefsMentions(meta)) <==> exists k :: k in meta.typedefs && RefRefers(meta.namespace, meta.typedefs[k], a)
  {
    InSum(TypedefsMentions(meta), a);
    forall k | k in meta.typedefs ensures a in TypedefsMentions(meta)[k] <==> RefRefers(meta.namespace, meta.typedefs[k], a) {
      RefAgrees(meta.namespace, meta.typedefs[k], a);
    }
  }

  lemma {:induction false} DelegatesAgree(meta: NamespaceMeta, a: Name)
    ensures a in Sum(DelegatesMentions(meta)) <==> exists k :: k in meta.delegates && SignatureRefers(meta.namespace, meta.delegates[k], a)
  {
    InSum(DelegatesMentions(meta), a);
    forall k | k in meta.delegates ensures a in DelegatesMentions(meta)[k] <==> SignatureRefers(meta.namespace, meta.delegates[k], a) {
      SignatureAgrees(meta.namespace, meta.delegates[k], a);
    }
  }

  lemma {:induction false} InterfacesAgree(meta: NamespaceMeta, a: Name)
    ensures a in Sum(InterfacesMentions(meta)) <==> exists k :: k in meta.interfaces && InterfaceRefers(meta.namespace, meta.interfaces[k], a)
  {
    InSum(InterfacesMentions(meta), a);
    forall k | k in meta.interfaces ensures a in InterfacesMentions(meta)[k] <==> InterfaceRefers(meta.namespace, meta.interfaces[k], a) {
      SignaturesAgree(meta.namespace, meta.interfaces[k].methods, a);
    }
  }

  lemma {:induction false} BasesAgree(meta: NamespaceMeta, a: Name)
    ensures a in Sum(BasesMentions(meta)) <==> EmbedsFrom(meta, a)
  {
    InSum(BasesMentions(meta), a);
    forall k | k in meta.interfaces ensures a in BasesMentions(meta)[k] <==> Embeds(meta.namespace, meta.interfaces[k], a) {
    }
  }

  lemma {:induction false} UnionMember(meta: NamespaceMeta, a: Name)
    ensures a in Mentions(meta) <==>
      || a in Total(FunctionList(meta.namespace, meta.functions))
      || a in Sum(StructsMentions(meta)) || a in Sum(TypedefsMentions(meta)) || a in Sum(DelegatesMentions(meta))
      || a in Total(RefList(meta.namespace, meta.constants))
      || a in Sum(InterfacesMentions(meta)) || a in Sum(BasesMentions(meta))
  {}

  /** The walk counts a namespace exactly when the record refers to it, at any depth. */
  lemma {:induction false} MentionsAgree(meta: NamespaceMeta, a: Name)
    ensures a in Mentions(meta) <==> Refers(meta, a)
  {
    FunctionsAgree(meta.namespace, meta.functions, a);
    StructsAgree(meta, a);
    TypedefsAgree(meta, a);
    DelegatesAgree(meta, a);
    RefsAgree(meta.namespace, meta.constants, a);
    InterfacesAgree(meta, a);
    BasesAgree(meta, a);
    UnionMember(meta, a);
  }

  lemma {:induction false} NeverSelf(meta: NamespaceMeta)
    ensures meta.namespace !in Mentions(meta) && "" !in Mentions(meta)
  {
    NoneRefers(meta, meta.namespace);
    NoneRefers(meta, "");
    MentionsAgree(meta, meta.namespace);
    MentionsAgree(meta, "");
  }

  lemma {:induction false} RefNotSelf(self: Name, ref: TypeRef, a: Name)
    requires a == self || a == ""
    ensures !RefRefers(self, ref, a)
  {
    if ref.child.Some? {
      RefNotSelf(self, ref.child.value, a);
    }
  }

  lemma {:induction false} StructNotSelf(self: Name, s: Struct, a: Name)
    requires a == self || a == ""
    ensures !StructRefers(self, s, a)
  {
    forall r ensures !RefRefers(self, r, a) {
      RefNotSelf(self, r, a);
    }
    forall k | k in s.nested ensures !StructRefers(self, s.nested[k], a) {
      StructNotSelf(self, s.nested[k], a);
    }
    forall i | 0 <= i < |s.archVariants| ensures !StructRefers(self, s.archVariants[i], a) {
      StructNotSelf(self, s.archVariants[i], a);
    }
  }

  lemma {:induction false} NoneRefers(meta: NamespaceMeta, a: Name)
    requires a == meta.namespace || a == ""
    ensures !Refers(meta, a)
  {
    forall r ensures !RefRefers(meta.namespace, r, a) {
      RefNotSelf(meta.namespace, r, a);
    }
    forall s ensures !StructRefers(meta.namespace, s, a) {
      StructNotSelf(meta.namespace, s, a);
    }
  }

  /** An embedded base weighs at least 1000. */
  lemma {:induction false} EmbeddingIsHeavy(meta: NamespaceMeta, a: Name)
    requires EmbedsFrom(meta, a)
    ensures Mentions(meta)[a] >= 1000
  {
    var k :| k in meta.interfaces && Embeds(meta.namespace, meta.interfaces[k], a);
    SumAnyOrder(BasesMentions(meta), k);
  }

  /** Reference counts by namespace. */
  ghost function Tally(m: multiset<Name>): map<Name, int> {
    map a | a in m :: m[a]
  }
}
