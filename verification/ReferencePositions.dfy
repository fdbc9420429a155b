/**
What an edge weight counts, said without the walk: the places in a namespace's record that hold a reference to
the other namespace, each of them once, and a thousand for every base interface from there.
*/
module ReferencePositions {
  import opened Options
  import opened Names
  import opened Metadata

  /** One step down from a record to a type reference. */
  datatype Step =
    | FunctionAt(i: int) | StructNamed(name: Name) | TypedefNamed(name: Name) | DelegateNamed(name: Name)
    | ConstantAt(i: int) | InterfaceNamed(name: Name) | MethodAt(i: int)
    | ReturnType | Param(i: int)
    | Field(i: int) | Nested(name: Name) | Variant(i: int)
    | Child

  /** A place in a record. */
  type Path = seq<Step>

  function RefAtRef(ref: TypeRef, p: Path): Option<TypeRef> {
    if p == [] then Some(ref)
    else if p[0].Child? && ref.child.Some? then RefAtRef(ref.child.value, p[1..])
    else None
  }

  function RefAtList(refs: seq<TypeRef>, i: int, p: Path): Option<TypeRef> {
    if 0 <= i < |refs| then RefAtRef(refs[i], p) else None
  }

  function RefAtSignature(s: Signature, p: Path): Option<TypeRef> {
    if p == [] then None
    else match p[0]
      case ReturnType => RefAtRef(s.ret, p[1..])
      case Param(i) => RefAtList(s.params, i, p[1..])
      case _ => None
  }

  function RefAtStruct(s: Struct, p: Path): Option<TypeRef> {
    if p == [] then None
    else match p[0]
      case Field(i) => RefAtList(s.fields, i, p[1..])
      case Nested(name) => if name in s.nested then RefAtStruct(s.nested[name], p[1..]) else None
      case Variant(i) => if 0 <= i < |s.archVariants| then RefAtStruct(s.archVariants[i], p[1..]) else None
      case _ => None
  }

  function RefAtInterface(c: ComInterface, p: Path): Option<TypeRef> {
    if p == [] then None
    else match p[0]
      case MethodAt(i) => if 0 <= i < |c.methods| then RefAtSignature(c.methods[i], p[1..]) else None
      case _ => None
  }

  /** The type reference at a place of the record, if there is one. */
  function RefAt(meta: NamespaceMeta, p: Path): Option<TypeRef> {
    if p == [] then None
    else match p[0]
      case FunctionAt(i) => if 0 <= i < |meta.functions| then RefAtSignature(meta.functions[i].signature, p[1..]) else None
      case StructNamed(name) => if name in meta.structs then RefAtStruct(meta.structs[name], p[1..]) else None
      case TypedefNamed(name) => if name in meta.typedefs then RefAtRef(meta.typedefs[name], p[1..]) else None
      case DelegateNamed(name) => if name in meta.delegates then RefAtSignature(meta.delegates[name], p[1..]) else None
      case ConstantAt(i) => RefAtList(meta.constants, i, p[1..])
      case InterfaceNamed(name) => if name in meta.interfaces then RefAtInterface(meta.interfaces[name], p[1..]) else None
      case _ => None
  }

  /** A reference out of namespace `self` to namespace `a`. */
  predicate PointsTo(ref: Option<TypeRef>, self: Name, a: Name) {
    ref.Some? && ref.value.kind == "ApiRef" && ref.value.api == a && a != "" && a != self
  }

  // ---- counting by the first step -----------------------------------------

  ghost function Prefixed(step: Step, ps: set<Path>): set<Path> {
    set p | p in ps :: [step] + p
  }

  lemma {:induction false} PrefixedIff(step: Step, ps: set<Path>, q: Path)
    ensures q in Prefixed(step, ps) <==> q != [] && q[0] == step && q[1..] in ps
  {
    if q != [] && q[0] == step {
      assert q == [step] + q[1..];
    }
    if q in Prefixed(step, ps) {
      var p :| p in ps && q == [step] + p;
      assert q[1..] == p;
    }
  }

  lemma {:induction false} PrefixedCount(step: Step, ps: set<Path>)
    ensures |Prefixed(step, ps)| == |ps|
    decreases |ps|
  {
    if ps != {} {
      var p :| p in ps;
      PrefixedCount(step, ps - {p});
      PrefixedIff(step, ps - {p}, [step] + p);
      assert ([step] + p)[1..] == p;
      assert Prefixed(step, ps) == Prefixed(step, ps - {p}) + {[step] + p};
    }
  }

  /** Places under the `i`-th of a list of things, for every `i`. */
  ghost function Listed(step: int -> Step, sets: seq<set<Path>>): set<Path> {
    if sets == [] then {}
    else Listed(step, sets[..|sets| - 1]) + Prefixed(step(|sets| - 1), sets[|sets| - 1])
  }

  lemma {:induction false} ListedIff(step: int -> Step, sets: seq<set<Path>>, q: Path)
    ensures q in Listed(step, sets) <==> q != [] && exists i :: 0 <= i < |sets| && q[0] == step(i) && q[1..] in sets[i]
  {
    if sets != [] {
      var n := |sets| - 1;
      ListedIff(step, sets[..n], q);
      PrefixedIff(step(n), sets[n], q);
      if i :| q != [] && 0 <= i < |sets| && q[0] == step(i) && q[1..] in sets[i] {
        assert i < n ==> q[1..] in sets[..n][i];
      }
    }
  }

  lemma {:induction false} ListedCount(step: int -> Step, sets: seq<set<Path>>, ms: seq<multiset<Name>>, a: Name)
    requires forall i, j :: step(i) == step(j) ==> i == j
    requires |ms| == |sets| && forall i :: 0 <= i < |sets| ==> |sets[i]| == ms[i][a]
    ensures |Listed(step, sets)| == Total(ms)[a]
  {
    if sets != [] {
      var n := |sets| - 1;
      ListedCount(step, sets[..n], ms[..n], a);
      PrefixedCount(step(n), sets[n]);
      forall q | q in Listed(step, sets[..n]) ensures q !in Prefixed(step(n), sets[n]) {
        ListedIff(step, sets[..n], q);
        PrefixedIff(step(n), sets[n], q);
      }
    }
  }

  /** Places under the things of a map. */
  ghost function Named(step: Name -> Step, sets: map<Name, set<Path>>): set<Path> {
    set k, p | k in sets && p in sets[k] :: [step(k)] + p
  }

  lemma {:induction false} NamedIff(step: Name -> Step, sets: map<Name, set<Path>>, q: Path)
    ensures q in Named(step, sets) <==> q != [] && exists k :: k in sets && q[0] == step(k) && q[1..] in sets[k]
  {
    if q in Named(step, sets) {
      var k, p :| k in sets && p in sets[k] && q == [step(k)] + p;
      assert q[1..] == p;
    }
    if k :| q != [] && k in sets && q[0] == step(k) && q[1..] in sets[k] {
      assert q == [step(k)] + q[1..];
    }
  }

  lemma {:induction false} NamedAt(step: Name -> Step, sets: map<Name, set<Path>>, q: Path, k: Name)
    requires q != [] && q[0] == step(k) && forall k, l :: step(k) == step(l) ==> k == l
    ensures q in Named(step, sets) <==> k in sets && q[1..] in sets[k]
  {
    NamedIff(step, sets, q);
  }

  lemma {:induction false} ListedAt(step: int -> Step, sets: seq<set<Path>>, q: Path, i: int)
    requires q != [] && q[0] == step(i) && forall i, j :: step(i) == step(j) ==> i == j
    ensures q in Listed(step, sets) <==> 0 <= i < |sets| && q[1..] in sets[i]
  {
    ListedIff(step, sets, q);
  }

  lemma {:induction false} NamedSplit(step: Name -> Step, sets: map<Name, set<Path>>, k: Name)
    requires k in sets && forall k, l :: step(k) == step(l) ==> k == l
    ensures Named(step, sets) == Named(step, sets - {k}) + Prefixed(step(k), sets[k])
    ensures Named(step, sets - {k}) !! Prefixed(step(k), sets[k])
  {
    forall q ensures q in Named(step, sets) <==> q in Named(step, sets - {k}) || q in Prefixed(step(k), sets[k]) {
      NamedIff(step, sets, q);
      NamedIff(step, sets - {k}, q);
      PrefixedIff(step(k), sets[k], q);
    }
    forall q | q in Named(step, sets - {k}) ensures q !in Prefixed(step(k), sets[k]) {
      NamedIff(step, sets - {k}, q);
      PrefixedIff(step(k), sets[k], q);
    }
  }

  lemma {:induction false} NamedCount(step: Name -> Step, sets: map<Name, set<Path>>, ms: map<Name, multiset<Name>>, a: Name)
    requires forall k, l :: step(k) == step(l) ==> k == l
    requires ms.Keys == sets.Keys && forall k :: k in sets ==> |sets[k]| == ms[k][a]
    ensures |Named(step, sets)| == Sum(ms)[a]
    decreases |sets|
  {
    if k :| k in sets {
      NamedCount(step, sets - {k}, ms - {k}, a);
      SumAnyOrder(ms, k);
      PrefixedCount(step(k), sets[k]);
      NamedSplit(step, sets, k);
    } else {
      assert ms == map[];
    }
  }

  // ---- the places that refer to a namespace -------------------------------

  ghost function RefPlaces(self: Name, ref: TypeRef, a: Name): set<Path> {
    (if PointsTo(Some(ref), self, a) then {[]} else {})
    + (if ref.child.Some? then Prefixed(Child, RefPlaces(self, ref.child.value, a)) else {})
  }

  lemma {:induction false} RefPlacesIff(self: Name, ref: TypeRef, a: Name, p: Path)
    ensures p in RefPlaces(self, ref, a) <==> PointsTo(RefAtRef(ref, p), self, a)
    decreases ref
  {
    if ref.child.Some? {
      PrefixedIff(Child, RefPlaces(self, ref.child.value, a), p);
      if p != [] {
        RefPlacesIff(self, ref.child.value, a, p[1..]);
      }
    }
  }

  lemma {:induction false} RefPlacesCount(self: Name, ref: TypeRef, a: Name)
    ensures |RefPlaces(self, ref, a)| == RefMentions(self, ref)[a]
    decreases ref
  {
    if ref.child.Some? {
      var below := RefPlaces(self, ref.child.value, a);
      RefPlacesCount(self, ref.child.value, a);
      PrefixedCount(Child, below);
      PrefixedIff(Child, below, []);
      DisjointCount(if PointsTo(Some(ref), self, a) then {[]} else {}, Prefixed(Child, below));
    }
  }

  lemma {:induction false} DisjointCount(p: set<Path>, q: set<Path>)
    requires p !! q
    ensures |p + q| == |p| + |q|
  {}

  /** All these places start with a step like `kind`. */
  ghost predicate StartWith(ps: set<Path>, kind: Step -> bool) {
    forall p :: p in ps ==> p != [] && kind(p[0])
  }

  lemma {:induction false} StartsApart(p: set<Path>, q: set<Path>, kind: Step -> bool, other: Step -> bool)
    requires StartWith(p, kind) && StartWith(q, other) && forall x :: !(kind(x) && other(x))
    ensures p !! q
  {}

  ghost function ListPlaces(self: Name, refs: seq<TypeRef>, a: Name): (sets: seq<set<Path>>)
    ensures |sets| == |refs| && forall i :: 0 <= i < |refs| ==> sets[i] == RefPlaces(self, refs[i], a)
  {
    seq(|refs|, i requires 0 <= i < |refs| => RefPlaces(self, refs[i], a))
  }

  lemma {:induction false} ListPlacesIff(step: int -> Step, self: Name, refs: seq<TypeRef>, a: Name, p: Path)
    ensures p in Listed(step, ListPlaces(self, refs, a)) <==>
      p != [] && exists i :: p[0] == step(i) && PointsTo(RefAtList(refs, i, p[1..]), self, a)
  {
    ListedIff(step, ListPlaces(self, refs, a), p);
    if p != [] {
      forall i | 0 <= i < |refs| ensures p[1..] in RefPlaces(self, refs[i], a) <==> PointsTo(RefAtRef(refs[i], p[1..]), self, a) {
        RefPlacesIff(self, refs[i], a, p[1..]);
      }
    }
  }

  lemma {:induction false} ListPlacesCount(step: int -> Step, self: Name, refs: seq<TypeRef>, a: Name)
    requires forall i, j :: step(i) == step(j) ==> i == j
    ensures |Listed(step, ListPlaces(self, refs, a))| == Total(RefList(self, refs))[a]
  {
    forall i | 0 <= i < |refs| ensures |RefPlaces(self, refs[i], a)| == RefMentions(self, refs[i])[a] {
      RefPlacesCount(self, refs[i], a);
    }
    ListedCount(step, ListPlaces(self, refs, a), RefList(self, refs), a);
  }

  function AtParam(i: int): Step { Param(i) }

  function AtField(i: int): Step { Field(i) }

  function AtVariant(i: int): Step { Variant(i) }

  function AtConstant(i: int): Step { ConstantAt(i) }

  function AtFunction(i: int): Step { FunctionAt(i) }

  function AtMethod(i: int): Step { MethodAt(i) }

  function AtNested(name: Name): Step { Nested(name) }

  function AtStruct(name: Name): Step { StructNamed(name) }

  function AtTypedef(name: Name): Step { TypedefNamed(name) }

  function AtDelegate(name: Name): Step { DelegateNamed(name) }

  function AtInterface(name: Name): Step { InterfaceNamed(name) }

  ghost function SignaturePlaces(self: Name, s: Signature, a: Name): set<Path> {
    Prefixed(ReturnType, RefPlaces(self, s.ret, a)) + Listed(AtParam, ListPlaces(self, s.params, a))
  }

  lemma {:induction false} SignaturePlacesIff(self: Name, s: Signature, a: Name, p: Path)
    ensures p in SignaturePlaces(self, s, a) <==> PointsTo(RefAtSignature(s, p), self, a)
  {
    PrefixedIff(ReturnType, RefPlaces(self, s.ret, a), p);
    ListPlacesIff(AtParam, self, s.params, a, p);
    if p != [] {
      RefPlacesIff(self, s.ret, a, p[1..]);
    }
  }

  lemma {:induction false} SignaturePlacesCount(self: Name, s: Signature, a: Name)
    ensures |SignaturePlaces(self, s, a)| == SignatureMentions(self, s)[a]
  {
    var ret, params := Prefixed(ReturnType, RefPlaces(self, s.ret, a)), Listed(AtParam, ListPlaces(self, s.params, a));
    RefPlacesCount(self, s.ret, a);
    PrefixedCount(ReturnType, RefPlaces(self, s.ret, a));
    ListPlacesCount(AtParam, self, s.params, a);
    forall p | p in ret ensures p !in params {
      PrefixedIff(ReturnType, RefPlaces(self, s.ret, a), p);
      ListPlacesIff(AtParam, self, s.params, a, p);
    }
    DisjointCount(ret, params);
  }

  // ---- structs ------------------------------------------------------------

  ghost function StructPlaces(self: Name, s: Struct, a: Name): set<Path>
    decreases s, 1
  {
    Listed(AtField, ListPlaces(self, s.fields, a))
    + Named(AtNested, NestedPlaces(self, s, a))
    + Listed(AtVariant, VariantPlaces(self, s, a))
  }

  ghost function NestedPlaces(self: Name, s: Struct, a: Name): map<Name, set<Path>>
    decreases s, 0
  {
    map k | k in s.nested :: StructPlaces(self, s.nested[k], a)
  }

  ghost function VariantPlaces(self: Name, s: Struct, a: Name): seq<set<Path>>
    decreases s, 0
  {
    seq(|s.archVariants|, i requires 0 <= i < |s.archVariants| => StructPlaces(self, s.archVariants[i], a))
  }

  lemma {:induction false} StructPlacesIff(self: Name, s: Struct, a: Name, p: Path)
    ensures p in StructPlaces(self, s, a) <==> PointsTo(RefAtStruct(s, p), self, a)
    decreases s, 1
  {
    ListPlacesIff(AtField, self, s.fields, a, p);
    NestedIff(self, s, a, p);
    VariantIff(self, s, a, p);
  }

  lemma {:induction false} NestedIff(self: Name, s: Struct, a: Name, p: Path)
    ensures p in Named(AtNested, NestedPlaces(self, s, a)) <==>
      p != [] && p[0].Nested? && p[0].name in s.nested && PointsTo(RefAtStruct(s.nested[p[0].name], p[1..]), self, a)
    decreases s, 0
  {
    NamedStart(AtNested, NestedPlaces(self, s, a), IsNested);
    if p != [] && p[0].Nested? {
      NamedAt(AtNested, NestedPlaces(self, s, a), p, p[0].name);
      if p[0].name in s.nested {
        StructPlacesIff(self, s.nested[p[0].name], a, p[1..]);
      }
    }
  }

  lemma {:induction false} VariantIff(self: Name, s: Struct, a: Name, p: Path)
    ensures p in Listed(AtVariant, VariantPlaces(self, s, a)) <==>
      p != [] && p[0].Variant? && 0 <= p[0].i < |s.archVariants| && PointsTo(RefAtStruct(s.archVariants[p[0].i], p[1..]), self, a)
    decreases s, 0
  {
    ListedStart(AtVariant, VariantPlaces(self, s, a), IsVariant);
    if p != [] && p[0].Variant? {
      ListedAt(AtVariant, VariantPlaces(self, s, a), p, p[0].i);
      if 0 <= p[0].i < |s.archVariants| {
        StructPlacesIff(self, s.archVariants[p[0].i], a, p[1..]);
      }
    }
  }

  lemma {:induction false} ListedStart(step: int -> Step, sets: seq<set<Path>>, kind: Step -> bool)
    requires forall i :: kind(step(i))
    ensures StartWith(Listed(step, sets), kind)
  {
    forall p | p in Listed(step, sets) ensures p != [] && kind(p[0]) {
      ListedIff(step, sets, p);
    }
  }

  lemma {:induction false} NamedStart(step: Name -> Step, sets: map<Name, set<Path>>, kind: Step -> bool)
    requires forall k :: kind(step(k))
    ensures StartWith(Named(step, sets), kind)
  {
    forall p | p in Named(step, sets) ensures p != [] && kind(p[0]) {
      NamedIff(step, sets, p);
    }
  }

  predicate IsField(x: Step) { x.Field? }

  predicate IsNested(x: Step) { x.Nested? }

  predicate IsVariant(x: Step) { x.Variant? }

  lemma {:induction false} StructPlacesCount(self: Name, s: Struct, a: Name)
    ensures |StructPlaces(self, s, a)| == StructMentions(self, s)[a]
    decreases s, 1
  {
    ListPlacesCount(AtField, self, s.fields, a);
    NestedCount(self, s, a);
    VariantCount(self, s, a);
    ThreeSections(ListPlaces(self, s.fields, a), NestedPlaces(self, s, a), VariantPlaces(self, s, a));
  }

  lemma {:induction false} ThreeSections(fields: seq<set<Path>>, nested: map<Name, set<Path>>, variants: seq<set<Path>>)
    ensures |Listed(AtField, fields) + Named(AtNested, nested) + Listed(AtVariant, variants)|
         == |Listed(AtField, fields)| + |Named(AtNested, nested)| + |Listed(AtVariant, variants)|
  {
    ListedStart(AtField, fields, IsField);
    NamedStart(AtNested, nested, IsNested);
    ListedStart(AtVariant, variants, IsVariant);
    StartsApart(Listed(AtField, fields), Named(AtNested, nested), IsField, IsNested);
    StartsApart(Listed(AtField, fields), Listed(AtVariant, variants), IsField, IsVariant);
    StartsApart(Named(AtNested, nested), Listed(AtVariant, variants), IsNested, IsVariant);
    DisjointCount(Listed(AtField, fields), Named(AtNested, nested));
    DisjointCount(Listed(AtField, fields) + Named(AtNested, nested), Listed(AtVariant, variants));
  }

  lemma {:induction false} NestedCount(self: Name, s: Struct, a: Name)
    ensures |Named(AtNested, NestedPlaces(self, s, a))| == Sum(NestedMentions(self, s))[a]
    decreases s, 0
  {
    forall k | k in s.nested ensures |StructPlaces(self, s.nested[k], a)| == StructMentions(self, s.nested[k])[a] {
      StructPlacesCount(self, s.nested[k], a);
    }
    NamedCount(AtNested, NestedPlaces(self, s, a), NestedMentions(self, s), a);
  }

  lemma {:induction false} VariantCount(self: Name, s: Struct, a: Name)
    ensures |Listed(AtVariant, VariantPlaces(self, s, a))| == Total(VariantList(self, s))[a]
    decreases s, 0
  {
    forall i | 0 <= i < |s.archVariants| ensures |StructPlaces(self, s.archVariants[i], a)| == StructMentions(self, s.archVariants[i])[a] {
      StructPlacesCount(self, s.archVariants[i], a);
    }
    ListedCount(AtVariant, VariantPlaces(self, s, a), VariantList(self, s), a);
  }

  // ---- the sections of a record -------------------------------------------

  ghost function SignatureSets(self: Name, ss: seq<Signature>, a: Name): (sets: seq<set<Path>>)
    ensures |sets| == |ss| && forall i :: 0 <= i < |ss| ==> sets[i] == SignaturePlaces(self, ss[i], a)
  {
    seq(|ss|, i requires 0 <= i < |ss| => SignaturePlaces(self, ss[i], a))
  }

  lemma {:induction false} SignatureSetsIff(step: int -> Step, self: Name, ss: seq<Signature>, a: Name, p: Path)
    ensures p in Listed(step, SignatureSets(self, ss, a)) <==>
      p != [] && exists i :: 0 <= i < |ss| && p[0] == step(i) && PointsTo(RefAtSignature(ss[i], p[1..]), self, a)
  {
    ListedIff(step, SignatureSets(self, ss, a), p);
    if p != [] {
      forall i | 0 <= i < |ss| ensures p[1..] in SignaturePlaces(self, ss[i], a) <==> PointsTo(RefAtSignature(ss[i], p[1..]), self, a) {
        SignaturePlacesIff(self, ss[i], a, p[1..]);
      }
    }
  }

  lemma {:induction false} SignatureSetsCount(step: int -> Step, self: Name, ss: seq<Signature>, a: Name)
    requires forall i, j :: step(i) == step(j) ==> i == j
    ensures |Listed(step, SignatureSets(self, ss, a))| == Total(SignatureList(self, ss))[a]
  {
    forall i | 0 <= i < |ss| ensures |SignaturePlaces(self, ss[i], a)| == SignatureMentions(self, ss[i])[a] {
      SignaturePlacesCount(self, ss[i], a);
    }
    ListedCount(step, SignatureSets(self, ss, a), SignatureList(self, ss), a);
  }

  function Signatures(fs: seq<Function>): (ss: seq<Signature>)
    ensures |ss| == |fs| && forall i :: 0 <= i < |fs| ==> ss[i] == fs[i].signature
  {
    seq(|fs|, i requires 0 <= i < |fs| => fs[i].signature)
  }

  ghost function FunctionPlaces(meta: NamespaceMeta, a: Name): set<Path> {
    Listed(AtFunction, SignatureSets(meta.namespace, Signatures(meta.functions), a))
  }

  lemma {:induction false} FunctionPlacesIff(meta: NamespaceMeta, a: Name, p: Path)
    ensures p in FunctionPlaces(meta, a) <==> p != [] && p[0].FunctionAt? && PointsTo(RefAt(meta, p), meta.namespace, a)
  {
    SignatureSetsIff(AtFunction, meta.namespace, Signatures(meta.functions), a, p);
    if p != [] && p[0].FunctionAt? {
      assert p[0] == AtFunction(p[0].i);
    }
  }

  lemma {:induction false} FunctionPlacesCount(meta: NamespaceMeta, a: Name)
    ensures |FunctionPlaces(meta, a)| == Total(FunctionList(meta.namespace, meta.functions))[a]
  {
    SignatureSetsCount(AtFunction, meta.namespace, Signatures(meta.functions), a);
    assert FunctionList(meta.namespace, meta.functions) == SignatureList(meta.namespace, Signatures(meta.functions));
  }

  ghost function StructsSets(meta: NamespaceMeta, a: Name): (sets: map<Name, set<Path>>) {
    map k | k in meta.structs :: StructPlaces(meta.namespace, meta.structs[k], a)
  }

  lemma {:induction false} StructsPlacesIff(meta: NamespaceMeta, a: Name, p: Path)
    ensures p in Named(AtStruct, StructsSets(meta, a)) <==> p != [] && p[0].StructNamed? && PointsTo(RefAt(meta, p), meta.namespace, a)
  {
    NamedStart(AtStruct, StructsSets(meta, a), IsStruct);
    if p != [] && p[0].StructNamed? {
      NamedAt(AtStruct, StructsSets(meta, a), p, p[0].name);
      if p[0].name in meta.structs {
        StructPlacesIff(meta.namespace, meta.structs[p[0].name], a, p[1..]);
      }
    }
  }

  lemma {:induction false} StructsPlacesCount(meta: NamespaceMeta, a: Name)
    ensures |Named(AtStruct, StructsSets(meta, a))| == Sum(StructsMentions(meta))[a]
  {
    forall k | k in meta.structs ensures |StructsSets(meta, a)[k]| == StructsMentions(meta)[k][a] {
      StructPlacesCount(meta.namespace, meta.structs[k], a);
    }
    NamedCount(AtStruct, StructsSets(meta, a), StructsMentions(meta), a);
  }

  ghost function TypedefSets(meta: NamespaceMeta, a: Name): (sets: map<Name, set<Path>>) {
    map k | k in meta.typedefs :: RefPlaces(meta.namespace, meta.typedefs[k], a)
  }

  lemma {:induction false} TypedefPlacesIff(meta: NamespaceMeta, a: Name, p: Path)
    ensures p in Named(AtTypedef, TypedefSets(meta, a)) <==> p != [] && p[0].TypedefNamed? && PointsTo(RefAt(meta, p), meta.namespace, a)
  {
    NamedStart(AtTypedef, TypedefSets(meta, a), IsTypedef);
    if p != [] && p[0].TypedefNamed? {
      NamedAt(AtTypedef, TypedefSets(meta, a), p, p[0].name);
      if p[0].name in meta.typedefs {
        RefPlacesIff(meta.namespace, meta.typedefs[p[0].name], a, p[1..]);
      }
    }
  }

  lemma {:induction false} TypedefPlacesCount(meta: NamespaceMeta, a: Name)
    ensures |Named(AtTypedef, TypedefSets(meta, a))| == Sum(TypedefsMentions(meta))[a]
  {
    forall k | k in meta.typedefs ensures |TypedefSets(meta, a)[k]| == TypedefsMentions(meta)[k][a] {
      RefPlacesCount(meta.namespace, meta.typedefs[k], a);
    }
    NamedCount(AtTypedef, TypedefSets(meta, a), TypedefsMentions(meta), a);
  }

  ghost function DelegateSets(meta: NamespaceMeta, a: Name): (sets: map<Name, set<Path>>) {
    map k | k in meta.delegates :: SignaturePlaces(meta.namespace, meta.delegates[k], a)
  }

  lemma {:induction false} DelegatePlacesIff(meta: NamespaceMeta, a: Name, p: Path)
    ensures p in Named(AtDelegate, DelegateSets(meta, a)) <==> p != [] && p[0].DelegateNamed? && PointsTo(RefAt(meta, p), meta.namespace, a)
  {
    NamedStart(AtDelegate, DelegateSets(meta, a), IsDelegate);
    if p != [] && p[0].DelegateNamed? {
      NamedAt(AtDelegate, DelegateSets(meta, a), p, p[0].name);
      if p[0].name in meta.delegates {
        SignaturePlacesIff(meta.namespace, meta.delegates[p[0].name], a, p[1..]);
      }
    }
  }

  lemma {:induction false} DelegatePlacesCount(meta: NamespaceMeta, a: Name)
    ensures |Named(AtDelegate, DelegateSets(meta, a))| == Sum(DelegatesMentions(meta))[a]
  {
    forall k | k in meta.delegates ensures |DelegateSets(meta, a)[k]| == DelegatesMentions(meta)[k][a] {
      SignaturePlacesCount(meta.namespace, meta.delegates[k], a);
    }
    NamedCount(AtDelegate, DelegateSets(meta, a), DelegatesMentions(meta), a);
  }

  lemma {:induction false} ConstantPlacesIff(meta: NamespaceMeta, a: Name, p: Path)
    ensures p in Listed(AtConstant, ListPlaces(meta.namespace, meta.constants, a)) <==>
      p != [] && p[0].ConstantAt? && PointsTo(RefAt(meta, p), meta.namespace, a)
  {
    ListPlacesIff(AtConstant, meta.namespace, meta.constants, a, p);
    if p != [] && p[0].ConstantAt? {
      assert p[0] == AtConstant(p[0].i);
    }
  }

  ghost function MethodPlaces(self: Name, c: ComInterface, a: Name): set<Path> {
    Listed(AtMethod, SignatureSets(self, c.methods, a))
  }

  lemma {:induction false} MethodPlacesIff(self: Name, c: ComInterface, a: Name, p: Path)
    ensures p in MethodPlaces(self, c, a) <==> PointsTo(RefAtInterface(c, p), self, a)
  {
    SignatureSetsIff(AtMethod, self, c.methods, a, p);
    if p != [] && p[0].MethodAt? {
      assert p[0] == AtMethod(p[0].i);
    }
  }

  lemma {:induction false} MethodPlacesCount(self: Name, c: ComInterface, a: Name)
    ensures |MethodPlaces(self, c, a)| == Total(SignatureList(self, c.methods))[a]
  {
    SignatureSetsCount(AtMethod, self, c.methods, a);
  }

  ghost function InterfaceSets(meta: NamespaceMeta, a: Name): (sets: map<Name, set<Path>>) {
    map k | k in meta.interfaces :: MethodPlaces(meta.namespace, meta.interfaces[k], a)
  }

  lemma {:induction false} InterfacePlacesIff(meta: NamespaceMeta, a: Name, p: Path)
    ensures p in Named(AtInterface, InterfaceSets(meta, a)) <==> p != [] && p[0].InterfaceNamed? && PointsTo(RefAt(meta, p), meta.namespace, a)
  {
    NamedStart(AtInterface, InterfaceSets(meta, a), IsInterface);
    if p != [] && p[0].InterfaceNamed? {
      NamedAt(AtInterface, InterfaceSets(meta, a), p, p[0].name);
      if p[0].name in meta.interfaces {
        MethodPlacesIff(meta.namespace, meta.interfaces[p[0].name], a, p[1..]);
      }
    }
  }

  lemma {:induction false} InterfacePlacesCount(meta: NamespaceMeta, a: Name)
    ensures |Named(AtInterface, InterfaceSets(meta, a))| == Sum(InterfacesMentions(meta))[a]
  {
    forall k | k in meta.interfaces ensures |InterfaceSets(meta, a)[k]| == InterfacesMentions(meta)[k][a] {
      MethodPlacesCount(meta.namespace, meta.interfaces[k], a);
    }
    NamedCount(AtInterface, InterfaceSets(meta, a), InterfacesMentions(meta), a);
  }

  // ---- bases --------------------------------------------------------------

  /** The interfaces whose base lives in namespace `a`. */
  function Embedding(meta: NamespaceMeta, a: Name): set<Name> {
    set k | k in meta.interfaces && meta.interfaces[k].baseInterfaceApi == a && a != "" && a != meta.namespace
  }

  lemma {:induction false} BaseCounted(meta: NamespaceMeta, a: Name, k: Name)
    requires k in meta.interfaces
    ensures BasesMentions(meta)[k][a] == if k in Embedding(meta, a) then 1000 else 0
  {}

  lemma {:induction false} BasesCounted(a: Name, all: map<Name, multiset<Name>>, here: set<Name>, names: set<Name>)
    requires names <= all.Keys && forall k :: k in all ==> all[k][a] == if k in here then 1000 else 0
    ensures Sum(Rest(all, names))[a] == 1000 * |names * here|
    decreases |names|
  {
    if x :| x in names {
      BasesCounted(a, all, here, names - {x});
      SumAnyOrder(Rest(all, names), x);
      assert Rest(all, names) - {x} == Rest(all, names - {x});
      assert (names - {x}) * here == names * here - {x};
    } else {
      assert Rest(all, names) == map[];
    }
  }

  lemma {:induction false} EmbeddingCount(meta: NamespaceMeta, a: Name)
    ensures Sum(BasesMentions(meta))[a] == 1000 * |Embedding(meta, a)|
  {
    var all, here := BasesMentions(meta), Embedding(meta, a);
    forall k | k in all ensures all[k][a] == if k in here then 1000 else 0 {
      BaseCounted(meta, a, k);
    }
    BasesCounted(a, all, here, all.Keys);
    assert Rest(all, all.Keys) == all;
    assert all.Keys * here == here;
  }

  // ---- the whole record ---------------------------------------------------

  /** The places of a record that refer to namespace `a`. */
  ghost function Places(meta: NamespaceMeta, a: Name): set<Path> {
    FunctionPlaces(meta, a) + Named(AtStruct, StructsSets(meta, a)) + Named(AtTypedef, TypedefSets(meta, a))
    + Named(AtDelegate, DelegateSets(meta, a)) + Listed(AtConstant, ListPlaces(meta.namespace, meta.constants, a))
    + Named(AtInterface, InterfaceSets(meta, a))
  }

  lemma {:induction false} PlacesIff(meta: NamespaceMeta, a: Name, p: Path)
    ensures p in Places(meta, a) <==> PointsTo(RefAt(meta, p), meta.namespace, a)
  {
    FunctionPlacesIff(meta, a, p);
    StructsPlacesIff(meta, a, p);
    TypedefPlacesIff(meta, a, p);
    DelegatePlacesIff(meta, a, p);
    ConstantPlacesIff(meta, a, p);
    InterfacePlacesIff(meta, a, p);
  }

  /**
  The weight of namespace `a` for a record is the number of places in it that hold a reference to `a`, plus a
  thousand for every interface with a base in `a`.
  */
  lemma {:induction false} WeightCountsPlaces(meta: NamespaceMeta, a: Name)
    ensures forall p :: p in Places(meta, a) <==> PointsTo(RefAt(meta, p), meta.namespace, a)
    ensures Mentions(meta)[a] == |Places(meta, a)| + 1000 * |Embedding(meta, a)|
  {
    forall p ensures p in Places(meta, a) <==> PointsTo(RefAt(meta, p), meta.namespace, a) {
      PlacesIff(meta, a, p);
    }
    SectionsCount(meta, a);
    EmbeddingCount(meta, a);
  }

  lemma {:induction false} SectionsCount(meta: NamespaceMeta, a: Name)
    ensures |Places(meta, a)| == WalkMentions(meta)[a]
  {
    FunctionPlacesCount(meta, a);
    StructsPlacesCount(meta, a);
    TypedefPlacesCount(meta, a);
    DelegatePlacesCount(meta, a);
    ListPlacesCount(AtConstant, meta.namespace, meta.constants, a);
    InterfacePlacesCount(meta, a);
    SixSections(SignatureSets(meta.namespace, Signatures(meta.functions), a), StructsSets(meta, a), TypedefSets(meta, a),
                DelegateSets(meta, a), ListPlaces(meta.namespace, meta.constants, a), InterfaceSets(meta, a));
  }

  predicate IsFunction(x: Step) { x.FunctionAt? }

  predicate IsStruct(x: Step) { x.StructNamed? }

  predicate IsTypedef(x: Step) { x.TypedefNamed? }

  predicate IsDelegate(x: Step) { x.DelegateNamed? }

  predicate IsConstant(x: Step) { x.ConstantAt? }

  predicate IsInterface(x: Step) { x.InterfaceNamed? }

  lemma {:induction false} SixSections(functions: seq<set<Path>>, structs: map<Name, set<Path>>, typedefs: map<Name, set<Path>>,
                                       delegates: map<Name, set<Path>>, constants: seq<set<Path>>, interfaces: map<Name, set<Path>>)
    ensures |Listed(AtFunction, functions) + Named(AtStruct, structs) + Named(AtTypedef, typedefs)
             + Named(AtDelegate, delegates) + Listed(AtConstant, constants) + Named(AtInterface, interfaces)|
         == |Listed(AtFunction, functions)| + |Named(AtStruct, structs)| + |Named(AtTypedef, typedefs)|
            + |Named(AtDelegate, delegates)| + |Listed(AtConstant, constants)| + |Named(AtInterface, interfaces)|
  {
    ListedStart(AtFunction, functions, IsFunction);
    NamedStart(AtStruct, structs, IsStruct);
    NamedStart(AtTypedef, typedefs, IsTypedef);
    NamedStart(AtDelegate, delegates, IsDelegate);
    ListedStart(AtConstant, constants, IsConstant);
    NamedStart(AtInterface, interfaces, IsInterface);
    SixApart(Listed(AtFunction, functions), Named(AtStruct, structs), Named(AtTypedef, typedefs),
             Named(AtDelegate, delegates), Listed(AtConstant, constants), Named(AtInterface, interfaces));
  }

  lemma {:induction false} SixApart(f: set<Path>, s: set<Path>, t: set<Path>, d: set<Path>, c: set<Path>, i: set<Path>)
    requires StartWith(f, IsFunction) && StartWith(s, IsStruct) && StartWith(t, IsTypedef)
    requires StartWith(d, IsDelegate) && StartWith(c, IsConstant) && StartWith(i, IsInterface)
    ensures |f + s + t + d + c + i| == |f| + |s| + |t| + |d| + |c| + |i|
  {
    DisjointCount(f, s);
    DisjointCount(f + s, t);
    DisjointCount(f + s + t, d);
    DisjointCount(f + s + t + d, c);
    DisjointCount(f + s + t + d + c, i);
  }
}
