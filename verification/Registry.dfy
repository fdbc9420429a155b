/**
The registry indexes that LoadAll fills (internal/codegen/pipeline/loader.go) and the base-interface
check of `generate validate` over them (cmd/generate/validate.go).
*/
module Registry {
  import opened Options
  import opened Names
  import opened Metadata
  import opened Vtables

  // ---- FunctionOwner ------------------------------------------------------

  /** `definition` is None for a name that is ambiguous. */
  datatype FunctionRef = FunctionRef(namespace: Name, definition: Option<Function>)

  const AMBIGUOUS := FunctionRef("", None)

  type Owners = map<Name, FunctionRef>

  /** This repository has no external namespaces. */
  predicate IsExternal(namespace: Name) {
    false
  }

  datatype Declaration = Declaration(namespace: Name, fn: Function)

  /** All declarations in loading order. */
  function Declarations(records: seq<NamespaceMeta>): seq<Declaration> {
    if records == [] then []
    else Declarations(records[..|records| - 1]) + DeclarationsOf(records[|records| - 1], |records[|records| - 1].functions|)
  }

  function DeclarationsOf(meta: NamespaceMeta, n: nat): seq<Declaration>
    requires n <= |meta.functions|
  {
    if n == 0 then [] else DeclarationsOf(meta, n - 1) + [Declaration(meta.namespace, meta.functions[n - 1])]
  }

  /** One turn of the loop over functions. */
  function AddDeclaration(owners: Owners, d: Declaration): Owners {
    var name := d.fn.name;
    if name in owners then
      var existing := owners[name];
      if existing.namespace == d.namespace then owners
      else if existing.namespace != "" && IsExternal(existing.namespace) && !IsExternal(d.namespace) then
        owners[name := FunctionRef(d.namespace, Some(d.fn))]
      else if existing.namespace != "" && !IsExternal(existing.namespace) && IsExternal(d.namespace) then owners
      else owners[name := AMBIGUOUS]
    else owners[name := FunctionRef(d.namespace, Some(d.fn))]
  }

  function OwnersOf(ds: seq<Declaration>): Owners {
    if ds == [] then map[] else AddDeclaration(OwnersOf(ds[..|ds| - 1]), ds[|ds| - 1])
  }

  ghost predicate DeclaredAt(ds: seq<Declaration>, f: Name, i: int) {
    0 <= i < |ds| && ds[i].fn.name == f
  }

  ghost predicate Declared(ds: seq<Declaration>, f: Name) {
    exists i :: DeclaredAt(ds, f, i)
  }

  /** Every declaration of `f` is in the same namespace. */
  ghost predicate OneNamespace(ds: seq<Declaration>, f: Name) {
    forall i, j :: DeclaredAt(ds, f, i) && DeclaredAt(ds, f, j) ==> ds[i].namespace == ds[j].namespace
  }

  ghost predicate FirstDeclaration(ds: seq<Declaration>, f: Name, i: int) {
    DeclaredAt(ds, f, i) && forall j :: 0 <= j < i ==> ds[j].fn.name != f
  }

  /** What the index says of a name, against the declarations. */
  ghost predicate OwnedRightly(owners: Owners, ds: seq<Declaration>, f: Name) {
    && (f in owners <==> Declared(ds, f))
    && (f in owners ==>
          if OneNamespace(ds, f)
          then exists i :: FirstDeclaration(ds, f, i) && owners[f] == FunctionRef(ds[i].namespace, Some(ds[i].fn))
          else owners[f] == AMBIGUOUS)
  }

  /**
  FunctionOwner has a definition for a name exactly when one namespace declares it, and then it is the
  first declaration; a name with declarations in two namespaces is ambiguous for good.
  */
  lemma {:induction false} OwnersCorrect(ds: seq<Declaration>, f: Name)
    ensures OwnedRightly(OwnersOf(ds), ds, f)
    decreases |ds|
  {
    if ds != [] {
      var n := |ds| - 1;
      OwnersCorrect(ds[..n], f);
      AddedRightly(OwnersOf(ds[..n]), ds, f);
    }
  }

  lemma {:induction false} PrefixDeclares(ds: seq<Declaration>, n: nat, f: Name)
    requires n <= |ds|
    ensures forall i :: i < n ==> (DeclaredAt(ds[..n], f, i) <==> DeclaredAt(ds, f, i))
    ensures forall i :: i < n ==> (FirstDeclaration(ds[..n], f, i) <==> FirstDeclaration(ds, f, i))
  {}

  lemma {:induction false} AddedRightly(owners: Owners, ds: seq<Declaration>, f: Name)
    requires ds != [] && OwnedRightly(owners, ds[..|ds| - 1], f)
    ensures OwnedRightly(AddDeclaration(owners, ds[|ds| - 1]), ds, f)
  {
    var n := |ds| - 1;
    var before, d := ds[..n], ds[n];
    PrefixDeclares(ds, n, f);
    if d.fn.name != f {
      OtherName(owners, ds, f);
    } else if !Declared(before, f) {
      FirstOfName(owners, ds, f);
    } else {
      SecondOfName(owners, ds, f);
    }
  }

  lemma {:induction false} OtherName(owners: Owners, ds: seq<Declaration>, f: Name)
    requires ds != [] && OwnedRightly(owners, ds[..|ds| - 1], f) && ds[|ds| - 1].fn.name != f
    ensures OwnedRightly(AddDeclaration(owners, ds[|ds| - 1]), ds, f)
  {
    var n := |ds| - 1;
    PrefixDeclares(ds, n, f);
    assert forall i :: DeclaredAt(ds[..n], f, i) <==> DeclaredAt(ds, f, i);
    assert Declared(ds[..n], f) <==> Declared(ds, f);
    assert OneNamespace(ds[..n], f) <==> OneNamespace(ds, f);
  }

  lemma {:induction false} FirstOfName(owners: Owners, ds: seq<Declaration>, f: Name)
    requires ds != [] && OwnedRightly(owners, ds[..|ds| - 1], f) && ds[|ds| - 1].fn.name == f
    requires !Declared(ds[..|ds| - 1], f)
    ensures OwnedRightly(AddDeclaration(owners, ds[|ds| - 1]), ds, f)
  {
    var n := |ds| - 1;
    PrefixDeclares(ds, n, f);
    forall j | 0 <= j < n ensures ds[j].fn.name != f {
      assert !DeclaredAt(ds[..n], f, j);
    }
    assert FirstDeclaration(ds, f, n);
  }

  lemma {:induction false} SecondOfName(owners: Owners, ds: seq<Declaration>, f: Name)
    requires ds != [] && OwnedRightly(owners, ds[..|ds| - 1], f) && ds[|ds| - 1].fn.name == f
    requires Declared(ds[..|ds| - 1], f)
    ensures OwnedRightly(AddDeclaration(owners, ds[|ds| - 1]), ds, f)
  {
    var n := |ds| - 1;
    var before := ds[..n];
    PrefixDeclares(ds, n, f);
    assert DeclaredAt(ds, f, n);
    var k :| DeclaredAt(before, f, k);
    assert DeclaredAt(ds, f, k);
    if OneNamespace(before, f) {
      var i :| FirstDeclaration(before, f, i) && owners[f] == FunctionRef(before[i].namespace, Some(before[i].fn));
      assert FirstDeclaration(ds, f, i) && DeclaredAt(ds, f, i);
      if ds[i].namespace == ds[n].namespace {
        forall j | DeclaredAt(ds, f, j) ensures ds[j].namespace == ds[i].namespace {
          assert j < n ==> DeclaredAt(before, f, j);
        }
        assert OneNamespace(ds, f);
      } else {
        assert !OneNamespace(ds, f);
      }
    } else {
      var i, j :| DeclaredAt(before, f, i) && DeclaredAt(before, f, j) && before[i].namespace != before[j].namespace;
      assert DeclaredAt(ds, f, i) && DeclaredAt(ds, f, j);
      assert !OneNamespace(ds, f);
    }
  }

  /** Which namespace declares which name, order and repetition aside. */
  ghost function Declarers(ds: seq<Declaration>): set<(Name, Name)> {
    set d | d in ds :: (d.namespace, d.fn.name)
  }

  lemma {:induction false} DeclaredByDeclarers(ds: seq<Declaration>, f: Name)
    ensures Declared(ds, f) <==> exists ns :: (ns, f) in Declarers(ds)
  {
    forall i | DeclaredAt(ds, f, i) ensures (ds[i].namespace, f) in Declarers(ds) {
      assert ds[i] in ds;
    }
    forall ns | (ns, f) in Declarers(ds) ensures Declared(ds, f) {
      var d :| d in ds && (d.namespace, d.fn.name) == (ns, f);
      var i :| 0 <= i < |ds| && ds[i] == d;
      assert DeclaredAt(ds, f, i);
    }
  }

  lemma {:induction false} OneNamespaceByDeclarers(ds: seq<Declaration>, f: Name)
    ensures OneNamespace(ds, f) <==> forall a, b :: (a, f) in Declarers(ds) && (b, f) in Declarers(ds) ==> a == b
  {
    if OneNamespace(ds, f) {
      forall a, b | (a, f) in Declarers(ds) && (b, f) in Declarers(ds) ensures a == b {
        var d :| d in ds && (d.namespace, d.fn.name) == (a, f);
        var e :| e in ds && (e.namespace, e.fn.name) == (b, f);
        var i :| 0 <= i < |ds| && ds[i] == d;
        var j :| 0 <= j < |ds| && ds[j] == e;
        assert DeclaredAt(ds, f, i) && DeclaredAt(ds, f, j);
      }
    } else {
      var i, j :| DeclaredAt(ds, f, i) && DeclaredAt(ds, f, j) && ds[i].namespace != ds[j].namespace;
      assert ds[i] in ds && ds[j] in ds;
      assert (ds[i].namespace, f) in Declarers(ds) && (ds[j].namespace, f) in Declarers(ds);
    }
  }

  lemma {:induction false} OwnerDeclares(ds: seq<Declaration>, f: Name)
    requires Declared(ds, f) && OneNamespace(ds, f)
    ensures f in OwnersOf(ds) && OwnersOf(ds)[f].definition.Some?
    ensures (OwnersOf(ds)[f].namespace, f) in Declarers(ds)
  {
    OwnersCorrect(ds, f);
    var i :| FirstDeclaration(ds, f, i) && OwnersOf(ds)[f] == FunctionRef(ds[i].namespace, Some(ds[i].fn));
    assert ds[i] in ds;
  }

  /** Whether a name is known, owned or ambiguous, and by which namespace it is owned, depends only on which
      namespace declares which name. */
  lemma {:induction false} OwnershipIgnoresOrder(ds: seq<Declaration>, es: seq<Declaration>, f: Name)
    requires Declarers(ds) == Declarers(es)
    ensures f in OwnersOf(ds) <==> f in OwnersOf(es)
    ensures f in OwnersOf(ds) ==>
      && OwnersOf(ds)[f].namespace == OwnersOf(es)[f].namespace
      && OwnersOf(ds)[f].definition.Some? == OwnersOf(es)[f].definition.Some?
  {
    DeclaredByDeclarers(ds, f);
    DeclaredByDeclarers(es, f);
    OneNamespaceByDeclarers(ds, f);
    OneNamespaceByDeclarers(es, f);
    if Declared(ds, f) && OneNamespace(ds, f) {
      OwnerDeclares(ds, f);
      OwnerDeclares(es, f);
    } else {
      OwnersCorrect(ds, f);
      OwnersCorrect(es, f);
    }
  }

  lemma {:induction false} DeclarersOf(meta: NamespaceMeta, n: nat, d: Declaration)
    requires n <= |meta.functions|
    ensures d in DeclarationsOf(meta, n) <==> d.namespace == meta.namespace && d.fn in meta.functions[..n]
    decreases n
  {
    if n > 0 {
      DeclarersOf(meta, n - 1, d);
      assert meta.functions[..n] == meta.functions[..n - 1] + [meta.functions[n - 1]];
    }
  }

  lemma {:induction false} DeclaredInRecords(records: seq<NamespaceMeta>, d: Declaration)
    ensures d in Declarations(records) <==> exists r :: r in records && r.namespace == d.namespace && d.fn in r.functions
  {
    if records != [] {
      var n := |records| - 1;
      DeclaredInRecords(records[..n], d);
      DeclarersOf(records[n], |records[n].functions|, d);
      assert records[n].functions[..|records[n].functions|] == records[n].functions;
      assert records == records[..n] + [records[n]];
    }
  }

  /** Loading the same records in another order declares the same. */
  lemma {:induction false} DeclarersIgnoreOrder(records: seq<NamespaceMeta>, others: seq<NamespaceMeta>)
    requires forall r :: r in records <==> r in others
    ensures Declarers(Declarations(records)) == Declarers(Declarations(others))
  {
    forall d ensures d in Declarations(records) <==> d in Declarations(others) {
      DeclaredInRecords(records, d);
      DeclaredInRecords(others, d);
    }
  }

  /**
  However the records are ordered, a name is known, owned or ambiguous all the same, and owned by the same
  namespace.
  */
  lemma {:induction false} LoadOrderIrrelevant(records: seq<NamespaceMeta>, others: seq<NamespaceMeta>, f: Name)
    requires multiset(records) == multiset(others)
    ensures f in OwnersOf(Declarations(records)) <==> f in OwnersOf(Declarations(others))
    ensures f in OwnersOf(Declarations(records)) ==>
      && OwnersOf(Declarations(records))[f].namespace == OwnersOf(Declarations(others))[f].namespace
      && OwnersOf(Declarations(records))[f].definition.Some? == OwnersOf(Declarations(others))[f].definition.Some?
  {
    forall r ensures r in records <==> r in others {
      assert r in multiset(records) <==> r in multiset(others);
    }
    DeclarersIgnoreOrder(records, others);
    OwnershipIgnoresOrder(Declarations(records), Declarations(others), f);
  }

  // ---- in terms of the records --------------------------------------------

  /** Function `j` of record `i` is called `f`. */
  ghost predicate DeclaresAt(records: seq<NamespaceMeta>, f: Name, i: int, j: int) {
    0 <= i < |records| && 0 <= j < |records[i].functions| && records[i].functions[j].name == f
  }

  /** It is the first one of that name: no earlier record has one, nor an earlier place in this record. */
  ghost predicate DeclaresFirst(records: seq<NamespaceMeta>, f: Name, i: int, j: int) {
    DeclaresAt(records, f, i, j) && forall k, l :: DeclaresAt(records, f, k, l) ==> i < k || (i == k && j <= l)
  }

  ghost predicate OneNamespaceDeclares(records: seq<NamespaceMeta>, f: Name) {
    forall i, j, k, l :: DeclaresAt(records, f, i, j) && DeclaresAt(records, f, k, l) ==> records[i].namespace == records[k].namespace
  }

  /** What the index has for a name: nothing when nobody declares it, its first declaration when one namespace
      does, and otherwise the entry without a namespace or definition. */
  ghost predicate OwnedByFirst(owners: Owners, records: seq<NamespaceMeta>, f: Name) {
    && (f in owners <==> exists i, j :: DeclaresAt(records, f, i, j))
    && (f in owners && OneNamespaceDeclares(records, f) ==> exists i, j :: OwnedAs(owners, records, f, i, j))
    && (f in owners && !OneNamespaceDeclares(records, f) ==> owners[f] == FunctionRef("", None))
  }

  ghost predicate OwnedAs(owners: Owners, records: seq<NamespaceMeta>, f: Name, i: int, j: int) {
    && DeclaresFirst(records, f, i, j)
    && f in owners && owners[f] == FunctionRef(records[i].namespace, Some(records[i].functions[j]))
  }

  /** Where the declarations of record `i` begin. */
  function Offset(records: seq<NamespaceMeta>, i: nat): nat
    requires i <= |records|
  {
    |Declarations(records[..i])|
  }

  lemma {:induction false} DeclarationsOfAt(meta: NamespaceMeta, n: nat, j: nat)
    requires j < n <= |meta.functions|
    ensures |DeclarationsOf(meta, n)| == n && DeclarationsOf(meta, n)[j] == Declaration(meta.namespace, meta.functions[j])
    decreases n
  {
    DeclarationsOfLength(meta, n - 1);
    if j < n - 1 {
      DeclarationsOfAt(meta, n - 1, j);
    }
  }

  lemma {:induction false} DeclarationsOfLength(meta: NamespaceMeta, n: nat)
    requires n <= |meta.functions|
    ensures |DeclarationsOf(meta, n)| == n
  {
    if n > 0 {
      DeclarationsOfLength(meta, n - 1);
    }
  }

  lemma {:induction false} OffsetNext(records: seq<NamespaceMeta>, i: nat)
    requires i < |records|
    ensures Offset(records, i + 1) == Offset(records, i) + |records[i].functions|
  {
    DeclarationsNext(records, i);
    DeclarationsOfLength(records[i], |records[i].functions|);
  }

  lemma {:induction false} OffsetMonotone(records: seq<NamespaceMeta>, i: nat, k: nat)
    requires i <= k <= |records|
    ensures Offset(records, i) <= Offset(records, k)
    decreases k - i
  {
    if i < k {
      OffsetNext(records, i);
      OffsetMonotone(records, i + 1, k);
    }
  }

  lemma {:induction false} PrefixAt(records: seq<NamespaceMeta>, n: nat, i: nat, j: nat)
    requires i < n <= |records| && j < |records[i].functions|
    ensures Offset(records, i) + j < Offset(records, n)
    ensures Declarations(records[..n])[Offset(records, i) + j] == Declaration(records[i].namespace, records[i].functions[j])
    decreases n
  {
    DeclarationsNext(records, n - 1);
    OffsetNext(records, i);
    OffsetMonotone(records, i + 1, n);
    if i == n - 1 {
      DeclarationsOfAt(records[i], |records[i].functions|, j);
    } else {
      PrefixAt(records, n - 1, i, j);
    }
  }

  /** Function `j` of record `i` is a declaration, at its place in loading order. */
  lemma {:induction false} DeclarationAt(records: seq<NamespaceMeta>, i: nat, j: nat)
    requires i < |records| && j < |records[i].functions|
    ensures Offset(records, i) + j < |Declarations(records)|
    ensures Declarations(records)[Offset(records, i) + j] == Declaration(records[i].namespace, records[i].functions[j])
  {
    assert records[..|records|] == records;
    PrefixAt(records, |records|, i, j);
  }

  lemma {:induction false} PlaceOf(records: seq<NamespaceMeta>, n: nat, k: nat) returns (i: nat, j: nat)
    requires n <= |records| && k < Offset(records, n)
    ensures i < n && j < |records[i].functions| && k == Offset(records, i) + j
    decreases n
  {
    if n == 0 {
      assert false;
    } else {
      OffsetNext(records, n - 1);
      if k >= Offset(records, n - 1) {
        i, j := n - 1, k - Offset(records, n - 1);
      } else {
        i, j := PlaceOf(records, n - 1, k);
      }
    }
  }

  /** Loading order is the order of records, and within a record that of its functions. */
  lemma {:induction false} LoadingOrder(records: seq<NamespaceMeta>, i: nat, j: nat, k: nat, l: nat)
    requires i < |records| && j < |records[i].functions| && k < |records| && l < |records[k].functions|
    requires Offset(records, i) + j <= Offset(records, k) + l
    ensures i < k || (i == k && j <= l)
  {
    if k < i {
      OffsetNext(records, k);
      OffsetMonotone(records, k + 1, i);
    }
  }

  lemma {:induction false} PlaceOfDeclaration(records: seq<NamespaceMeta>, f: Name, k: nat) returns (i: nat, j: nat)
    requires DeclaredAt(Declarations(records), f, k)
    ensures DeclaresAt(records, f, i, j) && k == Offset(records, i) + j
    ensures Declarations(records)[k] == Declaration(records[i].namespace, records[i].functions[j])
  {
    assert records[..|records|] == records;
    i, j := PlaceOf(records, |records|, k);
    DeclarationAt(records, i, j);
  }

  lemma {:induction false} DeclaredAtPlace(records: seq<NamespaceMeta>, f: Name, i: nat, j: nat)
    requires DeclaresAt(records, f, i, j)
    ensures DeclaredAt(Declarations(records), f, Offset(records, i) + j)
    ensures Declarations(records)[Offset(records, i) + j].namespace == records[i].namespace
  {
    DeclarationAt(records, i, j);
  }

  lemma {:induction false} OneNamespaceIff(records: seq<NamespaceMeta>, f: Name)
    ensures OneNamespace(Declarations(records), f) <==> OneNamespaceDeclares(records, f)
  {
    var ds := Declarations(records);
    if OneNamespace(ds, f) {
      forall i, j, k, l | DeclaresAt(records, f, i, j) && DeclaresAt(records, f, k, l) ensures records[i].namespace == records[k].namespace {
        DeclaredAtPlace(records, f, i, j);
        DeclaredAtPlace(records, f, k, l);
      }
    } else {
      var x, y :| DeclaredAt(ds, f, x) && DeclaredAt(ds, f, y) && ds[x].namespace != ds[y].namespace;
      var i, j := PlaceOfDeclaration(records, f, x);
      var k, l := PlaceOfDeclaration(records, f, y);
      assert DeclaresAt(records, f, i, j) && DeclaresAt(records, f, k, l);
    }
  }

  lemma {:induction false} FirstIsFirst(records: seq<NamespaceMeta>, f: Name, x: nat) returns (i: nat, j: nat)
    requires FirstDeclaration(Declarations(records), f, x)
    ensures DeclaresFirst(records, f, i, j)
    ensures Declarations(records)[x] == Declaration(records[i].namespace, records[i].functions[j])
  {
    i, j := PlaceOfDeclaration(records, f, x);
    forall k, l | DeclaresAt(records, f, k, l) ensures i < k || (i == k && j <= l) {
      DeclaredAtPlace(records, f, k, l);
      LoadingOrder(records, i, j, k, l);
    }
  }

  /** The index in terms of the records. */
  lemma {:induction false} OwnersByFirst(records: seq<NamespaceMeta>, f: Name)
    ensures OwnedByFirst(OwnersOf(Declarations(records)), records, f)
  {
    var ds := Declarations(records);
    var owners := OwnersOf(ds);
    OwnersCorrect(ds, f);
    OneNamespaceIff(records, f);
    if x :| DeclaredAt(ds, f, x) {
      var i, j := PlaceOfDeclaration(records, f, x);
    }
    forall i, j | DeclaresAt(records, f, i, j) ensures Declared(ds, f) {
      DeclaredAtPlace(records, f, i, j);
    }
    if f in owners && OneNamespace(ds, f) {
      var x :| FirstDeclaration(ds, f, x) && owners[f] == FunctionRef(ds[x].namespace, Some(ds[x].fn));
      var i, j := FirstIsFirst(records, f, x);
      assert OwnedAs(owners, records, f, i, j);
    }
  }

  /** The FunctionOwner part of LoadAll as it runs. */
  method FunctionOwners(records: seq<NamespaceMeta>) returns (owners: Owners)
    ensures owners == OwnersOf(Declarations(records))
    ensures forall f :: OwnedByFirst(owners, records, f)
  {
    forall f ensures OwnedByFirst(OwnersOf(Declarations(records)), records, f) {
      OwnersByFirst(records, f);
    }
    owners := map[];
    for i := 0 to |records|
      invariant owners == OwnersOf(Declarations(records[..i]))
    {
      DeclarationsNext(records, i);
      owners := AddFunctions(owners, records[i], Declarations(records[..i]));
    }
    assert records[..|records|] == records;
  }

  lemma {:induction false} DeclarationsNext(records: seq<NamespaceMeta>, i: nat)
    requires i < |records|
    ensures Declarations(records[..i + 1]) == Declarations(records[..i]) + DeclarationsOf(records[i], |records[i].functions|)
  {
    assert records[..i + 1][..i] == records[..i];
  }

  lemma {:induction false} OneMoreFunction(ds: seq<Declaration>, meta: NamespaceMeta, i: nat)
    requires i < |meta.functions|
    ensures OwnersOf(ds + DeclarationsOf(meta, i + 1))
         == AddDeclaration(OwnersOf(ds + DeclarationsOf(meta, i)), Declaration(meta.namespace, meta.functions[i]))
  {
    var sofar, d := ds + DeclarationsOf(meta, i), Declaration(meta.namespace, meta.functions[i]);
    assert ds + DeclarationsOf(meta, i + 1) == sofar + [d];
    assert (sofar + [d])[..|sofar|] == sofar;
  }

  method AddFunctions(before: Owners, meta: NamespaceMeta, ghost ds: seq<Declaration>) returns (owners: Owners)
    requires before == OwnersOf(ds)
    ensures owners == OwnersOf(ds + DeclarationsOf(meta, |meta.functions|))
  {
    owners := before;
    assert ds + [] == ds;
    for i := 0 to |meta.functions|
      invariant owners == OwnersOf(ds + DeclarationsOf(meta, i))
    {
      OneMoreFunction(ds, meta, i);
      var fn := meta.functions[i];
      var name := fn.name;
      if name in owners {
        var existing := owners[name];
        if existing.namespace != meta.namespace {
          if existing.namespace != "" && IsExternal(existing.namespace) && !IsExternal(meta.namespace) {
            owners := owners[name := FunctionRef(meta.namespace, Some(fn))];
          } else if existing.namespace != "" && !IsExternal(existing.namespace) && IsExternal(meta.namespace) {
          } else {
            owners := owners[name := AMBIGUOUS];
          }
        }
      } else {
        owners := owners[name := FunctionRef(meta.namespace, Some(fn))];
      }
    }
  }

  // ---- InterfaceIndex and its check ---------------------------------------

  lemma {:induction false} QualifiedInjective(api: Name, a: Name, b: Name)
    requires Qualified(api, a) == Qualified(api, b)
    ensures a == b
  {
    assert Qualified(api, a)[|api| + 1..] == a && Qualified(api, b)[|api| + 1..] == b;
  }

  /** Names without a dot: the key determines namespace and name. */
  lemma {:induction false} QualifiedDeterminesBoth(api: Name, a: Name, other: Name, b: Name)
    requires '.' !in a && '.' !in b
    ensures Qualified(api, a) == api + "." + a
    ensures Qualified(api, a) == Qualified(other, b) <==> api == other && a == b
  {
    var k, l := Qualified(api, a), Qualified(other, b);
    if k == l {
      DotAt(api, a, other, b);
      assert k[..|api|] == api && k[..|api|] == other && k[|api| + 1..] == a && k[|api| + 1..] == b;
    }
  }

  lemma {:induction false} DotAt(api: Name, a: Name, other: Name, b: Name)
    requires '.' !in a && '.' !in b && Qualified(api, a) == Qualified(other, b)
    ensures |api| == |other|
  {
    LastDot(api, a);
    LastDot(other, b);
  }

  lemma {:induction false} LastDot(api: Name, a: Name)
    requires '.' !in a
    ensures Qualified(api, a)[|api|] == '.'
    ensures forall l :: |api| < l < |Qualified(api, a)| ==> Qualified(api, a)[l] != '.'
  {}

  /** With a dot in a name it does not. */
  lemma {:induction false} QualifiedCollides()
    ensures Qualified("A", "B.C") == Qualified("A.B", "C")
  {
    assert "A" + "." + "B.C" == "A.B.C" == "A.B" + "." + "C";
  }

  /** Some of a namespace's interfaces under their qualified names. */
  ghost function QualifySome(meta: NamespaceMeta, names: set<Name>): InterfaceIndex
    requires names <= meta.interfaces.Keys
  {
    QualifiedKeys(meta.namespace);
    map name | name in names :: Qualified(meta.namespace, name) := meta.interfaces[name]
  }

  ghost function Qualify(meta: NamespaceMeta): InterfaceIndex {
    QualifySome(meta, meta.interfaces.Keys)
  }

  lemma {:induction false} QualifyNext(before: InterfaceIndex, meta: NamespaceMeta, done: set<Name>, name: Name)
    requires done <= meta.interfaces.Keys && name in meta.interfaces
    ensures before + QualifySome(meta, done + {name})
         == (before + QualifySome(meta, done))[Qualified(meta.namespace, name) := meta.interfaces[name]]
  {
    QualifiedKeys(meta.namespace);
    var l, r := QualifySome(meta, done + {name}), QualifySome(meta, done)[Qualified(meta.namespace, name) := meta.interfaces[name]];
    assert l.Keys == r.Keys;
    assert l == r;
  }

  lemma {:induction false} QualifiedKeys(api: Name)
    ensures forall a, b :: Qualified(api, a) == Qualified(api, b) ==> a == b
  {
    forall a, b | Qualified(api, a) == Qualified(api, b) ensures a == b {
      QualifiedInjective(api, a, b);
    }
  }

  /** The first `n` records; a later record wins a key both spell the same way. */
  ghost function IndexOf(records: seq<NamespaceMeta>, n: nat): InterfaceIndex
    requires n <= |records|
  {
    if n == 0 then map[] else IndexOf(records, n - 1) + Qualify(records[n - 1])
  }

  method AddInterfaces(before: InterfaceIndex, meta: NamespaceMeta) returns (index: InterfaceIndex)
    ensures index == before + Qualify(meta)
  {
    index := before;
    ghost var done: set<Name> := {};
    assert before + QualifySome(meta, {}) == before;
    var names := meta.interfaces.Keys;
    while names != {}
      invariant done == meta.interfaces.Keys - names && names <= meta.interfaces.Keys
      invariant index == before + QualifySome(meta, done)
      decreases names
    {
      var name :| name in names;
      QualifyNext(before, meta, done, name);
      index := index[Qualified(meta.namespace, name) := meta.interfaces[name]];
      names := names - {name};
      done := done + {name};
    }
    assert done == meta.interfaces.Keys;
  }

  /** The InterfaceIndex part of LoadAll as it runs. */
  method InterfaceIndexOf(records: seq<NamespaceMeta>) returns (index: InterfaceIndex)
    ensures index == IndexOf(records, |records|)
    ensures forall k :: IndexesLast(index, records, k)
  {
    forall k ensures IndexesLast(IndexOf(records, |records|), records, k) {
      IndexIsLast(records, k);
    }
    index := map[];
    for i := 0 to |records|
      invariant index == IndexOf(records, i)
    {
      index := AddInterfaces(index, records[i]);
    }
  }

  /** Interface `name` of record `i` has the key `k`. */
  predicate HasKey(records: seq<NamespaceMeta>, i: int, name: Name, k: Name) {
    0 <= i < |records| && name in records[i].interfaces && records[i].namespace + "." + name == k
  }

  lemma {:induction false} QualifyIff(records: seq<NamespaceMeta>, i: nat, k: Name)
    requires i < |records|
    ensures k in Qualify(records[i]) <==> exists name :: HasKey(records, i, name, k)
    ensures forall name :: HasKey(records, i, name, k) ==> k in Qualify(records[i]) && Qualify(records[i])[k] == records[i].interfaces[name]
    ensures forall name, other :: HasKey(records, i, name, k) && HasKey(records, i, other, k) ==> name == other
  {
    QualifiedKeys(records[i].namespace);
    if k in Qualify(records[i]) {
      var name :| name in records[i].interfaces && k == Qualified(records[i].namespace, name);
      assert HasKey(records, i, name, k);
    }
    forall name | HasKey(records, i, name, k) ensures k in Qualify(records[i]) {
      assert Qualified(records[i].namespace, name) in Qualify(records[i]);
    }
    forall name, other | HasKey(records, i, name, k) && HasKey(records, i, other, k) ensures name == other {
      QualifiedInjective(records[i].namespace, name, other);
    }
  }

  lemma {:induction false} IndexHasSource(records: seq<NamespaceMeta>, n: nat, k: Name) returns (i: nat, name: Name)
    requires n <= |records| && k in IndexOf(records, n)
    ensures i < n && HasKey(records, i, name, k) && IndexOf(records, n)[k] == records[i].interfaces[name]
    ensures forall j, other :: i <= j < n && HasKey(records, j, other, k) ==> j == i && other == name
    decreases n
  {
    QualifyIff(records, n - 1, k);
    if k in Qualify(records[n - 1]) {
      i := n - 1;
      name :| HasKey(records, i, name, k);
    } else {
      i, name := IndexHasSource(records, n - 1, k);
    }
  }

  lemma {:induction false} KeysIndexed(records: seq<NamespaceMeta>, n: nat, i: nat, name: Name, k: Name)
    requires i < n <= |records| && HasKey(records, i, name, k)
    ensures k in IndexOf(records, n)
    decreases n
  {
    if i == n - 1 {
      QualifiedKeys(records[i].namespace);
      assert Qualified(records[i].namespace, name) in Qualify(records[i]);
    } else {
      KeysIndexed(records, n - 1, i, name, k);
    }
  }

  /** The last interface with that key. */
  ghost predicate LastWithKey(records: seq<NamespaceMeta>, i: int, name: Name, k: Name) {
    HasKey(records, i, name, k) && forall j, other :: HasKey(records, j, other, k) ==> j < i || (j == i && other == name)
  }

  /** InterfaceIndex in terms of the records: a key is indexed exactly when some interface has it, and maps to the last
      one. */
  ghost predicate IndexesLast(index: InterfaceIndex, records: seq<NamespaceMeta>, k: Name) {
    && (k in index <==> exists i, name :: HasKey(records, i, name, k))
    && (k in index ==> exists i, name :: LastWithKey(records, i, name, k) && index[k] == records[i].interfaces[name])
  }

  lemma {:induction false} IndexIsLast(records: seq<NamespaceMeta>, k: Name)
    ensures IndexesLast(IndexOf(records, |records|), records, k)
  {
    var index := IndexOf(records, |records|);
    if k in index {
      var i, name := IndexHasSource(records, |records|, k);
      assert LastWithKey(records, i, name, k);
    }
    forall i, name | HasKey(records, i, name, k) ensures k in index {
      KeysIndexed(records, |records|, i, name, k);
    }
  }

  /** An interface whose base is not indexed. */
  datatype DanglingBase = DanglingBase(namespace: Name, name: Name, base: Name)

  ghost predicate Dangles(records: seq<NamespaceMeta>, index: InterfaceIndex, n: nat, e: DanglingBase)
    requires n <= |records|
  {
    exists i :: 0 <= i < n && DanglesIn(records[i], index, e)
  }

  ghost predicate DanglesIn(meta: NamespaceMeta, index: InterfaceIndex, e: DanglingBase) {
    && meta.namespace == e.namespace && e.name in meta.interfaces
    && meta.interfaces[e.name].baseInterface != ""
    && e.base == meta.interfaces[e.name].baseInterfaceApi + "." + meta.interfaces[e.name].baseInterface
    && e.base !in index
  }

  /** In how many of the first `n` records this interface dangles: more than one only if they share a namespace. */
  ghost function DanglingCount(records: seq<NamespaceMeta>, index: InterfaceIndex, n: nat, e: DanglingBase): nat
    requires n <= |records|
  {
    if n == 0 then 0
    else DanglingCount(records, index, n - 1, e) + if DanglesIn(records[n - 1], index, e) then 1 else 0
  }

  lemma {:induction false} DanglingCountPositive(records: seq<NamespaceMeta>, index: InterfaceIndex, n: nat, e: DanglingBase)
    requires n <= |records|
    ensures DanglingCount(records, index, n, e) > 0 <==> Dangles(records, index, n, e)
  {
    if n > 0 {
      DanglingCountPositive(records, index, n - 1, e);
    }
  }

  /** The base-interface check of runValidate: one error per record and dangling base, in any order. */
  method CheckBases(records: seq<NamespaceMeta>, index: InterfaceIndex) returns (errorsFound: seq<DanglingBase>)
    ensures forall e :: multiset(errorsFound)[e] == DanglingCount(records, index, |records|, e)
    ensures forall e :: e in errorsFound <==> Dangles(records, index, |records|, e)
  {
    errorsFound := [];
    for i := 0 to |records|
      invariant forall e :: multiset(errorsFound)[e] == DanglingCount(records, index, i, e)
    {
      var found := CheckNamespace(records[i], index);
      errorsFound := errorsFound + found;
    }
    forall e ensures e in errorsFound <==> Dangles(records, index, |records|, e) {
      DanglingCountPositive(records, index, |records|, e);
      assert e in errorsFound <==> e in multiset(errorsFound);
    }
  }

  method CheckNamespace(meta: NamespaceMeta, index: InterfaceIndex) returns (errorsFound: seq<DanglingBase>)
    ensures forall e :: multiset(errorsFound)[e] == if DanglesIn(meta, index, e) then 1 else 0
  {
    errorsFound := [];
    var names := meta.interfaces.Keys;
    while names != {}
      invariant names <= meta.interfaces.Keys
      invariant forall e :: multiset(errorsFound)[e] == if DanglesIn(meta, index, e) && e.name !in names then 1 else 0
      decreases names
    {
      var name :| name in names;
      var c := meta.interfaces[name];
      if HasBase(c) && BaseKey(c) !in index {
        errorsFound := errorsFound + [DanglingBase(meta.namespace, name, BaseKey(c))];
      }
      names := names - {name};
    }
  }

  /**
  When the check finds nothing, VtableStartSlot fails on an indexed interface exactly when its base chain
  is cyclic.
  */
  lemma {:induction false} CleanCheckLeavesOnlyCycles(records: seq<NamespaceMeta>, api: Name, name: Name)
    requires forall e :: !Dangles(records, IndexOf(records, |records|), |records|, e)
    requires Qualified(api, name) in IndexOf(records, |records|)
    ensures !Ok(IndexOf(records, |records|), api, name)
       <==> CyclicChain(IndexOf(records, |records|), IndexOf(records, |records|)[Qualified(api, name)])
  {
    var index := IndexOf(records, |records|);
    forall k | k in index && HasBase(index[k]) ensures BaseKey(index[k]) in index {
      var i, n := IndexHasSource(records, |records|, k);
      var e := DanglingBase(records[i].namespace, n, BaseKey(index[k]));
      assert !Dangles(records, index, |records|, e);
      assert !DanglesIn(records[i], index, e);
    }
    FailsExactlyWhenCyclic(index, api, name);
  }
}
