/**
WalkNamespaceRefs with the counting visitor of ComputeBlockedImports, as it runs: a recursive walk
that bumps weights. Maps are enumerated in an arbitrary order, and the weights come out the
same whatever it is.
*/
module ReferenceWalk {
  import opened Names
  import opened Metadata
  import opened ReferencePositions

  /** The visitor closure: the weights it bumps and the namespace it counts for. */
  class ReferenceCounter {
    const self: Name
    var weights: map<Name, int>
    ghost var seen: multiset<Name>

    ghost predicate Valid()
      reads this
    {
      weights == Tally(seen)
    }

    constructor (self: Name)
      ensures this.self == self && Valid() && seen == multiset{}
    {
      this.self := self;
      weights := map[];
      seen := multiset{};
    }

    method Add(a: Name, n: nat)
      requires Valid() && n > 0
      modifies this
      ensures Valid() && seen == old(seen) + multiset{}[a := n]
    {
      weights := weights[a := (if a in weights then weights[a] else 0) + n];
      seen := seen + multiset{}[a := n];
      assert weights.Keys == Tally(seen).Keys;
    }

    method Count(ref: TypeRef)
      requires Valid()
      modifies this
      ensures Valid() && seen == old(seen) + Counted(self, ref)
    {
      if ref.kind == "ApiRef" && ref.api != "" && ref.api != self {
        Add(ref.api, 1);
        assert multiset{}[ref.api := 1] == multiset{ref.api};
      }
    }

    method WalkRef(ref: TypeRef)
      requires Valid()
      modifies this
      ensures Valid() && seen == old(seen) + RefMentions(self, ref)
      decreases ref
    {
      Count(ref);
      if ref.child.Some? {
        WalkRef(ref.child.value);
      }
    }

    method WalkRefs(refs: seq<TypeRef>)
      requires Valid()
      modifies this
      ensures Valid() && seen == old(seen) + Total(RefList(self, refs))
    {
      ghost var all := RefList(self, refs);
      for i := 0 to |refs|
        invariant Valid() && seen == old(seen) + Total(all[..i])
      {
        TotalNext(old(seen), all, i);
        WalkRef(refs[i]);
      }
      assert all[..|refs|] == all;
    }

    method WalkSignature(s: Signature)
      requires Valid()
      modifies this
      ensures Valid() && seen == old(seen) + SignatureMentions(self, s)
    {
      WalkRef(s.ret);
      WalkRefs(s.params);
    }

    method WalkSignatures(ss: seq<Signature>)
      requires Valid()
      modifies this
      ensures Valid() && seen == old(seen) + Total(SignatureList(self, ss))
    {
      ghost var all := SignatureList(self, ss);
      for i := 0 to |ss|
        invariant Valid() && seen == old(seen) + Total(all[..i])
      {
        TotalNext(old(seen), all, i);
        WalkSignature(ss[i]);
      }
      assert all[..|ss|] == all;
    }

    method WalkStruct(s: Struct)
      requires Valid()
      modifies this
      ensures Valid() && seen == old(seen) + StructMentions(self, s)
      decreases s, 1
    {
      WalkRefs(s.fields);
      WalkNested(s);
      WalkVariants(s);
    }

    method WalkNested(s: Struct)
      requires Valid()
      modifies this
      ensures Valid() && seen == old(seen) + Sum(NestedMentions(self, s))
      decreases s, 0
    {
      ghost var all := NestedMentions(self, s);
      ghost var goal := seen + Sum(all);
      var names := s.nested.Keys;
      assert all.Keys == names;
      RestEnds(all, old(seen));
      while names != {}
        invariant names <= all.Keys && Valid()
        invariant seen + Sum(Rest(all, names)) == goal
        decreases names
      {
        var name :| name in names;
        RestNext(all, names, seen, name);
        WalkStruct(s.nested[name]);
        names := names - {name};
      }
      RestEnds(all, seen);
    }

    method WalkVariants(s: Struct)
      requires Valid()
      modifies this
      ensures Valid() && seen == old(seen) + Total(VariantList(self, s))
      decreases s, 0
    {
      ghost var all := VariantList(self, s);
      for i := 0 to |s.archVariants|
        invariant Valid() && seen == old(seen) + Total(all[..i])
      {
        TotalNext(old(seen), all, i);
        WalkStruct(s.archVariants[i]);
      }
      assert all[..|s.archVariants|] == all;
    }

    method WalkFunctions(fs: seq<Function>)
      requires Valid()
      modifies this
      ensures Valid() && seen == old(seen) + Total(FunctionList(self, fs))
    {
      ghost var all := FunctionList(self, fs);
      for i := 0 to |fs|
        invariant Valid() && seen == old(seen) + Total(all[..i])
      {
        TotalNext(old(seen), all, i);
        WalkSignature(fs[i].signature);
      }
      assert all[..|fs|] == all;
    }

    method WalkStructs(meta: NamespaceMeta)
      requires Valid() && meta.namespace == self
      modifies this
      ensures Valid() && seen == old(seen) + Sum(StructsMentions(meta))
    {
      ghost var all := StructsMentions(meta);
      ghost var goal := seen + Sum(all);
      var names := meta.structs.Keys;
      assert all.Keys == names;
      RestEnds(all, old(seen));
      while names != {}
        invariant names <= all.Keys && Valid()
        invariant seen + Sum(Rest(all, names)) == goal
        decreases names
      {
        var name :| name in names;
        RestNext(all, names, seen, name);
        WalkStruct(meta.structs[name]);
        names := names - {name};
      }
      RestEnds(all, seen);
    }

    method WalkTypedefs(meta: NamespaceMeta)
      requires Valid() && meta.namespace == self
      modifies this
      ensures Valid() && seen == old(seen) + Sum(TypedefsMentions(meta))
    {
      ghost var all := TypedefsMentions(meta);
      ghost var goal := seen + Sum(all);
      var names := meta.typedefs.Keys;
      assert all.Keys == names;
      RestEnds(all, old(seen));
      while names != {}
        invariant names <= all.Keys && Valid()
        invariant seen + Sum(Rest(all, names)) == goal
        decreases names
      {
        var name :| name in names;
        RestNext(all, names, seen, name);
        WalkRef(meta.typedefs[name]);
        names := names - {name};
      }
      RestEnds(all, seen);
    }

    method WalkDelegates(meta: NamespaceMeta)
      requires Valid() && meta.namespace == self
      modifies this
      ensures Valid() && seen == old(seen) + Sum(DelegatesMentions(meta))
    {
      ghost var all := DelegatesMentions(meta);
      ghost var goal := seen + Sum(all);
      var names := meta.delegates.Keys;
      assert all.Keys == names;
      RestEnds(all, old(seen));
      while names != {}
        invariant names <= all.Keys && Valid()
        invariant seen + Sum(Rest(all, names)) == goal
        decreases names
      {
        var name :| name in names;
        RestNext(all, names, seen, name);
        WalkSignature(meta.delegates[name]);
        names := names - {name};
      }
      RestEnds(all, seen);
    }

    method WalkInterfaces(meta: NamespaceMeta)
      requires Valid() && meta.namespace == self
      modifies this
      ensures Valid() && seen == old(seen) + Sum(InterfacesMentions(meta))
    {
      ghost var all := InterfacesMentions(meta);
      ghost var goal := seen + Sum(all);
      var names := meta.interfaces.Keys;
      assert all.Keys == names;
      RestEnds(all, old(seen));
      while names != {}
        invariant names <= all.Keys && Valid()
        invariant seen + Sum(Rest(all, names)) == goal
        decreases names
      {
        var name :| name in names;
        RestNext(all, names, seen, name);
        WalkSignatures(meta.interfaces[name].methods);
        names := names - {name};
      }
      RestEnds(all, seen);
    }

    method WalkNamespaceRefs(meta: NamespaceMeta)
      requires Valid() && meta.namespace == self
      modifies this
      ensures Valid() && seen == old(seen) + WalkMentions(meta)
    {
      WalkFunctions(meta.functions);
      WalkStructs(meta);
      WalkTypedefs(meta);
      WalkDelegates(meta);
      WalkRefs(meta.constants);
      WalkInterfaces(meta);
    }

    method CountBase(c: ComInterface)
      requires Valid()
      modifies this
      ensures Valid() && seen == old(seen) + BaseMention(self, c)
    {
      if c.baseInterfaceApi != "" && c.baseInterfaceApi != self {
        Add(c.baseInterfaceApi, BASE_EMBED_WEIGHT);
      }
    }

    /** The loop after the walk: base-interface embeddings. */
    method CountEmbeddings(meta: NamespaceMeta)
      requires Valid() && meta.namespace == self
      modifies this
      ensures Valid() && seen == old(seen) + Sum(BasesMentions(meta))
    {
      ghost var all := BasesMentions(meta);
      ghost var goal := seen + Sum(all);
      var names := meta.interfaces.Keys;
      assert all.Keys == names;
      RestEnds(all, old(seen));
      while names != {}
        invariant names <= all.Keys && Valid()
        invariant seen + Sum(Rest(all, names)) == goal
        decreases names
      {
        var name :| name in names;
        RestNext(all, names, seen, name);
        CountBase(meta.interfaces[name]);
        names := names - {name};
      }
      RestEnds(all, seen);
    }
  }

  /** The walk adds one for every place that refers to a namespace. */
  lemma {:induction false} WalkCounts(before: multiset<Name>, meta: NamespaceMeta)
    ensures forall a :: (before + WalkMentions(meta))[a] == before[a] + |Places(meta, a)|
  {
    forall a ensures (before + WalkMentions(meta))[a] == before[a] + |Places(meta, a)| {
      SectionsCount(meta, a);
    }
  }

  /** The loop after it adds a thousand for every interface with a base there. */
  lemma {:induction false} EmbeddingCounts(before: multiset<Name>, meta: NamespaceMeta)
    ensures forall a :: (before + Sum(BasesMentions(meta)))[a] == before[a] + 1000 * |Embedding(meta, a)|
  {
    forall a ensures (before + Sum(BasesMentions(meta)))[a] == before[a] + 1000 * |Embedding(meta, a)| {
      EmbeddingCount(meta, a);
    }
  }
}
