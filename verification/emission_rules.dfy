/** What a successful run of the declaration emitter guarantees: the shape of each class, struct
    and enum declaration, the order and naming of namespace blocks, where each type's declaration
    lands, and whether references to mirrored types name the blocks that declare them. */
module EmissionRules {
  import opened Wrappers
  import opened Reflection
  import opened CodeDom
  import opened Ordering
  import opened TypeTranslation
  import opened Emission

  /** A class or struct declaration: its kind follows the host type, its base list is empty for
      a value type and holds one entry otherwise, and its members are the class members. */
  lemma ClassDeclaration(tm: TypeMap, nss: seq<string>, policy: MemberInfo -> CherryType, t: HostType, d: TypeDeclaration)
    requires t.classOrStruct && Declaration(tm, nss, policy, t) == Ok(Some(d))
    ensures d.kind == (if t.form.Generic? then GenericClassDecl else if t.isClass then ClassDecl else StructDecl)
    ensures BaseTypes(tm, nss, t) == Ok(d.baseTypes)
    ensures |d.baseTypes| == (if t.isValueType then 0 else 1)
    ensures ClassMembers(tm, policy, t) == Ok(d.members)
  {
  }

  /** The class members start with the kept properties, sorted by name (see KeptInNameOrder),
      each emitted as an auto-property by MemberFor. */
  lemma ClassProperties(tm: TypeMap, policy: MemberInfo -> CherryType, t: HostType, members: seq<Member>)
    requires ClassMembers(tm, policy, t) == Ok(members)
    ensures var kp := Kept(SortBy(t.properties, MemberName), policy);
      && |kp| <= |members|
      && (forall i :: 0 <= i < |kp| ==> MemberFor(tm, t, kp[i], policy(kp[i]), PropertyMember) == Ok(members[i]))
  {
    MemberListSpec(tm, t, SortBy(t.properties, MemberName), policy, PropertyMember);
  }

  /** The class members are one per kept property and one per kept field. */
  lemma ClassMembersCount(tm: TypeMap, policy: MemberInfo -> CherryType, t: HostType, members: seq<Member>)
    requires ClassMembers(tm, policy, t) == Ok(members)
    ensures |members| == |Kept(SortBy(t.properties, MemberName), policy)| + |Kept(SortBy(t.fields, MemberName), policy)|
  {
    MemberListLength(tm, t, SortBy(t.properties, MemberName), policy, PropertyMember);
    MemberListLength(tm, t, SortBy(t.fields, MemberName), policy, FieldKind(t));
  }

  /** The i-th kept field, in name order, gives the member after all the properties. */
  lemma ClassFieldAt(tm: TypeMap, policy: MemberInfo -> CherryType, t: HostType, members: seq<Member>, i: nat)
    requires ClassMembers(tm, policy, t) == Ok(members)
    requires i < |Kept(SortBy(t.fields, MemberName), policy)|
    ensures |Kept(SortBy(t.properties, MemberName), policy)| + i < |members|
    ensures var kf := Kept(SortBy(t.fields, MemberName), policy);
      MemberFor(tm, t, kf[i], policy(kf[i]), FieldKind(t)) == Ok(members[|Kept(SortBy(t.properties, MemberName), policy)| + i])
  {
    SecondListAt(tm, t, SortBy(t.properties, MemberName), PropertyMember, SortBy(t.fields, MemberName), FieldKind(t), policy, members, i);
  }

  /** The class members end with the kept fields, sorted by name (see KeptInNameOrder), each
      emitted by MemberFor: as an auto-property in a class, as a field in a struct. */
  lemma ClassFields(tm: TypeMap, policy: MemberInfo -> CherryType, t: HostType, members: seq<Member>)
    requires ClassMembers(tm, policy, t) == Ok(members)
    ensures var kp := Kept(SortBy(t.properties, MemberName), policy);
      var kf := Kept(SortBy(t.fields, MemberName), policy);
      && |members| == |kp| + |kf|
      && (forall i :: 0 <= i < |kf| ==> MemberFor(tm, t, kf[i], policy(kf[i]), FieldKind(t)) == Ok(members[|kp| + i]))
  {
    ClassMembersCount(tm, policy, t, members);
    var kf := Kept(SortBy(t.fields, MemberName), policy);
    forall i | 0 <= i < |kf|
      ensures MemberFor(tm, t, kf[i], policy(kf[i]), FieldKind(t)) == Ok(members[|Kept(SortBy(t.properties, MemberName), policy)| + i])
    {
      ClassFieldAt(tm, policy, t, members, i);
    }
  }

  /** An enum declaration holds one literal per host literal, in declared order and unsorted, and
      the client gives every literal its host value. */
  lemma EnumDeclaration(tm: TypeMap, nss: seq<string>, policy: MemberInfo -> CherryType, t: HostType, d: TypeDeclaration)
    requires !t.classOrStruct && t.isEnum && Declaration(tm, nss, policy, t) == Ok(Some(d))
    ensures d.kind == EnumDecl && d.baseTypes == []
    ensures |d.members| == |t.enumFields|
    ensures forall k :: 0 <= k < |t.enumFields| ==>
      && d.members[k].name == t.enumFields[k].name
      && d.members[k].typeRef == RawRef(t)
      && (d.members[k].init.Some? <==> t.enumFields[k].value != k || t.enumFields[k].value != Implied(t.enumFields, k))
      && ClientValue(d.members, k) == t.enumFields[k].value
  {
    var fs := t.enumFields;
    EnumMembersSpec(t, fs);
    forall k | 0 <= k < |fs|
      ensures ClientValue(d.members, k) == fs[k].value
    {
      EnumValuesPreserved(t, fs, k);
    }
  }

  /** An enum declaration fails exactly when a literal's value does not fit in 32 bits. */
  lemma EnumOverflow(tm: TypeMap, nss: seq<string>, policy: MemberInfo -> CherryType, t: HostType)
    requires !t.classOrStruct && t.isEnum
    ensures Declaration(tm, nss, policy, t).Ok? <==> forall k :: 0 <= k < |t.enumFields| ==> InInt32(t.enumFields[k].value)
  {
    EnumMembersOk(t, t.enumFields);
  }

  /** The base type of a class is referred to by the same name as any other reference to it,
      when it is a mirrored type of one of this run's namespaces. */
  lemma BaseTypeMatchesReference(ctx: Context, nss: seq<string>, t: HostType, b: HostType)
    requires !t.isValueType && t.baseType == Some(b) && b in ctx.pending && b.ns in nss
    ensures BaseTypes(MapOf(ctx), nss, t) == Ok([Translate(ctx, b).value])
  {
  }

  /** A base type that lives in one of the run's namespaces but is not being mirrored still gets
      the client name of a mirror. When no type of the run shares its namespace and name, the
      block of that namespace declares nothing of that name: the reference dangles. */
  lemma BaseOutsideRunDangles(ctx: Context, types: seq<HostType>, policy: MemberInfo -> CherryType, t: HostType, b: HostType)
    requires Emit(MapOf(ctx), types, policy, ctx.suffix).Ok?
    requires !t.isValueType && t.baseType == Some(b) && b !in ctx.pending && b.ns in NamespaceKeys(types)
    requires forall u :: u in types && u.ns == b.ns ==> u.name != b.name
    ensures BaseTypes(MapOf(ctx), NamespaceKeys(types), t) == Ok([Named(b.ns + ctx.suffix + "." + b.name, [])])
    ensures var bs := Emit(MapOf(ctx), types, policy, ctx.suffix).value;
      exists i :: 0 <= i < |bs| && bs[i].name == b.ns + ctx.suffix &&
        forall d :: d in bs[i].types ==> d.name != b.name
  {
    var keys := NamespaceKeys(types);
    var bs := Emit(MapOf(ctx), types, policy, ctx.suffix).value;
    EmitNamespaces(MapOf(ctx), types, policy, ctx.suffix);
    var i :| 0 <= i < |keys| && keys[i] == b.ns;
    BlockContents(MapOf(ctx), types, policy, ctx.suffix, i);
    forall d | d in bs[i].types
      ensures d.name != b.name
    {
      var u :| u in types && u.ns == keys[i] && Declaration(MapOf(ctx), keys, policy, u) == Ok(Some(d));
    }
  }

  /** Declarations keep the order of the types they come from. */
  lemma {:induction false} DeclsSorted(tm: TypeMap, nss: seq<string>, policy: MemberInfo -> CherryType, ts: seq<HostType>)
    requires SortedBy(ts, TypeName) && Decls(tm, nss, policy, ts).Ok?
    ensures SortedBy(Decls(tm, nss, policy, ts).value, DeclName)
    decreases |ts|
  {
    if ts != [] {
      var n := |ts| - 1;
      var prefix := ts[..n];
      assert SortedBy(prefix, TypeName) by {
        forall i, j | 0 <= i < j < |prefix|
          ensures Below(TypeName(prefix[i]), TypeName(prefix[j]))
        {
          assert prefix[i] == ts[i] && prefix[j] == ts[j];
        }
      }
      DeclsSorted(tm, nss, policy, prefix);
      var ds := Decls(tm, nss, policy, prefix).value;
      match Declaration(tm, nss, policy, ts[n])
      case Ok(Some(d)) =>
        forall i | 0 <= i < |ds|
          ensures Below(DeclName(ds[i]), DeclName(d))
        {
          DeclsSound(tm, nss, policy, prefix, ds[i]);
          var j :| 0 <= j < |prefix| && Declaration(tm, nss, policy, prefix[j]) == Ok(Some(ds[i]));
          assert prefix[j] == ts[j];
        }
      case _ =>
    }
  }

  /** The namespace blocks of a run: one per namespace of the given types, in ascending order
      without repetitions, each named by its namespace followed by the suffix argument. */
  lemma EmitNamespaces(tm: TypeMap, types: seq<HostType>, policy: MemberInfo -> CherryType, nsSuffix: string)
    requires Emit(tm, types, policy, nsSuffix).Ok?
    ensures var keys := NamespaceKeys(types);
      var bs := Emit(tm, types, policy, nsSuffix).value;
      && |bs| == |keys|
      && (forall i :: 0 <= i < |bs| ==> bs[i].name == keys[i] + nsSuffix)
      && SortedBy(keys, Self) && NoDuplicates(keys)
      && (forall t :: t in types ==> t.ns in keys)
      && (forall k :: k in keys ==> exists t :: t in types && t.ns == k)
  {
    var keys := NamespaceKeys(types);
    NamespaceKeysSpec(types);
    BlocksSpec(tm, types, policy, nsSuffix, keys, keys);
    forall k | k in keys
      ensures exists t :: t in types && t.ns == k
    {
      var i :| 0 <= i < |NamespacesOf(types)| && NamespacesOf(types)[i] == k;
      assert types[i] in types;
    }
  }

  /** The i-th block holds, ordered by name, the declarations of exactly the supported types of
      the i-th namespace. */
  lemma BlockContents(tm: TypeMap, types: seq<HostType>, policy: MemberInfo -> CherryType, nsSuffix: string, i: nat)
    requires Emit(tm, types, policy, nsSuffix).Ok? && i < |NamespaceKeys(types)|
    ensures var keys := NamespaceKeys(types);
      var bs := Emit(tm, types, policy, nsSuffix).value;
      && |bs| == |keys|
      && SortedBy(bs[i].types, DeclName)
      && (forall d :: d in bs[i].types ==>
            exists t :: t in types && t.ns == keys[i] && Declaration(tm, keys, policy, t) == Ok(Some(d)))
      && (forall t :: t in types && t.ns == keys[i] ==>
            && Declaration(tm, keys, policy, t).Ok?
            && (Declaration(tm, keys, policy, t).value.Some? ==> Declaration(tm, keys, policy, t).value.value in bs[i].types))
    ensures var keys := NamespaceKeys(types);
      var bs := Emit(tm, types, policy, nsSuffix).value;
      var g := SupportedOf(GroupOf(types, keys[i]));
      && |bs| == |keys|
      && |bs[i].types| == |g|
      && (forall j :: 0 <= j < |g| ==> Declaration(tm, keys, policy, g[j]) == Ok(Some(bs[i].types[j])))
      && (forall t :: multiset(g)[t] == if t.ns == keys[i] && Supported(t) then multiset(types)[t] else 0)
  {
    var keys := NamespaceKeys(types);
    var bs := Emit(tm, types, policy, nsSuffix).value;
    var g := GroupOf(types, keys[i]);
    BlocksSpec(tm, types, policy, nsSuffix, keys, keys);
    GroupOfSpec(types, keys[i]);
    assert Block(tm, types, policy, nsSuffix, keys, keys[i]) == Ok(bs[i]);
    assert bs[i].types == Decls(tm, keys, policy, g).value;
    DeclsSorted(tm, keys, policy, g);
    DeclsLength(tm, keys, policy, g);
    forall j | 0 <= j < |SupportedOf(g)|
      ensures Declaration(tm, keys, policy, SupportedOf(g)[j]) == Ok(Some(bs[i].types[j]))
    {
      DeclsAt(tm, keys, policy, g, j);
    }
    SupportedOfCount(g);
    forall d | d in bs[i].types
      ensures exists t :: t in types && t.ns == keys[i] && Declaration(tm, keys, policy, t) == Ok(Some(d))
    {
      DeclsSound(tm, keys, policy, g, d);
      var j :| 0 <= j < |g| && Declaration(tm, keys, policy, g[j]) == Ok(Some(d));
      assert g[j] in g;
    }
    forall t | t in types && t.ns == keys[i]
      ensures Declaration(tm, keys, policy, t).Ok?
      ensures Declaration(tm, keys, policy, t).value.Some? ==> Declaration(tm, keys, policy, t).value.value in bs[i].types
    {
      assert t in g;
      var j :| 0 <= j < |g| && g[j] == t;
      DeclsComplete(tm, keys, policy, g, j);
    }
  }

  /** Every supported type of a run is declared in the block of its own namespace. */
  lemma DeclaredInOwnNamespace(tm: TypeMap, types: seq<HostType>, policy: MemberInfo -> CherryType, nsSuffix: string, t: HostType)
    requires Emit(tm, types, policy, nsSuffix).Ok? && t in types && (t.classOrStruct || t.isEnum)
    ensures var keys := NamespaceKeys(types);
      var bs := Emit(tm, types, policy, nsSuffix).value;
      && Declaration(tm, keys, policy, t).Ok?
      && exists i :: 0 <= i < |bs| && bs[i].name == t.ns + nsSuffix && Declaration(tm, keys, policy, t).value.value in bs[i].types
  {
    var keys := NamespaceKeys(types);
    var bs := Emit(tm, types, policy, nsSuffix).value;
    EmitNamespaces(tm, types, policy, nsSuffix);
    var i :| 0 <= i < |keys| && keys[i] == t.ns;
    BlockContents(tm, types, policy, nsSuffix, i);
    assert bs[i].name == t.ns + nsSuffix;
  }

  /** When the translator's suffix is the run's suffix, a reference to a mirrored type of the run
      is the qualified name of its declaration: its block's name, a dot, and its own name. */
  lemma MirroredReferencesResolve(ctx: Context, types: seq<HostType>, policy: MemberInfo -> CherryType, t: HostType)
    requires Emit(MapOf(ctx), types, policy, ctx.suffix).Ok? && t in types && t in ctx.pending && (t.classOrStruct || t.isEnum)
    ensures var keys := NamespaceKeys(types);
      var bs := Emit(MapOf(ctx), types, policy, ctx.suffix).value;
      && Declaration(MapOf(ctx), keys, policy, t).Ok?
      && exists i :: 0 <= i < |bs| && Declaration(MapOf(ctx), keys, policy, t).value.value in bs[i].types
           && Translate(ctx, t) == Ok(Named(bs[i].name + "." + Declaration(MapOf(ctx), keys, policy, t).value.value.name, []))
  {
    DeclaredInOwnNamespace(MapOf(ctx), types, policy, ctx.suffix, t);
  }

  /** When the translator's suffix is empty but the run's suffix is not, a reference to a
      mirrored type omits the suffix of the block that declares it. */
  lemma UnsyncedSuffixMisroutes(ctx: Context, types: seq<HostType>, policy: MemberInfo -> CherryType, nsSuffix: string, t: HostType)
    requires ctx.suffix == "" && nsSuffix != ""
    requires Emit(MapOf(ctx), types, policy, nsSuffix).Ok? && t in types && t in ctx.pending && (t.classOrStruct || t.isEnum)
    ensures var keys := NamespaceKeys(types);
      var bs := Emit(MapOf(ctx), types, policy, nsSuffix).value;
      && Declaration(MapOf(ctx), keys, policy, t).Ok?
      && exists i :: 0 <= i < |bs| && Declaration(MapOf(ctx), keys, policy, t).value.value in bs[i].types
           && Translate(ctx, t).Ok? && Translate(ctx, t).value.baseType != bs[i].name + "." + t.name
  {
    var keys := NamespaceKeys(types);
    var bs := Emit(MapOf(ctx), types, policy, nsSuffix).value;
    DeclaredInOwnNamespace(MapOf(ctx), types, policy, nsSuffix, t);
    var i :| 0 <= i < |bs| && bs[i].name == t.ns + nsSuffix && Declaration(MapOf(ctx), keys, policy, t).value.value in bs[i].types;
    assert |Translate(ctx, t).value.baseType| < |bs[i].name + "." + t.name|;
  }

  /** After a run whose types were appended to the pending list and whose suffix is the
      translator's, every reference to a supported type of the run names a block of the run
      followed by the type's name. */
  lemma RunReferencesResolve(ctx: Context, earlier: seq<HostType>, types: seq<HostType>, policy: MemberInfo -> CherryType)
    requires ctx.pending == earlier + types && Emit(MapOf(ctx), types, policy, ctx.suffix).Ok?
    ensures forall t :: t in types && (t.classOrStruct || t.isEnum) ==>
      var bs := Emit(MapOf(ctx), types, policy, ctx.suffix).value;
      exists i :: 0 <= i < |bs| && Translate(ctx, t).Ok? && Translate(ctx, t).value.baseType == bs[i].name + "." + t.name
  {
    forall t | t in types && (t.classOrStruct || t.isEnum)
      ensures var bs := Emit(MapOf(ctx), types, policy, ctx.suffix).value;
        exists i :: 0 <= i < |bs| && Translate(ctx, t).Ok? && Translate(ctx, t).value.baseType == bs[i].name + "." + t.name
    {
      assert t in ctx.pending;
      MirroredReferencesResolve(ctx, types, policy, t);
    }
  }
}
