/** The generator object: it mirrors host types as client declarations in a compile unit, which
    it owns or shares with other generators. Its methods follow the loops of
    Poco2CsGen.CreateCodeDom and are proved to build exactly what module Emission specifies. */
module Poco2Client {
  import opened Wrappers
  import opened Reflection
  import opened CodeDom
  import opened Ordering
  import opened TypeTranslation
  import opened Emission
  import opened EmissionRules

  class Poco2CsGen {
    const targetUnit: CodeCompileUnit
    /** Every type handed to CreateCodeDom so far, in order. */
    var pendingTypes: seq<HostType>
    /** The suffix the translator appends to a mirrored type's namespace; a null string is "". */
    var clientNamespaceSuffix: string

    /** A generator with a compile unit of its own. */
    constructor ()
      ensures fresh(targetUnit) && targetUnit.namespaces == []
      ensures pendingTypes == [] && clientNamespaceSuffix == ""
    {
      targetUnit := new CodeCompileUnit();
      pendingTypes := [];
      clientNamespaceSuffix := "";
    }

    /** A generator that shares the compile unit of other generators. */
    constructor Sharing(codeCompileUnit: CodeCompileUnit)
      ensures targetUnit == codeCompileUnit
      ensures pendingTypes == [] && clientNamespaceSuffix == ""
    {
      targetUnit := codeCompileUnit;
      pendingTypes := [];
      clientNamespaceSuffix := "";
    }

    /** The state the translator reads. */
    function Translator(): Context
      reads this
    {
      Context(pendingTypes, clientNamespaceSuffix)
    }

    /** One kept member: an auto-property, with RequiredAttribute for BigCherry, or, in a
        struct, a public field. */
    method CreateMember(owner: HostType, m: MemberInfo, cherryType: CherryType, kind: MemberKind)
      returns (r: Result<Member>)
      ensures r == MemberFor(MapOf(Translator()), owner, m, cherryType, kind)
    {
      var ctx := Translator();
      var tm := MapOf(ctx);
      if kind == StructField {
        var fieldType := Translate(ctx, m.memberType);
        if fieldType.Err? {
          return Err(fieldType.error);
        }
        return Ok(Member(m.name, fieldType.value, [], None, MemberDocKey(owner, m, kind)));
      }
      var clientProperty := CreateProperty(tm, m.name, m.memberType);
      if clientProperty.Err? {
        return Err(clientProperty.error);
      }
      var customAttributes := clientProperty.value.customAttributes;
      if cherryType == BigCherry {
        customAttributes := customAttributes + [RequiredAttribute];
      }
      assert customAttributes == if cherryType == BigCherry then [RequiredAttribute] else [];
      return Ok(clientProperty.value.(customAttributes := customAttributes, docKey := MemberDocKey(owner, m, kind)));
    }

    /** The loop over one sorted member list: excluded members are skipped, the others are
        emitted in order. */
    method CreateMembers(owner: HostType, ms: seq<MemberInfo>, policy: MemberInfo -> CherryType, kind: MemberKind)
      returns (r: Result<seq<Member>>)
      ensures r == MemberList(MapOf(Translator()), owner, ms, policy, kind)
    {
      var tm := MapOf(Translator());
      var members: seq<Member> := [];
      var i := 0;
      while i < |ms|
        invariant 0 <= i <= |ms|
        invariant MemberList(tm, owner, ms[..i], policy, kind) == Ok(members)
      {
        var m := ms[i];
        MemberListStep(tm, owner, ms, policy, kind, i, members);
        var cherryType := policy(m);
        if cherryType == Excluded {
          i := i + 1;
          continue;
        }
        var member := CreateMember(owner, m, cherryType, kind);
        if member.Err? {
          MemberListAbort(tm, owner, ms, policy, kind, i + 1);
          return Err(member.error);
        }
        members := members + [member.value];
        i := i + 1;
      }
      assert ms[..i] == ms;
      return Ok(members);
    }

    /** The loop over an enum's literals, in declared order. As in the source, k counts the
        position; implied holds the value the client would give the next literal without an
        initializer, so that no literal loses its value. */
    method CreateEnumMembers(t: HostType) returns (r: Result<seq<Member>>)
      ensures r == EnumMembers(t, t.enumFields)
    {
      var fs := t.enumFields;
      var members: seq<Member> := [];
      var k := 0;
      var implied := 0;
      while k < |fs|
        invariant 0 <= k <= |fs|
        invariant EnumMembers(t, fs[..k]) == Ok(members)
        invariant implied == Implied(fs, k)
      {
        var fieldInfo := fs[k];
        assert fs[..k + 1][..k] == fs[..k];
        assert Initialized(fs[..k + 1], k) == Initialized(fs, k);
        if !InInt32(fieldInfo.value) {
          EnumMembersAbort(t, fs, k + 1);
          return Err(Overflow);
        }
        var isInitialized := fieldInfo.value != k || fieldInfo.value != implied;
        var clientField := Member(fieldInfo.name, RawRef(t), [], if isInitialized then Some(fieldInfo.value) else None,
                                  "F:" + t.fullName + "." + fieldInfo.name);
        members := members + [clientField];
        implied := fieldInfo.value + 1;
        k := k + 1;
      }
      assert fs[..k] == fs;
      return Ok(members);
    }

    /** The declaration of one type, or none when it is neither a class, a struct nor an enum. */
    method CreateTypeDeclaration(namespacesOfTypes: seq<string>, policy: MemberInfo -> CherryType, t: HostType)
      returns (r: Result<Option<TypeDeclaration>>)
      ensures r == Declaration(MapOf(Translator()), namespacesOfTypes, policy, t)
    {
      var ctx := Translator();
      if t.classOrStruct {
        var kind := if t.form.Generic? then GenericClassDecl else if t.isClass then ClassDecl else StructDecl;
        var baseTypes: seq<TypeRef> := [];
        if !t.isValueType {
          if t.baseType.None? {
            return Err(NullReference);
          }
          var b := t.baseType.value;
          if b.ns in namespacesOfTypes {
            baseTypes := [Named(RefineCustomComplexTypeText(ctx.suffix, b.ns, b.name), [])];
          } else {
            baseTypes := [RawRef(b)];
          }
        }
        var properties := CreateMembers(t, SortBy(t.properties, MemberName), policy, PropertyMember);
        if properties.Err? {
          return Err(properties.error);
        }
        var fields := CreateMembers(t, SortBy(t.fields, MemberName), policy, FieldKind(t));
        if fields.Err? {
          return Err(fields.error);
        }
        return Ok(Some(TypeDeclaration(t.name, kind, baseTypes, properties.value + fields.value, "T:" + t.fullName)));
      } else if t.isEnum {
        var literals := CreateEnumMembers(t);
        if literals.Err? {
          return Err(literals.error);
        }
        return Ok(Some(TypeDeclaration(t.name, EnumDecl, [], literals.value, "T:" + t.fullName)));
      } else {
        return Ok(None);
      }
    }

    /** The body of the per-type selector of one namespace: each type's declaration, in the
        given order, joins the namespace block added last. */
    method AddDeclarations(namespacesOfTypes: seq<string>, policy: MemberInfo -> CherryType, group: seq<HostType>)
      returns (error: Option<Exception>)
      requires |targetUnit.namespaces| > 0
      modifies targetUnit
      ensures var ds := Decls(MapOf(Translator()), namespacesOfTypes, policy, group);
        && (error.None? <==> ds.Ok?)
        && (ds.Err? ==> error == Some(ds.error))
        && (ds.Ok? ==>
              var last := |old(targetUnit.namespaces)| - 1;
              targetUnit.namespaces == old(targetUnit.namespaces)[..last] +
                [old(targetUnit.namespaces)[last].(types := old(targetUnit.namespaces)[last].types + ds.value)])
    {
      var tm := MapOf(Translator());
      var last := |targetUnit.namespaces| - 1;
      ghost var before := targetUnit.namespaces;
      var g := 0;
      while g < |group|
        invariant 0 <= g <= |group|
        invariant |targetUnit.namespaces| == last + 1
        invariant targetUnit.namespaces[..last] == before[..last]
        invariant Decls(tm, namespacesOfTypes, policy, group[..g]).Ok?
        invariant targetUnit.namespaces[last] ==
          before[last].(types := before[last].types + Decls(tm, namespacesOfTypes, policy, group[..g]).value)
      {
        assert group[..g + 1][..g] == group[..g];
        var typeDeclaration := CreateTypeDeclaration(namespacesOfTypes, policy, group[g]);
        if typeDeclaration.Err? {
          DeclsAbort(tm, namespacesOfTypes, policy, group, g + 1);
          return Some(typeDeclaration.error);
        }
        if typeDeclaration.value.Some? {
          var ns := targetUnit.namespaces[last];
          targetUnit.namespaces := targetUnit.namespaces[..last] + [ns.(types := ns.types + [typeDeclaration.value.value])];
        }
        g := g + 1;
      }
      assert group[..g] == group;
      return None;
    }

    /** One namespace of a run: adds the block named key + suffix to the compile unit, then
        fills it with the declarations of the key's types, ordered by name. */
    method CreateNamespace(types: seq<HostType>, policy: MemberInfo -> CherryType, suffix: string,
                           namespacesOfTypes: seq<string>, key: string)
      returns (error: Option<Exception>)
      modifies targetUnit
      ensures var b := Block(MapOf(Translator()), types, policy, suffix, namespacesOfTypes, key);
        && (error.None? <==> b.Ok?)
        && (b.Err? ==> error == Some(b.error))
        && (b.Ok? ==> targetUnit.namespaces == old(targetUnit.namespaces) + [b.value])
    {
      ghost var before := targetUnit.namespaces;
      var clientNamespace := CodeNamespace(key + suffix, []);
      targetUnit.namespaces := targetUnit.namespaces + [clientNamespace];
      var group := GroupOf(types, key);
      error := AddDeclarations(namespacesOfTypes, policy, group);
      ghost var ds := Decls(MapOf(Translator()), namespacesOfTypes, policy, group);
      if ds.Ok? {
        assert (before + [clientNamespace])[..|before|] == before;
        assert [] + ds.value == ds.value;
      }
    }

    /** CreateCodeDom over a list of types: records them as pending, then appends one namespace
        block per host namespace, in ascending order, each holding its types' declarations
        ordered by name. The suffix argument names the blocks; the suffix field, which this
        overload leaves as it is, is what references to pending types carry. */
    method CreateCodeDom(types: seq<HostType>, policy: MemberInfo -> CherryType, suffix: string)
      returns (error: Option<Exception>)
      modifies this, targetUnit
      ensures pendingTypes == old(pendingTypes) + types
      ensures clientNamespaceSuffix == old(clientNamespaceSuffix)
      ensures var e := Emit(MapOf(Translator()), types, policy, suffix);
        && (error.None? <==> e.Ok?)
        && (e.Ok? ==> targetUnit.namespaces == old(targetUnit.namespaces) + e.value)
        && (e.Err? ==> error == Some(e.error))
    {
      pendingTypes := pendingTypes + types;
      var tm := MapOf(Translator());
      var namespacesOfTypes := NamespaceKeys(types);
      var keys := namespacesOfTypes;
      ghost var blocks := seq(|keys|, j requires 0 <= j < |keys| => Block(tm, types, policy, suffix, namespacesOfTypes, keys[j]));
      assert Emit(tm, types, policy, suffix) == Collect(blocks);
      ghost var start := targetUnit.namespaces;
      ghost var added: seq<CodeNamespace> := [];
      var i := 0;
      while i < |keys|
        invariant 0 <= i <= |keys|
        invariant pendingTypes == old(pendingTypes) + types && clientNamespaceSuffix == old(clientNamespaceSuffix)
        invariant targetUnit.namespaces == start + added
        invariant Collect(blocks[..i]) == Ok(added)
      {
        error := CreateNamespace(types, policy, suffix, namespacesOfTypes, keys[i]);
        if error.Some? {
          CollectFirstError(blocks, i);
          return;
        }
        CollectStep(blocks, i, added);
        AppendToExtension(start, added, blocks[i].value);
        added := added + [blocks[i].value];
        i := i + 1;
      }
      assert blocks[..i] == blocks;
      return None;
    }

    /** CreateCodeDom over an assembly's cherry-picked types: sets the suffix field first, so the
        references to pending types and the namespace blocks carry the same suffix. */
    method CreateCodeDomForAssembly(cherryTypes: seq<HostType>, policy: MemberInfo -> CherryType, suffix: string)
      returns (error: Option<Exception>)
      modifies this, targetUnit
      ensures pendingTypes == old(pendingTypes) + cherryTypes && clientNamespaceSuffix == suffix
      ensures var e := Emit(MapOf(Translator()), cherryTypes, policy, suffix);
        && (error.None? <==> e.Ok?)
        && (e.Ok? ==> targetUnit.namespaces == old(targetUnit.namespaces) + e.value)
        && (e.Err? ==> error == Some(e.error))
      ensures error.None? ==> forall t :: t in cherryTypes && (t.classOrStruct || t.isEnum) ==>
        var bs := Emit(MapOf(Translator()), cherryTypes, policy, suffix).value;
        exists i :: 0 <= i < |bs| && Translate(Translator(), t).Ok? && Translate(Translator(), t).value.baseType == bs[i].name + "." + t.name
    {
      clientNamespaceSuffix := suffix;
      error := CreateCodeDom(cherryTypes, policy, suffix);
      if error.None? {
        RunReferencesResolve(Translator(), old(pendingTypes), cherryTypes, policy);
      }
    }
  }
}
