/** What one run of the declaration emitter produces, as functions of its inputs: the members of
    a class or struct, the literals of an enum, one declaration per supported type, and one
    namespace block per host namespace. The type translator is a parameter, a TypeMap: the
    emitter only applies it, so these definitions hold for any translation; the generator passes
    MapOf of its own state. The imperative generator in module Poco2Client is proved to build
    exactly these values. */
module Emission {
  import opened Wrappers
  import opened Reflection
  import opened CodeDom
  import opened Ordering
  import opened TypeTranslation

  /** How a kept member is emitted: a property, a public field of a class (emitted as a
      property), or a public field of a struct (kept a field). */
  datatype MemberKind = PropertyMember | ClassField | StructField

  /** A class's fields are emitted as properties, a struct's as fields. */
  function FieldKind(t: HostType): MemberKind {
    if t.isClass then ClassField else StructField
  }

  /** Appended to a member name so that the printer writes an auto-property; the printed "//;"
      is removed when the code is saved. */
  const AccessorTail: string := " { get; set; }//"

  /** CreateProperty: a public field whose name carries the accessor pair. */
  function CreateProperty(tm: TypeMap, name: string, t: HostType): (r: Result<Member>)
    ensures r.Ok? <==> tm.reference(t).Ok?
    ensures r.Ok? ==> r.value.typeRef == tm.reference(t).value
  {
    match tm.reference(t)
    case Err(e) => Err(e)
    case Ok(tr) => Ok(Member(name + AccessorTail, tr, [], None, ""))
  }

  /** The property's name is the given name followed by the accessor pair, and it carries no
      attribute and no initializer. */
  lemma CreatePropertyShape(tm: TypeMap, name: string, t: HostType)
    requires CreateProperty(tm, name, t).Ok?
    ensures var p := CreateProperty(tm, name, t).value;
      && |p.name| == |name| + |AccessorTail| && p.name[..|name|] == name && p.name[|name|..] == AccessorTail
      && p.customAttributes == [] && p.init.None?
  {
    var p := CreateProperty(tm, name, t).value;
    assert p.name == name + AccessorTail;
    assert p.name[..|name|] == name && p.name[|name|..] == AccessorTail;
  }

  /** The documentation lookup key of a member: "P:" for properties, "F:" for fields, followed by
      the declaring type's full name and the member name. */
  function MemberDocKey(owner: HostType, m: MemberInfo, kind: MemberKind): string
  {
    (if kind == PropertyMember then "P:" else "F:") + owner.fullName + "." + m.name
  }

  /** The member emitted for a member the policy keeps. */
  function MemberFor(tm: TypeMap, owner: HostType, m: MemberInfo, cherry: CherryType, kind: MemberKind): (r: Result<Member>)
    ensures r.Ok? <==> tm.reference(m.memberType).Ok?
    ensures r.Ok? ==> r.value.typeRef == tm.reference(m.memberType).value
  {
    if kind == StructField then
      match tm.reference(m.memberType)
      case Err(e) => Err(e)
      case Ok(tr) => Ok(Member(m.name, tr, [], None, MemberDocKey(owner, m, kind)))
    else
      match CreateProperty(tm, m.name, m.memberType)
      case Err(e) => Err(e)
      case Ok(p) =>
        Ok(p.(customAttributes := if cherry == BigCherry then [RequiredAttribute] else [],
              docKey := MemberDocKey(owner, m, kind)))
  }

  /** An emitted member is named as the host member, with the accessor pair unless it stays a
      struct field; it is marked required exactly when the policy says BigCherry and it is not a
      struct field; it has no initializer. */
  lemma MemberForShape(tm: TypeMap, owner: HostType, m: MemberInfo, cherry: CherryType, kind: MemberKind)
    requires MemberFor(tm, owner, m, cherry, kind).Ok?
    ensures var r := MemberFor(tm, owner, m, cherry, kind).value;
      && r.name == (if kind == StructField then m.name else m.name + AccessorTail)
      && (RequiredAttribute in r.customAttributes <==> kind != StructField && cherry == BigCherry)
      && r.init.None?
  {
    if kind != StructField {
      CreatePropertyShape(tm, m.name, m.memberType);
    }
  }

  /** The members the cherry-picking policy does not exclude, in their given order. */
  function Kept(ms: seq<MemberInfo>, policy: MemberInfo -> CherryType): seq<MemberInfo>
    decreases |ms|
  {
    if ms == [] then []
    else
      var n := |ms| - 1;
      Kept(ms[..n], policy) + (if policy(ms[n]) == Excluded then [] else [ms[n]])
  }

  /** Exactly the members not excluded are kept. */
  lemma {:induction false} KeptMembers(ms: seq<MemberInfo>, policy: MemberInfo -> CherryType)
    ensures forall m :: m in Kept(ms, policy) <==> m in ms && policy(m) != Excluded
    ensures forall m :: multiset(Kept(ms, policy))[m] == if policy(m) == Excluded then 0 else multiset(ms)[m]
    ensures |Kept(ms, policy)| <= |ms|
    decreases |ms|
  {
    if ms != [] {
      var n := |ms| - 1;
      assert ms == ms[..n] + [ms[n]];
      KeptMembers(ms[..n], policy);
    }
  }

  /** A kept member comes from the input. */
  lemma {:induction false} KeptWithin(ms: seq<MemberInfo>, policy: MemberInfo -> CherryType)
    ensures forall m :: m in Kept(ms, policy) ==> m in ms
    decreases |ms|
  {
    if ms != [] {
      var n := |ms| - 1;
      assert ms == ms[..n] + [ms[n]];
      KeptWithin(ms[..n], policy);
    }
  }

  /** Keeping members does not disturb an order. */
  lemma {:induction false} KeptSorted(ms: seq<MemberInfo>, policy: MemberInfo -> CherryType)
    requires SortedBy(ms, MemberName)
    ensures SortedBy(Kept(ms, policy), MemberName)
    decreases |ms|
  {
    if ms != [] {
      var n := |ms| - 1;
      assert ms == ms[..n] + [ms[n]];
      KeptSorted(ms[..n], policy);
      KeptWithin(ms[..n], policy);
      var p := Kept(ms[..n], policy);
      forall i | 0 <= i < |p|
        ensures Below(MemberName(p[i]), MemberName(ms[n]))
      {
        assert p[i] in ms[..n];
        var k :| 0 <= k < n && ms[k] == p[i];
      }
    }
  }

  /** The members a declaration lists are exactly the kept ones, each as often as it occurs, in
      ascending order of name. */
  lemma KeptInNameOrder(ms: seq<MemberInfo>, policy: MemberInfo -> CherryType)
    ensures SortedBy(Kept(SortBy(ms, MemberName), policy), MemberName)
    ensures forall m :: m in Kept(SortBy(ms, MemberName), policy) <==> m in ms && policy(m) != Excluded
    ensures forall m :: multiset(Kept(SortBy(ms, MemberName), policy))[m] == if policy(m) == Excluded then 0 else multiset(ms)[m]
  {
    SortByPermutes(ms, MemberName);
    SortBySorted(ms, MemberName);
    SortByMembers(ms, MemberName);
    KeptSorted(SortBy(ms, MemberName), policy);
    KeptMembers(SortBy(ms, MemberName), policy);
  }

  /** The members emitted for one member list: the kept members in order, each by MemberFor;
      the first failing translation aborts the list. */
  function MemberList(tm: TypeMap, owner: HostType, ms: seq<MemberInfo>, policy: MemberInfo -> CherryType, kind: MemberKind)
    : Result<seq<Member>>
    decreases |ms|
  {
    if ms == [] then Ok([])
    else
      var n := |ms| - 1;
      match MemberList(tm, owner, ms[..n], policy, kind)
      case Err(e) => Err(e)
      case Ok(acc) =>
        if policy(ms[n]) == Excluded then Ok(acc)
        else
          match MemberFor(tm, owner, ms[n], policy(ms[n]), kind)
          case Err(e) => Err(e)
          case Ok(m) => Ok(acc + [m])
  }

  /** Keeping the members of a longer list keeps those of its prefix and then, unless excluded,
      its last member. */
  lemma KeptSnoc(ms: seq<MemberInfo>, policy: MemberInfo -> CherryType)
    requires ms != []
    ensures var n := |ms| - 1;
      Kept(ms, policy) == Kept(ms[..n], policy) + (if policy(ms[n]) == Excluded then [] else [ms[n]])
  {
  }

  /** A member list succeeds exactly when every kept member translates, and then holds one member
      per kept member. */
  lemma {:induction false} MemberListOk(tm: TypeMap, owner: HostType, ms: seq<MemberInfo>, policy: MemberInfo -> CherryType, kind: MemberKind)
    ensures var k := Kept(ms, policy);
      MemberList(tm, owner, ms, policy, kind).Ok? <==>
        forall i :: 0 <= i < |k| ==> MemberFor(tm, owner, k[i], policy(k[i]), kind).Ok?
    ensures MemberList(tm, owner, ms, policy, kind).Ok? ==>
      |MemberList(tm, owner, ms, policy, kind).value| == |Kept(ms, policy)|
    decreases |ms|
  {
    if ms != [] {
      var n := |ms| - 1;
      MemberListOk(tm, owner, ms[..n], policy, kind);
      KeptSnoc(ms, policy);
      var kp := Kept(ms[..n], policy);
      var k := Kept(ms, policy);
      assert forall i :: 0 <= i < |kp| ==> k[i] == kp[i];
      if policy(ms[n]) != Excluded {
        assert k[|kp|] == ms[n];
      }
    }
  }

  /** A successful list holds one member per kept member. */
  lemma MemberListLength(tm: TypeMap, owner: HostType, ms: seq<MemberInfo>, policy: MemberInfo -> CherryType, kind: MemberKind)
    requires MemberList(tm, owner, ms, policy, kind).Ok?
    ensures |MemberList(tm, owner, ms, policy, kind).value| == |Kept(ms, policy)|
  {
    MemberListOk(tm, owner, ms, policy, kind);
  }

  /** The i-th member of a successful list is the member emitted for the i-th kept member. */
  lemma {:induction false} MemberAt(tm: TypeMap, owner: HostType, ms: seq<MemberInfo>, policy: MemberInfo -> CherryType, kind: MemberKind, i: nat)
    requires MemberList(tm, owner, ms, policy, kind).Ok? && i < |Kept(ms, policy)|
    ensures |MemberList(tm, owner, ms, policy, kind).value| == |Kept(ms, policy)|
    ensures MemberFor(tm, owner, Kept(ms, policy)[i], policy(Kept(ms, policy)[i]), kind) ==
      Ok(MemberList(tm, owner, ms, policy, kind).value[i])
    decreases |ms|
  {
    var n := |ms| - 1;
    MemberListOk(tm, owner, ms, policy, kind);
    MemberListOk(tm, owner, ms[..n], policy, kind);
    KeptSnoc(ms, policy);
    var kp := Kept(ms[..n], policy);
    if i < |kp| {
      MemberAt(tm, owner, ms[..n], policy, kind, i);
    }
  }

  /** The same, for a successful list placed after other members. */
  lemma MemberAtOffset(tm: TypeMap, owner: HostType, ms: seq<MemberInfo>, policy: MemberInfo -> CherryType, kind: MemberKind,
                       before: seq<Member>, i: nat)
    requires MemberList(tm, owner, ms, policy, kind).Ok? && i < |Kept(ms, policy)|
    ensures |before + MemberList(tm, owner, ms, policy, kind).value| == |before| + |Kept(ms, policy)|
    ensures MemberFor(tm, owner, Kept(ms, policy)[i], policy(Kept(ms, policy)[i]), kind) ==
      Ok((before + MemberList(tm, owner, ms, policy, kind).value)[|before| + i])
  {
    MemberAt(tm, owner, ms, policy, kind, i);
  }

  /** Two successful lists placed one after the other: the i-th kept member of the second list
      gives the member that follows all of the first list's. */
  lemma SecondListAt(tm: TypeMap, owner: HostType, first: seq<MemberInfo>, firstKind: MemberKind,
                     second: seq<MemberInfo>, secondKind: MemberKind, policy: MemberInfo -> CherryType, members: seq<Member>, i: nat)
    requires MemberList(tm, owner, first, policy, firstKind).Ok? && MemberList(tm, owner, second, policy, secondKind).Ok?
    requires members == MemberList(tm, owner, first, policy, firstKind).value + MemberList(tm, owner, second, policy, secondKind).value
    requires i < |Kept(second, policy)|
    ensures |members| == |Kept(first, policy)| + |Kept(second, policy)|
    ensures MemberFor(tm, owner, Kept(second, policy)[i], policy(Kept(second, policy)[i]), secondKind) ==
      Ok(members[|Kept(first, policy)| + i])
  {
    MemberListLength(tm, owner, first, policy, firstKind);
    MemberAtOffset(tm, owner, second, policy, secondKind, MemberList(tm, owner, first, policy, firstKind).value, i);
  }

  /** A member list succeeds exactly when every kept member translates, and then holds one
      member per kept member, in order. */
  lemma MemberListSpec(tm: TypeMap, owner: HostType, ms: seq<MemberInfo>, policy: MemberInfo -> CherryType, kind: MemberKind)
    ensures var k := Kept(ms, policy);
      && (MemberList(tm, owner, ms, policy, kind).Ok? <==>
          forall i :: 0 <= i < |k| ==> MemberFor(tm, owner, k[i], policy(k[i]), kind).Ok?)
      && (MemberList(tm, owner, ms, policy, kind).Ok? ==>
          && |MemberList(tm, owner, ms, policy, kind).value| == |k|
          && forall i :: 0 <= i < |k| ==>
               MemberFor(tm, owner, k[i], policy(k[i]), kind) == Ok(MemberList(tm, owner, ms, policy, kind).value[i]))
  {
    MemberListOk(tm, owner, ms, policy, kind);
    if MemberList(tm, owner, ms, policy, kind).Ok? {
      var k := Kept(ms, policy);
      forall i | 0 <= i < |k|
        ensures MemberFor(tm, owner, k[i], policy(k[i]), kind) == Ok(MemberList(tm, owner, ms, policy, kind).value[i])
      {
        MemberAt(tm, owner, ms, policy, kind, i);
      }
    }
  }

  /** One more member extends a successful prefix of the list: not at all when it is excluded,
      by its emitted member otherwise. */
  lemma MemberListStep(tm: TypeMap, owner: HostType, ms: seq<MemberInfo>, policy: MemberInfo -> CherryType, kind: MemberKind,
                       i: nat, acc: seq<Member>)
    requires i < |ms| && MemberList(tm, owner, ms[..i], policy, kind) == Ok(acc)
    ensures policy(ms[i]) == Excluded ==> MemberList(tm, owner, ms[..i + 1], policy, kind) == Ok(acc)
    ensures policy(ms[i]) != Excluded && MemberFor(tm, owner, ms[i], policy(ms[i]), kind).Ok? ==>
      MemberList(tm, owner, ms[..i + 1], policy, kind) == Ok(acc + [MemberFor(tm, owner, ms[i], policy(ms[i]), kind).value])
    ensures policy(ms[i]) != Excluded && MemberFor(tm, owner, ms[i], policy(ms[i]), kind).Err? ==>
      MemberList(tm, owner, ms[..i + 1], policy, kind) == Err(MemberFor(tm, owner, ms[i], policy(ms[i]), kind).error)
  {
    assert ms[..i + 1][..i] == ms[..i];
  }

  /** Once a prefix of the list fails, the whole list fails with the same error. */
  lemma {:induction false} MemberListAbort(tm: TypeMap, owner: HostType, ms: seq<MemberInfo>, policy: MemberInfo -> CherryType, kind: MemberKind, i: nat)
    requires i <= |ms| && MemberList(tm, owner, ms[..i], policy, kind).Err?
    ensures MemberList(tm, owner, ms, policy, kind) == MemberList(tm, owner, ms[..i], policy, kind)
    decreases |ms|
  {
    if i < |ms| {
      var n := |ms| - 1;
      assert ms[..n][..i] == ms[..i];
      MemberListAbort(tm, owner, ms[..n], policy, kind, i);
    } else {
      assert ms[..i] == ms;
    }
  }

  /** The members of a class or struct declaration: its kept properties, then its kept fields,
      each list sorted by name. */
  function ClassMembers(tm: TypeMap, policy: MemberInfo -> CherryType, t: HostType): Result<seq<Member>>
  {
    match MemberList(tm, t, SortBy(t.properties, MemberName), policy, PropertyMember)
    case Err(e) => Err(e)
    case Ok(ps) =>
      match MemberList(tm, t, SortBy(t.fields, MemberName), policy, FieldKind(t))
      case Err(e) => Err(e)
      case Ok(fs) => Ok(ps + fs)
  }

  /** The base-type list of a class or struct declaration: none for a value type; otherwise the
      base type, by its client name when its namespace is one of this run's, else as itself. */
  function BaseTypes(tm: TypeMap, namespacesOfTypes: seq<string>, t: HostType): (r: Result<seq<TypeRef>>)
    ensures t.isValueType ==> r == Ok([])
    ensures !t.isValueType && t.baseType.None? ==> r == Err(NullReference)
    ensures !t.isValueType && t.baseType.Some? && t.baseType.value.ns !in namespacesOfTypes ==>
      r == Ok([RawRef(t.baseType.value)])
    ensures !t.isValueType && t.baseType.Some? && t.baseType.value.ns in namespacesOfTypes ==>
      r == Ok([Named(t.baseType.value.ns + tm.suffix + "." + t.baseType.value.name, [])])
  {
    if t.isValueType then Ok([])
    else
      match t.baseType
      case None => Err(NullReference)
      case Some(b) =>
        if b.ns in namespacesOfTypes then Ok([Named(RefineCustomComplexTypeText(tm.suffix, b.ns, b.name), [])])
        else Ok([RawRef(b)])
  }

  /** The value a C# enum gives a literal without an initializer: 0 for the first, one more than
      its predecessor's value otherwise. */
  function Implied(fs: seq<EnumField>, k: nat): int
    requires k <= |fs|
  {
    if k == 0 then 0 else fs[k - 1].value + 1
  }

  function EnumMember(t: HostType, f: EnumField, init: Option<int>): Member
  {
    Member(f.name, RawRef(t), [], init, "F:" + t.fullName + "." + f.name)
  }

  /** The enum literals as the source writes them: a literal gets an initializer exactly when its
      value differs from its zero-based position. */
  function EnumMembersAsWritten(t: HostType, fs: seq<EnumField>): (r: Result<seq<Member>>)
    ensures r.Ok? <==> forall k :: 0 <= k < |fs| ==> InInt32(fs[k].value)
    ensures r.Ok? ==> |r.value| == |fs| && forall k :: 0 <= k < |fs| ==>
      && r.value[k].name == fs[k].name
      && r.value[k].typeRef == RawRef(t)
      && (r.value[k].init.Some? <==> fs[k].value != k)
      && (r.value[k].init.Some? ==> r.value[k].init.value == fs[k].value)
    decreases |fs|
  {
    if fs == [] then Ok([])
    else
      var n := |fs| - 1;
      match EnumMembersAsWritten(t, fs[..n])
      case Err(e) => Err(e)
      case Ok(ms) =>
        var f := fs[n];
        if !InInt32(f.value) then Err(Overflow)
        else Ok(ms + [EnumMember(t, f, if f.value != n then Some(f.value) else None)])
  }

  /** Whether the corrected rule gives the k-th literal an initializer: when the source's rule does
      (its value differs from its position), and also when its value differs from the one C#
      would imply for it, which the source's rule misses. */
  predicate Initialized(fs: seq<EnumField>, k: nat)
    requires k < |fs|
  {
    fs[k].value != k || fs[k].value != Implied(fs, k)
  }

  /** The enum literals with the initializer rule corrected as little as possible: an initializer
      wherever the source writes one, and wherever leaving it out would change the value. */
  function EnumMembers(t: HostType, fs: seq<EnumField>): Result<seq<Member>>
    decreases |fs|
  {
    if fs == [] then Ok([])
    else
      var n := |fs| - 1;
      match EnumMembers(t, fs[..n])
      case Err(e) => Err(e)
      case Ok(ms) =>
        var f := fs[n];
        if !InInt32(f.value) then Err(Overflow)
        else Ok(ms + [EnumMember(t, f, if Initialized(fs, n) then Some(f.value) else None)])
  }

  /** The corrected literals fail exactly on a value outside the 32-bit range. */
  lemma {:induction false} EnumMembersOk(t: HostType, fs: seq<EnumField>)
    ensures EnumMembers(t, fs).Ok? <==> forall k :: 0 <= k < |fs| ==> InInt32(fs[k].value)
    ensures EnumMembers(t, fs).Ok? ==> |EnumMembers(t, fs).value| == |fs|
    decreases |fs|
  {
    if fs != [] {
      var n := |fs| - 1;
      EnumMembersOk(t, fs[..n]);
      assert forall k :: 0 <= k < n ==> fs[..n][k] == fs[k];
    }
  }

  /** The k-th corrected literal mirrors the k-th host literal and carries an initializer exactly
      when the corrected rule says so. */
  lemma {:induction false} EnumMemberAt(t: HostType, fs: seq<EnumField>, k: nat)
    requires EnumMembers(t, fs).Ok? && k < |fs|
    ensures |EnumMembers(t, fs).value| == |fs|
    ensures EnumMembers(t, fs).value[k] ==
      EnumMember(t, fs[k], if Initialized(fs, k) then Some(fs[k].value) else None)
    decreases |fs|
  {
    EnumMembersOk(t, fs);
    var n := |fs| - 1;
    EnumMembersOk(t, fs[..n]);
    if k < n {
      EnumMemberAt(t, fs[..n], k);
      assert fs[..n][k] == fs[k];
      assert Implied(fs[..n], k) == Implied(fs, k);
      assert Initialized(fs[..n], k) == Initialized(fs, k);
    }
  }

  /** The corrected literals: one per host literal, in declared order, with an initializer
      exactly when the value differs from the position or from the implied value. */
  lemma EnumMembersSpec(t: HostType, fs: seq<EnumField>)
    requires EnumMembers(t, fs).Ok?
    ensures |EnumMembers(t, fs).value| == |fs|
    ensures forall k :: 0 <= k < |fs| ==>
      && EnumMembers(t, fs).value[k].name == fs[k].name
      && EnumMembers(t, fs).value[k].typeRef == RawRef(t)
      && (EnumMembers(t, fs).value[k].init.Some? <==> fs[k].value != k || fs[k].value != Implied(fs, k))
      && (EnumMembers(t, fs).value[k].init.Some? ==> EnumMembers(t, fs).value[k].init.value == fs[k].value)
  {
    EnumMembersOk(t, fs);
    forall k | 0 <= k < |fs|
      ensures EnumMembers(t, fs).value[k] ==
        EnumMember(t, fs[k], if Initialized(fs, k) then Some(fs[k].value) else None)
    {
      EnumMemberAt(t, fs, k);
    }
  }

  /** Once a prefix of the literals fails, the whole list fails with the same error. */
  lemma {:induction false} EnumMembersAbort(t: HostType, fs: seq<EnumField>, i: nat)
    requires i <= |fs| && EnumMembers(t, fs[..i]).Err?
    ensures EnumMembers(t, fs) == EnumMembers(t, fs[..i])
    decreases |fs|
  {
    if i < |fs| {
      var n := |fs| - 1;
      assert fs[..n][..i] == fs[..i];
      EnumMembersAbort(t, fs[..n], i);
    } else {
      assert fs[..i] == fs;
    }
  }

  /** The value the client compiler gives the k-th emitted enum literal. */
  function ClientValue(ms: seq<Member>, k: nat): int
    requires k < |ms|
  {
    match ms[k].init
    case Some(v) => v
    case None => if k == 0 then 0 else ClientValue(ms, k - 1) + 1
  }

  /** With the corrected rule every literal keeps its host value in the client. */
  lemma {:induction false} EnumValuesPreserved(t: HostType, fs: seq<EnumField>, k: nat)
    requires EnumMembers(t, fs).Ok? && k < |fs|
    ensures |EnumMembers(t, fs).value| == |fs| && ClientValue(EnumMembers(t, fs).value, k) == fs[k].value
  {
    EnumMemberAt(t, fs, k);
    if k > 0 {
      EnumValuesPreserved(t, fs, k - 1);
    }
  }

  /** The k-th literal as written: an initializer exactly when the value is not the position. */
  lemma {:induction false} EnumMemberAsWrittenAt(t: HostType, fs: seq<EnumField>, k: nat)
    requires EnumMembersAsWritten(t, fs).Ok? && k < |fs|
    ensures |EnumMembersAsWritten(t, fs).value| == |fs|
    ensures EnumMembersAsWritten(t, fs).value[k] ==
      EnumMember(t, fs[k], if fs[k].value != k then Some(fs[k].value) else None)
    decreases |fs|
  {
    var n := |fs| - 1;
    if k < n {
      EnumMemberAsWrittenAt(t, fs[..n], k);
      assert fs[..n][k] == fs[k];
    }
  }

  /** The corrected rule writes exactly what the source writes for an enum whenever the source's
      literals keep every value in the client, and only then. */
  lemma EnumRulesAgree(t: HostType, fs: seq<EnumField>)
    requires EnumMembersAsWritten(t, fs).Ok?
    ensures EnumMembers(t, fs).Ok?
    ensures var a := EnumMembersAsWritten(t, fs).value;
      |a| == |fs| &&
      (EnumMembers(t, fs).value == a <==> forall k :: 0 <= k < |fs| ==> ClientValue(a, k) == fs[k].value)
  {
    EnumMembersOk(t, fs);
    var a := EnumMembersAsWritten(t, fs).value;
    var m := EnumMembers(t, fs).value;
    if m == a {
      forall k | 0 <= k < |fs|
        ensures ClientValue(a, k) == fs[k].value
      {
        EnumValuesPreserved(t, fs, k);
      }
    }
    if forall k :: 0 <= k < |fs| ==> ClientValue(a, k) == fs[k].value {
      forall k | 0 <= k < |fs|
        ensures m[k] == a[k]
      {
        EnumMemberAt(t, fs, k);
        EnumMemberAsWrittenAt(t, fs, k);
        if fs[k].value == k {
          assert a[k].init.None?;
          if k > 0 {
            assert ClientValue(a, k) == ClientValue(a, k - 1) + 1;
          }
        }
      }
    }
  }

  /** The rule as written loses a value when an earlier literal had an explicit one: for
      enum { High = 3, Low = 1 } it emits "High = 3, Low", and the client's Low is 4. */
  lemma AsWrittenNumberingLosesValue(t: HostType)
    ensures var fs := [EnumField("High", 3), EnumField("Low", 1)];
      EnumMembersAsWritten(t, fs).Ok? && ClientValue(EnumMembersAsWritten(t, fs).value, 1) == 4
  {
    var fs := [EnumField("High", 3), EnumField("Low", 1)];
    var ms := EnumMembersAsWritten(t, fs).value;
    assert ms[0].init == Some(3) && ms[1].init == None;
  }

  /** One declaration: a class or struct with its base type and members (properties, then
      fields, each sorted by name), an enum with its literals in declared order, or none for any
      other kind of type. */
  function Declaration(tm: TypeMap, namespacesOfTypes: seq<string>, policy: MemberInfo -> CherryType, t: HostType)
    : (r: Result<Option<TypeDeclaration>>)
    ensures r.Ok? ==> (r.value.Some? <==> t.classOrStruct || t.isEnum)
    ensures r.Ok? && r.value.Some? ==> r.value.value.name == t.name && r.value.value.docKey == "T:" + t.fullName
  {
    if t.classOrStruct then
      var kind := if t.form.Generic? then GenericClassDecl else if t.isClass then ClassDecl else StructDecl;
      match BaseTypes(tm, namespacesOfTypes, t)
      case Err(e) => Err(e)
      case Ok(bases) =>
        match ClassMembers(tm, policy, t)
        case Err(e) => Err(e)
        case Ok(ms) => Ok(Some(TypeDeclaration(t.name, kind, bases, ms, "T:" + t.fullName)))
    else if t.isEnum then
      match EnumMembers(t, t.enumFields)
      case Err(e) => Err(e)
      case Ok(ms) => Ok(Some(TypeDeclaration(t.name, EnumDecl, [], ms, "T:" + t.fullName)))
    else
      Ok(None)
  }

  function DeclName(d: TypeDeclaration): string { d.name }

  /** The declarations of a list of types, in order, skipping the unsupported ones. */
  function Decls(tm: TypeMap, namespacesOfTypes: seq<string>, policy: MemberInfo -> CherryType, ts: seq<HostType>)
    : Result<seq<TypeDeclaration>>
    decreases |ts|
  {
    if ts == [] then Ok([])
    else
      var n := |ts| - 1;
      match Decls(tm, namespacesOfTypes, policy, ts[..n])
      case Err(e) => Err(e)
      case Ok(ds) =>
        match Declaration(tm, namespacesOfTypes, policy, ts[n])
        case Err(e) => Err(e)
        case Ok(None) => Ok(ds)
        case Ok(Some(d)) => Ok(ds + [d])
  }

  /** Once a prefix of the types fails, the whole list fails with the same error. */
  lemma {:induction false} DeclsAbort(tm: TypeMap, nss: seq<string>, policy: MemberInfo -> CherryType, ts: seq<HostType>, i: nat)
    requires i <= |ts| && Decls(tm, nss, policy, ts[..i]).Err?
    ensures Decls(tm, nss, policy, ts) == Decls(tm, nss, policy, ts[..i])
    decreases |ts|
  {
    if i < |ts| {
      var n := |ts| - 1;
      assert ts[..n][..i] == ts[..i];
      DeclsAbort(tm, nss, policy, ts[..n], i);
    } else {
      assert ts[..i] == ts;
    }
  }

  /** A declaration list succeeds exactly when every type's declaration does. */
  lemma {:induction false} DeclsOk(tm: TypeMap, nss: seq<string>, policy: MemberInfo -> CherryType, ts: seq<HostType>)
    ensures Decls(tm, nss, policy, ts).Ok? <==> forall i :: 0 <= i < |ts| ==> Declaration(tm, nss, policy, ts[i]).Ok?
    decreases |ts|
  {
    if ts != [] {
      var n := |ts| - 1;
      DeclsOk(tm, nss, policy, ts[..n]);
      assert forall i :: 0 <= i < n ==> ts[..n][i] == ts[i];
    }
  }

  /** Every supported type's declaration is in a successful declaration list. */
  lemma {:induction false} DeclsComplete(tm: TypeMap, nss: seq<string>, policy: MemberInfo -> CherryType, ts: seq<HostType>, i: nat)
    requires Decls(tm, nss, policy, ts).Ok? && i < |ts|
    ensures Declaration(tm, nss, policy, ts[i]).Ok?
    ensures Declaration(tm, nss, policy, ts[i]).value.Some? ==>
      Declaration(tm, nss, policy, ts[i]).value.value in Decls(tm, nss, policy, ts).value
    decreases |ts|
  {
    var n := |ts| - 1;
    if i < n {
      DeclsComplete(tm, nss, policy, ts[..n], i);
      assert ts[..n][i] == ts[i];
    }
  }

  /** Every declaration in a successful list is the declaration of one of the types. */
  lemma {:induction false} DeclsSound(tm: TypeMap, nss: seq<string>, policy: MemberInfo -> CherryType, ts: seq<HostType>, d: TypeDeclaration)
    requires Decls(tm, nss, policy, ts).Ok? && d in Decls(tm, nss, policy, ts).value
    ensures exists i :: 0 <= i < |ts| && Declaration(tm, nss, policy, ts[i]) == Ok(Some(d))
    decreases |ts|
  {
    var n := |ts| - 1;
    if d in Decls(tm, nss, policy, ts[..n]).value {
      DeclsSound(tm, nss, policy, ts[..n], d);
      var i :| 0 <= i < n && Declaration(tm, nss, policy, ts[..n][i]) == Ok(Some(d));
      assert ts[..n][i] == ts[i];
    } else {
      assert Declaration(tm, nss, policy, ts[n]) == Ok(Some(d));
    }
  }

  /** The kinds of type that get a declaration. */
  predicate Supported(t: HostType) {
    t.classOrStruct || t.isEnum
  }

  /** The supported types of a list, in order. */
  function SupportedOf(ts: seq<HostType>): seq<HostType>
    decreases |ts|
  {
    if ts == [] then []
    else
      var n := |ts| - 1;
      SupportedOf(ts[..n]) + (if Supported(ts[n]) then [ts[n]] else [])
  }

  /** Every supported type occurs among the supported types as often as in the list. */
  lemma {:induction false} SupportedOfCount(ts: seq<HostType>)
    ensures forall t :: multiset(SupportedOf(ts))[t] == if Supported(t) then multiset(ts)[t] else 0
    decreases |ts|
  {
    if ts != [] {
      var n := |ts| - 1;
      assert ts == ts[..n] + [ts[n]];
      SupportedOfCount(ts[..n]);
    }
  }

  /** A successful declaration list holds one declaration per supported type, position by
      position. */
  lemma {:induction false} DeclsAt(tm: TypeMap, nss: seq<string>, policy: MemberInfo -> CherryType, ts: seq<HostType>, j: nat)
    requires Decls(tm, nss, policy, ts).Ok? && j < |SupportedOf(ts)|
    ensures |Decls(tm, nss, policy, ts).value| == |SupportedOf(ts)|
    ensures Declaration(tm, nss, policy, SupportedOf(ts)[j]) == Ok(Some(Decls(tm, nss, policy, ts).value[j]))
    decreases |ts|
  {
    var n := |ts| - 1;
    DeclsLength(tm, nss, policy, ts[..n]);
    if j < |SupportedOf(ts[..n])| {
      DeclsAt(tm, nss, policy, ts[..n], j);
    }
  }

  lemma {:induction false} DeclsLength(tm: TypeMap, nss: seq<string>, policy: MemberInfo -> CherryType, ts: seq<HostType>)
    requires Decls(tm, nss, policy, ts).Ok?
    ensures |Decls(tm, nss, policy, ts).value| == |SupportedOf(ts)|
    decreases |ts|
  {
    if ts != [] {
      DeclsLength(tm, nss, policy, ts[..|ts| - 1]);
    }
  }

  function NamespacesOf(types: seq<HostType>): (r: seq<string>)
    ensures |r| == |types| && forall i :: 0 <= i < |types| ==> r[i] == types[i].ns
  {
    seq(|types|, i requires 0 <= i < |types| => types[i].ns)
  }

  /** The namespaces of the run, each once, in ascending order. */
  function NamespaceKeys(types: seq<HostType>): seq<string>
  {
    SortBy(Distinct(NamespacesOf(types)), Self)
  }

  /** Every namespace of the run is a key, once, and the keys ascend. */
  lemma NamespaceKeysSpec(types: seq<HostType>)
    ensures var keys := NamespaceKeys(types);
      SortedBy(keys, Self) && NoDuplicates(keys) &&
      (forall t :: t in types ==> t.ns in keys) &&
      (forall k :: k in keys ==> k in NamespacesOf(types))
  {
    var d := Distinct(NamespacesOf(types));
    var keys := SortBy(d, Self);
    DistinctSpec(NamespacesOf(types));
    SortBySorted(d, Self);
    SortByPermutes(d, Self);
    SortByMembers(d, Self);
    PermutationKeepsNoDuplicates(d, keys);
    forall t | t in types
      ensures t.ns in keys
    {
      var i :| 0 <= i < |types| && types[i] == t;
      assert NamespacesOf(types)[i] == t.ns;
    }
  }

  /** The namespace keys are the only ascending enumeration, without repetitions, of the run's
      namespaces. */
  lemma NamespaceKeysUnique(types: seq<HostType>, other: seq<string>)
    requires SortedBy(other, Self) && NoDuplicates(other)
    requires forall k :: k in other <==> exists t :: t in types && t.ns == k
    ensures other == NamespaceKeys(types)
  {
    var keys := NamespaceKeys(types);
    NamespaceKeysSpec(types);
    forall k
      ensures k in keys <==> k in other
    {
      if k in keys {
        var i :| 0 <= i < |types| && NamespacesOf(types)[i] == k;
        assert types[i] in types;
      }
    }
    SortedUnique(keys, other);
  }

  /** The types of one namespace, ordered by name. */
  function GroupOf(types: seq<HostType>, key: string): seq<HostType>
    decreases |types|
  {
    if types == [] then []
    else
      var n := |types| - 1;
      var g := GroupOf(types[..n], key);
      if types[n].ns != key then g else Insert(types[n], g, TypeName)
  }

  /** A group holds exactly the types of its namespace, ordered by name. */
  lemma {:induction false} GroupOfSpec(types: seq<HostType>, key: string)
    ensures SortedBy(GroupOf(types, key), TypeName)
    ensures forall t :: t in GroupOf(types, key) <==> t in types && t.ns == key
    ensures forall t :: multiset(GroupOf(types, key))[t] == if t.ns == key then multiset(types)[t] else 0
    decreases |types|
  {
    if types != [] {
      var n := |types| - 1;
      assert types == types[..n] + [types[n]];
      var g := GroupOf(types[..n], key);
      GroupOfSpec(types[..n], key);
      if types[n].ns == key {
        var r := Insert(types[n], g, TypeName);
        InsertSorted(types[n], g, TypeName);
        InsertPermutes(types[n], g, TypeName);
        assert forall t :: t in r <==> t in multiset(r);
        assert forall t :: t in g <==> t in multiset(g);
      }
    }
  }

  /** The namespace block of one key: named key + suffix, holding its types' declarations. */
  function Block(tm: TypeMap, types: seq<HostType>, policy: MemberInfo -> CherryType, nsSuffix: string,
                 namespacesOfTypes: seq<string>, key: string): (r: Result<CodeNamespace>)
    ensures r.Ok? ==> r.value.name == key + nsSuffix
  {
    match Decls(tm, namespacesOfTypes, policy, GroupOf(types, key))
    case Err(e) => Err(e)
    case Ok(ds) => Ok(CodeNamespace(key + nsSuffix, ds))
  }

  /** One block per key, in the keys' order; the first failing block aborts the run. */
  function Blocks(tm: TypeMap, types: seq<HostType>, policy: MemberInfo -> CherryType, nsSuffix: string,
                  namespacesOfTypes: seq<string>, keys: seq<string>): Result<seq<CodeNamespace>>
  {
    Collect(seq(|keys|, i requires 0 <= i < |keys| => Block(tm, types, policy, nsSuffix, namespacesOfTypes, keys[i])))
  }

  /** The run succeeds when every block does, and then holds the blocks in the keys' order. */
  lemma BlocksSpec(tm: TypeMap, types: seq<HostType>, policy: MemberInfo -> CherryType, nsSuffix: string,
                   namespacesOfTypes: seq<string>, keys: seq<string>)
    ensures var r := Blocks(tm, types, policy, nsSuffix, namespacesOfTypes, keys);
      (r.Ok? <==> forall i :: 0 <= i < |keys| ==> Block(tm, types, policy, nsSuffix, namespacesOfTypes, keys[i]).Ok?) &&
      (r.Ok? ==> |r.value| == |keys| && forall i :: 0 <= i < |keys| ==>
        Block(tm, types, policy, nsSuffix, namespacesOfTypes, keys[i]) == Ok(r.value[i]))
  {
    var rs := seq(|keys|, i requires 0 <= i < |keys| => Block(tm, types, policy, nsSuffix, namespacesOfTypes, keys[i]));
    assert forall i :: 0 <= i < |keys| ==> rs[i] == Block(tm, types, policy, nsSuffix, namespacesOfTypes, keys[i]);
  }

  /** The namespace blocks one run appends to the compile unit. The type map carries the
      generator's suffix field; nsSuffix is the run's suffix argument. */
  function Emit(tm: TypeMap, types: seq<HostType>, policy: MemberInfo -> CherryType, nsSuffix: string)
    : Result<seq<CodeNamespace>>
  {
    var keys := NamespaceKeys(types);
    Blocks(tm, types, policy, nsSuffix, keys, keys)
  }
}
