/** A read-only snapshot of what the generator asks .NET reflection about a type.
    Verdicts of helpers outside the generator (TypeHelper.IsArrayType, TypeHelper.IsTuple,
    TypeHelper.IsClassOrStruct, the IDictionary<K,V> assignability test) are recorded as fields. */
module Reflection {
  import opened Wrappers

  /** What GetGenericTypeDefinition returns. Its identity is its full name (for example
      "System.Nullable`1"); `arrayLike` is TypeHelper.IsArrayType's verdict and `tupleIndex`
      TypeHelper.IsTuple's (negative when it is not a tuple). */
  datatype GenericDefinition = GenericDefinition(
    ns: string,
    name: string,
    fullName: string,
    arrayLike: bool,
    tupleIndex: int)

  /** The structural shape of a type: IsGenericType and IsArray never hold together. */
  datatype Form =
    | Plain
      /** `arguments` is GetGenericArguments(); `isDefinition` holds for an open generic type
          definition, whose GenericTypeArguments is empty; `assignableToDictionary` records whether
          IDictionary<arg0, arg1> IsAssignableFrom the type. */
    | Generic(definition: GenericDefinition, arguments: seq<HostType>, isDefinition: bool, assignableToDictionary: bool)
    | ArrayOf(element: HostType, rank: nat)

  /** A host type. The namespace of a type in the global namespace is "" (null in .NET, which
      behaves the same under string concatenation and sorts first). */
  datatype HostType = HostType(
    ns: string,
    name: string,
    fullName: string,
    form: Form,
    isClass: bool,
    isValueType: bool,
    isEnum: bool,
    classOrStruct: bool,
    serializable: bool,
    baseType: Option<HostType>,
    properties: seq<MemberInfo>,    // declared-only public instance properties, in reflection order
    fields: seq<MemberInfo>,        // declared-only public instance fields, in reflection order
    enumFields: seq<EnumField>)     // public static fields (the enum literals), in declared order

  /** A property or field: its name, its declared type and the attributes the cherry-picking
      policy may inspect. */
  datatype MemberInfo = MemberInfo(name: string, memberType: HostType, attributes: seq<string>)

  /** An enum literal and its underlying integral value (any width, so unbounded here). */
  datatype EnumField = EnumField(name: string, value: int)

  /** How the cherry-picking policy exposes a member. */
  datatype CherryType = Excluded | Cherry | BigCherry

  const Int32Min: int := -0x8000_0000
  const Int32Max: int := 0x7FFF_FFFF

  /** Whether Convert.ChangeType(value, typeof(int)) succeeds. */
  predicate InInt32(v: int) {
    Int32Min <= v <= Int32Max
  }

  function MemberName(m: MemberInfo): string { m.name }

  function TypeName(t: HostType): string { t.name }
}
