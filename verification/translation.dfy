/** The type-reference translator: from a host type to the CodeTypeReference the generated
    client code uses for it. The only state it reads is the generator's list of pending types
    (those being mirrored) and its namespace suffix field, gathered here in a Context. */
module TypeTranslation {
  import opened Wrappers
  import opened Reflection
  import opened CodeDom

  datatype Context = Context(pending: seq<HostType>, suffix: string)

  const NullableDefinition: string := "System.Nullable`1"
  const TaskDefinition: string := "System.Threading.Tasks.Task`1"
  const IDictionaryDefinition: string := "System.Collections.Generic.IDictionary`2"
  const KeyValuePairDefinition: string := "System.Collections.Generic.KeyValuePair`2"

  /** typeof(Nullable).FullName and typeof(Dictionary<,>).FullName */
  const NullableName: string := "System.Nullable"
  const DictionaryName: string := "System.Collections.Generic.Dictionary`2"

  const HttpResponseMessageName: string := "System.Net.Http.HttpResponseMessage"
  const JObjectName: string := "Newtonsoft.Json.Linq.JObject"

  /** Full names of the response wrappers that the client sees as a raw HTTP response. */
  const HttpResponseWrappers: set<string> := {
    "System.Web.Http.IHttpActionResult",
    "Microsoft.AspNetCore.Mvc.IActionResult",
    "Microsoft.AspNetCore.Mvc.ActionResult",
    "System.Net.Http.HttpResponseMessage"
  }

  /** TypeHelper.TupleTypeNames, slot i naming the tuple of arity i + 1. */
  const TupleTypeNames: seq<string> := [
    "System.Tuple`1", "System.Tuple`2", "System.Tuple`3", "System.Tuple`4",
    "System.Tuple`5", "System.Tuple`6", "System.Tuple`7", "System.Tuple`8"
  ]

  /** The client-side qualified name of a mirrored type. */
  function RefineCustomComplexTypeText(suffix: string, ns: string, name: string): string
  {
    ns + suffix + "." + name
  }

  /** The entry point, which accepts a null type. */
  function TranslateToClientTypeReference(ctx: Context, t: Option<HostType>): (r: Result<Option<TypeRef>>)
    ensures t.None? ==> r == Ok(None)
    ensures t.Some? ==> (r.Ok? <==> Translate(ctx, t.value).Ok?)
    ensures t.Some? && r.Ok? ==> r.value == Some(Translate(ctx, t.value).value)
  {
    match t
    case None => Ok(None)
    case Some(h) =>
      match Translate(ctx, h)
      case Ok(ref) => Ok(Some(ref))
      case Err(e) => Err(e)
  }

  /** The translation of a non-null type; the first matching rule wins. */
  function Translate(ctx: Context, t: HostType): Result<TypeRef>
    decreases t, 2
  {
    if t in ctx.pending then
      Ok(Named(RefineCustomComplexTypeText(ctx.suffix, t.ns, t.name), []))
    else if t.form.Generic? then
      TranslateGenericToTypeReference(ctx, t)
    else if t.form.ArrayOf? then
      CreateArrayTypeReference(ctx, t.form.element, t.form.rank)
    else
      Ok(Substitute(t))
  }

  /** The last rules, for a plain type: well-known response wrappers, the untyped object, and
      otherwise the type itself. */
  function Substitute(t: HostType): TypeRef
  {
    if t.fullName in HttpResponseWrappers then Named(HttpResponseMessageName, [])
    else if t.fullName == "System.Object" && t.serializable then Named(JObjectName, [])
    else RawRef(t)
  }

  function TranslateGenericToTypeReference(ctx: Context, t: HostType): Result<TypeRef>
    requires t.form.Generic?
    decreases t, 1
  {
    var def := t.form.definition;
    var args := t.form.arguments;
    if def.fullName == NullableDefinition then
      if |args| == 0 then Err(IndexOutOfRange)
      else
        match Translate(ctx, args[0])
        case Ok(a) => Ok(Named(NullableName, [a]))
        case Err(e) => Err(e)
    else if def.fullName == TaskDefinition then
      if |args| == 0 then Err(IndexOutOfRange)
      else Translate(ctx, args[0])
    else if def.arrayLike then
      // GenericTypeArguments, unlike GetGenericArguments, is empty on an open definition
      if t.form.isDefinition || |args| == 0 then Err(IndexOutOfRange)
      else CreateArrayTypeReference(ctx, args[0], 1)
    else if def.tupleIndex >= 0 then
      if def.tupleIndex >= |TupleTypeNames| then Err(InvalidOperation)
      else
        match TranslateArguments(ctx, t, def.tupleIndex + 1)
        case Ok(rs) => Ok(Named(TupleTypeNames[def.tupleIndex], rs))
        case Err(e) => Err(e)
    else if |args| == 2 && (def.fullName == IDictionaryDefinition || t.form.assignableToDictionary) then
      match TranslateArguments(ctx, t, 2)
      case Ok(rs) => Ok(Named(DictionaryName, rs))
      case Err(e) => Err(e)
    else if |args| == 2 && def.fullName == KeyValuePairDefinition then
      match TranslateArguments(ctx, t, 2)
      case Ok(rs) => Ok(Named(KeyValuePairDefinition, rs))
      case Err(e) => Err(e)
    else
      match TranslateArguments(ctx, t, |args|)
      case Ok(rs) => Ok(Named(RefineCustomComplexTypeText(ctx.suffix, def.ns, def.name), rs))
      case Err(e) => Err(e)
  }

  /** Translates argument slots 0 .. n-1 in order; reading a slot past the end of the
      argument array raises IndexOutOfRange. */
  function TranslateArguments(ctx: Context, t: HostType, n: nat): Result<seq<TypeRef>>
    requires t.form.Generic?
    decreases t, 0
  {
    var args := t.form.arguments;
    Collect(seq(n, j requires 0 <= j < n =>
      if j < |args| then Translate(ctx, args[j]) else Err(IndexOutOfRange)))
  }

  function CreateArrayTypeReference(ctx: Context, elementType: HostType, arrayRank: nat): Result<TypeRef>
    decreases elementType, 3
  {
    if elementType in ctx.pending then
      Ok(CreateArrayOfCustomTypeReference(ctx, elementType, arrayRank))
    else
      match Translate(ctx, elementType)
      case Ok(e) => Ok(ArrayRef(e, arrayRank))
      case Err(err) => Err(err)
  }

  function CreateArrayOfCustomTypeReference(ctx: Context, elementType: HostType, arrayRank: nat): TypeRef
  {
    ArrayRef(Named(RefineCustomComplexTypeText(ctx.suffix, elementType.ns, elementType.name), []), arrayRank)
  }

  /** What the declaration emitter needs of the translator: the suffix it appends to the
      namespace of a mirrored type, and the translation of a type reference. */
  datatype TypeMap = TypeMap(suffix: string, reference: HostType -> Result<TypeRef>)

  /** The translator of a context, as the emitter sees it. */
  function MapOf(ctx: Context): TypeMap
  {
    TypeMap(ctx.suffix, t => Translate(ctx, t))
  }
}
