/** The part of System.CodeDom the generator builds: type references, members, type
    declarations, namespaces and the compile unit that collects them. */
module CodeDom {
  import opened Wrappers
  import opened Reflection

  /** A CodeTypeReference, by the constructor that made it. */
  datatype TypeRef =
      /** new CodeTypeReference(baseType, typeArguments...) */
    | Named(baseType: string, typeArguments: seq<TypeRef>)
      /** new CodeTypeReference(new CodeTypeReference(), rank) { ArrayElementType = elementType } */
    | ArrayRef(elementType: TypeRef, rank: nat)
      /** new CodeTypeReference(type): the host type itself, spelled by the printer */
    | RawRef(host: HostType)

  /** A CodeMemberField: its name, type, custom attributes, optional primitive initializer, and
      the documentation key ("P:…", "F:…") under which its doc comment is looked up. */
  datatype Member = Member(
    name: string,
    typeRef: TypeRef,
    customAttributes: seq<string>,
    init: Option<int>,
    docKey: string)

  /** Which PodGenHelper factory created the declaration. */
  datatype DeclKind = GenericClassDecl | ClassDecl | StructDecl | EnumDecl

  datatype TypeDeclaration = TypeDeclaration(
    name: string,
    kind: DeclKind,
    baseTypes: seq<TypeRef>,
    members: seq<Member>,
    docKey: string)

  datatype CodeNamespace = CodeNamespace(name: string, types: seq<TypeDeclaration>)

  const RequiredAttribute: string := "System.ComponentModel.DataAnnotations.RequiredAttribute"

  /** The output document; several generators may share one. */
  class CodeCompileUnit {
    var namespaces: seq<CodeNamespace>

    constructor ()
      ensures namespaces == []
    {
      namespaces := [];
    }
  }
}
