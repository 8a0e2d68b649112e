# Poco2CsGen: the C# client data-type generator, in Dafny

`Fonlow.Poco2Client.Poco2CsGen` mirrors server-side .NET types (POCOs) as C# client types in a
System.CodeDom compile unit. This project models the two parts of that class that decide what
gets generated.

* **The type-reference translator** (`TranslateToClientTypeReference` and its helpers). It maps a
  host type to the `CodeTypeReference` that client code uses:
  * a type being mirrored becomes `<namespace><suffix>.<name>`;
  * `Nullable<T>` becomes `System.Nullable` over T;
  * `Task<T>` is erased to T;
  * arrays and array-like generics become array references over their element;
  * the eight tuple arities keep their tuple names;
  * dictionaries become `Dictionary<,>`, and `KeyValuePair<,>` stays as it is;
  * any other generic becomes its definition's client name over its translated arguments;
  * HTTP result wrappers become `HttpResponseMessage`, and a serializable `System.Object`
    becomes `JObject`;
  * anything else is referred to as itself.
* **The declaration emitter** (`CreateCodeDom`). It records the types as pending and groups them
  by namespace, in ascending key order, adding one `CodeNamespace` per group. For each type,
  ordered by name, it emits:
  * a class or struct with its base type, then its cherry-picked properties and fields, each
    list sorted by name;
  * or an enum with its literals in declared order;
  * or nothing, for any other kind of type.

Reflection is modelled as a read-only value, `Reflection.HostType`. The generated CodeDOM is
modelled as plain datatypes (`CodeDom`). The exceptions the core can raise are error values of a
`Result`:

* `IndexOutOfRange` when a generic argument slot is missing;
* `InvalidOperation` for a tuple index past 7;
* `Overflow` when an enum value does not fit in an `int`;
* `NullReference` when a class has no base type.

The translator is a family of pure functions (`TypeTranslation`), with one lemma per rule and
properties over all host types (`TranslationRules`). What one emitter run produces is specified
by functions (`Emission`), and the guarantees of a successful run are stated as lemmas
(`EmissionRules`). The generator itself is the class `Poco2Client.Poco2CsGen`:

* its fields are `pendingTypes` and `clientNamespaceSuffix`, and it holds the shared
  `CodeCompileUnit`;
* its methods follow the source's loops;
* each method is proved to build exactly the value the `Emission` functions specify.

The emission functions take the translator as a parameter, a `TypeMap`: the suffix and a
reference function. The generator passes `MapOf` of its own state. Everything `Emission` and
`EmissionRules` prove therefore holds for any translator. Only the lemmas that talk about
references resolving to declarations use `MapOf(ctx)`.

### The suffix field and the suffix argument

The `Type[]` overload of `CreateCodeDom` names each namespace block with its
`clientNamespaceSuffix` **argument**. References to pending types, including base types, are
built by `RefineCustomComplexTypeText`, which reads the **field** of the same name. That overload
never assigns the field; only the `Assembly` overload does, before it delegates
(Poco2CsGen.cs:93-99). Called directly on a fresh generator, the `Type[]` overload therefore
names its blocks with the suffix but refers to its own types without it.

`EmissionRules.UnsyncedSuffixMisroutes` proves that such a reference never names the block that
declares the type. `EmissionRules.MirroredReferencesResolve` and
`Poco2Client.Poco2CsGen.CreateCodeDomForAssembly` prove that the two agree once the field equals
the argument. The model keeps this behaviour as written: `Poco2Client.Poco2CsGen.CreateCodeDom`
leaves the field unchanged.

## Model

| member | source | states |
|---|---|---|
| Wrappers.Collect | Fonlow.Poco2TsShared/Poco2CsGen.cs:521 | An argument row evaluated left to right succeeds iff every computation does; it then holds their values in order; otherwise its error is that of the first failing computation |
| Wrappers.CollectFirstError | Fonlow.Poco2TsShared/Poco2CsGen.cs:436-490 | When every slot before slot i succeeds and slot i fails, the row fails with slot i's exception |
| Ordering.SortByPermutes | Fonlow.Poco2TsShared/Poco2CsGen.cs:178 | OrderBy by a string key returns a permutation of its input (same multiset) |
| Ordering.SortBySorted | Fonlow.Poco2TsShared/Poco2CsGen.cs:178 | OrderBy's result is ordered by the key |
| Ordering.SortByMembers | Fonlow.Poco2TsShared/Poco2CsGen.cs:209 | OrderBy keeps exactly the elements of its input |
| Ordering.DistinctSpec | Fonlow.Poco2TsShared/Poco2CsGen.cs:167-168 | GroupBy's keys have no repetitions, and a value is a key iff it occurs in the input |
| Ordering.SortedUnique | Fonlow.Poco2TsShared/Poco2CsGen.cs:169 | Two ascending lists without repetitions that hold the same strings are equal, so ordering distinct keys has one result |
| TypeTranslation.TranslateToClientTypeReference | Fonlow.Poco2TsShared/Poco2CsGen.cs:369-372 | A null type yields a null reference without error; a non-null type yields exactly its translation and fails exactly when the translation does |
| TranslationRules.PendingTakesPrecedence | Fonlow.Poco2TsShared/Poco2CsGen.cs:374-375 | A pending type, whatever its shape, becomes namespace + suffix field + "." + name |
| TranslationRules.NullableRule | Fonlow.Poco2TsShared/Poco2CsGen.cs:412-416 | Nullable of T becomes System.Nullable over T's translation, and fails iff T's translation fails |
| TranslationRules.TaskErasure | Fonlow.Poco2TsShared/Poco2CsGen.cs:418-421 | Task of T translates exactly as T |
| TranslationRules.ArrayElementIsTranslated | Fonlow.Poco2TsShared/Poco2CsGen.cs:530-552 | Both branches of CreateArrayTypeReference give an array reference over the element's translation, and the reference succeeds iff that translation does |
| TranslationRules.ArrayRule | Fonlow.Poco2TsShared/Poco2CsGen.cs:380-386 | A CLR array of rank r becomes an array reference of rank r over its element's translation; a pending element is referred to by its suffixed client name |
| TranslationRules.ArrayLikeRule | Fonlow.Poco2TsShared/Poco2CsGen.cs:424-429 | A closed array-like generic becomes a rank-1 array of its first argument's translation |
| TranslationRules.ArrayLikeDefinitionFails | Fonlow.Poco2TsShared/Poco2CsGen.cs:426-427 | An open array-like definition has no GenericTypeArguments, so it throws IndexOutOfRange |
| TranslationRules.TupleRule | Fonlow.Poco2TsShared/Poco2CsGen.cs:431-490 | Tuple index i in 0..7 gives TupleTypeNames[i] over the translations of the first i+1 arguments, in order; it succeeds iff each of them translates |
| TranslationRules.TupleTooFewArguments | Fonlow.Poco2TsShared/Poco2CsGen.cs:436-490 | A tuple with fewer arguments than its index reads throws IndexOutOfRange when the present arguments translate (the arity checks are only Debug.Assert) |
| TranslationRules.UnknownTupleIndex | Fonlow.Poco2TsShared/Poco2CsGen.cs:491-492 | A tuple index of 8 or more throws InvalidOperation |
| TranslationRules.DictionaryRule | Fonlow.Poco2TsShared/Poco2CsGen.cs:497-510 | A two-argument IDictionary, or a type assignable to IDictionary of its two arguments, becomes Dictionary`2 over both translated arguments, and fails iff either argument fails |
| TranslationRules.KeyValuePairRule | Fonlow.Poco2TsShared/Poco2CsGen.cs:512-516 | KeyValuePair of K and V stays KeyValuePair`2 over the translations of K and V |
| TranslationRules.GenericFallback | Fonlow.Poco2TsShared/Poco2CsGen.cs:521 | Any other generic becomes its definition's namespace + suffix + "." + name over all of its arguments translated in order; it succeeds iff each argument does |
| TranslationRules.SubstitutionRule | Fonlow.Poco2TsShared/Poco2CsGen.cs:387-403 | A plain type: the four HTTP result wrappers become HttpResponseMessage, a serializable System.Object becomes JObject, and anything else is referred to as itself |
| TranslationRules.TranslateTotal | Fonlow.Poco2TsShared/Poco2CsGen.cs:369-523 | On every host type whose array-like generics are closed, whose Nullable and Task carry an argument and whose tuples carry exactly their arity (`WellFormed`), the translator throws nothing; an open array-like definition, which .NET does produce, throws instead (`ArrayLikeDefinitionFails`) |
| TranslationRules.ArgumentsTranslate | Fonlow.Poco2TsShared/Poco2CsGen.cs:521 | An argument row that reads only existing slots, all of which translate, succeeds |
| TranslationRules.RawReferencesArePlain | Fonlow.Poco2TsShared/Poco2CsGen.cs:369-552 | A translation never passes a pending, generic or array type through as a raw host reference, at any depth |
| TranslationRules.ArgumentsRawOnlyPlain | Fonlow.Poco2TsShared/Poco2CsGen.cs:521 | The same property, for each translated argument of a generic |
| Emission.CreateProperty | Fonlow.Poco2TsShared/Poco2CsGen.cs:356-367 | The property succeeds iff its type translates, and its type is that translation |
| Emission.CreatePropertyShape | Fonlow.Poco2TsShared/Poco2CsGen.cs:362-364 | The member name is the given name followed by " { get; set; }//"; it has no attribute and no initializer |
| Emission.MemberFor | Fonlow.Poco2TsShared/Poco2CsGen.cs:229-235 | A kept member succeeds iff its declared type translates, and its type is that translation |
| Emission.MemberForShape | Fonlow.Poco2TsShared/Poco2CsGen.cs:275-306 | A property or a class field gets the accessor-pair name and a struct field keeps its name; RequiredAttribute is present iff the policy says BigCherry and the member is not a struct field; no initializer |
| Emission.KeptMembers | Fonlow.Poco2TsShared/Poco2CsGen.cs:212-214 | Exactly the members the policy does not exclude are kept, each as many times as it occurs in the input, and no more members than the input has |
| Emission.KeptSorted | Fonlow.Poco2TsShared/Poco2CsGen.cs:210-214 | Skipping excluded members keeps name order |
| Emission.KeptInNameOrder | Fonlow.Poco2TsShared/Poco2CsGen.cs:209-214 | The members a declaration lists are exactly the non-excluded ones, each as many times as it occurs, in ascending name order |
| Emission.MemberListOk | Fonlow.Poco2TsShared/Poco2CsGen.cs:210-251 | A member loop succeeds iff every kept member's type translates, and then emits one member per kept member |
| Emission.MemberListLength | Fonlow.Poco2TsShared/Poco2CsGen.cs:210-251 | A successful member loop emits one member per kept member |
| Emission.MemberAt | Fonlow.Poco2TsShared/Poco2CsGen.cs:250 | The i-th emitted member is the one made for the i-th kept member |
| Emission.MemberAtOffset | Fonlow.Poco2TsShared/Poco2CsGen.cs:296 | The same, for a loop that appends after earlier members |
| Emission.SecondListAt | Fonlow.Poco2TsShared/Poco2CsGen.cs:253-312 | After the property loop, the i-th kept field gives the member at position (number of kept properties) + i |
| Emission.MemberListSpec | Fonlow.Poco2TsShared/Poco2CsGen.cs:210-251 | The member loop as a whole: success iff every kept member translates, and then one member per kept member, in order |
| Emission.MemberListAbort | Fonlow.Poco2TsShared/Poco2CsGen.cs:210-251 | The first exception in a member loop is the loop's result |
| Emission.BaseTypes | Fonlow.Poco2TsShared/Poco2CsGen.cs:195-205 | A value type gets no base list; a null BaseType throws NullReference; a base whose namespace is one of the run's becomes the single reference namespace + suffix field + "." + name; any other base is referred to as itself, unchanged |
| Emission.EnumMembersAsWritten | Fonlow.Poco2TsShared/Poco2CsGen.cs:320-338 | As written: fails iff a value is outside the int range; otherwise one literal per field, same name, typed as the enum, with an initializer iff the value differs from the literal's position, and that initializer is the value |
| Emission.EnumMemberAsWrittenAt | Fonlow.Poco2TsShared/Poco2CsGen.cs:326-333 | The k-th literal as written is the k-th field, initialized with its value iff the value differs from its position |
| Emission.EnumMembersOk | Fonlow.Poco2TsShared/Poco2CsGen.cs:324 | The generator's literals fail iff some value does not fit in an int; on success there is one literal per field |
| Emission.EnumMemberAt | Fonlow.Poco2TsShared/Poco2CsGen.cs:328-333 | The k-th literal mirrors the k-th field and has an initializer iff its value differs from its position or from the value C# implies |
| Emission.EnumMembersSpec | Fonlow.Poco2TsShared/Poco2CsGen.cs:320-338 | The generator's literals: one per field, in declared order, same name, typed as the enum, initialized iff the value differs from the position (the source's rule) or from the implied value, and then with the value |
| Emission.EnumMembersAbort | Fonlow.Poco2TsShared/Poco2CsGen.cs:324 | The first overflowing value decides the enum's result |
| Emission.EnumValuesPreserved | Fonlow.Poco2TsShared/Poco2CsGen.cs:326 | With the generator's rule, the client compiler gives every literal its host value |
| Emission.AsWrittenNumberingLosesValue | Fonlow.Poco2TsShared/Poco2CsGen.cs:326 | As written, for enum { High = 3, Low = 1 } the client's Low is 4 |
| Emission.EnumRulesAgree | Fonlow.Poco2TsShared/Poco2CsGen.cs:320-338 | When the source's literals are built, so are the generator's, and the two are identical iff the source's literals keep every value in the client |
| Emission.Declaration | Fonlow.Poco2TsShared/Poco2CsGen.cs:183-348 | A declaration exists iff the type is a class, a struct or an enum; it is named as the type, with doc key "T:" + full name |
| Emission.DeclsAbort | Fonlow.Poco2TsShared/Poco2CsGen.cs:178-350 | The first exception among a group's declarations is the group's result |
| Emission.DeclsOk | Fonlow.Poco2TsShared/Poco2CsGen.cs:178-350 | A group succeeds iff each of its types' declarations does |
| Emission.DeclsComplete | Fonlow.Poco2TsShared/Poco2CsGen.cs:178-350 | Every supported type's declaration is in its group's output |
| Emission.DeclsSound | Fonlow.Poco2TsShared/Poco2CsGen.cs:342-348 | Every declaration in the output comes from one of the group's types (unsupported types add nothing) |
| Emission.DeclsAt | Fonlow.Poco2TsShared/Poco2CsGen.cs:178-350 | A successful group has one declaration per supported type, in order: the j-th declaration is that of the j-th supported type |
| Emission.DeclsLength | Fonlow.Poco2TsShared/Poco2CsGen.cs:342-348 | A successful group has as many declarations as supported types; unsupported types add none |
| Emission.SupportedOfCount | Fonlow.Poco2TsShared/Poco2CsGen.cs:184-346 | Every class, struct or enum occurs among the supported types as many times as in the list, and no other type occurs there |
| Emission.NamespaceKeysSpec | Fonlow.Poco2TsShared/Poco2CsGen.cs:167-170 | namespacesOfTypes is ascending, without repetitions, contains every type's namespace, and contains only those |
| Emission.NamespaceKeysUnique | Fonlow.Poco2TsShared/Poco2CsGen.cs:167-170 | namespacesOfTypes is the only ascending, repetition-free list of the run's namespaces |
| Emission.GroupOfSpec | Fonlow.Poco2TsShared/Poco2CsGen.cs:167-178 | A group holds exactly the types of its namespace, each as many times as it occurs in the run, ordered by name |
| Emission.Block | Fonlow.Poco2TsShared/Poco2CsGen.cs:173-175 | A block is named key + suffix argument |
| Emission.BlocksSpec | Fonlow.Poco2TsShared/Poco2CsGen.cs:171-351 | A run succeeds iff every block does, and then holds one block per key, in key order |
| EmissionRules.ClassDeclaration | Fonlow.Poco2TsShared/Poco2CsGen.cs:184-205 | Generic types get the generic-class factory, other classes the class factory, structs the struct factory; the base list is exactly BaseTypes' list (none for a value type, one entry otherwise); the members are the class members |
| EmissionRules.ClassProperties | Fonlow.Poco2TsShared/Poco2CsGen.cs:209-251 | The declaration's members start with one auto-property per kept property, in name order |
| EmissionRules.ClassMembersCount | Fonlow.Poco2TsShared/Poco2CsGen.cs:209-312 | A declaration has exactly one member per kept property plus one per kept field |
| EmissionRules.ClassFieldAt | Fonlow.Poco2TsShared/Poco2CsGen.cs:253-312 | The i-th kept field, in name order, is the member after all the properties |
| EmissionRules.ClassFields | Fonlow.Poco2TsShared/Poco2CsGen.cs:253-312 | The members end with the kept fields in name order: properties in a class, fields in a struct |
| EmissionRules.EnumDeclaration | Fonlow.Poco2TsShared/Poco2CsGen.cs:314-340 | An enum declaration has no base and one literal per host literal, in declared (unsorted) order, same name, typed as the enum, initialized where the source initializes it (value differs from position) and also where the implied value differs; the client gives every literal its host value |
| EmissionRules.EnumOverflow | Fonlow.Poco2TsShared/Poco2CsGen.cs:324 | An enum's declaration fails iff some value does not fit in an int |
| EmissionRules.BaseTypeMatchesReference | Fonlow.Poco2TsShared/Poco2CsGen.cs:197-199 | A pending base type in one of the run's namespaces is named exactly as any other reference to it |
| EmissionRules.BaseOutsideRunDangles | Fonlow.Poco2TsShared/Poco2CsGen.cs:197-199 | A base in one of the run's namespaces that is not pending still gets the suffixed client name; when no type of the run has its namespace and name, the block with that name declares nothing of that name, so the reference dangles |
| EmissionRules.DeclsSorted | Fonlow.Poco2TsShared/Poco2CsGen.cs:178 | Declarations keep the name order of their types |
| EmissionRules.EmitNamespaces | Fonlow.Poco2TsShared/Poco2CsGen.cs:166-175 | A run adds one block per distinct namespace, in ascending order, each named namespace + suffix argument, and no block for a namespace without types |
| EmissionRules.BlockContents | Fonlow.Poco2TsShared/Poco2CsGen.cs:171-350 | The i-th block holds, in name order, one declaration per supported type of the i-th namespace, position by position, each type counted as many times as it occurs in the run; every declaration comes from such a type |
| EmissionRules.DeclaredInOwnNamespace | Fonlow.Poco2TsShared/Poco2CsGen.cs:171-350 | Every supported type of a run is declared in the block named by its own namespace + suffix |
| EmissionRules.MirroredReferencesResolve | Fonlow.Poco2TsShared/Poco2CsGen.cs:173 | When the field and the argument agree, a reference to a mirrored type is its block's name + "." + its declaration's name |
| EmissionRules.UnsyncedSuffixMisroutes | Fonlow.Poco2TsShared/Poco2CsGen.cs:525-528 | With the field unset and a non-empty argument, a reference to a mirrored type never names the block that declares it |
| EmissionRules.RunReferencesResolve | Fonlow.Poco2TsShared/Poco2CsGen.cs:166 | After a run that added its types to the pending list with matching suffixes, every supported type of the run is referred to by a block of the run + "." + its name |
| Poco2Client.Poco2CsGen.constructor | Fonlow.Poco2TsShared/Poco2CsGen.cs:24-28 | A fresh, empty compile unit of its own, no pending types, and an unset suffix |
| Poco2Client.Poco2CsGen.Sharing | Fonlow.Poco2TsShared/Poco2CsGen.cs:34-38 | The given compile unit, no pending types, and an unset suffix |
| Poco2Client.Poco2CsGen.CreateMember | Fonlow.Poco2TsShared/Poco2CsGen.cs:229-310 | Builds exactly MemberFor's member under the generator's current translator |
| Poco2Client.Poco2CsGen.CreateMembers | Fonlow.Poco2TsShared/Poco2CsGen.cs:210-251 | The foreach over a sorted member list returns exactly MemberList, including the error of the first failing member |
| Poco2Client.Poco2CsGen.CreateEnumMembers | Fonlow.Poco2TsShared/Poco2CsGen.cs:320-339 | The literal loop, with the source's position counter k and a second counter for the implied value, returns exactly EnumMembers |
| Poco2Client.Poco2CsGen.CreateTypeDeclaration | Fonlow.Poco2TsShared/Poco2CsGen.cs:180-348 | The per-type selector returns exactly Declaration |
| Poco2Client.Poco2CsGen.AddDeclarations | Fonlow.Poco2TsShared/Poco2CsGen.cs:178-350 | Appends the group's declarations, in order, to the last namespace and leaves the others unchanged; returns the first exception, if any |
| Poco2Client.Poco2CsGen.CreateNamespace | Fonlow.Poco2TsShared/Poco2CsGen.cs:173-350 | Appends exactly Block's namespace to the compile unit, or returns Block's exception |
| Poco2Client.Poco2CsGen.CreateCodeDom | Fonlow.Poco2TsShared/Poco2CsGen.cs:161-354 | The types are appended to pendingTypes, the suffix field is untouched, and the compile unit gains exactly Emit's blocks; an exception is reported iff Emit fails, and it is Emit's exception |
| Poco2Client.Poco2CsGen.CreateCodeDomForAssembly | Fonlow.Poco2TsShared/Poco2CsGen.cs:93-99 | Sets the suffix field to the argument, then runs CreateCodeDom; after a successful run every supported type is referred to by the qualified name of its declaration |

## Left out

- SaveCodeToFile and WriteCode (Poco2CsGen.cs:45-89): file and stream I/O and the C# printer are
  not modelled, so neither is the removal of the "//;" left behind by the accessor-pair hack.
  The model keeps the member name with its trailing "//".
- PodGenHelper.GetCherryTypes, the assembly scan in the Assembly overload, is not part of this
  model. `CreateCodeDomForAssembly` takes its result as the `cherryTypes` argument.
- CherryPicking.GetMemberCherryType is not part of this model. It is the `policy` parameter, a
  function from member to `CherryType`. `CherryType.None` is named `Excluded` here, because
  `None` is the empty `Option`.
- TypeHelper (IsArrayType, IsTuple, IsClassOrStruct, TupleTypeNames) is not part of this model.
  Its verdicts are fields of `HostType` and `GenericDefinition`. `TupleTypeNames` is taken to be
  "System.Tuple`1" to "System.Tuple`8".
- The IDictionary assignability test of lines 505-506 is the field `assignableToDictionary`. The
  model does not derive it from an interface hierarchy.
- PodGenHelper's declaration factories are not part of this model. They are recorded as the
  `DeclKind` of the declaration, and every declaration is named by the type's `Name`, a generic
  one included; its generic parameters are not modelled.
- The factories add a declaration to its namespace when they create it, before its base type and
  members are filled in. The model appends each declaration once it is complete. After a
  successful run the two agree. After an exception, the partly built declaration and the partly
  filled compile unit are not specified: each method states the compile unit only when it
  succeeds.
- Documentation comments: only the lookup keys ("T:", "P:", "F:" + full name) are modelled.
  Neither the lookup nor the comment text (lines 103-151) is, and neither is the fact that keys
  are used only when a lookup was supplied.
- MemberAttributes (Public, Final) on emitted members are not modelled.
- Debug.WriteLine, Trace.TraceWarning and Debug.Assert have no effect on the result and are left
  out. Debug.Assert is treated as compiled out, so a bad arity reaches the array access.
- A null `types` argument (ArgumentNullException, lines 163-164) cannot be expressed: a Dafny
  sequence is never null.
- A null `clientNamespaceSuffix` is modelled as "". Under string concatenation they behave the
  same.
- Ordering.SortBy: OrderBy on strings uses the current culture's comparer. The model compares
  ordinally, character by character, so it does not capture culture-specific orderings. The
  stability of the sort is not stated as a lemma.
- Type identity (`List<Type>.Contains`, `==` on definitions) is modelled as structural equality of
  descriptors, and a generic definition is identified by its full name.
- Reflection.HostType: a host type holds its member, argument and base types by value, and type
  identity is structural equality, so a type graph with a cycle cannot be represented: a class
  with a member of its own type (`Node Next`, `List<Node> Children`), or two types that refer to
  each other. The source handles these through `pendingTypes.Contains` (lines 374-375). No
  translator or emitter rule follows a member's type beyond translating it once, and the
  translator recurses only through generic arguments and array elements, so the rules are the
  same for such types; the model states them only for the acyclic ones it can express.
- Emission.EnumMembers: the generator adds an initializer where the source leaves one out but C# would imply a different value (see Findings). Elsewhere it writes what the source writes, as Emission.EnumRulesAgree states. The rule as written is kept as `Emission.EnumMembersAsWritten`.

## Findings

| source | as written | input that shows it | evidently intended | confidence | as-written member | corrected member |
|---|---|---|---|---|---|---|
| Fonlow.Poco2TsShared/Poco2CsGen.cs:320-338 | An enum literal gets an initializer only when its value differs from its position k in the field list | enum { High = 3, Low = 1 }: High is emitted "= 3" and Low with no initializer, so the client's Low is 4 | Also emit an initializer whenever the value differs from the one C# would imply (0 for the first literal, the previous value + 1 otherwise), so that no literal changes value | not executed | Emission.EnumMembersAsWritten, Emission.AsWrittenNumberingLosesValue | Emission.EnumMembers, Emission.EnumValuesPreserved, Emission.EnumRulesAgree, EmissionRules.EnumDeclaration |
