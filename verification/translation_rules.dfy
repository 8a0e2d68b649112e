/** The translator's rules, one lemma each, and its properties over all host types. */
module TranslationRules {
  import opened Wrappers
  import opened Reflection
  import opened CodeDom
  import opened TypeTranslation

  /** A host type on which the translator's indexing cannot fail: the well-known one-argument
      wrappers have an argument, array-like generics are closed (an open definition such as
      List<> fails, see ArrayLikeDefinitionFails), tuple definitions are one of the eight known
      arities and carry exactly that many arguments. */
  predicate WellFormed(t: HostType)
    decreases t
  {
    match t.form
    case Plain => true
    case ArrayOf(e, _) => WellFormed(e)
    case Generic(def, args, isDefinition, _) =>
      && (forall i :: 0 <= i < |args| ==> WellFormed(args[i]))
      && (def.fullName == NullableDefinition || def.fullName == TaskDefinition ==> |args| >= 1)
      && (def.arrayLike ==> !isDefinition && |args| >= 1)
      && (def.tupleIndex >= 0 ==> def.tupleIndex < 8 && |args| == def.tupleIndex + 1)
  }

  /** Every raw reference (a host type passed through unchanged) in a translation is to a plain
      type that is not being mirrored. */
  predicate RawOnlyPlain(r: TypeRef, pending: seq<HostType>)
    decreases r
  {
    match r
    case Named(_, args) => forall i :: 0 <= i < |args| ==> RawOnlyPlain(args[i], pending)
    case ArrayRef(e, _) => RawOnlyPlain(e, pending)
    case RawRef(h) => h !in pending && h.form.Plain?
  }

  /** Guards naming the generic rules that come earlier in the decision order. */
  predicate NotNullableOrTask(t: HostType)
    requires t.form.Generic?
  {
    t.form.definition.fullName != NullableDefinition && t.form.definition.fullName != TaskDefinition
  }

  predicate NotArrayLikeOrTuple(t: HostType)
    requires t.form.Generic?
  {
    NotNullableOrTask(t) && !t.form.definition.arrayLike && t.form.definition.tupleIndex < 0
  }

  predicate IsDictionaryLike(t: HostType)
    requires t.form.Generic?
  {
    |t.form.arguments| == 2 &&
    (t.form.definition.fullName == IDictionaryDefinition || t.form.assignableToDictionary)
  }

  // ----- rule by rule -----

  /** A pending type becomes the suffixed name of its mirror, whatever its shape. */
  lemma PendingTakesPrecedence(ctx: Context, t: HostType)
    requires t in ctx.pending
    ensures Translate(ctx, t) == Ok(Named(t.ns + ctx.suffix + "." + t.name, []))
  {
  }

  /** Nullable<T> becomes System.Nullable of the translation of T. */
  lemma NullableRule(ctx: Context, t: HostType)
    requires t !in ctx.pending && t.form.Generic? && t.form.definition.fullName == NullableDefinition
    requires |t.form.arguments| >= 1
    ensures Translate(ctx, t).Ok? <==> Translate(ctx, t.form.arguments[0]).Ok?
    ensures Translate(ctx, t).Ok? ==>
      Translate(ctx, t).value == Named(NullableName, [Translate(ctx, t.form.arguments[0]).value])
  {
  }

  /** Task<T> is erased: it translates exactly as T does. */
  lemma TaskErasure(ctx: Context, t: HostType)
    requires t !in ctx.pending && t.form.Generic? && t.form.definition.fullName == TaskDefinition
    requires |t.form.arguments| >= 1
    ensures Translate(ctx, t) == Translate(ctx, t.form.arguments[0])
  {
  }

  /** The pending-element shortcut of CreateArrayTypeReference gives what translating the
      element would give, so an array reference always holds the element's translation. */
  lemma {:induction false} ArrayElementIsTranslated(ctx: Context, e: HostType, rank: nat)
    ensures CreateArrayTypeReference(ctx, e, rank).Ok? <==> Translate(ctx, e).Ok?
    ensures CreateArrayTypeReference(ctx, e, rank).Ok? ==>
      CreateArrayTypeReference(ctx, e, rank) == Ok(ArrayRef(Translate(ctx, e).value, rank))
  {
  }

  /** A CLR array of rank r becomes an array reference of rank r over the element's translation;
      a pending element is referred to by its mirror's suffixed name. */
  lemma ArrayRule(ctx: Context, t: HostType)
    requires t !in ctx.pending && t.form.ArrayOf?
    ensures Translate(ctx, t).Ok? <==> Translate(ctx, t.form.element).Ok?
    ensures Translate(ctx, t).Ok? ==>
      Translate(ctx, t) == Ok(ArrayRef(Translate(ctx, t.form.element).value, t.form.rank))
    ensures t.form.element in ctx.pending ==>
      Translate(ctx, t) == Ok(ArrayRef(Named(t.form.element.ns + ctx.suffix + "." + t.form.element.name, []), t.form.rank))
  {
    ArrayElementIsTranslated(ctx, t.form.element, t.form.rank);
  }

  /** An array-like generic (a list, a collection, ...) becomes a rank-1 array of its argument. */
  lemma ArrayLikeRule(ctx: Context, t: HostType)
    requires t !in ctx.pending && t.form.Generic? && NotNullableOrTask(t) && t.form.definition.arrayLike
    requires !t.form.isDefinition && |t.form.arguments| >= 1
    ensures Translate(ctx, t).Ok? <==> Translate(ctx, t.form.arguments[0]).Ok?
    ensures Translate(ctx, t).Ok? ==>
      Translate(ctx, t) == Ok(ArrayRef(Translate(ctx, t.form.arguments[0]).value, 1))
  {
    ArrayElementIsTranslated(ctx, t.form.arguments[0], 1);
  }

  /** An array-like open definition has no GenericTypeArguments, so reading the first one fails. */
  lemma ArrayLikeDefinitionFails(ctx: Context, t: HostType)
    requires t !in ctx.pending && t.form.Generic? && NotNullableOrTask(t) && t.form.definition.arrayLike
    requires t.form.isDefinition
    ensures Translate(ctx, t) == Err(IndexOutOfRange)
  {
  }

  /** Tuple index i in 0..7 names the tuple of arity i + 1, whose i + 1 arguments are each
      translated, in order. Arguments beyond i + 1 are ignored: the arity check is only a
      Debug.Assert. */
  lemma TupleRule(ctx: Context, t: HostType)
    requires t !in ctx.pending && t.form.Generic? && NotNullableOrTask(t) && !t.form.definition.arrayLike
    requires 0 <= t.form.definition.tupleIndex < 8
    requires |t.form.arguments| >= t.form.definition.tupleIndex + 1
    ensures var i, args := t.form.definition.tupleIndex, t.form.arguments;
      (Translate(ctx, t).Ok? <==> forall j :: 0 <= j <= i ==> Translate(ctx, args[j]).Ok?) &&
      (Translate(ctx, t).Ok? ==>
        && Translate(ctx, t).value.Named?
        && Translate(ctx, t).value.baseType == TupleTypeNames[i]
        && |Translate(ctx, t).value.typeArguments| == i + 1
        && forall j :: 0 <= j <= i ==> Translate(ctx, t).value.typeArguments[j] == Translate(ctx, args[j]).value)
  {
    var i, args := t.form.definition.tupleIndex, t.form.arguments;
    var slots := seq(i + 1, j requires 0 <= j < i + 1 =>
      if j < |args| then Translate(ctx, args[j]) else Err(IndexOutOfRange));
    assert TranslateArguments(ctx, t, i + 1) == Collect(slots);
    assert forall j :: 0 <= j <= i ==> slots[j] == Translate(ctx, args[j]);
  }

  /** A tuple with fewer arguments than its index demands fails at the first missing slot,
      when the earlier slots translate. */
  lemma TupleTooFewArguments(ctx: Context, t: HostType)
    requires t !in ctx.pending && t.form.Generic? && NotNullableOrTask(t) && !t.form.definition.arrayLike
    requires 0 <= t.form.definition.tupleIndex < 8
    requires |t.form.arguments| < t.form.definition.tupleIndex + 1
    requires forall j :: 0 <= j < |t.form.arguments| ==> Translate(ctx, t.form.arguments[j]).Ok?
    ensures Translate(ctx, t) == Err(IndexOutOfRange)
  {
    var i, args := t.form.definition.tupleIndex, t.form.arguments;
    var slots := seq(i + 1, j requires 0 <= j < i + 1 =>
      if j < |args| then Translate(ctx, args[j]) else Err(IndexOutOfRange));
    assert TranslateArguments(ctx, t, i + 1) == Collect(slots);
    assert slots[|args|] == Err(IndexOutOfRange);
  }

  /** A tuple index outside 0..7 reaches the switch's default and throws. */
  lemma UnknownTupleIndex(ctx: Context, t: HostType)
    requires t !in ctx.pending && t.form.Generic? && NotNullableOrTask(t) && !t.form.definition.arrayLike
    requires t.form.definition.tupleIndex >= 8
    ensures Translate(ctx, t) == Err(InvalidOperation)
  {
  }

  /** Two-argument dictionaries, by definition or by assignability to IDictionary<K,V>, become
      Dictionary<translate K, translate V>. */
  lemma DictionaryRule(ctx: Context, t: HostType)
    requires t !in ctx.pending && t.form.Generic? && NotArrayLikeOrTuple(t) && IsDictionaryLike(t)
    ensures var args := t.form.arguments;
      (Translate(ctx, t).Ok? <==> Translate(ctx, args[0]).Ok? && Translate(ctx, args[1]).Ok?) &&
      (Translate(ctx, t).Ok? ==>
        Translate(ctx, t).value == Named(DictionaryName, [Translate(ctx, args[0]).value, Translate(ctx, args[1]).value]))
  {
    var args := t.form.arguments;
    var slots := seq(2, j requires 0 <= j < 2 =>
      if j < |args| then Translate(ctx, args[j]) else Err(IndexOutOfRange));
    assert TranslateArguments(ctx, t, 2) == Collect(slots);
    assert slots[0] == Translate(ctx, args[0]) && slots[1] == Translate(ctx, args[1]);
  }

  /** KeyValuePair<K,V> stays a KeyValuePair over the translated arguments. */
  lemma KeyValuePairRule(ctx: Context, t: HostType)
    requires t !in ctx.pending && t.form.Generic? && NotArrayLikeOrTuple(t) && !IsDictionaryLike(t)
    requires |t.form.arguments| == 2 && t.form.definition.fullName == KeyValuePairDefinition
    ensures var args := t.form.arguments;
      (Translate(ctx, t).Ok? <==> Translate(ctx, args[0]).Ok? && Translate(ctx, args[1]).Ok?) &&
      (Translate(ctx, t).Ok? ==>
        Translate(ctx, t).value == Named(KeyValuePairDefinition, [Translate(ctx, args[0]).value, Translate(ctx, args[1]).value]))
  {
    var args := t.form.arguments;
    var slots := seq(2, j requires 0 <= j < 2 =>
      if j < |args| then Translate(ctx, args[j]) else Err(IndexOutOfRange));
    assert TranslateArguments(ctx, t, 2) == Collect(slots);
    assert slots[0] == Translate(ctx, args[0]) && slots[1] == Translate(ctx, args[1]);
  }

  /** Any other generic type becomes its definition's suffixed name, whether or not the definition
      is pending, over all of its arguments translated in order. */
  lemma GenericFallback(ctx: Context, t: HostType)
    requires t !in ctx.pending && t.form.Generic? && NotArrayLikeOrTuple(t) && !IsDictionaryLike(t)
    requires !(|t.form.arguments| == 2 && t.form.definition.fullName == KeyValuePairDefinition)
    ensures var def, args := t.form.definition, t.form.arguments;
      (Translate(ctx, t).Ok? <==> forall j :: 0 <= j < |args| ==> Translate(ctx, args[j]).Ok?) &&
      (Translate(ctx, t).Ok? ==>
        && Translate(ctx, t).value.Named?
        && Translate(ctx, t).value.baseType == def.ns + ctx.suffix + "." + def.name
        && |Translate(ctx, t).value.typeArguments| == |args|
        && forall j :: 0 <= j < |args| ==> Translate(ctx, t).value.typeArguments[j] == Translate(ctx, args[j]).value)
  {
    var args := t.form.arguments;
    var slots := seq(|args|, j requires 0 <= j < |args| =>
      if j < |args| then Translate(ctx, args[j]) else Err(IndexOutOfRange));
    assert TranslateArguments(ctx, t, |args|) == Collect(slots);
    assert forall j :: 0 <= j < |args| ==> slots[j] == Translate(ctx, args[j]);
  }

  /** A plain type: response wrappers become HttpResponseMessage, a serializable System.Object
      becomes JObject, anything else is referred to as itself. */
  lemma SubstitutionRule(ctx: Context, t: HostType)
    requires t !in ctx.pending && t.form.Plain?
    ensures t.fullName in HttpResponseWrappers ==> Translate(ctx, t) == Ok(Named(HttpResponseMessageName, []))
    ensures t.fullName == "System.Object" && t.serializable ==> Translate(ctx, t) == Ok(Named(JObjectName, []))
    ensures t.fullName !in HttpResponseWrappers && !(t.fullName == "System.Object" && t.serializable) ==>
      Translate(ctx, t) == Ok(RawRef(t))
  {
  }

  // ----- properties over all host types -----

  /** On a well-formed type the translator never throws. */
  lemma {:induction false} TranslateTotal(ctx: Context, t: HostType)
    requires WellFormed(t)
    ensures Translate(ctx, t).Ok?
    decreases t
  {
    if t in ctx.pending {
    } else {
      match t.form
      case Plain =>
      case ArrayOf(e, r) =>
        TranslateTotal(ctx, e);
        ArrayElementIsTranslated(ctx, e, r);
      case Generic(def, args, _, _) =>
        forall j | 0 <= j < |args|
          ensures Translate(ctx, args[j]).Ok?
        {
          TranslateTotal(ctx, args[j]);
        }
        if def.arrayLike && def.fullName != NullableDefinition && def.fullName != TaskDefinition {
          ArrayElementIsTranslated(ctx, args[0], 1);
        }
        ArgumentsTranslate(ctx, t, if 0 <= def.tupleIndex < 8 then def.tupleIndex + 1 else |args|);
        if |args| == 2 {
          ArgumentsTranslate(ctx, t, 2);
        }
    }
  }

  /** The argument row succeeds when every slot it reads exists and translates. */
  lemma ArgumentsTranslate(ctx: Context, t: HostType, n: nat)
    requires t.form.Generic? && n <= |t.form.arguments|
    requires forall j :: 0 <= j < |t.form.arguments| ==> Translate(ctx, t.form.arguments[j]).Ok?
    ensures TranslateArguments(ctx, t, n).Ok?
  {
    var args := t.form.arguments;
    var slots := seq(n, j requires 0 <= j < n =>
      if j < |args| then Translate(ctx, args[j]) else Err(IndexOutOfRange));
    assert TranslateArguments(ctx, t, n) == Collect(slots);
    assert forall j :: 0 <= j < n ==> slots[j].Ok?;
  }

  /** A translation never passes a mirrored, generic or array type through as a raw host
      reference: mirrored types are always referred to by their client names, and compound
      types are always taken apart. */
  lemma {:induction false} RawReferencesArePlain(ctx: Context, t: HostType)
    requires Translate(ctx, t).Ok?
    ensures RawOnlyPlain(Translate(ctx, t).value, ctx.pending)
    decreases t, 1
  {
    if t in ctx.pending {
    } else {
      match t.form
      case Plain =>
      case ArrayOf(e, r) =>
        ArrayElementIsTranslated(ctx, e, r);
        RawReferencesArePlain(ctx, e);
      case Generic(def, args, _, _) =>
        if def.fullName == NullableDefinition || def.fullName == TaskDefinition {
          RawReferencesArePlain(ctx, args[0]);
        } else if def.arrayLike {
          ArrayElementIsTranslated(ctx, args[0], 1);
          RawReferencesArePlain(ctx, args[0]);
        } else if def.tupleIndex >= 0 {
          ArgumentsRawOnlyPlain(ctx, t, def.tupleIndex + 1);
        } else if |args| == 2 && (def.fullName == IDictionaryDefinition || t.form.assignableToDictionary || def.fullName == KeyValuePairDefinition) {
          ArgumentsRawOnlyPlain(ctx, t, 2);
        } else {
          ArgumentsRawOnlyPlain(ctx, t, |args|);
        }
    }
  }

  lemma {:induction false} ArgumentsRawOnlyPlain(ctx: Context, t: HostType, n: nat)
    requires t.form.Generic? && TranslateArguments(ctx, t, n).Ok?
    ensures forall j :: 0 <= j < n ==> RawOnlyPlain(TranslateArguments(ctx, t, n).value[j], ctx.pending)
    decreases t, 0
  {
    var args := t.form.arguments;
    var slots := seq(n, j requires 0 <= j < n =>
      if j < |args| then Translate(ctx, args[j]) else Err(IndexOutOfRange));
    assert TranslateArguments(ctx, t, n) == Collect(slots);
    forall j | 0 <= j < n
      ensures RawOnlyPlain(TranslateArguments(ctx, t, n).value[j], ctx.pending)
    {
      assert slots[j].Ok?;
      assert j < |args|;
      RawReferencesArePlain(ctx, args[j]);
    }
  }
}
