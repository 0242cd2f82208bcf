/**
 Which type of the generator a schema type stands for, and which attributes occur in it, both said
 without the functions that resolve schema types.
 */
module SchemaTypeMeaning {
  import opened Wrappers
  import opened SchemaTypes

  // ---------- Types ----------

  /** The schema type that writes down a type of the generator. */
  function SchemaTypeOf(t: Type): SchemaType
    decreases t
  {
    match t
    case TBool => Boolean
    case TLong => Long
    case TString => String
    case TSet(element) => Set(SchemaTypeOf(element))
    case TRecord(fields) =>
      Record(seq(|fields|, i requires 0 <= i < |fields| =>
        Attribute(fields[i].name, SchemaTypeOf(fields[i].ty), fields[i].required)), false)
    case TEntity(name) => Entity(name)
    case TIpaddr => Extension("ipaddr")
    case TDecimal => Extension("decimal")
    case TDatetime => Extension("datetime")
    case TDuration => Extension("duration")
  }

  /** The name with the namespace in front: always if it has none, never if it has one. */
  predicate IsQualified(ns: Option<Name>, name: Name, full: Name) {
    if name.path != [] || ns.None? then full == name
    else
      && full.base == name.base && |full.path| == |ns.value.path| + 1
      && full.path[|ns.value.path|] == ns.value.base
      && forall i | 0 <= i < |ns.value.path| :: full.path[i] == ns.value.path[i]
  }

  /**
   The same schema type with entity names qualified and records closed: names, order, and which
   attributes are required stay.
   */
  predicate SameUpToNames(ns: Option<Name>, ty: SchemaType, full: SchemaType)
    decreases ty
  {
    match ty
    case Set(element) => full.Set? && SameUpToNames(ns, element, full.element)
    case Record(attributes, _) =>
      && full.Record? && |full.attributes| == |attributes|
      && forall i | 0 <= i < |attributes| ::
           && full.attributes[i].name == attributes[i].name
           && full.attributes[i].required == attributes[i].required
           && SameUpToNames(ns, attributes[i].ty, full.attributes[i].ty)
    case Entity(name) => full.Entity? && IsQualified(ns, name, full.name)
    case _ => full == ty
  }

  predicate IsKnownExtension(name: string) {
    name == "ipaddr" || name == "decimal" || name == "datetime" || name == "duration"
  }

  /** No extension type inside but the four known ones. */
  predicate KnownExtensions(ty: SchemaType) {
    forall e | e in Subterms(ty) && e.Extension? :: IsKnownExtension(e.extension)
  }

  /** Reading the schema type that writes down a type gives that type. */
  lemma {:induction false} WrittenTypeReadsBack(cts: CommonTypes, t: Type, fuel: nat)
    ensures SchemaTypeToType(cts, None, SchemaTypeOf(t), fuel) == Ok(t)
    decreases t
  {
    match t
    case TSet(element) => WrittenTypeReadsBack(cts, element, fuel);
    case TRecord(fields) =>
      forall i | 0 <= i < |fields|
        ensures SchemaTypeToType(cts, None, SchemaTypeOf(fields[i].ty), fuel) == Ok(fields[i].ty)
      {
        WrittenTypeReadsBack(cts, fields[i].ty, fuel);
      }
      FieldsReadBack(cts, SchemaTypeOf(t).attributes, fields, fuel);
    case _ =>
  }

  lemma {:induction false} FieldsReadBack(cts: CommonTypes, attributes: seq<Attribute>, fields: seq<Field>, fuel: nat)
    requires |attributes| == |fields|
    requires forall i | 0 <= i < |fields| ::
      && attributes[i].name == fields[i].name && attributes[i].required == fields[i].required
      && SchemaTypeToType(cts, None, attributes[i].ty, fuel) == Ok(fields[i].ty)
    ensures AttributesToFields(cts, None, attributes, fuel) == Ok(fields)
  {
    if fields == [] {
    } else {
      assert SchemaTypeToType(cts, None, attributes[0].ty, fuel) == Ok(fields[0].ty);
      FieldsReadBack(cts, attributes[1..], fields[1..], fuel);
      assert fields == [fields[0]] + fields[1..];
    }
  }

  /** A type without references fails exactly on an unknown extension, and otherwise stands for itself. */
  lemma {:induction false} PlainTypeMeans(cts: CommonTypes, ns: Option<Name>, ty: SchemaType, fuel: nat)
    requires Plain(ty)
    ensures var r := SchemaTypeToType(cts, ns, ty, fuel);
            && (r.Ok? <==> KnownExtensions(ty))
            && (r.Ok? ==> SameUpToNames(ns, ty, SchemaTypeOf(r.value)))
            && (r.Err? ==> r.error == UnknownExtension)
    decreases ty, 1
  {
    match ty
    case Set(element) =>
      PlainTypeMeans(cts, ns, element, fuel);
      assert KnownExtensions(ty) <==> KnownExtensions(element);
    case Record(attributes, _) =>
      PlainFieldsMean(cts, ns, attributes, fuel);
      RecordKnowsExtensions(ty);
    case _ =>
  }

  lemma RecordKnowsExtensions(ty: SchemaType)
    requires ty.Record?
    ensures KnownExtensions(ty) <==> forall i | 0 <= i < |ty.attributes| :: KnownExtensions(ty.attributes[i].ty)
  {
    if KnownExtensions(ty) {
      forall i, e | 0 <= i < |ty.attributes| && e in Subterms(ty.attributes[i].ty) && e.Extension?
        ensures IsKnownExtension(e.extension)
      {
        assert e in Subterms(ty);
      }
    }
  }

  lemma {:induction false} PlainFieldsMean(cts: CommonTypes, ns: Option<Name>, attributes: seq<Attribute>, fuel: nat)
    requires forall i | 0 <= i < |attributes| :: Plain(attributes[i].ty)
    ensures var r := AttributesToFields(cts, ns, attributes, fuel);
            && (r.Ok? <==> forall i | 0 <= i < |attributes| :: KnownExtensions(attributes[i].ty))
            && (r.Err? ==> r.error == UnknownExtension)
            && (r.Ok? ==>
                  && |r.value| == |attributes|
                  && forall i | 0 <= i < |attributes| ::
                       && r.value[i].name == attributes[i].name && r.value[i].required == attributes[i].required
                       && SameUpToNames(ns, attributes[i].ty, SchemaTypeOf(r.value[i].ty)))
    decreases attributes, 0
  {
    if attributes == [] {
    } else {
      var rest := attributes[1..];
      PlainTypeMeans(cts, ns, attributes[0].ty, fuel);
      PlainFieldsMean(cts, ns, rest, fuel);
      assert forall i | 0 < i < |attributes| :: attributes[i] == rest[i - 1];
    }
  }

  // ---------- References ----------

  lemma {:induction false} InlinedIsPlain(cts: CommonTypes, ty: SchemaType, fuel: nat)
    requires Inline(cts, ty, fuel).Ok?
    ensures Plain(Inline(cts, ty, fuel).value)
    decreases fuel, ty, 1
  {
    match ty
    case CommonTypeRef(name) => InlinedIsPlain(cts, cts[name.base], fuel - 1);
    case EntityOrCommon(name) =>
      if name.base in cts {
        InlinedIsPlain(cts, cts[name.base], fuel - 1);
      }
    case Set(element) => InlinedIsPlain(cts, element, fuel);
    case Record(attributes, _) => InlinedAttributesArePlain(cts, attributes, fuel);
    case _ =>
  }

  lemma {:induction false} InlinedAttributesArePlain(cts: CommonTypes, attributes: seq<Attribute>, fuel: nat)
    requires InlineAttributes(cts, attributes, fuel).Ok?
    ensures forall a | a in InlineAttributes(cts, attributes, fuel).value :: Plain(a.ty)
    decreases fuel, attributes, 0
  {
    if attributes == [] {
    } else {
      InlinedIsPlain(cts, attributes[0].ty, fuel);
      InlinedAttributesArePlain(cts, attributes[1..], fuel);
    }
  }

  /** With references, a type stands for what it inlines to, qualified. */
  lemma TypeMeans(cts: CommonTypes, ns: Option<Name>, ty: SchemaType, fuel: nat)
    requires Inline(cts, ty, fuel).Ok?
    ensures var r, inlined := SchemaTypeToType(cts, ns, ty, fuel), Inline(cts, ty, fuel).value;
            && (r.Ok? <==> KnownExtensions(inlined))
            && (r.Ok? ==> SameUpToNames(ns, inlined, SchemaTypeOf(r.value)))
  {
    InlinedIsPlain(cts, ty, fuel);
    ToTypeAfterInline(cts, ns, ty, fuel);
    PlainTypeMeans(map[], ns, Inline(cts, ty, fuel).value, 0);
  }

  /** A name that may be either is a common type if one is defined under its last part, and an entity otherwise. */
  lemma EitherMeans(cts: CommonTypes, ns: Option<Name>, name: Name, fuel: nat)
    ensures var meant := if name.base in cts then CommonTypeRef(Unqualified(name.base)) else Entity(name);
            && SchemaTypeToType(cts, ns, EntityOrCommon(name), fuel) == SchemaTypeToType(cts, ns, meant, fuel)
            && Inline(cts, EntityOrCommon(name), fuel) == Inline(cts, meant, fuel)
            && AttrsInSchemaType(cts, EntityOrCommon(name), fuel) == AttrsInSchemaType(cts, meant, fuel)
  {
  }

  // ---------- Attributes ----------

  /** A record inside the type has the attribute. */
  predicate OccursIn(ty: SchemaType, attribute: (string, SchemaType)) {
    exists r | r in Subterms(ty) && r.Record? ::
      exists i | 0 <= i < |r.attributes| :: (r.attributes[i].name, r.attributes[i].ty) == attribute
  }

  /** Exactly the attributes that occur are found, and a record's own come first, in order. */
  lemma {:induction false} AttrsFound(cts: CommonTypes, ty: SchemaType, fuel: nat)
    requires Plain(ty)
    ensures var r := AttrsInSchemaType(cts, ty, fuel);
            && r.Ok? && (forall a :: a in r.value <==> OccursIn(ty, a))
            && (ty.Record? ==>
                  && |r.value| >= |ty.attributes|
                  && forall i | 0 <= i < |ty.attributes| ::
                       r.value[i] == (ty.attributes[i].name, ty.attributes[i].ty))
    decreases ty, 1
  {
    match ty
    case Set(element) =>
      AttrsFound(cts, element, fuel);
      forall a ensures OccursIn(ty, a) <==> OccursIn(element, a) {
        if OccursIn(element, a) {
          assert Subterms(element) <= Subterms(ty);
        }
      }
    case Record(attributes, _) =>
      AttrsOfAttributesFound(cts, attributes, fuel);
      forall a ensures a in AttrsInSchemaType(cts, ty, fuel).value <==> OccursIn(ty, a) {
        RecordAttributes(cts, ty, fuel, a);
      }
    case _ =>
  }

  /** What occurs in a record is one of its own attributes or occurs in the type of one. */
  lemma RecordAttributes(cts: CommonTypes, ty: SchemaType, fuel: nat, a: (string, SchemaType))
    requires ty.Record? && AttrsInSchemaType(cts, ty, fuel).Ok?
    requires a in AttrsInAttributes(cts, ty.attributes, fuel).value
        <==> exists i | 0 <= i < |ty.attributes| :: OccursIn(ty.attributes[i].ty, a)
    ensures a in AttrsInSchemaType(cts, ty, fuel).value <==> OccursIn(ty, a)
  {
    var attributes := ty.attributes;
    var own := seq(|attributes|, i requires 0 <= i < |attributes| => (attributes[i].name, attributes[i].ty));
    assert AttrsInSchemaType(cts, ty, fuel).value == own + AttrsInAttributes(cts, attributes, fuel).value;
    if a in own {
      var i :| 0 <= i < |own| && own[i] == a;
      assert ty in Subterms(ty) && (ty.attributes[i].name, ty.attributes[i].ty) == a;
    }
    if i :| 0 <= i < |ty.attributes| && OccursIn(ty.attributes[i].ty, a) {
      assert Subterms(ty.attributes[i].ty) <= Subterms(ty);
    }
    if OccursIn(ty, a) {
      var r :| r in Subterms(ty) && r.Record?
        && exists i | 0 <= i < |r.attributes| :: (r.attributes[i].name, r.attributes[i].ty) == a;
      if r == ty {
        var i :| 0 <= i < |r.attributes| && (r.attributes[i].name, r.attributes[i].ty) == a;
        assert own[i] == a;
      } else {
        var i :| 0 <= i < |ty.attributes| && r in Subterms(ty.attributes[i].ty);
        assert OccursIn(ty.attributes[i].ty, a);
      }
    }
  }

  lemma {:induction false} AttrsOfAttributesFound(cts: CommonTypes, attributes: seq<Attribute>, fuel: nat)
    requires forall i | 0 <= i < |attributes| :: Plain(attributes[i].ty)
    ensures var r := AttrsInAttributes(cts, attributes, fuel);
            r.Ok? && forall a :: a in r.value <==> exists i | 0 <= i < |attributes| :: OccursIn(attributes[i].ty, a)
    decreases attributes, 0
  {
    if attributes == [] {
    } else {
      var rest := attributes[1..];
      AttrsFound(cts, attributes[0].ty, fuel);
      AttrsOfAttributesFound(cts, rest, fuel);
      forall a
        ensures (exists i | 0 <= i < |attributes| :: OccursIn(attributes[i].ty, a)) <==>
                  OccursIn(attributes[0].ty, a) || exists i | 0 <= i < |rest| :: OccursIn(rest[i].ty, a)
      {
        if i :| 0 < i < |attributes| && OccursIn(attributes[i].ty, a) {
          assert rest[i - 1] == attributes[i];
        }
        if i :| 0 <= i < |rest| && OccursIn(rest[i].ty, a) {
          assert attributes[i + 1] == rest[i];
        }
      }
    }
  }
}
