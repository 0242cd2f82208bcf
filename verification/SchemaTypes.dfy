/**
 Types of a JSON schema, the generator's own types, and the functions that follow references
 to common types.  A BTreeMap of attributes is the list of its entries in key order.
 */
module SchemaTypes {
  import opened Wrappers

  /** A name with the namespace components in front of it. */
  datatype Name = Name(path: seq<string>, base: string)

  function Unqualified(id: string): Name {
    Name([], id)
  }

  /** Puts a namespace in front of a name that has none. */
  function QualifyWith(name: Name, ns: Option<Name>): Name {
    if name.path == [] && ns.Some? then Name(ns.value.path + [ns.value.base], name.base) else name
  }

  datatype SchemaType =
    | CommonTypeRef(typeName: Name)
    | Boolean
    | Long
    | String
    | Set(element: SchemaType)
    | Record(attributes: seq<Attribute>, additionalAttributes: bool)
    | Entity(name: Name)
    | EntityOrCommon(typeName: Name)
    | Extension(extension: string)

  datatype Attribute = Attribute(name: string, ty: SchemaType, required: bool)

  type CommonTypes = map<string, SchemaType>

  /** The generator's own types. */
  datatype Type =
    | TBool
    | TLong
    | TString
    | TSet(element: Type)
    | TRecord(fields: seq<Field>)
    | TEntity(name: Name)
    | TIpaddr
    | TDecimal
    | TDatetime
    | TDuration

  datatype Field = Field(name: string, ty: Type, required: bool)

  /** How following references ends badly: the first two panic, a cycle runs out of any fuel. */
  datatype ResolveError = UndefinedCommonType | UnknownExtension | OutOfFuel

  /** No reference of any kind inside: what `Schema::arbitrary` generates. */
  predicate Plain(ty: SchemaType)
    decreases ty
  {
    match ty
    case CommonTypeRef(_) => false
    case EntityOrCommon(_) => false
    case Set(element) => Plain(element)
    case Record(attributes, _) => forall i | 0 <= i < |attributes| :: Plain(attributes[i].ty)
    case _ => true
  }

  /** All the types that occur in a type, itself included. */
  function Subterms(ty: SchemaType): set<SchemaType>
    decreases ty
  {
    {ty} + match ty
           case Set(element) => Subterms(element)
           case Record(attributes, _) =>
             set i, t | 0 <= i < |attributes| && t in Subterms(attributes[i].ty) :: t
           case _ => {}
  }

  function Size(ty: SchemaType): (n: nat)
    ensures n >= 1
    decreases ty, 1
  {
    match ty
    case Set(element) => 1 + Size(element)
    case Record(attributes, _) => 1 + SizeOfAttributes(attributes)
    case _ => 1
  }

  function SizeOfAttributes(attributes: seq<Attribute>): nat
    decreases attributes, 0
  {
    if attributes == [] then 0 else Size(attributes[0].ty) + SizeOfAttributes(attributes[1..])
  }

  lemma {:induction false} AttributeIsSmaller(attributes: seq<Attribute>, i: nat)
    requires i < |attributes|
    ensures Size(attributes[i].ty) <= SizeOfAttributes(attributes)
  {
    if i == 0 {
    } else {
      AttributeIsSmaller(attributes[1..], i - 1);
    }
  }

  /** The definition a name refers to; the namespace of the reference is dropped. */
  function LookupCommonType(cts: CommonTypes, name: Name): Option<SchemaType> {
    if name.base in cts then Some(cts[name.base]) else None
  }

  /** Converts a schema type to the generator's type; `fuel` counts the definitions looked up on a path. */
  function SchemaTypeToType(cts: CommonTypes, ns: Option<Name>, ty: SchemaType, fuel: nat): Result<Type, ResolveError>
    decreases fuel, ty, 1
  {
    match ty
    case CommonTypeRef(name) =>
      (match LookupCommonType(cts, name)
       case None => Err(UndefinedCommonType)
       case Some(def) => if fuel == 0 then Err(OutOfFuel) else SchemaTypeToType(cts, ns, def, fuel - 1))
    case Boolean => Ok(TBool)
    case Long => Ok(TLong)
    case String => Ok(TString)
    case Set(element) =>
      var e :- SchemaTypeToType(cts, ns, element, fuel);
      Ok(TSet(e))
    case Record(attributes, _) =>
      var fields :- AttributesToFields(cts, ns, attributes, fuel);
      Ok(TRecord(fields))
    case Entity(name) => Ok(TEntity(QualifyWith(name, ns)))
    case EntityOrCommon(name) =>
      (match LookupCommonType(cts, name)
       case None => Ok(TEntity(QualifyWith(name, ns)))
       case Some(def) => if fuel == 0 then Err(OutOfFuel) else SchemaTypeToType(cts, ns, def, fuel - 1))
    case Extension(name) =>
      if name == "ipaddr" then Ok(TIpaddr)
      else if name == "decimal" then Ok(TDecimal)
      else if name == "datetime" then Ok(TDatetime)
      else if name == "duration" then Ok(TDuration)
      else Err(UnknownExtension)
  }

  function AttributesToFields(cts: CommonTypes, ns: Option<Name>, attributes: seq<Attribute>, fuel: nat)
    : Result<seq<Field>, ResolveError>
    decreases fuel, attributes, 0
  {
    if attributes == [] then Ok([])
    else
      var ty :- SchemaTypeToType(cts, ns, attributes[0].ty, fuel);
      var rest :- AttributesToFields(cts, ns, attributes[1..], fuel);
      Ok([Field(attributes[0].name, ty, attributes[0].required)] + rest)
  }

  /** Replaces every reference by what it stands for, keeping everything else of the schema type. */
  function Inline(cts: CommonTypes, ty: SchemaType, fuel: nat): Result<SchemaType, ResolveError>
    decreases fuel, ty, 1
  {
    match ty
    case CommonTypeRef(name) =>
      (match LookupCommonType(cts, name)
       case None => Err(UndefinedCommonType)
       case Some(def) => if fuel == 0 then Err(OutOfFuel) else Inline(cts, def, fuel - 1))
    case Set(element) =>
      var e :- Inline(cts, element, fuel);
      Ok(Set(e))
    case Record(attributes, additional) =>
      var attrs :- InlineAttributes(cts, attributes, fuel);
      Ok(Record(attrs, additional))
    case EntityOrCommon(name) =>
      (match LookupCommonType(cts, name)
       case None => Ok(Entity(name))
       case Some(def) => if fuel == 0 then Err(OutOfFuel) else Inline(cts, def, fuel - 1))
    case _ => Ok(ty)
  }

  function InlineAttributes(cts: CommonTypes, attributes: seq<Attribute>, fuel: nat)
    : Result<seq<Attribute>, ResolveError>
    decreases fuel, attributes, 0
  {
    if attributes == [] then Ok([])
    else
      var ty :- Inline(cts, attributes[0].ty, fuel);
      var rest :- InlineAttributes(cts, attributes[1..], fuel);
      Ok([Attribute(attributes[0].name, ty, attributes[0].required)] + rest)
  }

  /** The (attribute, type) pairs that occur inside a type: a record's own, then those of its attributes. */
  function AttrsInSchemaType(cts: CommonTypes, ty: SchemaType, fuel: nat)
    : Result<seq<(string, SchemaType)>, ResolveError>
    decreases fuel, ty, 1
  {
    match ty
    case CommonTypeRef(name) =>
      (match LookupCommonType(cts, name)
       case None => Err(UndefinedCommonType)
       case Some(def) => if fuel == 0 then Err(OutOfFuel) else AttrsInSchemaType(cts, def, fuel - 1))
    case EntityOrCommon(name) =>
      (match LookupCommonType(cts, name)
       case None => Ok([])
       case Some(def) => if fuel == 0 then Err(OutOfFuel) else AttrsInSchemaType(cts, def, fuel - 1))
    case Set(element) => AttrsInSchemaType(cts, element, fuel)
    case Record(attributes, _) =>
      var recursed :- AttrsInAttributes(cts, attributes, fuel);
      Ok(seq(|attributes|, i requires 0 <= i < |attributes| => (attributes[i].name, attributes[i].ty)) + recursed)
    case _ => Ok([])
  }

  function AttrsInAttributes(cts: CommonTypes, attributes: seq<Attribute>, fuel: nat)
    : Result<seq<(string, SchemaType)>, ResolveError>
    decreases fuel, attributes, 0
  {
    if attributes == [] then Ok([])
    else
      var first :- AttrsInSchemaType(cts, attributes[0].ty, fuel);
      var rest :- AttrsInAttributes(cts, attributes[1..], fuel);
      Ok(first + rest)
  }

  /** What `attrs_from_attrs_or_context` returns; None where it panics. */
  function AttrsFrom(cts: CommonTypes, shape: SchemaType): Option<(seq<Attribute>, bool)> {
    match shape
    case CommonTypeRef(name) =>
      (match LookupCommonType(cts, name)
       case Some(Record(attributes, additional)) => Some((attributes, additional))
       case _ => None)
    case Record(attributes, additional) => Some((attributes, additional))
    case _ => None
  }

  // ---------- Inlining ----------

  lemma {:induction false} InlineOfPlain(cts: CommonTypes, ty: SchemaType, fuel: nat)
    requires Plain(ty)
    ensures Inline(cts, ty, fuel) == Ok(ty)
    decreases ty, 1
  {
    match ty
    case Set(element) => InlineOfPlain(cts, element, fuel);
    case Record(attributes, _) => InlineOfPlainAttributes(cts, attributes, fuel);
    case _ =>
  }

  lemma {:induction false} InlineOfPlainAttributes(cts: CommonTypes, attributes: seq<Attribute>, fuel: nat)
    requires forall i | 0 <= i < |attributes| :: Plain(attributes[i].ty)
    ensures InlineAttributes(cts, attributes, fuel) == Ok(attributes)
    decreases attributes, 0
  {
    if attributes == [] {
    } else {
      InlineOfPlain(cts, attributes[0].ty, fuel);
      InlineOfPlainAttributes(cts, attributes[1..], fuel);
      assert attributes == [attributes[0]] + attributes[1..];
    }
  }

  /** What inlines, inlines to the same type with more fuel. */
  lemma {:induction false} InlineMonotone(cts: CommonTypes, ty: SchemaType, fuel: nat, more: nat)
    requires fuel <= more && Inline(cts, ty, fuel).Ok?
    ensures Inline(cts, ty, more) == Inline(cts, ty, fuel)
    decreases fuel, ty, 1
  {
    match ty
    case CommonTypeRef(name) => InlineMonotone(cts, cts[name.base], fuel - 1, more - 1);
    case EntityOrCommon(name) =>
      if name.base in cts {
        InlineMonotone(cts, cts[name.base], fuel - 1, more - 1);
      }
    case Set(element) => InlineMonotone(cts, element, fuel, more);
    case Record(attributes, _) => InlineAttributesMonotone(cts, attributes, fuel, more);
    case _ =>
  }

  lemma {:induction false} InlineAttributesMonotone(cts: CommonTypes, attributes: seq<Attribute>, fuel: nat, more: nat)
    requires fuel <= more && InlineAttributes(cts, attributes, fuel).Ok?
    ensures InlineAttributes(cts, attributes, more) == InlineAttributes(cts, attributes, fuel)
    decreases fuel, attributes, 0
  {
    if attributes == [] {
    } else {
      InlineMonotone(cts, attributes[0].ty, fuel, more);
      InlineAttributesMonotone(cts, attributes[1..], fuel, more);
    }
  }

  lemma {:induction false} InlineAttributesPointwise(cts: CommonTypes, from: seq<Attribute>, to: seq<Attribute>,
                                                     fuel: nat)
    requires |from| == |to|
    requires forall i | 0 <= i < |from| ::
      from[i].name == to[i].name && from[i].required == to[i].required && Inline(cts, from[i].ty, fuel) == Ok(to[i].ty)
    ensures InlineAttributes(cts, from, fuel) == Ok(to)
  {
    if from == [] {
    } else {
      assert Inline(cts, from[0].ty, fuel) == Ok(to[0].ty);
      InlineAttributesPointwise(cts, from[1..], to[1..], fuel);
      assert to == [to[0]] + to[1..];
    }
  }

  /** Following the references while converting is the same as inlining first and converting after. */
  lemma {:induction false} ToTypeAfterInline(cts: CommonTypes, ns: Option<Name>, ty: SchemaType, fuel: nat)
    requires Inline(cts, ty, fuel).Ok?
    ensures SchemaTypeToType(cts, ns, ty, fuel) == SchemaTypeToType(map[], ns, Inline(cts, ty, fuel).value, 0)
    decreases fuel, ty, 1
  {
    match ty
    case CommonTypeRef(name) => ToTypeAfterInline(cts, ns, cts[name.base], fuel - 1);
    case EntityOrCommon(name) =>
      if name.base in cts {
        ToTypeAfterInline(cts, ns, cts[name.base], fuel - 1);
      }
    case Set(element) => ToTypeAfterInline(cts, ns, element, fuel);
    case Record(attributes, _) => FieldsAfterInline(cts, ns, attributes, fuel);
    case _ =>
  }

  lemma {:induction false} FieldsAfterInline(cts: CommonTypes, ns: Option<Name>, attributes: seq<Attribute>, fuel: nat)
    requires InlineAttributes(cts, attributes, fuel).Ok?
    ensures AttributesToFields(cts, ns, attributes, fuel)
         == AttributesToFields(map[], ns, InlineAttributes(cts, attributes, fuel).value, 0)
    decreases fuel, attributes, 0
  {
    if attributes == [] {
    } else {
      ToTypeAfterInline(cts, ns, attributes[0].ty, fuel);
      FieldsAfterInline(cts, ns, attributes[1..], fuel);
      var inlined := InlineAttributes(cts, attributes, fuel).value;
      assert inlined[1..] == InlineAttributes(cts, attributes[1..], fuel).value;
    }
  }

  /** The same attribute names in the same order, and each type inlines to the type beside it. */
  predicate PairsInlineTo(cts: CommonTypes, from: seq<(string, SchemaType)>, to: seq<(string, SchemaType)>, fuel: nat) {
    && |from| == |to|
    && forall i | 0 <= i < |from| :: from[i].0 == to[i].0 && Inline(cts, from[i].1, fuel) == Ok(to[i].1)
  }

  /** Collecting attributes commutes with inlining. */
  lemma {:induction false} AttrsAfterInline(cts: CommonTypes, ty: SchemaType, fuel: nat)
    requires Inline(cts, ty, fuel).Ok?
    ensures AttrsInSchemaType(cts, ty, fuel).Ok?
    ensures AttrsInSchemaType(map[], Inline(cts, ty, fuel).value, 0).Ok?
    ensures PairsInlineTo(cts, AttrsInSchemaType(cts, ty, fuel).value,
                          AttrsInSchemaType(map[], Inline(cts, ty, fuel).value, 0).value, fuel)
    decreases fuel, ty, 1
  {
    match ty
    case CommonTypeRef(name) => AttrsThroughDefinition(cts, cts[name.base], fuel);
    case EntityOrCommon(name) =>
      if name.base in cts {
        AttrsThroughDefinition(cts, cts[name.base], fuel);
      }
    case Set(element) => AttrsAfterInline(cts, element, fuel);
    case Record(attributes, _) =>
      AttrsOfAttributesAfterInline(cts, attributes, fuel);
      InlineAttributesParts(cts, attributes, fuel);
    case _ =>
  }

  lemma {:induction false} AttrsThroughDefinition(cts: CommonTypes, def: SchemaType, fuel: nat)
    requires fuel > 0 && Inline(cts, def, fuel - 1).Ok?
    ensures AttrsInSchemaType(cts, def, fuel - 1).Ok?
    ensures AttrsInSchemaType(map[], Inline(cts, def, fuel - 1).value, 0).Ok?
    ensures PairsInlineTo(cts, AttrsInSchemaType(cts, def, fuel - 1).value,
                          AttrsInSchemaType(map[], Inline(cts, def, fuel - 1).value, 0).value, fuel)
    decreases fuel - 1, def, 2
  {
    AttrsAfterInline(cts, def, fuel - 1);
    var pairs := AttrsInSchemaType(cts, def, fuel - 1).value;
    forall i | 0 <= i < |pairs| ensures Inline(cts, pairs[i].1, fuel) == Inline(cts, pairs[i].1, fuel - 1) {
      InlineMonotone(cts, pairs[i].1, fuel - 1, fuel);
    }
  }

  lemma {:induction false} InlineAttributesParts(cts: CommonTypes, attributes: seq<Attribute>, fuel: nat)
    requires InlineAttributes(cts, attributes, fuel).Ok?
    ensures |InlineAttributes(cts, attributes, fuel).value| == |attributes|
    ensures forall i | 0 <= i < |attributes| ::
      var to := InlineAttributes(cts, attributes, fuel).value[i];
      attributes[i].name == to.name && attributes[i].required == to.required
        && Inline(cts, attributes[i].ty, fuel) == Ok(to.ty)
  {
    if attributes == [] {
    } else {
      InlineAttributesParts(cts, attributes[1..], fuel);
    }
  }

  lemma {:induction false} AttrsOfAttributesAfterInline(cts: CommonTypes, attributes: seq<Attribute>, fuel: nat)
    requires InlineAttributes(cts, attributes, fuel).Ok?
    ensures AttrsInAttributes(cts, attributes, fuel).Ok?
    ensures AttrsInAttributes(map[], InlineAttributes(cts, attributes, fuel).value, 0).Ok?
    ensures PairsInlineTo(cts, AttrsInAttributes(cts, attributes, fuel).value,
                          AttrsInAttributes(map[], InlineAttributes(cts, attributes, fuel).value, 0).value, fuel)
    decreases fuel, attributes, 0
  {
    if attributes == [] {
    } else {
      AttrsAfterInline(cts, attributes[0].ty, fuel);
      AttrsOfAttributesAfterInline(cts, attributes[1..], fuel);
      var inlined := InlineAttributes(cts, attributes, fuel).value;
      assert inlined[1..] == InlineAttributes(cts, attributes[1..], fuel).value;
    }
  }
}
