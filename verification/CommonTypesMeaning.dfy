/**
 Introducing common types keeps the meaning of a schema: the emitted definitions have no cycle,
 inlining them gives back the original, and so do the functions that follow references.
 */
module CommonTypesMeaning {
  import opened Wrappers
  import opened SchemaTypes
  import opened CommonTypeBindings
  import opened Cardinality

  // ---------- No cycle and nothing undefined ----------

  /** The ids referred to inside a type. */
  function References(ty: SchemaType): set<Id>
    decreases ty
  {
    match ty
    case CommonTypeRef(name) => {name.base}
    case EntityOrCommon(name) => {name.base}
    case Set(element) => References(element)
    case Record(attributes, _) => set i, r | 0 <= i < |attributes| && r in References(attributes[i].ty) :: r
    case _ => {}
  }

  /** The id stands for a smaller type, or for the same type later in its chain. */
  ghost predicate RanksBelow(b: BindingMap, id: Id, ty: SchemaType, i: nat) {
    exists t, j: nat ::
      t in b && j < |b[t]| && b[t][j] == id && (Size(t) < Size(ty) || (t == ty && i < j))
  }

  lemma {:induction false} PlainHasNoReferences(ty: SchemaType)
    requires Plain(ty)
    ensures References(ty) == {}
    decreases ty
  {
    match ty
    case Set(element) => PlainHasNoReferences(element);
    case Record(attributes, _) =>
      forall i | 0 <= i < |attributes| ensures References(attributes[i].ty) == {} {
        PlainHasNoReferences(attributes[i].ty);
      }
    case _ =>
  }

  lemma {:induction false} RewrittenRefersBelow(b: BindingMap, ty: SchemaType, out: SchemaType, r: Id)
    requires WellBound(b) && Plain(ty) && Rewritten(b, ty, out) && r in References(out)
    ensures exists t :: t in b && r in b[t] && Size(t) < Size(ty)
    decreases ty
  {
    match ty
    case Set(element) =>
      if element !in b {
        RewrittenRefersBelow(b, element, out.element, r);
      }
    case Record(attributes, _) =>
      var i :| 0 <= i < |attributes| && r in References(out.attributes[i].ty);
      AttributeIsSmaller(attributes, i);
      RewrittenRefersBelow(b, attributes[i].ty, out.attributes[i].ty, r);
    case _ =>
      PlainHasNoReferences(ty);
  }

  /** Every reference in the definition of an id strictly lowers (size of bound type, places left in its chain). */
  lemma DefinitionsReferBelow(b: BindingMap, cts: CommonTypes, ty: SchemaType, i: nat, r: Id)
    requires WellBound(b) && CommonTypesOf(b, cts) && ty in b && i < |b[ty]|
    requires b[ty][i] in cts && r in References(cts[b[ty][i]])
    ensures RanksBelow(b, r, ty, i)
    ensures r in cts
  {
    assert DefinesLink(b, ty, b[ty], i, cts);
    if i == |b[ty]| - 1 {
      RewrittenRefersBelow(b, ty, cts[b[ty][i]], r);
      var t :| t in b && r in b[t] && Size(t) < Size(ty);
      var j: nat :| j < |b[t]| && b[t][j] == r;
    } else {
      assert b[ty][i + 1] == r;
    }
  }

  /** A chain of references from definition to definition. */
  predicate IsReferencePath(cts: CommonTypes, path: seq<Id>) {
    forall k | 0 < k < |path| :: RefersTo(cts, path[k - 1], path[k])
  }

  predicate RefersTo(cts: CommonTypes, id: Id, other: Id) {
    id in cts && other in References(cts[id])
  }

  lemma {:induction false} PathRanksBelow(b: BindingMap, cts: CommonTypes, path: seq<Id>, ty: SchemaType, i: nat)
    requires WellBound(b) && CommonTypesOf(b, cts) && ty in b && i < |b[ty]|
    requires |path| >= 2 && IsReferencePath(cts, path) && path[0] == b[ty][i]
    ensures RanksBelow(b, path[|path| - 1], ty, i)
    decreases |path|
  {
    assert RefersTo(cts, path[0], path[1]);
    DefinitionsReferBelow(b, cts, ty, i, path[1]);
    if |path| > 2 {
      var t, j: nat :| t in b && j < |b[t]| && b[t][j] == path[1] && (Size(t) < Size(ty) || (t == ty && i < j));
      PathRanksBelow(b, cts, path[1..], t, j);
    }
  }

  /** Following references never comes back to where it started. */
  lemma CommonTypesAreAcyclic(b: BindingMap, cts: CommonTypes, path: seq<Id>)
    requires WellBound(b) && CommonTypesOf(b, cts)
    requires |path| >= 2 && IsReferencePath(cts, path)
    ensures path[0] != path[|path| - 1]
  {
    assert RefersTo(cts, path[0], path[1]);
    var ty, i :| ty in b && 0 <= i < |b[ty]| && b[ty][i] == path[0];
    PathRanksBelow(b, cts, path, ty, i);
  }

  // ---------- How many definitions a path can look up ----------

  /** The ids bound to types smaller than `n`. */
  ghost function IdsBelow(b: BindingMap, n: nat): set<Id> {
    set ty, i | ty in b && Size(ty) < n && 0 <= i < |b[ty]| :: b[ty][i]
  }

  lemma ChainFitsBelow(b: BindingMap, ty: SchemaType, n: nat)
    requires WellBound(b) && ty in b && Size(ty) < n
    ensures |b[ty]| + |IdsBelow(b, Size(ty))| <= |IdsBelow(b, n)|
  {
    DistinctSeqSize(b[ty]);
    ChainApart(b, ty);
    ChainWithin(b, ty, n);
    SubsetSize((set id | id in b[ty]) + IdsBelow(b, Size(ty)), IdsBelow(b, n));
  }

  lemma ChainWithin(b: BindingMap, ty: SchemaType, n: nat)
    requires ty in b && Size(ty) < n
    ensures (set id | id in b[ty]) + IdsBelow(b, Size(ty)) <= IdsBelow(b, n)
  {
    forall id | id in b[ty] ensures id in IdsBelow(b, n) {
      var i :| 0 <= i < |b[ty]| && b[ty][i] == id;
    }
  }

  /** The ids of a type are not ids of smaller types. */
  lemma ChainApart(b: BindingMap, ty: SchemaType)
    requires WellBound(b) && ty in b
    ensures (set id | id in b[ty]) !! IdsBelow(b, Size(ty))
  {
    forall id | id in b[ty] ensures id !in IdsBelow(b, Size(ty)) {
      var i :| 0 <= i < |b[ty]| && b[ty][i] == id;
    }
  }

  // ---------- Inlining gives back the original ----------

  /** Enough fuel: one for every id bound to a smaller type. */
  lemma {:induction false} RewrittenInlines(b: BindingMap, cts: CommonTypes, ty: SchemaType, out: SchemaType, fuel: nat)
    requires WellBound(b) && CommonTypesOf(b, cts) && Plain(ty) && Rewritten(b, ty, out)
    requires fuel >= |IdsBelow(b, Size(ty))|
    ensures Inline(cts, out, fuel) == Ok(ty)
    decreases Size(ty), 0, 0
  {
    match ty
    case Set(element) =>
      if element in b {
        var j: nat :| j < |b[element]| && b[element][j] == out.element.typeName.base;
        ChainFitsBelow(b, element, Size(ty));
        ReferenceInlines(b, cts, element, j, fuel);
        assert out.element == CommonTypeRef(Unqualified(b[element][j]));
      } else {
        SubsetSize(IdsBelow(b, Size(element)), IdsBelow(b, Size(ty)));
        RewrittenInlines(b, cts, element, out.element, fuel);
      }
    case Record(attributes, _) =>
      forall i | 0 <= i < |attributes| ensures Inline(cts, out.attributes[i].ty, fuel) == Ok(attributes[i].ty) {
        AttributeIsSmaller(attributes, i);
        SubsetSize(IdsBelow(b, Size(attributes[i].ty)), IdsBelow(b, Size(ty)));
        RewrittenInlines(b, cts, attributes[i].ty, out.attributes[i].ty, fuel);
      }
      InlineAttributesPointwise(cts, out.attributes, attributes, fuel);
    case _ =>
      InlineOfPlain(cts, ty, fuel);
  }

  lemma {:induction false} ReferenceInlines(b: BindingMap, cts: CommonTypes, ty: SchemaType, i: nat, fuel: nat)
    requires WellBound(b) && CommonTypesOf(b, cts) && ty in b && i < |b[ty]|
    requires fuel >= |b[ty]| - i + |IdsBelow(b, Size(ty))|
    ensures Inline(cts, CommonTypeRef(Unqualified(b[ty][i])), fuel) == Ok(ty)
    decreases Size(ty), 1, |b[ty]| - i
  {
    assert DefinesLink(b, ty, b[ty], i, cts);
    if i == |b[ty]| - 1 {
      RewrittenInlines(b, cts, ty, cts[b[ty][i]], fuel - 1);
    } else {
      ReferenceInlines(b, cts, ty, i + 1, fuel - 1);
    }
  }

  /** A shape or context inlines to the original, looking up each common type at most once on a path. */
  lemma WholeInlines(b: BindingMap, cts: CommonTypes, ty: SchemaType, out: SchemaType, fuel: nat)
    requires WellBound(b) && CommonTypesOf(b, cts) && Plain(ty) && RewrittenWhole(b, ty, out)
    requires fuel >= |cts|
    ensures Inline(cts, out, fuel) == Ok(ty)
  {
    assert |cts| == |cts.Keys|;
    SubsetSize(IdsBelow(b, Size(ty) + 1), cts.Keys);
    if ty in b {
      var j: nat :| j < |b[ty]| && b[ty][j] == out.typeName.base;
      ChainFitsBelow(b, ty, Size(ty) + 1);
      ReferenceInlines(b, cts, ty, j, fuel);
      assert out == CommonTypeRef(Unqualified(b[ty][j]));
    } else {
      SubsetSize(IdsBelow(b, Size(ty)), IdsBelow(b, Size(ty) + 1));
      RewrittenInlines(b, cts, ty, out, fuel);
    }
  }

  /** The attributes of a rewritten shape can be read, unless its reference is not the last of its chain. */
  lemma AttrsFromRewritten(b: BindingMap, cts: CommonTypes, ty: SchemaType, out: SchemaType)
    requires WellBound(b) && CommonTypesOf(b, cts) && Plain(ty) && ty.Record? && RewrittenWhole(b, ty, out)
    ensures AttrsFrom(cts, out).Some? <==> (ty !in b || out.typeName.base == b[ty][|b[ty]| - 1])
    ensures AttrsFrom(cts, out).None? <==>
              out.CommonTypeRef? && out.typeName.base in cts && cts[out.typeName.base].CommonTypeRef?
    ensures AttrsFrom(cts, out).Some? ==>
              Inline(cts, Record(AttrsFrom(cts, out).value.0, AttrsFrom(cts, out).value.1), |cts|) == Ok(ty)
  {
    if ty in b {
      var j: nat :| j < |b[ty]| && b[ty][j] == out.typeName.base;
      assert DefinesLink(b, ty, b[ty], j, cts);
      if j == |b[ty]| - 1 {
        SubsetSize(IdsBelow(b, Size(ty)), cts.Keys);
        assert |cts| == |cts.Keys|;
        RewrittenInlines(b, cts, ty, cts[b[ty][j]], |cts|);
      } else {
        assert b[ty][j] != b[ty][|b[ty]| - 1];
      }
    } else {
      WholeInlines(b, cts, ty, out, |cts|);
    }
  }

  // ---------- Whole schemas ----------

  datatype EntityType =
    | Enum(choices: seq<string>)
    | Standard(memberOfTypes: seq<Name>, shape: SchemaType, tags: Option<SchemaType>)

  datatype ApplySpec = ApplySpec(resourceTypes: seq<Name>, principalTypes: seq<Name>, context: SchemaType)

  datatype ActionType = ActionType(memberOf: Option<seq<string>>, appliesTo: Option<ApplySpec>)

  datatype NamespaceDefinition = NamespaceDefinition(
    commonTypes: CommonTypes,
    entityTypes: map<string, EntityType>,
    actions: map<string, ActionType>)

  /** No references in the shapes and contexts. */
  predicate PlainSchema(ns: NamespaceDefinition) {
    && (forall id | id in ns.entityTypes :: ns.entityTypes[id].Standard? ==> Plain(ns.entityTypes[id].shape))
    && (forall id | id in ns.actions :: ns.actions[id].appliesTo.Some? ==>
      Plain(ns.actions[id].appliesTo.value.context))
  }

  /** The entity type with its shape inlined. */
  function InlineEntityType(cts: CommonTypes, et: EntityType, fuel: nat): Result<EntityType, ResolveError> {
    match et
    case Enum(_) => Ok(et)
    case Standard(_, shape, _) =>
      var inlined :- Inline(cts, shape, fuel);
      Ok(et.(shape := inlined))
  }

  /** The action with its context inlined. */
  function InlineAction(cts: CommonTypes, action: ActionType, fuel: nat): Result<ActionType, ResolveError> {
    match action.appliesTo
    case None => Ok(action)
    case Some(applies) =>
      var inlined :- Inline(cts, applies.context, fuel);
      Ok(action.(appliesTo := Some(applies.(context := inlined))))
  }

  /** `after` declares what `before` declares, and inlining its common types gives `before` back. */
  ghost predicate SameMeaning(before: NamespaceDefinition, after: NamespaceDefinition) {
    var fuel := |after.commonTypes|;
    && after.entityTypes.Keys == before.entityTypes.Keys
    && after.actions.Keys == before.actions.Keys
    && (forall id | id in before.entityTypes ::
          InlineEntityType(after.commonTypes, after.entityTypes[id], fuel) == Ok(before.entityTypes[id]))
    && (forall id | id in before.actions ::
          InlineAction(after.commonTypes, after.actions[id], fuel) == Ok(before.actions[id]))
  }

  /** The same entity type, its shape rewritten. */
  predicate RewrittenEntityType(b: BindingMap, et: EntityType, out: EntityType) {
    match et
    case Enum(_) => out == et
    case Standard(_, shape, _) => out.Standard? && out == et.(shape := out.shape) && RewrittenWhole(b, shape, out.shape)
  }

  /** The same action, its context rewritten. */
  predicate RewrittenAction(b: BindingMap, action: ActionType, out: ActionType) {
    && out.memberOf == action.memberOf
    && match action.appliesTo
       case None => out.appliesTo.None?
       case Some(applies) =>
         && out.appliesTo.Some?
         && out.appliesTo.value == applies.(context := out.appliesTo.value.context)
         && RewrittenWhole(b, applies.context, out.appliesTo.value.context)
  }

  /** `after` is `before` rewritten with bindings `b`, and its common types are those of `b`. */
  ghost predicate RewrittenSchema(b: BindingMap, before: NamespaceDefinition, after: NamespaceDefinition) {
    && WellBound(b) && CommonTypesOf(b, after.commonTypes)
    && after.entityTypes.Keys == before.entityTypes.Keys
    && after.actions.Keys == before.actions.Keys
    && (forall id | id in before.entityTypes :: RewrittenEntityType(b, before.entityTypes[id], after.entityTypes[id]))
    && (forall id | id in before.actions :: RewrittenAction(b, before.actions[id], after.actions[id]))
  }

  /** Rewriting keeps the meaning, whatever the bindings. */
  lemma RewritingKeepsMeaning(b: BindingMap, before: NamespaceDefinition, after: NamespaceDefinition)
    requires PlainSchema(before) && RewrittenSchema(b, before, after)
    ensures SameMeaning(before, after)
  {
    var cts, fuel := after.commonTypes, |after.commonTypes|;
    forall id | id in before.entityTypes
      ensures InlineEntityType(cts, after.entityTypes[id], fuel) == Ok(before.entityTypes[id])
    {
      if before.entityTypes[id].Standard? {
        WholeInlines(b, cts, before.entityTypes[id].shape, after.entityTypes[id].shape, fuel);
      }
    }
    forall id | id in before.actions ensures InlineAction(cts, after.actions[id], fuel) == Ok(before.actions[id]) {
      if before.actions[id].appliesTo.Some? {
        WholeInlines(b, cts, before.actions[id].appliesTo.value.context, after.actions[id].appliesTo.value.context,
          fuel);
      }
    }
  }

  /** A rewritten shape or context is not a bound type, and has no set of a bound type in it. */
  predicate UsesBindingsIn(b: BindingMap, whole: SchemaType) {
    whole !in b && NoBoundElement(b, whole)
  }

  /** Nothing that could be replaced by a reference is left anywhere in the schema. */
  ghost predicate UsesBindings(b: BindingMap, ns: NamespaceDefinition) {
    && DefinesNoBoundElement(b, ns.commonTypes)
    && (forall id | id in ns.entityTypes && ns.entityTypes[id].Standard? :: UsesBindingsIn(b, ns.entityTypes[id].shape))
    && (forall id | id in ns.actions && ns.actions[id].appliesTo.Some? ::
          UsesBindingsIn(b, ns.actions[id].appliesTo.value.context))
  }

  lemma WholeUsesBindings(b: BindingMap, ty: SchemaType, out: SchemaType)
    requires BindsPlainTypes(b) && Plain(ty) && RewrittenWhole(b, ty, out)
    ensures UsesBindingsIn(b, out)
  {
    if ty in b {
      assert Subterms(out) == {out};
    } else {
      RewrittenHasNoBoundElement(b, ty, out);
      if out in b {
        RewrittenToPlain(b, ty, out);
      }
    }
  }

  /** Rewriting uses the bindings everywhere, whatever they are. */
  lemma RewritingUsesBindings(b: BindingMap, before: NamespaceDefinition, after: NamespaceDefinition)
    requires PlainSchema(before) && RewrittenSchema(b, before, after)
    ensures UsesBindings(b, after)
  {
    DefinitionsHaveNoBoundElement(b, after.commonTypes);
    forall id | id in after.entityTypes && after.entityTypes[id].Standard?
      ensures UsesBindingsIn(b, after.entityTypes[id].shape)
    {
      WholeUsesBindings(b, before.entityTypes[id].shape, after.entityTypes[id].shape);
    }
    forall id | id in after.actions && after.actions[id].appliesTo.Some?
      ensures UsesBindingsIn(b, after.actions[id].appliesTo.value.context)
    {
      WholeUsesBindings(b, before.actions[id].appliesTo.value.context, after.actions[id].appliesTo.value.context);
    }
  }

  method RewriteEntityType(bindings: Bindings, et: EntityType) returns (out: EntityType)
    requires bindings.Valid() && (et.Standard? ==> Plain(et.shape))
    ensures RewrittenEntityType(bindings.bindings, et, out)
  {
    match et
    case Enum(_) =>
      out := et;
    case Standard(memberOfTypes, shape, tags) =>
      var s := bindings.RewriteRecordType(shape);
      out := Standard(memberOfTypes, s, tags);
  }

  method RewriteAction(bindings: Bindings, action: ActionType) returns (out: ActionType)
    requires bindings.Valid() && (action.appliesTo.Some? ==> Plain(action.appliesTo.value.context))
    ensures RewrittenAction(bindings.bindings, action, out)
  {
    match action.appliesTo
    case None =>
      out := ActionType(action.memberOf, None);
    case Some(applies) =>
      var context := bindings.RewriteRecordType(applies.context);
      out := ActionType(action.memberOf, Some(ApplySpec(applies.resourceTypes, applies.principalTypes, context)));
  }

  /** Only types that occur in the attributes' types are bound. */
  ghost predicate BindsTypesOf(b: BindingMap, attributes: seq<(string, SchemaType)>) {
    forall ty | ty in b :: exists i :: 0 <= i < |attributes| && ty in Subterms(attributes[i].1)
  }

  /** Binds ids to types that occur in `attributes`. */
  method BindAttributes(attributes: seq<(string, SchemaType)>) returns (bindings: Bindings)
    requires forall i | 0 <= i < |attributes| :: Plain(attributes[i].1)
    ensures fresh(bindings) && bindings.Valid() && BindsTypesOf(bindings.bindings, attributes)
  {
    bindings := new Bindings();
    for k := 0 to |attributes|
      invariant fresh(bindings) && bindings.Valid()
      invariant forall ty | ty in bindings.bindings :: exists i :: 0 <= i < k && ty in Subterms(attributes[i].1)
    {
      BindType(attributes[k].1, bindings);
    }
  }

  method RewriteEntityTypes(bindings: Bindings, entityTypes: map<string, EntityType>)
    returns (out: map<string, EntityType>)
    requires bindings.Valid()
    requires forall id | id in entityTypes :: entityTypes[id].Standard? ==> Plain(entityTypes[id].shape)
    ensures out.Keys == entityTypes.Keys
    ensures forall id | id in out :: RewrittenEntityType(bindings.bindings, entityTypes[id], out[id])
  {
    out := map[];
    var todo := entityTypes.Keys;
    while todo != {}
      invariant todo <= entityTypes.Keys && out.Keys == entityTypes.Keys - todo
      invariant forall id | id in out :: RewrittenEntityType(bindings.bindings, entityTypes[id], out[id])
      decreases |todo|
    {
      var id :| id in todo;
      var et := RewriteEntityType(bindings, entityTypes[id]);
      out := out[id := et];
      todo := todo - {id};
    }
  }

  method RewriteActions(bindings: Bindings, actions: map<string, ActionType>) returns (out: map<string, ActionType>)
    requires bindings.Valid()
    requires forall id | id in actions :: actions[id].appliesTo.Some? ==> Plain(actions[id].appliesTo.value.context)
    ensures out.Keys == actions.Keys
    ensures forall id | id in out :: RewrittenAction(bindings.bindings, actions[id], out[id])
  {
    out := map[];
    var todo := actions.Keys;
    while todo != {}
      invariant todo <= actions.Keys && out.Keys == actions.Keys - todo
      invariant forall id | id in out :: RewrittenAction(bindings.bindings, actions[id], out[id])
      decreases |todo|
    {
      var id :| id in todo;
      var action := RewriteAction(bindings, actions[id]);
      out := out[id := action];
      todo := todo - {id};
    }
  }

  /**
   Adds common types to a schema: binds ids to the types of `attributes`, makes the definitions,
   and rewrites every entity shape and action context.
   */
  method AddCommonTypes(schema: NamespaceDefinition, attributes: seq<(string, SchemaType)>)
    returns (out: NamespaceDefinition)
    requires PlainSchema(schema)
    requires forall i | 0 <= i < |attributes| :: Plain(attributes[i].1)
    ensures exists b :: RewrittenSchema(b, schema, out) && BindsTypesOf(b, attributes) && UsesBindings(b, out)
    ensures SameMeaning(schema, out)
  {
    var bindings := BindAttributes(attributes);
    ghost var b := bindings.bindings;
    var cts := bindings.ToCommonTypes();
    var entityTypes := RewriteEntityTypes(bindings, schema.entityTypes);
    var actions := RewriteActions(bindings, schema.actions);
    out := NamespaceDefinition(cts, entityTypes, actions);
    RewritingUsesBindings(b, schema, out);
    RewritingKeepsMeaning(b, schema, out);
  }

  /** Following references in a schema with the same meaning gives the types and the attributes of the original. */
  lemma ResolutionAgrees(before: NamespaceDefinition, after: NamespaceDefinition, ns: Option<Name>, id: string)
    requires SameMeaning(before, after) && PlainSchema(before)
    requires id in before.entityTypes && before.entityTypes[id].Standard?
    ensures after.entityTypes[id].Standard?
    ensures var cts, fuel := after.commonTypes, |after.commonTypes|;
            var shape, shape' := before.entityTypes[id].shape, after.entityTypes[id].shape;
            && SchemaTypeToType(cts, ns, shape', fuel) == SchemaTypeToType(map[], ns, shape, 0)
            && AttrsInSchemaType(cts, shape', fuel).Ok? && AttrsInSchemaType(map[], shape, 0).Ok?
            && PairsInlineTo(cts, AttrsInSchemaType(cts, shape', fuel).value,
              AttrsInSchemaType(map[], shape, 0).value, fuel)
  {
    assert InlineEntityType(after.commonTypes, after.entityTypes[id], |after.commonTypes|)
      == Ok(before.entityTypes[id]);
    var shape' := after.entityTypes[id].shape;
    ToTypeAfterInline(after.commonTypes, ns, shape', |after.commonTypes|);
    AttrsAfterInline(after.commonTypes, shape', |after.commonTypes|);
  }

  /** The same for the context of an action. */
  lemma ContextResolutionAgrees(before: NamespaceDefinition, after: NamespaceDefinition, ns: Option<Name>, id: string)
    requires SameMeaning(before, after) && PlainSchema(before)
    requires id in before.actions && before.actions[id].appliesTo.Some?
    ensures after.actions[id].appliesTo.Some?
    ensures var cts, fuel := after.commonTypes, |after.commonTypes|;
            var context, context' := before.actions[id].appliesTo.value.context,
              after.actions[id].appliesTo.value.context;
            && SchemaTypeToType(cts, ns, context', fuel) == SchemaTypeToType(map[], ns, context, 0)
            && AttrsInSchemaType(cts, context', fuel).Ok? && AttrsInSchemaType(map[], context, 0).Ok?
            && PairsInlineTo(cts, AttrsInSchemaType(cts, context', fuel).value,
              AttrsInSchemaType(map[], context, 0).value, fuel)
  {
    assert InlineAction(after.commonTypes, after.actions[id], |after.commonTypes|) == Ok(before.actions[id]);
    var context' := after.actions[id].appliesTo.value.context;
    ToTypeAfterInline(after.commonTypes, ns, context', |after.commonTypes|);
    AttrsAfterInline(after.commonTypes, context', |after.commonTypes|);
  }

  // ---------- A schema on which reading the attributes panics ----------

  /** A record type that is both an attribute's type and the shape of an entity type. */
  const SHARED := Record([], false)

  const OWNER_SHAPE := Record([Attribute("part", SHARED, true)], false)

  const BEFORE := NamespaceDefinition(
    map[], map["Part" := Standard([], SHARED, None), "Owner" := Standard([], OWNER_SHAPE, None)], map[])

  /** The shared type has two ids, and the shape of `Part` became the first. */
  const AFTER := NamespaceDefinition(
    map["X" := CommonTypeRef(Unqualified("Y")), "Y" := SHARED],
    map["Part" := Standard([], CommonTypeRef(Unqualified("X")), None), "Owner" := Standard([], OWNER_SHAPE, None)],
    map[])

  lemma AttrsCanPanic()
    ensures PlainSchema(BEFORE)
    ensures exists b :: RewrittenSchema(b, BEFORE, AFTER) && BindsTypesOf(b, [("part", SHARED)])
    ensures AttrsFrom(AFTER.commonTypes, AFTER.entityTypes["Part"].shape).None?
  {
    var b: BindingMap := map[SHARED := ["X", "Y"]];
    assert Plain(SHARED) && Plain(OWNER_SHAPE.attributes[0].ty);
    assert WellBound(b) by {
      assert "X" != "Y";
    }
    assert SHARED in Subterms([("part", SHARED)][0].1);
    SharedChain(b);
    OwnerIsKept(b);
    assert RewrittenEntityType(b, BEFORE.entityTypes["Part"], AFTER.entityTypes["Part"]);
    assert RewrittenEntityType(b, BEFORE.entityTypes["Owner"], AFTER.entityTypes["Owner"]);
    assert RewrittenSchema(b, BEFORE, AFTER);
  }

  lemma SharedChain(b: BindingMap)
    requires b == map[SHARED := ["X", "Y"]]
    ensures CommonTypesOf(b, AFTER.commonTypes)
  {
    var cts := AFTER.commonTypes;
    assert b[SHARED][0] == "X" && b[SHARED][1] == "Y";
    assert DefinesLink(b, SHARED, b[SHARED], 0, cts) && DefinesLink(b, SHARED, b[SHARED], 1, cts);
    assert IdsOfTypes(b, b.Keys) == {"X", "Y"};
  }

  lemma OwnerIsKept(b: BindingMap)
    requires b == map[SHARED := ["X", "Y"]]
    ensures RewrittenWhole(b, OWNER_SHAPE, OWNER_SHAPE)
  {
    assert OWNER_SHAPE.attributes != [];
    assert Rewritten(b, OWNER_SHAPE.attributes[0].ty, OWNER_SHAPE.attributes[0].ty);
  }
}
