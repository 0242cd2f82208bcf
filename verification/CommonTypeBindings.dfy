/**
 Introducing common types into a schema without any: ids are bound to types that occur in it,
 and types inside sets, and whole entity shapes and contexts, are replaced by references.
 Every draw from the fuzzer's input is a free choice (`*`).
 */
module CommonTypeBindings {
  import opened Wrappers
  import opened SchemaTypes
  import opened Cardinality

  type Id = string
  type BindingMap = map<SchemaType, seq<Id>>

  // ---------- Fresh ids ----------

  /** The ids of `ids` that are at least `n` long: what the renaming loop can still run into. */
  ghost function LongIds(ids: set<Id>, n: nat): set<Id> {
    set x | x in ids && |x| >= n
  }

  lemma LongIdsShrink(ids: set<Id>, id: Id)
    requires id in ids
    ensures |LongIds(ids, |id| + 3)| < |LongIds(ids, |id|)|
  {
    var more, fewer := LongIds(ids, |id|), LongIds(ids, |id| + 3);
    assert fewer <= more - {id};
    SubsetSize(fewer, more - {id});
  }

  function Underscores(k: nat): string {
    if k == 0 then "" else "___" + Underscores(k - 1)
  }

  /** The first of `id`, `id___`, `id______`, ... that is not taken. */
  ghost predicate IsFirstFree(ids: set<Id>, id: Id, result: Id) {
    exists k: nat {:trigger Underscores(k)} ::
      && result == id + Underscores(k)
      && result !in ids
      && forall j: nat {:trigger Underscores(j)} | j < k :: id + Underscores(j) in ids
  }

  // ---------- Bindings as a value ----------

  /** Every id stands for one type at one place, and every type bound at all has an id. */
  ghost predicate WellBound(b: BindingMap) {
    && (forall ty | ty in b :: Plain(ty) && b[ty] != [])
    && (forall t1, t2, i, j {:trigger b[t1][i], b[t2][j]} |
          t1 in b && t2 in b && 0 <= i < |b[t1]| && 0 <= j < |b[t2]| && b[t1][i] == b[t2][j] :: t1 == t2 && i == j)
  }

  ghost function IdsOf(b: BindingMap): set<Id> {
    set ty, i | ty in b && 0 <= i < |b[ty]| :: b[ty][i]
  }

  /** Appends an id to the ids of a type. */
  function Bind(b: BindingMap, ty: SchemaType, id: Id): BindingMap {
    b[ty := if ty in b then b[ty] + [id] else [id]]
  }

  lemma BindKeepsWellBound(b: BindingMap, ty: SchemaType, id: Id)
    requires WellBound(b) && Plain(ty) && id !in IdsOf(b)
    ensures WellBound(Bind(b, ty, id)) && IdsOf(Bind(b, ty, id)) == IdsOf(b) + {id}
  {
    var c := Bind(b, ty, id);
    forall t1, t2, i, j | t1 in c && t2 in c && 0 <= i < |c[t1]| && 0 <= j < |c[t2]| && c[t1][i] == c[t2][j]
      ensures t1 == t2 && i == j
    {
      OldOrNew(b, ty, id, t1, i);
      OldOrNew(b, ty, id, t2, j);
    }
    BindAddsId(b, ty, id);
  }

  /** A place in the bindings after one more id: one from before, or that of the new id. */
  lemma OldOrNew(b: BindingMap, ty: SchemaType, id: Id, t: SchemaType, i: nat)
    requires id !in IdsOf(b) && t in Bind(b, ty, id) && i < |Bind(b, ty, id)[t]|
    ensures var x := Bind(b, ty, id)[t][i];
            if t in b && i < |b[t]| then x == b[t][i] && x in IdsOf(b) && x != id
            else t == ty && i == |Bind(b, ty, id)[ty]| - 1 && x == id
  {
    if t in b && i < |b[t]| {
      assert b[t][i] in IdsOf(b);
    }
  }

  lemma BindAddsId(b: BindingMap, ty: SchemaType, id: Id)
    requires id !in IdsOf(b)
    ensures IdsOf(Bind(b, ty, id)) == IdsOf(b) + {id}
  {
    var c := Bind(b, ty, id);
    forall x ensures x in IdsOf(c) <==> x in IdsOf(b) || x == id {
      if x in IdsOf(b) {
        var t, i :| t in b && 0 <= i < |b[t]| && b[t][i] == x;
        assert c[t][i] == x;
      }
      if x in IdsOf(c) {
        var t, i :| t in c && 0 <= i < |c[t]| && c[t][i] == x;
        OldOrNew(b, ty, id, t, i);
      }
      assert c[ty][|c[ty]| - 1] == id;
    }
  }

  /** Later bindings: every type keeps its ids, possibly with more after them. */
  ghost predicate Grows(b: BindingMap, c: BindingMap) {
    forall ty | ty in b :: ty in c && b[ty] <= c[ty]
  }

  // ---------- Rewriting ----------

  predicate IsReferenceTo(ids: seq<Id>, ty: SchemaType) {
    ty.CommonTypeRef? && ty.typeName.path == [] && ty.typeName.base in ids
  }

  /**
   `out` is `ty` with set elements that are bound replaced by a reference to one of their ids.
   An attribute's own type is never replaced, only what is inside it.
   */
  predicate Rewritten(b: BindingMap, ty: SchemaType, out: SchemaType)
    decreases ty
  {
    match ty
    case Set(element) =>
      && out.Set?
      && (if element in b then IsReferenceTo(b[element], out.element) else Rewritten(b, element, out.element))
    case Record(attributes, additional) =>
      && out.Record? && out.additionalAttributes == additional && |out.attributes| == |attributes|
      && forall i | 0 <= i < |attributes| ::
           && out.attributes[i].name == attributes[i].name
           && out.attributes[i].required == attributes[i].required
           && Rewritten(b, attributes[i].ty, out.attributes[i].ty)
    case _ => out == ty
  }

  /** Whatever is bound, an attribute's own type does not become a reference. */
  lemma AttributeTypeIsNotReplaced(b: BindingMap, ty: SchemaType, out: SchemaType, i: nat)
    requires Plain(ty) && ty.Record? && Rewritten(b, ty, out) && i < |ty.attributes|
    ensures out.Record? && i < |out.attributes| && !out.attributes[i].ty.CommonTypeRef?
    ensures !ty.attributes[i].ty.Set? && !ty.attributes[i].ty.Record? ==> out.attributes[i] == ty.attributes[i]
  {
    assert Plain(ty.attributes[i].ty) && Rewritten(b, ty.attributes[i].ty, out.attributes[i].ty);
  }

  /** Every set inside has an element that is not bound: whatever could be replaced was. */
  predicate NoBoundElement(b: BindingMap, ty: SchemaType) {
    forall s | s in Subterms(ty) && s.Set? :: s.element !in b
  }

  predicate BindsPlainTypes(b: BindingMap) {
    forall ty | ty in b :: Plain(ty)
  }

  /** Rewriting to a type without references changed nothing. */
  lemma {:induction false} RewrittenToPlain(b: BindingMap, ty: SchemaType, out: SchemaType)
    requires Rewritten(b, ty, out) && Plain(out)
    ensures out == ty
    decreases ty
  {
    match ty
    case Set(element) =>
      RewrittenToPlain(b, element, out.element);
    case Record(attributes, _) =>
      forall i | 0 <= i < |attributes| ensures out.attributes[i] == attributes[i] {
        RewrittenToPlain(b, attributes[i].ty, out.attributes[i].ty);
      }
      assert out.attributes == attributes;
    case _ =>
  }

  lemma {:induction false} RewrittenHasNoBoundElement(b: BindingMap, ty: SchemaType, out: SchemaType)
    requires BindsPlainTypes(b) && Plain(ty) && Rewritten(b, ty, out)
    ensures NoBoundElement(b, out)
    decreases ty
  {
    match ty
    case Set(element) =>
      if element in b {
        assert Subterms(out.element) == {out.element};
      } else {
        if out.element in b {
          RewrittenToPlain(b, element, out.element);
        }
        RewrittenHasNoBoundElement(b, element, out.element);
      }
    case Record(attributes, _) =>
      forall s | s in Subterms(out) && s.Set? ensures s.element !in b {
        var i :| 0 <= i < |attributes| && s in Subterms(out.attributes[i].ty);
        RewrittenHasNoBoundElement(b, attributes[i].ty, out.attributes[i].ty);
      }
    case _ =>
  }

  // ---------- Place by place ----------

  /** The type at a place inside a type: the element of a set is at 0, the attributes of a record at their index. */
  function At(ty: SchemaType, place: seq<nat>): Option<SchemaType>
    decreases |place|
  {
    if place == [] then Some(ty)
    else
      match ty
      case Set(element) => if place[0] == 0 then At(element, place[1..]) else None
      case Record(attributes, _) =>
        if place[0] < |attributes| then At(attributes[place[0]].ty, place[1..]) else None
      case _ => None
  }

  /** The place is inside a set element that is bound. */
  predicate IsReplaced(b: BindingMap, ty: SchemaType, place: seq<nat>)
    decreases |place|
  {
    place != []
    && match ty
       case Set(element) => element in b || IsReplaced(b, element, place[1..])
       case Record(attributes, _) =>
         place[0] < |attributes| && IsReplaced(b, attributes[place[0]].ty, place[1..])
       case _ => false
  }

  /** The same apart from what is inside. */
  predicate SameForm(ty: SchemaType, out: SchemaType) {
    match ty
    case Set(_) => out.Set?
    case Record(attributes, additional) =>
      && out.Record? && out.additionalAttributes == additional && |out.attributes| == |attributes|
      && forall i | 0 <= i < |attributes| ::
           out.attributes[i].name == attributes[i].name && out.attributes[i].required == attributes[i].required
    case _ => out == ty
  }

  /**
   At every place outside the replaced elements the output has the form of the input, and a set there whose element
   is bound has a reference to one of the element's ids.
   */
  lemma {:induction false} RewrittenAt(b: BindingMap, ty: SchemaType, out: SchemaType, place: seq<nat>)
    requires Rewritten(b, ty, out) && At(ty, place).Some? && !IsReplaced(b, ty, place)
    ensures At(out, place).Some? && SameForm(At(ty, place).value, At(out, place).value)
    ensures var here := At(ty, place).value;
            here.Set? && here.element in b ==> IsReferenceTo(b[here.element], At(out, place).value.element)
    decreases |place|
  {
    if place == [] {
    } else {
      match ty
      case Set(element) => RewrittenAt(b, element, out.element, place[1..]);
      case Record(attributes, _) =>
        RewrittenAt(b, attributes[place[0]].ty, out.attributes[place[0]].ty, place[1..]);
    }
  }

  /** As `Rewritten`, for an entity shape or a context, which may be replaced as a whole. */
  predicate RewrittenWhole(b: BindingMap, ty: SchemaType, out: SchemaType) {
    if ty in b then IsReferenceTo(b[ty], out) else Rewritten(b, ty, out)
  }

  /** The id at `i` is defined: as a reference to the next id, or as the rewritten type if it is the last. */
  predicate DefinesLink(b: BindingMap, ty: SchemaType, ids: seq<Id>, i: nat, cts: CommonTypes)
    requires i < |ids|
  {
    && ids[i] in cts
    && if i == |ids| - 1 then Rewritten(b, ty, cts[ids[i]]) else cts[ids[i]] == CommonTypeRef(Unqualified(ids[i + 1]))
  }

  predicate DefinesChain(b: BindingMap, ty: SchemaType, ids: seq<Id>, cts: CommonTypes) {
    forall i: nat | i < |ids| :: DefinesLink(b, ty, ids, i, cts)
  }

  /** The ids of some of the bound types. */
  ghost function IdsOfTypes(b: BindingMap, tys: set<SchemaType>): set<Id> {
    set ty, i | ty in tys && ty in b && 0 <= i < |b[ty]| :: b[ty][i]
  }

  /** The common types made from the bindings of `tys`. */
  ghost predicate DefinesChains(b: BindingMap, tys: set<SchemaType>, cts: CommonTypes) {
    && cts.Keys == IdsOfTypes(b, tys)
    && forall ty | ty in tys && ty in b :: DefinesChain(b, ty, b[ty], cts)
  }

  /** The common types made from all bindings. */
  ghost predicate CommonTypesOf(b: BindingMap, cts: CommonTypes) {
    DefinesChains(b, b.Keys, cts)
  }

  /** The first `n` links of a chain, and, with the first of them, the last one. */
  ghost predicate DefinesFirst(b: BindingMap, ty: SchemaType, ids: seq<Id>, n: nat, cts: CommonTypes)
    requires n < |ids|
  {
    && (forall j: nat | j < n :: DefinesLink(b, ty, ids, j, cts))
    && (n > 0 ==> DefinesLink(b, ty, ids, |ids| - 1, cts))
    && cts.Keys == (set j | 0 <= j < n :: ids[j]) + (if n > 0 then {ids[|ids| - 1]} else {})
  }

  predicate AllDifferent(ids: seq<Id>) {
    forall i, j | 0 <= i < j < |ids| :: ids[i] != ids[j]
  }

  lemma ChainIdsDiffer(b: BindingMap, ty: SchemaType)
    requires WellBound(b) && ty in b
    ensures AllDifferent(b[ty])
  {
    var ids := b[ty];
    forall i, j | 0 <= i < j < |ids| ensures ids[i] != ids[j] {
      assert b[ty][i] == ids[i] && b[ty][j] == ids[j];
    }
  }

  lemma DefineNext(b: BindingMap, ty: SchemaType, ids: seq<Id>, n: nat, cts: CommonTypes, t: SchemaType)
    requires n < |ids| - 1 && AllDifferent(ids) && DefinesFirst(b, ty, ids, n, cts) && Rewritten(b, ty, t)
    ensures DefinesFirst(b, ty, ids, n + 1, cts[ids[n] := CommonTypeRef(Unqualified(ids[n + 1]))][ids[|ids| - 1] := t])
  {
    var out := cts[ids[n] := CommonTypeRef(Unqualified(ids[n + 1]))][ids[|ids| - 1] := t];
    forall j: nat | j < n + 1 ensures DefinesLink(b, ty, ids, j, out) {
      if j < n {
        assert DefinesLink(b, ty, ids, j, cts);
      }
    }
    assert out.Keys == cts.Keys + {ids[n], ids[|ids| - 1]};
    assert (set j | 0 <= j < n + 1 :: ids[j]) == (set j | 0 <= j < n :: ids[j]) + {ids[n]};
  }

  lemma DefinedAll(b: BindingMap, ty: SchemaType, cts: CommonTypes)
    requires ty in b && |b[ty]| > 1 && DefinesFirst(b, ty, b[ty], |b[ty]| - 1, cts)
    ensures DefinesChains(b, {ty}, cts)
  {
    forall id ensures id in cts.Keys <==> id in IdsOfTypes(b, {ty}) {
      if id in IdsOfTypes(b, {ty}) {
        var i :| 0 <= i < |b[ty]| && b[ty][i] == id;
        assert DefinesLink(b, ty, b[ty], i, cts);
      }
    }
  }

  /** The chain of one more type leaves the chains of the others as they are. */
  lemma AddChain(b: BindingMap, done: set<SchemaType>, ty: SchemaType, cts: CommonTypes, chain: CommonTypes)
    requires WellBound(b) && ty in b && ty !in done
    requires DefinesChains(b, done, cts) && DefinesChains(b, {ty}, chain)
    ensures DefinesChains(b, done + {ty}, cts + chain)
  {
    forall other | other in done && other in b ensures DefinesChain(b, other, b[other], cts + chain) {
      forall id | id in b[other] ensures id in cts && id !in chain {
        var i :| 0 <= i < |b[other]| && b[other][i] == id;
        assert b[other][i] in IdsOfTypes(b, done);
      }
      SameDefinitions(b, other, b[other], cts, cts + chain);
    }
    SameDefinitions(b, ty, b[ty], chain, cts + chain);
  }

  lemma SameDefinitions(b: BindingMap, ty: SchemaType, ids: seq<Id>, cts: CommonTypes, other: CommonTypes)
    requires DefinesChain(b, ty, ids, cts)
    requires forall id | id in ids :: id in other && (id in cts ==> other[id] == cts[id])
    ensures DefinesChain(b, ty, ids, other)
  {
    forall i: nat | i < |ids| ensures DefinesLink(b, ty, ids, i, other) {
      assert DefinesLink(b, ty, ids, i, cts);
    }
  }

  /** No definition has a set of a bound type in it either. */
  predicate DefinesNoBoundElement(b: BindingMap, cts: CommonTypes) {
    forall id | id in cts :: NoBoundElement(b, cts[id])
  }

  lemma DefinitionsHaveNoBoundElement(b: BindingMap, cts: CommonTypes)
    requires WellBound(b) && CommonTypesOf(b, cts)
    ensures DefinesNoBoundElement(b, cts)
  {
    forall id | id in cts ensures NoBoundElement(b, cts[id]) {
      var ty, i: nat :| ty in b && i < |b[ty]| && b[ty][i] == id;
      assert DefinesLink(b, ty, b[ty], i, cts);
      if i == |b[ty]| - 1 {
        RewrittenHasNoBoundElement(b, ty, cts[id]);
      } else {
        assert Subterms(cts[id]) == {cts[id]};
      }
    }
  }

  class Bindings {
    var bindings: BindingMap
    var ids: set<Id>

    ghost predicate Valid()
      reads this
    {
      WellBound(bindings) && ids == IdsOf(bindings)
    }

    constructor ()
      ensures Valid() && bindings == map[] && ids == {}
    {
      bindings := map[];
      ids := {};
    }

    /** Binds `ty` to `id`, or to `id` followed by underscores if it is taken. */
    method AddBinding(ty: SchemaType, id: Id)
      requires Valid() && Plain(ty)
      modifies this
      ensures Valid()
      ensures exists newId ::
        && IsFirstFree(old(ids), id, newId)
        && ids == old(ids) + {newId}
        && bindings == Bind(old(bindings), ty, newId)
    {
      var newId := id;
      ghost var k: nat := 0;
      assert id + Underscores(0) == id;
      while newId in ids
        invariant unchanged(this)
        invariant newId == id + Underscores(k)
        invariant forall j: nat {:trigger Underscores(j)} | j < k :: id + Underscores(j) in ids
        decreases |LongIds(ids, |newId|)|
      {
        LongIdsShrink(ids, newId);
        UnderscoresAppend(k);
        assert newId + "___" == id + (Underscores(k) + "___");
        newId := newId + "___";
        k := k + 1;
      }
      assert IsFirstFree(ids, id, newId);
      BindKeepsWellBound(bindings, ty, newId);
      ids := ids + {newId};
      bindings := if ty in bindings then bindings[ty := bindings[ty] + [newId]] else bindings[ty := [newId]];
    }

    /** Replaces set elements inside `ty` by references to ids chosen among theirs. */
    method RewriteType(ty: SchemaType) returns (out: SchemaType)
      requires Valid() && Plain(ty)
      ensures Rewritten(bindings, ty, out) && NoBoundElement(bindings, out)
      decreases ty
    {
      match ty {
        case Set(element) =>
          if element in bindings {
            var i :| 0 <= i < |bindings[element]|;
            out := Set(CommonTypeRef(Unqualified(bindings[element][i])));
          } else {
            var e := RewriteType(element);
            out := Set(e);
          }
        case Record(attributes, additional) =>
          var rewritten: seq<Attribute> := [];
          for k := 0 to |attributes|
            invariant |rewritten| == k
            invariant forall i | 0 <= i < k ::
              && rewritten[i].name == attributes[i].name && rewritten[i].required == attributes[i].required
              && Rewritten(bindings, attributes[i].ty, rewritten[i].ty)
          {
            var t := RewriteType(attributes[k].ty);
            rewritten := rewritten + [Attribute(attributes[k].name, t, attributes[k].required)];
          }
          out := Record(rewritten, additional);
        case _ =>
          out := ty;
      }
      RewrittenHasNoBoundElement(bindings, ty, out);
    }

    /** Rewrites an entity shape or a context. */
    method RewriteRecordType(ty: SchemaType) returns (out: SchemaType)
      requires Valid() && Plain(ty)
      ensures RewrittenWhole(bindings, ty, out)
      ensures NoBoundElement(bindings, out) && out !in bindings
    {
      if ty in bindings {
        var i :| 0 <= i < |bindings[ty]|;
        out := CommonTypeRef(Unqualified(bindings[ty][i]));
      } else {
        out := RewriteType(ty);
        if out in bindings {
          RewrittenToPlain(bindings, ty, out);
        }
      }
    }

    method ToCommonTypes() returns (cts: CommonTypes)
      requires Valid()
      ensures CommonTypesOf(bindings, cts) && DefinesNoBoundElement(bindings, cts)
    {
      cts := map[];
      var todo := bindings.Keys;
      while todo != {}
        invariant todo <= bindings.Keys
        invariant DefinesChains(bindings, bindings.Keys - todo, cts)
        decreases |todo|
      {
        var ty :| ty in todo;
        var chain := DefineChain(ty);
        AddChain(bindings, bindings.Keys - todo, ty, cts, chain);
        cts := cts + chain;
        assert bindings.Keys - (todo - {ty}) == bindings.Keys - todo + {ty};
        todo := todo - {ty};
      }
      assert bindings.Keys - todo == bindings.Keys;
      DefinitionsHaveNoBoundElement(bindings, cts);
    }

    /** The definitions for the ids of one type: `id_1 = id_2`, ..., `id_n = rewritten type`. */
    method DefineChain(ty: SchemaType) returns (cts: CommonTypes)
      requires Valid() && ty in bindings
      ensures DefinesChains(bindings, {ty}, cts)
    {
      var chain := bindings[ty];
      if |chain| == 1 {
        var t := RewriteType(ty);
        cts := map[chain[0] := t];
      } else {
        cts := map[];
        ChainIdsDiffer(bindings, ty);
        for i := 0 to |chain| - 1
          invariant DefinesFirst(bindings, ty, chain, i, cts)
        {
          var t := RewriteType(ty);
          DefineNext(bindings, ty, chain, i, cts, t);
          cts := cts[chain[i] := CommonTypeRef(Unqualified(chain[i + 1]))];
          cts := cts[chain[|chain| - 1] := t];
        }
        DefinedAll(bindings, ty, cts);
      }
    }
  }

  lemma {:induction false} UnderscoresAre(k: nat)
    ensures |Underscores(k)| == 3 * k && forall i | 0 <= i < 3 * k :: Underscores(k)[i] == '_'
  {
    if k == 0 {
    } else {
      UnderscoresAre(k - 1);
    }
  }

  lemma {:induction false} UnderscoresAppend(k: nat)
    ensures Underscores(k + 1) == Underscores(k) + "___"
  {
    if k == 0 {
    } else {
      UnderscoresAppend(k - 1);
      assert Underscores(k + 1) == "___" + (Underscores(k - 1) + "___");
    }
  }

  /** Flips a coin for every type that occurs in `ty` and binds it, each time to an id of any form. */
  method BindType(ty: SchemaType, bindings: Bindings)
    requires bindings.Valid() && Plain(ty)
    modifies bindings
    ensures bindings.Valid()
    ensures Grows(old(bindings.bindings), bindings.bindings)
    ensures bindings.bindings.Keys <= old(bindings.bindings).Keys + Subterms(ty)
    decreases ty
  {
    var coin: bool := *;
    if coin {
      var id: Id := *;
      bindings.AddBinding(ty, id);
    }
    match ty
    case Set(element) => BindType(element, bindings);
    case Record(attributes, _) =>
      for i := 0 to |attributes|
        invariant bindings.Valid()
        invariant Grows(old(bindings.bindings), bindings.bindings)
        invariant bindings.bindings.Keys <= old(bindings.bindings).Keys + Subterms(ty)
      {
        BindType(attributes[i].ty, bindings);
      }
    case _ =>
  }
}
