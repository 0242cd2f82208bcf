/** Generating an expression of a given type, with unknowns allocated in a shared pool. */
module ExprGenerator {
  import opened Wrappers
  import opened Integers
  import opened SchemaTypes
  import opened ExtensionFunctions
  import opened AttrValues
  import opened Values
  import opened TypeGenerator
  import opened Expressions
  import opened ExprTypes
  import Pool = UnknownPool

  type Entries = map<string, Pool.Unknown>

  ghost function TypesOf(entries: Entries): map<string, Type> {
    map name | name in entries :: entries[name].ty
  }

  /** Nothing that was in the pool is lost or changed. */
  ghost predicate Extends(before: Entries, after: Entries) {
    forall name | name in before :: name in after && after[name] == before[name]
  }

  /**
   The expression was made for the type at depth `d`, with every unknown recorded for its place, and each name
   allocated on the way occurs in it exactly once, and no other name does.
   */
  ghost predicate Generated(env: Env, before: Entries, after: Entries, d: nat, e: Expr, ty: Type) {
    && Derivable(env, TypesOf(after), d, e, ty)
    && UnknownsIn(e) == multiset(after.Keys - before.Keys)
  }

  /** The same for arguments made one after the other. */
  ghost predicate GeneratedAll(env: Env, before: Entries, after: Entries, d: nat, es: seq<Expr>, tys: seq<Type>) {
    && AllDerivable(env, TypesOf(after), d, es, tys)
    && UnknownsInAll(es) == multiset(after.Keys - before.Keys)
  }

  ghost predicate AllDerivable(env: Env, types: map<string, Type>, d: nat, es: seq<Expr>, tys: seq<Type>) {
    |es| == |tys| && forall i | 0 <= i < |es| :: Derivable(env, types, d, es[i], tys[i])
  }

  /** At some depth up to `d` the entry's value fits its type. */
  ghost predicate EntryFits(env: Env, d: nat, entry: Pool.Unknown) {
    exists k: nat :: k <= d && FitsAt(NO_FUNCTIONS, entry.ty, k, env.maxWidth, entry.value)
  }

  /** Every entry the pool has gained has a value that fits its type. */
  ghost predicate NewEntriesFit(env: Env, before: Entries, after: Entries, d: nat) {
    forall name | name in after && name !in before :: EntryFits(env, d, after[name])
  }

  lemma NewEntriesAdd(env: Env, a: Entries, b: Entries, c: Entries, d: nat)
    requires Extends(a, b) && Extends(b, c)
    requires NewEntriesFit(env, a, b, d) && NewEntriesFit(env, b, c, d)
    ensures NewEntriesFit(env, a, c, d)
  {
    forall name | name in c && name !in a ensures EntryFits(env, d, c[name]) {
      if name in b {
        assert c[name] == b[name];
      }
    }
  }

  lemma NewEntriesFitDeeper(env: Env, before: Entries, after: Entries, d: nat)
    requires NewEntriesFit(env, before, after, d)
    ensures NewEntriesFit(env, before, after, d + 1)
  {
    forall name | name in after && name !in before ensures EntryFits(env, d + 1, after[name]) {
      assert EntryFits(env, d, after[name]);
    }
  }

  lemma NewNamesAdd(a: Entries, b: Entries, c: Entries)
    requires Extends(a, b) && Extends(b, c)
    ensures multiset(c.Keys - a.Keys) == multiset(b.Keys - a.Keys) + multiset(c.Keys - b.Keys)
    ensures Extends(a, c)
  {
    assert c.Keys - a.Keys == (b.Keys - a.Keys) + (c.Keys - b.Keys);
  }

  /** The first `k` arguments are made. */
  ghost predicate GeneratedFirst(env: Env, before: Entries, after: Entries, d: nat, es: seq<Expr>, tys: seq<Type>,
                                 k: nat)
  {
    k <= |tys| && GeneratedAll(env, before, after, d, es, tys[..k])
  }

  /** One more argument. */
  lemma GeneratedOneMore(env: Env, a: Entries, b: Entries, c: Entries, d: nat, es: seq<Expr>, tys: seq<Type>, k: nat,
                         e: Expr)
    requires Extends(a, b) && Extends(b, c) && k < |tys|
    requires GeneratedFirst(env, a, b, d, es, tys, k) && Generated(env, b, c, d, e, tys[k])
    ensures GeneratedFirst(env, a, c, d, es + [e], tys, k + 1)
  {
    GeneratedAppend(env, a, b, c, d, es, tys[..k], e, tys[k]);
    assert tys[..k + 1] == tys[..k] + [tys[k]];
  }

  lemma GeneratedAppend(env: Env, a: Entries, b: Entries, c: Entries, d: nat, es: seq<Expr>, tys: seq<Type>, e: Expr,
                        ty: Type)
    requires Extends(a, b) && Extends(b, c)
    requires GeneratedAll(env, a, b, d, es, tys) && Generated(env, b, c, d, e, ty)
    ensures GeneratedAll(env, a, c, d, es + [e], tys + [ty])
  {
    StillDerivable(env, b, c, d, es, tys);
    OneMoreDerivable(env, TypesOf(c), d, es, tys, e, ty);
    UnknownsInOneMore(a, b, c, es, e);
  }

  lemma StillDerivable(env: Env, b: Entries, c: Entries, d: nat, es: seq<Expr>, tys: seq<Type>)
    requires Extends(b, c) && AllDerivable(env, TypesOf(b), d, es, tys)
    ensures AllDerivable(env, TypesOf(c), d, es, tys)
  {
    forall i | 0 <= i < |es| ensures Derivable(env, TypesOf(c), d, es[i], tys[i]) {
      DerivableMonotone(env, TypesOf(b), TypesOf(c), d, es[i], tys[i]);
    }
  }

  lemma OneMoreDerivable(env: Env, types: map<string, Type>, d: nat, es: seq<Expr>, tys: seq<Type>, e: Expr, ty: Type)
    requires AllDerivable(env, types, d, es, tys) && Derivable(env, types, d, e, ty)
    ensures AllDerivable(env, types, d, es + [e], tys + [ty])
  {
  }

  lemma UnknownsInOneMore(a: Entries, b: Entries, c: Entries, es: seq<Expr>, e: Expr)
    requires Extends(a, b) && Extends(b, c)
    requires UnknownsInAll(es) == multiset(b.Keys - a.Keys) && UnknownsIn(e) == multiset(c.Keys - b.Keys)
    ensures UnknownsInAll(es + [e]) == multiset(c.Keys - a.Keys)
  {
    NewNamesAdd(a, b, c);
    assert (es + [e])[..|es|] == es;
  }

  lemma GeneratedNode(env: Env, a: Entries, b: Entries, d: nat, op: Op, args: seq<Expr>, argTypes: seq<Type>, ty: Type)
    requires d > 0 && IsProduction(env, ty, d, op, argTypes) && GeneratedAll(env, a, b, d - 1, args, argTypes)
    ensures Generated(env, a, b, d, Node(op, args), ty)
  {
    OperationIsDerivable(env, TypesOf(b), d, op, args, argTypes, ty);
  }

  // ---------- Values of unknowns ----------

  /** As for attribute values, but extension types have no such values at any depth, and nothing is too deep. */
  method GenerateValueForType(ty: Type, d: nat, width: nat) returns (r: Result<Value, Error>)
    ensures r.Ok? ==> CanHold(ty, d, width, r.value) && !IsExtension(ty)
    ensures r.Ok? ==> FitsAt(NO_FUNCTIONS, ty, d, width, r.value)
    ensures r.Err? ==> r.error == OtherError
    decreases ty, 1
  {
    var fails := DrawFails();
    if fails {
      return Err(OtherError);
    }
    match ty
    case TBool =>
      var b: bool := *;
      r := Ok(VBool(b));
      assert ValueOf(BoolLit(b)) == r.value;
    case TLong =>
      var i :| IsI64(i);
      r := Ok(VLong(i));
      assert ValueOf(IntLit(i)) == r.value;
    case TString =>
      var s: string := *;
      r := Ok(VString(s));
      assert ValueOf(StringLit(s)) == r.value;
    case TEntity(name) =>
      var eid: string := *;
      r := Ok(VEntity(EntityUid(name, eid)));
      assert ValueOf(UidLit(EntityUid(name, eid))) == r.value;
    case TSet(element) =>
      r := GenerateSetValue(element, d, width);
    case TRecord(fields) =>
      r := GenerateRecordValue(fields, d, width);
    case _ =>
      r := Err(OtherError);
  }

  method GenerateSetValue(element: Type, d: nat, width: nat) returns (r: Result<Value, Error>)
    ensures r.Ok? ==> CanHold(TSet(element), d, width, r.value)
    ensures r.Ok? ==> FitsAt(NO_FUNCTIONS, TSet(element), d, width, r.value)
    ensures r.Err? ==> r.error == OtherError
    decreases element, 3
  {
    if d == 0 {
      assert ValueOf(SetLit([])) == VSet({});
      return Ok(VSet({}));
    }
    var elements := GenerateValues(element, d - 1, width);
    match elements
    case Ok(values) =>
      SetFits(NO_FUNCTIONS, element, d - 1, width, width, values);
      r := Ok(VSet(values));
    case Err(e) => r := Err(e);
  }

  method GenerateRecordValue(fields: seq<Field>, d: nat, width: nat) returns (r: Result<Value, Error>)
    ensures r.Ok? ==> CanHold(TRecord(fields), d, width, r.value)
    ensures r.Ok? ==> FitsAt(NO_FUNCTIONS, TRecord(fields), d, width, r.value)
    ensures r.Err? ==> r.error == OtherError
    decreases fields, 1
  {
    if d == 0 {
      assert ValueOf(RecordLit([])) == VRecord(map[]);
      return Ok(VRecord(map[]));
    }
    var values := GenerateFieldValues(fields, d - 1, width);
    match values
    case Ok(m) =>
      RecordFits(NO_FUNCTIONS, fields, d - 1, width, m);
      r := Ok(VRecord(m));
    case Err(e) => r := Err(e);
  }

  /** `n` values for an element type, each that of a literal the type could have. */
  ghost predicate ElementsHeld(element: Type, d: nat, width: nat, n: nat, values: set<Value>) {
    exists lits :: |lits| == n && VSet(values) == ValueOf(SetLit(lits)) && AllCanReturn(element, d, width, lits)
  }

  ghost predicate AllCanReturn(ty: Type, d: nat, width: nat, lits: seq<AttrValue>) {
    forall i | 0 <= i < |lits| :: CanReturn(ty, d, width, Ok(lits[i]))
  }

  lemma NoElementHeld(element: Type, d: nat, width: nat)
    ensures ElementsHeld(element, d, width, 0, {})
  {
    assert VSet({}) == ValueOf(SetLit([])) && AllCanReturn(element, d, width, []);
  }

  lemma ElementHeld(element: Type, d: nat, width: nat, n: nat, values: set<Value>, x: Value)
    requires ElementsHeld(element, d, width, n, values) && CanHold(element, d, width, x)
    ensures ElementsHeld(element, d, width, n + 1, values + {x})
  {
    var lits :| |lits| == n && VSet(values) == ValueOf(SetLit(lits)) && AllCanReturn(element, d, width, lits);
    var lit :| CanReturn(element, d, width, Ok(lit)) && ValueOf(lit) == x;
    OneMoreElement(lits, lit);
    assert AllCanReturn(element, d, width, lits + [lit]);
  }

  lemma SetIsHeld(element: Type, d: nat, width: nat, n: nat, values: set<Value>)
    requires n <= width && ElementsHeld(element, d, width, n, values)
    ensures CanHold(TSet(element), d + 1, width, VSet(values))
  {
    var lits :| |lits| == n && VSet(values) == ValueOf(SetLit(lits)) && AllCanReturn(element, d, width, lits);
    assert CanReturn(TSet(element), d + 1, width, Ok(SetLit(lits)));
  }

  /** The set of up to `width` values. */
  method GenerateValues(element: Type, d: nat, width: nat) returns (r: Result<set<Value>, Error>)
    ensures r.Ok? ==> CanHold(TSet(element), d + 1, width, VSet(r.value))
    ensures r.Ok? ==> ElementsFit(NO_FUNCTIONS, element, d, width, width, r.value)
    ensures r.Err? ==> r.error == OtherError
    decreases element, 2
  {
    var n :| 0 <= n <= width;
    var values: set<Value> := {};
    NoElementHeld(element, d, width);
    for k := 0 to n
      invariant ElementsHeld(element, d, width, k, values)
      invariant ElementsFit(NO_FUNCTIONS, element, d, width, k, values)
    {
      var e := GenerateValueForType(element, d, width);
      if e.Err? {
        return Err(e.error);
      }
      ElementHeld(element, d, width, k, values, e.value);
      OneMoreFits(NO_FUNCTIONS, element, d, width, k, values, e.value);
      values := values + {e.value};
    }
    SetIsHeld(element, d, width, n, values);
    r := Ok(values);
  }

  /** Values for the first `n` fields, each that of a literal the field could have. */
  ghost predicate FieldValuesHeld(fields: seq<Field>, n: nat, d: nat, width: nat, values: map<string, Value>)
    requires n <= |fields|
  {
    exists lits :: ValuesOf(fields, n, d, width, lits) && values == FieldValues(lits)
  }

  lemma NoFieldValueHeld(fields: seq<Field>, d: nat, width: nat)
    ensures FieldValuesHeld(fields, 0, d, width, map[])
  {
    assert ValuesOf(fields, 0, d, width, []) && FieldValues([]) == map[];
  }

  lemma FieldValueHeld(fields: seq<Field>, n: nat, d: nat, width: nat, values: map<string, Value>, x: Value)
    requires n < |fields| && FieldValuesHeld(fields, n, d, width, values) && CanHold(fields[n].ty, d, width, x)
    ensures FieldValuesHeld(fields, n + 1, d, width, values[fields[n].name := x])
  {
    var lits :| ValuesOf(fields, n, d, width, lits) && values == FieldValues(lits);
    var lit :| CanReturn(fields[n].ty, d, width, Ok(lit)) && ValueOf(lit) == x;
    var more := lits + [AttrField(fields[n].name, lit)];
    assert more[..|more| - 1] == lits;
    assert ValuesOf(fields, n + 1, d, width, more);
  }

  lemma FieldValueSkipped(fields: seq<Field>, n: nat, d: nat, width: nat, values: map<string, Value>)
    requires n < |fields| && !fields[n].required && FieldValuesHeld(fields, n, d, width, values)
    ensures FieldValuesHeld(fields, n + 1, d, width, values)
  {
    var lits :| ValuesOf(fields, n, d, width, lits) && values == FieldValues(lits);
    assert ValuesOf(fields, n + 1, d, width, lits);
  }

  lemma RecordIsHeld(fields: seq<Field>, d: nat, width: nat, values: map<string, Value>)
    requires FieldValuesHeld(fields, |fields|, d, width, values)
    ensures CanHold(TRecord(fields), d + 1, width, VRecord(values))
  {
    var lits :| ValuesOf(fields, |fields|, d, width, lits) && values == FieldValues(lits);
    assert CanReturn(TRecord(fields), d + 1, width, Ok(RecordLit(lits)));
  }

  /** A value for every required field, and for every other one if a coin says so. */
  method GenerateFieldValues(fields: seq<Field>, d: nat, width: nat) returns (r: Result<map<string, Value>, Error>)
    ensures r.Ok? ==> CanHold(TRecord(fields), d + 1, width, VRecord(r.value))
    ensures r.Ok? ==> FieldValuesFit(NO_FUNCTIONS, fields, |fields|, d, width, r.value)
    ensures r.Err? ==> r.error == OtherError
    decreases fields, 0
  {
    var values: map<string, Value> := map[];
    NoFieldValueHeld(fields, d, width);
    for n := 0 to |fields|
      invariant FieldValuesHeld(fields, n, d, width, values)
      invariant FieldValuesFit(NO_FUNCTIONS, fields, n, d, width, values)
    {
      var coin: bool := *;
      if fields[n].required || coin {
        var v := GenerateValueForType(fields[n].ty, d, width);
        if v.Err? {
          return Err(v.error);
        }
        FieldValueHeld(fields, n, d, width, values, v.value);
        FieldValueFits(NO_FUNCTIONS, fields, n, d, width, values, v.value);
        values := values[fields[n].name := v.value];
      } else {
        FieldValueSkipped(fields, n, d, width, values);
        SkippedFieldFits(NO_FUNCTIONS, fields, n, d, width, values);
      }
    }
    RecordIsHeld(fields, d, width, values);
    r := Ok(values);
  }

  /** A value as an unknown's annotation describes it. */
  predicate IsAnnotatedWith(annotation: AstType, value: Value) {
    match value
    case VBool(_) => annotation == ABool
    case VLong(_) => annotation == ALong
    case VString(_) => annotation == AString
    case VEntity(uid) => annotation == AEntity(uid.ty)
    case VExtension(_, _) => annotation.AExtension?
    case VSet(_) => annotation == ASet
    case VRecord(_) => annotation == ARecord
  }

  /** The value recorded for an unknown is as its annotation says: an entity has the type named there. */
  lemma AnnotationFitsValue(table: seq<ExtensionFunction>, ty: Type, value: Value)
    requires IsValueOf(table, ty, value, false)
    ensures IsAnnotatedWith(AstTypeOf(ty), value)
  {
  }

  // ---------- By the structure of the type ----------

  /** A constructor call with string arguments. */
  method ArbitraryExtConstructorExpr(env: Env, ty: Type) returns (r: Result<Expr, Error>)
    requires OffersConstructors(env.functions) && IsExtension(ty)
    ensures r.Ok? ==> IsConstructorExpr(env, ty, r.value)
  {
    var fails := DrawFails();
    if fails {
      return Err(OtherError);
    }
    var s: string := *;
    match ty {
      case TIpaddr => r := Ok(Node(Call("ip"), [StringConst(s)]));
      case TDecimal => r := Ok(Node(Call("decimal"), [StringConst(s)]));
      case TDuration => r := Ok(Node(Call("duration"), [StringConst(s)]));
      case TDatetime =>
        var datetime := Node(Call("datetime"), [StringConst(s)]);
        r := Ok(datetime);
        var coin: bool := *;
        if coin {
          var t: string := *;
          r := Ok(Node(Call("offset"), [datetime, Node(Call("duration"), [StringConst(t)])]));
        }
    }
  }

  method GenerateStructurally(env: Env, ty: Type) returns (r: Result<Expr, Error>)
    requires OffersConstructors(env.functions)
    ensures r.Ok? ==> IsStructural(env, r.value, ty)
    decreases ty, 2
  {
    match ty
    case TSet(element) =>
      r := GenerateSetStructurally(env, element);
    case TRecord(fields) =>
      var coin: bool := *;
      if coin {
        r := Ok(Variable(Context));
      } else {
        r := GenerateRecordStructurally(env, fields);
      }
    case TIpaddr | TDecimal | TDatetime | TDuration =>
      r := ArbitraryExtConstructorExpr(env, ty);
    case TEntity(name) =>
      var uid: bool, eid: string := *, *;
      if uid {
        r := Ok(UidConst(EntityUid(name, eid)));
      } else {
        r := GenerateEntityVar();
      }
    case _ =>
      r := GenerateLiteral(ty);
  }

  /** A boolean, integer or string. */
  method GenerateLiteral(ty: Type) returns (r: Result<Expr, Error>)
    ensures r.Ok? ==> IsLeafOf(ty, r.value)
  {
    var fails := DrawFails();
    if fails {
      return Err(OtherError);
    }
    match ty
    case TBool =>
      var b: bool := *;
      r := Ok(BoolConst(b));
    case TLong =>
      var i :| IsI64(i);
      r := Ok(LongConst(i));
    case TString =>
      var s: string := *;
      r := Ok(StringConst(s));
    case _ =>
      r := Err(OtherError);
  }

  /** The principal, the action or the resource. */
  method GenerateEntityVar() returns (r: Result<Expr, Error>)
    ensures r.Ok? ==> r.value.Variable? && !r.value.v.Context?
  {
    var v: Var := *;
    r := if v.Context? then Err(OtherError) else Ok(Variable(v));
  }

  method GenerateSetStructurally(env: Env, element: Type) returns (r: Result<Expr, Error>)
    requires OffersConstructors(env.functions)
    ensures r.Ok? ==> IsStructural(env, r.value, TSet(element))
    decreases element, 3
  {
    var n :| 0 <= n <= env.maxWidth;
    var elements: seq<Expr> := [];
    for k := 0 to n
      invariant |elements| == k && forall i | 0 <= i < k :: IsStructural(env, elements[i], element)
    {
      var e := GenerateStructurally(env, element);
      if e.Err? {
        return Err(e.error);
      }
      elements := elements + [e.value];
    }
    r := Ok(Node(SetOf, elements));
  }

  /** The required fields among the first `k` have their expressions. */
  ghost predicate FieldsMade(env: Env, fields: seq<Field>, k: nat, keys: seq<string>, values: seq<Expr>)
    requires k <= |fields|
  {
    var required := RequiredFields(fields[..k]);
    && keys == NamesOf(required) && |values| == |required|
    && forall i | 0 <= i < |values| :: IsStructural(env, values[i], required[i].ty)
  }

  lemma FieldMade(env: Env, fields: seq<Field>, k: nat, keys: seq<string>, values: seq<Expr>, e: Expr)
    requires k < |fields| && FieldsMade(env, fields, k, keys, values)
    requires fields[k].required ==> IsStructural(env, e, fields[k].ty)
    ensures if fields[k].required then FieldsMade(env, fields, k + 1, keys + [fields[k].name], values + [e])
            else FieldsMade(env, fields, k + 1, keys, values)
  {
    assert fields[..k + 1][..k] == fields[..k];
    if fields[k].required {
      assert RequiredFields(fields[..k + 1]) == RequiredFields(fields[..k]) + [fields[k]];
    } else {
      assert RequiredFields(fields[..k + 1]) == RequiredFields(fields[..k]);
    }
  }

  /** The required fields. */
  method GenerateRecordStructurally(env: Env, fields: seq<Field>) returns (r: Result<Expr, Error>)
    requires OffersConstructors(env.functions)
    ensures r.Ok? ==> IsStructural(env, r.value, TRecord(fields))
    decreases fields, 1
  {
    var keys: seq<string> := [];
    var values: seq<Expr> := [];
    for k := 0 to |fields|
      invariant FieldsMade(env, fields, k, keys, values)
    {
      if fields[k].required {
        var e := GenerateStructurally(env, fields[k].ty);
        if e.Err? {
          return Err(e.error);
        }
        FieldMade(env, fields, k, keys, values, e.value);
        keys, values := keys + [fields[k].name], values + [e.value];
      } else {
        FieldMade(env, fields, k, keys, values, Variable(Context));
      }
    }
    assert fields[..|fields|] == fields;
    r := Ok(Node(RecordOf(keys), values));
  }

  // ---------- Which operator ----------

  /** An operator with the types of its arguments. */
  type Choice = (Op, seq<Type>)

  method GenerateAnyType(env: Env, d: nat) returns (r: Result<Type, Error>)
    ensures r.Ok? ==> IsGenerated(env, d, r.value)
  {
    r := GenerateType(env.entityTypes, env.maxWidth, d);
  }

  method ArbitraryEntityType(env: Env) returns (r: Result<Name, Error>)
    ensures r.Ok? ==> r.value in env.entityTypes
  {
    if env.entityTypes == {} {
      return Err(OtherError);
    }
    var name :| name in env.entityTypes;
    r := Ok(name);
  }

  /** What every type can be: a conditional, a call, or an access to an attribute or a tag. */
  method ChooseCommon(env: Env, ty: Type, d: nat) returns (r: Result<Choice, Error>)
    ensures r.Ok? ==> IsProduction(env, ty, d, r.value.0, r.value.1)
  {
    var branch: nat := *;
    match branch
    case 0 =>
      r := Ok((Ite, [TBool, ty, ty]));
    case 1 =>
      r := ChooseCall(env, ty, d);
    case 2 =>
      if ty !in env.attributesByType || env.attributesByType[ty] == [] {
        return Err(OtherError);
      }
      var i :| 0 <= i < |env.attributesByType[ty]|;
      var (entityType, attr) := env.attributesByType[ty][i];
      r := Ok((GetAttr(attr), [TEntity(entityType)]));
    case 3 =>
      var attr: string := *;
      r := Ok((GetAttr(attr), [TRecord([Field(attr, ty, true)])]));
    case _ =>
      var entityType: Name := *;
      if entityType !in env.tagTypes || env.tagTypes[entityType] != ty {
        return Err(OtherError);
      }
      r := Ok((GetTag, [TEntity(entityType), TString]));
  }

  /** A function that returns the type, perhaps with too many arguments. */
  method ChooseCall(env: Env, ty: Type, d: nat) returns (r: Result<Choice, Error>)
    ensures r.Ok? ==> IsProduction(env, ty, d, r.value.0, r.value.1)
  {
    var candidates := Returning(env.functions, ty);
    if candidates == [] {
      return Err(OtherError);
    }
    var i :| 0 <= i < |candidates|;
    var f := candidates[i];
    assert f in candidates;
    var coin: bool := *;
    var argTypes := f.parameterTypes;
    if env.enableArbitraryFuncCall && coin && f.parameterTypes != [] {
      var more :| 0 <= more <= env.maxWidth;
      argTypes := argTypes + seq(more, _ => f.parameterTypes[|f.parameterTypes| - 1]);
    }
    assert IsCallOf(env, f, argTypes);
    r := Ok((Call(f.name), argTypes));
  }

  /** Operators on booleans, comparisons and conditions on sets and strings. */
  method ChooseForBool(env: Env, d: nat) returns (r: Result<Choice, Error>)
    requires d > 0
    ensures r.Ok? ==> IsProduction(env, TBool, d, r.value.0, r.value.1)
  {
    var branch: nat := *;
    var ty1 := GenerateAnyType(env, d);
    var ty2 := GenerateAnyType(env, d);
    if ty1.Err? || ty2.Err? {
      return Err(OtherError);
    }
    var a, b := ty1.value, ty2.value;
    match branch
    case 0 => r := Ok((Eq, [a, a]));
    case 1 => r := Ok((Eq, [a, b]));
    case 2 => r := Ok((Not, [TBool]));
    case 3 => r := Ok((And, [TBool, TBool]));
    case 4 => r := Ok((Or, [TBool, TBool]));
    case 5 => r := ChooseComparison(env, d);
    case 6 => r := Ok((Contains, [TSet(a), a]));
    case 7 => r := Ok((ContainsAll, [TSet(a), TSet(b)]));
    case 8 => r := Ok((ContainsAny, [TSet(a), TSet(b)]));
    case 9 => r := Ok((IsEmpty, [TSet(a)]));
    case 10 =>
      var pattern: string := *;
      r := if env.enableLike then Ok((Like(pattern), [TString])) else Err(OtherError);
    case 11 =>
      var attr: string := *;
      var record := GenerateRecordType(env.entityTypes, env.maxWidth, d - 1);
      r := if record.Ok? then Ok((HasAttr(attr), [record.value])) else Err(OtherError);
    case _ => r := ChooseOnEntities(env, d);
  }

  method ChooseComparison(env: Env, d: nat) returns (r: Result<Choice, Error>)
    ensures r.Ok? ==> IsProduction(env, TBool, d, r.value.0, r.value.1)
  {
    var which: nat, how: nat := *, *;
    var ty := match which case 0 => TLong case 1 => TDatetime case _ => TDuration;
    var op := match how case 0 => Greater case 1 => GreaterEq case 2 => Less case _ => LessEq;
    r := Ok((op, [ty, ty]));
  }

  /** Conditions on entities: membership, type, attributes and tags. */
  method ChooseOnEntities(env: Env, d: nat) returns (r: Result<Choice, Error>)
    ensures r.Ok? ==> IsProduction(env, TBool, d, r.value.0, r.value.1)
  {
    var first := ArbitraryEntityType(env);
    var second := ArbitraryEntityType(env);
    if first.Err? || second.Err? {
      return Err(OtherError);
    }
    var a, b := TEntity(first.value), TEntity(second.value);
    var branch: nat, attr: string := *, *;
    match branch
    case 0 => r := Ok((In, [a, b]));
    case 1 => r := Ok((In, [a, TSet(b)]));
    case 2 => r := Ok((Is(second.value), [a]));
    case 3 => r := Ok((HasAttr(attr), [a]));
    case _ => r := Ok((HasTag, [a, TString]));
  }

  /** The arithmetic operators. */
  method ChooseForLong(env: Env, d: nat) returns (r: Result<Choice, Error>)
    ensures r.Ok? ==> IsProduction(env, TLong, d, r.value.0, r.value.1)
  {
    var branch: nat := *;
    match branch
    case 0 => r := Ok((Add, [TLong, TLong]));
    case 1 => r := Ok((Sub, [TLong, TLong]));
    case 2 => r := Ok((Mul, [TLong, TLong]));
    case _ => r := Ok((Neg, [TLong]));
  }

  method ChooseForSet(env: Env, element: Type, d: nat) returns (r: Result<Choice, Error>)
    ensures r.Ok? ==> IsProduction(env, TSet(element), d, r.value.0, r.value.1)
  {
    var n :| 0 <= n <= env.maxWidth;
    r := Ok((SetOf, seq(n, _ => element)));
  }

  /** A record with all required fields, and some others. */
  method ChooseForRecord(env: Env, fields: seq<Field>, d: nat) returns (r: Result<Choice, Error>)
    ensures r.Ok? ==> IsProduction(env, TRecord(fields), d, r.value.0, r.value.1)
  {
    var keys: seq<string> := [];
    var tys: seq<Type> := [];
    for k := 0 to |fields|
      invariant IsFieldChoice(fields[..k], keys, tys)
    {
      var coin: bool := *;
      if fields[k].required || coin {
        FieldChosen(fields[..k], keys, tys, fields[k]);
        keys, tys := keys + [fields[k].name], tys + [fields[k].ty];
      } else {
        FieldSkipped(fields[..k], keys, tys, fields[k]);
      }
      assert fields[..k + 1] == fields[..k] + [fields[k]];
    }
    assert fields[..|fields|] == fields;
    r := Ok((RecordOf(keys), tys));
  }

  lemma {:induction false} FieldChosen(fields: seq<Field>, keys: seq<string>, tys: seq<Type>, f: Field)
    requires IsFieldChoice(fields, keys, tys)
    ensures IsFieldChoice(fields + [f], keys + [f.name], tys + [f.ty])
  {
    if fields == [] {
    } else {
      assert (fields + [f])[1..] == fields[1..] + [f];
      if !fields[0].required && IsFieldChoice(fields[1..], keys, tys) {
        FieldChosen(fields[1..], keys, tys, f);
      } else {
        FieldChosen(fields[1..], keys[1..], tys[1..], f);
        assert (keys + [f.name])[1..] == keys[1..] + [f.name] && (tys + [f.ty])[1..] == tys[1..] + [f.ty];
      }
    }
  }

  lemma {:induction false} FieldSkipped(fields: seq<Field>, keys: seq<string>, tys: seq<Type>, f: Field)
    requires IsFieldChoice(fields, keys, tys) && !f.required
    ensures IsFieldChoice(fields + [f], keys, tys)
  {
    if fields == [] {
    } else {
      assert (fields + [f])[1..] == fields[1..] + [f];
      if !fields[0].required && IsFieldChoice(fields[1..], keys, tys) {
        FieldSkipped(fields[1..], keys, tys, f);
      } else {
        FieldSkipped(fields[1..], keys[1..], tys[1..], f);
      }
    }
  }

  method ChooseOperator(env: Env, ty: Type, d: nat) returns (r: Result<Choice, Error>)
    requires d > 0
    ensures r.Ok? ==> IsProduction(env, ty, d, r.value.0, r.value.1)
  {
    var common: bool := *;
    if common {
      r := ChooseCommon(env, ty, d);
      return;
    }
    match ty
    case TBool => r := ChooseForBool(env, d);
    case TLong => r := ChooseForLong(env, d);
    case TSet(element) => r := ChooseForSet(env, element, d);
    case TRecord(fields) => r := ChooseForRecord(env, fields, d);
    case _ => r := ChooseCommon(env, ty, d);
  }

  /** A literal, a variable or any uid for the type, where depth is left; sets and extension types have none. */
  method GenerateLeaf(ty: Type) returns (r: Result<Expr, Error>)
    ensures r.Ok? ==> IsLeafOf(ty, r.value)
  {
    match ty
    case TEntity(_) =>
      var uid: bool, u: EntityUid := *, *;
      if uid {
        r := Ok(UidConst(u));
      } else {
        r := GenerateEntityVar();
      }
    case TRecord(_) => r := Ok(Variable(Context));
    case _ => r := GenerateLiteral(ty);
  }

  // ---------- With the pool ----------

  /** The lower in the expression, the more likely. */
  method ShouldGenerateUnknown(env: Env, d: nat) returns (b: bool)
    requires env.enableUnknowns ==> d <= env.maxDepth
    ensures b ==> env.enableUnknowns
    ensures env.enableUnknowns && d == 0 ==> b
  {
    if !env.enableUnknowns {
      return false;
    }
    var choice :| 0 <= choice <= env.maxDepth;
    b := choice <= env.maxDepth - d;
  }

  lemma StructuralIsGenerated(env: Env, entries: Entries, d: nat, e: Expr, ty: Type)
    requires IsStructural(env, e, ty) && (env.enableUnknowns ==> d > 0)
    ensures Generated(env, entries, entries, d, e, ty)
  {
    StructuralHasNoUnknowns(env, e, ty);
    StructuralIsDerivable(env, TypesOf(entries), d, e, ty);
    assert entries.Keys - entries.Keys == {};
  }

  lemma LeafIsGenerated(env: Env, entries: Entries, d: nat, e: Expr, ty: Type)
    requires IsLeafOf(ty, e) && d > 0
    ensures Generated(env, entries, entries, d, e, ty)
  {
    assert entries.Keys - entries.Keys == {};
  }

  lemma UnknownIsGenerated(env: Env, before: Entries, name: string, unknown: Pool.Unknown, d: nat)
    requires name !in before && env.enableUnknowns && !IsExtension(unknown.ty)
    ensures Extends(before, before[name := unknown])
    ensures Generated(env, before, before[name := unknown], d, UnknownOf(name, Some(AstTypeOf(unknown.ty))), unknown.ty)
  {
    assert before[name := unknown].Keys - before.Keys == {name};
  }

  /** An unknown for the type. */
  method GenerateUnknown(env: Env, pool: Pool.UnknownPool, ty: Type, d: nat) returns (r: Result<Expr, Error>)
    requires pool.Valid() && env.enableUnknowns
    modifies pool
    ensures pool.Valid() && Extends(old(pool.unknowns), pool.unknowns)
    ensures r.Ok? ==> Generated(env, old(pool.unknowns), pool.unknowns, d, r.value, ty) && !IsExtension(ty)
    ensures r.Ok? ==> exists name, v ::
              && r.value == UnknownOf(name, Some(AstTypeOf(ty))) && CanHold(ty, d, env.maxWidth, v)
              && FitsAt(NO_FUNCTIONS, ty, d, env.maxWidth, v)
              && pool.unknowns == old(pool.unknowns)[name := Pool.Unknown(ty, v)]
    ensures NewEntriesFit(env, old(pool.unknowns), pool.unknowns, d)
    ensures r.Err? ==> pool.unknowns == old(pool.unknowns)
  {
    var v := GenerateValueForType(ty, d, env.maxWidth);
    if v.Err? {
      return Err(v.error);
    }
    var name := pool.Alloc(ty, v.value);
    UnknownIsGenerated(env, old(pool.unknowns), name, Pool.Unknown(ty, v.value), d);
    r := Ok(UnknownOf(name, Some(AstTypeOf(ty))));
  }

  /** An expression without operators, or one that follows the structure of the type. */
  method GenerateShallow(env: Env, ty: Type, d: nat, ghost entries: Entries) returns (r: Result<Expr, Error>)
    requires OffersConstructors(env.functions) && (env.enableUnknowns ==> d > 0)
    ensures r.Ok? ==> Generated(env, entries, entries, d, r.value, ty)
  {
    var leaf: bool := *;
    if d > 0 && leaf {
      r := GenerateLeaf(ty);
      if r.Ok? {
        LeafIsGenerated(env, entries, d, r.value, ty);
      }
    } else {
      r := GenerateStructurally(env, ty);
      if r.Ok? {
        StructuralIsGenerated(env, entries, d, r.value, ty);
      }
    }
  }

  /** An expression of the type with depth `d` left. */
  method GenerateExprForType(env: Env, pool: Pool.UnknownPool, ty: Type, d: nat) returns (r: Result<Expr, Error>)
    requires pool.Valid() && OffersConstructors(env.functions)
    requires env.enableUnknowns ==> d <= env.maxDepth
    modifies pool
    ensures pool.Valid() && Extends(old(pool.unknowns), pool.unknowns)
    ensures r.Ok? ==> Generated(env, old(pool.unknowns), pool.unknowns, d, r.value, ty)
    ensures NewEntriesFit(env, old(pool.unknowns), pool.unknowns, d)
    ensures !env.enableUnknowns ==> pool.unknowns == old(pool.unknowns)
    ensures env.enableUnknowns && d == 0 && r.Ok? ==> r.value.UnknownOf? && !IsExtension(ty)
    decreases d, 0
  {
    var unknown := ShouldGenerateUnknown(env, d);
    if unknown {
      r := GenerateUnknown(env, pool, ty, d);
      return;
    }
    var shallow: bool := *;
    if d == 0 || shallow {
      r := GenerateShallow(env, ty, d, pool.unknowns);
      return;
    }
    var choice := ChooseOperator(env, ty, d);
    if choice.Err? {
      return Err(choice.error);
    }
    var (op, argTypes) := choice.value;
    var args;
    if op.Contains? {
      args := GenerateElementFirst(env, pool, argTypes, d - 1);
    } else {
      args := GenerateArgs(env, pool, argTypes, d - 1);
    }
    NewEntriesFitDeeper(env, old(pool.unknowns), pool.unknowns, d - 1);
    if args.Err? {
      return Err(args.error);
    }
    GeneratedNode(env, old(pool.unknowns), pool.unknowns, d, op, args.value, argTypes, ty);
    r := Ok(Node(op, args.value));
  }

  /** Arguments of the given types, one after the other. */
  method GenerateArgs(env: Env, pool: Pool.UnknownPool, argTypes: seq<Type>, d: nat)
    returns (r: Result<seq<Expr>, Error>)
    requires pool.Valid() && OffersConstructors(env.functions)
    requires env.enableUnknowns ==> d <= env.maxDepth
    modifies pool
    ensures pool.Valid() && Extends(old(pool.unknowns), pool.unknowns)
    ensures r.Ok? ==> GeneratedAll(env, old(pool.unknowns), pool.unknowns, d, r.value, argTypes)
    ensures NewEntriesFit(env, old(pool.unknowns), pool.unknowns, d)
    ensures !env.enableUnknowns ==> pool.unknowns == old(pool.unknowns)
    decreases d, 1
  {
    var args: seq<Expr> := [];
    ghost var start := pool.unknowns;
    assert start.Keys - start.Keys == {};
    for k := 0 to |argTypes|
      invariant pool.Valid() && Extends(start, pool.unknowns)
      invariant GeneratedFirst(env, start, pool.unknowns, d, args, argTypes, k)
      invariant NewEntriesFit(env, start, pool.unknowns, d)
      invariant !env.enableUnknowns ==> pool.unknowns == start
    {
      ghost var before := pool.unknowns;
      var e := GenerateExprForType(env, pool, argTypes[k], d);
      NewNamesAdd(start, before, pool.unknowns);
      NewEntriesAdd(env, start, before, pool.unknowns, d);
      if e.Err? {
        return Err(e.error);
      }
      GeneratedOneMore(env, start, before, pool.unknowns, d, args, argTypes, k, e.value);
      args := args + [e.value];
    }
    assert argTypes[..|argTypes|] == argTypes;
    r := Ok(args);
  }

  /** A set and an element, the element made first. */
  method GenerateElementFirst(env: Env, pool: Pool.UnknownPool, argTypes: seq<Type>, d: nat)
    returns (r: Result<seq<Expr>, Error>)
    requires pool.Valid() && OffersConstructors(env.functions) && |argTypes| == 2
    requires env.enableUnknowns ==> d <= env.maxDepth
    modifies pool
    ensures pool.Valid() && Extends(old(pool.unknowns), pool.unknowns)
    ensures r.Ok? ==> GeneratedAll(env, old(pool.unknowns), pool.unknowns, d, r.value, argTypes)
    ensures NewEntriesFit(env, old(pool.unknowns), pool.unknowns, d)
    ensures !env.enableUnknowns ==> pool.unknowns == old(pool.unknowns)
    decreases d, 2
  {
    var args := GenerateArgs(env, pool, [argTypes[1], argTypes[0]], d);
    if args.Err? {
      return args;
    }
    GeneratedSwapped(env, old(pool.unknowns), pool.unknowns, d, args.value, argTypes);
    r := Ok([args.value[1], args.value[0]]);
  }

  lemma GeneratedSwapped(env: Env, a: Entries, b: Entries, d: nat, es: seq<Expr>, tys: seq<Type>)
    requires |tys| == 2 && GeneratedAll(env, a, b, d, es, [tys[1], tys[0]])
    ensures GeneratedAll(env, a, b, d, [es[1], es[0]], tys)
  {
    UnknownsInBoth(es);
    UnknownsInBoth([es[1], es[0]]);
    DerivableSwapped(env, TypesOf(b), d, es, tys);
  }

  lemma DerivableSwapped(env: Env, types: map<string, Type>, d: nat, es: seq<Expr>, tys: seq<Type>)
    requires |tys| == 2 && AllDerivable(env, types, d, es, [tys[1], tys[0]])
    ensures AllDerivable(env, types, d, [es[1], es[0]], tys)
  {
    assert Derivable(env, types, d, es[0], [tys[1], tys[0]][0]) && Derivable(env, types, d, es[1], [tys[1], tys[0]][1]);
  }

  lemma UnknownsInBoth(es: seq<Expr>)
    requires |es| == 2
    ensures UnknownsInAll(es) == UnknownsIn(es[0]) + UnknownsIn(es[1])
  {
    assert UnknownsInAll(es[..1]) == UnknownsInAll(es[..1][..0]) + UnknownsIn(es[0]);
  }

  /** A whole run: every unknown occurs once, was not in the pool before, and the sorts of all operators fit. */
  lemma UnknownsOccurOnce(env: Env, before: Entries, after: Entries, d: nat, e: Expr, ty: Type)
    requires Generated(env, before, after, d, e, ty)
    ensures forall name | name in UnknownsIn(e) :: UnknownsIn(e)[name] == 1 && name !in before && name in after
    ensures forall name | name in after && name !in before :: name in UnknownsIn(e)
    ensures HasSort(env, e, SortOf(AstTypeOf(ty))) && HasType(env, e, ty)
  {
    DerivableHasSort(env, TypesOf(after), d, e, ty);
    DerivableHasType(env, TypesOf(after), d, e, ty);
    forall name ensures UnknownsIn(e)[name] == if name in after && name !in before then 1 else 0 {
      assert name in after.Keys - before.Keys <==> name in after && name !in before;
    }
  }
}
