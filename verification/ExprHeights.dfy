/** How high the expressions made for a type can be, and when they keep within the depth asked for. */
module ExprHeights {
  import opened SchemaTypes
  import opened ExtensionFunctions
  import opened AttrValues
  import opened TypeGenerator
  import opened Expressions

  // ---------- Heights of types ----------

  /** The height of an expression with the structure of the type, with all fields of records or the required ones. */
  function HeightOf(width: nat, ty: Type, all: bool): nat
    decreases ty, 1
  {
    match ty
    case TSet(element) => if width == 0 then 1 else 1 + HeightOf(width, element, all)
    case TRecord(fields) => 1 + HeightOfFields(width, fields, all)
    case TDatetime => 2
    case _ => if IsExtension(ty) then 1 else 0
  }

  function HeightOfFields(width: nat, fields: seq<Field>, all: bool): nat
    decreases fields, 0
  {
    if fields == [] then 0
    else
      var last := fields[|fields| - 1];
      var front := HeightOfFields(width, fields[..|fields| - 1], all);
      if all || last.required then Max(front, HeightOf(width, last.ty, all)) else front
  }

  lemma {:induction false} FieldHeight(width: nat, fields: seq<Field>, all: bool, i: nat)
    requires i < |fields| && (all || fields[i].required)
    ensures HeightOf(width, fields[i].ty, all) <= HeightOfFields(width, fields, all)
  {
    if i == |fields| - 1 {
    } else {
      FieldHeight(width, fields[..|fields| - 1], all, i);
    }
  }

  lemma {:induction false} RequiredIsLower(width: nat, ty: Type)
    ensures HeightOf(width, ty, false) <= HeightOf(width, ty, true)
    decreases ty, 1
  {
    match ty
    case TSet(element) => RequiredIsLower(width, element);
    case TRecord(fields) => RequiredFieldsAreLower(width, fields);
    case _ =>
  }

  lemma {:induction false} RequiredFieldsAreLower(width: nat, fields: seq<Field>)
    ensures HeightOfFields(width, fields, false) <= HeightOfFields(width, fields, true)
    decreases fields, 0
  {
    if fields == [] {
    } else {
      RequiredFieldsAreLower(width, fields[..|fields| - 1]);
      RequiredIsLower(width, fields[|fields| - 1].ty);
    }
  }

  lemma {:induction false} FieldsHeightBound(width: nat, fields: seq<Field>, b: nat)
    requires forall i | 0 <= i < |fields| :: HeightOf(width, fields[i].ty, true) <= b
    ensures HeightOfFields(width, fields, true) <= b
  {
    if fields == [] {
    } else {
      FieldsHeightBound(width, fields[..|fields| - 1], b);
    }
  }

  /** A generated type is at most two higher than the depth it was generated at. */
  lemma {:induction false} GeneratedTypeHeight(entityTypes: set<Name>, width: nat, d: nat, ty: Type)
    requires IsGeneratedType(entityTypes, width, d, ty)
    ensures HeightOf(width, ty, true) <= d + 2
    decreases ty
  {
    match ty
    case TSet(element) => GeneratedTypeHeight(entityTypes, width, d - 1, element);
    case TRecord(fields) =>
      forall i | 0 <= i < |fields| ensures HeightOf(width, fields[i].ty, true) <= d + 1 {
        GeneratedTypeHeight(entityTypes, width, d - 1, fields[i].ty);
      }
      FieldsHeightBound(width, fields, d + 1);
    case _ =>
  }

  // ---------- Structural expressions ----------

  lemma {:induction false} FieldOfRequired(fields: seq<Field>, i: nat) returns (j: nat)
    requires i < |RequiredFields(fields)|
    ensures j < |fields| && fields[j] == RequiredFields(fields)[i] && fields[j].required
  {
    var front, last := fields[..|fields| - 1], fields[|fields| - 1];
    if i < |RequiredFields(front)| {
      j := FieldOfRequired(front, i);
    } else {
      j := |fields| - 1;
    }
  }

  lemma {:induction false} StructuralIsWithin(env: Env, e: Expr, ty: Type)
    requires IsStructural(env, e, ty)
    ensures ExprHeight(e) <= HeightOf(env.maxWidth, ty, false)
    decreases e
  {
    match ty
    case TSet(element) =>
      forall i | 0 <= i < |e.args| ensures ExprHeight(e.args[i]) <= HeightOf(env.maxWidth, element, false) {
        StructuralIsWithin(env, e.args[i], element);
      }
      ExprsHeightBound(e.args, if env.maxWidth == 0 then 0 else HeightOf(env.maxWidth, element, false));
    case TRecord(fields) =>
      if e.Node? {
        forall i | 0 <= i < |e.args| ensures ExprHeight(e.args[i]) <= HeightOfFields(env.maxWidth, fields, false) {
          var j := FieldOfRequired(fields, i);
          StructuralIsWithin(env, e.args[i], fields[j].ty);
          FieldHeight(env.maxWidth, fields, false, j);
        }
        ExprsHeightBound(e.args, HeightOfFields(env.maxWidth, fields, false));
      }
    case TIpaddr | TDecimal | TDatetime | TDuration => ConstructorHeight(env, ty, e);
    case _ =>
  }

  lemma StringCallHeight(env: Env, name: string, ty: Type, e: Expr)
    requires IsStringCallExpr(env, name, ty, e)
    ensures ExprHeight(e) == 1
  {
    ExprsHeightBound(e.args, 0);
  }

  lemma ConstructorHeight(env: Env, ty: Type, e: Expr)
    requires IsConstructorExpr(env, ty, e)
    ensures ExprHeight(e) == if ty.TDatetime? && IsOffsetExpr(env, e) then 2 else 1
  {
    if ty.TDatetime? && IsOffsetExpr(env, e) {
      StringCallHeight(env, "datetime", TDatetime, e.args[0]);
      StringCallHeight(env, "duration", TDuration, e.args[1]);
      ExprsHeightBound(e.args, 1);
      ExprsHeightAtLeast(e.args, 0);
    } else {
      ExprsHeightBound(e.args, 0);
    }
  }

  function StringCall(name: string): Expr {
    Node(Call(name), [StringConst("")])
  }

  const OFFSET_CALL := Node(Call("offset"), [StringCall("datetime"), StringCall("duration")])

  lemma OffsetCallIsStructural(env: Env)
    requires OffersConstructors(env.functions)
    ensures IsStructural(env, OFFSET_CALL, TDatetime) && ExprHeight(OFFSET_CALL) == 2
  {
    assert IsOffsetExpr(env, OFFSET_CALL);
    ConstructorHeight(env, TDatetime, OFFSET_CALL);
  }

  /** A structural expression as high as there is: an element in every set, and every required field. */
  lemma {:induction false} TallestStructural(env: Env, ty: Type) returns (e: Expr)
    requires OffersConstructors(env.functions)
    ensures IsStructural(env, e, ty) && ExprHeight(e) == HeightOf(env.maxWidth, ty, false)
    decreases ty, 1
  {
    match ty
    case TBool => e := BoolConst(true);
    case TLong => e := LongConst(0);
    case TString => e := StringConst("");
    case TEntity(name) => e := UidConst(EntityUid(name, ""));
    case TSet(element) =>
      if env.maxWidth == 0 {
        e := Node(SetOf, []);
      } else {
        var x := TallestStructural(env, element);
        e := Node(SetOf, [x]);
        OneArg(SetOf, x);
      }
    case TRecord(fields) =>
      var values := TallestFields(env, fields);
      e := Node(RecordOf(NamesOf(RequiredFields(fields))), values);
    case TIpaddr =>
      e := StringCall("ip");
      ConstructorHeight(env, ty, e);
    case TDecimal =>
      e := StringCall("decimal");
      ConstructorHeight(env, ty, e);
    case TDuration =>
      e := StringCall("duration");
      ConstructorHeight(env, ty, e);
    case TDatetime =>
      e := OFFSET_CALL;
      OffsetCallIsStructural(env);
  }

  lemma {:induction false} TallestFields(env: Env, fields: seq<Field>) returns (values: seq<Expr>)
    requires OffersConstructors(env.functions)
    ensures |values| == |RequiredFields(fields)|
    ensures forall i | 0 <= i < |values| :: IsStructural(env, values[i], RequiredFields(fields)[i].ty)
    ensures ExprsHeight(values) == HeightOfFields(env.maxWidth, fields, false)
    decreases fields, 0
  {
    if fields == [] {
      values := [];
    } else {
      var front, last := fields[..|fields| - 1], fields[|fields| - 1];
      var before := TallestFields(env, front);
      values := before;
      if last.required {
        var x := TallestStructural(env, last.ty);
        values := before + [x];
        assert values[..|values| - 1] == before;
      }
    }
  }

  lemma OneArg(op: Op, x: Expr)
    ensures ExprHeight(Node(op, [x])) == 1 + ExprHeight(x)
  {
    ExprsHeightBound([x], ExprHeight(x));
    ExprsHeightAtLeast([x], 0);
  }

  // ---------- The bound ----------

  lemma {:induction false} FieldChoiceHeight(width: nat, fields: seq<Field>, keys: seq<string>, argTypes: seq<Type>,
                                             i: nat, b: nat)
    requires IsFieldChoice(fields, keys, argTypes) && i < |argTypes|
    requires forall j | 0 <= j < |fields| :: HeightOf(width, fields[j].ty, true) <= b
    ensures HeightOf(width, argTypes[i], true) <= b
    decreases |fields|
  {
    if !fields[0].required && IsFieldChoice(fields[1..], keys, argTypes) {
      FieldChoiceHeight(width, fields[1..], keys, argTypes, i, b);
    } else if i > 0 {
      FieldChoiceHeight(width, fields[1..], keys[1..], argTypes[1..], i - 1, b);
    }
  }

  /** Parameters are strings or extension types, and what the function returns has no structure. */
  predicate IsLow(f: ExtensionFunction) {
    && (forall i | 0 <= i < |f.parameterTypes| :: f.parameterTypes[i] == TString || IsExtension(f.parameterTypes[i]))
    && (f.returnTy == TBool || f.returnTy == TLong || IsExtension(f.returnTy))
    && (f.returnTy == TLong ==> f.parameterTypes == [TDuration])
  }

  predicate AreLow(functions: seq<ExtensionFunction>) {
    forall f | f in functions :: IsLow(f)
  }

  lemma TableIsLow()
    ensures AreLow(ALL)
  {
    forall f | f in ALL ensures IsLow(f) {
      var i :| 0 <= i < |ALL| && ALL[i] == f;
      if i < 11 {
        FirstHalfIsLow(i);
      } else {
        SecondHalfIsLow(i);
      }
    }
  }

  lemma FirstHalfIsLow(i: nat)
    requires i < 11
    ensures IsLow(ALL[i])
  {
    assert |ALL[i].parameterTypes| == if i == 5 || i > 6 then 2 else 1;
  }

  lemma SecondHalfIsLow(i: nat)
    requires 11 <= i < |ALL|
    ensures IsLow(ALL[i])
  {
    assert |ALL[i].parameterTypes| == if i == 12 || i == 13 then 2 else 1;
  }

  lemma CallArgHeight(env: Env, f: ExtensionFunction, argTypes: seq<Type>, i: nat)
    requires IsLow(f) && IsCallOf(env, f, argTypes) && i < |argTypes|
    ensures HeightOf(env.maxWidth, argTypes[i], true) <= 2
    ensures f.returnTy == TLong ==> argTypes[i] == TDuration
  {
    if i < |f.parameterTypes| {
      assert argTypes[i] == argTypes[..|f.parameterTypes|][i];
    }
  }

  lemma RecordArgHeight(width: nat, fields: seq<Field>, keys: seq<string>, argTypes: seq<Type>, i: nat)
    requires IsFieldChoice(fields, keys, argTypes) && i < |argTypes|
    ensures HeightOf(width, argTypes[i], true) <= HeightOfFields(width, fields, true)
  {
    forall j | 0 <= j < |fields| ensures HeightOf(width, fields[j].ty, true) <= HeightOfFields(width, fields, true) {
      FieldHeight(width, fields, true, j);
    }
    FieldChoiceHeight(width, fields, keys, argTypes, i, HeightOfFields(width, fields, true));
  }

  /** An argument's type is at most one higher than the type asked for, or three higher than the depth. */
  lemma ArgTypeHeight(env: Env, ty: Type, d: nat, op: Op, argTypes: seq<Type>, i: nat)
    requires AreLow(env.functions) && d > 0 && IsProduction(env, ty, d, op, argTypes) && i < |argTypes|
    ensures HeightOf(env.maxWidth, argTypes[i], true) <= Max(HeightOf(env.maxWidth, ty, true) + 1, d + 3)
  {
    var width := env.maxWidth;
    match op
    case RecordOf(keys) => RecordArgHeight(width, ty.fields, keys, argTypes, i);
    case Call(name) =>
      var f :| f in env.functions && f.name == name && f.returnTy == ty && IsCallOf(env, f, argTypes);
      CallArgHeight(env, f, argTypes, i);
    case GetAttr(attr) => RecordBaseHeight(width, attr, ty, true);
    case Eq => GeneratedTypeHeight(env.entityTypes, width, d, argTypes[i]);
    case Contains => GeneratedTypeHeight(env.entityTypes, width, d, argTypes[1]);
    case ContainsAll => GeneratedTypeHeight(env.entityTypes, width, d, argTypes[i].element);
    case ContainsAny => GeneratedTypeHeight(env.entityTypes, width, d, argTypes[i].element);
    case IsEmpty => GeneratedTypeHeight(env.entityTypes, width, d, argTypes[i].element);
    case HasAttr(_) =>
      if argTypes[0].TRecord? {
        GeneratedTypeHeight(env.entityTypes, width, d, argTypes[0]);
      }
    case _ =>
  }

  lemma RecordBaseHeight(width: nat, attr: string, ty: Type, all: bool)
    ensures HeightOf(width, TRecord([Field(attr, ty, true)]), all) == 1 + HeightOf(width, ty, all)
  {
    var fields := [Field(attr, ty, true)];
    assert fields[..0] == [];
    assert HeightOfFields(width, fields, all) == Max(HeightOfFields(width, fields[..0], all), HeightOf(width, ty, all));
  }

  /** The highest an expression for a type can be said to be. */
  function HeightBound(env: Env, ty: Type, d: nat): nat {
    if d == 0 then HeightOf(env.maxWidth, ty, false) else 2 * d + Max(HeightOf(env.maxWidth, ty, true), d + 2)
  }

  lemma BoundOfArg(env: Env, ty: Type, d: nat, op: Op, argTypes: seq<Type>, i: nat)
    requires AreLow(env.functions) && d > 0 && IsProduction(env, ty, d, op, argTypes) && i < |argTypes|
    ensures HeightBound(env, argTypes[i], d - 1) < HeightBound(env, ty, d)
  {
    ArgTypeHeight(env, ty, d, op, argTypes, i);
    RequiredIsLower(env.maxWidth, argTypes[i]);
  }

  lemma StructuralWithinBound(env: Env, d: nat, e: Expr, ty: Type)
    requires IsStructural(env, e, ty)
    ensures ExprHeight(e) <= HeightBound(env, ty, d)
  {
    StructuralIsWithin(env, e, ty);
    RequiredIsLower(env.maxWidth, ty);
  }

  /** Whatever is made for a type with some depth left is within the bound. */
  lemma {:induction false} HeightIsBounded(env: Env, types: map<string, Type>, d: nat, e: Expr, ty: Type)
    requires AreLow(env.functions) && Derivable(env, types, d, e, ty)
    ensures ExprHeight(e) <= HeightBound(env, ty, d)
    decreases e, 1
  {
    if !e.Node? {
    } else if IsStructural(env, e, ty) {
      StructuralWithinBound(env, d, e, ty);
    } else {
      OperationIsBounded(env, types, d, e, ty);
    }
  }

  lemma {:induction false} OperationIsBounded(env: Env, types: map<string, Type>, d: nat, e: Expr, ty: Type)
    requires AreLow(env.functions) && d > 0 && IsOperation(env, types, d, e, ty)
    ensures ExprHeight(e) <= HeightBound(env, ty, d)
    decreases e, 0
  {
    var argTypes :| IsProduction(env, ty, d, e.op, argTypes) && |argTypes| == |e.args|
      && forall i | 0 <= i < |e.args| :: Derivable(env, types, d - 1, e.args[i], argTypes[i]);
    var b := HeightBound(env, ty, d) - 1;
    forall i | 0 <= i < |e.args| ensures ExprHeight(e.args[i]) <= b {
      HeightIsBounded(env, types, d - 1, e.args[i], argTypes[i]);
      BoundOfArg(env, ty, d, e.op, argTypes, i);
    }
    ExprsHeightBound(e.args, b);
  }

  // ---------- When the depth asked for is a bound ----------

  lemma AccessIsDerivable(env: Env, d: nat, base: Expr, ty: Type)
    requires d > 0 && Derivable(env, map[], d - 1, base, RecordAround(ty))
    ensures Derivable(env, map[], d, Node(GetAttr(""), [base]), ty)
    ensures ExprHeight(Node(GetAttr(""), [base])) == 1 + ExprHeight(base)
    ensures HeightOf(env.maxWidth, RecordAround(ty), false) == 1 + HeightOf(env.maxWidth, ty, false)
  {
    OneArg(GetAttr(""), base);
    RecordBaseHeight(env.maxWidth, "", ty, false);
    OperationIsDerivable(env, map[], d, GetAttr(""), [base], [RecordAround(ty)], ty);
  }

  function RecordAround(ty: Type): Type {
    TRecord([Field("", ty, true)])
  }

  lemma ChainEnd(env: Env, d: nat, ty: Type) returns (e: Expr)
    requires OffersConstructors(env.functions) && (env.enableUnknowns ==> d > 0)
    ensures Derivable(env, map[], d, e, ty)
    ensures ExprHeight(e) == HeightOf(env.maxWidth, ty, false)
  {
    e := TallestStructural(env, ty);
    StructuralIsDerivable(env, map[], d, e, ty);
  }

  /** Accesses to attributes of records, down to where the structure of the type takes over. */
  lemma {:induction false} AccessChain(env: Env, d: nat, base: nat, ty: Type) returns (e: Expr)
    requires OffersConstructors(env.functions) && (env.enableUnknowns ==> base > 0) && base <= d
    ensures Derivable(env, map[], d, e, ty)
    ensures ExprHeight(e) == 2 * (d - base) + HeightOf(env.maxWidth, ty, false)
    decreases d
  {
    if d == base {
      e := ChainEnd(env, d, ty);
    } else {
      var inner := AccessChain(env, d - 1, base, RecordAround(ty));
      e := Node(GetAttr(""), [inner]);
      AccessIsDerivable(env, d, inner, ty);
    }
  }

  /** A comparison of two datetimes made where no more than one level is left. */
  lemma ComparedDatetimes(env: Env) returns (e: Expr)
    requires OffersConstructors(env.functions)
    ensures Derivable(env, map[], 2, e, TBool) && ExprHeight(e) == 3
  {
    OffsetCallIsStructural(env);
    e := ComparedWithItself(env, OFFSET_CALL);
  }

  lemma ComparedWithItself(env: Env, x: Expr) returns (e: Expr)
    requires IsStructural(env, x, TDatetime) && x.Node?
    ensures Derivable(env, map[], 2, e, TBool) && ExprHeight(e) == 1 + ExprHeight(x)
  {
    e := Node(Eq, [x, x]);
    StructuralIsDerivable(env, map[], 1, x, TDatetime);
    OperationIsDerivable(env, map[], 2, Eq, [x, x], [TDatetime, TDatetime], TBool);
    ExprsHeightBound([x, x], ExprHeight(x));
    ExprsHeightAtLeast([x, x], 0);
  }

  /** With unknowns and one level left, an expression is an operator on unknowns or has the structure of the type. */
  lemma OneLevelLeft(env: Env, types: map<string, Type>, e: Expr, ty: Type)
    requires env.enableUnknowns && Derivable(env, types, 1, e, ty)
    ensures ExprHeight(e) <= Max(1, HeightOf(env.maxWidth, ty, false))
  {
    if !e.Node? {
    } else if IsStructural(env, e, ty) {
      StructuralIsWithin(env, e, ty);
    } else {
      var argTypes :| IsProduction(env, ty, 1, e.op, argTypes) && |argTypes| == |e.args|
        && forall i | 0 <= i < |e.args| :: Derivable(env, types, 0, e.args[i], argTypes[i]);
      forall i | 0 <= i < |e.args| ensures ExprHeight(e.args[i]) <= 0 {
        assert Derivable(env, types, 0, e.args[i], argTypes[i]);
      }
      ExprsHeightBound(e.args, 0);
    }
  }

  /** The operators that give an integer, a string or an entity have arguments of low types. */
  lemma LowArgTypes(env: Env, ty: Type, d: nat, op: Op, argTypes: seq<Type>, i: nat)
    requires AreLow(env.functions) && IsProduction(env, ty, d, op, argTypes) && i < |argTypes|
    requires HeightOf(env.maxWidth, ty, false) == 0 && ty != TBool
    ensures HeightOf(env.maxWidth, argTypes[i], false) <= 1
  {
    match op
    case GetAttr(attr) => RecordBaseHeight(env.maxWidth, attr, ty, false);
    case Call(name) =>
      var f :| f in env.functions && f.name == name && f.returnTy == ty && IsCallOf(env, f, argTypes);
      CallArgHeight(env, f, argTypes, i);
    case _ =>
  }

  lemma TwoLevelsLeft(env: Env, types: map<string, Type>, e: Expr, ty: Type)
    requires AreLow(env.functions) && env.enableUnknowns && Derivable(env, types, 2, e, ty)
    requires HeightOf(env.maxWidth, ty, false) == 0 && ty != TBool
    ensures ExprHeight(e) <= 2
  {
    if !e.Node? {
    } else if IsStructural(env, e, ty) {
      StructuralIsWithin(env, e, ty);
    } else {
      var argTypes :| IsProduction(env, ty, 2, e.op, argTypes) && |argTypes| == |e.args|
        && forall i | 0 <= i < |e.args| :: Derivable(env, types, 1, e.args[i], argTypes[i]);
      forall i | 0 <= i < |e.args| ensures ExprHeight(e.args[i]) <= 1 {
        OneLevelLeft(env, types, e.args[i], argTypes[i]);
        LowArgTypes(env, ty, 2, e.op, argTypes, i);
      }
      ExprsHeightBound(e.args, 1);
    }
  }

  /** The types and depths for which no expression is higher than the depth. */
  predicate KeepsDepth(env: Env, d: nat, ty: Type) {
    var height := HeightOf(env.maxWidth, ty, false);
    if env.enableUnknowns then d == 0 || (d == 1 && height <= 1) || (d == 2 && height == 0 && ty != TBool)
    else d == 0 && height == 0
  }

  lemma KeptDepth(env: Env, types: map<string, Type>, d: nat, e: Expr, ty: Type)
    requires AreLow(env.functions) && KeepsDepth(env, d, ty) && Derivable(env, types, d, e, ty)
    ensures ExprHeight(e) <= d
  {
    if d == 0 {
      if e.Node? {
        StructuralIsWithin(env, e, ty);
      }
    } else if d == 1 {
      OneLevelLeft(env, types, e, ty);
    } else {
      TwoLevelsLeft(env, types, e, ty);
    }
  }

  lemma ExceededDepth(env: Env, d: nat, ty: Type) returns (e: Expr)
    requires OffersConstructors(env.functions) && !KeepsDepth(env, d, ty)
    ensures Derivable(env, map[], d, e, ty) && ExprHeight(e) > d
  {
    if env.enableUnknowns && d == 2 && ty == TBool {
      e := ComparedDatetimes(env);
    } else {
      e := AccessChain(env, d, if env.enableUnknowns then 1 else 0, ty);
    }
  }

  /** No expression for the type is higher than the depth. */
  ghost predicate AllKeepDepth(env: Env, d: nat, ty: Type) {
    forall types, e | Derivable(env, types, d, e, ty) :: ExprHeight(e) <= d
  }

  lemma SomeExceeds(env: Env, types: map<string, Type>, d: nat, e: Expr, ty: Type)
    requires Derivable(env, types, d, e, ty) && ExprHeight(e) > d
    ensures !AllKeepDepth(env, d, ty)
  {
  }

  /** The documented bound on the height holds for exactly these types and depths. */
  lemma KeepsDepthIff(env: Env, d: nat, ty: Type)
    requires AreLow(env.functions) && OffersConstructors(env.functions)
    ensures KeepsDepth(env, d, ty) <==> AllKeepDepth(env, d, ty)
  {
    if KeepsDepth(env, d, ty) {
      forall types, e | Derivable(env, types, d, e, ty) ensures ExprHeight(e) <= d {
        KeptDepth(env, types, d, e, ty);
      }
    } else {
      var e := ExceededDepth(env, d, ty);
      SomeExceeds(env, map[], d, e, ty);
    }
  }
}
