/**
 The typing rules of expressions on whole types, said apart from the generator, and the proof that what is
 generated for a type has it.  A variable, or a literal entity, may stand for any type of its kind.
 */
module ExprTypes {
  import opened Wrappers
  import opened SchemaTypes
  import opened ExtensionFunctions
  import opened Expressions

  /** Every key is declared with the type beside it, and every required field has a key. */
  ghost predicate FieldsAreTyped(fields: seq<Field>, keys: seq<string>, tys: seq<Type>) {
    && |keys| == |tys|
    && (forall i | 0 <= i < |keys| :: IsFieldOf(fields, keys[i], tys[i]))
    && (forall f | f in fields && f.required :: f.name in keys)
  }

  predicate IsFieldOf(fields: seq<Field>, name: string, ty: Type) {
    exists f :: f in fields && f.name == name && f.ty == ty
  }

  /** The function takes arguments of these types; more of the last one only with the setting. */
  predicate Takes(env: Env, f: ExtensionFunction, tys: seq<Type>) {
    && |f.parameterTypes| <= |tys|
    && (forall i | 0 <= i < |f.parameterTypes| :: tys[i] == f.parameterTypes[i])
    && (|tys| > |f.parameterTypes| ==> env.enableArbitraryFuncCall)
  }

  /** The record has the required attribute, or the entity type declares it, with the type. */
  predicate AttributeIsTyped(env: Env, ty: Type, attr: string, out: Type) {
    match ty
    case TRecord(fields) => Field(attr, out, true) in fields
    case TEntity(name) => out in env.attributesByType && (name, attr) in env.attributesByType[out]
    case _ => false
  }

  /** The operator gives the type from arguments of these types. */
  ghost predicate OpIsTyped(env: Env, op: Op, tys: seq<Type>, out: Type) {
    match op
    case Eq => |tys| == 2 && out == TBool
    case Not => tys == [TBool] && out == TBool
    case And => tys == [TBool, TBool] && out == TBool
    case Or => tys == [TBool, TBool] && out == TBool
    case In =>
      |tys| == 2 && tys[0].TEntity? && (tys[1].TEntity? || (tys[1].TSet? && tys[1].element.TEntity?)) && out == TBool
    case Contains => |tys| == 2 && tys[0] == TSet(tys[1]) && out == TBool
    case ContainsAll => |tys| == 2 && tys[0].TSet? && tys[1].TSet? && out == TBool
    case ContainsAny => |tys| == 2 && tys[0].TSet? && tys[1].TSet? && out == TBool
    case IsEmpty => |tys| == 1 && tys[0].TSet? && out == TBool
    case Like(_) => tys == [TString] && out == TBool
    case Is(_) => |tys| == 1 && tys[0].TEntity? && out == TBool
    case HasAttr(_) => |tys| == 1 && (tys[0].TEntity? || tys[0].TRecord?) && out == TBool
    case GetAttr(attr) => |tys| == 1 && AttributeIsTyped(env, tys[0], attr, out)
    case HasTag => |tys| == 2 && tys[0].TEntity? && tys[1] == TString && out == TBool
    case GetTag =>
      && |tys| == 2 && tys[0].TEntity? && tys[1] == TString
      && tys[0].name in env.tagTypes && env.tagTypes[tys[0].name] == out
    case Ite => tys == [TBool, out, out]
    case Add => tys == [TLong, TLong] && out == TLong
    case Sub => tys == [TLong, TLong] && out == TLong
    case Mul => tys == [TLong, TLong] && out == TLong
    case Neg => tys == [TLong] && out == TLong
    case Call(name) => exists f :: f in env.functions && f.name == name && f.returnTy == out && Takes(env, f, tys)
    case SetOf => out.TSet? && forall ty | ty in tys :: ty == out.element
    case RecordOf(keys) => out.TRecord? && FieldsAreTyped(out.fields, keys, tys)
    case _ => |tys| == 2 && tys[0] == tys[1] && tys[0] in {TLong, TDatetime, TDuration} && out == TBool
  }

  ghost predicate HasType(env: Env, e: Expr, ty: Type)
    decreases e
  {
    match e
    case BoolConst(_) => ty == TBool
    case LongConst(_) => ty == TLong
    case StringConst(_) => ty == TString
    case UidConst(_) => ty.TEntity?
    case Variable(v) => if v.Context? then ty.TRecord? else ty.TEntity?
    case UnknownOf(_, annotation) => annotation == Some(AstTypeOf(ty))
    case Node(op, args) =>
      exists tys :: OpIsTyped(env, op, tys, ty) && |tys| == |args|
        && forall i | 0 <= i < |args| :: HasType(env, args[i], tys[i])
  }

  /** A choice among fields has declared keys with their types, and all required ones. */
  lemma {:induction false} FieldChoiceIsTyped(fields: seq<Field>, keys: seq<string>, tys: seq<Type>)
    requires IsFieldChoice(fields, keys, tys)
    ensures FieldsAreTyped(fields, keys, tys)
  {
    if fields == [] {
    } else if !fields[0].required && IsFieldChoice(fields[1..], keys, tys) {
      FieldChoiceIsTyped(fields[1..], keys, tys);
      RestIsTyped(fields, keys, tys);
    } else {
      FieldChoiceIsTyped(fields[1..], keys[1..], tys[1..]);
      RestIsTyped(fields, keys[1..], tys[1..]);
      assert IsFieldOf(fields, keys[0], tys[0]) by {
        assert fields[0] in fields;
      }
      assert keys == [keys[0]] + keys[1..];
    }
  }

  lemma RestIsTyped(fields: seq<Field>, keys: seq<string>, tys: seq<Type>)
    requires fields != [] && FieldsAreTyped(fields[1..], keys, tys)
    ensures forall i | 0 <= i < |keys| :: IsFieldOf(fields, keys[i], tys[i])
    ensures forall f | f in fields && f != fields[0] && f.required :: f.name in keys
  {
    forall i | 0 <= i < |keys| ensures IsFieldOf(fields, keys[i], tys[i]) {
      assert IsFieldOf(fields[1..], keys[i], tys[i]);
    }
  }

  /** Every production keeps the typing rules. */
  lemma ProductionIsTyped(env: Env, target: Type, d: nat, op: Op, argTypes: seq<Type>)
    requires IsProduction(env, target, d, op, argTypes)
    ensures OpIsTyped(env, op, argTypes, target)
  {
    match op
    case RecordOf(keys) => FieldChoiceIsTyped(target.fields, keys, argTypes);
    case Call(name) =>
      var f :| f in env.functions && f.name == name && f.returnTy == target && IsCallOf(env, f, argTypes);
      forall i | 0 <= i < |f.parameterTypes| ensures argTypes[i] == f.parameterTypes[i] {
        assert argTypes[i] == argTypes[..|f.parameterTypes|][i];
      }
    case _ =>
  }

  lemma NodeHasType(env: Env, e: Expr, tys: seq<Type>, ty: Type)
    requires e.Node? && OpIsTyped(env, e.op, tys, ty) && |tys| == |e.args|
    requires forall i | 0 <= i < |e.args| :: HasType(env, e.args[i], tys[i])
    ensures HasType(env, e, ty)
  {
  }

  lemma CallIsTyped(env: Env, f: ExtensionFunction)
    requires f in env.functions
    ensures OpIsTyped(env, Call(f.name), f.parameterTypes, f.returnTy)
  {
    assert Takes(env, f, f.parameterTypes);
  }

  lemma StringCallHasType(env: Env, name: string, ty: Type, e: Expr)
    requires IsStringCallExpr(env, name, ty, e)
    ensures HasType(env, e, ty)
  {
    CallIsTyped(env, ExtensionFunction(name, true, [TString], ty));
    NodeHasType(env, e, [TString], ty);
  }

  lemma OffsetHasType(env: Env, e: Expr)
    requires IsOffsetExpr(env, e)
    ensures HasType(env, e, TDatetime)
  {
    StringCallHasType(env, "datetime", TDatetime, e.args[0]);
    StringCallHasType(env, "duration", TDuration, e.args[1]);
    OffsetOfTypes(env, e);
  }

  lemma OffsetOfTypes(env: Env, e: Expr)
    requires ExtensionFunction("offset", true, [TDatetime, TDuration], TDatetime) in env.functions
    requires e.Node? && e.op == Call("offset") && |e.args| == 2
    requires HasType(env, e.args[0], TDatetime) && HasType(env, e.args[1], TDuration)
    ensures HasType(env, e, TDatetime)
  {
    CallIsTyped(env, ExtensionFunction("offset", true, [TDatetime, TDuration], TDatetime));
    NodeHasType(env, e, [TDatetime, TDuration], TDatetime);
  }

  lemma ConstructorHasType(env: Env, ty: Type, e: Expr)
    requires IsConstructorExpr(env, ty, e)
    ensures HasType(env, e, ty)
  {
    match ty
    case TIpaddr => StringCallHasType(env, "ip", ty, e);
    case TDecimal => StringCallHasType(env, "decimal", ty, e);
    case TDuration => StringCallHasType(env, "duration", ty, e);
    case TDatetime =>
      if IsOffsetExpr(env, e) {
        OffsetHasType(env, e);
      } else {
        StringCallHasType(env, "datetime", ty, e);
      }
  }

  lemma {:induction false} RequiredAreTyped(fields: seq<Field>)
    ensures forall f :: f in RequiredFields(fields) <==> f in fields && f.required
  {
    if fields == [] {
    } else {
      RequiredAreTyped(fields[..|fields| - 1]);
      assert fields == fields[..|fields| - 1] + [fields[|fields| - 1]];
    }
  }

  lemma RequiredFieldsAreTyped(fields: seq<Field>)
    ensures var required := RequiredFields(fields);
            FieldsAreTyped(fields, NamesOf(required), seq(|required|, i requires 0 <= i < |required| => required[i].ty))
  {
    RequiredAreTyped(fields);
    var required := RequiredFields(fields);
    var tys := seq(|required|, i requires 0 <= i < |required| => required[i].ty);
    forall i | 0 <= i < |required| ensures IsFieldOf(fields, NamesOf(required)[i], tys[i]) {
      assert required[i] in required;
    }
    forall f | f in fields && f.required ensures f.name in NamesOf(required) {
      var i :| 0 <= i < |required| && required[i] == f;
      assert NamesOf(required)[i] == f.name;
    }
  }

  lemma {:induction false} StructuralHasType(env: Env, e: Expr, ty: Type)
    requires IsStructural(env, e, ty)
    ensures HasType(env, e, ty)
    decreases e
  {
    match ty
    case TSet(element) =>
      var tys := seq(|e.args|, i requires 0 <= i < |e.args| => element);
      forall i | 0 <= i < |e.args| ensures HasType(env, e.args[i], tys[i]) {
        StructuralHasType(env, e.args[i], element);
      }
      NodeHasType(env, e, tys, ty);
    case TRecord(fields) =>
      if e.Node? {
        var required := RequiredFields(fields);
        var tys := seq(|required|, i requires 0 <= i < |required| => required[i].ty);
        forall i | 0 <= i < |e.args| ensures HasType(env, e.args[i], tys[i]) {
          StructuralHasType(env, e.args[i], required[i].ty);
        }
        RequiredFieldsAreTyped(fields);
        NodeHasType(env, e, tys, ty);
      }
    case TIpaddr | TDecimal | TDatetime | TDuration => ConstructorHasType(env, ty, e);
    case _ =>
  }

  /** What is made for a type has the type, down to the types inside sets and records. */
  lemma {:induction false} DerivableHasType(env: Env, types: map<string, Type>, d: nat, e: Expr, ty: Type)
    requires Derivable(env, types, d, e, ty)
    ensures HasType(env, e, ty)
    decreases e
  {
    if e.UnknownOf? {
    } else if IsStructural(env, e, ty) {
      StructuralHasType(env, e, ty);
    } else if e.Node? {
      var argTypes :| IsProduction(env, ty, d, e.op, argTypes) && |argTypes| == |e.args|
        && forall i | 0 <= i < |e.args| :: Derivable(env, types, d - 1, e.args[i], argTypes[i]);
      ProductionIsTyped(env, ty, d, e.op, argTypes);
      forall i | 0 <= i < |e.args| ensures HasType(env, e.args[i], argTypes[i]) {
        DerivableHasType(env, types, d - 1, e.args[i], argTypes[i]);
      }
      NodeHasType(env, e, argTypes, ty);
    }
  }
}
