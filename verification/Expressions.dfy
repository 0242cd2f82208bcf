/** Policy expressions as the generators build them, and the rules by which a type is refined. */
module Expressions {
  import opened Wrappers
  import opened Integers
  import opened SchemaTypes
  import opened ExtensionFunctions
  import opened AttrValues
  import opened TypeGenerator

  /** The types an unknown can be annotated with. */
  datatype AstType = ABool | ALong | AString | ASet | ARecord | AEntity(ty: Name) | AExtension(name: string)

  function AstTypeOf(ty: Type): AstType {
    match ty
    case TBool => ABool
    case TLong => ALong
    case TString => AString
    case TSet(_) => ASet
    case TRecord(_) => ARecord
    case TEntity(name) => AEntity(name)
    case TIpaddr => AExtension("ipaddr")
    case TDecimal => AExtension("decimal")
    case TDatetime => AExtension("datetime")
    case TDuration => AExtension("duration")
  }

  /** The types are the same but for what is inside sets and records. */
  predicate SameOutside(a: Type, b: Type) {
    if a.TSet? then b.TSet? else if a.TRecord? then b.TRecord? else a == b
  }

  /** The annotation keeps everything but what is inside sets and records: an entity type its name, for one. */
  lemma AnnotationsAgreeIff(a: Type, b: Type)
    ensures AstTypeOf(a) == AstTypeOf(b) <==> SameOutside(a, b)
  {
  }

  /** The annotation of an extension type is the name by which a schema refers to it, and that of an entity its name. */
  lemma AnnotationNames(cts: CommonTypes, ty: Type)
    ensures IsExtension(ty) <==> AstTypeOf(ty).AExtension?
    ensures IsExtension(ty) ==> SchemaTypeToType(cts, None, Extension(AstTypeOf(ty).name), 0) == Ok(ty)
    ensures ty.TEntity? <==> AstTypeOf(ty).AEntity?
    ensures ty.TEntity? ==> SchemaTypeToType(cts, None, Entity(AstTypeOf(ty).ty), 0) == Ok(ty)
  {
  }

  datatype Var = Principal | Action | Resource | Context

  datatype Op =
    | Eq | Not | And | Or | Less | LessEq | Greater | GreaterEq | In
    | Contains | ContainsAll | ContainsAny | IsEmpty
    | Like(pattern: string) | Is(ety: Name)
    | HasAttr(attr: string) | GetAttr(attr: string) | HasTag | GetTag
    | Ite | Add | Sub | Mul | Neg
    | Call(function_: string)
    | SetOf | RecordOf(keys: seq<string>)

  datatype Expr =
    | BoolConst(b: bool)
    | LongConst(i: int)
    | StringConst(s: string)
    | UidConst(uid: EntityUid)
    | Variable(v: Var)
    | UnknownOf(name: string, annotation: Option<AstType>)
    | Node(op: Op, args: seq<Expr>)

  /** What the type-directed generator looks up. */
  datatype Env = Env(
    functions: seq<ExtensionFunction>,
    entityTypes: set<Name>,
    attributesByType: map<Type, seq<(Name, string)>>,
    tagTypes: map<Name, Type>,
    enableLike: bool,
    enableArbitraryFuncCall: bool,
    enableUnknowns: bool,
    maxDepth: nat,
    maxWidth: nat)

  /** A type generated at depth `d` from the declared entity types. */
  predicate IsGenerated(env: Env, d: nat, ty: Type) {
    IsGeneratedType(env.entityTypes, env.maxWidth, d, ty)
  }

  predicate IsDeclared(env: Env, ty: Type) {
    ty.TEntity? && ty.name in env.entityTypes
  }

  /** The keys and types of a record literal: all required fields and some others, in order. */
  predicate IsFieldChoice(fields: seq<Field>, keys: seq<string>, argTypes: seq<Type>) {
    if fields == [] then keys == [] && argTypes == []
    else
      || (!fields[0].required && IsFieldChoice(fields[1..], keys, argTypes))
      || (keys != [] && argTypes != [] && keys[0] == fields[0].name && argTypes[0] == fields[0].ty
          && IsFieldChoice(fields[1..], keys[1..], argTypes[1..]))
  }

  /** Arguments of the parameter types, and with the setting some more of the last one's. */
  predicate IsCallOf(env: Env, f: ExtensionFunction, argTypes: seq<Type>) {
    && |f.parameterTypes| <= |argTypes|
    && argTypes[..|f.parameterTypes|] == f.parameterTypes
    && (|argTypes| > |f.parameterTypes| ==>
          env.enableArbitraryFuncCall && f.parameterTypes != [] && |argTypes| <= |f.parameterTypes| + env.maxWidth)
    && forall i | |f.parameterTypes| <= i < |argTypes| ::
         f.parameterTypes != [] && argTypes[i] == f.parameterTypes[|f.parameterTypes| - 1]
  }

  /** With depth `d` left, an expression of type `target` may be an operator with arguments of these types. */
  predicate IsProduction(env: Env, target: Type, d: nat, op: Op, argTypes: seq<Type>) {
    var n := |argTypes|;
    match op
    case Eq => target == TBool && n == 2 && IsGenerated(env, d, argTypes[0]) && IsGenerated(env, d, argTypes[1])
    case Not => target == TBool && argTypes == [TBool]
    case And => target == TBool && argTypes == [TBool, TBool]
    case Or => target == TBool && argTypes == [TBool, TBool]
    case Less => target == TBool && IsComparison(argTypes)
    case LessEq => target == TBool && IsComparison(argTypes)
    case Greater => target == TBool && IsComparison(argTypes)
    case GreaterEq => target == TBool && IsComparison(argTypes)
    case In => target == TBool && n == 2 && IsDeclared(env, argTypes[0])
               && (IsDeclared(env, argTypes[1]) || (argTypes[1].TSet? && IsDeclared(env, argTypes[1].element)))
    case Contains => target == TBool && n == 2 && argTypes[0] == TSet(argTypes[1]) && IsGenerated(env, d, argTypes[1])
    case ContainsAll => target == TBool && n == 2 && IsGeneratedSet(env, d, argTypes[0])
      && IsGeneratedSet(env, d, argTypes[1])
    case ContainsAny => target == TBool && n == 2 && IsGeneratedSet(env, d, argTypes[0])
      && IsGeneratedSet(env, d, argTypes[1])
    case IsEmpty => target == TBool && n == 1 && IsGeneratedSet(env, d, argTypes[0])
    case Like(_) => target == TBool && env.enableLike && argTypes == [TString]
    case Is(ety) => target == TBool && n == 1 && IsDeclared(env, argTypes[0]) && ety in env.entityTypes
    case HasAttr(_) =>
      && target == TBool && n == 1
      && (IsDeclared(env, argTypes[0]) || (argTypes[0].TRecord? && IsGenerated(env, d, argTypes[0])))
    case HasTag => target == TBool && n == 2 && IsDeclared(env, argTypes[0]) && argTypes[1] == TString
    case GetAttr(attr) =>
      && n == 1
      && ((argTypes[0].TEntity? && target in env.attributesByType
           && (argTypes[0].name, attr) in env.attributesByType[target])
          || argTypes[0] == TRecord([Field(attr, target, true)]))
    case GetTag => n == 2 && argTypes[0].TEntity? && argTypes[0].name in env.tagTypes
                   && env.tagTypes[argTypes[0].name] == target && argTypes[1] == TString
    case Ite => argTypes == [TBool, target, target]
    case Add => target == TLong && argTypes == [TLong, TLong]
    case Sub => target == TLong && argTypes == [TLong, TLong]
    case Mul => target == TLong && argTypes == [TLong, TLong]
    case Neg => target == TLong && argTypes == [TLong]
    case Call(name) =>
      exists f :: f in env.functions && f.name == name && f.returnTy == target && IsCallOf(env, f, argTypes)
    case SetOf => target.TSet? && n <= env.maxWidth && forall i | 0 <= i < n :: argTypes[i] == target.element
    case RecordOf(keys) => target.TRecord? && IsFieldChoice(target.fields, keys, argTypes)
  }

  predicate IsGeneratedSet(env: Env, d: nat, ty: Type) {
    ty.TSet? && IsGenerated(env, d, ty.element)
  }

  predicate IsComparison(argTypes: seq<Type>) {
    |argTypes| == 2 && argTypes[0] == argTypes[1] && argTypes[0] in {TLong, TDatetime, TDuration}
  }

  /** An expression without parts that may stand for a type; a variable or any uid for any entity type. */
  predicate IsLeafOf(target: Type, e: Expr) {
    match e
    case BoolConst(_) => target == TBool
    case LongConst(i) => target == TLong && IsI64(i)
    case StringConst(_) => target == TString
    case UidConst(_) => target.TEntity?
    case Variable(v) => if v.Context? then target.TRecord? else target.TEntity?
    case _ => false
  }

  lemma OperationIsDerivable(env: Env, types: map<string, Type>, d: nat, op: Op, args: seq<Expr>, argTypes: seq<Type>,
                             ty: Type)
    requires d > 0 && IsProduction(env, ty, d, op, argTypes) && |argTypes| == |args|
    requires forall i | 0 <= i < |args| :: Derivable(env, types, d - 1, args[i], argTypes[i])
    ensures Derivable(env, types, d, Node(op, args), ty)
  {
    assert IsOperation(env, types, d, Node(op, args), ty);
  }

  function RequiredFields(fields: seq<Field>): seq<Field> {
    if fields == [] then []
    else RequiredFields(fields[..|fields| - 1]) + if fields[|fields| - 1].required then [fields[|fields| - 1]] else []
  }

  function NamesOf(fields: seq<Field>): seq<string> {
    seq(|fields|, i requires 0 <= i < |fields| => fields[i].name)
  }

  /** A call of a constructor that the table has, with a string literal. */
  predicate IsStringCallExpr(env: Env, name: string, ty: Type, e: Expr) {
    && ExtensionFunction(name, true, [TString], ty) in env.functions
    && e.Node? && e.op == Call(name) && |e.args| == 1 && e.args[0].StringConst?
  }

  predicate IsConstructorExpr(env: Env, ty: Type, e: Expr) {
    match ty
    case TIpaddr => IsStringCallExpr(env, "ip", ty, e)
    case TDecimal => IsStringCallExpr(env, "decimal", ty, e)
    case TDuration => IsStringCallExpr(env, "duration", ty, e)
    case TDatetime => IsStringCallExpr(env, "datetime", ty, e) || IsOffsetExpr(env, e)
    case _ => false
  }

  predicate IsOffsetExpr(env: Env, e: Expr) {
    && ExtensionFunction("offset", true, [TDatetime, TDuration], TDatetime) in env.functions
    && e.Node? && e.op == Call("offset") && |e.args| == 2
    && IsStringCallExpr(env, "datetime", TDatetime, e.args[0])
      && IsStringCallExpr(env, "duration", TDuration, e.args[1])
  }

  /** An expression that follows the structure of the type alone: what is made without depth or input left. */
  predicate IsStructural(env: Env, e: Expr, ty: Type)
    decreases e
  {
    match ty
    case TSet(element) =>
      e.Node? && e.op.SetOf? && |e.args| <= env.maxWidth
        && forall i | 0 <= i < |e.args| :: IsStructural(env, e.args[i], element)
    case TRecord(fields) =>
      var required := RequiredFields(fields);
      || e == Variable(Context)
      || (e.Node? && e.op == RecordOf(NamesOf(required)) && |e.args| == |required|
          && forall i | 0 <= i < |e.args| :: IsStructural(env, e.args[i], required[i].ty))
    case TEntity(name) => IsLeafOf(ty, e) && (e.UidConst? ==> e.uid.ty == name)
    case _ => if IsExtension(ty) then IsConstructorExpr(env, ty, e) else IsLeafOf(ty, e)
  }

  /**
   `e` can be made for type `ty` with depth `d` left, and every unknown in it is recorded with the type of its place.
   With unknowns enabled, nothing but an unknown is made where no depth is left.
   */
  ghost predicate Derivable(env: Env, types: map<string, Type>, d: nat, e: Expr, ty: Type)
    decreases e
  {
    match e
    case UnknownOf(name, annotation) =>
      && env.enableUnknowns && !IsExtension(ty)
      && name in types && types[name] == ty && annotation == Some(AstTypeOf(ty))
    case _ =>
      && (env.enableUnknowns ==> d > 0)
      && (IsStructural(env, e, ty) || (d > 0 && (IsLeafOf(ty, e) || IsOperation(env, types, d, e, ty))))
  }

  /** An operator on arguments that can be made with one level less. */
  ghost predicate IsOperation(env: Env, types: map<string, Type>, d: nat, e: Expr, ty: Type)
    requires d > 0
    decreases e, 0
  {
    e.Node? && exists argTypes ::
      && IsProduction(env, ty, d, e.op, argTypes) && |argTypes| == |e.args|
      && forall i | 0 <= i < |e.args| :: Derivable(env, types, d - 1, e.args[i], argTypes[i])
  }

  /** The names of the unknowns in an expression, as often as they occur. */
  function UnknownsIn(e: Expr): multiset<string>
    decreases e, 1
  {
    match e
    case UnknownOf(name, _) => multiset{name}
    case Node(_, args) => UnknownsInAll(args)
    case _ => multiset{}
  }

  function UnknownsInAll(es: seq<Expr>): multiset<string>
    decreases es, 0
  {
    if es == [] then multiset{} else UnknownsInAll(es[..|es| - 1]) + UnknownsIn(es[|es| - 1])
  }

  lemma StructuralIsDerivable(env: Env, types: map<string, Type>, d: nat, e: Expr, ty: Type)
    requires IsStructural(env, e, ty) && (env.enableUnknowns ==> d > 0)
    ensures Derivable(env, types, d, e, ty)
  {
    StructuralIsNoUnknown(env, e, ty);
  }

  lemma StructuralIsNoUnknown(env: Env, e: Expr, ty: Type)
    requires IsStructural(env, e, ty)
    ensures !e.UnknownOf?
  {
  }

  lemma {:induction false} DerivableMonotone(env: Env, types: map<string, Type>, more: map<string, Type>, d: nat,
                                             e: Expr, ty: Type)
    requires Derivable(env, types, d, e, ty)
    requires forall name | name in types :: name in more && more[name] == types[name]
    ensures Derivable(env, more, d, e, ty)
    decreases e
  {
    if e.Node? && d > 0 && IsOperation(env, types, d, e, ty) {
      var argTypes :| IsProduction(env, ty, d, e.op, argTypes) && |argTypes| == |e.args|
        && forall i | 0 <= i < |e.args| :: Derivable(env, types, d - 1, e.args[i], argTypes[i]);
      forall i | 0 <= i < |e.args| ensures Derivable(env, more, d - 1, e.args[i], argTypes[i]) {
        DerivableMonotone(env, types, more, d - 1, e.args[i], argTypes[i]);
      }
      assert IsOperation(env, more, d, e, ty);
    }
  }

  lemma {:induction false} NoUnknowns(es: seq<Expr>)
    requires forall i | 0 <= i < |es| :: UnknownsIn(es[i]) == multiset{}
    ensures UnknownsInAll(es) == multiset{}
  {
    if es == [] {
    } else {
      NoUnknowns(es[..|es| - 1]);
    }
  }

  lemma {:induction false} StructuralHasNoUnknowns(env: Env, e: Expr, ty: Type)
    requires IsStructural(env, e, ty)
    ensures UnknownsIn(e) == multiset{}
    decreases e
  {
    if e.Node? {
      forall i | 0 <= i < |e.args| ensures UnknownsIn(e.args[i]) == multiset{} {
        match ty
        case TSet(element) => StructuralHasNoUnknowns(env, e.args[i], element);
        case TRecord(fields) => StructuralHasNoUnknowns(env, e.args[i], RequiredFields(fields)[i].ty);
        case _ => NoUnknownsInCall(env, e, ty);
      }
      NoUnknowns(e.args);
    }
  }

  lemma NoUnknownsInCall(env: Env, e: Expr, ty: Type)
    requires IsConstructorExpr(env, ty, e)
    ensures forall i | 0 <= i < |e.args| :: UnknownsIn(e.args[i]) == multiset{}
  {
    forall i | 0 <= i < |e.args| ensures UnknownsIn(e.args[i]) == multiset{} {
      if e.args[i].Node? {
        NoUnknowns(e.args[i].args);
      }
    }
  }

  // ---------- Sorts ----------

  /** Types with everything inside them forgotten. */
  datatype Sort = SBool | SLong | SString | SSet | SRecord | SEntity | SExtension(name: string)

  function SortOf(ty: AstType): Sort {
    match ty
    case ABool => SBool
    case ALong => SLong
    case AString => SString
    case ASet => SSet
    case ARecord => SRecord
    case AEntity(_) => SEntity
    case AExtension(name) => SExtension(name)
  }

  /** The operator can give the sort from arguments of these sorts. */
  ghost predicate OpAccepts(env: Env, op: Op, sorts: seq<Sort>, out: Sort) {
    match op
    case Eq => |sorts| == 2 && out == SBool
    case Not => sorts == [SBool] && out == SBool
    case And => sorts == [SBool, SBool] && out == SBool
    case Or => sorts == [SBool, SBool] && out == SBool
    case Less => AreOrdered(sorts) && out == SBool
    case LessEq => AreOrdered(sorts) && out == SBool
    case Greater => AreOrdered(sorts) && out == SBool
    case GreaterEq => AreOrdered(sorts) && out == SBool
    case In => (sorts == [SEntity, SEntity] || sorts == [SEntity, SSet]) && out == SBool
    case Contains => |sorts| == 2 && sorts[0] == SSet && out == SBool
    case ContainsAll => sorts == [SSet, SSet] && out == SBool
    case ContainsAny => sorts == [SSet, SSet] && out == SBool
    case IsEmpty => sorts == [SSet] && out == SBool
    case Like(_) => sorts == [SString] && out == SBool
    case Is(_) => sorts == [SEntity] && out == SBool
    case HasAttr(_) => (sorts == [SEntity] || sorts == [SRecord]) && out == SBool
    case GetAttr(attr) => (sorts == [SEntity] && IsAttributeSort(env, attr, out)) || sorts == [SRecord]
    case HasTag => sorts == [SEntity, SString] && out == SBool
    case GetTag => sorts == [SEntity, SString] && IsTagSort(env, out)
    case Ite => |sorts| == 3 && sorts[0] == SBool && sorts[1] == sorts[2] == out
    case Neg => sorts == [SLong] && out == SLong
    case Call(name) =>
      exists f :: f in env.functions && f.name == name && SortOf(AstTypeOf(f.returnTy)) == out
        && |f.parameterTypes| <= |sorts|
        && forall i | 0 <= i < |f.parameterTypes| :: sorts[i] == SortOf(AstTypeOf(f.parameterTypes[i]))
    case SetOf => out == SSet
    case RecordOf(keys) => |keys| == |sorts| && out == SRecord
    case _ => sorts == [SLong, SLong] && out == SLong
  }

  /** Some entity type declares an attribute of that name with a type of the sort. */
  ghost predicate IsAttributeSort(env: Env, attr: string, sort: Sort) {
    exists ty, name ::
      ty in env.attributesByType && SortOf(AstTypeOf(ty)) == sort && (name, attr) in env.attributesByType[ty]
  }

  /** Some entity type has tags with a type of the sort. */
  ghost predicate IsTagSort(env: Env, sort: Sort) {
    exists name :: name in env.tagTypes && SortOf(AstTypeOf(env.tagTypes[name])) == sort
  }

  predicate AreOrdered(sorts: seq<Sort>) {
    |sorts| == 2 && sorts[0] == sorts[1] && sorts[0] in {SLong, SExtension("datetime"), SExtension("duration")}
  }

  /** The expression has the sort, with every operator applied to arguments it accepts and unknowns as annotated. */
  ghost predicate HasSort(env: Env, e: Expr, sort: Sort)
    decreases e
  {
    match e
    case BoolConst(_) => sort == SBool
    case LongConst(_) => sort == SLong
    case StringConst(_) => sort == SString
    case UidConst(_) => sort == SEntity
    case Variable(v) => sort == if v.Context? then SRecord else SEntity
    case UnknownOf(_, annotation) => annotation.Some? && sort == SortOf(annotation.value)
    case Node(op, args) =>
      exists sorts :: OpAccepts(env, op, sorts, sort) && |sorts| == |args|
        && forall i | 0 <= i < |args| :: HasSort(env, args[i], sorts[i])
  }

  lemma {:induction false} FieldChoiceLength(fields: seq<Field>, keys: seq<string>, argTypes: seq<Type>)
    requires IsFieldChoice(fields, keys, argTypes)
    ensures |keys| == |argTypes|
  {
    if fields == [] {
    } else {
      if !fields[0].required && IsFieldChoice(fields[1..], keys, argTypes) {
        FieldChoiceLength(fields[1..], keys, argTypes);
      } else {
        FieldChoiceLength(fields[1..], keys[1..], argTypes[1..]);
      }
    }
  }

  function SortsOf(tys: seq<Type>): seq<Sort> {
    seq(|tys|, i requires 0 <= i < |tys| => SortOf(AstTypeOf(tys[i])))
  }

  lemma ProductionIsAccepted(env: Env, target: Type, d: nat, op: Op, argTypes: seq<Type>)
    requires IsProduction(env, target, d, op, argTypes)
    ensures OpAccepts(env, op, SortsOf(argTypes), SortOf(AstTypeOf(target)))
  {
    match op
    case RecordOf(keys) => FieldChoiceLength(target.fields, keys, argTypes);
    case GetAttr(attr) => AccessIsAccepted(env, target, d, attr, argTypes);
    case Call(name) =>
      var f :| f in env.functions && f.name == name && f.returnTy == target && IsCallOf(env, f, argTypes);
      forall i | 0 <= i < |f.parameterTypes| ensures SortsOf(argTypes)[i] == SortOf(AstTypeOf(f.parameterTypes[i])) {
        assert argTypes[i] == argTypes[..|f.parameterTypes|][i];
      }
    case _ =>
  }

  lemma AccessIsAccepted(env: Env, target: Type, d: nat, attr: string, argTypes: seq<Type>)
    requires IsProduction(env, target, d, GetAttr(attr), argTypes)
    ensures OpAccepts(env, GetAttr(attr), SortsOf(argTypes), SortOf(AstTypeOf(target)))
  {
    if argTypes[0].TEntity? {
      assert IsAttributeSort(env, attr, SortOf(AstTypeOf(target)));
    }
  }

  lemma NodeHasSort(env: Env, e: Expr, sorts: seq<Sort>, out: Sort)
    requires e.Node? && OpAccepts(env, e.op, sorts, out) && |sorts| == |e.args|
    requires forall i | 0 <= i < |e.args| :: HasSort(env, e.args[i], sorts[i])
    ensures HasSort(env, e, out)
  {
  }

  lemma CallIsAccepted(env: Env, f: ExtensionFunction)
    requires f in env.functions
    ensures OpAccepts(env, Call(f.name), SortsOf(f.parameterTypes), SortOf(AstTypeOf(f.returnTy)))
  {
  }

  lemma StringCallHasSort(env: Env, name: string, ty: Type, e: Expr)
    requires IsStringCallExpr(env, name, ty, e)
    ensures HasSort(env, e, SortOf(AstTypeOf(ty)))
  {
    CallIsAccepted(env, ExtensionFunction(name, true, [TString], ty));
    NodeHasSort(env, e, SortsOf([TString]), SortOf(AstTypeOf(ty)));
  }

  lemma OffsetHasSort(env: Env, e: Expr)
    requires IsOffsetExpr(env, e)
    ensures HasSort(env, e, SortOf(AstTypeOf(TDatetime)))
  {
    StringCallHasSort(env, "datetime", TDatetime, e.args[0]);
    StringCallHasSort(env, "duration", TDuration, e.args[1]);
    OffsetOfSorts(env, e);
  }

  lemma OffsetOfSorts(env: Env, e: Expr)
    requires ExtensionFunction("offset", true, [TDatetime, TDuration], TDatetime) in env.functions
    requires e.Node? && e.op == Call("offset") && |e.args| == 2
    requires HasSort(env, e.args[0], SortOf(AstTypeOf(TDatetime)))
      && HasSort(env, e.args[1], SortOf(AstTypeOf(TDuration)))
    ensures HasSort(env, e, SortOf(AstTypeOf(TDatetime)))
  {
    CallIsAccepted(env, ExtensionFunction("offset", true, [TDatetime, TDuration], TDatetime));
    NodeHasSort(env, e, SortsOf([TDatetime, TDuration]), SortOf(AstTypeOf(TDatetime)));
  }

  lemma ConstructorHasSort(env: Env, ty: Type, e: Expr)
    requires IsConstructorExpr(env, ty, e)
    ensures HasSort(env, e, SortOf(AstTypeOf(ty)))
  {
    match ty
    case TIpaddr => StringCallHasSort(env, "ip", ty, e);
    case TDecimal => StringCallHasSort(env, "decimal", ty, e);
    case TDuration => StringCallHasSort(env, "duration", ty, e);
    case TDatetime =>
      if IsOffsetExpr(env, e) {
        OffsetHasSort(env, e);
      } else {
        StringCallHasSort(env, "datetime", ty, e);
      }
  }

  lemma {:induction false} StructuralHasSort(env: Env, e: Expr, ty: Type)
    requires IsStructural(env, e, ty)
    ensures HasSort(env, e, SortOf(AstTypeOf(ty)))
    decreases e, 1
  {
    match ty
    case TSet(_) => StructuralSetHasSort(env, e, ty);
    case TRecord(_) =>
      if e.Node? {
        StructuralRecordHasSort(env, e, ty);
      }
    case TIpaddr | TDecimal | TDatetime | TDuration => ConstructorHasSort(env, ty, e);
    case _ =>
  }

  lemma {:induction false} StructuralSetHasSort(env: Env, e: Expr, ty: Type)
    requires ty.TSet? && IsStructural(env, e, ty)
    ensures HasSort(env, e, SSet)
    decreases e, 0
  {
    var sorts := seq(|e.args|, i requires 0 <= i < |e.args| => SortOf(AstTypeOf(ty.element)));
    forall i | 0 <= i < |e.args| ensures HasSort(env, e.args[i], sorts[i]) {
      StructuralHasSort(env, e.args[i], ty.element);
    }
    NodeHasSort(env, e, sorts, SSet);
  }

  lemma {:induction false} StructuralRecordHasSort(env: Env, e: Expr, ty: Type)
    requires ty.TRecord? && e.Node? && IsStructural(env, e, ty)
    ensures HasSort(env, e, SRecord)
    decreases e, 0
  {
    var required := RequiredFields(ty.fields);
    var sorts := seq(|e.args|, i requires 0 <= i < |e.args| => SortOf(AstTypeOf(required[i].ty)));
    forall i | 0 <= i < |e.args| ensures HasSort(env, e.args[i], sorts[i]) {
      StructuralHasSort(env, e.args[i], required[i].ty);
    }
    NodeHasSort(env, e, sorts, SRecord);
  }

  /** What is made for a type has its sort: no operator meets an argument of the wrong sort. */
  lemma {:induction false} DerivableHasSort(env: Env, types: map<string, Type>, d: nat, e: Expr, ty: Type)
    requires Derivable(env, types, d, e, ty)
    ensures HasSort(env, e, SortOf(AstTypeOf(ty)))
    decreases e
  {
    if e.UnknownOf? {
    } else if IsStructural(env, e, ty) {
      StructuralHasSort(env, e, ty);
    } else if e.Node? {
      var argTypes :| IsProduction(env, ty, d, e.op, argTypes) && |argTypes| == |e.args|
        && forall i | 0 <= i < |e.args| :: Derivable(env, types, d - 1, e.args[i], argTypes[i]);
      ProductionIsAccepted(env, ty, d, e.op, argTypes);
      forall i | 0 <= i < |e.args| ensures HasSort(env, e.args[i], SortsOf(argTypes)[i]) {
        DerivableHasSort(env, types, d - 1, e.args[i], argTypes[i]);
      }
    }
  }

  // ---------- Height ----------

  /** How deeply operators are nested. */
  function ExprHeight(e: Expr): nat
    decreases e, 1
  {
    match e
    case Node(_, args) => 1 + ExprsHeight(args)
    case _ => 0
  }

  function ExprsHeight(es: seq<Expr>): nat
    decreases es, 0
  {
    if es == [] then 0 else Max(ExprsHeight(es[..|es| - 1]), ExprHeight(es[|es| - 1]))
  }

  lemma {:induction false} ExprsHeightBound(es: seq<Expr>, b: nat)
    requires forall i | 0 <= i < |es| :: ExprHeight(es[i]) <= b
    ensures ExprsHeight(es) <= b
  {
    if es == [] {
    } else {
      ExprsHeightBound(es[..|es| - 1], b);
    }
  }

  lemma {:induction false} ExprsHeightAtLeast(es: seq<Expr>, i: nat)
    requires i < |es|
    ensures ExprsHeight(es) >= ExprHeight(es[i])
  {
    if i == |es| - 1 {
    } else {
      ExprsHeightAtLeast(es[..|es| - 1], i);
    }
  }
}
