/** Generating an arbitrary expression without regard to types, under a depth bound. */
module UntypedExprGenerator {
  import opened Wrappers
  import opened Integers
  import opened AttrValues
  import opened Expressions

  /** An attribute access to a string literal does not survive printing and parsing. */
  predicate NoStringBase(e: Expr)
    decreases e
  {
    e.Node? ==>
      && (e.op.GetAttr? ==> |e.args| == 1 && !e.args[0].StringConst?)
      && forall i | 0 <= i < |e.args| :: NoStringBase(e.args[i])
  }

  predicate IsWrapped(e: Expr) {
    e.Node? && e.op.GetAttr? && |e.args| == 1 && IsWrapper(e.args[0])
  }

  /** Somewhere a string literal was put into a record so that it can be accessed. */
  predicate HasWrapped(e: Expr)
    decreases e
  {
    IsWrapped(e) || (e.Node? && exists i :: 0 <= i < |e.args| && HasWrapped(e.args[i]))
  }

  predicate NoUnknown(e: Expr)
    decreases e
  {
    !e.UnknownOf? && (e.Node? ==> forall i | 0 <= i < |e.args| :: NoUnknown(e.args[i]))
  }

  /** What an expression generated at depth `d` is like: one level too high only through a wrapped literal. */
  predicate Bounded(e: Expr, d: nat) {
    && NoStringBase(e) && NoUnknown(e)
    && ExprHeight(e) <= if d > 0 && HasWrapped(e) then d + 1 else d
  }

  predicate IsLiteralOrVar(e: Expr) {
    !e.Node? && !e.UnknownOf? && (e.LongConst? ==> IsI64(e.i))
  }

  /** A string literal in a record under itself as the key. */
  predicate IsWrapper(e: Expr) {
    e.Node? && |e.args| == 1 && e.args[0].StringConst? && e.op == RecordOf([e.args[0].s])
  }

  /** The number of generated arguments of an operator. */
  predicate HasArity(env: Env, op: Op, n: nat) {
    match op
    case Ite => n == 3
    case Not => n == 1
    case Neg => n == 1
    case IsEmpty => n == 1
    case Like(_) => n == 1 && env.enableLike
    case Is(_) => n == 1
    case HasAttr(_) => n == 1
    case GetAttr(_) => n == 1
    case GetTag => false
    case SetOf => n <= env.maxWidth
    case RecordOf(keys) => n == |keys| <= env.maxWidth && forall i, j | 0 <= i < j < n :: keys[i] != keys[j]
    case Call(name) =>
      || (exists f :: f in env.functions && f.name == name && n == |f.parameterTypes|)
      || (env.enableArbitraryFuncCall && (n <= 4 || exists f :: f in env.functions && n == |f.parameterTypes|))
    case _ => n == 2
  }

  /** Arguments that the operator accepts. */
  function SomeSorts(op: Op): seq<Sort> {
    match op
    case Not => [SBool]
    case And => [SBool, SBool]
    case Or => [SBool, SBool]
    case In => [SEntity, SEntity]
    case Contains => [SSet, SLong]
    case ContainsAll => [SSet, SSet]
    case ContainsAny => [SSet, SSet]
    case IsEmpty => [SSet]
    case Like(_) => [SString]
    case Is(_) => [SEntity]
    case HasAttr(_) => [SEntity]
    case GetAttr(_) => [SRecord]
    case HasTag => [SEntity, SString]
    case Ite => [SBool, SLong, SLong]
    case Neg => [SLong]
    case _ => [SLong, SLong]
  }

  /** Operators of a fixed kind get as many arguments as there are accepted sorts. */
  lemma ArityIsAccepted(env: Env, op: Op, n: nat)
    requires !op.GetTag? && !op.Call? && !op.SetOf? && !op.RecordOf?
    ensures HasArity(env, op, n) <==>
              && (op.Like? ==> env.enableLike)
              && exists sorts, out :: |sorts| == n && OpAccepts(env, op, sorts, out)
  {
    var out := if op.Ite? || op.Neg? || op.Add? || op.Sub? || op.Mul? then SLong else SBool;
    assert OpAccepts(env, op, SomeSorts(op), out);
  }

  /** A call gets as many arguments as a function of that name has parameters, unless calls may be arbitrary. */
  lemma CallArityIsAccepted(env: Env, name: string, n: nat)
    requires !env.enableArbitraryFuncCall
    ensures HasArity(env, Call(name), n) <==>
              exists f :: f in env.functions && f.name == name
                && OpAccepts(env, Call(name), SortsOf(f.parameterTypes), SortOf(AstTypeOf(f.returnTy)))
                && |f.parameterTypes| == n
  {
    forall f | f in env.functions && f.name == name
      ensures OpAccepts(env, Call(name), SortsOf(f.parameterTypes), SortOf(AstTypeOf(f.returnTy)))
    {
      CallIsAccepted(env, f);
    }
  }

  /** What some choice of draws gives at depth `d`. */
  ghost predicate CanGenerate(env: Env, d: nat, e: Expr)
    decreases d
  {
    || IsLiteralOrVar(e)
    || (d > 0 && e.Node? && HasArity(env, e.op, |e.args|)
        && if e.op.GetAttr? then
             IsWrapper(e.args[0]) || (!e.args[0].StringConst? && CanGenerate(env, d - 1, e.args[0]))
           else forall i | 0 <= i < |e.args| :: CanGenerate(env, d - 1, e.args[i]))
  }

  /** Every outcome keeps the bounds. */
  lemma {:induction false} GeneratedIsBounded(env: Env, d: nat, e: Expr)
    requires CanGenerate(env, d, e)
    ensures Bounded(e, d)
    decreases d
  {
    if e.Node? {
      if e.op.GetAttr? && IsWrapper(e.args[0]) {
        var s := e.args[0].args[0].s;
        assert e.args == [e.args[0]] && e.args[0].args == [StringConst(s)];
        WrappedIsBounded(e.op.attr, s, d);
      } else {
        forall i | 0 <= i < |e.args| ensures Bounded(e.args[i], d - 1) {
          GeneratedIsBounded(env, d - 1, e.args[i]);
        }
        NodeIsBounded(e.op, e.args, d);
      }
    }
  }

  /** An access to a wrapped literal under `n` negations. */
  function NegatedAccess(attr: string, s: string, n: nat): Expr {
    if n == 0 then AccessAttr(StringConst(s), attr) else Node(Not, [NegatedAccess(attr, s, n - 1)])
  }

  /** It can be generated at depth `n + 1`, and its height is `n + 2`. */
  lemma {:induction false} NegatedAccessExceeds(env: Env, attr: string, s: string, n: nat)
    ensures CanGenerate(env, n + 1, NegatedAccess(attr, s, n))
    ensures ExprHeight(NegatedAccess(attr, s, n)) == n + 2
  {
    if n == 0 {
      WrappedHeight(attr, s);
    } else {
      var inner := NegatedAccess(attr, s, n - 1);
      NegatedAccessExceeds(env, attr, s, n - 1);
      OneArgHeight(Not, inner);
      assert HasArity(env, Not, 1);
    }
  }

  lemma OneArgHeight(op: Op, e: Expr)
    ensures ExprHeight(Node(op, [e])) == 1 + ExprHeight(e)
  {
    assert ExprsHeight([e]) == Max(ExprsHeight([e][..0]), ExprHeight(e));
  }

  lemma WrappedHeight(attr: string, s: string)
    ensures ExprHeight(AccessAttr(StringConst(s), attr)) == 2
  {
    var inner := Node(RecordOf([s]), [StringConst(s)]);
    OneArgHeight(RecordOf([s]), StringConst(s));
    OneArgHeight(GetAttr(attr), inner);
  }

  /** The documented bound on the height holds only where there is no depth at all. */
  lemma DepthIsHeightIff(env: Env, d: nat)
    ensures (forall e | CanGenerate(env, d, e) :: ExprHeight(e) <= d) <==> d == 0
  {
    if d == 0 {
      forall e | CanGenerate(env, d, e) ensures ExprHeight(e) <= d {
        assert !e.Node?;
      }
    } else {
      NegatedAccessExceeds(env, "", "", d - 1);
    }
  }

  /** An operator other than an attribute access on a string literal adds one level. */
  lemma NodeIsBounded(op: Op, args: seq<Expr>, d: nat)
    requires d > 0 && forall i | 0 <= i < |args| :: Bounded(args[i], d - 1)
    requires op.GetAttr? ==> |args| == 1 && !args[0].StringConst?
    ensures Bounded(Node(op, args), d)
  {
    var e := Node(op, args);
    var b := if HasWrapped(e) then d else d - 1;
    forall i | 0 <= i < |args| ensures ExprHeight(args[i]) <= b {
      assert Bounded(args[i], d - 1);
      assert HasWrapped(args[i]) ==> HasWrapped(e.args[i]);
    }
    ExprsHeightBound(args, b);
  }

  /** Accessing a string literal goes through a record with it and takes two levels. */
  lemma WrappedIsBounded(attr: string, s: string, d: nat)
    requires d > 0
    ensures Bounded(Node(GetAttr(attr), [Node(RecordOf([s]), [StringConst(s)])]), d)
    ensures ExprHeight(Node(GetAttr(attr), [Node(RecordOf([s]), [StringConst(s)])])) == 2
  {
    var e := Node(GetAttr(attr), [Node(RecordOf([s]), [StringConst(s)])]);
    WrappedHeight(attr, s);
    assert e == AccessAttr(StringConst(s), attr);
    assert IsWrapped(e);
  }

  method GenerateLiteralOrVar() returns (e: Expr)
    ensures IsLiteralOrVar(e)
  {
    var any: Expr := *;
    e := if IsLiteralOrVar(any) then any else BoolConst(true);
  }

  method GenerateExpr(env: Env, d: nat) returns (r: Result<Expr, Error>)
    ensures r.Ok? ==> CanGenerate(env, d, r.value) && Bounded(r.value, d)
    decreases d, 0
  {
    var leaf: bool := *;
    if d == 0 || leaf {
      var e := GenerateLiteralOrVar();
      GeneratedIsBounded(env, d, e);
      return Ok(e);
    }
    var op: Op, n: nat := *, *;
    if !HasArity(env, op, n) {
      return Err(OtherError);
    }
    var args := GenerateExprs(env, n, d - 1);
    if args.Err? {
      return Err(args.error);
    }
    if op.GetAttr? {
      r := Ok(AccessAttr(args.value[0], op.attr));
    } else {
      var literalTag: bool := *;
      var tag: string := *;
      var used := if op.HasTag? && literalTag then [args.value[0], StringConst(tag)] else args.value;
      r := Ok(Node(op, used));
    }
    GeneratedIsBounded(env, d, r.value);
  }

  /** The access itself, with a string literal put into a record first. */
  function AccessAttr(base: Expr, attr: string): Expr {
    match base
    case StringConst(s) => Node(GetAttr(attr), [Node(RecordOf([s]), [base])])
    case _ => Node(GetAttr(attr), [base])
  }

  method GenerateExprs(env: Env, n: nat, d: nat) returns (r: Result<seq<Expr>, Error>)
    ensures r.Ok? ==> |r.value| == n && forall i | 0 <= i < n :: CanGenerate(env, d, r.value[i])
    decreases d, 1
  {
    var es: seq<Expr> := [];
    for k := 0 to n
      invariant |es| == k && forall i | 0 <= i < k :: CanGenerate(env, d, es[i])
    {
      var e := GenerateExpr(env, d);
      if e.Err? {
        return Err(e.error);
      }
      es := es + [e.value];
    }
    r := Ok(es);
  }
}
