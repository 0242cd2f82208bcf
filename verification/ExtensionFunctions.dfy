/** The table of extension functions and its indexes by return type. */
module ExtensionFunctions {
  import opened SchemaTypes

  datatype ExtensionFunction = ExtensionFunction(
    name: string, isConstructor: bool, parameterTypes: seq<Type>, returnTy: Type)

  const ALL: seq<ExtensionFunction> := [
    ExtensionFunction("ip", true, [TString], TIpaddr),
    ExtensionFunction("isIpv4", false, [TIpaddr], TBool),
    ExtensionFunction("isIpv6", false, [TIpaddr], TBool),
    ExtensionFunction("isLoopback", false, [TIpaddr], TBool),
    ExtensionFunction("isMulticast", false, [TIpaddr], TBool),
    ExtensionFunction("isInRange", false, [TIpaddr, TIpaddr], TBool),
    ExtensionFunction("decimal", true, [TString], TDecimal),
    ExtensionFunction("lessThan", false, [TDecimal, TDecimal], TBool),
    ExtensionFunction("lessThanOrEqual", false, [TDecimal, TDecimal], TBool),
    ExtensionFunction("greaterThan", false, [TDecimal, TDecimal], TBool),
    ExtensionFunction("greaterThanOrEqual", false, [TDecimal, TDecimal], TBool),
    ExtensionFunction("datetime", true, [TString], TDatetime),
    ExtensionFunction("offset", true, [TDatetime, TDuration], TDatetime),
    ExtensionFunction("durationSince", false, [TDatetime, TDatetime], TDuration),
    ExtensionFunction("toDate", false, [TDatetime], TDatetime),
    ExtensionFunction("toTime", false, [TDatetime], TDuration),
    ExtensionFunction("duration", true, [TString], TDuration),
    ExtensionFunction("toMilliseconds", false, [TDuration], TLong),
    ExtensionFunction("toSeconds", false, [TDuration], TLong),
    ExtensionFunction("toMinutes", false, [TDuration], TLong),
    ExtensionFunction("toHours", false, [TDuration], TLong),
    ExtensionFunction("toDays", false, [TDuration], TLong)]

  /** The functions that return a type, in table order. */
  function Returning(funcs: seq<ExtensionFunction>, ty: Type): (out: seq<ExtensionFunction>)
    ensures forall f :: f in out <==> f in funcs && f.returnTy == ty
  {
    if funcs == [] then []
    else Returning(funcs[..|funcs| - 1], ty)
         + if funcs[|funcs| - 1].returnTy == ty then [funcs[|funcs| - 1]] else []
  }

  function Constructors(funcs: seq<ExtensionFunction>): (out: seq<ExtensionFunction>)
    ensures forall f :: f in out <==> f in funcs && f.isConstructor
  {
    if funcs == [] then []
    else (if funcs[0].isConstructor then [funcs[0]] else []) + Constructors(funcs[1..])
  }

  type Index = map<Type, seq<ExtensionFunction>>

  /** The index lists, for every return type that occurs, the functions with it; it is empty without type matching. */
  predicate IsIndex(funcs: seq<ExtensionFunction>, matchTypes: bool, index: Index) {
    if !matchTypes then index == map[]
    else
      && (forall f | f in funcs :: f.returnTy in index)
      && forall ty | ty in index :: index[ty] == Returning(funcs, ty) != []
  }

  /** The index with one more function. */
  function Indexed(index: Index, f: ExtensionFunction): Index {
    index[f.returnTy := (if f.returnTy in index then index[f.returnTy] else []) + [f]]
  }

  lemma IndexedIsIndex(funcs: seq<ExtensionFunction>, index: Index, f: ExtensionFunction)
    requires IsIndex(funcs, true, index)
    ensures IsIndex(funcs + [f], true, Indexed(index, f))
  {
    var more := funcs + [f];
    assert more[..|more| - 1] == funcs;
    if f.returnTy !in index {
      assert Returning(funcs, f.returnTy) == [] by {
        if Returning(funcs, f.returnTy) != [] {
          assert Returning(funcs, f.returnTy)[0] in Returning(funcs, f.returnTy);
        }
      }
    }
  }

  method IndexByReturnType(funcs: seq<ExtensionFunction>, matchTypes: bool) returns (index: Index)
    ensures IsIndex(funcs, matchTypes, index)
  {
    index := map[];
    if matchTypes {
      for i := 0 to |funcs|
        invariant IsIndex(funcs[..i], true, index)
      {
        IndexedIsIndex(funcs[..i], index, funcs[i]);
        assert funcs[..i + 1] == funcs[..i] + [funcs[i]];
        var ty := funcs[i].returnTy;
        if ty !in index {
          index := index[ty := []];
        }
        index := index[ty := index[ty] + [funcs[i]]];
      }
      assert funcs[..|funcs|] == funcs;
    }
  }

  predicate IsExtension(ty: Type) {
    ty.TIpaddr? || ty.TDecimal? || ty.TDatetime? || ty.TDuration?
  }

  /** A constructor of an extension type: `offset` for datetimes, or one that takes a string. */
  predicate IsConstructorOf(f: ExtensionFunction, ty: Type) {
    && f.isConstructor && f.returnTy == ty
    && match f.name
       case "offset" => ty == TDatetime && f.parameterTypes == [TDatetime, TDuration]
       case "ip" => ty == TIpaddr && f.parameterTypes == [TString]
       case "decimal" => ty == TDecimal && f.parameterTypes == [TString]
       case "datetime" => ty == TDatetime && f.parameterTypes == [TString]
       case "duration" => ty == TDuration && f.parameterTypes == [TString]
       case _ => false
  }

  lemma ConstructorsOfTable(f: ExtensionFunction)
    requires f in ALL && f.isConstructor
    ensures IsConstructorOf(f, f.returnTy)
  {
  }

  /** A constructor for each extension type is in the table. */
  lemma TableHasConstructor(ty: Type) returns (f: ExtensionFunction)
    requires IsExtension(ty)
    ensures f in ALL && f.isConstructor && f.returnTy == ty
  {
    var i := match ty case TIpaddr => 0 case TDecimal => 6 case TDatetime => 11 case _ => 16;
    f := ALL[i];
  }

  /** The index finds constructors for exactly the extension types. */
  ghost predicate IsConstructorIndex(index: Index) {
    && (forall ty :: IsExtension(ty) <==> ty in index)
    && forall ty | ty in index :: index[ty] != [] && forall f | f in index[ty] :: IsConstructorOf(f, ty)
  }

  /** What the table is indexed to: with type matching the constructors by type, without it nothing. */
  ghost predicate IsBuiltIndex(index: Index) {
    index == map[] || IsConstructorIndex(index)
  }

  lemma IndexedConstructors(constructors: seq<ExtensionFunction>, index: Index)
    requires IsIndex(constructors, true, index)
    requires forall f | f in constructors :: IsConstructorOf(f, f.returnTy)
    requires forall ty | IsExtension(ty) :: exists f :: f in constructors && f.returnTy == ty
    ensures IsConstructorIndex(index)
  {
    forall ty | ty in index ensures IsExtension(ty) {
      var f := index[ty][0];
      assert f in index[ty] && IsConstructorOf(f, ty);
    }
  }

  /** The index built from the table. */
  method ConstructorsByType(matchTypes: bool) returns (index: Index)
    ensures if matchTypes then IsConstructorIndex(index) else index == map[]
  {
    var constructors := Constructors(ALL);
    index := IndexByReturnType(constructors, matchTypes);
    if !matchTypes {
      return;
    }
    forall f | f in constructors ensures IsConstructorOf(f, f.returnTy) {
      ConstructorsOfTable(f);
    }
    forall ty | IsExtension(ty) ensures exists f :: f in constructors && f.returnTy == ty {
      var f := TableHasConstructor(ty);
    }
    IndexedConstructors(constructors, index);
  }

  /** The constructors that attribute values use are in the table. */
  predicate OffersConstructors(table: seq<ExtensionFunction>) {
    && ExtensionFunction("ip", true, [TString], TIpaddr) in table
    && ExtensionFunction("decimal", true, [TString], TDecimal) in table
    && ExtensionFunction("datetime", true, [TString], TDatetime) in table
    && ExtensionFunction("duration", true, [TString], TDuration) in table
    && ExtensionFunction("offset", true, [TDatetime, TDuration], TDatetime) in table
  }

  lemma TableOffersConstructors()
    ensures OffersConstructors(ALL)
  {
    assert ALL[0] in ALL && ALL[6] in ALL && ALL[11] in ALL && ALL[12] in ALL && ALL[16] in ALL;
  }
}
