/** Generating attribute values of a given type under a depth bound. */
module AttrValues {
  import opened Wrappers
  import opened Integers
  import opened SchemaTypes
  import opened ExtensionFunctions

  datatype EntityUid = EntityUid(ty: Name, eid: string)

  datatype AttrValue =
    | BoolLit(b: bool)
    | IntLit(i: int)
    | StringLit(s: string)
    | UidLit(uid: EntityUid)
    | ExtFuncCall(name: string, args: seq<AttrValue>)
    | SetLit(elements: seq<AttrValue>)
    | RecordLit(fields: seq<AttrField>)

  datatype AttrField = AttrField(name: string, value: AttrValue)

  datatype Error = TooDeep | OtherError

  // ---------- What it means to be of a type ----------

  /** Field names of a record are different, at every level. */
  predicate WellFormed(ty: Type)
    decreases ty
  {
    match ty
    case TSet(element) => WellFormed(element)
    case TRecord(fields) =>
      && (forall i, j | 0 <= i < j < |fields| :: fields[i].name != fields[j].name)
      && forall i | 0 <= i < |fields| :: WellFormed(fields[i].ty)
    case _ => true
  }

  /**
   The value is of the type at every level: a record has the required fields and only declared ones,
   and an extension value is a constructor call that agrees with the function table.
   */
  predicate Conforms(table: seq<ExtensionFunction>, v: AttrValue, ty: Type)
    decreases v
  {
    match ty
    case TBool => v.BoolLit?
    case TLong => v.IntLit? && IsI64(v.i)
    case TString => v.StringLit?
    case TEntity(name) => v.UidLit? && v.uid.ty == name
    case TSet(element) => v.SetLit? && forall i | 0 <= i < |v.elements| :: Conforms(table, v.elements[i], element)
    case TRecord(fields) =>
      && v.RecordLit?
      && (forall i, j | 0 <= i < j < |v.fields| :: v.fields[i].name != v.fields[j].name)
      && (forall i | 0 <= i < |v.fields| ::
            exists j :: 0 <= j < |fields| && fields[j].name == v.fields[i].name
              && Conforms(table, v.fields[i].value, fields[j].ty))
      && forall j | 0 <= j < |fields| && fields[j].required ::
           exists i :: 0 <= i < |v.fields| && v.fields[i].name == fields[j].name
    case _ =>
      && v.ExtFuncCall?
      && exists f :: f in table && f.isConstructor && f.name == v.name && f.returnTy == ty
           && |v.args| == |f.parameterTypes|
           && forall i | 0 <= i < |v.args| :: Conforms(table, v.args[i], f.parameterTypes[i])
  }

  /** How deeply literals are nested; a literal, or an empty set or record, has height 0. */
  function Height(v: AttrValue): nat
    decreases v, 1
  {
    match v
    case ExtFuncCall(_, args) => HeightAbove(args)
    case SetLit(elements) => HeightAbove(elements)
    case RecordLit(fields) => HeightAboveFields(fields)
    case _ => 0
  }

  function HeightAbove(vs: seq<AttrValue>): (h: nat)
    decreases vs, 0
  {
    if vs == [] then 0 else Max(1 + Height(vs[0]), HeightAbove(vs[1..]))
  }

  function HeightAboveFields(fields: seq<AttrField>): (h: nat)
    decreases fields, 0
  {
    if fields == [] then 0 else Max(1 + Height(fields[0].value), HeightAboveFields(fields[1..]))
  }

  function Max(a: nat, b: nat): nat {
    if a < b then b else a
  }

  /** Whether `offset` is called anywhere. */
  predicate CallsOffset(v: AttrValue)
    decreases v
  {
    match v
    case ExtFuncCall(name, args) => name == "offset" || exists i :: 0 <= i < |args| && CallsOffset(args[i])
    case SetLit(elements) => exists i :: 0 <= i < |elements| && CallsOffset(elements[i])
    case RecordLit(fields) => exists i :: 0 <= i < |fields| && CallsOffset(fields[i].value)
    case _ => false
  }

  // ---------- What the generator can return ----------

  predicate IsStringCall(name: string, v: AttrValue) {
    v.ExtFuncCall? && v.name == name && |v.args| == 1 && v.args[0].StringLit?
  }

  /** The constructor calls made for an extension type. */
  predicate IsConstructorCall(ty: Type, v: AttrValue) {
    match ty
    case TIpaddr => IsStringCall("ip", v)
    case TDecimal => IsStringCall("decimal", v)
    case TDuration => IsStringCall("duration", v)
    case TDatetime =>
      || IsStringCall("datetime", v)
      || (v.ExtFuncCall? && v.name == "offset" && |v.args| == 2
          && IsStringCall("datetime", v.args[0]) && IsStringCall("duration", v.args[1]))
    case _ => false
  }

  /** `r` is the result of some choice of draws at depth `d`; errors other than TooDeep can come at any time. */
  ghost predicate CanReturn(ty: Type, d: nat, width: nat, r: Result<AttrValue, Error>)
    decreases ty, 1
  {
    r == Err(OtherError) ||
    match ty
    case TBool => r.Ok? && r.value.BoolLit?
    case TLong => r.Ok? && r.value.IntLit? && IsI64(r.value.i)
    case TString => r.Ok? && r.value.StringLit?
    case TEntity(name) => r.Ok? && r.value.UidLit? && r.value.uid.ty == name
    case TSet(element) =>
      if d == 0 then r == Ok(SetLit([]))
      else
        || (r.Ok? && r.value.SetLit? && |r.value.elements| <= width
            && forall i | 0 <= i < |r.value.elements| :: CanReturn(element, d - 1, width, Ok(r.value.elements[i])))
        || (r == Err(TooDeep) && width > 0 && CanReturn(element, d - 1, width, Err(TooDeep)))
    case TRecord(fields) =>
      if d == 0 then r == Ok(RecordLit([]))
      else
        || (r.Ok? && r.value.RecordLit? && ValuesOf(fields, |fields|, d - 1, width, r.value.fields))
        || (r == Err(TooDeep) && FieldTooDeep(fields, d - 1, width))
    case _ =>
      if d == 0 then r == Err(TooDeep) else r.Ok? && IsConstructorCall(ty, r.value)
  }

  /** Values for the first `n` fields in order, optional ones possibly left out. */
  ghost predicate ValuesOf(fields: seq<Field>, n: nat, d: nat, width: nat, values: seq<AttrField>)
    requires n <= |fields|
    decreases fields, 0, n
  {
    if n == 0 then values == []
    else
      var f := fields[n - 1];
      || (!f.required && ValuesOf(fields, n - 1, d, width, values))
      || (values != [] && values[|values| - 1].name == f.name
          && CanReturn(f.ty, d, width, Ok(values[|values| - 1].value))
          && ValuesOf(fields, n - 1, d, width, values[..|values| - 1]))
  }

  /** A field is too deep after the ones before it have been given values. */
  ghost predicate FieldTooDeep(fields: seq<Field>, d: nat, width: nat)
    decreases fields, 1
  {
    exists n: nat, values {:trigger ValuesOf(fields, n, d, width, values)} ::
      n < |fields| && ValuesOf(fields, n, d, width, values) && CanReturn(fields[n].ty, d, width, Err(TooDeep))
  }

  /** Whether a draw leads nowhere: stands for the errors of the input and of empty choices. */
  method DrawFails() returns (b: bool) {
    b := *;
  }

  /** A call of one of the constructors indexed under the type. */
  method ArbitraryExtConstructorCall(index: Index, ty: Type) returns (r: Result<AttrValue, Error>)
    requires IsBuiltIndex(index) && IsExtension(ty)
    ensures r.Ok? ==> IsConstructorCall(ty, r.value) && ty in index
    ensures r.Err? ==> r.error == OtherError
  {
    var fails := DrawFails();
    if fails || ty !in index {
      return Err(OtherError);
    }
    var i :| 0 <= i < |index[ty]|;
    var f := index[ty][i];
    assert IsConstructorOf(f, ty);
    var s: string := *;
    if f.name == "offset" {
      var s2: string := *;
      r := Ok(ExtFuncCall("offset", [ExtFuncCall("datetime", [StringLit(s)]),
                                     ExtFuncCall("duration", [StringLit(s2)])]));
    } else {
      r := Ok(ExtFuncCall(f.name, [StringLit(s)]));
    }
  }

  method GenerateAttrValueForType(index: Index, ty: Type, d: nat, width: nat) returns (r: Result<AttrValue, Error>)
    requires IsBuiltIndex(index)
    ensures CanReturn(ty, d, width, r)
    decreases ty, 0
  {
    var fails := DrawFails();
    if fails {
      return Err(OtherError);
    }
    match ty
    case TBool =>
      var b: bool := *;
      r := Ok(BoolLit(b));
    case TLong =>
      var i :| IsI64(i);
      r := Ok(IntLit(i));
    case TString =>
      var s: string := *;
      r := Ok(StringLit(s));
    case TEntity(name) =>
      var eid: string := *;
      r := Ok(UidLit(EntityUid(name, eid)));
    case TSet(element) =>
      if d == 0 {
        return Ok(SetLit([]));
      }
      var elements := GenerateElements(index, element, d - 1, width);
      match elements {
        case Ok(values) => r := Ok(SetLit(values));
        case Err(TooDeep) => r := Err(TooDeep);
        case Err(OtherError) => r := Err(OtherError);
      }
    case TRecord(fields) =>
      if d == 0 {
        return Ok(RecordLit([]));
      }
      var values := GenerateFields(index, fields, d - 1, width);
      match values {
        case Ok(fs) => r := Ok(RecordLit(fs));
        case Err(TooDeep) => r := Err(TooDeep);
        case Err(OtherError) => r := Err(OtherError);
      }
    case _ =>
      if d == 0 {
        return Err(TooDeep);
      }
      r := ArbitraryExtConstructorCall(index, ty);
  }

  /** Up to `width` elements. */
  method GenerateElements(index: Index, element: Type, d: nat, width: nat) returns (r: Result<seq<AttrValue>, Error>)
    requires IsBuiltIndex(index)
    ensures r.Ok? ==> |r.value| <= width && forall i | 0 <= i < |r.value| ::
      CanReturn(element, d, width, Ok(r.value[i]))
    ensures r == Err(TooDeep) ==> width > 0 && CanReturn(element, d, width, Err(TooDeep))
    decreases element, 1
  {
    var n :| 0 <= n <= width;
    var elements: seq<AttrValue> := [];
    for k := 0 to n
      invariant |elements| == k
      invariant forall i | 0 <= i < k :: CanReturn(element, d, width, Ok(elements[i]))
    {
      var e := GenerateAttrValueForType(index, element, d, width);
      if e.Err? {
        return Err(e.error);
      }
      elements := elements + [e.value];
    }
    r := Ok(elements);
  }

  /** A value for every required field, and for every other one if a coin says so. */
  method GenerateFields(index: Index, fields: seq<Field>, d: nat, width: nat) returns (r: Result<seq<AttrField>, Error>)
    requires IsBuiltIndex(index)
    ensures r.Ok? ==> ValuesOf(fields, |fields|, d, width, r.value)
    ensures r == Err(TooDeep) ==> FieldTooDeep(fields, d, width)
    decreases fields, 0
  {
    var values: seq<AttrField> := [];
    for n := 0 to |fields|
      invariant ValuesOf(fields, n, d, width, values)
    {
      var coin: bool := *;
      if fields[n].required || coin {
        var v := GenerateAttrValueForType(index, fields[n].ty, d, width);
        if v.Err? {
          return Err(v.error);
        }
        assert (values + [AttrField(fields[n].name, v.value)])[..|values|] == values;
        values := values + [AttrField(fields[n].name, v.value)];
      }
    }
    r := Ok(values);
  }
}
