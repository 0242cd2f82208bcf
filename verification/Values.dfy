/** Values as they are once a literal is evaluated: equal elements of a set are one, records have no order. */
module Values {
  import opened Wrappers
  import opened Integers
  import opened SchemaTypes
  import opened ExtensionFunctions
  import opened AttrValues
  import opened AttrValueProperties

  datatype Value =
    | VBool(b: bool)
    | VLong(i: int)
    | VString(s: string)
    | VEntity(uid: EntityUid)
    | VExtension(name: string, args: seq<Value>)
    | VSet(elements: set<Value>)
    | VRecord(fields: map<string, Value>)

  function ValueOf(v: AttrValue): Value
    decreases v, 1
  {
    match v
    case BoolLit(b) => VBool(b)
    case IntLit(i) => VLong(i)
    case StringLit(s) => VString(s)
    case UidLit(uid) => VEntity(uid)
    case ExtFuncCall(name, args) => VExtension(name, seq(|args|, i requires 0 <= i < |args| => ValueOf(args[i])))
    case SetLit(elements) => VSet(set i | 0 <= i < |elements| :: ValueOf(elements[i]))
    case RecordLit(fields) => VRecord(FieldValues(fields))
  }

  /** The values under their names; of fields with the same name the last one stays. */
  function FieldValues(fields: seq<AttrField>): map<string, Value>
    decreases fields, 0
  {
    if fields == [] then map[]
    else
      var last := fields[|fields| - 1];
      FieldValues(fields[..|fields| - 1])[last.name := ValueOf(last.value)]
  }

  // ---------- What it means to be a value of a type ----------

  /**
   The value is of the type at every level, whatever literal it may come from.  A record has only declared
   keys; a complete one has all required keys.
   */
  predicate IsValueOf(table: seq<ExtensionFunction>, ty: Type, value: Value, complete: bool)
    decreases value
  {
    match ty
    case TBool => value.VBool?
    case TLong => value.VLong? && IsI64(value.i)
    case TString => value.VString?
    case TEntity(name) => value.VEntity? && value.uid.ty == name
    case TSet(element) => value.VSet? && forall x | x in value.elements :: IsValueOf(table, element, x, complete)
    case TRecord(fields) =>
      && value.VRecord?
      && (forall name | name in value.fields ::
            exists j :: 0 <= j < |fields| && fields[j].name == name
              && IsValueOf(table, fields[j].ty, value.fields[name], complete))
      && (complete ==> forall j | 0 <= j < |fields| && fields[j].required :: fields[j].name in value.fields)
    case _ =>
      && value.VExtension?
      && exists f :: f in table && f.isConstructor && f.name == value.name && f.returnTy == ty
           && |value.args| == |f.parameterTypes|
           && forall i | 0 <= i < |value.args| :: IsValueOf(table, f.parameterTypes[i], value.args[i], complete)
  }

  /** Sets have at most `width` elements; sets and records are nested at most `d` deep, extension values less. */
  predicate WithinBounds(value: Value, d: nat, width: nat)
    decreases value
  {
    match value
    case VSet(elements) =>
      && |elements| <= width
      && (elements == {} || (d > 0 && forall x | x in elements :: WithinBounds(x, d - 1, width)))
    case VRecord(fields) =>
      fields == map[] || (d > 0 && forall name | name in fields :: WithinBounds(fields[name], d - 1, width))
    case VExtension(_, _) => d > 0
    case _ => true
  }

  /** Without functions that make them there are no extension values. */
  const NO_FUNCTIONS: seq<ExtensionFunction> := []

  /** What a depth of `d` allows: all of the type, except that required keys can be missing where the depth ends. */
  predicate FitsAt(table: seq<ExtensionFunction>, ty: Type, d: nat, width: nat, value: Value) {
    && WithinBounds(value, d, width)
    && IsValueOf(table, ty, value, false)
    && (Adequate(ty, d, width) ==> IsValueOf(table, ty, value, true))
  }

  /** Up to `n` values that fit the element type at depth `d`. */
  predicate ElementsFit(table: seq<ExtensionFunction>, element: Type, d: nat, width: nat, n: nat, values: set<Value>) {
    |values| <= n && forall x | x in values :: FitsAt(table, element, d, width, x)
  }

  lemma OneMoreFits(table: seq<ExtensionFunction>, element: Type, d: nat, width: nat, n: nat, values: set<Value>,
                    x: Value)
    requires ElementsFit(table, element, d, width, n, values) && FitsAt(table, element, d, width, x)
    ensures ElementsFit(table, element, d, width, n + 1, values + {x})
  {
  }

  /** A set of at most `width` fitting values fits one deeper. */
  lemma SetFits(table: seq<ExtensionFunction>, element: Type, d: nat, width: nat, n: nat, values: set<Value>)
    requires n <= width && ElementsFit(table, element, d, width, n, values)
    ensures FitsAt(table, TSet(element), d + 1, width, VSet(values))
  {
    assert width == 0 ==> values == {};
  }

  /** One of the first `n` fields has the name, and the value fits its type. */
  predicate ValueFitsField(table: seq<ExtensionFunction>, fields: seq<Field>, n: nat, d: nat, width: nat,
                           name: string, value: Value)
    requires n <= |fields|
  {
    exists j :: 0 <= j < n && fields[j].name == name && FitsAt(table, fields[j].ty, d, width, value)
  }

  /** Values that fit under names of the first `n` fields, the required ones among them. */
  predicate FieldValuesFit(table: seq<ExtensionFunction>, fields: seq<Field>, n: nat, d: nat, width: nat,
                           values: map<string, Value>)
    requires n <= |fields|
  {
    && (forall name | name in values :: ValueFitsField(table, fields, n, d, width, name, values[name]))
    && (forall j | 0 <= j < n && fields[j].required :: fields[j].name in values)
  }

  lemma FieldValueFits(table: seq<ExtensionFunction>, fields: seq<Field>, n: nat, d: nat, width: nat,
                       values: map<string, Value>, x: Value)
    requires n < |fields| && FieldValuesFit(table, fields, n, d, width, values)
    requires FitsAt(table, fields[n].ty, d, width, x)
    ensures FieldValuesFit(table, fields, n + 1, d, width, values[fields[n].name := x])
  {
    var values' := values[fields[n].name := x];
    forall name | name in values' ensures ValueFitsField(table, fields, n + 1, d, width, name, values'[name]) {
      if name != fields[n].name {
        assert ValueFitsField(table, fields, n, d, width, name, values[name]);
      }
    }
  }

  lemma SkippedFieldFits(table: seq<ExtensionFunction>, fields: seq<Field>, n: nat, d: nat, width: nat,
                         values: map<string, Value>)
    requires n < |fields| && !fields[n].required && FieldValuesFit(table, fields, n, d, width, values)
    ensures FieldValuesFit(table, fields, n + 1, d, width, values)
  {
    forall name | name in values ensures ValueFitsField(table, fields, n + 1, d, width, name, values[name]) {
      assert ValueFitsField(table, fields, n, d, width, name, values[name]);
    }
  }

  /** A record of values that fit its fields fits one deeper. */
  lemma RecordFits(table: seq<ExtensionFunction>, fields: seq<Field>, d: nat, width: nat, values: map<string, Value>)
    requires FieldValuesFit(table, fields, |fields|, d, width, values)
    ensures FitsAt(table, TRecord(fields), d + 1, width, VRecord(values))
  {
    forall name | name in values
      ensures exists j :: 0 <= j < |fields| && fields[j].name == name
                && FitsAt(table, fields[j].ty, d, width, values[name])
    {
      assert ValueFitsField(table, fields, |fields|, d, width, name, values[name]);
    }
  }

  /** A literal of a type has a value of the type. */
  lemma {:induction false} ConformingLiteral(table: seq<ExtensionFunction>, v: AttrValue, ty: Type)
    requires Conforms(table, v, ty)
    ensures IsValueOf(table, ty, ValueOf(v), true)
    decreases v, 1
  {
    match ty
    case TSet(element) =>
      forall i | 0 <= i < |v.elements| ensures IsValueOf(table, element, ValueOf(v.elements[i]), true) {
        ConformingLiteral(table, v.elements[i], element);
      }
    case TRecord(fields) =>
      forall name | name in FieldValues(v.fields)
        ensures exists j :: 0 <= j < |fields| && fields[j].name == name
                  && IsValueOf(table, fields[j].ty, FieldValues(v.fields)[name], true)
      {
        var i := FieldValueFrom(v.fields, name);
        var j :| 0 <= j < |fields| && fields[j].name == name && Conforms(table, v.fields[i].value, fields[j].ty);
        ConformingLiteral(table, v.fields[i].value, fields[j].ty);
      }
      FieldValueNames(v.fields);
    case TIpaddr | TDecimal | TDatetime | TDuration =>
      ConformingCall(table, v, ty);
    case _ =>
  }

  lemma {:induction false} ConformingCall(table: seq<ExtensionFunction>, v: AttrValue, ty: Type)
    requires IsExtension(ty) && Conforms(table, v, ty)
    ensures IsValueOf(table, ty, ValueOf(v), true)
    decreases v, 0
  {
    var f :| f in table && f.isConstructor && f.name == v.name && f.returnTy == ty
      && |v.args| == |f.parameterTypes|
      && forall i | 0 <= i < |v.args| :: Conforms(table, v.args[i], f.parameterTypes[i]);
    forall i | 0 <= i < |v.args| ensures IsValueOf(table, f.parameterTypes[i], ValueOf(v.args[i]), true) {
      ConformingLiteral(table, v.args[i], f.parameterTypes[i]);
    }
  }

  /** The field that the value under a name comes from. */
  lemma {:induction false} FieldValueFrom(fields: seq<AttrField>, name: string) returns (i: nat)
    requires name in FieldValues(fields)
    ensures i < |fields| && fields[i].name == name && FieldValues(fields)[name] == ValueOf(fields[i].value)
    ensures forall k | i < k < |fields| :: fields[k].name != name
  {
    var last := |fields| - 1;
    if fields[last].name == name {
      i := last;
    } else {
      i := FieldValueFrom(fields[..last], name);
      forall k | i < k < |fields| ensures fields[k].name != name {
        assert k < last ==> fields[k] == fields[..last][k];
      }
    }
  }

  lemma {:induction false} FieldValueNames(fields: seq<AttrField>)
    ensures forall i | 0 <= i < |fields| :: fields[i].name in FieldValues(fields)
  {
    if fields == [] {
    } else {
      var front := fields[..|fields| - 1];
      FieldValueNames(front);
      assert forall i | 0 <= i < |front| :: fields[i] == front[i];
    }
  }

  // ---------- What the literals at some depth can have as values ----------

  /** The value of a literal that an attribute of the type could have at depth `d`. */
  ghost predicate CanHold(ty: Type, d: nat, width: nat, value: Value) {
    exists v :: CanReturn(ty, d, width, Ok(v)) && ValueOf(v) == value
  }

  /** Every value that can be held is of the type, and within the bounds. */
  lemma {:induction false} HeldFits(table: seq<ExtensionFunction>, ty: Type, d: nat, width: nat, v: AttrValue)
    requires OffersConstructors(table) && CanReturn(ty, d, width, Ok(v))
    ensures FitsAt(table, ty, d, width, ValueOf(v))
    decreases ty, 1
  {
    match ty
    case TSet(element) =>
      if d > 0 {
        forall i | 0 <= i < |v.elements| ensures FitsAt(table, element, d - 1, width, ValueOf(v.elements[i])) {
          HeldFits(table, element, d - 1, width, v.elements[i]);
        }
        SetSize(v.elements);
      }
    case TRecord(fields) =>
      if d > 0 {
        HeldRecordFits(table, fields, d, width, v);
      }
    case TIpaddr | TDecimal | TDatetime | TDuration =>
      ConstructorCallConforms(table, ty, v);
      ConformingLiteral(table, v, ty);
      CompleteIsValueOf(table, ty, ValueOf(v));
    case _ =>
  }

  /** A list has at least as many elements as the set of their values. */
  lemma {:induction false} SetSize(elements: seq<AttrValue>)
    ensures |ValueOf(SetLit(elements)).elements| <= |elements|
  {
    if elements == [] {
      assert ValueOf(SetLit(elements)).elements == {};
    } else {
      var front, last := elements[..|elements| - 1], elements[|elements| - 1];
      SetSize(front);
      OneMoreElement(front, last);
      assert elements == front + [last];
    }
  }

  lemma OneMoreElement(lits: seq<AttrValue>, lit: AttrValue)
    ensures ValueOf(SetLit(lits + [lit])) == VSet(ValueOf(SetLit(lits)).elements + {ValueOf(lit)})
  {
    var more := lits + [lit];
    forall x ensures x in ValueOf(SetLit(more)).elements <==> x in ValueOf(SetLit(lits)).elements || x == ValueOf(lit) {
      if x in ValueOf(SetLit(lits)).elements {
        var i :| 0 <= i < |lits| && ValueOf(lits[i]) == x;
        assert more[i] == lits[i];
      }
      assert more[|lits|] == lit;
    }
  }

  /** A complete value is also one that need not be complete. */
  lemma {:induction false} CompleteIsValueOf(table: seq<ExtensionFunction>, ty: Type, value: Value)
    requires IsValueOf(table, ty, value, true)
    ensures IsValueOf(table, ty, value, false)
    decreases value
  {
    match ty
    case TSet(element) =>
      forall x | x in value.elements ensures IsValueOf(table, element, x, false) {
        CompleteIsValueOf(table, element, x);
      }
    case TRecord(fields) =>
      forall name | name in value.fields
        ensures exists j :: 0 <= j < |fields| && fields[j].name == name
                  && IsValueOf(table, fields[j].ty, value.fields[name], false)
      {
        var j :| 0 <= j < |fields| && fields[j].name == name
          && IsValueOf(table, fields[j].ty, value.fields[name], true);
        CompleteIsValueOf(table, fields[j].ty, value.fields[name]);
      }
    case TIpaddr | TDecimal | TDatetime | TDuration =>
      var f :| f in table && f.isConstructor && f.name == value.name && f.returnTy == ty
        && |value.args| == |f.parameterTypes|
        && forall i | 0 <= i < |value.args| :: IsValueOf(table, f.parameterTypes[i], value.args[i], true);
      forall i | 0 <= i < |value.args| ensures IsValueOf(table, f.parameterTypes[i], value.args[i], false) {
        CompleteIsValueOf(table, f.parameterTypes[i], value.args[i]);
      }
    case _ =>
  }

  /** Every value is one of a field, and every required field among the first `n` has one. */
  lemma {:induction false} ValuesAreOfFields(fields: seq<Field>, n: nat, d: nat, width: nat, values: seq<AttrField>)
    requires n <= |fields| && ValuesOf(fields, n, d, width, values)
    ensures forall i | 0 <= i < |values| :: IsOfField(fields, n, d, width, values[i])
    ensures forall j | 0 <= j < n && fields[j].required :: HasName(values, fields[j].name)
    decreases n
  {
    if n == 0 {
    } else if !fields[n - 1].required && ValuesOf(fields, n - 1, d, width, values) {
      ValuesAreOfFields(fields, n - 1, d, width, values);
      forall i | 0 <= i < |values| ensures IsOfField(fields, n, d, width, values[i]) {
        assert IsOfField(fields, n - 1, d, width, values[i]);
      }
    } else {
      var front, last := values[..|values| - 1], values[|values| - 1];
      ValuesAreOfFields(fields, n - 1, d, width, front);
      forall i | 0 <= i < |values| ensures IsOfField(fields, n, d, width, values[i]) {
        assert i < |front| ==> IsOfField(fields, n - 1, d, width, front[i]);
      }
      forall j | 0 <= j < n && fields[j].required ensures HasName(values, fields[j].name) {
        if j < n - 1 {
          var i :| 0 <= i < |front| && front[i].name == fields[j].name;
          assert values[i] == front[i];
        } else {
          assert values[|front|] == last;
        }
      }
    }
  }

  lemma {:induction false} HeldRecordFits(table: seq<ExtensionFunction>, fields: seq<Field>, d: nat, width: nat,
                                          v: AttrValue)
    requires OffersConstructors(table) && d > 0 && v.RecordLit?
    requires ValuesOf(fields, |fields|, d - 1, width, v.fields)
    ensures FitsAt(table, TRecord(fields), d, width, ValueOf(v))
    decreases TRecord(fields), 0
  {
    ValuesAreOfFields(fields, |fields|, d - 1, width, v.fields);
    var values := FieldValues(v.fields);
    forall name | name in values ensures ValueFitsField(table, fields, |fields|, d - 1, width, name, values[name]) {
      var i := FieldValueFrom(v.fields, name);
      assert IsOfField(fields, |fields|, d - 1, width, v.fields[i]);
      var j :| 0 <= j < |fields| && fields[j].name == name
        && CanReturn(fields[j].ty, d - 1, width, Ok(v.fields[i].value));
      HeldFits(table, fields[j].ty, d - 1, width, v.fields[i].value);
    }
    FieldValueNames(v.fields);
    RecordFits(table, fields, d - 1, width, values);
  }
}
