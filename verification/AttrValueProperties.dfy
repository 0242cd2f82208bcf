/** For which types and depths every generated attribute value conforms to its type, and how deep it can be. */
module AttrValueProperties {
  import opened Wrappers
  import opened SchemaTypes
  import opened ExtensionFunctions
  import opened AttrValues

  /**
   The depth suffices for the type.  This is not monotone: at depth 0 a set of decimals is empty,
   at depth 1 its elements are too deep, from depth 2 on it is fine again.
   */
  predicate Adequate(ty: Type, d: nat, width: nat)
    decreases ty
  {
    match ty
    case TSet(element) => d == 0 || width == 0 || Adequate(element, d - 1, width)
    case TRecord(fields) =>
      if d == 0 then forall i | 0 <= i < |fields| :: !fields[i].required
      else forall i | 0 <= i < |fields| :: Adequate(fields[i].ty, d - 1, width)
    case _ => IsExtension(ty) ==> d > 0
  }

  function TypeHeight(ty: Type): nat
    decreases ty, 1
  {
    match ty
    case TSet(element) => 1 + TypeHeight(element)
    case TRecord(fields) => 1 + FieldsHeight(fields)
    case _ => if IsExtension(ty) then 1 else 0
  }

  function FieldsHeight(fields: seq<Field>): nat
    decreases fields, 0
  {
    if fields == [] then 0 else Max(TypeHeight(fields[0].ty), FieldsHeight(fields[1..]))
  }

  lemma {:induction false} FieldHeight(fields: seq<Field>, i: nat)
    requires i < |fields|
    ensures TypeHeight(fields[i].ty) <= FieldsHeight(fields)
  {
    if i == 0 {
    } else {
      FieldHeight(fields[1..], i - 1);
    }
  }

  /** A depth of at least the height of the type suffices. */
  lemma {:induction false} HeightIsAdequate(ty: Type, d: nat, width: nat)
    requires d >= TypeHeight(ty)
    ensures Adequate(ty, d, width)
    decreases ty
  {
    match ty
    case TSet(element) => HeightIsAdequate(element, d - 1, width);
    case TRecord(fields) =>
      forall i | 0 <= i < |fields| ensures Adequate(fields[i].ty, d - 1, width) {
        FieldHeight(fields, i);
        HeightIsAdequate(fields[i].ty, d - 1, width);
      }
    case _ =>
  }

  // ---------- Enough depth: every outcome is right ----------

  lemma StringCallConforms(table: seq<ExtensionFunction>, name: string, ty: Type, v: AttrValue)
    requires ExtensionFunction(name, true, [TString], ty) in table && IsExtension(ty)
    requires IsStringCall(name, v)
    ensures Conforms(table, v, ty)
  {
  }

  lemma ConstructorCallConforms(table: seq<ExtensionFunction>, ty: Type, v: AttrValue)
    requires OffersConstructors(table) && IsExtension(ty) && IsConstructorCall(ty, v)
    ensures Conforms(table, v, ty)
  {
    if ty == TDatetime && v.name == "offset" {
      StringCallConforms(table, "datetime", TDatetime, v.args[0]);
      StringCallConforms(table, "duration", TDuration, v.args[1]);
    } else {
      StringCallConforms(table, v.name, ty, v);
    }
  }

  /** Names of the first `n` fields, each once and with a possible value, and every required one of them. */
  ghost predicate NamesFit(fields: seq<Field>, n: nat, d: nat, width: nat, values: seq<AttrField>)
    requires n <= |fields|
  {
    && (forall i | 0 <= i < |values| :: IsOfField(fields, n, d, width, values[i]))
    && (forall i, j | 0 <= i < j < |values| :: values[i].name != values[j].name)
    && forall j | 0 <= j < n && fields[j].required :: HasName(values, fields[j].name)
  }

  ghost predicate IsOfField(fields: seq<Field>, n: nat, d: nat, width: nat, value: AttrField)
    requires n <= |fields|
  {
    exists j :: 0 <= j < n && fields[j].name == value.name && CanReturn(fields[j].ty, d, width, Ok(value.value))
  }

  predicate HasName(values: seq<AttrField>, name: string) {
    exists i :: 0 <= i < |values| && values[i].name == name
  }

  lemma OneMoreName(fields: seq<Field>, n: nat, d: nat, width: nat, front: seq<AttrField>, last: AttrField)
    requires n < |fields| && NamesFit(fields, n, d, width, front)
    requires forall i, j | 0 <= i < j < |fields| :: fields[i].name != fields[j].name
    requires last.name == fields[n].name && CanReturn(fields[n].ty, d, width, Ok(last.value))
    ensures NamesFit(fields, n + 1, d, width, front + [last])
  {
    var values := front + [last];
    forall i | 0 <= i < |values| ensures IsOfField(fields, n + 1, d, width, values[i]) {
      if i < |front| {
        assert IsOfField(fields, n, d, width, front[i]);
      }
    }
    forall i | 0 <= i < |front| ensures values[i].name != last.name {
      assert IsOfField(fields, n, d, width, front[i]);
    }
    forall j | 0 <= j < n + 1 && fields[j].required ensures HasName(values, fields[j].name) {
      if j < n {
        assert HasName(front, fields[j].name);
        var i :| 0 <= i < |front| && front[i].name == fields[j].name;
        assert values[i] == front[i];
      } else {
        assert values[|front|] == last;
      }
    }
  }

  lemma SkippedName(fields: seq<Field>, n: nat, d: nat, width: nat, values: seq<AttrField>)
    requires n < |fields| && NamesFit(fields, n, d, width, values) && !fields[n].required
    ensures NamesFit(fields, n + 1, d, width, values)
  {
    forall i | 0 <= i < |values| ensures IsOfField(fields, n + 1, d, width, values[i]) {
      assert IsOfField(fields, n, d, width, values[i]);
    }
  }

  /** Values for the first `n` fields: names of those fields, with every required one. */
  lemma {:induction false} ValuesNames(fields: seq<Field>, n: nat, d: nat, width: nat, values: seq<AttrField>)
    requires n <= |fields| && ValuesOf(fields, n, d, width, values)
    requires forall i, j | 0 <= i < j < |fields| :: fields[i].name != fields[j].name
    ensures NamesFit(fields, n, d, width, values)
    decreases n
  {
    if n == 0 {
    } else if !fields[n - 1].required && ValuesOf(fields, n - 1, d, width, values) {
      ValuesNames(fields, n - 1, d, width, values);
      SkippedName(fields, n - 1, d, width, values);
    } else {
      var front, last := values[..|values| - 1], values[|values| - 1];
      ValuesNames(fields, n - 1, d, width, front);
      OneMoreName(fields, n - 1, d, width, front, last);
      assert values == front + [last];
    }
  }

  lemma {:induction false} AdequateIsSafe(table: seq<ExtensionFunction>, ty: Type, d: nat, width: nat,
                                          r: Result<AttrValue, Error>)
    requires OffersConstructors(table) && WellFormed(ty) && Adequate(ty, d, width) && CanReturn(ty, d, width, r)
    ensures r != Err(TooDeep)
    ensures r.Ok? ==> Conforms(table, r.value, ty)
    decreases ty
  {
    match ty
    case TSet(element) =>
      if d > 0 && width > 0 {
        if r == Err(TooDeep) {
          AdequateIsSafe(table, element, d - 1, width, Err(TooDeep));
        } else if r.Ok? {
          forall i | 0 <= i < |r.value.elements| ensures Conforms(table, r.value.elements[i], element) {
            AdequateIsSafe(table, element, d - 1, width, Ok(r.value.elements[i]));
          }
        }
      }
    case TRecord(fields) =>
      if d > 0 {
        if r == Err(TooDeep) {
          var n: nat, values :| n < |fields| && ValuesOf(fields, n, d - 1, width, values)
            && CanReturn(fields[n].ty, d - 1, width, Err(TooDeep));
          AdequateIsSafe(table, fields[n].ty, d - 1, width, Err(TooDeep));
        } else if r.Ok? {
          RecordIsSafe(table, ty, d, width, r.value);
        }
      }
    case TIpaddr | TDecimal | TDatetime | TDuration =>
      if r.Ok? {
        ConstructorCallConforms(table, ty, r.value);
      }
    case _ =>
  }

  lemma {:induction false} RecordIsSafe(table: seq<ExtensionFunction>, ty: Type, d: nat, width: nat, v: AttrValue)
    requires OffersConstructors(table) && ty.TRecord? && d > 0 && WellFormed(ty) && Adequate(ty, d, width)
    requires v.RecordLit? && ValuesOf(ty.fields, |ty.fields|, d - 1, width, v.fields)
    ensures Conforms(table, v, ty)
    decreases ty, 0
  {
    var fields := ty.fields;
    ValuesNames(fields, |fields|, d - 1, width, v.fields);
    forall i | 0 <= i < |v.fields|
      ensures exists j ::
        0 <= j < |fields| && fields[j].name == v.fields[i].name && Conforms(table, v.fields[i].value, fields[j].ty)
    {
      assert IsOfField(fields, |fields|, d - 1, width, v.fields[i]);
      var j :| 0 <= j < |fields| && fields[j].name == v.fields[i].name
        && CanReturn(fields[j].ty, d - 1, width, Ok(v.fields[i].value));
      AdequateIsSafe(table, fields[j].ty, d - 1, width, Ok(v.fields[i].value));
    }
    forall j | 0 <= j < |fields| && fields[j].required
      ensures exists i :: 0 <= i < |v.fields| && v.fields[i].name == fields[j].name
    {
      assert HasName(v.fields, fields[j].name);
    }
  }

  // ---------- Too little depth: some outcome is wrong ----------

  /** The outcome of one choice of draws: one element in every set, and every field present. */
  function FullestCase(ty: Type, d: nat, width: nat): Result<AttrValue, Error>
    decreases ty, 1
  {
    match ty
    case TBool => Ok(BoolLit(true))
    case TLong => Ok(IntLit(0))
    case TString => Ok(StringLit(""))
    case TEntity(name) => Ok(UidLit(EntityUid(name, "")))
    case TSet(element) =>
      if d == 0 || width == 0 then Ok(SetLit([]))
      else
        var v :- FullestCase(element, d - 1, width);
        Ok(SetLit([v]))
    case TRecord(fields) =>
      if d == 0 then Ok(RecordLit([]))
      else
        var values :- FullestFields(fields, |fields|, d - 1, width);
        Ok(RecordLit(values))
    case _ =>
      if d == 0 then Err(TooDeep)
      else
        var name := if ty.TIpaddr? then "ip" else if ty.TDecimal? then "decimal" else if ty.TDatetime? then "datetime"
                    else "duration";
        Ok(ExtFuncCall(name, [StringLit("")]))
  }

  function FullestFields(fields: seq<Field>, n: nat, d: nat, width: nat): Result<seq<AttrField>, Error>
    requires n <= |fields|
    decreases fields, 0, n
  {
    if n == 0 then Ok([])
    else
      var values :- FullestFields(fields, n - 1, d, width);
      var v :- FullestCase(fields[n - 1].ty, d, width);
      Ok(values + [AttrField(fields[n - 1].name, v)])
  }

  lemma {:induction false} FullestCaseIsPossible(ty: Type, d: nat, width: nat)
    ensures CanReturn(ty, d, width, FullestCase(ty, d, width)) && FullestCase(ty, d, width) != Err(OtherError)
    decreases ty, 1
  {
    match ty
    case TSet(element) =>
      if d > 0 && width > 0 {
        FullestCaseIsPossible(element, d - 1, width);
        if FullestCase(element, d - 1, width).Err? {
          assert FullestCase(ty, d, width) == Err(TooDeep);
        }
      }
    case TRecord(fields) =>
      if d > 0 {
        FullestFieldsPossible(fields, |fields|, d - 1, width);
        if FullestFields(fields, |fields|, d - 1, width).Err? {
          assert FullestCase(ty, d, width) == Err(TooDeep);
        }
      }
    case _ =>
  }

  lemma {:induction false} FullestFieldsPossible(fields: seq<Field>, n: nat, d: nat, width: nat)
    requires n <= |fields|
    ensures var r := FullestFields(fields, n, d, width);
            && (r.Ok? ==> |r.value| == n && ValuesOf(fields, n, d, width, r.value))
            && (r.Ok? ==> forall i | 0 <= i < n ::
                  r.value[i].name == fields[i].name && FullestCase(fields[i].ty, d, width) == Ok(r.value[i].value))
            && (r.Err? ==> r.error == TooDeep && FieldTooDeep(fields, d, width))
    decreases fields, 0, n
  {
    if n == 0 {
    } else {
      FullestFieldsPossible(fields, n - 1, d, width);
      FullestCaseIsPossible(fields[n - 1].ty, d, width);
      var r := FullestFields(fields, n, d, width);
      if r.Ok? {
        assert r.value[..n - 1] == FullestFields(fields, n - 1, d, width).value;
      }
    }
  }

  /** Too deep, or a value that is not of the type. */
  predicate IsWrong(table: seq<ExtensionFunction>, ty: Type, r: Result<AttrValue, Error>) {
    r == Err(TooDeep) || (r.Ok? && !Conforms(table, r.value, ty))
  }

  /** A record with one wrong field is wrong, because no other field has its name. */
  lemma WrongFieldIsWrong(table: seq<ExtensionFunction>, ty: Type, d: nat, width: nat, k: nat)
    requires ty.TRecord? && WellFormed(ty) && d > 0 && k < |ty.fields|
    requires IsWrong(table, ty.fields[k].ty, FullestCase(ty.fields[k].ty, d - 1, width))
    ensures IsWrong(table, ty, FullestCase(ty, d, width))
  {
    FullestFieldsPossible(ty.fields, |ty.fields|, d - 1, width);
    var r := FullestCase(ty, d, width);
    if r.Ok? {
      ConformingField(table, r.value, ty, k, k);
    }
  }

  lemma ConformingField(table: seq<ExtensionFunction>, v: AttrValue, ty: Type, i: nat, j: nat)
    requires v.RecordLit? && ty.TRecord? && WellFormed(ty) && i < |v.fields| && j < |ty.fields|
    requires v.fields[i].name == ty.fields[j].name
    ensures Conforms(table, v, ty) ==> Conforms(table, v.fields[i].value, ty.fields[j].ty)
  {
  }

  lemma {:induction false} FullestCaseIsWrong(table: seq<ExtensionFunction>, ty: Type, d: nat, width: nat)
    requires WellFormed(ty) && !Adequate(ty, d, width)
    ensures IsWrong(table, ty, FullestCase(ty, d, width))
    decreases ty
  {
    match ty
    case TSet(element) =>
      FullestCaseIsPossible(element, d - 1, width);
      FullestCaseIsWrong(table, element, d - 1, width);
      if FullestCase(element, d - 1, width).Ok? {
        assert FullestCase(ty, d, width).value.elements[0] == FullestCase(element, d - 1, width).value;
      }
    case TRecord(fields) =>
      if d > 0 {
        var k :| 0 <= k < |fields| && !Adequate(fields[k].ty, d - 1, width);
        FullestCaseIsWrong(table, fields[k].ty, d - 1, width);
        WrongFieldIsWrong(table, ty, d, width, k);
      }
    case _ =>
  }

  /** Every outcome is of the type, whatever the draws, exactly if the depth suffices. */
  lemma SafeIffAdequate(table: seq<ExtensionFunction>, ty: Type, d: nat, width: nat)
    requires OffersConstructors(table) && WellFormed(ty)
    ensures Adequate(ty, d, width) <==> forall r | CanReturn(ty, d, width, r) :: !IsWrong(table, ty, r)
  {
    if Adequate(ty, d, width) {
      forall r | CanReturn(ty, d, width, r) ensures !IsWrong(table, ty, r) {
        AdequateIsSafe(table, ty, d, width, r);
      }
    } else {
      FullestCaseIsPossible(ty, d, width);
      FullestCaseIsWrong(table, ty, d, width);
    }
  }

  /** A set of decimals: no outcome is wrong at depth 0 or 2, and some outcome is at depth 1. */
  lemma MoreDepthCanBeWorse(table: seq<ExtensionFunction>, width: nat)
    requires OffersConstructors(table) && width > 0
    ensures var ty := TSet(TDecimal);
            && (forall r | CanReturn(ty, 0, width, r) :: !IsWrong(table, ty, r))
            && (exists r :: CanReturn(ty, 1, width, r) && IsWrong(table, ty, r))
            && (forall r | CanReturn(ty, 2, width, r) :: !IsWrong(table, ty, r))
  {
    SafeIffAdequate(table, TSet(TDecimal), 0, width);
    SafeIffAdequate(table, TSet(TDecimal), 1, width);
    SafeIffAdequate(table, TSet(TDecimal), 2, width);
  }

  // ---------- Height ----------

  lemma {:induction false} HeightAboveBound(vs: seq<AttrValue>, b: nat)
    requires forall i | 0 <= i < |vs| :: Height(vs[i]) < b
    ensures HeightAbove(vs) <= b
  {
    if vs == [] {
    } else {
      HeightAboveBound(vs[1..], b);
    }
  }

  lemma {:induction false} HeightAboveFieldsBound(fields: seq<AttrField>, b: nat)
    requires forall i | 0 <= i < |fields| :: Height(fields[i].value) < b
    ensures HeightAboveFields(fields) <= b
  {
    if fields == [] {
    } else {
      HeightAboveFieldsBound(fields[1..], b);
    }
  }

  /** A value is at most as high as the depth bound, or one more if it calls `offset`. */
  lemma {:induction false} HeightIsBounded(ty: Type, d: nat, width: nat, v: AttrValue)
    requires CanReturn(ty, d, width, Ok(v))
    ensures Height(v) <= if CallsOffset(v) then d + 1 else d
    decreases ty
  {
    match ty
    case TSet(element) =>
      if d > 0 {
        var b := if CallsOffset(v) then d + 1 else d;
        forall i | 0 <= i < |v.elements| ensures Height(v.elements[i]) < b {
          HeightIsBounded(element, d - 1, width, v.elements[i]);
        }
        HeightAboveBound(v.elements, b);
      }
    case TRecord(fields) =>
      if d > 0 {
        var b := if CallsOffset(v) then d + 1 else d;
        forall i | 0 <= i < |v.fields| ensures Height(v.fields[i].value) < b {
          var j: nat := ValueOfField(fields, |fields|, d - 1, width, v.fields, i);
          HeightIsBounded(fields[j].ty, d - 1, width, v.fields[i].value);
        }
        HeightAboveFieldsBound(v.fields, b);
      }
    case _ =>
      if v.ExtFuncCall? {
        ConstructorCallHeight(ty, v);
      }
  }

  lemma StringCallHeight(name: string, v: AttrValue)
    requires IsStringCall(name, v)
    ensures Height(v) == 1 && (CallsOffset(v) <==> name == "offset")
  {
    assert v.args[1..] == [] && Height(v.args[0]) == 0;
    assert HeightAbove(v.args) == 1;
    assert !CallsOffset(v.args[0]);
  }

  lemma ConstructorCallHeight(ty: Type, v: AttrValue)
    requires IsConstructorCall(ty, v)
    ensures Height(v) == if CallsOffset(v) then 2 else 1
  {
    if v.name == "offset" {
      StringCallHeight("datetime", v.args[0]);
      StringCallHeight("duration", v.args[1]);
      assert v.args[1..] == [v.args[1]] && v.args[1..][1..] == [];
      assert HeightAbove(v.args[1..]) == 2;
    } else {
      StringCallHeight(v.name, v);
    }
  }

  lemma {:induction false} ValueOfField(fields: seq<Field>, n: nat, d: nat, width: nat, values: seq<AttrField>, i: nat)
    returns (j: nat)
    requires n <= |fields| && ValuesOf(fields, n, d, width, values) && i < |values|
    ensures j < n && CanReturn(fields[j].ty, d, width, Ok(values[i].value))
    decreases n
  {
    if !fields[n - 1].required && ValuesOf(fields, n - 1, d, width, values) {
      j := ValueOfField(fields, n - 1, d, width, values, i);
    } else if i == |values| - 1 {
      j := n - 1;
    } else {
      j := ValueOfField(fields, n - 1, d, width, values[..|values| - 1], i);
    }
  }

  /** The documented bound is exceeded: at depth 1 a datetime of height 2 is possible. */
  lemma OffsetExceedsBound(s: string, t: string, width: nat)
    ensures var v := ExtFuncCall("offset", [ExtFuncCall("datetime", [StringLit(s)]),
                                            ExtFuncCall("duration", [StringLit(t)])]);
            CanReturn(TDatetime, 1, width, Ok(v)) && Height(v) == 2
  {
    var v := ExtFuncCall("offset", [ExtFuncCall("datetime", [StringLit(s)]), ExtFuncCall("duration", [StringLit(t)])]);
    ConstructorCallHeight(TDatetime, v);
  }

  // ---------- When the documented bound on the height is exceeded ----------

  /** Some draws give a value: only an extension type without depth left never does. */
  predicate CanSucceed(ty: Type, d: nat, width: nat)
    decreases ty
  {
    match ty
    case TSet(_) => true
    case TRecord(fields) =>
      d == 0 || forall i | 0 <= i < |fields| && fields[i].required :: CanSucceed(fields[i].ty, d - 1, width)
    case _ => IsExtension(ty) ==> d > 0
  }

  /** Some draws give a value higher than the depth: one with a datetime where one level is left. */
  predicate CanExceed(ty: Type, d: nat, width: nat)
    decreases ty
  {
    match ty
    case TDatetime => d == 1
    case TSet(element) => d > 0 && width > 0 && CanExceed(element, d - 1, width)
    case TRecord(fields) =>
      && d > 0
      && (forall i | 0 <= i < |fields| && fields[i].required :: CanSucceed(fields[i].ty, d - 1, width))
      && exists i :: 0 <= i < |fields| && CanExceed(fields[i].ty, d - 1, width)
    case _ => false
  }

  /** A possible value. */
  lemma {:induction false} PossibleValue(ty: Type, d: nat, width: nat) returns (v: AttrValue)
    requires CanSucceed(ty, d, width)
    ensures CanReturn(ty, d, width, Ok(v))
    decreases ty, 1
  {
    match ty
    case TBool => v := BoolLit(true);
    case TLong => v := IntLit(0);
    case TString => v := StringLit("");
    case TEntity(name) => v := UidLit(EntityUid(name, ""));
    case TSet(_) => v := SetLit([]);
    case TRecord(fields) =>
      if d == 0 {
        v := RecordLit([]);
      } else {
        var values := PossibleFields(fields, |fields|, d - 1, width, |fields|, SetLit([]));
        v := RecordLit(values);
      }
    case TIpaddr => v := ExtFuncCall("ip", [StringLit("")]);
    case TDecimal => v := ExtFuncCall("decimal", [StringLit("")]);
    case TDatetime => v := ExtFuncCall("datetime", [StringLit("")]);
    case TDuration => v := ExtFuncCall("duration", [StringLit("")]);
  }

  /** Possible values for the required ones of the first `n` fields, and `v` for the `k`-th if it is among them. */
  lemma {:induction false} PossibleFields(fields: seq<Field>, n: nat, d: nat, width: nat, k: nat, v: AttrValue)
    returns (values: seq<AttrField>)
    requires n <= |fields|
    requires forall i | 0 <= i < |fields| && fields[i].required :: CanSucceed(fields[i].ty, d, width)
    requires k < |fields| ==> CanReturn(fields[k].ty, d, width, Ok(v))
    ensures ValuesOf(fields, n, d, width, values)
    ensures k < n ==> exists i :: 0 <= i < |values| && values[i].value == v
    decreases fields, 0, n
  {
    if n == 0 {
      values := [];
    } else {
      var front := PossibleFields(fields, n - 1, d, width, k, v);
      var f := fields[n - 1];
      values := front;
      if k == n - 1 || f.required {
        var last := v;
        if k != n - 1 {
          last := PossibleValue(f.ty, d, width);
        }
        values := front + [AttrField(f.name, last)];
        assert values[..|values| - 1] == front;
        forall i | 0 <= i < |front| ensures values[i] == front[i] {}
        assert values[|front|].value == last;
      }
    }
  }

  lemma {:induction false} HeightAboveAtLeast(vs: seq<AttrValue>, i: nat)
    requires i < |vs|
    ensures HeightAbove(vs) > Height(vs[i])
  {
    if i == 0 {
    } else {
      HeightAboveAtLeast(vs[1..], i - 1);
    }
  }

  lemma {:induction false} HeightAboveFieldsAtLeast(fields: seq<AttrField>, i: nat)
    requires i < |fields|
    ensures HeightAboveFields(fields) > Height(fields[i].value)
  {
    if i == 0 {
    } else {
      HeightAboveFieldsAtLeast(fields[1..], i - 1);
    }
  }

  /** A possible value that is higher than the depth. */
  lemma {:induction false} ExceedingValue(ty: Type, d: nat, width: nat) returns (v: AttrValue)
    requires CanExceed(ty, d, width)
    ensures CanReturn(ty, d, width, Ok(v)) && Height(v) > d
    decreases ty
  {
    match ty
    case TDatetime =>
      OffsetExceedsBound("", "", width);
      v := ExtFuncCall("offset", [ExtFuncCall("datetime", [StringLit("")]), ExtFuncCall("duration", [StringLit("")])]);
    case TSet(element) =>
      var e := ExceedingValue(element, d - 1, width);
      v := SetLit([e]);
      HeightAboveAtLeast([e], 0);
    case TRecord(fields) =>
      var k :| 0 <= k < |fields| && CanExceed(fields[k].ty, d - 1, width);
      var e := ExceedingValue(fields[k].ty, d - 1, width);
      var values := PossibleFields(fields, |fields|, d - 1, width, k, e);
      v := RecordLit(values);
      var i :| 0 <= i < |values| && values[i].value == e;
      HeightAboveFieldsAtLeast(values, i);
  }

  /** Values for the first `n` fields include one for each required field. */
  lemma {:induction false} RequiredCanSucceed(fields: seq<Field>, n: nat, d: nat, width: nat, values: seq<AttrField>)
    requires n <= |fields| && ValuesOf(fields, n, d, width, values)
    ensures forall i | 0 <= i < n && fields[i].required :: CanSucceed(fields[i].ty, d, width)
    decreases fields, 0, n
  {
    if n == 0 {
    } else {
      if !fields[n - 1].required && ValuesOf(fields, n - 1, d, width, values) {
        RequiredCanSucceed(fields, n - 1, d, width, values);
      } else {
        RequiredCanSucceed(fields, n - 1, d, width, values[..|values| - 1]);
        CanSucceedIff(fields[n - 1].ty, d, width);
      }
    }
  }

  /** The condition for a value to be possible is exact. */
  lemma {:induction false} CanSucceedIff(ty: Type, d: nat, width: nat)
    ensures CanSucceed(ty, d, width) <==> exists v :: CanReturn(ty, d, width, Ok(v))
    decreases ty, 1
  {
    if CanSucceed(ty, d, width) {
      var v := PossibleValue(ty, d, width);
    } else if v :| CanReturn(ty, d, width, Ok(v)) {
      if ty.TRecord? && d > 0 {
        RequiredCanSucceed(ty.fields, |ty.fields|, d - 1, width, v.fields);
      }
    }
  }

  /** Unless the type and depth let a value exceed the depth, none does. */
  lemma {:induction false} WithinBound(ty: Type, d: nat, width: nat, v: AttrValue)
    requires !CanExceed(ty, d, width) && CanReturn(ty, d, width, Ok(v))
    ensures Height(v) <= d
    decreases ty
  {
    match ty
    case TSet(element) =>
      if d > 0 {
        forall i | 0 <= i < |v.elements| ensures Height(v.elements[i]) < d {
          WithinBound(element, d - 1, width, v.elements[i]);
        }
        HeightAboveBound(v.elements, d);
      }
    case TRecord(fields) =>
      if d > 0 {
        RequiredCanSucceed(fields, |fields|, d - 1, width, v.fields);
        forall i | 0 <= i < |v.fields| ensures Height(v.fields[i].value) < d {
          var j: nat := ValueOfField(fields, |fields|, d - 1, width, v.fields, i);
          WithinBound(fields[j].ty, d - 1, width, v.fields[i].value);
        }
        HeightAboveFieldsBound(v.fields, d);
      }
    case _ =>
      if v.ExtFuncCall? {
        ConstructorCallHeight(ty, v);
      }
  }

  /** The documented bound on the height fails for exactly these types, depths and widths. */
  lemma BoundIsExceededIff(ty: Type, d: nat, width: nat)
    ensures CanExceed(ty, d, width) <==> exists v :: CanReturn(ty, d, width, Ok(v)) && Height(v) > d
  {
    if CanExceed(ty, d, width) {
      var v := ExceedingValue(ty, d, width);
    } else if v :| CanReturn(ty, d, width, Ok(v)) && Height(v) > d {
      WithinBound(ty, d, width, v);
    }
  }
}
