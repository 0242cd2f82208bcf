/** Generating an arbitrary type under bounds on its depth and on the number of attributes of a record. */
module TypeGenerator {
  import opened Wrappers
  import opened SchemaTypes
  import opened AttrValues
  import opened OrderedCollections

  /** A type that can be generated at depth `d`: without depth left there are no sets and no attributes. */
  predicate IsGeneratedType(entityTypes: set<Name>, width: nat, d: nat, ty: Type)
    decreases ty
  {
    match ty
    case TSet(element) => d > 0 && IsGeneratedType(entityTypes, width, d - 1, element)
    case TRecord(fields) =>
      if d == 0 then fields == []
      else
        && |fields| <= width
        && (forall i, j | 0 <= i < j < |fields| :: StringLess(fields[i].name, fields[j].name))
        && forall i | 0 <= i < |fields| :: IsGeneratedType(entityTypes, width, d - 1, fields[i].ty)
    case TEntity(name) => name in entityTypes
    case _ => true
  }

  type FieldMap = seq<Entry<(Type, bool)>>

  function FieldsOf(m: FieldMap): seq<Field> {
    seq(|m|, i requires 0 <= i < |m| => Field(m[i].key, m[i].value.0, m[i].value.1))
  }

  /** The attributes made so far. */
  ghost predicate AreGeneratedFields(entityTypes: set<Name>, width: nat, d: nat, n: nat, m: FieldMap) {
    && |m| <= n && SortedKeys(m)
    && forall e | e in m :: IsGeneratedType(entityTypes, width, d, e.value.0)
  }

  lemma {:induction false} PutSize<V>(m: seq<Entry<V>>, e: Entry<V>)
    ensures |Put(m, e)| <= |m| + 1
  {
    if m == [] {
    } else {
      PutSize(m[1..], e);
    }
  }

  lemma OneMoreField(entityTypes: set<Name>, width: nat, d: nat, n: nat, m: FieldMap, e: Entry<(Type, bool)>)
    requires AreGeneratedFields(entityTypes, width, d, n, m) && IsGeneratedType(entityTypes, width, d, e.value.0)
    ensures AreGeneratedFields(entityTypes, width, d, n + 1, Put(m, e))
  {
    PutSize(m, e);
    PutSorted(m, e);
  }

  method GenerateType(entityTypes: set<Name>, width: nat, d: nat) returns (r: Result<Type, Error>)
    ensures r.Ok? ==> IsGeneratedType(entityTypes, width, d, r.value)
    decreases d, 0
  {
    var choice: nat := *;
    var fails := DrawFails();
    if fails || (choice == 7 && entityTypes == {}) {
      return Err(OtherError);
    }
    match choice
    case 0 => r := Ok(TBool);
    case 1 => r := Ok(TLong);
    case 2 => r := Ok(TString);
    case 3 => r := Ok(TIpaddr);
    case 4 => r := Ok(TDecimal);
    case 5 => r := Ok(TDatetime);
    case 6 => r := Ok(TDuration);
    case 7 =>
      var name :| name in entityTypes;
      r := Ok(TEntity(name));
    case 8 =>
      if d == 0 {
        r := Ok(TRecord([]));
      } else {
        var element := GenerateType(entityTypes, width, d - 1);
        r := if element.Ok? then Ok(TSet(element.value)) else element;
      }
    case _ =>
      if d == 0 {
        r := Ok(TRecord([]));
      } else {
        r := GenerateRecordType(entityTypes, width, d - 1);
      }
  }

  /** A record whose attributes have types of depth at most `d`; a later attribute replaces one of its name. */
  method GenerateRecordType(entityTypes: set<Name>, width: nat, d: nat) returns (r: Result<Type, Error>)
    ensures r.Ok? ==> r.value.TRecord? && IsGeneratedType(entityTypes, width, d + 1, r.value)
    decreases d, 1
  {
    var n :| 0 <= n <= width;
    var m: FieldMap := [];
    for k := 0 to n
      invariant AreGeneratedFields(entityTypes, width, d, k, m)
    {
      var ty := GenerateType(entityTypes, width, d);
      if ty.Err? {
        return ty;
      }
      var required: bool, name: string := *, *;
      OneMoreField(entityTypes, width, d, k, m, Entry(name, (ty.value, required)));
      m := Put(m, Entry(name, (ty.value, required)));
    }
    forall i | 0 <= i < |m| ensures IsGeneratedType(entityTypes, width, d, m[i].value.0) {
      assert m[i] in m;
    }
    r := Ok(TRecord(FieldsOf(m)));
  }
}
