/** Terms of the compiler survive the trip over the boundary and back; foreign terms are brought into a normal form. */
module TermRoundTrip {
  import opened Wrappers
  import opened Numerals
  import opened OrderedCollections
  import opened TermConversion

  // ---------- Compiler to boundary to compiler ----------

  lemma {:induction false} TypeThereAndBack(ty: S.TermType)
    requires S.ValidType(ty) && S.TypeFits(ty)
    ensures TypeToSym(TypeToFfi(ty).value) == ty
    decreases ty
  {
    match ty
    case OptionType(t) => TypeThereAndBack(t);
    case SetType(t) => TypeThereAndBack(t);
    case RecordType(rty) =>
      var f := TypeToFfi(ty).value.rty;
      var back := seq(|f|, i requires 0 <= i < |f| => Entry(f[i].key, TypeToSym(f[i].value)));
      forall i | 0 <= i < |rty| ensures back[i] == rty[i] {
        TypeThereAndBack(rty[i].value);
      }
      assert back == rty;
      CollectSortedMap(rty);
    case _ =>
  }

  lemma {:induction false} PatternThereAndBack(pattern: seq<S.PatElem>)
    requires forall i | 0 <= i < |pattern| :: pattern[i].Char? ==> S.IsScalar(pattern[i].c)
    ensures PatternToSym(PatternToFfi(pattern)) == Ok(pattern)
  {
    if pattern == [] {
    } else {
      PatternThereAndBack(pattern[1..]);
      assert PatternToFfi(pattern)[1..] == PatternToFfi(pattern[1..]);
      assert pattern == [pattern[0]] + pattern[1..];
    }
  }

  lemma OpThereAndBack(op: S.Op)
    requires S.ValidOp(op) && S.OpFits(op)
    ensures OpToFfi(op).Some? && OpToSym(OpToFfi(op).value) == Ok(op)
  {
    if op.UufOp? {
      TypeThereAndBack(op.uuf.arg);
      TypeThereAndBack(op.uuf.out);
    } else if op.StringLike? {
      PatternThereAndBack(op.pattern);
    } else if IsBitvecOp(op) {
      BitvecOpThereAndBack(op);
    } else {
      PlainOpThereAndBack(op);
    }
  }

  /** The operators on bitvectors that have no parameter. */
  predicate IsBitvecOp(op: S.Op) {
    || op.Bvneg? || op.Bvadd? || op.Bvsub? || op.Bvmul? || op.Bvsdiv? || op.Bvudiv? || op.Bvsrem? || op.Bvsmod?
    || op.Bvurem? || op.Bvshl? || op.Bvlshr? || op.Bvslt? || op.Bvsle? || op.Bvult? || op.Bvule?
    || op.Bvnego? || op.Bvsaddo? || op.Bvssubo? || op.Bvsmulo?
  }

  lemma BitvecOpThereAndBack(op: S.Op)
    requires IsBitvecOp(op)
    ensures OpToFfi(op).Some? && OpToSym(OpToFfi(op).value) == Ok(op)
  {
  }

  lemma PlainOpThereAndBack(op: S.Op)
    requires !op.UufOp? && !op.StringLike? && !IsBitvecOp(op) && (op.ZeroExtend? ==> op.bits < 0x100)
    ensures OpToFfi(op).Some? && OpToSym(OpToFfi(op).value) == Ok(op)
  {
  }

  lemma OfSmallNat(width: S.NonZeroU32, n: nat)
    requires n < S.Pow2(width)
    ensures S.OfNat(width, n) == S.BitVec(width, n)
  {
    SmallRemainder(n, S.Pow2(width));
  }

  lemma SmallRemainder(n: nat, m: nat)
    requires n < m
    ensures n % m == n
  {
  }

  lemma BitvecThereAndBack(bv: S.BitVec)
    requires S.ValidBitVec(bv) && bv.width < 0x100
    ensures BitvecToFfi(bv).Some? && BitvecToSym(BitvecToFfi(bv).value) == Ok(bv)
  {
    PrintThenRead(bv.value);
    OfSmallNat(bv.width, bv.value);
  }

  lemma CidrThereAndBack(cidr: S.Cidr, addrWidth: nat, prefixWidth: nat)
    requires S.ValidCidr(cidr, addrWidth, prefixWidth) && addrWidth < 0x100 && prefixWidth < 0x100
    ensures CidrToFfi(cidr).Some? && CidrToSym(CidrToFfi(cidr).value, addrWidth, prefixWidth) == Ok(cidr)
  {
    BitvecThereAndBack(cidr.addr);
    if cidr.prefix.Some? {
      BitvecThereAndBack(cidr.prefix.value);
    }
  }

  lemma PrimThereAndBack(p: S.TermPrim)
    requires S.ValidPrim(p) && S.PrimFits(p)
    ensures PrimToFfi(p).Some? && PrimToSym(PrimToFfi(p).value) == Ok(p)
  {
    match p
    case BitvecPrim(bv) => BitvecThereAndBack(bv);
    case ExtPrim(Ipaddr(V4(cidr))) => CidrThereAndBack(cidr, S.V4_ADDR_WIDTH, S.V4_PREFIX_WIDTH);
    case ExtPrim(Ipaddr(V6(cidr))) => CidrThereAndBack(cidr, S.V6_ADDR_WIDTH, S.V6_PREFIX_WIDTH);
    case _ =>
  }

  /** A term whose widths fit in a byte comes back as it was. */
  lemma {:induction false} ThereAndBack(less: S.Order, t: S.Term)
    requires StrictTotalOrder(less) && S.Valid(less, t) && S.Fits(t)
    ensures ToFfi(t).Some? && ToSym(less, ToFfi(t).value) == Ok(t)
    decreases t, 1
  {
    match t
    case App(_, _, _) => AppThereAndBack(less, t);
    case NoneOf(ty) => TypeThereAndBack(ty);
    case Prim(prim) => PrimThereAndBack(prim);
    case Record(_) => RecordThereAndBack(less, t);
    case Set(_, _) => SetThereAndBack(less, t);
    case SomeOf(term) => ThereAndBack(less, term);
    case Var(v) => TypeThereAndBack(v.ty);
  }

  lemma {:induction false} AppThereAndBack(less: S.Order, t: S.Term)
    requires StrictTotalOrder(less) && t.App? && S.Valid(less, t) && S.Fits(t)
    ensures ToFfi(t).Some? && ToSym(less, ToFfi(t).value) == Ok(t)
    decreases t, 0
  {
    OpThereAndBack(t.op);
    TermsThereAndBack(less, t.args);
    TypeThereAndBack(t.retTy);
  }

  lemma {:induction false} RecordThereAndBack(less: S.Order, t: S.Term)
    requires StrictTotalOrder(less) && t.Record? && S.Valid(less, t) && S.Fits(t)
    ensures ToFfi(t).Some? && ToSym(less, ToFfi(t).value) == Ok(t)
    decreases t, 0
  {
    FieldsThereAndBack(less, t.fields);
    CollectSortedMap(t.fields);
    RecordOfFields(less, t.fields, FieldsToFfi(t.fields).value);
  }

  lemma RecordOfFields(less: S.Order, fields: seq<Entry<S.Term>>, foreign: seq<Entry<F.Term>>)
    requires FieldsToFfi(fields) == Some(foreign) && FieldsToSym(less, foreign) == Ok(fields)
      && CollectMap(fields) == fields
    ensures ToFfi(S.Record(fields)) == Some(F.Record(foreign)) && ToSym(less, F.Record(foreign)) == Ok(S.Record(fields))
  {
  }

  lemma {:induction false} SetThereAndBack(less: S.Order, t: S.Term)
    requires StrictTotalOrder(less) && t.Set? && S.Valid(less, t) && S.Fits(t)
    ensures ToFfi(t).Some? && ToSym(less, ToFfi(t).value) == Ok(t)
    decreases t, 0
  {
    TermsThereAndBack(less, t.elts);
    CollectSortedSet(less, t.elts);
    TypeThereAndBack(t.eltsTy);
  }

  lemma {:induction false} TermsThereAndBack(less: S.Order, ts: seq<S.Term>)
    requires StrictTotalOrder(less) && forall i | 0 <= i < |ts| :: S.Valid(less, ts[i]) && S.Fits(ts[i])
    ensures TermsToFfi(ts).Some? && TermsToSym(less, TermsToFfi(ts).value) == Ok(ts)
    decreases ts, 0
  {
    if ts == [] {
    } else {
      ThereAndBack(less, ts[0]);
      TermsThereAndBack(less, ts[1..]);
      assert TermsToFfi(ts).value[1..] == TermsToFfi(ts[1..]).value;
      assert ts == [ts[0]] + ts[1..];
    }
  }

  lemma {:induction false} FieldsThereAndBack(less: S.Order, fields: seq<Entry<S.Term>>)
    requires StrictTotalOrder(less)
    requires forall i | 0 <= i < |fields| :: S.Valid(less, fields[i].value) && S.Fits(fields[i].value)
    ensures FieldsToFfi(fields).Some? && FieldsToSym(less, FieldsToFfi(fields).value) == Ok(fields)
    decreases fields, 0
  {
    if fields == [] {
    } else {
      ThereAndBack(less, fields[0].value);
      FieldsThereAndBack(less, fields[1..]);
      assert FieldsToFfi(fields).value[1..] == FieldsToFfi(fields[1..]).value;
      assert fields == [fields[0]] + fields[1..];
    }
  }

  /** The conversion to the boundary panics exactly on widths that do not fit. */
  lemma {:induction false} PanicsIffTooWide(t: S.Term)
    ensures ToFfi(t).Some? <==> S.Fits(t)
    decreases t, 1
  {
    match t
    case App(op, args, retTy) => TermsPanicIffTooWide(args);
    case Record(fields) => FieldsPanicIffTooWide(fields);
    case Set(elts, eltsTy) => TermsPanicIffTooWide(elts);
    case SomeOf(term) => PanicsIffTooWide(term);
    case _ =>
  }

  lemma {:induction false} TermsPanicIffTooWide(ts: seq<S.Term>)
    ensures TermsToFfi(ts).Some? <==> forall i | 0 <= i < |ts| :: S.Fits(ts[i])
    decreases ts, 0
  {
    if ts == [] {
    } else {
      PanicsIffTooWide(ts[0]);
      TermsPanicIffTooWide(ts[1..]);
      assert forall i | 0 < i < |ts| :: ts[i] == ts[1..][i - 1];
    }
  }

  lemma {:induction false} FieldsPanicIffTooWide(fields: seq<Entry<S.Term>>)
    ensures FieldsToFfi(fields).Some? <==> forall i | 0 <= i < |fields| :: S.Fits(fields[i].value)
    decreases fields, 0
  {
    if fields == [] {
    } else {
      PanicsIffTooWide(fields[0].value);
      FieldsPanicIffTooWide(fields[1..]);
      assert forall i | 0 < i < |fields| :: fields[i] == fields[1..][i - 1];
    }
  }

  // ---------- What arrives in the compiler ----------

  lemma {:induction false} TypeArrives(ty: F.TermType)
    ensures S.ValidType(TypeToSym(ty)) && S.TypeFits(TypeToSym(ty))
    decreases ty
  {
    match ty
    case OptionType(t) => TypeArrives(t);
    case SetType(t) => TypeArrives(t);
    case RecordType(rty) =>
      var es := seq(|rty|, i requires 0 <= i < |rty| => Entry(rty[i].key, TypeToSym(rty[i].value)));
      CollectMapSorted(es);
      forall e | e in CollectMap(es) ensures S.ValidType(e.value) && S.TypeFits(e.value) {
        var i :| 0 <= i < |es| && es[i] == e;
        TypeArrives(rty[i].value);
      }
    case _ =>
  }

  lemma {:induction false} PatternArrives(pattern: seq<F.PatElem>)
    requires PatternToSym(pattern).Ok?
    ensures forall i | 0 <= i < |PatternToSym(pattern).value| ::
      PatternToSym(pattern).value[i].Char? ==> S.IsScalar(PatternToSym(pattern).value[i].c)
  {
    if pattern == [] {
    } else {
      PatternArrives(pattern[1..]);
    }
  }

  lemma OpArrives(op: F.Op)
    requires OpToSym(op).Ok?
    ensures S.ValidOp(OpToSym(op).value) && S.OpFits(OpToSym(op).value)
  {
    match op
    case UufOp(uuf) =>
      TypeArrives(uuf.arg);
      TypeArrives(uuf.out);
    case StringLike(pattern) => PatternArrives(pattern);
    case _ =>
  }

  lemma BitvecArrives(bv: F.Bitvec)
    requires BitvecToSym(bv).Ok?
    ensures S.ValidBitVec(BitvecToSym(bv).value) && BitvecToSym(bv).value.width < 0x100
  {
  }

  lemma CidrArrives(cidr: F.Cidr, addrWidth: nat, prefixWidth: nat)
    requires CidrToSym(cidr, addrWidth, prefixWidth).Ok?
    ensures S.ValidCidr(CidrToSym(cidr, addrWidth, prefixWidth).value, addrWidth, prefixWidth)
  {
    BitvecArrives(cidr.addr);
    if cidr.prefix.Some? {
      BitvecArrives(cidr.prefix.value);
    }
  }

  lemma PrimArrives(p: F.TermPrim)
    requires PrimToSym(p).Ok?
    ensures S.ValidPrim(PrimToSym(p).value) && S.PrimFits(PrimToSym(p).value)
  {
    match p
    case BitvecPrim(bv) => BitvecArrives(bv);
    case ExtPrim(Ipaddr(V4(cidr))) => CidrArrives(cidr, S.V4_ADDR_WIDTH, S.V4_PREFIX_WIDTH);
    case ExtPrim(Ipaddr(V6(cidr))) => CidrArrives(cidr, S.V6_ADDR_WIDTH, S.V6_PREFIX_WIDTH);
    case _ =>
  }

  /** A converted term is one the compiler's types can hold, with widths that fit in a byte. */
  lemma {:induction false} Arrives(less: S.Order, t: F.Term)
    requires StrictTotalOrder(less) && ToSym(less, t).Ok?
    ensures S.Valid(less, ToSym(less, t).value) && S.Fits(ToSym(less, t).value)
    decreases t, 1
  {
    match t
    case App(op, args, retTy) =>
      OpArrives(op);
      TermsArrive(less, args);
      TypeArrives(retTy);
    case NoneOf(ty) => TypeArrives(ty);
    case Prim(prim) => PrimArrives(prim);
    case Record(_) => RecordArrives(less, t);
    case Set(_, _) => SetArrives(less, t);
    case SomeOf(term) => Arrives(less, term);
    case Var(v) => TypeArrives(v.ty);
  }

  lemma {:induction false} RecordArrives(less: S.Order, t: F.Term)
    requires StrictTotalOrder(less) && t.Record? && ToSym(less, t).Ok?
    ensures S.Valid(less, ToSym(less, t).value) && S.Fits(ToSym(less, t).value)
    decreases t, 0
  {
    FieldsArrive(less, t.fields);
    var es := FieldsToSym(less, t.fields).value;
    CollectMapSorted(es);
    var r := CollectMap(es);
    forall i | 0 <= i < |r| ensures S.Valid(less, r[i].value) && S.Fits(r[i].value) {
      assert r[i] in r;
    }
  }

  lemma {:induction false} SetArrives(less: S.Order, t: F.Term)
    requires StrictTotalOrder(less) && t.Set? && ToSym(less, t).Ok?
    ensures S.Valid(less, ToSym(less, t).value) && S.Fits(ToSym(less, t).value)
    decreases t, 0
  {
    TermsArrive(less, t.elts);
    TypeArrives(t.eltsTy);
    var es := TermsToSym(less, t.elts).value;
    CollectSetSorted(less, es);
    var r := CollectSet(less, es);
    forall i | 0 <= i < |r| ensures S.Valid(less, r[i]) && S.Fits(r[i]) {
      assert r[i] in r && r[i] in es;
    }
  }

  lemma {:induction false} TermsArrive(less: S.Order, ts: seq<F.Term>)
    requires StrictTotalOrder(less) && TermsToSym(less, ts).Ok?
    ensures forall t | t in TermsToSym(less, ts).value :: S.Valid(less, t) && S.Fits(t)
    decreases ts, 0
  {
    if ts == [] {
    } else {
      Arrives(less, ts[0]);
      TermsArrive(less, ts[1..]);
    }
  }

  lemma {:induction false} FieldsArrive(less: S.Order, fields: seq<Entry<F.Term>>)
    requires StrictTotalOrder(less) && FieldsToSym(less, fields).Ok?
    ensures forall e | e in FieldsToSym(less, fields).value :: S.Valid(less, e.value) && S.Fits(e.value)
    decreases fields, 0
  {
    if fields == [] {
    } else {
      Arrives(less, fields[0].value);
      FieldsArrive(less, fields[1..]);
    }
  }

  // ---------- Boundary to compiler to boundary ----------

  /** What a foreign term becomes on its way into the compiler and out again. */
  function Normalize(less: S.Order, t: F.Term): Result<F.Term, Error> {
    var s :- ToSym(less, t);
    match ToFfi(s)
    case Some(f) => Ok(f)
    case None => Err(UnexpectedWidth)
  }

  /** Coming out again never panics, loses nothing, and a second trip changes nothing. */
  lemma NormalizeIsIdempotent(less: S.Order, t: F.Term)
    requires StrictTotalOrder(less)
    ensures Normalize(less, t).Ok? <==> ToSym(less, t).Ok?
    ensures Normalize(less, t).Ok? ==>
              && ToSym(less, Normalize(less, t).value) == ToSym(less, t)
              && Normalize(less, Normalize(less, t).value) == Normalize(less, t)
  {
    if ToSym(less, t).Ok? {
      Arrives(less, t);
      ThereAndBack(less, ToSym(less, t).value);
    }
  }
}
