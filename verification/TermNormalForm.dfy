/** Which foreign terms the trip through the compiler leaves as they are. */
module TermNormalForm {
  import opened Wrappers
  import opened Numerals
  import opened OrderedCollections
  import opened TermConversion
  import opened TermRoundTrip

  // ---------- Normal terms ----------

  predicate NormalType(ty: F.TermType)
    decreases ty
  {
    match ty
    case OptionType(t) => NormalType(t)
    case SetType(t) => NormalType(t)
    case RecordType(rty) => SortedKeys(rty) && forall i | 0 <= i < |rty| :: NormalType(rty[i].value)
    case _ => true
  }

  predicate NormalOp(op: F.Op) {
    match op
    case UufOp(uuf) => NormalType(uuf.arg) && NormalType(uuf.out)
    case StringLike(pattern) => forall i | 0 <= i < |pattern| :: pattern[i].JustChar? ==> S.IsScalar(pattern[i].c)
    case _ => true
  }

  /** The shortest numeral of a number that fits in the width. */
  predicate NormalBitvec(bv: F.Bitvec) {
    && bv.width > 0
    && bv.val != "" && AllDigits(bv.val) && NoLeadingZero(bv.val)
    && ReadDigits(bv.val) < S.Pow2(bv.width)
  }

  predicate NormalCidr(cidr: F.Cidr, addrWidth: nat, prefixWidth: nat) {
    && NormalBitvec(cidr.addr) && cidr.addr.width == addrWidth
    && (cidr.prefix.Some? ==> NormalBitvec(cidr.prefix.value) && cidr.prefix.value.width == prefixWidth)
  }

  predicate NormalPrim(p: F.TermPrim) {
    match p
    case BitvecPrim(bv) => NormalBitvec(bv)
    case ExtPrim(Ipaddr(V4(cidr))) => NormalCidr(cidr, S.V4_ADDR_WIDTH, S.V4_PREFIX_WIDTH)
    case ExtPrim(Ipaddr(V6(cidr))) => NormalCidr(cidr, S.V6_ADDR_WIDTH, S.V6_PREFIX_WIDTH)
    case _ => true
  }

  /** Sets list their elements in the compiler's order, each once; records are sorted by key. */
  predicate Normal(less: S.Order, t: F.Term)
    decreases t
  {
    match t
    case App(op, args, ty) => NormalOp(op) && NormalType(ty) && forall i | 0 <= i < |args| :: Normal(less, args[i])
    case NoneOf(ty) => NormalType(ty)
    case Prim(p) => NormalPrim(p)
    case Record(fields) => SortedKeys(fields) && forall i | 0 <= i < |fields| :: Normal(less, fields[i].value)
    case Set(elts, ty) =>
      && NormalType(ty)
      && (forall i | 0 <= i < |elts| :: Normal(less, elts[i]))
      && TermsToSym(less, elts).Ok? && StrictlySorted(less, TermsToSym(less, elts).value)
    case SomeOf(term) => Normal(less, term)
    case Var(v) => NormalType(v.ty)
  }

  // ---------- Normal terms stay ----------

  lemma {:induction false} NormalTypeStays(ty: F.TermType)
    requires NormalType(ty)
    ensures TypeToFfi(TypeToSym(ty)) == Some(ty)
    decreases ty
  {
    match ty
    case OptionType(t) => NormalTypeStays(t);
    case SetType(t) => NormalTypeStays(t);
    case RecordType(rty) =>
      var es := seq(|rty|, i requires 0 <= i < |rty| => Entry(rty[i].key, TypeToSym(rty[i].value)));
      CollectSortedMap(es);
      assert TypeToSym(ty) == S.RecordType(es);
      forall i | 0 <= i < |rty| ensures TypeToFfi(es[i].value) == Some(rty[i].value) {
        NormalTypeStays(rty[i].value);
      }
      assert TypeToFfi(S.RecordType(es)).value.rty == rty;
    case _ =>
  }

  lemma {:induction false} NormalPatternStays(pattern: seq<F.PatElem>)
    requires forall i | 0 <= i < |pattern| :: pattern[i].JustChar? ==> S.IsScalar(pattern[i].c)
    ensures PatternToSym(pattern).Ok? && PatternToFfi(PatternToSym(pattern).value) == pattern
  {
    if pattern == [] {
    } else {
      NormalPatternStays(pattern[1..]);
      assert pattern == [pattern[0]] + pattern[1..];
    }
  }

  lemma NormalOpStays(op: F.Op)
    requires NormalOp(op)
    ensures OpToSym(op).Ok? && OpToFfi(OpToSym(op).value) == Some(op)
  {
    if op.UufOp? {
      NormalTypeStays(op.uuf.arg);
      NormalTypeStays(op.uuf.out);
    } else if op.StringLike? {
      NormalPatternStays(op.pattern);
    } else if IsForeignBitvecOp(op) {
      BitvecOpStays(op);
    } else {
      PlainOpStays(op);
    }
  }

  /** The operators on bitvectors that have no parameter. */
  predicate IsForeignBitvecOp(op: F.Op) {
    || op.Bvneg? || op.Bvadd? || op.Bvsub? || op.Bvmul? || op.Bvsdiv? || op.Bvudiv? || op.Bvsrem? || op.Bvsmod?
    || op.Bvurem? || op.Bvshl? || op.Bvlshr? || op.Bvslt? || op.Bvsle? || op.Bvult? || op.Bvule?
    || op.Bvnego? || op.Bvsaddo? || op.Bvssubo? || op.Bvsmulo?
  }

  lemma BitvecOpStays(op: F.Op)
    requires IsForeignBitvecOp(op)
    ensures OpToSym(op).Ok? && OpToFfi(OpToSym(op).value) == Some(op)
  {
  }

  lemma PlainOpStays(op: F.Op)
    requires !op.UufOp? && !op.StringLike? && !IsForeignBitvecOp(op)
    ensures OpToSym(op).Ok? && OpToFfi(OpToSym(op).value) == Some(op)
  {
  }

  lemma NormalBitvecStays(bv: F.Bitvec)
    requires NormalBitvec(bv)
    ensures BitvecToSym(bv).Ok? && BitvecToFfi(BitvecToSym(bv).value) == Some(bv)
    ensures BitvecToSym(bv).value.width == bv.width
  {
    ReadThenPrint(bv.val);
    OfSmallNat(bv.width, ReadDigits(bv.val));
  }

  lemma NormalPrimStays(p: F.TermPrim)
    requires NormalPrim(p)
    ensures PrimToSym(p).Ok? && PrimToFfi(PrimToSym(p).value) == Some(p)
  {
    match p
    case BitvecPrim(bv) => NormalBitvecStays(bv);
    case ExtPrim(Ipaddr(ip)) =>
      NormalBitvecStays(ip.cidr.addr);
      if ip.cidr.prefix.Some? {
        NormalBitvecStays(ip.cidr.prefix.value);
      }
    case _ =>
  }

  lemma {:induction false} NormalStays(less: S.Order, t: F.Term)
    requires StrictTotalOrder(less) && Normal(less, t)
    ensures ToSym(less, t).Ok? && ToFfi(ToSym(less, t).value) == Some(t)
    decreases t, 1
  {
    match t
    case App(_, _, _) => NormalAppStays(less, t);
    case NoneOf(ty) => NormalTypeStays(ty);
    case Prim(prim) => NormalPrimStays(prim);
    case Record(_) => NormalRecordStays(less, t);
    case Set(_, _) => NormalSetStays(less, t);
    case SomeOf(term) => NormalStays(less, term);
    case Var(v) => NormalTypeStays(v.ty);
  }

  lemma {:induction false} NormalAppStays(less: S.Order, t: F.Term)
    requires StrictTotalOrder(less) && t.App? && Normal(less, t)
    ensures ToSym(less, t).Ok? && ToFfi(ToSym(less, t).value) == Some(t)
    decreases t, 0
  {
    NormalOpStays(t.op);
    NormalTermsStay(less, t.args);
    NormalTypeStays(t.retTy);
  }

  lemma {:induction false} NormalRecordStays(less: S.Order, t: F.Term)
    requires StrictTotalOrder(less) && t.Record? && Normal(less, t)
    ensures ToSym(less, t).Ok? && ToFfi(ToSym(less, t).value) == Some(t)
    decreases t, 0
  {
    NormalFieldsStay(less, t.fields);
    CollectSortedMap(FieldsToSym(less, t.fields).value);
  }

  lemma {:induction false} NormalSetStays(less: S.Order, t: F.Term)
    requires StrictTotalOrder(less) && t.Set? && Normal(less, t)
    ensures ToSym(less, t).Ok? && ToFfi(ToSym(less, t).value) == Some(t)
    decreases t, 0
  {
    NormalTermsStay(less, t.elts);
    CollectSortedSet(less, TermsToSym(less, t.elts).value);
    NormalTypeStays(t.eltsTy);
  }

  lemma {:induction false} NormalTermsStay(less: S.Order, ts: seq<F.Term>)
    requires StrictTotalOrder(less) && forall i | 0 <= i < |ts| :: Normal(less, ts[i])
    ensures TermsToSym(less, ts).Ok? && TermsToFfi(TermsToSym(less, ts).value) == Some(ts)
    decreases ts, 0
  {
    if ts == [] {
    } else {
      NormalStays(less, ts[0]);
      NormalTermsStay(less, ts[1..]);
      assert ts == [ts[0]] + ts[1..];
    }
  }

  lemma {:induction false} NormalFieldsStay(less: S.Order, fields: seq<Entry<F.Term>>)
    requires StrictTotalOrder(less) && SortedKeys(fields)
      && forall i | 0 <= i < |fields| :: Normal(less, fields[i].value)
    ensures FieldsToSym(less, fields).Ok? && FieldsToFfi(FieldsToSym(less, fields).value) == Some(fields)
    ensures var r := FieldsToSym(less, fields).value;
            && |r| == |fields| && (forall i | 0 <= i < |r| :: r[i].key == fields[i].key) && SortedKeys(r)
    decreases fields, 0
  {
    if fields == [] {
    } else {
      NormalStays(less, fields[0].value);
      NormalFieldsStay(less, fields[1..]);
      assert fields == [fields[0]] + fields[1..];
    }
  }

  // ---------- What comes out is normal ----------

  lemma {:induction false} TypeComesOutNormal(ty: S.TermType)
    requires S.ValidType(ty) && S.TypeFits(ty)
    ensures NormalType(TypeToFfi(ty).value)
    decreases ty
  {
    match ty
    case OptionType(t) => TypeComesOutNormal(t);
    case SetType(t) => TypeComesOutNormal(t);
    case RecordType(rty) =>
      forall i | 0 <= i < |rty| ensures NormalType(TypeToFfi(rty[i].value).value) {
        TypeComesOutNormal(rty[i].value);
      }
    case _ =>
  }

  lemma BitvecComesOutNormal(bv: S.BitVec)
    requires S.ValidBitVec(bv) && bv.width < 0x100
    ensures NormalBitvec(BitvecToFfi(bv).value)
  {
    PrintThenRead(bv.value);
  }

  lemma PrimComesOutNormal(p: S.TermPrim)
    requires S.ValidPrim(p) && S.PrimFits(p) && PrimToFfi(p).Some?
    ensures NormalPrim(PrimToFfi(p).value)
  {
    match p
    case BitvecPrim(bv) => BitvecComesOutNormal(bv);
    case ExtPrim(Ipaddr(ip)) =>
      BitvecComesOutNormal(ip.cidr.addr);
      if ip.cidr.prefix.Some? {
        BitvecComesOutNormal(ip.cidr.prefix.value);
      }
    case _ =>
  }

  lemma OpComesOutNormal(op: S.Op)
    requires S.ValidOp(op) && S.OpFits(op) && OpToFfi(op).Some?
    ensures NormalOp(OpToFfi(op).value)
  {
    if op.UufOp? {
      TypeComesOutNormal(op.uuf.arg);
      TypeComesOutNormal(op.uuf.out);
    }
  }

  lemma {:induction false} ComesOutNormal(less: S.Order, t: S.Term)
    requires StrictTotalOrder(less) && S.Valid(less, t) && S.Fits(t) && ToFfi(t).Some?
    ensures Normal(less, ToFfi(t).value)
    decreases t, 1
  {
    match t
    case App(op, args, retTy) =>
      TermsComeOutNormal(less, args);
      OpThereAndBack(op);
      OpComesOutNormal(op);
      TypeComesOutNormal(retTy);
    case NoneOf(ty) => TypeComesOutNormal(ty);
    case Prim(prim) => PrimComesOutNormal(prim);
    case Record(fields) => FieldsComeOutNormal(less, fields);
    case Set(elts, eltsTy) =>
      TermsComeOutNormal(less, elts);
      TermsThereAndBack(less, elts);
      TypeComesOutNormal(eltsTy);
    case SomeOf(term) => ComesOutNormal(less, term);
    case Var(v) => TypeComesOutNormal(v.ty);
  }

  lemma {:induction false} TermsComeOutNormal(less: S.Order, ts: seq<S.Term>)
    requires StrictTotalOrder(less) && TermsToFfi(ts).Some?
    requires forall i | 0 <= i < |ts| :: S.Valid(less, ts[i]) && S.Fits(ts[i])
    ensures forall i | 0 <= i < |TermsToFfi(ts).value| :: Normal(less, TermsToFfi(ts).value[i])
    decreases ts, 0
  {
    if ts == [] {
    } else {
      ComesOutNormal(less, ts[0]);
      TermsComeOutNormal(less, ts[1..]);
    }
  }

  lemma {:induction false} FieldsComeOutNormal(less: S.Order, fields: seq<Entry<S.Term>>)
    requires StrictTotalOrder(less) && FieldsToFfi(fields).Some? && SortedKeys(fields)
    requires forall i | 0 <= i < |fields| :: S.Valid(less, fields[i].value) && S.Fits(fields[i].value)
    ensures var r := FieldsToFfi(fields).value;
            && |r| == |fields| && (forall i | 0 <= i < |r| :: r[i].key == fields[i].key && Normal(less, r[i].value))
            && SortedKeys(r)
    decreases fields, 0
  {
    if fields == [] {
    } else {
      ComesOutNormal(less, fields[0].value);
      FieldsComeOutNormal(less, fields[1..]);
    }
  }

  /** The trip leaves a term as it is exactly if the term is normal, and it always ends in a normal term. */
  lemma NormalizeFixesExactlyNormalTerms(less: S.Order, t: F.Term)
    requires StrictTotalOrder(less)
    ensures Normal(less, t) <==> Normalize(less, t) == Ok(t)
    ensures Normalize(less, t).Ok? ==> Normal(less, Normalize(less, t).value)
  {
    if Normal(less, t) {
      NormalStays(less, t);
    }
    if ToSym(less, t).Ok? {
      Arrives(less, t);
      ThereAndBack(less, ToSym(less, t).value);
      ComesOutNormal(less, ToSym(less, t).value);
    }
  }
}
