/** The conversions between the two forms of symbolic terms, in both directions. */
module TermConversion {
  import opened Wrappers
  import opened Numerals
  import opened OrderedCollections
  import F = FfiTerms
  import S = SymTerms

  datatype Error = CharConversion | ParseBigInt | ZeroWidthBV | UnexpectedWidth

  // ---------- From the foreign form ----------

  function ExtTypeToSym(x: F.ExtType): S.ExtType {
    match x
    case IpAddrType => S.IpAddrType
    case DecimalType => S.DecimalType
    case DatetimeType => S.DateTimeType
    case DurationType => S.DurationType
  }

  function TypeToSym(ty: F.TermType): S.TermType
    decreases ty
  {
    match ty
    case OptionType(t) => S.OptionType(TypeToSym(t))
    case PrimType(BitvecType(n)) => S.BitvecType(n)
    case PrimType(BoolType) => S.BoolType
    case PrimType(EntityType(ety)) => S.EntityType(ety)
    case PrimType(ExtensionType(xty)) => S.ExtensionType(ExtTypeToSym(xty))
    case PrimType(StringType) => S.StringType
    case RecordType(rty) =>
      S.RecordType(CollectMap(seq(|rty|, i requires 0 <= i < |rty| => Entry(rty[i].key, TypeToSym(rty[i].value)))))
    case SetType(t) => S.SetType(TypeToSym(t))
  }

  function ExtOpToSym(op: F.ExtOp): S.ExtOp {
    match op
    case DecimalVal => S.DecimalVal
    case IPaddrIsV4 => S.IpaddrIsV4
    case IPaddrAddrV4 => S.IpaddrAddrV4
    case IPaddrPrefixV4 => S.IpaddrPrefixV4
    case IPaddrAddrV6 => S.IpaddrAddrV6
    case IPaddrPrefixV6 => S.IpaddrPrefixV6
    case DatetimeVal => S.DatetimeVal
    case DatetimeOfBitVec => S.DatetimeOfBitVec
    case DurationVal => S.DurationVal
    case DurationOfBitVec => S.DurationOfBitVec
  }

  function PatternToSym(pattern: seq<F.PatElem>): Result<seq<S.PatElem>, Error> {
    if pattern == [] then Ok([])
    else
      var first :- match pattern[0]
                   case JustChar(c) => if S.IsScalar(c) then Ok(S.Char(c)) else Err(CharConversion)
                   case Star => Ok(S.Wildcard);
      var rest :- PatternToSym(pattern[1..]);
      Ok([first] + rest)
  }

  function OpToSym(op: F.Op): Result<S.Op, Error> {
    match op
    case Not => Ok(S.Not)
    case And => Ok(S.And)
    case Or => Ok(S.Or)
    case Eq => Ok(S.Eq)
    case Ite => Ok(S.Ite)
    case UufOp(uuf) => Ok(S.UufOp(S.Uuf(uuf.id, TypeToSym(uuf.arg), TypeToSym(uuf.out))))
    case Bvneg => Ok(S.Bvneg)
    case Bvadd => Ok(S.Bvadd)
    case Bvsub => Ok(S.Bvsub)
    case Bvmul => Ok(S.Bvmul)
    case Bvsdiv => Ok(S.Bvsdiv)
    case Bvudiv => Ok(S.Bvudiv)
    case Bvsrem => Ok(S.Bvsrem)
    case Bvsmod => Ok(S.Bvsmod)
    case Bvurem => Ok(S.Bvurem)
    case Bvshl => Ok(S.Bvshl)
    case Bvlshr => Ok(S.Bvlshr)
    case Bvslt => Ok(S.Bvslt)
    case Bvsle => Ok(S.Bvsle)
    case Bvult => Ok(S.Bvult)
    case Bvule => Ok(S.Bvule)
    case Bvnego => Ok(S.Bvnego)
    case Bvsaddo => Ok(S.Bvsaddo)
    case Bvssubo => Ok(S.Bvssubo)
    case Bvsmulo => Ok(S.Bvsmulo)
    case ZeroExtend(bits) => Ok(S.ZeroExtend(bits))
    case SetMember => Ok(S.SetMember)
    case SetSubset => Ok(S.SetSubset)
    case SetInter => Ok(S.SetInter)
    case OptionGet => Ok(S.OptionGet)
    case RecordGet(attr) => Ok(S.RecordGet(attr))
    case StringLike(pattern) =>
      var p :- PatternToSym(pattern);
      Ok(S.StringLike(p))
    case ExtensionOp(xop) => Ok(S.ExtensionOp(ExtOpToSym(xop)))
  }

  function BitvecToSym(bv: F.Bitvec): Result<S.BitVec, Error> {
    if bv.width == 0 then Err(ZeroWidthBV)
    else
      match Read10(bv.val)
      case Some(n) => Ok(S.OfNat(bv.width, n))
      case None => Err(ParseBigInt)
  }

  /** The address is converted and its width checked, then the prefix. */
  function CidrToSym(cidr: F.Cidr, addrWidth: nat, prefixWidth: nat): Result<S.Cidr, Error> {
    var addr :- BitvecToSym(cidr.addr);
    if addr.width != addrWidth then Err(UnexpectedWidth)
    else
      match cidr.prefix
      case None => Ok(S.Cidr(addr, None))
      case Some(bv) =>
        var prefix :- BitvecToSym(bv);
        if prefix.width != prefixWidth then Err(UnexpectedWidth) else Ok(S.Cidr(addr, Some(prefix)))
  }

  function ExtToSym(ext: F.Ext): Result<S.Ext, Error> {
    match ext
    case Datetime(dt) => Ok(S.Datetime(dt))
    case Duration(dur) => Ok(S.Duration(dur))
    case Decimal(d) => Ok(S.Decimal(d))
    case Ipaddr(V4(cidr)) =>
      var c :- CidrToSym(cidr, S.V4_ADDR_WIDTH, S.V4_PREFIX_WIDTH);
      Ok(S.Ipaddr(S.V4(c)))
    case Ipaddr(V6(cidr)) =>
      var c :- CidrToSym(cidr, S.V6_ADDR_WIDTH, S.V6_PREFIX_WIDTH);
      Ok(S.Ipaddr(S.V6(c)))
  }

  function PrimToSym(p: F.TermPrim): Result<S.TermPrim, Error> {
    match p
    case BitvecPrim(bv) =>
      var b :- BitvecToSym(bv);
      Ok(S.BitvecPrim(b))
    case Bool(b) => Ok(S.Bool(b))
    case Entity(uid) => Ok(S.Entity(S.EntityUid(uid.ty, uid.eid)))
    case ExtPrim(ext) =>
      var x :- ExtToSym(ext);
      Ok(S.ExtPrim(x))
    case String(s) => Ok(S.String(s))
  }

  /** Sets are collected in the order `less` of the compiler's terms; records by key, the last entry winning. */
  function ToSym(less: S.Order, t: F.Term): Result<S.Term, Error>
    decreases t, 1
  {
    match t
    case App(op, args, retTy) =>
      var o :- OpToSym(op);
      var a :- TermsToSym(less, args);
      Ok(S.App(o, a, TypeToSym(retTy)))
    case NoneOf(ty) => Ok(S.NoneOf(TypeToSym(ty)))
    case Prim(prim) =>
      var p :- PrimToSym(prim);
      Ok(S.Prim(p))
    case Record(fields) =>
      var r :- FieldsToSym(less, fields);
      Ok(S.Record(CollectMap(r)))
    case Set(elts, eltsTy) =>
      var e :- TermsToSym(less, elts);
      Ok(S.Set(CollectSet(less, e), TypeToSym(eltsTy)))
    case SomeOf(term) =>
      var x :- ToSym(less, term);
      Ok(S.SomeOf(x))
    case Var(v) => Ok(S.Var(S.TermVar(v.id, TypeToSym(v.ty))))
  }

  function TermsToSym(less: S.Order, ts: seq<F.Term>): Result<seq<S.Term>, Error>
    decreases ts, 0
  {
    if ts == [] then Ok([])
    else
      var first :- ToSym(less, ts[0]);
      var rest :- TermsToSym(less, ts[1..]);
      Ok([first] + rest)
  }

  function FieldsToSym(less: S.Order, fields: seq<Entry<F.Term>>): Result<seq<Entry<S.Term>>, Error>
    decreases fields, 0
  {
    if fields == [] then Ok([])
    else
      var first :- ToSym(less, fields[0].value);
      var rest :- FieldsToSym(less, fields[1..]);
      Ok([Entry(fields[0].key, first)] + rest)
  }

  // ---------- To the foreign form; None where a width does not fit in a byte, which panics ----------

  function ExtTypeToFfi(x: S.ExtType): F.ExtType {
    match x
    case IpAddrType => F.IpAddrType
    case DecimalType => F.DecimalType
    case DateTimeType => F.DatetimeType
    case DurationType => F.DurationType
  }

  function TypeToFfi(ty: S.TermType): (r: Option<F.TermType>)
    ensures r.Some? <==> S.TypeFits(ty)
    decreases ty
  {
    match ty
    case OptionType(t) =>
      (match TypeToFfi(t)
       case Some(x) => Some(F.OptionType(x))
       case None => None)
    case BitvecType(n) => if n < 0x100 then Some(F.PrimType(F.BitvecType(n))) else None
    case BoolType => Some(F.PrimType(F.BoolType))
    case EntityType(ety) => Some(F.PrimType(F.EntityType(ety)))
    case ExtensionType(xty) => Some(F.PrimType(F.ExtensionType(ExtTypeToFfi(xty))))
    case StringType => Some(F.PrimType(F.StringType))
    case RecordType(rty) =>
      if forall i | 0 <= i < |rty| :: TypeToFfi(rty[i].value).Some? then
        Some(F.RecordType(seq(|rty|, i requires 0 <= i < |rty| => Entry(rty[i].key, TypeToFfi(rty[i].value).value))))
      else None
    case SetType(t) =>
      (match TypeToFfi(t)
       case Some(x) => Some(F.SetType(x))
       case None => None)
  }

  function ExtOpToFfi(op: S.ExtOp): F.ExtOp {
    match op
    case DatetimeOfBitVec => F.DatetimeOfBitVec
    case DatetimeVal => F.DatetimeVal
    case DecimalVal => F.DecimalVal
    case DurationOfBitVec => F.DurationOfBitVec
    case DurationVal => F.DurationVal
    case IpaddrAddrV4 => F.IPaddrAddrV4
    case IpaddrAddrV6 => F.IPaddrAddrV6
    case IpaddrIsV4 => F.IPaddrIsV4
    case IpaddrPrefixV4 => F.IPaddrPrefixV4
    case IpaddrPrefixV6 => F.IPaddrPrefixV6
  }

  function PatElemToFfi(p: S.PatElem): F.PatElem {
    match p
    case Char(c) => F.JustChar(c)
    case Wildcard => F.Star
  }

  function PatternToFfi(pattern: seq<S.PatElem>): seq<F.PatElem> {
    seq(|pattern|, i requires 0 <= i < |pattern| => PatElemToFfi(pattern[i]))
  }

  function OpToFfi(op: S.Op): Option<F.Op> {
    match op
    case And => Some(F.And)
    case Or => Some(F.Or)
    case Not => Some(F.Not)
    case Eq => Some(F.Eq)
    case Ite => Some(F.Ite)
    case Bvadd => Some(F.Bvadd)
    case Bvsaddo => Some(F.Bvsaddo)
    case Bvlshr => Some(F.Bvlshr)
    case Bvmul => Some(F.Bvmul)
    case Bvneg => Some(F.Bvneg)
    case Bvnego => Some(F.Bvnego)
    case Bvsdiv => Some(F.Bvsdiv)
    case Bvshl => Some(F.Bvshl)
    case Bvsle => Some(F.Bvsle)
    case Bvsmod => Some(F.Bvsmod)
    case Bvslt => Some(F.Bvslt)
    case Bvsub => Some(F.Bvsub)
    case Bvsmulo => Some(F.Bvsmulo)
    case Bvsrem => Some(F.Bvsrem)
    case Bvssubo => Some(F.Bvssubo)
    case Bvudiv => Some(F.Bvudiv)
    case Bvule => Some(F.Bvule)
    case Bvult => Some(F.Bvult)
    case Bvurem => Some(F.Bvurem)
    case UufOp(uuf) =>
      (match (TypeToFfi(uuf.arg), TypeToFfi(uuf.out))
       case (Some(arg), Some(out)) => Some(F.UufOp(F.Uuf(uuf.id, arg, out)))
       case _ => None)
    case OptionGet => Some(F.OptionGet)
    case RecordGet(attr) => Some(F.RecordGet(attr))
    case SetInter => Some(F.SetInter)
    case SetMember => Some(F.SetMember)
    case SetSubset => Some(F.SetSubset)
    case ZeroExtend(bits) => if bits < 0x100 then Some(F.ZeroExtend(bits)) else None
    case StringLike(pattern) => Some(F.StringLike(PatternToFfi(pattern)))
    case ExtensionOp(xop) => Some(F.ExtensionOp(ExtOpToFfi(xop)))
  }

  function BitvecToFfi(bv: S.BitVec): Option<F.Bitvec> {
    if bv.width < 0x100 then Some(F.Bitvec(bv.width, Print10(bv.value))) else None
  }

  function CidrToFfi(cidr: S.Cidr): Option<F.Cidr> {
    match (BitvecToFfi(cidr.addr), cidr.prefix)
    case (Some(addr), None) => Some(F.Cidr(addr, None))
    case (Some(addr), Some(bv)) =>
      (match BitvecToFfi(bv)
       case Some(prefix) => Some(F.Cidr(addr, Some(prefix)))
       case None => None)
    case _ => None
  }

  function PrimToFfi(p: S.TermPrim): Option<F.TermPrim> {
    match p
    case BitvecPrim(bv) =>
      (match BitvecToFfi(bv)
       case Some(b) => Some(F.BitvecPrim(b))
       case None => None)
    case Bool(b) => Some(F.Bool(b))
    case Entity(uid) => Some(F.Entity(F.EntityUid(uid.ty, uid.eid)))
    case ExtPrim(Datetime(dt)) => Some(F.ExtPrim(F.Datetime(dt)))
    case ExtPrim(Duration(dur)) => Some(F.ExtPrim(F.Duration(dur)))
    case ExtPrim(Decimal(d)) => Some(F.ExtPrim(F.Decimal(d)))
    case ExtPrim(Ipaddr(V4(cidr))) =>
      (match CidrToFfi(cidr)
       case Some(c) => Some(F.ExtPrim(F.Ipaddr(F.V4(c))))
       case None => None)
    case ExtPrim(Ipaddr(V6(cidr))) =>
      (match CidrToFfi(cidr)
       case Some(c) => Some(F.ExtPrim(F.Ipaddr(F.V6(c))))
       case None => None)
    case String(s) => Some(F.String(s))
  }

  function ToFfi(t: S.Term): Option<F.Term>
    decreases t, 1
  {
    match t
    case App(op, args, retTy) =>
      (match (OpToFfi(op), TermsToFfi(args), TypeToFfi(retTy))
       case (Some(o), Some(a), Some(ty)) => Some(F.App(o, a, ty))
       case _ => None)
    case NoneOf(ty) =>
      (match TypeToFfi(ty)
       case Some(x) => Some(F.NoneOf(x))
       case None => None)
    case Prim(prim) =>
      (match PrimToFfi(prim)
       case Some(p) => Some(F.Prim(p))
       case None => None)
    case Record(fields) =>
      (match FieldsToFfi(fields)
       case Some(r) => Some(F.Record(r))
       case None => None)
    case Set(elts, eltsTy) =>
      (match (TermsToFfi(elts), TypeToFfi(eltsTy))
       case (Some(e), Some(ty)) => Some(F.Set(e, ty))
       case _ => None)
    case SomeOf(term) =>
      (match ToFfi(term)
       case Some(x) => Some(F.SomeOf(x))
       case None => None)
    case Var(v) =>
      (match TypeToFfi(v.ty)
       case Some(ty) => Some(F.Var(F.TermVar(v.id, ty)))
       case None => None)
  }

  function TermsToFfi(ts: seq<S.Term>): Option<seq<F.Term>>
    decreases ts, 0
  {
    if ts == [] then Some([])
    else
      match (ToFfi(ts[0]), TermsToFfi(ts[1..]))
      case (Some(first), Some(rest)) => Some([first] + rest)
      case _ => None
  }

  function FieldsToFfi(fields: seq<Entry<S.Term>>): Option<seq<Entry<F.Term>>>
    decreases fields, 0
  {
    if fields == [] then Some([])
    else
      match (ToFfi(fields[0].value), FieldsToFfi(fields[1..]))
      case (Some(first), Some(rest)) => Some([Entry(fields[0].key, first)] + rest)
      case _ => None
  }
}
