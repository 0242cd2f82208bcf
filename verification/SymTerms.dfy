/** Symbolic terms of the symbolic compiler: sets and records are sorted, bitvectors are numbers. */
module SymTerms {
  import opened Wrappers
  import opened Integers
  import opened OrderedCollections

  type NonZeroU32 = x: nat | 0 < x < 0x1_0000_0000 witness 1

  datatype ExtType = IpAddrType | DecimalType | DateTimeType | DurationType

  datatype TermType =
    | BoolType
    | BitvecType(n: NonZeroU32)
    | StringType
    | EntityType(ety: string)
    | ExtensionType(xty: ExtType)
    | OptionType(ty: TermType)
    | SetType(ty: TermType)
    | RecordType(rty: seq<Entry<TermType>>)

  datatype TermVar = TermVar(id: string, ty: TermType)

  datatype Uuf = Uuf(id: string, arg: TermType, out: TermType)

  datatype ExtOp =
    | DecimalVal | IpaddrIsV4 | IpaddrAddrV4 | IpaddrPrefixV4 | IpaddrAddrV6 | IpaddrPrefixV6
    | DatetimeVal | DatetimeOfBitVec | DurationVal | DurationOfBitVec

  datatype PatElem = Wildcard | Char(c: u32)

  datatype Op =
    | Not | And | Or | Eq | Ite
    | UufOp(uuf: Uuf)
    | Bvneg | Bvadd | Bvsub | Bvmul | Bvsdiv | Bvudiv | Bvsrem | Bvsmod | Bvurem | Bvshl | Bvlshr
    | Bvslt | Bvsle | Bvult | Bvule | Bvnego | Bvsaddo | Bvssubo | Bvsmulo
    | ZeroExtend(bits: u32)
    | SetMember | SetSubset | SetInter | OptionGet
    | RecordGet(attr: string)
    | StringLike(pattern: seq<PatElem>)
    | ExtensionOp(xop: ExtOp)

  datatype BitVec = BitVec(width: NonZeroU32, value: nat)

  datatype Cidr = Cidr(addr: BitVec, prefix: Option<BitVec>)

  datatype IpNet = V4(cidr: Cidr) | V6(cidr: Cidr)

  datatype Ext = Decimal(d: i64) | Ipaddr(ip: IpNet) | Datetime(dt: i64) | Duration(dur: i64)

  datatype EntityUid = EntityUid(ty: string, eid: string)

  datatype TermPrim = Bool(b: bool) | BitvecPrim(bv: BitVec) | String(s: string) | Entity(uid: EntityUid)
    | ExtPrim(ext: Ext)

  datatype Term =
    | Prim(prim: TermPrim)
    | Var(v: TermVar)
    | NoneOf(ty: TermType)
    | SomeOf(term: Term)
    | Set(elts: seq<Term>, eltsTy: TermType)
    | Record(fields: seq<Entry<Term>>)
    | App(op: Op, args: seq<Term>, retTy: TermType)

  type Order = (Term, Term) -> bool

  // ---------- The terms the compiler's own types can hold ----------

  function Pow2(n: nat): (p: nat)
    ensures p > 0
  {
    if n == 0 then 1 else 2 * Pow2(n - 1)
  }

  /** The number of a width: what does not fit is cut off. */
  function OfNat(width: NonZeroU32, n: nat): BitVec {
    BitVec(width, n % Pow2(width))
  }

  predicate ValidBitVec(bv: BitVec) {
    bv.value < Pow2(bv.width)
  }

  const V4_ADDR_WIDTH: nat := 32
  const V4_PREFIX_WIDTH: nat := 5
  const V6_ADDR_WIDTH: nat := 128
  const V6_PREFIX_WIDTH: nat := 7

  predicate CidrHasWidths(cidr: Cidr, addrWidth: nat, prefixWidth: nat) {
    cidr.addr.width == addrWidth && (cidr.prefix.Some? ==> cidr.prefix.value.width == prefixWidth)
  }

  predicate ValidCidr(cidr: Cidr, addrWidth: nat, prefixWidth: nat) {
    && CidrHasWidths(cidr, addrWidth, prefixWidth)
    && ValidBitVec(cidr.addr) && (cidr.prefix.Some? ==> ValidBitVec(cidr.prefix.value))
  }

  predicate ValidPrim(p: TermPrim) {
    match p
    case BitvecPrim(bv) => ValidBitVec(bv)
    case ExtPrim(Ipaddr(V4(cidr))) => ValidCidr(cidr, V4_ADDR_WIDTH, V4_PREFIX_WIDTH)
    case ExtPrim(Ipaddr(V6(cidr))) => ValidCidr(cidr, V6_ADDR_WIDTH, V6_PREFIX_WIDTH)
    case _ => true
  }

  /** A Unicode scalar value. */
  predicate IsScalar(c: nat) {
    c < 0xD800 || 0xE000 <= c < 0x11_0000
  }

  predicate ValidType(ty: TermType)
    decreases ty
  {
    match ty
    case OptionType(t) => ValidType(t)
    case SetType(t) => ValidType(t)
    case RecordType(rty) => SortedKeys(rty) && forall i | 0 <= i < |rty| :: ValidType(rty[i].value)
    case _ => true
  }

  predicate ValidOp(op: Op) {
    match op
    case UufOp(uuf) => ValidType(uuf.arg) && ValidType(uuf.out)
    case StringLike(pattern) => forall i | 0 <= i < |pattern| :: pattern[i].Char? ==> IsScalar(pattern[i].c)
    case _ => true
  }

  predicate Valid(less: Order, t: Term)
    decreases t
  {
    match t
    case Prim(p) => ValidPrim(p)
    case Var(v) => ValidType(v.ty)
    case NoneOf(ty) => ValidType(ty)
    case SomeOf(term) => Valid(less, term)
    case Set(elts, ty) => ValidType(ty) && StrictlySorted(less, elts)
      && forall i | 0 <= i < |elts| :: Valid(less, elts[i])
    case Record(fields) => SortedKeys(fields) && forall i | 0 <= i < |fields| :: Valid(less, fields[i].value)
    case App(op, args, ty) => ValidOp(op) && ValidType(ty) && forall i | 0 <= i < |args| :: Valid(less, args[i])
  }

  // ---------- The terms whose widths fit in a byte ----------

  predicate TypeFits(ty: TermType)
    decreases ty
  {
    match ty
    case BitvecType(n) => n < 0x100
    case OptionType(t) => TypeFits(t)
    case SetType(t) => TypeFits(t)
    case RecordType(rty) => forall i | 0 <= i < |rty| :: TypeFits(rty[i].value)
    case _ => true
  }

  predicate OpFits(op: Op) {
    match op
    case UufOp(uuf) => TypeFits(uuf.arg) && TypeFits(uuf.out)
    case ZeroExtend(bits) => bits < 0x100
    case _ => true
  }

  predicate PrimFits(p: TermPrim) {
    match p
    case BitvecPrim(bv) => bv.width < 0x100
    case ExtPrim(Ipaddr(ip)) =>
      ip.cidr.addr.width < 0x100 && (ip.cidr.prefix.Some? ==> ip.cidr.prefix.value.width < 0x100)
    case _ => true
  }

  predicate Fits(t: Term)
    decreases t
  {
    match t
    case Prim(p) => PrimFits(p)
    case Var(v) => TypeFits(v.ty)
    case NoneOf(ty) => TypeFits(ty)
    case SomeOf(term) => Fits(term)
    case Set(elts, ty) => TypeFits(ty) && forall i | 0 <= i < |elts| :: Fits(elts[i])
    case Record(fields) => forall i | 0 <= i < |fields| :: Fits(fields[i].value)
    case App(op, args, ty) => OpFits(op) && TypeFits(ty) && forall i | 0 <= i < |args| :: Fits(args[i])
  }
}
