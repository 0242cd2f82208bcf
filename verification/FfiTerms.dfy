/** Symbolic terms as they cross the foreign-function boundary. */
module FfiTerms {
  import opened Wrappers
  import opened Integers
  import opened OrderedCollections

  type NonZeroU8 = x: nat | 0 < x < 0x100 witness 1

  datatype ExtType = IpAddrType | DecimalType | DatetimeType | DurationType

  datatype TermPrimType =
    | BoolType | BitvecType(n: NonZeroU8) | StringType | EntityType(ety: string) | ExtensionType(xty: ExtType)

  datatype TermType =
    | PrimType(pty: TermPrimType)
    | OptionType(ty: TermType)
    | SetType(ty: TermType)
    | RecordType(rty: seq<Entry<TermType>>)

  datatype TermVar = TermVar(id: string, ty: TermType)

  datatype Uuf = Uuf(id: string, arg: TermType, out: TermType)

  datatype ExtOp =
    | DecimalVal | IPaddrIsV4 | IPaddrAddrV4 | IPaddrPrefixV4 | IPaddrAddrV6 | IPaddrPrefixV6
    | DatetimeVal | DatetimeOfBitVec | DurationVal | DurationOfBitVec

  datatype PatElem = Star | JustChar(c: u32)

  datatype Op =
    | Not | And | Or | Eq | Ite
    | UufOp(uuf: Uuf)
    | Bvneg | Bvadd | Bvsub | Bvmul | Bvsdiv | Bvudiv | Bvsrem | Bvsmod | Bvurem | Bvshl | Bvlshr
    | Bvslt | Bvsle | Bvult | Bvule | Bvnego | Bvsaddo | Bvssubo | Bvsmulo
    | ZeroExtend(bits: u8)
    | SetMember | SetSubset | SetInter | OptionGet
    | RecordGet(attr: string)
    | StringLike(pattern: seq<PatElem>)
    | ExtensionOp(xop: ExtOp)

  /** The value is a decimal numeral. */
  datatype Bitvec = Bitvec(width: u8, val: string)

  datatype Cidr = Cidr(addr: Bitvec, prefix: Option<Bitvec>)

  datatype IpAddr = V4(cidr: Cidr) | V6(cidr: Cidr)

  datatype Ext = Decimal(d: i64) | Ipaddr(ip: IpAddr) | Datetime(dt: i64) | Duration(dur: i64)

  datatype EntityUid = EntityUid(ty: string, eid: string)

  datatype TermPrim = Bool(b: bool) | BitvecPrim(bv: Bitvec) | String(s: string) | Entity(uid: EntityUid)
    | ExtPrim(ext: Ext)

  datatype Term =
    | Prim(prim: TermPrim)
    | Var(v: TermVar)
    | NoneOf(ty: TermType)
    | SomeOf(term: Term)
    | Set(elts: seq<Term>, eltsTy: TermType)
    | Record(fields: seq<Entry<Term>>)
    | App(op: Op, args: seq<Term>, retTy: TermType)
}
