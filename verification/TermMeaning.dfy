/**
 When a foreign term and a term of the compiler say the same, defined without either conversion:
 operators by the names each side writes them with, numerals by the number they spell, sets by
 their members and records by the last entry of each key.
 */
module TermMeaning {
  import opened Wrappers
  import opened Numerals
  import opened OrderedCollections
  import opened TermConversion
  import opened TermRoundTrip

  // ---------- Names ----------

  /** The name of an operator in the foreign form. */
  function ForeignOpName(op: F.Op): string {
    match op
    case Not => "not"
    case And => "and"
    case Or => "or"
    case Eq => "eq"
    case Ite => "ite"
    case UufOp(_) => "uuf"
    case Bvneg => "bvneg"
    case Bvadd => "bvadd"
    case Bvsub => "bvsub"
    case Bvmul => "bvmul"
    case Bvsdiv => "bvsdiv"
    case Bvudiv => "bvudiv"
    case Bvsrem => "bvsrem"
    case Bvsmod => "bvsmod"
    case Bvurem => "bvurem"
    case Bvshl => "bvshl"
    case Bvlshr => "bvlshr"
    case Bvslt => "bvslt"
    case Bvsle => "bvsle"
    case Bvult => "bvult"
    case Bvule => "bvule"
    case Bvnego => "bvnego"
    case Bvsaddo => "bvsaddo"
    case Bvssubo => "bvssubo"
    case Bvsmulo => "bvsmulo"
    case ZeroExtend(_) => "zero_extend"
    case SetMember => "set.member"
    case SetSubset => "set.subset"
    case SetInter => "set.inter"
    case OptionGet => "option.get"
    case RecordGet(_) => "record.get"
    case StringLike(_) => "string.like"
    case ExtensionOp(_) => "ext"
  }

  /** The name of an operator in the compiler. */
  function CompilerOpName(op: S.Op): string {
    match op
    case Not => "not"
    case And => "and"
    case Or => "or"
    case Eq => "eq"
    case Ite => "ite"
    case UufOp(_) => "uuf"
    case Bvneg => "bvneg"
    case Bvadd => "bvadd"
    case Bvsub => "bvsub"
    case Bvmul => "bvmul"
    case Bvsdiv => "bvsdiv"
    case Bvudiv => "bvudiv"
    case Bvsrem => "bvsrem"
    case Bvsmod => "bvsmod"
    case Bvurem => "bvurem"
    case Bvshl => "bvshl"
    case Bvlshr => "bvlshr"
    case Bvslt => "bvslt"
    case Bvsle => "bvsle"
    case Bvult => "bvult"
    case Bvule => "bvule"
    case Bvnego => "bvnego"
    case Bvsaddo => "bvsaddo"
    case Bvssubo => "bvssubo"
    case Bvsmulo => "bvsmulo"
    case ZeroExtend(_) => "zero_extend"
    case SetMember => "set.member"
    case SetSubset => "set.subset"
    case SetInter => "set.inter"
    case OptionGet => "option.get"
    case RecordGet(_) => "record.get"
    case StringLike(_) => "string.like"
    case ExtensionOp(_) => "ext"
  }

  function ForeignExtOpName(op: F.ExtOp): string {
    match op
    case DecimalVal => "decimal.val"
    case IPaddrIsV4 => "ipaddr.isV4"
    case IPaddrAddrV4 => "ipaddr.addrV4"
    case IPaddrPrefixV4 => "ipaddr.prefixV4"
    case IPaddrAddrV6 => "ipaddr.addrV6"
    case IPaddrPrefixV6 => "ipaddr.prefixV6"
    case DatetimeVal => "datetime.val"
    case DatetimeOfBitVec => "datetime.ofBitVec"
    case DurationVal => "duration.val"
    case DurationOfBitVec => "duration.ofBitVec"
  }

  function CompilerExtOpName(op: S.ExtOp): string {
    match op
    case DecimalVal => "decimal.val"
    case IpaddrIsV4 => "ipaddr.isV4"
    case IpaddrAddrV4 => "ipaddr.addrV4"
    case IpaddrPrefixV4 => "ipaddr.prefixV4"
    case IpaddrAddrV6 => "ipaddr.addrV6"
    case IpaddrPrefixV6 => "ipaddr.prefixV6"
    case DatetimeVal => "datetime.val"
    case DatetimeOfBitVec => "datetime.ofBitVec"
    case DurationVal => "duration.val"
    case DurationOfBitVec => "duration.ofBitVec"
  }

  // ---------- Types ----------

  predicate SameExtType(f: F.ExtType, s: S.ExtType) {
    && (f.IpAddrType? <==> s.IpAddrType?) && (f.DecimalType? <==> s.DecimalType?)
    && (f.DatetimeType? <==> s.DateTimeType?) && (f.DurationType? <==> s.DurationType?)
  }

  predicate HasKey<V>(es: seq<Entry<V>>, key: string) {
    exists i :: 0 <= i < |es| && es[i].key == key
  }

  /** The foreign list may be in any order and repeat keys; the compiler's is a map. */
  predicate SameKeys<V, W>(f: seq<Entry<V>>, s: seq<Entry<W>>) {
    && SortedKeys(s)
    && (forall j | 0 <= j < |s| :: HasKey(f, s[j].key))
    && (forall i | 0 <= i < |f| :: HasKey(s, f[i].key))
  }

  /** No later entry has the key: this is the one a map keeps. */
  predicate IsLast<V>(es: seq<Entry<V>>, i: nat)
    requires i < |es|
  {
    forall j | i < j < |es| :: es[j].key != es[i].key
  }

  /** The entry at `j` of the map is the one for the entry at `i` of the list. */
  predicate IsKeptAt<V, W>(f: seq<Entry<V>>, i: nat, s: seq<Entry<W>>, j: nat)
    requires i < |f| && j < |s|
  {
    IsLast(f, i) && f[i].key == s[j].key
  }

  predicate SameType(f: F.TermType, s: S.TermType)
    decreases f
  {
    match f
    case PrimType(BoolType) => s.BoolType?
    case PrimType(BitvecType(n)) => s.BitvecType? && s.n == n
    case PrimType(StringType) => s.StringType?
    case PrimType(EntityType(ety)) => s.EntityType? && s.ety == ety
    case PrimType(ExtensionType(xty)) => s.ExtensionType? && SameExtType(xty, s.xty)
    case OptionType(t) => s.OptionType? && SameType(t, s.ty)
    case SetType(t) => s.SetType? && SameType(t, s.ty)
    case RecordType(rty) =>
      && s.RecordType? && SameKeys(rty, s.rty)
      && forall i, j | 0 <= i < |rty| && 0 <= j < |s.rty| && IsKeptAt(rty, i, s.rty, j) ::
           SameType(rty[i].value, s.rty[j].value)
  }

  // ---------- Operators ----------

  predicate SamePatElem(f: F.PatElem, s: S.PatElem) {
    match f
    case Star => s.Wildcard?
    case JustChar(c) => s.Char? && s.c == c
  }

  predicate SamePattern(f: seq<F.PatElem>, s: seq<S.PatElem>) {
    |f| == |s| && forall i | 0 <= i < |f| :: SamePatElem(f[i], s[i])
  }

  /** The same name and the same parameters. */
  predicate SameOp(f: F.Op, s: S.Op) {
    && ForeignOpName(f) == CompilerOpName(s)
    && match f
       case UufOp(uuf) =>
         s.UufOp? && s.uuf.id == uuf.id && SameType(uuf.arg, s.uuf.arg) && SameType(uuf.out, s.uuf.out)
       case ZeroExtend(bits) => s.ZeroExtend? && s.bits == bits
       case RecordGet(attr) => s.RecordGet? && s.attr == attr
       case StringLike(pattern) => s.StringLike? && SamePattern(pattern, s.pattern)
       case ExtensionOp(xop) => s.ExtensionOp? && ForeignExtOpName(xop) == CompilerExtOpName(s.xop)
       case _ => true
  }

  // ---------- Literals ----------

  /** What a width keeps of a number fits in it, and differs by a multiple of how many numbers fit. */
  lemma WidthKeeps(width: S.NonZeroU32, n: nat)
    ensures S.OfNat(width, n).width == width && S.OfNat(width, n).value < S.Pow2(width)
    ensures exists k: nat :: n == S.OfNat(width, n).value + k * S.Pow2(width)
  {
    QuotientAndRest(n, S.Pow2(width));
  }

  lemma QuotientAndRest(n: nat, m: nat)
    requires m > 0
    ensures n % m < m && exists k: nat :: n == n % m + k * m
  {
    assert n == n % m + (n / m) * m;
  }

  lemma {:induction false} Pow2Doubles(m: nat, n: nat)
    ensures S.Pow2(0) == 1 && S.Pow2(1) == 2 && S.Pow2(m + n) == S.Pow2(m) * S.Pow2(n)
  {
    if m == 0 {
      assert S.Pow2(1) == 2 * S.Pow2(0);
    } else {
      Pow2Doubles(m - 1, n);
      assert S.Pow2(m + n) == 2 * (S.Pow2(m - 1) * S.Pow2(n)) == (2 * S.Pow2(m - 1)) * S.Pow2(n);
    }
  }

  /** The numeral spells the bits' value, cut to the width. */
  predicate SameBits(f: F.Bitvec, s: S.BitVec) {
    && s.width == f.width
    && f.val != "" && AllDigits(f.val) && s.value == ReadDigits(f.val) % S.Pow2(f.width)
  }

  predicate SameCidr(f: F.Cidr, s: S.Cidr) {
    && SameBits(f.addr, s.addr)
    && (f.prefix.Some? <==> s.prefix.Some?)
    && (f.prefix.Some? && s.prefix.Some? ==> SameBits(f.prefix.value, s.prefix.value))
  }

  predicate SamePrim(f: F.TermPrim, s: S.TermPrim) {
    match f
    case Bool(b) => s.Bool? && s.b == b
    case BitvecPrim(bv) => s.BitvecPrim? && SameBits(bv, s.bv)
    case String(text) => s.String? && s.s == text
    case Entity(uid) => s.Entity? && s.uid.ty == uid.ty && s.uid.eid == uid.eid
    case ExtPrim(Decimal(d)) => s.ExtPrim? && s.ext.Decimal? && s.ext.d == d
    case ExtPrim(Datetime(dt)) => s.ExtPrim? && s.ext.Datetime? && s.ext.dt == dt
    case ExtPrim(Duration(dur)) => s.ExtPrim? && s.ext.Duration? && s.ext.dur == dur
    case ExtPrim(Ipaddr(V4(cidr))) => s.ExtPrim? && s.ext.Ipaddr? && s.ext.ip.V4? && SameCidr(cidr, s.ext.ip.cidr)
    case ExtPrim(Ipaddr(V6(cidr))) => s.ExtPrim? && s.ext.Ipaddr? && s.ext.ip.V6? && SameCidr(cidr, s.ext.ip.cidr)
  }

  // ---------- Terms ----------

  predicate SameTerm(f: F.Term, s: S.Term)
    decreases f, 0
  {
    match f
    case Prim(prim) => s.Prim? && SamePrim(prim, s.prim)
    case Var(v) => s.Var? && s.v.id == v.id && SameType(v.ty, s.v.ty)
    case NoneOf(ty) => s.NoneOf? && SameType(ty, s.ty)
    case SomeOf(term) => s.SomeOf? && SameTerm(term, s.term)
    case Set(elts, eltsTy) =>
      s.Set? && SameType(eltsTy, s.eltsTy) && SameMembers(elts, s.elts)
    case Record(fields) =>
      && s.Record? && SameKeys(fields, s.fields)
      && forall i, j | 0 <= i < |fields| && 0 <= j < |s.fields| && IsKeptAt(fields, i, s.fields, j) ::
           SameTerm(fields[i].value, s.fields[j].value)
    case App(op, args, retTy) =>
      && s.App? && SameOp(op, s.op) && SameType(retTy, s.retTy) && |s.args| == |args|
      && forall i | 0 <= i < |args| :: SameTerm(args[i], s.args[i])
  }

  predicate SameMembers(f: seq<F.Term>, s: seq<S.Term>)
    decreases f, 1
  {
    && (forall i | 0 <= i < |f| :: IsSaidIn(f[i], s))
    && (forall j | 0 <= j < |s| :: Says(f, s[j]))
  }

  /** One of the compiler's terms says the same as this foreign one. */
  predicate IsSaidIn(f: F.Term, s: seq<S.Term>)
    decreases f, 1
  {
    exists j :: 0 <= j < |s| && SameTerm(f, s[j])
  }

  /** One of the foreign terms says the same as this one of the compiler. */
  predicate Says(f: seq<F.Term>, s: S.Term)
    decreases f, 0
  {
    exists i :: 0 <= i < |f| && SameTerm(f[i], s)
  }

  // ---------- Maps ----------

  /** Two sorted lists with the same members are the same list. */
  lemma {:induction false} SortedIsUnique<T(!new)>(less: (T, T) -> bool, a: seq<T>, b: seq<T>)
    requires StrictTotalOrder(less) && StrictlySorted(less, a) && StrictlySorted(less, b)
    requires forall x :: x in a <==> x in b
    ensures a == b
  {
    assert b != [] ==> b[0] in b;
    if a == [] {
    } else {
      assert a[0] in b && b[0] in a;
      assert a[0] == b[0];
      forall x ensures x in a[1..] <==> x in b[1..] {
        assert x in a <==> x == a[0] || x in a[1..];
        assert x in b <==> x == b[0] || x in b[1..];
      }
      SortedIsUnique(less, a[1..], b[1..]);
      assert a == [a[0]] + a[1..] && b == [b[0]] + b[1..];
    }
  }

  predicate Within<T(==)>(a: seq<T>, b: seq<T>) {
    forall x | x in a :: x in b
  }

  /** The collected set is the only sorted list with the members of the list. */
  lemma CollectedSetIsUnique<T(!new)>(less: (T, T) -> bool, xs: seq<T>, s: seq<T>)
    requires StrictTotalOrder(less) && StrictlySorted(less, s)
    ensures CollectSet(less, xs) == s <==> Within(xs, s) && Within(s, xs)
  {
    CollectSetSorted(less, xs);
    if Within(xs, s) && Within(s, xs) {
      SortedIsUnique(less, CollectSet(less, xs), s);
    }
  }

  lemma {:induction false} SortedMapIsUnique<V(!new)>(a: seq<Entry<V>>, b: seq<Entry<V>>)
    requires SortedKeys(a) && SortedKeys(b)
    requires forall x :: x in a <==> x in b
    ensures a == b
  {
    assert b != [] ==> b[0] in b;
    if a == [] {
    } else {
      assert a[0] in b && b[0] in a;
      KeyOnce(a, 0);
      KeyOnce(b, 0);
      if a[0] != b[0] {
        assert StringLess(a[0].key, b[0].key) && StringLess(b[0].key, a[0].key);
        StringLessTransitive(a[0].key, b[0].key, a[0].key);
        StringLessIrreflexive(a[0].key);
      }
      forall x ensures x in a[1..] <==> x in b[1..] {
        assert x in a <==> x == a[0] || x in a[1..];
        assert x in b <==> x == b[0] || x in b[1..];
      }
      SortedMapIsUnique(a[1..], b[1..]);
      assert a == [a[0]] + a[1..] && b == [b[0]] + b[1..];
    }
  }

  lemma KeyOnce<V>(m: seq<Entry<V>>, i: nat)
    requires SortedKeys(m) && i < |m|
    ensures forall j | 0 <= j < |m| && m[j].key == m[i].key :: j == i
  {
    StringLessIrreflexive(m[i].key);
  }

  lemma {:induction false} LastOfKey<V>(es: seq<Entry<V>>, i: nat) returns (last: nat)
    requires i < |es|
    ensures i <= last < |es| && es[last].key == es[i].key && IsLast(es, last)
    decreases |es| - i
  {
    if IsLast(es, i) {
      last := i;
    } else {
      var j :| i < j < |es| && es[j].key == es[i].key;
      last := LastOfKey(es, j);
    }
  }

  /** Some entry is this one, and no later one has its key. */
  predicate IsLastEntry<V(==)>(es: seq<Entry<V>>, x: Entry<V>) {
    exists i :: 0 <= i < |es| && es[i] == x && IsLast(es, i)
  }

  lemma CollectedEntry<V(!new)>(es: seq<Entry<V>>, x: Entry<V>)
    ensures x in CollectMap(es) <==> IsLastEntry(es, x)
  {
    CollectMapSorted(es);
  }

  lemma CollectedHasKeys<V, W(!new)>(f: seq<Entry<V>>, es: seq<Entry<W>>)
    requires |es| == |f| && forall i | 0 <= i < |f| :: es[i].key == f[i].key
    ensures SameKeys(f, CollectMap(es))
  {
    var s := CollectMap(es);
    assert SortedKeys(s) by {
      CollectMapSorted(es);
    }
    forall j | 0 <= j < |s| ensures HasKey(f, s[j].key) {
      CollectedEntry(es, s[j]);
      var i :| 0 <= i < |es| && es[i] == s[j];
      assert f[i].key == s[j].key;
    }
    forall i | 0 <= i < |f| ensures HasKey(s, f[i].key) {
      var last := LastOfKey(es, i);
      CollectedEntry(es, es[last]);
      assert es[last] in s;
    }
  }

  /** Every entry of the map has the last value of its key. */
  predicate HasLastValues<V, W(==)>(f: seq<Entry<V>>, es: seq<Entry<W>>, s: seq<Entry<W>>)
    requires |es| == |f|
  {
    forall i, j | 0 <= i < |f| && 0 <= j < |s| && IsKeptAt(f, i, s, j) :: es[i].value == s[j].value
  }

  lemma CollectedHasLastValues<V, W(!new)>(f: seq<Entry<V>>, es: seq<Entry<W>>)
    requires |es| == |f| && forall i | 0 <= i < |f| :: es[i].key == f[i].key
    ensures HasLastValues(f, es, CollectMap(es))
  {
    var s := CollectMap(es);
    forall i, j | 0 <= i < |f| && 0 <= j < |s| && IsKeptAt(f, i, s, j) ensures es[i].value == s[j].value {
      assert IsLast(es, i);
      CollectedEntry(es, es[i]);
      CollectedHasKeys(f, es);
      KeyOnce(s, j);
    }
  }

  /** The collected map is the only one with the keys of the list and, for each key, the last value. */
  lemma CollectedMeans<V, W(!new)>(f: seq<Entry<V>>, es: seq<Entry<W>>, s: seq<Entry<W>>)
    requires |es| == |f| && forall i | 0 <= i < |f| :: es[i].key == f[i].key
    ensures CollectMap(es) == s <==> SameKeys(f, s) && HasLastValues(f, es, s)
  {
    CollectedHasKeys(f, es);
    CollectedHasLastValues(f, es);
    if SameKeys(f, s) && HasLastValues(f, es, s) {
      forall x ensures x in CollectMap(es) <==> x in s {
        EntryIsCollected(f, es, s, x);
      }
      SortedMapIsUnique(CollectMap(es), s);
    }
  }

  lemma EntryIsCollected<V, W(!new)>(f: seq<Entry<V>>, es: seq<Entry<W>>, s: seq<Entry<W>>, x: Entry<W>)
    requires |es| == |f| && forall i | 0 <= i < |f| :: es[i].key == f[i].key
    requires SameKeys(f, s) && HasLastValues(f, es, s)
    ensures x in CollectMap(es) <==> x in s
  {
    CollectedEntry(es, x);
    if x in s {
      var j :| 0 <= j < |s| && s[j] == x;
      var i :| 0 <= i < |f| && f[i].key == s[j].key;
      var last := LastOfKey(f, i);
      assert IsKeptAt(f, last, s, j);
      assert IsLast(es, last) && es[last] == x;
    }
    if IsLastEntry(es, x) {
      var i :| 0 <= i < |es| && es[i] == x && IsLast(es, i);
      var j :| 0 <= j < |s| && s[j].key == f[i].key;
      assert IsLast(f, i) && IsKeptAt(f, i, s, j);
    }
  }

  // ---------- Types, operators and literals ----------

  /** A foreign type becomes the one type of the compiler that says the same. */
  lemma {:induction false} TypeMeans(f: F.TermType, s: S.TermType)
    ensures TypeToSym(f) == s <==> SameType(f, s)
    decreases f
  {
    match f
    case OptionType(t) =>
      if s.OptionType? {
        TypeMeans(t, s.ty);
      }
    case SetType(t) =>
      if s.SetType? {
        TypeMeans(t, s.ty);
      }
    case RecordType(rty) =>
      if s.RecordType? {
        forall i, j | 0 <= i < |rty| && 0 <= j < |s.rty|
          ensures TypeToSym(rty[i].value) == s.rty[j].value <==> SameType(rty[i].value, s.rty[j].value)
        {
          TypeMeans(rty[i].value, s.rty[j].value);
        }
        RecordTypeMeans(rty, s.rty);
      }
    case PrimType(_) =>
  }

  lemma RecordTypeMeans(rty: seq<Entry<F.TermType>>, s: seq<Entry<S.TermType>>)
    requires forall i, j | 0 <= i < |rty| && 0 <= j < |s| ::
      TypeToSym(rty[i].value) == s[j].value <==> SameType(rty[i].value, s[j].value)
    ensures TypeToSym(F.RecordType(rty)) == S.RecordType(s) <==> SameType(F.RecordType(rty), S.RecordType(s))
  {
    var es := seq(|rty|, i requires 0 <= i < |rty| => Entry(rty[i].key, TypeToSym(rty[i].value)));
    CollectedMeans(rty, es, s);
  }

  lemma {:induction false} PatternMeans(f: seq<F.PatElem>, s: seq<S.PatElem>)
    requires PatternToSym(f).Ok?
    ensures PatternToSym(f).value == s <==> SamePattern(f, s)
  {
    if f == [] {
    } else if s != [] {
      PatternMeans(f[1..], s[1..]);
      var v := PatternToSym(f).value;
      assert v == [v[0]] + PatternToSym(f[1..]).value;
      assert v == s <==> v[0] == s[0] && v[1..] == s[1..];
      assert SamePattern(f, s) <==> SamePatElem(f[0], s[0]) && SamePattern(f[1..], s[1..]) by {
        assert forall i | 0 < i < |f| :: f[i] == f[1..][i - 1];
        assert forall i | 0 < i < |s| :: s[i] == s[1..][i - 1];
      }
    }
  }

  lemma ExtOpMeans(f: F.ExtOp, s: S.ExtOp)
    ensures ExtOpToSym(f) == s <==> ForeignExtOpName(f) == CompilerExtOpName(s)
  {
  }

  predicate HasParameter(op: F.Op) {
    op.UufOp? || op.ZeroExtend? || op.RecordGet? || op.StringLike? || op.ExtensionOp?
  }

  predicate IsArithmetic(op: F.Op) {
    || op.Bvneg? || op.Bvadd? || op.Bvsub? || op.Bvmul? || op.Bvsdiv? || op.Bvudiv? || op.Bvsrem? || op.Bvsmod?
    || op.Bvurem? || op.Bvshl? || op.Bvlshr?
  }

  predicate IsBitvecCondition(op: F.Op) {
    || op.Bvslt? || op.Bvsle? || op.Bvult? || op.Bvule? || op.Bvnego? || op.Bvsaddo? || op.Bvssubo? || op.Bvsmulo?
  }

  lemma ArithmeticMeans(f: F.Op, s: S.Op)
    requires IsArithmetic(f)
    ensures OpToSym(f) == Ok(s) <==> ForeignOpName(f) == CompilerOpName(s)
  {
  }

  lemma BitvecConditionMeans(f: F.Op, s: S.Op)
    requires IsBitvecCondition(f)
    ensures OpToSym(f) == Ok(s) <==> ForeignOpName(f) == CompilerOpName(s)
  {
  }

  lemma OtherOpMeans(f: F.Op, s: S.Op)
    requires !IsArithmetic(f) && !IsBitvecCondition(f) && !HasParameter(f)
    ensures OpToSym(f) == Ok(s) <==> ForeignOpName(f) == CompilerOpName(s)
  {
  }

  /** An operator with a parameter becomes the one with its name and the same parameter. */
  lemma ParameterMeans(f: F.Op, s: S.Op)
    requires OpToSym(f).Ok? && HasParameter(f)
    ensures OpToSym(f).value == s <==> SameOp(f, s)
  {
    match f
    case UufOp(uuf) =>
      if s.UufOp? {
        TypeMeans(uuf.arg, s.uuf.arg);
        TypeMeans(uuf.out, s.uuf.out);
      }
    case StringLike(pattern) =>
      if s.StringLike? {
        PatternMeans(pattern, s.pattern);
      }
    case ExtensionOp(xop) =>
      if s.ExtensionOp? {
        ExtOpMeans(xop, s.xop);
      }
    case _ =>
  }

  /** A foreign operator becomes the one operator of the compiler with its name and parameters. */
  lemma OpMeans(f: F.Op, s: S.Op)
    requires OpToSym(f).Ok?
    ensures OpToSym(f).value == s <==> SameOp(f, s)
  {
    if HasParameter(f) {
      ParameterMeans(f, s);
    } else {
      ConstantOpMeans(f, s);
      OnlyTheName(f, s);
    }
  }

  lemma OnlyTheName(f: F.Op, s: S.Op)
    requires !HasParameter(f)
    ensures SameOp(f, s) <==> ForeignOpName(f) == CompilerOpName(s)
  {
  }

  lemma ConstantOpMeans(f: F.Op, s: S.Op)
    requires !HasParameter(f)
    ensures OpToSym(f) == Ok(s) <==> ForeignOpName(f) == CompilerOpName(s)
  {
    if IsArithmetic(f) {
      ArithmeticMeans(f, s);
    } else if IsBitvecCondition(f) {
      BitvecConditionMeans(f, s);
    } else {
      OtherOpMeans(f, s);
    }
  }

  /** A foreign literal becomes the one literal of the compiler with its value. */
  lemma PrimMeans(f: F.TermPrim, s: S.TermPrim)
    requires PrimToSym(f).Ok?
    ensures PrimToSym(f).value == s <==> SamePrim(f, s)
  {
  }

  // ---------- Which terms convert ----------

  predicate ReadableBits(bv: F.Bitvec) {
    bv.width > 0 && bv.val != "" && AllDigits(bv.val)
  }

  predicate ReadableCidr(cidr: F.Cidr, addrWidth: nat, prefixWidth: nat) {
    && ReadableBits(cidr.addr) && cidr.addr.width == addrWidth
    && (cidr.prefix.Some? ==> ReadableBits(cidr.prefix.value) && cidr.prefix.value.width == prefixWidth)
  }

  predicate ReadablePrim(p: F.TermPrim) {
    match p
    case BitvecPrim(bv) => ReadableBits(bv)
    case ExtPrim(Ipaddr(V4(cidr))) => ReadableCidr(cidr, S.V4_ADDR_WIDTH, S.V4_PREFIX_WIDTH)
    case ExtPrim(Ipaddr(V6(cidr))) => ReadableCidr(cidr, S.V6_ADDR_WIDTH, S.V6_PREFIX_WIDTH)
    case _ => true
  }

  predicate ReadableOp(op: F.Op) {
    op.StringLike? ==> forall e | e in op.pattern :: e.JustChar? ==> S.IsScalar(e.c)
  }

  /** Every numeral is a number of at least one bit, addresses have their widths, and patterns are of characters. */
  predicate Readable(t: F.Term)
    decreases t
  {
    match t
    case Prim(prim) => ReadablePrim(prim)
    case SomeOf(term) => Readable(term)
    case Set(elts, _) => forall i | 0 <= i < |elts| :: Readable(elts[i])
    case Record(fields) => forall i | 0 <= i < |fields| :: Readable(fields[i].value)
    case App(op, args, _) => ReadableOp(op) && forall i | 0 <= i < |args| :: Readable(args[i])
    case _ => true
  }

  lemma {:induction false} PatternConverts(pattern: seq<F.PatElem>)
    ensures PatternToSym(pattern).Ok? <==> forall e | e in pattern :: e.JustChar? ==> S.IsScalar(e.c)
  {
    if pattern == [] {
    } else {
      PatternConverts(pattern[1..]);
      assert forall e :: e in pattern <==> e == pattern[0] || e in pattern[1..];
    }
  }

  lemma OpConverts(op: F.Op)
    ensures OpToSym(op).Ok? <==> ReadableOp(op)
  {
    if op.StringLike? {
      PatternConverts(op.pattern);
    }
  }

  lemma PrimConverts(p: F.TermPrim)
    ensures PrimToSym(p).Ok? <==> ReadablePrim(p)
  {
  }

  /** A list converts term by term. */
  lemma {:induction false} TermsPointwise(less: S.Order, ts: seq<F.Term>)
    ensures TermsToSym(less, ts).Ok? <==> forall i | 0 <= i < |ts| :: ToSym(less, ts[i]).Ok?
    ensures TermsToSym(less, ts).Ok? ==>
              && |TermsToSym(less, ts).value| == |ts|
              && forall i | 0 <= i < |ts| :: ToSym(less, ts[i]) == Ok(TermsToSym(less, ts).value[i])
  {
    if ts == [] {
    } else {
      TermsPointwise(less, ts[1..]);
      assert forall i | 0 < i < |ts| :: ts[i] == ts[1..][i - 1];
    }
  }

  lemma {:induction false} FieldsPointwise(less: S.Order, fields: seq<Entry<F.Term>>)
    ensures FieldsToSym(less, fields).Ok? <==> forall i | 0 <= i < |fields| :: ToSym(less, fields[i].value).Ok?
    ensures FieldsToSym(less, fields).Ok? ==>
              && |FieldsToSym(less, fields).value| == |fields|
              && forall i | 0 <= i < |fields| ::
                   && FieldsToSym(less, fields).value[i].key == fields[i].key
                   && ToSym(less, fields[i].value) == Ok(FieldsToSym(less, fields).value[i].value)
  {
    if fields == [] {
    } else {
      FieldsPointwise(less, fields[1..]);
      assert forall i | 0 < i < |fields| :: fields[i] == fields[1..][i - 1];
    }
  }

  /** The conversion fails exactly on the terms that cannot be read. */
  lemma {:induction false} ConvertsIff(less: S.Order, t: F.Term)
    ensures ToSym(less, t).Ok? <==> Readable(t)
    decreases t
  {
    match t
    case Prim(prim) => PrimConverts(prim);
    case SomeOf(term) => ConvertsIff(less, term);
    case Set(elts, _) =>
      forall i | 0 <= i < |elts| ensures ToSym(less, elts[i]).Ok? <==> Readable(elts[i]) {
        ConvertsIff(less, elts[i]);
      }
      TermsPointwise(less, elts);
    case Record(fields) =>
      forall i | 0 <= i < |fields| ensures ToSym(less, fields[i].value).Ok? <==> Readable(fields[i].value) {
        ConvertsIff(less, fields[i].value);
      }
      FieldsPointwise(less, fields);
    case App(op, args, _) =>
      OpConverts(op);
      forall i | 0 <= i < |args| ensures ToSym(less, args[i]).Ok? <==> Readable(args[i]) {
        ConvertsIff(less, args[i]);
      }
      TermsPointwise(less, args);
    case _ =>
  }

  // ---------- The meaning of a term ----------

  /** `t` converts, and to nothing but the valid term that says the same. */
  ghost predicate Means(less: S.Order, f: F.Term, s: S.Term) {
    ToSym(less, f) == Ok(s) <==> SameTerm(f, s) && S.Valid(less, s)
  }

  /** A foreign term becomes the one term of the compiler that says the same. */
  lemma {:induction false} TermMeans(less: S.Order, f: F.Term, s: S.Term)
    requires StrictTotalOrder(less) && ToSym(less, f).Ok?
    ensures Means(less, f, s)
    decreases f
  {
    if ToSym(less, f).value == s {
      Arrives(less, f);
    }
    match f
    case Prim(prim) =>
      if s.Prim? {
        PrimMeans(prim, s.prim);
      }
    case Var(v) =>
      if s.Var? {
        TypeMeans(v.ty, s.v.ty);
      }
    case NoneOf(ty) =>
      if s.NoneOf? {
        TypeMeans(ty, s.ty);
      }
    case SomeOf(term) =>
      if s.SomeOf? {
        TermMeans(less, term, s.term);
      }
    case Set(elts, _) =>
      if s.Set? {
        TermsPointwise(less, elts);
        forall i, j | 0 <= i < |elts| && 0 <= j < |s.elts| ensures Means(less, elts[i], s.elts[j]) {
          TermMeans(less, elts[i], s.elts[j]);
        }
        SetMeans(less, f, s);
      }
    case Record(fields) =>
      if s.Record? {
        FieldsPointwise(less, fields);
        forall i, j | 0 <= i < |fields| && 0 <= j < |s.fields|
          ensures Means(less, fields[i].value, s.fields[j].value)
        {
          TermMeans(less, fields[i].value, s.fields[j].value);
        }
        RecordMeans(less, f, s);
      }
    case App(_, args, _) =>
      if s.App? {
        TermsPointwise(less, args);
        forall i | 0 <= i < |args| && i < |s.args| ensures Means(less, args[i], s.args[i]) {
          TermMeans(less, args[i], s.args[i]);
        }
        AppMeans(less, f, s);
      }
  }

  lemma AppMeans(less: S.Order, f: F.Term, s: S.Term)
    requires StrictTotalOrder(less) && f.App? && s.App? && ToSym(less, f).Ok?
    requires ToSym(less, f).value == s ==> S.Valid(less, s)
    requires forall i | 0 <= i < |f.args| && i < |s.args| :: Means(less, f.args[i], s.args[i])
    ensures Means(less, f, s)
  {
    OpMeans(f.op, s.op);
    TypeMeans(f.retTy, s.retTy);
    TermsPointwise(less, f.args);
    var args := TermsToSym(less, f.args).value;
    if SameTerm(f, s) && S.Valid(less, s) {
      forall i | 0 <= i < |args| ensures args[i] == s.args[i] {
        assert Means(less, f.args[i], s.args[i]);
      }
      assert args == s.args;
    }
    if ToSym(less, f).value == s {
      forall i | 0 <= i < |args| ensures SameTerm(f.args[i], s.args[i]) {
        assert Means(less, f.args[i], s.args[i]);
      }
    }
  }

  lemma SetMeans(less: S.Order, f: F.Term, s: S.Term)
    requires StrictTotalOrder(less) && f.Set? && s.Set? && ToSym(less, f).Ok?
    requires ToSym(less, f).value == s ==> S.Valid(less, s)
    requires forall i, j | 0 <= i < |f.elts| && 0 <= j < |s.elts| :: Means(less, f.elts[i], s.elts[j])
    ensures Means(less, f, s)
  {
    var es := TermsToSym(less, f.elts).value;
    assert ToSym(less, f) == Ok(S.Set(CollectSet(less, es), TypeToSym(f.eltsTy)));
    if S.Valid(less, s) {
      SortedSetMeans(less, f, es, s);
    }
  }

  lemma SortedSetMeans(less: S.Order, f: F.Term, es: seq<S.Term>, s: S.Term)
    requires StrictTotalOrder(less) && f.Set? && s.Set? && TermsToSym(less, f.elts) == Ok(es)
    requires StrictlySorted(less, s.elts) && forall j | 0 <= j < |s.elts| :: S.Valid(less, s.elts[j])
    requires forall i, j | 0 <= i < |f.elts| && 0 <= j < |s.elts| :: Means(less, f.elts[i], s.elts[j])
    ensures s == S.Set(CollectSet(less, es), TypeToSym(f.eltsTy)) <==> SameTerm(f, s)
  {
    TypeMeans(f.eltsTy, s.eltsTy);
    ElementsCollect(less, f.elts, es, s.elts);
  }

  lemma ElementsCollect(less: S.Order, f: seq<F.Term>, es: seq<S.Term>, s: seq<S.Term>)
    requires StrictTotalOrder(less) && TermsToSym(less, f) == Ok(es)
    requires StrictlySorted(less, s) && forall j | 0 <= j < |s| :: S.Valid(less, s[j])
    requires forall i, j | 0 <= i < |f| && 0 <= j < |s| :: Means(less, f[i], s[j])
    ensures CollectSet(less, es) == s <==> SameMembers(f, s)
  {
    ElementsMean(less, f, es, s);
    CollectedSetIsUnique(less, es, s);
  }

  lemma ElementsMean(less: S.Order, f: seq<F.Term>, es: seq<S.Term>, s: seq<S.Term>)
    requires TermsToSym(less, f) == Ok(es) && forall j | 0 <= j < |s| :: S.Valid(less, s[j])
    requires forall i, j | 0 <= i < |f| && 0 <= j < |s| :: Means(less, f[i], s[j])
    ensures Within(es, s) && Within(s, es) <==> SameMembers(f, s)
  {
    TermsPointwise(less, f);
    forall i | 0 <= i < |f| ensures es[i] in s <==> IsSaidIn(f[i], s) {
      ElementIsSaid(less, f[i], es[i], s);
    }
    forall j | 0 <= j < |s| ensures s[j] in es <==> Says(f, s[j]) {
      ElementSays(less, f, es, s[j]);
    }
    EachElement(f, es, s);
  }

  lemma EachElement(f: seq<F.Term>, es: seq<S.Term>, s: seq<S.Term>)
    requires |es| == |f|
    requires forall i | 0 <= i < |f| :: es[i] in s <==> IsSaidIn(f[i], s)
    requires forall j | 0 <= j < |s| :: s[j] in es <==> Says(f, s[j])
    ensures Within(es, s) && Within(s, es) <==> SameMembers(f, s)
  {
  }

  lemma ElementIsSaid(less: S.Order, f: F.Term, e: S.Term, s: seq<S.Term>)
    requires ToSym(less, f) == Ok(e) && forall j | 0 <= j < |s| :: S.Valid(less, s[j]) && Means(less, f, s[j])
    ensures e in s <==> IsSaidIn(f, s)
  {
    if e in s {
      var j :| 0 <= j < |s| && s[j] == e;
      assert SameTerm(f, s[j]);
    }
    if IsSaidIn(f, s) {
      var j :| 0 <= j < |s| && SameTerm(f, s[j]);
      assert Means(less, f, s[j]);
    }
  }

  lemma ElementSays(less: S.Order, f: seq<F.Term>, es: seq<S.Term>, s: S.Term)
    requires |es| == |f| && S.Valid(less, s)
    requires forall i | 0 <= i < |f| :: ToSym(less, f[i]) == Ok(es[i]) && Means(less, f[i], s)
    ensures s in es <==> Says(f, s)
  {
    if s in es {
      var i :| 0 <= i < |es| && es[i] == s;
      assert Means(less, f[i], s);
    }
    if Says(f, s) {
      var i :| 0 <= i < |f| && SameTerm(f[i], s);
      assert Means(less, f[i], s);
    }
  }

  lemma RecordMeans(less: S.Order, f: F.Term, s: S.Term)
    requires StrictTotalOrder(less) && f.Record? && s.Record? && ToSym(less, f).Ok?
    requires ToSym(less, f).value == s ==> S.Valid(less, s)
    requires forall i, j | 0 <= i < |f.fields| && 0 <= j < |s.fields| ::
      Means(less, f.fields[i].value, s.fields[j].value)
    ensures Means(less, f, s)
  {
    FieldsPointwise(less, f.fields);
    if S.Valid(less, s) {
      var es := FieldsToSym(less, f.fields).value;
      forall i, j | 0 <= i < |es| && 0 <= j < |s.fields|
        ensures es[i].value == s.fields[j].value <==> SameTerm(f.fields[i].value, s.fields[j].value)
      {
        assert Means(less, f.fields[i].value, s.fields[j].value);
      }
      CollectedMeans(f.fields, es, s.fields);
    }
  }

  /** Coming out, a term of the compiler becomes a foreign term that says the same. */
  lemma ComesOutMeaningTheSame(less: S.Order, s: S.Term)
    requires StrictTotalOrder(less) && S.Valid(less, s) && S.Fits(s)
    ensures ToFfi(s).Some? && SameTerm(ToFfi(s).value, s)
  {
    ThereAndBack(less, s);
    TermMeans(less, ToFfi(s).value, s);
  }

  lemma OpComesOutMeaningTheSame(op: S.Op)
    requires S.ValidOp(op) && S.OpFits(op)
    ensures OpToFfi(op).Some? && SameOp(OpToFfi(op).value, op)
  {
    OpThereAndBack(op);
    OpMeans(OpToFfi(op).value, op);
  }

  lemma PrimComesOutMeaningTheSame(p: S.TermPrim)
    requires S.ValidPrim(p) && S.PrimFits(p)
    ensures PrimToFfi(p).Some? && SamePrim(PrimToFfi(p).value, p)
  {
    PrimThereAndBack(p);
    PrimMeans(PrimToFfi(p).value, p);
  }

  lemma TypeComesOutMeaningTheSame(ty: S.TermType)
    requires S.ValidType(ty) && S.TypeFits(ty)
    ensures SameType(TypeToFfi(ty).value, ty)
  {
    TypeThereAndBack(ty);
    TypeMeans(TypeToFfi(ty).value, ty);
  }
}
