/** The text of a decimal kept as an integer scaled by 10000. */
module DecimalText {
  import opened Wrappers
  import opened Integers
  import opened Numerals

  /** Four digits, with zeros in front. */
  function Pad4(n: nat): string
    requires n < 10000
  {
    [DigitChar(n / 1000), DigitChar(n / 100 % 10), DigitChar(n / 10 % 10), DigitChar(n % 10)]
  }

  /** Taken in a wider type, so that the minimum has one too. */
  function AbsVal(v: int): nat {
    if v < 0 then -v else v
  }

  /** Whole part, point and fraction. */
  function UnsignedToText(whole: nat, fraction: nat): string
    requires fraction < 10000
  {
    Print10(whole) + "." + Pad4(fraction)
  }

  function ToText(v: i64): string {
    var neg := if v < 0 then "-" else "";
    var absval := AbsVal(v);
    neg + UnsignedToText(absval / 10000, absval % 10000)
  }

  /** Reads a whole part, a point and four fraction digits. */
  function ReadUnsigned(s: string): Option<nat> {
    if |s| < 6 || s[|s| - 5] != '.' then None
    else
      match (Read10(s[..|s| - 5]), Read10(s[|s| - 4..]))
      case (Some(whole), Some(fraction)) => Some(whole * 10000 + fraction)
      case _ => None
  }

  /** Reads an optional sign and an unsigned text. */
  function FromText(s: string): Option<int> {
    var negative := s != "" && s[0] == '-';
    var unsigned := ReadUnsigned(if negative then s[1..] else s);
    if unsigned.None? then None
    else
      var n: int := unsigned.value;
      Some(if negative then 0 - n else n)
  }

  lemma PadThenRead(n: nat)
    requires n < 10000
    ensures AllDigits(Pad4(n)) && ReadDigits(Pad4(n)) == n
  {
    FourDigits(n);
    ReadFour(n / 1000, n / 100 % 10, n / 10 % 10, n % 10);
  }

  lemma FourDigits(n: nat)
    requires n < 10000
    ensures n / 1000 < 10 && 10 * (10 * (10 * (n / 1000) + n / 100 % 10) + n / 10 % 10) + n % 10 == n
  {
    assert 10 * (n / 1000) + n / 100 % 10 == n / 100;
    assert 10 * (n / 100) + n / 10 % 10 == n / 10;
  }

  lemma ReadFour(a: nat, b: nat, c: nat, d: nat)
    requires a < 10 && b < 10 && c < 10 && d < 10
    ensures var s := [DigitChar(a), DigitChar(b), DigitChar(c), DigitChar(d)];
            AllDigits(s) && ReadDigits(s) == 10 * (10 * (10 * a + b) + c) + d
  {
    var s1, s2, s3 := [DigitChar(a)], [DigitChar(a), DigitChar(b)], [DigitChar(a), DigitChar(b), DigitChar(c)];
    ReadOneMore("", a);
    assert "" + [DigitChar(a)] == s1;
    ReadOneMore(s1, b);
    assert s1 + [DigitChar(b)] == s2;
    ReadOneMore(s2, c);
    assert s2 + [DigitChar(c)] == s3;
    ReadOneMore(s3, d);
    assert s3 + [DigitChar(d)] == [DigitChar(a), DigitChar(b), DigitChar(c), DigitChar(d)];
  }

  lemma ReadParts(whole: string, fraction: string)
    requires whole != "" && AllDigits(whole) && |fraction| == 4 && AllDigits(fraction)
    ensures ReadUnsigned(whole + "." + fraction) == Some(ReadDigits(whole) * 10000 + ReadDigits(fraction))
    ensures (whole + "." + fraction)[0] != '-'
  {
    var s := whole + "." + fraction;
    SplitAtPoint(whole, fraction);
    assert IsDigit(whole[0]);
    assert Read10(whole) == Some(ReadDigits(whole)) && Read10(fraction) == Some(ReadDigits(fraction));
  }

  lemma SplitAtPoint(whole: string, fraction: string)
    requires whole != "" && |fraction| == 4
    ensures var s := whole + "." + fraction;
            && |s| >= 6 && s[0] == whole[0] && s[..|s| - 5] == whole && s[|s| - 5] == '.' && s[|s| - 4..] == fraction
  {
  }

  lemma UnsignedThenRead(whole: nat, fraction: nat)
    requires fraction < 10000
    ensures var body := UnsignedToText(whole, fraction);
            body != "" && body[0] != '-' && ReadUnsigned(body) == Some(whole * 10000 + fraction)
  {
    PrintThenRead(whole);
    PadThenRead(fraction);
    ReadParts(Print10(whole), Pad4(fraction));
  }

  /** Reading the text back gives the value, for every 64-bit value. */
  lemma RoundTrip(v: i64)
    ensures FromText(ToText(v)) == Some(v)
  {
    var absval := AbsVal(v);
    UnsignedThenRead(absval / 10000, absval % 10000);
    SignedText(UnsignedToText(absval / 10000, absval % 10000), absval);
  }

  lemma SignedText(body: string, n: nat)
    requires ReadUnsigned(body) == Some(n) && body != "" && body[0] != '-'
    ensures FromText("-" + body) == Some(0 - n) && FromText("" + body) == Some(n)
  {
    assert ("-" + body)[1..] == body && "" + body == body;
  }

  /** The text has a sign exactly for negative values, no spurious leading zero and four fraction digits. */
  lemma TextShape(v: i64) returns (whole: string, fraction: string)
    ensures ToText(v) == (if v < 0 then "-" else "") + whole + "." + fraction
    ensures whole != "" && AllDigits(whole) && NoLeadingZero(whole)
    ensures |fraction| == 4 && AllDigits(fraction)
  {
    var absval := AbsVal(v);
    whole, fraction := Print10(absval / 10000), Pad4(absval % 10000);
    PrintThenRead(absval / 10000);
    PadThenRead(absval % 10000);
    assert ToText(v) == (if v < 0 then "-" else "") + (whole + "." + fraction);
  }

  lemma TextIsInjective(v: i64, w: i64)
    requires ToText(v) == ToText(w)
    ensures v == w
  {
    RoundTrip(v);
    RoundTrip(w);
  }

  lemma TextExample()
    ensures ToText(-123456) == "-12.3456"
  {
    assert Print10(1) == "1";
    assert UnsignedToText(12, 3456) == "12" + "." + "3456";
  }
}
