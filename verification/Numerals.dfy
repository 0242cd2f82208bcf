/** Natural numbers written in decimal, and reading them back. */
module Numerals {
  import opened Wrappers

  function DigitChar(d: nat): (c: char)
    requires d < 10
    ensures '0' <= c <= '9'
  {
    '0' + d as char
  }

  predicate IsDigit(c: char) {
    '0' <= c <= '9'
  }

  function DigitValue(c: char): (d: nat)
    requires IsDigit(c)
    ensures d < 10
  {
    (c - '0') as nat
  }

  /** The shortest decimal text of a number. */
  function Print10(n: nat): string {
    if n < 10 then [DigitChar(n)] else Print10(n / 10) + [DigitChar(n % 10)]
  }

  predicate AllDigits(s: string) {
    forall i | 0 <= i < |s| :: IsDigit(s[i])
  }

  function ReadDigits(s: string): nat
    requires AllDigits(s)
  {
    if s == "" then 0 else 10 * ReadDigits(s[..|s| - 1]) + DigitValue(s[|s| - 1])
  }

  /** One more digit. */
  lemma ReadOneMore(s: string, d: nat)
    requires AllDigits(s) && d < 10
    ensures AllDigits(s + [DigitChar(d)]) && ReadDigits(s + [DigitChar(d)]) == 10 * ReadDigits(s) + d
  {
    var t := s + [DigitChar(d)];
    assert t[..|t| - 1] == s;
  }

  function Read10(s: string): Option<nat> {
    if s != "" && AllDigits(s) then Some(ReadDigits(s)) else None
  }

  predicate NoLeadingZero(s: string) {
    |s| > 1 ==> s[0] != '0'
  }

  /** Printed numbers are digits without a leading zero, and read back as themselves. */
  lemma {:induction false} PrintThenRead(n: nat)
    ensures Print10(n) != "" && AllDigits(Print10(n)) && NoLeadingZero(Print10(n))
    ensures n > 0 ==> Print10(n)[0] != '0'
    ensures ReadDigits(Print10(n)) == n && Read10(Print10(n)) == Some(n)
  {
    if n < 10 {
    } else {
      PrintThenRead(n / 10);
      assert Print10(n)[..|Print10(n)| - 1] == Print10(n / 10);
    }
  }

  /** Texts without a leading zero are exactly the printed ones. */
  lemma {:induction false} ReadThenPrint(s: string)
    requires s != "" && AllDigits(s) && NoLeadingZero(s)
    ensures Print10(ReadDigits(s)) == s
  {
    var front, last := s[..|s| - 1], s[|s| - 1];
    if front == "" {
      assert ReadDigits(front) == 0;
      assert s == [last];
    } else {
      ReadThenPrint(front);
      PrintThenRead(ReadDigits(front));
      if ReadDigits(front) == 0 {
        assert false;
      }
      assert s == front + [last];
    }
  }

  /** The digits as they are written, the most significant first. */
  lemma PrintedDigits()
    ensures Print10(1234567890) == "1234567890" && Print10(0) == "0"
  {
    assert Print10(1) == "1" && Print10(12) == "12" && Print10(123) == "123" && Print10(1234) == "1234";
    assert Print10(12345) == "12345" && Print10(123456) == "123456" && Print10(1234567) == "1234567";
    assert Print10(12345678) == "12345678" && Print10(123456789) == "123456789";
  }

  lemma PrintIsInjective(m: nat, n: nat)
    requires Print10(m) == Print10(n)
    ensures m == n
  {
    PrintThenRead(m);
    PrintThenRead(n);
  }

  // ---------- Names made from a counter ----------

  /** The prefix followed by the numbers below `n`. */
  ghost function Numbered(prefix: string, n: nat): set<string> {
    set i: nat | i < n :: prefix + Print10(i)
  }

  lemma NumberedIsNew(prefix: string, n: nat)
    ensures prefix + Print10(n) !in Numbered(prefix, n)
    ensures Numbered(prefix, n + 1) == Numbered(prefix, n) + {prefix + Print10(n)}
  {
    if i: nat :| i < n && prefix + Print10(i) == prefix + Print10(n) {
      assert (prefix + Print10(i))[|prefix|..] == Print10(i) && (prefix + Print10(n))[|prefix|..] == Print10(n);
      PrintIsInjective(i, n);
    }
  }
}
