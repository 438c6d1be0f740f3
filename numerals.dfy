/**
 * Decimal integer text: the `%d` conversion used when a duration is written
 * out, and the integer literals accepted when it is read back.
 */
module Numerals {
  import opened Wrappers

  predicate IsDigit(c: char) { '0' <= c <= '9' }

  function DigitChar(d: nat): (c: char)
    requires d < 10
    ensures IsDigit(c) && DigitValue(c) == d
  {
    ('0' as int + d) as char
  }

  function DigitValue(c: char): nat
    requires IsDigit(c)
  {
    c as int - '0' as int
  }

  predicate AllDigits(s: string) { forall i :: 0 <= i < |s| ==> IsDigit(s[i]) }

  /** A natural-number literal: one or more digits, no leading zero except "0" itself. */
  predicate IsNatLiteral(s: string) {
    |s| > 0 && AllDigits(s) && (s[0] == '0' ==> |s| == 1)
  }

  /** Decimal digits of `n`, most significant first. */
  function NatToString(n: nat): (s: string)
    ensures IsNatLiteral(s)
    ensures n < 10 <==> |s| == 1
  {
    if n < 10 then [DigitChar(n)] else NatToString(n / 10) + [DigitChar(n % 10)]
  }

  /** `'%d' % n`: a minus sign for negative numbers, then the digits of |n|. */
  function IntToString(n: int): string {
    if n < 0 then "-" + NatToString(-n) else NatToString(n)
  }

  function DigitsValue(s: string): nat
    requires AllDigits(s)
  {
    if s == [] then 0 else DigitsValue(s[..|s| - 1]) * 10 + DigitValue(s[|s| - 1])
  }

  /**
   * An integer literal: a natural literal, optionally preceded by '-';
   * "-0" reads as 0, as it does in Python.
   */
  function ParseInt(s: string): Option<int> {
    if |s| > 0 && s[0] == '-' then
      if IsNatLiteral(s[1..]) then Some(0 - DigitsValue(s[1..]) as int) else None
    else if IsNatLiteral(s) then Some(DigitsValue(s))
    else None
  }

  lemma {:induction false} DigitsOfNatToString(n: nat)
    ensures DigitsValue(NatToString(n)) == n
  {
    if n >= 10 {
      var s := NatToString(n);
      DigitsOfNatToString(n / 10);
      assert s[..|s| - 1] == NatToString(n / 10);
    }
  }

  lemma {:induction false} NatLiteralPositive(s: string)
    requires IsNatLiteral(s) && s[0] != '0'
    ensures DigitsValue(s) > 0
  {
    if |s| > 1 {
      var p := s[..|s| - 1];
      assert p[0] == s[0];
      NatLiteralPositive(p);
    }
  }

  lemma {:induction false} NatToStringOfDigits(s: string)
    requires IsNatLiteral(s)
    ensures NatToString(DigitsValue(s)) == s
  {
    if |s| > 1 {
      var p := s[..|s| - 1];
      assert p[0] == s[0];
      NatLiteralPositive(p);
      NatToStringOfDigits(p);
      assert s == p + [s[|s| - 1]];
    }
  }

  /**
   * Reading a literal and writing `%d` are inverse: the literals of `n` are
   * its `%d` text and, for 0 only, "-0".
   */
  lemma ParseIntIff(s: string, n: int)
    ensures ParseInt(s) == Some(n) <==> s == IntToString(n) || (n == 0 && s == "-0")
  {
    if s == IntToString(n) {
      ParseIntToString(n);
    }
    if n == 0 && s == "-0" {
      assert s[1..] == "0" && IsNatLiteral("0");
      assert DigitsValue("0") == DigitsValue("") * 10 + DigitValue('0') == 0;
    }
    if ParseInt(s) == Some(n) {
      ParsedIsWritten(s, n);
    }
  }

  lemma ParseIntToString(n: int)
    ensures ParseInt(IntToString(n)) == Some(n)
  {
    if n < 0 {
      NegativeLiteral(-n);
    } else {
      DigitsOfNatToString(n);
    }
  }

  lemma NegativeLiteral(m: nat)
    requires m > 0
    ensures ParseInt("-" + NatToString(m)) == Some(0 - m)
  {
    var s := "-" + NatToString(m);
    assert s[1..] == NatToString(m);
    DigitsOfNatToString(m);
  }

  lemma ParsedIsWritten(s: string, n: int)
    requires ParseInt(s) == Some(n)
    ensures s == IntToString(n) || (n == 0 && s == "-0")
  {
    if |s| > 0 && s[0] == '-' {
      NatToStringOfDigits(s[1..]);
      assert s == "-" + s[1..];
      if s[1] != '0' {
        NatLiteralPositive(s[1..]);
      } else {
        assert s[1..] == "0";
      }
    } else {
      NatToStringOfDigits(s);
    }
  }

  /** The text of a number never holds the separators of the duration format. */
  lemma IntToStringHasNoSeparator(n: int)
    ensures ',' !in IntToString(n) && '=' !in IntToString(n)
  {
    var s := IntToString(n);
    assert forall i :: 0 <= i < |s| ==> IsDigit(s[i]) || s[i] == '-';
  }
}
