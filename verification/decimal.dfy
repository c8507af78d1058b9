/**
  Base-10 rendering of integers, as Go's strconv.AppendInt / AppendUint,
  fmt's %d verb and net.IP.String() produce it: no leading zeros, a single
  leading '-' for negative values, "0" for zero.
 */
module Decimal {

  import opened Wrappers

  predicate IsDigit(c: char) {
    '0' <= c <= '9'
  }

  predicate AllDigits(s: string) {
    forall i :: 0 <= i < |s| ==> IsDigit(s[i])
  }

  /** A canonical decimal numeral: non-empty, digits only, no leading zero. */
  predicate IsCanonical(s: string) {
    && |s| >= 1
    && AllDigits(s)
    && (|s| > 1 ==> s[0] != '0')
  }

  function DigitChar(d: nat): (c: char)
    requires d < 10
    ensures IsDigit(c)
    ensures DigitValue(c) == d
  {
    (48 + d) as char
  }

  function DigitValue(c: char): (d: nat)
    requires IsDigit(c)
    ensures d < 10
  {
    c as int - 48
  }

  /** Decimal numeral of a natural number. */
  function NatToDecimal(n: nat): (s: string)
    ensures IsCanonical(s)
    ensures '.' !in s && '-' !in s
    decreases n
  {
    if n < 10 then [DigitChar(n)] else NatToDecimal(n / 10) + [DigitChar(n % 10)]
  }

  /** Decimal numeral of an integer, with a '-' sign when negative. */
  function IntToDecimal(i: int): (s: string)
    ensures |s| >= 1
    ensures '.' !in s
    ensures i < 0 <==> s[0] == '-'
    ensures i < 0 ==> IsCanonical(s[1..])
    ensures i >= 0 ==> IsCanonical(s)
  {
    if i < 0 then "-" + NatToDecimal(-i) else NatToDecimal(i)
  }

  /** The value a string of digits denotes (the reading direction). */
  function ParseDigits(s: string): nat
    requires AllDigits(s)
    decreases |s|
  {
    if |s| == 0 then 0 else ParseDigits(s[..|s| - 1]) * 10 + DigitValue(s[|s| - 1])
  }

  /** The value an integer numeral denotes, or None when it is not one. */
  function ParseInt(s: string): (r: Option<int>)
  {
    if |s| >= 2 && s[0] == '-' && IsCanonical(s[1..]) && s[1..] != "0" then
      Some(0 - ParseDigits(s[1..]) as int)
    else if IsCanonical(s) then Some(ParseDigits(s))
    else None
  }

  /** Reading a rendered natural number gives the number back. */
  lemma {:induction false} ParseNatToDecimal(n: nat)
    ensures ParseDigits(NatToDecimal(n)) == n
    decreases n
  {
    var s := NatToDecimal(n);
    if n >= 10 {
      ParseNatToDecimal(n / 10);
      assert s[..|s| - 1] == NatToDecimal(n / 10);
    }
  }

  /** A numeral with a non-zero leading digit denotes a positive number. */
  lemma {:induction false} ParsePositive(s: string)
    requires |s| >= 1 && AllDigits(s) && s[0] != '0'
    ensures ParseDigits(s) >= 1
    decreases |s|
  {
    if |s| > 1 {
      var p := s[..|s| - 1];
      assert p[0] == s[0];
      ParsePositive(p);
    }
  }

  /** Rendering the value of a canonical numeral gives the numeral back. */
  lemma {:induction false} NatToDecimalOfParse(s: string)
    requires IsCanonical(s)
    ensures NatToDecimal(ParseDigits(s)) == s
    decreases |s|
  {
    var n := ParseDigits(s);
    var last := DigitValue(s[|s| - 1]);
    if |s| > 1 {
      var p := s[..|s| - 1];
      assert p[0] == s[0];
      ParsePositive(p);
      NatToDecimalOfParse(p);
      var q := ParseDigits(p);
      assert n == q * 10 + last;
      assert n / 10 == q && n % 10 == last;
      assert s == p + [s[|s| - 1]];
    }
  }

  /** Two naturals render alike only when they are equal. */
  lemma NatToDecimalInjective(m: nat, n: nat)
    requires NatToDecimal(m) == NatToDecimal(n)
    ensures m == n
  {
    ParseNatToDecimal(m);
    ParseNatToDecimal(n);
  }

  /** Reading a rendered integer gives the integer back. */
  lemma IntRoundTrip(i: int)
    ensures ParseInt(IntToDecimal(i)) == Some(i)
  {
    var s := IntToDecimal(i);
    if i < 0 {
      assert s[1..] == NatToDecimal(-i);
      ParseNatToDecimal(-i);
    } else {
      ParseNatToDecimal(i);
    }
  }
}
