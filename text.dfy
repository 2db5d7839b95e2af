/**
 Decimal rendering of integers, as Rust's `{}` and `{:?}` formats print an `i64`
 or a `usize`: an optional minus sign followed by the digits, without leading zeros.
 The parsers are the inverse used to state that the rendering loses nothing.
 */
module Text {

  predicate IsDigit(c: char) {
    '0' <= c <= '9'
  }

  predicate AllDigits(s: string) {
    forall i :: 0 <= i < |s| ==> IsDigit(s[i])
  }

  /** The characters `{:?}` may print for an integer. */
  predicate IsNumeral(s: string) {
    |s| > 0 && (forall i :: 0 <= i < |s| ==> s[i] == '-' || IsDigit(s[i]))
  }

  function DigitChar(d: nat): (c: char)
    requires d < 10
    ensures IsDigit(c) && c as int - '0' as int == d
  {
    (d + '0' as int) as char
  }

  function DigitValue(c: char): nat
    requires IsDigit(c)
  {
    c as int - '0' as int
  }

  function NatToString(n: nat): string {
    if n < 10 then [DigitChar(n)] else NatToString(n / 10) + [DigitChar(n % 10)]
  }

  function IntToString(x: int): string {
    if x < 0 then "-" + NatToString(-x) else NatToString(x)
  }

  /** A natural number prints as a non-empty run of digits, a single one exactly below ten. */
  lemma {:induction false} NatToStringDigits(n: nat)
    ensures |NatToString(n)| > 0 && AllDigits(NatToString(n))
    ensures n < 10 <==> |NatToString(n)| == 1
  {
    if n >= 10 {
      NatToStringDigits(n / 10);
    }
  }

  /** An integer prints as digits, with a leading minus sign exactly when it is negative. */
  lemma IntToStringNumeral(x: int)
    ensures IsNumeral(IntToString(x))
    ensures IntToString(x)[0] == '-' <==> x < 0
  {
    NatToStringDigits(if x < 0 then -x else x);
  }

  function ParseNat(s: string): nat
    requires AllDigits(s)
  {
    if s == [] then 0 else ParseNat(s[..|s| - 1]) * 10 + DigitValue(s[|s| - 1])
  }

  function ParseInt(s: string): int
    requires |s| > 0 && (s[0] == '-' || IsDigit(s[0])) && AllDigits(s[1..])
  {
    if s[0] == '-' then -(ParseNat(s[1..]) as int) else ParseNat(s)
  }

  /** Reading back the digits gives the number that was printed. */
  lemma {:induction false} ParseNatToString(n: nat)
    ensures AllDigits(NatToString(n)) && ParseNat(NatToString(n)) == n
  {
    NatToStringDigits(n);
    if n >= 10 {
      var s := NatToString(n);
      NatToStringDigits(n / 10);
      ParseNatToString(n / 10);
      assert s[..|s| - 1] == NatToString(n / 10);
    }
  }

  /** Reading back a rendered integer, sign included, gives the integer. */
  lemma ParseIntToString(x: int)
    ensures var s := IntToString(x); |s| > 0 && (s[0] == '-' || IsDigit(s[0])) && AllDigits(s[1..]) && ParseInt(s) == x
  {
    var s := IntToString(x);
    IntToStringNumeral(x);
    NatToStringDigits(if x < 0 then -x else x);
    if x < 0 {
      assert s[1..] == NatToString(-x);
      ParseNatToString(-x);
    } else {
      ParseNatToString(x);
    }
  }

  /** A rendered integer has neither a space nor a comma in it. */
  lemma NumeralHasNoSeparator(x: int, i: nat)
    requires i < |IntToString(x)|
    ensures IntToString(x)[i] != ' ' && IntToString(x)[i] != ','
  {
    IntToStringNumeral(x);
  }

}
