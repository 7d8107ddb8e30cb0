/**
 Numbers as they travel through text.  A Lua number is modelled by its shortest
 decimal spelling without an exponent: a sign, a whole part and at least one
 fraction digit, with no superfluous trailing zero.
 */
module Decimals {
  import opened Common

  type Digit = d: nat | d < 10

  datatype Decimal = Decimal(negative: bool, whole: nat, fraction: seq<Digit>)

  predicate Canonical(n: Decimal) {
    |n.fraction| == 1 || (|n.fraction| > 1 && n.fraction[|n.fraction| - 1] != 0)
  }

  type Number = n: Decimal | Canonical(n) witness Decimal(false, 0, [0])

  function OfNat(i: nat): Number { Decimal(false, i, [0]) }

  function DigitChar(d: Digit): char { ('0' as int + d) as char }

  predicate IsDigit(c: char) { '0' <= c <= '9' }

  function DigitOf(c: char): Digit
    requires IsDigit(c)
  {
    c as int - '0' as int
  }

  function Digits(n: nat): string {
    if n < 10 then [DigitChar(n)] else Digits(n / 10) + [DigitChar(n % 10)]
  }

  function DigitChars(ds: seq<Digit>): string {
    seq(|ds|, i requires 0 <= i < |ds| => DigitChar(ds[i]))
  }

  function Print(n: Number): string {
    (if n.negative then "-" else "") + Digits(n.whole) + "." + DigitChars(n.fraction)
  }

  /** Length of the longest prefix made of digits. */
  function Span(s: string): (k: nat)
    ensures k <= |s| && forall i :: 0 <= i < k ==> IsDigit(s[i])
  {
    if s != "" && IsDigit(s[0]) then 1 + Span(s[1..]) else 0
  }

  function ToNat(s: string): nat
    requires forall i :: 0 <= i < |s| ==> IsDigit(s[i])
  {
    if s == "" then 0 else ToNat(s[..|s| - 1]) * 10 + DigitOf(s[|s| - 1])
  }

  function ToDigits(s: string): seq<Digit>
    requires forall i :: 0 <= i < |s| ==> IsDigit(s[i])
  {
    seq(|s|, i requires 0 <= i < |s| => DigitOf(s[i]))
  }

  /** Drops trailing zeros, keeping one digit. */
  function Trim(ds: seq<Digit>): (r: seq<Digit>)
    requires ds != []
    ensures Canonical(Decimal(false, 0, r))
  {
    if |ds| > 1 && ds[|ds| - 1] == 0 then Trim(ds[..|ds| - 1]) else ds
  }

  /** The whole part: digits without a superfluous leading zero. */
  function ScanWhole(u: string): (r: Option<(nat, string)>)
    ensures r.Some? ==> |r.value.1| < |u|
  {
    var k := Span(u);
    if k == 0 || (k > 1 && u[0] == '0') then None else Some((ToNat(u[..k]), u[k..]))
  }

  /** The fraction, when a point follows; a point needs a digit after it. */
  function ScanFraction(v: string): (r: Option<(seq<Digit>, string)>)
    ensures r.Some? ==> |r.value.1| <= |v| && r.value.0 != [] && Canonical(Decimal(false, 0, r.value.0))
  {
    if v == "" || v[0] != '.' then Some(([0], v))
    else
      var f := Span(v[1..]);
      if f == 0 then None else Some((Trim(ToDigits(v[1..][..f])), v[1..][f..]))
  }

  function ScanUnsigned(negative: bool, u: string): (r: Option<(Number, string)>)
    ensures r.Some? ==> |r.value.1| < |u|
  {
    match ScanWhole(u)
    case None => None
    case Some((whole, v)) =>
      match ScanFraction(v)
      case None => None
      case Some((fraction, rest)) => Some((Decimal(negative, whole, fraction), rest))
  }

  /** Reads a number off the front of a text. */
  function Scan(s: string): (r: Option<(Number, string)>)
    ensures r.Some? ==> |r.value.1| < |s|
  {
    if s != "" && s[0] == '-' then ScanUnsigned(true, s[1..]) else ScanUnsigned(false, s)
  }

  /**
   The numeric cast of a whole text: a sign, also a plus, and digits with a point
   anywhere among them or none.  Unlike a JSON number it may start with zeros or
   with the point, and end with the point.
   */
  function Parse(s: string): Option<Number> {
    if s != "" && s[0] == '-' then ParseUnsigned(true, s[1..])
    else if s != "" && s[0] == '+' then ParseUnsigned(false, s[1..])
    else ParseUnsigned(false, s)
  }

  function ParseUnsigned(negative: bool, u: string): Option<Number> {
    var k := Span(u);
    if k == |u| then
      if k == 0 then None else Some(Decimal(negative, ToNat(u), [0]))
    else if u[k] != '.' then None
    else
      var f := u[k + 1..];
      if Span(f) < |f| || (k == 0 && f == "") then None
      else Some(Decimal(negative, ToNat(u[..k]), if f == "" then [0] else Trim(ToDigits(f))))
  }

  predicate NoDigitFirst(rest: string) { rest == "" || !IsDigit(rest[0]) }

  lemma {:induction false} SpanOf(a: string, rest: string)
    requires forall i :: 0 <= i < |a| ==> IsDigit(a[i])
    requires NoDigitFirst(rest)
    ensures Span(a + rest) == |a|
  {
    if a == "" {
      assert a + rest == rest;
    } else {
      assert (a + rest)[1..] == a[1..] + rest;
      SpanOf(a[1..], rest);
    }
  }

  lemma {:induction false} DigitsReadBack(n: nat)
    ensures Digits(n) != "" && forall i :: 0 <= i < |Digits(n)| ==> IsDigit(Digits(n)[i])
    ensures ToNat(Digits(n)) == n
    ensures |Digits(n)| > 1 ==> Digits(n)[0] != '0'
  {
    if n >= 10 {
      DigitsReadBack(n / 10);
      assert Digits(n)[..|Digits(n)| - 1] == Digits(n / 10);
    }
  }

  lemma ScanWholePrint(n: nat, rest: string)
    requires NoDigitFirst(rest)
    ensures ScanWhole(Digits(n) + rest) == Some((n, rest))
  {
    DigitsReadBack(n);
    SpanOf(Digits(n), rest);
    assert (Digits(n) + rest)[..|Digits(n)|] == Digits(n);
  }

  lemma ScanFractionPrint(n: Number, rest: string)
    requires NoDigitFirst(rest)
    ensures ScanFraction("." + DigitChars(n.fraction) + rest) == Some((n.fraction, rest))
  {
    var text := DigitChars(n.fraction);
    var v := "." + text + rest;
    assert v[1..] == text + rest;
    SpanOf(text, rest);
    assert (text + rest)[..|text|] == text;
    assert ToDigits(text) == n.fraction;
  }

  /** The unsigned text of a number followed by something else. */
  function Unsigned(n: Number, rest: string): string {
    Digits(n.whole) + ("." + DigitChars(n.fraction) + rest)
  }

  lemma ScanUnsignedPrint(n: Number, rest: string)
    requires NoDigitFirst(rest)
    ensures ScanUnsigned(n.negative, Unsigned(n, rest)) == Some((n, rest))
  {
    ScanWholePrint(n.whole, "." + DigitChars(n.fraction) + rest);
    ScanFractionPrint(n, rest);
  }

  lemma PrintShape(n: Number, rest: string)
    ensures Print(n) + rest == (if n.negative then "-" else "") + Unsigned(n, rest)
  {
  }

  lemma ScanSign(negative: bool, u: string)
    requires u != "" && u[0] != '-'
    ensures Scan((if negative then "-" else "") + u) == ScanUnsigned(negative, u)
  {
    if negative {
      assert ("-" + u)[1..] == u;
    } else {
      assert "" + u == u;
    }
  }

  /** Printing then scanning gives the number back, whatever follows it. */
  lemma ScanPrint(n: Number, rest: string)
    requires NoDigitFirst(rest)
    ensures Scan(Print(n) + rest) == Some((n, rest))
  {
    ScanUnsignedPrint(n, rest);
    DigitsReadBack(n.whole);
    assert Unsigned(n, rest)[0] == Digits(n.whole)[0];
    ScanSign(n.negative, Unsigned(n, rest));
    PrintShape(n, rest);
  }

  lemma UnsignedIsParsed(negative: bool, u: string)
    requires ScanUnsigned(negative, u).Some? && ScanUnsigned(negative, u).value.1 == ""
    ensures ParseUnsigned(negative, u) == Some(ScanUnsigned(negative, u).value.0)
  {
    var k := Span(u);
    if k == |u| {
      assert u[..k] == u;
    } else {
      assert u[k..][1..] == u[k + 1..];
      var f := u[k + 1..];
      assert f[..|f|] == f;
    }
  }

  /** What JSON reads as one number, the cast reads as the same number. */
  lemma ScannedIsParsed(s: string)
    requires Scan(s).Some? && Scan(s).value.1 == ""
    ensures Parse(s) == Some(Scan(s).value.0)
  {
    if s != "" && s[0] == '-' {
      UnsignedIsParsed(true, s[1..]);
    } else {
      UnsignedIsParsed(false, s);
      assert Span(s) > 0;
    }
  }

  lemma ParsePrint(n: Number)
    ensures Parse(Print(n)) == Some(n)
  {
    ScanPrint(n, "");
    assert Print(n) + "" == Print(n);
    ScannedIsParsed(Print(n));
  }

  lemma UnsignedWhole(negative: bool, n: nat)
    ensures ParseUnsigned(negative, Digits(n)) == Some(Decimal(negative, n, [0]))
    ensures '.' !in Digits(n) && '\0' !in Digits(n) && '-' !in Digits(n) && '+' !in Digits(n)
  {
    DigitsReadBack(n);
    assert Digits(n) + "" == Digits(n);
    SpanOf(Digits(n), "");
  }

  lemma ParseSign(sign: string, u: string)
    requires sign == "-" || sign == "+" || sign == ""
    requires u != "" && u[0] != '-' && u[0] != '+'
    ensures Parse(sign + u) == ParseUnsigned(sign == "-", u)
  {
    if sign == "" {
      assert sign + u == u;
    } else {
      assert (sign + u)[1..] == u;
    }
  }

  /** The cast reads a whole number spelled without a point. */
  lemma WholeReadsBack(n: Number)
    requires n.fraction == [0]
    ensures Parse((if n.negative then "-" else "") + Digits(n.whole)) == Some(n)
    ensures '.' !in (if n.negative then "-" else "") + Digits(n.whole)
  {
    DigitsReadBack(n.whole);
    UnsignedWhole(n.negative, n.whole);
    assert Digits(n.whole)[0] in Digits(n.whole);
    ParseSign(if n.negative then "-" else "", Digits(n.whole));
  }

  lemma PrintHasNoNul(n: Number)
    ensures '\0' !in Print(n)
  {
    DigitsReadBack(n.whole);
    assert forall i :: 0 <= i < |Digits(n.whole)| ==> Digits(n.whole)[i] != '\0';
    assert forall i :: 0 <= i < |n.fraction| ==> DigitChar(n.fraction[i]) != '\0';
  }

  /** Every printed number starts with a digit or a minus sign. */
  lemma PrintHead(n: Number)
    ensures Print(n) != "" && (Print(n)[0] == '-' || IsDigit(Print(n)[0]))
  {
    DigitsReadBack(n.whole);
  }
}
