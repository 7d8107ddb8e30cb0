/**
 The texts of numbers, written out: which texts the numeric cast and the JSON
 scanner read, and which number each denotes.
 */
module NumberTexts {
  import opened Common
  import opened Decimals

  predicate AllDigits(s: string) { forall i :: 0 <= i < |s| ==> '0' <= s[i] <= '9' }

  /** The number digits denote: each further one counts ten times what is before it. */
  function Natural(s: string): nat
    requires AllDigits(s)
  {
    if s == "" then 0 else 10 * Natural(s[..|s| - 1]) + (s[|s| - 1] as int - '0' as int)
  }

  /** The digits, and nothing but zeros after them. */
  predicate Trails(f: string, ds: seq<Digit>) {
    && |f| >= |ds|
    && (forall i :: 0 <= i < |ds| ==> f[i] as int == '0' as int + ds[i])
    && (forall i :: |ds| <= i < |f| ==> f[i] == '0')
  }

  /** Digits, a point and digits, or digits alone, spell this number without its sign. */
  ghost predicate Spells(u: string, a: string, point: bool, f: string, n: Decimal) {
    && AllDigits(a) && AllDigits(f) && (point || f == "")
    && u == a + (if point then "." + f else "")
    && n.whole == Natural(a)
    && if f == "" then n.fraction == [0] else Canonical(n) && Trails(f, n.fraction)
  }

  /** What the cast reads: a sign or none, and at least one digit before or after the point. */
  ghost predicate Casts(text: string, sign: string, u: string, a: string, point: bool, f: string, n: Decimal) {
    && (sign == "-" || sign == "+" || sign == "") && (n.negative <==> sign == "-")
    && text == sign + u && Spells(u, a, point, f, n) && (a != "" || f != "")
  }

  ghost predicate IsCastText(text: string, n: Decimal) {
    exists sign, u, a, point, f :: Casts(text, sign, u, a, point, f, n)
  }

  // ----- The pieces -----

  lemma {:induction false} ToNatIsNatural(s: string)
    requires AllDigits(s)
    ensures ToNat(s) == Natural(s)
  {
    if s != "" {
      ToNatIsNatural(s[..|s| - 1]);
    }
  }

  lemma {:induction false} TrimTrails(ds: seq<Digit>, f: string)
    requires ds != [] && |f| == |ds| && forall i :: 0 <= i < |ds| ==> f[i] as int == '0' as int + ds[i]
    ensures Trails(f, Trim(ds)) && Canonical(Decimal(false, 0, Trim(ds)))
  {
    if |ds| > 1 && ds[|ds| - 1] == 0 {
      TrimTrails(ds[..|ds| - 1], f[..|f| - 1]);
    }
  }

  lemma LastCounts(f: string, ds: seq<Digit>)
    requires Trails(f, ds) && |ds| > 1 && Canonical(Decimal(false, 0, ds))
    ensures f[|ds| - 1] != '0'
  {
  }

  lemma CanonicalIsUnique(f: string, ds: seq<Digit>, es: seq<Digit>)
    requires f != "" && Trails(f, ds) && Trails(f, es)
    requires Canonical(Decimal(false, 0, ds)) && Canonical(Decimal(false, 0, es))
    ensures ds == es
  {
    if |ds| > 1 {
      LastCounts(f, ds);
    }
    if |es| > 1 {
      LastCounts(f, es);
    }
  }

  /** The fraction read off digits is the one they trail. */
  lemma FractionIs(f: string, ds: seq<Digit>)
    requires f != "" && AllDigits(f) && Canonical(Decimal(false, 0, ds))
    ensures Trim(ToDigits(f)) == ds <==> Trails(f, ds)
  {
    TrimTrails(ToDigits(f), f);
    if Trails(f, ds) {
      CanonicalIsUnique(f, ds, Trim(ToDigits(f)));
    }
  }

  lemma {:induction false} SpanIs(s: string, k: nat)
    requires k <= |s| && AllDigits(s[..k]) && (k == |s| || !('0' <= s[k] <= '9'))
    ensures Span(s) == k
  {
    if k > 0 {
      assert s[1..][..k - 1] == s[..k][1..];
      assert '0' <= s[..k][0] <= '9';
      SpanIs(s[1..], k - 1);
    }
  }

  // ----- The cast -----

  lemma PointSplits(u: string, k: nat)
    requires k < |u| && u[k] == '.'
    ensures u == u[..k] + ("." + u[k + 1..])
  {
    assert u[k..] == "." + u[k + 1..] && u == u[..k] + u[k..];
  }

  lemma UnsignedCasts(negative: bool, u: string) returns (a: string, point: bool, f: string)
    requires ParseUnsigned(negative, u).Some?
    ensures Spells(u, a, point, f, ParseUnsigned(negative, u).value) && (a != "" || f != "")
  {
    var k := Span(u);
    a, point := u[..k], k < |u|;
    f := if point then u[k + 1..] else "";
    ToNatIsNatural(a);
    if point {
      PointSplits(u, k);
      if f != "" {
        FractionIs(f, Trim(ToDigits(f)));
      }
    } else {
      assert a == u && u == a + "";
    }
  }

  lemma UnsignedRead(negative: bool, u: string, a: string, point: bool, f: string, n: Decimal)
    requires Spells(u, a, point, f, n) && (a != "" || f != "") && n.negative == negative
    ensures ParseUnsigned(negative, u) == Some(n)
  {
    ToNatIsNatural(a);
    if !point {
      assert u == a && u[..|a|] == a;
      SpanIs(u, |a|);
    } else {
      assert u[..|a|] == a && u[|a|] == '.' && u[|a| + 1..] == f;
      SpanIs(u, |a|);
      assert f[..|f|] == f;
      SpanIs(f, |f|);
      if f != "" {
        FractionIs(f, n.fraction);
      }
    }
  }

  lemma ParsedIsCastText(text: string)
    requires Parse(text).Some?
    ensures IsCastText(text, Parse(text).value)
  {
    var negative := text != "" && text[0] == '-';
    var sign := if negative then "-" else if text != "" && text[0] == '+' then "+" else "";
    var u := text[|sign|..];
    assert text == sign + u;
    var a, point, f := UnsignedCasts(negative, u);
    assert Casts(text, sign, u, a, point, f, Parse(text).value);
  }

  lemma CastTextIsParsed(text: string, n: Number)
    requires IsCastText(text, n)
    ensures Parse(text) == Some(n)
  {
    var sign, u, a, point, f :| Casts(text, sign, u, a, point, f, n);
    UnsignedRead(n.negative, u, a, point, f, n);
    assert u[0] == if a != "" then a[0] else '.';
    ParseSign(sign, u);
  }

  /** The cast reads exactly the texts it should, as the number they spell. */
  lemma ParsesIff(text: string, n: Number)
    ensures Parse(text) == Some(n) <==> IsCastText(text, n)
  {
    if Parse(text) == Some(n) {
      ParsedIsCastText(text);
    }
    if IsCastText(text, n) {
      CastTextIsParsed(text, n);
    }
  }

  // ----- JSON numbers (section 6 of RFC 8259, without an exponent) -----

  ghost predicate Reads(token: string, u: string, a: string, point: bool, f: string, n: Decimal) {
    && token == (if n.negative then "-" else "") + u && Spells(u, a, point, f, n)
    && a != "" && (|a| == 1 || a[0] != '0') && (point ==> f != "")
  }

  ghost predicate IsNumberToken(token: string, n: Decimal) {
    exists u, a, point, f :: Reads(token, u, a, point, f, n)
  }

  /** Nothing follows that could belong to a number. */
  predicate Ends(rest: string) { rest == "" || (rest[0] != '.' && !('0' <= rest[0] <= '9')) }

  lemma ScannedFraction(v: string) returns (point: bool, f: string)
    requires ScanFraction(v).Some?
    ensures var (ds, rest) := ScanFraction(v).value;
            && v == (if point then "." + f else "") + rest && AllDigits(f)
            && (point <==> f != "") && if f == "" then ds == [0] else Trails(f, ds)
  {
    point := v != "" && v[0] == '.';
    if point {
      f := v[1..][..Span(v[1..])];
      FractionIs(f, Trim(ToDigits(f)));
      assert v == "." + (f + v[1..][|f|..]);
    } else {
      f := "";
    }
  }

  lemma ScannedWhole(s: string) returns (a: string)
    requires ScanWhole(s).Some?
    ensures var (whole, v) := ScanWhole(s).value;
            s == a + v && AllDigits(a) && whole == Natural(a) && a != "" && (|a| == 1 || a[0] != '0')
  {
    a := s[..Span(s)];
    ToNatIsNatural(a);
  }

  lemma ScannedUnsigned(negative: bool, s: string) returns (u: string, a: string, point: bool, f: string)
    requires ScanUnsigned(negative, s).Some?
    ensures var (n, rest) := ScanUnsigned(negative, s).value;
            s == u + rest && n.negative == negative && Spells(u, a, point, f, n)
            && a != "" && (|a| == 1 || a[0] != '0') && (point ==> f != "")
  {
    var (whole, v) := ScanWhole(s).value;
    a := ScannedWhole(s);
    point, f := ScannedFraction(v);
    var tail := if point then "." + f else "";
    u := a + tail;
    Regroup(a, tail, ScanFraction(v).value.1);
  }

  lemma ScannedToken(s: string) returns (token: string)
    requires Scan(s).Some?
    ensures s == token + Scan(s).value.1 && IsNumberToken(token, Scan(s).value.0)
  {
    var negative := s != "" && s[0] == '-';
    var sign, v := if negative then "-" else "", if negative then s[1..] else s;
    var u, a, point, f := ScannedUnsigned(negative, v);
    token := sign + u;
    assert s == sign + v;
    Regroup(sign, u, ScanUnsigned(negative, v).value.1);
    assert Scan(s) == ScanUnsigned(negative, v);
    assert Reads(token, u, a, point, f, Scan(s).value.0);
  }

  lemma WholeScanned(a: string, v: string)
    requires AllDigits(a) && a != "" && (|a| == 1 || a[0] != '0') && (v == "" || !('0' <= v[0] <= '9'))
    ensures ScanWhole(a + v) == Some((Natural(a), v))
  {
    ToNatIsNatural(a);
    assert (a + v)[..|a|] == a && (a + v)[|a|..] == v;
    SpanIs(a + v, |a|);
  }

  lemma FractionScanned(f: string, ds: seq<Digit>, rest: string)
    requires AllDigits(f) && f != "" && Trails(f, ds) && Canonical(Decimal(false, 0, ds)) && Ends(rest)
    ensures ScanFraction("." + f + rest) == Some((ds, rest))
  {
    var v := "." + f + rest;
    assert v[1..] == f + rest;
    assert (f + rest)[..|f|] == f && (f + rest)[|f|..] == rest;
    SpanIs(f + rest, |f|);
    FractionIs(f, ds);
  }

  lemma UnsignedToken(u: string, a: string, point: bool, f: string, n: Number, rest: string)
    requires Spells(u, a, point, f, n) && a != "" && (|a| == 1 || a[0] != '0') && (point ==> f != "") && Ends(rest)
    ensures ScanUnsigned(n.negative, u + rest) == Some((n, rest))
  {
    var v := (if point then "." + f else "") + rest;
    assert u + rest == a + v;
    WholeScanned(a, v);
    if point {
      FractionScanned(f, n.fraction, rest);
    } else {
      assert v == rest;
    }
  }

  lemma TokenScanned(token: string, n: Number, rest: string)
    requires IsNumberToken(token, n) && Ends(rest)
    ensures Scan(token + rest) == Some((n, rest))
  {
    var u, a, point, f :| Reads(token, u, a, point, f, n);
    UnsignedToken(u, a, point, f, n, rest);
    Regroup(if n.negative then "-" else "", u, rest);
    assert (u + rest)[0] == u[0] == a[0];
    ScanSign(n.negative, u + rest);
  }

  /** A printed number has one digit or more before the point, no more zeros there than it needs, and its fraction. */
  lemma PrintedToken(n: Number)
    ensures IsNumberToken(Print(n), n)
    ensures exists u, a, f :: Reads(Print(n), u, a, true, f, n) && |f| == |n.fraction|
  {
    var a, f := Digits(n.whole), DigitChars(n.fraction);
    DigitsReadBack(n.whole);
    ToNatIsNatural(a);
    assert Print(n) == (if n.negative then "-" else "") + (a + ("." + f));
    assert Reads(Print(n), a + ("." + f), a, true, f, n);
  }
}
