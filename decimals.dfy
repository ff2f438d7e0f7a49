/**
 * Decimal amounts. The validator reads an amount with Python's `Decimal(str)`; the
 * `amount` column is `Numeric(10, 2)`, so a stored amount is a whole number of
 * hundredths, and `str()` of a stored amount prints it with two fraction digits.
 */
module Decimals {
  import opened Wrappers
  import opened Text

  /** A finite decimal number: `coef * 10^exp`. */
  datatype Decimal = Decimal(coef: int, exp: int)

  /** `d > 0` (the power of ten is always positive). */
  predicate IsPositive(d: Decimal) { d.coef > 0 }

  /** Length of the run of ASCII digits at the start of `s`. */
  function SpanDigits(s: string): (n: nat)
    ensures n <= |s| && AllDigits(s[..n])
    ensures n < |s| ==> !IsDigit(s[n])
  {
    if s == [] || !IsDigit(s[0]) then 0
    else
      var n := 1 + SpanDigits(s[1..]);
      assert s[..n] == [s[0]] + s[1..][..n - 1];
      n
  }

  /** The optional exponent part: empty, or `e`/`E` followed by a signed integer and nothing else. */
  function ParseExponent(s: string): (r: Option<int>)
    ensures s == [] ==> r == Some(0)
  {
    if s == [] then Some(0)
    else if s[0] == 'e' || s[0] == 'E' then SignedDigits(s[1..])
    else None
  }

  /**
   * `Decimal(text)` for finite numbers: surrounding white space, an optional sign, digits
   * with an optional point (at least one digit on one side of it), an optional exponent.
   * A string that is not of that form raises `InvalidOperation`, modelled as `None`.
   */
  function ParseDecimal(text: string): (r: Option<Decimal>)
    ensures r.Some? ==> PyStrip(text) != []
    ensures r.Some? && IsPositive(r.value) ==> PyStrip(text)[0] != '-'
  {
    ParseSigned(PyStrip(text))
  }

  /** An optional sign in front of an unsigned decimal literal. */
  function ParseSigned(t: string): (r: Option<Decimal>)
    ensures t != [] && t[0] == '-' && r.Some? ==> r.value.coef <= 0
  {
    var u := if t != [] && t[0] in "+-" then t[1..] else t;
    match ParseUnsigned(u)
    case None => None
    case Some(d) => if t != [] && t[0] == '-' then Some(Decimal(-d.coef, d.exp)) else Some(d)
  }

  /** Digits with an optional point and an optional exponent, with at least one digit. */
  function ParseUnsigned(u: string): (r: Option<Decimal>)
    ensures r.Some? ==> r.value.coef >= 0
  {
    var i := SpanDigits(u);
    var intPart := u[..i];
    var rest := u[i..];
    var hasPoint := rest != [] && rest[0] == '.';
    var afterPoint := if hasPoint then rest[1..] else rest;
    var f := if hasPoint then SpanDigits(afterPoint) else 0;
    var frac := afterPoint[..f];
    if intPart == [] && frac == [] then None
    else
      match ParseExponent(afterPoint[f..])
      case None => None
      case Some(e) =>
        DigitsValueAppend(intPart, frac);
        Some(Decimal(DigitsValue(intPart + frac), e - |frac|))
  }

  /**
   * The number of hundredths a `Numeric(10, 2)` column stores for `d`: exact when `d` has
   * at most two fraction digits, otherwise rounded to the nearest hundredth with halves
   * away from zero.
   */
  function ToHundredths(d: Decimal): (h: int)
    ensures d.exp >= -2 ==> h == d.coef * Pow10(d.exp + 2)
    ensures d.exp < -2 && d.coef >= 0 ==>
      h >= 0 && 2 * (d.coef - h * Pow10(-2 - d.exp)) < Pow10(-2 - d.exp) &&
      2 * (h * Pow10(-2 - d.exp) - d.coef) <= Pow10(-2 - d.exp)
    ensures d.coef < 0 ==> h <= 0
  {
    var k := d.exp + 2;
    if k >= 0 then d.coef * Pow10(k)
    else
      var p := Pow10(-k);
      var m := if d.coef >= 0 then d.coef else -d.coef;
      var q := (2 * m + p) / (2 * p);
      RoundHalfUp(m, p);
      if d.coef >= 0 then q else -q
  }

  /** Integer rounding: `(2m + p) / 2p` is `m / p` rounded to nearest, halves up. */
  lemma RoundHalfUp(m: nat, p: nat)
    requires p >= 1
    ensures var q := (2 * m + p) / (2 * p);
            q >= 0 && 2 * (m - q * p) < p && 2 * (q * p - m) <= p
  {
    var q := (2 * m + p) / (2 * p);
    var r := (2 * m + p) % (2 * p);
    assert 2 * m + p == q * (2 * p) + r && 0 <= r < 2 * p;
    assert q * (2 * p) == 2 * (q * p);
  }

  /** `str()` of a two-place decimal holding `h` hundredths, such as `12.50` or `-0.05`. */
  function FormatHundredths(h: int): (s: string)
    ensures |s| >= 4 && s[|s| - 3] == '.'
    ensures s[0] == '-' <==> h < 0
  {
    if h < 0 then "-" + FormatUnsigned(-h) else FormatUnsigned(h)
  }

  function FormatUnsigned(m: nat): (s: string)
    ensures |s| >= 4 && s[|s| - 3] == '.' && IsDigit(s[0])
  {
    assert Pow10(2) == 100 by { assert Pow10(0) == 1; assert Pow10(1) == 10; }
    var a, b := NatDigits(m / 100), ZeroPad(m % 100, 2);
    assert IsDigit(a[0]);
    a + "." + b
  }

  /** A two-place rendering reads back as the same number of hundredths. */
  lemma FormatHundredthsRoundTrip(h: int)
    ensures ParseDecimal(FormatHundredths(h)) == Some(Decimal(h, -2))
    ensures ToHundredths(Decimal(h, -2)) == h
  {
    var m: nat := if h < 0 then -h else h;
    UnsignedRoundTrip(m);
    SignedRoundTrip(FormatHundredths(h), FormatUnsigned(m), h);
  }

  /** A two-place rendering has at least one digit and the point: it is never the text `0`. */
  lemma FormatHundredthsLong(h: int)
    ensures |FormatHundredths(h)| >= 2 && FormatHundredths(h) != "0"
  {
  }

  /** The text `0` reads as zero. */
  lemma ParseZero()
    ensures ParseDecimal("0") == Some(Decimal(0, 0))
  {
    NoSpaceEnds("0");
    assert PyStrip("0") == "0";
    assert SpanDigits("0") == 1;
    assert "0"[..1] == "0" && "0"[1..] == [] && "0" + [] == "0";
    assert DigitsValue("0") == 0 by { assert "0"[..0] == []; }
    assert ParseUnsigned("0") == Some(Decimal(0, 0));
    assert '0' !in "+-";
  }

  lemma SignedRoundTrip(s: string, u: string, h: int)
    requires |u| >= 1 && IsDigit(u[0]) && IsDigit(u[|u| - 1])
    requires ParseUnsigned(u) == Some(Decimal(if h < 0 then -h else h, -2))
    requires s == if h < 0 then "-" + u else u
    ensures ParseDecimal(s) == Some(Decimal(h, -2))
  {
    DigitNotSpace(u[|u| - 1]);
    if h < 0 {
      assert s[1..] == u && s[|s| - 1] == u[|u| - 1] && s[0] == '-';
    } else {
      DigitNotSpace(u[0]);
    }
    NoSpaceEnds(s);
    assert PyStrip(s) == s;
    SignedOfUnsigned(s, u, h);
  }

  lemma SignedOfUnsigned(s: string, u: string, h: int)
    requires |u| >= 1 && IsDigit(u[0])
    requires ParseUnsigned(u) == Some(Decimal(if h < 0 then -h else h, -2))
    requires s == if h < 0 then "-" + u else u
    ensures ParseSigned(s) == Some(Decimal(h, -2))
  {
    if h < 0 {
      assert s[0] == '-' && s[1..] == u;
    } else {
      assert s[0] !in "+-";
    }
  }

  lemma DigitNotSpace(c: char)
    requires IsDigit(c)
    ensures !PyIsSpace(c)
  {
  }

  lemma UnsignedRoundTrip(m: nat)
    ensures var u := FormatUnsigned(m);
            ParseUnsigned(u) == Some(Decimal(m, -2)) &&
            IsDigit(u[0]) && IsDigit(u[|u| - 1])
  {
    var q, r := m / 100, m % 100;
    assert m == q * 100 + r && 0 <= r < 100;
    var a, b := NatDigits(q), ZeroPad(r, 2);
    assert Pow10(2) == 100 by { assert Pow10(0) == 1; assert Pow10(1) == 10; }
    assert |b| == 2 && AllDigits(b) && DigitsValue(b) == r;
    assert |a| >= 1 && AllDigits(a) && DigitsValue(a) == q;
    TwoPlacesValue(a, b, q, r, m);
    assert FormatUnsigned(m) == a + "." + b;
  }

  /** `a.b` reads as `m` hundredths when `a` spells `m / 100` and `b` the two digits of `m % 100`. */
  lemma TwoPlacesValue(a: string, b: string, q: nat, r: nat, m: nat)
    requires |a| >= 1 && AllDigits(a) && DigitsValue(a) == q
    requires |b| == 2 && AllDigits(b) && DigitsValue(b) == r
    requires m == q * 100 + r
    ensures var u := a + "." + b;
            ParseUnsigned(u) == Some(Decimal(m, -2)) &&
            IsDigit(u[0]) && IsDigit(u[|u| - 1])
  {
    ParseTwoPlaces(a, b);
    var u := a + "." + b;
    assert u[0] == a[0] && u[|u| - 1] == b[1];
  }

  /** The unsigned part of a two-place rendering: `a.b` with two fraction digits. */
  lemma ParseTwoPlaces(a: string, b: string)
    requires |a| >= 1 && AllDigits(a) && |b| == 2 && AllDigits(b)
    ensures AllDigits(a + b)
    ensures ParseUnsigned(a + "." + b) == Some(Decimal(DigitsValue(a) * 100 + DigitsValue(b), -2))
  {
    DigitsValueAppend(a, b);
    assert Pow10(|b|) == 100 by { assert Pow10(0) == 1; assert Pow10(1) == 10; }
    var v := DigitsValue(a) * 100 + DigitsValue(b);
    assert DigitsValue(a + b) == v;
    ParsePointed(a, b, v);
  }

  lemma ParsePointed(a: string, b: string, v: int)
    requires |a| >= 1 && AllDigits(a) && |b| == 2 && AllDigits(b) && AllDigits(a + b)
    requires DigitsValue(a + b) == v
    ensures ParseUnsigned(a + "." + b) == Some(Decimal(v, -2))
  {
    var u := a + "." + b;
    assert u == a + ("." + b);
    SpanDigitsStop(a, "." + b);
    assert u[|a|..] == "." + b;
    assert ("." + b)[1..] == b;
    SpanDigitsAll(b);
    assert b[..2] == b && b[2..] == [];
  }

  lemma SpanDigitsStop(a: string, b: string)
    requires AllDigits(a) && b != [] && !IsDigit(b[0])
    ensures SpanDigits(a + b) == |a| && (a + b)[..|a|] == a
  {
    if a != [] {
      assert (a + b)[1..] == a[1..] + b;
      SpanDigitsStop(a[1..], b);
    }
  }

  lemma SpanDigitsAll(a: string)
    requires AllDigits(a)
    ensures SpanDigits(a) == |a|
  {
    if a != [] {
      SpanDigitsAll(a[1..]);
    }
  }
}
