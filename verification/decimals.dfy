/**
 * The part of Python's `decimal.Decimal` the sales record uses: a finite
 * decimal number `(-1)^negative * coeff * 10^-places`, construction from a
 * Python `int`, exact multiplication, and construction from text.
 *
 * Python's own exponent is `-places`.  No exponent above zero arises here:
 * literals without an exponent part give `places >= 0`, integers give
 * `places == 0`, and multiplication adds the place counts.
 *
 * Multiplication follows the multiply operation of the General Decimal
 * Arithmetic Specification: the coefficients multiply, the exponents add and
 * the sign is the exclusive or of the signs, so trailing zeros (the scale) are
 * kept rather than normalised away.  Two decimals compare equal (`==`) when
 * they denote the same number, which `SameValue` states without reals: the
 * number is `Numerator(d) / Denominator(d)`.
 */
module Decimals {
  import opened Options
  import opened Text
  import opened Digits

  /** A finite decimal; `negative` is the sign bit, so `-0` and `0` differ as
      representations but denote the same number. */
  datatype Decimal = Decimal(negative: bool, coeff: nat, places: nat)

  /** The number times `10^places`: the signed coefficient. */
  function Numerator(d: Decimal): int {
    if d.negative then -(d.coeff as int) else d.coeff
  }

  function Denominator(d: Decimal): nat {
    Pow10(d.places)
  }

  /** `a == b` on decimals: equal numbers, whatever the scale or the sign of
      a zero. */
  predicate SameValue(a: Decimal, b: Decimal) {
    Numerator(a) * Denominator(b) == Numerator(b) * Denominator(a)
  }

  /** `Decimal(n)` for a Python `int`: exactly `n`, with no places. */
  function FromInt(n: int): (d: Decimal)
    ensures Numerator(d) == n && Denominator(d) == 1
    ensures d.places == 0
    ensures d.negative <==> n < 0
  {
    if n < 0 then Decimal(true, -n, 0) else Decimal(false, n, 0)
  }

  /** `a * b`, computed exactly (no context rounding): the numbers multiply
      and so do their denominators, so the scale of the product is the sum of
      the scales. */
  function Multiply(a: Decimal, b: Decimal): (r: Decimal)
    ensures Numerator(r) == Numerator(a) * Numerator(b)
    ensures Denominator(r) == Denominator(a) * Denominator(b)
    ensures r.places == a.places + b.places
    ensures r.negative <==> a.negative != b.negative
  {
    Pow10Add(a.places, b.places);
    Decimal(a.negative != b.negative, a.coeff * b.coeff, a.places + b.places)
  }

  /** Multiplication respects `==`: equal factors give equal products. */
  lemma MultiplyRespectsValue(a: Decimal, a': Decimal, b: Decimal, b': Decimal)
    requires SameValue(a, a') && SameValue(b, b')
    ensures SameValue(Multiply(a, b), Multiply(a', b'))
  {
    CrossProduct(Numerator(a), Numerator(a'), Denominator(a), Denominator(a'),
                 Numerator(b), Numerator(b'), Denominator(b), Denominator(b'));
  }

  lemma CrossProduct(x: int, x': int, p: int, p': int, y: int, y': int, q: int, q': int)
    requires x * p' == x' * p && y * q' == y' * q
    ensures (x * y) * (p' * q') == (x' * y') * (p * q)
  {
    calc {
      (x * y) * (p' * q');
      == (x * p') * (y * q');
      == (x' * p) * (y' * q);
      == (x' * y') * (p * q);
    }
  }

  /** A product of two integers read as decimals is the decimal of the
      integer product, up to the sign of a zero. */
  lemma MultiplyIntegers(m: int, n: int)
    ensures SameValue(Multiply(FromInt(m), FromInt(n)), FromInt(m * n))
    ensures Multiply(FromInt(m), FromInt(n)).places == 0
  {
  }

  /** The literals `Decimal()` accepts in this model, as a grammar: an
      optional sign, then digits and at most one point, with at least one
      digit. */
  predicate DecimalLiteral(t: string) {
    Unsigned(t) || (|t| >= 1 && (t[0] == '+' || t[0] == '-') && Unsigned(t[1..]))
  }

  predicate Unsigned(t: string) {
    && |t| >= 1
    && t != "."
    && Count(t, '.') <= 1
    && forall i :: 0 <= i < |t| ==> IsDigit(t[i]) || t[i] == '.'
  }

  /** The digits of an unsigned literal, as a coefficient and a count of
      places after the point. */
  function ParseUnsigned(body: string): (r: Option<(nat, nat)>)
    ensures r.Some? ==> r.value.1 < |body|
  {
    var parts := Split(body, '.');
    if |parts| == 1 && |body| >= 1 && AllDigits(body) then
      Some((DigitsValue(body), 0))
    else if |parts| == 2 && |body| >= 2 && AllDigits(parts[0]) && AllDigits(parts[1]) then
      DigitsAppend(parts[0], parts[1]);
      TwoParts(body, '.');
      Some((DigitsValue(parts[0] + parts[1]), |parts[1]|))
    else
      None
  }

  /** `Decimal(s)` for the literals this model admits: surrounding whitespace
      is ignored, then an optional sign, then digits with at most one `.` and
      at least one digit.  The coefficient is all the digits read together and
      `places` is the number of digits after the point, so `Decimal("4.50")`
      has coefficient 450 and two places.  Anything else is `None`, the
      `InvalidOperation` Python raises. */
  function ParseDecimal(s: string): (r: Option<Decimal>)
    ensures r.Some? ==> |Strip(s)| >= 1 && (r.value.negative <==> Strip(s)[0] == '-')
  {
    ParseSignedDecimal(Strip(s))
  }

  /** `Decimal()` on a string with no surrounding whitespace. */
  function ParseSignedDecimal(t: string): (r: Option<Decimal>)
    ensures r.Some? ==> |t| >= 1 && (r.value.negative <==> t[0] == '-')
  {
    var (negative, body) := SplitSign(t);
    match ParseUnsigned(body)
    case None => None
    case Some((coeff, places)) => Some(Decimal(negative, coeff, places))
  }

  /** Exactly the grammar's literals parse, after stripping. */
  lemma ParseDecimalAccepts(s: string)
    ensures ParseDecimal(s).Some? <==> DecimalLiteral(Strip(s))
  {
    var t := Strip(s);
    var (negative, body) := SplitSign(t);
    ParseUnsignedAccepts(body);
    if |t| >= 1 && (t[0] == '+' || t[0] == '-') {
      assert body == t[1..];
      assert !Unsigned(t) by {
        assert !(IsDigit(t[0]) || t[0] == '.');
      }
    } else {
      assert body == t;
      assert !(|t| >= 1 && (t[0] == '+' || t[0] == '-'));
    }
  }

  lemma ParseUnsignedAccepts(body: string)
    ensures ParseUnsigned(body).Some? <==> Unsigned(body)
  {
    var parts := Split(body, '.');
    if Count(body, '.') == 0 {
      SplitNoSeparator(body, '.');
    } else if Count(body, '.') == 1 {
      TwoParts(body, '.');
      NumeralAround(parts[0], parts[1]);
      assert |body| >= 2 <==> body != "." by {
        assert |body| == |parts[0]| + 1 + |parts[1]|;
      }
    }
  }

  /** A string with one separator is its two parts around it. */
  lemma TwoParts(t: string, sep: char)
    requires |Split(t, sep)| == 2
    ensures var p := Split(t, sep);
      t == p[0] + [sep] + p[1] && sep !in p[0] && sep !in p[1]
  {
    var p := Split(t, sep);
    JoinSplit(t, sep);
    SplitPartsFree(t, sep);
    assert p[1..] == [p[1]];
  }

  /** Around a single point, digits-or-point characters are digits. */
  lemma NumeralAround(p0: string, p1: string)
    requires '.' !in p0 && '.' !in p1
    ensures (forall i :: 0 <= i < |p0 + "." + p1| ==> IsDigit((p0 + "." + p1)[i]) || (p0 + "." + p1)[i] == '.')
      <==> AllDigits(p0) && AllDigits(p1)
  {
    var t := p0 + "." + p1;
    if AllDigits(p0) && AllDigits(p1) {
      forall i | 0 <= i < |t|
        ensures IsDigit(t[i]) || t[i] == '.'
      {
        if i < |p0| {
          assert t[i] == p0[i];
        } else if i > |p0| {
          assert t[i] == p1[i - |p0| - 1];
        }
      }
    }
    if forall i :: 0 <= i < |t| ==> IsDigit(t[i]) || t[i] == '.' {
      forall i | 0 <= i < |p0|
        ensures IsDigit(p0[i])
      {
        assert t[i] == p0[i];
        assert p0[i] != '.';
      }
      forall i | 0 <= i < |p1|
        ensures IsDigit(p1[i])
      {
        assert t[|p0| + 1 + i] == p1[i];
        assert p1[i] != '.';
      }
    }
  }

  /** The coefficient's digits, with leading zeros so that there is at least
      one digit before the point. */
  function Padded(d: Decimal): (p: string)
    ensures AllDigits(p) && |p| > d.places
  {
    var digits := ShowNat(d.coeff);
    if |digits| <= d.places then Zeros(d.places + 1 - |digits|) + digits else digits
  }

  lemma PaddedValue(d: Decimal)
    ensures DigitsValue(Padded(d)) == d.coeff
  {
    var digits := ShowNat(d.coeff);
    ShowNatValue(d.coeff);
    if |digits| <= d.places {
      LeadingZeros(d.places + 1 - |digits|, digits);
    }
  }

  /** A digit string with a point `k` digits from the right (none if `k` is
      zero). */
  function PlacePoint(p: string, k: nat): (t: string)
    requires k < |p|
  {
    if k == 0 then p else p[..|p| - k] + "." + p[|p| - k..]
  }

  /** Plain (non-scientific) text of a decimal, the form `str(Decimal)` uses
      when the adjusted exponent is at least -6: `Decimal(false, 450, 2)`
      renders as `4.50`, `Decimal(true, 5, 3)` as `-0.005`. */
  function Render(d: Decimal): (s: string)
    ensures |s| >= 1
  {
    var p := Padded(d);
    SignText(d.negative) + PlacePoint(p, d.places)
  }

  /** A rendering is written with digits, a sign and a point only. */
  lemma RenderNumeral(d: Decimal)
    ensures NumeralText(Render(d))
  {
    var p := Padded(d);
    assert Render(d) == SignText(d.negative) + PlacePoint(p, d.places);
    PointedNumeral(p, d.places);
    SignedNumeral(d.negative, PlacePoint(p, d.places));
  }

  lemma PointedNumeral(p: string, k: nat)
    requires AllDigits(p) && k < |p|
    ensures NumeralText(PlacePoint(p, k))
  {
    if k > 0 {
      var j := |p| - k;
      var t := PlacePoint(p, k);
      forall i | 0 <= i < |t|
        ensures IsDigit(t[i]) || t[i] == '-' || t[i] == '.'
      {
        if i < j {
          assert t[i] == p[i];
        } else if i > j {
          assert t[i] == p[i - 1];
        }
      }
    }
  }

  /** Parsing a rendering gives the decimal back, scale and sign included. */
  lemma ParseRender(d: Decimal)
    ensures ParseDecimal(Render(d)) == Some(d)
  {
    var p := Padded(d);
    assert Render(d) == SignText(d.negative) + PlacePoint(p, d.places);
    SignedPointParses(d.negative, p, d.places);
    PaddedValue(d);
  }

  lemma SignedPointParses(negative: bool, p: string, k: nat)
    requires AllDigits(p) && k < |p|
    ensures ParseDecimal(SignText(negative) + PlacePoint(p, k)) == Some(Decimal(negative, DigitsValue(p), k))
  {
    var body := PlacePoint(p, k);
    var s := SignText(negative) + body;
    PointedEdges(p, k);
    SignedStripped(negative, body, Whitespace);
    SignSplits(negative, body);
    ParsePointed(p, k);
    ParseSigned(s, negative, body, DigitsValue(p), k);
  }

  lemma ParseSigned(s: string, negative: bool, body: string, coeff: nat, places: nat)
    requires Strip(s) == s && SplitSign(s) == (negative, body)
    requires ParseUnsigned(body) == Some((coeff, places))
    ensures ParseDecimal(s) == Some(Decimal(negative, coeff, places))
  {
  }

  lemma PointedEdges(p: string, k: nat)
    requires AllDigits(p) && k < |p|
    ensures var t := PlacePoint(p, k); |t| >= 1 && IsDigit(t[0]) && IsDigit(t[|t| - 1])
  {
    var t := PlacePoint(p, k);
    if k > 0 {
      assert t[0] == p[0];
      assert t[|t| - 1] == p[|p| - 1];
    }
  }

  /** The digits and place count of a point placement read back. */
  lemma ParsePointed(p: string, k: nat)
    requires AllDigits(p) && k < |p|
    ensures ParseUnsigned(PlacePoint(p, k)) == Some((DigitsValue(p), k))
  {
    if k == 0 {
      NoPointInDigits(p);
      SplitNoSeparator(p, '.');
    } else {
      ParseInnerPoint(p, k);
    }
  }

  lemma ParseInnerPoint(p: string, k: nat)
    requires AllDigits(p) && 0 < k < |p|
    ensures ParseUnsigned(PlacePoint(p, k)) == Some((DigitsValue(p), k))
  {
    var p0, p1 := p[..|p| - k], p[|p| - k..];
    DigitsSlices(p, |p| - k);
    SplitAtPoint(p0, p1);
    ParseTwoParts(p0 + ['.'] + p1, p0, p1);
  }

  lemma SplitAtPoint(p0: string, p1: string)
    requires AllDigits(p0) && AllDigits(p1)
    ensures Split(p0 + ['.'] + p1, '.') == [p0, p1]
  {
    NoPointInDigits(p0);
    NoPointInDigits(p1);
    SplitAppend(p0, p1, '.');
    SplitNoSeparator(p0, '.');
    SplitNoSeparator(p1, '.');
  }

  lemma ParseTwoParts(body: string, p0: string, p1: string)
    requires Split(body, '.') == [p0, p1] && |body| >= 2
    requires AllDigits(p0) && AllDigits(p1)
    ensures ParseUnsigned(body) == Some((DigitsValue(p0 + p1), |p1|))
  {
  }

  lemma NoPointInDigits(p: string)
    requires AllDigits(p)
    ensures '.' !in p
  {
  }

  /** The value of a literal with a point: the digits on both sides form
      the coefficient and those after the point count the places, so
      `Decimal("+.5")` is 5 with one place and `Decimal("-5.")` is -5 with
      none. */
  lemma ParsePointLiteral(sign: string, p0: string, p1: string)
    requires IsSign(sign) && AllDigits(p0) && AllDigits(p1) && |p0| + |p1| >= 1
    ensures ParseDecimal(sign + (p0 + "." + p1)) == Some(Decimal(sign == "-", DigitsValue(p0 + p1), |p1|))
  {
    var body := p0 + "." + p1;
    var s := sign + body;
    PointBodyEdges(p0, p1);
    SignedEdges(sign, body, Whitespace);
    SignedSplit(sign, body);
    SplitAtPoint(p0, p1);
    ParseTwoParts(body, p0, p1);
    ParseSigned(s, sign == "-", body, DigitsValue(p0 + p1), |p1|);
  }

  /** Digits around a point start and end with a digit or the point. */
  lemma PointBodyEdges(p0: string, p1: string)
    requires AllDigits(p0) && AllDigits(p1)
    ensures var body := p0 + "." + p1;
      && |body| >= 1
      && !IsSpace(body[0]) && body[0] != '+' && body[0] != '-'
      && !IsSpace(body[|body| - 1])
  {
    var body := p0 + "." + p1;
    if |p0| > 0 {
      assert body[0] == p0[0];
      DigitNotSpace(p0[0]);
    } else {
      assert body[0] == '.';
    }
    if |p1| > 0 {
      assert body[|body| - 1] == p1[|p1| - 1];
      DigitNotSpace(p1[|p1| - 1]);
    } else {
      assert body[|body| - 1] == '.';
    }
  }

  /** The value of a literal without a point: `Decimal("+45")` is 45 with
      no places. */
  lemma ParseWholeLiteral(sign: string, digits: string)
    requires IsSign(sign) && |digits| >= 1 && AllDigits(digits)
    ensures ParseDecimal(sign + digits) == Some(Decimal(sign == "-", DigitsValue(digits), 0))
  {
    DigitNotSpace(digits[0]);
    DigitNotSpace(digits[|digits| - 1]);
    SignedEdges(sign, digits, Whitespace);
    SignedSplit(sign, digits);
    NoPointInDigits(digits);
    SplitNoSeparator(digits, '.');
  }

  /** Whitespace around a literal is ignored, as `Decimal(" 4.50\n")` shows. */
  lemma ParseDecimalPadded(l: string, s: string, t: string)
    requires AllSpace(l) && AllSpace(t)
    ensures ParseDecimal(l + s + t) == ParseDecimal(s)
  {
    TrimAbsorbsSpace(l, s, t, Whitespace);
  }
}
