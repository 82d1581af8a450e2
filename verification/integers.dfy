/**
 * Python's `int(s)` on a string in base 10 and its inverse `str(n)`.
 * `int()` ignores surrounding whitespace, takes an optional sign and then
 * needs at least one digit; leading zeros are allowed.
 */
module Integers {
  import opened Options
  import opened Text
  import opened Digits

  /** The literals `int()` accepts in this model: an optional sign followed
      by one or more digits. */
  predicate IntLiteral(t: string) {
    || (|t| >= 1 && AllDigits(t))
    || (|t| >= 2 && (t[0] == '+' || t[0] == '-') && AllDigits(t[1..]))
  }

  /** The whitespace `int()` skips around a literal.  CPython's `int()` turns
      every non-ASCII whitespace character into a space and then skips only
      the ASCII whitespace tab, line feed, vertical tab, form feed, carriage
      return and space.  The information separators U+001C to U+001F, which
      `str.strip()` and `Decimal()` treat as whitespace, are therefore not
      skipped. */
  const IntWhitespace: set<char> := Whitespace - {'\U{1C}', '\U{1D}', '\U{1E}', '\U{1F}'}

  /** The digits of an unsigned literal, read in base 10. */
  function ParseNatural(body: string): (r: Option<nat>)
    ensures r.Some? <==> |body| >= 1 && AllDigits(body)
  {
    if |body| >= 1 && AllDigits(body) then Some(DigitsValue(body)) else None
  }

  /** `int(s)`; `None` stands for the `ValueError` Python raises. */
  function ParseInt(s: string): (r: Option<int>)
    ensures r.Some? ==> |Trim(s, IntWhitespace)| >= 1
    ensures r.Some? && r.value < 0 ==> Trim(s, IntWhitespace)[0] == '-'
  {
    ParseSignedInt(Trim(s, IntWhitespace))
  }

  /** `int()` on a string with no surrounding whitespace. */
  function ParseSignedInt(t: string): (r: Option<int>)
    ensures r.Some? ==> |t| >= 1
    ensures r.Some? && r.value < 0 ==> t[0] == '-'
  {
    var (negative, body) := SplitSign(t);
    match ParseNatural(body)
    case None => None
    case Some(n) => Some(if negative then -(n as int) else n)
  }

  /** Exactly the grammar's literals parse, after trimming `int()`'s
      whitespace. */
  lemma ParseIntAccepts(s: string)
    ensures ParseInt(s).Some? <==> IntLiteral(Trim(s, IntWhitespace))
  {
    var t := Trim(s, IntWhitespace);
    var (negative, body) := SplitSign(t);
    if |t| >= 1 && (t[0] == '+' || t[0] == '-') {
      assert body == t[1..];
      assert !AllDigits(t) by {
        assert !IsDigit(t[0]);
      }
    } else {
      assert body == t;
    }
  }

  /** `str(n)`: a minus sign for negative numbers, then the shortest digits. */
  function ShowInt(n: int): (s: string)
    ensures |s| >= 1
  {
    if n < 0 then "-" + ShowNat(-n) else ShowNat(n)
  }

  /** `str(n)` ends with a digit. */
  lemma ShowIntEndsInDigit(n: int)
    ensures var s := ShowInt(n); IsDigit(s[|s| - 1])
  {
    var m: nat := if n < 0 then -n else n;
    var digits := ShowNat(m);
    assert ShowInt(n) == SignText(n < 0) + digits;
    assert (SignText(n < 0) + digits)[|SignText(n < 0) + digits| - 1] == digits[|digits| - 1];
  }

  /** `str(n)` is written with digits and a sign only. */
  lemma ShowIntNumeral(n: int)
    ensures NumeralText(ShowInt(n))
  {
    var m: nat := if n < 0 then -n else n;
    var digits := ShowNat(m);
    assert ShowInt(n) == SignText(n < 0) + digits;
    SignedNumeral(n < 0, digits);
  }

  /** `int(str(n)) == n`. */
  lemma ParseShowInt(n: int)
    ensures ParseInt(ShowInt(n)) == Some(n)
  {
    var m: nat := if n < 0 then -n else n;
    var digits := ShowNat(m);
    assert ShowInt(n) == SignText(n < 0) + digits;
    ShowNatValue(m);
    ParseIntLiteral(SignText(n < 0), digits);
  }

  lemma NaturalDigits(digits: string)
    requires |digits| >= 1 && AllDigits(digits)
    ensures ParseNatural(digits) == Some(DigitsValue(digits))
  {
  }

  /** The value of every literal: `int("+5") == int("5") == 5`,
      `int("-007") == -7`. */
  lemma ParseIntLiteral(sign: string, digits: string)
    requires IsSign(sign) && |digits| >= 1 && AllDigits(digits)
    ensures ParseInt(sign + digits) == Some(if sign == "-" then -(DigitsValue(digits) as int) else DigitsValue(digits))
  {
    DigitNotSpace(digits[0]);
    DigitNotSpace(digits[|digits| - 1]);
    SignsNotSkipped();
    SignedEdges(sign, digits, IntWhitespace);
    SignedIntValue(sign, digits);
  }

  lemma SignsNotSkipped()
    ensures '+' !in IntWhitespace && '-' !in IntWhitespace
  {
  }

  lemma SignedIntValue(sign: string, digits: string)
    requires IsSign(sign) && |digits| >= 1 && AllDigits(digits)
    ensures ParseSignedInt(sign + digits) == Some(if sign == "-" then -(DigitsValue(digits) as int) else DigitsValue(digits))
  {
    SignedSplit(sign, digits);
    NaturalDigits(digits);
  }

  /** Whitespace around a literal is ignored, as `int(" 2\n")` shows. */
  lemma ParseIntPadded(l: string, s: string, t: string)
    requires AllIn(l, IntWhitespace) && AllIn(t, IntWhitespace)
    ensures ParseInt(l + s + t) == ParseInt(s)
  {
    TrimAbsorbsSpace(l, s, t, IntWhitespace);
  }

  /** A piece that starts with one of U+001C to U+001F never converts,
      although `strip()` would remove that character: `int("\x1c5")`
      raises `ValueError` where `Decimal("\x1c5")` gives 5. */
  lemma SeparatorNotSkipped(c: char, s: string)
    requires c in Whitespace && c !in IntWhitespace
    ensures IsSpace(c)
    ensures ParseInt([c] + s) == None
  {
    var x := [c] + s;
    if AllIn(s, IntWhitespace) {
      TrimEndSpace([c], s, IntWhitespace);
    } else {
      TrimEndPrefix([c], s, IntWhitespace);
    }
    var e := TrimEnd(x, IntWhitespace);
    assert e[0] == c;
    assert Trim(x, IntWhitespace) == e;
    ParseIntAccepts(x);
  }
}
