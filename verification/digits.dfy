/**
 * Decimal digit strings, shared by the two number parsers (`Decimal()` and
 * `int()`) and by the canonical renderings used as their inverses.  Only the
 * ASCII digits `0`-`9` are modelled.
 */
module Digits {
  import opened Text

  predicate IsDigit(c: char) {
    '0' <= c <= '9'
  }

  predicate AllDigits(s: string) {
    forall i :: 0 <= i < |s| ==> IsDigit(s[i])
  }

  function DigitValue(c: char): (d: nat)
    requires IsDigit(c)
    ensures d < 10
  {
    c as int - '0' as int
  }

  function DigitChar(d: nat): (c: char)
    requires d < 10
    ensures IsDigit(c) && DigitValue(c) == d
  {
    ('0' as int + d) as char
  }

  function Pow10(n: nat): (p: nat)
    ensures p >= 1
  {
    if n == 0 then 1 else 10 * Pow10(n - 1)
  }

  lemma {:induction false} Pow10Add(a: nat, b: nat)
    ensures Pow10(a + b) == Pow10(a) * Pow10(b)
  {
    if b > 0 {
      Pow10Add(a, b - 1);
      TimesTen(Pow10(a + b), Pow10(a + b - 1), Pow10(a), Pow10(b), Pow10(b - 1));
    }
  }

  lemma TimesTen(x: int, x': int, pa: int, pb: int, pb': int)
    requires x == 10 * x' && x' == pa * pb' && pb == 10 * pb'
    ensures x == pa * pb
  {
  }

  /** The number a digit string denotes, most significant digit first;
      leading zeros are allowed. */
  function DigitsValue(s: string): (n: nat)
    requires AllDigits(s)
  {
    if |s| == 0 then 0 else 10 * DigitsValue(s[..|s| - 1]) + DigitValue(s[|s| - 1])
  }

  /** `str(n)` for a non-negative `n`: the shortest digit string of `n`. */
  function ShowNat(n: nat): (s: string)
    ensures |s| >= 1 && AllDigits(s)
    ensures |s| == 1 || s[0] != '0'
  {
    if n < 10 then
      [DigitChar(n)]
    else
      ShowNat(n / 10) + [DigitChar(n % 10)]
  }

  /** Reading `str(n)` back gives `n`. */
  lemma {:induction false} ShowNatValue(n: nat)
    ensures DigitsValue(ShowNat(n)) == n
  {
    var s := ShowNat(n);
    if n >= 10 {
      assert s[..|s| - 1] == ShowNat(n / 10);
      ShowNatValue(n / 10);
      assert DigitValue(s[|s| - 1]) == n % 10;
    }
  }

  /** `n` zero digits. */
  function Zeros(n: nat): (s: string)
    ensures |s| == n && AllDigits(s)
  {
    if n == 0 then [] else Zeros(n - 1) + ['0']
  }

  lemma {:induction false} ZerosValue(n: nat)
    ensures DigitsValue(Zeros(n)) == 0
  {
    if n > 0 {
      var s := Zeros(n);
      assert s[..|s| - 1] == Zeros(n - 1);
      ZerosValue(n - 1);
    }
  }

  /** Reading the digits of `a + b` is reading `a`, shifted by `|b|` places,
      plus reading `b`. */
  lemma {:induction false} DigitsAppend(a: string, b: string)
    requires AllDigits(a) && AllDigits(b)
    ensures AllDigits(a + b)
    ensures DigitsValue(a + b) == DigitsValue(a) * Pow10(|b|) + DigitsValue(b)
  {
    var s := a + b;
    if |b| == 0 {
      assert s == a;
    } else {
      var b' := b[..|b| - 1];
      var d := DigitValue(b[|b| - 1]);
      var v, vb, vab' := DigitsValue(s), DigitsValue(b), DigitsValue(a + b');
      assert v == 10 * vab' + d by {
        assert s[..|s| - 1] == a + b';
        assert s[|s| - 1] == b[|b| - 1];
      }
      assert vb == 10 * DigitsValue(b') + d;
      DigitsAppend(a, b');
      ShiftStep(v, vab', vb, DigitsValue(a), DigitsValue(b'), Pow10(|b|), Pow10(|b'|), d);
    }
  }

  lemma ShiftStep(v: int, vab': int, vb: int, va: int, vb': int, p: int, p': int, d: int)
    requires v == 10 * vab' + d && vab' == va * p' + vb'
    requires vb == 10 * vb' + d && p == 10 * p'
    ensures v == va * p + vb
  {
  }

  /** Both pieces of a digit string cut in two are digit strings. */
  lemma DigitsSlices(s: string, i: nat)
    requires AllDigits(s) && i <= |s|
    ensures AllDigits(s[..i]) && AllDigits(s[i..]) && s[..i] + s[i..] == s
  {
    assert forall j :: 0 <= j < |s[i..]| ==> s[i..][j] == s[i + j];
  }

  /** Leading zeros do not change the value of a digit string. */
  lemma LeadingZeros(n: nat, s: string)
    requires AllDigits(s)
    ensures AllDigits(Zeros(n) + s)
    ensures DigitsValue(Zeros(n) + s) == DigitsValue(s)
  {
    var z := Zeros(n);
    DigitsAppend(z, s);
    ZerosValue(n);
    assert DigitsValue(z) * Pow10(|s|) == 0 by {
      assert DigitsValue(z) == 0;
    }
  }

  /** Splits an optional leading `+` or `-` off a numeric literal; the boolean
      says whether the literal is negative. */
  function SplitSign(t: string): (r: (bool, string))
    ensures t == r.1 || (|t| >= 1 && t[1..] == r.1 && (t[0] == '+' || t[0] == '-'))
    ensures r.0 <==> |t| >= 1 && t[0] == '-'
  {
    if |t| >= 1 && (t[0] == '+' || t[0] == '-') then (t[0] == '-', t[1..]) else (false, t)
  }

  /** The sign a literal may start with: none, `+` or `-`. */
  predicate IsSign(sign: string) {
    sign == "" || sign == "+" || sign == "-"
  }

  /** `SplitSign` takes off exactly the sign a literal starts with, and
      only `-` makes it negative. */
  lemma SignedSplit(sign: string, body: string)
    requires IsSign(sign) && |body| >= 1 && body[0] != '+' && body[0] != '-'
    ensures SplitSign(sign + body) == (sign == "-", body)
  {
    var s := sign + body;
    if sign == "" {
      assert s == body;
    } else {
      assert s[1..] == body;
    }
  }

  /** A signed literal whose body starts and ends outside `ws` has nothing
      to trim, when neither sign is in `ws`. */
  lemma SignedEdges(sign: string, body: string, ws: set<char>)
    requires IsSign(sign) && |body| >= 1 && body[0] !in ws && body[|body| - 1] !in ws
    requires '+' !in ws && '-' !in ws
    ensures Trim(sign + body, ws) == sign + body
  {
    var s := sign + body;
    assert s[|s| - 1] == body[|body| - 1];
    assert s[0] == body[0] || s[0] == '+' || s[0] == '-';
    TrimStripped(s, ws);
  }

  /** The sign text `str()` puts before a negative number. */
  function SignText(negative: bool): string {
    if negative then "-" else ""
  }

  /** `SplitSign` takes off exactly the sign `SignText` put on. */
  lemma SignSplits(negative: bool, body: string)
    requires |body| >= 1 && IsDigit(body[0])
    ensures SplitSign(SignText(negative) + body) == (negative, body)
  {
    var s := SignText(negative) + body;
    if negative {
      assert s[1..] == body;
    } else {
      assert s == body;
    }
  }

  /** A signed numeral that starts and ends with a digit has no whitespace
      to trim, for any set of whitespace characters. */
  lemma SignedStripped(negative: bool, body: string, ws: set<char>)
    requires |body| >= 1 && IsDigit(body[0]) && IsDigit(body[|body| - 1])
    requires ws <= Whitespace
    ensures Trim(SignText(negative) + body, ws) == SignText(negative) + body
  {
    var s := SignText(negative) + body;
    assert s[|s| - 1] == body[|body| - 1];
    assert s[0] == '-' || s[0] == body[0];
    DigitNotSpace(body[0]);
    DigitNotSpace(body[|body| - 1]);
    TrimStripped(s, ws);
  }

  lemma DigitNotSpace(c: char)
    requires IsDigit(c)
    ensures !IsSpace(c)
  {
  }

  /** Text made of digits, minus signs and points only, as numbers are
      written here. */
  predicate NumeralText(s: string) {
    forall i :: 0 <= i < |s| ==> IsDigit(s[i]) || s[i] == '-' || s[i] == '.'
  }

  lemma NumeralExcludes(s: string, c: char)
    requires NumeralText(s) && !IsDigit(c) && c != '-' && c != '.'
    ensures c !in s
  {
  }

  lemma SignedNumeral(negative: bool, body: string)
    requires NumeralText(body)
    ensures NumeralText(SignText(negative) + body)
  {
    var s := SignText(negative) + body;
    forall i | 0 <= i < |s|
      ensures IsDigit(s[i]) || s[i] == '-' || s[i] == '.'
    {
      if i >= |SignText(negative)| {
        assert s[i] == body[i - |SignText(negative)|];
      }
    }
  }
}
