/**
 * One sales record (`Transakcja`), its value, and the way one line of the
 * sales CSV becomes a record: the line is stripped, split at every comma,
 * the first five pieces become the text fields, the sixth goes through
 * `Decimal()` and the seventh through `int()`.  Pieces after the seventh are
 * ignored; nothing checks the number of pieces beyond the indexing itself.
 */
module Transakcje {
  import opened Options
  import opened Text
  import opened Digits
  import opened Integers
  import opened Decimals

  /** A sale: when, where (city and shop), what (category and product), the
      unit price and the number of units sold. */
  datatype Transakcja = Transakcja(
    data: string,
    miasto: string,
    sklep: string,
    kategoria: string,
    towar: string,
    cena: Decimal,
    sztuk: int)

  /** The `wartosc` property: `cena * sztuk`.  The count becomes a decimal
      with no places, so the value keeps the price's scale: 4.50 times 2 is
      9.00, not 9. */
  function Wartosc(t: Transakcja): (w: Decimal)
    ensures Numerator(w) == Numerator(t.cena) * t.sztuk
    ensures w.places == t.cena.places
  {
    Multiply(t.cena, FromInt(t.sztuk))
  }

  /** Records whose prices compare equal and whose counts agree have values
      that compare equal, whatever the prices' scales. */
  lemma WartoscRespectsValue(t: Transakcja, u: Transakcja)
    requires SameValue(t.cena, u.cena) && t.sztuk == u.sztuk
    ensures SameValue(Wartosc(t), Wartosc(u))
  {
    MultiplyRespectsValue(t.cena, u.cena, FromInt(t.sztuk), FromInt(u.sztuk));
  }

  /** The exceptions a line can raise: `t[5]` or `t[6]` past the end of the
      pieces, `Decimal()` rejecting the price, `int()` rejecting the count. */
  datatype ParseError = IndexError | InvalidOperation | ValueError

  datatype LineResult = Parsed(record: Transakcja) | Raised(error: ParseError)

  /** `Transakcja(*t[0:5], Decimal(t[5]), int(t[6]))`, with Python's order of
      evaluation: the slice never fails, then `t[5]` is indexed and converted,
      then `t[6]` is indexed and converted.  So a line with six pieces and a
      bad price raises `InvalidOperation`, not `IndexError`. */
  function ParseFields(t: seq<string>): (r: LineResult)
    ensures r == Raised(IndexError) <==> |t| < 6 || (|t| == 6 && ParseDecimal(t[5]).Some?)
    ensures r == Raised(InvalidOperation) <==> |t| >= 6 && ParseDecimal(t[5]).None?
    ensures r == Raised(ValueError) <==>
      |t| >= 7 && ParseDecimal(t[5]).Some? && ParseInt(t[6]).None?
    ensures r.Parsed? ==>
      && |t| >= 7
      && r.record.data == t[0] && r.record.miasto == t[1] && r.record.sklep == t[2]
      && r.record.kategoria == t[3] && r.record.towar == t[4]
      && Some(r.record.cena) == ParseDecimal(t[5])
      && Some(r.record.sztuk) == ParseInt(t[6])
  {
    if |t| < 6 then
      Raised(IndexError)
    else
      match ParseDecimal(t[5])
      case None => Raised(InvalidOperation)
      case Some(cena) =>
        if |t| < 7 then
          Raised(IndexError)
        else
          match ParseInt(t[6])
          case None => Raised(ValueError)
          case Some(sztuk) => Parsed(Transakcja(t[0], t[1], t[2], t[3], t[4], cena, sztuk))
  }

  /** `linia.strip().split(',')` and the constructor call.  A line with fewer
      than five commas always raises `IndexError`. */
  function ParseLine(line: string): (r: LineResult)
    ensures Count(Strip(line), ',') < 5 ==> r == Raised(IndexError)
    ensures r.Parsed? ==> Count(Strip(line), ',') >= 6
  {
    ParseFields(Split(Strip(line), ','))
  }

  /** Whitespace around a line, the line break included, changes nothing. */
  lemma ParseLinePadded(l: string, s: string, t: string)
    requires AllSpace(l) && AllSpace(t)
    ensures ParseLine(l + s + t) == ParseLine(s)
  {
    TrimAbsorbsSpace(l, s, t, Whitespace);
  }

  /** A blank line (one that is only whitespace, such as `"\n"`) raises
      `IndexError`: it strips to the empty string, which splits into a single
      empty piece. */
  lemma BlankLineRaises(line: string)
    requires AllSpace(line)
    ensures ParseLine(line) == Raised(IndexError)
  {
    BlankStrips(line);
    SplitEmpty(',');
    FewFields(Split(Strip(line), ','));
  }

  lemma BlankStrips(line: string)
    requires AllSpace(line)
    ensures Strip(line) == []
  {
    TrimAbsorbsSpace(line, [], [], Whitespace);
    assert line + [] + [] == line;
  }

  lemma FewFields(t: seq<string>)
    requires |t| < 6
    ensures ParseFields(t) == Raised(IndexError)
  {
  }

  /** Pieces after the seventh are ignored: appending a comma and anything
      to a line that already has seven pieces does not change the result. */
  lemma ExtraColumnsIgnored(s: string, x: string)
    requires |Split(s, ',')| >= 7
    ensures ParseFields(Split(s + [','] + x, ',')) == ParseFields(Split(s, ','))
  {
    var a, b := Split(s, ','), Split(x, ',');
    SplitAppend(s, x, ',');
    PrefixFields(a, a + b);
  }

  lemma PrefixFields(a: seq<string>, c: seq<string>)
    requires |a| >= 7 && |c| >= |a| && a == c[..|a|]
    ensures ParseFields(c) == ParseFields(a)
  {
    assert a[5] == c[5] && a[6] == c[6];
    assert a[..5] == c[..5];
  }

  /** The seven pieces a record is written as. */
  function Fields(t: Transakcja): (f: seq<string>)
    ensures |f| == 7
  {
    [t.data, t.miasto, t.sklep, t.kategoria, t.towar, Render(t.cena), ShowInt(t.sztuk)]
  }

  /** A record as a CSV line, without the line break. */
  function FormatLine(t: Transakcja): string {
    Join(Fields(t), ',')
  }

  /** The records that survive being written and read back: no comma, line
      break or carriage return inside a text field (a carriage return ends a
      line once the file is read in text mode), and no whitespace at the
      start of the first field (which `strip()` would remove). */
  predicate Writable(t: Transakcja) {
    && Plain(t.data) && Plain(t.miasto) && Plain(t.sklep)
    && Plain(t.kategoria) && Plain(t.towar)
    && (|t.data| == 0 || !IsSpace(t.data[0]))
  }

  /** A text field with no comma, line break or carriage return. */
  predicate Plain(s: string) {
    ',' !in s && '\n' !in s && '\r' !in s
  }

  /** Reading a written record gives it back, price scale included. */
  lemma LineRoundTrip(t: Transakcja)
    requires Writable(t)
    ensures ParseLine(FormatLine(t) + "\n") == Parsed(t)
  {
    var s := FormatLine(t);
    LineStripped(t);
    TrimUnique([], s, "\n", Whitespace);
    assert [] + s + "\n" == s + "\n";
    LineSplits(t);
    FieldsParse(t);
  }

  lemma LineSplits(t: Transakcja)
    requires Writable(t)
    ensures Split(FormatLine(t), ',') == Fields(t)
  {
    RenderNumeral(t.cena);
    ShowIntNumeral(t.sztuk);
    NumeralExcludes(Render(t.cena), ',');
    NumeralExcludes(ShowInt(t.sztuk), ',');
    SevenPieces(Fields(t), ',');
  }

  lemma SevenPieces(f: seq<string>, sep: char)
    requires |f| == 7
    requires sep !in f[0] && sep !in f[1] && sep !in f[2] && sep !in f[3]
    requires sep !in f[4] && sep !in f[5] && sep !in f[6]
    ensures Split(Join(f, sep), sep) == f
  {
    SplitJoin(f, sep);
  }

  lemma FieldsParse(t: Transakcja)
    ensures ParseFields(Fields(t)) == Parsed(t)
  {
    ParseRender(t.cena);
    ParseShowInt(t.sztuk);
  }

  /** A written line starts with the first field or a comma, and ends with
      the last digit of the count, so `strip()` leaves it alone. */
  lemma LineStripped(t: Transakcja)
    requires Writable(t)
    ensures NoEdgeSpace(FormatLine(t))
  {
    var f := Fields(t);
    ShowIntEndsInDigit(t.sztuk);
    DigitNotSpace(f[6][|f[6]| - 1]);
    FirstNotSpace(t.data, ',');
    StrippedJoin(f, ',');
  }

  lemma FirstNotSpace(a: string, sep: char)
    requires sep == ',' && (|a| == 0 || !IsSpace(a[0]))
    ensures !IsSpace((a + [sep])[0])
  {
  }

  lemma StrippedJoin(f: seq<string>, sep: char)
    requires |f| >= 2 && |f[|f| - 1]| >= 1
    requires !IsSpace((f[0] + [sep])[0])
    requires var z := f[|f| - 1]; !IsSpace(z[|z| - 1])
    ensures NoEdgeSpace(Join(f, sep))
  {
    JoinEdges(f, sep);
  }

  /** The first character of a join with two or more pieces comes from the
      first piece (or is the separator), the last one from the last piece. */
  lemma JoinEdges(f: seq<string>, sep: char)
    requires |f| >= 2 && |f[|f| - 1]| >= 1
    ensures var s, z := Join(f, sep), f[|f| - 1];
      |s| >= 1 && s[0] == (f[0] + [sep])[0] && s[|s| - 1] == z[|z| - 1]
  {
    var s, z := Join(f, sep), f[|f| - 1];
    assert s == (f[0] + [sep]) + Join(f[1..], sep);
    JoinAppend(f[..|f| - 1], [z], sep);
    assert f[..|f| - 1] + [z] == f;
    assert s == (Join(f[..|f| - 1], sep) + [sep]) + z;
  }

  /** A sample record: its price is read from `"4.50"` with two places, and
      two units are worth 9.00, not 9. */
  lemma SampleValue(t: Transakcja)
    requires t.cena == Decimal(false, 450, 2) && t.sztuk == 2
    ensures ParseDecimal("4.50") == Some(t.cena)
    ensures Wartosc(t) == Decimal(false, 900, 2)
  {
    SampleRender();
    ParseRender(t.cena);
  }

  lemma SampleRender()
    ensures Render(Decimal(false, 450, 2)) == "4.50"
  {
    assert ShowNat(4) == "4";
    assert ShowNat(45) == "45";
    assert ShowNat(450) == "450";
    assert Padded(Decimal(false, 450, 2)) == "450";
  }
}
