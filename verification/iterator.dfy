/**
 * `IteratorTransakcji`: a context manager that opens the sales file, skips
 * its header line on entry, and yields one record per further line until
 * `readline()` returns the empty string.
 *
 * The open file is modelled by its whole text, already decoded and with line
 * ends translated to `\n` (`Translate`), and by the offset of the next unread
 * character; `readline()` returns the text up to and including the next `\n`
 * (or the rest of the file), and `""` only at the end of the file.  A `for` loop over
 * the iterator sees the records in order and stops either when the file is
 * exhausted or when a line raises, and the exception then ends the loop.
 */
module IteratorTransakcji {
  import opened Options
  import opened Text
  import opened Digits
  import opened Integers
  import opened Decimals
  import opened Transakcje

  /** The offset just past the line that starts at `pos`: past its `\n`, or
      the end of the file when the last line has none. */
  function LineEnd(content: string, pos: nat): (e: nat)
    requires pos <= |content|
    ensures pos <= e <= |content|
    ensures e == pos <==> pos == |content|
    ensures e == |content| || content[e - 1] == '\n'
    ensures forall i :: pos <= i < e - 1 ==> content[i] != '\n'
    decreases |content| - pos
  {
    if pos == |content| then pos
    else if content[pos] == '\n' then pos + 1
    else LineEnd(content, pos + 1)
  }

  /** `self.plik.readline()` at offset `pos`: the line read and the new
      offset.  The line is empty exactly at the end of the file. */
  function ReadLine(content: string, pos: nat): (r: (string, nat))
    requires pos <= |content|
    ensures pos <= r.1 <= |content| && r.0 == content[pos..r.1]
    ensures |r.0| == 0 <==> pos == |content|
    ensures r.1 == |content| || content[r.1 - 1] == '\n'
    ensures forall i :: pos <= i < r.1 - 1 ==> content[i] != '\n'
  {
    var e := LineEnd(content, pos);
    (content[pos..e], e)
  }

  /** The newline translation of a file opened in text mode (universal
      newlines): `\r\n` and a lone `\r` each become `\n`.  The iterator
      reads the translated text. */
  function Translate(raw: string): (t: string)
    ensures '\r' !in t
    ensures |t| <= |raw|
    ensures '\r' !in raw ==> t == raw
    decreases |raw|
  {
    if |raw| == 0 then
      []
    else if raw[0] == '\r' then
      "\n" + Translate(if |raw| >= 2 && raw[1] == '\n' then raw[2..] else raw[1..])
    else
      assert raw == [raw[0]] + raw[1..];
      [raw[0]] + Translate(raw[1..])
  }

  /** Text without a carriage return passes through translation unchanged
      when it comes first. */
  lemma {:induction false} TranslatePrefix(x: string, z: string)
    requires '\r' !in x
    ensures Translate(x + z) == x + Translate(z)
    decreases |x|
  {
    if |x| > 0 {
      assert (x + z)[0] == x[0];
      assert (x + z)[1..] == x[1..] + z;
      TranslatePrefix(x[1..], z);
      assert x == [x[0]] + x[1..];
    } else {
      assert x + z == z;
    }
  }

  /** A carriage return ends a line, alone or followed by a line break: the
      text before it is read as one whole line, and the lines after it are
      those of the rest.  A `\r\n` pair is a single line end, so it adds no
      blank line. */
  lemma CarriageReturnEndsLine(x: string, y: string)
    requires '\n' !in x && '\r' !in x
    ensures |y| >= 1 && y[0] == '\n' ==>
      Lines(Translate(x + "\r" + y)) == [x + "\n"] + Lines(Translate(y[1..]))
    ensures !(|y| >= 1 && y[0] == '\n') ==>
      Lines(Translate(x + "\r" + y)) == [x + "\n"] + Lines(Translate(y))
  {
    var z := "\r" + y;
    assert x + "\r" + y == x + z;
    TranslatePrefix(x, z);
    var t := Translate(ReturnRest(y));
    TranslateReturn(y);
    assert x + ("\n" + t) == x + ['\n'] + t;
    BrokenLine(x, t);
  }

  /** What follows a carriage return once it is translated: the text after
      it, without the line break it may pair with. */
  function ReturnRest(y: string): string {
    if |y| >= 1 && y[0] == '\n' then y[1..] else y
  }

  lemma TranslateReturn(y: string)
    ensures Translate("\r" + y) == "\n" + Translate(ReturnRest(y))
  {
    var r := "\r" + y;
    assert r[0] == '\r' && r[1..] == y;
    if |y| >= 1 && y[0] == '\n' {
      assert r[2..] == y[1..];
    }
  }

  /** `__enter__`: the header line is read and dropped; the offset after it
      is where iteration starts. */
  function Enter(content: string): (pos: nat)
    ensures pos <= |content|
    ensures pos == 0 <==> |content| == 0
    ensures pos == |content| || content[pos - 1] == '\n'
    ensures forall i :: 0 <= i < pos - 1 ==> content[i] != '\n'
    ensures |content| > 0 ==> |Lines(content)| >= 1 && content[..pos] == Lines(content)[0]
  {
    LinesFromSplit(content, 0);
    assert content[0..] == content;
    ReadLine(content, 0).1
  }

  /** The conversion `__next__` applies to each line it reads; the iterator
      itself does not depend on what it is, and `Iterate` uses `ParseLine`. */
  type LineParser = string -> LineResult

  /** How a `for` loop over the iterator ends: `StopIteration`, or one of the
      exceptions a line raises. */
  datatype Ending = Exhausted | Failed(error: ParseError)

  /** What one call of `__next__` does.  `readline()` runs before the
      conversion, so a line that raises is consumed as well: `next` is the
      offset after the line read, whether it yields or raises. */
  datatype Step = Stop | Yield(record: Transakcja, next: nat) | Raise(error: ParseError, next: nat)

  /** `__next__` at offset `pos`. */
  function Next(parse: LineParser, content: string, pos: nat): (s: Step)
    requires pos <= |content|
    ensures s.Stop? <==> pos == |content|
    ensures !s.Stop? ==> pos < s.next <= |content|
    ensures !s.Stop? ==> s.next == |content| || content[s.next - 1] == '\n'
    ensures !s.Stop? ==> forall i :: pos <= i < s.next - 1 ==> content[i] != '\n'
    ensures !s.Stop? ==> LinesFrom(content, s.next) == LinesFrom(content, pos)[1..]
    ensures s.Yield? ==> parse(ReadLine(content, pos).0) == Parsed(s.record)
    ensures s.Raise? ==> parse(ReadLine(content, pos).0) == Raised(s.error)
  {
    var (linia, next) := ReadLine(content, pos);
    if |linia| == 0 then
      Stop
    else
      match parse(linia)
      case Parsed(t) => Yield(t, next)
      case Raised(e) => Raise(e, next)
  }

  /** The records a loop sees and how it ends. */
  datatype Outcome = Outcome(records: seq<Transakcja>, ending: Ending)

  /** A `for` loop calling `__next__` from offset `pos` on.  It is the
      reference reading of the lines `readline()` returns from there. */
  function Run(parse: LineParser, content: string, pos: nat): (o: Outcome)
    requires pos <= |content|
    ensures o == ParseAll(parse, LinesFrom(content, pos))
    decreases |content| - pos
  {
    match Next(parse, content, pos)
    case Stop => Outcome([], Exhausted)
    case Raise(e, _) =>
      assert LinesFrom(content, pos)[0] == ReadLine(content, pos).0;
      Outcome([], Failed(e))
    case Yield(t, next) =>
      var rest := Run(parse, content, next);
      var ls := LinesFrom(content, pos);
      assert ls[0] == ReadLine(content, pos).0 && ls[1..] == LinesFrom(content, next);
      Outcome([t] + rest.records, rest.ending)
  }

  /** `with IteratorTransakcji(path) as it: for transakcja in it: ...`: the
      records the loop body sees, and how the loop ends.  An empty file
      yields nothing; otherwise the loop is the reference reading of every
      line after the header. */
  function Iterate(content: string): (o: Outcome)
    ensures |content| == 0 ==> o == Outcome([], Exhausted)
    ensures |content| > 0 ==> |Lines(content)| >= 1 && o == ParseAll(ParseLine, Lines(content)[1..])
  {
    LinesFromSplit(content, 0);
    assert content[0..] == content;
    Run(ParseLine, content, Enter(content))
  }

  /** The same loop as a program: `__next__` called until it stops or
      raises, collecting the records.  With `ParseLine` as the conversion
      this is `Iterate`. */
  method ReadAll(parse: LineParser, content: string) returns (records: seq<Transakcja>, ending: Ending)
    ensures Outcome(records, ending) == Run(parse, content, Enter(content))
  {
    var pos := Enter(content);
    records := [];
    assert records + Run(parse, content, pos).records == Run(parse, content, pos).records;
    while true
      invariant pos <= |content|
      invariant Run(parse, content, Enter(content)) ==
        Outcome(records + Run(parse, content, pos).records, Run(parse, content, pos).ending)
      decreases |content| - pos
    {
      var step := Next(parse, content, pos);
      match step
      case Stop =>
        RunStops(parse, content, pos, records);
        return records, Exhausted;
      case Raise(e, _) =>
        RunStops(parse, content, pos, records);
        return records, Failed(e);
      case Yield(t, next) =>
        RunYields(parse, content, pos, records);
        records := records + [t];
        pos := next;
    }
  }

  /** A step that does not yield ends the loop with nothing more collected. */
  lemma RunStops(parse: LineParser, content: string, pos: nat, records: seq<Transakcja>)
    requires pos <= |content| && !Next(parse, content, pos).Yield?
    ensures var step := Next(parse, content, pos);
      && records + Run(parse, content, pos).records == records
      && Run(parse, content, pos).ending == (if step.Stop? then Exhausted else Failed(step.error))
  {
    assert records + [] == records;
  }

  /** One yielded record moves from the rest of the loop to what has been
      collected. */
  lemma RunYields(parse: LineParser, content: string, pos: nat, records: seq<Transakcja>)
    requires pos <= |content| && Next(parse, content, pos).Yield?
    ensures var step := Next(parse, content, pos);
      && records + Run(parse, content, pos).records == (records + [step.record]) + Run(parse, content, step.next).records
      && Run(parse, content, pos).ending == Run(parse, content, step.next).ending
  {
    var step := Next(parse, content, pos);
    RunUnfolds(parse, content, pos);
    ShiftRecord(records, step.record, Run(parse, content, pos), Run(parse, content, step.next));
  }

  lemma ShiftRecord(records: seq<Transakcja>, t: Transakcja, whole: Outcome, rest: Outcome)
    requires whole == Outcome([t] + rest.records, rest.ending)
    ensures records + whole.records == (records + [t]) + rest.records
    ensures whole.ending == rest.ending
  {
  }

  lemma RunUnfolds(parse: LineParser, content: string, pos: nat)
    requires pos <= |content| && Next(parse, content, pos).Yield?
    ensures var step := Next(parse, content, pos);
      Run(parse, content, pos) == Outcome([step.record] + Run(parse, content, step.next).records, Run(parse, content, step.next).ending)
  {
  }

  /** The lines `readline()` returns from offset `pos` on, each with its
      `\n` except perhaps the last. */
  function LinesFrom(content: string, pos: nat): (ls: seq<string>)
    requires pos <= |content|
    ensures forall i :: 0 <= i < |ls| ==> |ls[i]| > 0
    decreases |content| - pos
  {
    if pos == |content| then [] else [ReadLine(content, pos).0] + LinesFrom(content, LineEnd(content, pos))
  }

  /** The reference reading of a list of lines: convert them in order and
      stop at the first one that raises. */
  function ParseAll(parse: LineParser, lines: seq<string>): (o: Outcome)
    ensures |o.records| <= |lines|
    ensures forall i :: 0 <= i < |o.records| ==> parse(lines[i]) == Parsed(o.records[i])
    ensures o.ending.Exhausted? ==> |o.records| == |lines|
    ensures o.ending.Failed? ==>
      |o.records| < |lines| && parse(lines[|o.records|]) == Raised(o.ending.error)
  {
    if |lines| == 0 then
      Outcome([], Exhausted)
    else
      match parse(lines[0])
      case Raised(e) => Outcome([], Failed(e))
      case Parsed(t) =>
        var rest := ParseAll(parse, lines[1..]);
        assert forall i :: 0 <= i < |rest.records| ==> lines[1..][i] == lines[i + 1];
        Outcome([t] + rest.records, rest.ending)
  }

  /** The lines of a text, as `readline()` returns them, defined from
      `split('\n')`: every piece but the last gets its `\n` back, and the
      last piece is a line only if it is not empty. */
  function Lines(content: string): seq<string> {
    WithBreaks(Split(content, '\n'))
  }

  function WithBreaks(parts: seq<string>): seq<string>
    requires |parts| >= 1
  {
    if |parts| == 1 then
      (if |parts[0]| == 0 then [] else [parts[0]])
    else
      [parts[0] + "\n"] + WithBreaks(parts[1..])
  }

  /** Reading line by line gives exactly the lines of the text. */
  lemma {:induction false} LinesFromSplit(content: string, pos: nat)
    requires pos <= |content|
    ensures LinesFrom(content, pos) == Lines(content[pos..])
    decreases |content| - pos
  {
    var e := LineEnd(content, pos);
    if pos == |content| {
      SplitEmpty('\n');
    } else if content[e - 1] == '\n' {
      LinesFromSplit(content, e);
      BrokenLineFrom(content, pos);
    } else {
      LastLineFrom(content, pos);
    }
  }

  /** A line ended by a line break is followed by the lines after it. */
  lemma BrokenLineFrom(content: string, pos: nat)
    requires pos < |content| && content[LineEnd(content, pos) - 1] == '\n'
    ensures var e := LineEnd(content, pos);
      Lines(content[pos..]) == [content[pos..e]] + Lines(content[e..])
  {
    var e := LineEnd(content, pos);
    var x := content[pos..e - 1];
    LineHasNoBreak(content, pos);
    assert content[pos..] == x + ['\n'] + content[e..];
    assert content[pos..e] == x + "\n";
    BrokenLine(x, content[e..]);
  }

  /** A last line without a line break is all that is left to read. */
  lemma LastLineFrom(content: string, pos: nat)
    requires pos < |content| && content[LineEnd(content, pos) - 1] != '\n'
    ensures LinesFrom(content, pos) == Lines(content[pos..])
  {
    var e := LineEnd(content, pos);
    LineHasNoBreak(content, pos);
    assert LinesFrom(content, pos) == [content[pos..e]] + LinesFrom(content, e);
    assert content[pos..e] == content[pos..];
    LastLine(content[pos..]);
  }

  /** The line starting at `pos` has no line break before its end. */
  lemma LineHasNoBreak(content: string, pos: nat)
    requires pos < |content|
    ensures var e := LineEnd(content, pos);
      && '\n' !in content[pos..e - 1]
      && (content[e - 1] != '\n' ==> e == |content| && '\n' !in content[pos..])
  {
    var e := LineEnd(content, pos);
    var line := content[pos..e - 1];
    assert forall k :: 0 <= k < |line| ==> line[k] == content[pos + k];
    if content[e - 1] != '\n' {
      var rest := content[pos..];
      assert forall k :: 0 <= k < |rest| ==> rest[k] == content[pos + k];
    }
  }

  /** A last line without a line break is read as it is. */
  lemma LastLine(x: string)
    requires |x| > 0 && '\n' !in x
    ensures Lines(x) == [x]
  {
    SplitNoSeparator(x, '\n');
  }

  lemma BrokenLine(x: string, rest: string)
    requires '\n' !in x
    ensures Lines(x + ['\n'] + rest) == [x + "\n"] + Lines(rest)
  {
    SplitAppend(x, rest, '\n');
    SplitNoSeparator(x, '\n');
    var parts := Split(x + ['\n'] + rest, '\n');
    assert parts == [x] + Split(rest, '\n');
    assert parts[1..] == Split(rest, '\n');
  }

  /** For any non-empty file and any conversion (`Iterate` uses
      `ParseLine`): the header line is never converted; the k-th record comes
      from line k + 1 of the file; a loop that runs out of lines has produced
      one record per line after the header, and a loop that fails has
      produced the records before the first failing line. */
  lemma IterateCounts(parse: LineParser, content: string)
    requires |content| > 0
    ensures var o, ls := Run(parse, content, Enter(content)), Lines(content);
      && |ls| >= 1
      && |o.records| <= |ls| - 1
      && (forall i :: 0 <= i < |o.records| ==> parse(ls[i + 1]) == Parsed(o.records[i]))
      && (o.ending.Exhausted? ==> |o.records| == |ls| - 1)
      && (o.ending.Failed? ==>
        |o.records| + 1 < |ls| && parse(ls[|o.records| + 1]) == Raised(o.ending.error))
  {
    LinesFromSplit(content, 0);
    assert content[0..] == content;
    var ls := Lines(content);
    ShiftedLines(parse, ls[1..], ls);
  }

  /** `ParseAll` over the lines after the first, indexed in the whole list. */
  lemma ShiftedLines(parse: LineParser, rest: seq<string>, ls: seq<string>)
    requires |ls| >= 1 && rest == ls[1..]
    ensures var o := ParseAll(parse, rest);
      && |o.records| <= |ls| - 1
      && (forall i :: 0 <= i < |o.records| ==> parse(ls[i + 1]) == Parsed(o.records[i]))
      && (o.ending.Exhausted? ==> |o.records| == |ls| - 1)
      && (o.ending.Failed? ==> parse(ls[|o.records| + 1]) == Raised(o.ending.error))
  {
    var o := ParseAll(parse, rest);
    assert forall i :: 0 <= i < |rest| ==> rest[i] == ls[i + 1];
  }

  /** A sales file: the header, then one line per record, each ended by a
      line break. */
  function FormatFile(header: string, records: seq<Transakcja>): string {
    Join([header] + FormattedLines(records) + [[]], '\n')
  }

  function FormattedLines(records: seq<Transakcja>): (ls: seq<string>)
    ensures |ls| == |records|
    ensures forall i :: 0 <= i < |ls| ==> ls[i] == FormatLine(records[i])
  {
    if |records| == 0 then
      []
    else
      var rest := FormattedLines(records[1..]);
      assert forall i :: 1 <= i < |records| ==> records[1..][i - 1] == records[i];
      [FormatLine(records[0])] + rest
  }

  /** Writing records to a file and iterating over it gives the same
      records back, and the loop ends by exhaustion.  The written text has
      no carriage return, so reading it in text mode changes nothing. */
  lemma FileRoundTrip(header: string, records: seq<Transakcja>)
    requires '\n' !in header && '\r' !in header
    requires forall i :: 0 <= i < |records| ==> Writable(records[i])
    ensures Translate(FormatFile(header, records)) == FormatFile(header, records)
    ensures Iterate(FormatFile(header, records)) == Outcome(records, Exhausted)
  {
    var body := FormattedLines(records);
    FormattedFree(records);
    var content := FileLines(header, body);
    JoinAvoids([header] + body + [[]], '\n', '\r');
    TerminatedLines(body);
    ParseWritten(records);
  }

  /** The lines of a file written from a header and terminated lines. */
  lemma FileLines(header: string, body: seq<string>) returns (content: string)
    requires '\n' !in header
    requires forall i :: 0 <= i < |body| ==> '\n' !in body[i]
    ensures content == Join([header] + body + [[]], '\n')
    ensures |content| > 0 && Lines(content) == [header + "\n"] + WithBreaks(body + [[]])
  {
    var parts := [header] + body + [[]];
    assert parts == [header] + (body + [[]]);
    content := Join(parts, '\n');
    JoinAppend([header], body + [[]], '\n');
    SplitJoin(parts, '\n');
  }

  /** No written line holds a line break or a carriage return. */
  lemma FormattedFree(records: seq<Transakcja>)
    requires forall i :: 0 <= i < |records| ==> Writable(records[i])
    ensures forall i :: 0 <= i < |records| ==>
      '\n' !in FormattedLines(records)[i] && '\r' !in FormattedLines(records)[i]
  {
    forall i | 0 <= i < |records|
      ensures '\n' !in FormattedLines(records)[i] && '\r' !in FormattedLines(records)[i]
    {
      LineHasNoLineBreak(records[i]);
    }
  }

  /** Terminated pieces come back as lines with their line breaks. */
  lemma {:induction false} TerminatedLines(body: seq<string>)
    ensures WithBreaks(body + [[]]) == Breaks(body)
  {
    if |body| > 0 {
      assert (body + [[]])[1..] == body[1..] + [[]];
      TerminatedLines(body[1..]);
    }
  }

  function Breaks(body: seq<string>): (ls: seq<string>)
    ensures |ls| == |body|
    ensures forall i :: 0 <= i < |ls| ==> ls[i] == body[i] + "\n"
  {
    if |body| == 0 then [] else [body[0] + "\n"] + Breaks(body[1..])
  }

  /** Each written line reads back as its record. */
  lemma {:induction false} ParseWritten(records: seq<Transakcja>)
    requires forall i :: 0 <= i < |records| ==> Writable(records[i])
    ensures ParseAll(ParseLine, Breaks(FormattedLines(records))) == Outcome(records, Exhausted)
  {
    var ls := Breaks(FormattedLines(records));
    forall i | 0 <= i < |records|
      ensures ParseLine(ls[i]) == Parsed(records[i])
    {
      LineRoundTrip(records[i]);
    }
    AllParsed(ParseLine, ls, records);
  }

  /** Lines that all convert give their records, in order. */
  lemma {:induction false} AllParsed(parse: LineParser, lines: seq<string>, records: seq<Transakcja>)
    requires |lines| == |records|
    requires forall i :: 0 <= i < |lines| ==> parse(lines[i]) == Parsed(records[i])
    ensures ParseAll(parse, lines) == Outcome(records, Exhausted)
  {
    if |lines| > 0 {
      assert parse(lines[0]) == Parsed(records[0]);
      AllParsed(parse, lines[1..], records[1..]);
      assert records == [records[0]] + records[1..];
    }
  }

  /** A written record has no line break or carriage return: the text
      fields have none, and numbers are written with digits, a sign and a
      point. */
  lemma LineHasNoLineBreak(t: Transakcja)
    requires Writable(t)
    ensures '\n' !in FormatLine(t) && '\r' !in FormatLine(t)
  {
    LineAvoids(t, '\n');
    LineAvoids(t, '\r');
  }

  lemma LineAvoids(t: Transakcja, c: char)
    requires Writable(t) && (c == '\n' || c == '\r')
    ensures c !in FormatLine(t)
  {
    RenderNumeral(t.cena);
    ShowIntNumeral(t.sztuk);
    NumeralExcludes(Render(t.cena), c);
    NumeralExcludes(ShowInt(t.sztuk), c);
    JoinAvoids(Fields(t), ',', c);
  }

  /** A file with only a header line, with or without its line break,
      yields no record and ends by exhaustion; translation leaves it as it
      is. */
  lemma HeaderOnly(header: string)
    requires '\n' !in header && '\r' !in header
    ensures Translate(header) == header && Translate(header + "\n") == header + "\n"
    ensures Iterate(header) == Outcome([], Exhausted)
    ensures Iterate(header + "\n") == Outcome([], Exhausted)
  {
    PlainHeader(header);
    HeaderLines(header);
    if |header| > 0 {
      assert Lines(header)[1..] == [];
    }
    assert Lines(header + "\n")[1..] == [];
  }

  /** The lines of a header-only file: the header, with its line break if
      it has one. */
  lemma HeaderLines(header: string)
    requires '\n' !in header
    ensures |header| > 0 ==> Lines(header) == [header]
    ensures Lines(header + "\n") == [header + "\n"]
  {
    if |header| > 0 {
      LastLine(header);
    }
    BrokenLine(header, []);
    assert header + ['\n'] + [] == header + "\n";
    SplitEmpty('\n');
  }

  lemma PlainHeader(header: string)
    requires '\r' !in header
    ensures Translate(header) == header && Translate(header + "\n") == header + "\n"
  {
    assert '\r' !in header + "\n";
  }
}
