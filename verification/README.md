# Sales records read by an iterator, in Dafny

This project models `dzien14/15_iter_gen/iter_sprzedaz.py`, a small Python
program that reads a sales CSV file one record at a time:

- `Transakcja` is a seven-field record: date, city, shop, category, product,
  unit price (`Decimal`) and number of units (`int`). Its `wartosc` property
  is `cena * sztuk`.
- `IteratorTransakcji` is a context manager and an iterator.
  - `__enter__` opens the file and reads the header line, which it drops.
  - Each `__next__` reads one line. An empty read (end of file) stops the
    iteration.
  - Any other line is stripped and split at every comma. The record is built
    from pieces 0–4 as text, piece 5 through `Decimal()` and piece 6 through
    `int()`.

Modules, one per file:

| file | module | what it holds |
|---|---|---|
| `options.dfy` | `Options` | `Option<T>` |
| `text.dfy` | `Text` | `str.strip()`, `str.split(sep)`, `sep.join(...)` and their laws |
| `digits.dfy` | `Digits` | decimal digit strings, `Pow10`, the sign prefix |
| `integers.dfy` | `Integers` | `int(s)` and `str(n)` |
| `decimals.dfy` | `Decimals` | finite `Decimal`s: value, exact multiplication, `Decimal(s)` and its written form |
| `transakcje.dfy` | `Transakcje` | the record, `wartosc`, and one CSV line turned into a record or an exception |
| `iterator.dfy` | `IteratorTransakcji` | text-mode newline translation, `readline()`, `__enter__`, `__next__`, and the whole loop over a file |

How things are represented:

- **The file.** The open file is its whole text, already decoded, plus the
  offset of the next unread character. Opening in text mode translates
  line ends: `Translate` turns `\r\n` and a lone `\r` into `\n`, and the
  iterator reads the translated text. `readline()` returns the text up to and including the next `\n`,
  or the rest of the file. It returns `""` only at the end of the file.
- **A decimal.** A decimal is `Decimal(negative, coeff, places)`, standing for
  `(-1)^negative * coeff * 10^-places`. Python's exponent is `-places`.
  - Its value is the fraction `Numerator(d) / Denominator(d)`.
  - Python's `==` on decimals is `SameValue`.
  - Multiplication follows the multiply operation of the General Decimal
    Arithmetic Specification: coefficients multiply, places add, and the
    scale is kept. So `4.50 * 2` is `9.00`.
- **Zero.** A decimal keeps the sign of zero: `-0` and `0` are different
  representations that compare equal, as in Python.
- **Exceptions.** A line's exception is a value of `ParseError`: `IndexError`,
  `InvalidOperation` (what `Decimal()` raises) or `ValueError` (what `int()`
  raises). The loop ends either in `Exhausted` (`StopIteration`) or in
  `Failed(error)`.
- **The conversion as a parameter.** The iterator functions take the line
  conversion as a parameter (`LineParser`). `Iterate` instantiates it with
  `ParseLine`. This keeps the reading loop separate from the record format.
  `Next`, `Run`, `ReadAll`, `ParseAll` and `IterateCounts` hold for any
  conversion. `Iterate`, `FileRoundTrip` and `HeaderOnly` are about
  `ParseLine`.
- **Whitespace.** `str.strip()` and `Decimal()` remove the same whitespace
  set. `int()` skips a smaller one: CPython turns non-ASCII whitespace into
  spaces and then skips only tab, line feed, vertical tab, form feed,
  carriage return and space. The separators U+001C to U+001F are whitespace
  for `strip()` but make `int()` raise. `Text.Trim` takes the set as a
  parameter, so both readings share one definition.

Edge cases the model takes from the code as written:

- `strip()` removes whitespace at both ends of the line, not only the trailing
  line break.
- Nothing checks that a line has exactly seven pieces. Pieces after the
  seventh are ignored.
- The arguments at line 44 are evaluated left to right. A line with six
  pieces and a malformed price therefore raises `InvalidOperation`, not
  `IndexError`. A line with six pieces and a good price raises `IndexError`.

## Model

| member | source | states |
|---|---|---|
| `Transakcje.Wartosc` | dzien14/15_iter_gen/iter_sprzedaz.py:15-17 | the value is exactly price times count, and keeps the price's number of places |
| `Transakcje.WartoscRespectsValue` | dzien14/15_iter_gen/iter_sprzedaz.py:15-17 | prices that compare equal give values that compare equal, whatever their scales |
| `Transakcje.SampleValue` | dzien14/15_iter_gen/iter_sprzedaz.py:12-17 | `Decimal("4.50")` has coefficient 450 and two places, and two units of it are worth `9.00` |
| `Decimals.Multiply` | dzien14/15_iter_gen/iter_sprzedaz.py:17 | the product's numerator and denominator are the products of the operands'; places add; the sign is the exclusive or of the signs |
| `Decimals.FromInt` | dzien14/15_iter_gen/iter_sprzedaz.py:17 | an `int` operand becomes a decimal of the same value with no places, negative exactly when the integer is, so `Decimal(0)` is `+0` |
| `Decimals.MultiplyRespectsValue` | dzien14/15_iter_gen/iter_sprzedaz.py:17 | multiplying operands of equal value gives products of equal value |
| `Decimals.MultiplyIntegers` | dzien14/15_iter_gen/iter_sprzedaz.py:17 | on integers, the product is the integer product with no places |
| `Decimals.ParseDecimal` | dzien14/15_iter_gen/iter_sprzedaz.py:44 | a parsed decimal comes from a non-empty stripped piece, and is negative exactly when that piece starts with `-` |
| `Decimals.ParseDecimalAccepts` | dzien14/15_iter_gen/iter_sprzedaz.py:44 | `Decimal()` succeeds exactly on the grammar's literals (optional sign, digits with at most one point, at least one digit) after stripping |
| `Decimals.ParsePointLiteral` | dzien14/15_iter_gen/iter_sprzedaz.py:44 | a literal with a point, after any sign (`+`, `-` or none), has the digits on both sides as its coefficient and those after the point as its places, and is negative exactly for `-`: `"+.5"` is 5 with one place, `"5."` is 5 with none |
| `Decimals.ParseWholeLiteral` | dzien14/15_iter_gen/iter_sprzedaz.py:44 | a literal of digits after any sign has their value as its coefficient and no places, and is negative exactly for `-` |
| `Decimals.ParseRender` | dzien14/15_iter_gen/iter_sprzedaz.py:44 | reading the written form of any decimal gives it back, scale and sign included |
| `Decimals.ParseDecimalPadded` | dzien14/15_iter_gen/iter_sprzedaz.py:44 | whitespace around a price does not change what `Decimal()` gives |
| `Integers.ParseInt` | dzien14/15_iter_gen/iter_sprzedaz.py:44 | a parsed integer comes from a piece that is non-empty once `int()`'s whitespace is skipped, and a negative one from a piece starting with `-` |
| `Integers.ParseIntAccepts` | dzien14/15_iter_gen/iter_sprzedaz.py:44 | `int()` succeeds exactly on an optional sign followed by one or more digits, once its own whitespace (without U+001C to U+001F) is skipped |
| `Integers.ParseIntLiteral` | dzien14/15_iter_gen/iter_sprzedaz.py:44 | the value of every literal: the digits read in base 10, negated only after `-`, so `int("+5") == 5` |
| `Integers.ParseShowInt` | dzien14/15_iter_gen/iter_sprzedaz.py:44 | `int(str(n)) == n` for every integer |
| `Integers.ParseIntPadded` | dzien14/15_iter_gen/iter_sprzedaz.py:44 | whitespace that `int()` skips, around a count, does not change what `int()` gives |
| `Integers.SeparatorNotSkipped` | dzien14/15_iter_gen/iter_sprzedaz.py:44 | a count that starts with one of U+001C to U+001F raises `ValueError`, although `strip()` treats that character as whitespace |
| `Text.Strip` | dzien14/15_iter_gen/iter_sprzedaz.py:43 | the stripped line has no whitespace at either end |
| `Text.Trim` | dzien14/15_iter_gen/iter_sprzedaz.py:43-44 | trimming a whitespace set leaves no character of that set at either end |
| `Text.TrimKeepsMiddle` | dzien14/15_iter_gen/iter_sprzedaz.py:43 | `strip()` keeps one contiguous piece of the line and drops only whitespace before and after it |
| `Text.TrimAbsorbsSpace` | dzien14/15_iter_gen/iter_sprzedaz.py:43 | whitespace added around a line does not change its stripped form |
| `Text.TrimIdempotent` | dzien14/15_iter_gen/iter_sprzedaz.py:43 | stripping twice is stripping once |
| `Text.Split` | dzien14/15_iter_gen/iter_sprzedaz.py:43 | splitting gives one more piece than there are separators |
| `Text.SplitPartsFree` | dzien14/15_iter_gen/iter_sprzedaz.py:43 | no piece of a split holds the separator |
| `Text.JoinSplit` | dzien14/15_iter_gen/iter_sprzedaz.py:43 | joining the pieces with the separator gives the split string back |
| `Text.SplitJoin` | dzien14/15_iter_gen/iter_sprzedaz.py:43 | separator-free pieces joined and split again come back unchanged |
| `Text.SplitAppend` | dzien14/15_iter_gen/iter_sprzedaz.py:43 | splitting at a separator occurrence splits each side independently |
| `Transakcje.ParseFields` | dzien14/15_iter_gen/iter_sprzedaz.py:44 | for each exception, the exact pieces that raise it, in Python's evaluation order; a parsed record holds pieces 0–4 unchanged and the converted pieces 5 and 6 |
| `Transakcje.ParseLine` | dzien14/15_iter_gen/iter_sprzedaz.py:43-44 | a line with fewer than five commas after stripping raises `IndexError`, and a parsed one has at least six |
| `Transakcje.ParseLinePadded` | dzien14/15_iter_gen/iter_sprzedaz.py:43 | whitespace around a line, its line break included, changes nothing |
| `Transakcje.BlankLineRaises` | dzien14/15_iter_gen/iter_sprzedaz.py:40-44 | a blank line such as `"\n"` raises `IndexError` rather than ending the iteration |
| `Transakcje.ExtraColumnsIgnored` | dzien14/15_iter_gen/iter_sprzedaz.py:44 | pieces after the seventh do not affect the result |
| `Transakcje.LineRoundTrip` | dzien14/15_iter_gen/iter_sprzedaz.py:43-44 | a writable record, written as a CSV line and read back, is the same record; writable means no comma, `\n` or `\r` in a text field and no whitespace at the start of the first field, which `strip()` would remove |
| `IteratorTransakcji.LineEnd` | dzien14/15_iter_gen/iter_sprzedaz.py:40 | a line read runs to just past the next line break or to the end of the file, and holds no earlier line break |
| `IteratorTransakcji.Translate` | dzien14/15_iter_gen/iter_sprzedaz.py:29 | text mode leaves no `\r` in the text, never lengthens it, and leaves text without `\r` as it is; `CarriageReturnEndsLine` states that `\r\n` and a lone `\r` are each one line end |
| `IteratorTransakcji.TranslatePrefix` | dzien14/15_iter_gen/iter_sprzedaz.py:29 | text without `\r` passes through translation unchanged ahead of whatever follows it |
| `IteratorTransakcji.CarriageReturnEndsLine` | dzien14/15_iter_gen/iter_sprzedaz.py:29-30 | a `\r`, alone or before `\n`, is one line end: the text before it is read as one whole line, and the lines after it are those of the rest (after the `\n` of a `\r\n` pair), so a `\r\n` adds no blank line |
| `IteratorTransakcji.ReadLine` | dzien14/15_iter_gen/iter_sprzedaz.py:40-41 | `readline()` gives the text from the offset up to and including the next `\n`, or the rest of the file when there is none, and gives `""` exactly at the end of the file |
| `IteratorTransakcji.Enter` | dzien14/15_iter_gen/iter_sprzedaz.py:28-31 | entering skips exactly the header line, up to and including its `\n`: what is skipped is the first of the file's lines; only an empty file leaves the offset at 0 |
| `IteratorTransakcji.Next` | dzien14/15_iter_gen/iter_sprzedaz.py:39-44 | `__next__` stops exactly at the end of the file; otherwise it reads exactly one line, leaving the lines after it still to read, and yields that line converted or raises what the conversion raises; a raising line is consumed too |
| `IteratorTransakcji.ReadAll` | dzien14/15_iter_gen/iter_sprzedaz.py:50-51 | calling `__next__` in a loop until it stops or raises collects exactly the records and ending of the recursive reading `Run` |
| `IteratorTransakcji.ParseAll` | dzien14/15_iter_gen/iter_sprzedaz.py:39-44 | reference reading of a list of lines: every record comes from the line at its position; exhaustion means every line converted; failure points at the first line that raised |
| `IteratorTransakcji.Run` | dzien14/15_iter_gen/iter_sprzedaz.py:39-44 | a `for` loop calling `__next__` from an offset gives the reference reading of the lines `readline()` returns from that offset |
| `IteratorTransakcji.LinesFromSplit` | dzien14/15_iter_gen/iter_sprzedaz.py:40 | the lines `readline()` returns are the pieces of `split('\n')`, each with its line break back, with no empty last line |
| `IteratorTransakcji.Iterate` | dzien14/15_iter_gen/iter_sprzedaz.py:28-44 | entering and iterating over an empty file yields nothing; over a non-empty one it is the reference reading of all its lines but the first |
| `IteratorTransakcji.IterateCounts` | dzien14/15_iter_gen/iter_sprzedaz.py:30-44 | for any conversion: the header is never converted; record k comes from line k + 1; exhaustion yields one record per line after the header; failure yields the records before the first failing line |
| `IteratorTransakcji.FileRoundTrip` | dzien14/15_iter_gen/iter_sprzedaz.py:28-44 | writing a header without `\n` or `\r` and writable records (no comma, `\n` or `\r` in a text field, no whitespace at the start of the first field) as a file gives text that text mode leaves as it is, and iterating over it gives the same records, in order, ending by exhaustion |
| `IteratorTransakcji.HeaderOnly` | dzien14/15_iter_gen/iter_sprzedaz.py:28-42 | an empty file, or a file with only a header line without `\r` (with or without its line break), is left as it is by text mode and yields no record and no error |

## Left out

- Opening, decoding and closing the file (lines 29 and 33-34). The model starts from the file's text after UTF-8 decoding; universal-newline translation is `Translate`. A file that cannot be opened or decoded is not modelled.
- `__init__` storing the path (lines 25-26) and `__iter__` returning `self` (lines 36-37). These are plumbing with no logic.
- `main`, `print` and the `__name__` guard (lines 49-58). These are output with a fixed path. `ReadAll` models the loop itself.
- The iterator protocol objects. `StopIteration` is the `Exhausted` ending, and an exception raised by a line is the `Failed` ending.
- `Decimals.Multiply`: models exact multiplication without the default context's 28-digit precision. Products with more than 28 significant digits are rounded in Python but exact here.
- `Transakcje.Wartosc`: inherits the same exactness. A value whose coefficient exceeds 28 digits would be rounded in Python.
- `Decimals.ParseDecimal`: accepts only an optional sign, ASCII digits and at most one point. `NaN`, `Infinity`, exponent notation, underscores and non-ASCII digits raise here but are accepted by Python.
- `Integers.ParseInt`: accepts only an optional sign and ASCII digits. Underscores between digits and non-ASCII digits raise here but are accepted by Python.
- `Integers.ParseInt`: has no limit on the number of digits. Since Python 3.11, `int()` raises `ValueError` past 4300 digits by default. The limit is a setting of the interpreter, so the model leaves it out. `str(n)` has the same limit, which `Integers.ShowInt` also omits.
- `Integers.ParseShowInt`: holds for every integer here. In Python, `str(n)` and `int()` raise past 4300 digits under the default setting.
- `Decimal` operations other than multiplication. The program uses only multiplication.
