/** The optional result that the number parsers return: `None` stands for the
    exception Python's `Decimal()` or `int()` raises on malformed text. */
module Options {

  datatype Option<+T> = None | Some(value: T)
}
