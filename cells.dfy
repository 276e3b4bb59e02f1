/** Cell values of a data frame, the errors the validator can raise, and the
    library parsers the column definitions rely on.

    The parsers (numeric coercion, exact decimal parsing, date parsing with a
    format mask, regular-expression matching at the start of a string) belong
    to pandas, the `decimal` module and `re`; they are not modelled here and
    are passed to every operation that needs them as a `Parsers` value. */
module Cells {

  datatype Option<+T> = None | Some(value: T)

  datatype Result<+T, +E> = Ok(value: T) | Err(error: E)

  /** The exceptions the core lets escape. */
  datatype Error =
    | KeyError(key: string)   // a defined column is absent when the valid rows are cast
    | InvalidOperation        // `Decimal(str(x))` refused a non-null cell while casting

  /** What `Decimal.as_tuple()` reports for a finite decimal: the sign, the
      coefficient digits (leading zeros dropped, trailing zeros kept) and the
      exponent. */
  datatype DecimalTuple = DecimalTuple(negative: bool, digits: seq<int>, exponent: int)

  /** One cell of a column. `Null` stands for every value pandas reports as
      missing (None, NaN, NaT); `Other` for any other non-null value that is
      neither a string nor an integer (a float, a boolean, ...). `Dec` and
      `Time` are what casting produces (a Decimal, a timestamp in nanoseconds). */
  datatype Cell =
    | Null
    | Str(s: string)
    | Num(n: int)
    | Dec(d: DecimalTuple)
    | Time(ns: int)
    | Other

  /** The library parsers, applied to one non-null cell.
      - toNumeric: `pd.to_numeric(x, errors="coerce").astype("Int64")`, None when not coercible
      - toDecimal: `Decimal(str(x))`, None when it raises InvalidOperation
      - toDatetime: `pd.to_datetime(x, format=mask, errors="coerce")`, None for NaT
      - matchAt: `re.match(pattern, s)` succeeds */
  datatype Parsers = Parsers(
    toNumeric: Cell -> Option<int>,
    toDecimal: Cell -> Option<DecimalTuple>,
    toDatetime: (string, Cell) -> Option<int>,
    matchAt: (string, string) -> bool)

  /** Numeric coercion of a whole cell: a missing value coerces to <NA>. */
  function Coerce(p: Parsers, c: Cell): Option<int>
  {
    if c.Null? then None else p.toNumeric(c)
  }

  /** Date parsing of a whole cell: a missing value parses to NaT. */
  function ParseTimestamp(p: Parsers, mask: string, c: Cell): Option<int>
  {
    if c.Null? then None else p.toDatetime(mask, c)
  }
}
