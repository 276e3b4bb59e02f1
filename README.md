# Row-level schema validation and column-name escaping (PyDeequ)

This project models two parts of PyDeequ, a Python port of Amazon Deequ, in Dafny.

- **Row-level schema validation** (`src/schema/RowLevelSchemaValidator.py`). A schema is a tuple
  of column definitions. There are five kinds: base, string, integer, decimal and timestamp.
  Each definition judges every cell of its column. `validate` splits a data frame into the
  rows every definition accepts and the rest. It then casts the accepted rows' defined columns
  and keeps the undefined columns as they are.
- **Column-name escaping** (`src/utilities/ColumnUtil.py`). `escape_column` wraps a name in
  backticks when it has more than one dot or a stray backtick. `remove_escape_column` drops
  one such wrapping.

Files:

- `cells.dfy` (module `Cells`): cells, decimals as `as_tuple()` triples, the errors that can
  escape, and the library parsers as a `Parsers` value passed in.
- `column_definitions.dfy` (module `ColumnDefinitions`): the per-cell rule `CellValid`. It also
  holds the source-shaped `is_valid` masks. The string and integer masks are methods that build
  the mask with `&=` steps; the integer one uses pandas' three-valued `Int64` logic. The file
  also holds `cast_series` and the per-kind rules.
- `row_level_schema.dfy` (module `Schemas`): the frozen schema and its `with_*` builders.
- `frames.dfy` (module `Frames`): data frames as named columns plus a row index, `df.get`, and
  boolean selection `df[mask]` through the positions a mask selects.
- `validator.dfy` (module `RowLevelSchemaValidator`): `validate` as a method. Its mask loop
  and-s into an array in place. Its two loops fill the `casted` dict, which is modelled as an
  insertion-ordered sequence of columns. The method is proved equal to the function
  `ValidateSpec`.
- `validation_properties.dfy` (module `ValidationProperties`): what `validate` promises.
- `column_util.dfy` (module `ColumnUtil`): the two escaping functions and their properties.

An absent defined column: the mask loop (`src/schema/RowLevelSchemaValidator.py:243`) reads it
as all missing, so a non-nullable definition of it rejects every row (`AbsentColumnMask`). The
cast loop then indexes `valid[cd.name]` (`:252`) and raises `KeyError`. So `Validate` returns
`Err(KeyError(name))`, where `name` is the first absent defined name in declaration order.

## Model

| member | source | states |
|---|---|---|
| ColumnDefinitions.CellValid | src/schema/RowLevelSchemaValidator.py:40-163 | the per-cell rule every `is_valid` mask is proved against: a missing cell is valid iff nullable, and every valid cell can be cast |
| ColumnDefinitions.CheckDecimal | src/schema/RowLevelSchemaValidator.py:126-138 | a missing value is judged by `is_nullable` alone, and an accepted value parses, so it can be cast |
| ColumnDefinitions.DecimalIsValid | src/schema/RowLevelSchemaValidator.py:125-140 | `series.apply(check_decimal)` equals the per-cell rule at every row |
| ColumnDefinitions.CastCell | src/schema/RowLevelSchemaValidator.py:43-44 | one cell's cast fails exactly for a non-null cell the Decimal parser refuses; a missing cell stays missing under every kind's cast |
| ColumnDefinitions.CastSeries | src/schema/RowLevelSchemaValidator.py:142-143 | the only error a cast raises is InvalidOperation, and only the Decimal cast raises it |
| ColumnDefinitions.BaseIsValid | src/schema/RowLevelSchemaValidator.py:40-41 | the base mask is the per-cell rule: all true when nullable, non-null otherwise |
| ColumnDefinitions.BaseRules | src/schema/RowLevelSchemaValidator.py:40-44 | nullable accepts every row; non-nullable accepts exactly the non-null cells; `cast_series` returns the series unchanged |
| ColumnDefinitions.StringIsValid | src/schema/RowLevelSchemaValidator.py:61-78 | the mask built by the `&=` steps equals the per-cell rule at every row |
| ColumnDefinitions.StringRules | src/schema/RowLevelSchemaValidator.py:61-78 | a non-null non-string is invalid; when nullable, any string or null is valid and the limits are ignored; when not nullable, valid iff a string within min/max length that matches the pattern; cast is the identity |
| ColumnDefinitions.IntIsValid | src/schema/RowLevelSchemaValidator.py:93-107 | the three-valued Int64 mask never holds <NA> and equals the per-cell rule at every row |
| ColumnDefinitions.IntRules | src/schema/RowLevelSchemaValidator.py:93-107 | null valid iff nullable; an uncoercible value is invalid; a coerced value is valid iff within the inclusive bounds |
| ColumnDefinitions.IntBoundsExample | src/schema/RowLevelSchemaValidator.py:102-105 | with bounds 1..5, "0" and "6" are rejected and "1" and "5" accepted |
| ColumnDefinitions.DecimalRules | src/schema/RowLevelSchemaValidator.py:126-140 | null gives `is_nullable`; unparsable is invalid; otherwise valid iff digits <= precision and -exponent <= scale |
| ColumnDefinitions.DecimalPrecisionExample | src/schema/RowLevelSchemaValidator.py:134-137 | "1234" is rejected at precision 3, "1.23" accepted at precision 3, scale 2 |
| ColumnDefinitions.TimestampIsValid | src/schema/RowLevelSchemaValidator.py:156-160 | the timestamp mask equals the per-cell rule |
| ColumnDefinitions.TimestampRules | src/schema/RowLevelSchemaValidator.py:156-160 | valid iff null and nullable, or the date parser accepts the cell under the mask |
| ColumnDefinitions.IsValidSeries | src/schema/RowLevelSchemaValidator.py:244 | dispatch to the kind's `is_valid` yields the per-cell rule at every row, whatever the kind |
| ColumnDefinitions.NullValidIffNullable | src/schema/RowLevelSchemaValidator.py:41 | for every kind, a missing cell is valid exactly when the definition is nullable |
| ColumnDefinitions.NullabilityMonotone | src/schema/RowLevelSchemaValidator.py:66-76 | a cell a non-nullable definition accepts is accepted by the nullable one |
| ColumnDefinitions.ValidSeriesCastable | src/schema/RowLevelSchemaValidator.py:142-143 | casting a column whose cells all pass `is_valid` never raises InvalidOperation |
| ColumnDefinitions.CastShape | src/schema/RowLevelSchemaValidator.py:142-143 | a cast keeps the length, casts cell by cell and maps null to null; the decimal cast maps a non-null cell to its parsed Decimal |
| ColumnDefinitions.CastIdempotent | src/schema/RowLevelSchemaValidator.py:162-163 | casting an already cast column changes nothing when the parsers read back their own outputs |
| Schemas.RowLevelSchema.WithStringColumn | src/schema/RowLevelSchemaValidator.py:170-182 | the receiver's definitions plus exactly one string definition at the end |
| Schemas.RowLevelSchema.WithIntColumn | src/schema/RowLevelSchemaValidator.py:184-195 | the receiver's definitions plus exactly one integer definition at the end |
| Schemas.RowLevelSchema.WithDecimalColumn | src/schema/RowLevelSchemaValidator.py:197-208 | the receiver's definitions plus exactly one decimal definition at the end |
| Schemas.RowLevelSchema.WithTimestampColumn | src/schema/RowLevelSchemaValidator.py:210-220 | the receiver's definitions plus exactly one timestamp definition at the end |
| Schemas.ExtensionKeepsPositions | src/schema/RowLevelSchemaValidator.py:178-181 | extending keeps every earlier definition at its position and adds only the new one |
| Schemas.BuilderChainOrder | src/schema/RowLevelSchemaValidator.py:170-220 | any chain of builder calls yields the receiver's definitions followed by one definition per call, in call order, duplicates kept |
| Schemas.TestSuiteSchema | src/schema/RowLevelSchemaValidator.py:170-220 | the test suite's four-call chain, defaults filled in, yields its four definitions in call order |
| Frames.ColumnOf | src/schema/RowLevelSchemaValidator.py:252 | `valid[cd.name]` has the frame's height |
| Frames.ColumnOfAt | src/schema/RowLevelSchemaValidator.py:252 | with unique names, `df[name]` is the cells of the one column carrying that name |
| Frames.Positions | src/schema/RowLevelSchemaValidator.py:246-247 | every selected position is a row at which the mask holds the wanted value |
| Frames.SeriesOrNulls | src/schema/RowLevelSchemaValidator.py:243 | `df.get` returns the named column, or all-missing cells of the frame's height when it is absent |
| Frames.PositionsIncreasing | src/schema/RowLevelSchemaValidator.py:246-247 | boolean selection keeps the rows' relative order |
| Frames.PositionsComplete | src/schema/RowLevelSchemaValidator.py:246-247 | every row the mask selects is in the selection |
| Frames.PositionsPartition | src/schema/RowLevelSchemaValidator.py:246-247 | `df[mask]` and `df[~mask]` hold as many rows as `df` |
| Frames.Take | src/schema/RowLevelSchemaValidator.py:246-247 | selecting rows keeps every column and its name and restricts each to the selected rows |
| Frames.TakeColumnOf | src/schema/RowLevelSchemaValidator.py:252 | a column of the selected rows is the original column restricted to them |
| RowLevelSchemaValidator.RowMaskSnoc | src/schema/RowLevelSchemaValidator.py:242-244 | one more definition and-s its own mask into the row mask |
| RowLevelSchemaValidator.AndInPlace | src/schema/RowLevelSchemaValidator.py:244 | `mask &= other` leaves the element-wise conjunction in the array |
| RowLevelSchemaValidator.ComputeMask | src/schema/RowLevelSchemaValidator.py:240-244 | the loop leaves the row mask: a row holds iff every definition accepts its cell |
| RowLevelSchemaValidator.MissingName | src/schema/RowLevelSchemaValidator.py:251-252 | none iff every defined name is a column; otherwise an absent defined name |
| RowLevelSchemaValidator.MissingNameAt | src/schema/RowLevelSchemaValidator.py:251-252 | the reported name is the first absent one in declaration order |
| RowLevelSchemaValidator.Dedup | src/schema/RowLevelSchemaValidator.py:249-252 | the dict's keys: distinct, and exactly the defined names |
| RowLevelSchemaValidator.DedupFirstOccurrenceOrder | src/schema/RowLevelSchemaValidator.py:249-252 | dict keys keep the order of their first assignment |
| RowLevelSchemaValidator.LastIndexOf | src/schema/RowLevelSchemaValidator.py:251-252 | the last definition of a name, the one whose cast is kept |
| RowLevelSchemaValidator.DefinedColumns | src/schema/RowLevelSchemaValidator.py:249-252 | one column per distinct defined name, in first-declaration order |
| RowLevelSchemaValidator.PassThrough | src/schema/RowLevelSchemaValidator.py:254-256 | exactly the columns whose name is not defined |
| RowLevelSchemaValidator.PassThroughKeepsOrder | src/schema/RowLevelSchemaValidator.py:254-256 | the undefined columns are the input's columns at increasing positions whose name is not defined: an order-preserving filter |
| RowLevelSchemaValidator.AssignExisting | src/schema/RowLevelSchemaValidator.py:252 | assigning an existing key replaces its value in place |
| RowLevelSchemaValidator.AssignNew | src/schema/RowLevelSchemaValidator.py:252 | assigning a new key appends it |
| RowLevelSchemaValidator.DefinedColumnsSnoc | src/schema/RowLevelSchemaValidator.py:251-252 | one more iteration of the cast loop assigns the new definition's cast into the dict |
| RowLevelSchemaValidator.PassThroughFresh | src/schema/RowLevelSchemaValidator.py:254-256 | an undefined column's name is not yet a key when the second loop reaches it |
| RowLevelSchemaValidator.CastDefinedColumns | src/schema/RowLevelSchemaValidator.py:249-252 | KeyError naming the first absent defined column, or the defined columns cast by their last definitions |
| RowLevelSchemaValidator.AddUndefinedColumns | src/schema/RowLevelSchemaValidator.py:254-256 | the dict gains the undefined columns after the defined ones, in their original order |
| RowLevelSchemaValidator.ValidRowsCastable | src/schema/RowLevelSchemaValidator.py:246-252 | the cast of a present defined column of the valid rows never raises |
| RowLevelSchemaValidator.Validate | src/schema/RowLevelSchemaValidator.py:235-264 | the method's result is the reference definition of validate |
| ValidationProperties.ValidatePartition | src/schema/RowLevelSchemaValidator.py:240-247 | a row is valid iff every definition, duplicates included, accepts it; valid and invalid rows partition the input in order; invalid rows are uncast |
| ValidationProperties.ValidateCounts | src/schema/RowLevelSchemaValidator.py:259-263 | each count is its frame's height and they sum to the input's height |
| ValidationProperties.ValidateDefinedColumn | src/schema/RowLevelSchemaValidator.py:249-252 | output column j is the j-th distinct defined name, cast by that name's last definition over the valid rows |
| ValidationProperties.ValidatePassThroughColumns | src/schema/RowLevelSchemaValidator.py:254-258 | undefined columns follow the defined ones, unchanged apart from row selection, in their original order |
| ValidationProperties.ValidateMissingColumn | src/schema/RowLevelSchemaValidator.py:252 | KeyError exactly when some defined column is absent, and its key is such a name |
| ValidationProperties.AbsentColumnMask | src/schema/RowLevelSchemaValidator.py:243-244 | an absent column reads as all missing: a non-nullable definition of it rejects every row |
| ValidationProperties.ExtendedSchemaMask | src/schema/RowLevelSchemaValidator.py:242-244 | a builder narrows the mask by the new definition's mask, so no new row is accepted |
| ValidationProperties.MaskIgnoresDeclarationOrder | src/schema/RowLevelSchemaValidator.py:242-244 | the valid rows depend only on which definitions the schema holds |
| ValidationProperties.NonNullableAcceptsFewerRows | src/schema/RowLevelSchemaValidator.py:242-244 | making a definition non-nullable never accepts a new row |
| ColumnUtil.RemoveEscapeColumn | src/utilities/ColumnUtil.py:31-35 | a wrapped name is the result between one pair of backticks; a lone backtick gives ""; anything else is returned unchanged |
| ColumnUtil.CountBounds | src/utilities/ColumnUtil.py:50 | `column.count(".")` is at most the length, and zero exactly when there is no dot |
| ColumnUtil.TrimLeft | src/utilities/ColumnUtil.py:55 | the input is leading backticks then the result, which does not start with one |
| ColumnUtil.TrimRight | src/utilities/ColumnUtil.py:55 | the input is the result then trailing backticks, and the result does not end with one |
| ColumnUtil.Strip | src/utilities/ColumnUtil.py:55 | the input is the result between two runs of backticks, and the result has none at either end |
| ColumnUtil.EscapeColumn | src/utilities/ColumnUtil.py:38-59 | the result is backtick-wrapped, or it is the input, which then has at most one dot and no backtick |
| ColumnUtil.EscapeColumnCases | src/utilities/ColumnUtil.py:45-59 | wrapped names are unchanged; more than one dot is wrapped; a stray backtick is stripped then wrapped once; otherwise unchanged |
| ColumnUtil.EscapeIdempotent | src/utilities/ColumnUtil.py:45-59 | escaping twice is escaping once |
| ColumnUtil.RoundTripWithoutBackticks | src/utilities/ColumnUtil.py:31-59 | a name without backticks survives escaping then unescaping |
| ColumnUtil.RoundTripStrips | src/utilities/ColumnUtil.py:31-59 | a name with a stray backtick and at most one dot comes back with outer backticks stripped and inner ones kept |
| ColumnUtil.NonTicksStrip | src/utilities/ColumnUtil.py:55 | `strip` removes only backticks |
| ColumnUtil.EscapeKeepsNonTicks | src/utilities/ColumnUtil.py:45-59 | escaping keeps every non-backtick character, dots included, in order |
| ColumnUtil.RemoveEscapeColumnExamples | src/utilities/ColumnUtil.py:33-35 | the test suite's four unescaping cases |
| ColumnUtil.EscapeColumnNoDotExample | src/utilities/ColumnUtil.py:59 | "col" is left unchanged |
| ColumnUtil.EscapeColumnTwoDotsExample | src/utilities/ColumnUtil.py:50-51 | "a.b.c" is wrapped in backticks |
| ColumnUtil.EscapeColumnOneDotExample | src/utilities/ColumnUtil.py:50-59 | "no.dot" is left unchanged |
| ColumnUtil.EscapeTrailingBacktick | src/utilities/ColumnUtil.py:54-56 | a backtick-free name with at most one dot and one trailing backtick, such as "already`", escapes to the name wrapped once |

## Left out

- pandas representations: dtypes (`Int64`, `datetime64[ns]`, `object`), `NaN`/`NaT`/`<NA>` are all the single `Null` cell. `Index` objects are a sequence of row labels, and frame construction is a record.
- Library parsers (`pd.to_numeric`, `Decimal(str(x))`, `pd.to_datetime` with a strftime mask, `re.match`) are fields of a `Parsers` value passed in. They are not re-implemented.
- ColumnDefinitions.IntRules: integer coercion is per cell (`toNumeric`). It does not model three effects of `pd.to_numeric(series, errors="coerce").astype("Int64")` (`:94`, `:110`) converting the whole column at once. First, `.astype("Int64")` raises on a non-integral float such as 1.5. Second, when any cell of the column is missing or unconvertible, the intermediate column is float64, so an integer string above 2**53 is rounded before the bounds tests (`:103`, `:105`) and before the cast: with `max_value=9007199254740992`, `["9007199254740993", None]` accepts row 0 while `["9007199254740993"]` rejects it. Third, values outside the 64-bit range make the conversion fail rather than give a value or <NA>.
- ColumnDefinitions.DecimalRules: does not model Decimal NaN or Infinity, whose exponent is not an integer. A parsed decimal always has an integer exponent.
- ColumnDefinitions.StringIsValid: does not model pandas raising `AttributeError` when `.str` (`:71`, `:73`, `:76`) is used on a column whose non-missing values include no string. An all-missing column passes pandas' accessor check, and so does the all-`None` stand-in for an absent column (`:243`); for those the model computes the mask as pandas does.
- ColumnDefinitions.TimestampRules: timestamp validity is only "missing and nullable, or the parser accepted the cell"; strftime semantics are not modelled.
- Frames.WellFormed: frames with duplicate column names are excluded. `validate` accepts them, but then `df.get` (`:243`) and `valid[cd.name]` (`:252`) return a DataFrame rather than a Series, and that behaviour is not modelled. Duplicate index labels are kept as labels, since selection works by position.
- `data.copy()` and `.copy()` of the selections: copies are values here, so there is no aliasing to model.
- `setup.py` (packaging, directory removal, running the tests) is not part of this model.
