/** The schema: an immutable sequence of column definitions that grows only
    by appending one definition through the `with_*` builders. */
module Schemas {
  import opened Cells
  import opened ColumnDefinitions

  datatype RowLevelSchema = RowLevelSchema(definitions: seq<ColumnDefinition> := [])
  {
    /** True when `r` is this schema with exactly `d` appended. */
    predicate ExtendedBy(r: RowLevelSchema, d: ColumnDefinition)
    {
      && |r.definitions| == |definitions| + 1
      && r.definitions[..|definitions|] == definitions
      && r.definitions[|definitions|] == d
    }

    /** `with_string_column` */
    function WithStringColumn(name: string, isNullable: bool := true, minLength: Option<int> := None,
                              maxLength: Option<int> := None, matches: Option<string> := None): (r: RowLevelSchema)
      ensures ExtendedBy(r, ColumnDefinition(name, isNullable, StringKind(minLength, maxLength, matches)))
    {
      RowLevelSchema(definitions + [ColumnDefinition(name, isNullable, StringKind(minLength, maxLength, matches))])
    }

    /** `with_int_column` */
    function WithIntColumn(name: string, isNullable: bool := true, minValue: Option<int> := None,
                           maxValue: Option<int> := None): (r: RowLevelSchema)
      ensures ExtendedBy(r, ColumnDefinition(name, isNullable, IntKind(minValue, maxValue)))
    {
      RowLevelSchema(definitions + [ColumnDefinition(name, isNullable, IntKind(minValue, maxValue))])
    }

    /** `with_decimal_column` */
    function WithDecimalColumn(name: string, precision: int, scale: int, isNullable: bool := true): (r: RowLevelSchema)
      ensures ExtendedBy(r, ColumnDefinition(name, isNullable, DecimalKind(precision, scale)))
    {
      RowLevelSchema(definitions + [ColumnDefinition(name, isNullable, DecimalKind(precision, scale))])
    }

    /** `with_timestamp_column` */
    function WithTimestampColumn(name: string, mask: string, isNullable: bool := true): (r: RowLevelSchema)
      ensures ExtendedBy(r, ColumnDefinition(name, isNullable, TimestampKind(mask)))
    {
      RowLevelSchema(definitions + [ColumnDefinition(name, isNullable, TimestampKind(mask))])
    }
  }

  /** Appending never removes or reorders: every definition of the receiver
      keeps its position in the extended schema, and one appended definition
      is enough to tell two extensions of the same schema apart. */
  lemma ExtensionKeepsPositions(s: RowLevelSchema, r: RowLevelSchema, d: ColumnDefinition)
    requires s.ExtendedBy(r, d)
    ensures forall j :: 0 <= j < |s.definitions| ==> r.definitions[j] == s.definitions[j]
    ensures forall e :: e in r.definitions <==> e in s.definitions || e == d
  {
    assert r.definitions == s.definitions + [d];
  }

  /** One `with_*` call of a builder chain, with its arguments. */
  datatype Builder =
    | StringColumn(name: string, isNullable: bool, minLength: Option<int>, maxLength: Option<int>, matches: Option<string>)
    | IntColumn(name: string, isNullable: bool, minValue: Option<int>, maxValue: Option<int>)
    | DecimalColumn(name: string, precision: int, scale: int, isNullable: bool)
    | TimestampColumn(name: string, mask: string, isNullable: bool)

  /** The definition a builder call constructs. */
  function DefinitionOf(b: Builder): ColumnDefinition
  {
    match b
    case StringColumn(name, isNullable, minLength, maxLength, matches) =>
      ColumnDefinition(name, isNullable, StringKind(minLength, maxLength, matches))
    case IntColumn(name, isNullable, minValue, maxValue) =>
      ColumnDefinition(name, isNullable, IntKind(minValue, maxValue))
    case DecimalColumn(name, precision, scale, isNullable) =>
      ColumnDefinition(name, isNullable, DecimalKind(precision, scale))
    case TimestampColumn(name, mask, isNullable) =>
      ColumnDefinition(name, isNullable, TimestampKind(mask))
  }

  /** `s.with_...(...)` for the call `b`. */
  function Apply(s: RowLevelSchema, b: Builder): RowLevelSchema
  {
    match b
    case StringColumn(name, isNullable, minLength, maxLength, matches) =>
      s.WithStringColumn(name, isNullable, minLength, maxLength, matches)
    case IntColumn(name, isNullable, minValue, maxValue) => s.WithIntColumn(name, isNullable, minValue, maxValue)
    case DecimalColumn(name, precision, scale, isNullable) => s.WithDecimalColumn(name, precision, scale, isNullable)
    case TimestampColumn(name, mask, isNullable) => s.WithTimestampColumn(name, mask, isNullable)
  }

  /** `s.with_...(...).with_...(...)...`, calls applied left to right. */
  function ApplyAll(s: RowLevelSchema, calls: seq<Builder>): RowLevelSchema
    decreases |calls|
  {
    if |calls| == 0 then s else ApplyAll(Apply(s, calls[0]), calls[1..])
  }

  /** Any chain of builders lists the receiver's definitions followed by one
      definition per call, in call order, duplicates kept. */
  lemma {:induction false} BuilderChainOrder(s: RowLevelSchema, calls: seq<Builder>)
    ensures ApplyAll(s, calls).definitions
      == s.definitions + seq(|calls|, i requires 0 <= i < |calls| => DefinitionOf(calls[i]))
    decreases |calls|
  {
    if |calls| > 0 {
      var next := Apply(s, calls[0]);
      assert s.ExtendedBy(next, DefinitionOf(calls[0]));
      assert next.definitions == s.definitions + [DefinitionOf(calls[0])];
      BuilderChainOrder(next, calls[1..]);
      var defs := seq(|calls|, i requires 0 <= i < |calls| => DefinitionOf(calls[i]));
      var rest := seq(|calls| - 1, i requires 0 <= i < |calls| - 1 => DefinitionOf(calls[1..][i]));
      assert defs == [DefinitionOf(calls[0])] + rest;
    }
  }

  /** The schema of the full-validation scenario in the test suite, built by
      a chain of four builders with defaults filled in. */
  lemma TestSuiteSchema(mask: string)
    ensures RowLevelSchema()
      .WithStringColumn("s", false, Some(2), Some(3))
      .WithIntColumn("i", minValue := Some(1), maxValue := Some(3))
      .WithDecimalColumn("d", 3, 2)
      .WithTimestampColumn("t", mask, false)
      .definitions
      == [ ColumnDefinition("s", false, StringKind(Some(2), Some(3), None)),
           ColumnDefinition("i", true, IntKind(Some(1), Some(3))),
           ColumnDefinition("d", true, DecimalKind(3, 2)),
           ColumnDefinition("t", false, TimestampKind(mask)) ]
  {
  }
}
