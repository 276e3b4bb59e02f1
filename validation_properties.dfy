/** What validate promises its callers: the row mask is the conjunction of
    every definition's mask, the valid and invalid rows partition the input
    in order, and the valid output lays its columns out as the cast loop and
    the undefined-column loop build them. */
module ValidationProperties {
  import opened Cells
  import opened ColumnDefinitions
  import opened Schemas
  import opened Frames
  import opened RowLevelSchemaValidator

  /** A row is valid iff every definition, duplicates included, accepts its
      cell; otherwise it is invalid. Both outputs keep the input order. */
  lemma ValidatePartition(p: Parsers, data: DataFrame, schema: RowLevelSchema)
    requires WellFormed(data) && ValidateSpec(p, data, schema).Ok?
    ensures
      var r := ValidateSpec(p, data, schema).value;
      var mask := RowMask(p, data, schema.definitions);
      var validAt := Positions(mask, true);
      var invalidAt := Positions(mask, false);
      && r.validRows.index == Pick(data.index, validAt)
      && r.invalidRows == Take(data, invalidAt)
      && (forall i :: 0 <= i < |data.index| ==>
            (i in validAt <==> forall d :: d in schema.definitions ==> CellValid(p, d, SeriesOrNulls(data, d.name)[i])))
      && (forall i :: 0 <= i < |data.index| ==> (i in invalidAt <==> i !in validAt))
      && (forall a, b :: 0 <= a < b < |validAt| ==> validAt[a] < validAt[b])
      && (forall a, b :: 0 <= a < b < |invalidAt| ==> invalidAt[a] < invalidAt[b])
  {
    var mask := RowMask(p, data, schema.definitions);
    PositionsComplete(mask, true);
    PositionsComplete(mask, false);
    PositionsIncreasing(mask, true);
    PositionsIncreasing(mask, false);
  }

  /** `num_valid_rows + num_invalid_rows == len(data)`, and each count is the
      height of its frame. */
  lemma ValidateCounts(p: Parsers, data: DataFrame, schema: RowLevelSchema)
    requires WellFormed(data) && ValidateSpec(p, data, schema).Ok?
    ensures
      var r := ValidateSpec(p, data, schema).value;
      && r.numValidRows == |r.validRows.index|
      && r.numInvalidRows == |r.invalidRows.index|
      && r.numValidRows + r.numInvalidRows == |data.index|
  {
    PositionsPartition(RowMask(p, data, schema.definitions));
  }

  /** The `j`-th column of the valid output is the `j`-th distinct defined
      name (names keep the order they were first declared in, see
      `DedupFirstOccurrenceOrder`), present in the input and holding the
      cast, by the last definition of that name, of its valid rows. */
  lemma ValidateDefinedColumn(p: Parsers, data: DataFrame, schema: RowLevelSchema, j: nat)
    requires WellFormed(data) && ValidateSpec(p, data, schema).Ok?
    requires j < |Dedup(DefinitionNames(schema.definitions))|
    ensures
      var defs := schema.definitions;
      var name := Dedup(DefinitionNames(defs))[j];
      var last := defs[LastIndexOf(defs, name)];
      var validCells := Pick(ColumnOf(data, name), Positions(RowMask(p, data, defs), true));
      && HasColumn(data, name)
      && CastSeries(p, last, validCells).Ok?
      && ValidateSpec(p, data, schema).value.validRows.columns[j] == Column(name, CastSeries(p, last, validCells).value)
  {
    var defs := schema.definitions;
    var order := Dedup(DefinitionNames(defs));
    var name := order[j];
    var d := defs[LastIndexOf(defs, name)];
    var validAt := Positions(RowMask(p, data, defs), true);
    var valid := Take(data, validAt);
    assert MissingName(Names(data.columns), defs).None?;
    assert d in defs;
    assert HasColumn(data, name);
    TakeColumnOf(data, validAt, name);
    ValidRowsCastable(p, data, defs);
    assert CastReady(p, valid, defs);
    var cols := DefinedColumns(p, valid, defs);
    assert cols[j] == Column(name, CastSeries(p, d, ColumnOf(valid, name)).value);
    assert ValidateSpec(p, data, schema).value.validRows.columns == cols + PassThrough(valid.columns, DefinitionNames(defs));
  }

  /** After the defined columns come the input's undefined columns, in
      their original order, each restricted to the valid rows and otherwise
      unchanged. */
  lemma ValidatePassThroughColumns(p: Parsers, data: DataFrame, schema: RowLevelSchema)
    requires WellFormed(data) && ValidateSpec(p, data, schema).Ok?
    ensures
      var defs := schema.definitions;
      var cols := ValidateSpec(p, data, schema).value.validRows.columns;
      var order := Dedup(DefinitionNames(defs));
      var validAt := Positions(RowMask(p, data, defs), true);
      && |order| <= |cols|
      && cols[|order|..] == PassThrough(Take(data, validAt).columns, DefinitionNames(defs))
      && (forall j :: 0 <= j < |data.columns| && data.columns[j].name !in DefinitionNames(defs) ==>
            Column(data.columns[j].name, Pick(data.columns[j].cells, validAt)) in cols[|order|..])
  {
    var defs := schema.definitions;
    var validAt := Positions(RowMask(p, data, defs), true);
    var valid := Take(data, validAt);
    forall j | 0 <= j < |data.columns| && data.columns[j].name !in DefinitionNames(defs)
      ensures Column(data.columns[j].name, Pick(data.columns[j].cells, validAt)) in PassThrough(valid.columns, DefinitionNames(defs))
    {
      assert valid.columns[j] in valid.columns;
    }
  }

  /** validate raises KeyError exactly when some definition names a column
      the frame lacks, and the key it reports is such a name. */
  lemma ValidateMissingColumn(p: Parsers, data: DataFrame, schema: RowLevelSchema)
    requires WellFormed(data)
    ensures ValidateSpec(p, data, schema).Err? <==> exists d :: d in schema.definitions && !HasColumn(data, d.name)
    ensures ValidateSpec(p, data, schema).Err? ==>
      var e := ValidateSpec(p, data, schema).error;
      e.KeyError? && !HasColumn(data, e.key) && e.key in DefinitionNames(schema.definitions)
  {
  }

  /** An absent column is judged as a column of missing values: a
      non-nullable definition of it rejects every row, a nullable one none. */
  lemma AbsentColumnMask(p: Parsers, data: DataFrame, defs: seq<ColumnDefinition>, d: ColumnDefinition)
    requires WellFormed(data) && d in defs && !HasColumn(data, d.name)
    ensures IsValid(p, d, SeriesOrNulls(data, d.name)) == seq(|data.index|, _ => d.isNullable)
    ensures !d.isNullable ==> forall i :: 0 <= i < |data.index| ==> !RowMask(p, data, defs)[i]
  {
    NullValidIffNullable(p, d);
  }

  /** Every `with_*` builder narrows the row mask by exactly the new
      definition's mask, so extending a schema never accepts a new row, and
      a second definition of a name is and-ed with the first. */
  lemma ExtendedSchemaMask(p: Parsers, data: DataFrame, s: RowLevelSchema, r: RowLevelSchema, d: ColumnDefinition)
    requires WellFormed(data) && s.ExtendedBy(r, d)
    ensures RowMask(p, data, r.definitions) == And(RowMask(p, data, s.definitions), IsValid(p, d, SeriesOrNulls(data, d.name)))
    ensures forall i :: i in Positions(RowMask(p, data, r.definitions), true) ==> i in Positions(RowMask(p, data, s.definitions), true)
  {
    assert r.definitions == s.definitions + [d];
    RowMaskSnoc(p, data, s.definitions, d);
    PositionsComplete(RowMask(p, data, s.definitions), true);
  }

  /** Which rows pass depends only on which definitions the schema holds,
      not on the order they were declared in. */
  lemma MaskIgnoresDeclarationOrder(p: Parsers, data: DataFrame, a: seq<ColumnDefinition>, b: seq<ColumnDefinition>)
    requires WellFormed(data)
    requires forall d :: d in a <==> d in b
    ensures RowMask(p, data, a) == RowMask(p, data, b)
  {
  }

  /** Clearing `is_nullable` on one definition can only shrink the set of
      valid rows. */
  lemma NonNullableAcceptsFewerRows(p: Parsers, data: DataFrame, loose: seq<ColumnDefinition>, strict: seq<ColumnDefinition>, k: nat)
    requires WellFormed(data) && k < |loose|
    requires strict == loose[k := loose[k].(isNullable := false)]
    ensures forall i :: 0 <= i < |data.index| && RowMask(p, data, strict)[i] ==> RowMask(p, data, loose)[i]
  {
    forall i | 0 <= i < |data.index| && RowValid(p, data, strict, i)
      ensures RowValid(p, data, loose, i)
    {
      forall e | e in loose
        ensures CellValid(p, e, SeriesOrNulls(data, e.name)[i])
      {
        var j :| 0 <= j < |loose| && loose[j] == e;
        assert strict[j] in strict;
        if j == k {
          NullabilityMonotone(p, loose[k].(isNullable := true), SeriesOrNulls(data, e.name)[i]);
        }
      }
    }
  }
}
