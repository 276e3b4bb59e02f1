/** `RowLevelSchemaValidator.validate`: evaluate every definition of a
    schema against a data frame, and the row mask into valid and invalid
    rows, and cast the defined columns of the valid rows. */
module RowLevelSchemaValidator {
  import opened Cells
  import opened ColumnDefinitions
  import opened Schemas
  import opened Frames

  datatype RowLevelSchemaValidationResult = RowLevelSchemaValidationResult(
    validRows: DataFrame,
    numValidRows: nat,
    invalidRows: DataFrame,
    numInvalidRows: nat)

  function DefinitionNames(defs: seq<ColumnDefinition>): seq<string>
  {
    seq(|defs|, j requires 0 <= j < |defs| => defs[j].name)
  }

  /*** The row mask ***/

  /** Row `i` satisfies every definition, duplicates included; a definition
      whose column is absent judges a missing value. */
  predicate RowValid(p: Parsers, data: DataFrame, defs: seq<ColumnDefinition>, i: nat)
    requires WellFormed(data) && i < |data.index|
  {
    forall d :: d in defs ==> CellValid(p, d, SeriesOrNulls(data, d.name)[i])
  }

  function RowMask(p: Parsers, data: DataFrame, defs: seq<ColumnDefinition>): seq<bool>
    requires WellFormed(data)
  {
    seq(|data.index|, i requires 0 <= i < |data.index| => RowValid(p, data, defs, i))
  }

  /** One more definition and-s its own mask into the row mask. */
  lemma RowValidSnoc(p: Parsers, data: DataFrame, defs: seq<ColumnDefinition>, d: ColumnDefinition, i: nat)
    requires WellFormed(data) && i < |data.index|
    ensures RowValid(p, data, defs + [d], i) == (RowValid(p, data, defs, i) && CellValid(p, d, SeriesOrNulls(data, d.name)[i]))
  {
    assert forall e :: e in defs + [d] <==> e in defs || e == d;
  }

  /** Appending a definition and-s its mask into the row mask. */
  lemma RowMaskSnoc(p: Parsers, data: DataFrame, defs: seq<ColumnDefinition>, d: ColumnDefinition)
    requires WellFormed(data)
    ensures RowMask(p, data, defs + [d]) == And(RowMask(p, data, defs), IsValid(p, d, SeriesOrNulls(data, d.name)))
  {
    forall i | 0 <= i < |data.index|
      ensures RowMask(p, data, defs + [d])[i] == (RowMask(p, data, defs)[i] && IsValid(p, d, SeriesOrNulls(data, d.name))[i])
    {
      RowValidSnoc(p, data, defs, d, i);
    }
  }

  /*** The first absent defined column ***/

  /** The name `valid[cd.name]` fails on first, in definition order, given
      the frame's column names. */
  function MissingName(columns: seq<string>, defs: seq<ColumnDefinition>): (r: Option<string>)
    ensures r.None? <==> forall d :: d in defs ==> d.name in columns
    ensures r.Some? ==> r.value !in columns && r.value in DefinitionNames(defs)
  {
    if |defs| == 0 then None
    else
      assert DefinitionNames(defs)[0] == defs[0].name;
      if defs[0].name !in columns then Some(defs[0].name)
      else
        var r := MissingName(columns, defs[1..]);
        assert forall d :: d in defs <==> d == defs[0] || d in defs[1..];
        assert DefinitionNames(defs[1..]) == DefinitionNames(defs)[1..];
        r
  }

  lemma {:induction false} MissingNameAt(columns: seq<string>, defs: seq<ColumnDefinition>, k: nat)
    requires k < |defs| && defs[k].name !in columns
    requires forall j :: 0 <= j < k ==> defs[j].name in columns
    ensures MissingName(columns, defs) == Some(defs[k].name)
  {
    if k > 0 {
      MissingNameAt(columns, defs[1..], k - 1);
    }
  }

  /*** Order of the defined columns ***/

  /** The distinct elements of `s` in order of first occurrence. */
  function Dedup(s: seq<string>): (r: seq<string>)
    ensures Distinct(r)
    ensures forall x :: x in r <==> x in s
  {
    if |s| == 0 then []
    else
      var last := |s| - 1;
      assert s == s[..last] + [s[last]];
      var r := Dedup(s[..last]);
      if s[last] in r then r else r + [s[last]]
  }

  lemma IndexOfPrefix(s: seq<string>, t: seq<string>, x: string)
    requires x in s
    ensures IndexOf(s + t, x) == IndexOf(s, x)
  {
    var k := IndexOf(s, x);
    var k' := IndexOf(s + t, x);
    assert forall i :: 0 <= i < k ==> (s + t)[i] == s[..k][i];
    assert (s + t)[k] == x;
    assert forall i :: 0 <= i < k' ==> (s + t)[..k'][i] == (s + t)[i];
  }

  /** Defined columns appear in the order their names are first declared. */
  lemma {:induction false} DedupFirstOccurrenceOrder(s: seq<string>)
    ensures forall a, b :: 0 <= a < b < |Dedup(s)| ==> IndexOf(s, Dedup(s)[a]) < IndexOf(s, Dedup(s)[b])
  {
    if |s| > 0 {
      var last := |s| - 1;
      var pre := s[..last];
      assert s == pre + [s[last]];
      DedupFirstOccurrenceOrder(pre);
      var r := Dedup(pre);
      forall y | y in pre
        ensures IndexOf(s, y) == IndexOf(pre, y) && IndexOf(pre, y) < last
      {
        IndexOfPrefix(pre, [s[last]], y);
      }
      if s[last] !in r {
        assert IndexOf(s, s[last]) == last;
      }
    }
  }

  /** The position of the last definition of `name`. */
  function LastIndexOf(defs: seq<ColumnDefinition>, name: string): (k: nat)
    requires name in DefinitionNames(defs)
    ensures k < |defs| && defs[k].name == name
    ensures forall j :: k < j < |defs| ==> defs[j].name != name
  {
    var last := |defs| - 1;
    if defs[last].name == name then last
    else
      assert DefinitionNames(defs) == DefinitionNames(defs[..last]) + [defs[last].name];
      LastIndexOf(defs[..last], name)
  }

  /*** The cast columns ***/

  /** Every defined column that is present casts without raising. */
  predicate PresentCastable(p: Parsers, valid: DataFrame, defs: seq<ColumnDefinition>)
    requires WellFormed(valid)
  {
    forall d :: d in defs && HasColumn(valid, d.name) ==> CastSeries(p, d, ColumnOf(valid, d.name)).Ok?
  }

  /** Every defined column is present in the valid rows and its casts succeed. */
  predicate CastReady(p: Parsers, valid: DataFrame, defs: seq<ColumnDefinition>)
    requires WellFormed(valid)
  {
    forall d :: d in defs ==> HasColumn(valid, d.name) && CastSeries(p, d, ColumnOf(valid, d.name)).Ok?
  }

  /** What the loop over the definitions leaves in `casted`: one column per
      distinct defined name, in first-declaration order, holding the cast of
      the last definition of that name. */
  function DefinedColumns(p: Parsers, valid: DataFrame, defs: seq<ColumnDefinition>): (cols: seq<Column>)
    requires WellFormed(valid) && CastReady(p, valid, defs)
    ensures Names(cols) == Dedup(DefinitionNames(defs))
  {
    var order := Dedup(DefinitionNames(defs));
    var cols := seq(|order|, j requires 0 <= j < |order| =>
      var d := defs[LastIndexOf(defs, order[j])];
      Column(order[j], CastSeries(p, d, ColumnOf(valid, order[j])).value));
    assert Names(cols) == order;
    cols
  }

  /** The columns of `cols` not named in `defined`, in their original order. */
  function PassThrough(cols: seq<Column>, defined: seq<string>): (r: seq<Column>)
    ensures forall c :: c in r <==> c in cols && c.name !in defined
  {
    if |cols| == 0 then []
    else
      var last := |cols| - 1;
      assert cols == cols[..last] + [cols[last]];
      PassThrough(cols[..last], defined) + (if cols[last].name in defined then [] else [cols[last]])
  }

  /** Which of `cols` carry a defined name. */
  function DefinedMask(cols: seq<Column>, defined: seq<string>): (m: seq<bool>)
    ensures |m| == |cols|
  {
    seq(|cols|, j requires 0 <= j < |cols| => cols[j].name in defined)
  }

  /** `PassThrough` is the order-preserving filter: the columns at the
      increasing positions whose name is not defined. */
  lemma {:induction false} PassThroughKeepsOrder(cols: seq<Column>, defined: seq<string>)
    ensures PassThrough(cols, defined) == Pick(cols, Positions(DefinedMask(cols, defined), false))
    ensures forall a, b :: 0 <= a < b < |Positions(DefinedMask(cols, defined), false)| ==>
      Positions(DefinedMask(cols, defined), false)[a] < Positions(DefinedMask(cols, defined), false)[b]
  {
    var m := DefinedMask(cols, defined);
    PositionsIncreasing(m, false);
    if |cols| > 0 {
      var last := |cols| - 1;
      assert m[..last] == DefinedMask(cols[..last], defined);
      PassThroughKeepsOrder(cols[..last], defined);
      var ps := Positions(m[..last], false);
      assert Pick(cols, ps) == Pick(cols[..last], ps);
      if m[last] {
        assert Positions(m, false) == ps;
      } else {
        assert Positions(m, false) == ps + [last];
        assert Pick(cols, ps + [last]) == Pick(cols, ps) + [cols[last]];
      }
    }
  }

  /** `casted[c.name] = c` on an insertion-ordered dict: replace in place, or append. */
  function Assign(dict: seq<Column>, c: Column): seq<Column>
  {
    if |dict| == 0 then [c]
    else if dict[0].name == c.name then [c] + dict[1..]
    else [dict[0]] + Assign(dict[1..], c)
  }

  lemma {:induction false} AssignExisting(dict: seq<Column>, c: Column, j: nat)
    requires Distinct(Names(dict)) && j < |dict| && dict[j].name == c.name
    ensures Assign(dict, c) == dict[j := c]
  {
    if j > 0 {
      assert Names(dict)[0] != Names(dict)[j];
      assert Names(dict[1..]) == Names(dict)[1..];
      AssignExisting(dict[1..], c, j - 1);
    }
  }

  lemma {:induction false} AssignNew(dict: seq<Column>, c: Column)
    requires c.name !in Names(dict)
    ensures Assign(dict, c) == dict + [c]
  {
    if |dict| > 0 {
      assert Names(dict)[0] == dict[0].name;
      assert Names(dict[1..]) == Names(dict)[1..];
      AssignNew(dict[1..], c);
    }
  }

  lemma DefinitionNamesSnoc(defs: seq<ColumnDefinition>, d: ColumnDefinition)
    ensures DefinitionNames(defs + [d]) == DefinitionNames(defs) + [d.name]
  {
  }

  /** One more name extends the first-occurrence order only if it is new. */
  lemma DedupSnoc(names: seq<string>, x: string)
    ensures Dedup(names + [x]) == if x in Dedup(names) then Dedup(names) else Dedup(names) + [x]
  {
    assert (names + [x])[..|names|] == names;
  }

  /** One more definition becomes the last one of its name and leaves the
      last definitions of the other names where they were. */
  lemma LastIndexOfSnoc(defs: seq<ColumnDefinition>, d: ColumnDefinition, x: string)
    requires x in DefinitionNames(defs + [d])
    ensures x == d.name ==> LastIndexOf(defs + [d], x) == |defs|
    ensures x != d.name ==> x in DefinitionNames(defs) && LastIndexOf(defs + [d], x) == LastIndexOf(defs, x)
  {
    DefinitionNamesSnoc(defs, d);
    assert (defs + [d])[..|defs|] == defs;
  }

  lemma CastReadyPrefix(p: Parsers, valid: DataFrame, defs: seq<ColumnDefinition>, d: ColumnDefinition)
    requires WellFormed(valid) && CastReady(p, valid, defs + [d])
    ensures CastReady(p, valid, defs)
  {
    assert forall e :: e in defs ==> e in defs + [d];
  }

  /** Column `k` of the dict after one more definition: the new cast if the
      name is the new definition's, else what it was before. */
  lemma DefinedColumnsSnocAt(p: Parsers, valid: DataFrame, defs: seq<ColumnDefinition>, d: ColumnDefinition, k: nat)
    requires WellFormed(valid) && CastReady(p, valid, defs + [d]) && CastReady(p, valid, defs)
    requires k < |Dedup(DefinitionNames(defs))|
    ensures k < |DefinedColumns(p, valid, defs + [d])|
    ensures DefinedColumns(p, valid, defs + [d])[k]
         == if Dedup(DefinitionNames(defs))[k] == d.name
            then Column(d.name, CastSeries(p, d, ColumnOf(valid, d.name)).value)
            else DefinedColumns(p, valid, defs)[k]
  {
    var order := Dedup(DefinitionNames(defs));
    DefinitionNamesSnoc(defs, d);
    DedupSnoc(DefinitionNames(defs), d.name);
    assert order[k] in DefinitionNames(defs + [d]);
    LastIndexOfSnoc(defs, d, order[k]);
  }

  /** Casting one more definition is one dict assignment. */
  lemma DefinedColumnsSnoc(p: Parsers, valid: DataFrame, defs: seq<ColumnDefinition>, d: ColumnDefinition)
    requires WellFormed(valid) && CastReady(p, valid, defs + [d])
    ensures CastReady(p, valid, defs)
    ensures DefinedColumns(p, valid, defs + [d])
         == Assign(DefinedColumns(p, valid, defs), Column(d.name, CastSeries(p, d, ColumnOf(valid, d.name)).value))
  {
    CastReadyPrefix(p, valid, defs, d);
    if d.name in Dedup(DefinitionNames(defs)) {
      DefinedColumnsSnocExisting(p, valid, defs, d);
    } else {
      DefinedColumnsSnocNew(p, valid, defs, d);
    }
  }

  /** A second definition of a name replaces that name's column in place. */
  lemma DefinedColumnsSnocExisting(p: Parsers, valid: DataFrame, defs: seq<ColumnDefinition>, d: ColumnDefinition)
    requires WellFormed(valid) && CastReady(p, valid, defs + [d]) && CastReady(p, valid, defs)
    requires d.name in Dedup(DefinitionNames(defs))
    ensures DefinedColumns(p, valid, defs + [d])
         == Assign(DefinedColumns(p, valid, defs), Column(d.name, CastSeries(p, d, ColumnOf(valid, d.name)).value))
  {
    var order := Dedup(DefinitionNames(defs));
    DefinitionNamesSnoc(defs, d);
    DedupSnoc(DefinitionNames(defs), d.name);
    var before := DefinedColumns(p, valid, defs);
    var after := DefinedColumns(p, valid, defs + [d]);
    var c := Column(d.name, CastSeries(p, d, ColumnOf(valid, d.name)).value);
    var j0 := IndexOf(order, d.name);
    forall k | 0 <= k < |order|
      ensures after[k] == before[j0 := c][k]
    {
      DefinedColumnsSnocAt(p, valid, defs, d, k);
      if order[k] == d.name {
        assert Distinct(order);
      }
    }
    assert Names(before) == order;
    AssignExisting(before, c, j0);
  }

  /** A definition of a new name appends its column. */
  lemma DefinedColumnsSnocNew(p: Parsers, valid: DataFrame, defs: seq<ColumnDefinition>, d: ColumnDefinition)
    requires WellFormed(valid) && CastReady(p, valid, defs + [d]) && CastReady(p, valid, defs)
    requires d.name !in Dedup(DefinitionNames(defs))
    ensures DefinedColumns(p, valid, defs + [d])
         == Assign(DefinedColumns(p, valid, defs), Column(d.name, CastSeries(p, d, ColumnOf(valid, d.name)).value))
  {
    var order := Dedup(DefinitionNames(defs));
    var before := DefinedColumns(p, valid, defs);
    var after := DefinedColumns(p, valid, defs + [d]);
    var c := Column(d.name, CastSeries(p, d, ColumnOf(valid, d.name)).value);
    DefinedColumnsNewName(p, valid, defs, d);
    forall k | 0 <= k < |order|
      ensures after[k] == before[k]
    {
      DefinedColumnsSnocAt(p, valid, defs, d, k);
    }
    assert after == before + [c];
    assert Names(before) == order;
    AssignNew(before, c);
  }

  /** A definition of a new name adds its cast as the last column. */
  lemma DefinedColumnsNewName(p: Parsers, valid: DataFrame, defs: seq<ColumnDefinition>, d: ColumnDefinition)
    requires WellFormed(valid) && CastReady(p, valid, defs + [d]) && CastReady(p, valid, defs)
    requires d.name !in Dedup(DefinitionNames(defs))
    ensures |DefinedColumns(p, valid, defs + [d])| == |Dedup(DefinitionNames(defs))| + 1
    ensures DefinedColumns(p, valid, defs + [d])[|Dedup(DefinitionNames(defs))|]
         == Column(d.name, CastSeries(p, d, ColumnOf(valid, d.name)).value)
  {
    DefinitionNamesSnoc(defs, d);
    DedupSnoc(DefinitionNames(defs), d.name);
    LastIndexOfSnoc(defs, d, d.name);
  }

  /** The undefined-column loop appends one more column, or none. */
  lemma PassThroughSnoc(cols: seq<Column>, defined: seq<string>, j: nat)
    requires j < |cols|
    ensures PassThrough(cols[..j + 1], defined)
         == PassThrough(cols[..j], defined) + (if cols[j].name in defined then [] else [cols[j]])
  {
    assert cols[..j + 1][..j] == cols[..j];
  }

  /** An undefined column of a frame with unique names is not yet a key of
      the dict the undefined-column loop has filled so far. */
  lemma PassThroughFresh(casted: seq<Column>, cols: seq<Column>, defined: seq<string>, j: nat)
    requires Distinct(Names(cols)) && j < |cols| && cols[j].name !in defined
    requires forall x :: x in Names(casted) ==> x in defined
    ensures cols[j].name !in Names(casted + PassThrough(cols[..j], defined))
  {
    var passed := PassThrough(cols[..j], defined);
    forall k | 0 <= k < |passed|
      ensures Names(passed)[k] != cols[j].name
    {
      assert passed[k] in cols[..j];
      var m :| 0 <= m < j && cols[..j][m] == passed[k];
      assert Names(cols)[m] != Names(cols)[j];
    }
    assert Names(casted + passed) == Names(casted) + Names(passed);
  }

  /*** The steps of validate ***/

  /** `mask &= other`, in place. */
  method AndInPlace(mask: array<bool>, other: seq<bool>)
    requires mask.Length == |other|
    modifies mask
    ensures mask[..] == And(old(mask[..]), other)
  {
    for i := 0 to mask.Length
      invariant forall j :: 0 <= j < i ==> mask[j] == (old(mask[j]) && other[j])
      invariant forall j :: i <= j < mask.Length ==> mask[j] == old(mask[j])
    {
      mask[i] := mask[i] && other[i];
    }
  }

  /** The first loop: `mask &= cd.is_valid(series)` for every definition,
      an absent column read as all-missing. */
  method ComputeMask(p: Parsers, data: DataFrame, defs: seq<ColumnDefinition>) returns (rowMask: seq<bool>)
    requires WellFormed(data)
    ensures rowMask == RowMask(p, data, defs)
  {
    var mask := new bool[|data.index|](_ => true);
    assert mask[..] == RowMask(p, data, []);
    for k := 0 to |defs|
      invariant mask[..] == RowMask(p, data, defs[..k])
    {
      var cd := defs[k];
      var series := SeriesOrNulls(data, cd.name);
      var cdMask := IsValidSeries(p, cd, series);
      AndInPlace(mask, cdMask);
      assert defs[..k + 1] == defs[..k] + [cd];
      RowMaskSnoc(p, data, defs[..k], cd);
    }
    assert defs[..|defs|] == defs;
    rowMask := mask[..];
  }

  /** The second loop: `casted[cd.name] = cd.cast_series(valid[cd.name])`
      for every definition; `valid[cd.name]` raises KeyError on the first
      absent column. */
  method CastDefinedColumns(p: Parsers, valid: DataFrame, defs: seq<ColumnDefinition>) returns (r: Result<seq<Column>, Error>)
    requires WellFormed(valid) && PresentCastable(p, valid, defs)
    ensures MissingName(Names(valid.columns), defs).Some? ==> r == Err(KeyError(MissingName(Names(valid.columns), defs).value))
    ensures MissingName(Names(valid.columns), defs).None? ==> CastReady(p, valid, defs) && r == Ok(DefinedColumns(p, valid, defs))
  {
    var casted: seq<Column> := [];
    for k := 0 to |defs|
      invariant forall j :: 0 <= j < k ==> HasColumn(valid, defs[j].name)
      invariant CastReady(p, valid, defs[..k])
      invariant casted == DefinedColumns(p, valid, defs[..k])
    {
      var cd := defs[k];
      if !HasColumn(valid, cd.name) {
        MissingNameAt(Names(valid.columns), defs, k);
        return Err(KeyError(cd.name));
      }
      assert defs[..k + 1] == defs[..k] + [cd];
      DefinedColumnsSnoc(p, valid, defs[..k], cd);
      casted := Assign(casted, Column(cd.name, CastSeries(p, cd, ColumnOf(valid, cd.name)).value));
    }
    assert defs[..|defs|] == defs;
    r := Ok(casted);
  }

  /** The third loop: every column of the valid rows that no definition
      names is added, unchanged, after the defined ones. */
  method AddUndefinedColumns(valid: DataFrame, defs: seq<ColumnDefinition>, casted: seq<Column>) returns (result: seq<Column>)
    requires WellFormed(valid)
    requires forall x :: x in Names(casted) ==> x in DefinitionNames(defs)
    ensures result == casted + PassThrough(valid.columns, DefinitionNames(defs))
  {
    var definedNames := DefinitionNames(defs);
    result := casted;
    for j := 0 to |valid.columns|
      invariant result == casted + PassThrough(valid.columns[..j], definedNames)
    {
      PassThroughSnoc(valid.columns, definedNames, j);
      var col := valid.columns[j];
      if col.name !in definedNames {
        PassThroughFresh(casted, valid.columns, definedNames, j);
        AssignNew(result, col);
        result := Assign(result, col);
      }
    }
    assert valid.columns[..|valid.columns|] == valid.columns;
  }

  /** A row that passed the mask passes every definition, so casting the
      valid rows of a present column never raises. */
  lemma ValidRowsCastable(p: Parsers, data: DataFrame, defs: seq<ColumnDefinition>)
    requires WellFormed(data)
    ensures PresentCastable(p, Take(data, Positions(RowMask(p, data, defs), true)), defs)
  {
    var mask := RowMask(p, data, defs);
    var ps := Positions(mask, true);
    var valid := Take(data, ps);
    forall d | d in defs && HasColumn(valid, d.name)
      ensures CastSeries(p, d, ColumnOf(valid, d.name)).Ok?
    {
      TakeColumnOf(data, ps, d.name);
      var col := ColumnOf(valid, d.name);
      forall i | 0 <= i < |col|
        ensures CellValid(p, d, col[i])
      {
        assert mask[ps[i]];
        assert RowValid(p, data, defs, ps[i]);
      }
      ValidSeriesCastable(p, d, col);
    }
  }

  /** What validate returns: a KeyError naming the first absent defined
      column, or the valid rows (cast) and the invalid rows (untouched) with
      their counts. */
  function ValidateSpec(p: Parsers, data: DataFrame, schema: RowLevelSchema): Result<RowLevelSchemaValidationResult, Error>
    requires WellFormed(data)
  {
    var defs := schema.definitions;
    match MissingName(Names(data.columns), defs)
    case Some(name) => Err(KeyError(name))
    case None =>
      var mask := RowMask(p, data, defs);
      var valid := Take(data, Positions(mask, true));
      var invalid := Take(data, Positions(mask, false));
      var casted := DefinedColumns(p, valid, defs) + PassThrough(valid.columns, DefinitionNames(defs));
      Ok(RowLevelSchemaValidationResult(DataFrame(casted, valid.index), |valid.index|, invalid, |invalid.index|))
  }

  /** `RowLevelSchemaValidator.validate` */
  method Validate(p: Parsers, data: DataFrame, schema: RowLevelSchema) returns (r: Result<RowLevelSchemaValidationResult, Error>)
    requires WellFormed(data)
    ensures r == ValidateSpec(p, data, schema)
  {
    var defs := schema.definitions;
    var mask := ComputeMask(p, data, defs);
    var valid := Take(data, Positions(mask, true));
    var invalid := Take(data, Positions(mask, false));
    ValidRowsCastable(p, data, defs);
    var defined := CastDefinedColumns(p, valid, defs);
    if defined.Err? {
      return Err(defined.error);
    }
    var casted := AddUndefinedColumns(valid, defs, defined.value);
    r := Ok(RowLevelSchemaValidationResult(DataFrame(casted, valid.index), |valid.index|, invalid, |invalid.index|));
  }
}
