/** Data frames as the validator sees them: named columns of equal height
    and a row index holding each row's label. Also the boolean selection
    `df[mask]`, modelled through the positions a mask selects. */
module Frames {
  import opened Cells

  datatype Column = Column(name: string, cells: seq<Cell>)

  datatype DataFrame = DataFrame(columns: seq<Column>, index: seq<int>)

  function Names(cols: seq<Column>): seq<string>
  {
    seq(|cols|, j requires 0 <= j < |cols| => cols[j].name)
  }

  predicate Distinct<T(==)>(s: seq<T>)
  {
    forall i, j :: 0 <= i < j < |s| ==> s[i] != s[j]
  }

  /** Column names are unique and every column is as tall as the index. */
  predicate WellFormed(df: DataFrame)
  {
    && Distinct(Names(df.columns))
    && forall j :: 0 <= j < |df.columns| ==> |df.columns[j].cells| == |df.index|
  }

  predicate HasColumn(df: DataFrame, name: string)
  {
    name in Names(df.columns)
  }

  /** The first position of `x` in `s`. */
  function {:induction false} IndexOf<T(==)>(s: seq<T>, x: T): (j: nat)
    requires x in s
    ensures j < |s| && s[j] == x && x !in s[..j]
  {
    if s[0] == x then 0
    else
      var j := IndexOf(s[1..], x);
      assert s[..j + 1] == [s[0]] + s[1..][..j];
      j + 1
  }

  /** `df[name]` */
  function ColumnOf(df: DataFrame, name: string): (s: seq<Cell>)
    requires WellFormed(df) && HasColumn(df, name)
    ensures |s| == |df.index|
  {
    df.columns[IndexOf(Names(df.columns), name)].cells
  }

  /** `df.get(name, pd.Series([None] * len(df), index=df.index))`: an absent
      column reads as a column of missing values of the frame's height. */
  function SeriesOrNulls(df: DataFrame, name: string): (s: seq<Cell>)
    requires WellFormed(df)
    ensures |s| == |df.index|
    ensures HasColumn(df, name) ==> s == ColumnOf(df, name)
    ensures !HasColumn(df, name) ==> forall i :: 0 <= i < |s| ==> s[i] == Null
  {
    if HasColumn(df, name) then ColumnOf(df, name) else seq(|df.index|, _ => Null)
  }

  /** With unique names, `df[name]` is the cells of the one column carrying
      that name. */
  lemma ColumnOfAt(df: DataFrame, j: nat)
    requires WellFormed(df) && j < |df.columns|
    ensures HasColumn(df, df.columns[j].name)
    ensures ColumnOf(df, df.columns[j].name) == df.columns[j].cells
  {
    var names := Names(df.columns);
    assert names[j] == df.columns[j].name;
    var k := IndexOf(names, names[j]);
    assert k == j by {
      if k < j {
        assert names[k] == names[j];
      }
    }
  }

  /*** Boolean selection ***/

  /** The positions, in increasing order, at which `mask` holds `want`. */
  function Positions(mask: seq<bool>, want: bool): (ps: seq<nat>)
    ensures forall k :: 0 <= k < |ps| ==> ps[k] < |mask| && mask[ps[k]] == want
  {
    if |mask| == 0 then []
    else
      var last := |mask| - 1;
      assert forall k :: 0 <= k < last ==> mask[..last][k] == mask[k];
      Positions(mask[..last], want) + (if mask[last] == want then [last] else [])
  }

  /** The selected positions are strictly increasing: selection keeps the
      rows' relative order. */
  lemma {:induction false} PositionsIncreasing(mask: seq<bool>, want: bool)
    ensures forall a, b :: 0 <= a < b < |Positions(mask, want)| ==> Positions(mask, want)[a] < Positions(mask, want)[b]
  {
    if |mask| > 0 {
      PositionsIncreasing(mask[..|mask| - 1], want);
    }
  }

  /** Every position at which `mask` holds `want` is selected. */
  lemma {:induction false} PositionsComplete(mask: seq<bool>, want: bool)
    ensures forall i :: 0 <= i < |mask| && mask[i] == want ==> i in Positions(mask, want)
  {
    if |mask| > 0 {
      var last := |mask| - 1;
      PositionsComplete(mask[..last], want);
      forall i | 0 <= i < last && mask[i] == want
        ensures i in Positions(mask, want)
      {
        assert mask[..last][i] == mask[i];
      }
    }
  }

  /** `df[mask]` and `df[~mask]` together hold every row exactly once. */
  lemma {:induction false} PositionsPartition(mask: seq<bool>)
    ensures |Positions(mask, true)| + |Positions(mask, false)| == |mask|
  {
    if |mask| > 0 {
      PositionsPartition(mask[..|mask| - 1]);
    }
  }

  function Pick<T>(s: seq<T>, ps: seq<nat>): (r: seq<T>)
    requires forall k :: 0 <= k < |ps| ==> ps[k] < |s|
    ensures |r| == |ps|
  {
    seq(|ps|, k requires 0 <= k < |ps| => s[ps[k]])
  }

  /** The rows of `df` at positions `ps`, every column kept: `df[mask]`
      for `ps == Positions(mask, true)`. */
  function Take(df: DataFrame, ps: seq<nat>): (r: DataFrame)
    requires WellFormed(df)
    requires forall k :: 0 <= k < |ps| ==> ps[k] < |df.index|
    ensures WellFormed(r)
    ensures Names(r.columns) == Names(df.columns)
    ensures r.index == Pick(df.index, ps)
    ensures forall j :: 0 <= j < |df.columns| ==> r.columns[j] == Column(df.columns[j].name, Pick(df.columns[j].cells, ps))
  {
    var cols := seq(|df.columns|, j requires 0 <= j < |df.columns| =>
      Column(df.columns[j].name, Pick(df.columns[j].cells, ps)));
    assert Names(cols) == Names(df.columns);
    DataFrame(cols, Pick(df.index, ps))
  }

  /** Selecting rows keeps every column, and the selected column is the
      original one restricted to the selected rows. */
  lemma TakeColumnOf(df: DataFrame, ps: seq<nat>, name: string)
    requires WellFormed(df) && HasColumn(df, name)
    requires forall k :: 0 <= k < |ps| ==> ps[k] < |df.index|
    ensures HasColumn(Take(df, ps), name)
    ensures ColumnOf(Take(df, ps), name) == Pick(ColumnOf(df, name), ps)
  {
  }
}
