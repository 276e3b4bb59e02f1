/** The five kinds of column definition (base, String, Int, Decimal,
    Timestamp): for each, which cells of a column are valid and how a column
    is cast to its canonical type. */
module ColumnDefinitions {
  import opened Cells

  /** The constraint payload of each kind of definition. */
  datatype Kind =
    | Base
    | StringKind(minLength: Option<int>, maxLength: Option<int>, matches: Option<string>)
    | IntKind(minValue: Option<int>, maxValue: Option<int>)
    | DecimalKind(precision: int, scale: int)
    | TimestampKind(mask: string)

  datatype ColumnDefinition = ColumnDefinition(name: string, isNullable: bool, kind: Kind)

  /*** The validity rule, one cell at a time ***/

  predicate InBounds(n: int, minValue: Option<int>, maxValue: Option<int>)
  {
    (minValue.None? || n >= minValue.value) && (maxValue.None? || n <= maxValue.value)
  }

  predicate WithinLimits(p: Parsers, k: Kind, s: string)
    requires k.StringKind?
  {
    && (k.minLength.None? || |s| >= k.minLength.value)
    && (k.maxLength.None? || |s| <= k.maxLength.value)
    && (k.matches.None? || p.matchAt(k.matches.value, s))
  }

  /** `check_decimal` of the Decimal definition: a missing value is judged
      by nullability alone, and an accepted value can be cast. */
  function CheckDecimal(p: Parsers, d: ColumnDefinition, c: Cell): (ok: bool)
    requires d.kind.DecimalKind?
    ensures c.Null? ==> (ok <==> d.isNullable)
    ensures ok ==> CastCell(p, d, c).Some?
  {
    if c.Null? then d.isNullable
    else match p.toDecimal(c)
      case None => false
      case Some(t) => |t.digits| <= d.kind.precision && -t.exponent <= d.kind.scale
  }

  /** Whether definition `d` accepts cell `c`. Every kind judges a missing
      value by nullability alone, and every accepted cell can be cast. */
  function CellValid(p: Parsers, d: ColumnDefinition, c: Cell): (ok: bool)
    ensures c.Null? ==> (ok <==> d.isNullable)
    ensures ok ==> CastCell(p, d, c).Some?
  {
    match d.kind
    case Base => d.isNullable || !c.Null?
    case StringKind(_, _, _) =>
      if c.Null? then d.isNullable
      else c.Str? && (d.isNullable || WithinLimits(p, d.kind, c.s))
    case IntKind(minValue, maxValue) =>
      if c.Null? then d.isNullable
      else Coerce(p, c).Some? && InBounds(Coerce(p, c).value, minValue, maxValue)
    case DecimalKind(_, _) => CheckDecimal(p, d, c)
    case TimestampKind(mask) =>
      if c.Null? then d.isNullable else ParseTimestamp(p, mask, c).Some?
  }

  /** The mask `is_valid` must return: the rule applied row by row. */
  function IsValid(p: Parsers, d: ColumnDefinition, series: seq<Cell>): seq<bool>
  {
    seq(|series|, i requires 0 <= i < |series| => CellValid(p, d, series[i]))
  }

  /*** Element-wise Series operations used by the masks ***/

  function AllTrue(n: nat): seq<bool>
  {
    seq(n, _ => true)
  }

  function IsNull(s: seq<Cell>): seq<bool>
  {
    seq(|s|, i requires 0 <= i < |s| => s[i].Null?)
  }

  function NotNull(s: seq<Cell>): seq<bool>
  {
    seq(|s|, i requires 0 <= i < |s| => !s[i].Null?)
  }

  function And(a: seq<bool>, b: seq<bool>): seq<bool>
    requires |a| == |b|
  {
    seq(|a|, i requires 0 <= i < |a| => a[i] && b[i])
  }

  function Or(a: seq<bool>, b: seq<bool>): seq<bool>
    requires |a| == |b|
  {
    seq(|a|, i requires 0 <= i < |a| => a[i] || b[i])
  }

  /** `s.apply(lambda x: isinstance(x, str))` */
  function IsString(s: seq<Cell>): seq<bool>
  {
    seq(|s|, i requires 0 <= i < |s| => s[i].Str?)
  }

  /** `s.str.len().ge(m)`: a non-string has length NaN, which compares false. */
  function LengthAtLeast(s: seq<Cell>, m: int): seq<bool>
  {
    seq(|s|, i requires 0 <= i < |s| => s[i].Str? && |s[i].s| >= m)
  }

  /** `s.str.len().le(m)` */
  function LengthAtMost(s: seq<Cell>, m: int): seq<bool>
  {
    seq(|s|, i requires 0 <= i < |s| => s[i].Str? && |s[i].s| <= m)
  }

  /** `s.str.match(pattern)`: NaN for a non-string, which `&=` reads as false. */
  function Match(p: Parsers, s: seq<Cell>, pattern: string): seq<bool>
  {
    seq(|s|, i requires 0 <= i < |s| => s[i].Str? && p.matchAt(pattern, s[i].s))
  }

  /*** Base definition ***/

  /** `ColumnDefinition.is_valid` */
  function BaseIsValid(p: Parsers, d: ColumnDefinition, series: seq<Cell>): (mask: seq<bool>)
    requires d.kind.Base?
    ensures mask == IsValid(p, d, series)
  {
    if d.isNullable then AllTrue(|series|) else NotNull(series)
  }

  /*** String definition ***/

  /** `StringColumnDefinition.is_valid`: the type check, then, only for a
      non-nullable definition, non-null, length and pattern, each and-ed in. */
  method StringIsValid(p: Parsers, d: ColumnDefinition, series: seq<Cell>) returns (mask: seq<bool>)
    requires d.kind.StringKind?
    ensures mask == IsValid(p, d, series)
  {
    var s := series;
    var k := d.kind;
    mask := Or(IsNull(s), IsString(s));
    if !d.isNullable {
      mask := And(mask, NotNull(s));
      if k.minLength.Some? {
        mask := And(mask, LengthAtLeast(s, k.minLength.value));
      }
      if k.maxLength.Some? {
        mask := And(mask, LengthAtMost(s, k.maxLength.value));
      }
      if k.matches.Some? {
        mask := And(mask, Match(p, s, k.matches.value));
      }
    }
    forall i | 0 <= i < |s|
      ensures mask[i] == CellValid(p, d, s[i])
    {
    }
  }

  /*** Int definition ***/

  /** pandas' nullable boolean: comparing <NA> yields NA, and `&`, `|`
      follow Kleene's three-valued logic. */
  datatype Tri = Yes | No | NA

  function Lift(b: seq<bool>): seq<Tri>
  {
    seq(|b|, i requires 0 <= i < |b| => if b[i] then Yes else No)
  }

  function AndTri(a: seq<Tri>, b: seq<Tri>): seq<Tri>
    requires |a| == |b|
  {
    seq(|a|, i requires 0 <= i < |a| =>
      if a[i] == No || b[i] == No then No else if a[i] == Yes && b[i] == Yes then Yes else NA)
  }

  function OrTri(a: seq<Tri>, b: seq<Tri>): seq<Tri>
    requires |a| == |b|
  {
    seq(|a|, i requires 0 <= i < |a| =>
      if a[i] == Yes || b[i] == Yes then Yes else if a[i] == No && b[i] == No then No else NA)
  }

  /** `pd.to_numeric(series, errors="coerce").astype("Int64")` */
  function CoerceAll(p: Parsers, s: seq<Cell>): seq<Option<int>>
  {
    seq(|s|, i requires 0 <= i < |s| => Coerce(p, s[i]))
  }

  /** `coerced.notnull()`: the value is neither <NA> nor NaT. */
  function NotNA(c: seq<Option<int>>): seq<bool>
  {
    seq(|c|, i requires 0 <= i < |c| => c[i].Some?)
  }

  /** `coerced.ge(m)` */
  function Ge(c: seq<Option<int>>, m: int): seq<Tri>
  {
    seq(|c|, i requires 0 <= i < |c| => if c[i].None? then NA else if c[i].value >= m then Yes else No)
  }

  /** `coerced.le(m)` */
  function Le(c: seq<Option<int>>, m: int): seq<Tri>
  {
    seq(|c|, i requires 0 <= i < |c| => if c[i].None? then NA else if c[i].value <= m then Yes else No)
  }

  /** `IntColumnDefinition.is_valid`: nullability first, then each bound
      and-ed in with the null cells exempted. The result never holds NA. */
  method IntIsValid(p: Parsers, d: ColumnDefinition, series: seq<Cell>) returns (mask: seq<Tri>)
    requires d.kind.IntKind?
    ensures mask == Lift(IsValid(p, d, series))
  {
    var k := d.kind;
    var coerced := CoerceAll(p, series);
    mask := Lift(AllTrue(|series|));
    if d.isNullable {
      mask := AndTri(mask, Lift(Or(IsNull(series), NotNA(coerced))));
    } else {
      mask := AndTri(mask, Lift(NotNA(coerced)));
    }
    if k.minValue.Some? {
      mask := AndTri(mask, OrTri(Lift(IsNull(series)), Ge(coerced, k.minValue.value)));
    }
    assert forall i :: 0 <= i < |series| ==>
      mask[i] == if (if series[i].Null? then d.isNullable
                     else coerced[i].Some? && (k.minValue.None? || coerced[i].value >= k.minValue.value))
                 then Yes else No;
    if k.maxValue.Some? {
      mask := AndTri(mask, OrTri(Lift(IsNull(series)), Le(coerced, k.maxValue.value)));
    }
  }

  /*** Decimal definition ***/

  /** `DecimalColumnDefinition.is_valid`: `series.apply(check_decimal)` */
  function DecimalIsValid(p: Parsers, d: ColumnDefinition, series: seq<Cell>): (mask: seq<bool>)
    requires d.kind.DecimalKind?
    ensures mask == IsValid(p, d, series)
  {
    seq(|series|, i requires 0 <= i < |series| => CheckDecimal(p, d, series[i]))
  }

  /*** Timestamp definition ***/

  /** `pd.to_datetime(series, format=mask, errors="coerce")` */
  function ParseAll(p: Parsers, mask: string, s: seq<Cell>): seq<Option<int>>
  {
    seq(|s|, i requires 0 <= i < |s| => ParseTimestamp(p, mask, s[i]))
  }

  /** `TimestampColumnDefinition.is_valid` */
  function TimestampIsValid(p: Parsers, d: ColumnDefinition, series: seq<Cell>): (mask: seq<bool>)
    requires d.kind.TimestampKind?
    ensures mask == IsValid(p, d, series)
  {
    var coerced := ParseAll(p, d.kind.mask, series);
    if d.isNullable then Or(IsNull(series), NotNA(coerced)) else NotNA(coerced)
  }

  /** `cd.is_valid(series)`, dispatched on the kind of `cd`. */
  method IsValidSeries(p: Parsers, d: ColumnDefinition, series: seq<Cell>) returns (mask: seq<bool>)
    ensures mask == IsValid(p, d, series)
  {
    match d.kind
    case Base =>
      mask := BaseIsValid(p, d, series);
    case StringKind(_, _, _) =>
      mask := StringIsValid(p, d, series);
    case IntKind(_, _) =>
      var tri := IntIsValid(p, d, series);
      mask := seq(|tri|, i requires 0 <= i < |tri| => tri[i] == Yes);
    case DecimalKind(_, _) =>
      mask := DecimalIsValid(p, d, series);
    case TimestampKind(_) =>
      mask := TimestampIsValid(p, d, series);
  }

  /*** Casting ***/

  /** What `cast_series` makes of one cell; None where the source raises
      (`Decimal(str(x))` on a non-null cell it cannot parse). A missing value
      stays missing under every cast. */
  function CastCell(p: Parsers, d: ColumnDefinition, c: Cell): (r: Option<Cell>)
    ensures r.None? <==> d.kind.DecimalKind? && !c.Null? && p.toDecimal(c).None?
    ensures c.Null? ==> r == Some(Null)
  {
    match d.kind
    case Base => Some(c)
    case StringKind(_, _, _) => Some(c)
    case IntKind(_, _) =>
      Some(match Coerce(p, c) case Some(n) => Num(n) case None => Null)
    case DecimalKind(_, _) =>
      if c.Null? then Some(Null)
      else (match p.toDecimal(c) case Some(t) => Some(Dec(t)) case None => None)
    case TimestampKind(mask) =>
      Some(match ParseTimestamp(p, mask, c) case Some(t) => Time(t) case None => Null)
  }

  predicate Castable(p: Parsers, d: ColumnDefinition, series: seq<Cell>)
  {
    forall i :: 0 <= i < |series| ==> CastCell(p, d, series[i]).Some?
  }

  /** `cd.cast_series(series)`: the cell-by-cell cast, or InvalidOperation,
      which only the Decimal cast raises, on a cell it cannot parse. */
  function CastSeries(p: Parsers, d: ColumnDefinition, series: seq<Cell>): (r: Result<seq<Cell>, Error>)
    ensures r.Err? ==> r.error == InvalidOperation && d.kind.DecimalKind?
  {
    if Castable(p, d, series)
    then Ok(seq(|series|, i requires 0 <= i < |series| => CastCell(p, d, series[i]).value))
    else Err(InvalidOperation)
  }

  /*** Properties of the rules ***/

  /** Every kind judges a missing value by its nullability alone. */
  lemma NullValidIffNullable(p: Parsers, d: ColumnDefinition)
    ensures CellValid(p, d, Null) == d.isNullable
  {
  }

  /** Clearing `is_nullable` can only reject more cells, never accept more. */
  lemma NullabilityMonotone(p: Parsers, d: ColumnDefinition, c: Cell)
    ensures CellValid(p, d.(isNullable := false), c) ==> CellValid(p, d.(isNullable := true), c)
  {
  }

  /** Base definition: all rows when nullable, else exactly the non-null rows;
      casting changes nothing. */
  lemma BaseRules(p: Parsers, d: ColumnDefinition, series: seq<Cell>)
    requires d.kind.Base?
    ensures d.isNullable ==> IsValid(p, d, series) == AllTrue(|series|)
    ensures !d.isNullable ==> forall i :: 0 <= i < |series| ==> (IsValid(p, d, series)[i] <==> series[i] != Null)
    ensures CastSeries(p, d, series) == Ok(series)
  {
    assert Castable(p, d, series);
    assert CastSeries(p, d, series).value == series;
  }

  /** String definition: a non-null non-string is never valid; a nullable
      definition ignores its limits; a non-nullable one accepts exactly the
      strings within the length bounds that match the pattern. */
  lemma StringRules(p: Parsers, d: ColumnDefinition, c: Cell)
    requires d.kind.StringKind?
    ensures !c.Null? && !c.Str? ==> !CellValid(p, d, c)
    ensures d.isNullable ==> (CellValid(p, d, c) <==> c.Null? || c.Str?)
    ensures !d.isNullable ==> (CellValid(p, d, c) <==>
      c.Str?
      && (d.kind.minLength.None? || d.kind.minLength.value <= |c.s|)
      && (d.kind.maxLength.None? || |c.s| <= d.kind.maxLength.value)
      && (d.kind.matches.None? || p.matchAt(d.kind.matches.value, c.s)))
    ensures CastCell(p, d, c) == Some(c)
  {
  }

  /** Int definition: a value that cannot be coerced is invalid, a coerced
      one must lie within the inclusive bounds, and the bounds never reject
      a missing value. */
  lemma IntRules(p: Parsers, d: ColumnDefinition, c: Cell)
    requires d.kind.IntKind?
    ensures c.Null? ==> CellValid(p, d, c) == d.isNullable
    ensures !c.Null? && p.toNumeric(c).None? ==> !CellValid(p, d, c)
    ensures !c.Null? && p.toNumeric(c).Some? ==>
      (CellValid(p, d, c) <==> InBounds(p.toNumeric(c).value, d.kind.minValue, d.kind.maxValue))
  {
  }

  /** Decimal definition: valid iff missing and nullable, or parsed with at
      most `precision` coefficient digits and at most `scale` fractional
      digits. */
  lemma DecimalRules(p: Parsers, d: ColumnDefinition, c: Cell)
    requires d.kind.DecimalKind?
    ensures c.Null? ==> CellValid(p, d, c) == d.isNullable
    ensures !c.Null? ==> (CellValid(p, d, c) <==>
      p.toDecimal(c).Some?
      && |p.toDecimal(c).value.digits| <= d.kind.precision
      && -p.toDecimal(c).value.exponent <= d.kind.scale)
  {
  }

  /** The test suite's integer-bounds case: with bounds 1..5, "0" and "6"
      are rejected and "1" and "5" accepted. */
  lemma IntBoundsExample(p: Parsers)
    requires forall n :: 0 <= n <= 9 ==> p.toNumeric(Str([(48 + n) as char])) == Some(n)
    ensures IsValid(p, ColumnDefinition("i", true, IntKind(Some(1), Some(5))), [Str("0"), Str("1"), Str("5"), Str("6")])
      == [false, true, true, false]
  {
    assert p.toNumeric(Str("0")) == Some(0) && p.toNumeric(Str("1")) == Some(1);
    assert p.toNumeric(Str("5")) == Some(5) && p.toNumeric(Str("6")) == Some(6);
  }

  /** The test suite's decimal case: "1234" parses to four coefficient
      digits and is rejected at precision 3, while "1.23" (three digits, two
      fractional) passes at precision 3 and scale 2. */
  lemma DecimalPrecisionExample(p: Parsers, nullable: bool)
    requires p.toDecimal(Str("1234")) == Some(DecimalTuple(false, [1, 2, 3, 4], 0))
    requires p.toDecimal(Str("1.23")) == Some(DecimalTuple(false, [1, 2, 3], -2))
    ensures !CellValid(p, ColumnDefinition("d", nullable, DecimalKind(3, 2)), Str("1234"))
    ensures CellValid(p, ColumnDefinition("d", nullable, DecimalKind(3, 2)), Str("1.23"))
  {
  }

  /** Timestamp definition: valid iff missing and nullable, or parsed. */
  lemma TimestampRules(p: Parsers, d: ColumnDefinition, c: Cell)
    requires d.kind.TimestampKind?
    ensures CellValid(p, d, c) <==> (c.Null? && d.isNullable) || (!c.Null? && p.toDatetime(d.kind.mask, c).Some?)
  {
  }

  /** A column every cell of which the definition accepts can be cast:
      casting a validated column never raises. */
  lemma {:induction false} ValidSeriesCastable(p: Parsers, d: ColumnDefinition, series: seq<Cell>)
    requires forall i :: 0 <= i < |series| ==> CellValid(p, d, series[i])
    ensures CastSeries(p, d, series).Ok?
  {
    forall i | 0 <= i < |series|
      ensures CastCell(p, d, series[i]).Some?
    {
      assert CellValid(p, d, series[i]);
    }
  }

  /** Casting keeps the length, keeps every missing value missing, and maps
      a non-null cell of a Decimal column to its parsed Decimal. */
  lemma CastShape(p: Parsers, d: ColumnDefinition, series: seq<Cell>)
    requires CastSeries(p, d, series).Ok?
    ensures |CastSeries(p, d, series).value| == |series|
    ensures forall i :: 0 <= i < |series| ==> CastCell(p, d, series[i]) == Some(CastSeries(p, d, series).value[i])
    ensures forall i :: 0 <= i < |series| && series[i].Null? ==> CastSeries(p, d, series).value[i] == Null
    ensures d.kind.DecimalKind? ==> forall i :: 0 <= i < |series| && !series[i].Null? ==>
      p.toDecimal(series[i]).Some? && CastSeries(p, d, series).value[i] == Dec(p.toDecimal(series[i]).value)
  {
  }

  /** Casting an already cast column changes nothing, as long as each parser
      reads its own canonical values back unchanged. */
  lemma CastIdempotent(p: Parsers, d: ColumnDefinition, series: seq<Cell>)
    requires forall n :: p.toNumeric(Num(n)) == Some(n)
    requires forall t :: p.toDecimal(Dec(t)) == Some(t)
    requires d.kind.TimestampKind? ==> forall ns :: p.toDatetime(d.kind.mask, Time(ns)) == Some(ns)
    requires CastSeries(p, d, series).Ok?
    ensures CastSeries(p, d, CastSeries(p, d, series).value) == CastSeries(p, d, series)
  {
    var cast := CastSeries(p, d, series).value;
    forall i | 0 <= i < |cast|
      ensures CastCell(p, d, cast[i]) == Some(cast[i])
    {
    }
    assert Castable(p, d, cast);
    assert CastSeries(p, d, cast).value == cast;
  }
}
