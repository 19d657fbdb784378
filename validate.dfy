/** `validate_data`: a downloaded bar table is accepted only if it has no
    missing value, each of the nine expected columns has its expected
    type, and none of the six price and count columns holds a negative
    number. The checks run in that order and the first failing one decides
    the error. */
module ValidateData {
  import opened Wrappers

  /** The column types the check distinguishes. `Float64` is what pandas
      compares equal to 'float'; every other type (float32, int64, bool, a
      naive datetime, ...) is `OtherDType`, named as pandas shows it. */
  datatype DType = Object | DatetimeNsUtc | Float64 | OtherDType(name: string)

  /** A cell; `Null` stands for None, NaN and NaT alike. */
  datatype Cell = Null | Number(number: real) | Text(text: string) | Instant(nanos: int)

  /** A named, typed column. */
  datatype Column = Column(name: string, dtype: DType, cells: seq<Cell>)

  /** A table is its columns, in order. */
  type DataFrame = seq<Column>

  /** The ValueErrors the check raises, the KeyError of a missing expected
      column, and the AttributeError of an expected column given twice
      (`df[name]` is then a table, which has no single `dtype`). */
  datatype ValidationError =
    | MissingValues
    | MissingColumn(column: string)
    | RepeatedColumn(column: string)
    | IncorrectType(column: string, expected: DType, found: DType)
    | NegativeValues

  /** The expected columns and types, in declaration order. */
  const ExpectedDtypes: seq<(string, DType)> := [
    ("symbol", Object),
    ("timestamp", DatetimeNsUtc),
    ("open", Float64),
    ("high", Float64),
    ("low", Float64),
    ("close", Float64),
    ("volume", Float64),
    ("trade_count", Float64),
    ("vwap", Float64)
  ]

  /** The columns that must not hold negative numbers; `vwap` is not one. */
  const NumericColumns: seq<string> := ["open", "high", "low", "close", "volume", "trade_count"]

  /** `df.isnull().any().any()`. */
  predicate HasNull(df: DataFrame)
  {
    exists j, k :: 0 <= j < |df| && 0 <= k < |df[j].cells| && df[j].cells[k].Null?
  }

  /** `df[name]`: the first column with that name, if any. */
  function FindColumn(df: DataFrame, name: string): (r: Option<Column>)
    ensures r.None? <==> forall j :: 0 <= j < |df| ==> df[j].name != name
    ensures r.Some? ==> exists j :: (0 <= j < |df| && df[j] == r.value && df[j].name == name &&
      forall j' :: 0 <= j' < j ==> df[j'].name != name)
  {
    if df == [] then None
    else if df[0].name == name then Some(df[0])
    else
      var r := FindColumn(df[1..], name);
      assert forall j :: 1 <= j < |df| ==> df[j] == df[1..][j - 1];
      if r.Some? then
        assert exists j :: (0 <= j < |df| && df[j] == r.value && df[j].name == name &&
          forall j' :: 0 <= j' < j ==> df[j'].name != name) by {
          var j :| 0 <= j < |df[1..]| && df[1..][j] == r.value && df[1..][j].name == name &&
            forall j' :: 0 <= j' < j ==> df[1..][j'].name != name;
          assert forall j' :: 0 <= j' < j + 1 ==> df[j'].name != name by {
            forall j' | 0 <= j' < j + 1 ensures df[j'].name != name {
              if j' > 0 { assert df[j'] == df[1..][j' - 1]; }
            }
          }
        }
        r
      else r
  }

  /** Two columns carry the name. */
  predicate Repeated(df: DataFrame, name: string)
  {
    exists j, j' :: 0 <= j < j' < |df| && df[j].name == name && df[j'].name == name
  }

  /** The column exists once and has the expected type. */
  predicate ColumnTyped(df: DataFrame, name: string, dtype: DType)
  {
    FindColumn(df, name).Some? && !Repeated(df, name) && FindColumn(df, name).value.dtype == dtype
  }

  /** The error for an expected column that is missing, repeated or
      mistyped. */
  function TypeError(df: DataFrame, name: string, dtype: DType): ValidationError
  {
    match FindColumn(df, name)
    case None => MissingColumn(name)
    case Some(c) => if Repeated(df, name) then RepeatedColumn(name) else IncorrectType(name, dtype, c.dtype)
  }

  /** The dtype loop: the first expected column, in declaration order,
      that is missing, repeated or mistyped decides the error. */
  function CheckDtypes(df: DataFrame, expected: seq<(string, DType)>): (r: Option<ValidationError>)
    ensures r.None? <==> forall k :: 0 <= k < |expected| ==> ColumnTyped(df, expected[k].0, expected[k].1)
    ensures r.Some? ==> exists k :: (0 <= k < |expected| &&
      !ColumnTyped(df, expected[k].0, expected[k].1) &&
      r.value == TypeError(df, expected[k].0, expected[k].1) &&
      forall k' :: 0 <= k' < k ==> ColumnTyped(df, expected[k'].0, expected[k'].1))
  {
    if expected == [] then None
    else
      var (name, dtype) := expected[0];
      if !ColumnTyped(df, name, dtype) then Some(TypeError(df, name, dtype))
      else
        var r := CheckDtypes(df, expected[1..]);
        assert forall k :: 1 <= k < |expected| ==> expected[k] == expected[1..][k - 1];
        if r.Some? then
          assert exists k :: (0 <= k < |expected| &&
            !ColumnTyped(df, expected[k].0, expected[k].1) &&
            r.value == TypeError(df, expected[k].0, expected[k].1) &&
            forall k' :: 0 <= k' < k ==> ColumnTyped(df, expected[k'].0, expected[k'].1)) by {
            var k :| 0 <= k < |expected[1..]| &&
              !ColumnTyped(df, expected[1..][k].0, expected[1..][k].1) &&
              r.value == TypeError(df, expected[1..][k].0, expected[1..][k].1) &&
              forall k' :: 0 <= k' < k ==> ColumnTyped(df, expected[1..][k'].0, expected[1..][k'].1);
            assert forall k' :: 0 <= k' < k + 1 ==> ColumnTyped(df, expected[k'].0, expected[k'].1) by {
              forall k' | 0 <= k' < k + 1 ensures ColumnTyped(df, expected[k'].0, expected[k'].1) {
                if k' > 0 { assert expected[k'] == expected[1..][k' - 1]; }
              }
            }
          }
          r
        else r
  }

  /** Some cell of the column is a negative number. */
  predicate NegativeIn(c: Column)
  {
    exists i :: 0 <= i < |c.cells| && c.cells[i].Number? && c.cells[i].number < 0.0
  }

  /** `(df[names] < 0).any().any()`. */
  predicate HasNegative(df: DataFrame, names: seq<string>)
  {
    exists k :: 0 <= k < |names| && FindColumn(df, names[k]).Some? && NegativeIn(FindColumn(df, names[k]).value)
  }

  /** Every expected column exists with its expected type. */
  predicate Typed(df: DataFrame)
  {
    forall k :: 0 <= k < |ExpectedDtypes| ==> ColumnTyped(df, ExpectedDtypes[k].0, ExpectedDtypes[k].1)
  }

  /** `validate_data`: nulls first, then the types, then the signs; an
      accepted table comes back unchanged. */
  function Validate(df: DataFrame): (r: Result<DataFrame, ValidationError>)
    ensures r.Ok? ==> r.value == df
    ensures r == Err(MissingValues) <==> HasNull(df)
    ensures r.Ok? <==> (!HasNull(df) && Typed(df) && !HasNegative(df, NumericColumns))
    ensures r == Err(NegativeValues) <==> (!HasNull(df) && Typed(df) && HasNegative(df, NumericColumns))
    ensures r.Err? && (r.error.MissingColumn? || r.error.RepeatedColumn? || r.error.IncorrectType?) ==> (!HasNull(df) &&
      exists k :: (0 <= k < |ExpectedDtypes| &&
        !ColumnTyped(df, ExpectedDtypes[k].0, ExpectedDtypes[k].1) &&
        r.error == TypeError(df, ExpectedDtypes[k].0, ExpectedDtypes[k].1) &&
        forall k' :: 0 <= k' < k ==> ColumnTyped(df, ExpectedDtypes[k'].0, ExpectedDtypes[k'].1)))
  {
    if HasNull(df) then Err(MissingValues)
    else
      match CheckDtypes(df, ExpectedDtypes)
      case Some(e) => Err(e)
      case None => if HasNegative(df, NumericColumns) then Err(NegativeValues) else Ok(df)
  }

  /** An appended column never hides an earlier one of the same name. */
  lemma {:induction false} FindColumnAppend(df: DataFrame, extra: Column, name: string)
    requires FindColumn(df, name).Some?
    ensures FindColumn(df + [extra], name) == FindColumn(df, name)
  {
    if df[0].name != name {
      assert (df + [extra])[1..] == df[1..] + [extra];
      FindColumnAppend(df[1..], extra, name);
    }
  }

  /** Appending a column of another name repeats no name that was not
      repeated. */
  lemma RepeatedAppend(df: DataFrame, extra: Column, name: string)
    requires extra.name != name
    ensures Repeated(df + [extra], name) <==> Repeated(df, name)
  {
    var df' := df + [extra];
    if Repeated(df', name) {
      var j, j' :| 0 <= j < j' < |df'| && df'[j].name == name && df'[j'].name == name;
      assert df'[j] == df[j] && df'[j'] == df[j'];
    }
    if Repeated(df, name) {
      var j, j' :| 0 <= j < j' < |df| && df[j].name == name && df[j'].name == name;
      assert df'[j] == df[j] && df'[j'] == df[j'];
    }
  }

  /** Extra columns are not rejected: appending a column of a new name and
      without missing values to an accepted table gives an accepted
      table. */
  lemma ExtraColumnAccepted(df: DataFrame, extra: Column)
    requires Validate(df).Ok?
    requires forall j :: 0 <= j < |df| ==> df[j].name != extra.name
    requires forall k :: 0 <= k < |extra.cells| ==> !extra.cells[k].Null?
    ensures Validate(df + [extra]) == Ok(df + [extra])
  {
    var df' := df + [extra];
    forall k | 0 <= k < |ExpectedDtypes|
      ensures FindColumn(df', ExpectedDtypes[k].0) == FindColumn(df, ExpectedDtypes[k].0)
      ensures ColumnTyped(df', ExpectedDtypes[k].0, ExpectedDtypes[k].1)
    {
      ExtraKeepsExpected(df, extra, k);
    }
    assert Typed(df');
    assert !HasNegative(df', NumericColumns) by {
      forall k | 0 <= k < |NumericColumns|
        ensures FindColumn(df', NumericColumns[k]) == FindColumn(df, NumericColumns[k])
      {
        assert NumericColumns[k] == ExpectedDtypes[k + 2].0;
      }
    }
    assert !HasNull(df') by {
      forall j, k | 0 <= j < |df'| && 0 <= k < |df'[j].cells| ensures !df'[j].cells[k].Null? {
        if j < |df| {
          assert df'[j] == df[j];
        }
      }
    }
  }

  /** Appending a column of a new name keeps an expected column that was in
      order where it was, once, with its type. */
  lemma ExtraKeepsExpected(df: DataFrame, extra: Column, k: int)
    requires 0 <= k < |ExpectedDtypes| && ColumnTyped(df, ExpectedDtypes[k].0, ExpectedDtypes[k].1)
    requires forall j :: 0 <= j < |df| ==> df[j].name != extra.name
    ensures FindColumn(df + [extra], ExpectedDtypes[k].0) == FindColumn(df, ExpectedDtypes[k].0)
    ensures ColumnTyped(df + [extra], ExpectedDtypes[k].0, ExpectedDtypes[k].1)
  {
    var name := ExpectedDtypes[k].0;
    FindColumnAppend(df, extra, name);
    assert extra.name != name;
    RepeatedAppend(df, extra, name);
  }

  /** The table with the cells of every column called `name` replaced. */
  function WithCells(df: DataFrame, name: string, cells: seq<Cell>): (r: DataFrame)
    ensures |r| == |df|
    ensures forall j :: 0 <= j < |df| ==>
      r[j] == if df[j].name == name then Column(name, df[j].dtype, cells) else df[j]
  {
    if df == [] then []
    else
      var head := if df[0].name == name then Column(name, df[0].dtype, cells) else df[0];
      [head] + WithCells(df[1..], name, cells)
  }

  /** An expected column given twice is rejected whatever its cells and
      types; when every earlier expected column is in order, the error
      names it. */
  lemma RepeatedColumnRejected(df: DataFrame, k: int)
    requires 0 <= k < |ExpectedDtypes| && Repeated(df, ExpectedDtypes[k].0)
    ensures Validate(df).Err?
    ensures !HasNull(df) && (forall k' :: 0 <= k' < k ==> ColumnTyped(df, ExpectedDtypes[k'].0, ExpectedDtypes[k'].1)) ==>
      Validate(df) == Err(RepeatedColumn(ExpectedDtypes[k].0))
  {
    assert !ColumnTyped(df, ExpectedDtypes[k].0, ExpectedDtypes[k].1);
    assert !Typed(df);
    if !HasNull(df) && (forall k' :: 0 <= k' < k ==> ColumnTyped(df, ExpectedDtypes[k'].0, ExpectedDtypes[k'].1)) {
      var r := Validate(df);
      var k0 :| 0 <= k0 < |ExpectedDtypes| &&
        !ColumnTyped(df, ExpectedDtypes[k0].0, ExpectedDtypes[k0].1) &&
        r.error == TypeError(df, ExpectedDtypes[k0].0, ExpectedDtypes[k0].1) &&
        forall k' :: 0 <= k' < k0 ==> ColumnTyped(df, ExpectedDtypes[k'].0, ExpectedDtypes[k'].1);
      assert k0 == k;
      var j, j' :| 0 <= j < j' < |df| && df[j].name == ExpectedDtypes[k].0 && df[j'].name == ExpectedDtypes[k].0;
      assert FindColumn(df, ExpectedDtypes[k].0).Some?;
    }
  }

  /** Replacing a column's cells changes what `df[...]` finds only in its
      cells. */
  lemma {:induction false} FindColumnWithCells(df: DataFrame, name: string, cells: seq<Cell>, other: string)
    ensures FindColumn(WithCells(df, name, cells), other).None? <==> FindColumn(df, other).None?
    ensures FindColumn(df, other).Some? ==>
      FindColumn(WithCells(df, name, cells), other).value.dtype == FindColumn(df, other).value.dtype
    ensures other != name ==> FindColumn(WithCells(df, name, cells), other) == FindColumn(df, other)
  {
    if df != [] {
      assert WithCells(df, name, cells)[1..] == WithCells(df[1..], name, cells);
      FindColumnWithCells(df[1..], name, cells, other);
    }
  }

  /** Replacing cells keeps every name, so it repeats exactly the names
      that were repeated. */
  lemma RepeatedWithCells(df: DataFrame, name: string, cells: seq<Cell>, other: string)
    ensures Repeated(WithCells(df, name, cells), other) <==> Repeated(df, other)
  {
    var df' := WithCells(df, name, cells);
    if Repeated(df', other) {
      var j, j' :| 0 <= j < j' < |df'| && df'[j].name == other && df'[j'].name == other;
      assert df[j].name == other && df[j'].name == other;
    }
    if Repeated(df, other) {
      var j, j' :| 0 <= j < j' < |df| && df[j].name == other && df[j'].name == other;
      assert df'[j].name == other && df'[j'].name == other;
    }
  }

  /** Replacing the `vwap` cells keeps every expected column in place
      with its type. */
  lemma VwapKeepsTypes(df: DataFrame, cells: seq<Cell>)
    requires Typed(df)
    ensures Typed(WithCells(df, "vwap", cells))
  {
    var df' := WithCells(df, "vwap", cells);
    forall k | 0 <= k < |ExpectedDtypes|
      ensures ColumnTyped(df', ExpectedDtypes[k].0, ExpectedDtypes[k].1)
    {
      assert ColumnTyped(df, ExpectedDtypes[k].0, ExpectedDtypes[k].1);
      FindColumnWithCells(df, "vwap", cells, ExpectedDtypes[k].0);
      RepeatedWithCells(df, "vwap", cells, ExpectedDtypes[k].0);
    }
  }

  /** Replacing the `vwap` cells leaves the sign-checked columns as they
      were. */
  lemma VwapKeepsSigns(df: DataFrame, cells: seq<Cell>)
    ensures HasNegative(WithCells(df, "vwap", cells), NumericColumns) <==> HasNegative(df, NumericColumns)
  {
    var df' := WithCells(df, "vwap", cells);
    assert "vwap" !in NumericColumns;
    forall k | 0 <= k < |NumericColumns|
      ensures FindColumn(df', NumericColumns[k]) == FindColumn(df, NumericColumns[k])
    {
      FindColumnWithCells(df, "vwap", cells, NumericColumns[k]);
    }
  }

  /** `vwap` is never checked for sign: an accepted table stays accepted
      whatever non-missing values, negative ones too, its `vwap`
      column holds. */
  lemma VwapNotChecked(df: DataFrame, cells: seq<Cell>)
    requires Validate(df).Ok?
    requires forall k :: 0 <= k < |cells| ==> !cells[k].Null?
    ensures Validate(WithCells(df, "vwap", cells)).Ok?
  {
    var df' := WithCells(df, "vwap", cells);
    VwapKeepsTypes(df, cells);
    VwapKeepsSigns(df, cells);
    assert !HasNull(df') by {
      forall j, k | 0 <= j < |df'| && 0 <= k < |df'[j].cells| ensures !df'[j].cells[k].Null? {
        if df[j].name != "vwap" {
          assert df'[j] == df[j];
        }
      }
    }
  }
}
