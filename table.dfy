/**
 * The loaded table (a pandas DataFrame as the converter sees it) and the
 * per-column type decision made from its first non-missing value.
 */
module Table {
  import opened Wrappers

  /** One cell as the converter classifies it: `pd.isna` gives `Missing`,
      an int or float gives `Num` carrying the text `str(val)` would print,
      anything else gives `Str` carrying `str(val)`. */
  datatype Cell = Missing | Num(repr: string) | Str(s: string)

  /** The two SQL column types the converter can declare. */
  datatype ColumnType = NumericColumn | TextColumn

  /** Column headers in order and rows in order; a row holds one cell per
      column, positionally. */
  datatype DataFrame = DataFrame(columns: seq<string>, rows: seq<seq<Cell>>)

  /** A DataFrame is rectangular: every row has one cell per column. */
  predicate Rectangular(df: DataFrame) {
    forall i :: 0 <= i < |df.rows| ==> |df.rows[i]| == |df.columns|
  }

  /** `df[col]` for the column at position `j`, in row order. */
  function ColumnCells(df: DataFrame, j: nat): (r: seq<Cell>)
    requires Rectangular(df) && j < |df.columns|
    ensures |r| == |df.rows|
  {
    seq(|df.rows|, i requires 0 <= i < |df.rows| => df.rows[i][j])
  }

  /** `Series.dropna()`: the non-missing cells, in their original order. */
  function DropMissing(cells: seq<Cell>): (r: seq<Cell>)
    ensures |r| <= |cells|
    ensures forall i :: 0 <= i < |r| ==> !r[i].Missing?
    ensures r == [] <==> forall i :: 0 <= i < |cells| ==> cells[i].Missing?
    ensures forall c :: c in r <==> c in cells && !c.Missing?
  {
    if cells == [] then []
    else if cells[0].Missing? then DropMissing(cells[1..])
    else [cells[0]] + DropMissing(cells[1..])
  }

  /** The sample `sample_values.iloc[0]`, or `None` when `dropna()` left nothing. */
  function Sample(cells: seq<Cell>): (r: Option<Cell>)
    ensures r.Some? <==> exists i :: 0 <= i < |cells| && !cells[i].Missing?
    ensures r.Some? ==> r.value in cells && !r.value.Missing?
  {
    var present := DropMissing(cells);
    if |present| > 0 then Some(present[0]) else None
  }

  /** The column type: NUMERIC when the sample is numeric, TEXT when it is
      anything else and TEXT when there is no sample at all. */
  function InferColumnType(cells: seq<Cell>): (r: ColumnType)
    ensures r == NumericColumn ==> exists i :: 0 <= i < |cells| && cells[i].Num?
    ensures cells != [] && cells[0].Num? ==> r == NumericColumn
  {
    match Sample(cells)
    case Some(Num(_)) => NumericColumn
    case _ => TextColumn
  }

  /** The type decision as written, where the sample's Python type also
      depends on the column's dtype: `iloc[0]` on an int64 or bool column
      returns a numpy scalar that is not an `int`, so `isinstance(sample,
      (int, float))` fails for it. `numpyIntSample` says the column is such a
      column; a numeric sample of any other column (float64, or Python
      numbers in an object column) passes the test. */
  function InferColumnTypeAsWritten(cells: seq<Cell>, numpyIntSample: bool): (r: ColumnType)
    ensures r == NumericColumn <==> InferColumnType(cells) == NumericColumn && !numpyIntSample
  {
    match Sample(cells)
    case Some(Num(_)) => if numpyIntSample then TextColumn else NumericColumn
    case _ => TextColumn
  }

  /** `dropna` distributes over concatenation. */
  lemma {:induction false} DropMissingAppend(a: seq<Cell>, b: seq<Cell>)
    ensures DropMissing(a + b) == DropMissing(a) + DropMissing(b)
  {
    if a != [] {
      var ab := a + b;
      assert ab[0] == a[0] && ab[1..] == a[1..] + b;
      DropMissingAppend(a[1..], b);
      if a[0].Missing? {
        assert DropMissing(ab) == DropMissing(a[1..] + b);
      } else {
        assert DropMissing(ab) == [a[0]] + DropMissing(a[1..] + b);
      }
    } else {
      assert a + b == b;
    }
  }

  /** One more cell at the end: `dropna` keeps it exactly when it is not
      missing, after the cells kept before it. With `DropMissingAppend` this
      pins `dropna` down as the non-missing cells in their original order. */
  lemma DropMissingSnoc(cells: seq<Cell>, c: Cell)
    ensures DropMissing(cells + [c]) == DropMissing(cells) + (if c.Missing? then [] else [c])
  {
    DropMissingAppend(cells, [c]);
    assert [c][1..] == [];
  }

  /** The sample is the cell at the first non-missing position `k`. */
  lemma {:induction false} SampleIsFirstPresent(cells: seq<Cell>, k: nat)
    requires k < |cells| && !cells[k].Missing?
    requires forall i :: 0 <= i < k ==> cells[i].Missing?
    ensures Sample(cells) == Some(cells[k])
  {
    if k > 0 {
      SampleIsFirstPresent(cells[1..], k - 1);
    }
  }

  /** A column is declared NUMERIC exactly when its first non-missing value
      is numeric. */
  lemma InferredFromFirstPresent(cells: seq<Cell>, k: nat)
    requires k < |cells| && !cells[k].Missing?
    requires forall i :: 0 <= i < k ==> cells[i].Missing?
    ensures InferColumnType(cells) == NumericColumn <==> cells[k].Num?
  {
    SampleIsFirstPresent(cells, k);
  }

  /** A column without any non-missing value is declared TEXT. */
  lemma AllMissingIsText(cells: seq<Cell>)
    requires forall i :: 0 <= i < |cells| ==> cells[i].Missing?
    ensures InferColumnType(cells) == TextColumn
  {
  }

  /** Values after the first non-missing one do not affect the declaration:
      appending any cells to a column that already has a sample keeps its type. */
  lemma LaterValuesIgnored(cells: seq<Cell>, later: seq<Cell>, k: nat)
    requires k < |cells| && !cells[k].Missing?
    ensures InferColumnType(cells + later) == InferColumnType(cells)
  {
    DropMissingAppend(cells, later);
    assert DropMissing(cells) != [];
  }

  /** The declaration in terms of the whole column, both directions: NUMERIC
      if and only if some numeric cell has only missing cells before it. */
  lemma NumericIff(cells: seq<Cell>)
    ensures InferColumnType(cells) == NumericColumn
        <==> exists k :: 0 <= k < |cells| && cells[k].Num? && forall i :: 0 <= i < k ==> cells[i].Missing?
  {
    if InferColumnType(cells) == NumericColumn {
      var k := FirstPresentIndex(cells);
      InferredFromFirstPresent(cells, k);
    } else {
      forall k | 0 <= k < |cells| && cells[k].Num?
        ensures !(forall i :: 0 <= i < k ==> cells[i].Missing?)
      {
        if forall i :: 0 <= i < k ==> cells[i].Missing? {
          InferredFromFirstPresent(cells, k);
        }
      }
    }
  }

  /** The position of the first non-missing cell, when there is one. */
  function FirstPresentIndex(cells: seq<Cell>): (k: nat)
    requires exists i :: 0 <= i < |cells| && !cells[i].Missing?
    ensures k < |cells| && !cells[k].Missing?
    ensures forall i :: 0 <= i < k ==> cells[i].Missing?
  {
    if !cells[0].Missing? then 0
    else 1 + FirstPresentIndex(cells[1..])
  }
}
