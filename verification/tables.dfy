/** The in-memory table (a pandas DataFrame): named columns and equal-length
    rows of cells. */
module Tables {
  import opened Masks

  /** A present cell value: text or an integer. A Python `bool` cell is held
      as `Number(1)` or `Number(0)`: wherever pandas compares a boolean with
      a number (an object-dtype column, or the transposed frame of a table
      that mixes boolean and integer columns) it finds `True == 1` and
      `False == 0`, and two booleans compare as their numbers do. */
  datatype Value = Text(text: string) | Number(number: int)

  /** A cell is either missing (NaN / None in the DataFrame) or a value. */
  datatype Cell = Missing | Present(value: Value)

  /** A column label: a header name, or a positional integer when the file
      was read without a header row. */
  datatype ColumnName = Label(name: string) | Position(index: nat)

  type Row = seq<Cell>

  datatype Table = Table(columns: seq<ColumnName>, rows: seq<Row>) {
    /** Every row has one cell per column. */
    predicate WellFormed()
    {
      forall i :: 0 <= i < |rows| ==> |rows[i]| == |columns|
    }

    /** `DataFrame.empty`: no rows or no columns. The transposed frame is
        empty exactly when this one is. */
    predicate Empty()
    {
      |rows| == 0 || |columns| == 0
    }
  }

  /** The content of column `j`, top to bottom. */
  function Column(t: Table, j: nat): (c: seq<Cell>)
    requires t.WellFormed() && j < |t.columns|
    ensures |c| == |t.rows|
  {
    seq(|t.rows|, i requires 0 <= i < |t.rows| => t.rows[i][j])
  }

  /** The columns' contents, left to right: the rows of the transposed frame `T`. */
  function Columns(t: Table): (cs: seq<seq<Cell>>)
    requires t.WellFormed()
    ensures |cs| == |t.columns|
    ensures forall j :: 0 <= j < |cs| ==> |cs[j]| == |t.rows|
    ensures forall j, i :: 0 <= j < |cs| && 0 <= i < |t.rows| ==> cs[j][i] == t.rows[i][j]
  {
    seq(|t.columns|, j requires 0 <= j < |t.columns| => Column(t, j))
  }

  /** `df.loc[:, keep]`: the columns at which `keep` is true, names and
      contents together, in their original order; every row is kept. */
  function SelectColumns(t: Table, keep: seq<bool>): (r: Table)
    requires t.WellFormed() && |keep| == |t.columns|
    ensures r.WellFormed() && |r.rows| == |t.rows|
    ensures r.columns == Select(t.columns, keep)
    ensures Columns(r) == Select(Columns(t), keep)
  {
    var r := Table(Select(t.columns, keep),
                   seq(|t.rows|, i requires 0 <= i < |t.rows| => Select(t.rows[i], keep)));
    assert forall k :: 0 <= k < |r.columns| ==> Column(r, k) == Column(t, Positions(keep)[k]);
    r
  }

  /** `df[keep]`: the rows at which `keep` is true, in their original order. */
  function SelectRows(t: Table, keep: seq<bool>): (r: Table)
    requires t.WellFormed() && |keep| == |t.rows|
    ensures r.WellFormed() && r.columns == t.columns
    ensures |r.rows| == CountTrue(keep)
    ensures forall row :: row in r.rows ==> row in t.rows
  {
    Table(t.columns, Select(t.rows, keep))
  }

  /** Selecting every column gives the table back. */
  lemma SelectAllColumns(t: Table, keep: seq<bool>)
    requires t.WellFormed() && |keep| == |t.columns|
    requires CountTrue(keep) == |keep|
    ensures SelectColumns(t, keep) == t
  {
    SelectAll(t.columns, keep);
    forall i | 0 <= i < |t.rows| ensures Select(t.rows[i], keep) == t.rows[i] {
      SelectAll(t.rows[i], keep);
    }
  }
}
