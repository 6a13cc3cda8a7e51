/** The three cleaning actions and the marks and counts they are judged by
    (app.py, `index`). Each pandas call returns a new frame, so each action
    is a function from table to table. */
module Cleaner {
  import opened Wrappers
  import opened Masks
  import opened Duplicates
  import opened Tables

  /** The cleaning actions a request can ask for. */
  datatype Cleaning = RemoveDuplicateRows | RemoveDuplicateColumns | RemoveMissingRows

  predicate HasMissing(row: Row)
  {
    Missing in row
  }

  /** The message of the error pandas raises when a boolean mask cannot be
      aligned with the labels it filters. */
  const UnalignableMask := "Unalignable boolean Series provided as indexer (index of the boolean Series and of the indexed object do not match)."

  /** `df.duplicated()`: pandas answers an empty frame with an empty mask;
      otherwise it marks each row equal to an earlier row. */
  function DuplicatedRows(t: Table): (m: seq<bool>)
    ensures t.Empty() ==> m == []
    ensures !t.Empty() ==> |m| == |t.rows|
    ensures forall i :: 0 <= i < |m| ==> (m[i] <==> exists j :: 0 <= j < i && t.rows[j] == t.rows[i])
  {
    if t.Empty() then [] else DuplicatedKeepFirst(t.rows)
  }

  /** `df.T.duplicated()`: empty for an empty frame (whose transpose is
      empty too); otherwise it marks each column whose content equals an
      earlier column's. */
  function DuplicatedColumns(t: Table): (m: seq<bool>)
    requires t.WellFormed()
    ensures t.Empty() ==> m == []
    ensures !t.Empty() ==> |m| == |t.columns|
    ensures forall j :: 0 <= j < |m| ==> (m[j] <==> exists k :: 0 <= k < j && Columns(t)[k] == Columns(t)[j])
  {
    if t.Empty() then [] else DuplicatedKeepFirst(Columns(t))
  }

  /** `df.isna().any(axis=1)`: rows holding at least one missing cell. */
  function MissingRows(rows: seq<Row>): (m: seq<bool>)
    ensures |m| == |rows|
    ensures forall i :: 0 <= i < |rows| ==> (m[i] <==> exists j :: 0 <= j < |rows[i]| && rows[i][j] == Missing)
  {
    seq(|rows|, i requires 0 <= i < |rows| => HasMissing(rows[i]))
  }

  /** `df.duplicated().sum()`: zero exactly when the frame is empty or its
      rows are pairwise distinct. */
  function DuplicateRowCount(t: Table): (n: nat)
    ensures n <= |t.rows|
    ensures n == 0 <==> t.Empty() || Distinct(t.rows)
  {
    DuplicateCountZero(t.rows);
    CountTrue(DuplicatedRows(t))
  }

  /** `df.T.duplicated().sum()`: zero exactly when the frame is empty or its
      columns' contents are pairwise distinct. */
  function DuplicateColumnCount(t: Table): (n: nat)
    requires t.WellFormed()
    ensures n <= |t.columns|
    ensures n == 0 <==> t.Empty() || Distinct(Columns(t))
  {
    DuplicateCountZero(Columns(t));
    CountTrue(DuplicatedColumns(t))
  }

  /** `df.isna().any(axis=1).sum()`: zero exactly when no row has a missing cell. */
  function MissingCount(t: Table): (n: nat)
    ensures n <= |t.rows|
    ensures n == 0 <==> forall row :: row in t.rows ==> !HasMissing(row)
  {
    CountZero(MissingRows(t.rows));
    CountTrue(MissingRows(t.rows))
  }

  /** `df.drop_duplicates()`: an empty frame is returned as it is. */
  function DropDuplicateRows(t: Table): (r: Table)
    requires t.WellFormed()
    ensures r.WellFormed() && r.columns == t.columns
    ensures t.Empty() ==> r == t
    ensures |t.columns| > 0 ==> Distinct(r.rows)
    ensures forall row :: row in r.rows <==> row in t.rows
    ensures |r.rows| == |t.rows| - DuplicateRowCount(t)
  {
    if t.Empty() then t
    else
      DropDuplicatesDistinct(t.rows);
      DropDuplicatesSameElements(t.rows);
      DropDuplicatesLength(t.rows);
      Table(t.columns, DropDuplicates(t.rows))
  }

  /** `df.loc[:, ~df.T.duplicated()]`. The mask has one entry per column
      unless the frame is empty; an empty mask against a non-empty list of
      column labels cannot be aligned, and pandas raises. That happens
      exactly for a frame with columns but no rows. */
  function DropDuplicateColumns(t: Table): (r: Result<Table, string>)
    requires t.WellFormed()
    ensures r.Failure? <==> |t.rows| == 0 && |t.columns| > 0
    ensures r.Failure? ==> r.error == UnalignableMask
    ensures r.Success? ==> r.value.WellFormed() && |r.value.rows| == |t.rows|
    ensures r.Success? ==> Distinct(Columns(r.value))
    ensures r.Success? ==> forall c :: c in Columns(r.value) <==> c in Columns(t)
    ensures r.Success? ==> |r.value.columns| == |t.columns| - DuplicateColumnCount(t)
  {
    var keep := Negate(DuplicatedColumns(t));
    if |keep| != |t.columns| then Failure(UnalignableMask)
    else
      DropDuplicatesDistinct(Columns(t));
      DropDuplicatesSameElements(Columns(t));
      DropDuplicatesLength(Columns(t));
      Success(SelectColumns(t, keep))
  }

  /** `df.dropna()`. */
  function DropMissingRows(t: Table): (r: Table)
    requires t.WellFormed()
    ensures r.WellFormed() && r.columns == t.columns
    ensures forall row :: row in r.rows ==> row in t.rows && !HasMissing(row)
    ensures forall row :: row in t.rows && !HasMissing(row) ==> row in r.rows
    ensures |r.rows| == |t.rows| - MissingCount(t)
  {
    var keep := Negate(MissingRows(t.rows));
    CountNegate(MissingRows(t.rows));
    forall row ensures row in Select(t.rows, keep) <==> row in t.rows && !HasMissing(row) {
      SelectMember(t.rows, keep, row);
    }
    SelectRows(t, keep)
  }

  /** The table an action turns `t` into, or the error it raises: only
      removing duplicate columns can fail, on a frame with columns but no rows. */
  function Clean(action: Cleaning, t: Table): (r: Result<Table, string>)
    requires t.WellFormed()
    ensures r.Failure? <==> action == RemoveDuplicateColumns && |t.rows| == 0 && |t.columns| > 0
    ensures r.Success? ==> r.value.WellFormed()
                           && |r.value.rows| <= |t.rows| && |r.value.columns| <= |t.columns|
  {
    match action
    case RemoveDuplicateRows => Success(DropDuplicateRows(t))
    case RemoveDuplicateColumns => DropDuplicateColumns(t)
    case RemoveMissingRows => Success(DropMissingRows(t))
  }

  /** Kept rows appear in the order of their first occurrence in the input.
      (A frame without columns is returned as it is, its empty rows included.) */
  lemma DropDuplicateRowsOrder(t: Table)
    requires t.WellFormed()
    ensures |t.columns| > 0 ==>
            var r := DropDuplicateRows(t).rows;
            forall i, j :: 0 <= i < j < |r| ==> r[i] in t.rows && r[j] in t.rows && FirstIndex(t.rows, r[i]) < FirstIndex(t.rows, r[j])
  {
    if !t.Empty() {
      DropDuplicatesFirstOccurrenceOrder(t.rows);
    }
  }

  /** Each kept column is the leftmost column with its content, and keeps
      that column's name; kept columns stay in left-to-right order. */
  lemma DropDuplicateColumnsLeftmost(t: Table)
    requires t.WellFormed()
    ensures DropDuplicateColumns(t).Success? ==>
            var r := DropDuplicateColumns(t).value;
            var cs := Columns(r);
            && |r.columns| == |cs|
            && (forall k :: 0 <= k < |cs| ==> cs[k] in Columns(t) && r.columns[k] == t.columns[FirstIndex(Columns(t), cs[k])])
            && (forall k, l :: 0 <= k < l < |cs| ==> cs[k] in Columns(t) && cs[l] in Columns(t) && FirstIndex(Columns(t), cs[k]) < FirstIndex(Columns(t), cs[l]))
  {
    if DropDuplicateColumns(t).Success? {
      var r := DropDuplicateColumns(t).value;
      forall k | 0 <= k < |Columns(r)|
        ensures Columns(r)[k] in Columns(t) && r.columns[k] == t.columns[FirstIndex(Columns(t), Columns(r)[k])]
      {
        KeptAreFirstOccurrences(Columns(t), k);
      }
      DropDuplicatesFirstOccurrenceOrder(Columns(t));
    }
  }

  lemma DropDuplicateRowsIdempotent(t: Table)
    requires t.WellFormed()
    ensures DropDuplicateRows(DropDuplicateRows(t)) == DropDuplicateRows(t)
  {
    if !t.Empty() {
      DropDuplicatesIdempotent(t.rows);
    }
  }

  /** Once removing duplicate columns succeeds, repeating it succeeds and
      changes nothing. */
  lemma DropDuplicateColumnsIdempotent(t: Table)
    requires t.WellFormed()
    ensures DropDuplicateColumns(t).Success? ==>
            DropDuplicateColumns(DropDuplicateColumns(t).value) == DropDuplicateColumns(t)
  {
    if DropDuplicateColumns(t).Success? {
      var r := DropDuplicateColumns(t).value;
      var m := DuplicatedColumns(r);
      assert CountTrue(m) == DuplicateColumnCount(r) == 0;
      CountNegate(m);
      SelectAllColumns(r, Negate(m));
    }
  }

  lemma DropMissingRowsIdempotent(t: Table)
    requires t.WellFormed()
    ensures DropMissingRows(DropMissingRows(t)) == DropMissingRows(t)
  {
    var r := DropMissingRows(t);
    var m := MissingRows(r.rows);
    assert CountTrue(m) == MissingCount(r) == 0;
    CountNegate(m);
    SelectAll(r.rows, Negate(m));
    assert DropMissingRows(r) == SelectRows(r, Negate(m)) == Table(r.columns, r.rows);
  }

  /** Applying an action a second time, after it succeeded, changes nothing. */
  lemma CleanIdempotent(action: Cleaning, t: Table)
    requires t.WellFormed()
    ensures Clean(action, t).Success? ==> Clean(action, Clean(action, t).value) == Clean(action, t)
  {
    match action
    case RemoveDuplicateRows => DropDuplicateRowsIdempotent(t);
    case RemoveDuplicateColumns => DropDuplicateColumnsIdempotent(t);
    case RemoveMissingRows => DropMissingRowsIdempotent(t);
  }

  /** Reference definition of `dropna`: the rows without a missing cell, front to back. */
  function CompleteRows(rows: seq<Row>): (r: seq<Row>)
  {
    if rows == [] then []
    else (if HasMissing(rows[0]) then [] else [rows[0]]) + CompleteRows(rows[1..])
  }

  lemma {:induction false} CompleteRowsAppend(rows: seq<Row>, row: Row)
    ensures CompleteRows(rows + [row]) == CompleteRows(rows) + (if HasMissing(row) then [] else [row])
  {
    if rows != [] {
      assert (rows + [row])[1..] == rows[1..] + [row];
      CompleteRowsAppend(rows[1..], row);
    }
  }

  lemma {:induction false} SelectCompleteRows(rows: seq<Row>)
    ensures Select(rows, Negate(MissingRows(rows))) == CompleteRows(rows)
  {
    if rows != [] {
      var init := rows[..|rows| - 1];
      assert Negate(MissingRows(rows))[..|rows| - 1] == Negate(MissingRows(init));
      SelectCompleteRows(init);
      assert rows == init + [rows[|rows| - 1]];
      CompleteRowsAppend(init, rows[|rows| - 1]);
    }
  }

  /** `dropna` keeps exactly the complete rows, in their original order. */
  lemma DropMissingRowsInOrder(t: Table)
    requires t.WellFormed()
    ensures DropMissingRows(t).rows == CompleteRows(t.rows)
  {
    SelectCompleteRows(t.rows);
  }
}
