/** The dataset information the page shows for the current table
    (app.py, `index`, lines 66-99): shape, the three counts and the previews. */
module Summarizer {
  import opened Wrappers
  import opened Masks
  import opened Duplicates
  import opened Tables
  import opened Cleaner

  /** A preview: either a sub-table, or the text shown when there is nothing to show. */
  datatype Preview = Shown(table: Table) | NoneMarker(text: string)

  const NoDuplicateRowsText := "No duplicate rows"
  const NoDuplicateColumnsText := "No duplicate columns"
  const NoMissingValuesText := "No missing values"

  /** Number of rows `DataFrame.head()` shows by default. */
  const HeadRows := 5

  datatype Summary = Summary(
    rows: nat,
    cols: nat,
    duplicateRows: nat,
    duplicateColumns: nat,
    missingValues: nat,
    head: Table,
    previewRows: Preview,
    previewColumns: Preview,
    previewMissing: Preview)

  /** `df.head()`: the first five rows, or all of them if there are fewer. */
  function Head(t: Table): (r: Table)
    requires t.WellFormed()
    ensures r.WellFormed() && r.columns == t.columns
    ensures |r.rows| == if |t.rows| < HeadRows then |t.rows| else HeadRows
    ensures r.rows <= t.rows
  {
    Table(t.columns, t.rows[..if |t.rows| < HeadRows then |t.rows| else HeadRows])
  }

  /** `df[df.duplicated(keep=False)]` when the duplicate-row count is positive. */
  function DuplicateRowsPreview(t: Table): (p: Preview)
    requires t.WellFormed()
    ensures p.Shown? <==> DuplicateRowCount(t) > 0
    ensures p.NoneMarker? ==> p.text == NoDuplicateRowsText
    ensures p.Shown? ==> p.table.WellFormed() && p.table.columns == t.columns
  {
    if DuplicateRowCount(t) > 0 then Shown(SelectRows(t, DuplicatedKeepAll(t.rows)))
    else NoneMarker(NoDuplicateRowsText)
  }

  /** `df.loc[:, df.T.duplicated(keep=False)]` when the duplicate-column count is positive. */
  function DuplicateColumnsPreview(t: Table): (p: Preview)
    requires t.WellFormed()
    ensures p.Shown? <==> DuplicateColumnCount(t) > 0
    ensures p.NoneMarker? ==> p.text == NoDuplicateColumnsText
    ensures p.Shown? ==> p.table.WellFormed() && |p.table.rows| == |t.rows|
  {
    if DuplicateColumnCount(t) > 0 then Shown(SelectColumns(t, DuplicatedKeepAll(Columns(t))))
    else NoneMarker(NoDuplicateColumnsText)
  }

  /** `df[df.isna().any(axis=1)]` when the missing count is positive. */
  function MissingPreview(t: Table): (p: Preview)
    requires t.WellFormed()
    ensures p.Shown? <==> MissingCount(t) > 0
    ensures p.NoneMarker? ==> p.text == NoMissingValuesText
    ensures p.Shown? ==> p.table.WellFormed() && p.table.columns == t.columns
  {
    if MissingCount(t) > 0 then Shown(SelectRows(t, MissingRows(t.rows)))
    else NoneMarker(NoMissingValuesText)
  }

  /** Everything the page shows about the current table. */
  function Summarize(t: Table): (s: Summary)
    requires t.WellFormed()
    ensures s.rows == |t.rows| && s.cols == |t.columns|
    ensures s.duplicateRows <= s.rows && s.duplicateColumns <= s.cols && s.missingValues <= s.rows
    ensures s.rows - s.duplicateRows == |DropDuplicateRows(t).rows|
    ensures DropDuplicateColumns(t).Success? ==> s.cols - s.duplicateColumns == |DropDuplicateColumns(t).value.columns|
    ensures DropDuplicateColumns(t).Failure? ==> s.duplicateColumns == 0
    ensures s.rows - s.missingValues == |DropMissingRows(t).rows|
    ensures s.previewRows.Shown? <==> s.duplicateRows > 0
    ensures s.previewColumns.Shown? <==> s.duplicateColumns > 0
    ensures s.previewMissing.Shown? <==> s.missingValues > 0
  {
    Summary(
      |t.rows|, |t.columns|,
      DuplicateRowCount(t), DuplicateColumnCount(t), MissingCount(t),
      Head(t),
      DuplicateRowsPreview(t), DuplicateColumnsPreview(t), MissingPreview(t))
  }

  /** The duplicate-row preview shows every row involved in a duplication:
      each of its rows occurs at least twice in the table, every row the
      count treats as an extra is in it, and it is strictly longer than the
      count because it also holds the first member of each group. */
  lemma DuplicateRowsPreviewIsKeepAll(t: Table)
    requires t.WellFormed() && DuplicateRowCount(t) > 0
    ensures var rows := DuplicateRowsPreview(t).table.rows;
            && |rows| > DuplicateRowCount(t)
            && (forall i :: 0 <= i < |t.rows| && DuplicatedRows(t)[i] ==> t.rows[i] in rows)
            && (forall row :: row in rows ==> exists i, j :: 0 <= i < j < |t.rows| && t.rows[i] == row && t.rows[j] == row)
  {
    assert !t.Empty();
    assert DuplicatedRows(t) == DuplicatedKeepFirst(t.rows);
    assert DuplicateRowsPreview(t).table.rows == Select(t.rows, DuplicatedKeepAll(t.rows));
    KeepAllSelection(t.rows);
  }

  /** The same for columns: the preview holds every column whose content
      another column repeats, and is strictly wider than the count. */
  lemma DuplicateColumnsPreviewIsKeepAll(t: Table)
    requires t.WellFormed() && DuplicateColumnCount(t) > 0
    ensures var cs := Columns(DuplicateColumnsPreview(t).table);
            && |cs| > DuplicateColumnCount(t)
            && (forall j :: 0 <= j < |t.columns| && DuplicatedColumns(t)[j] ==> Columns(t)[j] in cs)
            && (forall c :: c in cs ==> exists i, j :: 0 <= i < j < |t.columns| && Columns(t)[i] == c && Columns(t)[j] == c)
  {
    assert !t.Empty();
    assert DuplicatedColumns(t) == DuplicatedKeepFirst(Columns(t));
    assert Columns(DuplicateColumnsPreview(t).table) == Select(Columns(t), DuplicatedKeepAll(Columns(t)));
    KeepAllSelection(Columns(t));
  }

  /** The missing-row preview and `dropna` split the table: the preview holds
      exactly the rows with a missing cell, as many as the count says, and
      together with the cleaned table accounts for every row. */
  lemma MissingPreviewPartitions(t: Table)
    requires t.WellFormed() && MissingCount(t) > 0
    ensures var rows := MissingPreview(t).table.rows;
            && |rows| == MissingCount(t)
            && |rows| + |DropMissingRows(t).rows| == |t.rows|
            && (forall row :: row in rows <==> row in t.rows && HasMissing(row))
  {
    var rows := MissingPreview(t).table.rows;
    forall row ensures row in rows <==> row in t.rows && HasMissing(row) {
      SelectMember(t.rows, MissingRows(t.rows), row);
    }
  }
}
