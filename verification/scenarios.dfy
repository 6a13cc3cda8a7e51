/** Concrete tables and paths, worked through the model. */
module Scenarios {
  import opened Wrappers
  import opened Masks
  import opened Duplicates
  import opened Tables
  import opened Cleaner
  import opened Summarizer
  import opened Loader

  function A(): (c: Cell) { Present(Text("A")) }
  function B(): (c: Cell) { Present(Text("B")) }
  function N(n: int): (c: Cell) { Present(Number(n)) }

  /** Two equal rows followed by a different one: one extra duplicate. */
  lemma RepeatedRowCount(t: Table, r1: Row, r3: Row)
    requires t.WellFormed() && |t.columns| > 0 && t.rows == [r1, r1, r3] && r1 != r3
    ensures DuplicateRowCount(t) == 1
  {
    var m := DuplicatedKeepFirst(t.rows);
    assert t.rows[..1] == [r1] && t.rows[..2] == [r1, r1];
    assert m == [false, true, false];
    assert [false, true, false][..2] == [false, true] && [false, true][..1] == [false];
    assert CountTrue([false]) == 0;
    assert CountTrue([false, true]) == 1;
    assert DuplicatedRows(t) == m;
  }

  /** Dropping duplicates from those rows keeps the first two distinct rows. */
  lemma RepeatedRowDropped(t: Table, r1: Row, r3: Row)
    requires t.WellFormed() && |t.columns| > 0 && t.rows == [r1, r1, r3] && r1 != r3
    ensures DropDuplicateRows(t).rows == [r1, r3]
  {
    var s := t.rows;
    assert s[..1] == [r1] && s[..2] == [r1, r1];
    var keep := Negate(DuplicatedKeepFirst(s));
    assert keep == [true, false, true];
    SelectFirstAndLast(s, keep);
  }

  /** Rows `[A,1], [A,1], [B,2]` under header `X,Y`: one extra duplicate,
      and dropping duplicates leaves `[A,1], [B,2]`. */
  lemma RepeatedRowIsCountedOnce()
    ensures var t := Table([Label("X"), Label("Y")], [[A(), N(1)], [A(), N(1)], [B(), N(2)]]);
            DuplicateRowCount(t) == 1 && DropDuplicateRows(t).rows == [[A(), N(1)], [B(), N(2)]]
  {
    var t := Table([Label("X"), Label("Y")], [[A(), N(1)], [A(), N(1)], [B(), N(2)]]);
    RepeatedRowCount(t, [A(), N(1)], [B(), N(2)]);
    RepeatedRowDropped(t, [A(), N(1)], [B(), N(2)]);
  }

  /** Two rows that agree except that both are missing the same cell are
      duplicates: a missing cell equals a missing cell. */
  lemma MissingCellsCompareEqual()
    ensures var t := Table([Label("X"), Label("Y")], [[Missing, N(1)], [Missing, N(1)]]);
            DuplicateRowCount(t) == 1 && MissingCount(t) == 2
  {
    var rows := [[Missing, N(1)], [Missing, N(1)]];
    assert rows[..1] == [[Missing, N(1)]];
    assert DuplicatedKeepFirst(rows) == [false, true];
    assert DuplicatedKeepFirst(rows)[..1] == [false];
    assert MissingRows(rows) == [true, true];
    assert MissingRows(rows)[..1] == [true];
  }

  /** Of three rows, only the middle one has a missing cell: it is the one
      counted, and `dropna` drops exactly that row. */
  lemma MiddleRowMissing(t: Table, r1: Row, r2: Row, r3: Row)
    requires t.WellFormed() && t.rows == [r1, r2, r3]
    requires !HasMissing(r1) && HasMissing(r2) && !HasMissing(r3)
    ensures DropMissingRows(t).rows == [r1, r3]
    ensures MissingCount(t) == 1
  {
    var s := t.rows;
    var keep := Negate(MissingRows(s));
    assert keep == [true, false, true];
    SelectFirstAndLast(s, keep);
  }

  /** Rows `[A,1], [-,2], [B,3]`: one row has an empty cell, the missing
      count is one, and `dropna` drops exactly that row. */
  lemma MissingRowIsDropped()
    ensures var t := Table([Label("X"), Label("Y")], [[A(), N(1)], [Missing, N(2)], [B(), N(3)]]);
            MissingCount(t) == 1 && DropMissingRows(t).rows == [[A(), N(1)], [B(), N(3)]]
  {
    var t := Table([Label("X"), Label("Y")], [[A(), N(1)], [Missing, N(2)], [B(), N(3)]]);
    MiddleRowMissing(t, [A(), N(1)], [Missing, N(2)], [B(), N(3)]);
  }

  /** When every row has a missing cell, `dropna` leaves a frame with its
      columns and no rows. pandas counts no duplicate columns in it, and
      removing duplicate columns from it raises. */
  lemma EmptiedFrameRejectsColumnCleaning()
    ensures var t := Table([Label("X"), Label("Y")], [[Missing, N(1)], [A(), Missing]]);
            var e := DropMissingRows(t);
            && e == Table([Label("X"), Label("Y")], [])
            && DuplicateColumnCount(e) == 0
            && DuplicateColumnsPreview(e) == NoneMarker(NoDuplicateColumnsText)
            && Clean(RemoveDuplicateColumns, e) == Failure(UnalignableMask)
  {
    var rows := [[Missing, N(1)], [A(), Missing]];
    var t := Table([Label("X"), Label("Y")], rows);
    assert HasMissing(rows[0]) && HasMissing(rows[1]);
  }

  /** Columns `X = [1,2,3]` and `Y = [1,2,3]`: `Y` is the one extra
      duplicate, and dropping duplicate columns keeps `X` alone. */
  lemma IdenticalColumnsKeepLeftmost()
    ensures var t := Table([Label("X"), Label("Y")], [[N(1), N(1)], [N(2), N(2)], [N(3), N(3)]]);
            DuplicateColumnCount(t) == 1 && DropDuplicateColumns(t).Success?
            && DropDuplicateColumns(t).value.columns == [Label("X")]
  {
    var t := Table([Label("X"), Label("Y")], [[N(1), N(1)], [N(2), N(2)], [N(3), N(3)]]);
    var col := [N(1), N(2), N(3)];
    assert Column(t, 0) == col && Column(t, 1) == col;
    assert Columns(t) == [col, col];
    assert Columns(t)[..1] == [col];
    var m := DuplicatedColumns(t);
    assert m == [false, true];
    assert m[..1] == [false];
    assert Negate(m) == [true, false];
    assert Negate(m)[..1] == [true];
    assert t.columns[..1] == [Label("X")];
  }

  /** The extension of a path whose last dot is followed by `seg`. */
  lemma ExtensionIs(path: string, seg: string)
    requires '.' !in seg && |seg| < |path|
    requires path[|path| - |seg|..] == seg && path[|path| - |seg| - 1] == '.'
    ensures Extension(path) == Lower(seg)
  {
    LastSegmentUnique(path, seg);
  }

  /** A `.xyz` upload is rejected. */
  lemma UnknownExtensionRejected()
    ensures LoadData("data.xyz", true) == Failure(UnsupportedFileType)
  {
    assert Extension("data.xyz") == "xyz" by {
      ExtensionIs("data.xyz", "xyz");
      assert Lower("xyz") == "xyz";
    }
  }

  /** An upper-case `.CSV` goes to the csv reader. */
  lemma UpperCaseCsvAccepted()
    ensures LoadData("DATA.CSV", false) == Success(LoadPlan(Csv, Some(NoHeader)))
  {
    assert Extension("DATA.CSV") == "csv" by {
      ExtensionIs("DATA.CSV", "CSV");
      assert Lower("CSV") == "csv";
    }
  }
}
