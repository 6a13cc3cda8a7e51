# Data Cleaner — a Dafny model of its core

The Data Cleaner is a small Flask application. A user uploads one tabular file (CSV, TSV, Excel, JSON or SQLite). The app keeps it as a single in-memory pandas DataFrame (`GLOBAL_DF`) and shows summary counts and previews. It offers three cleaning actions: remove duplicate rows, remove duplicate columns, remove rows with missing values. The cleaned table can be downloaded as CSV.

This project models the logic of `app.py` that belongs to the application itself:

- **Format dispatch** (`load_data`): the extension is the text after the last dot, lower-cased. Each extension maps to one of five readers. The header flag is turned into pandas' `header=0` or `header=None`. Any other extension is an `Unsupported file type` error. Module `Loader`, file `loader.dfy`. The reader is named by a `LoadPlan`, not run.
- **Tables**: named columns and equal-length rows. A cell is `Missing` or a value. Module `Tables`, file `tables.dfy`.
- **Duplicate semantics**: pandas `duplicated(keep="first")` and `duplicated(keep=False)`, generic over rows and (transposed) columns. Datatype equality makes `Missing` equal `Missing`, as pandas does when it looks for duplicates. Modules `Masks` (boolean masks and selection by mask, as in `df[mask]`) and `Duplicates`.
- **Cleaning and counts**: `drop_duplicates()`, `loc[:, ~T.duplicated()]`, `dropna()` and the three counts, as pure functions. Module `Cleaner`.
- **Summary and previews**: shape, counts, `head()`, and the keep-all previews with their "No …" markers. Module `Summarizer`.
- **Dataset state**: class `Dataset` holds `current: Option<Table>` for `GLOBAL_DF`. A POST loads the upload first, then applies the action. Module `DatasetState`. The pandas reader is a function parameter `parser`.
- **Worked examples**: module `Scenarios`.

A pandas call that raises ends the request with an error. Removing duplicate columns from a frame that has columns but no rows is such a call. In pandas, `duplicated` answers an empty frame with an empty mask, and that mask cannot be aligned with the column labels. The model returns a `Result` for this action, and `Dataset.ApplyAction` and `Dataset.Post` stop at the error. A Python `bool` cell is held as the number 1 or 0, because pandas finds `True == 1` whenever it compares a boolean with an integer.

## Model

| member | source | states |
|---|---|---|
| `Loader.LastSegment` | app.py:16 | the result contains no dot, is a suffix of the path, and is preceded by a dot unless it is the whole path (`split(".")[-1]`) |
| `Loader.LastSegmentUnique` | app.py:16 | any string with those three properties is the last segment, so the contract determines it |
| `Loader.LastSegmentOfLower` | app.py:16 | lower-casing the path and taking the last segment commute |
| `Loader.Extension` | app.py:16 | the extension has no dot and no upper-case ASCII letter; it is the lower-cased suffix of the path, preceded by a dot unless it is the whole path |
| `Loader.Dispatch` | app.py:17-33 | a reader is chosen exactly for csv, xlsx, xls, tsv, json, db and sqlite; the chosen reader is the one for that extension; csv, tsv and Excel get `header=0` when the flag is set and `None` otherwise, json and SQLite get no header argument; every other extension fails with "Unsupported file type" |
| `Loader.LoadData` | app.py:14-33 | `load_data` succeeds exactly when the path's extension is one of the seven supported ones; the reader is the one for that extension; the header argument follows the flag for csv, tsv and Excel and is absent otherwise; any other extension gives "Unsupported file type" |
| `Loader.LoadDataIgnoresCase` | app.py:16-33 | two paths equal after lower-casing load the same way (same reader, same header setting, or the same error) |
| `Loader.LoadDataHeaderFlag` | app.py:17-31 | the header flag changes the outcome exactly when the extension selects csv, tsv or Excel |
| `Loader.LastSegmentOfJoin` | app.py:16 | once the file name contains a dot, a directory prefix does not change the extension |
| `Loader.UploadPath` | app.py:48 | `uploads/<name>` has the same last segment as `<name>` when the name has a dot; otherwise its last segment is the whole joined path |
| `Loader.UploadDispatch` | app.py:48-50 | a saved upload `uploads/<name>` loads like `<name>` when the name has a dot; a name without a dot is always rejected |
| `Masks.CountTrue` | app.py:68-70 | `mask.sum()` is at most the mask's length |
| `Masks.Negate` | app.py:59 | `~mask` has the same length and differs from the mask at every position |
| `Masks.Select` | app.py:74 | `s[mask]` has as many elements as the mask has `true` entries, and its k-th element is the one at the k-th kept position |
| `Masks.SelectMember` | app.py:74 | a value is selected exactly when some position holding it is kept |
| `Masks.CountNegate` | app.py:59-69 | the negated mask counts the entries the mask does not |
| `Masks.SelectAll` | app.py:55-63 | selecting with an all-true mask returns the sequence unchanged |
| `Duplicates.DuplicatedKeepFirst` | app.py:68 | `duplicated(keep="first")` marks a position exactly when an earlier position holds an equal element |
| `Duplicates.DuplicatedKeepAll` | app.py:74 | `duplicated(keep=False)` marks a position exactly when another position holds an equal element |
| `Duplicates.DropDuplicates` | app.py:55 | the result is no longer than the input and takes every element from it |
| `Duplicates.DuplicateCount` | app.py:68 | the duplicate count is at most the length, and strictly less for a non-empty input, since a first occurrence is never counted |
| `Duplicates.DropDuplicatesDistinct` | app.py:55 | the deduplicated sequence has pairwise-distinct elements |
| `Duplicates.DropDuplicatesSameElements` | app.py:55 | deduplication keeps every value of the input and adds none |
| `Duplicates.DropDuplicatesFirstOccurrenceOrder` | app.py:55 | the kept elements appear in the order of their first occurrence |
| `Duplicates.KeptAreFirstOccurrences` | app.py:55 | each kept element is taken from its first occurrence in the input |
| `Duplicates.DropDuplicatesLength` | app.py:55-68 | deduplication removes exactly as many elements as `duplicated().sum()` counts |
| `Duplicates.DuplicateCountZero` | app.py:68 | the keep-first duplicate count is zero exactly when the elements are pairwise distinct |
| `Duplicates.DropDuplicatesOfDistinct` | app.py:55 | deduplicating an already distinct sequence returns it unchanged |
| `Duplicates.DropDuplicatesIdempotent` | app.py:55 | deduplicating twice equals deduplicating once |
| `Duplicates.KeepAllHasKeepFirstWitness` | app.py:68-74 | whenever `keep=False` marks something, `keep="first"` marks something too |
| `Duplicates.KeepAllCoversKeepFirst` | app.py:68-79 | keep-first marks imply keep-all marks; the keep-all count is at least the keep-first count, strictly greater when that is positive, and the two are zero together |
| `Duplicates.KeepAllSelected` | app.py:74 | every element selected by the keep-all mask occurs at two distinct positions |
| `Duplicates.KeepAllSelection` | app.py:68-79 | the keep-all selection contains every element the keep-first count treats as extra, holds only repeated elements, and is strictly longer than that count when the count is positive |
| `Tables.Columns` | app.py:59 | the transposed frame has one row per column, each as long as the table, holding column j's cells top to bottom |
| `Tables.SelectColumns` | app.py:59 | `loc[:, mask]` keeps every row, takes the names of the selected columns, and its columns' contents are the selected contents in order |
| `Tables.SelectAllColumns` | app.py:59 | selecting every column gives the table back |
| `Tables.SelectRows` | app.py:74 | `df[mask]` keeps the columns, has as many rows as the mask marks, and every row comes from the table |
| `Cleaner.DuplicatedRows` | app.py:68 | `df.duplicated()` is empty for an empty frame; otherwise one mark per row, set exactly when an earlier row is equal |
| `Cleaner.DuplicatedColumns` | app.py:59-69 | `df.T.duplicated()` is empty for an empty frame; otherwise one mark per column, set exactly when an earlier column has the same content |
| `Cleaner.MissingRows` | app.py:70 | `isna().any(axis=1)` marks a row exactly when one of its cells is missing |
| `Cleaner.DuplicateRowCount` | app.py:68 | the duplicate-row count is at most the row count, and zero exactly when the frame is empty or its rows are pairwise distinct |
| `Cleaner.DuplicateColumnCount` | app.py:69 | the duplicate-column count is at most the column count, and zero exactly when the frame is empty or its columns' contents are pairwise distinct |
| `Cleaner.MissingCount` | app.py:70 | the missing count is at most the row count, and zero exactly when no row has a missing cell |
| `Cleaner.DropDuplicateRows` | app.py:55 | same columns; an empty frame comes back unchanged; with at least one column the rows are pairwise distinct; a row is in the result exactly when it is in the input; row count is `rows - duplicate_rows_count` |
| `Cleaner.DropDuplicateRowsOrder` | app.py:55 | for a frame with at least one column, kept rows follow the order of their first occurrences |
| `Cleaner.DropDuplicateRowsIdempotent` | app.py:55 | removing duplicate rows twice equals removing them once |
| `Cleaner.DropDuplicateColumns` | app.py:59 | fails with the unalignable-mask error exactly when the frame has columns but no rows; otherwise same number of rows, column contents pairwise distinct, every input column's content survives and none is added, and column count is `cols - duplicate_columns_count` |
| `Cleaner.DropDuplicateColumnsLeftmost` | app.py:59 | when the action succeeds, each kept column is the leftmost column with its content and keeps that column's name; kept columns stay in left-to-right order |
| `Cleaner.DropDuplicateColumnsIdempotent` | app.py:59 | once removing duplicate columns succeeds, doing it again succeeds with the same table |
| `Cleaner.DropMissingRows` | app.py:63 | same columns; no kept row has a missing cell; every row without a missing cell is kept; row count is `rows - missing_values_count` |
| `Cleaner.DropMissingRowsInOrder` | app.py:63 | the result equals the complete rows listed front to back, by an independent recursive definition |
| `Cleaner.SelectCompleteRows` | app.py:63 | selecting by the negated `isna().any(axis=1)` mask equals the recursive complete-row filter |
| `Cleaner.CompleteRowsAppend` | app.py:63 | the complete-row filter of `rows + [row]` extends that of `rows` by `row` exactly when `row` is complete |
| `Cleaner.DropMissingRowsIdempotent` | app.py:63 | dropping missing rows twice equals doing it once |
| `Cleaner.Clean` | app.py:54-63 | only removing duplicate columns can fail, and exactly on a frame with columns but no rows; a successful action yields a well-formed table with no more rows and no more columns |
| `Cleaner.CleanIdempotent` | app.py:54-63 | applying an action again after it succeeded gives the same result |
| `Summarizer.Head` | app.py:95 | `head()` is the first five rows, or all rows if there are fewer |
| `Summarizer.DuplicateRowsPreview` | app.py:73-77 | the duplicate-row preview is shown exactly when the duplicate-row count is positive, otherwise the "No duplicate rows" marker |
| `Summarizer.DuplicateColumnsPreview` | app.py:78-82 | the duplicate-column preview is shown exactly when the duplicate-column count is positive, otherwise the "No duplicate columns" marker |
| `Summarizer.MissingPreview` | app.py:83-87 | the missing-row preview is shown exactly when the missing count is positive, otherwise the "No missing values" marker |
| `Summarizer.Summarize` | app.py:66-99 | the shape is the table's; `duplicate_rows <= rows`, `duplicate_columns <= cols`, `missing_values <= rows`; each count is what the matching action removes (the duplicate-column count is zero when that action fails); each preview is shown exactly when its count is positive |
| `Summarizer.DuplicateRowsPreviewIsKeepAll` | app.py:68-77 | every previewed row occurs at least twice; every row the count treats as extra is previewed; the preview is strictly longer than the count |
| `Summarizer.DuplicateColumnsPreviewIsKeepAll` | app.py:69-82 | the same for columns: each previewed column's content occurs twice; every counted extra is previewed; the preview is strictly wider than the count |
| `Summarizer.MissingPreviewPartitions` | app.py:63-87 | the missing-row preview holds exactly the rows with a missing cell, as many as the count, and with the `dropna` result accounts for every row |
| `DatasetState.HasHeader` | app.py:46 | an absent `header` field means a header row; otherwise the flag holds exactly when the lower-cased field is "yes" |
| `DatasetState.HasUpload` | app.py:44-47 | a file is loaded exactly when the request has a `file` part with a non-empty name |
| `DatasetState.ActionOf` | app.py:54-62 | an action is selected exactly for the three field values `remove_duplicates`, `remove_dup_columns` and `remove_missing` |
| `DatasetState.AfterAction` | app.py:54-63 | with no dataset or no action the dataset is unchanged; the request fails exactly when the chosen action raises on the current dataset; otherwise the result is well-formed and no larger |
| `DatasetState.AfterActionIdempotent` | app.py:54-63 | after an action succeeded, submitting it again succeeds and leaves the dataset as it was |
| `DatasetState.Dataset.constructor` | app.py:12 | the process starts with no dataset |
| `DatasetState.Dataset.Upload` | app.py:50 | an upload replaces the dataset unconditionally |
| `DatasetState.Dataset.ApplyAction` | app.py:53-63 | the three guarded branches apply the named action to the current dataset, or change nothing when there is none; an action that raises is reported and leaves the dataset as it was |
| `DatasetState.Dataset.Post` | app.py:42-63 | a file with a non-empty name is loaded before the action is applied; an unsupported extension aborts the request with the dataset unchanged and no action applied; an action that raises aborts the request after the upload, which stays current, and no message is shown; without a file only the action applies |
| `DatasetState.Dataset.Info` | app.py:66-99 | the summary is present exactly when a dataset is, with that dataset's shape |
| `DatasetState.Dataset.Download` | app.py:104-118 | without a dataset the answer is the "No dataset loaded" text; otherwise the current table as `cleaned_data.csv` |
| `Scenarios.RepeatedRowCount` | app.py:68 | any rows `r1, r1, r3` with `r1 != r3` count exactly one duplicate |
| `Scenarios.RepeatedRowDropped` | app.py:55 | removing duplicates from `r1, r1, r3` leaves `r1, r3` |
| `Scenarios.RepeatedRowIsCountedOnce` | app.py:55-68 | rows `[A,1],[A,1],[B,2]` count one duplicate and clean to `[A,1],[B,2]` |
| `Scenarios.MissingCellsCompareEqual` | app.py:68-70 | two rows with the same missing cell are duplicates of each other, and both count as rows with missing values |
| `Scenarios.MiddleRowMissing` | app.py:63-70 | of three rows, if only the middle one has a missing cell, the missing count is one and `dropna` keeps the outer two |
| `Scenarios.MissingRowIsDropped` | app.py:63-70 | rows `[A,1],[-,2],[B,3]` count one row with missing values, and `dropna` leaves `[A,1],[B,3]` |
| `Scenarios.EmptiedFrameRejectsColumnCleaning` | app.py:59-82 | when every row has a missing cell, `dropna` leaves the columns with no rows; that frame counts no duplicate columns, shows the "No duplicate columns" marker, and removing duplicate columns from it fails |
| `Scenarios.IdenticalColumnsKeepLeftmost` | app.py:59-69 | identical columns `X` and `Y` count one duplicate, and cleaning succeeds and keeps `X` only |
| `Scenarios.UnknownExtensionRejected` | app.py:16-33 | `data.xyz` is rejected as an unsupported file type |
| `Scenarios.UpperCaseCsvAccepted` | app.py:16-20 | `DATA.CSV` goes to the csv reader, here with no header row |

## Left out

- The pandas readers (`read_csv`, `read_excel`, `read_json`, `read_sql`) and their type inference are foreign code. `Dataset.Post` takes them as the parameter `parser`. It is assumed to return a rectangular table for every path and plan. Parse errors in malformed files are not modelled.
- The SQLite branch opens the database and reads the first table listed in `sqlite_master`. That catalog order is database I/O and is not modelled. The plan only names the SQLite reader.
- Flask routing and form parsing are not modelled. Neither are `file.save`, `render_template`, the `to_html` rendering of previews, and the `to_csv`/`send_file` export. A GET to `/` only renders `Dataset.Info`. The download's CSV bytes are not modelled; `Dataset.Download` returns the table itself.
- An unsupported extension raises an uncaught `ValueError`, which becomes a failed request. `Dataset.Post` models this as a `failure` result. The state is left unchanged and no action is applied.
- `UploadPath` models `os.path.join` for a relative file name only. For an absolute client-supplied name, `os.path.join` drops the folder. The chosen reader is the same either way whenever the name contains a dot.
- `Lower` lower-cases ASCII letters only. Python's `str.lower` also maps non-ASCII letters. This matters only for extensions or header values with non-ASCII characters, and none of the accepted ones has any.
- Cells are `Missing` or a text, integer or boolean value. Floating-point numbers and NaN arithmetic are left out. `Missing` is an explicit sentinel that equals itself, as pandas treats NaN when it looks for duplicates.
- Empty frames are modelled only as far as the outcome goes. `DuplicatedRows` and `DuplicatedColumns` give an empty mask, the counts are 0, `drop_duplicates` returns the frame, and removing duplicate columns from a frame with columns but no rows fails with the message of pandas' `IndexingError` (`Cleaner.UnalignableMask`, as pandas 2.x words it). The exception type and its traceback are not modelled.
- DropDuplicateRowsOrder: states the first-occurrence order only for frames with at least one column. A frame without columns comes back unchanged, including any empty rows it has.
- Value: a Python `bool` cell is held as `Number(1)` or `Number(0)`. Comparisons then match pandas, where `True == 1`. The rendering difference between `True` and `1` in the HTML previews and the CSV export is not kept.
- Row index labels are left out. Filtering in pandas keeps the original row labels. They show up in the HTML previews but not in the CSV export (`index=False`). The model keeps rows only.
- Column-name uniqueness is not an invariant of `Table`. pandas does not require it, and no operation here depends on it.
- Concurrent requests racing on `GLOBAL_DF` are left out. The state is strictly sequential.
