/** Format dispatch of `load_data` (app.py, lines 14-33): which pandas reader
    a file goes to, and with which header setting. The readers themselves
    are outside the model; a `LoadPlan` names the one chosen. */
module Loader {
  import opened Wrappers

  /** The five readers `load_data` can call. */
  datatype Format = Csv | Excel | Tsv | Json | Sqlite

  /** The `header=` argument: `0` (the first row holds the column names) or
      `None` (no header row; columns are numbered). */
  datatype HeaderOption = FirstRowIsHeader | NoHeader

  /** A reader and the header argument passed to it; `None` when the reader
      is called without one. */
  datatype LoadPlan = LoadPlan(format: Format, header: Option<HeaderOption>)

  const UnsupportedFileType := "Unsupported file type"

  /** The directory uploads are saved into. */
  const UploadFolder := "uploads"

  /** `path.split(".")[-1]`: the text after the last dot, or all of `path`
      when it has no dot. */
  function LastSegment(path: string): (ext: string)
    ensures '.' !in ext
    ensures |ext| <= |path| && path[|path| - |ext|..] == ext
    ensures |ext| < |path| ==> path[|path| - |ext| - 1] == '.'
  {
    if path == [] then []
    else if path[|path| - 1] == '.' then []
    else
      var init := path[..|path| - 1];
      var ext := LastSegment(init);
      assert path[|path| - |ext| - 1..] == init[|init| - |ext|..] + [path[|path| - 1]];
      ext + [path[|path| - 1]]
  }

  /** ASCII lower-casing of one character. */
  function LowerChar(c: char): (r: char)
    ensures if 'A' <= c <= 'Z' then 'a' <= r <= 'z' else r == c
  {
    if 'A' <= c <= 'Z' then (c as int - 'A' as int + 'a' as int) as char else c
  }

  /** `s.lower()`, for ASCII letters. */
  function Lower(s: string): (r: string)
    ensures |r| == |s| && forall i :: 0 <= i < |s| ==> r[i] == LowerChar(s[i])
  {
    seq(|s|, i requires 0 <= i < |s| => LowerChar(s[i]))
  }

  /** The extension `load_data` dispatches on: the lower-cased text after
      the last dot. */
  function Extension(path: string): (e: string)
    ensures '.' !in e
    ensures |e| <= |path| && e == Lower(path[|path| - |e|..])
    ensures |e| < |path| ==> path[|path| - |e| - 1] == '.'
    ensures forall i :: 0 <= i < |e| ==> !('A' <= e[i] <= 'Z')
  {
    var ext := LastSegment(path);
    var e := Lower(ext);
    assert forall i :: 0 <= i < |e| ==> e[i] != '.' && !('A' <= e[i] <= 'Z') by {
      forall i | 0 <= i < |e| ensures e[i] != '.' && !('A' <= e[i] <= 'Z') {
        assert e[i] == LowerChar(ext[i]) && ext[i] != '.';
      }
    }
    e
  }

  /** The extensions each reader is chosen for. */
  function ExtensionsOf(f: Format): (exts: set<string>)
  {
    match f
    case Csv => {"csv"}
    case Excel => {"xlsx", "xls"}
    case Tsv => {"tsv"}
    case Json => {"json"}
    case Sqlite => {"db", "sqlite"}
  }

  const SupportedExtensions: set<string> := {"csv", "xlsx", "xls", "tsv", "json", "db", "sqlite"}

  /** Whether a reader takes the `header=` argument at all. */
  predicate TakesHeader(f: Format)
  {
    f == Csv || f == Excel || f == Tsv
  }

  function HeaderOptionOf(hasHeader: bool): (h: HeaderOption)
  {
    if hasHeader then FirstRowIsHeader else NoHeader
  }

  /** The branch chain of `load_data` on an extension already extracted. */
  function Dispatch(ext: string, hasHeader: bool): (r: Result<LoadPlan, string>)
    ensures r.Success? <==> ext in SupportedExtensions
    ensures r.Success? ==> ext in ExtensionsOf(r.value.format)
    ensures r.Success? ==> r.value.header == if TakesHeader(r.value.format) then Some(HeaderOptionOf(hasHeader)) else None
    ensures r.Failure? ==> r.error == UnsupportedFileType
  {
    var header := HeaderOptionOf(hasHeader);
    if ext == "csv" then Success(LoadPlan(Csv, Some(header)))
    else if ext in ["xlsx", "xls"] then Success(LoadPlan(Excel, Some(header)))
    else if ext == "tsv" then Success(LoadPlan(Tsv, Some(header)))
    else if ext == "json" then Success(LoadPlan(Json, None))
    else if ext in ["db", "sqlite"] then Success(LoadPlan(Sqlite, None))
    else Failure(UnsupportedFileType)
  }

  /** `load_data(filepath, has_header)`, up to the choice of reader. */
  function LoadData(path: string, hasHeader: bool): (r: Result<LoadPlan, string>)
    ensures r.Success? <==> Extension(path) in SupportedExtensions
    ensures r.Success? ==> Extension(path) in ExtensionsOf(r.value.format)
    ensures r.Success? ==> r.value.header == if TakesHeader(r.value.format) then Some(HeaderOptionOf(hasHeader)) else None
    ensures r.Failure? ==> r.error == UnsupportedFileType
  {
    Dispatch(Extension(path), hasHeader)
  }

  /** `os.path.join(UPLOAD_FOLDER, filename)` for a relative file name. The
      folder adds no dot, so the last segment is the file name's when that
      has a dot, and the whole joined path otherwise. */
  function UploadPath(filename: string): (p: string)
    ensures '.' in filename ==> LastSegment(p) == LastSegment(filename)
    ensures '.' !in filename ==> LastSegment(p) == p
  {
    var p := UploadFolder + "/" + filename;
    if '.' in filename then
      LastSegmentOfJoin(UploadFolder + "/", filename);
      p
    else
      assert '.' !in p;
      LastSegmentUnique(p, p);
      p
  }

  /** The three properties in `LastSegment`'s contract pin the segment down:
      nothing else satisfies them. */
  lemma LastSegmentUnique(path: string, e: string)
    requires '.' !in e
    requires |e| <= |path| && path[|path| - |e|..] == e
    requires |e| < |path| ==> path[|path| - |e| - 1] == '.'
    ensures e == LastSegment(path)
  {
  }

  lemma LowerSnoc(s: string, c: char)
    ensures Lower(s + [c]) == Lower(s) + [LowerChar(c)]
  {
  }

  lemma LastSegmentSnoc(s: string, c: char)
    requires c != '.'
    ensures LastSegment(s + [c]) == LastSegment(s) + [c]
  {
    assert (s + [c])[..|s|] == s;
  }

  /** Lower-casing does not move the last dot. */
  lemma {:induction false} LastSegmentOfLower(path: string)
    ensures LastSegment(Lower(path)) == Lower(LastSegment(path))
  {
    if path != [] {
      var n := |path|;
      var init, c := path[..n - 1], path[n - 1];
      assert path == init + [c];
      LowerSnoc(init, c);
      if c == '.' {
        assert LastSegment(Lower(path)) == [];
      } else {
        LastSegmentOfLower(init);
        LastSegmentSnoc(Lower(init), LowerChar(c));
        LastSegmentSnoc(init, c);
        LowerSnoc(LastSegment(init), c);
      }
    }
  }

  /** Dispatch is case-insensitive: two paths that agree once lower-cased
      go to the same reader with the same header setting, or both fail. */
  lemma LoadDataIgnoresCase(p: string, q: string, hasHeader: bool)
    requires Lower(p) == Lower(q)
    ensures LoadData(p, hasHeader) == LoadData(q, hasHeader)
  {
    LastSegmentOfLower(p);
    LastSegmentOfLower(q);
  }

  lemma DispatchHeaderFlag(ext: string)
    ensures Dispatch(ext, true) == Dispatch(ext, false)
            <==> Dispatch(ext, true).Failure? || !TakesHeader(Dispatch(ext, true).value.format)
  {
    var yes, no := Dispatch(ext, true), Dispatch(ext, false);
    if yes.Success? {
      assert no.Success? && yes.value.format == no.value.format;
    }
  }

  /** The header flag matters exactly for the csv, tsv and Excel readers. */
  lemma LoadDataHeaderFlag(path: string)
    ensures LoadData(path, true) == LoadData(path, false)
            <==> LoadData(path, true).Failure? || !TakesHeader(LoadData(path, true).value.format)
  {
    DispatchHeaderFlag(Extension(path));
  }

  /** A dot in the folder part of a path cannot matter once the file name has one. */
  lemma {:induction false} LastSegmentOfJoin(dir: string, name: string)
    requires '.' in name
    ensures LastSegment(dir + name) == LastSegment(name)
  {
    var n := |name|;
    if name[n - 1] != '.' {
      var init := name[..n - 1];
      assert (dir + name)[..|dir + name| - 1] == dir + init;
      if '.' in init {
        LastSegmentOfJoin(dir, init);
      } else {
        assert name[n - 1] in name[n - 1..];
      }
    }
  }

  /** A saved upload dispatches on its own file name when that name has a
      dot; a name without a dot yields the folder-prefixed path as the
      "extension" and is always rejected. */
  lemma UploadDispatch(filename: string, hasHeader: bool)
    ensures '.' in filename ==> LoadData(UploadPath(filename), hasHeader) == LoadData(filename, hasHeader)
    ensures '.' !in filename ==> LoadData(UploadPath(filename), hasHeader) == Failure(UnsupportedFileType)
  {
    if '.' !in filename {
      assert |Extension(UploadPath(filename))| > 6;
    }
  }
}
