/** The single current dataset (`GLOBAL_DF`, app.py line 12) and the request
    handling that replaces it (app.py, `index` and `download`). */
module DatasetState {
  import opened Wrappers
  import opened Tables
  import opened Cleaner
  import opened Summarizer
  import opened Loader

  /** An uploaded file part; only its client-supplied name matters here, the
      bytes reach the reader through the parser parameter. */
  datatype FilePart = FilePart(filename: string)

  /** A POST to `/`: the optional `file` part and the optional `header` and
      `action` form fields. */
  datatype Request = Request(file: Option<FilePart>, header: Option<string>, action: Option<string>)

  /** What `/download` answers. */
  datatype DownloadResponse = NoDataset(text: string) | Attachment(table: Table, name: string)

  const UploadedMessage := "File uploaded successfully!"
  const NoDatasetMessage := "No dataset loaded"
  const DownloadName := "cleaned_data.csv"

  /** `request.form.get("header", "yes").lower() == "yes"`. */
  function HasHeader(field: Option<string>): (b: bool)
    ensures field == None ==> b
    ensures field.Some? ==> (b <==> Lower(field.value) == "yes")
  {
    Lower(match field case Some(v) => v case None => "yes") == "yes"
  }

  /** The cleaning action named by the `action` field, if it names one. */
  function ActionOf(field: Option<string>): (a: Option<Cleaning>)
    ensures a.Some? <==> field in {Some("remove_duplicates"), Some("remove_dup_columns"), Some("remove_missing")}
  {
    if field == Some("remove_duplicates") then Some(RemoveDuplicateRows)
    else if field == Some("remove_dup_columns") then Some(RemoveDuplicateColumns)
    else if field == Some("remove_missing") then Some(RemoveMissingRows)
    else None
  }

  /** The dataset after an optional action, or the error that aborts the
      request: an action with no dataset, or no action, leaves it as it was. */
  function AfterAction(current: Option<Table>, action: Option<Cleaning>): (r: Result<Option<Table>, string>)
    requires current.Some? ==> current.value.WellFormed()
    ensures action.None? || current.None? ==> r == Success(current)
    ensures r.Failure? <==> current.Some? && action.Some? && Clean(action.value, current.value).Failure?
    ensures r.Success? ==> (r.value.Some? <==> current.Some?)
    ensures r.Success? && r.value.Some? ==> r.value.value.WellFormed()
                                            && |r.value.value.rows| <= |current.value.rows|
                                            && |r.value.value.columns| <= |current.value.columns|
  {
    if current.Some? && action.Some? then
      match Clean(action.value, current.value)
      case Success(t) => Success(Some(t))
      case Failure(e) => Failure(e)
    else Success(current)
  }

  /** Submitting the same action again, after it succeeded, leaves the dataset as once. */
  lemma AfterActionIdempotent(current: Option<Table>, action: Option<Cleaning>)
    requires current.Some? ==> current.value.WellFormed()
    ensures AfterAction(current, action).Success? ==>
            AfterAction(AfterAction(current, action).value, action) == AfterAction(current, action)
  {
    if current.Some? && action.Some? {
      CleanIdempotent(action.value, current.value);
    }
  }

  /** The request carries a file to load: a `file` part whose name is not
      empty (an empty name also makes the part itself falsy). */
  predicate HasUpload(req: Request)
    ensures HasUpload(req) ==> req.file.Some? && |req.file.value.filename| > 0
    ensures req.file.Some? && |req.file.value.filename| > 0 ==> HasUpload(req)
  {
    req.file.Some? && req.file.value.filename != ""
  }

  /** The reader `load_data` picks for the saved upload. */
  function UploadPlan(req: Request): (r: Result<LoadPlan, string>)
    requires HasUpload(req)
  {
    LoadData(UploadPath(req.file.value.filename), HasHeader(req.header))
  }

  class Dataset {
    /** `GLOBAL_DF`: no dataset, or the current table. */
    var current: Option<Table>

    ghost predicate Valid()
      reads this
    {
      current.Some? ==> current.value.WellFormed()
    }

    constructor ()
      ensures Valid() && current == None
    {
      current := None;
    }

    /** An upload replaces the dataset unconditionally. */
    method Upload(t: Table)
      requires t.WellFormed()
      modifies this
      ensures Valid() && current == Some(t)
    {
      current := Some(t);
    }

    /** The three guarded action branches of `index`, in source order. A
        branch whose pandas call raises ends the request with the dataset
        as it was. */
    method ApplyAction(action: Option<string>) returns (failure: Option<string>)
      requires Valid()
      modifies this
      ensures Valid()
      ensures AfterAction(old(current), ActionOf(action)).Success? ==>
                failure == None && current == AfterAction(old(current), ActionOf(action)).value
      ensures AfterAction(old(current), ActionOf(action)).Failure? ==>
                failure == Some(AfterAction(old(current), ActionOf(action)).error) && current == old(current)
    {
      failure := None;
      if action == Some("remove_duplicates") && current.Some? {
        current := Some(DropDuplicateRows(current.value));
      }
      if action == Some("remove_dup_columns") && current.Some? {
        var r := DropDuplicateColumns(current.value);
        if r.Failure? {
          failure := Some(r.error);
          return;
        }
        current := Some(r.value);
      }
      if action == Some("remove_missing") && current.Some? {
        current := Some(DropMissingRows(current.value));
      }
    }

    /** A POST to `/`: the upload, if any, is loaded first, then the action
        is applied to whatever dataset is current. An unsupported file type
        aborts the request before the action, leaving the dataset as it was;
        an action that raises aborts it after the upload, which stays. A
        failed request shows no message. `parser` stands for the pandas
        reader the plan names. */
    method Post(req: Request, parser: (string, LoadPlan) -> Table) returns (message: Option<string>, failure: Option<string>)
      requires Valid()
      requires forall path, plan :: parser(path, plan).WellFormed()
      modifies this
      ensures Valid()
      ensures !HasUpload(req) ==>
                var after := AfterAction(old(current), ActionOf(req.action));
                message == None
                && (after.Success? ==> failure == None && current == after.value)
                && (after.Failure? ==> failure == Some(after.error) && current == old(current))
      ensures HasUpload(req) && UploadPlan(req).Failure? ==>
                message == None && failure == Some(UnsupportedFileType)
                && current == old(current)
      ensures HasUpload(req) && UploadPlan(req).Success? ==>
                var loaded := parser(UploadPath(req.file.value.filename), UploadPlan(req).value);
                var after := AfterAction(Some(loaded), ActionOf(req.action));
                && (after.Success? ==> message == Some(UploadedMessage) && failure == None && current == after.value)
                && (after.Failure? ==> message == None && failure == Some(after.error) && current == Some(loaded))
    {
      message, failure := None, None;
      if req.file.Some? {
        var hasHeader := HasHeader(req.header);
        if req.file.value.filename != "" {
          var path := UploadPath(req.file.value.filename);
          var plan := LoadData(path, hasHeader);
          if plan.Failure? {
            failure := Some(plan.error);
            return;
          }
          Upload(parser(path, plan.value));
          message := Some(UploadedMessage);
        }
      }
      failure := ApplyAction(req.action);
      if failure.Some? {
        message := None;
      }
    }

    /** The information the page shows: present exactly when a dataset is. */
    function Info(): (info: Option<Summary>)
      requires Valid()
      reads this
      ensures info.Some? <==> current.Some?
      ensures info.Some? ==> info.value.rows == |current.value.rows| && info.value.cols == |current.value.columns|
    {
      if current.Some? then Some(Summarize(current.value)) else None
    }

    /** `/download`: the sentinel text without a dataset, else the table as
        an attachment named `cleaned_data.csv`. */
    function Download(): (d: DownloadResponse)
      reads this
      ensures d.NoDataset? <==> current.None?
      ensures d.NoDataset? ==> d.text == NoDatasetMessage
      ensures d.Attachment? ==> d.table == current.value && d.name == DownloadName
    {
      if current.None? then NoDataset(NoDatasetMessage) else Attachment(current.value, DownloadName)
    }
  }
}
