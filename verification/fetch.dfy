/** The fetch thread (youtube_downloader_gui.py, lines 111-168): run the tool
    in JSON mode, read the title and the formats from the document it prints,
    build the catalog, or report which of the three failures happened. */
module Fetch {
  import opened PyValues
  import opened Formats

  /** The parsed JSON document, limited to the two keys the thread reads. */
  datatype VideoInfo = VideoInfo(title: Field<string>, formats: Field<seq<RawFormat>>)

  /** What running `yt-dlp -J <url>` gave back: the executable was not found,
      or it ran and exited. `document` is `None` when its standard output is
      not a JSON object. */
  datatype ToolRun =
    | ToolMissing
    | Exited(returnCode: int, document: Option<VideoInfo>)

  /** The three exception handlers of the thread. */
  datatype Failure =
    | ToolFailed    // CalledProcessError: the tool exited non-zero
    | NotInstalled  // FileNotFoundError: the executable is missing
    | OtherError    // any other exception

  /** What the thread hands back to the window: the title and catalog, or a
      failure (which schedules an error dialog and the reset of the window). */
  datatype Report =
    | Fetched(title: Option<string>, catalog: seq<Entry>)
    | FetchFailed(failure: Failure)

  const UnknownTitle: string := "Unknown"

  /** The metadata command line: the tool with the single option that makes
      it print the video's information as one JSON object, then the URL. */
  function FetchCommand(url: string): (cmd: seq<string>)
    ensures |cmd| == 3 && cmd[0] == "yt-dlp" && cmd[1] == "-J" && cmd[2] == url
  {
    ["yt-dlp", "-J", url]
  }

  /** The fetch thread. A catalog comes back exactly when the tool exited
      with 0, printed a JSON object, and the object's `formats` is not null;
      a missing `formats` gives an empty catalog and a missing `title` reads
      as "Unknown". */
  function FetchThread(run: ToolRun): (r: Report)
    ensures run.ToolMissing? ==> r == FetchFailed(NotInstalled)
    ensures run.Exited? && run.returnCode != 0 ==> r == FetchFailed(ToolFailed)
    ensures r == FetchFailed(OtherError) <==>
      run.Exited? && run.returnCode == 0 &&
      (run.document.None? || run.document.value.formats.Null?)
    ensures r.Fetched? <==>
      run.Exited? && run.returnCode == 0 && run.document.Some? && !run.document.value.formats.Null?
    ensures r.Fetched? ==> UniqueKeys(r.catalog)
    ensures r.Fetched? && run.document.value.formats.Absent? ==> r.catalog == []
    ensures r.Fetched? && run.document.value.formats.Val? ==>
      r.catalog == BuildCatalog(run.document.value.formats.value)
    ensures r.Fetched? && run.document.value.title.Absent? ==> r.title == Some(UnknownTitle)
    ensures r.Fetched? && run.document.value.title.Null? ==> r.title == None
    ensures r.Fetched? && run.document.value.title.Val? ==> r.title == Some(run.document.value.title.value)
  {
    match run
    case ToolMissing => FetchFailed(NotInstalled)
    case Exited(code, document) =>
      if code != 0 then
        FetchFailed(ToolFailed)
      else if document.None? then
        FetchFailed(OtherError)
      else
        var title := DictGetOr(document.value.title, UnknownTitle);
        match document.value.formats
        // Iterating over `None` raises, which lands in the generic handler.
        case Null => FetchFailed(OtherError)
        case Absent => Fetched(title, BuildCatalog([]))
        case Val(formats) => Fetched(title, BuildCatalog(formats))
  }
}
