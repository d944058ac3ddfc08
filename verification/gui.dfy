/** The window's button and busy state: `fetch_formats`, `_update_formats_ui`,
    `_reset_ui`, `start_download` and `_download_complete` in
    youtube_downloader_gui.py. Every click and every callback a worker thread
    schedules on the window is one atomic step. */
module Gui {
  import opened PyValues
  import opened Formats
  import Fetch

  /** The worker thread in flight, if any. */
  datatype Job = NoJob | FetchJob | DownloadJob

  /** The state the window keeps. `catalog` is `self.formats` (and the list
      box, which always mirrors it) together with whether it came from a
      successful fetch: it is `None` before the first success, and from the
      start of each fetch until that fetch succeeds. */
  datatype Window = Window(
    fetchEnabled: bool,
    downloadEnabled: bool,
    progress: bool,
    titleLabel: string,
    catalog: Option<seq<Entry>>,
    job: Job)

  /** `self.formats`. */
  function FormatList(w: Window): seq<Entry> {
    w.catalog.GetOr([])
  }

  /** The window as `create_widgets` leaves it: fetch enabled, download
      disabled, no formats. */
  const Initial: Window := Window(true, false, false, "", None, NoJob)

  datatype Event =
    | FetchClicked(entry: string)
    | FetchReturned(run: Fetch.ToolRun)
    | DownloadClicked(entry: string, selection: Option<nat>)
    | DownloadReturned

  /** What a step does outside the window's own state. `ErrorDialog` is the
      error box a blank URL shows at once, or the one a failed fetch
      schedules on the window; `StartFetch` launches the fetch worker, which
      runs `command`. */
  datatype Effect =
    | NoEffect
    | ErrorDialog
    | WarningDialog
    | StartFetch(command: seq<string>)
    | StartDownload(url: string, formatId: Option<string>)

  datatype Step = Step(window: Window, effect: Effect)

  /** When an event can happen at all: a worker's callback arrives only while
      that worker runs, and a list-box selection is a position in the list,
      which holds one line per format. */
  predicate CanOccur(w: Window, e: Event) {
    match e
    case FetchClicked(_) => true
    case FetchReturned(_) => w.job == FetchJob
    case DownloadClicked(_, selection) => selection.Some? ==> selection.value < |FormatList(w)|
    case DownloadReturned => w.job == DownloadJob
  }

  /** One step. A click on a disabled button does nothing; a worker is
      started only from an enabled button, and only a fetch changes the
      formats. */
  function Next(w: Window, e: Event): (s: Step)
    requires CanOccur(w, e)
    ensures e.FetchClicked? && !w.fetchEnabled ==> s == Step(w, NoEffect)
    ensures e.DownloadClicked? && !w.downloadEnabled ==> s == Step(w, NoEffect)
    ensures s.effect.StartFetch? <==> e.FetchClicked? && w.fetchEnabled && !AllSpace(e.entry)
    ensures s.effect.StartFetch? ==> s.effect.command == Fetch.FetchCommand(Strip(e.entry))
    ensures s.effect.StartDownload? <==> e.DownloadClicked? && w.downloadEnabled && e.selection.Some?
    ensures e.FetchReturned? || e.DownloadReturned? ==>
      s.window.job == NoJob && !s.window.progress && s.window.fetchEnabled
    ensures s.window.catalog != w.catalog ==> e.FetchClicked? || e.FetchReturned?
  {
    match e
    case FetchClicked(entry) =>
      var url := Strip(entry);
      if !w.fetchEnabled then Step(w, NoEffect)
      else if url == [] then Step(w, ErrorDialog)
      else
        Step(w.(fetchEnabled := false, downloadEnabled := false, catalog := None,
                progress := true, job := FetchJob),
             StartFetch(Fetch.FetchCommand(url)))
    case FetchReturned(run) =>
      var report := Fetch.FetchThread(run);
      if report.Fetched? then
        Step(w.(progress := false, titleLabel := "Video: " + PyStr(report.title),
                catalog := Some(report.catalog), fetchEnabled := true, downloadEnabled := true,
                job := NoJob),
             NoEffect)
      else
        Step(w.(progress := false, fetchEnabled := true, job := NoJob), ErrorDialog)
    case DownloadClicked(entry, selection) =>
      if !w.downloadEnabled then Step(w, NoEffect)
      else if selection.None? then Step(w, WarningDialog)
      else
        var chosen := FormatList(w)[selection.value];
        Step(w.(fetchEnabled := false, downloadEnabled := false, progress := true, job := DownloadJob),
             StartDownload(Strip(entry), chosen.id))
    case DownloadReturned =>
      Step(w.(progress := false, fetchEnabled := true, downloadEnabled := true, job := NoJob), NoEffect)
  }

  /** What holds of every window the program can reach: the progress bar runs
      exactly while a worker does; fetch is enabled exactly when no worker
      runs; download is enabled exactly when no worker runs and a catalog
      from a successful fetch is present; a fetch runs with no catalog, a
      download with one; and a catalog never has two entries with the same
      resolution and audio presence. */
  predicate Inv(w: Window) {
    && (w.progress <==> w.job != NoJob)
    && (w.fetchEnabled <==> w.job == NoJob)
    && (w.downloadEnabled <==> w.job == NoJob && w.catalog.Some?)
    && (w.job == FetchJob ==> w.catalog.None?)
    && (w.job == DownloadJob ==> w.catalog.Some?)
    && (w.catalog.Some? ==> UniqueKeys(w.catalog.value))
  }

  lemma InitialInv()
    ensures Inv(Initial)
  {
  }

  lemma NextKeepsInv(w: Window, e: Event)
    requires Inv(w) && CanOccur(w, e)
    ensures Inv(Next(w, e).window)
  {
  }

  /** A sequence of events each of which can happen when it arrives. */
  predicate Possible(w: Window, es: seq<Event>)
    decreases |es|
  {
    es == [] || (CanOccur(w, es[0]) && Possible(Next(w, es[0]).window, es[1..]))
  }

  function Run(w: Window, es: seq<Event>): Window
    requires Possible(w, es)
    decreases |es|
  {
    if es == [] then w else Run(Next(w, es[0]).window, es[1..])
  }

  /** The invariant holds after any possible sequence of events. */
  lemma {:induction false} RunKeepsInv(w: Window, es: seq<Event>)
    requires Inv(w) && Possible(w, es)
    ensures Inv(Run(w, es))
    decreases |es|
  {
    if es != [] {
      NextKeepsInv(w, es[0]);
      RunKeepsInv(Next(w, es[0]).window, es[1..]);
    }
  }

  /** From start-up, the download button is enabled only while a catalog
      from a successful fetch is shown, and the buttons are disabled exactly
      while the progress bar runs. */
  lemma DownloadNeedsCatalog(es: seq<Event>)
    requires Possible(Initial, es)
    ensures var w := Run(Initial, es);
      && (w.downloadEnabled ==> w.fetchEnabled && w.catalog.Some? && UniqueKeys(w.catalog.value))
      && (w.progress <==> !w.fetchEnabled)
  {
    InitialInv();
    RunKeepsInv(Initial, es);
  }

  /** An empty or whitespace-only URL changes nothing but shows an error. */
  lemma BlankUrlChangesNothing(w: Window, entry: string)
    requires AllSpace(entry)
    ensures Next(w, FetchClicked(entry)).window == w
    ensures w.fetchEnabled ==> Next(w, FetchClicked(entry)).effect == ErrorDialog
  {
  }

  /** Starting a fetch disables both buttons, clears the formats and starts
      the worker on the stripped URL. */
  lemma FetchStartClears(w: Window, entry: string)
    requires w.fetchEnabled && !AllSpace(entry)
    ensures var s := Next(w, FetchClicked(entry));
      && !s.window.fetchEnabled && !s.window.downloadEnabled
      && FormatList(s.window) == [] && s.window.progress
      && s.effect == StartFetch(Fetch.FetchCommand(Strip(entry)))
  {
  }

  /** A successful fetch installs the new catalog and enables both buttons. */
  lemma FetchOkInstalls(w: Window, run: Fetch.ToolRun)
    requires w.job == FetchJob && Fetch.FetchThread(run).Fetched?
    ensures var s := Next(w, FetchReturned(run));
      && s.window.fetchEnabled && s.window.downloadEnabled && !s.window.progress
      && FormatList(s.window) == Fetch.FetchThread(run).catalog
      && UniqueKeys(FormatList(s.window))
  {
  }

  /** A failed fetch re-enables only the fetch button, leaves the formats
      empty and schedules an error dialog. */
  lemma FetchFailResets(w: Window, run: Fetch.ToolRun)
    requires Inv(w) && w.job == FetchJob && Fetch.FetchThread(run).FetchFailed?
    ensures var s := Next(w, FetchReturned(run));
      && s.window.fetchEnabled && !s.window.downloadEnabled && !s.window.progress
      && FormatList(s.window) == []
      && s.effect == ErrorDialog
  {
  }

  /** Starting a download disables both buttons, keeps the formats and starts
      the worker with the id of the selected entry. Without a selection only
      a warning is shown. */
  lemma DownloadStartUsesSelection(w: Window, entry: string, selection: Option<nat>)
    requires w.downloadEnabled
    requires selection.Some? ==> selection.value < |FormatList(w)|
    ensures var s := Next(w, DownloadClicked(entry, selection));
      && (selection.None? ==> s.window == w && s.effect == WarningDialog)
      && (selection.Some? ==>
            && !s.window.fetchEnabled && !s.window.downloadEnabled && s.window.progress
            && s.window.catalog == w.catalog
            && s.effect == StartDownload(Strip(entry), FormatList(w)[selection.value].id))
  {
  }

  /** Whatever the download's outcome, its end re-enables both buttons and
      keeps the catalog. */
  lemma DownloadDoneReenables(w: Window)
    requires Inv(w) && w.job == DownloadJob
    ensures var s := Next(w, DownloadReturned);
      && s.window.fetchEnabled && s.window.downloadEnabled && !s.window.progress
      && s.window.catalog == w.catalog && s.window.catalog.Some?
  {
  }
}
