# A Dafny model of the YouTube downloader's format catalog and button logic

The program is a small tkinter window around the external `yt-dlp` tool. The
user pastes a URL and presses *Fetch Formats*. A worker thread then runs
`yt-dlp -J <url>`, reads the `formats` array of the JSON it prints, and builds
a list of quality choices. The user picks one and presses *Download
Selected*. A second worker runs `yt-dlp -f "<id>+bestaudio/best" -P <dir>
--newline <url>` and forwards its output lines to the status log. Everything
else is widgets, subprocesses and threads.

This project models the logic between those calls as pure functions over
immutable values:

- `PyValues`: the Python semantics the logic depends on. This covers
  `dict.get` with and without a default on a parsed JSON object, where a
  missing key and an explicit `null` behave differently. It also covers
  truthiness of numbers, `str()` of `None`, and `str.strip()` with Python's
  set of whitespace characters.
- `Formats`: the catalog builder. It keeps the records whose `vcodec` is not
  the string `"none"` and derives an entry from each one. Then it removes
  duplicates on the key (resolution, has-audio), keeping the first entry with
  each key.
- `Fetch`: the fetch thread's outcome. It returns a title and catalog, or
  one of the three failures that its exception handlers distinguish.
- `Download`: the `-f` selector and the command line, the forwarding of
  output lines (stripped, blank ones dropped), and the sequence of
  callbacks the download thread schedules.
- `Gui`: the window's state machine. Its state is the two buttons, the
  progress bar, the title label, `self.formats` and the worker in flight.
  Each click and each worker callback is one atomic step, and an invariant
  holds after every possible sequence of events.
- `Scenarios`: concrete runs on a three-format list with an audio-only
  stream, on format id 137, and on output with a blank line.

Behaviour of the code that the model keeps as written:

- The video filter is `f.get('vcodec') != 'none'` (line 124), so a record
  whose `vcodec` is missing or null is kept (`Formats.CarriesVideoRule`).
- The fetch thread has three handlers (lines 160-168): a non-zero exit, a
  missing executable, and every other exception. Output that is not a JSON
  object, or a `formats` that is null, lands in the last one
  (`Fetch.OtherError`).
- A download that raises schedules an error dialog and logs nothing before
  the completion callback (lines 242-245, `Download.Outcome`).
- `d.get('resolution', 'audio only')` returns `None`, not the default, when
  the key holds `null`. In the same way `d.get('acodec', 'none')` returns
  `None` for `null`, and that counts as having audio (`Formats.Derive`).
- A record without `format_id` yields the selector `"None+bestaudio/best"`,
  because Python renders `None` that way (`Scenarios.Format137Selector`).
- The download uses the URL field as it reads when *Download Selected* is
  pressed, stripped but not checked for emptiness. It is not necessarily
  the URL that was fetched (`Gui.DownloadStartUsesSelection`).

## Model

| member | source | states |
|---|---|---|
| `PyValues.Get` | youtube_downloader_gui.py:124-130 | `d.get(key)` reads a value exactly when the key holds one; a missing key and `null` both read as `None` |
| `PyValues.DictGetOr` | youtube_downloader_gui.py:118-130 | `d.get(key, default)` gives the default only for a missing key; `null` reads as `None`, and a present value is returned as is |
| `Formats.CarriesVideoRule` | youtube_downloader_gui.py:123-124 | a record is dropped exactly when its `vcodec` is the string "none"; a missing `vcodec` keeps it |
| `Formats.SizeOf` | youtube_downloader_gui.py:130-136 | the size is a nonzero `filesize` if there is one, else a nonzero `filesize_approx`, else unknown; a known size is never 0 |
| `Formats.Derive` | youtube_downloader_gui.py:125-146 | resolution defaults to "audio only" and fps to 0 only when the key is missing, and a null reads as `None`; has-audio is false exactly when `acodec` is missing or "none"; id and extension are the JSON values or `None`; the size follows `SizeOf` |
| `Formats.VideoEntries` | youtube_downloader_gui.py:122-146 | every entry derives from a record that carries video, every such record contributes its entry, and there are no more entries than records |
| `Formats.VideoEntriesAppend` | youtube_downloader_gui.py:122-146 | filtering and deriving work record by record: the entries of `a + b` are those of `a` followed by those of `b` |
| `Formats.AudioOnlyRecordIgnored` | youtube_downloader_gui.py:123-124 | inserting a record whose `vcodec` is "none" anywhere in the input leaves the catalog unchanged |
| `Formats.Dedup` | youtube_downloader_gui.py:148-155 | no two kept entries share (resolution, has-audio); the kept keys are exactly the input's keys; every kept entry is an input entry; never longer than the input |
| `Formats.DedupLengthIsKeyCount` | youtube_downloader_gui.py:149-155 | the output has exactly one entry per distinct key of the input |
| `Formats.DedupKeepsFirst` | youtube_downloader_gui.py:150-155 | each kept entry is the first input entry with its key |
| `Formats.DedupKeepsOrder` | youtube_downloader_gui.py:150-155 | kept entries appear in the order of the first occurrences of their keys in the input |
| `Formats.DedupOfUnique` | youtube_downloader_gui.py:149-155 | a list whose keys are already unique is returned unchanged |
| `Formats.DedupIdempotent` | youtube_downloader_gui.py:149-155 | de-duplicating twice gives the same list as de-duplicating once |
| `Formats.BuildCatalog` | youtube_downloader_gui.py:121-155 | the catalog has unique keys, holds only entries of records that carry video, has an entry for the key of every such record, and is no longer than the input |
| `Formats.UniqueFormats` | youtube_downloader_gui.py:148-155 | the loop with a `seen` set computes the first-occurrence de-duplication |
| `Formats.ProcessFormats` | youtube_downloader_gui.py:121-155 | the two loops of the fetch thread together compute the catalog |
| `Fetch.FetchCommand` | youtube_downloader_gui.py:114 | the metadata command is `yt-dlp -J` followed by the URL |
| `Fetch.FetchThread` | youtube_downloader_gui.py:113-168 | a catalog comes back exactly when the tool exits 0, prints a JSON object and `formats` is not null; a missing tool, a non-zero exit, and any other exception map to their own failure kinds; a missing `formats` gives an empty catalog; a missing title reads "Unknown" and a null one `None`; the catalog has unique keys |
| `PyValues.Strip` | youtube_downloader_gui.py:230 | the result is the slice of the line between whitespace runs at both ends; it is empty exactly when the line is all whitespace, and otherwise starts and ends with a non-space |
| `PyValues.StripIdempotent` | youtube_downloader_gui.py:230 | stripping a stripped line changes nothing |
| `Download.Selector` | youtube_downloader_gui.py:215 | the selector is the format id as Python renders it (`None` for a missing id) followed by `+bestaudio/best` |
| `Download.VideoPart` | youtube_downloader_gui.py:215 | reading a video format back out of a selector yields a string exactly the suffix shorter than the selector |
| `Download.SelectorRoundTrip` | youtube_downloader_gui.py:215 | the selector reads back as the format id, and any selector that reads back as `v` is the one built from `v` |
| `Download.DownloadCommand` | youtube_downloader_gui.py:213-219 | the command has seven elements, the program `yt-dlp` and six arguments; `-f` is followed by a selector carrying the format id; `-P` is followed by the download folder; `--newline` comes before the URL, which is last |
| `Download.Forwarded` | youtube_downloader_gui.py:229-232 | every logged line is non-empty and already stripped, and there are no more logged lines than output lines |
| `Download.ForwardedAppend` | youtube_downloader_gui.py:229-232 | lines are logged in output order: the log for `a + b` is the log for `a` followed by the log for `b` |
| `Download.ForwardedOneLine` | youtube_downloader_gui.py:229-232 | a whitespace-only line is never logged; any other line is logged once, stripped, between its neighbours' lines |
| `Download.ForwardedIdempotent` | youtube_downloader_gui.py:229-232 | forwarding already-forwarded lines changes nothing |
| `Download.ForwardLines` | youtube_downloader_gui.py:229-232 | the reading loop logs exactly the forwarded lines |
| `Download.Outcome` | youtube_downloader_gui.py:234-245 | after the output exactly one dialog is scheduled: success exactly when the exit code is 0, together with the success log line; failure exactly on a non-zero code; an error dialog exactly when the process could not start or reading failed; the completion callback comes last and once |
| `Download.DownloadThread` | youtube_downloader_gui.py:210-245 | the forwarded output lines come first and in order; exactly one dialog is scheduled: success (with its log line) exactly when the exit code is 0, failure exactly on a non-zero code, an error exactly when the launch or a read failed; the window reset comes last and exactly once |
| `Gui.Next` | youtube_downloader_gui.py:91-251 | a click on a disabled button does nothing; a fetch worker starts exactly on an enabled fetch button with a non-blank URL, running `yt-dlp -J` on the stripped URL; a download worker starts exactly on an enabled download button with a selection; every worker callback leaves no worker running, the progress bar stopped and fetch enabled; only fetch steps change the formats |
| `Gui.InitialInv` | youtube_downloader_gui.py:66-82 | the freshly built window satisfies the invariant |
| `Gui.NextKeepsInv` | youtube_downloader_gui.py:91-251 | every click and callback keeps the invariant: busy exactly while a worker runs, fetch enabled exactly when idle, download enabled exactly when idle with a fetched catalog, catalogs with unique keys |
| `Gui.RunKeepsInv` | youtube_downloader_gui.py:91-251 | the invariant holds after any possible sequence of events |
| `Gui.DownloadNeedsCatalog` | youtube_downloader_gui.py:174-186 | from start-up, the download button is enabled only while a catalog from a successful fetch is shown, and the buttons are disabled exactly while the progress bar runs |
| `Gui.BlankUrlChangesNothing` | youtube_downloader_gui.py:93-97 | an empty or whitespace-only URL leaves the window as it was and shows an error |
| `Gui.FetchStartClears` | youtube_downloader_gui.py:99-109 | starting a fetch disables both buttons, clears the formats, starts the progress bar and launches the worker running `yt-dlp -J` on the stripped URL |
| `Gui.FetchOkInstalls` | youtube_downloader_gui.py:170-180 | a successful fetch installs the new catalog, stops the progress bar and enables both buttons |
| `Gui.FetchFailResets` | youtube_downloader_gui.py:183-186 | a failed fetch re-enables only the fetch button, leaves the formats empty and schedules an error dialog |
| `Gui.DownloadStartUsesSelection` | youtube_downloader_gui.py:188-208 | without a selection only a warning is shown; with one, both buttons are disabled, the formats are kept, and the worker gets the selected entry's id |
| `Gui.DownloadDoneReenables` | youtube_downloader_gui.py:244-251 | whatever the outcome, the end of a download re-enables both buttons and keeps the catalog |
| `Scenarios.ThreeFormatCatalog` | youtube_downloader_gui.py:121-155 | an audio-only stream between a 720p and a 360p stream is dropped; the 360p entry falls back to its approximate size because its exact size is 0 |
| `Scenarios.DuplicateKeepsFirst` | youtube_downloader_gui.py:149-155 | of two 720p entries with audio, the first is kept whatever their sizes |
| `Scenarios.Format137Selector` | youtube_downloader_gui.py:215 | format 137 gives `137+bestaudio/best`; a missing id gives `None+bestaudio/best` |
| `Scenarios.BlankLineSuppressed` | youtube_downloader_gui.py:229-232 | the output `a`, blank, `b`, `c` logs `a`, `b`, `c` |

## Left out

- Widget construction, layout, styling, the list box and message-box calls (lines 17-89): presentation only. The list box is modelled only by the fact that it mirrors `self.formats`, so a selection is a valid position in it.
- The `description` text (lines 133-134, 138-139, 143): floating-point MB rendering and display formatting. The entry keeps the values it is rendered from (resolution, fps, extension, audio, size), and size known versus "Unknown" is the integer test `size.Some?`.
- The status-log messages "Fetching video information...", "Found N quality options" and "Starting download: ..." (lines 104, 181, 203): display text with no effect on state.
- `subprocess.run`, `subprocess.Popen`, `json.loads` and the tool itself: foreign processes and a library. Their results are inputs. `Fetch.ToolRun` is the exit code with the parsed document, and `Download.ProcessRun` is the output lines with the way the run ended.
- Splitting the tool's output into lines, including universal-newline translation: the model starts from the list of lines that Python's iteration yields.
- JSON values of unexpected types (a float `fps` or size, a non-object element of `formats`, a boolean size): the fields are typed as strings or integers. A document that is not a JSON object is covered as a generic failure.
- Threads and `root.after` marshalling (lines 106-109, 158, 205-208, 232): each worker callback is one atomic event. A callback can occur only while its worker runs (`Gui.CanOccur`).
- The text of the error dialogs and which dialog each exception picks (lines 160-168, 237-243): they are collapsed into `Fetch.Failure` and the `Download.Notice` kinds.
- Whether a scheduled error dialog appears at all (lines 161, 167, 243): those callbacks read the exception name `e`, which Python unbinds when the `except` clause ends. If the window runs the callback after that, it raises `NameError` and no dialog shows, which depends on thread timing. The model records only that the dialog is scheduled. The dialog for a missing executable (line 164) reads nothing and is unaffected, and the button resets are separate callbacks, so the state machine does not depend on it.
- The download folder `Path.home() / "Downloads"` (line 24): an environment lookup. It is a parameter of `Download.DownloadCommand`.
- The title label text is kept as `"Video: "` followed by the title, but it is not used by any property.
