/** The download thread (youtube_downloader_gui.py, lines 210-245): build the
    command line with the format selector, forward the tool's output lines to
    the status log, and report how the run ended. */
module Download {
  import opened PyValues

  const SelectorSuffix: string := "+bestaudio/best"

  /** The `-f` argument: the chosen video format merged with the best audio,
      falling back to the tool's own best choice. A missing id is rendered
      by Python as "None". */
  function Selector(formatId: Option<string>): (s: string)
    ensures |s| == |PyStr(formatId)| + |SelectorSuffix|
    ensures s[..|PyStr(formatId)|] == PyStr(formatId) && s[|PyStr(formatId)|..] == SelectorSuffix
  {
    PyStr(formatId) + SelectorSuffix
  }

  /** Reads the video format back out of a selector: the part before the
      suffix, if the selector ends with it. */
  function VideoPart(selector: string): (v: Option<string>)
    ensures v.Some? ==> |v.value| + |SelectorSuffix| == |selector|
  {
    var n := |selector| - |SelectorSuffix|;
    if n >= 0 && selector[n..] == SelectorSuffix then Some(selector[..n]) else None
  }

  /** The selector carries the format id verbatim and nothing else: reading
      it back gives the id, and any selector that reads back as `v` is the
      selector built from `v`. */
  lemma SelectorRoundTrip(formatId: Option<string>, selector: string, v: string)
    ensures VideoPart(Selector(formatId)) == Some(PyStr(formatId))
    ensures VideoPart(selector) == Some(v) ==> Selector(Some(v)) == selector
  {
    var s := Selector(formatId);
    assert s[|PyStr(formatId)|..] == SelectorSuffix;
    assert s[..|PyStr(formatId)|] == PyStr(formatId);
    if VideoPart(selector) == Some(v) {
      var n := |selector| - |SelectorSuffix|;
      assert selector == selector[..n] + selector[n..];
    }
  }

  /** The download command line. */
  function DownloadCommand(formatId: Option<string>, downloadDir: string, url: string): (cmd: seq<string>)
    ensures |cmd| == 7 && cmd[0] == "yt-dlp" && cmd[|cmd| - 1] == url
    ensures cmd[1] == "-f" && VideoPart(cmd[2]) == Some(PyStr(formatId))
    ensures cmd[3] == "-P" && cmd[4] == downloadDir
    ensures cmd[5] == "--newline"
  {
    SelectorRoundTrip(formatId, [], []);
    var cmd := ["yt-dlp", "-f", Selector(formatId), "-P", downloadDir, "--newline", url];
    assert cmd[2] == Selector(formatId);
    cmd
  }

  /** The lines logged for the tool's output lines: each one stripped, the
      blank ones dropped. Every logged line is non-empty and already
      stripped. */
  function Forwarded(lines: seq<string>): (logged: seq<string>)
    ensures |logged| <= |lines|
    ensures forall i :: 0 <= i < |logged| ==> logged[i] != [] && Strip(logged[i]) == logged[i]
  {
    if lines == [] then
      []
    else
      var p := Forwarded(lines[..|lines| - 1]);
      var line := Strip(lines[|lines| - 1]);
      StripIdempotent(lines[|lines| - 1]);
      if line != [] then p + [line] else p
  }

  /** Forwarding works line by line, so the output of a later chunk of lines
      is logged after that of an earlier chunk. */
  lemma {:induction false} ForwardedAppend(a: seq<string>, b: seq<string>)
    ensures Forwarded(a + b) == Forwarded(a) + Forwarded(b)
    decreases |b|
  {
    if b == [] {
      assert a + b == a;
    } else {
      var init := b[..|b| - 1];
      assert (a + b)[..|a + b| - 1] == a + init;
      assert (a + b)[|a + b| - 1] == b[|b| - 1];
      ForwardedAppend(a, init);
    }
  }

  /** A blank or whitespace-only line is never logged; any other line is
      logged once, stripped, between the lines before and after it. */
  lemma ForwardedOneLine(before: seq<string>, line: string, after: seq<string>)
    ensures AllSpace(line) ==>
      Forwarded(before + [line] + after) == Forwarded(before) + Forwarded(after)
    ensures !AllSpace(line) ==>
      Forwarded(before + [line] + after) == Forwarded(before) + [Strip(line)] + Forwarded(after)
  {
    ForwardedAppend(before + [line], after);
    ForwardedAppend(before, [line]);
    assert [line][..0] == [];
  }

  /** Lines that were forwarded once pass a second forwarding unchanged. */
  lemma {:induction false} ForwardedIdempotent(lines: seq<string>)
    ensures Forwarded(Forwarded(lines)) == Forwarded(lines)
  {
    var logged := Forwarded(lines);
    ForwardedStable(logged);
  }

  lemma {:induction false} ForwardedStable(logged: seq<string>)
    requires forall i :: 0 <= i < |logged| ==> logged[i] != [] && Strip(logged[i]) == logged[i]
    ensures Forwarded(logged) == logged
  {
    if logged != [] {
      var init := logged[..|logged| - 1];
      ForwardedStable(init);
      assert logged == init + [logged[|logged| - 1]];
    }
  }

  /** The reading loop as written: strip each line and log it unless empty. */
  method ForwardLines(lines: seq<string>) returns (logged: seq<string>)
    ensures logged == Forwarded(lines)
  {
    logged := [];
    var i := 0;
    while i < |lines|
      invariant 0 <= i <= |lines|
      invariant logged == Forwarded(lines[..i])
    {
      assert lines[..i + 1][..i] == lines[..i];
      var line := Strip(lines[i]);
      if line != [] {
        logged := logged + [line];
      }
      i := i + 1;
    }
    assert lines[..|lines|] == lines;
  }

  /** How the download process ended once it was started. */
  datatype RunEnd =
    | ExitCode(code: int)
    | ReadFailed   // an exception while reading its output

  /** What happened to the download process: it could not be started (the
      tool is missing, say), or it ran, printed `output`, and ended. */
  datatype ProcessRun =
    | LaunchFailed
    | Ran(output: seq<string>, end: RunEnd)

  /** What the thread schedules on the window, in order. The dialogs are
      scheduled, not shown: the window runs them later. */
  datatype Notice =
    | LogLine(text: string)
    | SuccessDialog
    | SuccessLog
    | FailureDialog
    | ErrorDialog   // scheduled from the `except` handler
    | Complete      // the `finally` callback that resets the window

  function LogLines(lines: seq<string>): (ns: seq<Notice>)
    ensures |ns| == |lines|
    ensures forall i :: 0 <= i < |ns| ==> ns[i] == LogLine(lines[i])
  {
    seq(|lines|, i requires 0 <= i < |lines| => LogLine(lines[i]))
  }

  /** The texts of the log lines among some notices, in order. */
  function LogTexts(ns: seq<Notice>): seq<string> {
    if ns == [] then []
    else (if ns[0].LogLine? then [ns[0].text] else []) + LogTexts(ns[1..])
  }

  lemma {:induction false} LogTextsOfLogLines(lines: seq<string>, tail: seq<Notice>)
    requires forall i :: 0 <= i < |tail| ==> !tail[i].LogLine?
    ensures LogTexts(LogLines(lines) + tail) == lines
    decreases |lines|
  {
    if lines == [] {
      assert LogLines(lines) + tail == tail;
      NoLogTexts(tail);
    } else {
      var ns := LogLines(lines) + tail;
      assert ns[1..] == LogLines(lines[1..]) + tail;
      LogTextsOfLogLines(lines[1..], tail);
      assert lines == [lines[0]] + lines[1..];
    }
  }

  lemma {:induction false} NoLogTexts(ns: seq<Notice>)
    requires forall i :: 0 <= i < |ns| ==> !ns[i].LogLine?
    ensures LogTexts(ns) == []
    decreases |ns|
  {
    if ns != [] {
      NoLogTexts(ns[1..]);
    }
  }

  /** How many dialogs some notices schedule. */
  function DialogCount(ns: seq<Notice>): nat {
    multiset(ns)[SuccessDialog] + multiset(ns)[FailureDialog] + multiset(ns)[ErrorDialog]
  }

  /** The closing notices for how a run ended: exactly one dialog, chosen by
      the way the run ended, the success log line after a clean exit, then
      the reset of the window, last and once. */
  function Outcome(run: ProcessRun): (tail: seq<Notice>)
    ensures |tail| > 0 && tail[|tail| - 1] == Complete
    ensures forall i :: 0 <= i < |tail| - 1 ==> tail[i] != Complete
    ensures forall i :: 0 <= i < |tail| ==> !tail[i].LogLine?
    ensures SuccessDialog in tail <==> run.Ran? && run.end == ExitCode(0)
    ensures FailureDialog in tail <==> run.Ran? && run.end.ExitCode? && run.end.code != 0
    ensures ErrorDialog in tail <==> run.LaunchFailed? || run.end.ReadFailed?
    ensures SuccessLog in tail <==> run.Ran? && run.end == ExitCode(0)
    ensures DialogCount(tail) == 1
  {
    match run
    case LaunchFailed => [ErrorDialog, Complete]
    case Ran(_, ReadFailed) => [ErrorDialog, Complete]
    case Ran(_, ExitCode(code)) =>
      if code == 0 then [SuccessDialog, SuccessLog, Complete] else [FailureDialog, Complete]
  }

  /** The download thread. The forwarded output lines come first, in order;
      exactly one dialog is scheduled: success (with its log line) exactly
      when the process exited with 0, failure exactly on a non-zero code, an
      error exactly when it could not start or reading failed; and the reset
      of the window comes last and exactly once, whatever happened. */
  function DownloadThread(run: ProcessRun): (ns: seq<Notice>)
    ensures |ns| > 0 && ns[|ns| - 1] == Complete
    ensures forall i :: 0 <= i < |ns| - 1 ==> ns[i] != Complete
    ensures SuccessDialog in ns <==> run.Ran? && run.end == ExitCode(0)
    ensures FailureDialog in ns <==> run.Ran? && run.end.ExitCode? && run.end.code != 0
    ensures ErrorDialog in ns <==> run.LaunchFailed? || run.end.ReadFailed?
    ensures SuccessLog in ns <==> run.Ran? && run.end == ExitCode(0)
    ensures DialogCount(ns) == 1
    ensures LogTexts(ns) == (if run.Ran? then Forwarded(run.output) else [])
    ensures forall i, j :: 0 <= i < j < |ns| && ns[j].LogLine? ==> ns[i].LogLine?
  {
    var logged := if run.Ran? then Forwarded(run.output) else [];
    var tail := Outcome(run);
    LogTextsOfLogLines(logged, tail);
    var ns := LogLines(logged) + tail;
    NoticeLayout(logged, tail, ns);
    ns
  }

  lemma NoticeLayout(logged: seq<string>, tail: seq<Notice>, ns: seq<Notice>)
    requires ns == LogLines(logged) + tail
    requires |tail| > 0 && tail[|tail| - 1] == Complete
    requires forall i :: 0 <= i < |tail| ==> !tail[i].LogLine?
    requires forall i :: 0 <= i < |tail| - 1 ==> tail[i] != Complete
    ensures |ns| > 0 && ns[|ns| - 1] == Complete
    ensures forall i :: 0 <= i < |ns| - 1 ==> ns[i] != Complete
    ensures SuccessDialog in ns <==> SuccessDialog in tail
    ensures FailureDialog in ns <==> FailureDialog in tail
    ensures ErrorDialog in ns <==> ErrorDialog in tail
    ensures SuccessLog in ns <==> SuccessLog in tail
    ensures DialogCount(ns) == DialogCount(tail)
    ensures forall i, j :: 0 <= i < j < |ns| && ns[j].LogLine? ==> ns[i].LogLine?
  {
    assert forall i :: |logged| <= i < |ns| ==> ns[i] == tail[i - |logged|];
    assert forall i :: 0 <= i < |logged| ==> ns[i] == LogLine(logged[i]);
    var head := LogLines(logged);
    assert multiset(ns) == multiset(head) + multiset(tail);
    assert SuccessDialog !in head && FailureDialog !in head && ErrorDialog !in head;
  }
}
