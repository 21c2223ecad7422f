/**
 The `folder scan` command: the choice between a scan run by the daemon and
 one run in the calling process, the foreground driver (daemon busy check,
 extension list, watch hooks, folder resolution) and the statistics report.

 The daemon is seen only through the replies it gives, the folder table as a
 sequence of records in storage order, and the scanner as the statistics it
 returns. What the command does is recorded as a log of effects.
 */
module FolderScan {
  import opened Common
  import opened Text
  import Progress

  /** A daemon call's reply, or the daemon could not be reached. */
  datatype Reply<T> = Answer(value: T) | Unavailable

  /** A scan the daemon reports as running; only its presence matters here. */
  datatype DaemonProgress = DaemonProgress(scanned: nat)

  /** An explicit `--background` or `--foreground`; no option means automatic. */
  datatype ScanMode = Background | Foreground

  /** A row of the folder table. */
  datatype FolderRecord = FolderRecord(name: string, path: string, root: bool)

  datatype Counts = Counts(artists: nat, albums: nat, tracks: nat)

  /** What a finished scan reports. */
  datatype Stats = Stats(added: Counts, deleted: Counts, errors: seq<string>)

  /** The settings the command reads: `scanner_extensions` and `follow_symlinks`. */
  datatype Config = Config(scannerExtensions: Option<string>, followSymlinks: bool)

  /**
   The `extensions` argument handed to the scanner: `None` when the setting is
   absent, the empty string itself when it is empty (it is passed on without
   being split), or the configured list split up.
   */
  datatype ExtensionFilter = NoSetting | EmptySetting | Extensions(list: seq<string>)

  /** The two folder callbacks the driver can hand to the scanner. */
  datatype Hook = UnwatchHook | WatchHook

  /**
   How the scanner is set up and which folder names are queued on it: the
   callbacks run before (`onFolderStart`) and after (`onFolderEnd`) each
   folder are part of the set-up.
   */
  datatype ScannerSetup = ScannerSetup(
    force: bool,
    extensions: ExtensionFilter,
    followSymlinks: bool,
    display: Progress.Display,
    onFolderStart: Hook,
    onFolderEnd: Hook,
    queue: seq<string>)

  /** What the command does, in order. */
  datatype Effect =
    | DaemonScan(folders: seq<string>, force: bool)
    | DaemonQueryProgress
    | DaemonUnwatch(path: string)
    | DaemonWatch(path: string)
    | Echo(text: string)
    | EchoErr(text: string)
    | NoSuchFolders(names: set<string>)
    | RunScanner(setup: ScannerSetup)

  /** How the command ends: normally, or with a `ClickException` carrying a message. */
  datatype Outcome = Completed | Failed(message: string)

  const FallbackNotice: string := "Couldn't connect to the daemon, scanning in foreground"
  const DaemonRequired: string := "Couldn't connect to the daemon, please use the '--foreground' option"
  const AlreadyScanning: string := "The daemon is currently scanning, can't start a scan now"

  // ---------------------------------------------------------------------------
  // Small pieces of the foreground driver

  /**
   A non-empty `scanner_extensions` setting is split on single spaces; an
   absent or empty one is passed on as it is.
   */
  function ExtensionsOf(setting: Option<string>): (r: ExtensionFilter)
    ensures r.NoSetting? <==> setting == None
    ensures r.EmptySetting? <==> setting == Some("")
    ensures r.Extensions? ==> Join(r.list, ' ') == setting.value
    ensures r.Extensions? ==> forall i :: 0 <= i < |r.list| ==> ' ' !in r.list[i]
  {
    match setting
    case None => NoSetting
    case Some(s) =>
      if s == "" then EmptySetting
      else
        JoinSplit(s, ' ');
        Extensions(Split(s, ' '))
  }

  /**
   The extension list reads back as the words that were configured; the one
   list excluded is a single empty word, whose join is the empty setting.
   */
  lemma ExtensionsOfWords(words: seq<string>)
    requires |words| >= 1 && words != [""]
    requires forall i :: 0 <= i < |words| ==> ' ' !in words[i]
    ensures ExtensionsOf(Some(Join(words, ' '))) == Extensions(words)
  {
    if |words| > 1 {
      assert Join(words, ' ')[|words[0]|] == ' ';
    } else {
      assert words == [words[0]];
    }
    SplitJoin(words, ' ');
  }

  /**
   The hook run before a folder is scanned: one request to stop watching its
   path. An unreachable daemon is ignored, so the hook always completes.
   */
  function UnwatchFolder(folder: FolderRecord, reply: Reply<()>): (r: (seq<Effect>, Outcome))
    ensures r.0 == [DaemonUnwatch(folder.path)] && r.1 == Completed
  {
    match reply
    case Answer(_) => ([DaemonUnwatch(folder.path)], Completed)
    case Unavailable => ([DaemonUnwatch(folder.path)], Completed)
  }

  /** The hook run after a folder is scanned: one request to watch its path again, failures ignored. */
  function WatchFolder(folder: FolderRecord, reply: Reply<()>): (r: (seq<Effect>, Outcome))
    ensures r.0 == [DaemonWatch(folder.path)] && r.1 == Completed
  {
    match reply
    case Answer(_) => ([DaemonWatch(folder.path)], Completed)
    case Unavailable => ([DaemonWatch(folder.path)], Completed)
  }

  /** What the scanner does when it runs a hook on a folder: the matching daemon call. */
  function CallHook(hook: Hook, folder: FolderRecord, reply: Reply<()>): (r: (seq<Effect>, Outcome))
    ensures r.1 == Completed && |r.0| == 1
    ensures hook == UnwatchHook <==> r.0[0].DaemonUnwatch?
    ensures r.0[0] == DaemonUnwatch(folder.path) || r.0[0] == DaemonWatch(folder.path)
  {
    match hook
    case UnwatchHook => UnwatchFolder(folder, reply)
    case WatchHook => WatchFolder(folder, reply)
  }

  /** Names of the root folders, in storage order. */
  function RootNames(table: seq<FolderRecord>): (names: seq<string>)
    ensures |names| <= |table|
    ensures forall n :: n in names <==> exists i :: 0 <= i < |table| && table[i].root && table[i].name == n
  {
    if |table| == 0 then []
    else
      var rest := RootNames(table[1..]);
      assert forall i :: 1 <= i < |table| ==> table[i] == table[1..][i - 1];
      if table[0].root then [table[0].name] + rest else rest
  }

  /** Names of the root folders that were asked for, in storage order. */
  function SelectRoots(table: seq<FolderRecord>, wanted: set<string>): (names: seq<string>)
    ensures |names| <= |table|
    ensures forall n :: n in names <==> n in wanted && n in RootNames(table)
  {
    if |table| == 0 then []
    else
      var rest := SelectRoots(table[1..], wanted);
      if table[0].root && table[0].name in wanted then [table[0].name] + rest else rest
  }

  /** An empty selection is everything: selecting every root name gives the root names. */
  lemma {:induction false} SelectAllRoots(table: seq<FolderRecord>, wanted: set<string>)
    requires forall n :: n in RootNames(table) ==> n in wanted
    ensures SelectRoots(table, wanted) == RootNames(table)
  {
    if |table| > 0 {
      assert forall n :: n in RootNames(table[1..]) ==> n in RootNames(table);
      SelectAllRoots(table[1..], wanted);
    }
  }

  /**
   Which folder names the scanner gets, and the not-found notice. With names
   asked for, the queue holds the root folders among them and the notice the
   names that matched none; with none asked for, every root folder is queued.
   */
  function ResolveFolders(requested: seq<string>, table: seq<FolderRecord>): (r: (seq<string>, seq<Effect>))
    ensures |requested| == 0 ==> r == (RootNames(table), [])
    ensures |requested| > 0 ==>
              (forall n :: n in r.0 <==> n in requested && n in RootNames(table))
    ensures |requested| > 0 ==>
              var missing := (set n | n in requested) - (set n | n in RootNames(table));
              r.1 == (if missing == {} then [] else [NoSuchFolders(missing)])
  {
    if |requested| > 0 then
      var found := SelectRoots(table, set n | n in requested);
      var missing := (set n | n in requested) - (set n | n in found);
      assert missing == (set n | n in requested) - (set n | n in RootNames(table));
      (found, if missing == {} then [] else [NoSuchFolders(missing)])
    else
      (RootNames(table), [])
  }

  // ---------------------------------------------------------------------------
  // The report

  /** `Added: <n> artists, <n> albums, <n> tracks`, and the same for `Deleted`. */
  function CountsLine(heading: string, c: Counts): (line: string)
  {
    heading + ": " + NatToString(c.artists) + " artists, " + NatToString(c.albums) + " albums, "
      + NatToString(c.tracks) + " tracks"
  }

  function ErrorLines(errors: seq<string>): (lines: seq<string>)
    ensures |lines| == |errors|
    ensures forall i :: 0 <= i < |errors| ==> lines[i] == "- " + errors[i]
  {
    if |errors| == 0 then [] else ["- " + errors[0]] + ErrorLines(errors[1..])
  }

  /**
   The lines echoed once the scan is done: a blank line and `Scanning done`,
   the added and deleted counts, then, only when there were errors, an
   `Errors in:` header and one `- ` line per error.
   */
  function Report(stats: Stats): (lines: seq<string>)
    ensures |lines| >= 3
    ensures lines[0] == "\nScanning done"
    ensures lines[1] == CountsLine("Added", stats.added)
    ensures lines[2] == CountsLine("Deleted", stats.deleted)
    ensures |stats.errors| == 0 <==> |lines| == 3
    ensures |stats.errors| > 0 ==> |lines| == 4 + |stats.errors| && lines[3] == "Errors in:"
    ensures forall i :: 0 <= i < |stats.errors| ==> lines[4 + i] == "- " + stats.errors[i]
  {
    var head := ["\nScanning done", CountsLine("Added", stats.added), CountsLine("Deleted", stats.deleted)];
    if |stats.errors| == 0 then head else head + ["Errors in:"] + ErrorLines(stats.errors)
  }

  /** Reads a counts line back: seven space-separated words, three of them numbers. */
  function ReadCounts(heading: string, line: string): (c: Option<Counts>)
  {
    var w := Split(line, ' ');
    if |w| == 7 && w[0] == heading + ":" && w[2] == "artists," && w[4] == "albums," && w[6] == "tracks" then
      match (ParseNat(w[1]), ParseNat(w[3]), ParseNat(w[5]))
      case (Some(a), Some(b), Some(t)) => Some(Counts(a, b, t))
      case _ => None
    else None
  }

  /** Reads a report back into statistics. */
  function ReadReport(lines: seq<string>): (stats: Option<Stats>)
  {
    if |lines| < 3 || lines[0] != "\nScanning done" then None
    else
      match (ReadCounts("Added", lines[1]), ReadCounts("Deleted", lines[2]))
      case (Some(added), Some(deleted)) =>
        if |lines| == 3 then Some(Stats(added, deleted, []))
        else if |lines| > 4 && lines[3] == "Errors in:" &&
                (forall i :: 4 <= i < |lines| ==> StartsWith(lines[i], "- ")) then
          Some(Stats(added, deleted, seq(|lines| - 4, i requires 0 <= i < |lines| - 4 => lines[4 + i][2..])))
        else None
      case _ => None
  }

  lemma NatToStringHasNoSpace(n: nat)
    ensures ' ' !in NatToString(n)
  {
  }

  /** A counts line is its seven words joined by single spaces. */
  lemma CountsLineWords(h: string, a: string, b: string, t: string)
    ensures h + ": " + a + " artists, " + b + " albums, " + t + " tracks"
            == Join([h + ":", a, "artists,", b, "albums,", t, "tracks"], ' ')
  {
    var words := [h + ":", a, "artists,", b, "albums,", t, "tracks"];
    var j5 := t + " tracks";
    var j4 := "albums, " + j5;
    var j3 := b + " " + j4;
    var j2 := "artists, " + j3;
    var j1 := a + " " + j2;
    assert Join(words[6..], ' ') == "tracks";
    assert Join(words[5..], ' ') == j5;
    assert Join(words[4..], ' ') == j4;
    assert Join(words[3..], ' ') == j3;
    assert Join(words[2..], ' ') == j2;
    assert Join(words[1..], ' ') == j1;
    assert Join(words, ' ') == h + ": " + j1;
  }

  /** A counts line reads back as the counts it shows. */
  lemma ReadCountsLine(heading: string, c: Counts)
    requires ' ' !in heading
    ensures ReadCounts(heading, CountsLine(heading, c)) == Some(c)
  {
    var a, b, t := NatToString(c.artists), NatToString(c.albums), NatToString(c.tracks);
    var words := [heading + ":", a, "artists,", b, "albums,", t, "tracks"];
    NatToStringHasNoSpace(c.artists);
    NatToStringHasNoSpace(c.albums);
    NatToStringHasNoSpace(c.tracks);
    assert ' ' !in heading + ":";
    CountsLineWords(heading, a, b, t);
    SplitJoin(words, ' ');
    ParseNatToString(c.artists);
    ParseNatToString(c.albums);
    ParseNatToString(c.tracks);
  }

  /** The report loses nothing: the statistics can be read back from its lines. */
  lemma ReadBackReport(stats: Stats)
    ensures ReadReport(Report(stats)) == Some(stats)
  {
    var lines := Report(stats);
    ReadCountsLine("Added", stats.added);
    ReadCountsLine("Deleted", stats.deleted);
    if |stats.errors| > 0 {
      ErrorLinesReadBack(lines, stats.errors);
    }
  }

  /** The error lines of a report read back as the errors, in order. */
  lemma ErrorLinesReadBack(lines: seq<string>, errors: seq<string>)
    requires |lines| == 4 + |errors|
    requires forall i :: 0 <= i < |errors| ==> lines[4 + i] == "- " + errors[i]
    ensures forall i :: 4 <= i < |lines| ==> |lines[i]| >= 2 && StartsWith(lines[i], "- ")
    ensures seq(|lines| - 4, i requires 0 <= i < |lines| - 4 => lines[4 + i][2..]) == errors
  {
    forall i | 4 <= i < |lines| ensures |lines[i]| >= 2 && StartsWith(lines[i], "- ") {
      assert lines[4 + (i - 4)] == "- " + errors[i - 4];
    }
    var errs := seq(|lines| - 4, i requires 0 <= i < |lines| - 4 => lines[4 + i][2..]);
    forall i | 0 <= i < |errors| ensures errs[i] == errors[i] {
      assert ("- " + errors[i])[2..] == errors[i];
    }
  }

  lemma SmallNumbers()
    ensures NatToString(0) == "0" && NatToString(2) == "2" && NatToString(5) == "5"
    ensures NatToString(40) == "40"
  {
    assert NatToString(4) == "4";
    assert DigitChar(0) == '0';
  }

  /** The example: two artists, five albums and forty tracks added, nothing deleted, no errors. */
  lemma ReportExample()
    ensures Report(Stats(Counts(2, 5, 40), Counts(0, 0, 0), [])) ==
            ["\nScanning done", "Added: 2 artists, 5 albums, 40 tracks", "Deleted: 0 artists, 0 albums, 0 tracks"]
  {
    SmallNumbers();
    var added := "Added" + ": " + "2" + " artists, " + "5" + " albums, " + "40" + " tracks";
    assert added == "Added: 2 artists, 5 albums, 40 tracks";
    var deleted := "Deleted" + ": " + "0" + " artists, " + "0" + " albums, " + "0" + " tracks";
    assert deleted == "Deleted: 0 artists, 0 albums, 0 tracks";
  }

  // ---------------------------------------------------------------------------
  // The foreground driver and the mode choice

  /** How many effects of a log satisfy `p`. */
  function CountOf(log: seq<Effect>, p: Effect -> bool): (n: nat)
  {
    if |log| == 0 then 0 else (if p(log[0]) then 1 else 0) + CountOf(log[1..], p)
  }

  lemma CountOfOne(e: Effect, p: Effect -> bool)
    ensures CountOf([e], p) == if p(e) then 1 else 0
  {
    assert [e][1..] == [];
  }

  lemma {:induction false} CountOfAppend(a: seq<Effect>, b: seq<Effect>, p: Effect -> bool)
    ensures CountOf(a + b, p) == CountOf(a, p) + CountOf(b, p)
  {
    if |a| == 0 {
      assert a + b == b;
    } else {
      assert (a + b)[1..] == a[1..] + b;
      CountOfAppend(a[1..], b, p);
    }
  }

  /** A log made only of echoes holds no daemon call and no scanner run. */
  lemma {:induction false} CountOfEchoes(lines: seq<string>, p: Effect -> bool)
    requires forall t :: !p(Echo(t))
    ensures CountOf(EchoAll(lines), p) == 0
  {
    if |lines| > 0 {
      assert EchoAll(lines)[1..] == EchoAll(lines[1..]);
      CountOfEchoes(lines[1..], p);
    }
  }

  predicate IsDaemonScan(e: Effect) { e.DaemonScan? }
  predicate IsProgressQuery(e: Effect) { e.DaemonQueryProgress? }
  predicate IsScannerRun(e: Effect) { e.RunScanner? }
  predicate IsNotFoundNotice(e: Effect) { e.NoSuchFolders? }

  /**
   A scan in the calling process. `busy` is the daemon's reply to the
   progress query and `stats` what the scanner returns. A daemon that answers
   that it is scanning aborts the command before anything is queued; an
   unreachable one does not stop it. The watch calls the hooks make while the
   scanner runs belong to the scanner run, not to this log.
   */
  function ForegroundScan(config: Config, busy: Reply<Option<DaemonProgress>>, requested: seq<string>,
                          force: bool, table: seq<FolderRecord>, stats: Stats): (r: (seq<Effect>, Outcome))
    ensures |r.0| >= 1 && r.0[0] == DaemonQueryProgress
    ensures busy.Answer? && busy.value.Some? <==> r.1.Failed?
    ensures r.1.Failed? ==> r == ([DaemonQueryProgress], Failed(AlreadyScanning))
    ensures r.1.Completed? ==>
              var (queue, notice) := ResolveFolders(requested, table);
              var setup := ScannerSetup(force, ExtensionsOf(config.scannerExtensions), config.followSymlinks,
                                        Progress.NewDisplay(Progress.DefaultInterval), UnwatchHook, WatchHook,
                                        queue);
              r.0 == [DaemonQueryProgress] + notice + [RunScanner(setup)] + EchoAll(Report(stats))
    ensures CountOf(r.0, IsDaemonScan) == 0
    ensures CountOf(r.0, IsProgressQuery) == 1
    ensures CountOf(r.0, IsScannerRun) == (if r.1.Completed? then 1 else 0)
    ensures r.1.Failed? ==> CountOf(r.0, IsNotFoundNotice) == 0
  {
    var check := [DaemonQueryProgress];
    if busy.Answer? && busy.value.Some? then (check, Failed(AlreadyScanning))
    else
      var extensions := ExtensionsOf(config.scannerExtensions);
      var (queue, notice) := ResolveFolders(requested, table);
      var setup := ScannerSetup(force, extensions, config.followSymlinks,
                                Progress.NewDisplay(Progress.DefaultInterval), UnwatchHook, WatchHook, queue);
      var log := check + notice + [RunScanner(setup)] + EchoAll(Report(stats));
      CountOfAppend(check + notice + [RunScanner(setup)], EchoAll(Report(stats)), IsDaemonScan);
      CountOfAppend(check + notice + [RunScanner(setup)], EchoAll(Report(stats)), IsProgressQuery);
      CountOfAppend(check + notice + [RunScanner(setup)], EchoAll(Report(stats)), IsScannerRun);
      CountOfAppend(check + notice, [RunScanner(setup)], IsDaemonScan);
      CountOfAppend(check + notice, [RunScanner(setup)], IsProgressQuery);
      CountOfAppend(check + notice, [RunScanner(setup)], IsScannerRun);
      CountOfAppend(check, notice, IsDaemonScan);
      CountOfAppend(check, notice, IsProgressQuery);
      CountOfAppend(check, notice, IsScannerRun);
      CountOfEchoes(Report(stats), IsDaemonScan);
      CountOfEchoes(Report(stats), IsProgressQuery);
      CountOfEchoes(Report(stats), IsScannerRun);
      (log, Completed)
  }

  /**
   Whatever the daemon replies, the scanner of a foreground scan takes each
   folder out of the daemon's watch set before scanning it and puts it back
   afterwards.
   */
  lemma ForegroundHooks(config: Config, busy: Reply<Option<DaemonProgress>>, requested: seq<string>,
                          force: bool, table: seq<FolderRecord>, stats: Stats,
                          folder: FolderRecord, before: Reply<()>, after: Reply<()>)
    ensures var log := ForegroundScan(config, busy, requested, force, table, stats).0;
            forall i :: 0 <= i < |log| && log[i].RunScanner? ==>
              && CallHook(log[i].setup.onFolderStart, folder, before) == ([DaemonUnwatch(folder.path)], Completed)
              && CallHook(log[i].setup.onFolderEnd, folder, after) == ([DaemonWatch(folder.path)], Completed)
  {
  }

  /** Each line echoed to standard output. */
  function EchoAll(lines: seq<string>): (log: seq<Effect>)
    ensures |log| == |lines|
    ensures forall i :: 0 <= i < |lines| ==> log[i] == Echo(lines[i])
  {
    if |lines| == 0 then [] else [Echo(lines[0])] + EchoAll(lines[1..])
  }

  /**
   `folder scan`: with no mode the daemon is asked first and the scan falls
   back to the foreground when it cannot be reached; `--background` needs the
   daemon; `--foreground` never asks it to scan.
   */
  function FolderScanCommand(mode: Option<ScanMode>, requested: seq<string>, force: bool,
                             scanReply: Reply<()>, config: Config, busy: Reply<Option<DaemonProgress>>,
                             table: seq<FolderRecord>, stats: Stats): (r: (seq<Effect>, Outcome))
    ensures |r.0| >= 1
    ensures r.0[0] == DaemonScan(requested, force) <==> mode != Some(Foreground)
    ensures r.1.Failed? ==> r.1.message == DaemonRequired || r.1.message == AlreadyScanning
    ensures r.1 == Failed(DaemonRequired) <==> mode == Some(Background) && scanReply.Unavailable?
    ensures r.1 == Failed(AlreadyScanning) <==>
              mode != Some(Background) && (mode == None ==> scanReply.Unavailable?) &&
              busy.Answer? && busy.value.Some?
    ensures EchoErr(FallbackNotice) in r.0 <==> mode == None && scanReply.Unavailable?
  {
    var start := [DaemonScan(requested, force)];
    match mode
    case None =>
      if scanReply.Answer? then (start, Completed)
      else
        var fg := ForegroundScan(config, busy, requested, force, table, stats);
        (start + [EchoErr(FallbackNotice)] + fg.0, fg.1)
    case Some(Background) =>
      if scanReply.Answer? then (start, Completed) else (start, Failed(DaemonRequired))
    case Some(Foreground) =>
      ForegroundScan(config, busy, requested, force, table, stats)
  }

  /**
   The mode policy, over every daemon reply:
   - with no mode, a daemon that takes the scan leaves nothing to do locally,
     and an unreachable one is reported on standard error and followed by
     exactly the foreground scan, run once;
   - `--background` never scans locally, and an unreachable daemon is fatal;
   - `--foreground` never asks the daemon to scan and is the foreground scan.
   */
  lemma ModePolicy(mode: Option<ScanMode>, requested: seq<string>, force: bool, scanReply: Reply<()>,
                   config: Config, busy: Reply<Option<DaemonProgress>>, table: seq<FolderRecord>, stats: Stats)
    ensures var r := FolderScanCommand(mode, requested, force, scanReply, config, busy, table, stats);
            var fg := ForegroundScan(config, busy, requested, force, table, stats);
            && (mode == None && scanReply.Answer? ==>
                  r == ([DaemonScan(requested, force)], Completed) &&
                  CountOf(r.0, IsScannerRun) == 0 && CountOf(r.0, IsProgressQuery) == 0)
            && (mode == None && scanReply.Unavailable? ==>
                  r.0 == [DaemonScan(requested, force), EchoErr(FallbackNotice)] + fg.0 && r.1 == fg.1 &&
                  CountOf(r.0, IsProgressQuery) == 1 && CountOf(r.0, IsDaemonScan) == 1)
            && (mode == Some(Background) ==>
                  CountOf(r.0, IsScannerRun) == 0 && CountOf(r.0, IsProgressQuery) == 0 &&
                  (r.1.Failed? <==> scanReply.Unavailable?) &&
                  (r.1.Failed? ==> r.1.message == DaemonRequired))
            && (mode == Some(Foreground) ==> r == fg && CountOf(r.0, IsDaemonScan) == 0)
  {
    var start := [DaemonScan(requested, force)];
    var fg := ForegroundScan(config, busy, requested, force, table, stats);
    CountOfAppend(start + [EchoErr(FallbackNotice)], fg.0, IsProgressQuery);
    CountOfAppend(start + [EchoErr(FallbackNotice)], fg.0, IsDaemonScan);
  }

  /**
   The invariant of the three modes: only a run that may use the
   foreground scans locally, and only a run that may use the daemon asks it
   to scan.
   */
  lemma ModeInvariant(mode: Option<ScanMode>, requested: seq<string>, force: bool, scanReply: Reply<()>,
                      config: Config, busy: Reply<Option<DaemonProgress>>, table: seq<FolderRecord>, stats: Stats)
    ensures var r := FolderScanCommand(mode, requested, force, scanReply, config, busy, table, stats);
            && (CountOf(r.0, IsScannerRun) > 0 ==> mode != Some(Background))
            && (CountOf(r.0, IsDaemonScan) > 0 <==> mode != Some(Foreground))
            && CountOf(r.0, IsScannerRun) <= 1
  {
    var r := FolderScanCommand(mode, requested, force, scanReply, config, busy, table, stats);
    var start := [DaemonScan(requested, force)];
    var fg := ForegroundScan(config, busy, requested, force, table, stats);
    match mode
    case None =>
      CountOfOne(DaemonScan(requested, force), IsScannerRun);
      CountOfOne(DaemonScan(requested, force), IsDaemonScan);
      if scanReply.Answer? {
        assert r.0 == start;
      } else {
        CountOfOne(EchoErr(FallbackNotice), IsScannerRun);
        CountOfOne(EchoErr(FallbackNotice), IsDaemonScan);
        assert r.0 == start + [EchoErr(FallbackNotice)] + fg.0;
        CountOfAppend(start + [EchoErr(FallbackNotice)], fg.0, IsScannerRun);
        CountOfAppend(start + [EchoErr(FallbackNotice)], fg.0, IsDaemonScan);
        CountOfAppend(start, [EchoErr(FallbackNotice)], IsScannerRun);
        CountOfAppend(start, [EchoErr(FallbackNotice)], IsDaemonScan);
      }
    case Some(Background) =>
      CountOfOne(DaemonScan(requested, force), IsScannerRun);
      CountOfOne(DaemonScan(requested, force), IsDaemonScan);
      assert r.0 == start;
    case Some(Foreground) =>
      assert r == fg;
  }

  /**
   The same unreachable daemon is fatal in one place and swallowed in the
   others: it fails `--background`, while the watch hooks complete and the
   foreground scan goes on past the busy check.
   */
  lemma UnavailablePolicy(folder: FolderRecord, requested: seq<string>, force: bool, config: Config,
                          table: seq<FolderRecord>, stats: Stats)
    ensures FolderScanCommand(Some(Background), requested, force, Unavailable, config, Unavailable, table, stats).1
            == Failed(DaemonRequired)
    ensures UnwatchFolder(folder, Unavailable).1 == Completed && WatchFolder(folder, Unavailable).1 == Completed
    ensures ForegroundScan(config, Unavailable, requested, force, table, stats).1 == Completed
    ensures FolderScanCommand(None, requested, force, Unavailable, config, Unavailable, table, stats).1 == Completed
  {
  }
}
