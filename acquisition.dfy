/**
 * The `download-game` handler of frontend/main.js: reuse an archive already in the
 * downloads directory, or fetch it while reporting cumulative progress, then hand
 * it to the extractor. The network, the file system and 7-Zip are abstract inputs;
 * the handler's observable behaviour is the sequence of actions it takes.
 */
module Acquisition {
  import opened Common
  import opened Text
  import opened Paths
  import opened Events
  import opened Store
  import opened Extractor

  /** Where the launcher runs: the user's home, the directory of the main script and `process.platform`. */
  datatype Env = Env(home: string, appDir: string, platform: string)

  /**
   * How the server answers `https.get(url)`. The request's 'error' event fires either
   * before any response or, when the connection breaks off, after some body chunks.
   */
  datatype Response =
    | RequestFailed                                                        // the request's 'error' event, no response
    | Responded(contentLength: Option<nat>, chunks: seq<nat>, finished: bool) // body chunk lengths; whether the file stream reached 'finish'
    | BrokenOff(contentLength: Option<nat>, chunks: seq<nat>)              // body chunk lengths, then the request's 'error' event

  /** How the extraction goes: `installArchive` throws before 7-Zip starts, or 7-Zip runs and exits. */
  datatype ExtractorRun = SetupFails | Exits(output: seq<string>, code: Option<int>)

  function Sum(chunks: seq<nat>): nat {
    if chunks == [] then 0 else Sum(chunks[..|chunks| - 1]) + chunks[|chunks| - 1]
  }

  /** The `download-progress` messages: after each chunk, the bytes received so far and the announced total. */
  function ProgressEvents(chunks: seq<nat>, total: nat): seq<Action> {
    if chunks == [] then []
    else ProgressEvents(chunks[..|chunks| - 1], total) + [Send(DownloadProgress(Sum(chunks), total))]
  }

  /** The `try { await installArchive(...) } catch` block: a setup failure is reported with the archive's file name. */
  function Install(env: Env, src: string, dest: string, filename: string, run: ExtractorRun): seq<Action> {
    match run
    case SetupFails => [Send(InstallError(filename))]
    case Exits(output, code) => InstallRun(env.appDir, env.platform, src, dest, output, code)
  }

  function ArchivePath(env: Env, filename: string): string {
    Join(DownloadsDir(env.home), filename)
  }

  /** Everything `download-game` does for one request, given the files that exist when it starts. */
  function DownloadTrace(env: Env, url: string, filename: string, files: set<string>, response: Response, run: ExtractorRun): seq<Action> {
    var dest := ArchivePath(env, filename);
    if dest in files then
      [Send(DownloadComplete(dest))] + Install(env, dest, AppsDir(env.home), filename, run)
    else match response
      case RequestFailed =>
        [Fetch(url), Send(DownloadError(filename))]
      case Responded(length, chunks, finished) =>
        [Fetch(url)] + ProgressEvents(chunks, length.GetOr(0))
        + (if finished
           then [Send(DownloadComplete(dest))] + Install(env, dest, Join(AppsDir(env.home), StripExtension(filename)), filename, run)
           else [])
      case BrokenOff(length, chunks) =>
        [Fetch(url)] + ProgressEvents(chunks, length.GetOr(0)) + [Send(DownloadError(filename))]
  }

  /** `createWriteStream(dest)` creates the archive file before the request is made, whatever the request then does. */
  function FilesAfter(env: Env, filename: string, files: set<string>): set<string> {
    files + {ArchivePath(env, filename)}
  }

  /** The handler, step by step: the progress counter is updated once per chunk. */
  method DownloadGame(env: Env, url: string, filename: string, files: set<string>, response: Response, run: ExtractorRun)
    returns (trace: seq<Action>, filesAfter: set<string>)
    ensures trace == DownloadTrace(env, url, filename, files, response, run)
    ensures filesAfter == FilesAfter(env, filename, files)
  {
    var dest := Join(DownloadsDir(env.home), filename);
    if dest in files {
      trace := [Send(DownloadComplete(dest))];
      trace := trace + Install(env, dest, AppsDir(env.home), filename, run);
      filesAfter := files;
      return;
    }
    filesAfter := files + {dest};
    trace := [Fetch(url)];
    if response.RequestFailed? {
      trace := trace + [Send(DownloadError(filename))];
      return;
    }
    var total := response.contentLength.GetOr(0);
    var chunks := response.chunks;
    var received := 0;
    for i := 0 to |chunks|
      invariant received == Sum(chunks[..i])
      invariant trace == [Fetch(url)] + ProgressEvents(chunks[..i], total)
    {
      ProgressStep(chunks, i, total);
      AppendAssoc([Fetch(url)], ProgressEvents(chunks[..i], total), [Send(DownloadProgress(received + chunks[i], total))]);
      received := received + chunks[i];
      trace := trace + [Send(DownloadProgress(received, total))];
    }
    assert chunks[..|chunks|] == chunks;
    if response.BrokenOff? {
      trace := trace + [Send(DownloadError(filename))];
    } else if response.finished {
      var before := trace;
      var install := Install(env, dest, Join(AppsDir(env.home), StripExtension(filename)), filename, run);
      trace := trace + [Send(DownloadComplete(dest))];
      trace := trace + install;
      AppendAssoc(before, [Send(DownloadComplete(dest))], install);
    } else {
      assert trace + [] == trace;
    }
  }

  /** One more chunk adds its length to the count and one progress message at the end. */
  lemma ProgressStep(chunks: seq<nat>, i: nat, total: nat)
    requires i < |chunks|
    ensures Sum(chunks[..i + 1]) == Sum(chunks[..i]) + chunks[i]
    ensures ProgressEvents(chunks[..i + 1], total)
      == ProgressEvents(chunks[..i], total) + [Send(DownloadProgress(Sum(chunks[..i + 1]), total))]
  {
    assert chunks[..i + 1][..i] == chunks[..i];
  }

  // ---- progress ----------------------------------------------------------------

  lemma {:induction false} SumPrefix(chunks: seq<nat>, j: nat, k: nat)
    requires j <= k <= |chunks|
    ensures Sum(chunks[..j]) <= Sum(chunks[..k])
    decreases k - j
  {
    if j < k {
      SumPrefix(chunks, j, k - 1);
      assert chunks[..k][..k - 1] == chunks[..k - 1];
    }
  }

  /** The k-th progress message carries the bytes of the first k+1 chunks and the announced total. */
  lemma {:induction false} ProgressEventsAt(chunks: seq<nat>, total: nat)
    ensures |ProgressEvents(chunks, total)| == |chunks|
    ensures forall k :: 0 <= k < |chunks| ==>
      ProgressEvents(chunks, total)[k] == Send(DownloadProgress(Sum(chunks[..k + 1]), total))
    decreases |chunks|
  {
    if chunks != [] {
      var init := chunks[..|chunks| - 1];
      ProgressEventsAt(init, total);
      forall k | 0 <= k < |init|
        ensures ProgressEvents(chunks, total)[k] == Send(DownloadProgress(Sum(chunks[..k + 1]), total))
      {
        assert init[..k + 1] == chunks[..k + 1];
      }
      assert chunks[..|chunks|] == chunks;
    }
  }

  /** The byte count a progress message reports. */
  function ReportedBytes(a: Action): nat {
    if a.Send? && a.event.DownloadProgress? then a.event.received else 0
  }

  /** Every message is a progress report with the announced total, the counter never goes down, and the last report covers every byte. */
  lemma ProgressNeverDecreases(chunks: seq<nat>, total: nat)
    ensures var p := ProgressEvents(chunks, total);
      forall k :: 0 <= k < |p| ==> p[k] == Send(DownloadProgress(ReportedBytes(p[k]), total))
    ensures var p := ProgressEvents(chunks, total);
      forall j, k :: 0 <= j <= k < |p| ==> ReportedBytes(p[j]) <= ReportedBytes(p[k])
    ensures var p := ProgressEvents(chunks, total);
      p != [] ==> ReportedBytes(p[|p| - 1]) == Sum(chunks)
  {
    var p := ProgressEvents(chunks, total);
    ProgressEventsAt(chunks, total);
    forall j, k | 0 <= j <= k < |p|
      ensures ReportedBytes(p[j]) <= ReportedBytes(p[k])
    {
      SumPrefix(chunks, j + 1, k + 1);
    }
    assert chunks[..|chunks|] == chunks;
  }

  // ---- the two paths ---------------------------------------------------------------

  /** An archive already on disk is not fetched again: completion is reported at once and it is extracted into the apps directory itself. */
  lemma CachedArchive(env: Env, url: string, filename: string, files: set<string>, response: Response, run: ExtractorRun)
    requires ArchivePath(env, filename) in files
    ensures var t := DownloadTrace(env, url, filename, files, response, run);
      && t[0] == Send(DownloadComplete(ArchivePath(env, filename)))
      && (forall a :: a in t ==> !a.Fetch?)
      && (run.Exits? ==> t[1] == Spawn(BinPath(env.appDir, env.platform), ExtractArgs(ArchivePath(env, filename), AppsDir(env.home))))
  {
    var dest := ArchivePath(env, filename);
    var install := Install(env, dest, AppsDir(env.home), filename, run);
    InstallSteps(env, dest, AppsDir(env.home), filename, run);
    assert DownloadTrace(env, url, filename, files, response, run) == [Send(DownloadComplete(dest))] + install;
  }

  /** A failed request reports the file name and installs nothing. */
  lemma FailedRequest(env: Env, url: string, filename: string, files: set<string>, run: ExtractorRun)
    requires ArchivePath(env, filename) !in files
    ensures var t := DownloadTrace(env, url, filename, files, RequestFailed, run);
      t == [Fetch(url), Send(DownloadError(filename))] && forall a :: a in t ==> !IsInstallStep(a)
  {
  }

  /** Every action of an installation is an installation step; a run of 7-Zip starts by spawning it on the archive and the destination. */
  lemma InstallSteps(env: Env, src: string, dest: string, filename: string, run: ExtractorRun)
    ensures var t := Install(env, src, dest, filename, run);
      && t != []
      && (forall a :: a in t ==> IsInstallStep(a))
      && (run.Exits? ==> t[0] == Spawn(BinPath(env.appDir, env.platform), ExtractArgs(src, dest)))
  {
    if run.Exits? {
      InstallRunShape(env.appDir, env.platform, src, dest, run.output, run.code);
    }
  }

  predicate IsCompletion(a: Action) { a.Send? && a.event.DownloadComplete? }

  predicate IsDownloadError(a: Action) { a.Send? && a.event.DownloadError? }

  lemma {:induction false} ProgressEventsAre(chunks: seq<nat>, total: nat)
    ensures forall a :: a in ProgressEvents(chunks, total) ==> a.Send? && a.event.DownloadProgress?
    decreases |chunks|
  {
    if chunks != [] {
      ProgressEventsAre(chunks[..|chunks| - 1], total);
    }
  }

  /** In `pre + steps`, with no installation step in `pre` and nothing else in `steps`, every completion report comes before every installation step. */
  lemma CompletionBeforeSteps(pre: seq<Action>, steps: seq<Action>)
    requires forall a :: a in pre ==> !IsInstallStep(a)
    requires forall a :: a in steps ==> IsInstallStep(a)
    ensures var t := pre + steps;
      forall j, k :: 0 <= j < |t| && 0 <= k < |t| && IsCompletion(t[j]) && IsInstallStep(t[k]) ==> j < k
  {
    var t := pre + steps;
    assert forall i :: 0 <= i < |pre| ==> t[i] in pre;
    assert forall i :: |pre| <= i < |t| ==> t[i] in steps;
  }

  /** The actions before the installation steps, and the installation steps. */
  function Stages(env: Env, url: string, filename: string, files: set<string>, response: Response, run: ExtractorRun): (seq<Action>, seq<Action>) {
    var dest := ArchivePath(env, filename);
    if dest in files then
      ([Send(DownloadComplete(dest))], Install(env, dest, AppsDir(env.home), filename, run))
    else match response
      case RequestFailed => ([Fetch(url), Send(DownloadError(filename))], [])
      case Responded(length, chunks, finished) =>
        if finished then
          ([Fetch(url)] + ProgressEvents(chunks, length.GetOr(0)) + [Send(DownloadComplete(dest))],
           Install(env, dest, Join(AppsDir(env.home), StripExtension(filename)), filename, run))
        else ([Fetch(url)] + ProgressEvents(chunks, length.GetOr(0)), [])
      case BrokenOff(length, chunks) =>
        ([Fetch(url)] + ProgressEvents(chunks, length.GetOr(0)) + [Send(DownloadError(filename))], [])
  }

  lemma StagesSplitTrace(env: Env, url: string, filename: string, files: set<string>, response: Response, run: ExtractorRun)
    ensures var (pre, steps) := Stages(env, url, filename, files, response, run);
      && DownloadTrace(env, url, filename, files, response, run) == pre + steps
      && (forall a :: a in pre ==> !IsInstallStep(a))
      && (forall a :: a in steps ==> IsInstallStep(a))
      && (forall a :: a in pre && IsDownloadError(a) ==> ArchivePath(env, filename) !in files && !response.Responded?)
      && (forall a :: a in pre && IsDownloadError(a) ==> forall b :: b in pre ==> !IsCompletion(b))
      && (forall a :: a in steps ==> !IsDownloadError(a))
  {
    var dest := ArchivePath(env, filename);
    if dest in files {
      InstallSteps(env, dest, AppsDir(env.home), filename, run);
    } else if !response.RequestFailed? {
      ProgressEventsAre(response.chunks, response.contentLength.GetOr(0));
      if response.Responded? && response.finished {
        InstallSteps(env, dest, Join(AppsDir(env.home), StripExtension(filename)), filename, run);
      }
    }
  }

  /**
   * Whatever happens, `download-complete` is reported before any installation step;
   * `download-error` is reported only when a fresh request fails or its connection breaks
   * off, and then nothing is completed or installed.
   */
  lemma CompletionPrecedesInstall(env: Env, url: string, filename: string, files: set<string>, response: Response, run: ExtractorRun)
    ensures var t := DownloadTrace(env, url, filename, files, response, run);
      forall j, k :: 0 <= j < |t| && 0 <= k < |t| && IsCompletion(t[j]) && IsInstallStep(t[k]) ==> j < k
    ensures var t := DownloadTrace(env, url, filename, files, response, run);
      forall a :: a in t && IsDownloadError(a) ==> ArchivePath(env, filename) !in files && !response.Responded?
    ensures var t := DownloadTrace(env, url, filename, files, response, run);
      (exists a :: a in t && IsDownloadError(a)) ==> forall a :: a in t ==> !IsInstallStep(a) && !IsCompletion(a)
  {
    var (pre, steps) := Stages(env, url, filename, files, response, run);
    StagesSplitTrace(env, url, filename, files, response, run);
    CompletionBeforeSteps(pre, steps);
  }

  /**
   * A fresh download fetches the URL first, reports cumulative progress with the
   * content length (0 when absent), then reports completion, and 7-Zip extracts the
   * archive into `<apps>/<filename without extension>`.
   */
  lemma FreshDownload(env: Env, url: string, filename: string, files: set<string>,
                      length: Option<nat>, chunks: seq<nat>, run: ExtractorRun)
    requires ArchivePath(env, filename) !in files
    ensures var t := DownloadTrace(env, url, filename, files, Responded(length, chunks, true), run);
      && |t| > |chunks| + 2
      && t[0] == Fetch(url)
      && (forall k :: 1 <= k <= |chunks| ==> t[k] == Send(DownloadProgress(Sum(chunks[..k]), length.GetOr(0))))
      && t[|chunks| + 1] == Send(DownloadComplete(ArchivePath(env, filename)))
      && (run.Exits? ==> t[|chunks| + 2] == Spawn(BinPath(env.appDir, env.platform),
            ExtractArgs(ArchivePath(env, filename), Join(AppsDir(env.home), StripExtension(filename)))))
  {
    var t := DownloadTrace(env, url, filename, files, Responded(length, chunks, true), run);
    var total := length.GetOr(0);
    var dest := ArchivePath(env, filename);
    var install := Install(env, dest, Join(AppsDir(env.home), StripExtension(filename)), filename, run);
    var progress := ProgressEvents(chunks, total);
    ProgressEventsAt(chunks, total);
    InstallSteps(env, dest, Join(AppsDir(env.home), StripExtension(filename)), filename, run);
    assert t == [Fetch(url)] + progress + ([Send(DownloadComplete(dest))] + install);
    TraceParts(Fetch(url), progress, Send(DownloadComplete(dest)), install);
    forall k | 1 <= k <= |chunks|
      ensures t[k] == Send(DownloadProgress(Sum(chunks[..k]), total))
    {
      assert t[k] == progress[k - 1];
    }
  }

  /** Positions in a trace made of a first action, a run of actions, another action and a tail. */
  lemma TraceParts(first: Action, run: seq<Action>, next: Action, tail: seq<Action>)
    requires tail != []
    ensures var t := [first] + run + ([next] + tail);
      && |t| == |run| + 2 + |tail|
      && t[0] == first
      && (forall k :: 1 <= k <= |run| ==> t[k] == run[k - 1])
      && t[|run| + 1] == next
      && t[|run| + 2] == tail[0]
  {
  }

  /**
   * A body that neither finishes nor breaks off (the connection stalls) leaves the trace
   * at the progress messages: no completion, no error, no extraction.
   */
  lemma UnfinishedDownload(env: Env, url: string, filename: string, files: set<string>,
                           length: Option<nat>, chunks: seq<nat>, run: ExtractorRun)
    requires ArchivePath(env, filename) !in files
    ensures DownloadTrace(env, url, filename, files, Responded(length, chunks, false), run)
      == [Fetch(url)] + ProgressEvents(chunks, length.GetOr(0))
  {
  }

  /**
   * A connection that breaks off after some body chunks reports their progress and then
   * `download-error` with the file name; nothing is completed or extracted.
   */
  lemma BrokenDownload(env: Env, url: string, filename: string, files: set<string>,
                       length: Option<nat>, chunks: seq<nat>, run: ExtractorRun)
    requires ArchivePath(env, filename) !in files
    ensures var t := DownloadTrace(env, url, filename, files, BrokenOff(length, chunks), run);
      && |t| == |chunks| + 2
      && t[0] == Fetch(url)
      && (forall k :: 1 <= k <= |chunks| ==> t[k] == Send(DownloadProgress(Sum(chunks[..k]), length.GetOr(0))))
      && t[|chunks| + 1] == Send(DownloadError(filename))
      && (forall a :: a in t ==> !IsCompletion(a) && !IsInstallStep(a))
  {
    var t := DownloadTrace(env, url, filename, files, BrokenOff(length, chunks), run);
    var total := length.GetOr(0);
    var progress := ProgressEvents(chunks, total);
    ProgressEventsAt(chunks, total);
    ProgressEventsAre(chunks, total);
    assert t == [Fetch(url)] + progress + [Send(DownloadError(filename))];
    forall k | 1 <= k <= |chunks|
      ensures t[k] == Send(DownloadProgress(Sum(chunks[..k]), total))
    {
      assert t[k] == progress[k - 1];
    }
  }

  /**
   * The archive file exists as soon as a fresh download starts, even when the request
   * then fails; a second request for the same file therefore takes the cached path and
   * extracts whatever was written, without fetching.
   */
  lemma RetryAfterFailure(env: Env, url: string, filename: string, files: set<string>,
                          response: Response, run: ExtractorRun)
    ensures var after := FilesAfter(env, filename, files);
      var t := DownloadTrace(env, url, filename, after, response, run);
      t[0] == Send(DownloadComplete(ArchivePath(env, filename))) && forall a :: a in t ==> !a.Fetch?
  {
    CachedArchive(env, url, filename, FilesAfter(env, filename, files), response, run);
  }

  /** A successful extraction reports the archive's file name, extension included. */
  lemma CompletionNamesArchive(env: Env, filename: string, dest: string, output: seq<string>)
    requires filename != [] && '/' !in filename
    ensures var t := Install(env, ArchivePath(env, filename), dest, filename, Exits(output, Some(0)));
      t[|t| - 1] == Send(InstallComplete(filename))
  {
    BasenameOfJoin(DownloadsDir(env.home), filename);
  }

  // ---- the store's file names ---------------------------------------------------------

  /**
   * The directory a fresh download of a store game is extracted into is the game's
   * name with its whitespace runs turned into '_'. A game with an empty name
   * downloads to ".rar", which has no extension, and is extracted into `<apps>/.rar`.
   */
  lemma GameDirOfDownload(name: string)
    requires '/' !in name
    ensures name != [] ==> StripExtension(DownloadFilename(name)) == ReplaceSpaceRuns(name, '_')
    ensures name == [] ==> StripExtension(DownloadFilename(name)) == ".rar"
  {
    var r := ReplaceSpaceRuns(name, '_');
    var f := DownloadFilename(name);
    ArchiveNameParts(name);
    if name == [] {
      assert r == [];
      assert f == ".rar";
      ExtNameOfDotfile();
    } else {
      assert r != [];
      assert Basename(f) == f;
      assert ExtName(f) == f[|r|..];
      assert f[|r|..] == ".rar";
    }
  }

  lemma ArchiveNameParts(name: string)
    requires '/' !in name
    ensures var r, f := ReplaceSpaceRuns(name, '_'), DownloadFilename(name);
      f == r + ['.'] + "rar" && Basename(f) == f && LastDot(f) == Some(|r|)
  {
    NoSlashAfterReplace(name);
    FilenameParts(name);
    RarPlain();
    ArchiveOf(ReplaceSpaceRuns(name, '_'), "rar");
  }

  /** `<r>.<e>` is its own base name and its last '.' is the one before `e`. */
  lemma ArchiveOf(r: string, e: string)
    requires '/' !in r && '/' !in e && '.' !in e
    ensures Basename(r + ['.'] + e) == r + ['.'] + e
    ensures LastDot(r + ['.'] + e) == Some(|r|)
  {
    var f := r + ['.'] + e;
    assert '/' !in f;
    BasenameShape(f);
    LastDotBefore(r, e);
  }

  lemma RarPlain()
    ensures '/' !in "rar" && '.' !in "rar"
  {
  }

  lemma NoSlashAfterReplace(name: string)
    requires '/' !in name
    ensures '/' !in ReplaceSpaceRuns(name, '_')
  {
    ReplaceSpaceRunsShape(name, '_');
  }

  lemma FilenameParts(name: string)
    ensures DownloadFilename(name) == ReplaceSpaceRuns(name, '_') + ['.'] + "rar"
  {
    assert ArchiveExtension == ['.'] + "rar";
    AppendAssoc(ReplaceSpaceRuns(name, '_'), ['.'], "rar");
  }
}
