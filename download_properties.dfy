/**
 * What a run of DownloadAsync promises, proved about the reference run
 * DownloadSpec.Download and its file loop DownloadSpec.Visits.
 */
module DownloadProperties {
  import opened DownloadSpec

  /* ---------- The file loop ---------- */

  /** Once the loop has ended, later files change nothing: no event, no opened file. */
  lemma {:induction false} StaysHalted(paths: Paths, dir: string, s: LoopState, fs: seq<AlbumFile>, steps: seq<Step>, k: nat)
    requires k <= |fs| <= |steps|
    requires Visits(paths, dir, s, fs[..k], steps).halted.Some?
    ensures Visits(paths, dir, s, fs, steps) == Visits(paths, dir, s, fs[..k], steps)
    decreases |fs| - k
  {
    if k < |fs| {
      var shorter := fs[..|fs| - 1];
      assert shorter[..k] == fs[..k];
      StaysHalted(paths, dir, s, shorter, steps, k);
    } else {
      assert fs[..k] == fs;
    }
  }

  /** Unfolds the loop by one iteration, at file `k`. */
  lemma NextVisit(paths: Paths, dir: string, s: LoopState, fs: seq<AlbumFile>, steps: seq<Step>, k: nat)
    requires k < |fs| <= |steps|
    ensures Visits(paths, dir, s, fs[..k + 1], steps)
         == Visit(paths, dir, Visits(paths, dir, s, fs[..k], steps), fs[k], steps[k])
  {
    assert fs[..k + 1][..k] == fs[..k];
  }

  /**
   * A file whose check finds the token cancelled still gets its two events,
   * then the run ends as cancelled: no later file gets an event or is opened.
   */
  lemma CancellationCheckEndsRun(paths: Paths, dir: string, s: LoopState, fs: seq<AlbumFile>, steps: seq<Step>, k: nat)
    requires k < |fs| <= |steps|
    requires Visits(paths, dir, s, fs[..k], steps).halted == None
    requires steps[k].cancellationRequested
    ensures var before := Visits(paths, dir, s, fs[..k], steps);
      Visits(paths, dir, s, fs, steps)
        == before.(trace := before.trace + [ProgressChanged(0), FileChanged(fs[k])], halted := Some(Canceled))
  {
    NextVisit(paths, dir, s, fs, steps, k);
    StaysHalted(paths, dir, s, fs, steps, k + 1);
  }

  /**
   * A file with no source or no name, or whose destination already exists,
   * gets its two events and nothing else: it is not opened, adds no file and
   * raises no error, and the loop goes on.
   */
  lemma SkippedFileIsSilent(paths: Paths, dir: string, s: LoopState, fs: seq<AlbumFile>, steps: seq<Step>, k: nat)
    requires k < |fs| <= |steps|
    requires Visits(paths, dir, s, fs[..k], steps).halted == None
    requires !steps[k].cancellationRequested
    requires !Downloadable(fs[k]) || paths.Under(dir, fs[k].name.value) in Visits(paths, dir, s, fs[..k], steps).existing
    ensures var before := Visits(paths, dir, s, fs[..k], steps);
      Visits(paths, dir, s, fs[..k + 1], steps)
        == before.(trace := before.trace + [ProgressChanged(0), FileChanged(fs[k])])
  {
    NextVisit(paths, dir, s, fs, steps, k);
  }

  /**
   * Failing to open a destination for writing ends the run with an exception,
   * not with an error event: the file's two events are the last ones.
   */
  lemma OpenFailureIsFatal(paths: Paths, dir: string, s: LoopState, fs: seq<AlbumFile>, steps: seq<Step>, k: nat)
    requires k < |fs| <= |steps|
    requires Visits(paths, dir, s, fs[..k], steps).halted == None
    requires !steps[k].cancellationRequested && Downloadable(fs[k])
    requires paths.Under(dir, fs[k].name.value) !in Visits(paths, dir, s, fs[..k], steps).existing
    requires !steps[k].openWriteSucceeds
    ensures var before := Visits(paths, dir, s, fs[..k], steps);
      Visits(paths, dir, s, fs, steps)
        == before.(trace := before.trace + [ProgressChanged(0), FileChanged(fs[k])], halted := Some(Faulted))
  {
    NextVisit(paths, dir, s, fs, steps, k);
    StaysHalted(paths, dir, s, fs, steps, k + 1);
  }

  /**
   * A file that is transferred creates its destination whatever the transfer's
   * outcome, and the loop goes on to the next file. A failed transfer raises
   * exactly one error event, with the failure's message; a completed or
   * cancelled one raises none.
   */
  lemma TransferOutcomeReported(paths: Paths, dir: string, s: LoopState, fs: seq<AlbumFile>, steps: seq<Step>, k: nat)
    requires k < |fs| <= |steps|
    requires Visits(paths, dir, s, fs[..k], steps).halted == None
    requires !steps[k].cancellationRequested && Downloadable(fs[k])
    requires paths.Under(dir, fs[k].name.value) !in Visits(paths, dir, s, fs[..k], steps).existing
    requires steps[k].openWriteSucceeds
    ensures var before := Visits(paths, dir, s, fs[..k], steps);
      var after := Visits(paths, dir, s, fs[..k + 1], steps);
      var announced := before.trace + [ProgressChanged(0), FileChanged(fs[k])];
      && after.halted == None
      && after.existing == before.existing + {paths.Under(dir, fs[k].name.value)}
      && after.posted == before.posted + multiset(RoundedReports(steps[k].transfer.reported))
      && (steps[k].transfer.outcome.Failed? ==>
            after.trace == announced + [ErrorOccurred(steps[k].transfer.outcome.message)])
      && (!steps[k].transfer.outcome.Failed? ==> after.trace == announced)
  {
    NextVisit(paths, dir, s, fs, steps, k);
  }

  /* ---------- Shape of the event trace ---------- */

  /** The files announced by FileChanged events, in order. */
  function Announced(t: seq<Event>): (files: seq<AlbumFile>)
  {
    if t == [] then []
    else Announced(t[..|t| - 1]) + (if t[|t| - 1].FileChanged? then [t[|t| - 1].file] else [])
  }

  lemma AnnouncedSnoc(t: seq<Event>, e: Event)
    ensures Announced(t + [e]) == Announced(t) + (if e.FileChanged? then [e.file] else [])
  {
    assert (t + [e])[..|t|] == t;
  }

  /**
   * The events of the file loop come in blocks, one per file reached:
   * ProgressChanged(0), then FileChanged, then at most one ErrorOccurred.
   * Nothing else is ever raised by the loop.
   */
  ghost predicate InBlocks(t: seq<Event>)
  {
    && (forall j :: 0 <= j < |t| && t[j].ProgressChanged? ==>
          t[j].value == 0 && j + 1 < |t| && t[j + 1].FileChanged?)
    && (forall j :: 0 <= j < |t| && t[j].FileChanged? ==> 0 < j && t[j - 1] == ProgressChanged(0))
    && (forall j :: 0 <= j < |t| && t[j].ErrorOccurred? ==> 0 < j && t[j - 1].FileChanged?)
    && (forall j :: 0 <= j < |t| ==> !t[j].DownloadFinished?)
  }

  lemma InBlocksExtend(t: seq<Event>, f: AlbumFile, errors: seq<Event>)
    requires InBlocks(t)
    requires errors == [] || (|errors| == 1 && errors[0].ErrorOccurred?)
    ensures InBlocks(t + [ProgressChanged(0), FileChanged(f)] + errors)
  {
    var u := t + [ProgressChanged(0), FileChanged(f)] + errors;
    forall j | 0 <= j < |u| && u[j].ProgressChanged?
      ensures u[j].value == 0 && j + 1 < |u| && u[j + 1].FileChanged?
    {
      if j < |t| { assert u[j] == t[j] && u[j + 1] == (t + [ProgressChanged(0)])[j + 1]; }
    }
    forall j | 0 <= j < |u| && u[j].FileChanged?
      ensures 0 < j && u[j - 1] == ProgressChanged(0)
    {
      if j < |t| { assert u[j] == t[j] && u[j - 1] == t[j - 1]; }
    }
    forall j | 0 <= j < |u| && u[j].ErrorOccurred?
      ensures 0 < j && u[j - 1].FileChanged?
    {
      if j < |t| { assert u[j] == t[j] && u[j - 1] == t[j - 1]; }
    }
  }

  /** What one iteration adds to the trace of a running loop, and when it ends the loop as cancelled. */
  lemma VisitAppends(paths: Paths, dir: string, s: LoopState, f: AlbumFile, step: Step)
    requires s.halted == None
    ensures var r := Visit(paths, dir, s, f, step);
      && |s.trace| + 2 <= |r.trace| <= |s.trace| + 3
      && r.trace == s.trace + [ProgressChanged(0), FileChanged(f)] + r.trace[|s.trace| + 2..]
      && (|r.trace| == |s.trace| + 3 ==> r.trace[|s.trace| + 2].ErrorOccurred? && r.halted == None)
      && (r.halted == Some(Canceled) <==> step.cancellationRequested)
  {
  }

  /** One iteration of a running loop announces exactly its own file. */
  lemma VisitAnnounces(paths: Paths, dir: string, s: LoopState, f: AlbumFile, step: Step)
    requires s.halted == None
    ensures Announced(Visit(paths, dir, s, f, step).trace) == Announced(s.trace) + [f]
  {
    var r := Visit(paths, dir, s, f, step);
    VisitAppends(paths, dir, s, f, step);
    var announced := s.trace + [ProgressChanged(0), FileChanged(f)];
    AnnouncedSnoc(s.trace, ProgressChanged(0));
    assert s.trace + [ProgressChanged(0)] + [FileChanged(f)] == announced;
    AnnouncedSnoc(s.trace + [ProgressChanged(0)], FileChanged(f));
    var rest := r.trace[|s.trace| + 2..];
    if rest != [] {
      assert rest == [rest[0]];
      AnnouncedSnoc(announced, rest[0]);
    } else {
      assert r.trace == announced;
    }
  }

  /**
   * The events of the file loop come in blocks, one per file reached:
   * ProgressChanged(0), FileChanged, then at most one ErrorOccurred.
   */
  lemma {:induction false} LoopTraceInBlocks(paths: Paths, dir: string, existing: set<string>, fs: seq<AlbumFile>, steps: seq<Step>)
    requires |fs| <= |steps|
    ensures InBlocks(Visits(paths, dir, Start(existing), fs, steps).trace)
  {
    if fs != [] {
      var m := |fs| - 1;
      LoopTraceInBlocks(paths, dir, existing, fs[..m], steps);
      var b := Visits(paths, dir, Start(existing), fs[..m], steps);
      if b.halted == None {
        VisitAppends(paths, dir, b, fs[m], steps[m]);
        var r := Visit(paths, dir, b, fs[m], steps[m]);
        InBlocksExtend(b.trace, fs[m], r.trace[|b.trace| + 2..]);
      }
    }
  }

  /**
   * Loop state `r`, reached by running the loop over `fs`, has announced a
   * prefix of `fs`, in order and each file once, and has announced all of
   * `fs` unless it halted, and at least one file if it did.
   */
  ghost predicate ReachedInOrder(r: LoopState, fs: seq<AlbumFile>)
  {
    var n := |Announced(r.trace)|;
    && n <= |fs|
    && Announced(r.trace) == fs[..n]
    && (r.halted == None ==> n == |fs|)
    && (r.halted.Some? ==> 0 < n)
  }

  lemma ReachedInOrderStep(paths: Paths, dir: string, b: LoopState, fs: seq<AlbumFile>, f: AlbumFile, step: Step)
    requires ReachedInOrder(b, fs)
    ensures ReachedInOrder(Visit(paths, dir, b, f, step), fs + [f])
  {
    var n := |Announced(b.trace)|;
    if b.halted == None {
      VisitAnnounces(paths, dir, b, f, step);
      assert fs[..n] == fs;
      assert (fs + [f])[..n + 1] == fs + [f];
    } else {
      assert (fs + [f])[..n] == fs[..n];
    }
  }

  /**
   * Every file the loop reaches is announced once, in album order, and the
   * loop stops before the last file only when it halts.
   */
  lemma {:induction false} LoopReachesInOrder(paths: Paths, dir: string, existing: set<string>, fs: seq<AlbumFile>, steps: seq<Step>)
    requires |fs| <= |steps|
    ensures ReachedInOrder(Visits(paths, dir, Start(existing), fs, steps), fs)
  {
    if fs != [] {
      var m := |fs| - 1;
      LoopReachesInOrder(paths, dir, existing, fs[..m], steps);
      ReachedInOrderStep(paths, dir, Visits(paths, dir, Start(existing), fs[..m], steps), fs[..m], fs[m], steps[m]);
      assert fs[..m] + [fs[m]] == fs;
    }
  }

  /** The loop ends early only by cancellation or by an exception. */
  lemma {:induction false} LoopHaltsOnlyAbnormally(paths: Paths, dir: string, s: LoopState, fs: seq<AlbumFile>, steps: seq<Step>)
    requires |fs| <= |steps|
    requires s.halted == None
    ensures Visits(paths, dir, s, fs, steps).halted in {None, Some(Canceled), Some(Faulted)}
  {
    if fs != [] {
      LoopHaltsOnlyAbnormally(paths, dir, s, fs[..|fs| - 1], steps);
    }
  }

  /**
   * Of the checks loop state `r` made, one per announced file, only the last
   * can have found the token cancelled, and it did exactly when `r` was
   * cancelled.
   */
  ghost predicate CancelledAtLastCheck(r: LoopState, steps: seq<Step>)
  {
    var n := |Announced(r.trace)|;
    forall k :: 0 <= k < |steps| && k < n ==>
      (steps[k].cancellationRequested <==> r.halted == Some(Canceled) && k == n - 1)
  }

  lemma CancelledAtLastCheckStep(paths: Paths, dir: string, b: LoopState, fs: seq<AlbumFile>, f: AlbumFile, steps: seq<Step>)
    requires |fs| < |steps|
    requires ReachedInOrder(b, fs) && CancelledAtLastCheck(b, steps)
    ensures CancelledAtLastCheck(Visit(paths, dir, b, f, steps[|fs|]), steps)
  {
    if b.halted == None {
      VisitAppends(paths, dir, b, f, steps[|fs|]);
      VisitAnnounces(paths, dir, b, f, steps[|fs|]);
    }
  }

  /**
   * The loop is cancelled at the first file whose check finds the token
   * cancelled: every earlier check found it not cancelled, and a run that is
   * not cancelled found it so at every file it reached.
   */
  lemma {:induction false} LoopCancelsAtFirstCancelledCheck(paths: Paths, dir: string, existing: set<string>, fs: seq<AlbumFile>, steps: seq<Step>)
    requires |fs| <= |steps|
    ensures CancelledAtLastCheck(Visits(paths, dir, Start(existing), fs, steps), steps)
  {
    if fs != [] {
      var m := |fs| - 1;
      LoopCancelsAtFirstCancelledCheck(paths, dir, existing, fs[..m], steps);
      LoopReachesInOrder(paths, dir, existing, fs[..m], steps);
      CancelledAtLastCheckStep(paths, dir, Visits(paths, dir, Start(existing), fs[..m], steps), fs[..m], fs[m], steps);
    }
  }

  /**
   * Running state `b` faults at file `f`: the check passes, the file is
   * downloadable, its destination is missing, and opening that destination
   * fails.
   */
  ghost predicate OpenFails(paths: Paths, dir: string, b: LoopState, f: AlbumFile, step: Step)
  {
    && b.halted == None
    && !step.cancellationRequested && Downloadable(f)
    && paths.Under(dir, f.name.value) !in b.existing
    && !step.openWriteSucceeds
  }

  /** The loop, started in `s` over `fs`, faults at file `k`. */
  ghost predicate FailsToOpenAt(paths: Paths, dir: string, s: LoopState, fs: seq<AlbumFile>, steps: seq<Step>, k: nat)
    requires k < |fs| <= |steps|
  {
    OpenFails(paths, dir, Visits(paths, dir, s, fs[..k], steps), fs[k], steps[k])
  }

  /** One iteration faults exactly when the loop had already faulted or the file's open fails. */
  lemma VisitFaults(paths: Paths, dir: string, b: LoopState, f: AlbumFile, step: Step)
    ensures Visit(paths, dir, b, f, step).halted == Some(Faulted)
        <==> b.halted == Some(Faulted) || OpenFails(paths, dir, b, f, step)
  {
  }

  /** A file that fails to open its destination faults the loop, and the loop stays faulted. */
  lemma FailedOpenFaults(paths: Paths, dir: string, s: LoopState, fs: seq<AlbumFile>, steps: seq<Step>, k: nat)
    requires k < |fs| <= |steps|
    requires FailsToOpenAt(paths, dir, s, fs, steps, k)
    ensures Visits(paths, dir, s, fs, steps).halted == Some(Faulted)
  {
    NextVisit(paths, dir, s, fs, steps, k);
    VisitFaults(paths, dir, Visits(paths, dir, s, fs[..k], steps), fs[k], steps[k]);
    StaysHalted(paths, dir, s, fs, steps, k + 1);
  }

  /** A loop that faults has a file that failed to open its destination. */
  lemma {:induction false} FaultHasFailedOpen(paths: Paths, dir: string, s: LoopState, fs: seq<AlbumFile>, steps: seq<Step>)
    returns (k: nat)
    requires |fs| <= |steps|
    requires s.halted == None
    requires Visits(paths, dir, s, fs, steps).halted == Some(Faulted)
    ensures k < |fs| && FailsToOpenAt(paths, dir, s, fs, steps, k)
  {
    var m := |fs| - 1;
    var b := Visits(paths, dir, s, fs[..m], steps);
    VisitFaults(paths, dir, b, fs[m], steps[m]);
    if b.halted == Some(Faulted) {
      k := FaultHasFailedOpen(paths, dir, s, fs[..m], steps);
      assert fs[..m][..k] == fs[..k];
    } else {
      k := m;
    }
  }

  /**
   * The loop faults exactly when some file fails to open its destination;
   * a failed or cancelled transfer never ends it.
   */
  lemma LoopFaultsOnlyAtFailedOpen(paths: Paths, dir: string, s: LoopState, fs: seq<AlbumFile>, steps: seq<Step>)
    requires |fs| <= |steps|
    requires s.halted == None
    ensures Visits(paths, dir, s, fs, steps).halted == Some(Faulted)
        <==> exists k :: 0 <= k < |fs| && FailsToOpenAt(paths, dir, s, fs, steps, k)
  {
    if Visits(paths, dir, s, fs, steps).halted == Some(Faulted) {
      var k := FaultHasFailedOpen(paths, dir, s, fs, steps);
    }
    forall k | 0 <= k < |fs| && FailsToOpenAt(paths, dir, s, fs, steps, k)
      ensures Visits(paths, dir, s, fs, steps).halted == Some(Faulted)
    {
      FailedOpenFaults(paths, dir, s, fs, steps, k);
    }
  }

  /**
   * A loop whose every check finds the token not cancelled and whose every
   * destination opens runs through all files, whatever the transfers do.
   */
  lemma {:induction false} NoHaltWithoutCause(paths: Paths, dir: string, s: LoopState, fs: seq<AlbumFile>, steps: seq<Step>)
    requires |fs| <= |steps|
    requires s.halted == None
    requires forall k :: 0 <= k < |fs| ==> !steps[k].cancellationRequested && steps[k].openWriteSucceeds
    ensures Visits(paths, dir, s, fs, steps).halted == None
  {
    if fs != [] {
      NoHaltWithoutCause(paths, dir, s, fs[..|fs| - 1], steps);
    }
  }

  /**
   * Only files the loop could download are ever created: the files that exist
   * after the loop are those that existed before, plus destinations of
   * downloadable files of the album.
   */
  function Destinations(paths: Paths, dir: string, fs: seq<AlbumFile>): (d: set<string>)
    ensures forall k :: 0 <= k < |fs| && Downloadable(fs[k]) ==> paths.Under(dir, fs[k].name.value) in d
    ensures forall p :: p in d ==>
      exists k :: 0 <= k < |fs| && Downloadable(fs[k]) && p == paths.Under(dir, fs[k].name.value)
  {
    if fs == [] then {}
    else
      var f := fs[|fs| - 1];
      Destinations(paths, dir, fs[..|fs| - 1]) + (if Downloadable(f) then {paths.Under(dir, f.name.value)} else {})
  }

  lemma {:induction false} ExistingGrowsOnlyByDestinations(paths: Paths, dir: string, s: LoopState, fs: seq<AlbumFile>, steps: seq<Step>)
    requires |fs| <= |steps|
    ensures var r := Visits(paths, dir, s, fs, steps);
      s.existing <= r.existing <= s.existing + Destinations(paths, dir, fs)
  {
    if fs != [] {
      ExistingGrowsOnlyByDestinations(paths, dir, s, fs[..|fs| - 1], steps);
    }
  }

  /* ---------- The whole run ---------- */

  /** An album with no file list, or an empty one, is left alone: no event, no directory, no title. */
  lemma EmptyAlbumIsNoOp(paths: Paths, title: Option<string>, files: Option<seq<AlbumFile>>, location: string,
                         dirs: set<string>, existing: set<string>, world: World)
    requires files == None || files == Some([])
    ensures var r := Download(paths, title, files, location, dirs, existing, world);
      r == Run(title, dirs, existing, [], multiset{}, RanToCompletion)
  {
  }

  /**
   * An album without a title gets the default one, and keeps it even when the
   * run then fails; the album directory is made from the title so defaulted.
   * The directory is created exactly when it is missing, and a failure to
   * create it ends the run before any event.
   */
  lemma AlbumDirectoryCreatedFirst(paths: Paths, title: Option<string>, files: seq<AlbumFile>, location: string,
                                   dirs: set<string>, existing: set<string>, world: World)
    requires files != [] && |files| <= |world.steps|
    ensures var r := Download(paths, title, Some(files), location, dirs, existing, world);
      var dir := paths.Under(location, if IsNullOrEmpty(title) then "Album" else title.value);
      && r.title == (if IsNullOrEmpty(title) then Some("Album") else title)
      && AlbumDirectory(paths, location, title) == dir
      && (dir !in dirs && !world.createDirectorySucceeds ==>
            r.status == Faulted && r.directories == dirs && r.existing == existing
            && r.trace == [] && r.posted == multiset{})
      && (dir in dirs || world.createDirectorySucceeds ==> r.directories == dirs + {dir})
  {
  }

  /**
   * DownloadFinished is raised at most once, only as the last event, and
   * exactly when the run completes; a cancelled or faulted run never raises it.
   */
  lemma FinishedOnlyAtEnd(paths: Paths, title: Option<string>, files: seq<AlbumFile>, location: string,
                          dirs: set<string>, existing: set<string>, world: World)
    requires files != [] && |files| <= |world.steps|
    ensures var r := Download(paths, title, Some(files), location, dirs, existing, world);
      var dir := AlbumDirectory(paths, location, title);
      && (r.status == RanToCompletion <==> |r.trace| > 0 && r.trace[|r.trace| - 1] == DownloadFinished(dir))
      && (forall j :: 0 <= j < |r.trace| && r.trace[j].DownloadFinished? ==>
            j == |r.trace| - 1 && r.status == RanToCompletion)
  {
    var dir := AlbumDirectory(paths, location, title);
    var r := Download(paths, title, Some(files), location, dirs, existing, world);
    if dir in dirs || world.createDirectorySucceeds {
      LoopTraceInBlocks(paths, dir, existing, files, world.steps);
      LoopHaltsOnlyAbnormally(paths, dir, Start(existing), files, world.steps);
      var s := Visits(paths, dir, Start(existing), files, world.steps);
      if s.halted == None {
        assert r.trace == s.trace + [DownloadFinished(dir)];
        assert forall j :: 0 <= j < |s.trace| ==> r.trace[j] == s.trace[j] && !r.trace[j].DownloadFinished?;
      } else {
        assert r.trace == s.trace;
        assert |s.trace| > 0 ==> !s.trace[|s.trace| - 1].DownloadFinished?;
      }
    }
  }

  /**
   * A run faults exactly when the album directory is missing and cannot be
   * created, or when a file fails to open its destination. A run whose
   * directory exists or can be created, whose checks all find the token not
   * cancelled and whose destinations all open, completes: failed and
   * cancelled transfers do not stop it.
   */
  lemma RunFaultsOrCompletes(paths: Paths, title: Option<string>, files: seq<AlbumFile>, location: string,
                             dirs: set<string>, existing: set<string>, world: World)
    requires files != [] && |files| <= |world.steps|
    ensures var r := Download(paths, title, Some(files), location, dirs, existing, world);
      var dir := AlbumDirectory(paths, location, title);
      var directoryFails := dir !in dirs && !world.createDirectorySucceeds;
      && (r.status == Faulted <==>
            directoryFails
            || exists k :: 0 <= k < |files| && FailsToOpenAt(paths, dir, Start(existing), files, world.steps, k))
      && (!directoryFails
          && (forall k :: 0 <= k < |files| ==>
                !world.steps[k].cancellationRequested && world.steps[k].openWriteSucceeds)
          ==> r.status == RanToCompletion)
  {
    var dir := AlbumDirectory(paths, location, title);
    if dir in dirs || world.createDirectorySucceeds {
      LoopFaultsOnlyAtFailedOpen(paths, dir, Start(existing), files, world.steps);
      if forall k :: 0 <= k < |files| ==> !world.steps[k].cancellationRequested && world.steps[k].openWriteSucceeds {
        NoHaltWithoutCause(paths, dir, Start(existing), files, world.steps);
      }
    }
  }

  /**
   * A loop that is cancelled has announced files 0 to k, where the check for
   * file k was the first to find the token cancelled; its last event is that
   * file's FileChanged, and it created no file at or after file k.
   */
  lemma LoopCanceledAtCheck(paths: Paths, dir: string, existing: set<string>, fs: seq<AlbumFile>, steps: seq<Step>)
    requires |fs| <= |steps|
    requires Visits(paths, dir, Start(existing), fs, steps).halted == Some(Canceled)
    ensures var r := Visits(paths, dir, Start(existing), fs, steps);
      var n := |Announced(r.trace)|;
      && 0 < n <= |fs|
      && Announced(r.trace) == fs[..n]
      && steps[n - 1].cancellationRequested
      && (forall k :: 0 <= k < n - 1 ==> !steps[k].cancellationRequested)
      && r.trace[|r.trace| - 1] == FileChanged(fs[n - 1])
      && r.existing <= existing + Destinations(paths, dir, fs[..n - 1])
  {
    var r := Visits(paths, dir, Start(existing), fs, steps);
    LoopReachesInOrder(paths, dir, existing, fs, steps);
    LoopCancelsAtFirstCancelledCheck(paths, dir, existing, fs, steps);
    var n := |Announced(r.trace)|;
    var k := n - 1;
    var s := Start(existing);
    if Visits(paths, dir, s, fs[..k], steps).halted.Some? {
      // Halting before file k would have announced fewer than n files.
      StaysHalted(paths, dir, s, fs, steps, k);
      LoopReachesInOrder(paths, dir, existing, fs[..k], steps);
      assert false;
    } else {
      CancellationCheckEndsRun(paths, dir, s, fs, steps, k);
      ExistingGrowsOnlyByDestinations(paths, dir, s, fs[..k], steps);
    }
  }

  /**
   * A run that is cancelled at the check for file `k` raises events for files
   * 0 to k only, creates no file at or after file k, and does not finish.
   */
  lemma CanceledRunStopsAtCheck(paths: Paths, title: Option<string>, files: seq<AlbumFile>, location: string,
                                dirs: set<string>, existing: set<string>, world: World)
    requires files != [] && |files| <= |world.steps|
    ensures var r := Download(paths, title, Some(files), location, dirs, existing, world);
      var dir := AlbumDirectory(paths, location, title);
      r.status == Canceled ==>
        var n := |Announced(r.trace)|;
        && 0 < n <= |files|
        && Announced(r.trace) == files[..n]
        && world.steps[n - 1].cancellationRequested
        && (forall k :: 0 <= k < n - 1 ==> !world.steps[k].cancellationRequested)
        && r.trace[|r.trace| - 1] == FileChanged(files[n - 1])
        && r.existing <= existing + Destinations(paths, dir, files[..n - 1])
  {
    var dir := AlbumDirectory(paths, location, title);
    if (dir in dirs || world.createDirectorySucceeds)
       && Visits(paths, dir, Start(existing), files, world.steps).halted == Some(Canceled) {
      LoopCanceledAtCheck(paths, dir, existing, files, world.steps);
    }
  }

  /**
   * A cancellation that surfaces inside the last file's transfer is swallowed:
   * no error is raised and the run still finishes normally with
   * DownloadFinished.
   */
  lemma CancelledLastTransferStillFinishes(paths: Paths, title: Option<string>, files: seq<AlbumFile>, location: string,
                                           dirs: set<string>, existing: set<string>, world: World)
    requires files != [] && |files| <= |world.steps|
    requires var dir := AlbumDirectory(paths, location, title);
      var k := |files| - 1;
      var before := Visits(paths, dir, Start(existing), files[..k], world.steps);
      && (dir in dirs || world.createDirectorySucceeds)
      && before.halted == None
      && !world.steps[k].cancellationRequested && Downloadable(files[k])
      && paths.Under(dir, files[k].name.value) !in before.existing
      && world.steps[k].openWriteSucceeds
      && world.steps[k].transfer.outcome == Cancelled
    ensures var dir := AlbumDirectory(paths, location, title);
      var k := |files| - 1;
      var before := Visits(paths, dir, Start(existing), files[..k], world.steps);
      var r := Download(paths, title, Some(files), location, dirs, existing, world);
      && r.status == RanToCompletion
      && r.trace == before.trace + [ProgressChanged(0), FileChanged(files[k]), DownloadFinished(dir)]
  {
    var dir := AlbumDirectory(paths, location, title);
    var k := |files| - 1;
    TransferOutcomeReported(paths, dir, Start(existing), files, world.steps, k);
    assert files[..k + 1] == files;
  }

  /* ---------- Progress values ---------- */

  /**
   * A percentage below 100 is never rounded up to 100, and exactly 100
   * stays 100.
   */
  lemma PercentNeverRoundedUp(p: real)
    requires 0.0 <= p <= 100.0
    ensures 0 <= RoundToZero(p) <= 100
    ensures RoundToZero(p) == 100 <==> p == 100.0
  {
  }

  /* ---------- Two complete runs ---------- */

  /**
   * A first run over an untitled album of two files, the second without a
   * source: the directory is created under the default title, only the first
   * file is downloaded, and the run finishes in that directory.
   */
  lemma FirstRunExample(paths: Paths, root: string, progress: seq<real>)
    ensures var a := AlbumFile(Some("http://x/a.bin"), Some("a.bin"));
      var b := AlbumFile(Some(""), Some("b.bin"));
      var ok := Step(false, true, Transfer(progress, Completed));
      var dir := paths.Under(root, "Album");
      var r := Download(paths, Some(""), Some([a, b]), root, {}, {}, World(true, [ok, ok]));
      && r.title == Some("Album")
      && r.directories == {dir}
      && r.existing == {paths.Under(dir, "a.bin")}
      && r.trace == [ProgressChanged(0), FileChanged(a), ProgressChanged(0), FileChanged(b), DownloadFinished(dir)]
      && r.posted == multiset(RoundedReports(progress))
      && r.status == RanToCompletion
  {
    var a := AlbumFile(Some("http://x/a.bin"), Some("a.bin"));
    var b := AlbumFile(Some(""), Some("b.bin"));
    var ok := Step(false, true, Transfer(progress, Completed));
    var dir := paths.Under(root, "Album");
    var steps := [ok, ok];
    var s0 := Start({});
    var s1 := LoopState({paths.Under(dir, "a.bin")}, [ProgressChanged(0), FileChanged(a)],
                        multiset(RoundedReports(progress)), None);
    assert Visits(paths, dir, s0, [a], steps) == s1 by {
      assert [a][..0] == [];
      assert Downloadable(a);
    }
    var s2 := s1.(trace := s1.trace + [ProgressChanged(0), FileChanged(b)]);
    assert Visits(paths, dir, s0, [a, b], steps) == s2 by {
      assert [a, b][..1] == [a];
      assert !Downloadable(b);
    }
    assert EffectiveTitle(Some("")) == "Album";
  }

  /** Running again once the first file exists skips it and still finishes. */
  lemma RerunExample(paths: Paths, root: string, progress: seq<real>)
    ensures var a := AlbumFile(Some("http://x/a.bin"), Some("a.bin"));
      var b := AlbumFile(Some(""), Some("b.bin"));
      var ok := Step(false, true, Transfer(progress, Completed));
      var dir := paths.Under(root, "Album");
      var existing := {paths.Under(dir, "a.bin")};
      var r := Download(paths, Some("Album"), Some([a, b]), root, {dir}, existing, World(false, [ok, ok]));
      && r.directories == {dir}
      && r.existing == existing
      && r.trace == [ProgressChanged(0), FileChanged(a), ProgressChanged(0), FileChanged(b), DownloadFinished(dir)]
      && r.posted == multiset{}
      && r.status == RanToCompletion
  {
    var a := AlbumFile(Some("http://x/a.bin"), Some("a.bin"));
    var b := AlbumFile(Some(""), Some("b.bin"));
    var ok := Step(false, true, Transfer(progress, Completed));
    var dir := paths.Under(root, "Album");
    var existing := {paths.Under(dir, "a.bin")};
    var steps := [ok, ok];
    var s0 := Start(existing);
    var s1 := Visit(paths, dir, s0, a, ok);
    assert s1 == s0.(trace := [ProgressChanged(0), FileChanged(a)]);
    assert Visits(paths, dir, s0, [a], steps) == s1 by { assert [a][..0] == []; }
    var s2 := Visit(paths, dir, s1, b, ok);
    assert s2 == s1.(trace := s1.trace + [ProgressChanged(0), FileChanged(b)]);
    assert Visits(paths, dir, s0, [a, b], steps) == s2 by { assert [a, b][..1] == [a]; }
  }

}
