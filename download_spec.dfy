/**
 * The values an album download works on, the collaborators it consults,
 * and a pure reference definition of one run of AlbumDownloader.DownloadAsync.
 *
 * A run is deterministic once its collaborators are fixed: the file system
 * (the sets of existing directories and files), the state of the cancellation
 * token at each per-file check, whether opening each destination succeeds, and
 * what each transfer reports and how it ends. Those are the inputs below.
 */
module DownloadSpec {

  datatype Option<T> = None | Some(value: T)

  /** `string.IsNullOrEmpty` on a string that may be null. */
  predicate IsNullOrEmpty(s: Option<string>)
  {
    s == None || s == Some("")
  }

  /** The title an album gets when it has none. */
  const DefaultTitle: string := "Album"

  /** One remote file of an album: its source locator and its local name, either may be null. */
  datatype AlbumFile = AlbumFile(file: Option<string>, name: Option<string>)

  /** Whether a file has both a source locator and a name, so that it is worth downloading. */
  predicate Downloadable(f: AlbumFile)
  {
    !IsNullOrEmpty(f.file) && !IsNullOrEmpty(f.name)
  }

  /** The four notifications the downloader raises, in the order a subscriber sees them. */
  datatype Event =
    | ProgressChanged(value: int)
    | FileChanged(file: AlbumFile)
    | ErrorOccurred(message: string)
    | DownloadFinished(path: string)

  /** How the transport's transfer of one file ends. */
  datatype TransferOutcome = Completed | Cancelled | Failed(message: string)

  /** What the transport does for one file: the progress values it reports, then its outcome. */
  datatype Transfer = Transfer(reported: seq<real>, outcome: TransferOutcome)

  /**
   * The collaborators' answers for one file of the album: whether the
   * cancellation token is cancelled when the loop checks it, whether opening the
   * destination for writing succeeds, and what the transfer does.
   */
  datatype Step = Step(cancellationRequested: bool, openWriteSucceeds: bool, transfer: Transfer)

  /** The collaborators' answers for a whole run: directory creation, then one step per file. */
  datatype World = World(createDirectorySucceeds: bool, steps: seq<Step>)

  /**
   * Path joining and normalisation, left uninterpreted: the model holds
   * for every pair of functions.
   */
  datatype Paths = Paths(combine: (string, string) -> string, normalize: string -> string)
  {
    /** `NormalizePath(Path.Combine(dir, name))`. */
    function Under(dir: string, name: string): (path: string)
    {
      normalize(combine(dir, name))
    }
  }

  /** How the run's task ends: normally, by the cancellation check, or by an exception. */
  datatype TaskStatus = RanToCompletion | Canceled | Faulted

  /**
   * `Math.Round(p, MidpointRounding.ToZero)`: the integer nearest to `p` that
   * lies between 0 and `p`, that is, `p` with its fractional part cut off.
   */
  function RoundToZero(p: real): (n: int)
    ensures 0.0 <= p ==> 0 <= n && n as real <= p < n as real + 1.0
    ensures p < 0.0 ==> n <= 0 && n as real - 1.0 < p <= n as real
  {
    if 0.0 <= p then p.Floor else -((-p).Floor)
  }

  /** The values the progress handler re-emits for the values a transport reports. */
  function RoundedReports(ps: seq<real>): (ns: seq<int>)
    ensures |ns| == |ps|
    ensures forall i :: 0 <= i < |ps| ==> ns[i] == RoundToZero(ps[i])
  {
    if ps == [] then [] else [RoundToZero(ps[0])] + RoundedReports(ps[1..])
  }

  /**
   * The state of a run inside the file loop: the files that exist, the
   * synchronous events raised so far, the progress values posted by the
   * transport's progress handler (delivered at no particular point, so kept
   * as a bag), and how the run has ended, if it has.
   */
  datatype LoopState = LoopState(
    existing: set<string>,
    trace: seq<Event>,
    posted: multiset<int>,
    halted: Option<TaskStatus>)

  /** One iteration of the file loop, for file `f` of the album in directory `dir`. */
  function Visit(paths: Paths, dir: string, s: LoopState, f: AlbumFile, step: Step): (r: LoopState)
  {
    if s.halted.Some? then s
    else
      var announced := s.trace + [ProgressChanged(0), FileChanged(f)];
      if step.cancellationRequested then
        s.(trace := announced, halted := Some(Canceled))
      else if !Downloadable(f) then
        s.(trace := announced)
      else
        var target := paths.Under(dir, f.name.value);
        if target in s.existing then
          s.(trace := announced)
        else if !step.openWriteSucceeds then
          s.(trace := announced, halted := Some(Faulted))
        else
          var errors := match step.transfer.outcome
            case Failed(message) => [ErrorOccurred(message)]
            case _ => [];
          LoopState(
            s.existing + {target},
            announced + errors,
            s.posted + multiset(RoundedReports(step.transfer.reported)),
            None)
  }

  /** The file loop run over `fs`, file `i` answered by `steps[i]`. */
  function Visits(paths: Paths, dir: string, s: LoopState, fs: seq<AlbumFile>, steps: seq<Step>): (r: LoopState)
    requires |fs| <= |steps|
  {
    if fs == [] then s
    else Visit(paths, dir, Visits(paths, dir, s, fs[..|fs| - 1], steps), fs[|fs| - 1], steps[|fs| - 1])
  }

  /** The title a run uses: the album's own, or the default when it has none. */
  function EffectiveTitle(title: Option<string>): (t: string)
    ensures !IsNullOrEmpty(title) ==> Some(t) == title
    ensures IsNullOrEmpty(title) ==> t == DefaultTitle
  {
    if IsNullOrEmpty(title) then DefaultTitle else title.value
  }

  /** The directory a run downloads the album into. */
  function AlbumDirectory(paths: Paths, location: string, title: Option<string>): (dir: string)
  {
    paths.Under(location, EffectiveTitle(title))
  }

  /** Everything a run changes or produces. */
  datatype Run = Run(
    title: Option<string>,
    directories: set<string>,
    existing: set<string>,
    trace: seq<Event>,
    posted: multiset<int>,
    status: TaskStatus)

  /** The loop's state before its first iteration. */
  function Start(existing: set<string>): (s: LoopState)
  {
    LoopState(existing, [], multiset{}, None)
  }

  /**
   * One run of DownloadAsync on an album with the given title and files,
   * into `location`, against existing directories `dirs` and files `existing`.
   */
  function Download(
    paths: Paths, title: Option<string>, files: Option<seq<AlbumFile>>, location: string,
    dirs: set<string>, existing: set<string>, world: World): (r: Run)
    requires files.Some? ==> |files.value| <= |world.steps|
  {
    if files == None || files.value == [] then
      Run(title, dirs, existing, [], multiset{}, RanToCompletion)
    else
      var t := EffectiveTitle(title);
      var dir := AlbumDirectory(paths, location, title);
      if dir !in dirs && !world.createDirectorySucceeds then
        Run(Some(t), dirs, existing, [], multiset{}, Faulted)
      else
        var s := Visits(paths, dir, Start(existing), files.value, world.steps);
        match s.halted
        case Some(status) =>
          Run(Some(t), dirs + {dir}, s.existing, s.trace, s.posted, status)
        case None =>
          Run(Some(t), dirs + {dir}, s.existing, s.trace + [DownloadFinished(dir)], s.posted, RanToCompletion)
  }
}
