/**
 * AlbumDownloader.DownloadAsync as the loop it is, over mutable state: the
 * caller's album (whose title the run may default), the file system, and the
 * downloader's event channels. Its postcondition ties every piece of the new
 * state to the reference run DownloadSpec.Download.
 */
module Downloader {
  import opened DownloadSpec
  import DownloadProperties

  /** The caller's album. */
  class Album {
    var title: Option<string>
    var files: Option<seq<AlbumFile>>

    constructor (title: Option<string>, files: Option<seq<AlbumFile>>)
      ensures this.title == title && this.files == files
    {
      this.title := title;
      this.files := files;
    }
  }

  /** The directories and files that exist. */
  class FileSystem {
    var directories: set<string>
    var files: set<string>

    constructor (directories: set<string>, files: set<string>)
      ensures this.directories == directories && this.files == files
    {
      this.directories := directories;
      this.files := files;
    }
  }

  /**
   * The downloader's event channels as its subscribers see them: `trace` holds
   * the events raised synchronously by the run, in order; `posted` holds the
   * progress values the transport's progress handler re-emits, which arrive
   * through a synchronization context at no fixed point of the trace.
   */
  class AlbumDownloader {
    var trace: seq<Event>
    var posted: multiset<int>

    constructor ()
      ensures trace == [] && posted == multiset{}
    {
      trace := [];
      posted := multiset{};
    }

    method DownloadAsync(album: Album, downloadLocation: string, fs: FileSystem, paths: Paths, world: World)
      returns (status: TaskStatus)
      requires album.files.Some? ==> |album.files.value| <= |world.steps|
      modifies this, album`title, fs
      ensures var r := Download(paths, old(album.title), album.files, downloadLocation,
                                old(fs.directories), old(fs.files), world);
        && album.title == r.title
        && fs.directories == r.directories
        && fs.files == r.existing
        && trace == old(trace) + r.trace
        && posted == old(posted) + r.posted
        && status == r.status
    {
      if album.files == None || |album.files.value| == 0 {
        return RanToCompletion;
      }
      if IsNullOrEmpty(album.title) {
        album.title := Some(DefaultTitle);
      }
      var dir := paths.Under(downloadLocation, album.title.value);
      if dir !in fs.directories {
        if !world.createDirectorySucceeds {
          return Faulted;
        }
        fs.directories := fs.directories + {dir};
      }

      var halted := VisitFiles(dir, album.files.value, fs, paths, world.steps);
      match halted {
        case Some(stopped) =>
          return stopped;
        case None =>
      }
      trace := trace + [DownloadFinished(dir)];
      status := RanToCompletion;
    }

    /**
     * The `foreach` loop of DownloadAsync over the album's files, downloading
     * into directory `dir`: it either runs to the end or stops with the status
     * the run ends with.
     */
    method VisitFiles(dir: string, files: seq<AlbumFile>, fs: FileSystem, paths: Paths, steps: seq<Step>)
      returns (halted: Option<TaskStatus>)
      requires |files| <= |steps|
      modifies this, fs`files
      ensures var s := Visits(paths, dir, Start(old(fs.files)), files, steps);
        && fs.files == s.existing
        && trace == old(trace) + s.trace
        && posted == old(posted) + s.posted
        && halted == s.halted
    {
      ghost var start := Start(fs.files);
      ghost var trace0, posted0 := trace, posted;
      ghost var done := start;
      var i := 0;
      while i < |files|
        invariant i <= |files|
        invariant done == Visits(paths, dir, start, files[..i], steps)
        invariant done.halted == None
        invariant fs.files == done.existing
        invariant trace == trace0 + done.trace
        invariant posted == posted0 + done.posted
      {
        DownloadProperties.NextVisit(paths, dir, start, files, steps, i);
        halted := VisitFile(dir, files[i], fs, paths, steps[i], done, trace0, posted0);
        done := Visit(paths, dir, done, files[i], steps[i]);
        if halted.Some? {
          DownloadProperties.StaysHalted(paths, dir, start, files, steps, i + 1);
          assert files[..|files|] == files;
          return;
        }
        i := i + 1;
      }
      assert files[..|files|] == files;
      halted := None;
    }

    /**
     * One iteration of the `foreach` loop: announce the file, check for
     * cancellation, skip the file or open its destination and transfer it.
     * `s` is the loop's state so far, `trace0` and `posted0` what the event
     * channels held before the loop.
     */
    method VisitFile(dir: string, file: AlbumFile, fs: FileSystem, paths: Paths, step: Step,
                     ghost s: LoopState, ghost trace0: seq<Event>, ghost posted0: multiset<int>)
      returns (halted: Option<TaskStatus>)
      requires s.halted == None
      requires fs.files == s.existing && trace == trace0 + s.trace && posted == posted0 + s.posted
      modifies this, fs`files
      ensures var r := Visit(paths, dir, s, file, step);
        && fs.files == r.existing
        && trace == trace0 + r.trace
        && posted == posted0 + r.posted
        && halted == r.halted
    {
      trace := trace + [ProgressChanged(0)];
      trace := trace + [FileChanged(file)];

      if step.cancellationRequested {
        return Some(Canceled);
      }
      if IsNullOrEmpty(file.file) || IsNullOrEmpty(file.name) {
        return None;
      }
      var filePath := paths.Under(dir, file.name.value);
      if filePath in fs.files {
        return None;
      }
      if !step.openWriteSucceeds {
        return Some(Faulted);
      }
      fs.files := fs.files + {filePath};
      posted := posted + multiset(RoundedReports(step.transfer.reported));
      match step.transfer.outcome {
        case Failed(message) =>
          trace := trace + [ErrorOccurred(message)];
        case Cancelled =>
        case Completed =>
      }
      halted := None;
    }
  }
}
