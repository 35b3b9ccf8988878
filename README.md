# Album download orchestration, modelled in Dafny

This project models `AlbumDownloader.DownloadAsync` of SCD (`src/SCD.Core/Downloader.cs`). The method downloads the files of an album, one at a time, into a directory named after the album. For each file it decides whether to skip it, transfer it, report an error or stop the run, and it raises events for subscribers as it goes.

The collaborators are not modelled. These are the transport (`HttpClientHelper.HttpClient.DownloadAsync`), the file system, path joining and normalisation, and the cancellation token. Their answers become the inputs of a run:

- `World.createDirectorySucceeds` says whether `Directory.CreateDirectory` succeeds.
- There is one `Step` per file. It gives the token's state when the loop checks it, whether `File.OpenWrite` succeeds, and the transfer: the progress values it reports and how it ends (`Completed`, `Cancelled` or `Failed(message)`).
- The file system is two sets: existing directories and existing files.
- `Path.Combine` and `PathUtilities.NormalizePath` are the two function-typed fields of `Paths`. They stay uninterpreted, so every result holds for any path functions.

Three modules:

- `DownloadSpec` (`download_spec.dfy`) holds the values and a pure reference run. `Visit` is one iteration of the `foreach` loop, `Visits` is the loop, and `Download` is the whole method. `RoundToZero` is the progress handler's rounding.
- `Downloader` (`downloader.dfy`) is the imperative model. `Album` (the title may be rewritten), `FileSystem` and `AlbumDownloader` are classes. `AlbumDownloader` holds the event channels: `trace` is the ordered list of synchronously raised events, and `posted` is the bag of progress values the transport's `Progress<double>` handler re-emits. `DownloadAsync` changes the album's title, the file system and the channels. Its postcondition ties the new state to `DownloadSpec.Download`. The loop is `VisitFiles`, and its body is `VisitFile`.
- `DownloadProperties` (`download_properties.dfy`) holds what the method promises, proved as lemmas about the reference run.

The run's result is the task's final status: `RanToCompletion`, `Canceled` (the check at line 38 throws) or `Faulted` (creating the directory or opening a file throws).

Where the code does something a reader might not expect, the model follows the code:

- A missing title is written back into the caller's album (line 26). It is not defaulted into a local copy.
- A cancellation raised inside a transfer is swallowed (lines 58-59). The run only stops at the next file's check. So if the last file's transfer is cancelled, the run still raises `DownloadFinished` and completes normally (`CancelledLastTransferStillFinishes`).
- A failure of `File.OpenWrite` (line 48) is outside the `try`, so it ends the run with an exception. It does not become an error event.
- The progress handler only truncates the value it is given (line 13). Scaling a fraction to a percentage happens in the transport, which is not part of this model.
- The destination file is created before the transfer. After a failed or cancelled transfer it therefore counts as existing, and a later run skips it.

## Model

| member | source | states |
|---|---|---|
| `DownloadSpec.Downloadable` | src/SCD.Core/Downloader.cs:40-41 | Reference definition, no contract of its own: a file is worth downloading when both its locator and its name are neither null nor empty. |
| `DownloadSpec.AlbumDirectory` | src/SCD.Core/Downloader.cs:28 | Reference definition, no contract of its own: the album directory is the normalised join of the location and the effective title. |
| `DownloadSpec.Visit` | src/SCD.Core/Downloader.cs:35-68 | Reference definition of one iteration, no contract of its own: two announcing events, then the cancellation check, the skip tests, the open, and the transfer's outcome. A halted state is left alone. |
| `DownloadSpec.Visits` | src/SCD.Core/Downloader.cs:33-69 | Reference definition of the `foreach` loop, no contract of its own: `Visit` applied to each file in album order, file i answered by step i. |
| `DownloadSpec.Download` | src/SCD.Core/Downloader.cs:20-72 | Reference definition of the whole run, no contract of its own: the empty-album return, the title default, directory creation, the loop, and DownloadFinished when the loop did not halt. |
| `DownloadSpec.RoundToZero` | src/SCD.Core/Downloader.cs:13 | A progress value is re-emitted as its truncation toward zero. For p ≥ 0 the result n is the integer with n ≤ p < n + 1, so it is never rounded up. For p < 0, n - 1 < p ≤ n. |
| `DownloadSpec.RoundedReports` | src/SCD.Core/Downloader.cs:13 | The function maps each reported value, in order, to its truncation toward zero. The run adds these values to the bag `posted`, because the progress handler's delivery order is not guaranteed. |
| `DownloadSpec.EffectiveTitle` | src/SCD.Core/Downloader.cs:25-26 | A null or empty title becomes "Album". Any other title is kept. |
| `Downloader.AlbumDownloader.DownloadAsync` | src/SCD.Core/Downloader.cs:20-72 | The album's new title, the directories and files that now exist, the events appended to the channels and the task's status are exactly those of the reference run `Download` on the old state. Nothing else changes. |
| `Downloader.AlbumDownloader.VisitFiles` | src/SCD.Core/Downloader.cs:33-69 | The loop over the album's files leaves the files, events and posted progress of the reference loop `Visits`. It stops with the status of the first file that halts the run, or with none. |
| `Downloader.AlbumDownloader.VisitFile` | src/SCD.Core/Downloader.cs:35-68 | One iteration changes the files, events and posted progress exactly as `Visit` does, and reports whether it ended the run. |
| `DownloadProperties.StaysHalted` | src/SCD.Core/Downloader.cs:38-48 | Once the check throws or opening a file throws, no later file gets an event, is opened or is created. |
| `DownloadProperties.CancellationCheckEndsRun` | src/SCD.Core/Downloader.cs:35-38 | A file whose check finds the token cancelled still gets ProgressChanged(0) and FileChanged. The run then ends as cancelled, with those two events last and no file created. |
| `DownloadProperties.SkippedFileIsSilent` | src/SCD.Core/Downloader.cs:40-46 | A file with a null or empty locator or name, or whose normalised destination exists, gets only its two announcing events. It adds no file and no error, and the loop goes on. |
| `DownloadProperties.OpenFailureIsFatal` | src/SCD.Core/Downloader.cs:48 | If opening the destination fails, the run faults after the file's two events. No error event is raised and nothing later happens. |
| `DownloadProperties.TransferOutcomeReported` | src/SCD.Core/Downloader.cs:48-65 | A transferred file's destination exists afterwards, whatever the outcome. Its reported progress is posted, truncated. A failure adds exactly one ErrorOccurred with the failure's message. Completion or cancellation adds none. The loop continues. |
| `DownloadProperties.LoopTraceInBlocks` | src/SCD.Core/Downloader.cs:33-65 | The loop's events come in blocks, one per file: ProgressChanged(0), then FileChanged, then at most one ErrorOccurred. The loop never raises DownloadFinished. |
| `DownloadProperties.LoopReachesInOrder` | src/SCD.Core/Downloader.cs:33-38 | The files announced are a prefix of the album's files, in album order, each once. All files are announced unless the run halts, and a halted run has announced at least one file. |
| `DownloadProperties.LoopCancelsAtFirstCancelledCheck` | src/SCD.Core/Downloader.cs:38 | Among the files reached, the token was found cancelled only at the last one, and exactly when the run ended as cancelled. |
| `DownloadProperties.LoopHaltsOnlyAbnormally` | src/SCD.Core/Downloader.cs:38-48 | The loop only ends early as cancelled or faulted. |
| `DownloadProperties.LoopFaultsOnlyAtFailedOpen` | src/SCD.Core/Downloader.cs:38-65 | The loop faults exactly when some file it reaches passes the check, is downloadable, has a missing destination, and fails to open it. A failed or cancelled transfer never ends the loop. |
| `DownloadProperties.NoHaltWithoutCause` | src/SCD.Core/Downloader.cs:33-69 | If every check finds the token not cancelled and every destination opens, the loop runs through all files, whatever the transfers do. |
| `DownloadProperties.ExistingGrowsOnlyByDestinations` | src/SCD.Core/Downloader.cs:40-48 | The loop never removes a file. The only files it adds are the normalised destinations of files that have both a locator and a name (`Destinations` is exactly that set). |
| `DownloadProperties.EmptyAlbumIsNoOp` | src/SCD.Core/Downloader.cs:22-23 | An album whose file list is null or empty gets no event, no directory and no title change, and the run completes. |
| `DownloadProperties.AlbumDirectoryCreatedFirst` | src/SCD.Core/Downloader.cs:25-31 | The title is defaulted to "Album" and stays defaulted. The album directory is the normalised join of the location and that title. It is added exactly when it was missing. If creating it fails, the run faults before any event or posted progress value, and changes no file. |
| `DownloadProperties.FinishedOnlyAtEnd` | src/SCD.Core/Downloader.cs:38-71 | For a non-empty album, DownloadFinished(albumDir) is the last event exactly when the run completes. It is raised at most once, and never by a cancelled or faulted run. |
| `DownloadProperties.RunFaultsOrCompletes` | src/SCD.Core/Downloader.cs:28-71 | For a non-empty album the run faults exactly when the album directory is missing and cannot be created, or when some file fails to open its destination. If the directory exists or can be created, every check passes and every destination opens, the run completes. |
| `DownloadProperties.LoopCanceledAtCheck` | src/SCD.Core/Downloader.cs:33-48 | A cancelled loop announced files 0..n-1 in order. The check at file n-1 was the first to find the token cancelled. Its last event is FileChanged(file n-1). It created no file at or after file n-1. |
| `DownloadProperties.CanceledRunStopsAtCheck` | src/SCD.Core/Downloader.cs:33-38 | A cancelled run announced files 0..n-1 in order. Only the check at file n-1 found the token cancelled. Its last event is FileChanged(file n-1). No file at or after file n-1 was created. |
| `DownloadProperties.CancelledLastTransferStillFinishes` | src/SCD.Core/Downloader.cs:54-71 | A cancellation inside the last file's transfer is swallowed. No error is raised, DownloadFinished follows that file's two events, and the run completes normally. |
| `DownloadProperties.PercentNeverRoundedUp` | src/SCD.Core/Downloader.cs:13 | A reported percentage in [0, 100] is re-emitted in [0, 100]. It is 100 only for exactly 100. |
| `DownloadProperties.FirstRunExample` | src/SCD.Core/Downloader.cs:20-72 | An untitled album with two files, the second without a source, run against an empty file system. It creates `<root>/Album`, downloads only the first file, announces both files and finishes in that directory. |
| `DownloadProperties.RerunExample` | src/SCD.Core/Downloader.cs:40-46 | Running the same album again when the first file exists creates nothing and transfers nothing. It still announces both files and finishes. |

## Left out

- The transport (`HttpClientHelper.HttpClient.DownloadAsync`, line 52) is a network client. Each file's transfer is an input: the progress values it reports and its outcome. Any scaling to a percentage happens inside it.
- Writing and disposing the `FileStream` (line 48) is I/O. Only its visible effect is kept: opening creates the destination, or fails and faults the run. Whether opening fails is an input, whatever the cause (permissions, a directory at that path, a sharing violation).
- `GC.Collect()` (line 68) has no observable meaning.
- `async`/`await` and `Progress<T>` dispatch. The handler posts its values through a synchronization context, so they are not ordered against the synchronous events or against each other. The model keeps them as a bag, `posted`, and proves no ordering about them.
- The static multicast events (lines 15-18) become appends to one trace, whether or not anyone subscribes. An exception thrown by a subscriber is not modelled.
- `Math.Round` on `double` is modelled on exact reals. IEEE rounding of the input is not modelled.
- `Path.Combine` and `PathUtilities.NormalizePath` are uninterpreted. `PathUtilities` is not part of this model.
- `Directory.CreateDirectory` creates missing parent directories too. Only the album directory is recorded. Whether creation succeeds is an input, so a file already standing at that path is a failure only when the input says so.
- The cancellation token's state at each check is an input, and the model does not require it to stay cancelled once cancelled. Checks after the first cancelled one never run (`StaysHalted`), so nothing needs to constrain them.
- A transfer's `Cancelled` outcome is not tied to the next check's token state, because the HTTP client also throws `OperationCanceledException` when it times out. Such an outcome is swallowed without `ErrorOccurred`, and the loop goes on (`TransferOutcomeReported`).
- Null references are not modelled: a null album, a null `downloadLocation` (rejected by `Path.Combine`) and null elements in `album.Files`. `AlbumFile` and `Album` come from `SCD.Core.DataModels`, which is not part of this model. Here an album is an object, its file list may be null, and a file's locator and name may each be null.
