# java-copier in Dafny

A model of the core of java-copier, a file-staging pipeline in Java. Files travel between stage
directories by atomic rename: incoming → landed → accepted / rejected / failed → uploaded / dropped →
completed, and manifests travel along a parallel chain (incoming → landed → uploaded / dropped / failed →
registered / completed). Every component runs one scan-decide-move pass per tick. The repository has
several mutually inconsistent variants of most components. Each variant is modelled on its own, one
Dafny module per Java class, and they are never merged.

## How the model is built

- **Filesystem (`Fs`).** Paths are a stage plus subfolders plus a name. Entries are raw bytes or a parsed
  document: a manifest record, a size map, a path listing, an uber manifest, text. The filesystem is a
  class `FileSystem` whose methods are the JDK calls the code makes:
  - `Files.move` with ATOMIC_MOVE, with or without REPLACE_EXISTING;
  - `createDirectories`;
  - writes, `deleteIfExists` and `copy`;
  - `Files.list`, a top-level scan, and `Files.walk`, a recursive scan.

  Each method is specified by a function on a `Disk` value. Refused renames and writes come from a
  `Faults` oracle fixed for the filesystem. The order in which a scan returns paths is returned as a ghost
  sequence, and the specification quantifies over it.
- **The three move helpers.**
  - `FileUtils.moveFileAtomically` creates the parents and replaces an existing target.
  - `FileOperations.moveFileAtomically` does the same but swallows the error.
  - `Util.atomicMove` creates the parents but does not replace an existing target.
- **One tick per component.** A tick is a `method` with the source's loop. Its `ensures` ties the new
  filesystem, and the component's counters or remembered sizes, to a ghost fold (`Pass`) of a per-entry
  step function over the scanned order. Lemmas then state what the pass does to each entry: where it
  lands, what stays, what no other entry's step can undo.
- **Stateful components are classes.** Their fields are those the source updates: previous size maps,
  `fileCount`, `lastManifestTime`, `next`.
- **Java arithmetic.** Truncating `/` and `%` on longs, and signed bytes, are written out in `JavaLang`.
- **External values are parameters.**
  - Clock readings, `Files.size`, `getLastModifiedTime` and mapped buffers are Option-valued inputs, with
    None standing for the IOException.
  - A mapped buffer is tied to the file it maps by `Fs.ReadsEntry`: a successful read of a byte file
    yields that file's bytes. The routing lemmas that state the folder by the file's own bytes require it.
  - Upload outcomes are an oracle.
  - Interrupts are an oracle keyed by entry and attempt.
  - Formatted instants and the line separator are inputs.

## Model

| member | source | states |
|---|---|---|
| IncomingFileMonitoring.CurrentFileMap | src/main/java/org/example/copier/IncomingFileMonitoring.java:49-61 | keyed by the names of the files listed directly in incoming; an entry is positive exactly when Files.size read a positive size, and is -1 when it failed |
| IncomingFileMonitoring.Monitor.constructor | src/main/java/org/example/copier/IncomingFileMonitoring.java:21-25 | the remembered sizes start empty |
| IncomingFileMonitoring.Monitor.ProcessIncomingFiles | src/main/java/org/example/copier/IncomingFileMonitoring.java:45-90 | a failed listing changes nothing; otherwise the stable files are moved in map order and the current sizes replace the remembered ones |
| IncomingFileMonitoring.StableFileLands | src/main/java/org/example/copier/IncomingFileMonitoring.java:66-83 | a file seen twice with the same positive size ends up in landed under its name with its content, unless the rename is refused |
| IncomingFileMonitoring.UnstableFileStays | src/main/java/org/example/copier/IncomingFileMonitoring.java:70-73 | a file that is new, changed in size or empty stays in incoming unchanged |
| IncomingFileMonitoring.FirstScanMovesNothing | src/main/java/org/example/copier/IncomingFileMonitoring.java:21-70 | the first scan after start-up only records sizes |
| IncomingFileMonitoringComponent.CurrentFiles | src/main/java/org/example/copier/IncomingFileMonitoringComponent.java:27-39 | keyed by every walked file; an entry is non-negative exactly when the size could be read |
| IncomingFileMonitoringComponent.Component.constructor | src/main/java/org/example/copier/IncomingFileMonitoringComponent.java:15-20 | no sizes are remembered at start |
| IncomingFileMonitoringComponent.Component.Call | src/main/java/org/example/copier/IncomingFileMonitoringComponent.java:23-72 | a failed walk reports (0, 1) and changes nothing; otherwise the filesystem is the pass over the map, processed counts the forks, failed is 1 when a fork failed, and the sizes are remembered only when none failed |
| IncomingFileMonitoringComponent.MoveIfDue | src/main/java/org/example/copier/IncomingFileMonitoringComponent.java:45-61 | one map entry: the filesystem, the processed count and the failure flag afterwards are the entry's step, which forks a move and counts it only when the size is readable and unchanged |
| IncomingFileMonitoringComponent.MoveDueFiles | src/main/java/org/example/copier/IncomingFileMonitoringComponent.java:42-63 | the loop over the map: the filesystem, processed and failed end as the pass over the entries from no forks and no failure |
| IncomingFileMonitoringComponent.StepFrame | src/main/java/org/example/copier/IncomingFileMonitoringComponent.java:47-59 | an entry's step touches no path but that file and its landed counterpart, and none at all when the file is not due |
| IncomingFileMonitoringComponent.DueStep | src/main/java/org/example/copier/IncomingFileMonitoringComponent.java:49-54 | a due file whose move is allowed lands whole under landed, leaves incoming, and the failure flag is unchanged |
| IncomingFileMonitoringComponent.ProcessedCountsDueFiles | src/main/java/org/example/copier/IncomingFileMonitoringComponent.java:45-61 | processed equals the number of files with a readable size equal to the remembered one, whether or not their moves succeed |
| IncomingFileMonitoringComponent.DueFileLands | src/main/java/org/example/copier/IncomingFileMonitoringComponent.java:47-54 | a due file reaches the same relative path under landed with its content when nothing is in the way |
| IncomingFileMonitoringComponent.UnobstructedCallSucceeds | src/main/java/org/example/copier/IncomingFileMonitoringComponent.java:49-66 | when every due move can succeed, no fork fails |
| IncomingFileMonitoringComponent.FirstCallMovesNothing | src/main/java/org/example/copier/IncomingFileMonitoringComponent.java:15-48 | the first call moves nothing |
| IncomingFileMonitor.CurrentMap | src/main/java/org/example/copier/IncomingFileMonitor.java:30-42 | keyed by every walked file; an unreadable size is recorded as 0, so a 0 entry means empty or unreadable |
| IncomingFileMonitor.Tick | src/main/java/org/example/copier/IncomingFileMonitor.java:28-75 | a failed walk keeps the previous map and changes nothing; otherwise the due files are moved in map order and the current map is returned as the next previous map |
| IncomingFileMonitor.DueFileLands | src/main/java/org/example/copier/IncomingFileMonitor.java:45-68 | a file with the same size as on the previous pass reaches the same relative path under landed, replacing what is there, unless the rename is refused |
| IncomingFileMonitor.ChangedFileStays | src/main/java/org/example/copier/IncomingFileMonitor.java:47-55 | a new or resized file stays in incoming unchanged |
| IncomingFileMonitor.StepFrame | src/main/java/org/example/copier/IncomingFileMonitor.java:45-68 | a step touches no path but that file and its landed counterpart, and none at all when the file is not due |
| IncomingFileMonitor.FirstPassMovesNothing | src/main/java/org/example/copier/IncomingFileMonitor.java:24-51 | the first pass only records sizes |
| FileMonitor.CurrentSizes | src/main/java/org/example/copier/FileMonitor.java:21-33 | keyed by the names of the files directly in incoming; -1 exactly when the size could not be read |
| FileMonitor.Tick | src/main/java/org/example/copier/FileMonitor.java:18-57 | a failed listing keeps the previous sizes and changes nothing; otherwise the due files are moved in map order and the current sizes become the previous ones |
| FileMonitor.DueFileLands | src/main/java/org/example/copier/FileMonitor.java:36-47 | a file with an unchanged size (even -1) lands in landed under its name with its content when nothing is in the way |
| FileMonitor.ChangedFileStays | src/main/java/org/example/copier/FileMonitor.java:39 | a new or resized file stays in incoming unchanged |
| FileMonitoringComponent.Tick | src/main/java/org/example/copier/FileMonitoringComponent.java:15-36 | a failed listing changes nothing; otherwise the filesystem is the pass over the listing, which stops at the first exception |
| FileMonitoringComponent.StoppedPassChangesNothing | src/main/java/org/example/copier/FileMonitoringComponent.java:19-33 | once a size read or a move has thrown, the rest of the listing is not looked at |
| FileMonitoringComponent.UnstableFileStays | src/main/java/org/example/copier/FileMonitoringComponent.java:20-23 | a file whose two size reads differ stays in incoming unchanged |
| FileMonitoringComponent.ClearPassMovesStableFiles | src/main/java/org/example/copier/FileMonitoringComponent.java:19-28 | when nothing throws, every file whose two reads agree is in landed under its name with its content and gone from incoming |
| FileFiltering.HeaderIsFile | src/main/java/org/example/copier/FileFiltering.java:28-44 | accepted exactly when the content starts with the four bytes "FILE"; a shorter buffer underflows and is not accepted |
| FileFiltering.Destination | src/main/java/org/example/copier/FileFiltering.java:79-109 | accepted when the mapped content passes the filter, rejected when it fails it, failed exactly when the file could not be opened or mapped |
| FileFiltering.ProcessFile | src/main/java/org/example/copier/FileFiltering.java:73-114 | the filesystem after one file is the step that moves it to its destination by name, replacing, with a failed move dropped |
| FileFiltering.ProcessLandedFiles | src/main/java/org/example/copier/FileFiltering.java:65-71 | a failed listing changes nothing; otherwise the filesystem is the pass over the listing of landed |
| FileFiltering.FileIsRouted | src/main/java/org/example/copier/FileFiltering.java:68-104 | every landed file ends up, with its content, in the folder the bytes read for it select, unless the rename is refused |
| FileFiltering.RoutedByContent | src/main/java/org/example/copier/FileFiltering.java:68-109 | when the bytes read are the file's own, a landed byte file ends in accepted exactly when it starts with "FILE", in rejected exactly when it is readable and does not, in failed exactly when it cannot be read, holding those bytes |
| FileFiltering.StepFrame | src/main/java/org/example/copier/FileFiltering.java:73-114 | moving one landed file touches no path whose name differs from that file's |
| FileFiltering.RefusedFileStays | src/main/java/org/example/copier/FileFiltering.java:100-104 | a file whose rename is refused stays in landed unchanged |
| FileFilteringComponent.AnalyzeFile | src/main/java/org/example/copier/FileFilteringComponent.java:42-55 | None exactly when the file cannot be mapped or is empty; true exactly when the first byte is even, false exactly when it is odd |
| FileFilteringComponent.Tick | src/main/java/org/example/copier/FileFilteringComponent.java:19-39 | a failed listing changes nothing; otherwise the filesystem is the pass over the listing, which stops at the first failed move |
| FileFilteringComponent.StoppedPassChangesNothing | src/main/java/org/example/copier/FileFilteringComponent.java:23-37 | after a move has thrown, the rest of the listing is left alone |
| FileFilteringComponent.ReachedFileIsRouted | src/main/java/org/example/copier/FileFilteringComponent.java:23-31 | a file reached by the pass whose move succeeds ends up, with its content, in accepted, rejected or failed as analyzeFile decides on the bytes read for it, and later files do not disturb it |
| FileFilteringComponent.ReachedFileRoutedByContent | src/main/java/org/example/copier/FileFilteringComponent.java:23-55 | when analyzeFile maps the bytes the file holds at its turn, a routed byte file ends in accepted exactly when its first byte is even, in rejected exactly when it is odd, in failed exactly when it is empty or unreadable, holding those bytes |
| FileFilteringComponent.OtherStepKeepsRouted | src/main/java/org/example/copier/FileFilteringComponent.java:23-31 | moving another landed file leaves a routed file routed, with its content |
| FileFilteringComponent.PassSplits | src/main/java/org/example/copier/FileFilteringComponent.java:23-31 | the pass over a listing is the pass up to the k-th file, its step, then the pass over the rest |
| FileFilter.FirstByteEven | src/main/java/org/example/copier/FileFilter.java:21 | None exactly for an empty buffer, whose first byte cannot be read; otherwise true exactly when the first byte is even |
| FileFilter.Tick | src/main/java/org/example/copier/FileFilter.java:23-51 | a missing landed folder changes nothing; otherwise the filesystem is the pass over the listed landed files in listing order |
| FileFilter.StepRoutes | src/main/java/org/example/copier/FileFilter.java:27-43 | a landed file goes to accepted only when the bytes read for it have an even first byte, to rejected only with an odd one, never to either when they are empty, lands whole at its target when it moves, and stays untouched when both moves fail |
| FileFilter.FileReachesOutcome | src/main/java/org/example/copier/FileFilter.java:25-44 | every listed file that has somewhere to go, by the bytes read for it and the folders' state, ends there with its content, and no other file's processing undoes that |
| FileFilter.ReachesOutcomeByContent | src/main/java/org/example/copier/FileFilter.java:21-44 | when the bytes read are the file's own, a byte file ends in accepted only with an even first byte, in rejected only with an odd one, never in either when empty, holding those bytes |
| FileFilter.StepFrame | src/main/java/org/example/copier/FileFilter.java:25-44 | processing one landed file touches no path whose name differs from that file's |
| FileFilterComponent.AnalyzeFile | src/main/java/org/example/copier/FileFilterComponent.java:72-78 | every file is accepted |
| FileFilterComponent.Tick | src/main/java/org/example/copier/FileFilterComponent.java:28-62 | a missing landed folder changes nothing; otherwise the filesystem is the pass over the walked landed files |
| FileFilterComponent.RejectedIsUnreachable | src/main/java/org/example/copier/FileFilterComponent.java:36-42 | since every file is accepted, a pass never adds, removes or changes anything under rejected |
| FileFilterComponent.FileIsRouted | src/main/java/org/example/copier/FileFilterComponent.java:31-54 | a walked file lands whole at the same relative path under accepted, or under failed when that move is refused |
| FileFilterComponent.FilterOne | src/main/java/org/example/copier/FileFilterComponent.java:34-56 | the filesystem after one fork is the fork's step on that file |
| FileFilterComponent.StepFrame | src/main/java/org/example/copier/FileFilterComponent.java:34-56 | a fork touches no path but its own file and that file's paths under accepted and failed |
| FileFilterComponent.OwnStep | src/main/java/org/example/copier/FileFilterComponent.java:36-53 | a landed file lands whole under accepted, or under failed when that move is refused, and leaves landed |
| FileUploading.ObjectKey | src/main/java/org/example/copier/FileUploading.java:66 | the object name is "files/uploaded/" followed by exactly the file name |
| FileUploading.TotalBackoffIsQuadratic | src/main/java/org/example/copier/FileUploading.java:71 | n failed attempts sleep 2+4+…+2n = n(n+1) seconds in all |
| FileUploading.Retry | src/main/java/org/example/copier/FileUploading.java:59-77 | attempts never exceed the retry limit (unless they started above it); a run that neither succeeded nor was interrupted used the whole limit; an already-set flag ends in interruption or success |
| FileUploading.UploadFile | src/main/java/org/example/copier/FileUploading.java:55-96 | the filesystem and the interrupt flag after one file are the uploadFile step from before |
| FileUploading.ProcessAcceptedFiles | src/main/java/org/example/copier/FileUploading.java:47-53 | a missing accepted folder changes nothing; otherwise the pass over the listed files in listing order, threading the interrupt flag |
| FileUploading.SuccessOnAttempt | src/main/java/org/example/copier/FileUploading.java:62-81 | the first successful attempt k within the limit ends the retries after k attempts and sends the file to uploaded |
| FileUploading.ExhaustedIsDropped | src/main/java/org/example/copier/FileUploading.java:62-85 | retryLimit failed uninterrupted attempts send the file to dropped |
| FileUploading.NoRetriesIsDropped | src/main/java/org/example/copier/FileUploading.java:62-85 | a retry limit of zero or less makes no attempt and drops the file |
| FileUploading.InterruptedBackoff | src/main/java/org/example/copier/FileUploading.java:69-89 | an interrupt during the backoff after attempt k sends the file to failed when k is below the limit, to dropped when it is the last one |
| FileUploading.FlagSetAllowsOneAttempt | src/main/java/org/example/copier/FileUploading.java:62-75 | with the interrupt flag already set, a file gets exactly one upload attempt, then goes to uploaded, dropped or failed by that attempt |
| FileUploading.ReachedFileIsRouted | src/main/java/org/example/copier/FileUploading.java:51-95 | the k-th listed file, when its move is not refused, lands whole at the destination its retries chose, and later files do not disturb it |
| FileUploading.StepFrame | src/main/java/org/example/copier/FileUploading.java:55-96 | uploading one file touches no path whose name differs from that file's |
| FileUploading.OwnStep | src/main/java/org/example/copier/FileUploading.java:79-95 | a file whose move is allowed lands whole at the destination its retries chose and leaves accepted |
| FileUploading.PassSplits | src/main/java/org/example/copier/FileUploading.java:47-53 | the pass over a listing is the pass up to the k-th file, its step, then the pass over the rest |
| FileUploader.Retry | src/main/java/org/example/copier/FileUploader.java:21-44 | attempts stay within the retry limit; nothing changes unless the upload move succeeds, and then the file is in uploaded; a run that neither uploaded nor returned on an interrupt used the whole limit |
| FileUploader.UploadWithRetries | src/main/java/org/example/copier/FileUploader.java:21-44 | the filesystem, the uploaded flag and the early return after the retry loop are those of the retry run |
| FileUploader.Tick | src/main/java/org/example/copier/FileUploader.java:16-60 | a missing accepted folder changes nothing; otherwise the pass over the listed files in listing order, threading the interrupt flag |
| FileUploader.UploadedFileLands | src/main/java/org/example/copier/FileUploader.java:28-45 | an uploaded file is moved whole into uploaded and is not dropped |
| FileUploader.PassSplits | src/main/java/org/example/copier/FileUploader.java:18-53 | the pass over a listing is the pass up to the k-th file, its handler, then the pass over the rest |
| FileUploader.StepFrame | src/main/java/org/example/copier/FileUploader.java:20-53 | one file's handler touches no path whose name differs from that file's, and no directory |
| FileUploader.ReachedFileLands | src/main/java/org/example/copier/FileUploader.java:18-53 | over a whole pass, a listed file whose handler uploads it ends in uploaded under its name with the content it had before the pass, and is gone from accepted, whatever the other files' handlers do |
| FileUploader.BlockedFileIsDropped | src/main/java/org/example/copier/FileUploader.java:23-51 | when the move into uploaded keeps failing, every remaining attempt is used and nothing changes during the retries; from the first attempt, the handler then renames the file to dropped under its name |
| FileUploader.InterruptedFileStays | src/main/java/org/example/copier/FileUploader.java:31-42 | an interrupt inside the retry loop leaves the file where it is and sets the interrupt flag |
| FileUploader.FlagSetDropsUntriedFile | src/main/java/org/example/copier/FileUploader.java:23-47 | once the flag is set, a later file is moved to dropped without any upload attempt |
| FileUploader.InterruptDropsNextFile | src/main/java/org/example/copier/FileUploader.java:20-53 | two accepted files, the first interrupted during its upload: the second is dropped untried |
| FileUploader.IntendedPassStopsOnInterrupt | src/main/java/org/example/copier/FileUploader.java:31-33 | corrected pass: once interrupted, no further file is touched |
| FileUploader.IntendedDropsOnlyExhausted | src/main/java/org/example/copier/FileUploader.java:45-48 | corrected step: a file reaches dropped exactly when the flag was clear, it was not uploaded, the retries were used up and the rename to dropped was allowed, and it arrives with its content |
| FileUploadingComponent.Destination | src/main/java/org/example/copier/FileUploadingComponent.java:33-46 | dropped exactly when the file was last modified more than an hour ago; uploaded exactly when it is recent and the upload succeeds; failed exactly when the time cannot be read or a recent upload fails |
| FileUploadingComponent.Run | src/main/java/org/example/copier/FileUploadingComponent.java:30-50 | a missing accepted folder changes nothing; otherwise the pass over the walked files |
| FileUploadingComponent.OneHourOldIsNotDropped | src/main/java/org/example/copier/FileUploadingComponent.java:36 | a file exactly one hour old is still uploaded; one millisecond older is dropped |
| FileUploadingComponent.FileIsRouted | src/main/java/org/example/copier/FileUploadingComponent.java:32-45 | a walked file whose name no other walked file shares lands whole in the folder its age and upload decide |
| FileUploadingComponent.StepFrame | src/main/java/org/example/copier/FileUploadingComponent.java:32-45 | a fork touches no path whose name differs from its own file's |
| FileUploadingComponent.SameNameOverwrites | src/main/java/org/example/copier/FileUploadingComponent.java:37-41 | two files of the same name from different subfolders routed to the same folder leave only the later one there |
| FileUploadComponent.UploadOne | src/main/java/org/example/copier/FileUploadComponent.java:38-66 | the filesystem after one fork is the upload step on that file |
| FileUploadComponent.Tick | src/main/java/org/example/copier/FileUploadComponent.java:31-75 | a missing accepted folder changes nothing; otherwise the pass over the walked files with the cutoff one hour before now |
| FileUploadComponent.StepFrame | src/main/java/org/example/copier/FileUploadComponent.java:38-66 | a fork touches no path but its own file and that file's paths under dropped, gcs, uploaded and failed |
| FileUploadComponent.OtherStepKeepsCopies | src/main/java/org/example/copier/FileUploadComponent.java:38-66 | a fork for another file leaves this file's uploaded and GCS copies alone |
| FileUploadComponent.OldFileIsDroppedUncopied | src/main/java/org/example/copier/FileUploadComponent.java:41-46 | a file older than the cutoff moves whole to dropped at its relative path, with no GCS copy made |
| FileUploadComponent.UploadedImpliesCopied | src/main/java/org/example/copier/FileUploadComponent.java:49-53 | a file only reaches uploaded after its content has been copied to the GCS folder |
| FileUploadComponent.FailedCopyGoesToFailed | src/main/java/org/example/copier/FileUploadComponent.java:51-60 | a refused GCS copy sends the file to failed, and uploaded is not touched |
| FileUploadComponent.YoungFileIsUploaded | src/main/java/org/example/copier/FileUploadComponent.java:35-54 | a recent walked file whose copy and move succeed ends in uploaded and in the GCS folder with its content |
| FileUploadComponent.ToFailedFrame | src/main/java/org/example/copier/FileUploadComponent.java:55-60 | sending a file to failed touches no path but the file and its failed counterpart |
| FileUploadComponent.YoungStep | src/main/java/org/example/copier/FileUploadComponent.java:49-54 | a recent file whose copy and move succeed ends in uploaded and in the GCS folder with its content, and leaves accepted |
| FileUploadComponent.CopiedThenMoved | src/main/java/org/example/copier/FileUploadComponent.java:51-60 | after the GCS copy, whatever the move does, a file in uploaded has its content there and in the GCS folder |
| FileUtils.MoveFileError | src/main/java/org/example/copier/FileUtils.java:25-33 | moveFileAtomically throws exactly when the source is missing or the rename is refused; with the source present the only error is a refused rename, never an existing target |
| FileUtils.MovedFile | src/main/java/org/example/copier/FileUtils.java:25-33 | the target's parent folders exist afterwards; on success the target holds the source's entry unchanged and the source is gone; on failure no entry changes; entries other than source and target are untouched |
| FileUtils.MoveFileAtomically | src/main/java/org/example/copier/FileUtils.java:25-33 | the error and the new filesystem are those of MoveFileError and MovedFile |
| FileUtils.MoveIsLocal | src/main/java/org/example/copier/FileUtils.java:25-33 | the error and what the move leaves at the source and at any other path depend only on what the source and that path held before |
| FileUtils.MoveOverwrites | src/main/java/org/example/copier/FileUtils.java:32 | with REPLACE_EXISTING an existing target is overwritten by the source's entry and the source is removed |
| FileUtils.IsOlderThan | src/main/java/org/example/copier/FileUploadComponent.java:41 | an unreadable time is an error; otherwise true exactly when the last modification lies strictly before the cutoff |
| FileUtils.CopyFileError | src/main/java/org/example/copier/FileUploadComponent.java:51 | the copy fails exactly when the source is missing or the write of the target is refused |
| FileUtils.CopiedFile | src/main/java/org/example/copier/FileUploadComponent.java:51 | the target's parent folders exist afterwards; on success the target holds the source's entry and nothing else changes; on failure no entry changes |
| FileUtils.CopyFile | src/main/java/org/example/copier/FileUploadComponent.java:51 | the error and the new filesystem are those of CopyFileError and CopiedFile |
| FileOperations.MoveFileAtomically | src/main/java/org/example/copier/FileOperations.java:11-18 | returns no error to the caller; the filesystem afterwards is exactly FileUtils.MovedFile, so a failed rename leaves the source in place |
| Util.AtomicMoveError | src/main/java/org/example/copier/Util.java:13-17 | atomicMove throws exactly when the source is missing, or it differs from an existing target (file already exists), or the rename is refused |
| Util.AtomicMoved | src/main/java/org/example/copier/Util.java:13-17 | the target's parent folders exist afterwards; on success the target holds the source's entry and the source is gone; on failure no entry changes; other entries are untouched |
| Util.AtomicMove | src/main/java/org/example/copier/Util.java:13-17 | the error and the new filesystem are those of AtomicMoveError and AtomicMoved |
| Util.UploadToGcs | src/main/java/org/example/copier/Util.java:19-26 | reports success for every input |
| ManifestUploading.UploadedName | src/main/java/org/example/copier/ManifestUploading.java:79 | the temporary manifest's name is "uploaded_" followed by exactly the manifest's name |
| ManifestUploading.ObjectKey | src/main/java/org/example/copier/ManifestUploading.java:86 | the object name is "manifests/incoming/" followed by the temporary manifest's name |
| ManifestUploading.UploadedFiles | src/main/java/org/example/copier/ManifestUploading.java:74-76 | keeps exactly the listed paths that contain "files/uploaded" |
| ManifestUploading.UploadedFilesKeepsOrder | src/main/java/org/example/copier/ManifestUploading.java:74-76 | the filter distributes over concatenation, so the kept paths stay in their listed order |
| ManifestUploading.Retry | src/main/java/org/example/copier/ManifestUploading.java:88-105 | attempts stay within the retry limit; a success was an accepted upload on the last attempt; a run that neither succeeded nor was interrupted used the whole limit; an already-set flag ends in interruption or success |
| ManifestUploading.Destination | src/main/java/org/example/copier/ManifestUploading.java:110-120 | uploaded exactly on success; dropped exactly when unsuccessful with the limit used up; failed exactly when unsuccessful before the limit |
| ManifestUploading.UploadWithRetries | src/main/java/org/example/copier/ManifestUploading.java:88-105 | the attempt count, success and interruption are those of the retry run |
| ManifestUploading.ProcessManifest | src/main/java/org/example/copier/ManifestUploading.java:64-138 | the filesystem and interrupt flag after one manifest are the processManifest step from before |
| ManifestUploading.ProcessManifests | src/main/java/org/example/copier/ManifestUploading.java:54-62 | a missing manifests-landed folder changes nothing; otherwise the pass over the listed entries in listing order |
| ManifestUploading.OtherFileIsSkipped | src/main/java/org/example/copier/ManifestUploading.java:58-59 | an entry whose name does not end in ".json" is left alone |
| ManifestUploading.UnparsableManifestFails | src/main/java/org/example/copier/ManifestUploading.java:68-133 | a manifest that cannot be read moves whole to the failed folder without an upload |
| ManifestUploading.ParsedManifestIsRouted | src/main/java/org/example/copier/ManifestUploading.java:68-126 | a readable manifest ends at the destination its retries chose, and the temporary file is gone |
| ManifestUploading.PassSplits | src/main/java/org/example/copier/ManifestUploading.java:57-61 | the pass over a listing is the pass up to the k-th entry, its handling, then the pass over the rest |
| ManifestUploading.StepFrame | src/main/java/org/example/copier/ManifestUploading.java:64-138 | handling one manifest touches only the manifest, its temporary file and the paths with its name outside the working directory, and only adds directories |
| ManifestUploading.ListedManifestIsRouted | src/main/java/org/example/copier/ManifestUploading.java:57-61 | over a whole pass, a listed readable manifest ends with its content where the outcome rule sends it, under the interrupt flag the earlier manifests left, and it and its temporary file are gone, whatever the other manifests' handling does |
| ManifestUploading.RefusedUploadIsDropped | src/main/java/org/example/copier/ManifestUploading.java:91-116 | refused uninterrupted uploads use the whole retry limit and send the manifest to dropped |
| ManifestUploading.InterruptRouting | src/main/java/org/example/copier/ManifestUploading.java:97-120 | an interrupt in the first backoff ends after one attempt: dropped when the limit is one, failed otherwise |
| ManifestUploader.Retry | src/main/java/org/example/copier/ManifestUploader.java:23-47 | attempts stay within the retry limit; nothing changes unless the manifest parsed and its move succeeded, and then it is in manifests-uploaded; a run that neither uploaded nor returned used the whole limit |
| ManifestUploader.UploadWithRetries | src/main/java/org/example/copier/ManifestUploader.java:23-47 | the filesystem, the uploaded flag and the early return are those of the retry run |
| ManifestUploader.Tick | src/main/java/org/example/copier/ManifestUploader.java:18-63 | a missing manifests-landed folder changes nothing; otherwise the pass over the listed manifests in listing order, threading the interrupt flag |
| ManifestUploader.UploadedManifestLands | src/main/java/org/example/copier/ManifestUploader.java:31-48 | an uploaded manifest moves whole to manifests-uploaded under its name and is not dropped |
| ManifestUploader.PassSplits | src/main/java/org/example/copier/ManifestUploader.java:20-56 | the pass over a listing is the pass up to the k-th manifest, its handler, then the pass over the rest |
| ManifestUploader.StepFrame | src/main/java/org/example/copier/ManifestUploader.java:22-56 | one manifest's handler touches no path whose name differs from that manifest's, and no directory |
| ManifestUploader.ReachedManifestLands | src/main/java/org/example/copier/ManifestUploader.java:20-56 | over a whole pass, a listed manifest whose handler uploads it ends in manifests-uploaded under its name with the content it had before the pass, and is gone from manifests-landed, whatever the other handlers do |
| ManifestUploader.CorruptManifestIsDropped | src/main/java/org/example/copier/ManifestUploader.java:25-54 | a manifest that cannot be parsed uses every remaining attempt and nothing changes during the retries; from the first attempt, the handler then renames it to manifests-dropped under its name |
| ManifestUploader.InterruptedManifestStays | src/main/java/org/example/copier/ManifestUploader.java:34-44 | an interrupt inside the retry loop leaves the manifest where it is and sets the interrupt flag |
| ManifestUploader.FlagSetDropsUntriedManifest | src/main/java/org/example/copier/ManifestUploader.java:25-50 | once the flag is set, a later manifest is moved to manifests-dropped without any attempt |
| ManifestUploader.InterruptDropsNextManifest | src/main/java/org/example/copier/ManifestUploader.java:22-56 | two landed manifests, the first interrupted during its upload: the second is dropped untried |
| ManifestUploader.IntendedPassStopsOnInterrupt | src/main/java/org/example/copier/ManifestUploader.java:34-36 | corrected pass: once interrupted, no further manifest is touched |
| ManifestUploader.IntendedDropsOnlyExhausted | src/main/java/org/example/copier/ManifestUploader.java:48-50 | corrected step: a manifest reaches manifests-dropped exactly when the flag was clear, it was not uploaded, the retries were used up and the rename was allowed, and it arrives with its content |
| ManifestUploadingComponent.AgedIsOneFullHour | src/main/java/org/example/copier/ManifestUploadingComponent.java:47 | a manifest counts as aged exactly when at least one whole hour separates its last modification from now |
| ManifestUploadingComponent.ExistingFiles | src/main/java/org/example/copier/ManifestUploadingComponent.java:54-56 | keeps exactly the entries whose path exists |
| ManifestUploadingComponent.ExistingFilesKeepsOrder | src/main/java/org/example/copier/ManifestUploadingComponent.java:54-56 | the filter distributes over concatenation, so the kept entries stay in their listed order |
| ManifestUploadingComponent.TryUpload | src/main/java/org/example/copier/ManifestUploadingComponent.java:45-65 | the filesystem and whether the try block threw are those of the try-block model |
| ManifestUploadingComponent.Upload | src/main/java/org/example/copier/ManifestUploadingComponent.java:44-78 | the filesystem and failure flag after one fork are the fork's step, including the move to failed on an exception |
| ManifestUploadingComponent.Call | src/main/java/org/example/copier/ManifestUploadingComponent.java:36-88 | a missing manifests-landed folder changes nothing and reports 0 processed, 1 failed; otherwise the filesystem is the pass over the walked manifests, processed is their number and failed is 1 exactly when some fork threw |
| ManifestUploadingComponent.AgedManifestIsDropped | src/main/java/org/example/copier/ManifestUploadingComponent.java:46-50 | an aged manifest moves whole to manifests-dropped without a failure and without writing the GCP copy |
| ManifestUploadingComponent.FreshManifestIsUploaded | src/main/java/org/example/copier/ManifestUploadingComponent.java:52-64 | a recent readable manifest moves whole to manifests-uploaded, after a copy holding only its existing entries and a fresh timestamp is written under gcp/manifests_incoming |
| ManifestUploadingComponent.PassSplits | src/main/java/org/example/copier/ManifestUploadingComponent.java:43-80 | the forks of a call are the forks up to the k-th manifest, its fork, then the rest |
| ManifestUploadingComponent.StepFrame | src/main/java/org/example/copier/ManifestUploadingComponent.java:44-78 | a fork touches no path whose name differs from its manifest's |
| ManifestUploadingComponent.EarlierForksKeep | src/main/java/org/example/copier/ManifestUploadingComponent.java:43-80 | the forks before the k-th leave every path with the k-th manifest's name as it was, when no other walked manifest has that name |
| ManifestUploadingComponent.PassDropsAgedManifest | src/main/java/org/example/copier/ManifestUploadingComponent.java:43-80 | over a whole call, an aged walked manifest whose name no other shares ends in manifests-dropped under its name with its content, and its gcp copy path is as it was before the call |
| ManifestUploadingComponent.PassUploadsFreshManifest | src/main/java/org/example/copier/ManifestUploadingComponent.java:43-80 | over a whole call, a recent readable walked manifest whose name no other shares ends in manifests-uploaded under its name with its content, and gcp/manifests_incoming holds its copy with the entries that existed when its fork ran and its fork's timestamp |
| ManifestUploadingComponent.UnparsableManifestFails | src/main/java/org/example/copier/ManifestUploadingComponent.java:52-76 | a recent manifest that cannot be read moves to manifests-failed and marks the call failed |
| ManifestUploadingComponent.FailureIsSticky | src/main/java/org/example/copier/ManifestUploadingComponent.java:76-85 | once a fork has failed, the call reports failure whatever the later forks do |
| ManifestUploadComponent.UploadedLines | src/main/java/org/example/copier/ManifestUploadComponent.java:52-53 | keeps exactly the lines that contain "uploaded" |
| ManifestUploadComponent.UploadedLinesKeepOrder | src/main/java/org/example/copier/ManifestUploadComponent.java:52-53 | the filter distributes over concatenation, so the kept lines stay in their original order |
| ManifestUploadComponent.UploadedTextLength | src/main/java/org/example/copier/ManifestUploadComponent.java:52-54 | the joined text is the kept lines with one separator between neighbours and none at the end |
| ManifestUploadComponent.UploadedListingIsKeptWhole | src/main/java/org/example/copier/ManifestUploadComponent.java:52-53 | a listing of paths in files/uploaded passes the filter unchanged |
| ManifestUploadComponent.TryUpload | src/main/java/org/example/copier/ManifestUploadComponent.java:41-64 | the filesystem and whether the try block threw are those of the try-block model |
| ManifestUploadComponent.Tick | src/main/java/org/example/copier/ManifestUploadComponent.java:35-87 | a missing manifests-landed folder changes nothing; otherwise the pass over the walked manifests with the cutoff one hour before now |
| ManifestUploadComponent.OldManifestIsDroppedUnread | src/main/java/org/example/copier/ManifestUploadComponent.java:43-48 | a manifest older than the cutoff moves whole to manifests-dropped at its relative path, and nothing is written to the GCS folder |
| ManifestUploadComponent.UploadedImpliesWritten | src/main/java/org/example/copier/ManifestUploadComponent.java:51-62 | a manifest reaches manifests-uploaded only after it was read and its filtered, joined lines were written to the GCS folder at the same relative path |
| ManifestUploadComponent.TryBlockUploadedImpliesWritten | src/main/java/org/example/copier/ManifestUploadComponent.java:41-64 | the try block puts a manifest in manifests-uploaded only without throwing, after reading it and writing its filtered, joined lines to the GCS folder |
| ManifestUploadComponent.TryBlockEarlyExit | src/main/java/org/example/copier/ManifestUploadComponent.java:43-51 | an old manifest, one whose time cannot be read or one whose lines cannot be read never reaches manifests-uploaded |
| ManifestUploadComponent.TryBlockWrites | src/main/java/org/example/copier/ManifestUploadComponent.java:51-62 | a recent readable manifest reaches manifests-uploaded only together with its GCS text |
| ManifestUploadComponent.UnreadableManifestFails | src/main/java/org/example/copier/ManifestUploadComponent.java:51-71 | a recent manifest whose lines cannot be read moves whole to manifests-failed |
| ManifestUploadComponent.StepFrame | src/main/java/org/example/copier/ManifestUploadComponent.java:39-82 | a fork changes no path that another manifest's fork owns (same relative path, any stage) |
| ManifestUploadComponent.StepIsLocal | src/main/java/org/example/copier/ManifestUploadComponent.java:39-82 | what a fork leaves at any path depends only on the manifest's entry and on what that path held before |
| ManifestUploadComponent.TryBlockIsLocal | src/main/java/org/example/copier/ManifestUploadComponent.java:41-64 | what the try block leaves at the manifest and at any path depends only on what those two held before |
| ManifestUploadComponent.ForkIsIsolated | src/main/java/org/example/copier/ManifestUploadComponent.java:38-84 | failures are isolated per manifest: over a whole pass, each path a walked manifest owns ends as that manifest's fork alone would leave it, whatever the other forks do or fail to do |
| ManifestUploadComponent.PassUploadedImpliesWritten | src/main/java/org/example/copier/ManifestUploadComponent.java:38-84 | over a whole pass, a walked manifest that reached manifests-uploaded was readable, holds its content there, and had its filtered text written at its relative path under gcs |
| ManifestUploadComponent.PassDropsOldManifest | src/main/java/org/example/copier/ManifestUploadComponent.java:38-84 | over a whole pass, an old walked manifest ends in manifests-dropped at its relative path with its content, leaves manifests-landed, and its path under gcs is as it was |
| ManifestRegistratingComponent.Group | src/main/java/org/example/copier/ManifestRegistratingComponent.java:42 | an entry is grouped as "uploaded" exactly when its size is even and as "failed" exactly when it is odd |
| ManifestRegistratingComponent.GroupCounts | src/main/java/org/example/copier/ManifestRegistratingComponent.java:41-44 | only the two groups appear, each with a positive count, and each appears exactly when some entry falls into it |
| ManifestRegistratingComponent.CountsSumToEntries | src/main/java/org/example/copier/ManifestRegistratingComponent.java:41-44 | the two group counts add up to the number of entries in the manifest |
| ManifestRegistratingComponent.UnreadableSizeIsFailed | src/main/java/org/example/copier/ManifestRegistratingComponent.java:42 | an entry of size -1 is counted as failed |
| ManifestRegistratingComponent.Register | src/main/java/org/example/copier/ManifestRegistratingComponent.java:37-61 | the filesystem and failure flag after one fork are the fork's step |
| ManifestRegistratingComponent.Call | src/main/java/org/example/copier/ManifestRegistratingComponent.java:29-71 | a missing manifests-uploaded folder changes nothing and reports 0 processed, 1 failed; otherwise the filesystem is the pass over the walked manifests, processed is their number and failed is 1 exactly when some fork threw |
| ManifestRegistratingComponent.ParsedManifestIsRegistered | src/main/java/org/example/copier/ManifestRegistratingComponent.java:39-48 | every parsed manifest, an empty one included, moves whole to manifests-registered under its name |
| ManifestRegistratingComponent.UnparsableManifestFails | src/main/java/org/example/copier/ManifestRegistratingComponent.java:39-59 | a manifest that cannot be parsed moves to manifests-failed and marks the call failed |
| ManifestRegistratingComponent.StepFrame | src/main/java/org/example/copier/ManifestRegistratingComponent.java:37-61 | a fork touches no path whose name differs from its own manifest's |
| ManifestRegistratingComponent.RegisterStep | src/main/java/org/example/copier/ManifestRegistratingComponent.java:39-48 | a parsed manifest whose move is allowed lands whole in manifests-registered and leaves manifests-uploaded |
| ManifestCreator.FirstTickFiresOnlyAfterAnHour | src/main/java/org/example/copier/ManifestCreator.java:26-32 | with the counters as constructed, a tick fires exactly when an hour has passed since start, so an immediate first tick never fires |
| ManifestCreator.Batch | src/main/java/org/example/copier/ManifestCreator.java:38-54 | five writes: the four category listings under one timestamped name in the four manifest folders, then an uber manifest naming those four paths in manifests-landed |
| ManifestCreator.WriteAll | src/main/java/org/example/copier/ManifestCreator.java:44-54 | directories are unchanged, and the batch succeeds exactly when every write is allowed |
| ManifestCreator.Creator.constructor | src/main/java/org/example/copier/ManifestCreator.java:26-27 | the count starts at zero and the last manifest time at the start time |
| ManifestCreator.Creator.ListFiles | src/main/java/org/example/copier/ManifestCreator.java:76-82 | fails exactly when the folder is missing; otherwise enumerates the folder's regular files |
| ManifestCreator.Creator.WriteBatch | src/main/java/org/example/copier/ManifestCreator.java:44-54 | the filesystem and success are those of writing the batch in order, stopping at the first failure |
| ManifestCreator.Creator.Tick | src/main/java/org/example/copier/ManifestCreator.java:30-72 | a firing tick lists the four folders and writes the batch, resetting the count and time only when every write succeeded (a failed listing or write changes neither); a non-firing tick writes nothing and adds the five folders' entry counts to the count |
| ManifestCreator.Creator.Fire | src/main/java/org/example/copier/ManifestCreator.java:32-58 | a firing tick fails, changing nothing, exactly when one of the four folders is missing; otherwise it writes the batch of the four listings and resets the count and time only when every write succeeded |
| ManifestCreator.BatchContents | src/main/java/org/example/copier/ManifestCreator.java:44-54 | after a successful batch all five manifests are on disk with their contents |
| ManifestCreator.WrittenAreThere | src/main/java/org/example/copier/ManifestCreator.java:44-54 | every write of a successful batch to distinct paths leaves its content there |
| ManifestCreator.WriteAllKeeps | src/main/java/org/example/copier/ManifestCreator.java:44-54 | a path the batch does not write is unchanged |
| ManifestCreator.AcceptedIsCountedButNeverListed | src/main/java/org/example/copier/ManifestCreator.java:33-64 | no category manifest lists an accepted file, yet accepted files count toward the threshold |
| ManifestCreator.ManifestNamesAreUnique | src/main/java/org/example/copier/ManifestCreator.java:38-42 | batches with different timestamps get different category and uber names |
| Manifest.FiresIffCountOrAnHour | src/main/java/org/example/copier/Manifest.java:37-41 | the whole-hours test with truncating division fires exactly when the count reaches 1000 or at least an hour has passed since start |
| Manifest.ManifestPath | src/main/java/org/example/copier/Manifest.java:78-79 | the manifest is written into manifests-landed |
| Manifest.Shown | src/main/java/org/example/copier/Manifest.java:81-88 | the listed names are the walked paths rendered as strings, one per path, in walk order |
| Manifest.Generator.constructor | src/main/java/org/example/copier/Manifest.java:33 | start time recorded, count zero |
| Manifest.Generator.GenerateManifest | src/main/java/org/example/copier/Manifest.java:75-100 | walks every regular file under the root; succeeds exactly when the manifest write is allowed; the filesystem gains the manifests folder and, on success, a manifest listing every walked path |
| Manifest.Generator.Tick | src/main/java/org/example/copier/Manifest.java:36-56 | a non-firing tick writes nothing and sets the count to the number of regular files under the root; a firing tick generates the manifest, and then the count is left alone when the write failed, or set to the rescanned file count when it succeeded, so the reset to zero does not survive the tick |
| Manifest.ManifestIsNotCounted | src/main/java/org/example/copier/Manifest.java:61-94 | writing the manifest does not change the set of files the rescan counts |
| Manifest.EveryTickAfterTheFirstHourFires | src/main/java/org/example/copier/Manifest.java:33-41 | since the start time never moves, every tick from one hour after start onwards fires |
| ManifestComponent.CompletedTarget | src/main/java/org/example/copier/ManifestComponent.java:55-56 | a listed file goes to the completed folder under its file name only |
| ManifestComponent.MoveAll | src/main/java/org/example/copier/ManifestComponent.java:54-59 | moving the listed files only ever adds directories |
| ManifestComponent.Parse | src/main/java/org/example/copier/ManifestComponent.java:53 | a manifest parses exactly when it is present and holds a manifest record |
| ManifestComponent.MoveListedFiles | src/main/java/org/example/copier/ManifestComponent.java:54-59 | the filesystem and whether a move threw are those of moving the listed files in order, stopping at the first failure |
| ManifestComponent.SweepManifest | src/main/java/org/example/copier/ManifestComponent.java:52-62 | the filesystem and whether the fork threw are those of the try-block model: parse, move the files, then retire the manifest |
| ManifestComponent.DueIff | src/main/java/org/example/copier/ManifestComponent.java:80 | with Java's truncating remainder a new manifest is due exactly when there are at least 10000 monitored files or the epoch second is less than 60 past the hour; before the epoch it is always due |
| ManifestComponent.Replace | src/main/java/org/example/copier/ManifestComponent.java:92 | same length, other characters unchanged, and no replaced character remains |
| ManifestComponent.NewManifestPath | src/main/java/org/example/copier/ManifestComponent.java:92 | the new manifest goes into manifests-incoming and its name holds no ':' |
| ManifestComponent.Infos | src/main/java/org/example/copier/ManifestComponent.java:81-90 | one entry per monitored file, in order, each naming that file |
| ManifestComponent.CollectMonitored | src/main/java/org/example/copier/ManifestComponent.java:73-79 | fails exactly when one of the four monitored folders is missing; otherwise enumerates every regular file under the four folders |
| ManifestComponent.AppendScan | src/main/java/org/example/copier/ManifestComponent.java:74-78 | appending one folder's walk to the previous folders' files enumerates the files of one more folder |
| ManifestComponent.CreateManifest | src/main/java/org/example/copier/ManifestComponent.java:72-96 | the filesystem, whether a manifest was written and whether the step threw are those of the creation model over the monitored files |
| ManifestComponent.Call | src/main/java/org/example/copier/ManifestComponent.java:41-105 | a missing manifests-incoming folder changes nothing and reports 0 processed, 1 failed; otherwise the sweep pass over the walked manifests, then the creation step; processed is the manifests swept plus one if a manifest was written, failed is 1 exactly when a fork or the creation threw |
| ManifestComponent.CompletedFilesStay | src/main/java/org/example/copier/ManifestComponent.java:54-59 | when every listed move succeeds, every listed file is in completed |
| ManifestComponent.KeepsCompleted | src/main/java/org/example/copier/ManifestComponent.java:54-59 | nothing already at the top level of completed is removed |
| ManifestComponent.MissingStaysMissing | src/main/java/org/example/copier/ManifestComponent.java:54-59 | moving listed files never creates an entry outside completed |
| ManifestComponent.RetiredManifestCompletedItsFiles | src/main/java/org/example/copier/ManifestComponent.java:53-63 | a manifest that reached manifests-landed parsed and had every listed file moved to completed |
| ManifestComponent.MissingFileFailsTheFork | src/main/java/org/example/copier/ManifestComponent.java:54-66 | a listed file that is missing makes the fork fail and leaves the manifest in manifests-incoming, unchanged |
| ManifestComponent.MoveAllFailsAt | src/main/java/org/example/copier/ManifestComponent.java:54-59 | a missing listed file makes the moves throw, and an unlisted entry outside completed is left alone |
| ManifestComponent.NewManifestIsSweptNext | src/main/java/org/example/copier/ManifestComponent.java:80-94 | a written manifest was due, lies in the folder the next call walks, and parses to the monitored files with their sizes |
| ManifestComponent.RecordListsEveryMonitoredFile | src/main/java/org/example/copier/ManifestComponent.java:73-90 | every file of the four folders appears in the record with its size, or -1 when the size is unreadable, and nothing else does |
| ManifestComponent.FailureIsSticky | src/main/java/org/example/copier/ManifestComponent.java:65-102 | once a fork has failed, the call reports failure |
| ManifestCreatorComponent.CompletedTarget | src/main/java/org/example/copier/ManifestCreatorComponent.java:50-53 | a path has a completed target exactly when it lies in one of the four monitored folders; the target keeps its subfolders and name and lies in the matching completed folder |
| ManifestCreatorComponent.TargetIsRelativeToFilesFolder | src/main/java/org/example/copier/ManifestCreatorComponent.java:50-53 | the target is the path relativized against the files folder and resolved against files/completed |
| ManifestCreatorComponent.CompletedFolderName | src/main/java/org/example/copier/ManifestCreatorComponent.java:50-53 | each monitored folder's completed counterpart is its name with "files" replaced by "files/completed" |
| ManifestCreatorComponent.Parse | src/main/java/org/example/copier/ManifestCreatorComponent.java:47 | a manifest parses exactly when it is present and holds a path-to-size map |
| ManifestCreatorComponent.MoveEntries | src/main/java/org/example/copier/ManifestCreatorComponent.java:49-56 | moving the listed entries only ever adds directories |
| ManifestCreatorComponent.MoveListedFiles | src/main/java/org/example/copier/ManifestCreatorComponent.java:49-56 | the filesystem afterwards is that of moving every listed entry in order, each failure swallowed |
| ManifestCreatorComponent.SweepManifest | src/main/java/org/example/copier/ManifestCreatorComponent.java:45-64 | the filesystem afterwards is the sweep step for this manifest over the order its map yields its keys |
| ManifestCreatorComponent.Sizes | src/main/java/org/example/copier/ManifestCreatorComponent.java:86 | the map's keys are exactly the monitored files, each mapped to its length |
| ManifestCreatorComponent.NewManifestPath | src/main/java/org/example/copier/ManifestCreatorComponent.java:88 | the new manifest goes into manifests-incoming |
| ManifestCreatorComponent.SweepIncoming | src/main/java/org/example/copier/ManifestCreatorComponent.java:44-65 | fails, changing nothing, exactly when manifests-incoming is missing; otherwise the sweep pass over the walked manifests |
| ManifestCreatorComponent.WrittenIff | src/main/java/org/example/copier/ManifestCreatorComponent.java:71-92 | a manifest is written exactly when the four folders could be walked, they hold fewer than 10000 files, now is not before next and the write is allowed; the written manifest maps the monitored files to their lengths |
| ManifestCreatorComponent.Creator.constructor | src/main/java/org/example/copier/ManifestCreatorComponent.java:27-39 | next starts at the construction time |
| ManifestCreatorComponent.Creator.CreateManifest | src/main/java/org/example/copier/ManifestCreatorComponent.java:67-92 | the filesystem and whether it threw are those of the creation model; next moves to now plus the interval exactly when a manifest was written, and stays otherwise |
| ManifestCreatorComponent.Creator.Run | src/main/java/org/example/copier/ManifestCreatorComponent.java:41-96 | a missing manifests-incoming folder throws and changes nothing; otherwise the sweep pass, then the creation step on its result, with next advanced only after a write |
| ManifestCreatorComponent.MoveEntriesFrame | src/main/java/org/example/copier/ManifestCreatorComponent.java:49-56 | an entry outside the monitored folders that no listed file targets is left alone |
| ManifestCreatorComponent.ParsedManifestIsRetired | src/main/java/org/example/copier/ManifestCreatorComponent.java:47-60 | a parsed manifest moves whole to manifests-landed whatever happened to its listed files |
| ManifestCreatorComponent.OtherStepKeeps | src/main/java/org/example/copier/ManifestCreatorComponent.java:45-64 | sweeping one manifest leaves every other path of manifests-incoming and manifests-landed as it was, except that manifest's landed target |
| ManifestCreatorComponent.PassKeeps | src/main/java/org/example/copier/ManifestCreatorComponent.java:44-65 | sweeping a run of manifests leaves alone a path of manifests-incoming or manifests-landed that none of them is or targets |
| ManifestCreatorComponent.SweptManifestIsRetired | src/main/java/org/example/copier/ManifestCreatorComponent.java:44-65 | over the whole sweep, a walked manifest that parses ends whole in manifests-landed at its relative path and leaves manifests-incoming, whatever its listed files and the other manifests do |
| ManifestCreatorComponent.ListedFileIsCompleted | src/main/java/org/example/copier/ManifestCreatorComponent.java:49-56 | a listed monitored file whose move is allowed lands whole at its completed target |
| ManifestCreatorComponent.FirstListedIsCompleted | src/main/java/org/example/copier/ManifestCreatorComponent.java:49-56 | the first listed file, moved successfully, keeps its completed copy through the later moves |
| ManifestCreatorComponent.ForkMoves | src/main/java/org/example/copier/ManifestCreatorComponent.java:50-54 | a listed monitored file whose move is allowed is found whole at its completed target |
| ManifestCreatorComponent.FirstForkKeeps | src/main/java/org/example/copier/ManifestCreatorComponent.java:49-56 | moving the first listed file leaves every later listed monitored file where it is |
| ManifestCreatorComponent.UnparsableManifestStays | src/main/java/org/example/copier/ManifestCreatorComponent.java:47-63 | a manifest that cannot be parsed stays in manifests-incoming and nothing moves |
| ManifestCreatorComponent.FirstRunWrites | src/main/java/org/example/copier/ManifestCreatorComponent.java:27-89 | with next still at construction time, a run under 10000 files writes a manifest |
| ManifestCreatorComponent.ManifestMapsMonitoredFiles | src/main/java/org/example/copier/ManifestCreatorComponent.java:71-87 | the manifest maps exactly the regular files of the four folders to their lengths |
| CleaningComponent.Target | src/main/java/org/example/copier/CleaningComponent.java:33-35 | a manifest's target is manifests-completed at the same relative path |
| CleaningComponent.Clean | src/main/java/org/example/copier/CleaningComponent.java:27-50 | a missing manifests-uploaded folder changes nothing; otherwise the filesystem is the pass over the walked manifests |
| CleaningComponent.ManifestIsRetired | src/main/java/org/example/copier/CleaningComponent.java:29-37 | every walked manifest whose move is allowed lands whole at the same relative path under manifests-completed, with its parent folders created |
| CleaningComponent.FailedMoveLeavesManifest | src/main/java/org/example/copier/CleaningComponent.java:36-41 | a manifest whose move is refused stays where it was, unchanged, whatever the other forks do |
| CleaningComponent.OnlyManifestsMove | src/main/java/org/example/copier/CleaningComponent.java:29-44 | manifest contents are never read: no entry outside the two manifest folders changes |
| Cleaner.ReadLines | src/main/java/org/example/copier/Cleaner.java:72 | reading fails exactly when the manifest is missing; a category listing reads as its paths |
| Cleaner.MoveLines | src/main/java/org/example/copier/Cleaner.java:73-77 | the line moves create no directories |
| Cleaner.Categories | src/main/java/org/example/copier/Cleaner.java:33-49 | four categories: uploaded, rejected, dropped and failed |
| Cleaner.Retirements | src/main/java/org/example/copier/Cleaner.java:38-53 | the four category manifests move to their completed manifest folders under their names, then the uber manifest moves last to the completed uber folder |
| Cleaner.Parse | src/main/java/org/example/copier/Cleaner.java:31 | an entry parses exactly when it is present and holds an uber manifest |
| Cleaner.MoveFiles | src/main/java/org/example/copier/Cleaner.java:70-81 | the filesystem afterwards is that of moving the manifest's lines in order, stopping silently at the first failure |
| Cleaner.MoveLinesIn | src/main/java/org/example/copier/Cleaner.java:73-77 | the loop over the lines: the filesystem afterwards is that of moving them in order, stopping at the first failure |
| Cleaner.MoveLinesStep | src/main/java/org/example/copier/Cleaner.java:73-77 | moving the lines is the first line's move, then the rest; a failed first move stops everything |
| Cleaner.Retire | src/main/java/org/example/copier/Cleaner.java:38-53 | the filesystem afterwards is that of the manifest moves in order, stopping at the first failure |
| Cleaner.Clean | src/main/java/org/example/copier/Cleaner.java:29-58 | the filesystem afterwards is the cleaning step for this uber manifest |
| Cleaner.Tick | src/main/java/org/example/copier/Cleaner.java:24-66 | a missing manifests-uploaded folder changes nothing; otherwise the pass over the listed uber manifests in listing order |
| Cleaner.ChainCompletes | src/main/java/org/example/copier/Cleaner.java:38-53 | when no manifest move fails, every target is on disk |
| Cleaner.ChainKeeps | src/main/java/org/example/copier/Cleaner.java:38-53 | a path that no manifest move touches is present afterwards exactly when it was before |
| Cleaner.UberIsRetiredLast | src/main/java/org/example/copier/Cleaner.java:38-53 | an uber manifest that reached the completed uber folder had all four category manifests retired first |
| Cleaner.ChainRetiresAll | src/main/java/org/example/copier/Cleaner.java:38-53 | the last move's target appearing means every earlier move also reached its target |
| Cleaner.ChainFailsUnchanged | src/main/java/org/example/copier/Cleaner.java:38-58 | when a move in the chain fails, the uber manifest's target is as it was |
| Cleaner.LinesAreCompleted | src/main/java/org/example/copier/Cleaner.java:73-77 | when no line fails, every listed path's name is present in the target folder |
| Cleaner.TargetStays | src/main/java/org/example/copier/Cleaner.java:73-77 | nothing already at the top level of the target folder is removed |
| Cleaner.FailingLineStopsTheRest | src/main/java/org/example/copier/Cleaner.java:72-80 | a failing first line stops that manifest with nothing moved, and the error is swallowed |
| Cleaner.PartialRetirementBlocksUber | src/main/java/org/example/copier/Cleaner.java:38-58 | when the uploaded category manifest is already gone, the file moves still happen but no manifest is retired, so the uber manifest stays for ever |
| Cleaner.CategoriesKeepMissing | src/main/java/org/example/copier/Cleaner.java:33-36 | the category file moves never create an entry outside the four completed folders |
| Cleaner.LinesKeepMissing | src/main/java/org/example/copier/Cleaner.java:73-77 | the line moves never create an entry outside the target folder |
| Cleaner.PassSplits | src/main/java/org/example/copier/Cleaner.java:26-59 | the pass is the pass up to the k-th uber manifest, its cleaning on what the earlier ones left, whether their cleaning failed or not, then the pass over the rest |
| Cleaner.MoveKeepsRetired | src/main/java/org/example/copier/Cleaner.java:38-53 | a rename whose source is no kept path keeps every kept path with its content and brings no document naming a manifests-completed path |
| Cleaner.LinesKeepRetired | src/main/java/org/example/copier/Cleaner.java:73-77 | moving category lines, which name no manifests-completed path, keeps every kept manifests-completed path with its content |
| Cleaner.CategoriesKeepRetired | src/main/java/org/example/copier/Cleaner.java:33-36 | the four category file moves keep every kept manifests-completed path with its content |
| Cleaner.ChainKeepsRetired | src/main/java/org/example/copier/Cleaner.java:38-53 | a chain of renames whose sources are not kept keeps every kept path with its content |
| Cleaner.StepKeepsRetired | src/main/java/org/example/copier/Cleaner.java:29-58 | cleaning an uber manifest of manifests-uploaded keeps every kept manifests-completed path with its content |
| Cleaner.PassKeepsRetired | src/main/java/org/example/copier/Cleaner.java:26-59 | the uber manifests of a pass keep every kept manifests-completed path with its content, as long as no document names a manifests-completed path |
| Cleaner.PassKeepsEveryRetired | src/main/java/org/example/copier/Cleaner.java:26-59 | whatever is in a manifests-completed folder is still there after the uber manifests of a pass |
| Cleaner.StepRetiresUber | src/main/java/org/example/copier/Cleaner.java:29-58 | an uber manifest retired by its cleaning had its four category manifests retired into manifests-completed folders |
| Cleaner.CleanedUberStaysRetired | src/main/java/org/example/copier/Cleaner.java:26-59 | over a whole pass, an uber manifest whose cleaning retired it ends the pass in manifests-completed/uber with its four category manifests retired, whatever the other uber manifests' cleaning does or fails to do |
| Fs.Ancestors | src/main/java/org/example/copier/FileUtils.java:29 | createDirectories makes the folder and every ancestor folder of the same stage exist |
| Fs.AfterMkdirs | src/main/java/org/example/copier/FileUtils.java:29 | creating directories adds the folder and keeps every entry and existing folder |
| Fs.MoveError | src/main/java/org/example/copier/Util.java:15 | Files.move fails on a missing source, and without REPLACE_EXISTING on an existing distinct target |
| Fs.AfterMove | src/main/java/org/example/copier/FileUtils.java:32 | a failed move changes nothing; a successful one puts the source's entry at the target and removes the source; other entries are untouched |
| Fs.FileSystem.Walk | src/main/java/org/example/copier/CleaningComponent.java:28-29 | fails exactly when the folder is missing; otherwise enumerates every regular file under it |
| Fs.FileSystem.List | src/main/java/org/example/copier/FileFilter.java:25-26 | fails exactly when the folder is missing; otherwise enumerates the regular files directly in it |
| JavaLang.SignedByte | src/main/java/org/example/copier/FileFilter.java:21 | a Java byte read from a buffer lies in -128..127 and equals the unsigned value or the value less 256 |
| JavaLang.Div | src/main/java/org/example/copier/Manifest.java:38 | Java's long division truncates toward zero |
| JavaLang.Rem | src/main/java/org/example/copier/ManifestComponent.java:80 | Java's remainder carries the dividend's sign and completes the truncating division |
| JavaLang.SignedParity | src/main/java/org/example/copier/FileFilter.java:21 | the signed byte's remainder by two is zero exactly when the unsigned byte is even |
| JavaLang.RemTwoIsZeroIffEven | src/main/java/org/example/copier/ManifestRegistratingComponent.java:42 | Java's size % 2 is zero exactly for even sizes, and -1 for negative odd ones |
| Strings.Contains | src/main/java/org/example/copier/ManifestUploading.java:75 | String.contains holds exactly when the substring occurs at some position |
| Strings.JoinLength | src/main/java/org/example/copier/ManifestUploadComponent.java:54 | joining puts one separator between neighbours and none at the end |
| Strings.Decimal | src/main/java/org/example/copier/ManifestCreator.java:38-42 | a long renders as a non-empty string of decimal digits |
| Strings.DecimalRoundTrip | src/main/java/org/example/copier/ManifestCreator.java:38-42 | the decimal rendering reads back as the same number, so different timestamps give different names |
| FileUploader.IntendedTick | src/main/java/org/example/copier/FileUploader.java:16-53 | corrected pass: the same handling of each listed file, but the pass ends at the first interrupt, leaving the files not yet handled in accepted |
| ManifestUploader.IntendedTick | src/main/java/org/example/copier/ManifestUploader.java:18-56 | corrected pass: the same handling of each listed manifest, but the pass ends at the first interrupt, leaving the manifests not yet handled in manifests-landed |

## Left out

- Scheduling: the `while (!interrupted)` loops, sleeps between ticks and the initial ten-second waits are not modelled. One tick is modelled. Interrupts are modelled only inside the ticks of FileUploading, FileUploader, ManifestUploading and ManifestUploader, where they change routing.
- `StructuredTaskScope` forks are run one after another in scan order. ShutdownOnFailure cancelling the forks not yet finished when one fails is not modelled, so the model shows the most work a failing scope can do.
- Thread scheduling and concurrent writers into a stage directory are not modelled. A scan is a snapshot of the modelled filesystem.
- The remote stores are oracles: GCS uploads, the simulated GCP uploads on virtual threads, and `GcsService`. `Util.uploadToGCS` is the constant true it is written as.
- JSON rendering and parsing by Jackson are left out. A manifest is a typed document entry. Content of the wrong shape fails to parse, and no other parse failure is modelled.
- Time formatting (`Instant.toString`, ISO and pattern formatters) is left out. The formatted strings are inputs, and only the decimal rendering of a millisecond timestamp is written out.
- Logging is left out.
- `Files.createDirectories` never fails in the model. A rename into a folder that does not exist fails.
- Symbolic links, file kinds other than regular files and directories, and permissions are left out. Refused renames and writes come from a fixed oracle.
- Stage directories are separate roots. A path's stage is the configured folder it was found in, so a stage nested inside another (files/completed and files/completed/uploaded) is not also walked as part of its parent.
- Manifest.Generator.Tick: the root of the walk is the parent of the incoming folder. It is taken to be the `files/` tree, which is assumed to exist, so that walk never throws.
- ManifestCreatorComponent.CompletedTarget: only paths in the four monitored folders are given a completed target. A listed path elsewhere is not moved, whereas Java would relativize it against the rejected folder's parent.
- Cleaner.ReadLines: a category manifest that is not a path listing is read as naming no file.
- UberManifest: the record in UberManifest.java:4-10 has five string components: confirmedManifestPath, acceptedManifestPath, rejectedManifestPath, droppedManifestPath and failedManifestPath. The accessors called at Cleaner.java:33-36 and ManifestUploader.java:29 (`uploadedManifest()`, `rejectedManifest()`, `droppedManifest()`, `failedManifest()`) do not exist on it. The model's uber document has four path fields, one per called accessor, so none of them matches a component of the record by name; each is given the meaning its accessor's name suggests.
- FileUtils.IsOlderThan and FileUtils.CopyFile are called by FileUploadComponent but not defined in FileUtils.java. The model gives them the meaning their names and call sites suggest.
- ManifestCreator.Batch: ManifestCreator.java:50 passes four Paths to a constructor that takes strings. This is modelled as the uber manifest naming the four category manifests.
- ManifestUploading.ProcessManifest: ManifestUploading.java declares `destinationPath` twice (lines 86 and 110). The first is read as the object name and the second as the local destination.
- Configuration accessors missing from Configuration.java are read as the folders their names suggest.
- ManifestCreator.Creator.Tick: `fileCount` and the Java `int` and `long` counters are unbounded here, so overflow of a long-running count is not modelled. The same holds for `processed` and `failed` in every FileStats.
- Files.move with ATOMIC_MOVE but without REPLACE_EXISTING fails when the target exists. Java leaves that case to the platform, and POSIX rename would replace. The model uses the portable reading.
- ManifestCreatorComponent.Creator.Run: `File.length` is an input, which should read 0 for a file that has gone.

## Findings

| source | as written | input that shows it | evidently intended | confidence | as-written member | corrected member |
|---|---|---|---|---|---|---|
| src/main/java/org/example/copier/FileUploader.java:31-47 | after an interrupt the handler re-sets the flag and `return`s from the forEach lambda only; the following files see the flag set, skip the retry loop and are renamed to dropped without an upload attempt | accepted files a and b, with an interrupt while a uploads: a stays in accepted and b is moved to dropped untried | an interrupt ends the pass and leaves the remaining files in accepted; dropped only after retryLimit failed attempts | not executed | FileUploader.InterruptDropsNextFile | FileUploader.IntendedTick |
| src/main/java/org/example/copier/ManifestUploader.java:34-50 | the same pattern: once the flag is set, every later uber manifest of the listing is renamed to manifests-dropped without an attempt | landed manifests a.json and b.json, with an interrupt while a.json uploads: b.json is moved to manifests-dropped untried | an interrupt ends the pass and leaves the remaining manifests in manifests-landed | not executed | ManifestUploader.InterruptDropsNextManifest | ManifestUploader.IntendedTick |
