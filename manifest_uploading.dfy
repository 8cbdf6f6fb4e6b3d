/**
 * ManifestUploading.processManifests: list the manifests-landed folder and
 * handle each regular file whose name ends in ".json". processManifest
 * parses it as a path list, keeps the paths containing "files/uploaded",
 * writes them with a fresh timestamp to the temporary file
 * "uploaded_<name>" in the working directory, uploads that file under the
 * key "manifests/incoming/uploaded_<name>" with at most retryLimit attempts
 * and a back-off of 2·k seconds after the k-th failure, deletes the
 * temporary file and moves the manifest (FileUtils.moveFileAtomically) to
 * manifests-uploaded on success, manifests-dropped when the attempts ran
 * out, and manifests-failed when an interrupt cut a back-off short. An
 * IOException while parsing, writing or deleting sends the manifest to
 * manifests-failed instead. A failed final move is only logged.
 *
 * The storage client, the clock and the interrupts are inputs:
 * upload(key, k) is the outcome of the k-th attempt, interrupt(m, k) says
 * whether an interrupt arrives in the back-off after it, and clock(m) is
 * the timestamp taken for manifest m. As in FileUploading, an interrupt
 * leaves the thread's flag set, which cuts every later back-off short.
 */
module ManifestUploading {
  import opened Fs
  import Sweep
  import FileUtils
  import Strings

  /** The name of the derived manifest, also its temporary file's name. */
  function UploadedName(fileName: string): (r: string)
    ensures |r| == 9 + |fileName| && r[..9] == "uploaded_" && r[9..] == fileName
  {
    "uploaded_" + fileName
  }

  /** The object key the derived manifest is uploaded under. */
  function ObjectKey(fileName: string): (key: string)
    ensures |key| == 19 + |UploadedName(fileName)|
    ensures key[..19] == "manifests/incoming/" && key[19..] == UploadedName(fileName)
  {
    "manifests/incoming/" + UploadedName(fileName)
  }

  /** The temporary file, relative to the working directory. */
  function TempFile(fileName: string): Path
  {
    Resolve(WorkDir, UploadedName(fileName))
  }

  /** Only regular files whose name ends in ".json" are handled. */
  predicate IsManifestName(fileName: string)
  {
    Strings.EndsWith(fileName, ".json")
  }

  /** The path list of the derived manifest: the listed paths that contain "files/uploaded", in order. */
  function UploadedFiles(pathNames: seq<string>): (r: seq<string>)
    ensures forall i :: 0 <= i < |r| ==> r[i] in pathNames && Strings.Contains(r[i], "files/uploaded")
    ensures forall i :: 0 <= i < |pathNames| && Strings.Contains(pathNames[i], "files/uploaded") ==> pathNames[i] in r
  {
    Strings.Filter(pathNames, (n: string) => Strings.Contains(n, "files/uploaded"))
  }

  /** The path list a manifest parses to; None is the IOException of a file that is not one. */
  function Parse(e: Entry): Option<seq<string>>
  {
    if e.Doc? && e.doc.PathList? then Some(e.doc.pathNames) else None
  }

  datatype Attempts = Attempts(attempts: nat, success: bool, interrupted: bool)

  /** The retry loop, entered with `attempts` failed attempts made and the interrupt flag as given. */
  function Retry(upload: (string, nat) -> bool, interrupt: (Path, nat) -> bool, manifest: Path,
                 retryLimit: int, attempts: nat, interrupted: bool): (r: Attempts)
    ensures attempts <= r.attempts
    ensures r.attempts <= if attempts < retryLimit then retryLimit else attempts
    ensures r.success ==> upload(ObjectKey(manifest.name), r.attempts)
    ensures !r.success && !r.interrupted ==> r.attempts >= retryLimit
    ensures interrupted ==> r.interrupted || r.success
    decreases retryLimit - attempts
  {
    if !(attempts < retryLimit) then Attempts(attempts, false, interrupted)
    else
      var k := attempts + 1;
      if upload(ObjectKey(manifest.name), k) then Attempts(k, true, interrupted)
      else if interrupted || interrupt(manifest, k) then Attempts(k, false, true)
      else Retry(upload, interrupt, manifest, retryLimit, k, interrupted)
  }

  /** The outcome rule after the retry loop. */
  function Destination(r: Attempts, retryLimit: int): (s: Stage)
    ensures s == ManifestsUploaded <==> r.success
    ensures s == ManifestsDropped <==> !r.success && r.attempts >= retryLimit
    ensures s == ManifestsFailed <==> !r.success && r.attempts < retryLimit
  {
    if r.success then ManifestsUploaded
    else if r.attempts >= retryLimit then ManifestsDropped
    else ManifestsFailed
  }

  /** The filesystem and the thread's interrupt flag. */
  datatype Run = Run(disk: Disk, interrupted: bool)

  /** The catch block of processManifest. */
  function ToFailed(d: Disk, faults: Faults, manifest: Path): Disk
  {
    FileUtils.MovedFile(d, faults, manifest, Resolve(ManifestsFailed, manifest.name))
  }

  /** processManifest for one listed file (a file not named *.json is skipped). */
  function Step(t: Run, faults: Faults, upload: (string, nat) -> bool, interrupt: (Path, nat) -> bool,
                clock: Path -> string, retryLimit: int, manifest: Path): Run
  {
    if !IsManifestName(manifest.name) || manifest !in t.disk.entries then t
    else
      var parsed := Parse(t.disk.entries[manifest]);
      var temp := TempFile(manifest.name);
      if parsed.None? then Run(ToFailed(t.disk, faults, manifest), t.interrupted)
      else if WriteError(t.disk, faults, temp).Some? then Run(ToFailed(t.disk, faults, manifest), t.interrupted)
      else
        var written := AfterWrite(t.disk, faults, temp, Doc(PathList(clock(manifest), UploadedFiles(parsed.value))));
        var r := Retry(upload, interrupt, manifest, retryLimit, 0, t.interrupted);
        if DeleteError(written, faults, temp).Some? then Run(ToFailed(written, faults, manifest), r.interrupted)
        else
          var deleted := AfterDelete(written, faults, temp);
          Run(FileUtils.MovedFile(deleted, faults, manifest, Resolve(Destination(r, retryLimit), manifest.name)),
              r.interrupted)
  }

  ghost function Pass(t: Run, faults: Faults, upload: (string, nat) -> bool, interrupt: (Path, nat) -> bool,
                      clock: Path -> string, retryLimit: int, order: seq<Path>): Run
  {
    Sweep.Run(t, order, (e, p) => Step(e, faults, upload, interrupt, clock, retryLimit, p))
  }

  lemma PassStep(t: Run, faults: Faults, upload: (string, nat) -> bool, interrupt: (Path, nat) -> bool,
                 clock: Path -> string, retryLimit: int, order: seq<Path>)
    requires order != []
    ensures Pass(t, faults, upload, interrupt, clock, retryLimit, order)
            == Pass(Step(t, faults, upload, interrupt, clock, retryLimit, order[0]),
                    faults, upload, interrupt, clock, retryLimit, order[1..])
  {
  }

  /** The upload loop of processManifest. */
  method UploadWithRetries(upload: (string, nat) -> bool, interrupt: (Path, nat) -> bool, manifest: Path,
                           retryLimit: int, interruptedBefore: bool) returns (r: Attempts)
    ensures r == Retry(upload, interrupt, manifest, retryLimit, 0, interruptedBefore)
  {
    var destinationKey := ObjectKey(manifest.name);
    var attempts := 0;
    var success := false;
    var interrupted := interruptedBefore;
    while attempts < retryLimit && !success
      invariant !success ==> Retry(upload, interrupt, manifest, retryLimit, attempts, interrupted)
                             == Retry(upload, interrupt, manifest, retryLimit, 0, interruptedBefore)
      invariant success ==> Attempts(attempts, true, interrupted)
                            == Retry(upload, interrupt, manifest, retryLimit, 0, interruptedBefore)
      decreases retryLimit - attempts
    {
      attempts := attempts + 1;
      success := upload(destinationKey, attempts);
      if !success {
        // sleeping 2·attempts seconds; a set interrupt flag makes the sleep throw at once
        if interrupted || interrupt(manifest, attempts) {
          interrupted := true;
          break;
        }
      }
    }
    return Attempts(attempts, success, interrupted);
  }

  /** processManifest. */
  method ProcessManifest(fs: FileSystem, upload: (string, nat) -> bool, interrupt: (Path, nat) -> bool,
                         clock: Path -> string, retryLimit: int, manifestPath: Path, interruptedBefore: bool)
    returns (interrupted: bool)
    modifies fs
    ensures Run(fs.View(), interrupted)
            == Step(Run(old(fs.View()), interruptedBefore), fs.faults, upload, interrupt, clock, retryLimit, manifestPath)
  {
    interrupted := interruptedBefore;
    if !IsManifestName(manifestPath.name) || manifestPath !in fs.entries {
      return;
    }
    var fileName := manifestPath.name;
    var manifest := Parse(fs.entries[manifestPath]);
    var failure := manifest.None?;
    if !failure {
      var uploadedManifestPath := TempFile(fileName);
      var err := fs.Write(uploadedManifestPath, Doc(PathList(clock(manifestPath), UploadedFiles(manifest.value))));
      failure := err.Some?;
      if !failure {
        var r := UploadWithRetries(upload, interrupt, manifestPath, retryLimit, interruptedBefore);
        interrupted := r.interrupted;
        err := fs.DeleteIfExists(uploadedManifestPath);
        failure := err.Some?;
        if !failure {
          var destinationPath := Resolve(Destination(r, retryLimit), fileName);
          var moveErr := FileUtils.MoveFileAtomically(fs, manifestPath, destinationPath);
          // a failed move is logged
        }
      }
    }
    if failure {
      var moveErr := FileUtils.MoveFileAtomically(fs, manifestPath, Resolve(ManifestsFailed, fileName));
      // a failed move is logged
    }
  }

  /** processManifests: a failed listing changes nothing; otherwise each listed file in turn. */
  method ProcessManifests(fs: FileSystem, upload: (string, nat) -> bool, interrupt: (Path, nat) -> bool,
                          clock: Path -> string, retryLimit: int, interruptedBefore: bool)
    returns (interrupted: bool, ghost order: Option<seq<Path>>)
    modifies fs
    ensures order.None? <==> Root(ManifestsLanded) !in old(fs.dirs)
    ensures order.None? ==> fs.View() == old(fs.View()) && interrupted == interruptedBefore
    ensures order.Some? ==>
              && Enumerates(order.value, Listed(old(fs.View()), ManifestsLanded))
              && Run(fs.View(), interrupted)
                 == Pass(Run(old(fs.View()), interruptedBefore), fs.faults, upload, interrupt, clock, retryLimit, order.value)
  {
    var listing := fs.List(ManifestsLanded);
    if listing.None? {
      return interruptedBefore, None;
    }
    var files := listing.value;
    ghost var start := Run(fs.View(), interruptedBefore);
    interrupted := interruptedBefore;
    var i := 0;
    while i < |files|
      invariant 0 <= i <= |files|
      invariant Pass(Run(fs.View(), interrupted), fs.faults, upload, interrupt, clock, retryLimit, files[i..])
                == Pass(start, fs.faults, upload, interrupt, clock, retryLimit, files)
    {
      PassStep(Run(fs.View(), interrupted), fs.faults, upload, interrupt, clock, retryLimit, files[i..]);
      interrupted := ProcessManifest(fs, upload, interrupt, clock, retryLimit, files[i], interrupted);
      assert files[i..][1..] == files[i + 1..];
      i := i + 1;
    }
    assert files[i..] == [];
    return interrupted, Some(files);
  }

  /** Filtering the path list keeps order: the filter of a concatenation is the concatenation of the filters. */
  lemma UploadedFilesKeepsOrder(xs: seq<string>, ys: seq<string>)
    ensures UploadedFiles(xs + ys) == UploadedFiles(xs) + UploadedFiles(ys)
  {
    Strings.FilterAppend(xs, ys, (n: string) => Strings.Contains(n, "files/uploaded"));
  }

  /** A file whose name does not end in ".json" is not touched. */
  lemma OtherFileIsSkipped(t: Run, faults: Faults, upload: (string, nat) -> bool, interrupt: (Path, nat) -> bool,
                           clock: Path -> string, retryLimit: int, file: Path)
    requires !Strings.EndsWith(file.name, ".json")
    ensures Step(t, faults, upload, interrupt, clock, retryLimit, file) == t
  {
  }

  /** A manifest that does not parse goes to manifests-failed under its name, and nothing is uploaded. */
  lemma UnparsableManifestFails(t: Run, faults: Faults, upload: (string, nat) -> bool, interrupt: (Path, nat) -> bool,
                                clock: Path -> string, retryLimit: int, manifest: Path)
    requires IsManifestName(manifest.name) && manifest in t.disk.entries && manifest.folder == Root(ManifestsLanded)
    requires Parse(t.disk.entries[manifest]).None?
    requires !faults.rename(manifest, Resolve(ManifestsFailed, manifest.name))
    ensures var r := Step(t, faults, upload, interrupt, clock, retryLimit, manifest);
            && r.interrupted == t.interrupted
            && Resolve(ManifestsFailed, manifest.name) in r.disk.entries
            && r.disk.entries[Resolve(ManifestsFailed, manifest.name)] == t.disk.entries[manifest]
            && manifest !in r.disk.entries
  {
  }

  /**
   * A parsed manifest whose temporary file can be written and deleted ends
   * where the outcome rule sends it, and the temporary file is gone.
   */
  lemma ParsedManifestIsRouted(t: Run, faults: Faults, upload: (string, nat) -> bool, interrupt: (Path, nat) -> bool,
                               clock: Path -> string, retryLimit: int, manifest: Path)
    requires IsManifestName(manifest.name) && manifest in t.disk.entries && manifest.folder == Root(ManifestsLanded)
    requires Parse(t.disk.entries[manifest]).Some?
    requires Root(WorkDir) in t.disk.dirs && !faults.write(TempFile(manifest.name))
    requires var r := Retry(upload, interrupt, manifest, retryLimit, 0, t.interrupted);
             !faults.rename(manifest, Resolve(Destination(r, retryLimit), manifest.name))
    ensures var r := Retry(upload, interrupt, manifest, retryLimit, 0, t.interrupted);
            var target := Resolve(Destination(r, retryLimit), manifest.name);
            var e := Step(t, faults, upload, interrupt, clock, retryLimit, manifest);
            && e.interrupted == r.interrupted
            && target in e.disk.entries && e.disk.entries[target] == t.disk.entries[manifest]
            && manifest !in e.disk.entries
            && TempFile(manifest.name) !in e.disk.entries
  {
  }

  /** Once the attempts run out without an interrupt, the manifest is dropped after exactly retryLimit failures. */
  lemma {:induction false} RefusedUploadIsDropped(upload: (string, nat) -> bool, interrupt: (Path, nat) -> bool,
                                                  manifest: Path, retryLimit: int, attempts: nat)
    requires forall k: nat :: attempts < k <= retryLimit ==> !upload(ObjectKey(manifest.name), k) && !interrupt(manifest, k)
    ensures var r := Retry(upload, interrupt, manifest, retryLimit, attempts, false);
            && !r.success && !r.interrupted
            && r.attempts == (if attempts < retryLimit then retryLimit else attempts)
            && Destination(r, retryLimit) == ManifestsDropped
    decreases retryLimit - attempts
  {
    if attempts < retryLimit {
      RefusedUploadIsDropped(upload, interrupt, manifest, retryLimit, attempts + 1);
    }
  }

  /**
   * An interrupt in the back-off after a failure before the last attempt
   * sends the manifest to manifests-failed; the same interrupt after the
   * last attempt leaves the attempts exhausted, so it is dropped.
   */
  lemma InterruptRouting(upload: (string, nat) -> bool, interrupt: (Path, nat) -> bool, manifest: Path, retryLimit: int)
    requires retryLimit >= 1 && !upload(ObjectKey(manifest.name), 1) && interrupt(manifest, 1)
    ensures var r := Retry(upload, interrupt, manifest, retryLimit, 0, false);
            && r.attempts == 1 && r.interrupted
            && Destination(r, retryLimit) == if retryLimit == 1 then ManifestsDropped else ManifestsFailed
  {
  }

  // ---------------------------------------------------------------------
  // One manifest over a whole pass

  /** A pass is the prefix before position k, then the k-th manifest, then the rest. */
  lemma PassSplits(t: Run, faults: Faults, upload: (string, nat) -> bool, interrupt: (Path, nat) -> bool,
                   clock: Path -> string, retryLimit: int, order: seq<Path>, k: nat)
    requires k < |order|
    ensures var m := Pass(t, faults, upload, interrupt, clock, retryLimit, order[..k]);
            Pass(t, faults, upload, interrupt, clock, retryLimit, order)
            == Sweep.Run(Step(m, faults, upload, interrupt, clock, retryLimit, order[k]), order[k + 1..],
                         (e, p) => Step(e, faults, upload, interrupt, clock, retryLimit, p))
  {
    var step := (e, p) => Step(e, faults, upload, interrupt, clock, retryLimit, p);
    Sweep.RunAppend(t, order[..k], order[k..], step);
    assert order[..k] + order[k..] == order;
    var m := Pass(t, faults, upload, interrupt, clock, retryLimit, order[..k]);
    PassStep(m, faults, upload, interrupt, clock, retryLimit, order[k..]);
    assert order[k..][1..] == order[k + 1..];
  }

  /**
   * Handling a manifest touches only the manifest, its temporary file and
   * the paths with its name outside the working directory; directories are
   * only added.
   */
  lemma StepFrame(t: Run, faults: Faults, upload: (string, nat) -> bool, interrupt: (Path, nat) -> bool,
                  clock: Path -> string, retryLimit: int, q: Path, k: Path)
    requires k != q && k != TempFile(q.name)
    requires k.folder.stage == WorkDir || k.name != q.name
    ensures var e := Step(t, faults, upload, interrupt, clock, retryLimit, q).disk;
            SameAt(t.disk, e, k) && t.disk.dirs <= e.dirs
  {
  }

  /**
   * Over a whole pass, a listed manifest that parses ends where the outcome
   * rule sends it, with its content, and its temporary file is gone: the
   * other manifests, handled before or after it, change neither. The rule is
   * applied to the interrupt flag the earlier manifests left set or clear.
   */
  lemma {:induction false} ListedManifestIsRouted(t: Run, faults: Faults, upload: (string, nat) -> bool,
                                                  interrupt: (Path, nat) -> bool, clock: Path -> string,
                                                  retryLimit: int, order: seq<Path>, k: nat)
    requires k < |order| && Distinct(order)
    requires forall q :: q in order ==> q.folder == Root(ManifestsLanded)
    requires IsManifestName(order[k].name) && order[k] in t.disk.entries && Parse(t.disk.entries[order[k]]).Some?
    requires Root(WorkDir) in t.disk.dirs && !faults.write(TempFile(order[k].name))
    requires var m := Pass(t, faults, upload, interrupt, clock, retryLimit, order[..k]);
             var r := Retry(upload, interrupt, order[k], retryLimit, 0, m.interrupted);
             !faults.rename(order[k], Resolve(Destination(r, retryLimit), order[k].name))
    ensures var m := Pass(t, faults, upload, interrupt, clock, retryLimit, order[..k]);
            var r := Retry(upload, interrupt, order[k], retryLimit, 0, m.interrupted);
            var target := Resolve(Destination(r, retryLimit), order[k].name);
            var e := Pass(t, faults, upload, interrupt, clock, retryLimit, order).disk;
            && target in e.entries && e.entries[target] == t.disk.entries[order[k]]
            && order[k] !in e.entries && TempFile(order[k].name) !in e.entries
  {
    var manifest := order[k];
    var content := t.disk.entries[manifest];
    var temp := TempFile(manifest.name);
    var step := (e, p) => Step(e, faults, upload, interrupt, clock, retryLimit, p);
    var waiting := (e: Run) => manifest in e.disk.entries && e.disk.entries[manifest] == content && Root(WorkDir) in e.disk.dirs;
    forall e: Run, q | q in order[..k] && waiting(e) ensures waiting(step(e, q)) {
      EarlierDiffers(order, k, q);
      StepFrame(e, faults, upload, interrupt, clock, retryLimit, q, manifest);
    }
    Sweep.Keeps(t, order[..k], step, waiting);
    var m := Pass(t, faults, upload, interrupt, clock, retryLimit, order[..k]);
    var r := Retry(upload, interrupt, manifest, retryLimit, 0, m.interrupted);
    var target := Resolve(Destination(r, retryLimit), manifest.name);
    ParsedManifestIsRouted(m, faults, upload, interrupt, clock, retryLimit, manifest);
    PassSplits(t, faults, upload, interrupt, clock, retryLimit, order, k);
    var routed := (e: Run) => && target in e.disk.entries && e.disk.entries[target] == content
                              && manifest !in e.disk.entries && temp !in e.disk.entries;
    forall e: Run, q | q in order[k + 1..] && routed(e) ensures routed(step(e, q)) {
      LaterDiffers(order, k, q);
      StepFrame(e, faults, upload, interrupt, clock, retryLimit, q, target);
      StepFrame(e, faults, upload, interrupt, clock, retryLimit, q, manifest);
      StepFrame(e, faults, upload, interrupt, clock, retryLimit, q, temp);
    }
    Sweep.Keeps(Step(m, faults, upload, interrupt, clock, retryLimit, manifest), order[k + 1..], step, routed);
  }
}
