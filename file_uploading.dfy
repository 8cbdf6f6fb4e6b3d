/**
 * FileUploading: list the files directly in the accepted folder and upload
 * each under the key "files/uploaded/<name>", trying at most retryLimit
 * times with a back-off of 2·k seconds after the k-th failure. The file then
 * moves (FileUtils.moveFileAtomically) to uploaded on success, to dropped
 * when the attempts ran out, and to failed when an interrupt cut the
 * back-off short. An interrupt leaves the thread's interrupt flag set, so
 * every later back-off of the pass is cut short at once.
 *
 * The storage client and the interrupts are inputs: upload(file, key, k)
 * is the outcome of the k-th attempt (counting from 1), interrupt(file, k)
 * says whether an interrupt arrives during the back-off after it.
 */
module FileUploading {
  import opened Fs
  import Sweep
  import FileUtils

  /** The object key a file is uploaded under. */
  function ObjectKey(fileName: string): (key: string)
    ensures |key| == 15 + |fileName|
    ensures key[..15] == "files/uploaded/" && key[15..] == fileName
  {
    "files/uploaded/" + fileName
  }

  /** The back-off after the attempt-th failure, in seconds. */
  function Backoff(attempt: nat): nat
  {
    2 * attempt
  }

  /** The back-off slept through after n failures without interruption, in seconds. */
  function TotalBackoff(n: nat): nat
  {
    if n == 0 then 0 else TotalBackoff(n - 1) + Backoff(n)
  }

  /** The back-off grows linearly, so the total grows quadratically, not exponentially. */
  lemma {:induction false} TotalBackoffIsQuadratic(n: nat)
    ensures TotalBackoff(n) == n * (n + 1)
  {
    if n > 0 {
      TotalBackoffIsQuadratic(n - 1);
    }
  }

  /** Where the retry loop stopped: how many attempts, whether one succeeded, and the interrupt flag. */
  datatype Attempts = Attempts(attempts: nat, success: bool, interrupted: bool)

  /**
   * The retry loop, entered with `attempts` failed attempts made and the
   * interrupt flag as given.
   */
  function Retry(upload: (Path, string, nat) -> bool, interrupt: (Path, nat) -> bool, file: Path,
                 retryLimit: int, attempts: nat, interrupted: bool): (r: Attempts)
    ensures attempts <= r.attempts
    ensures r.attempts <= if attempts < retryLimit then retryLimit else attempts
    ensures !r.success && !r.interrupted ==> r.attempts >= retryLimit
    ensures interrupted ==> r.interrupted || r.success
    decreases retryLimit - attempts
  {
    if !(attempts < retryLimit) then Attempts(attempts, false, interrupted)
    else
      var k := attempts + 1;
      if upload(file, ObjectKey(file.name), k) then Attempts(k, true, interrupted)
      else if interrupted || interrupt(file, k) then Attempts(k, false, true)
      else Retry(upload, interrupt, file, retryLimit, k, interrupted)
  }

  /** The outcome rule: uploaded on success, dropped when the attempts ran out, failed otherwise. */
  function Destination(r: Attempts, retryLimit: int): Stage
  {
    if r.success then Uploaded
    else if r.attempts >= retryLimit then Dropped
    else Failed
  }

  /** The filesystem and the thread's interrupt flag. */
  datatype Run = Run(disk: Disk, interrupted: bool)

  function Step(t: Run, faults: Faults, upload: (Path, string, nat) -> bool, interrupt: (Path, nat) -> bool,
                retryLimit: int, file: Path): Run
  {
    var r := Retry(upload, interrupt, file, retryLimit, 0, t.interrupted);
    Run(FileUtils.MovedFile(t.disk, faults, file, Resolve(Destination(r, retryLimit), file.name)), r.interrupted)
  }

  ghost function Pass(t: Run, faults: Faults, upload: (Path, string, nat) -> bool, interrupt: (Path, nat) -> bool,
                      retryLimit: int, order: seq<Path>): Run
  {
    Sweep.Run(t, order, (e, p) => Step(e, faults, upload, interrupt, retryLimit, p))
  }

  lemma PassStep(t: Run, faults: Faults, upload: (Path, string, nat) -> bool, interrupt: (Path, nat) -> bool,
                 retryLimit: int, order: seq<Path>)
    requires order != []
    ensures Pass(t, faults, upload, interrupt, retryLimit, order)
            == Pass(Step(t, faults, upload, interrupt, retryLimit, order[0]), faults, upload, interrupt, retryLimit, order[1..])
  {
  }

  /** uploadFile: the retry loop, then one move to the folder the outcome rule picks. */
  method UploadFile(fs: FileSystem, upload: (Path, string, nat) -> bool, interrupt: (Path, nat) -> bool,
                    retryLimit: int, filePath: Path, interruptedBefore: bool) returns (interrupted: bool)
    modifies fs
    ensures Run(fs.View(), interrupted)
            == Step(Run(old(fs.View()), interruptedBefore), fs.faults, upload, interrupt, retryLimit, filePath)
  {
    var fileName := filePath.name;
    var attempts := 0;
    var success := false;
    interrupted := interruptedBefore;
    while attempts < retryLimit && !success
      invariant !success ==> Retry(upload, interrupt, filePath, retryLimit, attempts, interrupted)
                             == Retry(upload, interrupt, filePath, retryLimit, 0, interruptedBefore)
      invariant success ==> Attempts(attempts, true, interrupted)
                            == Retry(upload, interrupt, filePath, retryLimit, 0, interruptedBefore)
      decreases retryLimit - attempts
    {
      attempts := attempts + 1;
      var destinationPath := ObjectKey(fileName);
      success := upload(filePath, destinationPath, attempts);
      if !success {
        // sleeping Backoff(attempts) seconds; a set interrupt flag makes the sleep throw at once
        if interrupted || interrupt(filePath, attempts) {
          interrupted := true;
          break;
        }
      }
    }
    var outcome := Attempts(attempts, success, interrupted);
    assert outcome == Retry(upload, interrupt, filePath, retryLimit, 0, interruptedBefore);
    var destinationPath;
    if success {
      destinationPath := Resolve(Uploaded, fileName);
    } else if attempts >= retryLimit {
      destinationPath := Resolve(Dropped, fileName);
    } else {
      destinationPath := Resolve(Failed, fileName);
    }
    var err := FileUtils.MoveFileAtomically(fs, filePath, destinationPath);
  }

  /** processAcceptedFiles: a failed listing changes nothing; otherwise uploadFile for each listed file. */
  method ProcessAcceptedFiles(fs: FileSystem, upload: (Path, string, nat) -> bool, interrupt: (Path, nat) -> bool,
                              retryLimit: int, interruptedBefore: bool)
    returns (interrupted: bool, ghost order: Option<seq<Path>>)
    modifies fs
    ensures order.None? <==> Root(Accepted) !in old(fs.dirs)
    ensures order.None? ==> fs.View() == old(fs.View()) && interrupted == interruptedBefore
    ensures order.Some? ==>
              && Enumerates(order.value, Listed(old(fs.View()), Accepted))
              && Run(fs.View(), interrupted)
                 == Pass(Run(old(fs.View()), interruptedBefore), fs.faults, upload, interrupt, retryLimit, order.value)
  {
    var listing := fs.List(Accepted);
    if listing.None? {
      return interruptedBefore, None;
    }
    var files := listing.value;
    ghost var start := Run(fs.View(), interruptedBefore);
    interrupted := interruptedBefore;
    var i := 0;
    while i < |files|
      invariant 0 <= i <= |files|
      invariant Pass(Run(fs.View(), interrupted), fs.faults, upload, interrupt, retryLimit, files[i..])
                == Pass(start, fs.faults, upload, interrupt, retryLimit, files)
    {
      PassStep(Run(fs.View(), interrupted), fs.faults, upload, interrupt, retryLimit, files[i..]);
      interrupted := UploadFile(fs, upload, interrupt, retryLimit, files[i], interrupted);
      assert files[i..][1..] == files[i + 1..];
      i := i + 1;
    }
    assert files[i..] == [];
    return interrupted, Some(files);
  }

  /** A first success on attempt k, within the limit and with no interrupt before, means exactly k calls. */
  lemma {:induction false} SuccessOnAttempt(upload: (Path, string, nat) -> bool, interrupt: (Path, nat) -> bool,
                                            file: Path, retryLimit: int, k: nat, attempts: nat)
    requires attempts < k <= retryLimit
    requires upload(file, ObjectKey(file.name), k)
    requires forall j: nat :: attempts < j < k ==> !upload(file, ObjectKey(file.name), j) && !interrupt(file, j)
    ensures Retry(upload, interrupt, file, retryLimit, attempts, false) == Attempts(k, true, false)
    ensures Destination(Attempts(k, true, false), retryLimit) == Uploaded
    decreases k - attempts
  {
    if attempts + 1 < k {
      SuccessOnAttempt(upload, interrupt, file, retryLimit, k, attempts + 1);
    }
  }

  /** Failing every attempt without interruption means exactly retryLimit calls, and the file is dropped. */
  lemma {:induction false} ExhaustedIsDropped(upload: (Path, string, nat) -> bool, interrupt: (Path, nat) -> bool,
                                              file: Path, retryLimit: int, attempts: nat)
    requires attempts <= retryLimit
    requires forall j: nat :: attempts < j <= retryLimit ==> !upload(file, ObjectKey(file.name), j) && !interrupt(file, j)
    ensures Retry(upload, interrupt, file, retryLimit, attempts, false) == Attempts(retryLimit, false, false)
    ensures Destination(Attempts(retryLimit, false, false), retryLimit) == Dropped
    decreases retryLimit - attempts
  {
    if attempts < retryLimit {
      ExhaustedIsDropped(upload, interrupt, file, retryLimit, attempts + 1);
    }
  }

  /** With no positive retry limit nothing is tried and the file is dropped. */
  lemma NoRetriesIsDropped(upload: (Path, string, nat) -> bool, interrupt: (Path, nat) -> bool,
                           file: Path, retryLimit: int, interrupted: bool)
    requires retryLimit <= 0
    ensures var r := Retry(upload, interrupt, file, retryLimit, 0, interrupted);
            r.attempts == 0 && Destination(r, retryLimit) == Dropped
  {
  }

  /**
   * An interrupt in the back-off after failed attempt k sends the file to
   * failed when k is below the limit, and to dropped when k is the last.
   */
  lemma {:induction false} InterruptedBackoff(upload: (Path, string, nat) -> bool, interrupt: (Path, nat) -> bool,
                                              file: Path, retryLimit: int, k: nat, attempts: nat)
    requires attempts < k <= retryLimit
    requires forall j: nat :: attempts < j <= k ==> !upload(file, ObjectKey(file.name), j)
    requires forall j: nat :: attempts < j < k ==> !interrupt(file, j)
    requires interrupt(file, k)
    ensures var r := Retry(upload, interrupt, file, retryLimit, attempts, false);
            && r == Attempts(k, false, true)
            && Destination(r, retryLimit) == (if k < retryLimit then Failed else Dropped)
    decreases k - attempts
  {
    if attempts + 1 < k {
      InterruptedBackoff(upload, interrupt, file, retryLimit, k, attempts + 1);
    }
  }

  /** Once the flag is set, a file gets one attempt: uploaded if it succeeds, otherwise failed (dropped at limit 1). */
  lemma FlagSetAllowsOneAttempt(upload: (Path, string, nat) -> bool, interrupt: (Path, nat) -> bool,
                                file: Path, retryLimit: int)
    requires retryLimit >= 1
    ensures var r := Retry(upload, interrupt, file, retryLimit, 0, true);
            && r.attempts == 1 && r.interrupted
            && r.success == upload(file, ObjectKey(file.name), 1)
            && Destination(r, retryLimit) == (if r.success then Uploaded else if retryLimit == 1 then Dropped else Failed)
  {
  }

  /** Every listed file ends, with its content, in the folder its own outcome picks, unless that rename is refused. */
  lemma {:induction false} ReachedFileIsRouted(t: Run, faults: Faults, upload: (Path, string, nat) -> bool,
                                               interrupt: (Path, nat) -> bool, retryLimit: int, order: seq<Path>, k: nat)
    requires k < |order| && Distinct(order)
    requires forall q :: q in order ==> q.folder == Root(Accepted)
    requires var m := Pass(t, faults, upload, interrupt, retryLimit, order[..k]);
             var r := Retry(upload, interrupt, order[k], retryLimit, 0, m.interrupted);
             && order[k] in m.disk.entries
             && !faults.rename(order[k], Resolve(Destination(r, retryLimit), order[k].name))
    ensures var m := Pass(t, faults, upload, interrupt, retryLimit, order[..k]);
            var r := Retry(upload, interrupt, order[k], retryLimit, 0, m.interrupted);
            var target := Resolve(Destination(r, retryLimit), order[k].name);
            var e := Pass(t, faults, upload, interrupt, retryLimit, order).disk;
            && target in e.entries && e.entries[target] == m.disk.entries[order[k]] && order[k] !in e.entries
  {
    var file := order[k];
    var m := Pass(t, faults, upload, interrupt, retryLimit, order[..k]);
    var r := Retry(upload, interrupt, file, retryLimit, 0, m.interrupted);
    var target := Resolve(Destination(r, retryLimit), file.name);
    var content := m.disk.entries[file];
    var step := (e, p) => Step(e, faults, upload, interrupt, retryLimit, p);
    PassSplits(t, faults, upload, interrupt, retryLimit, order, k);
    var later := order[k + 1..];
    var routed := (e: Run) => target in e.disk.entries && e.disk.entries[target] == content && file !in e.disk.entries;
    OwnStep(m, faults, upload, interrupt, retryLimit, file);
    forall e: Run, q | q in later && routed(e) ensures routed(step(e, q)) {
      LaterDiffers(order, k, q);
      StepFrame(e, faults, upload, interrupt, retryLimit, q, target);
      StepFrame(e, faults, upload, interrupt, retryLimit, q, file);
    }
    Sweep.Keeps(Step(m, faults, upload, interrupt, retryLimit, file), later, step, routed);
  }

  /** A pass is the prefix before position k, then the handler of the k-th file, then the rest. */
  lemma PassSplits(t: Run, faults: Faults, upload: (Path, string, nat) -> bool, interrupt: (Path, nat) -> bool,
                   retryLimit: int, order: seq<Path>, k: nat)
    requires k < |order|
    ensures var m := Pass(t, faults, upload, interrupt, retryLimit, order[..k]);
            Pass(t, faults, upload, interrupt, retryLimit, order)
            == Sweep.Run(Step(m, faults, upload, interrupt, retryLimit, order[k]), order[k + 1..],
                         (e, p) => Step(e, faults, upload, interrupt, retryLimit, p))
  {
    var step := (e, p) => Step(e, faults, upload, interrupt, retryLimit, p);
    Sweep.RunAppend(t, order[..k], order[k..], step);
    assert order[..k] + order[k..] == order;
    var m := Pass(t, faults, upload, interrupt, retryLimit, order[..k]);
    PassStep(m, faults, upload, interrupt, retryLimit, order[k..]);
    assert order[k..][1..] == order[k + 1..];
  }

  /** A file's handler moves only that file, to a path with its own name: other names keep their entries. */
  lemma StepFrame(t: Run, faults: Faults, upload: (Path, string, nat) -> bool, interrupt: (Path, nat) -> bool,
                  retryLimit: int, q: Path, k: Path)
    requires k.name != q.name
    ensures SameAt(t.disk, Step(t, faults, upload, interrupt, retryLimit, q).disk, k)
  {
  }

  /** A file's handler moves it, content intact, to its name in the folder its outcome picks, unless that rename is refused. */
  lemma OwnStep(t: Run, faults: Faults, upload: (Path, string, nat) -> bool, interrupt: (Path, nat) -> bool,
                retryLimit: int, file: Path)
    requires file.folder == Root(Accepted) && file in t.disk.entries
    requires var r := Retry(upload, interrupt, file, retryLimit, 0, t.interrupted);
             !faults.rename(file, Resolve(Destination(r, retryLimit), file.name))
    ensures var r := Retry(upload, interrupt, file, retryLimit, 0, t.interrupted);
            var target := Resolve(Destination(r, retryLimit), file.name);
            var e := Step(t, faults, upload, interrupt, retryLimit, file).disk;
            && target in e.entries && e.entries[target] == t.disk.entries[file] && file !in e.entries
  {
  }
}
