/**
 * FileUploader.run, one pass of its loop: list the files directly in the
 * accepted folder; for each, while fewer than retryLimit attempts have
 * failed, nothing has been uploaded and the thread is not interrupted,
 * upload (a simulated call whose outcome is never looked at) and rename the
 * file to uploaded/name atomically without replacing. A failed rename counts
 * as a failed attempt and is followed by a 5 second back-off. An interrupt
 * sets the thread's flag and returns from the file's handler without moving
 * it. A file not uploaded is renamed to dropped/name.
 *
 * The interrupts are inputs: duringUpload(file, k) and duringBackoff(file, k)
 * say whether one arrives while waiting for the k-th upload (counting from 1)
 * or in the back-off after the k-th failure.
 */
module FileUploader {
  import opened Fs
  import Sweep

  /** Where the retry loop of one file stopped. */
  datatype Attempts = Attempts(disk: Disk, attempts: nat, uploaded: bool, returned: bool)

  /** The retry loop, entered with `attempts` failed attempts and the flag clear. */
  function Retry(d: Disk, faults: Faults, duringUpload: (Path, nat) -> bool, duringBackoff: (Path, nat) -> bool,
                 file: Path, retryLimit: int, attempts: nat): (r: Attempts)
    ensures attempts <= r.attempts
    ensures r.attempts <= if attempts < retryLimit then retryLimit else attempts
    ensures !r.uploaded ==> r.disk == d
    ensures r.uploaded ==> !r.returned && r.disk == AfterMove(d, faults, file, Resolve(Uploaded, file.name), false)
                           && MoveError(d, faults, file, Resolve(Uploaded, file.name), false).None?
    ensures !r.uploaded && !r.returned ==> r.attempts >= retryLimit
    decreases retryLimit - attempts
  {
    if !(attempts < retryLimit) then Attempts(d, attempts, false, false)
    else if duringUpload(file, attempts + 1) then Attempts(d, attempts, false, true)
    else
      var target := Resolve(Uploaded, file.name);
      if MoveError(d, faults, file, target, false).None? then Attempts(AfterMove(d, faults, file, target, false), attempts, true, false)
      else if duringBackoff(file, attempts + 1) then Attempts(d, attempts + 1, false, true)
      else Retry(d, faults, duringUpload, duringBackoff, file, retryLimit, attempts + 1)
  }

  /** The filesystem and the thread's interrupt flag. */
  datatype Run = Run(disk: Disk, interrupted: bool)

  /**
   * The handler of one file as written: with the flag already set the retry
   * loop is skipped and the file goes straight to dropped.
   */
  function Step(t: Run, faults: Faults, duringUpload: (Path, nat) -> bool, duringBackoff: (Path, nat) -> bool,
                retryLimit: int, file: Path): Run
  {
    if t.interrupted then Run(AfterMove(t.disk, faults, file, Resolve(Dropped, file.name), false), true)
    else
      var r := Retry(t.disk, faults, duringUpload, duringBackoff, file, retryLimit, 0);
      if r.returned then Run(r.disk, true)
      else if r.uploaded then Run(r.disk, false)
      else Run(AfterMove(r.disk, faults, file, Resolve(Dropped, file.name), false), false)
  }

  ghost function Pass(t: Run, faults: Faults, duringUpload: (Path, nat) -> bool, duringBackoff: (Path, nat) -> bool,
                      retryLimit: int, order: seq<Path>): Run
  {
    Sweep.Run(t, order, (e, p) => Step(e, faults, duringUpload, duringBackoff, retryLimit, p))
  }

  lemma PassStep(t: Run, faults: Faults, duringUpload: (Path, nat) -> bool, duringBackoff: (Path, nat) -> bool,
                 retryLimit: int, order: seq<Path>)
    requires order != []
    ensures Pass(t, faults, duringUpload, duringBackoff, retryLimit, order)
            == Pass(Step(t, faults, duringUpload, duringBackoff, retryLimit, order[0]),
                    faults, duringUpload, duringBackoff, retryLimit, order[1..])
  {
  }

  /** The retry loop of one file; returned is the `return` out of the handler on an interrupt. */
  method UploadWithRetries(fs: FileSystem, duringUpload: (Path, nat) -> bool, duringBackoff: (Path, nat) -> bool,
                           retryLimit: int, file: Path) returns (uploaded: bool, returned: bool)
    modifies fs
    ensures var r := Retry(old(fs.View()), fs.faults, duringUpload, duringBackoff, file, retryLimit, 0);
            fs.View() == r.disk && uploaded == r.uploaded && returned == r.returned
  {
    ghost var d0 := fs.View();
    var attempts := 0;
    uploaded := false;
    returned := false;
    while attempts < retryLimit && !uploaded
      invariant !uploaded ==> fs.View() == d0
                              && Retry(d0, fs.faults, duringUpload, duringBackoff, file, retryLimit, attempts)
                                 == Retry(d0, fs.faults, duringUpload, duringBackoff, file, retryLimit, 0)
      invariant uploaded ==> Attempts(fs.View(), attempts, true, false)
                             == Retry(d0, fs.faults, duringUpload, duringBackoff, file, retryLimit, 0)
      decreases retryLimit - attempts, if uploaded then 0 else 1
    {
      if duringUpload(file, attempts + 1) {
        returned := true;
        return;
      }
      var err := fs.Move(file, Resolve(Uploaded, file.name), false);
      if err.None? {
        uploaded := true;
      } else {
        attempts := attempts + 1;
        // the 5 second back-off
        if duringBackoff(file, attempts) {
          returned := true;
          return;
        }
      }
    }
  }

  /** One pass: a failed listing changes nothing; otherwise each listed file's handler in turn. */
  method Tick(fs: FileSystem, duringUpload: (Path, nat) -> bool, duringBackoff: (Path, nat) -> bool,
              retryLimit: int, interruptedBefore: bool) returns (interrupted: bool, ghost order: Option<seq<Path>>)
    modifies fs
    ensures order.None? <==> Root(Accepted) !in old(fs.dirs)
    ensures order.None? ==> fs.View() == old(fs.View()) && interrupted == interruptedBefore
    ensures order.Some? ==>
              && Enumerates(order.value, Listed(old(fs.View()), Accepted))
              && Run(fs.View(), interrupted)
                 == Pass(Run(old(fs.View()), interruptedBefore), fs.faults, duringUpload, duringBackoff, retryLimit, order.value)
  {
    var listing := fs.List(Accepted);
    if listing.None? {
      return interruptedBefore, None;
    }
    var files := listing.value;
    ghost var start := Run(fs.View(), interruptedBefore);
    interrupted := interruptedBefore;
    var i := 0;
    while i < |files|
      invariant 0 <= i <= |files|
      invariant Pass(Run(fs.View(), interrupted), fs.faults, duringUpload, duringBackoff, retryLimit, files[i..])
                == Pass(start, fs.faults, duringUpload, duringBackoff, retryLimit, files)
    {
      var file := files[i];
      PassStep(Run(fs.View(), interrupted), fs.faults, duringUpload, duringBackoff, retryLimit, files[i..]);
      var uploaded, returned := false, false;
      if !interrupted {
        uploaded, returned := UploadWithRetries(fs, duringUpload, duringBackoff, retryLimit, file);
      }
      if returned {
        interrupted := true;
      } else if !uploaded {
        var err := fs.Move(file, Resolve(Dropped, file.name), false);
        // a failure is logged
      }
      assert files[i..][1..] == files[i + 1..];
      i := i + 1;
    }
    assert files[i..] == [];
    return interrupted, Some(files);
  }

  /** Success moves the file to uploaded under its name, with its content, and ends its loop. */
  lemma UploadedFileLands(d: Disk, faults: Faults, duringUpload: (Path, nat) -> bool, duringBackoff: (Path, nat) -> bool,
                          file: Path, retryLimit: int)
    requires file.folder == Root(Accepted)
    requires Retry(d, faults, duringUpload, duringBackoff, file, retryLimit, 0).uploaded
    ensures var e := Step(Run(d, false), faults, duringUpload, duringBackoff, retryLimit, file);
            && !e.interrupted && file !in e.disk.entries
            && Resolve(Uploaded, file.name) in e.disk.entries
            && e.disk.entries[Resolve(Uploaded, file.name)] == d.entries[file]
  {
  }

  /**
   * With no interrupt and the rename to uploaded refused, exactly retryLimit
   * attempts fail and the handler renames the file to dropped; with no
   * positive limit no attempt is made and the file is renamed to dropped
   * whatever the faults.
   */
  lemma {:induction false} BlockedFileIsDropped(d: Disk, faults: Faults, duringUpload: (Path, nat) -> bool,
                                                duringBackoff: (Path, nat) -> bool, file: Path, retryLimit: int, attempts: nat)
    requires file.folder == Root(Accepted)
    requires attempts < retryLimit ==> faults.rename(file, Resolve(Uploaded, file.name))
    requires forall k: nat :: attempts < k <= retryLimit ==> !duringUpload(file, k) && !duringBackoff(file, k)
    ensures var r := Retry(d, faults, duringUpload, duringBackoff, file, retryLimit, attempts);
            && !r.uploaded && !r.returned && r.disk == d
            && r.attempts == if attempts < retryLimit then retryLimit else attempts
    ensures attempts == 0 ==>
              Step(Run(d, false), faults, duringUpload, duringBackoff, retryLimit, file)
              == Run(AfterMove(d, faults, file, Resolve(Dropped, file.name), false), false)
    decreases retryLimit - attempts
  {
    if attempts < retryLimit {
      BlockedFileIsDropped(d, faults, duringUpload, duringBackoff, file, retryLimit, attempts + 1);
    }
  }

  /** An interrupt leaves the file where it is, with the flag set. */
  lemma InterruptedFileStays(d: Disk, faults: Faults, duringUpload: (Path, nat) -> bool,
                             duringBackoff: (Path, nat) -> bool, file: Path, retryLimit: int)
    requires Retry(d, faults, duringUpload, duringBackoff, file, retryLimit, 0).returned
    ensures Step(Run(d, false), faults, duringUpload, duringBackoff, retryLimit, file) == Run(d, true)
  {
  }

  // ---------------------------------------------------------------------
  // One file over a whole pass

  /** A pass is the prefix before position k, then the handler of the k-th file, then the rest. */
  lemma PassSplits(t: Run, faults: Faults, duringUpload: (Path, nat) -> bool, duringBackoff: (Path, nat) -> bool,
                   retryLimit: int, order: seq<Path>, k: nat)
    requires k < |order|
    ensures var m := Pass(t, faults, duringUpload, duringBackoff, retryLimit, order[..k]);
            Pass(t, faults, duringUpload, duringBackoff, retryLimit, order)
            == Sweep.Run(Step(m, faults, duringUpload, duringBackoff, retryLimit, order[k]), order[k + 1..],
                         (e, p) => Step(e, faults, duringUpload, duringBackoff, retryLimit, p))
  {
    var step := (e, p) => Step(e, faults, duringUpload, duringBackoff, retryLimit, p);
    Sweep.RunAppend(t, order[..k], order[k..], step);
    assert order[..k] + order[k..] == order;
    var m := Pass(t, faults, duringUpload, duringBackoff, retryLimit, order[..k]);
    PassStep(m, faults, duringUpload, duringBackoff, retryLimit, order[k..]);
    assert order[k..][1..] == order[k + 1..];
  }

  /** A handler touches only paths with its own file's name, and no directory. */
  lemma StepFrame(t: Run, faults: Faults, duringUpload: (Path, nat) -> bool, duringBackoff: (Path, nat) -> bool,
                  retryLimit: int, q: Path, k: Path)
    requires k.name != q.name
    ensures var e := Step(t, faults, duringUpload, duringBackoff, retryLimit, q).disk;
            SameAt(t.disk, e, k) && e.dirs == t.disk.dirs
  {
  }

  /**
   * Over a whole pass, a listed file whose handler uploads it ends in
   * uploaded under its name with the content it had before the pass; the
   * handlers of the other files, before or after it, change neither.
   */
  lemma {:induction false} ReachedFileLands(t: Run, faults: Faults, duringUpload: (Path, nat) -> bool,
                                       duringBackoff: (Path, nat) -> bool, retryLimit: int, order: seq<Path>, k: nat)
    requires k < |order| && Distinct(order)
    requires forall q :: q in order ==> q.folder == Root(Accepted)
    requires var m := Pass(t, faults, duringUpload, duringBackoff, retryLimit, order[..k]);
             !m.interrupted && Retry(m.disk, faults, duringUpload, duringBackoff, order[k], retryLimit, 0).uploaded
    ensures var e := Pass(t, faults, duringUpload, duringBackoff, retryLimit, order).disk;
            && order[k] in t.disk.entries && order[k] !in e.entries
            && Resolve(Uploaded, order[k].name) in e.entries
            && e.entries[Resolve(Uploaded, order[k].name)] == t.disk.entries[order[k]]
  {
    var file := order[k];
    var target := Resolve(Uploaded, file.name);
    var step := (e, p) => Step(e, faults, duringUpload, duringBackoff, retryLimit, p);
    var untouched := (e: Run) => SameAt(t.disk, e.disk, file);
    forall e: Run, q | q in order[..k] && untouched(e) ensures untouched(step(e, q)) {
      EarlierDiffers(order, k, q);
      StepFrame(e, faults, duringUpload, duringBackoff, retryLimit, q, file);
    }
    Sweep.Keeps(t, order[..k], step, untouched);
    var m := Pass(t, faults, duringUpload, duringBackoff, retryLimit, order[..k]);
    UploadedFileLands(m.disk, faults, duringUpload, duringBackoff, file, retryLimit);
    PassSplits(t, faults, duringUpload, duringBackoff, retryLimit, order, k);
    var content := m.disk.entries[file];
    var landed := (e: Run) => target in e.disk.entries && e.disk.entries[target] == content && file !in e.disk.entries;
    forall e: Run, q | q in order[k + 1..] && landed(e) ensures landed(step(e, q)) {
      LaterDiffers(order, k, q);
      StepFrame(e, faults, duringUpload, duringBackoff, retryLimit, q, target);
      StepFrame(e, faults, duringUpload, duringBackoff, retryLimit, q, file);
    }
    Sweep.Keeps(Step(m, faults, duringUpload, duringBackoff, retryLimit, file), order[k + 1..], step, landed);
  }

  // ---------------------------------------------------------------------
  // The pass after an interrupt

  /**
   * As written, a file handled after an interrupt is not tried at all: with
   * the flag set it is renamed straight to dropped.
   */
  lemma FlagSetDropsUntriedFile(t: Run, faults: Faults, duringUpload: (Path, nat) -> bool,
                                duringBackoff: (Path, nat) -> bool, retryLimit: int, file: Path)
    requires t.interrupted && retryLimit > 0
    requires file in t.disk.entries && file.folder == Root(Accepted)
    requires Root(Dropped) in t.disk.dirs && Resolve(Dropped, file.name) !in t.disk.entries
    requires !faults.rename(file, Resolve(Dropped, file.name))
    ensures var e := Step(t, faults, duringUpload, duringBackoff, retryLimit, file).disk;
            && file !in e.entries && Resolve(Dropped, file.name) in e.entries
            && e.entries[Resolve(Dropped, file.name)] == t.disk.entries[file]
  {
  }

  /**
   * A concrete pass over files a and b: an interrupt while a uploads leaves a
   * in accepted, and b, never tried, ends up in dropped.
   */
  lemma InterruptDropsNextFile()
    ensures
      var a, b := Resolve(Accepted, "a"), Resolve(Accepted, "b");
      var d := Disk(map[a := Blob([1]), b := Blob([2])], {Root(Accepted), Root(Uploaded), Root(Dropped)});
      var faults := Faults((s, t) => false, p => false);
      var e := Pass(Run(d, false), faults, (p, k) => p == a, (p, k) => false, 3, [a, b]).disk;
      a in e.entries && b !in e.entries && Resolve(Dropped, "b") in e.entries
  {
    var a, b := Resolve(Accepted, "a"), Resolve(Accepted, "b");
    var d := Disk(map[a := Blob([1]), b := Blob([2])], {Root(Accepted), Root(Uploaded), Root(Dropped)});
    var faults := Faults((s, t) => false, p => false);
    var up, back := (p, k) => p == a, (p, k) => false;
    PassStep(Run(d, false), faults, up, back, 3, [a, b]);
    var e1 := Step(Run(d, false), faults, up, back, 3, a);
    assert e1 == Run(d, true);
    assert [a, b][1..] == [b];
    PassStep(e1, faults, up, back, 3, [b]);
  }

  /**
   * The evidently intended handler: once the thread is interrupted no file
   * is touched; the remaining files stay in accepted for the next run.
   */
  function IntendedStep(t: Run, faults: Faults, duringUpload: (Path, nat) -> bool, duringBackoff: (Path, nat) -> bool,
                        retryLimit: int, file: Path): Run
  {
    if t.interrupted then t else Step(t, faults, duringUpload, duringBackoff, retryLimit, file)
  }

  ghost function IntendedPass(t: Run, faults: Faults, duringUpload: (Path, nat) -> bool, duringBackoff: (Path, nat) -> bool,
                              retryLimit: int, order: seq<Path>): Run
  {
    Sweep.Run(t, order, (e, p) => IntendedStep(e, faults, duringUpload, duringBackoff, retryLimit, p))
  }

  /** Intended: after an interrupt the rest of the pass changes nothing. */
  lemma {:induction false} IntendedPassStopsOnInterrupt(t: Run, faults: Faults, duringUpload: (Path, nat) -> bool,
                                                        duringBackoff: (Path, nat) -> bool, retryLimit: int, order: seq<Path>)
    requires t.interrupted
    ensures IntendedPass(t, faults, duringUpload, duringBackoff, retryLimit, order) == t
  {
    Sweep.Keeps(t, order, (e, p) => IntendedStep(e, faults, duringUpload, duringBackoff, retryLimit, p), (e: Run) => e == t);
  }

  /**
   * Intended: a file reaches dropped exactly when the flag was clear and its
   * retry loop ran out of attempts without an interrupt, and the rename to
   * dropped is allowed.
   */
  lemma IntendedDropsOnlyExhausted(t: Run, faults: Faults, duringUpload: (Path, nat) -> bool,
                                   duringBackoff: (Path, nat) -> bool, retryLimit: int, file: Path)
    requires file in t.disk.entries && file.folder == Root(Accepted)
    requires Resolve(Dropped, file.name) !in t.disk.entries
    ensures var e := IntendedStep(t, faults, duringUpload, duringBackoff, retryLimit, file).disk;
            var r := Retry(t.disk, faults, duringUpload, duringBackoff, file, retryLimit, 0);
            Resolve(Dropped, file.name) in e.entries <==>
              && !t.interrupted && !r.uploaded && !r.returned && r.attempts >= retryLimit
              && MoveError(t.disk, faults, file, Resolve(Dropped, file.name), false).None?
    ensures var e := IntendedStep(t, faults, duringUpload, duringBackoff, retryLimit, file).disk;
            Resolve(Dropped, file.name) in e.entries ==> e.entries[Resolve(Dropped, file.name)] == t.disk.entries[file]
  {
  }

  lemma IntendedPassStep(t: Run, faults: Faults, duringUpload: (Path, nat) -> bool, duringBackoff: (Path, nat) -> bool,
                         retryLimit: int, order: seq<Path>)
    requires order != []
    ensures IntendedPass(t, faults, duringUpload, duringBackoff, retryLimit, order)
            == IntendedPass(IntendedStep(t, faults, duringUpload, duringBackoff, retryLimit, order[0]),
                            faults, duringUpload, duringBackoff, retryLimit, order[1..])
  {
  }

  /**
   * The corrected pass: an interrupt ends the whole pass, not only the
   * current file's handler, so the files not yet handled stay in accepted.
   */
  method IntendedTick(fs: FileSystem, duringUpload: (Path, nat) -> bool, duringBackoff: (Path, nat) -> bool,
                      retryLimit: int, interruptedBefore: bool) returns (interrupted: bool, ghost order: Option<seq<Path>>)
    modifies fs
    ensures order.None? <==> Root(Accepted) !in old(fs.dirs)
    ensures order.None? ==> fs.View() == old(fs.View()) && interrupted == interruptedBefore
    ensures order.Some? ==>
              && Enumerates(order.value, Listed(old(fs.View()), Accepted))
              && Run(fs.View(), interrupted)
                 == IntendedPass(Run(old(fs.View()), interruptedBefore), fs.faults, duringUpload, duringBackoff,
                                 retryLimit, order.value)
  {
    var listing := fs.List(Accepted);
    if listing.None? {
      return interruptedBefore, None;
    }
    var files := listing.value;
    ghost var start := Run(fs.View(), interruptedBefore);
    interrupted := interruptedBefore;
    var i := 0;
    while i < |files| && !interrupted
      invariant 0 <= i <= |files|
      invariant IntendedPass(Run(fs.View(), interrupted), fs.faults, duringUpload, duringBackoff, retryLimit, files[i..])
                == IntendedPass(start, fs.faults, duringUpload, duringBackoff, retryLimit, files)
    {
      var file := files[i];
      IntendedPassStep(Run(fs.View(), interrupted), fs.faults, duringUpload, duringBackoff, retryLimit, files[i..]);
      var uploaded, returned := UploadWithRetries(fs, duringUpload, duringBackoff, retryLimit, file);
      if returned {
        interrupted := true;
      } else if !uploaded {
        var err := fs.Move(file, Resolve(Dropped, file.name), false);
        // a failure is logged
      }
      assert files[i..][1..] == files[i + 1..];
      i := i + 1;
    }
    if interrupted {
      IntendedPassStopsOnInterrupt(Run(fs.View(), interrupted), fs.faults, duringUpload, duringBackoff, retryLimit, files[i..]);
    } else {
      assert files[i..] == [];
    }
    return interrupted, Some(files);
  }
}
