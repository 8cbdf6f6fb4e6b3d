/**
 * FileUploadComponent.run, one iteration of its loop: compute the cutoff
 * (now minus one hour) once, walk the accepted tree and, in a fork per file,
 * move a file older than the cutoff to dropped at its relative path;
 * otherwise copy it to the same relative path under gcs and then move it to
 * the same relative path under uploaded. Any exception in the fork moves the
 * file to failed at its relative path; an exception from that move is
 * logged. All moves are FileUtils.moveFileAtomically.
 */
module FileUploadComponent {
  import opened Fs
  import Sweep
  import FileUtils

  const OneHour := 3_600_000

  /** The catch block: the move to failed, whose own failure is only logged. */
  function ToFailed(d: Disk, faults: Faults, file: Path): Disk
  {
    FileUtils.MovedFile(d, faults, file, Rebase(file, Failed))
  }

  /** The fork of one walked file. */
  function Step(d: Disk, faults: Faults, lastModified: Path -> Option<int>, cutoff: int, file: Path): Disk
  {
    var older := FileUtils.IsOlderThan(lastModified(file), cutoff);
    if older.None? then ToFailed(d, faults, file)
    else if older.value then
      var dropped := FileUtils.MovedFile(d, faults, file, Rebase(file, Dropped));
      if FileUtils.MoveFileError(d, faults, file, Rebase(file, Dropped)).None? then dropped
      else ToFailed(dropped, faults, file)
    else
      var copied := FileUtils.CopiedFile(d, faults, file, Rebase(file, Gcs));
      if FileUtils.CopyFileError(d, faults, file, Rebase(file, Gcs)).Some? then ToFailed(copied, faults, file)
      else
        var moved := FileUtils.MovedFile(copied, faults, file, Rebase(file, Uploaded));
        if FileUtils.MoveFileError(copied, faults, file, Rebase(file, Uploaded)).None? then moved
        else ToFailed(moved, faults, file)
  }

  ghost function Pass(d: Disk, faults: Faults, lastModified: Path -> Option<int>, cutoff: int, order: seq<Path>): Disk
  {
    Sweep.Run(d, order, (e, p) => Step(e, faults, lastModified, cutoff, p))
  }

  lemma PassStep(d: Disk, faults: Faults, lastModified: Path -> Option<int>, cutoff: int, order: seq<Path>)
    requires order != []
    ensures Pass(d, faults, lastModified, cutoff, order)
            == Pass(Step(d, faults, lastModified, cutoff, order[0]), faults, lastModified, cutoff, order[1..])
  {
  }

  /** The handler of one file, with its try/catch. */
  method UploadOne(fs: FileSystem, lastModified: Path -> Option<int>, cutoff: int, filePath: Path)
    modifies fs
    ensures fs.View() == Step(old(fs.View()), fs.faults, lastModified, cutoff, filePath)
  {
    var older := FileUtils.IsOlderThan(lastModified(filePath), cutoff);
    var failure := older.None?;
    if older == Some(true) {
      var err := FileUtils.MoveFileAtomically(fs, filePath, Rebase(filePath, Dropped));
      failure := err.Some?;
    } else if older == Some(false) {
      var err := FileUtils.CopyFile(fs, filePath, Rebase(filePath, Gcs));
      if err.None? {
        err := FileUtils.MoveFileAtomically(fs, filePath, Rebase(filePath, Uploaded));
      }
      failure := err.Some?;
    }
    if failure {
      var err := FileUtils.MoveFileAtomically(fs, filePath, Rebase(filePath, Failed));
      // a failure here is logged
    }
  }

  /** One iteration: the cutoff is taken once; a failed walk is logged and changes nothing. */
  method Tick(fs: FileSystem, lastModified: Path -> Option<int>, now: int) returns (ghost order: Option<seq<Path>>)
    modifies fs
    ensures order.None? <==> Root(Accepted) !in old(fs.dirs)
    ensures order.None? ==> fs.View() == old(fs.View())
    ensures order.Some? ==>
              && Enumerates(order.value, Walked(old(fs.View()), Accepted))
              && fs.View() == Pass(old(fs.View()), fs.faults, lastModified, now - OneHour, order.value)
  {
    var walk := fs.Walk(Accepted);
    if walk.None? {
      return None;
    }
    var files := walk.value;
    var cutoff := now - OneHour;
    ghost var d0 := fs.View();
    var i := 0;
    while i < |files|
      invariant 0 <= i <= |files|
      invariant Pass(fs.View(), fs.faults, lastModified, cutoff, files[i..]) == Pass(d0, fs.faults, lastModified, cutoff, files)
    {
      PassStep(fs.View(), fs.faults, lastModified, cutoff, files[i..]);
      UploadOne(fs, lastModified, cutoff, files[i]);
      assert files[i..][1..] == files[i + 1..];
      i := i + 1;
    }
    assert files[i..] == [];
    return Some(files);
  }

  /** A fork touches only its own file and that file's paths under dropped, gcs, uploaded and failed. */
  lemma StepFrame(d: Disk, faults: Faults, lastModified: Path -> Option<int>, cutoff: int, file: Path, k: Path)
    requires k != file && k != Rebase(file, Dropped) && k != Rebase(file, Gcs)
    requires k != Rebase(file, Uploaded) && k != Rebase(file, Failed)
    ensures var r := Step(d, faults, lastModified, cutoff, file);
            (k in r.entries <==> k in d.entries) && (k in d.entries ==> r.entries[k] == d.entries[k])
  {
    var older := FileUtils.IsOlderThan(lastModified(file), cutoff);
    if older.None? {
      ToFailedFrame(d, faults, file, k);
    } else if older.value {
      var dropped := FileUtils.MovedFile(d, faults, file, Rebase(file, Dropped));
      assert SameAt(d, dropped, k);
      ToFailedFrame(dropped, faults, file, k);
    } else {
      var copied := FileUtils.CopiedFile(d, faults, file, Rebase(file, Gcs));
      assert SameAt(d, copied, k);
      ToFailedFrame(copied, faults, file, k);
      var moved := FileUtils.MovedFile(copied, faults, file, Rebase(file, Uploaded));
      assert SameAt(copied, moved, k);
      ToFailedFrame(moved, faults, file, k);
    }
  }

  lemma ToFailedFrame(d: Disk, faults: Faults, file: Path, k: Path)
    requires k != file && k != Rebase(file, Failed)
    ensures SameAt(d, ToFailed(d, faults, file), k)
  {
  }

  /** Another file's fork leaves this file's paths under uploaded and gcs alone. */
  lemma OtherStepKeepsCopies(d: Disk, faults: Faults, lastModified: Path -> Option<int>, cutoff: int, q: Path, file: Path)
    requires q != file && q.folder.stage == Accepted && file.folder.stage == Accepted
    ensures var r := Step(d, faults, lastModified, cutoff, q);
            forall s :: s == Uploaded || s == Gcs ==>
              (Rebase(file, s) in r.entries <==> Rebase(file, s) in d.entries)
              && (Rebase(file, s) in d.entries ==> r.entries[Rebase(file, s)] == d.entries[Rebase(file, s)])
  {
    assert q.folder.sub != file.folder.sub || q.name != file.name;
    StepFrame(d, faults, lastModified, cutoff, q, Rebase(file, Uploaded));
    StepFrame(d, faults, lastModified, cutoff, q, Rebase(file, Gcs));
  }

  /** A young file's own fork, with its copy and rename allowed, copies it to gcs and moves it to uploaded. */
  lemma YoungStep(d: Disk, faults: Faults, lastModified: Path -> Option<int>, cutoff: int, file: Path)
    requires file in d.entries && file.folder.stage == Accepted
    requires lastModified(file).Some? && lastModified(file).value >= cutoff
    requires !faults.write(Rebase(file, Gcs)) && !faults.rename(file, Rebase(file, Uploaded))
    ensures var r := Step(d, faults, lastModified, cutoff, file);
            && Rebase(file, Uploaded) in r.entries && r.entries[Rebase(file, Uploaded)] == d.entries[file]
            && Rebase(file, Gcs) in r.entries && r.entries[Rebase(file, Gcs)] == d.entries[file]
            && file !in r.entries
  {
    var copied := FileUtils.CopiedFile(d, faults, file, Rebase(file, Gcs));
    assert copied.entries == d.entries[Rebase(file, Gcs) := d.entries[file]];
    var moved := FileUtils.MovedFile(copied, faults, file, Rebase(file, Uploaded));
    assert FileUtils.MoveFileError(copied, faults, file, Rebase(file, Uploaded)).None?;
    assert Rebase(file, Gcs) != file && Rebase(file, Gcs) != Rebase(file, Uploaded);
  }

  /** An old file goes to dropped and nothing is written under gcs. */
  lemma OldFileIsDroppedUncopied(d: Disk, faults: Faults, lastModified: Path -> Option<int>, cutoff: int, file: Path)
    requires file in d.entries && file.folder.stage == Accepted
    requires lastModified(file).Some? && lastModified(file).value < cutoff
    requires !faults.rename(file, Rebase(file, Dropped))
    ensures var r := Step(d, faults, lastModified, cutoff, file);
            && Rebase(file, Dropped) in r.entries && r.entries[Rebase(file, Dropped)] == d.entries[file]
            && file !in r.entries
            && forall p: Path :: p.folder.stage == Gcs ==> (p in r.entries <==> p in d.entries)
  {
  }

  /** A file reaches uploaded only together with an identical copy under gcs. */
  lemma UploadedImpliesCopied(d: Disk, faults: Faults, lastModified: Path -> Option<int>, cutoff: int, file: Path)
    requires file in d.entries && file.folder.stage == Accepted
    requires Rebase(file, Uploaded) !in d.entries
    ensures var r := Step(d, faults, lastModified, cutoff, file);
            Rebase(file, Uploaded) in r.entries ==>
              && Rebase(file, Gcs) in r.entries && r.entries[Rebase(file, Gcs)] == d.entries[file]
              && r.entries[Rebase(file, Uploaded)] == d.entries[file]
  {
    var up := Rebase(file, Uploaded);
    var older := FileUtils.IsOlderThan(lastModified(file), cutoff);
    assert up != file && up != Rebase(file, Failed) && up != Rebase(file, Dropped) && up != Rebase(file, Gcs);
    if older.Some? && !older.value {
      var copied := FileUtils.CopiedFile(d, faults, file, Rebase(file, Gcs));
      if FileUtils.CopyFileError(d, faults, file, Rebase(file, Gcs)).None? {
        CopiedThenMoved(copied, d, faults, file);
      }
    }
  }

  /** After a successful copy, the move to uploaded either lands the file or sends it to failed. */
  lemma CopiedThenMoved(copied: Disk, d: Disk, faults: Faults, file: Path)
    requires file in d.entries && file.folder.stage == Accepted
    requires Rebase(file, Uploaded) !in d.entries
    requires copied.entries == d.entries[Rebase(file, Gcs) := d.entries[file]]
    ensures var moved := FileUtils.MovedFile(copied, faults, file, Rebase(file, Uploaded));
            var r := if FileUtils.MoveFileError(copied, faults, file, Rebase(file, Uploaded)).None? then moved
                     else ToFailed(moved, faults, file);
            Rebase(file, Uploaded) in r.entries ==>
              && Rebase(file, Gcs) in r.entries && r.entries[Rebase(file, Gcs)] == d.entries[file]
              && r.entries[Rebase(file, Uploaded)] == d.entries[file]
  {
    var up, gcs := Rebase(file, Uploaded), Rebase(file, Gcs);
    assert up != file && up != gcs && gcs != file && up != Rebase(file, Failed);
  }

  /** A refused copy leaves uploaded alone and sends the file to failed. */
  lemma FailedCopyGoesToFailed(d: Disk, faults: Faults, lastModified: Path -> Option<int>, cutoff: int, file: Path)
    requires file in d.entries && file.folder.stage == Accepted
    requires lastModified(file).Some? && lastModified(file).value >= cutoff
    requires faults.write(Rebase(file, Gcs)) && !faults.rename(file, Rebase(file, Failed))
    ensures var r := Step(d, faults, lastModified, cutoff, file);
            && Rebase(file, Failed) in r.entries && r.entries[Rebase(file, Failed)] == d.entries[file]
            && file !in r.entries
            && (Rebase(file, Uploaded) in r.entries <==> Rebase(file, Uploaded) in d.entries)
  {
  }

  /**
   * Over a whole pass, a young walked file whose copy and renames are allowed
   * ends under uploaded, with an identical copy under gcs, both at its
   * relative path.
   */
  lemma {:induction false} YoungFileIsUploaded(d: Disk, faults: Faults, lastModified: Path -> Option<int>, cutoff: int,
                                               order: seq<Path>, file: Path)
    requires file in order && Distinct(order)
    requires forall q :: q in order ==> q.folder.stage == Accepted
    requires file in d.entries
    requires lastModified(file).Some? && lastModified(file).value >= cutoff
    requires !faults.write(Rebase(file, Gcs)) && !faults.rename(file, Rebase(file, Uploaded))
    ensures var r := Pass(d, faults, lastModified, cutoff, order);
            && Rebase(file, Uploaded) in r.entries && r.entries[Rebase(file, Uploaded)] == d.entries[file]
            && Rebase(file, Gcs) in r.entries && r.entries[Rebase(file, Gcs)] == d.entries[file]
            && file !in r.entries
  {
    var content := d.entries[file];
    var step := (e, p) => Step(e, faults, lastModified, cutoff, p);
    var pre := (e: Disk) => file in e.entries && e.entries[file] == content;
    var post := (e: Disk) => Rebase(file, Uploaded) in e.entries && e.entries[Rebase(file, Uploaded)] == content
                             && Rebase(file, Gcs) in e.entries && e.entries[Rebase(file, Gcs)] == content
                             && file !in e.entries;
    forall e: Disk, q | q in order && q != file && pre(e) ensures pre(step(e, q)) {
      assert forall t :: Rebase(q, t) != file;
      StepFrame(e, faults, lastModified, cutoff, q, file);
    }
    forall e: Disk | pre(e) ensures post(step(e, file)) {
      YoungStep(e, faults, lastModified, cutoff, file);
    }
    forall e: Disk, q | q in order && q != file && post(e) ensures post(step(e, q)) {
      assert forall t :: Rebase(q, t) != file;
      StepFrame(e, faults, lastModified, cutoff, q, file);
      OtherStepKeepsCopies(e, faults, lastModified, cutoff, q, file);
    }
    Sweep.Reaches(d, order, step, file, pre, post);
  }
}
