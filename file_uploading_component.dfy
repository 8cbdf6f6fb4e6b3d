/**
 * FileUploadingComponent.run: walk the accepted tree and, in a fork per
 * file, read its last-modified time and the clock; a file whose
 * last-modified time plus one hour lies strictly before now is moved to
 * dropped; otherwise it is uploaded once and moved to uploaded on success,
 * to failed on failure. Reading the attributes may throw, which sends the
 * file to failed. Every move is FileOperations.moveFileAtomically to the
 * bare file name in the destination, so subdirectories are flattened.
 *
 * Instants are milliseconds. lastModified(p) is None when the attributes
 * cannot be read; now(p) is the clock reading taken in p's fork; upload(p)
 * is the outcome of the upload call for p.
 */
module FileUploadingComponent {
  import opened Fs
  import Sweep
  import FileUtils
  import FileOperations

  const OneHour := 3_600_000

  /** Where a file goes, given its last-modified time, the clock and the upload's outcome. */
  function Destination(lastModified: Option<int>, now: int, uploaded: bool): (s: Stage)
    ensures s == Dropped <==> lastModified.Some? && now - lastModified.value > OneHour
    ensures s == Uploaded <==> lastModified.Some? && now - lastModified.value <= OneHour && uploaded
    ensures s == Failed <==> lastModified.None? || (now - lastModified.value <= OneHour && !uploaded)
  {
    if lastModified.None? then Failed
    else if lastModified.value + OneHour < now then Dropped
    else if uploaded then Uploaded
    else Failed
  }

  /** The fork of one walked file. */
  function Step(d: Disk, faults: Faults, lastModified: Path -> Option<int>, now: Path -> int,
                upload: Path -> bool, file: Path): Disk
  {
    FileUtils.MovedFile(d, faults, file, Resolve(Destination(lastModified(file), now(file), upload(file)), file.name))
  }

  ghost function Pass(d: Disk, faults: Faults, lastModified: Path -> Option<int>, now: Path -> int,
                      upload: Path -> bool, order: seq<Path>): Disk
  {
    Sweep.Run(d, order, (e, p) => Step(e, faults, lastModified, now, upload, p))
  }

  lemma PassStep(d: Disk, faults: Faults, lastModified: Path -> Option<int>, now: Path -> int,
                 upload: Path -> bool, order: seq<Path>)
    requires order != []
    ensures Pass(d, faults, lastModified, now, upload, order)
            == Pass(Step(d, faults, lastModified, now, upload, order[0]), faults, lastModified, now, upload, order[1..])
  {
  }

  /** One pass: a failed walk changes nothing; otherwise one fork per walked file. */
  method Run(fs: FileSystem, lastModified: Path -> Option<int>, now: Path -> int, upload: Path -> bool)
    returns (ghost order: Option<seq<Path>>)
    modifies fs
    ensures order.None? <==> Root(Accepted) !in old(fs.dirs)
    ensures order.None? ==> fs.View() == old(fs.View())
    ensures order.Some? ==>
              && Enumerates(order.value, Walked(old(fs.View()), Accepted))
              && fs.View() == Pass(old(fs.View()), fs.faults, lastModified, now, upload, order.value)
  {
    var walk := fs.Walk(Accepted);
    if walk.None? {
      return None;
    }
    var paths := walk.value;
    ghost var d0 := fs.View();
    var i := 0;
    while i < |paths|
      invariant 0 <= i <= |paths|
      invariant Pass(fs.View(), fs.faults, lastModified, now, upload, paths[i..])
                == Pass(d0, fs.faults, lastModified, now, upload, paths)
    {
      var path := paths[i];
      PassStep(fs.View(), fs.faults, lastModified, now, upload, paths[i..]);
      var modified := lastModified(path);
      if modified.None? {
        FileOperations.MoveFileAtomically(fs, path, Resolve(Failed, path.name));
      } else if modified.value + OneHour < now(path) {
        FileOperations.MoveFileAtomically(fs, path, Resolve(Dropped, path.name));
      } else if upload(path) {
        FileOperations.MoveFileAtomically(fs, path, Resolve(Uploaded, path.name));
      } else {
        FileOperations.MoveFileAtomically(fs, path, Resolve(Failed, path.name));
      }
      assert paths[i..][1..] == paths[i + 1..];
      i := i + 1;
    }
    assert paths[i..] == [];
    return Some(paths);
  }

  /** A file exactly one hour old is still uploaded: the age comparison is strict. */
  lemma OneHourOldIsNotDropped(lastModified: int, uploaded: bool)
    ensures Destination(Some(lastModified), lastModified + OneHour, uploaded) == if uploaded then Uploaded else Failed
    ensures Destination(Some(lastModified), lastModified + OneHour + 1, uploaded) == Dropped
  {
  }

  /**
   * A walked file whose name no other walked file shares ends under its bare
   * name in its destination, with its content, unless the rename is refused.
   */
  lemma {:induction false} FileIsRouted(d: Disk, faults: Faults, lastModified: Path -> Option<int>, now: Path -> int,
                                        upload: Path -> bool, order: seq<Path>, file: Path)
    requires file in order && Distinct(order)
    requires forall q :: q in order ==> q.folder.stage == Accepted
    requires forall q :: q in order && q != file ==> q.name != file.name
    requires file in d.entries
    requires !faults.rename(file, Resolve(Destination(lastModified(file), now(file), upload(file)), file.name))
    ensures var r := Pass(d, faults, lastModified, now, upload, order);
            var target := Resolve(Destination(lastModified(file), now(file), upload(file)), file.name);
            && target in r.entries && r.entries[target] == d.entries[file] && file !in r.entries
  {
    var target := Resolve(Destination(lastModified(file), now(file), upload(file)), file.name);
    var content := d.entries[file];
    var step := (e, p) => Step(e, faults, lastModified, now, upload, p);
    var pre := (e: Disk) => file in e.entries && e.entries[file] == content;
    var post := (e: Disk) => target in e.entries && e.entries[target] == content && file !in e.entries;
    forall e: Disk, q | q in order && q != file && pre(e) ensures pre(step(e, q)) {
      StepFrame(e, faults, lastModified, now, upload, q, file);
    }
    forall e: Disk, q | q in order && q != file && post(e) ensures post(step(e, q)) {
      StepFrame(e, faults, lastModified, now, upload, q, file);
      StepFrame(e, faults, lastModified, now, upload, q, target);
    }
    Sweep.Reaches(d, order, step, file, pre, post);
  }

  /** A fork changes only paths with its own file's name. */
  lemma StepFrame(d: Disk, faults: Faults, lastModified: Path -> Option<int>, now: Path -> int,
                  upload: Path -> bool, q: Path, k: Path)
    requires k.name != q.name
    ensures SameAt(d, Step(d, faults, lastModified, now, upload, q), k)
  {
  }

  /**
   * Flattening: two files of the same name in different subdirectories routed
   * to the same stage both land on one path; the later one's content replaces
   * the earlier one's.
   */
  lemma SameNameOverwrites(d: Disk, faults: Faults, lastModified: Path -> Option<int>, now: Path -> int,
                           upload: Path -> bool, p: Path, q: Path)
    requires p != q && p.name == q.name && p.folder.stage == Accepted && q.folder.stage == Accepted
    requires p in d.entries && q in d.entries
    requires Destination(lastModified(p), now(p), upload(p)) == Destination(lastModified(q), now(q), upload(q))
    requires forall s, t :: !faults.rename(s, t)
    ensures var target := Resolve(Destination(lastModified(p), now(p), upload(p)), p.name);
            var r := Pass(d, faults, lastModified, now, upload, [p, q]);
            && target in r.entries && r.entries[target] == d.entries[q] && p !in r.entries && q !in r.entries
  {
    PassStep(d, faults, lastModified, now, upload, [p, q]);
    assert [p, q][1..] == [q];
    PassStep(Step(d, faults, lastModified, now, upload, p), faults, lastModified, now, upload, [q]);
  }
}
