/**
 * FileFilterComponent.run, one pass of its loop: walk the landed tree and, in
 * a fork per file, classify the file (the classifier accepts everything) and
 * move it with FileUtils.moveFileAtomically to the same relative path under
 * accepted; when that throws, move it to the same relative path under failed.
 * Every fork returns normally.
 */
module FileFilterComponent {
  import opened Fs
  import Sweep
  import FileUtils

  /** analyzeFile: every file is accepted. */
  function AnalyzeFile(file: Path): (accepted: bool)
    ensures accepted
  {
    true
  }

  /** The fork of one walked file. */
  function Step(d: Disk, faults: Faults, file: Path): Disk
  {
    var target := Rebase(file, if AnalyzeFile(file) then Accepted else Rejected);
    var afterFirst := FileUtils.MovedFile(d, faults, file, target);
    if FileUtils.MoveFileError(d, faults, file, target).None? then afterFirst
    else FileUtils.MovedFile(afterFirst, faults, file, Rebase(file, Failed))
  }

  ghost function Pass(d: Disk, faults: Faults, order: seq<Path>): Disk
  {
    Sweep.Run(d, order, (e, p) => Step(e, faults, p))
  }

  lemma PassStep(d: Disk, faults: Faults, order: seq<Path>)
    requires order != []
    ensures Pass(d, faults, order) == Pass(Step(d, faults, order[0]), faults, order[1..])
  {
  }

  /** The fork of one file: classify it and move it, to failed when that move throws. */
  method FilterOne(fs: FileSystem, filePath: Path)
    modifies fs
    ensures fs.View() == Step(old(fs.View()), fs.faults, filePath)
  {
    var targetDir := if AnalyzeFile(filePath) then Accepted else Rejected;
    var err := FileUtils.MoveFileAtomically(fs, filePath, Rebase(filePath, targetDir));
    if err.Some? {
      var err2 := FileUtils.MoveFileAtomically(fs, filePath, Rebase(filePath, Failed));
      // a failure here is logged; the fork still returns normally
    }
  }

  /** One pass: a failed walk is logged and changes nothing; otherwise one fork per file. */
  method Tick(fs: FileSystem) returns (ghost order: Option<seq<Path>>)
    modifies fs
    ensures order.None? <==> Root(Landed) !in old(fs.dirs)
    ensures order.None? ==> fs.View() == old(fs.View())
    ensures order.Some? ==>
              && Enumerates(order.value, Walked(old(fs.View()), Landed))
              && fs.View() == Pass(old(fs.View()), fs.faults, order.value)
  {
    var walk := fs.Walk(Landed);
    if walk.None? {
      return None;
    }
    var files := walk.value;
    ghost var d0 := fs.View();
    var i := 0;
    while i < |files|
      invariant 0 <= i <= |files|
      invariant Pass(fs.View(), fs.faults, files[i..]) == Pass(d0, fs.faults, files)
    {
      PassStep(fs.View(), fs.faults, files[i..]);
      FilterOne(fs, files[i]);
      assert files[i..][1..] == files[i + 1..];
      i := i + 1;
    }
    assert files[i..] == [];
    return Some(files);
  }

  /** Nothing is ever moved into rejected: the files there stay exactly as they were. */
  lemma {:induction false} RejectedIsUnreachable(d: Disk, faults: Faults, order: seq<Path>)
    requires forall q :: q in order ==> q.folder.stage == Landed
    ensures var r := Pass(d, faults, order);
            forall p: Path :: p.folder.stage == Rejected ==>
              (p in r.entries <==> p in d.entries) && (p in d.entries ==> r.entries[p] == d.entries[p])
  {
    var inv := (e: Disk) => RejectedAsIn(d, e);
    forall e: Disk, q | q in order && inv(e) ensures inv(Step(e, faults, q)) {
      forall p: Path | p.folder.stage == Rejected ensures SameAt(d, Step(e, faults, q), p) {
        StepFrame(e, faults, q, p);
      }
    }
    Sweep.Keeps(d, order, (e, q) => Step(e, faults, q), inv);
  }

  /**
   * A walked file ends at its relative path under accepted, or, when that
   * rename is refused and the one to failed is not, under failed; either way
   * with its content.
   */
  lemma {:induction false} FileIsRouted(d: Disk, faults: Faults, order: seq<Path>, file: Path)
    requires file in order && Distinct(order)
    requires forall q :: q in order ==> q.folder.stage == Landed
    requires file in d.entries
    requires !faults.rename(file, Rebase(file, Accepted)) || !faults.rename(file, Rebase(file, Failed))
    ensures var r := Pass(d, faults, order);
            var target := if !faults.rename(file, Rebase(file, Accepted)) then Rebase(file, Accepted)
                          else Rebase(file, Failed);
            && target in r.entries && r.entries[target] == d.entries[file] && file !in r.entries
  {
    var target := if !faults.rename(file, Rebase(file, Accepted)) then Rebase(file, Accepted) else Rebase(file, Failed);
    var content := d.entries[file];
    var step := (e, p) => Step(e, faults, p);
    var pre := (e: Disk) => file in e.entries && e.entries[file] == content;
    var post := (e: Disk) => target in e.entries && e.entries[target] == content && file !in e.entries;
    forall e: Disk, q | q in order && q != file && pre(e) ensures pre(step(e, q)) {
      StepFrame(e, faults, q, file);
    }
    forall e: Disk | pre(e) ensures post(step(e, file)) {
      OwnStep(e, faults, file);
    }
    forall e: Disk, q | q in order && q != file && post(e) ensures post(step(e, q)) {
      assert Rebase(q, Accepted) != target && Rebase(q, Failed) != target;
      StepFrame(e, faults, q, file);
      StepFrame(e, faults, q, target);
    }
    Sweep.Reaches(d, order, step, file, pre, post);
  }

  /** Every path under rejected holds in e what it held in d. */
  ghost predicate RejectedAsIn(d: Disk, e: Disk)
  {
    forall p: Path :: p.folder.stage == Rejected ==> SameAt(d, e, p)
  }

  /** A fork changes only its own file and that file's two possible targets. */
  lemma StepFrame(e: Disk, faults: Faults, q: Path, k: Path)
    requires k != q && k != Rebase(q, Accepted) && k != Rebase(q, Failed)
    ensures (k in Step(e, faults, q).entries <==> k in e.entries)
    ensures k in e.entries ==> Step(e, faults, q).entries[k] == e.entries[k]
  {
  }

  /** A file's own fork moves it to accepted, or to failed when that rename is refused. */
  lemma OwnStep(e: Disk, faults: Faults, file: Path)
    requires file in e.entries && file.folder.stage == Landed
    requires !faults.rename(file, Rebase(file, Accepted)) || !faults.rename(file, Rebase(file, Failed))
    ensures var target := if !faults.rename(file, Rebase(file, Accepted)) then Rebase(file, Accepted)
                          else Rebase(file, Failed);
            var r := Step(e, faults, file);
            target in r.entries && r.entries[target] == e.entries[file] && file !in r.entries
  {
  }
}
