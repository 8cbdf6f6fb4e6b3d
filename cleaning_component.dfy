/**
 * CleaningComponent.run, one iteration of its loop: walk manifests-uploaded
 * to any depth and, in one fork per regular file, move the file to the same
 * relative path under manifests-completed with FileUtils.moveFileAtomically
 * (parent directories created, an existing target replaced). A failed move
 * is logged inside its fork, so it neither fails the scope nor affects the
 * other files; a failed walk is logged and ends the iteration. The contents
 * of the manifests are never read.
 *
 * The forks run one after another in walk order.
 */
module CleaningComponent {
  import opened Fs
  import Sweep
  import FileUtils

  /** manifestCompleted.resolve(manifestUploaded.relativize(m)). */
  function Target(m: Path): (t: Path)
    ensures t.folder.stage == ManifestsCompleted && t.folder.sub == m.folder.sub && t.name == m.name
  {
    Rebase(m, ManifestsCompleted)
  }

  /** One fork: the move, whose failure is dropped. */
  function Step(d: Disk, faults: Faults, m: Path): Disk
  {
    FileUtils.MovedFile(d, faults, m, Target(m))
  }

  ghost function Pass(d: Disk, faults: Faults, order: seq<Path>): Disk
  {
    Sweep.Run(d, order, (e, m) => Step(e, faults, m))
  }

  lemma PassStep(d: Disk, faults: Faults, order: seq<Path>)
    requires order != []
    ensures Pass(d, faults, order) == Pass(Step(d, faults, order[0]), faults, order[1..])
  {
  }

  /** One iteration of the loop; false when the walk failed. */
  method Clean(fs: FileSystem) returns (walked: bool, ghost order: seq<Path>)
    modifies fs
    ensures walked <==> Root(ManifestsUploaded) in old(fs.dirs)
    ensures !walked ==> fs.View() == old(fs.View())
    ensures walked ==> Enumerates(order, Walked(old(fs.View()), ManifestsUploaded))
                       && fs.View() == Pass(old(fs.View()), fs.faults, order)
  {
    order := [];
    var walk := fs.Walk(ManifestsUploaded);
    if walk.None? {
      return false, order;
    }
    var manifests := walk.value;
    order := manifests;
    ghost var d0 := fs.View();
    var i := 0;
    while i < |manifests|
      invariant 0 <= i <= |manifests|
      invariant Pass(fs.View(), fs.faults, manifests[i..]) == Pass(d0, fs.faults, manifests)
    {
      PassStep(fs.View(), fs.faults, manifests[i..]);
      var manifestPath := manifests[i];
      var err := FileUtils.MoveFileAtomically(fs, manifestPath, Target(manifestPath));
      // an IOException is logged inside the fork
      assert manifests[i..][1..] == manifests[i + 1..];
      i := i + 1;
    }
    assert manifests[i..] == [];
    return true, order;
  }

  /** Every walked manifest the operating system lets move ends up at its target, with its content. */
  lemma ManifestIsRetired(d: Disk, faults: Faults, order: seq<Path>, m: Path)
    requires Enumerates(order, Walked(d, ManifestsUploaded)) && m in order
    requires !faults.rename(m, Target(m))
    ensures var r := Pass(d, faults, order);
            && Target(m) in r.entries && r.entries[Target(m)] == d.entries[m]
            && m !in r.entries
            && Ancestors(Target(m).folder) <= r.dirs
  {
    var c := d.entries[m];
    var step := (e, x) => Step(e, faults, x);
    var pre := (e: Disk) => m in e.entries && e.entries[m] == c;
    var post := (e: Disk) => Target(m) in e.entries && e.entries[Target(m)] == c && m !in e.entries
                             && Ancestors(Target(m).folder) <= e.dirs;
    forall e: Disk, y: Path | y in order && y != m && pre(e) ensures pre(step(e, y)) {
      assert y.folder.stage == ManifestsUploaded;
    }
    forall e: Disk, y: Path | y in order && y != m && post(e) ensures post(step(e, y)) {
      assert y.folder.stage == ManifestsUploaded && Target(y) != Target(m);
    }
    Sweep.Reaches(d, order, step, m, pre, post);
  }

  /** A manifest whose move fails stays where it was, whatever happens to the others. */
  lemma FailedMoveLeavesManifest(d: Disk, faults: Faults, order: seq<Path>, m: Path)
    requires Enumerates(order, Walked(d, ManifestsUploaded)) && m in order
    requires faults.rename(m, Target(m))
    ensures var r := Pass(d, faults, order);
            m in r.entries && r.entries[m] == d.entries[m]
  {
    var c := d.entries[m];
    var step := (e, x) => Step(e, faults, x);
    var pre := (e: Disk) => m in e.entries && e.entries[m] == c;
    forall e: Disk, y: Path | y in order && y != m && pre(e) ensures pre(step(e, y)) {
      assert y.folder.stage == ManifestsUploaded;
    }
    Sweep.Reaches(d, order, step, m, pre, pre);
  }

  /** Only manifests move: every path outside the two manifest folders keeps its content, read or not. */
  lemma OnlyManifestsMove(d: Disk, faults: Faults, order: seq<Path>, p: Path)
    requires Enumerates(order, Walked(d, ManifestsUploaded))
    requires p.folder.stage != ManifestsUploaded && p.folder.stage != ManifestsCompleted
    ensures var r := Pass(d, faults, order);
            (p in r.entries <==> p in d.entries) && (p in d.entries ==> r.entries[p] == d.entries[p])
  {
    var step := (e, x) => Step(e, faults, x);
    var inv := (e: Disk) => (p in e.entries <==> p in d.entries) && (p in d.entries ==> e.entries[p] == d.entries[p]);
    forall e: Disk, y: Path | y in order && inv(e) ensures inv(step(e, y)) {
      assert y.folder.stage == ManifestsUploaded;
    }
    Sweep.Keeps(d, order, step, inv);
  }
}
