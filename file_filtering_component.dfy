/**
 * FileFilteringComponent.run, one pass of its loop: list the files directly
 * in the landed folder and, one after the other, classify each by its first
 * byte (even: accepted, odd: rejected, unreadable or empty: failed) and
 * rename it there under its name, atomically, without replacing. The first
 * rename that throws ends the pass.
 */
module FileFilteringComponent {
  import opened Fs
  import Sweep
  import JavaLang

  /**
   * analyzeFile: true when the first byte is even, false when it is odd, and
   * null (None) when the file cannot be read or mapped (mapped is None) or
   * is empty.
   */
  function AnalyzeFile(mapped: Option<seq<bv8>>): (r: Option<bool>)
    ensures r.None? <==> mapped.None? || mapped.value == []
    ensures r == Some(true) <==> mapped.Some? && mapped.value != [] && (mapped.value[0] as int) % 2 == 0
    ensures r == Some(false) <==> mapped.Some? && mapped.value != [] && (mapped.value[0] as int) % 2 == 1
  {
    if mapped.None? || mapped.value == [] then None
    else
      var b := mapped.value[0];
      JavaLang.SignedParity(b);
      Some(JavaLang.Rem(JavaLang.SignedByte(b), 2) == 0)
  }

  /** The folder a classification sends a file to. */
  function TargetStage(result: Option<bool>): Stage
  {
    if result.Some? then (if result.value then Accepted else Rejected) else Failed
  }

  /** The filesystem, and whether an exception has ended the pass. */
  datatype Scan = Scan(disk: Disk, stopped: bool)

  function Step(s: Scan, faults: Faults, read: Path -> Option<seq<bv8>>, file: Path): Scan
  {
    if s.stopped then s
    else
      var target := Resolve(TargetStage(AnalyzeFile(read(file))), file.name);
      Scan(AfterMove(s.disk, faults, file, target, false), MoveError(s.disk, faults, file, target, false).Some?)
  }

  ghost function Pass(s: Scan, faults: Faults, read: Path -> Option<seq<bv8>>, order: seq<Path>): Scan
  {
    Sweep.Run(s, order, (e, p) => Step(e, faults, read, p))
  }

  lemma PassStep(s: Scan, faults: Faults, read: Path -> Option<seq<bv8>>, order: seq<Path>)
    requires order != []
    ensures Pass(s, faults, read, order) == Pass(Step(s, faults, read, order[0]), faults, read, order[1..])
  {
  }

  /** Once a rename has thrown, the files after it are left for the next pass. */
  lemma {:induction false} StoppedPassChangesNothing(s: Scan, faults: Faults, read: Path -> Option<seq<bv8>>,
                                                     order: seq<Path>)
    requires s.stopped
    ensures Pass(s, faults, read, order) == s
  {
    Sweep.Keeps(s, order, (e, p) => Step(e, faults, read, p), (e: Scan) => e == s);
  }

  /** One pass: a failed listing changes nothing; otherwise the files in order until a rename throws. */
  method Tick(fs: FileSystem, read: Path -> Option<seq<bv8>>) returns (ghost order: Option<seq<Path>>)
    modifies fs
    ensures order.None? <==> Root(Landed) !in old(fs.dirs)
    ensures order.None? ==> fs.View() == old(fs.View())
    ensures order.Some? ==>
              && Enumerates(order.value, Listed(old(fs.View()), Landed))
              && fs.View() == Pass(Scan(old(fs.View()), false), fs.faults, read, order.value).disk
  {
    var listing := fs.List(Landed);
    if listing.None? {
      return None;
    }
    var files := listing.value;
    ghost var d0 := fs.View();
    var stopped := false;
    var i := 0;
    while i < |files| && !stopped
      invariant 0 <= i <= |files|
      invariant Pass(Scan(fs.View(), stopped), fs.faults, read, files[i..])
                == Pass(Scan(d0, false), fs.faults, read, files)
    {
      var file := files[i];
      PassStep(Scan(fs.View(), stopped), fs.faults, read, files[i..]);
      var result := AnalyzeFile(read(file));
      var targetPath := if result.Some? then (if result.value then Accepted else Rejected) else Failed;
      var err := fs.Move(file, Resolve(targetPath, file.name), false);
      stopped := err.Some?;
      assert files[i..][1..] == files[i + 1..];
      i := i + 1;
    }
    if stopped {
      StoppedPassChangesNothing(Scan(fs.View(), stopped), fs.faults, read, files[i..]);
    } else {
      assert files[i..] == [];
    }
    return Some(files);
  }

  /** file has been renamed to target, keeping content. */
  ghost predicate Routed(e: Scan, file: Path, target: Path, content: Entry)
  {
    target in e.disk.entries && e.disk.entries[target] == content && file !in e.disk.entries
  }

  /** Another landed file's step leaves a routed file where it is. */
  lemma OtherStepKeepsRouted(e: Scan, faults: Faults, read: Path -> Option<seq<bv8>>, q: Path,
                             file: Path, target: Path, content: Entry)
    requires Routed(e, file, target, content)
    requires q.folder == Root(Landed) && file.folder == Root(Landed) && q != file
    requires target == Resolve(TargetStage(AnalyzeFile(read(file))), file.name)
    ensures Routed(Step(e, faults, read, q), file, target, content)
  {
    assert q.name != file.name;
  }

  /**
   * A file the pass reaches without having stopped, whose rename is not
   * blocked, ends in the folder its classification names, with its content,
   * whatever the later files do.
   */
  lemma {:induction false} ReachedFileIsRouted(s: Scan, faults: Faults, read: Path -> Option<seq<bv8>>,
                                               order: seq<Path>, k: nat)
    requires k < |order| && Distinct(order)
    requires forall q :: q in order ==> q.folder == Root(Landed)
    requires var m := Pass(s, faults, read, order[..k]);
             var target := Resolve(TargetStage(AnalyzeFile(read(order[k]))), order[k].name);
             && !m.stopped && order[k] in m.disk.entries
             && MoveError(m.disk, faults, order[k], target, false).None?
    ensures var m := Pass(s, faults, read, order[..k]);
            var r := Pass(s, faults, read, order).disk;
            var target := Resolve(TargetStage(AnalyzeFile(read(order[k]))), order[k].name);
            && target in r.entries && r.entries[target] == m.disk.entries[order[k]] && order[k] !in r.entries
  {
    var file := order[k];
    var m := Pass(s, faults, read, order[..k]);
    var target := Resolve(TargetStage(AnalyzeFile(read(file))), file.name);
    var content := m.disk.entries[file];
    var step := (e, p) => Step(e, faults, read, p);
    PassSplits(s, faults, read, order, k);
    var later := order[k + 1..];
    assert Routed(Step(m, faults, read, file), file, target, content);
    forall e: Scan, q | q in later && Routed(e, file, target, content)
      ensures Routed(step(e, q), file, target, content)
    {
      LaterDiffers(order, k, q);
      OtherStepKeepsRouted(e, faults, read, q, file, target, content);
    }
    Sweep.Keeps(Step(m, faults, read, file), later, step, (e: Scan) => Routed(e, file, target, content));
  }

  /**
   * When analyzeFile maps the bytes the k-th file holds at its turn, a byte
   * file the pass routes ends in accepted exactly when its first byte is
   * even, in rejected exactly when it is odd, and in failed when it is empty
   * or cannot be read, holding those bytes.
   */
  lemma ReachedFileRoutedByContent(s: Scan, faults: Faults, read: Path -> Option<seq<bv8>>,
                                   order: seq<Path>, k: nat)
    requires k < |order| && Distinct(order)
    requires forall q :: q in order ==> q.folder == Root(Landed)
    requires var m := Pass(s, faults, read, order[..k]);
             var target := Resolve(TargetStage(AnalyzeFile(read(order[k]))), order[k].name);
             && !m.stopped && order[k] in m.disk.entries
             && m.disk.entries[order[k]].Blob? && ReadsEntry(m.disk, read, order[k])
             && MoveError(m.disk, faults, order[k], target, false).None?
    ensures var bytes := Pass(s, faults, read, order[..k]).disk.entries[order[k]].bytes;
            var r := Pass(s, faults, read, order).disk;
            var target := Resolve(TargetStage(AnalyzeFile(read(order[k]))), order[k].name);
            && target in r.entries && r.entries[target] == Blob(bytes) && order[k] !in r.entries
            && (target.folder == Root(Accepted) <==> read(order[k]).Some? && bytes != [] && (bytes[0] as int) % 2 == 0)
            && (target.folder == Root(Rejected) <==> read(order[k]).Some? && bytes != [] && (bytes[0] as int) % 2 == 1)
            && (target.folder == Root(Failed) <==> read(order[k]).None? || bytes == [])
  {
    ReachedFileIsRouted(s, faults, read, order, k);
  }

  /** A pass is the prefix before position k, then the step of the k-th file, then the rest. */
  lemma PassSplits(s: Scan, faults: Faults, read: Path -> Option<seq<bv8>>, order: seq<Path>, k: nat)
    requires k < |order|
    ensures var m := Pass(s, faults, read, order[..k]);
            Pass(s, faults, read, order) == Pass(Step(m, faults, read, order[k]), faults, read, order[k + 1..])
  {
    Sweep.RunAppend(s, order[..k], order[k..], (e, p) => Step(e, faults, read, p));
    assert order[..k] + order[k..] == order;
    PassStep(Pass(s, faults, read, order[..k]), faults, read, order[k..]);
    assert order[k..][1..] == order[k + 1..];
  }
}
