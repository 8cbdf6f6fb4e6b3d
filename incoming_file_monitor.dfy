/**
 * IncomingFileMonitor.run, one pass of its loop: walk the incoming tree,
 * record each file's size by path (0 when unreadable), and move every file
 * recorded with the same size on the previous pass to the same relative
 * path under landed, replacing what is there. previousMap is a local of run,
 * so a pass takes it and returns its next value.
 */
module IncomingFileMonitor {
  import opened Fs
  import Sweep
  import FileUtils

  /**
   * currentMap: each walked file's size, 0 when Files.size fails; an empty
   * file and an unreadable one are recorded alike.
   */
  function CurrentMap(files: set<Path>, size: Path -> Option<nat>): (m: map<Path, int>)
    ensures m.Keys == files
    ensures forall p :: p in m ==> m[p] >= 0 && (m[p] == 0 <==> size(p) == Some(0) || size(p).None?)
  {
    map p | p in files :: SizeOr(size(p), 0)
  }

  /** A file is forked for moving when the previous pass recorded the same size for its path. */
  predicate Due(previous: map<Path, int>, current: map<Path, int>, p: Path)
  {
    p in current && p in previous && previous[p] == current[p]
  }

  function Step(d: Disk, faults: Faults, previous: map<Path, int>, current: map<Path, int>, p: Path): Disk
  {
    if Due(previous, current, p) then FileUtils.MovedFile(d, faults, p, Rebase(p, Landed)) else d
  }

  ghost function Pass(d: Disk, faults: Faults, previous: map<Path, int>, current: map<Path, int>,
                      order: seq<Path>): Disk
  {
    Sweep.Run(d, order, (e, p) => Step(e, faults, previous, current, p))
  }

  lemma PassStep(d: Disk, faults: Faults, previous: map<Path, int>, current: map<Path, int>, order: seq<Path>)
    requires order != []
    ensures Pass(d, faults, previous, current, order)
            == Pass(Step(d, faults, previous, current, order[0]), faults, previous, current, order[1..])
  {
  }

  /**
   * One pass. A failed walk is logged and keeps previousMap; otherwise the
   * due files are moved, each failure swallowed, and this pass's sizes are
   * returned as the next previousMap.
   */
  method Tick(fs: FileSystem, previousMap: map<Path, int>, size: Path -> Option<nat>)
    returns (nextMap: map<Path, int>, ghost order: Option<seq<Path>>)
    modifies fs
    ensures order.None? <==> Root(Incoming) !in old(fs.dirs)
    ensures order.None? ==> nextMap == previousMap && fs.View() == old(fs.View())
    ensures order.Some? ==>
              var current := CurrentMap(Walked(old(fs.View()), Incoming), size);
              && Enumerates(order.value, current.Keys)
              && nextMap == current
              && fs.View() == Pass(old(fs.View()), fs.faults, previousMap, current, order.value)
  {
    var walk := fs.Walk(Incoming);
    if walk.None? {
      return previousMap, None;
    }
    assert (set p | p in walk.value) == Walked(fs.View(), Incoming);
    var currentMap := CurrentMap((set p | p in walk.value), size);
    var entries := EnumerateSet(currentMap.Keys);
    ghost var d0 := fs.View();
    var i := 0;
    while i < |entries|
      invariant 0 <= i <= |entries|
      invariant Pass(fs.View(), fs.faults, previousMap, currentMap, entries[i..])
                == Pass(d0, fs.faults, previousMap, currentMap, entries)
    {
      var filePath := entries[i];
      PassStep(fs.View(), fs.faults, previousMap, currentMap, entries[i..]);
      if filePath in previousMap && previousMap[filePath] == currentMap[filePath] {
        var err := FileUtils.MoveFileAtomically(fs, filePath, Rebase(filePath, Landed));
        // a failure is logged inside the fork and swallowed
      }
      assert entries[i..][1..] == entries[i + 1..];
      i := i + 1;
    }
    assert entries[i..] == [];
    return currentMap, Some(entries);
  }

  /** A due file lands at its relative path under landed with its content, unless the rename is refused. */
  lemma {:induction false} DueFileLands(d: Disk, faults: Faults, previous: map<Path, int>,
                                        current: map<Path, int>, order: seq<Path>, p: Path)
    requires p in order && Distinct(order)
    requires forall q :: q in current ==> q.folder.stage == Incoming
    requires Due(previous, current, p)
    requires p in d.entries && !faults.rename(p, Rebase(p, Landed))
    ensures var r := Pass(d, faults, previous, current, order);
            && Rebase(p, Landed) in r.entries
            && r.entries[Rebase(p, Landed)] == d.entries[p]
            && p !in r.entries
  {
    var dst, content := Rebase(p, Landed), d.entries[p];
    var step := (e, q) => Step(e, faults, previous, current, q);
    var pre := (e: Disk) => p in e.entries && e.entries[p] == content;
    var post := (e: Disk) => dst in e.entries && e.entries[dst] == content && p !in e.entries;
    forall e: Disk, q | q in order && q != p && pre(e) ensures pre(step(e, q)) {
      StepFrame(e, faults, previous, current, q, p);
    }
    forall e: Disk | pre(e) ensures post(step(e, p)) {
      assert dst != p;
    }
    forall e: Disk, q | q in order && q != p && post(e) ensures post(step(e, q)) {
      StepFrame(e, faults, previous, current, q, p);
      StepFrame(e, faults, previous, current, q, dst);
    }
    Sweep.Reaches(d, order, step, p, pre, post);
  }

  /** A fork changes no path but its own due file's and that file's target under landed. */
  lemma StepFrame(d: Disk, faults: Faults, previous: map<Path, int>, current: map<Path, int>, q: Path, k: Path)
    requires Due(previous, current, q) ==> k != q && k != Rebase(q, Landed)
    ensures SameAt(d, Step(d, faults, previous, current, q), k)
  {
  }

  /** A file whose size differs from the previous pass, or that is new, stays in incoming untouched. */
  lemma {:induction false} ChangedFileStays(d: Disk, faults: Faults, previous: map<Path, int>,
                                            current: map<Path, int>, order: seq<Path>, p: Path)
    requires p.folder.stage == Incoming
    requires !Due(previous, current, p)
    ensures var r := Pass(d, faults, previous, current, order);
            && (p in r.entries <==> p in d.entries)
            && (p in d.entries ==> r.entries[p] == d.entries[p])
  {
    var step := (e, q) => Step(e, faults, previous, current, q);
    var inv := (e: Disk) => (p in e.entries <==> p in d.entries) && (p in d.entries ==> e.entries[p] == d.entries[p]);
    forall e: Disk, q | q in order && inv(e) ensures inv(step(e, q)) {
      StepFrame(e, faults, previous, current, q, p);
    }
    Sweep.Keeps(d, order, step, inv);
  }

  /** The first pass, with the empty previousMap, moves nothing. */
  lemma {:induction false} FirstPassMovesNothing(d: Disk, faults: Faults, current: map<Path, int>, order: seq<Path>)
    ensures Pass(d, faults, map[], current, order) == d
  {
    Sweep.Keeps(d, order, (e, q) => Step(e, faults, map[], current, q), (e: Disk) => e == d);
  }
}
