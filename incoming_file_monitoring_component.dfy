/**
 * IncomingFileMonitoringComponent.call: walk the incoming tree, record each
 * file's size by path (-1 when unreadable), and move every file whose
 * non-negative size equals the size recorded by the previous call to the
 * same relative path under landed, without replacing an existing file. The
 * remembered sizes are replaced only when every move succeeded.
 */
module IncomingFileMonitoringComponent {
  import opened Fs
  import Sweep

  /** currentFiles: each walked file's size, or -1 when Files.size fails. */
  function CurrentFiles(files: set<Path>, size: Path -> Option<nat>): (m: map<Path, int>)
    ensures m.Keys == files
    ensures forall p :: p in m ==> (m[p] >= 0 <==> size(p).Some?)
  {
    map p | p in files :: SizeOr(size(p), -1)
  }

  /** A file is moved when its size is readable and the previous call recorded the same size. */
  predicate Due(previous: map<Path, int>, current: map<Path, int>, p: Path)
  {
    p in current && current[p] >= 0 && p in previous && previous[p] == current[p]
  }

  /** The filesystem, the number of forks and whether any fork failed. */
  datatype Tally = Tally(disk: Disk, processed: nat, failed: bool)

  /** One entry of currentFiles: maybe fork a move to landed at the same relative path. */
  function Step(t: Tally, faults: Faults, previous: map<Path, int>, current: map<Path, int>, p: Path): Tally
  {
    if Due(previous, current, p) then
      var target := Rebase(p, Landed);
      var d := AfterMkdirs(t.disk, target.folder);
      Tally(AfterMove(d, faults, p, target, false), t.processed + 1,
            t.failed || MoveError(d, faults, p, target, false).Some?)
    else t
  }

  ghost function Pass(t: Tally, faults: Faults, previous: map<Path, int>, current: map<Path, int>,
                      order: seq<Path>): Tally
  {
    Sweep.Run(t, order, (e, p) => Step(e, faults, previous, current, p))
  }

  lemma PassStep(t: Tally, faults: Faults, previous: map<Path, int>, current: map<Path, int>, order: seq<Path>)
    requires order != []
    ensures Pass(t, faults, previous, current, order)
            == Pass(Step(t, faults, previous, current, order[0]), faults, previous, current, order[1..])
  {
  }

  class Component {
    var previousFiles: map<Path, int>

    constructor ()
      ensures previousFiles == map[]
    {
      previousFiles := map[];
    }

    /**
     * call. A failed walk reports failed = 1 and changes nothing. Otherwise
     * the due files are moved (in the map's iteration order); processed
     * counts the forks, and a failed fork makes the call report failed = 1
     * and keep the previous sizes.
     */
    method Call(fs: FileSystem, size: Path -> Option<nat>) returns (stats: FileStats, ghost order: Option<seq<Path>>)
      modifies this, fs
      ensures stats.failed <= 1
      ensures order.None? <==> Root(Incoming) !in old(fs.dirs)
      ensures order.None? ==>
                stats == FileStats(0, 1) && previousFiles == old(previousFiles) && fs.View() == old(fs.View())
      ensures order.Some? ==>
                var current := CurrentFiles(Walked(old(fs.View()), Incoming), size);
                var t := Pass(Tally(old(fs.View()), 0, false), fs.faults, old(previousFiles), current, order.value);
                && Enumerates(order.value, current.Keys)
                && fs.View() == t.disk
                && stats == FileStats(t.processed, if t.failed then 1 else 0)
                && previousFiles == (if t.failed then old(previousFiles) else current)
    {
      var walk := fs.Walk(Incoming);
      if walk.None? {
        return FileStats(0, 1), None;
      }
      assert (set p | p in walk.value) == Walked(fs.View(), Incoming);
      var current := CurrentFiles((set p | p in walk.value), size);
      var entries := EnumerateSet(current.Keys);
      var processed, failed := MoveDueFiles(fs, previousFiles, current, entries);
      if failed {
        stats := FileStats(processed, 1);
      } else {
        previousFiles := current;
        stats := FileStats(processed, 0);
      }
      order := Some(entries);
    }
  }

  /** The fork for one entry of currentFiles: a due file is moved to landed at its relative path. */
  method MoveIfDue(fs: FileSystem, previous: map<Path, int>, current: map<Path, int>, path: Path,
                   processed: nat, failed: bool) returns (processed': nat, failed': bool)
    requires path in current
    modifies fs
    ensures Tally(fs.View(), processed', failed')
            == Step(Tally(old(fs.View()), processed, failed), fs.faults, previous, current, path)
  {
    processed', failed' := processed, failed;
    var sz := current[path];
    if sz >= 0 && path in previous && previous[path] == sz {
      var target := Rebase(path, Landed);
      fs.CreateDirectories(target.folder);
      var err := fs.Move(path, target, false);
      if err.Some? {
        failed' := true;
      }
      processed' := processed + 1;
    }
  }

  /** The forks over currentFiles, one after the other in the order given. */
  method MoveDueFiles(fs: FileSystem, previous: map<Path, int>, current: map<Path, int>, entries: seq<Path>)
    returns (processed: nat, failed: bool)
    requires forall p :: p in entries ==> p in current
    modifies fs
    ensures Tally(fs.View(), processed, failed) == Pass(Tally(old(fs.View()), 0, false), fs.faults, previous, current, entries)
  {
    processed, failed := 0, false;
    var i := 0;
    while i < |entries|
      invariant 0 <= i <= |entries|
      invariant Pass(Tally(fs.View(), processed, failed), fs.faults, previous, current, entries[i..])
                == Pass(Tally(old(fs.View()), 0, false), fs.faults, previous, current, entries)
    {
      PassStep(Tally(fs.View(), processed, failed), fs.faults, previous, current, entries[i..]);
      processed, failed := MoveIfDue(fs, previous, current, entries[i], processed, failed);
      assert entries[i..][1..] == entries[i + 1..];
      i := i + 1;
    }
    assert entries[i..] == [];
  }

  /** processed is the number of due files, whether or not their moves succeed. */
  lemma {:induction false} ProcessedCountsDueFiles(t: Tally, faults: Faults, previous: map<Path, int>,
                                                   current: map<Path, int>, order: seq<Path>)
    requires Distinct(order)
    ensures Pass(t, faults, previous, current, order).processed
            == t.processed + |set p | p in order && Due(previous, current, p)|
  {
    var due := (p: Path) => Due(previous, current, p);
    var step := (e, p) => Step(e, faults, previous, current, p);
    Sweep.Counts(t, order, step, (e: Tally) => e.processed, due);
    Sweep.CountIsCardinality(order, due);
    assert Sweep.Where(order, due) == set p | p in order && Due(previous, current, p);
  }

  /**
   * A due file lands at its relative path under landed with its content,
   * when nothing is at the target and the operating system allows the rename.
   */
  lemma {:induction false} DueFileLands(t: Tally, faults: Faults, previous: map<Path, int>,
                                        current: map<Path, int>, order: seq<Path>, p: Path)
    requires p in order && Distinct(order)
    requires forall q :: q in current ==> q.folder.stage == Incoming
    requires Due(previous, current, p)
    requires p in t.disk.entries && Rebase(p, Landed) !in t.disk.entries
    requires !faults.rename(p, Rebase(p, Landed))
    ensures var r := Pass(t, faults, previous, current, order).disk;
            && Rebase(p, Landed) in r.entries
            && r.entries[Rebase(p, Landed)] == t.disk.entries[p]
            && p !in r.entries
  {
    var dst, content := Rebase(p, Landed), t.disk.entries[p];
    var step := (e, q) => Step(e, faults, previous, current, q);
    var pre := (e: Tally) => p in e.disk.entries && e.disk.entries[p] == content && dst !in e.disk.entries;
    var post := (e: Tally) => dst in e.disk.entries && e.disk.entries[dst] == content && p !in e.disk.entries;
    forall e: Tally, q | q in order && q != p && pre(e) ensures pre(step(e, q)) {
      StepFrame(e, faults, previous, current, q, p);
      StepFrame(e, faults, previous, current, q, dst);
    }
    forall e: Tally | pre(e) ensures post(step(e, p)) {
      DueStep(e, faults, previous, current, p);
    }
    forall e: Tally, q | q in order && q != p && post(e) ensures post(step(e, q)) {
      StepFrame(e, faults, previous, current, q, p);
      StepFrame(e, faults, previous, current, q, dst);
    }
    Sweep.Reaches(t, order, step, p, pre, post);
  }

  /** A fork changes no path but its own file's and that file's target under landed. */
  lemma StepFrame(e: Tally, faults: Faults, previous: map<Path, int>, current: map<Path, int>, q: Path, k: Path)
    requires Due(previous, current, q) ==> k != q && k != Rebase(q, Landed)
    ensures SameAt(e.disk, Step(e, faults, previous, current, q).disk, k)
  {
  }

  /** A due file with nothing in its way lands under landed with its content, and the fork does not fail. */
  lemma DueStep(e: Tally, faults: Faults, previous: map<Path, int>, current: map<Path, int>, p: Path)
    requires forall r :: r in current ==> r.folder.stage == Incoming
    requires Due(previous, current, p)
    requires p in e.disk.entries && Rebase(p, Landed) !in e.disk.entries
    requires !faults.rename(p, Rebase(p, Landed))
    ensures var r := Step(e, faults, previous, current, p);
            && Rebase(p, Landed) in r.disk.entries && r.disk.entries[Rebase(p, Landed)] == e.disk.entries[p]
            && p !in r.disk.entries && r.failed == e.failed
  {
    assert Rebase(p, Landed) != p;
  }

  /** With nothing in the way of any due move, the call succeeds and the sizes are remembered. */
  lemma {:induction false} UnobstructedCallSucceeds(t: Tally, faults: Faults, previous: map<Path, int>,
                                                    current: map<Path, int>, order: seq<Path>)
    requires !t.failed
    requires forall q :: q in current ==> q.folder.stage == Incoming
    requires forall q :: q in order && Due(previous, current, q) ==>
               q in t.disk.entries && Rebase(q, Landed) !in t.disk.entries && !faults.rename(q, Rebase(q, Landed))
    requires Distinct(order)
    ensures !Pass(t, faults, previous, current, order).failed
    decreases |order|
  {
    if order != [] {
      var q := order[0];
      PassStep(t, faults, previous, current, order);
      var e := Step(t, faults, previous, current, q);
      if Due(previous, current, q) {
        DueStep(t, faults, previous, current, q);
      }
      // the due files not yet handled are still in place, with their targets free
      forall r | r in order[1..] && Due(previous, current, r)
        ensures r in e.disk.entries && Rebase(r, Landed) !in e.disk.entries
      {
        LaterDiffers(order, 0, r);
        if Due(previous, current, q) {
          assert r.folder.stage == q.folder.stage;
          assert Rebase(r, Landed) != Rebase(q, Landed);
        }
        StepFrame(t, faults, previous, current, q, r);
        StepFrame(t, faults, previous, current, q, Rebase(r, Landed));
      }
      DistinctTail(order);
      UnobstructedCallSucceeds(e, faults, previous, current, order[1..]);
    }
  }

  /** The first call after construction moves nothing and remembers the sizes it saw. */
  lemma {:induction false} FirstCallMovesNothing(t: Tally, faults: Faults, current: map<Path, int>, order: seq<Path>)
    ensures Pass(t, faults, map[], current, order) == t
  {
    Sweep.Keeps(t, order, (e, q) => Step(e, faults, map[], current, q), (e: Tally) => e == t);
  }
}
