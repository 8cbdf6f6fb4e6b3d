/**
 * FileMonitoringComponent.run, one pass of its loop: list the files directly
 * in the incoming folder and, one after the other, read each file's size
 * twice, a second apart; when the two reads agree, rename the file to
 * landed/name atomically without replacing. The first exception (a failed
 * size read or rename) ends the pass.
 */
module FileMonitoringComponent {
  import opened Fs
  import Sweep

  /** The filesystem, and whether an exception has ended the pass. */
  datatype Scan = Scan(disk: Disk, stopped: bool)

  /**
   * One listed file. before and after are the two size reads; a None is an
   * IOException.
   */
  function Step(s: Scan, faults: Faults, before: Path -> Option<nat>, after: Path -> Option<nat>, file: Path): Scan
  {
    if s.stopped then s
    else if before(file).None? || after(file).None? then Scan(s.disk, true)
    else if before(file) == after(file) then
      var target := Resolve(Landed, file.name);
      Scan(AfterMove(s.disk, faults, file, target, false), MoveError(s.disk, faults, file, target, false).Some?)
    else s
  }

  ghost function Pass(s: Scan, faults: Faults, before: Path -> Option<nat>, after: Path -> Option<nat>,
                      order: seq<Path>): Scan
  {
    Sweep.Run(s, order, (e, p) => Step(e, faults, before, after, p))
  }

  lemma PassStep(s: Scan, faults: Faults, before: Path -> Option<nat>, after: Path -> Option<nat>, order: seq<Path>)
    requires order != []
    ensures Pass(s, faults, before, after, order)
            == Pass(Step(s, faults, before, after, order[0]), faults, before, after, order[1..])
  {
  }

  /** Once an exception has ended the pass, the files after it are not looked at. */
  lemma {:induction false} StoppedPassChangesNothing(s: Scan, faults: Faults, before: Path -> Option<nat>,
                                                     after: Path -> Option<nat>, order: seq<Path>)
    requires s.stopped
    ensures Pass(s, faults, before, after, order) == s
  {
    Sweep.Keeps(s, order, (e, p) => Step(e, faults, before, after, p), (e: Scan) => e == s);
  }

  /**
   * One pass: the listing, then the files in listing order until the first
   * exception. A failed listing changes nothing.
   */
  method Tick(fs: FileSystem, before: Path -> Option<nat>, after: Path -> Option<nat>)
    returns (ghost order: Option<seq<Path>>)
    modifies fs
    ensures order.None? <==> Root(Incoming) !in old(fs.dirs)
    ensures order.None? ==> fs.View() == old(fs.View())
    ensures order.Some? ==>
              && Enumerates(order.value, Listed(old(fs.View()), Incoming))
              && fs.View() == Pass(Scan(old(fs.View()), false), fs.faults, before, after, order.value).disk
  {
    var listing := fs.List(Incoming);
    if listing.None? {
      return None;
    }
    var files := listing.value;
    ghost var d0 := fs.View();
    var stopped := false;
    var i := 0;
    while i < |files| && !stopped
      invariant 0 <= i <= |files|
      invariant Pass(Scan(fs.View(), stopped), fs.faults, before, after, files[i..])
                == Pass(Scan(d0, false), fs.faults, before, after, files)
    {
      var file := files[i];
      PassStep(Scan(fs.View(), stopped), fs.faults, before, after, files[i..]);
      var size1 := before(file);
      var size2 := after(file);
      if size1.None? || size2.None? {
        stopped := true;
      } else if size1 == size2 {
        var err := fs.Move(file, Resolve(Landed, file.name), false);
        stopped := err.Some?;
      }
      assert files[i..][1..] == files[i + 1..];
      i := i + 1;
    }
    if stopped {
      StoppedPassChangesNothing(Scan(fs.View(), stopped), fs.faults, before, after, files[i..]);
    } else {
      assert files[i..] == [];
    }
    return Some(files);
  }

  /** A file whose two reads differ stays in incoming untouched, whatever else happens in the pass. */
  lemma {:induction false} UnstableFileStays(s: Scan, faults: Faults, before: Path -> Option<nat>,
                                             after: Path -> Option<nat>, order: seq<Path>, file: Path)
    requires file.folder.stage == Incoming
    requires before(file) != after(file)
    ensures var r := Pass(s, faults, before, after, order).disk;
            && (file in r.entries <==> file in s.disk.entries)
            && (file in s.disk.entries ==> r.entries[file] == s.disk.entries[file])
  {
    var step := (e, p) => Step(e, faults, before, after, p);
    var inv := (e: Scan) => (file in e.disk.entries <==> file in s.disk.entries)
                            && (file in s.disk.entries ==> e.disk.entries[file] == s.disk.entries[file]);
    forall e: Scan, p | p in order && inv(e) ensures inv(step(e, p)) {
    }
    Sweep.Keeps(s, order, step, inv);
  }

  /** One file whose reads succeed and whose rename, if due, is unobstructed. */
  lemma ClearStep(e: Scan, faults: Faults, before: Path -> Option<nat>, after: Path -> Option<nat>, q: Path)
    requires !e.stopped && Root(Landed) in e.disk.dirs && q in e.disk.entries
    requires before(q).Some? && after(q).Some?
    requires before(q) == after(q) ==> Resolve(Landed, q.name) !in e.disk.entries && !faults.rename(q, Resolve(Landed, q.name))
    requires q.folder == Root(Incoming)
    ensures var e' := Step(e, faults, before, after, q);
            && !e'.stopped && e'.disk.dirs == e.disk.dirs
            && e'.disk.entries == if before(q) == after(q) then (e.disk.entries - {q})[Resolve(Landed, q.name) := e.disk.entries[q]]
                                  else e.disk.entries
  {
  }

  /**
   * When every size read succeeds and nothing blocks a rename, the pass runs
   * to its end and every file whose reads agree, empty ones included, is in
   * landed under its name.
   */
  lemma {:induction false} ClearPassMovesStableFiles(s: Scan, faults: Faults, before: Path -> Option<nat>,
                                                     after: Path -> Option<nat>, order: seq<Path>)
    requires !s.stopped && Distinct(order) && Root(Landed) in s.disk.dirs
    requires forall p :: p in order ==> p.folder == Root(Incoming) && p in s.disk.entries
    requires forall p :: p in order ==> before(p).Some? && after(p).Some?
    requires forall p :: p in order && before(p) == after(p) ==>
               Resolve(Landed, p.name) !in s.disk.entries && !faults.rename(p, Resolve(Landed, p.name))
    ensures var r := Pass(s, faults, before, after, order);
            && !r.stopped
            && forall p :: p in order && before(p) == after(p) ==>
                 p !in r.disk.entries && Resolve(Landed, p.name) in r.disk.entries
                 && r.disk.entries[Resolve(Landed, p.name)] == s.disk.entries[p]
  {
    var e := s;
    var k := 0;
    while k < |order|
      invariant 0 <= k <= |order|
      invariant !e.stopped && e.disk.dirs == s.disk.dirs
      invariant Pass(e, faults, before, after, order[k..]) == Pass(s, faults, before, after, order)
      invariant forall j :: k <= j < |order| ==>
                  order[j] in e.disk.entries && e.disk.entries[order[j]] == s.disk.entries[order[j]]
                  && (before(order[j]) == after(order[j]) ==> Resolve(Landed, order[j].name) !in e.disk.entries)
      invariant forall j :: 0 <= j < k && before(order[j]) == after(order[j]) ==>
                  order[j] !in e.disk.entries && Resolve(Landed, order[j].name) in e.disk.entries
                  && e.disk.entries[Resolve(Landed, order[j].name)] == s.disk.entries[order[j]]
    {
      var q := order[k];
      PassStep(e, faults, before, after, order[k..]);
      ClearStep(e, faults, before, after, q);
      var e' := Step(e, faults, before, after, q);
      forall j | k < j < |order| ensures order[j].name != q.name {
        assert order[j] != q;
      }
      forall j | 0 <= j < k ensures order[j].name != q.name {
        assert order[j] != q;
      }
      assert order[k..][1..] == order[k + 1..];
      e := e';
      k := k + 1;
    }
    forall p | p in order && before(p) == after(p)
      ensures p !in e.disk.entries && Resolve(Landed, p.name) in e.disk.entries
              && e.disk.entries[Resolve(Landed, p.name)] == s.disk.entries[p]
    {
      var j :| 0 <= j < |order| && order[j] == p;
    }
    assert order[k..] == [];
  }
}
