/**
 * FileMonitor.run, one pass of its loop: list the files directly in the
 * incoming folder with their sizes by name (-1 when unreadable), and rename
 * every file whose size equals the one recorded on the previous pass to
 * landed/name, atomically, without creating directories or replacing a
 * file. previousSizes is a local of run, so a pass takes it and returns its
 * next value.
 */
module FileMonitor {
  import opened Fs
  import Sweep

  function Names(files: set<Path>): set<string>
  {
    set p | p in files :: p.name
  }

  /** currentSizes: by file name, Files.size or -1 when it cannot be read. */
  function CurrentSizes(files: set<Path>, size: Path -> Option<nat>): (m: map<string, int>)
    ensures m.Keys == Names(files)
    ensures forall n :: n in m ==> (m[n] == -1 <==> size(Resolve(Incoming, n)).None?)
  {
    map n | n in Names(files) :: SizeOr(size(Resolve(Incoming, n)), -1)
  }

  /** The only test: the previous pass saw the same size, whatever it is. */
  predicate Due(previous: map<string, int>, current: map<string, int>, name: string)
  {
    name in current && name in previous && previous[name] == current[name]
  }

  function Step(d: Disk, faults: Faults, previous: map<string, int>, current: map<string, int>, name: string): Disk
  {
    if Due(previous, current, name) then AfterMove(d, faults, Resolve(Incoming, name), Resolve(Landed, name), false)
    else d
  }

  ghost function Pass(d: Disk, faults: Faults, previous: map<string, int>, current: map<string, int>,
                      order: seq<string>): Disk
  {
    Sweep.Run(d, order, (e, n) => Step(e, faults, previous, current, n))
  }

  lemma PassStep(d: Disk, faults: Faults, previous: map<string, int>, current: map<string, int>, order: seq<string>)
    requires order != []
    ensures Pass(d, faults, previous, current, order)
            == Pass(Step(d, faults, previous, current, order[0]), faults, previous, current, order[1..])
  {
  }

  /**
   * One pass. A failed listing is logged and keeps previousSizes; otherwise
   * the due files are renamed, each failure logged, and this pass's sizes
   * are returned as the next previousSizes.
   */
  method Tick(fs: FileSystem, previousSizes: map<string, int>, size: Path -> Option<nat>)
    returns (nextSizes: map<string, int>, ghost order: Option<seq<string>>)
    modifies fs
    ensures order.None? <==> Root(Incoming) !in old(fs.dirs)
    ensures order.None? ==> nextSizes == previousSizes && fs.View() == old(fs.View())
    ensures order.Some? ==>
              var current := CurrentSizes(Listed(old(fs.View()), Incoming), size);
              && Enumerates(order.value, current.Keys)
              && nextSizes == current
              && fs.View() == Pass(old(fs.View()), fs.faults, previousSizes, current, order.value)
  {
    var listing := fs.List(Incoming);
    if listing.None? {
      return previousSizes, None;
    }
    assert (set p | p in listing.value) == Listed(fs.View(), Incoming);
    var currentSizes := CurrentSizes((set p | p in listing.value), size);
    var names := EnumerateSet(currentSizes.Keys);
    ghost var d0 := fs.View();
    var i := 0;
    while i < |names|
      invariant 0 <= i <= |names|
      invariant Pass(fs.View(), fs.faults, previousSizes, currentSizes, names[i..])
                == Pass(d0, fs.faults, previousSizes, currentSizes, names)
    {
      var fileName := names[i];
      PassStep(fs.View(), fs.faults, previousSizes, currentSizes, names[i..]);
      if fileName in previousSizes && previousSizes[fileName] == currentSizes[fileName] {
        var err := fs.Move(Resolve(Incoming, fileName), Resolve(Landed, fileName), false);
        // a failure is logged and the loop goes on
      }
      assert names[i..][1..] == names[i + 1..];
      i := i + 1;
    }
    assert names[i..] == [];
    return currentSizes, Some(names);
  }

  /**
   * A due file, even an empty or twice-unreadable one, lands in landed under
   * its name when the landed folder exists, nothing has that name there, and
   * the rename is allowed.
   */
  lemma {:induction false} DueFileLands(d: Disk, faults: Faults, previous: map<string, int>,
                                        current: map<string, int>, order: seq<string>, name: string)
    requires name in order && Distinct(order)
    requires Due(previous, current, name)
    requires Resolve(Incoming, name) in d.entries && Resolve(Landed, name) !in d.entries
    requires Root(Landed) in d.dirs && !faults.rename(Resolve(Incoming, name), Resolve(Landed, name))
    ensures var r := Pass(d, faults, previous, current, order);
            && Resolve(Landed, name) in r.entries
            && r.entries[Resolve(Landed, name)] == d.entries[Resolve(Incoming, name)]
            && Resolve(Incoming, name) !in r.entries
  {
    var src, dst, content := Resolve(Incoming, name), Resolve(Landed, name), d.entries[Resolve(Incoming, name)];
    var step := (e, n) => Step(e, faults, previous, current, n);
    var pre := (e: Disk) => src in e.entries && e.entries[src] == content && dst !in e.entries && Root(Landed) in e.dirs;
    var post := (e: Disk) => dst in e.entries && e.entries[dst] == content && src !in e.entries;
    forall e: Disk, n | n in order && n != name && pre(e) ensures pre(step(e, n)) {
    }
    forall e: Disk, n | n in order && n != name && post(e) ensures post(step(e, n)) {
    }
    Sweep.Reaches(d, order, step, name, pre, post);
  }

  /** A file whose size changed, or that is new, stays in incoming untouched. */
  lemma {:induction false} ChangedFileStays(d: Disk, faults: Faults, previous: map<string, int>,
                                            current: map<string, int>, order: seq<string>, name: string)
    requires !Due(previous, current, name)
    ensures var r := Pass(d, faults, previous, current, order);
            var src := Resolve(Incoming, name);
            && (src in r.entries <==> src in d.entries)
            && (src in d.entries ==> r.entries[src] == d.entries[src])
  {
    var src := Resolve(Incoming, name);
    var step := (e, n) => Step(e, faults, previous, current, n);
    var inv := (e: Disk) => (src in e.entries <==> src in d.entries) && (src in d.entries ==> e.entries[src] == d.entries[src]);
    forall e: Disk, n | n in order && inv(e) ensures inv(step(e, n)) {
    }
    Sweep.Keeps(d, order, step, inv);
  }
}
