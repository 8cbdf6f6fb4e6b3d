/**
 * IncomingFileMonitoring: once a minute, list the files directly in the
 * incoming folder with their sizes, and move to the landed folder (flat, by
 * file name) every file whose positive size equals the size seen on the
 * previous scan. The sizes of this scan become the previous sizes.
 */
module IncomingFileMonitoring {
  import opened Fs
  import Sweep
  import FileUtils

  /** The names of the listed files. */
  function Names(files: set<Path>): set<string>
  {
    set p | p in files :: p.name
  }

  /**
   * currentFileMap: for each listed incoming file, by name, Files.size or -1
   * when the size cannot be read. Only a readable, non-empty file has a
   * positive entry.
   */
  function CurrentFileMap(files: set<Path>, size: Path -> Option<nat>): (m: map<string, int>)
    ensures m.Keys == Names(files)
    ensures forall n :: n in m ==> m[n] >= -1 && (m[n] > 0 <==> exists k: nat :: k > 0 && size(Resolve(Incoming, n)) == Some(k))
  {
    map n | n in Names(files) :: SizeOr(size(Resolve(Incoming, n)), -1)
  }

  /** A file is ready when it was seen before with the same, positive size. */
  predicate Stable(previous: map<string, int>, current: map<string, int>, name: string)
  {
    name in previous && name in current && current[name] == previous[name] && current[name] > 0
  }

  /** The handling of one name of the current map. */
  function Step(d: Disk, faults: Faults, previous: map<string, int>, current: map<string, int>, name: string): Disk
  {
    if Stable(previous, current, name) then
      FileUtils.MovedFile(d, faults, Resolve(Incoming, name), Resolve(Landed, name))
    else d
  }

  /** The loop over the current map's entries, in the map's iteration order. */
  ghost function Pass(d: Disk, faults: Faults, previous: map<string, int>, current: map<string, int>,
                      order: seq<string>): Disk
  {
    Sweep.Run(d, order, (e, n) => Step(e, faults, previous, current, n))
  }

  class Monitor {
    var previousFileMap: map<string, int>

    constructor ()
      ensures previousFileMap == map[]
    {
      previousFileMap := map[];
    }

    /**
     * processIncomingFiles. When the listing fails nothing changes (the
     * exception ends this scan); otherwise the stable files are moved and the
     * current sizes replace the previous ones. order is the iteration order.
     */
    method ProcessIncomingFiles(fs: FileSystem, size: Path -> Option<nat>) returns (ghost order: Option<seq<string>>)
      modifies this, fs
      ensures order.None? <==> Root(Incoming) !in old(fs.dirs)
      ensures order.None? ==> previousFileMap == old(previousFileMap) && fs.View() == old(fs.View())
      ensures order.Some? ==>
                var current := CurrentFileMap(Listed(old(fs.View()), Incoming), size);
                && Enumerates(order.value, current.Keys)
                && previousFileMap == current
                && fs.View() == Pass(old(fs.View()), fs.faults, old(previousFileMap), current, order.value)
    {
      var listing := fs.List(Incoming);
      if listing.None? {
        return None;
      }
      var scan := listing.value;
      assert (set p | p in scan) == Listed(fs.View(), Incoming);
      var current := CurrentFileMap((set p | p in scan), size);
      var names := EnumerateSet(current.Keys);
      ghost var d0 := fs.View();
      var i := 0;
      while i < |names|
        invariant 0 <= i <= |names|
        invariant previousFileMap == old(previousFileMap)
        invariant Pass(fs.View(), fs.faults, previousFileMap, current, names[i..])
                  == Pass(d0, fs.faults, previousFileMap, current, names)
      {
        var name := names[i];
        if name in previousFileMap && current[name] == previousFileMap[name] && current[name] > 0 {
          var err := FileUtils.MoveFileAtomically(fs, Resolve(Incoming, name), Resolve(Landed, name));
          // a failed move is logged; the file is looked at again on the next scan
        }
        assert names[i..][1..] == names[i + 1..];
        i := i + 1;
      }
      assert names[i..] == [];
      previousFileMap := current;
      return Some(names);
    }
  }

  /**
   * A file whose size held still between two scans ends up in the landed
   * folder with its content, unless the operating system refuses the rename.
   */
  lemma {:induction false} StableFileLands(d: Disk, faults: Faults, previous: map<string, int>,
                                           current: map<string, int>, order: seq<string>, name: string)
    requires name in order && Distinct(order)
    requires Stable(previous, current, name)
    requires Resolve(Incoming, name) in d.entries
    requires !faults.rename(Resolve(Incoming, name), Resolve(Landed, name))
    ensures var r := Pass(d, faults, previous, current, order);
            && Resolve(Landed, name) in r.entries
            && r.entries[Resolve(Landed, name)] == d.entries[Resolve(Incoming, name)]
            && Resolve(Incoming, name) !in r.entries
  {
    var src, dst, content := Resolve(Incoming, name), Resolve(Landed, name), d.entries[Resolve(Incoming, name)];
    var step := (e, n) => Step(e, faults, previous, current, n);
    var pre := (e: Disk) => src in e.entries && e.entries[src] == content;
    var post := (e: Disk) => dst in e.entries && e.entries[dst] == content && src !in e.entries;
    forall e: Disk, y | y in order && y != name && pre(e) ensures pre(step(e, y)) {
      assert Resolve(Incoming, y) != src;
    }
    forall e: Disk, y | y in order && y != name && post(e) ensures post(step(e, y)) {
      assert Resolve(Incoming, y) != src && Resolve(Landed, y) != dst;
    }
    Sweep.Reaches(d, order, step, name, pre, post);
  }

  /** A file that was not stable stays where it is, with its content. */
  lemma {:induction false} UnstableFileStays(d: Disk, faults: Faults, previous: map<string, int>,
                                             current: map<string, int>, order: seq<string>, name: string)
    requires !Stable(previous, current, name)
    ensures var r := Pass(d, faults, previous, current, order);
            && (Resolve(Incoming, name) in r.entries <==> Resolve(Incoming, name) in d.entries)
            && (Resolve(Incoming, name) in d.entries ==>
                  r.entries[Resolve(Incoming, name)] == d.entries[Resolve(Incoming, name)])
  {
    var src := Resolve(Incoming, name);
    var step := (e, n) => Step(e, faults, previous, current, n);
    var inv := (e: Disk) => (src in e.entries <==> src in d.entries) && (src in d.entries ==> e.entries[src] == d.entries[src]);
    forall e: Disk, y | y in order && inv(e) ensures inv(step(e, y)) {
      if y == name {
      } else {
        assert Resolve(Incoming, y) != src && Resolve(Landed, y) != src;
      }
    }
    Sweep.Keeps(d, order, step, inv);
  }

  /** The first scan after start-up only records sizes: nothing is moved. */
  lemma {:induction false} FirstScanMovesNothing(d: Disk, faults: Faults, current: map<string, int>, order: seq<string>)
    ensures Pass(d, faults, map[], current, order) == d
  {
    var step := (e, n) => Step(e, faults, map[], current, n);
    Sweep.Keeps(d, order, step, (e: Disk) => e == d);
  }
}
