/**
 * ManifestRegistratingComponent.call: walk the manifest-uploaded tree and
 * fork one task per manifest, counting each as processed. A fork parses the
 * manifest as a record of (path, size) entries, groups the entries by size
 * parity ("uploaded" when size % 2 == 0, "failed" otherwise; the counts are
 * only logged) and moves the manifest to manifest-registered/name. Any
 * exception moves the manifest to manifest-failed/name (a failure of that
 * move is logged) and fails the fork, which makes the call report
 * failed = 1; so does a failed walk. Moves create the parent directories
 * and rename atomically without replacing, as Util.atomicMove does.
 */
module ManifestRegistratingComponent {
  import opened Fs
  import Sweep
  import JavaLang
  import Util

  /** The group of an entry: Java's size % 2 == 0, so a negative odd size (-1) is "failed". */
  function Group(size: int): (g: string)
    ensures g == "uploaded" <==> size % 2 == 0
    ensures g == "failed" <==> size % 2 != 0
  {
    JavaLang.RemTwoIsZeroIffEven(size);
    if JavaLang.Rem(size, 2) == 0 then "uploaded" else "failed"
  }

  /** groupingBy(group, counting()): only groups with at least one entry appear. */
  function GroupCounts(infos: seq<FileInfo>): (counts: map<string, nat>)
    ensures forall g :: g in counts ==> (g == "uploaded" || g == "failed") && counts[g] > 0
    ensures "uploaded" in counts <==> exists i :: 0 <= i < |infos| && infos[i].size % 2 == 0
    ensures "failed" in counts <==> exists i :: 0 <= i < |infos| && infos[i].size % 2 != 0
    decreases |infos|
  {
    if infos == [] then map[]
    else
      var rest := GroupCounts(infos[1..]);
      assert forall i :: 1 <= i < |infos| ==> infos[i] == infos[1..][i - 1];
      assert forall i :: 0 <= i < |infos[1..]| ==> infos[1..][i] == infos[i + 1];
      var g := Group(infos[0].size);
      rest[g := (if g in rest then rest[g] else 0) + 1]
  }

  /** A group's count, zero when the group is absent. */
  function Count(counts: map<string, nat>, g: string): nat
  {
    if g in counts then counts[g] else 0
  }

  /** The two counts add up to the number of entries in the manifest. */
  lemma {:induction false} CountsSumToEntries(infos: seq<FileInfo>)
    ensures Count(GroupCounts(infos), "uploaded") + Count(GroupCounts(infos), "failed") == |infos|
    decreases |infos|
  {
    if infos != [] {
      CountsSumToEntries(infos[1..]);
    }
  }

  /** An entry whose size could not be read (-1) is counted as failed. */
  lemma UnreadableSizeIsFailed(path: Path)
    ensures GroupCounts([FileInfo(path, -1)]) == map["failed" := 1]
  {
  }

  /** The filesystem and whether some fork has failed. */
  datatype Tally = Tally(disk: Disk, failed: bool)

  /** A manifest parses when the file holds a record. */
  predicate Parses(d: Disk, m: Path)
  {
    m in d.entries && d.entries[m].Doc? && d.entries[m].doc.Record?
  }

  /** The fork of one walked manifest. */
  function Step(t: Tally, faults: Faults, m: Path): Tally
  {
    var target := Resolve(ManifestsRegistered, m.name);
    if Parses(t.disk, m) && Util.AtomicMoveError(t.disk, faults, m, target).None? then
      Tally(Util.AtomicMoved(t.disk, faults, m, target), t.failed)
    else
      var tried := if Parses(t.disk, m) then Util.AtomicMoved(t.disk, faults, m, target) else t.disk;
      Tally(Util.AtomicMoved(tried, faults, m, Resolve(ManifestsFailed, m.name)), true)
  }

  ghost function Pass(t: Tally, faults: Faults, order: seq<Path>): Tally
  {
    Sweep.Run(t, order, (e, p) => Step(e, faults, p))
  }

  lemma PassStep(t: Tally, faults: Faults, order: seq<Path>)
    requires order != []
    ensures Pass(t, faults, order) == Pass(Step(t, faults, order[0]), faults, order[1..])
  {
  }

  /** The fork body; true when it completed normally. */
  method Register(fs: FileSystem, manifest: Path) returns (ok: bool)
    modifies fs
    ensures Tally(fs.View(), !ok) == Step(Tally(old(fs.View()), false), fs.faults, manifest)
  {
    ok := false;
    if manifest in fs.entries && fs.entries[manifest].Doc? && fs.entries[manifest].doc.Record? {
      var manifestRec := fs.entries[manifest].doc;
      var counts := GroupCounts(manifestRec.infos);
      // the counts are logged
      var err := Util.AtomicMove(fs, manifest, Resolve(ManifestsRegistered, manifest.name));
      ok := err.None?;
    }
    if !ok {
      var err := Util.AtomicMove(fs, manifest, Resolve(ManifestsFailed, manifest.name));
      // a failure here is logged; the original exception fails the fork
    }
  }

  /** call(): processed counts the forks, failed is 1 when the walk or any fork failed. */
  method Call(fs: FileSystem) returns (stats: FileStats, ghost order: Option<seq<Path>>)
    modifies fs
    ensures order.None? <==> Root(ManifestsUploaded) !in old(fs.dirs)
    ensures order.None? ==> stats == FileStats(0, 1) && fs.View() == old(fs.View())
    ensures order.Some? ==>
              var t := Pass(Tally(old(fs.View()), false), fs.faults, order.value);
              && Enumerates(order.value, Walked(old(fs.View()), ManifestsUploaded))
              && fs.View() == t.disk
              && stats == FileStats(|order.value|, if t.failed then 1 else 0)
  {
    var walk := fs.Walk(ManifestsUploaded);
    if walk.None? {
      return FileStats(0, 1), None;
    }
    var manifestFiles := walk.value;
    ghost var start := Tally(fs.View(), false);
    var processed := 0;
    var failed := false;
    while processed < |manifestFiles|
      invariant 0 <= processed <= |manifestFiles|
      invariant Pass(Tally(fs.View(), failed), fs.faults, manifestFiles[processed..]) == Pass(start, fs.faults, manifestFiles)
    {
      ghost var before := Tally(fs.View(), failed);
      PassStep(before, fs.faults, manifestFiles[processed..]);
      var ok := Register(fs, manifestFiles[processed]);
      failed := failed || !ok;
      assert Tally(fs.View(), failed) == Step(before, fs.faults, manifestFiles[processed]);
      assert manifestFiles[processed..][1..] == manifestFiles[processed + 1..];
      processed := processed + 1;
    }
    assert manifestFiles[processed..] == [];
    return FileStats(processed, if failed then 1 else 0), Some(manifestFiles);
  }

  /**
   * Over a whole pass, a walked manifest that parses and whose registration
   * rename is allowed ends in manifest-registered under its name, whatever
   * its entries, including none.
   */
  lemma {:induction false} ParsedManifestIsRegistered(t: Tally, faults: Faults, order: seq<Path>, m: Path)
    requires m in order && Distinct(order)
    requires forall q :: q in order ==> q.folder.stage == ManifestsUploaded
    requires forall q :: q in order && q != m ==> q.name != m.name
    requires Parses(t.disk, m)
    requires Resolve(ManifestsRegistered, m.name) !in t.disk.entries
    requires !faults.rename(m, Resolve(ManifestsRegistered, m.name))
    ensures var r := Pass(t, faults, order).disk;
            && Resolve(ManifestsRegistered, m.name) in r.entries
            && r.entries[Resolve(ManifestsRegistered, m.name)] == t.disk.entries[m]
            && m !in r.entries
  {
    var target := Resolve(ManifestsRegistered, m.name);
    var content := t.disk.entries[m];
    var step := (e, p) => Step(e, faults, p);
    var pre := (e: Tally) => m in e.disk.entries && e.disk.entries[m] == content && target !in e.disk.entries;
    var post := (e: Tally) => target in e.disk.entries && e.disk.entries[target] == content && m !in e.disk.entries;
    forall e: Tally, q | q in order && q != m && pre(e) ensures pre(step(e, q)) {
      StepFrame(e, faults, q, m);
      StepFrame(e, faults, q, target);
    }
    forall e: Tally | pre(e) ensures post(step(e, m)) {
      RegisterStep(e, faults, m);
    }
    forall e: Tally, q | q in order && q != m && post(e) ensures post(step(e, q)) {
      StepFrame(e, faults, q, m);
      StepFrame(e, faults, q, target);
    }
    Sweep.Reaches(t, order, step, m, pre, post);
  }

  /** A fork changes only paths with its own manifest's name. */
  lemma StepFrame(t: Tally, faults: Faults, q: Path, k: Path)
    requires k.name != q.name
    ensures SameAt(t.disk, Step(t, faults, q).disk, k)
  {
  }

  /** A manifest that parses, with its registration rename allowed, moves to manifest-registered under its name. */
  lemma RegisterStep(t: Tally, faults: Faults, m: Path)
    requires Parses(t.disk, m) && m.folder.stage == ManifestsUploaded
    requires Resolve(ManifestsRegistered, m.name) !in t.disk.entries
    requires !faults.rename(m, Resolve(ManifestsRegistered, m.name))
    ensures var r := Step(t, faults, m).disk;
            && Resolve(ManifestsRegistered, m.name) in r.entries
            && r.entries[Resolve(ManifestsRegistered, m.name)] == t.disk.entries[m]
            && m !in r.entries
  {
    assert Util.AtomicMoveError(t.disk, faults, m, Resolve(ManifestsRegistered, m.name)).None?;
  }

  /** A manifest that does not parse goes to manifest-failed and fails the call. */
  lemma UnparsableManifestFails(t: Tally, faults: Faults, m: Path)
    requires m in t.disk.entries && !Parses(t.disk, m) && m.folder.stage == ManifestsUploaded
    requires Resolve(ManifestsFailed, m.name) !in t.disk.entries && !faults.rename(m, Resolve(ManifestsFailed, m.name))
    ensures var r := Step(t, faults, m);
            && r.failed
            && Resolve(ManifestsFailed, m.name) in r.disk.entries
            && r.disk.entries[Resolve(ManifestsFailed, m.name)] == t.disk.entries[m]
            && m !in r.disk.entries
  {
  }
}
