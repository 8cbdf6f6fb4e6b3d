/**
 * ManifestComponent.call. First every regular file under manifests-incoming
 * is swept in its own fork: the manifest is parsed as a record of
 * (path, size) entries, each listed file is moved to completed/<file name>,
 * and then the manifest itself to manifests-landed/<file name>; each move
 * creates the parent directories and renames atomically without replacing,
 * and the first exception fails the fork. Every fork counts as processed.
 * Then the regular files of uploaded, rejected, dropped and failed are
 * collected, and when there are at least 10000 of them or the epoch second
 * is less than 60 past a whole hour, a new record listing each with its
 * size (or -1 when the size cannot be read) is written to
 * manifests-incoming/"manifest_<instant>.json", with ':' replaced by '-',
 * and counts as processed too. Any exception, from the walks, the write or
 * a failed fork, makes the call report failed = 1.
 *
 * The forks run one after another in walk order. epochSecond, createdAt and
 * nameInstant are the three clock readings of the creation step; size(p) is
 * None when Files.size(p) throws.
 */
module ManifestComponent {
  import opened Fs
  import Sweep
  import JavaLang
  import Util

  const FileThreshold := 10_000

  // ---------------------------------------------------------------------
  // Sweeping manifests-incoming

  /** What a try block leaves behind: the filesystem, and whether it threw. */
  datatype Outcome = Outcome(disk: Disk, threw: bool)

  /** Where a listed file is moved: completed/<its file name>. */
  function CompletedTarget(p: Path): (t: Path)
    ensures t.folder == Root(Completed) && t.name == p.name
  {
    Resolve(Completed, p.name)
  }

  /** The per-file loop of a fork: move each listed file to completed, stopping at the first failure. */
  function MoveAll(d: Disk, faults: Faults, infos: seq<FileInfo>): (o: Outcome)
    ensures d.dirs <= o.disk.dirs
    decreases |infos|
  {
    if infos == [] then Outcome(d, false)
    else
      var target := CompletedTarget(infos[0].path);
      var d1 := Util.AtomicMoved(d, faults, infos[0].path, target);
      if Util.AtomicMoveError(d, faults, infos[0].path, target).Some? then Outcome(d1, true)
      else MoveAll(d1, faults, infos[1..])
  }

  /** The record a manifest file holds, if it parses as one. */
  function Parse(d: Disk, m: Path): (r: Option<seq<FileInfo>>)
    ensures r.Some? <==> m in d.entries && d.entries[m].Doc? && d.entries[m].doc.Record?
  {
    if m in d.entries && d.entries[m].Doc? && d.entries[m].doc.Record? then Some(d.entries[m].doc.infos) else None
  }

  /** Where a swept manifest goes: manifests-landed/<its file name>. */
  function LandedTarget(m: Path): Path
  {
    Resolve(ManifestsLanded, m.name)
  }

  /** The fork body: parse, move the listed files, then retire the manifest; the catch block only rethrows. */
  function TryBlock(d: Disk, faults: Faults, m: Path): Outcome
  {
    var infos := Parse(d, m);
    if infos.None? then Outcome(d, true)
    else
      var o := MoveAll(d, faults, infos.value);
      if o.threw then o
      else Outcome(Util.AtomicMoved(o.disk, faults, m, LandedTarget(m)),
                   Util.AtomicMoveError(o.disk, faults, m, LandedTarget(m)).Some?)
  }

  /** The filesystem and whether some fork has failed. */
  datatype Tally = Tally(disk: Disk, failed: bool)

  function Step(t: Tally, faults: Faults, m: Path): Tally
  {
    var o := TryBlock(t.disk, faults, m);
    Tally(o.disk, t.failed || o.threw)
  }

  ghost function Pass(t: Tally, faults: Faults, order: seq<Path>): Tally
  {
    Sweep.Run(t, order, (e, m) => Step(e, faults, m))
  }

  lemma PassStep(t: Tally, faults: Faults, order: seq<Path>)
    requires order != []
    ensures Pass(t, faults, order) == Pass(Step(t, faults, order[0]), faults, order[1..])
  {
  }

  /** The loop over a manifest's entries; true when every file was moved. */
  method MoveListedFiles(fs: FileSystem, infos: seq<FileInfo>) returns (ok: bool)
    modifies fs
    ensures Outcome(fs.View(), !ok) == MoveAll(old(fs.View()), fs.faults, infos)
  {
    var i := 0;
    while i < |infos|
      invariant 0 <= i <= |infos|
      invariant MoveAll(fs.View(), fs.faults, infos[i..]) == MoveAll(old(fs.View()), fs.faults, infos)
    {
      assert infos[i..][1..] == infos[i + 1..];
      var filePath := infos[i].path;
      var err := Util.AtomicMove(fs, filePath, CompletedTarget(filePath));
      if err.Some? {
        return false;
      }
      i := i + 1;
    }
    assert infos[i..] == [];
    return true;
  }

  /** One fork; true when it completed normally. */
  method SweepManifest(fs: FileSystem, manifest: Path) returns (ok: bool)
    modifies fs
    ensures Outcome(fs.View(), !ok) == TryBlock(old(fs.View()), fs.faults, manifest)
  {
    var manifestRec := Parse(fs.View(), manifest);
    if manifestRec.None? {
      return false;
    }
    ok := MoveListedFiles(fs, manifestRec.value);
    if !ok {
      return;
    }
    var err := Util.AtomicMove(fs, manifest, LandedTarget(manifest));
    ok := err.None?;
  }

  // ---------------------------------------------------------------------
  // Creating a manifest

  /** The four directories whose files a new manifest lists. */
  const Monitored: seq<Stage> := [Uploaded, Rejected, Dropped, Failed]

  /** Every regular file under the first n monitored directories. */
  function MonitoredFiles(d: Disk, n: nat): set<Path>
    requires n <= |Monitored|
  {
    set p | p in d.entries && p.folder.stage in Monitored[..n]
  }

  /** The creation condition: enough files, or within the first minute of an hour of the epoch. */
  predicate Due(fileCount: int, epochSecond: int)
  {
    fileCount >= FileThreshold || JavaLang.Rem(epochSecond, 3600) < 60
  }

  /** Java's remainder keeps the sign of the epoch second: an instant before 1970 is always due. */
  lemma DueIff(fileCount: int, epochSecond: int)
    ensures epochSecond >= 0 ==> (Due(fileCount, epochSecond) <==> fileCount >= FileThreshold || epochSecond % 3600 < 60)
    ensures epochSecond < 0 ==> Due(fileCount, epochSecond)
  {
  }

  /** String.replace(from, to) on single characters. */
  function Replace(s: string, from: char, to: char): (r: string)
    ensures |r| == |s|
    ensures forall i :: 0 <= i < |s| && s[i] != from ==> r[i] == s[i]
    ensures from != to ==> from !in r
  {
    seq(|s|, i requires 0 <= i < |s| => if s[i] == from then to else s[i])
  }

  function NewManifestPath(nameInstant: string): (p: Path)
    ensures p.folder == Root(ManifestsIncoming)
    ensures ':' !in p.name
  {
    var name := "manifest_" + Replace(nameInstant, ':', '-') + ".json";
    assert name == "manifest_" + Replace(nameInstant, ':', '-') + ".json";
    Resolve(ManifestsIncoming, name)
  }

  /** The entries of the new record: each file with its size, or -1 when the size cannot be read. */
  function Infos(files: seq<Path>, size: Path -> Option<nat>): (r: seq<FileInfo>)
    ensures |r| == |files| && forall i :: 0 <= i < |files| ==> r[i].path == files[i]
  {
    seq(|files|, i requires 0 <= i < |files| => FileInfo(files[i], SizeOr(size(files[i]), -1)))
  }

  /** What the creation step leaves behind: the filesystem, whether a manifest was written, whether it threw. */
  datatype Creation = Creation(disk: Disk, written: bool, threw: bool)

  function Create(d: Disk, faults: Faults, monitored: Option<seq<Path>>, size: Path -> Option<nat>,
                  epochSecond: int, createdAt: string, nameInstant: string): Creation
  {
    if monitored.None? then Creation(d, false, true)
    else if !Due(|monitored.value|, epochSecond) then Creation(d, false, false)
    else
      var p := NewManifestPath(nameInstant);
      var d1 := AfterMkdirs(d, p.folder);
      if WriteError(d1, faults, p).Some? then Creation(d1, false, true)
      else Creation(AfterWrite(d1, faults, p, Doc(Record(Infos(monitored.value, size), createdAt))), true, false)
  }

  /** Collecting the monitored files, one directory after another. */
  method CollectMonitored(fs: FileSystem) returns (r: Option<seq<Path>>)
    ensures r.None? <==> exists i :: 0 <= i < |Monitored| && Root(Monitored[i]) !in fs.dirs
    ensures r.Some? ==> Enumerates(r.value, MonitoredFiles(fs.View(), |Monitored|))
  {
    var monitoredFiles: seq<Path> := [];
    var i := 0;
    while i < |Monitored|
      invariant 0 <= i <= |Monitored|
      invariant forall j :: 0 <= j < i ==> Root(Monitored[j]) in fs.dirs
      invariant Enumerates(monitoredFiles, MonitoredFiles(fs.View(), i))
    {
      var walk := fs.Walk(Monitored[i]);
      if walk.None? {
        return None;
      }
      AppendScan(monitoredFiles, walk.value, fs.View(), i);
      monitoredFiles := monitoredFiles + walk.value;
      i := i + 1;
    }
    assert Monitored[..i] == Monitored;
    return Some(monitoredFiles);
  }

  /** A scan of the next directory extends the scan of the earlier ones without repeating anything. */
  lemma AppendScan(xs: seq<Path>, ys: seq<Path>, d: Disk, i: nat)
    requires i < |Monitored|
    requires Enumerates(xs, MonitoredFiles(d, i))
    requires Enumerates(ys, Walked(d, Monitored[i]))
    ensures Enumerates(xs + ys, MonitoredFiles(d, i + 1))
  {
    assert Monitored[..i + 1] == Monitored[..i] + [Monitored[i]];
    assert Monitored[i] !in Monitored[..i];
    var zs := xs + ys;
    forall a, b | 0 <= a < b < |zs| ensures zs[a] != zs[b]
    {
      if b >= |xs| && a < |xs| {
        assert zs[a] in xs && zs[b] in ys;
        assert zs[a].folder.stage in Monitored[..i];
      } else if a >= |xs| {
        assert zs[a] == ys[a - |xs|] && zs[b] == ys[b - |xs|];
      }
    }
  }

  /** The creation step; threw when a walk or the write failed. */
  method CreateManifest(fs: FileSystem, size: Path -> Option<nat>, epochSecond: int, createdAt: string,
                        nameInstant: string) returns (written: bool, threw: bool, ghost monitored: Option<seq<Path>>)
    modifies fs
    ensures monitored.None? <==> exists i :: 0 <= i < |Monitored| && Root(Monitored[i]) !in old(fs.dirs)
    ensures monitored.Some? ==> Enumerates(monitored.value, MonitoredFiles(old(fs.View()), |Monitored|))
    ensures Creation(fs.View(), written, threw)
            == Create(old(fs.View()), fs.faults, monitored, size, epochSecond, createdAt, nameInstant)
  {
    var files := CollectMonitored(fs);
    monitored := files;
    if files.None? {
      return false, true, monitored;
    }
    if !(|files.value| >= FileThreshold || JavaLang.Rem(epochSecond, 3600) < 60) {
      return false, false, monitored;
    }
    var fileInfos := Infos(files.value, size);
    var manifestFile := NewManifestPath(nameInstant);
    fs.CreateDirectories(manifestFile.folder);
    var err := fs.Write(manifestFile, Doc(Record(fileInfos, createdAt)));
    return err.None?, err.Some?, monitored;
  }

  /** call(): sweep, then create; processed counts the forks and a written manifest. */
  method Call(fs: FileSystem, size: Path -> Option<nat>, epochSecond: int, createdAt: string, nameInstant: string)
    returns (stats: FileStats, ghost order: Option<seq<Path>>, ghost monitored: Option<seq<Path>>)
    modifies fs
    ensures order.None? <==> Root(ManifestsIncoming) !in old(fs.dirs)
    ensures order.None? ==> stats == FileStats(0, 1) && fs.View() == old(fs.View())
    ensures order.Some? ==>
              var t := Pass(Tally(old(fs.View()), false), fs.faults, order.value);
              var c := Create(t.disk, fs.faults, monitored, size, epochSecond, createdAt, nameInstant);
              && Enumerates(order.value, Walked(old(fs.View()), ManifestsIncoming))
              && (monitored.None? <==> exists i :: 0 <= i < |Monitored| && Root(Monitored[i]) !in t.disk.dirs)
              && (monitored.Some? ==> Enumerates(monitored.value, MonitoredFiles(t.disk, |Monitored|)))
              && fs.View() == c.disk
              && stats == FileStats(|order.value| + (if c.written then 1 else 0), if t.failed || c.threw then 1 else 0)
  {
    monitored := None;
    var walk := fs.Walk(ManifestsIncoming);
    if walk.None? {
      return FileStats(0, 1), None, None;
    }
    var manifestFiles := walk.value;
    order := Some(manifestFiles);
    ghost var start := Tally(fs.View(), false);
    var processed := 0;
    var forkFailed := false;
    while processed < |manifestFiles|
      invariant 0 <= processed <= |manifestFiles|
      invariant Pass(Tally(fs.View(), forkFailed), fs.faults, manifestFiles[processed..])
                == Pass(start, fs.faults, manifestFiles)
    {
      ghost var before := Tally(fs.View(), forkFailed);
      PassStep(before, fs.faults, manifestFiles[processed..]);
      var ok := SweepManifest(fs, manifestFiles[processed]);
      forkFailed := forkFailed || !ok;
      assert Tally(fs.View(), forkFailed) == Step(before, fs.faults, manifestFiles[processed]);
      assert manifestFiles[processed..][1..] == manifestFiles[processed + 1..];
      processed := processed + 1;
    }
    assert manifestFiles[processed..] == [];
    var written, threw;
    written, threw, monitored := CreateManifest(fs, size, epochSecond, createdAt, nameInstant);
    if written {
      processed := processed + 1;
    }
    stats := FileStats(processed, if forkFailed || threw then 1 else 0);
  }

  // ---------------------------------------------------------------------
  // Properties

  /** After a loop that did not throw, every listed file is in completed under its file name. */
  lemma {:induction false} CompletedFilesStay(d: Disk, faults: Faults, infos: seq<FileInfo>)
    requires !MoveAll(d, faults, infos).threw
    ensures forall i :: 0 <= i < |infos| ==> CompletedTarget(infos[i].path) in MoveAll(d, faults, infos).disk.entries
    decreases |infos|
  {
    if infos != [] {
      var target := CompletedTarget(infos[0].path);
      var d1 := Util.AtomicMoved(d, faults, infos[0].path, target);
      assert target in d1.entries;
      CompletedFilesStay(d1, faults, infos[1..]);
      KeepsCompleted(d1, faults, infos[1..], target);
      forall i | 1 <= i < |infos|
        ensures CompletedTarget(infos[i].path) in MoveAll(d, faults, infos).disk.entries
      {
        assert infos[i] == infos[1..][i - 1];
      }
    }
  }

  /** A file at completed's top level stays there through later moves: a move from it goes to itself. */
  lemma {:induction false} KeepsCompleted(d: Disk, faults: Faults, infos: seq<FileInfo>, p: Path)
    requires p.folder == Root(Completed) && p in d.entries
    ensures p in MoveAll(d, faults, infos).disk.entries
    decreases |infos|
  {
    if infos != [] {
      var target := CompletedTarget(infos[0].path);
      var d1 := Util.AtomicMoved(d, faults, infos[0].path, target);
      if infos[0].path == p {
        assert target == p;
      }
      assert p in d1.entries;
      KeepsCompleted(d1, faults, infos[1..], p);
    }
  }

  /** A file outside completed that is missing stays missing through any moves. */
  lemma {:induction false} MissingStaysMissing(d: Disk, faults: Faults, infos: seq<FileInfo>, p: Path)
    requires p.folder.stage != Completed && p !in d.entries
    ensures p !in MoveAll(d, faults, infos).disk.entries
    decreases |infos|
  {
    if infos != [] {
      var target := CompletedTarget(infos[0].path);
      var d1 := Util.AtomicMoved(d, faults, infos[0].path, target);
      MissingStaysMissing(d1, faults, infos[1..], p);
    }
  }

  /**
   * A manifest leaves manifests-incoming for manifests-landed only when its
   * fork succeeds, and then every file it lists is in completed under its
   * file name.
   */
  lemma RetiredManifestCompletedItsFiles(t: Tally, faults: Faults, m: Path)
    requires m.folder.stage == ManifestsIncoming
    requires !TryBlock(t.disk, faults, m).threw
    ensures var r := Step(t, faults, m);
            && r.failed == t.failed
            && Parse(t.disk, m).Some?
            && LandedTarget(m) in r.disk.entries && m !in r.disk.entries
            && forall i :: 0 <= i < |Parse(t.disk, m).value| ==>
                 CompletedTarget(Parse(t.disk, m).value[i].path) in r.disk.entries
  {
    var infos := Parse(t.disk, m).value;
    var o := MoveAll(t.disk, faults, infos);
    CompletedFilesStay(t.disk, faults, infos);
    var r := Util.AtomicMoved(o.disk, faults, m, LandedTarget(m));
    forall i | 0 <= i < |infos|
      ensures CompletedTarget(infos[i].path) in r.entries
    {
      assert CompletedTarget(infos[i].path) != m;
    }
  }

  /**
   * A listed file that is missing (and not a completed file an earlier entry
   * could have produced) fails the fork; the manifest stays where it is
   * unless it lists itself.
   */
  lemma MissingFileFailsTheFork(t: Tally, faults: Faults, m: Path, k: nat)
    requires m.folder.stage == ManifestsIncoming
    requires Parse(t.disk, m).Some? && k < |Parse(t.disk, m).value|
    requires var p := Parse(t.disk, m).value[k].path; p !in t.disk.entries && p.folder.stage != Completed
    requires forall i :: 0 <= i < |Parse(t.disk, m).value| ==> Parse(t.disk, m).value[i].path != m
    ensures var r := Step(t, faults, m);
            r.failed && m in r.disk.entries && r.disk.entries[m] == t.disk.entries[m]
  {
    var infos := Parse(t.disk, m).value;
    MoveAllFailsAt(t.disk, faults, infos, k, m);
  }

  /** The loop throws at or before a missing entry, and leaves a path it never touches alone. */
  lemma {:induction false} MoveAllFailsAt(d: Disk, faults: Faults, infos: seq<FileInfo>, k: nat, m: Path)
    requires k < |infos|
    requires infos[k].path !in d.entries && infos[k].path.folder.stage != Completed
    requires m.folder.stage != Completed && m in d.entries
    requires forall i :: 0 <= i < |infos| ==> infos[i].path != m
    ensures MoveAll(d, faults, infos).threw
    ensures m in MoveAll(d, faults, infos).disk.entries
    ensures MoveAll(d, faults, infos).disk.entries[m] == d.entries[m]
    decreases |infos|
  {
    var target := CompletedTarget(infos[0].path);
    var d1 := Util.AtomicMoved(d, faults, infos[0].path, target);
    if k > 0 && Util.AtomicMoveError(d, faults, infos[0].path, target).None? {
      assert infos[1..][k - 1] == infos[k];
      assert infos[k].path !in d1.entries;
      forall i | 0 <= i < |infos[1..]| ensures infos[1..][i].path != m {
        assert infos[1..][i] == infos[i + 1];
      }
      MoveAllFailsAt(d1, faults, infos[1..], k - 1, m);
    }
  }

  /** A written manifest lands in the folder the next call sweeps, holding a record the sweep can parse. */
  lemma NewManifestIsSweptNext(d: Disk, faults: Faults, monitored: Option<seq<Path>>, size: Path -> Option<nat>,
                               epochSecond: int, createdAt: string, nameInstant: string)
    requires Create(d, faults, monitored, size, epochSecond, createdAt, nameInstant).written
    ensures var c := Create(d, faults, monitored, size, epochSecond, createdAt, nameInstant);
            && NewManifestPath(nameInstant) in Walked(c.disk, ManifestsIncoming)
            && Parse(c.disk, NewManifestPath(nameInstant)) == Some(Infos(monitored.value, size))
            && Due(|monitored.value|, epochSecond)
  {
  }

  /** The new record has one entry per monitored file, with its size or -1. */
  lemma RecordListsEveryMonitoredFile(d: Disk, files: seq<Path>, size: Path -> Option<nat>)
    requires Enumerates(files, MonitoredFiles(d, |Monitored|))
    ensures forall p :: p in d.entries && p.folder.stage in Monitored ==>
              exists i :: 0 <= i < |files| && Infos(files, size)[i] == FileInfo(p, SizeOr(size(p), -1))
    ensures forall i :: 0 <= i < |files| ==> Infos(files, size)[i].path in MonitoredFiles(d, |Monitored|)
  {
    assert Monitored[..|Monitored|] == Monitored;
    forall p | p in d.entries && p.folder.stage in Monitored
      ensures exists i :: 0 <= i < |files| && Infos(files, size)[i] == FileInfo(p, SizeOr(size(p), -1))
    {
      assert p in MonitoredFiles(d, |Monitored|);
      var i :| 0 <= i < |files| && files[i] == p;
      assert Infos(files, size)[i] == FileInfo(p, SizeOr(size(p), -1));
    }
  }

  /** Once a fork has failed, the call reports failure. */
  lemma {:induction false} FailureIsSticky(t: Tally, faults: Faults, order: seq<Path>)
    requires t.failed
    ensures Pass(t, faults, order).failed
  {
    Sweep.Keeps(t, order, (e, m) => Step(e, faults, m), (e: Tally) => e.failed);
  }
}
