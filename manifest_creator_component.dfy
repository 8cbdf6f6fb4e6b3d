/**
 * ManifestCreatorComponent.run. First every regular file under
 * manifests-incoming is swept: it is parsed as a map from path to length;
 * each listed file is moved (in a fork) to the completed folder at its path
 * relative to the parent of the rejected folder, and then the manifest to
 * manifests-landed at its path relative to manifests-incoming. These moves
 * go through FileOperations.moveFileAtomically, which logs and drops its
 * errors; a manifest that does not parse stays where it is. Then the regular
 * files of uploaded, rejected, dropped and failed are collected; with 10000
 * or more, or before the instant next, the run ends; otherwise a map from
 * each of them to its length is written to
 * manifests-incoming/"manifest_<formatted now>.json" and next becomes
 * now + the monitor interval. A failed walk or write throws out of run
 * before next is updated.
 *
 * The forks run one after another. now is the clock reading of the
 * creation step and formattedNow its yyyy-MM-dd_HHmmss_SSSSSS text;
 * length(p) is File.length, which reads 0 for a missing file.
 */
module ManifestCreatorComponent {
  import opened Fs
  import FileUtils
  import FileOperations
  import ManifestComponent

  const FileThreshold := 10_000

  // ---------------------------------------------------------------------
  // Sweeping manifests-incoming

  /**
   * completedDir.resolve(rejectedDir.getParent().relativize(p)): a file of
   * one of the four monitored folders goes to the completed sub-folder of
   * the same name, at the same relative path. Paths elsewhere have no
   * counterpart in the model and are not moved.
   */
  const CompletedFolders: seq<Stage> := [CompletedUploaded, CompletedRejected, CompletedDropped, CompletedFailed]

  function CompletedTarget(p: Path): (r: Option<Path>)
    ensures r.Some? <==> p.folder.stage in ManifestComponent.Monitored
    ensures r.Some? ==> r.value.folder.sub == p.folder.sub && r.value.name == p.name
    ensures r.Some? ==> r.value.folder.stage in CompletedFolders
  {
    match p.folder.stage
    case Uploaded => Some(Rebase(p, CompletedUploaded))
    case Rejected => Some(Rebase(p, CompletedRejected))
    case Dropped => Some(Rebase(p, CompletedDropped))
    case Failed => Some(Rebase(p, CompletedFailed))
    case _ => None
  }

  /** The text of the target is the text of the file with its "files" prefix replaced by "files/completed". */
  lemma TargetIsRelativeToFilesFolder(p: Path)
    requires CompletedTarget(p).Some?
    ensures |Show(p)| >= 5 && Show(p)[..5] == "files"
    ensures Show(CompletedTarget(p).value) == "files/completed" + Show(p)[5..]
  {
    var s := p.folder.stage;
    var t := CompletedTarget(p).value.folder.stage;
    CompletedFolderName(p);
    var rest := JoinSub(p.folder.sub) + "/" + p.name;
    assert Show(p) == StageDir(s) + rest;
    assert Show(CompletedTarget(p).value) == StageDir(t) + rest;
    assert Show(p)[5..] == StageDir(s)[5..] + rest;
  }

  /** Each completed sub-folder is named after the monitored folder it receives from. */
  lemma CompletedFolderName(p: Path)
    requires CompletedTarget(p).Some?
    ensures |StageDir(p.folder.stage)| >= 5 && StageDir(p.folder.stage)[..5] == "files"
    ensures StageDir(CompletedTarget(p).value.folder.stage) == "files/completed" + StageDir(p.folder.stage)[5..]
  {
    match p.folder.stage
    case Uploaded => FolderSplits("uploaded");
    case Rejected => FolderSplits("rejected");
    case Dropped => FolderSplits("dropped");
    case Failed => FolderSplits("failed");
  }

  /** files/leaf splits after "files", and "files/completed" + that rest is files/completed/leaf. */
  lemma FolderSplits(leaf: string)
    ensures var dir := FilesFolder(leaf);
            && |dir| >= 5 && dir[..5] == "files" && "files/completed" + dir[5..] == CompletedFolder(leaf)
  {
    var dir := FilesFolder(leaf);
    assert dir[..5] == "files";
    assert dir[5..] == "/" + leaf;
  }

  /** The map a manifest file holds, if it parses as one. */
  function Parse(d: Disk, m: Path): (r: Option<map<Path, int>>)
    ensures r.Some? <==> m in d.entries && d.entries[m].Doc? && d.entries[m].doc.SizeMap?
  {
    if m in d.entries && d.entries[m].Doc? && d.entries[m].doc.SizeMap? then Some(d.entries[m].doc.sizes) else None
  }

  /** One fork: a listed file of a monitored folder moves to its completed folder; any other key is skipped. */
  function Fork(d: Disk, faults: Faults, key: Path): Disk
  {
    var target := CompletedTarget(key);
    if target.Some? then FileUtils.MovedFile(d, faults, key, target.value) else d
  }

  /** The forks of one manifest, in the map's iteration order; each move's failure is dropped. */
  function MoveEntries(d: Disk, faults: Faults, keys: seq<Path>): (r: Disk)
    ensures d.dirs <= r.dirs
    decreases |keys|
  {
    if keys == [] then d
    else MoveEntries(Fork(d, faults, keys[0]), faults, keys[1..])
  }

  /** Where a swept manifest goes: the same relative path under manifests-landed. */
  function LandedTarget(m: Path): Path
  {
    Rebase(m, ManifestsLanded)
  }

  /** Sweeping one manifest whose entries are iterated in the order keys. */
  function Step(d: Disk, faults: Faults, m: Path, keys: seq<Path>): Disk
  {
    if Parse(d, m).None? then d
    else FileUtils.MovedFile(MoveEntries(d, faults, keys), faults, m, LandedTarget(m))
  }

  /** The iteration order of a manifest's map: each key once; nothing for a manifest that does not parse. */
  ghost predicate KeyOrder(d: Disk, m: Path, keys: seq<Path>)
  {
    if Parse(d, m).None? then keys == [] else Enumerates(keys, Parse(d, m).value.Keys)
  }

  /** The sweep over the first |ms| manifests, with the key order of each. */
  ghost function Pass(d: Disk, faults: Faults, ms: seq<Path>, orders: seq<seq<Path>>): Disk
    requires |ms| == |orders|
    decreases |ms|
  {
    if ms == [] then d
    else Step(Pass(d, faults, ms[..|ms| - 1], orders[..|ms| - 1]), faults, ms[|ms| - 1], orders[|ms| - 1])
  }

  /** Each key order enumerates the map its manifest holds when its turn comes. */
  ghost predicate Orders(d: Disk, faults: Faults, ms: seq<Path>, orders: seq<seq<Path>>)
    requires |ms| == |orders|
    decreases |ms|
  {
    ms == [] ||
    (Orders(d, faults, ms[..|ms| - 1], orders[..|ms| - 1])
     && KeyOrder(Pass(d, faults, ms[..|ms| - 1], orders[..|ms| - 1]), ms[|ms| - 1], orders[|ms| - 1]))
  }

  /** The forks of one manifest. */
  method MoveListedFiles(fs: FileSystem, keys: seq<Path>)
    modifies fs
    ensures fs.View() == MoveEntries(old(fs.View()), fs.faults, keys)
  {
    var i := 0;
    while i < |keys|
      invariant 0 <= i <= |keys|
      invariant MoveEntries(fs.View(), fs.faults, keys[i..]) == MoveEntries(old(fs.View()), fs.faults, keys)
    {
      assert keys[i..][1..] == keys[i + 1..];
      var target := CompletedTarget(keys[i]);
      if target.Some? {
        FileOperations.MoveFileAtomically(fs, keys[i], target.value);
      }
      i := i + 1;
    }
    assert keys[i..] == [];
  }

  /** The body of the forEach for one manifest. */
  method SweepManifest(fs: FileSystem, manifest: Path) returns (ghost keys: seq<Path>)
    modifies fs
    ensures KeyOrder(old(fs.View()), manifest, keys)
    ensures fs.View() == Step(old(fs.View()), fs.faults, manifest, keys)
  {
    keys := [];
    var parsed := Parse(fs.View(), manifest);
    if parsed.None? {
      return;
    }
    var entries := EnumerateSet(parsed.value.Keys);
    keys := entries;
    MoveListedFiles(fs, entries);
    FileOperations.MoveFileAtomically(fs, manifest, LandedTarget(manifest));
  }

  // ---------------------------------------------------------------------
  // Creating a manifest

  /** The map written: each monitored file to its length. */
  function Sizes(files: seq<Path>, length: Path -> int): (r: map<Path, int>)
    ensures forall p :: p in r <==> p in files
    ensures forall p :: p in r ==> r[p] == length(p)
  {
    map p | p in files :: length(p)
  }

  function NewManifestPath(formattedNow: string): (p: Path)
    ensures p.folder == Root(ManifestsIncoming)
  {
    Resolve(ManifestsIncoming, "manifest_" + formattedNow + ".json")
  }

  /** The sweep of manifests-incoming; false when the walk failed. */
  method SweepIncoming(fs: FileSystem) returns (ok: bool, ghost ms: seq<Path>, ghost orders: seq<seq<Path>>)
    modifies fs
    ensures ok <==> Root(ManifestsIncoming) in old(fs.dirs)
    ensures !ok ==> fs.View() == old(fs.View())
    ensures ok ==> && |ms| == |orders|
                   && Enumerates(ms, Walked(old(fs.View()), ManifestsIncoming))
                   && Orders(old(fs.View()), fs.faults, ms, orders)
                   && fs.View() == Pass(old(fs.View()), fs.faults, ms, orders)
  {
    orders := [];
    var walk := fs.Walk(ManifestsIncoming);
    if walk.None? {
      return false, [], [];
    }
    var paths := walk.value;
    ms := paths;
    ghost var d0 := fs.View();
    var i := 0;
    while i < |paths|
      invariant 0 <= i <= |paths| && |orders| == i
      invariant Orders(d0, fs.faults, paths[..i], orders)
      invariant fs.View() == Pass(d0, fs.faults, paths[..i], orders)
    {
      var keys := SweepManifest(fs, paths[i]);
      assert paths[..i + 1][..i] == paths[..i] && (orders + [keys])[..i] == orders;
      orders := orders + [keys];
      i := i + 1;
    }
    assert paths[..i] == paths;
    return true, ms, orders;
  }

  /** What the creation step leaves behind: the filesystem, whether a manifest was written, whether it threw. */
  datatype Creation = Creation(disk: Disk, written: bool, threw: bool)

  function Create(d: Disk, faults: Faults, monitored: Option<seq<Path>>, length: Path -> int,
                  now: int, next: int, formattedNow: string): Creation
  {
    if monitored.None? then Creation(d, false, true)
    else if |monitored.value| >= FileThreshold || now < next then Creation(d, false, false)
    else
      var p := NewManifestPath(formattedNow);
      if WriteError(d, faults, p).Some? then Creation(d, false, true)
      else Creation(AfterWrite(d, faults, p, Doc(SizeMap(Sizes(monitored.value, length)))), true, false)
  }

  /** A manifest is written exactly when the monitored files could be collected, are fewer than 10000, next has come and the write succeeds. */
  lemma WrittenIff(d: Disk, faults: Faults, monitored: Option<seq<Path>>, length: Path -> int,
                   now: int, next: int, formattedNow: string)
    ensures Create(d, faults, monitored, length, now, next, formattedNow).written <==>
              && monitored.Some? && |monitored.value| < FileThreshold && now >= next
              && WriteError(d, faults, NewManifestPath(formattedNow)).None?
    ensures Create(d, faults, monitored, length, now, next, formattedNow).written ==>
              var p := NewManifestPath(formattedNow);
              var r := Create(d, faults, monitored, length, now, next, formattedNow).disk;
              p in r.entries && r.entries[p] == Doc(SizeMap(Sizes(monitored.value, length)))
  {
  }

  class Creator {
    var next: int
    const monitorIntervalMillis: int

    /** next starts at the construction instant. */
    constructor (constructedAt: int, monitorIntervalMillis: int)
      ensures next == constructedAt && this.monitorIntervalMillis == monitorIntervalMillis
    {
      next := constructedAt;
      this.monitorIntervalMillis := monitorIntervalMillis;
    }

    /** The creation step; threw when a walk or the write failed. */
    method CreateManifest(fs: FileSystem, length: Path -> int, now: int, formattedNow: string)
      returns (threw: bool, ghost monitored: Option<seq<Path>>)
      modifies this, fs
      ensures monitored.None? <==> exists i :: 0 <= i < 4 && Root(ManifestComponent.Monitored[i]) !in old(fs.dirs)
      ensures monitored.Some? ==> Enumerates(monitored.value, ManifestComponent.MonitoredFiles(old(fs.View()), 4))
      ensures var c := Create(old(fs.View()), fs.faults, monitored, length, now, old(next), formattedNow);
              && fs.View() == c.disk && threw == c.threw
              && next == (if c.written then now + monitorIntervalMillis else old(next))
    {
      var files := ManifestComponent.CollectMonitored(fs);
      monitored := files;
      if files.None? {
        return true, monitored;
      }
      var totalFiles := |files.value|;
      if totalFiles >= FileThreshold {
        return false, monitored;
      }
      if now < next {
        return false, monitored;
      }
      var content := SizeMap(Sizes(files.value, length));
      var err := fs.Write(NewManifestPath(formattedNow), Doc(content));
      if err.Some? {
        return true, monitored;
      }
      next := now + monitorIntervalMillis;
      return false, monitored;
    }

    /** run(scope): threw when a walk or the write failed; next moves only after a written manifest. */
    method Run(fs: FileSystem, length: Path -> int, now: int, formattedNow: string)
      returns (threw: bool, ghost swept: Option<(seq<Path>, seq<seq<Path>>)>, ghost monitored: Option<seq<Path>>)
      modifies this, fs
      ensures swept.None? <==> Root(ManifestsIncoming) !in old(fs.dirs)
      ensures swept.None? ==> threw && fs.View() == old(fs.View()) && next == old(next)
      ensures swept.Some? ==>
                var ms := swept.value.0;
                var orders := swept.value.1;
                && |ms| == |orders|
                && Enumerates(ms, Walked(old(fs.View()), ManifestsIncoming))
                && Orders(old(fs.View()), fs.faults, ms, orders)
                && var d := Pass(old(fs.View()), fs.faults, ms, orders);
                   var c := Create(d, fs.faults, monitored, length, now, old(next), formattedNow);
                   && (monitored.None? <==> exists i :: 0 <= i < 4 && Root(ManifestComponent.Monitored[i]) !in d.dirs)
                   && (monitored.Some? ==> Enumerates(monitored.value, ManifestComponent.MonitoredFiles(d, 4)))
                   && fs.View() == c.disk && threw == c.threw
                   && next == (if c.written then now + monitorIntervalMillis else old(next))
    {
      var ok, ms, orders := SweepIncoming(fs);
      if !ok {
        return true, None, None;
      }
      swept := Some((ms, orders));
      threw, monitored := CreateManifest(fs, length, now, formattedNow);
    }
  }

  // ---------------------------------------------------------------------
  // Properties

  /** A path the forks of a manifest never touch keeps its content. */
  lemma {:induction false} MoveEntriesFrame(d: Disk, faults: Faults, keys: seq<Path>, p: Path)
    requires p.folder.stage !in ManifestComponent.Monitored
    requires forall i :: 0 <= i < |keys| && CompletedTarget(keys[i]).Some? ==> CompletedTarget(keys[i]).value != p
    ensures (p in MoveEntries(d, faults, keys).entries <==> p in d.entries)
    ensures p in d.entries ==> MoveEntries(d, faults, keys).entries[p] == d.entries[p]
    decreases |keys|
  {
    if keys != [] {
      var d1 := Fork(d, faults, keys[0]);
      forall i | 0 <= i < |keys[1..]|
        ensures CompletedTarget(keys[1..][i]).Some? ==> CompletedTarget(keys[1..][i]).value != p
      {
        assert keys[1..][i] == keys[i + 1];
      }
      MoveEntriesFrame(d1, faults, keys[1..], p);
    }
  }

  /**
   * A manifest that parses is retired to manifests-landed whatever happened
   * to the files it lists: their failed moves do not hold it back.
   */
  lemma ParsedManifestIsRetired(d: Disk, faults: Faults, m: Path, keys: seq<Path>)
    requires m.folder.stage == ManifestsIncoming && KeyOrder(d, m, keys) && Parse(d, m).Some?
    requires !faults.rename(m, LandedTarget(m))
    ensures var r := Step(d, faults, m, keys);
            && LandedTarget(m) in r.entries && r.entries[LandedTarget(m)] == d.entries[m]
            && m !in r.entries
  {
    MoveEntriesFrame(d, faults, keys, m);
  }

  /**
   * Sweeping another manifest leaves alone every path of manifests-incoming
   * or manifests-landed other than that manifest and its landed target.
   */
  lemma OtherStepKeeps(d: Disk, faults: Faults, q: Path, keys: seq<Path>, p: Path)
    requires p.folder.stage == ManifestsIncoming || p.folder.stage == ManifestsLanded
    requires p != q && p != LandedTarget(q)
    ensures SameAt(d, Step(d, faults, q, keys), p)
  {
    if Parse(d, q).Some? {
      MoveEntriesFrame(d, faults, keys, p);
    }
  }

  /** The sweep of the first manifests leaves alone a path no manifest of it reaches. */
  lemma {:induction false} PassKeeps(d: Disk, faults: Faults, ms: seq<Path>, orders: seq<seq<Path>>, p: Path)
    requires |ms| == |orders|
    requires p.folder.stage == ManifestsIncoming || p.folder.stage == ManifestsLanded
    requires forall q :: q in ms ==> p != q && p != LandedTarget(q)
    ensures SameAt(d, Pass(d, faults, ms, orders), p)
    decreases |ms|
  {
    if ms != [] {
      var n := |ms| - 1;
      assert forall q :: q in ms[..n] ==> q in ms;
      PassKeeps(d, faults, ms[..n], orders[..n], p);
      assert ms[n] in ms;
      OtherStepKeeps(Pass(d, faults, ms[..n], orders[..n]), faults, ms[n], orders[n], p);
    }
  }

  /**
   * Over the whole sweep, a walked manifest that parses is retired whole to
   * manifests-landed at its relative path: neither the moves of the files it
   * lists nor the other manifests' sweeps hold it back.
   */
  lemma {:induction false} SweptManifestIsRetired(d: Disk, faults: Faults, ms: seq<Path>, orders: seq<seq<Path>>, k: nat)
    requires |ms| == |orders| && k < |ms| && Distinct(ms)
    requires forall q :: q in ms ==> q.folder.stage == ManifestsIncoming
    requires Orders(d, faults, ms, orders)
    requires Parse(d, ms[k]).Some? && !faults.rename(ms[k], LandedTarget(ms[k]))
    ensures var r := Pass(d, faults, ms, orders);
            && LandedTarget(ms[k]) in r.entries && r.entries[LandedTarget(ms[k])] == d.entries[ms[k]]
            && ms[k] !in r.entries
    decreases |ms|
  {
    var n := |ms| - 1;
    var m := ms[k];
    var before := Pass(d, faults, ms[..n], orders[..n]);
    if k == n {
      forall q | q in ms[..n] ensures m != q && m != LandedTarget(q) {
        EarlierDiffers(ms, n, q);
      }
      PassKeeps(d, faults, ms[..n], orders[..n], m);
      ParsedManifestIsRetired(before, faults, m, orders[n]);
    } else {
      assert ms[..n][k] == m;
      assert Distinct(ms[..n]);
      assert forall q :: q in ms[..n] ==> q in ms;
      SweptManifestIsRetired(d, faults, ms[..n], orders[..n], k);
      assert ms[n] != m;
      OtherStepKeeps(before, faults, ms[n], orders[n], m);
      OtherStepKeeps(before, faults, ms[n], orders[n], LandedTarget(m));
    }
  }

  /** A listed file of a monitored folder moves to completed when nothing stands in its way, even if its manifest then fails to move. */
  lemma {:induction false} ListedFileIsCompleted(d: Disk, faults: Faults, keys: seq<Path>, k: nat)
    requires k < |keys| && Distinct(keys)
    requires CompletedTarget(keys[k]).Some? && keys[k] in d.entries
    requires !faults.rename(keys[k], CompletedTarget(keys[k]).value)
    requires forall i :: 0 <= i < |keys| && CompletedTarget(keys[i]).Some? ==>
               (i != k ==> CompletedTarget(keys[i]).value != CompletedTarget(keys[k]).value)
    ensures CompletedTarget(keys[k]).value in MoveEntries(d, faults, keys).entries
    ensures MoveEntries(d, faults, keys).entries[CompletedTarget(keys[k]).value] == d.entries[keys[k]]
    decreases |keys|
  {
    var d1 := Fork(d, faults, keys[0]);
    if k == 0 {
      FirstListedIsCompleted(d, faults, keys);
    } else {
      var t := CompletedTarget(keys[k]).value;
      assert keys[1..][k - 1] == keys[k];
      FirstForkKeeps(d, faults, keys, k);
      DistinctTail(keys);
      forall i | 0 <= i < |keys[1..]| && CompletedTarget(keys[1..][i]).Some?
        ensures i != k - 1 ==> CompletedTarget(keys[1..][i]).value != t
      {
        assert keys[1..][i] == keys[i + 1];
      }
      ListedFileIsCompleted(d1, faults, keys[1..], k - 1);
    }
  }

  /** The first listed file, when its move succeeds, keeps its completed copy through the later forks. */
  lemma FirstListedIsCompleted(d: Disk, faults: Faults, keys: seq<Path>)
    requires keys != []
    requires CompletedTarget(keys[0]).Some? && keys[0] in d.entries
    requires !faults.rename(keys[0], CompletedTarget(keys[0]).value)
    requires forall i :: 0 < i < |keys| && CompletedTarget(keys[i]).Some? ==>
               CompletedTarget(keys[i]).value != CompletedTarget(keys[0]).value
    ensures CompletedTarget(keys[0]).value in MoveEntries(d, faults, keys).entries
    ensures MoveEntries(d, faults, keys).entries[CompletedTarget(keys[0]).value] == d.entries[keys[0]]
  {
    var d1 := Fork(d, faults, keys[0]);
    var t := CompletedTarget(keys[0]).value;
    ForkMoves(d, faults, keys[0]);
    forall i | 0 <= i < |keys[1..]| && CompletedTarget(keys[1..][i]).Some?
      ensures CompletedTarget(keys[1..][i]).value != t
    {
      assert keys[1..][i] == keys[i + 1];
    }
    MoveEntriesFrame(d1, faults, keys[1..], t);
  }

  /** A fork whose move succeeds puts the file's content at its completed path. */
  lemma ForkMoves(d: Disk, faults: Faults, key: Path)
    requires CompletedTarget(key).Some? && key in d.entries
    requires !faults.rename(key, CompletedTarget(key).value)
    ensures CompletedTarget(key).value in Fork(d, faults, key).entries
    ensures Fork(d, faults, key).entries[CompletedTarget(key).value] == d.entries[key]
  {
  }

  /** The first fork of a manifest leaves a later listed file of a monitored folder where it is. */
  lemma FirstForkKeeps(d: Disk, faults: Faults, keys: seq<Path>, k: nat)
    requires 0 < k < |keys| && Distinct(keys)
    requires CompletedTarget(keys[k]).Some? && keys[k] in d.entries
    ensures var d1 := Fork(d, faults, keys[0]);
            keys[k] in d1.entries && d1.entries[keys[k]] == d.entries[keys[k]]
  {
    assert keys[0] != keys[k];
    var target := CompletedTarget(keys[0]);
    if target.Some? {
      assert target.value.folder.stage in CompletedFolders;
      assert target.value != keys[k];
    }
  }

  /** A manifest that does not parse stays in manifests-incoming, and nothing it lists is moved. */
  lemma UnparsableManifestStays(d: Disk, faults: Faults, m: Path, keys: seq<Path>)
    requires Parse(d, m).None? && KeyOrder(d, m, keys)
    ensures Step(d, faults, m, keys) == d && keys == []
  {
  }

  /**
   * next starts at the construction instant, so the first run writes a
   * manifest once the clock has reached it, unless there are 10000 files or
   * the write fails.
   */
  lemma FirstRunWrites(d: Disk, faults: Faults, monitored: Option<seq<Path>>, length: Path -> int,
                       constructedAt: int, now: int, formattedNow: string)
    requires monitored.Some? && |monitored.value| < FileThreshold && now >= constructedAt
    requires Root(ManifestsIncoming) in d.dirs && !faults.write(NewManifestPath(formattedNow))
    ensures Create(d, faults, monitored, length, now, constructedAt, formattedNow).written
  {
  }

  /** The written manifest maps exactly the monitored files, each to its length. */
  lemma ManifestMapsMonitoredFiles(d: Disk, files: seq<Path>, length: Path -> int)
    requires Enumerates(files, ManifestComponent.MonitoredFiles(d, 4))
    ensures Sizes(files, length).Keys == ManifestComponent.MonitoredFiles(d, 4)
    ensures forall p :: p in ManifestComponent.MonitoredFiles(d, 4) ==> Sizes(files, length)[p] == length(p)
  {
  }
}
