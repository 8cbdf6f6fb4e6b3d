/**
 * ManifestUploadingComponent.call: walk the manifest-landed tree and fork
 * one task per manifest, counting each as processed. A manifest aged one
 * whole hour or more goes to dropped/name. Otherwise it is parsed as a
 * record of (path, size) entries; the entries whose path exists are kept,
 * in order, stamped with the current instant, and written to
 * gcp/manifests_incoming/name; then the manifest goes to uploaded/name.
 * Each move creates the parent directories and renames atomically without
 * replacing, as Util.atomicMove does. Any exception in a fork moves the manifest to failed/name (a
 * failure of that move is logged) and fails the fork, which makes the call
 * report failed = 1; so does a failed walk.
 *
 * Instants are milliseconds. lastModified(m) is None when the attribute
 * cannot be read, now(m) is the clock reading in m's fork and stamp(m) the
 * text of the instant written as createdAt.
 */
module ManifestUploadingComponent {
  import opened Fs
  import Sweep
  import JavaLang
  import Strings
  import Util

  const OneHour := 3_600_000

  /** Duration.between(lastModified, now).toHours() >= 1: whole hours, truncated toward zero. */
  predicate Aged(lastModified: int, now: int)
  {
    JavaLang.Div(now - lastModified, OneHour) >= 1
  }

  /** A manifest is aged exactly when at least a full hour separates the two instants. */
  lemma AgedIsOneFullHour(lastModified: int, now: int)
    ensures Aged(lastModified, now) <==> now - lastModified >= OneHour
  {
    var diff := now - lastModified;
    if diff >= OneHour {
      assert diff / OneHour >= 1;
    }
  }

  /** Files.exists: a regular file or a directory at that path. */
  predicate Exists(d: Disk, p: Path)
  {
    p in d.entries || Folder(p.folder.stage, p.folder.sub + [p.name]) in d.dirs
  }

  /** The entries of the uploaded copy: those whose path exists, in order. */
  function ExistingFiles(d: Disk, infos: seq<FileInfo>): (r: seq<FileInfo>)
    ensures forall i :: 0 <= i < |r| ==> r[i] in infos && Exists(d, r[i].path)
    ensures forall i :: 0 <= i < |infos| && Exists(d, infos[i].path) ==> infos[i] in r
  {
    Strings.Filter(infos, (info: FileInfo) => Exists(d, info.path))
  }

  /** The filter distributes over concatenation: the kept entries stay in their listed order. */
  lemma ExistingFilesKeepsOrder(d: Disk, xs: seq<FileInfo>, ys: seq<FileInfo>)
    ensures ExistingFiles(d, xs + ys) == ExistingFiles(d, xs) + ExistingFiles(d, ys)
  {
    Strings.FilterAppend(xs, ys, (info: FileInfo) => Exists(d, info.path));
  }

  /** Where the uploaded copy is written. */
  function GcpTarget(name: string): Path
  {
    Path(Folder(Gcp, ["manifests_incoming"]), name)
  }

  /** The filesystem and whether some fork has failed. */
  datatype Tally = Tally(disk: Disk, failed: bool)

  /** The catch block: move to failed, swallow its failure, fail the fork. */
  function Fail(d: Disk, faults: Faults, m: Path): Tally
  {
    Tally(Util.AtomicMoved(d, faults, m, Resolve(ManifestsFailed, m.name)), true)
  }

  /** The try block of a fork: the filesystem it leaves and whether it threw. */
  datatype Outcome = Outcome(disk: Disk, threw: bool)

  function TryBlock(d: Disk, faults: Faults, lastModified: Path -> Option<int>, now: Path -> int,
                    stamp: Path -> string, m: Path): Outcome
  {
    var lm := lastModified(m);
    if lm.None? || m !in d.entries then Outcome(d, true)
    else if Aged(lm.value, now(m)) then
      Outcome(Util.AtomicMoved(d, faults, m, Resolve(ManifestsDropped, m.name)),
              Util.AtomicMoveError(d, faults, m, Resolve(ManifestsDropped, m.name)).Some?)
    else if !(d.entries[m].Doc? && d.entries[m].doc.Record?) then Outcome(d, true)
    else
      var copy := Record(ExistingFiles(d, d.entries[m].doc.infos), stamp(m));
      var withDir := AfterMkdirs(d, GcpTarget(m.name).folder);
      if WriteError(withDir, faults, GcpTarget(m.name)).Some? then Outcome(withDir, true)
      else
        var written := AfterWrite(withDir, faults, GcpTarget(m.name), Doc(copy));
        Outcome(Util.AtomicMoved(written, faults, m, Resolve(ManifestsUploaded, m.name)),
                Util.AtomicMoveError(written, faults, m, Resolve(ManifestsUploaded, m.name)).Some?)
  }

  /** The fork of one walked manifest: the try block, then the catch block if it threw. */
  function Step(t: Tally, faults: Faults, lastModified: Path -> Option<int>, now: Path -> int,
                stamp: Path -> string, m: Path): Tally
  {
    var o := TryBlock(t.disk, faults, lastModified, now, stamp, m);
    if o.threw then Fail(o.disk, faults, m) else Tally(o.disk, t.failed)
  }

  ghost function Pass(t: Tally, faults: Faults, lastModified: Path -> Option<int>, now: Path -> int,
                      stamp: Path -> string, order: seq<Path>): Tally
  {
    Sweep.Run(t, order, (e, p) => Step(e, faults, lastModified, now, stamp, p))
  }

  lemma PassStep(t: Tally, faults: Faults, lastModified: Path -> Option<int>, now: Path -> int,
                 stamp: Path -> string, order: seq<Path>)
    requires order != []
    ensures Pass(t, faults, lastModified, now, stamp, order)
            == Pass(Step(t, faults, lastModified, now, stamp, order[0]), faults, lastModified, now, stamp, order[1..])
  {
  }

  /** The try block of the fork body; true when it completed normally. */
  method TryUpload(fs: FileSystem, lastModified: Path -> Option<int>, now: Path -> int, stamp: Path -> string,
                   manifest: Path) returns (ok: bool)
    modifies fs
    ensures Outcome(fs.View(), !ok) == TryBlock(old(fs.View()), fs.faults, lastModified, now, stamp, manifest)
  {
    var lm := lastModified(manifest);
    if lm.None? || manifest !in fs.entries {
      return false;
    }
    if Aged(lm.value, now(manifest)) {
      var target := Resolve(ManifestsDropped, manifest.name);
      fs.CreateDirectories(target.folder);
      var err := fs.Move(manifest, target, false);
      return err.None?;
    }
    if !(fs.entries[manifest].Doc? && fs.entries[manifest].doc.Record?) {
      return false;
    }
    var originalManifest := fs.entries[manifest].doc;
    var filteredFiles := ExistingFiles(fs.View(), originalManifest.infos);
    var tempManifest := Record(filteredFiles, stamp(manifest));
    var gcpTarget := GcpTarget(manifest.name);
    fs.CreateDirectories(gcpTarget.folder);
    var err := fs.Write(gcpTarget, Doc(tempManifest));
    if err.Some? {
      return false;
    }
    var target := Resolve(ManifestsUploaded, manifest.name);
    fs.CreateDirectories(target.folder);
    err := fs.Move(manifest, target, false);
    return err.None?;
  }

  /** The fork body; true when it completed normally. */
  method Upload(fs: FileSystem, lastModified: Path -> Option<int>, now: Path -> int, stamp: Path -> string, manifest: Path)
    returns (ok: bool)
    modifies fs
    ensures Tally(fs.View(), !ok) == Step(Tally(old(fs.View()), false), fs.faults, lastModified, now, stamp, manifest)
  {
    ok := TryUpload(fs, lastModified, now, stamp, manifest);
    if !ok {
      var target := Resolve(ManifestsFailed, manifest.name);
      fs.CreateDirectories(target.folder);
      var moveErr := fs.Move(manifest, target, false);
      // a failure here is logged; the original exception fails the fork
    }
  }

  /** call(): processed counts the forks, failed is 1 when the walk or any fork failed. */
  method Call(fs: FileSystem, lastModified: Path -> Option<int>, now: Path -> int, stamp: Path -> string)
    returns (stats: FileStats, ghost order: Option<seq<Path>>)
    modifies fs
    ensures order.None? <==> Root(ManifestsLanded) !in old(fs.dirs)
    ensures order.None? ==> stats == FileStats(0, 1) && fs.View() == old(fs.View())
    ensures order.Some? ==>
              var t := Pass(Tally(old(fs.View()), false), fs.faults, lastModified, now, stamp, order.value);
              && Enumerates(order.value, Walked(old(fs.View()), ManifestsLanded))
              && fs.View() == t.disk
              && stats == FileStats(|order.value|, if t.failed then 1 else 0)
  {
    var walk := fs.Walk(ManifestsLanded);
    if walk.None? {
      return FileStats(0, 1), None;
    }
    var manifestFiles := walk.value;
    ghost var start := Tally(fs.View(), false);
    var processed := 0;
    var failed := false;
    while processed < |manifestFiles|
      invariant 0 <= processed <= |manifestFiles|
      invariant Pass(Tally(fs.View(), failed), fs.faults, lastModified, now, stamp, manifestFiles[processed..])
                == Pass(start, fs.faults, lastModified, now, stamp, manifestFiles)
    {
      ghost var before := Tally(fs.View(), failed);
      PassStep(before, fs.faults, lastModified, now, stamp, manifestFiles[processed..]);
      var ok := Upload(fs, lastModified, now, stamp, manifestFiles[processed]);
      failed := failed || !ok;
      assert Tally(fs.View(), failed) == Step(before, fs.faults, lastModified, now, stamp, manifestFiles[processed]);
      assert manifestFiles[processed..][1..] == manifestFiles[processed + 1..];
      processed := processed + 1;
    }
    assert manifestFiles[processed..] == [];
    stats := FileStats(processed, if failed then 1 else 0);
    return stats, Some(manifestFiles);
  }

  /** An aged manifest goes to dropped without being parsed: the gcp copy is not written. */
  lemma AgedManifestIsDropped(t: Tally, faults: Faults, lastModified: Path -> Option<int>, now: Path -> int,
                              stamp: Path -> string, m: Path)
    requires m in t.disk.entries && m.folder.stage == ManifestsLanded
    requires lastModified(m).Some? && now(m) - lastModified(m).value >= OneHour
    requires Resolve(ManifestsDropped, m.name) !in t.disk.entries && !faults.rename(m, Resolve(ManifestsDropped, m.name))
    ensures var r := Step(t, faults, lastModified, now, stamp, m);
            && r.failed == t.failed
            && Resolve(ManifestsDropped, m.name) in r.disk.entries
            && r.disk.entries[Resolve(ManifestsDropped, m.name)] == t.disk.entries[m]
            && m !in r.disk.entries
            && SameAt(t.disk, r.disk, GcpTarget(m.name))
  {
    AgedIsOneFullHour(lastModified(m).value, now(m));
  }

  /**
   * A young, parsable manifest is copied, filtered and stamped, to
   * gcp/manifests_incoming/name before it moves to uploaded/name.
   */
  lemma FreshManifestIsUploaded(t: Tally, faults: Faults, lastModified: Path -> Option<int>, now: Path -> int,
                                stamp: Path -> string, m: Path)
    requires m in t.disk.entries && m.folder.stage == ManifestsLanded
    requires t.disk.entries[m].Doc? && t.disk.entries[m].doc.Record?
    requires lastModified(m).Some? && now(m) - lastModified(m).value < OneHour
    requires !faults.write(GcpTarget(m.name))
    requires Resolve(ManifestsUploaded, m.name) !in t.disk.entries && !faults.rename(m, Resolve(ManifestsUploaded, m.name))
    ensures var r := Step(t, faults, lastModified, now, stamp, m);
            && r.failed == t.failed
            && Resolve(ManifestsUploaded, m.name) in r.disk.entries
            && r.disk.entries[Resolve(ManifestsUploaded, m.name)] == t.disk.entries[m]
            && m !in r.disk.entries
            && GcpTarget(m.name) in r.disk.entries
            && r.disk.entries[GcpTarget(m.name)]
               == Doc(Record(ExistingFiles(t.disk, t.disk.entries[m].doc.infos), stamp(m)))
  {
    AgedIsOneFullHour(lastModified(m).value, now(m));
  }

  /** A young manifest that does not parse goes to failed and fails the call. */
  lemma UnparsableManifestFails(t: Tally, faults: Faults, lastModified: Path -> Option<int>, now: Path -> int,
                                stamp: Path -> string, m: Path)
    requires m in t.disk.entries && m.folder.stage == ManifestsLanded
    requires !(t.disk.entries[m].Doc? && t.disk.entries[m].doc.Record?)
    requires lastModified(m).Some? && now(m) - lastModified(m).value < OneHour
    requires Resolve(ManifestsFailed, m.name) !in t.disk.entries && !faults.rename(m, Resolve(ManifestsFailed, m.name))
    ensures var r := Step(t, faults, lastModified, now, stamp, m);
            && r.failed
            && Resolve(ManifestsFailed, m.name) in r.disk.entries
            && r.disk.entries[Resolve(ManifestsFailed, m.name)] == t.disk.entries[m]
            && m !in r.disk.entries
  {
    AgedIsOneFullHour(lastModified(m).value, now(m));
  }

  /** Once a fork has failed the call reports failure, whatever the later forks do. */
  lemma {:induction false} FailureIsSticky(t: Tally, faults: Faults, lastModified: Path -> Option<int>, now: Path -> int,
                                           stamp: Path -> string, order: seq<Path>)
    requires t.failed
    ensures Pass(t, faults, lastModified, now, stamp, order).failed
  {
    Sweep.Keeps(t, order, (e, p) => Step(e, faults, lastModified, now, stamp, p), (e: Tally) => e.failed);
  }

  // ---------------------------------------------------------------------
  // One manifest over a whole pass

  /** A pass is the prefix before position k, then the k-th fork, then the rest. */
  lemma PassSplits(t: Tally, faults: Faults, lastModified: Path -> Option<int>, now: Path -> int,
                   stamp: Path -> string, order: seq<Path>, k: nat)
    requires k < |order|
    ensures var m := Pass(t, faults, lastModified, now, stamp, order[..k]);
            Pass(t, faults, lastModified, now, stamp, order)
            == Sweep.Run(Step(m, faults, lastModified, now, stamp, order[k]), order[k + 1..],
                         (e, p) => Step(e, faults, lastModified, now, stamp, p))
  {
    Sweep.Splits(t, order, (e, p) => Step(e, faults, lastModified, now, stamp, p), k);
  }

  /** A fork changes only paths with its own manifest's name. */
  lemma StepFrame(t: Tally, faults: Faults, lastModified: Path -> Option<int>, now: Path -> int,
                  stamp: Path -> string, q: Path, k: Path)
    requires k.name != q.name
    ensures SameAt(t.disk, Step(t, faults, lastModified, now, stamp, q).disk, k)
  {
  }

  /**
   * The forks before position k leave the k-th manifest, and any path with
   * its name, as they were.
   */
  lemma {:induction false} EarlierForksKeep(t: Tally, faults: Faults, lastModified: Path -> Option<int>, now: Path -> int,
                                            stamp: Path -> string, order: seq<Path>, k: nat, p: Path)
    requires k < |order| && p.name == order[k].name
    requires forall q :: q in order && q != order[k] ==> q.name != order[k].name
    requires Distinct(order)
    ensures SameAt(t.disk, Pass(t, faults, lastModified, now, stamp, order[..k]).disk, p)
  {
    var step := (e, q) => Step(e, faults, lastModified, now, stamp, q);
    var kept := (e: Tally) => SameAt(t.disk, e.disk, p);
    forall e: Tally, q | q in order[..k] && kept(e) ensures kept(step(e, q)) {
      EarlierDiffers(order, k, q);
      StepFrame(e, faults, lastModified, now, stamp, q, p);
    }
    Sweep.Keeps(t, order[..k], step, kept);
  }

  /**
   * Over a whole pass, a walked manifest aged an hour or more, whose name no
   * other walked manifest shares, ends in dropped under its name with its
   * content, and its gcp copy path is as it was before the pass.
   */
  lemma {:induction false} PassDropsAgedManifest(t: Tally, faults: Faults, lastModified: Path -> Option<int>,
                                                 now: Path -> int, stamp: Path -> string, order: seq<Path>, k: nat)
    requires k < |order| && Distinct(order)
    requires forall q :: q in order ==> q.folder.stage == ManifestsLanded
    requires forall q :: q in order && q != order[k] ==> q.name != order[k].name
    requires order[k] in t.disk.entries
    requires lastModified(order[k]).Some? && now(order[k]) - lastModified(order[k]).value >= OneHour
    requires Resolve(ManifestsDropped, order[k].name) !in t.disk.entries
    requires !faults.rename(order[k], Resolve(ManifestsDropped, order[k].name))
    ensures var e := Pass(t, faults, lastModified, now, stamp, order).disk;
            var target := Resolve(ManifestsDropped, order[k].name);
            && target in e.entries && e.entries[target] == t.disk.entries[order[k]] && order[k] !in e.entries
            && SameAt(t.disk, e, GcpTarget(order[k].name))
  {
    var m := order[k];
    var target, gcp := Resolve(ManifestsDropped, m.name), GcpTarget(m.name);
    var content := t.disk.entries[m];
    var step := (e, q) => Step(e, faults, lastModified, now, stamp, q);
    EarlierForksKeep(t, faults, lastModified, now, stamp, order, k, m);
    EarlierForksKeep(t, faults, lastModified, now, stamp, order, k, target);
    EarlierForksKeep(t, faults, lastModified, now, stamp, order, k, gcp);
    var before := Pass(t, faults, lastModified, now, stamp, order[..k]);
    AgedManifestIsDropped(before, faults, lastModified, now, stamp, m);
    PassSplits(t, faults, lastModified, now, stamp, order, k);
    var dropped := (e: Tally) => target in e.disk.entries && e.disk.entries[target] == content && m !in e.disk.entries
                                 && SameAt(t.disk, e.disk, gcp);
    forall e: Tally, q | q in order[k + 1..] && dropped(e) ensures dropped(step(e, q)) {
      LaterDiffers(order, k, q);
      StepFrame(e, faults, lastModified, now, stamp, q, target);
      StepFrame(e, faults, lastModified, now, stamp, q, m);
      StepFrame(e, faults, lastModified, now, stamp, q, gcp);
    }
    Sweep.Keeps(Step(before, faults, lastModified, now, stamp, m), order[k + 1..], step, dropped);
  }

  /**
   * Over a whole pass, a young walked record manifest, whose name no other
   * walked manifest shares, ends in uploaded under its name with its content,
   * and gcp/manifests_incoming holds its copy: the entries whose paths
   * existed when its fork ran, stamped with its instant.
   */
  lemma {:induction false} PassUploadsFreshManifest(t: Tally, faults: Faults, lastModified: Path -> Option<int>,
                                                    now: Path -> int, stamp: Path -> string, order: seq<Path>, k: nat)
    requires k < |order| && Distinct(order)
    requires forall q :: q in order ==> q.folder.stage == ManifestsLanded
    requires forall q :: q in order && q != order[k] ==> q.name != order[k].name
    requires order[k] in t.disk.entries && t.disk.entries[order[k]].Doc? && t.disk.entries[order[k]].doc.Record?
    requires lastModified(order[k]).Some? && now(order[k]) - lastModified(order[k]).value < OneHour
    requires !faults.write(GcpTarget(order[k].name))
    requires Resolve(ManifestsUploaded, order[k].name) !in t.disk.entries
    requires !faults.rename(order[k], Resolve(ManifestsUploaded, order[k].name))
    ensures var before := Pass(t, faults, lastModified, now, stamp, order[..k]).disk;
            var e := Pass(t, faults, lastModified, now, stamp, order).disk;
            var target := Resolve(ManifestsUploaded, order[k].name);
            && target in e.entries && e.entries[target] == t.disk.entries[order[k]] && order[k] !in e.entries
            && GcpTarget(order[k].name) in e.entries
            && e.entries[GcpTarget(order[k].name)]
               == Doc(Record(ExistingFiles(before, t.disk.entries[order[k]].doc.infos), stamp(order[k])))
  {
    var m := order[k];
    var target, gcp := Resolve(ManifestsUploaded, m.name), GcpTarget(m.name);
    var content := t.disk.entries[m];
    var step := (e, q) => Step(e, faults, lastModified, now, stamp, q);
    EarlierForksKeep(t, faults, lastModified, now, stamp, order, k, m);
    EarlierForksKeep(t, faults, lastModified, now, stamp, order, k, target);
    var before := Pass(t, faults, lastModified, now, stamp, order[..k]);
    FreshManifestIsUploaded(before, faults, lastModified, now, stamp, m);
    PassSplits(t, faults, lastModified, now, stamp, order, k);
    var copy := Doc(Record(ExistingFiles(before.disk, content.doc.infos), stamp(m)));
    var uploaded := (e: Tally) => target in e.disk.entries && e.disk.entries[target] == content && m !in e.disk.entries
                                  && gcp in e.disk.entries && e.disk.entries[gcp] == copy;
    forall e: Tally, q | q in order[k + 1..] && uploaded(e) ensures uploaded(step(e, q)) {
      LaterDiffers(order, k, q);
      StepFrame(e, faults, lastModified, now, stamp, q, target);
      StepFrame(e, faults, lastModified, now, stamp, q, m);
      StepFrame(e, faults, lastModified, now, stamp, q, gcp);
    }
    Sweep.Keeps(Step(before, faults, lastModified, now, stamp, m), order[k + 1..], step, uploaded);
  }
}
