/**
 * ManifestCreator.run, one iteration of its loop. The loop keeps fileCount
 * (starting at 0) and lastManifestTime (starting at the clock reading taken
 * before the loop). A batch fires when an hour has passed since
 * lastManifestTime or fileCount has reached 1000: the regular files directly
 * in uploaded, rejected, dropped and failed are listed, each list is written,
 * one path per line, to "manifest_<timestamp>.txt" in manifests-uploaded,
 * -rejected, -dropped and -failed, and an uber manifest naming those four
 * files is written to manifests-landed/"uber_manifest_<timestamp>.json";
 * then fileCount is reset to 0 and lastManifestTime set to the tick's clock
 * reading. Otherwise fileCount grows by the number of entries (files and
 * sub-directories) directly in uploaded, accepted, rejected, dropped and
 * failed. An IOException ends the iteration wherever it occurs: what was
 * written or added stays, nothing is reset.
 *
 * Instants are milliseconds; currentTime is the tick's first clock reading
 * and timestamp the second one, taken for the names.
 */
module ManifestCreator {
  import opened Fs
  import Strings

  const OneHour := 3_600_000
  const Threshold := 1000

  /** The batch condition. */
  predicate Fires(fileCount: int, lastManifestTime: int, currentTime: int)
  {
    currentTime - lastManifestTime >= OneHour || fileCount >= Threshold
  }

  /** The first iteration, right after start, fires only if an hour has already passed. */
  lemma FirstTickFiresOnlyAfterAnHour(startTime: int, currentTime: int)
    ensures Fires(0, startTime, currentTime) <==> currentTime >= startTime + OneHour
  {
  }

  /** The folders listed into manifests, and the folders counted toward the threshold. */
  const Listed4: seq<Stage> := [Uploaded, Rejected, Dropped, Failed]
  const Counted5: seq<Stage> := [Uploaded, Accepted, Rejected, Dropped, Failed]

  function ManifestName(timestamp: nat): string
  {
    "manifest_" + Strings.Decimal(timestamp) + ".txt"
  }

  function UberName(timestamp: nat): string
  {
    "uber_manifest_" + Strings.Decimal(timestamp) + ".json"
  }

  /** The four category manifests and the uber manifest of one batch, in the order they are written. */
  function Batch(lists: seq<seq<Path>>, timestamp: nat): (ws: seq<(Path, Entry)>)
    requires |lists| == 4
    ensures |ws| == 5
    ensures forall i :: 0 <= i < 4 ==> ws[i] == (Resolve([ManifestsUploaded, ManifestsRejected, ManifestsDropped, ManifestsFailed][i],
                                                         ManifestName(timestamp)), Doc(Listing(lists[i])))
    ensures ws[4].0 == Resolve(ManifestsLanded, UberName(timestamp))
    ensures ws[4].1 == Doc(Uber(ws[0].0, ws[1].0, ws[2].0, ws[3].0))
  {
    var uploaded := Resolve(ManifestsUploaded, ManifestName(timestamp));
    var rejected := Resolve(ManifestsRejected, ManifestName(timestamp));
    var dropped := Resolve(ManifestsDropped, ManifestName(timestamp));
    var failed := Resolve(ManifestsFailed, ManifestName(timestamp));
    [(uploaded, Doc(Listing(lists[0]))), (rejected, Doc(Listing(lists[1]))),
     (dropped, Doc(Listing(lists[2]))), (failed, Doc(Listing(lists[3]))),
     (Resolve(ManifestsLanded, UberName(timestamp)), Doc(Uber(uploaded, rejected, dropped, failed)))]
  }

  /** The outcome of a run of writes that stops at the first failure. */
  datatype Written = Written(disk: Disk, ok: bool)

  function WriteAll(d: Disk, faults: Faults, ws: seq<(Path, Entry)>): (r: Written)
    ensures r.disk.dirs == d.dirs
    ensures r.ok <==> forall i :: 0 <= i < |ws| ==> WriteError(d, faults, ws[i].0).None?
    decreases |ws|
  {
    if ws == [] then Written(d, true)
    else if WriteError(d, faults, ws[0].0).Some? then Written(d, false)
    else
      var r := WriteAll(AfterWrite(d, faults, ws[0].0, ws[0].1), faults, ws[1..]);
      assert forall i :: 1 <= i < |ws| ==> ws[i] == ws[1..][i - 1];
      r
  }

  /** The number the else branch adds: entries of each counted folder until the first one that cannot be listed. */
  function Increment(d: Disk, stages: seq<Stage>): nat
    decreases |stages|
  {
    if stages == [] || Root(stages[0]) !in d.dirs then 0
    else |Listed(d, stages[0])| + |SubDirs(d, stages[0])| + Increment(d, stages[1..])
  }

  class Creator {
    var fileCount: int
    var lastManifestTime: int

    constructor (startTime: int)
      ensures fileCount == 0 && lastManifestTime == startTime
    {
      fileCount := 0;
      lastManifestTime := startTime;
    }

    /** listFiles(dir): the regular files directly in dir, or the IOException of a missing dir. */
    static method ListFiles(fs: FileSystem, s: Stage) returns (r: Option<seq<Path>>)
      ensures r.None? <==> Root(s) !in fs.dirs
      ensures r.Some? ==> Enumerates(r.value, Listed(fs.View(), s))
    {
      r := fs.List(s);
    }

    /** Writing a batch, stopping at the first failed write; true when all five were written. */
    static method WriteBatch(fs: FileSystem, lists: seq<seq<Path>>, timestamp: nat) returns (ok: bool)
      requires |lists| == 4
      modifies fs
      ensures Written(fs.View(), ok) == WriteAll(old(fs.View()), fs.faults, Batch(lists, timestamp))
    {
      var ws := Batch(lists, timestamp);
      ghost var d0 := fs.View();
      var i := 0;
      while i < |ws|
        invariant 0 <= i <= |ws|
        invariant WriteAll(fs.View(), fs.faults, ws[i..]) == WriteAll(d0, fs.faults, ws)
      {
        var err := fs.Write(ws[i].0, ws[i].1);
        if err.Some? {
          return false;
        }
        assert ws[i..][1..] == ws[i + 1..];
        i := i + 1;
      }
      assert ws[i..] == [];
      return true;
    }

    /**
     * The branch of an iteration where a manifest is due: list the four
     * folders, a missing one ending the iteration, and write the batch; the
     * counters restart only when all five files were written.
     */
    method Fire(fs: FileSystem, currentTime: int, timestamp: nat) returns (ghost lists: Option<seq<seq<Path>>>)
      modifies this, fs
      ensures lists.None? <==> exists i :: 0 <= i < 4 && Root(Listed4[i]) !in old(fs.dirs)
      ensures lists.None? ==> fs.View() == old(fs.View())
                              && fileCount == old(fileCount) && lastManifestTime == old(lastManifestTime)
      ensures lists.Some? ==>
                && |lists.value| == 4
                && (forall i :: 0 <= i < 4 ==> Enumerates(lists.value[i], Listed(old(fs.View()), Listed4[i])))
                && var w := WriteAll(old(fs.View()), fs.faults, Batch(lists.value, timestamp));
                   && fs.View() == w.disk
                   && (w.ok ==> fileCount == 0 && lastManifestTime == currentTime)
                   && (!w.ok ==> fileCount == old(fileCount) && lastManifestTime == old(lastManifestTime))
    {
      lists := None;
      var uploadedFiles := ListFiles(fs, Uploaded);
      if uploadedFiles.None? {
        assert Root(Listed4[0]) !in fs.dirs;
        return;
      }
      var rejectedFiles := ListFiles(fs, Rejected);
      if rejectedFiles.None? {
        assert Root(Listed4[1]) !in fs.dirs;
        return;
      }
      var droppedFiles := ListFiles(fs, Dropped);
      if droppedFiles.None? {
        assert Root(Listed4[2]) !in fs.dirs;
        return;
      }
      var failedFiles := ListFiles(fs, Failed);
      if failedFiles.None? {
        assert Root(Listed4[3]) !in fs.dirs;
        return;
      }
      var batch := [uploadedFiles.value, rejectedFiles.value, droppedFiles.value, failedFiles.value];
      lists := Some(batch);
      var ok := WriteBatch(fs, batch, timestamp);
      if ok {
        fileCount := 0;
        lastManifestTime := currentTime;
      }
    }

    /** One iteration of the loop. */
    method Tick(fs: FileSystem, currentTime: int, timestamp: nat) returns (ghost lists: Option<seq<seq<Path>>>)
      modifies this, fs
      ensures Fires(old(fileCount), old(lastManifestTime), currentTime) ==>
                && (lists.None? <==> exists i :: 0 <= i < 4 && Root(Listed4[i]) !in old(fs.dirs))
                && (lists.None? ==> fs.View() == old(fs.View())
                                    && fileCount == old(fileCount) && lastManifestTime == old(lastManifestTime))
                && (lists.Some? ==>
                      && |lists.value| == 4
                      && (forall i :: 0 <= i < 4 ==> Enumerates(lists.value[i], Listed(old(fs.View()), Listed4[i])))
                      && var w := WriteAll(old(fs.View()), fs.faults, Batch(lists.value, timestamp));
                         && fs.View() == w.disk
                         && (w.ok ==> fileCount == 0 && lastManifestTime == currentTime)
                         && (!w.ok ==> fileCount == old(fileCount) && lastManifestTime == old(lastManifestTime)))
      ensures !Fires(old(fileCount), old(lastManifestTime), currentTime) ==>
                && lists.None? && fs.View() == old(fs.View())
                && fileCount == old(fileCount) + Increment(old(fs.View()), Counted5)
                && lastManifestTime == old(lastManifestTime)
    {
      lists := None;
      if Fires(fileCount, lastManifestTime, currentTime) {
        lists := Fire(fs, currentTime, timestamp);
      } else {
        ghost var d := fs.View();
        var i := 0;
        while i < |Counted5|
          invariant 0 <= i <= |Counted5|
          invariant fs.View() == d && lastManifestTime == old(lastManifestTime)
          invariant fileCount + Increment(d, Counted5[i..]) == old(fileCount) + Increment(d, Counted5)
        {
          var n := fs.CountListed(Counted5[i]);
          if n.None? {
            return;
          }
          fileCount := fileCount + n.value;
          assert Counted5[i..][1..] == Counted5[i + 1..];
          i := i + 1;
        }
        assert Counted5[i..] == [];
      }
    }
  }

  /** A successful batch leaves each category manifest listing its folder's files, and the uber manifest naming the four. */
  lemma {:induction false} BatchContents(d: Disk, faults: Faults, lists: seq<seq<Path>>, timestamp: nat)
    requires |lists| == 4
    requires WriteAll(d, faults, Batch(lists, timestamp)).ok
    ensures var r := WriteAll(d, faults, Batch(lists, timestamp)).disk;
            var ws := Batch(lists, timestamp);
            forall i :: 0 <= i < 5 ==> ws[i].0 in r.entries && r.entries[ws[i].0] == ws[i].1
  {
    WrittenAreThere(d, faults, Batch(lists, timestamp));
  }

  /** After a run of writes to distinct paths that all succeed, each path holds what was written to it. */
  lemma {:induction false} WrittenAreThere(d: Disk, faults: Faults, ws: seq<(Path, Entry)>)
    requires WriteAll(d, faults, ws).ok
    requires forall i, j :: 0 <= i < j < |ws| ==> ws[i].0 != ws[j].0
    ensures forall i :: 0 <= i < |ws| ==> ws[i].0 in WriteAll(d, faults, ws).disk.entries
                                          && WriteAll(d, faults, ws).disk.entries[ws[i].0] == ws[i].1
    decreases |ws|
  {
    if ws != [] {
      var d1 := AfterWrite(d, faults, ws[0].0, ws[0].1);
      assert forall i :: 1 <= i < |ws| ==> ws[i] == ws[1..][i - 1];
      WrittenAreThere(d1, faults, ws[1..]);
      WriteAllKeeps(d1, faults, ws[1..], ws[0].0);
    }
  }

  /** Writes to other paths leave a path's content alone. */
  lemma {:induction false} WriteAllKeeps(d: Disk, faults: Faults, ws: seq<(Path, Entry)>, p: Path)
    requires forall i :: 0 <= i < |ws| ==> ws[i].0 != p
    ensures (p in WriteAll(d, faults, ws).disk.entries <==> p in d.entries)
    ensures p in d.entries ==> WriteAll(d, faults, ws).disk.entries[p] == d.entries[p]
    decreases |ws|
  {
    if ws != [] && WriteError(d, faults, ws[0].0).None? {
      assert forall i :: 0 <= i < |ws[1..]| ==> ws[1..][i] == ws[i + 1];
      WriteAllKeeps(AfterWrite(d, faults, ws[0].0, ws[0].1), faults, ws[1..], p);
    }
  }

  /** Accepted files are counted toward the threshold, but no manifest lists them. */
  lemma AcceptedIsCountedButNeverListed(d: Disk, lists: seq<seq<Path>>)
    requires |lists| == 4 && forall i :: 0 <= i < 4 ==> Enumerates(lists[i], Listed(d, Listed4[i]))
    requires forall i :: 0 <= i < 5 ==> Root(Counted5[i]) in d.dirs
    ensures forall i, j :: 0 <= i < 4 && 0 <= j < |lists[i]| ==> lists[i][j].folder.stage != Accepted
    ensures Increment(d, Counted5) >= |Listed(d, Accepted)|
  {
    forall i, j | 0 <= i < 4 && 0 <= j < |lists[i]|
      ensures lists[i][j].folder.stage != Accepted
    {
      assert lists[i][j] in Listed(d, Listed4[i]);
    }
    assert Counted5[1..][0] == Accepted;
  }

  /** Batches taken at different instants never share a manifest name, so no batch overwrites an earlier one. */
  lemma ManifestNamesAreUnique(t1: nat, t2: nat)
    requires t1 != t2
    ensures ManifestName(t1) != ManifestName(t2)
    ensures UberName(t1) != UberName(t2)
  {
    Strings.DecimalRoundTrip(t1);
    Strings.DecimalRoundTrip(t2);
    var a, b := Strings.Decimal(t1), Strings.Decimal(t2);
    var m1, m2 := ManifestName(t1), ManifestName(t2);
    var u1, u2 := UberName(t1), UberName(t2);
    assert m1[9..9 + |a|] == a && m2[9..9 + |b|] == b;
    assert u1[14..14 + |a|] == a && u2[14..14 + |b|] == b;
    if |a| != |b| {
      assert |m1| != |m2| && |u1| != |u2|;
    } else {
      assert m1[9..9 + |a|] != m2[9..9 + |b|];
      assert u1[14..14 + |a|] != u2[14..14 + |b|];
    }
  }
}
