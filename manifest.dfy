/**
 * Manifest.run, one iteration of its loop. The start time is read once,
 * before the loop, and never updated. Each tick computes the whole hours
 * elapsed since then with Java's truncating long division; when fileCount
 * has reached 1000 or at least one hour has elapsed, generateManifest walks
 * every regular file under the parent of the incoming folder and writes
 * their paths with a timestamp to manifests-landed/"manifest_<timestamp>.json",
 * and fileCount is set to 0. Then scanDirectories walks the same tree and
 * sets fileCount to the number of regular files found. An exception from
 * generateManifest ends the tick before the reset and the scan.
 *
 * Instants are milliseconds; timestamp is the text of the UTC clock reading
 * generateManifest takes for the name.
 */
module Manifest {
  import opened Fs
  import JavaLang

  const OneHour := 60 * 60 * 1000
  const Threshold := 1000

  /** The whole hours elapsed, as Java's long division computes them. */
  function ElapsedHours(startTime: int, currentTime: int): int
  {
    JavaLang.Div(currentTime - startTime, OneHour)
  }

  /** The batch condition. */
  predicate Fires(fileCount: int, startTime: int, currentTime: int)
  {
    fileCount >= Threshold || ElapsedHours(startTime, currentTime) >= 1
  }

  /** At least one whole hour has elapsed exactly when a full hour of milliseconds has; a clock that went back never fires. */
  lemma FiresIffCountOrAnHour(fileCount: int, startTime: int, currentTime: int)
    ensures Fires(fileCount, startTime, currentTime) <==>
              fileCount >= Threshold || currentTime - startTime >= OneHour
  {
  }

  function ManifestPath(timestamp: string): (p: Path)
    ensures p.folder == Root(ManifestsLanded)
  {
    Resolve(ManifestsLanded, "manifest_" + timestamp + ".json")
  }

  /** The path texts of a scan, in scan order. */
  function Shown(scan: seq<Path>): (names: seq<string>)
    ensures |names| == |scan| && forall i :: 0 <= i < |scan| ==> names[i] == Show(scan[i])
  {
    seq(|scan|, i requires 0 <= i < |scan| => Show(scan[i]))
  }

  class Generator {
    const startTime: int
    var fileCount: int

    constructor (startTime: int)
      ensures this.startTime == startTime && fileCount == 0
    {
      this.startTime := startTime;
      fileCount := 0;
    }

    /** generateManifest: true when the manifest was written, false when writing threw. */
    static method GenerateManifest(fs: FileSystem, timestamp: string) returns (ok: bool, ghost scan: seq<Path>)
      modifies fs
      ensures Enumerates(scan, FileTree(old(fs.View())))
      ensures ok <==> !fs.faults.write(ManifestPath(timestamp))
      ensures fs.View() == AfterWrite(AfterMkdirs(old(fs.View()), Root(ManifestsLanded)), fs.faults,
                                      ManifestPath(timestamp), Doc(PathList(timestamp, Shown(scan))))
    {
      var files := fs.WalkFiles();
      scan := files;
      var filePaths := [];
      var i := 0;
      while i < |files|
        invariant 0 <= i <= |files|
        invariant filePaths == Shown(files[..i])
      {
        filePaths := filePaths + [Show(files[i])];
        i := i + 1;
      }
      assert files[..i] == files;
      var path := ManifestPath(timestamp);
      fs.CreateDirectories(path.folder);
      var err := fs.Write(path, Doc(PathList(timestamp, filePaths)));
      ok := err.None?;
    }

    /** One iteration of the loop. */
    method Tick(fs: FileSystem, currentTime: int, timestamp: string) returns (ghost generated: Option<seq<Path>>)
      modifies this, fs
      ensures !Fires(old(fileCount), startTime, currentTime) ==>
                generated.None? && fs.View() == old(fs.View()) && fileCount == |FileTree(old(fs.View()))|
      ensures Fires(old(fileCount), startTime, currentTime) ==>
                && generated.Some?
                && Enumerates(generated.value, FileTree(old(fs.View())))
                && fs.View() == AfterWrite(AfterMkdirs(old(fs.View()), Root(ManifestsLanded)), fs.faults,
                                           ManifestPath(timestamp), Doc(PathList(timestamp, Shown(generated.value))))
                && (fs.faults.write(ManifestPath(timestamp)) ==> fileCount == old(fileCount))
                && (!fs.faults.write(ManifestPath(timestamp)) ==> fileCount == |FileTree(fs.View())|)
    {
      generated := None;
      if fileCount >= Threshold || JavaLang.Div(currentTime - startTime, OneHour) >= 1 {
        var ok, scan := GenerateManifest(fs, timestamp);
        generated := Some(scan);
        if !ok {
          return;
        }
        fileCount := 0;
      }
      var files := fs.WalkFiles();
      fileCount := |files|;
      Fs.EnumeratedCount(files, FileTree(fs.View()));
    }
  }

  /** The manifest is written outside the tree it lists, so writing it does not change the next count. */
  lemma ManifestIsNotCounted(d: Disk, faults: Faults, timestamp: string, e: Entry)
    ensures FileTree(AfterWrite(AfterMkdirs(d, Root(ManifestsLanded)), faults, ManifestPath(timestamp), e)) == FileTree(d)
  {
    assert StageDir(ManifestsLanded)[..6] == "manife";
  }

  /** The start time is never moved forward, so once an hour has passed every later tick fires, whatever fileCount is. */
  lemma EveryTickAfterTheFirstHourFires(fileCount: int, startTime: int, t1: int, t2: int)
    requires t1 - startTime >= OneHour && t2 >= t1
    ensures Fires(fileCount, startTime, t1) && Fires(fileCount, startTime, t2)
  {
    FiresIffCountOrAnHour(fileCount, startTime, t1);
    FiresIffCountOrAnHour(fileCount, startTime, t2);
  }
}
