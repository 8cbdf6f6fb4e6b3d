/**
 * Util.atomicMove: create the target's parent directories, then rename the
 * file atomically without REPLACE_EXISTING; errors reach the caller.
 * Util.uploadToGCS is a placeholder that reports success.
 */
module Util {
  import opened Fs

  /** The IOException atomicMove throws, if any. */
  function AtomicMoveError(d: Disk, faults: Faults, source: Path, target: Path): (r: Option<IoError>)
    ensures r.None? <==> source in d.entries
                         && (source == target || (target !in d.entries && !faults.rename(source, target)))
    ensures source in d.entries && source != target && target in d.entries ==> r == Some(FileAlreadyExists)
  {
    MoveError(AfterMkdirs(d, target.folder), faults, source, target, false)
  }

  /** The filesystem after atomicMove. */
  function AtomicMoved(d: Disk, faults: Faults, source: Path, target: Path): (r: Disk)
    ensures r.dirs == d.dirs + Ancestors(target.folder)
    ensures AtomicMoveError(d, faults, source, target).None? ==>
              target in r.entries && r.entries[target] == d.entries[source]
              && (source != target ==> source !in r.entries)
    ensures AtomicMoveError(d, faults, source, target).Some? ==> r.entries == d.entries
    ensures forall k :: k != source && k != target ==>
              (k in r.entries <==> k in d.entries) && (k in d.entries ==> r.entries[k] == d.entries[k])
  {
    AfterMove(AfterMkdirs(d, target.folder), faults, source, target, false)
  }

  method AtomicMove(fs: FileSystem, source: Path, target: Path) returns (err: Option<IoError>)
    modifies fs
    ensures err == AtomicMoveError(old(fs.View()), fs.faults, source, target)
    ensures fs.View() == AtomicMoved(old(fs.View()), fs.faults, source, target)
  {
    fs.CreateDirectories(target.folder);
    err := fs.Move(source, target, false);
  }

  /** uploadToGCS(bucket, object, file): no transfer is made; the call reports success. */
  function UploadToGcs(bucketName: string, objectName: string, filePath: Path): (uploaded: bool)
    ensures uploaded
  {
    true
  }
}
