/**
 * FileUtils.moveFileAtomically: create the target's parent directories, then
 * rename the file atomically, replacing whatever is at the target.
 * Errors reach the caller.
 */
module FileUtils {
  import opened Fs

  /** The IOException moveFileAtomically throws, if any. */
  function MoveFileError(d: Disk, faults: Faults, source: Path, target: Path): (r: Option<IoError>)
    ensures r.None? <==> source in d.entries && (source == target || !faults.rename(source, target))
    ensures r.Some? && source in d.entries ==> r == Some(AccessDenied)
  {
    MoveError(AfterMkdirs(d, target.folder), faults, source, target, true)
  }

  /** The filesystem after moveFileAtomically. */
  function MovedFile(d: Disk, faults: Faults, source: Path, target: Path): (r: Disk)
    ensures r.dirs == d.dirs + Ancestors(target.folder)
    ensures MoveFileError(d, faults, source, target).None? ==>
              target in r.entries && r.entries[target] == d.entries[source]
              && (source != target ==> source !in r.entries)
    ensures MoveFileError(d, faults, source, target).Some? ==> r.entries == d.entries
    ensures forall k :: k != source && k != target ==>
              (k in r.entries <==> k in d.entries) && (k in d.entries ==> r.entries[k] == d.entries[k])
  {
    AfterMove(AfterMkdirs(d, target.folder), faults, source, target, true)
  }

  method MoveFileAtomically(fs: FileSystem, source: Path, target: Path) returns (err: Option<IoError>)
    modifies fs
    ensures err == MoveFileError(old(fs.View()), fs.faults, source, target)
    ensures fs.View() == MovedFile(old(fs.View()), fs.faults, source, target)
  {
    fs.CreateDirectories(target.folder);
    err := fs.Move(source, target, true);
  }

  /** A file that moved lands whole at its target, even over an existing file there. */
  lemma MoveOverwrites(d: Disk, faults: Faults, source: Path, target: Path)
    requires source in d.entries && target in d.entries && source != target
    requires !faults.rename(source, target)
    ensures var r := MovedFile(d, faults, source, target);
            r.entries == (d.entries - {source})[target := d.entries[source]]
  {
  }

  /**
   * What moveFileAtomically leaves at the source and at any other path k
   * depends only on what was at the source and at k before.
   */
  lemma MoveIsLocal(d: Disk, e: Disk, faults: Faults, source: Path, target: Path, k: Path)
    requires SameAt(d, e, source) && SameAt(d, e, k)
    ensures MoveFileError(d, faults, source, target) == MoveFileError(e, faults, source, target)
    ensures SameAt(MovedFile(d, faults, source, target), MovedFile(e, faults, source, target), source)
    ensures SameAt(MovedFile(d, faults, source, target), MovedFile(e, faults, source, target), k)
  {
  }

  // ---------------------------------------------------------------------
  // isOlderThan and copyFile are called on FileUtils but not defined there;
  // these give them the meaning their names and call sites suggest.

  /**
   * isOlderThan(file, cutoff): the last-modified instant lies strictly
   * before the cutoff; None is the IOException of an unreadable attribute.
   */
  function IsOlderThan(lastModified: Option<int>, cutoff: int): (r: Option<bool>)
    ensures r.None? <==> lastModified.None?
    ensures r == Some(true) <==> lastModified.Some? && cutoff - lastModified.value > 0
  {
    if lastModified.None? then None else Some(lastModified.value < cutoff)
  }

  /** copyFile(source, target): create the target's parents, then copy replacing any existing target. */
  function CopyFileError(d: Disk, faults: Faults, source: Path, target: Path): (r: Option<IoError>)
    ensures r.None? <==> source in d.entries && !faults.write(target)
  {
    CopyError(AfterMkdirs(d, target.folder), faults, source, target)
  }

  function CopiedFile(d: Disk, faults: Faults, source: Path, target: Path): (r: Disk)
    ensures r.dirs == d.dirs + Ancestors(target.folder)
    ensures CopyFileError(d, faults, source, target).None? ==> r.entries == d.entries[target := d.entries[source]]
    ensures CopyFileError(d, faults, source, target).Some? ==> r.entries == d.entries
  {
    AfterCopy(AfterMkdirs(d, target.folder), faults, source, target)
  }

  method CopyFile(fs: FileSystem, source: Path, target: Path) returns (err: Option<IoError>)
    modifies fs
    ensures err == CopyFileError(old(fs.View()), fs.faults, source, target)
    ensures fs.View() == CopiedFile(old(fs.View()), fs.faults, source, target)
  {
    fs.CreateDirectories(target.folder);
    err := fs.Copy(source, target);
  }
}
