/**
 * FileOperations.moveFileAtomically: the same directory creation and replacing atomic
 * rename as FileUtils.moveFileAtomically, but a failure is only logged.
 */
module FileOperations {
  import opened Fs
  import FileUtils

  method MoveFileAtomically(fs: FileSystem, source: Path, target: Path)
    modifies fs
    ensures fs.View() == FileUtils.MovedFile(old(fs.View()), fs.faults, source, target)
  {
    fs.CreateDirectories(target.folder);
    var err := fs.Move(source, target, true);
    // an IOException is logged and dropped
  }
}
