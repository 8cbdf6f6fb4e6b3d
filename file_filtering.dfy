/**
 * FileFiltering: list the files directly in the landed folder and route each
 * by its content. A file whose mapped bytes start with the header "FILE"
 * goes to accepted, any other readable file to rejected, and a file that
 * cannot be opened or mapped to failed, always under its own name, with
 * FileUtils.moveFileAtomically.
 */
module FileFiltering {
  import opened Fs
  import Sweep
  import FileUtils

  /** The header an accepted file starts with: the bytes of "FILE". */
  const Magic: seq<bv8> := [0x46, 0x49, 0x4C, 0x45]

  /**
   * The predicate of createFileFilter: read four header bytes and compare them
   * with 'F', 'I', 'L', 'E'. A buffer with fewer than four bytes makes the read
   * throw, which the predicate turns into false.
   */
  function HeaderIsFile(buffer: seq<bv8>): (accepted: bool)
    ensures accepted <==> Magic <= buffer
  {
    if |buffer| < 4 then false
    else
      var header := buffer[..4];
      header[0] == 'F' as bv8 && header[1] == 'I' as bv8 && header[2] == 'L' as bv8 && header[3] == 'E' as bv8
  }

  /** The folder processFile picks: None stands for a file that could not be opened or mapped. */
  function Destination(mapped: Option<seq<bv8>>): (s: Stage)
    ensures s == Accepted <==> mapped.Some? && Magic <= mapped.value
    ensures s == Rejected <==> mapped.Some? && !(Magic <= mapped.value)
    ensures s == Failed <==> mapped.None?
  {
    if mapped.None? then Failed
    else if HeaderIsFile(mapped.value) then Accepted
    else Rejected
  }

  function Step(d: Disk, faults: Faults, read: Path -> Option<seq<bv8>>, file: Path): Disk
  {
    FileUtils.MovedFile(d, faults, file, Resolve(Destination(read(file)), file.name))
  }

  ghost function Pass(d: Disk, faults: Faults, read: Path -> Option<seq<bv8>>, order: seq<Path>): Disk
  {
    Sweep.Run(d, order, (e, p) => Step(e, faults, read, p))
  }

  lemma PassStep(d: Disk, faults: Faults, read: Path -> Option<seq<bv8>>, order: seq<Path>)
    requires order != []
    ensures Pass(d, faults, read, order) == Pass(Step(d, faults, read, order[0]), faults, read, order[1..])
  {
  }

  /** processFile: one move, to the folder the content picks; a failed move is logged. */
  method ProcessFile(fs: FileSystem, read: Path -> Option<seq<bv8>>, filePath: Path)
    modifies fs
    ensures fs.View() == Step(old(fs.View()), fs.faults, read, filePath)
  {
    var fileName := filePath.name;
    var mapped := read(filePath);
    var destinationPath: Path;
    if mapped.Some? {
      if HeaderIsFile(mapped.value) {
        destinationPath := Resolve(Accepted, fileName);
      } else {
        destinationPath := Resolve(Rejected, fileName);
      }
    } else {
      destinationPath := Resolve(Failed, fileName);
    }
    var err := FileUtils.MoveFileAtomically(fs, filePath, destinationPath);
  }

  /** processLandedFiles: a failed listing changes nothing; otherwise each listed file in turn. */
  method ProcessLandedFiles(fs: FileSystem, read: Path -> Option<seq<bv8>>) returns (ghost order: Option<seq<Path>>)
    modifies fs
    ensures order.None? <==> Root(Landed) !in old(fs.dirs)
    ensures order.None? ==> fs.View() == old(fs.View())
    ensures order.Some? ==>
              && Enumerates(order.value, Listed(old(fs.View()), Landed))
              && fs.View() == Pass(old(fs.View()), fs.faults, read, order.value)
  {
    var listing := fs.List(Landed);
    if listing.None? {
      return None;
    }
    var files := listing.value;
    ghost var d0 := fs.View();
    var i := 0;
    while i < |files|
      invariant 0 <= i <= |files|
      invariant Pass(fs.View(), fs.faults, read, files[i..]) == Pass(d0, fs.faults, read, files)
    {
      PassStep(fs.View(), fs.faults, read, files[i..]);
      ProcessFile(fs, read, files[i]);
      assert files[i..][1..] == files[i + 1..];
      i := i + 1;
    }
    assert files[i..] == [];
    return Some(files);
  }

  /**
   * Every listed file ends in the folder its content picks, under its name
   * and with its content, unless that rename is refused.
   */
  lemma {:induction false} FileIsRouted(d: Disk, faults: Faults, read: Path -> Option<seq<bv8>>,
                                        order: seq<Path>, file: Path)
    requires file in order && Distinct(order)
    requires forall q :: q in order ==> q.folder == Root(Landed)
    requires file in d.entries
    requires !faults.rename(file, Resolve(Destination(read(file)), file.name))
    ensures var r := Pass(d, faults, read, order);
            var target := Resolve(Destination(read(file)), file.name);
            && target in r.entries && r.entries[target] == d.entries[file] && file !in r.entries
  {
    var target, content := Resolve(Destination(read(file)), file.name), d.entries[file];
    var step := (e, p) => Step(e, faults, read, p);
    var pre := (e: Disk) => file in e.entries && e.entries[file] == content;
    var post := (e: Disk) => target in e.entries && e.entries[target] == content && file !in e.entries;
    forall e: Disk, q | q in order && q != file && pre(e) ensures pre(step(e, q)) {
      StepFrame(e, faults, read, q, file);
    }
    forall e: Disk, q | q in order && q != file && post(e) ensures post(step(e, q)) {
      StepFrame(e, faults, read, q, file);
      StepFrame(e, faults, read, q, target);
    }
    Sweep.Reaches(d, order, step, file, pre, post);
  }

  /**
   * When the bytes read are the file's own, the pass routes a byte file by
   * its content: it ends in accepted exactly when it starts with the header
   * "FILE", in rejected exactly when it can be read and does not, and in
   * failed exactly when it cannot be read, holding the bytes it was routed by.
   */
  lemma RoutedByContent(d: Disk, faults: Faults, read: Path -> Option<seq<bv8>>, order: seq<Path>, file: Path)
    requires file in order && Distinct(order)
    requires forall q :: q in order ==> q.folder == Root(Landed)
    requires file in d.entries && d.entries[file].Blob? && ReadsEntry(d, read, file)
    requires !faults.rename(file, Resolve(Destination(read(file)), file.name))
    ensures var r := Pass(d, faults, read, order);
            var target := Resolve(Destination(read(file)), file.name);
            var bytes := d.entries[file].bytes;
            && target in r.entries && r.entries[target] == Blob(bytes) && file !in r.entries
            && (target.folder == Root(Accepted) <==> read(file).Some? && Magic <= bytes)
            && (target.folder == Root(Rejected) <==> read(file).Some? && !(Magic <= bytes))
            && (target.folder == Root(Failed) <==> read(file).None?)
  {
    FileIsRouted(d, faults, read, order, file);
  }

  /** A move changes only paths with its own file's name. */
  lemma StepFrame(d: Disk, faults: Faults, read: Path -> Option<seq<bv8>>, q: Path, k: Path)
    requires k.name != q.name
    ensures SameAt(d, Step(d, faults, read, q), k)
  {
  }

  /** A file whose move is refused stays in landed with its content: exactly one move is tried. */
  lemma {:induction false} RefusedFileStays(d: Disk, faults: Faults, read: Path -> Option<seq<bv8>>,
                                            order: seq<Path>, file: Path)
    requires forall q :: q in order ==> q.folder == Root(Landed)
    requires file in d.entries && file.folder == Root(Landed)
    requires faults.rename(file, Resolve(Destination(read(file)), file.name))
    ensures var r := Pass(d, faults, read, order);
            file in r.entries && r.entries[file] == d.entries[file]
  {
    var step := (e, p) => Step(e, faults, read, p);
    var inv := (e: Disk) => file in e.entries && e.entries[file] == d.entries[file];
    forall e: Disk, q | q in order && inv(e) ensures inv(step(e, q)) {
    }
    Sweep.Keeps(d, order, step, inv);
  }
}
