/**
 * FileFilter.run, one pass of its loop: list the files directly in the landed
 * folder; a file whose first byte is even goes to accepted, one whose first
 * byte is odd to rejected, by atomic rename without replacing or creating
 * directories. When reading the file or that rename throws (an empty file
 * has no first byte), the file is renamed to failed instead; when that
 * fails too, it stays.
 */
module FileFilter {
  import opened Fs
  import Sweep
  import JavaLang

  /**
   * The predicate buffer.get(0) % 2 == 0 on Java's signed byte; None when the
   * buffer is empty and get(0) throws.
   */
  function FirstByteEven(buffer: seq<bv8>): (r: Option<bool>)
    ensures r.None? <==> buffer == []
    ensures r.Some? ==> (r.value <==> (buffer[0] as int) % 2 == 0)
  {
    if buffer == [] then None
    else
      JavaLang.SignedParity(buffer[0]);
      Some(JavaLang.Rem(JavaLang.SignedByte(buffer[0]), 2) == 0)
  }

  /** The first choice of folder; None when the predicate cannot be evaluated. */
  function Choice(mapped: Option<seq<bv8>>): Option<Stage>
  {
    if mapped.None? then None
    else
      var even := FirstByteEven(mapped.value);
      if even.None? then None else Some(if even.value then Accepted else Rejected)
  }

  /** One listed file: the chosen rename, or the rename to failed when anything before it threw. */
  function Step(d: Disk, faults: Faults, read: Path -> Option<seq<bv8>>, file: Path): (r: Disk)
    ensures r.dirs == d.dirs
  {
    var failed := Resolve(Failed, file.name);
    var choice := Choice(read(file));
    if choice.None? then AfterMove(d, faults, file, failed, false)
    else
      var target := Resolve(choice.value, file.name);
      if MoveError(d, faults, file, target, false).None? then AfterMove(d, faults, file, target, false)
      else AfterMove(d, faults, file, failed, false)
  }

  ghost function Pass(d: Disk, faults: Faults, read: Path -> Option<seq<bv8>>, order: seq<Path>): Disk
  {
    Sweep.Run(d, order, (e, p) => Step(e, faults, read, p))
  }

  lemma PassStep(d: Disk, faults: Faults, read: Path -> Option<seq<bv8>>, order: seq<Path>)
    requires order != []
    ensures Pass(d, faults, read, order) == Pass(Step(d, faults, read, order[0]), faults, read, order[1..])
  {
  }

  /** One pass: a failed listing is logged and changes nothing; otherwise each listed file in turn. */
  method Tick(fs: FileSystem, read: Path -> Option<seq<bv8>>) returns (ghost order: Option<seq<Path>>)
    modifies fs
    ensures order.None? <==> Root(Landed) !in old(fs.dirs)
    ensures order.None? ==> fs.View() == old(fs.View())
    ensures order.Some? ==>
              && Enumerates(order.value, Listed(old(fs.View()), Landed))
              && fs.View() == Pass(old(fs.View()), fs.faults, read, order.value)
  {
    var listing := fs.List(Landed);
    if listing.None? {
      return None;
    }
    var files := listing.value;
    ghost var d0 := fs.View();
    var i := 0;
    while i < |files|
      invariant 0 <= i <= |files|
      invariant Pass(fs.View(), fs.faults, read, files[i..]) == Pass(d0, fs.faults, read, files)
    {
      var file := files[i];
      PassStep(fs.View(), fs.faults, read, files[i..]);
      var thrown := true;
      var mapped := read(file);
      if mapped.Some? && mapped.value != [] {
        var result := JavaLang.Rem(JavaLang.SignedByte(mapped.value[0]), 2) == 0;
        var target := if result then Resolve(Accepted, file.name) else Resolve(Rejected, file.name);
        var err := fs.Move(file, target, false);
        thrown := err.Some?;
      }
      if thrown {
        var err := fs.Move(file, Resolve(Failed, file.name), false);
        // a failure here is logged and the file stays in landed
      }
      assert files[i..][1..] == files[i + 1..];
      i := i + 1;
    }
    assert files[i..] == [];
    return Some(files);
  }

  /** Where a file ends up, given what it reads as and what the folders hold. */
  function Outcome(d: Disk, faults: Faults, mapped: Option<seq<bv8>>, file: Path): Option<Stage>
  {
    var choice := Choice(mapped);
    if choice.Some? && MoveError(d, faults, file, Resolve(choice.value, file.name), false).None? then choice
    else if MoveError(d, faults, file, Resolve(Failed, file.name), false).None? then Some(Failed)
    else None
  }

  /**
   * The routing of one file: an even first byte sends it to accepted, an odd
   * one to rejected; an empty or unreadable file, or a refused first rename,
   * sends it to failed; if that rename is refused as well it stays.
   */
  lemma StepRoutes(d: Disk, faults: Faults, read: Path -> Option<seq<bv8>>, file: Path)
    requires file in d.entries && file.folder == Root(Landed)
    ensures var mapped := read(file);
            var outcome := Outcome(d, faults, mapped, file);
            var r := Step(d, faults, read, file);
            && (outcome == Some(Accepted) ==> mapped.Some? && mapped.value != [] && (mapped.value[0] as int) % 2 == 0)
            && (outcome == Some(Rejected) ==> mapped.Some? && mapped.value != [] && (mapped.value[0] as int) % 2 == 1)
            && (mapped.Some? && mapped.value == [] ==> outcome != Some(Accepted) && outcome != Some(Rejected))
            && (outcome.Some? ==> Resolve(outcome.value, file.name) in r.entries
                                  && r.entries[Resolve(outcome.value, file.name)] == d.entries[file]
                                  && file !in r.entries)
            && (outcome.None? ==> r == d)
  {
  }

  /** A file reaches its outcome folder in the pass, whatever the other files do. */
  lemma {:induction false} FileReachesOutcome(d: Disk, faults: Faults, read: Path -> Option<seq<bv8>>,
                                              order: seq<Path>, file: Path)
    requires file in order && Distinct(order)
    requires forall q :: q in order ==> q.folder == Root(Landed)
    requires file in d.entries
    requires Outcome(d, faults, read(file), file).Some?
    ensures var r := Pass(d, faults, read, order);
            var target := Resolve(Outcome(d, faults, read(file), file).value, file.name);
            && target in r.entries && r.entries[target] == d.entries[file] && file !in r.entries
  {
    var target, content := Resolve(Outcome(d, faults, read(file), file).value, file.name), d.entries[file];
    var step := (e, p) => Step(e, faults, read, p);
    var pre := (e: Disk) => file in e.entries && e.entries[file] == content && e.dirs == d.dirs
                            && Outcome(e, faults, read(file), file) == Outcome(d, faults, read(file), file);
    var post := (e: Disk) => target in e.entries && e.entries[target] == content && file !in e.entries;
    forall e: Disk, q | q in order && q != file && pre(e) ensures pre(step(e, q)) {
      assert q.name != file.name;
      // the targets of file are named file.name, so q's moves leave them as they were
      StepFrame(e, faults, read, q, file);
      StepFrame(e, faults, read, q, Resolve(Accepted, file.name));
      StepFrame(e, faults, read, q, Resolve(Rejected, file.name));
      StepFrame(e, faults, read, q, Resolve(Failed, file.name));
    }
    forall e: Disk | pre(e) ensures post(step(e, file)) {
      StepRoutes(e, faults, read, file);
    }
    forall e: Disk, q | q in order && q != file && post(e) ensures post(step(e, q)) {
      assert q.name != file.name;
      StepFrame(e, faults, read, q, file);
      StepFrame(e, faults, read, q, target);
    }
    Sweep.Reaches(d, order, step, file, pre, post);
  }

  /**
   * When the bytes read are the file's own, a byte file reaches accepted
   * only with an even first byte, rejected only with an odd one, and an
   * empty file reaches neither; it arrives holding those bytes.
   */
  lemma ReachesOutcomeByContent(d: Disk, faults: Faults, read: Path -> Option<seq<bv8>>,
                                order: seq<Path>, file: Path)
    requires file in order && Distinct(order)
    requires forall q :: q in order ==> q.folder == Root(Landed)
    requires file in d.entries && d.entries[file].Blob? && ReadsEntry(d, read, file)
    requires Outcome(d, faults, read(file), file).Some?
    ensures var r := Pass(d, faults, read, order);
            var outcome := Outcome(d, faults, read(file), file).value;
            var bytes := d.entries[file].bytes;
            && Resolve(outcome, file.name) in r.entries && r.entries[Resolve(outcome, file.name)] == Blob(bytes)
            && (outcome == Accepted ==> bytes != [] && (bytes[0] as int) % 2 == 0)
            && (outcome == Rejected ==> bytes != [] && (bytes[0] as int) % 2 == 1)
            && (bytes == [] ==> outcome == Failed)
  {
    FileReachesOutcome(d, faults, read, order, file);
    StepRoutes(d, faults, read, file);
  }

  /** A listed file's step changes only paths with that file's name. */
  lemma StepFrame(d: Disk, faults: Faults, read: Path -> Option<seq<bv8>>, q: Path, k: Path)
    requires k.name != q.name
    ensures SameAt(d, Step(d, faults, read, q), k)
  {
  }
}
