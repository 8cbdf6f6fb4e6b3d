/**
 * Cleaner.run, one iteration of its loop: list the regular files directly
 * in manifests-uploaded and treat each as an uber manifest naming four
 * category manifests. For each category in turn (uploaded, rejected,
 * dropped, failed) moveFilesFromManifest reads the category manifest line
 * by line and moves each named file to the category's completed folder
 * under its file name; the first failure ends that category, is logged,
 * and the next category proceeds. Then the four category manifests are
 * moved to their manifests-completed folders and finally the uber manifest
 * to manifests-completed/uber. Those five moves are plain atomic renames
 * (no directories created, no replacing), and the first failure abandons
 * the rest for this uber manifest, which is logged; the next one proceeds.
 * A failed listing is logged and ends the iteration.
 *
 * A category manifest is read as the path list a manifest writer stores;
 * any other content is taken to name no file of the model, so reading it
 * moves nothing.
 */
module Cleaner {
  import opened Fs
  import Sweep

  /** Files.move(source, target, ATOMIC_MOVE): the outcome and the filesystem after. */
  datatype Moved = Moved(disk: Disk, failed: bool)

  function PlainMove(d: Disk, faults: Faults, source: Path, target: Path): Moved
  {
    Moved(AfterMove(d, faults, source, target, false), MoveError(d, faults, source, target, false).Some?)
  }

  /** The lines of a category manifest, as paths; None when the file cannot be read. */
  function ReadLines(d: Disk, manifest: Path): (r: Option<seq<Path>>)
    ensures r.Some? <==> manifest in d.entries
    ensures r.Some? && d.entries[manifest].Doc? && d.entries[manifest].doc.Listing? ==> r.value == d.entries[manifest].doc.paths
  {
    if manifest !in d.entries then None
    else if d.entries[manifest].Doc? && d.entries[manifest].doc.Listing? then Some(d.entries[manifest].doc.paths)
    else Some([])
  }

  /** The loop of moveFilesFromManifest: move each line to target/<file name>, stopping at the first failure. */
  function MoveLines(d: Disk, faults: Faults, lines: seq<Path>, target: Stage): (r: Moved)
    ensures r.disk.dirs == d.dirs
    decreases |lines|
  {
    if lines == [] then Moved(d, false)
    else
      var m := PlainMove(d, faults, lines[0], Resolve(target, lines[0].name));
      if m.failed then m else MoveLines(m.disk, faults, lines[1..], target)
  }

  lemma MoveLinesStep(d: Disk, faults: Faults, lines: seq<Path>, target: Stage)
    requires lines != []
    ensures var dst := Resolve(target, lines[0].name);
            MoveLines(d, faults, lines, target).disk
            == if MoveError(d, faults, lines[0], dst, false).Some? then d
               else MoveLines(AfterMove(d, faults, lines[0], dst, false), faults, lines[1..], target).disk
  {
  }

  /** moveFilesFromManifest(manifest, target): its failure is logged, so only the filesystem comes out. */
  function MoveFilesFromManifest(d: Disk, faults: Faults, manifest: Path, target: Stage): Disk
  {
    var lines := ReadLines(d, manifest);
    if lines.None? then d else MoveLines(d, faults, lines.value, target).disk
  }

  /** The four category manifests of an uber manifest, each with the folders its files and itself go to. */
  datatype Category = Category(manifest: Path, filesTo: Stage, manifestTo: Stage)

  function Categories(u: Document): (cs: seq<Category>)
    requires u.Uber?
    ensures |cs| == 4
  {
    [Category(u.uploadedManifest, CompletedUploaded, ManifestsCompletedUploaded),
     Category(u.rejectedManifest, CompletedRejected, ManifestsCompletedRejected),
     Category(u.droppedManifest, CompletedDropped, ManifestsCompletedDropped),
     Category(u.failedManifest, CompletedFailed, ManifestsCompletedFailed)]
  }

  /** The four calls of moveFilesFromManifest, in order. */
  function MoveCategoryFiles(d: Disk, faults: Faults, cs: seq<Category>): Disk
    decreases |cs|
  {
    if cs == [] then d
    else MoveCategoryFiles(MoveFilesFromManifest(d, faults, cs[0].manifest, cs[0].filesTo), faults, cs[1..])
  }

  /** The five renames that retire an uber manifest, in the order they are attempted. */
  function Retirements(u: Path, cs: seq<Category>): (ms: seq<(Path, Path)>)
    ensures |ms| == |cs| + 1
    ensures forall i :: 0 <= i < |cs| ==> ms[i] == (cs[i].manifest, Resolve(cs[i].manifestTo, cs[i].manifest.name))
    ensures ms[|cs|] == (u, Resolve(ManifestsCompletedUber, u.name))
  {
    seq(|cs|, i requires 0 <= i < |cs| => (cs[i].manifest, Resolve(cs[i].manifestTo, cs[i].manifest.name)))
    + [(u, Resolve(ManifestsCompletedUber, u.name))]
  }

  /** The folders retired manifests go to. */
  const ManifestsCompletedFolders: seq<Stage> :=
    [ManifestsCompletedUploaded, ManifestsCompletedRejected, ManifestsCompletedDropped, ManifestsCompletedFailed,
     ManifestsCompletedUber]

  /** A chain of renames that stops at the first failure. */
  function MoveChain(d: Disk, faults: Faults, ms: seq<(Path, Path)>): Moved
    decreases |ms|
  {
    if ms == [] then Moved(d, false)
    else
      var m := PlainMove(d, faults, ms[0].0, ms[0].1);
      if m.failed then m else MoveChain(m.disk, faults, ms[1..])
  }

  /** The uber manifest a file holds, if it parses as one. */
  function Parse(d: Disk, u: Path): (r: Option<Document>)
    ensures r.Some? ==> r.value.Uber?
    ensures r.Some? <==> u in d.entries && d.entries[u].Doc? && d.entries[u].doc.Uber?
  {
    if u in d.entries && d.entries[u].Doc? && d.entries[u].doc.Uber? then Some(d.entries[u].doc) else None
  }

  /** The body of the forEach for one uber manifest; every exception is logged. */
  function Step(d: Disk, faults: Faults, u: Path): Disk
  {
    var doc := Parse(d, u);
    if doc.None? then d
    else
      var cs := Categories(doc.value);
      MoveChain(MoveCategoryFiles(d, faults, cs), faults, Retirements(u, cs)).disk
  }

  ghost function Pass(d: Disk, faults: Faults, order: seq<Path>): Disk
  {
    Sweep.Run(d, order, (e, u) => Step(e, faults, u))
  }

  lemma PassStep(d: Disk, faults: Faults, order: seq<Path>)
    requires order != []
    ensures Pass(d, faults, order) == Pass(Step(d, faults, order[0]), faults, order[1..])
  {
  }

  // ---------------------------------------------------------------------
  // The methods

  /** moveFilesFromManifest: an unreadable manifest is logged and moves nothing. */
  method MoveFiles(fs: FileSystem, manifestFile: Path, targetDir: Stage)
    modifies fs
    ensures fs.View() == MoveFilesFromManifest(old(fs.View()), fs.faults, manifestFile, targetDir)
  {
    var lines := ReadLines(fs.View(), manifestFile);
    if lines.Some? {
      MoveLinesIn(fs, lines.value, targetDir);
    }
  }

  /** The for loop of moveFilesFromManifest: the first failed move leaves the loop. */
  method MoveLinesIn(fs: FileSystem, lines: seq<Path>, targetDir: Stage)
    modifies fs
    ensures fs.View() == MoveLines(old(fs.View()), fs.faults, lines, targetDir).disk
  {
    var i := 0;
    while i < |lines|
      invariant 0 <= i <= |lines|
      invariant MoveLines(fs.View(), fs.faults, lines[i..], targetDir).disk == MoveLines(old(fs.View()), fs.faults, lines, targetDir).disk
    {
      MoveLinesStep(fs.View(), fs.faults, lines[i..], targetDir);
      assert lines[i..][1..] == lines[i + 1..];
      var err := fs.Move(lines[i], Resolve(targetDir, lines[i].name), false);
      if err.Some? {
        return;
      }
      i := i + 1;
    }
    assert lines[i..] == [];
  }

  /** The five renames, stopping at the first failure. */
  method Retire(fs: FileSystem, ms: seq<(Path, Path)>)
    modifies fs
    ensures fs.View() == MoveChain(old(fs.View()), fs.faults, ms).disk
  {
    var i := 0;
    while i < |ms|
      invariant 0 <= i <= |ms|
      invariant MoveChain(fs.View(), fs.faults, ms[i..]).disk == MoveChain(old(fs.View()), fs.faults, ms).disk
    {
      assert ms[i..][1..] == ms[i + 1..];
      var err := fs.Move(ms[i].0, ms[i].1, false);
      if err.Some? {
        return;
      }
      i := i + 1;
    }
    assert ms[i..] == [];
  }

  /** One uber manifest. */
  method Clean(fs: FileSystem, uberManifestFile: Path)
    modifies fs
    ensures fs.View() == Step(old(fs.View()), fs.faults, uberManifestFile)
  {
    var uberManifest := Parse(fs.View(), uberManifestFile);
    if uberManifest.None? {
      return;
    }
    var cs := Categories(uberManifest.value);
    ghost var d0 := fs.View();
    var i := 0;
    while i < |cs|
      invariant 0 <= i <= |cs|
      invariant MoveCategoryFiles(fs.View(), fs.faults, cs[i..]) == MoveCategoryFiles(d0, fs.faults, cs)
    {
      assert cs[i..][1..] == cs[i + 1..];
      MoveFiles(fs, cs[i].manifest, cs[i].filesTo);
      i := i + 1;
    }
    assert cs[i..] == [];
    Retire(fs, Retirements(uberManifestFile, cs));
  }

  /** One iteration of the loop; false when the listing failed. */
  method Tick(fs: FileSystem) returns (listed: bool, ghost order: seq<Path>)
    modifies fs
    ensures listed <==> Root(ManifestsUploaded) in old(fs.dirs)
    ensures !listed ==> fs.View() == old(fs.View())
    ensures listed ==> Enumerates(order, Listed(old(fs.View()), ManifestsUploaded))
                       && fs.View() == Pass(old(fs.View()), fs.faults, order)
  {
    order := [];
    var list := fs.List(ManifestsUploaded);
    if list.None? {
      return false, order;
    }
    var files := list.value;
    order := files;
    ghost var d0 := fs.View();
    var i := 0;
    while i < |files|
      invariant 0 <= i <= |files|
      invariant Pass(fs.View(), fs.faults, files[i..]) == Pass(d0, fs.faults, files)
    {
      PassStep(fs.View(), fs.faults, files[i..]);
      Clean(fs, files[i]);
      assert files[i..][1..] == files[i + 1..];
      i := i + 1;
    }
    assert files[i..] == [];
    return true, order;
  }

  // ---------------------------------------------------------------------
  // Properties

  /** A rename chain that did not fail performed every rename: each target is on disk. */
  lemma {:induction false} ChainCompletes(d: Disk, faults: Faults, ms: seq<(Path, Path)>)
    requires !MoveChain(d, faults, ms).failed
    requires forall i, j :: 0 <= i < j < |ms| ==> ms[j].0 != ms[i].1 && ms[j].1 != ms[i].1
    ensures forall i :: 0 <= i < |ms| ==> ms[i].1 in MoveChain(d, faults, ms).disk.entries
    decreases |ms|
  {
    if ms != [] {
      var m := PlainMove(d, faults, ms[0].0, ms[0].1);
      forall i, j | 0 <= i < j < |ms[1..]| ensures ms[1..][j].0 != ms[1..][i].1 && ms[1..][j].1 != ms[1..][i].1 {
        assert ms[1..][i] == ms[i + 1] && ms[1..][j] == ms[j + 1];
      }
      ChainCompletes(m.disk, faults, ms[1..]);
      ChainKeeps(m.disk, faults, ms[1..], ms[0].1);
      forall i | 1 <= i < |ms| ensures ms[i].1 in MoveChain(d, faults, ms).disk.entries {
        assert ms[i] == ms[1..][i - 1];
      }
    }
  }

  /** A path no rename of the chain reads from or writes to keeps its presence. */
  lemma {:induction false} ChainKeeps(d: Disk, faults: Faults, ms: seq<(Path, Path)>, p: Path)
    requires forall i :: 0 <= i < |ms| ==> ms[i].0 != p && ms[i].1 != p
    ensures p in MoveChain(d, faults, ms).disk.entries <==> p in d.entries
    decreases |ms|
  {
    if ms != [] {
      var m := PlainMove(d, faults, ms[0].0, ms[0].1);
      forall i | 0 <= i < |ms[1..]| ensures ms[1..][i].0 != p && ms[1..][i].1 != p {
        assert ms[1..][i] == ms[i + 1];
      }
      ChainKeeps(m.disk, faults, ms[1..], p);
    }
  }

  /**
   * The uber manifest is retired last: if it reached manifests-completed/uber
   * (and was not there before), all four category manifests reached their
   * manifests-completed folders first.
   */
  lemma UberIsRetiredLast(d: Disk, faults: Faults, u: Path)
    requires u.folder == Root(ManifestsUploaded) && Parse(d, u).Some?
    requires var t := Resolve(ManifestsCompletedUber, u.name);
             t !in d.entries && t !in MoveCategoryFiles(d, faults, Categories(Parse(d, u).value)).entries
    requires Resolve(ManifestsCompletedUber, u.name) in Step(d, faults, u).entries
    requires forall c :: c in Categories(Parse(d, u).value) ==> c.manifest.folder.stage !in ManifestsCompletedFolders
    ensures forall c :: c in Categories(Parse(d, u).value) ==>
              Resolve(c.manifestTo, c.manifest.name) in Step(d, faults, u).entries
  {
    var cs := Categories(Parse(d, u).value);
    var d1 := MoveCategoryFiles(d, faults, cs);
    var ms := Retirements(u, cs);
    forall i, j | 0 <= i < j < |ms| ensures ms[j].0 != ms[i].1 && ms[j].1 != ms[i].1 {
      assert ms[i].1.folder.stage == ManifestsCompletedFolders[i];
      assert ms[j].1.folder.stage == ManifestsCompletedFolders[j];
      if j < 4 {
        assert cs[j] in cs;
      }
    }
    ChainRetiresAll(d1, faults, ms);
    forall c | c in cs ensures Resolve(c.manifestTo, c.manifest.name) in Step(d, faults, u).entries {
      var i :| 0 <= i < 4 && cs[i] == c;
      assert ms[i].1 == Resolve(c.manifestTo, c.manifest.name);
    }
  }

  /** The last target of a chain is reached only if every earlier rename succeeded, leaving its target filled. */
  lemma {:induction false} ChainRetiresAll(d: Disk, faults: Faults, ms: seq<(Path, Path)>)
    requires ms != [] && ms[|ms| - 1].1 !in d.entries
    requires ms[|ms| - 1].1 in MoveChain(d, faults, ms).disk.entries
    requires forall i, j :: 0 <= i < j < |ms| ==> ms[j].0 != ms[i].1 && ms[j].1 != ms[i].1
    requires forall i :: 0 <= i < |ms| - 1 ==> ms[i].0 != ms[|ms| - 1].1
    ensures forall i :: 0 <= i < |ms| ==> ms[i].1 in MoveChain(d, faults, ms).disk.entries
  {
    assert !MoveChain(d, faults, ms).failed by {
      ChainFailsUnchanged(d, faults, ms);
    }
    ChainCompletes(d, faults, ms);
  }

  /** A chain that fails leaves its last target as it was, when no earlier rename touches that target. */
  lemma {:induction false} ChainFailsUnchanged(d: Disk, faults: Faults, ms: seq<(Path, Path)>)
    requires ms != []
    requires forall i :: 0 <= i < |ms| - 1 ==> ms[i].0 != ms[|ms| - 1].1 && ms[i].1 != ms[|ms| - 1].1
    ensures MoveChain(d, faults, ms).failed ==>
              (ms[|ms| - 1].1 in MoveChain(d, faults, ms).disk.entries <==> ms[|ms| - 1].1 in d.entries)
    decreases |ms|
  {
    var m := PlainMove(d, faults, ms[0].0, ms[0].1);
    if |ms| > 1 && !m.failed {
      assert ms[1..][|ms[1..]| - 1] == ms[|ms| - 1];
      forall i | 0 <= i < |ms[1..]| - 1 ensures ms[1..][i].0 != ms[|ms| - 1].1 && ms[1..][i].1 != ms[|ms| - 1].1 {
        assert ms[1..][i] == ms[i + 1];
      }
      ChainFailsUnchanged(m.disk, faults, ms[1..]);
    }
  }

  /** Each line that is moved lands at target/<its file name>: a run that did not fail moved them all. */
  lemma {:induction false} LinesAreCompleted(d: Disk, faults: Faults, lines: seq<Path>, target: Stage)
    requires !MoveLines(d, faults, lines, target).failed
    ensures forall i :: 0 <= i < |lines| ==> Resolve(target, lines[i].name) in MoveLines(d, faults, lines, target).disk.entries
    decreases |lines|
  {
    if lines != [] {
      var m := PlainMove(d, faults, lines[0], Resolve(target, lines[0].name));
      LinesAreCompleted(m.disk, faults, lines[1..], target);
      TargetStays(m.disk, faults, lines[1..], target, Resolve(target, lines[0].name));
      forall i | 1 <= i < |lines| ensures Resolve(target, lines[i].name) in MoveLines(d, faults, lines, target).disk.entries {
        assert lines[i] == lines[1..][i - 1];
      }
    }
  }

  /** A file directly in the target folder stays there: a line naming it moves it onto itself. */
  lemma {:induction false} TargetStays(d: Disk, faults: Faults, lines: seq<Path>, target: Stage, p: Path)
    requires p.folder == Root(target) && p in d.entries
    ensures p in MoveLines(d, faults, lines, target).disk.entries
    decreases |lines|
  {
    if lines != [] {
      var m := PlainMove(d, faults, lines[0], Resolve(target, lines[0].name));
      if lines[0] == p {
        assert Resolve(target, lines[0].name) == p;
      }
      TargetStays(m.disk, faults, lines[1..], target, p);
    }
  }

  /** A line whose move fails ends the loop there: the lines after it are not tried. */
  lemma FailingLineStopsTheRest(d: Disk, faults: Faults, lines: seq<Path>, target: Stage)
    requires lines != [] && MoveError(d, faults, lines[0], Resolve(target, lines[0].name), false).Some?
    ensures MoveLines(d, faults, lines, target) == Moved(d, true)
  {
  }

  /**
   * Category manifests are moved without a check that they are still there:
   * once the uploaded-category manifest has been retired by an earlier,
   * partly failed attempt, every later attempt fails at its first rename, so
   * the uber manifest stays in manifests-uploaded.
   */
  lemma PartialRetirementBlocksUber(d: Disk, faults: Faults, u: Path)
    requires Parse(d, u).Some?
    requires var first := Parse(d, u).value.uploadedManifest;
             first !in d.entries && first.folder.stage !in [CompletedUploaded, CompletedRejected, CompletedDropped, CompletedFailed]
    ensures var cs := Categories(Parse(d, u).value);
            Step(d, faults, u) == MoveCategoryFiles(d, faults, cs)
  {
    var cs := Categories(Parse(d, u).value);
    CategoriesKeepMissing(d, faults, cs, cs[0].manifest);
  }

  /** A missing path outside the completed file folders stays missing through the category moves. */
  lemma {:induction false} CategoriesKeepMissing(d: Disk, faults: Faults, cs: seq<Category>, p: Path)
    requires p !in d.entries && p.folder.stage !in [CompletedUploaded, CompletedRejected, CompletedDropped, CompletedFailed]
    requires forall i :: 0 <= i < |cs| ==> cs[i].filesTo in [CompletedUploaded, CompletedRejected, CompletedDropped, CompletedFailed]
    ensures p !in MoveCategoryFiles(d, faults, cs).entries
    decreases |cs|
  {
    if cs != [] {
      var d1 := MoveFilesFromManifest(d, faults, cs[0].manifest, cs[0].filesTo);
      var lines := ReadLines(d, cs[0].manifest);
      if lines.Some? {
        LinesKeepMissing(d, faults, lines.value, cs[0].filesTo, p);
      }
      forall i | 0 <= i < |cs[1..]| ensures cs[1..][i].filesTo in [CompletedUploaded, CompletedRejected, CompletedDropped, CompletedFailed] {
        assert cs[1..][i] == cs[i + 1];
      }
      CategoriesKeepMissing(d1, faults, cs[1..], p);
    }
  }

  lemma {:induction false} LinesKeepMissing(d: Disk, faults: Faults, lines: seq<Path>, target: Stage, p: Path)
    requires p !in d.entries && p.folder.stage != target
    ensures p !in MoveLines(d, faults, lines, target).disk.entries
    decreases |lines|
  {
    if lines != [] {
      var m := PlainMove(d, faults, lines[0], Resolve(target, lines[0].name));
      LinesKeepMissing(m.disk, faults, lines[1..], target, p);
    }
  }

  // ---------------------------------------------------------------------
  // The uber manifests of one pass

  /** Each uber manifest is cleaned on what the earlier ones left, whether their cleaning failed or not. */
  lemma PassSplits(d: Disk, faults: Faults, order: seq<Path>, k: nat)
    requires k < |order|
    ensures Pass(d, faults, order) == Pass(Step(Pass(d, faults, order[..k]), faults, order[k]), faults, order[k + 1..])
  {
    Sweep.Splits(d, order, (e, u) => Step(e, faults, u), k);
  }

  /** A document names no path in the manifests-completed folders. */
  predicate NamesNoRetired(doc: Document)
  {
    && (doc.Uber? ==>
          && doc.uploadedManifest.folder.stage !in ManifestsCompletedFolders
          && doc.rejectedManifest.folder.stage !in ManifestsCompletedFolders
          && doc.droppedManifest.folder.stage !in ManifestsCompletedFolders
          && doc.failedManifest.folder.stage !in ManifestsCompletedFolders)
    && (doc.Listing? ==> forall i :: 0 <= i < |doc.paths| ==> doc.paths[i].folder.stage !in ManifestsCompletedFolders)
  }

  /**
   * No document on disk names a path in the manifests-completed folders,
   * and each kept path is on disk with the content kept for it.
   */
  ghost predicate Retired(d: Disk, kept: map<Path, Entry>)
  {
    && (forall k :: k in d.entries && d.entries[k].Doc? ==> NamesNoRetired(d.entries[k].doc))
    && (forall p :: p in kept ==> p in d.entries && d.entries[p] == kept[p])
  }

  /** A rename whose source is not kept keeps every kept path, and brings no new document. */
  lemma MoveKeepsRetired(d: Disk, faults: Faults, source: Path, target: Path, kept: map<Path, Entry>)
    requires Retired(d, kept) && source !in kept
    ensures Retired(AfterMove(d, faults, source, target, false), kept)
  {
    var r := AfterMove(d, faults, source, target, false);
    forall k | k in r.entries && r.entries[k].Doc? ensures NamesNoRetired(r.entries[k].doc) {
      if MoveError(d, faults, source, target, false).None? && k == target {
        assert r.entries[k] == d.entries[source];
      }
    }
  }

  lemma {:induction false} LinesKeepRetired(d: Disk, faults: Faults, lines: seq<Path>, target: Stage, kept: map<Path, Entry>)
    requires Retired(d, kept) && forall p :: p in kept ==> p.folder.stage in ManifestsCompletedFolders
    requires forall i :: 0 <= i < |lines| ==> lines[i].folder.stage !in ManifestsCompletedFolders
    ensures Retired(MoveLines(d, faults, lines, target).disk, kept)
    decreases |lines|
  {
    if lines != [] {
      MoveKeepsRetired(d, faults, lines[0], Resolve(target, lines[0].name), kept);
      var m := PlainMove(d, faults, lines[0], Resolve(target, lines[0].name));
      forall i | 0 <= i < |lines[1..]| ensures lines[1..][i].folder.stage !in ManifestsCompletedFolders {
        assert lines[1..][i] == lines[i + 1];
      }
      LinesKeepRetired(m.disk, faults, lines[1..], target, kept);
    }
  }

  lemma {:induction false} CategoriesKeepRetired(d: Disk, faults: Faults, cs: seq<Category>, kept: map<Path, Entry>)
    requires Retired(d, kept) && forall p :: p in kept ==> p.folder.stage in ManifestsCompletedFolders
    ensures Retired(MoveCategoryFiles(d, faults, cs), kept)
    decreases |cs|
  {
    if cs != [] {
      var lines := ReadLines(d, cs[0].manifest);
      if lines.Some? {
        LinesKeepRetired(d, faults, lines.value, cs[0].filesTo, kept);
      }
      CategoriesKeepRetired(MoveFilesFromManifest(d, faults, cs[0].manifest, cs[0].filesTo), faults, cs[1..], kept);
    }
  }

  lemma {:induction false} ChainKeepsRetired(d: Disk, faults: Faults, ms: seq<(Path, Path)>, kept: map<Path, Entry>)
    requires Retired(d, kept)
    requires forall i :: 0 <= i < |ms| ==> ms[i].0 !in kept
    ensures Retired(MoveChain(d, faults, ms).disk, kept)
    decreases |ms|
  {
    if ms != [] {
      MoveKeepsRetired(d, faults, ms[0].0, ms[0].1, kept);
      forall i | 0 <= i < |ms[1..]| ensures ms[1..][i].0 !in kept {
        assert ms[1..][i] == ms[i + 1];
      }
      ChainKeepsRetired(PlainMove(d, faults, ms[0].0, ms[0].1).disk, faults, ms[1..], kept);
    }
  }

  /** Cleaning an uber manifest of manifests-uploaded keeps every retired manifest where it is, unchanged. */
  lemma StepKeepsRetired(d: Disk, faults: Faults, u: Path, kept: map<Path, Entry>)
    requires Retired(d, kept) && forall p :: p in kept ==> p.folder.stage in ManifestsCompletedFolders
    requires u.folder.stage == ManifestsUploaded
    ensures Retired(Step(d, faults, u), kept)
  {
    var doc := Parse(d, u);
    if doc.Some? {
      var cs := Categories(doc.value);
      assert NamesNoRetired(d.entries[u].doc);
      CategoriesKeepRetired(d, faults, cs, kept);
      var ms := Retirements(u, cs);
      forall i | 0 <= i < |ms| ensures ms[i].0 !in kept {
        if i < 4 {
          assert ms[i].0 == cs[i].manifest;
        }
      }
      ChainKeepsRetired(MoveCategoryFiles(d, faults, cs), faults, ms, kept);
    }
  }

  /**
   * Manifests in the manifests-completed folders stay there, unchanged,
   * through any uber manifests of manifests-uploaded, as long as no
   * document names a path in those folders.
   */
  lemma PassKeepsRetired(d: Disk, faults: Faults, order: seq<Path>, kept: map<Path, Entry>)
    requires forall q :: q in order ==> q.folder.stage == ManifestsUploaded
    requires Retired(d, kept) && forall p :: p in kept ==> p.folder.stage in ManifestsCompletedFolders
    ensures Retired(Pass(d, faults, order), kept)
  {
    forall e: Disk, u | u in order && Retired(e, kept) ensures Retired(Step(e, faults, u), kept) {
      StepKeepsRetired(e, faults, u, kept);
    }
    Sweep.Keeps(d, order, (e, u) => Step(e, faults, u), (e: Disk) => Retired(e, kept));
  }

  /** Whatever is in a manifests-completed folder stays there through any uber manifests of manifests-uploaded. */
  lemma PassKeepsEveryRetired(d: Disk, faults: Faults, order: seq<Path>)
    requires forall q :: q in order ==> q.folder.stage == ManifestsUploaded
    requires Retired(d, map[])
    ensures forall p :: p in d.entries && p.folder.stage in ManifestsCompletedFolders ==> p in Pass(d, faults, order).entries
  {
    forall p | p in d.entries && p.folder.stage in ManifestsCompletedFolders
      ensures p in Pass(d, faults, order).entries
    {
      PassKeepsRetired(d, faults, order, map[p := d.entries[p]]);
    }
  }

  /** The step part of CleanedUberStaysRetired: retiring an uber manifest retires its category manifests and names nothing retired. */
  lemma StepRetiresUber(d: Disk, faults: Faults, u: Path)
    requires u.folder == Root(ManifestsUploaded) && Parse(d, u).Some? && Retired(d, map[])
    requires Resolve(ManifestsCompletedUber, u.name) !in d.entries
    requires Resolve(ManifestsCompletedUber, u.name) in Step(d, faults, u).entries
    ensures Retired(Step(d, faults, u), map[])
    ensures forall c :: c in Categories(Parse(d, u).value) ==>
              && Resolve(c.manifestTo, c.manifest.name) in Step(d, faults, u).entries
              && c.manifestTo in ManifestsCompletedFolders
  {
    var cs := Categories(Parse(d, u).value);
    assert NamesNoRetired(d.entries[u].doc);
    CategoriesKeepMissing(d, faults, cs, Resolve(ManifestsCompletedUber, u.name));
    UberIsRetiredLast(d, faults, u);
    StepKeepsRetired(d, faults, u, map[]);
  }

  /**
   * Over a whole pass, an uber manifest whose cleaning retired it ends the
   * pass in manifests-completed/uber with its four category manifests in
   * their manifests-completed folders, whatever the uber manifests cleaned
   * before and after it do, as long as no document names a path in those
   * folders.
   */
  lemma CleanedUberStaysRetired(d: Disk, faults: Faults, order: seq<Path>, k: nat)
    requires k < |order|
    requires forall q :: q in order ==> q.folder == Root(ManifestsUploaded)
    requires forall p :: p in d.entries && d.entries[p].Doc? ==> NamesNoRetired(d.entries[p].doc)
    requires var before := Pass(d, faults, order[..k]);
             && Parse(before, order[k]).Some?
             && Resolve(ManifestsCompletedUber, order[k].name) !in before.entries
             && Resolve(ManifestsCompletedUber, order[k].name) in Step(before, faults, order[k]).entries
    ensures var before := Pass(d, faults, order[..k]);
            var r := Pass(d, faults, order);
            && Resolve(ManifestsCompletedUber, order[k].name) in r.entries
            && forall c :: c in Categories(Parse(before, order[k]).value) ==> Resolve(c.manifestTo, c.manifest.name) in r.entries
  {
    var u := order[k];
    assert forall q :: q in order[..k] ==> q in order;
    PassKeepsRetired(d, faults, order[..k], map[]);
    var before := Pass(d, faults, order[..k]);
    StepRetiresUber(before, faults, u);
    var after := Step(before, faults, u);
    assert forall q :: q in order[k + 1..] ==> q in order;
    PassKeepsEveryRetired(after, faults, order[k + 1..]);
    PassSplits(d, faults, order, k);
  }
}
