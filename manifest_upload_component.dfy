/**
 * ManifestUploadComponent.run, one iteration of its loop: compute the
 * cutoff (now minus one hour) once, walk the manifest-landed tree and, in a
 * fork per manifest, move a manifest older than the cutoff to
 * manifest-dropped at its relative path; otherwise read its lines, keep
 * those containing "uploaded", join them with the line separator, write the
 * text to the same relative path under gcs (creating the parents) and move
 * the manifest to manifest-uploaded at its relative path. Any exception
 * moves the manifest to manifest-failed at its relative path; an exception
 * from that move is logged. All moves are FileUtils.moveFileAtomically and
 * every fork returns normally.
 *
 * readAllLines of a text or listing file gives its lines; for any other
 * content the decoding is an input, None being the exception of content
 * that is not text.
 */
module ManifestUploadComponent {
  import opened Fs
  import Sweep
  import FileUtils
  import Strings

  const OneHour := 3_600_000

  /** Files.readAllLines on a file's content. */
  function ReadAllLines(e: Entry, decode: Entry -> Option<seq<string>>): Option<seq<string>>
  {
    if e.Doc? && e.doc.Text? then Some(e.doc.lines)
    else if e.Doc? && e.doc.Listing? then Some(seq(|e.doc.paths|, i requires 0 <= i < |e.doc.paths| => Show(e.doc.paths[i])))
    else decode(e)
  }

  /** The lines kept for upload: those containing "uploaded", in order. */
  function UploadedLines(lines: seq<string>): (r: seq<string>)
    ensures forall i :: 0 <= i < |r| ==> r[i] in lines && Strings.Contains(r[i], "uploaded")
    ensures forall i :: 0 <= i < |lines| && Strings.Contains(lines[i], "uploaded") ==> lines[i] in r
  {
    Strings.Filter(lines, (line: string) => Strings.Contains(line, "uploaded"))
  }

  /** The filter distributes over concatenation: the kept lines stay in their original order. */
  lemma UploadedLinesKeepOrder(xs: seq<string>, ys: seq<string>)
    ensures UploadedLines(xs + ys) == UploadedLines(xs) + UploadedLines(ys)
  {
    Strings.FilterAppend(xs, ys, (line: string) => Strings.Contains(line, "uploaded"));
  }

  /** The uploaded text: the kept lines joined by the separator. */
  function UploadedText(lines: seq<string>, lineSeparator: string): string
  {
    Strings.Join(UploadedLines(lines), lineSeparator)
  }

  /** The try block of a fork: the filesystem it leaves and whether it threw. */
  datatype Outcome = Outcome(disk: Disk, threw: bool)

  function TryBlock(d: Disk, faults: Faults, lastModified: Path -> Option<int>, decode: Entry -> Option<seq<string>>,
                    lineSeparator: string, cutoff: int, m: Path): Outcome
  {
    var older := FileUtils.IsOlderThan(lastModified(m), cutoff);
    if older.None? then Outcome(d, true)
    else if older.value then
      Outcome(FileUtils.MovedFile(d, faults, m, Rebase(m, ManifestsDropped)),
              FileUtils.MoveFileError(d, faults, m, Rebase(m, ManifestsDropped)).Some?)
    else if m !in d.entries || ReadAllLines(d.entries[m], decode).None? then Outcome(d, true)
    else
      var text := UploadedText(ReadAllLines(d.entries[m], decode).value, lineSeparator);
      var withDir := AfterMkdirs(d, Rebase(m, Gcs).folder);
      if WriteError(withDir, faults, Rebase(m, Gcs)).Some? then Outcome(withDir, true)
      else
        var written := AfterWrite(withDir, faults, Rebase(m, Gcs), Doc(Text([text])));
        Outcome(FileUtils.MovedFile(written, faults, m, Rebase(m, ManifestsUploaded)),
                FileUtils.MoveFileError(written, faults, m, Rebase(m, ManifestsUploaded)).Some?)
  }

  /** The fork of one walked manifest: the try block, then the catch block if it threw. */
  function Step(d: Disk, faults: Faults, lastModified: Path -> Option<int>, decode: Entry -> Option<seq<string>>,
                lineSeparator: string, cutoff: int, m: Path): Disk
  {
    var o := TryBlock(d, faults, lastModified, decode, lineSeparator, cutoff, m);
    if o.threw then FileUtils.MovedFile(o.disk, faults, m, Rebase(m, ManifestsFailed)) else o.disk
  }

  ghost function Pass(d: Disk, faults: Faults, lastModified: Path -> Option<int>, decode: Entry -> Option<seq<string>>,
                      lineSeparator: string, cutoff: int, order: seq<Path>): Disk
  {
    Sweep.Run(d, order, (e, p) => Step(e, faults, lastModified, decode, lineSeparator, cutoff, p))
  }

  lemma PassStep(d: Disk, faults: Faults, lastModified: Path -> Option<int>, decode: Entry -> Option<seq<string>>,
                 lineSeparator: string, cutoff: int, order: seq<Path>)
    requires order != []
    ensures Pass(d, faults, lastModified, decode, lineSeparator, cutoff, order)
            == Pass(Step(d, faults, lastModified, decode, lineSeparator, cutoff, order[0]),
                    faults, lastModified, decode, lineSeparator, cutoff, order[1..])
  {
  }

  /** The try block of a fork; true when it completed normally. */
  method TryUpload(fs: FileSystem, lastModified: Path -> Option<int>, decode: Entry -> Option<seq<string>>,
                   lineSeparator: string, cutoff: int, manifestPath: Path) returns (ok: bool)
    modifies fs
    ensures Outcome(fs.View(), !ok)
            == TryBlock(old(fs.View()), fs.faults, lastModified, decode, lineSeparator, cutoff, manifestPath)
  {
    var older := FileUtils.IsOlderThan(lastModified(manifestPath), cutoff);
    if older.None? {
      return false;
    }
    if older.value {
      var err := FileUtils.MoveFileAtomically(fs, manifestPath, Rebase(manifestPath, ManifestsDropped));
      return err.None?;
    }
    if manifestPath !in fs.entries {
      return false;
    }
    var lines := ReadAllLines(fs.entries[manifestPath], decode);
    if lines.None? {
      return false;
    }
    var uploaded := UploadedText(lines.value, lineSeparator);
    var gcsManifestPath := Rebase(manifestPath, Gcs);
    fs.CreateDirectories(gcsManifestPath.folder);
    var err := fs.Write(gcsManifestPath, Doc(Text([uploaded])));
    if err.Some? {
      return false;
    }
    err := FileUtils.MoveFileAtomically(fs, manifestPath, Rebase(manifestPath, ManifestsUploaded));
    return err.None?;
  }

  /** One iteration: the cutoff is taken once; a failed walk is logged and changes nothing. */
  method Tick(fs: FileSystem, lastModified: Path -> Option<int>, decode: Entry -> Option<seq<string>>,
              lineSeparator: string, now: int) returns (ghost order: Option<seq<Path>>)
    modifies fs
    ensures order.None? <==> Root(ManifestsLanded) !in old(fs.dirs)
    ensures order.None? ==> fs.View() == old(fs.View())
    ensures order.Some? ==>
              && Enumerates(order.value, Walked(old(fs.View()), ManifestsLanded))
              && fs.View() == Pass(old(fs.View()), fs.faults, lastModified, decode, lineSeparator, now - OneHour, order.value)
  {
    var walk := fs.Walk(ManifestsLanded);
    if walk.None? {
      return None;
    }
    var manifests := walk.value;
    var old_ := now - OneHour;
    ghost var d0 := fs.View();
    var i := 0;
    while i < |manifests|
      invariant 0 <= i <= |manifests|
      invariant Pass(fs.View(), fs.faults, lastModified, decode, lineSeparator, old_, manifests[i..])
                == Pass(d0, fs.faults, lastModified, decode, lineSeparator, old_, manifests)
    {
      var manifestPath := manifests[i];
      PassStep(fs.View(), fs.faults, lastModified, decode, lineSeparator, old_, manifests[i..]);
      var ok := TryUpload(fs, lastModified, decode, lineSeparator, old_, manifestPath);
      if !ok {
        var err := FileUtils.MoveFileAtomically(fs, manifestPath, Rebase(manifestPath, ManifestsFailed));
        // a failure here is logged
      }
      assert manifests[i..][1..] == manifests[i + 1..];
      i := i + 1;
    }
    assert manifests[i..] == [];
    return Some(manifests);
  }

  /** The uploaded text has one separator between neighbouring kept lines and none after the last. */
  lemma UploadedTextLength(lines: seq<string>, lineSeparator: string)
    requires UploadedLines(lines) != []
    ensures |UploadedText(lines, lineSeparator)|
            == Strings.TotalLength(UploadedLines(lines)) + (|UploadedLines(lines)| - 1) * |lineSeparator|
  {
    Strings.JoinLength(UploadedLines(lines), lineSeparator);
  }

  /** Every line of a listing of the files/uploaded folder contains "uploaded", so nothing is dropped from it. */
  lemma UploadedListingIsKeptWhole(paths: seq<Path>)
    requires forall i :: 0 <= i < |paths| ==> paths[i].folder.stage == Uploaded
    ensures var lines := seq(|paths|, i requires 0 <= i < |paths| => Show(paths[i]));
            UploadedLines(lines) == lines
  {
    var lines := seq(|paths|, i requires 0 <= i < |paths| => Show(paths[i]));
    forall i | 0 <= i < |lines| ensures Strings.Contains(lines[i], "uploaded") {
      assert "files/uploaded" <= lines[i];
      assert Strings.OccursAt(lines[i], "uploaded", 6);
    }
    AllKept(lines, (line: string) => Strings.Contains(line, "uploaded"));
  }

  lemma {:induction false} AllKept(xs: seq<string>, p: string -> bool)
    requires forall i :: 0 <= i < |xs| ==> p(xs[i])
    ensures Strings.Filter(xs, p) == xs
    decreases |xs|
  {
    if xs != [] {
      AllKept(xs[1..], p);
    }
  }

  /** An old manifest goes to dropped at its relative path and nothing is written under gcs. */
  lemma OldManifestIsDroppedUnread(d: Disk, faults: Faults, lastModified: Path -> Option<int>,
                                   decode: Entry -> Option<seq<string>>, lineSeparator: string, cutoff: int, m: Path)
    requires m in d.entries && m.folder.stage == ManifestsLanded
    requires lastModified(m).Some? && lastModified(m).value < cutoff
    requires !faults.rename(m, Rebase(m, ManifestsDropped))
    ensures var r := Step(d, faults, lastModified, decode, lineSeparator, cutoff, m);
            && Rebase(m, ManifestsDropped) in r.entries && r.entries[Rebase(m, ManifestsDropped)] == d.entries[m]
            && m !in r.entries
            && forall p: Path :: p.folder.stage == Gcs ==> (p in r.entries <==> p in d.entries)
  {
  }

  /** A manifest reaches uploaded only after its filtered text was written under gcs. */
  lemma UploadedImpliesWritten(d: Disk, faults: Faults, lastModified: Path -> Option<int>,
                               decode: Entry -> Option<seq<string>>, lineSeparator: string, cutoff: int, m: Path)
    requires m in d.entries && m.folder.stage == ManifestsLanded
    requires Rebase(m, ManifestsUploaded) !in d.entries
    ensures var r := Step(d, faults, lastModified, decode, lineSeparator, cutoff, m);
            Rebase(m, ManifestsUploaded) in r.entries ==>
              && ReadAllLines(d.entries[m], decode).Some?
              && Rebase(m, Gcs) in r.entries
              && r.entries[Rebase(m, Gcs)] == Doc(Text([UploadedText(ReadAllLines(d.entries[m], decode).value, lineSeparator)]))
              && r.entries[Rebase(m, ManifestsUploaded)] == d.entries[m]
  {
    var up := Rebase(m, ManifestsUploaded);
    var o := TryBlock(d, faults, lastModified, decode, lineSeparator, cutoff, m);
    TryBlockUploadedImpliesWritten(d, faults, lastModified, decode, lineSeparator, cutoff, m);
    if o.threw {
      // the catch block only moves the manifest to failed
      assert up != m && up != Rebase(m, ManifestsFailed);
    }
  }

  /** Within the try block, uploaded is reached only without an exception and after the write under gcs. */
  lemma TryBlockUploadedImpliesWritten(d: Disk, faults: Faults, lastModified: Path -> Option<int>,
                                       decode: Entry -> Option<seq<string>>, lineSeparator: string, cutoff: int, m: Path)
    requires m in d.entries && m.folder.stage == ManifestsLanded
    requires Rebase(m, ManifestsUploaded) !in d.entries
    ensures var o := TryBlock(d, faults, lastModified, decode, lineSeparator, cutoff, m);
            Rebase(m, ManifestsUploaded) in o.disk.entries ==>
              && !o.threw
              && ReadAllLines(d.entries[m], decode).Some?
              && Rebase(m, Gcs) in o.disk.entries
              && o.disk.entries[Rebase(m, Gcs)] == Doc(Text([UploadedText(ReadAllLines(d.entries[m], decode).value, lineSeparator)]))
              && o.disk.entries[Rebase(m, ManifestsUploaded)] == d.entries[m]
  {
    var older := FileUtils.IsOlderThan(lastModified(m), cutoff);
    if older.None? || older.value || ReadAllLines(d.entries[m], decode).None? {
      TryBlockEarlyExit(d, faults, lastModified, decode, lineSeparator, cutoff, m);
    } else {
      TryBlockWrites(d, faults, lastModified, decode, lineSeparator, cutoff, m);
    }
  }

  /** An unreadable time, an old manifest or unreadable lines leave the try block before anything reaches uploaded. */
  lemma TryBlockEarlyExit(d: Disk, faults: Faults, lastModified: Path -> Option<int>,
                          decode: Entry -> Option<seq<string>>, lineSeparator: string, cutoff: int, m: Path)
    requires m in d.entries && Rebase(m, ManifestsUploaded) !in d.entries
    requires var older := FileUtils.IsOlderThan(lastModified(m), cutoff);
             older.None? || older.value || ReadAllLines(d.entries[m], decode).None?
    ensures Rebase(m, ManifestsUploaded) !in TryBlock(d, faults, lastModified, decode, lineSeparator, cutoff, m).disk.entries
  {
    assert Rebase(m, ManifestsUploaded) != Rebase(m, ManifestsDropped);
  }

  /** A young readable manifest reaches uploaded only after the write of its text under gcs. */
  lemma TryBlockWrites(d: Disk, faults: Faults, lastModified: Path -> Option<int>,
                       decode: Entry -> Option<seq<string>>, lineSeparator: string, cutoff: int, m: Path)
    requires m in d.entries && m.folder.stage == ManifestsLanded
    requires Rebase(m, ManifestsUploaded) !in d.entries
    requires lastModified(m).Some? && lastModified(m).value >= cutoff
    requires ReadAllLines(d.entries[m], decode).Some?
    ensures var o := TryBlock(d, faults, lastModified, decode, lineSeparator, cutoff, m);
            Rebase(m, ManifestsUploaded) in o.disk.entries ==>
              && !o.threw
              && Rebase(m, Gcs) in o.disk.entries
              && o.disk.entries[Rebase(m, Gcs)] == Doc(Text([UploadedText(ReadAllLines(d.entries[m], decode).value, lineSeparator)]))
              && o.disk.entries[Rebase(m, ManifestsUploaded)] == d.entries[m]
  {
    var up, gcs := Rebase(m, ManifestsUploaded), Rebase(m, Gcs);
    assert up != m && up != gcs;
    var withDir := AfterMkdirs(d, gcs.folder);
    if WriteError(withDir, faults, gcs).None? {
      var text := UploadedText(ReadAllLines(d.entries[m], decode).value, lineSeparator);
      var written := AfterWrite(withDir, faults, gcs, Doc(Text([text])));
      assert up !in written.entries;
      assert gcs in written.entries && written.entries[gcs] == Doc(Text([text]));
    }
  }

  /** A young manifest that cannot be read goes to failed at its relative path. */
  lemma UnreadableManifestFails(d: Disk, faults: Faults, lastModified: Path -> Option<int>,
                                decode: Entry -> Option<seq<string>>, lineSeparator: string, cutoff: int, m: Path)
    requires m in d.entries && m.folder.stage == ManifestsLanded
    requires lastModified(m).Some? && lastModified(m).value >= cutoff
    requires ReadAllLines(d.entries[m], decode).None? && !faults.rename(m, Rebase(m, ManifestsFailed))
    ensures var r := Step(d, faults, lastModified, decode, lineSeparator, cutoff, m);
            && Rebase(m, ManifestsFailed) in r.entries && r.entries[Rebase(m, ManifestsFailed)] == d.entries[m]
            && m !in r.entries
  {
  }

  // ---------------------------------------------------------------------
  // Forks are isolated from one another

  /**
   * The paths a manifest's fork can touch: the manifest itself and the paths
   * at the same relative position in the other stages.
   */
  predicate Owns(m: Path, k: Path)
  {
    k.name == m.name && k.folder.sub == m.folder.sub
  }

  /** A fork changes no path that another manifest's fork owns. */
  lemma StepFrame(d: Disk, faults: Faults, lastModified: Path -> Option<int>, decode: Entry -> Option<seq<string>>,
                  lineSeparator: string, cutoff: int, q: Path, k: Path)
    requires !Owns(q, k)
    ensures SameAt(d, Step(d, faults, lastModified, decode, lineSeparator, cutoff, q), k)
  {
  }

  /**
   * What a fork leaves at any path depends only on the manifest's content
   * and on what was at that path before.
   */
  lemma StepIsLocal(d: Disk, e: Disk, faults: Faults, lastModified: Path -> Option<int>,
                    decode: Entry -> Option<seq<string>>, lineSeparator: string, cutoff: int, m: Path, k: Path)
    requires SameAt(d, e, m) && SameAt(d, e, k)
    ensures SameAt(Step(d, faults, lastModified, decode, lineSeparator, cutoff, m),
                   Step(e, faults, lastModified, decode, lineSeparator, cutoff, m), k)
  {
    var od := TryBlock(d, faults, lastModified, decode, lineSeparator, cutoff, m);
    var oe := TryBlock(e, faults, lastModified, decode, lineSeparator, cutoff, m);
    TryBlockIsLocal(d, e, faults, lastModified, decode, lineSeparator, cutoff, m, k);
    if od.threw {
      FileUtils.MoveIsLocal(od.disk, oe.disk, faults, m, Rebase(m, ManifestsFailed), k);
    }
  }

  /** The try block leaves the manifest and one of its paths as they depend on those two alone. */
  lemma TryBlockIsLocal(d: Disk, e: Disk, faults: Faults, lastModified: Path -> Option<int>,
                        decode: Entry -> Option<seq<string>>, lineSeparator: string, cutoff: int, m: Path, k: Path)
    requires SameAt(d, e, m) && SameAt(d, e, k)
    ensures var od := TryBlock(d, faults, lastModified, decode, lineSeparator, cutoff, m);
            var oe := TryBlock(e, faults, lastModified, decode, lineSeparator, cutoff, m);
            od.threw == oe.threw && SameAt(od.disk, oe.disk, m) && SameAt(od.disk, oe.disk, k)
  {
    var older := FileUtils.IsOlderThan(lastModified(m), cutoff);
    if older.None? {
    } else if older.value {
      FileUtils.MoveIsLocal(d, e, faults, m, Rebase(m, ManifestsDropped), k);
    } else if m !in d.entries || ReadAllLines(d.entries[m], decode).None? {
    } else {
      var text := UploadedText(ReadAllLines(d.entries[m], decode).value, lineSeparator);
      var gcs := Rebase(m, Gcs);
      var wd, we := AfterMkdirs(d, gcs.folder), AfterMkdirs(e, gcs.folder);
      assert WriteError(wd, faults, gcs) == WriteError(we, faults, gcs);
      if WriteError(wd, faults, gcs).None? {
        var xd, xe := AfterWrite(wd, faults, gcs, Doc(Text([text]))), AfterWrite(we, faults, gcs, Doc(Text([text])));
        assert SameAt(xd, xe, m) && SameAt(xd, xe, k);
        FileUtils.MoveIsLocal(xd, xe, faults, m, Rebase(m, ManifestsUploaded), k);
      }
    }
  }

  /**
   * Failures are isolated per manifest: over a whole pass, every path a
   * walked manifest owns ends as that manifest's fork alone would leave it,
   * whatever the other forks do or fail to do.
   */
  lemma {:induction false} ForkIsIsolated(d: Disk, faults: Faults, lastModified: Path -> Option<int>,
                                          decode: Entry -> Option<seq<string>>, lineSeparator: string, cutoff: int,
                                          order: seq<Path>, m: Path, k: Path)
    requires m in order && Distinct(order)
    requires forall q :: q in order ==> q.folder.stage == ManifestsLanded
    requires Owns(m, k)
    ensures SameAt(Step(d, faults, lastModified, decode, lineSeparator, cutoff, m),
                   Pass(d, faults, lastModified, decode, lineSeparator, cutoff, order), k)
  {
    var step := (e, p) => Step(e, faults, lastModified, decode, lineSeparator, cutoff, p);
    var alone := step(d, m);
    var pre := (e: Disk) => SameAt(d, e, m) && SameAt(d, e, k);
    var post := (e: Disk) => SameAt(alone, e, k);
    forall e: Disk, q | q in order && q != m && pre(e) ensures pre(step(e, q)) {
      StepFrame(e, faults, lastModified, decode, lineSeparator, cutoff, q, m);
      StepFrame(e, faults, lastModified, decode, lineSeparator, cutoff, q, k);
    }
    forall e: Disk | pre(e) ensures post(step(e, m)) {
      StepIsLocal(d, e, faults, lastModified, decode, lineSeparator, cutoff, m, k);
    }
    forall e: Disk, q | q in order && q != m && post(e) ensures post(step(e, q)) {
      StepFrame(e, faults, lastModified, decode, lineSeparator, cutoff, q, k);
    }
    Sweep.Reaches(d, order, step, m, pre, post);
  }

  /**
   * Over a whole pass, a walked manifest that reached manifest-uploaded had
   * its filtered text written at its relative path under gcs.
   */
  lemma PassUploadedImpliesWritten(d: Disk, faults: Faults, lastModified: Path -> Option<int>,
                                   decode: Entry -> Option<seq<string>>, lineSeparator: string, cutoff: int,
                                   order: seq<Path>, m: Path)
    requires m in order && Distinct(order) && m in d.entries
    requires forall q :: q in order ==> q.folder.stage == ManifestsLanded
    requires Rebase(m, ManifestsUploaded) !in d.entries
    ensures var r := Pass(d, faults, lastModified, decode, lineSeparator, cutoff, order);
            Rebase(m, ManifestsUploaded) in r.entries ==>
              && ReadAllLines(d.entries[m], decode).Some?
              && Rebase(m, Gcs) in r.entries
              && r.entries[Rebase(m, Gcs)] == Doc(Text([UploadedText(ReadAllLines(d.entries[m], decode).value, lineSeparator)]))
              && r.entries[Rebase(m, ManifestsUploaded)] == d.entries[m]
  {
    ForkIsIsolated(d, faults, lastModified, decode, lineSeparator, cutoff, order, m, Rebase(m, ManifestsUploaded));
    ForkIsIsolated(d, faults, lastModified, decode, lineSeparator, cutoff, order, m, Rebase(m, Gcs));
    UploadedImpliesWritten(d, faults, lastModified, decode, lineSeparator, cutoff, m);
  }

  /**
   * Over a whole pass, an old walked manifest ends in manifest-dropped at its
   * relative path, with nothing written for it under gcs.
   */
  lemma PassDropsOldManifest(d: Disk, faults: Faults, lastModified: Path -> Option<int>,
                             decode: Entry -> Option<seq<string>>, lineSeparator: string, cutoff: int,
                             order: seq<Path>, m: Path)
    requires m in order && Distinct(order) && m in d.entries
    requires forall q :: q in order ==> q.folder.stage == ManifestsLanded
    requires lastModified(m).Some? && lastModified(m).value < cutoff
    requires !faults.rename(m, Rebase(m, ManifestsDropped))
    ensures var r := Pass(d, faults, lastModified, decode, lineSeparator, cutoff, order);
            && Rebase(m, ManifestsDropped) in r.entries && r.entries[Rebase(m, ManifestsDropped)] == d.entries[m]
            && m !in r.entries
            && SameAt(d, r, Rebase(m, Gcs))
  {
    ForkIsIsolated(d, faults, lastModified, decode, lineSeparator, cutoff, order, m, Rebase(m, ManifestsDropped));
    ForkIsIsolated(d, faults, lastModified, decode, lineSeparator, cutoff, order, m, m);
    ForkIsIsolated(d, faults, lastModified, decode, lineSeparator, cutoff, order, m, Rebase(m, Gcs));
    OldManifestIsDroppedUnread(d, faults, lastModified, decode, lineSeparator, cutoff, m);
  }
}
