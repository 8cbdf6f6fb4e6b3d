/**
 * The filesystem the pipeline stages share: stage directories, the regular
 * files in them, and the JDK primitives the components call on it
 * (Files.move, Files.createDirectories, Files.write, Files.deleteIfExists,
 * Files.copy, Files.walk, Files.list).
 *
 * A path is a stage directory, a sub-directory inside it and a file name.
 * The state is a value (Disk: files and existing directories); the class
 * FileSystem holds it and changes it in place, as the real filesystem does.
 * What the environment decides (which renames or writes the operating system
 * refuses) is a fixed oracle, Faults, given when the FileSystem is created.
 */
module Fs {

  datatype Option<T> = None | Some(value: T)

  /** One constructor per configured stage directory. */
  datatype Stage =
    | Incoming | Landed | Accepted | Rejected | Failed | Uploaded | Dropped | Completed
    | CompletedUploaded | CompletedRejected | CompletedDropped | CompletedFailed
    | Gcs | Gcp | WorkDir
    | ManifestsIncoming | ManifestsLanded | ManifestsUploaded | ManifestsRejected
    | ManifestsDropped | ManifestsFailed | ManifestsRegistered | ManifestsCompleted
    | ManifestsCompletedUploaded | ManifestsCompletedRejected | ManifestsCompletedDropped
    | ManifestsCompletedFailed | ManifestsCompletedUber

  /** A directory: a stage directory and the sub-directory names below it. */
  datatype Folder = Folder(stage: Stage, sub: seq<string>)

  /** A file path: its parent directory and its file name (Path.getFileName). */
  datatype Path = Path(folder: Folder, name: string)

  function Root(s: Stage): Folder { Folder(s, []) }

  /** stageDir.resolve(fileName): the bare file name directly in a stage. */
  function Resolve(s: Stage, name: string): Path { Path(Root(s), name) }

  /** stageDir.resolve(fromDir.relativize(p)): the same relative path in another stage. */
  function Rebase(p: Path, s: Stage): Path { Path(Folder(s, p.folder.sub), p.name) }

  /** A size read that may have failed, with the value a component records instead. */
  function SizeOr(size: Option<nat>, fallback: int): (r: int)
    ensures size.Some? ==> r == size.value
    ensures size.None? ==> r == fallback
  {
    if size.Some? then size.value else fallback
  }

  /** The counters a component's call reports: items handled, and 1 when a fork failed. */
  datatype FileStats = FileStats(processed: nat, failed: nat)

  /** A (path, size) pair as the manifest records store it. */
  datatype FileInfo = FileInfo(path: Path, size: int)

  /**
   * The structured documents the components write and read back. Paths are
   * kept as Path values; their text form is Show.
   */
  datatype Document =
    | Listing(paths: seq<Path>)                        // text, one path per line
    | Text(lines: seq<string>)                         // free text, line by line
    | PathList(timestamp: string, pathNames: seq<string>) // JSON {timestamp, files: [path]}
    | Record(infos: seq<FileInfo>, createdAt: string)  // JSON {files: [{path, size}], createdAt}
    | SizeMap(sizes: map<Path, int>)                   // JSON {files: {path: length}}
    | Uber(uploadedManifest: Path, rejectedManifest: Path,
           droppedManifest: Path, failedManifest: Path) // JSON record of four manifest paths

  /** The content of a regular file: raw bytes, or a document a component wrote. */
  datatype Entry = Blob(bytes: seq<bv8>) | Doc(doc: Document)

  /** The filesystem: the regular files by path, and the directories that exist. */
  datatype Disk = Disk(entries: map<Path, Entry>, dirs: set<Folder>)

  /**
   * A content read (a file mapped into memory) that succeeds on a byte file
   * yields exactly the bytes that file holds.
   */
  ghost predicate ReadsEntry(d: Disk, read: Path -> Option<seq<bv8>>, p: Path)
  {
    p in d.entries && d.entries[p].Blob? && read(p).Some? ==> read(p).value == d.entries[p].bytes
  }

  /** The IOException kinds the model distinguishes. */
  datatype IoError = NoSuchFile | FileAlreadyExists | AccessDenied

  /** The operating system's refusals: a rename from one path to another, a write to a path. */
  datatype Faults = Faults(rename: (Path, Path) -> bool, write: Path -> bool)

  /** A folder directly under files. */
  function FilesFolder(leaf: string): string
  {
    "files/" + leaf
  }

  /** A folder directly under files/completed. */
  function CompletedFolder(leaf: string): string
  {
    "files/completed/" + leaf
  }

  /** Folder names used when a path is rendered as text. */
  function StageDir(s: Stage): string
  {
    match s
    case Incoming => FilesFolder("incoming")
    case Landed => FilesFolder("landed")
    case Accepted => FilesFolder("accepted")
    case Rejected => FilesFolder("rejected")
    case Failed => FilesFolder("failed")
    case Uploaded => FilesFolder("uploaded")
    case Dropped => FilesFolder("dropped")
    case Completed => FilesFolder("completed")
    case CompletedUploaded => CompletedFolder("uploaded")
    case CompletedRejected => CompletedFolder("rejected")
    case CompletedDropped => CompletedFolder("dropped")
    case CompletedFailed => CompletedFolder("failed")
    case Gcs => "gcs"
    case Gcp => "gcp"
    case WorkDir => "."
    case ManifestsIncoming => "manifests/incoming"
    case ManifestsLanded => "manifests/landed"
    case ManifestsUploaded => "manifests/uploaded"
    case ManifestsRejected => "manifests/rejected"
    case ManifestsDropped => "manifests/dropped"
    case ManifestsFailed => "manifests/failed"
    case ManifestsRegistered => "manifests/registered"
    case ManifestsCompleted => "manifests/completed"
    case ManifestsCompletedUploaded => "manifests/completed/uploaded"
    case ManifestsCompletedRejected => "manifests/completed/rejected"
    case ManifestsCompletedDropped => "manifests/completed/dropped"
    case ManifestsCompletedFailed => "manifests/completed/failed"
    case ManifestsCompletedUber => "manifests/completed/uber"
  }

  function JoinSub(sub: seq<string>): string
  {
    if sub == [] then "" else "/" + sub[0] + JoinSub(sub[1..])
  }

  /** Path.toString: the stage folder, the sub-directories and the name, separated by '/'. */
  function Show(p: Path): (s: string)
    ensures StageDir(p.folder.stage) <= s
  {
    StageDir(p.folder.stage) + JoinSub(p.folder.sub) + "/" + p.name
  }

  // ---------------------------------------------------------------------
  // Directories

  /** Every directory Files.createDirectories(f) makes sure exists: f and all its ancestors. */
  function Ancestors(f: Folder): (r: set<Folder>)
    ensures f in r && Root(f.stage) in r
    ensures forall g :: g in r ==> g.stage == f.stage && |g.sub| <= |f.sub| && g.sub == f.sub[..|g.sub|]
  {
    assert f.sub[..|f.sub|] == f.sub;
    assert f.sub[..0] == [];
    set i | 0 <= i <= |f.sub| :: Folder(f.stage, f.sub[..i])
  }

  /** Files.createDirectories(f); the model never lets it fail. */
  function AfterMkdirs(d: Disk, f: Folder): (r: Disk)
    ensures r.entries == d.entries
    ensures f in r.dirs && d.dirs <= r.dirs
  {
    Disk(d.entries, d.dirs + Ancestors(f))
  }

  // ---------------------------------------------------------------------
  // Files.move(src, dst, ATOMIC_MOVE [, REPLACE_EXISTING])

  /** The IOException Files.move throws, if any. */
  function MoveError(d: Disk, faults: Faults, src: Path, dst: Path, replace: bool): (r: Option<IoError>)
    ensures r.None? ==> src in d.entries
    ensures src !in d.entries ==> r == Some(NoSuchFile)
    ensures src in d.entries && src != dst && dst in d.entries && !replace ==> r == Some(FileAlreadyExists)
  {
    if src !in d.entries then Some(NoSuchFile)
    else if src == dst then None
    else if dst in d.entries && !replace then Some(FileAlreadyExists)
    else if dst.folder !in d.dirs then Some(NoSuchFile)
    else if faults.rename(src, dst) then Some(AccessDenied)
    else None
  }

  /** The filesystem after Files.move: the entry is renamed, or nothing changes. */
  function AfterMove(d: Disk, faults: Faults, src: Path, dst: Path, replace: bool): (r: Disk)
    ensures r.dirs == d.dirs
    ensures MoveError(d, faults, src, dst, replace).Some? ==> r == d
    ensures MoveError(d, faults, src, dst, replace).None? ==>
              dst in r.entries && r.entries[dst] == d.entries[src] && (src != dst ==> src !in r.entries)
    ensures forall k :: k != src && k != dst ==>
              (k in r.entries <==> k in d.entries) && (k in d.entries ==> r.entries[k] == d.entries[k])
  {
    if MoveError(d, faults, src, dst, replace).Some? then d
    else Disk(d.entries - {src} + map[dst := d.entries[src]], d.dirs)
  }

  // ---------------------------------------------------------------------
  // Files.write / ObjectMapper.writeValue, Files.deleteIfExists, Files.copy

  function WriteError(d: Disk, faults: Faults, p: Path): Option<IoError>
  {
    if p.folder !in d.dirs then Some(NoSuchFile)
    else if faults.write(p) then Some(AccessDenied)
    else None
  }

  /** Creating or truncating p and writing e into it. */
  function AfterWrite(d: Disk, faults: Faults, p: Path, e: Entry): (r: Disk)
    ensures r.dirs == d.dirs
    ensures WriteError(d, faults, p).Some? ==> r == d
    ensures WriteError(d, faults, p).None? ==> r.entries == d.entries[p := e]
  {
    if WriteError(d, faults, p).Some? then d else Disk(d.entries[p := e], d.dirs)
  }

  function DeleteError(d: Disk, faults: Faults, p: Path): Option<IoError>
  {
    if p in d.entries && faults.write(p) then Some(AccessDenied) else None
  }

  /** Files.deleteIfExists(p). */
  function AfterDelete(d: Disk, faults: Faults, p: Path): (r: Disk)
    ensures r.dirs == d.dirs
    ensures DeleteError(d, faults, p).None? ==> r.entries == d.entries - {p}
    ensures DeleteError(d, faults, p).Some? ==> r == d
  {
    if DeleteError(d, faults, p).Some? then d else Disk(d.entries - {p}, d.dirs)
  }

  function CopyError(d: Disk, faults: Faults, src: Path, dst: Path): Option<IoError>
  {
    if src !in d.entries then Some(NoSuchFile) else WriteError(d, faults, dst)
  }

  /** Files.copy(src, dst, REPLACE_EXISTING). */
  function AfterCopy(d: Disk, faults: Faults, src: Path, dst: Path): (r: Disk)
    ensures r.dirs == d.dirs
    ensures CopyError(d, faults, src, dst).Some? ==> r == d
    ensures CopyError(d, faults, src, dst).None? ==> r.entries == d.entries[dst := d.entries[src]]
  {
    if CopyError(d, faults, src, dst).Some? then d else Disk(d.entries[dst := d.entries[src]], d.dirs)
  }

  // ---------------------------------------------------------------------
  // Scanning

  /** Files.walk(stage).filter(isRegularFile): every file anywhere under the stage. */
  function Walked(d: Disk, s: Stage): set<Path>
  {
    set p | p in d.entries && p.folder.stage == s
  }

  /** Files.list(stage).filter(isRegularFile): the files directly in the stage directory. */
  function Listed(d: Disk, s: Stage): set<Path>
  {
    set p | p in d.entries && p.folder == Root(s)
  }

  /** A stage below the common parent of the file stages ("files"), as opposed to the manifest and upload folders. */
  predicate UnderFiles(s: Stage)
  {
    |StageDir(s)| >= 6 && StageDir(s)[..6] == "files/"
  }

  /** Files.walk(incoming.getParent()).filter(isRegularFile): every file of every file stage. */
  function FileTree(d: Disk): set<Path>
  {
    set p | p in d.entries && UnderFiles(p.folder.stage)
  }

  /** The directories directly in a stage directory. */
  function SubDirs(d: Disk, s: Stage): set<Folder>
  {
    set g | g in d.dirs && g.stage == s && |g.sub| == 1
  }

  /** A scan: every path of the set exactly once, in the order the directory stream gave them. */
  ghost predicate Enumerates<T(!new)>(scan: seq<T>, paths: set<T>)
  {
    && Distinct(scan)
    && (forall p :: p in scan <==> p in paths)
  }

  /** The entry at k, present or absent, is the same in both disks. */
  ghost predicate SameAt(d: Disk, r: Disk, k: Path)
  {
    (k in r.entries <==> k in d.entries) && (k in d.entries ==> r.entries[k] == d.entries[k])
  }

  ghost predicate Distinct<T>(xs: seq<T>)
  {
    forall i, j :: 0 <= i < j < |xs| ==> xs[i] != xs[j]
  }

  /** Dropping the first element keeps a sequence free of repeats. */
  lemma DistinctTail<T>(xs: seq<T>)
    requires xs != [] && Distinct(xs)
    ensures Distinct(xs[1..])
  {
    forall a, b | 0 <= a < b < |xs[1..]| ensures xs[1..][a] != xs[1..][b] {
      assert xs[1..][a] == xs[a + 1] && xs[1..][b] == xs[b + 1];
    }
  }

  /** In a sequence without repeats, an element after position k is not the k-th. */
  lemma LaterDiffers<T>(xs: seq<T>, k: nat, x: T)
    requires k < |xs| && Distinct(xs)
    requires x in xs[k + 1..]
    ensures x != xs[k]
  {
    var j :| 0 <= j < |xs[k + 1..]| && xs[k + 1..][j] == x;
    assert x == xs[k + 1 + j];
  }

  /** In a sequence without repeats, an element before position k is not the k-th. */
  lemma EarlierDiffers<T>(xs: seq<T>, k: nat, x: T)
    requires k < |xs| && Distinct(xs)
    requires x in xs[..k]
    ensures x != xs[k]
  {
    var j :| 0 <= j < |xs[..k]| && xs[..k][j] == x;
    assert x == xs[j];
  }

  /** A scan has as many elements as the set it enumerates. */
  lemma {:induction false} EnumeratedCount<T(!new)>(scan: seq<T>, s: set<T>)
    requires Enumerates(scan, s)
    ensures |scan| == |s|
    decreases |scan|
  {
    if scan != [] {
      var x := scan[|scan| - 1];
      var rest := scan[..|scan| - 1];
      assert Enumerates(rest, s - {x}) by {
        forall p
          ensures p in rest <==> p in s - {x}
        {
          if p in rest {
            var k :| 0 <= k < |rest| && rest[k] == p;
            assert scan[k] == p && k < |scan| - 1;
          }
          if p in s && p != x {
            assert p in scan;
            var k :| 0 <= k < |scan| && scan[k] == p;
            assert rest[k] == p;
          }
        }
      }
      EnumeratedCount(rest, s - {x});
    }
  }

  /** Lists a finite set in some order, each element once (the order of a directory stream or a hash map). */
  method EnumerateSet<T(!new)>(paths: set<T>) returns (scan: seq<T>)
    ensures Enumerates(scan, paths)
  {
    var rest := paths;
    scan := [];
    while rest != {}
      invariant rest <= paths
      invariant forall i, j :: 0 <= i < j < |scan| ==> scan[i] != scan[j]
      invariant forall p :: p in scan ==> p in paths && p !in rest
      invariant forall p :: p in paths ==> p in scan || p in rest
      decreases rest
    {
      var p :| p in rest;
      scan := scan + [p];
      rest := rest - {p};
    }
  }

  /**
   * The filesystem as a mutable object. Its methods are the JDK calls the
   * components make; each states its effect as a function of the Disk.
   */
  class FileSystem {
    var entries: map<Path, Entry>
    var dirs: set<Folder>
    const faults: Faults

    constructor (entries: map<Path, Entry>, dirs: set<Folder>, faults: Faults)
      ensures this.entries == entries && this.dirs == dirs && this.faults == faults
    {
      this.entries := entries;
      this.dirs := dirs;
      this.faults := faults;
    }

    function View(): Disk
      reads this
    {
      Disk(entries, dirs)
    }

    method CreateDirectories(f: Folder)
      modifies this
      ensures View() == AfterMkdirs(old(View()), f)
    {
      dirs := dirs + Ancestors(f);
    }

    method Move(src: Path, dst: Path, replace: bool) returns (err: Option<IoError>)
      modifies this
      ensures err == MoveError(old(View()), faults, src, dst, replace)
      ensures View() == AfterMove(old(View()), faults, src, dst, replace)
    {
      err := MoveError(View(), faults, src, dst, replace);
      if err.None? {
        entries := entries - {src} + map[dst := entries[src]];
      }
    }

    method Write(p: Path, e: Entry) returns (err: Option<IoError>)
      modifies this
      ensures err == WriteError(old(View()), faults, p)
      ensures View() == AfterWrite(old(View()), faults, p, e)
    {
      err := WriteError(View(), faults, p);
      if err.None? {
        entries := entries[p := e];
      }
    }

    method DeleteIfExists(p: Path) returns (err: Option<IoError>)
      modifies this
      ensures err == DeleteError(old(View()), faults, p)
      ensures View() == AfterDelete(old(View()), faults, p)
    {
      err := DeleteError(View(), faults, p);
      if err.None? {
        entries := entries - {p};
      }
    }

    method Copy(src: Path, dst: Path) returns (err: Option<IoError>)
      modifies this
      ensures err == CopyError(old(View()), faults, src, dst)
      ensures View() == AfterCopy(old(View()), faults, src, dst)
    {
      err := CopyError(View(), faults, src, dst);
      if err.None? {
        entries := entries[dst := entries[src]];
      }
    }

    /** Files.walk on a stage: fails (NoSuchFileException) when the directory is missing. */
    method Walk(s: Stage) returns (r: Option<seq<Path>>)
      ensures r.None? <==> Root(s) !in dirs
      ensures r.Some? ==> Enumerates(r.value, Walked(View(), s))
    {
      if Root(s) !in dirs {
        return None;
      }
      var scan := EnumerateSet(Walked(View(), s));
      return Some(scan);
    }

    /** Files.walk on the common parent of the file stages, which the model takes to exist. */
    method WalkFiles() returns (scan: seq<Path>)
      ensures Enumerates(scan, FileTree(View()))
    {
      scan := EnumerateSet(FileTree(View()));
    }

    /** Files.list on a stage, keeping regular files. */
    method List(s: Stage) returns (r: Option<seq<Path>>)
      ensures r.None? <==> Root(s) !in dirs
      ensures r.Some? ==> Enumerates(r.value, Listed(View(), s))
    {
      if Root(s) !in dirs {
        return None;
      }
      var scan := EnumerateSet(Listed(View(), s));
      return Some(scan);
    }

    /** Files.list(stage).toList().size(): regular files and sub-directories alike. */
    method CountListed(s: Stage) returns (r: Option<nat>)
      ensures r.None? <==> Root(s) !in dirs
      ensures r.Some? ==> r.value == |Listed(View(), s)| + |SubDirs(View(), s)|
    {
      if Root(s) !in dirs {
        return None;
      }
      return Some(|Listed(View(), s)| + |SubDirs(View(), s)|);
    }
  }
}
