/**
 * The extractor of scene-layer packages: `unpack` opens the zip archive, derives
 * the unpack folder from the archive's path, replaces whatever is at that folder
 * by a fresh directory, then extracts entries 0, 1, 2, ... in order, stopping at
 * the first error. An entry whose final extension is exactly "gz" is
 * decompressed into a file without that extension; any other entry is copied
 * under its own name.
 *
 * The filesystem, the zip reader and the gzip decoder are not modelled: a World
 * fixes the outcome of each of their calls, and each operation returns the log
 * of calls it makes (its Effects) together with its outcome.
 */
module Unpack {
  import opened Wrappers
  import opened Paths
  import SplitIndices

  /** The opaque error the source propagates with `?`. */
  datatype Error = Error(message: string)

  /** What the filesystem holds at a path: the source asks `exists`, `is_dir` and `is_file`. */
  datatype Existing = Absent | Directory | RegularFile | OtherKind

  /** One archive entry as `by_index` delivers it. */
  datatype EntrySource =
    | Unreadable(error: Error)
      // name: the sanitized entry name as relative components; createDirs: the
      // outcome of `create_dir_all`; write: that of `File::create` and the copy.
    | Readable(name: seq<Name>, createDirs: Outcome<Error>, write: Outcome<Error>)

  /** The outcome of every call into the filesystem, zip and gzip code during one run. */
  datatype World = World(
    open: Outcome<Error>,       // File::open and ZipArchive::new
    existing: Existing,         // what is at the unpack folder beforehand
    remove: Outcome<Error>,     // remove_dir_all or remove_file on the unpack folder
    createDir: Outcome<Error>,  // create_dir of the unpack folder
    entries: seq<EntrySource>)  // the archive's entries, in index order

  /** A call into the filesystem or the archive. */
  datatype Effect =
    | OpenArchive(path: Path)
    | RemoveDirAll(path: Path)
    | RemoveFile(path: Path)
    | CreateDir(path: Path)
    | ReadEntry(index: nat)
    | CreateDirAll(path: Path)
    | WriteFile(path: Path, gunzip: bool)

  /** The calls a straight-line step makes, and how it ends. */
  datatype Step = Step(log: seq<Effect>, result: Outcome<Error>)

  /** Where one entry goes, and whether it is decompressed on the way. */
  datatype Target = Target(path: Path, gunzip: bool)

  /**
   * `get_unpack_folder`, path part: the source path with its file name replaced
   * by its file stem.
   */
  function UnpackFolder(src: Path): (folder: Path)
    requires FileName(src).Some?
    ensures Parent(folder) == Parent(src)
    ensures folder.names != [] && folder.names[|folder.names| - 1] == FileStem(src).value
    ensures FileStem(src).value !in {".", ".."} ==> FileName(folder) == FileStem(src)
  {
    SetFileName(src, FileStem(src).value)
  }

  /** Whether preparing the unpack folder succeeds: any removal it needs, then the creation. */
  predicate FolderReady(w: World) {
    (w.existing in {Directory, RegularFile} ==> w.remove.Pass?) && w.createDir.Pass?
  }

  /**
   * `get_unpack_folder`, filesystem part: remove what is at the folder if it is a
   * directory or a regular file, then create the folder.
   */
  function PrepareFolder(folder: Path, w: World): (s: Step)
    ensures s.result.Pass? <==> FolderReady(w)
    ensures w.existing in {Directory, RegularFile} && w.remove.Fail? ==> |s.log| == 1 && s.result == w.remove
    ensures !(w.existing in {Directory, RegularFile} && w.remove.Fail?) ==>
      s.result == w.createDir && |s.log| > 0 && s.log[|s.log| - 1] == CreateDir(folder)
    ensures 1 <= |s.log| <= 2
    ensures w.existing == Directory ==> s.log[0] == RemoveDirAll(folder)
    ensures w.existing == RegularFile ==> s.log[0] == RemoveFile(folder)
    ensures w.existing in {Absent, OtherKind} ==> s.log == [CreateDir(folder)]
    ensures CreateDir(folder) in s.log <==> (w.existing in {Directory, RegularFile} ==> w.remove.Pass?)
  {
    var removal :=
      match w.existing
      case Directory => [RemoveDirAll(folder)]
      case RegularFile => [RemoveFile(folder)]
      case _ => [];
    if removal != [] && w.remove.Fail? then Step(removal, w.remove)
    else Step(removal + [CreateDir(folder)], w.createDir)
  }

  /**
   * `create_folder_for_entry`, path part: the unpack folder joined with the
   * entry's parent, or the unpack folder itself when the entry has no parent.
   */
  function TargetDirectory(folder: Path, entry: seq<Name>): (dir: Path)
    ensures dir.rooted == folder.rooted
    ensures entry == [] ==> dir == folder
    ensures entry != [] ==> Join(dir, [entry[|entry| - 1]]) == Join(folder, entry)
  {
    match Parent(Path(false, entry))
    case None => folder
    case Some(p) => Join(folder, p.names)
  }

  /**
   * `unpack_entry`, path part: an entry whose final extension is exactly "gz" is
   * decompressed into its target directory under its file stem; any other entry
   * is copied there under its file name.
   */
  function EntryTarget(folder: Path, entry: seq<Name>): (t: Target)
    requires FileName(Path(false, entry)).Some?
    ensures t.gunzip <==> Extension(Path(false, entry)) == Some("gz")
    ensures Parent(t.path) == Some(TargetDirectory(folder, entry))
    ensures |t.path.names| > 0 && t.path.names[|t.path.names| - 1] ==
      if t.gunzip then FileStem(Path(false, entry)).value else FileName(Path(false, entry)).value
  {
    var e := Path(false, entry);
    var dir := TargetDirectory(folder, entry);
    if Extension(e) == Some("gz") then Target(Join(dir, [FileStem(e).value]), true)
    else Target(Join(dir, [FileName(e).value]), false)
  }

  /** Whether extracting this entry succeeds at every call. */
  predicate Succeeds(e: EntrySource) {
    e.Readable? && e.createDirs.Pass? && e.write.Pass?
  }

  /** The write of an entry's output file, at its target. */
  function Output(folder: Path, entry: seq<Name>): Effect
    requires FileName(Path(false, entry)).Some?
  {
    var t := EntryTarget(folder, entry);
    WriteFile(t.path, t.gunzip)
  }

  /**
   * Extracting the entry reaches no `unwrap` that panics: a readable entry's name
   * is not empty (an empty name has no parent, so the copy's `unwrap` is reached
   * at once) and, once its target directory is created, it has a file name.
   */
  predicate Named(e: EntrySource) {
    e.Readable? ==> e.name != [] && (e.createDirs.Pass? ==> FileName(Path(false, e.name)).Some?)
  }

  /** Each of the first k entries is named. */
  predicate NamesPresent(entries: seq<EntrySource>, k: nat)
    requires k <= |entries|
  {
    forall i :: 0 <= i < k ==> Named(entries[i])
  }

  /**
   * `by_index(i)` followed by `unpack_entry`: read the entry, create its target
   * directory, then write the (possibly decompressed) file, stopping at the first
   * failing call.
   */
  function ExtractEntry(folder: Path, index: nat, e: EntrySource): (s: Step)
    requires Named(e)
    ensures 0 < |s.log| <= 3 && s.log[0] == ReadEntry(index)
    ensures s.result.Pass? <==> Succeeds(e)
    ensures e.Unreadable? ==> |s.log| == 1 && s.result == Fail(e.error)
    ensures e.Readable? ==> |s.log| >= 2 && s.log[1] == CreateDirAll(TargetDirectory(folder, e.name))
    ensures e.Readable? && e.createDirs.Fail? ==> |s.log| == 2 && s.result == e.createDirs
    ensures e.Readable? && e.createDirs.Pass? ==>
      |s.log| == 3 && s.log[2] == Output(folder, e.name) && s.result == e.write
  {
    match e
    case Unreadable(err) => Step([ReadEntry(index)], Fail(err))
    case Readable(name, createDirs, write) =>
      // A non-empty relative name always has a parent (the empty path for a
      // top-level entry), so the target directory is always created.
      var dir := TargetDirectory(folder, name);
      if createDirs.Fail? then Step([ReadEntry(index), CreateDirAll(dir)], createDirs)
      else
        Step([ReadEntry(index), CreateDirAll(dir), Output(folder, name)], write)
  }

  /** The index of the first entry whose extraction fails, or |entries| when none does. */
  function FirstFailure(entries: seq<EntrySource>): (f: nat)
    ensures f <= |entries|
    ensures forall j :: 0 <= j < f ==> Succeeds(entries[j])
    ensures f < |entries| ==> !Succeeds(entries[f])
  {
    if entries == [] then 0
    else if !Succeeds(entries[0]) then 0
    else
      var f := FirstFailure(entries[1..]);
      assert forall j :: 1 <= j < f + 1 ==> entries[j] == entries[1..][j - 1];
      f + 1
  }

  /** How many entries a run that prepared its folder attempts: up to and including the first failing one. */
  function Attempted(entries: seq<EntrySource>): (n: nat)
    ensures n <= |entries|
  {
    var f := FirstFailure(entries);
    if f < |entries| then f + 1 else f
  }

  /** The calls made while extracting entries 0 .. k-1 one after another. */
  function EntriesLog(folder: Path, entries: seq<EntrySource>, k: nat): seq<Effect>
    requires k <= |entries| && NamesPresent(entries, k)
  {
    if k == 0 then []
    else EntriesLog(folder, entries, k - 1) + ExtractEntry(folder, k - 1, entries[k - 1]).log
  }

  /** The outcome of extracting entries in order: the first failing entry's error, if any. */
  function EntriesResult(folder: Path, entries: seq<EntrySource>): Outcome<Error>
    requires NamesPresent(entries, Attempted(entries))
  {
    var stop := FirstFailure(entries);
    if stop < |entries| then ExtractEntry(folder, stop, entries[stop]).result else Pass
  }

  /**
   * The run reaches no `unwrap` that panics: once the archive is open the
   * source path has a file name, and once the folder is ready every entry the
   * run extracts is named.
   */
  predicate NoPanic(src: Path, w: World) {
    w.open.Pass? ==>
      FileName(src).Some? && (FolderReady(w) ==> NamesPresent(w.entries, Attempted(w.entries)))
  }

  /**
   * The calls `unpack` makes and its outcome: open the archive; on success
   * prepare the unpack folder; on success extract entries in index order up to
   * and including the first failing one.
   */
  function Run(src: Path, w: World): Step
    requires NoPanic(src, w)
  {
    if w.open.Fail? then Step([OpenArchive(src)], w.open)
    else
      var folder := UnpackFolder(src);
      var prep := PrepareFolder(folder, w);
      if prep.result.Fail? then Step([OpenArchive(src)] + prep.log, prep.result)
      else
        Step([OpenArchive(src)] + prep.log + EntriesLog(folder, w.entries, Attempted(w.entries)),
             EntriesResult(folder, w.entries))
  }

  /**
   * `unpack`: open the archive, prepare the unpack folder, then extract entries
   * in index order, returning the first error.
   */
  method Unpack(src: Path, w: World) returns (res: Outcome<Error>, log: seq<Effect>)
    requires NoPanic(src, w)
    ensures Step(log, res) == Run(src, w)
  {
    log := [OpenArchive(src)];
    if w.open.Fail? {
      return w.open, log;
    }
    var folder := UnpackFolder(src);
    var prep := PrepareFolder(folder, w);
    log := log + prep.log;
    if prep.result.Fail? {
      return prep.result, log;
    }
    var rest;
    res, rest := ExtractEntries(folder, w.entries);
    log := log + rest;
  }

  /**
   * The loop of `unpack`: extract entries in index order, returning the error
   * of the first entry that fails.
   */
  method ExtractEntries(folder: Path, entries: seq<EntrySource>)
    returns (res: Outcome<Error>, log: seq<Effect>)
    requires NamesPresent(entries, Attempted(entries))
    ensures log == EntriesLog(folder, entries, Attempted(entries))
    ensures res == EntriesResult(folder, entries)
  {
    log := [];
    ghost var stop := FirstFailure(entries);
    for i := 0 to |entries|
      invariant i <= stop
      invariant log == EntriesLog(folder, entries, i)
    {
      ExtractNext(folder, entries, i);
      var step := ExtractEntry(folder, i, entries[i]);
      log := log + step.log;
      if step.result.Fail? {
        return step.result, log;
      }
    }
    res := Pass;
  }

  /**
   * One turn of the loop of `unpack`: entry i is named, its calls extend the
   * log, and it either fails (then it is the first failure and its error is the
   * run's) or lets the loop go on.
   */
  lemma ExtractNext(folder: Path, entries: seq<EntrySource>, i: nat)
    requires i < |entries| && i <= FirstFailure(entries)
    requires NamesPresent(entries, Attempted(entries))
    ensures Named(entries[i]) && NamesPresent(entries, i + 1)
    ensures EntriesLog(folder, entries, i + 1) ==
      EntriesLog(folder, entries, i) + ExtractEntry(folder, i, entries[i]).log
    ensures ExtractEntry(folder, i, entries[i]).result.Fail? ==>
      Attempted(entries) == i + 1 && EntriesResult(folder, entries) == ExtractEntry(folder, i, entries[i]).result
    ensures ExtractEntry(folder, i, entries[i]).result.Pass? ==> i + 1 <= FirstFailure(entries)
    ensures ExtractEntry(folder, i, entries[i]).result.Pass? && i + 1 == |entries| ==>
      Attempted(entries) == |entries| && EntriesResult(folder, entries) == Pass
  {
    var stop := FirstFailure(entries);
    assert stop < |entries| ==> !Succeeds(entries[stop]);
  }

  /** The indices of the entries a log reads, in the order it reads them. */
  function Reads(log: seq<Effect>): seq<nat> {
    if log == [] then []
    else (if log[0].ReadEntry? then [log[0].index] else []) + Reads(log[1..])
  }

  lemma {:induction false} ReadsAppend(a: seq<Effect>, b: seq<Effect>)
    ensures Reads(a + b) == Reads(a) + Reads(b)
  {
    if a != [] {
      var head := if a[0].ReadEntry? then [a[0].index] else [];
      assert (a + b)[0] == a[0];
      assert (a + b)[1..] == a[1..] + b;
      ReadsAppend(a[1..], b);
      calc {
        Reads(a + b);
        head + Reads(a[1..] + b);
        head + (Reads(a[1..]) + Reads(b));
        (head + Reads(a[1..])) + Reads(b);
      }
    } else {
      assert a + b == b;
    }
  }

  /** Extracting one entry reads that entry and no other. */
  lemma ReadsOfEntry(folder: Path, index: nat, e: EntrySource)
    requires Named(e)
    ensures Reads(ExtractEntry(folder, index, e).log) == [index]
  {
    var log := ExtractEntry(folder, index, e).log;
    assert Reads(log[1..]) == [] by {
      ReadsNone(log[1..]);
    }
  }

  lemma {:induction false} ReadsNone(log: seq<Effect>)
    requires forall k :: 0 <= k < |log| ==> !log[k].ReadEntry?
    ensures Reads(log) == []
  {
    if log != [] {
      ReadsNone(log[1..]);
    }
  }

  /** Extracting entries 0 .. k-1 reads exactly the indices 0, 1, ..., k-1, in increasing order. */
  lemma {:induction false} ReadsOfEntriesLog(folder: Path, entries: seq<EntrySource>, k: nat)
    requires k <= |entries| && NamesPresent(entries, k)
    ensures Reads(EntriesLog(folder, entries, k)) == SplitIndices.Indices(0, k)
  {
    if k > 0 {
      ReadsOfEntriesLog(folder, entries, k - 1);
      ReadsAppend(EntriesLog(folder, entries, k - 1), ExtractEntry(folder, k - 1, entries[k - 1]).log);
      ReadsOfEntry(folder, k - 1, entries[k - 1]);
      SplitIndices.IndicesAppend(0, k - 1, k);
    }
  }

  /**
   * The entries a run visits are 0, 1, ..., up to and including the first
   * failing one: none is visited twice and none after the failure is attempted.
   */
  lemma VisitOrder(folder: Path, entries: seq<EntrySource>)
    requires NamesPresent(entries, Attempted(entries))
    ensures Reads(EntriesLog(folder, entries, Attempted(entries))) == SplitIndices.Indices(0, Attempted(entries))
    ensures forall j :: Attempted(entries) <= j < |entries| ==>
      ReadEntry(j) !in EntriesLog(folder, entries, Attempted(entries))
  {
    var log := EntriesLog(folder, entries, Attempted(entries));
    ReadsOfEntriesLog(folder, entries, Attempted(entries));
    forall j | Attempted(entries) <= j < |entries|
      ensures ReadEntry(j) !in log
    {
      if ReadEntry(j) in log {
        var k :| 0 <= k < |log| && log[k] == ReadEntry(j);
        ReadsMember(log, k);
      }
    }
  }

  /**
   * A run first opens the archive. A failed open returns its error and makes no
   * other call; a failed folder preparation returns the error of the removal
   * or creation that failed. A run succeeds exactly when opening the archive,
   * preparing the folder and extracting every entry all succeed.
   */
  lemma RunOutcome(src: Path, w: World)
    requires NoPanic(src, w)
    ensures |Run(src, w).log| > 0 && Run(src, w).log[0] == OpenArchive(src)
    ensures w.open.Fail? ==> Run(src, w) == Step([OpenArchive(src)], w.open)
    ensures w.open.Pass? && !FolderReady(w) ==>
      Run(src, w).result ==
        if w.existing in {Directory, RegularFile} && w.remove.Fail? then w.remove else w.createDir
    ensures Run(src, w).result.Pass? <==>
      w.open.Pass? && FolderReady(w) && forall i :: 0 <= i < |w.entries| ==> Succeeds(w.entries[i])
  {
    var stop := FirstFailure(w.entries);
    if stop < |w.entries| {
      assert !Succeeds(w.entries[stop]);
    }
  }

  /**
   * No entry is read unless the archive opened and the unpack folder was
   * prepared; after that, the run reads entries 0, 1, ... up to and including
   * the first failing one, in that order.
   */
  lemma RunReads(src: Path, w: World)
    requires NoPanic(src, w)
    ensures Reads(Run(src, w).log) ==
      if w.open.Pass? && FolderReady(w) then SplitIndices.Indices(0, Attempted(w.entries)) else []
  {
    if w.open.Fail? {
      ReadsNone([OpenArchive(src)]);
    } else {
      var folder := UnpackFolder(src);
      var prep := PrepareFolder(folder, w);
      var head := [OpenArchive(src)] + prep.log;
      assert Reads(head) == [] by {
        ReadsNone(head);
      }
      if prep.result.Pass? {
        ReadsAppend(head, EntriesLog(folder, w.entries, Attempted(w.entries)));
        VisitOrder(folder, w.entries);
        assert Reads(head) + SplitIndices.Indices(0, Attempted(w.entries)) == SplitIndices.Indices(0, Attempted(w.entries));
      }
    }
  }

  /** Every entry a log reads shows up in Reads. */
  lemma {:induction false} ReadsMember(log: seq<Effect>, k: nat)
    requires k < |log| && log[k].ReadEntry?
    ensures log[k].index in Reads(log)
  {
    if k > 0 {
      ReadsMember(log[1..], k - 1);
    }
  }

  /** Every entry before the first failure has been written to its target by the time the run stops. */
  lemma {:induction false} EarlierEntriesWritten(folder: Path, entries: seq<EntrySource>, k: nat, j: nat)
    requires j < k <= FirstFailure(entries) && NamesPresent(entries, k)
    ensures entries[j].Readable?
    ensures Output(folder, entries[j].name) in EntriesLog(folder, entries, k)
  {
    var s := ExtractEntry(folder, k - 1, entries[k - 1]);
    var before := EntriesLog(folder, entries, k - 1);
    assert EntriesLog(folder, entries, k) == before + s.log;
    if j < k - 1 {
      EarlierEntriesWritten(folder, entries, k - 1, j);
      var x := Output(folder, entries[j].name);
      assert x in before;
    } else {
      assert Succeeds(entries[j]);
      assert s.log[2] == Output(folder, entries[j].name);
    }
  }

  /**
   * Visiting the ranges of the work partitioner in order reads the same indices
   * in the same order as the sequential loop of a run in which no entry fails.
   */
  lemma PartitionMatchesLoop(folder: Path, entries: seq<EntrySource>, numRanges: nat)
    requires NamesPresent(entries, |entries|) && numRanges > 0
    requires forall i :: 0 <= i < |entries| ==> Succeeds(entries[i])
    ensures SplitIndices.Flatten(SplitIndices.Split(|entries|, numRanges)) ==
      Reads(EntriesLog(folder, entries, Attempted(entries)))
  {
    assert FirstFailure(entries) == |entries|;
    VisitOrder(folder, entries);
    SplitIndices.SplitFlatten(|entries|, numRanges);
  }

  /** The unpack folder is the source path itself exactly when the source file name has no extension. */
  lemma UnpackFolderIsSource(src: Path)
    requires FileName(src).Some?
    ensures UnpackFolder(src) == src <==> Extension(src).None?
  {
    var name := FileName(src).value;
    StemExtSplit(name);
    var f := UnpackFolder(src);
    assert src.names == Parent(src).value.names + [name];
    if Extension(src).Some? {
      assert |Stem(name)| < |name|;
      assert f.names[|f.names| - 1] != src.names[|src.names| - 1];
    }
  }

  /** An entry named base + ".gz" (base non-empty) is decompressed to base in the same directory. */
  lemma GzEntryTarget(folder: Path, dirs: seq<Name>, base: Name)
    requires base != []
    ensures EntryTarget(folder, dirs + [base + ".gz"]) == Target(Join(folder, dirs + [base]), true)
  {
    var entry := dirs + [base + ".gz"];
    StemExtJoin(base, "gz");
    assert base + ".gz" == base + "." + "gz";
    assert entry[..|entry| - 1] == dirs;
  }

  /** Any other entry (including ".gz" alone and other letter cases) is copied under its own name. */
  lemma PlainEntryTarget(folder: Path, entry: seq<Name>)
    requires FileName(Path(false, entry)).Some?
    requires !(|entry[|entry| - 1]| > 3 && entry[|entry| - 1][|entry[|entry| - 1]| - 3..] == ".gz")
    ensures EntryTarget(folder, entry) == Target(Join(folder, entry), false)
  {
    GzSuffix(entry[|entry| - 1]);
    assert entry == entry[..|entry| - 1] + [entry[|entry| - 1]];
  }

  /** `b/c.json.gz` becomes `b/c.json`. */
  lemma ExampleGzEntry(folder: Path)
    ensures EntryTarget(folder, ["b", "c.json.gz"]) == Target(Join(folder, ["b", "c.json"]), true)
  {
    var n := "c.json" + ".gz";
    assert n == "c.json.gz" by {
      assert forall i :: 0 <= i < |n| ==> n[i] == "c.json.gz"[i];
    }
    GzEntryTarget(folder, ["b"], "c.json");
    assert ["b"] + [n] == ["b", "c.json.gz"];
  }

  /** `t.gz.gz` becomes `t.gz`: only the last ".gz" is dropped. */
  lemma ExampleDoubleGzEntry(folder: Path)
    ensures EntryTarget(folder, ["t.gz.gz"]) == Target(Join(folder, ["t.gz"]), true)
  {
    var m := "t.gz" + ".gz";
    assert m == "t.gz.gz" by {
      assert forall i :: 0 <= i < |m| ==> m[i] == "t.gz.gz"[i];
    }
    GzEntryTarget(folder, [], "t.gz");
    assert [] + [m] == ["t.gz.gz"];
  }

  /** `a.txt`, `d.GZ` and `.gz` are copied unchanged. */
  lemma ExamplePlainEntries(folder: Path)
    ensures EntryTarget(folder, ["a.txt"]) == Target(Join(folder, ["a.txt"]), false)
    ensures EntryTarget(folder, ["d.GZ"]) == Target(Join(folder, ["d.GZ"]), false)
    ensures EntryTarget(folder, [".gz"]) == Target(Join(folder, [".gz"]), false)
  {
    PlainEntryTarget(folder, ["a.txt"]);
    PlainEntryTarget(folder, ["d.GZ"]);
    PlainEntryTarget(folder, [".gz"]);
  }
}
