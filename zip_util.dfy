/**
 * ZipUtil: zips a file or a directory tree into an archive file and unzips an
 * archive into a directory, refusing entries that would land outside it
 * (the "zip slip" guard).
 *
 * Each operation is a method on a Disk, proved against a function that states
 * the whole resulting filesystem; the lemmas about those functions are in the
 * ZipProperties module.
 */
module ZipUtil {
  import opened Wrappers
  import opened Paths
  import opened FileSystem
  import opened Streams

  // ----- names -----

  /**
   * Kotlin's Char.isWhitespace on the JVM: Character.isWhitespace or
   * Character.isSpaceChar.
   */
  predicate IsWhitespace(c: char) {
    || c == ' ' || c == '\t' || c == '\n' || c == '\U{000B}' || c == '\U{000C}' || c == '\r'
    || ('\U{001C}' <= c <= '\U{001F}')
    || c == '\U{00A0}' || c == '\U{1680}' || ('\U{2000}' <= c <= '\U{200A}')
    || c == '\U{2028}' || c == '\U{2029}' || c == '\U{202F}' || c == '\U{205F}' || c == '\U{3000}'
  }

  /** String.isBlank: empty or whitespace only. */
  predicate IsBlank(s: string) {
    forall i :: 0 <= i < |s| ==> IsWhitespace(s[i])
  }

  /** File.isFile. */
  predicate IsFile(fs: FsMap, path: string) {
    path != "" && FileAt(fs, Resolve(path))
  }

  /**
   * File.parentFile, located from the root: null for a relative one-segment
   * path and for the root; the lexical parent otherwise (the root for "/a",
   * the working directory followed by "a" for "a/b").
   */
  function ParentFile(path: string): (r: Option<seq<string>>)
    ensures r.Some? <==> |Split(path)| >= 2 || (|Split(path)| == 1 && IsAbsolute(path))
    ensures r.Some? ==> Locate(path) == r.value + [Name(path)] && AllSegments(r.value)
  {
    var s := Split(path);
    if |s| >= 2 || (|s| == 1 && IsAbsolute(path)) then
      LocateEndsWithName(path);
      var p := Locate(path);
      Some(p[..|p| - 1])
    else None
  }

  // ----- zip -----

  datatype FileType = Directory | RegularFile

  /** getFileType: None stands for the IllegalArgumentException it throws. */
  function GetFileType(fs: FsMap, path: string): (r: Option<FileType>)
    ensures r.None? <==> !Exists(fs, path) || (!IsDirectory(fs, path) && !IsFile(fs, path))
    ensures r == Some(Directory) <==> IsDirectory(fs, path)
  {
    if IsDirectory(fs, path) then Some(Directory)
    else if IsFile(fs, path) then Some(RegularFile)
    else None
  }

  /**
   * getBaseFileForEntryRelativePath: a directory is its own base; a file's base
   * is its parent directory. None stands for the exception thrown when the path
   * is neither, or when a file has no parent (parentFile is null).
   */
  function BaseForEntryRelativePath(fs: FsMap, sourceFile: string): (r: Option<seq<string>>)
    ensures r.Some? <==> IsDirectory(fs, sourceFile) || (IsFile(fs, sourceFile) && ParentFile(sourceFile).Some?)
    ensures IsDirectory(fs, sourceFile) ==> r == Some(Resolve(sourceFile))
    ensures IsFile(fs, sourceFile) && r.Some? && IsOrdinary(Name(sourceFile)) ==>
              Resolve(sourceFile) == r.value + [Name(sourceFile)]
  {
    match GetFileType(fs, sourceFile)
    case None => None
    case Some(Directory) => Some(Resolve(sourceFile))
    case Some(RegularFile) =>
      match ParentFile(sourceFile)
      case None => None
      case Some(parent) =>
        CanonAppendOrdinaryName(parent, Name(sourceFile));
        Some(Canon(parent))
  }

  lemma CanonAppendOrdinaryName(parent: seq<string>, name: string)
    ensures IsOrdinary(name) ==> Canon(parent + [name]) == Canon(parent) + [name]
  {
    if IsOrdinary(name) {
      CanonAppend(parent, [name]);
    }
  }

  /**
   * An entry's name: the file's path relative to the base, as File.path renders
   * it. For a file below the base, the name splits back into the segments that
   * lead from the base to the file.
   */
  function EntryName(file: seq<string>, base: seq<string>): (r: string)
    ensures Within(file, base) && AllSegments(file[|base|..]) ==> Split(r) == file[|base|..]
  {
    EntryNameSplits(file, base);
    Join(RelativeTo(file, base))
  }

  lemma EntryNameSplits(file: seq<string>, base: seq<string>)
    ensures Within(file, base) && AllSegments(file[|base|..]) ==> Split(Join(RelativeTo(file, base))) == file[|base|..]
  {
    if Within(file, base) && AllSegments(file[|base|..]) {
      RelativeToDescendant(file, base);
      SplitJoin(file[|base|..]);
    }
  }

  /**
   * The regular files walkBottomUp().filter { it.isFile } visits: the source
   * itself when it is a file, otherwise the files below it.
   */
  function FilesToArchive(fs: FsMap, source: seq<string>): set<seq<string>> {
    set k | k in fs && Within(k, source) && fs[k].File?
  }

  /** In a well-formed tree, a path below an existing one exists only below a directory. */
  lemma PresentAbove(fs: FsMap, q: seq<string>, p: seq<string>)
    requires WellFormed(fs) && q in fs && Within(q, p)
    ensures p in fs
    ensures q != p ==> DirAt(fs, p)
  {
    if |p| < |q| {
      assert DirAt(fs, q[..|p|]);
    } else {
      assert q == q[..|p|];
    }
  }

  /** A regular file is walked alone. */
  lemma FileArchivedAlone(fs: FsMap, source: seq<string>)
    requires WellFormed(fs) && FileAt(fs, source)
    ensures FilesToArchive(fs, source) == {source}
  {
    forall k | k in FilesToArchive(fs, source) ensures k == source {
      PresentAbove(fs, k, source);
    }
  }

  /** `order` lists every member of `files` exactly once. */
  ghost predicate IsListing(order: seq<seq<string>>, files: set<seq<string>>) {
    && (forall i, j :: 0 <= i < j < |order| ==> order[i] != order[j])
    && (forall k :: k in order <==> k in files)
  }

  /** The entry writeFileToZip writes for `file`. */
  function EntryFor(fs: FsMap, base: seq<string>, file: seq<string>): Entry {
    Entry(EntryName(file, base), if FileAt(fs, file) then fs[file].data else [])
  }

  /**
   * One entry per listed file, in the listed order; the name of each file below
   * the base splits back into its segments below the base.
   */
  function EntriesFor(fs: FsMap, base: seq<string>, order: seq<seq<string>>): (r: seq<Entry>)
    ensures |r| == |order|
    ensures forall i | 0 <= i < |order| && Within(order[i], base) && AllSegments(order[i][|base|..]) ::
              Split(r[i].name) == order[i][|base|..]
  {
    seq(|order|, i requires 0 <= i < |order| => EntryFor(fs, base, order[i]))
  }

  /** The entries of the archive that zip writes for the files in `order`. */
  function ArchivedEntries(fs: FsMap, sourceFile: string, order: seq<seq<string>>): seq<Entry> {
    match BaseForEntryRelativePath(fs, sourceFile)
    case None => []
    case Some(base) => EntriesFor(fs, base, order)
  }

  /** makeParentDirectoriesIfNotExists. */
  function PrepareDestination(fs: FsMap, destinationFile: string): FsMap {
    if !Exists(fs, destinationFile) && ParentFile(destinationFile).Some? then
      MakeDirs(fs, Canon(ParentFile(destinationFile).value)).1
    else fs
  }

  /** The filesystem the walk sees: prepared, with the destination opened (empty). */
  function ZipSnapshot(fs: FsMap, destinationFile: string): FsMap {
    PrepareDestination(fs, destinationFile)[Resolve(destinationFile) := File([])]
  }

  /** The filesystem a successful zip leaves: the destination holds the archive. */
  function ZipWritten(fs: FsMap, codec: ZipCodec, sourceFile: string, destinationFile: string,
                      order: seq<seq<string>>): FsMap {
    var snapshot := ZipSnapshot(fs, destinationFile);
    snapshot[Resolve(destinationFile) := File(codec.encode(ArchivedEntries(snapshot, sourceFile, order)))]
  }

  /** zip gets past opening the destination and finding every file's base. */
  predicate ZipCanWrite(fs: FsMap, sourceFile: string, destinationFile: string) {
    && !IsDotName(Name(destinationFile))
    && CanCreateFile(PrepareDestination(fs, destinationFile), Resolve(destinationFile))
    && BaseForEntryRelativePath(ZipSnapshot(fs, destinationFile), sourceFile).Some?
  }

  /**
   * cleanupSilently: deleteRecursively of an existing destination. A destination
   * named "." or ".." is emptied but stays, since deleting it is refused.
   */
  function Cleanup(fs: FsMap, destinationFile: string): FsMap {
    if Exists(fs, destinationFile) then DeleteTree(fs, Resolve(destinationFile), IsDotName(Name(destinationFile)))
    else fs
  }

  lemma PrepareDestinationWellFormed(fs: FsMap, destinationFile: string)
    requires WellFormed(fs)
    ensures WellFormed(PrepareDestination(fs, destinationFile))
    ensures fs.Keys <= PrepareDestination(fs, destinationFile).Keys
    ensures forall q | q in fs :: PrepareDestination(fs, destinationFile)[q] == fs[q]
  {
    if !Exists(fs, destinationFile) && ParentFile(destinationFile).Some? {
      var parent := ParentFile(destinationFile).value;
      CanonOrdinary(parent);
      MakeDirsWellFormed(fs, Canon(parent));
    }
  }

  /** Cleaning up after the destination was opened is cleaning up the prepared tree. */
  lemma CleanupAfterOpen(fs: FsMap, destinationFile: string)
    requires WellFormed(fs) && destinationFile != "" && !IsDotName(Name(destinationFile))
    requires CanCreateFile(fs, Resolve(destinationFile))
    ensures Cleanup(fs[Resolve(destinationFile) := File([])], destinationFile) == Cleanup(fs, destinationFile)
  {
    var cd := Resolve(destinationFile);
    var withFile := fs[cd := File([])];
    forall q | q in fs && Within(q, cd) ensures cd in fs {
      PresentAbove(fs, q, cd);
    }
    if cd !in fs {
      assert DeleteTree(withFile, cd, false) == fs;
    } else {
      assert DeleteTree(withFile, cd, false) == DeleteTree(fs, cd, false);
    }
  }

  // ----- unzip -----

  /** File(destinationDir, entry.name), resolved. */
  function EntryTarget(extractionDirectory: string, entryName: string): seq<string> {
    Canon(Locate(extractionDirectory) + Split(entryName))
  }

  /**
   * entryFile.name: the entry name's last segment, or the directory's own name
   * when the entry name has no segment.
   */
  function EntryFileName(extractionDirectory: string, entryName: string): string {
    if Split(entryName) == [] then Name(extractionDirectory) else Name(entryName)
  }

  /** entryFile.parentFile, resolved. */
  function EntryParent(extractionDirectory: string, entryName: string): seq<string> {
    Canon(Init(Locate(extractionDirectory) + Split(entryName)))
  }

  /** All segments of a path but the last; the root stays the root. */
  function Init(p: seq<string>): seq<string> {
    if p == [] then [] else p[..|p| - 1]
  }

  lemma EntryPathsOrdinary(extractionDirectory: string, entryName: string)
    ensures AllOrdinary(EntryTarget(extractionDirectory, entryName))
    ensures AllOrdinary(EntryParent(extractionDirectory, entryName))
  {
    var p := Locate(extractionDirectory) + Split(entryName);
    SegmentsConcat(Locate(extractionDirectory), Split(entryName));
    CanonOrdinary(p);
    if p != [] {
      assert AllSegments(p[..|p| - 1]);
      CanonOrdinary(p[..|p| - 1]);
    }
  }

  /**
   * verifyNoZipSlip: the canonical path of the entry's target starts with the
   * canonical path of the directory followed by a separator.
   */
  function VerifyNoZipSlip(destinationDir: string, entryName: string): (ok: bool)
    ensures ok <==> Resolve(destinationDir) != [] &&
                    StrictlyUnder(EntryTarget(destinationDir, entryName), Resolve(destinationDir))
  {
    var canonicalDestinationDirPath := CanonicalPath(Resolve(destinationDir));
    var canonicalDestinationFile := CanonicalPath(EntryTarget(destinationDir, entryName));
    EntryPathsOrdinary(destinationDir, entryName);
    ResolveOrdinary(destinationDir);
    CanonicalContainment(Resolve(destinationDir), EntryTarget(destinationDir, entryName));
    StartsWith(canonicalDestinationFile, canonicalDestinationDirPath + [Separator])
  }

  /**
   * extractZipEntry: a directory entry is made with mkdirs (its result ignored);
   * for a file entry the parent is made with mkdirs, then the file is opened and
   * filled with the entry's bytes. False when the file cannot be opened.
   */
  function ExtractEntry(fs: FsMap, extractionDirectory: string, entry: Entry): (bool, FsMap) {
    var target := EntryTarget(extractionDirectory, entry.name);
    if IsDirectoryEntry(entry) then
      (true, MakeDirs(fs, target).1)
    else
      var fs1 := MakeDirs(fs, EntryParent(extractionDirectory, entry.name)).1;
      if !IsDotName(EntryFileName(extractionDirectory, entry.name)) && CanCreateFile(fs1, target) then
        (true, fs1[target := File(entry.data)])
      else (false, fs1)
  }

  /** The entry loop of unzip: stops at the first unsafe entry or failed extraction. */
  function ExtractAll(fs: FsMap, extractionDirectory: string, entries: seq<Entry>): (bool, FsMap)
    decreases |entries|
  {
    if entries == [] then (true, fs)
    else if !VerifyNoZipSlip(extractionDirectory, entries[0].name) then (false, fs)
    else
      var (ok, fs1) := ExtractEntry(fs, extractionDirectory, entries[0]);
      if !ok then (false, fs1) else ExtractAll(fs1, extractionDirectory, entries[1..])
  }

  /** makeExtractionDirectoryIfNotExists. */
  function PrepareExtractionDirectory(fs: FsMap, extractionDirectory: string): FsMap {
    if Exists(fs, extractionDirectory) then fs else MakeDirs(fs, Resolve(extractionDirectory)).1
  }

  /** ZipFile(zipFile).entries(): None when the file is not a readable archive. */
  function ReadArchive(fs: FsMap, codec: ZipCodec, zipFile: string): Option<seq<Entry>> {
    if FileAt(fs, Resolve(zipFile)) then codec.decode(fs[Resolve(zipFile)].data) else None
  }

  /** What unzip returns and the filesystem it leaves. */
  function UnzipResult(fs: FsMap, codec: ZipCodec, zipFile: string, extractionDirectory: string): (bool, FsMap) {
    if IsBlank(Name(zipFile)) || IsBlank(Name(extractionDirectory)) then (false, fs)
    else
      var fs1 := PrepareExtractionDirectory(fs, extractionDirectory);
      if !(Exists(fs1, zipFile) && IsDirectory(fs1, extractionDirectory)) then (false, fs1)
      else
        match ReadArchive(fs1, codec, zipFile)
        case None => (false, fs1)
        case Some(entries) => ExtractAll(fs1, extractionDirectory, entries)
  }

  lemma ExtractEntryWellFormed(fs: FsMap, extractionDirectory: string, entry: Entry)
    requires WellFormed(fs)
    ensures WellFormed(ExtractEntry(fs, extractionDirectory, entry).1)
  {
    EntryPathsOrdinary(extractionDirectory, entry.name);
    var target := EntryTarget(extractionDirectory, entry.name);
    if IsDirectoryEntry(entry) {
      MakeDirsWellFormed(fs, target);
    } else {
      MakeDirsWellFormed(fs, EntryParent(extractionDirectory, entry.name));
      var fs1 := MakeDirs(fs, EntryParent(extractionDirectory, entry.name)).1;
      if CanCreateFile(fs1, target) {
        CreateFileWellFormed(fs1, target, entry.data);
      }
    }
  }

  lemma {:induction false} ExtractAllWellFormed(fs: FsMap, extractionDirectory: string, entries: seq<Entry>)
    requires WellFormed(fs)
    ensures WellFormed(ExtractAll(fs, extractionDirectory, entries).1)
    decreases |entries|
  {
    if entries != [] && VerifyNoZipSlip(extractionDirectory, entries[0].name) {
      ExtractEntryWellFormed(fs, extractionDirectory, entries[0]);
      var fs1 := ExtractEntry(fs, extractionDirectory, entries[0]).1;
      ExtractAllWellFormed(fs1, extractionDirectory, entries[1..]);
    }
  }

  lemma UnzipWellFormed(fs: FsMap, codec: ZipCodec, zipFile: string, extractionDirectory: string)
    requires WellFormed(fs)
    ensures WellFormed(UnzipResult(fs, codec, zipFile, extractionDirectory).1)
  {
    if !Exists(fs, extractionDirectory) {
      ResolveOrdinary(extractionDirectory);
      MakeDirsWellFormed(fs, Resolve(extractionDirectory));
    }
    var fs1 := PrepareExtractionDirectory(fs, extractionDirectory);
    if ReadArchive(fs1, codec, zipFile).Some? {
      ExtractAllWellFormed(fs1, extractionDirectory, ReadArchive(fs1, codec, zipFile).value);
    }
  }

  // ----- the operations on a Disk -----

  /** cleanupSilently(destinationFile). */
  method CleanupSilently(disk: Disk, destinationFile: string)
    requires disk.Valid()
    modifies disk
    ensures disk.Valid()
    ensures disk.nodes == Cleanup(old(disk.nodes), destinationFile)
  {
    if Exists(disk.nodes, destinationFile) {
      DeleteTreeWellFormed(disk.nodes, Resolve(destinationFile), IsDotName(Name(destinationFile)));
      disk.DeleteRecursively(Resolve(destinationFile), Name(destinationFile));
    }
  }

  /** makeParentDirectoriesIfNotExists(destinationFile). */
  method MakeParentDirectoriesIfNotExists(disk: Disk, destinationFile: string)
    requires disk.Valid()
    modifies disk
    ensures disk.Valid()
    ensures disk.nodes == PrepareDestination(old(disk.nodes), destinationFile)
  {
    PrepareDestinationWellFormed(disk.nodes, destinationFile);
    var parentFile := ParentFile(destinationFile);
    if !Exists(disk.nodes, destinationFile) && parentFile.Some? {
      var made := disk.Mkdirs(Canon(parentFile.value));
    }
  }

  /** writeFileToZip: one entry named `zipEntryName` holding the file's bytes. */
  method WriteFileToZip(disk: Disk, file: seq<string>, zipEntryName: string, zipOutputStream: ZipOutputStream)
    requires FileAt(disk.nodes, file)
    modifies zipOutputStream
    ensures zipOutputStream.Entries() == old(zipOutputStream.Entries()) + [Entry(zipEntryName, disk.nodes[file].data)]
  {
    var fileInputStream := new InputStream(disk.nodes[file].data);
    var byteBuffer := new byte[BUFFER_SIZE];
    zipOutputStream.PutNextEntry(zipEntryName);
    ghost var before := zipOutputStream.closed;
    CopyStream(fileInputStream, zipOutputStream.current, byteBuffer);
    assert fileInputStream.data[0..] == fileInputStream.data;
    assert zipOutputStream.current.written == disk.nodes[file].data;
    assert zipOutputStream.closed == before;
    assert zipOutputStream.open == Some(zipEntryName);
  }

  /** The walk has listed `order` and has `remaining` of `files` still to visit. */
  ghost predicate Walked(files: set<seq<string>>, order: seq<seq<string>>, remaining: set<seq<string>>) {
    && remaining <= files
    && (forall k :: k in order <==> k in files && k !in remaining)
    && (forall i, j :: 0 <= i < j < |order| ==> order[i] != order[j])
  }

  lemma WalkStep(files: set<seq<string>>, order: seq<seq<string>>, remaining: set<seq<string>>, file: seq<string>)
    requires Walked(files, order, remaining) && file in remaining
    ensures Walked(files, order + [file], remaining - {file})
  {
  }

  lemma WalkDone(files: set<seq<string>>, order: seq<seq<string>>)
    requires Walked(files, order, {})
    ensures IsListing(order, files)
  {
  }

  /** Writing the entry for one more file extends the archived entries by it. */
  lemma ArchivedEntriesStep(fs: FsMap, sourceFile: string, order: seq<seq<string>>, file: seq<string>)
    requires BaseForEntryRelativePath(fs, sourceFile).Some?
    ensures ArchivedEntries(fs, sourceFile, order + [file])
         == ArchivedEntries(fs, sourceFile, order) + [EntryFor(fs, BaseForEntryRelativePath(fs, sourceFile).value, file)]
  {
    var base := BaseForEntryRelativePath(fs, sourceFile).value;
    assert EntriesFor(fs, base, order + [file]) == EntriesFor(fs, base, order) + [EntryFor(fs, base, file)];
  }

  /**
   * The forEach of zip: one entry per walked file, in the walk's order, which is
   * unspecified (returned as `order`). False stands for the exception thrown when
   * a file's base cannot be found.
   */
  method WriteEntries(disk: Disk, sourceFile: string, zipOutputStream: ZipOutputStream)
    returns (ok: bool, ghost order: seq<seq<string>>)
    requires WellFormed(disk.nodes) && zipOutputStream.Entries() == []
    modifies zipOutputStream
    ensures ok <==> BaseForEntryRelativePath(disk.nodes, sourceFile).Some? ||
                    FilesToArchive(disk.nodes, Resolve(sourceFile)) == {}
    ensures ok ==> IsListing(order, FilesToArchive(disk.nodes, Resolve(sourceFile)))
    ensures ok ==> zipOutputStream.Entries() == ArchivedEntries(disk.nodes, sourceFile, order)
  {
    ghost var files := FilesToArchive(disk.nodes, Resolve(sourceFile));
    order := [];
    var remaining := FilesToArchive(disk.nodes, Resolve(sourceFile));
    while remaining != {}
      invariant Walked(files, order, remaining)
      invariant zipOutputStream.Entries() == ArchivedEntries(disk.nodes, sourceFile, order)
      invariant order != [] ==> BaseForEntryRelativePath(disk.nodes, sourceFile).Some?
      decreases |remaining|
    {
      var file :| file in remaining;
      var base := BaseForEntryRelativePath(disk.nodes, sourceFile);
      if base.None? {
        return false, order;
      }
      WriteFileToZip(disk, file, EntryName(file, base.value), zipOutputStream);
      ArchivedEntriesStep(disk.nodes, sourceFile, order, file);
      WalkStep(files, order, remaining, file);
      order := order + [file];
      remaining := remaining - {file};
    }
    WalkDone(files, order);
    return true, order;
  }

  /**
   * zip(sourceFile, destinationFile). On success the destination holds the
   * archive of the files below the source, as the walk sees them once the
   * destination has been opened; every failure after the name checks removes
   * the destination.
   */
  method Zip(disk: Disk, codec: ZipCodec, sourceFile: string, destinationFile: string)
    returns (ok: bool, ghost order: seq<seq<string>>)
    requires disk.Valid()
    modifies disk
    ensures disk.Valid()
    ensures IsBlank(Name(sourceFile)) || IsBlank(Name(destinationFile)) ==>
              !ok && disk.nodes == Cleanup(old(disk.nodes), destinationFile)
    ensures !IsBlank(Name(sourceFile)) && !IsBlank(Name(destinationFile)) && !Exists(old(disk.nodes), sourceFile) ==>
              !ok && disk.nodes == old(disk.nodes)
    ensures !IsBlank(Name(sourceFile)) && !IsBlank(Name(destinationFile)) && Exists(old(disk.nodes), sourceFile) ==>
              && ok == ZipCanWrite(old(disk.nodes), sourceFile, destinationFile)
              && (!ok ==> disk.nodes == Cleanup(PrepareDestination(old(disk.nodes), destinationFile), destinationFile))
    ensures ok ==>
              && IsListing(order, FilesToArchive(ZipSnapshot(old(disk.nodes), destinationFile), Resolve(sourceFile)))
              && disk.nodes == ZipWritten(old(disk.nodes), codec, sourceFile, destinationFile, order)
  {
    order := [];
    if IsBlank(Name(sourceFile)) || IsBlank(Name(destinationFile)) {
      CleanupSilently(disk, destinationFile);
      return false, order;
    }
    if !Exists(disk.nodes, sourceFile) {
      return false, order;
    }
    var destination := Resolve(destinationFile);
    ResolveOrdinary(destinationFile);
    MakeParentDirectoriesIfNotExists(disk, destinationFile);
    ghost var prepared := disk.nodes;
    var outputOpened := disk.OpenForWrite(destination, Name(destinationFile));
    if !outputOpened {
      CleanupSilently(disk, destinationFile);
      return false, order;
    }
    CreateFileWellFormed(prepared, destination, []);
    SourceStillWalked(old(disk.nodes), sourceFile, destinationFile);
    ok, order := WriteArchive(disk, codec, sourceFile, destination);
    if !ok {
      CleanupAfterOpen(prepared, destinationFile);
      CleanupSilently(disk, destinationFile);
      return false, order;
    }
    CreateFileWellFormed(prepared, destination, disk.nodes[destination].data);
    assert disk.nodes == prepared[destination := disk.nodes[destination]];
  }

  /**
   * The body of zip's `use` block: the entries are written to the opened
   * destination, which is closed with the archive. Nothing changes on failure.
   */
  method WriteArchive(disk: Disk, codec: ZipCodec, sourceFile: string, destination: seq<string>)
    returns (ok: bool, ghost order: seq<seq<string>>)
    requires WellFormed(disk.nodes) && FileAt(disk.nodes, destination)
    modifies disk
    ensures ok <==> BaseForEntryRelativePath(old(disk.nodes), sourceFile).Some? ||
                    FilesToArchive(old(disk.nodes), Resolve(sourceFile)) == {}
    ensures ok ==> IsListing(order, FilesToArchive(old(disk.nodes), Resolve(sourceFile)))
    ensures ok ==> disk.nodes == old(disk.nodes)[destination := File(codec.encode(ArchivedEntries(old(disk.nodes), sourceFile, order)))]
    ensures !ok ==> disk.nodes == old(disk.nodes)
  {
    var zipOutputStream := new ZipOutputStream();
    ok, order := WriteEntries(disk, sourceFile, zipOutputStream);
    if ok {
      zipOutputStream.CloseEntry();
      assert zipOutputStream.closed == zipOutputStream.Entries();
      disk.Close(destination, codec.encode(zipOutputStream.closed));
    }
  }

  /**
   * An existing source is still there once the destination is opened, and when
   * it has no base it is a file, which the walk visits.
   */
  lemma SourceStillWalked(fs: FsMap, sourceFile: string, destinationFile: string)
    requires WellFormed(fs) && Exists(fs, sourceFile)
    requires CanCreateFile(PrepareDestination(fs, destinationFile), Resolve(destinationFile))
    ensures BaseForEntryRelativePath(ZipSnapshot(fs, destinationFile), sourceFile).None? ==>
              FilesToArchive(ZipSnapshot(fs, destinationFile), Resolve(sourceFile)) != {}
  {
    PrepareDestinationWellFormed(fs, destinationFile);
    var snapshot := ZipSnapshot(fs, destinationFile);
    var source := Resolve(sourceFile);
    assert source in snapshot;
    if FileAt(snapshot, source) {
      assert source[..|source|] == source;
      assert source in FilesToArchive(snapshot, source);
    }
  }

  /** makeExtractionDirectoryIfNotExists(extractionDirectory). */
  method MakeExtractionDirectoryIfNotExists(disk: Disk, extractionDirectory: string)
    modifies disk
    ensures disk.nodes == PrepareExtractionDirectory(old(disk.nodes), extractionDirectory)
  {
    if !Exists(disk.nodes, extractionDirectory) {
      var made := disk.Mkdirs(Resolve(extractionDirectory));
    }
  }

  /** extractZipEntry(entry, extractionDirectory): false stands for the exception. */
  method ExtractZipEntry(disk: Disk, entry: Entry, extractionDirectory: string) returns (ok: bool)
    modifies disk
    ensures (ok, disk.nodes) == ExtractEntry(old(disk.nodes), extractionDirectory, entry)
  {
    var entryFile := EntryTarget(extractionDirectory, entry.name);
    if IsDirectoryEntry(entry) {
      var made := disk.Mkdirs(entryFile);
      return true;
    }
    var made := disk.Mkdirs(EntryParent(extractionDirectory, entry.name));
    ghost var parentMade := disk.nodes;
    assert parentMade == MakeDirs(old(disk.nodes), EntryParent(extractionDirectory, entry.name)).1;
    var zipInputStream := new InputStream(entry.data);
    var byteBuffer := new byte[BUFFER_SIZE];
    ok := disk.OpenForWrite(entryFile, EntryFileName(extractionDirectory, entry.name));
    if !ok {
      assert disk.nodes == parentMade;
      return;
    }
    var fileOutputStream := new OutputStream();
    CopyStream(zipInputStream, fileOutputStream, byteBuffer);
    assert zipInputStream.data[0..] == entry.data;
    assert fileOutputStream.written == entry.data;
    disk.Close(entryFile, fileOutputStream.written);
    assert disk.nodes == parentMade[entryFile := File(entry.data)];
  }

  /**
   * unzip(zipFile, extractionDirectory). Entries already extracted stay when a
   * later one fails.
   */
  method Unzip(disk: Disk, codec: ZipCodec, zipFile: string, extractionDirectory: string) returns (ok: bool)
    requires disk.Valid()
    modifies disk
    ensures disk.Valid()
    ensures (ok, disk.nodes) == UnzipResult(old(disk.nodes), codec, zipFile, extractionDirectory)
  {
    UnzipWellFormed(disk.nodes, codec, zipFile, extractionDirectory);
    if IsBlank(Name(zipFile)) || IsBlank(Name(extractionDirectory)) {
      return false;
    }
    MakeExtractionDirectoryIfNotExists(disk, extractionDirectory);
    if !(Exists(disk.nodes, zipFile) && IsDirectory(disk.nodes, extractionDirectory)) {
      return false;
    }
    var zipEntries := ReadArchive(disk.nodes, codec, zipFile);
    if zipEntries.None? {
      return false;
    }
    ghost var prepared := disk.nodes;
    var entries := zipEntries.value;
    var i := 0;
    while i < |entries|
      invariant 0 <= i <= |entries|
      invariant ExtractAll(prepared, extractionDirectory, entries) == ExtractAll(disk.nodes, extractionDirectory, entries[i..])
    {
      var entry := entries[i];
      assert entries[i..][1..] == entries[i + 1..];
      if !VerifyNoZipSlip(extractionDirectory, entry.name) {
        return false;
      }
      ok := ExtractZipEntry(disk, entry, extractionDirectory);
      if !ok {
        return false;
      }
      i := i + 1;
    }
    return true;
  }
}
