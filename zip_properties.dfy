/**
 * What zip and unzip promise, proved about the functions that specify them:
 * entry names are paths relative to the source, unzip never writes outside the
 * extraction directory, a failure keeps what was already extracted, and
 * unzipping what zip wrote into an empty directory reproduces the source tree.
 */
module ZipProperties {
  import opened Wrappers
  import opened Paths
  import opened FileSystem
  import opened Streams
  import opened ZipUtil

  // ----- entry names -----

  /** Below a directory source, an entry is named by the file's path relative to it. */
  lemma EntryNameOfDescendant(k: seq<string>, base: seq<string>)
    requires AllOrdinary(k) && StrictlyUnder(k, base)
    ensures Split(EntryName(k, base)) == k[|base|..]
    ensures |EntryName(k, base)| > 0 && EntryName(k, base)[|EntryName(k, base)| - 1] != Separator
  {
    RelativeToDescendant(k, base);
    var rel := k[|base|..];
    OrdinarySuffix(k, |base|);
    SplitJoin(rel);
    JoinEndsWithLastSegment(rel);
    var last := rel[|rel| - 1];
    assert IsSegment(last);
    assert last[|last| - 1] != Separator;
  }

  lemma OrdinarySuffix(k: seq<string>, n: nat)
    requires AllOrdinary(k) && n < |k|
    ensures AllSegments(k[n..]) && k[n..] != []
  {
    forall i | 0 <= i < |k[n..]| ensures IsSegment(k[n..][i]) {
      assert k[n..][i] == k[n + i];
    }
  }

  lemma WithinDistinct(k: seq<string>, base: seq<string>)
    requires Within(k, base) && k != base
    ensures StrictlyUnder(k, base)
  {
    assert k[..|k|] == k;
  }

  /** Two files of a directory source never share an entry name. */
  lemma EntryNamesDistinct(fs: FsMap, source: seq<string>, k1: seq<string>, k2: seq<string>)
    requires WellFormed(fs) && DirAt(fs, source)
    requires k1 in FilesToArchive(fs, source) && k2 in FilesToArchive(fs, source) && k1 != k2
    ensures EntryName(k1, source) != EntryName(k2, source)
  {
    WithinDistinct(k1, source);
    WithinDistinct(k2, source);
    EntryNameOfDescendant(k1, source);
    EntryNameOfDescendant(k2, source);
    assert k1 == source + k1[|source|..];
    assert k2 == source + k2[|source|..];
  }

  /** A duplicate-free listing of a set is as long as the set is large. */
  lemma {:induction false} ListingLength(order: seq<seq<string>>, files: set<seq<string>>)
    requires IsListing(order, files)
    ensures |order| == |files|
    decreases |order|
  {
    if order == [] {
      assert forall k | k in files :: k in order;
      assert files == {};
    } else {
      var last := order[|order| - 1];
      var rest := order[..|order| - 1];
      assert forall i | 0 <= i < |rest| :: rest[i] == order[i] && order[i] != last;
      assert forall k | k in order :: k in rest || k == last;
      ListingLength(rest, files - {last});
    }
  }

  /** The only listing of a single path is that path alone. */
  lemma ListingOfOne(order: seq<seq<string>>, file: seq<string>)
    requires IsListing(order, {file})
    ensures order == [file]
  {
    ListingLength(order, {file});
    assert order[0] in order;
  }

  /**
   * Zipping one regular file that has a parent gives an archive of one entry,
   * named by the file's own name and holding its bytes.
   */
  lemma ZipSingleFile(fs: FsMap, sourceFile: string, order: seq<seq<string>>)
    requires WellFormed(fs) && IsFile(fs, sourceFile) && ParentFile(sourceFile).Some?
    requires IsOrdinary(Name(sourceFile))
    requires IsListing(order, FilesToArchive(fs, Resolve(sourceFile)))
    ensures order == [Resolve(sourceFile)]
    ensures ArchivedEntries(fs, sourceFile, order) == [Entry(Name(sourceFile), fs[Resolve(sourceFile)].data)]
  {
    var source := Resolve(sourceFile);
    FileArchivedAlone(fs, source);
    ListingOfOne(order, source);
    var base := BaseForEntryRelativePath(fs, sourceFile).value;
    assert source == base + [Name(sourceFile)];
    EntryNameOfChild(base, Name(sourceFile));
  }

  /** The entry name of a child of the base is the child's name. */
  lemma EntryNameOfChild(base: seq<string>, name: string)
    ensures EntryName(base + [name], base) == name
  {
    RelativeToDescendant(base + [name], base);
    assert (base + [name])[|base|..] == [name];
  }

  /** The archive zip wrote reads back as the entries it archived. */
  lemma ArchiveReadsBackEntries(fs: FsMap, codec: ZipCodec, sourceFile: string, destinationFile: string,
                                order: seq<seq<string>>)
    requires Faithful(codec)
    ensures ReadArchive(ZipWritten(fs, codec, sourceFile, destinationFile, order), codec, destinationFile)
         == Some(ArchivedEntries(ZipSnapshot(fs, destinationFile), sourceFile, order))
  {
    var entries := ArchivedEntries(ZipSnapshot(fs, destinationFile), sourceFile, order);
    var archived := ZipWritten(fs, codec, sourceFile, destinationFile, order);
    assert archived[Resolve(destinationFile)] == File(codec.encode(entries));
  }

  /** The archive zip wrote for a directory source reads back as its entries. */
  lemma ArchiveReadsBack(fs: FsMap, codec: ZipCodec, sourceFile: string, destinationFile: string,
                         order: seq<seq<string>>)
    requires WellFormed(fs) && Faithful(codec) && IsDirectory(fs, sourceFile)
    requires ZipCanWrite(fs, sourceFile, destinationFile)
    ensures ReadArchive(ZipWritten(fs, codec, sourceFile, destinationFile, order), codec, destinationFile)
         == Some(EntriesFor(ZipSnapshot(fs, destinationFile), Resolve(sourceFile), order))
  {
    var snapshot := SnapshotOfDirectory(fs, sourceFile, destinationFile);
    ArchiveReadsBackEntries(fs, codec, sourceFile, destinationFile, order);
  }

  /**
   * Zipping a directory with a faithful codec: the archive reads back as one
   * entry per walked file, in the walk's order, named by the path relative to
   * the source and holding the file's bytes.
   */
  lemma ZipDirectoryEntries(fs: FsMap, codec: ZipCodec, sourceFile: string, destinationFile: string,
                            order: seq<seq<string>>)
    requires WellFormed(fs) && Faithful(codec) && IsDirectory(fs, sourceFile)
    requires ZipCanWrite(fs, sourceFile, destinationFile)
    requires IsListing(order, FilesToArchive(ZipSnapshot(fs, destinationFile), Resolve(sourceFile)))
    ensures var snapshot := ZipSnapshot(fs, destinationFile);
            var entries := ReadArchive(ZipWritten(fs, codec, sourceFile, destinationFile, order), codec, destinationFile);
            && entries.Some? && |entries.value| == |order|
            && forall i | 0 <= i < |order| ::
                 && Resolve(sourceFile) + Split(entries.value[i].name) == order[i]
                 && !IsDirectoryEntry(entries.value[i])
                 && FileAt(snapshot, order[i]) && entries.value[i].data == snapshot[order[i]].data
  {
    ArchiveReadsBack(fs, codec, sourceFile, destinationFile, order);
    var snapshot := SnapshotOfDirectory(fs, sourceFile, destinationFile);
    var source := Resolve(sourceFile);
    var entries := EntriesFor(snapshot, source, order);
    forall i | 0 <= i < |order|
      ensures source + Split(entries[i].name) == order[i]
      ensures !IsDirectoryEntry(entries[i])
      ensures FileAt(snapshot, order[i]) && entries[i].data == snapshot[order[i]].data
    {
      assert order[i] in order;
      FileEntry(snapshot, source, order[i]);
    }
  }

  /** The entry written for a walked file of a directory source. */
  lemma FileEntry(fs: FsMap, source: seq<string>, k: seq<string>)
    requires WellFormed(fs) && DirAt(fs, source) && k in FilesToArchive(fs, source)
    ensures StrictlyUnder(k, source)
    ensures source + Split(EntryFor(fs, source, k).name) == k
    ensures !IsDirectoryEntry(EntryFor(fs, source, k))
    ensures EntryFor(fs, source, k).data == fs[k].data
  {
    WithinDistinct(k, source);
    EntryNameOfDescendant(k, source);
    assert k == source + k[|source|..];
  }

  /**
   * The walk's view of a directory source: the snapshot is well formed, the
   * source is still a directory in it and is its own base.
   */
  lemma SnapshotOfDirectory(fs: FsMap, sourceFile: string, destinationFile: string) returns (snapshot: FsMap)
    requires WellFormed(fs) && IsDirectory(fs, sourceFile)
    requires ZipCanWrite(fs, sourceFile, destinationFile)
    ensures snapshot == ZipSnapshot(fs, destinationFile)
    ensures WellFormed(snapshot) && IsDirectory(snapshot, sourceFile)
    ensures BaseForEntryRelativePath(snapshot, sourceFile) == Some(Resolve(sourceFile))
    ensures FileAt(snapshot, Resolve(destinationFile))
  {
    snapshot := ZipSnapshot(fs, destinationFile);
    SnapshotWellFormed(fs, destinationFile);
  }

  /**
   * Opening the destination keeps the tree well formed, creates the
   * destination and changes no other existing node.
   */
  lemma SnapshotWellFormed(fs: FsMap, destinationFile: string)
    requires WellFormed(fs) && CanCreateFile(PrepareDestination(fs, destinationFile), Resolve(destinationFile))
    ensures WellFormed(ZipSnapshot(fs, destinationFile))
    ensures FileAt(ZipSnapshot(fs, destinationFile), Resolve(destinationFile))
    ensures forall q | q in fs && q != Resolve(destinationFile) ::
              q in ZipSnapshot(fs, destinationFile) && ZipSnapshot(fs, destinationFile)[q] == fs[q]
  {
    PrepareDestinationWellFormed(fs, destinationFile);
    CreateFileWellFormed(PrepareDestination(fs, destinationFile), Resolve(destinationFile), []);
  }

  // ----- unzip stays inside the extraction directory -----

  /**
   * `after` only adds paths strictly below `directory` and changes nothing that
   * is not strictly below it.
   */
  ghost predicate Confined(before: FsMap, after: FsMap, directory: seq<string>) {
    && before.Keys <= after.Keys
    && (forall q | q in after && q !in before :: StrictlyUnder(q, directory))
    && (forall q | q in before && !StrictlyUnder(q, directory) :: after[q] == before[q])
  }

  /** The missing prefixes of a path within `directory` all lie strictly below it. */
  lemma PrefixesOutsideExist(fs: FsMap, directory: seq<string>, p: seq<string>)
    requires WellFormed(fs) && directory in fs && Within(p, directory)
    ensures forall q | Within(p, q) && !StrictlyUnder(q, directory) :: q in fs
  {
    forall q | Within(p, q) && !StrictlyUnder(q, directory) ensures q in fs {
      assert |q| <= |directory|;
      assert Within(directory, q);
      PresentAbove(fs, directory, q);
    }
  }

  /** mkdirs of a path within `directory` is confined to it. */
  lemma MakeDirsConfined(fs: FsMap, directory: seq<string>, p: seq<string>)
    requires WellFormed(fs) && directory in fs && Within(p, directory)
    ensures Confined(fs, MakeDirs(fs, p).1, directory)
  {
    PrefixesOutsideExist(fs, directory, p);
  }

  /** A file entry's parent lies within the directory when its target lies below it. */
  lemma EntryParentWithin(extractionDirectory: string, entryName: string)
    requires StrictlyUnder(EntryTarget(extractionDirectory, entryName), Resolve(extractionDirectory))
    ensures Within(EntryParent(extractionDirectory, entryName), Resolve(extractionDirectory))
  {
    var p := Locate(extractionDirectory) + Split(entryName);
    assert p != [];
    var c := Canon(p[..|p| - 1]);
    var t := Canon(p);
    assert t == c || t == c + [p[|p| - 1]] || (c != [] && t == c[..|c| - 1]) || t == [];
  }

  /** Extracting an entry that passed the zip slip check is confined to the directory. */
  lemma ExtractEntryConfined(fs: FsMap, extractionDirectory: string, entry: Entry)
    requires WellFormed(fs) && DirAt(fs, Resolve(extractionDirectory))
    requires VerifyNoZipSlip(extractionDirectory, entry.name)
    ensures WellFormed(ExtractEntry(fs, extractionDirectory, entry).1)
    ensures Confined(fs, ExtractEntry(fs, extractionDirectory, entry).1, Resolve(extractionDirectory))
  {
    ExtractEntryWellFormed(fs, extractionDirectory, entry);
    var directory := Resolve(extractionDirectory);
    var target := EntryTarget(extractionDirectory, entry.name);
    if IsDirectoryEntry(entry) {
      MakeDirsConfined(fs, directory, target);
    } else {
      EntryParentWithin(extractionDirectory, entry.name);
      MakeDirsConfined(fs, directory, EntryParent(extractionDirectory, entry.name));
    }
  }

  lemma {:induction false} ExtractAllConfined(fs: FsMap, extractionDirectory: string, entries: seq<Entry>)
    requires WellFormed(fs) && DirAt(fs, Resolve(extractionDirectory))
    ensures WellFormed(ExtractAll(fs, extractionDirectory, entries).1)
    ensures Confined(fs, ExtractAll(fs, extractionDirectory, entries).1, Resolve(extractionDirectory))
    decreases |entries|
  {
    if entries != [] && VerifyNoZipSlip(extractionDirectory, entries[0].name) {
      ExtractEntryConfined(fs, extractionDirectory, entries[0]);
      var fs1 := ExtractEntry(fs, extractionDirectory, entries[0]).1;
      ExtractAllConfined(fs1, extractionDirectory, entries[1..]);
    }
  }

  /**
   * Whatever the archive holds, unzip deletes nothing, adds only the extraction
   * directory (with its missing ancestors) and paths below it, and changes no
   * path that is not below it.
   */
  lemma UnzipConfined(fs: FsMap, codec: ZipCodec, zipFile: string, extractionDirectory: string)
    requires WellFormed(fs)
    ensures var r := UnzipResult(fs, codec, zipFile, extractionDirectory).1;
            var directory := Resolve(extractionDirectory);
            && fs.Keys <= r.Keys
            && (forall q | q in fs && !StrictlyUnder(q, directory) :: r[q] == fs[q])
            && (forall q | q in r && q !in fs :: Within(directory, q) || StrictlyUnder(q, directory))
  {
    var directory := Resolve(extractionDirectory);
    if !Exists(fs, extractionDirectory) {
      ResolveOrdinary(extractionDirectory);
      MakeDirsWellFormed(fs, directory);
    }
    var fs1 := PrepareExtractionDirectory(fs, extractionDirectory);
    if IsDirectory(fs1, extractionDirectory) && ReadArchive(fs1, codec, zipFile).Some? {
      ExtractAllConfined(fs1, extractionDirectory, ReadArchive(fs1, codec, zipFile).value);
    }
  }

  /** Extraction into the root rejects the first entry: "/" + "/" starts no canonical path. */
  lemma ExtractIntoRootRejected(fs: FsMap, extractionDirectory: string, entries: seq<Entry>)
    requires Resolve(extractionDirectory) == [] && entries != []
    ensures ExtractAll(fs, extractionDirectory, entries) == (false, fs)
  {
  }

  // ----- blank names -----

  /** The root and the empty path have the empty name, which is blank. */
  lemma EmptyNameIsBlank(path: string)
    requires Split(path) == []
    ensures Name(path) == "" && IsBlank(Name(path))
  {
  }

  /** unzip refuses a blank archive or directory name before touching the filesystem. */
  lemma UnzipRefusesBlankNames(fs: FsMap, codec: ZipCodec, zipFile: string, extractionDirectory: string)
    requires IsBlank(Name(zipFile)) || IsBlank(Name(extractionDirectory))
    ensures UnzipResult(fs, codec, zipFile, extractionDirectory) == (false, fs)
  {
  }

  // ----- relative paths -----

  /** A single segment splits into itself. */
  lemma SplitSegment(s: string)
    requires IsSegment(s)
    ensures Split(s) == [s]
  {
    SplitJoin([s]);
  }

  /**
   * A relative extraction directory that names the working directory, such as
   * ".", is not the root: an entry with an ordinary name is accepted and lands
   * directly below the working directory.
   */
  lemma WorkingDirectoryExtraction(name: string)
    requires IsOrdinary(name)
    ensures Resolve(".") == WorkingDirectory
    ensures EntryTarget(".", name) == WorkingDirectory + [name]
    ensures VerifyNoZipSlip(".", name)
  {
    SplitSegment(".");
    SplitSegment(name);
    var here := WorkingDirectory + ["."];
    assert here[..|here| - 1] == WorkingDirectory;
    CanonOfOrdinary(WorkingDirectory);
    assert Locate(".") == here;
    CanonAppend(here, [name]);
  }

  /**
   * cleanupSilently of "." deletes everything below the working directory but
   * keeps the directory itself, since removing "." is refused.
   */
  lemma CleanupOfWorkingDirectory(fs: FsMap)
    requires WellFormed(fs) && DirAt(fs, WorkingDirectory)
    ensures DirAt(Cleanup(fs, "."), WorkingDirectory)
    ensures forall q | q in Cleanup(fs, ".") :: !StrictlyUnder(q, WorkingDirectory)
  {
    SplitSegment(".");
    var here := WorkingDirectory + ["."];
    assert here[..|here| - 1] == WorkingDirectory;
    CanonOfOrdinary(WorkingDirectory);
    assert Locate(".") == here;
    CleanupRemoves(fs, ".");
  }

  /** A relative path and the absolute path with the same segments name different files. */
  lemma RelativeIsNotAbsolute(name: string)
    requires IsOrdinary(name)
    ensures Resolve(name) == WorkingDirectory + [name]
    ensures Resolve([Separator] + name) == [name]
    ensures Resolve(name) != Resolve([Separator] + name)
  {
    SplitSegment(name);
    SplitSeparator(name);
  }

  // ----- no rollback -----

  /**
   * Extracting `a + b` is extracting `a` and then, only if that succeeded,
   * extracting `b` from where `a` left the filesystem.
   */
  lemma {:induction false} ExtractAllAppend(fs: FsMap, extractionDirectory: string, a: seq<Entry>, b: seq<Entry>)
    ensures ExtractAll(fs, extractionDirectory, a + b) ==
            var first := ExtractAll(fs, extractionDirectory, a);
            if first.0 then ExtractAll(first.1, extractionDirectory, b) else first
    decreases |a|
  {
    if a == [] {
      assert a + b == b;
    } else {
      assert (a + b)[0] == a[0];
      assert (a + b)[1..] == a[1..] + b;
      if VerifyNoZipSlip(extractionDirectory, a[0].name) {
        var fs1 := ExtractEntry(fs, extractionDirectory, a[0]).1;
        ExtractAllAppend(fs1, extractionDirectory, a[1..], b);
      }
    }
  }

  /**
   * An unsafe entry makes unzip fail, and every entry before it stays
   * extracted.
   */
  lemma UnsafeEntryKeepsEarlierEntries(fs: FsMap, extractionDirectory: string, a: seq<Entry>,
                                       unsafe: Entry, b: seq<Entry>)
    requires ExtractAll(fs, extractionDirectory, a).0
    requires !VerifyNoZipSlip(extractionDirectory, unsafe.name)
    ensures ExtractAll(fs, extractionDirectory, a + [unsafe] + b) == (false, ExtractAll(fs, extractionDirectory, a).1)
  {
    var rest := [unsafe] + b;
    assert a + [unsafe] + b == a + rest;
    ExtractAllAppend(fs, extractionDirectory, a, rest);
    UnsafeHeadRejected(ExtractAll(fs, extractionDirectory, a).1, extractionDirectory, rest);
  }

  /** Extraction stops at an unsafe first entry and changes nothing. */
  lemma UnsafeHeadRejected(fs: FsMap, extractionDirectory: string, entries: seq<Entry>)
    requires entries != [] && !VerifyNoZipSlip(extractionDirectory, entries[0].name)
    ensures ExtractAll(fs, extractionDirectory, entries) == (false, fs)
  {
  }

  // ----- zip then unzip -----

  /**
   * Every path strictly below `directory` in `out` mirrors, node for node, the
   * path at the same position below `source` in `src`.
   */
  ghost predicate Mirrors(out: FsMap, directory: seq<string>, src: FsMap, source: seq<string>) {
    forall q | q in out && StrictlyUnder(q, directory) ::
      source + q[|directory|..] in src && out[q] == src[source + q[|directory|..]]
  }

  /** Where unzip puts an entry whose name splits into the ordinary path `rel`. */
  lemma EntryPathsOfRelative(extractionDirectory: string, name: string, rel: seq<string>)
    requires Split(name) == rel && AllOrdinary(rel) && rel != []
    ensures EntryTarget(extractionDirectory, name) == Resolve(extractionDirectory) + rel
    ensures EntryParent(extractionDirectory, name) == Resolve(extractionDirectory) + rel[..|rel| - 1]
  {
    CanonAppend(Locate(extractionDirectory), rel);
    EntryParentOfRelative(extractionDirectory, name, rel);
  }

  lemma EntryParentOfRelative(extractionDirectory: string, name: string, rel: seq<string>)
    requires Split(name) == rel && AllOrdinary(rel) && rel != []
    ensures EntryParent(extractionDirectory, name) == Resolve(extractionDirectory) + rel[..|rel| - 1]
  {
    EntryParentOfName(extractionDirectory, name, Locate(extractionDirectory), rel);
    CanonAppendInit(Locate(extractionDirectory), rel);
  }

  /** The entry's parent is the directory followed by all of the name but its last segment. */
  lemma EntryParentOfName(extractionDirectory: string, name: string, d: seq<string>, n: seq<string>)
    requires Locate(extractionDirectory) == d && Split(name) == n && n != []
    ensures EntryParent(extractionDirectory, name) == Canon(d + n[..|n| - 1])
  {
    InitOfAppend(d, n);
    assert Init(d + n) == d + n[..|n| - 1];
  }

  /** All but the last element of `a + b`, for a non-empty `b`. */
  lemma InitOfAppend<T>(a: seq<T>, b: seq<T>)
    requires b != []
    ensures (a + b)[..|a + b| - 1] == a + b[..|b| - 1]
  {
  }

  lemma CanonAppendInit(d: seq<string>, rel: seq<string>)
    requires AllOrdinary(rel) && rel != []
    ensures Canon(d + rel[..|rel| - 1]) == Canon(d) + rel[..|rel| - 1]
  {
    OrdinaryPrefix(rel, |rel| - 1);
    CanonAppend(d, rel[..|rel| - 1]);
  }

  lemma OrdinaryPrefix(p: seq<string>, n: nat)
    requires AllOrdinary(p) && n <= |p|
    ensures AllOrdinary(p[..n])
  {
    forall i | 0 <= i < n ensures IsOrdinary(p[..n][i]) {
      assert p[..n][i] == p[i];
    }
  }

  /** The entry zip wrote for a file below a directory source, as unzip sees it. */
  lemma ArchivedEntryShape(src: FsMap, source: seq<string>, k: seq<string>, extractionDirectory: string)
    requires WellFormed(src) && FileAt(src, k) && StrictlyUnder(k, source)
    ensures var entry := EntryFor(src, source, k);
            var rel := k[|source|..];
            && entry.data == src[k].data
            && !IsDirectoryEntry(entry)
            && EntryTarget(extractionDirectory, entry.name) == Resolve(extractionDirectory) + rel
            && EntryParent(extractionDirectory, entry.name) == Resolve(extractionDirectory) + rel[..|rel| - 1]
            && (Resolve(extractionDirectory) != [] ==> VerifyNoZipSlip(extractionDirectory, entry.name))
  {
    var rel := k[|source|..];
    var name := EntryName(k, source);
    assert forall i | 0 <= i < |rel| :: rel[i] == k[|source| + i];
    EntryNameOfDescendant(k, source);
    EntryPathsOfRelative(extractionDirectory, name, rel);
  }

  /** A proper prefix of `k` below `source`, seen from the mirror. */
  lemma MirrorPrefix(directory: seq<string>, source: seq<string>, k: seq<string>, q: seq<string>)
    requires StrictlyUnder(k, source) && StrictlyUnder(q, directory)
    requires Within(directory + k[|source|..], q)
    ensures source + q[|directory|..] == k[..|source| + |q| - |directory|]
  {
    var rel := k[|source|..];
    assert q[|directory|..] == rel[..|q| - |directory|];
    assert k == source + rel;
  }

  /**
   * mkdirs of the parent of a mirrored file's position succeeds and keeps the
   * mirror: the directories it makes are directories in the source too.
   */
  lemma MirrorMakeDirs(out: FsMap, directory: seq<string>, src: FsMap, source: seq<string>, k: seq<string>)
    requires WellFormed(out) && WellFormed(src) && AllOrdinary(directory) && DirAt(out, directory)
    requires Mirrors(out, directory, src, source)
    requires FileAt(src, k) && StrictlyUnder(k, source)
    ensures var rel := k[|source|..];
            var parent := directory + rel[..|rel| - 1];
            && DirAt(MakeDirs(out, parent).1, parent)
            && Mirrors(MakeDirs(out, parent).1, directory, src, source)
  {
    var rel := k[|source|..];
    var parent := directory + rel[..|rel| - 1];
    MirrorParentDirs(out, directory, src, source, k);
    MakeDirsMakesDir(out, parent);
    var fs1 := MakeDirs(out, parent).1;
    forall q | q in fs1 && StrictlyUnder(q, directory) && q !in out
      ensures source + q[|directory|..] in src && fs1[q] == src[source + q[|directory|..]]
    {
      MirrorPrefix(directory, source, k, q);
    }
  }

  /** Whatever already exists along the parent of a mirrored file's position is a directory. */
  lemma MirrorParentDirs(out: FsMap, directory: seq<string>, src: FsMap, source: seq<string>, k: seq<string>)
    requires WellFormed(out) && WellFormed(src) && AllOrdinary(directory) && DirAt(out, directory)
    requires Mirrors(out, directory, src, source)
    requires FileAt(src, k) && StrictlyUnder(k, source)
    ensures var rel := k[|source|..];
            var parent := directory + rel[..|rel| - 1];
            && AllOrdinary(parent)
            && forall j | 0 <= j <= |parent| && parent[..j] in out :: out[parent[..j]] == Dir
  {
    var rel := k[|source|..];
    var parent := directory + rel[..|rel| - 1];
    assert forall i | 0 <= i < |rel| :: rel[i] == k[|source| + i];
    assert AllOrdinary(parent);
    forall j | 0 <= j <= |parent| && parent[..j] in out ensures out[parent[..j]] == Dir {
      if j < |directory| {
        assert parent[..j] == directory[..j];
      } else if j == |directory| {
        assert parent[..j] == directory;
      } else {
        MirrorPrefix(directory, source, k, parent[..j]);
      }
    }
  }

  /** Writing a mirrored file at its position keeps the mirror. */
  lemma MirrorWriteFile(fs1: FsMap, directory: seq<string>, src: FsMap, source: seq<string>, k: seq<string>)
    requires DirAt(fs1, directory) && Mirrors(fs1, directory, src, source)
    requires FileAt(src, k) && StrictlyUnder(k, source)
    requires DirAt(fs1, (directory + k[|source|..])[..|directory + k[|source|..]| - 1])
    ensures CanCreateFile(fs1, directory + k[|source|..])
    ensures Mirrors(fs1[directory + k[|source|..] := File(src[k].data)], directory, src, source)
  {
    var rel := k[|source|..];
    var target := directory + rel;
    assert target[|directory|..] == rel;
    assert k == source + rel;
  }

  /** Unzipping one archived file into a mirror keeps it a mirror and adds the file's copy. */
  lemma ExtractMirroredStep(out: FsMap, extractionDirectory: string, src: FsMap, source: seq<string>, k: seq<string>)
    requires WellFormed(out) && WellFormed(src) && DirAt(src, source)
    requires Resolve(extractionDirectory) != [] && DirAt(out, Resolve(extractionDirectory))
    requires Mirrors(out, Resolve(extractionDirectory), src, source)
    requires FileAt(src, k) && StrictlyUnder(k, source)
    ensures var entry := EntryFor(src, source, k);
            var r := ExtractEntry(out, extractionDirectory, entry);
            && VerifyNoZipSlip(extractionDirectory, entry.name) && r.0
            && WellFormed(r.1) && Confined(out, r.1, Resolve(extractionDirectory))
            && Mirrors(r.1, Resolve(extractionDirectory), src, source)
            && Resolve(extractionDirectory) + k[|source|..] in r.1
  {
    var directory := Resolve(extractionDirectory);
    var entry := EntryFor(src, source, k);
    ArchivedEntryShape(src, source, k, extractionDirectory);
    ExtractEntryConfined(out, extractionDirectory, entry);
    MirrorFileStep(out, directory, src, source, k);
    ExtractFileEntry(out, extractionDirectory, entry);
  }

  /** mkdirs of a mirrored file's parent, then writing the file, keeps the mirror. */
  lemma MirrorFileStep(out: FsMap, directory: seq<string>, src: FsMap, source: seq<string>, k: seq<string>)
    requires WellFormed(out) && WellFormed(src) && AllOrdinary(directory) && DirAt(out, directory)
    requires Mirrors(out, directory, src, source)
    requires FileAt(src, k) && StrictlyUnder(k, source)
    ensures var rel := k[|source|..];
            var made := MakeDirs(out, directory + rel[..|rel| - 1]).1;
            && CanCreateFile(made, directory + rel)
            && Mirrors(made[directory + rel := File(src[k].data)], directory, src, source)
  {
    var rel := k[|source|..];
    var parent := directory + rel[..|rel| - 1];
    var target := directory + rel;
    MirrorMakeDirs(out, directory, src, source, k);
    var fs1 := MakeDirs(out, parent).1;
    assert target[..|target| - 1] == parent;
    MirrorWriteFile(fs1, directory, src, source, k);
  }

  /** What unzip does with a file entry whose target it can create. */
  lemma ExtractFileEntry(fs: FsMap, extractionDirectory: string, entry: Entry)
    requires !IsDirectoryEntry(entry) && !IsDotName(EntryFileName(extractionDirectory, entry.name))
    requires CanCreateFile(MakeDirs(fs, EntryParent(extractionDirectory, entry.name)).1, EntryTarget(extractionDirectory, entry.name))
    ensures ExtractEntry(fs, extractionDirectory, entry)
         == (true, MakeDirs(fs, EntryParent(extractionDirectory, entry.name)).1[EntryTarget(extractionDirectory, entry.name) := File(entry.data)])
  {
  }

  lemma {:induction false} ExtractMirrored(out: FsMap, extractionDirectory: string, src: FsMap, source: seq<string>,
                                           order: seq<seq<string>>)
    requires WellFormed(out) && WellFormed(src) && DirAt(src, source)
    requires Resolve(extractionDirectory) != [] && DirAt(out, Resolve(extractionDirectory))
    requires Mirrors(out, Resolve(extractionDirectory), src, source)
    requires forall k | k in order :: FileAt(src, k) && StrictlyUnder(k, source)
    ensures forall k | k in order && StrictlyUnder(k, source) ::
              Resolve(extractionDirectory) + k[|source|..] in ExtractAll(out, extractionDirectory, EntriesFor(src, source, order)).1
    ensures var r := ExtractAll(out, extractionDirectory, EntriesFor(src, source, order));
            && r.0 && WellFormed(r.1) && Confined(out, r.1, Resolve(extractionDirectory))
            && Mirrors(r.1, Resolve(extractionDirectory), src, source)
    decreases |order|
  {
    var directory := Resolve(extractionDirectory);
    var entries := EntriesFor(src, source, order);
    if order == [] {
      assert entries == [];
    } else {
      var k := order[0];
      assert entries[0] == EntryFor(src, source, k);
      assert entries[1..] == EntriesFor(src, source, order[1..]);
      ExtractMirroredStep(out, extractionDirectory, src, source, k);
      var fs1 := ExtractEntry(out, extractionDirectory, entries[0]).1;
      ExtractAllCons(out, extractionDirectory, entries);
      assert forall k' | k' in order[1..] :: k' in order;
      ExtractMirrored(fs1, extractionDirectory, src, source, order[1..]);
      var r := ExtractAll(fs1, extractionDirectory, entries[1..]).1;
      ConfinedTrans(out, fs1, r, directory);
      forall k' | k' in order ensures directory + k'[|source|..] in r {
        if k' == k {
          assert directory + k[|source|..] in fs1;
        } else {
          assert k' in order[1..];
        }
      }
      assert ExtractAll(out, extractionDirectory, entries).1 == r;
    }
  }

  /** A successful first entry hands its filesystem to the rest. */
  lemma ExtractAllCons(fs: FsMap, extractionDirectory: string, entries: seq<Entry>)
    requires entries != [] && VerifyNoZipSlip(extractionDirectory, entries[0].name)
    requires ExtractEntry(fs, extractionDirectory, entries[0]).0
    ensures ExtractAll(fs, extractionDirectory, entries)
         == ExtractAll(ExtractEntry(fs, extractionDirectory, entries[0]).1, extractionDirectory, entries[1..])
  {
  }

  lemma ConfinedTrans(a: FsMap, b: FsMap, c: FsMap, directory: seq<string>)
    requires Confined(a, b, directory) && Confined(b, c, directory)
    ensures Confined(a, c, directory)
  {
  }

  /** The extraction directory exists, is not the root and is empty. */
  ghost predicate EmptyDirectory(fs: FsMap, extractionDirectory: string) {
    && Resolve(extractionDirectory) != []
    && IsDirectory(fs, extractionDirectory)
    && forall q | q in fs :: !StrictlyUnder(q, Resolve(extractionDirectory))
  }

  /**
   * unzip can use the extraction directory: it is not the root, and it is
   * either an empty directory or it does not exist yet and mkdirs can make it
   * (every part of its path that exists is a directory).
   */
  ghost predicate ExtractionReady(fs: FsMap, extractionDirectory: string) {
    var directory := Resolve(extractionDirectory);
    && extractionDirectory != "" && directory != []
    && (|| EmptyDirectory(fs, extractionDirectory)
        || (&& directory !in fs
            && forall j | 0 <= j <= |directory| && directory[..j] in fs :: fs[directory[..j]] == Dir))
  }

  /** makeExtractionDirectoryIfNotExists turns a ready directory into an empty one. */
  lemma PreparedEmpty(fs: FsMap, extractionDirectory: string)
    requires WellFormed(fs) && ExtractionReady(fs, extractionDirectory)
    ensures WellFormed(PrepareExtractionDirectory(fs, extractionDirectory))
    ensures EmptyDirectory(PrepareExtractionDirectory(fs, extractionDirectory), extractionDirectory)
  {
    var directory := Resolve(extractionDirectory);
    if !Exists(fs, extractionDirectory) {
      MakeDirsWellFormed(fs, directory);
      MakeDirsMakesDir(fs, directory);
      var made := MakeDirs(fs, directory).1;
      forall q | q in made ensures !StrictlyUnder(q, directory) {
        if q in fs && StrictlyUnder(q, directory) {
          PresentAbove(fs, q, directory);
        }
      }
    }
  }

  /**
   * Zip a directory, then unzip the archive into an empty directory or one that
   * unzip makes: unzip succeeds, and below the extraction directory there is a
   * file exactly where the source (as the walk saw it) had one, with the same
   * bytes, and a directory only where the source had one.
   */
  lemma ZipUnzipRoundTrip(fs: FsMap, codec: ZipCodec, sourceFile: string, destinationFile: string,
                          extractionDirectory: string, order: seq<seq<string>>)
    requires WellFormed(fs) && Faithful(codec) && IsDirectory(fs, sourceFile)
    requires ZipCanWrite(fs, sourceFile, destinationFile)
    requires IsListing(order, FilesToArchive(ZipSnapshot(fs, destinationFile), Resolve(sourceFile)))
    requires !IsBlank(Name(destinationFile)) && !IsBlank(Name(extractionDirectory))
    requires ExtractionReady(ZipWritten(fs, codec, sourceFile, destinationFile, order), extractionDirectory)
    ensures var snapshot := ZipSnapshot(fs, destinationFile);
            var r := UnzipResult(ZipWritten(fs, codec, sourceFile, destinationFile, order), codec,
                                 destinationFile, extractionDirectory);
            var directory := Resolve(extractionDirectory);
            var source := Resolve(sourceFile);
            && r.0
            && (forall rel :: FileAt(r.1, directory + rel) <==> FileAt(snapshot, source + rel))
            && (forall rel | FileAt(r.1, directory + rel) :: FileAt(snapshot, source + rel) && r.1[directory + rel] == snapshot[source + rel])
            && (forall rel | DirAt(r.1, directory + rel) :: DirAt(snapshot, source + rel))
  {
    var snapshot := SnapshotOfDirectory(fs, sourceFile, destinationFile);
    var source := Resolve(sourceFile);
    forall k | k in order ensures FileAt(snapshot, k) && StrictlyUnder(k, source) {
      assert k in FilesToArchive(snapshot, source);
      WithinDistinct(k, source);
    }
    UnzipArchivedFiles(fs, codec, sourceFile, destinationFile, extractionDirectory, order, source);
    var out := UnzipResult(ZipWritten(fs, codec, sourceFile, destinationFile, order), codec,
                           destinationFile, extractionDirectory).1;
    MirrorComplete(out, Resolve(extractionDirectory), snapshot, source, order);
  }

  /**
   * Zip one regular file, then unzip the archive into an empty directory or one
   * that unzip makes: unzip succeeds and the directory holds the file under its
   * own name, with the bytes it had when it was zipped.
   */
  lemma ZipUnzipSingleFile(fs: FsMap, codec: ZipCodec, sourceFile: string, destinationFile: string,
                           extractionDirectory: string, order: seq<seq<string>>)
    requires WellFormed(fs) && Faithful(codec) && IsFile(fs, sourceFile)
    requires ParentFile(sourceFile).Some? && IsOrdinary(Name(sourceFile))
    requires ZipCanWrite(fs, sourceFile, destinationFile)
    requires IsListing(order, FilesToArchive(ZipSnapshot(fs, destinationFile), Resolve(sourceFile)))
    requires !IsBlank(Name(destinationFile)) && !IsBlank(Name(extractionDirectory))
    requires ExtractionReady(ZipWritten(fs, codec, sourceFile, destinationFile, order), extractionDirectory)
    ensures var r := UnzipResult(ZipWritten(fs, codec, sourceFile, destinationFile, order), codec,
                                 destinationFile, extractionDirectory);
            var target := Resolve(extractionDirectory) + [Name(sourceFile)];
            && r.0 && FileAt(r.1, target)
            && r.1[target] == ZipSnapshot(fs, destinationFile)[Resolve(sourceFile)]
            && (Resolve(destinationFile) != Resolve(sourceFile) ==> r.1[target] == fs[Resolve(sourceFile)])
  {
    var snapshot := ZipSnapshot(fs, destinationFile);
    var source := Resolve(sourceFile);
    var name := Name(sourceFile);
    SingleFileBase(fs, sourceFile, destinationFile, order);
    var base := BaseForEntryRelativePath(snapshot, sourceFile).value;
    UnzipArchivedFiles(fs, codec, sourceFile, destinationFile, extractionDirectory, order, base);
    assert source[|base|..] == [name];
    var r := UnzipResult(ZipWritten(fs, codec, sourceFile, destinationFile, order), codec, destinationFile, extractionDirectory);
    MirrorOfChild(r.1, Resolve(extractionDirectory), snapshot, base, name);
  }

  /** What the walk sees when zip is given one regular file with a parent. */
  lemma SingleFileBase(fs: FsMap, sourceFile: string, destinationFile: string, order: seq<seq<string>>)
    requires WellFormed(fs) && IsFile(fs, sourceFile)
    requires ParentFile(sourceFile).Some? && IsOrdinary(Name(sourceFile))
    requires ZipCanWrite(fs, sourceFile, destinationFile)
    requires IsListing(order, FilesToArchive(ZipSnapshot(fs, destinationFile), Resolve(sourceFile)))
    ensures var snapshot := ZipSnapshot(fs, destinationFile);
            var base := BaseForEntryRelativePath(snapshot, sourceFile);
            && order == [Resolve(sourceFile)]
            && base.Some? && Resolve(sourceFile) == base.value + [Name(sourceFile)] && DirAt(snapshot, base.value)
            && FileAt(snapshot, Resolve(sourceFile))
            && (Resolve(destinationFile) != Resolve(sourceFile) ==> snapshot[Resolve(sourceFile)] == fs[Resolve(sourceFile)])
  {
    var snapshot := ZipSnapshot(fs, destinationFile);
    var source := Resolve(sourceFile);
    SnapshotWellFormed(fs, destinationFile);
    assert FileAt(snapshot, source);
    ZipSingleFile(snapshot, sourceFile, order);
    var base := BaseForEntryRelativePath(snapshot, sourceFile).value;
    assert source == base + [Name(sourceFile)];
    assert source[..|base|] == base;
  }

  /** In a mirror, a child of the directory holds what the same child of the source holds. */
  lemma MirrorOfChild(out: FsMap, directory: seq<string>, src: FsMap, source: seq<string>, name: string)
    requires Mirrors(out, directory, src, source) && directory + [name] in out
    ensures source + [name] in src && out[directory + [name]] == src[source + [name]]
  {
    var q := directory + [name];
    assert StrictlyUnder(q, directory) && q[|directory|..] == [name];
  }

  /**
   * Unzipping what zip wrote, for files that all lie below their base, into a
   * ready extraction directory: unzip succeeds, what it leaves below the
   * directory mirrors the tree below the base, and every walked file has its copy.
   */
  lemma UnzipArchivedFiles(fs: FsMap, codec: ZipCodec, sourceFile: string, destinationFile: string,
                           extractionDirectory: string, order: seq<seq<string>>, base: seq<string>)
    requires WellFormed(fs) && Faithful(codec) && ZipCanWrite(fs, sourceFile, destinationFile)
    requires !IsBlank(Name(destinationFile)) && !IsBlank(Name(extractionDirectory))
    requires BaseForEntryRelativePath(ZipSnapshot(fs, destinationFile), sourceFile) == Some(base)
    requires DirAt(ZipSnapshot(fs, destinationFile), base)
    requires forall k | k in order :: FileAt(ZipSnapshot(fs, destinationFile), k) && StrictlyUnder(k, base)
    requires ExtractionReady(ZipWritten(fs, codec, sourceFile, destinationFile, order), extractionDirectory)
    ensures var r := UnzipResult(ZipWritten(fs, codec, sourceFile, destinationFile, order), codec,
                                 destinationFile, extractionDirectory);
            && r.0 && DirAt(r.1, Resolve(extractionDirectory))
            && Mirrors(r.1, Resolve(extractionDirectory), ZipSnapshot(fs, destinationFile), base)
            && forall k | k in order && StrictlyUnder(k, base) :: Resolve(extractionDirectory) + k[|base|..] in r.1
  {
    var snapshot := ZipSnapshot(fs, destinationFile);
    var archived := ZipWritten(fs, codec, sourceFile, destinationFile, order);
    var directory := Resolve(extractionDirectory);
    SnapshotWellFormed(fs, destinationFile);
    ArchiveWellFormed(fs, codec, sourceFile, destinationFile, order);
    ArchiveReadsBackEntries(fs, codec, sourceFile, destinationFile, order);
    var entries := EntriesFor(snapshot, base, order);
    assert ArchivedEntries(snapshot, sourceFile, order) == entries;
    PreparedEmpty(archived, extractionDirectory);
    var prepared := PrepareExtractionDirectory(archived, extractionDirectory);
    UnzipOfReadable(archived, codec, destinationFile, extractionDirectory, entries);
    ExtractMirrored(prepared, extractionDirectory, snapshot, base, order);
    var r := ExtractAll(prepared, extractionDirectory, entries);
    assert DirAt(prepared, directory);
    assert directory in r.1 && r.1[directory] == prepared[directory];
  }

  /** Unzipping what zip wrote reads the archive back and extracts its entries. */
  lemma UnzipOfArchive(fs: FsMap, codec: ZipCodec, sourceFile: string, destinationFile: string,
                       extractionDirectory: string, order: seq<seq<string>>)
    requires WellFormed(fs) && Faithful(codec)
    requires ZipCanWrite(fs, sourceFile, destinationFile)
    requires !IsBlank(Name(destinationFile)) && !IsBlank(Name(extractionDirectory))
    requires IsDirectory(PrepareExtractionDirectory(ZipWritten(fs, codec, sourceFile, destinationFile, order), extractionDirectory),
                         extractionDirectory)
    ensures WellFormed(ZipWritten(fs, codec, sourceFile, destinationFile, order))
    ensures UnzipResult(ZipWritten(fs, codec, sourceFile, destinationFile, order), codec, destinationFile, extractionDirectory)
         == ExtractAll(PrepareExtractionDirectory(ZipWritten(fs, codec, sourceFile, destinationFile, order), extractionDirectory),
                       extractionDirectory, ArchivedEntries(ZipSnapshot(fs, destinationFile), sourceFile, order))
  {
    ArchiveWellFormed(fs, codec, sourceFile, destinationFile, order);
    ArchiveReadsBackEntries(fs, codec, sourceFile, destinationFile, order);
    UnzipOfReadable(ZipWritten(fs, codec, sourceFile, destinationFile, order), codec, destinationFile,
                    extractionDirectory, ArchivedEntries(ZipSnapshot(fs, destinationFile), sourceFile, order));
  }

  /** What a successful zip leaves is a well-formed tree. */
  lemma ArchiveWellFormed(fs: FsMap, codec: ZipCodec, sourceFile: string, destinationFile: string,
                          order: seq<seq<string>>)
    requires WellFormed(fs) && ZipCanWrite(fs, sourceFile, destinationFile)
    ensures WellFormed(ZipWritten(fs, codec, sourceFile, destinationFile, order))
  {
    var destination := Resolve(destinationFile);
    var prepared := PrepareDestination(fs, destinationFile);
    var data := codec.encode(ArchivedEntries(ZipSnapshot(fs, destinationFile), sourceFile, order));
    PrepareDestinationWellFormed(fs, destinationFile);
    ResolveOrdinary(destinationFile);
    CreateFileWellFormed(prepared, destination, data);
    UpdateTwice(prepared, destination, File([]), File(data));
  }

  /** A second update of the same key overrides the first. */
  lemma UpdateTwice<K, V>(m: map<K, V>, k: K, a: V, b: V)
    ensures m[k := a][k := b] == m[k := b]
  {
  }

  /**
   * unzip of a readable archive whose extraction directory exists, or is made,
   * as a directory runs the entry loop over its entries.
   */
  lemma UnzipOfReadable(fs: FsMap, codec: ZipCodec, zipFile: string, extractionDirectory: string, entries: seq<Entry>)
    requires !IsBlank(Name(zipFile)) && !IsBlank(Name(extractionDirectory))
    requires IsDirectory(PrepareExtractionDirectory(fs, extractionDirectory), extractionDirectory)
    requires ReadArchive(fs, codec, zipFile) == Some(entries)
    ensures UnzipResult(fs, codec, zipFile, extractionDirectory)
         == ExtractAll(PrepareExtractionDirectory(fs, extractionDirectory), extractionDirectory, entries)
  {
    var prepared := PrepareExtractionDirectory(fs, extractionDirectory);
    var archive := Resolve(zipFile);
    assert FileAt(fs, archive);
    assert archive in prepared && prepared[archive] == fs[archive];
    assert zipFile != "";
    assert Exists(prepared, zipFile);
    assert ReadArchive(prepared, codec, zipFile) == Some(entries);
  }

  /**
   * A mirror that holds a copy of every walked file has a file exactly where the
   * source has one, with the same bytes, and a directory only where the source
   * has one.
   */
  lemma MirrorComplete(out: FsMap, directory: seq<string>, src: FsMap, source: seq<string>, order: seq<seq<string>>)
    requires DirAt(out, directory) && DirAt(src, source) && Mirrors(out, directory, src, source)
    requires IsListing(order, FilesToArchive(src, source))
    requires forall k | k in order && StrictlyUnder(k, source) :: directory + k[|source|..] in out
    ensures forall rel :: FileAt(out, directory + rel) <==> FileAt(src, source + rel)
    ensures forall rel | FileAt(out, directory + rel) :: FileAt(src, source + rel) && out[directory + rel] == src[source + rel]
    ensures forall rel | DirAt(out, directory + rel) :: DirAt(src, source + rel)
  {
    forall rel ensures FileAt(out, directory + rel) <==> FileAt(src, source + rel) {
      if rel != [] {
        assert (directory + rel)[|directory|..] == rel;
        if FileAt(src, source + rel) {
          var k := source + rel;
          assert k[..|source|] == source;
          assert k in FilesToArchive(src, source);
          assert k[|source|..] == rel;
        }
      } else {
        assert directory + rel == directory;
        assert source + rel == source;
      }
    }
    forall rel | FileAt(out, directory + rel)
      ensures FileAt(src, source + rel) && out[directory + rel] == src[source + rel]
    {
      assert (directory + rel)[|directory|..] == rel;
      assert rel == [] ==> directory + rel == directory;
    }
    forall rel | DirAt(out, directory + rel) ensures DirAt(src, source + rel) {
      assert (directory + rel)[|directory|..] == rel;
      assert rel == [] ==> source + rel == source;
    }
  }

  // ----- unzip again -----

  /** The paths the file entries of `entries` are written to. */
  function FileTargets(extractionDirectory: string, entries: seq<Entry>): (r: set<seq<string>>)
    ensures forall e | e in entries && !IsDirectoryEntry(e) :: EntryTarget(extractionDirectory, e.name) in r
    decreases |entries|
  {
    if entries == [] then {}
    else
      (if IsDirectoryEntry(entries[0]) then {} else {EntryTarget(extractionDirectory, entries[0].name)})
      + FileTargets(extractionDirectory, entries[1..])
  }

  /** `b` has every path of `a`, each still a directory exactly when it was one. */
  ghost predicate Grows(a: FsMap, b: FsMap) {
    && a.Keys <= b.Keys
    && forall q | q in a :: (b[q] == Dir) == (a[q] == Dir)
  }

  /** `a` and `b` have the same paths, with directories at the same ones. */
  ghost predicate SameShape(a: FsMap, b: FsMap) {
    && a.Keys == b.Keys
    && forall q | q in a :: (a[q] == Dir) == (b[q] == Dir)
  }

  /** Well-formedness depends only on the shape of the tree. */
  lemma ShapeWellFormed(a: FsMap, b: FsMap)
    requires WellFormed(a) && SameShape(a, b)
    ensures WellFormed(b)
  {
    forall p, j | p in b && 0 <= j < |p| ensures DirAt(b, p[..j]) {
      assert DirAt(a, p[..j]);
    }
  }

  /** Extracting one entry only adds paths, keeps every kind, and rewrites at most its own file target. */
  lemma ExtractEntryGrows(fs: FsMap, extractionDirectory: string, entry: Entry)
    ensures Grows(fs, ExtractEntry(fs, extractionDirectory, entry).1)
    ensures forall q | q in fs && (IsDirectoryEntry(entry) || q != EntryTarget(extractionDirectory, entry.name)) ::
              ExtractEntry(fs, extractionDirectory, entry).1[q] == fs[q]
  {
  }

  /** The entry loop only adds paths, keeps every kind, and rewrites only its file targets. */
  lemma {:induction false} ExtractAllGrows(fs: FsMap, extractionDirectory: string, entries: seq<Entry>)
    ensures Grows(fs, ExtractAll(fs, extractionDirectory, entries).1)
    ensures forall q | q in fs && q !in FileTargets(extractionDirectory, entries) ::
              ExtractAll(fs, extractionDirectory, entries).1[q] == fs[q]
    decreases |entries|
  {
    if entries != [] && VerifyNoZipSlip(extractionDirectory, entries[0].name) {
      ExtractEntryGrows(fs, extractionDirectory, entries[0]);
      var fs1 := ExtractEntry(fs, extractionDirectory, entries[0]).1;
      ExtractAllGrows(fs1, extractionDirectory, entries[1..]);
    }
  }

  /**
   * mkdirs of `p` changes nothing in a tree that already has everything mkdirs
   * made of `p` from `a`, with the same kinds.
   */
  lemma {:induction false} MakeDirsSettled(a: FsMap, g: FsMap, p: seq<string>)
    requires WellFormed(a) && WellFormed(g) && AllOrdinary(p)
    requires Grows(MakeDirs(a, p).1, g)
    ensures MakeDirs(g, p).1 == g
    decreases |p|
  {
    if p !in g && p != [] {
      var parent := p[..|p| - 1];
      assert AllOrdinary(parent);
      var a1 := MakeDirs(a, parent).1;
      assert MakeDirs(a, p).1 == a1;
      MakeDirsSettled(a, g, parent);
      MakeDirsMakesDir(a, parent);
      assert parent[..|parent|] == parent;
      assert !DirAt(g, parent);
    }
  }

  /** Creating a file after mkdirs changes nothing but the file in a tree that already has both. */
  lemma CreateSettled(fs: FsMap, g: FsMap, parent: seq<string>, target: seq<string>, data: seq<byte>)
    requires WellFormed(fs) && WellFormed(g) && AllOrdinary(parent)
    requires CanCreateFile(MakeDirs(fs, parent).1, target)
    requires Grows(MakeDirs(fs, parent).1[target := File(data)], g)
    ensures MakeDirs(g, parent).1 == g && CanCreateFile(g, target)
  {
    var made := MakeDirs(fs, parent).1;
    assert Grows(made, g);
    MakeDirsSettled(fs, g, parent);
  }

  /**
   * Replaying one entry that succeeded from `fs` on a tree `g` that already has
   * what it produced, with the same kinds: it succeeds again and only rewrites
   * its file target.
   */
  lemma ReplayEntry(fs: FsMap, g: FsMap, extractionDirectory: string, entry: Entry)
    requires WellFormed(fs) && WellFormed(g)
    requires ExtractEntry(fs, extractionDirectory, entry).0
    requires Grows(ExtractEntry(fs, extractionDirectory, entry).1, g)
    ensures ExtractEntry(g, extractionDirectory, entry)
         == (true, if IsDirectoryEntry(entry) then g else g[EntryTarget(extractionDirectory, entry.name) := File(entry.data)])
  {
    EntryPathsOrdinary(extractionDirectory, entry.name);
    var target := EntryTarget(extractionDirectory, entry.name);
    if IsDirectoryEntry(entry) {
      MakeDirsSettled(fs, g, target);
    } else {
      CreateSettled(fs, g, EntryParent(extractionDirectory, entry.name), target, entry.data);
    }
  }

  /**
   * `g` agrees with `h` away from the paths still to be written; writing (or
   * not) the one path of the current step keeps it so.
   */
  lemma AgreeAfterWrite(g: FsMap, g1: FsMap, fs1: FsMap, h: FsMap, target: seq<string>, written: bool,
                        data: seq<byte>, later: set<seq<string>>)
    requires SameShape(g, h) && Grows(fs1, h)
    requires forall q | q in fs1 && q !in later :: h[q] == fs1[q]
    requires written ==> target in fs1 && fs1[target] == File(data) && g1 == g[target := File(data)]
    requires !written ==> g1 == g
    requires forall q | q in g && q !in (if written then {target} else {}) + later :: g[q] == h[q]
    ensures SameShape(g1, h)
    ensures forall q | q in g1 && q !in later :: g1[q] == h[q]
  {
  }

  /** Replaying the first of a run of entries keeps `g` in the shape, and in agreement with, the run's result. */
  lemma ReplayStep(fs: FsMap, g: FsMap, extractionDirectory: string, entries: seq<Entry>)
    requires WellFormed(fs) && WellFormed(g) && entries != []
    requires VerifyNoZipSlip(extractionDirectory, entries[0].name) && ExtractEntry(fs, extractionDirectory, entries[0]).0
    requires var h := ExtractAll(ExtractEntry(fs, extractionDirectory, entries[0]).1, extractionDirectory, entries[1..]).1;
             && SameShape(g, h)
             && forall q | q in g && q !in FileTargets(extractionDirectory, entries) :: g[q] == h[q]
    ensures var h := ExtractAll(ExtractEntry(fs, extractionDirectory, entries[0]).1, extractionDirectory, entries[1..]).1;
            var g1 := ExtractEntry(g, extractionDirectory, entries[0]);
            && g1.0 && SameShape(g1.1, h)
            && forall q | q in g1.1 && q !in FileTargets(extractionDirectory, entries[1..]) :: g1.1[q] == h[q]
  {
    var entry := entries[0];
    var rest := entries[1..];
    var fs1 := ExtractEntry(fs, extractionDirectory, entry).1;
    var h := ExtractAll(fs1, extractionDirectory, rest).1;
    ExtractAllGrows(fs1, extractionDirectory, rest);
    assert Grows(fs1, g);
    ReplayEntry(fs, g, extractionDirectory, entry);
    var g1 := ExtractEntry(g, extractionDirectory, entry).1;
    var target := EntryTarget(extractionDirectory, entry.name);
    var written := !IsDirectoryEntry(entry);
    assert FileTargets(extractionDirectory, entries)
        == (if written then {target} else {}) + FileTargets(extractionDirectory, rest);
    AgreeAfterWrite(g, g1, fs1, h, target, written, entry.data, FileTargets(extractionDirectory, rest));
  }

  /**
   * Replaying a sequence of entries that all succeeded from `fs`, on a tree of
   * the shape they produced that agrees with their result away from their file
   * targets, succeeds and produces the same result.
   */
  lemma {:induction false} Replay(fs: FsMap, g: FsMap, extractionDirectory: string, entries: seq<Entry>)
    requires WellFormed(fs) && WellFormed(g)
    requires ExtractAll(fs, extractionDirectory, entries).0
    requires SameShape(g, ExtractAll(fs, extractionDirectory, entries).1)
    requires forall q | q in g && q !in FileTargets(extractionDirectory, entries) ::
               g[q] == ExtractAll(fs, extractionDirectory, entries).1[q]
    ensures ExtractAll(g, extractionDirectory, entries) == (true, ExtractAll(fs, extractionDirectory, entries).1)
    decreases |entries|
  {
    if entries == [] {
      assert g == ExtractAll(fs, extractionDirectory, entries).1;
    } else {
      ExtractAllCons(fs, extractionDirectory, entries);
      ReplayStep(fs, g, extractionDirectory, entries);
      var fs1 := ExtractEntry(fs, extractionDirectory, entries[0]).1;
      var g1 := ExtractEntry(g, extractionDirectory, entries[0]).1;
      ExtractEntryWellFormed(fs, extractionDirectory, entries[0]);
      ExtractAllWellFormed(fs1, extractionDirectory, entries[1..]);
      ShapeWellFormed(ExtractAll(fs1, extractionDirectory, entries[1..]).1, g1);
      Replay(fs1, g1, extractionDirectory, entries[1..]);
      ExtractAllCons(g, extractionDirectory, entries);
    }
  }

  /**
   * Unzipping the same archive into the same directory a second time, after a
   * run that succeeded, succeeds again and leaves the same filesystem: every
   * file is overwritten with the same bytes, nothing is appended. The archive
   * must lie outside the extraction directory, where no entry can overwrite it.
   */
  lemma UnzipIdempotent(fs: FsMap, codec: ZipCodec, zipFile: string, extractionDirectory: string)
    requires WellFormed(fs) && UnzipResult(fs, codec, zipFile, extractionDirectory).0
    requires !StrictlyUnder(Resolve(zipFile), Resolve(extractionDirectory))
    ensures var once := UnzipResult(fs, codec, zipFile, extractionDirectory).1;
            UnzipResult(once, codec, zipFile, extractionDirectory) == (true, once)
  {
    var directory := Resolve(extractionDirectory);
    var prepared := PrepareExtractionDirectory(fs, extractionDirectory);
    UnzipWellFormed(fs, codec, zipFile, extractionDirectory);
    if !Exists(fs, extractionDirectory) {
      MakeDirsWellFormed(fs, directory);
    }
    var entries := ReadArchive(prepared, codec, zipFile).value;
    var once := ExtractAll(prepared, extractionDirectory, entries).1;
    assert UnzipResult(fs, codec, zipFile, extractionDirectory) == (true, once);
    ExtractAllConfined(prepared, extractionDirectory, entries);
    ExtractAllGrows(prepared, extractionDirectory, entries);
    var archive := Resolve(zipFile);
    assert once[archive] == prepared[archive];
    assert PrepareExtractionDirectory(once, extractionDirectory) == once;
    assert ReadArchive(once, codec, zipFile) == Some(entries);
    Replay(prepared, once, extractionDirectory, entries);
  }

  // ----- zip failures -----

  /**
   * When zip fails after finding its source, the destination is gone, unless
   * it names the root or its name is "." or "..", which are never deleted.
   */
  lemma ZipFailureRemovesDestination(fs: FsMap, destinationFile: string)
    requires WellFormed(fs) && destinationFile != "" && Resolve(destinationFile) != []
    requires !IsDotName(Name(destinationFile))
    ensures Resolve(destinationFile) !in Cleanup(PrepareDestination(fs, destinationFile), destinationFile)
    ensures Resolve(destinationFile) !in Cleanup(fs, destinationFile)
  {
    var destination := Resolve(destinationFile);
    assert Within(destination, destination);
    PrepareDestinationWellFormed(fs, destinationFile);
    CleanupRemoves(PrepareDestination(fs, destinationFile), destinationFile);
    CleanupRemoves(fs, destinationFile);
  }

  /**
   * cleanupSilently removes everything strictly below the destination, and the
   * destination itself unless it is the root or its name is "." or "..";
   * nothing outside the destination changes.
   */
  lemma CleanupRemoves(fs: FsMap, destinationFile: string)
    requires WellFormed(fs) && destinationFile != ""
    ensures var r := Cleanup(fs, destinationFile);
            var destination := Resolve(destinationFile);
            && (forall q | q in fs && StrictlyUnder(q, destination) :: q !in r)
            && (destination != [] ==> (destination in r <==> destination in fs && IsDotName(Name(destinationFile))))
            && (forall q | q in fs && !Within(q, destination) :: q in r && r[q] == fs[q])
  {
    var destination := Resolve(destinationFile);
    assert Within(destination, destination);
    forall q | q in fs && StrictlyUnder(q, destination) ensures destination in fs {
      PresentAbove(fs, q, destination);
    }
  }
}
