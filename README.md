# AndroidHelpers core, modelled in Dafny

This project models three parts of the AndroidHelpers Kotlin library and proves properties of each.

- **ZipUtil** zips a file or a directory tree into an archive file. It also unzips an archive into a directory, refusing any entry whose canonical path would fall outside that directory (the "zip slip" guard).
- **LiveDataExt** provides:
  - `getDistinct`, which forwards a value only when it differs from the one before;
  - `updateIfChanged` and `postIfChanged`, which set or post a value only when it differs from the current one;
  - `observeNonNull`, which skips null values.
- **SharedPrefs** provides typed preference delegates over a SharedPreferences file. Each delegate keeps a `cacheValue` and writes to the file only when a new value differs from that cache. For a LocalTime, a stored string that does not parse falls back to the cached value.

## Modules

- `Paths` (paths.dfy) models `java.io.File` paths.
  - A path string splits on `/`, and empty segments are dropped, as `File` normalises them.
  - `Join` renders a segment list the way `File.path` does.
  - `Canon` is lexical `.`/`..` normalisation. `canonicalPath` performs it after putting a relative path below the working directory, a fixed path of ordinary names whose value the model leaves open, so every property holds whatever it is.
- `FileSystem` (filesystem.dfy) models the filesystem as a map from canonical paths to nodes, each a file with bytes or a directory.
  - `WellFormed` says that the root is a directory and that the parent of every node is a directory.
  - `MakeDirs` is `File.mkdirs`, `DeleteTree` is `deleteRecursively`, and `CanCreateFile` is when a `FileOutputStream` can be opened.
  - The `Disk` class holds the map, and its methods change it in place.
- `Streams` (streams.dfy) holds `BUFFER_SIZE` and the imperative copy loop over input and output streams.
  - `ZipOutputStream` is seen as the sequence of entries written so far.
  - The archive's byte encoding is an abstract codec. `Faithful(codec)` says that the reader gives back the entries the writer wrote.
- `ZipUtil` (zip_util.dfy) holds two kinds of members:
  - `zip`, `unzip` and their helpers, as methods on a `Disk`, each proved against a function that states the whole resulting filesystem;
  - the pure helpers `verifyNoZipSlip`, `getFileType` and `getBaseFileForEntryRelativePath`, as functions.
- `ZipProperties` (zip_properties.dfy) holds the lemmas about these functions:
  - the entry naming;
  - the archive contents;
  - confinement of `unzip` to the extraction directory;
  - no rollback after an unsafe entry;
  - the zip-then-unzip round trips, for a directory and for a single file;
  - unzipping the same archive twice.
- `LiveDataExt` (livedata.dfy):
  - the `getDistinct` observer as a class with `initialized` and `lastObj`, proved against the function `Emissions` of its inputs;
  - `MutableLiveData` with `updateIfChanged` and `postIfChanged`;
  - `observeNonNull` as the filter `NonNulls`.
- `SharedPrefs` (shared_prefs.dfy):
  - the preferences file as a class over a map from keys to typed values;
  - the delegates `Pref`, `StringSetPref` and `LocalTimePref` as classes with `cacheValue`;
  - their reads as functions.

A Kotlin `T?` value is an `Option<T>`, with `None` for null. A call that throws is modelled as a result:
- `zip` and `unzip` catch their exceptions and return false, as the source does.
- In SharedPrefs, a thrown exception is `Outcome.Throws`.

Behaviours of the source that the contracts make explicit:
- A blank source or destination name makes `zip` return false. It also deletes an existing destination, because the name check throws inside the `try` whose `catch` calls `cleanupSilently`.
- A missing source makes `zip` return false and changes nothing.
- `zip` makes the destination's parent directories before anything can fail, and a later failure does not remove them.
- `unzip` makes the extraction directory before it checks that the archive exists.
- Extracting into the root (`/`) rejects every entry, because the canonical prefix becomes `//`.
- Extracting into `.` (or `a/..`) extracts into the working directory.
- Cleaning up a destination whose name is `.` or `..` (such as `.` or `d/.`) deletes everything below the directory it names but keeps that directory: `deleteRecursively` ends with `File.delete()` of that path, which the OS refuses.
- A `FileOutputStream` on a path whose name is `.` or `..` never opens, so `zip` to such a destination fails, and so does extracting a file entry whose name ends in such a segment.
- The empty path `File("")` never exists, so `zip` and `unzip` never create or delete anything under that name.
- `Pref.setValue` compares with the cache, not with the file. Setting the cached value after the file has changed behind the delegate therefore writes nothing.
- `StringSetPref` and `LocalTimePref` treat a null value (a null set, a null time) as removing the key. The next read then gives the default or the cached fallback.

## Model

| member | source | states |
|---|---|---|
| Paths.Canon | library/src/main/java/com/alexandercasal/androidhelpers/file/ZipUtil.kt:142-144 | normalising never lengthens a path, and a path of segments normalises to ordinary names only |
| Paths.Resolve | library/src/main/java/com/alexandercasal/androidhelpers/file/ZipUtil.kt:142-144 | `canonicalPath` gives ordinary names only; a path with no `.`, `..` or empty segments resolves to the working directory (or the root, when absolute) followed by its own segments |
| Paths.SplitJoin | library/src/main/java/com/alexandercasal/androidhelpers/file/ZipUtil.kt:51 | a relative path rendered by `File.path` and parsed again gives back the same segments |
| Paths.RelativeToDescendant | library/src/main/java/com/alexandercasal/androidhelpers/file/ZipUtil.kt:51 | `relativeTo` of a path below the base is the path's own segments after the base |
| Paths.CanonAppend | library/src/main/java/com/alexandercasal/androidhelpers/file/ZipUtil.kt:74-78 | normalising a base followed by ordinary segments keeps those segments after the normalised base |
| Paths.CanonicalContainment | library/src/main/java/com/alexandercasal/androidhelpers/file/ZipUtil.kt:141-151 | the canonical path of a target starts with the canonical directory plus a separator exactly when the directory is not the root and the target lies strictly below it |
| FileSystem.MakeDirs | library/src/main/java/com/alexandercasal/androidhelpers/file/ZipUtil.kt:68-72 | `mkdirs` only adds directories on prefixes of the path and changes no existing node; it reports true only when it made the path as a directory |
| FileSystem.MakeDirsMakesDir | library/src/main/java/com/alexandercasal/androidhelpers/file/ZipUtil.kt:126-130 | `mkdirs` leaves a directory at the path exactly when every existing prefix of it is a directory |
| FileSystem.MakeDirsWellFormed | library/src/main/java/com/alexandercasal/androidhelpers/file/ZipUtil.kt:155-158 | `mkdirs` of a canonical path keeps every node's parent a directory |
| FileSystem.DeleteTree | library/src/main/java/com/alexandercasal/androidhelpers/file/ZipUtil.kt:181-189 | `deleteRecursively` removes everything strictly below the path, and the path itself unless it is the root or the flag for a `.`/`..` name keeps it; it keeps every other node unchanged and adds nothing |
| FileSystem.DeleteTreeWellFormed | library/src/main/java/com/alexandercasal/androidhelpers/file/ZipUtil.kt:184 | deleting a subtree keeps the tree well formed |
| FileSystem.CreateFileWellFormed | library/src/main/java/com/alexandercasal/androidhelpers/file/ZipUtil.kt:162 | opening a file whose parent is a directory keeps the tree well formed |
| FileSystem.Disk.Mkdirs | library/src/main/java/com/alexandercasal/androidhelpers/file/ZipUtil.kt:70 | the disk changes as `MakeDirs` states and reports its result |
| FileSystem.Disk.DeleteRecursively | library/src/main/java/com/alexandercasal/androidhelpers/file/ZipUtil.kt:184 | the disk changes as `DeleteTree` states |
| FileSystem.Disk.OpenForWrite | library/src/main/java/com/alexandercasal/androidhelpers/file/ZipUtil.kt:44 | opening succeeds exactly when the path's name is not `.` or `..`, the parent is a directory and the path is not one; the file is then created or truncated to empty |
| FileSystem.Disk.Close | library/src/main/java/com/alexandercasal/androidhelpers/file/ZipUtil.kt:162-168 | the closed file holds exactly the bytes written |
| Streams.InputStream.Read | library/src/main/java/com/alexandercasal/androidhelpers/file/ZipUtil.kt:86 | `read` returns -1 at the end, otherwise between 1 and `len` of the next bytes, copied into the buffer |
| Streams.OutputStream.Write | library/src/main/java/com/alexandercasal/androidhelpers/file/ZipUtil.kt:88 | `write` appends exactly the first `len` bytes of the buffer |
| Streams.CopyStream | library/src/main/java/com/alexandercasal/androidhelpers/file/ZipUtil.kt:86-90 | the copy loop, in chunks of at most `BUFFER_SIZE` (1024), appends exactly the input's remaining bytes, in order, and exhausts the input |
| Streams.ZipOutputStream.PutNextEntry | library/src/main/java/com/alexandercasal/androidhelpers/file/ZipUtil.kt:84 | `putNextEntry` closes the open entry and appends a new, empty entry with the given name |
| Streams.ZipOutputStream.CloseEntry | library/src/main/java/com/alexandercasal/androidhelpers/file/ZipUtil.kt:56 | `closeEntry` closes the open entry and leaves the entries as they are |
| ZipUtil.ParentFile | library/src/main/java/com/alexandercasal/androidhelpers/file/ZipUtil.kt:69 | `parentFile` is null exactly for a one-segment relative path and for the root; otherwise the path is its parent followed by its name |
| ZipUtil.GetFileType | library/src/main/java/com/alexandercasal/androidhelpers/file/ZipUtil.kt:173-179 | DIRECTORY exactly for a directory, FILE for a regular file, and an exception for a path that does not exist |
| ZipUtil.BaseForEntryRelativePath | library/src/main/java/com/alexandercasal/androidhelpers/file/ZipUtil.kt:74-79 | the base of a directory is itself; the base of a file is its parent, which followed by the file's name gives the file; an exception when the parent is null |
| ZipUtil.FileArchivedAlone | library/src/main/java/com/alexandercasal/androidhelpers/file/ZipUtil.kt:45-46 | walking a regular file visits only that file |
| ZipUtil.PresentAbove | library/src/main/java/com/alexandercasal/androidhelpers/file/ZipUtil.kt:45 | in a well-formed tree, a node below a path means that path exists and is a directory |
| ZipUtil.EntryName | library/src/main/java/com/alexandercasal/androidhelpers/file/ZipUtil.kt:51 | the `relativeTo(...).path` name of a file below the base splits back into the segments from the base to the file |
| ZipUtil.EntriesFor | library/src/main/java/com/alexandercasal/androidhelpers/file/ZipUtil.kt:47-52 | one entry per walked file, in the walk's order; the name of a file below the base splits back into the file's segments below the base |
| ZipUtil.PrepareDestinationWellFormed | library/src/main/java/com/alexandercasal/androidhelpers/file/ZipUtil.kt:68-72 | making the destination's parent directories keeps the tree well formed and keeps every existing node |
| ZipUtil.CleanupAfterOpen | library/src/main/java/com/alexandercasal/androidhelpers/file/ZipUtil.kt:60-63 | cleaning up after the destination was opened leaves what cleaning up before opening would have left |
| ZipUtil.VerifyNoZipSlip | library/src/main/java/com/alexandercasal/androidhelpers/file/ZipUtil.kt:141-151 | an entry is accepted exactly when the extraction directory is not the root and the entry's resolved target lies strictly below the directory |
| ZipUtil.EntryPathsOrdinary | library/src/main/java/com/alexandercasal/androidhelpers/file/ZipUtil.kt:143 | the resolved target and parent of an entry contain no `.`, `..` or empty segments |
| ZipUtil.ExtractEntryWellFormed | library/src/main/java/com/alexandercasal/androidhelpers/file/ZipUtil.kt:153-171 | extracting one entry keeps the tree well formed |
| ZipUtil.ExtractAllWellFormed | library/src/main/java/com/alexandercasal/androidhelpers/file/ZipUtil.kt:112-116 | the entry loop keeps the tree well formed |
| ZipUtil.UnzipWellFormed | library/src/main/java/com/alexandercasal/androidhelpers/file/ZipUtil.kt:103-124 | `unzip` keeps the tree well formed |
| ZipUtil.CleanupSilently | library/src/main/java/com/alexandercasal/androidhelpers/file/ZipUtil.kt:181-189 | if the destination exists, everything below it is deleted, and the destination too unless its name is `.` or `..`; otherwise nothing changes |
| ZipUtil.MakeParentDirectoriesIfNotExists | library/src/main/java/com/alexandercasal/androidhelpers/file/ZipUtil.kt:68-72 | parent directories are made only when the destination does not exist and has a parent |
| ZipUtil.WriteFileToZip | library/src/main/java/com/alexandercasal/androidhelpers/file/ZipUtil.kt:81-92 | exactly one new entry is written, with the given name and the file's bytes |
| ZipUtil.WriteEntries | library/src/main/java/com/alexandercasal/androidhelpers/file/ZipUtil.kt:45-53 | every regular file under the source is written exactly once, in the walk's order, as its entry; it fails only when a file's base cannot be found |
| ZipUtil.Zip | library/src/main/java/com/alexandercasal/androidhelpers/file/ZipUtil.kt:37-66 | blank names give false and clean up the destination; a missing source gives false with nothing changed; otherwise, on a disk that raises no I/O error, true exactly when the destination opens and a base is found, with the destination holding the archive of every walked file; on failure the destination is cleaned up |
| ZipUtil.WriteArchive | library/src/main/java/com/alexandercasal/androidhelpers/file/ZipUtil.kt:44-57 | the opened destination ends up holding the encoding of the walked entries; on failure nothing changes |
| ZipUtil.SourceStillWalked | library/src/main/java/com/alexandercasal/androidhelpers/file/ZipUtil.kt:42-46 | an existing source is still walked after the destination is opened |
| ZipUtil.MakeExtractionDirectoryIfNotExists | library/src/main/java/com/alexandercasal/androidhelpers/file/ZipUtil.kt:126-130 | `mkdirs` is called on the extraction directory only when it does not exist |
| ZipUtil.ExtractZipEntry | library/src/main/java/com/alexandercasal/androidhelpers/file/ZipUtil.kt:153-171 | a directory entry makes its directory with ancestors; a file entry makes its parent, then creates or overwrites the file with exactly the entry's bytes; false when the file cannot be opened |
| ZipUtil.Unzip | library/src/main/java/com/alexandercasal/androidhelpers/file/ZipUtil.kt:103-124 | blank names give false with nothing changed; otherwise the extraction directory is made if absent, and false follows for a missing archive or a non-directory target; entries are extracted in order until the first unsafe one or failure |
| ZipProperties.EntryNameOfDescendant | library/src/main/java/com/alexandercasal/androidhelpers/file/ZipUtil.kt:51 | the entry name of a file below the base parses back to the file's path relative to the base and does not end with a separator, so it is a file entry |
| ZipProperties.EntryNamesDistinct | library/src/main/java/com/alexandercasal/androidhelpers/file/ZipUtil.kt:45-52 | two different files of a directory source never get the same entry name |
| ZipProperties.ListingLength | library/src/main/java/com/alexandercasal/androidhelpers/file/ZipUtil.kt:45-47 | the walk lists as many files as there are regular files under the source |
| ZipProperties.ZipSingleFile | library/src/test/java/com/alexandercasal/androidhelpers/file/ZipUtilTest.kt:36-70 | zipping one regular file gives exactly one entry, named after the file and holding its bytes |
| ZipProperties.ArchiveReadsBack | library/src/main/java/com/alexandercasal/androidhelpers/file/ZipUtil.kt:44-57 | the archive written for a directory reads back as its entries |
| ZipProperties.ZipDirectoryEntries | library/src/test/java/com/alexandercasal/androidhelpers/file/ZipUtilTest.kt:73-91 | the archive of a directory has one entry per walked file, named by the file's path below the source, never a directory entry, and holding the file's bytes |
| ZipProperties.FileEntry | library/src/main/java/com/alexandercasal/androidhelpers/file/ZipUtil.kt:51-52 | the entry for a walked file of a directory source joins onto the source to give the file, and holds the file's bytes |
| ZipProperties.SnapshotOfDirectory | library/src/main/java/com/alexandercasal/androidhelpers/file/ZipUtil.kt:42-45 | once the destination is opened, the tree is still well formed and the source is still a directory, its own base |
| ZipProperties.MakeDirsConfined | library/src/main/java/com/alexandercasal/androidhelpers/file/ZipUtil.kt:155-158 | `mkdirs` of a path within the directory only adds nodes strictly below it |
| ZipProperties.ExtractEntryConfined | library/src/main/java/com/alexandercasal/androidhelpers/file/ZipUtil.kt:153-171 | extracting an entry that passed the zip-slip check adds and changes only nodes strictly below the directory |
| ZipProperties.ExtractAllConfined | library/src/main/java/com/alexandercasal/androidhelpers/file/ZipUtil.kt:112-116 | the whole entry loop adds and changes only nodes strictly below the directory |
| ZipProperties.UnzipConfined | library/src/main/java/com/alexandercasal/androidhelpers/file/ZipUtil.kt:103-124 | whatever the archive holds, `unzip` deletes nothing, adds only the directory, its ancestors and nodes below it, and changes nothing that is not below it |
| ZipProperties.ExtractIntoRootRejected | library/src/main/java/com/alexandercasal/androidhelpers/file/ZipUtil.kt:141-151 | extracting into the root rejects the first entry and changes nothing |
| ZipProperties.ExtractAllAppend | library/src/main/java/com/alexandercasal/androidhelpers/file/ZipUtil.kt:112-116 | extracting `a + b` extracts `a`, then `b` only if `a` succeeded |
| ZipProperties.UnsafeEntryKeepsEarlierEntries | library/src/main/java/com/alexandercasal/androidhelpers/file/ZipUtil.kt:99-100 | an unsafe entry makes extraction fail, and the entries before it stay extracted, with no rollback |
| ZipProperties.EntryPathsOfRelative | library/src/main/java/com/alexandercasal/androidhelpers/file/ZipUtil.kt:155-158 | an entry named by an ordinary relative path lands at the directory followed by that path |
| ZipProperties.ExtractMirrored | library/src/main/java/com/alexandercasal/androidhelpers/file/ZipUtil.kt:112-116 | extracting the archived files into a copy of the source tree keeps it a copy and puts every file in its place |
| ZipProperties.ZipUnzipRoundTrip | library/src/test/java/com/alexandercasal/androidhelpers/file/ZipUtilTest.kt:119-142 | unzipping a zipped directory into an existing empty directory, or a missing one whose existing ancestors are directories, succeeds; below it there is a file exactly where the source had one, with the same bytes, and a directory only where the source had one |
| ZipProperties.ZipUnzipSingleFile | library/src/test/java/com/alexandercasal/androidhelpers/file/ZipUtilTest.kt:94-115 | zipping a regular file and unzipping the archive into an existing empty directory or a missing nested one succeeds, and the file's copy sits directly in that directory, under the file's name and holding its bytes |
| ZipProperties.UnzipArchivedFiles | library/src/main/java/com/alexandercasal/androidhelpers/file/ZipUtil.kt:103-124 | unzipping what zip wrote, for walked files all below their base, into a ready directory succeeds; the result below the directory copies the tree below the base and holds every walked file |
| ZipProperties.PreparedEmpty | library/src/main/java/com/alexandercasal/androidhelpers/file/ZipUtil.kt:126-130 | a missing extraction directory whose existing ancestors are directories is made by `mkdirs` and is then an empty directory |
| ZipProperties.ArchiveReadsBackEntries | library/src/main/java/com/alexandercasal/androidhelpers/file/ZipUtil.kt:44-57 | with a faithful codec, the archive that zip wrote reads back as exactly the entries it archived |
| ZipProperties.UnzipOfReadable | library/src/main/java/com/alexandercasal/androidhelpers/file/ZipUtil.kt:108-116 | once the extraction directory is a directory and the archive reads as some entries, `unzip` is the entry loop over those entries |
| ZipProperties.ExtractAllGrows | library/src/main/java/com/alexandercasal/androidhelpers/file/ZipUtil.kt:112-116 | the entry loop removes nothing, never turns a file into a directory or back, and changes only the files its file entries name |
| ZipProperties.MakeDirsSettled | library/src/main/java/com/alexandercasal/androidhelpers/file/ZipUtil.kt:155-158 | `mkdirs` changes nothing once the directories it would make are all there |
| ZipProperties.Replay | library/src/main/java/com/alexandercasal/androidhelpers/file/ZipUtil.kt:112-116 | running the entry loop again on a tree of the shape the first run produced, which agrees with it away from the extracted files, succeeds and gives the same tree |
| ZipProperties.UnzipIdempotent | library/src/main/java/com/alexandercasal/androidhelpers/file/ZipUtil.kt:103-124 | unzipping the same archive into the same directory after a successful unzip succeeds and leaves the filesystem as it was, when the archive is not inside the directory |
| ZipProperties.UnzipOfArchive | library/src/main/java/com/alexandercasal/androidhelpers/file/ZipUtil.kt:108-116 | unzipping what zip wrote, once the extraction directory is a directory, reads the archive back and runs the entry loop over exactly the archived entries |
| ZipProperties.MirrorComplete | library/src/test/java/com/alexandercasal/androidhelpers/file/ZipUtilTest.kt:136-141 | a copy holding every walked file has files exactly where the source has them, with the same bytes |
| ZipProperties.CleanupRemoves | library/src/main/java/com/alexandercasal/androidhelpers/file/ZipUtil.kt:181-189 | after `cleanupSilently` of a non-empty path, nothing is left below it; the path itself is gone unless it is the root or is named `.` or `..`, in which case an existing directory stays; nothing outside it changes |
| ZipProperties.CleanupOfWorkingDirectory | library/src/main/java/com/alexandercasal/androidhelpers/file/ZipUtil.kt:181-189 | `cleanupSilently` of `.` empties the working directory and keeps it as a directory |
| ZipProperties.EmptyNameIsBlank | library/src/main/java/com/alexandercasal/androidhelpers/file/ZipUtil.kt:39-40 | the root and the empty path have the empty name, which `isBlank` accepts, so `zip` and `unzip` refuse them |
| ZipProperties.UnzipRefusesBlankNames | library/src/main/java/com/alexandercasal/androidhelpers/file/ZipUtil.kt:105-106 | a blank archive or directory name makes `unzip` return false with nothing changed |
| ZipProperties.WorkingDirectoryExtraction | library/src/main/java/com/alexandercasal/androidhelpers/file/ZipUtil.kt:141-151 | for the extraction directory `.`, an ordinary entry name resolves below the working directory and passes the zip-slip check |
| ZipProperties.RelativeIsNotAbsolute | library/src/main/java/com/alexandercasal/androidhelpers/file/ZipUtil.kt:142-144 | the relative path `a` and the absolute path `/a` resolve to different files |
| ZipProperties.ZipFailureRemovesDestination | library/src/main/java/com/alexandercasal/androidhelpers/file/ZipUtil.kt:60-63 | after a failure that triggers cleanup, a destination that is not the root and not named `.` or `..` does not exist, whether or not its parents were made |
| LiveDataExt.DistinctObserver.OnChanged | library/src/main/java/com/alexandercasal/androidhelpers/livedata/LiveDataExt.kt:38-46 | the first value, null included, is always posted and sets `initialized`; later a value is posted exactly when it differs from `lastObj`; `lastObj` becomes the value; what was posted stays the `Emissions` of the inputs |
| LiveDataExt.GetDistinct | library/src/main/java/com/alexandercasal/androidhelpers/livedata/LiveDataExt.kt:33-50 | a fresh MediatorLiveData with an observer that is not yet initialized and has posted nothing |
| LiveDataExt.MutableLiveData.SetValue | library/src/main/java/com/alexandercasal/androidhelpers/livedata/LiveDataExt.kt:68 | `setValue` replaces the value and dispatches once |
| LiveDataExt.MutableLiveData.PostValue | library/src/main/java/com/alexandercasal/androidhelpers/livedata/LiveDataExt.kt:74 | `postValue` queues the value and does not change it yet |
| LiveDataExt.EmissionsStartWithFirst | library/src/main/java/com/alexandercasal/androidhelpers/livedata/LiveDataExt.kt:39-42 | the first input is always forwarded, even when it is null |
| LiveDataExt.EmissionsEndWithLast | library/src/main/java/com/alexandercasal/androidhelpers/livedata/LiveDataExt.kt:41-45 | the last forwarded value is the last input, which is what `lastObj` holds |
| LiveDataExt.EmissionsNoAdjacentRepeats | library/src/main/java/com/alexandercasal/androidhelpers/livedata/LiveDataExt.kt:43-45 | no two consecutive forwarded values are equal |
| LiveDataExt.EmissionPositions | library/src/main/java/com/alexandercasal/androidhelpers/livedata/LiveDataExt.kt:38-46 | the forwarded values sit at strictly increasing positions of the inputs, so they are a subsequence of them |
| LiveDataExt.RunForwardedOnce | library/src/main/java/com/alexandercasal/androidhelpers/livedata/LiveDataExt.kt:43 | a run of any length of one repeated value is forwarded as one value |
| LiveDataExt.EmissionsIdempotent | library/src/main/java/com/alexandercasal/androidhelpers/livedata/LiveDataExt.kt:38-46 | putting the forwarded values through `getDistinct` again changes nothing |
| LiveDataExt.UpdateIfChanged | library/src/main/java/com/alexandercasal/androidhelpers/livedata/LiveDataExt.kt:66-70 | the value ends up as `newValue`; `setValue` runs exactly when it differed |
| LiveDataExt.PostIfChanged | library/src/main/java/com/alexandercasal/androidhelpers/livedata/LiveDataExt.kt:72-76 | `newValue` is posted exactly when it differs from the current value, which stays unchanged |
| LiveDataExt.NonNullsAppend | library/src/main/java/com/alexandercasal/androidhelpers/livedata/LiveDataExt.kt:58-64 | the callback calls for later deliveries follow those for earlier ones, in order |
| LiveDataExt.NonNulls | library/src/main/java/com/alexandercasal/androidhelpers/livedata/LiveDataExt.kt:58-64 | the callback receives every non-null value and only values that were delivered, each unchanged, one call per non-null delivery |
| LiveDataExt.CountNulls | library/src/main/java/com/alexandercasal/androidhelpers/livedata/LiveDataExt.kt:58-64 | no delivery is skipped exactly when every delivered value is non-null |
| SharedPrefs.Fetch | library/src/main/java/com/alexandercasal/androidhelpers/sharedprefs/SharedPrefs.kt:42-46 | a typed getter finds the stored value of its kind, nothing for an absent key, and throws for a value of another kind |
| SharedPrefs.Preferences.Put | library/src/main/java/com/alexandercasal/androidhelpers/sharedprefs/SharedPrefs.kt:54-64 | an applied edit stores the value under the key, or removes the key for null |
| SharedPrefs.PrefRead | library/src/main/java/com/alexandercasal/androidhelpers/sharedprefs/SharedPrefs.kt:40-49 | `getValueInternal` gives the stored value if there is one and the default otherwise, and throws for an unsupported default or a value of another kind |
| SharedPrefs.PrefReadOtherKey | library/src/main/java/com/alexandercasal/androidhelpers/sharedprefs/SharedPrefs.kt:51-65 | a write under one key does not change what any other key reads |
| SharedPrefs.Pref.constructor | library/src/main/java/com/alexandercasal/androidhelpers/sharedprefs/SharedPrefs.kt:32-33 | the cache is read once, at construction, from the file or the default |
| SharedPrefs.Pref.GetValue | library/src/main/java/com/alexandercasal/androidhelpers/sharedprefs/SharedPrefs.kt:35-37 | `getValue` reads the file, not the cache: the stored value, or the default for an absent key; it throws for an unsupported default or a stored value of another kind |
| SharedPrefs.Pref.SetValue | library/src/main/java/com/alexandercasal/androidhelpers/sharedprefs/SharedPrefs.kt:51-66 | a value that differs from the cache becomes the cache and the stored value, and a following get returns it; a value equal to the cache changes nothing, even when the file holds something else |
| SharedPrefs.StringSetRead | library/src/main/java/com/alexandercasal/androidhelpers/sharedprefs/SharedPrefs.kt:85-87 | `getStringSet` gives the stored set, or the default when the key is absent, and throws for a value of another kind |
| SharedPrefs.StringSetPref.constructor | library/src/main/java/com/alexandercasal/androidhelpers/sharedprefs/SharedPrefs.kt:83 | the cache is read once, at construction |
| SharedPrefs.StringSetPref.GetValue | library/src/main/java/com/alexandercasal/androidhelpers/sharedprefs/SharedPrefs.kt:85-87 | `getValue` reads the file, not the cache: the stored set, or the default for an absent key; it throws for a stored value of another kind |
| SharedPrefs.StringSetPref.SetValue | library/src/main/java/com/alexandercasal/androidhelpers/sharedprefs/SharedPrefs.kt:89-94 | a write happens only when the value differs from the cache; null removes the key, so the next read gives the default |
| SharedPrefs.ToLocalTime | library/src/main/java/com/alexandercasal/androidhelpers/sharedprefs/SharedPrefs.kt:135-142 | the parsed time, or the fallback when the string does not parse |
| SharedPrefs.LocalTimeRead | library/src/main/java/com/alexandercasal/androidhelpers/sharedprefs/SharedPrefs.kt:114-119 | with no stored string and a null fallback, the result is null; otherwise the stored string, or the formatted fallback, is parsed with that fallback; a value of another kind throws |
| SharedPrefs.MalformedTimeFallsBack | library/src/main/java/com/alexandercasal/androidhelpers/sharedprefs/SharedPrefs.kt:118 | a stored string that does not parse reads as the fallback |
| SharedPrefs.FormattedTimeReadsBack | library/src/main/java/com/alexandercasal/androidhelpers/sharedprefs/SharedPrefs.kt:121-126 | with a faithful formatter, a stored formatted time reads back as that time |
| SharedPrefs.AbsentTimeReadsFallback | library/src/main/java/com/alexandercasal/androidhelpers/sharedprefs/SharedPrefs.kt:115-116 | with no stored string, the read gives the fallback itself, null included |
| SharedPrefs.LocalTimePref.constructor | library/src/main/java/com/alexandercasal/androidhelpers/sharedprefs/SharedPrefs.kt:108 | the cache is the read with the default as the fallback |
| SharedPrefs.LocalTimePref.GetValue | library/src/main/java/com/alexandercasal/androidhelpers/sharedprefs/SharedPrefs.kt:110-112 | `getValue` reads the file with the cache as fallback: a stored string that parses gives its time, one that does not gives the cache, an absent key gives the cache itself (with a faithful formatter), and a value of another kind throws |
| SharedPrefs.LocalTimePref.SetValue | library/src/main/java/com/alexandercasal/androidhelpers/sharedprefs/SharedPrefs.kt:121-126 | a write happens only when the value differs from the cache: the formatted string is stored, or the key is removed for null; with a faithful formatter the next get returns the value |

## Left out

- Symbolic links are not modelled. `canonicalPath` is modelled as lexical `.`/`..` normalisation of the path put below the working directory. The working directory is one fixed path for the whole model; a process that changes it is not modelled.
- `..` above the root is dropped, as `canonicalPath` does. No OS check is made that a path goes through an existing directory (for example `file.txt/.`, or `a/..` once `a` has been deleted): `File.exists` and cleanup resolve such paths lexically. The only exception is that a path named `.` or `..` can never be opened for writing or deleted.
- The separator is `/`; the Windows separator is not modelled.
- The ZIP byte format (local headers, central directory, DEFLATE) is an abstract codec. Limits on entry-name length and entry count are not modelled.
- The order of `walkBottomUp` is not fixed: the model lets the walk pick any order and proves its properties for every order.
- ZipUtil.Zip: the walk sees the filesystem after the destination has been opened, so a destination inside the source is walked as an empty file. What `ZipOutputStream` has buffered but not yet flushed is not modelled.
- `ZipFile` keeping the archive open while an entry overwrites it is not modelled: the entries are read once, before extraction.
- ZipProperties.UnzipIdempotent requires that the archive is not inside the extraction directory. Otherwise an entry can overwrite the archive during the first run, and the second run reads different entries, so the source promises nothing there.
- The exact exception thrown, Timber logging, `@WorkerThread` and the closing of streams by `use` are not modelled. The exceptions that are modelled become false or `Throws`.
- ZipUtil.Zip and ZipUtil.Unzip: I/O errors are not modelled. An unreadable source file, a read or write error, a full disk and a denied permission never happen on the model's disk: reads, writes and closing always succeed. The only failures modelled are opening the destination or an extracted file for writing, and a missing base. In the source these errors take the same catch path: `zip` cleans up the destination and returns false, and `unzip` returns false, keeping the files already extracted and a partly written one.
- Threads, main-thread dispatch and the coalescing of `postValue` are not modelled: `posted` records every `postValue` call in order.
- `MediatorLiveData.addSource` wiring is not modelled. Values reach the observer only through `OnChanged`.
- `LiveData.observe` with a lambda observer and lifecycle owners: the callback calls are modelled only as the values `NonNulls` lists.
- SharedPreferences persistence: `apply()` is asynchronous on Android, but here it takes effect at once. Listeners are not modelled.
- SharedPrefs.Pref.constructor requires that the first read does not throw. On a key holding a value of another kind, the source throws from the constructor.
- SharedPrefs.StringSetPref.constructor and SharedPrefs.LocalTimePref.constructor: likewise, each requires that its first read does not throw.
- A Float is stored as its 32 bits, and equality is bitwise. Float arithmetic and the collapsing of NaN bit patterns by `Float.equals` are not modelled.
- The ISO_LOCAL_TIME formatter and parser are abstract functions, with `Faithful` for the round trip. A LocalTime is hour, minute, second and nanosecond.
- The SharedPrefsLiveData classes, the `toLiveData` functions and the `intPref`/`booleanPref`/`floatPref`/`longPref`/`stringPref` factories are not modelled. The factories only supply default values.
- The sample app and the build scripts are not part of this model.
