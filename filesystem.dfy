/**
 * The local filesystem as java.io.File and Kotlin's file extensions see it:
 * a tree of directories and regular files keyed by canonical segment paths.
 */
module FileSystem {
  import opened Paths

  newtype byte = b: int | 0 <= b < 256

  datatype Node = File(data: seq<byte>) | Dir

  /** Keys are canonical absolute paths; [] is the root. */
  type FsMap = map<seq<string>, Node>

  predicate DirAt(fs: FsMap, p: seq<string>) {
    p in fs && fs[p] == Dir
  }

  predicate FileAt(fs: FsMap, p: seq<string>) {
    p in fs && fs[p].File?
  }

  /**
   * A well-formed tree: the root is a directory, every name is ordinary and every
   * proper prefix of a present path is a directory.
   */
  ghost predicate WellFormed(fs: FsMap) {
    && DirAt(fs, [])
    && (forall p | p in fs :: AllOrdinary(p))
    && (forall p, j | p in fs && 0 <= j < |p| :: DirAt(fs, p[..j]))
  }

  /** File.exists: the empty abstract path never exists. */
  predicate Exists(fs: FsMap, path: string) {
    path != "" && Resolve(path) in fs
  }

  /** File.isDirectory. */
  predicate IsDirectory(fs: FsMap, path: string) {
    path != "" && DirAt(fs, Resolve(path))
  }

  /**
   * File.mkdirs on a canonical path: false when the path already exists;
   * otherwise make the parent first and then this directory, which only works
   * when the parent is (now) a directory.
   */
  function MakeDirs(fs: FsMap, p: seq<string>): (r: (bool, FsMap))
    ensures fs.Keys <= r.1.Keys
    ensures forall q | q in r.1 :: if q in fs then r.1[q] == fs[q] else Within(p, q) && r.1[q] == Dir
    ensures r.0 ==> p !in fs && DirAt(r.1, p)
    decreases |p|
  {
    if p in fs || p == [] then (false, fs)
    else
      var parent := p[..|p| - 1];
      var fs1 := MakeDirs(fs, parent).1;
      assert forall q | Within(parent, q) :: Within(p, q);
      if DirAt(fs1, parent) then (true, fs1[p := Dir]) else (false, fs1)
  }

  /**
   * Kotlin's File.deleteRecursively: everything below the path, then the path
   * itself, except the root. With `keepTop` (the path's own name is "." or
   * "..", so the final File.delete() is refused by rmdir) the directory at the
   * path stays, emptied.
   */
  function DeleteTree(fs: FsMap, p: seq<string>, keepTop: bool): (r: FsMap)
    ensures r.Keys <= fs.Keys && forall q | q in r :: r[q] == fs[q]
    ensures forall q | q in fs && StrictlyUnder(q, p) :: q !in r
    ensures p in fs && p != [] ==> (p in r <==> keepTop)
    ensures forall q | q in fs && !Within(q, p) :: q in r
  {
    map q | q in fs && (q == [] || !Within(q, p) || (keepTop && q == p)) :: fs[q]
  }

  /** FileOutputStream can open `p`: its parent is a directory and it is not one itself. */
  predicate CanCreateFile(fs: FsMap, p: seq<string>) {
    p != [] && DirAt(fs, p[..|p| - 1]) && !DirAt(fs, p)
  }

  // ----- the operations keep the tree well-formed -----

  lemma {:induction false} MakeDirsWellFormed(fs: FsMap, p: seq<string>)
    requires WellFormed(fs) && AllOrdinary(p)
    ensures WellFormed(MakeDirs(fs, p).1)
    decreases |p|
  {
    if p in fs || p == [] {
    } else {
      var parent := p[..|p| - 1];
      assert AllOrdinary(parent);
      MakeDirsWellFormed(fs, parent);
      var fs1 := MakeDirs(fs, parent).1;
      if DirAt(fs1, parent) {
        var r := fs1[p := Dir];
        assert p !in fs1;
        forall q, j | q in r && 0 <= j < |q| ensures DirAt(r, q[..j]) {
          if q == p {
            if j < |parent| {
              assert q[..j] == parent[..j];
            } else {
              assert q[..j] == parent;
            }
          } else {
            assert DirAt(fs1, q[..j]);
          }
        }
      }
    }
  }

  /**
   * mkdirs ends with a directory at `p` exactly when every prefix of `p` that
   * already exists is a directory.
   */
  lemma {:induction false} MakeDirsMakesDir(fs: FsMap, p: seq<string>)
    requires WellFormed(fs) && AllOrdinary(p)
    ensures DirAt(MakeDirs(fs, p).1, p) <==> forall j | 0 <= j <= |p| && p[..j] in fs :: fs[p[..j]] == Dir
    decreases |p|
  {
    var r := MakeDirs(fs, p).1;
    if forall j | 0 <= j <= |p| && p[..j] in fs :: fs[p[..j]] == Dir {
      if p in fs {
        assert p[..|p|] == p;
      } else if p != [] {
        var parent := p[..|p| - 1];
        assert forall j | 0 <= j <= |parent| :: parent[..j] == p[..j];
        MakeDirsMakesDir(fs, parent);
      }
    } else {
      var j :| 0 <= j <= |p| && p[..j] in fs && fs[p[..j]] != Dir;
      MakeDirsWellFormed(fs, p);
      assert r[p[..j]] == fs[p[..j]];
      if j == |p| {
        assert p[..j] == p;
      } else {
        assert p in r ==> DirAt(r, p[..j]);
      }
    }
  }

  lemma DeleteTreeWellFormed(fs: FsMap, p: seq<string>, keepTop: bool)
    requires WellFormed(fs)
    ensures WellFormed(DeleteTree(fs, p, keepTop))
  {
    var r := DeleteTree(fs, p, keepTop);
    forall q, j | q in r && 0 <= j < |q| ensures DirAt(r, q[..j]) {
      assert DirAt(fs, q[..j]);
    }
  }

  lemma CreateFileWellFormed(fs: FsMap, p: seq<string>, data: seq<byte>)
    requires WellFormed(fs) && AllOrdinary(p) && CanCreateFile(fs, p)
    ensures WellFormed(fs[p := File(data)])
  {
    var r := fs[p := File(data)];
    forall q, j | q in r && 0 <= j < |q| ensures DirAt(r, q[..j]) {
      if q == p {
        if j < |p| - 1 {
          assert q[..j] == p[..|p| - 1][..j];
        }
      }
      if q != p {
        assert DirAt(fs, q[..j]);
        if q[..j] == p {
          assert false;
        }
      }
    }
  }

  /** A mutable view of the filesystem that the archiver and extractor drive. */
  class Disk {
    var nodes: FsMap

    ghost predicate Valid()
      reads this
    {
      WellFormed(nodes)
    }

    constructor (fs: FsMap)
      ensures nodes == fs
    {
      nodes := fs;
    }

    /** File.mkdirs. */
    method Mkdirs(p: seq<string>) returns (ok: bool)
      modifies this
      ensures (ok, nodes) == MakeDirs(old(nodes), p)
    {
      ok := MakeDirs(nodes, p).0;
      nodes := MakeDirs(nodes, p).1;
    }

    /** File.deleteRecursively of a path resolving to `p` whose own name is `name`. */
    method DeleteRecursively(p: seq<string>, name: string)
      modifies this
      ensures nodes == DeleteTree(old(nodes), p, IsDotName(name))
    {
      nodes := DeleteTree(nodes, p, IsDotName(name));
    }

    /**
     * Opening a FileOutputStream on a path resolving to `p` whose own name is
     * `name`: creates or truncates the file, or fails. A path named "." or ".."
     * always fails, whatever it leads to (a directory, a file or nothing).
     */
    method OpenForWrite(p: seq<string>, name: string) returns (ok: bool)
      modifies this
      ensures ok == (!IsDotName(name) && CanCreateFile(old(nodes), p))
      ensures nodes == if ok then old(nodes)[p := File([])] else old(nodes)
    {
      ok := !IsDotName(name) && CanCreateFile(nodes, p);
      if ok {
        nodes := nodes[p := File([])];
      }
    }

    /** Closing a FileOutputStream: the file holds what was written. */
    method Close(p: seq<string>, data: seq<byte>)
      requires FileAt(nodes, p)
      modifies this
      ensures nodes == old(nodes)[p := File(data)]
    {
      nodes := nodes[p := File(data)];
    }
  }
}
