/**
 * Path strings as java.io.File sees them on a Unix system: a path is split on
 * the separator into segments (empty segments, from "//" or a trailing "/",
 * disappear), '.' and '..' are resolved lexically to give the canonical form,
 * and a canonical path is rendered back to a string to be compared.
 */
module Paths {

  const Separator: char := '/'

  predicate NoSeparator(s: string) {
    forall i :: 0 <= i < |s| ==> s[i] != Separator
  }

  /** A segment as it comes out of Split: non-empty, without a separator. */
  predicate IsSegment(s: string) {
    s != "" && NoSeparator(s)
  }

  /** A segment that names a child, as opposed to "." or "..". */
  predicate IsOrdinary(s: string) {
    IsSegment(s) && s != "." && s != ".."
  }

  /** "." or "..": a name that the OS will neither remove nor open as a file. */
  predicate IsDotName(s: string) {
    s == "." || s == ".."
  }

  predicate AllSegments(p: seq<string>) {
    forall i :: 0 <= i < |p| ==> IsSegment(p[i])
  }

  predicate AllOrdinary(p: seq<string>) {
    forall i :: 0 <= i < |p| ==> IsOrdinary(p[i])
  }

  predicate IsAbsolute(path: string) {
    |path| > 0 && path[0] == Separator
  }

  predicate StartsWith(s: string, prefix: string) {
    |prefix| <= |s| && s[..|prefix|] == prefix
  }

  /** `p` lies strictly below `base` (a proper descendant). */
  predicate StrictlyUnder(p: seq<string>, base: seq<string>) {
    |base| < |p| && p[..|base|] == base
  }

  /** `p` is `base` or lies below it. */
  predicate Within(p: seq<string>, base: seq<string>) {
    |base| <= |p| && p[..|base|] == base
  }

  /** Length of the leading run of non-separator characters. */
  function SegmentLength(s: string): (n: nat)
    ensures n <= |s|
    ensures NoSeparator(s[..n])
    ensures n < |s| ==> s[n] == Separator
  {
    if s == [] || s[0] == Separator then 0
    else
      var m := SegmentLength(s[1..]);
      assert s[..m + 1] == [s[0]] + s[1..][..m];
      m + 1
  }

  /** The segments of a path string. */
  function Split(s: string): (p: seq<string>)
    ensures AllSegments(p)
    decreases |s|
  {
    if s == [] then []
    else if s[0] == Separator then Split(s[1..])
    else
      var n := SegmentLength(s);
      [s[..n]] + Split(s[n..])
  }

  /** Segments joined with the separator, as File.path renders a relative path. */
  function Join(p: seq<string>): string {
    if |p| == 0 then ""
    else if |p| == 1 then p[0]
    else p[0] + [Separator] + Join(p[1..])
  }

  /** The last segment: what java.io.File.getName returns ("" for the root or the empty path). */
  function Name(path: string): string {
    var p := Split(path);
    if p == [] then "" else p[|p| - 1]
  }

  /**
   * Lexical canonicalisation: "." is dropped, ".." removes the segment before it
   * (and stays at the root when there is none).
   */
  function Canon(p: seq<string>): (c: seq<string>)
    ensures |c| <= |p|
    ensures AllSegments(p) ==> AllOrdinary(c)
    decreases |p|
  {
    if p == [] then []
    else
      var c := Canon(p[..|p| - 1]);
      var s := p[|p| - 1];
      assert AllSegments(p) ==> AllSegments(p[..|p| - 1]) && IsSegment(s);
      if s == "" || s == "." then c
      else if s == ".." then (if c == [] then [] else c[..|c| - 1])
      else c + [s]
  }

  /** A directory other than the root, named by ordinary segments. */
  type WorkingDir = p: seq<string> | p != [] && AllOrdinary(p) witness ["home"]

  /**
   * The process's working directory ("user.dir"), against which relative
   * paths are resolved. Its value is left open: every property here holds
   * whatever it is.
   */
  const WorkingDirectory: WorkingDir

  /** Where a path string starts from: the root if it is absolute, else the working directory. */
  function Anchor(path: string): (a: seq<string>)
    ensures AllOrdinary(a)
    ensures IsAbsolute(path) <==> a == []
  {
    if IsAbsolute(path) then [] else WorkingDirectory
  }

  /** The segments of the absolute path a string denotes, before normalisation. */
  function Locate(path: string): (p: seq<string>)
    ensures AllSegments(p)
    ensures p == Anchor(path) + Split(path)
  {
    var a := Anchor(path);
    SegmentsConcat(a, Split(path));
    a + Split(path)
  }

  /**
   * The canonical absolute path a string denotes (File.getCanonicalFile):
   * ordinary segments only, and for a path that needs no normalisation its
   * anchor followed by its own segments.
   */
  function Resolve(path: string): (r: seq<string>)
    ensures AllOrdinary(r)
    ensures AllOrdinary(Split(path)) ==> r == Anchor(path) + Split(path)
  {
    CanonLocated(Anchor(path), Split(path));
    Canon(Locate(path))
  }

  /** A path with a segment locates to its parent's segments followed by its name. */
  lemma LocateEndsWithName(path: string)
    requires Split(path) != []
    ensures var p := Locate(path);
            p != [] && p == p[..|p| - 1] + [Name(path)] && AllSegments(p[..|p| - 1])
  {
    var p := Locate(path);
    var s := Split(path);
    assert p[|p| - 1] == s[|s| - 1] by {
      assert p == Anchor(path) + s;
    }
    FrontAndLast(p);
  }

  /** A non-empty sequence of segments is its front followed by its last element. */
  lemma FrontAndLast(p: seq<string>)
    requires p != [] && AllSegments(p)
    ensures p == p[..|p| - 1] + [p[|p| - 1]] && AllSegments(p[..|p| - 1])
  {
    assert forall i | 0 <= i < |p| - 1 :: p[..|p| - 1][i] == p[i];
  }

  lemma CanonLocated(a: seq<string>, s: seq<string>)
    requires AllOrdinary(a) && AllSegments(s)
    ensures AllOrdinary(Canon(a + s))
    ensures AllOrdinary(s) ==> Canon(a + s) == a + s
  {
    SegmentsConcat(a, s);
    CanonOrdinary(a + s);
    if AllOrdinary(s) {
      CanonAppend(a, s);
      CanonOfOrdinary(a);
    }
  }

  lemma SegmentsConcat(a: seq<string>, b: seq<string>)
    requires AllSegments(a) && AllSegments(b)
    ensures AllSegments(a + b)
  {
    forall i | 0 <= i < |a + b| ensures IsSegment((a + b)[i]) {
      if i >= |a| {
        assert (a + b)[i] == b[i - |a|];
      }
    }
  }

  /** Canonicalising split segments leaves ordinary segments only. */
  lemma CanonOrdinary(p: seq<string>)
    requires AllSegments(p)
    ensures AllOrdinary(Canon(p))
  {
  }

  /** Resolved paths consist of ordinary segments only. */
  lemma ResolveOrdinary(path: string)
    ensures AllOrdinary(Resolve(path))
  {
  }

  /** "/a/b" for [a, b]; "" for the empty sequence. */
  function Absolute(p: seq<string>): string {
    if p == [] then "" else [Separator] + p[0] + Absolute(p[1..])
  }

  /** File.getCanonicalPath: the root renders as "/". */
  function CanonicalPath(p: seq<string>): string {
    if p == [] then [Separator] else Absolute(p)
  }

  /** `..` repeated k times. */
  function Ups(k: nat): (r: seq<string>)
    ensures |r| == k
    ensures forall i :: 0 <= i < k ==> r[i] == ".."
  {
    if k == 0 then [] else [".."] + Ups(k - 1)
  }

  /** Length of the longest common prefix. */
  function CommonPrefixLength(p: seq<string>, q: seq<string>): (n: nat)
    ensures n <= |p| && n <= |q|
    ensures p[..n] == q[..n]
    ensures n < |p| && n < |q| ==> p[n] != q[n]
  {
    if p == [] || q == [] || p[0] != q[0] then 0
    else
      var m := CommonPrefixLength(p[1..], q[1..]);
      assert p[..m + 1] == [p[0]] + p[1..][..m];
      assert q[..m + 1] == [q[0]] + q[1..][..m];
      m + 1
  }

  /**
   * Kotlin's File.relativeTo on normalised paths: climb out of `base` to the
   * common ancestor with "..", then descend into `p`.
   */
  function RelativeTo(p: seq<string>, base: seq<string>): seq<string> {
    var n := CommonPrefixLength(p, base);
    Ups(|base| - n) + p[n..]
  }

  // ----- lemmas -----

  lemma {:induction false} SegmentLengthOf(a: string, t: string)
    requires NoSeparator(a)
    requires t == [] || t[0] == Separator
    ensures SegmentLength(a + t) == |a|
  {
    if a == [] {
      assert a + t == t;
    } else {
      assert (a + t)[0] == a[0];
      assert (a + t)[1..] == a[1..] + t;
      SegmentLengthOf(a[1..], t);
    }
  }

  lemma SplitSeparator(t: string)
    ensures Split([Separator] + t) == Split(t)
  {
    assert ([Separator] + t)[1..] == t;
  }

  /** Splitting a joined path gives the segments back. */
  lemma {:induction false} SplitJoin(p: seq<string>)
    requires AllSegments(p)
    ensures Split(Join(p)) == p
  {
    if |p| == 0 {
    } else if |p| == 1 {
      var a := p[0];
      SegmentLengthOf(a, []);
      assert a + [] == a;
      assert a[..|a|] == a;
      assert a[|a|..] == [];
    } else {
      var a := p[0];
      var t := [Separator] + Join(p[1..]);
      var s := a + t;
      assert Join(p) == s;
      SegmentLengthOf(a, t);
      assert s[..|a|] == a;
      assert s[|a|..] == t;
      SplitSeparator(Join(p[1..]));
      SplitJoin(p[1..]);
      assert Split(s) == [a] + Split(t);
      assert p == [p[0]] + p[1..];
    }
  }

  /** Join is injective on segment sequences. */
  lemma JoinInjective(p: seq<string>, q: seq<string>)
    requires AllSegments(p) && AllSegments(q)
    requires Join(p) == Join(q)
    ensures p == q
  {
    SplitJoin(p);
    SplitJoin(q);
  }

  /** The last character of a joined, non-empty path is that of its last segment. */
  lemma {:induction false} JoinEndsWithLastSegment(p: seq<string>)
    requires AllSegments(p) && p != []
    ensures |Join(p)| > 0 && Join(p)[|Join(p)| - 1] == p[|p| - 1][|p[|p| - 1]| - 1]
  {
    if |p| > 1 {
      JoinEndsWithLastSegment(p[1..]);
      assert p[1..][|p| - 2] == p[|p| - 1];
    }
  }

  /** Appending ordinary segments commutes with canonicalisation. */
  lemma {:induction false} CanonAppend(b: seq<string>, r: seq<string>)
    requires AllOrdinary(r)
    ensures Canon(b + r) == Canon(b) + r
    decreases |r|
  {
    if r == [] {
      assert b + r == b;
    } else {
      var r' := r[..|r| - 1];
      assert (b + r)[..|b + r| - 1] == b + r';
      assert (b + r)[|b + r| - 1] == r[|r| - 1];
      CanonAppend(b, r');
      assert Canon(b) + r' + [r[|r| - 1]] == Canon(b) + r;
    }
  }

  /** A sequence of ordinary segments is already canonical. */
  lemma CanonOfOrdinary(p: seq<string>)
    requires AllOrdinary(p)
    ensures Canon(p) == p
  {
    CanonAppend([], p);
    assert [] + p == p;
  }

  lemma RelativeToDescendant(p: seq<string>, base: seq<string>)
    requires Within(p, base)
    ensures RelativeTo(p, base) == p[|base|..]
  {
    var n := CommonPrefixLength(p, base);
    assert n == |base|;
  }

  /** A prefix that contains a separator fixes the length of the first segment. */
  lemma {:induction false} SegmentLengthOfPrefix(s: string, pre: string)
    requires StartsWith(s, pre)
    requires SegmentLength(pre) < |pre|
    ensures SegmentLength(s) == SegmentLength(pre)
  {
    assert s[0] == pre[0];
    if pre[0] != Separator {
      assert s[1..][..|pre| - 1] == pre[1..];
      SegmentLengthOfPrefix(s[1..], pre[1..]);
    }
  }

  /**
   * Two path strings with a segment boundary after `a` and `b` agree on a
   * prefix only if the segments are equal.
   */
  lemma SegmentBoundary(a: string, x: string, b: string, y: string)
    requires IsSegment(a) && IsSegment(b)
    requires x == [] || x[0] == Separator
    requires |y| > 0 && y[0] == Separator
    ensures StartsWith(a + x, b + y) <==> a == b && StartsWith(x, y)
  {
    var s, pre := a + x, b + y;
    if StartsWith(s, pre) {
      SegmentLengthOf(a, x);
      SegmentLengthOf(b, y);
      SegmentLengthOfPrefix(s, pre);
      assert a == s[..|a|] == pre[..|a|] == b;
      assert s[|a|..][..|y|] == y;
    }
    if a == b && StartsWith(x, y) {
      assert s[..|pre|] == a + x[..|y|];
    }
  }

  lemma AbsoluteShape(p: seq<string>)
    requires AllSegments(p)
    ensures Absolute(p) == [] <==> p == []
    ensures p != [] ==> Absolute(p)[0] == Separator
  {
  }

  lemma StartsWithCons(c: char, s: string, pre: string)
    ensures StartsWith([c] + s, [c] + pre) <==> StartsWith(s, pre)
  {
    if StartsWith(s, pre) {
      assert ([c] + s)[..|pre| + 1] == [c] + s[..|pre|];
    }
    if StartsWith([c] + s, [c] + pre) {
      assert ([c] + s)[..|pre| + 1][1..] == s[..|pre|];
    }
  }

  /**
   * The rendered-string test `Absolute(e)` starts with `Absolute(d) + "/"`
   * holds exactly when `e` lies strictly below `d`, segment by segment.
   */
  lemma {:induction false} AbsolutePrefix(d: seq<string>, e: seq<string>)
    requires AllSegments(d) && AllSegments(e)
    ensures StartsWith(Absolute(e), Absolute(d) + [Separator]) <==> StrictlyUnder(e, d)
  {
    AbsoluteShape(e);
    if d == [] {
      assert Absolute(d) + [Separator] == [Separator];
      assert e != [] ==> Absolute(e)[..1] == [Separator];
    } else if e == [] {
    } else {
      var x := Absolute(e[1..]);
      var y := Absolute(d[1..]) + [Separator];
      AbsoluteShape(e[1..]);
      AbsoluteShape(d[1..]);
      assert Absolute(e) == [Separator] + (e[0] + x);
      assert Absolute(d) + [Separator] == [Separator] + (d[0] + y);
      StartsWithCons(Separator, e[0] + x, d[0] + y);
      SegmentBoundary(e[0], x, d[0], y);
      AbsolutePrefix(d[1..], e[1..]);
      if StrictlyUnder(e, d) {
        assert e[0] == d[0];
        assert e[1..][..|d| - 1] == e[..|d|][1..];
      }
      if e[0] == d[0] && StrictlyUnder(e[1..], d[1..]) {
        assert e[..|d|] == [e[0]] + e[1..][..|d| - 1];
        assert d == [d[0]] + d[1..];
      }
    }
  }

  /**
   * The containment test on canonical path strings: below a non-root directory
   * it is exactly strict containment; below the root ("/" + "/" == "//") it never holds.
   */
  lemma CanonicalContainment(d: seq<string>, e: seq<string>)
    requires AllSegments(d) && AllSegments(e)
    ensures StartsWith(CanonicalPath(e), CanonicalPath(d) + [Separator]) <==> d != [] && StrictlyUnder(e, d)
  {
    AbsoluteShape(e);
    AbsoluteShape(d);
    if d == [] {
      if e != [] {
        assert |e[0]| > 0 && Absolute(e)[1] == e[0][0];
        assert CanonicalPath(e)[..2] != [Separator, Separator];
      }
    } else {
      AbsolutePrefix(d, e);
      if e == [] {
        assert |CanonicalPath(d) + [Separator]| > 1;
      }
    }
  }
}
