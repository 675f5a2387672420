/** A stand-in for the three functions of Node's `path` module that the Poetry
    scanner uses (`dirname`, `basename`, `join`), for POSIX paths whose
    components are separated by a single `/`. */
module Paths {

  const Separator: char := '/'

  /** Index of the last separator in `p`, or -1 when there is none. */
  function LastSeparator(p: string): (i: int)
    ensures -1 <= i < |p|
    ensures 0 <= i ==> p[i] == Separator
    ensures forall k :: i < k < |p| ==> p[k] != Separator
  {
    if |p| == 0 then -1
    else if p[|p| - 1] == Separator then |p| - 1
    else LastSeparator(p[..|p| - 1])
  }

  /** `path.dirname`: everything before the last separator; "/" for a file in
      the root, "." for a path without a separator. */
  function Dirname(p: string): string
  {
    var i := LastSeparator(p);
    if i < 0 then "." else if i == 0 then "/" else p[..i]
  }

  /** `path.basename`: everything after the last separator. */
  function Basename(p: string): (name: string)
    ensures Separator !in name
    ensures |name| <= |p|
  {
    p[LastSeparator(p) + 1..]
  }

  /** `path.join(dir, name)` for a single file name. */
  function Join(dir: string, name: string): string
  {
    if dir == "" || dir == "." then name
    else if dir[|dir| - 1] == Separator then dir + name
    else dir + [Separator] + name
  }

  /** A path is its directory, a separator (none after the root "/") and its
      base name; a path without a separator lies in "." and is its own base
      name. */
  lemma DirnameThenBasename(p: string)
    ensures Separator !in p ==> Dirname(p) == "." && Basename(p) == p
    ensures Separator in p ==>
      (Dirname(p) == "/" && p == Dirname(p) + Basename(p)) || p == Dirname(p) + [Separator] + Basename(p)
  {
  }

  /** A joined path starts with the directory (unless it is "" or ".") and
      ends with the file name. */
  lemma JoinEnds(dir: string, name: string)
    ensures var p := Join(dir, name);
      && |name| <= |p| && p[|p| - |name|..] == name
      && (dir != "" && dir != "." ==> |dir| <= |p| && p[..|dir|] == dir)
  {
  }

  /** The text from `j` on starts with the end of a component: `j` is the
      end of `p` or the index of a separator. */
  ghost predicate ComponentEndsAt(p: string, j: nat)
  {
    j == |p| || (j < |p| && p[j] == Separator)
  }

  /** The component that follows the separator at `k` is "." or "..". */
  ghost predicate DotComponentAt(p: string, k: nat)
  {
    && k + 1 < |p| && p[k] == Separator && p[k + 1] == '.'
    && (ComponentEndsAt(p, k + 2) || (k + 2 < |p| && p[k + 2] == '.' && ComponentEndsAt(p, k + 3)))
  }

  /** A normalised absolute path that names a file: it starts with "/", has at
      least one character after it, no empty component, no "." or ".."
      component and no trailing "/" — the form `path.join` leaves unchanged. */
  ghost predicate IsNormalAbsolute(p: string)
  {
    && 2 <= |p|
    && p[0] == Separator
    && p[|p| - 1] != Separator
    && (forall k :: 0 <= k < |p| - 1 ==> !(p[k] == Separator && p[k + 1] == Separator))
    && (forall k: nat :: k < |p| ==> !DotComponentAt(p, k))
  }

  /** A directory as `Dirname` returns it: ".", "/", or a non-empty path
      without a trailing separator. */
  ghost predicate IsDirectory(d: string)
  {
    d == "." || d == "/" || (|d| > 0 && d[|d| - 1] != Separator)
  }

  /** A single non-empty path component. */
  ghost predicate IsFileName(n: string)
  {
    n != "" && Separator !in n
  }

  /** `dirname` of a normalised absolute path is an absolute directory, and its
      `basename` is a single component. */
  lemma NormalAbsoluteParts(p: string)
    requires IsNormalAbsolute(p)
    ensures IsDirectory(Dirname(p)) && Dirname(p)[0] == Separator
    ensures IsFileName(Basename(p))
    ensures Basename(p) != "." && Basename(p) != ".."
  {
    var i := LastSeparator(p);
    assert !DotComponentAt(p, i);
    assert 0 <= i < |p| - 1 by {
      assert p[0] == Separator;
    }
    if i > 0 {
      assert p[i - 1] != Separator;
    }
    assert Basename(p)[|Basename(p)| - 1] == p[|p| - 1];
  }

  /** Splitting a normalised absolute path and joining the parts again gives
      the path back. */
  lemma JoinDirnameBasename(p: string)
    requires IsNormalAbsolute(p)
    ensures Join(Dirname(p), Basename(p)) == p
  {
    var i := LastSeparator(p);
    assert 0 <= i by {
      assert p[0] == Separator;
    }
    if i == 0 {
      assert Join("/", p[1..]) == p;
    } else {
      assert p[i - 1] != Separator;
      assert p[..i] + [Separator] + p[i + 1..] == p;
    }
  }

  /** Joining a directory with a file name and splitting the result gives the
      two parts back. */
  lemma DirnameBasenameOfJoin(d: string, n: string)
    requires IsDirectory(d) && IsFileName(n)
    ensures Dirname(Join(d, n)) == d
    ensures Basename(Join(d, n)) == n
  {
    var p := Join(d, n);
    var i := LastSeparator(p);
    if d == "." {
      assert i == -1;
    } else if d == "/" {
      assert p == [Separator] + n;
      assert p[0] == Separator;
      assert i == 0;
    } else {
      assert p == d + [Separator] + n;
      assert p[|d|] == Separator;
      assert i == |d|;
      assert p[..i] == d;
    }
  }
}
