/**
 * The slice of Go's path/filepath the core uses, for '/'-separated paths.
 * Lexical cleaning ("..", ".", repeated separators) is not modelled.
 */
module Paths {
  import opened Base

  const Separator: char := '/'

  predicate IsAbs(p: string) { |p| > 0 && p[0] == Separator }

  predicate NoSeparator(s: string) { forall i :: 0 <= i < |s| ==> s[i] != Separator }

  /** filepath.Join of two elements: empty elements are ignored. */
  function Join(dir: string, name: string): string
  {
    if dir == "" then name else if name == "" then dir else dir + [Separator] + name
  }

  /**
   * filepath.Abs: a relative path is resolved against the working directory, which os.Getwd
   * reports (None when it fails); an absolute path needs no working directory.
   */
  function Abs(cwd: Option<string>, p: string): (r: Option<string>)
    ensures IsAbs(p) ==> r == Some(p)
    ensures !IsAbs(p) ==> (r.Some? <==> cwd.Some?)
    ensures cwd.Some? && IsAbs(cwd.value) ==> r.Some? && IsAbs(r.value)
  {
    if IsAbs(p) then Some(p)
    else match cwd
      case None => None
      case Some(dir) => Some(Join(dir, p))
  }

  /**
   * The file part of filepath.Split: everything after the final separator. For a path that
   * does not end in a separator this is also filepath.Base.
   */
  function LastSegment(p: string): string
    decreases |p|
  {
    if p == [] || p[|p| - 1] == Separator then []
    else LastSegment(p[..|p| - 1]) + [p[|p| - 1]]
  }

  /** The segment is the longest separator-free suffix of the path. */
  lemma {:induction false} LastSegmentIsSuffix(p: string)
    ensures |LastSegment(p)| <= |p| && LastSegment(p) == p[|p| - |LastSegment(p)|..]
    ensures NoSeparator(LastSegment(p))
    ensures |LastSegment(p)| < |p| ==> p[|p| - |LastSegment(p)| - 1] == Separator
    decreases |p|
  {
    if p != [] && p[|p| - 1] != Separator {
      var init := p[..|p| - 1];
      LastSegmentIsSuffix(init);
      var r := LastSegment(p);
      assert r == LastSegment(init) + [p[|p| - 1]];
      assert init[|init| - |LastSegment(init)|..] + [p[|p| - 1]] == p[|p| - |r|..];
    }
  }

  /** A segment without separators placed after a directory prefix is what Split returns. */
  lemma {:induction false} LastSegmentAfter(dir: string, name: string)
    requires dir == [] || dir[|dir| - 1] == Separator
    requires NoSeparator(name)
    ensures LastSegment(dir + name) == name
    decreases |name|
  {
    if name != [] {
      var init := name[..|name| - 1];
      assert (dir + name)[..|dir + name| - 1] == dir + init;
      assert (dir + name)[|dir + name| - 1] == name[|name| - 1];
      LastSegmentAfter(dir, init);
    } else {
      assert dir + name == dir;
    }
  }
}
