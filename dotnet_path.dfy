/**
 * The pieces of System.IO.Path and String that the archiver relies on, on
 * Unix-style paths: '/' is the only separator and no character is invalid.
 */
module DotNetPath {

  const DirectorySeparator: char := '/'

  /** String.LastIndexOf(char): the last position of c in s, or -1. */
  function LastIndexOf(s: string, c: char): (r: int)
    ensures -1 <= r < |s|
    ensures 0 <= r ==> s[r] == c
    ensures forall i :: r < i < |s| ==> s[i] != c
  {
    if |s| == 0 then -1
    else if s[|s| - 1] == c then |s| - 1
    else LastIndexOf(s[..|s| - 1], c)
  }

  /** The three facts about LastIndexOf determine it. */
  lemma LastIndexOfIs(s: string, c: char, r: int)
    requires -1 <= r < |s|
    requires 0 <= r ==> s[r] == c
    requires forall i :: r < i < |s| ==> s[i] != c
    ensures LastIndexOf(s, c) == r
  {
  }

  /** Path.GetFileName: what follows the last separator. */
  function FileName(path: string): (r: string)
    ensures DirectorySeparator !in r
  {
    path[LastIndexOf(path, DirectorySeparator) + 1..]
  }

  /**
   * Path.GetExtension: the file name from its last '.' on, or "" when the
   * name has no '.' or ends with it.
   */
  function Extension(path: string): (r: string)
  {
    var name := FileName(path);
    var dot := LastIndexOf(name, '.');
    if dot < 0 || dot == |name| - 1 then "" else name[dot..]
  }

  /**
   * Path.GetFileNameWithoutExtension: the file name up to its last '.', or the
   * whole file name when it has none.
   */
  function FileNameWithoutExtension(path: string): (r: string)
    ensures DirectorySeparator !in r
  {
    var name := FileName(path);
    var dot := LastIndexOf(name, '.');
    if dot < 0 then name else name[..dot]
  }

  /** The file name is the longest suffix of the path free of separators. */
  lemma FileNameIsLastSegment(path: string)
    ensures var r := FileName(path);
      |r| <= |path| && r == path[|path| - |r|..] &&
      (|r| < |path| ==> path[|path| - |r| - 1] == DirectorySeparator)
  {
  }

  /**
   * The stem ends at the last '.' of the file name (or is all of it), and the
   * extension is what follows, '.' included, unless that is the '.' alone.
   */
  lemma StemAndExtension(path: string)
    ensures var name, stem, ext := FileName(path), FileNameWithoutExtension(path), Extension(path);
      (name == stem && ext == [] && '.' !in name) ||
      (name == stem + "." + name[|stem| + 1..] && '.' !in name[|stem| + 1..] &&
       ext == (if |name| == |stem| + 1 then [] else name[|stem|..]))
  {
    var name := FileName(path);
    var dot := LastIndexOf(name, '.');
    if 0 <= dot {
      assert name == name[..dot] + "." + name[dot + 1..];
    }
  }

  /** Char.ToLowerInvariant on ASCII letters. */
  function ToLowerChar(c: char): (r: char)
    ensures 'A' <= c <= 'Z' ==> 'a' <= r <= 'z' && r as int == c as int + 32
    ensures !('A' <= c <= 'Z') ==> r == c
  {
    if 'A' <= c <= 'Z' then (c as int + 32) as char else c
  }

  /** String.ToLower: every character lower-cased, in place. */
  function ToLower(s: string): (r: string)
    ensures |r| == |s|
    ensures forall i :: 0 <= i < |s| ==> r[i] == ToLowerChar(s[i])
  {
    if s == [] then [] else ToLower(s[..|s| - 1]) + [ToLowerChar(s[|s| - 1])]
  }
}
