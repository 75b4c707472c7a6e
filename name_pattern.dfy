/**
 * A deterministic model of the pattern `(.*)-v([\d\w]+\.[\d\w]+\.[\d\w]+)`
 * matched without anchors and ignoring case. Because `\w` never matches
 * '.', the first two version groups are forced to be whole runs of word
 * characters and the greedy third group takes its whole run. The leftmost
 * match wins, and `.` does not match a line feed, so the name runs from the
 * start of the first line that holds a version tag; the greedy `(.*)` makes
 * it end at the last tag on that line.
 */
module NamePattern {
  import opened Wrappers

  /** `\w` (and `\d`, which it contains) on ASCII: a letter, a digit or '_'. */
  predicate IsWordChar(c: char) {
    'a' <= c <= 'z' || 'A' <= c <= 'Z' || '0' <= c <= '9' || c == '_'
  }

  /** A non-empty run of word characters: what `[\d\w]+` matches. */
  predicate IsWord(w: string) {
    |w| > 0 && forall i :: 0 <= i < |w| ==> IsWordChar(w[i])
  }

  /** Three non-empty word groups separated by exactly two dots. */
  predicate IsVersion(v: string) {
    exists i, j | 0 <= i < j < |v| :: SplitsVersion(v, i, j)
  }

  /** The two dots of the version v are at i and j. */
  predicate SplitsVersion(v: string, i: int, j: int) {
    0 <= i < j < |v| && v[i] == '.' && v[j] == '.' &&
    IsWord(v[..i]) && IsWord(v[i + 1..j]) && IsWord(v[j + 1..])
  }

  /** s[k..e] is "-v" or "-V" followed by a version. */
  predicate VersionTagAt(s: string, k: int, e: int) {
    0 <= k && k + 2 <= e <= |s| && s[k] == '-' && (s[k + 1] == 'v' || s[k + 1] == 'V') &&
    IsVersion(s[k + 2..e])
  }

  /** j is where a line of s starts: at 0 or right after a line feed. */
  predicate LineStart(s: string, j: int) {
    0 <= j <= |s| && (j == 0 || s[j - 1] == '\n')
  }

  /**
   * name and version are what the pattern captures in s from the line start
   * j: name is the text from j to a version tag, holds no line feed, and no
   * tag starts before j; every later tag is past a line feed, and no longer
   * version follows the same "-v".
   */
  ghost predicate NameAndVersionAt(s: string, j: int, name: string, version: string) {
    var k := j + |name|;
    var e := k + 2 + |version|;
    LineStart(s, j) && e <= |s| && s[j..k] == name && '\n' !in name && s[k + 2..e] == version &&
    VersionTagAt(s, k, e) &&
    (forall k', e' :: VersionTagAt(s, k', e') ==> j <= k') &&
    (forall k', e' :: VersionTagAt(s, k', e') && k < k' ==> '\n' in s[k..k']) &&
    (forall e' :: VersionTagAt(s, k, e') ==> e' <= e)
  }

  /** name and version are what the pattern captures in s. */
  ghost predicate IsNameAndVersion(s: string, name: string, version: string) {
    exists j :: NameAndVersionAt(s, j, name, version)
  }

  // ---- the matcher ------------------------------------------------------

  /** The end of the run of word characters that starts at i. */
  function WordEnd(s: string, i: nat): (j: nat)
    requires i <= |s|
    ensures i <= j <= |s|
    decreases |s| - i
  {
    if i < |s| && IsWordChar(s[i]) then WordEnd(s, i + 1) else i
  }

  /** WordEnd stops at the first character after i that is not a word character. */
  lemma {:induction false} WordEndRun(s: string, i: nat)
    requires i <= |s|
    ensures forall k :: i <= k < WordEnd(s, i) ==> IsWordChar(s[k])
    ensures WordEnd(s, i) == |s| || !IsWordChar(s[WordEnd(s, i)])
    decreases |s| - i
  {
    if i < |s| && IsWordChar(s[i]) {
      WordEndRun(s, i + 1);
    }
  }

  /** Where the version group matched at p ends, the last group taken greedily. */
  function VersionEnd(s: string, p: nat): (r: Option<nat>)
    requires p <= |s|
    ensures r.Some? ==> p < r.value <= |s|
  {
    var a := WordEnd(s, p);
    if a == p || a == |s| || s[a] != '.' then None
    else
      var b := WordEnd(s, a + 1);
      if b == a + 1 || b == |s| || s[b] != '.' then None
      else
        var c := WordEnd(s, b + 1);
        if c == b + 1 then None else Some(c)
  }

  /** What VersionEnd finds is a version, and no word character follows it. */
  lemma VersionEndSound(s: string, p: nat)
    requires p <= |s|
    ensures var r := VersionEnd(s, p);
      r.Some? ==> IsVersion(s[p..r.value]) && (r.value == |s| || !IsWordChar(s[r.value]))
  {
    if VersionEnd(s, p).Some? {
      var a := WordEnd(s, p);
      var b := WordEnd(s, a + 1);
      var c := WordEnd(s, b + 1);
      assert VersionEnd(s, p) == Some(c);
      WordEndRun(s, p);
      WordEndRun(s, a + 1);
      WordEndRun(s, b + 1);
      VersionOfRuns(s, p, a, b, c);
    }
  }

  /** The end of the line that starts at i: the next line feed, or the end of s. */
  function LineEnd(s: string, i: nat): (n: nat)
    requires i <= |s|
    ensures i <= n <= |s|
    decreases |s| - i
  {
    if i < |s| && s[i] != '\n' then LineEnd(s, i + 1) else i
  }

  /** LineEnd stops at the first line feed at or after i. */
  lemma {:induction false} LineEndRun(s: string, i: nat)
    requires i <= |s|
    ensures forall m :: i <= m < LineEnd(s, i) ==> s[m] != '\n'
    ensures LineEnd(s, i) < |s| ==> s[LineEnd(s, i)] == '\n'
    decreases |s| - i
  {
    if i < |s| && s[i] != '\n' {
      LineEndRun(s, i + 1);
    }
  }

  /** The rest of the pattern, `-v` and the version group, matches at k. */
  predicate MarkerAt(s: string, k: nat) {
    k + 2 <= |s| && s[k] == '-' && (s[k + 1] == 'v' || s[k + 1] == 'V') && VersionEnd(s, k + 2).Some?
  }

  /** The greedy `(.*)` from lo: the largest k in [lo, bound] at which the rest matches. */
  function LastMarker(s: string, lo: nat, bound: nat): (r: Option<nat>)
    requires lo <= bound <= |s|
    ensures r.Some? ==> lo <= r.value <= bound && MarkerAt(s, r.value)
    ensures r.Some? ==> forall i :: r.value < i <= bound ==> !MarkerAt(s, i)
    ensures r.None? ==> forall i :: lo <= i <= bound ==> !MarkerAt(s, i)
    decreases bound - lo
  {
    if MarkerAt(s, bound) then Some(bound)
    else if bound == lo then None
    else LastMarker(s, lo, bound - 1)
  }

  /** Where a match starts, where its tag starts, and where its version ends. */
  datatype Match = Match(start: nat, tag: nat, end: nat)

  /**
   * Regex.Match tried at the start of each line from the line at i on: a
   * start inside a line finds no tag that its line start does not, and no
   * match crosses a line feed.
   */
  function MatchFrom(s: string, i: nat): (r: Option<Match>)
    requires i <= |s|
    ensures r.Some? ==> i <= r.value.start <= r.value.tag && MarkerAt(s, r.value.tag)
    ensures r.Some? ==> Some(r.value.end) == VersionEnd(s, r.value.tag + 2)
    decreases |s| - i
  {
    var n := LineEnd(s, i);
    match LastMarker(s, i, n)
    case Some(k) => Some(Match(i, k, VersionEnd(s, k + 2).value))
    case None => if n == |s| then None else MatchFrom(s, n + 1)
  }

  // ---- the matcher agrees with the predicates ---------------------------

  lemma VersionOfRuns(s: string, p: nat, a: nat, b: nat, c: nat)
    requires p < a < b < c <= |s| && a + 1 < b && b + 1 < c
    requires s[a] == '.' && s[b] == '.'
    requires forall k :: p <= k < a ==> IsWordChar(s[k])
    requires forall k :: a < k < b ==> IsWordChar(s[k])
    requires forall k :: b < k < c ==> IsWordChar(s[k])
    ensures IsVersion(s[p..c])
  {
    var v := s[p..c];
    var i, j := a - p, b - p;
    SliceOfSlice(s, p, c, 0, i);
    SliceOfSlice(s, p, c, i + 1, j);
    SliceOfSlice(s, p, c, j + 1, |v|);
    WordOfRun(s, p, a);
    WordOfRun(s, a + 1, b);
    WordOfRun(s, b + 1, c);
    assert v[i] == s[a] && v[j] == s[b];
    assert v[..i] == v[0..i];
    assert SplitsVersion(v, i, j);
  }

  /** A non-empty run of word characters is a word. */
  lemma WordOfRun(s: string, lo: nat, hi: nat)
    requires lo < hi <= |s|
    requires forall k :: lo <= k < hi ==> IsWordChar(s[k])
    ensures IsWord(s[lo..hi])
  {
    forall k | 0 <= k < hi - lo ensures IsWordChar(s[lo..hi][k]) { assert s[lo..hi][k] == s[lo + k]; }
  }

  /** A word run followed by a non-word character is exactly WordEnd's run. */
  lemma {:induction false} WordEndAt(s: string, i: nat, m: nat)
    requires i <= m <= |s|
    requires forall k :: i <= k < m ==> IsWordChar(s[k])
    requires m == |s| || !IsWordChar(s[m])
    ensures WordEnd(s, i) == m
    decreases m - i
  {
    if i < m {
      WordEndAt(s, i + 1, m);
    }
  }

  lemma SliceOfSlice(s: string, p: nat, e: nat, lo: nat, hi: nat)
    requires p <= e <= |s| && lo <= hi <= e - p
    ensures s[p..e][lo..hi] == s[p + lo..p + hi]
  {
    var a, b := s[p..e][lo..hi], s[p + lo..p + hi];
    assert |a| == |b|;
    forall k | 0 <= k < |a| ensures a[k] == b[k] {
      assert a[k] == s[p..e][lo + k] == s[p + lo + k];
    }
  }

  /** The characters of a word slice are word characters. */
  lemma WordSlice(s: string, lo: nat, hi: nat)
    requires lo <= hi <= |s|
    requires IsWord(s[lo..hi])
    ensures lo < hi && forall k :: lo <= k < hi ==> IsWordChar(s[k])
  {
    forall k | lo <= k < hi ensures IsWordChar(s[k]) { assert s[k] == s[lo..hi][k - lo]; }
  }

  /** Any version at p is found by the matcher, and the matcher's is the longest. */
  lemma VersionIsMatched(s: string, p: nat, e: nat)
    requires p <= e <= |s|
    requires IsVersion(s[p..e])
    ensures VersionEnd(s, p).Some? && e <= VersionEnd(s, p).value
  {
    var v := s[p..e];
    var i, j :| 0 <= i < j < |v| && SplitsVersion(v, i, j);
    VersionInPlace(s, p, e, i, j);
    RunsMatched(s, p, p + i, p + j, e);
  }

  /** The dots and word runs of a version, located in the string that holds it. */
  lemma VersionInPlace(s: string, p: nat, e: nat, i: nat, j: nat)
    requires p <= e <= |s|
    requires SplitsVersion(s[p..e], i, j)
    ensures p < p + i && p + i + 1 < p + j && p + j + 1 < e
    ensures s[p + i] == '.' && s[p + j] == '.'
    ensures forall k :: p <= k < p + i ==> IsWordChar(s[k])
    ensures forall k :: p + i < k < p + j ==> IsWordChar(s[k])
    ensures forall k :: p + j < k < e ==> IsWordChar(s[k])
  {
    var v := s[p..e];
    SliceOfSlice(s, p, e, 0, i);
    SliceOfSlice(s, p, e, i + 1, j);
    SliceOfSlice(s, p, e, j + 1, |v|);
    WordSlice(s, p, p + i);
    WordSlice(s, p + i + 1, p + j);
    WordSlice(s, p + j + 1, e);
    assert s[p + i] == v[i] && s[p + j] == v[j];
  }

  /** Three word runs separated by dots are matched, the last one at least up to e. */
  lemma RunsMatched(s: string, p: nat, a: nat, b: nat, e: nat)
    requires p < a && a + 1 < b && b + 1 < e <= |s|
    requires s[a] == '.' && s[b] == '.'
    requires forall k :: p <= k < a ==> IsWordChar(s[k])
    requires forall k :: a < k < b ==> IsWordChar(s[k])
    requires forall k :: b < k < e ==> IsWordChar(s[k])
    ensures VersionEnd(s, p).Some? && e <= VersionEnd(s, p).value
  {
    WordEndAt(s, p, a);
    WordEndAt(s, a + 1, b);
    WordEndRun(s, b + 1);
  }

  /** The matcher's MarkerAt is exactly the existence of a version tag. */
  lemma MarkerIsTag(s: string, k: nat)
    ensures MarkerAt(s, k) <==> exists e :: VersionTagAt(s, k, e)
    ensures MarkerAt(s, k) ==> VersionTagAt(s, k, VersionEnd(s, k + 2).value)
    ensures MarkerAt(s, k) ==> forall e :: VersionTagAt(s, k, e) ==> e <= VersionEnd(s, k + 2).value
  {
    if MarkerAt(s, k) {
      VersionEndSound(s, k + 2);
      assert VersionTagAt(s, k, VersionEnd(s, k + 2).value);
    }
    forall e | VersionTagAt(s, k, e) ensures MarkerAt(s, k) && e <= VersionEnd(s, k + 2).value {
      VersionIsMatched(s, k + 2, e);
    }
  }

  // ---- the captures -----------------------------------------------------

  /** Groups 1 and 2 of a successful match, or None when the match fails. */
  function Capture(s: string): Option<(string, string)> {
    match MatchFrom(s, 0)
    case None => None
    case Some(m) => Some((s[m.start..m.tag], s[m.tag + 2..m.end]))
  }

  /**
   * The match succeeds exactly when a version tag occurs in s, and then
   * captures, on the first line that holds a tag, the name before the last
   * tag of that line and the longest version at it.
   */
  lemma CaptureMeaning(s: string)
    ensures Capture(s).Some? <==> exists k, e :: VersionTagAt(s, k, e)
    ensures Capture(s).Some? ==> IsNameAndVersion(s, Capture(s).value.0, Capture(s).value.1)
  {
    if MatchFrom(s, 0).None? {
      MatchFromFailsOnlyWithoutTag(s, 0);
    } else {
      var m := MatchFrom(s, 0).value;
      CaptureOfMatch(s, m.start, m.tag, m.end);
      FirstMatchCaptured(s);
    }
  }

  /** The captures are the text between the match's start and its tag, and the version after the tag. */
  lemma CaptureOfMatch(s: string, j: nat, k: nat, e: nat)
    requires MatchFrom(s, 0) == Some(Match(j, k, e))
    ensures Capture(s) == Some((s[j..k], s[k + 2..e]))
  {
  }

  /** The first match is at a version tag, and cuts a name and a version the pattern captures. */
  lemma FirstMatchCaptured(s: string)
    requires MatchFrom(s, 0).Some?
    ensures var m := MatchFrom(s, 0).value;
      VersionTagAt(s, m.tag, m.end) && IsNameAndVersion(s, s[m.start..m.tag], s[m.tag + 2..m.end])
  {
    var m := MatchFrom(s, 0).value;
    var j := FirstTaggedLine(s, 0, m);
    LineTagCaptured(s, j, m.tag, m.end, s[m.start..m.tag], s[m.tag + 2..m.end]);
  }

  /** MatchFrom from a line start before which no tag starts fails only when no tag occurs at all. */
  lemma {:induction false} MatchFromFailsOnlyWithoutTag(s: string, i: nat)
    requires i <= |s| && LineStart(s, i)
    requires forall k, e :: VersionTagAt(s, k, e) ==> i <= k
    requires MatchFrom(s, i).None?
    ensures forall k, e :: !VersionTagAt(s, k, e)
    decreases |s| - i
  {
    var n := LineEnd(s, i);
    LineEndRun(s, i);
    assert LastMarker(s, i, n).None?;
    MatchFromNextLine(s, i);
    NoTagOnLine(s, i, n);
    if n < |s| {
      MatchFromFailsOnlyWithoutTag(s, n + 1);
    }
  }

  /** With a match on the line at i, MatchFrom takes the last one on that line. */
  lemma MatchFromThisLine(s: string, i: nat)
    requires i <= |s| && LastMarker(s, i, LineEnd(s, i)).Some?
    ensures var k := LastMarker(s, i, LineEnd(s, i)).value;
      MatchFrom(s, i) == Some(Match(i, k, VersionEnd(s, k + 2).value))
  {
  }

  /** With no match on the line at i, MatchFrom goes on at the next line, or fails on the last one. */
  lemma MatchFromNextLine(s: string, i: nat)
    requires i <= |s| && LastMarker(s, i, LineEnd(s, i)).None?
    ensures LineEnd(s, i) < |s| ==> MatchFrom(s, i) == MatchFrom(s, LineEnd(s, i) + 1)
    ensures LineEnd(s, i) == |s| ==> MatchFrom(s, i).None?
  {
  }

  /**
   * A successful MatchFrom from a line start before which no tag starts
   * matches from the start j of the first line on which the matcher's test
   * holds.
   */
  lemma {:induction false} FirstTaggedLine(s: string, i: nat, m: Match) returns (j: nat)
    requires i <= |s| && LineStart(s, i)
    requires forall k, e :: VersionTagAt(s, k, e) ==> i <= k
    requires MatchFrom(s, i) == Some(m)
    ensures i <= j <= |s| && LineStart(s, j) && (forall k, e :: VersionTagAt(s, k, e) ==> j <= k)
    ensures j == m.start && LastMarker(s, j, LineEnd(s, j)) == Some(m.tag)
    decreases |s| - i
  {
    var n := LineEnd(s, i);
    j := i;
    if LastMarker(s, i, n).Some? {
      MatchFromThisLine(s, i);
    } else {
      NextLineStart(s, i);
      MatchFromNextLine(s, i);
      NoTagOnLine(s, i, n);
      j := FirstTaggedLine(s, n + 1, m);
    }
  }

  /** The line after the one at i starts right after its line feed. */
  lemma NextLineStart(s: string, i: nat)
    requires i <= |s|
    ensures LineEnd(s, i) < |s| ==> LineStart(s, LineEnd(s, i) + 1)
  {
    LineEndRun(s, i);
  }

  /** Each version tag is a place where the matcher's test holds, and ends within its version. */
  lemma TagsAreMarkers(s: string)
    ensures forall k: nat, e :: VersionTagAt(s, k, e) ==> MarkerAt(s, k) && e <= VersionEnd(s, k + 2).value
  {
    forall k: nat, e | VersionTagAt(s, k, e) ensures MarkerAt(s, k) && e <= VersionEnd(s, k + 2).value {
      MarkerIsTag(s, k);
    }
  }

  /** With no match on the line [i, n], every tag starts after n. */
  lemma NoTagOnLine(s: string, i: nat, n: nat)
    requires i <= n <= |s|
    requires forall k, e :: VersionTagAt(s, k, e) ==> i <= k
    requires forall m :: i <= m <= n ==> !MarkerAt(s, m)
    ensures forall k, e :: VersionTagAt(s, k, e) ==> n < k
  {
    TagsAreMarkers(s);
  }

  /** The last match on the line at i, with its longest version, is what the pattern captures. */
  lemma LineTagCaptured(s: string, i: nat, k: nat, e: nat, name: string, version: string)
    requires LineStart(s, i) && i <= |s| && LastMarker(s, i, LineEnd(s, i)) == Some(k)
    requires forall k', e' :: VersionTagAt(s, k', e') ==> i <= k'
    requires VersionEnd(s, k + 2) == Some(e) && name == s[i..k] && version == s[k + 2..e]
    ensures VersionTagAt(s, k, e) && IsNameAndVersion(s, name, version)
  {
    var n := LineEnd(s, i);
    LineEndRun(s, i);
    MarkerIsTag(s, k);
    assert i + |name| == k && k + 2 + |version| == e;
    forall m | 0 <= m < |name| ensures name[m] != '\n' {
      assert name[m] == s[i + m];
    }
    LaterTagsOnLaterLines(s, k, n);
    assert NameAndVersionAt(s, i, name, version);
  }

  /** With no match after k up to the line feed at n, every tag after k is past a line feed. */
  lemma LaterTagsOnLaterLines(s: string, k: nat, n: nat)
    requires k <= n <= |s| && (n < |s| ==> s[n] == '\n')
    requires forall m :: k < m <= n ==> !MarkerAt(s, m)
    ensures forall k', e' :: VersionTagAt(s, k', e') && k < k' ==> '\n' in s[k..k']
  {
    forall k', e' | VersionTagAt(s, k', e') && k < k' ensures '\n' in s[k..k'] {
      MarkerIsTag(s, k');
      assert s[k..k'][n - k] == s[n];
    }
  }

  // ---- consequences -----------------------------------------------------

  /** The name and the version are cut from s, so a character s lacks is in neither. */
  lemma CapturedPartsFromText(s: string, name: string, version: string, c: char)
    requires IsNameAndVersion(s, name, version) && c !in s
    ensures c !in name && c !in version
  {
    var j :| NameAndVersionAt(s, j, name, version);
    var k := j + |name|;
    forall i | 0 <= i < |name| ensures name[i] != c { assert name[i] == s[j..k][i] == s[j + i]; }
    forall i | 0 <= i < |version| ensures version[i] != c {
      assert version[i] == s[k + 2..k + 2 + |version|][i] == s[k + 2 + i];
    }
  }

  /** A version has only word characters and dots. */
  lemma VersionCharacters(v: string)
    requires IsVersion(v)
    ensures forall i :: 0 <= i < |v| ==> IsWordChar(v[i]) || v[i] == '.'
  {
    var i, j :| 0 <= i < j < |v| && SplitsVersion(v, i, j);
    forall k | 0 <= k < |v| ensures IsWordChar(v[k]) || v[k] == '.' {
      if k < i { assert v[k] == v[..i][k]; }
      else if i < k < j { assert v[k] == v[i + 1..j][k - i - 1]; }
      else if j < k { assert v[k] == v[j + 1..][k - j - 1]; }
    }
  }

  lemma LastMarkerIs(s: string, lo: nat, bound: nat, k: nat)
    requires lo <= k <= bound <= |s| && MarkerAt(s, k)
    requires forall i :: k < i <= bound ==> !MarkerAt(s, i)
    ensures LastMarker(s, lo, bound) == Some(k)
  {
  }

  /**
   * A name without line feeds followed by "-v" (or "-V") and a version is
   * captured as that name and that version, whatever else the name holds
   * (another tag included).
   */
  lemma TaggedStemCaptured(name: string, tag: string, version: string)
    requires '\n' !in name
    requires tag == "-v" || tag == "-V"
    requires IsVersion(version)
    ensures Capture(name + tag + version) == Some((name, version))
  {
    var stem := name + tag + version;
    assert stem[0..] == stem;
    TaggedLastLine(stem, 0, |name|, name, tag, version);
    CaptureOfMatch(stem, 0, |name|, |stem|);
  }

  /**
   * A first line without a dash holds no tag, so the match is on the next
   * line and the name starts after the line feed.
   */
  lemma LaterLineCaptured(first: string, name: string, tag: string, version: string)
    requires '-' !in first && '\n' !in first && '\n' !in name
    requires tag == "-v" || tag == "-V"
    requires IsVersion(version)
    ensures Capture(first + "\n" + (name + tag + version)) == Some((name, version))
  {
    var rest := name + tag + version;
    var s := first + "\n" + rest;
    var j := |first| + 1;
    FirstLineSkipped(s, first, rest);
    var k := j + |name|;
    TaggedLastLine(s, j, k, name, tag, version);
    CaptureOfMatch(s, j, k, |s|);
  }

  /**
   * A last line that is a name without line feeds, a tag and a version is
   * matched from its start, at that tag, to the end of s.
   */
  lemma TaggedLastLine(s: string, j: nat, k: nat, name: string, tag: string, version: string)
    requires j <= |s| && s[j..] == name + tag + version && k == j + |name|
    requires '\n' !in name
    requires tag == "-v" || tag == "-V"
    requires IsVersion(version)
    ensures k + 2 <= |s| && MatchFrom(s, j) == Some(Match(j, k, |s|))
    ensures s[j..k] == name && s[k + 2..|s|] == version
  {
    LastLineParts(s, j, k, name, tag, version);
    LineEndRun(s, j);
    assert LineEnd(s, j) == |s|;
    VersionAtEnd(s, k + 2);
    assert MarkerAt(s, k);
    forall i | k < i <= |s| ensures !MarkerAt(s, i) {
      NoMarkerWithoutDash(s, i);
    }
    LastMarkerIs(s, j, |s|, k);
    LastLineMatch(s, j, k);
  }

  /** Where the name, the tag and the version of a last line sit in s. */
  lemma LastLineParts(s: string, j: nat, k: nat, name: string, tag: string, version: string)
    requires j <= |s| && s[j..] == name + tag + version && k == j + |name|
    requires '\n' !in name
    requires tag == "-v" || tag == "-V"
    requires IsVersion(version)
    ensures k + 2 <= |s| && s[k] == '-' && (s[k + 1] == 'v' || s[k + 1] == 'V')
    ensures s[j..k] == name && s[k + 2..] == version && s[k + 2..|s|] == version
    ensures forall m :: j <= m < |s| ==> s[m] != '\n'
    ensures forall m :: k < m < |s| ==> s[m] != '-'
  {
    LastLineCharacters(s, j, k, name, tag, version);
    var rest := name + tag + version;
    assert s[k + 2..] == s[j..][|name| + 2..];
    assert rest[|name| + 2..] == version;
    assert s[j..k] == s[j..][..|name|];
    assert rest[..|name|] == name;
    assert s[k + 2..|s|] == s[k + 2..];
  }

  /** The characters of a last line: a tag at k, no line feed, and no dash after the tag's. */
  lemma LastLineCharacters(s: string, j: nat, k: nat, name: string, tag: string, version: string)
    requires j <= |s| && s[j..] == name + tag + version && k == j + |name|
    requires '\n' !in name
    requires tag == "-v" || tag == "-V"
    requires IsVersion(version)
    ensures k + 2 <= |s| && s[k] == '-' && (s[k + 1] == 'v' || s[k + 1] == 'V')
    ensures forall m :: j <= m < |s| ==> s[m] != '\n'
    ensures forall m :: k < m < |s| ==> s[m] != '-'
  {
    var rest := name + tag + version;
    NoLineFeedInStem(name, tag, version);
    NoDashAfterTag(name, tag, version);
    forall m | j <= m < |s| ensures s[m] == rest[m - j] {
      assert s[m] == s[j..][m - j];
    }
    assert s[k] == rest[|name|] && s[k + 1] == rest[|name| + 1];
  }

  /** On the last line, a tag whose version runs to the end of s is the match. */
  lemma LastLineMatch(s: string, j: nat, k: nat)
    requires j <= k <= |s| && LineEnd(s, j) == |s|
    requires LastMarker(s, j, |s|) == Some(k) && VersionEnd(s, k + 2) == Some(|s|)
    ensures MatchFrom(s, j) == Some(Match(j, k, |s|))
  {
    MatchFromThisLine(s, j);
  }

  /** A version that runs to the end of s is matched whole. */
  lemma VersionAtEnd(s: string, p: nat)
    requires p <= |s| && IsVersion(s[p..])
    ensures VersionEnd(s, p) == Some(|s|)
  {
    assert s[p..|s|] == s[p..];
    VersionIsMatched(s, p, |s|);
  }

  /** Past a first line without a dash, MatchFrom goes on at the second line. */
  lemma FirstLineSkipped(s: string, first: string, rest: string)
    requires s == first + "\n" + rest && '-' !in first && '\n' !in first
    ensures s[|first| + 1..] == rest
    ensures LineEnd(s, 0) == |first| && MatchFrom(s, 0) == MatchFrom(s, |first| + 1)
  {
    var n := |first|;
    LineEndRun(s, 0);
    assert s[n] == '\n';
    forall m | 0 <= m <= n ensures s[m] != '-' && (m < n ==> s[m] != '\n') {
      if m < n { assert s[m] == first[m]; }
    }
    forall m | 0 <= m <= n ensures !MarkerAt(s, m) {
      NoMarkerWithoutDash(s, m);
    }
    MatchFromNextLine(s, 0);
  }

  /** A tag and a version hold no line feed. */
  lemma NoLineFeedInStem(name: string, tag: string, version: string)
    requires '\n' !in name
    requires tag == "-v" || tag == "-V"
    requires IsVersion(version)
    ensures '\n' !in name + tag + version
  {
    var stem := name + tag + version;
    VersionCharacters(version);
    forall i | 0 <= i < |stem| ensures stem[i] != '\n' {
      if i < |name| { assert stem[i] == name[i]; }
      else if i < |name| + 2 { assert stem[i] == tag[i - |name|]; }
      else { assert stem[i] == version[i - |name| - 2]; }
    }
  }

  lemma NoMarkerWithoutDash(s: string, k: nat)
    requires k < |s| ==> s[k] != '-'
    ensures !MarkerAt(s, k)
  {
  }

  /** After the '-' of the tag come only the 'v' and the version's characters. */
  lemma NoDashAfterTag(name: string, tag: string, version: string)
    requires tag == "-v" || tag == "-V"
    requires IsVersion(version)
    ensures var stem := name + tag + version;
      forall i :: |name| < i < |stem| ==> stem[i] != '-'
  {
    var stem := name + tag + version;
    VersionCharacters(version);
    forall i | |name| < i < |stem| ensures stem[i] != '-' {
      if i == |name| + 1 { assert stem[i] == tag[1]; }
      else { assert stem[i] == version[i - |name| - 2]; }
    }
  }

  /** Without two dots there is no version, so the match fails. */
  lemma FewerThanTwoDotsRejected(s: string)
    requires forall i, j :: 0 <= i < j < |s| && s[i] == '.' ==> s[j] != '.'
    ensures Capture(s) == None
  {
  }

  /** A name with one '.' does not match. */
  lemma OneDotRejected(a: string, b: string)
    requires '.' !in a && '.' !in b
    ensures Capture(a + "." + b) == None
  {
    var s := a + "." + b;
    assert forall k :: 0 <= k < |a| ==> s[k] == a[k];
    assert forall k :: |a| < k < |s| ==> s[k] == b[k - |a| - 1];
    FewerThanTwoDotsRejected(s);
  }

  /** A name without '.' does not match. */
  lemma NoDotRejected(s: string)
    requires '.' !in s
    ensures Capture(s) == None
  {
    FewerThanTwoDotsRejected(s);
  }
}
