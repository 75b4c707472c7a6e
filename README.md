# ZipArchiver: the worker's package cache

A worker of the ArmoniK development kit receives its application as an
archive named `{AppName}-v{AppVersion}.zip`. `ZipArchiver` extracts that
archive once, under `/tmp/packages`, and every caller then gets back the
path `/tmp/packages/{AppName}/{AppVersion}/{AppName}.dll` of the client
assembly. Workers on one host share the cache. A lock file
`{AppName}.lock` in the version directory, with a byte-range lock over its
first 46 bytes (the UTF-16 text `Lockfile for extraction`), keeps two
workers from extracting the same package at once.

This project models that class in Dafny and proves what it guarantees.

- `DotNetPath` models the parts of `System.IO.Path` and `String` the class uses.
  These are `GetFileName`, `GetExtension`, `GetFileNameWithoutExtension` and
  `ToLower` on ASCII.
- `NamePattern` is a deterministic model of the regular expression
  `(.*)-v([\d\w]+\.[\d\w]+\.[\d\w]+)`, matched case-insensitively with
  `Regex.Match`. It is unanchored, the name group is greedy, and `.` does
  not match a line feed. So the leftmost match starts at the first line
  that holds a `-v`/`-V` followed by a version. The captured name is that
  line's text before the LAST such tag on it, and the version group is the
  longest one at that tag. `CaptureMeaning` proves this matcher equal to a
  declarative description (`IsNameAndVersion`).
- `FileSystem` has two parts.
  - `Disk` is a value: the directories, the files with their lengths, the
    byte ranges locked by other processes (`foreignLocks`) and by this
    caller (`held`), and whether the lock primitive fails outright
    (`lockBroken`).
  - The class `FileSystem` holds a `Disk` and a ghost trace `log` of
    changes. Its methods are the .NET primitives the archiver calls:
    `Directory.CreateDirectory`, a `FileStream` in `OpenOrCreate` mode with
    its `Write`, `Lock` and `Unlock`, and `ZipFile.ExtractToDirectory`.
- `ZipArchiver` holds the five operations. `ArchiveAlreadyExtracted` and
  `UnzipArchive` are methods on a `FileSystem`.
  - `UnzipArchive` and its two steps, `PrepareLockFile` and `Extract`, are
    proved against ghost specification functions: `Unzip`, `Prepare` and
    `Install`. `Unzip(disk, path, archive)` returns the new disk, the trace
    and the result.
  - `ArchiveAlreadyExtracted` and its wait loop `WaitForUnlock` change
    nothing. Their contracts state their decision tables directly, in terms
    of the disk.
  - The WorkerApiException the source throws becomes a `Failure` of the
    `Error` datatype.
- `ZipArchiverProperties`, `UnzipProperties` and `CallSequences` prove the
  guarantees:
  - for one call;
  - for a series of calls on a shared filesystem.

What an extraction does is an input, `Extraction`. It is either
`Expands(entries)`, or `Breaks(written)`, an archive that throws after
writing some entries. Entry names are relative to `/tmp/packages`, as the
archive lays them out.

A `Disk` need not be consistent: a file may exist in a directory that does
not. Such a state stands for changes other workers made between the steps
of one call. This is how the model reaches a lock file that is already
present or a range that is already locked, while each call is modelled as
one sequential run.

Behaviour of the code that the model keeps:

- The pattern (ZipArchiver.cs:77) is unanchored, and its name group may be
  empty. Text after the version is ignored, and a version has exactly three
  parts of word characters. `EmptyNameExample`, `NestedTagExample` and
  `LineFeedNameExample` show this.
- A lock file is never removed (ZipArchiver.cs:195-245 has no delete). The
  fast path at ZipArchiver.cs:143-154 accepts a version directory with a
  lock file. So once any call for a package has got past the name checks,
  every later call returns the assembly path at ZipArchiver.cs:191-193.
  This holds even when the extraction failed and the assembly is missing
  (`AttemptSettlesPackage`, `LaterCallsAreServed`).
- The wait loop of `ArchiveAlreadyExtracted` (ZipArchiver.cs:156) loops
  while the lock file is ABSENT, right after it was seen to be present. On
  a filesystem that does not change during the call, a non-zero wait
  therefore answers `false` at once. `WaitForUnlock` states this. The loop
  times out only when the file disappears in the meantime.
- `UnzipArchive` always calls `ArchiveAlreadyExtracted` with a wait of 0
  (ZipArchiver.cs:191-192). So it never waits: a lock file alone counts as
  extracted.

Some members are definitions without a contract of their own. The table
lists, for each, the members whose contracts state what it means:

- `DotNetPath.Extension` (Path.GetExtension, ZipArchiver.cs:49):
  `StemAndExtension`.
- `NamePattern.Capture` (Regex.Match and its groups, ZipArchiver.cs:77-88):
  `CaptureOfMatch`, `CaptureMeaning` and `TaggedStemCaptured`.
- `FileSystem.Ancestors` (the directories Directory.CreateDirectory makes,
  ZipArchiver.cs:196): `AncestorsArePrefixes`.
- `ZipArchiver.IsExtracted` (the fast path of ZipArchiver.cs:143-154 with a
  zero wait): `ArchiveAlreadyExtracted`, `UnzipNamed` and
  `LockFileMeansExtracted`.
- `ZipArchiver.Unzip` (ZipArchiver.cs:178-254): `UnzipArchive`,
  `UnzipNamed` and `UnzipUnnamed`.
- `ZipArchiver.Install` (ZipArchiver.cs:195-253): `Extract`, `InstallOps`,
  `InstallOutcome` and `InstallFrame`.
- `ZipArchiver.Prepare` and `ZipArchiver.PrepareAt` (ZipArchiver.cs:195-215):
  `PrepareLockFile`, `PrepareDisk`, `PrepareAtDisk`, `PrepareOps` and
  `PrepareAtOps`.
- `ZipArchiver.MakeDirectory` (ZipArchiver.cs:195-196): `MakeDirectoryOps`.
- `ZipArchiver.MarkIfEmpty` (ZipArchiver.cs:206-215): `MarkIfEmptyOps`.

## Model

| member | source | states |
|---|---|---|
| ZipArchiverProperties.MarkerLength | WorkerApi/ArmoniK.DevelopmentKit.WorkerApi.Common/ZipArchiver.cs:206-209 | the marker has 23 characters, so its UTF-16 encoding, which is the locked range, is 46 bytes |
| ZipArchiver.Utf16ByteCount | WorkerApi/ArmoniK.DevelopmentKit.WorkerApi.Common/ZipArchiver.cs:208-209 | UnicodeEncoding.GetByteCount uses 2 to 4 bytes per character |
| ZipArchiverProperties.BmpByteCount | WorkerApi/ArmoniK.DevelopmentKit.WorkerApi.Common/ZipArchiver.cs:209 | text within the Basic Multilingual Plane takes exactly two bytes per character |
| ZipArchiver.AssemblyPathSpelledOut | WorkerApi/ArmoniK.DevelopmentKit.WorkerApi.Common/ZipArchiver.cs:39 | the assembly path is `/tmp/packages/{name}/{version}/{name}.dll` |
| DotNetPath.LastIndexOf | WorkerApi/ArmoniK.DevelopmentKit.WorkerApi.Common/ZipArchiver.cs:49 | the result is -1 or a position holding the character, and no later position holds it |
| DotNetPath.LastIndexOfIs | WorkerApi/ArmoniK.DevelopmentKit.WorkerApi.Common/ZipArchiver.cs:49 | those three facts determine LastIndexOf |
| DotNetPath.FileName | WorkerApi/ArmoniK.DevelopmentKit.WorkerApi.Common/ZipArchiver.cs:69 | Path.GetFileName holds no directory separator |
| DotNetPath.FileNameIsLastSegment | WorkerApi/ArmoniK.DevelopmentKit.WorkerApi.Common/ZipArchiver.cs:69 | the file name is the longest separator-free suffix of the path |
| DotNetPath.FileNameWithoutExtension | WorkerApi/ArmoniK.DevelopmentKit.WorkerApi.Common/ZipArchiver.cs:69 | the stem holds no directory separator |
| DotNetPath.StemAndExtension | WorkerApi/ArmoniK.DevelopmentKit.WorkerApi.Common/ZipArchiver.cs:49-69 | the stem is the file name up to its last '.', or all of it when there is none; the extension runs from that '.' on, and is empty when there is no '.' or it ends the name |
| DotNetPath.ToLowerChar | WorkerApi/ArmoniK.DevelopmentKit.WorkerApi.Common/ZipArchiver.cs:50 | ASCII capitals map to their lower-case letters and every other character to itself |
| DotNetPath.ToLower | WorkerApi/ArmoniK.DevelopmentKit.WorkerApi.Common/ZipArchiver.cs:50 | the string keeps its length, and each character is lower-cased in place |
| ZipArchiver.LowerZip | WorkerApi/ArmoniK.DevelopmentKit.WorkerApi.Common/ZipArchiver.cs:50 | an extension lower-cases to ".zip" exactly when it is ".zip" with each letter in either case |
| ZipArchiver.IsZipFile | WorkerApi/ArmoniK.DevelopmentKit.WorkerApi.Common/ZipArchiver.cs:45-54 | true exactly when the extension is ".zip" in any case |
| ZipArchiverProperties.IsZipFileMeaning | WorkerApi/ArmoniK.DevelopmentKit.WorkerApi.Common/ZipArchiver.cs:45-54 | a path is a zip file exactly when its file name ends in ".zip", in any case |
| ZipArchiverProperties.ZipSuffixMakesZipFile | WorkerApi/ArmoniK.DevelopmentKit.WorkerApi.Common/ZipArchiver.cs:45-54 | a file name ending in ".zip" in any case makes a zip file |
| ZipArchiverProperties.ZipSuffixInDirectory | WorkerApi/ArmoniK.DevelopmentKit.WorkerApi.Common/ZipArchiver.cs:45-54 | a path ending in a separator and then a ".zip" name is a zip file |
| ZipArchiverProperties.ZipNameParts | WorkerApi/ArmoniK.DevelopmentKit.WorkerApi.Common/ZipArchiver.cs:49-69 | in a directory, the file name is stem plus ".zip", and the last '.' is the extension's |
| ZipArchiverProperties.ZipFileStem | WorkerApi/ArmoniK.DevelopmentKit.WorkerApi.Common/ZipArchiver.cs:45-69 | a separator-free stem plus ".zip" in any case, in a directory, is a zip file whose stem is that stem |
| ZipArchiverProperties.FileNameInDirectory | WorkerApi/ArmoniK.DevelopmentKit.WorkerApi.Common/ZipArchiver.cs:69 | the file name of a separator-free name in a directory is that name |
| ZipArchiverProperties.LastIndexOfAppend | WorkerApi/ArmoniK.DevelopmentKit.WorkerApi.Common/ZipArchiver.cs:49 | appending text without the character leaves its last position unchanged |
| ZipArchiverProperties.UpperCaseZipExample | WorkerApi/ArmoniK.DevelopmentKit.WorkerApi.Common/ZipArchiver.cs:49-51 | "A.ZIP" is a zip file: the comparison ignores case |
| ZipArchiverProperties.OtherExtensionExample | WorkerApi/ArmoniK.DevelopmentKit.WorkerApi.Common/ZipArchiver.cs:49-53 | "A.tar" is not a zip file |
| ZipArchiverProperties.NoExtensionExample | WorkerApi/ArmoniK.DevelopmentKit.WorkerApi.Common/ZipArchiver.cs:49-53 | "zip", which has no extension, is not a zip file |
| ZipArchiverProperties.ZipDirectoryExample | WorkerApi/ArmoniK.DevelopmentKit.WorkerApi.Common/ZipArchiver.cs:49-53 | a file inside a ".zip" directory is not a zip file |
| NamePattern.WordEnd | WorkerApi/ArmoniK.DevelopmentKit.WorkerApi.Common/ZipArchiver.cs:77 | the end of the run of word characters from a position lies within the string |
| NamePattern.WordEndRun | WorkerApi/ArmoniK.DevelopmentKit.WorkerApi.Common/ZipArchiver.cs:77 | `[\d\w]+` taken greedily: all characters up to WordEnd are word characters, and the one at WordEnd is not |
| NamePattern.WordEndAt | WorkerApi/ArmoniK.DevelopmentKit.WorkerApi.Common/ZipArchiver.cs:77 | a word run ending before a non-word character is exactly WordEnd's run |
| NamePattern.WordOfRun | WorkerApi/ArmoniK.DevelopmentKit.WorkerApi.Common/ZipArchiver.cs:77 | a non-empty run of word characters is a word |
| NamePattern.WordSlice | WorkerApi/ArmoniK.DevelopmentKit.WorkerApi.Common/ZipArchiver.cs:77 | a word slice is non-empty and made of word characters |
| NamePattern.VersionEnd | WorkerApi/ArmoniK.DevelopmentKit.WorkerApi.Common/ZipArchiver.cs:77 | the version group matched at a position ends after it and within the string |
| NamePattern.VersionEndSound | WorkerApi/ArmoniK.DevelopmentKit.WorkerApi.Common/ZipArchiver.cs:77 | what VersionEnd finds is a three-part version, and no word character follows it |
| NamePattern.VersionOfRuns | WorkerApi/ArmoniK.DevelopmentKit.WorkerApi.Common/ZipArchiver.cs:77 | three word runs separated by single dots form a version |
| NamePattern.VersionIsMatched | WorkerApi/ArmoniK.DevelopmentKit.WorkerApi.Common/ZipArchiver.cs:77 | every version at a position is found, and the matched one is at least as long: the group is greedy |
| NamePattern.VersionInPlace | WorkerApi/ArmoniK.DevelopmentKit.WorkerApi.Common/ZipArchiver.cs:77 | the dots and word runs of a version sit at their places in the string that holds it |
| NamePattern.RunsMatched | WorkerApi/ArmoniK.DevelopmentKit.WorkerApi.Common/ZipArchiver.cs:77 | three dotted word runs are matched, and the last group reaches at least as far as they do |
| NamePattern.SliceOfSlice | WorkerApi/ArmoniK.DevelopmentKit.WorkerApi.Common/ZipArchiver.cs:77 | a slice of a slice is a slice of the original |
| NamePattern.VersionCharacters | WorkerApi/ArmoniK.DevelopmentKit.WorkerApi.Common/ZipArchiver.cs:77 | a version holds only word characters and dots |
| NamePattern.LineEnd | WorkerApi/ArmoniK.DevelopmentKit.WorkerApi.Common/ZipArchiver.cs:77 | the line from a position ends within the string, at or after it |
| NamePattern.LineEndRun | WorkerApi/ArmoniK.DevelopmentKit.WorkerApi.Common/ZipArchiver.cs:77 | `.` stops at a line feed: no line feed before LineEnd, and LineEnd is one or the end of the string |
| NamePattern.LastMarker | WorkerApi/ArmoniK.DevelopmentKit.WorkerApi.Common/ZipArchiver.cs:77-82 | the greedy `(.*)`: the last position up to the bound where `-v` and a version match, or None when there is none |
| NamePattern.LastMarkerIs | WorkerApi/ArmoniK.DevelopmentKit.WorkerApi.Common/ZipArchiver.cs:77-82 | a marker at k with none after it is what LastMarker finds |
| NamePattern.MarkerIsTag | WorkerApi/ArmoniK.DevelopmentKit.WorkerApi.Common/ZipArchiver.cs:77-80 | the matcher's test at a position holds exactly when a case-insensitive version tag starts there, and it ends at the longest such tag |
| NamePattern.MatchFrom | WorkerApi/ArmoniK.DevelopmentKit.WorkerApi.Common/ZipArchiver.cs:77-82 | a match found from a line on starts at or after it, sits where `-v` and a version match, and ends where the version group does |
| NamePattern.MatchFromThisLine | WorkerApi/ArmoniK.DevelopmentKit.WorkerApi.Common/ZipArchiver.cs:77-82 | a line holding a tag is matched from its start, at its last tag |
| NamePattern.MatchFromNextLine | WorkerApi/ArmoniK.DevelopmentKit.WorkerApi.Common/ZipArchiver.cs:77-82 | a line without a tag sends the search to the next line, and the last such line ends it with no match |
| NamePattern.MatchFromFailsOnlyWithoutTag | WorkerApi/ArmoniK.DevelopmentKit.WorkerApi.Common/ZipArchiver.cs:77-88 | the search fails only when no version tag occurs at all |
| NamePattern.FirstTaggedLine | WorkerApi/ArmoniK.DevelopmentKit.WorkerApi.Common/ZipArchiver.cs:77-82 | a successful search starts at the first line holding a tag, and no tag occurs before it |
| NamePattern.NextLineStart | WorkerApi/ArmoniK.DevelopmentKit.WorkerApi.Common/ZipArchiver.cs:77 | the position after a line feed starts a line |
| NamePattern.TagsAreMarkers | WorkerApi/ArmoniK.DevelopmentKit.WorkerApi.Common/ZipArchiver.cs:77 | each version tag is a place where the rest of the pattern matches, within its longest version |
| NamePattern.NoTagOnLine | WorkerApi/ArmoniK.DevelopmentKit.WorkerApi.Common/ZipArchiver.cs:77-82 | a line without a match holds no version tag |
| NamePattern.LineTagCaptured | WorkerApi/ArmoniK.DevelopmentKit.WorkerApi.Common/ZipArchiver.cs:77-88 | the last tag of the first tagged line, with its longest version, gives the name and version the description says |
| NamePattern.LaterTagsOnLaterLines | WorkerApi/ArmoniK.DevelopmentKit.WorkerApi.Common/ZipArchiver.cs:77 | after the last tag of a line, every tag lies past a line feed |
| NamePattern.CaptureOfMatch | WorkerApi/ArmoniK.DevelopmentKit.WorkerApi.Common/ZipArchiver.cs:86-87 | the two groups are the text from the match start to its tag and the version after the tag |
| NamePattern.FirstMatchCaptured | WorkerApi/ArmoniK.DevelopmentKit.WorkerApi.Common/ZipArchiver.cs:77-88 | the first match is at a version tag, and its groups are what the description says |
| NamePattern.CapturedPartsFromText | WorkerApi/ArmoniK.DevelopmentKit.WorkerApi.Common/ZipArchiver.cs:77-88 | both groups are cut from the text, so a character the text lacks is in neither |
| NamePattern.CaptureMeaning | WorkerApi/ArmoniK.DevelopmentKit.WorkerApi.Common/ZipArchiver.cs:77-88 | the match succeeds exactly when a version tag occurs; the groups are then, on the first line holding a tag, the text before the last tag of that line and the longest version after it |
| NamePattern.TaggedStemCaptured | WorkerApi/ArmoniK.DevelopmentKit.WorkerApi.Common/ZipArchiver.cs:77-88 | name + "-v" (or "-V") + version, for a name without line feeds and the version the whole rest, captures exactly that name and version |
| NamePattern.LaterLineCaptured | WorkerApi/ArmoniK.DevelopmentKit.WorkerApi.Common/ZipArchiver.cs:77-88 | after a first line with no '-', a name, tag and version on the next line are captured on their own: the first line is not part of the name |
| NamePattern.TaggedLastLine | WorkerApi/ArmoniK.DevelopmentKit.WorkerApi.Common/ZipArchiver.cs:77-82 | a last line made of a name, a tag and a version matches from its start, at that tag, to the end |
| NamePattern.LastLineParts | WorkerApi/ArmoniK.DevelopmentKit.WorkerApi.Common/ZipArchiver.cs:77 | where the name, the tag and the version of such a line sit |
| NamePattern.LastLineCharacters | WorkerApi/ArmoniK.DevelopmentKit.WorkerApi.Common/ZipArchiver.cs:77 | such a line has its tag in place, no line feed and no '-' after the tag's |
| NamePattern.LastLineMatch | WorkerApi/ArmoniK.DevelopmentKit.WorkerApi.Common/ZipArchiver.cs:77-82 | on the last line, its last tag with a version to the end is the match |
| NamePattern.VersionAtEnd | WorkerApi/ArmoniK.DevelopmentKit.WorkerApi.Common/ZipArchiver.cs:77 | a version that runs to the end of the text is matched whole |
| NamePattern.FirstLineSkipped | WorkerApi/ArmoniK.DevelopmentKit.WorkerApi.Common/ZipArchiver.cs:77-82 | a first line with no '-' holds no match, so the search goes on at the second line |
| NamePattern.NoLineFeedInStem | WorkerApi/ArmoniK.DevelopmentKit.WorkerApi.Common/ZipArchiver.cs:77 | a name without line feeds, a tag and a version hold no line feed |
| NamePattern.NoMarkerWithoutDash | WorkerApi/ArmoniK.DevelopmentKit.WorkerApi.Common/ZipArchiver.cs:77 | no match starts where there is no '-' |
| NamePattern.NoDashAfterTag | WorkerApi/ArmoniK.DevelopmentKit.WorkerApi.Common/ZipArchiver.cs:77 | after the tag's '-' come only 'v' and version characters |
| NamePattern.FewerThanTwoDotsRejected | WorkerApi/ArmoniK.DevelopmentKit.WorkerApi.Common/ZipArchiver.cs:77-91 | a stem with fewer than two dots does not match |
| NamePattern.OneDotRejected | WorkerApi/ArmoniK.DevelopmentKit.WorkerApi.Common/ZipArchiver.cs:77-91 | a stem with a single dot does not match |
| NamePattern.NoDotRejected | WorkerApi/ArmoniK.DevelopmentKit.WorkerApi.Common/ZipArchiver.cs:77-91 | a stem without a dot does not match |
| ZipArchiver.ExtractNameAndVersion | WorkerApi/ArmoniK.DevelopmentKit.WorkerApi.Common/ZipArchiver.cs:61-95 | only a format mismatch fails, and a success gives exactly two strings |
| ZipArchiver.ExtractNameAndVersionMeaning | WorkerApi/ArmoniK.DevelopmentKit.WorkerApi.Common/ZipArchiver.cs:69-94 | succeeds exactly when a version tag occurs in the file name without its extension; the parts then follow the greedy pattern on the first line holding a tag |
| ZipArchiverProperties.ArchiveNameRoundTrip | WorkerApi/ArmoniK.DevelopmentKit.WorkerApi.Common/ZipArchiver.cs:61-116 | `{dir}/{name}-v{version}.zip`, for a name without separators or line feeds and any version, parses back to that name and version and gives their assembly path |
| ZipArchiverProperties.ConventionalNameExample | WorkerApi/ArmoniK.DevelopmentKit.WorkerApi.Common/ZipArchiver.cs:77-94 | "/data/Foo-v1.2.3.zip" gives ["Foo", "1.2.3"] |
| ZipArchiverProperties.NestedTagExample | WorkerApi/ArmoniK.DevelopmentKit.WorkerApi.Common/ZipArchiver.cs:77-94 | "a-v1.2.3-V4.5.rc6.ZIP" gives ["a-v1.2.3", "4.5.rc6"]: the last tag of the line wins, in any case |
| ZipArchiverProperties.EmptyNameExample | WorkerApi/ArmoniK.DevelopmentKit.WorkerApi.Common/ZipArchiver.cs:77-94 | "-v1_0.2.3.zip" gives an empty name |
| ZipArchiverProperties.LineFeedNameExample | WorkerApi/ArmoniK.DevelopmentKit.WorkerApi.Common/ZipArchiver.cs:77-94 | "a\nb-v1.2.3.zip" gives ["b", "1.2.3"]: the name starts on the line that holds the tag |
| ZipArchiverProperties.DotDotNameExample | WorkerApi/ArmoniK.DevelopmentKit.WorkerApi.Common/ZipArchiver.cs:77-116 | "..-v1.2.3.zip" gives ["..", "1.2.3"] and the assembly path /tmp/packages/../1.2.3/...dll, whose version directory lies outside /tmp/packages |
| ZipArchiverProperties.TwoPartVersionExample | WorkerApi/ArmoniK.DevelopmentKit.WorkerApi.Common/ZipArchiver.cs:77-110 | "Foo-v1.2.zip" is a format mismatch, and so is its assembly path |
| ZipArchiverProperties.UntaggedNameExample | WorkerApi/ArmoniK.DevelopmentKit.WorkerApi.Common/ZipArchiver.cs:77-110 | "Foo.zip" is a format mismatch, and so is its assembly path |
| ZipArchiverProperties.RejectedStem | WorkerApi/ArmoniK.DevelopmentKit.WorkerApi.Common/ZipArchiver.cs:82-110 | a stem the pattern does not match makes both ExtractNameAndVersion and GetLocalPathToAssembly fail with a format mismatch |
| ZipArchiver.GetLocalPathToAssembly | WorkerApi/ArmoniK.DevelopmentKit.WorkerApi.Common/ZipArchiver.cs:97-116 | `/tmp/packages/{name}/{version}/{name}.dll` for the parsed name, or the parse's format mismatch |
| ZipArchiverProperties.PartsHaveNoSeparator | WorkerApi/ArmoniK.DevelopmentKit.WorkerApi.Common/ZipArchiver.cs:69-87 | neither parsed part holds a directory separator |
| ZipArchiverProperties.SplitAtSeparator | WorkerApi/ArmoniK.DevelopmentKit.WorkerApi.Common/ZipArchiver.cs:113 | a separator-free prefix before a '/' is determined by the whole |
| ZipArchiverProperties.AssemblyPathInjective | WorkerApi/ArmoniK.DevelopmentKit.WorkerApi.Common/ZipArchiver.cs:113-115 | for separator-free parts, two assembly paths are equal exactly when the names and versions are |
| ZipArchiverProperties.SameAssemblyPathSamePackage | WorkerApi/ArmoniK.DevelopmentKit.WorkerApi.Common/ZipArchiver.cs:97-116 | two archives share an assembly path exactly when they parse to the same name and version |
| ZipArchiverProperties.LockFileBesideAssembly | WorkerApi/ArmoniK.DevelopmentKit.WorkerApi.Common/ZipArchiver.cs:188-198 | the lock file differs from the assembly, and both lie in the version directory |
| ZipArchiver.WaitForUnlock | WorkerApi/ArmoniK.DevelopmentKit.WorkerApi.Common/ZipArchiver.cs:151-166 | wait 0 answers true; otherwise a present lock file answers false and an absent one times out |
| ZipArchiver.ArchiveAlreadyExtracted | WorkerApi/ArmoniK.DevelopmentKit.WorkerApi.Common/ZipArchiver.cs:125-167 | a format mismatch fails; otherwise true exactly when the version directory exists and holds the assembly, or holds the lock file with a zero wait |
| FileSystem.AncestorsArePrefixes | WorkerApi/ArmoniK.DevelopmentKit.WorkerApi.Common/ZipArchiver.cs:195-196 | Directory.CreateDirectory makes the directory itself, and every directory it makes is a non-empty prefix of it |
| FileSystem.Placed | WorkerApi/ArmoniK.DevelopmentKit.WorkerApi.Common/ZipArchiver.cs:234-235 | every entry lands at destination/entry with its length, and nothing else is placed |
| FileSystem.Disk.CreateDirectory | WorkerApi/ArmoniK.DevelopmentKit.WorkerApi.Common/ZipArchiver.cs:196 | adds the directory and its ancestors and changes nothing else |
| FileSystem.Disk.OpenOrCreate | WorkerApi/ArmoniK.DevelopmentKit.WorkerApi.Common/ZipArchiver.cs:201-204 | the file exists afterwards; a missing one is created empty; an existing one is untouched |
| FileSystem.Disk.Write | WorkerApi/ArmoniK.DevelopmentKit.WorkerApi.Common/ZipArchiver.cs:213-215 | writing at the start makes the file at least that long and changes nothing else |
| FileSystem.Disk.Lock | WorkerApi/ArmoniK.DevelopmentKit.WorkerApi.Common/ZipArchiver.cs:219-220 | the range is held afterwards exactly when the lock was acquired |
| FileSystem.Disk.Unlock | WorkerApi/ArmoniK.DevelopmentKit.WorkerApi.Common/ZipArchiver.cs:243-244 | the range is no longer held, and nothing else changes |
| FileSystem.Disk.Extract | WorkerApi/ArmoniK.DevelopmentKit.WorkerApi.Common/ZipArchiver.cs:234-235 | the written entries are added under the destination, and nothing else changes |
| FileSystem.FileSystem.constructor | WorkerApi/ArmoniK.DevelopmentKit.WorkerApi.Common/ZipArchiver.cs:178 | a filesystem with no range held by this caller and an empty trace |
| FileSystem.FileSystem.CreateDirectory | WorkerApi/ArmoniK.DevelopmentKit.WorkerApi.Common/ZipArchiver.cs:195-196 | the state becomes Disk.CreateDirectory's, and the trace records it |
| FileSystem.FileSystem.OpenOrCreate | WorkerApi/ArmoniK.DevelopmentKit.WorkerApi.Common/ZipArchiver.cs:201-204 | the state becomes Disk.OpenOrCreate's, and a creation is traced |
| FileSystem.FileSystem.Write | WorkerApi/ArmoniK.DevelopmentKit.WorkerApi.Common/ZipArchiver.cs:213-215 | the state becomes Disk.Write's, and the write is traced |
| FileSystem.FileSystem.Lock | WorkerApi/ArmoniK.DevelopmentKit.WorkerApi.Common/ZipArchiver.cs:219-229 | acquired, contended (the IOException) or faulted, as the locks decide; an acquired lock is held and traced |
| FileSystem.FileSystem.Unlock | WorkerApi/ArmoniK.DevelopmentKit.WorkerApi.Common/ZipArchiver.cs:241-244 | the range is released, and the release is traced |
| FileSystem.FileSystem.ExtractToDirectory | WorkerApi/ArmoniK.DevelopmentKit.WorkerApi.Common/ZipArchiver.cs:232-240 | returns exactly when the archive expands; its written entries land either way; the expansion is traced |
| ZipArchiver.OpenLock | WorkerApi/ArmoniK.DevelopmentKit.WorkerApi.Common/ZipArchiver.cs:201-204 | the lock file exists afterwards |
| ZipArchiver.PrepareLockFile | WorkerApi/ArmoniK.DevelopmentKit.WorkerApi.Common/ZipArchiver.cs:195-215 | returns the lock file's path; the state and trace become those of the Prepare specification |
| ZipArchiver.Extract | WorkerApi/ArmoniK.DevelopmentKit.WorkerApi.Common/ZipArchiver.cs:195-253 | the state, trace and result become those of the Install specification |
| ZipArchiver.UnzipArchive | WorkerApi/ArmoniK.DevelopmentKit.WorkerApi.Common/ZipArchiver.cs:178-254 | the state, trace and result become those of the Unzip specification |
| UnzipProperties.PrepareDisk | WorkerApi/ArmoniK.DevelopmentKit.WorkerApi.Common/ZipArchiver.cs:195-215 | preparing adds the version directory and its ancestors, makes the lock file non-empty (46 bytes if it was empty), keeps every other file and all locks |
| UnzipProperties.PrepareAtDisk | WorkerApi/ArmoniK.DevelopmentKit.WorkerApi.Common/ZipArchiver.cs:195-215 | the same for any directory and lock file path |
| UnzipProperties.PrepareOps | WorkerApi/ArmoniK.DevelopmentKit.WorkerApi.Common/ZipArchiver.cs:195-215 | preparing only creates directories and files and writes the marker into the lock file, exactly when it was missing or empty |
| UnzipProperties.PrepareAtOps | WorkerApi/ArmoniK.DevelopmentKit.WorkerApi.Common/ZipArchiver.cs:195-215 | the same for any directory and lock file path |
| UnzipProperties.MakeDirectoryOps | WorkerApi/ArmoniK.DevelopmentKit.WorkerApi.Common/ZipArchiver.cs:195-196 | the directory step only adds a directory creation, exactly when the directory is missing |
| UnzipProperties.OpenLockOps | WorkerApi/ArmoniK.DevelopmentKit.WorkerApi.Common/ZipArchiver.cs:201-204 | opening only adds a file creation, exactly when the lock file is missing |
| UnzipProperties.MarkIfEmptyOps | WorkerApi/ArmoniK.DevelopmentKit.WorkerApi.Common/ZipArchiver.cs:211-215 | marking only adds the 46-byte write, exactly when the lock file is empty |
| UnzipProperties.Expansions | WorkerApi/ArmoniK.DevelopmentKit.WorkerApi.Common/ZipArchiver.cs:234-235 | a trace expands at most as many archives as it has steps |
| UnzipProperties.ExpansionsAppend | WorkerApi/ArmoniK.DevelopmentKit.WorkerApi.Common/ZipArchiver.cs:234-235 | the expansions of joined traces add up |
| UnzipProperties.SetupHasNoExpansions | WorkerApi/ArmoniK.DevelopmentKit.WorkerApi.Common/ZipArchiver.cs:195-215 | creating and writing files expands nothing |
| UnzipProperties.ConcatOps | WorkerApi/ArmoniK.DevelopmentKit.WorkerApi.Common/ZipArchiver.cs:195-215 | trace properties of joined traces are those of the parts |
| UnzipProperties.UnzipNamed | WorkerApi/ArmoniK.DevelopmentKit.WorkerApi.Common/ZipArchiver.cs:180-196 | a zip whose name parses takes the fast path when the package counts as extracted, and installs otherwise |
| UnzipProperties.UnzipUnnamed | WorkerApi/ArmoniK.DevelopmentKit.WorkerApi.Common/ZipArchiver.cs:180-185 | a path that is not a zip or does not parse fails and changes nothing |
| UnzipProperties.NamesOf | WorkerApi/ArmoniK.DevelopmentKit.WorkerApi.Common/ZipArchiver.cs:183-185 | a parsed zip path names its own name and version |
| UnzipProperties.InstallTrace | WorkerApi/ArmoniK.DevelopmentKit.WorkerApi.Common/ZipArchiver.cs:195-253 | an install that traces nothing changes nothing |
| UnzipProperties.InstallLocks | WorkerApi/ArmoniK.DevelopmentKit.WorkerApi.Common/ZipArchiver.cs:217-245 | an install leaves held and foreign locks as it found them |
| UnzipProperties.InstallGrows | WorkerApi/ArmoniK.DevelopmentKit.WorkerApi.Common/ZipArchiver.cs:195-245 | an install only adds directories and files, and the lock file exists afterwards |
| UnzipProperties.InstallExpansions | WorkerApi/ArmoniK.DevelopmentKit.WorkerApi.Common/ZipArchiver.cs:217-245 | an install expands at most once, exactly when the lock is acquired, and between locking and unlocking the range |
| UnzipProperties.GuardedTrace | WorkerApi/ArmoniK.DevelopmentKit.WorkerApi.Common/ZipArchiver.cs:217-245 | setup steps followed by lock, expand and unlock when acquired expand once in those brackets, and otherwise never |
| UnzipProperties.InstallOps | WorkerApi/ArmoniK.DevelopmentKit.WorkerApi.Common/ZipArchiver.cs:195-245 | an install's trace is the setup, then lock, expand and unlock exactly when the lock is acquired |
| UnzipProperties.BracketedTrace | WorkerApi/ArmoniK.DevelopmentKit.WorkerApi.Common/ZipArchiver.cs:219-244 | setup, lock, expand, unlock expands once, right between the lock and the unlock |
| UnzipProperties.ExpansionsOfTail | WorkerApi/ArmoniK.DevelopmentKit.WorkerApi.Common/ZipArchiver.cs:219-244 | lock, expand, unlock is one expansion |
| UnzipProperties.InstallWrites | WorkerApi/ArmoniK.DevelopmentKit.WorkerApi.Common/ZipArchiver.cs:211-215 | an install writes only the 46-byte marker into the lock file, exactly when the lock file was missing or empty |
| UnzipProperties.InstallResult | WorkerApi/ArmoniK.DevelopmentKit.WorkerApi.Common/ZipArchiver.cs:224-253 | an install succeeds only with the assembly path |
| UnzipProperties.PlacedAssembly | WorkerApi/ArmoniK.DevelopmentKit.WorkerApi.Common/ZipArchiver.cs:234-249 | the assembly lands exactly when the archive has the entry {name}/{version}/{name}.dll |
| UnzipProperties.InstallOutcome | WorkerApi/ArmoniK.DevelopmentKit.WorkerApi.Common/ZipArchiver.cs:217-253 | a lock fault fails; contention returns the path without extracting; a throwing extraction fails; otherwise the path exactly when the assembly is on disk or in the archive, else a missing-assembly error |
| UnzipProperties.InstallFrame | WorkerApi/ArmoniK.DevelopmentKit.WorkerApi.Common/ZipArchiver.cs:195-245 | an install adds only the package's directories, its lock file and the archive's files, and keeps every other file as it was |
| UnzipProperties.TraceRecordsEveryChange | WorkerApi/ArmoniK.DevelopmentKit.WorkerApi.Common/ZipArchiver.cs:178-254 | a call that traces nothing changes nothing |
| UnzipProperties.LockReleasedOnEveryExit | WorkerApi/ArmoniK.DevelopmentKit.WorkerApi.Common/ZipArchiver.cs:217-245 | on every path, failures included, the call leaves the locks as it found them |
| UnzipProperties.NothingRemoved | WorkerApi/ArmoniK.DevelopmentKit.WorkerApi.Common/ZipArchiver.cs:178-254 | no directory or file is ever removed |
| UnzipProperties.RejectionsChangeNothing | WorkerApi/ArmoniK.DevelopmentKit.WorkerApi.Common/ZipArchiver.cs:180-185 | not a zip: NotAZipArchive; a zip that does not parse: FormatMismatch; neither touches the filesystem |
| UnzipProperties.SuccessIsTheLocalAssemblyPath | WorkerApi/ArmoniK.DevelopmentKit.WorkerApi.Common/ZipArchiver.cs:188-253 | a successful call is for a zip and returns what GetLocalPathToAssembly computes |
| UnzipProperties.LockFileMeansExtracted | WorkerApi/ArmoniK.DevelopmentKit.WorkerApi.Common/ZipArchiver.cs:143-193 | a version directory with a lock file is the fast path: the path at once, nothing changed |
| UnzipProperties.AttemptSettlesPackage | WorkerApi/ArmoniK.DevelopmentKit.WorkerApi.Common/ZipArchiver.cs:195-245 | after any call that gets past the name checks, the package counts as extracted, even when this call failed |
| UnzipProperties.SecondCallTakesFastPath | WorkerApi/ArmoniK.DevelopmentKit.WorkerApi.Common/ZipArchiver.cs:191-193 | the next call for the same archive returns the path and changes nothing |
| UnzipProperties.ExtractedStaysExtracted | WorkerApi/ArmoniK.DevelopmentKit.WorkerApi.Common/ZipArchiver.cs:178-254 | no call, for any archive, undoes an extraction |
| UnzipProperties.ExtractionUnderLock | WorkerApi/ArmoniK.DevelopmentKit.WorkerApi.Common/ZipArchiver.cs:217-245 | at most one expansion, exactly when the package is not extracted and the lock is free; it is of this archive into /tmp/packages, right after the lock and right before the unlock |
| UnzipProperties.ExpansionsPerCall | WorkerApi/ArmoniK.DevelopmentKit.WorkerApi.Common/ZipArchiver.cs:191-245 | a call expands at most once, never when extracted, and leaves the package extracted |
| UnzipProperties.MarkerWrittenOnlyIntoEmptyLockFile | WorkerApi/ArmoniK.DevelopmentKit.WorkerApi.Common/ZipArchiver.cs:206-215 | the only write is the 46-byte marker into the lock file, exactly when the package was not extracted and the lock file was missing or empty |
| UnzipProperties.ExtractionOutcome | WorkerApi/ArmoniK.DevelopmentKit.WorkerApi.Common/ZipArchiver.cs:217-253 | for a package not yet extracted, the result according to lock fault, contention, a throwing extraction and the assembly's presence |
| UnzipProperties.OnlyThePackageChanges | WorkerApi/ArmoniK.DevelopmentKit.WorkerApi.Common/ZipArchiver.cs:195-245 | a call adds only its package's directories, its lock file and the archive's files, and keeps every other file |
| UnzipProperties.FirstAndSecondCallScenario | WorkerApi/ArmoniK.DevelopmentKit.WorkerApi.Common/ZipArchiver.cs:178-254 | on an empty disk the first call for Foo-v1.2.3.zip extracts once and returns the path; the second returns it without changes |
| UnzipProperties.ContendedCallScenario | WorkerApi/ArmoniK.DevelopmentKit.WorkerApi.Common/ZipArchiver.cs:217-225 | when another worker holds the lock, the call returns the path without extracting and holds nothing |
| CallSequences.Replay | WorkerApi/ArmoniK.DevelopmentKit.WorkerApi.Common/ZipArchiver.cs:178-254 | calls run one after another give one result each |
| CallSequences.ExtractedStaysExtractedThroughout | WorkerApi/ArmoniK.DevelopmentKit.WorkerApi.Common/ZipArchiver.cs:178-254 | an extracted package stays extracted through any series of calls |
| CallSequences.ExtractedPackageIsServed | WorkerApi/ArmoniK.DevelopmentKit.WorkerApi.Common/ZipArchiver.cs:191-193 | once extracted, every call for the package returns its assembly path, whatever comes in between |
| CallSequences.LaterCallsAreServed | WorkerApi/ArmoniK.DevelopmentKit.WorkerApi.Common/ZipArchiver.cs:191-245 | after the first call for a package, every later call for it returns the assembly path |
| CallSequences.ServedFromTail | WorkerApi/ArmoniK.DevelopmentKit.WorkerApi.Common/ZipArchiver.cs:191-193 | results after the first call are those of the later calls, one place on |
| CallSequences.AtMostOneExpansion | WorkerApi/ArmoniK.DevelopmentKit.WorkerApi.Common/ZipArchiver.cs:191-245 | any series of calls for one package expands its archive at most once, and never when it is already extracted |
| CallSequences.CallBudget | WorkerApi/ArmoniK.DevelopmentKit.WorkerApi.Common/ZipArchiver.cs:191-245 | one call spends at most what is left of the package's single expansion |

## Left out

- `\w` is modelled on ASCII letters, digits and '_'. .NET's `\w` also takes Unicode letters, marks and connector punctuation.
- `RegexOptions.IgnoreCase` is modelled for the `v` of the tag only, because word characters already match either case. Culture-specific case folding is not modelled.
- `ToLower` is the invariant ASCII mapping, not the current culture's.
- A null path, and paths with invalid characters that make `Path` throw `ArgumentException`, are not modelled. Paths are strings, and Path never fails in the model.
- The separator is '/' only, as on the Linux hosts the worker runs on. The Windows alternative separator and drive roots are not modelled.
- `Thread.Sleep` and the passing of time in the wait loop are not modelled (ZipArchiver.cs:158). The loop runs on a filesystem that does not change during the call.
- The timeout message carries `waitForArchiver * 2` seconds (ZipArchiver.cs:161). The message text is not modelled. Each WorkerApiException is one `Error` case, and only the missing-assembly case keeps its path, name and version.
- `waitForArchiver` is an unbounded int; 32-bit overflow of `waitForArchiver * 2` only affects the message. The default argument 300 is not modelled, since every caller in the core passes a value.
- `FileStream` construction failures (permissions, a directory in the way, sharing violations) are not modelled. Opening always succeeds.
- Closing the stream is not modelled. The `using` block closes it, and closing changes no state the model keeps.
- ZipFile.ExtractToDirectory is an input. Its internals are not modelled: the directories it creates for entries, its refusal to overwrite existing files, and its rejection of entries that escape the destination. The model adds the entries it writes, whether it returns or throws.
- Concurrency is not modelled as interleaving. Other workers appear only as the foreign locks and the pre-existing files a call finds.
- A lock failure other than contention is one flag, `lockBroken`, for any such cause.
- Paths are compared as strings and are never normalized, as the code builds them by interpolation (ZipArchiver.cs:113-115, 188-198). The names "", "." and ".." parse (`EmptyNameExample`, `DotDotNameExample`), so `/tmp/packages/../{version}` names a directory outside the cache, and "//" or "/./" spell one directory in two ways. `OnlyThePackageChanges`, `AssemblyPathInjective` and `SameAssemblyPathSamePackage` hold for path strings, not for the directories they resolve to.
- Only `ZipArchiver` is modelled. How the rest of the worker loads the returned assembly is not part of this model.
