/**
 * The package-extraction cache of the worker: an archive named
 * {AppName}-v{AppVersion}.zip is extracted once under /tmp/packages, and
 * every caller gets back /tmp/packages/{AppName}/{AppVersion}/{AppName}.dll.
 */
module ZipArchiver {
  import opened Wrappers
  import opened DotNetPath
  import opened NamePattern
  import opened FileSystem

  /** The WorkerApiException cases, by the message each carries. */
  datatype Error =
    | NotAZipArchive      // "Cannot yet extract or manage raw data other than zip archive"
    | FormatMismatch      // "File name format doesn't match"
    | UnlockWaitTimedOut  // "Wait for unlock unzip was timeout ..."
    | LockFailed          // a lock failure other than contention, wrapped
    | ExtractionFailed    // the extraction threw, wrapped
    | AssemblyNotFound(path: string, name: string, version: string)  // names the path and the expected layout

  const RootAppPath: string := "/tmp/packages"

  /** The text written into an empty lock file so that it has bytes to lock. */
  const LockMarker: string := "Lockfile for extraction"

  function VersionDirectory(name: string, version: string): string {
    RootAppPath + "/" + name + "/" + version
  }

  function AssemblyPath(name: string, version: string): string {
    VersionDirectory(name, version) + "/" + name + ".dll"
  }

  function LockFilePath(name: string, version: string): string {
    VersionDirectory(name, version) + "/" + name + ".lock"
  }

  /** UnicodeEncoding.GetByteCount: two bytes per UTF-16 code unit. */
  function Utf16ByteCount(s: string): (n: nat)
    ensures 2 * |s| <= n <= 4 * |s|
  {
    if s == [] then 0
    else Utf16ByteCount(s[..|s| - 1]) + if s[|s| - 1] as int < 0x1_0000 then 2 else 4
  }

  // ---- names ------------------------------------------------------------

  /** Only the extension is checked: ".zip" in any case. */
  function IsZipFile(path: string): (r: bool)
    ensures r <==> IsZipExtension(Extension(path))
  {
    LowerZip(Extension(path));
    ToLower(Extension(path)) == ".zip"
  }

  /** ".zip" with each letter in either case. */
  predicate IsZipExtension(e: string) {
    |e| == 4 && e[0] == '.' && (e[1] == 'z' || e[1] == 'Z') &&
    (e[2] == 'i' || e[2] == 'I') && (e[3] == 'p' || e[3] == 'P')
  }

  lemma LowerZip(e: string)
    ensures ToLower(e) == ".zip" <==> IsZipExtension(e)
  {
    var l := ToLower(e);
    if |e| == 4 {
      assert l == [l[0], l[1], l[2], l[3]];
      assert ".zip" == ['.', 'z', 'i', 'p'];
    }
  }

  /** The name pattern matched against the file name without its extension. */
  function ExtractNameAndVersion(path: string): (r: Result<seq<string>, Error>)
    ensures r.Failure? ==> r.error == FormatMismatch
    ensures r.Success? ==> |r.value| == 2
  {
    match Capture(FileNameWithoutExtension(path))
    case None => Failure(FormatMismatch)
    case Some((name, version)) => Success([name, version])
  }

  /**
   * ExtractNameAndVersion succeeds exactly when a version tag occurs in the
   * file name without its extension. On the first line of that name that
   * holds a tag, it then gives the text before the last tag of the line and
   * the longest version at it.
   */
  lemma ExtractNameAndVersionMeaning(path: string)
    ensures var stem, r := FileNameWithoutExtension(path), ExtractNameAndVersion(path);
      (r.Success? <==> exists k, e :: VersionTagAt(stem, k, e)) &&
      (r.Success? ==> IsNameAndVersion(stem, r.value[0], r.value[1]))
  {
    CaptureMeaning(FileNameWithoutExtension(path));
  }

  function GetLocalPathToAssembly(path: string): (r: Result<string, Error>)
    ensures ExtractNameAndVersion(path).Failure? ==> r == Failure(FormatMismatch)
    ensures ExtractNameAndVersion(path).Success? ==>
      var info := ExtractNameAndVersion(path).value;
      r == Success("/tmp/packages/" + info[0] + "/" + info[1] + "/" + info[0] + ".dll")
  {
    match ExtractNameAndVersion(path)
    case Failure(e) => Failure(e)
    case Success(info) =>
      AssemblyPathSpelledOut(info[0], info[1]);
      Success(AssemblyPath(info[0], info[1]))
  }

  lemma AssemblyPathSpelledOut(name: string, version: string)
    ensures AssemblyPath(name, version) == "/tmp/packages/" + name + "/" + version + "/" + name + ".dll"
  {
    assert RootAppPath + "/" == "/tmp/packages/";
  }

  // ---- probing ----------------------------------------------------------

  /** The state in which ArchiveAlreadyExtracted(path, 0) answers true. */
  predicate IsExtracted(d: Disk, name: string, version: string) {
    VersionDirectory(name, version) in d.dirs &&
    (AssemblyPath(name, version) in d.files || LockFilePath(name, version) in d.files)
  }

  /**
   * The tail of ArchiveAlreadyExtracted once the lock file has been seen: the
   * immediate answer for a zero wait, otherwise the loop that polls while the
   * lock file is absent. The filesystem does not change during the call, so
   * the loop ends at once when the file is there and times out when it is not.
   */
  method WaitForUnlock(fs: FileSystem, lock: string, waitForArchiver: int) returns (r: Result<bool, Error>)
    ensures waitForArchiver == 0 ==> r == Success(true)
    ensures waitForArchiver != 0 && lock in fs.files ==> r == Success(false)
    ensures waitForArchiver != 0 && lock !in fs.files ==> r == Failure(UnlockWaitTimedOut)
  {
    var retry := 0;
    if waitForArchiver == 0 { return Success(true); }
    // waitForArchiver >> 2 on an int is floor division by 4, which is Dafny's '/'
    while !fs.FileExists(lock)
      decreases waitForArchiver / 4 - retry
    {
      retry := retry + 1;
      if retry > waitForArchiver / 4 {
        return Failure(UnlockWaitTimedOut);
      }
    }
    return Success(false);
  }

  method ArchiveAlreadyExtracted(fs: FileSystem, path: string, waitForArchiver: int) returns (r: Result<bool, Error>)
    ensures ExtractNameAndVersion(path).Failure? ==> r == Failure(FormatMismatch)
    ensures ExtractNameAndVersion(path).Success? ==>
      var name, version := ExtractNameAndVersion(path).value[0], ExtractNameAndVersion(path).value[1];
      r.Success? &&
      (r.value <==>
        VersionDirectory(name, version) in fs.dirs &&
        (AssemblyPath(name, version) in fs.files ||
         (LockFilePath(name, version) in fs.files && waitForArchiver == 0)))
  {
    var assemblyInfo := ExtractNameAndVersion(path);
    if assemblyInfo.Failure? { return Failure(assemblyInfo.error); }
    var assemblyName := assemblyInfo.value[0];
    var assemblyVersion := assemblyInfo.value[1];
    var basePath := RootAppPath + "/" + assemblyName + "/" + assemblyVersion;
    if fs.DirectoryExists(RootAppPath + "/" + assemblyName + "/" + assemblyVersion) {
      if fs.FileExists(basePath + "/" + assemblyName + ".dll") {
        return Success(true);
      }
      if fs.FileExists(basePath + "/" + assemblyName + ".lock") {
        r := WaitForUnlock(fs, basePath + "/" + assemblyName + ".lock", waitForArchiver);
        return;
      }
    }
    return Success(false);
  }

  // ---- extraction -------------------------------------------------------

  /** One call: the filesystem after it, what it changed, and what it returned. */
  datatype Run = Run(disk: Disk, ops: seq<Op>, result: Result<string, Error>)

  /** What UnzipArchive does, as a function of the filesystem before the call. */
  ghost function Unzip(d: Disk, path: string, archive: Extraction): Run {
    if !IsZipFile(path) then Run(d, [], Failure(NotAZipArchive))
    else
      var info := ExtractNameAndVersion(path);
      if info.Failure? then Run(d, [], Failure(info.error))
      else if IsExtracted(d, info.value[0], info.value[1]) then
        Run(d, [], Success(AssemblyPath(info.value[0], info.value[1])))
      else Install(d, info.value[0], info.value[1], path, archive)
  }

  /** The filesystem after some steps, and what the steps changed. */
  datatype Step = Step(disk: Disk, ops: seq<Op>)

  /** Lines that make the version directory and a non-empty lock file. */
  ghost function Prepare(d: Disk, name: string, version: string): Step {
    PrepareAt(d, VersionDirectory(name, version), LockFilePath(name, version))
  }

  /** The three setup steps for a lock file in a directory. */
  ghost function PrepareAt(d: Disk, dir: string, lock: string): Step {
    MarkIfEmpty(OpenLock(MakeDirectory(Step(d, []), dir), lock), lock)
  }

  /** Directory.CreateDirectory when Directory.Exists says no. */
  ghost function MakeDirectory(s: Step, dir: string): Step {
    if dir in s.disk.dirs then s else Step(s.disk.CreateDirectory(dir), s.ops + [DirectoryCreated(dir)])
  }

  /** FileMode.OpenOrCreate on the lock file. */
  ghost function OpenLock(s: Step, lock: string): (r: Step)
    ensures lock in r.disk.files
  {
    if lock in s.disk.files then s else Step(s.disk.OpenOrCreate(lock), s.ops + [FileCreated(lock)])
  }

  /** The marker written into a lock file that is still empty. */
  ghost function MarkIfEmpty(s: Step, lock: string): Step
    requires lock in s.disk.files
  {
    if s.disk.files[lock] == 0
    then Step(s.disk.Write(lock, Utf16ByteCount(LockMarker)), s.ops + [BytesWritten(lock, Utf16ByteCount(LockMarker))])
    else s
  }

  /** The part of UnzipArchive after the fast path. */
  ghost function Install(d: Disk, name: string, version: string, source: string, archive: Extraction): Run {
    var lock := LockFilePath(name, version);
    var assembly := AssemblyPath(name, version);
    var range := Range(lock, 0, Utf16ByteCount(LockMarker));
    var prepared := Prepare(d, name, version);
    match prepared.disk.LockOutcome(range)
    case Contended => Run(prepared.disk, prepared.ops, Success(assembly))
    case Faulted => Run(prepared.disk, prepared.ops, Failure(LockFailed))
    case Acquired =>
      var d4 := prepared.disk.Lock(range).Extract(archive, RootAppPath).Unlock(range);
      Run(d4,
          prepared.ops + [RangeLocked(range), ArchiveExpanded(source, RootAppPath), RangeUnlocked(range)],
          if archive.Breaks? then Failure(ExtractionFailed)
          else if assembly in d4.files then Success(assembly)
          else Failure(AssemblyNotFound(assembly, name, version)))
  }

  /**
   * Extracts the archive unless it already is, and returns the path of the
   * assembly. `archive` is what extracting this archive does.
   */
  method UnzipArchive(fs: FileSystem, path: string, archive: Extraction) returns (r: Result<string, Error>)
    modifies fs
    ensures var run := Unzip(old(fs.State()), path, archive);
      fs.State() == run.disk && fs.log == old(fs.log) + run.ops && r == run.result
  {
    ghost var d := fs.State();
    ghost var log0 := fs.log;
    if !IsZipFile(path) {
      return Failure(NotAZipArchive);
    }
    var assemblyInfo := ExtractNameAndVersion(path);
    if assemblyInfo.Failure? {
      return Failure(assemblyInfo.error);
    }
    var assemblyVersion := assemblyInfo.value[1];
    var assemblyName := assemblyInfo.value[0];

    var pathToAssembly := RootAppPath + "/" + assemblyName + "/" + assemblyVersion + "/" + assemblyName + ".dll";
    var pathToAssemblyDir := RootAppPath + "/" + assemblyName + "/" + assemblyVersion;
    assert pathToAssembly == AssemblyPath(assemblyName, assemblyVersion);
    assert pathToAssemblyDir == VersionDirectory(assemblyName, assemblyVersion);

    var already := ArchiveAlreadyExtracted(fs, path, 0);
    if already == Success(true) {
      return Success(pathToAssembly);
    }
    assert Unzip(d, path, archive) == Install(d, assemblyName, assemblyVersion, path, archive);
    r := Extract(fs, assemblyName, assemblyVersion, path, archive);
  }

  /** UnzipArchive after the fast path: prepare and lock the lock file, extract, unlock, check. */
  method Extract(fs: FileSystem, assemblyName: string, assemblyVersion: string, path: string, archive: Extraction)
    returns (r: Result<string, Error>)
    modifies fs
    ensures var run := Install(old(fs.State()), assemblyName, assemblyVersion, path, archive);
      fs.State() == run.disk && fs.log == old(fs.log) + run.ops && r == run.result
  {
    ghost var log0 := fs.log;
    var pathToAssembly := RootAppPath + "/" + assemblyName + "/" + assemblyVersion + "/" + assemblyName + ".dll";
    var lockFileName := PrepareLockFile(fs, assemblyName, assemblyVersion);
    ghost var step := Prepare(old(fs.State()), assemblyName, assemblyVersion);
    var textLength := Utf16ByteCount(LockMarker);

    var range := Range(lockFileName, 0, textLength);
    var locking := fs.Lock(range);
    if locking == Contended {
      return Success(pathToAssembly);
    }
    if locking == Faulted {
      return Failure(LockFailed);
    }

    var extracted := fs.ExtractToDirectory(path, RootAppPath, archive);
    fs.Unlock(range);
    Append3(log0, step.ops, [RangeLocked(range), ArchiveExpanded(path, RootAppPath), RangeUnlocked(range)]);
    if !extracted {
      return Failure(ExtractionFailed);
    }

    if !fs.FileExists(pathToAssembly) {
      return Failure(AssemblyNotFound(pathToAssembly, assemblyName, assemblyVersion));
    }
    return Success(pathToAssembly);
  }

  /** Makes the version directory if it is missing, opens or creates the lock file, and writes the marker into it when it is empty. */
  method PrepareLockFile(fs: FileSystem, assemblyName: string, assemblyVersion: string) returns (lockFileName: string)
    modifies fs
    ensures lockFileName == LockFilePath(assemblyName, assemblyVersion)
    ensures var step := Prepare(old(fs.State()), assemblyName, assemblyVersion);
      fs.State() == step.disk && fs.log == old(fs.log) + step.ops
  {
    ghost var log0 := fs.log;
    var pathToAssemblyDir := RootAppPath + "/" + assemblyName + "/" + assemblyVersion;
    ghost var step := Step(fs.State(), []);
    if !fs.DirectoryExists(pathToAssemblyDir) {
      fs.CreateDirectory(pathToAssemblyDir);
    }
    step := MakeDirectory(step, pathToAssemblyDir);
    assert fs.State() == step.disk && fs.log == log0 + step.ops;
    lockFileName := pathToAssemblyDir + "/" + assemblyName + ".lock";
    ghost var afterOpen := OpenLock(step, lockFileName);
    fs.OpenOrCreate(lockFileName);
    if lockFileName !in step.disk.files {
      Append3(log0, step.ops, [FileCreated(lockFileName)]);
    }
    step := afterOpen;
    assert fs.State() == step.disk && fs.log == log0 + step.ops;
    var textLength := Utf16ByteCount(LockMarker);
    ghost var afterMark := MarkIfEmpty(step, lockFileName);
    if fs.Length(lockFileName) == 0 {
      fs.Write(lockFileName, textLength);
      Append3(log0, step.ops, [BytesWritten(lockFileName, textLength)]);
    }
    step := afterMark;
  }

  /** Appending to a trace: joining sequences is associative. */
  lemma Append3<T>(a: seq<T>, b: seq<T>, c: seq<T>)
    ensures a + (b + c) == a + b + c
  {
  }
}
