/**
 * What one UnzipArchive call does to the filesystem, stated over Unzip, the
 * function that UnzipArchive is proved to follow.
 */
module UnzipProperties {
  import opened Wrappers
  import opened FileSystem
  import opened ZipArchiver
  import opened NamePattern
  import opened ZipArchiverProperties

  /** path is a zip archive that parses into name and version. */
  predicate Names(path: string, name: string, version: string) {
    IsZipFile(path) && ExtractNameAndVersion(path) == Success([name, version])
  }

  /** The range locked while extracting: the marker's 46 bytes at the start of the lock file. */
  function LockRange(name: string, version: string): Range {
    Range(LockFilePath(name, version), 0, 46)
  }

  /** The assembly's name relative to /tmp/packages, as an archive entry. */
  function EntryName(name: string, version: string): string {
    name + "/" + version + "/" + name + ".dll"
  }

  /** Some range held here or elsewhere overlaps r. */
  predicate LockedElsewhere(d: Disk, r: Range) {
    exists q :: q in d.foreignLocks + d.held && Overlap(q, r)
  }

  predicate IsSetupOp(op: Op) {
    op.DirectoryCreated? || op.FileCreated? || op.BytesWritten?
  }

  /** How many times a trace expands an archive. */
  function Expansions(ops: seq<Op>): (n: nat)
    ensures n <= |ops|
  {
    if ops == [] then 0
    else Expansions(ops[..|ops| - 1]) + if ops[|ops| - 1].ArchiveExpanded? then 1 else 0
  }

  lemma {:induction false} ExpansionsAppend(a: seq<Op>, b: seq<Op>)
    ensures Expansions(a + b) == Expansions(a) + Expansions(b)
    decreases |b|
  {
    if b == [] {
      assert a + b == a;
    } else {
      assert (a + b)[..|a + b| - 1] == a + b[..|b| - 1];
      ExpansionsAppend(a, b[..|b| - 1]);
    }
  }

  /** Creating and writing files expands nothing. */
  lemma {:induction false} SetupHasNoExpansions(ops: seq<Op>)
    requires forall i :: 0 <= i < |ops| ==> IsSetupOp(ops[i])
    ensures Expansions(ops) == 0
  {
    if ops != [] {
      SetupHasNoExpansions(ops[..|ops| - 1]);
    }
  }

  // ---- preparing the lock file ------------------------------------------

  /** What preparing the lock file does to the disk. */
  lemma PrepareDisk(d: Disk, name: string, version: string)
    ensures var s, dir, lock := Prepare(d, name, version), VersionDirectory(name, version), LockFilePath(name, version);
      d.dirs <= s.disk.dirs <= d.dirs + Ancestors(dir) && dir in s.disk.dirs &&
      s.disk.files.Keys == d.files.Keys + {lock} &&
      (forall f :: f in d.files && f != lock ==> s.disk.files[f] == d.files[f]) &&
      s.disk.files[lock] == (if lock in d.files && d.files[lock] != 0 then d.files[lock] else 46) &&
      s.disk.foreignLocks == d.foreignLocks && s.disk.held == d.held && s.disk.lockBroken == d.lockBroken
  {
    PrepareAtDisk(d, VersionDirectory(name, version), LockFilePath(name, version));
  }

  lemma PrepareAtDisk(d: Disk, dir: string, lock: string)
    requires dir != []
    ensures var s := PrepareAt(d, dir, lock);
      d.dirs <= s.disk.dirs <= d.dirs + Ancestors(dir) && dir in s.disk.dirs &&
      s.disk.files.Keys == d.files.Keys + {lock} &&
      (forall f :: f in d.files && f != lock ==> s.disk.files[f] == d.files[f]) &&
      s.disk.files[lock] == (if lock in d.files && d.files[lock] != 0 then d.files[lock] else 46) &&
      s.disk.foreignLocks == d.foreignLocks && s.disk.held == d.held && s.disk.lockBroken == d.lockBroken
  {
    MarkerLength();
    AncestorsArePrefixes(dir);
    var s1 := MakeDirectory(Step(d, []), dir);
    assert s1.disk.files == d.files && s1.disk.foreignLocks == d.foreignLocks && s1.disk.held == d.held &&
      s1.disk.lockBroken == d.lockBroken;
    var s2 := OpenLock(s1, lock);
    assert s2.disk.dirs == s1.disk.dirs && s2.disk.files == (if lock in d.files then d.files else d.files[lock := 0]) &&
      s2.disk.foreignLocks == d.foreignLocks && s2.disk.held == d.held && s2.disk.lockBroken == d.lockBroken;
  }

  /**
   * Preparing only creates and writes, writes nothing but the marker into
   * the lock file, and writes it exactly when the lock file is new or empty.
   */
  lemma PrepareOps(d: Disk, name: string, version: string)
    ensures var s, lock := Prepare(d, name, version), LockFilePath(name, version);
      (forall i :: 0 <= i < |s.ops| ==> IsSetupOp(s.ops[i])) &&
      (forall i :: 0 <= i < |s.ops| && s.ops[i].BytesWritten? ==> s.ops[i] == BytesWritten(lock, 46)) &&
      (BytesWritten(lock, 46) in s.ops <==> lock !in d.files || d.files[lock] == 0) &&
      (s.ops == [] ==> s.disk == d)
  {
    PrepareAtOps(d, VersionDirectory(name, version), LockFilePath(name, version));
  }

  lemma PrepareAtOps(d: Disk, dir: string, lock: string)
    ensures var s := PrepareAt(d, dir, lock);
      AllSetup(s.ops) && WritesOnly(s.ops, BytesWritten(lock, 46)) &&
      (BytesWritten(lock, 46) in s.ops <==> lock !in d.files || d.files[lock] == 0) &&
      (s.ops == [] ==> s.disk == d)
  {
    var marker := BytesWritten(lock, 46);
    var s1 := MakeDirectory(Step(d, []), dir);
    var s2 := OpenLock(s1, lock);
    MakeDirectoryOps(Step(d, []), dir);
    var t2 := OpenLockOps(s1, lock);
    var t3 := MarkIfEmptyOps(s2, lock);
    assert [] + s1.ops == s1.ops;
    ConcatOps(s1.ops, t2, marker);
    ConcatOps(s2.ops, t3, marker);
  }

  lemma MakeDirectoryOps(s: Step, dir: string)
    ensures var r := MakeDirectory(s, dir);
      r.ops == s.ops + (if dir in s.disk.dirs then [] else [DirectoryCreated(dir)]) &&
      (dir in s.disk.dirs ==> r == s) && r.disk.files == s.disk.files
  {
  }

  lemma OpenLockOps(s: Step, lock: string) returns (t: seq<Op>)
    ensures var r := OpenLock(s, lock);
      r.ops == s.ops + t && t == (if lock in s.disk.files then [] else [FileCreated(lock)]) &&
      (lock in s.disk.files ==> r == s) &&
      r.disk.files[lock] == (if lock in s.disk.files then s.disk.files[lock] else 0)
  {
    t := if lock in s.disk.files then [] else [FileCreated(lock)];
  }

  lemma MarkIfEmptyOps(s: Step, lock: string) returns (t: seq<Op>)
    requires lock in s.disk.files
    ensures var r := MarkIfEmpty(s, lock);
      r.ops == s.ops + t && t == (if s.disk.files[lock] == 0 then [BytesWritten(lock, 46)] else []) &&
      (s.disk.files[lock] != 0 ==> r == s)
  {
    MarkerLength();
    t := if s.disk.files[lock] == 0 then [BytesWritten(lock, 46)] else [];
  }

  predicate AllSetup(ops: seq<Op>) {
    forall i :: 0 <= i < |ops| ==> IsSetupOp(ops[i])
  }

  predicate WritesOnly(ops: seq<Op>, w: Op) {
    forall i :: 0 <= i < |ops| && ops[i].BytesWritten? ==> ops[i] == w
  }

  lemma ConcatOps(a: seq<Op>, b: seq<Op>, w: Op)
    ensures AllSetup(a + b) <==> AllSetup(a) && AllSetup(b)
    ensures WritesOnly(a + b, w) <==> WritesOnly(a, w) && WritesOnly(b, w)
    ensures w in a + b <==> w in a || w in b
  {
    assert forall i :: 0 <= i < |b| ==> (a + b)[|a| + i] == b[i];
    assert forall i :: 0 <= i < |a| ==> (a + b)[i] == a[i];
  }

  // ---- past the fast path ----------------------------------------------

  /** Unzip on a name that parses: the fast path, or Install. */
  lemma UnzipNamed(d: Disk, path: string, archive: Extraction, name: string, version: string)
    requires Names(path, name, version)
    ensures Unzip(d, path, archive) ==
      if IsExtracted(d, name, version) then Run(d, [], Success(AssemblyPath(name, version)))
      else Install(d, name, version, path, archive)
  {
  }

  /** Unzip on a name that does not parse fails and changes nothing. */
  lemma UnzipUnnamed(d: Disk, path: string, archive: Extraction)
    requires !(IsZipFile(path) && ExtractNameAndVersion(path).Success?)
    ensures Unzip(d, path, archive) == Run(d, [], Unzip(d, path, archive).result)
    ensures Unzip(d, path, archive).result.Failure?
  {
  }

  lemma NamesOf(path: string) returns (name: string, version: string)
    requires IsZipFile(path) && ExtractNameAndVersion(path).Success?
    ensures Names(path, name, version)
  {
    var info := ExtractNameAndVersion(path).value;
    name, version := info[0], info[1];
    assert info == [name, version];
  }

  lemma InstallTrace(d: Disk, name: string, version: string, source: string, archive: Extraction)
    ensures Install(d, name, version, source, archive).ops == [] ==> Install(d, name, version, source, archive).disk == d
  {
    PrepareOps(d, name, version);
  }

  lemma InstallLocks(d: Disk, name: string, version: string, source: string, archive: Extraction)
    ensures var e := Install(d, name, version, source, archive).disk;
      e.held == d.held && e.foreignLocks == d.foreignLocks && e.lockBroken == d.lockBroken
  {
    MarkerLength();
    PrepareDisk(d, name, version);
    var p := Prepare(d, name, version).disk;
    var r := LockRange(name, version);
    if p.LockOutcome(r) == Acquired {
      assert Overlap(r, r);
      assert r !in p.held;
      assert p.held + {r} - {r} == p.held;
    }
  }

  /** Install only adds directories and files, and keeps the package's lock file. */
  lemma InstallGrows(d: Disk, name: string, version: string, source: string, archive: Extraction)
    ensures var e := Install(d, name, version, source, archive).disk;
      d.dirs <= e.dirs && d.files.Keys <= e.files.Keys && IsExtracted(e, name, version) &&
      LockFilePath(name, version) in e.files
  {
    PrepareDisk(d, name, version);
  }

  /** Install expands at most once, under the lock, exactly when the lock is acquired. */
  lemma InstallExpansions(d: Disk, name: string, version: string, source: string, archive: Extraction)
    ensures var ops, r := Install(d, name, version, source, archive).ops, LockRange(name, version);
      Expansions(ops) <= 1 &&
      (Expansions(ops) == 1 <==> !d.lockBroken && !LockedElsewhere(d, r)) &&
      forall i :: 0 <= i < |ops| && ops[i].ArchiveExpanded? ==>
        ops[i] == ArchiveExpanded(source, RootAppPath) && 0 < i < |ops| - 1 &&
        ops[i - 1] == RangeLocked(r) && ops[i + 1] == RangeUnlocked(r)
  {
    var prepared := Prepare(d, name, version);
    var r := LockRange(name, version);
    PrepareOps(d, name, version);
    InstallOps(d, name, version, source, archive);
    GuardedTrace(prepared.ops, r, source, !d.lockBroken && !LockedElsewhere(d, r));
  }

  /** Setup steps, then lock, expand and unlock when the lock is acquired. */
  lemma GuardedTrace(setup: seq<Op>, r: Range, source: string, acquired: bool)
    requires forall i :: 0 <= i < |setup| ==> IsSetupOp(setup[i])
    ensures var ops := if acquired then setup + [RangeLocked(r), ArchiveExpanded(source, RootAppPath), RangeUnlocked(r)]
                       else setup;
      Expansions(ops) == (if acquired then 1 else 0) &&
      forall i :: 0 <= i < |ops| && ops[i].ArchiveExpanded? ==>
        ops[i] == ArchiveExpanded(source, RootAppPath) && 0 < i < |ops| - 1 &&
        ops[i - 1] == RangeLocked(r) && ops[i + 1] == RangeUnlocked(r)
  {
    if acquired {
      BracketedTrace(setup, r, source);
    } else {
      SetupHasNoExpansions(setup);
    }
  }

  /** The trace of Install: the setup steps, then lock, expand and unlock when the lock is acquired. */
  lemma InstallOps(d: Disk, name: string, version: string, source: string, archive: Extraction)
    ensures var setup, r := Prepare(d, name, version).ops, LockRange(name, version);
      Install(d, name, version, source, archive).ops ==
        if !d.lockBroken && !LockedElsewhere(d, r)
        then setup + [RangeLocked(r), ArchiveExpanded(source, RootAppPath), RangeUnlocked(r)]
        else setup
  {
    MarkerLength();
    PrepareDisk(d, name, version);
    var prepared := Prepare(d, name, version);
    var r := LockRange(name, version);
    assert Range(LockFilePath(name, version), 0, Utf16ByteCount(LockMarker)) == r;
    assert prepared.disk.LockOutcome(r) == Acquired <==> !d.lockBroken && !LockedElsewhere(d, r);
  }

  /** Setup steps, then lock, expand and unlock: one expansion, in the brackets. */
  lemma BracketedTrace(setup: seq<Op>, r: Range, source: string)
    requires forall i :: 0 <= i < |setup| ==> IsSetupOp(setup[i])
    ensures var ops := setup + [RangeLocked(r), ArchiveExpanded(source, RootAppPath), RangeUnlocked(r)];
      Expansions(ops) == 1 &&
      forall i :: 0 <= i < |ops| && ops[i].ArchiveExpanded? ==>
        ops[i] == ArchiveExpanded(source, RootAppPath) && 0 < i < |ops| - 1 &&
        ops[i - 1] == RangeLocked(r) && ops[i + 1] == RangeUnlocked(r)
  {
    var tail := [RangeLocked(r), ArchiveExpanded(source, RootAppPath), RangeUnlocked(r)];
    var ops := setup + tail;
    ExpansionsAppend(setup, tail);
    SetupHasNoExpansions(setup);
    ExpansionsOfTail(r, source);
  }

  lemma ExpansionsOfTail(r: Range, source: string)
    ensures Expansions([RangeLocked(r), ArchiveExpanded(source, RootAppPath), RangeUnlocked(r)]) == 1
  {
    var tail := [RangeLocked(r), ArchiveExpanded(source, RootAppPath), RangeUnlocked(r)];
    assert tail[..2] == [RangeLocked(r), ArchiveExpanded(source, RootAppPath)];
    assert tail[..2][..1] == [RangeLocked(r)];
    assert [RangeLocked(r)][..0] == [];
    assert Expansions([RangeLocked(r)]) == 0;
    assert Expansions(tail[..2]) == 1;
  }

  lemma InstallWrites(d: Disk, name: string, version: string, source: string, archive: Extraction)
    ensures var ops, lock := Install(d, name, version, source, archive).ops, LockFilePath(name, version);
      (forall i :: 0 <= i < |ops| && ops[i].BytesWritten? ==> ops[i] == BytesWritten(lock, 46)) &&
      (BytesWritten(lock, 46) in ops <==> lock !in d.files || d.files[lock] == 0)
  {
    MarkerLength();
    PrepareOps(d, name, version);
    var prepared := Prepare(d, name, version);
    var r := LockRange(name, version);
    var lock := LockFilePath(name, version);
    if prepared.disk.LockOutcome(r) == Acquired {
      var tail := [RangeLocked(r), ArchiveExpanded(source, RootAppPath), RangeUnlocked(r)];
      var ops := prepared.ops + tail;
      forall i | 0 <= i < |ops| && ops[i].BytesWritten? ensures ops[i] == BytesWritten(lock, 46) {
        assert ops[i] == prepared.ops[i];
      }
      assert BytesWritten(lock, 46) !in tail;
    }
  }

  // ---- one call ---------------------------------------------------------

  /** Every change to the filesystem is in the trace: an empty trace means nothing changed. */
  lemma TraceRecordsEveryChange(d: Disk, path: string, archive: Extraction)
    ensures Unzip(d, path, archive).ops == [] ==> Unzip(d, path, archive).disk == d
  {
    if IsZipFile(path) && ExtractNameAndVersion(path).Success? {
      var name, version := NamesOf(path);
      UnzipNamed(d, path, archive, name, version);
      InstallTrace(d, name, version, path, archive);
    } else {
      UnzipUnnamed(d, path, archive);
    }
  }

  /** Whatever happens, the call leaves the locks as it found them. */
  lemma LockReleasedOnEveryExit(d: Disk, path: string, archive: Extraction)
    ensures var e := Unzip(d, path, archive).disk;
      e.held == d.held && e.foreignLocks == d.foreignLocks && e.lockBroken == d.lockBroken
  {
    if IsZipFile(path) && ExtractNameAndVersion(path).Success? {
      var name, version := NamesOf(path);
      UnzipNamed(d, path, archive, name, version);
      InstallLocks(d, name, version, path, archive);
    } else {
      UnzipUnnamed(d, path, archive);
    }
  }

  /** Directories and files are only ever added. */
  lemma NothingRemoved(d: Disk, path: string, archive: Extraction)
    ensures var e := Unzip(d, path, archive).disk;
      d.dirs <= e.dirs && d.files.Keys <= e.files.Keys
  {
    if IsZipFile(path) && ExtractNameAndVersion(path).Success? {
      var name, version := NamesOf(path);
      UnzipNamed(d, path, archive, name, version);
      InstallGrows(d, name, version, path, archive);
    } else {
      UnzipUnnamed(d, path, archive);
    }
  }

  /** Wrong names are refused before the filesystem is touched. */
  lemma RejectionsChangeNothing(d: Disk, path: string, archive: Extraction)
    ensures !IsZipFile(path) ==> Unzip(d, path, archive) == Run(d, [], Failure(NotAZipArchive))
    ensures IsZipFile(path) && ExtractNameAndVersion(path).Failure? ==>
      Unzip(d, path, archive) == Run(d, [], Failure(FormatMismatch))
  {
  }

  /** A successful call always returns the path that GetLocalPathToAssembly computes. */
  lemma SuccessIsTheLocalAssemblyPath(d: Disk, path: string, archive: Extraction)
    ensures Unzip(d, path, archive).result.Success? ==>
      IsZipFile(path) && Unzip(d, path, archive).result == GetLocalPathToAssembly(path)
  {
    if IsZipFile(path) && ExtractNameAndVersion(path).Success? {
      var name, version := NamesOf(path);
      UnzipNamed(d, path, archive, name, version);
      assert GetLocalPathToAssembly(path) == Success(AssemblyPath(name, version));
      if !IsExtracted(d, name, version) {
        InstallResult(d, name, version, path, archive);
      }
    } else {
      UnzipUnnamed(d, path, archive);
    }
  }

  /**
   * Once the version directory holds the lock file, every call returns the
   * assembly path and changes nothing, whether or not the assembly is there:
   * a lock file left by a failed or interrupted extraction is taken for a
   * finished one.
   */
  lemma LockFileMeansExtracted(d: Disk, path: string, archive: Extraction, name: string, version: string)
    requires Names(path, name, version)
    requires VersionDirectory(name, version) in d.dirs && LockFilePath(name, version) in d.files
    ensures Unzip(d, path, archive) == Run(d, [], Success(AssemblyPath(name, version)))
  {
    UnzipNamed(d, path, archive, name, version);
  }

  /** After any call that gets past the name checks, the package counts as extracted. */
  lemma AttemptSettlesPackage(d: Disk, path: string, archive: Extraction, name: string, version: string)
    requires Names(path, name, version)
    ensures IsExtracted(Unzip(d, path, archive).disk, name, version)
  {
    UnzipNamed(d, path, archive, name, version);
    InstallGrows(d, name, version, path, archive);
  }

  /** So the next call for the same archive takes the fast path, even when this one failed. */
  lemma SecondCallTakesFastPath(d: Disk, path: string, first: Extraction, second: Extraction, name: string, version: string)
    requires Names(path, name, version)
    ensures var d1 := Unzip(d, path, first).disk;
      Unzip(d1, path, second) == Run(d1, [], Success(AssemblyPath(name, version)))
  {
    AttemptSettlesPackage(d, path, first, name, version);
    UnzipNamed(Unzip(d, path, first).disk, path, second, name, version);
  }

  /** A package once extracted stays extracted, whatever archive a call is for. */
  lemma ExtractedStaysExtracted(d: Disk, path: string, archive: Extraction, name: string, version: string)
    requires IsExtracted(d, name, version)
    ensures IsExtracted(Unzip(d, path, archive).disk, name, version)
  {
    NothingRemoved(d, path, archive);
  }

  /**
   * The archive is expanded at most once per call, always into /tmp/packages,
   * and only between locking and unlocking the marker's bytes of the lock
   * file; it is expanded exactly when the package was not extracted and the
   * lock was acquired.
   */
  lemma ExtractionUnderLock(d: Disk, path: string, archive: Extraction, name: string, version: string)
    requires Names(path, name, version)
    ensures var ops, r := Unzip(d, path, archive).ops, LockRange(name, version);
      Expansions(ops) <= 1 &&
      (Expansions(ops) == 1 <==>
        !IsExtracted(d, name, version) && !d.lockBroken && !LockedElsewhere(d, r)) &&
      forall i :: 0 <= i < |ops| && ops[i].ArchiveExpanded? ==>
        ops[i] == ArchiveExpanded(path, RootAppPath) && 0 < i < |ops| - 1 &&
        ops[i - 1] == RangeLocked(r) && ops[i + 1] == RangeUnlocked(r)
  {
    UnzipNamed(d, path, archive, name, version);
    InstallExpansions(d, name, version, path, archive);
  }

  /** A call for a package expands its archive at most once, never when it is extracted, and leaves it extracted. */
  lemma ExpansionsPerCall(d: Disk, path: string, archive: Extraction, name: string, version: string)
    requires Names(path, name, version)
    ensures var run := Unzip(d, path, archive);
      Expansions(run.ops) <= (if IsExtracted(d, name, version) then 0 else 1) &&
      IsExtracted(run.disk, name, version)
  {
    ExtractionUnderLock(d, path, archive, name, version);
    AttemptSettlesPackage(d, path, archive, name, version);
  }

  /**
   * The marker is the only thing written, into the lock file alone, and it
   * is written exactly when an unextracted package's lock file is new or empty.
   */
  lemma MarkerWrittenOnlyIntoEmptyLockFile(d: Disk, path: string, archive: Extraction, name: string, version: string)
    requires Names(path, name, version)
    ensures var ops, lock := Unzip(d, path, archive).ops, LockFilePath(name, version);
      (forall i :: 0 <= i < |ops| && ops[i].BytesWritten? ==> ops[i] == BytesWritten(lock, 46)) &&
      (BytesWritten(lock, 46) in ops <==>
        !IsExtracted(d, name, version) && (lock !in d.files || d.files[lock] == 0))
  {
    UnzipNamed(d, path, archive, name, version);
    InstallWrites(d, name, version, path, archive);
  }

  /** Install succeeds only with the assembly path. */
  lemma InstallResult(d: Disk, name: string, version: string, source: string, archive: Extraction)
    ensures var r := Install(d, name, version, source, archive).result;
      r.Success? ==> r == Success(AssemblyPath(name, version))
  {
  }

  /** The assembly lands on disk exactly when the archive has it at {name}/{version}/{name}.dll. */
  lemma PlacedAssembly(written: map<string, nat>, name: string, version: string)
    ensures AssemblyPath(name, version) in Placed(written, RootAppPath) <==> EntryName(name, version) in written
  {
    var root := RootAppPath + "/";
    var p := AssemblyPath(name, version);
    assert p == root + EntryName(name, version);
    if p in Placed(written, RootAppPath) {
      var e :| e in written && p == RootAppPath + "/" + e;
      assert e == (root + e)[|root|..];
      assert EntryName(name, version) == (root + EntryName(name, version))[|root|..];
    }
  }

  /** What Install returns, in terms of the filesystem, the locks and the archive. */
  lemma InstallOutcome(d: Disk, name: string, version: string, source: string, archive: Extraction)
    ensures var r, p := Install(d, name, version, source, archive).result, AssemblyPath(name, version);
      var acquired := !d.lockBroken && !LockedElsewhere(d, LockRange(name, version));
      (d.lockBroken ==> r == Failure(LockFailed)) &&
      (!d.lockBroken && !acquired ==> r == Success(p)) &&
      (acquired && archive.Breaks? ==> r == Failure(ExtractionFailed)) &&
      (acquired && archive.Expands? ==>
        r == if p in d.files || EntryName(name, version) in archive.entries then Success(p)
             else Failure(AssemblyNotFound(p, name, version)))
  {
    MarkerLength();
    PrepareDisk(d, name, version);
    LockFileBesideAssembly(name, version);
    PlacedAssembly(archive.Written(), name, version);
    var prepared := Prepare(d, name, version);
    var r := LockRange(name, version);
    assert Range(LockFilePath(name, version), 0, Utf16ByteCount(LockMarker)) == r;
    assert prepared.disk.LockOutcome(r) == Acquired <==> !d.lockBroken && !LockedElsewhere(d, r);
  }

  /** Install touches only the package's directories, its lock file and what the archive holds. */
  lemma InstallFrame(d: Disk, name: string, version: string, source: string, archive: Extraction)
    ensures var e, lock, placed := Install(d, name, version, source, archive).disk, LockFilePath(name, version),
        Placed(archive.Written(), RootAppPath);
      e.dirs <= d.dirs + Ancestors(VersionDirectory(name, version)) &&
      (forall f :: f in e.files ==> f in d.files || f == lock || f in placed) &&
      (forall f :: f in d.files && f != lock && f !in placed ==> f in e.files && e.files[f] == d.files[f])
  {
    PrepareDisk(d, name, version);
  }

  /** What a call that extracts returns, in terms of the filesystem, the locks and the archive. */
  lemma ExtractionOutcome(d: Disk, path: string, archive: Extraction, name: string, version: string)
    requires Names(path, name, version) && !IsExtracted(d, name, version)
    ensures var r, p := Unzip(d, path, archive).result, AssemblyPath(name, version);
      var acquired := !d.lockBroken && !LockedElsewhere(d, LockRange(name, version));
      (d.lockBroken ==> r == Failure(LockFailed)) &&
      (!d.lockBroken && !acquired ==> r == Success(p)) &&
      (acquired && archive.Breaks? ==> r == Failure(ExtractionFailed)) &&
      (acquired && archive.Expands? ==>
        r == if p in d.files || EntryName(name, version) in archive.entries then Success(p)
             else Failure(AssemblyNotFound(p, name, version)))
  {
    UnzipNamed(d, path, archive, name, version);
    InstallOutcome(d, name, version, path, archive);
  }

  /** A call touches only its package's directories, its lock file and the files the archive holds. */
  lemma OnlyThePackageChanges(d: Disk, path: string, archive: Extraction, name: string, version: string)
    requires Names(path, name, version)
    ensures var e, lock, placed := Unzip(d, path, archive).disk, LockFilePath(name, version),
        Placed(archive.Written(), RootAppPath);
      e.dirs <= d.dirs + Ancestors(VersionDirectory(name, version)) &&
      (forall f :: f in e.files ==> f in d.files || f == lock || f in placed) &&
      (forall f :: f in d.files && f != lock && f !in placed ==> f in e.files && e.files[f] == d.files[f])
  {
    UnzipNamed(d, path, archive, name, version);
    if IsExtracted(d, name, version) {
      assert Unzip(d, path, archive).disk == d;
    } else {
      InstallFrame(d, name, version, path, archive);
    }
  }

  // ---- scenarios ----------------------------------------------------------

  /**
   * Foo-v1.2.3.zip holding Foo/1.2.3/Foo.dll, on a filesystem without the
   * package and without locks: the first call extracts it once and returns
   * /tmp/packages/Foo/1.2.3/Foo.dll; a second call returns the same path
   * and changes nothing.
   */
  lemma FirstAndSecondCallScenario(path: string, size: nat)
    requires path == "Foo-v1.2.3.zip"
    ensures var d := Disk({}, map[], {}, {}, false);
      var archive := Expands(map[EntryName("Foo", "1.2.3") := size]);
      var first := Unzip(d, path, archive);
      var second := Unzip(first.disk, path, archive);
      first.result == Success(AssemblyPath("Foo", "1.2.3")) && Expansions(first.ops) == 1 &&
      second == Run(first.disk, [], first.result)
  {
    var d := Disk({}, map[], {}, {}, false);
    var archive := Expands(map[EntryName("Foo", "1.2.3") := size]);
    assert SplitsVersion("1.2.3", 1, 3);
    assert path == "" + ("Foo" + "-v" + "1.2.3" + ".zip");
    ArchiveNameRoundTrip("", "Foo", "-v", "1.2.3", ".zip");
    assert Names(path, "Foo", "1.2.3");
    ExtractionOutcome(d, path, archive, "Foo", "1.2.3");
    ExtractionUnderLock(d, path, archive, "Foo", "1.2.3");
    SecondCallTakesFastPath(d, path, archive, archive, "Foo", "1.2.3");
  }

  /**
   * Bar-v2.0.0.zip while another process holds the lock on its lock file:
   * the call returns the assembly path without expanding anything.
   */
  lemma ContendedCallScenario(path: string, archive: Extraction)
    requires path == "Bar-v2.0.0.zip"
    ensures var d := Disk({}, map[], {LockRange("Bar", "2.0.0")}, {}, false);
      var run := Unzip(d, path, archive);
      run.result == Success(AssemblyPath("Bar", "2.0.0")) && Expansions(run.ops) == 0 && run.disk.held == {}
  {
    var d := Disk({}, map[], {LockRange("Bar", "2.0.0")}, {}, false);
    assert SplitsVersion("2.0.0", 1, 3);
    assert path == "" + ("Bar" + "-v" + "2.0.0" + ".zip");
    ArchiveNameRoundTrip("", "Bar", "-v", "2.0.0", ".zip");
    assert Names(path, "Bar", "2.0.0");
    assert Overlap(LockRange("Bar", "2.0.0"), LockRange("Bar", "2.0.0"));
    assert LockedElsewhere(d, LockRange("Bar", "2.0.0"));
    ExtractionOutcome(d, path, archive, "Bar", "2.0.0");
    ExtractionUnderLock(d, path, archive, "Bar", "2.0.0");
    LockReleasedOnEveryExit(d, path, archive);
  }
}
