/**
 * The part of the host filesystem the archiver touches: directories, files
 * with their lengths, byte-range locks, and archive extraction by
 * System.IO.Compression, which is opaque here.
 *
 * A Disk does not have to be consistent (a file may exist in a directory that
 * does not): such a state stands for what other processes changed between the
 * steps of one call, since the calls themselves are modelled one at a time.
 */
module FileSystem {

  /** A byte range of a file, as given to FileStream.Lock and Unlock. */
  datatype Range = Range(path: string, start: nat, length: nat)

  predicate Overlap(a: Range, b: Range) {
    a.path == b.path && a.start < b.start + b.length && b.start < a.start + a.length
  }

  /** What FileStream.Lock does with a range. */
  datatype LockOutcome =
    | Acquired
    | Contended   // another holder has an overlapping range: an IOException
    | Faulted     // any other failure of the lock primitive

  /**
   * What ZipFile.ExtractToDirectory does with one archive: it writes the
   * entries (names relative to the destination, with their lengths) and
   * returns, or it writes some entries and then throws.
   */
  datatype Extraction =
    | Expands(entries: map<string, nat>)
    | Breaks(written: map<string, nat>)
  {
    function Written(): map<string, nat> {
      if Expands? then entries else written
    }
  }

  /** The changes made to the filesystem, in order. */
  datatype Op =
    | DirectoryCreated(path: string)
    | FileCreated(path: string)
    | BytesWritten(path: string, count: nat)
    | RangeLocked(range: Range)
    | RangeUnlocked(range: Range)
    | ArchiveExpanded(source: string, destination: string)

  /** The directories Directory.CreateDirectory makes for p: p and every proper prefix ending before a separator. */
  function Ancestors(p: string): set<string> {
    set i | 0 < i <= |p| && (i == |p| || p[i] == '/') :: p[..i]
  }

  /** A path is among its own ancestors, and each ancestor is a non-empty prefix. */
  lemma AncestorsArePrefixes(p: string)
    ensures p != [] ==> p in Ancestors(p)
    ensures forall q :: q in Ancestors(p) ==> q != [] && |q| <= |p| && q == p[..|q|]
  {
    assert p[..|p|] == p;
  }

  /** The files an extraction into dest writes, by absolute name. */
  function Placed(written: map<string, nat>, dest: string): (m: map<string, nat>)
    ensures forall e :: e in written ==> dest + "/" + e in m && m[dest + "/" + e] == written[e]
    ensures forall q :: q in m ==> exists e :: e in written && q == dest + "/" + e
  {
    assert forall e: string :: (dest + "/" + e)[|dest| + 1..] == e;
    map e | e in written :: dest + "/" + e := written[e]
  }

  /** The state of the filesystem as the archiver sees it. */
  datatype Disk = Disk(
    dirs: set<string>,
    files: map<string, nat>,          // existing files and their lengths
    foreignLocks: set<Range>,         // ranges locked by other processes or streams
    held: set<Range>,                 // ranges locked through this caller's stream
    lockBroken: bool)                 // the lock primitive fails for a reason other than contention
  {
    function CreateDirectory(p: string): (d: Disk)
      ensures d.dirs == dirs + Ancestors(p) && d.files == files && d.held == held
      ensures d.foreignLocks == foreignLocks && d.lockBroken == lockBroken
    {
      this.(dirs := dirs + Ancestors(p))
    }

    /** FileMode.OpenOrCreate: an absent file is created empty. */
    function OpenOrCreate(p: string): (d: Disk)
      ensures p in d.files && d.files.Keys == files.Keys + {p}
      ensures p in files ==> d == this
      ensures p !in files ==> d.files[p] == 0
      ensures forall q :: q in files ==> d.files[q] == files[q]
      ensures d.dirs == dirs && d.held == held && d.foreignLocks == foreignLocks && d.lockBroken == lockBroken
    {
      if p in files then this else this.(files := files[p := 0])
    }

    /** Writing count bytes at the start of an open file. */
    function Write(p: string, count: nat): (d: Disk)
      requires p in files
      ensures d.files.Keys == files.Keys && d.files[p] == if files[p] < count then count else files[p]
      ensures forall q :: q in files && q != p ==> d.files[q] == files[q]
      ensures d.dirs == dirs && d.held == held && d.foreignLocks == foreignLocks && d.lockBroken == lockBroken
    {
      this.(files := files[p := if files[p] < count then count else files[p]])
    }

    function LockOutcome(r: Range): LockOutcome {
      if lockBroken then Faulted
      else if exists q :: q in foreignLocks + held && Overlap(q, r) then Contended
      else Acquired
    }

    function Lock(r: Range): (d: Disk)
      ensures d.held == if LockOutcome(r) == Acquired then held + {r} else held
      ensures d.dirs == dirs && d.files == files && d.foreignLocks == foreignLocks && d.lockBroken == lockBroken
    {
      if LockOutcome(r) == Acquired then this.(held := held + {r}) else this
    }

    function Unlock(r: Range): (d: Disk)
      ensures d.held == held - {r} && d.dirs == dirs && d.files == files
      ensures d.foreignLocks == foreignLocks && d.lockBroken == lockBroken
    {
      this.(held := held - {r})
    }

    function Extract(archive: Extraction, dest: string): (d: Disk)
      ensures d.files == files + Placed(archive.Written(), dest)
      ensures d.dirs == dirs && d.held == held && d.foreignLocks == foreignLocks && d.lockBroken == lockBroken
    {
      this.(files := files + Placed(archive.Written(), dest))
    }
  }

  /** The host filesystem, changed in place by the primitives below. */
  class FileSystem {
    var dirs: set<string>
    var files: map<string, nat>
    var foreignLocks: set<Range>
    var held: set<Range>
    const lockBroken: bool
    /** The changes made so far, oldest first. */
    ghost var log: seq<Op>

    function State(): Disk
      reads this
    {
      Disk(dirs, files, foreignLocks, held, lockBroken)
    }

    constructor (dirs: set<string>, files: map<string, nat>, foreignLocks: set<Range>, lockBroken: bool)
      ensures State() == Disk(dirs, files, foreignLocks, {}, lockBroken)
      ensures log == []
    {
      this.dirs, this.files, this.foreignLocks, this.held := dirs, files, foreignLocks, {};
      this.lockBroken := lockBroken;
      log := [];
    }

    /** Directory.Exists */
    predicate DirectoryExists(p: string)
      reads this
    {
      p in dirs
    }

    /** File.Exists */
    predicate FileExists(p: string)
      reads this
    {
      p in files
    }

    /** FileStream.Length */
    function Length(p: string): nat
      reads this
      requires p in files
    {
      files[p]
    }

    /** Directory.CreateDirectory */
    method CreateDirectory(p: string)
      modifies this
      ensures State() == old(State()).CreateDirectory(p)
      ensures log == old(log) + [DirectoryCreated(p)]
    {
      dirs := dirs + Ancestors(p);
      log := log + [DirectoryCreated(p)];
    }

    /** new FileStream(p, FileMode.OpenOrCreate, ...) */
    method OpenOrCreate(p: string)
      modifies this
      ensures State() == old(State()).OpenOrCreate(p)
      ensures log == old(log) + if p in old(files) then [] else [FileCreated(p)]
    {
      if p !in files {
        files := files[p := 0];
        log := log + [FileCreated(p)];
      }
    }

    /** FileStream.Write of count bytes at the start of the stream */
    method Write(p: string, count: nat)
      requires p in files
      modifies this
      ensures State() == old(State()).Write(p, count)
      ensures log == old(log) + [BytesWritten(p, count)]
    {
      files := files[p := if files[p] < count then count else files[p]];
      log := log + [BytesWritten(p, count)];
    }

    /** FileStream.Lock */
    method Lock(r: Range) returns (o: LockOutcome)
      modifies this
      ensures o == old(State()).LockOutcome(r)
      ensures State() == old(State()).Lock(r)
      ensures log == old(log) + if o == Acquired then [RangeLocked(r)] else []
    {
      o := State().LockOutcome(r);
      if o == Acquired {
        held := held + {r};
        log := log + [RangeLocked(r)];
      }
    }

    /** FileStream.Unlock */
    method Unlock(r: Range)
      modifies this
      ensures State() == old(State()).Unlock(r)
      ensures log == old(log) + [RangeUnlocked(r)]
    {
      held := held - {r};
      log := log + [RangeUnlocked(r)];
    }

    /** ZipFile.ExtractToDirectory: true when it returns, false when it throws */
    method ExtractToDirectory(source: string, dest: string, archive: Extraction) returns (ok: bool)
      modifies this
      ensures ok == archive.Expands?
      ensures State() == old(State()).Extract(archive, dest)
      ensures log == old(log) + [ArchiveExpanded(source, dest)]
    {
      files := files + Placed(archive.Written(), dest);
      log := log + [ArchiveExpanded(source, dest)];
      ok := archive.Expands?;
    }
  }
}
