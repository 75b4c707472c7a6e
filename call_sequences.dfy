/**
 * Calls of UnzipArchive made one after another on the same filesystem: the
 * cache serves a package from disk once it has been attempted, and expands
 * each archive at most once.
 */
module CallSequences {
  import opened Wrappers
  import opened FileSystem
  import opened ZipArchiver
  import opened UnzipProperties

  datatype Call = Call(path: string, archive: Extraction)

  /** The filesystem after a series of calls, their traces joined, and their results in order. */
  datatype History = History(disk: Disk, ops: seq<Op>, results: seq<Result<string, Error>>)

  /** Calls run one after another, each on the filesystem the previous one left. */
  ghost function Replay(d: Disk, calls: seq<Call>): (h: History)
    ensures |h.results| == |calls|
    decreases |calls|
  {
    if calls == [] then History(d, [], [])
    else
      var run := Unzip(d, calls[0].path, calls[0].archive);
      var rest := Replay(run.disk, calls[1..]);
      History(rest.disk, run.ops + rest.ops, [run.result] + rest.results)
  }

  /** Once a package counts as extracted, it stays so through any calls. */
  lemma {:induction false} ExtractedStaysExtractedThroughout(d: Disk, calls: seq<Call>, name: string, version: string)
    requires IsExtracted(d, name, version)
    ensures IsExtracted(Replay(d, calls).disk, name, version)
    decreases |calls|
  {
    if calls != [] {
      var run := Unzip(d, calls[0].path, calls[0].archive);
      ExtractedStaysExtracted(d, calls[0].path, calls[0].archive, name, version);
      ExtractedStaysExtractedThroughout(run.disk, calls[1..], name, version);
    }
  }

  /**
   * Once a package counts as extracted, every call for it is answered with
   * its assembly path, whatever other packages the calls in between extract.
   */
  lemma {:induction false} ExtractedPackageIsServed(d: Disk, calls: seq<Call>, name: string, version: string)
    requires IsExtracted(d, name, version)
    ensures forall j :: 0 <= j < |calls| && Names(calls[j].path, name, version) ==>
      Replay(d, calls).results[j] == Success(AssemblyPath(name, version))
    decreases |calls|
  {
    if calls != [] {
      var run := Unzip(d, calls[0].path, calls[0].archive);
      ExtractedStaysExtracted(d, calls[0].path, calls[0].archive, name, version);
      ExtractedPackageIsServed(run.disk, calls[1..], name, version);
      var h := Replay(d, calls);
      var rest := Replay(run.disk, calls[1..]);
      assert h.results == [run.result] + rest.results;
      ServedFromTail(calls, h.results, rest.results, 0, name, version);
      if Names(calls[0].path, name, version) {
        UnzipNamed(d, calls[0].path, calls[0].archive, name, version);
      }
    }
  }

  /**
   * After the first call for a package that gets past the name checks, every
   * later call for it returns the assembly path, even when that first call
   * failed and whatever calls come in between.
   */
  lemma {:induction false} LaterCallsAreServed(d: Disk, calls: seq<Call>, i: nat, name: string, version: string)
    requires i < |calls| && Names(calls[i].path, name, version)
    ensures forall j :: i < j < |calls| && Names(calls[j].path, name, version) ==>
      Replay(d, calls).results[j] == Success(AssemblyPath(name, version))
    decreases i
  {
    var run := Unzip(d, calls[0].path, calls[0].archive);
    if i == 0 {
      AttemptSettlesPackage(d, calls[0].path, calls[0].archive, name, version);
      ExtractedPackageIsServed(run.disk, calls[1..], name, version);
    } else {
      assert calls[1..][i - 1] == calls[i];
      LaterCallsAreServed(run.disk, calls[1..], i - 1, name, version);
    }
    var h := Replay(d, calls);
    var rest := Replay(run.disk, calls[1..]);
    assert h.results == [h.results[0]] + rest.results;
    ServedFromTail(calls, h.results, rest.results, i, name, version);
  }

  /** Results listed after the first call's are those of the later calls, one place on. */
  lemma ServedFromTail(calls: seq<Call>, results: seq<Result<string, Error>>, rest: seq<Result<string, Error>>,
                       i: nat, name: string, version: string)
    requires 0 < |calls| == |results| && |rest| == |calls| - 1 && results == [results[0]] + rest
    requires forall k :: i <= k < |rest| && Names(calls[1..][k].path, name, version) ==>
      rest[k] == Success(AssemblyPath(name, version))
    ensures forall j :: i < j < |calls| && Names(calls[j].path, name, version) ==>
      results[j] == Success(AssemblyPath(name, version))
  {
    Shift(calls, results, rest, i, (c: Call) => Names(c.path, name, version), Success(AssemblyPath(name, version)));
  }

  lemma Shift<T, R>(xs: seq<T>, ys: seq<R>, tail: seq<R>, i: nat, wanted: T -> bool, y: R)
    requires 0 < |xs| == |ys| && |tail| == |xs| - 1 && ys == [ys[0]] + tail
    requires forall k :: i <= k < |tail| && wanted(xs[1..][k]) ==> tail[k] == y
    ensures forall j :: i < j < |xs| && wanted(xs[j]) ==> ys[j] == y
  {
    forall j | i < j < |xs| && wanted(xs[j]) ensures ys[j] == y {
      assert xs[j] == xs[1..][j - 1];
      assert ys[j] == tail[j - 1];
    }
  }

  /**
   * Calls for one package expand its archive at most once, and not at all
   * when it is already extracted.
   */
  lemma {:induction false} AtMostOneExpansion(d: Disk, calls: seq<Call>, name: string, version: string)
    requires forall i :: 0 <= i < |calls| ==> ExtractNameAndVersion(calls[i].path) == Success([name, version])
    ensures Expansions(Replay(d, calls).ops) <= Budget(d, name, version)
    decreases |calls|
  {
    if calls != [] {
      var run := Unzip(d, calls[0].path, calls[0].archive);
      var rest := Replay(run.disk, calls[1..]);
      assert Replay(d, calls).ops == run.ops + rest.ops;
      ExpansionsAppend(run.ops, rest.ops);
      CallBudget(d, calls[0], name, version);
      AtMostOneExpansion(run.disk, calls[1..], name, version);
    }
  }

  /** The expansions a package may still see: none once extracted, one before. */
  function Budget(d: Disk, name: string, version: string): nat {
    if IsExtracted(d, name, version) then 0 else 1
  }

  /** A call for a package spends at most what is left of its budget, and leaves nothing when it expands. */
  lemma CallBudget(d: Disk, call: Call, name: string, version: string)
    requires ExtractNameAndVersion(call.path) == Success([name, version])
    ensures var run := Unzip(d, call.path, call.archive);
      Expansions(run.ops) + Budget(run.disk, name, version) <= Budget(d, name, version)
  {
    if IsZipFile(call.path) {
      ExpansionsPerCall(d, call.path, call.archive, name, version);
    } else {
      UnzipUnnamed(d, call.path, call.archive);
    }
  }
}
