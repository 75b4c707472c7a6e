/** What one call of the archiver guarantees, stated over the model in ZipArchiver. */
module ZipArchiverProperties {
  import opened Wrappers
  import opened DotNetPath
  import opened NamePattern
  import opened FileSystem
  import opened ZipArchiver

  // ---- file names -------------------------------------------------------

  lemma LastIndexOfAppend(a: string, b: string, c: char)
    requires c !in b
    ensures LastIndexOf(a + b, c) == LastIndexOf(a, c)
  {
    var r := LastIndexOf(a, c);
    forall i | r < i < |a + b| ensures (a + b)[i] != c {
      if i >= |a| { assert (a + b)[i] == b[i - |a|]; }
    }
    LastIndexOfIs(a + b, c, r);
  }

  /** The file name of a path in a directory is what follows the directory. */
  lemma FileNameInDirectory(dir: string, file: string)
    requires dir == [] || dir[|dir| - 1] == DirectorySeparator
    requires DirectorySeparator !in file
    ensures FileName(dir + file) == file
  {
    LastIndexOfAppend(dir, file, DirectorySeparator);
    if dir != [] {
      LastIndexOfIs(dir, DirectorySeparator, |dir| - 1);
    }
    assert (dir + file)[|dir|..] == file;
  }

  /** A file whose name ends in ".zip", in any case, is a zip file, and its stem is what precedes that. */
  lemma ZipFileStem(dir: string, stem: string, ext: string)
    requires dir == [] || dir[|dir| - 1] == DirectorySeparator
    requires DirectorySeparator !in stem
    requires IsZipExtension(ext)
    ensures IsZipFile(dir + (stem + ext))
    ensures FileNameWithoutExtension(dir + (stem + ext)) == stem
  {
    var name := stem + ext;
    ZipNameParts(dir, stem, ext);
    assert Extension(dir + name) == name[|stem|..] == ext;
    assert FileNameWithoutExtension(dir + name) == name[..|stem|] == stem;
  }

  /** The file name is stem and extension, and the extension's '.' is its last. */
  lemma ZipNameParts(dir: string, stem: string, ext: string)
    requires dir == [] || dir[|dir| - 1] == DirectorySeparator
    requires DirectorySeparator !in stem
    requires IsZipExtension(ext)
    ensures FileName(dir + (stem + ext)) == stem + ext
    ensures LastIndexOf(stem + ext, '.') == |stem|
  {
    var name := stem + ext;
    assert DirectorySeparator !in name by {
      forall i | 0 <= i < |name| ensures name[i] != DirectorySeparator {
        if i < |stem| { assert name[i] == stem[i]; } else { assert name[i] == ext[i - |stem|]; }
      }
    }
    FileNameInDirectory(dir, name);
    forall i | |stem| < i < |name| ensures name[i] != '.' {
      assert name[i] == ext[i - |stem|];
    }
    assert name[|stem|] == ext[0];
    LastIndexOfIs(name, '.', |stem|);
  }

  /** A path is a zip file exactly when its file name ends in ".zip", in any case. */
  lemma IsZipFileMeaning(path: string)
    ensures var name := FileName(path);
      IsZipFile(path) <==> |name| >= 4 && IsZipExtension(name[|name| - 4..])
  {
    var name := FileName(path);
    if |name| >= 4 && IsZipExtension(name[|name| - 4..]) {
      ZipSuffixMakesZipFile(path);
    } else {
      StemAndExtension(path);
    }
  }

  lemma ZipSuffixMakesZipFile(path: string)
    requires var name := FileName(path); |name| >= 4 && IsZipExtension(name[|name| - 4..])
    ensures IsZipFile(path)
  {
    FileNameIsLastSegment(path);
    ZipSuffixInDirectory(path, FileName(path));
  }

  /** A path ending in a separator-free name that ends in ".zip" is a zip file. */
  lemma ZipSuffixInDirectory(path: string, name: string)
    requires |name| <= |path| && path[|path| - |name|..] == name
    requires |name| < |path| ==> path[|path| - |name| - 1] == DirectorySeparator
    requires DirectorySeparator !in name
    requires |name| >= 4 && IsZipExtension(name[|name| - 4..])
    ensures IsZipFile(path)
  {
    var dir := path[..|path| - |name|];
    var stem, ext := name[..|name| - 4], name[|name| - 4..];
    assert dir == [] || dir[|dir| - 1] == DirectorySeparator by {
      if dir != [] { assert dir[|dir| - 1] == path[|path| - |name| - 1]; }
    }
    assert DirectorySeparator !in stem by {
      forall i | 0 <= i < |stem| ensures stem[i] != DirectorySeparator { assert stem[i] == name[i]; }
    }
    assert path == dir + (stem + ext) by {
      assert stem + ext == name;
      assert path == path[..|path| - |name|] + path[|path| - |name|..];
    }
    ZipFileStem(dir, stem, ext);
  }

  /**
   * An archive named {name}-v{version}.zip, with the tag and the extension in
   * either case and in any directory, parses back into name and version, and
   * its assembly is /tmp/packages/{name}/{version}/{name}.dll.
   */
  lemma ArchiveNameRoundTrip(dir: string, name: string, tag: string, version: string, ext: string)
    requires dir == [] || dir[|dir| - 1] == DirectorySeparator
    requires DirectorySeparator !in name && '\n' !in name
    requires tag == "-v" || tag == "-V"
    requires IsVersion(version)
    requires IsZipExtension(ext)
    ensures var path := dir + (name + tag + version + ext);
      IsZipFile(path) &&
      ExtractNameAndVersion(path) == Success([name, version]) &&
      GetLocalPathToAssembly(path) == Success("/tmp/packages/" + name + "/" + version + "/" + name + ".dll")
  {
    var stem := name + tag + version;
    assert DirectorySeparator !in stem by {
      VersionCharacters(version);
      forall i | 0 <= i < |stem| ensures stem[i] != DirectorySeparator {
        if i < |name| { assert stem[i] == name[i]; }
        else if i >= |name| + 2 { assert stem[i] == version[i - |name| - 2]; }
      }
    }
    ZipFileStem(dir, stem, ext);
    TaggedStemCaptured(name, tag, version);
  }

  // Examples. Each path is a parameter equal to a literal, so that the
  // verifier reasons about it through the lemmas above.

  lemma UpperCaseZipExample(p: string)
    requires p == "A.ZIP"
    ensures IsZipFile(p)
  {
    assert p == "" + ("A" + ".ZIP");
    ZipFileStem("", "A", ".ZIP");
  }

  lemma OtherExtensionExample(p: string)
    requires p == "A.tar"
    ensures !IsZipFile(p)
  {
    LastIndexOfIs(p, '.', 1);
  }

  lemma NoExtensionExample(p: string)
    requires p == "zip"
    ensures !IsZipFile(p)
  {
  }

  /** Only the file name counts: a ".zip" directory does not make a zip file. */
  lemma ZipDirectoryExample(p: string)
    requires p == "/data/a.zip/readme"
    ensures !IsZipFile(p)
  {
  }

  lemma ConventionalNameExample(p: string)
    requires p == "/data/Foo-v1.2.3.zip"
    ensures ExtractNameAndVersion(p) == Success(["Foo", "1.2.3"])
  {
    assert SplitsVersion("1.2.3", 1, 3);
    assert p == "/data/" + ("Foo" + "-v" + "1.2.3" + ".zip");
    ArchiveNameRoundTrip("/data/", "Foo", "-v", "1.2.3", ".zip");
  }

  /** The greedy name group keeps an earlier tag; the case of the tag and extension does not matter. */
  lemma NestedTagExample(p: string)
    requires p == "a-v1.2.3-V4.5.rc6.ZIP"
    ensures ExtractNameAndVersion(p) == Success(["a-v1.2.3", "4.5.rc6"])
  {
    assert SplitsVersion("4.5.rc6", 1, 3);
    assert p == "" + ("a-v1.2.3" + "-V" + "4.5.rc6" + ".ZIP");
    ArchiveNameRoundTrip("", "a-v1.2.3", "-V", "4.5.rc6", ".ZIP");
  }

  /** The name group may be empty. */
  lemma EmptyNameExample(p: string)
    requires p == "-v1_0.2.3.zip"
    ensures ExtractNameAndVersion(p) == Success(["", "1_0.2.3"])
  {
    assert SplitsVersion("1_0.2.3", 3, 5);
    assert p == "" + ("" + "-v" + "1_0.2.3" + ".zip");
    ArchiveNameRoundTrip("", "", "-v", "1_0.2.3", ".zip");
  }

  /** The name group stops at a line feed: only the line that holds the tag is read. */
  lemma LineFeedNameExample(p: string)
    requires p == "a\nb-v1.2.3.zip"
    ensures ExtractNameAndVersion(p) == Success(["b", "1.2.3"])
  {
    var stem := "a" + "\n" + ("b" + "-v" + "1.2.3");
    assert p == "" + (stem + ".zip");
    assert DirectorySeparator !in stem;
    ZipFileStem("", stem, ".zip");
    IsVersionOneTwoThree();
    LaterLineCaptured("a", "b", "-v", "1.2.3");
  }

  /** "1.2.3" is a three-part version. */
  lemma IsVersionOneTwoThree()
    ensures IsVersion("1.2.3")
  {
    assert SplitsVersion("1.2.3", 1, 3);
  }

  /** A ".." name parses, and its package directory is "/tmp/packages/..", outside the cache. */
  lemma DotDotNameExample(p: string)
    requires p == "..-v1.2.3.zip"
    ensures ExtractNameAndVersion(p) == Success(["..", "1.2.3"])
    ensures GetLocalPathToAssembly(p) == Success("/tmp/packages/" + ".." + "/" + "1.2.3" + "/" + ".." + ".dll")
  {
    IsVersionOneTwoThree();
    assert p == "" + (".." + "-v" + "1.2.3" + ".zip");
    ArchiveNameRoundTrip("", "..", "-v", "1.2.3", ".zip");
  }

  lemma TwoPartVersionExample(p: string)
    requires p == "Foo-v1.2.zip"
    ensures ExtractNameAndVersion(p) == Failure(FormatMismatch)
    ensures GetLocalPathToAssembly(p) == Failure(FormatMismatch)
  {
    var stem := p[..|p| - 4];
    assert p == "" + (stem + ".zip");
    assert stem == "Foo-v1" + "." + "2";
    OneDotRejected("Foo-v1", "2");
    RejectedStem("", stem, ".zip");
  }

  lemma UntaggedNameExample(p: string)
    requires p == "Foo.zip"
    ensures ExtractNameAndVersion(p) == Failure(FormatMismatch)
    ensures GetLocalPathToAssembly(p) == Failure(FormatMismatch)
  {
    var stem := p[..|p| - 4];
    assert p == "" + (stem + ".zip");
    assert stem == "Foo";
    NoDotRejected(stem);
    RejectedStem("", stem, ".zip");
  }

  /** A zip file whose stem does not match is refused by both name functions. */
  lemma RejectedStem(dir: string, stem: string, ext: string)
    requires dir == [] || dir[|dir| - 1] == DirectorySeparator
    requires DirectorySeparator !in stem
    requires IsZipExtension(ext)
    requires Capture(stem) == None
    ensures ExtractNameAndVersion(dir + (stem + ext)) == Failure(FormatMismatch)
    ensures GetLocalPathToAssembly(dir + (stem + ext)) == Failure(FormatMismatch)
  {
    ZipFileStem(dir, stem, ext);
  }

  // ---- the package layout -----------------------------------------------

  /** Neither part of a parsed name holds a separator, since both come from a file name. */
  lemma PartsHaveNoSeparator(path: string)
    requires ExtractNameAndVersion(path).Success?
    ensures DirectorySeparator !in ExtractNameAndVersion(path).value[0]
    ensures DirectorySeparator !in ExtractNameAndVersion(path).value[1]
  {
    var stem := FileNameWithoutExtension(path);
    ExtractNameAndVersionMeaning(path);
    CapturedPartsFromText(stem, ExtractNameAndVersion(path).value[0], ExtractNameAndVersion(path).value[1], DirectorySeparator);
  }

  lemma SplitAtSeparator(a: string, x: string, b: string, y: string)
    requires DirectorySeparator !in a && DirectorySeparator !in b
    requires a + "/" + x == b + "/" + y
    ensures a == b && x == y
  {
    var s := a + "/" + x;
    assert s[|a|] == '/' && (b + "/" + y)[|b|] == '/';
    assert a == s[..|a|] && b == (b + "/" + y)[..|b|];
    assert x == s[|a| + 1..] && y == (b + "/" + y)[|b| + 1..];
  }

  /** Different packages have different assembly paths. */
  lemma AssemblyPathInjective(n1: string, v1: string, n2: string, v2: string)
    requires DirectorySeparator !in n1 && DirectorySeparator !in v1
    requires DirectorySeparator !in n2 && DirectorySeparator !in v2
    ensures AssemblyPath(n1, v1) == AssemblyPath(n2, v2) <==> n1 == n2 && v1 == v2
  {
    if AssemblyPath(n1, v1) == AssemblyPath(n2, v2) {
      var t1, t2 := v1 + "/" + n1 + ".dll", v2 + "/" + n2 + ".dll";
      assert AssemblyPath(n1, v1) == RootAppPath + "/" + (n1 + "/" + t1);
      assert AssemblyPath(n2, v2) == RootAppPath + "/" + (n2 + "/" + t2);
      var root := RootAppPath + "/";
      assert n1 + "/" + t1 == (root + (n1 + "/" + t1))[|root|..];
      assert n2 + "/" + t2 == (root + (n2 + "/" + t2))[|root|..];
      SplitAtSeparator(n1, t1, n2, t2);
      assert t1 == v1 + "/" + (n1 + ".dll") && t2 == v2 + "/" + (n2 + ".dll");
      SplitAtSeparator(v1, n1 + ".dll", v2, n2 + ".dll");
    }
  }

  /** Two archives share an assembly path exactly when they name the same package. */
  lemma SameAssemblyPathSamePackage(p1: string, p2: string)
    requires GetLocalPathToAssembly(p1).Success? && GetLocalPathToAssembly(p2).Success?
    ensures GetLocalPathToAssembly(p1) == GetLocalPathToAssembly(p2) <==>
      ExtractNameAndVersion(p1) == ExtractNameAndVersion(p2)
  {
    var i1, i2 := ExtractNameAndVersion(p1).value, ExtractNameAndVersion(p2).value;
    PartsHaveNoSeparator(p1);
    PartsHaveNoSeparator(p2);
    AssemblyPathInjective(i1[0], i1[1], i2[0], i2[1]);
    AssemblyPathSpelledOut(i1[0], i1[1]);
    AssemblyPathSpelledOut(i2[0], i2[1]);
    assert i1 == [i1[0], i1[1]] && i2 == [i2[0], i2[1]];
  }

  /** The lock file sits beside the assembly and is a different file. */
  lemma LockFileBesideAssembly(name: string, version: string)
    ensures LockFilePath(name, version) != AssemblyPath(name, version)
    ensures VersionDirectory(name, version) in Ancestors(LockFilePath(name, version))
    ensures VersionDirectory(name, version) in Ancestors(AssemblyPath(name, version))
  {
    var dir := VersionDirectory(name, version);
    var lock, dll := LockFilePath(name, version), AssemblyPath(name, version);
    assert |lock| != |dll|;
    assert lock[..|dir|] == dir && lock[|dir|] == '/';
    assert dll[..|dir|] == dir && dll[|dir|] == '/';
  }

  // ---- the lock marker --------------------------------------------------

  /** Characters of the Basic Multilingual Plane take two bytes each. */
  lemma {:induction false} BmpByteCount(s: string)
    requires forall i :: 0 <= i < |s| ==> s[i] as int < 0x1_0000
    ensures Utf16ByteCount(s) == 2 * |s|
  {
    if s != [] {
      BmpByteCount(s[..|s| - 1]);
    }
  }

  /** The marker is 23 characters and so 46 bytes: the locked range. */
  lemma MarkerLength()
    ensures |LockMarker| == 23 && Utf16ByteCount(LockMarker) == 46
  {
    BmpByteCount(LockMarker);
  }
}
