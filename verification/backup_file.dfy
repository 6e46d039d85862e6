/** One manifest entry and what is derived from it: the path it is restored
    to, its decoded metadata and the zip member descriptor built from both. */
module BackupFiles {
  import opened Wrappers
  import opened Octets
  import opened Strings
  import opened PurePaths
  import opened Domains
  import opened Metadata

  datatype BackupFile = BackupFile(
    fileId: string,
    domain: string,
    relativePath: string,
    fileMeta: Bytes,
    isDir: bool)

  /** `domain.split("-", 1)` with the `ValueError` fallback: the family before
      the first `-` and the whole remainder as package; a domain without `-`
      is all family with an empty package. */
  function SplitDomain(domain: string): (r: (string, string))
    ensures '-' in domain ==> r.0 + "-" + r.1 == domain && '-' !in r.0
    ensures '-' !in domain ==> r == (domain, "")
  {
    match SplitFirst(domain, '-')
    case None => (domain, "")
    case Some(parts) => parts
  }

  /** Where a family's entries start: the table directory of a known family,
      otherwise the family name itself read as a path. */
  function DomainDir(family: string): (r: PurePath)
    ensures forall i :: 0 <= i < |r.segs| ==> '/' !in r.segs[i]
  {
    DirectoryNames(family);
    match Lookup(family)
    case Some(dir) => Rel(dir)
    case None => Parse(family)
  }

  /** `domain_subdir / relative_path` before normalisation, where
      `domain_subdir` is the family directory joined with the package. An
      absolute relative path is the whole result; otherwise the result ends
      with the relative path's segments and contains no `/` in a segment. */
  function TruePath(domain: string, relativePath: string): (r: PurePath)
    ensures Parse(relativePath).rooted ==> r == Parse(relativePath)
    ensures !Parse(relativePath).rooted ==>
      |Parse(relativePath).segs| <= |r.segs| &&
      r.segs[|r.segs| - |Parse(relativePath).segs|..] == Parse(relativePath).segs
    ensures forall i :: 0 <= i < |r.segs| ==> '/' !in r.segs[i]
  {
    var (family, package) := SplitDomain(domain);
    var r := Join(Join(DomainDir(family), Parse(package)), Parse(relativePath));
    assert !Parse(relativePath).rooted ==> r.segs[|r.segs| - |Parse(relativePath).segs|..] == Parse(relativePath).segs;
    r
  }

  /** `translated_path()`, as a relative path below the restore root: the
      joined path, lexically normalised. Only the domain and the relative
      path enter it. */
  function TranslatePath(domain: string, relativePath: string): (r: Segments)
    ensures AllNames(r)
  {
    Normalize(TruePath(domain, relativePath).segs)
  }

  function TranslatedPath(f: BackupFile): Segments {
    TranslatePath(f.domain, f.relativePath)
  }

  /** `translated_path()` as the program computes it: `resolve()` makes the
      joined path absolute against the current directory `cwd`. Only a
      relative joined path depends on `cwd`; an absolute one gives the
      relative model's segments. */
  function TranslatedPathAsWritten(cwd: Segments, f: BackupFile): (r: Segments)
    ensures AllClean(r)
    ensures TruePath(f.domain, f.relativePath).rooted ==> r == TranslatedPath(f)
  {
    Resolve(cwd, TruePath(f.domain, f.relativePath))
  }

  /** The description of one zip member. */
  datatype ZipInfo = ZipInfo(filename: string, dateTime: DateTime, fileSize: PValue)

  /** `get_zipinfo`: the member is named after the translated path and carries
      the first six time fields and the stored size; the time is decoded first,
      so its failure is the one reported when both fail. */
  function GetZipInfo(f: BackupFile, p: Parsers): (r: Result<ZipInfo, DecodeError>)
    ensures r.Success? <==> GetModTime(f.fileMeta, p).Success? && GetSize(f.fileMeta, p).Success?
    ensures GetModTime(f.fileMeta, p).Failure? ==> r == Failure(GetModTime(f.fileMeta, p).error)
    ensures r.Success? ==>
      && Parse(r.value.filename) == Rel(TranslatedPath(f))
      && r.value.dateTime == DateTimeOf(GetModTime(f.fileMeta, p).value)
      && r.value.fileSize == GetSize(f.fileMeta, p).value
  {
    var modTime :- GetModTime(f.fileMeta, p);
    var size :- GetSize(f.fileMeta, p);
    ParseRender(TranslatedPath(f));
    Success(ZipInfo(Render(TranslatedPath(f)), DateTimeOf(modTime), size))
  }

  /** A relative path spelled without `..`: what the manifest normally holds. */
  predicate PlainRelative(s: string) {
    !Parse(s).rooted && AllClean(Parse(s).segs)
  }

  /** Splitting never cuts a dash-free family apart: the package is exactly
      what follows the family's `-`, dashes included. */
  lemma SplitAfterFamily(family: string, package: string)
    requires '-' !in family
    ensures SplitDomain(family + "-" + package) == (family, package)
  {
    SplitFirstAt(family, '-', package);
  }

  /** Every family of the table survives the split intact. */
  lemma SplitKnownFamily(family: string, package: string)
    requires family in DomainTranslation
    ensures SplitDomain(family + "-" + package) == (family, package)
    ensures SplitDomain(family) == (family, "")
  {
    InTable(family);
    KnownWithoutDash(family);
    SplitAfterFamily(family, package);
  }

  /** Translation is normalisation of the table (or literal) directory, the
      package and the relative path, one after the other, as long as neither
      the package nor the relative path is absolute. */
  lemma TranslateStructure(domain: string, relativePath: string)
    requires !Parse(SplitDomain(domain).1).rooted && !Parse(relativePath).rooted
    ensures TranslatePath(domain, relativePath) ==
      Normalize(DomainDir(SplitDomain(domain).0).segs + Parse(SplitDomain(domain).1).segs + Parse(relativePath).segs)
  {
  }

  lemma ParseEmpty()
    ensures Parse("") == Rel([])
  {
    assert SplitFirst("", '/').None?;
  }

  lemma ParseName(name: string)
    requires IsName(name)
    ensures Parse(name) == Rel([name])
  {
    ParseRender([name]);
    assert Render([name]) == name;
  }

  lemma DomainDirKnown(family: string)
    requires family in DomainTranslation
    ensures '-' !in family
    ensures DomainDir(family) == Rel(DomainTranslation[family])
    ensures AllClean(DomainTranslation[family])
  {
    InTable(family);
    KnownWithoutDash(family);
    DirectoryNames(family);
  }

  lemma DomainDirLiteral(family: string)
    requires family !in DomainTranslation && IsName(family)
    ensures DomainDir(family) == Rel([family])
  {
    InTable(family);
    ParseName(family);
  }

  /** Clean segments are what a translation built from them consists of. */
  lemma CleanConcat(a: Segments, b: Segments, c: Segments)
    requires AllClean(a) && AllClean(b) && AllClean(c)
    ensures Normalize(a + b + c) == a + b + c
  {
    var all := a + b + c;
    assert AllClean(all) by {
      forall i | 0 <= i < |all| ensures IsClean(all[i]) {
        if i < |a| {
          assert all[i] == a[i];
        } else if i < |a| + |b| {
          assert all[i] == b[i - |a|];
        } else {
          assert all[i] == c[i - |a| - |b|];
        }
      }
    }
    NormalizeClean(all);
  }

  /** Once the family directory and the package are known to be clean
      relative paths, translation is their plain concatenation with the
      relative path. */
  lemma TranslateClean(domain: string, relativePath: string, dir: Segments, pkg: Segments)
    requires DomainDir(SplitDomain(domain).0) == Rel(dir) && Parse(SplitDomain(domain).1) == Rel(pkg)
    requires AllClean(dir) && AllClean(pkg) && PlainRelative(relativePath)
    ensures TranslatePath(domain, relativePath) == dir + pkg + Parse(relativePath).segs
  {
    TranslateStructure(domain, relativePath);
    CleanConcat(dir, pkg, Parse(relativePath).segs);
  }

  /** A known family with a package: the table directory, then the package,
      then the relative path, unchanged. */
  lemma TranslateKnownFamily(family: string, package: string, relativePath: string)
    requires family in DomainTranslation && IsName(package) && PlainRelative(relativePath)
    ensures TranslatePath(family + "-" + package, relativePath) ==
      DomainTranslation[family] + [package] + Parse(relativePath).segs
  {
    SplitKnownFamily(family, package);
    DomainDirKnown(family);
    ParseName(package);
    TranslateClean(family + "-" + package, relativePath, DomainTranslation[family], [package]);
  }

  /** A dash-free domain has no package, and the empty package adds no
      segment. */
  lemma TranslateNoPackage(family: string, relativePath: string)
    requires '-' !in family && !Parse(relativePath).rooted
    ensures TranslatePath(family, relativePath) == Normalize(DomainDir(family).segs + Parse(relativePath).segs)
  {
    assert SplitDomain(family) == (family, "");
    ParseEmpty();
    TranslateStructure(family, relativePath);
    assert DomainDir(family).segs + [] == DomainDir(family).segs;
  }

  /** A known family without a package: the table directory, then the
      relative path. */
  lemma TranslateKnownNoPackage(family: string, relativePath: string)
    requires family in DomainTranslation && PlainRelative(relativePath)
    ensures TranslatePath(family, relativePath) == DomainTranslation[family] + Parse(relativePath).segs
  {
    DomainDirKnown(family);
    TranslateNoPackage(family, relativePath);
    CleanConcat(DomainTranslation[family], Parse(relativePath).segs, []);
    assert DomainTranslation[family] + Parse(relativePath).segs + [] == DomainTranslation[family] + Parse(relativePath).segs;
  }

  /** An unknown family is not an error: its name becomes the leading
      segment, followed by the package and the relative path. */
  lemma TranslateUnknownFamily(family: string, package: string, relativePath: string)
    requires family !in DomainTranslation && IsName(family) && '-' !in family
    requires IsName(package) && PlainRelative(relativePath)
    ensures TranslatePath(family + "-" + package, relativePath) == [family, package] + Parse(relativePath).segs
  {
    SplitAfterFamily(family, package);
    DomainDirLiteral(family);
    ParseName(package);
    TranslateClean(family + "-" + package, relativePath, [family], [package]);
    assert [family] + [package] == [family, package];
  }

  /** An absolute relative path replaces everything before it: the domain
      plays no part in the result. */
  lemma TranslateRootedRelative(domain: string, relativePath: string)
    requires Parse(relativePath).rooted
    ensures TranslatePath(domain, relativePath) == Normalize(Parse(relativePath).segs)
  {
  }

  /** The result is normalised, but not confined to the family directory:
      enough `..` segments climb out of it. Shown for `../../../etc/passwd`
      under a family whose directory is `private/var/mobile`, as for
      `HomeDomain`. */
  lemma TranslateClimbsOut(family: string, relativePath: string)
    requires '-' !in family && DomainDir(family) == Rel(["private", "var", "mobile"])
    requires relativePath == JoinWith(["..", "..", "..", "etc", "passwd"], '/')
    ensures TranslatePath(family, relativePath) == ["etc", "passwd"]
  {
    ClimbingPath(relativePath);
    TranslateNoPackage(family, relativePath);
    ClimbThree(DomainDir(family).segs, Parse(relativePath).segs);
  }

  lemma ClimbingPath(relativePath: string)
    requires relativePath == JoinWith(["..", "..", "..", "etc", "passwd"], '/')
    ensures Parse(relativePath) == Rel(["..", "..", "..", "etc", "passwd"])
  {
    ParseJoin(["..", "..", "..", "etc", "passwd"]);
  }

  /** The segments come in as parameters pinned by `requires` rather than
      as literals in the statement, so that the verifier does not unfold
      `Normalize` of a literal list on its own. */
  lemma ClimbThree(dir: Segments, climb: Segments)
    requires dir == ["private", "var", "mobile"] && climb == ["..", "..", "..", "etc", "passwd"]
    ensures Normalize(dir + climb) == ["etc", "passwd"]
  {
    var once := dir + [".."];
    var twice := once + [".."];
    var thrice := twice + [".."];
    var rest := ["etc", "passwd"];
    assert Normalize(dir) == dir by {
      NormalizeClean(dir);
    }
    assert Normalize(thrice) == [] by {
      NormalizeUp(dir);
      NormalizeUp(once);
      NormalizeUp(twice);
    }
    assert Normalize(thrice + rest) == rest by {
      NormalizeCleanSuffix(thrice, rest);
    }
    assert thrice + rest == dir + climb;
  }

  /** `HomeDomain` is such a family. */
  lemma HomeDomainDir()
    ensures '-' !in "HomeDomain" && DomainDir("HomeDomain") == Rel(["private", "var", "mobile"])
  {
    assert Lookup("HomeDomain") == Some(["private", "var", "mobile"]);
  }

  /** Normalising clean directory segments followed by clean relative
      segments changes nothing. */
  lemma CleanJoin(dir: Segments, segs: Segments)
    requires AllClean(dir) && AllClean(segs)
    ensures Normalize(dir + segs) == dir + segs
  {
    CleanConcat(dir, segs, []);
    assert dir + segs + [] == dir + segs;
  }

  /** A file of a family whose directory is `private/var/mobile`, as for
      `HomeDomain`, lands under that directory. */
  lemma ExampleHomeDomain(family: string, relativePath: string)
    requires '-' !in family && DomainDir(family) == Rel(["private", "var", "mobile"])
    requires relativePath == JoinWith(["Library", "foo.db"], '/')
    ensures TranslatePath(family, relativePath) == ["private", "var", "mobile", "Library", "foo.db"]
  {
    LibraryFile(relativePath);
    TranslateNoPackage(family, relativePath);
    MobileLibrary();
  }

  lemma LibraryFile(relativePath: string)
    requires relativePath == JoinWith(["Library", "foo.db"], '/')
    ensures Parse(relativePath) == Rel(["Library", "foo.db"])
  {
    ParseJoin(["Library", "foo.db"]);
  }

  lemma MobileLibrary()
    ensures Normalize(["private", "var", "mobile"] + ["Library", "foo.db"]) == ["private", "var", "mobile", "Library", "foo.db"]
  {
    CleanJoin(["private", "var", "mobile"], ["Library", "foo.db"]);
  }

  /** The application container directory of the `AppDomain` family. */
  lemma AppDomainDir(family: string)
    requires family == "AppDomain"
    ensures family in DomainTranslation
    ensures DomainTranslation[family] == ["private", "var", "mobile", "Containers", "Data", "Application"]
  {
    assert Lookup(family) == Some(["private", "var", "mobile", "Containers", "Data", "Application"]);
    InTable(family);
  }

  /** Only the domain and the relative path enter the translation: the file
      id, the metadata and the directory flag play no part. */
  lemma TranslationIgnoresOtherFields(f: BackupFile, g: BackupFile, cwd: Segments)
    requires f.domain == g.domain && f.relativePath == g.relativePath
    ensures TranslatedPath(f) == TranslatedPath(g)
    ensures TranslatedPathAsWritten(cwd, f) == TranslatedPathAsWritten(cwd, g)
  {
  }

  /** For a joined path that is relative and spelled without `..`, the
      program's `resolve()` result is the relative translation placed under
      the current directory. */
  lemma AsWrittenUnderCwd(cwd: Segments, f: BackupFile)
    requires AllClean(cwd)
    requires !TruePath(f.domain, f.relativePath).rooted && AllClean(TruePath(f.domain, f.relativePath).segs)
    ensures TranslatedPathAsWritten(cwd, f) == cwd + TranslatedPath(f)
  {
    var segs := TruePath(f.domain, f.relativePath).segs;
    CleanJoin(cwd, segs);
    NormalizeClean(segs);
  }
}
