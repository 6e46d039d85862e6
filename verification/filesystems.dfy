/** An abstract file system holding regular files and directories, addressed
    by absolute, lexically normalised segment lists, with the calls the
    restore makes: `Path.exists()`, `mkdir(parents=True, exist_ok=True)`,
    `shutil.copyfile` and reading a whole file. */
module FileSystems {
  import opened Wrappers
  import opened Octets
  import opened PurePaths

  /** Regular files with their contents, and directories. The root `[]` is
      always a directory. */
  datatype FileSystem = FileSystem(files: map<Segments, Bytes>, dirs: set<Segments>)

  /** The `OSError` subclasses the calls raise, with the offending path. */
  datatype FsError =
    | FileExists(path: Segments)
    | NotADirectory(path: Segments)
    | IsADirectory(path: Segments)
    | FileNotFound(path: Segments)
    | SameFile(path: Segments)

  predicate IsDir(fs: FileSystem, p: Segments) {
    p == [] || p in fs.dirs
  }

  /** What a sequence of calls leaves behind: the file system as it stands
      afterwards, and the error that stopped it if one was raised. Work done
      before the error stays done. */
  datatype Effect = Effect(fs: FileSystem, error: Option<FsError>)

  /** `Path.exists()`: a file or a directory is there. */
  predicate Exists(fs: FileSystem, p: Segments) {
    IsDir(fs, p) || p in fs.files
  }

  /** In a valid file system whatever exists sits in a directory. */
  lemma ExistsInDir(fs: FileSystem, p: Segments)
    requires Valid(fs) && Exists(fs, p)
    ensures IsDir(fs, Parent(p))
  {
  }

  /** Some leading part of `p` (possibly `p` itself) is a regular file, so
      nothing can be created at `p`. */
  predicate Blocked(fs: FileSystem, p: Segments) {
    exists k :: 0 < k <= |p| && p[..k] in fs.files
  }

  /** Every file system the program can meet: the root is not a file, no path
      is both a file and a directory, and every entry sits in a directory. */
  predicate Valid(fs: FileSystem) {
    && [] !in fs.files
    && (forall p :: p in fs.files ==> p !in fs.dirs && IsDir(fs, Parent(p)))
    && (forall p {:trigger Parent(p)} :: p in fs.dirs ==> IsDir(fs, Parent(p)))
  }

  /** The directories `mkdir(parents=True)` may have to create for `p`:
      every non-empty leading part of it. */
  function Chain(p: Segments): set<Segments> {
    set k | 0 < k <= |p| :: p[..k]
  }

  /** Making the directories up to a path at or below `root`, or up to its
      parent, never touches a path apart from `root`. */
  lemma ChainApart(root: Segments, out: Segments, p: Segments)
    requires Apart(p, root) && root <= out
    ensures p !in Chain(out) && p !in Chain(Parent(out)) && p != out
  {
    forall k | 0 < k <= |out|
      ensures out[..k] != p
    {
      if k <= |root| {
        assert out[..k] == root[..k];
      } else {
        assert out[..k][..|root|] == root;
      }
    }
    forall k | 0 < k <= |Parent(out)|
      ensures Parent(out)[..k] == out[..k]
    {
    }
    assert out[..|out|] == out;
  }

  /** `p` is as it was: it exists afterwards exactly when it did before, it
      is a file exactly when it was one, and a file keeps its bytes. */
  predicate Untouched(before: FileSystem, after: FileSystem, p: Segments) {
    && (Exists(after, p) <==> Exists(before, p))
    && (p in after.files <==> p in before.files)
    && (p in before.files ==> after.files[p] == before.files[p])
  }

  /** In a valid file system every leading part of a directory is one. */
  lemma {:induction false} DirAncestors(fs: FileSystem, p: Segments)
    requires Valid(fs) && IsDir(fs, p)
    ensures forall k :: 0 < k <= |p| ==> p[..k] in fs.dirs
    decreases |p|
  {
    if |p| > 0 {
      var up := Parent(p);
      DirAncestors(fs, up);
      assert p[..|p|] == p;
      forall k | 0 < k < |p|
        ensures p[..k] in fs.dirs
      {
        assert up[..k] == p[..k];
      }
    }
  }

  /** A path with a file on the way to it is no directory. */
  lemma BlockedNotDir(fs: FileSystem, p: Segments)
    requires Valid(fs) && Blocked(fs, p)
    ensures !IsDir(fs, p)
  {
    if IsDir(fs, p) {
      DirAncestors(fs, p);
      assert false;
    }
  }

  /** `mkdir(parents=True, exist_ok=True)`. An existing directory is left as
      it is; an existing file at `p` raises `FileExistsError`; a file on the
      way raises `NotADirectoryError`; otherwise the missing directories are
      created from the top down. */
  function MakeDirs(fs: FileSystem, p: Segments): (r: Result<FileSystem, FsError>)
    requires Valid(fs)
    ensures r.Failure? <==> Blocked(fs, p)
    ensures r.Failure? ==> r.error == (if p in fs.files then FileExists(p) else NotADirectory(p))
    ensures r.Success? ==>
      && Valid(r.value)
      && r.value.files == fs.files
      && r.value.dirs == fs.dirs + Chain(p)
    decreases |p|
  {
    if IsDir(fs, p) then
      DirAncestors(fs, p);
      assert !Blocked(fs, p);
      assert Chain(p) <= fs.dirs;
      Success(fs)
    else if p in fs.files then
      assert p[..|p|] == p;
      Failure(FileExists(p))
    else if Blocked(fs, Parent(p)) then
      var k :| 0 < k <= |Parent(p)| && Parent(p)[..k] in fs.files;
      assert p[..k] == Parent(p)[..k];
      Failure(NotADirectory(p))
    else
      var up := MakeDirs(fs, Parent(p));
      var next := up.value.(dirs := up.value.dirs + {p});
      assert Chain(p) == Chain(Parent(p)) + {p} by {
        assert p[..|p|] == p;
        forall k | 0 < k < |p|
          ensures p[..k] == Parent(p)[..k]
        {
        }
      }
      assert !Blocked(fs, p) by {
        forall k | 0 < k < |p|
          ensures p[..k] !in fs.files
        {
          assert p[..k] == Parent(p)[..k];
        }
        assert p[..|p|] == p;
      }
      Success(next)
  }

  /** `open(p, 'rb').read()`: the whole contents of a regular file. */
  function ReadFile(fs: FileSystem, p: Segments): (r: Result<Bytes, FsError>)
    ensures r.Success? <==> p in fs.files
    ensures r.Success? ==> r.value == fs.files[p]
  {
    if p in fs.files then Success(fs.files[p])
    else if IsDir(fs, p) then Failure(IsADirectory(p))
    else if Blocked(fs, Parent(p)) then Failure(NotADirectory(p))
    else Failure(FileNotFound(p))
  }

  /** `shutil.copyfile(src, dst)`: copying a path onto itself raises
      `SameFileError`; the source is opened before the destination, each
      failing if it is a directory or cannot be reached; otherwise `dst` is
      created or overwritten with the bytes of `src`. */
  function CopyFile(fs: FileSystem, src: Segments, dst: Segments): (r: Result<FileSystem, FsError>)
    requires Valid(fs)
    ensures r.Success? <==>
      src != dst && src in fs.files && !IsDir(fs, dst) && IsDir(fs, Parent(dst))
    ensures r.Success? ==> Valid(r.value) && r.value.dirs == fs.dirs && fs.files.Keys <= r.value.files.Keys
  {
    if src == dst && Exists(fs, src) then Failure(SameFile(src))
    else if src !in fs.files then ReadFile(fs, src).PropagateFailure()
    else if IsDir(fs, dst) then Failure(IsADirectory(dst))
    else if Blocked(fs, Parent(dst)) then
      BlockedNotDir(fs, Parent(dst));
      Failure(NotADirectory(dst))
    else if !IsDir(fs, Parent(dst)) then Failure(FileNotFound(dst))
    else Success(fs.(files := fs.files[dst := fs.files[src]]))
  }

  /** The file system after a successful copy: the destination holds the
      source's bytes, and every other file is there as before with the same
      contents, and no other file appears. */
  lemma CopyContents(fs: FileSystem, src: Segments, dst: Segments)
    requires Valid(fs) && CopyFile(fs, src, dst).Success?
    ensures ReadFile(CopyFile(fs, src, dst).value, dst) == ReadFile(fs, src)
    ensures forall q :: q != dst ==>
      (q in CopyFile(fs, src, dst).value.files <==> q in fs.files)
    ensures forall q :: q != dst && q in fs.files ==>
      ReadFile(CopyFile(fs, src, dst).value, q) == ReadFile(fs, q)
  {
  }

  /** After `mkdir(parents=True)` succeeds the directory exists. */
  lemma MakeDirsCreates(fs: FileSystem, p: Segments)
    requires Valid(fs) && MakeDirs(fs, p).Success?
    ensures IsDir(MakeDirs(fs, p).value, p)
  {
    assert |p| > 0 ==> p[..|p|] == p;
  }

  /** Making the directories up to `q` leaves every other path untouched. */
  lemma MakeDirsFrame(fs: FileSystem, q: Segments, p: Segments)
    requires Valid(fs) && MakeDirs(fs, q).Success?
    requires p != [] && p !in Chain(q)
    ensures Untouched(fs, MakeDirs(fs, q).value, p)
  {
  }

  /** A copy leaves every path but its destination untouched. */
  lemma CopyFrame(fs: FileSystem, src: Segments, dst: Segments, p: Segments)
    requires Valid(fs) && CopyFile(fs, src, dst).Success? && p != dst
    ensures Untouched(fs, CopyFile(fs, src, dst).value, p)
  {
    CopyContents(fs, src, dst);
    if p in fs.files {
      assert ReadFile(CopyFile(fs, src, dst).value, p) == ReadFile(fs, p);
    }
  }

  /** Copying a file onto a file that already holds the same bytes changes
      nothing. */
  lemma CopySettled(fs: FileSystem, src: Segments, dst: Segments)
    requires Valid(fs) && src != dst && src in fs.files && dst in fs.files
    requires fs.files[dst] == fs.files[src]
    ensures CopyFile(fs, src, dst) == Success(fs)
  {
    assert fs.files[dst := fs.files[src]] == fs.files;
  }

  /** Creating directories that already exist changes nothing: the
      `exist_ok=True` half of `mkdir`. */
  lemma MakeDirsIdempotent(fs: FileSystem, p: Segments)
    requires Valid(fs) && MakeDirs(fs, p).Success?
    ensures MakeDirs(MakeDirs(fs, p).value, p) == MakeDirs(fs, p)
  {
    MakeDirsCreates(fs, p);
  }
}
