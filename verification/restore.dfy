/** The two restore modes as folds over the entry index: `process_file_list`
    rebuilds the tree in the file system, `process_into_zip` collects one
    archive member per located file. An exception ends a run; what was done
    before it stays done. */
module Restore {
  import opened Wrappers
  import opened Octets
  import opened PurePaths
  import opened Metadata
  import opened BackupFiles
  import opened FileSystems
  import opened Manifest

  /** What ends a run early: a file-system call that raises, or metadata that
      cannot be decoded. */
  datatype RestoreError = Io(fsError: FsError) | Decode(decodeError: DecodeError)

  /** Where a run stopped: the state reached, and the error that ended it if
      one did. */
  datatype Outcome<S> = Outcome(state: S, failure: Option<RestoreError>)

  /** Nothing is removed: every directory and every file is still there. */
  predicate Grows(before: FileSystem, after: FileSystem) {
    before.dirs <= after.dirs && before.files.Keys <= after.files.Keys
  }

  /** One entry of the tree mode: a directory entry is created, any other
      entry copied. What the step did before raising stays done. */
  function TreeStep(fs: FileSystem, inputRoot: Segments, outputRoot: Segments, f: BackupFile): (r: Effect)
    requires Valid(fs)
    ensures Valid(r.fs) && Grows(fs, r.fs)
    ensures r.error.Some? ==> r.fs.files == fs.files
  {
    if f.isDir then
      match CreateDirectory(fs, outputRoot, f)
      case Failure(e) => Effect(fs, Some(e))
      case Success(made) => Effect(made, None)
    else CreateFile(fs, inputRoot, outputRoot, f)
  }

  /** `process_file_list`: the entries in index order; the first error ends
      the run, with the file system as the failing step left it. */
  function ProcessFileList(fs: FileSystem, inputRoot: Segments, outputRoot: Segments, entries: seq<BackupFile>): (r: Outcome<FileSystem>)
    requires Valid(fs)
    ensures Valid(r.state) && Grows(fs, r.state)
    decreases |entries|
  {
    if |entries| == 0 then Outcome(fs, None)
    else
      match TreeStep(fs, inputRoot, outputRoot, entries[0])
      case Effect(next, Some(e)) => Outcome(next, Some(Io(e)))
      case Effect(next, None) => ProcessFileList(next, inputRoot, outputRoot, entries[1..])
  }

  /** A directory entry never looks at the backup directory: its step is the
      same whatever the input root. */
  lemma DirectoryIgnoresInput(fs: FileSystem, inputRoot: Segments, otherInput: Segments, outputRoot: Segments, f: BackupFile)
    requires Valid(fs) && f.isDir
    ensures TreeStep(fs, inputRoot, outputRoot, f) == TreeStep(fs, otherInput, outputRoot, f)
    ensures TreeStep(fs, inputRoot, outputRoot, f).error.None? ==>
      IsDir(TreeStep(fs, inputRoot, outputRoot, f).fs, OutputPath(outputRoot, f))
  {
  }

  /** A file entry whose bytes cannot be located is skipped without error
      and without any change. */
  lemma MissingSourceSkipped(fs: FileSystem, inputRoot: Segments, outputRoot: Segments, f: BackupFile)
    requires Valid(fs) && !f.isDir && InputPath(fs, inputRoot, f.fileId).None?
    ensures TreeStep(fs, inputRoot, outputRoot, f) == Effect(fs, None)
  {
  }

  /** When a located file's parent directories can be made at its turn, the
      run ends with them in place, whether its copy succeeds or raises and
      ends the run. */
  lemma FailedCopyKeepsParent(fs: FileSystem, inputRoot: Segments, outputRoot: Segments, entries: seq<BackupFile>, k: nat)
    requires Valid(fs) && k < |entries| && !entries[k].isDir
    requires ProcessFileList(fs, inputRoot, outputRoot, entries[..k]).failure.None?
    requires InputPath(ProcessFileList(fs, inputRoot, outputRoot, entries[..k]).state, inputRoot, entries[k].fileId).Some?
    requires MakeDirs(ProcessFileList(fs, inputRoot, outputRoot, entries[..k]).state, Parent(OutputPath(outputRoot, entries[k]))).Success?
    ensures IsDir(ProcessFileList(fs, inputRoot, outputRoot, entries).state, Parent(OutputPath(outputRoot, entries[k])))
  {
    PrefixRun(fs, inputRoot, outputRoot, entries, k);
    var before := ProcessFileList(fs, inputRoot, outputRoot, entries[..k]).state;
    var tail := entries[k..];
    assert tail[0] == entries[k];
    CreateFileKeepsParent(before, inputRoot, outputRoot, entries[k]);
    var step := TreeStep(before, inputRoot, outputRoot, tail[0]);
    assert step == CreateFile(before, inputRoot, outputRoot, entries[k]);
    if step.error.None? {
      assert ProcessFileList(before, inputRoot, outputRoot, tail) == ProcessFileList(step.fs, inputRoot, outputRoot, tail[1..]);
    }
  }

  /** A run whose first `k` entries raise nothing is the run of those
      entries followed by the run of the rest from the state they left,
      whether or not the rest raises. */
  lemma {:induction false} PrefixRun(fs: FileSystem, inputRoot: Segments, outputRoot: Segments, entries: seq<BackupFile>, k: nat)
    requires Valid(fs) && k <= |entries|
    requires ProcessFileList(fs, inputRoot, outputRoot, entries[..k]).failure.None?
    ensures ProcessFileList(fs, inputRoot, outputRoot, entries) ==
      ProcessFileList(ProcessFileList(fs, inputRoot, outputRoot, entries[..k]).state, inputRoot, outputRoot, entries[k..])
    decreases k
  {
    if k == 0 {
      assert entries[..0] == [];
      assert entries[0..] == entries;
    } else {
      assert entries[..k][0] == entries[0];
      assert TreeStep(fs, inputRoot, outputRoot, entries[0]).error.None?;
      var next := TreeStep(fs, inputRoot, outputRoot, entries[0]).fs;
      PrefixStep(fs, inputRoot, outputRoot, entries, k);
      PrefixRun(next, inputRoot, outputRoot, entries[1..], k - 1);
      assert entries[1..][k - 1..] == entries[k..];
    }
  }

  /** A run that ends without error is its first step, which raised
      nothing, followed by the run of the remaining entries. */
  lemma RunStep(fs: FileSystem, inputRoot: Segments, outputRoot: Segments, entries: seq<BackupFile>)
    requires Valid(fs) && |entries| > 0
    requires ProcessFileList(fs, inputRoot, outputRoot, entries).failure.None?
    ensures TreeStep(fs, inputRoot, outputRoot, entries[0]).error.None?
    ensures ProcessFileList(fs, inputRoot, outputRoot, entries) ==
      ProcessFileList(TreeStep(fs, inputRoot, outputRoot, entries[0]).fs, inputRoot, outputRoot, entries[1..])
  {
  }

  /** The run of a non-empty prefix starts with the same first step. */
  lemma PrefixStep(fs: FileSystem, inputRoot: Segments, outputRoot: Segments, entries: seq<BackupFile>, k: nat)
    requires Valid(fs) && 0 < k <= |entries|
    requires TreeStep(fs, inputRoot, outputRoot, entries[0]).error.None?
    ensures ProcessFileList(fs, inputRoot, outputRoot, entries[..k]) ==
      ProcessFileList(TreeStep(fs, inputRoot, outputRoot, entries[0]).fs, inputRoot, outputRoot, entries[1..][..k - 1])
  {
    assert entries[..k][0] == entries[0];
    assert entries[..k][1..] == entries[1..][..k - 1];
  }

  /** A run that ends without error has made every directory entry's output
      path a directory. */
  lemma {:induction false} DirectoriesRestored(fs: FileSystem, inputRoot: Segments, outputRoot: Segments, entries: seq<BackupFile>)
    requires Valid(fs)
    requires ProcessFileList(fs, inputRoot, outputRoot, entries).failure.None?
    ensures forall i :: 0 <= i < |entries| && entries[i].isDir ==>
      IsDir(ProcessFileList(fs, inputRoot, outputRoot, entries).state, OutputPath(outputRoot, entries[i]))
    decreases |entries|
  {
    if |entries| > 0 {
      var next := TreeStep(fs, inputRoot, outputRoot, entries[0]).fs;
      var last := ProcessFileList(next, inputRoot, outputRoot, entries[1..]).state;
      DirectoriesRestored(next, inputRoot, outputRoot, entries[1..]);
      forall i | 0 <= i < |entries| && entries[i].isDir
        ensures IsDir(last, OutputPath(outputRoot, entries[i]))
      {
        if i == 0 {
          assert IsDir(next, OutputPath(outputRoot, entries[0]));
        } else {
          assert entries[i] == entries[1..][i - 1];
        }
      }
    }
  }

  /** A file step that raised nothing and found its bytes leaves a file at
      its output path. */
  lemma StepCopies(fs: FileSystem, inputRoot: Segments, outputRoot: Segments, f: BackupFile)
    requires Valid(fs) && !f.isDir && InputPath(fs, inputRoot, f.fileId).Some?
    requires TreeStep(fs, inputRoot, outputRoot, f).error.None?
    ensures OutputPath(outputRoot, f) in TreeStep(fs, inputRoot, outputRoot, f).fs.files
  {
    assert TreeStep(fs, inputRoot, outputRoot, f) == CreateFile(fs, inputRoot, outputRoot, f);
    CreateFileCopies(fs, inputRoot, outputRoot, f);
  }

  /** A run that ends without error is the run of its first `k` entries,
      which ends without error too, followed by the run of the rest from
      the state the first part left. */
  lemma {:induction false} RunSplit(fs: FileSystem, inputRoot: Segments, outputRoot: Segments, entries: seq<BackupFile>, k: nat)
    requires Valid(fs) && k <= |entries|
    requires ProcessFileList(fs, inputRoot, outputRoot, entries).failure.None?
    ensures ProcessFileList(fs, inputRoot, outputRoot, entries[..k]).failure.None?
    ensures ProcessFileList(fs, inputRoot, outputRoot, entries) ==
      ProcessFileList(ProcessFileList(fs, inputRoot, outputRoot, entries[..k]).state, inputRoot, outputRoot, entries[k..])
    decreases k
  {
    if k == 0 {
      assert entries[..0] == [];
      assert entries[0..] == entries;
    } else {
      RunStep(fs, inputRoot, outputRoot, entries);
      var next := TreeStep(fs, inputRoot, outputRoot, entries[0]).fs;
      PrefixStep(fs, inputRoot, outputRoot, entries, k);
      RunSplit(next, inputRoot, outputRoot, entries[1..], k - 1);
      assert entries[1..][k - 1..] == entries[k..];
    }
  }

  /** A run that ends without error has left a file at the output path of
      every file entry whose bytes were located when its turn came: the
      state before each entry is the state after the ones before it. */
  lemma FilesRestored(fs: FileSystem, inputRoot: Segments, outputRoot: Segments, entries: seq<BackupFile>, k: nat)
    requires Valid(fs) && k < |entries| && !entries[k].isDir
    requires ProcessFileList(fs, inputRoot, outputRoot, entries).failure.None?
    requires InputPath(ProcessFileList(fs, inputRoot, outputRoot, entries[..k]).state, inputRoot, entries[k].fileId).Some?
    ensures OutputPath(outputRoot, entries[k]) in ProcessFileList(fs, inputRoot, outputRoot, entries).state.files
  {
    RunSplit(fs, inputRoot, outputRoot, entries, k);
    var before := ProcessFileList(fs, inputRoot, outputRoot, entries[..k]).state;
    var tail := entries[k..];
    assert tail[0] == entries[k];
    RunStep(before, inputRoot, outputRoot, tail);
    StepCopies(before, inputRoot, outputRoot, tail[0]);
  }

  /** A file no entry of an error-free run writes to keeps its contents. */
  lemma {:induction false} FileKept(fs: FileSystem, inputRoot: Segments, outputRoot: Segments, entries: seq<BackupFile>, q: Segments)
    requires Valid(fs) && q in fs.files
    requires ProcessFileList(fs, inputRoot, outputRoot, entries).failure.None?
    requires forall j :: 0 <= j < |entries| && !entries[j].isDir ==> OutputPath(outputRoot, entries[j]) != q
    ensures q in ProcessFileList(fs, inputRoot, outputRoot, entries).state.files
    ensures ProcessFileList(fs, inputRoot, outputRoot, entries).state.files[q] == fs.files[q]
    decreases |entries|
  {
    if |entries| > 0 {
      RunStep(fs, inputRoot, outputRoot, entries);
      var f := entries[0];
      var next := TreeStep(fs, inputRoot, outputRoot, f).fs;
      assert q in next.files && next.files[q] == fs.files[q] by {
        if !f.isDir && InputPath(fs, inputRoot, f.fileId).Some? {
          CreateFileCopies(fs, inputRoot, outputRoot, f);
          assert ReadFile(next, q) == ReadFile(fs, q);
        }
      }
      forall j | 0 <= j < |entries[1..]| && !entries[1..][j].isDir
        ensures OutputPath(outputRoot, entries[1..][j]) != q
      {
        assert entries[1..][j] == entries[j + 1];
      }
      FileKept(next, inputRoot, outputRoot, entries[1..], q);
    }
  }

  /** In an error-free run whose first entry is a located file that no
      later file entry overwrites, that file ends up holding the bytes it
      was copied from. */
  lemma FirstIntact(fs: FileSystem, inputRoot: Segments, outputRoot: Segments, entries: seq<BackupFile>)
    requires Valid(fs) && |entries| > 0 && !entries[0].isDir
    requires ProcessFileList(fs, inputRoot, outputRoot, entries).failure.None?
    requires InputPath(fs, inputRoot, entries[0].fileId).Some?
    requires forall j :: 0 < j < |entries| && !entries[j].isDir ==>
      OutputPath(outputRoot, entries[j]) != OutputPath(outputRoot, entries[0])
    ensures
      var src := InputPath(fs, inputRoot, entries[0].fileId).value;
      && src in fs.files
      && ReadFile(ProcessFileList(fs, inputRoot, outputRoot, entries).state, OutputPath(outputRoot, entries[0])) ==
         ReadFile(fs, src)
  {
    RunStep(fs, inputRoot, outputRoot, entries);
    var next := TreeStep(fs, inputRoot, outputRoot, entries[0]).fs;
    var out := OutputPath(outputRoot, entries[0]);
    assert TreeStep(fs, inputRoot, outputRoot, entries[0]) == CreateFile(fs, inputRoot, outputRoot, entries[0]);
    CreateFileCopies(fs, inputRoot, outputRoot, entries[0]);
    forall j | 0 <= j < |entries[1..]| && !entries[1..][j].isDir
      ensures OutputPath(outputRoot, entries[1..][j]) != out
    {
      assert entries[1..][j] == entries[j + 1];
    }
    FileKept(next, inputRoot, outputRoot, entries[1..], out);
  }

  /** In an error-free run, a file entry whose bytes were located when its
      turn came, and whose output path no later file entry shares, ends up
      holding exactly the bytes it was copied from. */
  lemma FilesIntact(fs: FileSystem, inputRoot: Segments, outputRoot: Segments, entries: seq<BackupFile>, k: nat)
    requires Valid(fs) && k < |entries| && !entries[k].isDir
    requires ProcessFileList(fs, inputRoot, outputRoot, entries).failure.None?
    requires InputPath(ProcessFileList(fs, inputRoot, outputRoot, entries[..k]).state, inputRoot, entries[k].fileId).Some?
    requires forall j :: k < j < |entries| && !entries[j].isDir ==>
      OutputPath(outputRoot, entries[j]) != OutputPath(outputRoot, entries[k])
    ensures
      var before := ProcessFileList(fs, inputRoot, outputRoot, entries[..k]).state;
      var src := InputPath(before, inputRoot, entries[k].fileId).value;
      && src in before.files
      && ReadFile(ProcessFileList(fs, inputRoot, outputRoot, entries).state, OutputPath(outputRoot, entries[k])) ==
         ReadFile(before, src)
  {
    RunSplit(fs, inputRoot, outputRoot, entries, k);
    var before := ProcessFileList(fs, inputRoot, outputRoot, entries[..k]).state;
    var tail := entries[k..];
    assert tail[0] == entries[k];
    forall j | 0 < j < |tail| && !tail[j].isDir
      ensures OutputPath(outputRoot, tail[j]) != OutputPath(outputRoot, tail[0])
    {
      assert tail[j] == entries[k + j];
    }
    FirstIntact(before, inputRoot, outputRoot, tail);
  }

  /** A path apart from the output root is out of reach of a tree step:
      whether it exists, whether it is a file and its bytes stay as they
      were. */
  lemma StepFrame(fs: FileSystem, inputRoot: Segments, outputRoot: Segments, f: BackupFile, p: Segments)
    requires Valid(fs) && Apart(p, outputRoot)
    ensures Untouched(fs, TreeStep(fs, inputRoot, outputRoot, f).fs, p)
  {
    var out := OutputPath(outputRoot, f);
    assert outputRoot <= out;
    ChainApart(outputRoot, out, p);
    if f.isDir {
      if MakeDirs(fs, out).Success? {
        MakeDirsFrame(fs, out, p);
      }
    } else {
      CreateFileFrame(fs, inputRoot, outputRoot, f, p);
    }
  }

  /** A path apart from the output root is out of reach of a whole run,
      whether or not it raises. */
  lemma {:induction false} RunFrame(fs: FileSystem, inputRoot: Segments, outputRoot: Segments, entries: seq<BackupFile>, p: Segments)
    requires Valid(fs) && Apart(p, outputRoot)
    ensures Untouched(fs, ProcessFileList(fs, inputRoot, outputRoot, entries).state, p)
    decreases |entries|
  {
    if |entries| > 0 {
      StepFrame(fs, inputRoot, outputRoot, entries[0], p);
      var step := TreeStep(fs, inputRoot, outputRoot, entries[0]);
      if step.error.None? {
        RunFrame(step.fs, inputRoot, outputRoot, entries[1..], p);
      }
    }
  }

  /** Every place a file entry's bytes are looked for lies apart from the
      output root, so no output can be mistaken for an input. */
  predicate LookupsApart(inputRoot: Segments, outputRoot: Segments, entries: seq<BackupFile>) {
    forall k :: 0 <= k < |entries| && !entries[k].isDir ==>
      Apart(FlatPath(inputRoot, entries[k].fileId), outputRoot) &&
      Apart(ShardPath(inputRoot, entries[k].fileId), outputRoot)
  }

  /** No two file entries are restored to the same place. */
  predicate DistinctOutputs(outputRoot: Segments, entries: seq<BackupFile>) {
    forall j, k :: 0 <= j < k < |entries| && !entries[j].isDir && !entries[k].isDir ==>
      OutputPath(outputRoot, entries[j]) != OutputPath(outputRoot, entries[k])
  }

  /** For ids as iOS writes them, a backup directory apart from the output
      directory keeps every lookup apart from it. */
  lemma HexLookupsApart(inputRoot: Segments, outputRoot: Segments, entries: seq<BackupFile>)
    requires AllClean(inputRoot) && Apart(inputRoot, outputRoot)
    requires forall k :: 0 <= k < |entries| && !entries[k].isDir ==> IsHexId(entries[k].fileId)
    ensures LookupsApart(inputRoot, outputRoot, entries)
  {
    forall k | 0 <= k < |entries| && !entries[k].isDir
      ensures Apart(FlatPath(inputRoot, entries[k].fileId), outputRoot)
      ensures Apart(ShardPath(inputRoot, entries[k].fileId), outputRoot)
    {
      var id := entries[k].fileId;
      HexLayout(inputRoot, id);
      ExtendApart(inputRoot, outputRoot, [id]);
      ExtendApart(inputRoot, outputRoot, [id[..2], id]);
    }
  }

  /** Once a run has ended without error, running any of its entries again
      on the state it left changes nothing and raises nothing. */
  lemma StepFixed(fs: FileSystem, inputRoot: Segments, outputRoot: Segments, entries: seq<BackupFile>, k: nat)
    requires Valid(fs) && k < |entries|
    requires ProcessFileList(fs, inputRoot, outputRoot, entries).failure.None?
    requires LookupsApart(inputRoot, outputRoot, entries) && DistinctOutputs(outputRoot, entries)
    ensures
      var last := ProcessFileList(fs, inputRoot, outputRoot, entries).state;
      TreeStep(last, inputRoot, outputRoot, entries[k]) == Effect(last, None)
  {
    var last := ProcessFileList(fs, inputRoot, outputRoot, entries).state;
    var f := entries[k];
    if f.isDir {
      DirectoriesRestored(fs, inputRoot, outputRoot, entries);
      DirectorySettled(last, inputRoot, outputRoot, f);
    } else {
      FileSettled(fs, inputRoot, outputRoot, entries, k);
    }
  }

  /** A directory entry whose output is already a directory changes nothing. */
  lemma DirectorySettled(fs: FileSystem, inputRoot: Segments, outputRoot: Segments, f: BackupFile)
    requires Valid(fs) && f.isDir && IsDir(fs, OutputPath(outputRoot, f))
    ensures TreeStep(fs, inputRoot, outputRoot, f) == Effect(fs, None)
  {
    assert MakeDirs(fs, OutputPath(outputRoot, f)) == Success(fs);
  }

  /** The file half of `StepFixed`: the entry finds the same bytes as in the
      first run, and its output still holds them. */
  lemma FileSettled(fs: FileSystem, inputRoot: Segments, outputRoot: Segments, entries: seq<BackupFile>, k: nat)
    requires Valid(fs) && k < |entries| && !entries[k].isDir
    requires ProcessFileList(fs, inputRoot, outputRoot, entries).failure.None?
    requires LookupsApart(inputRoot, outputRoot, entries) && DistinctOutputs(outputRoot, entries)
    ensures
      var last := ProcessFileList(fs, inputRoot, outputRoot, entries).state;
      TreeStep(last, inputRoot, outputRoot, entries[k]) == Effect(last, None)
  {
    var last := ProcessFileList(fs, inputRoot, outputRoot, entries).state;
    var f := entries[k];
    var out := OutputPath(outputRoot, f);
    RunSplit(fs, inputRoot, outputRoot, entries, k);
    var before := ProcessFileList(fs, inputRoot, outputRoot, entries[..k]).state;
    var tail := entries[k..];
    assert last == ProcessFileList(before, inputRoot, outputRoot, tail).state;
    RunFrame(before, inputRoot, outputRoot, tail, FlatPath(inputRoot, f.fileId));
    RunFrame(before, inputRoot, outputRoot, tail, ShardPath(inputRoot, f.fileId));
    InputPathFrame(before, last, inputRoot, f.fileId);
    assert TreeStep(last, inputRoot, outputRoot, f) == CreateFile(last, inputRoot, outputRoot, f);
    if InputPath(last, inputRoot, f.fileId).Some? {
      var src := InputPath(last, inputRoot, f.fileId).value;
      assert Apart(src, outputRoot);
      FilesIntact(fs, inputRoot, outputRoot, entries, k);
      RunFrame(before, inputRoot, outputRoot, tail, src);
      assert outputRoot <= out;
      ChainApart(outputRoot, out, src);
      CreateFileSettled(last, inputRoot, outputRoot, f, src);
    }
  }

  /** Replaying the entries from position `i` on the state a run without
      error left changes nothing and raises nothing. */
  lemma {:induction false} Replay(fs: FileSystem, inputRoot: Segments, outputRoot: Segments, entries: seq<BackupFile>, i: nat)
    requires Valid(fs) && i <= |entries|
    requires ProcessFileList(fs, inputRoot, outputRoot, entries).failure.None?
    requires LookupsApart(inputRoot, outputRoot, entries) && DistinctOutputs(outputRoot, entries)
    ensures
      var last := ProcessFileList(fs, inputRoot, outputRoot, entries).state;
      ProcessFileList(last, inputRoot, outputRoot, entries[i..]) == Outcome(last, None)
    decreases |entries| - i
  {
    if i < |entries| {
      StepFixed(fs, inputRoot, outputRoot, entries, i);
      Replay(fs, inputRoot, outputRoot, entries, i + 1);
      assert entries[i..][0] == entries[i];
      assert entries[i..][1..] == entries[i + 1..];
    }
  }

  /** Restoring a tree twice into the same output directory gives the tree
      the first restore gave: the second run raises nothing and changes
      nothing, as long as no lookup lies at, above or below the output
      directory and no two file entries share an output path. */
  lemma RestoreIdempotent(fs: FileSystem, inputRoot: Segments, outputRoot: Segments, entries: seq<BackupFile>)
    requires Valid(fs)
    requires ProcessFileList(fs, inputRoot, outputRoot, entries).failure.None?
    requires LookupsApart(inputRoot, outputRoot, entries) && DistinctOutputs(outputRoot, entries)
    ensures
      var once := ProcessFileList(fs, inputRoot, outputRoot, entries);
      ProcessFileList(once.state, inputRoot, outputRoot, entries) == once
  {
    Replay(fs, inputRoot, outputRoot, entries, 0);
    assert entries[0..] == entries;
  }

  /** One archive member: its descriptor and the stored bytes. */
  datatype Member = Member(info: ZipInfo, data: Bytes)

  /** What handling one entry in archive mode gives: the member to write, if
      any, or the error that ends the run. */
  type ZipOutcome = Result<Option<Member>, RestoreError>

  /** One entry of the archive mode: directory entries add nothing; the zip
      descriptor is built first, so undecodable metadata ends the run even
      for an entry whose bytes are missing; an entry whose bytes are missing
      is skipped. */
  function ZipStep(fs: FileSystem, p: Parsers, inputRoot: Segments, f: BackupFile): (r: ZipOutcome)
    ensures r.Failure? <==>
      !f.isDir && (GetZipInfo(f, p).Failure? || GetFileData(fs, inputRoot, f).Failure?)
    ensures f.isDir ==> r == Success(None)
    ensures !f.isDir && GetZipInfo(f, p).Failure? ==> r == Failure(Decode(GetZipInfo(f, p).error))
    ensures r.Success? && r.value.None? ==> f.isDir || InputPath(fs, inputRoot, f.fileId).None?
    ensures r.Success? && r.value.Some? ==>
      && GetZipInfo(f, p) == Success(r.value.value.info)
      && GetFileData(fs, inputRoot, f) == Success(Some(r.value.value.data))
  {
    if f.isDir then Success(None)
    else
      match GetZipInfo(f, p)
      case Failure(e) => Failure(Decode(e))
      case Success(info) =>
        match GetFileData(fs, inputRoot, f)
        case Failure(e) => Failure(Io(e))
        case Success(None) => Success(None)
        case Success(Some(data)) => Success(Some(Member(info, data)))
  }

  /** `process_into_zip`, writing after the members already in `archive`:
      the entries in index order, the first error ends the run. */
  function ProcessIntoZip(fs: FileSystem, p: Parsers, inputRoot: Segments, entries: seq<BackupFile>, archive: seq<Member>): (r: Outcome<seq<Member>>)
    ensures archive <= r.state
    ensures |r.state| <= |archive| + |entries|
    decreases |entries|
  {
    if |entries| == 0 then Outcome(archive, None)
    else
      match ZipStep(fs, p, inputRoot, entries[0])
      case Failure(e) => Outcome(archive, Some(e))
      case Success(None) => ProcessIntoZip(fs, p, inputRoot, entries[1..], archive)
      case Success(Some(m)) => ProcessIntoZip(fs, p, inputRoot, entries[1..], archive + [m])
  }

  /** The step of every entry, in order. Archive mode does not change the
      file system, so the steps do not depend on each other. */
  function ZipSteps(fs: FileSystem, p: Parsers, inputRoot: Segments, entries: seq<BackupFile>): (r: seq<ZipOutcome>)
    ensures |r| == |entries|
    ensures forall i :: 0 <= i < |entries| ==> r[i] == ZipStep(fs, p, inputRoot, entries[i])
  {
    seq(|entries|, i requires 0 <= i < |entries| => ZipStep(fs, p, inputRoot, entries[i]))
  }

  /** Writing the members of a sequence of step outcomes after `archive`,
      stopping at the first failure. */
  function WriteAll(steps: seq<ZipOutcome>, archive: seq<Member>): (r: Outcome<seq<Member>>)
    decreases |steps|
  {
    if |steps| == 0 then Outcome(archive, None)
    else
      match steps[0]
      case Failure(e) => Outcome(archive, Some(e))
      case Success(None) => WriteAll(steps[1..], archive)
      case Success(Some(m)) => WriteAll(steps[1..], archive + [m])
  }

  predicate AllSucceed(steps: seq<ZipOutcome>) {
    forall i :: 0 <= i < |steps| ==> steps[i].Success?
  }

  /** The members successful steps produce, in order. */
  function Produced(steps: seq<ZipOutcome>): (r: seq<Member>)
    requires AllSucceed(steps)
    ensures |r| <= |steps|
    ensures forall m :: m in r ==> exists i :: 0 <= i < |steps| && steps[i] == Success(Some(m))
    decreases |steps|
  {
    if |steps| == 0 then []
    else
      var rest := Produced(steps[1..]);
      assert forall m :: m in rest ==> exists i :: 0 <= i < |steps| && steps[i] == Success(Some(m)) by {
        forall m | m in rest
          ensures exists i :: 0 <= i < |steps| && steps[i] == Success(Some(m))
        {
          var j :| 0 <= j < |steps[1..]| && steps[1..][j] == Success(Some(m));
          assert steps[j + 1] == Success(Some(m));
        }
      }
      (if steps[0].value.Some? then [steps[0].value.value] else []) + rest
  }

  /** The loop of `process_into_zip` is the entries' steps written in order. */
  lemma {:induction false} ZipIsWriteAll(fs: FileSystem, p: Parsers, inputRoot: Segments, entries: seq<BackupFile>, archive: seq<Member>)
    ensures ProcessIntoZip(fs, p, inputRoot, entries, archive) == WriteAll(ZipSteps(fs, p, inputRoot, entries), archive)
    decreases |entries|
  {
    if |entries| > 0 {
      var steps := ZipSteps(fs, p, inputRoot, entries);
      assert steps[1..] == ZipSteps(fs, p, inputRoot, entries[1..]);
      match steps[0]
      case Failure(_) =>
      case Success(None) =>
        ZipIsWriteAll(fs, p, inputRoot, entries[1..], archive);
      case Success(Some(m)) =>
        ZipIsWriteAll(fs, p, inputRoot, entries[1..], archive + [m]);
    }
  }

  /** Without a failure, every produced member is written. */
  lemma {:induction false} WriteAllSucceeds(steps: seq<ZipOutcome>, archive: seq<Member>)
    requires AllSucceed(steps)
    ensures WriteAll(steps, archive) == Outcome(archive + Produced(steps), None)
    decreases |steps|
  {
    if |steps| == 0 {
      assert archive + [] == archive;
    } else {
      var here: seq<Member> := if steps[0].value.Some? then [steps[0].value.value] else [];
      assert AllSucceed(steps[1..]) by {
        forall i | 0 <= i < |steps[1..]| ensures steps[1..][i].Success? {
          assert steps[1..][i] == steps[i + 1];
        }
      }
      WriteAllSucceeds(steps[1..], archive + here);
      assert archive + here == if steps[0].value.Some? then archive + [steps[0].value.value] else archive;
      assert archive + here + Produced(steps[1..]) == archive + (here + Produced(steps[1..]));
    }
  }

  /** The first failure ends the run, after the members produced before it. */
  lemma {:induction false} WriteAllStops(steps: seq<ZipOutcome>, archive: seq<Member>, k: nat)
    requires k < |steps| && steps[k].Failure? && AllSucceed(steps[..k])
    ensures WriteAll(steps, archive) == Outcome(archive + Produced(steps[..k]), Some(steps[k].error))
    decreases k
  {
    if k == 0 {
      assert steps[..k] == [];
      assert archive + [] == archive;
    } else {
      var before := steps[..k];
      assert before[0] == steps[0];
      assert before[1..] == steps[1..][..k - 1];
      assert steps[1..][k - 1] == steps[k];
      var tail := steps[1..][..k - 1];
      assert AllSucceed(tail) by {
        forall i | 0 <= i < |tail| ensures tail[i].Success? {
          assert tail[i] == before[i + 1];
        }
      }
      var here: seq<Member> := if steps[0].value.Some? then [steps[0].value.value] else [];
      WriteAllStops(steps[1..], archive + here, k - 1);
      assert archive + here == if steps[0].value.Some? then archive + [steps[0].value.value] else archive;
      assert archive + here + Produced(before[1..]) == archive + (here + Produced(before[1..]));
    }
  }

  /** Every file entry decodes, and whatever is located for it is readable. */
  predicate AllReadable(fs: FileSystem, p: Parsers, inputRoot: Segments, entries: seq<BackupFile>) {
    forall i :: 0 <= i < |entries| && !entries[i].isDir ==>
      GetZipInfo(entries[i], p).Success? && GetFileData(fs, inputRoot, entries[i]).Success?
  }

  /** The reference archive, read off the entries alone: in entry order, one
      member for each file entry whose bytes are located, named by its
      descriptor and holding the located file's bytes. */
  function ExpectedMembers(fs: FileSystem, p: Parsers, inputRoot: Segments, entries: seq<BackupFile>): (r: seq<Member>)
    requires AllReadable(fs, p, inputRoot, entries)
    ensures |r| <= |entries|
    decreases |entries|
  {
    if |entries| == 0 then []
    else
      var f := entries[0];
      ReadableTail(fs, p, inputRoot, entries);
      var rest := ExpectedMembers(fs, p, inputRoot, entries[1..]);
      if !f.isDir && InputPath(fs, inputRoot, f.fileId).Some? then
        assert GetFileData(fs, inputRoot, f).Success?;
        [Member(GetZipInfo(f, p).value, fs.files[InputPath(fs, inputRoot, f.fileId).value])] + rest
      else rest
  }

  /** Every entry after the first of a readable run is readable. */
  lemma ReadableTail(fs: FileSystem, p: Parsers, inputRoot: Segments, entries: seq<BackupFile>)
    requires |entries| > 0 && AllReadable(fs, p, inputRoot, entries)
    ensures AllReadable(fs, p, inputRoot, entries[1..])
  {
    forall i | 0 <= i < |entries[1..]| && !entries[1..][i].isDir
      ensures GetZipInfo(entries[1..][i], p).Success? && GetFileData(fs, inputRoot, entries[1..][i]).Success?
    {
      assert entries[1..][i] == entries[i + 1];
    }
  }

  /** The first step of a readable run succeeds with the first reference
      member, or with nothing when the entry contributes none. */
  lemma ReadableHead(fs: FileSystem, p: Parsers, inputRoot: Segments, entries: seq<BackupFile>)
    requires |entries| > 0 && AllReadable(fs, p, inputRoot, entries)
    ensures
      var f := entries[0];
      ZipStep(fs, p, inputRoot, f) ==
        if !f.isDir && InputPath(fs, inputRoot, f.fileId).Some? then
          Success(Some(Member(GetZipInfo(f, p).value, fs.files[InputPath(fs, inputRoot, f.fileId).value])))
        else Success(None)
  {
    var f := entries[0];
    if !f.isDir {
      assert GetZipInfo(f, p).Success? && GetFileData(fs, inputRoot, f).Success?;
      ZipStepContributes(fs, p, inputRoot, f);
    }
  }

  /** The members the loop's steps produce are the reference members. */
  lemma {:induction false} ProducedIsExpected(fs: FileSystem, p: Parsers, inputRoot: Segments, entries: seq<BackupFile>)
    requires AllReadable(fs, p, inputRoot, entries)
    ensures AllSucceed(ZipSteps(fs, p, inputRoot, entries))
    ensures Produced(ZipSteps(fs, p, inputRoot, entries)) == ExpectedMembers(fs, p, inputRoot, entries)
    decreases |entries|
  {
    if |entries| > 0 {
      var steps := ZipSteps(fs, p, inputRoot, entries);
      var tail := ZipSteps(fs, p, inputRoot, entries[1..]);
      assert steps[1..] == tail;
      ReadableTail(fs, p, inputRoot, entries);
      ProducedIsExpected(fs, p, inputRoot, entries[1..]);
      ReadableHead(fs, p, inputRoot, entries);
      assert AllSucceed(steps) by {
        forall i | 0 <= i < |steps|
          ensures steps[i].Success?
        {
          if i > 0 {
            assert steps[i] == tail[i - 1];
          }
        }
      }
    }
  }

  /** When every file entry decodes and reads, the run completes and the
      archive gains exactly the expected members. */
  lemma ZipMatchesReference(fs: FileSystem, p: Parsers, inputRoot: Segments, entries: seq<BackupFile>, archive: seq<Member>)
    requires AllReadable(fs, p, inputRoot, entries)
    ensures ProcessIntoZip(fs, p, inputRoot, entries, archive) ==
      Outcome(archive + ExpectedMembers(fs, p, inputRoot, entries), None)
  {
    ProducedIsExpected(fs, p, inputRoot, entries);
    ZipIsWriteAll(fs, p, inputRoot, entries, archive);
    WriteAllSucceeds(ZipSteps(fs, p, inputRoot, entries), archive);
  }

  /** Member `m` is what file entry `f` contributes: its name parses to the
      entry's translated path and it holds the bytes stored for the entry. */
  predicate FromEntry(fs: FileSystem, inputRoot: Segments, m: Member, f: BackupFile) {
    && !f.isDir
    && Parse(m.info.filename) == Rel(TranslatedPath(f))
    && InputPath(fs, inputRoot, f.fileId).Some?
    && InputPath(fs, inputRoot, f.fileId).value in fs.files
    && m.data == fs.files[InputPath(fs, inputRoot, f.fileId).value]
  }

  /** Every expected member comes from a file entry whose bytes were found. */
  lemma MembersFromEntries(fs: FileSystem, p: Parsers, inputRoot: Segments, entries: seq<BackupFile>)
    requires AllReadable(fs, p, inputRoot, entries)
    ensures forall m :: m in ExpectedMembers(fs, p, inputRoot, entries) ==>
      exists i :: 0 <= i < |entries| && FromEntry(fs, inputRoot, m, entries[i])
  {
    var steps := ZipSteps(fs, p, inputRoot, entries);
    ProducedIsExpected(fs, p, inputRoot, entries);
    forall m | m in ExpectedMembers(fs, p, inputRoot, entries)
      ensures exists i :: 0 <= i < |entries| && FromEntry(fs, inputRoot, m, entries[i])
    {
      var i :| 0 <= i < |steps| && steps[i] == Success(Some(m));
      assert FromEntry(fs, inputRoot, m, entries[i]);
    }
  }

  /** Every file entry with located bytes gives a member, and directory
      entries and entries without bytes give none. */
  lemma ZipStepContributes(fs: FileSystem, p: Parsers, inputRoot: Segments, f: BackupFile)
    requires !f.isDir && GetZipInfo(f, p).Success?
    ensures InputPath(fs, inputRoot, f.fileId).None? ==> ZipStep(fs, p, inputRoot, f) == Success(None)
    ensures InputPath(fs, inputRoot, f.fileId).Some? && InputPath(fs, inputRoot, f.fileId).value in fs.files ==>
      ZipStep(fs, p, inputRoot, f) ==
        Success(Some(Member(GetZipInfo(f, p).value, fs.files[InputPath(fs, inputRoot, f.fileId).value])))
  {
  }

  /** The first file entry whose metadata cannot be decoded ends the run with
      that error, whether or not its bytes exist; the archive then holds the
      expected members of the entries before it. */
  lemma ZipAbortsOnUndecodable(fs: FileSystem, p: Parsers, inputRoot: Segments, entries: seq<BackupFile>, archive: seq<Member>, k: nat)
    requires k < |entries| && !entries[k].isDir && GetZipInfo(entries[k], p).Failure?
    requires AllReadable(fs, p, inputRoot, entries[..k])
    ensures ProcessIntoZip(fs, p, inputRoot, entries, archive) ==
      Outcome(archive + ExpectedMembers(fs, p, inputRoot, entries[..k]), Some(Decode(GetZipInfo(entries[k], p).error)))
  {
    var steps := ZipSteps(fs, p, inputRoot, entries);
    assert steps[..k] == ZipSteps(fs, p, inputRoot, entries[..k]);
    ProducedIsExpected(fs, p, inputRoot, entries[..k]);
    ZipIsWriteAll(fs, p, inputRoot, entries, archive);
    WriteAllStops(steps, archive, k);
  }
}
