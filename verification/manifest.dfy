/** The manifest database and the per-entry work of a restore: turning
    manifest rows into the entry index, locating an entry's stored bytes
    under the backup directory, the place it is restored to, and the three
    per-entry operations (create a directory, copy a file, read a file's
    bytes for the archive). */
module Manifest {
  import opened Wrappers
  import opened Octets
  import opened PurePaths
  import opened BackupFiles
  import opened FileSystems

  /** The `flags` value that marks a directory entry. */
  const DirectoryFlag := 2

  /** One row of `select fileID, domain, relativePath, file, flags from Files`. */
  datatype Row = Row(fileId: string, domain: string, relativePath: string, file: Bytes, flags: int)

  /** What running the query gives: an error when the file is no readable
      SQLite database (for instance an encrypted one), otherwise all rows. */
  datatype Query = QueryFailed | Rows(rows: seq<Row>)

  /** The `RuntimeError` raised for a manifest that cannot be queried. */
  datatype OpenError = NotADatabase

  /** The entry a row describes. */
  function EntryOf(row: Row): (f: BackupFile)
    ensures f.isDir <==> row.flags == DirectoryFlag
    ensures f.fileId == row.fileId && f.domain == row.domain
    ensures f.relativePath == row.relativePath && f.fileMeta == row.file
  {
    BackupFile(row.fileId, row.domain, row.relativePath, row.file, row.flags == DirectoryFlag)
  }

  /** The entry index: a dictionary keyed by file id, kept as its entries in
      the dictionary's iteration order. */
  type Index = seq<BackupFile>

  function Ids(index: Index): (ids: seq<string>)
    ensures |ids| == |index|
    ensures forall i :: 0 <= i < |index| ==> ids[i] == index[i].fileId
  {
    seq(|index|, i requires 0 <= i < |index| => index[i].fileId)
  }

  predicate UniqueIds(index: Index) {
    forall i, j :: 0 <= i < j < |index| ==> index[i].fileId != index[j].fileId
  }

  /** Dictionary lookup by file id. */
  function Get(index: Index, id: string): (r: Option<BackupFile>)
    ensures r.Some? <==> id in Ids(index)
    ensures r.Some? ==> r.value in index && r.value.fileId == id
    decreases |index|
  {
    if |index| == 0 then None
    else if index[0].fileId == id then Some(index[0])
    else
      IdsCons(index[0], index[1..]);
      assert [index[0]] + index[1..] == index;
      Get(index[1..], id)
  }

  /** `file_list[f.file_id] = f`: a new id is appended at the end of the
      iteration order; an id already present keeps its place and gets the
      new entry. */
  function Put(index: Index, f: BackupFile): (r: Index)
    ensures Ids(r) == if f.fileId in Ids(index) then Ids(index) else Ids(index) + [f.fileId]
    decreases |index|
  {
    if |index| == 0 then [f]
    else if index[0].fileId == f.fileId then
      IdsCons(f, index[1..]);
      IdsCons(index[0], index[1..]);
      [f] + index[1..]
    else
      var rest := Put(index[1..], f);
      IdsCons(index[0], index[1..]);
      IdsCons(index[0], rest);
      [index[0]] + rest
  }

  lemma IdsCons(g: BackupFile, index: Index)
    ensures Ids([g] + index) == [g.fileId] + Ids(index)
  {
  }

  /** After `Put`, looking up the new entry's id finds it, and every other
      id finds what it found before. */
  lemma {:induction false} PutGet(index: Index, f: BackupFile, id: string)
    ensures Get(Put(index, f), id) == if id == f.fileId then Some(f) else Get(index, id)
    decreases |index|
  {
    if |index| > 0 && index[0].fileId != f.fileId {
      PutGet(index[1..], f, id);
    }
  }

  /** `Put` keeps the ids of an index distinct. */
  lemma PutUnique(index: Index, f: BackupFile)
    requires UniqueIds(index)
    ensures UniqueIds(Put(index, f))
  {
    var r := Put(index, f);
    forall i, j | 0 <= i < j < |r|
      ensures r[i].fileId != r[j].fileId
    {
      assert r[i].fileId == Ids(r)[i] && r[j].fileId == Ids(r)[j];
      if f.fileId !in Ids(index) && j == |index| {
        assert Ids(r)[i] == Ids(index)[i];
      } else {
        assert Ids(index)[i] == index[i].fileId && Ids(index)[j] == index[j].fileId;
      }
    }
  }

  /** The row ids in order of first appearance: the reference for the index's
      iteration order. */
  function FirstOccurrences(ids: seq<string>): seq<string>
    decreases |ids|
  {
    if |ids| == 0 then []
    else
      var init := ids[..|ids| - 1];
      var last := ids[|ids| - 1];
      FirstOccurrences(init) + (if last in init then [] else [last])
  }

  /** The entries of the rows, one per row, in row order. */
  function Entries(rows: seq<Row>): (r: seq<BackupFile>)
    ensures |r| == |rows|
    ensures forall i :: 0 <= i < |rows| ==> r[i] == EntryOf(rows[i])
  {
    seq(|rows|, i requires 0 <= i < |rows| => EntryOf(rows[i]))
  }

  /** The file ids of the rows, in row order. */
  function RowIds(rows: seq<Row>): (ids: seq<string>)
    ensures |ids| == |rows|
    ensures forall i :: 0 <= i < |rows| ==> ids[i] == rows[i].fileId
  {
    Ids(Entries(rows))
  }

  /** The loop of `__init__`: every row, in order, put into an initially
      empty index. */
  function BuildIndex(rows: seq<Row>): (r: Index)
    ensures UniqueIds(r)
    ensures |r| <= |rows|
    decreases |rows|
  {
    if |rows| == 0 then []
    else
      var before := BuildIndex(rows[..|rows| - 1]);
      PutUnique(before, EntryOf(rows[|rows| - 1]));
      Put(before, EntryOf(rows[|rows| - 1]))
  }

  /** `__init__`: a failing query raises before anything is indexed;
      otherwise the index holds the rows. */
  function Open(q: Query): (r: Result<Index, OpenError>)
    ensures r.Failure? <==> q.QueryFailed?
    ensures r.Success? ==> UniqueIds(r.value)
  {
    match q
    case QueryFailed => Failure(NotADatabase)
    case Rows(rows) => Success(BuildIndex(rows))
  }

  /** When ids repeat, the last row with the id is the one indexed. */
  lemma {:induction false} LastRowWins(rows: seq<Row>, i: nat)
    requires i < |rows|
    requires forall j :: i < j < |rows| ==> rows[j].fileId != rows[i].fileId
    ensures Get(BuildIndex(rows), rows[i].fileId) == Some(EntryOf(rows[i]))
    decreases |rows|
  {
    var init := rows[..|rows| - 1];
    var last := rows[|rows| - 1];
    PutGet(BuildIndex(init), EntryOf(last), rows[i].fileId);
    if i < |rows| - 1 {
      LastRowWins(init, i);
    }
  }

  /** The index iterates in the order in which each id first appeared. */
  lemma {:induction false} IndexOrder(rows: seq<Row>)
    ensures Ids(BuildIndex(rows)) == FirstOccurrences(RowIds(rows))
    decreases |rows|
  {
    if |rows| > 0 {
      var init := rows[..|rows| - 1];
      IndexOrder(init);
      assert RowIds(rows)[..|rows| - 1] == RowIds(init);
      SameIdSet(init);
    }
  }

  /** The ids in the index are the ids of the rows. */
  lemma {:induction false} SameIdSet(rows: seq<Row>)
    ensures forall id :: id in Ids(BuildIndex(rows)) <==> id in RowIds(rows)
    decreases |rows|
  {
    if |rows| > 0 {
      var init := rows[..|rows| - 1];
      var f := EntryOf(rows[|rows| - 1]);
      var before := BuildIndex(init);
      SameIdSet(init);
      var ids := RowIds(rows);
      assert ids == RowIds(init) + [f.fileId] by {
        assert ids[..|rows| - 1] == RowIds(init);
        assert ids == ids[..|rows| - 1] + [ids[|rows| - 1]];
      }
      assert BuildIndex(rows) == Put(before, f);
      forall id
        ensures id in Ids(BuildIndex(rows)) <==> id in ids
      {
        assert id in ids <==> id in RowIds(init) || id == f.fileId;
      }
    }
  }

  /** Opening a manifest whose query runs yields an index with an entry for
      exactly the ids of its rows. */
  lemma OpenRows(rows: seq<Row>, id: string)
    ensures Open(Rows(rows)).Success?
    ensures Get(Open(Rows(rows)).value, id).Some? <==> exists i :: 0 <= i < |rows| && rows[i].fileId == id
  {
    SameIdSet(rows);
    assert id in RowIds(rows) <==> exists i :: 0 <= i < |rows| && rows[i].fileId == id;
  }

  /** `root / name` as the file system reads it: absolute, with `.` and `..`
      resolved. A rooted `name` replaces the root. */
  function Locate(root: Segments, name: string): (r: Segments)
    ensures AllClean(r)
  {
    Normalize(Join(PurePath(true, root), Parse(name)).segs)
  }

  /** `file_id[:2]`: the shard directory name. */
  function Shard(fileId: string): (r: string)
    ensures |r| == if |fileId| < 2 then |fileId| else 2
    ensures r <= fileId
  {
    fileId[..if |fileId| < 2 then |fileId| else 2]
  }

  /** `input_root / file_id`: the flat layout. An id that is one plain name
      is a single segment below a normalised root. */
  function FlatPath(inputRoot: Segments, fileId: string): (r: Segments)
    ensures AllClean(r)
    ensures AllClean(inputRoot) && IsName(fileId) ==> r == inputRoot + [fileId]
  {
    if AllClean(inputRoot) && IsName(fileId) then
      ParseName(fileId);
      CleanConcat(inputRoot, [fileId], []);
      assert inputRoot + [fileId] + [] == inputRoot + [fileId];
      Locate(inputRoot, fileId)
    else
      Locate(inputRoot, fileId)
  }

  /** `input_root / file_id[:2] / file_id`: the sharded layout. */
  function ShardPath(inputRoot: Segments, fileId: string): (r: Segments)
    ensures AllClean(r)
  {
    Normalize(Join(Join(PurePath(true, inputRoot), Parse(Shard(fileId))), Parse(fileId)).segs)
  }

  /** `__get_input_path`: the flat location when something exists there,
      otherwise the sharded one when something exists there, otherwise
      nothing. */
  function InputPath(fs: FileSystem, inputRoot: Segments, fileId: string): (r: Option<Segments>)
    ensures r.Some? ==> Exists(fs, r.value)
    ensures r.None? <==> !Exists(fs, FlatPath(inputRoot, fileId)) && !Exists(fs, ShardPath(inputRoot, fileId))
    ensures Exists(fs, FlatPath(inputRoot, fileId)) ==> r == Some(FlatPath(inputRoot, fileId))
    ensures r.Some? && r.value != FlatPath(inputRoot, fileId) ==> r.value == ShardPath(inputRoot, fileId)
  {
    var flat := FlatPath(inputRoot, fileId);
    if Exists(fs, flat) then Some(flat)
    else
      var sharded := ShardPath(inputRoot, fileId);
      if Exists(fs, sharded) then Some(sharded) else None
  }

  /** The file ids iOS writes: 40 lower-case hexadecimal digits. */
  predicate IsHexId(fileId: string) {
    |fileId| == 40 && forall i :: 0 <= i < |fileId| ==> fileId[i] in "0123456789abcdef"
  }

  lemma HexNames(fileId: string)
    requires IsHexId(fileId)
    ensures IsName(fileId) && IsName(Shard(fileId))
  {
    assert '.' !in fileId && '/' !in fileId;
    assert Shard(fileId) == fileId[..2];
    assert '.' !in Shard(fileId) by {
      assert forall i :: 0 <= i < 2 ==> Shard(fileId)[i] == fileId[i];
    }
    assert '/' !in Shard(fileId) by {
      assert forall i :: 0 <= i < 2 ==> Shard(fileId)[i] == fileId[i];
    }
  }

  /** For an iOS file id under a normalised backup directory the two
      candidate locations are `root/id` and `root/id[:2]/id`. */
  lemma HexLayout(inputRoot: Segments, fileId: string)
    requires AllClean(inputRoot) && IsHexId(fileId)
    ensures FlatPath(inputRoot, fileId) == inputRoot + [fileId]
    ensures ShardPath(inputRoot, fileId) == inputRoot + [fileId[..2], fileId]
  {
    HexNames(fileId);
    ParseName(fileId);
    ParseName(Shard(fileId));
    CleanConcat(inputRoot, [fileId], []);
    assert inputRoot + [fileId] + [] == inputRoot + [fileId];
    CleanConcat(inputRoot, [Shard(fileId)], [fileId]);
    assert inputRoot + [Shard(fileId)] + [fileId] == inputRoot + [fileId[..2], fileId];
  }

  /** Where an entry is restored to: the translated path below the output
      directory. This is the intended placement; the program as written
      computes `OutputPathAsWritten`. */
  function OutputPath(outputRoot: Segments, f: BackupFile): (r: Segments)
    ensures |r| == |outputRoot| + |TranslatedPath(f)|
    ensures r[..|outputRoot|] == outputRoot
    ensures AllNames(r[|outputRoot|..])
  {
    var r := outputRoot + TranslatedPath(f);
    assert r[|outputRoot|..] == TranslatedPath(f);
    r
  }

  /** `output_root / backup_file.translated_path()` as written: the
      translated path is absolute (`resolve()` anchors it at the current
      directory `cwd`), and joining an absolute path discards the left
      operand. */
  function OutputPathAsWritten(cwd: Segments, outputRoot: Segments, f: BackupFile): (r: Segments)
    ensures r == TranslatedPathAsWritten(cwd, f)
  {
    Join(PurePath(true, outputRoot), PurePath(true, TranslatedPathAsWritten(cwd, f))).segs
  }

  /** As written, the output directory has no influence on where an entry
      goes. */
  lemma OutputRootDiscarded(cwd: Segments, outputRoot: Segments, otherRoot: Segments, f: BackupFile)
    ensures OutputPathAsWritten(cwd, outputRoot, f) == OutputPathAsWritten(cwd, otherRoot, f)
    ensures OutputPathAsWritten(cwd, outputRoot, f) == TranslatedPathAsWritten(cwd, f)
  {
  }

  /** As written, an entry whose joined path is relative and free of `..`
      lands under the current directory instead of the output directory:
      wherever the two differ, so do the paths. */
  lemma AsWrittenMisplaces(cwd: Segments, outputRoot: Segments, f: BackupFile)
    requires AllClean(cwd)
    requires !TruePath(f.domain, f.relativePath).rooted && AllClean(TruePath(f.domain, f.relativePath).segs)
    ensures OutputPathAsWritten(cwd, outputRoot, f) == cwd + TranslatedPath(f)
    ensures cwd != outputRoot ==> OutputPathAsWritten(cwd, outputRoot, f) != OutputPath(outputRoot, f)
  {
    AsWrittenUnderCwd(cwd, f);
    if cwd != outputRoot && cwd + TranslatedPath(f) == outputRoot + TranslatedPath(f) {
      assert (cwd + TranslatedPath(f))[..|cwd|] == cwd;
      assert (outputRoot + TranslatedPath(f))[..|outputRoot|] == outputRoot;
    }
  }

  /** `__create_directory`: the entry's output path and everything above it
      made a directory. */
  function CreateDirectory(fs: FileSystem, outputRoot: Segments, f: BackupFile): (r: Result<FileSystem, FsError>)
    requires Valid(fs)
    ensures r.Failure? <==> Blocked(fs, OutputPath(outputRoot, f))
    ensures r.Success? ==> Valid(r.value) && r.value.files == fs.files && IsDir(r.value, OutputPath(outputRoot, f))
    ensures r.Success? ==> fs.dirs <= r.value.dirs
  {
    var out := OutputPath(outputRoot, f);
    var r := MakeDirs(fs, out);
    if r.Success? then
      MakeDirsCreates(fs, out);
      r
    else r
  }

  /** `__create_file`: an entry whose bytes cannot be located is skipped;
      otherwise the output's parent directory is created and the bytes are
      copied there. A copy that raises leaves the directories already made
      in place; no file changes unless the copy succeeds. */
  function CreateFile(fs: FileSystem, inputRoot: Segments, outputRoot: Segments, f: BackupFile): (r: Effect)
    requires Valid(fs)
    ensures InputPath(fs, inputRoot, f.fileId).None? ==> r == Effect(fs, None)
    ensures Valid(r.fs) && fs.dirs <= r.fs.dirs && fs.files.Keys <= r.fs.files.Keys
    ensures r.error.Some? ==> r.fs.files == fs.files
  {
    match InputPath(fs, inputRoot, f.fileId)
    case None => Effect(fs, None)
    case Some(src) =>
      var out := OutputPath(outputRoot, f);
      match MakeDirs(fs, Parent(out))
      case Failure(e) => Effect(fs, Some(e))
      case Success(withParent) =>
        match CopyFile(withParent, src, out)
        case Failure(e) => Effect(withParent, Some(e))
        case Success(copied) => Effect(copied, None)
  }

  /** Once the parent directories can be made, they are there afterwards,
      whether or not the copy then raises. */
  lemma CreateFileKeepsParent(fs: FileSystem, inputRoot: Segments, outputRoot: Segments, f: BackupFile)
    requires Valid(fs) && InputPath(fs, inputRoot, f.fileId).Some?
    requires MakeDirs(fs, Parent(OutputPath(outputRoot, f))).Success?
    ensures IsDir(CreateFile(fs, inputRoot, outputRoot, f).fs, Parent(OutputPath(outputRoot, f)))
  {
    var out := OutputPath(outputRoot, f);
    var up := Parent(out);
    var withParent := MakeDirs(fs, up).value;
    MakeDirsCreates(fs, up);
    var r := CreateFile(fs, inputRoot, outputRoot, f);
    assert r.fs.dirs == withParent.dirs by {
      match CopyFile(withParent, InputPath(fs, inputRoot, f.fileId).value, out)
      case Failure(_) =>
      case Success(_) =>
    }
  }

  /** A path apart from the output root is out of reach of `__create_file`,
      whether it copies, skips or raises. */
  lemma CreateFileFrame(fs: FileSystem, inputRoot: Segments, outputRoot: Segments, f: BackupFile, p: Segments)
    requires Valid(fs) && Apart(p, outputRoot)
    ensures Untouched(fs, CreateFile(fs, inputRoot, outputRoot, f).fs, p)
  {
    var out := OutputPath(outputRoot, f);
    assert outputRoot <= out;
    ChainApart(outputRoot, out, p);
    var r := CreateFile(fs, inputRoot, outputRoot, f);
    match InputPath(fs, inputRoot, f.fileId)
    case None =>
      assert r.fs == fs;
    case Some(src) =>
      match MakeDirs(fs, Parent(out))
      case Failure(_) =>
        assert r.fs == fs;
      case Success(withParent) =>
        MakeDirsFrame(fs, Parent(out), p);
        match CopyFile(withParent, src, out)
        case Failure(_) =>
          assert r.fs == withParent;
        case Success(copied) =>
          CopyFrame(withParent, src, out, p);
          assert r.fs == copied;
  }

  /** Where a file's bytes are found depends only on its two candidate
      paths. */
  lemma InputPathFrame(fs: FileSystem, other: FileSystem, inputRoot: Segments, fileId: string)
    requires Untouched(fs, other, FlatPath(inputRoot, fileId)) && Untouched(fs, other, ShardPath(inputRoot, fileId))
    ensures InputPath(other, inputRoot, fileId) == InputPath(fs, inputRoot, fileId)
  {
  }

  /** A file entry whose output already holds its source's bytes is copied
      again without any change and without error. */
  lemma CreateFileSettled(fs: FileSystem, inputRoot: Segments, outputRoot: Segments, f: BackupFile, src: Segments)
    requires Valid(fs) && InputPath(fs, inputRoot, f.fileId) == Some(src)
    requires src != OutputPath(outputRoot, f) && src in fs.files
    requires OutputPath(outputRoot, f) in fs.files && fs.files[OutputPath(outputRoot, f)] == fs.files[src]
    ensures CreateFile(fs, inputRoot, outputRoot, f) == Effect(fs, None)
  {
    var out := OutputPath(outputRoot, f);
    assert IsDir(fs, Parent(out));
    assert MakeDirs(fs, Parent(out)) == Success(fs);
    CopySettled(fs, src, out);
  }

  /** A located file ends up at its output path with its bytes unchanged,
      and every other file keeps its contents. */
  lemma CreateFileCopies(fs: FileSystem, inputRoot: Segments, outputRoot: Segments, f: BackupFile)
    requires Valid(fs)
    requires InputPath(fs, inputRoot, f.fileId).Some? && CreateFile(fs, inputRoot, outputRoot, f).error.None?
    ensures
      var src := InputPath(fs, inputRoot, f.fileId).value;
      var out := OutputPath(outputRoot, f);
      var after := CreateFile(fs, inputRoot, outputRoot, f).fs;
      && src in fs.files
      && ReadFile(after, out) == ReadFile(fs, src)
      && (forall q :: q != out ==> (q in after.files <==> q in fs.files))
      && (forall q :: q != out && q in fs.files ==> ReadFile(after, q) == ReadFile(fs, q))
  {
    var src := InputPath(fs, inputRoot, f.fileId).value;
    var out := OutputPath(outputRoot, f);
    var withParent := MakeDirs(fs, Parent(out)).value;
    CopyContents(withParent, src, out);
  }

  /** `__get_file_data`: nothing when the bytes cannot be located, otherwise
      the whole file, which fails if what was located is a directory. */
  function GetFileData(fs: FileSystem, inputRoot: Segments, f: BackupFile): (r: Result<Option<Bytes>, FsError>)
    ensures InputPath(fs, inputRoot, f.fileId).None? <==> r == Success(None)
    ensures r.Success? && r.value.Some? ==>
      && InputPath(fs, inputRoot, f.fileId).value in fs.files
      && r.value.value == fs.files[InputPath(fs, inputRoot, f.fileId).value]
    ensures r.Failure? <==>
      InputPath(fs, inputRoot, f.fileId).Some? && InputPath(fs, inputRoot, f.fileId).value !in fs.files
  {
    match InputPath(fs, inputRoot, f.fileId)
    case None => Success(None)
    case Some(src) =>
      var data :- ReadFile(fs, src);
      Success(Some(data))
  }
}
