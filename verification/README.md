# iOS-UNF restore engine in Dafny

iOS-UNF rebuilds the file tree of an unencrypted iOS backup. A backup directory holds a
`Manifest.db` SQLite database and one blob per backed-up file. Each blob is named by its
40-hex-digit file id, and is stored either flat or in a two-character shard directory. Each
manifest row gives the file's id, its domain (such as `HomeDomain` or
`AppDomain-com.example.app`), its path relative to the domain, a property-list metadata blob
and a flags column.

This project models the engine that turns those rows into a restore:

- **Domain table** (`Domains`). The fixed map from a domain family to its device directory
  under `private/var`.
- **Backup entry** (`BackupFiles`). The entry record and `translated_path`: the domain is
  split on its first `-` into family and package. The family is looked up in the table, with
  the literal family name as the fallback. Then the package and the relative path are
  appended, and the result is normalised. This module also builds the zip member descriptor.
- **Metadata** (`Metadata`). The two accessors of the metadata blob. A blob starting with
  `bp` is a keyed archive with the fields in `$objects[1]`; any other blob is a plain
  property list.
- **Manifest** (`Manifest`). Rows become an index keyed by file id, in dictionary insertion
  order, where `flags == 2` marks a directory. An entry's stored bytes are located at
  `input_root/id` first and at `input_root/id[:2]/id` second. The module also has the
  per-entry operations: create a directory, copy a file, read a file's bytes.
- **Restore** (`Restore`). The two restore modes, each a fold over the index:
  - tree mode (`process_file_list`) works on an abstract file system;
  - archive mode (`process_into_zip`) works on a sequence of archive members.

The supporting modules are:

- `Wrappers`: `Option` and `Result`.
- `Octets`: bytes.
- `Strings`: `str.split` and `str.join`.
- `PurePaths`: the `pathlib` operations, read lexically.
- `FileSystems`: a map of regular files plus a set of directories, with `mkdir(parents=True,
  exist_ok=True)`, `shutil.copyfile` and whole-file reads.

Paths are segment lists. `..` is resolved lexically and dropped at the root.

The input and output roots are absolute, normalised segment lists, because the command line
resolves them before the engine sees them. `ios_unf/cli/args.py` is not part of this model.

Foreign collaborators enter as parameters:
- the two property-list parsers;
- `datetime.fromtimestamp`;
- the rows the SQL query returns;
- the current directory.

The translated path is modelled as the relative, normalised path below the restore root. The
program itself makes it absolute through `resolve()`, which places tree-mode output under the
current directory (see Findings).

## Model

| member | source | states |
|---|---|---|
| `Strings.SplitFirst` | ios_unf/fs/backup_file.py:24-28 | `split("-", 1)` fails (the `ValueError` path) exactly when there is no separator. Otherwise the head, the separator and the tail rebuild the input, and the head holds no separator. |
| `Strings.SplitFirstAt` | ios_unf/fs/backup_file.py:25 | The split happens at the first separator: a separator-free head is cut off exactly, and the tail keeps any later separators. |
| `PurePaths.Parse` | ios_unf/fs/backup_file.py:34 | Building a `Path` from a string roots it exactly when the string starts with `/`. No segment is empty, `.`, or contains `/`. |
| `PurePaths.ParseJoin` | ios_unf/fs/backup_file.py:36 | A `/`-joined list of pieces parses back to exactly those pieces as a relative path, `..` pieces included. |
| `PurePaths.ParseRender` | ios_unf/fs/backup_file.py:75 | `str()` of a relative path of plain names parses back to the same path: the member name identifies the translated path. |
| `PurePaths.Normalize` | ios_unf/fs/backup_file.py:39 | Lexical normalisation yields only clean segments, never more than it was given, and each of them is one of the input's segments. |
| `PurePaths.Resolve` | ios_unf/fs/backup_file.py:39 | `resolve()` yields an absolute path made only of clean segments. |
| `PurePaths.NormalizeClean` | ios_unf/fs/backup_file.py:39 | A path that is already clean is left unchanged by normalisation. |
| `PurePaths.NormalizeIdempotent` | ios_unf/fs/backup_file.py:39 | Normalising twice is the same as normalising once. |
| `PurePaths.NormalizePrefix` | ios_unf/fs/backup_file.py:36-39 | Normalising a joined path may normalise its left part first. |
| `PurePaths.NormalizeCleanSuffix` | ios_unf/fs/backup_file.py:36-39 | Clean segments appended to a path come out unchanged after the normalised prefix. |
| `Domains.Lookup` | ios_unf/const/domains.py:4-26 | Every table directory is built on `BACKUP_ROOT`: at least three segments, the first two `private`, `var`. |
| `Domains.InTable` | ios_unf/const/domains.py:5-27 | The dictionary has a key exactly where the table lookup succeeds, and holds the directory the lookup returns. |
| `Domains.FamiliesKnown` | ios_unf/const/domains.py:5-27 | The listed families are exactly the names the table knows. |
| `Domains.KnownWithoutDash` | ios_unf/const/domains.py:5-27 | No known family contains `-`. |
| `Domains.FamiliesDistinct` | ios_unf/const/domains.py:5-27 | The table lists 21 families, pairwise distinct. |
| `Domains.DirectoryNames` | ios_unf/const/domains.py:6-26 | Every segment of every table directory is a plain name: never empty, `.`, `..`, and never containing `/`. |
| `Domains.TableShape` | ios_unf/const/domains.py:4-27 | For every key, the directory starts with `private/var`, has at least three segments and consists of plain names. |
| `Domains.TableKeys` | ios_unf/const/domains.py:5-27 | The dictionary has exactly 21 keys, and no key contains `-`. |
| `Domains.KnownDirectories` | ios_unf/const/domains.py:11-26 | `AppDomain`, `HealthDomain` and `KeychainDomain` have their exact directories. `HomeDomain`, `CameraRollDomain`, `KeyboardDomain`, `TonesDomain`, `HomeKitDomain` and `MediaDomain` all map to `private/var/mobile`. |
| `BackupFiles.AppDomainDir` | ios_unf/const/domains.py:6 | `AppDomain` is a key of the dictionary, mapped to `private/var/mobile/Containers/Data/Application`. |
| `BackupFiles.HomeDomainDir` | ios_unf/const/domains.py:17 | `HomeDomain` has no `-`, and its directory is `private/var/mobile`. |
| `BackupFiles.SplitDomain` | ios_unf/fs/backup_file.py:24-28 | With a `-`, family, `-` and package rebuild the domain, and the family has no `-`. Without one, the family is the whole domain and the package is empty. |
| `BackupFiles.SplitAfterFamily` | ios_unf/fs/backup_file.py:25 | The split never cuts a dash-free family apart. The package is everything after its `-`, dashes included. |
| `BackupFiles.SplitKnownFamily` | ios_unf/fs/backup_file.py:24-28 | Every table family survives the split intact, with or without a package. |
| `BackupFiles.DomainDir` | ios_unf/fs/backup_file.py:30-34 | The family directory (the table entry or the literal name) has no segment containing `/`. |
| `BackupFiles.DomainDirKnown` | ios_unf/fs/backup_file.py:31-32 | A known family's directory is its table entry, made of clean segments. |
| `BackupFiles.DomainDirLiteral` | ios_unf/fs/backup_file.py:33-34 | An unknown family given as a plain name is its own one-segment directory. |
| `BackupFiles.TruePath` | ios_unf/fs/backup_file.py:30-36 | `domain_subdir / relative_path`: an absolute relative path is the whole joined path. Otherwise the joined path ends with the relative path's segments. No segment contains `/`. |
| `BackupFiles.TranslatePath` | ios_unf/fs/backup_file.py:21-39 | The translated path is normalised: every segment is a plain name, with no `.`, `..` or empty segment. |
| `BackupFiles.TranslatedPathAsWritten` | ios_unf/fs/backup_file.py:39 | The program's `resolve()` result is made of clean segments. It depends on the current directory only when the joined path is relative; an absolute joined path gives exactly the relative model's segments. |
| `BackupFiles.TranslateStructure` | ios_unf/fs/backup_file.py:30-39 | When neither the package nor the relative path is absolute, translation is the normalisation of family directory, package and relative path, in that order. |
| `BackupFiles.TranslateKnownFamily` | ios_unf/fs/backup_file.py:31-39 | Known family with a package: the result is the table directory, then the package, then the relative path, unchanged. |
| `BackupFiles.TranslateNoPackage` | ios_unf/fs/backup_file.py:26-28 | A dash-free domain gets the empty package, which adds no segment. |
| `BackupFiles.TranslateKnownNoPackage` | ios_unf/fs/backup_file.py:26-32 | Known family without a package: the result is the table directory, then the relative path. |
| `BackupFiles.TranslateUnknownFamily` | ios_unf/fs/backup_file.py:33-36 | Unknown family: translation does not fail, and the family name becomes the leading segment, before the package and the relative path. |
| `BackupFiles.TranslateRootedRelative` | ios_unf/fs/backup_file.py:36 | An absolute relative path discards the domain entirely. |
| `BackupFiles.TranslateClimbsOut` | ios_unf/fs/backup_file.py:36-39 | The result is not confined to the family directory: `../../../etc/passwd` under `private/var/mobile` translates to `etc/passwd`. |
| `BackupFiles.ExampleHomeDomain` | ios_unf/fs/backup_file.py:31-39 | `Library/foo.db` under a `private/var/mobile` family translates to `private/var/mobile/Library/foo.db`. |
| `BackupFiles.TranslationIgnoresOtherFields` | ios_unf/fs/backup_file.py:21-39 | Only the domain and the relative path matter. Entries that agree on those two translate alike, both relatively and as the program computes it. |
| `BackupFiles.AsWrittenUnderCwd` | ios_unf/fs/backup_file.py:39 | For a relative joined path free of `..`, the program's `resolve()` result is the relative translation placed under the current directory. |
| `BackupFiles.GetZipInfo` | ios_unf/fs/backup_file.py:69-79 | The descriptor is built exactly when both accessors succeed, and a time failure is the one reported. The name parses to the translated path, the date is the first six time fields, and the size is the stored size. |
| `Metadata.IsLegacy` | ios_unf/fs/backup_file.py:47 | The dispatch test holds exactly for blobs of at least two bytes starting with `b`, `p`. |
| `Metadata.GetModTime` | ios_unf/fs/backup_file.py:41-54 | If the parser that the first two bytes select fails, the accessor fails. `DecodeLegacy` and `DecodeModern` state the value for a keyed archive holding a record at `$objects[1]` and for a top-level dictionary. `SuccessNeedsShape` shows that every other parsed shape fails. |
| `Metadata.GetSize` | ios_unf/fs/backup_file.py:56-67 | If the parser that the first two bytes select fails, the accessor fails. `DecodeLegacy` and `DecodeModern` state the value for a keyed archive holding a record at `$objects[1]` and for a top-level dictionary. `SuccessNeedsShape` shows that every other parsed shape fails. |
| `Metadata.SuccessNeedsShape` | ios_unf/fs/backup_file.py:41-67 | Either accessor succeeds only on a shape the decoders cover. For a keyed archive, the parse holds a record at `$objects[1]`. Otherwise the standard parser returns a dictionary. |
| `Metadata.LegacyIgnoresModernParser` | ios_unf/fs/backup_file.py:47-64 | For a `bp` blob, both accessors depend only on the keyed-archive parser and the timestamp conversion. |
| `Metadata.ModernIgnoresLegacyParser` | ios_unf/fs/backup_file.py:53-67 | For any other blob, both accessors depend only on the standard parser. |
| `Metadata.DecodeLegacy` | ios_unf/fs/backup_file.py:47-64 | For any parsed archive whose `$objects` list has a dictionary at position 1, whatever else it holds: the size is its `Size`, and the time is its `LastModified` number (integer or real) converted. A missing key raises, a non-number raises, and a timestamp the conversion rejects raises. |
| `Metadata.DecodeModern` | ios_unf/fs/backup_file.py:53-67 | For any parsed top-level dictionary: the size is its `size`, and the time is its `modified` date. A missing key raises, and a `modified` that is no date raises. |
| `Metadata.EncodingsAgree` | ios_unf/fs/backup_file.py:41-67 | The two encodings are read by the same rule: the same stored size decodes to the same size. The times decode alike exactly when the timestamp conversion turns the archive's number into the list's date. |
| `FileSystems.ExistsInDir` | ios_unf/fs/manifest.py:148 | `Path.exists()` holds for a file or a directory, and in a valid file system whatever exists sits in a directory. |
| `FileSystems.MakeDirs` | ios_unf/fs/manifest.py:111 | `mkdir(parents=True, exist_ok=True)` fails exactly when a file lies on the way: `FileExistsError` for a file at the path itself, `NotADirectoryError` otherwise. On success it adds exactly the path and its ancestors as directories and keeps the file system valid. |
| `FileSystems.MakeDirsIdempotent` | ios_unf/fs/manifest.py:111 | Making the same directories twice changes nothing the second time. |
| `FileSystems.ReadFile` | ios_unf/fs/manifest.py:194-195 | A read succeeds exactly on a regular file and returns all of its bytes. |
| `FileSystems.CopyFile` | ios_unf/fs/manifest.py:133 | A copy succeeds exactly when the source is a different regular file, the destination is no directory, and the destination's parent is one. It leaves the directories alone and removes no file. |
| `FileSystems.CopySettled` | ios_unf/fs/manifest.py:133 | Copying a file onto a different file that already holds the same bytes succeeds and changes nothing. |
| `FileSystems.CopyContents` | ios_unf/fs/manifest.py:133 | After a copy, the destination reads as the source did. No other file appears or disappears, and every other file keeps its bytes. |
| `Manifest.EntryOf` | ios_unf/fs/manifest.py:42-48 | An entry is a directory exactly when its flags column is 2, and it carries the row's other columns unchanged. |
| `Manifest.Put` | ios_unf/fs/manifest.py:49 | Dictionary assignment: a new id goes last in iteration order, and an existing id keeps its place. |
| `Manifest.PutGet` | ios_unf/fs/manifest.py:49 | After assignment, the id finds the new entry and every other id finds what it found before. |
| `Manifest.PutUnique` | ios_unf/fs/manifest.py:49 | Assignment keeps every id in the index unique. |
| `Manifest.BuildIndex` | ios_unf/fs/manifest.py:39-49 | The index holds each id once, and has no more entries than there are rows. |
| `Manifest.Open` | ios_unf/fs/manifest.py:33-49 | A failing query is an error, and then nothing is indexed. Otherwise the index has unique ids. |
| `Manifest.OpenRows` | ios_unf/fs/manifest.py:33-49 | When the query runs, the index has an entry for an id exactly when some row has that id. |
| `Manifest.LastRowWins` | ios_unf/fs/manifest.py:39-49 | When rows share an id, the entry of the last such row is the one indexed. |
| `Manifest.IndexOrder` | ios_unf/fs/manifest.py:39-49 | The index iterates ids in the order each first appears among the rows. |
| `Manifest.SameIdSet` | ios_unf/fs/manifest.py:39-49 | The ids of the index are exactly the ids of the rows. |
| `Manifest.Shard` | ios_unf/fs/manifest.py:152 | `file_id[:2]` is a prefix of the id, of length two, or the whole id when it is shorter. |
| `Manifest.FlatPath` | ios_unf/fs/manifest.py:147 | `input_root / file_id` is a normalised absolute path. For an id that is one plain name below a normalised root, it is exactly the root followed by the id. |
| `Manifest.ShardPath` | ios_unf/fs/manifest.py:153 | The sharded location is a normalised absolute path. |
| `Manifest.InputPath` | ios_unf/fs/manifest.py:135-158 | The flat location wins whenever something exists there. Otherwise the sharded location is used, if something exists there. The result is none exactly when neither exists. |
| `Manifest.HexLayout` | ios_unf/fs/manifest.py:146-155 | For an iOS file id, the two candidates are exactly `root/id` and `root/id[:2]/id`. |
| `Manifest.OutputPath` | ios_unf/fs/manifest.py:161-172 | The output path is the output root followed by the translated path: it stays below the root and adds only plain names. |
| `Manifest.OutputPathAsWritten` | ios_unf/fs/manifest.py:172 | `output_root / translated_path()` as written is the absolute `resolve()` result itself: the output root plays no part. |
| `Manifest.OutputRootDiscarded` | ios_unf/fs/manifest.py:172 | As written, the output root has no influence: the output path is the absolute `resolve()` result, whatever the root. |
| `Manifest.AsWrittenMisplaces` | ios_unf/fs/manifest.py:172 | As written, an ordinary entry lands under the current directory. Whenever that differs from the output root, the entry misses the intended path. |
| `Manifest.CreateDirectory` | ios_unf/fs/manifest.py:101-111 | It fails exactly when a file blocks the output path. On success the output path is a directory, no file changes and no directory disappears. |
| `Manifest.CreateFile` | ios_unf/fs/manifest.py:114-133 | An entry with no located source changes nothing and is no error. Whatever happens, the file system left behind is valid and nothing is removed. When the call raises, no file has changed, but directories made before the copy stay. |
| `Manifest.CreateFileKeepsParent` | ios_unf/fs/manifest.py:130-133 | Once the parent directories of the output path can be made, they exist afterwards, whether or not `copyfile` then raises. |
| `Manifest.CreateFileFrame` | ios_unf/fs/manifest.py:123-133 | A path that is neither above nor below the output root keeps its existence, its kind and its bytes, whether or not the copy raises. |
| `Manifest.CreateFileSettled` | ios_unf/fs/manifest.py:123-133 | When the output path already holds the located source's bytes, a file entry changes nothing and raises nothing. |
| `Manifest.CreateFileCopies` | ios_unf/fs/manifest.py:123-133 | A located source is a regular file, and its bytes are at the output path afterwards. No other file appears or disappears, and every other file keeps its bytes. |
| `Manifest.GetFileData` | ios_unf/fs/manifest.py:175-197 | Nothing is returned exactly when no source is located. Otherwise the result is the whole located file, or an error exactly when what was located is not a regular file. |
| `Restore.TreeStep` | ios_unf/fs/manifest.py:69-72 | Each tree-mode step leaves a valid file system and removes nothing. A step that raises has changed no file. |
| `Restore.ProcessFileList` | ios_unf/fs/manifest.py:57-72 | Whether a run completes or stops at an error, the file system it leaves, including the failing step's partial work, is valid and nothing is removed. |
| `Restore.DirectoryIgnoresInput` | ios_unf/fs/manifest.py:69-70 | A directory entry never reads the input: its step does not depend on the input root, and on success its output path is a directory. |
| `Restore.MissingSourceSkipped` | ios_unf/fs/manifest.py:123-128 | A file entry without a located source is skipped with no error and no change. |
| `Restore.FailedCopyKeepsParent` | ios_unf/fs/manifest.py:130-133 | Take the file entry at any position k, with the entries before it raising nothing. If its source is located when its turn comes and its parent directories can be made, the run leaves them in place, even if its copy raises and ends the run. |
| `Restore.PrefixRun` | ios_unf/fs/manifest.py:67-72 | When the first k entries raise nothing, the run is their run followed by the run of the rest, whether or not the rest raises. |
| `Restore.DirectoriesRestored` | ios_unf/fs/manifest.py:67-72 | After a run without error, every directory entry's output path is a directory. |
| `Restore.RunSplit` | ios_unf/fs/manifest.py:67-72 | A run without error splits at any entry: its first part ends without error, and the rest runs on from the state that part left. |
| `Restore.FilesRestored` | ios_unf/fs/manifest.py:67-72 | After a run without error, every file entry whose source was located when its turn came has a file at its output path. |
| `Restore.FileKept` | ios_unf/fs/manifest.py:67-72 | In a run without error, a file that no file entry writes to keeps its bytes. |
| `Restore.FilesIntact` | ios_unf/fs/manifest.py:67-72 | After a run without error, a file entry whose source was located when its turn came, and whose output path no later file entry shares, holds exactly the source's bytes. |
| `Restore.StepFrame` | ios_unf/fs/manifest.py:69-72 | A path that is neither above nor below the output root keeps its existence, its kind and its bytes through one step. |
| `Restore.RunFrame` | ios_unf/fs/manifest.py:67-72 | A path that is neither above nor below the output root keeps its existence, its kind and its bytes through a whole run, even one that raises. |
| `Restore.HexLookupsApart` | ios_unf/fs/manifest.py:146-155 | For iOS file ids, with the backup directory neither above nor below the output directory, no lookup is either. |
| `Restore.StepFixed` | ios_unf/fs/manifest.py:69-72 | After a run without error, taking any one of its entries again on the result raises nothing and changes nothing. |
| `Restore.RestoreIdempotent` | ios_unf/fs/manifest.py:57-72 | Restoring the same entries a second time into the same output directory gives back exactly the first outcome: no error, and the same tree. |
| `Restore.ZipStep` | ios_unf/fs/manifest.py:89-99 | A directory entry gives no member. Undecodable metadata is an error even when the bytes are missing. An entry without bytes gives no member, and any member carries the entry's descriptor and its located bytes. |
| `Restore.ProcessIntoZip` | ios_unf/fs/manifest.py:75-99 | The run only appends to the archive, at most one member per entry. |
| `Restore.ZipIsWriteAll` | ios_unf/fs/manifest.py:86-99 | The archive loop is the entries' steps, each taken against the same unchanged file system, written in entry order and stopped by the first error. |
| `Restore.ZipStepContributes` | ios_unf/fs/manifest.py:89-99 | A decodable file entry gives no member when it has no bytes. When its bytes are located, it gives exactly one member: its descriptor and its full bytes. |
| `Restore.ProducedIsExpected` | ios_unf/fs/manifest.py:88-99 | When every file entry decodes and reads, the loop's steps all succeed. The members they produce are the reference read off the entries: in entry order, one per file entry with located bytes, holding its descriptor and the located file's bytes. |
| `Restore.ZipMatchesReference` | ios_unf/fs/manifest.py:86-99 | When every file entry decodes and reads, the run completes. The archive gains exactly the reference members: in entry order, one for each file entry whose bytes are located, and none for any other entry. |
| `Restore.MembersFromEntries` | ios_unf/fs/manifest.py:88-99 | Every member written comes from a file entry: it is named after that entry's translated path and holds its stored bytes. |
| `Restore.ZipAbortsOnUndecodable` | ios_unf/fs/manifest.py:88-92 | The first file entry with undecodable metadata ends the run with that error. The archive keeps the members of the entries before it. |

## Left out

- SQLite access (`connect`, `execute`, `fetchall`, `close`) is replaced by the query's outcome: the rows, or a failure. The exception type is reduced to one error value.
- Real file-system I/O is replaced by an abstract file system of files and directories. Symbolic links, permissions, file modes and timestamps are not modelled. `resolve()` is read lexically and does not follow links.
- The keyed-archive parser, the standard property-list parser and `datetime.fromtimestamp` are foreign code. They enter as partial functions, and the float-to-local-time conversion is not modelled.
- Logging calls are not modelled, and neither are the entry counts they print.
- The zip writer is reduced to appending a member record. Not modelled: creating the archive file `UNF_Backup.zip` in the output directory, compression, the archive's date checks, and `writestr` overwriting `file_size` with the data length.
- `GetZipInfo`: the member is named by the relative translated path, rendered with `/`. The program names it `str()` of the absolute `resolve()` result. The two differ by the current directory in front, the same discrepancy as under Findings.
- `TranslatePath`: relative by design. The program's absolute result is `BackupFiles.TranslatedPathAsWritten`, and `BackupFiles.AsWrittenUnderCwd` relates the two.
- `EncodingsAgree`: does not show that the same instant decodes alike. The keyed-archive time goes through `datetime.fromtimestamp`, which gives local calendar fields. The standard parser gives `modified` as UTC fields. The two agree only where the local zone is UTC. The conversion is a parameter, so agreement is stated only under the premise that it yields the stored date.
- `InputPath`: lookups resolve `..` in a file id lexically. The operating system resolves `..` only through directories that exist. For an id such as `zz/..` with no `zz` directory, the program finds nothing and skips the entry. The model instead locates the input root, and the step raises. Ids as iOS writes them (40 hexadecimal digits) hold no `..`, and for them `Manifest.HexLayout` shows both readings agree.
- `GetModTime`: the legacy branch rejects non-numeric timestamps as `WrongType`. Which values `fromtimestamp` itself accepts is left to the abstract conversion.
- `RestoreIdempotent`: holds when no two file entries share an output path and no lookup lies above or below the output directory. Under a shared output path, a later entry overwrites an earlier one; the model does not state what a second run then gives. `HexLookupsApart` shows the lookup condition for iOS ids when the two directories are apart.
- `ios_unf/main.py` is not part of this model: locating the manifest, choosing the mode and exiting.
- `ios_unf/cli/args.py` is not part of this model: argument parsing and `resolve(strict=True)` of the roots. The roots are taken as absolute normalised paths.
- Both roots live in one file system, so in tree mode a later entry's lookup sees what earlier entries wrote. In archive mode the archive file itself is not placed in the file system, so a lookup cannot find it.

## Findings

| source | as written | input that shows it | evidently intended | confidence | as-written member | corrected member |
|---|---|---|---|---|---|---|
| ios_unf/fs/backup_file.py:39 and ios_unf/fs/manifest.py:172 | `translated_path()` returns `true_path.resolve()`, an absolute path based on the current directory. `output_root / <absolute path>` then discards `output_root`. | Output root `/out`, current directory `/work`, entry in `HomeDomain` with relative path `Library/foo.db`. As written the file is written to `/work/private/var/mobile/Library/foo.db`. | The entry goes to `/out/private/var/mobile/Library/foo.db`: the normalised relative path below the output root. | not executed | `Manifest.AsWrittenMisplaces` | `Manifest.OutputPath` |
