# py-cloud storage engine, modelled in Dafny

py-cloud is a self-hosted file store. A catalog database of path rows (`file`, `metadata` and
`slow_task` tables) is kept in step with a directory tree on disk. Clients reach it over a REST
and WebDAV front end. This project models the engine behind that front end and proves properties
of the model:

- **Path filters** (`sql.dfy`, `like.dfy`, `paths.dfy`). `escape_path` and `sep` build the
  descendant filter `filename == str(x) OR filename LIKE escape_path(x) + sep + '%'`. The SQL `LIKE`
  operator is modelled with an explicit escape character and case rule. Paths are pathlib parts,
  and `str(p)` joins them with `/`.
- **The catalog** (`catalog.dfy`). `FileCRAD.is_empty`, `put`, `delete`, `move` and `copy` run
  over a `FileCatalog` session. The session holds a working view and the last committed tables.
  - Each loop is a method proved against a pure function of the rows.
  - The functions are then proved exact when `\` is the escape character. The
    rows they select are then exactly those at or under the path.
- **Locks and guards** (`locks.dfy`). `FileLockTransaction` enters with a check, then an insert,
  then a commit, and exits by deleting the exact row. `FileGuard` clears the paths it lists when
  the wrapped body raises. `FileMoveGuard` moves `dst` back to `src` in that case.
- **The file tree** (`storage.dfy`). A `Disk` class holds a map from paths to directory or file
  nodes. Its methods are the `os`, `shutil` and `open` calls the engine makes, each with its
  error cases.
- **The handlers of `FileService`** (`api_checks.dfy`, `api.dfy`).
  - `api_checks.dfy` holds the location checks, `list`, `download` with its `Range` parsing and
    headers, and `error_decorator`.
  - `api.dfy` holds `upload`, `delete`, `mkdir`, `move` and `copy` as methods of a `FileService`
    class over the disk, the catalog and the lock table.
  - A successful `mkdir`, `move`, `copy` or `delete` changes the tree and the catalog's
    filenames by the same path mapping. The exception is a directory moved under a missing parent:
    `shutil.move` makes that parent on disk, and the catalog does not list it.
  - A failed one leaves the committed catalog as it was. It undoes the tree steps the source's
    guards undo.
- **Smaller pieces.**
  - `stream.dfy`: the chunk arithmetic of `Stream.read`.
  - `webdav_xml.dfy`: the WebDAV `multistatus` tree builder (section 14.16 of RFC 4918).
  - `ffmpeg.dfy`: video-stream selection, `check` and the FFmpeg invocations.
  - `slow_task.dfy`: the rendition ladder of the background job and how it consumes its task rows.
  - `resolver.dfy`: the `FileResolver` path mapping.
  - `numbers.dfy`: `int()` and `str()` on decimal text.

The uuids a request draws, the clock, commit failures, the FFmpeg runs, the probe results and
the upload's chunks are parameters of the model. The model does not run them.

The shown source has several revisions side by side. The model follows the code that runs:
- `api.py` calls `FileCRAD.exists/isdir/isfile/isempty/mkdir/empty/getfile`, which this revision
  of `file_crad.py` does not define. They are read as queries over the tables (`Catalog.Exists`,
  `IsDirEntry`, `IsFileEntry`, `GetFile`, `FileCatalog.Mkdir`, `FileCatalog.Empty`).
- `FileResolver.metadata_path` and `trashbin_path` are not in `src/util/file.py`. They are the
  constants `base/.metadata` and `base/.trashbin`.
- The trash location that `get_trashbin_from_data` picks is a parameter known to lie strictly under
  the trash root.
- `api.py` calls `put(bin)` with one argument, although `file_crad.py` takes two. The model gives the
  copy its own fresh metadata id.
- `slow_task.py:28` awaits `FileResolver.get_temp`, which `file.py:21-29` defines as an ordinary
  function. As written, the call makes the temp directory and then raises `TypeError` when its
  result (a path) is awaited. No rung would run, and the task row would stay. The model reads the
  call as a plain call returning the directory (`SlowTaskJob.LoadVideo`, `DiskAfterSpec`,
  `ProcessTask`).
- `api.py:139` reads `model.image`, which this revision's `MetadataModel` (`src/models/metadata.py:26-33`)
  does not define, and `put` (`file_crad.py:49-57`) does not compute. As written, the upload raises
  `AttributeError` there, after both `put`s and before the commit. `FileGuard` then clears both
  files, and no upload commits. The model takes `image` as a probe result (`Probe.image`,
  `MetadataRow.image`), as the code evidently means.
- `FileORM` (`src/models/file.py:16-23`) has the columns `id, directory, size, filename, data,
  last_time`, and no `metadata_id` or `created_at`. `file_crad.py` uses both: `:25` joins on
  `FileORM.metadata_id`, `:60` builds a `FileORM` with `metadata_id=`, and `:83` and `:95` assign
  `created_at`. As written, `put` could not build its file row. `Catalog.FileRow(id, metadataId,
  filename, createdAt)` follows the schema `file_crad.py` uses.
- `FileResolver.get_base_url` is not defined in `src/util/file.py`. It is called at
  `src/app/webdav.py:339` and `:357`, and its behaviour is known only from
  `test/util/test_file.py:13-28`. `Resolver.BaseUrl` strips the suffix `b`, as those tests
  expect. Its `None` for a `b` that is not a suffix of `a` is a choice of the model.
- `file_crad.py:83` and `:95` call `datetime.now()` once per row. The model gives every row that a
  request moves or copies the one timestamp `Env.now`.
- `slow_task.py` reads `SlowTaskORM.type/file_id` and `FileModel.data["ffprobe"]`. The model keys
  tasks by `metadata_id`, as `api.py` writes them, and takes the stored probes as a map from
  metadata id to report.

## Model

| member | source | states |
|---|---|---|
| Paths.Parent | src/service/api.py:226 | `p.parent` is an ancestor of `p` one segment shorter |
| Paths.Rebase | src/sql/file_crad.py:82 | `dst.joinpath(f.relative_to(src))` lies under `dst` at the same depth below it as `f` below `src`; `src` itself maps to `dst` |
| Paths.RebaseBack | src/sql/file_crad.py:82 | rebasing from `dst` back to `src` returns the original path |
| Paths.RebaseValid | src/sql/file_crad.py:82 | a rebased path is a valid pathlib path when its inputs are |
| Paths.StrAncestorIff | src/sql/file_crad.py:31 | for valid paths, `str(f)` starts with `str(x) + "/"` iff `x` is a proper ancestor of `f` |
| Paths.StrInjective | src/sql/file_crad.py:30 | `str(a) == str(b)` iff `a == b`, so the equality half of the filter compares paths |
| Paths.PruneSet | src/sql/file_crad.py:68-73 | the names that remain are exactly those not at or under `p` |
| Paths.Image | src/sql/file_crad.py:86-96 | every name under `src` has its rebased copy under `dst`, and every copy comes from a name under `src` |
| Paths.MoveSet | src/sql/file_crad.py:75-84 | names outside `src` stay, names under `src` reappear rebased under `dst`, and nothing else appears |
| LikeOperator.PrefixPattern | src/sql/file_crad.py:31 | literal tokens for `x` followed by `%` match `s` iff `x` is a prefix of `s` (case-sensitive) |
| LikeOperator.AnySeqMatchesAll | src/sql/file_crad.py:31 | a lone `%` matches every string |
| Sql.EscapeOneChar | src/sql/sql.py:8 | the three chained `replace` calls on one character give that character's escape |
| Sql.EscapePathSinglePass | src/sql/sql.py:7-8 | the chained `replace` calls equal one left-to-right pass escaping `\`, `%` and `_`; the backslashes added for `%` and `_` are never doubled |
| Sql.UnescapeEach | src/sql/sql.py:8 | dropping each escaping backslash recovers the input |
| Sql.EscapeRoundTrip | src/sql/sql.py:7-8 | unescaping `escape_path(s)` gives back `s` |
| Sql.EscapeInjective | src/sql/sql.py:7-8 | `escape_path(a) == escape_path(b)` iff `a == b` |
| Sql.EscapeLength | src/sql/sql.py:7-8 | the output is as long as the input plus its count of `\`, `%` and `_` |
| Sql.SepValues | src/sql/sql.py:11 | `sep` is `/` for a `/` separator, `\\` for a `\` separator, and in general the separator escaped by the same rule |
| Sql.EscapeSample | src/sql/sql.py:8 | `a_b` escapes to `a\_b`, and plain names are unchanged |
| Sql.EscapedIsLiteral | src/sql/sql.py:7-8 | with `\` as the `LIKE` escape, the escaped path compiles to one literal token per character of the path |
| Sql.DescendantPatternExact | src/sql/sql.py:7-11 | with `\` as the escape, `escape_path(x) + sep + '%'` matches `s` iff `s` starts with `x + "/"`, for any `x`, including names with `%`, `_` or `\` |
| Sql.SiblingNeverMatches | src/sql/sql.py:7-11 | the pattern for `x` never matches a sibling `x + y` where `y` does not start with `/` |
| Sql.SubtreeQueryExact | src/sql/file_crad.py:69-71 | with `\` as the escape, the equal-or-like filter selects `f` iff `f` is `x` or lies under it |
| Sql.SqliteDefaultMissesChild | src/sql/file_crad.py:70 | under SQLite's default `LIKE` (no escape character), the filter for `a_b` does not select its child `a_b/c` |
| Sql.UnescapedPatternMisses | src/sql/file_crad.py:70 | the unescaped pattern `a\_b/%` does not match `a_b/c` under SQLite's default `LIKE` |
| Sql.SqliteDefaultFoldsCase | src/sql/file_crad.py:70 | under SQLite's default `LIKE`, the filter for `a` selects `A/c`, which is not under `a` |
| Sql.FoldedPatternMatches | src/sql/file_crad.py:70 | the pattern `a/%` matches `A/c` when `LIKE` folds ASCII case |
| Storage.Prune | src/service/api.py:194 | what `rmtree(p)` leaves: exactly the entries not at or under `p`, unchanged |
| Storage.AddDirs | src/service/api.py:119 | `makedirs(p)` adds `p` and its missing ancestors as directories and keeps every existing entry |
| Storage.Relocate | src/service/api.py:256 | after `shutil.move`, the paths are the move image of the old paths |
| Storage.RelocateEntries | src/service/api.py:256 | entries outside `src` keep their nodes; every entry under `src` reappears rebased under `dst` with its node |
| Storage.RelocateTree | src/service/api.py:256 | moving a subtree to a free path under a directory keeps the tree well formed |
| Storage.PruneTree | src/service/api.py:194 | removing a non-root subtree keeps the tree well formed |
| Storage.AddDirsTree | src/service/api.py:119 | adding directories along a path whose existing ancestors are directories keeps the tree well formed |
| Storage.NothingUnderAbsent | src/service/api.py:189 | no entry lies under a path that is absent |
| Storage.Disk.MakeDirs | src/service/api.py:119 | `os.makedirs(p)` succeeds iff `p` is absent and every existing ancestor is a directory, then adds the missing directories; otherwise it fails with `FileExistsError` or `NotADirectoryError` and changes nothing |
| Storage.Disk.RemoveTree | src/service/api.py:194 | `shutil.rmtree(p)` succeeds iff `p` is a directory other than the root, then removes exactly its subtree; for the root every entry below it goes before `rmdir(".")` fails; otherwise nothing changes |
| Storage.Disk.Remove | src/service/api.py:203 | `os.remove(p)` succeeds iff `p` is a file, then removes exactly `p` |
| Storage.Disk.Move | src/service/api.py:256 | `shutil.move` succeeds iff `src` exists and is not the root, `dst` is free and outside `src`, and either `dst`'s parent is a directory (the rename) or `src` is a directory and `makedirs` can create that parent (the `copytree` fallback); then the missing parents are made and the subtree is relocated, and a rename adds nothing else |
| Storage.MoveTreeRenames | src/service/api.py:256 | once the parents of `dst` are made, the move is a rename: the tree stays well formed and `dst`'s parent is a directory afterwards; a plain rename makes no directory |
| Storage.MoveMakesParents | src/service/api.py:256 | a directory moves to a `dst` whose parent is missing, which `makedirs` creates, and arrives at `dst`; a file moved there fails |
| Storage.Disk.Copy2 | src/service/api.py:284 | `shutil.copy2` succeeds iff `src` is a file, `dst` is not a directory and `dst`'s parent is a directory; then `dst` holds `src`'s contents |
| Storage.Disk.Create | src/service/api.py:124 | `open(p, "wb")` succeeds iff `p` is not a directory and its parent is one; then `p` is an empty file |
| Storage.Disk.Append | src/service/api.py:127 | `write(chunk)` extends the file's contents by `chunk` and changes nothing else |
| Catalog.KeptMembers | src/sql/file_crad.py:68-73 | the rows left are exactly the rows the selection does not pick |
| Catalog.MovedSpec | src/sql/file_crad.py:79-84 | the rename loop completes iff every selected row lies under `src`; then each selected row is renamed and every other row is unchanged, in place |
| Catalog.MovedStops | src/sql/file_crad.py:82 | once `relative_to` raises, the rows after it are left as they were |
| Catalog.CopiesComplete | src/sql/file_crad.py:90-96 | the copy loop completes iff every selected row lies under `src` |
| Catalog.CopiesCover | src/sql/file_crad.py:90-96 | each selected row gets its copy, with the fresh id of its draw |
| Catalog.CopiesOnly | src/sql/file_crad.py:90-96 | every added row is the copy of a selected row |
| Catalog.CopiesStop | src/sql/file_crad.py:92 | once `relative_to` raises, no further rows are added |
| Catalog.DeleteRowsMembers | src/sql/file_crad.py:68-73 | `delete(x)` keeps exactly the rows the descendant filter does not select |
| Catalog.DeleteExact | src/sql/file_crad.py:68-73 | with `\` as the escape, `delete(x)` removes exactly the rows at or under `x`, and the filenames left are those of the pruned tree |
| Catalog.MoveRow | src/sql/file_crad.py:82-84 | a renamed row keeps its id and metadata id, gets the new timestamp, and lies under `dst` at the rebased path |
| Catalog.MoveRowsSpec | src/sql/file_crad.py:75-84 | `move` completes iff every selected row is under `src`; then selected rows are renamed and the rest are untouched |
| Catalog.MoveExact | src/sql/file_crad.py:75-84 | with `\` as the escape, `move` always completes, renames exactly the rows at or under `src`, and the filenames become the move image |
| Catalog.MoveRoundTrip | src/sql/file_crad.py:75-84 | moving `src` to a free `dst` and back restores every row's filename, id and metadata id |
| Catalog.CopyRow | src/sql/file_crad.py:91-95 | a copied row has the fresh id and the new timestamp, shares the metadata id, and lies at the rebased path |
| Catalog.CopyRowsCompletes | src/sql/file_crad.py:86-96 | `copy` completes iff every selected row is under `src` |
| Catalog.CopyRowsCovers | src/sql/file_crad.py:86-96 | every selected row is copied |
| Catalog.CopyRowsOnly | src/sql/file_crad.py:86-96 | only copies of selected rows are added |
| Catalog.CopyExact | src/sql/file_crad.py:86-96 | with `\` as the escape, `copy` completes and the filenames become the old ones plus the image of the subtree under `dst` |
| Catalog.CopyAddedNames | src/sql/file_crad.py:86-96 | the added filenames are exactly the image of the names under `src` |
| Catalog.IsEmptyExact | src/sql/file_crad.py:22-37 | with `\` as the escape, `is_empty(d)` holds iff no non-directory row lies at or under `d` |
| Catalog.FindMetadata | src/service/api.py:155 | finds a metadata row with the given id iff one exists |
| Catalog.GetFile | src/service/api.py:155 | `getfile(p)` is the metadata row of the first row at `p`; none iff no row is at `p` or that row's metadata row is missing |
| Catalog.EmptyRowsMembers | src/service/api.py:187 | `empty(p)` keeps exactly the rows its pattern does not select, so `p`'s own row stays |
| Catalog.EmptyExact | src/service/api.py:187 | with `\` as the escape, `empty(p)` removes exactly the rows strictly under `p` |
| Catalog.WithoutTask | src/job/slow_task.py:59 | deleting a task row leaves every other row |
| Catalog.FileCatalog.Commit | src/service/api.py:142 | a commit makes the working view the committed tables; a failed commit returns the view to the committed tables |
| Catalog.FileCatalog.DeleteTask | src/job/slow_task.py:59 | `session.delete(task_orm)` removes that task row and nothing else |
| Catalog.FileCatalog.AddTask | src/service/api.py:138 | appends the task row and nothing else |
| Catalog.FileCatalog.AddAll | src/service/api.py:140 | appends the task rows in order and nothing else |
| Catalog.FileCatalog.Put | src/sql/file_crad.py:45-66 | adds one file row with `metadata_id == id` and one non-directory metadata row with that id and the probed fields |
| Catalog.FileCatalog.Mkdir | src/service/api.py:120 | adds a file row at `p` and a directory metadata row |
| Catalog.FileCatalog.Empty | src/service/api.py:187 | the rows become those of `empty(p)` |
| Catalog.FileCatalog.Delete | src/sql/file_crad.py:68-73 | the rows become those `delete(x)` keeps; metadata, tasks and the committed tables are unchanged |
| Catalog.FileCatalog.DeleteWhere | src/sql/file_crad.py:71-73 | the delete loop leaves exactly the unselected rows, in order |
| Catalog.FileCatalog.Move | src/sql/file_crad.py:75-84 | the rows become `MoveRows`; the result is an error iff `relative_to` raised |
| Catalog.FileCatalog.MoveWhere | src/sql/file_crad.py:78-84 | the rename loop rewrites the selected rows in place until the first failure |
| Catalog.FileCatalog.Copy | src/sql/file_crad.py:86-96 | the source rows are kept and the copies are appended |
| Catalog.FileCatalog.CopyWhere | src/sql/file_crad.py:89-96 | the copy loop appends one copy per selected row, in order, until the first failure |
| Locks.IsLockedExact | src/sql/file_lock_crad.py:78-82 | with `\` as the escape, `is_lock(p)` holds iff some lock is at or under `p` |
| Locks.AncestorLockUndetected | src/sql/file_lock_crad.py:78-82 | a lock held on a proper ancestor of `p` is not seen by `is_lock(p)` |
| Locks.LockRoundTrip | src/sql/file_lock_crad.py:25-40 | after a successful entry the lock rows stay distinct, `p` is held exactly once, and exit restores the table |
| Locks.LockTransaction.Enter | src/sql/file_lock_crad.py:25-33 | raises `FileLockCRADError` iff `is_lock` holds, and then changes nothing; otherwise adds exactly one row for the path |
| Locks.LockTransaction.Exit | src/sql/file_lock_crad.py:35-40 | deletes the row equal to the path when there is exactly one; otherwise `.one()` raises and the table is unchanged; the session is closed either way |
| Locks.ClearAllSpec | src/sql/file_lock_crad.py:50-57 | after a completed clear, no listed path remains, no entry is added, and every entry outside the listed paths stays |
| Locks.ClearKeepsTree | src/sql/file_lock_crad.py:50-57 | clearing the listed paths keeps the tree well formed |
| Locks.ClearPath | src/sql/file_lock_crad.py:53-56 | removes a file, or a directory with its subtree, skips a missing path, and fails only on the root, which it leaves emptied |
| Locks.FileGuard.Exit | src/sql/file_lock_crad.py:50-57 | does nothing on normal exit; on an exception it clears each listed path in order and re-raises, or, when `rmtree` of the root fails after emptying it, stops there and raises that error |
| Locks.MoveBackRestores | src/sql/file_lock_crad.py:68-70 | after a move, moving `dst` back to `src` is allowed and restores the tree exactly |
| Locks.MoveBackAllowed | src/sql/file_lock_crad.py:68-70 | the move back is allowed on the moved tree |
| Locks.MoveTreeBack | src/sql/file_lock_crad.py:68-70 | after a move that made the parents of `dst`, moving back is a rename and restores the tree except for those parents, which remain directories |
| Locks.FileMoveGuard.Exit | src/sql/file_lock_crad.py:68-70 | does nothing on normal exit; on an exception it moves `dst` back to `src` (by rename, or by the `copytree` fallback) and lets the exception through; a failing move-back raises its own error and changes nothing |
| Resolver.RelativeTo | src/util/file.py:11 | `relative_to(base)` succeeds iff `p` is under `base`, returning the rest; otherwise `ValueError` |
| Resolver.EnsureDir | src/util/file.py:28 | `mkdir(parents=True, exist_ok=True)` succeeds iff `p` is already a directory or can be made; then `p` is a directory |
| Resolver.GetFileStr | src/util/file.py:15-18 | returns `base/rel` once its parent directory exists |
| Resolver.GetFile | src/util/file.py:10-12 | returns `p` itself for `p` under `base`, with its parent made; `ValueError` otherwise |
| Resolver.GetTempStr | src/util/file.py:26-29 | returns `temp/rel` once that directory exists |
| Resolver.GetTemp | src/util/file.py:21-23 | maps `base/x` to `temp/x` and makes that directory; `ValueError` outside `base` |
| Resolver.TempDisjoint | src/util/file.py:6-7 | no temp path lies under `base`, and no base path under `temp` |
| Resolver.TempRoundTrip | src/util/file.py:21-23 | mapping into `temp` and back returns the original path |
| Resolver.BaseUrl | test/util/test_file.py:13-28 | `get_base_url(a, b)` is defined iff `b` is a suffix of `a`, and then it is `a` with `b` removed |
| Resolver.BaseUrlOfJoin | test/util/test_file.py:13-28 | `get_base_url(x / b, b) == x` |
| Resolver.BaseUrlSamples | test/util/test_file.py:10-28 | the four assertions of the test hold |
| Streaming.FileHandle.Seek | src/util/stream.py:21 | `seek(start)` sets the position |
| Streaming.FileHandle.Read | src/util/stream.py:23 | `read(n)` returns at most `n` bytes from the position and advances past them |
| Streaming.Requests | src/util/stream.py:22-24 | the reads requested: `(end - start) // chunk_size` full chunks, then one of `(end - start) % chunk_size` |
| Streaming.RequestsTotal | src/util/stream.py:22-24 | the requests add up to `end - start` |
| Streaming.FinalRequestEmpty | src/util/stream.py:24 | when `end - start` is a multiple of the chunk size, the last read asks for 0 bytes |
| Streaming.ReversedRangeReadsRemainder | src/util/stream.py:22-24 | for `end < start` within one chunk, Python's floor `%` makes a single read of `end - start + chunk_size` bytes |
| Streaming.ReadSpan | src/util/stream.py:21-24 | seeks, then yields one chunk per request, none longer than its request, together the bytes from `start` |
| Streaming.ReadFull | src/util/stream.py:22-23 | the loop of full reads yields chunks of at most `chunk_size` bytes that together are the next `full * chunk_size` bytes |
| Streaming.Read | src/util/stream.py:19-27 | `Stream.read` yields the bytes from `start` up to the total requested, never more than `end - start` |
| Streaming.ReadFile | src/util/stream.py:10-16 | `read_file` yields the same bytes as `read` on the file's contents |
| Streaming.StreamShortByOne | src/util/stream.py:22-24 | the bytes requested for `start..end` are one fewer than the Content-Length the response announces |
| Streaming.ReadInclusive | src/util/stream.py:22-24 | the corrected read yields `data[start..end + 1]`, the inclusive range |
| WebdavXml.SetNamespaces | src/util/xml.py:4-5 | each prefix `k` becomes the attribute `xmlns:k` with its value unchanged, in order |
| WebdavXml.SetNamespacesInjective | src/util/xml.py:4-5 | distinct prefixes give distinct attribute names |
| WebdavXml.ToWebdav | src/util/xml.py:8-16 | the root is `d:multistatus` carrying `xmlns:d="DAV:"` and no text |
| WebdavXml.ChildrenSpec | src/util/xml.py:19-28 | building children succeeds iff every list item is a dict, and then yields one element per key in the nested dicts |
| WebdavXml.EntriesSpec | src/util/xml.py:20-21 | a dict's entries succeed iff each value does, with one element per key below them |
| WebdavXml.EntrySpec | src/util/xml.py:21-28 | one entry yields one element plus one per nested key |
| WebdavXml.ItemsSpec | src/util/xml.py:26-28 | a list's items succeed iff each is a buildable dict |
| WebdavXml.ToWebdavCount | src/util/xml.py:8-28 | the document has one element for the root plus one per key in all nested dicts |
| WebdavXml.EntriesShape | src/util/xml.py:20-25 | entry `i` becomes the element `d:` + key `i`, in dict order; a string value becomes its text; a string or other value has no children |
| WebdavXml.ListFlattens | src/util/xml.py:26-28 | a list's items add their entries directly under the same element, with no wrapper per item |
| WebdavXml.OtherValuesDropped | src/util/xml.py:21-28 | an int, bool or `None` value yields an empty element |
| Numbers.ParseInt | src/service/api.py:157 | `int(s)` succeeds iff `s` is digits with an optional sign |
| Numbers.NatToString | src/service/api.py:167 | `str(n)` is non-empty digits without a leading zero |
| Numbers.IntToString | src/service/api.py:169 | `str(n)` is never empty |
| Numbers.IntRoundTrip | src/service/api.py:169 | `int(str(n)) == n` |
| Ffmpeg.FromFile | src/util/ffmpeg.py:22-31 | a failed probe falls back to a report with no streams; otherwise the parsed report is kept |
| Ffmpeg.FirstVideoIndex | src/util/ffmpeg.py:45-49 | the index of the first video stream from a position on, or none when there is none |
| Ffmpeg.FindVideo | src/util/ffmpeg.py:46-49 | the search loop returns the first video stream from the position on, or `None` iff there is none |
| Ffmpeg.GetVideoStream | src/util/ffmpeg.py:45-49 | returns the first stream whose `codec_type` is `video`, or `None` iff there is none |
| Ffmpeg.GetThumbnailStream | src/util/ffmpeg.py:51-55 | the same search with index 0 skipped |
| Ffmpeg.NewVideo | src/util/ffmpeg.py:38-43 | construction raises `ValueError` iff the report has no video stream; otherwise it keeps the first one |
| Ffmpeg.NewVideoAfterFailedProbe | src/util/ffmpeg.py:22-43 | a video built from a failed probe always raises |
| Ffmpeg.Check | src/util/ffmpeg.py:57-63 | true when narrower than `width`; otherwise the result is whether `int(bit_rate) < bitrate * 1024`, and a missing or non-numeric `bit_rate` raises |
| Ffmpeg.CheckFalseMeansSourceMeetsRung | src/util/ffmpeg.py:57-63 | `check` is false only when the source is at least `width` wide and at least `bitrate * 1024` bit/s |
| Ffmpeg.ThumbnailInvocation | src/util/ffmpeg.py:65-97 | writes `thumbnail_{prefix}.png`; with no second stream it seeks 1 s and scales into 320×320, otherwise it maps `v:1` with codec copy; one frame, overwrite |
| Ffmpeg.Thumbnail | src/util/ffmpeg.py:65-97 | `-map v:1` is used iff some stream after the first is a video stream |
| Ffmpeg.DownScaleInvocation | src/util/ffmpeg.py:99-121 | writes `hls_{prefix}.mkv` with `h264_nvenc`, audio copied, `scale={width}:-1` and `b:v = {bitrate}k` |
| Ffmpeg.DownScaleBitrateReadable | src/util/ffmpeg.py:115 | the `b:v` option reads back as the bitrate passed, followed by `k` |
| Ffmpeg.ThumbnailMapMissesStream | src/util/ffmpeg.py:51-55 | with an audio stream then one video stream, `get_thumbnail_stream` finds a stream although there is no second video stream for `v:1` |
| Ffmpeg.GetSecondVideoStream | src/util/ffmpeg.py:89 | returns the second video stream, the one `v:1` names, iff there are at least two |
| Ffmpeg.ThumbnailIntended | src/util/ffmpeg.py:65-97 | the corrected choice maps `v:1` iff there are at least two video streams |
| SlowTaskJob.VideoTasks | src/job/slow_task.py:15 | exactly the tasks of type `video_convert` are selected |
| SlowTaskJob.Matching | src/job/slow_task.py:20 | exactly the file rows referring to the task's metadata are selected |
| SlowTaskJob.TaskFile | src/job/slow_task.py:20-21 | `.one()` returns the single matching file row, and nothing when none or more than one matches |
| SlowTaskJob.TaskVideo | src/job/slow_task.py:18-27 | a task's video is found iff it has a single file row, a stored probe and a video stream; a missing file row and a missing probe each give their own error |
| SlowTaskJob.RungsPlanMembers | src/job/slow_task.py:30-52 | every planned encode is the rendition of one of the rungs, at most one per rung |
| SlowTaskJob.RungEncoded | src/job/slow_task.py:30-52 | a rung's rendition is planned iff `check` is false for it |
| SlowTaskJob.RungsPlanEncodes | src/job/slow_task.py:30-52 | for all rungs at once, a rendition is planned iff the source meets that rung |
| SlowTaskJob.CheckMonotone | src/job/slow_task.py:30-52 | a source that meets a higher rung meets every lower one |
| SlowTaskJob.TaskPlanShape | src/job/slow_task.py:30-57 | a task issues one to four FFmpeg runs, the thumbnail last |
| SlowTaskJob.ExecutedSpec | src/job/slow_task.py:30-52 | the rung steps succeed iff the plan exists and every planned run succeeds; a failed run is the last one issued |
| SlowTaskJob.TaskStepsSpec | src/job/slow_task.py:30-57 | the task's steps succeed iff every planned run, the thumbnail included, succeeds; then exactly the plan ran |
| SlowTaskJob.StepsOverSpec | src/job/slow_task.py:30-57 | the same for any list of rungs followed by the thumbnail |
| SlowTaskJob.RunRungs | src/job/slow_task.py:30-52 | the three `if not check(...)` blocks issue and stop exactly as the rung specification says |
| SlowTaskJob.Encode | src/job/slow_task.py:30-57 | the rungs and then the thumbnail, as the task specification says |
| SlowTaskJob.ExecutedPrefixStops | src/job/slow_task.py:30-52 | once a rung raises, later rungs issue nothing |
| SlowTaskJob.OutcomeSteps | src/job/slow_task.py:18-57 | once the video and temp directory are found, the task's outcome is its FFmpeg steps |
| SlowTaskJob.DiskAfterSpec | src/job/slow_task.py:28 | a task only adds directories to the tree, and it has made the temp directory before any FFmpeg run |
| SlowTaskJob.LoadVideo | src/job/slow_task.py:18-27 | the lookups return what the task-video specification says |
| SlowTaskJob.FinishTask | src/job/slow_task.py:59-60 | deletes the task row and commits; a failed commit keeps the row and reports the commit error |
| SlowTaskJob.ProcessTask | src/job/slow_task.py:17-60 | one task: the tree gets its temp directory, the runs issued are those of the task's outcome, and its row goes iff every step and the commit succeed |
| SlowTaskJob.StillQueued | src/job/slow_task.py:17-60 | after `n` tasks are done, every later selected task is still queued |
| SlowTaskJob.QueueDrained | src/job/slow_task.py:15-60 | when every selected task is done, exactly the tasks of other types remain |
| SlowTaskJob.NextTask | src/job/slow_task.py:17-60 | one loop turn only grows the tree, and removes the task row iff it succeeds |
| SlowTaskJob.RunSlowTask | src/job/slow_task.py:13-60 | tasks run in table order and the first error stops the job; the rows of the completed tasks are gone, every later task stays queued, and the job succeeds iff all completed |
| Api.WithDirEntry | src/service/api.py:231 | after the catalog `mkdir(p)`, `p` is a directory entry and the filenames gain exactly `p` |
| Api.AfterExit | src/sql/file_lock_crad.py:35-40 | an exception from the exit's `unlock` replaces the body's outcome |
| Api.Answer | src/service/api.py:254-260 | the reply is the exception iff the body or an exit raised, and the success response otherwise |
| Api.DeleteBranch | src/service/api.py:186-212 | delete empties the trash iff `p` is the trash root; hard-deletes a path with no files below it or under the trash; otherwise soft-deletes; a non-directory in the trash is hard-deleted as a file |
| Api.RemakeAfterPrune | src/service/api.py:189-190 | after `rmtree(p)`, `makedirs(p)` can recreate it |
| Api.Suffix | src/service/api.py:121 | pathlib's `suffix`: empty or a dot and what follows the last dot, never the whole name |
| Api.BinPath | src/service/api.py:121 | the copy lies directly in the upload's metadata directory, under the metadata root |
| Api.UploadTasksSpec | src/service/api.py:133-140 | an upload queues one `video_convert` task iff the content is a video, and its classification tasks iff it is an image |
| Api.UploadedEntry | src/service/api.py:131-132 | after the committed upload, `p` is a file entry and the filenames gain exactly `p` and its copy |
| Api.UploadPlaces | src/service/api.py:117-121 | the target, the copy and the metadata directory are distinct, and the copy does not exist yet |
| Api.UploadGateAdmitsMetadataRoot | src/service/api.py:110 | the metadata root itself passes upload's location checks, because only paths strictly under it are refused |
| Api.UploadedContents | src/service/api.py:124-128 | after a successful upload, the target and the copy both hold the concatenated chunks |
| Api.MetadataDirLeaks | src/service/api.py:117-130 | the upload's metadata directory stays on disk whatever happens after `makedirs`, since no guard covers it |
| Api.UploadOverDirectory | src/service/api.py:122-128 | uploading onto an existing directory fails, and the guard then removes that directory |
| Api.FileService.MkdirSteps | src/service/api.py:229-232 | `makedirs` then the catalog `mkdir` and commit under `FileGuard(p)`: success iff the directories can be made and the commit succeeds |
| Api.FileService.Mkdir | src/service/api.py:215-233 | 405 and 409 per the checks with nothing changed; 200 iff the checks pass, the tree allows it and the commit succeeds, and then tree and catalog both gain `p`; on failure the catalog is unchanged and the guard clears `p` |
| Api.FileService.CatalogMove | src/service/api.py:258-259 | the catalog `move` then commit: success iff every selected row moved and the commit succeeds |
| Api.FileService.MoveSteps | src/service/api.py:256-259 | the tree move, then the catalog move under `FileMoveGuard`: success iff the tree move is allowed and the catalog move and commit succeed; then the parents of `dst` are made, the subtree is relocated and the rows are moved; on failure the catalog is as before and the tree is as before except for the parents of `dst` the move made, which the rollback leaves; when `dst`'s parent was a directory the tree is exactly as before |
| Api.FileService.MoveGuarded | src/service/api.py:256-259 | the same steps from the session's working view, with the guard's rollback on failure: the same success condition, new state and leftover parents |
| Api.FileService.MoveUnderDst | src/service/api.py:255-259 | the inner lock on `dst` and the steps inside it: a held lock on `dst` raises with nothing changed; otherwise the steps' outcome, including the parents a rolled-back move leaves |
| Api.FileService.Move | src/service/api.py:235-260 | the checks' 405 and 409 change nothing; 200 iff both locks are free and the tree and catalog moves succeed; then, with `\` as the escape, the tree's paths (with `dst`'s parents made) and the catalog's filenames undergo the same move, and a parent of `dst` the move made is a directory on disk that the catalog does not list; on any other reply the catalog is unchanged and the tree is unchanged except for parents a rolled-back move made; locks are released |
| Api.FileService.CopySteps | src/service/api.py:283-286 | `copy2`, then the catalog copy and commit: success iff the file copy is allowed, every selected row copied and the commit succeeds |
| Api.FileService.GuardedCopy | src/service/api.py:283-286 | the same under `FileGuard(dst)`: on failure the catalog is unchanged and `dst` is cleared |
| Api.FileService.CopyUnderDst | src/service/api.py:282-286 | the inner lock on `dst` and the guarded steps |
| Api.FileService.CopyLocked | src/service/api.py:281-287 | both locks, then the guarded copy: 200 iff both locks are free and the steps succeed |
| Api.FileService.Copy | src/service/api.py:262-287 | the checks' 405 and 409 change nothing; 200 iff locks are free and the copy succeeds; then the tree gains `dst` with `src`'s contents and, with `\` as the escape, the filenames gain the image of `src` under `dst`; a failure leaves the catalog unchanged and the guard clears `dst`; copying a directory never succeeds |
| Api.FileService.EmptyTrashSteps | src/service/api.py:186-190 | empty the trash rows, commit, `rmtree` and `makedirs`: the tree's trash is emptied and recreated |
| Api.FileService.HardDeleteSteps | src/service/api.py:191-203 | delete the rows, commit, then `rmtree` or `remove`: the rows and the subtree at `p` go |
| Api.FileService.SoftDeleteSteps | src/service/api.py:204-212 | make the trash location's parent, then move `p` there on disk and in the catalog under `FileMoveGuard` |
| Api.FileService.DeleteBody | src/service/api.py:186-212 | the effect of each delete branch on tree and catalog on success, and what each leaves unchanged on failure; a hard delete or trash empty whose commit succeeds leaves the rows gone even when the tree step then raises |
| Api.FileService.Delete | src/service/api.py:174-213 | 405 and 404 per the checks with nothing changed; a locked path raises with nothing changed; on success each branch's effect on tree and catalog; past the checks and the lock, a committed hard delete or trash empty leaves the rows gone whatever the tree step does; locks are released |
| Api.FileService.WriteBoth | src/service/api.py:126-128 | each chunk is written to the target and to the copy, so both hold the concatenation |
| Api.FileService.WriteSteps | src/service/api.py:124-128 | opens both files and writes every chunk: success iff the target can be opened |
| Api.FileService.CatalogUpload | src/service/api.py:131-142 | `put`, the copy's `put`, the tasks and the commit: the committed catalog is the uploaded one iff the commit succeeds |
| Api.FileService.LockedWrite | src/service/api.py:122-128 | the lock on `p` and the guarded writes: a held lock raises and changes nothing |
| Api.FileService.GuardedCatalog | src/service/api.py:130-142 | the catalog steps under `FileGuard(p, bin)`: on failure both files are cleared |
| Api.FileService.PrepareUpload | src/service/api.py:117-120 | `makedirs` and the catalog `mkdir` of the upload's metadata directory |
| Api.FileService.WriteAndRecord | src/service/api.py:122-142 | the locked write and then the guarded catalog steps |
| Api.FileService.UploadSteps | src/service/api.py:117-142 | every step after the checks: success iff the metadata directory can be made, `p` is unlocked and can be opened, and the commit succeeds |
| Api.FileService.Upload | src/service/api.py:104-143 | 405 and 409 per the checks with nothing changed; 201 iff the steps succeed, and then `p` and its copy hold the uploaded bytes, `p` is a catalogued file, and a second upload to `p` gets 409 |
| ApiChecks.Parents | src/service/api.py:95 | `p.parents` is the set of proper ancestors of `p` |
| ApiChecks.DotDotParents | src/service/api.py:95 | `base in p.joinpath("..").parents` iff `p` is `base` or lies under it, because pathlib does not resolve `..` |
| ApiChecks.List | src/service/api.py:93-102 | 405 iff outside `base`; 404 iff the path is neither a catalogued directory nor a file; otherwise `get_dir`/`get_file` raise |
| ApiChecks.UploadGate | src/service/api.py:108-115 | upload passes iff `p` is in `base`, strictly under neither the metadata nor the trash root, and not catalogued; 409 iff only the last fails |
| ApiChecks.DeleteGate | src/service/api.py:176-183 | delete passes iff `p` is in `base`, neither the metadata root nor under it, and catalogued; 404 iff only the last fails |
| ApiChecks.MkdirGate | src/service/api.py:217-227 | mkdir passes iff `p` is in `base`, strictly under neither the metadata nor the trash root, not catalogued, and its parent is a catalogued directory; 409 iff it exists |
| ApiChecks.TransferGate | src/service/api.py:239-252 | move and copy pass iff the places are allowed, `src` is catalogued and `dst` is not; 409 iff the places are allowed but one of the existence tests fails |
| ApiChecks.TransferDistinct | src/service/api.py:239-252 | a passing transfer has `dst` strictly under `base` and different from `src` |
| ApiChecks.MetadataRootTransferable | src/service/api.py:243-246 | the metadata root itself passes the move and copy checks, while delete refuses it |
| ApiChecks.Split | src/service/api.py:156 | `str.split(c)` always has at least one part |
| ApiChecks.SplitJoin | src/service/api.py:156 | joining the parts of `s.split(c)` with `c` gives `s` back |
| ApiChecks.JoinSplit | src/service/api.py:156 | splitting parts joined with `c` gives the parts back when none contains `c` |
| ApiChecks.RangeBounds | src/service/api.py:154-158 | `bytes=lo-hi` parses to the two numbers |
| ApiChecks.RangeOpenEnd | src/service/api.py:158 | `bytes=lo-` ends at `size - 1` |
| ApiChecks.RangeSuffixFromStart | src/service/api.py:157 | `bytes=-hi` is read as `0-hi`, not as the last `hi` bytes |
| ApiChecks.RangeWithoutUnit | src/service/api.py:156 | a value without `=` raises `IndexError` |
| ApiChecks.MultipleRangesRejected | src/service/api.py:156 | a value with two ranges raises `ValueError` |
| ApiChecks.RangeRoundTrip | src/service/api.py:154-158 | the range header for `start-end` parses back to `(start, end)` |
| ApiChecks.ContentLengthReadsBack | src/service/api.py:169 | the Content-Length header reads back as `end - start + 1` |
| ApiChecks.Download | src/service/api.py:145-172 | 405 iff outside `base`; 404 iff not a catalogued file; otherwise the file is streamed from the parsed or whole range with the four headers, or a parsing or lookup error is raised |
| ApiChecks.WholeFileAnnounced | src/service/api.py:160-169 | without a `Range` header, the Content-Length is the file's size |
| ApiChecks.LockConflictEscapes | src/service/api.py:68-85 | as written, a lock conflict propagates as an exception and is never answered with 423 |
| ApiChecks.HandleErrors | src/service/api.py:73-83 | the corrected handling: no exception escapes, a lock conflict is 423, any other exception is 404, and a normal reply is unchanged |

## Left out

- Concurrency, the async suspension points, and the check-then-insert race in lock acquisition are not modelled. Every request runs to completion before the next one starts. The 10-second scheduler is out of scope.
- Lock sessions: lock entry and exit are assumed to commit. A database error in the lock session is not modelled.
- `CancelledError` in `Stream.read` / `read_file` is not modelled. Cancellation ends the generator quietly; the model reads to completion.
- `FileCRAD.put`'s probing is not modelled: `MetadataFile.factory`, `os.stat`, `is_video` (a float comparison) and the media-type lookup are a `Probe` parameter. `all_classification` is the `classify` parameter. The `image` flag is a further field of `Probe`, for the reason given in the version-skew list.
- `FFmpegWrapper.from_file`'s subprocess and `thumbnail`/`down_scale`'s `execute` are not modelled. They are parameters: the parsed report or its failure, and `runs`, whether an invocation succeeds. The `print` of the command line is left out.
- The stored JSON report is modelled only in part. A probe stream keeps `codec_type`, `width` and the `bit_rate` text; the rest of the report is dropped.
- `int()` accepting surrounding whitespace and `_` digit separators is not modelled. A `Range` value or `bit_rate` with them is treated as unparsable.
- Uuid formatting and validity are not modelled: a uuid is an opaque name. The fresh ids a request draws are the `Env.ids` parameter; the clock is `Env.now`.
- `get_trashbin_from_data`: not in the shown revision. Its result is the `trash` parameter of `Delete`, required to lie strictly under the trash root.
- Disk simplifications:
  - `copy2` onto an existing directory, and `move` onto any existing entry, are refused. Real `shutil` would copy or move into a directory, and `os.rename` would replace a file. `copy2` onto an existing file overwrites it, as in the source.
  - The handlers call them only after the catalog says the destination is free. The cases above need an entry on disk that the catalog does not list.
  - Writes to an open file never fail (`Disk.Append`).
  - File permissions, symlinks, disk-full errors and non-lexical paths (`..` resolution) are not modelled.
- XML serialisation (`ET.tostring`, UTF-8 encoding and escaping) is not modelled. `to_webdav` yields the element tree.
- The three rung blocks of `slow_task` are modelled as one loop over the ladder `[(640, 1000, low, 250), (1280, 2000, mid, 500), (1920, 4000, high, 1000)]`. That loop performs the same checks and runs in the same order.
- `get_dir` and `get_file` raise `NotImplementedError` and are modelled only as that exception.
- `Catalog.FileCatalog.Close` and the constructors are state plumbing. They are not modelled as separate rows.
- Storage.Disk.Move: refuses a `dst` that exists. `shutil.move` moves into an existing directory at `dst`, and `os.rename` replaces a file there with a file. Only a `dst` on disk that the catalog does not list reaches this case. The source then answers 200 with the subtree inside that directory, while the model answers with the failure and leaves tree and catalog as before.
- Storage.Disk.Copy2: refuses a `dst` that is a directory, where `shutil.copy2` copies into it. Only an uncatalogued directory at `dst` reaches this case through `copy`.
- Api.FileService.Copy: with an uncatalogued directory at `dst`, the source copies the file into it, adds the row at `dst` and answers 200. The model's `copy2` fails there, and `FileGuard(dst)` then removes that directory.
- Catalog.MoveRow: gives every renamed row the request's single timestamp, where `file_crad.py:83` reads the clock once per row.
- Catalog.CopyRow: gives every copied row the request's single timestamp, where `file_crad.py:95` reads the clock once per row.
- Streaming.Read: states the bytes yielded as a window of the file, not chunk by chunk. `ReadSpan` states the per-chunk bounds.

## Findings

| source | as written | input that shows it | evidently intended | confidence | as-written member | corrected member |
|---|---|---|---|---|---|---|
| src/sql/file_crad.py:70 | `.like(pattern)` passes no `ESCAPE` clause. On SQLite, the default database, `LIKE` then has no escape character, so the backslashes `escape_path` adds are literal | the directory `a_b` with the child `a_b/c`: the pattern `a\_b/%` does not match `a_b/c`, so `delete`, `move` and `copy` of `a_b` miss the child | `LIKE ... ESCAPE '\'`, which selects exactly the rows at or under the path | not executed; high | Sql.SqliteDefaultMissesChild | Sql.SubtreeQueryExact |
| src/sql/file_crad.py:70 | SQLite's `LIKE` folds ASCII case, so the descendant filter ignores case | the directory `a` and the row `A/c`: the filter for `a` selects `A/c` | a case-sensitive prefix match, as the `==` half of the filter already is | not executed; high | Sql.SqliteDefaultFoldsCase | Sql.SubtreeQueryExact |
| src/util/stream.py:22-24 | reads `end - start` bytes while the response announces `end - start + 1` (src/service/api.py:169) | `Range: bytes=0-0` announces one byte and streams none | read the inclusive range, `end - start + 1` bytes | not executed; high | Streaming.StreamShortByOne | Streaming.ReadInclusive |
| src/util/ffmpeg.py:51-55 | `get_thumbnail_stream` looks for any video stream after index 0, but `thumbnail` then maps `v:1`, the second video stream | streams `[audio, video]`: a stream is found, yet there is no `v:1` | use `-map v:1` only when a second video stream exists | not executed; medium | Ffmpeg.ThumbnailMapMissesStream | Ffmpeg.ThumbnailIntended |
| src/service/api.py:71 | `wrapper` returns before the `try`, so lines 73-83 never run | a `move` onto a locked path raises `FileLockCRADError` instead of answering 423 | the `try`: 423 for a lock conflict, 404 for any other exception | not executed; high | ApiChecks.LockConflictEscapes | ApiChecks.HandleErrors |

The handlers and the background job keep the written behaviour: `FileCatalog` takes the `LIKE`
semantics as a parameter, the job's thumbnail step uses the written stream choice, and the
handlers' replies carry exceptions as `Raised`. The corrected members state what the intended code
would do. The escaped semantics are the ones under which the handlers' path-mapping guarantees
(`Move`, `Copy`, `Delete`) are stated.
