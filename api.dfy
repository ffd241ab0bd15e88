/**
 * The state-changing handlers of `FileService` in src/service/api.py: `upload`, `delete`, `mkdir`,
 * `move` and `copy`, over the file tree, the catalog session and the lock table. Each handler runs
 * its location checks (module ApiChecks), then its steps inside the lock transactions and guards
 * the source opens, and finally the request's session closes, discarding what was not committed.
 */
module Api {
  import opened Wrappers
  import opened Paths
  import opened LikeOperator
  import opened Sql
  import opened Storage
  import opened Catalog
  import opened Locks
  import opened Resolver
  import opened Streaming
  import opened ApiChecks
  import SlowTaskJob

  /** What one request draws from outside the engine: fresh uuids by draw number, the clock, and whether its commit fails. */
  datatype Env = Env(ids: nat -> Uuid, now: Timestamp, commitFails: bool)

  /** The catalog after `mkdir(p)`: a file row at `p` pointing at a new directory metadata row. */
  function WithDir(t: Table, p: Path, id: Uuid, rowId: Uuid, now: Timestamp): Table {
    Table(t.files + [FileRow(rowId, id, p, now)],
          t.metadata + [MetadataRow(id, true, 0, false, false, "inode/directory", now)],
          t.tasks)
  }

  /** After `mkdir(p)` the catalog lists `p` as a directory and its filenames gain exactly `p`. */
  lemma WithDirEntry(t: Table, p: Path, id: Uuid, rowId: Uuid, now: Timestamp)
    ensures IsDirEntry(WithDir(t, p, id, rowId, now), p)
    ensures Names(WithDir(t, p, id, rowId, now).files) == Names(t.files) + {p}
  {
    var w := WithDir(t, p, id, rowId, now);
    assert w.files[|t.files|].filename == p && w.metadata[|t.metadata|].id == w.files[|t.files|].metadataId;
    NamesAppend(t.files, [FileRow(rowId, id, p, now)]);
  }

  lemma ValidRowsAppend(a: seq<FileRow>, b: seq<FileRow>)
    requires ValidRows(a) && ValidRows(b)
    ensures ValidRows(a + b)
  {
    forall i | 0 <= i < |a + b| ensures ValidPath((a + b)[i].filename) {
      if i >= |a| {
        assert (a + b)[i] == b[i - |a|];
      }
    }
  }

  /** What leaving a lock transaction raises: an error of `unlock` replaces whatever the body raised. */
  function AfterExit(body: Option<Failure>, exit: Result<(), LockError>): (r: Option<Failure>)
    ensures exit.Err? ==> r == Some(LockFailure(exit.error))
    ensures exit.Ok? ==> r == body
  {
    if exit.Err? then Some(LockFailure(exit.error)) else body
  }

  /** The handler's reply: its success status, or the exception that escaped it. */
  function Answer(failure: Option<Failure>, success: nat): (r: Reply)
    ensures r.Raised? <==> failure.Some?
    ensures failure.Some? ==> r.failure == failure.value
    ensures failure.None? ==> r == Status(success)
  {
    if failure.Some? then Raised(failure.value) else Status(success)
  }

  /** Both transactions of `move` and `copy` can be entered: the source is free, then the destination is free with the source's lock held. */
  predicate LocksFree(held: seq<Path>, like: Semantics, src: Path, dst: Path) {
    !IsLocked(held, like, src) && !IsLocked(held + [src], like, dst)
  }

  /** A completed `move` leaves filenames pathlib can hold. */
  lemma MovedRowsValid(rows: seq<FileRow>, like: Semantics, src: Path, dst: Path, now: Timestamp)
    requires ValidRows(rows) && ValidPath(dst) && MoveRows(rows, like, src, dst, now).1
    ensures ValidRows(MoveRows(rows, like, src, dst, now).0)
  {
    MoveRowsSpec(rows, like, src, dst, now);
    var m := MoveRows(rows, like, src, dst, now).0;
    forall i | 0 <= i < |m| ensures ValidPath(m[i].filename) {
      if SubtreeQuery(like, rows[i].filename, src) {
        RebaseValid(rows[i].filename, src, dst);
      }
    }
  }

  /** A completed `copy` adds filenames pathlib can hold. */
  lemma CopiedRowsValid(rows: seq<FileRow>, like: Semantics, src: Path, dst: Path, newId: nat -> Uuid, now: Timestamp)
    requires ValidRows(rows) && ValidPath(dst) && CopyRows(rows, like, src, dst, newId, now).1
    ensures ValidRows(rows + CopyRows(rows, like, src, dst, newId, now).0)
  {
    CopyRowsCompletes(rows, like, src, dst, newId, now);
    CopyRowsOnly(rows, like, src, dst, newId, now);
    var added := CopyRows(rows, like, src, dst, newId, now).0;
    forall k | 0 <= k < |added| ensures ValidPath(added[k].filename) {
      assert added[k] in added;
      var i :| 0 <= i < |rows| && SubtreeQuery(like, rows[i].filename, src) && added[k] == CopyRow(rows[i], src, dst, newId(i), now);
      RebaseValid(rows[i].filename, src, dst);
    }
    ValidRowsAppend(rows, added);
  }

  lemma UpdateKeys(nodes: map<Path, Node>, p: Path, x: Node)
    ensures nodes[p := x].Keys == nodes.Keys + {p}
  {
  }

  /** Removing the subtree at `p` does not depend on what was written at `p` first, nor on whether anything was there. */
  lemma PruneOverwrite(nodes: map<Path, Node>, p: Path, x: Node)
    requires Tree(nodes)
    ensures Prune(nodes[p := x], p) == Prune(nodes, p)
    ensures Clear(nodes, p) == Prune(nodes, p)
  {
    if p !in nodes {
      NothingUnderAbsent(nodes, p);
    }
  }

  /** The guard over one path, when that path is not the working directory, always gets through its list. */
  lemma ClearOne(nodes: map<Path, Node>, p: Path)
    requires p != []
    ensures ClearAll(nodes, [p]) == (Clear(nodes, p), true)
  {
    assert [p][..0] == [];
  }

  /** The branches of `delete` once the checks pass and the lock is held. */
  datatype DeleteKind = EmptyTrash | HardDelete(dir: bool) | SoftDelete

  /**
   * Which branch `delete(p)` takes, in the source's order: the trash root is emptied; a path with
   * no file rows at or under it is removed outright, and so is anything strictly in the trash;
   * everything else goes to the trash.
   */
  function DeleteBranch(t: Table, like: Semantics, p: Path): (k: DeleteKind)
    ensures k == EmptyTrash <==> p == Trashbin
    ensures k.HardDelete? ==> IsEmpty(t, like, p) || IsAncestor(Trashbin, p)
    ensures k == SoftDelete <==> p != Trashbin && !IsEmpty(t, like, p) && !IsAncestor(Trashbin, p)
    ensures k.HardDelete? && !k.dir ==> IsAncestor(Trashbin, p) && !IsDirEntry(t, p)
  {
    if p == Trashbin then EmptyTrash
    else if IsEmpty(t, like, p) then HardDelete(true)
    else if IsAncestor(Trashbin, p) then HardDelete(IsDirEntry(t, p))
    else SoftDelete
  }

  /**
   * The catalog after a soft delete: the directory row for the trash location's parent, then every
   * row at or under `p` renamed into the trash location.
   */
  function Trashed(t: Table, like: Semantics, p: Path, trash: Path, env: Env): Table {
    var w := WithDir(t, Parent(trash), env.ids(0), env.ids(1), env.now);
    w.(files := MoveRows(w.files, like, p, trash, env.now).0)
  }

  lemma ValidRowsSubset(a: seq<FileRow>, b: seq<FileRow>)
    requires ValidRows(b) && forall r :: r in a ==> r in b
    ensures ValidRows(a)
  {
    forall i | 0 <= i < |a| ensures ValidPath(a[i].filename) {
      assert a[i] in a;
      var j :| 0 <= j < |b| && b[j] == a[i];
    }
  }

  /** Once the subtree at `p` is gone, `os.makedirs(p)` succeeds again: every proper prefix of `p` is still a directory. */
  lemma RemakeAfterPrune(nodes: map<Path, Node>, p: Path)
    requires Tree(nodes) && p in nodes && p != []
    ensures CanMakeDirs(Prune(nodes, p), p)
  {
    forall q | IsAncestor(q, p) && q in Prune(nodes, p) ensures Prune(nodes, p)[q] == Dir {
      AncestorsAreDirs(nodes, p, q);
    }
  }

  /** The index of the last `.` in `s`, or -1 when there is none. */
  function LastDot(s: string): (r: int)
    ensures -1 <= r < |s|
    ensures r >= 0 ==> s[r] == '.'
    ensures forall k :: r < k < |s| ==> s[k] != '.'
  {
    if s == [] then -1
    else if s[|s| - 1] == '.' then |s| - 1
    else LastDot(s[..|s| - 1])
  }

  /** pathlib's `suffix`: from the last `.` on, unless that dot opens or ends the name. */
  function Suffix(name: string): (x: string)
    ensures x == [] <==> LastDot(name) <= 0 || LastDot(name) == |name| - 1
    ensures x != [] ==> 2 <= |x| < |name| && x[0] == '.' && x == name[|name| - |x|..] && '.' !in x[1..]
  {
    var i := LastDot(name);
    if 0 < i < |name| - 1 then name[i..] else ""
  }

  /** The per-upload directory under the metadata root, named by the upload's id. */
  function MetadataDir(id: Uuid): Path {
    Metadata + [id]
  }

  /** The stable copy of an upload: `bin` and the target's suffix, inside the upload's metadata directory. */
  function BinPath(id: Uuid, p: Path): (bin: Path)
    requires p != []
    ensures Parent(bin) == MetadataDir(id) && IsAncestor(Metadata, bin)
  {
    MetadataDir(id) + ["bin" + Suffix(p[|p| - 1])]
  }

  /** The copy's name is a name pathlib can hold whenever the target's is. */
  lemma BinPathValid(id: Uuid, p: Path)
    requires ValidName(id) && ValidPath(p) && p != []
    ensures ValidPath(BinPath(id, p)) && ValidPath(MetadataDir(id))
  {
    var name := p[|p| - 1];
    var x := Suffix(name);
    assert ValidName(name);
    assert '/' !in x by {
      if x != [] {
        forall k | 0 <= k < |x| ensures x[k] != '/' {
          assert x[k] == name[|name| - |x| + k];
        }
      }
    }
    assert ("bin" + x)[0] == 'b';
  }

  /** The tasks an upload queues: `video_convert` for a video, then the classification tasks for an image. */
  function UploadTasks(id: Uuid, probe: Probe, classify: Uuid -> seq<TaskRow>, taskId: Uuid): seq<TaskRow> {
    (if probe.video then [TaskRow(taskId, "video_convert", id)] else []) + (if probe.image then classify(id) else [])
  }

  /**
   * What the background job will pick up from an upload's tasks is exactly one `video_convert`
   * task for the upload's id when the content is a video, and nothing otherwise; every other task
   * queued is a classification task, present iff the content is an image.
   */
  lemma UploadTasksSpec(id: Uuid, probe: Probe, classify: Uuid -> seq<TaskRow>, taskId: Uuid)
    requires forall t :: t in classify(id) ==> t.kind != "video_convert"
    ensures SlowTaskJob.VideoTasks(UploadTasks(id, probe, classify, taskId)) ==
      if probe.video then [TaskRow(taskId, "video_convert", id)] else []
    ensures forall t :: t in UploadTasks(id, probe, classify, taskId) && t.kind != "video_convert" <==> probe.image && t in classify(id)
  {
    var v: seq<TaskRow> := if probe.video then [TaskRow(taskId, "video_convert", id)] else [];
    var c := if probe.image then classify(id) else [];
    VideoTasksAppend(v, c);
    NoVideoTasks(c);
    if probe.video {
      assert v == [] + [v[0]];
    }
  }

  lemma {:induction false} VideoTasksAppend(a: seq<TaskRow>, b: seq<TaskRow>)
    ensures SlowTaskJob.VideoTasks(a + b) == SlowTaskJob.VideoTasks(a) + SlowTaskJob.VideoTasks(b)
    decreases |b|
  {
    if b == [] {
      assert a + b == a;
    } else {
      assert (a + b)[..|a + b| - 1] == a + b[..|b| - 1];
      VideoTasksAppend(a, b[..|b| - 1]);
    }
  }

  lemma NoVideoTasks(ts: seq<TaskRow>)
    requires forall t :: t in ts ==> t.kind != "video_convert"
    ensures SlowTaskJob.VideoTasks(ts) == []
  {
    if SlowTaskJob.VideoTasks(ts) != [] {
      assert SlowTaskJob.VideoTasks(ts)[0] in SlowTaskJob.VideoTasks(ts);
    }
  }

  /**
   * The catalog after a committed upload: a file row at `p` for metadata `ids(0)` and one at the
   * copy for a second metadata row, both describing the probed content, and the queued tasks.
   */
  function Uploaded(t: Table, p: Path, bin: Path, probe: Probe, classify: Uuid -> seq<TaskRow>, env: Env): Table {
    var m := MetadataRow(env.ids(0), false, probe.size, probe.video, probe.image, probe.mediaType, env.now);
    var mb := MetadataRow(env.ids(4), false, probe.size, probe.video, probe.image, probe.mediaType, env.now);
    Table(t.files + [FileRow(env.ids(3), env.ids(0), p, env.now), FileRow(env.ids(5), env.ids(4), bin, env.now)],
          t.metadata + [m, mb],
          t.tasks + UploadTasks(env.ids(0), probe, classify, env.ids(6)))
  }

  /** After a committed upload, `p` is listed as a file and its filenames gain exactly the target and the copy. */
  lemma UploadedEntry(t: Table, p: Path, bin: Path, probe: Probe, classify: Uuid -> seq<TaskRow>, env: Env)
    ensures IsFileEntry(Uploaded(t, p, bin, probe, classify, env), p) && Exists(Uploaded(t, p, bin, probe, classify, env), bin)
    ensures Names(Uploaded(t, p, bin, probe, classify, env).files) == Names(t.files) + {p, bin}
  {
    var u := Uploaded(t, p, bin, probe, classify, env);
    var rows := [FileRow(env.ids(3), env.ids(0), p, env.now), FileRow(env.ids(5), env.ids(4), bin, env.now)];
    assert u.files[|t.files|] == rows[0] && u.metadata[|t.metadata|].id == env.ids(0);
    assert IsFileRow(u, u.files[|t.files|]);
    NamesAppend(t.files, rows);
    assert Names(rows) == {p, bin} by {
      NamesAppend([rows[0]], [rows[1]]);
      NamesAppend([], [rows[0]]);
      NamesAppend([], [rows[1]]);
      assert [] + [rows[0]] == [rows[0]] && [] + [rows[1]] == [rows[1]] && [rows[0]] + [rows[1]] == rows;
    }
  }

  /** `open(p, "wb")` succeeds: `p` is not a directory and its parent is one. */
  predicate CanOpen(nodes: map<Path, Node>, p: Path) {
    !(p in nodes && nodes[p] == Dir) && Parent(p) in nodes && nodes[Parent(p)] == Dir
  }

  /** Both files of an upload, written chunk by chunk. */
  function Written(nodes: map<Path, Node>, p: Path, bin: Path, chunks: seq<seq<byte>>): map<Path, Node> {
    nodes[p := File(Flatten(chunks))][bin := File(Flatten(chunks))]
  }

  /**
   * Where an admitted upload writes: the target is neither the copy nor the upload's metadata
   * directory, and the copy does not exist once that directory has just been made.
   */
  lemma UploadPlaces(nodes: map<Path, Node>, p: Path, id: Uuid)
    requires Tree(nodes) && CanMakeDirs(nodes, MetadataDir(id)) && p != [] && !IsAncestor(Metadata, p)
    ensures p != BinPath(id, p) && p != MetadataDir(id)
    ensures BinPath(id, p) !in AddDirs(nodes, MetadataDir(id))
  {
    var bin := BinPath(id, p);
    assert IsAncestor(Metadata, MetadataDir(id));
    NothingUnderAbsent(nodes, MetadataDir(id));
    assert IsPrefix(MetadataDir(id), bin);
    assert bin !in Prefixes(MetadataDir(id));
  }

  /** The guard over two paths, neither of them the working directory, gets through its list. */
  lemma ClearTwo(nodes: map<Path, Node>, p: Path, q: Path)
    requires p != [] && q != []
    ensures ClearAll(nodes, [p, q]) == (Clear(Clear(nodes, p), q), true)
  {
    assert [p, q][..1] == [p];
    ClearOne(nodes, p);
  }

  /** Without a catalogue row of its own, the metadata root itself passes `upload`'s checks. */
  lemma UploadGateAdmitsMetadataRoot(t: Table)
    requires !Exists(t, Metadata)
    ensures UploadGate(t, Metadata).None?
  {
  }

  /** Writing both files again replaces what was written before. */
  lemma Overwrite(nodes: map<Path, Node>, p: Path, bin: Path, a: seq<byte>, b: seq<byte>)
    requires p != bin
    ensures var w := nodes[p := File(a)][bin := File(a)];
      w[p := File(b)][bin := File(b)] == nodes[p := File(b)][bin := File(b)]
  {
  }

  /** Appending one more chunk to both files gives the files written with that chunk. */
  lemma WrittenStep(chunks: seq<seq<byte>>, i: nat)
    requires i < |chunks|
    ensures Flatten(chunks[..i + 1]) == Flatten(chunks[..i]) + chunks[i]
  {
    assert chunks[..i + 1] == chunks[..i] + [chunks[i]];
    FlattenSnoc(chunks[..i], chunks[i]);
  }

  /** `upload` once its checks pass gets through every step: the metadata directory, the lock, opening the target, the commit. */
  predicate UploadSucceeds(nodes: map<Path, Node>, locked: bool, p: Path, id: Uuid, commitFails: bool) {
    CanMakeDirs(nodes, MetadataDir(id)) && !locked && CanOpen(AddDirs(nodes, MetadataDir(id)), p) && !commitFails
  }

  /**
   * The tree after `upload` once its checks pass, for each step that can fail: `makedirs` of the
   * metadata directory, the lock on `p` (the directory stays), opening the target (the guard
   * clears `p`), the commit (the guard clears both files).
   */
  function UploadDisk(nodes: map<Path, Node>, locked: bool, p: Path, id: Uuid, chunks: seq<seq<byte>>, commitFails: bool): map<Path, Node>
    requires p != []
  {
    var m := MetadataDir(id);
    if !CanMakeDirs(nodes, m) then nodes
    else WriteDisk(AddDirs(nodes, m), locked, p, BinPath(id, p), chunks, commitFails)
  }

  /** The tree after the write and catalog steps of `upload`, from the tree `d` they start on. */
  function WriteDisk(d: map<Path, Node>, locked: bool, p: Path, bin: Path, chunks: seq<seq<byte>>, commitFails: bool): map<Path, Node> {
    if locked then d
    else if !CanOpen(d, p) then Clear(d, p)
    else if commitFails then Clear(Clear(Written(d, p, bin, chunks), p), bin)
    else Written(d, p, bin, chunks)
  }

  /** A successful upload leaves the stream's bytes, in order, in both the target and the copy. */
  lemma UploadedContents(nodes: map<Path, Node>, p: Path, id: Uuid, chunks: seq<seq<byte>>)
    requires p != [] && p != BinPath(id, p) && UploadSucceeds(nodes, false, p, id, false)
    ensures var n := UploadDisk(nodes, false, p, id, chunks, false);
      p in n && n[p] == File(Flatten(chunks)) && BinPath(id, p) in n && n[BinPath(id, p)] == File(Flatten(chunks))
  {
  }

  /**
   * Once `makedirs` has made the upload's metadata directory, it stays whatever fails later,
   * unless the target is a prefix of the metadata root and the guard removes the tree holding it.
   */
  lemma MetadataDirLeaks(nodes: map<Path, Node>, locked: bool, p: Path, id: Uuid, chunks: seq<seq<byte>>, commitFails: bool)
    requires p != [] && CanMakeDirs(nodes, MetadataDir(id)) && !IsPrefix(p, Metadata) && !IsAncestor(Metadata, p)
    ensures var n := UploadDisk(nodes, locked, p, id, chunks, commitFails);
      MetadataDir(id) in n && n[MetadataDir(id)] == Dir
  {
    var m := MetadataDir(id);
    var bin := BinPath(id, p);
    var d := AddDirs(nodes, m);
    assert m in d && d[m] == Dir by { assert IsPrefix(m, m); }
    MetadataDirOutside(p, id);
    WriteDiskKeeps(d, locked, p, bin, chunks, commitFails, m);
  }

  /** A target outside the metadata root is not at or above an upload's metadata directory, and neither is its copy. */
  lemma MetadataDirOutside(p: Path, id: Uuid)
    requires p != [] && !IsPrefix(p, Metadata) && !IsAncestor(Metadata, p)
    ensures !IsPrefix(p, MetadataDir(id)) && !IsPrefix(BinPath(id, p), MetadataDir(id))
  {
    var m := MetadataDir(id);
    if |p| <= |Metadata| {
      assert m[..|p|] == Metadata[..|p|];
    } else if |p| <= |m| {
      assert m[..|p|][..|Metadata|] == Metadata;
    }
    assert |BinPath(id, p)| > |m|;
  }

  /** The write and catalog steps leave every entry outside the target and the copy as it was. */
  lemma WriteDiskKeeps(d: map<Path, Node>, locked: bool, p: Path, bin: Path, chunks: seq<seq<byte>>, commitFails: bool, q: Path)
    requires q in d && !IsPrefix(p, q) && !IsPrefix(bin, q)
    ensures var n := WriteDisk(d, locked, p, bin, chunks, commitFails); q in n && n[q] == d[q]
  {
    assert q != p && q != bin by { assert IsPrefix(q, q); }
  }

  /** An upload onto an existing directory fails at `open`, and the guard then removes that directory with its tree. */
  lemma UploadOverDirectory(nodes: map<Path, Node>, p: Path, id: Uuid, chunks: seq<seq<byte>>, commitFails: bool)
    requires Tree(nodes) && p != [] && p in nodes && nodes[p] == Dir && CanMakeDirs(nodes, MetadataDir(id))
    ensures !UploadSucceeds(nodes, false, p, id, commitFails)
    ensures p !in UploadDisk(nodes, false, p, id, chunks, commitFails)
  {
  }

  /** A request's view of the service: one catalog session, the file tree, and the lock table. */
  class FileService {
    const disk: Disk
    const cat: FileCatalog
    const locks: LockTable

    constructor (disk: Disk, cat: FileCatalog, locks: LockTable)
      ensures this.disk == disk && this.cat == cat && this.locks == locks
    {
      this.disk, this.cat, this.locks := disk, cat, locks;
    }

    /** Between requests: the tree is a tree, locks are distinct, and the session holds nothing uncommitted. */
    predicate Valid()
      reads this, disk, cat, locks
    {
      disk.Valid() && locks.Valid() && cat.View() == cat.saved && ValidRows(cat.saved.files)
    }

    // -------------------------------------------------------------------------------------------
    // mkdir

    /** The body `FileGuard(p)` wraps: `os.makedirs(p)`, the catalog's `mkdir(p)`, then commit. */
    method MkdirSteps(p: Path, env: Env) returns (failure: Option<Failure>)
      requires Valid() && ValidPath(p)
      modifies disk, cat
      ensures disk.Valid() && cat.View() == cat.saved && ValidRows(cat.saved.files)
      ensures failure.None? <==> old(CanMakeDirs(disk.nodes, p)) && !env.commitFails
      ensures disk.nodes == if old(CanMakeDirs(disk.nodes, p)) then AddDirs(old(disk.nodes), p) else old(disk.nodes)
      ensures cat.saved == if failure.None? then WithDir(old(cat.saved), p, env.ids(0), env.ids(1), env.now) else old(cat.saved)
    {
      var made := disk.MakeDirs(p);
      if made.Err? {
        return Some(FsFailure(made.error));
      }
      cat.Mkdir(p, env.ids(0), env.ids(1), env.now);
      var c := cat.Commit(env.commitFails);
      ValidRowsAppend(old(cat.saved.files), [FileRow(env.ids(1), env.ids(0), p, env.now)]);
      cat.Close();
      failure := if c.Err? then Some(CatalogFailure(c.error)) else None;
    }

    /**
     * `mkdir(p)`: after the checks, the directory is created on disk and in the catalog together,
     * and the commit makes both visible. When a step fails the guard removes whatever is at `p`,
     * including an uncatalogued entry that was there before.
     */
    method Mkdir(p: Path, env: Env) returns (reply: Reply)
      requires Valid() && ValidPath(p)
      modifies disk, cat
      ensures Valid()
      ensures MkdirGate(old(cat.saved), p).Some? ==>
        reply == Status(MkdirGate(old(cat.saved), p).value) && disk.nodes == old(disk.nodes) && cat.saved == old(cat.saved)
      ensures reply == Status(Ok200) <==> MkdirGate(old(cat.saved), p).None? && old(CanMakeDirs(disk.nodes, p)) && !env.commitFails
      ensures reply == Status(Ok200) ==>
        disk.nodes == AddDirs(old(disk.nodes), p) && cat.saved == WithDir(old(cat.saved), p, env.ids(0), env.ids(1), env.now)
      ensures reply == Status(Ok200) ==>
        disk.IsDir(p) && IsDirEntry(cat.saved, p) &&
        Names(cat.saved.files) == Names(old(cat.saved.files)) + {p} && disk.nodes.Keys == old(disk.nodes.Keys) + Prefixes(p)
      ensures reply.Raised? ==> cat.saved == old(cat.saved)
      ensures reply.Raised? ==>
        disk.nodes == Clear(if old(CanMakeDirs(disk.nodes, p)) then AddDirs(old(disk.nodes), p) else old(disk.nodes), p)
      ensures MkdirGate(old(cat.saved), p).None? && old(p in disk.nodes) ==> reply.Raised? && p !in disk.nodes
    {
      var gate := MkdirGate(cat.View(), p);
      if gate.Some? {
        return Status(gate.value);
      }
      ghost var before := disk.nodes;
      var guard := new FileGuard([p]);
      var failure := MkdirSteps(p, env);
      ghost var after := disk.nodes;
      ClearOne(after, p);
      var out := guard.Exit(disk, failure);
      reply := if out.Some? then Raised(out.value) else Status(Ok200);
      if reply == Status(Ok200) {
        WithDirEntry(old(cat.saved), p, env.ids(0), env.ids(1), env.now);
      }
      if reply.Raised? {
        assert p !in disk.nodes by {
          if p in after {
            PruneTree(after, p);
          }
        }
      }
    }

    // -------------------------------------------------------------------------------------------
    // move

    /**
     * The catalog half of `move` and of the soft delete, under `FileMoveGuard`: the catalog's
     * `move`, then commit; the session then closes.
     */
    method CatalogMove(src: Path, dst: Path, env: Env) returns (failure: Option<Failure>)
      modifies cat
      ensures cat.View() == cat.saved
      ensures failure.None? <==> MoveRows(old(cat.files), cat.like, src, dst, env.now).1 && !env.commitFails
      ensures cat.saved ==
        if failure.None? then old(cat.View()).(files := MoveRows(old(cat.files), cat.like, src, dst, env.now).0) else old(cat.saved)
    {
      var m := cat.Move(src, dst, env.now);
      if m.Err? {
        cat.Close();
        return Some(CatalogFailure(m.error));
      }
      var c := cat.Commit(env.commitFails);
      cat.Close();
      failure := if c.Err? then Some(CatalogFailure(c.error)) else None;
    }

    /**
     * The body of `move` inside both lock transactions: `shutil.move`, then the catalog half under
     * `FileMoveGuard`, which moves the tree back when the catalog half raises. Either both halves
     * take effect or neither does, except that parents of `dst` the tree move made stay.
     */
    method MoveSteps(src: Path, dst: Path, env: Env) returns (failure: Option<Failure>)
      requires Valid() && ValidPath(src) && ValidPath(dst)
      modifies disk, cat
      ensures disk.Valid() && cat.View() == cat.saved && ValidRows(cat.saved.files)
      ensures failure.None? <==>
        old(CanMove(disk.nodes, src, dst)) && MoveRows(old(cat.saved.files), cat.like, src, dst, env.now).1 && !env.commitFails
      ensures failure.None? ==>
        disk.nodes == MoveTree(old(disk.nodes), src, dst) &&
        cat.saved == old(cat.saved).(files := MoveRows(old(cat.saved.files), cat.like, src, dst, env.now).0)
      ensures failure.Some? ==> cat.saved == old(cat.saved)
      ensures failure.Some? ==>
        disk.nodes == if old(CanMove(disk.nodes, src, dst)) then AddDirs(old(disk.nodes), Parent(dst)) else old(disk.nodes)
      ensures failure.Some? && old(disk.IsDir(Parent(dst))) ==> disk.nodes == old(disk.nodes)
    {
      failure := MoveGuarded(src, dst, env);
      if failure.None? {
        MovedRowsValid(old(cat.saved.files), cat.like, src, dst, env.now);
      }
    }

    /**
     * `shutil.move(src, dst)`, then the catalog's `move` and commit under `FileMoveGuard(src, dst)`,
     * which moves the subtree back when they raise; the session then closes.
     */
    method MoveGuarded(src: Path, dst: Path, env: Env) returns (failure: Option<Failure>)
      requires disk.Valid() && ValidPath(src) && ValidPath(dst)
      modifies disk, cat
      ensures disk.Valid() && cat.View() == cat.saved
      ensures failure.None? <==>
        old(CanMove(disk.nodes, src, dst)) && MoveRows(old(cat.files), cat.like, src, dst, env.now).1 && !env.commitFails
      ensures failure.None? ==>
        disk.nodes == MoveTree(old(disk.nodes), src, dst) &&
        cat.saved == old(cat.View()).(files := MoveRows(old(cat.files), cat.like, src, dst, env.now).0)
      ensures failure.Some? ==> cat.saved == old(cat.saved)
      ensures failure.Some? ==>
        disk.nodes == if old(CanMove(disk.nodes, src, dst)) then AddDirs(old(disk.nodes), Parent(dst)) else old(disk.nodes)
      ensures failure.Some? && old(disk.IsDir(Parent(dst))) ==> disk.nodes == old(disk.nodes)
    {
      var moved := disk.Move(src, dst);
      if moved.Err? {
        cat.Close();
        return Some(FsFailure(moved.error));
      }
      MoveTreeRenames(old(disk.nodes), src, dst);
      MoveTreeBack(old(disk.nodes), src, dst);
      var guard := new FileMoveGuard(src, dst);
      var body := CatalogMove(src, dst, env);
      failure := guard.Exit(disk, body);
    }

    /** The inner `async with FileLockCRAD(dst)` of `move`, entered with the source's lock held. */
    method MoveUnderDst(src: Path, dst: Path, env: Env) returns (body: Option<Failure>)
      requires Valid() && ValidPath(src) && ValidPath(dst)
      modifies disk, cat, locks
      ensures Valid() && locks.held == old(locks.held)
      ensures body.None? <==>
        !old(IsLocked(locks.held, locks.like, dst)) &&
        old(CanMove(disk.nodes, src, dst)) && MoveRows(old(cat.saved.files), cat.like, src, dst, env.now).1 && !env.commitFails
      ensures body.None? ==>
        disk.nodes == MoveTree(old(disk.nodes), src, dst) &&
        cat.saved == old(cat.saved).(files := MoveRows(old(cat.saved.files), cat.like, src, dst, env.now).0)
      ensures body.Some? ==> cat.saved == old(cat.saved)
      ensures body.Some? ==>
        disk.nodes == if !old(IsLocked(locks.held, locks.like, dst)) && old(CanMove(disk.nodes, src, dst))
          then AddDirs(old(disk.nodes), Parent(dst)) else old(disk.nodes)
      ensures body.Some? && old(disk.IsDir(Parent(dst))) ==> disk.nodes == old(disk.nodes)
      ensures old(IsLocked(locks.held, locks.like, dst)) ==> body == Some(LockFailure(Locked(dst)))
    {
      var inner := new LockTransaction(dst);
      var e2 := inner.Enter(locks);
      if e2.Err? {
        return Some(LockFailure(e2.error));
      }
      LockRoundTrip(old(locks.held), locks.like, dst);
      var steps := MoveSteps(src, dst, env);
      var x2 := inner.Exit(locks);
      body := AfterExit(steps, x2);
    }

    /**
     * `move(src, dst)`: after the checks, the source's lock and then the destination's are taken,
     * the subtree moves on disk and in the catalog, and both locks are released. The tree and the
     * catalog end up renamed by the same mapping, or both unchanged.
     */
    method Move(src: Path, dst: Path, env: Env) returns (reply: Reply)
      requires Valid() && ValidPath(src) && ValidPath(dst)
      modifies disk, cat, locks
      ensures Valid() && locks.held == old(locks.held)
      ensures TransferGate(old(cat.saved), src, dst).Some? ==>
        reply == Status(TransferGate(old(cat.saved), src, dst).value) && disk.nodes == old(disk.nodes) && cat.saved == old(cat.saved)
      ensures reply == Status(Ok200) <==>
        TransferGate(old(cat.saved), src, dst).None? && old(LocksFree(locks.held, locks.like, src, dst)) &&
        old(CanMove(disk.nodes, src, dst)) && MoveRows(old(cat.saved.files), cat.like, src, dst, env.now).1 && !env.commitFails
      ensures reply == Status(Ok200) ==>
        disk.nodes == MoveTree(old(disk.nodes), src, dst) &&
        cat.saved == old(cat.saved).(files := MoveRows(old(cat.saved.files), cat.like, src, dst, env.now).0)
      ensures reply == Status(Ok200) && cat.like == Escaped ==>
        Names(cat.saved.files) == MoveSet(old(Names(cat.saved.files)), src, dst) &&
        disk.nodes.Keys == MoveSet(old(disk.nodes.Keys) + Prefixes(Parent(dst)), src, dst)
      ensures reply == Status(Ok200) && cat.like == Escaped && Parent(dst) !in old(Names(cat.saved.files)) ==>
        disk.IsDir(Parent(dst)) && Parent(dst) !in Names(cat.saved.files)
      ensures reply != Status(Ok200) ==> cat.saved == old(cat.saved)
      ensures reply != Status(Ok200) ==>
        disk.nodes == if TransferGate(old(cat.saved), src, dst).None? && old(LocksFree(locks.held, locks.like, src, dst)) &&
          old(CanMove(disk.nodes, src, dst)) then AddDirs(old(disk.nodes), Parent(dst)) else old(disk.nodes)
      ensures reply != Status(Ok200) && old(disk.IsDir(Parent(dst))) ==> disk.nodes == old(disk.nodes)
      ensures TransferGate(old(cat.saved), src, dst).None? && !old(LocksFree(locks.held, locks.like, src, dst)) ==>
        reply.Raised? && reply.failure.LockFailure?
    {
      var gate := TransferGate(cat.View(), src, dst);
      if gate.Some? {
        return Status(gate.value);
      }
      var outer := new LockTransaction(src);
      var e1 := outer.Enter(locks);
      if e1.Err? {
        return Raised(LockFailure(e1.error));
      }
      LockRoundTrip(old(locks.held), locks.like, src);
      var body := MoveUnderDst(src, dst, env);
      var x1 := outer.Exit(locks);
      reply := Answer(AfterExit(body, x1), Ok200);
      if reply == Status(Ok200) {
        MoveTreeRenames(old(disk.nodes), src, dst);
        if cat.like == Escaped {
          MoveExact(old(cat.saved.files), src, dst, env.now);
          assert !IsPrefix(dst, Parent(dst));
        }
      }
    }

    // -------------------------------------------------------------------------------------------
    // copy

    /** The body `FileGuard(dst)` wraps in `copy`: `shutil.copy2`, the catalog's `copy`, then commit; the session then closes. */
    method CopySteps(src: Path, dst: Path, env: Env) returns (failure: Option<Failure>)
      requires Valid() && ValidPath(dst)
      modifies disk, cat
      ensures disk.Valid() && cat.View() == cat.saved && ValidRows(cat.saved.files)
      ensures failure.None? <==>
        old(disk.IsFile(src) && !disk.IsDir(dst) && disk.IsDir(Parent(dst))) &&
        CopyRows(old(cat.saved.files), cat.like, src, dst, env.ids, env.now).1 && !env.commitFails
      ensures disk.nodes == if old(disk.IsFile(src) && !disk.IsDir(dst) && disk.IsDir(Parent(dst))) then old(disk.nodes)[dst := old(disk.nodes)[src]] else old(disk.nodes)
      ensures cat.saved == if failure.None? then old(cat.saved).(files := old(cat.saved.files) + CopyRows(old(cat.saved.files), cat.like, src, dst, env.ids, env.now).0) else old(cat.saved)
    {
      var copied := disk.Copy2(src, dst);
      if copied.Err? {
        return Some(FsFailure(copied.error));
      }
      var m := cat.Copy(src, dst, env.ids, env.now);
      if m.Err? {
        cat.Close();
        return Some(CatalogFailure(m.error));
      }
      var c := cat.Commit(env.commitFails);
      cat.Close();
      failure := if c.Err? then Some(CatalogFailure(c.error)) else None;
      if failure.None? {
        CopiedRowsValid(old(cat.saved.files), cat.like, src, dst, env.ids, env.now);
      }
    }

    /** The inner `async with FileLockCRAD(dst)` of `copy`, entered with the source's lock held. */
    method CopyUnderDst(src: Path, dst: Path, env: Env) returns (body: Option<Failure>)
      requires Valid() && ValidPath(src) && ValidPath(dst) && dst != []
      modifies disk, cat, locks
      ensures Valid() && locks.held == old(locks.held)
      ensures body.None? <==>
        !old(IsLocked(locks.held, locks.like, dst)) &&
        old(disk.IsFile(src) && !disk.IsDir(dst) && disk.IsDir(Parent(dst))) &&
        CopyRows(old(cat.saved.files), cat.like, src, dst, env.ids, env.now).1 && !env.commitFails
      ensures body.None? ==>
        disk.nodes == old(disk.nodes)[dst := old(disk.nodes)[src]] &&
        cat.saved == old(cat.saved).(files := old(cat.saved.files) + CopyRows(old(cat.saved.files), cat.like, src, dst, env.ids, env.now).0)
      ensures body.Some? ==> cat.saved == old(cat.saved)
      ensures body.Some? ==> disk.nodes == old(disk.nodes) || disk.nodes == Prune(old(disk.nodes), dst)
      ensures body.Some? && !old(IsLocked(locks.held, locks.like, dst)) ==> disk.nodes == Prune(old(disk.nodes), dst)
      ensures old(IsLocked(locks.held, locks.like, dst)) ==> body == Some(LockFailure(Locked(dst)))
    {
      var inner := new LockTransaction(dst);
      var e2 := inner.Enter(locks);
      if e2.Err? {
        return Some(LockFailure(e2.error));
      }
      LockRoundTrip(old(locks.held), locks.like, dst);
      var guarded := GuardedCopy(src, dst, env);
      var x2 := inner.Exit(locks);
      body := AfterExit(guarded, x2);
    }

    /**
     * `copy(src, dst)`: after the checks and both locks, the file is copied on disk and its rows
     * cloned in the catalog under `FileGuard(dst)`, which removes whatever is at `dst` when a step
     * raises. `shutil.copy2` refuses a directory, so copying a directory always raises.
     */
    method Copy(src: Path, dst: Path, env: Env) returns (reply: Reply)
      requires Valid() && ValidPath(src) && ValidPath(dst)
      modifies disk, cat, locks
      ensures Valid() && locks.held == old(locks.held)
      ensures TransferGate(old(cat.saved), src, dst).Some? ==>
        reply == Status(TransferGate(old(cat.saved), src, dst).value) && disk.nodes == old(disk.nodes) && cat.saved == old(cat.saved)
      ensures reply == Status(Ok200) <==>
        TransferGate(old(cat.saved), src, dst).None? && old(LocksFree(locks.held, locks.like, src, dst)) &&
        old(disk.IsFile(src) && !disk.IsDir(dst) && disk.IsDir(Parent(dst))) &&
        CopyRows(old(cat.saved.files), cat.like, src, dst, env.ids, env.now).1 && !env.commitFails
      ensures reply == Status(Ok200) ==>
        disk.nodes == old(disk.nodes)[dst := old(disk.nodes)[src]] &&
        cat.saved == old(cat.saved).(files := old(cat.saved.files) + CopyRows(old(cat.saved.files), cat.like, src, dst, env.ids, env.now).0)
      ensures reply == Status(Ok200) && cat.like == Escaped ==>
        Names(cat.saved.files) == old(Names(cat.saved.files)) + Image(old(Names(cat.saved.files)), src, dst) &&
        disk.nodes.Keys == old(disk.nodes.Keys) + {dst}
      ensures reply.Raised? ==> cat.saved == old(cat.saved)
      ensures reply.Raised? ==> disk.nodes == old(disk.nodes) || disk.nodes == Prune(old(disk.nodes), dst)
      ensures reply.Raised? && old(LocksFree(locks.held, locks.like, src, dst)) ==> disk.nodes == Prune(old(disk.nodes), dst)
      ensures old(disk.IsDir(src)) ==> reply != Status(Ok200)
    {
      var gate := TransferGate(cat.View(), src, dst);
      if gate.Some? {
        return Status(gate.value);
      }
      assert src != [] && dst != [];
      reply := CopyLocked(src, dst, env);
      if reply == Status(Ok200) && cat.like == Escaped {
        ghost var rows, nodes := old(cat.saved.files), old(disk.nodes);
        CopyExact(rows, src, dst, env.ids, env.now);
        UpdateKeys(nodes, dst, nodes[src]);
      }
    }

    /** `copy(src, dst)` once its checks have passed: both locks, then the guarded copy. */
    method CopyLocked(src: Path, dst: Path, env: Env) returns (reply: Reply)
      requires Valid() && ValidPath(src) && ValidPath(dst) && src != [] && dst != []
      modifies disk, cat, locks
      ensures Valid() && locks.held == old(locks.held)
      ensures reply.Raised? <==> reply != Status(Ok200)
      ensures reply == Status(Ok200) <==>
        old(LocksFree(locks.held, locks.like, src, dst)) &&
        old(disk.IsFile(src) && !disk.IsDir(dst) && disk.IsDir(Parent(dst))) &&
        CopyRows(old(cat.saved.files), cat.like, src, dst, env.ids, env.now).1 && !env.commitFails
      ensures reply == Status(Ok200) ==>
        disk.nodes == old(disk.nodes)[dst := old(disk.nodes)[src]] &&
        cat.saved == old(cat.saved).(files := old(cat.saved.files) + CopyRows(old(cat.saved.files), cat.like, src, dst, env.ids, env.now).0)
      ensures reply.Raised? ==> cat.saved == old(cat.saved)
      ensures reply.Raised? ==> disk.nodes == old(disk.nodes) || disk.nodes == Prune(old(disk.nodes), dst)
      ensures reply.Raised? && old(LocksFree(locks.held, locks.like, src, dst)) ==> disk.nodes == Prune(old(disk.nodes), dst)
    {
      var outer := new LockTransaction(src);
      var e1 := outer.Enter(locks);
      if e1.Err? {
        return Raised(LockFailure(e1.error));
      }
      LockRoundTrip(old(locks.held), locks.like, src);
      var body := CopyUnderDst(src, dst, env);
      var x1 := outer.Exit(locks);
      reply := Answer(AfterExit(body, x1), Ok200);
    }

    /** `FileGuard(dst)` around the copy: when a step raises, whatever is at `dst` goes. */
    method GuardedCopy(src: Path, dst: Path, env: Env) returns (failure: Option<Failure>)
      requires Valid() && ValidPath(dst) && dst != []
      modifies disk, cat
      ensures disk.Valid() && cat.View() == cat.saved && ValidRows(cat.saved.files)
      ensures failure.None? <==>
        old(disk.IsFile(src) && !disk.IsDir(dst) && disk.IsDir(Parent(dst))) &&
        CopyRows(old(cat.saved.files), cat.like, src, dst, env.ids, env.now).1 && !env.commitFails
      ensures failure.None? ==>
        disk.nodes == old(disk.nodes)[dst := old(disk.nodes)[src]] &&
        cat.saved == old(cat.saved).(files := old(cat.saved.files) + CopyRows(old(cat.saved.files), cat.like, src, dst, env.ids, env.now).0)
      ensures failure.Some? ==> cat.saved == old(cat.saved) && disk.nodes == Prune(old(disk.nodes), dst)
    {
      var guard := new FileGuard([dst]);
      failure := CopySteps(src, dst, env);
      ClearOne(disk.nodes, dst);
      PruneOverwrite(old(disk.nodes), dst, if src in old(disk.nodes) then old(disk.nodes)[src] else Dir);
      failure := guard.Exit(disk, failure);
    }

    // -------------------------------------------------------------------------------------------
    // delete

    /** Emptying the trash: the catalog's `empty(p)` and commit, then `shutil.rmtree(p)` and `os.makedirs(p)`. */
    method EmptyTrashSteps(p: Path, env: Env) returns (failure: Option<Failure>)
      requires Valid() && ValidPath(p) && p != []
      modifies disk, cat
      ensures disk.Valid() && cat.View() == cat.saved && ValidRows(cat.saved.files)
      ensures failure.None? <==> !env.commitFails && old(disk.IsDir(p))
      ensures cat.saved == if env.commitFails then old(cat.saved) else old(cat.saved).(files := EmptyRows(old(cat.saved.files), cat.like, p))
      ensures disk.nodes == if failure.None? then AddDirs(Prune(old(disk.nodes), p), p) else old(disk.nodes)
    {
      cat.Empty(p);
      var c := cat.Commit(env.commitFails);
      cat.Close();
      if c.Err? {
        return Some(CatalogFailure(c.error));
      }
      EmptyRowsMembers(old(cat.saved.files), cat.like, p);
      ValidRowsSubset(cat.saved.files, old(cat.saved.files));
      var removed := disk.RemoveTree(p);
      if removed.Err? {
        return Some(FsFailure(removed.error));
      }
      RemakeAfterPrune(old(disk.nodes), p);
      var made := disk.MakeDirs(p);
      failure := match made case Err(e) => Some(FsFailure(e)) case Ok(_) => None;
    }

    /** Removing outright: the catalog's `delete(p)` and commit, then `shutil.rmtree(p)` for a directory or `os.remove(p)`. */
    method HardDeleteSteps(p: Path, dir: bool, env: Env) returns (failure: Option<Failure>)
      requires Valid() && p != []
      modifies disk, cat
      ensures disk.Valid() && cat.View() == cat.saved && ValidRows(cat.saved.files)
      ensures failure.None? <==> !env.commitFails && (if dir then old(disk.IsDir(p)) else old(disk.IsFile(p)))
      ensures cat.saved == if env.commitFails then old(cat.saved) else old(cat.saved).(files := DeleteRows(old(cat.saved.files), cat.like, p))
      ensures disk.nodes == if failure.None? then Prune(old(disk.nodes), p) else old(disk.nodes)
    {
      cat.Delete(p);
      var c := cat.Commit(env.commitFails);
      cat.Close();
      if c.Err? {
        return Some(CatalogFailure(c.error));
      }
      DeleteRowsMembers(old(cat.saved.files), cat.like, p);
      ValidRowsSubset(cat.saved.files, old(cat.saved.files));
      var r: Result<(), FsError>;
      if dir {
        r := disk.RemoveTree(p);
      } else {
        r := disk.Remove(p);
      }
      failure := match r case Err(e) => Some(FsFailure(e)) case Ok(_) => None;
    }

    /**
     * Moving to the trash: `os.makedirs` of the trash location's parent and its directory row, then
     * `shutil.move(p, trash)`, then the catalog's `move` and commit under `FileMoveGuard(p, trash)`.
     */
    method SoftDeleteSteps(p: Path, trash: Path, env: Env) returns (failure: Option<Failure>)
      requires Valid() && ValidPath(p) && ValidPath(trash) && trash != []
      modifies disk, cat
      ensures disk.Valid() && cat.View() == cat.saved && ValidRows(cat.saved.files)
      ensures failure.None? <==>
        old(CanMakeDirs(disk.nodes, Parent(trash))) && CanMove(AddDirs(old(disk.nodes), Parent(trash)), p, trash) &&
        MoveRows(WithDir(old(cat.saved), Parent(trash), env.ids(0), env.ids(1), env.now).files, cat.like, p, trash, env.now).1 &&
        !env.commitFails
      ensures failure.None? ==>
        disk.nodes == Relocate(AddDirs(old(disk.nodes), Parent(trash)), p, trash) &&
        cat.saved == Trashed(old(cat.saved), cat.like, p, trash, env)
      ensures failure.Some? ==> cat.saved == old(cat.saved)
      ensures failure.Some? ==> disk.nodes == old(disk.nodes) || disk.nodes == AddDirs(old(disk.nodes), Parent(trash))
    {
      var parent := Parent(trash);
      var made := disk.MakeDirs(parent);
      if made.Err? {
        return Some(FsFailure(made.error));
      }
      assert IsPrefix(parent, parent);
      AddDirsPresent(disk.nodes, parent);
      cat.Mkdir(parent, env.ids(0), env.ids(1), env.now);
      ghost var w := WithDir(old(cat.saved), parent, env.ids(0), env.ids(1), env.now);
      assert cat.View() == w;
      failure := MoveGuarded(p, trash, env);
      if failure.None? {
        ValidRowsAppend(old(cat.saved.files), [FileRow(env.ids(1), env.ids(0), parent, env.now)]);
        MovedRowsValid(w.files, cat.like, p, trash, env.now);
      }
    }

    /** The body of `delete` under the lock: the branch `DeleteBranch` picks. */
    method DeleteBody(p: Path, trash: Path, env: Env) returns (body: Option<Failure>)
      requires Valid() && ValidPath(p) && ValidPath(trash) && IsAncestor(Trashbin, trash) && p != []
      modifies disk, cat
      ensures disk.Valid() && cat.View() == cat.saved && ValidRows(cat.saved.files)
      ensures body.None? && DeleteBranch(old(cat.saved), cat.like, p) == EmptyTrash ==>
        cat.saved == old(cat.saved).(files := EmptyRows(old(cat.saved.files), cat.like, p)) &&
        disk.nodes == AddDirs(Prune(old(disk.nodes), p), p)
      ensures body.None? && DeleteBranch(old(cat.saved), cat.like, p).HardDelete? ==>
        cat.saved == old(cat.saved).(files := DeleteRows(old(cat.saved.files), cat.like, p)) &&
        disk.nodes == Prune(old(disk.nodes), p)
      ensures body.None? && DeleteBranch(old(cat.saved), cat.like, p) == SoftDelete ==>
        cat.saved == Trashed(old(cat.saved), cat.like, p, trash, env) &&
        disk.nodes == Relocate(AddDirs(old(disk.nodes), Parent(trash)), p, trash)
      ensures body.Some? && DeleteBranch(old(cat.saved), cat.like, p) != SoftDelete ==> disk.nodes == old(disk.nodes)
      ensures body.Some? && DeleteBranch(old(cat.saved), cat.like, p) == SoftDelete ==> cat.saved == old(cat.saved)
      ensures body.Some? && env.commitFails ==> cat.saved == old(cat.saved)
      ensures !env.commitFails && DeleteBranch(old(cat.saved), cat.like, p) == EmptyTrash ==>
        cat.saved == old(cat.saved).(files := EmptyRows(old(cat.saved.files), cat.like, p))
      ensures !env.commitFails && DeleteBranch(old(cat.saved), cat.like, p).HardDelete? ==>
        cat.saved == old(cat.saved).(files := DeleteRows(old(cat.saved.files), cat.like, p))
    {
      var kind := DeleteBranch(cat.View(), cat.like, p);
      match kind {
        case EmptyTrash => body := EmptyTrashSteps(p, env);
        case HardDelete(dir) => body := HardDeleteSteps(p, dir, env);
        case SoftDelete => body := SoftDeleteSteps(p, trash, env);
      }
    }

    /**
     * `delete(p)`: after the checks and under the lock on `p`, the branch `DeleteBranch` picks.
     * `trash` is what `get_trashbin_from_data` returns, a path strictly under the trash root.
     * A hard delete commits the catalog before it touches the tree, so a failing `rmtree` or
     * `remove` leaves the rows gone and the tree as it was.
     */
    method Delete(p: Path, trash: Path, env: Env) returns (reply: Reply)
      requires Valid() && ValidPath(p) && ValidPath(trash) && IsAncestor(Trashbin, trash)
      modifies disk, cat, locks
      ensures Valid() && locks.held == old(locks.held)
      ensures DeleteGate(old(cat.saved), p).Some? ==>
        reply == Status(DeleteGate(old(cat.saved), p).value) && disk.nodes == old(disk.nodes) && cat.saved == old(cat.saved)
      ensures DeleteGate(old(cat.saved), p).None? && old(IsLocked(locks.held, locks.like, p)) ==>
        reply == Raised(LockFailure(Locked(p))) && disk.nodes == old(disk.nodes) && cat.saved == old(cat.saved)
      ensures reply == Status(Ok200) ==> DeleteGate(old(cat.saved), p).None? && !old(IsLocked(locks.held, locks.like, p))
      ensures reply == Status(Ok200) && DeleteBranch(old(cat.saved), cat.like, p) == EmptyTrash ==>
        cat.saved == old(cat.saved).(files := EmptyRows(old(cat.saved.files), cat.like, p)) &&
        disk.nodes == AddDirs(Prune(old(disk.nodes), p), p)
      ensures reply == Status(Ok200) && DeleteBranch(old(cat.saved), cat.like, p).HardDelete? ==>
        cat.saved == old(cat.saved).(files := DeleteRows(old(cat.saved.files), cat.like, p)) &&
        disk.nodes == Prune(old(disk.nodes), p)
      ensures reply == Status(Ok200) && DeleteBranch(old(cat.saved), cat.like, p) == SoftDelete ==>
        cat.saved == Trashed(old(cat.saved), cat.like, p, trash, env) &&
        disk.nodes == Relocate(AddDirs(old(disk.nodes), Parent(trash)), p, trash)
      ensures reply.Raised? && DeleteBranch(old(cat.saved), cat.like, p) != SoftDelete ==> disk.nodes == old(disk.nodes)
      ensures reply.Raised? && DeleteBranch(old(cat.saved), cat.like, p) == SoftDelete ==> cat.saved == old(cat.saved)
      ensures reply.Raised? && env.commitFails ==> cat.saved == old(cat.saved)
      ensures (DeleteGate(old(cat.saved), p).None? && !old(IsLocked(locks.held, locks.like, p)) && !env.commitFails &&
        DeleteBranch(old(cat.saved), cat.like, p) == EmptyTrash) ==>
        cat.saved == old(cat.saved).(files := EmptyRows(old(cat.saved.files), cat.like, p))
      ensures (DeleteGate(old(cat.saved), p).None? && !old(IsLocked(locks.held, locks.like, p)) && !env.commitFails &&
        DeleteBranch(old(cat.saved), cat.like, p).HardDelete?) ==>
        cat.saved == old(cat.saved).(files := DeleteRows(old(cat.saved.files), cat.like, p))
    {
      var gate := DeleteGate(cat.View(), p);
      if gate.Some? {
        return Status(gate.value);
      }
      var tx := new LockTransaction(p);
      var e := tx.Enter(locks);
      if e.Err? {
        return Raised(LockFailure(e.error));
      }
      LockRoundTrip(old(locks.held), locks.like, p);
      var body := DeleteBody(p, trash, env);
      var x := tx.Exit(locks);
      reply := Answer(AfterExit(body, x), Ok200);
    }

    // -------------------------------------------------------------------------------------------
    // upload

    /** The `async for` loop of `upload`: each chunk goes to the target and then to the copy. */
    method WriteBoth(p: Path, bin: Path, chunks: seq<seq<byte>>)
      requires disk.Valid() && p != bin && disk.IsFile(p) && disk.IsFile(bin)
      requires disk.nodes[p] == File([]) && disk.nodes[bin] == File([])
      modifies disk
      ensures disk.Valid()
      ensures disk.nodes == Written(old(disk.nodes), p, bin, chunks)
    {
      var d, i := disk, 0;
      ghost var data: seq<byte> := [];
      while i < |chunks|
        invariant 0 <= i <= |chunks|
        invariant data == Flatten(chunks[..i])
        invariant d.nodes == old(d.nodes)[p := File(data)][bin := File(data)]
      {
        WrittenStep(chunks, i);
        Overwrite(old(d.nodes), p, bin, data, data + chunks[i]);
        d.Append(p, chunks[i]);
        d.Append(bin, chunks[i]);
        data := data + chunks[i];
        i := i + 1;
      }
      assert chunks[..i] == chunks;
      RewriteTree(old(d.nodes), p, data);
      RewriteTree(old(d.nodes)[p := File(data)], bin, data);
    }

    /**
     * The write phase of `upload`: `open(p, "wb")`, `open(bin, "wb")`, then the chunks. The copy
     * lives in a directory made for this upload, so only opening the target can fail.
     */
    method WriteSteps(p: Path, bin: Path, chunks: seq<seq<byte>>) returns (failure: Option<Failure>)
      requires disk.Valid() && ValidPath(p) && ValidPath(bin) && p != bin && p != Parent(bin)
      requires disk.IsDir(Parent(bin)) && bin !in disk.nodes
      modifies disk
      ensures disk.Valid()
      ensures failure.None? <==> old(!disk.IsDir(p) && disk.IsDir(Parent(p)))
      ensures disk.nodes == if failure.None? then Written(old(disk.nodes), p, bin, chunks) else old(disk.nodes)
    {
      ghost var start := disk.nodes;
      var f := disk.Create(p);
      if f.Err? {
        return Some(FsFailure(f.error));
      }
      var g := disk.Create(bin);
      assert g.Ok? && disk.nodes == start[p := File([])][bin := File([])];
      WriteBoth(p, bin, chunks);
      assert disk.nodes == Written(start, p, bin, chunks) by {
        Overwrite(start, p, bin, [], Flatten(chunks));
      }
      return None;
    }

    /**
     * The catalog phase of `upload`: `put` for the target and for the copy, the tasks the probe
     * calls for, then commit; the session then closes.
     */
    method CatalogUpload(p: Path, bin: Path, probe: Probe, classify: Uuid -> seq<TaskRow>, env: Env) returns (failure: Option<Failure>)
      modifies cat
      ensures cat.View() == cat.saved
      ensures failure.None? <==> !env.commitFails
      ensures cat.saved == if failure.None? then Uploaded(old(cat.View()), p, bin, probe, classify, env) else old(cat.saved)
    {
      ghost var t := cat.View();
      var model := cat.Put(p, env.ids(0), env.ids(3), probe, env.now);
      var _ := cat.Put(bin, env.ids(4), env.ids(5), probe, env.now);
      assert cat.files == t.files + [FileRow(env.ids(3), env.ids(0), p, env.now), FileRow(env.ids(5), env.ids(4), bin, env.now)];
      assert cat.metadata == Uploaded(t, p, bin, probe, classify, env).metadata;
      ghost var queued := cat.tasks;
      if model.video {
        cat.AddTask(TaskRow(env.ids(6), "video_convert", model.id));
      }
      if model.image {
        cat.AddAll(classify(model.id));
      }
      assert cat.tasks == queued + UploadTasks(env.ids(0), probe, classify, env.ids(6));
      assert cat.View() == Uploaded(t, p, bin, probe, classify, env);
      var c := cat.Commit(env.commitFails);
      cat.Close();
      failure := if c.Err? then Some(CatalogFailure(c.error)) else None;
    }

    /** The locked part of `upload`: the write phase inside the lock on `p` and a guard over the target and the copy. */
    method LockedWrite(p: Path, bin: Path, chunks: seq<seq<byte>>) returns (failure: Option<Failure>)
      requires disk.Valid() && locks.Valid() && ValidPath(p) && ValidPath(bin) && p != [] && bin != []
      requires p != bin && p != Parent(bin) && disk.IsDir(Parent(bin)) && bin !in disk.nodes
      modifies disk, locks
      ensures disk.Valid() && locks.Valid() && locks.held == old(locks.held)
      ensures failure.None? <==> old(!IsLocked(locks.held, locks.like, p)) && CanOpen(old(disk.nodes), p)
      ensures disk.nodes ==
        if failure.None? then Written(old(disk.nodes), p, bin, chunks)
        else if old(IsLocked(locks.held, locks.like, p)) then old(disk.nodes)
        else Clear(old(disk.nodes), p)
    {
      var tx := new LockTransaction(p);
      var e := tx.Enter(locks);
      if e.Err? {
        return Some(LockFailure(e.error));
      }
      LockRoundTrip(old(locks.held), locks.like, p);
      var guard := new FileGuard([p, bin]);
      var w := WriteSteps(p, bin, chunks);
      ClearTwo(old(disk.nodes), p, bin);
      assert bin !in Clear(old(disk.nodes), p);
      var g := guard.Exit(disk, w);
      var x := tx.Exit(locks);
      failure := AfterExit(g, x);
    }

    /** The last part of `upload`: the catalog phase inside a guard over the target and the copy. */
    method GuardedCatalog(p: Path, bin: Path, probe: Probe, classify: Uuid -> seq<TaskRow>, env: Env) returns (failure: Option<Failure>)
      requires disk.Valid() && p != [] && bin != []
      modifies disk, cat
      ensures disk.Valid() && cat.View() == cat.saved
      ensures failure.None? <==> !env.commitFails
      ensures cat.saved == if failure.None? then Uploaded(old(cat.View()), p, bin, probe, classify, env) else old(cat.saved)
      ensures disk.nodes == if failure.None? then old(disk.nodes) else Clear(Clear(old(disk.nodes), p), bin)
    {
      ClearTwo(disk.nodes, p, bin);
      var guard := new FileGuard([p, bin]);
      var c := CatalogUpload(p, bin, probe, classify, env);
      failure := guard.Exit(disk, c);
    }

    /** `os.makedirs` of the upload's metadata directory, and its directory row in the session. */
    method PrepareUpload(metadata: Path, env: Env) returns (failure: Option<Failure>)
      requires Valid() && ValidPath(metadata)
      modifies disk, cat
      ensures disk.Valid() && cat.saved == old(cat.saved) && ValidRows(cat.files)
      ensures failure.None? <==> old(CanMakeDirs(disk.nodes, metadata))
      ensures failure.None? ==> disk.nodes == AddDirs(old(disk.nodes), metadata) && cat.View() == WithDir(old(cat.saved), metadata, env.ids(1), env.ids(2), env.now)
      ensures failure.Some? ==> disk.nodes == old(disk.nodes) && cat.View() == old(cat.View())
    {
      var made := disk.MakeDirs(metadata);
      if made.Err? {
        return Some(FsFailure(made.error));
      }
      cat.Mkdir(metadata, env.ids(1), env.ids(2), env.now);
      ValidRowsAppend(old(cat.saved.files), [FileRow(env.ids(2), env.ids(1), metadata, env.now)]);
      return None;
    }

    /** `upload` after its checks: the steps in order, each failure ending the request with the session closed. */
    method UploadSteps(p: Path, chunks: seq<seq<byte>>, probe: Probe, classify: Uuid -> seq<TaskRow>, env: Env) returns (failure: Option<Failure>)
      requires Valid() && ValidPath(p) && ValidName(env.ids(0)) && p != [] && !IsAncestor(Metadata, p)
      modifies disk, cat, locks
      ensures Valid() && locks.held == old(locks.held)
      ensures failure.None? <==> UploadSucceeds(old(disk.nodes), old(IsLocked(locks.held, locks.like, p)), p, env.ids(0), env.commitFails)
      ensures disk.nodes == UploadDisk(old(disk.nodes), old(IsLocked(locks.held, locks.like, p)), p, env.ids(0), chunks, env.commitFails)
      ensures cat.saved ==
        if failure.None? then Uploaded(WithDir(old(cat.saved), MetadataDir(env.ids(0)), env.ids(1), env.ids(2), env.now), p, BinPath(env.ids(0), p), probe, classify, env)
        else old(cat.saved)
    {
      var metadata := MetadataDir(env.ids(0));
      var bin := BinPath(env.ids(0), p);
      BinPathValid(env.ids(0), p);
      failure := PrepareUpload(metadata, env);
      if failure.Some? {
        return;
      }
      UploadPlaces(old(disk.nodes), p, env.ids(0));
      failure := WriteAndRecord(p, bin, chunks, probe, classify, env);
    }

    /**
     * `upload` once its metadata directory is made: the locked write, then the rows under the
     * guard; a failed write closes the session, which drops the directory row.
     */
    method WriteAndRecord(p: Path, bin: Path, chunks: seq<seq<byte>>, probe: Probe, classify: Uuid -> seq<TaskRow>, env: Env) returns (failure: Option<Failure>)
      requires disk.Valid() && locks.Valid() && ValidRows(cat.files) && ValidPath(p) && ValidPath(bin) && p != [] && bin != []
      requires p != bin && p != Parent(bin) && disk.IsDir(Parent(bin)) && bin !in disk.nodes
      modifies disk, cat, locks
      ensures disk.Valid() && locks.Valid() && locks.held == old(locks.held) && cat.View() == cat.saved
      ensures failure.None? <==> old(!IsLocked(locks.held, locks.like, p)) && CanOpen(old(disk.nodes), p) && !env.commitFails
      ensures disk.nodes == WriteDisk(old(disk.nodes), old(IsLocked(locks.held, locks.like, p)), p, bin, chunks, env.commitFails)
      ensures cat.saved == if failure.None? then Uploaded(old(cat.View()), p, bin, probe, classify, env) else old(cat.saved)
      ensures failure.None? ==> ValidRows(cat.saved.files)
    {
      ghost var w := cat.View();
      failure := LockedWrite(p, bin, chunks);
      if failure.Some? {
        cat.Close();
        return;
      }
      failure := GuardedCatalog(p, bin, probe, classify, env);
      if failure.None? {
        ValidRowsAppend(w.files, [FileRow(env.ids(3), env.ids(0), p, env.now), FileRow(env.ids(5), env.ids(4), bin, env.now)]);
      }
    }

    /**
     * `upload(p, stream)`: after the checks, the upload's metadata directory is made on disk and
     * in the session; under the lock on `p` and a guard over the target and the copy, every chunk
     * is written to both; then, under the guard again, the rows and tasks are added and committed.
     * `ids(0)` is the upload's id, `chunks` the stream, `probe` what the metadata probe reports
     * and `classify` the classification tasks for an id. A failure after `makedirs` leaves the
     * metadata directory on disk.
     */
    method Upload(p: Path, chunks: seq<seq<byte>>, probe: Probe, classify: Uuid -> seq<TaskRow>, env: Env) returns (reply: Reply)
      requires Valid() && ValidPath(p) && ValidName(env.ids(0))
      modifies disk, cat, locks
      ensures Valid() && locks.held == old(locks.held)
      ensures UploadGate(old(cat.saved), p).Some? ==>
        reply == Status(UploadGate(old(cat.saved), p).value) && disk.nodes == old(disk.nodes) && cat.saved == old(cat.saved)
      ensures reply.Raised? ==> cat.saved == old(cat.saved)
      ensures reply == Status(Created201) <==>
        UploadGate(old(cat.saved), p).None? && UploadSucceeds(old(disk.nodes), old(IsLocked(locks.held, locks.like, p)), p, env.ids(0), env.commitFails)
      ensures UploadGate(old(cat.saved), p).None? ==>
        disk.nodes == UploadDisk(old(disk.nodes), old(IsLocked(locks.held, locks.like, p)), p, env.ids(0), chunks, env.commitFails)
      ensures reply == Status(Created201) ==>
        cat.saved == Uploaded(WithDir(old(cat.saved), MetadataDir(env.ids(0)), env.ids(1), env.ids(2), env.now), p, BinPath(env.ids(0), p), probe, classify, env)
      ensures reply == Status(Created201) ==>
        disk.nodes[p] == File(Flatten(chunks)) && disk.nodes[BinPath(env.ids(0), p)] == File(Flatten(chunks)) &&
        IsFileEntry(cat.saved, p) && UploadGate(cat.saved, p) == Some(Conflict409)
    {
      var gate := UploadGate(cat.View(), p);
      if gate.Some? {
        return Status(gate.value);
      }
      var failure := UploadSteps(p, chunks, probe, classify, env);
      reply := Answer(failure, Created201);
      if failure.None? {
        UploadPlaces(old(disk.nodes), p, env.ids(0));
        UploadedContents(old(disk.nodes), p, env.ids(0), chunks);
        UploadedEntry(WithDir(old(cat.saved), MetadataDir(env.ids(0)), env.ids(1), env.ids(2), env.now), p, BinPath(env.ids(0), p), probe, classify, env);
      }
    }
  }
}
