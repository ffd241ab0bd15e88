/**
 * The path-lock table and the guards of file_lock_crad.py. `FileLockTransaction` takes a lock in its
 * own session (check, insert, commit) and releases the exact row on exit; `FileGuard` and
 * `FileMoveGuard` undo steps on the file tree when the body they wrap raises.
 */
module Locks {
  import opened Wrappers
  import opened Paths
  import opened LikeOperator
  import opened Sql
  import opened Storage
  import opened Catalog

  datatype LockError = Locked(file: Path) | NotExactlyOne(found: nat)

  /** What an `async with` body can raise, as far as the model follows it. */
  datatype Failure =
    | FsFailure(fs: FsError)
    | CatalogFailure(catalog: CatalogError)
    | LockFailure(lock: LockError)
    | ValueFailure            // `ValueError`: `int()` of a non-number, or unpacking the wrong number of parts
    | IndexFailure            // `IndexError`: a `Range` value without '='
    | AttributeFailure        // `AttributeError`: `getfile` found no metadata
    | NotImplementedFailure   // `get_dir` and `get_file` are abstract in `FileService`

  /** `is_lock(p)`: the descendant filter for `p` selects some lock row. */
  predicate IsLocked(held: seq<Path>, like: Semantics, p: Path) {
    exists i :: 0 <= i < |held| && SubtreeQuery(like, held[i], p)
  }

  /** With `ESCAPE '\'`, `is_lock(p)` holds iff some lock is on `p` or on a path under it. */
  lemma IsLockedExact(held: seq<Path>, p: Path)
    requires forall i :: 0 <= i < |held| ==> ValidPath(held[i])
    requires ValidPath(p) && p != []
    ensures IsLocked(held, Escaped, p) <==> exists i :: 0 <= i < |held| && IsPrefix(p, held[i])
  {
    forall i | 0 <= i < |held| ensures SubtreeQuery(Escaped, held[i], p) <==> IsPrefix(p, held[i]) {
      SubtreeQueryExact(held[i], p);
    }
  }

  /** A lock held on a proper ancestor of `p` does not make `p` locked. */
  lemma AncestorLockUndetected(a: Path, p: Path)
    requires ValidPath(a) && ValidPath(p) && a != [] && IsAncestor(a, p)
    ensures !IsLocked([a], Escaped, p)
  {
    IsLockedExact([a], p);
  }

  /** The number of lock rows whose filename is exactly `p`. */
  function Count(held: seq<Path>, p: Path): (n: nat)
    ensures n == 0 <==> p !in held
    ensures n <= |held|
  {
    if held == [] then 0 else (if held[0] == p then 1 else 0) + Count(held[1..], p)
  }

  /** The lock rows other than those on exactly `p`, in order. */
  function Without(held: seq<Path>, p: Path): (r: seq<Path>)
    ensures forall q :: q in r <==> q in held && q != p
    ensures |r| == |held| - Count(held, p)
  {
    if held == [] then [] else (if held[0] == p then [] else [held[0]]) + Without(held[1..], p)
  }

  lemma {:induction false} CountAppend(held: seq<Path>, p: Path, q: Path)
    ensures Count(held + [q], p) == Count(held, p) + (if q == p then 1 else 0)
    decreases |held|
  {
    if held == [] {
      assert held + [q] == [q];
    } else {
      assert (held + [q])[1..] == held[1..] + [q];
      CountAppend(held[1..], p, q);
    }
  }

  lemma {:induction false} WithoutAppend(held: seq<Path>, p: Path)
    requires p !in held
    ensures Without(held + [p], p) == held
    decreases |held|
  {
    if held == [] {
      assert held + [p] == [p];
    } else {
      assert Without(held + [p], p) == [held[0]] + Without(held[1..] + [p], p) by {
        assert (held + [p])[0] == held[0] != p;
        assert (held + [p])[1..] == held[1..] + [p];
      }
      WithoutAppend(held[1..], p);
      assert held == [held[0]] + held[1..];
    }
  }

  /** No two lock rows share a filename. */
  predicate Distinct(held: seq<Path>) {
    forall i, j :: 0 <= i < j < |held| ==> held[i] != held[j]
  }

  /** In distinct rows, a present path occurs exactly once. */
  lemma {:induction false} CountDistinct(held: seq<Path>, p: Path)
    requires Distinct(held)
    ensures Count(held, p) == if p in held then 1 else 0
    decreases |held|
  {
    if held != [] {
      CountDistinct(held[1..], p);
      assert held[0] == p ==> p !in held[1..];
    }
  }

  lemma {:induction false} WithoutDistinct(held: seq<Path>, p: Path)
    requires Distinct(held)
    ensures Distinct(Without(held, p))
    decreases |held|
  {
    if held != [] {
      WithoutDistinct(held[1..], p);
      assert held[0] !in held[1..];
    }
  }

  /**
   * Taking the lock on `p` when `is_lock(p)` is false, then releasing it, finds exactly one row
   * to delete and leaves the table as it was; the rows stay pairwise distinct throughout.
   */
  lemma LockRoundTrip(held: seq<Path>, like: Semantics, p: Path)
    requires Distinct(held) && !IsLocked(held, like, p)
    ensures Distinct(held + [p])
    ensures Count(held + [p], p) == 1
    ensures Without(held + [p], p) == held
  {
    assert p !in held by {
      forall i | 0 <= i < |held| ensures held[i] != p {
        assert !SubtreeQuery(like, held[i], p);
      }
    }
    CountAppend(held, p, p);
    WithoutAppend(held, p);
  }

  /** The `file_lock` table, changed only through the sessions of `LockTransaction`. */
  class LockTable {
    var held: seq<Path>
    const like: Semantics

    predicate Valid()
      reads this
    {
      Distinct(held)
    }

    constructor (like: Semantics)
      ensures this.like == like && held == [] && Valid()
    {
      this.like := like;
      held := [];
    }
  }

  /** `FileLockTransaction(engine, file)` */
  class LockTransaction {
    const file: Path
    var entered: bool
    var closed: bool

    constructor (file: Path)
      ensures this.file == file && !entered && !closed
    {
      this.file := file;
      entered, closed := false, false;
    }

    /**
     * `__aenter__`: raises `FileLockCRADError` when `is_lock(file)` holds, and otherwise adds one row
     * for `file` and commits it. A raising entry leaves its session open.
     */
    method Enter(table: LockTable) returns (r: Result<(), LockError>)
      requires table.Valid()
      modifies this, table
      ensures table.Valid()
      ensures r.Err? <==> old(IsLocked(table.held, table.like, file))
      ensures r.Err? ==> r.error == Locked(file) && table.held == old(table.held)
      ensures r.Ok? ==> table.held == old(table.held) + [file]
      ensures entered && closed == old(closed)
    {
      entered := true;
      if IsLocked(table.held, table.like, file) {
        return Err(Locked(file));
      }
      LockRoundTrip(table.held, table.like, file);
      table.held := table.held + [file];
      return Ok(());
    }

    /**
     * `__aexit__`: `unlock` finds the rows equal to `file` and deletes the one row (raising unless
     * there is exactly one), commits, and closes the session whatever happened.
     */
    method Exit(table: LockTable) returns (r: Result<(), LockError>)
      requires table.Valid()
      modifies this, table
      ensures table.Valid()
      ensures r.Ok? <==> Count(old(table.held), file) == 1
      ensures r.Ok? ==> table.held == Without(old(table.held), file)
      ensures r.Err? ==> r.error == NotExactlyOne(Count(old(table.held), file)) && table.held == old(table.held)
      ensures closed && entered == old(entered)
    {
      var n := Count(table.held, file);
      if n != 1 {
        r := Err(NotExactlyOne(n));
      } else {
        WithoutDistinct(table.held, file);
        table.held := Without(table.held, file);
        r := Ok(());
      }
      closed := true;
    }
  }

  // ---------------------------------------------------------------------------------------------
  // FileGuard

  /** What the guard does to one listed path: remove the file, or the directory tree, or nothing. */
  function Clear(nodes: map<Path, Node>, p: Path): map<Path, Node> {
    if p in nodes then Prune(nodes, p) else nodes
  }

  /**
   * The tree after the guard has handled `paths` in order, and whether it got through them all:
   * `rmtree` of the working directory empties it and then fails, and that error ends the loop.
   */
  function ClearAll(nodes: map<Path, Node>, paths: seq<Path>): (map<Path, Node>, bool) {
    if paths == [] then (nodes, true)
    else
      var before := ClearAll(nodes, paths[..|paths| - 1]);
      var p := paths[|paths| - 1];
      if !before.1 then before
      else if p == [] && p in before.0 then (map[[] := Dir], false)
      else (Clear(before.0, p), true)
  }

  /**
   * When the guard gets through its list, none of the listed paths is left, and every entry that
   * is not at or under a listed path is still there, unchanged.
   */
  lemma {:induction false} ClearAllSpec(nodes: map<Path, Node>, paths: seq<Path>)
    requires ClearAll(nodes, paths).1
    ensures forall i :: 0 <= i < |paths| ==> paths[i] !in ClearAll(nodes, paths).0
    ensures forall q :: q in ClearAll(nodes, paths).0 ==> q in nodes && ClearAll(nodes, paths).0[q] == nodes[q]
    ensures forall q :: q in nodes && (forall i :: 0 <= i < |paths| ==> !IsPrefix(paths[i], q)) ==> q in ClearAll(nodes, paths).0
    decreases |paths|
  {
    if paths != [] {
      var init := paths[..|paths| - 1];
      ClearAllSpec(nodes, init);
      var before := ClearAll(nodes, init).0;
      var after := ClearAll(nodes, paths).0;
      forall i | 0 <= i < |paths| ensures paths[i] !in after {
        if i < |init| {
          assert init[i] == paths[i];
        }
      }
      forall q | q in nodes && (forall i :: 0 <= i < |paths| ==> !IsPrefix(paths[i], q)) ensures q in after {
        assert forall i :: 0 <= i < |init| ==> init[i] == paths[i];
        assert !IsPrefix(paths[|paths| - 1], q);
      }
    }
  }

  lemma ClearKeepsTree(nodes: map<Path, Node>, paths: seq<Path>)
    requires Tree(nodes)
    ensures Tree(ClearAll(nodes, paths).0)
    decreases |paths|
  {
    if paths != [] {
      ClearKeepsTree(nodes, paths[..|paths| - 1]);
      var before := ClearAll(nodes, paths[..|paths| - 1]);
      var p := paths[|paths| - 1];
      if before.1 && p != [] && p in before.0 {
        PruneTree(before.0, p);
      }
    }
  }

  /** `FileGuard(*paths)` */
  class FileGuard {
    const paths: seq<Path>

    constructor (paths: seq<Path>)
      ensures this.paths == paths
    {
      this.paths := paths;
    }

    /**
     * `__aexit__`: nothing on a normal exit; after an exception, each listed path that is a file is
     * removed and each that is a directory is removed with its tree, missing ones are skipped, and
     * the exception is raised again.
     */
    method Exit(disk: Disk, raised: Option<Failure>) returns (out: Option<Failure>)
      requires disk.Valid()
      modifies disk
      ensures disk.Valid()
      ensures raised.None? ==> out.None? && disk.nodes == old(disk.nodes)
      ensures raised.Some? ==> disk.nodes == ClearAll(old(disk.nodes), paths).0
      ensures raised.Some? ==> out == if ClearAll(old(disk.nodes), paths).1 then raised else Some(FsFailure(InvalidArgument))
    {
      if raised.None? {
        return None;
      }
      ghost var start := disk.nodes;
      var i := 0;
      while i < |paths|
        invariant 0 <= i <= |paths|
        invariant disk.Valid()
        invariant ClearAll(start, paths[..i]) == (disk.nodes, true)
      {
        ClearAllNext(start, paths, i);
        var ok := ClearPath(disk, paths[i]);
        if !ok {
          ClearAllStopsAt(start, paths, i);
          return Some(FsFailure(InvalidArgument));
        }
        i := i + 1;
      }
      assert paths[..i] == paths;
      return raised;
    }
  }

  /**
   * One step of `__aexit__`: a file is removed, a directory is removed with its tree, a missing
   * path is skipped; `rmtree` of the working directory empties it and then fails.
   */
  method ClearPath(disk: Disk, p: Path) returns (ok: bool)
    requires disk.Valid()
    modifies disk
    ensures disk.Valid()
    ensures ok <==> !(p == [] && p in old(disk.nodes))
    ensures ok ==> disk.nodes == Clear(old(disk.nodes), p)
    ensures !ok ==> disk.nodes == map[[] := Dir]
  {
    ok := true;
    if disk.IsFile(p) {
      var _ := disk.Remove(p);
    } else if disk.IsDir(p) {
      var r := disk.RemoveTree(p);
      ok := r.Ok?;
    }
  }

  lemma ClearAllNext(nodes: map<Path, Node>, paths: seq<Path>, i: int)
    requires 0 <= i < |paths|
    ensures ClearAll(nodes, paths[..i + 1]) ==
      var before := ClearAll(nodes, paths[..i]);
      if !before.1 then before
      else if paths[i] == [] && paths[i] in before.0 then (map[[] := Dir], false)
      else (Clear(before.0, paths[i]), true)
  {
    assert paths[..i + 1][..i] == paths[..i];
  }

  lemma ClearAllStopsAt(nodes: map<Path, Node>, paths: seq<Path>, i: int)
    requires 0 <= i < |paths| && !ClearAll(nodes, paths[..i + 1]).1
    ensures ClearAll(nodes, paths) == ClearAll(nodes, paths[..i + 1])
  {
    ClearAllStops(nodes, paths[..i + 1], paths[i + 1..]);
    assert paths[..i + 1] + paths[i + 1..] == paths;
  }

  lemma {:induction false} ClearAllStops(nodes: map<Path, Node>, done: seq<Path>, rest: seq<Path>)
    requires !ClearAll(nodes, done).1
    ensures ClearAll(nodes, done + rest) == ClearAll(nodes, done)
    decreases |rest|
  {
    if rest == [] {
      assert done + rest == done;
    } else {
      ClearAllStops(nodes, done, rest[..|rest| - 1]);
      assert (done + rest)[..|done + rest| - 1] == done + rest[..|rest| - 1];
    }
  }

  // ---------------------------------------------------------------------------------------------
  // FileMoveGuard

  /**
   * A move that succeeded can be moved back, and moving back restores the tree exactly: the
   * rollback `FileMoveGuard` performs.
   */
  lemma MoveBackRestores(nodes: map<Path, Node>, src: Path, dst: Path)
    requires Tree(nodes) && ValidPath(dst) && CanRename(nodes, src, dst)
    ensures CanRename(Relocate(nodes, src, dst), dst, src)
    ensures Relocate(Relocate(nodes, src, dst), dst, src) == nodes
  {
    MoveBackAllowed(nodes, src, dst);
    MoveBackExact(nodes, src, dst);
  }

  /**
   * After a move that made the missing parents of `dst`, moving back is a plain rename and
   * restores the tree except for those parents, which stay as directories.
   */
  lemma MoveTreeBack(nodes: map<Path, Node>, src: Path, dst: Path)
    requires Tree(nodes) && ValidPath(dst) && CanMove(nodes, src, dst)
    ensures CanRename(MoveTree(nodes, src, dst), dst, src)
    ensures Relocate(MoveTree(nodes, src, dst), dst, src) == AddDirs(nodes, Parent(dst))
  {
    MoveTreeRenames(nodes, src, dst);
    MoveBackRestores(AddDirs(nodes, Parent(dst)), src, dst);
  }

  lemma MoveBackAllowed(nodes: map<Path, Node>, src: Path, dst: Path)
    requires Tree(nodes) && ValidPath(dst) && CanRename(nodes, src, dst)
    ensures Tree(Relocate(nodes, src, dst)) && CanRename(Relocate(nodes, src, dst), dst, src)
  {
    var moved := Relocate(nodes, src, dst);
    RelocateTree(nodes, src, dst);
    NothingUnderAbsent(nodes, dst);
    assert !IsPrefix(dst, src);
    assert src !in moved by { RelocateEntries(nodes, src, dst); }
    assert dst in moved by { RelocateMoves(nodes, src, dst, src); }
    assert Parent(src) in moved && moved[Parent(src)] == Dir by {
      RelocateKeeps(nodes, src, dst, Parent(src));
    }
  }

  lemma MoveBackExact(nodes: map<Path, Node>, src: Path, dst: Path)
    requires Tree(nodes) && ValidPath(dst) && CanRename(nodes, src, dst)
    requires Tree(Relocate(nodes, src, dst)) && CanRename(Relocate(nodes, src, dst), dst, src)
    ensures Relocate(Relocate(nodes, src, dst), dst, src) == nodes
  {
    MoveBackKeeps(nodes, src, dst);
    MoveBackAddsNothing(nodes, src, dst);
    SameEntries(Relocate(Relocate(nodes, src, dst), dst, src), nodes);
  }

  /** Two trees with the same entries are equal. */
  lemma SameEntries(a: map<Path, Node>, b: map<Path, Node>)
    requires forall q :: q in b ==> q in a && a[q] == b[q]
    requires forall q :: q in a ==> q in b
    ensures a == b
  {
  }

  lemma MoveBackKeeps(nodes: map<Path, Node>, src: Path, dst: Path)
    requires Tree(nodes) && ValidPath(dst) && CanRename(nodes, src, dst)
    requires Tree(Relocate(nodes, src, dst)) && CanRename(Relocate(nodes, src, dst), dst, src)
    ensures forall q :: q in nodes ==> q in Relocate(Relocate(nodes, src, dst), dst, src) && Relocate(Relocate(nodes, src, dst), dst, src)[q] == nodes[q]
  {
    var moved := Relocate(nodes, src, dst);
    NothingUnderAbsent(nodes, dst);
    RelocateEntries(nodes, src, dst);
    RelocateEntries(moved, dst, src);
    forall q | q in nodes ensures q in Relocate(moved, dst, src) && Relocate(moved, dst, src)[q] == nodes[q] {
      if IsPrefix(src, q) {
        RebaseBack(q, src, dst);
      }
    }
  }

  lemma MoveBackAddsNothing(nodes: map<Path, Node>, src: Path, dst: Path)
    requires Tree(nodes) && ValidPath(dst) && CanRename(nodes, src, dst)
    requires Tree(Relocate(nodes, src, dst)) && CanRename(Relocate(nodes, src, dst), dst, src)
    ensures forall q :: q in Relocate(Relocate(nodes, src, dst), dst, src) ==> q in nodes
  {
    var moved := Relocate(nodes, src, dst);
    NothingUnderAbsent(nodes, dst);
    RelocateEntries(nodes, src, dst);
    RelocateEntries(moved, dst, src);
    forall q | q in Relocate(moved, dst, src) ensures q in nodes {
      if !(q in moved && !IsPrefix(dst, q)) {
        RebaseBack(Rebase(q, src, dst), dst, src);
      }
    }
  }

  /** `FileMoveGuard(src, dst)` */
  class FileMoveGuard {
    const src: Path
    const dst: Path

    constructor (src: Path, dst: Path)
      ensures this.src == src && this.dst == dst
    {
      this.src, this.dst := src, dst;
    }

    /**
     * `__aexit__`: nothing on a normal exit; after an exception, `dst` is moved back to `src` and the
     * exception is not suppressed (a failing move-back raises its own error instead).
     */
    method Exit(disk: Disk, raised: Option<Failure>) returns (out: Option<Failure>)
      requires disk.Valid() && ValidPath(src)
      modifies disk
      ensures disk.Valid()
      ensures raised.None? ==> out.None? && disk.nodes == old(disk.nodes)
      ensures raised.Some? && CanMove(old(disk.nodes), dst, src) ==>
        out == raised && disk.nodes == MoveTree(old(disk.nodes), dst, src)
      ensures raised.Some? && CanRename(old(disk.nodes), dst, src) ==>
        out == raised && disk.nodes == Relocate(old(disk.nodes), dst, src)
      ensures raised.Some? && !CanMove(old(disk.nodes), dst, src) ==> out.Some? && disk.nodes == old(disk.nodes)
    {
      if raised.None? {
        return None;
      }
      var r := disk.Move(dst, src);
      if r.Err? {
        return Some(FsFailure(r.error));
      }
      return raised;
    }
  }
}
