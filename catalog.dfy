/**
 * The catalog: the `file`, `metadata` and `slow_task` tables that `FileCRAD` reads and rewrites.
 * Rows are selected by the descendant filter `filename == str(x) OR filename LIKE escape_path(x) + sep + '%'`
 * under an explicit LIKE semantics. The pure functions here specify the loops of `FileCatalog`.
 */
module Catalog {
  import opened Wrappers
  import opened Paths
  import opened LikeOperator
  import opened Sql

  type Uuid = string
  type Timestamp = int

  /** A file row, in the columns `file_crad.py` reads and writes (`metadata_id`, `created_at`). */
  datatype FileRow = FileRow(id: Uuid, metadataId: Uuid, filename: Path, createdAt: Timestamp)

  /**
   * A metadata row. `image` stands for the `model.image` that `upload` reads; the `MetadataModel`
   * of this revision has no such field, so it is carried here as a probe result.
   */
  datatype MetadataRow = MetadataRow(
    id: Uuid, directory: bool, size: int, video: bool, image: bool, mediaType: string, createdAt: Timestamp)

  datatype TaskRow = TaskRow(id: Uuid, kind: string, metadataId: Uuid)

  /** What the probes of an uploaded file report: size, whether it is a video or an image, its media type. */
  datatype Probe = Probe(size: int, video: bool, image: bool, mediaType: string)

  datatype Table = Table(files: seq<FileRow>, metadata: seq<MetadataRow>, tasks: seq<TaskRow>)

  datatype CatalogError = ValueError | CommitFailed

  /** The filenames of the rows, as a set. */
  function Names(rows: seq<FileRow>): (r: set<Path>)
    ensures forall p :: p in r <==> exists i :: 0 <= i < |rows| && rows[i].filename == p
  {
    set i | 0 <= i < |rows| :: rows[i].filename
  }

  predicate ValidRows(rows: seq<FileRow>) {
    forall i :: 0 <= i < |rows| ==> ValidPath(rows[i].filename)
  }

  // ---------------------------------------------------------------------------------------------
  // The row loops, over any selection of filenames

  /**
   * `delete`, `empty`, `move` and `copy` each walk the rows a filter selects. The loops are stated
   * here over a selection `sel` on filenames; each operation then plugs in its own filter.
   */

  /** The descendant filter `filename == str(x) OR filename LIKE escape_path(x) + '/%'` as a test on filenames. */
  function Selects(like: Semantics, x: Path): Path -> bool {
    f => SubtreeQuery(like, f, x)
  }

  /** The LIKE half of the filter alone, the one `empty(p)` uses. */
  function Below(like: Semantics, p: Path): Path -> bool {
    f => Like(Str(f), DescendantPattern(Str(p)), like)
  }

  /** The rows `sel` does not select, in order. */
  function Kept(rows: seq<FileRow>, sel: Path -> bool): seq<FileRow> {
    if rows == [] then []
    else
      var last := rows[|rows| - 1];
      Kept(rows[..|rows| - 1], sel) + (if sel(last.filename) then [] else [last])
  }

  /** A row is kept iff it was there and is not selected. */
  lemma {:induction false} KeptMembers(rows: seq<FileRow>, sel: Path -> bool)
    ensures forall r :: r in Kept(rows, sel) <==> r in rows && !sel(r.filename)
    decreases |rows|
  {
    if rows != [] {
      var init := rows[..|rows| - 1];
      KeptMembers(init, sel);
      assert rows == init + [rows[|rows| - 1]];
    }
  }

  lemma KeptStep(rows: seq<FileRow>, i: nat, sel: Path -> bool)
    requires i < |rows|
    ensures Kept(rows[..i + 1], sel) == Kept(rows[..i], sel) + (if sel(rows[i].filename) then [] else [rows[i]])
  {
    assert rows[..i + 1][..i] == rows[..i];
  }

  /**
   * The rows after renaming every selected row from under `src` to under `dst`, and whether the
   * loop completed. A selected row that is not under `src` makes `relative_to` raise, and the rows
   * from it on are left as they were.
   */
  function Moved(rows: seq<FileRow>, sel: Path -> bool, src: Path, dst: Path, now: Timestamp): (r: (seq<FileRow>, bool))
    ensures |r.0| == |rows|
  {
    if rows == [] then ([], true)
    else
      var init := Moved(rows[..|rows| - 1], sel, src, dst, now);
      var last := rows[|rows| - 1];
      if !init.1 || !sel(last.filename) then (init.0 + [last], init.1)
      else if IsPrefix(src, last.filename) then (init.0 + [MoveRow(last, src, dst, now)], true)
      else (init.0 + [last], false)
  }

  /** Every selected row lies under `src`: `relative_to` accepts them all. */
  predicate AllUnder(rows: seq<FileRow>, sel: Path -> bool, src: Path) {
    forall i :: 0 <= i < |rows| && sel(rows[i].filename) ==> IsPrefix(src, rows[i].filename)
  }

  lemma AllUnderSnoc(rows: seq<FileRow>, sel: Path -> bool, src: Path)
    requires rows != []
    ensures var init, last := rows[..|rows| - 1], rows[|rows| - 1];
      AllUnder(rows, sel, src) <==> AllUnder(init, sel, src) && (sel(last.filename) ==> IsPrefix(src, last.filename))
  {
    var init := rows[..|rows| - 1];
    assert forall i :: 0 <= i < |init| ==> init[i] == rows[i];
  }

  /** The rename loop completes iff every selected row is under `src`, and then it rewrites exactly the selected rows. */
  lemma {:induction false} MovedSpec(rows: seq<FileRow>, sel: Path -> bool, src: Path, dst: Path, now: Timestamp)
    ensures Moved(rows, sel, src, dst, now).1 <==> AllUnder(rows, sel, src)
    ensures AllUnder(rows, sel, src) ==> forall i :: 0 <= i < |rows| ==>
      Moved(rows, sel, src, dst, now).0[i] == if sel(rows[i].filename) then MoveRow(rows[i], src, dst, now) else rows[i]
    decreases |rows|
  {
    if rows != [] {
      var init := rows[..|rows| - 1];
      MovedSpec(init, sel, src, dst, now);
      AllUnderSnoc(rows, sel, src);
      var r, ri := Moved(rows, sel, src, dst, now), Moved(init, sel, src, dst, now);
      if AllUnder(rows, sel, src) {
        forall i | 0 <= i < |rows|
          ensures r.0[i] == if sel(rows[i].filename) then MoveRow(rows[i], src, dst, now) else rows[i]
        {
          if i < |init| {
            assert r.0[i] == ri.0[i] && init[i] == rows[i];
          }
        }
      }
    }
  }

  lemma MovedStep(rows: seq<FileRow>, i: nat, sel: Path -> bool, src: Path, dst: Path, now: Timestamp)
    requires i < |rows|
    ensures var before, after := Moved(rows[..i], sel, src, dst, now), Moved(rows[..i + 1], sel, src, dst, now);
      after == if !before.1 || !sel(rows[i].filename) then (before.0 + [rows[i]], before.1)
               else if IsPrefix(src, rows[i].filename) then (before.0 + [MoveRow(rows[i], src, dst, now)], true)
               else (before.0 + [rows[i]], false)
  {
    assert rows[..i + 1][..i] == rows[..i];
  }

  /** Once the rename loop has stopped, the remaining rows pass through unchanged. */
  lemma {:induction false} MovedStops(rows: seq<FileRow>, rest: seq<FileRow>, sel: Path -> bool, src: Path, dst: Path, now: Timestamp)
    requires !Moved(rows, sel, src, dst, now).1
    ensures Moved(rows + rest, sel, src, dst, now) == (Moved(rows, sel, src, dst, now).0 + rest, false)
    decreases |rest|
  {
    var failed := Moved(rows, sel, src, dst, now).0;
    if rest == [] {
      assert rows + rest == rows;
      assert failed + rest == failed;
    } else {
      var init, x := rest[..|rest| - 1], rest[|rest| - 1];
      MovedStops(rows, init, sel, src, dst, now);
      assert rows + rest == (rows + init) + [x];
      assert (rows + init + [x])[..|rows + init|] == rows + init;
      assert failed + init + [x] == failed + rest;
    }
  }

  /**
   * The clones of the selected rows, and whether the loop completed; the clone of the row at
   * position `i` gets the id `newId(i)`.
   */
  function Copies(rows: seq<FileRow>, sel: Path -> bool, src: Path, dst: Path, newId: nat -> Uuid, now: Timestamp): (r: (seq<FileRow>, bool))
    ensures |r.0| <= |rows|
  {
    if rows == [] then ([], true)
    else
      var init := Copies(rows[..|rows| - 1], sel, src, dst, newId, now);
      var last := rows[|rows| - 1];
      if !init.1 || !sel(last.filename) then init
      else if IsPrefix(src, last.filename) then (init.0 + [CopyRow(last, src, dst, newId(|rows| - 1), now)], true)
      else (init.0, false)
  }

  /** The clone loop completes iff every selected row is under `src`. */
  lemma {:induction false} CopiesComplete(rows: seq<FileRow>, sel: Path -> bool, src: Path, dst: Path, newId: nat -> Uuid, now: Timestamp)
    ensures Copies(rows, sel, src, dst, newId, now).1 <==> AllUnder(rows, sel, src)
    decreases |rows|
  {
    if rows != [] {
      CopiesComplete(rows[..|rows| - 1], sel, src, dst, newId, now);
      AllUnderSnoc(rows, sel, src);
    }
  }

  lemma CopiesSnoc(rows: seq<FileRow>, sel: Path -> bool, src: Path, dst: Path, newId: nat -> Uuid, now: Timestamp)
    requires rows != [] && AllUnder(rows, sel, src)
    ensures var init, last := rows[..|rows| - 1], rows[|rows| - 1];
      Copies(rows, sel, src, dst, newId, now).0 ==
        Copies(init, sel, src, dst, newId, now).0 + if sel(last.filename) then [CopyRow(last, src, dst, newId(|rows| - 1), now)] else []
  {
    var init := rows[..|rows| - 1];
    AllUnderSnoc(rows, sel, src);
    CopiesComplete(init, sel, src, dst, newId, now);
    if !sel(rows[|rows| - 1].filename) {
      assert Copies(init, sel, src, dst, newId, now).0 + [] == Copies(init, sel, src, dst, newId, now).0;
    }
  }

  /** When the clone loop completes, every selected row has its clone among the added rows. */
  lemma {:induction false} CopiesCover(rows: seq<FileRow>, sel: Path -> bool, src: Path, dst: Path, newId: nat -> Uuid, now: Timestamp)
    requires AllUnder(rows, sel, src)
    ensures forall i :: 0 <= i < |rows| && sel(rows[i].filename) ==> CopyRow(rows[i], src, dst, newId(i), now) in Copies(rows, sel, src, dst, newId, now).0
    decreases |rows|
  {
    if rows != [] {
      var init := rows[..|rows| - 1];
      AllUnderSnoc(rows, sel, src);
      CopiesCover(init, sel, src, dst, newId, now);
      CopiesSnoc(rows, sel, src, dst, newId, now);
      var added, before := Copies(rows, sel, src, dst, newId, now).0, Copies(init, sel, src, dst, newId, now).0;
      forall i | 0 <= i < |rows| && sel(rows[i].filename)
        ensures CopyRow(rows[i], src, dst, newId(i), now) in added
      {
        if i < |init| {
          assert init[i] == rows[i];
          assert CopyRow(init[i], src, dst, newId(i), now) in before;
        }
      }
    }
  }

  /** When the clone loop completes, every added row is the clone of a selected row. */
  lemma {:induction false} CopiesOnly(rows: seq<FileRow>, sel: Path -> bool, src: Path, dst: Path, newId: nat -> Uuid, now: Timestamp)
    requires AllUnder(rows, sel, src)
    ensures forall r :: r in Copies(rows, sel, src, dst, newId, now).0 ==>
      exists i :: 0 <= i < |rows| && sel(rows[i].filename) && r == CopyRow(rows[i], src, dst, newId(i), now)
    decreases |rows|
  {
    if rows != [] {
      var init := rows[..|rows| - 1];
      AllUnderSnoc(rows, sel, src);
      CopiesOnly(init, sel, src, dst, newId, now);
      CopiesSnoc(rows, sel, src, dst, newId, now);
      var added, before := Copies(rows, sel, src, dst, newId, now).0, Copies(init, sel, src, dst, newId, now).0;
      forall r | r in added
        ensures exists i :: 0 <= i < |rows| && sel(rows[i].filename) && r == CopyRow(rows[i], src, dst, newId(i), now)
      {
        if r in before {
          var i :| 0 <= i < |init| && sel(init[i].filename) && r == CopyRow(init[i], src, dst, newId(i), now);
          assert init[i] == rows[i];
        }
      }
    }
  }

  lemma CopiesStep(rows: seq<FileRow>, i: nat, sel: Path -> bool, src: Path, dst: Path, newId: nat -> Uuid, now: Timestamp)
    requires i < |rows|
    ensures var before, after := Copies(rows[..i], sel, src, dst, newId, now), Copies(rows[..i + 1], sel, src, dst, newId, now);
      after == if !before.1 || !sel(rows[i].filename) then before
               else if IsPrefix(src, rows[i].filename) then (before.0 + [CopyRow(rows[i], src, dst, newId(i), now)], true)
               else (before.0, false)
  {
    assert rows[..i + 1][..i] == rows[..i];
  }

  /** Once the clone loop has stopped, later rows add nothing. */
  lemma {:induction false} CopiesStop(rows: seq<FileRow>, rest: seq<FileRow>, sel: Path -> bool, src: Path, dst: Path, newId: nat -> Uuid, now: Timestamp)
    requires !Copies(rows, sel, src, dst, newId, now).1
    ensures Copies(rows + rest, sel, src, dst, newId, now) == Copies(rows, sel, src, dst, newId, now)
    decreases |rest|
  {
    if rest == [] {
      assert rows + rest == rows;
    } else {
      var init := rest[..|rest| - 1];
      CopiesStop(rows, init, sel, src, dst, newId, now);
      assert (rows + rest)[..|rows + rest| - 1] == rows + init;
    }
  }

  // ---------------------------------------------------------------------------------------------
  // delete

  /** The rows left by `delete(x)`: those the descendant filter does not select, in order. */
  function DeleteRows(rows: seq<FileRow>, like: Semantics, x: Path): seq<FileRow> {
    Kept(rows, Selects(like, x))
  }

  /** A row survives `delete(x)` iff it was there and the filter does not select it. */
  lemma DeleteRowsMembers(rows: seq<FileRow>, like: Semantics, x: Path)
    ensures forall r :: r in DeleteRows(rows, like, x) <==> r in rows && !SubtreeQuery(like, r.filename, x)
  {
    KeptMembers(rows, Selects(like, x));
  }

  /** With `ESCAPE '\'`, `delete(x)` removes exactly the rows at or under `x`. */
  lemma DeleteExact(rows: seq<FileRow>, x: Path)
    requires ValidRows(rows) && ValidPath(x) && x != []
    ensures forall r :: r in DeleteRows(rows, Escaped, x) <==> r in rows && !IsPrefix(x, r.filename)
    ensures Names(DeleteRows(rows, Escaped, x)) == PruneSet(Names(rows), x)
  {
    DeleteRowsMembers(rows, Escaped, x);
    forall i | 0 <= i < |rows| ensures SubtreeQuery(Escaped, rows[i].filename, x) <==> IsPrefix(x, rows[i].filename) {
      SubtreeQueryExact(rows[i].filename, x);
    }
    var d := DeleteRows(rows, Escaped, x);
    forall p ensures p in Names(d) <==> p in PruneSet(Names(rows), x) {
      if p in Names(d) {
        var i :| 0 <= i < |d| && d[i].filename == p;
        assert d[i] in d;
      }
      if p in PruneSet(Names(rows), x) {
        var i :| 0 <= i < |rows| && rows[i].filename == p;
        assert rows[i] in rows;
      }
    }
  }

  // ---------------------------------------------------------------------------------------------
  // move

  /** One selected row after `move(src, dst)`: `dst.joinpath(filename.relative_to(src))`, stamped `now`. */
  function MoveRow(row: FileRow, src: Path, dst: Path, now: Timestamp): (r: FileRow)
    requires IsPrefix(src, row.filename)
    ensures r.id == row.id && r.metadataId == row.metadataId && r.createdAt == now
    ensures IsPrefix(dst, r.filename) && Rebase(r.filename, dst, src) == row.filename
  {
    RebaseBack(row.filename, src, dst);
    row.(filename := Rebase(row.filename, src, dst), createdAt := now)
  }

  /** The rows after `move(src, dst)`, and whether it completed. */
  function MoveRows(rows: seq<FileRow>, like: Semantics, src: Path, dst: Path, now: Timestamp): (r: (seq<FileRow>, bool))
    ensures |r.0| == |rows|
  {
    Moved(rows, Selects(like, src), src, dst, now)
  }

  /** The rows the descendant filter of `src` selects all lie under `src`. */
  predicate MovableRows(rows: seq<FileRow>, like: Semantics, src: Path) {
    AllUnder(rows, Selects(like, src), src)
  }

  /**
   * `move` completes iff every selected row lies under `src`; then it rewrites exactly the selected
   * rows and leaves every other row as it was.
   */
  lemma MoveRowsSpec(rows: seq<FileRow>, like: Semantics, src: Path, dst: Path, now: Timestamp)
    ensures MoveRows(rows, like, src, dst, now).1 <==> MovableRows(rows, like, src)
    ensures MovableRows(rows, like, src) ==> forall i :: 0 <= i < |rows| ==>
      MoveRows(rows, like, src, dst, now).0[i] ==
        if SubtreeQuery(like, rows[i].filename, src) then MoveRow(rows[i], src, dst, now) else rows[i]
  {
    MovedSpec(rows, Selects(like, src), src, dst, now);
  }

  /** With `ESCAPE '\'`, `move` always completes and renames exactly the rows at or under `src`. */
  lemma MoveExact(rows: seq<FileRow>, src: Path, dst: Path, now: Timestamp)
    requires ValidRows(rows) && ValidPath(src) && src != []
    ensures MoveRows(rows, Escaped, src, dst, now).1
    ensures forall i :: 0 <= i < |rows| ==>
      MoveRows(rows, Escaped, src, dst, now).0[i] ==
        if IsPrefix(src, rows[i].filename) then MoveRow(rows[i], src, dst, now) else rows[i]
    ensures Names(MoveRows(rows, Escaped, src, dst, now).0) == MoveSet(Names(rows), src, dst)
  {
    forall i | 0 <= i < |rows| ensures SubtreeQuery(Escaped, rows[i].filename, src) <==> IsPrefix(src, rows[i].filename) {
      SubtreeQueryExact(rows[i].filename, src);
    }
    MoveRowsSpec(rows, Escaped, src, dst, now);
    var m := MoveRows(rows, Escaped, src, dst, now).0;
    forall p ensures p in Names(m) <==> p in MoveSet(Names(rows), src, dst) {
      if p in MoveSet(Names(rows), src, dst) {
        if p in Names(rows) && !IsPrefix(src, p) {
          var i :| 0 <= i < |rows| && rows[i].filename == p;
          assert m[i].filename == p;
        } else {
          var i :| 0 <= i < |rows| && rows[i].filename == Rebase(p, dst, src);
          RebaseBack(p, dst, src);
          assert m[i].filename == p;
        }
      }
    }
  }

  /**
   * Moving `src` to `dst` and back restores every row's id, metadata and filename when nothing
   * was at or under `dst` before; `FileMoveGuard`'s rollback of the tree relies on the same fact.
   */
  lemma MoveRoundTrip(rows: seq<FileRow>, src: Path, dst: Path, now1: Timestamp, now2: Timestamp)
    requires ValidRows(rows) && ValidPath(src) && ValidPath(dst) && src != [] && dst != []
    requires forall i :: 0 <= i < |rows| ==> !IsPrefix(dst, rows[i].filename)
    ensures var back := MoveRows(MoveRows(rows, Escaped, src, dst, now1).0, Escaped, dst, src, now2).0;
      |back| == |rows| &&
      forall i :: 0 <= i < |rows| ==>
        back[i].filename == rows[i].filename && back[i].id == rows[i].id && back[i].metadataId == rows[i].metadataId
  {
    var there := MoveRows(rows, Escaped, src, dst, now1).0;
    MoveExact(rows, src, dst, now1);
    assert ValidRows(there) by {
      forall i | 0 <= i < |there| ensures ValidPath(there[i].filename) {
        if IsPrefix(src, rows[i].filename) { RebaseValid(rows[i].filename, src, dst); }
      }
    }
    MoveExact(there, dst, src, now2);
  }

  // ---------------------------------------------------------------------------------------------
  // copy

  /** The clone of one selected row: mapped filename, id `id`, stamped `now`, same metadata. */
  function CopyRow(row: FileRow, src: Path, dst: Path, id: Uuid, now: Timestamp): (r: FileRow)
    requires IsPrefix(src, row.filename)
    ensures r.metadataId == row.metadataId && r.id == id && r.createdAt == now
    ensures IsPrefix(dst, r.filename) && Rebase(r.filename, dst, src) == row.filename
  {
    RebaseBack(row.filename, src, dst);
    row.(id := id, filename := Rebase(row.filename, src, dst), createdAt := now)
  }

  /** The rows `copy(src, dst)` adds, and whether it completed. */
  function CopyRows(rows: seq<FileRow>, like: Semantics, src: Path, dst: Path, newId: nat -> Uuid, now: Timestamp): (r: (seq<FileRow>, bool))
    ensures |r.0| <= |rows|
  {
    Copies(rows, Selects(like, src), src, dst, newId, now)
  }

  /** `copy` completes iff every selected row lies under `src`. */
  lemma CopyRowsCompletes(rows: seq<FileRow>, like: Semantics, src: Path, dst: Path, newId: nat -> Uuid, now: Timestamp)
    ensures CopyRows(rows, like, src, dst, newId, now).1 <==> MovableRows(rows, like, src)
  {
    CopiesComplete(rows, Selects(like, src), src, dst, newId, now);
  }

  /** When `copy` completes, every selected row has its clone among the added rows. */
  lemma CopyRowsCovers(rows: seq<FileRow>, like: Semantics, src: Path, dst: Path, newId: nat -> Uuid, now: Timestamp)
    requires MovableRows(rows, like, src)
    ensures forall i :: 0 <= i < |rows| && SubtreeQuery(like, rows[i].filename, src) ==>
      CopyRow(rows[i], src, dst, newId(i), now) in CopyRows(rows, like, src, dst, newId, now).0
  {
    CopiesCover(rows, Selects(like, src), src, dst, newId, now);
  }

  /** When `copy` completes, every added row is the clone of a selected row. */
  lemma CopyRowsOnly(rows: seq<FileRow>, like: Semantics, src: Path, dst: Path, newId: nat -> Uuid, now: Timestamp)
    requires MovableRows(rows, like, src)
    ensures forall r :: r in CopyRows(rows, like, src, dst, newId, now).0 ==>
      exists i :: 0 <= i < |rows| && SubtreeQuery(like, rows[i].filename, src) &&
        r == CopyRow(rows[i], src, dst, newId(i), now)
  {
    CopiesOnly(rows, Selects(like, src), src, dst, newId, now);
  }

  lemma NamesAppend(a: seq<FileRow>, b: seq<FileRow>)
    ensures Names(a + b) == Names(a) + Names(b)
  {
    forall p | p in Names(a + b) ensures p in Names(a) + Names(b) {
      var k :| 0 <= k < |a + b| && (a + b)[k].filename == p;
      if k >= |a| { assert b[k - |a|].filename == p; }
    }
    forall p | p in Names(b) ensures p in Names(a + b) {
      var k :| 0 <= k < |b| && b[k].filename == p;
      assert (a + b)[|a| + k].filename == p;
    }
    forall p | p in Names(a) ensures p in Names(a + b) {
      var k :| 0 <= k < |a| && a[k].filename == p;
      assert (a + b)[k].filename == p;
    }
  }

  /**
   * With `ESCAPE '\'`, `copy` always completes; the source rows stay, and the filenames afterwards
   * are the old ones plus the image of the subtree at `src` under `dst`.
   */
  lemma CopyExact(rows: seq<FileRow>, src: Path, dst: Path, newId: nat -> Uuid, now: Timestamp)
    requires ValidRows(rows) && ValidPath(src) && src != []
    ensures CopyRows(rows, Escaped, src, dst, newId, now).1
    ensures Names(rows + CopyRows(rows, Escaped, src, dst, newId, now).0) == Names(rows) + Image(Names(rows), src, dst)
  {
    forall i | 0 <= i < |rows| ensures SubtreeQuery(Escaped, rows[i].filename, src) <==> IsPrefix(src, rows[i].filename) {
      SubtreeQueryExact(rows[i].filename, src);
    }
    CopyRowsCompletes(rows, Escaped, src, dst, newId, now);
    CopyAddedNames(rows, src, dst, newId, now);
    NamesAppend(rows, CopyRows(rows, Escaped, src, dst, newId, now).0);
  }

  lemma CopyAddedNames(rows: seq<FileRow>, src: Path, dst: Path, newId: nat -> Uuid, now: Timestamp)
    requires forall i :: 0 <= i < |rows| ==> (SubtreeQuery(Escaped, rows[i].filename, src) <==> IsPrefix(src, rows[i].filename))
    ensures Names(CopyRows(rows, Escaped, src, dst, newId, now).0) == Image(Names(rows), src, dst)
  {
    CopyRowsCovers(rows, Escaped, src, dst, newId, now);
    CopyRowsOnly(rows, Escaped, src, dst, newId, now);
    var added := CopyRows(rows, Escaped, src, dst, newId, now).0;
    forall p | p in Names(added) ensures p in Image(Names(rows), src, dst) {
      var k :| 0 <= k < |added| && added[k].filename == p;
      assert added[k] in added;
      var i :| 0 <= i < |rows| && SubtreeQuery(Escaped, rows[i].filename, src) && added[k] == CopyRow(rows[i], src, dst, newId(i), now);
      assert rows[i].filename in Names(rows);
    }
    forall p | p in Image(Names(rows), src, dst) ensures p in Names(added) {
      var q := Rebase(p, dst, src);
      var i :| 0 <= i < |rows| && rows[i].filename == q;
      RebaseBack(p, dst, src);
      var c := CopyRow(rows[i], src, dst, newId(i), now);
      assert c in added;
      var j :| 0 <= j < |added| && added[j] == c;
    }
  }

  // ---------------------------------------------------------------------------------------------
  // is_empty

  /** Some metadata row for `row` says it is a file, not a directory (the inner join of `is_empty`). */
  predicate IsFileRow(t: Table, row: FileRow) {
    exists j :: 0 <= j < |t.metadata| && t.metadata[j].id == row.metadataId && !t.metadata[j].directory
  }

  /** `is_empty(d)`: the joined query for file rows selected by the descendant filter finds nothing. */
  predicate IsEmpty(t: Table, like: Semantics, d: Path) {
    forall i :: 0 <= i < |t.files| && SubtreeQuery(like, t.files[i].filename, d) ==> !IsFileRow(t, t.files[i])
  }

  /** With `ESCAPE '\'`, `is_empty(d)` holds iff no file (as opposed to directory) row lies at or under `d`. */
  lemma IsEmptyExact(t: Table, d: Path)
    requires ValidRows(t.files) && ValidPath(d) && d != []
    ensures IsEmpty(t, Escaped, d) <==>
      forall i :: 0 <= i < |t.files| && IsPrefix(d, t.files[i].filename) ==> !IsFileRow(t, t.files[i])
  {
    forall i | 0 <= i < |t.files| ensures SubtreeQuery(Escaped, t.files[i].filename, d) <==> IsPrefix(d, t.files[i].filename) {
      SubtreeQueryExact(t.files[i].filename, d);
    }
  }

  // ---------------------------------------------------------------------------------------------
  // Helpers that `FileService` calls and the file_crad.py revision in this model does not define:
  // `exists`, `isdir`, `isfile`, `getfile`, `empty` and `mkdir`, read as queries over the tables.

  /** `exists(p)`: some file row is at `p`. */
  predicate Exists(t: Table, p: Path) {
    p in Names(t.files)
  }

  /** `isdir(p)`: some row at `p` has directory metadata. */
  predicate IsDirEntry(t: Table, p: Path) {
    exists i, j :: 0 <= i < |t.files| && 0 <= j < |t.metadata| &&
      t.files[i].filename == p && t.metadata[j].id == t.files[i].metadataId && t.metadata[j].directory
  }

  /** `isfile(p)`: some row at `p` has file metadata. */
  predicate IsFileEntry(t: Table, p: Path) {
    exists i :: 0 <= i < |t.files| && t.files[i].filename == p && IsFileRow(t, t.files[i])
  }

  /** The first metadata row with id `id`. */
  function FindMetadata(ms: seq<MetadataRow>, id: Uuid): (r: Option<MetadataRow>)
    ensures r.Some? <==> exists j :: 0 <= j < |ms| && ms[j].id == id
    ensures r.Some? ==> r.value in ms && r.value.id == id
  {
    if ms == [] then None
    else if ms[0].id == id then Some(ms[0])
    else FindMetadata(ms[1..], id)
  }

  /** Row `i` is the first row at `p`. */
  predicate FirstAt(files: seq<FileRow>, p: Path, i: int) {
    0 <= i < |files| && files[i].filename == p && forall j :: 0 <= j < i ==> files[j].filename != p
  }

  /** `getfile(p)`: the metadata of the first row at `p`; none when no row is at `p` or that row's metadata row is missing. */
  function GetFile(t: Table, p: Path): (r: Option<MetadataRow>)
    ensures r.Some? ==> Exists(t, p) && r.value in t.metadata
    ensures r.Some? ==> exists i :: 0 <= i < |t.files| && t.files[i].filename == p && t.files[i].metadataId == r.value.id
    ensures !Exists(t, p) ==> r.None?
    ensures forall i :: FirstAt(t.files, p, i) ==> r == FindMetadata(t.metadata, t.files[i].metadataId)
    decreases |t.files|
  {
    if t.files == [] then None
    else if t.files[0].filename == p then FindMetadata(t.metadata, t.files[0].metadataId)
    else
      var tail := t.(files := t.files[1..]);
      var r := GetFile(tail, p);
      assert r.Some? ==> Exists(t, p) by {
        if r.Some? {
          var i :| 0 <= i < |t.files[1..]| && t.files[1..][i].filename == p;
          assert t.files[i + 1].filename == p;
        }
      }
      assert forall i :: FirstAt(t.files, p, i) ==> r == FindMetadata(t.metadata, t.files[i].metadataId) by {
        forall i | FirstAt(t.files, p, i) ensures r == FindMetadata(t.metadata, t.files[i].metadataId) {
          assert tail.files[i - 1] == t.files[i];
          assert forall j :: 0 <= j < i - 1 ==> tail.files[j] == t.files[j + 1];
          assert FirstAt(tail.files, p, i - 1);
        }
      }
      r
  }

  /** The rows left by `empty(p)`: those the LIKE half of the filter (strictly below `p`) does not select. */
  function EmptyRows(rows: seq<FileRow>, like: Semantics, p: Path): seq<FileRow> {
    Kept(rows, Below(like, p))
  }

  /** A row survives `empty(p)` iff it was there and the LIKE half of the filter does not select it. */
  lemma EmptyRowsMembers(rows: seq<FileRow>, like: Semantics, p: Path)
    ensures forall r :: r in EmptyRows(rows, like, p) <==> r in rows && !Like(Str(r.filename), DescendantPattern(Str(p)), like)
  {
    KeptMembers(rows, Below(like, p));
  }

  /** With `ESCAPE '\'`, `empty(p)` removes exactly the rows strictly under `p` and keeps `p`'s own. */
  lemma EmptyExact(rows: seq<FileRow>, p: Path)
    requires ValidRows(rows) && ValidPath(p) && p != []
    ensures forall r :: r in EmptyRows(rows, Escaped, p) <==> r in rows && !IsAncestor(p, r.filename)
  {
    EmptyRowsMembers(rows, Escaped, p);
    forall r | r in rows ensures Like(Str(r.filename), DescendantPattern(Str(p)), Escaped) <==> IsAncestor(p, r.filename) {
      var i :| 0 <= i < |rows| && rows[i] == r;
      DescendantPatternExact(Str(p), Str(r.filename));
      StrAncestorIff(p, r.filename);
    }
  }

  /** The task rows other than `t`, in order. */
  function WithoutTask(tasks: seq<TaskRow>, t: TaskRow): (r: seq<TaskRow>)
    ensures forall x :: x in r <==> x in tasks && x != t
    ensures |r| <= |tasks|
  {
    if tasks == [] then []
    else WithoutTask(tasks[..|tasks| - 1], t) + (if tasks[|tasks| - 1] == t then [] else [tasks[|tasks| - 1]])
  }

  // ---------------------------------------------------------------------------------------------
  // The session

  /**
   * One `AsyncSession` over the catalog: the rows as this session sees them, and the rows last
   * committed. A failed commit rolls the session back to the committed rows.
   */
  class FileCatalog {
    var files: seq<FileRow>
    var metadata: seq<MetadataRow>
    var tasks: seq<TaskRow>
    var saved: Table
    const like: Semantics

    function View(): Table
      reads this
    {
      Table(files, metadata, tasks)
    }

    constructor (like: Semantics, t: Table)
      ensures this.like == like && View() == t && saved == t
    {
      this.like := like;
      files, metadata, tasks := t.files, t.metadata, t.tasks;
      saved := t;
    }

    /** `session.commit()`; `fails` stands for a database error at commit time. */
    method Commit(fails: bool) returns (r: Result<(), CatalogError>)
      modifies this
      ensures r.Ok? <==> !fails
      ensures r.Ok? ==> saved == old(View()) && View() == old(View())
      ensures r.Err? ==> r.error == CommitFailed && saved == old(saved) && View() == old(saved)
    {
      if fails {
        files, metadata, tasks := saved.files, saved.metadata, saved.tasks;
        return Err(CommitFailed);
      }
      saved := View();
      return Ok(());
    }

    /** The end of the request: the session closes, and what it did not commit is discarded. */
    method Close()
      modifies this
      ensures View() == old(saved) && saved == old(saved)
    {
      files, metadata, tasks := saved.files, saved.metadata, saved.tasks;
    }

    /** `session.delete(task)` */
    method DeleteTask(task: TaskRow)
      modifies this
      ensures tasks == WithoutTask(old(tasks), task)
      ensures files == old(files) && metadata == old(metadata) && saved == old(saved)
    {
      tasks := WithoutTask(tasks, task);
    }

    /** `session.add(task)` */
    method AddTask(task: TaskRow)
      modifies this
      ensures tasks == old(tasks) + [task]
      ensures files == old(files) && metadata == old(metadata) && saved == old(saved)
    {
      tasks := tasks + [task];
    }

    /** `session.add_all(ts)` */
    method AddAll(ts: seq<TaskRow>)
      modifies this
      ensures tasks == old(tasks) + ts
      ensures files == old(files) && metadata == old(metadata) && saved == old(saved)
    {
      tasks := tasks + ts;
    }

    /**
     * `put(file, id)`: one metadata row with id `id` describing a file (not a directory), and one file
     * row at `file` pointing at it; `rowId` is the file row's own fresh id, `now` the clock.
     */
    method Put(file: Path, id: Uuid, rowId: Uuid, probe: Probe, now: Timestamp) returns (m: MetadataRow)
      modifies this
      ensures m == MetadataRow(id, false, probe.size, probe.video, probe.image, probe.mediaType, now)
      ensures files == old(files) + [FileRow(rowId, id, file, now)]
      ensures metadata == old(metadata) + [m]
      ensures tasks == old(tasks) && saved == old(saved)
    {
      m := MetadataRow(id, false, probe.size, probe.video, probe.image, probe.mediaType, now);
      files := files + [FileRow(rowId, m.id, file, now)];
      metadata := metadata + [m];
    }

    /** `mkdir(p)`: a directory row at `p` with its own metadata row. */
    method Mkdir(p: Path, id: Uuid, rowId: Uuid, now: Timestamp)
      modifies this
      ensures files == old(files) + [FileRow(rowId, id, p, now)]
      ensures metadata == old(metadata) + [MetadataRow(id, true, 0, false, false, "inode/directory", now)]
      ensures tasks == old(tasks) && saved == old(saved)
    {
      files := files + [FileRow(rowId, id, p, now)];
      metadata := metadata + [MetadataRow(id, true, 0, false, false, "inode/directory", now)];
    }

    /** `empty(p)`: drops the rows strictly under `p`. */
    method Empty(p: Path)
      modifies this
      ensures files == EmptyRows(old(files), like, p)
      ensures metadata == old(metadata) && tasks == old(tasks) && saved == old(saved)
    {
      files := EmptyRows(files, like, p);
    }

    /** `delete(x)`: each row the descendant filter selects is deleted from the session. */
    method Delete(x: Path)
      modifies this
      ensures files == DeleteRows(old(files), like, x)
      ensures metadata == old(metadata) && tasks == old(tasks) && saved == old(saved)
    {
      DeleteWhere(Selects(like, x));
    }

    /** The loop of `delete`: each selected row is deleted from the session, in order. */
    method DeleteWhere(sel: Path -> bool)
      modifies this
      ensures files == Kept(old(files), sel)
      ensures metadata == old(metadata) && tasks == old(tasks) && saved == old(saved)
    {
      var snapshot := files;
      var i, kept := 0, [];
      while i < |snapshot|
        invariant 0 <= i <= |snapshot|
        invariant kept == Kept(snapshot[..i], sel)
        invariant unchanged(this)
      {
        KeptStep(snapshot, i, sel);
        if !sel(snapshot[i].filename) {
          kept := kept + [snapshot[i]];
        }
        i := i + 1;
      }
      assert snapshot[..i] == snapshot;
      files := kept;
    }

    /**
     * `move(src, dst)`: each selected row gets `dst.joinpath(filename.relative_to(src))` and the time
     * `now`; a selected row outside `src` raises `ValueError` and stops the loop.
     */
    method Move(src: Path, dst: Path, now: Timestamp) returns (r: Result<(), CatalogError>)
      modifies this
      ensures r.Ok? <==> MoveRows(old(files), like, src, dst, now).1
      ensures files == MoveRows(old(files), like, src, dst, now).0
      ensures metadata == old(metadata) && tasks == old(tasks) && saved == old(saved)
    {
      r := MoveWhere(Selects(like, src), src, dst, now);
    }

    /** The loop of `move` over the rows `sel` selects. */
    method MoveWhere(sel: Path -> bool, src: Path, dst: Path, now: Timestamp) returns (r: Result<(), CatalogError>)
      modifies this
      ensures r.Ok? <==> Moved(old(files), sel, src, dst, now).1
      ensures files == Moved(old(files), sel, src, dst, now).0
      ensures metadata == old(metadata) && tasks == old(tasks) && saved == old(saved)
    {
      var snapshot := files;
      var i, ok, done := 0, true, [];
      while i < |snapshot| && ok
        invariant 0 <= i <= |snapshot|
        invariant (done, ok) == Moved(snapshot[..i], sel, src, dst, now)
        invariant unchanged(this)
      {
        MovedStep(snapshot, i, sel, src, dst, now);
        var row := snapshot[i];
        if sel(row.filename) {
          if IsPrefix(src, row.filename) {
            row := MoveRow(row, src, dst, now);
          } else {
            ok := false;
          }
        }
        done := done + [row];
        i := i + 1;
      }
      files := done + snapshot[i..];
      if !ok {
        MovedStops(snapshot[..i], snapshot[i..], sel, src, dst, now);
        assert snapshot[..i] + snapshot[i..] == snapshot;
        return Err(ValueError);
      }
      assert snapshot[..i] == snapshot;
      return Ok(());
    }

    /**
     * `copy(src, dst)`: each selected row is cloned with the mapped filename, the id `newId(i)` for
     * the row at position `i`, and the time `now`; a selected row outside `src` raises `ValueError`.
     */
    method Copy(src: Path, dst: Path, newId: nat -> Uuid, now: Timestamp) returns (r: Result<(), CatalogError>)
      modifies this
      ensures r.Ok? <==> CopyRows(old(files), like, src, dst, newId, now).1
      ensures files == old(files) + CopyRows(old(files), like, src, dst, newId, now).0
      ensures metadata == old(metadata) && tasks == old(tasks) && saved == old(saved)
    {
      r := CopyWhere(Selects(like, src), src, dst, newId, now);
    }

    /** The loop of `copy` over the rows `sel` selects. */
    method CopyWhere(sel: Path -> bool, src: Path, dst: Path, newId: nat -> Uuid, now: Timestamp) returns (r: Result<(), CatalogError>)
      modifies this
      ensures r.Ok? <==> Copies(old(files), sel, src, dst, newId, now).1
      ensures files == old(files) + Copies(old(files), sel, src, dst, newId, now).0
      ensures metadata == old(metadata) && tasks == old(tasks) && saved == old(saved)
    {
      var snapshot := files;
      var i, ok, added := 0, true, [];
      while i < |snapshot| && ok
        invariant 0 <= i <= |snapshot|
        invariant (added, ok) == Copies(snapshot[..i], sel, src, dst, newId, now)
        invariant unchanged(this)
      {
        CopiesStep(snapshot, i, sel, src, dst, newId, now);
        if sel(snapshot[i].filename) {
          if IsPrefix(src, snapshot[i].filename) {
            added := added + [CopyRow(snapshot[i], src, dst, newId(i), now)];
          } else {
            ok := false;
          }
        }
        i := i + 1;
      }
      files := snapshot + added;
      if !ok {
        CopiesStop(snapshot[..i], snapshot[i..], sel, src, dst, newId, now);
        assert snapshot[..i] + snapshot[i..] == snapshot;
        return Err(ValueError);
      }
      assert snapshot[..i] == snapshot;
      return Ok(());
    }
  }
}
