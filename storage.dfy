/**
 * The file tree the engine keeps in step with its catalog: a map from lexical paths to nodes,
 * with the operations of `os`, `shutil` and `open` that the engine and its guards call.
 */
module Storage {
  import opened Wrappers
  import opened Paths

  newtype byte = x: int | 0 <= x < 256

  datatype Node = Dir | File(data: seq<byte>)

  datatype FsError = FileNotFound | FileExists | NotADirectory | IsADirectory | InvalidArgument

  /** The working directory `.` is a directory, and the parent of every other entry is a directory. */
  predicate Tree(nodes: map<Path, Node>) {
    && [] in nodes && nodes[[]] == Dir
    && (forall p :: p in nodes && p != [] ==> Parent(p) in nodes && nodes[Parent(p)] == Dir)
    && (forall p :: p in nodes ==> ValidPath(p))
  }

  /** The entries that stay when the subtree at `p` goes (`shutil.rmtree`, `os.remove`). */
  function Prune(nodes: map<Path, Node>, p: Path): (r: map<Path, Node>)
    ensures r.Keys == PruneSet(nodes.Keys, p)
    ensures forall q :: q in r ==> r[q] == nodes[q]
  {
    map q | q in nodes && !IsPrefix(p, q) :: nodes[q]
  }

  /** The prefixes of `p`, from `.` to `p` itself. */
  function Prefixes(p: Path): (r: set<Path>)
    ensures forall q :: q in r <==> IsPrefix(q, p)
  {
    set i | 0 <= i <= |p| :: p[..i]
  }

  /** `os.makedirs(p)`: every missing prefix of `p` becomes a directory. */
  function AddDirs(nodes: map<Path, Node>, p: Path): (r: map<Path, Node>)
    ensures r.Keys == nodes.Keys + Prefixes(p)
    ensures forall q :: q in r && q !in nodes ==> r[q] == Dir
    ensures forall q :: q in nodes ==> r[q] == nodes[q]
  {
    map q | q in nodes.Keys + Prefixes(p) :: if q in nodes then nodes[q] else Dir
  }

  /** `shutil.move(src, dst)` to a free `dst`: the subtree at `src` reappears at `dst`. */
  function Relocate(nodes: map<Path, Node>, src: Path, dst: Path): (r: map<Path, Node>)
    ensures r.Keys == MoveSet(nodes.Keys, src, dst)
  {
    map q | q in MoveSet(nodes.Keys, src, dst) ::
      if IsPrefix(dst, q) && Rebase(q, dst, src) in nodes then nodes[Rebase(q, dst, src)]
      else if q in nodes then nodes[q]
      else Dir
  }

  /** Every proper ancestor of an entry is a directory entry. */
  lemma {:induction false} AncestorsAreDirs(nodes: map<Path, Node>, q: Path, a: Path)
    requires Tree(nodes) && q in nodes
    ensures IsAncestor(a, q) ==> a in nodes && nodes[a] == Dir
    decreases |q|
  {
    if IsAncestor(a, q) {
      AncestorOfParent(a, q);
      AncestorsAreDirs(nodes, Parent(q), a);
    }
  }

  /** Nothing lies at or under a path that is not in the tree. */
  lemma NothingUnderAbsent(nodes: map<Path, Node>, d: Path)
    requires Tree(nodes) && d !in nodes
    ensures forall q :: q in nodes ==> !IsPrefix(d, q)
  {
    forall q | q in nodes ensures !IsPrefix(d, q) {
      AncestorsAreDirs(nodes, q, d);
      assert q != d;
      assert IsPrefix(d, q) ==> IsAncestor(d, q);
    }
  }

  /** Nothing lies strictly under a file. */
  lemma NothingUnderFile(nodes: map<Path, Node>, f: Path)
    requires Tree(nodes) && f in nodes && nodes[f].File?
    ensures forall q :: q in nodes && IsPrefix(f, q) ==> q == f
  {
    forall q | q in nodes && IsPrefix(f, q) ensures q == f {
      AncestorsAreDirs(nodes, q, f);
    }
  }

  lemma PruneTree(nodes: map<Path, Node>, p: Path)
    requires Tree(nodes) && p != []
    ensures Tree(Prune(nodes, p))
  {
    var r := Prune(nodes, p);
    forall q | q in r && q != [] ensures Parent(q) in r && r[Parent(q)] == Dir {
      assert IsPrefix(Parent(q), q);
      assert IsPrefix(p, Parent(q)) ==> IsPrefix(p, q) by {
        if IsPrefix(p, Parent(q)) { PrefixTransitive(p, Parent(q), q); }
      }
    }
  }

  lemma AddDirsTree(nodes: map<Path, Node>, p: Path)
    requires Tree(nodes) && ValidPath(p)
    requires forall q :: IsAncestor(q, p) && q in nodes ==> nodes[q] == Dir
    requires p in nodes ==> nodes[p] == Dir
    ensures Tree(AddDirs(nodes, p))
  {
    var r := AddDirs(nodes, p);
    forall q | q in r && q != [] ensures Parent(q) in r && r[Parent(q)] == Dir {
      if q !in nodes {
        assert IsPrefix(q, p);
        PrefixTransitive(Parent(q), q, p);
        assert IsAncestor(Parent(q), p);
      }
    }
    forall q | q in r ensures ValidPath(q) {
      if q !in nodes {
        assert q == p[..|q|];
      }
    }
  }

  /** An entry outside `src` keeps its place and node, when `dst` is free. */
  lemma RelocateKeeps(nodes: map<Path, Node>, src: Path, dst: Path, q: Path)
    requires Tree(nodes) && dst !in nodes && q in nodes && !IsPrefix(src, q)
    ensures q in Relocate(nodes, src, dst) && Relocate(nodes, src, dst)[q] == nodes[q]
  {
    AncestorsAreDirs(nodes, q, dst);
    assert q != dst;
  }

  /** An entry at or under `src` reappears, with its node, at the same place under `dst`. */
  lemma RelocateMoves(nodes: map<Path, Node>, src: Path, dst: Path, q: Path)
    requires q in nodes && IsPrefix(src, q)
    ensures Rebase(q, src, dst) in Relocate(nodes, src, dst)
    ensures Relocate(nodes, src, dst)[Rebase(q, src, dst)] == nodes[q]
  {
    RebaseBack(q, src, dst);
  }

  /** What `Relocate` does to each entry, when `dst` is free. */
  lemma RelocateEntries(nodes: map<Path, Node>, src: Path, dst: Path)
    requires Tree(nodes) && dst !in nodes
    ensures forall q :: q in nodes && !IsPrefix(src, q) ==> q in Relocate(nodes, src, dst) && Relocate(nodes, src, dst)[q] == nodes[q]
    ensures forall q :: q in nodes && IsPrefix(src, q) ==>
      Rebase(q, src, dst) in Relocate(nodes, src, dst) && Relocate(nodes, src, dst)[Rebase(q, src, dst)] == nodes[q]
  {
    forall q | q in nodes && !IsPrefix(src, q)
      ensures q in Relocate(nodes, src, dst) && Relocate(nodes, src, dst)[q] == nodes[q]
    {
      RelocateKeeps(nodes, src, dst, q);
    }
    forall q | q in nodes && IsPrefix(src, q)
      ensures Rebase(q, src, dst) in Relocate(nodes, src, dst) && Relocate(nodes, src, dst)[Rebase(q, src, dst)] == nodes[q]
    {
      RelocateMoves(nodes, src, dst, q);
    }
  }

  lemma RelocateTree(nodes: map<Path, Node>, src: Path, dst: Path)
    requires Tree(nodes) && src in nodes && src != [] && dst !in nodes && ValidPath(dst)
    requires !IsPrefix(src, dst) && Parent(dst) in nodes && nodes[Parent(dst)] == Dir
    ensures Tree(Relocate(nodes, src, dst))
  {
    var r := Relocate(nodes, src, dst);
    RelocateKeeps(nodes, src, dst, []);
    forall q | q in r ensures ValidPath(q) && (q != [] ==> Parent(q) in r && r[Parent(q)] == Dir) {
      RelocatedEntry(nodes, src, dst, q);
    }
  }

  lemma RelocatedEntry(nodes: map<Path, Node>, src: Path, dst: Path, q: Path)
    requires Tree(nodes) && src in nodes && src != [] && dst !in nodes && ValidPath(dst)
    requires !IsPrefix(src, dst) && Parent(dst) in nodes && nodes[Parent(dst)] == Dir
    requires q in Relocate(nodes, src, dst)
    ensures ValidPath(q)
    ensures q != [] ==> Parent(q) in Relocate(nodes, src, dst) && Relocate(nodes, src, dst)[Parent(q)] == Dir
  {
    if q in nodes && !IsPrefix(src, q) {
      if q != [] {
        KeptParent(nodes, src, q);
        RelocateKeeps(nodes, src, dst, Parent(q));
      }
    } else {
      var q0 := Rebase(q, dst, src);
      assert q0 in nodes && IsPrefix(src, q0);
      assert q == Rebase(q0, src, dst) by { RebaseBack(q, dst, src); }
      RebaseValid(q0, src, dst);
      if q0 == src {
        PrefixesOfParent(src, dst);
        RelocateKeeps(nodes, src, dst, Parent(dst));
      } else {
        MovedParent(nodes, src, dst, q0);
        RelocateMoves(nodes, src, dst, Parent(q0));
      }
    }
  }

  lemma PrefixesOfParent(a: Path, p: Path)
    ensures p != [] && IsPrefix(a, Parent(p)) ==> IsPrefix(a, p)
  {
    if p != [] && IsPrefix(a, Parent(p)) {
      PrefixTransitive(a, Parent(p), p);
    }
  }

  lemma KeptParent(nodes: map<Path, Node>, src: Path, q: Path)
    requires Tree(nodes) && q in nodes && q != [] && !IsPrefix(src, q)
    ensures Parent(q) in nodes && nodes[Parent(q)] == Dir && !IsPrefix(src, Parent(q))
  {
    PrefixesOfParent(src, q);
  }

  lemma MovedParent(nodes: map<Path, Node>, src: Path, dst: Path, q0: Path)
    requires Tree(nodes) && q0 in nodes && IsPrefix(src, q0) && q0 != src
    ensures Parent(q0) in nodes && nodes[Parent(q0)] == Dir && IsPrefix(src, Parent(q0))
    ensures Parent(Rebase(q0, src, dst)) == Rebase(Parent(q0), src, dst)
  {
    assert Parent(q0)[..|src|] == q0[..|src|];
    assert Parent(q0)[|src|..] == q0[|src|..][..|q0| - |src| - 1];
  }

  /** Making a free or file entry into a file keeps the tree. */
  /** Replacing a file's contents keeps a valid tree valid. */
  lemma RewriteTree(nodes: map<Path, Node>, p: Path, data: seq<byte>)
    requires Tree(nodes) && p in nodes && nodes[p].File?
    ensures Tree(nodes[p := File(data)])
  {
    forall q | q in nodes[p := File(data)] && q != []
      ensures Parent(q) in nodes && nodes[p := File(data)][Parent(q)] == Dir
    {
      assert Parent(q) != p;
    }
  }

  lemma FreeOrFile(nodes: map<Path, Node>, p: Path)
    requires Tree(nodes) && ValidPath(p) && !(p in nodes && nodes[p] == Dir)
    requires Parent(p) in nodes && nodes[Parent(p)] == Dir
    ensures forall n: Node :: n.File? ==> Tree(nodes[p := n])
  {
    assert p != [];
    forall q | q in nodes && q != [] ensures Parent(q) != p {
      AncestorsAreDirs(nodes, q, p);
    }
  }

  /** When `os.makedirs(p)` succeeds: nothing is at `p`, and no proper prefix of it is a file. */
  predicate CanMakeDirs(nodes: map<Path, Node>, p: Path) {
    p !in nodes && forall q :: IsAncestor(q, p) && q in nodes ==> nodes[q] == Dir
  }

  /** Adding the directories that already exist changes nothing. */
  lemma AddDirsPresent(nodes: map<Path, Node>, p: Path)
    requires Tree(nodes) && p in nodes && nodes[p] == Dir
    ensures AddDirs(nodes, p) == nodes
  {
    forall q | IsPrefix(q, p) ensures q in nodes {
      if q != p {
        assert IsAncestor(q, p);
        AncestorsAreDirs(nodes, p, q);
      }
    }
  }

  /** When `os.rename(src, dst)` succeeds: `src` exists and is not `.`, `dst` is free, outside `src`, and its parent is a directory. */
  predicate CanRename(nodes: map<Path, Node>, src: Path, dst: Path) {
    src in nodes && dst !in nodes && src != [] && !IsPrefix(src, dst) && Parent(dst) in nodes && nodes[Parent(dst)] == Dir
  }

  /** When `shutil.move`'s fallback for a directory succeeds: `copytree` can make the missing parents of `dst`. */
  predicate CanCopyTree(nodes: map<Path, Node>, src: Path, dst: Path) {
    src in nodes && nodes[src] == Dir && dst !in nodes && src != [] && !IsPrefix(src, dst) && CanMakeDirs(nodes, Parent(dst))
  }

  /** When `Disk.Move(src, dst)` succeeds: by a rename, or for a directory by `copytree` and `rmtree`. */
  predicate CanMove(nodes: map<Path, Node>, src: Path, dst: Path) {
    CanRename(nodes, src, dst) || CanCopyTree(nodes, src, dst)
  }

  /** The tree after a successful `shutil.move(src, dst)`: the missing parents of `dst` made, then the subtree relocated. */
  function MoveTree(nodes: map<Path, Node>, src: Path, dst: Path): map<Path, Node> {
    Relocate(AddDirs(nodes, Parent(dst)), src, dst)
  }

  /** After the parents of `dst` are made, the move is a plain rename, and it keeps the tree well formed. */
  lemma MoveTreeRenames(nodes: map<Path, Node>, src: Path, dst: Path)
    requires Tree(nodes) && ValidPath(dst) && CanMove(nodes, src, dst)
    ensures Tree(AddDirs(nodes, Parent(dst))) && CanRename(AddDirs(nodes, Parent(dst)), src, dst)
    ensures Tree(MoveTree(nodes, src, dst))
    ensures Parent(dst) in MoveTree(nodes, src, dst) && MoveTree(nodes, src, dst)[Parent(dst)] == Dir
    ensures CanRename(nodes, src, dst) ==> AddDirs(nodes, Parent(dst)) == nodes
  {
    assert dst != [];
    assert ValidPath(Parent(dst));
    if CanRename(nodes, src, dst) {
      AddDirsPresent(nodes, Parent(dst));
    } else {
      AddDirsTree(nodes, Parent(dst));
    }
    var made := AddDirs(nodes, Parent(dst));
    assert IsPrefix(Parent(dst), Parent(dst));
    assert dst !in made by { assert !IsPrefix(dst, Parent(dst)); }
    RelocateTree(made, src, dst);
    assert !IsPrefix(src, Parent(dst)) by {
      if IsPrefix(src, Parent(dst)) { PrefixTransitive(src, Parent(dst), dst); }
    }
    RelocateKeeps(made, src, dst, Parent(dst));
  }

  /**
   * Moving a directory to a `dst` whose parent is missing succeeds: the parents of `dst` are
   * made as directories and the subtree arrives at `dst`, while the same move of a file fails.
   */
  lemma MoveMakesParents(nodes: map<Path, Node>, src: Path, dst: Path)
    requires Tree(nodes) && ValidPath(dst) && src in nodes && src != [] && dst !in nodes && !IsPrefix(src, dst)
    requires CanMakeDirs(nodes, Parent(dst))
    ensures CanMove(nodes, src, dst) <==> nodes[src] == Dir
    ensures nodes[src] == Dir ==> (var moved := MoveTree(nodes, src, dst);
      Parent(dst) !in nodes && Parent(dst) in moved && moved[Parent(dst)] == Dir && dst in moved && moved[dst] == Dir && src !in moved)
  {
    if nodes[src] == Dir {
      MoveTreeRenames(nodes, src, dst);
      var made := AddDirs(nodes, Parent(dst));
      assert !IsPrefix(dst, src) by { NothingUnderAbsent(nodes, dst); }
      assert Rebase(src, src, dst) == dst;
      RelocateMoves(made, src, dst, src);
      RelocateEntries(made, src, dst);
    }
  }

  /** The file tree: entries keyed by lexical path, as seen from the server's working directory. */
  class Disk {
    var nodes: map<Path, Node>

    predicate Valid()
      reads this
    {
      Tree(nodes)
    }

    constructor ()
      ensures Valid() && nodes == map[[] := Dir]
    {
      nodes := map[[] := Dir];
    }

    /** `os.path.isfile(p)` */
    predicate IsFile(p: Path)
      reads this
    {
      p in nodes && nodes[p].File?
    }

    /** `os.path.isdir(p)` */
    predicate IsDir(p: Path)
      reads this
    {
      p in nodes && nodes[p] == Dir
    }

    /** `os.makedirs(p)` with `exist_ok=False`. */
    method MakeDirs(p: Path) returns (r: Result<(), FsError>)
      requires Valid() && ValidPath(p)
      modifies this
      ensures Valid()
      ensures r.Ok? <==> old(CanMakeDirs(nodes, p))
      ensures r.Ok? ==> nodes == AddDirs(old(nodes), p)
      ensures r.Err? ==> nodes == old(nodes) && r.error == (if p in nodes then FileExists else NotADirectory)
    {
      if p in nodes {
        return Err(FileExists);
      }
      if !(forall i :: 0 <= i < |p| && p[..i] in nodes ==> nodes[p[..i]] == Dir) {
        return Err(NotADirectory);
      }
      assert forall q :: IsAncestor(q, p) && q in nodes ==> nodes[q] == Dir by {
        forall q | IsAncestor(q, p) && q in nodes ensures nodes[q] == Dir {
          assert q == p[..|q|];
        }
      }
      AddDirsTree(nodes, p);
      nodes := AddDirs(nodes, p);
      return Ok(());
    }

    /**
     * `shutil.rmtree(p)`: the directory `p` and everything under it. For the working directory
     * `.` every entry below it goes, and the final `rmdir(".")` then fails.
     */
    method RemoveTree(p: Path) returns (r: Result<(), FsError>)
      requires Valid()
      modifies this
      ensures Valid()
      ensures r.Ok? <==> old(IsDir(p)) && p != []
      ensures r.Ok? ==> nodes == Prune(old(nodes), p)
      ensures r.Err? ==> nodes == if p == [] then map[[] := Dir] else old(nodes)
    {
      if p !in nodes {
        return Err(FileNotFound);
      }
      if nodes[p] != Dir {
        return Err(NotADirectory);
      }
      if p == [] {
        nodes := map[[] := Dir];
        return Err(InvalidArgument);
      }
      PruneTree(nodes, p);
      nodes := Prune(nodes, p);
      return Ok(());
    }

    /** `os.remove(p)`: a single file. */
    method Remove(p: Path) returns (r: Result<(), FsError>)
      requires Valid()
      modifies this
      ensures Valid()
      ensures r.Ok? <==> old(IsFile(p))
      ensures r.Ok? ==> nodes == Prune(old(nodes), p) && nodes.Keys == old(nodes).Keys - {p}
      ensures r.Err? ==> nodes == old(nodes)
    {
      if p !in nodes {
        return Err(FileNotFound);
      }
      if nodes[p] == Dir {
        return Err(IsADirectory);
      }
      NothingUnderFile(nodes, p);
      PruneTree(nodes, p);
      nodes := Prune(nodes, p);
      return Ok(());
    }

    /**
     * `shutil.move(src, dst)`. Moving onto an existing entry is refused here; see the README for
     * what `shutil` would do instead. When `os.rename` fails because `dst`'s parent is missing, a
     * directory falls back to `copytree`, whose `makedirs` creates the missing parents, and then to
     * `rmtree(src)`; a file falls back to `copy2`, which fails.
     */
    method Move(src: Path, dst: Path) returns (r: Result<(), FsError>)
      requires Valid() && ValidPath(dst)
      modifies this
      ensures Valid()
      ensures r.Ok? <==> old(CanMove(nodes, src, dst))
      ensures r.Ok? ==> nodes == MoveTree(old(nodes), src, dst)
      ensures r.Ok? && old(CanRename(nodes, src, dst)) ==> nodes == Relocate(old(nodes), src, dst)
      ensures r.Err? ==> nodes == old(nodes)
    {
      if src !in nodes {
        return Err(FileNotFound);
      }
      if dst in nodes {
        return Err(FileExists);
      }
      if src == [] || IsPrefix(src, dst) {
        return Err(InvalidArgument);
      }
      if Parent(dst) in nodes && nodes[Parent(dst)] == Dir {
        AddDirsPresent(nodes, Parent(dst));
      } else {
        if nodes[src] != Dir {
          return Err(if Parent(dst) in nodes then NotADirectory else FileNotFound);
        }
        assert ValidPath(Parent(dst));
        var made := MakeDirs(Parent(dst));
        if made.Err? {
          return Err(made.error);
        }
      }
      RelocateTree(nodes, src, dst);
      nodes := Relocate(nodes, src, dst);
      return Ok(());
    }

    /** `shutil.copy2(src, dst)`: a file's contents; a directory is refused. */
    method Copy2(src: Path, dst: Path) returns (r: Result<(), FsError>)
      requires Valid() && ValidPath(dst)
      modifies this
      ensures Valid()
      ensures r.Ok? <==> old(IsFile(src) && !IsDir(dst) && IsDir(Parent(dst)))
      ensures r.Ok? ==> nodes == old(nodes)[dst := old(nodes)[src]]
      ensures r.Err? ==> nodes == old(nodes)
    {
      if src !in nodes {
        return Err(FileNotFound);
      }
      if nodes[src] == Dir || (dst in nodes && nodes[dst] == Dir) {
        return Err(IsADirectory);
      }
      if Parent(dst) !in nodes {
        return Err(FileNotFound);
      }
      if nodes[Parent(dst)] != Dir {
        return Err(NotADirectory);
      }
      FreeOrFile(nodes, dst);
      nodes := nodes[dst := nodes[src]];
      return Ok(());
    }

    /** `open(p, "wb")`: creates or truncates a file. */
    method Create(p: Path) returns (r: Result<(), FsError>)
      requires Valid() && ValidPath(p)
      modifies this
      ensures Valid()
      ensures r.Ok? <==> old(!IsDir(p) && IsDir(Parent(p)))
      ensures r.Ok? ==> nodes == old(nodes)[p := File([])]
      ensures r.Err? ==> nodes == old(nodes)
    {
      if p in nodes && nodes[p] == Dir {
        return Err(IsADirectory);
      }
      if Parent(p) !in nodes {
        return Err(FileNotFound);
      }
      if nodes[Parent(p)] != Dir {
        return Err(NotADirectory);
      }
      FreeOrFile(nodes, p);
      nodes := nodes[p := File([])];
      return Ok(());
    }

    /**
     * `f.write(chunk)` on a file opened with `open(p, "wb")`: appends at the end. The handle is
     * open, so the file is there; only its contents change and the tree stays valid (RewriteTree).
     */
    method Append(p: Path, chunk: seq<byte>)
      requires IsFile(p)
      modifies this
      ensures nodes == old(nodes)[p := File(old(nodes)[p].data + chunk)]
    {
      nodes := nodes[p := File(nodes[p].data + chunk)];
    }
  }
}
