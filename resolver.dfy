/**
 * `FileResolver` of src/util/file.py: the mapping between the data tree `data/data`, the scratch
 * tree `data/temp` and paths relative to them. Paths are lexical (`relative_to` and `joinpath`
 * compare and concatenate parts); the directories the resolver creates are effects on a `Disk`.
 */
module Resolver {
  import opened Wrappers
  import opened Paths
  import opened Storage

  /** `FileResolver.base_path`, `./data/data` */
  const Base: Path := ["data", "data"]

  /** `FileResolver.temp_path`, `./data/temp` */
  const Temp: Path := ["data", "temp"]

  datatype ResolveError = ValueError | Fs(fs: FsError)

  /** `p.relative_to(base)`: the parts of `p` after `base`; `ValueError` when `p` is not at or under `base`. */
  function RelativeTo(p: Path, base: Path): (r: Result<Path, ResolveError>)
    ensures r.Ok? <==> IsPrefix(base, p)
    ensures r.Ok? ==> base + r.value == p
    ensures r.Err? ==> r.error == ValueError
  {
    if IsPrefix(base, p) then
      assert base + p[|base|..] == p[..|base|] + p[|base|..];
      Ok(p[|base|..])
    else Err(ValueError)
  }

  /** `mkdir(parents=True, exist_ok=True)` succeeds iff `p` is already a directory or `os.makedirs` could create it. */
  predicate CanEnsureDir(nodes: map<Path, Node>, p: Path) {
    (p in nodes && nodes[p] == Dir) || (p !in nodes && forall q :: IsAncestor(q, p) && q in nodes ==> nodes[q] == Dir)
  }

  /** Why `mkdir` fails when it cannot: a file is at `p`, or some ancestor of `p` is not a directory. */
  function EnsureDirError(nodes: map<Path, Node>, p: Path): ResolveError {
    Fs(if p in nodes then FileExists else NotADirectory)
  }

  /** `p.mkdir(parents=True, exist_ok=True)` */
  method EnsureDir(disk: Disk, p: Path) returns (r: Result<(), ResolveError>)
    requires disk.Valid() && ValidPath(p)
    modifies disk
    ensures disk.Valid()
    ensures r.Ok? <==> old(CanEnsureDir(disk.nodes, p))
    ensures r.Ok? ==> disk.nodes == AddDirs(old(disk.nodes), p) && disk.IsDir(p)
    ensures r.Err? ==> disk.nodes == old(disk.nodes) && r.error == old(EnsureDirError(disk.nodes, p))
  {
    if disk.IsDir(p) {
      AddDirsPresent(disk.nodes, p);
      return Ok(());
    }
    var m := disk.MakeDirs(p);
    if m.Err? {
      return Err(Fs(m.error));
    }
    return Ok(());
  }

  /** `get_file_str(rel)`: `base` joined with `rel`, after making sure its parent directory exists. */
  method GetFileStr(disk: Disk, rel: Path) returns (r: Result<Path, ResolveError>)
    requires disk.Valid() && ValidPath(rel)
    modifies disk
    ensures disk.Valid()
    ensures r.Ok? <==> old(CanEnsureDir(disk.nodes, Parent(Base + rel)))
    ensures r.Ok? ==> r.value == Base + rel && disk.IsDir(Parent(r.value))
    ensures r.Ok? ==> disk.nodes == AddDirs(old(disk.nodes), Parent(Base + rel))
    ensures r.Err? ==> disk.nodes == old(disk.nodes)
  {
    var file := Base + rel;
    var e := EnsureDir(disk, Parent(file));
    if e.Err? {
      return Err(e.error);
    }
    return Ok(file);
  }

  /** `get_file(p)`: `p` re-rooted on `base`, which is `p` itself; `ValueError` when `p` is not under `base`. */
  method GetFile(disk: Disk, p: Path) returns (r: Result<Path, ResolveError>)
    requires disk.Valid() && ValidPath(p)
    modifies disk
    ensures disk.Valid()
    ensures !IsPrefix(Base, p) ==> r == Err(ValueError) && disk.nodes == old(disk.nodes)
    ensures IsPrefix(Base, p) ==> (r.Ok? <==> old(CanEnsureDir(disk.nodes, Parent(p))))
    ensures r.Ok? ==> r.value == p && disk.IsDir(Parent(p))
    ensures r.Err? ==> disk.nodes == old(disk.nodes)
  {
    var rel := RelativeTo(p, Base);
    if rel.Err? {
      return Err(rel.error);
    }
    r := GetFileStr(disk, rel.value);
  }

  /** `get_temp_str(rel)`: `temp` joined with `rel`, made to exist as a directory. */
  method GetTempStr(disk: Disk, rel: Path) returns (r: Result<Path, ResolveError>)
    requires disk.Valid() && ValidPath(rel)
    modifies disk
    ensures disk.Valid()
    ensures r.Ok? <==> old(CanEnsureDir(disk.nodes, Temp + rel))
    ensures r.Ok? ==> r.value == Temp + rel && disk.IsDir(r.value)
    ensures r.Ok? ==> disk.nodes == AddDirs(old(disk.nodes), Temp + rel)
    ensures r.Err? ==> disk.nodes == old(disk.nodes) && r.error == old(EnsureDirError(disk.nodes, Temp + rel))
  {
    var temp := Temp + rel;
    var e := EnsureDir(disk, temp);
    if e.Err? {
      return Err(e.error);
    }
    return Ok(temp);
  }

  /** `get_temp(p)`: the scratch directory for `p`, `temp/x` for `p == base/x`. */
  method GetTemp(disk: Disk, p: Path) returns (r: Result<Path, ResolveError>)
    requires disk.Valid() && ValidPath(p)
    modifies disk
    ensures disk.Valid()
    ensures !IsPrefix(Base, p) ==> r == Err(ValueError) && disk.nodes == old(disk.nodes)
    ensures IsPrefix(Base, p) ==> (r.Ok? <==> old(CanEnsureDir(disk.nodes, Rebase(p, Base, Temp))))
    ensures r.Ok? ==> IsPrefix(Base, p) && r.value == Rebase(p, Base, Temp) && disk.IsDir(r.value)
    ensures r.Ok? ==> disk.nodes == AddDirs(old(disk.nodes), r.value)
    ensures r.Err? ==> disk.nodes == old(disk.nodes)
    ensures r.Err? && IsPrefix(Base, p) ==> r.error == old(EnsureDirError(disk.nodes, Rebase(p, Base, Temp)))
  {
    var rel := RelativeTo(p, Base);
    if rel.Err? {
      return Err(rel.error);
    }
    r := GetTempStr(disk, rel.value);
  }

  /** The scratch tree and the data tree are disjoint siblings: no scratch path is at or under `base`, and no data path under `temp`. */
  lemma TempDisjoint(x: Path)
    ensures !IsPrefix(Base, Temp + x) && !IsPrefix(Temp, Base + x)
  {
    assert (Temp + x)[1] == "temp" && (Base + x)[1] == "data";
  }

  /** Mapping a data path to its scratch directory and back is the identity. */
  lemma TempRoundTrip(p: Path)
    requires IsPrefix(Base, p)
    ensures Rebase(Rebase(p, Base, Temp), Temp, Base) == p
  {
    RebaseBack(p, Base, Temp);
  }

  /**
   * `get_base_url(a, b)`: `a` with the trailing parts `b` removed; None when `a` does not end with `b`.
   * Specified by the assertions of test/util/test_file.py.
   */
  function BaseUrl(a: Path, b: Path): (r: Option<Path>)
    ensures r.Some? <==> |b| <= |a| && a[|a| - |b|..] == b
    ensures r.Some? ==> r.value + b == a
  {
    if |b| <= |a| && a[|a| - |b|..] == b then
      assert a[..|a| - |b|] + a[|a| - |b|..] == a;
      Some(a[..|a| - |b|])
    else None
  }

  /** Removing a suffix that was appended gives back the front. */
  lemma BaseUrlOfJoin(x: Path, b: Path)
    ensures BaseUrl(x + b, b) == Some(x)
  {
    assert (x + b)[|x + b| - |b|..] == b;
  }

  /** The four cases of test/util/test_file.py. */
  lemma BaseUrlSamples()
    ensures BaseUrl(["data", "aaaa"], ["aaaa"]) == Some(["data"])
    ensures BaseUrl(["data", "aaaa", "bbbb"], ["aaaa", "bbbb"]) == Some(["data"])
    ensures BaseUrl(["data", "aaaa", "bbbb", "cccc"], ["aaaa", "bbbb", "cccc"]) == Some(["data"])
    ensures BaseUrl(["data", "aaaa", "bbbb", "cccc"], ["bbbb", "cccc"]) == Some(["data", "aaaa"])
  {
    BaseUrlOfJoin(["data"], ["aaaa"]);
    assert ["data"] + ["aaaa"] == ["data", "aaaa"];
    BaseUrlOfJoin(["data"], ["aaaa", "bbbb"]);
    assert ["data"] + ["aaaa", "bbbb"] == ["data", "aaaa", "bbbb"];
    BaseUrlOfJoin(["data"], ["aaaa", "bbbb", "cccc"]);
    assert ["data"] + ["aaaa", "bbbb", "cccc"] == ["data", "aaaa", "bbbb", "cccc"];
    BaseUrlOfJoin(["data", "aaaa"], ["bbbb", "cccc"]);
    assert ["data", "aaaa"] + ["bbbb", "cccc"] == ["data", "aaaa", "bbbb", "cccc"];
  }
}
