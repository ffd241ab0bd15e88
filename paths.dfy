/**
 * Lexical POSIX paths, as pathlib represents them: a sequence of parts.
 * `Str` is `str(path)`: the parts joined by '/', and "." for the empty path.
 * pathlib never resolves "..", so neither does this module: ".." is an ordinary part.
 */
module Paths {

  type Name = string
  type Path = seq<Name>

  /** A part pathlib can hold: non-empty, without the separator, and not "." (pathlib drops "."). */
  predicate ValidName(n: Name) {
    n != [] && '/' !in n && n != "."
  }

  predicate ValidPath(p: Path) {
    forall i :: 0 <= i < |p| ==> ValidName(p[i])
  }

  function Join(p: Path): string
    requires p != []
    decreases |p|, 1
  {
    p[0] + Rest(p)
  }

  /** What follows the first part in `Join(p)`: empty, or a '/' and the remaining parts. */
  function Rest(p: Path): string
    requires p != []
    decreases |p|, 0
  {
    if |p| == 1 then "" else "/" + Join(p[1..])
  }

  function Str(p: Path): string {
    if p == [] then "." else Join(p)
  }

  predicate StartsWith(s: string, t: string) {
    |t| <= |s| && s[..|t|] == t
  }

  /** `a == b` or `a` is one of `b.parents`. */
  predicate IsPrefix(a: Path, b: Path) {
    |a| <= |b| && b[..|a|] == a
  }

  /** `a in b.parents` */
  predicate IsAncestor(a: Path, b: Path) {
    |a| < |b| && b[..|a|] == a
  }

  /** `p.parent`; the parent of the empty path is itself. */
  function Parent(p: Path): (r: Path)
    ensures p != [] ==> IsAncestor(r, p) && |r| == |p| - 1
  {
    if p == [] then [] else p[..|p| - 1]
  }

  /** `dst.joinpath(p.relative_to(src))` for a `p` at or under `src`. */
  function Rebase(p: Path, src: Path, dst: Path): (r: Path)
    requires IsPrefix(src, p)
    ensures IsPrefix(dst, r) && |r| - |dst| == |p| - |src|
    ensures p == src ==> r == dst
  {
    dst + p[|src|..]
  }

  lemma RebaseBack(p: Path, src: Path, dst: Path)
    requires IsPrefix(src, p)
    ensures Rebase(Rebase(p, src, dst), dst, src) == p
  {
    assert (dst + p[|src|..])[|dst|..] == p[|src|..];
    assert p == p[..|src|] + p[|src|..];
  }

  lemma RebaseValid(p: Path, src: Path, dst: Path)
    requires IsPrefix(src, p) && ValidPath(p) && ValidPath(dst)
    ensures ValidPath(Rebase(p, src, dst))
  {
    var r := Rebase(p, src, dst);
    forall i | 0 <= i < |r| ensures ValidName(r[i]) {
      if i >= |dst| { assert r[i] == p[|src| + i - |dst|]; }
    }
  }

  lemma PrefixTransitive(a: Path, b: Path, c: Path)
    requires IsPrefix(a, b) && IsPrefix(b, c)
    ensures IsPrefix(a, c)
  {
    assert c[..|a|] == c[..|b|][..|a|];
  }

  /** Two prefixes of one path are comparable. */
  lemma PrefixesComparable(a: Path, b: Path, c: Path)
    requires IsPrefix(a, c) && IsPrefix(b, c)
    ensures IsPrefix(a, b) || IsPrefix(b, a)
  {
    if |a| <= |b| { assert b[..|a|] == c[..|b|][..|a|]; } else { assert a[..|b|] == c[..|a|][..|b|]; }
  }

  lemma JoinAppend(a: Path, b: Path)
    requires a != [] && b != []
    ensures Join(a + b) == Join(a) + "/" + Join(b)
    decreases |a|
  {
    if |a| == 1 {
      assert (a + b)[1..] == b;
    } else {
      assert (a + b)[1..] == a[1..] + b;
      JoinAppend(a[1..], b);
    }
  }

  lemma NoSlashInValidName(p: Path, i: int)
    requires ValidPath(p) && 0 <= i < |p|
    ensures '/' !in p[i] && p[i] != [] && p[i] != "."
  {
  }

  /** No '/' occurs in `b + t` before the end of `b`, and if `t` is not empty one occurs right there. */
  lemma FirstSlash(b: string, t: string)
    requires '/' !in b
    requires t == [] || t[0] == '/'
    ensures forall i :: 0 <= i < |b| ==> (b + t)[i] != '/'
    ensures t != [] ==> (b + t)[|b|] == '/'
  {
    forall i | 0 <= i < |b| ensures (b + t)[i] != '/' {
      assert (b + t)[i] == b[i];
      assert b[i] in b;
    }
  }

  /** The first '/' of `b + t` is where `b` ends, so a segment followed by '/' pins `b` down. */
  lemma SegmentPrefix(a: string, b: string, t: string)
    requires '/' !in a && '/' !in b
    requires t == [] || t[0] == '/'
    requires StartsWith(b + t, a + "/")
    ensures a == b && t != []
  {
    var s := b + t;
    FirstSlash(b, t);
    FirstSlash(a, "/");
    assert s[|a|] == (a + "/")[|a|];
    assert forall i :: 0 <= i <= |a| ==> s[i] == (a + "/")[i];
    assert |a| == |b|;
    assert a == s[..|a|] == b;
  }

  lemma SegmentEqual(a: string, u: string, b: string, t: string)
    requires '/' !in a && '/' !in b
    requires (u == [] || u[0] == '/') && (t == [] || t[0] == '/')
    requires a + u == b + t
    ensures a == b && u == t
  {
    var s := a + u;
    FirstSlash(b, t);
    FirstSlash(a, u);
    assert |a| == |b|;
    assert a == s[..|a|] == b;
    assert u == s[|a|..] == t;
  }

  lemma RestShape(p: Path)
    requires p != []
    ensures Rest(p) == [] || Rest(p)[0] == '/'
  {
  }

  lemma StartsWithTrans(s: string, t: string, u: string)
    requires StartsWith(s, t) && StartsWith(t, u)
    ensures StartsWith(s, u)
  {
    assert s[..|u|] == s[..|t|][..|u|];
  }

  lemma StartsWithCancel(pre: string, s: string, t: string)
    requires StartsWith(pre + s, pre + t)
    ensures StartsWith(s, t)
  {
    assert (pre + s)[..|pre + t|][|pre|..] == s[..|t|];
  }

  lemma JoinCons(p: Path)
    requires |p| >= 2
    ensures Join(p) == p[0] + "/" + Join(p[1..])
  {
  }

  /** `str(x) + "/"` begins with the first part of `x` and a '/'. */
  lemma FirstSegmentOfJoin(x: Path)
    requires x != []
    ensures StartsWith(Join(x) + "/", x[0] + "/")
  {
    var s := Join(x) + "/";
    if |x| == 1 {
      assert Rest(x) == "";
      assert Join(x) == x[0] + "";
      assert s == x[0] + "/";
    } else {
      JoinCons(x);
      assert s == x[0] + ("/" + Join(x[1..]) + "/");
      assert s[..|x[0]|] == x[0];
      assert s[|x[0]|] == '/';
      assert s[..|x[0]| + 1] == s[..|x[0]|] + [s[|x[0]|]];
    }
  }

  lemma {:induction false} AncestorStartsWith(x: Path, f: Path)
    requires x != [] && IsAncestor(x, f)
    ensures StartsWith(Str(f), Str(x) + "/")
  {
    var rest := f[|x|..];
    assert f == x + rest;
    JoinAppend(x, rest);
    assert Str(f) == (Join(x) + "/") + Join(rest);
  }

  /** A path whose string starts with `str(x) + "/"` has at least two parts, the first being `x`'s first part. */
  lemma HeadsAgree(x: Path, f: Path)
    requires ValidPath(x) && ValidPath(f) && x != []
    requires StartsWith(Str(f), Str(x) + "/")
    ensures |f| >= 2 && f[0] == x[0]
  {
    NoSlashInValidName(x, 0);
    assert |Str(f)| >= 2;
    assert f != [];
    NoSlashInValidName(f, 0);
    RestShape(f);
    FirstSegmentOfJoin(x);
    StartsWithTrans(Join(f), Join(x) + "/", x[0] + "/");
    assert Join(f) == f[0] + Rest(f);
    SegmentPrefix(x[0], f[0], Rest(f));
  }

  /** With the first parts equal, the string test passes to the remaining parts. */
  lemma TailStartsWith(x: Path, f: Path)
    requires |x| >= 2 && |f| >= 2 && x[0] == f[0]
    requires StartsWith(Join(f), Join(x) + "/")
    ensures StartsWith(Join(f[1..]), Join(x[1..]) + "/")
  {
    JoinCons(x);
    JoinCons(f);
    var pre := x[0] + "/";
    assert Join(f) == pre + Join(f[1..]);
    assert Join(x) + "/" == pre + (Join(x[1..]) + "/");
    StartsWithCancel(pre, Join(f[1..]), Join(x[1..]) + "/");
  }

  lemma {:induction false} StartsWithAncestor(x: Path, f: Path)
    requires ValidPath(x) && ValidPath(f) && x != []
    requires StartsWith(Str(f), Str(x) + "/")
    ensures IsAncestor(x, f)
    decreases |x|
  {
    HeadsAgree(x, f);
    if |x| == 1 {
      assert f[..1] == [f[0]] == x;
    } else {
      TailStartsWith(x, f);
      StartsWithAncestor(x[1..], f[1..]);
      assert f[..|x|] == [f[0]] + f[1..][..|x| - 1];
      assert x == [x[0]] + x[1..];
    }
  }

  /**
   * `str(f)` starts with `str(x) + "/"` exactly when `x` is a proper ancestor of `f`:
   * the string test the catalog's LIKE filter performs is the tree relation on parts.
   */
  lemma StrAncestorIff(x: Path, f: Path)
    requires ValidPath(x) && ValidPath(f) && x != []
    ensures StartsWith(Str(f), Str(x) + "/") <==> IsAncestor(x, f)
  {
    if IsAncestor(x, f) { AncestorStartsWith(x, f); }
    if StartsWith(Str(f), Str(x) + "/") { StartsWithAncestor(x, f); }
  }

  lemma JoinNotDot(p: Path)
    requires ValidPath(p) && p != []
    ensures Join(p) != "."
  {
    NoSlashInValidName(p, 0);
    if |p| >= 2 {
      JoinCons(p);
      assert |Join(p)| >= 2;
    }
  }

  lemma {:induction false} JoinInjective(a: Path, b: Path)
    requires ValidPath(a) && ValidPath(b) && a != [] && b != []
    requires Join(a) == Join(b)
    ensures a == b
    decreases |a|
  {
    NoSlashInValidName(a, 0);
    NoSlashInValidName(b, 0);
    RestShape(a);
    RestShape(b);
    SegmentEqual(a[0], Rest(a), b[0], Rest(b));
    if |a| == 1 || |b| == 1 {
      assert |a| == 1 && |b| == 1;
      assert a == [a[0]] && b == [b[0]];
    } else {
      assert Join(a[1..]) == Rest(a)[1..] == Rest(b)[1..] == Join(b[1..]);
      JoinInjective(a[1..], b[1..]);
      assert a == [a[0]] + a[1..] && b == [b[0]] + b[1..];
    }
  }

  /** `str` is injective on pathlib paths. */
  lemma StrInjective(a: Path, b: Path)
    requires ValidPath(a) && ValidPath(b)
    ensures Str(a) == Str(b) <==> a == b
  {
    if a != [] { JoinNotDot(a); }
    if b != [] { JoinNotDot(b); }
    if a != [] && b != [] && Str(a) == Str(b) { JoinInjective(a, b); }
  }

  /** Every ancestor of a path is a prefix of its parent. */
  lemma AncestorOfParent(a: Path, p: Path)
    requires IsAncestor(a, p)
    ensures IsPrefix(a, Parent(p))
  {
    assert Parent(p)[..|a|] == p[..|a|];
  }

  /** The paths of `s` that survive removing the subtree at `p`. */
  function PruneSet(s: set<Path>, p: Path): (r: set<Path>)
    ensures forall q :: q in r <==> q in s && !IsPrefix(p, q)
  {
    set q | q in s && !IsPrefix(p, q)
  }

  /** The subtree of `s` at `src`, carried over to `dst`. */
  function Image(s: set<Path>, src: Path, dst: Path): (r: set<Path>)
    ensures forall q :: q in s && IsPrefix(src, q) ==> Rebase(q, src, dst) in r
    ensures forall q :: q in r ==> IsPrefix(dst, q) && Rebase(q, dst, src) in s && IsPrefix(src, Rebase(q, dst, src))
  {
    var r := set q | q in s && IsPrefix(src, q) :: Rebase(q, src, dst);
    assert forall q :: q in r ==> IsPrefix(dst, q) && Rebase(q, dst, src) in s && IsPrefix(src, Rebase(q, dst, src)) by {
      forall q | q in r ensures IsPrefix(dst, q) && Rebase(q, dst, src) in s && IsPrefix(src, Rebase(q, dst, src)) {
        var q0 :| q0 in s && IsPrefix(src, q0) && q == Rebase(q0, src, dst);
        RebaseBack(q0, src, dst);
      }
    }
    r
  }

  /** The paths of `s` after the subtree at `src` is renamed to `dst`. */
  function MoveSet(s: set<Path>, src: Path, dst: Path): (r: set<Path>)
    ensures forall q :: q in s && !IsPrefix(src, q) ==> q in r
    ensures forall q :: q in s && IsPrefix(src, q) ==> Rebase(q, src, dst) in r
    ensures forall q :: q in r ==> (q in s && !IsPrefix(src, q)) || (IsPrefix(dst, q) && Rebase(q, dst, src) in s)
  {
    PruneSet(s, src) + Image(s, src, dst)
  }
}
