/**
 * Path escaping for LIKE patterns (src/sql/sql.py) and the descendant filter
 * `filename = X OR filename LIKE '<escape_path(X)><sep>%'` that the catalog and the lock table build.
 */
module Sql {
  import opened Wrappers
  import opened Paths
  import opened LikeOperator

  /** `s.replace(c, r)` for a one-character needle `c`. */
  function Replace(s: string, c: char, r: string): string {
    if s == [] then [] else (if s[0] == c then r else [s[0]]) + Replace(s[1..], c, r)
  }

  /** `escape_path`: three chained replaces, backslash first, then `%`, then `_`. */
  function EscapePath(s: string): string {
    Replace(Replace(Replace(s, '\\', "\\\\"), '%', "\\%"), '_', "\\_")
  }

  /** The separator of the host (POSIX). */
  const OsSep: char := '/'

  /** `sep`: the host separator passed through the same three replaces. */
  function Sep(osSep: char): string {
    Replace(Replace(Replace([osSep], '\\', "\\\\"), '%', "\\%"), '_', "\\_")
  }

  predicate IsSpecial(c: char) {
    c == '\\' || c == '%' || c == '_'
  }

  /** What a single-pass escaper would emit for one character. */
  function EscapeChar(c: char): string {
    if IsSpecial(c) then ['\\', c] else [c]
  }

  function EscapeEach(s: string): string {
    if s == [] then [] else EscapeChar(s[0]) + EscapeEach(s[1..])
  }

  function CountSpecial(s: string): nat {
    if s == [] then 0 else (if IsSpecial(s[0]) then 1 else 0) + CountSpecial(s[1..])
  }

  /** Drops the backslash in front of every escaped character. */
  function Unescape(t: string): string
    decreases |t|
  {
    if t == [] then []
    else if t[0] == '\\' && |t| >= 2 then [t[1]] + Unescape(t[2..])
    else [t[0]] + Unescape(t[1..])
  }

  lemma {:induction false} ReplaceAppend(a: string, b: string, c: char, r: string)
    ensures Replace(a + b, c, r) == Replace(a, c, r) + Replace(b, c, r)
    decreases |a|
  {
    if a == [] {
      assert a + b == b;
    } else {
      var h := if a[0] == c then r else [a[0]];
      assert (a + b)[0] == a[0];
      assert (a + b)[1..] == a[1..] + b;
      ReplaceAppend(a[1..], b, c, r);
      assert Replace(a + b, c, r) == h + (Replace(a[1..], c, r) + Replace(b, c, r));
    }
  }

  lemma EscapeOneChar(c: char)
    ensures Replace(Replace(Replace([c], '\\', "\\\\"), '%', "\\%"), '_', "\\_") == EscapeChar(c)
  {
    if c == '\\' {
      assert Replace([c], '\\', "\\\\") == "\\\\";
      assert Replace("\\\\", '%', "\\%") == "\\\\" by { ReplaceAppend(['\\'], ['\\'], '%', "\\%"); }
      assert Replace("\\\\", '_', "\\_") == "\\\\" by { ReplaceAppend(['\\'], ['\\'], '_', "\\_"); }
    } else if c == '%' {
      assert Replace([c], '\\', "\\\\") == "%";
      assert Replace("%", '%', "\\%") == "\\%";
      assert Replace("\\%", '_', "\\_") == "\\%" by { ReplaceAppend(['\\'], ['%'], '_', "\\_"); }
    } else if c == '_' {
      assert Replace([c], '\\', "\\\\") == "_";
      assert Replace("_", '%', "\\%") == "_";
      assert Replace("_", '_', "\\_") == "\\_";
    }
  }

  /**
   * The chained replaces equal one pass over the input: the backslashes that the `%` and `_`
   * replaces introduce come after the backslash replace and are never doubled.
   */
  lemma {:induction false} EscapePathSinglePass(s: string)
    ensures EscapePath(s) == EscapeEach(s)
    decreases |s|
  {
    if s != [] {
      var r1, r2, r3 := Replace([s[0]], '\\', "\\\\"), Replace(s[1..], '\\', "\\\\"), 0;
      assert s == [s[0]] + s[1..];
      ReplaceAppend([s[0]], s[1..], '\\', "\\\\");
      ReplaceAppend(r1, r2, '%', "\\%");
      ReplaceAppend(Replace(r1, '%', "\\%"), Replace(r2, '%', "\\%"), '_', "\\_");
      EscapeOneChar(s[0]);
      EscapePathSinglePass(s[1..]);
    }
  }

  lemma {:induction false} UnescapeEach(s: string)
    ensures Unescape(EscapeEach(s)) == s
    decreases |s|
  {
    if s != [] {
      var t := EscapeEach(s);
      assert t == EscapeChar(s[0]) + EscapeEach(s[1..]);
      if IsSpecial(s[0]) {
        assert t[0] == '\\' && t[1] == s[0] && t[2..] == EscapeEach(s[1..]);
      } else {
        assert t[0] == s[0] && t[1..] == EscapeEach(s[1..]);
      }
      UnescapeEach(s[1..]);
    }
  }

  /** Dropping the escape backslashes recovers the path string. */
  lemma EscapeRoundTrip(s: string)
    ensures Unescape(EscapePath(s)) == s
  {
    EscapePathSinglePass(s);
    UnescapeEach(s);
  }

  lemma EscapeInjective(a: string, b: string)
    ensures EscapePath(a) == EscapePath(b) <==> a == b
  {
    EscapeRoundTrip(a);
    EscapeRoundTrip(b);
  }

  lemma {:induction false} EscapeEachLength(s: string)
    ensures |EscapeEach(s)| == |s| + CountSpecial(s)
    decreases |s|
  {
    if s != [] { EscapeEachLength(s[1..]); }
  }

  /** Each backslash, `%` and `_` gains one character; everything else passes through. */
  lemma EscapeLength(s: string)
    ensures |EscapePath(s)| == |s| + CountSpecial(s)
  {
    EscapePathSinglePass(s);
    EscapeEachLength(s);
  }

  /** `sep` is "/" on POSIX hosts and a doubled backslash on Windows hosts. */
  lemma SepValues()
    ensures Sep('/') == "/"
    ensures Sep('\\') == "\\\\"
    ensures Sep(OsSep) == EscapePath([OsSep])
  {
    EscapeOneChar('/');
    EscapeOneChar('\\');
  }

  lemma CompileEscapedChar(c: char, tail: string)
    ensures Compile(EscapeChar(c) + tail, Some('\\')) == Prepend([Lit(c)], Compile(tail, Some('\\')))
  {
    var pat := EscapeChar(c) + tail;
    if IsSpecial(c) {
      assert pat[0] == '\\' && pat[1] == c && pat[2..] == tail;
    } else {
      assert pat[0] == c && pat[1..] == tail;
    }
  }

  lemma {:induction false} CompileEscaped(x: string, rest: string)
    ensures Compile(EscapeEach(x) + rest, Some('\\')) == Prepend(Lits(x), Compile(rest, Some('\\')))
    decreases |x|
  {
    var r := Compile(rest, Some('\\'));
    if x == [] {
      assert EscapeEach(x) + rest == rest;
      if r.Some? { assert [] + r.value == r.value; }
    } else {
      var tail := EscapeEach(x[1..]) + rest;
      assert EscapeEach(x) + rest == EscapeChar(x[0]) + tail;
      CompileEscapedChar(x[0], tail);
      CompileEscaped(x[1..], rest);
      PrependAssoc([Lit(x[0])], Lits(x[1..]), r);
    }
  }

  /** With ESCAPE '\', an escaped path matches itself literally: no `%` or `_` of it is a wildcard. */
  lemma EscapedIsLiteral(x: string)
    ensures Compile(EscapePath(x), Some('\\')) == Some(Lits(x))
  {
    EscapePathSinglePass(x);
    CompileEscaped(x, "");
    assert EscapeEach(x) + "" == EscapeEach(x);
    assert Lits(x) + [] == Lits(x);
  }

  /** The descendant pattern `escape_path(x) + sep + "%"`. */
  function DescendantPattern(x: string): string {
    EscapePath(x) + Sep(OsSep) + "%"
  }

  /**
   * Under `LIKE ... ESCAPE '\'`, the descendant pattern of `x` matches `s` exactly when `s` starts
   * with `x + "/"`, whatever `%`, `_` or backslashes `x` contains.
   */
  lemma DescendantPatternExact(x: string, s: string)
    ensures Like(s, DescendantPattern(x), Escaped) <==> StartsWith(s, x + "/")
  {
    DescendantTokens(x);
    PrefixPattern(x + "/", s);
  }

  /** Under `ESCAPE '\\'` the descendant pattern of `x` compiles to the characters of `x + "/"`, then `%`. */
  lemma DescendantTokens(x: string)
    ensures Compile(DescendantPattern(x), Escaped.escape) == Some(Lits(x + "/") + [AnySeq])
  {
    SepValues();
    EscapePathSinglePass(x);
    assert DescendantPattern(x) == EscapeEach(x) + "/%";
    CompileEscaped(x, "/%");
    CompileSeparatorAny();
    LitsAppend(x, "/");
    assert Lits(x) + [Lit('/'), AnySeq] == Lits(x + "/") + [AnySeq];
  }

  lemma CompileSeparatorAny()
    ensures Compile("/%", Some('\\')) == Some([Lit('/'), AnySeq])
  {
    assert "/%"[1..] == "%" && "%"[1..] == [];
    assert Compile("%", Some('\\')) == Some([AnySeq]) by { assert [AnySeq] + [] == [AnySeq]; }
    assert [Lit('/')] + [AnySeq] == [Lit('/'), AnySeq];
  }

  /** A sibling that extends the name without a separator (`/ab`, `/a_b` next to `/a`) is never selected. */
  lemma SiblingNeverMatches(x: string, y: string)
    requires y == [] || y[0] != '/'
    ensures !Like(x + y, DescendantPattern(x), Escaped)
  {
    DescendantPatternExact(x, x + y);
    assert y != [] ==> (x + y)[|x|] == y[0] && (x + "/")[|x|] == '/';
    assert !StartsWith(x + y, x + "/");
  }

  /** The filter `filename == str(x) OR filename LIKE escape_path(x) + sep + '%'`. */
  predicate SubtreeQuery(sem: Semantics, f: Path, x: Path) {
    Str(f) == Str(x) || Like(Str(f), DescendantPattern(Str(x)), sem)
  }

  /** With ESCAPE '\' the filter selects exactly `x` and the paths below it. */
  lemma SubtreeQueryExact(f: Path, x: Path)
    requires ValidPath(f) && ValidPath(x) && x != []
    ensures SubtreeQuery(Escaped, f, x) <==> IsPrefix(x, f)
  {
    StrInjective(f, x);
    DescendantPatternExact(Str(x), Str(f));
    StrAncestorIff(x, f);
  }

  lemma EscapeSample()
    ensures EscapePath("a_b") == "a\\_b"
    ensures EscapePath("a") == "a"
  {
    EscapePathSinglePass("a_b");
    EscapePathSinglePass("a");
    assert EscapeEach("a_b") == "a" + EscapeEach("_b");
    assert EscapeEach("_b") == "\\_" + EscapeEach("b");
  }

  /** Without an escape character, characters other than `%` and `_` compile to themselves. */
  lemma {:induction false} CompilePlain(x: string, rest: string)
    requires forall i :: 0 <= i < |x| ==> x[i] != '%' && x[i] != '_'
    ensures Compile(x + rest, None) == Prepend(Lits(x), Compile(rest, None))
    decreases |x|
  {
    if x == [] {
      assert x + rest == rest;
      if Compile(rest, None).Some? { assert [] + Compile(rest, None).value == Compile(rest, None).value; }
    } else {
      assert (x + rest)[0] == x[0] && (x + rest)[1..] == x[1..] + rest;
      CompilePlain(x[1..], rest);
      PrependAssoc([Lit(x[0])], Lits(x[1..]), Compile(rest, None));
    }
  }

  /**
   * With SQLite's default (no ESCAPE character), the backslash that `escape_path` adds is an
   * ordinary character, so the child `a_b/c` of `a_b` is not selected.
   */
  lemma SqliteDefaultMissesChild()
    ensures IsPrefix(["a_b"], ["a_b", "c"])
    ensures !SubtreeQuery(SqliteDefault, ["a_b", "c"], ["a_b"])
  {
    assert Str(["a_b"]) == "a_b";
    assert Str(["a_b", "c"]) == "a_b/c";
    UnescapedPatternMisses();
    assert |"a_b/c"| != |"a_b"|;
  }

  lemma UnescapedPatternMisses()
    ensures !Like("a_b/c", DescendantPattern("a_b"), SqliteDefault)
  {
    UnescapedPatternText();
    var c := Compile("a\\" + "_b/%", None);
    if c.Some? {
      UnescapedPatternTokens(c.value);
      BackslashBlocks(c.value);
    }
  }

  lemma UnescapedPatternText()
    ensures DescendantPattern("a_b") == "a\\" + "_b/%"
  {
    EscapeSample();
    SepValues();
    assert DescendantPattern("a_b") == "a\\_b" + "/" + "%";
  }

  lemma UnescapedPatternTokens(ts: seq<Token>)
    requires Compile("a\\" + "_b/%", None) == Some(ts)
    ensures |ts| >= 2 && ts[0] == Lit('a') && ts[1] == Lit('\\')
  {
    CompilePlain("a\\", "_b/%");
    assert Lits("a\\") == [Lit('a'), Lit('\\')] by { assert "a\\"[1..] == "\\"; assert "\\"[1..] == []; }
  }

  lemma BackslashBlocks(ts: seq<Token>)
    requires |ts| >= 2 && ts[0] == Lit('a') && ts[1] == Lit('\\')
    ensures !MatchTokens(ts, "a_b/c", true)
  {
    var s := "a_b/c";
    assert s[1..][0] == '_';
    assert !CharEq('_', '\\', true);
    assert !MatchTokens(ts[1..], s[1..], true);
  }

  /** SQLite's LIKE folds ASCII case, so the filter for `a` also selects `A/c`. */
  lemma SqliteDefaultFoldsCase()
    ensures !IsPrefix(["a"], ["A", "c"])
    ensures SubtreeQuery(SqliteDefault, ["A", "c"], ["a"])
  {
    assert Str(["a"]) == "a";
    assert Str(["A", "c"]) == "A/c";
    FoldedPatternMatches();
  }

  lemma FoldedPatternMatches()
    ensures Like("A/c", DescendantPattern("a"), SqliteDefault)
  {
    FoldedPatternText();
    FoldedPatternTokens();
    FoldedMatch([Lit('a'), Lit('/'), AnySeq]);
  }

  lemma FoldedPatternText()
    ensures DescendantPattern("a") == "a/" + "%"
  {
    EscapeSample();
    SepValues();
    assert DescendantPattern("a") == "a" + "/" + "%";
  }

  lemma FoldedPatternTokens()
    ensures Compile("a/" + "%", None) == Some([Lit('a'), Lit('/'), AnySeq])
  {
    var p := "a/" + "%";
    assert p[1..] == "/%" && "/%"[1..] == "%" && "%"[1..] == [];
    assert Compile("%", None) == Some([AnySeq]) by { assert [AnySeq] + [] == [AnySeq]; }
    assert Compile("/%", None) == Some([Lit('/'), AnySeq]) by { assert [Lit('/')] + [AnySeq] == [Lit('/'), AnySeq]; }
    assert [Lit('a')] + [Lit('/'), AnySeq] == [Lit('a'), Lit('/'), AnySeq];
  }

  lemma FoldedMatch(ts: seq<Token>)
    requires ts == [Lit('a'), Lit('/'), AnySeq]
    ensures MatchTokens(ts, "A/c", true)
  {
    AnySeqMatchesAll("c", true);
    assert MatchTokens(ts[2..], "c", true);
    assert MatchTokens(ts[1..], "/c", true);
  }
}
