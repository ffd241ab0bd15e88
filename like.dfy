/**
 * The SQL `LIKE` operator as SQLite evaluates it: `%` matches any run of characters, `_` any one
 * character, an optional ESCAPE character makes the next pattern character literal, and without
 * `PRAGMA case_sensitive_like` ASCII letters compare case-insensitively.
 * Which escape character (if any) and whether case is folded are an explicit parameter.
 */
module LikeOperator {
  import opened Wrappers

  datatype Token = Lit(c: char) | AnyChar | AnySeq

  /** `escape`: the ESCAPE character of the query, None when the query names none. */
  datatype Semantics = Semantics(escape: Option<char>, foldAsciiCase: bool)

  /** SQLite's default: no escape character, ASCII case folded. `.like()` without `escape=` gets this. */
  const SqliteDefault := Semantics(None, true)

  /** `LIKE ... ESCAPE '\'` with case-sensitive comparison: the semantics the path escaping is written for. */
  const Escaped := Semantics(Some('\\'), false)

  /** Splits a pattern into tokens; a pattern ending in a lone escape character matches nothing. */
  function Compile(pat: string, esc: Option<char>): Option<seq<Token>>
    decreases |pat|
  {
    if pat == [] then Some([])
    else if esc == Some(pat[0]) then
      if |pat| == 1 then None
      else Prepend([Lit(pat[1])], Compile(pat[2..], esc))
    else
      var tok := if pat[0] == '%' then AnySeq else if pat[0] == '_' then AnyChar else Lit(pat[0]);
      Prepend([tok], Compile(pat[1..], esc))
  }

  function Prepend(ts: seq<Token>, o: Option<seq<Token>>): Option<seq<Token>> {
    match o
    case None => None
    case Some(t) => Some(ts + t)
  }

  lemma PrependAssoc(a: seq<Token>, b: seq<Token>, o: Option<seq<Token>>)
    ensures Prepend(a, Prepend(b, o)) == Prepend(a + b, o)
  {
    if o.Some? { assert a + (b + o.value) == (a + b) + o.value; }
  }

  function Lower(c: char): char {
    if 'A' <= c <= 'Z' then (c as int + 32) as char else c
  }

  predicate CharEq(a: char, b: char, fold: bool) {
    if fold then Lower(a) == Lower(b) else a == b
  }

  predicate MatchTokens(ts: seq<Token>, s: string, fold: bool)
    decreases |ts|, |s|
  {
    if ts == [] then s == []
    else match ts[0]
      case Lit(c) => s != [] && CharEq(s[0], c, fold) && MatchTokens(ts[1..], s[1..], fold)
      case AnyChar => s != [] && MatchTokens(ts[1..], s[1..], fold)
      case AnySeq => MatchTokens(ts[1..], s, fold) || (s != [] && MatchTokens(ts, s[1..], fold))
  }

  /** `s LIKE pat` under the given semantics. */
  predicate Like(s: string, pat: string, sem: Semantics) {
    match Compile(pat, sem.escape)
    case None => false
    case Some(ts) => MatchTokens(ts, s, sem.foldAsciiCase)
  }

  /** The tokens that match exactly the characters of `x`. */
  function Lits(x: string): (ts: seq<Token>)
    ensures |ts| == |x|
  {
    if x == [] then [] else [Lit(x[0])] + Lits(x[1..])
  }

  lemma LitsAppend(x: string, y: string)
    ensures Lits(x + y) == Lits(x) + Lits(y)
  {
    if x == [] {
      assert x + y == y;
    } else {
      assert (x + y)[0] == x[0];
      assert (x + y)[1..] == x[1..] + y;
      LitsAppend(x[1..], y);
      assert Lits(x + y) == [Lit(x[0])] + (Lits(x[1..]) + Lits(y));
    }
  }

  lemma {:induction false} AnySeqMatchesAll(s: string, fold: bool)
    ensures MatchTokens([AnySeq], s, fold)
    decreases |s|
  {
    if s != [] {
      AnySeqMatchesAll(s[1..], fold);
    }
  }

  /** Literal tokens followed by `%` match exactly the strings that start with those characters. */
  lemma {:induction false} PrefixPattern(x: string, s: string)
    ensures MatchTokens(Lits(x) + [AnySeq], s, false) <==> |x| <= |s| && s[..|x|] == x
    decreases |x|
  {
    if x == [] {
      assert Lits(x) + [AnySeq] == [AnySeq];
      AnySeqMatchesAll(s, false);
    } else {
      var ts := Lits(x) + [AnySeq];
      assert ts[0] == Lit(x[0]) && ts[1..] == Lits(x[1..]) + [AnySeq];
      if s != [] {
        PrefixPattern(x[1..], s[1..]);
        StartsWithStep(x, s);
      }
    }
  }

  lemma StartsWithStep(x: string, s: string)
    requires x != [] && s != []
    ensures (|x| <= |s| && s[..|x|] == x) <==> (s[0] == x[0] && |x[1..]| <= |s[1..]| && s[1..][..|x[1..]|] == x[1..])
  {
    if |x| <= |s| {
      assert s[..|x|] == [s[0]] + s[1..][..|x| - 1];
      assert x == [x[0]] + x[1..];
    }
  }
}
