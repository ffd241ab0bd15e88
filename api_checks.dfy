/**
 * The decision logic of `FileService` in src/service/api.py that reads state but changes none:
 * the location checks that open each handler, `list`, `download` with its `Range` parsing and
 * response headers, and `error_decorator`.
 */
module ApiChecks {
  import opened Wrappers
  import opened Paths
  import opened Numbers
  import opened Catalog
  import opened Locks
  import opened Resolver

  /** `FileResolver.metadata_path`: the per-upload metadata objects, `base/.metadata`. */
  const Metadata: Path := Base + [".metadata"]

  /** `FileResolver.trashbin_path`: the soft-delete area, `base/.trashbin`. */
  const Trashbin: Path := Base + [".trashbin"]

  const Ok200: nat := 200
  const Created201: nat := 201
  const NotFound404: nat := 404
  const NotAllowed405: nat := 405
  const Conflict409: nat := 409
  const Locked423: nat := 423

  /** What a handler produces: a JSON response with an empty body, a streamed file, or an exception. */
  datatype Reply =
    | Status(code: nat)
    | Streamed(file: Path, start: int, end: int, headers: seq<(string, string)>)
    | Raised(failure: Failure)

  /** `p.parents`, lexically: every proper prefix of `p`. */
  function Parents(p: Path): (r: set<Path>)
    ensures forall a :: a in r <==> IsAncestor(a, p)
  {
    assert forall a :: IsAncestor(a, p) ==> a == p[..|a|];
    set k | 0 <= k < |p| :: p[..k]
  }

  /** `root in p.joinpath("..").parents` holds iff `p` is `root` or under it, since pathlib never resolves "..". */
  lemma DotDotParents(root: Path, p: Path)
    ensures root in Parents(p + [".."]) <==> IsPrefix(root, p)
  {
    var q := p + [".."];
    assert q[..|p|] == p;
    if IsPrefix(root, p) {
      assert q[..|root|] == p[..|root|];
    }
    if IsAncestor(root, q) {
      assert p[..|root|] == q[..|root|];
    }
  }

  /** The first check of every handler: `base in file_path.joinpath("..").parents`. */
  predicate InBase(p: Path) {
    Base in Parents(p + [".."])
  }

  // ---------------------------------------------------------------------------------------------
  // Location checks

  /** `list`: 405 outside `base`; a catalogued directory or file goes to `get_dir` / `get_file`, which raise; otherwise 404. */
  function List(t: Table, p: Path): (r: Reply)
    ensures r == Status(NotAllowed405) <==> !IsPrefix(Base, p)
    ensures r == Status(NotFound404) <==> IsPrefix(Base, p) && !IsDirEntry(t, p) && !IsFileEntry(t, p)
    ensures r.Status? || r == Raised(NotImplementedFailure)
  {
    DotDotParents(Base, p);
    if !InBase(p) then Status(NotAllowed405)
    else if IsDirEntry(t, p) then Raised(NotImplementedFailure)
    else if IsFileEntry(t, p) then Raised(NotImplementedFailure)
    else Status(NotFound404)
  }

  /** `upload`'s checks in order; None lets the upload go ahead. */
  function UploadGate(t: Table, p: Path): (r: Option<nat>)
    ensures r.None? <==> IsPrefix(Base, p) && !IsAncestor(Metadata, p) && !IsAncestor(Trashbin, p) && !Exists(t, p)
    ensures r == Some(Conflict409) <==> IsPrefix(Base, p) && !IsAncestor(Metadata, p) && !IsAncestor(Trashbin, p) && Exists(t, p)
    ensures r.Some? ==> r.value == NotAllowed405 || r.value == Conflict409
  {
    DotDotParents(Base, p);
    if !InBase(p) then Some(NotAllowed405)
    else if Metadata in Parents(p) then Some(NotAllowed405)
    else if Trashbin in Parents(p) then Some(NotAllowed405)
    else if Exists(t, p) then Some(Conflict409)
    else None
  }

  /** `delete`'s checks in order: the metadata root and anything under it are refused, a path without a row is 404. */
  function DeleteGate(t: Table, p: Path): (r: Option<nat>)
    ensures r.None? <==> IsPrefix(Base, p) && !IsPrefix(Metadata, p) && Exists(t, p)
    ensures r == Some(NotFound404) <==> IsPrefix(Base, p) && !IsPrefix(Metadata, p) && !Exists(t, p)
    ensures r.Some? ==> r.value == NotAllowed405 || r.value == NotFound404
  {
    DotDotParents(Base, p);
    if !InBase(p) then Some(NotAllowed405)
    else if Metadata == p then Some(NotAllowed405)
    else if Metadata in Parents(p) then Some(NotAllowed405)
    else if !Exists(t, p) then Some(NotFound404)
    else None
  }

  /** `mkdir`'s checks in order: the location, then 409 for an existing path, then 405 unless the parent is a catalogued directory. */
  function MkdirGate(t: Table, p: Path): (r: Option<nat>)
    ensures r.None? <==>
      IsPrefix(Base, p) && !IsAncestor(Metadata, p) && !IsAncestor(Trashbin, p) && !Exists(t, p) && IsDirEntry(t, Parent(p))
    ensures r == Some(Conflict409) <==> IsPrefix(Base, p) && !IsAncestor(Metadata, p) && !IsAncestor(Trashbin, p) && Exists(t, p)
    ensures r.Some? ==> r.value == NotAllowed405 || r.value == Conflict409
  {
    DotDotParents(Base, p);
    if !InBase(p) then Some(NotAllowed405)
    else if Metadata in Parents(p) then Some(NotAllowed405)
    else if Trashbin in Parents(p) then Some(NotAllowed405)
    else if Exists(t, p) then Some(Conflict409)
    else if !IsDirEntry(t, Parent(p)) then Some(NotAllowed405)
    else None
  }

  /**
   * The checks `move` and `copy` share: the source at or under `base`, the destination strictly
   * under it, neither under the metadata root, the destination not under the trash; then 409 for
   * a missing source or an existing destination.
   */
  function TransferGate(t: Table, src: Path, dst: Path): (r: Option<nat>)
    ensures r.None? <==> TransferPlaces(src, dst) && Exists(t, src) && !Exists(t, dst)
    ensures r == Some(Conflict409) <==> TransferPlaces(src, dst) && (!Exists(t, src) || Exists(t, dst))
    ensures r.Some? ==> r.value == NotAllowed405 || r.value == Conflict409
  {
    DotDotParents(Base, src);
    if !InBase(src) then Some(NotAllowed405)
    else if Base !in Parents(dst) then Some(NotAllowed405)
    else if Metadata in Parents(src) then Some(NotAllowed405)
    else if Metadata in Parents(dst) then Some(NotAllowed405)
    else if Trashbin in Parents(dst) then Some(NotAllowed405)
    else if !Exists(t, src) then Some(Conflict409)
    else if Exists(t, dst) then Some(Conflict409)
    else None
  }

  /** The locations `move` and `copy` accept. */
  predicate TransferPlaces(src: Path, dst: Path) {
    IsPrefix(Base, src) && IsAncestor(Base, dst) && !IsAncestor(Metadata, src) && !IsAncestor(Metadata, dst) && !IsAncestor(Trashbin, dst)
  }

  /** An accepted transfer has distinct endpoints: the source has a row and the destination none. */
  lemma TransferDistinct(t: Table, src: Path, dst: Path)
    requires TransferGate(t, src, dst).None?
    ensures src != dst && dst != [] && IsAncestor(Base, dst)
  {
  }

  /**
   * Unlike `delete`, `move` and `copy` check only what lies strictly under the metadata root, so
   * the root `base/.metadata` itself passes as a source.
   */
  lemma MetadataRootTransferable(t: Table, dst: Path)
    requires IsAncestor(Base, dst) && !IsAncestor(Metadata, dst) && !IsAncestor(Trashbin, dst)
    requires Exists(t, Metadata) && !Exists(t, dst)
    ensures TransferGate(t, Metadata, dst).None?
    ensures DeleteGate(t, Metadata) == Some(NotAllowed405)
  {
  }

  // ---------------------------------------------------------------------------------------------
  // `str.split` and the `Range` header

  /** `s.split(c)`: the pieces between the occurrences of `c`; there is always at least one. */
  function Split(s: string, c: char): (parts: seq<string>)
    ensures |parts| >= 1
  {
    if s == [] then [""] else Extend(Split(s[..|s| - 1], c), s[|s| - 1], c)
  }

  /** One more character read: the separator starts a new piece, anything else extends the last one. */
  function Extend(parts: seq<string>, x: char, c: char): (r: seq<string>)
    requires |parts| >= 1
    ensures |r| >= 1
  {
    if x == c then parts + [""] else parts[..|parts| - 1] + [parts[|parts| - 1] + [x]]
  }

  /** `c.join(parts)` */
  function JoinWith(parts: seq<string>, c: char): string
    requires |parts| >= 1
  {
    if |parts| == 1 then parts[0] else JoinWith(parts[..|parts| - 1], c) + [c] + parts[|parts| - 1]
  }

  lemma SplitSnoc(s: string, x: char, c: char)
    ensures Split(s + [x], c) == Extend(Split(s, c), x, c)
  {
    assert (s + [x])[..|s|] == s;
  }

  /** Reading a character only touches the pieces after the last separator. */
  lemma ExtendAppend(left: seq<string>, right: seq<string>, x: char, c: char)
    requires |right| >= 1
    ensures Extend(left + right, x, c) == left + Extend(right, x, c)
  {
    if x != c {
      assert (left + right)[..|left + right| - 1] == left + right[..|right| - 1];
    }
  }

  /** Joining after reading a character is joining before it, then the character. */
  lemma JoinExtend(parts: seq<string>, x: char, c: char)
    requires |parts| >= 1
    ensures JoinWith(Extend(parts, x, c), c) == JoinWith(parts, c) + [x]
  {
    var r := Extend(parts, x, c);
    if x == c {
      assert r[..|r| - 1] == parts;
    } else if |parts| > 1 {
      assert r[..|r| - 1] == parts[..|parts| - 1];
    }
  }

  /** A string without the separator is one piece. */
  lemma {:induction false} SplitWhole(s: string, c: char)
    requires c !in s
    ensures Split(s, c) == [s]
    decreases |s|
  {
    if s != [] {
      var init := s[..|s| - 1];
      assert c !in init by {
        assert forall x | x in init :: x in s;
      }
      SplitWhole(init, c);
      assert Extend([init], s[|s| - 1], c) == [init + [s[|s| - 1]]];
      assert init + [s[|s| - 1]] == s;
    }
  }

  /** Splitting at one occurrence of the separator splits each side on its own. */
  lemma {:induction false} SplitAt(a: string, c: char, b: string)
    ensures Split(a + [c] + b, c) == Split(a, c) + Split(b, c)
    decreases |b|
  {
    if b == [] {
      assert a + [c] + b == a + [c];
      SplitSnoc(a, c, c);
    } else {
      var b0, x := b[..|b| - 1], b[|b| - 1];
      SplitAt(a, c, b0);
      assert a + [c] + b == (a + [c] + b0) + [x];
      SplitSnoc(a + [c] + b0, x, c);
      ExtendAppend(Split(a, c), Split(b0, c), x, c);
    }
  }

  /** Joining the pieces of a split gives the string back. */
  lemma DropLast(s: string)
    requires s != []
    ensures s[..|s| - 1] + [s[|s| - 1]] == s
  {
  }

  lemma {:induction false} SplitJoin(s: string, c: char)
    ensures JoinWith(Split(s, c), c) == s
    decreases |s|
  {
    if s != [] {
      var init, x := s[..|s| - 1], s[|s| - 1];
      assert init + [x] == s by { DropLast(s); }
      assert JoinWith(Split(s, c), c) == JoinWith(Split(init, c), c) + [x] by {
        assert Split(s, c) == Extend(Split(init, c), x, c);
        JoinExtend(Split(init, c), x, c);
      }
      SplitJoin(init, c);
    }
  }

  /** Splitting a join of separator-free pieces gives the pieces back. */
  lemma {:induction false} JoinSplit(parts: seq<string>, c: char)
    requires |parts| >= 1 && forall i :: 0 <= i < |parts| ==> c !in parts[i]
    ensures Split(JoinWith(parts, c), c) == parts
    decreases |parts|
  {
    var last := parts[|parts| - 1];
    SplitWhole(last, c);
    if |parts| > 1 {
      var init := parts[..|parts| - 1];
      assert Split(JoinWith(parts, c), c) == Split(JoinWith(init, c), c) + [last] by {
        assert JoinWith(parts, c) == JoinWith(init, c) + [c] + last;
        SplitAt(JoinWith(init, c), c, last);
      }
      JoinSplit(init, c);
      assert init + [last] == parts;
    }
  }

  /**
   * Lines 156-158 of `download`: `start, end = value.split("=")[1].split("-")`, then `int()` of
   * each side, with 0 for an empty start and `size - 1` for an empty end (`size` is None when
   * `getfile` found no metadata).
   */
  function ParseRange(value: string, size: Option<int>): Result<(int, int), Failure> {
    var sides := Split(value, '=');
    if |sides| < 2 then Err(IndexFailure)
    else
      var bounds := Split(sides[1], '-');
      if |bounds| != 2 then Err(ValueFailure)
      else
        var start := if bounds[0] != "" then ParseInt(bounds[0]) else Some(0);
        if start.None? then Err(ValueFailure)
        else if bounds[1] != "" then
          match ParseInt(bounds[1])
          case None => Err(ValueFailure)
          case Some(end) => Ok((start.value, end))
        else
          match size
          case None => Err(AttributeFailure)
          case Some(n) => Ok((start.value, n - 1))
  }

  lemma DigitsHaveNoSeparator(a: string)
    requires AllDigits(a)
    ensures '=' !in a && '-' !in a && ',' !in a
  {
  }

  /** `bytes=rest` splits on `=` into the unit and `rest`. */
  lemma UnitSplit(rest: string)
    requires '=' !in rest
    ensures Split("bytes=" + rest, '=') == ["bytes", rest]
  {
    assert '=' !in "bytes";
    SplitOnce("bytes", '=', rest);
    assert "bytes=" + rest == "bytes" + ['='] + rest;
  }

  /** A string with exactly one separator splits into the two sides. */
  lemma SplitOnce(a: string, c: char, b: string)
    requires c !in a && c !in b
    ensures Split(a + [c] + b, c) == [a, b]
  {
    SplitAt(a, c, b);
    SplitWhole(a, c);
    SplitWhole(b, c);
  }

  /** `bytes=lo-hi` splits into the unit and the bounds, and the bounds into `lo` and `hi`. */
  lemma RangeShape(lo: string, hi: string)
    requires AllDigits(lo) && AllDigits(hi)
    ensures Split("bytes=" + lo + "-" + hi, '=') == ["bytes", lo + "-" + hi]
    ensures Split(lo + "-" + hi, '-') == [lo, hi]
  {
    DigitsHaveNoSeparator(lo);
    DigitsHaveNoSeparator(hi);
    assert "bytes=" + lo + "-" + hi == "bytes=" + (lo + "-" + hi);
    UnitSplit(lo + "-" + hi);
    assert lo + "-" + hi == lo + ['-'] + hi;
    SplitOnce(lo, '-', hi);
  }

  /** `bytes=a-b` with decimal `a` and `b` gives exactly those bounds. */
  lemma RangeBounds(lo: string, hi: string, size: Option<int>)
    requires AllDigits(lo) && AllDigits(hi) && lo != [] && hi != []
    ensures ParseRange("bytes=" + lo + "-" + hi, size) == Ok((DigitsValue(lo), DigitsValue(hi)))
  {
    RangeShape(lo, hi);
  }

  /** `bytes=a-` reads to the end of the file: the end is `size - 1`. */
  lemma RangeOpenEnd(lo: string, size: int)
    requires AllDigits(lo) && lo != []
    ensures ParseRange("bytes=" + lo + "-", Some(size)) == Ok((DigitsValue(lo), size - 1))
  {
    OpenEndShape(lo);
  }

  lemma OpenEndShape(lo: string)
    requires AllDigits(lo)
    ensures Split("bytes=" + lo + "-", '=') == ["bytes", lo + "-"]
    ensures Split(lo + "-", '-') == [lo, ""]
  {
    RangeShape(lo, "");
    assert "bytes=" + lo + "-" + "" == "bytes=" + lo + "-";
    assert lo + "-" + "" == lo + "-";
  }

  /**
   * `bytes=-n` is read as the bytes from 0 to `n`, not as the last `n` bytes that a suffix range
   * denotes in section 2.1 of RFC 7233.
   */
  lemma RangeSuffixFromStart(hi: string, size: Option<int>)
    requires AllDigits(hi) && hi != []
    ensures ParseRange("bytes=-" + hi, size) == Ok((0, DigitsValue(hi)))
  {
    RangeShape("", hi);
    assert "bytes=" + "" + "-" + hi == "bytes=-" + hi;
    assert "" + "-" + hi == "-" + hi;
  }

  /** A value with no `=` makes `split("=")[1]` raise `IndexError`. */
  lemma RangeWithoutUnit(value: string, size: Option<int>)
    requires '=' !in value
    ensures ParseRange(value, size) == Err(IndexFailure)
  {
    SplitWhole(value, '=');
  }

  /** Two ranges, `bytes=a-b,c-d`, give three pieces to unpack into two names: `ValueError`. */
  lemma MultipleRangesRejected(a: string, b: string, c: string, d: string, size: Option<int>)
    requires AllDigits(a) && AllDigits(b) && AllDigits(c) && AllDigits(d)
    ensures ParseRange("bytes=" + a + "-" + b + "," + c + "-" + d, size) == Err(ValueFailure)
  {
    DigitsHaveNoSeparator(a);
    DigitsHaveNoSeparator(b);
    DigitsHaveNoSeparator(c);
    DigitsHaveNoSeparator(d);
    var mid := b + "," + c;
    var rest := a + ['-'] + (mid + ['-'] + d);
    assert "bytes=" + a + "-" + b + "," + c + "-" + d == "bytes=" + rest;
    UnitSplit(rest);
    SplitAt(a, '-', mid + ['-'] + d);
    SplitAt(mid, '-', d);
    SplitWhole(a, '-');
    SplitWhole(mid, '-');
    SplitWhole(d, '-');
  }

  /** The `Range` value a client sends for the bytes `start` to `end`. */
  function RangeValue(start: nat, end: nat): string {
    "bytes=" + NatToString(start) + "-" + NatToString(end)
  }

  /** Parsing a well-formed single range gives its bounds back. */
  lemma RangeRoundTrip(start: nat, end: nat, size: Option<int>)
    ensures ParseRange(RangeValue(start, end), size) == Ok((start, end))
  {
    NatToStringValue(start);
    NatToStringValue(end);
    RangeBounds(NatToString(start), NatToString(end), size);
  }

  // ---------------------------------------------------------------------------------------------
  // download

  /** The headers of the streamed response for the bytes `start..end` of a file of `size` bytes. */
  function DownloadHeaders(start: int, end: int, size: int, mediaType: string): seq<(string, string)> {
    [("Content-Range", "bytes " + IntToString(start) + "-" + IntToString(end) + "/" + IntToString(size)),
     ("Accept-Ranges", "bytes"),
     ("Content-Length", IntToString(end - start + 1)),
     ("Content-Type", mediaType)]
  }

  /** The Content-Length header reads back as `end - start + 1`, the length of the inclusive range (section 4.2 of RFC 7233). */
  lemma ContentLengthReadsBack(start: int, end: int, size: int, mediaType: string)
    ensures DownloadHeaders(start, end, size, mediaType)[2].0 == "Content-Length"
    ensures ParseInt(DownloadHeaders(start, end, size, mediaType)[2].1) == Some(end - start + 1)
  {
    IntRoundTrip(end - start + 1);
  }

  /**
   * `download(p)` with the `Range` header `range` (None when absent). An empty header counts as
   * absent. The body is `Stream.read_file(p, start, end)`.
   */
  function Download(t: Table, p: Path, range: Option<string>): (r: Reply)
    ensures r == Status(NotAllowed405) <==> !IsPrefix(Base, p)
    ensures r == Status(NotFound404) <==> IsPrefix(Base, p) && !IsFileEntry(t, p)
    ensures r.Streamed? ==> (r.file == p && Catalog.GetFile(t, p).Some? &&
      r.headers == DownloadHeaders(r.start, r.end, Catalog.GetFile(t, p).value.size, Catalog.GetFile(t, p).value.mediaType))
    ensures r.Streamed? && (range.None? || range.value == "") ==> r.start == 0 && r.end == Catalog.GetFile(t, p).value.size - 1
    ensures r.Streamed? && range.Some? && range.value != "" ==> ParseRange(range.value, Some(Catalog.GetFile(t, p).value.size)) == Ok((r.start, r.end))
    ensures r.Raised? ==> r.failure in {ValueFailure, IndexFailure, AttributeFailure}
    ensures IsPrefix(Base, p) && IsFileEntry(t, p) && Catalog.GetFile(t, p).None? ==> r.Raised?
  {
    DotDotParents(Base, p);
    if !InBase(p) then Status(NotAllowed405)
    else if !IsFileEntry(t, p) then Status(NotFound404)
    else
      var file := Catalog.GetFile(t, p);
      var size := if file.Some? then Some(file.value.size) else None;
      var bounds :=
        if range.Some? && range.value != "" then ParseRange(range.value, size)
        else if file.Some? then Ok((0, file.value.size - 1))
        else Err(AttributeFailure);
      match bounds
      case Err(f) => Raised(f)
      case Ok((start, end)) =>
        match file
        case None => Raised(AttributeFailure)
        case Some(m) => Streamed(p, start, end, DownloadHeaders(start, end, m.size, m.mediaType))
  }

  /** Without a `Range` header the whole file is announced: Content-Length is the file's size. */
  lemma WholeFileAnnounced(t: Table, p: Path)
    requires Download(t, p, None).Streamed?
    ensures ParseInt(Download(t, p, None).headers[2].1) == Some(Catalog.GetFile(t, p).value.size)
  {
    var f := Catalog.GetFile(t, p).value;
    StreamedLength(Download(t, p, None), f.size, f.mediaType);
  }

  lemma StreamedLength(r: Reply, size: int, mediaType: string)
    requires r.Streamed? && r.headers == DownloadHeaders(r.start, r.end, size, mediaType) && r.end - r.start + 1 == size
    ensures ParseInt(r.headers[2].1) == Some(size)
  {
    ContentLengthReadsBack(r.start, r.end, size, mediaType);
  }

  // ---------------------------------------------------------------------------------------------
  // error_decorator

  /**
   * `error_decorator` as written: the wrapper returns `await func(...)` on its first line, so the
   * `try` after it never runs and whatever the handler raises propagates.
   */
  function ErrorDecorator(r: Reply): Reply {
    r
  }

  /** As written, a lock conflict is never answered with 423: the `FileLockCRADError` escapes. */
  lemma LockConflictEscapes(p: Path)
    ensures ErrorDecorator(Raised(LockFailure(Locked(p)))) == Raised(LockFailure(Locked(p)))
    ensures ErrorDecorator(Raised(LockFailure(Locked(p)))) != Status(Locked423)
  {
  }

  /** The handling the unreachable `try` spells out: a lock conflict is 423, any other exception 404. */
  function HandleErrors(r: Reply): (h: Reply)
    ensures !h.Raised?
    ensures r.Raised? ==> (h == Status(Locked423) <==> r.failure.LockFailure? && r.failure.lock.Locked?)
    ensures r.Raised? && h != Status(Locked423) ==> h == Status(NotFound404)
    ensures !r.Raised? ==> h == r
  {
    match r
    case Raised(LockFailure(Locked(_))) => Status(Locked423)
    case Raised(_) => Status(NotFound404)
    case _ => r
  }
}
