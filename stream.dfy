/**
 * `Stream` of src/util/stream.py: a ranged download is served by seeking to `start` and issuing
 * `(end - start) // chunk_size` full-size reads followed by one read of `(end - start) % chunk_size`
 * bytes. Python's `//` and `%` floor, which for the positive chunk size agree with Dafny's `/` and `%`.
 */
module Streaming {
  import opened Storage

  /** `FileResponse.chunk_size`, 64 KiB. */
  const ChunkSize: nat := 65536

  /** `min(x, bound)` for a position in a file of length `bound`. */
  function Clip(x: nat, bound: nat): (r: nat)
    ensures r <= bound && r <= x && (r == x || r == bound)
  {
    if x < bound then x else bound
  }

  /** The bytes a read of `n` bytes at position `from` returns: fewer at the end of the file, none past it. */
  function Window(data: seq<byte>, from: nat, n: nat): (w: seq<byte>)
    ensures |w| <= n
  {
    data[Clip(from, |data|)..Clip(from + n, |data|)]
  }

  /** Two consecutive reads return what one read of both lengths would. */
  lemma WindowSplit(data: seq<byte>, from: nat, a: nat, b: nat)
    ensures Window(data, from, a) + Window(data, from + |Window(data, from, a)|, b) == Window(data, from, a + b)
  {
    var first := Window(data, from, a);
    if from + a <= |data| {
      assert from + |first| == from + a;
    } else {
      assert Window(data, from + |first|, b) == [];
    }
  }

  /** An open binary file: its bytes and the current position. */
  class FileHandle {
    const data: seq<byte>
    var pos: nat

    constructor (data: seq<byte>)
      ensures this.data == data && pos == 0
    {
      this.data := data;
      pos := 0;
    }

    /** `file.seek(offset)`; a position past the end is allowed. */
    method Seek(offset: nat)
      modifies this
      ensures pos == offset
    {
      pos := offset;
    }

    /** `file.read(n)`: up to `n` bytes from the position, which advances past them. */
    method Read(n: nat) returns (chunk: seq<byte>)
      modifies this
      ensures chunk == Window(data, old(pos), n)
      ensures pos == old(pos) + |chunk|
    {
      chunk := Window(data, pos, n);
      pos := pos + |chunk|;
    }
  }

  /** The read sizes `read` requests for a span of `span` bytes: the full-size reads, then the remainder. */
  function Requests(span: int): (rs: seq<nat>)
    ensures |rs| == (if span >= 0 then span / ChunkSize else 0) + 1
    ensures forall i :: 0 <= i < |rs| - 1 ==> rs[i] == ChunkSize
    ensures rs[|rs| - 1] == span % ChunkSize
  {
    var full := if span >= 0 then span / ChunkSize else 0;
    seq(full, _ => ChunkSize) + [span % ChunkSize]
  }

  function Total(rs: seq<nat>): nat {
    if rs == [] then 0 else Total(rs[..|rs| - 1]) + rs[|rs| - 1]
  }

  lemma {:induction false} TotalFull(k: nat)
    ensures Total(seq(k, _ => ChunkSize)) == k * ChunkSize
  {
    if k > 0 {
      assert seq(k, _ => ChunkSize)[..k - 1] == seq(k - 1, _ => ChunkSize);
      TotalFull(k - 1);
    }
  }

  /** For a non-negative span the requests add up to exactly the span. */
  lemma RequestsTotal(span: int)
    requires span >= 0
    ensures Total(Requests(span)) == span
  {
    RequestsTotalAny(span);
  }

  /** When the span is a whole number of chunks, the last request asks for 0 bytes. */
  lemma FinalRequestEmpty(span: int)
    requires span >= 0 && span % ChunkSize == 0
    ensures |Requests(span)| == span / ChunkSize + 1 && Requests(span)[span / ChunkSize] == 0
  {
  }

  /** A reversed range (`end < start`) makes no full-size read and then asks for the floored remainder, almost a whole chunk. */
  lemma ReversedRangeReadsRemainder(span: int)
    requires span < 0 && span + ChunkSize > 0
    ensures Requests(span) == [span + ChunkSize]
  {
  }

  function Flatten(chunks: seq<seq<byte>>): seq<byte> {
    if chunks == [] then [] else Flatten(chunks[..|chunks| - 1]) + chunks[|chunks| - 1]
  }

  /** One more read continues the bytes read so far. */
  lemma ReadStep(data: seq<byte>, start: nat, read: nat, chunks: seq<seq<byte>>, chunk: seq<byte>, n: nat)
    requires Flatten(chunks) == Window(data, start, read)
    requires chunk == Window(data, start + |Flatten(chunks)|, n)
    ensures Flatten(chunks + [chunk]) == Window(data, start, read + n)
  {
    WindowSplit(data, start, read, n);
    FlattenSnoc(chunks, chunk);
  }

  /**
   * The read loop for a span: seek to `start`, read `span // chunk_size` full chunks, then the
   * remainder. Each chunk is at most its request, and together they are the file's bytes from
   * `start` for the requested total.
   */
  method ReadSpan(file: FileHandle, start: nat, span: int) returns (chunks: seq<seq<byte>>)
    modifies file
    ensures |chunks| == |Requests(span)|
    ensures forall i :: 0 <= i < |chunks| ==> |chunks[i]| <= Requests(span)[i]
    ensures Flatten(chunks) == Window(file.data, start, Total(Requests(span)))
  {
    file.Seek(start);
    var full := if span >= 0 then span / ChunkSize else 0;
    chunks := ReadFull(file, full);
    var last := file.Read(span % ChunkSize);
    SpanRead(file.data, start, span, chunks, last);
    chunks := chunks + [last];
  }

  /** The full-size chunks followed by the last, shorter read make up the whole span. */
  lemma SpanRead(data: seq<byte>, start: nat, span: int, chunks: seq<seq<byte>>, last: seq<byte>)
    requires |chunks| == (if span >= 0 then span / ChunkSize else 0)
    requires forall j :: 0 <= j < |chunks| ==> |chunks[j]| <= ChunkSize
    requires Flatten(chunks) == Window(data, start, |chunks| * ChunkSize)
    requires last == Window(data, start + |Flatten(chunks)|, span % ChunkSize)
    ensures |chunks + [last]| == |Requests(span)|
    ensures forall i :: 0 <= i < |chunks + [last]| ==> |(chunks + [last])[i]| <= Requests(span)[i]
    ensures Flatten(chunks + [last]) == Window(data, start, Total(Requests(span)))
  {
    var read := |chunks| * ChunkSize;
    ReadStep(data, start, read, chunks, last, span % ChunkSize);
    ChunksWithin(chunks, last, Requests(span));
    RequestsTotalRead(span, read);
  }

  /** No chunk is longer than `n`. */
  predicate AtMost(chunks: seq<seq<byte>>, n: nat) {
    forall j :: 0 <= j < |chunks| ==> |chunks[j]| <= n
  }

  lemma AtMostSnoc(chunks: seq<seq<byte>>, chunk: seq<byte>, n: nat)
    requires AtMost(chunks, n) && |chunk| <= n
    ensures AtMost(chunks + [chunk], n)
  {
  }

  /** The `for _ in range(full)` loop: `full` reads of a whole chunk from the current position. */
  method ReadFull(file: FileHandle, full: nat) returns (chunks: seq<seq<byte>>)
    modifies file
    ensures |chunks| == full
    ensures AtMost(chunks, ChunkSize)
    ensures Flatten(chunks) == Window(file.data, old(file.pos), full * ChunkSize)
    ensures file.pos == old(file.pos) + |Flatten(chunks)|
  {
    chunks := [];
    var i := 0;
    ghost var start, read := file.pos, 0;
    while i < full
      invariant 0 <= i <= full && |chunks| == i && read == i * ChunkSize
      invariant AtMost(chunks, ChunkSize)
      invariant Flatten(chunks) == Window(file.data, start, read)
      invariant file.pos == start + |Flatten(chunks)|
    {
      var chunk := file.Read(ChunkSize);
      assert Flatten(chunks + [chunk]) == Window(file.data, start, read + ChunkSize)
        && |Flatten(chunks + [chunk])| == |Flatten(chunks)| + |chunk| by {
        ReadStep(file.data, start, read, chunks, chunk, ChunkSize);
        FlattenSnoc(chunks, chunk);
      }
      AtMostSnoc(chunks, chunk, ChunkSize);
      chunks := chunks + [chunk];
      i := i + 1;
      read := read + ChunkSize;
    }
  }

  lemma RequestsTotalRead(span: int, read: int)
    requires read == (if span >= 0 then span / ChunkSize else 0) * ChunkSize
    ensures Total(Requests(span)) == read + span % ChunkSize
  {
    RequestsTotalAny(span);
  }

  lemma ChunksWithin(chunks: seq<seq<byte>>, last: seq<byte>, rs: seq<nat>)
    requires |rs| == |chunks| + 1 && |last| <= rs[|chunks|]
    requires forall j :: 0 <= j < |chunks| ==> |chunks[j]| <= rs[j]
    ensures forall j :: 0 <= j < |chunks + [last]| ==> |(chunks + [last])[j]| <= rs[j]
  {
  }

  lemma FlattenSnoc(chunks: seq<seq<byte>>, c: seq<byte>)
    ensures Flatten(chunks + [c]) == Flatten(chunks) + c
  {
    assert (chunks + [c])[..|chunks|] == chunks;
  }

  /** The requests add up to the full-size reads plus the remainder, whatever the sign of the span. */
  lemma RequestsTotalAny(span: int)
    ensures Total(Requests(span)) == (if span >= 0 then span / ChunkSize else 0) * ChunkSize + span % ChunkSize
  {
    var rs := Requests(span);
    var full := if span >= 0 then span / ChunkSize else 0;
    assert rs[..|rs| - 1] == seq(full, _ => ChunkSize);
    TotalFull(full);
  }

  /** `Stream.read(file, start, end)`: reads the span `end - start`. */
  method Read(file: FileHandle, start: nat, end: int) returns (chunks: seq<seq<byte>>)
    modifies file
    ensures |chunks| == |Requests(end - start)|
    ensures Flatten(chunks) == Window(file.data, start, Total(Requests(end - start)))
    ensures start <= end ==> |Flatten(chunks)| <= end - start
  {
    chunks := ReadSpan(file, start, end - start);
    if start <= end {
      RequestsTotal(end - start);
    }
  }

  /** `Stream.read_file(file, start, end)` over the bytes of the opened file. */
  method ReadFile(data: seq<byte>, start: nat, end: int) returns (chunks: seq<seq<byte>>)
    ensures Flatten(chunks) == Window(data, start, Total(Requests(end - start)))
  {
    var f := new FileHandle(data);
    chunks := Read(f, start, end);
  }

  /** The Content-Length the download response advertises for `start..end`. */
  function ContentLength(start: int, end: int): int {
    end - start + 1
  }

  /** As written, the body of `start..end` is requested one byte short of its Content-Length: `bytes=0-0` reads nothing. */
  lemma StreamShortByOne(start: nat, end: int)
    requires start <= end
    ensures Total(Requests(end - start)) == ContentLength(start, end) - 1
  {
    RequestsTotal(end - start);
  }

  /** The inclusive read: the span `end - start + 1` that the range `start-end` denotes. */
  method ReadInclusive(file: FileHandle, start: nat, end: int) returns (chunks: seq<seq<byte>>)
    requires start <= end
    modifies file
    ensures Flatten(chunks) == Window(file.data, start, ContentLength(start, end))
    ensures end < |file.data| ==> Flatten(chunks) == file.data[start..end + 1]
  {
    chunks := ReadSpan(file, start, end - start + 1);
    RequestsTotal(end - start + 1);
  }
}
