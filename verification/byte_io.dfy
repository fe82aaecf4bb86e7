/** The reader's byte source: an immutable byte string with a read cursor,
    standing for the handle the reader holds. */
module ByteIO {
  import opened Bytes

  /** The two kinds of handle `__next__` can read from: a `BufferedReader`
      (every file input) or a `BytesIO` (a `str` input, encoded). They
      differ only in what `read` does with a negative size. */
  datatype Handle = Buffered | InMemory

  datatype Cursor = Cursor(data: seq<byte>, pos: nat, handle: Handle)

  /** A cursor that lies within its data. */
  type Stream = c: Cursor | c.pos <= |c.data| witness Cursor([], 0, InMemory)

  function Remaining(s: Stream): nat {
    |s.data| - s.pos
  }

  predicate AtEnd(s: Stream) {
    s.pos == |s.data|
  }

  /** The bytes a read returned and the stream after it, or the
      `ValueError` a `BufferedReader` raises for a size below -1. */
  datatype ReadResult = ReadResult(bytes: seq<byte>, rest: Stream) | InvalidSize

  /** Python's `read(n)` on a binary stream: at most `n` bytes, fewer at end
      of stream. `BytesIO.read` reads to end of stream for every negative
      `n`; `BufferedReader.read` does so only for `n == -1` and raises
      `ValueError`, without reading, for anything smaller. */
  function Read(s: Stream, n: int): (r: ReadResult)
    ensures r.InvalidSize? <==> s.handle.Buffered? && n < -1
    ensures r.ReadResult? ==>
              && r.rest.data == s.data && r.rest.handle == s.handle
              && s.pos <= r.rest.pos && r.bytes == s.data[s.pos..r.rest.pos]
    ensures r.ReadResult? && 0 <= n ==> |r.bytes| == Min(n, Remaining(s))
    ensures r.ReadResult? && n < 0 ==> AtEnd(r.rest)
  {
    if s.handle.Buffered? && n < -1 then InvalidSize
    else
      var stop := if n < 0 || Remaining(s) < n then |s.data| else s.pos + n;
      ReadResult(s.data[s.pos..stop], Cursor(s.data, stop, s.handle))
  }
}
