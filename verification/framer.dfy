/** The record framer of `MARCReader.__next__`: how one call carves a raw
    record out of the byte stream using the five-byte length prefix (the
    record length of a MARC 21 leader, character positions 00-04), and what
    repeated calls do to a whole stream. Decoding and record construction
    are in module MarcReader. */
module Framer {
  import opened Options
  import opened Bytes
  import opened Decimal
  import opened IntLiteral
  import opened ByteIO

  /** What one framing step produces. `Stop` is `StopIteration`;
      `LengthInvalid` is `RecordLengthInvalid`; `BadLength` is a
      `ValueError` about the length: `int()` raises it on a prefix that is
      not a number, and a `BufferedReader` raises it when the number is
      below 4, which makes the second read size `L - 5` less than -1. */
  datatype Outcome = Stop | LengthInvalid | BadLength | Chunk(bytes: seq<byte>)

  /** An outcome and the stream after the step. */
  datatype Framed = Framed(outcome: Outcome, rest: Stream)

  const PrefixLength: nat := 5

  /** The five bytes at the cursor. */
  function PrefixAt(s: Stream): seq<byte>
    requires PrefixLength <= Remaining(s)
  {
    s.data[s.pos..s.pos + PrefixLength]
  }

  /** Whether the handle refuses the read size `length - 5`. */
  predicate RefusesLength(s: Stream, length: int) {
    s.handle.Buffered? && length - PrefixLength < -1
  }

  /** One framing step: read five bytes, parse them as the record length
      `L`, read `L - 5` more bytes and put the prefix back in front. */
  function Next(s: Stream): (r: Framed)
    ensures r.rest.data == s.data && r.rest.handle == s.handle && s.pos <= r.rest.pos
    ensures r.outcome.Stop? <==> AtEnd(s)
    ensures r.outcome.Stop? ==> r.rest == s
    ensures r.outcome.LengthInvalid? <==> 0 < Remaining(s) < PrefixLength
    ensures r.outcome.LengthInvalid? ==> AtEnd(r.rest)
    ensures r.outcome.BadLength? <==>
              && PrefixLength <= Remaining(s)
              && (ParseInt(PrefixAt(s)).None? || RefusesLength(s, ParseInt(PrefixAt(s)).value))
    ensures r.outcome.BadLength? ==> r.rest.pos == s.pos + PrefixLength
    ensures r.outcome.Chunk? ==>
              && r.rest.data == s.data && s.pos <= r.rest.pos
              && PrefixLength <= |r.outcome.bytes| && r.outcome.bytes == s.data[s.pos..r.rest.pos]
  {
    var first := Read(s, PrefixLength);
    var first5, s1 := first.bytes, first.rest;
    if |first5| == 0 then Framed(Stop, s1)
    else if |first5| < PrefixLength then Framed(LengthInvalid, s1)
    else
      assert first5 == PrefixAt(s);
      match ParseInt(first5)
      case None => Framed(BadLength, s1)
      case Some(length) =>
        match Read(s1, length - PrefixLength)
        case InvalidSize => Framed(BadLength, s1)
        case ReadResult(rest, s2) =>
          assert first5 + rest == s.data[s.pos..s2.pos];
          Framed(Chunk(first5 + rest), s2)
  }

  /** Every step other than `Stop` moves the cursor forward. */
  lemma NextAdvances(s: Stream)
    ensures !Next(s).outcome.Stop? ==> s.pos < Next(s).rest.pos
  {
  }

  /** At end of stream the step stops without moving, and so does every
      later step: termination is idempotent. */
  lemma StopIsIdempotent(s: Stream)
    requires AtEnd(s)
    ensures Next(s) == Framed(Stop, s)
    ensures Next(Next(s).rest) == Framed(Stop, s)
  {
  }

  /** One to four trailing bytes are consumed and rejected; the call after
      that stops. */
  lemma ShortPrefixThenStop(s: Stream)
    requires 0 < Remaining(s) < PrefixLength
    ensures Next(s).outcome == LengthInvalid
    ensures Next(Next(s).rest).outcome == Stop
  {
  }

  /** A prefix holding a byte that cannot occur in an integer literal (a
      letter, say) makes `int()` raise after all five bytes were read. */
  lemma NonNumericPrefixRaises(s: Stream, k: nat)
    requires PrefixLength <= Remaining(s)
    requires k < PrefixLength && !IsLiteralByte(PrefixAt(s)[k])
    ensures Next(s).outcome == BadLength
    ensures Next(s).rest.pos == s.pos + PrefixLength
  {
    ParseIntAcceptsOnlyLiteralBytes(PrefixAt(s));
  }

  /** A prefix that parses as `L >= 5` yields the prefix followed by the next
      `min(L - 5, bytes left)` bytes; the cursor moves by exactly the chunk's
      length, and the chunk is `L` bytes long exactly when the stream holds
      them all. */
  lemma ChunkOfDeclaredLength(s: Stream, length: int)
    requires PrefixLength <= Remaining(s)
    requires ParseInt(PrefixAt(s)) == Some(length)
    requires PrefixLength <= length
    ensures var n := PrefixLength + Min(length - PrefixLength, Remaining(s) - PrefixLength);
            && Next(s).outcome == Chunk(PrefixAt(s) + s.data[s.pos + PrefixLength..s.pos + n])
            && Next(s).rest.pos == s.pos + n
    ensures Next(s).outcome.Chunk? && (|Next(s).outcome.bytes| == length <==> length <= Remaining(s))
  {
    assert s.data[s.pos..s.pos + 5] == PrefixAt(s);
  }

  /** A prefix that parses below 5 (`00000`..`00004`, or a negative literal
      such as `-0001`) asks `read` for a negative count. When the handle
      accepts it (`L == 4` asks for -1, and a `BytesIO` takes any negative
      count), the chunk is everything left and the stream is exhausted. */
  lemma SmallLengthTakesRest(s: Stream, length: int)
    requires PrefixLength <= Remaining(s)
    requires ParseInt(PrefixAt(s)) == Some(length)
    requires length < PrefixLength && (length == PrefixLength - 1 || s.handle.InMemory?)
    ensures Next(s).outcome == Chunk(s.data[s.pos..])
    ensures AtEnd(Next(s).rest)
  {
    assert s.data[s.pos..s.pos + 5] == PrefixAt(s);
  }

  /** On a file handle, a prefix that parses below 4 asks `read` for fewer
      than -1 bytes, and `BufferedReader.read` raises `ValueError` with the
      five prefix bytes already consumed. */
  lemma SmallLengthRaisesOnFile(s: Stream, length: int)
    requires PrefixLength <= Remaining(s)
    requires ParseInt(PrefixAt(s)) == Some(length)
    requires length < PrefixLength - 1 && s.handle.Buffered?
    ensures Next(s).outcome == BadLength
    ensures Next(s).rest.pos == s.pos + PrefixLength
  {
  }

  /** A truncated record is not reported: it comes back as a chunk shorter
      than its declared length, and the following call stops. */
  lemma TruncatedRecordIsReturned(s: Stream, length: int)
    requires PrefixLength <= Remaining(s) < length
    requires ParseInt(PrefixAt(s)) == Some(length)
    ensures Next(s).outcome == Chunk(s.data[s.pos..])
    ensures |Next(s).outcome.bytes| < length
    ensures Next(Next(s).rest).outcome == Stop
  {
    ChunkOfDeclaredLength(s, length);
  }

  /** A chunk whose prefix does not state its own length can only be the
      last one: after it the stream is exhausted. */
  lemma MislabelledChunkIsLast(s: Stream)
    requires Next(s).outcome.Chunk?
    requires ParseInt(Next(s).outcome.bytes[..PrefixLength]) != Some(|Next(s).outcome.bytes|)
    ensures AtEnd(Next(s).rest)
  {
    var c := Next(s).outcome.bytes;
    assert c[..PrefixLength] == PrefixAt(s);
    var length := ParseInt(PrefixAt(s)).value;
    if length < PrefixLength {
      assert !RefusesLength(s, length);
      SmallLengthTakesRest(s, length);
    } else {
      ChunkOfDeclaredLength(s, length);
    }
  }

  /** The result of iterating the step until it yields something other than
      a chunk: the chunks in order and the outcome that ended the iteration
      (an exception ends a Python `for` loop just as `StopIteration` does). */
  datatype Framing = Framing(chunks: seq<seq<byte>>, ending: Outcome)

  function Frames(s: Stream): (r: Framing)
    ensures !r.ending.Chunk?
    decreases Remaining(s)
  {
    var Framed(o, s') := Next(s);
    if o.Chunk? then
      NextAdvances(s);
      var rest := Frames(s');
      Framing([o.bytes] + rest.chunks, rest.ending)
    else Framing([], o)
  }

  /** Framing after a chunk is that chunk followed by the framing of the rest. */
  lemma FramesAfterChunk(s: Stream)
    requires Next(s).outcome.Chunk?
    ensures Frames(s).chunks == [Next(s).outcome.bytes] + Frames(Next(s).rest).chunks
    ensures Frames(s).ending == Frames(Next(s).rest).ending
  {
  }

  /** Chunks `cs` that concatenate to a gap-free stretch of the input from
      the cursor on, the whole rest of it when `ending` is `Stop`. */
  predicate Covers(s: Stream, cs: seq<seq<byte>>, ending: Outcome) {
    var flat := Flatten(cs);
    && s.pos + |flat| <= |s.data|
    && flat == s.data[s.pos..s.pos + |flat|]
    && (ending.Stop? ==> flat == s.data[s.pos..])
  }

  /** Bytes consumed from the cursor, in front of chunks that cover the rest
      from where they end, cover it from the cursor. */
  lemma CoversAfter(s: Stream, c: seq<byte>, s': Stream, cs: seq<seq<byte>>, ending: Outcome)
    requires s'.data == s.data && s.pos <= s'.pos && c == s.data[s.pos..s'.pos]
    requires Covers(s', cs, ending)
    ensures Covers(s, [c] + cs, ending)
  {
    var d, tail := s.data, Flatten(cs);
    FlattenCons(c, cs);
    assert d[s.pos..s'.pos] + d[s'.pos..s'.pos + |tail|] == d[s.pos..s'.pos + |tail|];
    assert ending.Stop? ==> d[s.pos..s'.pos] + d[s'.pos..] == d[s.pos..];
  }

  /** Framing loses nothing and invents nothing: the chunks, in order, are
      the bytes from the cursor onwards, without gaps; when the iteration
      ends in `Stop` they are the whole rest of the input. */
  lemma {:induction false} FramingIsLossless(s: Stream)
    ensures s.pos + |Flatten(Frames(s).chunks)| <= |s.data|
            && Flatten(Frames(s).chunks) == s.data[s.pos..s.pos + |Flatten(Frames(s).chunks)|]
    ensures Frames(s).ending.Stop? ==> Flatten(Frames(s).chunks) == s.data[s.pos..]
  {
    FramesCover(s);
  }

  lemma {:induction false} FramesCover(s: Stream)
    ensures Covers(s, Frames(s).chunks, Frames(s).ending)
    decreases Remaining(s)
  {
    var step := Next(s);
    if step.outcome.Chunk? {
      NextAdvances(s);
      FramesAfterChunk(s);
      FramesCover(step.rest);
      CoversAfter(s, step.outcome.bytes, step.rest, Frames(step.rest).chunks, Frames(step.rest).ending);
    } else {
      assert Frames(s).chunks == [];
    }
  }

  /** A well-formed raw record: at least the prefix long, and its prefix
      states its own total length. */
  predicate WellFormedRecord(r: seq<byte>) {
    PrefixLength <= |r| && ParseInt(r[..PrefixLength]) == Some(|r|)
  }

  predicate AllWellFormed(records: seq<seq<byte>>) {
    forall i :: 0 <= i < |records| ==> WellFormedRecord(records[i])
  }

  /** A record made by writing `|body| + 5` as five zero-padded digits in
      front of `body`: the writer side the framer expects. */
  function EncodeRecord(body: seq<byte>): (r: seq<byte>)
    requires |body| + PrefixLength < Pow10(PrefixLength)
    ensures WellFormedRecord(r)
    ensures r[PrefixLength..] == body
  {
    var prefix := Format(|body| + PrefixLength, PrefixLength);
    ParseIntOfFormat(|body| + PrefixLength, PrefixLength);
    assert (prefix + body)[..PrefixLength] == prefix;
    prefix + body
  }

  /** Framing a concatenation of well-formed records, from any point where
      the rest of the stream is that concatenation, yields exactly those
      records in order and then stops. */
  lemma {:induction false} FramesOfRecords(s: Stream, records: seq<seq<byte>>)
    requires AllWellFormed(records)
    requires s.data[s.pos..] == Flatten(records)
    ensures Frames(s) == Framing(records, Stop)
    decreases |records|
  {
    if |records| == 0 {
      assert AtEnd(s);
    } else {
      var r := records[0];
      assert WellFormedRecord(r);
      assert s.data[s.pos..] == r + Flatten(records[1..]);
      assert s.data[s.pos..s.pos + |r|] == r;
      assert PrefixAt(s) == r[..PrefixLength];
      ChunkOfDeclaredLength(s, |r|);
      var s' := Next(s).rest;
      assert Next(s).outcome == Chunk(r);
      assert s'.pos == s.pos + |r|;
      assert s'.data[s'.pos..] == Flatten(records[1..]);
      FramesOfRecords(s', records[1..]);
      assert records == [r] + records[1..];
    }
  }

  /** Round trip: a stream is a concatenation of well-formed records exactly
      when framing it from the start yields those records and stops; in
      that case the chunks concatenate back to the stream. */
  lemma RoundTrip(data: seq<byte>, handle: Handle, records: seq<seq<byte>>)
    ensures (AllWellFormed(records) && Flatten(records) == data)
        <==> (AllWellFormed(records) && Frames(Cursor(data, 0, handle)) == Framing(records, Stop))
    ensures AllWellFormed(records) && Flatten(records) == data ==>
              Flatten(Frames(Cursor(data, 0, handle)).chunks) == data
  {
    var s: Stream := Cursor(data, 0, handle);
    assert s.data[s.pos..] == data;
    if AllWellFormed(records) && Flatten(records) == data {
      FramesOfRecords(s, records);
    }
    if AllWellFormed(records) && Frames(s) == Framing(records, Stop) {
      FramingIsLossless(s);
    }
  }

  /** Bodies short enough for a five-digit length prefix. */
  predicate Encodable(bodies: seq<seq<byte>>) {
    forall i :: 0 <= i < |bodies| ==> |bodies[i]| + PrefixLength < Pow10(PrefixLength)
  }

  /** Each body written as a record, in order. */
  function EncodeAll(bodies: seq<seq<byte>>): (records: seq<seq<byte>>)
    requires Encodable(bodies)
    ensures |records| == |bodies|
    ensures forall i :: 0 <= i < |bodies| ==> records[i] == EncodeRecord(bodies[i])
  {
    if |bodies| == 0 then [] else [EncodeRecord(bodies[0])] + EncodeAll(bodies[1..])
  }

  /** Writer/reader round trip: writing bodies as records one after another
      and framing the result from the start, on either kind of handle,
      gives back the records in order, each carrying its body after the
      prefix, and then stops. */
  lemma {:induction false} EncodedRecordsRoundTrip(bodies: seq<seq<byte>>, handle: Handle)
    requires Encodable(bodies)
    ensures var records := EncodeAll(bodies);
            Frames(Cursor(Flatten(records), 0, handle)) == Framing(records, Stop)
    ensures var chunks := Frames(Cursor(Flatten(EncodeAll(bodies)), 0, handle)).chunks;
            |chunks| == |bodies| && forall i :: 0 <= i < |bodies| ==> chunks[i][PrefixLength..] == bodies[i]
  {
    var records := EncodeAll(bodies);
    assert AllWellFormed(records);
    RoundTrip(Flatten(records), handle, records);
  }
}
