/** `MARCReader`: the framer plus what `__next__` does with each chunk.
    UTF-8 decoding and the `Record` constructor are not part of this model;
    they are parameters (`Decoder`, `Builder`) that may fail, and the model
    states only what the reader does with their success or failure. */
module MarcReader {
  import opened Options
  import opened Bytes
  import opened ByteIO
  import opened IntLiteral
  import opened Framer

  /** The options fixed when the reader is constructed: the codec error
      handler name passed to `decode` and to `Record` (`'strict'` unless
      given), and whether `Record` should stay quiet about decoding trouble
      (`False` unless given). */
  datatype Config = Config(utf8Handling: string, hideUtf8Warnings: bool)

  /** `bytes.decode('utf-8', errors=handler)`: text, or `None` when it
      raises (any exception, including an unknown handler name). */
  type Decoder<T> = (seq<byte>, string) -> Option<T>

  /** What `Record` is handed: decoded text, or the raw bytes when decoding
      failed. */
  datatype Payload<T> = Text(text: T) | Raw(bytes: seq<byte>)

  /** `Record(payload, hide_utf8_warnings=..., utf8_handling=...)`: a record,
      or `None` when the constructor raises. */
  type Builder<!T, R> = (Payload<T>, bool, string) -> Option<R>

  /** What one call of `__next__` does: raise `StopIteration`, raise
      `RecordLengthInvalid`, raise `ValueError` from `int()`, or return a
      value, which is `None` when record construction failed. */
  datatype Step<R> = StopIteration | RecordLengthInvalid | ValueError | Returned(record: Option<R>)

  /** The first `try`: a decoding failure is logged and swallowed, and the
      chunk stays bytes. */
  function DecodeChunk<T>(chunk: seq<byte>, cfg: Config, decode: Decoder<T>): (p: Payload<T>)
    ensures p.Raw? <==> decode(chunk, cfg.utf8Handling).None?
    ensures p.Raw? ==> p.bytes == chunk
    ensures p.Text? ==> decode(chunk, cfg.utf8Handling) == Some(p.text)
  {
    match decode(chunk, cfg.utf8Handling)
    case Some(text) => Text(text)
    case None => Raw(chunk)
  }

  /** The second `try`: the constructor's failure is printed and `__next__`
      falls off its end, returning `None`. */
  function BuildRecord<T, R>(chunk: seq<byte>, cfg: Config, decode: Decoder<T>, build: Builder<T, R>): Option<R> {
    build(DecodeChunk(chunk, cfg, decode), cfg.hideUtf8Warnings, cfg.utf8Handling)
  }

  /** `MARCReader.__next__`. The cursor moves exactly as the framer moves
      it, whatever decoding and construction do: their failures never abort
      or disturb framing. */
  function ReaderNext<T, R>(s: Stream, cfg: Config, decode: Decoder<T>, build: Builder<T, R>): (r: Called<R>)
    ensures r.rest == Next(s).rest
    ensures r.step.StopIteration? <==> AtEnd(s)
    ensures r.step.RecordLengthInvalid? <==> 0 < Remaining(s) < PrefixLength
    ensures r.step.ValueError? <==>
              && PrefixLength <= Remaining(s)
              && (ParseInt(PrefixAt(s)).None? || RefusesLength(s, ParseInt(PrefixAt(s)).value))
    ensures r.step.Returned? <==> Next(s).outcome.Chunk?
    ensures r.step.Returned? ==> r.step.record == BuildRecord(Next(s).outcome.bytes, cfg, decode, build)
  {
    var Framed(o, s') := Next(s);
    match o
    case Stop => Called(StopIteration, s')
    case LengthInvalid => Called(RecordLengthInvalid, s')
    case BadLength => Called(ValueError, s')
    case Chunk(chunk) => Called(Returned(BuildRecord(chunk, cfg, decode, build)), s')
  }

  /** Once exhausted, the reader raises `StopIteration` on every call and
      its cursor stays put. */
  lemma ExhaustedReaderStaysExhausted<T, R>(s: Stream, cfg: Config, decode: Decoder<T>, build: Builder<T, R>)
    requires AtEnd(s)
    ensures ReaderNext(s, cfg, decode, build) == Called(StopIteration, s)
    ensures ReaderNext(ReaderNext(s, cfg, decode, build).rest, cfg, decode, build) == Called(StopIteration, s)
  {
  }

  /** Two readers over the same bytes with different codecs, constructors
      or options take the same steps through the stream and agree on every
      outcome except the records they return. */
  lemma FramingIgnoresDecoding<T, R, T', R'>(
    s: Stream,
    cfg: Config, decode: Decoder<T>, build: Builder<T, R>,
    cfg': Config, decode': Decoder<T'>, build': Builder<T', R'>)
    ensures var a := ReaderNext(s, cfg, decode, build);
            var b := ReaderNext(s, cfg', decode', build');
            && a.rest == b.rest
            && (a.step.StopIteration? <==> b.step.StopIteration?)
            && (a.step.RecordLengthInvalid? <==> b.step.RecordLengthInvalid?)
            && (a.step.ValueError? <==> b.step.ValueError?)
            && (a.step.Returned? <==> b.step.Returned?)
  {
  }

  /** A chunk that does not decode is handed to the constructor as raw bytes,
      and a constructor that raises makes the call return `None`; either
      way the call still consumed the whole chunk. */
  lemma FailuresAreAbsorbed<T, R>(s: Stream, cfg: Config, decode: Decoder<T>, build: Builder<T, R>)
    requires Next(s).outcome.Chunk?
    ensures var chunk := Next(s).outcome.bytes;
            decode(chunk, cfg.utf8Handling).None? ==>
              ReaderNext(s, cfg, decode, build).step
                == Returned(build(Raw(chunk), cfg.hideUtf8Warnings, cfg.utf8Handling))
    ensures var chunk := Next(s).outcome.bytes;
            build(DecodeChunk(chunk, cfg, decode), cfg.hideUtf8Warnings, cfg.utf8Handling).None? ==>
              ReaderNext(s, cfg, decode, build).step == Returned(None)
    ensures ReaderNext(s, cfg, decode, build).rest.pos == s.pos + |Next(s).outcome.bytes|
  {
  }

  /** What a call did and the stream after it. */
  datatype Called<R> = Called(step: Step<R>, rest: Stream)

  /** The exception that ended an iteration of the framer, as `__next__`
      raises it. */
  function Ending<R>(o: Outcome): Step<R>
    requires !o.Chunk?
  {
    match o
    case Stop => StopIteration
    case LengthInvalid => RecordLengthInvalid
    case BadLength => ValueError
  }

  /** The results `__next__` returns for a run of chunks, one per chunk. */
  function Built<T, R>(chunks: seq<seq<byte>>, cfg: Config, decode: Decoder<T>, build: Builder<T, R>): (rs: seq<Option<R>>)
    ensures |rs| == |chunks|
    ensures forall i :: 0 <= i < |chunks| ==> rs[i] == BuildRecord(chunks[i], cfg, decode, build)
  {
    if |chunks| == 0 then []
    else [BuildRecord(chunks[0], cfg, decode, build)] + Built(chunks[1..], cfg, decode, build)
  }

  /** After a call that returned, the results still to come are those of
      the chunks after it. */
  lemma BuiltAfterChunk<T, R>(s: Stream, cfg: Config, decode: Decoder<T>, build: Builder<T, R>)
    requires Next(s).outcome.Chunk?
    ensures Remaining(Next(s).rest) < Remaining(s)
    ensures Frames(Next(s).rest).ending == Frames(s).ending
    ensures Built(Frames(s).chunks, cfg, decode, build)
         == [BuildRecord(Next(s).outcome.bytes, cfg, decode, build)] + Built(Frames(Next(s).rest).chunks, cfg, decode, build)
  {
    NextAdvances(s);
    FramesAfterChunk(s);
    var cs := Frames(s).chunks;
    assert cs[1..] == Frames(Next(s).rest).chunks;
  }

  /** A call that raises ends the framing there, with that exception; a
      call that returns does so for the next framed chunk. */
  lemma CallEndsFraming<T, R>(s: Stream, cfg: Config, decode: Decoder<T>, build: Builder<T, R>)
    ensures var call := ReaderNext(s, cfg, decode, build);
            !call.step.Returned? ==> Frames(s).chunks == [] && call.step == Ending(Frames(s).ending)
    ensures var call := ReaderNext(s, cfg, decode, build);
            call.step.Returned? ==>
              && Next(s).outcome.Chunk?
              && call.rest == Next(s).rest
              && call.step.record == BuildRecord(Next(s).outcome.bytes, cfg, decode, build)
  {
  }

  /** `for record in reader`: call `__next__` until it raises, collecting
      what it returns. One result per framed chunk, in stream order, each
      built from its own chunk alone; the loop ends with the exception that
      ended the framing. */
  method ReadAll<T, R>(s: Stream, cfg: Config, decode: Decoder<T>, build: Builder<T, R>)
    returns (results: seq<Option<R>>, ending: Step<R>)
    ensures |results| == |Frames(s).chunks|
    ensures forall i :: 0 <= i < |results| ==>
              results[i] == BuildRecord(Frames(s).chunks[i], cfg, decode, build)
    ensures ending == Ending(Frames(s).ending)
  {
    var cur := s;
    results := [];
    var call := ReaderNext(cur, cfg, decode, build);
    while call.step.Returned?
      invariant call == ReaderNext(cur, cfg, decode, build)
      invariant Frames(cur).ending == Frames(s).ending
      invariant results + Built(Frames(cur).chunks, cfg, decode, build) == Built(Frames(s).chunks, cfg, decode, build)
      decreases Remaining(cur)
    {
      CallEndsFraming(cur, cfg, decode, build);
      BuiltAfterChunk(cur, cfg, decode, build);
      var x := call.step.record;
      ghost var later := Built(Frames(call.rest).chunks, cfg, decode, build);
      AppendAssoc(results, [x], later);
      results := results + [x];
      cur := call.rest;
      call := ReaderNext(cur, cfg, decode, build);
    }
    CallEndsFraming(cur, cfg, decode, build);
    assert results == Built(Frames(s).chunks, cfg, decode, build);
    ending := call.step;
  }

  /** Reading a stream made of well-formed records yields exactly one result
      per record, in order, each built from that record's bytes, and then
      `StopIteration`. */
  method ReadAllRecords<T, R>(data: seq<byte>, handle: Handle, ghost records: seq<seq<byte>>,
                              cfg: Config, decode: Decoder<T>, build: Builder<T, R>)
    returns (results: seq<Option<R>>, ending: Step<R>)
    requires AllWellFormed(records) && Flatten(records) == data
    ensures ending == StopIteration
    ensures |results| == |records|
    ensures forall i :: 0 <= i < |records| ==>
              results[i] == BuildRecord(records[i], cfg, decode, build)
  {
    var s: Stream := Cursor(data, 0, handle);
    assert s.data[s.pos..] == data;
    FramesOfRecords(s, records);
    results, ending := ReadAll(s, cfg, decode, build);
  }
}
