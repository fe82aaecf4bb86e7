# pymarc MARC 21 record framer, modelled in Dafny

This project models `MARCReader.__next__` from pymarc. That is the loop step that splits a
stream of MARC 21 records in transmission format into individual records. Each record begins
with its own total length, written as five ASCII digits: the record length of the leader,
character positions 00-04 of ISO 2709. Each call:

1. reads those five bytes;
2. converts them with Python's `int()`;
3. reads the remaining `L - 5` bytes and puts the prefix back in front;
4. decodes the chunk as UTF-8 under the configured error handler;
5. hands the result to the `Record` constructor.

Modules:

- `Bytes`, `Options`, `Decimal` (`bytes.dfy`): bytes, ASCII classes, and fixed-width decimal
  numerals, with their value/format round trip.
- `IntLiteral` (`int_literal.dfy`): `int()` applied to a bytes object in base 10. It is a
  left-to-right scanner in the manner of CPython's integer parser:
  - leading and trailing ASCII whitespace is skipped;
  - one `+` or `-` is allowed;
  - single underscores may stand between digits;
  - anything else is a `ValueError`.
- `ByteIO` (`byte_io.dfy`): the byte source as an immutable byte string plus a cursor and a
  handle kind. Every file input reaches `__next__` as a `BufferedReader` (pymarc/reader.py:38-47);
  a `str` input becomes a `BytesIO` (pymarc/reader.py:49-51). `Read` has Python's `read(n)`
  semantics: at most `n` bytes, and fewer at end of stream. A negative `n` reads to end of
  stream on a `BytesIO`. A `BufferedReader` reads to end only for `n == -1` and raises
  `ValueError` for anything smaller.
- `Framer` (`framer.dfy`): one framing step `Next`, returning an `Outcome` and the new cursor.
  `Outcome` is one of `Stop`, `LengthInvalid`, `BadLength` (a `ValueError`) or `Chunk(bytes)`. `Frames`
  iterates `Next` until it yields something other than a chunk. The module also states the
  boundary behaviour and the lossless / round-trip theorems. `EncodeRecord` writes a body behind
  a prefix stating its own length; framing a concatenation of such records gives them back.
- `MarcReader` (`marc_reader.dfy`): `__next__` in full. UTF-8 decoding (`Decoder`) and
  `Record` construction (`Builder`) are function parameters that may fail. The module proves
  that their failures never disturb framing. `ReadAll` is the `for record in reader` loop.

The Python assumed is 3.6 to 3.9. `int()` accepts underscores from 3.6 on, and the constructor's
`collections.Callable` (pymarc/reader.py:37) is gone from 3.10 on.

## Behaviour as written

The model follows the code, including these points. At each of them a caller might expect an
error or a check that the code does not make:

- A truncated record is not an error. When fewer than `L - 5` bytes remain, `read` returns what
  is there, and the short chunk is passed on as if complete (`Framer.TruncatedRecordIsReturned`).
- A UTF-8 decoding failure is not reported to the caller, even under `strict`. It is logged, and
  the raw bytes go to `Record` (`MarcReader.DecodeChunk`, `MarcReader.FailuresAreAbsorbed`).
- After `RecordLengthInvalid`, the offending one to four bytes have been consumed. The next call
  raises `StopIteration` rather than failing again (`Framer.ShortPrefixThenStop`).
- A prefix that `int()` rejects raises `ValueError`, not `RecordLengthInvalid`. The five bytes
  have already been consumed (`Framer.NonNumericPrefixRaises`).
- `int()` accepts more than plain digits: ` 0030`, `0030 `, `+0030`, `0_030` and `-0001` all
  parse (the `IntLiteral.ParseIntOf…` lemmas).
- A length below 5, including a negative one, asks `read` for a negative count. A `BytesIO`, and
  either handle for a length of exactly 4, then returns the whole rest of the stream as one chunk
  (`Framer.SmallLengthTakesRest`). A `BufferedReader` raises `ValueError` for a length below 4,
  after the five prefix bytes were consumed (`Framer.SmallLengthRaisesOnFile`).

## Model

| member | source | states |
|---|---|---|
| `IntLiteral.ParseIntAcceptsOnlyLiteralBytes` | pymarc/reader.py:60 | `int()` raises on a prefix holding any byte other than a digit, ASCII whitespace, sign or underscore (a letter, a non-ASCII byte) |
| `IntLiteral.ParseIntBounds` | pymarc/reader.py:60 | a parsed literal of n bytes lies strictly between -10^n and 10^n, so a length prefix gives a length within ±99999 |
| `IntLiteral.ParseIntOfDigits` | pymarc/reader.py:60 | five ASCII digits parse to the decimal number they spell, leading zeros included |
| `IntLiteral.ParseIntOfFormat` | pymarc/reader.py:60 | a length written as zero-padded digits parses back to itself |
| `IntLiteral.ParseIntOfNegative` | pymarc/reader.py:60 | a minus sign followed by digits is accepted and gives a negative length, e.g. `-0001` is -1 |
| `IntLiteral.ParseIntOfSpacePadded` | pymarc/reader.py:60 | leading whitespace is accepted: a space followed by digits parses to the digits' value |
| `IntLiteral.ParseIntOfPlusSigned` | pymarc/reader.py:60 | a plus sign followed by digits parses to the digits' value, e.g. `+0030` is 30 |
| `IntLiteral.ParseIntOfTrailingSpace` | pymarc/reader.py:60 | trailing whitespace is accepted: digits followed by a space parse to the digits' value |
| `IntLiteral.ParseIntOfUnderscored` | pymarc/reader.py:60 | one underscore between two digit runs is ignored: `a_b` parses to the value of the digits `ab`, e.g. `0_030` is 30 |
| `ByteIO.Read` | pymarc/reader.py:55-61 | `read(n)` raises exactly when the handle is a `BufferedReader` and n < -1; otherwise it returns the next contiguous bytes and moves the cursor past them on the same data and handle, `min(n, remaining)` of them for n >= 0 and all remaining ones for negative n |
| `Framer.Next` | pymarc/reader.py:54-62 | it stops exactly at end of stream, without moving; it raises `RecordLengthInvalid` exactly when 1-4 bytes remain, consuming them; it raises `ValueError` exactly when the 5-byte prefix does not parse or, on a `BufferedReader`, parses below 4, consuming 5 bytes; otherwise the chunk is exactly the bytes consumed, at least 5 of them |
| `Framer.NextAdvances` | pymarc/reader.py:54-62 | every call that does not stop moves the cursor forward |
| `Framer.StopIsIdempotent` | pymarc/reader.py:55-57 | at end of stream the step stops and leaves the cursor unchanged, and the next step does the same |
| `Framer.ShortPrefixThenStop` | pymarc/reader.py:55-59 | with 1-4 bytes left the step raises `RecordLengthInvalid`, and the following call stops |
| `Framer.NonNumericPrefixRaises` | pymarc/reader.py:55-60 | a prefix containing a byte that cannot occur in an integer literal raises `ValueError` after the five bytes were consumed |
| `Framer.ChunkOfDeclaredLength` | pymarc/reader.py:60-62 | for a parsed length L >= 5, the chunk is the prefix followed by the next `min(L-5, remaining-5)` bytes; the cursor moves by its length; it is L bytes long exactly when L bytes remain |
| `Framer.SmallLengthTakesRest` | pymarc/reader.py:60-62 | for a parsed length below 5 that the handle accepts (exactly 4, or any on a `BytesIO`), the read size is negative, so the chunk is everything left and the stream is exhausted |
| `Framer.SmallLengthRaisesOnFile` | pymarc/reader.py:60-61 | on a `BufferedReader`, a parsed length below 4 makes `read(L - 5)` raise `ValueError`, with exactly the 5 prefix bytes consumed |
| `Framer.TruncatedRecordIsReturned` | pymarc/reader.py:61-62 | when fewer than L bytes remain, the rest of the stream comes back as one chunk shorter than L, with no error, and the next call stops |
| `Framer.MislabelledChunkIsLast` | pymarc/reader.py:60-62 | a chunk whose prefix does not state its own length is always the last chunk of the stream |
| `Framer.FramingIsLossless` | pymarc/reader.py:54-62 | the chunks of an iteration concatenate to a gap-free stretch of the input starting at the cursor; when the iteration ends by stopping, they concatenate to the whole rest of the input |
| `Framer.FramesOfRecords` | pymarc/reader.py:54-62 | from any point where the rest of the stream is a concatenation of well-formed records, iteration yields exactly those records, in order, and then stops |
| `Framer.RoundTrip` | pymarc/reader.py:54-62 | on either handle, a stream is the concatenation of a list of well-formed records if and only if framing it yields exactly that list and stops; the chunks then concatenate back to the stream |
| `Framer.EncodedRecordsRoundTrip` | pymarc/reader.py:54-62 | writing bodies as length-prefixed records one after another and framing the result gives back one chunk per body, in order, each carrying its body after the prefix, and then stops |
| `MarcReader.DecodeChunk` | pymarc/reader.py:63-69 | `Record` receives raw bytes exactly when decoding fails, and then the bytes are the chunk unchanged; otherwise it receives the decoded text |
| `MarcReader.ReaderNext` | pymarc/reader.py:54-78 | the cursor moves exactly as framing moves it; it raises `StopIteration`, `RecordLengthInvalid` or `ValueError` under exactly the framer's conditions (`ValueError`: an unparsable prefix, or a length below 4 on a `BufferedReader`); otherwise it returns whatever the constructor produced for that chunk's payload (`None` on failure) |
| `MarcReader.ExhaustedReaderStaysExhausted` | pymarc/reader.py:55-57 | an exhausted reader raises `StopIteration` on every call and never moves |
| `MarcReader.FramingIgnoresDecoding` | pymarc/reader.py:63-78 | readers with different codecs, constructors or options over the same bytes take identical steps and agree on every outcome except the records returned |
| `MarcReader.FailuresAreAbsorbed` | pymarc/reader.py:63-78 | a decoding failure hands the raw chunk to `Record`; a constructor failure makes the call return `None`; either way the whole chunk was consumed |
| `MarcReader.ReadAll` | pymarc/reader.py:11-12 | iterating the reader gives one result per framed chunk, in stream order, each built from its own chunk, and ends with the exception that ended the framing |
| `MarcReader.ReadAllRecords` | pymarc/reader.py:54-78 | reading a concatenation of well-formed records yields one result per record, in order, each built from that record's bytes, and then `StopIteration` |

## Left out

- Input normalisation in `MARCReader.__init__` (pymarc/reader.py:37-51). It is Python type
  dispatch, closing and reopening a file by name, `BufferedReader` wrapping and an ASCII encode
  of string input. All of that is I/O plumbing and library codecs. The model starts from the
  byte string the resulting handle would deliver, and from the kind of that handle.
- The constructor's keyword options (pymarc/reader.py:29-36). They only fall back to `'strict'`
  and `False` when a keyword is absent, and keep any object given. The model takes the two
  values as given in `Config`, typed as a string and a boolean. A non-string handler such as
  `None` makes `decode` raise, which the `Decoder` parameter already covers.
- UTF-8 decoding under the `strict`/`replace`/`xmlcharrefreplace`/`ignore` handlers
  (pymarc/reader.py:64-65). This is Python's codec. It is the `Decoder` parameter, which may
  fail with any exception, an unknown handler name included.
- The `Record` class (pymarc/reader.py:71-73). It is not part of this model, and it is the
  `Builder` parameter.
- Logging and traceback output (pymarc/reader.py:67, 69, 78). These are side effects only.
- `BaseException`s other than the decoding and construction errors, such as
  `KeyboardInterrupt`. The bare `except:` clauses would absorb them too; they come from outside
  the program.
- `DepreciatedMARCReader` (pymarc/reader.py:80-164). It repeats the same framing without
  decoding. Its constructor calls `super(MARCReader, self)` on an object that is not a
  `MARCReader`, so it cannot be constructed as written.
- `map_records` (pymarc/reader.py:166-177). It is a side-effect-only loop over readers with no
  contract beyond applying `f` to each record in turn, which is `MarcReader.ReadAll` per source.
- Continuing to call `__next__` after it raised `RecordLengthInvalid` or `ValueError`. The
  iteration model stops at the first exception, as a `for` loop does. The single step
  (`Framer.Next`, `MarcReader.ReaderNext`) still describes any later call from the cursor it
  leaves.
- CPython's integer parser also has a digit-count limit (`sys.set_int_max_str_digits`) and
  accepts non-ASCII digits in `str` input. Neither can matter for a five-byte bytes prefix.
