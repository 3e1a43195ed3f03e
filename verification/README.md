# HTTP/1.1 from TCP: a Dafny model of the request parser and response writer

This project models the HTTP layer of `rust_http_from_tcp`, a small HTTP/1.1
server built directly on TCP. It covers three parts.

- **The header table** (`src/http/headers.rs`). This is a map from field name to value. Its parser consumes at most one field line per call. It lower-cases and trims names, checks that each name is a token, and joins repeated fields with `", "`.
- **The incremental request parser** (`src/http/request.rs`).
  - It parses the request line.
  - It runs the `Initialized -> ParsingHeaders -> (ParsingBody ->) Done` state machine and the `parse` driver that steps it.
  - It models `request_from_reader`, which pumps a growing buffer from a reader. The reader is a list of chunks. It delivers each chunk in one or more reads, and an empty chunk reads as end of stream.
- **The response side** (`src/http/response.rs`).
  - It writes status lines.
  - It models the `Writer` state machine. That machine enforces the order: status line, then headers, then a body or chunks, then trailers.
  - It models the default header table of a `Response` and `set_body`.

The main results:

- **Request line round trip.** Every valid request line reads back from its wire form.
- **Validity invariant.** Parsing keeps a request valid from `Request::new` on. So the error "body longer than content-length" can never happen.
- **Chunk-boundary independence.** `request_from_reader` returns exactly what one `parse` of the whole delivered byte stream returns, however the reader splits that stream. The buffer starts at 8 bytes, only doubles, and stays within twice the bytes delivered.
- **Writer order.** The writer accepts exactly the calls that extend a prefix of the response grammar. A rejected call writes nothing.
- **Chunked round trip.** Decoding the chunked frames the writer emits gives back the payloads.
- **The source's tests.** Every unit test in `headers.rs` and `request.rs` is restated as a lemma, except `test_chunk_reader_basics`, the test of the `ChunkReader` helper.

Modules, one per file:

| file | module | content |
|---|---|---|
| `wrappers.dfy` | `Wrappers` | `Option`, `Result` |
| `bytes.dfy` | `Bytes` | bytes, CRLF search, decoding and encoding |
| `text.dfy` | `Text` | trim, lower case, find, split |
| `numbers.dfy` | `Numbers` | decimal and hexadecimal printing and parsing |
| `errors.dfy` | `Errors` | `ParseError` |
| `headers.dfy` | `Headers` | the header table |
| `request.dfy` | `Request` | the parser |
| `request.dfy` | `RequestInvariant` | the parser's invariant |
| `pump.dfy` | `Pump` | `request_from_reader` |
| `response.dfy` | `Response` | status lines, the writer, the response |
| `chunked.dfy` | `Chunked` | a reference decoder for the chunked frames |
| `protocol.dfy` | `Protocol` | the writer's call order as a grammar |
| `header_scenarios.dfy` | `HeaderScenarios` | the tests of `headers.rs` |
| `request_scenarios.dfy` | `RequestScenarios` | the tests of `request.rs` |

`Headers::insert` stores keys exactly as given, while `Headers::get` lower-cases only the query (src/http/headers.rs:12-18). So the capitalised keys that `get_default_headers` inserts (src/http/response.rs:179-185) are invisible to `get` (`Response.DefaultHeadersInvisible`), and `set_body` adds a second Content-Length entry beside the first instead of replacing it (see Findings).

## Model

| member | source | states |
|---|---|---|
| Headers.Insert | src/http/headers.rs:12-14 | the key is stored exactly as given, its value replaced; every other entry is unchanged |
| Headers.Get | src/http/headers.rs:16-18 | found exactly when the lower-cased query is a stored key, with that key's value |
| Headers.GetIgnoresCase | src/http/headers.rs:16-18 | two queries that agree after lower-casing get the same answer |
| Headers.InsertThenGet | src/http/headers.rs:12-18 | a value inserted under a lower-case key is returned by `get` for every spelling of that key |
| Headers.InsertUpperCaseInvisible | src/http/headers.rs:12-18 | inserting under a key that is not lower case leaves `get` of that key answering as before |
| Headers.TCharIsNotDelimiter | src/http/headers.rs:28-36 | a token character is never white space, a colon, CR or LF |
| Headers.Coalesce | src/http/headers.rs:69-71 | a new name is added with its value; a repeated name gets `", "` and the new value appended; the table grows by one entry exactly for a new name |
| Headers.ParseFieldLine | src/http/headers.rs:50-76 | a parsed field has a non-empty lower-case token name and a trimmed value; every failure is an `InvalidFormat` error |
| Headers.ParseField | src/http/headers.rs:56-67 | the two sides of the first colon give a non-empty lower-case token name and a trimmed value, or an `InvalidFormat` error |
| Headers.ParseFieldLineWellFormed | src/http/headers.rs:50-73 | a line of padding, a token name, white space before the colon that does not end in a space (a tab, say), a colon, spaces, a trimmed value and padding parses to the lower-cased name and the value |
| Headers.ParseFieldLineNoColon | src/http/headers.rs:74-76 | a line without a colon fails with "no colon found" |
| Headers.ParseFieldLineSpaceBeforeColon | src/http/headers.rs:56-58 | a name that ends in a space before the first colon fails with "found space between field_name and colon" |
| Headers.ParseFieldLineInvalidName | src/http/headers.rs:60-64 | a name that is not a token once trimmed (including an empty one) fails with "found invalid chars within field_name" |
| Headers.Parse | src/http/headers.rs:42-81 | no CRLF yet: nothing consumed and the table unchanged; data starting with CRLF always gives two bytes consumed, done and the table unchanged, and done happens only then; otherwise exactly the line and its CRLF are consumed and the table gains at most one key; errors only once a line is complete |
| Headers.ParseLine | src/http/headers.rs:44-76 | a non-empty line before the first CRLF decides the call: the call fails exactly when the line fails, with the line's error, and otherwise merges the line's field into the table and consumes the line and its CRLF |
| Headers.CoalesceInOrder | src/http/headers.rs:69-71 | values arriving one line at a time under one name are stored once, as their `", "`-joined list in arrival order |
| Headers.FieldLines | src/http/headers.rs:85-92 | the rendered lines are `key: value` for each key in the iteration order |
| Numbers.Decimal | src/http/response.rs:181 | `usize::to_string` gives digits only, no leading zero, and denotes `n` |
| Numbers.ParseUsize | src/http/request.rs:79-82 | `parse::<usize>` accepts only an optional `+` followed by digits, and only values below 2^64 |
| Numbers.ParseUsizeDigits | src/http/request.rs:79-82 | a non-empty digit string is accepted with its decimal value exactly when that value is below 2^64 |
| Numbers.ParseUsizePlus | src/http/request.rs:79-82 | a leading `+` before a digit is accepted and does not change the result |
| Numbers.ParseUsizeLeadingZero | src/http/request.rs:79-82 | a leading zero before a digit string is accepted and does not change the result, so `013` declares 13 |
| Numbers.CanonicalIsDecimal | src/http/response.rs:181 | the shortest decimal form of a number is unique, so any such digit string is exactly what `usize::to_string` writes |
| Numbers.ParseDecimal | src/http/request.rs:79-82 | every `usize` printed in decimal parses back to itself |
| Numbers.ParseUsizeRejects | src/http/request.rs:79-82 | a character other than a digit (or a leading `+`) makes the parse fail |
| Numbers.Hex | src/http/response.rs:96 | `{:X}` gives upper-case hexadecimal digits with no leading zero |
| Numbers.ParseHexOfHex | src/http/response.rs:96 | every chunk size written with `{:X}` reads back as the same number |
| Numbers.HexZero | src/http/response.rs:96 | the single digit `0` is written for size zero and for no other size |
| Bytes.FindCRLF | src/http/headers.rs:44 | the position of the first CRLF: the pair is there, and no CRLF starts earlier |
| Bytes.FindCRLFExtend | src/http/request.rs:198 | once a CRLF is buffered, appending bytes does not move the first one |
| Bytes.DecodeEncode | src/http/request.rs:199 | ASCII text encoded and decoded again is unchanged |
| Text.Trim | src/http/headers.rs:60 | the result starts and ends with a character that is not white space |
| Text.TrimPadded | src/http/headers.rs:66-67 | trimming removes exactly the white-space padding around a trimmed core |
| Text.LowerIdempotent | src/http/headers.rs:66 | lower-casing twice is lower-casing once |
| Text.IndexOf | src/http/headers.rs:52 | the index of the first occurrence, with no earlier one; `None` exactly when the character is absent |
| Text.SplitWhitespaceJoin | src/http/request.rs:158 | words without white space, joined by single spaces, split back into the same words |
| Text.SplitOnOnce | src/http/request.rs:166 | text with one separator splits into the two sides of it |
| Request.RequestLineFrom | src/http/request.rs:157-185 | a parsed line has an alphabetic method, a target with no white space and version `1.1`, and the text splits into exactly those three words with `HTTP/1.1` last; any word count other than three is "malformed request line" |
| Request.RequestLineChecks | src/http/request.rs:159-181 | on three words the method is checked first: a non-alphabetic method gives "method contains non-alphabetic characters" whatever the version; with an alphabetic method, a version holding no `/` or more than one gives "malformed request line" |
| Request.RequestLineVersion | src/http/request.rs:166-178 | for an alphabetic method and a version `p/q` with one slash: `p` other than `HTTP` gives "unrecognized protocol", otherwise `q` other than `1.1` gives "unrecognized http version", otherwise the line is accepted with that method and target |
| Request.RequestLineRoundTrip | src/http/request.rs:157-185 | every valid request line reads back from its wire form |
| Request.ParseRequestLine | src/http/request.rs:197-205 | no CRLF: `(None, 0)`; otherwise the line and its CRLF are consumed and the result is a valid request line; errors only once a line is complete |
| Request.StepLine | src/http/request.rs:60-72 | consumes nothing and changes nothing, or sets the request line and moves to `ParsingHeaders` |
| Request.StepHeaders | src/http/request.rs:73-95 | never touches the request line or the body and never goes back to `Initialized`; consuming nothing changes nothing |
| Request.StepBody | src/http/request.rs:96-114 | the bytes taken are appended to the body and nothing else changes but the state, which stays `ParsingBody` or becomes `Done` |
| Request.ParseSingle | src/http/request.rs:57-120 | never consumes more than it is given; the state only moves forward; a `Done` request fails with "attempting to parse in a done state" |
| Request.Parse | src/http/request.rs:122-137 | the total consumed fits in the input, the state only moves forward, and a done request consumes nothing; on an error only the error is returned, and `Request.ParseInPlace` gives the request `&mut self` is left holding |
| Request.ParseInPlace | src/http/request.rs:58-137 | `parse` on `&mut self`: the total fits in the input and the state only moves forward, also when an error leaves the request as the earlier steps built it |
| Request.ParseInPlaceAgrees | src/http/request.rs:122-137 | the in-place driver fails exactly when `Parse` fails, with the same error, and otherwise leaves the request `Parse` returns with the same count |
| Request.ParseSettles | src/http/request.rs:122-137 | the driver stops only when the request is done, the input is used up, or the next step would do nothing |
| RequestInvariant.ValidNew | src/http/request.rs:44-51 | a new request satisfies the invariant |
| RequestInvariant.StepPreservesValid | src/http/request.rs:57-120 | one step keeps the invariant: the body never outgrows the declared length, and a finished request has exactly the declared body, or an empty one without `content-length` |
| RequestInvariant.ParsePreservesValid | src/http/request.rs:122-137 | the whole driver keeps the invariant |
| RequestInvariant.ParseInPlacePreservesValid | src/http/request.rs:96-137 | the request `parse` leaves behind satisfies the invariant even after an error, since a failing step changes nothing of a valid request |
| RequestInvariant.BodyStep | src/http/request.rs:96-114 | on a valid request the body step takes the smaller of what is missing and what is given, never fails, and is done exactly when the body reaches the declared length |
| RequestInvariant.HeaderBlockEnd | src/http/request.rs:76-92 | the blank line: no `content-length` or `0` means done, a positive length means body, anything else means "invalid content-length"; two bytes are consumed |
| RequestInvariant.NoLengthIgnoresBody | src/http/request.rs:85-88 | without `content-length` the driver stops after the blank line, leaving any bytes after it unread and the body empty |
| Pump.Read | src/http/request.rs:224-225 | a read never returns more bytes than there is room for |
| Pump.ReadSplitsStream | src/http/request.rs:224-229 | a read hands out the front of the remaining stream and leaves the rest, and returns zero bytes only at the stream's end |
| Pump.ParseAppend | src/http/request.rs:122-137 | parsing `a`, then the unconsumed bytes with `b` appended, gives the same request or error as parsing `a + b` in one go |
| Pump.ParseSettledTwice | src/http/request.rs:232-240 | parsing the bytes the driver left unconsumed again changes nothing |
| Pump.Doubled | src/http/request.rs:218-220 | every capacity reached by doubling is at least `BUFFER_SIZE` |
| Pump.Slide | src/http/request.rs:237-240 | `copy_within` moves the unconsumed bytes to the front and keeps the length |
| Pump.Grow | src/http/request.rs:218-220 | `resize` doubles the buffer and keeps its filled part |
| Pump.PumpParse | src/http/request.rs:232-240 | one `parse` of the buffer keeps the pump invariant: the unconsumed bytes plus the rest of the stream lead where the whole stream leads, and the buffered part alone moves the parser no further |
| Pump.PumpStop | src/http/request.rs:217-229 | when the request is done or the stream has ended, the request in hand is what the whole stream parses to |
| Pump.ParseBuffered | src/http/request.rs:232-240 | parses the filled part of the buffer, slides the rest to the front, and keeps the pump invariant |
| Pump.Fill | src/http/request.rs:218-229 | a full buffer doubles; the bytes read land after the filled part, and the buffer, the read and the rest of the reader together hold the old stream |
| Pump.PumpRound | src/http/request.rs:216-242 | one loop round keeps the pump invariant, or finishes with what the whole stream parses to |
| Pump.RequestFromReader | src/http/request.rs:210-246 | the result is what `parse` gives on all delivered bytes in one piece, for every way of cutting them into reads; the request is valid; the capacity is 8 doubled some number of times and at most twice the bytes delivered (or 8) |
| Response.StatusText | src/http/response.rs:13-22 | each status line starts with `HTTP/1.1 ` and its three-digit code names the status again |
| Response.StatusTextPlain | src/http/response.rs:13-22 | status lines are printable ASCII with no CR or LF |
| Response.StatusTextInjective | src/http/response.rs:13-22 | distinct status codes give distinct status lines |
| Response.NewWriter | src/http/response.rs:38-43 | a new writer is in state `New` and has written nothing |
| Response.WriteStatusLine | src/http/response.rs:45-56 | succeeds exactly in state `New`, appending the status line and CRLF; otherwise fails with "Status line must be written first" and writes nothing |
| Response.WriteHeaders | src/http/response.rs:58-69 | succeeds exactly after the status line, appending the rendered table and an empty line; otherwise fails with "Headers must be written after status line" and writes nothing |
| Response.WriteBody | src/http/response.rs:71-83 | succeeds exactly after the headers, appending the body unchanged, closing the body and returning its length; otherwise fails and writes nothing |
| Response.WriteChunkedBody | src/http/response.rs:85-107 | succeeds exactly after the headers, appending one chunk frame, staying open for more, and returning the bytes written; otherwise fails and writes nothing |
| Response.WriteChunkedBodyDone | src/http/response.rs:109-119 | succeeds exactly after the headers, appending `0` CRLF, closing the body and returning 3; otherwise fails and writes nothing |
| Response.WriteTrailers | src/http/response.rs:121-134 | succeeds exactly once the body is closed, appending the rendered trailers and CRLF and returning the bytes written; otherwise fails with "trailers can't be written until the body is done" |
| Response.Finish | src/http/response.rs:136-140 | always succeeds, appends CRLF, returns 2 and keeps the state |
| Response.DefaultHeaders | src/http/response.rs:179-186 | exactly the keys `Content-Length`, `Connection` and `Content-Type`, with `close`, `text/plain` and the length in shortest decimal form: non-empty digits with no leading zero |
| Response.DefaultLengthIsDecimal | src/http/response.rs:181 | the default length is exactly the string `usize::to_string` writes for it |
| Response.DefaultLengthParses | src/http/response.rs:179-186 | the default length reads back as the length it was made from |
| Response.DefaultHeadersInvisible | src/http/response.rs:179-186 | `Headers::get` finds none of the default keys, whatever name it is asked for |
| Response.Default | src/http/response.rs:149-157 | status 200, no body, the default headers for length 0 |
| Response.NewResponse | src/http/response.rs:171-177 | the given status and body, with the default headers for the body's length |
| Response.LengthKeys | src/http/response.rs:188-192 | the keys that name Content-Length in any case, and only those |
| Response.SetBody | src/http/response.rs:188-192 | the body is replaced and `content-length` is set to its length; every other key is kept, so an existing `Content-Length` stays |
| Response.SetBodyDuplicatesLength | src/http/response.rs:188-192 | on a default response with a non-empty body, two Content-Length keys remain, with the stale `0` and the new length |
| Response.SetBodyFolded | src/http/response.rs:188-192 | exactly one Content-Length key remains, holding the body's length; every other entry is kept and none is added |
| Response.SetBodyFoldedDeclaresLength | src/http/response.rs:188-192 | with the corrected `set_body`, a default response declares exactly its body's length under the default keys |
| Chunked.NextFrame | src/http/response.rs:85-119 | a chunk frame has a non-empty payload, and both kinds of frame leave less input than they were given |
| Chunked.FrameOf | src/http/response.rs:85-107 | a frame written for a non-empty payload reads back as that payload and leaves what follows |
| Chunked.LastChunkEnds | src/http/response.rs:109-119 | the last-chunk line ends the body and leaves what follows |
| Chunked.DecodeFrames | src/http/response.rs:85-119 | decoding the frames of non-empty payloads and the last-chunk line gives the payloads joined together, and leaves the following bytes |
| Chunked.EmptyChunkEnds | src/http/response.rs:85-107 | a frame written for an empty payload is itself a last-chunk line and ends the body early |
| Protocol.Apply | src/http/response.rs:45-140 | a rejected call leaves the writer as it was; an accepted call appends its frame; `finish` is always accepted and keeps the state |
| Protocol.ApplyAllowed | src/http/response.rs:45-140 | a call is accepted exactly when the writer's state check lets it through, and then moves the writer to the phase it ends |
| Protocol.LangSnoc | src/http/response.rs:45-134 | one more call extends a prefix of the response grammar exactly when the state check lets it through |
| Protocol.RunInvariant | src/http/response.rs:45-140 | after any run of calls, the accepted ones without `finish` form a prefix of the grammar, the state is the phase of that prefix, and the wire holds the accepted frames in order |
| Protocol.RunAccepts | src/http/response.rs:45-140 | a call is accepted exactly when it is `finish` or extends the accepted prefix of the grammar; a rejected call changes nothing |
| HeaderScenarios.ValidSingleHeader | src/http/headers.rs:99-108 | `Host: localhost:42069` followed by a blank line: host stored, 23 bytes consumed, not done |
| HeaderScenarios.InvalidSpacing | src/http/headers.rs:111-124 | a space before the colon is refused |
| HeaderScenarios.ExtraWhitespace | src/http/headers.rs:127-135 | padding around the name and value is trimmed |
| HeaderScenarios.ValidDone | src/http/headers.rs:138-146 | a leading CRLF ends the header block, consuming two bytes |
| HeaderScenarios.TwoHeadersWithExisting | src/http/headers.rs:149-157 | a field is added next to an existing entry, giving two entries |
| HeaderScenarios.InvalidChars | src/http/headers.rs:160-172 | a name with a character outside the token set is refused |
| HeaderScenarios.SpecialCharacters | src/http/headers.rs:175-181 | a name made of token punctuation is accepted |
| HeaderScenarios.MultipleValues | src/http/headers.rs:184-196 | repeated fields are joined with `", "` in order |
| HeaderScenarios.ThreeParsingCalls | src/http/headers.rs:199-219 | three successive calls, each given one `Set-Person` line, accumulate the values joined with `", "` in arrival order |
| HeaderScenarios.RenderedLineReads | src/http/headers.rs:50-92 | an entry rendered as `key: value` with a lower-case token key and a trimmed plain value reads back as that entry |
| HeaderScenarios.RenderedLineParses | src/http/headers.rs:42-92 | a rendered entry followed by CRLF is read whole by one parse call and merges that entry into the table |
| RequestScenarios.HeaderLinesStep | src/http/request.rs:73-95 | a run of well-formed field lines leads to the table with their fields coalesced in order |
| RequestScenarios.RequestOutcome | src/http/request.rs:57-137 | a request line, well-formed fields and a body in one buffer parse to the request the content-length decides: done with no body, a refused length, done with the declared bytes, or still waiting for more |
| RequestScenarios.BadFieldOutcome | src/http/request.rs:73-95 | a bad field line fails the whole parse with that line's error |
| RequestScenarios.NoLineYet | src/http/request.rs:122-137 | without a CR nothing is consumed and the request is unchanged |
| RequestScenarios.RequestLineParse | src/http/request.rs:255-266 | `GET / HTTP/1.1` parses to method GET, target `/`, version 1.1 |
| RequestScenarios.FromReader | src/http/request.rs:268-277 | the full request from a reader has method GET, target `/coffee`, version 1.1 |
| RequestScenarios.InvalidRequest | src/http/request.rs:280-287 | a request line missing its method gives "malformed request line" |
| RequestScenarios.StandardHeaders | src/http/request.rs:290-305 | three standard fields parse and are found by their lower-case names |
| RequestScenarios.EmptyHeaders | src/http/request.rs:308-315 | with no fields the request is done with an empty table |
| RequestScenarios.MalformedHeader | src/http/request.rs:318-324 | a field line whose name before its first colon holds a space fails the parse with "found invalid chars within field_name" |
| RequestScenarios.MalformedHeaderKeepsLine | src/http/request.rs:318-324 | with `parse` in place, the same input returns that error and leaves the request holding `GET / HTTP/1.1` in `ParsingHeaders` with an empty table |
| RequestScenarios.BadFieldKeepsLine | src/http/request.rs:58-93 | after a good request line, a bad field line leaves the request holding that line, in `ParsingHeaders`, with the table unchanged, and returns the line's error |
| RequestScenarios.StandardBody | src/http/request.rs:327-334 | a 13-byte body declared as 13 is read whole and the request is done |
| RequestScenarios.ZeroContentLength | src/http/request.rs:337-344 | `Content-Length: 0` means done with an empty body |
| RequestScenarios.NoContentLength | src/http/request.rs:347-354 | no `Content-Length` means done with an empty body |
| RequestScenarios.BodyShorter | src/http/request.rs:357-366 | a body shorter than declared is kept and the parser waits in `ParsingBody` |
| RequestScenarios.NoLengthButBody | src/http/request.rs:369-377 | without `Content-Length` the bytes after the blank line are ignored |
| RequestScenarios.DuplicateHeaders | src/http/request.rs:381-388 | two `Set-Person` lines give `lane, prime` |
| RequestScenarios.Stateful | src/http/request.rs:390-405 | `GE` consumes nothing; then the complete line consumes 16 bytes and moves to `ParsingHeaders` |

## Left out

- Network and asynchronous I/O (`TcpStream`, tokio, `await`). The writer appends to a byte log instead of a stream, and the reader is a list of chunks.
- Write failures, flushes and short writes are not modelled. `write_chunked_body` and `write_trailers` use `write`, which may write part of a buffer; the model treats every write as complete.
- `ParseError::IOError` is not modelled, because the chunk-list reader never fails.
- Response.WriteChunkedBody: the returned count is the full frame length, which assumes complete writes as above.
- Response.WriteTrailers: the returned count is the full section length, which is what the source returns even after a short write.
- `String::from_utf8_lossy` is modelled one byte per character, which is exact on ASCII. Non-ASCII request bytes would decode differently, and replacement characters are not modelled.
- `char::is_whitespace`, `char::is_alphabetic` and `str::to_lowercase` are restricted to ASCII.
- Iteration order of the `HashMap` behind `Headers` is a parameter (`order`, any duplicate-free listing of the keys), because the source does not fix it.
- The `Display` impls for `Request`, `RequestLine`, `Response` and `ParseError` only produce debug text and are not modelled. The one for `Headers` is modelled (`Headers.Render`), because it produces the header bytes on the wire.
- The `println!` calls in `request_from_reader` are not modelled.
- `Request::get_target` is a field access and has no member of its own.
- `RequestLine::build` is the `RequestLine` constructor and has no member of its own.
- `Headers::new`, `len` and `is_empty` are the empty map and its size.
- `usize` is 64 bits wide. Only `parse::<usize>` can overflow in the modelled code, and it is bounded explicitly.
- The `content_length - body.len()` subtraction wraps instead of panicking (release-build behaviour). `RequestInvariant.BodyStep` shows that this case cannot be reached.
- The `ChunkReader` test helper (src/http/request.rs:407-454) is not modelled. It is covered by the chunk-list reader of `Pump`.
- src/http/mod.rs and src/bin/*.rs are not part of this model.

## Findings

| source | as written | input that shows it | evidently intended | confidence | as-written member | corrected member |
|---|---|---|---|---|---|---|
| src/http/response.rs:188-192 | `set_body` inserts the length under `content-length`, while `get_default_headers` stored it under `Content-Length`; keys are stored verbatim, so both stay | `Response::default()` then `set_body(b"hi".to_vec())`: the table holds `Content-Length: 0` and `content-length: 2` | the one Content-Length field is replaced by the new body's length | not executed | Response.SetBodyDuplicatesLength | Response.SetBodyFoldedDeclaresLength |
