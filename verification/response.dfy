/**
  The response side of src/http/response.rs: status lines, the `Writer`
  state machine that enforces status line, then headers, then body, and the
  `Response` value with its default header table.

  The TCP stream is replaced by the byte log `wire` carried in the writer:
  every write is complete and appends to it.
 */
module Response {
  import opened Wrappers
  import opened Bytes
  import opened Text
  import opened Numbers
  import opened Headers

  datatype StatusCode = StatusOk | StatusBadRequest | StatusInternalServerError | StatusNotFound

  /** `Display for StatusCode`. */
  function StatusText(code: StatusCode): (s: string)
    ensures |s| > 9 && s[..9] == "HTTP/1.1 "
    ensures StatusCodeOf(s) == Some(code)
  {
    match code
    case StatusOk => "HTTP/1.1 200 OK"
    case StatusBadRequest => "HTTP/1.1 400 Bad Request"
    case StatusInternalServerError => "HTTP/1.1 500 Internal Server Error"
    case StatusNotFound => "HTTP/1.1 404 File Not Found"
  }

  /** Reads the status code back from a status line by its three digits. */
  function StatusCodeOf(line: string): Option<StatusCode> {
    if |line| < 12 || line[..9] != "HTTP/1.1 " then None
    else
      match (line[9], line[10], line[11])
      case ('2', '0', '0') => Some(StatusOk)
      case ('4', '0', '0') => Some(StatusBadRequest)
      case ('5', '0', '0') => Some(StatusInternalServerError)
      case ('4', '0', '4') => Some(StatusNotFound)
      case _ => None
  }

  /** Printable ASCII: a space through a tilde. */
  predicate Printable(s: string) {
    forall i :: 0 <= i < |s| ==> ' ' <= s[i] <= '~'
  }

  /** A status line is printable ASCII, so it stays on one line. */
  lemma StatusTextPlain(code: StatusCode)
    ensures Printable(StatusText(code))
    ensures IsAscii(StatusText(code))
    ensures '\r' !in StatusText(code) && '\n' !in StatusText(code)
  {
    var s := StatusText(code);
    match code {
      case StatusOk => PrintableOk();
      case StatusBadRequest => PrintableBadRequest();
      case StatusInternalServerError => PrintableInternalServerError();
      case StatusNotFound => PrintableNotFound();
    }
    assert forall i :: 0 <= i < |s| ==> s[i] != '\r' && s[i] != '\n';
  }

  lemma PrintableOk() ensures Printable("HTTP/1.1 200 OK") {}
  lemma PrintableBadRequest() ensures Printable("HTTP/1.1 400 Bad Request") {}
  lemma PrintableInternalServerError() ensures Printable("HTTP/1.1 500 Internal Server Error") {}
  lemma PrintableNotFound() ensures Printable("HTTP/1.1 404 File Not Found") {}

  /** Distinct codes give distinct status lines. */
  lemma StatusTextInjective(a: StatusCode, b: StatusCode)
    ensures StatusText(a) == StatusText(b) <==> a == b
  {
    if StatusText(a) == StatusText(b) {
      assert StatusCodeOf(StatusText(a)) == StatusCodeOf(StatusText(b));
    }
  }

  datatype WriterState = New | StatusWritten | HeadersWritten | BodyWritten

  /** A writer: its state and everything written to the stream so far. */
  datatype Writer = Writer(state: WriterState, wire: seq<byte>)

  /** `std::io::Error` of kind `InvalidInput` with its message. */
  datatype WriteError = InvalidInput(message: string)

  /** The writer after a call, and what the call returned. */
  datatype Written<T> = Written(writer: Writer, result: Result<T, WriteError>)

  const StatusFirst: string := "Status line must be written first"
  const HeadersAfterStatus: string := "Headers must be written after status line"
  const BodyAfterHeaders: string := "body must be written after headers"
  const TrailersAfterBody: string := "trailers can't be written until the body is done"

  /** `Writer::new`. */
  function NewWriter(): (w: Writer)
    ensures w.state == New && w.wire == []
  {
    Writer(New, [])
  }

  /** The writer moved to `state` after appending `frame`. */
  function Emit(w: Writer, state: WriterState, frame: seq<byte>): (r: Writer)
    ensures r.state == state && r.wire == w.wire + frame
  {
    Writer(state, w.wire + frame)
  }

  /** The bytes of the status line: its text and CRLF. */
  function StatusFrame(code: StatusCode): seq<byte> {
    Encode(StatusText(code) + "\r\n")
  }

  /** The bytes of the header section: the rendered table, then an empty line. */
  function HeaderFrame(h: Table, order: seq<string>): seq<byte>
    requires IsOrder(order, h)
  {
    Encode(Render(h, order) + "\r\n\r\n")
  }

  /** One chunk: the size in upper-case hex and CRLF, the payload, CRLF. */
  function ChunkFrame(payload: seq<byte>): seq<byte> {
    Encode(Hex(|payload|) + "\r\n") + payload + CRLF
  }

  /** The last-chunk line, `0` and CRLF. */
  const LastChunk: seq<byte> := [0x30, CR, LF]

  /** The bytes of the trailer section: the rendered table and CRLF. */
  function TrailerFrame(h: Table, order: seq<string>): seq<byte>
    requires IsOrder(order, h)
  {
    Encode(Render(h, order) + "\r\n")
  }

  /** `Writer::write_status_line`: only from `New`; appends the status line. */
  function WriteStatusLine(w: Writer, code: StatusCode): (r: Written<()>)
    ensures r.result.Ok? <==> w.state == New
    ensures r.result.Err? ==> r.writer == w && r.result.error == InvalidInput(StatusFirst)
    ensures r.result.Ok? ==> r.writer == Emit(w, StatusWritten, StatusFrame(code))
  {
    if w.state != New then Written(w, Err(InvalidInput(StatusFirst)))
    else Written(Emit(w, StatusWritten, StatusFrame(code)), Ok(()))
  }

  /**
    `Writer::write_headers`: only after the status line; appends the header
    section.  `order` is the iteration order of the table.
   */
  function WriteHeaders(w: Writer, h: Table, order: seq<string>): (r: Written<()>)
    requires IsOrder(order, h)
    ensures r.result.Ok? <==> w.state == StatusWritten
    ensures r.result.Err? ==> r.writer == w && r.result.error == InvalidInput(HeadersAfterStatus)
    ensures r.result.Ok? ==> r.writer == Emit(w, HeadersWritten, HeaderFrame(h, order))
  {
    if w.state != StatusWritten then Written(w, Err(InvalidInput(HeadersAfterStatus)))
    else Written(Emit(w, HeadersWritten, HeaderFrame(h, order)), Ok(()))
  }

  /**
    `Writer::write_body`: only after the headers; the body goes out as is,
    its length is returned and the body is closed.
   */
  function WriteBody(w: Writer, body: seq<byte>): (r: Written<nat>)
    ensures r.result.Ok? <==> w.state == HeadersWritten
    ensures r.result.Err? ==> r.writer == w && r.result.error == InvalidInput(BodyAfterHeaders)
    ensures r.result.Ok? ==> r.writer.state == BodyWritten && r.writer.wire == w.wire + body
    ensures r.result.Ok? ==> r.result.value == |body|
  {
    if w.state != HeadersWritten then Written(w, Err(InvalidInput(BodyAfterHeaders)))
    else Written(Emit(w, BodyWritten, body), Ok(|body|))
  }

  /**
    `Writer::write_chunked_body`: only after the headers; appends one chunk,
    returns the number of bytes appended, and stays in `HeadersWritten` so
    that more chunks can follow.
   */
  function WriteChunkedBody(w: Writer, payload: seq<byte>): (r: Written<nat>)
    ensures r.result.Ok? <==> w.state == HeadersWritten
    ensures r.result.Err? ==> r.writer == w && r.result.error == InvalidInput(BodyAfterHeaders)
    ensures r.result.Ok? ==> r.writer == Emit(w, HeadersWritten, ChunkFrame(payload))
    ensures r.result.Ok? ==> r.result.value == |r.writer.wire| - |w.wire|
  {
    if w.state != HeadersWritten then Written(w, Err(InvalidInput(BodyAfterHeaders)))
    else
      var sizeLine := Encode(Hex(|payload|) + "\r\n");
      Written(Emit(w, HeadersWritten, ChunkFrame(payload)), Ok(|sizeLine| + |payload| + |CRLF|))
  }

  /** `Writer::write_chunked_body_done`: the last-chunk line closes the body. */
  function WriteChunkedBodyDone(w: Writer): (r: Written<nat>)
    ensures r.result.Ok? <==> w.state == HeadersWritten
    ensures r.result.Err? ==> r.writer == w && r.result.error == InvalidInput(BodyAfterHeaders)
    ensures r.result.Ok? ==> r.writer == Emit(w, BodyWritten, LastChunk)
    ensures r.result.Ok? ==> r.result.value == 3
  {
    if w.state != HeadersWritten then Written(w, Err(InvalidInput(BodyAfterHeaders)))
    else Written(Emit(w, BodyWritten, LastChunk), Ok(|LastChunk|))
  }

  /**
    `Writer::write_trailers`: only once the body is closed; appends the
    trailer section, returns its length in bytes, and keeps the state.
   */
  function WriteTrailers(w: Writer, h: Table, order: seq<string>): (r: Written<nat>)
    requires IsOrder(order, h)
    ensures r.result.Ok? <==> w.state == BodyWritten
    ensures r.result.Err? ==> r.writer == w && r.result.error == InvalidInput(TrailersAfterBody)
    ensures r.result.Ok? ==> r.writer == Emit(w, BodyWritten, TrailerFrame(h, order))
    ensures r.result.Ok? ==> r.result.value == |r.writer.wire| - |w.wire|
  {
    if w.state != BodyWritten then Written(w, Err(InvalidInput(TrailersAfterBody)))
    else
      var data := TrailerFrame(h, order);
      Written(Emit(w, BodyWritten, data), Ok(|data|))
  }

  /** `Writer::finish`: a CRLF in any state; the state is kept. */
  function Finish(w: Writer): (r: Written<nat>)
    ensures r.result.Ok?
    ensures r.writer == Emit(w, w.state, CRLF)
    ensures r.result.value == 2
  {
    Written(Emit(w, w.state, CRLF), Ok(|CRLF|))
  }

  /** `Response`: status, header table, body bytes. */
  datatype Response = Response(statusLine: StatusCode, headers: Table, body: seq<byte>)

  /**
    `Response::get_default_headers`: exactly three entries, keys as written,
    the length in decimal.
   */
  function DefaultHeaders(contentLength: nat): (h: Table)
    ensures h.Keys == {"Content-Length", "Connection", "Content-Type"}
    ensures h["Connection"] == "close" && h["Content-Type"] == "text/plain"
    ensures IsCanonical(h["Content-Length"]) && DigitsValue(h["Content-Length"]) == contentLength
  {
    var h := Insert(map[], "Content-Length", Decimal(contentLength));
    var h := Insert(h, "Connection", "close");
    Insert(h, "Content-Type", "text/plain")
  }

  /** The default length is exactly what `usize::to_string` writes for it. */
  lemma DefaultLengthIsDecimal(n: nat)
    ensures DefaultHeaders(n)["Content-Length"] == Decimal(n)
  {
    CanonicalIsDecimal(DefaultHeaders(n)["Content-Length"]);
  }

  /** The default length reads back as the number it was made from. */
  lemma DefaultLengthParses(n: nat)
    requires n < UsizeLimit
    ensures ParseUsize(DefaultHeaders(n)["Content-Length"]) == Some(n)
  {
    ParseDecimal(n);
  }

  /** The default keys are not lower case, so `Headers::get` never finds them. */
  lemma DefaultHeadersInvisible(n: nat, name: string)
    ensures Get(DefaultHeaders(n), name) == None
  {
    var key := Lower(name);
    if |key| > 0 {
      assert key[0] == LowerChar(name[0]);
      assert key[0] != 'C';
    }
    assert key !in DefaultHeaders(n);
  }

  /** The one default key that names the Content-Length field. */
  lemma LowerContentLength()
    ensures Lower("Content-Length") == "content-length"
    ensures Lower("Connection") != "content-length" && Lower("Content-Type") != "content-length"
  {
    var s := "Content-Length";
    assert Lower(s)[0] == 'c';
    assert Lower(s)[8] == 'l';
  }

  /** `Response::default`: 200, a zero length, no body. */
  function Default(): (r: Response)
    ensures r.statusLine == StatusOk && r.body == []
    ensures r.headers == DefaultHeaders(0)
  {
    Response(StatusOk, DefaultHeaders(0), [])
  }

  /** `Response::new`: the default headers carry the body's length. */
  function NewResponse(code: StatusCode, body: seq<byte>): (r: Response)
    ensures r.statusLine == code && r.body == body
    ensures r.headers == DefaultHeaders(|body|)
  {
    Response(code, DefaultHeaders(|body|), body)
  }

  /** The keys of `h` that name the Content-Length field, in any case. */
  function LengthKeys(h: Table): (ks: set<string>)
    ensures forall k :: k in ks <==> k in h && Lower(k) == "content-length"
  {
    set k | k in h && Lower(k) == "content-length"
  }

  /**
    `Response::set_body` as written: the body is replaced and the length is
    inserted under the lower-case key, next to whatever key the table
    already had for it.
   */
  function SetBody(resp: Response, body: seq<byte>): (r: Response)
    ensures r.statusLine == resp.statusLine && r.body == body
    ensures r.headers.Keys == resp.headers.Keys + {"content-length"}
    ensures r.headers["content-length"] == Decimal(|body|)
    ensures forall k :: k in resp.headers && k != "content-length" ==> r.headers[k] == resp.headers[k]
  {
    Response(resp.statusLine, Insert(resp.headers, "content-length", Decimal(|body|)), body)
  }

  /**
    On a default response, `set_body` leaves two Content-Length fields: the
    stale `0` under `Content-Length` and the new length under
    `content-length`, which differ once the body is non-empty.
   */
  lemma SetBodyDuplicatesLength(body: seq<byte>)
    requires |body| > 0
    ensures var h := SetBody(Default(), body).headers;
            && LengthKeys(h) == {"Content-Length", "content-length"}
            && h["Content-Length"] == "0"
            && h["content-length"] == Decimal(|body|)
            && h["Content-Length"] != h["content-length"]
  {
    var h := SetBody(Default(), body).headers;
    LengthKeysOfDefaultPlus(h);
    assert h["Content-Length"] == Decimal(0);
  }

  /** The default keys plus the lower-case length key hold two length keys. */
  lemma LengthKeysOfDefaultPlus(h: Table)
    requires h.Keys == {"Content-Length", "Connection", "Content-Type", "content-length"}
    ensures LengthKeys(h) == {"Content-Length", "content-length"}
  {
    LowerContentLength();
    LowerIdempotent("content-length");
    forall k | k in h
      ensures k in LengthKeys(h) <==> k in {"Content-Length", "content-length"}
    {
      assert k == "Content-Length" || k == "Connection" || k == "Content-Type" || k == "content-length";
    }
  }

  /**
    `set_body` as evidently intended: every key naming Content-Length, in any
    case, is replaced by a single `Content-Length` entry with the new length.
   */
  function SetBodyFolded(resp: Response, body: seq<byte>): (r: Response)
    ensures r.statusLine == resp.statusLine && r.body == body
    ensures LengthKeys(r.headers) == {"Content-Length"}
    ensures r.headers["Content-Length"] == Decimal(|body|)
    ensures forall k :: k in resp.headers && k !in LengthKeys(resp.headers) ==> k in r.headers && r.headers[k] == resp.headers[k]
    ensures forall k :: k in r.headers && k != "Content-Length" ==> k in resp.headers
  {
    var others := map k | k in resp.headers && Lower(k) != "content-length" :: resp.headers[k];
    LowerContentLength();
    Response(resp.statusLine, Insert(others, "Content-Length", Decimal(|body|)), body)
  }

  /** With the corrected `set_body`, a default response declares exactly its body's length. */
  lemma SetBodyFoldedDeclaresLength(body: seq<byte>)
    requires |body| < UsizeLimit
    ensures var h := SetBodyFolded(Default(), body).headers;
            && LengthKeys(h) == {"Content-Length"}
            && ParseUsize(h["Content-Length"]) == Some(|body|)
            && h.Keys == DefaultHeaders(|body|).Keys
  {
    ParseDecimal(|body|);
    var h := SetBodyFolded(Default(), body).headers;
    LowerContentLength();
    assert "Connection" in h && "Content-Type" in h;
  }
}
