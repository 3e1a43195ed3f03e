/**
  The request parser (src/http/request.rs): the request line, the
  `Initialized -> ParsingHeaders -> (ParsingBody ->) Done` state machine fed
  one step at a time, and the driver that feeds it a shrinking slice.
 */
module Request {
  import opened Wrappers
  import opened Bytes
  import opened Text
  import opened Numbers
  import opened Errors
  import Headers

  /** The start line of a request (section 3 of RFC 9112, restricted to HTTP/1.1). */
  datatype RequestLine = RequestLine(httpVersion: string, requestTarget: string, requestMethod: string)

  /** `RequestLine::default()`. */
  function DefaultLine(): RequestLine {
    RequestLine("", "", "")
  }

  const Malformed := "malformed request line"
  const NonAlphabeticMethod := "method contains non-alphabetic characters"
  const UnknownProtocol := "unrecognized protocol"
  const UnknownVersion := "unrecognized http version"
  const InvalidContentLength := "invalid content-length"
  const BodyTooLong := "body longer than content-length"
  const ParseWhenDone := "attempting to parse in a done state"

  predicate IsAlpha(c: char) {
    'A' <= c <= 'Z' || 'a' <= c <= 'z'
  }

  predicate AllAlpha(s: string) {
    forall i :: 0 <= i < |s| ==> IsAlpha(s[i])
  }

  /** What a successfully parsed request line always satisfies. */
  predicate ValidLine(line: RequestLine) {
    && |line.requestMethod| > 0 && AllAlpha(line.requestMethod)
    && |line.requestTarget| > 0 && NoSpace(line.requestTarget)
    && line.httpVersion == "1.1"
  }

  /**
    `RequestLine::try_from`: exactly three white-space separated tokens; the
    method is checked to be alphabetic before the version, which must split
    at `/` into exactly `HTTP` and `1.1`.
   */
  function RequestLineFrom(text: string): (r: Result<RequestLine, ParseError>)
    ensures r.Ok? ==> ValidLine(r.value)
    ensures r.Ok? ==> SplitWhitespace(text) == [r.value.requestMethod, r.value.requestTarget, "HTTP/1.1"]
    ensures |SplitWhitespace(text)| != 3 ==> r == Err(InvalidFormat(Malformed))
  {
    var parts := SplitWhitespace(text);
    if |parts| != 3 then Err(InvalidFormat(Malformed))
    else if !AllAlpha(parts[0]) then Err(InvalidFormat(NonAlphabeticMethod))
    else
      var version := SplitOn(parts[2], '/');
      if |version| != 2 then Err(InvalidFormat(Malformed))
      else if version[0] != "HTTP" then Err(InvalidFormat(UnknownProtocol))
      else if version[1] != "1.1" then Err(InvalidFormat(UnknownVersion))
      else
        assert parts[2] == Join(version, "/") == "HTTP/1.1";
        Ok(RequestLine(version[1], parts[1], parts[0]))
  }

  /** The wire form of a request line, single spaces between the tokens. */
  function FormatLine(line: RequestLine): string {
    line.requestMethod + " " + line.requestTarget + " HTTP/" + line.httpVersion
  }

  /** Every valid request line reads back from its wire form. */
  lemma RequestLineRoundTrip(line: RequestLine)
    requires ValidLine(line)
    ensures RequestLineFrom(FormatLine(line)) == Ok(line)
  {
    var words := [line.requestMethod, line.requestTarget, "HTTP/1.1"];
    assert words[1..][1..] == ["HTTP/1.1"];
    assert Join(words[1..], " ") == line.requestTarget + " " + "HTTP/1.1";
    assert FormatLine(line) == Join(words, " ");
    SplitWhitespaceJoin(words);
    SplitOnOnce("HTTP", '/', "1.1");
    assert "HTTP" + ['/'] + "1.1" == "HTTP/1.1";
  }

  /** Three words joined by single spaces. */
  predicate ThreeWords(m: string, t: string, v: string) {
    && |m| > 0 && NoSpace(m)
    && |t| > 0 && NoSpace(t)
    && |v| > 0 && NoSpace(v)
  }

  lemma SplitThreeWords(m: string, t: string, v: string)
    requires ThreeWords(m, t, v)
    ensures SplitWhitespace(Join([m, t, v], " ")) == [m, t, v]
  {
    var words := [m, t, v];
    assert words[1..][1..] == [v];
    SplitWhitespaceJoin(words);
  }

  /**
    On three words the method is checked first: a method with a
    non-alphabetic character is refused whatever the version is.  An
    alphabetic method with a version holding no `/` or more than one is a
    malformed line.
   */
  lemma RequestLineChecks(m: string, t: string, v: string)
    requires ThreeWords(m, t, v)
    ensures !AllAlpha(m) ==> RequestLineFrom(Join([m, t, v], " ")) == Err(InvalidFormat(NonAlphabeticMethod))
    ensures AllAlpha(m) && multiset(v)['/'] != 1 ==> RequestLineFrom(Join([m, t, v], " ")) == Err(InvalidFormat(Malformed))
  {
    SplitThreeWords(m, t, v);
    SplitOnCount(v, '/');
  }

  /**
    An alphabetic method with a version `p/q` of exactly one slash: the
    protocol is checked before the version number, and only `HTTP/1.1` is
    accepted.
   */
  lemma RequestLineVersion(m: string, t: string, p: string, q: string)
    requires ThreeWords(m, t, p + "/" + q) && AllAlpha(m)
    requires '/' !in p && '/' !in q
    ensures RequestLineFrom(Join([m, t, p + "/" + q], " ")) ==
              if p != "HTTP" then Err(InvalidFormat(UnknownProtocol))
              else if q != "1.1" then Err(InvalidFormat(UnknownVersion))
              else Ok(RequestLine("1.1", t, m))
  {
    SplitThreeWords(m, t, p + "/" + q);
    SplitOnOnce(p, '/', q);
  }

  /**
    `RequestLine::parse`: nothing happens until a CRLF is buffered; then the
    line before it is parsed and consumed together with the CRLF.
   */
  function ParseRequestLine(data: seq<byte>): (r: Result<(Option<RequestLine>, nat), ParseError>)
    ensures FindCRLF(data).None? <==> r == Ok((None, 0))
    ensures r.Ok? && r.value.0.Some? ==>
              && FindCRLF(data).Some?
              && r.value.1 == FindCRLF(data).value + 2
              && ValidLine(r.value.0.value)
    ensures r.Ok? ==> r.value.0.Some? || r.value.1 == 0
    ensures r.Err? ==> FindCRLF(data).Some?
  {
    match FindCRLF(data)
    case None => Ok((None, 0))
    case Some(idx) =>
      match RequestLineFrom(Decode(data[..idx]))
      case Err(e) => Err(e)
      case Ok(line) => Ok((Some(line), idx + 2))
  }

  datatype ParserState = Initialized | ParsingHeaders | ParsingBody | Done

  /** Position of a state along the only path the parser can take. */
  function Rank(s: ParserState): nat {
    match s
    case Initialized => 0
    case ParsingHeaders => 1
    case ParsingBody => 2
    case Done => 3
  }

  datatype Request = Request(requestLine: RequestLine, headers: Headers.Table, body: seq<byte>, state: ParserState)

  /** `Request::new`. */
  function New(): Request {
    Request(DefaultLine(), map[], [], Initialized)
  }

  /** The `content-length` field as the `ParsingBody` step reads it: unparsable or absent counts as 0. */
  function DeclaredLength(h: Headers.Table): nat {
    match Headers.Get(h, "content-length")
    case None => 0
    case Some(text) =>
      match ParseUsize(text)
      case None => 0
      case Some(n) => n
  }

  /** The `Initialized` step: parse the request line once it is complete. */
  function StepLine(r: Request, data: seq<byte>): (res: Result<(Request, nat), ParseError>)
    requires r.state == Initialized
    ensures res.Ok? ==> res.value.1 <= |data|
    ensures res.Ok? && res.value.1 == 0 ==> res.value.0 == r
    ensures res.Ok? && res.value.1 > 0 ==> res.value.0 == r.(requestLine := res.value.0.requestLine, state := ParsingHeaders)
  {
    match ParseRequestLine(data)
    case Err(e) => Err(e)
    case Ok((None, n)) => Ok((r, n))
    case Ok((Some(line), n)) => Ok((r.(requestLine := line, state := ParsingHeaders), n))
  }

  /**
    The `ParsingHeaders` step: one header line, or the blank line, after
    which `content-length` decides between `Done` and `ParsingBody`.
   */
  function StepHeaders(r: Request, data: seq<byte>): (res: Result<(Request, nat), ParseError>)
    requires r.state == ParsingHeaders
    ensures res.Ok? ==> res.value.1 <= |data|
    ensures res.Ok? && res.value.1 == 0 ==> res.value.0 == r
    ensures res.Ok? ==> res.value.0.requestLine == r.requestLine && res.value.0.body == r.body
    ensures res.Ok? ==> res.value.0.state != Initialized
  {
    match Headers.Parse(r.headers, data)
    case Err(e) => Err(e)
    case Ok(Parsed(h, n, done)) =>
      if !done then Ok((r.(headers := h), n))
      else
        match Headers.Get(h, "content-length")
        case None => Ok((r.(headers := h, state := Done), n))
        case Some(text) =>
          match ParseUsize(text)
          case None => Err(InvalidFormat(InvalidContentLength))
          case Some(len) =>
            if len == 0 then Ok((r.(headers := h, state := Done), n))
            else Ok((r.(headers := h, state := ParsingBody), n))
  }

  /**
    The `ParsingBody` step: appends at most what is still missing from the
    declared length and moves to `Done` when the body is complete.
   */
  function StepBody(r: Request, data: seq<byte>): (res: Result<(Request, nat), ParseError>)
    requires r.state == ParsingBody
    ensures res.Ok? ==> res.value.1 <= |data|
    ensures res.Ok? ==> res.value.0 == r.(body := r.body + data[..res.value.1], state := res.value.0.state)
    ensures res.Ok? ==> res.value.0.state in {ParsingBody, Done}
    ensures res.Ok? && res.value.1 == 0 ==> res.value.0 == r || res.value.0.state == Done
  {
    var length := DeclaredLength(r.headers);
    var take := BodyTake(r, data);
    var body := r.body + data[..take];
    if |body| > length then Err(InvalidFormat(BodyTooLong))
    else if |body| == length then Ok((r.(body := body, state := Done), take))
    else
      assert take == 0 ==> body == r.body;
      Ok((r.(body := body), take))
  }

  /** How many bytes the `ParsingBody` step appends: what is missing from the declared length, at most all of `data`. */
  function BodyTake(r: Request, data: seq<byte>): (take: nat)
    ensures take <= |data|
    ensures |r.body| <= DeclaredLength(r.headers) ==> take == Min(DeclaredLength(r.headers) - |r.body|, |data|)
  {
    var length := DeclaredLength(r.headers);
    // `length - body.len()` wraps in release builds when the body is already
    // too long; the wrapped value exceeds any slice, so all of it is taken.
    if |r.body| <= length then Min(length - |r.body|, |data|) else |data|
  }

  /**
    `Request::parse_single`: one step of the state machine on the unconsumed
    bytes.  Returns the updated request and the number of bytes consumed.
   */
  function ParseSingle(r: Request, data: seq<byte>): (res: Result<(Request, nat), ParseError>)
    ensures res.Ok? ==> res.value.1 <= |data|
    ensures res.Ok? ==> Rank(r.state) <= Rank(res.value.0.state)
    ensures res.Ok? && res.value.1 == 0 ==> res.value.0 == r || res.value.0.state == Done
    ensures r.state == Done ==> res == Err(InvalidFormat(ParseWhenDone))
  {
    match r.state
    case Initialized => StepLine(r, data)
    case ParsingHeaders => StepHeaders(r, data)
    case ParsingBody => StepBody(r, data)
    case Done => Err(InvalidFormat(ParseWhenDone))
  }

  /**
    The driver has nothing more to do: the request is done, no bytes are
    left, or the next step would consume nothing and change nothing.
   */
  predicate Settled(r: Request, rest: seq<byte>) {
    r.state == Done || |rest| == 0 || ParseSingle(r, rest) == Ok((r, 0))
  }

  /**
    `Request::parse`: steps while the request is not done and bytes remain,
    stopping early on a step that consumes nothing.  Returns the total
    consumed.
   */
  function Parse(r: Request, data: seq<byte>): (res: Result<(Request, nat), ParseError>)
    decreases |data|
    ensures res.Ok? ==> res.value.1 <= |data|
    ensures res.Ok? ==> Rank(r.state) <= Rank(res.value.0.state)
    ensures r.state == Done ==> res == Ok((r, 0))
  {
    if r.state == Done || |data| == 0 then Ok((r, 0))
    else match ParseSingle(r, data)
      case Err(e) => Err(e)
      case Ok((r1, n)) =>
        if n == 0 then Ok((r1, 0))
        else match Parse(r1, data[n..])
          case Err(e) => Err(e)
          case Ok((r2, m)) => Ok((r2, n + m))
  }

  /**
    What a failing step leaves of the request, which `parse_single` changes
    in place: only the `ParsingBody` step writes before it fails, appending
    to the body before comparing it with the declared length.
   */
  function FailedStep(r: Request, data: seq<byte>): (r': Request)
    ensures r'.state == r.state && r'.requestLine == r.requestLine && r'.headers == r.headers
    ensures r.state != ParsingBody ==> r' == r
  {
    if r.state == ParsingBody then r.(body := r.body + data[..BodyTake(r, data)]) else r
  }

  /**
    `Request::parse` on `&mut self`: the request as the driver leaves it,
    with the total consumed or the error met.  After an error the request
    keeps what the earlier steps built.  The outcome is the one `Parse`
    gives.
   */
  function ParseInPlace(r: Request, data: seq<byte>): (res: (Request, Result<nat, ParseError>))
    decreases |data|
    ensures res.1.Ok? ==> res.1.value <= |data|
    ensures Rank(r.state) <= Rank(res.0.state)
  {
    if r.state == Done || |data| == 0 then (r, Ok(0))
    else match ParseSingle(r, data)
      case Err(e) => (FailedStep(r, data), Err(e))
      case Ok((r1, n)) =>
        if n == 0 then (r1, Ok(0))
        else
          var rest := ParseInPlace(r1, data[n..]);
          (rest.0, if rest.1.Ok? then Ok(n + rest.1.value) else rest.1)
  }

  /** One unfolding of `ParseInPlace` after a step that consumed something. */
  lemma ParseInPlaceAfterStep(r: Request, a: seq<byte>, r1: Request, n: nat)
    requires r.state != Done && |a| > 0
    requires ParseSingle(r, a) == Ok((r1, n)) && n > 0
    ensures ParseInPlace(r, a).0 == ParseInPlace(r1, a[n..]).0
    ensures ParseInPlace(r1, a[n..]).1.Err? ==> ParseInPlace(r, a).1 == ParseInPlace(r1, a[n..]).1
    ensures ParseInPlace(r1, a[n..]).1.Ok? ==>
              ParseInPlace(r, a).1.Ok? && ParseInPlace(r, a).1.value == n + ParseInPlace(r1, a[n..]).1.value
  {
  }

  /** The in-place driver ends the way `Parse` does: the same error, or the same request and count. */
  predicate Agrees(r: Request, data: seq<byte>) {
    var res := ParseInPlace(r, data);
    && (res.1.Ok? <==> Parse(r, data).Ok?)
    && (res.1.Ok? ==> Parse(r, data).value.0 == res.0 && Parse(r, data).value.1 == res.1.value)
    && (res.1.Err? ==> Parse(r, data).error == res.1.error)
  }

  /**
    `parse` on `&mut self` fails exactly when `Parse` does, with the same
    error; otherwise it leaves the request `Parse` returns and reports the
    same count.
   */
  lemma {:induction false} ParseInPlaceAgrees(r: Request, data: seq<byte>)
    ensures ParseInPlace(r, data).1.Ok? <==> Parse(r, data).Ok?
    ensures ParseInPlace(r, data).1.Ok? ==>
              Parse(r, data).value.0 == ParseInPlace(r, data).0 && Parse(r, data).value.1 == ParseInPlace(r, data).1.value
    ensures ParseInPlace(r, data).1.Err? ==> Parse(r, data).error == ParseInPlace(r, data).1.error
    decreases |data|
  {
    if r.state != Done && |data| > 0 && ParseSingle(r, data).Ok? {
      var (r1, n) := ParseSingle(r, data).value;
      if n > 0 {
        ParseInPlaceAgrees(r1, data[n..]);
        AgreesAfterStep(r, data, r1, n);
      }
    }
  }

  /** Agreement carried back over a step that consumed something. */
  lemma AgreesAfterStep(r: Request, a: seq<byte>, r1: Request, n: nat)
    requires r.state != Done && |a| > 0
    requires ParseSingle(r, a) == Ok((r1, n)) && n > 0
    requires Agrees(r1, a[n..])
    ensures Agrees(r, a)
  {
    ParseInPlaceAfterStep(r, a, r1, n);
    if ParseInPlace(r1, a[n..]).1.Ok? {
      AgreesAfterStepOk(r, a, r1, n, ParseInPlace(r1, a[n..]).0, ParseInPlace(r1, a[n..]).1.value);
    } else {
      AgreesAfterStepErr(r, a, r1, n, ParseInPlace(r1, a[n..]).1.error);
    }
  }

  lemma AgreesAfterStepOk(r: Request, a: seq<byte>, r1: Request, n: nat, r2: Request, m: nat)
    requires r.state != Done && |a| > 0
    requires ParseSingle(r, a) == Ok((r1, n)) && n > 0
    requires Parse(r1, a[n..]).Ok? && Parse(r1, a[n..]).value.0 == r2 && Parse(r1, a[n..]).value.1 == m
    requires ParseInPlace(r, a).0 == r2 && ParseInPlace(r, a).1.Ok? && ParseInPlace(r, a).1.value == n + m
    ensures Agrees(r, a)
  {
    ParseAfterStepOk(r, a, r1, n);
  }

  lemma AgreesAfterStepErr(r: Request, a: seq<byte>, r1: Request, n: nat, e: ParseError)
    requires r.state != Done && |a| > 0
    requires ParseSingle(r, a) == Ok((r1, n)) && n > 0
    requires Parse(r1, a[n..]).Err? && Parse(r1, a[n..]).error == e
    requires ParseInPlace(r, a).1.Err? && ParseInPlace(r, a).1.error == e
    ensures Agrees(r, a)
  {
    ParseAfterStepErr(r, a, r1, n);
  }

  /** One unfolding of `Parse` after a step that consumed something, when the rest fails. */
  lemma ParseAfterStepErr(r: Request, a: seq<byte>, r1: Request, n: nat)
    requires r.state != Done && |a| > 0
    requires ParseSingle(r, a) == Ok((r1, n)) && n > 0
    requires Parse(r1, a[n..]).Err?
    ensures Parse(r, a) == Parse(r1, a[n..])
  {
  }

  /** One unfolding of `Parse` after a step that consumed something, when the rest succeeds. */
  lemma ParseAfterStepOk(r: Request, a: seq<byte>, r1: Request, n: nat)
    requires r.state != Done && |a| > 0
    requires ParseSingle(r, a) == Ok((r1, n)) && n > 0
    requires Parse(r1, a[n..]).Ok?
    ensures Parse(r, a).Ok?
    ensures Parse(r, a).value.0 == Parse(r1, a[n..]).value.0
    ensures Parse(r, a).value.1 == n + Parse(r1, a[n..]).value.1
  {
  }

  /** The driver stops only where it has nothing more to do. */
  lemma {:induction false} ParseSettles(r: Request, data: seq<byte>)
    requires Parse(r, data).Ok?
    ensures Settled(Parse(r, data).value.0, data[Parse(r, data).value.1..])
    decreases |data|
  {
    if r.state == Done || |data| == 0 {
      assert Parse(r, data) == Ok((r, 0));
      assert data[0..] == data;
      assert r.state == Done || |data[0..]| == 0;
    } else {
      var (r1, n) := ParseSingle(r, data).value;
      if n == 0 {
        assert Parse(r, data) == Ok((r1, 0));
        assert data[0..] == data;
        if r1 == r {
          assert ParseSingle(r1, data[0..]) == Ok((r1, 0));
        } else {
          assert r1.state == Done;
        }
      } else {
        ParseSettles(r1, data[n..]);
        ParseAfterStepOk(r, data, r1, n);
        var m := Parse(r1, data[n..]).value.1;
        assert data[n..][m..] == data[n + m..];
      }
    }
  }

  /** The request reached from `r` by parsing `data`, or the error met on the way. */
  function Outcome(r: Request, data: seq<byte>): Result<Request, ParseError> {
    match Parse(r, data)
    case Err(e) => Err(e)
    case Ok((r', _)) => Ok(r')
  }
}

/** What the request parser keeps true from `Request::new` on. */
module RequestInvariant {
  import opened Wrappers
  import opened Bytes
  import opened Numbers
  import opened Errors
  import Headers
  import opened Request

  /** The header table declares a body of exactly `n` bytes. */
  predicate Declares(h: Headers.Table, n: nat) {
    Headers.Get(h, "content-length").Some? && ParseUsize(Headers.Get(h, "content-length").value) == Some(n)
  }

  /**
    The body never outgrows the declared length: while parsing it, it is
    shorter than a declared positive length; when done, it is empty without
    a `content-length` field and exactly the declared length with one.
   */
  predicate Valid(r: Request) {
    match r.state
    case Initialized => r == New()
    case ParsingHeaders => ValidLine(r.requestLine) && r.body == []
    case ParsingBody =>
      && ValidLine(r.requestLine)
      && Declares(r.headers, DeclaredLength(r.headers))
      && |r.body| < DeclaredLength(r.headers)
    case Done =>
      && ValidLine(r.requestLine)
      && (if Headers.Get(r.headers, "content-length").None? then r.body == [] else Declares(r.headers, |r.body|))
  }

  lemma ValidNew()
    ensures Valid(New())
  {
  }

  /** One step from a valid request leads to a valid request. */
  lemma StepPreservesValid(r: Request, data: seq<byte>)
    requires Valid(r) && ParseSingle(r, data).Ok?
    ensures Valid(ParseSingle(r, data).value.0)
  {
    var r' := ParseSingle(r, data).value.0;
    match r.state
    case Initialized =>
    case ParsingHeaders =>
    case ParsingBody =>
      assert Declares(r'.headers, DeclaredLength(r'.headers));
    case Done =>
  }

  /** The whole driver keeps requests valid. */
  lemma {:induction false} ParsePreservesValid(r: Request, data: seq<byte>)
    requires Valid(r) && Parse(r, data).Ok?
    ensures Valid(Parse(r, data).value.0)
    decreases |data|
  {
    if r.state != Done && |data| > 0 {
      var (r1, n) := ParseSingle(r, data).value;
      StepPreservesValid(r, data);
      if n > 0 {
        ParsePreservesValid(r1, data[n..]);
      }
    }
  }

  /**
    The request `parse` leaves behind is valid even when it fails: a failing
    step changes nothing of a valid request.
   */
  lemma {:induction false} ParseInPlacePreservesValid(r: Request, data: seq<byte>)
    requires Valid(r)
    ensures Valid(ParseInPlace(r, data).0)
    decreases |data|
  {
    if r.state != Done && |data| > 0 {
      if ParseSingle(r, data).Ok? {
        var (r1, n) := ParseSingle(r, data).value;
        StepPreservesValid(r, data);
        if n > 0 {
          ParseInPlacePreservesValid(r1, data[n..]);
          ParseInPlaceAfterStep(r, data, r1, n);
        }
      } else if r.state == ParsingBody {
        BodyStep(r, data);
      }
    }
  }

  /**
    In `ParsingBody` a valid request takes exactly what is still missing, or
    all the data if that is less, never fails (so the "body longer than
    content-length" error cannot happen) and is done exactly when the body
    reaches the declared length.
   */
  lemma BodyStep(r: Request, data: seq<byte>)
    requires Valid(r) && r.state == ParsingBody
    ensures ParseSingle(r, data).Ok?
    ensures var (r', k) := ParseSingle(r, data).value;
            && k == Min(DeclaredLength(r.headers) - |r.body|, |data|)
            && r'.body == r.body + data[..k]
            && |r'.body| <= DeclaredLength(r.headers)
            && (r'.state == Done <==> |r'.body| == DeclaredLength(r.headers))
            && r'.headers == r.headers && r'.requestLine == r.requestLine
  {
  }

  /**
    The blank line ending the header block: without `content-length`, or
    with `0`, the request is done; a positive length starts the body; any
    other value is refused.  Two bytes are consumed either way.
   */
  lemma HeaderBlockEnd(r: Request, rest: seq<byte>)
    requires r.state == ParsingHeaders
    ensures var res := ParseSingle(r, CRLF + rest);
            match Headers.Get(r.headers, "content-length")
            case None => res == Ok((r.(state := Done), 2))
            case Some(text) =>
              match ParseUsize(text)
              case None => res == Err(InvalidFormat(InvalidContentLength))
              case Some(n) => res == Ok((r.(state := if n == 0 then Done else ParsingBody), 2))
  {
    assert IsCRLFAt(CRLF + rest, 0);
  }

  /**
    Without `content-length`, the driver stops right after the blank line:
    whatever follows is left unconsumed and the body stays empty.
   */
  lemma NoLengthIgnoresBody(r: Request, rest: seq<byte>)
    requires Valid(r) && r.state == ParsingHeaders
    requires Headers.Get(r.headers, "content-length").None?
    ensures Parse(r, CRLF + rest) == Ok((r.(state := Done), 2))
    ensures Valid(r.(state := Done)) && r.body == []
  {
    HeaderBlockEnd(r, rest);
    assert Parse(r.(state := Done), (CRLF + rest)[2..]) == Ok((r.(state := Done), 0));
  }
}
