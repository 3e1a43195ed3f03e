/**
  The unit tests of src/http/request.rs, restated as facts about the model.
  A test's bytes are written as its lines, each encoded and followed by
  CRLF, then whatever follows the header block.  The general lemmas below
  give the driver's outcome one line at a time.
 */
module RequestScenarios {
  import opened Wrappers
  import opened Bytes
  import opened Text
  import opened Numbers
  import opened Errors
  import Headers
  import HeaderScenarios
  import opened Request
  import opened RequestInvariant
  import Pump

  /** `ls` each followed by CRLF, then `tail`. */
  function Lines(ls: seq<string>, tail: seq<byte>): (r: seq<byte>)
    ensures |ls| > 0 ==> r == Encode(ls[0]) + CRLF + Lines(ls[1..], tail)
    ensures |ls| == 0 ==> r == tail
  {
    if |ls| == 0 then tail else Encode(ls[0]) + CRLF + Lines(ls[1..], tail)
  }

  /** A request on the wire: its request line, its field lines, the blank line, then `body`. */
  function Message(line: string, fields: seq<string>, body: seq<byte>): seq<byte> {
    Encode(line) + CRLF + Lines(fields, CRLF + body)
  }

  /** The bytes after a line and its CRLF. */
  lemma AfterLine(e: seq<byte>, rest: seq<byte>)
    ensures (e + CRLF + rest)[|e| + 2..] == rest
  {
  }

  /**
    The request line: a plain line that reads as a request line moves the
    request to `ParsingHeaders` with that line; one that does not ends the
    driver with its error.
   */
  lemma RequestLineStep(r: Request, line: string, rest: seq<byte>)
    requires r.state == Initialized && HeaderScenarios.Plain(line)
    ensures RequestLineFrom(line).Err? ==>
              Outcome(r, Encode(line) + CRLF + rest) == Err(RequestLineFrom(line).error)
    ensures RequestLineFrom(line).Ok? ==>
              Outcome(r, Encode(line) + CRLF + rest)
              == Outcome(r.(requestLine := RequestLineFrom(line).value, state := ParsingHeaders), rest)
  {
    var data := Encode(line) + CRLF + rest;
    HeaderScenarios.PlainLineEnd(line, rest);
    if RequestLineFrom(line).Ok? {
      var r1 := r.(requestLine := RequestLineFrom(line).value, state := ParsingHeaders);
      assert ParseSingle(r, data) == Ok((r1, |line| + 2));
      Pump.OutcomeAfterStep(r, data, r1, |line| + 2);
      AfterLine(Encode(line), rest);
    }
  }

  /**
    A header line: a plain field line merges its field into the table; a
    malformed one ends the driver with its error.
   */
  lemma HeaderLineStep(r: Request, line: string, rest: seq<byte>)
    requires r.state == ParsingHeaders && |line| > 0 && HeaderScenarios.Plain(line)
    ensures Headers.ParseFieldLine(line).Err? ==>
              Outcome(r, Encode(line) + CRLF + rest) == Err(Headers.ParseFieldLine(line).error)
    ensures Headers.ParseFieldLine(line).Ok? ==>
              var field := Headers.ParseFieldLine(line).value;
              Outcome(r, Encode(line) + CRLF + rest)
              == Outcome(r.(headers := Headers.Coalesce(r.headers, field.0, field.1)), rest)
  {
    if Headers.ParseFieldLine(line).Ok? {
      var field := Headers.ParseFieldLine(line).value;
      HeaderLineOk(r, line, rest, field.0, field.1);
    } else {
      HeaderLineErr(r, line, rest, Headers.ParseFieldLine(line).error);
    }
  }

  /** `HeaderLineStep` for a line that reads as the field `key: value`. */
  lemma HeaderLineOk(r: Request, line: string, rest: seq<byte>, key: string, value: string)
    requires r.state == ParsingHeaders && |line| > 0 && HeaderScenarios.Plain(line)
    requires Headers.ParseFieldLine(line) == Ok((key, value))
    ensures Outcome(r, Encode(line) + CRLF + rest) == Outcome(r.(headers := Headers.Coalesce(r.headers, key, value)), rest)
  {
    var data := Encode(line) + CRLF + rest;
    var h := Headers.Coalesce(r.headers, key, value);
    HeaderScenarios.ParseOneLine(r.headers, line, rest);
    HeaderStepOk(r, data, h, |line| + 2);
    Pump.OutcomeAfterStep(r, data, r.(headers := h), |line| + 2);
    HeaderScenarios.PlainLineEnd(line, rest);
    AfterLine(Encode(line), rest);
  }

  /** `HeaderLineStep` for a line that does not read as a field. */
  lemma HeaderLineErr(r: Request, line: string, rest: seq<byte>, e: ParseError)
    requires r.state == ParsingHeaders && |line| > 0 && HeaderScenarios.Plain(line)
    requires Headers.ParseFieldLine(line) == Err(e)
    ensures Outcome(r, Encode(line) + CRLF + rest) == Err(e)
  {
    HeaderScenarios.ParseOneLine(r.headers, line, rest);
    HeaderStepErr(r, Encode(line) + CRLF + rest, e);
  }

  /** A header step that read a field line. */
  lemma HeaderStepOk(r: Request, data: seq<byte>, h: Headers.Table, n: nat)
    requires r.state == ParsingHeaders
    requires Headers.Parse(r.headers, data) == Ok(Headers.Parsed(h, n, false))
    ensures ParseSingle(r, data) == Ok((r.(headers := h), n))
  {
  }

  /** A header step that failed ends the driver. */
  lemma HeaderStepErr(r: Request, data: seq<byte>, e: ParseError)
    requires r.state == ParsingHeaders && |data| > 0
    requires Headers.Parse(r.headers, data) == Err(e)
    ensures Outcome(r, data) == Err(e)
  {
  }

  /**
    The blank line: without `content-length`, or with `0`, the request is
    done and nothing after it is read; a positive length goes on to the
    body; anything else is refused.
   */
  lemma BlankLineStep(r: Request, rest: seq<byte>)
    requires r.state == ParsingHeaders
    ensures Headers.Get(r.headers, "content-length").None? ==> Outcome(r, CRLF + rest) == Ok(r.(state := Done))
    ensures Headers.Get(r.headers, "content-length").Some? ==>
              match ParseUsize(Headers.Get(r.headers, "content-length").value)
              case None => Outcome(r, CRLF + rest) == Err(InvalidFormat(InvalidContentLength))
              case Some(n) =>
                if n == 0 then Outcome(r, CRLF + rest) == Ok(r.(state := Done))
                else Outcome(r, CRLF + rest) == Outcome(r.(state := ParsingBody), rest)
  {
    HeaderBlockEnd(r, rest);
    assert (CRLF + rest)[2..] == rest;
    match ParseSingle(r, CRLF + rest)
    case Err(_) =>
    case Ok((r1, n)) =>
      Pump.OutcomeAfterStep(r, CRLF + rest, r1, n);
  }

  /**
    The body: a valid request in `ParsingBody` takes what is still missing
    and is done, or takes everything there is and keeps waiting.
   */
  lemma BodyStepOutcome(r: Request, rest: seq<byte>)
    requires Valid(r) && r.state == ParsingBody
    ensures var missing := DeclaredLength(r.headers) - |r.body|;
            && (|rest| >= missing ==> Outcome(r, rest) == Ok(r.(body := r.body + rest[..missing], state := Done)))
            && (|rest| < missing ==> Outcome(r, rest) == Ok(r.(body := r.body + rest)))
  {
    if |rest| == 0 {
      assert r.body + rest == r.body;
    } else {
      BodyStep(r, rest);
      var (r1, k) := ParseSingle(r, rest).value;
      Pump.OutcomeAfterStep(r, rest, r1, k);
      if r1.state != Done {
        assert rest[k..] == [];
        assert rest[..k] == rest;
      }
    }
  }

  /** `line` is non-empty, has no CR, and reads as the field `f`. */
  predicate FieldIs(line: string, f: (string, string)) {
    |line| > 0 && HeaderScenarios.Plain(line) && Headers.ParseFieldLine(line) == Ok(f)
  }

  /** Each of `ls` reads as the field beside it in `fs`. */
  predicate ReadAs(ls: seq<string>, fs: seq<(string, string)>)
    decreases |ls|
  {
    && |ls| == |fs|
    && (|ls| == 0 || (FieldIs(ls[0], fs[0]) && ReadAs(ls[1..], fs[1..])))
  }

  lemma ReadAsOne(l1: string, f1: (string, string))
    requires FieldIs(l1, f1)
    ensures ReadAs([l1], [f1])
  {
    var ls, fs := [l1], [f1];
    assert ls[0] == l1 && fs[0] == f1 && ls[1..] == [] && fs[1..] == [];
  }

  lemma ReadAsTwo(l1: string, l2: string, f1: (string, string), f2: (string, string))
    requires FieldIs(l1, f1) && FieldIs(l2, f2)
    ensures ReadAs([l1, l2], [f1, f2])
  {
    var ls, fs := [l1, l2], [f1, f2];
    assert ls[0] == l1 && fs[0] == f1 && ls[1..] == [l2] && fs[1..] == [f2];
    ReadAsOne(l2, f2);
  }

  lemma ReadAsThree(l1: string, l2: string, l3: string, f1: (string, string), f2: (string, string), f3: (string, string))
    requires FieldIs(l1, f1) && FieldIs(l2, f2) && FieldIs(l3, f3)
    ensures ReadAs([l1, l2, l3], [f1, f2, f3])
  {
    var ls, fs := [l1, l2, l3], [f1, f2, f3];
    assert ls[0] == l1 && fs[0] == f1 && ls[1..] == [l2, l3] && fs[1..] == [f2, f3];
    ReadAsTwo(l2, l3, f2, f3);
  }

  /** The table after merging the fields `fs` into `h`, first to last. */
  function Merge(h: Headers.Table, fs: seq<(string, string)>): Headers.Table
    decreases |fs|
  {
    if |fs| == 0 then h else Merge(Headers.Coalesce(h, fs[0].0, fs[0].1), fs[1..])
  }

  /** A run of field lines merges their fields in order and leaves the rest to parse. */
  lemma {:induction false} HeaderLinesStep(r: Request, ls: seq<string>, fs: seq<(string, string)>, rest: seq<byte>)
    requires r.state == ParsingHeaders && ReadAs(ls, fs)
    ensures Outcome(r, Lines(ls, rest)) == Outcome(r.(headers := Merge(r.headers, fs)), rest)
    decreases |ls|
  {
    if |ls| > 0 {
      var r1 := r.(headers := Headers.Coalesce(r.headers, fs[0].0, fs[0].1));
      HeaderLineOk(r, ls[0], Lines(ls[1..], rest), fs[0].0, fs[0].1);
      HeaderLinesStep(r1, ls[1..], fs[1..], rest);
    }
  }

  /**
    A request head of a valid request line and field lines: parsing it
    from `Request::new` gives the same outcome as what follows it, read by a
    request holding that line and those fields.
   */
  lemma HeadOutcome(line: string, ls: seq<string>, fs: seq<(string, string)>, rest: seq<byte>)
    requires HeaderScenarios.Plain(line) && RequestLineFrom(line).Ok? && ReadAs(ls, fs)
    ensures Outcome(New(), Encode(line) + CRLF + Lines(ls, rest))
            == Outcome(Request(RequestLineFrom(line).value, Merge(map[], fs), [], ParsingHeaders), rest)
  {
    RequestLineStep(New(), line, Lines(ls, rest));
    var r1 := New().(requestLine := RequestLineFrom(line).value, state := ParsingHeaders);
    HeaderLinesStep(r1, ls, fs, rest);
  }

  /**
    A whole request in one buffer: a valid request line, field lines, the
    blank line and then `rest`.  Without `content-length`, or with `0`, the
    request is done with an empty body and `rest` is ignored; an unparsable
    length is refused; a positive length takes that many bytes of `rest`,
    or all of it and keeps waiting when `rest` is shorter.
   */
  lemma RequestOutcome(line: string, ls: seq<string>, fs: seq<(string, string)>, rest: seq<byte>)
    requires HeaderScenarios.Plain(line) && RequestLineFrom(line).Ok? && ReadAs(ls, fs)
    ensures var head := Request(RequestLineFrom(line).value, Merge(map[], fs), [], ParsingHeaders);
            var o := Outcome(New(), Message(line, ls, rest));
            match Headers.Get(head.headers, "content-length")
            case None => o == Ok(head.(state := Done))
            case Some(text) =>
              match ParseUsize(text)
              case None => o == Err(InvalidFormat(InvalidContentLength))
              case Some(n) =>
                if n == 0 then o == Ok(head.(state := Done))
                else if |rest| >= n then o == Ok(head.(body := rest[..n], state := Done))
                else o == Ok(head.(body := rest, state := ParsingBody))
  {
    var head := Request(RequestLineFrom(line).value, Merge(map[], fs), [], ParsingHeaders);
    HeadOutcome(line, ls, fs, CRLF + rest);
    BlankLineStep(head, rest);
    if Headers.Get(head.headers, "content-length").Some? {
      var text := Headers.Get(head.headers, "content-length").value;
      if ParseUsize(text).Some? && ParseUsize(text).value > 0 {
        WaitingBody(head, rest);
      }
    }
  }

  /** The body step of `RequestOutcome`, from a request that has just read its head. */
  lemma WaitingBody(head: Request, rest: seq<byte>)
    requires head.state == ParsingHeaders && ValidLine(head.requestLine) && head.body == []
    requires Headers.Get(head.headers, "content-length").Some?
    requires ParseUsize(Headers.Get(head.headers, "content-length").value).Some?
    requires ParseUsize(Headers.Get(head.headers, "content-length").value).value > 0
    ensures var n := ParseUsize(Headers.Get(head.headers, "content-length").value).value;
            var o := Outcome(head.(state := ParsingBody), rest);
            && (|rest| >= n ==> o == Ok(head.(body := rest[..n], state := Done)))
            && (|rest| < n ==> o == Ok(head.(body := rest, state := ParsingBody)))
  {
    var r := head.(state := ParsingBody);
    var n := ParseUsize(Headers.Get(head.headers, "content-length").value).value;
    assert DeclaredLength(r.headers) == n;
    assert Valid(r);
    BodyStepOutcome(r, rest);
    assert [] + rest == rest;
    if |rest| >= n {
      assert [] + rest[..n] == rest[..n];
    }
  }

  // Facts about the texts of the tests, one per lemma, each checked in a
  // small context of its own.

  /** A request line of a method, a target and `HTTP/1.1`. */
  lemma RequestLineOf(line: string, m: string, t: string)
    requires line == m + " " + t + " HTTP/1.1"
    requires |m| > 0 && AllAlpha(m) && |t| > 0 && NoSpace(t)
    requires HeaderScenarios.Plain(m) && HeaderScenarios.Plain(t)
    ensures HeaderScenarios.Plain(line)
    ensures RequestLineFrom(line) == Ok(RequestLine("1.1", t, m))
  {
    var rl := RequestLine("1.1", t, m);
    RequestLineRoundTrip(rl);
    assert " HTTP/" + "1.1" == " HTTP/1.1";
    assert FormatLine(rl) == line;
    HeaderScenarios.PlainJoin(m, " ");
    HeaderScenarios.PlainJoin(m + " ", t);
    HeaderScenarios.PlainJoin(m + " " + t, " HTTP/1.1");
  }

  lemma GetRootText(line: string)
    requires line == "GET / HTTP/1.1"
    ensures line == "GET" + " " + "/" + " HTTP/1.1"
  {
  }

  lemma GetWord()
    ensures AllAlpha("GET") && HeaderScenarios.Plain("GET")
  {
  }

  lemma RootTarget()
    ensures NoSpace("/") && HeaderScenarios.Plain("/")
  {
  }

  /** `GET / HTTP/1.1`. */
  lemma GetRootLine(line: string)
    requires line == "GET / HTTP/1.1"
    ensures HeaderScenarios.Plain(line) && |line| == 14
    ensures RequestLineFrom(line) == Ok(RequestLine("1.1", "/", "GET"))
  {
    GetRootText(line);
    GetWord();
    RootTarget();
    RequestLineOf(line, "GET", "/");
  }

  /** The lower-case names the tests look up: `get` finds them as stored. */
  lemma GetKey(h: Headers.Table, name: string)
    requires name in ["host", "user-agent", "accept", "content-length", "set-person"]
    ensures Headers.Get(h, name) == if name in h then Some(h[name]) else None
  {
    HeaderScenarios.GetLowerCase(h, name);
  }

  lemma UserAgentText(line: string)
    requires line == "User-Agent: curl/7.81.0"
    ensures line == "User-Agent" + ": " + "curl/7.81.0"
  {
  }

  lemma UserAgentName()
    ensures Headers.IsFieldName("User-Agent") && HeaderScenarios.Plain("User-Agent")
  {
    assert Headers.IsFieldName("User-Agent");
    HeaderScenarios.FieldNameIsPlain("User-Agent");
  }

  lemma UserAgentLower()
    ensures Lower("User-Agent") == "user-agent"
  {
    assert LowerChar('U') == 'u' && LowerChar('A') == 'a';
    HeaderScenarios.LowerIs("User-Agent", "user-agent");
  }

  lemma CurlValue()
    ensures IsTrimmed("curl/7.81.0") && HeaderScenarios.Plain("curl/7.81.0")
  {
  }

  /** `User-Agent: curl/7.81.0`. */
  lemma UserAgentField(line: string)
    requires line == "User-Agent: curl/7.81.0"
    ensures |line| > 0 && HeaderScenarios.Plain(line)
    ensures Headers.ParseFieldLine(line) == Ok(("user-agent", "curl/7.81.0"))
  {
    UserAgentText(line);
    UserAgentName();
    UserAgentLower();
    CurlValue();
    HeaderScenarios.NamedField(line, "User-Agent", "curl/7.81.0", "user-agent");
  }

  lemma AcceptText(line: string)
    requires line == "Accept: */*"
    ensures line == "Accept" + ": " + "*/*"
  {
  }

  lemma AcceptName()
    ensures Headers.IsFieldName("Accept") && HeaderScenarios.Plain("Accept")
  {
    assert Headers.IsFieldName("Accept");
    HeaderScenarios.FieldNameIsPlain("Accept");
  }

  lemma AcceptLower()
    ensures Lower("Accept") == "accept"
  {
    assert LowerChar('A') == 'a';
    HeaderScenarios.LowerIs("Accept", "accept");
  }

  lemma AnyValue()
    ensures IsTrimmed("*/*") && HeaderScenarios.Plain("*/*")
  {
  }

  /** The `Accept` line of the standard head. */
  lemma AcceptField(line: string)
    requires line == "Accept: */*"
    ensures |line| > 0 && HeaderScenarios.Plain(line)
    ensures Headers.ParseFieldLine(line) == Ok(("accept", "*/*"))
  {
    AcceptText(line);
    AcceptName();
    AcceptLower();
    AnyValue();
    HeaderScenarios.NamedField(line, "Accept", "*/*", "accept");
  }

  /** The three fields of the standard head, merged into an empty table. */
  lemma StandardTable(fs: seq<(string, string)>)
    requires fs == [("host", "localhost:42069"), ("user-agent", "curl/7.81.0"), ("accept", "*/*")]
    ensures var h := Merge(map[], fs);
            && h.Keys == {"host", "user-agent", "accept"}
            && h["host"] == "localhost:42069" && h["user-agent"] == "curl/7.81.0" && h["accept"] == "*/*"
  {
    var f1 := [("user-agent", "curl/7.81.0"), ("accept", "*/*")];
    var f2 := [("accept", "*/*")];
    assert fs[0] == ("host", "localhost:42069") && fs[1..] == f1;
    assert f1[0] == ("user-agent", "curl/7.81.0") && f1[1..] == f2;
    assert f2[0] == ("accept", "*/*") && f2[1..] == [];
    var t1 := Headers.Coalesce(map[], "host", "localhost:42069");
    var t2 := Headers.Coalesce(t1, "user-agent", "curl/7.81.0");
    var t3 := Headers.Coalesce(t2, "accept", "*/*");
    assert Merge(map[], fs) == Merge(t1, f1) == Merge(t2, f2) == Merge(t3, []) == t3;
  }

  /** What `get` finds in the standard head's table. */
  lemma StandardLookups(fs: seq<(string, string)>)
    requires fs == [("host", "localhost:42069"), ("user-agent", "curl/7.81.0"), ("accept", "*/*")]
    ensures var h := Merge(map[], fs);
            && Headers.Get(h, "content-length") == None
            && Headers.Get(h, "host") == Some("localhost:42069")
            && Headers.Get(h, "user-agent") == Some("curl/7.81.0")
            && Headers.Get(h, "accept") == Some("*/*")
  {
    var h := Merge(map[], fs);
    StandardTable(fs);
    GetKey(h, "content-length");
    GetKey(h, "host");
    GetKey(h, "user-agent");
    GetKey(h, "accept");
  }

  /** A head without `content-length`, read in one buffer: done, with an empty body. */
  lemma NoLengthOutcome(line: string, ls: seq<string>, fs: seq<(string, string)>, rest: seq<byte>)
    requires HeaderScenarios.Plain(line) && RequestLineFrom(line).Ok? && ReadAs(ls, fs)
    requires Headers.Get(Merge(map[], fs), "content-length") == None
    ensures Outcome(New(), Message(line, ls, rest)) == Ok(Request(RequestLineFrom(line).value, Merge(map[], fs), [], Done))
  {
    RequestOutcome(line, ls, fs, rest);
  }

  /** A head declaring `content-length: 0`, read in one buffer: done, with an empty body. */
  lemma ZeroLengthOutcome(line: string, ls: seq<string>, fs: seq<(string, string)>, rest: seq<byte>)
    requires HeaderScenarios.Plain(line) && RequestLineFrom(line).Ok? && ReadAs(ls, fs)
    requires Headers.Get(Merge(map[], fs), "content-length").Some?
    requires ParseUsize(Headers.Get(Merge(map[], fs), "content-length").value) == Some(0)
    ensures Outcome(New(), Message(line, ls, rest)) == Ok(Request(RequestLineFrom(line).value, Merge(map[], fs), [], Done))
  {
    RequestOutcome(line, ls, fs, rest);
  }

  /**
    A head declaring a positive length `n`, read in one buffer with `rest`
    after it: the body is the first `n` bytes of `rest`, or all of `rest`
    while more is still to come.
   */
  lemma LengthOutcome(line: string, ls: seq<string>, fs: seq<(string, string)>, rest: seq<byte>, n: nat)
    requires HeaderScenarios.Plain(line) && RequestLineFrom(line).Ok? && ReadAs(ls, fs)
    requires Headers.Get(Merge(map[], fs), "content-length").Some?
    requires ParseUsize(Headers.Get(Merge(map[], fs), "content-length").value) == Some(n) && n > 0
    ensures |rest| >= n ==>
              Outcome(New(), Message(line, ls, rest)) == Ok(Request(RequestLineFrom(line).value, Merge(map[], fs), rest[..n], Done))
    ensures |rest| < n ==>
              Outcome(New(), Message(line, ls, rest)) == Ok(Request(RequestLineFrom(line).value, Merge(map[], fs), rest, ParsingBody))
  {
    RequestOutcome(line, ls, fs, rest);
  }

  /** A malformed request line ends the driver with its error, whatever follows it. */
  lemma BadLineOutcome(line: string, ls: seq<string>, rest: seq<byte>)
    requires HeaderScenarios.Plain(line) && RequestLineFrom(line).Err?
    ensures Outcome(New(), Message(line, ls, rest)) == Err(RequestLineFrom(line).error)
  {
    RequestLineStep(New(), line, Lines(ls, CRLF + rest));
  }

  /** A malformed field line after the request line ends the driver with its error. */
  lemma BadFieldOutcome(line: string, field: string, ls: seq<string>, rest: seq<byte>, e: ParseError)
    requires HeaderScenarios.Plain(line) && RequestLineFrom(line).Ok?
    requires |field| > 0 && HeaderScenarios.Plain(field) && Headers.ParseFieldLine(field) == Err(e)
    ensures Outcome(New(), Message(line, [field] + ls, rest)) == Err(e)
  {
    var r1 := New().(requestLine := RequestLineFrom(line).value, state := ParsingHeaders);
    assert ([field] + ls)[0] == field && ([field] + ls)[1..] == ls;
    RequestLineStep(New(), line, Lines([field] + ls, CRLF + rest));
    HeaderLineErr(r1, field, Lines(ls, CRLF + rest), e);
  }

  /** A request whose only field line is bad, and nothing after the blank line. */
  lemma BadOnlyField(line: string, field: string, e: ParseError)
    requires HeaderScenarios.Plain(line) && RequestLineFrom(line).Ok?
    requires |field| > 0 && HeaderScenarios.Plain(field) && Headers.ParseFieldLine(field) == Err(e)
    ensures Outcome(New(), Message(line, [field], [])) == Err(e)
  {
    BadFieldOutcome(line, field, [], [], e);
    assert [field] + [] == [field];
  }

  /** A request line read in place: what follows is parsed from the request holding it. */
  lemma LineStepInPlace(r: Request, line: string, rest: seq<byte>)
    requires r.state == Initialized && HeaderScenarios.Plain(line) && RequestLineFrom(line).Ok?
    ensures var r1 := r.(requestLine := RequestLineFrom(line).value, state := ParsingHeaders);
            && ParseInPlace(r, Encode(line) + CRLF + rest).0 == ParseInPlace(r1, rest).0
            && (ParseInPlace(r1, rest).1.Err? ==> ParseInPlace(r, Encode(line) + CRLF + rest).1 == ParseInPlace(r1, rest).1)
  {
    var r1 := r.(requestLine := RequestLineFrom(line).value, state := ParsingHeaders);
    var data := Encode(line) + CRLF + rest;
    HeaderScenarios.PlainLineEnd(line, rest);
    assert ParseSingle(r, data) == Ok((r1, |line| + 2));
    ParseInPlaceAfterStep(r, data, r1, |line| + 2);
    AfterLine(Encode(line), rest);
  }

  /** A header step that fails in place leaves the request as it was. */
  lemma HeaderErrInPlace(r: Request, data: seq<byte>, e: ParseError)
    requires r.state == ParsingHeaders && |data| > 0
    requires Headers.Parse(r.headers, data) == Err(e)
    ensures ParseInPlace(r, data) == (r, Err(e))
  {
    assert ParseSingle(r, data) == Err(e);
  }

  /**
    With `parse` changing the request in place, a bad field line after a
    good request line leaves the request holding that line, in
    `ParsingHeaders`, with an empty table.
   */
  lemma BadFieldKeepsLine(line: string, field: string, ls: seq<string>, rest: seq<byte>, e: ParseError)
    requires HeaderScenarios.Plain(line) && RequestLineFrom(line).Ok?
    requires |field| > 0 && HeaderScenarios.Plain(field) && Headers.ParseFieldLine(field) == Err(e)
    ensures ParseInPlace(New(), Message(line, [field] + ls, rest))
            == (New().(requestLine := RequestLineFrom(line).value, state := ParsingHeaders), Err(e))
  {
    var r1 := New().(requestLine := RequestLineFrom(line).value, state := ParsingHeaders);
    var tail := Lines([field] + ls, CRLF + rest);
    assert ([field] + ls)[0] == field && ([field] + ls)[1..] == ls;
    assert tail == Encode(field) + CRLF + Lines(ls, CRLF + rest);
    LineStepInPlace(New(), line, tail);
    HeaderScenarios.ParseOneLine(r1.headers, field, Lines(ls, CRLF + rest));
    HeaderErrInPlace(r1, tail, e);
  }

  /** A reader handing out one non-empty buffer and then end of stream delivers that buffer. */
  lemma CursorStream(data: seq<byte>)
    requires |data| > 0
    ensures Pump.Stream([data]) == data
  {
    assert [data][1..] == [];
  }

  /** Before its first CRLF the request line is not parsed, and nothing is consumed. */
  lemma NoLineYet(r: Request, data: seq<byte>)
    requires r.state == Initialized && CR !in data
    ensures Parse(r, data) == Ok((r, 0))
  {
  }

  /** Before the next CRLF no field line is parsed, and nothing is consumed. */
  lemma NoFieldYet(r: Request, data: seq<byte>)
    requires r.state == ParsingHeaders && CR !in data
    ensures Parse(r, data) == Ok((r, 0))
  {
  }

  /**
    A complete request line followed by a partial field line: the line is
    consumed with its CRLF, and the partial line waits for more bytes.
   */
  lemma LineThenPartial(r: Request, line: string, rest: seq<byte>)
    requires r.state == Initialized && HeaderScenarios.Plain(line) && RequestLineFrom(line).Ok?
    requires CR !in rest
    ensures var p := Parse(r, Encode(line) + CRLF + rest);
            && p.Ok? && p.value.1 == |line| + 2
            && p.value.0 == r.(requestLine := RequestLineFrom(line).value, state := ParsingHeaders)
  {
    var data := Encode(line) + CRLF + rest;
    var r1 := r.(requestLine := RequestLineFrom(line).value, state := ParsingHeaders);
    LineConsumed(r, line, rest);
    NoFieldYet(r1, rest);
    ParseAfterStepOk(r, data, r1, |line| + 2);
  }

  /** The step that reads a complete request line consumes it with its CRLF. */
  lemma LineConsumed(r: Request, line: string, rest: seq<byte>)
    requires r.state == Initialized && HeaderScenarios.Plain(line) && RequestLineFrom(line).Ok?
    ensures ParseSingle(r, Encode(line) + CRLF + rest)
            == Ok((r.(requestLine := RequestLineFrom(line).value, state := ParsingHeaders), |line| + 2))
    ensures (Encode(line) + CRLF + rest)[|line| + 2..] == rest
  {
    HeaderScenarios.PlainLineEnd(line, rest);
    AfterLine(Encode(line), rest);
  }

  /** `test_standard_headers`: the request line and three fields, then the blank line. */
  lemma StandardHeaders(l0: string, l1: string, l2: string, l3: string)
    requires l0 == "GET / HTTP/1.1" && l1 == "Host: localhost:42069"
    requires l2 == "User-Agent: curl/7.81.0" && l3 == "Accept: */*"
    ensures var o := Outcome(New(), Message(l0, [l1, l2, l3], []));
            && o.Ok? && o.value.state == Done && o.value.requestLine.requestMethod == "GET"
            && Headers.Get(o.value.headers, "host") == Some("localhost:42069")
            && Headers.Get(o.value.headers, "user-agent") == Some("curl/7.81.0")
            && Headers.Get(o.value.headers, "accept") == Some("*/*")
  {
    GetRootLine(l0);
    StandardFields(l1, l2, l3);
    var fs := [("host", "localhost:42069"), ("user-agent", "curl/7.81.0"), ("accept", "*/*")];
    StandardLookups(fs);
    NoLengthOutcome(l0, [l1, l2, l3], fs, []);
  }


  /** `test_request_line_parse`: a request line reads as its three parts. */
  lemma RequestLineParse(line: string)
    requires line == "GET / HTTP/1.1"
    ensures RequestLineFrom(line) == Ok(RequestLine("1.1", "/", "GET"))
  {
    GetRootLine(line);
  }

  lemma CoffeeText(line: string)
    requires line == "GET /coffee HTTP/1.1"
    ensures line == "GET" + " " + "/coffee" + " HTTP/1.1"
  {
  }

  lemma CoffeeTarget()
    ensures NoSpace("/coffee") && HeaderScenarios.Plain("/coffee")
  {
  }

  /** `GET /coffee HTTP/1.1`. */
  lemma CoffeeLine(line: string)
    requires line == "GET /coffee HTTP/1.1"
    ensures HeaderScenarios.Plain(line)
    ensures RequestLineFrom(line) == Ok(RequestLine("1.1", "/coffee", "GET"))
  {
    CoffeeText(line);
    GetWord();
    CoffeeTarget();
    RequestLineOf(line, "GET", "/coffee");
  }

  /** The three fields of the standard head, each read from its line. */
  lemma StandardFields(l1: string, l2: string, l3: string)
    requires l1 == "Host: localhost:42069" && l2 == "User-Agent: curl/7.81.0" && l3 == "Accept: */*"
    ensures ReadAs([l1, l2, l3], [("host", "localhost:42069"), ("user-agent", "curl/7.81.0"), ("accept", "*/*")])
  {
    HeaderScenarios.HostField(l1);
    UserAgentField(l2);
    AcceptField(l3);
    ReadAsThree(l1, l2, l3, ("host", "localhost:42069"), ("user-agent", "curl/7.81.0"), ("accept", "*/*"));
  }

  /**
    `test_request_from_reader`: a reader that hands out the whole request
    at once; `Pump.RequestFromReader` returns exactly this outcome.
   */
  lemma FromReader(l0: string, l1: string, l2: string, l3: string)
    requires l0 == "GET /coffee HTTP/1.1" && l1 == "Host: localhost:42069"
    requires l2 == "User-Agent: curl/7.81.0" && l3 == "Accept: */*"
    ensures var o := Outcome(New(), Pump.Stream([Message(l0, [l1, l2, l3], [])]));
            && o.Ok? && o.value.requestLine.requestMethod == "GET"
            && o.value.requestLine.requestTarget == "/coffee" && o.value.requestLine.httpVersion == "1.1"
  {
    CoffeeLine(l0);
    StandardFields(l1, l2, l3);
    var fs := [("host", "localhost:42069"), ("user-agent", "curl/7.81.0"), ("accept", "*/*")];
    StandardLookups(fs);
    NoLengthOutcome(l0, [l1, l2, l3], fs, []);
    CursorStream(Message(l0, [l1, l2, l3], []));
  }

  lemma NoMethodText(line: string)
    requires line == "/coffee HTTP/1.1"
    ensures line == Join(["/coffee", "HTTP/1.1"], " ") && HeaderScenarios.Plain(line)
  {
  }

  lemma TwoWords()
    ensures var words := ["/coffee", "HTTP/1.1"];
            forall i :: 0 <= i < |words| ==> |words[i]| > 0 && NoSpace(words[i])
  {
  }

  /** A request line of two words. */
  lemma NoMethodLine(line: string)
    requires line == "/coffee HTTP/1.1"
    ensures HeaderScenarios.Plain(line) && RequestLineFrom(line) == Err(InvalidFormat(Malformed))
  {
    NoMethodText(line);
    TwoWords();
    SplitWhitespaceJoin(["/coffee", "HTTP/1.1"]);
  }

  /** `test_invalid_request`: a request line without a method is refused, through the reader too. */
  lemma InvalidRequest(l0: string, l1: string, l2: string, l3: string)
    requires l0 == "/coffee HTTP/1.1" && l1 == "Host: localhost:42069"
    requires l2 == "User-Agent: curl/7.81.0" && l3 == "Accept: */*"
    ensures Outcome(New(), Pump.Stream([Message(l0, [l1, l2, l3], [])])) == Err(InvalidFormat(Malformed))
  {
    NoMethodLine(l0);
    BadLineOutcome(l0, [l1, l2, l3], []);
    CursorStream(Message(l0, [l1, l2, l3], []));
  }

  /** `test_empty_headers`: a request line and the blank line alone. */
  lemma EmptyHeaders(l0: string)
    requires l0 == "GET / HTTP/1.1"
    ensures var o := Outcome(New(), Message(l0, [], []));
            o.Ok? && o.value.state == Done && Headers.Len(o.value.headers) == 0
  {
    GetRootLine(l0);
    GetKey(map[], "content-length");
    NoLengthOutcome(l0, [], [], []);
  }

  lemma SpaceIsNotTChar()
    ensures !Headers.IsTChar(' ')
  {
    var t := "!#$%&'*+-.^_`|~";
    assert forall i :: 0 <= i < |t| ==> t[i] != ' ';
  }

  lemma MissingColonText(line: string)
    requires line == "Host localhost:42069"
    ensures line == "Host localhost" + ":" + "42069" && HeaderScenarios.Plain(line)
  {
  }

  lemma MissingColonName()
    ensures ':' !in "Host localhost" && IsTrimmed("Host localhost")
  {
  }

  lemma SpacedName()
    ensures !Headers.IsFieldName("Host localhost")
  {
    SpaceIsNotTChar();
    assert "Host localhost"[4] == ' ';
  }

  /** `Host localhost:42069`: the colon found is inside the value, so the name holds a space. */
  lemma MissingColonField(line: string)
    requires line == "Host localhost:42069"
    ensures |line| > 0 && HeaderScenarios.Plain(line)
    ensures Headers.ParseFieldLine(line) == Err(InvalidFormat(Headers.InvalidChars))
  {
    MissingColonText(line);
    MissingColonName();
    SpacedName();
    HeaderScenarios.TrimOfTrimmed("Host localhost");
    Headers.ParseFieldLineInvalidName("Host localhost", "42069");
  }

  /** `test_malformed_header`: a field line without its own colon is an error. */
  lemma MalformedHeader(l0: string, l1: string)
    requires l0 == "GET / HTTP/1.1" && l1 == "Host localhost:42069"
    ensures Outcome(New(), Message(l0, [l1], [])) == Err(InvalidFormat(Headers.InvalidChars))
  {
    GetRootLine(l0);
    MissingColonField(l1);
    BadOnlyField(l0, l1, InvalidFormat(Headers.InvalidChars));
  }

  /**
    `test_malformed_header` with `parse` in place: the error comes back and
    the request keeps the request line it had already read.
   */
  lemma MalformedHeaderKeepsLine(l0: string, l1: string)
    requires l0 == "GET / HTTP/1.1" && l1 == "Host localhost:42069"
    ensures ParseInPlace(New(), Message(l0, [l1], []))
            == (Request(RequestLine("1.1", "/", "GET"), map[], [], ParsingHeaders), Err(InvalidFormat(Headers.InvalidChars)))
  {
    GetRootLine(l0);
    MissingColonField(l1);
    BadFieldKeepsLine(l0, l1, [], [], InvalidFormat(Headers.InvalidChars));
    assert [l1] + [] == [l1];
  }

  lemma SubmitText(line: string)
    requires line == "POST /submit HTTP/1.1"
    ensures line == "POST" + " " + "/submit" + " HTTP/1.1"
  {
  }

  lemma PostWord()
    ensures AllAlpha("POST") && HeaderScenarios.Plain("POST")
  {
  }

  lemma SubmitTarget()
    ensures NoSpace("/submit") && HeaderScenarios.Plain("/submit")
  {
  }

  /** `POST /submit HTTP/1.1`. */
  lemma SubmitLine(line: string)
    requires line == "POST /submit HTTP/1.1"
    ensures HeaderScenarios.Plain(line)
    ensures RequestLineFrom(line) == Ok(RequestLine("1.1", "/submit", "POST"))
  {
    SubmitText(line);
    PostWord();
    SubmitTarget();
    RequestLineOf(line, "POST", "/submit");
  }

  lemma LocalHostText(line: string)
    requires line == "Host: localhost"
    ensures line == "Host" + ": " + "localhost"
  {
  }

  lemma LocalHostValue()
    ensures IsTrimmed("localhost") && HeaderScenarios.Plain("localhost")
  {
  }

  /** `Host: localhost`. */
  lemma LocalHostField(line: string)
    requires line == "Host: localhost"
    ensures FieldIs(line, ("host", "localhost"))
  {
    LocalHostText(line);
    HeaderScenarios.HostName();
    HeaderScenarios.HostLower();
    LocalHostValue();
    HeaderScenarios.NamedField(line, "Host", "localhost", "host");
  }

  lemma LengthName()
    ensures Headers.IsFieldName("Content-Length") && HeaderScenarios.Plain("Content-Length")
  {
    assert Headers.IsFieldName("Content-Length");
    HeaderScenarios.FieldNameIsPlain("Content-Length");
  }

  lemma LengthLower()
    ensures Lower("Content-Length") == "content-length"
  {
    assert LowerChar('C') == 'c' && LowerChar('L') == 'l';
    HeaderScenarios.LowerIs("Content-Length", "content-length");
  }

  lemma LengthText(line: string, value: string)
    requires line == "Content-Length: " + value
    ensures line == "Content-Length" + ": " + value
  {
  }

  /** `Content-Length: ` and a value. */
  lemma LengthField(line: string, value: string)
    requires line == "Content-Length: " + value && IsTrimmed(value) && HeaderScenarios.Plain(value)
    ensures FieldIs(line, ("content-length", value))
  {
    LengthText(line, value);
    LengthName();
    LengthLower();
    HeaderScenarios.NamedField(line, "Content-Length", value, "content-length");
  }

  /** The numerals of the tests' `Content-Length` lines. */
  lemma Numerals()
    ensures IsTrimmed("13") && HeaderScenarios.Plain("13") && ParseUsize("13") == Some(13)
    ensures IsTrimmed("0") && HeaderScenarios.Plain("0") && ParseUsize("0") == Some(0)
    ensures IsTrimmed("20") && HeaderScenarios.Plain("20") && ParseUsize("20") == Some(20)
  {
    assert DigitsValue("13") == 13 by {
      assert "13"[..1] == "1";
    }
    assert DigitsValue("20") == 20 by {
      assert "20"[..1] == "2";
    }
  }

  lemma LengthLines(l13: string, l0: string, l20: string)
    requires l13 == "Content-Length: 13" && l0 == "Content-Length: 0" && l20 == "Content-Length: 20"
    ensures l13 == "Content-Length: " + "13" && l0 == "Content-Length: " + "0" && l20 == "Content-Length: " + "20"
  {
  }

  /** Two fields merged into an empty table, one after the other. */
  lemma MergeTwo(a: (string, string), b: (string, string))
    ensures Merge(map[], [a, b]) == Headers.Coalesce(Headers.Coalesce(map[], a.0, a.1), b.0, b.1)
  {
    var fs := [a, b];
    assert fs[0] == a && fs[1..] == [b];
    assert [b][0] == b && [b][1..] == [];
    var t1 := Headers.Coalesce(map[], a.0, a.1);
    assert Merge(map[], fs) == Merge(t1, [b]) == Merge(Headers.Coalesce(t1, b.0, b.1), []);
  }

  /** A host field, and a length field after it. */
  lemma HostAndLength(host: string, len: string)
    ensures var h := Merge(map[], [("host", host), ("content-length", len)]);
            Headers.Get(h, "content-length") == Some(len)
  {
    MergeTwo(("host", host), ("content-length", len));
    GetKey(Headers.Coalesce(Headers.Coalesce(map[], "host", host), "content-length", len), "content-length");
  }

  /** A host field alone. */
  lemma HostOnly(host: string)
    ensures Headers.Get(Merge(map[], [("host", host)]), "content-length") == None
  {
    var fs := [("host", host)];
    assert fs[1..] == [];
    GetKey(Headers.Coalesce(map[], "host", host), "content-length");
  }

  lemma HelloText(text: string)
    requires text == "hello world!\n"
    ensures IsAscii(text) && |text| == 13
  {
  }

  /** The bytes of the body text: 13 of them, decoding back to the text. */
  lemma HelloBytes(text: string)
    requires text == "hello world!\n"
    ensures |Encode(text)| == 13 && Encode(text)[..13] == Encode(text) && Decode(Encode(text)) == text
  {
    HelloText(text);
    EncodeAscii(text);
    DecodeEncode(text);
  }

  /** `test_standard_body`: a declared length of 13 takes exactly the 13 bytes that follow. */
  lemma StandardBody(l0: string, l1: string, l2: string, text: string)
    requires l0 == "POST /submit HTTP/1.1" && l1 == "Host: localhost:42069" && l2 == "Content-Length: 13"
    requires text == "hello world!\n"
    ensures var o := Outcome(New(), Message(l0, [l1, l2], Encode(text)));
            && o.Ok? && o.value.state == Done && o.value.body == Encode(text) && Decode(o.value.body) == text
  {
    SubmitLine(l0);
    HeaderScenarios.HostField(l1);
    LengthLines(l2, "Content-Length: 0", "Content-Length: 20");
    Numerals();
    LengthField(l2, "13");
    var fs := [("host", "localhost:42069"), ("content-length", "13")];
    ReadAsTwo(l1, l2, fs[0], fs[1]);
    HostAndLength("localhost:42069", "13");
    HelloBytes(text);
    LengthOutcome(l0, [l1, l2], fs, Encode(text), 13);
  }

  /** `test_empty_body_zero_content_length`: a declared length of 0 ends the request at the blank line. */
  lemma ZeroContentLength(l0: string, l1: string, l2: string)
    requires l0 == "GET / HTTP/1.1" && l1 == "Host: localhost" && l2 == "Content-Length: 0"
    ensures var o := Outcome(New(), Message(l0, [l1, l2], []));
            o.Ok? && o.value.state == Done && o.value.body == []
  {
    GetRootLine(l0);
    LocalHostField(l1);
    LengthLines("Content-Length: 13", l2, "Content-Length: 20");
    Numerals();
    LengthField(l2, "0");
    var fs := [("host", "localhost"), ("content-length", "0")];
    ReadAsTwo(l1, l2, fs[0], fs[1]);
    HostAndLength("localhost", "0");
    ZeroLengthOutcome(l0, [l1, l2], fs, []);
  }

  /** `test_empty_body_no_content_length`: without a length the request ends at the blank line. */
  lemma NoContentLength(l0: string, l1: string)
    requires l0 == "GET / HTTP/1.1" && l1 == "Host: localhost"
    ensures var o := Outcome(New(), Message(l0, [l1], []));
            o.Ok? && o.value.state == Done && o.value.body == []
  {
    GetRootLine(l0);
    LocalHostField(l1);
    var fs := [("host", "localhost")];
    ReadAsOne(l1, fs[0]);
    HostOnly("localhost");
    NoLengthOutcome(l0, [l1], fs, []);
  }

  lemma PartialText(text: string)
    requires text == "partial content"
    ensures IsAscii(text) && |text| == 15
  {
  }

  /** `test_body_shorter_than_content_length`: a short body is kept and the request waits for more. */
  lemma BodyShorter(l0: string, l1: string, l2: string, text: string)
    requires l0 == "POST /submit HTTP/1.1" && l1 == "Host: localhost" && l2 == "Content-Length: 20"
    requires text == "partial content"
    ensures var o := Outcome(New(), Message(l0, [l1, l2], Encode(text)));
            && o.Ok? && o.value.state == ParsingBody && o.value.body == Encode(text) && Decode(o.value.body) == text
  {
    SubmitLine(l0);
    LocalHostField(l1);
    LengthLines("Content-Length: 13", "Content-Length: 0", l2);
    Numerals();
    LengthField(l2, "20");
    var fs := [("host", "localhost"), ("content-length", "20")];
    ReadAsTwo(l1, l2, fs[0], fs[1]);
    HostAndLength("localhost", "20");
    PartialText(text);
    EncodeAscii(text);
    DecodeEncode(text);
    LengthOutcome(l0, [l1, l2], fs, Encode(text), 20);
  }

  /** `test_no_content_length_but_body_exists`: without a length the bytes after the head are not read. */
  lemma NoLengthButBody(l0: string, l1: string, text: string)
    requires l0 == "POST /submit HTTP/1.1" && l1 == "Host: localhost" && text == "some body data"
    ensures var o := Outcome(New(), Message(l0, [l1], Encode(text)));
            o.Ok? && o.value.state == Done && o.value.body == []
  {
    SubmitLine(l0);
    LocalHostField(l1);
    var fs := [("host", "localhost")];
    ReadAsOne(l1, fs[0]);
    HostOnly("localhost");
    NoLengthOutcome(l0, [l1], fs, Encode(text));
  }

  lemma PersonText(l1: string, l2: string)
    requires l1 == "Set-Person: lane" && l2 == "Set-Person: prime"
    ensures l1 == "Set-Person: " + "lane" && l2 == "Set-Person: " + "prime"
  {
  }

  lemma PersonValues()
    ensures IsTrimmed("lane") && HeaderScenarios.Plain("lane") && IsTrimmed("prime") && HeaderScenarios.Plain("prime")
    ensures "lane" + ", " + "prime" == "lane, prime"
  {
  }

  /** The same field twice. */
  lemma PersonTwice(a: string, b: string)
    ensures var h := Merge(map[], [("set-person", a), ("set-person", b)]);
            && Headers.Get(h, "content-length") == None
            && Headers.Get(h, "set-person") == Some(a + ", " + b)
  {
    MergeTwo(("set-person", a), ("set-person", b));
    var h := Headers.Coalesce(Headers.Coalesce(map[], "set-person", a), "set-person", b);
    GetKey(h, "content-length");
    GetKey(h, "set-person");
  }

  /** `test_duplicate_headers`: a field repeated in one request is joined with a comma. */
  lemma DuplicateHeaders(l0: string, l1: string, l2: string)
    requires l0 == "GET / HTTP/1.1" && l1 == "Set-Person: lane" && l2 == "Set-Person: prime"
    ensures var o := Outcome(New(), Message(l0, [l1, l2], []));
            o.Ok? && Headers.Get(o.value.headers, "set-person") == Some("lane, prime")
  {
    GetRootLine(l0);
    PersonText(l1, l2);
    PersonValues();
    HeaderScenarios.SetPersonField("lane");
    HeaderScenarios.SetPersonField("prime");
    var fs := [("set-person", "lane"), ("set-person", "prime")];
    ReadAsTwo(l1, l2, fs[0], fs[1]);
    PersonTwice("lane", "prime");
    NoLengthOutcome(l0, [l1, l2], fs, []);
  }

  lemma PartialTexts(a: string, l1: string)
    requires a == "GE" && l1 == "Host: localhost"
    ensures '\r' !in a && '\r' !in l1
  {
  }

  /**
    `test_stateful_request_parsing`: two bytes of a request line consume
    nothing; the whole line with the start of a field line consumes the
    line and its CRLF, 16 bytes, and waits in `ParsingHeaders`.
   */
  lemma Stateful(a: string, l0: string, l1: string)
    requires a == "GE" && l0 == "GET / HTTP/1.1" && l1 == "Host: localhost"
    ensures Parse(New(), Encode(a)) == Ok((New(), 0))
    ensures var p := Parse(New(), Encode(l0) + CRLF + Encode(l1));
            && p.Ok? && p.value.1 == 16 && p.value.0.state == ParsingHeaders
            && p.value.0.requestLine == RequestLine("1.1", "/", "GET")
  {
    PartialTexts(a, l1);
    EncodeNoCR(a);
    EncodeNoCR(l1);
    NoLineYet(New(), Encode(a));
    GetRootLine(l0);
    LineThenPartial(New(), l0, Encode(l1));
  }
}
