/**
  The buffer pump of `request_from_reader` (src/http/request.rs): a growable
  buffer filled by successive reads, parsed, and slid left past the consumed
  bytes, until the request is done or the stream ends.  The transport is a
  reader that hands out a list of byte chunks, as the test `ChunkReader` does.
 */
module Pump {
  import opened Wrappers
  import opened Bytes
  import opened Errors
  import opened Request
  import opened RequestInvariant

  /** Initial buffer capacity, `BUFFER_SIZE`. */
  const BufferSize: nat := 8

  /**
    A reader that yields its chunks in order.  A read into `space` bytes
    returns the front of the first chunk, at most `space` bytes of it; the
    rest of the chunk stays for the next read.  An empty chunk, like the end
    of the list, reads as zero bytes: end of stream.
   */
  datatype Reader = Reader(chunks: seq<seq<byte>>)

  function Read(rd: Reader, space: nat): (res: (seq<byte>, Reader))
    ensures |res.0| <= space
  {
    if |rd.chunks| == 0 then ([], rd)
    else
      var chunk := rd.chunks[0];
      if |chunk| <= space then (chunk, Reader(rd.chunks[1..]))
      else (chunk[..space], Reader([chunk[space..]] + rd.chunks[1..]))
  }

  /** The bytes a reader delivers before its first zero-length read. */
  function Stream(chunks: seq<seq<byte>>): seq<byte> {
    if |chunks| == 0 || |chunks[0]| == 0 then [] else chunks[0] + Stream(chunks[1..])
  }

  /** A read hands out the front of the stream and leaves the rest; zero bytes only at its end. */
  lemma ReadSplitsStream(rd: Reader, space: nat)
    requires space > 0
    ensures var (got, rd') := Read(rd, space);
            && (|got| > 0 ==> Stream(rd.chunks) == got + Stream(rd'.chunks))
            && (|got| == 0 <==> Stream(rd.chunks) == [])
  {
    if |rd.chunks| > 0 {
      var chunk := rd.chunks[0];
      if |chunk| > space {
        var rest := [chunk[space..]] + rd.chunks[1..];
        assert rest[1..] == rd.chunks[1..];
        assert Stream(rest) == chunk[space..] + Stream(rd.chunks[1..]);
        assert Stream(rd.chunks) == chunk + Stream(rd.chunks[1..]);
        assert chunk == chunk[..space] + chunk[space..];
      }
    }
  }

  /** One unfolding of the driver after a step that consumed something. */
  lemma OutcomeAfterStep(r: Request, data: seq<byte>, r1: Request, n: nat)
    requires r.state != Done && |data| > 0
    requires ParseSingle(r, data) == Ok((r1, n)) && n > 0
    ensures Outcome(r, data) == Outcome(r1, data[n..])
  {
  }

  /** Once the first CRLF is buffered, more bytes do not change the request line step. */
  lemma ParseRequestLineExtend(a: seq<byte>, b: seq<byte>)
    requires FindCRLF(a).Some?
    ensures ParseRequestLine(a + b) == ParseRequestLine(a)
  {
    FindCRLFExtend(a, b);
    var i := FindCRLF(a).value;
    assert (a + b)[..i] == a[..i];
  }

  /** Once the first CRLF is buffered, more bytes do not change the header step. */
  lemma HeadersParseExtend(h: Headers.Table, a: seq<byte>, b: seq<byte>)
    requires FindCRLF(a).Some?
    ensures Headers.Parse(h, a + b) == Headers.Parse(h, a)
  {
    FindCRLFExtend(a, b);
    var i := FindCRLF(a).value;
    assert (a + b)[..i] == a[..i];
  }

  /**
    A step of a line state that fails or consumes something sees a complete
    line, so it takes the same step when more bytes follow.
   */
  lemma LineStepExtend(r: Request, a: seq<byte>, b: seq<byte>)
    requires r.state == Initialized || r.state == ParsingHeaders
    requires ParseSingle(r, a).Err? || ParseSingle(r, a).value.1 > 0
    ensures ParseSingle(r, a + b) == ParseSingle(r, a)
  {
    if r.state == Initialized {
      if FindCRLF(a).Some? {
        ParseRequestLineExtend(a, b);
      }
    } else {
      if FindCRLF(a).Some? {
        HeadersParseExtend(r.headers, a, b);
      }
    }
  }

  /**
    Parse `a` from `r`, then run the driver from where that stopped on the
    bytes `a` left unconsumed followed by `b`: what the buffer pump does when
    `b` arrives after `a`.
   */
  function Resume(r: Request, a: seq<byte>, b: seq<byte>): (res: Result<Request, ParseError>)
    ensures Parse(r, a).Err? ==> res == Err(Parse(r, a).error)
  {
    match Parse(r, a)
    case Err(e) => Err(e)
    case Ok((r1, k)) => Outcome(r1, a[k..] + b)
  }

  /**
    Parsing is insensitive to where the input is cut: parsing `a` and then
    carrying its unconsumed bytes over to parse them with `b` gives the same
    request (or the same error) as parsing `a + b` in one go.
   */
  lemma {:induction false} ParseAppend(r: Request, a: seq<byte>, b: seq<byte>)
    decreases |a|
    ensures Outcome(r, a + b) == Resume(r, a, b)
  {
    if r.state == Done || |a| == 0 {
      assert a[0..] + b == a + b;
    } else if ParseSingle(r, a).Err? {
      StepExtendErr(r, a, b);
    } else if ParseSingle(r, a).value.1 == 0 {
      AppendAfterZeroStep(r, a, b);
    } else if r.state == ParsingBody && BodyNeedsMore(r, a, b) {
      BodyStepSplit(r, a, b);
    } else {
      var (r1, n) := ParseSingle(r, a).value;
      if r.state == ParsingBody {
        BodyStepExtend(r, a, b);
      } else {
        LineStepExtend(r, a, b);
      }
      ParseAppend(r1, a[n..], b);
      AppendStep(r, a, b, r1, n);
      ResumeAfterStep(r, a, b, r1, n);
    }
  }

  /** The step over `a` consumes all of `a` and the body still needs bytes from `b`. */
  predicate BodyNeedsMore(r: Request, a: seq<byte>, b: seq<byte>) {
    |r.body| <= DeclaredLength(r.headers) && |a| < Min(DeclaredLength(r.headers) - |r.body|, |a| + |b|)
  }

  /** After a step that is the same over `a` and over `a + b`, the two runs go on from the same request. */
  lemma AppendStep(r: Request, a: seq<byte>, b: seq<byte>, r1: Request, n: nat)
    requires r.state != Done && 0 < n <= |a|
    requires ParseSingle(r, a + b) == Ok((r1, n))
    ensures Outcome(r, a + b) == Outcome(r1, a[n..] + b)
  {
    DropAppend(a, b, n);
    OutcomeAfterStep(r, a + b, r1, n);
  }

  /** A step that consumed something hands the rest of `a` on to the next step. */
  lemma ResumeAfterStep(r: Request, a: seq<byte>, b: seq<byte>, r1: Request, n: nat)
    requires r.state != Done && 0 < n <= |a|
    requires ParseSingle(r, a) == Ok((r1, n))
    ensures Resume(r, a, b) == Resume(r1, a[n..], b)
  {
    if Parse(r1, a[n..]).Err? {
      ParseAfterStepErr(r, a, r1, n);
    } else {
      var p := Parse(r1, a[n..]).value;
      ParseAfterStepOk(r, a, r1, n);
      DropDrop(a, n, p.1);
      var q := Parse(r, a).value;
      assert Resume(r, a, b) == Outcome(q.0, a[q.1..] + b);
      assert Resume(r1, a[n..], b) == Outcome(p.0, a[n..][p.1..] + b);
      SameOutcome(q.0, p.0, a[q.1..] + b, a[n..][p.1..] + b);
    }
  }

  /** Dropping a prefix of `a` commutes with appending `b`. */
  lemma DropAppend(a: seq<byte>, b: seq<byte>, n: nat)
    requires n <= |a|
    ensures (a + b)[n..] == a[n..] + b
  {
  }

  /** The driver run from equal requests on equal bytes ends equally. */
  lemma SameOutcome(x: Request, y: Request, d: seq<byte>, e: seq<byte>)
    requires x == y && d == e
    ensures Outcome(x, d) == Outcome(y, e)
  {
  }

  /** Dropping twice is dropping the sum. */
  lemma DropDrop(a: seq<byte>, n: nat, m: nat)
    requires n <= |a| && m <= |a| - n
    ensures a[n..][m..] == a[n + m..]
  {
  }

  /** The case of `ParseAppend` where the first step over `a` consumes nothing. */
  lemma AppendAfterZeroStep(r: Request, a: seq<byte>, b: seq<byte>)
    requires r.state != Done && |a| > 0
    requires ParseSingle(r, a).Ok? && ParseSingle(r, a).value.1 == 0
    ensures Outcome(r, a + b) == Resume(r, a, b)
  {
    var r1 := ParseSingle(r, a).value.0;
    assert Parse(r, a) == Ok((r1, 0));
    assert a[0..] + b == a + b;
    if r1 != r {
      ZeroStepExtend(r, a, b);
      assert Parse(r, a + b) == Ok((r1, 0));
    }
  }

  /** A failing step fails the same way with more bytes. */
  lemma StepExtendErr(r: Request, a: seq<byte>, b: seq<byte>)
    requires r.state != Done && |a| > 0 && ParseSingle(r, a).Err?
    ensures ParseSingle(r, a + b) == ParseSingle(r, a)
  {
    if r.state != ParsingBody {
      LineStepExtend(r, a, b);
    }
  }

  /** A step that consumes nothing yet finishes the request does so whatever follows. */
  lemma ZeroStepExtend(r: Request, a: seq<byte>, b: seq<byte>)
    requires r.state != Done && |a| > 0
    requires ParseSingle(r, a).Ok? && ParseSingle(r, a).value.1 == 0 && ParseSingle(r, a).value.0 != r
    ensures ParseSingle(r, a + b) == ParseSingle(r, a)
  {
    assert r.state == ParsingBody;
  }

  /** The `ParsingBody` step in closed form, for a body not longer than declared. */
  lemma BodyClosedForm(r: Request, d: seq<byte>)
    requires r.state == ParsingBody && |r.body| <= DeclaredLength(r.headers)
    ensures var k := Min(DeclaredLength(r.headers) - |r.body|, |d|);
            var body := r.body + d[..k];
            ParseSingle(r, d) == Ok((r.(body := body, state := if |body| == DeclaredLength(r.headers) then Done else ParsingBody), k))
  {
  }

  /** A body step that already takes all it needs from `a` takes the same from `a + b`. */
  lemma BodyStepExtend(r: Request, a: seq<byte>, b: seq<byte>)
    requires r.state == ParsingBody && |a| > 0
    requires ParseSingle(r, a).Ok? && ParseSingle(r, a).value.1 > 0
    requires !BodyNeedsMore(r, a, b)
    ensures ParseSingle(r, a + b) == ParseSingle(r, a)
  {
    BodyClosedForm(r, a);
    BodyClosedForm(r, a + b);
    var n := ParseSingle(r, a).value.1;
    assert (a + b)[..n] == a[..n];
  }

  /**
    A body step that exhausts `a` before the body is complete: continuing
    with `b` later ends where one step over `a + b` ends.
   */
  lemma BodyStepSplit(r: Request, a: seq<byte>, b: seq<byte>)
    requires r.state == ParsingBody && |a| > 0
    requires ParseSingle(r, a).Ok? && ParseSingle(r, a).value.1 > 0
    requires BodyNeedsMore(r, a, b)
    ensures Outcome(r, a + b) == Resume(r, a, b)
  {
    BodyClosedForm(r, a);
    var r1 := ParseSingle(r, a).value.0;
    assert r1 == r.(body := r.body + a) && r1.state == ParsingBody;
    assert a[|a|..] + b == b;
    BodyParseWhole(r, a);
    BodySplitStep(r, a, b);
  }

  lemma BodyParseWhole(r: Request, a: seq<byte>)
    requires r.state == ParsingBody && |a| > 0
    requires ParseSingle(r, a).Ok? && ParseSingle(r, a).value.1 == |a|
    requires ParseSingle(r, a).value.0.state == ParsingBody
    ensures Parse(r, a) == Ok((ParseSingle(r, a).value.0, |a|))
  {
    assert a[|a|..] == [];
  }

  lemma BodySplitStep(r: Request, a: seq<byte>, b: seq<byte>)
    requires r.state == ParsingBody && |a| > 0 && |r.body| <= DeclaredLength(r.headers)
    requires BodyNeedsMore(r, a, b)
    ensures Outcome(r, a + b) == Outcome(r.(body := r.body + a), b)
  {
    var r1 := r.(body := r.body + a);
    var t := Min(DeclaredLength(r.headers) - |r.body|, |a| + |b|);
    BodyClosedForm(r, a + b);
    BodyClosedForm(r1, b);
    assert r.body + (a + b)[..t] == r1.body + b[..t - |a|];
    var body := r.body + (a + b)[..t];
    var r2 := r.(body := body, state := if |body| == DeclaredLength(r.headers) then Done else ParsingBody);
    assert ParseSingle(r, a + b) == Ok((r2, t));
    assert ParseSingle(r1, b) == Ok((r2, t - |a|));
    OutcomeAfterStep(r, a + b, r2, t);
    OutcomeAfterStep(r1, b, r2, t - |a|);
    assert (a + b)[t..] == b[t - |a|..];
  }

  /** The driver leaves a request that a second run over the leftover bytes does not change. */
  lemma ParseSettledTwice(r: Request, data: seq<byte>)
    requires Parse(r, data).Ok?
    ensures var (r', n) := Parse(r, data).value; Parse(r', data[n..]) == Ok((r', 0))
  {
    ParseSettles(r, data);
  }

  /** The buffer capacity after `k` doublings. */
  function Doubled(k: nat): (c: nat)
    ensures c >= BufferSize
  {
    if k == 0 then BufferSize else 2 * Doubled(k - 1)
  }

  lemma DoublingGrows(c: nat)
    requires IsDoubling(c)
    ensures IsDoubling(2 * c)
  {
    var k: nat :| Doubled(k) == c;
    assert Doubled(k + 1) == 2 * c;
  }

  /** Buffer capacities reachable from `BufferSize` by doubling. */
  ghost predicate IsDoubling(c: nat) {
    exists k: nat :: Doubled(k) == c
  }

  /**
    `copy_within(consumed..filled, 0)`: the unconsumed bytes move to the
    front, the tail of the buffer is left as it was.
   */
  function Slide(buf: seq<byte>, filled: nat, consumed: nat): (r: seq<byte>)
    requires consumed <= filled <= |buf|
    ensures |r| == |buf|
    ensures r[..filled - consumed] == buf[consumed..filled]
    ensures r[filled - consumed..] == buf[filled - consumed..]
  {
    buf[consumed..filled] + buf[filled - consumed..]
  }

  /** The buffer doubled, zero-filled at the back, its contents kept. */
  function Grow(buf: seq<byte>, filled: nat): (r: seq<byte>)
    requires filled <= |buf|
    ensures |r| == 2 * |buf|
    ensures r[..filled] == buf[..filled]
  {
    buf + seq(|buf|, _ => 0)
  }

  /** `buf[filled..filled + n]` overwritten by the `n` bytes just read. */
  function Place(buf: seq<byte>, filled: nat, got: seq<byte>): (r: seq<byte>)
    requires filled + |got| <= |buf|
    ensures |r| == |buf|
    ensures r[..filled + |got|] == buf[..filled] + got
  {
    buf[..filled] + got + buf[filled + |got|..]
  }

  /**
    What the pump keeps true between reads: the bytes still to be parsed
    (the unconsumed part of the buffer, then the rest of the stream) lead
    from `request` to where the whole stream leads from `Request::new`, and
    the buffered part alone moves the parser no further.
   */
  ghost predicate Pumping(request: Request, pending: seq<byte>, rest: seq<byte>, total: seq<byte>) {
    && Outcome(request, pending + rest) == Outcome(New(), total)
    && Parse(request, pending) == Ok((request, 0))
    && Valid(request)
  }

  lemma PumpStart(total: seq<byte>)
    ensures Pumping(New(), [], total, total)
  {
    ValidNew();
    assert [] + total == total;
  }

  /** One call of `Request::parse` on the buffer, and what it leaves behind. */
  lemma PumpParse(request: Request, pending: seq<byte>, rest: seq<byte>, total: seq<byte>)
    requires Outcome(request, pending + rest) == Outcome(New(), total)
    requires Valid(request)
    ensures Parse(request, pending).Err? ==> Outcome(New(), total) == Err(Parse(request, pending).error)
    ensures Parse(request, pending).Ok? ==>
              var (r1, consumed) := Parse(request, pending).value;
              Pumping(r1, pending[consumed..], rest, total)
  {
    ParseAppend(request, pending, rest);
    if Parse(request, pending).Ok? {
      ParseSettledTwice(request, pending);
      ParsePreservesValid(request, pending);
    }
  }

  /** Bytes just read move from the stream into the buffer. */
  lemma PumpRead(request: Request, pending: seq<byte>, got: seq<byte>, rest: seq<byte>, total: seq<byte>)
    requires Pumping(request, pending, got + rest, total)
    ensures Outcome(request, (pending + got) + rest) == Outcome(New(), total)
    ensures Valid(request)
  {
    assert pending + (got + rest) == (pending + got) + rest;
  }

  /** The pump stops: the request is done, or the stream has ended. */
  lemma PumpStop(request: Request, pending: seq<byte>, rest: seq<byte>, total: seq<byte>)
    requires Pumping(request, pending, rest, total)
    requires request.state == Done || rest == []
    ensures Outcome(New(), total) == Ok(request)
  {
    if rest == [] {
      assert pending + rest == pending;
    }
  }

  /**
    One call of `Request::parse` on the filled part of the buffer, then the
    unconsumed bytes slid to the front.
   */
  method ParseBuffered(request: Request, buf: seq<byte>, filled: nat, ghost rest: seq<byte>, ghost total: seq<byte>)
    returns (res: Result<(Request, seq<byte>, nat), ParseError>)
    requires filled <= |buf|
    requires Outcome(request, buf[..filled] + rest) == Outcome(New(), total)
    requires Valid(request)
    ensures res.Err? ==> Outcome(New(), total) == Err(res.error)
    ensures res.Ok? ==> var (r1, buf', filled') := res.value;
              |buf'| == |buf| && filled' <= filled && Pumping(r1, buf'[..filled'], rest, total)
  {
    var pending := buf[..filled];
    PumpParse(request, pending, rest, total);
    match Parse(request, pending)
    case Err(e) =>
      return Err(e);
    case Ok((r1, consumed)) =>
      var buf' := Slide(buf, filled, consumed);
      assert buf'[..filled - consumed] == pending[consumed..];
      return Ok((r1, buf', filled - consumed));
  }

  /**
    The pump's state between reads: the buffer holds `filled` unconsumed
    bytes, its capacity is a doubling of `BufferSize` and at most twice what
    has been delivered, and `Pumping` holds of what remains.
   */
  ghost predicate Buffered(request: Request, buf: seq<byte>, filled: nat, reader: Reader, total: seq<byte>) {
    && filled <= |buf| && IsDoubling(|buf|)
    && filled + |Stream(reader.chunks)| <= |total|
    && (|buf| == BufferSize || |buf| <= 2 * (|total| - |Stream(reader.chunks)|))
    && Pumping(request, buf[..filled], Stream(reader.chunks), total)
  }

  /** The outcome of one round of the pump loop. */
  datatype Round =
    | Continue(request: Request, buf: seq<byte>, filled: nat, reader: Reader)
    | Finished(res: Result<Request, ParseError>, capacity: nat)

  /**
    Make room and read: a full buffer doubles first, then the reader fills
    (part of) the free tail.
   */
  method Fill(buf: seq<byte>, filled: nat, reader: Reader) returns (buf': seq<byte>, got: seq<byte>, reader': Reader)
    requires filled <= |buf| && IsDoubling(|buf|)
    ensures IsDoubling(|buf'|) && filled + |got| <= |buf'|
    ensures |buf'| == |buf| || (filled >= |buf| && |buf'| == 2 * |buf|)
    ensures buf'[..filled + |got|] == buf[..filled] + got
    ensures |got| > 0 ==> Stream(reader.chunks) == got + Stream(reader'.chunks)
    ensures |got| == 0 <==> Stream(reader.chunks) == []
  {
    buf' := buf;
    if filled >= |buf| {
      DoublingGrows(|buf|);
      buf' := Grow(buf, filled);
    }
    ReadSplitsStream(reader, |buf'| - filled);
    got, reader' := Read(reader, |buf'| - filled).0, Read(reader, |buf'| - filled).1;
    buf' := Place(buf', filled, got);
  }

  /**
    `Fill` in the pump's terms: either the stream has ended and the request
    is final, or the newly buffered bytes and the rest of the stream still
    lead where the whole stream leads.
   */
  method FillPending(request: Request, buf: seq<byte>, filled: nat, reader: Reader, ghost total: seq<byte>)
    returns (buf': seq<byte>, filled': nat, reader': Reader)
    requires Buffered(request, buf, filled, reader, total)
    ensures filled' <= |buf'| && IsDoubling(|buf'|) && filled <= filled'
    ensures filled' + |Stream(reader'.chunks)| <= |total|
    ensures |buf'| == BufferSize || |buf'| <= 2 * (|total| - |Stream(reader'.chunks)|)
    ensures filled' == filled ==> Outcome(New(), total) == Ok(request)
    ensures filled' > filled ==> |Stream(reader'.chunks)| < |Stream(reader.chunks)|
    ensures filled' > filled ==> Outcome(request, buf'[..filled'] + Stream(reader'.chunks)) == Outcome(New(), total)
    ensures Valid(request)
  {
    var got, next;
    buf', got, next := Fill(buf, filled, reader);
    filled' := filled + |got|;
    if |got| == 0 {
      PumpStop(request, buf[..filled], Stream(reader.chunks), total);
      reader' := reader;
    } else {
      reader' := next;
      ghost var pending := buf'[..filled'];
      assert pending == buf[..filled] + got;
      PumpRead(request, buf[..filled], got, Stream(reader'.chunks), total);
      assert Outcome(request, pending + Stream(reader'.chunks)) == Outcome(New(), total);
    }
  }

  /**
    One round of the loop in `request_from_reader`: grow a full buffer,
    read into its free tail, stop on a zero-length read, otherwise parse
    what is buffered.
   */
  method PumpRound(request: Request, buf: seq<byte>, filled: nat, reader: Reader, ghost total: seq<byte>)
    returns (out: Round)
    requires request.state != Done
    requires Buffered(request, buf, filled, reader, total)
    ensures out.Continue? ==> Buffered(out.request, out.buf, out.filled, out.reader, total)
    ensures out.Continue? ==> |Stream(out.reader.chunks)| < |Stream(reader.chunks)|
    ensures out.Finished? ==> out.res == Outcome(New(), total)
    ensures out.Finished? && out.res.Ok? ==> Valid(out.res.value)
    ensures out.Finished? ==> IsDoubling(out.capacity)
    ensures out.Finished? ==> out.capacity == BufferSize || out.capacity <= 2 * |total|
  {
    var buf', filled', reader' := FillPending(request, buf, filled, reader, total);
    if filled' == filled {
      return Finished(Ok(request), |buf'|);
    }
    var step := ParseBuffered(request, buf', filled', Stream(reader'.chunks), total);
    match step
    case Err(e) =>
      return Finished(Err(e), |buf'|);
    case Ok((r1, buf'', filled'')) =>
      return Continue(r1, buf'', filled'', reader');
  }

  /**
    `request_from_reader`: the request parsed from the chunks, with the final
    buffer capacity.  The result is whatever parsing the delivered bytes in
    one piece gives, however the reader cuts them; the capacity starts at 8,
    only doubles, and stays within twice the bytes delivered.
   */
  method RequestFromReader(chunks: seq<seq<byte>>) returns (res: Result<Request, ParseError>, capacity: nat)
    ensures res == Outcome(New(), Stream(chunks))
    ensures res.Ok? ==> Valid(res.value)
    ensures IsDoubling(capacity)
    ensures capacity == BufferSize || capacity <= 2 * |Stream(chunks)|
  {
    ghost var total := Stream(chunks);
    var buf: seq<byte> := seq(BufferSize, _ => 0);
    var filled: nat := 0;
    var request := New();
    var reader := Reader(chunks);
    PumpStart(total);
    assert Doubled(0) == |buf| && buf[..filled] == [];
    while request.state != Done
      invariant Buffered(request, buf, filled, reader, total)
      decreases |Stream(reader.chunks)|
    {
      var out := PumpRound(request, buf, filled, reader, total);
      match out
      case Finished(r, c) =>
        return r, c;
      case Continue(r1, buf', filled', reader') =>
        request, buf, filled, reader := r1, buf', filled', reader';
    }
    PumpStop(request, buf[..filled], Stream(reader.chunks), total);
    return Ok(request), |buf|;
  }
}
