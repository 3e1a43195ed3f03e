/**
  The order the response writer enforces, stated as a grammar over the
  calls a handler makes:

    status-line  header-section  chunk*  ( body | last-chunk )  trailers*

  with `finish` allowed anywhere.  A run of calls against one writer keeps
  exactly the calls that extend a prefix of that language, rejects the
  others without writing anything, and leaves on the wire the frames of the
  kept calls in order.
 */
module Protocol {
  import opened Wrappers
  import opened Bytes
  import opened Headers
  import opened Response

  /** One call on a `Writer`. */
  datatype Op =
    | StatusCall(code: StatusCode)
    | HeadersCall(fields: Table, order: seq<string>)
    | BodyCall(body: seq<byte>)
    | ChunkCall(payload: seq<byte>)
    | ChunkDoneCall
    | TrailersCall(fields: Table, order: seq<string>)
    | FinishCall

  /** A header or trailer call comes with an iteration order of its table. */
  predicate WellFormed(op: Op) {
    (op.HeadersCall? || op.TrailersCall?) ==> IsOrder(op.order, op.fields)
  }

  predicate AllWellFormed(ops: seq<Op>) {
    forall i :: 0 <= i < |ops| ==> WellFormed(ops[i])
  }

  /** The bytes a call writes when the writer accepts it. */
  function Frame(op: Op): seq<byte>
    requires WellFormed(op)
  {
    match op
    case StatusCall(code) => StatusFrame(code)
    case HeadersCall(fields, order) => HeaderFrame(fields, order)
    case BodyCall(body) => body
    case ChunkCall(payload) => ChunkFrame(payload)
    case ChunkDoneCall => LastChunk
    case TrailersCall(fields, order) => TrailerFrame(fields, order)
    case FinishCall => CRLF
  }

  /** The call made on the writer: the writer afterwards, and whether the call succeeded. */
  function Apply(w: Writer, op: Op): (r: (Writer, bool))
    requires WellFormed(op)
    ensures !r.1 ==> r.0 == w
    ensures r.1 ==> r.0.wire == w.wire + Frame(op)
    ensures op.FinishCall? ==> r.1 && r.0.state == w.state
  {
    match op
    case StatusCall(code) => var x := WriteStatusLine(w, code); (x.writer, x.result.Ok?)
    case HeadersCall(fields, order) => var x := WriteHeaders(w, fields, order); (x.writer, x.result.Ok?)
    case BodyCall(body) => var x := WriteBody(w, body); (x.writer, x.result.Ok?)
    case ChunkCall(payload) => var x := WriteChunkedBody(w, payload); (x.writer, x.result.Ok?)
    case ChunkDoneCall => var x := WriteChunkedBodyDone(w); (x.writer, x.result.Ok?)
    case TrailersCall(fields, order) => var x := WriteTrailers(w, fields, order); (x.writer, x.result.Ok?)
    case FinishCall => var x := Finish(w); (x.writer, x.result.Ok?)
  }

  /** A writer and the calls it accepted so far, in order. */
  datatype Session = Session(writer: Writer, accepted: seq<Op>)

  /** A fresh writer given `ops` one after the other. */
  function Run(ops: seq<Op>): (s: Session)
    requires AllWellFormed(ops)
    decreases |ops|
    ensures |s.accepted| <= |ops|
    ensures AllWellFormed(s.accepted)
  {
    if |ops| == 0 then Session(NewWriter(), [])
    else
      var before := Run(ops[..|ops| - 1]);
      var op := ops[|ops| - 1];
      var (w, ok) := Apply(before.writer, op);
      Session(w, if ok then before.accepted + [op] else before.accepted)
  }

  /** The frames of `ops`, one after the other. */
  function Wire(ops: seq<Op>): seq<byte>
    requires AllWellFormed(ops)
    decreases |ops|
  {
    if |ops| == 0 then [] else Wire(ops[..|ops| - 1]) + Frame(ops[|ops| - 1])
  }

  /** The calls other than `finish`. */
  function Strip(ops: seq<Op>): (r: seq<Op>)
    decreases |ops|
    ensures forall i :: 0 <= i < |r| ==> !r[i].FinishCall?
  {
    if |ops| == 0 then []
    else if ops[|ops| - 1].FinishCall? then Strip(ops[..|ops| - 1])
    else Strip(ops[..|ops| - 1]) + [ops[|ops| - 1]]
  }

  // The grammar, read left to right.

  /** A prefix of a response: nothing yet, or a status line followed by the rest. */
  predicate Lang(s: seq<Op>) {
    |s| == 0 || (s[0].StatusCall? && AfterStatus(s[1..]))
  }

  /** After the status line: nothing yet, or the header section followed by the body part. */
  predicate AfterStatus(s: seq<Op>) {
    |s| == 0 || (s[0].HeadersCall? && InBody(s[1..]))
  }

  /** After the headers: chunks, then a body or the last chunk, then trailers. */
  predicate InBody(s: seq<Op>)
    decreases |s|
  {
    || |s| == 0
    || (s[0].ChunkCall? && InBody(s[1..]))
    || ((s[0].BodyCall? || s[0].ChunkDoneCall?) && AllTrailers(s[1..]))
  }

  predicate AllTrailers(s: seq<Op>) {
    forall i :: 0 <= i < |s| ==> s[i].TrailersCall?
  }

  /** Where a prefix of the language leaves the writer, read off its last call. */
  function Phase(s: seq<Op>): WriterState {
    if |s| == 0 then New
    else match s[|s| - 1]
      case StatusCall(_) => StatusWritten
      case HeadersCall(_, _) => HeadersWritten
      case ChunkCall(_) => HeadersWritten
      case _ => BodyWritten
  }

  /** The state check each `Writer` method makes before writing. */
  predicate Allowed(state: WriterState, op: Op) {
    match op
    case StatusCall(_) => state == New
    case HeadersCall(_, _) => state == StatusWritten
    case BodyCall(_) => state == HeadersWritten
    case ChunkCall(_) => state == HeadersWritten
    case ChunkDoneCall => state == HeadersWritten
    case TrailersCall(_, _) => state == BodyWritten
    case FinishCall => true
  }

  /** A call succeeds exactly when its state check passes; it then moves the writer to the phase it ends. */
  lemma ApplyAllowed(w: Writer, op: Op)
    requires WellFormed(op)
    ensures Apply(w, op).1 <==> Allowed(w.state, op)
    ensures Apply(w, op).1 && !op.FinishCall? ==> Apply(w, op).0.state == Phase([op])
  {
  }

  /** Everything after the headers is a chunk, a body, a last chunk or a trailer. */
  lemma {:induction false} InBodyCalls(s: seq<Op>)
    requires InBody(s)
    ensures forall i :: 0 <= i < |s| ==> s[i].ChunkCall? || s[i].BodyCall? || s[i].ChunkDoneCall? || s[i].TrailersCall?
    decreases |s|
  {
    if |s| > 0 && s[0].ChunkCall? {
      InBodyCalls(s[1..]);
      assert forall i :: 1 <= i < |s| ==> s[i] == s[1..][i - 1];
    }
  }

  /** A trailer section may follow trailers and nothing else. */
  lemma AllTrailersSnoc(s: seq<Op>, op: Op)
    requires AllTrailers(s)
    ensures AllTrailers(s + [op]) <==> op.TrailersCall?
  {
    assert (s + [op])[|s|] == op;
  }

  /**
    One more call keeps a body part in the grammar exactly when the writer
    is still in `HeadersWritten` (nothing yet, or only chunks) and the call
    is a chunk, a body or a last chunk, or when the body is closed and the
    call is a trailer section.
   */
  lemma {:induction false} InBodySnoc(s: seq<Op>, op: Op)
    requires InBody(s)
    ensures InBody(s + [op]) <==>
              if |s| == 0 || s[|s| - 1].ChunkCall? then op.ChunkCall? || op.BodyCall? || op.ChunkDoneCall?
              else op.TrailersCall?
    decreases |s|
  {
    var t := s + [op];
    if |s| == 0 {
      assert t[1..] == [];
    } else {
      assert t[0] == s[0] && t[1..] == s[1..] + [op];
      if s[0].ChunkCall? {
        InBodySnoc(s[1..], op);
        if |s| > 1 {
          assert s[1..][|s| - 2] == s[|s| - 1];
        }
      } else {
        AllTrailersSnoc(s[1..], op);
        if |s| > 1 {
          assert s[|s| - 1] == s[1..][|s| - 2];
        }
      }
    }
  }

  /** One more call keeps a prefix of the language exactly when the writer's state check lets it through. */
  lemma LangSnoc(s: seq<Op>, op: Op)
    requires Lang(s) && !op.FinishCall?
    ensures Lang(s + [op]) <==> Allowed(Phase(s), op)
  {
    var t := s + [op];
    if |s| == 0 {
      assert t[1..] == [];
    } else {
      assert t[0] == s[0] && t[1..] == s[1..] + [op];
      if |s| == 1 {
        assert t[1..][1..] == [];
      } else {
        var u := s[1..];
        assert u[0] == s[1] && u[1..] == s[2..];
        assert t[1..][0] == s[1] && t[1..][1..] == s[2..] + [op];
        InBodySnoc(s[2..], op);
        InBodyCalls(s[2..]);
        if |s| > 2 {
          assert s[|s| - 1] == s[2..][|s| - 3];
        }
      }
    }
  }

  /**
    A run of calls on a fresh writer: the calls it kept, with `finish`
    removed, form a prefix of the language; the writer's state is the phase
    that prefix ends in; and the wire holds the frames of the kept calls in
    order.
   */
  lemma {:induction false} RunInvariant(ops: seq<Op>)
    requires AllWellFormed(ops)
    ensures Lang(Strip(Run(ops).accepted))
    ensures Run(ops).writer.state == Phase(Strip(Run(ops).accepted))
    ensures Run(ops).writer.wire == Wire(Run(ops).accepted)
    decreases |ops|
  {
    if |ops| > 0 {
      var prefix := ops[..|ops| - 1];
      var op := ops[|ops| - 1];
      assert AllWellFormed(prefix);
      RunInvariant(prefix);
      StepInvariant(Run(prefix), op);
    }
  }

  /** The invariant of `RunInvariant` carried over one call. */
  lemma StepInvariant(before: Session, op: Op)
    requires AllWellFormed(before.accepted) && WellFormed(op)
    requires Lang(Strip(before.accepted))
    requires before.writer.state == Phase(Strip(before.accepted))
    requires before.writer.wire == Wire(before.accepted)
    ensures var (w, ok) := Apply(before.writer, op);
            var acc := if ok then before.accepted + [op] else before.accepted;
            AllWellFormed(acc) && Lang(Strip(acc)) && w.state == Phase(Strip(acc)) && w.wire == Wire(acc)
  {
    var (w, ok) := Apply(before.writer, op);
    var s := Strip(before.accepted);
    ApplyAllowed(before.writer, op);
    if ok {
      var acc := before.accepted + [op];
      assert acc[..|acc| - 1] == before.accepted;
      if !op.FinishCall? {
        LangSnoc(s, op);
        assert Strip(acc) == s + [op];
      }
    }
  }

  /**
    A call made after a run is kept exactly when it is `finish` or when it
    extends the kept calls to a longer prefix of the language; a call that
    is not kept changes nothing.
   */
  lemma RunAccepts(ops: seq<Op>, op: Op)
    requires AllWellFormed(ops) && WellFormed(op)
    ensures var before := Run(ops);
            var after := Run(ops + [op]);
            && (after.accepted == before.accepted + [op] <==> op.FinishCall? || Lang(Strip(before.accepted) + [op]))
            && (after.accepted == before.accepted <==> !(op.FinishCall? || Lang(Strip(before.accepted) + [op])))
            && (after.accepted == before.accepted ==> after.writer == before.writer)
  {
    var all := ops + [op];
    assert all[..|all| - 1] == ops && all[|all| - 1] == op;
    assert AllWellFormed(all);
    var before := Run(ops);
    RunInvariant(ops);
    ApplyAllowed(before.writer, op);
    if !op.FinishCall? {
      LangSnoc(Strip(before.accepted), op);
    }
    assert before.accepted + [op] != before.accepted by {
      assert |before.accepted + [op]| != |before.accepted|;
    }
  }
}
