/**
  Chunked transfer coding as the response writer produces it (section 7.1 of
  RFC 9112, without chunk extensions): a reference decoder for the frames of
  `write_chunked_body` and `write_chunked_body_done`, and the round trip
  between the two.
 */
module Chunked {
  import opened Wrappers
  import opened Bytes
  import opened Numbers
  import opened Response

  /** The payloads one after the other. */
  function Flatten(ps: seq<seq<byte>>): (r: seq<byte>)
    ensures |ps| > 0 ==> r == ps[0] + Flatten(ps[1..])
  {
    if |ps| == 0 then [] else ps[0] + Flatten(ps[1..])
  }

  /** The frames `write_chunked_body` emits for the payloads, in order. */
  function Frames(ps: seq<seq<byte>>): (r: seq<byte>)
    ensures |ps| > 0 ==> r == ChunkFrame(ps[0]) + Frames(ps[1..])
  {
    if |ps| == 0 then [] else ChunkFrame(ps[0]) + Frames(ps[1..])
  }

  /** What the front of a chunked body holds. */
  datatype Frame =
    | Malformed
      /** The zero-size line, and the bytes after it. */
    | Last(rest: seq<byte>)
      /** A chunk with a non-zero size, and the bytes after its closing CRLF. */
    | Chunk(payload: seq<byte>, next: seq<byte>)

  /**
    Reads the frame at the front of `data`: a size line in hexadecimal ended
    by CRLF, then for a non-zero size that many payload bytes and CRLF.
   */
  function NextFrame(data: seq<byte>): (f: Frame)
    ensures f.Chunk? ==> |f.payload| > 0 && |f.next| < |data|
    ensures f.Last? ==> |f.rest| < |data|
  {
    var i := FindCRLF(data);
    if i.None? then Malformed
    else
      var size := ParseHex(Decode(data[..i.value]));
      var start := i.value + 2;
      if size.None? then Malformed
      else if size.value == 0 then Last(data[start..])
      else if !IsCRLFAt(data, start + size.value) then Malformed
      else Chunk(data[start..start + size.value], data[start + size.value + 2..])
  }

  /** The payload bytes of a chunked body and the bytes after its zero-size line. */
  datatype Decoded = Decoded(body: seq<byte>, rest: seq<byte>)

  /**
    Reads a chunked body frame by frame up to the zero-size line, or gives
    `None` when the input is cut short or malformed.
   */
  function DecodeChunks(data: seq<byte>): (r: Option<Decoded>)
    decreases |data|
    ensures r.Some? ==> |r.value.rest| < |data|
  {
    match NextFrame(data)
    case Malformed => None
    case Last(rest) => Some(Decoded([], rest))
    case Chunk(p, next) => Prepend(p, DecodeChunks(next))
  }

  /** The decoding of what follows a frame, with the frame's payload in front. */
  function Prepend(p: seq<byte>, r: Option<Decoded>): (q: Option<Decoded>)
    ensures q.Some? <==> r.Some?
    ensures q.Some? ==> q.value.body == p + r.value.body && q.value.rest == r.value.rest
  {
    if r.None? then None else Some(Decoded(p + r.value.body, r.value.rest))
  }

  /** Upper-case hexadecimal is ASCII and contains no CR. */
  lemma HexIsPlain(n: nat)
    ensures IsAscii(Hex(n)) && '\r' !in Hex(n)
  {
  }

  /** The size line of a frame ends at its first CRLF and reads back as the size. */
  lemma SizeLineOf(n: nat, rest: seq<byte>)
    ensures Encode(Hex(n) + "\r\n") + rest == Encode(Hex(n)) + CRLF + rest
    ensures var e := Encode(Hex(n));
            && FindCRLF(e + CRLF + rest) == Some(|e|)
            && ParseHex(Decode((e + CRLF + rest)[..|e|])) == Some(n)
  {
    var e := Encode(Hex(n));
    HexIsPlain(n);
    EncodeAppend(Hex(n), "\r\n");
    EncodeCRLF();
    EncodeNoCR(Hex(n));
    FindCRLFAfterLine(e, rest);
    assert (e + CRLF + rest)[..|e|] == e;
    DecodeEncode(Hex(n));
    ParseHexOfHex(n);
  }

  /** Where the pieces of a frame sit in its bytes. */
  lemma FrameParts(e: seq<byte>, p: seq<byte>, rest: seq<byte>)
    ensures var data := e + CRLF + (p + CRLF + rest);
            var start := |e| + 2;
            && data[start..start + |p|] == p
            && IsCRLFAt(data, start + |p|)
            && data[start + |p| + 2..] == rest
  {
  }

  /** A frame written for a non-empty payload reads back as that payload. */
  lemma FrameOf(p: seq<byte>, rest: seq<byte>)
    requires |p| > 0
    ensures NextFrame(ChunkFrame(p) + rest) == Chunk(p, rest)
  {
    var e := Encode(Hex(|p|));
    var data := ChunkFrame(p) + rest;
    SizeLineOf(|p|, p + CRLF + rest);
    assert data == e + CRLF + (p + CRLF + rest);
    FrameParts(e, p, rest);
  }

  /** One frame with a non-empty payload decodes as that payload, followed by what the rest decodes to. */
  lemma ChunkStep(p: seq<byte>, rest: seq<byte>)
    requires |p| > 0
    ensures DecodeChunks(ChunkFrame(p) + rest) == Prepend(p, DecodeChunks(rest))
  {
    FrameOf(p, rest);
  }

  /** The last-chunk line ends the body and leaves what follows it. */
  lemma LastChunkEnds(tail: seq<byte>)
    ensures NextFrame(LastChunk + tail) == Last(tail)
    ensures DecodeChunks(LastChunk + tail) == Some(Decoded([], tail))
  {
    var data := LastChunk + tail;
    assert data == [0x30] + CRLF + tail;
    FindCRLFAfterLine([0x30], tail);
    assert data[..1] == [0x30];
    assert Decode([0x30]) == "0";
    assert data[3..] == tail;
  }

  /**
    Decoding the frames of non-empty payloads followed by the last-chunk line
    gives back the payloads joined together, and leaves the bytes that follow.
   */
  lemma {:induction false} DecodeFrames(ps: seq<seq<byte>>, tail: seq<byte>)
    requires forall i :: 0 <= i < |ps| ==> |ps[i]| > 0
    ensures DecodeChunks(Frames(ps) + LastChunk + tail) == Some(Decoded(Flatten(ps), tail))
    decreases |ps|
  {
    if |ps| == 0 {
      assert Frames(ps) + LastChunk + tail == LastChunk + tail;
      LastChunkEnds(tail);
    } else {
      DecodeFrames(ps[1..], tail);
      var rest := Frames(ps[1..]) + LastChunk + tail;
      Regroup(ChunkFrame(ps[0]), Frames(ps[1..]), LastChunk, tail);
      ChunkStep(ps[0], rest);
    }
  }

  /** Concatenation regrouped so that the first frame stands apart. */
  lemma Regroup(a: seq<byte>, b: seq<byte>, c: seq<byte>, d: seq<byte>)
    ensures a + b + c + d == a + (b + c + d)
  {
  }

  /**
    A frame with an empty payload is itself a last-chunk line: the body ends
    there, and everything after it is left over.
   */
  lemma EmptyChunkEnds(rest: seq<byte>)
    ensures ChunkFrame([]) + rest == LastChunk + (CRLF + rest)
    ensures DecodeChunks(ChunkFrame([]) + rest) == Some(Decoded([], CRLF + rest))
  {
    SizeLineOf(0, CRLF + rest);
    assert Hex(0) == "0";
    assert Encode("0") == [0x30];
    LastChunkEnds(CRLF + rest);
  }
}
