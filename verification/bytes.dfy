/**
  Bytes on the wire and the two conversions between bytes and text that the
  engine performs: decoding a received line (exact on ASCII, one character per
  byte) and UTF-8 encoding of the text the response writer emits.
 */
module Bytes {
  import opened Wrappers

  newtype byte = b: int | 0 <= b < 0x100

  const CR: byte := 13
  const LF: byte := 10
  const CRLF: seq<byte> := [CR, LF]

  /** `data[i..i+2]` is the two-byte line terminator `\r\n`. */
  predicate IsCRLFAt(data: seq<byte>, i: int) {
    0 <= i && i + 1 < |data| && data[i] == CR && data[i + 1] == LF
  }

  /** The first CRLF at or after `from`, scanning the two-byte windows left to right. */
  function FindCRLFFrom(data: seq<byte>, from: nat): (r: Option<nat>)
    decreases |data| - from
    ensures r.Some? ==> from <= r.value && IsCRLFAt(data, r.value)
    ensures r.Some? ==> forall j :: from <= j < r.value ==> !IsCRLFAt(data, j)
    ensures r.None? ==> forall j :: from <= j ==> !IsCRLFAt(data, j)
  {
    if from + 1 >= |data| then None
    else if data[from] == CR && data[from + 1] == LF then Some(from)
    else FindCRLFFrom(data, from + 1)
  }

  /** `data.windows(2).position(|w| w == b"\r\n")`: the offset of the first CRLF. */
  function FindCRLF(data: seq<byte>): (r: Option<nat>)
    ensures r.Some? ==> IsCRLFAt(data, r.value)
    ensures r.Some? ==> forall j :: 0 <= j < r.value ==> !IsCRLFAt(data, j)
    ensures r.None? ==> forall j :: 0 <= j ==> !IsCRLFAt(data, j)
  {
    FindCRLFFrom(data, 0)
  }

  /** A CRLF found in a prefix is still the first CRLF once more bytes arrive. */
  lemma FindCRLFExtend(a: seq<byte>, b: seq<byte>)
    requires FindCRLF(a).Some?
    ensures FindCRLF(a + b) == FindCRLF(a)
  {
    var i := FindCRLF(a).value;
    assert IsCRLFAt(a + b, i);
    var r := FindCRLF(a + b);
    if r.value < i {
      assert IsCRLFAt(a, r.value);
    }
  }

  /** A line free of CR bytes followed by CRLF ends exactly at that CRLF. */
  lemma FindCRLFAfterLine(line: seq<byte>, rest: seq<byte>)
    requires CR !in line
    ensures FindCRLF(line + CRLF + rest) == Some(|line|)
  {
    var d := line + CRLF + rest;
    assert IsCRLFAt(d, |line|);
    assert forall j :: 0 <= j < |line| ==> d[j] == line[j];
  }

  /** The byte, read as the character with the same code. */
  function ByteChar(b: byte): char {
    (b as int) as char
  }

  /**
    Received bytes as text, one character per byte.  On ASCII input this is
    what lossy UTF-8 decoding produces.
   */
  function Decode(bs: seq<byte>): (s: string)
    ensures |s| == |bs|
    ensures forall i :: 0 <= i < |bs| ==> s[i] as int == bs[i] as int
  {
    seq(|bs|, i requires 0 <= i < |bs| => ByteChar(bs[i]))
  }

  predicate IsAsciiChar(c: char) {
    c as int < 0x80
  }

  predicate IsAscii(s: string) {
    forall i :: 0 <= i < |s| ==> IsAsciiChar(s[i])
  }

  /** The UTF-8 encoding of one character. */
  function EncodeChar(c: char): (r: seq<byte>)
    ensures 1 <= |r| <= 4
    ensures IsAsciiChar(c) ==> r == [c as int as byte]
    ensures !IsAsciiChar(c) ==> forall i :: 0 <= i < |r| ==> r[i] >= 0x80
  {
    var n := c as int;
    if n < 0x80 then [n as byte]
    else if n < 0x800 then [(0xC0 + n / 0x40) as byte, (0x80 + n % 0x40) as byte]
    else if n < 0x1_0000 then
      [(0xE0 + n / 0x1000) as byte, (0x80 + (n / 0x40) % 0x40) as byte, (0x80 + n % 0x40) as byte]
    else
      [(0xF0 + n / 0x4_0000) as byte, (0x80 + (n / 0x1000) % 0x40) as byte,
       (0x80 + (n / 0x40) % 0x40) as byte, (0x80 + n % 0x40) as byte]
  }

  /** `String::as_bytes`: the UTF-8 encoding of a string. */
  function Encode(s: string): (r: seq<byte>)
    ensures |r| >= |s|
  {
    if |s| == 0 then [] else EncodeChar(s[0]) + Encode(s[1..])
  }

  lemma {:induction false} EncodeAppend(a: string, b: string)
    ensures Encode(a + b) == Encode(a) + Encode(b)
    decreases |a|
  {
    if |a| == 0 {
      assert a + b == b;
    } else {
      assert (a + b)[1..] == a[1..] + b;
      EncodeAppend(a[1..], b);
    }
  }

  /** ASCII text is encoded one byte per character, each byte equal to its code. */
  lemma {:induction false} EncodeAscii(s: string)
    requires IsAscii(s)
    ensures |Encode(s)| == |s|
    ensures forall i :: 0 <= i < |s| ==> Encode(s)[i] as int == s[i] as int
    decreases |s|
  {
    if |s| > 0 {
      EncodeAscii(s[1..]);
      assert Encode(s) == [s[0] as int as byte] + Encode(s[1..]);
      forall i | 0 <= i < |s|
        ensures Encode(s)[i] as int == s[i] as int
      {
        if i > 0 {
          assert Encode(s)[i] == Encode(s[1..])[i - 1];
        }
      }
    }
  }

  /** Decoding what the writer encoded gives back the text, for ASCII text. */
  lemma DecodeEncode(s: string)
    requires IsAscii(s)
    ensures Decode(Encode(s)) == s
  {
    EncodeAscii(s);
  }

  /** A string without CR characters encodes to bytes without CR. */
  lemma {:induction false} EncodeNoCR(s: string)
    requires '\r' !in s
    ensures CR !in Encode(s)
    decreases |s|
  {
    if |s| > 0 {
      assert s[0] != '\r';
      assert s[1..] <= s[1..];
      assert forall c :: c in s[1..] ==> c in s;
      EncodeNoCR(s[1..]);
    }
  }

  lemma EncodeCRLF()
    ensures Encode("\r\n") == CRLF
  {
    assert Encode("\r\n") == EncodeChar('\r') + Encode("\n");
  }
}
