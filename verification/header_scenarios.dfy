/**
  The unit tests of src/http/headers.rs, restated as facts about the model.
  Each test lemma takes the test's text as a parameter pinned by its
  `requires`, and its `ensures` states what the test asserts.  The general
  lemmas they rest on describe one `Headers::parse` call on any plain line.
 */
module HeaderScenarios {
  import opened Wrappers
  import opened Bytes
  import opened Text
  import opened Errors
  import opened Headers

  /** ASCII text without CR: it encodes byte for byte and holds no line end. */
  predicate Plain(s: string) {
    IsAscii(s) && '\r' !in s
  }

  lemma PlainJoin(a: string, b: string)
    requires Plain(a) && Plain(b)
    ensures Plain(a + b)
  {
    forall i | 0 <= i < |a + b| ensures IsAsciiChar((a + b)[i]) && (a + b)[i] != '\r' {
      if i < |a| {
        assert (a + b)[i] == a[i];
      } else {
        assert (a + b)[i] == b[i - |a|];
      }
    }
  }

  /** The bytes before the line end. */
  lemma LineOf(e: seq<byte>, rest: seq<byte>)
    ensures (e + CRLF + rest)[..|e|] == e
  {
  }

  /** A plain line followed by CRLF: its end is the first CRLF, and its bytes decode back to it. */
  lemma PlainLineEnd(line: string, rest: seq<byte>)
    requires Plain(line)
    ensures |Encode(line)| == |line|
    ensures FindCRLF(Encode(line) + CRLF + rest) == Some(|line|)
    ensures Decode((Encode(line) + CRLF + rest)[..|line|]) == line
  {
    var e := Encode(line);
    EncodeNoCR(line);
    EncodeAscii(line);
    FindCRLFAfterLine(e, rest);
    LineOf(e, rest);
    DecodeEncode(line);
  }

  /** `Headers::parse` when the first line end follows a non-empty line. */
  lemma ParseAt(h: Table, data: seq<byte>, line: string)
    requires |line| > 0 && FindCRLF(data) == Some(|line|) && Decode(data[..|line|]) == line
    ensures ParseFieldLine(line).Err? ==> Headers.Parse(h, data) == Err(ParseFieldLine(line).error)
    ensures ParseFieldLine(line).Ok? ==>
              var field := ParseFieldLine(line).value;
              Headers.Parse(h, data) == Ok(Parsed(Coalesce(h, field.0, field.1), |line| + 2, false))
  {
  }

  /**
    One `Headers::parse` call on a non-empty plain line followed by CRLF:
    the line and its CRLF are consumed and the line's field is merged into
    the table, or the line's error is returned.
   */
  lemma ParseOneLine(h: Table, line: string, rest: seq<byte>)
    requires |line| > 0 && Plain(line)
    ensures ParseFieldLine(line).Err? ==>
              Headers.Parse(h, Encode(line) + CRLF + rest) == Err(ParseFieldLine(line).error)
    ensures ParseFieldLine(line).Ok? ==>
              var field := ParseFieldLine(line).value;
              Headers.Parse(h, Encode(line) + CRLF + rest) == Ok(Parsed(Coalesce(h, field.0, field.1), |line| + 2, false))
  {
    PlainLineEnd(line, rest);
    ParseAt(h, Encode(line) + CRLF + rest, line);
  }

  /** A field line `pad name ": " value post` parses to the lower-cased name and the value. */
  lemma FieldLineOf(line: string, pad: string, name: string, value: string, post: string)
    requires line == pad + name + ": " + value + post
    requires AllSpace(pad) && AllSpace(post) && Plain(pad) && Plain(post)
    requires IsFieldName(name) && IsTrimmed(value) && Plain(name) && Plain(value)
    ensures Plain(line) && |line| == |pad| + |name| + |value| + |post| + 2
    ensures ParseFieldLine(line) == Ok((Lower(name), value))
  {
    assert Plain(": ") && AllSpace(" ");
    PlainJoin(pad, name);
    PlainJoin(pad + name, ": ");
    PlainJoin(pad + name + ": ", value);
    PlainJoin(pad + name + ": " + value, post);
    assert line == pad + name + "" + ":" + " " + value + post;
    ParseFieldLineWellFormed(pad, name, "", " ", value, post);
  }

  /**
    One rendered entry followed by CRLF is read whole by `Headers::parse`
    and merges that same entry into the table the parser holds.
   */
  lemma RenderedLineParses(h: Table, key: string, value: string, rest: seq<byte>)
    requires IsFieldName(key) && Lower(key) == key
    requires IsTrimmed(value) && Plain(value)
    ensures var p := Headers.Parse(h, Encode(FieldLine(key, value)) + CRLF + rest);
            && p.Ok? && !p.value.done
            && p.value.table == Coalesce(h, key, value)
            && p.value.consumed == |key| + |value| + 4
  {
    var line := FieldLine(key, value);
    RenderedLineReads(key, value);
    ParseOneLine(h, line, rest);
  }

  /**
    One entry as the `Display` impl renders it, `k: v`, read back as a field
    line: a lower-case token key and a trimmed plain value come back as the
    same entry, and the line is plain, so `Headers::parse` reads it whole.
   */
  lemma RenderedLineReads(key: string, value: string)
    requires IsFieldName(key) && Lower(key) == key
    requires IsTrimmed(value) && Plain(value)
    ensures var line := FieldLine(key, value);
            && |line| == |key| + |value| + 2 && Plain(line)
            && ParseFieldLine(line) == Ok((key, value))
  {
    var line := FieldLine(key, value);
    FieldNameIsPlain(key);
    assert line == "" + key + ": " + value + "";
    FieldLineOf(line, "", key, value, "");
  }

  /** Lower-casing character by character. */
  lemma LowerIs(s: string, t: string)
    requires |s| == |t| && forall i :: 0 <= i < |s| ==> LowerChar(s[i]) == t[i]
    ensures Lower(s) == t
  {
  }

  /** A field line `name ": " value`, with `key` its lower-cased name. */
  lemma NamedField(line: string, name: string, value: string, key: string)
    requires line == name + ": " + value && key == Lower(name)
    requires IsFieldName(name) && IsTrimmed(value) && Plain(name) && Plain(value)
    ensures Plain(line) && |line| == |name| + |value| + 2
    ensures ParseFieldLine(line) == Ok((key, value))
  {
    assert line == "" + name + ": " + value + "";
    FieldLineOf(line, "", name, value, "");
  }

  /** Looking up a lower-case name looks up that very key. */
  lemma GetLowerCase(h: Table, name: string)
    requires forall i :: 0 <= i < |name| ==> !('A' <= name[i] <= 'Z')
    ensures Get(h, name) == if name in h then Some(h[name]) else None
  {
    LowerIs(name, name);
  }

  /** Token characters are plain, so field names are. */
  lemma FieldNameIsPlain(name: string)
    requires IsFieldName(name)
    ensures Plain(name)
  {
    forall i | 0 <= i < |name| ensures IsAsciiChar(name[i]) && name[i] != '\r' {
      assert IsTChar(name[i]);
    }
  }

  /** Trimming text that neither starts nor ends with white space leaves it as it is. */
  lemma TrimOfTrimmed(s: string)
    requires IsTrimmed(s)
    ensures Trim(s) == s
  {
    TrimPadded("", s, "");
    assert "" + s + "" == s;
  }

  // Facts about the texts of the tests, one per lemma: the solver checks
  // each literal character by character, and several such facts together
  // cost far more than each alone.

  lemma HostText(line: string)
    requires line == "Host: localhost:42069"
    ensures line == "Host" + ": " + "localhost:42069"
  {
  }

  lemma HostName()
    ensures IsFieldName("Host") && Plain("Host")
  {
    assert IsFieldName("Host");
    FieldNameIsPlain("Host");
  }

  lemma HostLower()
    ensures Lower("Host") == "host"
    ensures forall i :: 0 <= i < |"host"| ==> !('A' <= "host"[i] <= 'Z')
  {
    assert LowerChar('H') == 'h';
    LowerIs("Host", "host");
  }

  lemma HostValue()
    ensures IsTrimmed("localhost:42069") && Plain("localhost:42069")
  {
  }

  /** The `Host` line most tests use. */
  lemma HostField(line: string)
    requires line == "Host: localhost:42069"
    ensures Plain(line) && |line| == 21
    ensures ParseFieldLine(line) == Ok(("host", "localhost:42069"))
  {
    HostText(line);
    HostName();
    HostLower();
    HostValue();
    NamedField(line, "Host", "localhost:42069", "host");
  }

  lemma SetPersonText()
    ensures "Set-Person: " == "Set-Person" + ": "
  {
  }

  lemma SetPersonName()
    ensures IsFieldName("Set-Person") && Plain("Set-Person")
  {
    assert IsFieldName("Set-Person");
    FieldNameIsPlain("Set-Person");
  }

  lemma SetPersonLower()
    ensures Lower("Set-Person") == "set-person"
    ensures forall i :: 0 <= i < |"set-person"| ==> !('A' <= "set-person"[i] <= 'Z')
  {
    assert LowerChar('S') == 's' && LowerChar('P') == 'p';
    LowerIs("Set-Person", "set-person");
  }

  /** A `Set-Person` line with the given value. */
  lemma SetPersonField(value: string)
    requires IsTrimmed(value) && Plain(value)
    ensures Plain("Set-Person: " + value) && |"Set-Person: " + value| == |value| + 12
    ensures ParseFieldLine("Set-Person: " + value) == Ok(("set-person", value))
  {
    SetPersonText();
    SetPersonName();
    SetPersonLower();
    NamedField("Set-Person: " + value, "Set-Person", value, "set-person");
  }

  /** `test_valid_single_header`: 23 bytes consumed, not done, `host` readable. */
  lemma ValidSingleHeader(line: string)
    requires line == "Host: localhost:42069"
    ensures var r := Headers.Parse(map[], Encode(line) + CRLF + CRLF);
            && r.Ok? && r.value.consumed == 23 && !r.value.done
            && Len(r.value.table) > 0
            && Get(r.value.table, "host") == Some("localhost:42069")
  {
    HostField(line);
    ParseOneLine(map[], line, CRLF);
    HostLower();
    GetLowerCase(Coalesce(map[], "host", "localhost:42069"), "host");
  }

  lemma SpacingText(line: string)
    requires line == "       Host : localhost:42069       "
    ensures line == "       Host " + ":" + " localhost:42069       "
  {
  }

  lemma SpacingPlain(line: string)
    requires line == "       Host : localhost:42069       "
    ensures Plain(line)
  {
  }

  lemma SpacingName()
    ensures ':' !in "       Host "
  {
  }

  /** `test_headers_invalid_spacing`: a space before the colon is refused. */
  lemma InvalidSpacing(line: string)
    requires line == "       Host : localhost:42069       "
    ensures Headers.Parse(map[], Encode(line) + CRLF + CRLF) == Err(InvalidFormat(SpaceBeforeColon))
  {
    SpacingText(line);
    SpacingPlain(line);
    SpacingName();
    ParseFieldLineSpaceBeforeColon("       Host ", " localhost:42069       ");
    ParseOneLine(map[], line, CRLF);
  }

  lemma PaddedHostText(line: string)
    requires line == "          Host: localhost:42069    "
    ensures line == "          " + "Host" + ": " + "localhost:42069" + "    "
  {
  }

  lemma Padding()
    ensures AllSpace("          ") && AllSpace("    ") && Plain("          ") && Plain("    ")
  {
  }

  /** The padded `Host` line of the extra-whitespace test. */
  lemma PaddedHostField(line: string)
    requires line == "          Host: localhost:42069    "
    ensures Plain(line) && |line| == 35
    ensures ParseFieldLine(line) == Ok(("host", "localhost:42069"))
  {
    PaddedHostText(line);
    Padding();
    HostName();
    HostLower();
    HostValue();
    FieldLineOf(line, "          ", "Host", "localhost:42069", "    ");
  }

  /** `test_valid_single_header_with_extra_whitespace`: 37 bytes consumed, `host` readable. */
  lemma ExtraWhitespace(line: string)
    requires line == "          Host: localhost:42069    "
    ensures var r := Headers.Parse(map[], Encode(line) + CRLF + CRLF);
            && r.Ok? && r.value.consumed == 37
            && Get(r.value.table, "host") == Some("localhost:42069")
  {
    PaddedHostField(line);
    ParseOneLine(map[], line, CRLF);
    HostLower();
    GetLowerCase(Coalesce(map[], "host", "localhost:42069"), "host");
  }

  /** `test_valid_done`: the blank line consumes two bytes and ends the block. */
  lemma ValidDone()
    ensures Headers.Parse(map[], CRLF) == Ok(Parsed(map[], 2, true))
  {
    assert IsCRLFAt(CRLF, 0);
  }

  /** The host field next to the inserted one makes two entries. */
  lemma ExistingAndHost()
    ensures Len(Coalesce(Insert(map[], "existing", "value"), "host", "localhost:42069")) == 2
  {
    var t := Coalesce(Insert(map[], "existing", "value"), "host", "localhost:42069");
    assert t.Keys == {"existing", "host"};
    assert |t.Keys| == 2;
  }

  /** `test_valid_2_headers_with_existing_headers`: the parsed field joins the inserted one. */
  lemma TwoHeadersWithExisting(line: string)
    requires line == "Host: localhost:42069"
    ensures var r := Headers.Parse(Insert(map[], "existing", "value"), Encode(line) + CRLF + []);
            r.Ok? && Len(r.value.table) == 2 && !r.value.done
  {
    var h := Insert(map[], "existing", "value");
    HostField(line);
    ParseOneLine(h, line, []);
    ExistingAndHost();
  }

  lemma BadNameText(line: string)
    requires line == "H@st: localhost:42069"
    ensures line == "H@st" + ":" + " localhost:42069"
  {
  }

  lemma BadNamePlain(line: string)
    requires line == "H@st: localhost:42069"
    ensures Plain(line)
  {
  }

  lemma AtIsNotTChar()
    ensures !IsTChar('@')
  {
    var t := "!#$%&'*+-.^_`|~";
    assert forall i :: 0 <= i < |t| ==> t[i] != '@';
  }

  lemma BadNameNoColon()
    ensures ':' !in "H@st" && IsTrimmed("H@st")
  {
  }

  lemma BadName()
    ensures !IsFieldName("H@st")
  {
    AtIsNotTChar();
    assert "H@st"[1] == '@';
  }

  /** `test_invalid_chars_in_header`: `@` is not a token character. */
  lemma InvalidChars(line: string)
    requires line == "H@st: localhost:42069"
    ensures Headers.Parse(map[], Encode(line) + CRLF + []) == Err(InvalidFormat(Headers.InvalidChars))
  {
    BadNameText(line);
    BadNamePlain(line);
    BadNameNoColon();
    BadName();
    TrimOfTrimmed("H@st");
    ParseFieldLineInvalidName("H@st", " localhost:42069");
    ParseOneLine(map[], line, []);
  }

  lemma SpecialText(line: string)
    requires line == "x-custom-header!#$%&'*+-.^_`|~123: value"
    ensures line == "x-custom-header!#$%&'*+-.^_`|~123" + ": " + "value"
  {
  }

  lemma SpecialName(name: string)
    requires name == "x-custom-header!#$%&'*+-.^_`|~123"
    ensures IsFieldName(name)
  {
  }

  lemma SpecialLower(name: string)
    requires name == "x-custom-header!#$%&'*+-.^_`|~123"
    ensures forall i :: 0 <= i < |name| ==> !('A' <= name[i] <= 'Z')
  {
  }

  lemma PlainValue()
    ensures IsTrimmed("value") && Plain("value")
  {
  }

  /** `test_valid_special_characters`: every token character is accepted in a name. */
  lemma SpecialCharacters(line: string)
    requires line == "x-custom-header!#$%&'*+-.^_`|~123: value"
    ensures var r := Headers.Parse(map[], Encode(line) + CRLF + CRLF);
            && r.Ok? && !r.value.done
            && Get(r.value.table, "x-custom-header!#$%&'*+-.^_`|~123") == Some("value")
  {
    var name := "x-custom-header!#$%&'*+-.^_`|~123";
    SpecialText(line);
    SpecialName(name);
    FieldNameIsPlain(name);
    SpecialLower(name);
    PlainValue();
    LowerIs(name, name);
    NamedField(line, name, "value", name);
    ParseOneLine(map[], line, CRLF);
    GetLowerCase(Coalesce(map[], name, "value"), name);
  }

  lemma LaneValue()
    ensures IsTrimmed("lane-loves-go") && Plain("lane-loves-go")
  {
  }

  lemma PrimeValue()
    ensures IsTrimmed("prime-loves-zig") && Plain("prime-loves-zig")
  {
  }

  lemma TjValue()
    ensures IsTrimmed("tj-loves-ocaml") && Plain("tj-loves-ocaml")
  {
  }

  lemma LaneThenPrime()
    ensures "lane-loves-go" + ", " + "prime-loves-zig" == "lane-loves-go, prime-loves-zig"
  {
  }

  lemma ThenTj()
    ensures "lane-loves-go, prime-loves-zig" + ", " + "tj-loves-ocaml" == "lane-loves-go, prime-loves-zig, tj-loves-ocaml"
  {
  }

  /** `test_multiple_values_for_same_header`: a second value is appended after a comma. */
  lemma MultipleValues(value: string)
    requires value == "prime-loves-zig"
    ensures var r := Headers.Parse(Insert(map[], "set-person", "lane-loves-go"), Encode("Set-Person: " + value) + CRLF + []);
            && r.Ok? && !r.value.done
            && Get(r.value.table, "set-person") == Some("lane-loves-go, prime-loves-zig")
  {
    var h := Insert(map[], "set-person", "lane-loves-go");
    PrimeValue();
    SetPersonField(value);
    ParseOneLine(h, "Set-Person: " + value, []);
    SetPersonLower();
    GetLowerCase(Coalesce(h, "set-person", value), "set-person");
    LaneThenPrime();
  }

  /** One call on a `Set-Person` line adds its value to the `set-person` entry. */
  lemma SetPersonCall(h: Table, value: string)
    requires IsTrimmed(value) && Plain(value)
    ensures var r := Headers.Parse(h, Encode("Set-Person: " + value) + CRLF + []);
            && r.Ok? && !r.value.done
            && r.value.table == Coalesce(h, "set-person", value)
            && Get(r.value.table, "set-person") == Some(r.value.table["set-person"])
  {
    SetPersonField(value);
    ParseOneLine(h, "Set-Person: " + value, []);
    SetPersonLower();
    GetLowerCase(Coalesce(h, "set-person", value), "set-person");
  }

  /** `test_multiple_header_parsing_calls`: three calls build the comma-separated list in order. */
  lemma ThreeParsingCalls(v1: string, v2: string, v3: string)
    requires v1 == "lane-loves-go" && v2 == "prime-loves-zig" && v3 == "tj-loves-ocaml"
    ensures var r1 := Headers.Parse(map[], Encode("Set-Person: " + v1) + CRLF + []);
            && r1.Ok? && !r1.value.done
            && Get(r1.value.table, "set-person") == Some("lane-loves-go")
            && var r2 := Headers.Parse(r1.value.table, Encode("Set-Person: " + v2) + CRLF + []);
            && r2.Ok? && !r2.value.done
            && Get(r2.value.table, "set-person") == Some("lane-loves-go, prime-loves-zig")
            && var r3 := Headers.Parse(r2.value.table, Encode("Set-Person: " + v3) + CRLF + []);
            && r3.Ok? && !r3.value.done
            && Get(r3.value.table, "set-person") == Some("lane-loves-go, prime-loves-zig, tj-loves-ocaml")
  {
    LaneValue();
    PrimeValue();
    TjValue();
    var t1 := Coalesce(map[], "set-person", v1);
    var t2 := Coalesce(t1, "set-person", v2);
    SetPersonCall(map[], v1);
    SetPersonCall(t1, v2);
    SetPersonCall(t2, v3);
    LaneThenPrime();
    ThenTj();
  }
}
