/**
  The header table (src/http/headers.rs): a map from field name to value,
  its one-line-per-call parser and its wire rendering.
 */
module Headers {
  import opened Wrappers
  import opened Bytes
  import opened Text
  import opened Errors

  /** A header table.  Keys are unique; iteration order is not part of the value. */
  type Table = map<string, string>

  const NoColon := "no colon found"
  const SpaceBeforeColon := "found space between field_name and colon"
  const InvalidChars := "found invalid chars within field_name"

  /** `Headers::insert`: stores the key exactly as given, replacing any value under it. */
  function Insert(h: Table, key: string, value: string): (r: Table)
    ensures r.Keys == h.Keys + {key}
    ensures r[key] == value
    ensures forall k :: k in h && k != key ==> r[k] == h[k]
  {
    h[key := value]
  }

  /** `Headers::get`: looks the lower-cased name up; the stored keys are not folded. */
  function Get(h: Table, name: string): (r: Option<string>)
    ensures r.Some? <==> Lower(name) in h
    ensures r.Some? ==> r.value == h[Lower(name)]
  {
    if Lower(name) in h then Some(h[Lower(name)]) else None
  }

  /** `Headers::len`. */
  function Len(h: Table): nat {
    |h|
  }

  /** Lookup ignores the case of the query. */
  lemma GetIgnoresCase(h: Table, a: string, b: string)
    requires Lower(a) == Lower(b)
    ensures Get(h, a) == Get(h, b)
  {
  }

  /** A value inserted under a lower-case key is what `get` returns for any spelling of it. */
  lemma InsertThenGet(h: Table, key: string, value: string, query: string)
    requires Lower(query) == key
    ensures Get(Insert(h, key, value), query) == Some(value)
  {
  }

  /**
    A key inserted with an upper-case letter is invisible to `get`: the
    lookup after the insert answers as before it.
   */
  lemma InsertUpperCaseInvisible(h: Table, key: string, value: string)
    requires Lower(key) != key
    ensures Get(Insert(h, key, value), key) == Get(h, key)
  {
  }

  /** The token characters of section 5.6.2 of RFC 9110. */
  predicate IsTChar(c: char) {
    || 'A' <= c <= 'Z' || 'a' <= c <= 'z' || '0' <= c <= '9'
    || c in "!#$%&'*+-.^_`|~"
  }

  /** A field name: a non-empty token. */
  predicate IsFieldName(name: string) {
    |name| > 0 && forall i :: 0 <= i < |name| ==> IsTChar(name[i])
  }

  /** Token characters are never white space, colons or CR/LF. */
  lemma TCharIsNotDelimiter(c: char)
    requires IsTChar(c)
    ensures !IsSpace(c) && c != ':' && c != '\r' && c != '\n'
  {
  }

  /**
    Adds one parsed field: a new name is inserted, a repeated name gets the
    new value appended after `", "` (section 5.3 of RFC 9110).
   */
  function Coalesce(h: Table, key: string, value: string): (r: Table)
    ensures r.Keys == h.Keys + {key}
    ensures key in h ==> r[key] == h[key] + ", " + value
    ensures key !in h ==> r[key] == value
    ensures forall k :: k in h && k != key ==> r[k] == h[k]
    ensures |r| == if key in h then |h| else |h| + 1
  {
    if key in h then
      var r := h[key := h[key] + ", " + value];
      assert r.Keys == h.Keys;
      r
    else
      var r := h[key := value];
      assert r.Keys == h.Keys + {key};
      r
  }

  /**
    One field line without its CRLF: splits at the first colon and reads the
    two sides as a field.
   */
  function ParseFieldLine(line: string): (r: Result<(string, string), ParseError>)
    ensures r.Ok? ==> IsFieldName(r.value.0) && Lower(r.value.0) == r.value.0
    ensures r.Ok? ==> IsTrimmed(r.value.1)
    ensures r.Err? ==> r.error.InvalidFormat?
  {
    match IndexOf(line, ':')
    case None => Err(InvalidFormat(NoColon))
    case Some(colon) => ParseField(line[..colon], line[colon + 1..])
  }

  /**
    The two sides of a field line's first colon: refuses a name ending in a
    space, trims both sides, checks the name is a token and lower-cases it.
   */
  function ParseField(name: string, value: string): (r: Result<(string, string), ParseError>)
    ensures r.Ok? ==> IsFieldName(r.value.0) && Lower(r.value.0) == r.value.0
    ensures r.Ok? ==> IsTrimmed(r.value.1)
    ensures r.Err? ==> r.error.InvalidFormat?
  {
    if |name| > 0 && name[|name| - 1] == ' ' then Err(InvalidFormat(SpaceBeforeColon))
    else if !IsFieldName(Trim(name)) then Err(InvalidFormat(InvalidChars))
    else
      var key := Lower(Trim(name));
      assert IsFieldName(key) by {
        forall i | 0 <= i < |key| ensures IsTChar(key[i]) {
          assert IsTChar(Trim(name)[i]);
        }
      }
      LowerIdempotent(Trim(name));
      Ok((key, Trim(value)))
  }

  /** The result of one `Headers::parse` call. */
  datatype Parsed = Parsed(table: Table, consumed: nat, done: bool)

  /**
    `Headers::parse`: consumes at most one line.  No CRLF yet: nothing is
    consumed.  An empty line ends the header block.  Otherwise the line is
    parsed and merged into the table, and the line with its CRLF is consumed.
   */
  function Parse(h: Table, data: seq<byte>): (r: Result<Parsed, ParseError>)
    ensures FindCRLF(data).None? <==> r == Ok(Parsed(h, 0, false))
    ensures r.Ok? ==> r.value.consumed <= |data|
    ensures r.Ok? && r.value.done ==> r.value == Parsed(h, 2, true) && IsCRLFAt(data, 0)
    ensures IsCRLFAt(data, 0) ==> r == Ok(Parsed(h, 2, true))
    ensures r.Ok? && !r.value.done && r.value.consumed > 0 ==>
              && FindCRLF(data).Some?
              && r.value.consumed == FindCRLF(data).value + 2 >= 3
              && h.Keys <= r.value.table.Keys
              && |h| <= |r.value.table| <= |h| + 1
    ensures r.Err? ==> FindCRLF(data).Some? && r.error.InvalidFormat?
  {
    match FindCRLF(data)
    case None => Ok(Parsed(h, 0, false))
    case Some(lineEnd) =>
      if lineEnd == 0 then Ok(Parsed(h, 2, true))
      else match ParseFieldLine(Decode(data[..lineEnd]))
        case Err(e) => Err(e)
        case Ok((key, value)) =>
          Ok(Parsed(Coalesce(h, key, value), lineEnd + 2, false))
  }

  /**
    A non-empty line before the first CRLF decides the call: its error is
    returned, or its field is merged into the table and the line is
    consumed with its CRLF.
   */
  lemma ParseLine(h: Table, data: seq<byte>, lineEnd: nat)
    requires FindCRLF(data) == Some(lineEnd) && lineEnd > 0
    ensures var field := ParseFieldLine(Decode(data[..lineEnd]));
            && (Parse(h, data).Err? <==> field.Err?)
            && (field.Err? ==> Parse(h, data).error == field.error)
            && (field.Ok? ==> Parse(h, data) == Ok(Parsed(Coalesce(h, field.value.0, field.value.1), lineEnd + 2, false)))
  {
  }

  /**
    A field line `pad name gap ":" sep value post` with white-space padding,
    a token name, white space before the colon that does not end in a space
    (such as a tab), and a trimmed value parses to the lower-cased name and
    the value.
   */
  lemma ParseFieldLineWellFormed(pad: string, name: string, gap: string, sep: string, value: string, post: string)
    requires AllSpace(pad) && AllSpace(gap) && AllSpace(sep) && AllSpace(post)
    requires |gap| > 0 ==> gap[|gap| - 1] != ' '
    requires IsFieldName(name) && IsTrimmed(value)
    ensures ParseFieldLine(pad + name + gap + ":" + sep + value + post) == Ok((Lower(name), value))
  {
    var head := pad + name + gap;
    var tail := sep + value + post;
    assert pad + name + gap + ":" + sep + value + post == head + ":" + tail;
    HeadHasNoColon(pad, name, gap);
    if |gap| == 0 {
      assert head[|head| - 1] == name[|name| - 1];
      TCharIsNotDelimiter(name[|name| - 1]);
    } else {
      assert head[|head| - 1] == gap[|gap| - 1];
    }
    TrimPadded(pad, name, gap);
    TrimPadded(sep, value, post);
    ParseFieldLineAccepts(head, tail);
  }

  /**
    A line whose first colon ends `head`, where `head` does not end in a
    space and trims to a token, parses to that token lower-cased and the
    trimmed rest.
   */
  lemma ParseFieldLineAccepts(head: string, tail: string)
    requires ':' !in head && !(|head| > 0 && head[|head| - 1] == ' ')
    requires IsFieldName(Trim(head))
    ensures ParseFieldLine(head + ":" + tail) == Ok((Lower(Trim(head)), Trim(tail)))
  {
    FieldLineSplit(head, tail);
  }

  lemma HeadHasNoColon(pad: string, name: string, gap: string)
    requires AllSpace(pad) && IsFieldName(name) && AllSpace(gap)
    ensures ':' !in pad + name + gap
  {
    forall i | 0 <= i < |name| ensures name[i] != ':' {
      TCharIsNotDelimiter(name[i]);
    }
  }

  /** A line whose first colon ends `head` splits into `head` and `tail`. */
  lemma FieldLineSplit(head: string, tail: string)
    requires ':' !in head
    ensures IndexOf(head + ":" + tail, ':') == Some(|head|)
    ensures (head + ":" + tail)[..|head|] == head
    ensures (head + ":" + tail)[|head| + 1..] == tail
  {
    var line := head + ":" + tail;
    assert line[..|head|] == head;
    IndexOfFirst(line, ':', |head|);
  }

  /** A name that ends in a space before the colon is refused. */
  lemma ParseFieldLineSpaceBeforeColon(name: string, rest: string)
    requires ':' !in name && |name| > 0 && name[|name| - 1] == ' '
    ensures ParseFieldLine(name + ":" + rest) == Err(InvalidFormat(SpaceBeforeColon))
  {
    FieldLineSplit(name, rest);
  }

  /** A line without a colon is refused. */
  lemma ParseFieldLineNoColon(line: string)
    requires ':' !in line
    ensures ParseFieldLine(line) == Err(InvalidFormat(NoColon))
  {
  }

  /**
    A name that is not a token once trimmed (empty, or holding a character
    outside the token set) is refused when it does not end in a space.
   */
  lemma ParseFieldLineInvalidName(name: string, rest: string)
    requires ':' !in name && !(|name| > 0 && name[|name| - 1] == ' ')
    requires !IsFieldName(Trim(name))
    ensures ParseFieldLine(name + ":" + rest) == Err(InvalidFormat(InvalidChars))
  {
    FieldLineSplit(name, rest);
  }

  /**
    Values arriving under one name, one line at a time, are stored once as
    their `", "`-joined list in arrival order.
   */
  lemma {:induction false} CoalesceInOrder(h: Table, key: string, values: seq<string>)
    requires key !in h && |values| > 0
    ensures CoalesceAll(h, key, values)[key] == Join(values, ", ")
    ensures CoalesceAll(h, key, values).Keys == h.Keys + {key}
    decreases |values|
  {
    if |values| > 1 {
      var init := values[..|values| - 1];
      CoalesceInOrder(h, key, init);
      JoinSnoc(init, values[|values| - 1], ", ");
      assert init + [values[|values| - 1]] == values;
    }
  }

  /** The table after coalescing `values` under `key` one after another. */
  function CoalesceAll(h: Table, key: string, values: seq<string>): Table
    decreases |values|
  {
    if |values| == 0 then h
    else Coalesce(CoalesceAll(h, key, values[..|values| - 1]), key, values[|values| - 1])
  }

  lemma {:induction false} JoinSnoc(parts: seq<string>, last: string, sep: string)
    requires |parts| > 0
    ensures Join(parts + [last], sep) == Join(parts, sep) + sep + last
    decreases |parts|
  {
    if |parts| > 1 {
      assert (parts + [last])[1..] == parts[1..] + [last];
      JoinSnoc(parts[1..], last, sep);
    }
  }

  /** `order` lists every key of `h` exactly once: one possible iteration order of the map. */
  predicate IsOrder(order: seq<string>, h: Table) {
    && (forall i :: 0 <= i < |order| ==> order[i] in h)
    && (forall k :: k in h ==> k in order)
    && (forall i, j :: 0 <= i < j < |order| ==> order[i] != order[j])
  }

  /** One rendered entry, `k: v`. */
  function FieldLine(key: string, value: string): string {
    key + ": " + value
  }

  /** The entries named by `keys`, as rendered lines. */
  function FieldLines(h: Table, keys: seq<string>): (r: seq<string>)
    requires forall i :: 0 <= i < |keys| ==> keys[i] in h
    ensures |r| == |keys|
    ensures forall i :: 0 <= i < |keys| ==> r[i] == FieldLine(keys[i], h[keys[i]])
  {
    if |keys| == 0 then [] else FieldLines(h, keys[..|keys| - 1]) + [FieldLine(keys[|keys| - 1], h[keys[|keys| - 1]])]
  }

  /** `Display for Headers`: every entry as `k: v`, joined by CRLF, in iteration order. */
  function Render(h: Table, order: seq<string>): string
    requires IsOrder(order, h)
  {
    Join(FieldLines(h, order), "\r\n")
  }
}
