/**
  Number formatting and parsing used on the wire: `usize::to_string`,
  `str::parse::<usize>` (Content-Length) and `{:X}` (chunk sizes).
 */
module Numbers {
  import opened Wrappers

  /** Largest value plus one of a 64-bit `usize`. */
  const UsizeLimit: nat := 0x1_0000_0000_0000_0000

  predicate IsDigit(c: char) {
    '0' <= c <= '9'
  }

  predicate AllDigits(s: string) {
    forall i :: 0 <= i < |s| ==> IsDigit(s[i])
  }

  /** The value of a decimal digit string, most significant digit first. */
  function DigitsValue(s: string): nat
    requires AllDigits(s)
  {
    if |s| == 0 then 0
    else DigitsValue(s[..|s| - 1]) * 10 + (s[|s| - 1] as int - '0' as int)
  }

  function DigitChar(d: nat): (c: char)
    requires d < 10
    ensures IsDigit(c) && c as int - '0' as int == d
  {
    ('0' as int + d) as char
  }

  /** `usize::to_string`: shortest decimal form of `n`. */
  function Decimal(n: nat): (s: string)
    ensures |s| >= 1 && AllDigits(s)
    ensures DigitsValue(s) == n
    ensures |s| > 1 ==> s[0] != '0'
  {
    if n < 10 then [DigitChar(n)]
    else
      var s := Decimal(n / 10) + [DigitChar(n % 10)];
      assert s[..|s| - 1] == Decimal(n / 10);
      s
  }

  /** A digit string in shortest form: non-empty, and no leading zero unless it is `0`. */
  predicate IsCanonical(s: string) {
    |s| >= 1 && AllDigits(s) && (|s| > 1 ==> s[0] != '0')
  }

  /** The shortest decimal form of a number is unique: it is what `to_string` writes. */
  lemma {:induction false} CanonicalIsDecimal(s: string)
    requires IsCanonical(s)
    ensures s == Decimal(DigitsValue(s))
    decreases |s|
  {
    if |s| > 1 {
      var init := s[..|s| - 1];
      assert init[0] == s[0];
      LeadingDigitPositive(init);
      CanonicalIsDecimal(init);
      assert s == init + [s[|s| - 1]];
    }
  }

  /** A digit string that does not start with `0` has a positive value. */
  lemma {:induction false} LeadingDigitPositive(s: string)
    requires |s| >= 1 && AllDigits(s) && s[0] != '0'
    ensures DigitsValue(s) >= 1
    decreases |s|
  {
    if |s| > 1 {
      var init := s[..|s| - 1];
      assert init[0] == s[0];
      LeadingDigitPositive(init);
    }
  }

  /**
    `str::parse::<usize>`: an optional `+`, then at least one decimal digit and
    nothing else, with a value that fits in 64 bits.
   */
  function ParseUsize(s: string): (r: Option<nat>)
    ensures r.Some? ==> r.value < UsizeLimit
    ensures r.Some? ==> |s| > 0 && (s[0] == '+' || IsDigit(s[0]))
    ensures r.Some? ==> forall i :: 0 < i < |s| ==> IsDigit(s[i])
  {
    if |s| == 0 then None
    else
      var digits := if s[0] == '+' then s[1..] else s;
      if |digits| == 0 || !AllDigits(digits) then None
      else if DigitsValue(digits) < UsizeLimit then Some(DigitsValue(digits))
      else None
  }

  /** Every `usize` written by `to_string` parses back to itself. */
  lemma ParseDecimal(n: nat)
    requires n < UsizeLimit
    ensures ParseUsize(Decimal(n)) == Some(n)
  {
  }

  /** Text containing a character that is neither a digit nor a leading `+` is not a `usize`. */
  lemma ParseUsizeRejects(s: string, i: nat)
    requires i < |s| && !IsDigit(s[i]) && !(i == 0 && s[0] == '+')
    ensures ParseUsize(s) == None
  {
  }

  /** A digit string of at most 64 bits is accepted with its value; a longer value is refused. */
  lemma ParseUsizeDigits(s: string)
    requires |s| > 0 && AllDigits(s)
    ensures ParseUsize(s) == if DigitsValue(s) < UsizeLimit then Some(DigitsValue(s)) else None
  {
    assert s[0] != '+';
  }

  /** A leading `+` before a digit is accepted and changes nothing. */
  lemma ParseUsizePlus(s: string)
    requires |s| > 0 && IsDigit(s[0])
    ensures ParseUsize("+" + s) == ParseUsize(s)
  {
    assert ("+" + s)[1..] == s;
  }

  /** A leading zero before a non-empty digit string is accepted and changes nothing. */
  lemma ParseUsizeLeadingZero(s: string)
    requires |s| > 0 && AllDigits(s)
    ensures ParseUsize("0" + s) == ParseUsize(s)
  {
    var z := "0" + s;
    assert AllDigits(z) by {
      forall i | 0 <= i < |z| ensures IsDigit(z[i]) {
        if i > 0 { assert z[i] == s[i - 1]; }
      }
    }
    LeadingZeroValue(s);
    ParseUsizeDigits(z);
    ParseUsizeDigits(s);
  }

  /** A leading zero does not change the value of a digit string. */
  lemma {:induction false} LeadingZeroValue(s: string)
    requires AllDigits(s) && AllDigits("0" + s)
    ensures DigitsValue("0" + s) == DigitsValue(s)
    decreases |s|
  {
    var z := "0" + s;
    if |s| == 0 {
      assert z[..0] == "";
    } else {
      var init := s[..|s| - 1];
      assert z[..|z| - 1] == "0" + init;
      assert z[|z| - 1] == s[|s| - 1];
      LeadingZeroValue(init);
    }
  }

  /** An upper-case hexadecimal digit, as `{:X}` writes it. */
  predicate IsUpperHexDigit(c: char) {
    '0' <= c <= '9' || 'A' <= c <= 'F'
  }

  /** The upper-case hexadecimal digit for `d`. */
  function HexDigitChar(d: nat): (c: char)
    requires d < 16
    ensures IsUpperHexDigit(c)
  {
    if d < 10 then ('0' as int + d) as char else ('A' as int + d - 10) as char
  }

  /** `format!("{:X}", n)`: upper-case hexadecimal, no leading zeros. */
  function Hex(n: nat): (s: string)
    ensures |s| >= 1
    ensures forall i :: 0 <= i < |s| ==> IsUpperHexDigit(s[i])
    ensures |s| > 1 ==> s[0] != '0'
  {
    if n < 16 then [HexDigitChar(n)] else Hex(n / 16) + [HexDigitChar(n % 16)]
  }

  /** The value of a hexadecimal digit of either case. */
  function HexDigitValue(c: char): (r: Option<nat>)
    ensures r.Some? ==> r.value < 16
  {
    if '0' <= c <= '9' then Some(c as int - '0' as int)
    else if 'A' <= c <= 'F' then Some(c as int - 'A' as int + 10)
    else if 'a' <= c <= 'f' then Some(c as int - 'a' as int + 10)
    else None
  }

  /** A chunk-size field: one or more hexadecimal digits and nothing else. */
  function ParseHex(s: string): (r: Option<nat>)
  {
    if |s| == 0 then None
    else if |s| == 1 then HexDigitValue(s[0])
    else
      var high := ParseHex(s[..|s| - 1]);
      var low := HexDigitValue(s[|s| - 1]);
      if high.Some? && low.Some? then Some(high.value * 16 + low.value) else None
  }

  /** Every chunk size written with `{:X}` reads back as the same number. */
  lemma {:induction false} ParseHexOfHex(n: nat)
    ensures ParseHex(Hex(n)) == Some(n)
  {
    if n >= 16 {
      var s := Hex(n);
      assert s[..|s| - 1] == Hex(n / 16);
      ParseHexOfHex(n / 16);
      assert HexDigitValue(s[|s| - 1]) == Some(n % 16);
    }
  }

  /** Zero is the only size written as the single digit `0`. */
  lemma HexZero(n: nat)
    ensures Hex(n) == "0" <==> n == 0
  {
    if n >= 16 {
      assert |Hex(n)| > 1;
    } else if n != 0 {
      assert Hex(n)[0] == HexDigitChar(n);
    }
  }
}
