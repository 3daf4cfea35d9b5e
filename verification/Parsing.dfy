/**
 What the parser computes.  The input is the content of the buffer from the current offset
 on, so it always ends in the terminator; the offset is the length of what is gone.
 */
module Parsing {
  import opened Options
  import opened CString
  import opened Decimal
  import opened Json
  import opened Utf8

  datatype Parsed<T> = Ok(value: T, rest: string) | Fail(rest: string)

  /** From some offset to the end of a buffer that ends in the terminator. */
  predicate Terminated(s: string) {
    s != "" && s[|s| - 1] == NUL
  }

  /** `buffer_skip_whitespace`, which steps back from the end onto the terminator. */
  function SkipWhitespace(s: string): (r: string)
    requires s != ""
    ensures r != "" && |r| <= |s|
    ensures Terminated(s) ==> Terminated(r)
  {
    if |s| > 1 && s[0] <= ' ' then
      SkipWhitespace(s[1..])
    else s
  }

  lemma NoSpace(s: string)
    requires s != "" && s[0] > ' '
    ensures SkipWhitespace(s) == s
  {
  }

  // ---- Numbers ----

  predicate NumberChar(c: char) {
    IsDigit(c) || c == '+' || c == '-' || c == 'e' || c == 'E' || c == '.'
  }

  /** How many characters are copied for `strtod`: at most 63. */
  function NumberLength(s: string, limit: nat): (n: nat)
    ensures n <= |s| && n <= limit
    ensures forall i | 0 <= i < n :: NumberChar(s[i])
    ensures n < limit && n < |s| ==> !NumberChar(s[n])
  {
    if limit == 0 || s == "" || !NumberChar(s[0]) then 0 else 1 + NumberLength(s[1..], limit - 1)
  }

  function DigitRun(s: string): (n: nat)
    ensures n <= |s| && AllDigits(s[..n])
    ensures n < |s| ==> !IsDigit(s[n])
  {
    if s == "" || !IsDigit(s[0]) then 0
    else
      var n := 1 + DigitRun(s[1..]);
      assert s[..n] == [s[0]] + s[1..][..n - 1];
      n
  }

  function Pow10(e: int): real
    decreases if e < 0 then -e else e
  {
    if e == 0 then 1.0 else if e > 0 then 10.0 * Pow10(e - 1) else Pow10(e + 1) / 10.0
  }

  datatype Scanned = Scanned(value: real, used: nat)

  function SignLength(s: string): (n: nat)
    ensures n <= |s| && n <= 1
  {
    if s != "" && (s[0] == '-' || s[0] == '+') then 1 else 0
  }

  /** The exponent part at the start of `s`, if there is a complete one. */
  function Exponent(s: string): (r: (int, nat))
    ensures 0 <= r.1 <= |s|
  {
    if s == "" || (s[0] != 'e' && s[0] != 'E') then (0, 0)
    else
      var sign := SignLength(s[1..]);
      var n := DigitRun(s[1 + sign..]);
      if n == 0 then (0, 0)
      else
        var magnitude: int := Horner(0, s[1 + sign..][..n]);
        (if sign == 1 && s[1] == '-' then -magnitude else magnitude, 1 + sign + n)
  }

  /** Digits as a whole number, shifted by an exponent. */
  function Magnitude(digits: string, e: int): real
    requires AllDigits(digits)
  {
    Horner(0, digits) as real * Pow10(e)
  }

  /** `strtod` on digits, point and exponent, without rounding; nothing used is no number. */
  function Strtod(s: string): (r: Scanned)
    ensures r.used <= |s|
  {
    var sign := SignLength(s);
    var whole := DigitRun(s[sign..]);
    var afterWhole := s[sign + whole..];
    var point := afterWhole != "" && afterWhole[0] == '.';
    var fraction := if point then DigitRun(afterWhole[1..]) else 0;
    if whole + fraction == 0 then Scanned(0.0, 0)
    else
      var digits := s[sign..][..whole] + (if point then afterWhole[1..][..fraction] else "");
      var mantissa := sign + whole + (if point then 1 + fraction else 0);
      var (exponent, length) := Exponent(s[mantissa..]);
      var magnitude := Magnitude(digits, exponent - fraction);
      Scanned(if sign == 1 && s[0] == '-' then -magnitude else magnitude, mantissa + length)
  }

  function ParseNumber(s: string): (r: Parsed<Json>)
    requires Terminated(s)
    ensures |r.rest| <= |s|
    ensures r.Ok? ==> Terminated(r.rest) && |r.rest| < |s|
  {
    var n := NumberLength(s, 63);
    var scanned := Strtod(s[..n]);
    if scanned.used == 0 then Fail(s)
    else
      assert s[scanned.used - 1] != NUL;
      Ok(MakeNumber(scanned.value), s[scanned.used..])
  }

  // ---- Strings ----

  /** The first pass: how far it is to the closing quote, if there is one. */
  function ClosingQuote(s: string): (r: Option<nat>)
    ensures r.Some? ==> r.value < |s| && s[r.value] == '\"'
  {
    if s == "" then None
    else if s[0] == '\"' then Some(0)
    else if s[0] == '\\' then
      if |s| < 2 then None
      else
        var r := ClosingQuote(s[2..]);
        if r.None? then None else Some(2 + r.value)
    else
      var r := ClosingQuote(s[1..]);
      if r.None? then None else Some(1 + r.value)
  }

  /** A position `n` characters further on. */
  function Shift(n: nat, q: Option<nat>): Option<nat> {
    if q.None? then None else Some(n + q.value)
  }

  /** One round of the first pass. */
  lemma CloseStep(s: string)
    requires s != "" && s[0] != '\"'
    ensures s[0] == '\\' && |s| < 2 ==> ClosingQuote(s) == None
    ensures s[0] == '\\' && |s| >= 2 ==> ClosingQuote(s) == Shift(2, ClosingQuote(s[2..]))
    ensures s[0] != '\\' ==> ClosingQuote(s) == Shift(1, ClosingQuote(s[1..]))
  {
  }

  /** The one-character escapes. */
  function SimpleEscape(c: char): Option<char> {
    if c == 'b' then Some('\U{08}')
    else if c == 'f' then Some('\U{0C}')
    else if c == 'n' then Some('\n')
    else if c == 'r' then Some('\r')
    else if c == 't' then Some('\t')
    else if c == '\"' || c == '\\' || c == '/' then Some(c)
    else None
  }

  /**
   The second pass over `n` characters in front of the closing quote.  After a malformed
   \u it can be out of step with the first pass and end one character beyond.
   */
  function Unescape(s: string, n: int): (r: Parsed<string>)
    requires n < |s|
    ensures |r.rest| <= |s|
    decreases |s|
  {
    if n <= 0 then Ok("", s)
    else if s[0] != '\\' then Prepend([s[0]], Unescape(s[1..], n - 1))
    else if s[1] == 'u' then
      var literal := Utf16(s, n);
      if literal.None? then Fail(s)
      else
        var length := literal.value.length;
        Prepend(Encode8(literal.value.codepoint), Unescape(s[length..], n - length))
    else
      var c := SimpleEscape(s[1]);
      if c.None? then Fail(s) else Prepend([c.value], Unescape(s[2..], n - 2))
  }

  function Prepend(front: string, r: Parsed<string>): (p: Parsed<string>)
    ensures p.rest == r.rest
  {
    if r.Ok? then Ok(front + r.value, r.rest) else r
  }

  /** A C string ends at its first terminator. */
  function UpToNul(s: string): (r: string)
    ensures NulFree(r)
    ensures NulFree(s) ==> r == s
  {
    if s == "" || s[0] == NUL then "" else [s[0]] + UpToNul(s[1..])
  }

  function ParseString(s: string): (r: Parsed<string>)
    requires Terminated(s)
    ensures |r.rest| <= |s|
    ensures r.Ok? ==> Terminated(r.rest) && |r.rest| < |s|
  {
    var body := s[1..];
    if s[0] != '\"' then Fail(body)
    else
      var end := ClosingQuote(body);
      if end.None? then Fail(body)
      else
        var text := Unescape(body, end.value);
        if text.Fail? then text
        else
          assert body[end.value] != NUL;
          Ok(UpToNul(text.value), body[end.value + 1..])
  }

  // ---- Values ----

  const NESTING_LIMIT: nat := 1000

  predicate StartsWith(s: string, word: string) {
    |word| <= |s| && s[..|word|] == word
  }

  function ParseValue(s: string, depth: nat): (r: Parsed<Json>)
    requires Terminated(s)
    ensures |r.rest| <= |s|
    ensures r.Ok? ==> Terminated(r.rest) && |r.rest| < |s|
    decreases |s|, 1
  {
    if StartsWith(s, "null") then Word(s, 4, Null)
    else if StartsWith(s, "false") then Word(s, 5, False)
    else if StartsWith(s, "true") then Word(s, 4, True)
    else if s[0] == '\"' then
      var r := ParseString(s);
      if r.Ok? then Ok(String(r.value), r.rest) else Fail(r.rest)
    else if s[0] == '-' || IsDigit(s[0]) then ParseNumber(s)
    else if s[0] == '[' then ParseArray(s, depth)
    else if s[0] == '{' then ParseObject(s, depth)
    else Fail(s)
  }

  function Word(s: string, n: nat, value: Json): (r: Parsed<Json>)
    requires Terminated(s) && 0 < n <= |s| && s[n - 1] != NUL
    ensures |r.rest| <= |s|
    ensures r.Ok? ==> Terminated(r.rest) && |r.rest| < |s|
  {
    Ok(value, s[n..])
  }

  function ParseArray(s: string, depth: nat): (r: Parsed<Json>)
    requires Terminated(s) && s[0] == '['
    ensures |r.rest| <= |s|
    ensures r.Ok? ==> Terminated(r.rest) && |r.rest| < |s|
    decreases |s|, 0
  {
    if depth >= NESTING_LIMIT then Fail(s)
    else
      var first := SkipWhitespace(s[1..]);
      if first[0] == ']' then Ok(Array([]), first[1..])
      else
        var r := ParseElements(first, depth + 1);
        if r.Ok? then Ok(Array(r.value), r.rest) else Fail(r.rest)
  }

  /** The loop over elements, from the first character of one up to and including ']'. */
  function ParseElements(s: string, depth: nat): (r: Parsed<seq<Json>>)
    requires Terminated(s)
    ensures |r.rest| <= |s|
    ensures r.Ok? ==> Terminated(r.rest) && |r.rest| < |s|
    decreases |s|, 2
  {
    var v := ParseValue(s, depth);
    if v.Fail? then Fail(v.rest)
    else
      var after := SkipWhitespace(v.rest);
      if after[0] == ',' then
        var next := SkipWhitespace(after[1..]);
        var r := ParseElements(next, depth);
        if r.Ok? then Ok([v.value] + r.value, r.rest) else r
      else if after[0] == ']' then Ok([v.value], after[1..])
      else Fail(after)
  }

  function ParseObject(s: string, depth: nat): (r: Parsed<Json>)
    requires Terminated(s) && s[0] == '{'
    ensures |r.rest| <= |s|
    ensures r.Ok? ==> Terminated(r.rest) && |r.rest| < |s|
    decreases |s|, 0
  {
    if depth >= NESTING_LIMIT then Fail(s)
    else
      var first := SkipWhitespace(s[1..]);
      if first[0] == '}' then Ok(Object([]), first[1..])
      else
        var r := ParseMembers(first, depth + 1);
        if r.Ok? then Ok(Object(r.value), r.rest) else Fail(r.rest)
  }

  /** One member: its key, a colon, its value. */
  function ParseMember(s: string, depth: nat): (r: Parsed<Member<Json>>)
    requires Terminated(s)
    ensures |r.rest| <= |s|
    ensures r.Ok? ==> Terminated(r.rest) && |r.rest| < |s|
    decreases |s|, 2
  {
    var k := ParseString(s);
    if k.Fail? then Fail(k.rest)
    else
      var colon := SkipWhitespace(k.rest);
      if colon[0] != ':' then Fail(colon)
      else
        var start := SkipWhitespace(colon[1..]);
        var v := ParseValue(start, depth);
        if v.Ok? then Ok(Member(k.value, v.value), v.rest) else Fail(v.rest)
  }

  function ParseMembers(s: string, depth: nat): (r: Parsed<seq<Member<Json>>>)
    requires Terminated(s)
    ensures |r.rest| <= |s|
    ensures r.Ok? ==> Terminated(r.rest) && |r.rest| < |s|
    decreases |s|, 3
  {
    var m := ParseMember(s, depth);
    if m.Fail? then Fail(m.rest)
    else
      var after := SkipWhitespace(m.rest);
      if after[0] == ',' then
        var next := SkipWhitespace(after[1..]);
        var r := ParseMembers(next, depth);
        if r.Ok? then Ok([m.value] + r.value, r.rest) else r
      else if after[0] == '}' then Ok([m.value], after[1..])
      else Fail(after)
  }

  // ---- cJSON_ParseWithOpts ----

  function SkipBom(content: string): (r: string)
    requires Terminated(content)
    ensures Terminated(r) && |r| <= |content|
  {
    if |content| > 4 && content[..3] == "\U{EF}\U{BB}\U{BF}" then content[3..] else content
  }

  /** The tree and what follows it, or where parsing stopped. */
  function Parse(text: string, requireEnd: bool): (r: Parsed<Json>)
    ensures |r.rest| <= |text| + 1
  {
    ParseContent(text + [NUL], requireEnd)
  }

  /** The same on the content of the buffer, terminator included. */
  function ParseContent(content: string, requireEnd: bool): (r: Parsed<Json>)
    requires Terminated(content)
    ensures |r.rest| <= |content|
  {
    var start := SkipWhitespace(SkipBom(content));
    var r := ParseValue(start, 0);
    if r.Fail? || !requireEnd then r
    else
      var end := SkipWhitespace(r.rest);
      if end[0] == NUL then Ok(r.value, end) else Fail(end)
  }

  /** The error position: the offset, or the last index if the offset is at the very end. */
  function ErrorPosition(text: string, rest: string): (p: nat)
    requires |rest| <= |text| + 1
    ensures p <= |text|
  {
    var offset := |text| + 1 - |rest|;
    if offset < |text| + 1 then offset else |text|
  }
}
