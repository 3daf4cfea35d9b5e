/**
 `parse_buffer` and the parser that moves its offset: the loops of the source, proved to do
 what `Parsing` says, with every write into an unescaped string inside its allocation.
 */
module ParseBuffer {
  import opened Options
  import opened CString
  import opened Json
  import opened Utf8
  import opened Parsing

  // ---- Hexadecimal and UTF-8 ----

  /** `parse_hex4`, digit by digit. */
  method ReadHex4(s: string) returns (h: nat)
    requires |s| >= 4
    ensures h == Hex4(s)
  {
    hide HexValue;
    h := 0;
    var i := 0;
    while i < 4
      invariant 0 <= i <= 4
      invariant forall k | 0 <= k < i :: HexValue(s[k]).Some?
      invariant i == 0 ==> h == 0
      invariant i == 1 ==> h == HexValue(s[0]).value * 16
      invariant i == 2 ==> h == (HexValue(s[0]).value * 16 + HexValue(s[1]).value) * 16
      invariant i == 3 ==> h == ((HexValue(s[0]).value * 16 + HexValue(s[1]).value) * 16 + HexValue(s[2]).value) * 16
      invariant i == 4 ==> h == ((HexValue(s[0]).value * 16 + HexValue(s[1]).value) * 16 + HexValue(s[2]).value) * 16 + HexValue(s[3]).value
    {
      var digit := HexValue(s[i]);
      if digit.None? {
        return 0;
      }
      h := h + digit.value;
      if i < 3 {
        h := h * 16;
      }
      i := i + 1;
    }
  }

  /** `codepoint >>= 6`, some number of times. */
  function Shifted(c: nat, times: nat): nat {
    if times == 0 then c else Shifted(c, times - 1) / 64
  }

  function Length8(c: CodePoint): nat {
    if c < 0x80 then 1 else if c < 0x800 then 2 else if c < 0x10000 then 3 else 4
  }

  lemma EncodedBytes(c: CodePoint)
    ensures |Encode8(c)| == Length8(c)
    ensures forall i | 1 <= i < Length8(c) :: Encode8(c)[i] == Trail(Shifted(c, Length8(c) - 1 - i))
    ensures Encode8(c)[0] as int ==
            (if c < 0x80 then 0 else if c < 0x800 then 0xc0 else if c < 0x10000 then 0xe0 else 0xf0) + Shifted(c, Length8(c) - 1)
  {
    assert Shifted(c, 0) == c && Shifted(c, 1) == c / 64 && Shifted(c, 2) == c / 64 / 64 && Shifted(c, 3) == c / 64 / 64 / 64;
    hide Shifted, Trail, Lead;
  }

  lemma EncodedLength(c: CodePoint)
    ensures |Encode8(c)| <= 4 && (c < 0x10000 ==> |Encode8(c)| <= 3)
  {
  }

  /** The bytes of a code point, the last one first. */
  method PutUtf8(c: CodePoint, output: array<char>, at: nat)
    requires at + |Encode8(c)| <= output.Length
    modifies output
    ensures output[..at + |Encode8(c)|] == old(output[..at]) + Encode8(c)
  {
    hide Encode8;
    EncodedBytes(c);
    var length := Length8(c);
    var rest: nat := c;
    var position := length - 1;
    while position > 0
      invariant 0 <= position < length
      invariant rest == Shifted(c, length - 1 - position)
      invariant forall i | position < i < length :: output[at + i] == Encode8(c)[i]
      invariant output[..at] == old(output[..at])
    {
      output[at + position] := Trail(rest);
      rest := rest / 64;
      position := position - 1;
    }
    var mark := if length == 1 then 0 else if length == 2 then 0xc0 else if length == 3 then 0xe0 else 0xf0;
    output[at] := Lead(mark, rest);
    assert output[at] == Encode8(c)[0];
    var bytes := Encode8(c);
    forall i | 0 <= i < at + length ensures output[i] == (old(output[..at]) + bytes)[i] {
      if i < at {
        assert output[i] == output[..at][i];
      } else {
        assert output[at + (i - at)] == bytes[i - at];
      }
    }
  }

  // ---- Marks: where the first pass saw a backslash ----

  function Marks(m: seq<bool>): (n: nat)
    ensures n <= |m|
  {
    if m == [] then 0 else Marks(m[..|m| - 1]) + if m[|m| - 1] then 1 else 0
  }

  lemma MarksNext(m: seq<bool>, i: nat)
    requires i < |m|
    ensures Marks(m[..i + 1]) == Marks(m[..i]) + if m[i] then 1 else 0
  {
    assert m[..i + 1][..i] == m[..i];
  }

  /** No mark follows a mark directly, and marks stand only at backslashes. */
  ghost predicate Marked(m: seq<bool>, s: string) {
    && |m| <= |s|
    && (forall i | 0 <= i < |m| && m[i] :: s[i] == '\\')
    && (forall i | 0 < i < |m| :: Lone(m, i))
  }

  ghost predicate Lone(m: seq<bool>, i: nat)
    requires 0 < i < |m|
  {
    m[i] ==> !m[i - 1]
  }

  lemma MarksAppend(m: seq<bool>, b: bool)
    ensures Marks(m + [b]) == Marks(m) + if b then 1 else 0
  { }

  /** Of two neighbours at most one is marked, and a character that is no backslash is not. */
  lemma MarksOfPair(m: seq<bool>, s: string, i: nat)
    requires Marked(m, s) && i + 2 <= |m|
    ensures Marks(m[..i + 2]) <= Marks(m[..i]) + 1
    ensures s[i] != '\\' ==> Marks(m[..i + 1]) == Marks(m[..i])
    ensures s[i] != '\\' && s[i + 1] != '\\' ==> Marks(m[..i + 2]) == Marks(m[..i])
  {
    assert Lone(m, i + 1);
    MarksNext(m, i);
    MarksNext(m, i + 1);
  }

  lemma {:induction false} MarksWindow(m: seq<bool>, s: string, i: nat, pairs: nat)
    requires Marked(m, s) && i + 2 * pairs <= |m|
    ensures Marks(m[..i + 2 * pairs]) <= Marks(m[..i]) + pairs
    decreases pairs
  {
    if pairs > 0 {
      MarksOfPair(m, s, i);
      hide Marked;
      MarksWindow(m, s, i + 2, pairs - 1);
    }
  }

  /** Every position adds at least as much room as marks. */
  lemma {:induction false} Room(m: seq<bool>, i: nat)
    requires i <= |m|
    ensures i - Marks(m[..i]) <= |m| - Marks(m)
    decreases |m| - i
  {
    if i < |m| {
      MarksNext(m, i);
      Room(m, i + 1);
    } else {
      assert m[..i] == m;
    }
  }

  /** Like `Room`, when the last mark is off. */
  lemma RoomAtEnd(m: seq<bool>)
    requires m != [] && !m[|m| - 1]
    ensures Marks(m[..|m| - 1]) == Marks(m) && Marks(m[..|m|]) == Marks(m)
  {
    assert m[..|m|] == m;
  }

  // ---- Strings ----

  lemma CloseEnd(s: string)
    requires s == "" || s[0] == '\"'
    ensures ClosingQuote(s) == if s == "" then None else Some(0)
  {
  }

  lemma ShiftShift(a: nat, b: nat, q: Option<nat>)
    ensures Shift(a, Shift(b, q)) == Shift(a + b, q) && Shift(0, q) == q
  {
  }

  /** What the first pass has recorded: the last mark is off. */
  ghost predicate Recorded(m: seq<bool>, s: string) {
    Marked(m, s) && (m != [] ==> !m[|m| - 1])
  }

  lemma NothingMarked(s: string)
    ensures Recorded([], s) && Marks([]) == 0
  {
  }

  lemma MarkOne(m: seq<bool>, s: string, b: bool)
    requires Marked(m, s) && |m| < |s| && (b ==> s[|m|] == '\\' && (m != [] ==> !m[|m| - 1]))
    ensures Marked(m + [b], s) && Marks(m + [b]) == Marks(m) + if b then 1 else 0
  {
    hide Marks;
    MarksAppend(m, b);
    var n := m + [b];
    forall i | 0 < i < |n| ensures Lone(n, i) {
      if i < |m| { assert Lone(m, i); }
    }
  }

  lemma MarkEscape(m: seq<bool>, s: string)
    requires Recorded(m, s) && |m| + 1 < |s| && s[|m|] == '\\'
    ensures Recorded(m + [true, false], s) && Marks(m + [true, false]) == Marks(m) + 1
  {
    hide Marked, Marks;
    MarkOne(m, s, true);
    MarkOne(m + [true], s, false);
    assert m + [true] + [false] == m + [true, false];
  }

  lemma MarkPlain(m: seq<bool>, s: string)
    requires Recorded(m, s) && |m| < |s|
    ensures Recorded(m + [false], s) && Marks(m + [false]) == Marks(m)
  {
    hide Marked, Marks;
    MarkOne(m, s, false);
  }

  /** The first pass of `parse_string`: the closing quote, and how many escapes come before it. */
  method FindEnd(s: string) returns (found: bool, end: nat, skipped: nat, ghost m: seq<bool>)
    ensures found == ClosingQuote(s).Some?
    ensures found ==> end == ClosingQuote(s).value < |s| && s[end] == '\"'
    ensures found ==> |m| == end + 1 && Marked(m, s) && !m[end] && skipped == Marks(m)
  {
    hide ClosingQuote, Shift, Marked, Marks;
    NothingMarked(s);
    end, skipped, m := 0, 0, [];
    ShiftShift(0, 0, ClosingQuote(s));
    assert s[0..] == s;
    while end < |s| && s[end] != '\"'
      invariant end == |m| <= |s| && Recorded(m, s)
      invariant skipped == Marks(m)
      invariant ClosingQuote(s) == Shift(end, ClosingQuote(s[end..]))
      decreases |s| - end
    {
      CloseStep(s[end..]);
      if s[end] == '\\' {
        if end + 1 >= |s| {
          ShiftNone(end);
          return false, end, skipped, m;
        }
        MarkEscape(m, s);
        m := m + [true, false];
        ShiftShift(end, 2, ClosingQuote(s[end + 2..]));
        skipped := skipped + 1;
        end := end + 2;
      } else {
        MarkPlain(m, s);
        m := m + [false];
        ShiftShift(end, 1, ClosingQuote(s[end + 1..]));
        end := end + 1;
      }
    }
    CloseEnd(s[end..]);
    if end >= |s| {
      ShiftNone(end);
      return false, end, skipped, m;
    }
    ShiftSome(end);
    MarkPlain(m, s);
    m := m + [false];
    found := true;
  }

  lemma ShiftNone(n: nat)
    ensures Shift(n, None) == None
  {
  }

  lemma ShiftSome(n: nat)
    ensures Shift(n, Some(0)) == Some(n)
  {
  }

  /** The first half of `utf16_literal_to_utf8`; length 0 is failure. */
  method ReadUtf16(s: string, n: nat) returns (length: nat, codepoint: CodePoint)
    requires n < |s|
    ensures Utf16(s, n) == if length == 0 then None else Some(Utf8.Literal(codepoint, length))
  {
    hide Hex4;
    if n < 6 {
      return 0, 0;
    }
    var first := ReadHex4(s[2..]);
    if 0xdc00 <= first <= 0xdfff {
      return 0, 0;
    }
    if 0xd800 <= first <= 0xdbff {
      if n - 6 < 6 {
        return 0, 0;
      }
      if s[6] != '\\' || s[7] != 'u' {
        return 0, 0;
      }
      var second := ReadHex4(s[8..]);
      if second < 0xdc00 || second > 0xdfff {
        return 0, 0;
      }
      return 12, 0x10000 + (first % 0x400) * 0x400 + second % 0x400;
    }
    return 6, first;
  }

  /** One round of the second pass. */
  lemma UnescapeStep(s: string, at: nat, end: nat)
    requires at < end < |s|
    ensures var here := Unescape(s[at..], end - at);
            if s[at] != '\\' then here == Prepend([s[at]], Unescape(s[at + 1..], end - at - 1))
            else if s[at + 1] == 'u' then
              var literal := Utf16(s[at..], end - at);
              if literal.None? then here == Fail(s[at..])
              else
                var l := literal.value.length;
                at + l <= end && here == Prepend(Encode8(literal.value.codepoint), Unescape(s[at + l..], end - at - l))
            else
              var c := SimpleEscape(s[at + 1]);
              if c.None? then here == Fail(s[at..]) else here == Prepend([c.value], Unescape(s[at + 2..], end - at - 2))
  { }

  lemma UnescapeDone(s: string, n: int)
    requires n <= 0 && n < |s|
    ensures Unescape(s, n) == Ok("", s)
  {
  }

  lemma PrependTwice(a: string, b: string, r: Parsed<string>)
    ensures Prepend(a, Prepend(b, r)) == Prepend(a + b, r)
  {
    if r.Ok? { assert a + (b + r.value) == (a + b) + r.value; }
  }

  lemma PrependEnds(a: string, rest: string)
    ensures Prepend(a, Ok("", rest)) == Ok(a, rest) && Prepend(a, Fail(rest)) == Fail(rest)
    ensures forall r: Parsed<string> :: Prepend("", r) == r
  {
    assert a + "" == a;
    forall r: Parsed<string> ensures Prepend("", r) == r {
      if r.Ok? { assert "" + r.value == r.value; }
    }
  }

  /**
   The second pass, into an allocation of the raw length minus the skipped bytes, with one
   byte for the terminator.  No write leaves the allocation, whatever the literal looks like.
   */
  method UnescapeInto(s: string, end: nat, output: array<char>, ghost m: seq<bool>)
    returns (ok: bool, at: nat, written: nat)
    requires end < |s| && Marked(m, s) && |m| == end + 1 && !m[end]
    requires output.Length == end + 2 - Marks(m)
    modifies output
    ensures at <= |s| && ok == Unescape(s, end).Ok?
    ensures ok ==> written < output.Length && output[..written] == Unescape(s, end).value && output[written] == NUL
    ensures !ok ==> Unescape(s, end) == Fail(s[at..])
  {
    hide Unescape, Utf16, Encode8, SimpleEscape, Prepend, Marked, Marks;
    at, written := 0, 0;
    ghost var all := Unescape(s, end);
    ghost var out := "";
    PrependEnds("", s);
    assert s[0..] == s && output[..0] == "";
    while at < end
      invariant at <= end + 1
      invariant written + Marks(m[..at]) <= at
      invariant written <= output.Length && output[..written] == out
      invariant all == Prepend(out, Unescape(s[at..], end - at))
      decreases end - at
    {
      UnescapeStep(s, at, end);
      var more, literal := 1, 2;
      if s[at] != '\\' {
        PlainRoom(m, s, at, written);
        PrependTwice(out, [s[at]], Unescape(s[at + 1..], end - at - 1));
        Put(output, written, s[at]);
        out := out + [s[at]];
        written, at := written + 1, at + 1;
      } else if s[at + 1] == 'u' {
        var length, codepoint := ReadUtf16(s[at..], end - at);
        if length == 0 {
          PrependEnds(out, s[at..]);
          return false, at, written;
        }
        EncodedLength(codepoint);
        WideRoom(m, s, at, written, length, |Encode8(codepoint)|);
        PrependTwice(out, Encode8(codepoint), Unescape(s[at + length..], end - at - length));
        PutUtf8(codepoint, output, written);
        out := out + Encode8(codepoint);
        written, at := written + |Encode8(codepoint)|, at + length;
      } else {
        var c := SimpleEscape(s[at + 1]);
        if c.None? {
          PrependEnds(out, s[at..]);
          return false, at, written;
        }
        WideRoom(m, s, at, written, 2, 1);
        PrependTwice(out, [c.value], Unescape(s[at + 2..], end - at - 2));
        Put(output, written, c.value);
        out := out + [c.value];
        written, at := written + 1, at + 2;
      }
    }
    UnescapeDone(s[at..], end - at);
    PrependEnds(out, s[at..]);
    LastRoom(m, at, written);
    output[written] := NUL;
    ok := true;
  }

  /** `*output_pointer++ = c`. */
  method Put(output: array<char>, at: nat, c: char)
    requires at < output.Length
    modifies output
    ensures output[..at + 1] == old(output[..at]) + [c]
  {
    output[at] := c;
  }

  lemma PlainRoom(m: seq<bool>, s: string, at: nat, written: nat)
    requires Marked(m, s) && at + 1 <= |m| && s[at] != '\\' && written + Marks(m[..at]) <= at
    ensures written + 1 + Marks(m[..at + 1]) <= at + 1 && written + 1 <= |m| - Marks(m)
  {
    MarksNext(m, at);
    Room(m, at + 1);
  }

  lemma WideRoom(m: seq<bool>, s: string, at: nat, written: nat, length: nat, bytes: nat)
    requires Marked(m, s) && at + length <= |m| && written + Marks(m[..at]) <= at
    requires (length == 2 && bytes == 1) || (length == 6 && bytes <= 3) || (length == 12 && bytes <= 4)
    ensures written + bytes + Marks(m[..at + length]) <= at + length && written + bytes <= |m| - Marks(m)
  {
    hide Marked, Marks;
    MarksWindow(m, s, at, length / 2);
    assert 2 * (length / 2) == length;
    Room(m, at + length);
  }

  lemma LastRoom(m: seq<bool>, at: nat, written: nat)
    requires m != [] && !m[|m| - 1] && |m| - 1 <= at <= |m| && written + Marks(m[..at]) <= at
    ensures written + Marks(m) <= |m|
  {
    RoomAtEnd(m);
  }

  // ---- The buffer ----

  /** The rest of a loop's result, when `done` was read before. */
  ghost function After<T(!new)>(done: seq<T>, r: Parsed<seq<T>>): Parsed<seq<T>> {
    if r.Ok? then Ok(done + r.value, r.rest) else r
  }

  class ParseBuffer {
    const content: string
    var offset: nat
    var depth: nat
    /** Whether an allocation was refused. */
    var refused: bool

    constructor (content: string)
      requires Terminated(content)
      ensures Ready() && this.content == content && offset == 0 && depth == 0
    {
      this.content, offset, depth, refused := content, 0, 0, false;
    }

    ghost predicate Ready()
      reads this
    {
      Terminated(content) && offset < |content| && !refused
    }

    ghost function Rest(): (s: string)
      requires Ready()
      reads this
      ensures Terminated(s) && |s| == |content| - offset
    {
      content[offset..]
    }

    /** What follows the character at the offset. */
    ghost function Ahead(): (s: string)
      requires Ready() && offset + 1 < |content|
      reads this
      ensures Terminated(s)
    {
      content[offset + 1..]
    }

    /** Where a failed call leaves the offset. */
    ghost predicate At(rest: string)
      reads this
    {
      !refused && |rest| <= |content| && offset == |content| - |rest|
    }

    /** Nondeterministic: any allocation may be refused. */
    method Allocate() returns (ok: bool)
      modifies this`refused
      ensures refused == (old(refused) || !ok)
    {
      ok := *;
      refused := refused || !ok;
    }

    /** `buffer_skip_whitespace`; the terminator is skipped too, and stepped back onto. */
    method SkipWhitespace()
      requires Ready()
      modifies this`offset
      ensures Ready() && Rest() == Parsing.SkipWhitespace(old(Rest()))
    {
      ghost var s := Rest();
      while offset < |content| && content[offset] <= ' '
        invariant offset <= |content|
        invariant offset < |content| ==> Parsing.SkipWhitespace(s) == Parsing.SkipWhitespace(content[offset..])
        invariant offset == |content| ==> Parsing.SkipWhitespace(s) == [NUL]
        decreases |content| - offset
      {
        offset := offset + 1;
      }
      if offset == |content| {
        offset := offset - 1;
        assert content[offset..] == [NUL];
      } else {
        NoSpace(content[offset..]);
      }
    }

    /** `parse_number`: at most 63 characters are copied, and `strtod` decides how many count. */
    method ParseNumber() returns (ok: bool, item: Json)
      requires Ready()
      modifies this`offset
      ensures var r := Parsing.ParseNumber(old(Rest()));
              && ok == r.Ok?
              && (ok ==> item == r.value && Ready() && Rest() == r.rest)
              && (!ok ==> At(r.rest))
    {
      hide Strtod, NumberLength;
      ghost var s := Rest();
      var number := new char[64];
      var n := CopyNumber(content[offset..], number);
      var scanned := Strtod(number[..n]);
      item := Null;
      if scanned.used == 0 {
        return false, item;
      }
      var valueint: int;
      if scanned.value >= INT_MAX as real {
        valueint := INT_MAX;
      } else if scanned.value <= INT_MIN as real {
        valueint := INT_MIN;
      } else {
        valueint := Truncate(scanned.value);
      }
      item := Number(scanned.value, valueint);
      offset := offset + scanned.used;
      ok := true;
    }

    /** `parse_string`. */
    method ParseString() returns (ok: bool, text: string)
      requires Ready()
      modifies this`offset, this`refused
      ensures offset <= |content| && (refused ==> !ok)
      ensures !refused ==>
        var r := Parsing.ParseString(old(Rest()));
        && ok == r.Ok?
        && (ok ==> text == r.value && Ready() && Rest() == r.rest)
        && (!ok ==> At(r.rest))
    {
      hide ClosingQuote, Unescape, UpToNul, Marked, Marks, Parsing.ParseString;
      var start := offset + 1;
      StringRound(content, offset);
      text := "";
      if content[offset] != '\"' {
        offset := start;
        return false, text;
      }
      var found, end, skipped, m := FindEnd(content[start..]);
      if !found {
        offset := start;
        return false, text;
      }
      ok := Allocate();
      if !ok {
        offset := start;
        return;
      }
      var at;
      ok, text, at := ReadLiteral(content[start..], end, skipped, m);
      if !ok {
        offset := start + at;
        return;
      }
      offset := start + end + 1;
    }

    // ---- Values ----

    /** `parse_value`. */
    method ParseValue() returns (ok: bool, item: Json)
      requires Ready()
      modifies this
      ensures offset <= |content| && (refused ==> !ok)
      ensures !refused ==>
        var r := Parsing.ParseValue(old(Rest()), old(depth));
        && ok == r.Ok?
        && (ok ==> item == r.value && Ready() && Rest() == r.rest && depth == old(depth))
        && (!ok ==> At(r.rest))
      decreases |content| - offset, 2
    {
      hide StartsWith, Parsing.ParseNumber, Parsing.ParseString, Parsing.ParseArray, Parsing.ParseObject;
      item := Null;
      var text := content[offset..];
      if StartsWith(text, "null") {
        WordInside(text, "null");
        Move(4);
        return true, Null;
      }
      if StartsWith(text, "false") {
        WordInside(text, "false");
        Move(5);
        return true, False;
      }
      if StartsWith(text, "true") {
        WordInside(text, "true");
        Move(4);
        return true, True;
      }
      if content[offset] == '\"' {
        var s;
        ok, s := ParseString();
        item := String(s);
      } else if content[offset] == '-' || '0' <= content[offset] <= '9' {
        ok, item := ParseNumber();
      } else if content[offset] == '[' {
        ok, item := ParseArray();
      } else if content[offset] == '{' {
        ok, item := ParseObject();
      } else {
        ok := false;
      }
    }

    /** Over a literal name. */
    method Move(n: nat)
      requires Ready() && n < |Rest()|
      modifies this`offset
      ensures Ready() && Rest() == old(Rest()[n..])
    {
      offset := offset + n;
    }

    /** `parse_array`. */
    method ParseArray() returns (ok: bool, item: Json)
      requires Ready() && content[offset] == '['
      modifies this
      ensures offset <= |content| && (refused ==> !ok)
      ensures !refused ==>
        var r := Parsing.ParseArray(old(Rest()), old(depth));
        && ok == r.Ok?
        && (ok ==> item == r.value && Ready() && Rest() == r.rest && depth == old(depth))
        && (!ok ==> At(r.rest))
      decreases |content| - offset, 1
    {
      hide Parsing.ParseElements, Parsing.SkipWhitespace, Rest;
      item := Null;
      if depth >= NESTING_LIMIT {
        return false, item;
      }
      Enter();
      var items := [];
      if content[offset] != ']' {
        StepBack();
        ok, items := ParseElements();
        if !ok {
          return;
        }
      }
      Leave();
      ok, item := true, Array(items);
    }

    /** The loop over elements, from in front of one to the closing bracket. */
    method ParseElements() returns (ok: bool, items: seq<Json>)
      requires Ready() && offset + 1 < |content|
      modifies this
      ensures offset <= |content| && (refused ==> !ok)
      ensures !refused ==>
        var r := Parsing.ParseElements(Parsing.SkipWhitespace(old(Ahead())), old(depth));
        && ok == r.Ok?
        && (ok ==> items == r.value && Ready() && content[offset] == ']' && Rest()[1..] == r.rest && depth == old(depth))
        && (!ok ==> At(r.rest))
      decreases |content| - offset, 0
    {
      hide Rest, Ahead, At, Parsing.ParseElements, Parsing.SkipWhitespace, After;
      items := [];
      ghost var all := Parsing.ParseElements(Parsing.SkipWhitespace(Ahead()), depth);
      AfterNothing(all);
      var more := true;
      ok := true;
      while more
        invariant Ready() && ok && depth == old(depth) && offset >= old(offset)
        invariant more ==> offset + 1 < |content|
        invariant more ==>
          all == After(items, Parsing.ParseElements(Parsing.SkipWhitespace(Ahead()), depth))
        invariant !more ==> content[offset] == ']' && all == Ok(items, Rest()[1..])
        decreases more, |content| - offset
      {
        var item;
        ghost var here := Parsing.SkipWhitespace(Ahead());
        ok, more, item := ParseElement();
        if !ok {
          AfterEnds(items, item, Parsing.ParseElements(here, old(depth)).rest);
          return;
        }
        if more {
          AfterAfter(items, [item], Parsing.ParseElements(Parsing.SkipWhitespace(Ahead()), depth));
        } else {
          AfterEnds(items, item, Rest()[1..]);
        }
        items := items + [item];
      }
    }

    /** Onto the first character of what comes next. */
    method Next()
      requires Ready() && offset + 1 < |content|
      modifies this`offset
      ensures Ready() && offset > old(offset)
      ensures Rest() == Parsing.SkipWhitespace(old(Ahead()))
    {
      offset := offset + 1;
      SkipWhitespace();
    }

    /** A comma, or the closing bracket, or neither. */
    method Separator(close: char) returns (ok: bool, more: bool)
      requires Ready() && close != ','
      modifies this`offset
      ensures Ready() && offset >= old(offset) && Rest() == Parsing.SkipWhitespace(old(Rest()))
      ensures content[offset] == Rest()[0] && At(Rest())
      ensures more == (Rest()[0] == ',') && ok == (more || Rest()[0] == close)
      ensures more ==> offset + 1 < |content| && Rest()[1..] == Ahead()
    {
      SkipWhitespace();
      more := content[offset] == ',';
      ok := more || content[offset] == close;
    }

    /** One level deeper, over the opening bracket and onto what follows it. */
    method Enter()
      requires Ready() && offset + 1 < |content|
      modifies this`offset, this`depth
      ensures Ready() && offset > old(offset) && depth == old(depth) + 1
      ensures Rest() == Parsing.SkipWhitespace(old(Rest()[1..])) && content[offset] == Rest()[0]
      ensures Parsing.SkipWhitespace(Rest()) == Rest()
    {
      depth := depth + 1;
      SkipTwice(content[offset + 1..]);
      Next();
    }

    /** In front of what is there, where the loops start. */
    method StepBack()
      requires Ready() && offset > 0
      modifies this`offset
      ensures Ready() && offset == old(offset) - 1 && offset + 1 < |content| && Ahead() == old(Rest())
    {
      offset := offset - 1;
    }

    /** Over the closing bracket, one level up. */
    method Leave()
      requires Ready() && depth > 0 && offset + 1 < |content|
      modifies this`offset, this`depth
      ensures Ready() && depth == old(depth) - 1
      ensures Rest() == old(Rest()[1..]) && offset == old(offset) + 1
    {
      depth := depth - 1;
      Move(1);
    }

    /** One element with the separator or bracket behind it. */
    method ParseElement() returns (ok: bool, more: bool, item: Json)
      requires Ready() && offset + 1 < |content|
      modifies this
      ensures offset <= |content| && (refused ==> !ok)
      ensures !refused ==>
        var all := Parsing.ParseElements(Parsing.SkipWhitespace(old(Ahead())), old(depth));
        && (!ok ==> all.Fail? && At(all.rest))
        && (ok ==> Ready() && depth == old(depth) && offset > old(offset))
        && (ok && more ==> content[offset] == ',' && offset + 1 < |content|
                           && all == After([item], Parsing.ParseElements(Parsing.SkipWhitespace(Ahead()), depth)))
        && (ok && !more ==> content[offset] == ']' && all == Ok([item], Rest()[1..]))
      decreases |content| - offset, 0, 0
    {
      hide Rest, Ahead, At, Parsing.ParseElements, Parsing.SkipWhitespace, Parsing.ParseValue, After;
      more, item := false, Null;
      ok := Allocate();
      if !ok {
        return;
      }
      Next();
      ElementsRound(Rest(), depth);
      ok, item := ParseValue();
      if ok {
        ok, more := Separator(']');
      }
    }

    /** `parse_object`. */
    method ParseObject() returns (ok: bool, item: Json)
      requires Ready() && content[offset] == '{'
      modifies this
      ensures offset <= |content| && (refused ==> !ok)
      ensures !refused ==>
        var r := Parsing.ParseObject(old(Rest()), old(depth));
        && ok == r.Ok?
        && (ok ==> item == r.value && Ready() && Rest() == r.rest && depth == old(depth))
        && (!ok ==> At(r.rest))
      decreases |content| - offset, 1
    {
      hide Parsing.ParseMembers, Parsing.SkipWhitespace, Rest;
      item := Null;
      if depth >= NESTING_LIMIT {
        return false, item;
      }
      Enter();
      var members := [];
      if content[offset] != '}' {
        StepBack();
        ok, members := ParseMembers();
        if !ok {
          return;
        }
      }
      Leave();
      ok, item := true, Object(members);
    }

    /** A key, a colon and a value. */
    method ParseMember() returns (ok: bool, member: Member<Json>)
      requires Ready()
      modifies this
      ensures offset <= |content| && (refused ==> !ok)
      ensures !refused ==>
        var r := Parsing.ParseMember(old(Rest()), old(depth));
        && ok == r.Ok?
        && (ok ==> member == r.value && Ready() && Rest() == r.rest && depth == old(depth))
        && (!ok ==> At(r.rest))
      decreases |content| - offset, 3
    {
      hide Parsing.ParseString, Parsing.SkipWhitespace, Parsing.ParseValue, Rest, At;
      var key, value;
      member := Member("", Null);
      ok, key := ParseString();
      if !ok {
        return;
      }
      ok := Colon();
      if !ok {
        return;
      }
      ok, value := ParseValue();
      member := Member(key, value);
    }

    /** The colon and onto the value, or not past what stands there instead. */
    method Colon() returns (ok: bool)
      requires Ready()
      modifies this`offset
      ensures Ready() && offset >= old(offset)
      ensures var s := Parsing.SkipWhitespace(old(Rest()));
              && ok == (s[0] == ':')
              && (if ok then Rest() == Parsing.SkipWhitespace(s[1..]) else At(s))
    {
      SkipWhitespace();
      ok := content[offset] == ':';
      if ok {
        Move(1);
        SkipWhitespace();
      }
    }

    /** The loop over members, from in front of one to the closing bracket. */
    method ParseMembers() returns (ok: bool, members: seq<Member<Json>>)
      requires Ready() && offset + 1 < |content|
      modifies this
      ensures offset <= |content| && (refused ==> !ok)
      ensures !refused ==>
        var r := Parsing.ParseMembers(Parsing.SkipWhitespace(old(Ahead())), old(depth));
        && ok == r.Ok?
        && (ok ==> members == r.value && Ready() && content[offset] == '}' && Rest()[1..] == r.rest && depth == old(depth))
        && (!ok ==> At(r.rest))
      decreases |content| - offset, 0
    {
      hide Rest, Ahead, At, Parsing.ParseMembers, Parsing.SkipWhitespace, After;
      members := [];
      ghost var all := Parsing.ParseMembers(Parsing.SkipWhitespace(Ahead()), depth);
      AfterNothing(all);
      var more := true;
      ok := true;
      while more
        invariant Ready() && ok && depth == old(depth) && offset >= old(offset)
        invariant more ==> offset + 1 < |content|
        invariant more ==>
          all == After(members, Parsing.ParseMembers(Parsing.SkipWhitespace(Ahead()), depth))
        invariant !more ==> content[offset] == '}' && all == Ok(members, Rest()[1..])
        decreases more, |content| - offset
      {
        var member;
        ghost var here := Parsing.SkipWhitespace(Ahead());
        ok, more, member := ParseOneMember();
        if !ok {
          AfterEnds(members, member, Parsing.ParseMembers(here, old(depth)).rest);
          return;
        }
        if more {
          AfterAfter(members, [member], Parsing.ParseMembers(Parsing.SkipWhitespace(Ahead()), depth));
        } else {
          AfterEnds(members, member, Rest()[1..]);
        }
        members := members + [member];
      }
    }

    /** One member with the separator or bracket behind it. */
    method ParseOneMember() returns (ok: bool, more: bool, member: Member<Json>)
      requires Ready() && offset + 1 < |content|
      modifies this
      ensures offset <= |content| && (refused ==> !ok)
      ensures !refused ==>
        var all := Parsing.ParseMembers(Parsing.SkipWhitespace(old(Ahead())), old(depth));
        && (!ok ==> all.Fail? && At(all.rest))
        && (ok ==> Ready() && depth == old(depth) && offset > old(offset))
        && (ok && more ==> content[offset] == ',' && offset + 1 < |content|
                           && all == After([member], Parsing.ParseMembers(Parsing.SkipWhitespace(Ahead()), depth)))
        && (ok && !more ==> content[offset] == '}' && all == Ok([member], Rest()[1..]))
      decreases |content| - offset, 0, 0
    {
      hide Rest, Ahead, At, Parsing.ParseMembers, Parsing.SkipWhitespace, Parsing.ParseMember, After;
      more, member := false, Member("", Null);
      ok := Allocate();
      if !ok {
        return;
      }
      Next();
      MembersRound(Rest(), depth);
      ok, member := ParseMember();
      if ok {
        ok, more := Separator('}');
      }
    }
  }

  lemma {:induction false} SkipTwice(s: string)
    requires s != ""
    ensures Parsing.SkipWhitespace(Parsing.SkipWhitespace(s)) == Parsing.SkipWhitespace(s)
    decreases |s|
  {
    if |s| > 1 && s[0] <= ' ' {
      SkipTwice(s[1..]);
    }
  }

  lemma NumberLengthStep(s: string, i: nat)
    requires i <= |s| && i < 63
    ensures i < |s| && NumberChar(s[i]) ==> NumberLength(s[i..], 63 - i) == 1 + NumberLength(s[i + 1..], 62 - i)
    ensures i == |s| || !NumberChar(s[i]) ==> NumberLength(s[i..], 63 - i) == 0
  { }

  lemma NumberLengthFull(s: string)
    ensures NumberLength(s, 0) == 0
  {
  }

  /** The loop that copies the characters of a number. */
  method CopyNumber(s: string, number: array<char>) returns (n: nat)
    requires number.Length == 64
    modifies number
    ensures n == NumberLength(s, 63) && number[..n] == s[..n] && number[n] == NUL
  {
    hide NumberLength, NumberChar;
    n := 0;
    assert s[0..] == s;
    while n < 63 && n < |s| && NumberChar(s[n])
      invariant n <= 63 && n <= |s|
      invariant number[..n] == s[..n]
      invariant NumberLength(s, 63) == n + NumberLength(s[n..], 63 - n)
    {
      NumberLengthStep(s, n);
      number[n] := s[n];
      n := n + 1;
    }
    if n < 63 { NumberLengthStep(s, n); } else { NumberLengthFull(s[n..]); }
    number[n] := NUL;
  }

  /** A C string ends at its terminator, whatever lies behind it. */
  lemma {:induction false} UpToNulOf(v: string, rest: string)
    ensures UpToNul(v + [NUL] + rest) == UpToNul(v)
  {
    var s := v + [NUL] + rest;
    if v != "" {
      assert s[1..] == v[1..] + [NUL] + rest;
      UpToNulOf(v[1..], rest);
    }
  }

  lemma WordInside(s: string, word: string)
    requires Terminated(s) && StartsWith(s, word) && word != "" && word[|word| - 1] != NUL
    ensures |word| < |s|
  { }

  /** `parse_string` in terms of offsets. */
  lemma StringRound(content: string, offset: nat)
    requires Terminated(content) && offset < |content|
    ensures Terminated(content[offset..])
    ensures var all, body := Parsing.ParseString(content[offset..]), content[offset + 1..];
            if content[offset] != '\"' then all == Fail(body)
            else
              var end := ClosingQuote(body);
              if end.None? then all == Fail(body)
              else
                var text := Unescape(body, end.value);
                && offset + end.value + 2 < |content|
                && all == if text.Fail? then text else Ok(UpToNul(text.value), content[offset + end.value + 2..])
  {
    hide ClosingQuote, Unescape, UpToNul;
    var end := ClosingQuote(content[offset + 1..]);
  }

  /** The second pass into an allocation of its own; what it leaves there is a C string. */
  method ReadLiteral(s: string, end: nat, skipped: nat, ghost m: seq<bool>) returns (ok: bool, text: string, at: nat)
    requires end < |s| && Marked(m, s) && |m| == end + 1 && !m[end] && skipped == Marks(m)
    ensures at <= |s| && ok == Unescape(s, end).Ok?
    ensures ok ==> text == UpToNul(Unescape(s, end).value)
    ensures !ok ==> Unescape(s, end) == Fail(s[at..])
  {
    hide Unescape, UpToNul, Marked, Marks;
    RoomForAll(m);
    var output := new char[end + 2 - skipped];
    var written;
    ok, at, written := UnescapeInto(s, end, output, m);
    text := "";
    if ok {
      assert output[..] == output[..written] + [NUL] + output[written + 1..];
      UpToNulOf(output[..written], output[written + 1..]);
      text := UpToNul(output[..]);
    }
  }

  lemma RoomForAll(m: seq<bool>)
    ensures Marks(m) <= |m|
  {
  }

  // ---- Loops ----

  /** One round of the loop over elements. */
  lemma ElementsRound(s: string, depth: nat)
    requires Terminated(s)
    ensures var v, all := Parsing.ParseValue(s, depth), Parsing.ParseElements(s, depth);
            if v.Fail? then all == Fail(v.rest)
            else
              var after := Parsing.SkipWhitespace(v.rest);
              if after[0] == ',' then
                all == After([v.value], Parsing.ParseElements(Parsing.SkipWhitespace(after[1..]), depth))
              else if after[0] == ']' then all == Ok([v.value], after[1..])
              else all == Fail(after)
  { }

  lemma MembersRound(s: string, depth: nat)
    requires Terminated(s)
    ensures var m, all := Parsing.ParseMember(s, depth), Parsing.ParseMembers(s, depth);
            if m.Fail? then all == Fail(m.rest)
            else
              var after := Parsing.SkipWhitespace(m.rest);
              if after[0] == ',' then
                all == After([m.value], Parsing.ParseMembers(Parsing.SkipWhitespace(after[1..]), depth))
              else if after[0] == '}' then all == Ok([m.value], after[1..])
              else all == Fail(after)
  {
    hide Parsing.ParseMember, Parsing.SkipWhitespace;
  }

  lemma AfterAfter<T(!new)>(a: seq<T>, b: seq<T>, r: Parsed<seq<T>>)
    ensures After(a, After(b, r)) == After(a + b, r)
  {
    if r.Ok? { assert a + (b + r.value) == (a + b) + r.value; }
  }

  lemma AfterEnds<T(!new)>(done: seq<T>, last: T, rest: string)
    ensures After(done, Ok([last], rest)) == Ok(done + [last], rest)
    ensures After(done, Fail(rest)) == Fail(rest)
  {
  }

  lemma AfterNothing<T(!new)>(r: Parsed<seq<T>>)
    ensures After([], r) == r
  {
    if r.Ok? { assert [] + r.value == r.value; }
  }

  // ---- cJSON_ParseWithOpts ----

  /** `skip_utf8_bom`. */
  method SkipMark(p: ParseBuffer)
    requires p.Ready() && p.offset == 0
    modifies p`offset
    ensures p.Ready() && p.Rest() == SkipBom(p.content)
  {
    assert p.content[0..] == p.content;
    if |p.content| > 4 && p.content[..3] == "\U{EF}\U{BB}\U{BF}" {
      p.offset := 3;
    }
  }

  /** The body of `cJSON_ParseWithOpts`, once there is a root node. */
  method ParseRoot(p: ParseBuffer, requireEnd: bool) returns (ok: bool, item: Json)
    requires p.Ready() && p.offset == 0 && p.depth == 0
    modifies p
    ensures p.offset <= |p.content| && (p.refused ==> !ok)
    ensures !p.refused ==>
      var r := ParseContent(p.content, requireEnd);
      && ok == r.Ok?
      && (ok ==> item == r.value && p.offset < |p.content| && p.content[p.offset..] == r.rest)
      && (!ok ==> p.At(r.rest))
  {
    hide Parsing.ParseValue, Parsing.SkipWhitespace, SkipBom;
    SkipMark(p);
    p.SkipWhitespace();
    ok, item := p.ParseValue();
    if ok && requireEnd {
      p.SkipWhitespace();
      ok := p.content[p.offset] == NUL;
    }
  }

  /**
   `cJSON_ParseWithOpts` on a C string: unless an allocation is refused, the verdict, the
   tree and the position that are specified.  The position lies in the string or on its
   terminator in every case, refusal included.
   */
  method ParseWithOpts(text: string, requireEnd: bool)
    returns (ok: bool, item: Json, position: nat, refused: bool)
    ensures position <= |text| && (refused ==> !ok)
    ensures !refused ==>
      var r := Parse(text, requireEnd);
      && ok == r.Ok?
      && (ok ==> item == r.value && (text + [NUL])[position..] == r.rest)
      && (!ok ==> position == ErrorPosition(text, r.rest))
  {
    hide Parsing.ParseValue, Parsing.SkipWhitespace, SkipBom;
    item, position := Null, 0;
    var p := new ParseBuffer(text + [NUL]);
    ok := p.Allocate();
    if ok {
      ok, item := ParseRoot(p, requireEnd);
    }
    refused := p.refused;
    if ok || p.offset < |p.content| {
      position := p.offset;
    } else {
      position := |p.content| - 1;
    }
  }
}
