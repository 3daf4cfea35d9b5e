/**
 Minifying does not change what the parser reads: the induction follows the parser through
 the original text and through the minified text at once.
 */
module MinifyParse {
  import opened Options
  import opened CString
  import opened Decimal
  import opened Json
  import opened Utf8
  import opened Parsing
  import opened Literals
  import opened RoundTrip
  import opened Minifying

  /** The rest of a buffer that holds one C string: the only NUL is the last character. */
  predicate Clean(s: string) {
    Terminated(s) && OnlyLast(s)
  }

  predicate OnlyLast(s: string) {
    forall i | 0 <= i < |s| - 1 :: s[i] != NUL
  }

  lemma CleanDrop(s: string, n: nat)
    requires Clean(s) && n < |s|
    ensures Clean(s[n..])
  {
  }

  lemma {:induction false} SkipClean(s: string)
    requires Clean(s)
    ensures Clean(SkipWhitespace(s))
    ensures SkipWhitespace(s)[0] > ' ' || SkipWhitespace(s) == [NUL]
    ensures s[0] <= ' ' || s[0] == SkipWhitespace(s)[0]
  {
    if |s| > 1 && s[0] <= ' ' {
      CleanDrop(s, 1);
      SkipClean(s[1..]);
    }
  }

  // ---- The rest after each construct is clean again ----

  lemma {:induction false} ValueClean(s: string, depth: nat)
    requires Clean(s) && ParseValue(s, depth).Ok?
    ensures Clean(ParseValue(s, depth).rest)
    decreases |s|, 1
  {
    hide OnlyLast, SkipWhitespace, ParseElements, ParseMembers, ParseString, ParseNumber, StartsWith;
    if s[0] == '[' {
      hide ParseValue;
      ArrayStep(s, depth);
      BracketTail(s);
      SkipClean(s[1..]);
      var first := SkipWhitespace(s[1..]);
      if first[0] == ']' {
        BracketTail(first);
      } else {
        ElementsClean(first, depth + 1);
      }
    } else if s[0] == '{' {
      hide ParseValue;
      ObjectStep(s, depth);
      BracketTail(s);
      SkipClean(s[1..]);
      var first := SkipWhitespace(s[1..]);
      if first[0] == '}' {
        BracketTail(first);
      } else {
        MembersClean(first, depth + 1);
      }
    } else {
      ScalarClean(s, depth);
    }
  }

  lemma BracketTail(s: string)
    requires Clean(s) && s[0] != NUL
    ensures s[1..] != "" && Clean(s[1..]) && Terminated(s[1..])
  {
  }

  lemma ScalarClean(s: string, depth: nat)
    requires Clean(s) && ParseValue(s, depth).Ok? && s[0] != '[' && s[0] != '{'
    ensures Clean(ParseValue(s, depth).rest)
  {
    var rest := ParseValue(s, depth).rest;
    var n: nat := |s| - |rest|;
    assert rest == s[n..] by {
      hide OnlyLast, ClosingQuote, Unescape, UpToNul, Strtod, NumberLength;
      if s[0] == '\"' { NoWord(s); StringRest(s); }
      hide StartsWith, ParseString;
    }
    CleanDrop(s, n);
  }

  lemma StringRest(s: string)
    requires Terminated(s) && ParseString(s).Ok?
    ensures var q := ClosingQuote(s[1..]); q.Some? && ParseString(s).rest == s[q.value + 2..]
    ensures s[0] == '\"'
  { }

  lemma StringClean(s: string)
    requires Clean(s) && ParseString(s).Ok?
    ensures Clean(ParseString(s).rest)
  { }

  lemma {:induction false} ElementsClean(s: string, depth: nat)
    requires Clean(s) && ParseElements(s, depth).Ok?
    ensures Clean(ParseElements(s, depth).rest)
    decreases |s|, 2
  {
    hide OnlyLast, SkipWhitespace, ParseValue;
    var v := ParseValue(s, depth);
    ValueClean(s, depth);
    SkipClean(v.rest);
    var after := SkipWhitespace(v.rest);
    BracketTail(after);
    if after[0] == ',' {
      SkipClean(after[1..]);
      ElementsClean(SkipWhitespace(after[1..]), depth);
    }
  }

  lemma {:induction false} MemberClean(s: string, depth: nat)
    requires Clean(s) && ParseMember(s, depth).Ok?
    ensures Clean(ParseMember(s, depth).rest)
    decreases |s|, 2
  {
    hide OnlyLast, SkipWhitespace, ParseValue, ParseString;
    var k := ParseString(s);
    StringClean(s);
    SkipClean(k.rest);
    var colon := SkipWhitespace(k.rest);
    BracketTail(colon);
    SkipClean(colon[1..]);
    ValueClean(SkipWhitespace(colon[1..]), depth);
  }

  lemma {:induction false} MembersClean(s: string, depth: nat)
    requires Clean(s) && ParseMembers(s, depth).Ok?
    ensures Clean(ParseMembers(s, depth).rest)
    decreases |s|, 3
  {
    hide OnlyLast, SkipWhitespace, ParseMember;
    var m := ParseMember(s, depth);
    MemberClean(s, depth);
    SkipClean(m.rest);
    var after := SkipWhitespace(m.rest);
    BracketTail(after);
    if after[0] == ',' {
      SkipClean(after[1..]);
      MembersClean(SkipWhitespace(after[1..]), depth);
    }
  }

  // ---- Space ----

  /** Minifying turns `s` into `m`, which the parser can start on without skipping. */
  ghost predicate Shrinks(s: string, m: string) {
    Minify(s) == Some(m) && Terminated(m) && m[0] == s[0] && (m[0] > ' ' || m == [NUL])
  }

  /** Minifying drops some of the space that the parser would skip. */
  lemma {:induction false} SkipMinified(s: string, m: string) returns (all: string)
    requires Clean(s) && Shrinks(SkipWhitespace(s), m)
    ensures Minify(s) == Some(all) && Terminated(all) && SkipWhitespace(all) == m
    ensures s[0] > ' ' || all[0] <= ' ' || all[0] == m[0]
    ensures s[0] <= ' ' || all[0] == s[0]
    decreases |s|
  {
    if |s| > 1 && s[0] <= ' ' {
      CleanDrop(s, 1);
      var tail := SkipMinified(s[1..], m);
      if Space(s[0]) {
        all := tail;
        TailStart(s[1..], all, m);
      } else {
        all := [s[0]] + tail;
        assert all[1..] == tail;
        TerminatedAppend([s[0]], tail);
      }
    } else {
      all := m;
    }
  }

  lemma TailStart(s: string, all: string, m: string)
    requires s != "" && all != "" && m != "" && SkipWhitespace(all) == m
    ensures all[0] <= ' ' || all[0] == m[0]
  {
  }

  /** A single character that is copied, in front of what is minified already. */
  lemma CopyHead(s: string, m: string)
    requires Clean(s) && Copied(s[0]) && s[0] > ' ' && Minify(s[1..]) == Some(m) && Terminated(m)
    ensures Shrinks(s, [s[0]] + m) && ([s[0]] + m)[1..] == m
  { }

  // ---- String literals ----

  /** The first pass does not look beyond the closing quote. */
  lemma {:induction false} CloseLocal(a: string, x: string, y: string)
    requires ClosingQuote(a + x).Some? && ClosingQuote(a + x).value < |a|
    ensures ClosingQuote(a + y) == ClosingQuote(a + x)
    decreases |a|
  {
    if a[0] == '\"' {
    } else if a[0] == '\\' {
      assert (a + x)[2..] == a[2..] + x && (a + y)[2..] == a[2..] + y;
      CloseLocal(a[2..], x, y);
    } else {
      assert (a + x)[1..] == a[1..] + x && (a + y)[1..] == a[1..] + y;
      CloseLocal(a[1..], x, y);
    }
  }

  lemma SliceLocal(a: string, x: string, y: string, n: nat)
    requires n <= |a|
    ensures (a + x)[n..] == a[n..] + x && (a + y)[n..] == a[n..] + y
  {
  }

  /** Neither does the second one, even when it is out of step. */
  lemma {:induction false} UnescapeLocal(a: string, x: string, y: string, n: int)
    requires n < |a|
    ensures var r, t := Unescape(a + x, n), Unescape(a + y, n);
            r.Ok? == t.Ok? && (r.Ok? ==> r.value == t.value)
    decreases |a|
  {
    if n <= 0 {
    } else if a[0] != '\\' {
      SliceLocal(a, x, y, 1);
      UnescapeLocal(a[1..], x, y, n - 1);
    } else if a[1] == 'u' {
      Utf16Local(a, x, y, n);
      var literal := Utf16(a + x, n);
      hide Utf16, Encode8;
      if literal.Some? {
        SliceLocal(a, x, y, literal.value.length);
        UnescapeLocal(a[literal.value.length..], x, y, n - literal.value.length);
      }
    } else {
      hide SimpleEscape;
      SliceLocal(a, x, y, 2);
      UnescapeLocal(a[2..], x, y, n - 2);
    }
  }

  lemma Hex4Local(a: string, x: string, y: string, n: nat)
    requires n + 4 <= |a|
    ensures Hex4((a + x)[n..]) == Hex4((a + y)[n..])
  { }

  lemma Utf16Local(a: string, x: string, y: string, n: int)
    requires n < |a|
    ensures Utf16(a + x, n) == Utf16(a + y, n)
  {
    hide Hex4;
    if n >= 6 {
      Hex4Local(a, x, y, 2);
      if n >= 12 {
        Hex4Local(a, x, y, 8);
        assert (a + x)[6] == (a + y)[6] && (a + x)[7] == (a + y)[7];
      }
    }
  }

  /** A string literal is kept character by character, and read the same. */
  lemma StringMinified(s: string, m: string) returns (all: string)
    requires Clean(s) && ParseString(s).Ok?
    requires Minify(ParseString(s).rest) == Some(m) && Terminated(m)
    ensures Shrinks(s, all) && all[0] == '\"'
    ensures ParseString(all) == Ok(ParseString(s).value, m)
  {
    hide ClosingQuote, Unescape, UpToNul, OnlyLast, Minify, ParseString;
    StringRest(s);
    var q := ClosingQuote(s[1..]).value;
    var a, rest := s[1..q + 2], s[q + 2..];
    LiteralParts(s, q);
    LiteralMinified(s);
    all := "\"" + a + m;
    TerminatedAppend("\"" + a, m);
    CloseLocal(a, rest, m);
    UnescapeLocal(a, rest, m, q);
    ParseParts(a, rest, q);
    ParseParts(a, m, q);
  }

  lemma LiteralParts(s: string, q: nat)
    requires s != "" && s[0] == '\"' && q + 2 <= |s|
    ensures var a, rest := s[1..q + 2], s[q + 2..];
            |a| == q + 1 && s == "\"" + a + rest && s[1..] == a + rest && s[..q + 2] == "\"" + a
  {
  }

  lemma LiteralMinified(s: string)
    requires Terminated(s) && s[0] == '\"' && ClosingQuote(s[1..]).Some?
    ensures var q := ClosingQuote(s[1..]).value; Minify(s) == Front(s[..q + 2], Minify(s[q + 2..]))
  { }

  /** `parse_string` on a literal that ends where `a` does. */
  lemma ParseParts(a: string, rest: string, q: nat)
    requires Terminated(rest) && |a| == q + 1 && ClosingQuote(a + rest) == Some(q)
    ensures Terminated("\"" + a + rest)
    ensures var t := Unescape(a + rest, q);
            ParseString("\"" + a + rest) == if t.Ok? then Ok(UpToNul(t.value), rest) else Fail(t.rest)
  {
    hide ClosingQuote, Unescape, UpToNul;
    TerminatedAppend("\"" + a, rest);
    assert ("\"" + a + rest)[1..] == a + rest;
    assert (a + rest)[q + 1..] == rest;
  }

  // ---- Values ----

  lemma NumberRest(s: string)
    requires Terminated(s) && ParseNumber(s).Ok? && !NumberChar(ParseNumber(s).rest[0])
    ensures var n: nat := |s| - |ParseNumber(s).rest|;
            && n <= 63 && s == s[..n] + ParseNumber(s).rest
            && (forall i | 0 <= i < n :: NumberChar(s[..n][i]))
            && 0 < n && Strtod(s[..n]).used == n && ParseNumber(s).value == MakeNumber(Strtod(s[..n]).value)
  {
    hide Strtod;
    var n := NumberLength(s, 63);
    var used := Strtod(s[..n]).used;
    assert s[used..][0] == s[used];
    hide NumberLength;
  }

  lemma NumberMinified(s: string, m: string) returns (all: string)
    requires Clean(s) && ParseNumber(s).Ok?
    requires var r := ParseNumber(s).rest; Minify(r) == Some(m) && Follows(r) && Follows(m)
    ensures Shrinks(s, all) && ParseNumber(all) == Ok(ParseNumber(s).value, m)
  {
    NumberRest(s);
    var r := ParseNumber(s).rest;
    var n: nat := |s| - |r|;
    var t := s[..n];
    hide Minify, Strtod, OnlyLast, NumberLength;
    all := t + m;
    TerminatedAppend(t, m);
    assert forall c | NumberChar(c) :: Copied(c) && c > ' ';
    CopiedFront(t, r);
    NumberLengthOf(t, m, 63);
    assert all[..n] == t && all[n..] == m;
  }

  lemma WordMinified(s: string, word: string, m: string)
    requires (word == "null") || (word == "false") || (word == "true")
    requires Clean(s) && StartsWith(s, word) && Minify(s[|word|..]) == Some(m) && Terminated(m)
    ensures Shrinks(s, word + m)
  {
    assert s == word + s[|word|..];
    CopiedFront(word, s[|word|..]);
    TerminatedAppend(word, m);
    hide Minify, OnlyLast;
  }

  /** How `parse_value` treats the other tokens. */
  lemma WordStep(s: string, word: string, value: Json, depth: nat)
    requires (word == "null" && value == Null) || (word == "false" && value == False) || (word == "true" && value == True)
    requires Terminated(s) && StartsWith(s, word)
    ensures ParseValue(s, depth) == Ok(value, s[|word|..])
  {
    assert s == word + s[|word|..];
    FirstOfWord(s, word);
    assert Terminated(s[|word|..]);
    WordParses(word, value, s[|word|..], depth);
    hide ParseValue;
  }

  lemma StringStep(s: string, depth: nat)
    requires Terminated(s) && s[0] == '\"'
    ensures var r := ParseString(s); ParseValue(s, depth) == if r.Ok? then Ok(String(r.value), r.rest) else Fail(r.rest)
  {
    NoWord(s);
    hide ParseString, StartsWith;
  }

  lemma NumberStep(s: string, depth: nat)
    requires Terminated(s) && (s[0] == '-' || IsDigit(s[0]))
    ensures ParseValue(s, depth) == ParseNumber(s)
  {
    NoWord(s);
    hide ParseNumber, StartsWith;
  }

  /** Every value starts in one of these ways. */
  lemma ValueKinds(s: string, depth: nat)
    requires Terminated(s) && ParseValue(s, depth).Ok?
    ensures StartsWith(s, "null") || StartsWith(s, "false") || StartsWith(s, "true") ||
            s[0] == '\"' || s[0] == '-' || IsDigit(s[0]) || s[0] == '[' || s[0] == '{'
  { }

  lemma {:induction false} ValueMinified(s: string, depth: nat, m: string) returns (all: string)
    requires Clean(s) && ParseValue(s, depth).Ok?
    requires var r := ParseValue(s, depth).rest; Minify(r) == Some(m) && Follows(r) && Follows(m)
    ensures Shrinks(s, all) && ParseValue(all, depth) == Ok(ParseValue(s, depth).value, m)
    decreases |s|, 1
  {
    hide OnlyLast, Minify, ParseValue, ParseString, ParseNumber, ParseElements, ParseMembers, SkipWhitespace, StartsWith;
    ValueKinds(s, depth);
    if StartsWith(s, "null") {
      all := WordCase(s, "null", Null, depth, m);
    } else if StartsWith(s, "false") {
      all := WordCase(s, "false", False, depth, m);
    } else if StartsWith(s, "true") {
      all := WordCase(s, "true", True, depth, m);
    } else if s[0] == '\"' {
      StringStep(s, depth);
      all := StringMinified(s, m);
      StringStep(all, depth);
    } else if s[0] == '-' || IsDigit(s[0]) {
      NumberStep(s, depth);
      all := NumberMinified(s, m);
      NumberStep(all, depth);
    } else if s[0] == '[' {
      all := ArrayMinified(s, depth, m);
    } else {
      all := ObjectMinified(s, depth, m);
    }
  }

  lemma WordCase(s: string, word: string, value: Json, depth: nat, m: string) returns (all: string)
    requires (word == "null" && value == Null) || (word == "false" && value == False) || (word == "true" && value == True)
    requires Clean(s) && StartsWith(s, word) && ParseValue(s, depth).Ok?
    requires Minify(ParseValue(s, depth).rest) == Some(m) && Terminated(m)
    ensures Shrinks(s, all) && ParseValue(all, depth) == Ok(ParseValue(s, depth).value, m)
  {
    hide Minify, ParseValue;
    WordStep(s, word, value, depth);
    WordMinified(s, word, m);
    WordParses(word, value, m, depth);
    all := word + m;
  }

  lemma {:induction false} ArrayMinified(s: string, depth: nat, m: string) returns (all: string)
    requires Clean(s) && s[0] == '[' && ParseValue(s, depth).Ok?
    requires Minify(ParseValue(s, depth).rest) == Some(m) && Terminated(m)
    ensures Shrinks(s, all) && ParseValue(all, depth) == Ok(ParseValue(s, depth).value, m)
    decreases |s|, 0
  {
    hide OnlyLast, Minify, ParseValue, ParseElements, SkipWhitespace;
    ArrayStep(s, depth);
    BracketTail(s);
    SkipClean(s[1..]);
    var first := SkipWhitespace(s[1..]);
    var start;
    if first[0] == ']' {
      CopyHead(first, m);
      start := "]" + m;
    } else {
      start := ElementsMinified(first, depth + 1, m);
    }
    var tail := SkipMinified(s[1..], start);
    CopyHead(s, tail);
    all := "[" + tail;
    ArrayStep(all, depth);
  }

  lemma {:induction false} ElementsMinified(s: string, depth: nat, m: string) returns (all: string)
    requires Clean(s) && ParseElements(s, depth).Ok?
    requires Minify(ParseElements(s, depth).rest) == Some(m) && Terminated(m)
    ensures Shrinks(s, all) && ParseElements(all, depth) == Ok(ParseElements(s, depth).value, m)
    decreases |s|, 2
  {
    hide OnlyLast, Minify, ParseValue, SkipWhitespace, ParseElements;
    var v := ParseValue(s, depth);
    ElementsShape(s, depth);
    ValueClean(s, depth);
    SkipClean(v.rest);
    var after := SkipWhitespace(v.rest);
    BracketTail(after);
    ElementsGoOn(s, depth);
    ElementsEnd(s, depth);
    var tail := m;
    if after[0] == ',' {
      SkipClean(after[1..]);
      var next := ElementsMinified(SkipWhitespace(after[1..]), depth, m);
      tail := SkipMinified(after[1..], next);
    }
    CopyHead(after, tail);
    var rest := SkipMinified(v.rest, [after[0]] + tail);
    NotNumber(v.rest, rest, after[0]);
    all := ValueMinified(s, depth, rest);
    ElementsGoOn(all, depth);
    ElementsEnd(all, depth);
  }

  lemma ElementsShape(s: string, depth: nat)
    requires Terminated(s) && ParseElements(s, depth).Ok?
    ensures var v := ParseValue(s, depth);
            && v.Ok?
            && (SkipWhitespace(v.rest)[0] == ',' || SkipWhitespace(v.rest)[0] == ']')
            && (SkipWhitespace(v.rest)[0] == ',' ==> ParseElements(SkipWhitespace(SkipWhitespace(v.rest)[1..]), depth).Ok?)
  { }

  lemma NotNumber(r: string, m: string, c: char)
    requires Terminated(r) && Terminated(m) && (c == ',' || c == ']' || c == '}')
    requires r[0] <= ' ' || r[0] == c
    requires m[0] <= ' ' || m[0] == c
    ensures Follows(r) && Follows(m)
  {
  }

  lemma {:induction false} ObjectMinified(s: string, depth: nat, m: string) returns (all: string)
    requires Clean(s) && s[0] == '{' && ParseValue(s, depth).Ok?
    requires Minify(ParseValue(s, depth).rest) == Some(m) && Terminated(m)
    ensures Shrinks(s, all) && ParseValue(all, depth) == Ok(ParseValue(s, depth).value, m)
    decreases |s|, 0
  {
    hide OnlyLast, Minify, ParseValue, ParseMembers, SkipWhitespace;
    ObjectStep(s, depth);
    BracketTail(s);
    SkipClean(s[1..]);
    var first := SkipWhitespace(s[1..]);
    var start;
    if first[0] == '}' {
      CopyHead(first, m);
      start := "}" + m;
    } else {
      start := MembersMinified(first, depth + 1, m);
    }
    var tail := SkipMinified(s[1..], start);
    CopyHead(s, tail);
    all := "{" + tail;
    ObjectStep(all, depth);
  }

  lemma {:induction false} MemberMinified(s: string, depth: nat, m: string) returns (all: string)
    requires Clean(s) && ParseMember(s, depth).Ok?
    requires var r := ParseMember(s, depth).rest; Minify(r) == Some(m) && Follows(r) && Follows(m)
    ensures Shrinks(s, all) && all[0] == '\"' && ParseMember(all, depth) == Ok(ParseMember(s, depth).value, m)
    decreases |s|, 2
  {
    hide OnlyLast, Minify, ParseValue, ParseString, SkipWhitespace;
    var k := ParseString(s);
    StringClean(s);
    SkipClean(k.rest);
    var colon := SkipWhitespace(k.rest);
    BracketTail(colon);
    SkipClean(colon[1..]);
    var start := SkipWhitespace(colon[1..]);
    var value := ValueMinified(start, depth, m);
    var tail := SkipMinified(colon[1..], value);
    CopyHead(colon, tail);
    var rest := SkipMinified(k.rest, ":" + tail);
    all := StringMinified(s, rest);
  }

  lemma {:induction false} MembersMinified(s: string, depth: nat, m: string) returns (all: string)
    requires Clean(s) && ParseMembers(s, depth).Ok?
    requires Minify(ParseMembers(s, depth).rest) == Some(m) && Terminated(m)
    ensures Shrinks(s, all) && all[0] == '\"' && ParseMembers(all, depth) == Ok(ParseMembers(s, depth).value, m)
    decreases |s|, 3
  {
    hide OnlyLast, Minify, ParseMember, SkipWhitespace, ParseMembers;
    var v := ParseMember(s, depth);
    MembersShape(s, depth);
    MemberClean(s, depth);
    SkipClean(v.rest);
    var after := SkipWhitespace(v.rest);
    BracketTail(after);
    MembersGoOn(s, depth);
    MembersEnd(s, depth);
    var tail := m;
    if after[0] == ',' {
      SkipClean(after[1..]);
      var next := MembersMinified(SkipWhitespace(after[1..]), depth, m);
      tail := SkipMinified(after[1..], next);
    }
    CopyHead(after, tail);
    var rest := SkipMinified(v.rest, [after[0]] + tail);
    NotNumber(v.rest, rest, after[0]);
    all := MemberMinified(s, depth, rest);
    MembersGoOn(all, depth);
    MembersEnd(all, depth);
  }

  lemma MembersShape(s: string, depth: nat)
    requires Terminated(s) && ParseMembers(s, depth).Ok?
    ensures var m := ParseMember(s, depth);
            && m.Ok?
            && (SkipWhitespace(m.rest)[0] == ',' || SkipWhitespace(m.rest)[0] == '}')
            && (SkipWhitespace(m.rest)[0] == ',' ==> ParseMembers(SkipWhitespace(SkipWhitespace(m.rest)[1..]), depth).Ok?)
  {
    hide ParseMember, SkipWhitespace;
  }

  // ---- The whole text ----

  /**
   Of any text that the parser accepts in full, the minified text exists, stays inside the
   buffer, and is parsed in full to the same tree.
   */
  lemma MinifyKeepsTree(text: string)
    requires NulFree(text) && Parse(text, true).Ok?
    ensures exists m :: Minify(text + [NUL]) == Some(m + [NUL]) && Parse(m, true) == Parse(text, true)
  {
    hide Minify, ParseValue, SkipWhitespace, SkipBom;
    var content := text + [NUL];
    assert Clean(content);
    var body := SkipBom(content);
    BomClean(content);
    hide OnlyLast;
    SkipClean(body);
    var start := SkipWhitespace(body);
    var v := ParseValue(start, 0);
    ValueClean(start, 0);
    SkipClean(v.rest);
    EndMinified();
    var rest := SkipMinified(v.rest, [NUL]);
    EndFollows(v.rest, rest);
    var value := ValueMinified(start, 0, rest);
    var minBody := SkipMinified(body, value);
    ValueStarts(start);
    var all := BomMinified(content, minBody);
    var m := all[..|all| - 1];
    assert all == m + [NUL];
  }

  lemma ValueStarts(s: string)
    requires Terminated(s) && ParseValue(s, 0).Ok?
    ensures NUL < s[0] < '\U{80}'
  {
    ValueKinds(s, 0);
    if StartsWith(s, "null") { FirstOfWord(s, "null"); }
    if StartsWith(s, "false") { FirstOfWord(s, "false"); }
    if StartsWith(s, "true") { FirstOfWord(s, "true"); }
    hide ParseValue, StartsWith;
  }

  lemma EndMinified()
    ensures Shrinks([NUL], [NUL])
  {
  }

  lemma EndFollows(r: string, m: string)
    requires Terminated(r) && Terminated(m) && (r[0] <= ' ' || r[0] == NUL) && (m[0] <= ' ' || m[0] == NUL)
    ensures Follows(r) && Follows(m)
  {
  }

  const BOM := "\U{EF}\U{BB}\U{BF}"

  lemma BomClean(content: string)
    requires Clean(content)
    ensures Clean(SkipBom(content))
  { }

  /** A byte order mark is kept, and skipped again. */
  lemma BomMinified(content: string, m: string) returns (all: string)
    requires Clean(content) && Minify(SkipBom(content)) == Some(m) && Terminated(m)
    requires |m| > 1 && SkipWhitespace(m)[0] < '\U{80}'
    ensures Minify(content) == Some(all) && Terminated(all) && SkipBom(all) == m
  {
    hide Minify, OnlyLast, SkipWhitespace;
    if |content| > 4 && content[..3] == BOM {
      assert content == BOM + content[3..];
      CopiedFront(BOM, content[3..]);
      all := BOM + m;
      TerminatedAppend(BOM, m);
      assert all[..3] == BOM && all[3..] == m;
    } else {
      all := m;
      NoBomAhead(m);
    }
  }

  lemma NoBomAhead(m: string)
    requires Terminated(m) && SkipWhitespace(m)[0] < '\U{80}'
    ensures SkipBom(m) == m
  {
    assert |m| > 4 ==> m[..3][0] == m[0];
    if m[0] > ' ' {
      NoSpace(m);
    }
  }
}
