/** Parsing what was printed, in either layout, gives the tree back. */
module RoundTrip {
  import opened CString
  import opened Decimal
  import opened Json
  import opened Parsing
  import opened Printing
  import opened Literals

  /** Trees that text can carry: no raw node, and C strings. */
  predicate Readable(j: Json) {
    match j
    case Raw(_) => false
    case String(s) => NulFree(s)
    case Array(items) => ReadableItems(items)
    case Object(members) => ReadableMembers(members)
    case _ => true
  }

  predicate ReadableItems(items: seq<Json>) {
    forall i | 0 <= i < |items| :: Readable(items[i])
  }

  predicate ReadableMembers(members: seq<Member<Json>>) {
    forall i | 0 <= i < |members| :: NulFree(members[i].key) && Readable(members[i].value)
  }

  /** The tree with every `valueint` computed afresh: text carries only `valuedouble`. */
  function Refresh(j: Json): Json {
    match j
    case Number(d, _) => MakeNumber(d)
    case Array(items) => Array(RefreshItems(items))
    case Object(members) => Object(RefreshMembers(members))
    case _ => j
  }

  function RefreshItems(items: seq<Json>): seq<Json> {
    if items == [] then [] else [Refresh(items[0])] + RefreshItems(items[1..])
  }

  function RefreshMembers(members: seq<Member<Json>>): seq<Member<Json>> {
    if members == [] then []
    else [Member(members[0].key, Refresh(members[0].value))] + RefreshMembers(members[1..])
  }

  /** What may follow a value: nothing that a number could go on with. */
  predicate Follows(rest: string) {
    Terminated(rest) && !NumberChar(rest[0])
  }

  lemma TerminatedAppend(s: string, rest: string)
    requires Terminated(rest)
    ensures Terminated(s + rest)
  { }

  // ---- Numbers ----

  lemma {:induction false} NumberLengthOf(s: string, rest: string, limit: nat)
    requires Follows(rest) && |s| <= limit && forall i | 0 <= i < |s| :: NumberChar(s[i])
    ensures NumberLength(s + rest, limit) == |s|
    decreases s
  {
    if s == "" {
      assert s + rest == rest;
    } else {
      assert (s + rest)[1..] == s[1..] + rest;
      NumberLengthOf(s[1..], rest, limit - 1);
    }
  }

  lemma {:induction false} DigitRunOf(s: string)
    requires AllDigits(s)
    ensures DigitRun(s) == |s|
  { }

  lemma StrtodDigits(s: string)
    requires AllDigits(s) && s != ""
    ensures Strtod(s) == Scanned(Horner(0, s) as real, |s|)
    ensures Strtod("-" + s) == Scanned(-(Horner(0, s) as real), |s| + 1)
  {
    DigitRunOf(s);
    assert IsDigit(s[0]) && SignLength(s) == 0 && s[0..] == s && s[..|s|] == s;
    var t := "-" + s;
    assert SignLength(t) == 1 && t[1..] == s && s + "" == s;
    assert t[1 + |s|..] == "" && s[|s|..] == "";
    MagnitudeWhole(s);
    hide Horner, DigitRun, Magnitude;
  }

  lemma MagnitudeWhole(s: string)
    requires AllDigits(s)
    ensures Magnitude(s, 0) == Horner(0, s) as real
  {
    hide Horner;
  }

  lemma FifteenDigits(n: nat)
    requires n < 1000000000000000
    ensures |Digits(n)| <= 15
  {
    assert Power10(5) == 100000;
    assert Power10(10) == 100000 * Power10(5) by {
      assert Power10(10) == 10 * (10 * (10 * (10 * (10 * Power10(5)))));
    }
    assert Power10(15) == 100000 * Power10(10) by {
      assert Power10(15) == 10 * (10 * (10 * (10 * (10 * Power10(10)))));
    }
    DigitsLength(n, 15);
  }

  /** The digits of a whole number's text. */
  lemma WholeDigits(d: real) returns (n: nat)
    requires Whole(d)
    ensures n < 1000000000000000
    ensures d == if d < 0.0 then -(n as real) else n as real
    ensures NumberText(d) == if d < 0.0 then "-" + Digits(n) else Digits(n)
  {
    n := if d < 0.0 then -d.Floor else d.Floor;
    hide Digits;
  }

  lemma DigitsAreNumberChars(s: string)
    requires AllDigits(s)
    ensures forall i | 0 <= i < |s| :: NumberChar(s[i])
    ensures forall i | 0 <= i < |s| + 1 :: NumberChar(("-" + s)[i])
  {
  }

  lemma NumberTextScans(d: real)
    requires Whole(d)
    ensures Strtod(NumberText(d)) == Scanned(d, |NumberText(d)|)
    ensures |NumberText(d)| <= 16 && forall i | 0 <= i < |NumberText(d)| :: NumberChar(NumberText(d)[i])
  {
    hide Digits, Horner, Strtod, NumberText, NumberChar, Whole;
    var n := WholeDigits(d);
    ReadDigits(n);
    StrtodDigits(Digits(n));
    FifteenDigits(n);
    DigitsAreNumberChars(Digits(n));
  }

  lemma ParseNumberText(d: real, rest: string)
    requires Whole(d) && Follows(rest)
    ensures Terminated(NumberText(d) + rest) && ParseNumber(NumberText(d) + rest) == Ok(MakeNumber(d), rest)
  {
    var t := NumberText(d);
    TerminatedAppend(t, rest);
    NumberTextScans(d);
    NumberLengthOf(t, rest, 63);
    assert (t + rest)[..|t|] == t && (t + rest)[|t|..] == rest;
    hide NumberText, Strtod, NumberLength;
  }

  // ---- Space between tokens ----

  lemma {:induction false} SkipSpaces(space: string, s: string)
    requires s != "" && s[0] > ' ' && forall i | 0 <= i < |space| :: space[i] <= ' '
    ensures SkipWhitespace(space + s) == s
    decreases space
  {
    if space == "" {
      assert space + s == s;
    } else {
      assert (space + s)[1..] == space[1..] + s;
      SkipSpaces(space[1..], s);
    }
  }

  // ---- Scalars ----

  /** The first character of a printed value: no space, no closing bracket, no comma. */
  lemma TextStarts(j: Json, format: bool, depth: nat)
    requires Printable(j) && !j.Raw?
    ensures var t := Text(j, format, depth); t != "" && ' ' < t[0] < '\U{80}' && t[0] != ']' && t[0] != '}'
  { }

  lemma WordParses(word: string, value: Json, rest: string, depth: nat)
    requires (word == "null" && value == Null) || (word == "false" && value == False) || (word == "true" && value == True)
    requires Terminated(rest)
    ensures Terminated(word + rest) && ParseValue(word + rest, depth) == Ok(value, rest)
  {
    TerminatedAppend(word, rest);
    var s := word + rest;
    assert s[..|word|] == word && s[|word|..] == rest;
    assert word[0] == s[0];
    assert "null"[0] == 'n' && "false"[0] == 'f' && "true"[0] == 't';
    if StartsWith(s, "null") { FirstOfWord(s, "null"); }
    if StartsWith(s, "false") { FirstOfWord(s, "false"); }
  }

  lemma NoWord(s: string)
    requires s != "" && s[0] != 'n' && s[0] != 'f' && s[0] != 't'
    ensures !StartsWith(s, "null") && !StartsWith(s, "false") && !StartsWith(s, "true")
  { }

  lemma FirstOfWord(s: string, word: string)
    requires StartsWith(s, word) && word != ""
    ensures s[0] == word[0]
  { }

  lemma NumberParses(d: real, rest: string, depth: nat)
    requires Whole(d) && Follows(rest)
    ensures Terminated(NumberText(d) + rest) && ParseValue(NumberText(d) + rest, depth) == Ok(MakeNumber(d), rest)
  {
    var t := NumberText(d);
    assert t[0] == '-' || IsDigit(t[0]);
    assert (t + rest)[0] == t[0];
    NoWord(t + rest);
    ParseNumberText(d, rest);
    hide ParseNumber, NumberText, StartsWith;
  }

  lemma StringParses(s: string, rest: string, depth: nat)
    requires NulFree(s) && Terminated(rest)
    ensures Terminated(Quote(s) + rest) && ParseValue(Quote(s) + rest, depth) == Ok(String(s), rest)
  {
    assert (Quote(s) + rest)[0] == '\"';
    NoWord(Quote(s) + rest);
    ParseQuoted(s, rest);
    hide ParseString, Quote, StartsWith;
  }

  // ---- Trees ----

  /** The verdict on a printed tree: itself within the nesting limit, failure beyond it. */
  ghost predicate ReadsBack<T>(r: Parsed<T>, value: T, rest: string, fits: bool) {
    if fits then r == Ok(value, rest) else r.Fail?
  }

  lemma {:induction false} TextParses(j: Json, format: bool, indent: nat, depth: nat, rest: string)
    requires Printable(j) && Readable(j) && Follows(rest) && depth <= NESTING_LIMIT
    ensures Terminated(Text(j, format, indent) + rest)
    ensures ReadsBack(ParseValue(Text(j, format, indent) + rest, depth), Refresh(j), rest, Height(j) + depth <= NESTING_LIMIT)
    decreases j, 0
  {
    TerminatedAppend(Text(j, format, indent), rest);
    match j
    case False => WordParses("false", j, rest, depth);
    case True => WordParses("true", j, rest, depth);
    case Null => WordParses("null", j, rest, depth);
    case Number(d, n) => NumberParses(d, rest, depth);
    case String(s) => StringParses(s, rest, depth);
    case Array(items) => ArrayParses(items, format, indent, depth, rest);
    case Object(members) => ObjectParses(members, format, indent, depth, rest);
  }

  lemma {:induction false} ArrayParses(items: seq<Json>, format: bool, indent: nat, depth: nat, rest: string)
    requires PrintableItems(items) && ReadableItems(items) && Follows(rest) && depth <= NESTING_LIMIT
    ensures var s := Text(Array(items), format, indent) + rest;
            && Terminated(s)
            && ReadsBack(ParseValue(s, depth), Array(RefreshItems(items)), rest, Height(Array(items)) + depth <= NESTING_LIMIT)
    decreases items, 1
  {
    hide ParseValue, ParseElements, Text, ItemsText, SkipWhitespace, PrintableItems, ReadableItems, Readable;
    hide ItemsHeight, NumberChar;
    var s, inner := Text(Array(items), format, indent) + rest, ItemsText(items, format, indent + 1) + "]" + rest;
    TerminatedAppend(Text(Array(items), format, indent), rest);
    OpenArray(items, format, indent, rest);
    ArrayStep(s, depth);
    if depth < NESTING_LIMIT {
      if items == [] {
        LastElement(rest);
        EmptyHeights();
      } else {
        ItemsStart(items, format, indent + 1);
        assert inner[0] == ItemsText(items, format, indent + 1)[0];
        NoSpace(inner);
        ElementsParse(items, format, indent + 1, depth + 1, rest);
      }
    }
  }

  lemma OpenArray(items: seq<Json>, format: bool, indent: nat, rest: string)
    requires PrintableItems(items)
    ensures var s := Text(Array(items), format, indent) + rest;
            s[0] == '[' && s[1..] == ItemsText(items, format, indent + 1) + "]" + rest
    ensures items == [] ==> ItemsText(items, format, indent + 1) + "]" + rest == "]" + rest
  { }

  lemma EmptyHeights()
    ensures ItemsHeight([]) == 0 && MembersHeight([]) == 0
  {
  }

  /** How `parse_value` treats '['. */
  lemma ArrayStep(s: string, depth: nat)
    requires Terminated(s) && s[0] == '['
    ensures var first := SkipWhitespace(s[1..]);
            ParseValue(s, depth) ==
            if depth >= NESTING_LIMIT then Fail(s)
            else if first[0] == ']' then Ok(Array([]), first[1..])
            else var r := ParseElements(first, depth + 1); if r.Ok? then Ok(Array(r.value), r.rest) else Fail(r.rest)
  {
    NoWord(s);
    hide ParseElements, StartsWith, SkipWhitespace;
  }

  lemma ObjectStep(s: string, depth: nat)
    requires Terminated(s) && s[0] == '{'
    ensures var first := SkipWhitespace(s[1..]);
            ParseValue(s, depth) ==
            if depth >= NESTING_LIMIT then Fail(s)
            else if first[0] == '}' then Ok(Object([]), first[1..])
            else var r := ParseMembers(first, depth + 1); if r.Ok? then Ok(Object(r.value), r.rest) else Fail(r.rest)
  {
    NoWord(s);
    hide ParseMembers, StartsWith, SkipWhitespace;
  }

  lemma ItemsStart(items: seq<Json>, format: bool, indent: nat)
    requires PrintableItems(items) && ReadableItems(items) && items != []
    ensures var t := ItemsText(items, format, indent); t != "" && t[0] > ' ' && t[0] != ']'
  {
    TextStarts(items[0], format, indent);
    assert Readable(items[0]);
    hide Text;
  }

  lemma {:induction false} ElementsParse(items: seq<Json>, format: bool, indent: nat, depth: nat, rest: string)
    requires PrintableItems(items) && ReadableItems(items) && items != []
    requires Follows(rest) && depth <= NESTING_LIMIT
    ensures var s := ItemsText(items, format, indent) + "]" + rest;
            && Terminated(s)
            && ReadsBack(ParseElements(s, depth), RefreshItems(items), rest, ItemsHeight(items) + depth <= NESTING_LIMIT)
    decreases items, 0
  {
    hide ParseValue, ParseElements, Text, ItemsText, SkipWhitespace, PrintableItems, ReadableItems, Printable, Readable;
    hide Height, ItemsHeight, NumberChar, Refresh;
    var s := ItemsText(items, format, indent) + "]" + rest;
    TerminatedAppend(ItemsText(items, format, indent) + "]", rest);
    TailReadable(items);
    ItemsHeightStep(items);
    ItemsTextHead(items, format, indent, rest);
    if |items| == 1 {
      LastElement(rest);
      TextParses(items[0], format, indent, depth, "]" + rest);
      ElementsEnd(s, depth);
      assert items[1..] == [] && RefreshItems(items) == [Refresh(items[0])];
    } else {
      var body := ItemsText(items[1..], format, indent);
      var tail := body + "]" + rest;
      ItemsStart(items[1..], format, indent);
      ElementsParse(items[1..], format, indent, depth, rest);
      assert tail[0] == body[0];
      SeparatorSkipped(format, tail);
      TextParses(items[0], format, indent, depth, (if format then ", " else ",") + tail);
      ElementsGoOn(s, depth);
    }
  }

  lemma ItemsTextHead(items: seq<Json>, format: bool, indent: nat, rest: string)
    requires items != [] && PrintableItems(items) && PrintableItems(items[1..]) && Printable(items[0])
    ensures ItemsText(items, format, indent) + "]" + rest ==
            Text(items[0], format, indent) +
            (if |items| == 1 then "]" + rest
             else (if format then ", " else ",") + (ItemsText(items[1..], format, indent) + "]" + rest))
  {
    if |items| == 1 {
      hide Text;
    } else {
      hide Text;
    }
  }

  lemma ItemsHeightStep(items: seq<Json>)
    requires items != []
    ensures var rest := ItemsHeight(items[1..]);
            && ItemsHeight(items) == (if Height(items[0]) > rest then Height(items[0]) else rest)
            && (|items| == 1 ==> rest == 0)
  { }

  lemma LastElement(rest: string)
    requires Follows(rest)
    ensures Follows("]" + rest) && SkipWhitespace("]" + rest) == "]" + rest && ("]" + rest)[1..] == rest
  { }

  lemma SeparatorSkipped(format: bool, tail: string)
    requires Terminated(tail) && tail[0] > ' '
    ensures var s := (if format then ", " else ",") + tail;
            Follows(s) && s[0] == ',' && SkipWhitespace(s) == s && SkipWhitespace(s[1..]) == tail
  { }

  /** One round of the loop over elements, when a value has been read. */
  lemma ElementsGoOn(s: string, depth: nat)
    requires Terminated(s)
    ensures var v := ParseValue(s, depth);
            && (v.Fail? ==> ParseElements(s, depth).Fail?)
            && (v.Ok? && SkipWhitespace(v.rest)[0] == ',' ==>
                  var r := ParseElements(SkipWhitespace(SkipWhitespace(v.rest)[1..]), depth);
                  ParseElements(s, depth) == if r.Ok? then Ok([v.value] + r.value, r.rest) else r)
  { }

  lemma ElementsEnd(s: string, depth: nat)
    requires Terminated(s)
    ensures var v := ParseValue(s, depth);
            && (v.Fail? ==> ParseElements(s, depth).Fail?)
            && (v.Ok? && SkipWhitespace(v.rest)[0] == ']' ==>
                  ParseElements(s, depth) == Ok([v.value], SkipWhitespace(v.rest)[1..]))
  { }

  lemma TailReadable(items: seq<Json>)
    requires PrintableItems(items) && ReadableItems(items) && items != []
    ensures PrintableItems(items[1..]) && ReadableItems(items[1..]) && Printable(items[0]) && Readable(items[0])
  { }

  // ---- Objects ----

  lemma {:induction false} SkipMore(space: string, s: string)
    requires s != "" && forall i | 0 <= i < |space| :: space[i] <= ' '
    ensures SkipWhitespace(space + s) == SkipWhitespace(s)
    decreases space
  {
    if space == "" {
      assert space + s == s;
    } else {
      assert (space + s)[1..] == space[1..] + s;
      SkipMore(space[1..], s);
    }
  }

  lemma ColonSkipped(format: bool, v: string)
    requires v != "" && v[0] > ' '
    ensures var s := Colon(format) + v; s[0] == ':' && SkipWhitespace(s) == s && SkipWhitespace(s[1..]) == v
  { }

  lemma {:induction false} MemberParses(m: Member<Json>, format: bool, indent: nat, depth: nat, after: string)
    requires NulFree(m.key) && Printable(m.value) && Readable(m.value) && Follows(after) && depth <= NESTING_LIMIT
    ensures var s := Quote(m.key) + (Colon(format) + (Text(m.value, format, indent) + after));
            && Terminated(s)
            && ReadsBack(ParseMember(s, depth), Member(m.key, Refresh(m.value)), after, Height(m.value) + depth <= NESTING_LIMIT)
    decreases m.value, 1
  {
    var value := Text(m.value, format, indent) + after;
    var afterKey := Colon(format) + value;
    TextStarts(m.value, format, indent);
    assert value[0] == Text(m.value, format, indent)[0];
    TextParses(m.value, format, indent, depth, after);
    TerminatedAppend(Colon(format), value);
    TerminatedAppend(Quote(m.key), afterKey);
    ParseQuoted(m.key, afterKey);
    ColonSkipped(format, value);
    hide Text, ParseValue, ParseString, Quote, SkipWhitespace, Colon, Height, Printable, Readable;
  }

  lemma {:induction false} ObjectParses(
    members: seq<Member<Json>>, format: bool, indent: nat, depth: nat, rest: string)
    requires PrintableMembers(members) && ReadableMembers(members) && Follows(rest) && depth <= NESTING_LIMIT
    ensures var s := Text(Object(members), format, indent) + rest;
            && Terminated(s)
            && ReadsBack(ParseValue(s, depth), Object(RefreshMembers(members)), rest, Height(Object(members)) + depth <= NESTING_LIMIT)
    decreases members, 1
  {
    hide ParseValue, ParseMembers, Text, MembersText, SkipWhitespace, Close;
    hide PrintableMembers, ReadableMembers, Readable, MembersHeight, NumberChar;
    var inner := MembersText(members, format, indent + 1) + Close(format, indent, rest);
    var s := Text(Object(members), format, indent) + rest;
    TerminatedAppend(Text(Object(members), format, indent), rest);
    OpenObject(members, format, indent, rest);
    ObjectStep(s, depth);
    if depth < NESTING_LIMIT {
      SkipMore(if format then "\n" else "", inner);
      if members == [] {
        EmptyMembers(format, indent + 1);
        EmptyHeights();
        assert inner == "" + Close(format, indent, rest);
        CloseSkipped("", format, indent, rest);
      } else {
        MembersParse(members, format, indent + 1, indent, depth + 1, rest);
        MembersStart(members, format, indent + 1, Close(format, indent, rest));
      }
    }
  }

  lemma MembersStart(members: seq<Member<Json>>, format: bool, indent: nat, close: string)
    requires PrintableMembers(members) && members != []
    ensures SkipWhitespace(MembersText(members, format, indent) + close)[0] == '\"'
  {
    MembersTextHead(members, format, indent, close);
    var member := Quote(members[0].key) + (Colon(format) + (Text(members[0].value, format, indent) +
                  AfterMember(|members| > 1, format, MembersText(members[1..], format, indent) + close)));
    assert Quote(members[0].key)[0] == '\"';
    hide MembersText, Text, Quote, Colon, AfterMember, SkipWhitespace;
    SkipSpaces(if format then Tabs(indent) else "", member);
  }

  lemma EmptyMembers(format: bool, indent: nat)
    ensures MembersText([], format, indent) == ""
  {
  }

  /** The end of a printed object and what follows it. */
  function Close(format: bool, indent: nat, rest: string): (s: string)
    ensures s != ""
  {
    (if format then Tabs(indent) else "") + ("}" + rest)
  }

  lemma OpenObject(members: seq<Member<Json>>, format: bool, indent: nat, rest: string)
    requires PrintableMembers(members)
    ensures var s := Text(Object(members), format, indent) + rest;
            && s[0] == '{'
            && s[1..] == (if format then "\n" else "") + (MembersText(members, format, indent + 1) + Close(format, indent, rest))
  {
    hide MembersText;
    var body, tabs := MembersText(members, format, indent + 1), if format then Tabs(indent) else "";
    assert Text(Object(members), format, indent) == (if format then "{\n" else "{") + body + tabs + "}";
    hide Text, Tabs;
    assert "{" + "\n" == "{\n" && "{" + "" == "{";
  }

  lemma CloseSkipped(space: string, format: bool, indent: nat, rest: string)
    requires Terminated(rest) && forall i | 0 <= i < |space| :: space[i] <= ' '
    ensures SkipWhitespace(space + Close(format, indent, rest)) == "}" + rest
    ensures ("}" + rest)[1..] == rest
  {
    var tabs := if format then Tabs(indent) else "";
    assert space + Close(format, indent, rest) == (space + tabs) + ("}" + rest);
    SkipSpaces(space + tabs, "}" + rest);
  }

  /** What follows the value of a member. */
  function AfterMember(more: bool, format: bool, tail: string): string {
    (if more then "," else "") + ((if format then "\n" else "") + tail)
  }

  lemma TailReadableMembers(ms: seq<Member<Json>>)
    requires PrintableMembers(ms) && ReadableMembers(ms) && ms != []
    ensures PrintableMembers(ms[1..]) && ReadableMembers(ms[1..])
    ensures NulFree(ms[0].key) && Printable(ms[0].value) && Readable(ms[0].value)
  { }

  lemma MembersTextHead(ms: seq<Member<Json>>, format: bool, indent: nat, close: string)
    requires PrintableMembers(ms) && ms != []
    ensures PrintableMembers(ms[1..]) && Printable(ms[0].value)
    ensures MembersText(ms, format, indent) + close ==
            (if format then Tabs(indent) else "") +
            (Quote(ms[0].key) + (Colon(format) + (Text(ms[0].value, format, indent) +
             AfterMember(|ms| > 1, format, MembersText(ms[1..], format, indent) + close))))
  {
    assert forall i | 0 <= i < |ms[1..]| :: ms[1..][i] == ms[i + 1];
    var lead, key, value := if format then Tabs(indent) else "", Quote(ms[0].key), Text(ms[0].value, format, indent);
    var comma, line := if |ms| > 1 then "," else "", if format then "\n" else "";
    var tail := MembersText(ms[1..], format, indent);
    assert MembersText(ms, format, indent) == (lead + key + Colon(format) + value + comma + line) + tail;
    hide MembersText, Text, Quote, Colon, Tabs, Printable, PrintableMembers;
    Regroup7(lead, key, Colon(format), value, comma, line, tail, close);
  }

  lemma Regroup7(a: string, b: string, c: string, d: string, e: string, f: string, g: string, h: string)
    ensures (a + b + c + d + e + f) + g + h == a + (b + (c + (d + (e + (f + (g + h))))))
  {
  }

  lemma {:induction false} MembersParse(
    ms: seq<Member<Json>>, format: bool, indent: nat, outer: nat, depth: nat, rest: string)
    requires PrintableMembers(ms) && ReadableMembers(ms) && ms != []
    requires Follows(rest) && depth <= NESTING_LIMIT
    ensures var s := MembersText(ms, format, indent) + Close(format, outer, rest);
            && Terminated(SkipWhitespace(s))
            && ReadsBack(ParseMembers(SkipWhitespace(s), depth), RefreshMembers(ms), rest, MembersHeight(ms) + depth <= NESTING_LIMIT)
    decreases ms, 0
  {
    hide Text, Quote, Colon, SkipWhitespace, Tabs, ParseMember, Close, MembersText, ParseMembers, AfterMember;
    hide PrintableMembers, ReadableMembers, Printable, Readable, Height, MembersHeight, NumberChar, Refresh;
    TailReadableMembers(ms);
    var close := Close(format, outer, rest);
    var tail := MembersText(ms[1..], format, indent) + close;
    var after := AfterMember(|ms| > 1, format, tail);
    MembersTextHead(ms, format, indent, close);
    SkipIndent(format, indent, ms[0].key, Colon(format) + (Text(ms[0].value, format, indent) + after));
    CloseTerminated(format, outer, rest);
    if |ms| > 1 {
      TerminatedAppend(MembersText(ms[1..], format, indent), close);
      MembersParse(ms[1..], format, indent, outer, depth, rest);
      AfterMore(format, tail);
      MemberParses(ms[0], format, indent, depth, after);
      MoreMembers(ms, format, indent, depth, tail, rest);
    } else {
      EmptyMembers(format, indent);
      assert ms[1..] == [] && "" + close == close;
      AfterLast(format, outer, rest);
      MemberParses(ms[0], format, indent, depth, after);
      LastMember(ms, format, indent, depth, after, rest);
    }
  }

  lemma MoreMembers(ms: seq<Member<Json>>, format: bool, indent: nat, depth: nat, tail: string, rest: string)
    requires |ms| > 1 && Printable(ms[0].value) && Terminated(tail)
    requires Terminated(SkipWhitespace(tail))
    requires ReadsBack(ParseMembers(SkipWhitespace(tail), depth), RefreshMembers(ms[1..]), rest, MembersHeight(ms[1..]) + depth <= NESTING_LIMIT)
    requires var after := AfterMember(true, format, tail);
             var s := Quote(ms[0].key) + (Colon(format) + (Text(ms[0].value, format, indent) + after));
             && Terminated(s)
             && ReadsBack(ParseMember(s, depth), Member(ms[0].key, Refresh(ms[0].value)), after, Height(ms[0].value) + depth <= NESTING_LIMIT)
             && after[..1] == "," && SkipWhitespace(after) == after && SkipWhitespace(after[1..]) == SkipWhitespace(tail)
    ensures var after := AfterMember(true, format, tail);
            var s := Quote(ms[0].key) + (Colon(format) + (Text(ms[0].value, format, indent) + after));
            ReadsBack(ParseMembers(s, depth), RefreshMembers(ms), rest, MembersHeight(ms) + depth <= NESTING_LIMIT)
  {
    hide Text, Quote, Colon, SkipWhitespace, ParseMember, ParseMembers, AfterMember, Printable, Height, MembersHeight;
    MembersHeightStep(ms);
    MembersGoOn(Quote(ms[0].key) + (Colon(format) + (Text(ms[0].value, format, indent) + AfterMember(true, format, tail))), depth);
  }

  lemma LastMember(ms: seq<Member<Json>>, format: bool, indent: nat, depth: nat, after: string, rest: string)
    requires |ms| == 1 && Printable(ms[0].value) && after != ""
    requires SkipWhitespace(after) == "}" + rest && ("}" + rest)[1..] == rest
    requires var s := Quote(ms[0].key) + (Colon(format) + (Text(ms[0].value, format, indent) + after));
             && Terminated(s)
             && ReadsBack(ParseMember(s, depth), Member(ms[0].key, Refresh(ms[0].value)), after, Height(ms[0].value) + depth <= NESTING_LIMIT)
    ensures var s := Quote(ms[0].key) + (Colon(format) + (Text(ms[0].value, format, indent) + after));
            ReadsBack(ParseMembers(s, depth), RefreshMembers(ms), rest, MembersHeight(ms) + depth <= NESTING_LIMIT)
  {
    hide Text, Quote, Colon, SkipWhitespace, ParseMember, ParseMembers, Printable, Height, MembersHeight;
    MembersHeightStep(ms);
    MembersEnd(Quote(ms[0].key) + (Colon(format) + (Text(ms[0].value, format, indent) + after)), depth);
    assert ms[1..] == [] && RefreshMembers(ms) == [Member(ms[0].key, Refresh(ms[0].value))];
  }

  lemma SkipIndent(format: bool, indent: nat, key: string, rest: string)
    ensures SkipWhitespace((if format then Tabs(indent) else "") + (Quote(key) + rest)) == Quote(key) + rest
  {
    assert (Quote(key) + rest)[0] == '\"';
    hide Quote;
    SkipSpaces(if format then Tabs(indent) else "", Quote(key) + rest);
  }

  lemma MembersHeightStep(ms: seq<Member<Json>>)
    requires ms != []
    ensures var rest := MembersHeight(ms[1..]);
            && MembersHeight(ms) == (if Height(ms[0].value) > rest then Height(ms[0].value) else rest)
            && (|ms| == 1 ==> rest == 0)
  { }

  lemma CloseTerminated(format: bool, indent: nat, rest: string)
    requires Terminated(rest)
    ensures Terminated(Close(format, indent, rest))
  { }

  lemma AfterMore(format: bool, tail: string)
    requires Terminated(tail)
    ensures var s := AfterMember(true, format, tail);
            Follows(s) && s[0] == ',' && SkipWhitespace(s) == s && SkipWhitespace(s[1..]) == SkipWhitespace(tail)
  {
    var line := if format then "\n" else "";
    var s := AfterMember(true, format, tail);
    assert s == "," + (line + tail) && s[1..] == line + tail;
    TerminatedAppend(line, tail);
    TerminatedAppend(",", line + tail);
    NoSpace(s);
    SkipMore(line, tail);
    hide SkipWhitespace;
  }

  lemma AfterLast(format: bool, indent: nat, rest: string)
    requires Terminated(rest)
    ensures var s := AfterMember(false, format, Close(format, indent, rest));
            Follows(s) && SkipWhitespace(s) == "}" + rest && ("}" + rest)[1..] == rest
  {
    var line, close := if format then "\n" else "", Close(format, indent, rest);
    AfterLastText(format, indent, rest);
    hide SkipWhitespace, Close, AfterMember;
    CloseTerminated(format, indent, rest);
    TerminatedAppend(line, close);
    CloseSkipped(line, format, indent, rest);
  }

  lemma AfterLastText(format: bool, indent: nat, rest: string)
    ensures var close := Close(format, indent, rest);
            && AfterMember(false, format, close) == (if format then "\n" else "") + close
            && (!format ==> "" + close == "}" + rest)
  { }

  /** One round of the loop over members, when a member has been read. */
  lemma MembersGoOn(s: string, depth: nat)
    requires Terminated(s)
    ensures var m := ParseMember(s, depth);
            && (m.Fail? ==> ParseMembers(s, depth).Fail?)
            && (m.Ok? && SkipWhitespace(m.rest)[0] == ',' ==>
                  var r := ParseMembers(SkipWhitespace(SkipWhitespace(m.rest)[1..]), depth);
                  ParseMembers(s, depth) == if r.Ok? then Ok([m.value] + r.value, r.rest) else r)
  {
    hide ParseMember, SkipWhitespace;
  }

  lemma MembersEnd(s: string, depth: nat)
    requires Terminated(s)
    ensures var m := ParseMember(s, depth);
            && (m.Fail? ==> ParseMembers(s, depth).Fail?)
            && (m.Ok? && SkipWhitespace(m.rest)[0] == '}' ==>
                  ParseMembers(s, depth) == Ok([m.value], SkipWhitespace(m.rest)[1..]))
  { }

  // ---- The whole text ----

  lemma NoBom(content: string)
    requires Terminated(content) && content[0] < '\U{80}'
    ensures SkipBom(content) == content
  { }

  /** The refreshed tree is the tree exactly when the fields of its numbers agree. */
  lemma {:induction false} RefreshIsIdentity(j: Json)
    requires Printable(j)
    ensures Refresh(j) == j <==> Consistent(j)
    decreases j
  {
    match j
    case Array(items) => RefreshItemsIsIdentity(items);
    case Object(members) => RefreshMembersIsIdentity(members);
    case _ =>
  }

  lemma {:induction false} RefreshItemsIsIdentity(items: seq<Json>)
    requires PrintableItems(items)
    ensures RefreshItems(items) == items <==> ConsistentItems(items)
    decreases items
  {
    if items != [] {
      RefreshIsIdentity(items[0]);
      assert forall i | 0 <= i < |items[1..]| :: items[1..][i] == items[i + 1];
      RefreshItemsIsIdentity(items[1..]);
      hide Refresh, Consistent, Printable;
      assert items == [items[0]] + items[1..];
    }
  }

  lemma {:induction false} RefreshMembersIsIdentity(members: seq<Member<Json>>)
    requires PrintableMembers(members)
    ensures RefreshMembers(members) == members <==> ConsistentValues(members)
    decreases members
  {
    if members != [] {
      RefreshIsIdentity(members[0].value);
      assert forall i | 0 <= i < |members[1..]| :: members[1..][i] == members[i + 1];
      RefreshMembersIsIdentity(members[1..]);
      hide Refresh, Consistent, Printable;
      assert members == [members[0]] + members[1..];
    }
  }

  /**
   `cJSON_Parse` undoes `cJSON_Print` and `cJSON_PrintUnformatted` up to the nesting limit,
   consuming the whole text, and rejects the text of any deeper tree.  The tree that comes
   back is the same tree exactly when the two fields of its numbers agree.
   */
  lemma ParseInvertsPrint(j: Json, format: bool, requireEnd: bool)
    requires Printable(j) && Readable(j)
    ensures ReadsBack(Parse(Text(j, format, 0), requireEnd), Refresh(j), [NUL], Height(j) <= NESTING_LIMIT)
    ensures Height(j) <= NESTING_LIMIT ==>
              (Parse(Text(j, format, 0), requireEnd).value == j <==> Consistent(j))
  {
    var content := Text(j, format, 0) + [NUL];
    TextStarts(j, format, 0);
    assert content[0] == Text(j, format, 0)[0];
    TerminatedAppend(Text(j, format, 0), [NUL]);
    hide Text, ParseValue, Height, Printable, Readable, Refresh, Consistent;
    NoBom(content);
    NoSpace(content);
    TextParses(j, format, 0, 0, [NUL]);
    RefreshIsIdentity(j);
  }
}
