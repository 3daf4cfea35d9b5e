/**
 Exactly which texts the parser accepts, and as which trees: those that are spelled by the
 syntax here, with blanks between tokens, nested no deeper than the limit.
 */
module Grammar {
  import opened Options
  import opened CString
  import opened Decimal
  import opened Json
  import opened Parsing
  import opened RoundTrip
  import opened Tokens

  /** An element with the blanks around it. */
  datatype Slot = Slot(before: string, value: Syntax, after: string)

  /** A member: blanks, its key, blanks, a colon, blanks, its value, blanks. */
  datatype Entry =
    Entry(before: string, key: LiteralSyntax, middle: string, start: string, value: Syntax, after: string)

  datatype Syntax =
    | NullSyntax
    | FalseSyntax
    | TrueSyntax
    | OfNumber(number: NumberSyntax)
    | OfString(literal: LiteralSyntax)
    | OfArray(gap: string, slots: seq<Slot>)     // the gap counts if there are no elements
    | OfObject(gap: string, entries: seq<Entry>)

  /** Everything up to a space is a blank. */
  predicate Blank(s: string) {
    forall i | 0 <= i < |s| :: s[i] <= ' '
  }

  predicate Fine(t: Syntax) {
    match t
    case OfNumber(n) => FineNumber(n) && |SpellNumber(n)| <= 63
    case OfString(q) => FineLiteral(q)
    case OfArray(gap, slots) => Blank(gap) && FineSlots(slots)
    case OfObject(gap, entries) => Blank(gap) && FineEntries(entries)
    case _ => true
  }

  predicate FineSlots(slots: seq<Slot>) {
    slots == [] || (Blank(slots[0].before) && Fine(slots[0].value) && Blank(slots[0].after) && FineSlots(slots[1..]))
  }

  predicate FineEntries(entries: seq<Entry>) {
    entries == [] ||
    var e := entries[0];
    && Blank(e.before) && FineLiteral(e.key) && Blank(e.middle) && Blank(e.start) && Fine(e.value) && Blank(e.after)
    && FineEntries(entries[1..])
  }

  function SpellValue(t: Syntax): string {
    match t
    case NullSyntax => "null"
    case FalseSyntax => "false"
    case TrueSyntax => "true"
    case OfNumber(n) => SpellNumber(n)
    case OfString(q) => SpellLiteral(q)
    case OfArray(gap, slots) => "[" + ((if slots == [] then gap else SpellSlots(slots)) + "]")
    case OfObject(gap, entries) => "{" + ((if entries == [] then gap else SpellEntries(entries)) + "}")
  }

  function SpellSlots(slots: seq<Slot>): string {
    if slots == [] then ""
    else
      slots[0].before + (SpellValue(slots[0].value) + (slots[0].after +
        (if |slots| == 1 then "" else "," + SpellSlots(slots[1..]))))
  }

  function SpellEntries(entries: seq<Entry>): string {
    if entries == [] then ""
    else
      entries[0].before + (SpellEntry(entries[0]) + (entries[0].after +
        (if |entries| == 1 then "" else "," + SpellEntries(entries[1..]))))
  }

  /** Key, colon and value. */
  function SpellEntry(e: Entry): string {
    SpellLiteral(e.key) + (e.middle + (":" + (e.start + SpellValue(e.value))))
  }

  /** The tree that a value denotes. */
  function Tree(t: Syntax): Json
    requires Fine(t)
  {
    match t
    case NullSyntax => Null
    case FalseSyntax => False
    case TrueSyntax => True
    case OfNumber(n) => MakeNumber(NumberValue(n))
    case OfString(q) => String(LiteralText(q))
    case OfArray(_, slots) => Array(Trees(slots))
    case OfObject(_, entries) => Object(Members(entries))
  }

  function Trees(slots: seq<Slot>): seq<Json>
    requires FineSlots(slots)
  {
    if slots == [] then [] else [Tree(slots[0].value)] + Trees(slots[1..])
  }

  function Members(entries: seq<Entry>): seq<Member<Json>>
    requires FineEntries(entries)
  {
    if entries == [] then []
    else [Member(LiteralText(entries[0].key), Tree(entries[0].value))] + Members(entries[1..])
  }

  /** How deep arrays and objects are nested. */
  function Depth(t: Syntax): nat {
    match t
    case OfArray(_, slots) => 1 + SlotsDepth(slots)
    case OfObject(_, entries) => 1 + EntriesDepth(entries)
    case _ => 0
  }

  function SlotsDepth(slots: seq<Slot>): nat {
    if slots == [] then 0
    else
      var first, rest := Depth(slots[0].value), SlotsDepth(slots[1..]);
      if first > rest then first else rest
  }

  function EntriesDepth(entries: seq<Entry>): nat {
    if entries == [] then 0
    else
      var first, rest := Depth(entries[0].value), EntriesDepth(entries[1..]);
      if first > rest then first else rest
  }

  // ---- Everything of the syntax is read ----

  /** A value starts with none of the characters that may follow one. */
  lemma ValueStarts(t: Syntax)
    requires Fine(t)
    ensures var s := SpellValue(t); s != "" && s[0] > ' ' && s[0] != ']' && s[0] != '}' && s[0] < '\U{80}'
  {
    if t.OfNumber? { NumberChars(t.number); }
  }

  lemma FirstOf(a: string, b: string)
    requires a != ""
    ensures (a + b)[0] == a[0] && a + b != ""
  {
  }

  /** Blanks, a closing bracket or a comma: no number goes on with them. */
  lemma BlankFollows(blank: string, rest: string)
    requires Blank(blank) && Terminated(rest) && !NumberChar(rest[0])
    ensures Follows(blank + rest)
  {
    TerminatedAppend(blank, rest);
    if blank == "" { assert blank + rest == rest; } else { assert (blank + rest)[0] == blank[0]; }
  }

  lemma BlankSkipped(blank: string, rest: string)
    requires Blank(blank) && rest != "" && rest[0] > ' '
    ensures SkipWhitespace(blank + rest) == rest
  {
    SkipSpaces(blank, rest);
  }

  /** What may stand behind a value in a list: a comma or the closing bracket. */
  predicate Closing(s: string) {
    Terminated(s) && (s[0] == ',' || s[0] == ']' || s[0] == '}')
  }

  lemma ClosingIs(s: string)
    requires Closing(s)
    ensures Terminated(s) && s != "" && s[0] > ' ' && !NumberChar(s[0])
  {
  }

  lemma ClosingOf(c: char, rest: string)
    requires (c == ',' || c == ']' || c == '}') && Terminated(rest)
    ensures Closing([c] + rest) && ([c] + rest)[0] == c && ([c] + rest)[1..] == rest
  {
    TerminatedAppend([c], rest);
  }

  /** The value ends here: a number is the longest that can be read. */
  predicate Ends(t: Syntax, rest: string) {
    Terminated(rest) &&
    (t.OfNumber? && Fine(t) ==>
       Terminated(SpellNumber(t.number) + rest) &&
       ParseNumber(SpellNumber(t.number) + rest) == Ok(MakeNumber(NumberValue(t.number)), rest))
  }

  lemma FollowingEnds(t: Syntax, rest: string)
    requires Fine(t) && Follows(rest)
    ensures Ends(t, rest)
  {
    if t.OfNumber? { NumberRead(t.number, rest); }
    hide ParseNumber, SpellNumber, FineNumber, NumberValue;
  }

  lemma {:induction false} ValueRead(t: Syntax, rest: string, depth: nat)
    requires Fine(t) && Ends(t, rest) && Depth(t) + depth <= NESTING_LIMIT
    ensures Terminated(SpellValue(t) + rest) && ParseValue(SpellValue(t) + rest, depth) == Ok(Tree(t), rest)
    decreases t, 1
  {
    TerminatedAppend(SpellValue(t), rest);
    assert Terminated(rest);
    hide ParseValue, Ends, Tree, SpellValue, Fine, Depth;
    match t
    case NullSyntax => WordRead(t, rest, depth);
    case FalseSyntax => WordRead(t, rest, depth);
    case TrueSyntax => WordRead(t, rest, depth);
    case OfNumber(n) => NumberValueRead(n, rest, depth);
    case OfString(q) => StringValueRead(q, rest, depth);
    case OfArray(gap, slots) => ArrayRead(gap, slots, rest, depth);
    case OfObject(gap, entries) => ObjectRead(gap, entries, rest, depth);
  }

  lemma WordRead(t: Syntax, rest: string, depth: nat)
    requires (t.NullSyntax? || t.FalseSyntax? || t.TrueSyntax?) && Terminated(rest) && Fine(t)
    ensures Terminated(SpellValue(t) + rest) && ParseValue(SpellValue(t) + rest, depth) == Ok(Tree(t), rest)
  {
    WordParses(SpellValue(t), Tree(t), rest, depth);
    hide ParseValue;
  }

  lemma NumberValueRead(n: NumberSyntax, rest: string, depth: nat)
    requires Fine(OfNumber(n)) && Ends(OfNumber(n), rest)
    ensures var t := OfNumber(n);
            Terminated(SpellValue(t) + rest) && ParseValue(SpellValue(t) + rest, depth) == Ok(Tree(t), rest)
  {
    NumberChars(n);
    FirstOf(SpellNumber(n), rest);
    NoWord(SpellNumber(n) + rest);
    hide ParseNumber, SpellNumber, FineNumber, NumberValue, StartsWith;
  }

  lemma StringValueRead(q: LiteralSyntax, rest: string, depth: nat)
    requires FineLiteral(q) && Terminated(rest)
    ensures var t := OfString(q);
            Terminated(SpellValue(t) + rest) && ParseValue(SpellValue(t) + rest, depth) == Ok(Tree(t), rest)
  {
    LiteralRead(q, rest);
    FirstOf(SpellLiteral(q), rest);
    NoWord(SpellLiteral(q) + rest);
    hide ParseString, FineLiteral, LiteralText, StartsWith, Inside;
  }

  /** An array apart: what stands between the brackets, and the text behind the first one. */
  lemma ArraySpelled(gap: string, slots: seq<Slot>, rest: string)
    ensures var s := SpellValue(OfArray(gap, slots)) + rest;
            s != "" && s[0] == '[' && s[1..] == (if slots == [] then gap else SpellSlots(slots)) + ("]" + rest)
  {
    hide SpellSlots;
    Enclosed("[", if slots == [] then gap else SpellSlots(slots), "]", rest);
  }

  lemma ObjectSpelled(gap: string, entries: seq<Entry>, rest: string)
    ensures var s := SpellValue(OfObject(gap, entries)) + rest;
            s != "" && s[0] == '{' && s[1..] == (if entries == [] then gap else SpellEntries(entries)) + ("}" + rest)
  {
    hide SpellEntries;
    Enclosed("{", if entries == [] then gap else SpellEntries(entries), "}", rest);
  }

  lemma Enclosed(a: string, body: string, b: string, rest: string)
    requires |a| == 1
    ensures var s := (a + (body + b)) + rest; s != "" && s[0] == a[0] && s[1..] == body + (b + rest)
  {
  }

  lemma ArrayParts(gap: string, slots: seq<Slot>, depth: nat)
    requires Fine(OfArray(gap, slots)) && Depth(OfArray(gap, slots)) + depth <= NESTING_LIMIT
    ensures Blank(gap) && FineSlots(slots) && depth < NESTING_LIMIT && SlotsDepth(slots) + depth + 1 <= NESTING_LIMIT
    ensures Tree(OfArray(gap, slots)) == Array(Trees(slots)) && (slots == [] ==> Trees(slots) == [])
  {
    hide FineSlots, SlotsDepth, Blank;
  }

  lemma ObjectParts(gap: string, entries: seq<Entry>, depth: nat)
    requires Fine(OfObject(gap, entries)) && Depth(OfObject(gap, entries)) + depth <= NESTING_LIMIT
    ensures Blank(gap) && FineEntries(entries) && depth < NESTING_LIMIT && EntriesDepth(entries) + depth + 1 <= NESTING_LIMIT
    ensures Tree(OfObject(gap, entries)) == Object(Members(entries)) && (entries == [] ==> Members(entries) == [])
  {
    hide FineEntries, EntriesDepth, Blank;
  }

  lemma {:induction false} ArrayRead(gap: string, slots: seq<Slot>, rest: string, depth: nat)
    requires Fine(OfArray(gap, slots)) && Terminated(rest) && Depth(OfArray(gap, slots)) + depth <= NESTING_LIMIT
    ensures var t := OfArray(gap, slots);
            Terminated(SpellValue(t) + rest) && ParseValue(SpellValue(t) + rest, depth) == Ok(Tree(t), rest)
    decreases slots, 2
  {
    hide *;
    var s := SpellValue(OfArray(gap, slots)) + rest;
    TerminatedAppend(SpellValue(OfArray(gap, slots)), rest);
    ArraySpelled(gap, slots, rest);
    ArrayParts(gap, slots, depth);
    ArrayStep(s, depth);
    ClosingOf(']', rest);
    ClosingIs("]" + rest);
    if slots == [] {
      BlankSkipped(gap, "]" + rest);
    } else {
      SlotsSkip(slots, "]" + rest);
      SlotsRead(slots, rest, depth + 1);
    }
  }

  lemma SlotParts(slots: seq<Slot>, depth: nat)
    requires FineSlots(slots) && slots != [] && SlotsDepth(slots) + depth <= NESTING_LIMIT
    ensures Blank(slots[0].before) && Fine(slots[0].value) && Blank(slots[0].after) && FineSlots(slots[1..])
    ensures Depth(slots[0].value) + depth <= NESTING_LIMIT && SlotsDepth(slots[1..]) + depth <= NESTING_LIMIT
    ensures Trees(slots) == [Tree(slots[0].value)] + Trees(slots[1..]) && (|slots| == 1 ==> Trees(slots[1..]) == [])
  {
    hide Fine, Depth, Tree, Blank;
  }

  /** The first element behind its blanks. */
  function FromSlot(slots: seq<Slot>, close: string): string
    requires slots != []
  {
    SpellValue(slots[0].value) + (slots[0].after + (if |slots| == 1 then close else "," + (SpellSlots(slots[1..]) + close)))
  }

  lemma SlotsSpelled(slots: seq<Slot>, close: string)
    requires slots != []
    ensures SpellSlots(slots) + close == slots[0].before + FromSlot(slots, close)
  {
    hide SpellValue;
    var v, after, tail := SpellValue(slots[0].value), slots[0].after, if |slots| == 1 then "" else "," + SpellSlots(slots[1..]);
    assert SpellSlots(slots) == slots[0].before + (v + (after + tail));
    hide *;
    assert tail + close == if |slots| == 1 then close else "," + (SpellSlots(slots[1..]) + close);
    Regrouped(slots[0].before, v, after, tail, close);
  }

  lemma Regrouped(a: string, b: string, c: string, d: string, e: string)
    ensures (a + (b + (c + d))) + e == a + (b + (c + (d + e)))
  {
  }

  lemma SlotsSkip(slots: seq<Slot>, close: string)
    requires FineSlots(slots) && slots != [] && close != ""
    ensures var s := FromSlot(slots, close);
            s != "" && s[0] > ' ' && s[0] != ']' && SkipWhitespace(SpellSlots(slots) + close) == s
  {
    assert Blank(slots[0].before) && Fine(slots[0].value);
    hide FineSlots, Fine, SpellSlots, SkipWhitespace, Blank;
    ValueStarts(slots[0].value);
    var v, more := SpellValue(slots[0].value), slots[0].after + (if |slots| == 1 then close else "," + (SpellSlots(slots[1..]) + close));
    FirstOf(v, more);
    SlotsSpelled(slots, close);
    BlankSkipped(slots[0].before, v + more);
  }

  lemma {:induction false} SlotsRead(slots: seq<Slot>, rest: string, depth: nat)
    requires FineSlots(slots) && slots != [] && Terminated(rest) && SlotsDepth(slots) + depth <= NESTING_LIMIT
    ensures var s := FromSlot(slots, "]" + rest); Terminated(s) && ParseElements(s, depth) == Ok(Trees(slots), rest)
    decreases slots, 1
  {
    hide *;
    SlotParts(slots, depth);
    ClosingOf(']', rest);
    var close := "]" + rest;
    var more := if |slots| == 1 then close else "," + (SpellSlots(slots[1..]) + close);
    FromSlotIs(slots, close);
    if |slots| == 1 {
      BehindValue(slots[0].after, close);
      FollowingEnds(slots[0].value, slots[0].after + close);
      ValueRead(slots[0].value, slots[0].after + close, depth);
      ElementsEnd(FromSlot(slots, close), depth);
      assert [Tree(slots[0].value)] + [] == [Tree(slots[0].value)];
    } else {
      SlotsRead(slots[1..], rest, depth);
      TerminatedAppend(SpellSlots(slots[1..]), close) by { ClosingIs(close); }
      ClosingOf(',', SpellSlots(slots[1..]) + close);
      SlotsSkip(slots[1..], close);
      BehindValue(slots[0].after, more);
      FollowingEnds(slots[0].value, slots[0].after + more);
      ValueRead(slots[0].value, slots[0].after + more, depth);
      ElementsGoOn(FromSlot(slots, close), depth);
    }
  }

  lemma FromSlotIs(slots: seq<Slot>, close: string)
    requires slots != []
    ensures FromSlot(slots, close) ==
            SpellValue(slots[0].value) + (slots[0].after + (if |slots| == 1 then close else "," + (SpellSlots(slots[1..]) + close)))
  {
  }

  /** Blanks behind a value are skipped, and no number goes on there. */
  lemma BehindValue(blank: string, s: string)
    requires Blank(blank) && Closing(s)
    ensures Follows(blank + s) && blank + s != "" && SkipWhitespace(blank + s) == s
  {
    hide *;
    ClosingIs(s);
    BlankFollows(blank, s);
    FollowsIs(blank + s);
    BlankSkipped(blank, s);
  }

  lemma FollowsIs(s: string)
    requires Follows(s)
    ensures Terminated(s) && s != ""
  {
  }

  lemma {:induction false} ObjectRead(gap: string, entries: seq<Entry>, rest: string, depth: nat)
    requires Fine(OfObject(gap, entries)) && Terminated(rest) && Depth(OfObject(gap, entries)) + depth <= NESTING_LIMIT
    ensures var t := OfObject(gap, entries);
            Terminated(SpellValue(t) + rest) && ParseValue(SpellValue(t) + rest, depth) == Ok(Tree(t), rest)
    decreases entries, 2
  {
    hide *;
    var s := SpellValue(OfObject(gap, entries)) + rest;
    TerminatedAppend(SpellValue(OfObject(gap, entries)), rest);
    ObjectSpelled(gap, entries, rest);
    ObjectParts(gap, entries, depth);
    ObjectStep(s, depth);
    ClosingOf('}', rest);
    ClosingIs("}" + rest);
    if entries == [] {
      BlankSkipped(gap, "}" + rest);
    } else {
      EntriesSkip(entries, "}" + rest);
      EntriesRead(entries, rest, depth + 1);
    }
  }

  lemma EntryParts(entries: seq<Entry>, depth: nat)
    requires FineEntries(entries) && entries != [] && EntriesDepth(entries) + depth <= NESTING_LIMIT
    ensures var e := entries[0];
            && Blank(e.before) && FineLiteral(e.key) && Blank(e.middle) && Blank(e.start) && Fine(e.value) && Blank(e.after)
            && FineEntries(entries[1..]) && Depth(e.value) + depth <= NESTING_LIMIT
            && EntriesDepth(entries[1..]) + depth <= NESTING_LIMIT
            && Members(entries) == [Member(LiteralText(e.key), Tree(e.value))] + Members(entries[1..])
            && (|entries| == 1 ==> Members(entries[1..]) == [])
  {
    hide Fine, Depth, Tree, Blank, FineLiteral, LiteralText;
  }

  /** The first member behind its blanks. */
  function FromEntry(entries: seq<Entry>, close: string): string
    requires entries != []
  {
    SpellEntry(entries[0]) + (entries[0].after + (if |entries| == 1 then close else "," + (SpellEntries(entries[1..]) + close)))
  }

  lemma EntriesSpelled(entries: seq<Entry>, close: string)
    requires entries != []
    ensures SpellEntries(entries) + close == entries[0].before + FromEntry(entries, close)
  {
    hide SpellEntry;
    var v, after := SpellEntry(entries[0]), entries[0].after;
    var tail := if |entries| == 1 then "" else "," + SpellEntries(entries[1..]);
    assert SpellEntries(entries) == entries[0].before + (v + (after + tail));
    hide *;
    assert tail + close == if |entries| == 1 then close else "," + (SpellEntries(entries[1..]) + close);
    Regrouped(entries[0].before, v, after, tail, close);
  }

  lemma EntryStarts(e: Entry, rest: string)
    ensures var s := SpellEntry(e) + rest; s != "" && s[0] == '\"'
  {
    hide Inside, SpellValue;
    var inside, more := Inside(e.key), e.middle + (":" + (e.start + SpellValue(e.value)));
    assert SpellLiteral(e.key) == "\"" + inside;
    FirstOf("\"", inside);
    FirstOf("\"" + inside, more);
    FirstOf("\"" + inside + more, rest);
  }

  lemma EntriesSkip(entries: seq<Entry>, close: string)
    requires FineEntries(entries) && entries != [] && close != ""
    ensures var s := FromEntry(entries, close);
            s != "" && s[0] == '\"' && SkipWhitespace(SpellEntries(entries) + close) == s
  {
    assert Blank(entries[0].before);
    hide FineEntries, Fine, SpellEntries, SpellEntry, SkipWhitespace, Blank;
    EntryStarts(entries[0], entries[0].after + (if |entries| == 1 then close else "," + (SpellEntries(entries[1..]) + close)));
    EntriesSpelled(entries, close);
    BlankSkipped(entries[0].before, FromEntry(entries, close));
  }

  lemma FromEntryIs(entries: seq<Entry>, close: string)
    requires entries != []
    ensures FromEntry(entries, close) ==
            SpellEntry(entries[0]) + (entries[0].after + (if |entries| == 1 then close else "," + (SpellEntries(entries[1..]) + close)))
  {
  }

  /** How a member is read. */
  lemma MemberStep(s: string, depth: nat)
    requires Terminated(s)
    ensures var k := ParseString(s);
            ParseMember(s, depth) ==
            if k.Fail? then Fail(k.rest)
            else
              var colon := SkipWhitespace(k.rest);
              if colon[0] != ':' then Fail(colon)
              else
                var v := ParseValue(SkipWhitespace(colon[1..]), depth);
                if v.Ok? then Ok(Member(k.value, v.value), v.rest) else Fail(v.rest)
  {
    hide ParseString, SkipWhitespace, ParseValue;
  }

  lemma EntryGrouped(e: Entry, rest: string)
    ensures SpellEntry(e) + rest == SpellLiteral(e.key) + (e.middle + (":" + (e.start + (SpellValue(e.value) + rest))))
  {
    hide SpellLiteral, SpellValue;
    var k, v := SpellLiteral(e.key), SpellValue(e.value);
    assert (e.start + v) + rest == e.start + (v + rest);
    assert (":" + (e.start + v)) + rest == ":" + ((e.start + v) + rest);
    assert (e.middle + (":" + (e.start + v))) + rest == e.middle + ((":" + (e.start + v)) + rest);
  }

  lemma ColonIs(t: string)
    ensures (":" + t)[0] == ':' && ":" + t != "" && (":" + t)[1..] == t && ':' > ' '
  {
  }

  lemma {:induction false} EntryRead(e: Entry, rest: string, depth: nat)
    requires FineLiteral(e.key) && Blank(e.middle) && Blank(e.start) && Fine(e.value)
    requires Ends(e.value, rest) && Depth(e.value) + depth <= NESTING_LIMIT
    ensures var s := SpellEntry(e) + rest;
            Terminated(s) && ParseMember(s, depth) == Ok(Member(LiteralText(e.key), Tree(e.value)), rest)
    decreases e, 0
  {
    hide *;
    ValueRead(e.value, rest, depth);
    var value := SpellValue(e.value) + rest;
    ValueStarts(e.value);
    FirstOf(SpellValue(e.value), rest);
    TerminatedAppend(e.start, value);
    TerminatedAppend(":", e.start + value);
    TerminatedAppend(e.middle, ":" + (e.start + value));
    LiteralRead(e.key, e.middle + (":" + (e.start + value)));
    ColonIs(e.start + value);
    BlankSkipped(e.middle, ":" + (e.start + value));
    BlankSkipped(e.start, value);
    EntryGrouped(e, rest);
    MemberStep(SpellEntry(e) + rest, depth);
  }

  lemma {:induction false} EntriesRead(entries: seq<Entry>, rest: string, depth: nat)
    requires FineEntries(entries) && entries != [] && Terminated(rest) && EntriesDepth(entries) + depth <= NESTING_LIMIT
    ensures var s := FromEntry(entries, "}" + rest); Terminated(s) && ParseMembers(s, depth) == Ok(Members(entries), rest)
    decreases entries, 1
  {
    hide *;
    EntryParts(entries, depth);
    ClosingOf('}', rest);
    var close, e := "}" + rest, entries[0];
    var more := if |entries| == 1 then close else "," + (SpellEntries(entries[1..]) + close);
    FromEntryIs(entries, close);
    if |entries| == 1 {
      BehindValue(e.after, close);
      FollowingEnds(e.value, e.after + close);
      EntryRead(e, e.after + close, depth);
      MembersEnd(FromEntry(entries, close), depth);
      assert [Member(LiteralText(e.key), Tree(e.value))] + [] == [Member(LiteralText(e.key), Tree(e.value))];
    } else {
      EntriesRead(entries[1..], rest, depth);
      TerminatedAppend(SpellEntries(entries[1..]), close) by { ClosingIs(close); }
      ClosingOf(',', SpellEntries(entries[1..]) + close);
      EntriesSkip(entries[1..], close);
      BehindValue(e.after, more);
      FollowingEnds(e.value, e.after + more);
      EntryRead(e, e.after + more, depth);
      MembersGoOn(FromEntry(entries, close), depth);
    }
  }

  // ---- Everything that is read is of the syntax ----

  lemma {:induction false} BlankRead(s: string) returns (blank: string)
    requires s != ""
    ensures Blank(blank) && s == blank + SkipWhitespace(s)
    decreases |s|
  {
    if |s| > 1 && s[0] <= ' ' {
      blank := BlankRead(s[1..]);
      blank := [s[0]] + blank;
      assert s == [s[0]] + s[1..];
    } else {
      blank := "";
    }
  }

  /** The dispatch on the first characters. */
  lemma ValueStep(s: string, depth: nat)
    requires Terminated(s)
    ensures ParseValue(s, depth) ==
            if StartsWith(s, "null") then Ok(Null, s[4..])
            else if StartsWith(s, "false") then Ok(False, s[5..])
            else if StartsWith(s, "true") then Ok(True, s[4..])
            else if s[0] == '\"' then
              var r := ParseString(s);
              if r.Ok? then Ok(String(r.value), r.rest) else Fail(r.rest)
            else if s[0] == '-' || IsDigit(s[0]) then ParseNumber(s)
            else if s[0] == '[' then ParseArray(s, depth)
            else if s[0] == '{' then ParseObject(s, depth)
            else Fail(s)
  {
    hide ParseString, ParseNumber, ParseArray, ParseObject;
  }

  lemma ArrayIs(s: string, depth: nat)
    requires Terminated(s) && s[0] == '['
    ensures var first := SkipWhitespace(s[1..]);
            ParseArray(s, depth) ==
            if depth >= NESTING_LIMIT then Fail(s)
            else if first[0] == ']' then Ok(Array([]), first[1..])
            else var r := ParseElements(first, depth + 1); if r.Ok? then Ok(Array(r.value), r.rest) else Fail(r.rest)
  {
    hide ParseElements, SkipWhitespace;
  }

  lemma ObjectIs(s: string, depth: nat)
    requires Terminated(s) && s[0] == '{'
    ensures var first := SkipWhitespace(s[1..]);
            ParseObject(s, depth) ==
            if depth >= NESTING_LIMIT then Fail(s)
            else if first[0] == '}' then Ok(Object([]), first[1..])
            else var r := ParseMembers(first, depth + 1); if r.Ok? then Ok(Object(r.value), r.rest) else Fail(r.rest)
  {
    hide ParseMembers, SkipWhitespace;
  }

  lemma ElementsStep(s: string, depth: nat)
    requires Terminated(s)
    ensures var v := ParseValue(s, depth);
            if v.Fail? then ParseElements(s, depth) == Fail(v.rest)
            else
              var after := SkipWhitespace(v.rest);
              if after[0] == ',' then
                var r := ParseElements(SkipWhitespace(after[1..]), depth);
                ParseElements(s, depth) == if r.Ok? then Ok([v.value] + r.value, r.rest) else r
              else ParseElements(s, depth) == if after[0] == ']' then Ok([v.value], after[1..]) else Fail(after)
  {
    hide ParseValue, SkipWhitespace;
  }

  lemma MembersStep(s: string, depth: nat)
    requires Terminated(s)
    ensures var m := ParseMember(s, depth);
            if m.Fail? then ParseMembers(s, depth) == Fail(m.rest)
            else
              var after := SkipWhitespace(m.rest);
              if after[0] == ',' then
                var r := ParseMembers(SkipWhitespace(after[1..]), depth);
                ParseMembers(s, depth) == if r.Ok? then Ok([m.value] + r.value, r.rest) else r
              else ParseMembers(s, depth) == if after[0] == '}' then Ok([m.value], after[1..]) else Fail(after)
  {
    hide ParseMember, SkipWhitespace;
  }

  lemma WordIs(s: string, word: string)
    requires StartsWith(s, word)
    ensures s == word + s[|word|..]
  {
  }

  lemma WordsFine()
    ensures forall t: Syntax | t.NullSyntax? || t.FalseSyntax? || t.TrueSyntax? :: Fine(t) && Depth(t) == 0
    ensures Tree(NullSyntax) == Null && Tree(FalseSyntax) == False && Tree(TrueSyntax) == True
    ensures SpellValue(NullSyntax) == "null" && SpellValue(FalseSyntax) == "false" && SpellValue(TrueSyntax) == "true"
    ensures |"null"| == 4 && |"false"| == 5 && |"true"| == 4
  {
  }

  lemma NumberFine(n: NumberSyntax)
    requires FineNumber(n) && |SpellNumber(n)| <= 63
    ensures var t := OfNumber(n);
            Fine(t) && Depth(t) == 0 && SpellValue(t) == SpellNumber(n) && Tree(t) == MakeNumber(NumberValue(n))
  {
    hide FineNumber, SpellNumber, NumberValue;
  }

  lemma LiteralFine(q: LiteralSyntax)
    requires FineLiteral(q)
    ensures var t := OfString(q);
            Fine(t) && Depth(t) == 0 && SpellValue(t) == SpellLiteral(q) && Tree(t) == String(LiteralText(q))
  {
    hide FineLiteral, SpellLiteral, LiteralText;
  }

  lemma Shorter(s: string, depth: nat)
    requires Terminated(s) && ParseValue(s, depth).Ok?
    ensures Terminated(ParseValue(s, depth).rest) && ParseValue(s, depth).rest != "" && |ParseValue(s, depth).rest| < |s|
  {
  }

  lemma SkipShorter(s: string)
    requires Terminated(s)
    ensures Terminated(SkipWhitespace(s)) && SkipWhitespace(s) != "" && |SkipWhitespace(s)| <= |s|
  {
  }

  lemma TailTerminated(s: string)
    requires Terminated(s) && s[0] != NUL
    ensures |s| > 1 && Terminated(s[1..]) && s == [s[0]] + s[1..]
  {
  }

  lemma {:induction false} ValueIsSyntax(s: string, depth: nat) returns (t: Syntax)
    requires Terminated(s) && depth <= NESTING_LIMIT && ParseValue(s, depth).Ok?
    ensures var r := ParseValue(s, depth);
            Fine(t) && s == SpellValue(t) + r.rest && Tree(t) == r.value && Depth(t) + depth <= NESTING_LIMIT && Ends(t, r.rest)
    decreases |s|, 1
  {
    hide *;
    ValueStep(s, depth);
    WordsFine();
    Shorter(s, depth);
    var rest := ParseValue(s, depth).rest;
    if StartsWith(s, "null") {
      t := NullSyntax;
      WordIs(s, "null");
    } else if StartsWith(s, "false") {
      t := FalseSyntax;
      WordIs(s, "false");
    } else if StartsWith(s, "true") {
      t := TrueSyntax;
      WordIs(s, "true");
    } else if s[0] == '\"' {
      var q := LiteralIsSyntax(s);
      t := OfString(q);
      LiteralFine(q);
    } else if s[0] == '-' || IsDigit(s[0]) {
      var n := NumberIsSyntax(s);
      t := OfNumber(n);
      NumberFine(n);
      NumberEnds(n, s, rest);
    } else if s[0] == '[' {
      t := ArrayIsSyntax(s, depth);
    } else {
      t := ObjectIsSyntax(s, depth);
    }
    if !t.OfNumber? { OthersEnd(t, rest); }
  }

  lemma OthersEnd(t: Syntax, rest: string)
    requires !t.OfNumber? && Terminated(rest)
    ensures Ends(t, rest)
  {
  }

  lemma NumberEnds(n: NumberSyntax, s: string, rest: string)
    requires Fine(OfNumber(n)) && Terminated(s) && Terminated(rest) && s == SpellNumber(n) + rest
    requires ParseNumber(s) == Ok(MakeNumber(NumberValue(n)), rest)
    ensures Ends(OfNumber(n), rest)
  {
    hide ParseNumber, SpellNumber, FineNumber, NumberValue;
  }

  lemma ArrayMade(gap: string, slots: seq<Slot>, depth: nat)
    requires Blank(gap) && FineSlots(slots) && depth < NESTING_LIMIT && SlotsDepth(slots) + depth + 1 <= NESTING_LIMIT
    ensures var t := OfArray(gap, slots);
            && Fine(t) && Tree(t) == Array(Trees(slots)) && Depth(t) + depth <= NESTING_LIMIT
            && SpellValue(t) == "[" + ((if slots == [] then gap else SpellSlots(slots)) + "]")
  {
    hide FineSlots, SlotsDepth, Blank, SpellSlots, Trees;
  }

  lemma NoSlots()
    ensures FineSlots([]) && SlotsDepth([]) == 0 && Trees([]) == [] && Blank("") && FineEntries([]) && EntriesDepth([]) == 0 && Members([]) == []
  {
  }

  lemma Bracketed(s: string, open: char, body: string, close: char, rest: string)
    requires s != "" && s[0] == open && s[1..] == body + ([close] + rest)
    ensures s == ([open] + (body + [close])) + rest
  {
    assert s == [open] + s[1..];
  }

  lemma {:induction false} ArrayIsSyntax(s: string, depth: nat) returns (t: Syntax)
    requires Terminated(s) && s[0] == '[' && depth <= NESTING_LIMIT && ParseArray(s, depth).Ok?
    ensures var r := ParseArray(s, depth);
            t.OfArray? && Fine(t) && s == SpellValue(t) + r.rest && Tree(t) == r.value && Depth(t) + depth <= NESTING_LIMIT
    decreases |s|, 0
  {
    hide *;
    NoSlots();
    OpenIsNoNul();
    TailTerminated(s);
    ArrayIs(s, depth);
    SkipShorter(s[1..]);
    var first, rest := SkipWhitespace(s[1..]), ParseArray(s, depth).rest;
    var blank := BlankRead(s[1..]);
    if first[0] == ']' {
      t := OfArray(blank, []);
      TailTerminated(first);
      ArrayMade(blank, [], depth);
      Bracketed(s, '[', blank, ']', rest);
    } else {
      var slots := ElementsAreSyntax(first, blank, depth + 1);
      t := OfArray("", slots);
      ArrayMade("", slots, depth);
      Bracketed(s, '[', SpellSlots(slots), ']', rest);
    }
  }

  lemma OpenIsNoNul()
    ensures '[' != NUL && '{' != NUL && ',' != NUL && ']' != NUL && '}' != NUL && ':' != NUL
  {
  }

  lemma SlotsMade(slot: Slot, more: seq<Slot>, depth: nat)
    requires Blank(slot.before) && Fine(slot.value) && Blank(slot.after) && FineSlots(more)
    requires Depth(slot.value) + depth <= NESTING_LIMIT && SlotsDepth(more) + depth <= NESTING_LIMIT
    ensures var slots := [slot] + more;
            && FineSlots(slots) && SlotsDepth(slots) + depth <= NESTING_LIMIT
            && Trees(slots) == [Tree(slot.value)] + Trees(more)
            && SpellSlots(slots) ==
               slot.before + (SpellValue(slot.value) + (slot.after + (if more == [] then "" else "," + SpellSlots(more))))
  {
    var slots := [slot] + more;
    assert slots[1..] == more && slots[0] == slot;
    hide Fine, Depth, Tree, Blank, SpellValue;
  }

  lemma LastJoined(before: string, v: string, after: string, close: string)
    ensures before + (v + (after + close)) == (before + (v + (after + ""))) + close
  {
    Regrouped(before, v, after, "", close);
    assert "" + close == close;
  }

  lemma {:induction false} ElementsAreSyntax(s: string, before: string, depth: nat) returns (slots: seq<Slot>)
    requires Terminated(s) && Blank(before) && depth <= NESTING_LIMIT && ParseElements(s, depth).Ok?
    ensures var r := ParseElements(s, depth);
            && slots != [] && FineSlots(slots) && SlotsDepth(slots) + depth <= NESTING_LIMIT
            && before + s == SpellSlots(slots) + ("]" + r.rest) && Trees(slots) == r.value
    decreases |s|, 2
  {
    hide *;
    OpenIsNoNul();
    NoSlots();
    ElementsStep(s, depth);
    var v, rest := ParseValue(s, depth), ParseElements(s, depth).rest;
    var t := ValueIsSyntax(s, depth);
    Shorter(s, depth);
    var blank := BlankRead(v.rest);
    SkipShorter(v.rest);
    var after := SkipWhitespace(v.rest);
    TailTerminated(after);
    var slot := Slot(before, t, blank);
    if after[0] == ',' {
      SkipShorter(after[1..]);
      var gap := BlankRead(after[1..]);
      var more := ElementsAreSyntax(SkipWhitespace(after[1..]), gap, depth);
      slots := [slot] + more;
      SlotsMade(slot, more, depth);
      Joined(before, SpellValue(t), blank, SpellSlots(more), "]" + rest);
    } else {
      slots := [slot] + [];
      SlotsMade(slot, [], depth);
      assert [Tree(t)] + [] == [Tree(t)];
      LastJoined(before, SpellValue(t), blank, "]" + rest);
    }
  }

  lemma Joined(before: string, v: string, after: string, more: string, close: string)
    ensures before + (v + (after + ("," + (more + close)))) == (before + (v + (after + ("," + more)))) + close
  {
    Regrouped(before, v, after, "," + more, close);
    assert ("," + more) + close == "," + (more + close);
  }

  lemma ObjectMade(gap: string, entries: seq<Entry>, depth: nat)
    requires Blank(gap) && FineEntries(entries) && depth < NESTING_LIMIT && EntriesDepth(entries) + depth + 1 <= NESTING_LIMIT
    ensures var t := OfObject(gap, entries);
            && Fine(t) && Tree(t) == Object(Members(entries)) && Depth(t) + depth <= NESTING_LIMIT
            && SpellValue(t) == "{" + ((if entries == [] then gap else SpellEntries(entries)) + "}")
  {
    hide FineEntries, EntriesDepth, Blank, SpellEntries, Members;
  }

  lemma {:induction false} ObjectIsSyntax(s: string, depth: nat) returns (t: Syntax)
    requires Terminated(s) && s[0] == '{' && depth <= NESTING_LIMIT && ParseObject(s, depth).Ok?
    ensures var r := ParseObject(s, depth);
            t.OfObject? && Fine(t) && s == SpellValue(t) + r.rest && Tree(t) == r.value && Depth(t) + depth <= NESTING_LIMIT
    decreases |s|, 0
  {
    hide *;
    NoSlots();
    OpenIsNoNul();
    TailTerminated(s);
    ObjectIs(s, depth);
    SkipShorter(s[1..]);
    var first, rest := SkipWhitespace(s[1..]), ParseObject(s, depth).rest;
    var blank := BlankRead(s[1..]);
    if first[0] == '}' {
      t := OfObject(blank, []);
      TailTerminated(first);
      ObjectMade(blank, [], depth);
      Bracketed(s, '{', blank, '}', rest);
    } else {
      var entries := MembersAreSyntax(first, blank, depth + 1);
      t := OfObject("", entries);
      ObjectMade("", entries, depth);
      Bracketed(s, '{', SpellEntries(entries), '}', rest);
    }
  }

  lemma EntriesMade(e: Entry, more: seq<Entry>, depth: nat)
    requires Blank(e.before) && FineLiteral(e.key) && Blank(e.middle) && Blank(e.start) && Fine(e.value) && Blank(e.after)
    requires FineEntries(more) && Depth(e.value) + depth <= NESTING_LIMIT && EntriesDepth(more) + depth <= NESTING_LIMIT
    ensures var entries := [e] + more;
            && FineEntries(entries) && EntriesDepth(entries) + depth <= NESTING_LIMIT
            && Members(entries) == [Member(LiteralText(e.key), Tree(e.value))] + Members(more)
            && SpellEntries(entries) == e.before + (SpellEntry(e) + (e.after + (if more == [] then "" else "," + SpellEntries(more))))
  {
    var entries := [e] + more;
    assert entries[1..] == more && entries[0] == e;
    hide Fine, Depth, Tree, Blank, SpellEntry, FineLiteral, LiteralText;
  }

  lemma MemberShorter(s: string, depth: nat)
    requires Terminated(s) && ParseMember(s, depth).Ok?
    ensures Terminated(ParseMember(s, depth).rest) && ParseMember(s, depth).rest != "" && |ParseMember(s, depth).rest| < |s|
  {
  }

  lemma StringShorter(s: string)
    requires Terminated(s) && ParseString(s).Ok?
    ensures Terminated(ParseString(s).rest) && ParseString(s).rest != "" && |ParseString(s).rest| < |s|
  {
  }

  lemma {:induction false} MemberIsSyntax(s: string, before: string, after: string, depth: nat) returns (e: Entry)
    requires Terminated(s) && depth <= NESTING_LIMIT && ParseMember(s, depth).Ok?
    ensures var r := ParseMember(s, depth);
            && e.before == before && e.after == after
            && FineLiteral(e.key) && Blank(e.middle) && Blank(e.start) && Fine(e.value) && Depth(e.value) + depth <= NESTING_LIMIT
            && s == SpellEntry(e) + r.rest && r.value == Member(LiteralText(e.key), Tree(e.value)) && Ends(e.value, r.rest)
    decreases |s|, 2
  {
    hide *;
    OpenIsNoNul();
    MemberStep(s, depth);
    var q := LiteralIsSyntax(s);
    StringShorter(s);
    var k := ParseString(s);
    var middle := BlankRead(k.rest);
    SkipShorter(k.rest);
    var colon := SkipWhitespace(k.rest);
    TailTerminated(colon);
    var start := BlankRead(colon[1..]);
    SkipShorter(colon[1..]);
    var value := SkipWhitespace(colon[1..]);
    var t := ValueIsSyntax(value, depth);
    e := Entry(before, q, middle, start, t, after);
    EntryGrouped(e, ParseMember(s, depth).rest);
  }

  lemma {:induction false} MembersAreSyntax(s: string, before: string, depth: nat) returns (entries: seq<Entry>)
    requires Terminated(s) && Blank(before) && depth <= NESTING_LIMIT && ParseMembers(s, depth).Ok?
    ensures var r := ParseMembers(s, depth);
            && entries != [] && FineEntries(entries) && EntriesDepth(entries) + depth <= NESTING_LIMIT
            && before + s == SpellEntries(entries) + ("}" + r.rest) && Members(entries) == r.value
    decreases |s|, 3
  {
    hide *;
    OpenIsNoNul();
    NoSlots();
    MembersStep(s, depth);
    var m, rest := ParseMember(s, depth), ParseMembers(s, depth).rest;
    MemberShorter(s, depth);
    var blank := BlankRead(m.rest);
    SkipShorter(m.rest);
    var after := SkipWhitespace(m.rest);
    TailTerminated(after);
    var e := MemberIsSyntax(s, before, blank, depth);
    if after[0] == ',' {
      SkipShorter(after[1..]);
      var gap := BlankRead(after[1..]);
      var more := MembersAreSyntax(SkipWhitespace(after[1..]), gap, depth);
      entries := [e] + more;
      EntriesMade(e, more, depth);
      Joined(before, SpellEntry(e), blank, SpellEntries(more), "}" + rest);
    } else {
      entries := [e] + [];
      EntriesMade(e, [], depth);
      assert [m.value] + [] == [m.value];
      LastJoined(before, SpellEntry(e), blank, "}" + rest);
    }
  }

  // ---- Whole texts ----

  const BOM := "\U{EF}\U{BB}\U{BF}"

  /** A text of the grammar: maybe a byte order mark, blanks, a value, blanks. */
  ghost predicate InGrammar(text: string, j: Json) {
    exists bom: string, before: string, t: Syntax, after: string ::
      && (bom == "" || bom == BOM) && Blank(before) && Fine(t) && Blank(after) && Depth(t) <= 1000
      && text == bom + (before + (SpellValue(t) + after)) && j == Tree(t)
  }

  lemma {:induction false} SkipToEnd(blank: string)
    requires Blank(blank)
    ensures SkipWhitespace(blank + [NUL]) == [NUL]
    decreases |blank|
  {
    var s := blank + [NUL];
    if blank == "" {
      assert s == [NUL];
    } else {
      assert s[1..] == blank[1..] + [NUL];
      SkipToEnd(blank[1..]);
    }
  }

  lemma {:induction false} SkipStops(s: string)
    requires Terminated(s)
    ensures var r := SkipWhitespace(s); |r| == 1 || r[0] > ' '
    decreases |s|
  {
    if |s| > 1 && s[0] <= ' ' { SkipStops(s[1..]); }
  }

  lemma ParseIs(text: string, requireEnd: bool)
    ensures var content := text + [NUL];
            && Terminated(content) && SkipWhitespace(SkipBom(content)) != "" && Terminated(SkipWhitespace(SkipBom(content)))
            && var r := ParseValue(SkipWhitespace(SkipBom(content)), 0);
               Parse(text, requireEnd) ==
               if r.Fail? || !requireEnd then r
               else
                 var end := SkipWhitespace(r.rest);
                 if end[0] == NUL then Ok(r.value, end) else Fail(end)
  {
    hide ParseValue, SkipWhitespace, SkipBom;
  }

  /** The mark is skipped, and nothing else is taken for one. */
  lemma BomSkipped(bom: string, before: string, value: string, rest: string)
    requires (bom == "" || bom == BOM) && Blank(before) && value != "" && value[0] < '\U{80}' && Terminated(rest)
    ensures var body := before + (value + rest); Terminated(body) && SkipBom(bom + body) == body
  {
    var body := before + (value + rest);
    TerminatedAppend(value, rest);
    TerminatedAppend(before, value + rest);
    TerminatedAppend(bom, body);
    if bom == BOM {
      assert (bom + body)[..3] == BOM && (bom + body)[3..] == body;
    } else {
      assert bom + body == body;
      assert body[0] < '\U{80}' by { if before == "" { assert body[0] == value[0]; } else { assert body[0] == before[0]; } }
      NoBom(body);
    }
  }

  lemma BomRead(content: string) returns (bom: string)
    requires Terminated(content)
    ensures (bom == "" || bom == BOM) && content == bom + SkipBom(content) && Terminated(SkipBom(content))
  {
    if |content| > 4 && content[..3] == BOM {
      bom := BOM;
    } else {
      bom := "";
    }
  }

  lemma EndFollows(after: string)
    requires Blank(after)
    ensures Follows(after + [NUL]) && Terminated(after + [NUL])
  {
    BlankFollows(after, [NUL]);
  }

  lemma Grouped(bom: string, before: string, value: string, after: string)
    ensures bom + (before + (value + after)) + [NUL] == bom + (before + (value + (after + [NUL])))
  {
    assert (value + after) + [NUL] == value + (after + [NUL]);
    assert (before + (value + after)) + [NUL] == before + ((value + after) + [NUL]);
    assert (bom + (before + (value + after))) + [NUL] == bom + ((before + (value + after)) + [NUL]);
  }

  lemma GrammarAccepted(bom: string, before: string, t: Syntax, after: string)
    requires (bom == "" || bom == BOM) && Blank(before) && Fine(t) && Blank(after) && Depth(t) <= NESTING_LIMIT
    ensures Parse(bom + (before + (SpellValue(t) + after)), true) == Ok(Tree(t), [NUL])
  {
    hide *;
    var value, rest, text := SpellValue(t), after + [NUL], bom + (before + (SpellValue(t) + after));
    Grouped(bom, before, value, after);
    ValueStarts(t);
    EndFollows(after);
    FollowingEnds(t, rest);
    BomSkipped(bom, before, value, rest);
    FirstOf(value, rest);
    BlankSkipped(before, value + rest);
    ValueRead(t, rest, 0);
    SkipToEnd(after);
    ParseIs(text, true);
  }

  lemma CutNul(text: string, a: string)
    requires text + [NUL] == a + [NUL]
    ensures text == a
  {
    assert text == (text + [NUL])[..|text|] && a == (a + [NUL])[..|a|];
  }

  lemma AcceptedInGrammar(text: string) returns (bom: string, before: string, t: Syntax, after: string)
    requires Parse(text, true).Ok?
    ensures (bom == "" || bom == BOM) && Blank(before) && Fine(t) && Blank(after) && Depth(t) <= NESTING_LIMIT
    ensures text == bom + (before + (SpellValue(t) + after)) && Parse(text, true) == Ok(Tree(t), [NUL])
  {
    hide *;
    ParseIs(text, true);
    bom := BomRead(text + [NUL]);
    var body := SkipBom(text + [NUL]);
    assert body != "" by { TerminatedIs(body); }
    before := BlankRead(body);
    var start := SkipWhitespace(body);
    t := ValueIsSyntax(start, 0);
    Shorter(start, 0);
    var r := ParseValue(start, 0);
    after := BlankRead(r.rest);
    SkipShorter(r.rest);
    SkipStops(r.rest);
    EndIsNul(SkipWhitespace(r.rest));
    Grouped(bom, before, SpellValue(t), after);
    CutNul(text, bom + (before + (SpellValue(t) + after)));
  }

  lemma TerminatedIs(s: string)
    requires Terminated(s)
    ensures s != ""
  {
  }

  lemma EndIsNul(s: string)
    requires Terminated(s) && (|s| == 1 || s[0] > ' ') && s[0] == NUL
    ensures s == [NUL]
  {
  }

  /** The parser accepts exactly the texts of the grammar, and as the trees that they denote. */
  lemma AcceptsExactly(text: string, j: Json)
    ensures Parse(text, true) == Ok(j, [NUL]) <==> InGrammar(text, j)
    ensures Parse(text, true).Ok? ==> Parse(text, true).rest == [NUL]
  {
    hide Parse, Blank, Fine, Depth, SpellValue, Tree;
    if Parse(text, true).Ok? {
      var bom, before, t, after := AcceptedInGrammar(text);
    }
    if InGrammar(text, j) {
      var bom: string, before: string, t: Syntax, after: string :|
        && (bom == "" || bom == BOM) && Blank(before) && Fine(t) && Blank(after) && Depth(t) <= 1000
        && text == bom + (before + (SpellValue(t) + after)) && j == Tree(t);
      GrammarAccepted(bom, before, t, after);
    }
  }

  /** Without the demand for an end: a value of the grammar, which ends where the text behind it begins. */
  ghost predicate FrontInGrammar(text: string, j: Json, rest: string) {
    exists bom: string, before: string, t: Syntax ::
      && (bom == "" || bom == BOM) && Blank(before) && Fine(t) && Depth(t) <= 1000
      && text + [NUL] == bom + (before + (SpellValue(t) + rest)) && j == Tree(t) && Ends(t, rest)
  }

  lemma FrontOf(text: string) returns (bom: string, before: string, t: Syntax)
    requires Parse(text, false).Ok?
    ensures (bom == "" || bom == BOM) && Blank(before) && Fine(t) && Depth(t) <= NESTING_LIMIT
    ensures var r := Parse(text, false);
            text + [NUL] == bom + (before + (SpellValue(t) + r.rest)) && r.value == Tree(t) && Ends(t, r.rest)
  {
    hide *;
    ParseIs(text, false);
    bom := BomRead(text + [NUL]);
    var body := SkipBom(text + [NUL]);
    assert body != "" by { TerminatedIs(body); }
    before := BlankRead(body);
    t := ValueIsSyntax(SkipWhitespace(body), 0);
  }

  lemma FrontAccepted(text: string, bom: string, before: string, t: Syntax, rest: string)
    requires (bom == "" || bom == BOM) && Blank(before) && Fine(t) && Depth(t) <= NESTING_LIMIT
    requires text + [NUL] == bom + (before + (SpellValue(t) + rest)) && Ends(t, rest)
    ensures Parse(text, false) == Ok(Tree(t), rest)
  {
    hide *;
    var value := SpellValue(t);
    ValueRead(t, rest, 0);
    ValueStarts(t);
    EndsIs(t, rest);
    BomSkipped(bom, before, value, rest);
    FirstOf(value, rest);
    BlankSkipped(before, value + rest);
    ParseIs(text, false);
  }

  lemma EndsIs(t: Syntax, rest: string)
    requires Ends(t, rest)
    ensures Terminated(rest)
  {
  }

  lemma AcceptsFront(text: string, j: Json, rest: string)
    ensures Parse(text, false) == Ok(j, rest) <==> FrontInGrammar(text, j, rest)
  {
    hide Parse, Blank, Fine, Depth, SpellValue, Tree, Ends;
    if Parse(text, false).Ok? {
      var bom, before, t := FrontOf(text);
    }
    if FrontInGrammar(text, j, rest) {
      var bom: string, before: string, t: Syntax :|
        && (bom == "" || bom == BOM) && Blank(before) && Fine(t) && Depth(t) <= 1000
        && text + [NUL] == bom + (before + (SpellValue(t) + rest)) && j == Tree(t) && Ends(t, rest);
      FrontAccepted(text, bom, before, t, rest);
    }
  }
}
