/**
 How formatted text is laid out: which space stands between any two tokens, in terms of the
 tokens and the brackets that are open there.
 */
module Layout {
  import opened Options
  import opened CString
  import opened Decimal
  import opened Json
  import opened Parsing
  import opened Printing
  import opened Literals
  import opened RoundTrip

  predicate White(c: char) {
    c == ' ' || c == '\t' || c == '\n' || c == '\r'
  }

  /** The space in front of the next token. */
  function Leading(t: string): (w: string)
    ensures w <= t && forall i | 0 <= i < |w| :: White(w[i])
    ensures |w| < |t| ==> !White(t[|w|])
  {
    if t == "" || !White(t[0]) then "" else [t[0]] + Leading(t[1..])
  }

  function Indent(n: nat): string {
    if n == 0 then "" else "\t" + Indent(n - 1)
  }

  /**
   The space between two tokens, inside of the brackets that are open: every member begins a
   line of its own, with a tab for each open bracket, and so does the closing one of an object,
   with a tab less; a tab stands behind a colon, and a space behind a comma in an array.
   */
  function Gap(prev: char, next: char, open: string): string {
    if next == '}' then "\n" + Indent(if open == "" then 0 else |open| - 1)
    else if prev == '{' || (prev == ',' && open != "" && open[|open| - 1] == '{') then "\n" + Indent(|open|)
    else if prev == ',' then " "
    else if prev == ':' then "\t"
    else ""
  }

  /** Behind a token: the space is as it should be up to the end of the text. */
  predicate Laid(t: string, prev: char, open: string)
    decreases |t|, 1
  {
    var space := Leading(t);
    var rest := t[|space|..];
    if rest == "" then space == "" else space == Gap(prev, rest[0], open) && LaidFrom(rest, open)
  }

  /** From a token on; a literal is one token, and of anything else each character is. */
  predicate LaidFrom(t: string, open: string)
    requires t != ""
    decreases |t|, 0
  {
    if t[0] == '\"' then
      var q := ClosingQuote(t[1..]);
      q.Some? && Laid(t[q.value + 2..], '\"', open)
    else if t[0] == '[' || t[0] == '{' then Laid(t[1..], t[0], open + [t[0]])
    else if t[0] == ']' || t[0] == '}' then open != "" && Laid(t[1..], t[0], open[..|open| - 1])
    else Laid(t[1..], t[0], open)
  }

  // ---- One step ----

  lemma LeadingIs(space: string, t: string)
    requires (forall i | 0 <= i < |space| :: White(space[i])) && t != "" && !White(t[0])
    ensures Leading(space + t) == space && (space + t)[|space|..] == t
    decreases |space|
  {
    if space == "" {
      assert space + t == t;
    } else {
      assert (space + t)[1..] == space[1..] + t;
      LeadingIs(space[1..], t);
    }
  }

  lemma {:induction false} IndentWhite(n: nat)
    ensures forall i | 0 <= i < |Indent(n)| :: White(Indent(n)[i])
  {
    if n > 0 { IndentWhite(n - 1); }
  }

  lemma GapWhite(prev: char, next: char, open: string)
    ensures forall i | 0 <= i < |Gap(prev, next, open)| :: White(Gap(prev, next, open)[i])
  {
    IndentWhite(|open|);
    if open != "" { IndentWhite(|open| - 1); }
  }

  /** The right space leads to the next token. */
  lemma LaidGap(prev: char, t: string, open: string)
    requires t != "" && !White(t[0])
    ensures Laid(Gap(prev, t[0], open) + t, prev, open) == LaidFrom(t, open)
  {
    GapWhite(prev, t[0], open);
    hide Gap, LaidFrom;
    LeadingIs(Gap(prev, t[0], open), t);
  }

  predicate Separates(c: char) {
    c == '{' || c == ',' || c == ':'
  }

  /** Which token stands in front matters only if it is one that takes space behind it. */
  lemma LaidBehind(t: string, p: char, q: char, open: string)
    requires !Separates(p) && !Separates(q)
    ensures Laid(t, p, open) == Laid(t, q, open)
  {
  }

  predicate Ordinary(c: char) {
    !White(c) && !Separates(c) && c != '\"' && c != '[' && c != ']' && c != '}'
  }

  lemma {:induction false} OrdinaryRun(t: string, rest: string, open: string)
    requires t != "" && forall i | 0 <= i < |t| :: Ordinary(t[i])
    ensures LaidFrom(t + rest, open) == Laid(rest, '\"', open)
    decreases |t|
  {
    var s := t + rest;
    assert s[0] == t[0] && s[1..] == t[1..] + rest;
    hide Gap, Laid;
    if |t| > 1 {
      OrdinaryRun(t[1..], rest, open);
      OrdinaryNext(t[0], t[1..] + rest, open);
    } else {
      assert t[1..] + rest == rest;
      LaidBehind(rest, t[0], '\"', open);
    }
  }

  lemma OrdinaryNext(c: char, t: string, open: string)
    requires Ordinary(c) && t != "" && Ordinary(t[0])
    ensures Laid(t, c, open) == LaidFrom(t, open)
  {
    LaidGap(c, t, open);
    assert Gap(c, t[0], open) == "" && "" + t == t;
    hide LaidFrom;
  }

  // ---- Trees ----

  lemma DigitsOrdinary(d: real)
    requires Whole(d)
    ensures NumberText(d) != "" && forall i | 0 <= i < |NumberText(d)| :: Ordinary(NumberText(d)[i])
  {
    var t := NumberText(d);
    assert forall i | 0 <= i < |t| :: t[i] == '-' || IsDigit(t[i]);
  }

  lemma QuoteLaid(text: string, rest: string, open: string)
    requires NulFree(text)
    ensures (Quote(text) + rest)[0] == '\"'
    ensures LaidFrom(Quote(text) + rest, open) == Laid(rest, '\"', open)
  {
    PiecesOfRight(text);
    CloseSpelling(PiecesOf(text), rest);
    var t := Quote(text) + rest;
    assert t[0] == '\"' && t[1..] == Escape(text) + "\"" + rest;
    assert t[|Escape(text)| + 2..] == rest;
    hide Escape, ClosingQuote, PiecesOf, Spell, AllWellSpelled, Laid;
  }

  lemma {:induction false} TabsAreIndent(n: nat)
    ensures Tabs(n) == Indent(n)
  {
    if n > 0 {
      TabsAreIndent(n - 1);
      assert Tabs(n) == "\t" + Tabs(n - 1);
    }
  }

  /** No printed value begins with space. */
  lemma ValueStarts(j: Json, depth: nat, rest: string)
    requires Printable(j) && Readable(j)
    ensures var t := Text(j, true, depth) + rest; t != "" && !White(t[0]) && t[0] != '}' && t[0] != ']'
  {
    TextStarts(j, true, depth);
    assert (Text(j, true, depth) + rest)[0] == Text(j, true, depth)[0];
    hide Text;
  }

  lemma {:induction false} ValueLaid(j: Json, rest: string, open: string)
    requires Printable(j) && Readable(j)
    ensures Text(j, true, |open|) + rest != ""
    ensures LaidFrom(Text(j, true, |open|) + rest, open) == Laid(rest, '\"', open)
    decreases j, 1
  {
    hide Laid, LaidFrom, Gap;
    ValueStarts(j, |open|, rest);
    match j
    case Number(d, _) => DigitsOrdinary(d); OrdinaryRun(NumberText(d), rest, open);
    case String(s) => QuoteLaid(s, rest, open);
    case Array(items) => ArrayLaid(items, rest, open);
    case Object(members) => ObjectLaid(members, rest, open);
    case False => OrdinaryRun("false", rest, open);
    case True => OrdinaryRun("true", rest, open);
    case Null => OrdinaryRun("null", rest, open);
  }

  lemma OpenLaid(c: char, t: string, open: string)
    requires c == '[' || c == '{'
    ensures LaidFrom([c] + t, open) == Laid(t, c, open + [c])
  {
    assert ([c] + t)[1..] == t;
    hide Laid;
  }

  lemma CloseLaid(c: char, t: string, open: string, outer: char)
    requires c == ']' || c == '}'
    ensures LaidFrom([c] + t, open + [outer]) == Laid(t, '\"', open)
  {
    assert ([c] + t)[1..] == t && (open + [outer])[..|open|] == open;
    LaidBehind(t, c, '\"', open);
    hide Laid;
  }

  /** A separator and the space behind it. */
  lemma SeparatorLaid(c: char, t: string, open: string)
    requires (c == ',' || c == ':') && t != "" && !White(t[0])
    ensures LaidFrom([c] + (Gap(c, t[0], open) + t), open) == LaidFrom(t, open)
  {
    LaidGap(c, t, open);
    assert ([c] + (Gap(c, t[0], open) + t))[1..] == Gap(c, t[0], open) + t;
    hide Laid, Gap;
  }

  /** A separator right behind a value. */
  lemma SeparatorNext(c: char, t: string, open: string)
    requires c == ',' || c == ':' || c == ']'
    ensures Laid([c] + t, '\"', open) == LaidFrom([c] + t, open)
  {
    LaidGap('\"', [c] + t, open);
    assert Gap('\"', c, open) == "" && "" + ([c] + t) == [c] + t;
    hide LaidFrom, Laid, Gap;
  }

  lemma {:induction false} ArrayLaid(items: seq<Json>, rest: string, open: string)
    requires PrintableItems(items) && ReadableItems(items)
    ensures Text(Array(items), true, |open|) + rest != ""
    ensures LaidFrom(Text(Array(items), true, |open|) + rest, open) == Laid(rest, '\"', open)
    decreases items, 1
  {
    var inner := open + "[";
    ArrayText(items, |open|, rest);
    hide Laid, LaidFrom, Gap, Text, ItemsText, PrintableItems, ReadableItems;
    var close := "]" + rest;
    OpenLaid('[', ItemsText(items, true, |inner|) + close, open);
    CloseLaid(']', rest, open, '[');
    if items == [] {
      EmptyItems(|inner|);
      assert "" + close == close;
      BracketNext(close, inner);
    } else {
      ItemsBegin(items, |inner|, close);
      BracketNext(ItemsText(items, true, |inner|) + close, inner);
      ItemsLaid(items, rest, open);
    }
  }

  lemma EmptyItems(depth: nat)
    ensures ItemsText([], true, depth) == ""
  {
  }

  lemma ArrayText(items: seq<Json>, depth: nat, rest: string)
    requires PrintableItems(items)
    ensures Printable(Array(items))
    ensures Text(Array(items), true, depth) + rest == "[" + (ItemsText(items, true, depth + 1) + ("]" + rest))
  {
    hide ItemsText;
  }

  /** Nothing stands behind '['. */
  lemma BracketNext(t: string, open: string)
    requires t != "" && !White(t[0]) && t[0] != '}'
    ensures Laid(t, '[', open) == LaidFrom(t, open)
  {
    LaidGap('[', t, open);
    assert Gap('[', t[0], open) == "" && "" + t == t;
    hide LaidFrom, Laid, Gap;
  }

  lemma ItemsBegin(items: seq<Json>, depth: nat, rest: string)
    requires PrintableItems(items) && ReadableItems(items) && items != []
    ensures var t := ItemsText(items, true, depth) + rest; t != "" && !White(t[0]) && t[0] != '}'
  {
    ItemsStart(items, true, depth);
    TextStarts(items[0], true, depth);
    assert ItemsText(items, true, depth)[0] == Text(items[0], true, depth)[0];
    assert (ItemsText(items, true, depth) + rest)[0] == ItemsText(items, true, depth)[0];
    hide Text, ItemsText;
  }

  lemma ItemsHead(items: seq<Json>, depth: nat, rest: string)
    requires PrintableItems(items) && items != []
    ensures PrintableItems(items[1..]) && Printable(items[0])
    ensures ItemsText(items, true, depth) + rest ==
            Text(items[0], true, depth) +
            (if |items| == 1 then rest else "," + (" " + (ItemsText(items[1..], true, depth) + rest)))
  {
    hide Text;
  }

  lemma {:induction false} ItemsLaid(items: seq<Json>, rest: string, open: string)
    requires PrintableItems(items) && ReadableItems(items) && items != []
    ensures var inner := open + "["; var t := ItemsText(items, true, |inner|) + ("]" + rest);
            t != "" && LaidFrom(t, inner) == Laid(rest, '\"', open)
    decreases items, 0
  {
    var inner, close := open + "[", "]" + rest;
    ItemsHead(items, |inner|, close);
    TailReadable(items);
    hide Laid, LaidFrom, Text, ItemsText, PrintableItems, ReadableItems, Printable, Readable;
    if |items| == 1 {
      ValueLaid(items[0], close, inner);
      SeparatorNext(']', rest, inner);
      CloseLaid(']', rest, open, '[');
    } else {
      var tail := ItemsText(items[1..], true, |inner|) + close;
      ItemsBegin(items[1..], |inner|, close);
      ItemsLaid(items[1..], rest, open);
      assert Gap(',', tail[0], inner) == " ";
      hide Gap;
      ValueLaid(items[0], "," + (" " + tail), inner);
      SeparatorNext(',', " " + tail, inner);
      SeparatorLaid(',', tail, inner);
    }
  }

  lemma {:induction false} ObjectLaid(members: seq<Member<Json>>, rest: string, open: string)
    requires PrintableMembers(members) && ReadableMembers(members)
    ensures Text(Object(members), true, |open|) + rest != ""
    ensures LaidFrom(Text(Object(members), true, |open|) + rest, open) == Laid(rest, '\"', open)
    decreases members, 2
  {
    var inner := open + "{";
    ObjectText(members, |open|, rest);
    hide Laid, LaidFrom, Gap, Text, MembersText, PrintableMembers, ReadableMembers, Tabs;
    OpenLaid('{', "\n" + (MembersText(members, true, |inner|) + (Tabs(|open|) + ("}" + rest))), open);
    MembersLaid(members, '{', rest, open);
  }

  lemma ObjectText(members: seq<Member<Json>>, depth: nat, rest: string)
    requires PrintableMembers(members)
    ensures Printable(Object(members))
    ensures Text(Object(members), true, depth) + rest ==
            "{" + ("\n" + (MembersText(members, true, depth + 1) + (Tabs(depth) + ("}" + rest))))
  {
    hide MembersText, PrintableMembers, Tabs;
    var body := MembersText(members, true, depth + 1);
    assert Text(Object(members), true, depth) == "{\n" + body + Tabs(depth) + "}";
    hide Text;
    Grouped(body, Tabs(depth), rest);
  }

  lemma Grouped(body: string, tabs: string, rest: string)
    ensures ("{\n" + body + tabs + "}") + rest == "{" + ("\n" + (body + (tabs + ("}" + rest))))
  { }

  lemma ColonTail(value: string, more: bool, tail: string)
    ensures Colon(true) + (value + AfterMember(more, true, tail)) ==
            ":" + ("\t" + (value + ((if more then "," else "") + ("\n" + tail))))
  {
    assert ":\t" == ":" + "\t";
    var v := value + AfterMember(more, true, tail);
    assert (":" + "\t") + v == ":" + ("\t" + v);
  }

  lemma MembersHead(ms: seq<Member<Json>>, depth: nat, rest: string)
    requires PrintableMembers(ms) && ms != []
    ensures PrintableMembers(ms[1..]) && Printable(ms[0].value)
    ensures MembersText(ms, true, depth) + rest ==
            Tabs(depth) + (Quote(ms[0].key) + (":" + ("\t" + (Text(ms[0].value, true, depth) +
            ((if |ms| > 1 then "," else "") + ("\n" + (MembersText(ms[1..], true, depth) + rest)))))))
  {
    hide *;
    MembersTextHead(ms, true, depth, rest);
    ColonTail(Text(ms[0].value, true, depth), |ms| > 1, MembersText(ms[1..], true, depth) + rest);
  }

  /** From the line end behind '{' or ',' on. */
  lemma {:induction false} MembersLaid(ms: seq<Member<Json>>, prev: char, rest: string, open: string)
    requires PrintableMembers(ms) && ReadableMembers(ms)
    requires prev == '{' || (if ms == [] then prev == '\"' else prev == ',')
    ensures var inner := open + "{";
            Laid("\n" + (MembersText(ms, true, |inner|) + (Tabs(|open|) + ("}" + rest))), prev, inner) == Laid(rest, '\"', open)
    decreases ms, 0
  {
    var inner, close := open + "{", Tabs(|open|) + ("}" + rest);
    hide Laid, LaidFrom, Text, MembersText, PrintableMembers, ReadableMembers, Printable, Readable, Quote, Tabs;
    if ms == [] {
      EmptyMembers(true, |inner|);
      assert "" + close == close;
      EndLaid(prev, rest, open);
    } else {
      MembersHead(ms, |inner|, close);
      TailReadableMembers(ms);
      var tail := "\n" + (MembersText(ms[1..], true, |inner|) + close);
      var after := (if |ms| > 1 then "," else "") + tail;
      MemberLaid(ms[0], prev, after, inner);
      MembersLaid(ms[1..], if |ms| > 1 then ',' else '\"', rest, open);
      if |ms| > 1 {
        SeparatorNext(',', tail, inner);
        CommaLaid(tail, inner);
      } else {
        assert "" + tail == tail;
      }
    }
  }

  lemma CommaLaid(t: string, open: string)
    ensures LaidFrom("," + t, open) == Laid(t, ',', open)
  {
    assert ("," + t)[1..] == t;
    hide Laid;
  }

  lemma EndGap(prev: char, open: string)
    ensures Gap(prev, '}', open + "{") == "\n" + Tabs(|open|) && !White('}')
  {
    TabsAreIndent(|open|);
    hide Tabs, Indent;
  }

  /** The line of the closing bracket. */
  lemma EndLaid(prev: char, rest: string, open: string)
    ensures Laid("\n" + (Tabs(|open|) + ("}" + rest)), prev, open + "{") == Laid(rest, '\"', open)
  {
    hide *;
    var t := "}" + rest;
    EndGap(prev, open);
    LineGroup(Tabs(|open|), t);
    LaidGap(prev, t, open + "{");
    CloseLaid('}', rest, open, '{');
  }

  lemma MemberGaps(prev: char, next: char, open: string)
    requires open != "" && open[|open| - 1] == '{' && (prev == '{' || prev == ',') && next != '}'
    ensures Gap(prev, '\"', open) == "\n" + Tabs(|open|) && Gap(':', next, open) == "\t"
  {
    TabsAreIndent(|open|);
  }

  lemma LineGroup(tabs: string, t: string)
    ensures "\n" + (tabs + t) == ("\n" + tabs) + t
  {
  }

  /** A member from its line end on, up to what follows its value. */
  lemma {:induction false} MemberLaid(m: Member<Json>, prev: char, after: string, open: string)
    requires NulFree(m.key) && Printable(m.value) && Readable(m.value)
    requires open != "" && open[|open| - 1] == '{' && (prev == '{' || prev == ',')
    ensures Laid("\n" + (Tabs(|open|) + (Quote(m.key) + (":" + ("\t" + (Text(m.value, true, |open|) + after))))), prev, open) ==
            Laid(after, '\"', open)
    decreases m.value, 3
  {
    hide *;
    var value := Text(m.value, true, |open|) + after;
    var colon := ":" + ("\t" + value);
    var t := Quote(m.key) + colon;
    ValueStarts(m.value, |open|, after);
    QuoteLaid(m.key, colon, open);
    QuoteNotWhite();
    MemberGaps(prev, value[0], open);
    LineGroup(Tabs(|open|), t);
    LaidGap(prev, t, open);
    SeparatorNext(':', "\t" + value, open);
    SeparatorLaid(':', value, open);
    ValueLaid(m.value, after, open);
  }

  lemma QuoteNotWhite()
    ensures !White('\"')
  {
  }

  lemma NothingLaid(prev: char, open: string)
    ensures Laid("", prev, open)
  {
  }

  lemma StartLaid(t: string)
    requires t != "" && !White(t[0]) && t[0] != '}'
    ensures Laid(t, '\"', "") == LaidFrom(t, "")
  {
    LaidGap('\"', t, "");
    assert Gap('\"', t[0], "") == "" && "" + t == t;
    hide LaidFrom, Laid, Gap;
  }

  /** The formatted text of every tree is laid out so, from its first character to its last. */
  lemma FormattedLaid(j: Json)
    requires Printable(j) && Readable(j)
    ensures Laid(Text(j, true, 0), '\"', "")
  {
    hide *;
    var t := Text(j, true, 0);
    ValueStarts(j, 0, "");
    assert t + "" == t;
    ValueLaid(j, "", "");
    StartLaid(t);
    NothingLaid('\"', "");
  }
}
