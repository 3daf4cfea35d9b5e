/**
 `cJSON_Minify`, as a function of the buffer from the current position on, terminator
 included; None is running off the end of the buffer.
 */
module Minifying {
  import opened Options
  import opened CString
  import opened Json
  import opened Parsing
  import opened Printing
  import opened Literals
  import opened RoundTrip

  predicate Space(c: char) {
    c == ' ' || c == '\t' || c == '\r' || c == '\n'
  }

  /** Where a double-slash comment ends: at a line feed or at the terminator. */
  function LineEnd(s: string): (i: nat)
    ensures i <= |s|
    ensures s != "" && s[0] != NUL && s[0] != '\n' ==> i > 0
  {
    if s == "" || s[0] == NUL || s[0] == '\n' then 0 else 1 + LineEnd(s[1..])
  }

  /** Where a multiline comment's "*" "/" is, or its terminator; the search starts at the slash. */
  function CommentEnd(s: string): (i: nat)
    ensures i <= |s|
  {
    if s == "" || s[0] == NUL || (|s| > 1 && s[0] == '*' && s[1] == '/') then 0 else 1 + CommentEnd(s[1..])
  }

  function Front(a: string, m: Option<string>): Option<string> {
    if m.None? then None else Some(a + m.value)
  }

  function Minify(s: string): Option<string>
    decreases |s|
  {
    if s == "" then None
    else if s[0] == NUL then Some([NUL])
    else if Space(s[0]) then Minify(s[1..])
    else if s[0] == '/' && |s| > 1 && s[1] == '/' then Minify(s[LineEnd(s)..])
    else if s[0] == '/' && |s| > 1 && s[1] == '*' then
      var i := CommentEnd(s);
      if i + 2 > |s| then None else Minify(s[i + 2..])
    else if s[0] == '\"' then
      var q := ClosingQuote(s[1..]);
      if q.None? then None else Front(s[..q.value + 2], Minify(s[q.value + 2..]))
    else Front([s[0]], Minify(s[1..]))
  }

  // ---- Characters and literals that are copied ----

  /** What is copied one by one, in any context outside a literal. */
  predicate Copied(c: char) {
    c != NUL && !Space(c) && c != '/' && c != '\"'
  }

  lemma {:induction false} CopiedFront(t: string, s: string)
    requires forall i | 0 <= i < |t| :: Copied(t[i])
    ensures Minify(t + s) == Front(t, Minify(s))
    decreases t
  {
    if t == "" {
      assert t + s == s;
      assert Minify(s).Some? ==> "" + Minify(s).value == Minify(s).value;
    } else {
      assert (t + s)[1..] == t[1..] + s;
      CopiedFront(t[1..], s);
      assert Minify(s).Some? ==> [t[0]] + (t[1..] + Minify(s).value) == t + Minify(s).value;
    }
  }

  lemma {:induction false} SpacesFront(t: string, s: string)
    requires forall i | 0 <= i < |t| :: Space(t[i])
    ensures Minify(t + s) == Minify(s)
    decreases t
  {
    if t == "" {
      assert t + s == s;
    } else {
      assert (t + s)[1..] == t[1..] + s;
      SpacesFront(t[1..], s);
    }
  }

  lemma QuoteFront(text: string, s: string)
    requires NulFree(text)
    ensures Minify(Quote(text) + s) == Front(Quote(text), Minify(s))
  {
    PiecesOfRight(text);
    CloseSpelling(PiecesOf(text), s);
    var t := Quote(text) + s;
    assert t[0] == '\"' && t[1..] == Escape(text) + "\"" + s;
    assert t[..|Escape(text)| + 2] == Quote(text) && t[|Escape(text)| + 2..] == s;
    hide Escape, ClosingQuote, PiecesOf, Spell, AllWellSpelled;
  }

  // ---- The two layouts ----

  lemma {:induction false} MinifyPrinted(j: Json, depth: nat, flat: nat, rest: string)
    requires Printable(j) && Readable(j)
    ensures Minify(Text(j, true, depth) + rest) == Front(Text(j, false, flat), Minify(rest))
    decreases j, 0
  {
    match j
    case Number(d, _) => MinifyNumber(d, rest);
    case String(s) => QuoteFront(s, rest);
    case Array(items) => MinifyArray(items, depth, flat, rest);
    case Object(members) => MinifyObject(members, depth, flat, rest);
    case False => CopiedFront("false", rest);
    case True => CopiedFront("true", rest);
    case Null => CopiedFront("null", rest);
  }

  lemma MinifyNumber(d: real, rest: string)
    requires Whole(d)
    ensures Minify(NumberText(d) + rest) == Front(NumberText(d), Minify(rest))
  {
    NumberTextScans(d);
    assert forall c | NumberChar(c) :: Copied(c);
    hide NumberText, Strtod, Minify;
    CopiedFront(NumberText(d), rest);
  }

  lemma FrontFront(a: string, b: string, m: Option<string>)
    ensures Front(a, Front(b, m)) == Front(a + b, m)
  {
    if m.Some? { assert a + (b + m.value) == (a + b) + m.value; }
  }

  lemma {:induction false} MinifyArray(items: seq<Json>, depth: nat, flat: nat, rest: string)
    requires PrintableItems(items) && ReadableItems(items)
    ensures Minify(Text(Array(items), true, depth) + rest) == Front(Text(Array(items), false, flat), Minify(rest))
    decreases items, 1
  {
    hide Text, ItemsText, Minify, PrintableItems, ReadableItems;
    var body, plain := ItemsText(items, true, depth + 1), ItemsText(items, false, flat + 1);
    ArrayTexts(items, depth, flat, rest);
    MinifyItems(items, depth + 1, flat + 1, "]" + rest);
    CopiedFront("]", rest);
    CopiedFront("[", body + ("]" + rest));
    FrontFront(plain, "]", Minify(rest));
    FrontFront("[", plain + "]", Minify(rest));
  }

  lemma ArrayTexts(items: seq<Json>, depth: nat, flat: nat, rest: string)
    requires PrintableItems(items)
    ensures Printable(Array(items))
    ensures Text(Array(items), true, depth) + rest == "[" + (ItemsText(items, true, depth + 1) + ("]" + rest))
    ensures Text(Array(items), false, flat) == "[" + (ItemsText(items, false, flat + 1) + "]")
  { }

  lemma Group3(a: string, b: string, c: string)
    ensures a + b + c == a + (b + c)
  {
  }

  lemma {:induction false} MinifyItems(items: seq<Json>, depth: nat, flat: nat, rest: string)
    requires PrintableItems(items) && ReadableItems(items)
    ensures Minify(ItemsText(items, true, depth) + rest) == Front(ItemsText(items, false, flat), Minify(rest))
    decreases items, 0
  {
    if items == [] {
      assert "" + rest == rest;
      CopiedFront("", rest);
    } else {
      TailReadable(items);
      if |items| == 1 {
        MinifyPrinted(items[0], depth, flat, rest);
        hide Text, Minify;
      } else {
        MinifyMore(items, depth, flat, rest);
      }
    }
  }

  lemma {:induction false} MinifyMore(items: seq<Json>, depth: nat, flat: nat, rest: string)
    requires PrintableItems(items) && ReadableItems(items) && |items| > 1
    ensures Minify(ItemsText(items, true, depth) + rest) == Front(ItemsText(items, false, flat), Minify(rest))
    decreases items, 0, 0
  {
    hide Text, ItemsText, Minify, PrintableItems, ReadableItems, Printable, Readable;
    TailReadable(items);
    ItemsTexts(items, depth, flat, rest);
    var x, px := Text(items[0], true, depth), Text(items[0], false, flat);
    var tail, ptail := ItemsText(items[1..], true, depth), ItemsText(items[1..], false, flat);
    MinifyItems(items[1..], depth, flat, rest);
    SpacesFront(" ", tail + rest);
    CopiedFront(",", " " + (tail + rest));
    MinifyPrinted(items[0], depth, flat, "," + (" " + (tail + rest)));
    FrontFront(",", ptail, Minify(rest));
    FrontFront(px, "," + ptail, Minify(rest));
  }

  lemma ItemsTexts(items: seq<Json>, depth: nat, flat: nat, rest: string)
    requires |items| > 1 && PrintableItems(items) && PrintableItems(items[1..]) && Printable(items[0])
    ensures ItemsText(items, true, depth) + rest ==
            Text(items[0], true, depth) + ("," + (" " + (ItemsText(items[1..], true, depth) + rest)))
    ensures ItemsText(items, false, flat) == Text(items[0], false, flat) + ("," + ItemsText(items[1..], false, flat))
  { }

  lemma {:induction false} MinifyObject(members: seq<Member<Json>>, depth: nat, flat: nat, rest: string)
    requires PrintableMembers(members) && ReadableMembers(members)
    ensures Minify(Text(Object(members), true, depth) + rest) == Front(Text(Object(members), false, flat), Minify(rest))
    decreases members, 1
  {
    hide Text, MembersText, Minify, Tabs, PrintableMembers, ReadableMembers;
    var body, plain := MembersText(members, true, depth + 1), MembersText(members, false, flat + 1);
    var tabs := Tabs(depth);
    ObjectTexts(members, depth, flat, rest);
    CopiedFront("}", rest);
    TabsAreSpace(depth);
    SpacesFront(tabs, "}" + rest);
    MinifyMembers(members, depth + 1, flat + 1, tabs + ("}" + rest));
    SpacesFront("\n", body + (tabs + ("}" + rest)));
    CopiedFront("{", "\n" + (body + (tabs + ("}" + rest))));
    FrontFront(plain, "}", Minify(rest));
    FrontFront("{", plain + "}", Minify(rest));
  }

  lemma ObjectTexts(members: seq<Member<Json>>, depth: nat, flat: nat, rest: string)
    requires PrintableMembers(members)
    ensures Printable(Object(members))
    ensures Text(Object(members), true, depth) + rest ==
            "{" + ("\n" + (MembersText(members, true, depth + 1) + (Tabs(depth) + ("}" + rest))))
    ensures Text(Object(members), false, flat) == "{" + (MembersText(members, false, flat + 1) + "}")
  {
    hide MembersText, PrintableMembers, Tabs;
    var body, plain := MembersText(members, true, depth + 1), MembersText(members, false, flat + 1);
    assert Text(Object(members), true, depth) == "{\n" + body + Tabs(depth) + "}";
    assert Text(Object(members), false, flat) == "{" + plain + "" + "}";
    hide Text;
    GroupObject(body, Tabs(depth), rest);
    Group3("{", plain, "}");
    assert "{" + plain + "" == "{" + plain;
  }

  lemma GroupObject(body: string, tabs: string, rest: string)
    ensures ("{\n" + body + tabs + "}") + rest == "{" + ("\n" + (body + (tabs + ("}" + rest))))
  { }

  lemma TabsAreSpace(depth: nat)
    ensures forall i | 0 <= i < |Tabs(depth)| :: Space(Tabs(depth)[i])
  {
  }

  lemma {:induction false} MinifyMembers(members: seq<Member<Json>>, depth: nat, flat: nat, rest: string)
    requires PrintableMembers(members) && ReadableMembers(members)
    ensures Minify(MembersText(members, true, depth) + rest) == Front(MembersText(members, false, flat), Minify(rest))
    decreases members, 0
  {
    hide Text, MembersText, Minify, MemberText, PrintableMembers, ReadableMembers, Printable, Readable;
    if members == [] {
      EmptyMembers(true, depth);
      EmptyMembers(false, flat);
      assert "" + rest == rest;
      CopiedFront("", rest);
    } else {
      TailReadableMembers(members);
      MembersTexts(members, depth, flat, rest);
      var m, more := members[0], |members| > 1;
      var tail, ptail := MembersText(members[1..], true, depth), MembersText(members[1..], false, flat);
      MinifyMembers(members[1..], depth, flat, rest);
      MinifyMember(m, more, depth, flat, tail + rest);
      FrontFront(MemberText(m.key, Text(m.value, false, flat), more, false, flat), ptail, Minify(rest));
    }
  }

  lemma MembersTexts(members: seq<Member<Json>>, depth: nat, flat: nat, rest: string)
    requires members != [] && PrintableMembers(members) && PrintableMembers(members[1..]) && Printable(members[0].value)
    ensures var m, more := members[0], |members| > 1;
            && MembersText(members, true, depth) + rest ==
               MemberText(m.key, Text(m.value, true, depth), more, true, depth) +
               (MembersText(members[1..], true, depth) + rest)
            && MembersText(members, false, flat) ==
               MemberText(m.key, Text(m.value, false, flat), more, false, flat) + MembersText(members[1..], false, flat)
  { }

  lemma {:induction false} MinifyMember(m: Member<Json>, more: bool, depth: nat, flat: nat, rest: string)
    requires NulFree(m.key) && Printable(m.value) && Readable(m.value)
    ensures Minify(MemberText(m.key, Text(m.value, true, depth), more, true, depth) + rest) ==
            Front(MemberText(m.key, Text(m.value, false, flat), more, false, flat), Minify(rest))
    decreases m.value, 1
  {
    var lead, key, comma := Tabs(depth), Quote(m.key), if more then "," else "";
    var value, pvalue := Text(m.value, true, depth), Text(m.value, false, flat);
    assert forall i | 0 <= i < |lead| :: Space(lead[i]);
    MemberTexts(m.key, value, pvalue, more, depth, flat, rest);
    hide Text, Minify, MemberText, Tabs, Quote, Printable, Readable;
    SpacesFront("\n", rest);
    CopiedFront(comma, "\n" + rest);
    MinifyPrinted(m.value, depth, flat, comma + ("\n" + rest));
    SpacesFront("\t", value + (comma + ("\n" + rest)));
    CopiedFront(":", "\t" + (value + (comma + ("\n" + rest))));
    QuoteFront(m.key, ":" + ("\t" + (value + (comma + ("\n" + rest)))));
    SpacesFront(lead, key + (":" + ("\t" + (value + (comma + ("\n" + rest))))));
    FrontFront(pvalue, comma, Minify(rest));
    FrontFront(":", pvalue + comma, Minify(rest));
    FrontFront(key, ":" + (pvalue + comma), Minify(rest));
  }

  lemma MemberTexts(key: string, value: string, pvalue: string, more: bool, depth: nat, flat: nat, rest: string)
    ensures var comma := if more then "," else "";
            && MemberText(key, value, more, true, depth) + rest ==
               Tabs(depth) + (Quote(key) + (":" + ("\t" + (value + (comma + ("\n" + rest))))))
            && MemberText(key, pvalue, more, false, flat) == Quote(key) + (":" + (pvalue + comma))
  {
    var lead, q, comma := Tabs(depth), Quote(key), if more then "," else "";
    assert MemberText(key, value, more, true, depth) == lead + q + ":\t" + value + comma + "\n";
    assert MemberText(key, pvalue, more, false, flat) == "" + q + ":" + pvalue + comma + "";
    hide Tabs, Quote, MemberText;
  }

  /** Minifying the formatted print gives the unformatted print. */
  lemma MinifyLinksLayouts(j: Json)
    requires Printable(j) && Readable(j)
    ensures Minify(Text(j, true, 0) + [NUL]) == Some(Text(j, false, 0) + [NUL])
  {
    MinifyPrinted(j, 0, 0, [NUL]);
    hide Text;
  }
}
