/**
 Exactly where the parser stops at a text that it does not accept: what stands in front of the
 reported position, and what is wrong there.
 */
module ParseFaults {
  import opened Options
  import opened CString
  import opened Decimal
  import opened Json
  import opened Utf8
  import opened Parsing
  import opened Literals
  import opened RoundTrip
  import opened Tokens
  import opened Grammar

  /** What is wrong with a value. */
  datatype Fault =
    | NoValue                                                          // nothing that begins a value
    | NoNumber                                                         // a minus without digits
    | TooDeep                                                          // a bracket beyond the nesting limit
    | OpenLiteral                                                      // no closing quote
    | BadEscape(pieces: seq<Piece>)                                    // behind some pieces of a literal
    | InElement(done: seq<Slot>, before: string, fault: Fault)
    | BehindElement(done: seq<Slot>, last: Slot)                       // neither a comma nor a bracket
    | InMember(past: seq<Entry>, before: string, member: MemberFault)
    | BehindMember(past: seq<Entry>, final: Entry)

  datatype MemberFault =
    | NoKey(c: char)                                                   // a key that begins with something else
    | InKey(fault: Fault)
    | NoColon(key: LiteralSyntax, middle: string)
    | InValue(key: LiteralSyntax, middle: string, start: string, fault: Fault)

  /** Complete elements, each with its comma, in front of a text. */
  function DoneSlots(done: seq<Slot>, tail: string): string {
    if done == [] then tail
    else done[0].before + (SpellValue(done[0].value) + (done[0].after + ("," + DoneSlots(done[1..], tail))))
  }

  function DoneEntries(done: seq<Entry>, tail: string): string {
    if done == [] then tail
    else done[0].before + (SpellEntry(done[0]) + (done[0].after + ("," + DoneEntries(done[1..], tail))))
  }

  /** What is in front of the position, from the start of the value on. */
  function Front(f: Fault): string {
    match f
    case OpenLiteral => "\""
    case BadEscape(ps) => "\"" + Spell(ps)
    case InElement(done, before, g) => "[" + DoneSlots(done, before + Front(g))
    case BehindElement(done, last) => "[" + DoneSlots(done, last.before + (SpellValue(last.value) + last.after))
    case InMember(past, before, g) => "{" + DoneEntries(past, before + FrontMember(g))
    case BehindMember(past, final) => "{" + DoneEntries(past, final.before + (SpellEntry(final) + final.after))
    case _ => ""
  }

  function FrontMember(g: MemberFault): string {
    match g
    case NoKey(c) => [c]
    case InKey(f) => Front(f)
    case NoColon(key, middle) => SpellLiteral(key) + middle
    case InValue(key, middle, start, f) => SpellLiteral(key) + (middle + (":" + (start + Front(f))))
  }

  predicate StartsValue(r: string)
    requires r != ""
  {
    || r[0] == '\"' || r[0] == '-' || IsDigit(r[0]) || r[0] == '[' || r[0] == '{'
    || StartsWith(r, "null") || StartsWith(r, "false") || StartsWith(r, "true")
  }

  predicate NoNumberAt(r: string) {
    r != "" && r[0] == '-' && !(|r| > 1 && IsDigit(r[1])) && !(|r| > 2 && r[1] == '.' && IsDigit(r[2]))
  }

  /** An escape that there is not, or a unit that is cut off or half of a pair, `n` characters before the closing quote. */
  predicate BadAt(r: string, n: int) {
    0 < n < |r| && r[0] == '\\' && if r[1] == 'u' then Utf16(r, n).None? else SimpleEscape(r[1]).None?
  }

  /** The next token is here; an empty list may not be closed here. */
  predicate Begins(t: string, first: bool, close: char) {
    t != "" && (|t| == 1 || t[0] > ' ') && (first ==> t[0] != close)
  }

  /** The fault shows in front of `r`, in a value at some depth. */
  predicate Stuck(f: Fault, r: string, depth: nat) {
    match f
    case NoValue => Terminated(r) && !StartsValue(r)
    case NoNumber => Terminated(r) && NoNumberAt(r)
    case TooDeep => Terminated(r) && depth >= 1000 && (r[0] == '[' || r[0] == '{')
    case OpenLiteral => Terminated(r) && ClosingQuote(r).None?
    case BadEscape(ps) =>
      && Terminated(r) && AllTaken(ps)
      && var q := ClosingQuote(Spell(ps) + r); q.Some? && BadAt(r, q.value - |Spell(ps)|)
    case InElement(done, before, g) =>
      && depth < 1000 && FineSlots(done) && SlotsDepth(done) + depth < 1000 && Blank(before)
      && Stuck(g, r, depth + 1) && Begins(Front(g) + r, done == [], ']')
    case BehindElement(done, last) =>
      && depth < 1000 && FineSlots(done) && SlotsDepth(done) + depth < 1000
      && Blank(last.before) && Fine(last.value) && Depth(last.value) + depth < 1000 && Blank(last.after)
      && Ends(last.value, last.after + r) && Terminated(r) && Begins(r, true, ',') && r[0] != ']'
    case InMember(past, before, g) =>
      && depth < 1000 && FineEntries(past) && EntriesDepth(past) + depth < 1000 && Blank(before)
      && StuckMember(g, r, depth + 1) && Begins(FrontMember(g) + r, past == [], '}')
    case BehindMember(past, final) =>
      && depth < 1000 && FineEntries(past) && EntriesDepth(past) + depth < 1000
      && Blank(final.before) && FineLiteral(final.key) && Blank(final.middle) && Blank(final.start)
      && Fine(final.value) && Depth(final.value) + depth < 1000 && Blank(final.after)
      && Ends(final.value, final.after + r) && Terminated(r) && Begins(r, true, ',') && r[0] != '}'
  }

  predicate StuckMember(g: MemberFault, r: string, depth: nat) {
    match g
    case NoKey(c) => c != '\"' && if r == "" then c == NUL else Terminated(r)
    case InKey(f) => (f.OpenLiteral? || f.BadEscape?) && Stuck(f, r, depth)
    case NoColon(key, middle) => FineLiteral(key) && Blank(middle) && Terminated(r) && Begins(r, true, ':')
    case InValue(key, middle, start, f) =>
      FineLiteral(key) && Blank(middle) && Blank(start) && Stuck(f, r, depth) && Begins(Front(f) + r, false, ' ')
  }

  // ---- Numbers and literals that are none ----

  lemma StrtodUsesDigits(s: string)
    ensures var sign := SignLength(s); var whole := DigitRun(s[sign..]); var tail := s[sign + whole..];
            Strtod(s).used > 0 <==> whole > 0 || (tail != "" && tail[0] == '.' && DigitRun(tail[1..]) > 0)
  {
    hide DigitRun, Exponent, Magnitude;
  }

  lemma DigitRunStarts(s: string)
    ensures DigitRun(s) > 0 <==> s != "" && IsDigit(s[0])
  {
  }

  /** Digits always make a number, and a minus does with a digit or a point and a digit behind it. */
  lemma NoNumberRead(r: string)
    requires Terminated(r) && (r[0] == '-' || IsDigit(r[0]))
    ensures ParseNumber(r) == Fail(r) <==> NoNumberAt(r)
    ensures ParseNumber(r).Fail? ==> ParseNumber(r) == Fail(r)
  {
    ParseNumberIs(r);
    var k := NumberLength(r, 63);
    var t := r[..k];
    NumberStarts(r);
    assert t[0] == r[0];
    assert |r| > 1 && NumberChar(r[1]) ==> k > 1;
    assert |r| > 2 && NumberChar(r[1]) && NumberChar(r[2]) ==> k > 2;
    assert k > 1 ==> t[1] == r[1];
    assert k > 2 ==> t[2] == r[2];
    StrtodUsesDigits(t);
    hide Strtod, NumberLength, DigitRun;
    var sign := SignLength(t);
    DigitRunStarts(t[sign..]);
    if sign == 1 && DigitRun(t[1..]) == 0 {
      assert t[1 + 0..] == t[1..];
      if t[1..] != "" && t[1] == '.' { DigitRunStarts(t[1..][1..]); }
    }
  }

  lemma {:induction false} TakeFront(ps: seq<Piece>, rest: string, n: nat)
    requires AllTaken(ps) && n < |rest| && Unescape(rest, n).Fail?
    ensures Unescape(Spell(ps) + rest, |Spell(ps)| + n) == Fail(Unescape(rest, n).rest)
  {
    hide *;
    FailIs(Unescape(rest, n));
    NoPieces(rest);
    if ps != [] {
      TakenHead(ps);
      TakeFront(ps[1..], rest, n);
      SpellSplit(ps, rest);
      TakePiece(ps[0], Spell(ps[1..]) + rest, |Spell(ps[1..])| + n);
      FailPrepended(BytesOf(ps[0]), Unescape(rest, n).rest);
    }
  }

  lemma FailIs<T>(r: Parsed<T>)
    requires r.Fail?
    ensures r == Fail(r.rest)
  {
  }

  lemma FailPrepended(a: string, rest: string)
    ensures Prepend(a, Fail(rest)) == Fail(rest)
  {
  }

  lemma BadFails(r: string, n: nat)
    requires BadAt(r, n)
    ensures Unescape(r, n) == Fail(r)
  {
    hide Utf16, Encode8;
  }

  lemma OpenFails(r: string)
    requires Terminated(r) && ClosingQuote(r).None?
    ensures Terminated("\"" + r) && ParseString("\"" + r) == Fail(r)
  {
    hide *;
    TerminatedAppend("\"", r);
    BracketFirst('\"', r);
    ParseStringIs("\"" + r);
  }

  lemma BracketFirst(c: char, t: string)
    ensures ([c] + t)[0] == c && ([c] + t)[1..] == t && [c] + t != ""
  {
  }

  lemma EscapeFails(ps: seq<Piece>, r: string)
    requires Terminated(r) && AllTaken(ps)
    requires var q := ClosingQuote(Spell(ps) + r); q.Some? && BadAt(r, q.value - |Spell(ps)|)
    ensures var s := ("\"" + Spell(ps)) + r; Terminated(s) && ParseString(s) == Fail(r)
  {
    hide *;
    var t := Spell(ps);
    TerminatedAppend("\"" + t, r);
    Headed(t, r);
    var n := ClosingQuote(t + r).value - |t|;
    BadIsAt(r, n);
    BadFails(r, n);
    TakeFront(ps, r, n);
    ParseStringIs(("\"" + t) + r);
  }

  lemma BadIsAt(r: string, n: int)
    requires BadAt(r, n)
    ensures 0 < n < |r|
  {
  }

  lemma OpenIs(r: string, depth: nat)
    requires Stuck(OpenLiteral, r, depth)
    ensures Terminated(r) && ClosingQuote(r).None? && Front(OpenLiteral) == "\""
  {
    hide ClosingQuote;
  }

  lemma BadIs(ps: seq<Piece>, r: string, depth: nat)
    requires Stuck(BadEscape(ps), r, depth)
    ensures Terminated(r) && AllTaken(ps) && Front(BadEscape(ps)) == "\"" + Spell(ps)
    ensures var q := ClosingQuote(Spell(ps) + r); q.Some? && BadAt(r, q.value - |Spell(ps)|)
  {
    hide ClosingQuote, AllTaken, Spell, BadAt;
  }

  lemma LiteralFails(f: Fault, r: string, depth: nat)
    requires (f.OpenLiteral? || f.BadEscape?) && Stuck(f, r, depth)
    ensures var s := Front(f) + r; Terminated(s) && s != "" && s[0] == '\"' && ParseString(s) == Fail(r)
  {
    hide *;
    if f.OpenLiteral? {
      OpenIs(r, depth);
      OpenFails(r);
      FirstOf("\"", r);
    } else {
      BadIs(f.pieces, r, depth);
      EscapeFails(f.pieces, r);
      Headed(Spell(f.pieces), r);
    }
  }

  /** A piece that can be taken. */
  lemma PieceAt(s: string, n: nat) returns (p: Piece, k: nat)
    requires 0 < n < |s| && !BadAt(s, n)
    ensures Taken(p) && 0 < k == |SpellPiece(p)| <= |s| && s[..k] == SpellPiece(p) && n - k < |s| - k
    ensures Unescape(s, n) == Prepend(BytesOf(p), Unescape(s[k..], n - k))
  {
    hide Encode8, Hex4;
    if s[0] != '\\' {
      p, k := Bare(s[0]), 1;
    } else if s[1] != 'u' {
      p, k := Short(s[1]), 2;
    } else {
      p, k := UnitShape(s, n);
    }
  }

  lemma {:induction false} PiecesUpTo(s: string, n: nat) returns (ps: seq<Piece>)
    requires n < |s| && Unescape(s, n).Fail?
    ensures AllTaken(ps) && s == Spell(ps) + Unescape(s, n).rest && |Spell(ps)| <= n && BadAt(Unescape(s, n).rest, n - |Spell(ps)|)
    decreases |s|
  {
    hide *;
    if n == 0 {
      EndOver(s, 0);
      assert false;
    } else if BadAt(s, n) {
      BadFails(s, n);
      ps := [];
      NothingSpelled(s);
    } else {
      var p, k := PieceAt(s, n);
      if n < k {
        EndOver(s[k..], n - k);
        Prepended(BytesOf(p), "", s[k..]);
        assert false;
      } else {
        FailBelow(BytesOf(p), Unescape(s[k..], n - k));
        var more := PiecesUpTo(s[k..], n - k);
        ps := [p] + more;
        ConsTaken(p, more);
        var rest := Unescape(s, n).rest;
        SpellSplit(ps, rest);
        assert ps[1..] == more;
        assert s == s[..k] + s[k..];
      }
    }
  }

  lemma FailBelow(a: string, r: Parsed<string>)
    requires Prepend(a, r).Fail?
    ensures r.Fail? && Prepend(a, r) == r
  {
  }

  lemma NothingSpelled(s: string)
    ensures AllTaken([]) && Spell([]) == "" && s == Spell([]) + s
  {
  }

  /** Why a literal is not read. */
  lemma LiteralFault(s: string, depth: nat) returns (f: Fault)
    requires Terminated(s) && s[0] == '\"' && ParseString(s).Fail?
    ensures (f.OpenLiteral? || f.BadEscape?) && s == Front(f) + ParseString(s).rest && Stuck(f, ParseString(s).rest, depth)
  {
    ParseStringIs(s);
    QuoteNoNul();
    TailTerminated(s);
    hide *;
    if ClosingQuote(s[1..]).None? {
      f := OpenLiteral;
      OpenStuck(s[1..], depth);
      QuoteBack(s);
    } else {
      f := EscapeFault(s, depth);
    }
  }

  lemma EscapeFault(s: string, depth: nat) returns (f: Fault)
    requires s != "" && s[0] == '\"' && Terminated(s[1..]) && ClosingQuote(s[1..]).Some?
    requires Unescape(s[1..], ClosingQuote(s[1..]).value).Fail?
    ensures var rest := Unescape(s[1..], ClosingQuote(s[1..]).value).rest;
            f.BadEscape? && s == Front(f) + rest && Stuck(f, rest, depth)
  {
    hide *;
    var body, end := s[1..], ClosingQuote(s[1..]).value;
    var rest := Unescape(body, end).rest;
    var ps := PiecesUpTo(body, end);
    f := BadEscape(ps);
    BadStuck(ps, body, rest, depth);
    HeadedBack(s, Spell(ps), rest);
  }

  lemma QuoteBack(s: string)
    requires s != "" && s[0] == '\"'
    ensures s == "\"" + s[1..]
  {
  }

  lemma QuoteNoNul()
    ensures '\"' != NUL
  {
  }

  lemma OpenStuck(r: string, depth: nat)
    requires Terminated(r) && ClosingQuote(r).None?
    ensures Stuck(OpenLiteral, r, depth) && Front(OpenLiteral) == "\""
  {
  }

  lemma BadStuck(ps: seq<Piece>, body: string, r: string, depth: nat)
    requires Terminated(body) && body == Spell(ps) + r && AllTaken(ps)
    requires ClosingQuote(body).Some? && BadAt(r, ClosingQuote(body).value - |Spell(ps)|)
    ensures Stuck(BadEscape(ps), r, depth) && Front(BadEscape(ps)) == "\"" + Spell(ps)
  {
    hide Spell, ClosingQuote, BadAt, AllTaken;
    assert r != "" && body[|body| - 1] == r[|r| - 1] by { BadIsSome(r, ClosingQuote(body).value - |Spell(ps)|); }
  }

  lemma BadIsSome(r: string, n: int)
    requires BadAt(r, n)
    ensures r != ""
  {
  }

  // ---- Every fault stops the parser where it is ----

  lemma SkipTo(blank: string, t: string)
    requires Blank(blank) && Begins(t, false, ' ')
    ensures SkipWhitespace(blank + t) == t
  {
    SkipMore(blank, t);
    if t[0] > ' ' { NoSpace(t); }
  }

  lemma BeginsAny(t: string, first: bool, close: char)
    requires Begins(t, first, close)
    ensures Begins(t, false, ' ') && t != "" && (first ==> t[0] != close)
  {
  }

  lemma DoneIs(done: seq<Slot>, tail: string)
    requires done != []
    ensures DoneSlots(done, tail) ==
            done[0].before + (SpellValue(done[0].value) + (done[0].after + ("," + DoneSlots(done[1..], tail))))
  {
  }

  lemma {:induction false} DoneAppend(done: seq<Slot>, a: string, b: string)
    ensures DoneSlots(done, a + b) == DoneSlots(done, a) + b
  {
    hide *;
    if done == [] {
      NoneDone(a);
      NoneDone(a + b);
    } else {
      DoneAppend(done[1..], a, b);
      DoneIs(done, a);
      DoneIs(done, a + b);
      Regrouped5(done[0].before, SpellValue(done[0].value), done[0].after, DoneSlots(done[1..], a), b);
    }
  }

  lemma NoneDone(a: string)
    ensures DoneSlots([], a) == a && DoneEntries([], a) == a
  {
  }

  lemma Regrouped5(a: string, b: string, c: string, d: string, e: string)
    ensures (a + (b + (c + ("," + d)))) + e == a + (b + (c + ("," + (d + e))))
  {
    assert ("," + d) + e == "," + (d + e);
    assert (c + ("," + d)) + e == c + (("," + d) + e);
    assert (b + (c + ("," + d))) + e == b + ((c + ("," + d)) + e);
  }

  /** What fails behind some elements fails behind all of them. */
  lemma {:induction false} DoneFails(done: seq<Slot>, before: string, r: string, f: string, depth: nat)
    requires FineSlots(done) && SlotsDepth(done) + depth <= NESTING_LIMIT && Blank(before)
    requires Terminated(r) && Begins(r, false, ' ') && ParseElements(r, depth) == Fail(f)
    ensures var s := SkipWhitespace(DoneSlots(done, before + r));
            && Terminated(DoneSlots(done, before + r)) && Terminated(s) && ParseElements(s, depth) == Fail(f)
            && s != "" && (if done == [] then s == r else s[0] != ']')
    decreases |done|
  {
    hide *;
    BeginsAny(r, false, ' ');
    if done == [] {
      NoneDone(before + r);
      TerminatedAppend(before, r);
      SkipTo(before, r);
    } else {
      SlotParts(done, depth);
      DoneFails(done[1..], before, r, f, depth);
      var slot, tail := done[0], DoneSlots(done[1..], before + r);
      DoneIs(done, before + r);
      ClosingOf(',', tail);
      BehindValue(slot.after, "," + tail);
      FollowingEnds(slot.value, slot.after + ("," + tail));
      ValueRead(slot.value, slot.after + ("," + tail), depth);
      ValueStarts(slot.value);
      var v := SpellValue(slot.value);
      FirstOf(v, slot.after + ("," + tail));
      TerminatedAppend(slot.before, v + (slot.after + ("," + tail)));
      BlankSkipped(slot.before, v + (slot.after + ("," + tail)));
      ElementsStep(v + (slot.after + ("," + tail)), depth);
    }
  }

  lemma ArrayFails(done: seq<Slot>, before: string, r: string, f: string, depth: nat)
    requires depth < 1000 && FineSlots(done) && SlotsDepth(done) + depth < 1000 && Blank(before)
    requires Terminated(r) && Begins(r, done == [], ']') && ParseElements(r, depth + 1) == Fail(f)
    ensures var s := "[" + DoneSlots(done, before + r); Terminated(s) && ParseValue(s, depth) == Fail(f)
  {
    hide *;
    LimitIs();
    BeginsAny(r, done == [], ']');
    DoneFails(done, before, r, f, depth + 1);
    var t := DoneSlots(done, before + r);
    TerminatedAppend("[", t);
    BracketFirst('[', t);
    ArrayStep("[" + t, depth);
  }

  lemma LimitIs()
    ensures NESTING_LIMIT == 1000
  {
  }

  lemma ValueFails(f: Fault, r: string, depth: nat)
    requires !f.InElement? && !f.BehindElement? && !f.InMember? && !f.BehindMember? && Stuck(f, r, depth)
    ensures Terminated(Front(f) + r) && ParseValue(Front(f) + r, depth) == Fail(r)
  {
    if f.OpenLiteral? || f.BadEscape? {
      LiteralFails(f, r, depth);
      NoWord(Front(f) + r);
      hide ParseString, ClosingQuote, Spell, StartsWith, Front;
    } else {
      assert "" + r == r;
      if f.NoNumber? {
        NoNumberRead(r);
        NoWord(r);
      }
      if f.TooDeep? { NoWord(r); }
      hide StartsWith, ParseNumber;
    }
  }

  /** An element in which there is a fault. */
  lemma ElementFails(t: string, r: string, depth: nat)
    requires Terminated(t) && ParseValue(t, depth) == Fail(r)
    ensures ParseElements(t, depth) == Fail(r)
  {
    ElementsStep(t, depth);
    hide ParseElements, ParseValue;
  }

  lemma InElementIs(done: seq<Slot>, before: string, g: Fault, r: string, depth: nat)
    requires Stuck(InElement(done, before, g), r, depth)
    ensures depth < 1000 && FineSlots(done) && SlotsDepth(done) + depth < 1000 && Blank(before)
    ensures Stuck(g, r, depth + 1) && Begins(Front(g) + r, done == [], ']')
    ensures Front(InElement(done, before, g)) + r == "[" + DoneSlots(done, before + (Front(g) + r))
  {
    InElementFront(done, before, g, r);
    hide FineSlots, SlotsDepth, Blank, Begins, Front, DoneSlots;
  }

  lemma InElementFront(done: seq<Slot>, before: string, g: Fault, r: string)
    ensures Front(InElement(done, before, g)) + r == "[" + DoneSlots(done, before + (Front(g) + r))
  {
    assert Front(InElement(done, before, g)) == "[" + DoneSlots(done, before + Front(g)) by { hide DoneSlots; }
    hide *;
    DoneAppend(done, before + Front(g), r);
    EnclosedBack("[", before, Front(g), r, DoneSlots(done, before + Front(g)));
  }

  lemma BehindElementIs(done: seq<Slot>, last: Slot, r: string, depth: nat)
    requires Stuck(BehindElement(done, last), r, depth)
    ensures depth < 1000 && FineSlots(done) && SlotsDepth(done) + depth < 1000
    ensures Blank(last.before) && Fine(last.value) && Depth(last.value) + depth + 1 <= 1000 && Blank(last.after)
    ensures Ends(last.value, last.after + r) && Terminated(r) && Begins(r, true, ',') && r != "" && r[0] != ']'
    ensures Front(BehindElement(done, last)) + r ==
            "[" + DoneSlots(done, last.before + (SpellValue(last.value) + (last.after + r)))
  {
    hide FineSlots, SlotsDepth, Blank, Begins, Fine, Depth, Ends, SpellValue, DoneSlots;
    BeginsAny(r, true, ',');
    BehindElementFront(done, last, r);
    hide Front, Stuck;
  }

  lemma BehindElementFront(done: seq<Slot>, last: Slot, r: string)
    ensures Front(BehindElement(done, last)) + r ==
            "[" + DoneSlots(done, last.before + (SpellValue(last.value) + (last.after + r)))
  {
    var v := SpellValue(last.value);
    var body := last.before + (v + last.after);
    assert Front(BehindElement(done, last)) == "[" + DoneSlots(done, body) by { hide DoneSlots, SpellValue; }
    hide *;
    DoneAppend(done, body, r);
    EnclosedBack("[", last.before, v + last.after, r, DoneSlots(done, body));
    assert (v + last.after) + r == v + (last.after + r);
  }

  lemma BehindFails(done: seq<Slot>, last: Slot, r: string, depth: nat)
    requires Stuck(BehindElement(done, last), r, depth)
    ensures var f := BehindElement(done, last); Terminated(Front(f) + r) && ParseValue(Front(f) + r, depth) == Fail(r)
  {
    hide *;
    LimitIs();
    BehindElementIs(done, last, r, depth);
    BeginsAny(r, true, ',');
    var v, t := SpellValue(last.value), SpellValue(last.value) + (last.after + r);
    ValueRead(last.value, last.after + r, depth + 1);
    SkipTo(last.after, r);
    ElementsStep(t, depth + 1);
    ValueStarts(last.value);
    FirstOf(v, last.after + r);
    BeginsBy(t, done == [], ']');
    ArrayFails(done, last.before, t, r, depth);
  }

  lemma BeginsBy(t: string, first: bool, close: char)
    requires t != "" && t[0] > ' ' && t[0] != close
    ensures Begins(t, first, close)
  {
  }

  lemma EntriesDoneIs(done: seq<Entry>, tail: string)
    requires done != []
    ensures DoneEntries(done, tail) ==
            done[0].before + (SpellEntry(done[0]) + (done[0].after + ("," + DoneEntries(done[1..], tail))))
  {
  }

  lemma {:induction false} EntriesDoneAppend(done: seq<Entry>, a: string, b: string)
    ensures DoneEntries(done, a + b) == DoneEntries(done, a) + b
  {
    hide *;
    if done == [] {
      NoneDone(a);
      NoneDone(a + b);
    } else {
      EntriesDoneAppend(done[1..], a, b);
      EntriesDoneIs(done, a);
      EntriesDoneIs(done, a + b);
      Regrouped5(done[0].before, SpellEntry(done[0]), done[0].after, DoneEntries(done[1..], a), b);
    }
  }

  lemma {:induction false} EntriesDoneFail(done: seq<Entry>, before: string, r: string, f: string, depth: nat)
    requires FineEntries(done) && EntriesDepth(done) + depth <= NESTING_LIMIT && Blank(before)
    requires Terminated(r) && Begins(r, false, ' ') && ParseMembers(r, depth) == Fail(f)
    ensures var s := SkipWhitespace(DoneEntries(done, before + r));
            && Terminated(DoneEntries(done, before + r)) && Terminated(s) && ParseMembers(s, depth) == Fail(f)
            && s != "" && (if done == [] then s == r else s[0] != '}')
    decreases |done|
  {
    hide *;
    BeginsAny(r, false, ' ');
    if done == [] {
      NoneDone(before + r);
      TerminatedAppend(before, r);
      SkipTo(before, r);
    } else {
      EntryParts(done, depth);
      EntriesDoneFail(done[1..], before, r, f, depth);
      var e, tail := done[0], DoneEntries(done[1..], before + r);
      EntriesDoneIs(done, before + r);
      ClosingOf(',', tail);
      BehindValue(e.after, "," + tail);
      FollowingEnds(e.value, e.after + ("," + tail));
      EntryRead(e, e.after + ("," + tail), depth);
      EntryStarts(e, e.after + ("," + tail));
      QuoteHigh();
      var t := SpellEntry(e) + (e.after + ("," + tail));
      TerminatedAppend(e.before, t);
      BlankSkipped(e.before, t);
      MembersStep(t, depth);
    }
  }

  lemma QuoteHigh()
    ensures '\"' > ' ' && '\"' != '}' && '\"' != ']'
  {
  }

  lemma ObjectFails(done: seq<Entry>, before: string, r: string, f: string, depth: nat)
    requires depth < 1000 && FineEntries(done) && EntriesDepth(done) + depth < 1000 && Blank(before)
    requires Terminated(r) && Begins(r, done == [], '}') && ParseMembers(r, depth + 1) == Fail(f)
    ensures var s := "{" + DoneEntries(done, before + r); Terminated(s) && ParseValue(s, depth) == Fail(f)
  {
    hide *;
    LimitIs();
    BeginsAny(r, done == [], '}');
    EntriesDoneFail(done, before, r, f, depth + 1);
    var t := DoneEntries(done, before + r);
    TerminatedAppend("{", t);
    BracketFirst('{', t);
    ObjectStep("{" + t, depth);
  }

  lemma MemberFails(t: string, r: string, depth: nat)
    requires Terminated(t) && ParseMember(t, depth) == Fail(r)
    ensures ParseMembers(t, depth) == Fail(r)
  {
    MembersStep(t, depth);
    hide ParseMembers, ParseMember;
  }

  lemma InMemberIs(past: seq<Entry>, before: string, g: MemberFault, r: string, depth: nat)
    requires Stuck(InMember(past, before, g), r, depth)
    ensures depth < 1000 && FineEntries(past) && EntriesDepth(past) + depth < 1000 && Blank(before)
    ensures StuckMember(g, r, depth + 1) && Begins(FrontMember(g) + r, past == [], '}')
    ensures Front(InMember(past, before, g)) + r == "{" + DoneEntries(past, before + (FrontMember(g) + r))
  {
    InMemberFront(past, before, g, r);
    hide FineEntries, EntriesDepth, Blank, Begins, FrontMember, Front, DoneEntries;
  }

  lemma InMemberFront(past: seq<Entry>, before: string, g: MemberFault, r: string)
    ensures Front(InMember(past, before, g)) + r == "{" + DoneEntries(past, before + (FrontMember(g) + r))
  {
    assert Front(InMember(past, before, g)) == "{" + DoneEntries(past, before + FrontMember(g)) by { hide DoneEntries; }
    hide *;
    EntriesDoneAppend(past, before + FrontMember(g), r);
    EnclosedBack("{", before, FrontMember(g), r, DoneEntries(past, before + FrontMember(g)));
  }

  lemma EnclosedBack(open: string, a: string, b: string, r: string, body: string)
    ensures (a + b) + r == a + (b + r) && (open + body) + r == open + (body + r)
  {
  }

  lemma BehindMemberIs(past: seq<Entry>, final: Entry, r: string, depth: nat)
    requires Stuck(BehindMember(past, final), r, depth)
    ensures depth < 1000 && FineEntries(past) && EntriesDepth(past) + depth < 1000
    ensures Blank(final.before) && FineLiteral(final.key) && Blank(final.middle) && Blank(final.start)
    ensures Fine(final.value) && Depth(final.value) + depth + 1 <= 1000 && Blank(final.after)
    ensures Ends(final.value, final.after + r) && Terminated(r) && Begins(r, true, ',') && r != "" && r[0] != '}'
    ensures Front(BehindMember(past, final)) + r ==
            "{" + DoneEntries(past, final.before + (SpellEntry(final) + (final.after + r)))
  {
    hide FineEntries, EntriesDepth, Blank, Begins, Fine, Depth, Ends, SpellEntry, DoneEntries, FineLiteral;
    BeginsAny(r, true, ',');
    BehindMemberFront(past, final, r);
    hide Front, Stuck;
  }

  lemma BehindMemberFront(past: seq<Entry>, final: Entry, r: string)
    ensures Front(BehindMember(past, final)) + r ==
            "{" + DoneEntries(past, final.before + (SpellEntry(final) + (final.after + r)))
  {
    var v := SpellEntry(final);
    var body := final.before + (v + final.after);
    assert Front(BehindMember(past, final)) == "{" + DoneEntries(past, body) by { hide DoneEntries, SpellEntry; }
    hide *;
    EntriesDoneAppend(past, body, r);
    EnclosedBack("{", final.before, v + final.after, r, DoneEntries(past, body));
    assert (v + final.after) + r == v + (final.after + r);
  }

  lemma BehindMemberFails(past: seq<Entry>, final: Entry, r: string, depth: nat)
    requires Stuck(BehindMember(past, final), r, depth)
    ensures var f := BehindMember(past, final); Terminated(Front(f) + r) && ParseValue(Front(f) + r, depth) == Fail(r)
  {
    hide *;
    LimitIs();
    BehindMemberIs(past, final, r, depth);
    BeginsAny(r, true, ',');
    var t := SpellEntry(final) + (final.after + r);
    EntryRead(final, final.after + r, depth + 1);
    SkipTo(final.after, r);
    MembersStep(t, depth + 1);
    EntryStarts(final, final.after + r);
    QuoteHigh();
    BeginsBy(t, past == [], '}');
    ObjectFails(past, final.before, t, r, depth);
  }

  lemma NoKeyFails(c: char, r: string, depth: nat)
    requires StuckMember(NoKey(c), r, depth)
    ensures Terminated(FrontMember(NoKey(c)) + r) && ParseMember(FrontMember(NoKey(c)) + r, depth) == Fail(r)
  {
    var s := [c] + r;
    assert Terminated(s) by { if r != "" { TerminatedAppend([c], r); } }
    assert s[0] == c && s[1..] == r;
    ParseStringIs(s);
    MemberStep(s, depth);
    hide ParseString, ParseMember;
  }

  lemma NoColonFails(key: LiteralSyntax, middle: string, r: string, depth: nat)
    requires StuckMember(NoColon(key, middle), r, depth)
    ensures var t := FrontMember(NoColon(key, middle)) + r; Terminated(t) && ParseMember(t, depth) == Fail(r)
  {
    assert FineLiteral(key) && Blank(middle) && Terminated(r) && Begins(r, true, ':');
    assert FrontMember(NoColon(key, middle)) + r == SpellLiteral(key) + (middle + r);
    hide *;
    BeginsAny(r, true, ':');
    TerminatedAppend(middle, r);
    LiteralRead(key, middle + r);
    SkipTo(middle, r);
    MemberStep(SpellLiteral(key) + (middle + r), depth);
  }

  lemma InValueFails(key: LiteralSyntax, middle: string, start: string, t: string, r: string, depth: nat)
    requires FineLiteral(key) && Blank(middle) && Blank(start) && Begins(t, false, ' ')
    requires Terminated(t) && ParseValue(t, depth) == Fail(r)
    ensures var s := SpellLiteral(key) + (middle + (":" + (start + t))); Terminated(s) && ParseMember(s, depth) == Fail(r)
  {
    hide *;
    TerminatedAppend(start, t);
    TerminatedAppend(":", start + t);
    TerminatedAppend(middle, ":" + (start + t));
    LiteralRead(key, middle + (":" + (start + t)));
    ColonIs(start + t);
    BlankSkipped(middle, ":" + (start + t));
    SkipTo(start, t);
    MemberStep(SpellLiteral(key) + (middle + (":" + (start + t))), depth);
  }

  lemma InKeyFails(f: Fault, r: string, depth: nat)
    requires (f.OpenLiteral? || f.BadEscape?) && Stuck(f, r, depth)
    ensures Terminated(Front(f) + r) && ParseMember(Front(f) + r, depth) == Fail(r)
  {
    LiteralFails(f, r, depth);
    MemberStep(Front(f) + r, depth);
    hide ParseString, ParseMember;
  }

  lemma InValueIs(key: LiteralSyntax, middle: string, start: string, f: Fault, r: string, depth: nat)
    requires StuckMember(InValue(key, middle, start, f), r, depth)
    ensures FineLiteral(key) && Blank(middle) && Blank(start) && Stuck(f, r, depth) && Begins(Front(f) + r, false, ' ')
    ensures FrontMember(InValue(key, middle, start, f)) + r == SpellLiteral(key) + (middle + (":" + (start + (Front(f) + r))))
  {
    hide FineLiteral, Blank, Stuck, Begins, SpellLiteral, Front;
    assert (start + Front(f)) + r == start + (Front(f) + r);
    assert (":" + (start + Front(f))) + r == ":" + ((start + Front(f)) + r);
    assert (middle + (":" + (start + Front(f)))) + r == middle + ((":" + (start + Front(f))) + r);
  }

  /** A fault stops the parser at the position that it is seen at. */
  lemma {:induction false} FaultStops(f: Fault, r: string, depth: nat)
    requires Stuck(f, r, depth)
    ensures Terminated(Front(f) + r) && ParseValue(Front(f) + r, depth) == Fail(r)
    decreases f
  {
    hide *;
    match f
    case InElement(done, before, g) =>
      InElementIs(done, before, g, r, depth);
      FaultStops(g, r, depth + 1);
      ElementFails(Front(g) + r, r, depth + 1);
      ArrayFails(done, before, Front(g) + r, r, depth);
    case BehindElement(done, last) => BehindFails(done, last, r, depth);
    case InMember(past, before, g) =>
      InMemberIs(past, before, g, r, depth);
      MemberFaultStops(g, r, depth + 1);
      MemberFails(FrontMember(g) + r, r, depth + 1);
      ObjectFails(past, before, FrontMember(g) + r, r, depth);
    case BehindMember(past, final) => BehindMemberFails(past, final, r, depth);
    case _ => ValueFails(f, r, depth);
  }

  lemma {:induction false} MemberFaultStops(g: MemberFault, r: string, depth: nat)
    requires StuckMember(g, r, depth)
    ensures Terminated(FrontMember(g) + r) && ParseMember(FrontMember(g) + r, depth) == Fail(r)
    decreases g
  {
    hide *;
    match g
    case NoKey(c) => NoKeyFails(c, r, depth);
    case InKey(f) =>
      InKeyIs(f, r, depth);
      InKeyFails(f, r, depth);
    case NoColon(key, middle) => NoColonFails(key, middle, r, depth);
    case InValue(key, middle, start, f) =>
      InValueIs(key, middle, start, f, r, depth);
      FaultStops(f, r, depth);
      InValueFails(key, middle, start, Front(f) + r, r, depth);
  }

  lemma InKeyIs(f: Fault, r: string, depth: nat)
    requires StuckMember(InKey(f), r, depth)
    ensures (f.OpenLiteral? || f.BadEscape?) && Stuck(f, r, depth) && FrontMember(InKey(f)) == Front(f)
  {
    hide Stuck, Front;
  }

  // ---- Whatever the parser does not accept has a fault ----

  /** An array fault without its opening bracket. */
  function ListBody(f: Fault): string
    requires f.InElement? || f.BehindElement?
  {
    if f.InElement? then DoneSlots(f.done, f.before + Front(f.fault))
    else DoneSlots(f.done, f.last.before + (SpellValue(f.last.value) + f.last.after))
  }

  /** What makes it one, at the depth of the elements, but for the first token. */
  predicate StuckList(f: Fault, r: string, depth: nat)
    requires f.InElement? || f.BehindElement?
  {
    && FineSlots(f.done) && SlotsDepth(f.done) + depth <= 1000
    && if f.InElement? then Blank(f.before) && Stuck(f.fault, r, depth) && Begins(Front(f.fault) + r, false, ' ')
       else
         && Blank(f.last.before) && Fine(f.last.value) && Depth(f.last.value) + depth <= 1000 && Blank(f.last.after)
         && Ends(f.last.value, f.last.after + r) && Terminated(r) && Begins(r, true, ',') && r[0] != ']'
  }

  lemma ListIsFault(f: Fault, r: string, depth: nat)
    requires (f.InElement? || f.BehindElement?) && depth < 1000 && StuckList(f, r, depth + 1)
    requires f.InElement? && f.done == [] ==> Begins(Front(f.fault) + r, true, ']')
    ensures Stuck(f, r, depth) && Front(f) == "[" + ListBody(f)
  {
    hide FineSlots, SlotsDepth, Blank, Fine, Depth, Ends, DoneSlots, SpellValue;
    if f.InElement? && f.done != [] { assert Begins(Front(f.fault) + r, false, ']'); }
  }

  lemma {:induction false} FaultOf(s: string, depth: nat) returns (f: Fault)
    requires Terminated(s) && depth <= 1000 && ParseValue(s, depth).Fail?
    ensures var r := ParseValue(s, depth).rest; s == Front(f) + r && Stuck(f, r, depth)
    decreases |s|, 1
  {
    assert s != "";
    hide *;
    LimitIs();
    ValueStep(s, depth);
    if s[0] == '\"' {
      f := LiteralFault(s, depth);
    } else if s[0] == '-' || IsDigit(s[0]) {
      NoNumberRead(s);
      f := NoNumber;
      PlainFault(f, s, depth);
    } else if s[0] == '[' {
      f := ArrayFault(s, depth);
    } else if s[0] == '{' {
      f := ObjectFault(s, depth);
    } else {
      f := NoValue;
      PlainFault(f, s, depth);
    }
  }

  lemma PlainFault(f: Fault, s: string, depth: nat)
    requires Terminated(s)
    requires match f
             case NoNumber => NoNumberAt(s)
             case TooDeep => depth >= 1000 && (s[0] == '[' || s[0] == '{')
             case NoValue => !StartsValue(s)
             case _ => false
    ensures Front(f) + s == s && Stuck(f, s, depth)
  {
    hide StartsWith;
  }

  lemma {:induction false} ArrayFault(s: string, depth: nat) returns (f: Fault)
    requires Terminated(s) && s[0] == '[' && depth <= 1000 && ParseArray(s, depth).Fail?
    ensures var r := ParseArray(s, depth).rest; s == Front(f) + r && Stuck(f, r, depth)
    decreases |s|, 0
  {
    hide *;
    LimitIs();
    OpenIsNoNul();
    TailTerminated(s);
    ArrayIs(s, depth);
    if depth >= 1000 {
      f := TooDeep;
      PlainFault(f, s, depth);
    } else {
      SkipShorter(s[1..]);
      SkipStops(s[1..]);
      var first := SkipWhitespace(s[1..]);
      var blank := BlankRead(s[1..]);
      NonBlank(first);
      f := ElementsFault(first, blank, depth + 1);
      var r := ParseElements(first, depth + 1).rest;
      if f.InElement? && f.done == [] { BeginsBut(first, ']'); }
      ListIsFault(f, r, depth);
      Opened(s, '[', ListBody(f), r);
    }
  }

  lemma Opened(s: string, c: char, body: string, r: string)
    requires s != "" && s == [c] + s[1..] && s[1..] == body + r
    ensures s == ([c] + body) + r
  {
  }

  lemma NonBlank(t: string)
    requires t != "" && (|t| == 1 || t[0] > ' ')
    ensures Begins(t, false, ' ')
  {
  }

  lemma BeginsBut(t: string, close: char)
    requires Begins(t, false, ' ') && t != "" && t[0] != close
    ensures Begins(t, true, close)
  {
  }

  lemma OneDone(slot: Slot, f: Fault, r: string, depth: nat) returns (g: Fault)
    requires (f.InElement? || f.BehindElement?) && StuckList(f, r, depth)
    requires Blank(slot.before) && Fine(slot.value) && Blank(slot.after) && Depth(slot.value) + depth <= 1000
    ensures (g.InElement? || g.BehindElement?) && StuckList(g, r, depth) && g.done != []
    ensures ListBody(g) == slot.before + (SpellValue(slot.value) + (slot.after + ("," + ListBody(f))))
  {
    g := f.(done := [slot] + f.done);
    SlotsMade(slot, f.done, depth);
    DoneIs(g.done, if f.InElement? then f.before + Front(f.fault) else f.last.before + (SpellValue(f.last.value) + f.last.after));
    assert g.done[1..] == f.done && g.done[0] == slot;
    hide FineSlots, SlotsDepth, Blank, Fine, Depth, Ends, DoneSlots, SpellValue, Stuck, Begins, Front;
  }

  lemma {:induction false} ElementsFault(s: string, before: string, depth: nat) returns (f: Fault)
    requires Terminated(s) && Blank(before) && Begins(s, false, ' ') && depth <= 1000 && ParseElements(s, depth).Fail?
    ensures var r := ParseElements(s, depth).rest;
            && (f.InElement? || f.BehindElement?) && before + s == ListBody(f) + r && StuckList(f, r, depth)
            && (f.InElement? && f.done == [] ==> Front(f.fault) + r == s)
    decreases |s|, 2
  {
    hide *;
    LimitIs();
    OpenIsNoNul();
    ElementsStep(s, depth);
    var v, r := ParseValue(s, depth), ParseElements(s, depth).rest;
    if v.Fail? {
      var g := FaultOf(s, depth);
      f := InElement([], before, g);
      FirstFault(before, g, r, depth);
    } else {
      var t := ValueIsSyntax(s, depth);
      Shorter(s, depth);
      var blank := BlankRead(v.rest);
      SkipShorter(v.rest);
      SkipStops(v.rest);
      var after := SkipWhitespace(v.rest);
      NonBlank(after);
      if after[0] == ',' {
        TailTerminated(after);
        SkipShorter(after[1..]);
        SkipStops(after[1..]);
        var gap := BlankRead(after[1..]);
        var next := SkipWhitespace(after[1..]);
        NonBlank(next);
        var g := ElementsFault(next, gap, depth);
        f := OneDone(Slot(before, t, blank), g, r, depth);
        Joined5(before, SpellValue(t), blank, ListBody(g), r);
      } else {
        f := BehindElement([], Slot(before, t, blank));
        BeginsBut(after, ',');
        LastFault(before, t, blank, r, depth);
      }
    }
  }

  lemma Joined5(a: string, b: string, c: string, d: string, e: string)
    ensures a + (b + (c + ("," + (d + e)))) == (a + (b + (c + ("," + d)))) + e
  {
    Regrouped5(a, b, c, d, e);
  }

  lemma FirstFault(before: string, g: Fault, r: string, depth: nat)
    requires Blank(before) && Stuck(g, r, depth) && Begins(Front(g) + r, false, ' ') && depth <= 1000
    ensures var f := InElement([], before, g); StuckList(f, r, depth) && ListBody(f) + r == before + (Front(g) + r)
  {
    NoSlots();
    NoneDone(before + Front(g));
    hide Stuck, Begins, Front, Blank;
    assert (before + Front(g)) + r == before + (Front(g) + r);
  }

  lemma LastFault(before: string, t: Syntax, blank: string, r: string, depth: nat)
    requires Blank(before) && Fine(t) && Blank(blank) && Depth(t) + depth <= 1000
    requires Ends(t, blank + r) && Terminated(r) && Begins(r, true, ',') && r != "" && r[0] != ']'
    ensures var f := BehindElement([], Slot(before, t, blank));
            StuckList(f, r, depth) && ListBody(f) + r == before + (SpellValue(t) + (blank + r))
  {
    NoSlots();
    NoneDone(before + (SpellValue(t) + blank));
    hide Begins, Blank, Fine, Ends, SpellValue, Depth;
    var v := SpellValue(t);
    assert (v + blank) + r == v + (blank + r);
    assert (before + (v + blank)) + r == before + ((v + blank) + r);
  }

  function RowBody(f: Fault): string
    requires f.InMember? || f.BehindMember?
  {
    if f.InMember? then DoneEntries(f.past, f.before + FrontMember(f.member))
    else DoneEntries(f.past, f.final.before + (SpellEntry(f.final) + f.final.after))
  }

  predicate FineFinal(e: Entry, depth: nat) {
    && Blank(e.before) && FineLiteral(e.key) && Blank(e.middle) && Blank(e.start)
    && Fine(e.value) && Depth(e.value) + depth <= 1000 && Blank(e.after)
  }

  predicate StuckRow(f: Fault, r: string, depth: nat)
    requires f.InMember? || f.BehindMember?
  {
    && FineEntries(f.past) && EntriesDepth(f.past) + depth <= 1000
    && if f.InMember? then Blank(f.before) && StuckMember(f.member, r, depth) && Begins(FrontMember(f.member) + r, false, ' ')
       else FineFinal(f.final, depth) && Ends(f.final.value, f.final.after + r) && Terminated(r) && Begins(r, true, ',') && r[0] != '}'
  }

  lemma RowIsFault(f: Fault, r: string, depth: nat)
    requires (f.InMember? || f.BehindMember?) && depth < 1000 && StuckRow(f, r, depth + 1)
    requires f.InMember? && f.past == [] ==> Begins(FrontMember(f.member) + r, true, '}')
    ensures Stuck(f, r, depth) && Front(f) == "{" + RowBody(f)
  {
    hide FineEntries, EntriesDepth, Blank, Fine, Depth, Ends, DoneEntries, SpellEntry, FineLiteral;
    if f.InMember? && f.past != [] { assert Begins(FrontMember(f.member) + r, false, '}'); }
  }

  lemma {:induction false} ObjectFault(s: string, depth: nat) returns (f: Fault)
    requires Terminated(s) && s[0] == '{' && depth <= 1000 && ParseObject(s, depth).Fail?
    ensures var r := ParseObject(s, depth).rest; s == Front(f) + r && Stuck(f, r, depth)
    decreases |s|, 0
  {
    hide *;
    LimitIs();
    OpenIsNoNul();
    TailTerminated(s);
    ObjectIs(s, depth);
    if depth >= 1000 {
      f := TooDeep;
      PlainFault(f, s, depth);
    } else {
      SkipShorter(s[1..]);
      SkipStops(s[1..]);
      var first := SkipWhitespace(s[1..]);
      var blank := BlankRead(s[1..]);
      NonBlank(first);
      f := MembersFault(first, blank, depth + 1);
      var r := ParseMembers(first, depth + 1).rest;
      if f.InMember? && f.past == [] { BeginsBut(first, '}'); }
      RowIsFault(f, r, depth);
      Opened(s, '{', RowBody(f), r);
    }
  }

  lemma OnePast(e: Entry, f: Fault, r: string, depth: nat) returns (g: Fault)
    requires (f.InMember? || f.BehindMember?) && StuckRow(f, r, depth) && FineFinal(e, depth)
    ensures (g.InMember? || g.BehindMember?) && StuckRow(g, r, depth) && g.past != []
    ensures RowBody(g) == e.before + (SpellEntry(e) + (e.after + ("," + RowBody(f))))
  {
    g := f.(past := [e] + f.past);
    EntriesMade(e, f.past, depth);
    EntriesDoneIs(g.past, if f.InMember? then f.before + FrontMember(f.member) else f.final.before + (SpellEntry(f.final) + f.final.after));
    assert g.past[1..] == f.past && g.past[0] == e;
    hide FineEntries, EntriesDepth, FineFinal, Blank, Ends, DoneEntries, SpellEntry, StuckMember, Begins, FrontMember;
  }

  lemma {:induction false} MembersFault(s: string, before: string, depth: nat) returns (f: Fault)
    requires Terminated(s) && Blank(before) && Begins(s, false, ' ') && depth <= 1000 && ParseMembers(s, depth).Fail?
    ensures var r := ParseMembers(s, depth).rest;
            && (f.InMember? || f.BehindMember?) && before + s == RowBody(f) + r && StuckRow(f, r, depth)
            && (f.InMember? && f.past == [] ==> FrontMember(f.member) + r == s)
    decreases |s|, 3
  {
    hide *;
    LimitIs();
    OpenIsNoNul();
    MembersStep(s, depth);
    var m, r := ParseMember(s, depth), ParseMembers(s, depth).rest;
    if m.Fail? {
      var g := MemberFaultOf(s, depth);
      f := InMember([], before, g);
      FirstMemberFault(before, g, r, depth);
    } else {
      MemberShorter(s, depth);
      var blank := BlankRead(m.rest);
      SkipShorter(m.rest);
      SkipStops(m.rest);
      var after := SkipWhitespace(m.rest);
      NonBlank(after);
      var e := MemberIsSyntax(s, before, blank, depth);
      FinalIs(e, depth);
      if after[0] == ',' {
        TailTerminated(after);
        SkipShorter(after[1..]);
        SkipStops(after[1..]);
        var gap := BlankRead(after[1..]);
        var next := SkipWhitespace(after[1..]);
        NonBlank(next);
        var g := MembersFault(next, gap, depth);
        f := OnePast(e, g, r, depth);
        Joined5(before, SpellEntry(e), blank, RowBody(g), r);
      } else {
        f := BehindMember([], e);
        BeginsBut(after, ',');
        FinalFault(e, r, depth);
      }
    }
  }

  lemma FinalIs(e: Entry, depth: nat)
    requires Blank(e.before) && FineLiteral(e.key) && Blank(e.middle) && Blank(e.start)
    requires Fine(e.value) && Depth(e.value) + depth <= 1000 && Blank(e.after)
    ensures FineFinal(e, depth)
  {
  }

  lemma FirstMemberFault(before: string, g: MemberFault, r: string, depth: nat)
    requires Blank(before) && StuckMember(g, r, depth) && Begins(FrontMember(g) + r, false, ' ') && depth <= 1000
    ensures var f := InMember([], before, g); StuckRow(f, r, depth) && RowBody(f) + r == before + (FrontMember(g) + r)
  {
    NoSlots();
    NoneDone(before + FrontMember(g));
    hide StuckMember, Begins, FrontMember, Blank;
    assert (before + FrontMember(g)) + r == before + (FrontMember(g) + r);
  }

  lemma FinalFault(e: Entry, r: string, depth: nat)
    requires FineFinal(e, depth) && Ends(e.value, e.after + r) && Terminated(r) && Begins(r, true, ',') && r != "" && r[0] != '}'
    requires depth <= 1000
    ensures var f := BehindMember([], e);
            StuckRow(f, r, depth) && RowBody(f) + r == e.before + (SpellEntry(e) + (e.after + r))
  {
    NoSlots();
    NoneDone(e.before + (SpellEntry(e) + e.after));
    hide Begins, FineFinal, Ends, SpellEntry;
    var v := SpellEntry(e);
    assert (v + e.after) + r == v + (e.after + r);
    assert (e.before + (v + e.after)) + r == e.before + ((v + e.after) + r);
  }

  lemma {:induction false} MemberFaultOf(s: string, depth: nat) returns (g: MemberFault)
    requires Terminated(s) && depth <= 1000 && ParseMember(s, depth).Fail?
    ensures var r := ParseMember(s, depth).rest; s == FrontMember(g) + r && StuckMember(g, r, depth)
    decreases |s|, 2
  {
    assert s != "";
    hide *;
    OpenIsNoNul();
    MemberStep(s, depth);
    var k, r := ParseString(s), ParseMember(s, depth).rest;
    if k.Fail? {
      if s[0] == '\"' {
        var f := LiteralFault(s, depth);
        g := InKey(f);
        KeyFault(f, r, depth);
      } else {
        g := NoKey(s[0]);
        ParseStringIs(s);
        OtherKey(s, depth);
      }
    } else {
      var q := LiteralIsSyntax(s);
      StringShorter(s);
      var middle := BlankRead(k.rest);
      SkipShorter(k.rest);
      SkipStops(k.rest);
      var colon := SkipWhitespace(k.rest);
      NonBlank(colon);
      if colon[0] != ':' {
        g := NoColon(q, middle);
        BeginsBut(colon, ':');
        ColonFault(q, middle, r, depth);
      } else {
        TailTerminated(colon);
        var start := BlankRead(colon[1..]);
        SkipShorter(colon[1..]);
        SkipStops(colon[1..]);
        var value := SkipWhitespace(colon[1..]);
        NonBlank(value);
        var f := FaultOf(value, depth);
        g := InValue(q, middle, start, f);
        ValueFault(q, middle, start, f, r, depth);
      }
    }
  }

  lemma KeyFault(f: Fault, r: string, depth: nat)
    requires (f.OpenLiteral? || f.BadEscape?) && Stuck(f, r, depth)
    ensures StuckMember(InKey(f), r, depth) && FrontMember(InKey(f)) == Front(f)
  {
    hide Stuck, Front;
  }

  lemma OtherKey(s: string, depth: nat)
    requires Terminated(s) && s[0] != '\"'
    ensures StuckMember(NoKey(s[0]), s[1..], depth) && s == FrontMember(NoKey(s[0])) + s[1..]
  {
  }

  lemma ColonFault(q: LiteralSyntax, middle: string, r: string, depth: nat)
    requires FineLiteral(q) && Blank(middle) && Terminated(r) && Begins(r, true, ':')
    ensures StuckMember(NoColon(q, middle), r, depth) && FrontMember(NoColon(q, middle)) + r == SpellLiteral(q) + (middle + r)
  {
    hide FineLiteral, Blank, Begins, SpellLiteral;
  }

  lemma ValueFault(q: LiteralSyntax, middle: string, start: string, f: Fault, r: string, depth: nat)
    requires FineLiteral(q) && Blank(middle) && Blank(start) && Stuck(f, r, depth) && Begins(Front(f) + r, false, ' ')
    ensures StuckMember(InValue(q, middle, start, f), r, depth)
    ensures FrontMember(InValue(q, middle, start, f)) + r == SpellLiteral(q) + (middle + (":" + (start + (Front(f) + r))))
  {
    InValueText(q, middle, start, f, r);
    hide FineLiteral, Blank, Stuck, Begins, SpellLiteral, Front;
  }

  lemma InValueText(q: LiteralSyntax, middle: string, start: string, f: Fault, r: string)
    ensures FrontMember(InValue(q, middle, start, f)) + r == SpellLiteral(q) + (middle + (":" + (start + (Front(f) + r))))
  {
    hide SpellLiteral, Front;
    assert (start + Front(f)) + r == start + (Front(f) + r);
    assert (":" + (start + Front(f))) + r == ":" + ((start + Front(f)) + r);
    assert (middle + (":" + (start + Front(f)))) + r == middle + ((":" + (start + Front(f))) + r);
  }

  // ---- Whole texts ----

  /** The text is stuck in a value, or behind one where it should have ended. */
  ghost predicate StuckText(text: string, requireEnd: bool, rest: string) {
    var body := SkipBom(text + [NUL]);
    || (exists before: string, f: Fault ::
          Blank(before) && body == before + (Front(f) + rest) && Begins(Front(f) + rest, false, ' ') && Stuck(f, rest, 0))
    || (requireEnd && exists before: string, t: Syntax, after: string ::
          && Blank(before) && Fine(t) && Depth(t) <= 1000 && Blank(after) && body == before + (SpellValue(t) + (after + rest))
          && Ends(t, after + rest) && Terminated(rest) && rest[0] > ' ')
  }

  lemma TextFault(text: string, requireEnd: bool)
    requires Parse(text, requireEnd).Fail?
    ensures StuckText(text, requireEnd, Parse(text, requireEnd).rest)
  {
    hide *;
    LimitIs();
    ParseIs(text, requireEnd);
    var body, rest := SkipBom(text + [NUL]), Parse(text, requireEnd).rest;
    BodyTerminated(text);
    SkipStops(body);
    var before := BlankRead(body);
    var start := SkipWhitespace(body);
    NonBlank(start);
    if ParseValue(start, 0).Fail? {
      var f := FaultOf(start, 0);
      InText(text, requireEnd, before, f, rest);
    } else {
      var t := ValueIsSyntax(start, 0);
      Shorter(start, 0);
      var r := ParseValue(start, 0);
      var after := BlankRead(r.rest);
      SkipShorter(r.rest);
      SkipStops(r.rest);
      NotTheEnd(rest);
      BehindText(text, before, t, after, rest);
    }
  }

  lemma NotTheEnd(rest: string)
    requires Terminated(rest) && (|rest| == 1 || rest[0] > ' ') && rest[0] != NUL
    ensures rest[0] > ' '
  {
  }

  lemma BodyTerminated(text: string)
    ensures Terminated(text + [NUL]) && Terminated(SkipBom(text + [NUL])) && SkipBom(text + [NUL]) != ""
  {
  }

  lemma InText(text: string, requireEnd: bool, before: string, f: Fault, rest: string)
    requires Blank(before) && SkipBom(text + [NUL]) == before + (Front(f) + rest)
    requires Begins(Front(f) + rest, false, ' ') && Stuck(f, rest, 0)
    ensures StuckText(text, requireEnd, rest)
  {
    hide SkipBom, Blank, Front, Begins, Stuck, Fine, Depth, SpellValue, Ends;
  }

  lemma BehindText(text: string, before: string, t: Syntax, after: string, rest: string)
    requires Blank(before) && Fine(t) && Depth(t) <= 1000 && Blank(after)
    requires SkipBom(text + [NUL]) == before + (SpellValue(t) + (after + rest))
    requires Ends(t, after + rest) && Terminated(rest) && rest[0] > ' '
    ensures StuckText(text, true, rest)
  {
    hide SkipBom, Blank, Front, Begins, Stuck, Fine, Depth, SpellValue, Ends;
  }

  lemma TextStops(text: string, requireEnd: bool, before: string, f: Fault, rest: string)
    requires Blank(before) && SkipBom(text + [NUL]) == before + (Front(f) + rest)
    requires Begins(Front(f) + rest, false, ' ') && Stuck(f, rest, 0)
    ensures Parse(text, requireEnd) == Fail(rest)
  {
    hide *;
    ParseIs(text, requireEnd);
    SkipTo(before, Front(f) + rest);
    FaultStops(f, rest, 0);
  }

  lemma TextGoesOn(text: string, before: string, t: Syntax, after: string, rest: string)
    requires Blank(before) && Fine(t) && Depth(t) <= 1000 && Blank(after)
    requires SkipBom(text + [NUL]) == before + (SpellValue(t) + (after + rest))
    requires Ends(t, after + rest) && Terminated(rest) && rest[0] > ' '
    ensures Parse(text, true) == Fail(rest)
  {
    assert rest != "" && rest[0] != NUL;
    hide *;
    LimitIs();
    ParseIs(text, true);
    ValueRead(t, after + rest, 0);
    ValueStarts(t);
    FirstOf(SpellValue(t), after + rest);
    BlankSkipped(before, SpellValue(t) + (after + rest));
    BlankSkipped(after, rest);
  }

  /** The parser stops exactly at the faults, and what is left of the text tells where that is. */
  lemma RejectsExactly(text: string, requireEnd: bool, rest: string)
    ensures Parse(text, requireEnd) == Fail(rest) <==> StuckText(text, requireEnd, rest)
  {
    hide Parse, SkipBom, Blank, Front, Begins, Stuck, Fine, Depth, SpellValue, Ends;
    if Parse(text, requireEnd).Fail? { TextFault(text, requireEnd); }
    if StuckText(text, requireEnd, rest) {
      var body := SkipBom(text + [NUL]);
      if exists before: string, f: Fault ::
           Blank(before) && body == before + (Front(f) + rest) && Begins(Front(f) + rest, false, ' ') && Stuck(f, rest, 0)
      {
        var before: string, f: Fault :|
          Blank(before) && body == before + (Front(f) + rest) && Begins(Front(f) + rest, false, ' ') && Stuck(f, rest, 0);
        TextStops(text, requireEnd, before, f, rest);
      } else {
        var before: string, t: Syntax, after: string :|
          && Blank(before) && Fine(t) && Depth(t) <= 1000 && Blank(after) && body == before + (SpellValue(t) + (after + rest))
          && Ends(t, after + rest) && Terminated(rest) && rest[0] > ' ';
        TextGoesOn(text, before, t, after, rest);
      }
    }
  }

  /** The reported position counts the characters in front of what is left; at the very end it is one less. */
  lemma PositionOf(text: string, front: string, rest: string)
    requires text + [NUL] == front + rest
    ensures ErrorPosition(text, rest) == if rest == "" then |text| else |front|
  {
    assert |text| + 1 == |front| + |rest|;
  }
}
