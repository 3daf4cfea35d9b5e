/** The two fields of a number that was parsed. */
module Numbers {
  import opened CString
  import opened Decimal
  import opened Json
  import opened Parsing
  import opened Printing
  import opened RoundTrip

  /** The whole number next to `d` towards zero, held inside the range of a 32-bit `int`. */
  predicate IntegerOf(d: real, n: int) {
    && (d >= 2147483647.0 ==> n == 2147483647)
    && (d <= -2147483648.0 ==> n == -2147483648)
    && (0.0 <= d < 2147483647.0 ==> n as real <= d < n as real + 1.0)
    && (-2147483648.0 < d < 0.0 ==> n as real - 1.0 < d <= n as real)
  }

  /** Every number of a tree has both fields right. */
  predicate RightNumbers(j: Json) {
    match j
    case Number(d, n) => IntegerOf(d, n)
    case Array(items) => RightItems(items)
    case Object(members) => RightMembers(members)
    case _ => true
  }

  predicate RightItems(items: seq<Json>) {
    forall i | 0 <= i < |items| :: RightNumbers(items[i])
  }

  predicate RightMembers(members: seq<Member<Json>>) {
    forall i | 0 <= i < |members| :: RightNumbers(members[i].value)
  }

  /** There is one such number. */
  lemma OneInteger(d: real, n: int, m: int)
    requires IntegerOf(d, n) && IntegerOf(d, m)
    ensures n == m
  {
  }

  lemma SaturateRight(d: real)
    ensures IntegerOf(d, Saturate(d))
  {
  }

  lemma NumberRight(s: string)
    requires Terminated(s)
    ensures var r := ParseNumber(s); r.Ok? ==> r.value.Number? && RightNumbers(r.value)
  {
    hide Strtod, NumberLength, Saturate, IntegerOf;
    SaturateRight(Strtod(s[..NumberLength(s, 63)]).value);
  }

  lemma {:induction false} ValueRight(s: string, depth: nat)
    requires Terminated(s)
    ensures var r := ParseValue(s, depth); r.Ok? ==> RightNumbers(r.value)
    decreases |s|, 1
  {
    hide ParseString, ParseNumber, ParseElements, ParseMembers, SkipWhitespace, StartsWith, IntegerOf;
    NumberRight(s);
    if s[0] == '[' && depth < NESTING_LIMIT { ElementsRight(SkipWhitespace(s[1..]), depth + 1); }
    if s[0] == '{' && depth < NESTING_LIMIT { MembersRight(SkipWhitespace(s[1..]), depth + 1); }
  }

  lemma {:induction false} ElementsRight(s: string, depth: nat)
    requires Terminated(s)
    ensures var r := ParseElements(s, depth); r.Ok? ==> RightItems(r.value)
    decreases |s|, 2
  {
    hide ParseValue, SkipWhitespace, RightNumbers;
    ValueRight(s, depth);
    var v := ParseValue(s, depth);
    if v.Ok? {
      var after := SkipWhitespace(v.rest);
      if after[0] == ',' { ElementsRight(SkipWhitespace(after[1..]), depth); }
    }
  }

  lemma {:induction false} MembersRight(s: string, depth: nat)
    requires Terminated(s)
    ensures var r := ParseMembers(s, depth); r.Ok? ==> RightMembers(r.value)
    decreases |s|, 3
  {
    hide ParseValue, ParseString, SkipWhitespace, RightNumbers;
    MemberRight(s, depth);
    hide ParseMember;
    var m := ParseMember(s, depth);
    if m.Ok? {
      var after := SkipWhitespace(m.rest);
      if after[0] == ',' { MembersRight(SkipWhitespace(after[1..]), depth); }
    }
  }

  lemma {:induction false} MemberRight(s: string, depth: nat)
    requires Terminated(s)
    ensures var r := ParseMember(s, depth); r.Ok? ==> RightNumbers(r.value.value)
    decreases |s|, 2
  {
    hide ParseValue, ParseString, SkipWhitespace, RightNumbers;
    var k := ParseString(s);
    if k.Ok? {
      var colon := SkipWhitespace(k.rest);
      if colon[0] == ':' { ValueRight(SkipWhitespace(colon[1..]), depth); }
    }
  }

  /** Whatever text is parsed, `valueint` is `valuedouble` without its fraction, inside the range of `int`. */
  lemma ParsedRight(text: string, requireEnd: bool)
    ensures var r := Parse(text, requireEnd); r.Ok? ==> RightNumbers(r.value)
  {
    hide ParseValue, SkipWhitespace, SkipBom, RightNumbers;
    ValueRight(SkipWhitespace(SkipBom(text + [NUL])), 0);
  }

  function IntegerText(n: int): string {
    if n < 0 then "-" + Digits(-n) else Digits(n)
  }

  /** The text of every 32-bit integer is parsed with that integer in both fields. */
  lemma ParsesInteger(n: int, rest: string, depth: nat)
    requires -2147483648 <= n <= 2147483647 && Follows(rest)
    ensures Terminated(IntegerText(n) + rest)
    ensures ParseValue(IntegerText(n) + rest, depth) == Ok(Number(n as real, n), rest)
  {
    assert IntegerText(n) == NumberText(n as real);
    SaturateRight(n as real);
    OneInteger(n as real, n, Saturate(n as real));
    hide ParseValue, IntegerText, NumberText;
    NumberParses(n as real, rest, depth);
  }
}
