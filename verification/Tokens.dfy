/**
 Exactly which texts the parser reads as numbers and as string literals, and as which: every
 token that is accepted is spelled by the syntax here, and every spelling is accepted.
 */
module Tokens {
  import opened Options
  import opened Decimal
  import opened Json
  import opened Utf8
  import opened Parsing
  import opened Literals
  import opened RoundTrip

  // ---- Numbers ----

  datatype ExponentText = NoExponent | ExponentText(letter: char, sign: string, digits: string)

  /** A number as it is written. */
  datatype NumberSyntax =
    NumberSyntax(minus: bool, whole: string, point: bool, fraction: string, exponent: ExponentText)

  predicate FineExponent(e: ExponentText) {
    match e
    case NoExponent => true
    case ExponentText(letter, sign, digits) =>
      (letter == 'e' || letter == 'E') && (sign == "" || sign == "+" || sign == "-") && digits != "" && AllDigits(digits)
  }

  /** Leading zeros, a point without digits behind it and "-.5" are let through. */
  predicate FineNumber(n: NumberSyntax) {
    && AllDigits(n.whole) && AllDigits(n.fraction) && n.whole + n.fraction != ""
    && (!n.minus ==> n.whole != "") && (!n.point ==> n.fraction == "")
    && FineExponent(n.exponent)
  }

  function SpellExponent(e: ExponentText): string {
    match e
    case NoExponent => ""
    case ExponentText(letter, sign, digits) => [letter] + (sign + digits)
  }

  function SpellPoint(n: NumberSyntax): string {
    if n.point then "." + n.fraction else ""
  }

  function SpellNumber(n: NumberSyntax): string {
    (if n.minus then "-" else "") + (n.whole + (SpellPoint(n) + SpellExponent(n.exponent)))
  }

  function ExponentOf(e: ExponentText): int
    requires FineExponent(e)
  {
    match e
    case NoExponent => 0
    case ExponentText(_, sign, digits) =>
      var magnitude: int := Horner(0, digits);
      if sign == "-" then -magnitude else magnitude
  }

  /** Its digits as a whole number, shifted by the exponent and the digits behind the point. */
  function NumberValue(n: NumberSyntax): real
    requires FineNumber(n)
  {
    var magnitude := Magnitude(n.whole + n.fraction, ExponentOf(n.exponent) - |n.fraction|);
    if n.minus then -magnitude else magnitude
  }

  /** `Pow10` is the power of ten. */
  lemma {:induction false} Pow10Law(e: int)
    ensures Pow10(0) == 1.0 && Pow10(e + 1) == 10.0 * Pow10(e)
  {
    if e < 0 { assert Pow10(e) == Pow10(e + 1) / 10.0; }
  }

  lemma {:induction false} DigitRunUpTo(s: string, rest: string)
    requires AllDigits(s) && (rest == "" || !IsDigit(rest[0]))
    ensures DigitRun(s + rest) == |s|
    decreases |s|
  {
    if s == "" {
      assert s + rest == rest;
    } else {
      assert (s + rest)[1..] == s[1..] + rest;
      DigitRunUpTo(s[1..], rest);
    }
  }

  lemma ExponentIs(s: string)
    ensures if s == "" || (s[0] != 'e' && s[0] != 'E') then Exponent(s) == (0, 0)
            else
              var sign := SignLength(s[1..]);
              var n := DigitRun(s[1 + sign..]);
              if n == 0 then Exponent(s) == (0, 0)
              else
                && AllDigits(s[1 + sign..][..n])
                && var magnitude: int := Horner(0, s[1 + sign..][..n]);
                   Exponent(s) == (if sign == 1 && s[1] == '-' then -magnitude else magnitude, 1 + sign + n)
  {
    hide Horner, DigitRun, SignLength;
  }

  lemma ExponentFine(e: ExponentText)
    requires FineExponent(e) && e.ExponentText?
    ensures (e.letter == 'e' || e.letter == 'E') && AllDigits(e.digits) && e.digits != "" && IsDigit(e.digits[0])
    ensures e.sign == "" || e.sign == "+" || e.sign == "-"
    ensures SpellExponent(e) == [e.letter] + (e.sign + e.digits)
    ensures var magnitude: int := Horner(0, e.digits); ExponentOf(e) == if e.sign == "-" then -magnitude else magnitude
  {
    hide Horner;
  }

  lemma SignIs(sign: string, digits: string)
    requires (sign == "" || sign == "+" || sign == "-") && digits != "" && IsDigit(digits[0])
    ensures SignLength(sign + digits) == |sign| && (sign + digits)[|sign|..] == digits
    ensures sign == "-" <==> |sign| == 1 && (sign + digits)[0] == '-'
  {
    if sign == "" { assert (sign + digits)[0] == digits[0]; } else { assert (sign + digits)[0] == sign[0]; }
  }

  lemma ExponentScanned(e: ExponentText)
    requires FineExponent(e)
    ensures Exponent(SpellExponent(e)) == (ExponentOf(e), |SpellExponent(e)|)
  {
    if e.NoExponent? {
      hide Horner, DigitRun;
    } else {
      hide *;
      ExponentFine(e);
      var body := e.sign + e.digits;
      SignIs(e.sign, e.digits);
      var s := [e.letter] + body;
      assert s[0] == e.letter && s[1..] == body && s[1] == body[0];
      assert s[1 + |e.sign|..] == body[|e.sign|..];
      assert e.digits + "" == e.digits && e.digits[..|e.digits|] == e.digits;
      DigitRunUpTo(e.digits, "");
      ExponentIs(s);
    }
  }

  /** The parts of a text in the order in which `Strtod` takes them. */
  ghost predicate Parts(s: string, sign: nat, whole: string, point: bool, fraction: string, rest: string) {
    && sign == SignLength(s) && |s| >= sign && s[sign..] == whole + (if point then "." + (fraction + rest) else rest)
    && AllDigits(whole) && AllDigits(fraction) && whole + fraction != "" && (!point ==> fraction == "")
    && (rest == "" || (!IsDigit(rest[0]) && (point || rest[0] != '.')))
  }

  lemma Cut(a: string, b: string)
    ensures (a + b)[..|a|] == a && (a + b)[|a|..] == b
  {
  }

  lemma CutAt(s: string, at: nat, a: string, b: string)
    requires at <= |s| && s[at..] == a + b
    ensures at + |a| <= |s| && s[at + |a|..] == b && s[at..][..|a|] == a && |s| == at + |a| + |b|
  {
    assert s[at + |a|..] == s[at..][|a|..];
  }

  lemma PointFirst(t: string)
    ensures ("." + t)[0] == '.' && !IsDigit('.') && ("." + t)[1..] == t && |"." + t| == 1 + |t|
  {
  }

  lemma DigitsJoin(a: string, b: string)
    requires AllDigits(a) && AllDigits(b)
    ensures AllDigits(a + b)
  {
  }

  lemma PartsAre(s: string, sign: nat, whole: string, point: bool, fraction: string, rest: string)
    requires Parts(s, sign, whole, point, fraction, rest)
    ensures sign == SignLength(s) && |s| >= sign
    ensures s[sign..] == whole + (if point then "." + (fraction + rest) else rest)
    ensures AllDigits(whole) && AllDigits(fraction) && |whole| + |fraction| > 0 && (!point ==> fraction == "")
    ensures rest == "" || (!IsDigit(rest[0]) && (point || rest[0] != '.'))
  {
    hide AllDigits, SignLength, IsDigit;
  }

  lemma StrtodParts(
    s: string, sign: nat, whole: string, point: bool, fraction: string, rest: string, exponent: int, length: nat)
    requires Parts(s, sign, whole, point, fraction, rest) && Exponent(rest) == (exponent, length) && length <= |rest|
    ensures AllDigits(whole + fraction)
    ensures var magnitude := Magnitude(whole + fraction, exponent - |fraction|);
            Strtod(s) == Scanned(if sign == 1 && s[0] == '-' then -magnitude else magnitude, |s| - |rest| + length)
  {
    hide *;
    PartsAre(s, sign, whole, point, fraction, rest);
    DigitsJoin(whole, fraction);
    if point {
      StrtodPoint(s, sign, whole, fraction, rest, exponent, length);
    } else {
      CutAt(s, sign, whole, rest);
      DigitRunUpTo(whole, rest);
      StrtodBy(s, sign, whole, false, fraction, rest, sign + |whole|, exponent, length);
    }
  }

  lemma StrtodPoint(s: string, sign: nat, whole: string, fraction: string, rest: string, exponent: int, length: nat)
    requires sign == SignLength(s) && |s| >= sign && s[sign..] == whole + ("." + (fraction + rest))
    requires AllDigits(whole) && AllDigits(fraction) && AllDigits(whole + fraction) && |whole| + |fraction| > 0
    requires (rest == "" || !IsDigit(rest[0])) && Exponent(rest) == (exponent, length)
    ensures var magnitude := Magnitude(whole + fraction, exponent - |fraction|);
            Strtod(s) == Scanned(if sign == 1 && s[0] == '-' then -magnitude else magnitude, |s| - |rest| + length)
  {
    hide *;
    var tail := "." + (fraction + rest);
    PointFirst(fraction + rest);
    DigitRunUpTo(whole, tail);
    DigitRunUpTo(fraction, rest);
    PointCuts(s, sign, whole, fraction, rest);
    StrtodBy(s, sign, whole, true, fraction, tail, sign + |whole| + 1 + |fraction|, exponent, length);
  }

  lemma PointCuts(s: string, sign: nat, whole: string, fraction: string, rest: string)
    requires |s| >= sign && s[sign..] == whole + ("." + (fraction + rest))
    ensures var at, tail := sign + |whole|, "." + (fraction + rest);
            && at + 1 + |fraction| <= |s| && s[sign..][..|whole|] == whole && s[at..] == tail
            && tail[1..][..|fraction|] == fraction && s[at + 1 + |fraction|..] == rest && |s| == at + 1 + |fraction| + |rest|
  {
    var ft, at := fraction + rest, sign + |whole|;
    CutAt(s, sign, whole, "." + ft);
    PointFirst(ft);
    Cut(fraction, rest);
    CutAt(s, at, ".", ft);
    CutAt(s, at + 1, fraction, rest);
  }

  lemma StrtodBy(
    s: string, sign: nat, whole: string, point: bool, fraction: string, tail: string, mantissa: nat, exponent: int, length: nat)
    requires sign == SignLength(s) && |whole| == DigitRun(s[sign..]) && |whole| + |fraction| > 0 && AllDigits(whole + fraction)
    requires whole == s[sign..][..|whole|] && tail == s[sign + |whole|..]
    requires point == (tail != "" && tail[0] == '.')
    requires if point then |fraction| == DigitRun(tail[1..]) && fraction == tail[1..][..|fraction|] else fraction == ""
    requires mantissa == sign + |whole| + (if point then 1 + |fraction| else 0) && Exponent(s[mantissa..]) == (exponent, length)
    ensures var magnitude := Magnitude(whole + fraction, exponent - |fraction|);
            Strtod(s) == Scanned(if sign == 1 && s[0] == '-' then -magnitude else magnitude, mantissa + length)
  {
    hide *;
    StrtodAt(s, sign, |whole|, point, |fraction|, mantissa, exponent, length);
  }

  lemma StrtodAt(
    s: string, sign: nat, whole: nat, point: bool, fraction: nat, mantissa: nat, exponent: int, length: nat)
    requires sign == SignLength(s) && whole == DigitRun(s[sign..]) && whole + fraction > 0
    requires var rest := s[sign + whole..]; point == (rest != "" && rest[0] == '.') && fraction == (if point then DigitRun(rest[1..]) else 0)
    requires mantissa == sign + whole + (if point then 1 + fraction else 0) && Exponent(s[mantissa..]) == (exponent, length)
    ensures var rest := s[sign + whole..];
            var digits := s[sign..][..whole] + (if point then rest[1..][..fraction] else "");
            && AllDigits(digits)
            && var magnitude := Magnitude(digits, exponent - fraction);
               Strtod(s) == Scanned(if sign == 1 && s[0] == '-' then -magnitude else magnitude, mantissa + length)
  {
    hide DigitRun, Exponent, Magnitude;
  }

  function Tail(n: NumberSyntax): string {
    SpellPoint(n) + SpellExponent(n.exponent)
  }

  lemma ExponentStarts(e: ExponentText)
    requires FineExponent(e)
    ensures SpellExponent(e) != "" ==> !IsDigit(SpellExponent(e)[0]) && SpellExponent(e)[0] != '.'
  {
  }

  lemma SignSpelled(n: NumberSyntax)
    requires FineNumber(n)
    ensures var s := SpellNumber(n); var sign := if n.minus then 1 else 0;
            && SignLength(s) == sign && |s| > 0 && (n.minus <==> s[0] == '-')
            && s[sign..] == n.whole + Tail(n) && s[sign + |n.whole|..] == Tail(n)
            && |s| == sign + |n.whole| + |Tail(n)|
  {
    var s, sign := SpellNumber(n), if n.minus then 1 else 0;
    var body := n.whole + Tail(n);
    assert s == (if n.minus then "-" else "") + body;
    if !n.minus { assert s[0] == n.whole[0] && IsDigit(n.whole[0]); }
    hide Tail, SpellNumber, SpellPoint, SpellExponent, FineExponent, AllDigits;
    assert s[sign..] == body;
    assert s[sign + |n.whole|..] == body[|n.whole|..] == Tail(n);
  }

  lemma NumberScanned(n: NumberSyntax)
    requires FineNumber(n)
    ensures Strtod(SpellNumber(n)) == Scanned(NumberValue(n), |SpellNumber(n)|)
  {
    hide *;
    var s, exp, sign: nat := SpellNumber(n), SpellExponent(n.exponent), if n.minus then 1 else 0;
    ExponentScanned(n.exponent) by { FineParts(n); }
    NumberInParts(n);
    StrtodParts(s, sign, n.whole, n.point, n.fraction, exp, ExponentOf(n.exponent), |exp|) by { FineParts(n); }
    ValueInParts(n);
    SignSpelled(n);
  }

  lemma FineParts(n: NumberSyntax)
    requires FineNumber(n)
    ensures FineExponent(n.exponent) && AllDigits(n.whole + n.fraction)
  {
    NumberParts(n);
  }

  lemma ValueInParts(n: NumberSyntax)
    requires FineNumber(n)
    ensures FineExponent(n.exponent) && AllDigits(n.whole + n.fraction)
    ensures var magnitude := Magnitude(n.whole + n.fraction, ExponentOf(n.exponent) - |n.fraction|);
            NumberValue(n) == if n.minus then -magnitude else magnitude
  {
    NumberParts(n);
    hide Magnitude, ExponentOf;
  }

  lemma NumberInParts(n: NumberSyntax)
    requires FineNumber(n)
    ensures Parts(SpellNumber(n), if n.minus then 1 else 0, n.whole, n.point, n.fraction, SpellExponent(n.exponent))
  {
    SignSpelled(n);
    TailSpelled(n);
    ExponentStarts(n.exponent);
    NumberParts(n);
    hide SignLength, SpellNumber, SpellExponent, FineExponent, Tail, AllDigits, IsDigit, FineNumber;
  }

  lemma TailSpelled(n: NumberSyntax)
    ensures var exp := SpellExponent(n.exponent); Tail(n) == if n.point then "." + (n.fraction + exp) else exp
  {
    var exp := SpellExponent(n.exponent);
    hide SpellExponent;
    if n.point { assert ("." + n.fraction) + exp == "." + (n.fraction + exp); } else { assert "" + exp == exp; }
  }

  lemma {:induction false} DigitsOnly(s: string)
    requires AllDigits(s)
    ensures forall i | 0 <= i < |s| :: NumberChar(s[i])
  {
  }

  lemma NumberChars(n: NumberSyntax)
    requires FineNumber(n)
    ensures SpellNumber(n) != "" && forall i | 0 <= i < |SpellNumber(n)| :: NumberChar(SpellNumber(n)[i])
    ensures SpellNumber(n)[0] == '-' || IsDigit(SpellNumber(n)[0])
  {
    DigitsOnly(n.whole);
    DigitsOnly(n.fraction);
    if n.exponent.ExponentText? { DigitsOnly(n.exponent.digits); }
  }

  /** Every number of the syntax that fits in 63 characters is read as its value, in front of what cannot go on. */
  lemma NumberRead(n: NumberSyntax, rest: string)
    requires FineNumber(n) && |SpellNumber(n)| <= 63 && Follows(rest)
    ensures Terminated(SpellNumber(n) + rest)
    ensures ParseNumber(SpellNumber(n) + rest) == Ok(MakeNumber(NumberValue(n)), rest)
  {
    var t := SpellNumber(n);
    NumberChars(n);
    NumberScanned(n);
    TerminatedAppend(t, rest);
    NumberLengthOf(t, rest, 63);
    assert (t + rest)[..|t|] == t && (t + rest)[|t|..] == rest;
    hide SpellNumber, Strtod, NumberLength, NumberValue, FineNumber;
  }

  lemma SignText(s: string) returns (t: string)
    ensures (t == "" || t == "+" || t == "-") && |t| == SignLength(s) && t <= s && (t == "-" <==> s != "" && s[0] == '-')
  {
    t := s[..SignLength(s)];
  }

  lemma NoExponentFine()
    ensures FineExponent(NoExponent) && SpellExponent(NoExponent) == "" && ExponentOf(NoExponent) == 0
  {
  }

  lemma ExponentTextFine(letter: char, sign: string, digits: string)
    requires (letter == 'e' || letter == 'E') && (sign == "" || sign == "+" || sign == "-") && digits != "" && AllDigits(digits)
    ensures var e := ExponentText(letter, sign, digits); var magnitude: int := Horner(0, digits);
            && FineExponent(e) && SpellExponent(e) == [letter] + (sign + digits)
            && ExponentOf(e) == if sign == "-" then -magnitude else magnitude
  {
    hide Horner, AllDigits;
  }

  lemma FrontOf(s: string, sign: string, n: nat)
    requires s != "" && sign <= s[1..] && 1 + |sign| + n <= |s|
    ensures [s[0]] + (sign + s[1 + |sign|..][..n]) == s[..1 + |sign| + n]
  {
    assert s[1..][..|sign|] == sign;
  }

  lemma ExponentOfText(s: string) returns (e: ExponentText)
    ensures FineExponent(e) && SpellExponent(e) <= s && Exponent(s) == (ExponentOf(e), |SpellExponent(e)|)
  {
    hide *;
    ExponentIs(s);
    NoExponentFine();
    e := NoExponent;
    if s != "" && (s[0] == 'e' || s[0] == 'E') {
      var sign := SignText(s[1..]);
      var n := DigitRun(s[1 + |sign|..]);
      if n > 0 {
        e := ExponentText(s[0], sign, s[1 + |sign|..][..n]);
        ExponentTextFine(e.letter, e.sign, e.digits);
        FrontOf(s, sign, n);
      }
    }
  }

  /** What `strtod` uses is a number of the syntax, with its value. */
  lemma NumberOfText(s: string) returns (n: NumberSyntax)
    requires Strtod(s).used > 0 && (s[0] == '-' || IsDigit(s[0]))
    ensures FineNumber(n) && SpellNumber(n) == s[..Strtod(s).used] && NumberValue(n) == Strtod(s).value
  {
    hide *;
    var sign, whole, point, fraction, rest := StrtodUses(s);
    var e := ExponentOfText(rest);
    n := NumberSyntax(sign == 1, whole, point, fraction, e);
    var exp := SpellExponent(e);
    StrtodParts(s, sign, whole, point, fraction, rest, ExponentOf(e), |exp|);
    FromParts(s, sign, rest, n);
    ValueInParts(n);
  }

  lemma StrtodUses(s: string) returns (sign: nat, whole: string, point: bool, fraction: string, rest: string)
    requires Strtod(s).used > 0 && (s[0] == '-' || IsDigit(s[0]))
    ensures Parts(s, sign, whole, point, fraction, rest)
    ensures sign <= 1 && (sign == 1 <==> s[0] == '-') && (sign == 0 ==> whole != "")
  {
    sign := SignLength(s);
    var body := s[sign..];
    var n := DigitRun(body);
    var tail := body[n..];
    whole := body[..n];
    point := tail != "" && tail[0] == '.';
    StrtodNeeds(s);
    assert tail == s[sign + n..];
    hide Strtod;
    if point {
      var after := tail[1..];
      var k := DigitRun(after);
      fraction, rest := after[..k], after[k..];
      Halves(after, k);
      PointTail(tail);
    } else {
      fraction, rest := "", tail;
      NoDigits();
    }
    Halves(body, n);
    hide DigitRun, AllDigits, IsDigit;
  }

  lemma NoDigits()
    ensures AllDigits("")
  {
  }

  lemma Halves(s: string, n: nat)
    requires n <= |s|
    ensures s == s[..n] + s[n..]
  {
  }

  lemma PointTail(t: string)
    requires t != "" && t[0] == '.'
    ensures t == "." + t[1..]
  {
  }

  /** Without a digit nothing is used. */
  lemma StrtodNeeds(s: string)
    requires Strtod(s).used > 0
    ensures var sign := SignLength(s); var whole := DigitRun(s[sign..]); var tail := s[sign + whole..];
            whole > 0 || (tail != "" && tail[0] == '.' && DigitRun(tail[1..]) > 0)
  {
    hide DigitRun, Exponent, Magnitude;
  }

  lemma FromParts(s: string, sign: nat, rest: string, n: NumberSyntax)
    requires Parts(s, sign, n.whole, n.point, n.fraction, rest) && FineExponent(n.exponent) && SpellExponent(n.exponent) <= rest
    requires sign == (if n.minus then 1 else 0) && s != "" && (n.minus <==> s[0] == '-') && (!n.minus ==> n.whole != "")
    ensures FineNumber(n) && SpellNumber(n) == s[..|s| - |rest| + |SpellExponent(n.exponent)|]
  {
    var exp := SpellExponent(n.exponent);
    assert FineNumber(n);
    assert s[sign..] == n.whole + (if n.point then "." + (n.fraction + rest) else rest);
    assert SpellNumber(n) == (if n.minus then "-" else "") + (n.whole + (SpellPoint(n) + exp));
    assert SpellPoint(n) == if n.point then "." + n.fraction else "";
    hide *;
    var more := rest[|exp|..];
    assert rest == exp + more;
    Rejoin(if n.minus then "-" else "", n.whole, n.point, n.fraction, exp, more);
    MinusFirst(s, sign);
    Cut(SpellNumber(n), more);
  }

  lemma MinusFirst(s: string, sign: nat)
    requires s != "" && sign == if s[0] == '-' then 1 else 0
    ensures s == (if s[0] == '-' then "-" else "") + s[sign..]
  {
  }

  lemma Rejoin(a: string, whole: string, point: bool, fraction: string, exp: string, more: string)
    ensures (a + (whole + ((if point then "." + fraction else "") + exp))) + more ==
            a + (whole + (if point then "." + (fraction + (exp + more)) else exp + more))
  {
  }

  lemma NumberParts(n: NumberSyntax)
    requires FineNumber(n)
    ensures AllDigits(n.whole) && AllDigits(n.fraction) && n.whole + n.fraction != "" && (!n.point ==> n.fraction == "")
    ensures AllDigits(n.whole + n.fraction)
  {
  }

  lemma ParseNumberIs(s: string)
    requires Terminated(s)
    ensures var r := Strtod(s[..NumberLength(s, 63)]);
            ParseNumber(s) == if r.used == 0 then Fail(s) else Ok(MakeNumber(r.value), s[r.used..])
  {
    hide Strtod, NumberLength;
  }

  lemma NumberStarts(s: string)
    requires s != "" && (s[0] == '-' || IsDigit(s[0]))
    ensures 0 < NumberLength(s, 63) <= 63
  {
  }

  /** Whatever is read as a number is one of the syntax. */
  lemma NumberIsSyntax(s: string) returns (n: NumberSyntax)
    requires Terminated(s) && (s[0] == '-' || IsDigit(s[0])) && ParseNumber(s).Ok?
    ensures FineNumber(n) && |SpellNumber(n)| <= 63 && s == SpellNumber(n) + ParseNumber(s).rest
    ensures ParseNumber(s).value == MakeNumber(NumberValue(n))
  {
    assert s != "";
    hide *;
    ParseNumberIs(s);
    NumberStarts(s);
    var k := NumberLength(s, 63);
    FirstSame(s, k);
    n := NumberOfText(s[..k]);
    PrefixOf(s, k, Strtod(s[..k]).used);
  }

  lemma FirstSame(s: string, k: nat)
    requires 0 < k <= |s|
    ensures s[..k] != "" && s[..k][0] == s[0]
  {
  }

  lemma PrefixOf(s: string, k: nat, n: nat)
    requires n <= k <= |s|
    ensures s[..k][..n] == s[..n] && |s[..n]| == n && s == s[..n] + s[n..]
  {
  }

  // ---- String literals ----

  /**
   What the second pass takes for one character: also a \u whose digits are none, which is a NUL,
   and a quote that the first pass has seen escaped.
   */
  predicate Taken(p: Piece) {
    match p
    case Bare(c) => c != '\\'
    case Short(letter) => SimpleEscape(letter).Some?
    case Unit(hex) => |hex| == 4 && !(0xd800 <= Hex4(hex) <= 0xdfff)
    case Pair(high, low) =>
      |high| == 4 && |low| == 4 && 0xd800 <= Hex4(high) <= 0xdbff && 0xdc00 <= Hex4(low) <= 0xdfff
  }

  predicate AllTaken(ps: seq<Piece>) {
    ps == [] || (Taken(ps[0]) && AllTaken(ps[1..]))
  }

  function BytesOf(p: Piece): string
    requires Taken(p)
  {
    match p
    case Bare(c) => [c]
    case Short(letter) => [SimpleEscape(letter).value]
    case Unit(hex) => Encode8(Hex4(hex))
    case Pair(high, low) => Encode8(0x10000 + (Hex4(high) - 0xd800) * 0x400 + (Hex4(low) - 0xdc00))
  }

  function AllBytes(ps: seq<Piece>): string
    requires AllTaken(ps)
  {
    if ps == [] then "" else BytesOf(ps[0]) + AllBytes(ps[1..])
  }

  /** A literal; `over` says that its closing quote is also the last thing the second pass takes. */
  datatype LiteralSyntax = LiteralSyntax(pieces: seq<Piece>, over: bool)

  /** From behind the opening quote to the closing one. */
  function Inside(q: LiteralSyntax): string {
    Spell(q.pieces) + (if q.over then "" else "\"")
  }

  function SpellLiteral(q: LiteralSyntax): string {
    "\"" + Inside(q)
  }

  /** The first pass closes the literal where it ends, and the second one can take all of it. */
  predicate FineLiteral(q: LiteralSyntax) {
    && AllTaken(q.pieces) && ClosingQuote(Inside(q)) == Some(|Inside(q)| - 1)
    && (q.over ==> q.pieces != [] && q.pieces[|q.pieces| - 1] == Short('\"'))
  }

  /** A C string, which ends at its first NUL. */
  function LiteralText(q: LiteralSyntax): string
    requires FineLiteral(q)
  {
    UpToNul(AllBytes(q.pieces))
  }

  /** Every literal of section 7 of RFC 8259 is one of these. */
  lemma {:induction false} SpelledIsTaken(ps: seq<Piece>)
    requires AllWellSpelled(ps)
    ensures AllTaken(ps) && AllBytes(ps) == Bytes(ps)
  {
    if ps != [] {
      SpelledIsTaken(ps[1..]);
      hide Encode8, Hex4, SimpleEscape;
    }
  }

  lemma WellSpelledFine(ps: seq<Piece>)
    requires AllWellSpelled(ps)
    ensures FineLiteral(LiteralSyntax(ps, false)) && LiteralText(LiteralSyntax(ps, false)) == UpToNul(Bytes(ps))
  {
    SpelledIsTaken(ps);
    CloseSpelling(ps, "");
    assert Spell(ps) + "\"" + "" == Spell(ps) + "\"";
    hide Spell, AllBytes, Bytes, ClosingQuote, AllTaken, AllWellSpelled;
  }

  lemma {:induction false} ClosesAtFirst(s: string, rest: string)
    ensures ClosingQuote(s).Some? ==> ClosingQuote(s + rest) == ClosingQuote(s)
    ensures ClosingQuote(s + rest).Some? && ClosingQuote(s + rest).value < |s| ==> ClosingQuote(s) == ClosingQuote(s + rest)
    decreases |s|
  {
    if s != "" && s[0] != '\"' {
      if s[0] != '\\' {
        assert (s + rest)[1..] == s[1..] + rest;
        ClosesAtFirst(s[1..], rest);
      } else if |s| >= 2 {
        assert (s + rest)[2..] == s[2..] + rest;
        ClosesAtFirst(s[2..], rest);
      } else {
        EscapeLast(s, rest);
      }
    }
  }

  lemma EscapeLast(s: string, rest: string)
    requires |s| == 1 && s[0] == '\\'
    ensures ClosingQuote(s).None? && (ClosingQuote(s + rest).Some? ==> ClosingQuote(s + rest).value >= 1)
  {
    assert (s + rest)[0] == '\\';
  }

  /** One piece of the second pass. */
  lemma TakePiece(p: Piece, rest: string, n: int)
    requires Taken(p) && 0 <= n < |rest|
    ensures Unescape(SpellPiece(p) + rest, |SpellPiece(p)| + n) == Prepend(BytesOf(p), Unescape(rest, n))
  {
    hide *;
    match p
    case Bare(_) => TakeSimple(p, rest, n);
    case Short(_) => TakeSimple(p, rest, n);
    case Unit(hex) =>
      UnitSpelled(hex);
      TakeUnit(hex, rest, n);
    case Pair(high, low) => TakePair(high, low, rest, n);
  }

  lemma UnitSpelled(h: string)
    requires Taken(Unit(h))
    ensures SpellPiece(Unit(h)) == "\\u" + h && BytesOf(Unit(h)) == Encode8(Hex4(h)) && |h| == 4
  {
    hide Hex4, Encode8;
  }

  lemma TakeSimple(p: Piece, rest: string, n: int)
    requires Taken(p) && 0 <= n < |rest| && (p.Bare? || p.Short?)
    ensures Unescape(SpellPiece(p) + rest, |SpellPiece(p)| + n) == Prepend(BytesOf(p), Unescape(rest, n))
  {
    var s := SpellPiece(p) + rest;
    if p.Bare? {
      assert s[1..] == rest;
    } else {
      assert s[2..] == rest && s[1] == p.letter;
    }
    hide Utf16, Encode8;
  }

  lemma TakePair(high: string, low: string, rest: string, n: int)
    requires Taken(Pair(high, low)) && 0 <= n < |rest|
    ensures var p := Pair(high, low);
            Unescape(SpellPiece(p) + rest, |SpellPiece(p)| + n) == Prepend(BytesOf(p), Unescape(rest, n))
  {
    HexOf(high);
    HexOf(low);
    PairSpelled(high, low);
    UnescapePair(high, low, rest, n);
    hide *;
  }

  lemma PairSpelled(high: string, low: string)
    requires Taken(Pair(high, low)) && FourHex(high) && FourHex(low)
    ensures WellSpelled(Pair(high, low)) && BytesOf(Pair(high, low)) == PieceBytes(Pair(high, low))
    ensures SpellPiece(Pair(high, low)) == "\\u" + high + "\\u" + low && |SpellPiece(Pair(high, low))| == 12
  {
    hide Hex4, IsHex4, Encode8;
  }

  lemma HexOf(h: string)
    requires |h| == 4 && Hex4(h) > 0
    ensures FourHex(h)
  {
  }

  lemma TakeUnit(h: string, rest: string, n: int)
    requires Taken(Unit(h)) && 0 <= n < |rest|
    ensures Unescape("\\u" + h + rest, 6 + n) == Prepend(Encode8(Hex4(h)), Unescape(rest, n))
  {
    var s := "\\u" + h + rest;
    assert s[2..] == h + rest && s[6..] == rest && s[0] == '\\' && s[1] == 'u';
    Hex4OfPrefix(h, rest);
    hide Hex4, Encode8;
    assert Utf16(s, 6 + n) == Some(Utf8.Literal(Hex4(h), 6));
  }

  lemma SpellSplit(ps: seq<Piece>, rest: string)
    requires ps != []
    ensures Spell(ps) + rest == SpellPiece(ps[0]) + (Spell(ps[1..]) + rest)
    ensures |Spell(ps)| == |SpellPiece(ps[0])| + |Spell(ps[1..])|
  {
    hide SpellPiece;
  }

  lemma TakenHead(ps: seq<Piece>)
    requires AllTaken(ps) && ps != []
    ensures Taken(ps[0]) && AllTaken(ps[1..]) && AllBytes(ps) == BytesOf(ps[0]) + AllBytes(ps[1..])
  {
    hide Taken, BytesOf;
  }

  lemma NoPieces(rest: string)
    requires rest != ""
    ensures Spell([]) == "" && Spell([]) + rest == rest && AllTaken([]) && AllBytes([]) == "" && Unescape(rest, 0) == Ok("", rest)
  {
  }

  lemma Prepended(a: string, b: string, rest: string)
    ensures Prepend(a, Ok(b, rest)) == Ok(a + b, rest)
  {
  }

  lemma {:induction false} TakeAll(ps: seq<Piece>, rest: string)
    requires AllTaken(ps) && rest != ""
    ensures Unescape(Spell(ps) + rest, |Spell(ps)|) == Ok(AllBytes(ps), rest)
  {
    hide *;
    NoPieces(rest);
    if ps != [] {
      TakenHead(ps);
      TakeAll(ps[1..], rest);
      SpellSplit(ps, rest);
      TakePiece(ps[0], Spell(ps[1..]) + rest, |Spell(ps[1..])|);
      Prepended(BytesOf(ps[0]), AllBytes(ps[1..]), rest);
    }
  }

  lemma {:induction false} TakeOver(ps: seq<Piece>, rest: string)
    requires AllTaken(ps) && ps != [] && ps[|ps| - 1] == Short('\"') && rest != ""
    ensures |Spell(ps)| >= 2 && Unescape(Spell(ps) + rest, |Spell(ps)| - 1) == Ok(AllBytes(ps), rest)
  {
    hide *;
    SpellSplit(ps, rest);
    TakenHead(ps);
    if |ps| == 1 {
      NoPieces(rest);
      assert ps[1..] == [];
      OverLast(rest);
      LastSpelled();
    } else {
      TakeOver(ps[1..], rest);
      TakePiece(ps[0], Spell(ps[1..]) + rest, |Spell(ps[1..])| - 1);
      Prepended(BytesOf(ps[0]), AllBytes(ps[1..]), rest);
    }
  }

  lemma LastSpelled()
    ensures var p := Short('\"'); SpellPiece(p) == "\\\"" && BytesOf(p) + "" == "\"" && |SpellPiece(p)| == 2
  {
  }

  lemma OverLast(rest: string)
    requires rest != ""
    ensures Unescape("\\\"" + rest, 1) == Ok("\"", rest)
  {
    var s := "\\\"" + rest;
    assert s[2..] == rest && s[0] == '\\' && s[1] == '\"';
    assert "\"" + "" == "\"";
  }

  /** How the two passes make a string. */
  lemma ParseStringIs(s: string)
    requires Terminated(s)
    ensures var body := s[1..]; var end := ClosingQuote(body);
            ParseString(s) ==
            if s[0] != '\"' || end.None? then Fail(body)
            else
              var text := Unescape(body, end.value);
              if text.Fail? then text else Ok(UpToNul(text.value), body[end.value + 1..])
  {
    hide ClosingQuote, Unescape, UpToNul;
  }

  lemma FineInside(q: LiteralSyntax)
    requires FineLiteral(q)
    ensures ClosingQuote(Inside(q)) == Some(|Inside(q)| - 1) && AllTaken(q.pieces) && LiteralText(q) == UpToNul(AllBytes(q.pieces))
    ensures Inside(q) == Spell(q.pieces) + (if q.over then "" else "\"") && SpellLiteral(q) == "\"" + Inside(q)
    ensures q.over ==> q.pieces != [] && q.pieces[|q.pieces| - 1] == Short('\"')
  {
    hide ClosingQuote, AllTaken, AllBytes, Spell, UpToNul;
  }

  lemma InsideRead(q: LiteralSyntax, rest: string)
    requires FineLiteral(q) && rest != ""
    ensures Unescape(Inside(q) + rest, |Inside(q)| - 1) == Ok(AllBytes(q.pieces), if q.over then rest else "\"" + rest)
  {
    hide *;
    FineInside(q);
    var t := Spell(q.pieces);
    if q.over {
      TakeOver(q.pieces, rest);
      assert t + "" == t;
    } else {
      TakeAll(q.pieces, "\"" + rest);
      assert (t + "\"") + rest == t + ("\"" + rest);
    }
  }

  lemma FineCloses(q: LiteralSyntax)
    requires FineLiteral(q)
    ensures ClosingQuote(Inside(q)) == Some(|Inside(q)| - 1) && SpellLiteral(q) == "\"" + Inside(q)
    ensures AllTaken(q.pieces) && LiteralText(q) == UpToNul(AllBytes(q.pieces))
  {
    hide ClosingQuote, AllTaken, AllBytes, Inside, UpToNul;
  }

  /** Every literal of the syntax is read as its text. */
  lemma LiteralRead(q: LiteralSyntax, rest: string)
    requires FineLiteral(q) && Terminated(rest)
    ensures Terminated(SpellLiteral(q) + rest) && ParseString(SpellLiteral(q) + rest) == Ok(LiteralText(q), rest)
  {
    assert rest != "";
    hide *;
    TerminatedAppend(SpellLiteral(q), rest);
    FineCloses(q);
    InsideRead(q, rest);
    ClosesAtFirst(Inside(q), rest);
    Headed(Inside(q), rest);
    ParseStringIs(SpellLiteral(q) + rest);
  }

  lemma Headed(inside: string, rest: string)
    ensures var s := ("\"" + inside) + rest;
            s != "" && s[0] == '\"' && s[1..] == inside + rest && (inside + rest)[|inside|..] == rest
  {
  }

  /** What the second pass takes is a row of pieces; it may take one character too many. */
  lemma {:induction false} PiecesRead(s: string, n: nat) returns (ps: seq<Piece>, over: bool)
    requires n < |s| && Unescape(s, n).Ok?
    ensures AllTaken(ps) && Unescape(s, n).value == AllBytes(ps) && s == Spell(ps) + Unescape(s, n).rest
    ensures |Spell(ps)| == if over then n + 1 else n
    ensures over ==> ps != [] && ps[|ps| - 1] == Short(s[n])
    decreases |s|
  {
    hide *;
    if n == 0 {
      ps, over := [], false;
      NoPieces(s);
      EndOver(s, 0);
    } else {
      var p, k := PieceRead(s, n);
      Halves(s, k);
      if n < k {
        ps, over := [p], true;
        EndOver(s[k..], n - k);
        OnlyPiece(p);
        Prepended(BytesOf(p), "", s[k..]);
      } else {
        var more: seq<Piece>;
        more, over := PiecesRead(s[k..], n - k);
        ps := [p] + more;
        PrependsOk(BytesOf(p), Unescape(s[k..], n - k));
        ConsTaken(p, more);
        ConsSpelled(p, more, Unescape(s, n).rest);
        Indexed(s, k, n);
      }
    }
  }

  lemma PrependsOk(a: string, r: Parsed<string>)
    requires r.Ok?
    ensures Prepend(a, r) == Ok(a + r.value, r.rest)
  {
  }

  lemma ConsSpelled(p: Piece, ps: seq<Piece>, rest: string)
    ensures Spell([p] + ps) + rest == SpellPiece(p) + (Spell(ps) + rest) && |Spell([p] + ps)| == |SpellPiece(p)| + |Spell(ps)|
  {
    SpellSplit([p] + ps, rest);
    assert ([p] + ps)[1..] == ps;
    hide *;
  }

  lemma Indexed(s: string, k: nat, n: nat)
    requires k <= n < |s|
    ensures s[k..][n - k] == s[n]
  {
  }

  lemma EndOver(s: string, n: int)
    requires n <= 0 && n < |s|
    ensures Unescape(s, n) == Ok("", s)
  {
  }

  lemma OnlyPiece(p: Piece)
    requires Taken(p)
    ensures AllTaken([p]) && AllBytes([p]) == BytesOf(p) + "" && Spell([p]) == SpellPiece(p)
  {
    assert [p][1..] == [] && Spell([]) == "" && SpellPiece(p) + "" == SpellPiece(p);
    hide Taken, BytesOf, SpellPiece;
  }

  lemma ConsTaken(p: Piece, ps: seq<Piece>)
    requires Taken(p) && AllTaken(ps)
    ensures AllTaken([p] + ps) && AllBytes([p] + ps) == BytesOf(p) + AllBytes(ps)
  {
    assert ([p] + ps)[1..] == ps;
    hide Taken, BytesOf;
  }

  /** The first piece that the second pass takes. */
  lemma PieceRead(s: string, n: nat) returns (p: Piece, k: nat)
    requires 0 < n < |s| && Unescape(s, n).Ok?
    ensures Taken(p) && k == |SpellPiece(p)| <= |s| && s[..k] == SpellPiece(p) && n - k < |s| - k
    ensures Unescape(s, n) == Prepend(BytesOf(p), Unescape(s[k..], n - k)) && Unescape(s[k..], n - k).Ok?
    ensures k > 0 && (k > n ==> k == n + 1 && p == Short(s[n]))
  {
    hide Encode8, Hex4;
    if s[0] != '\\' {
      p, k := Bare(s[0]), 1;
    } else if s[1] != 'u' {
      p, k := Short(s[1]), 2;
    } else {
      p, k := UnitRead(s, n);
    }
  }

  lemma UnitRead(s: string, n: nat) returns (p: Piece, k: nat)
    requires 0 < n < |s| && Unescape(s, n).Ok? && s[0] == '\\' && s[1] == 'u'
    ensures Taken(p) && k == |SpellPiece(p)| <= n && s[..k] == SpellPiece(p)
    ensures Unescape(s, n) == Prepend(BytesOf(p), Unescape(s[k..], n - k)) && Unescape(s[k..], n - k).Ok?
    ensures k > 0
  {
    UnitUnescaped(s, n);
    hide Unescape;
    p, k := UnitShape(s, n);
    hide *;
  }

  lemma UnitUnescaped(s: string, n: nat)
    requires 0 < n < |s| && Unescape(s, n).Ok? && s[0] == '\\' && s[1] == 'u'
    ensures var l := Utf16(s, n);
            l.Some? && l.value.length <= |s| && Unescape(s, n) == Prepend(Encode8(l.value.codepoint), Unescape(s[l.value.length..], n - l.value.length))
    ensures var l := Utf16(s, n); Unescape(s[l.value.length..], n - l.value.length).Ok?
  {
    hide Utf16, Encode8;
  }

  /** The unit, or the pair, at the start of a text. */
  lemma UnitShape(s: string, n: nat) returns (p: Piece, k: nat)
    requires 1 < |s| && n < |s| && s[0] == '\\' && s[1] == 'u' && Utf16(s, n).Some?
    ensures Taken(p) && k == |SpellPiece(p)| == Utf16(s, n).value.length <= n && s[..k] == SpellPiece(p)
    ensures BytesOf(p) == Encode8(Utf16(s, n).value.codepoint)
  {
    var literal := Utf16(s, n);
    var high := s[2..6];
    assert s[2..] == high + s[6..];
    Hex4OfPrefix(high, s[6..]);
    k := literal.value.length;
    if k == 6 {
      p := Unit(high);
      assert s[..6] == "\\u" + high;
    } else {
      var low := s[8..12];
      assert s[8..] == low + s[12..];
      Hex4OfPrefix(low, s[12..]);
      p := PairShape(s, n, high, low);
    }
    hide Encode8, Hex4;
  }

  lemma PairShape(s: string, n: nat, high: string, low: string) returns (p: Piece)
    requires 1 < |s| && n < |s| && s[0] == '\\' && s[1] == 'u' && Utf16(s, n).Some? && Utf16(s, n).value.length == 12
    requires high == s[2..6] && low == s[8..12] && Hex4(s[2..]) == Hex4(high) && Hex4(s[8..]) == Hex4(low)
    ensures Taken(p) && |SpellPiece(p)| == 12 && s[..12] == SpellPiece(p)
    ensures BytesOf(p) == Encode8(Utf16(s, n).value.codepoint)
  {
    hide Encode8, Hex4;
    p := Pair(high, low);
    assert s[..12] == "\\u" + high + "\\u" + low;
    SurrogatePair(s, n);
  }

  lemma InsideIs(q: LiteralSyntax, body: string, end: nat)
    requires end < |body| && body[end] == '\"' && Spell(q.pieces) <= body && |Spell(q.pieces)| == if q.over then end + 1 else end
    ensures Inside(q) == body[..end + 1]
  {
    hide Spell;
    var t := Spell(q.pieces);
    assert t == body[..|t|];
    if q.over { assert t + "" == t; } else { assert body[..end + 1] == t + [body[end]]; }
  }

  lemma FineOf(q: LiteralSyntax)
    requires AllTaken(q.pieces) && ClosingQuote(Inside(q)) == Some(|Inside(q)| - 1)
    requires q.over ==> q.pieces != [] && q.pieces[|q.pieces| - 1] == Short('\"')
    ensures FineLiteral(q)
  {
  }

  lemma LiteralParts(s: string) returns (end: nat)
    requires Terminated(s) && ParseString(s).Ok?
    ensures s != "" && s[0] == '\"' && ClosingQuote(s[1..]) == Some(end) && end < |s[1..]| && s[1..][end] == '\"'
    ensures Unescape(s[1..], end).Ok?
    ensures ParseString(s) == Ok(UpToNul(Unescape(s[1..], end).value), s[1..][end + 1..])
  {
    ParseStringIs(s);
    end := ClosingQuote(s[1..]).value;
    hide *;
  }

  lemma LiteralOf(body: string, end: nat) returns (q: LiteralSyntax)
    requires ClosingQuote(body) == Some(end) && end < |body| && body[end] == '\"' && Unescape(body, end).Ok?
    ensures FineLiteral(q) && body == Inside(q) + body[end + 1..] && LiteralText(q) == UpToNul(Unescape(body, end).value)
  {
    hide *;
    var ps, over := PiecesRead(body, end);
    q := LiteralSyntax(ps, over);
    InsideCloses(q, body, end, Unescape(body, end).rest);
    FineOf(q);
    FineCloses(q);
  }

  /** Whatever is read as a literal is one of the syntax. */
  lemma LiteralIsSyntax(s: string) returns (q: LiteralSyntax)
    requires Terminated(s) && ParseString(s).Ok?
    ensures FineLiteral(q) && s == SpellLiteral(q) + ParseString(s).rest && ParseString(s).value == LiteralText(q)
  {
    hide *;
    var end := LiteralParts(s);
    q := LiteralOf(s[1..], end);
    FineCloses(q);
    HeadedBack(s, Inside(q), s[1..][end + 1..]);
  }

  lemma InsideCloses(q: LiteralSyntax, body: string, end: nat, rest: string)
    requires body == Spell(q.pieces) + rest && |Spell(q.pieces)| == (if q.over then end + 1 else end)
    requires ClosingQuote(body) == Some(end) && end < |body| && body[end] == '\"'
    ensures body == Inside(q) + body[end + 1..] && |Inside(q)| == end + 1 && ClosingQuote(Inside(q)) == Some(end)
  {
    hide *;
    SpelledFirst(q.pieces, body, rest);
    InsideIs(q, body, end);
    PrefixOf(body, end + 1, end + 1);
    ClosesAtFirst(body[..end + 1], body[end + 1..]);
  }

  lemma SpelledFirst(ps: seq<Piece>, body: string, rest: string)
    requires body == Spell(ps) + rest
    ensures Spell(ps) <= body
  {
    hide Spell;
  }

  lemma HeadedBack(s: string, inside: string, rest: string)
    requires s != "" && s[0] == '\"' && s[1..] == inside + rest
    ensures s == ("\"" + inside) + rest
  {
    assert s == [s[0]] + s[1..];
  }
}
