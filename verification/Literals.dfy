/**
 String literals as section 7 of RFC 8259 spells them, and the proof that `parse_string`
 reads every spelling as the bytes it denotes.  What the printer writes is one spelling.
 */
module Literals {
  import opened Options
  import opened CString
  import opened Utf8
  import opened Parsing
  import opened Printing

  /** One character of a literal, in any of the ways of writing it. */
  datatype Piece =
    | Bare(c: char)
    | Short(letter: char)
    | Unit(hex: string)
    | Pair(high: string, low: string)

  predicate FourHex(h: string) {
    |h| == 4 && IsHex4(h)
  }

  predicate WellSpelled(p: Piece) {
    match p
    case Bare(c) => c != '\"' && c != '\\' && c != NUL
    case Short(letter) => SimpleEscape(letter).Some?
    case Unit(hex) => FourHex(hex) && !(0xd800 <= Hex4(hex) <= 0xdfff)
    case Pair(high, low) =>
      FourHex(high) && FourHex(low) && 0xd800 <= Hex4(high) <= 0xdbff && 0xdc00 <= Hex4(low) <= 0xdfff
  }

  predicate AllWellSpelled(ps: seq<Piece>) {
    ps == [] || (WellSpelled(ps[0]) && AllWellSpelled(ps[1..]))
  }

  function SpellPiece(p: Piece): string {
    match p
    case Bare(c) => [c]
    case Short(letter) => ['\\', letter]
    case Unit(hex) => "\\u" + hex
    case Pair(high, low) => "\\u" + high + "\\u" + low
  }

  /** The bytes a piece denotes. */
  function PieceBytes(p: Piece): string
    requires WellSpelled(p)
  {
    match p
    case Bare(c) => [c]
    case Short(letter) => [SimpleEscape(letter).value]
    case Unit(hex) => Encode8(Hex4(hex))
    case Pair(high, low) => Encode8(0x10000 + (Hex4(high) - 0xd800) * 0x400 + (Hex4(low) - 0xdc00))
  }

  function Spell(ps: seq<Piece>): string {
    if ps == [] then "" else SpellPiece(ps[0]) + Spell(ps[1..])
  }

  function Bytes(ps: seq<Piece>): string
    requires AllWellSpelled(ps)
  {
    if ps == [] then "" else PieceBytes(ps[0]) + Bytes(ps[1..])
  }

  lemma Regroup(a: string, b: string, rest: string)
    ensures (a + b) + "\"" + rest == a + (b + "\"" + rest)
  {
  }

  // ---- The first pass ----

  lemma ClosePlain(s: string, n: nat, rest: string)
    requires |s| == n && forall i | 0 <= i < n :: s[i] != '\"' && s[i] != '\\'
    ensures ClosingQuote(s + rest) == (var r := ClosingQuote(rest); if r.None? then None else Some(n + r.value))
    decreases n
  {
    if n == 0 {
      assert s + rest == rest;
    } else {
      assert (s + rest)[1..] == s[1..] + rest;
      ClosePlain(s[1..], n - 1, rest);
    }
  }

  lemma HexIsPlain(h: string)
    requires FourHex(h)
    ensures forall i | 0 <= i < 4 :: h[i] != '\"' && h[i] != '\\' && h[i] != NUL
  {
  }

  lemma CloseEscape(s: string, rest: string)
    requires |s| >= 2 && s[0] == '\\' && s[2..] == rest
    ensures ClosingQuote(s) == (var r := ClosingQuote(rest); if r.None? then None else Some(2 + r.value))
  {
  }

  lemma CloseUnit(h: string, rest: string)
    requires FourHex(h)
    ensures ClosingQuote("\\u" + h + rest) ==
            (var r := ClosingQuote(rest); if r.None? then None else Some(6 + r.value))
  {
    HexIsPlain(h);
    hide IsHex4, ClosingQuote;
    var s := "\\u" + h + rest;
    assert s[2..] == h + rest;
    CloseEscape(s, h + rest);
    ClosePlain(h, 4, rest);
  }

  lemma ClosePair(high: string, low: string, rest: string)
    requires FourHex(high) && FourHex(low)
    ensures ClosingQuote("\\u" + high + "\\u" + low + rest) ==
            (var r := ClosingQuote(rest); if r.None? then None else Some(12 + r.value))
  {
    hide ClosingQuote, FourHex;
    CloseUnit(high, "\\u" + low + rest);
    CloseUnit(low, rest);
    assert "\\u" + high + "\\u" + low + rest == "\\u" + high + ("\\u" + low + rest);
  }

  lemma ClosePiece(p: Piece, rest: string)
    requires WellSpelled(p)
    ensures ClosingQuote(SpellPiece(p) + rest) ==
            (var r := ClosingQuote(rest); if r.None? then None else Some(|SpellPiece(p)| + r.value))
  {
    if p.Bare? {
      assert ([p.c] + rest)[1..] == rest;
    } else {
      hide ClosingQuote, IsHex4, Hex4, SimpleEscape;
      match p {
        case Bare(_) =>
        case Short(letter) => CloseEscape(['\\', letter] + rest, rest);
        case Unit(hex) => CloseUnit(hex, rest);
        case Pair(high, low) => ClosePair(high, low, rest);
      }
    }
  }

  lemma {:induction false} CloseSpelling(ps: seq<Piece>, rest: string)
    requires AllWellSpelled(ps)
    ensures ClosingQuote(Spell(ps) + "\"" + rest) == Some(|Spell(ps)|)
  {
    if ps != [] {
      hide ClosingQuote, WellSpelled, SpellPiece;
      CloseSpelling(ps[1..], rest);
      var tail := Spell(ps[1..]) + "\"" + rest;
      ClosePiece(ps[0], tail);
      Regroup(SpellPiece(ps[0]), Spell(ps[1..]), rest);
    } else {
      assert ("" + "\"" + rest)[0] == '\"';
    }
  }

  // ---- The second pass ----

  lemma UnescapePiece(p: Piece, rest: string, n: int)
    requires WellSpelled(p) && 0 <= n < |rest|
    ensures Unescape(SpellPiece(p) + rest, |SpellPiece(p)| + n) == Prepend(PieceBytes(p), Unescape(rest, n))
  {
    var s := SpellPiece(p) + rest;
    match p
    case Bare(c) =>
      assert s[1..] == rest;
    case Short(letter) =>
      assert s[2..] == rest && s[1] == letter;
    case Unit(hex) =>
      UnescapeUnit(hex, rest, n);
    case Pair(high, low) =>
      UnescapePair(high, low, rest, n);
  }

  lemma Hex4OfPrefix(h: string, rest: string)
    requires |h| == 4
    ensures Hex4(h + rest) == Hex4(h) && IsHex4(h + rest) == IsHex4(h)
  { }

  lemma UnescapeUnit(h: string, rest: string, n: int)
    requires WellSpelled(Unit(h)) && 0 <= n < |rest|
    ensures Unescape("\\u" + h + rest, 6 + n) == Prepend(Encode8(Hex4(h)), Unescape(rest, n))
  {
    var s := "\\u" + h + rest;
    assert s[2..] == h + rest && s[6..] == rest && s[0] == '\\' && s[1] == 'u';
    Hex4OfPrefix(h, rest);
    hide Hex4, Encode8;
    assert Utf16(s, 6 + n) == Some(Utf8.Literal(Hex4(h), 6));
  }

  lemma UnescapePair(high: string, low: string, rest: string, n: int)
    requires WellSpelled(Pair(high, low)) && 0 <= n < |rest|
    ensures Unescape("\\u" + high + "\\u" + low + rest, 12 + n) ==
            Prepend(PieceBytes(Pair(high, low)), Unescape(rest, n))
  {
    hide Hex4, IsHex4, Encode8;
    var s := "\\u" + high + "\\u" + low + rest;
    assert s[2..] == high + ("\\u" + low + rest) && s[8..] == low + rest && s[12..] == rest;
    assert s[0] == '\\' && s[1] == 'u' && s[6] == '\\' && s[7] == 'u';
    Hex4OfPrefix(high, "\\u" + low + rest);
    Hex4OfPrefix(low, rest);
    hide Hex4, Encode8;
    SurrogatePair(s, 12 + n);
    hide Utf16;
  }

  lemma {:induction false} UnescapeSpelling(ps: seq<Piece>, rest: string)
    requires AllWellSpelled(ps)
    ensures Unescape(Spell(ps) + "\"" + rest, |Spell(ps)|) == Ok(Bytes(ps), "\"" + rest)
  {
    if ps != [] {
      hide Unescape, WellSpelled, SpellPiece, PieceBytes;
      UnescapeSpelling(ps[1..], rest);
      var tail := Spell(ps[1..]) + "\"" + rest;
      UnescapePiece(ps[0], tail, |Spell(ps[1..])|);
      Regroup(SpellPiece(ps[0]), Spell(ps[1..]), rest);
    } else {
      assert "" + "\"" + rest == "\"" + rest;
    }
  }

  /** Every well-formed literal is read as the bytes it denotes, up to a NUL among them. */
  lemma ParseSpelling(ps: seq<Piece>, rest: string)
    requires AllWellSpelled(ps) && Terminated(rest)
    ensures Terminated("\"" + Spell(ps) + "\"" + rest)
    ensures ParseString("\"" + Spell(ps) + "\"" + rest) == Ok(UpToNul(Bytes(ps)), rest)
  {
    hide ClosingQuote, Unescape, Spell, Bytes, AllWellSpelled;
    var s, body := "\"" + Spell(ps) + "\"" + rest, Spell(ps) + "\"" + rest;
    assert s[|s| - 1] == rest[|rest| - 1];
    assert s[1..] == body && s[0] == '\"';
    assert body[|Spell(ps)| + 1..] == rest;
    CloseSpelling(ps, rest);
    UnescapeSpelling(ps, rest);
  }

  // ---- The printer's spelling ----

  /** How the printer spells one character. */
  function PieceOf(c: char): Piece {
    if c == '\\' then Short('\\')
    else if c == '\"' then Short('\"')
    else if c == '\U{08}' then Short('b')
    else if c == '\U{0C}' then Short('f')
    else if c == '\n' then Short('n')
    else if c == '\r' then Short('r')
    else if c == '\t' then Short('t')
    else if c < ' ' then Unit("00" + [HexDigit(c as int / 16), HexDigit(c as int % 16)])
    else Bare(c)
  }

  function PiecesOf(s: string): seq<Piece> {
    if s == "" then [] else [PieceOf(s[0])] + PiecesOf(s[1..])
  }

  lemma PieceOfRight(c: char)
    requires c != NUL
    ensures WellSpelled(PieceOf(c)) && SpellPiece(PieceOf(c)) == EscapeChar(c) && PieceBytes(PieceOf(c)) == [c]
  {
    var p := PieceOf(c);
    if p.Unit? {
      HexDigitsRight(c);
    }
  }

  lemma HexDigitsRight(c: char)
    requires c < ' '
    ensures var h := "00" + [HexDigit(c as int / 16), HexDigit(c as int % 16)];
            FourHex(h) && Hex4(h) == c as int
  { }

  lemma {:induction false} PiecesOfRight(s: string)
    requires NulFree(s)
    ensures AllWellSpelled(PiecesOf(s)) && Spell(PiecesOf(s)) == Escape(s) && Bytes(PiecesOf(s)) == s
  {
    if s != "" {
      assert s[0] in s;
      PieceOfRight(s[0]);
      PiecesOfRight(s[1..]);
      assert s == [s[0]] + s[1..];
      hide PieceOf, WellSpelled, SpellPiece, EscapeChar, PieceBytes;
    }
  }

  /** Parsing a printed string gives the string back. */
  lemma ParseQuoted(s: string, rest: string)
    requires NulFree(s) && Terminated(rest)
    ensures Terminated(Quote(s) + rest) && ParseString(Quote(s) + rest) == Ok(s, rest)
  {
    PiecesOfRight(s);
    ParseSpelling(PiecesOf(s), rest);
    hide ParseString, Spell, Escape, Bytes, PiecesOf;
  }
}
