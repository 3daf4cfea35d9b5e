/**
 What the escapes of a string literal stand for, and which of the ways of writing a string the
 printer chooses: the shortest.
 */
module Spellings {
  import opened Options
  import opened CString
  import opened Utf8
  import opened Parsing
  import opened Printing
  import opened Literals
  import Lod

  const ESCAPES: map<char, char> :=
    map['\"' := '\"', '\\' := '\\', '/' := '/', 'b' := '\U{08}', 'f' := '\U{0C}', 'n' := '\U{0A}', 'r' := '\U{0D}', 't' := '\U{09}']

  /** The escapes of section 7 of RFC 8259, and no others. */
  lemma EscapeTable(c: char)
    ensures SimpleEscape(c) == if c in ESCAPES then Some(ESCAPES[c]) else None
  {
  }

  /** Hexadecimal digits in either case. */
  lemma HexTable(c: char, d: nat)
    ensures HexValue(c) == Some(d) <==> d < 16 && (c == "0123456789abcdef"[d] || c == "0123456789ABCDEF"[d])
  {
    var lower, upper := "0123456789abcdef", "0123456789ABCDEF";
    if d < 16 {
      assert lower[d] as int == (if d < 10 then '0' as int + d else 'a' as int + d - 10);
      assert upper[d] as int == (if d < 10 then '0' as int + d else 'A' as int + d - 10);
    }
  }

  /** Four of them are read as a number is, the first digit counting most. */
  lemma Hex4Reads(h: string)
    requires FourHex(h)
    ensures Lod.AllHex(h) && Hex4(h) == Lod.ReadHex(0, h)
  {
    assert h == [h[0], h[1], h[2], h[3]];
    assert h[1..][0] == h[1] && h[1..][1..] == h[2..] && h[2..][0] == h[2] && h[2..][1..] == h[3..] && h[3..][0] == h[3];
    assert h[3..][1..] == "";
    hide HexValue;
    var a, b, c, d := HexValue(h[0]).value, HexValue(h[1]).value, HexValue(h[2]).value, HexValue(h[3]).value;
    assert Lod.ReadHex(0, h) == Lod.ReadHex(a, h[1..]);
    assert Lod.ReadHex(a, h[1..]) == Lod.ReadHex(16 * a + b, h[2..]);
    assert Lod.ReadHex(16 * a + b, h[2..]) == Lod.ReadHex(16 * (16 * a + b) + c, h[3..]);
    assert Lod.ReadHex(16 * (16 * a + b) + c, h[3..]) == 16 * (16 * (16 * a + b) + c) + d;
  }

  // ---- The printer's choice ----

  /** A spelling as section 7 of RFC 8259 wants it: control characters are escaped. */
  predicate Strict(ps: seq<Piece>) {
    forall i | 0 <= i < |ps| :: WellSpelled(ps[i]) && (ps[i].Bare? ==> ps[i].c >= ' ')
  }

  lemma {:induction false} StrictIsWell(ps: seq<Piece>)
    requires Strict(ps)
    ensures AllWellSpelled(ps)
  {
    hide WellSpelled;
    if ps != [] { StrictIsWell(ps[1..]); }
  }

  lemma {:induction false} EscapeJoin(a: string, b: string)
    ensures Escape(a + b) == Escape(a) + Escape(b)
  {
    hide EscapeChar;
    if a == "" {
      assert a + b == b;
    } else {
      assert (a + b)[1..] == a[1..] + b;
      EscapeJoin(a[1..], b);
    }
  }

  lemma {:induction false} EscapeHigh(s: string)
    requires forall i | 0 <= i < |s| :: s[i] >= '\U{80}'
    ensures Escape(s) == s
  {
    if s != "" { EscapeHigh(s[1..]); }
  }

  lemma OneEscaped(c: char)
    ensures Escape([c]) == EscapeChar(c) && |EscapeChar(c)| <= 6
    ensures c >= ' ' && c != '\"' && c != '\\' ==> |EscapeChar(c)| == 1
  {
    assert [c][1..] == "";
  }

  /** What the printer writes for the bytes of a piece is no longer than the piece. */
  lemma PieceShortest(p: Piece)
    requires WellSpelled(p) && (p.Bare? ==> p.c >= ' ')
    ensures |Escape(PieceBytes(p))| <= |SpellPiece(p)|
  {
    match p
    case Bare(c) => OneEscaped(c);
    case Short(letter) => ShortShortest(letter);
    case Unit(hex) =>
      hide Hex4, Escape, EscapeChar;
      BytesEscaped(Hex4(hex));
    case Pair(high, low) =>
      hide Hex4, Escape, EscapeChar;
      BytesEscaped(0x10000 + (Hex4(high) - 0xd800) * 0x400 + (Hex4(low) - 0xdc00));
  }

  lemma ShortShortest(letter: char)
    requires SimpleEscape(letter).Some?
    ensures |Escape([SimpleEscape(letter).value])| <= 2
  {
    OneEscaped(SimpleEscape(letter).value);
    hide Escape;
  }

  lemma BytesEscaped(c: CodePoint)
    ensures |Escape(Encode8(c))| <= 6
  {
    if c < 0x80 {
      OneEscaped(c as char);
    } else {
      assert forall i | 0 <= i < |Encode8(c)| :: Encode8(c)[i] >= '\U{80}';
      EscapeHigh(Encode8(c));
    }
    hide Escape, EscapeChar;
  }

  /** No literal that denotes a string is shorter than the one that the printer writes. */
  lemma {:induction false} PrintShortest(ps: seq<Piece>)
    requires Strict(ps)
    ensures AllWellSpelled(ps) && |Escape(Bytes(ps))| <= |Spell(ps)|
  {
    StrictIsWell(ps);
    hide WellSpelled, SpellPiece, PieceBytes, Escape;
    if ps == [] {
      assert Escape("") == "" by { NothingEscaped(); }
    } else {
      PieceShortest(ps[0]);
      PrintShortest(ps[1..]);
      EscapeJoin(PieceBytes(ps[0]), Bytes(ps[1..]));
    }
  }

  lemma NothingEscaped()
    ensures Escape("") == ""
  {
  }

  predicate Small(p: Piece) {
    p.Unit? ==> forall k | 0 <= k < |p.hex| :: !('A' <= p.hex[k] <= 'F')
  }

  lemma PieceStrict(c: char)
    requires c != NUL
    ensures var p := PieceOf(c); WellSpelled(p) && (p.Bare? ==> p.c >= ' ') && Small(p)
  {
    PieceOfRight(c);
    hide WellSpelled, EscapeChar;
  }

  /** What the printer writes is itself such a spelling, without capitals among its digits. */
  lemma {:induction false} PrintStrict(s: string)
    requires NulFree(s)
    ensures Strict(PiecesOf(s)) && Spell(PiecesOf(s)) == Escape(s)
    ensures AllWellSpelled(PiecesOf(s)) && Bytes(PiecesOf(s)) == s
    ensures forall i | 0 <= i < |PiecesOf(s)| :: Small(PiecesOf(s)[i])
    decreases |s|
  {
    PiecesOfRight(s);
    hide Escape, Bytes, Spell, WellSpelled, AllWellSpelled, PieceOf, Small;
    if s != "" {
      assert s[0] in s;
      PrintStrict(s[1..]);
      PieceStrict(s[0]);
    }
  }
}
