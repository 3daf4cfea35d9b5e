/**
 The \uXXXX escapes: four hexadecimal digits, surrogate pairs, and the UTF-8 encoding of
 section 3 of RFC 3629, checked against an independent decoder.
 */
module Utf8 {
  import opened Options

  function HexValue(c: char): Option<nat> {
    if '0' <= c <= '9' then Some(c as int - '0' as int)
    else if 'A' <= c <= 'F' then Some(10 + c as int - 'A' as int)
    else if 'a' <= c <= 'f' then Some(10 + c as int - 'a' as int)
    else None
  }

  predicate IsHex4(s: string)
    requires |s| >= 4
  {
    HexValue(s[0]).Some? && HexValue(s[1]).Some? && HexValue(s[2]).Some? && HexValue(s[3]).Some?
  }

  /** `parse_hex4`: an invalid digit makes the whole value 0. */
  function Hex4(s: string): (h: nat)
    requires |s| >= 4
    ensures h < 0x10000
  {
    if IsHex4(s) then
      HexValue(s[0]).value * 4096 + HexValue(s[1]).value * 256 + HexValue(s[2]).value * 16 + HexValue(s[3]).value
    else 0
  }

  type CodePoint = c: nat | c <= 0x10ffff

  datatype Literal = Literal(codepoint: CodePoint, length: nat)

  /**
   The first half of `utf16_literal_to_utf8`: the literal at the start of `s`, of which
   `n` characters lie before the closing quote.
   */
  function Utf16(s: string, n: int): (r: Option<Literal>)
    requires n < |s|
    ensures r.Some? ==> r.value.length == (if r.value.codepoint < 0x10000 then 6 else 12)
    ensures r.Some? ==> r.value.length <= n && !(0xd800 <= r.value.codepoint <= 0xdfff)
  {
    if n < 6 then None
    else
      var first := Hex4(s[2..]);
      if 0xdc00 <= first <= 0xdfff then None
      else if 0xd800 <= first <= 0xdbff then
        if n < 12 || s[6] != '\\' || s[7] != 'u' then None
        else
          var second := Hex4(s[8..]);
          if second < 0xdc00 || second > 0xdfff then None
          else Some(Literal(0x10000 + (first % 0x400) * 0x400 + second % 0x400, 12))
      else Some(Literal(first, 6))
  }

  /** The second half: one to four bytes. */
  function Encode8(c: CodePoint): (bytes: string)
    ensures 1 <= |bytes| <= 4
    ensures forall i | 0 <= i < |bytes| :: bytes[i] as int < 256
  {
    if c < 0x80 then [c as char]
    else if c < 0x800 then [Lead(0xc0, c / 64), Trail(c)]
    else if c < 0x10000 then [Lead(0xe0, c / 64 / 64), Trail(c / 64), Trail(c)]
    else [Lead(0xf0, c / 64 / 64 / 64), Trail(c / 64 / 64), Trail(c / 64), Trail(c)]
  }

  /** `(codepoint | first_byte_mark) & 0xFF`, once the trailing bits are shifted out. */
  function Lead(mark: nat, bits: nat): (b: char)
    requires mark + bits < 256
    ensures b as int == mark + bits
  {
    (mark + bits) as char
  }

  /** `(codepoint | 0x80) & 0xBF`. */
  function Trail(c: nat): (b: char)
    ensures b as int == 0x80 + c % 64
  {
    (0x80 + c % 64) as char
  }

  // ---- An independent decoder, after the table of section 3 of RFC 3629 ----

  predicate IsTrail(b: char) {
    0x80 <= b as int < 0xc0
  }

  function Bits(b: char): int {
    b as int - 0x80
  }

  /** The code point at the start of `s` and how many bytes it takes; overlong forms are refused. */
  function Decode8(s: string): Option<(nat, nat)> {
    if s == "" then None
    else
      var b := s[0] as int;
      if b < 0x80 then Some((b, 1))
      else if 0xc0 <= b < 0xe0 && |s| >= 2 && IsTrail(s[1]) then
        var c := (b - 0xc0) * 64 + Bits(s[1]);
        if c >= 0x80 then Some((c, 2)) else None
      else if 0xe0 <= b < 0xf0 && |s| >= 3 && IsTrail(s[1]) && IsTrail(s[2]) then
        var c := (b - 0xe0) * 4096 + Bits(s[1]) * 64 + Bits(s[2]);
        if c >= 0x800 && !(0xd800 <= c <= 0xdfff) then Some((c, 3)) else None
      else if 0xf0 <= b < 0xf8 && |s| >= 4 && IsTrail(s[1]) && IsTrail(s[2]) && IsTrail(s[3]) then
        var c := (b - 0xf0) * 262144 + Bits(s[1]) * 4096 + Bits(s[2]) * 64 + Bits(s[3]);
        if 0x10000 <= c <= 0x10ffff then Some((c, 4)) else None
      else None
  }

  /** Decoding what a literal was turned into gives its code point, whatever follows. */
  lemma Utf8RoundTrip(c: CodePoint, rest: string)
    requires !(0xd800 <= c <= 0xdfff)
    ensures Decode8(Encode8(c) + rest) == Some((c, |Encode8(c)|))
  {
    if c < 0x80 {
    } else if c < 0x800 {
    } else if c < 0x10000 {
    } else {
      FourBytes(c, rest);
    }
  }

  lemma FourBytes(c: nat, rest: string)
    requires 0x10000 <= c <= 0x10ffff
    ensures Decode8(Encode8(c) + rest) == Some((c, 4))
  { }

  /** A well-formed surrogate pair stands for the code point that UTF-16 assigns to it. */
  lemma SurrogatePair(s: string, n: int)
    requires 12 <= n < |s| && s[6] == '\\' && s[7] == 'u'
    requires 0xd800 <= Hex4(s[2..]) <= 0xdbff && 0xdc00 <= Hex4(s[8..]) <= 0xdfff
    ensures var c := 0x10000 + (Hex4(s[2..]) - 0xd800) * 0x400 + (Hex4(s[8..]) - 0xdc00);
            Utf16(s, n) == Some(Literal(c, 12))
  {
    hide Hex4;
  }
}
