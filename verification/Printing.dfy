/** The text that the printers produce, in both layouts. */
module Printing {
  import opened Decimal
  import opened Json

  // ---- Numbers: whole, with at most 15 digits ----

  predicate Whole(d: real) {
    d == d.Floor as real && -1000000000000000.0 < d < 1000000000000000.0
  }

  function NumberText(d: real): (s: string)
    requires Whole(d)
    ensures s != ""
  {
    if d < 0.0 then "-" + Digits(-d.Floor) else Digits(d.Floor)
  }

  // ---- Strings ----

  function HexDigit(d: nat): char
    requires d < 16
  {
    if d < 10 then ('0' as int + d) as char else ('a' as int + d - 10) as char
  }

  /** One character of `print_string_ptr`. */
  function EscapeChar(c: char): (e: string)
    ensures e != ""
  {
    if c == '\\' then "\\\\"
    else if c == '\"' then "\\\""
    else if c == '\U{08}' then "\\b"
    else if c == '\U{0C}' then "\\f"
    else if c == '\n' then "\\n"
    else if c == '\r' then "\\r"
    else if c == '\t' then "\\t"
    else if c < ' ' then "\\u00" + [HexDigit(c as int / 16), HexDigit(c as int % 16)]
    else [c]
  }

  function Escape(s: string): string {
    if s == "" then "" else EscapeChar(s[0]) + Escape(s[1..])
  }

  function Quote(s: string): string {
    "\"" + Escape(s) + "\""
  }

  // ---- Trees ----

  /** What the printers accept here: no invalid node, and numbers whose text is modelled. */
  predicate Printable(j: Json) {
    match j
    case Invalid => false
    case Number(d, _) => Whole(d)
    case Array(items) => PrintableItems(items)
    case Object(members) => PrintableMembers(members)
    case _ => true
  }

  predicate PrintableItems(items: seq<Json>) {
    forall i | 0 <= i < |items| :: Printable(items[i])
  }

  predicate PrintableMembers(members: seq<Member<Json>>) {
    forall i | 0 <= i < |members| :: Printable(members[i].value)
  }

  function Tabs(n: nat): (s: string)
    ensures |s| == n
  {
    seq(n, _ => '\t')
  }

  /** The text of a node printed at a nesting depth, formatted or not. */
  function Text(j: Json, format: bool, depth: nat): (s: string)
    requires Printable(j)
    decreases j
  {
    match j
    case False => "false"
    case True => "true"
    case Null => "null"
    case Number(d, _) => NumberText(d)
    case String(text) => Quote(text)
    case Raw(text) => text
    case Array(items) => "[" + ItemsText(items, format, depth + 1) + "]"
    case Object(members) =>
      (if format then "{\n" else "{") + MembersText(members, format, depth + 1) +
      (if format then Tabs(depth) else "") + "}"
  }

  function ItemsText(items: seq<Json>, format: bool, depth: nat): string
    requires PrintableItems(items)
    decreases items
  {
    if items == [] then ""
    else if |items| == 1 then Text(items[0], format, depth)
    else Text(items[0], format, depth) + (if format then ", " else ",") + ItemsText(items[1..], format, depth)
  }

  function MembersText(members: seq<Member<Json>>, format: bool, depth: nat): string
    requires PrintableMembers(members)
    decreases members
  {
    if members == [] then ""
    else
      MemberText(members[0].key, Text(members[0].value, format, depth), |members| > 1, format, depth) +
      MembersText(members[1..], format, depth)
  }

  function Colon(format: bool): string {
    if format then ":\t" else ":"
  }

  /** Indentation, key, colon, value, comma if another member follows, line end. */
  function MemberText(key: string, value: string, more: bool, format: bool, depth: nat): string {
    (if format then Tabs(depth) else "") + Quote(key) + Colon(format) + value +
    (if more then "," else "") + (if format then "\n" else "")
  }
}
