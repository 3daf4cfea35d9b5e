/**
 `printbuffer` and the printers that write into it: a buffer that grows (or may not), the
 escaping of strings, and the recursion over a tree, proved to write exactly `Text`.
 */
module PrintBuffer {
  import opened CString
  import opened Json
  import opened Printing

  /** Every text in the tree is a C string, and every number is one whose text is modelled. */
  predicate CStrings(j: Json) {
    match j
    case Number(d, _) => Whole(d)
    case String(s) => NulFree(s)
    case Raw(s) => NulFree(s)
    case Array(items) => CStringItems(items)
    case Object(members) => CStringMembers(members)
    case _ => true
  }

  predicate CStringItems(items: seq<Json>) {
    forall i | 0 <= i < |items| :: CStrings(items[i])
  }

  predicate CStringMembers(members: seq<Member<Json>>) {
    forall i | 0 <= i < |members| :: NulFree(members[i].key) && CStrings(members[i].value)
  }

  // ---- No terminator inside the text ----

  lemma {:induction false} EscapeNulFree(s: string)
    requires NulFree(s)
    ensures NulFree(Escape(s)) && NulFree(Quote(s))
  {
    if s != "" {
      assert s[0] in s;
      EscapeNulFree(s[1..]);
    }
  }

  lemma {:induction false} TextNulFree(j: Json, format: bool, depth: nat)
    requires Printable(j) && CStrings(j)
    ensures NulFree(Text(j, format, depth))
    decreases j, 0
  {
    match j
    case Number(d, _) =>
    case String(s) => EscapeNulFree(s);
    case Array(items) => ItemsNulFree(items, format, depth + 1);
    case Object(members) => MembersNulFree(members, format, depth + 1);
    case _ =>
  }

  lemma {:induction false} ItemsNulFree(items: seq<Json>, format: bool, depth: nat)
    requires PrintableItems(items) && CStringItems(items)
    ensures NulFree(ItemsText(items, format, depth))
    decreases items
  {
    if items != [] {
      TextNulFree(items[0], format, depth);
      assert forall i | 0 <= i < |items[1..]| :: items[1..][i] == items[i + 1];
      ItemsNulFree(items[1..], format, depth);
      hide Text, Printable, CStrings;
    }
  }

  lemma {:induction false} MembersNulFree(members: seq<Member<Json>>, format: bool, depth: nat)
    requires PrintableMembers(members) && CStringMembers(members)
    ensures NulFree(MembersText(members, format, depth))
    decreases members
  {
    if members != [] {
      var m := members[0];
      TextNulFree(m.value, format, depth);
      EscapeNulFree(m.key);
      MemberNulFree(m.key, Text(m.value, format, depth), |members| > 1, format, depth);
      assert forall i | 0 <= i < |members[1..]| :: members[1..][i] == members[i + 1];
      MembersNulFree(members[1..], format, depth);
      hide Text, Printable, CStrings, Quote, MemberText;
    }
  }

  lemma MemberNulFree(key: string, value: string, more: bool, format: bool, depth: nat)
    requires NulFree(Quote(key)) && NulFree(value)
    ensures NulFree(MemberText(key, value, more, format, depth))
  { }

  // ---- The buffer ----

  /** Nondeterministic: an allocator may refuse any request. */
  method Allocate(size: nat) returns (a: array?<char>)
    ensures a != null ==> fresh(a) && a.Length == size
  {
    var granted: bool := *;
    if granted {
      a := new char[size];
    } else {
      a := null;
    }
  }

  lemma {:induction false} EscapeAppend(s: string, c: char)
    ensures Escape(s + [c]) == Escape(s) + EscapeChar(c)
  {
    if s == "" {
      assert s + [c] == [c];
    } else {
      assert (s + [c])[1..] == s[1..] + [c];
      EscapeAppend(s[1..], c);
      assert EscapeChar(s[0]) + (Escape(s[1..]) + EscapeChar(c)) == Escape(s) + EscapeChar(c);
    }
  }

  lemma EscapeNext(s: string, i: nat)
    requires i < |s|
    ensures Escape(s[..i + 1]) == Escape(s[..i]) + EscapeChar(s[i])
  {
    assert s[..i + 1] == s[..i] + [s[i]];
    EscapeAppend(s[..i], s[i]);
  }

  class PrintBuffer {
    var buffer: array?<char>
    var offset: nat
    var depth: nat
    /** Whether an allocation was refused; the buffer is then gone. */
    var refused: bool
    const noalloc: bool
    const format: bool
    /** Whether the hooks have a `reallocate`. */
    const realloc: bool

    constructor (buffer: array<char>, noalloc: bool, format: bool, realloc: bool)
      requires buffer.Length <= INT_MAX && (buffer.Length == 0 ==> noalloc || realloc)
      ensures Ready() && this.buffer == buffer && offset == 0 && depth == 0
      ensures this.noalloc == noalloc && this.format == format && this.realloc == realloc
    {
      this.buffer, offset, depth, refused := buffer, 0, 0, false;
      this.noalloc, this.format, this.realloc := noalloc, format, realloc;
    }

    ghost predicate Ready()
      reads this
    {
      && buffer != null && !refused && buffer.Length <= INT_MAX
      && (offset < buffer.Length || (offset == 0 && buffer.Length == 0 && (noalloc || realloc)))
    }

    /** What is written for good. */
    ghost function Written(): string
      requires Ready()
      reads this, buffer
    {
      buffer[..offset]
    }

    /** `all` is written, and a terminator behind it. */
    ghost predicate Holds(all: string)
      reads this, buffer
    {
      buffer != null && |all| < buffer.Length && buffer[..|all|] == all && buffer[|all|] == NUL
    }

    /** Why printing up to `end` cannot succeed: two more characters are always asked for. */
    ghost predicate Blocked(end: int)
      reads this
    {
      if noalloc then buffer != null && end + 2 > buffer.Length else refused || end + 2 > INT_MAX
    }

    /** `ensure`: room for `needed` characters and one more at the offset. */
    method Ensure(needed: nat) returns (ok: bool)
      requires Ready()
      modifies this
      ensures offset == old(offset) && depth == old(depth)
      ensures buffer == old(buffer) || (!noalloc && (buffer == null || fresh(buffer)))
      ensures ok ==> Ready() && offset + needed + 1 <= buffer.Length && Written() == old(Written())
      ensures !ok ==> Blocked(offset + needed - 1)
    {
      if buffer.Length > 0 && offset >= buffer.Length {
        return false;
      }
      if needed > INT_MAX {
        return false;
      }
      var total := needed + offset + 1;
      if total <= buffer.Length {
        return true;
      }
      if noalloc {
        return false;
      }
      var newSize := total * 2;
      if total > INT_MAX / 2 {
        if total > INT_MAX {
          return false;
        }
        newSize := INT_MAX;
      }
      var newBuffer := Allocate(newSize);
      if newBuffer == null {
        buffer, refused := null, true;
        return false;
      }
      var i, kept := 0, if realloc then buffer.Length else offset + 1;
      while i < kept
        invariant 0 <= i <= kept
        invariant forall k | 0 <= k < i :: newBuffer[k] == buffer[k]
        modifies newBuffer
      {
        newBuffer[i] := buffer[i];
        i := i + 1;
      }
      assert newBuffer[..offset] == buffer[..offset];
      buffer := newBuffer;
      ok := true;
    }

    /** Asks for room and puts a text there; the offset stays. */
    method Write(text: string, terminated: bool, needed: nat) returns (ok: bool)
      requires Ready() && |text| + (if terminated then 1 else 0) <= needed
      modifies this, buffer
      ensures offset == old(offset) && depth == old(depth)
      ensures buffer == old(buffer) || (!noalloc && (buffer == null || fresh(buffer)))
      ensures ok ==> Ready() && offset + needed + 1 <= buffer.Length && Written() == old(Written())
      ensures ok ==> buffer[..offset + |text|] == old(Written()) + text
      ensures ok && terminated ==> Holds(old(Written()) + text)
      ensures !ok ==> Blocked(offset + needed - 1)
    {
      ghost var base := Written();
      ok := Ensure(needed);
      if !ok {
        return;
      }
      Copy(text, offset);
      if terminated {
        buffer[offset + |text|] := NUL;
      }
      assert buffer[..offset] == (base + text)[..offset] == base;
    }

    /** `memcpy` and `strcpy` into the buffer. */
    method Copy(text: string, at: nat)
      requires buffer != null && at + |text| <= buffer.Length
      modifies buffer
      ensures buffer[..at + |text|] == old(buffer[..at]) + text
    {
      var i := 0;
      while i < |text|
        invariant i <= |text|
        invariant buffer[..at + i] == old(buffer[..at]) + text[..i]
      {
        buffer[at + i] := text[i];
        i := i + 1;
      }
    }

    /** `update_offset`: the length of the string at the offset is found by looking for its end. */
    method UpdateOffset(ghost all: string)
      requires Ready() && Holds(all) && offset <= |all| && NulFree(all[offset..])
      modifies this`offset
      ensures offset == |all| && Ready() && Written() == all
    {
      var length: nat := 0;
      forall k | offset <= k < |all| ensures buffer[k] != NUL {
        assert buffer[k] == buffer[..|all|][k] == all[offset..][k - offset];
      }
      while buffer[offset + length] != NUL
        invariant offset + length <= |all|
        decreases |all| - length
        modifies {}
      {
        length := length + 1;
      }
      offset := offset + length;
    }

    /** What escaping adds to one character. */
    static function Extra(c: char): (n: nat)
      ensures n + 1 == |EscapeChar(c)|
      ensures n == 0 ==> EscapeChar(c) == [c]
    {
      if c == '\"' || c == '\\' || c == '\U{08}' || c == '\U{0C}' || c == '\n' || c == '\r' || c == '\t' then 1
      else if c < ' ' then 5
      else 0
    }

    /** One escaped character into the buffer at `at`. */
    method PutEscaped(c: char, at: nat) returns (next: nat)
      requires buffer != null && at + |EscapeChar(c)| <= buffer.Length
      modifies buffer
      ensures next == at + |EscapeChar(c)|
      ensures buffer[..next] == old(buffer[..at]) + EscapeChar(c)
    {
      if c >= ' ' && c != '\"' && c != '\\' {
        Copy([c], at);
        next := at + 1;
      } else {
        var letter := if c == '\\' then '\\' else if c == '\"' then '\"' else if c == '\U{08}' then 'b'
          else if c == '\U{0C}' then 'f' else if c == '\n' then 'n' else if c == '\r' then 'r'
          else if c == '\t' then 't' else 'u';
        Copy(['\\', letter], at);
        next := at + 2;
        if letter == 'u' {
          Copy("00" + [HexDigit(c as int / 16), HexDigit(c as int % 16)], next);
          next := next + 4;
        }
      }
    }

    /** The first loop of `print_string_ptr`. */
    static method CountEscapes(input: string) returns (escapes: nat)
      ensures |input| + escapes == |Escape(input)|
      ensures escapes == 0 ==> Escape(input) == input
    {
      hide EscapeChar, Escape;
      var i := 0;
      escapes := 0;
      EscapeNothing();
      while i < |input|
        invariant 0 <= i <= |input|
        invariant i + escapes == |Escape(input[..i])|
        invariant escapes == 0 ==> Escape(input[..i]) == input[..i]
      {
        EscapeNext(input, i);
        assert input[..i + 1] == input[..i] + [input[i]];
        escapes := escapes + Extra(input[i]);
        i := i + 1;
      }
      assert input[..|input|] == input;
    }

    /** `print_string_ptr`: first the length, then the characters. */
    method PrintStringPtr(input: string) returns (ok: bool)
      requires Ready()
      modifies this, buffer
      ensures offset == old(offset) && depth == old(depth)
      ensures buffer == old(buffer) || (!noalloc && (buffer == null || fresh(buffer)))
      ensures ok ==> Ready() && Written() == old(Written()) && Holds(old(Written()) + Quote(input))
      ensures ok ==> offset + |Quote(input)| + 2 <= buffer.Length
      ensures !ok ==> Blocked(offset + |Quote(input)|)
    {
      hide Escape;
      var escapes := CountEscapes(input);
      var length := |input| + escapes;
      ok := Ensure(length + 3);
      if ok {
        PutQuoted(input, escapes);
      }
    }

    method PutQuoted(input: string, escapes: nat)
      requires buffer != null && |input| + escapes == |Escape(input)| && (escapes == 0 ==> Escape(input) == input)
      requires offset + |Escape(input)| + 3 <= buffer.Length
      modifies buffer
      ensures Holds(old(buffer[..offset]) + Quote(input)) && buffer[..offset] == old(buffer[..offset])
    {
      hide Escape;
      ghost var base := buffer[..offset];
      Copy("\"", offset);
      if escapes == 0 {
        Copy(input, offset + 1);
      } else {
        PutAll(input, offset + 1);
      }
      var end := offset + |input| + escapes + 1;
      Copy(['\"', NUL], end);
      QuoteParts(base, Escape(input), buffer[..end + 2]);
      TakeOfTake(end + 2, offset);
    }

    lemma TakeOfTake(n: nat, m: nat)
      requires buffer != null && m < n <= buffer.Length
      ensures buffer[..m] == buffer[..n][..m]
      ensures buffer[..n - 1] == buffer[..n][..n - 1] && buffer[n - 1] == buffer[..n][n - 1]
    {
    }

    /** The loop that escapes. */
    method PutAll(input: string, at: nat)
      requires buffer != null && at + |Escape(input)| <= buffer.Length
      modifies buffer
      ensures buffer[..at + |Escape(input)|] == old(buffer[..at]) + Escape(input)
    {
      hide EscapeChar, Escape;
      ghost var base := buffer[..at];
      var i, next: nat := 0, at;
      EscapeNothing();
      while i < |input|
        invariant 0 <= i <= |input|
        invariant next == at + |Escape(input[..i])| <= buffer.Length
        invariant buffer[..next] == base + Escape(input[..i])
      {
        EscapeNext(input, i);
        EscapeShorter(input, i + 1);
        next := PutEscaped(input[i], next);
        i := i + 1;
      }
      assert input[..|input|] == input;
    }

    // ---- Values ----

    /** A node is printed behind `base`; the offset may still lie inside its text. */
    ghost predicate Printed(j: Json, base: string, d: nat)
      reads this, buffer
    {
      && Printable(j) && Ready() && depth == d && Holds(base + Text(j, format, d))
      && |base| <= offset <= |base + Text(j, format, d)| && |base + Text(j, format, d)| + 2 <= buffer.Length
    }

    /** `print_value`. */
    method PrintValue(item: Json) returns (ok: bool)
      requires Ready() && CStrings(item)
      modifies this, buffer
      ensures buffer == old(buffer) || (!noalloc && (buffer == null || fresh(buffer)))
      ensures ok ==> Printed(item, old(Written()), old(depth))
      ensures !ok && Printable(item) ==> Blocked(old(offset) + |Text(item, format, old(depth))|)
      decreases item, 1
    {
      hide Printed, Blocked, NumberText, Written;
      match item
      case Null => ok := PrintLeaf(item, "null", false);
      case False => ok := PrintLeaf(item, "false", false);
      case True => ok := PrintLeaf(item, "true", false);
      case Number(d, _) => ok := PrintLeaf(item, NumberText(d), true);
      case Raw(text) => ok := PrintLeaf(item, text, false);
      case String(text) => ok := PrintString(text);
      case Array(items) => ok := PrintArray(items);
      case Object(members) => ok := PrintObject(members);
      case Invalid => ok := false;
    }

    /** A node whose text is copied; only `print_number` moves the offset behind it. */
    method PrintLeaf(item: Json, text: string, move: bool) returns (ok: bool)
      requires Ready() && Printable(item) && Text(item, format, depth) == text
      modifies this, buffer
      ensures buffer == old(buffer) || (!noalloc && (buffer == null || fresh(buffer)))
      ensures ok ==> Printed(item, old(Written()), old(depth))
      ensures !ok ==> Blocked(old(offset) + |Text(item, format, old(depth))|)
    {
      hide Text;
      ok := Write(text, true, |text| + 1);
      if ok && move {
        offset := offset + |text|;
      }
    }

    /** `print_string`. */
    method PrintString(text: string) returns (ok: bool)
      requires Ready()
      modifies this, buffer
      ensures buffer == old(buffer) || (!noalloc && (buffer == null || fresh(buffer)))
      ensures ok ==> Printed(String(text), old(Written()), old(depth))
      ensures !ok ==> Blocked(old(offset) + |Text(String(text), format, old(depth))|)
    {
      assert Text(String(text), format, depth) == Quote(text);
      hide Text, Quote;
      ok := PrintStringPtr(text);
    }

    /** A value printed and the offset moved behind it. */
    method PrintWhole(item: Json) returns (ok: bool)
      requires Ready() && CStrings(item)
      modifies this, buffer
      ensures buffer == old(buffer) || (!noalloc && (buffer == null || fresh(buffer)))
      ensures ok ==> Printable(item) && Ready() && depth == old(depth)
      ensures ok ==> Written() == old(Written()) + Text(item, format, old(depth)) && offset + 2 <= buffer.Length
      ensures !ok && Printable(item) ==> Blocked(old(offset) + |Text(item, format, old(depth))|)
      decreases item, 2
    {
      hide Text, Printable, CStrings;
      ghost var base, d := Written(), depth;
      ok := PrintValue(item);
      if ok {
        TextNulFree(item, format, d);
        Behind(base, Text(item, format, d), offset);
        UpdateOffset(base + Text(item, format, d));
      }
    }

    /** One element of an array with what separates it from the next one. */
    method PrintElement(item: Json, more: bool) returns (ok: bool)
      requires Ready() && CStrings(item)
      modifies this, buffer
      ensures buffer == old(buffer) || (!noalloc && (buffer == null || fresh(buffer)))
      ensures ok ==> Printable(item) && Ready() && depth == old(depth)
      ensures ok ==> Written() == old(Written()) + (Text(item, format, old(depth)) + Separator(more, format))
      ensures !ok && Printable(item) ==> Blocked(old(offset) + |Text(item, format, old(depth))| + |Separator(more, format)|)
      decreases item, 3
    {
      hide Text, Printable, CStrings;
      ghost var base := Written();
      ok := PrintWhole(item);
      if ok && more {
        var separator := if format then ", " else ",";
        ok := Write(separator, true, |separator| + 1);
        if ok {
          offset := offset + |separator|;
          Regroup(base, Text(item, format, depth), separator);
        }
      } else if ok {
        Regroup(base, Text(item, format, depth), "");
      }
    }

    /** The loop of `print_array`. */
    method PrintElements(items: seq<Json>) returns (ok: bool)
      requires Ready() && CStringItems(items)
      modifies this, buffer
      ensures buffer == old(buffer) || (!noalloc && (buffer == null || fresh(buffer)))
      ensures ok ==> PrintableItems(items) && Ready() && depth == old(depth)
      ensures ok ==> Written() == old(Written()) + ItemsText(items, format, old(depth))
      ensures !ok && PrintableItems(items) ==> Blocked(old(offset) + |ItemsText(items, format, old(depth))|)
      decreases items, 0
    {
      hide Text, Printable, CStrings, ItemsText;
      ghost var base, d := Written(), depth;
      NoneLeft(items, format, d, base);
      ok := true;
      var i := 0;
      while i < |items|
        invariant 0 <= i <= |items| && ok
        invariant Ready() && depth == d
        invariant buffer == old(buffer) || (!noalloc && fresh(buffer))
        invariant forall k | 0 <= k < i :: Printable(items[k])
        invariant PrintableItems(items) ==>
            Written() + ItemsRest(items, i, format, d) == base + ItemsText(items, format, d)
        decreases |items| - i
      {
        ItemsStep(items, i, format, d, Written());
        ok := PrintElement(items[i], i + 1 < |items|);
        if !ok {
          return;
        }
        i := i + 1;
      }
    }

    /** `print_array`. */
    method PrintArray(items: seq<Json>) returns (ok: bool)
      requires Ready() && CStringItems(items)
      modifies this, buffer
      ensures buffer == old(buffer) || (!noalloc && (buffer == null || fresh(buffer)))
      ensures ok ==> Printed(Array(items), old(Written()), old(depth))
      ensures !ok && Printable(Array(items)) ==> Blocked(old(offset) + |Text(Array(items), format, old(depth))|)
      decreases items, 1
    {
      hide Text, CStringItems, ItemsText, PrintableItems, Ready, Written, Holds;
      ghost var base, d := Written(), depth;
      AsWritten();
      ArrayShape(items, format, d, base);
      ok := Open("[", 1);
      if ok {
        AsWritten();
        ok := PrintElements(items);
        if ok {
          AsWritten();
          ok := Close("]", 2);
        }
      }
    }

    /** The opening bracket, and one level deeper. */
    method Open(text: string, needed: nat) returns (ok: bool)
      requires Ready() && |text| <= needed <= |text| + 1
      modifies this, buffer
      ensures buffer == old(buffer) || (!noalloc && (buffer == null || fresh(buffer)))
      ensures ok ==> Ready() && Written() == old(Written()) + text && depth == old(depth) + 1
      ensures !ok ==> Blocked(old(offset) + |text|)
    {
      ok := Write(text, false, needed);
      if ok {
        offset := offset + |text|;
        depth := depth + 1;
      }
    }

    /** The closing bracket and the terminator; the offset stays in front of them. */
    method Close(text: string, needed: nat) returns (ok: bool)
      requires Ready() && needed == |text| + 1 && depth > 0
      modifies this, buffer
      ensures buffer == old(buffer) || (!noalloc && (buffer == null || fresh(buffer)))
      ensures ok ==> Ready() && offset == old(offset) && depth == old(depth) - 1
      ensures ok ==> Holds(old(Written()) + text) && offset + |text| + 2 <= buffer.Length
      ensures !ok ==> Blocked(old(offset) + |text|)
    {
      ok := Write(text, true, needed);
      if ok {
        depth := depth - 1;
      }
    }

    /** Text put into the buffer and the offset moved behind it. */
    method Append(text: string, terminated: bool) returns (ok: bool)
      requires Ready()
      modifies this, buffer
      ensures depth == old(depth)
      ensures buffer == old(buffer) || (!noalloc && (buffer == null || fresh(buffer)))
      ensures ok ==> Ready() && Written() == old(Written()) + text
      ensures !ok ==> Blocked(old(offset) + |text|)
    {
      hide Tabs;
      ok := Write(text, terminated, |text| + if terminated then 1 else 0);
      if ok {
        offset := offset + |text|;
      }
    }

    /** Indentation, the key and the colon. */
    method PrintKey(key: string) returns (ok: bool)
      requires Ready() && NulFree(key)
      modifies this, buffer
      ensures depth == old(depth)
      ensures buffer == old(buffer) || (!noalloc && (buffer == null || fresh(buffer)))
      ensures ok ==> Ready() && Written() == old(Written()) + (if format then Tabs(depth) else "") + Quote(key) + Colon(format)
      ensures !ok ==> Blocked(old(offset) + (if format then depth else 0) + |Quote(key)| + |Colon(format)|)
    {
      hide Quote, Tabs, Ready, Written;
      AsWritten();
      ok := true;
      if format {
        ok := Append(Tabs(depth), false);
      }
      if ok {
        AsWritten();
        assert Written() == old(Written()) + (if format then Tabs(depth) else "");
        ok := PrintQuoted(key);
        if ok {
          AsWritten();
          ok := Append(Colon(format), false);
        }
      }
    }

    /** A string, and the offset moved behind it. */
    method PrintQuoted(key: string) returns (ok: bool)
      requires Ready() && NulFree(key)
      modifies this, buffer
      ensures depth == old(depth)
      ensures buffer == old(buffer) || (!noalloc && (buffer == null || fresh(buffer)))
      ensures ok ==> Ready() && Written() == old(Written()) + Quote(key)
      ensures !ok ==> Blocked(old(offset) + |Quote(key)|)
    {
      hide Quote;
      ghost var base := Written();
      ok := PrintStringPtr(key);
      if ok {
        EscapeNulFree(key);
        Behind(base, Quote(key), offset);
        UpdateOffset(base + Quote(key));
      }
    }

    /** One member: indentation, key, value, and what ends the line. */
    method PrintMember(m: Member<Json>, more: bool) returns (ok: bool)
      requires Ready() && NulFree(m.key) && CStrings(m.value)
      modifies this, buffer
      ensures buffer == old(buffer) || (!noalloc && (buffer == null || fresh(buffer)))
      ensures ok ==> Printable(m.value) && Ready() && depth == old(depth)
      ensures ok ==>
          Written() == old(Written()) + MemberText(m.key, Text(m.value, format, old(depth)), more, format, old(depth))
      ensures !ok && Printable(m.value) ==>
          Blocked(old(offset) + |MemberText(m.key, Text(m.value, format, old(depth)), more, format, old(depth))|)
      decreases m.value, 3
    {
      hide Text, Printable, CStrings, Quote, Tabs, MemberText, Ready, Written;
      ghost var base, d := Written(), depth;
      AsWritten();
      if Printable(m.value) { MemberShape(base, m.key, Text(m.value, format, d), more, format, d); }
      ok := PrintKey(m.key);
      if ok {
        AsWritten();
        ok := PrintWhole(m.value);
        if ok {
          AsWritten();
          ok := Append(LineEnd(more, format), true);
        }
      }
    }

    lemma AsWritten()
      requires Ready()
      ensures |Written()| == offset && buffer != null
    {
    }

    /** The loop of `print_object`. */
    method PrintMembers(members: seq<Member<Json>>) returns (ok: bool)
      requires Ready() && CStringMembers(members)
      modifies this, buffer
      ensures buffer == old(buffer) || (!noalloc && (buffer == null || fresh(buffer)))
      ensures ok ==> PrintableMembers(members) && Ready() && depth == old(depth)
      ensures ok ==> Written() == old(Written()) + MembersText(members, format, old(depth))
      ensures !ok && PrintableMembers(members) ==> Blocked(old(offset) + |MembersText(members, format, old(depth))|)
      decreases members, 0
    {
      hide Text, Printable, CStrings, MembersText, MemberText, NulFree;
      ghost var base, d := Written(), depth;
      NoMembersLeft(members, format, d, base);
      ok := true;
      var i := 0;
      while i < |members|
        invariant 0 <= i <= |members| && ok
        invariant Ready() && depth == d
        invariant buffer == old(buffer) || (!noalloc && fresh(buffer))
        invariant forall k | 0 <= k < i :: Printable(members[k].value)
        invariant PrintableMembers(members) ==>
            Written() + MembersRest(members, i, format, d) == base + MembersText(members, format, d)
        decreases |members| - i
      {
        MembersStep(members, i, format, d, Written());
        ok := PrintMember(members[i], i + 1 < |members|);
        if !ok {
          return;
        }
        i := i + 1;
      }
    }

    /** `print_object`. */
    method PrintObject(members: seq<Member<Json>>) returns (ok: bool)
      requires Ready() && CStringMembers(members)
      modifies this, buffer
      ensures buffer == old(buffer) || (!noalloc && (buffer == null || fresh(buffer)))
      ensures ok ==> Printed(Object(members), old(Written()), old(depth))
      ensures !ok && Printable(Object(members)) ==> Blocked(old(offset) + |Text(Object(members), format, old(depth))|)
      decreases members, 1
    {
      hide Text, CStringMembers, MembersText, PrintableMembers, Tabs, Ready, Written, Holds;
      ghost var base, d := Written(), depth;
      AsWritten();
      ObjectShape(members, format, d, base);
      var open := if format then "{\n" else "{";
      ok := Open(open, |open| + 1);
      if ok {
        AsWritten();
        ok := PrintMembers(members);
        if ok {
          AsWritten();
          var close := (if format then Tabs(depth - 1) else "") + "}";
          ok := Close(close, if format then depth + 1 else 2);
        }
      }
    }
  }

  function LineEnd(more: bool, format: bool): string {
    (if more then "," else "") + (if format then "\n" else "")
  }

  lemma MemberShape(base: string, key: string, value: string, more: bool, format: bool, depth: nat)
    ensures base + MemberText(key, value, more, format, depth) ==
            (base + (if format then Tabs(depth) else "")) + Quote(key) + Colon(format) + value + LineEnd(more, format)
    ensures |MemberText(key, value, more, format, depth)| ==
            (if format then depth else 0) + |Quote(key)| + |Colon(format)| + |value| + |LineEnd(more, format)|
  {
    var tabs, q, comma, line := if format then Tabs(depth) else "", Quote(key), if more then "," else "", if format then "\n" else "";
    assert MemberText(key, value, more, format, depth) == tabs + q + Colon(format) + value + comma + line;
    hide MemberText, Quote, Tabs, Colon;
    RegroupMember(base, tabs, q, Colon(format), value, comma, line);
  }

  lemma RegroupMember(base: string, a: string, b: string, c: string, d: string, e: string, f: string)
    ensures base + (a + b + c + d + e + f) == (base + a) + b + c + d + (e + f)
  {
  }

  ghost function MembersRest(members: seq<Member<Json>>, i: nat, format: bool, depth: nat): string
    requires i <= |members| && PrintableMembers(members)
  {
    MembersText(members[i..], format, depth)
  }

  lemma NoMembersLeft(members: seq<Member<Json>>, format: bool, depth: nat, base: string)
    ensures PrintableMembers(members) ==>
      && base + MembersRest(members, 0, format, depth) == base + MembersText(members, format, depth)
      && forall written: string :: written + MembersRest(members, |members|, format, depth) == written
  { }

  lemma MembersStep(members: seq<Member<Json>>, i: nat, format: bool, depth: nat, base: string)
    requires i < |members|
    ensures PrintableMembers(members) ==>
      var m := members[i];
      && Printable(m.value)
      && base + MembersRest(members, i, format, depth) ==
         (base + MemberText(m.key, Text(m.value, format, depth), i + 1 < |members|, format, depth)) +
         MembersRest(members, i + 1, format, depth)
  {
    hide Text, Printable, MemberText;
    if PrintableMembers(members) {
      var s, m := members[i..], members[i];
      assert s[0] == m && s[1..] == members[i + 1..];
      assert forall k | 0 <= k < |s| :: s[k] == members[i + k];
      var text, tail := MemberText(m.key, Text(m.value, format, depth), i + 1 < |members|, format, depth), MembersText(members[i + 1..], format, depth);
      assert MembersText(s, format, depth) == text + tail;
      Regroup(base, text, tail);
    }
  }

  lemma ObjectShape(members: seq<Member<Json>>, format: bool, depth: nat, base: string)
    ensures Printable(Object(members)) == PrintableMembers(members)
    ensures PrintableMembers(members) ==>
      var close := (if format then Tabs(depth) else "") + "}";
      var open := if format then "{\n" else "{";
      && base + Text(Object(members), format, depth) == (base + open) + MembersText(members, format, depth + 1) + close
      && |Text(Object(members), format, depth)| == |open| + |MembersText(members, format, depth + 1)| + |close|
  {
    if PrintableMembers(members) {
      hide MembersText, Tabs;
      var open, body, tabs := if format then "{\n" else "{", MembersText(members, format, depth + 1), if format then Tabs(depth) else "";
      assert Text(Object(members), format, depth) == open + body + tabs + "}";
      hide Text;
      RegroupObject(base, open, body, tabs);
    }
  }

  lemma RegroupObject(base: string, a: string, b: string, c: string)
    ensures base + (a + b + c + "}") == (base + a) + b + (c + "}")
  {
  }

  function Separator(more: bool, format: bool): string {
    if !more then "" else if format then ", " else ","
  }

  /** What is still to be printed of the elements. */
  ghost function ItemsRest(items: seq<Json>, i: nat, format: bool, depth: nat): string
    requires i <= |items| && PrintableItems(items)
  {
    ItemsText(items[i..], format, depth)
  }

  lemma ArrayShape(items: seq<Json>, format: bool, depth: nat, base: string)
    ensures Printable(Array(items)) == PrintableItems(items)
    ensures PrintableItems(items) ==>
      base + Text(Array(items), format, depth) == (base + "[") + ItemsText(items, format, depth + 1) + "]" &&
      |Text(Array(items), format, depth)| == |ItemsText(items, format, depth + 1)| + 2
  { }

  lemma NoneLeft(items: seq<Json>, format: bool, depth: nat, base: string)
    ensures PrintableItems(items) ==>
      && base + ItemsRest(items, 0, format, depth) == base + ItemsText(items, format, depth)
      && forall written: string :: written + ItemsRest(items, |items|, format, depth) == written
  { }

  lemma ItemsStep(items: seq<Json>, i: nat, format: bool, depth: nat, base: string)
    requires i < |items|
    ensures PrintableItems(items) ==>
      && Printable(items[i])
      && base + ItemsRest(items, i, format, depth) ==
         (base + (Text(items[i], format, depth) + Separator(i + 1 < |items|, format))) + ItemsRest(items, i + 1, format, depth)
  { }

  lemma Regroup(a: string, b: string, c: string)
    ensures a + b + c == a + (b + c)
    ensures c == "" ==> b + c == b
  {
  }

  lemma Behind(base: string, text: string, at: nat)
    requires NulFree(text) && |base| <= at <= |base| + |text|
    ensures NulFree((base + text)[at..])
  { }

  lemma EscapeNothing()
    ensures forall s: string :: Escape(s[..0]) == ""
  {
  }

  lemma {:induction false} EscapeShorter(s: string, i: nat)
    requires i <= |s|
    ensures |Escape(s[..i])| <= |Escape(s)|
    decreases |s| - i
  {
    if i < |s| {
      EscapeNext(s, i);
      EscapeShorter(s, i + 1);
    } else {
      assert s[..i] == s;
    }
  }

  lemma QuoteParts(base: string, body: string, all: string)
    requires all == base + "\"" + body + ['\"', NUL]
    ensures var q := base + ("\"" + body + "\""); |all| == |q| + 1 && all[..|q|] == q && all[|q|] == NUL && all[..|base|] == base
  {
  }

  // ---- The public printers ----

  /**
   `cJSON_PrintPreallocated` into `len` bytes: it succeeds exactly when there is no invalid
   node and the text leaves two bytes free, of which the terminator takes one.
   */
  method PrintPreallocated(item: Json, buf: array<char>, len: int, format: bool) returns (ok: bool)
    requires CStrings(item) && (len < 0 || len == buf.Length <= INT_MAX)
    modifies buf
    ensures ok <==> Printable(item) && |Text(item, format, 0)| + 2 <= len
    ensures ok ==> var text := Text(item, format, 0); buf[..|text| + 1] == text + [NUL]
  {
    hide Text, CStrings, Printable;
    if len < 0 {
      return false;
    }
    var p := new PrintBuffer(buf, true, format, false);
    assert p.Written() == "";
    ok := p.PrintValue(item);
  }

  /**
   `cJSON_PrintBuffered`: the same text from any buffer size to start with.  It fails only
   for a negative size, an invalid node, a refused allocation or a text over the limit.
   */
  method PrintBuffered(item: Json, prebuffer: int, format: bool, realloc: bool)
    returns (printed: array?<char>, refused: bool)
    requires CStrings(item) && prebuffer <= INT_MAX && (prebuffer == 0 ==> realloc)
    ensures printed != null ==>
      && fresh(printed) && Printable(item) && |Text(item, format, 0)| + 2 <= printed.Length <= INT_MAX
      && printed[..|Text(item, format, 0)| + 1] == Text(item, format, 0) + [NUL]
    ensures printed == null ==>
      prebuffer < 0 || refused || !Printable(item) || |Text(item, format, 0)| + 2 > INT_MAX
  {
    hide Text, CStrings, Printable;
    printed, refused := null, false;
    if prebuffer < 0 {
      return;
    }
    var start := Allocate(prebuffer);
    if start == null {
      return null, true;
    }
    var p := new PrintBuffer(start, false, format, realloc);
    assert p.Written() == "";
    var ok := p.PrintValue(item);
    if ok {
      printed := p.buffer;
    } else {
      refused := p.refused;
    }
  }

  /** `cJSON_Print` and `cJSON_PrintUnformatted`: the text in a block of exactly its size. */
  method Print(item: Json, format: bool, realloc: bool) returns (printed: array?<char>, refused: bool)
    requires CStrings(item)
    ensures printed != null ==>
      && fresh(printed) && Printable(item) && |Text(item, format, 0)| + 2 <= INT_MAX
      && printed[..] == Text(item, format, 0) + [NUL]
    ensures printed == null ==> refused || !Printable(item) || |Text(item, format, 0)| + 2 > INT_MAX
  {
    hide Text, CStrings, Printable;
    printed, refused := null, false;
    var start := Allocate(256);
    if start == null {
      return null, true;
    }
    var p := new PrintBuffer(start, false, format, realloc);
    assert p.Written() == "";
    var ok := p.PrintWhole(item);
    if !ok {
      refused := p.refused;
      return;
    }
    assert "" + Text(item, format, 0) == Text(item, format, 0);
    printed := Shrink(p.buffer, p.offset);
    refused := printed == null;
  }

  /** The first `n` characters and a terminator in a block of exactly that size. */
  method Shrink(buffer: array<char>, n: nat) returns (printed: array?<char>)
    requires n < buffer.Length
    ensures printed != null ==> fresh(printed) && printed[..] == buffer[..n] + [NUL]
  {
    printed := Allocate(n + 1);
    if printed == null {
      return;
    }
    var i := 0;
    while i < n
      invariant 0 <= i <= n
      invariant forall k | 0 <= k < i :: printed[k] == buffer[k]
      modifies printed
    {
      printed[i] := buffer[i];
      i := i + 1;
    }
    printed[n] := NUL;
  }
}
