/**
 The parser's allocations: the same decisions on the text as `Parsing`, with every node,
 string and key allocated, and released again when anything fails.
 */
module ParseOwnership {
  import opened CString
  import opened Decimal
  import opened Json
  import opened Options
  import opened Parsing
  import opened ParseBuffer
  import opened Ownership

  /** Why a call may fail: the text is rejected, or an allocation was refused. */
  ghost predicate Verdict<T>(ok: bool, refused: bool, rest: string, r: Parsed<T>) {
    if ok then r.Ok? && rest == r.rest else refused || r.Fail?
  }

  /** A node from `cJSON_New_Item`, with a key at most. */
  predicate Blank(n: Node) {
    !n.reference && !n.constKey && n.value == None && n.children == []
  }

  /** `parse_string`: what it allocates is kept or released. */
  method ParseString(mem: Memory, s: string) returns (ok: bool, refused: bool, text: Option<Text>, rest: string)
    requires mem.Valid() && Terminated(s)
    modifies mem
    ensures mem.Valid() && mem.live == old(mem.live) + Only(text) && ok == text.Some?
    ensures Verdict(ok, refused, rest, Parsing.ParseString(s))
    ensures ok ==> Terminated(rest) && |rest| < |s|
  {
    hide ClosingQuote, Unescape, UpToNul;
    ghost var base := mem.live;
    ok, refused, text, rest := false, false, None, s;
    if s[0] != '\"' {
      return;
    }
    var body := s[1..];
    if ClosingQuote(body).None? {
      return;
    }
    var output := mem.Allocate();
    if output.None? {
      refused := true;
      return;
    }
    var unescaped := Unescape(body, ClosingQuote(body).value);
    if unescaped.Fail? {
      mem.Free(output.value, base);
      return;
    }
    rest := Parsing.ParseString(s).rest;
    text := Some(Text(output.value, UpToNul(unescaped.value)));
    ok := true;
  }

  /** `parse_value` into a blank node; a failed call leaves the node as it was. */
  method ParseValue(mem: Memory, node: Node, s: string, depth: nat, ghost base: Bag)
    returns (ok: bool, refused: bool, filled: Node, rest: string)
    requires mem.Valid() && mem.live == base + Owned(node) && Blank(node) && Terminated(s)
    modifies mem
    ensures mem.Valid() && mem.live == base + Owned(filled)
    ensures filled == node.(value := filled.value, children := filled.children) && (!ok ==> filled == node)
    ensures Verdict(ok, refused, rest, Parsing.ParseValue(s, depth))
    ensures ok ==> Terminated(rest) && |rest| < |s|
    decreases |s|, 2
  {
    hide Owned, OwnedBy, Memory.Valid, Parsing.ParseString, Parsing.ParseNumber, StartsWith;
    hide Parsing.ParseArray, Parsing.ParseObject;
    refused, filled, rest := false, node, s;
    if StartsWith(s, "null") || StartsWith(s, "false") || StartsWith(s, "true") {
      rest := Parsing.ParseValue(s, depth).rest;
      ok := true;
    } else if s[0] == '\"' {
      var text;
      ok, refused, text, rest := ParseString(mem, s);
      if ok {
        WithValue(node, text.value, base);
        filled := node.(value := text);
      } else {
      }
    } else if s[0] == '-' || IsDigit(s[0]) {
      var number := Parsing.ParseNumber(s);
      ok, rest := number.Ok?, number.rest;
    } else if s[0] == '[' {
      var head;
      ok, refused, head, rest := ParseArray(mem, s, depth, base + Owned(node));
      if ok {
        WithChildren(node, [], head, base);
        assert [] + head == head;
        filled := node.(children := head);
      }
    } else if s[0] == '{' {
      var head;
      ok, refused, head, rest := ParseObject(mem, s, depth, base + Owned(node));
      if ok {
        WithChildren(node, [], head, base);
        assert [] + head == head;
        filled := node.(children := head);
      }
    } else {
      ok := false;
    }
  }

  /** `parse_array`: the list of children, or nothing at all. */
  method ParseArray(mem: Memory, s: string, depth: nat, ghost base: Bag)
    returns (ok: bool, refused: bool, head: seq<Node>, rest: string)
    requires mem.Valid() && mem.live == base && Terminated(s) && s[0] == '['
    modifies mem
    ensures mem.Valid() && mem.live == (if ok then base + OwnedBy(head) else base)
    ensures Verdict(ok, refused, rest, Parsing.ParseArray(s, depth))
    ensures ok ==> Terminated(rest) && |rest| < |s|
    decreases |s|, 1
  {
    hide Owned, OwnedBy, Memory.Valid, Parsing.ParseElements, Parsing.SkipWhitespace;
    ok, refused, head, rest := false, false, [], s;
    if depth >= NESTING_LIMIT {
      return;
    }
    var first := Parsing.SkipWhitespace(s[1..]);
    if first[0] == ']' {
      NoChildren(base);
      return true, false, [], first[1..];
    }
    ok, refused, head, rest := ParseElements(mem, first, depth + 1, base);
  }

  /** Everything allocated for the list so far. */
  method Release(mem: Memory, done: seq<Node>, current: Node, ghost base: Bag)
    requires mem.Valid() && mem.live == (base + OwnedBy(done)) + Owned(current)
    modifies mem`live
    ensures mem.Valid() && mem.live == base
  {
    hide Owned, OwnedBy, Memory.Valid;
    Together(base, done, current);
    mem.Delete(done + [current], base);
  }

  lemma Together(base: Bag, done: seq<Node>, current: Node)
    ensures (base + OwnedBy(done)) + Owned(current) == base + OwnedBy(done + [current])
  {
    OwnedByAppend(done, [current]);
    OwnedByOne(current);
    hide Owned, OwnedBy;
  }

  /** The loop over elements, from the first character of one. */
  method ParseElements(mem: Memory, s: string, depth: nat, ghost base: Bag)
    returns (ok: bool, refused: bool, head: seq<Node>, rest: string)
    requires mem.Valid() && mem.live == base && Terminated(s)
    modifies mem
    ensures mem.Valid() && mem.live == (if ok then base + OwnedBy(head) else base)
    ensures Verdict(ok, refused, rest, Parsing.ParseElements(s, depth))
    ensures ok ==> Terminated(rest) && |rest| < |s|
    decreases |s|, 3, 1
  {
    hide Owned, OwnedBy, Memory.Valid, Parsing.ParseElements, Parsing.SkipWhitespace, Parsing.ParseValue;
    head, rest := [], s;
    NoChildren(base);
    var more := true;
    while more
      invariant mem.Valid() && mem.live == base + OwnedBy(head)
      invariant Terminated(rest) && |rest| <= |s| && (!more ==> |rest| < |s|)
      invariant var all := Parsing.ParseElements(s, depth);
                if more then var now := Parsing.ParseElements(rest, depth); all.Ok? == now.Ok? && all.rest == now.rest
                else all.Ok? && all.rest == rest
      decreases more, |rest|
    {
      var current;
      ok, refused, more, current, rest := ParseElement(mem, head, rest, depth, base);
      if !ok {
        return;
      }
      Together(base, head, current);
      head := head + [current];
    }
    ok, refused := true, false;
  }

  /** One element; a failure releases the whole list. */
  method ParseElement(mem: Memory, done: seq<Node>, s: string, depth: nat, ghost base: Bag)
    returns (ok: bool, refused: bool, more: bool, current: Node, rest: string)
    requires mem.Valid() && mem.live == base + OwnedBy(done) && Terminated(s)
    modifies mem
    ensures mem.Valid() && mem.live == (if ok then (base + OwnedBy(done)) + Owned(current) else base)
    ensures ok ==> Terminated(rest) && |rest| < |s|
    ensures var all := Parsing.ParseElements(s, depth);
            if !ok then refused || all.Fail?
            else if more then var now := Parsing.ParseElements(rest, depth); all.Ok? == now.Ok? && all.rest == now.rest
            else all.Ok? && all.rest == rest
    decreases |s|, 3, 0
  {
    hide Owned, OwnedBy, Memory.Valid, Parsing.ParseElements, Parsing.SkipWhitespace, Parsing.ParseValue;
    ok, refused, more, rest := false, true, false, s;
    current := Node(0, false, false, 0, None, None, []);
    var block := mem.Allocate();
    if block.None? {
      mem.Delete(done, base);
      return;
    }
    current := current.(block := block.value);
    NewNode(current, base);
    ElementsRound(s, depth);
    ok, refused, current, rest := ParseValue(mem, current, s, depth, base + OwnedBy(done));
    if ok {
      var after := Parsing.SkipWhitespace(rest);
      more := after[0] == ',';
      ok := more || after[0] == ']';
      rest := if more then Parsing.SkipWhitespace(after[1..]) else after[1..];
    }
    if !ok {
      Release(mem, done, current, base);
    }
  }

  /** `parse_object`. */
  method ParseObject(mem: Memory, s: string, depth: nat, ghost base: Bag)
    returns (ok: bool, refused: bool, head: seq<Node>, rest: string)
    requires mem.Valid() && mem.live == base && Terminated(s) && s[0] == '{'
    modifies mem
    ensures mem.Valid() && mem.live == (if ok then base + OwnedBy(head) else base)
    ensures Verdict(ok, refused, rest, Parsing.ParseObject(s, depth))
    ensures ok ==> Terminated(rest) && |rest| < |s|
    decreases |s|, 1
  {
    hide Owned, OwnedBy, Memory.Valid, Parsing.ParseMembers, Parsing.SkipWhitespace;
    ok, refused, head, rest := false, false, [], s;
    if depth >= NESTING_LIMIT {
      return;
    }
    var first := Parsing.SkipWhitespace(s[1..]);
    if first[0] == '}' {
      NoChildren(base);
      return true, false, [], first[1..];
    }
    ok, refused, head, rest := ParseMembers(mem, first, depth + 1, base);
  }

  /** The loop over members. */
  method ParseMembers(mem: Memory, s: string, depth: nat, ghost base: Bag)
    returns (ok: bool, refused: bool, head: seq<Node>, rest: string)
    requires mem.Valid() && mem.live == base && Terminated(s)
    modifies mem
    ensures mem.Valid() && mem.live == (if ok then base + OwnedBy(head) else base)
    ensures Verdict(ok, refused, rest, Parsing.ParseMembers(s, depth))
    ensures ok ==> Terminated(rest) && |rest| < |s|
    decreases |s|, 3, 1
  {
    hide Owned, OwnedBy, Memory.Valid, Parsing.ParseMembers, Parsing.SkipWhitespace, Parsing.ParseMember;
    head, rest := [], s;
    NoChildren(base);
    var more := true;
    while more
      invariant mem.Valid() && mem.live == base + OwnedBy(head)
      invariant Terminated(rest) && |rest| <= |s| && (!more ==> |rest| < |s|)
      invariant var all := Parsing.ParseMembers(s, depth);
                if more then var now := Parsing.ParseMembers(rest, depth); all.Ok? == now.Ok? && all.rest == now.rest
                else all.Ok? && all.rest == rest
      decreases more, |rest|
    {
      var current;
      ok, refused, more, current, rest := ParseMember(mem, head, rest, depth, base);
      if !ok {
        return;
      }
      Together(base, head, current);
      head := head + [current];
    }
    ok, refused := true, false;
  }

  /** One member: the node takes the key first, and a value after the colon. */
  method ParseMember(mem: Memory, done: seq<Node>, s: string, depth: nat, ghost base: Bag)
    returns (ok: bool, refused: bool, more: bool, current: Node, rest: string)
    requires mem.Valid() && mem.live == base + OwnedBy(done) && Terminated(s)
    modifies mem
    ensures mem.Valid() && mem.live == (if ok then (base + OwnedBy(done)) + Owned(current) else base)
    ensures ok ==> Terminated(rest) && |rest| < |s|
    ensures var all := Parsing.ParseMembers(s, depth);
            if !ok then refused || all.Fail?
            else if more then var now := Parsing.ParseMembers(rest, depth); all.Ok? == now.Ok? && all.rest == now.rest
            else all.Ok? && all.rest == rest
    decreases |s|, 3, 0
  {
    hide Owned, OwnedBy, Memory.Valid, Parsing.ParseMembers, Parsing.SkipWhitespace, Parsing.ParseMember;
    ok, refused, more, rest := false, true, false, s;
    current := Node(0, false, false, 0, None, None, []);
    var block := mem.Allocate();
    if block.None? {
      mem.Delete(done, base);
      return;
    }
    current := current.(block := block.value);
    NewNode(current, base);
    MembersRound(s, depth);
    ok, refused, current, rest := FillMember(mem, current, s, depth, base + OwnedBy(done));
    if ok {
      var after := Parsing.SkipWhitespace(rest);
      more := after[0] == ',';
      ok := more || after[0] == '}';
      rest := if more then Parsing.SkipWhitespace(after[1..]) else after[1..];
    }
    if !ok {
      Release(mem, done, current, base);
    }
  }

  /** Key, colon and value; whatever was allocated hangs on the node. */
  method FillMember(mem: Memory, node: Node, s: string, depth: nat, ghost base: Bag)
    returns (ok: bool, refused: bool, filled: Node, rest: string)
    requires mem.Valid() && mem.live == base + Owned(node) && Blank(node) && node.key == None && Terminated(s)
    modifies mem
    ensures mem.Valid() && mem.live == base + Owned(filled)
    ensures Verdict(ok, refused, rest, Parsing.ParseMember(s, depth))
    ensures ok ==> Terminated(rest) && |rest| < |s|
    decreases |s|, 1
  {
    hide Owned, Memory.Valid, Parsing.SkipWhitespace, Parsing.ParseString, Parsing.ParseValue, Only;
    var key;
    ok, refused, key, rest := ParseString(mem, s);
    WithKey(node, key, base);
    filled := node.(key := key);
    if !ok {
      return;
    }
    var colon := Parsing.SkipWhitespace(rest);
    if colon[0] != ':' {
      return false, false, filled, rest;
    }
    ok, refused, filled, rest := ParseValue(mem, filled, Parsing.SkipWhitespace(colon[1..]), depth, base);
  }

  /**
   `cJSON_ParseWithOpts`: a failed call, for whatever reason, leaves exactly the blocks in
   use that were in use before; a tree owns every block that is new.
   */
  method Parse(mem: Memory, text: string, requireEnd: bool) returns (ok: bool, refused: bool, root: Node)
    requires mem.Valid()
    modifies mem
    ensures mem.Valid() && mem.live == (if ok then old(mem.live) + Owned(root) else old(mem.live))
    ensures if ok then Parsing.Parse(text, requireEnd).Ok? else refused || Parsing.Parse(text, requireEnd).Fail?
  {
    hide Owned, OwnedBy, Memory.Valid, Parsing.SkipWhitespace, Parsing.ParseValue, SkipBom;
    ghost var base := mem.live;
    root := Node(0, false, false, 0, None, None, []);
    var block := mem.Allocate();
    if block.None? {
      return false, true, root;
    }
    root := root.(block := block.value);
    NewNode(root, base);
    var rest;
    ok, refused, root, rest := ParseValue(mem, root, Parsing.SkipWhitespace(SkipBom(text + [NUL])), 0, base);
    if ok && requireEnd {
      ok := Parsing.SkipWhitespace(rest)[0] == NUL;
    }
    if !ok {
      Discard(mem, root, base);
    }
  }
}
