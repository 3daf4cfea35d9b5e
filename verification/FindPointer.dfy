/**
 The pointer loops of `cJSON_Utils.c`: comparing a token with a name, decoding an index,
 following a pointer, and searching a node to build the pointer to it.
 */
module FindPointer {
  import opened CString
  import opened Decimal
  import opened Json
  import opened Options
  import opened Pointer

  // ---- compare_pointers ----

  lemma EncodedHead(name: string)
    requires name != ""
    ensures name[0] == '~' ==> Encode(name) == "~0" + Encode(name[1..])
    ensures name[0] == '/' ==> Encode(name) == "~1" + Encode(name[1..])
    ensures name[0] != '~' && name[0] != '/' ==> Encode(name) == [name[0]] + Encode(name[1..])
  {
  }

  lemma TokenHead(p: string)
    requires p != "" && p[0] != '/'
    ensures Token(p) == [p[0]] + Token(p[1..])
    ensures |p| > 1 && p[1] != '/' ==> Token(p) == [p[0], p[1]] + Token(p[2..])
    ensures |p| == 1 || p[1] == '/' ==> Token(p) == [p[0]]
  {
    hide Token;
    TokenOne(p);
    if |p| > 1 && p[1] != '/' {
      TokenOne(p[1..]);
      assert p[1..][1..] == p[2..];
      TwoChars(p[0], p[1], Token(p[2..]));
    } else {
      TokenNone(p[1..]);
      NothingBehind(p[0]);
    }
  }

  lemma TwoChars(c: char, d: char, t: string)
    ensures [c] + ([d] + t) == [c, d] + t
  {
  }

  lemma NothingBehind(c: char)
    ensures [c] + "" == [c]
  {
  }

  lemma TokenOne(p: string)
    requires p != "" && p[0] != '/'
    ensures Token(p) == [p[0]] + Token(p[1..])
  {
  }

  lemma TokenNone(p: string)
    requires p == "" || p[0] == '/'
    ensures Token(p) == ""
  {
  }

  function FoldChar(c: char, caseSensitive: bool): char {
    if caseSensitive then c else ToLower(c)
  }

  lemma FoldCons(c: char, rest: string, caseSensitive: bool)
    ensures Fold([c] + rest, caseSensitive) == [FoldChar(c, caseSensitive)] + Fold(rest, caseSensitive)
  {
  }

  lemma FoldPair(c: char, d: char, rest: string, caseSensitive: bool)
    ensures Fold([c, d] + rest, caseSensitive) == [FoldChar(c, caseSensitive), FoldChar(d, caseSensitive)] + Fold(rest, caseSensitive)
  {
  }

  lemma SameCons(x: char, a: string, y: char, b: string)
    ensures [x] + a == [y] + b <==> x == y && a == b
  {
    assert ([x] + a)[1..] == a && ([y] + b)[1..] == b;
    assert ([x] + a)[0] == x && ([y] + b)[0] == y;
  }

  lemma SamePair(x: char, z: char, a: string, y: char, w: char, b: string)
    ensures [x, z] + a == [y, w] + b <==> x == y && z == w && a == b
  {
    assert ([x, z] + a)[2..] == a && ([y, w] + b)[2..] == b;
    assert ([x, z] + a)[0] == x && ([y, w] + b)[0] == y && ([x, z] + a)[1] == z && ([y, w] + b)[1] == w;
  }

  /** Folding keeps apart what is special in a pointer. */
  lemma FoldSpecial(c: char, caseSensitive: bool)
    ensures FoldChar(c, caseSensitive) == '~' <==> c == '~'
    ensures FoldChar(c, caseSensitive) == '/' <==> c == '/'
    ensures FoldChar(c, caseSensitive) == '0' <==> c == '0'
    ensures FoldChar(c, caseSensitive) == '1' <==> c == '1'
  {
  }

  /** The first character of an encoded name, folded. */
  lemma EncodedFirst(name: string, caseSensitive: bool)
    requires name != ""
    ensures var e, tail := Fold(Encode(name), caseSensitive), Fold(Encode(name[1..]), caseSensitive);
            e == if name[0] == '~' then ['~', '0'] + tail else if name[0] == '/' then ['~', '1'] + tail
                 else [FoldChar(name[0], caseSensitive)] + tail
  {
    EncodedHead(name);
    hide Encode, Fold;
    var tail := Encode(name[1..]);
    FoldPair('~', '0', tail, caseSensitive);
    FoldPair('~', '1', tail, caseSensitive);
    FoldCons(name[0], tail, caseSensitive);
  }

  /** One round of the loop: an escape in the pointer. */
  lemma NamesEscape(name: string, p: string, caseSensitive: bool)
    requires name != "" && p != "" && p[0] == '~'
    ensures var escape := |p| > 1 && ((p[1] == '0' && name[0] == '~') || (p[1] == '1' && name[0] == '/'));
            Names(Token(p), name, caseSensitive) <==> escape && Names(Token(p[2..]), name[1..], caseSensitive)
  {
    hide Encode, Token, Fold, FoldChar;
    TokenHead(p);
    EncodedFirst(name, caseSensitive);
    var tail := Fold(Encode(name[1..]), caseSensitive);
    if |p| > 1 && p[1] != '/' {
      FoldPair('~', p[1], Token(p[2..]), caseSensitive);
      SpecialPair(name[0], p[1], tail, Fold(Token(p[2..]), caseSensitive), caseSensitive);
    } else {
      FoldLone(caseSensitive);
      FoldSpecial(name[0], caseSensitive);
    }
  }

  lemma SpecialPair(n: char, c: char, tail: string, rest: string, caseSensitive: bool)
    ensures var e := if n == '~' then ['~', '0'] + tail else if n == '/' then ['~', '1'] + tail
                     else [FoldChar(n, caseSensitive)] + tail;
            e == [FoldChar('~', caseSensitive), FoldChar(c, caseSensitive)] + rest <==>
            ((c == '0' && n == '~') || (c == '1' && n == '/')) && tail == rest
  {
    FoldSpecial('~', caseSensitive);
    FoldSpecial(n, caseSensitive);
    FoldSpecial(c, caseSensitive);
    hide FoldChar;
    var d := FoldChar(c, caseSensitive);
    if n == '~' {
      SamePair('~', '0', tail, '~', d, rest);
    } else if n == '/' {
      SamePair('~', '1', tail, '~', d, rest);
    } else {
      assert ([FoldChar(n, caseSensitive)] + tail)[0] != (['~', d] + rest)[0];
    }
  }

  lemma FoldLone(caseSensitive: bool)
    ensures Fold("~", caseSensitive) == "~"
  {
  }

  /** One round of the loop: an ordinary character of the pointer. */
  lemma NamesPlain(name: string, p: string, caseSensitive: bool)
    requires name != "" && p != "" && p[0] != '~' && p[0] != '/'
    ensures Names(Token(p), name, caseSensitive) <==>
            FoldChar(name[0], caseSensitive) == FoldChar(p[0], caseSensitive) && Names(Token(p[1..]), name[1..], caseSensitive)
  {
    hide Encode, Token, Fold, FoldChar;
    TokenHead(p);
    EncodedFirst(name, caseSensitive);
    FoldSpecial(name[0], caseSensitive);
    FoldSpecial(p[0], caseSensitive);
    var tail, rest := Fold(Encode(name[1..]), caseSensitive), Token(p[1..]);
    FoldCons(p[0], rest, caseSensitive);
    var c := FoldChar(p[0], caseSensitive);
    SameCons(FoldChar(name[0], caseSensitive), tail, c, Fold(rest, caseSensitive));
    SameCons('~', ['0'] + tail, c, Fold(rest, caseSensitive));
    SameCons('~', ['1'] + tail, c, Fold(rest, caseSensitive));
    assert ['~', '0'] + tail == ['~'] + (['0'] + tail) && ['~', '1'] + tail == ['~'] + (['1'] + tail);
  }

  lemma NamesEnd(name: string, p: string, caseSensitive: bool)
    requires name == "" || p == "" || p[0] == '/'
    ensures Names(Token(p), name, caseSensitive) <==> (name == "") == (p == "" || p[0] == '/') == true
  { }

  /**
   `compare_pointers`: true exactly when the token up to the next '/' is the encoding of
   the name by section 3 of RFC 6901, or folds to the same text.
   */
  method ComparePointers(name: string, pointer: string, caseSensitive: bool) returns (same: bool)
    ensures same == Names(Token(pointer), name, caseSensitive)
  {
    hide Names, Token;
    var n, p := 0, 0;
    assert name[0..] == name && pointer[0..] == pointer;
    while n < |name| && p < |pointer| && pointer[p] != '/'
      invariant 0 <= n <= |name| && 0 <= p <= |pointer|
      invariant Names(Token(pointer), name, caseSensitive) == Names(Token(pointer[p..]), name[n..], caseSensitive)
    {
      assert name[n..][1..] == name[n + 1..] && pointer[p..][1..] == pointer[p + 1..];
      if pointer[p] == '~' {
        NamesEscape(name[n..], pointer[p..], caseSensitive);
        if p + 1 == |pointer| || !((pointer[p + 1] == '0' && name[n] == '~') || (pointer[p + 1] == '1' && name[n] == '/')) {
          return false;
        }
        assert pointer[p..][2..] == pointer[p + 2..];
        p := p + 1;
      } else {
        NamesPlain(name[n..], pointer[p..], caseSensitive);
        if (!caseSensitive && ToLower(name[n]) != ToLower(pointer[p])) || (caseSensitive && name[n] != pointer[p]) {
          return false;
        }
      }
      n, p := n + 1, p + 1;
    }
    NamesEnd(name[n..], pointer[p..], caseSensitive);
    same := (p < |pointer| && pointer[p] != '/') == (n < |name|);
  }

  // ---- pointer_encoded_length and encode_string_as_pointer ----

  /** `pointer_encoded_length`: the length of the encoding by section 3 of RFC 6901. */
  method EncodedLength(s: string) returns (length: nat)
    ensures length == |Encode(s)|
  {
    hide Encode;
    var i := 0;
    length := 0;
    assert s[0..] == s;
    while i < |s|
      invariant 0 <= i <= |s| && |Encode(s)| == length + |Encode(s[i..])|
    {
      assert s[i..][1..] == s[i + 1..];
      EncodedHead(s[i..]);
      if s[i] == '~' || s[i] == '/' {
        length := length + 1;
      }
      i, length := i + 1, length + 1;
    }
    EncodedNothing();
    assert s[i..] == "";
  }

  lemma EncodedNothing()
    ensures Encode("") == ""
  {
  }

  /**
   What `encode_string_as_pointer` makes of a buffer: '/' becomes a byte that was there
   before and '1', and '~' becomes "~1".
   */
  function Encoded(s: string, before: string): (r: string)
    requires |Encode(s)| <= |before|
    ensures |r| == |Encode(s)|
    decreases s
  {
    if s == "" then ""
    else if s[0] == '/' then [before[0], '1'] + Encoded(s[1..], before[2..])
    else if s[0] == '~' then "~1" + Encoded(s[1..], before[2..])
    else [s[0]] + Encoded(s[1..], before[1..])
  }

  /** The places where the byte before "1" is left alone already hold a tilde. */
  predicate TildesReady(s: string, before: string)
    requires |Encode(s)| <= |before|
    decreases s
  {
    s == "" ||
    if s[0] == '/' then before[0] == '~' && TildesReady(s[1..], before[2..])
    else if s[0] == '~' then TildesReady(s[1..], before[2..])
    else TildesReady(s[1..], before[1..])
  }

  /** Exactly when the buffer ends up with the encoding of RFC 6901. */
  lemma {:induction false} EncodedRight(s: string, before: string)
    requires |Encode(s)| <= |before|
    ensures Encoded(s, before) == Encode(s) <==> '~' !in s && TildesReady(s, before)
    decreases s
  {
    if s != "" {
      assert s == [s[0]] + s[1..];
      if s[0] == '~' {
        assert Encoded(s, before)[1] == '1' && Encode(s)[1] == '0';
      } else if s[0] == '/' {
        EncodedRight(s[1..], before[2..]);
        SamePair(before[0], '1', Encoded(s[1..], before[2..]), '~', '1', Encode(s[1..]));
      } else {
        EncodedRight(s[1..], before[1..]);
        SameCons(s[0], Encoded(s[1..], before[1..]), s[0], Encode(s[1..]));
      }
    }
  }

  lemma EncodedStep(s: string, before: string, i: nat, at: nat)
    requires i < |s| && at <= |before| && |Encode(s[i..])| <= |before| - at
    ensures var width := Width(s[i]);
            && at + width <= |before| && |Encode(s[i + 1..])| <= |before| - at - width
            && Encoded(s[i..], before[at..]) ==
               Piece(s[i], before[at]) + Encoded(s[i + 1..], before[at + width..])
  { }

  function Width(c: char): nat {
    if c == '~' || c == '/' then 2 else 1
  }

  /** What one character becomes, over a byte that is there already. */
  function Piece(c: char, there: char): (s: string)
    ensures |s| == Width(c)
  {
    if c == '/' then [there, '1'] else if c == '~' then "~1" else [c]
  }

  /** One round of the loop. */
  method PutEncoded(destination: array<char>, to: nat, c: char) returns (next: nat)
    requires to + Width(c) <= destination.Length
    modifies destination
    ensures next == to + Width(c)
    ensures destination[..next] == old(destination[..to]) + Piece(c, old(destination[to]))
    ensures destination[next..] == old(destination[next..])
  {
    next := to;
    if c == '/' {
      destination[next + 1] := '1';
      next := next + 1;
    } else if c == '~' {
      destination[next] := '~';
      destination[next + 1] := '1';
      next := next + 1;
    } else {
      destination[next] := c;
    }
    next := next + 1;
  }

  /** `encode_string_as_pointer` into a buffer of any content. */
  method EncodeAsPointer(destination: array<char>, at: nat, source: string)
    requires at + |Encode(source)| < destination.Length
    modifies destination
    ensures destination[..at + |Encode(source)|] == old(destination[..at]) + Encoded(source, old(destination[at..]))
    ensures destination[at + |Encode(source)|] == NUL
  {
    hide Encode, Encoded, Piece;
    ghost var before := destination[..];
    ghost var written := destination[..at];
    var i, to := 0, at;
    assert source[0..] == source && before[at..] == destination[at..];
    while i < |source|
      invariant 0 <= i <= |source| && at <= to && to + |Encode(source[i..])| == at + |Encode(source)|
      invariant destination[to..] == before[to..] && destination[..to] == written
      invariant old(destination[..at]) + Encoded(source, before[at..]) == written + Encoded(source[i..], before[to..])
      decreases |source| - i
    {
      EncodedStep(source, before, i, to);
      EncodedHead(source[i..]);
      assert source[i..][1..] == source[i + 1..];
      assert destination[to] == destination[to..][0] == before[to..][0] == before[to];
      ghost var width := Width(source[i]);
      Follow(destination[..], before, to, width);
      RegroupPiece(written, Piece(source[i], before[to]), Encoded(source[i + 1..], before[to + width..]));
      written := written + Piece(source[i], before[to]);
      to := PutEncoded(destination, to, source[i]);
      i := i + 1;
    }
    assert source[i..] == "";
    EncodedNothing();
    EncodedEnd(before[to..]);
    assert written + "" == written;
    destination[to] := NUL;
  }

  lemma Follow(now: string, before: string, to: nat, width: nat)
    requires to + width <= |before| == |now| && now[to..] == before[to..]
    ensures now[to + width..] == before[to + width..]
  { }

  lemma RegroupPiece(a: string, b: string, c: string)
    ensures a + (b + c) == (a + b) + c
  {
  }

  lemma EncodedEnd(before: string)
    ensures |Encode("")| <= |before| && Encoded("", before) == ""
  {
  }

  // ---- decode_array_index_from_pointer and get_item_from_pointer ----

  lemma {:induction false} WrapHornerAppend(acc: nat, s: string, c: char)
    requires (forall i | 0 <= i < |s| :: '0' <= s[i]) && '0' <= c
    ensures WrapHorner(acc, s + [c]) == (10 * WrapHorner(acc, s) + (c as int - '0' as int)) % SIZE_MODULUS
    decreases s
  {
    if s == "" {
      assert s + [c] == [c];
    } else {
      assert (s + [c])[1..] == s[1..] + [c];
      WrapHornerAppend((10 * acc + (s[0] as int - '0' as int)) % SIZE_MODULUS, s[1..], c);
    }
  }

  lemma TokenAt(p: string, i: nat)
    requires i < |p|
    ensures i < |Token(p)| ==> p[i] == Token(p)[i] && p[i] != '/'
    ensures i == |Token(p)| ==> p[i] == '/'
  { }

  /**
   `decode_array_index_from_pointer`.  The loop looks at the first character for the upper
   bound, so characters above '9' count once the token starts with a digit.
   */
  method DecodeArrayIndex(pointer: string) returns (index: Option<nat>)
    ensures index == DecodeIndex(Token(pointer))
  {
    hide Token, WrapHorner;
    ghost var token := Token(pointer);
    if pointer != "" { TokenAt(pointer, 0); }
    if |pointer| > 1 { TokenAt(pointer, 1); }
    if |pointer| > 1 && pointer[0] == '0' && pointer[1] != '/' {
      return None;
    }
    var parsed, position := 0, 0;
    WrapNothing();
    while position < |pointer| && pointer[position] >= '0' && pointer[0] <= '9'
      invariant 0 <= position <= |token| && parsed >= 0
      invariant forall i | 0 <= i < position :: '0' <= token[i]
      invariant position > 0 ==> pointer[0] <= '9'
      invariant parsed == WrapHorner(0, token[..position])
      decreases |pointer| - position
    {
      TokenAt(pointer, position);
      assert token[..position + 1] == token[..position] + [token[position]];
      WrapHornerAppend(0, token[..position], token[position]);
      parsed := (10 * parsed + (pointer[position] as int - '0' as int)) % SIZE_MODULUS;
      position := position + 1;
    }
    if position < |pointer| {
      TokenAt(pointer, position);
    }
    if position < |pointer| && pointer[position] != '/' {
      return None;
    }
    assert token[..position] == token;
    index := Some(parsed);
  }

  lemma WrapNothing()
    ensures forall s: string :: WrapHorner(0, s[..0]) == 0
  {
  }

  lemma ResolveRound(j: Json, pointer: string, caseSensitive: bool)
    requires pointer != "" && pointer[0] == '/'
    ensures Resolve(j, pointer, caseSensitive) ==
            var token, rest := Token(pointer[1..]), AfterToken(pointer[1..]);
            var child := Pointer.Step(j, token, caseSensitive);
            if child.None? then None
            else
              var below := Resolve(ChildAt(j, child.value), rest, caseSensitive);
              if below.None? then None else Some([child.value] + below.value)
  {
  }

  /** A position below another one. */
  function Below(at: Position, r: Option<Position>): Option<Position> {
    if r.None? then None else Some(at + r.value)
  }

  lemma BelowOne(at: Position, i: nat, r: Option<Position>)
    ensures Below(at, if r.None? then None else Some([i] + r.value)) == Below(at + [i], r)
  {
    if r.Some? { assert at + ([i] + r.value) == (at + [i]) + r.value; }
  }

  /** The search over the members of an object. */
  method FindChild(members: seq<Member<Json>>, pointer: string, caseSensitive: bool) returns (i: nat)
    ensures i == FindNamed(members, Token(pointer), caseSensitive)
  {
    hide Names, Token;
    i := 0;
    assert members[0..] == members;
    while i < |members|
      invariant 0 <= i <= |members|
      invariant FindNamed(members, Token(pointer), caseSensitive) == i + FindNamed(members[i..], Token(pointer), caseSensitive)
    {
      assert members[i..][1..] == members[i + 1..];
      var same := ComparePointers(members[i].key, pointer, caseSensitive);
      if same {
        return;
      }
      i := i + 1;
    }
  }

  /** `get_item_from_pointer`: the node by its position, or None for NULL. */
  method GetItemFromPointer(root: Json, pointer: string, caseSensitive: bool) returns (found: Option<Position>)
    ensures found == Resolve(root, pointer, caseSensitive)
  {
    hide Resolve, FindNamed, Token, DecodeIndex;
    var at: Position, current, rest := [], root, pointer;
    BelowNothing(Resolve(root, pointer, caseSensitive));
    while rest != "" && rest[0] == '/'
      invariant Resolve(root, pointer, caseSensitive) == Below(at, Resolve(current, rest, caseSensitive))
      decreases |rest|
    {
      ResolveRound(current, rest, caseSensitive);
      rest := rest[1..];
      var child: Option<nat>;
      if current.Array? {
        child := DecodeArrayIndex(rest);
        if child.Some? && child.value >= |current.items| {
          child := None;
        }
      } else if current.Object? {
        var i := FindChild(current.members, rest, caseSensitive);
        child := if i < |current.members| then Some(i) else None;
      } else {
        child := None;
      }
      if child.None? {
        return None;
      }
      var length := SkipToken(rest);
      BelowOne(at, child.value, Resolve(ChildAt(current, child.value), rest[length..], caseSensitive));
      at, current := at + [child.value], ChildAt(current, child.value);
      rest := rest[length..];
    }
    ResolveHere(current, rest, caseSensitive);
    assert at + [] == at;
    found := Some(at);
  }

  /** To the next token or the end. */
  method SkipToken(pointer: string) returns (length: nat)
    ensures length == |Token(pointer)|
  {
    length := 0;
    while length < |pointer| && pointer[length] != '/'
      invariant length <= |pointer| && length <= |Token(pointer)|
    {
      if length == |Token(pointer)| { TokenAt(pointer, length); }
      length := length + 1;
    }
    if length < |pointer| { TokenAt(pointer, length); }
  }

  lemma BelowNothing(r: Option<Position>)
    ensures Below([], r) == r
  {
    if r.Some? { assert [] + r.value == r.value; }
  }

  lemma ResolveHere(j: Json, pointer: string, caseSensitive: bool)
    requires pointer == "" || pointer[0] != '/'
    ensures Resolve(j, pointer, caseSensitive) == Some([])
  {
  }

  // ---- cJSONUtils_FindPointerFromObjectTo ----

  /** The piece of the pointer that leads to a child, where no key contains '/'. */
  function Segment(j: Json, i: nat): string
    requires i < ChildCount(j)
  {
    "/" + if j.Array? then Digits(i) else Escaped(j.members[i].key)
  }

  /** What `encode_string_as_pointer` makes of a key without '/'. */
  function Escaped(key: string): string {
    if key == "" then "" else (if key[0] == '~' then "~1" else [key[0]]) + Escaped(key[1..])
  }

  /** The search from a node at position `here` for the node at position `target`. */
  function Find(j: Json, here: Position, target: Position): Option<string>
    decreases Height(j), ChildCount(j) + 1
  {
    if here == target then Some("") else FindBelow(j, 0, here, target)
  }

  function FindBelow(j: Json, i: nat, here: Position, target: Position): Option<string>
    requires i <= ChildCount(j)
    decreases Height(j), ChildCount(j) - i
  {
    if i == ChildCount(j) then None
    else
      var found := Find(ChildAt(j, i), here + [i], target);
      if found.Some? then Some(Segment(j, i) + found.value) else FindBelow(j, i + 1, here, target)
  }

  predicate Under(here: Position, target: Position) {
    |here| <= |target| && target[..|here|] == here
  }

  lemma UnderChild(here: Position, target: Position, i: nat)
    ensures Under(here + [i], target) <==> Under(here, target) && |here| < |target| && target[|here|] == i
  { }

  /** The search succeeds exactly when the target lies below, and then returns this. */
  lemma {:induction false} FindWorks(j: Json, here: Position, target: Position)
    ensures Find(j, here, target).Some? <==> Under(here, target) && Exists(j, target[|here|..])
    ensures Under(here, target) && |here| < |target| && target[|here|] < ChildCount(j) ==>
      var i := target[|here|];
      var below := Find(ChildAt(j, i), here + [i], target);
      Find(j, here, target) == if below.None? then None else Some(Segment(j, i) + below.value)
    decreases Height(j), ChildCount(j) + 1
  {
    if here == target {
      assert target[|here|..] == [];
    } else {
      FindBelowWorks(j, 0, here, target);
      if Under(here, target) && |here| < |target| {
        assert target[|here|..][1..] == target[|here| + 1..];
      }
    }
  }

  lemma {:induction false} FindBelowWorks(j: Json, i: nat, here: Position, target: Position)
    requires i <= ChildCount(j)
    ensures var found := FindBelow(j, i, here, target);
            if Under(here, target) && |here| < |target| && i <= target[|here|] < ChildCount(j) then
              var k := target[|here|];
              var below := Find(ChildAt(j, k), here + [k], target);
              && (found.Some? <==> Exists(ChildAt(j, k), target[|here| + 1..]))
              && found == if below.None? then None else Some(Segment(j, k) + below.value)
            else found.None?
    decreases Height(j), ChildCount(j) - i
  {
    hide Exists;
    if i < ChildCount(j) {
      FindWorks(ChildAt(j, i), here + [i], target);
      FindBelowWorks(j, i + 1, here, target);
      UnderChild(here, target, i);
    }
  }

  lemma {:induction false} EscapedPlain(key: string)
    requires Plain(key)
    ensures Escaped(key) == key
  {
    if key != "" {
      assert key[0] in key;
      EscapedPlain(key[1..]);
      assert key == [key[0]] + key[1..];
    }
  }

  /** With keys that stay distinct under folding, a member's own key finds that member. */
  lemma OwnName(members: seq<Member<Json>>, i: nat)
    requires DistinctKeys(members, false) && i < |members| && Plain(members[i].key)
    ensures FindNamed(members, members[i].key, false) == i
  {
    EncodePlain(members[i].key);
    FindNamedIsFindMember(members, members[i].key, false);
    hide FindNamed;
  }

  /** The segment of a child, as a token, selects that child. */
  lemma SegmentSelects(j: Json, i: nat)
    requires i < ChildCount(j) && Addressable(j) && Distinct(j, false)
    ensures var token := Segment(j, i)[1..];
            Segment(j, i) == "/" + token && '/' !in token && Pointer.Step(j, token, false) == Some(i)
  {
    if j.Array? {
      DecodePrinted(i);
      hide DecodeIndex, Digits;
      assert ("/" + Digits(i))[1..] == Digits(i);
    } else {
      EscapedPlain(j.members[i].key);
      OwnName(j.members, i);
      hide FindNamed, Escaped, DistinctKeys;
      assert ("/" + j.members[i].key)[1..] == j.members[i].key;
    }
  }

  lemma FindStarts(j: Json, here: Position, target: Position)
    ensures var p := Find(j, here, target); p.Some? ==> p.value == "" || p.value[0] == '/'
  {
    if here != target {
      FindBelowStarts(j, 0, here, target);
    }
  }

  lemma {:induction false} FindBelowStarts(j: Json, i: nat, here: Position, target: Position)
    requires i <= ChildCount(j)
    ensures var p := FindBelow(j, i, here, target); p.Some? ==> p.value != "" && p.value[0] == '/'
    decreases ChildCount(j) - i
  {
    hide Find, Digits, Escaped;
    if i < ChildCount(j) {
      FindBelowStarts(j, i + 1, here, target);
    }
  }

  lemma ResolveSegment(j: Json, i: nat, rest: string)
    requires i < ChildCount(j) && Addressable(j) && Distinct(j, false) && (rest == "" || rest[0] == '/')
    ensures var below := Resolve(ChildAt(j, i), rest, false);
            Resolve(j, Segment(j, i) + rest, false) == if below.None? then None else Some([i] + below.value)
  {
    SegmentSelects(j, i);
    hide Segment, Resolve, Addressable, Distinct;
    var token := Segment(j, i)[1..];
    var p := Segment(j, i) + rest;
    assert p[1..] == token + rest && p[0] == '/';
    ResolveRound(j, p, false);
    TokenOf(token, rest);
  }

  lemma ChildAddressable(j: Json, i: nat)
    requires i < ChildCount(j) && Addressable(j) && Distinct(j, false)
    ensures Addressable(ChildAt(j, i)) && Distinct(ChildAt(j, i), false)
  {
  }

  lemma {:induction false} FoundResolves(j: Json, here: Position, target: Position)
    requires Addressable(j) && Distinct(j, false) && Find(j, here, target).Some?
    ensures Under(here, target) && Resolve(j, Find(j, here, target).value, false) == Some(target[|here|..])
    decreases Height(j)
  {
    FindWorks(j, here, target);
    if |target| == |here| {
      assert target[..|here|] == target && target[|here|..] == [];
      hide Resolve;
      ResolveHere(j, "", false);
    } else {
      hide Find, Resolve, Segment, Addressable, Distinct;
      var i := target[|here|];
      FoundExists(j, target[|here|..]);
      UnderChild(here, target, i);
      var child := ChildAt(j, i);
      ChildAddressable(j, i);
      FoundResolves(child, here + [i], target);
      FindStarts(child, here + [i], target);
      ResolveSegment(j, i, Find(child, here + [i], target).value);
      assert target[|here|..] == [i] + target[|here| + 1..];
    }
  }

  lemma FoundExists(j: Json, at: Position)
    requires Exists(j, at) && at != []
    ensures at[0] < ChildCount(j)
  {
  }

  /**
   Searching a node and following the pointer that is found: NULL exactly when the node is
   not in the tree, and otherwise the pointer leads back to that very node.
   */
  lemma FindPointerRoundTrip(j: Json, target: Position)
    requires Addressable(j) && Distinct(j, false)
    ensures Find(j, [], target).None? <==> !Exists(j, target)
    ensures Find(j, [], target).Some? ==> Resolve(j, Find(j, [], target).value, false) == Some(target)
  {
    hide Find, Resolve, Addressable, Distinct;
    FindWorks(j, [], target);
    assert target[0..] == target && target[..0] == [];
    if Find(j, [], target).Some? {
      FoundResolves(j, [], target);
    }
  }

  // ---- The search as it works ----

  predicate SlashFree(j: Json) {
    match j
    case Array(items) => forall i | 0 <= i < |items| :: SlashFree(items[i])
    case Object(members) => forall i | 0 <= i < |members| :: '/' !in members[i].key && SlashFree(members[i].value)
    case _ => true
  }

  lemma {:induction false} EncodedWithoutSlash(key: string, before: string)
    requires |Encode(key)| <= |before| && '/' !in key
    ensures Encoded(key, before) == Escaped(key)
    decreases key
  {
    if key != "" {
      assert key[0] in key;
      if key[0] == '~' {
        EncodedWithoutSlash(key[1..], before[2..]);
      } else {
        EncodedWithoutSlash(key[1..], before[1..]);
      }
    }
  }

  /** The segment for one member: an allocation of unspecified content, written in part. */
  method MemberSegment(key: string) returns (segment: string)
    ensures '/' !in key ==> segment == "/" + Escaped(key)
  {
    hide Encode, Encoded, Escaped;
    var length := EncodedLength(key);
    var full := new char[length + 2];
    full[0] := '/';
    assert full[..1] == "/";
    ghost var before := full[1..];
    if '/' !in key { EncodedWithoutSlash(key, before); }
    EncodeAsPointer(full, 1, key);
    segment := full[..length + 1];
  }

  lemma SlashFreeChild(j: Json, i: nat)
    requires i < ChildCount(j) && SlashFree(j)
    ensures SlashFree(ChildAt(j, i)) && (j.Object? ==> '/' !in j.members[i].key)
  {
  }

  /**
   `cJSONUtils_FindPointerFromObjectTo`, with a node known by its position.  Whether it
   returns NULL does not depend on the keys; the pointer is specified without '/' in them.
   */
  method FindPointerFromObjectTo(j: Json, here: Position, target: Position) returns (pointer: Option<string>)
    ensures pointer.Some? == Find(j, here, target).Some?
    ensures SlashFree(j) ==> pointer == Find(j, here, target)
    decreases Height(j), 1
  {
    hide FindBelow, Segment, SlashFree;
    if here == target {
      return Some("");
    }
    var i := 0;
    while i < ChildCount(j)
      invariant 0 <= i <= ChildCount(j)
      invariant Find(j, here, target) == FindBelow(j, i, here, target)
    {
      FindBelowStep(j, i, here, target);
      var found := FindPointerFromObjectTo(ChildAt(j, i), here + [i], target);
      if SlashFree(j) { SlashFreeChild(j, i); }
      if found.Some? {
        var segment := PrintSegment(j, i);
        return Some(segment + found.value);
      }
      i := i + 1;
    }
    FindBelowEnd(j, here, target);
    pointer := None;
  }

  method PrintSegment(j: Json, i: nat) returns (segment: string)
    requires i < ChildCount(j)
    ensures j.Array? || '/' !in j.members[i].key ==> segment == Segment(j, i)
  {
    if j.Array? {
      segment := "/" + Digits(i);
    } else {
      segment := MemberSegment(j.members[i].key);
    }
  }

  lemma FindBelowStep(j: Json, i: nat, here: Position, target: Position)
    requires i < ChildCount(j)
    ensures var found := Find(ChildAt(j, i), here + [i], target);
            FindBelow(j, i, here, target) ==
            if found.Some? then Some(Segment(j, i) + found.value) else FindBelow(j, i + 1, here, target)
  { }

  lemma FindBelowEnd(j: Json, here: Position, target: Position)
    ensures FindBelow(j, ChildCount(j), here, target) == None
  {
  }
}
