/**
 JSON Pointer as `cJSON_Utils.c` implements it.  The identity of a node is its
 position: the list of child indices on the way down from the root.
 */
module Pointer {
  import opened Options
  import opened CString
  import opened Decimal
  import opened Json

  type Position = seq<nat>

  // ---- Nodes by position ----

  function ChildCount(j: Json): nat {
    match j
    case Array(items) => |items|
    case Object(members) => |members|
    case _ => 0
  }

  function ChildAt(j: Json, i: nat): (c: Json)
    requires i < ChildCount(j)
    ensures Height(c) < Height(j)
  {
    if j.Array? then j.items[i] else j.members[i].value
  }

  function WithChild(j: Json, i: nat, x: Json): Json
    requires i < ChildCount(j)
  {
    if j.Array? then Array(j.items[i := x]) else Object(j.members[i := Member(j.members[i].key, x)])
  }

  predicate Exists(j: Json, at: Position)
    decreases |at|
  {
    at == [] || (at[0] < ChildCount(j) && Exists(ChildAt(j, at[0]), at[1..]))
  }

  function At(j: Json, at: Position): Json
    requires Exists(j, at)
    decreases |at|
  {
    if at == [] then j else At(ChildAt(j, at[0]), at[1..])
  }

  /** The tree with the node at a position overwritten. */
  function Put(j: Json, at: Position, x: Json): Json
    requires Exists(j, at)
    decreases |at|
  {
    if at == [] then x else WithChild(j, at[0], Put(ChildAt(j, at[0]), at[1..], x))
  }

  // ---- Tokens ----

  /** The text up to the next '/'. */
  function Token(p: string): (t: string)
    ensures |t| <= |p| && p[..|t|] == t && '/' !in t
    ensures |t| < |p| ==> p[|t|] == '/'
  {
    if p == "" || p[0] == '/' then "" else [p[0]] + Token(p[1..])
  }

  function AfterToken(p: string): (r: string)
    ensures |r| <= |p| && (r == "" || r[0] == '/')
  {
    p[|Token(p)|..]
  }

  lemma {:induction false} TokenOf(t: string, rest: string)
    requires '/' !in t && (rest == "" || rest[0] == '/')
    ensures Token(t + rest) == t && AfterToken(t + rest) == rest
  {
    if t == "" {
      assert t + rest == rest;
    } else {
      assert (t + rest)[1..] == t[1..] + rest;
      TokenOf(t[1..], rest);
    }
  }

  lemma TokenOfAll(s: string)
    requires '/' !in s
    ensures Token(s) == s
  { }

  /** Section 3 of RFC 6901: '~' is written "~0" and '/' is written "~1". */
  function Encode(name: string): string {
    if name == "" then ""
    else (if name[0] == '~' then "~0" else if name[0] == '/' then "~1" else [name[0]]) + Encode(name[1..])
  }

  /** A token names a member when it is the member's encoded name, up to folding. */
  predicate Names(token: string, name: string, caseSensitive: bool) {
    Fold(Encode(name), caseSensitive) == Fold(token, caseSensitive)
  }

  predicate Plain(s: string) {
    '/' !in s && '~' !in s
  }

  lemma {:induction false} EncodePlain(name: string)
    requires Plain(name)
    ensures Encode(name) == name
  {
    if name != "" {
      assert name[0] in name;
      EncodePlain(name[1..]);
      assert name == [name[0]] + name[1..];
    }
  }

  // ---- Folding and encoding ----

  /** Folding leaves alone what is special in a pointer, so it may as well come first. */
  lemma {:induction false} FoldEncode(name: string, caseSensitive: bool)
    ensures Fold(Encode(name), caseSensitive) == Encode(Fold(name, caseSensitive))
  {
    if name != "" {
      var c, rest := name[0], name[1..];
      FoldEncode(rest, caseSensitive);
      var f := Fold(name, caseSensitive);
      assert f[1..] == Fold(rest, caseSensitive);
      var head := if c == '~' then "~0" else if c == '/' then "~1" else [c];
      assert Fold(head + Encode(rest), caseSensitive) == Fold(head, caseSensitive) + Fold(Encode(rest), caseSensitive);
      assert Fold(head, caseSensitive) == if f[0] == '~' then "~0" else if f[0] == '/' then "~1" else [f[0]];
    } else {
      assert Fold("", caseSensitive) == "";
    }
  }

  lemma {:induction false} EncodeInjective(a: string, b: string)
    ensures Encode(a) == Encode(b) <==> a == b
  {
    if a != "" && b != "" {
      EncodeInjective(a[1..], b[1..]);
      EncodeTail(a);
      EncodeTail(b);
      assert a == [a[0]] + a[1..] && b == [b[0]] + b[1..];
      hide Encode;
    }
  }

  lemma EncodeTail(name: string)
    requires name != ""
    ensures var e := Encode(name);
            if name[0] == '~' then |e| >= 2 && e[0] == '~' && e[1] == '0' && e[2..] == Encode(name[1..])
            else if name[0] == '/' then |e| >= 2 && e[0] == '~' && e[1] == '1' && e[2..] == Encode(name[1..])
            else |e| >= 1 && e[0] == name[0] && e[1..] == Encode(name[1..])
  { }

  /** An encoded name as a token names exactly the members with that name, up to folding. */
  lemma EncodedNames(name: string, key: string, caseSensitive: bool)
    ensures Names(Encode(name), key, caseSensitive) <==> Fold(key, caseSensitive) == Fold(name, caseSensitive)
  {
    FoldEncode(name, caseSensitive);
    FoldEncode(key, caseSensitive);
    EncodeInjective(Fold(key, caseSensitive), Fold(name, caseSensitive));
  }

  /** For a token without an escape, naming a member is folded equality, whatever the member's name. */
  lemma PlainTokenNames(token: string, name: string, caseSensitive: bool)
    requires Plain(token)
    ensures Names(token, name, caseSensitive) <==> Fold(name, caseSensitive) == Fold(token, caseSensitive)
  {
    EncodePlain(token);
    EncodedNames(token, name, caseSensitive);
    hide Encode, Fold;
  }

  // ---- Array indices ----

  /** `size_t` on the target is 32 bits wide. */
  const SIZE_MODULUS: nat := 0x1_0000_0000

  function WrapHorner(acc: nat, s: string): nat
    requires forall i | 0 <= i < |s| :: '0' <= s[i]
    decreases s
  {
    if s == "" then acc else WrapHorner((10 * acc + (s[0] as int - '0' as int)) % SIZE_MODULUS, s[1..])
  }

  /**
   `decode_array_index_from_pointer`.  A leading zero must stand alone, and the loop goes
   on over every character from '0' upwards while the *first* one is at most '9'; the empty
   token is index 0.
   */
  function DecodeIndex(token: string): Option<nat> {
    if |token| > 1 && token[0] == '0' then None
    else if token == "" then Some(0)
    else if token[0] > '9' then None
    else if exists i | 0 <= i < |token| :: token[i] < '0' then None
    else Some(WrapHorner(0, token))
  }

  lemma {:induction false} HornerGrows(acc: nat, s: string)
    requires forall i | 0 <= i < |s| :: '0' <= s[i]
    ensures acc <= Horner(acc, s)
    decreases s
  {
    if s != "" {
      HornerGrows(10 * acc + (s[0] as int - '0' as int), s[1..]);
    }
  }

  lemma {:induction false} NoWrap(acc: nat, s: string)
    requires forall i | 0 <= i < |s| :: '0' <= s[i]
    requires Horner(acc, s) < SIZE_MODULUS
    ensures WrapHorner(acc, s) == Horner(acc, s)
    decreases s
  {
    if s != "" {
      var next := 10 * acc + (s[0] as int - '0' as int);
      HornerGrows(next, s[1..]);
      NoWrap(next, s[1..]);
    }
  }

  /** A printed index is decoded to itself. */
  lemma DecodePrinted(i: nat)
    requires i < SIZE_MODULUS
    ensures DecodeIndex(Digits(i)) == Some(i) && Plain(Digits(i)) && Digits(i) != "-"
  {
    var s := Digits(i);
    ReadDigits(i);
    NoWrap(0, s);
    assert IsDigit(s[0]);
    forall k | 0 <= k < |s| ensures s[k] >= '0' && s[k] != '/' && s[k] != '~' {
      assert IsDigit(s[k]);
    }
  }

  /** Section 4 of RFC 6901: digits without a leading zero. */
  function RfcIndex(token: string): Option<nat> {
    if token != "" && AllDigits(token) && (token[0] == '0' ==> |token| == 1) then Some(Horner(0, token)) else None
  }

  lemma {:induction false} WrapSmall(acc: nat, s: string)
    requires (forall i | 0 <= i < |s| :: '0' <= s[i]) && acc < SIZE_MODULUS
    ensures WrapHorner(acc, s) < SIZE_MODULUS
    decreases s
  {
    if s != "" {
      WrapSmall((10 * acc + (s[0] as int - '0' as int)) % SIZE_MODULUS, s[1..]);
    }
  }

  lemma ModStep(a: nat, c: nat)
    ensures (10 * a + c) % SIZE_MODULUS == (10 * (a % SIZE_MODULUS) + c) % SIZE_MODULUS
  {
    var q, r := a / SIZE_MODULUS, a % SIZE_MODULUS;
    assert 10 * a + c == (10 * q) * SIZE_MODULUS + (10 * r + c);
  }

  /** Wrapping at each step is wrapping once. */
  lemma {:induction false} WrapIsMod(acc: nat, s: string)
    requires forall i | 0 <= i < |s| :: '0' <= s[i]
    ensures WrapHorner(acc % SIZE_MODULUS, s) == Horner(acc, s) % SIZE_MODULUS
    decreases s
  {
    if s != "" {
      var c := s[0] as int - '0' as int;
      ModStep(acc, c);
      WrapIsMod(10 * acc + c, s[1..]);
    }
  }

  /** What is read from any token: every character from '0' on counts as a digit, modulo 2^32. */
  lemma DecodeIndexReads(token: string)
    ensures var digits := forall i | 0 <= i < |token| :: '0' <= token[i];
            DecodeIndex(token) ==
            if token == "" then Some(0)
            else if !digits || token[0] > '9' || (token[0] == '0' && |token| > 1) then None
            else Some(Horner(0, token) % 0x1_0000_0000)
  {
    if forall i | 0 <= i < |token| :: '0' <= token[i] { WrapIsMod(0, token); }
    hide WrapHorner, Horner;
  }

  /**
   A token that is not empty, that does not go on after a digit with characters above '9',
   and whose number fits in `size_t`.
   */
  predicate RightIndex(token: string) {
    && token != ""
    && (token[0] <= '9' && !(|token| > 1 && token[0] == '0') && (forall i | 0 <= i < |token| :: '0' <= token[i]) ==>
          AllDigits(token) && Horner(0, token) < SIZE_MODULUS)
  }

  /** The decoded index is the one of RFC 6901 exactly for such tokens. */
  lemma DecodeIndexRight(token: string)
    ensures DecodeIndex(token) == RfcIndex(token) <==> RightIndex(token)
  {
    if token != "" && forall i | 0 <= i < |token| :: '0' <= token[i] {
      WrapSmall(0, token);
      if Horner(0, token) < SIZE_MODULUS { NoWrap(0, token); }
    }
    hide Horner, WrapHorner;
  }

  /** For a wrong one the RFC has no index at all, or one that no array reaches. */
  lemma WrongIndex(token: string)
    requires !RightIndex(token)
    ensures RfcIndex(token).None? || RfcIndex(token).value >= SIZE_MODULUS
  {
    hide Horner;
    if token != "" && AllDigits(token) {
      assert forall i | 0 <= i < |token| :: IsDigit(token[i]);
    }
  }

  /** A printed index is an index of RFC 6901. */
  lemma RfcPrinted(i: nat)
    ensures RfcIndex(Digits(i)) == Some(i)
    ensures i < SIZE_MODULUS ==> RightIndex(Digits(i))
  {
    ReadDigits(i);
    hide Horner;
  }

  /** No two tokens are the same index. */
  lemma RfcInjective(a: string, b: string)
    requires RfcIndex(a).Some? && RfcIndex(a) == RfcIndex(b)
    ensures a == b
  {
    DigitsOfHorner(a);
    DigitsOfHorner(b);
    hide Horner;
  }

  lemma EncodedIndex(name: string)
    ensures RfcIndex(Encode(name)) == RfcIndex(name)
    ensures '/' !in name ==> (RightIndex(Encode(name)) <==> RightIndex(name))
  {
    if Plain(name) {
      EncodePlain(name);
    } else {
      var i :| 0 <= i < |name| && (name[i] == '~' || name[i] == '/');
      EncodedHasTilde(name);
      var e := Encode(name);
      var k :| 0 <= k < |e| && e[k] == '~';
      assert !IsDigit(name[i]) && !IsDigit(e[k]);
      if '/' !in name { EncodedKeepsGuard(name); }
    }
    hide Encode, Horner;
  }

  lemma {:induction false} EncodedHasTilde(name: string)
    requires !Plain(name)
    ensures '~' in Encode(name)
  {
    if name[0] != '~' && name[0] != '/' {
      assert name == [name[0]] + name[1..];
      EncodedHasTilde(name[1..]);
    }
  }

  /** Writing "~0" for '~' changes nothing that the index test looks at. */
  lemma {:induction false} EncodedKeepsGuard(name: string)
    requires '/' !in name && name != ""
    ensures var e := Encode(name);
            && |e| >= |name| && e[0] == name[0] && (name[0] != '~' && |name| == 1 ==> |e| == 1)
            && ((forall i | 0 <= i < |e| :: '0' <= e[i]) <==> forall i | 0 <= i < |name| :: '0' <= name[i])
  {
    var e, rest := Encode(name), name[1..];
    EncodeTail(name);
    assert name[0] in name;
    assert name == [name[0]] + rest;
    if rest == "" {
      assert Encode(rest) == "";
    } else {
      EncodedKeepsGuard(rest);
      var r := Encode(rest);
      assert e == (if name[0] == '~' then "~0" else [name[0]]) + r;
      hide Encode;
      if forall i | 0 <= i < |e| :: '0' <= e[i] {
        forall i | 0 <= i < |r| ensures '0' <= r[i] {
          assert r[i] == e[if name[0] == '~' then i + 2 else i + 1];
        }
      }
    }
  }

  // ---- get_item_from_pointer ----

  /** Where the pointer leads from `j`, or None for NULL. */
  function Resolve(j: Json, pointer: string, caseSensitive: bool): (r: Option<Position>)
    ensures r.Some? ==> Exists(j, r.value)
    decreases |pointer|
  {
    if pointer == "" || pointer[0] != '/' then Some([])
    else
      var token, rest := Token(pointer[1..]), AfterToken(pointer[1..]);
      var child := Step(j, token, caseSensitive);
      if child.None? then None
      else
        var below := Resolve(ChildAt(j, child.value), rest, caseSensitive);
        if below.None? then None else Some([child.value] + below.value)
  }

  /** The child that one token selects. */
  function Step(j: Json, token: string, caseSensitive: bool): (r: Option<nat>)
    ensures r.Some? ==> r.value < ChildCount(j)
  {
    match j
    case Array(items) =>
      var index := DecodeIndex(token);
      if index.Some? && index.value < |items| then index else None
    case Object(members) =>
      var i := FindNamed(members, token, caseSensitive);
      if i < |members| then Some(i) else None
    case _ => None
  }

  function FindNamed(members: seq<Member<Json>>, token: string, caseSensitive: bool): (i: nat)
    ensures i <= |members|
    ensures i < |members| ==> Names(token, members[i].key, caseSensitive)
    ensures forall k | 0 <= k < i :: !Names(token, members[k].key, caseSensitive)
  {
    if members == [] || Names(token, members[0].key, caseSensitive) then 0
    else 1 + FindNamed(members[1..], token, caseSensitive)
  }

  lemma FindNamedIsFindMember(members: seq<Member<Json>>, name: string, caseSensitive: bool)
    ensures FindNamed(members, Encode(name), caseSensitive) == FindMember(members, name, caseSensitive)
  {
    var i, k := FindNamed(members, Encode(name), caseSensitive), FindMember(members, name, caseSensitive);
    if i < |members| { EncodedNames(name, members[i].key, caseSensitive); }
    if k < |members| { EncodedNames(name, members[k].key, caseSensitive); }
    hide Encode, Fold;
  }

  // ---- Pointers built from tokens ----

  function Join(tokens: seq<string>): string {
    if tokens == [] then "" else "/" + tokens[0] + Join(tokens[1..])
  }

  lemma {:induction false} JoinAppend(tokens: seq<string>, t: string)
    ensures Join(tokens + [t]) == Join(tokens) + "/" + t
  {
    if tokens == [] {
      assert tokens + [t] == [t];
      assert Join([t]) == "/" + t + Join([t][1..]);
    } else {
      assert (tokens + [t])[1..] == tokens[1..] + [t];
      JoinAppend(tokens[1..], t);
      assert "/" + tokens[0] + (Join(tokens[1..]) + "/" + t) == ("/" + tokens[0] + Join(tokens[1..])) + "/" + t;
    }
  }

  lemma ResolveJoin(j: Json, tokens: seq<string>, caseSensitive: bool)
    requires tokens != [] && '/' !in tokens[0]
    ensures Resolve(j, Join(tokens), caseSensitive) ==
            var child := Step(j, tokens[0], caseSensitive);
            if child.None? then None
            else
              var below := Resolve(ChildAt(j, child.value), Join(tokens[1..]), caseSensitive);
              if below.None? then None else Some([child.value] + below.value)
  {
    var p := Join(tokens);
    assert p[1..] == tokens[0] + Join(tokens[1..]);
    TokenOf(tokens[0], Join(tokens[1..]));
  }

  // ---- Trees whose nodes all have a pointer ----

  /** Keys that a pointer can spell without escapes, and arrays that `size_t` can index. */
  predicate Addressable(j: Json) {
    match j
    case Array(items) => |items| < SIZE_MODULUS && AddressableItems(items)
    case Object(members) => AddressableMembers(members)
    case _ => true
  }

  predicate AddressableItems(items: seq<Json>) {
    forall i | 0 <= i < |items| :: Addressable(items[i])
  }

  predicate AddressableMembers(members: seq<Member<Json>>) {
    forall i | 0 <= i < |members| :: Plain(members[i].key) && Addressable(members[i].value)
  }
}
