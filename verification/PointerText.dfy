/**
 Which texts are pointers at all by section 3 of RFC 6901, and what the code does with others:
 without a '/' in front only the last token counts, and a '~' that begins no escape makes a
 token that names no member.
 */
module PointerText {
  import opened Options
  import opened CString
  import opened Json
  import opened Pointer
  import opened Patch

  // ---- Legal pointers ----

  /** A token with its escapes undone, if every '~' begins one. */
  function Unescape(token: string): Option<string> {
    if token == "" then Some("")
    else if token[0] != '~' then Prepend([token[0]], Unescape(token[1..]))
    else if |token| > 1 && token[1] == '0' then Prepend("~", Unescape(token[2..]))
    else if |token| > 1 && token[1] == '1' then Prepend("/", Unescape(token[2..]))
    else None
  }

  function Prepend(c: string, rest: Option<string>): Option<string> {
    if rest.None? then None else Some(c + rest.value)
  }

  /** The names that a pointer lists, or None if it is no legal pointer. */
  function ReadPointer(text: string): Option<seq<string>>
    decreases |text|
  {
    if text == "" then Some([])
    else if text[0] != '/' then None
    else
      var name, rest := Unescape(Token(text[1..])), ReadPointer(AfterToken(text[1..]));
      if name.None? || rest.None? then None else Some([name.value] + rest.value)
  }

  lemma {:induction false} UnescapeEncoded(name: string)
    ensures Unescape(Encode(name)) == Some(name)
  {
    if name != "" {
      UnescapeEncoded(name[1..]);
      EncodeTail(name);
      var e := Encode(name);
      assert name == [name[0]] + name[1..];
      hide Encode;
    }
  }

  lemma {:induction false} EncodeUnescaped(token: string)
    requires '/' !in token && Unescape(token).Some?
    ensures Encode(Unescape(token).value) == token
    decreases |token|
  {
    if token != "" {
      var n := if token[0] == '~' then 2 else 1;
      EncodeUnescaped(token[n..]);
      var head := if token[0] != '~' then [token[0]] else if token[1] == '0' then "~" else "/";
      var rest := Unescape(token[n..]).value;
      assert (head + rest)[0] == head[0] && (head + rest)[1..] == rest;
      assert token == token[..n] + token[n..];
      assert token[0] in token;
      hide Encode;
      EncodeTail(head + rest);
      var e := Encode(head + rest);
      assert e == e[..n] + e[n..];
      assert e[..n] == token[..n];
    }
  }

  /** The legal pointers are the texts of paths, and each is the text of one path only. */
  lemma {:induction false} LegalText(text: string, path: seq<string>)
    ensures ReadPointer(text) == Some(path) <==> text == PathText(path)
    decreases |text|, |path|
  {
    hide *;
    if text == PathText(path) { WrittenReads(path); }
    if ReadPointer(text) == Some(path) { ReadWrites(text); }
  }

  lemma ReadStep(token: string, rest: string)
    requires '/' !in token && (rest == "" || rest[0] == '/')
    ensures ReadPointer("/" + token + rest) ==
            var name, names := Unescape(token), ReadPointer(rest);
            if name.None? || names.None? then None else Some([name.value] + names.value)
  {
    var text := "/" + token + rest;
    TokenOf(token, rest);
    assert text[1..] == token + rest;
    hide Unescape, Token, AfterToken;
  }

  lemma {:induction false} WrittenReads(path: seq<string>)
    ensures ReadPointer(PathText(path)) == Some(path)
  {
    hide *;
    if path == [] {
      TextEmpty([]);
      NothingRead();
    } else {
      TextCons(path);
      EncodeGrows(path[0]);
      TextStart(path[1..]);
      ReadStep(Encode(path[0]), PathText(path[1..]));
      UnescapeEncoded(path[0]);
      WrittenReads(path[1..]);
      assert path == [path[0]] + path[1..];
    }
  }

  lemma NothingRead()
    ensures ReadPointer("") == Some([])
  {
  }

  lemma {:induction false} ReadWrites(text: string)
    requires ReadPointer(text).Some?
    ensures PathText(ReadPointer(text).value) == text
    decreases |text|
  {
    if text == "" {
      TextEmpty([]);
    } else {
      var token, rest := Token(text[1..]), AfterToken(text[1..]);
      assert text == "/" + token + rest;
      EncodeUnescaped(token);
      ReadWrites(rest);
      var path := ReadPointer(text).value;
      assert path[1..] == ReadPointer(rest).value;
      hide Encode, PathText, Token, Unescape, AfterToken;
      TextCons(path);
    }
  }

  lemma TextCons(path: seq<string>)
    requires path != []
    ensures PathText(path) == "/" + Encode(path[0]) + PathText(path[1..])
  {
    assert Escapes(path)[1..] == Escapes(path[1..]);
    hide Encode;
  }

  lemma TextStart(path: seq<string>)
    ensures PathText(path) == "" || PathText(path)[0] == '/'
  {
    if path != [] { TextCons(path); }
  }

  // ---- Without a '/' in front ----

  /** The whole document, whatever the text. */
  lemma StrayResolves(j: Json, text: string, caseSensitive: bool)
    requires text == "" || text[0] != '/'
    ensures Resolve(j, text, caseSensitive) == Some([])
  {
  }

  lemma LastSlashAfter(text: string)
    requires LastSlash(text).Some?
    ensures var n := LastSlash(text).value; LastSlash(text[n..]) == Some(0) && text[n..][1..] == text[n + 1..] && text[n..] != ""
  {
    var n := LastSlash(text).value;
    LastSlashOf("", text[n + 1..]);
    assert text[n..] == "" + "/" + text[n + 1..];
    hide LastSlash;
  }

  /** Only what follows the last '/' counts. */
  lemma StrayDetach(document: Json, text: string, caseSensitive: bool)
    requires text != "" && text[0] != '/'
    ensures var n := LastSlash(text);
            Detach(document, text, caseSensitive) == if n.None? then None else Detach(document, text[n.value..], caseSensitive)
  {
    var n := LastSlash(text);
    if n.Some? {
      LastSlashAfter(text);
      StrayResolves(document, text[..n.value], caseSensitive);
      StrayResolves(document, text[n.value..][..0], caseSensitive);
    }
    hide LastSlash, Resolve, Decode, DetachChild, At, Put;
  }

  lemma StrayAdd(document: Json, text: string, x: Json, caseSensitive: bool)
    requires text != "" && text[0] != '/'
    ensures var n := LastSlash(text);
            AddAt(document, text, x, caseSensitive) ==
            if n.None? then Applied(9, document) else AddAt(document, text[n.value..], x, caseSensitive)
  {
    var n := LastSlash(text);
    if n.Some? {
      LastSlashAfter(text);
      StrayResolves(document, text[..n.value], caseSensitive);
      StrayResolves(document, text[n.value..][..0], caseSensitive);
    }
    hide LastSlash, Resolve, Decode, AddToParent, At, Put;
  }

  /** What the text stands for: with "test" the whole document, and else its last token. */
  function StandsFor(text: string, opcode: Opcode): string {
    var n := LastSlash(text);
    if opcode == TEST then "" else if n.None? then text else text[n.value..]
  }

  /**
   A "path" that does not begin with '/', which RFC 6901 does not allow, is taken for the
   pointer of its last token, or by "test" for the whole document; without any '/' the other
   operations fail.
   */
  lemma StrayPath(
    document: Json, opcode: Opcode, text: string, value: Option<Json>, from: Option<Json>, caseSensitive: bool)
    requires text != "" && text[0] != '/'
    ensures ReadPointer(text).None?
    ensures var a := Act(document, opcode, text, value, from, caseSensitive);
            if opcode == TEST || LastSlash(text).Some? then
              a == Act(document, opcode, StandsFor(text, opcode), value, from, caseSensitive)
            else a.status != 0
  {
    NotRead(text);
    hide *;
    Standing(text, opcode);
    if opcode == TEST {
      StrayTest(document, text, value, from, caseSensitive);
    } else if opcode == MOVE || opcode == COPY {
      StrayFrom(document, opcode == MOVE, text, value, from, caseSensitive);
    } else {
      StrayEdit(document, opcode, text, value, from, caseSensitive);
    }
  }

  lemma NotRead(text: string)
    requires text != "" && text[0] != '/'
    ensures ReadPointer(text).None?
  {
  }

  lemma Standing(text: string, opcode: Opcode)
    ensures var n := LastSlash(text);
            if opcode == TEST then StandsFor(text, opcode) == ""
            else if n.Some? then n.value < |text| && StandsFor(text, opcode) == text[n.value..] != "" else true
  {
    if LastSlash(text).Some? { LastSlashAfter(text); }
    hide LastSlash;
  }

  lemma StrayTest(document: Json, text: string, value: Option<Json>, from: Option<Json>, caseSensitive: bool)
    requires text != "" && text[0] != '/'
    ensures Act(document, TEST, text, value, from, caseSensitive) == Act(document, TEST, "", value, from, caseSensitive)
  {
    StrayResolves(document, text, caseSensitive);
    StrayResolves(document, "", caseSensitive);
    hide Resolve;
  }

  /** Which part of `apply_patch` handles an operation below the root. */
  lemma ActBelow(
    document: Json, opcode: Opcode, text: string, value: Option<Json>, from: Option<Json>, caseSensitive: bool)
    requires text != "" && opcode != TEST
    ensures Act(document, opcode, text, value, from, caseSensitive) ==
            if opcode == INVALID then Applied(3, document)
            else if opcode == MOVE || opcode == COPY then ApplyFrom(document, text, from, opcode == MOVE, caseSensitive)
            else if opcode == ADD then ApplyValue(document, text, value, caseSensitive)
            else
              var d := Detach(document, text, caseSensitive);
              if d.None? then Applied(13, document)
              else if opcode == REMOVE then Applied(0, d.value.document)
              else ApplyValue(d.value.document, text, value, caseSensitive)
  {
    hide ApplyFrom, ApplyValue, Detach;
  }

  lemma StrayFrom(document: Json, move: bool, text: string, value: Option<Json>, from: Option<Json>, caseSensitive: bool)
    requires text != "" && text[0] != '/'
    ensures var n, opcode := LastSlash(text), if move then MOVE else COPY;
            var a := Act(document, opcode, text, value, from, caseSensitive);
            if n.Some? then a == Act(document, opcode, text[n.value..], value, from, caseSensitive) else a.status != 0
  {
    hide *;
    var n, opcode := LastSlash(text), if move then MOVE else COPY;
    ActBelow(document, opcode, text, value, from, caseSensitive);
    if n.Some? {
      LastSlashAfter(text);
      ActBelow(document, opcode, text[n.value..], value, from, caseSensitive);
    }
    StrayTransfer(document, text, from, move, caseSensitive);
  }

  lemma TransferIs(document: Json, text: string, from: Option<Json>, move: bool, caseSensitive: bool)
    ensures ApplyFrom(document, text, from, move, caseSensitive) ==
            if from.None? then Applied(4, document)
            else if !from.value.String? then Applied(5, document)
            else if move then
              var d := Detach(document, from.value.text, caseSensitive);
              if d.None? then Applied(5, document) else AddAt(d.value.document, text, d.value.item, caseSensitive)
            else
              var at := Resolve(document, from.value.text, caseSensitive);
              if at.None? then Applied(5, document) else AddAt(document, text, At(document, at.value), caseSensitive)
  {
    hide Resolve, Detach, AddAt, At;
  }

  lemma StrayTransfer(document: Json, text: string, from: Option<Json>, move: bool, caseSensitive: bool)
    requires text != "" && text[0] != '/'
    ensures var a, n := ApplyFrom(document, text, from, move, caseSensitive), LastSlash(text);
            if n.Some? then a == ApplyFrom(document, text[n.value..], from, move, caseSensitive) else a.status != 0
  {
    hide *;
    var n := LastSlash(text);
    TransferIs(document, text, from, move, caseSensitive);
    if n.Some? { TransferIs(document, text[n.value..], from, move, caseSensitive); }
    if from.Some? && from.value.String? {
      if move {
        var d := Detach(document, from.value.text, caseSensitive);
        if d.Some? { StrayAdd(d.value.document, text, d.value.item, caseSensitive); }
      } else {
        var at := Resolve(document, from.value.text, caseSensitive);
        if at.Some? { StrayAdd(document, text, At(document, at.value), caseSensitive); }
      }
    }
  }

  lemma StrayValue(document: Json, text: string, value: Option<Json>, caseSensitive: bool)
    requires text != "" && text[0] != '/'
    ensures var a, n := ApplyValue(document, text, value, caseSensitive), LastSlash(text);
            if n.Some? then a == ApplyValue(document, text[n.value..], value, caseSensitive) else a.status != 0
  {
    if value.Some? { StrayAdd(document, text, value.value, caseSensitive); }
    hide LastSlash, AddAt;
  }

  lemma StrayEdit(
    document: Json, opcode: Opcode, text: string, value: Option<Json>, from: Option<Json>, caseSensitive: bool)
    requires text != "" && text[0] != '/' && opcode != TEST && opcode != MOVE && opcode != COPY
    ensures var n, a := LastSlash(text), Act(document, opcode, text, value, from, caseSensitive);
            if n.Some? then a == Act(document, opcode, text[n.value..], value, from, caseSensitive) else a.status != 0
  {
    hide *;
    var n, d := LastSlash(text), Detach(document, text, caseSensitive);
    ActBelow(document, opcode, text, value, from, caseSensitive);
    if n.Some? {
      LastSlashAfter(text);
      ActBelow(document, opcode, text[n.value..], value, from, caseSensitive);
    }
    StrayDetach(document, text, caseSensitive);
    StrayValue(document, text, value, caseSensitive);
    if d.Some? { StrayValue(d.value.document, text, value, caseSensitive); }
  }

  // ---- With a '~' that begins no escape ----

  lemma {:induction false} UnescapeFolds(token: string, caseSensitive: bool)
    ensures Unescape(Fold(token, caseSensitive)).Some? <==> Unescape(token).Some?
    decreases |token|
  {
    var f := Fold(token, caseSensitive);
    if token != "" {
      assert f[1..] == Fold(token[1..], caseSensitive);
      UnescapeFolds(token[1..], caseSensitive);
      if |token| > 1 {
        assert f[2..] == Fold(token[2..], caseSensitive);
        UnescapeFolds(token[2..], caseSensitive);
      }
    }
  }

  /** Such a token names no member of any object. */
  lemma BadEscapeNames(token: string, name: string, caseSensitive: bool)
    requires Unescape(token).None?
    ensures !Pointer.Names(token, name, caseSensitive)
  {
    UnescapeFolds(token, caseSensitive);
    UnescapeFolds(Encode(name), caseSensitive);
    UnescapeEncoded(name);
    hide Encode, Unescape, Fold;
  }

  lemma BadEscapeSteps(members: seq<Member<Json>>, token: string, caseSensitive: bool)
    requires Unescape(token).None?
    ensures Pointer.Step(Object(members), token, caseSensitive).None?
  {
    var i := FindNamed(members, token, caseSensitive);
    if i < |members| { BadEscapeNames(token, members[i].key, caseSensitive); }
    hide FindNamed, Unescape;
  }

  /** As the last token of a path it is taken as it stands, if the bad escape is the first one. */
  lemma {:induction false} BadEscapeDecodes(token: string, n: nat)
    requires n < |token| && token[n] == '~' && '~' !in token[..n]
    requires !(n + 1 < |token| && (token[n + 1] == '0' || token[n + 1] == '1'))
    ensures Unescape(token).None? && Decode(token) == token
  {
    BadFrom(token, n);
    BadBuffer(token, 0, n);
  }

  lemma {:induction false} BadFrom(token: string, n: nat)
    requires n < |token| && token[n] == '~' && '~' !in token[..n]
    requires !(n + 1 < |token| && (token[n + 1] == '0' || token[n + 1] == '1'))
    ensures Unescape(token).None?
    decreases n
  {
    if n > 0 {
      assert token[0] in token[..n];
      assert token[1..][..n - 1] == token[..n][1..];
      BadFrom(token[1..], n - 1);
    }
  }

  lemma {:induction false} BadBuffer(token: string, i: nat, n: nat)
    requires i <= n < |token| && token[n] == '~' && '~' !in token[..n]
    requires !(n + 1 < |token| && (token[n + 1] == '0' || token[n + 1] == '1'))
    ensures DecodeInPlace(token, token, i, i) == token
    decreases n - i
  {
    if i < n {
      assert token[i] in token[..n];
      BadBuffer(token, i + 1, n);
    }
  }

  // ---- What decoding in place makes of an encoded name ----

  /** The buffer when `i` characters of the name are read: a tilde in its place, a slash one place too far. */
  function Written(name: string, i: nat): (buffer: string)
    requires i <= |name|
    ensures |name| <= |buffer| == |Encode(name)|
  {
    EncodeGrows(name);
    seq(|Encode(name)|, j requires 0 <= j < |Encode(name)| =>
      if j < i && name[j] == '~' then '~' else if 0 < j <= i && name[j - 1] == '/' then '/' else Encode(name)[j])
  }

  lemma {:induction false} WrittenRuns(name: string, i: nat)
    requires i <= |name|
    ensures var e := Encode(name); DecodeInPlace(e, Written(name, i), i, ReadAt(name, i)) == Written(name, |name|)[..|name|]
    decreases |name| - i
  {
    if i < |name| {
      ReadNext(name, i);
      hide Encode;
      if name[i] == '~' {
        assert Written(name, i)[i := '~'] == Written(name, i + 1);
      } else if name[i] == '/' {
        assert Written(name, i)[i + 1 := '/'] == Written(name, i + 1);
      } else {
        assert Written(name, i) == Written(name, i + 1);
      }
      WrittenRuns(name, i + 1);
    } else {
      assert name[..|name|] == name;
      assert ReadAt(name, |name|) == |Encode(name)|;
    }
  }

  /**
   Decoding shortens an encoded name to its length, but moves none of its characters: each is a
   tilde, or a slash if the one in front of it was one, or else what stands there in the encoding.
   */
  lemma DecodeExactly(name: string, k: nat)
    requires k < |name|
    ensures |Decode(Encode(name))| == |name| <= |Encode(name)|
    ensures Decode(Encode(name))[k] ==
            if name[k] == '~' then '~' else if k > 0 && name[k - 1] == '/' then '/' else Encode(name)[k]
  {
    EncodeGrows(name);
    var e := Encode(name);
    assert Written(name, 0) == e && name[..0] == "" && ReadAt(name, 0) == 0;
    WrittenRuns(name, 0);
    hide Encode, DecodeInPlace;
  }
}
