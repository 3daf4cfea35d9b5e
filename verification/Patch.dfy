/**
 `apply_patch`: one JSON Patch operation applied to a document, with every status code,
 and the proof that it performs the operation of RFC 6902 on the document's view.
 */
module Patch {
  import opened Options
  import opened CString
  import opened Json
  import opened Pointer
  import opened Rfc6902
  import opened MoveLaws
  import opened Compare

  // ---- Splitting and decoding the path ----

  /** `strrchr(path, '/')`. */
  function LastSlash(path: string): (r: Option<nat>)
    ensures r.Some? ==> r.value < |path| && path[r.value] == '/' && '/' !in path[r.value + 1..]
    ensures r.None? <==> '/' !in path
  {
    if path == "" then None
    else if path[|path| - 1] == '/' then Some(|path| - 1)
    else
      var shorter := path[..|path| - 1];
      assert path == shorter + [path[|path| - 1]];
      var r := LastSlash(shorter);
      assert r.Some? ==> path[r.value + 1..] == shorter[r.value + 1..] + [path[|path| - 1]];
      r
  }

  /**
   `decode_pointer_inplace` on a buffer: `read` runs ahead of `write` after an escape, and
   ordinary characters are not moved.  A malformed escape leaves the buffer unterminated.
   */
  function DecodeInPlace(original: string, buffer: string, write: nat, read: nat): string
    requires write <= read && |buffer| == |original|
    requires read <= |original|
    decreases |original| - read
  {
    if read >= |original| then buffer[..write]
    else if original[read] != '~' then DecodeInPlace(original, buffer, write + 1, read + 1)
    else if read + 1 < |original| && original[read + 1] == '0' then
      DecodeInPlace(original, buffer[write := '~'], write + 1, read + 2)
    else if read + 1 < |original| && original[read + 1] == '1' then
      DecodeInPlace(original, buffer[write + 1 := '/'], write + 1, read + 2)
    else buffer
  }

  function Decode(s: string): string {
    DecodeInPlace(s, s, 0, 0)
  }

  lemma {:induction false} DecodePlainFrom(s: string, n: nat)
    requires '~' !in s && n <= |s|
    ensures DecodeInPlace(s, s, n, n) == s
    decreases |s| - n
  {
    if n < |s| {
      assert s[n] in s;
      DecodePlainFrom(s, n + 1);
    }
  }

  /** With one they may not: the encoding of "/" and of "~b" is decoded to something else. */
  lemma DecodeFails()
    ensures Decode(Encode("/")) != "/"
    ensures Decode(Encode("~b")) != "~b"
  { }

  // ---- Exactly when an encoded name is decoded to itself ----

  function EncodeChar(c: char): string {
    if c == '~' then "~0" else if c == '/' then "~1" else [c]
  }

  lemma EncodeCons(name: string)
    requires name != ""
    ensures Encode(name) == EncodeChar(name[0]) + Encode(name[1..])
  {
  }

  lemma {:induction false} EncodeSplit(name: string, i: nat)
    requires i <= |name|
    ensures Encode(name) == Encode(name[..i]) + Encode(name[i..])
    decreases i
  {
    assert Encode("") == "";
    hide Encode;
    if i == 0 {
      assert name[0..] == name && name[..0] == "";
      assert "" + Encode(name) == Encode(name);
    } else {
      var rest, front := name[1..], name[..i];
      assert rest[..i - 1] == front[1..] && rest[i - 1..] == name[i..] && front[0] == name[0];
      EncodeCons(name);
      EncodeCons(front);
      EncodeSplit(rest, i - 1);
      TextAssoc(EncodeChar(name[0]), Encode(front[1..]), Encode(name[i..]));
      hide EncodeChar;
    }
  }

  lemma TextAssoc(a: string, b: string, c: string)
    ensures (a + b) + c == a + (b + c)
  {
  }

  lemma {:induction false} EncodeGrows(name: string)
    ensures |name| <= |Encode(name)| && '/' !in Encode(name)
  {
    if name != "" { EncodeGrows(name[1..]); }
  }

  /** How far the read position is when `i` characters of the name are decoded. */
  function ReadAt(name: string, i: nat): (r: nat)
    requires i <= |name|
    ensures i <= r <= |Encode(name)|
  {
    EncodeSplit(name, i);
    EncodeGrows(name[..i]);
    |Encode(name[..i])|
  }

  lemma ReadNext(name: string, i: nat)
    requires i < |name|
    ensures var e, r := Encode(name), ReadAt(name, i);
            if name[i] == '~' then ReadAt(name, i + 1) == r + 2 && e[r] == '~' && e[r + 1] == '0'
            else if name[i] == '/' then ReadAt(name, i + 1) == r + 2 && e[r] == '~' && e[r + 1] == '1'
            else ReadAt(name, i + 1) == r + 1 && e[r] == name[i]
  {
    EncodeSplit(name, i);
    EncodeSplit(name, i + 1);
    assert name[i..][1..] == name[i + 1..];
    EncodeSplit(name[..i + 1], i);
    assert name[..i + 1][..i] == name[..i] && name[..i + 1][i..] == [name[i]];
    assert [name[i]][1..] == "";
    assert Encode([name[i]]) == (if name[i] == '~' then "~0" else if name[i] == '/' then "~1" else [name[i]]);
  }

  /** Decoding moves nothing: a character either becomes a tilde or is what the encoding has there. */
  function Landed(name: string, i: nat): string
    requires i <= |name|
  {
    EncodeGrows(name);
    seq(|Encode(name)|, j requires 0 <= j < |Encode(name)| => if j < i && name[j] == '~' then '~' else Encode(name)[j])
  }

  /** As long as there is no '/', ... */
  lemma {:induction false} DecodeRuns(name: string, i: nat, end: nat)
    requires i <= end <= |name| && '/' !in name[..end]
    ensures var e := Encode(name);
            DecodeInPlace(e, Landed(name, i), i, ReadAt(name, i)) == DecodeInPlace(e, Landed(name, end), end, ReadAt(name, end))
    decreases end - i
  {
    if i < end {
      ReadNext(name, i);
      assert name[i] in name[..end];
      hide Encode;
      if name[i] == '~' {
        assert Landed(name, i)[i := '~'] == Landed(name, i + 1);
      } else {
        assert Landed(name, i) == Landed(name, i + 1);
      }
      DecodeRuns(name, i + 1, end);
    }
  }

  /** What lies before the write position stays. */
  lemma {:induction false} DecodeKeeps(original: string, buffer: string, write: nat, read: nat)
    requires write <= read <= |original| == |buffer|
    ensures var r := DecodeInPlace(original, buffer, write, read); write <= |r| && r[..write] == buffer[..write]
    decreases |original| - read
  {
    if read < |original| {
      if original[read] != '~' {
        DecodeKeeps(original, buffer, write + 1, read + 1);
      } else if read + 1 < |original| && original[read + 1] == '0' {
        DecodeKeeps(original, buffer[write := '~'], write + 1, read + 2);
      } else if read + 1 < |original| && original[read + 1] == '1' {
        DecodeKeeps(original, buffer[write + 1 := '/'], write + 1, read + 2);
        assert buffer[write + 1 := '/'][..write] == buffer[..write];
      }
      var r := DecodeInPlace(original, buffer, write, read);
      assert write < |r| ==> r[..write + 1][..write] == r[..write];
    }
  }

  /**
   `decode_pointer_inplace` undoes the encoding of RFC 6901 exactly for names without '/'
   whose other characters stand where the encoding has the same character.
   */
  lemma DecodeInverts(name: string)
    ensures Decode(Encode(name)) == name <==> DecodesBack(name)
  {
    EncodeGrows(name);
    var e := Encode(name);
    assert Landed(name, 0) == e && name[..0] == "" && ReadAt(name, 0) == 0;
    if '/' in name {
      SlashSpoils(name);
    } else {
      assert name[..|name|] == name;
      DecodeRuns(name, 0, |name|);
      assert ReadAt(name, |name|) == |e|;
      var r := Landed(name, |name|)[..|name|];
      assert Decode(e) == r;
      hide Encode, DecodeInPlace;
      assert forall j | 0 <= j < |name| :: r[j] == if name[j] == '~' then '~' else e[j];
    }
  }

  lemma {:induction false} FirstSlash(name: string) returns (f: nat)
    requires '/' in name
    ensures f < |name| && name[f] == '/' && '/' !in name[..f]
    decreases name
  {
    if name[0] == '/' {
      f := 0;
    } else {
      f := FirstSlash(name[1..]);
      f := f + 1;
      assert name[..f] == [name[0]] + name[1..][..f - 1];
    }
  }

  lemma SlashSpoils(name: string)
    requires '/' in name
    ensures Decode(Encode(name)) != name
  {
    var e := Encode(name);
    var f := FirstSlash(name);
    EncodeGrows(name);
    assert Landed(name, 0) == e && name[..0] == "" && ReadAt(name, 0) == 0;
    DecodeRuns(name, 0, f);
    ReadNext(name, f);
    var buffer := Landed(name, f)[f + 1 := '/'];
    assert buffer[f] == e[f] && e[f] in e;
    DecodeKeeps(e, buffer, f + 1, ReadAt(name, f + 1));
    var r := DecodeInPlace(e, buffer, f + 1, ReadAt(name, f + 1));
    assert r[..f + 1][f] == buffer[..f + 1][f];
  }

  // ---- detach_path ----

  datatype Detached = Detached(document: Json, item: Json)

  /**
   Removes a child; members are looked up ignoring case whatever the mode.  What decoding
   may have put behind a '/' does not belong to an index.
   */
  function DetachChild(parent: Json, child: string): Option<Detached> {
    match parent
    case Array(items) =>
      var index := DecodeIndex(Token(child));
      if index.Some? && index.value < |items| then
        Some(Detached(Array(items[..index.value] + items[index.value + 1..]), items[index.value]))
      else None
    case Object(members) =>
      var i := FindMember(members, child, false);
      if i < |members| then Some(Detached(Object(members[..i] + members[i + 1..]), members[i].value)) else None
    case _ => None
  }

  function Detach(document: Json, path: string, caseSensitive: bool): Option<Detached> {
    var slash := LastSlash(path);
    if slash.None? then None
    else
      var parent := Resolve(document, path[..slash.value], caseSensitive);
      var child := Decode(path[slash.value + 1..]);
      if parent.None? then None
      else
        var d := DetachChild(At(document, parent.value), child);
        if d.None? then None
        else Some(Detached(Put(document, parent.value, d.value.document), d.value.item))
  }

  // ---- Adding a value at a path ----

  datatype Applied = Applied(status: int, document: Json)

  datatype ChildAdded = Refused(status: int) | Accepted(parent: Json)

  /** Insert or append in an array, or delete the old member and append the new one. */
  function AddToParent(parent: Json, child: string, value: Json, caseSensitive: bool): ChildAdded {
    match parent
    case Array(items) =>
      if child == "-" then Accepted(Array(items + [value]))
      else
        var index := DecodeIndex(Token(child));
        if index.None? then Refused(11)
        else if index.value > |items| then Refused(10)
        else Accepted(Array(items[..index.value] + [value] + items[index.value..]))
    case Object(members) =>
      var i := FindMember(members, child, caseSensitive);
      var rest := if i < |members| then members[..i] + members[i + 1..] else members;
      Accepted(Object(rest + [Member(child, value)]))
    case _ => Refused(9)
  }

  function AddAt(document: Json, path: string, value: Json, caseSensitive: bool): Applied {
    var slash := LastSlash(path);
    if slash.None? then Applied(9, document)
    else
      var parent := Resolve(document, path[..slash.value], caseSensitive);
      if parent.None? then Applied(9, document)
      else
        var r := AddToParent(At(document, parent.value), Decode(path[slash.value + 1..]), value, caseSensitive);
        if r.Refused? then Applied(r.status, document)
        else Applied(0, Put(document, parent.value, r.parent))
  }

  // ---- apply_patch ----

  /** `get_object_item` on a patch. */
  function Field(patch: Json, name: string, caseSensitive: bool): Option<Json> {
    if patch.Object? then
      var i := FindMember(patch.members, name, caseSensitive);
      if i < |patch.members| then Some(patch.members[i].value) else None
    else None
  }

  datatype Opcode = INVALID | ADD | REMOVE | REPLACE | MOVE | COPY | TEST

  function DecodeOperation(patch: Json, caseSensitive: bool): Opcode {
    var operation := Field(patch, "op", caseSensitive);
    if operation.None? || !operation.value.String? then INVALID
    else
      var name := operation.value.text;
      if name == "add" then ADD
      else if name == "remove" then REMOVE
      else if name == "replace" then REPLACE
      else if name == "move" then MOVE
      else if name == "copy" then COPY
      else if name == "test" then TEST
      else INVALID
  }

  function ApplyTest(document: Json, path: string, value: Option<Json>, caseSensitive: bool): Applied {
    var at := Resolve(document, path, caseSensitive);
    if at.None? || value.None? then Applied(1, document)
    else
      var r := CompareJson(At(document, at.value), value.value, caseSensitive);
      Applied(if r.equal then 0 else 1, Put(document, at.value, r.a))
  }

  /** "add", and "replace" once the old value is gone. */
  function ApplyValue(document: Json, path: string, value: Option<Json>, caseSensitive: bool): Applied {
    if value.None? then Applied(7, document) else AddAt(document, path, value.value, caseSensitive)
  }

  /** "move" and "copy". */
  function ApplyFrom(document: Json, path: string, from: Option<Json>, move: bool, caseSensitive: bool): Applied {
    if from.None? then Applied(4, document)
    else if !from.value.String? then Applied(5, document)
    else if move then
      var d := Detach(document, from.value.text, caseSensitive);
      if d.None? then Applied(5, document)
      else AddAt(d.value.document, path, d.value.item, caseSensitive)
    else
      var at := Resolve(document, from.value.text, caseSensitive);
      if at.None? then Applied(5, document)
      else AddAt(document, path, At(document, at.value), caseSensitive)
  }

  /** What is done for an operation code, once the path is known to be a string. */
  function Act(
    document: Json, opcode: Opcode, pointer: string, value: Option<Json>, from: Option<Json>, caseSensitive: bool): Applied
  {
    if opcode == INVALID then Applied(3, document)
    else if opcode == TEST then ApplyTest(document, pointer, value, caseSensitive)
    else if pointer == "" && opcode == REMOVE then Applied(0, Invalid)
    else if pointer == "" && (opcode == REPLACE || opcode == ADD) then
      if value.None? then Applied(7, document) else Applied(0, value.value)
    else if opcode == REMOVE || opcode == REPLACE then
      var d := Detach(document, pointer, caseSensitive);
      if d.None? then Applied(13, document)
      else if opcode == REMOVE then Applied(0, d.value.document)
      else ApplyValue(d.value.document, pointer, value, caseSensitive)
    else if opcode == MOVE || opcode == COPY then ApplyFrom(document, pointer, from, opcode == MOVE, caseSensitive)
    else ApplyValue(document, pointer, value, caseSensitive)
  }

  /** Status 0 is success; on a failure the document may already have lost the old value. */
  function ApplyPatch(document: Json, patch: Json, caseSensitive: bool): Applied {
    var path := Field(patch, "path", caseSensitive);
    if path.None? || !path.value.String? then Applied(2, document)
    else
      Act(document, DecodeOperation(patch, caseSensitive), path.value.text,
          Field(patch, "value", caseSensitive), Field(patch, "from", caseSensitive), caseSensitive)
  }

  /** `cJSONUtils_ApplyPatches`: stops at the first operation that fails. */
  function ApplyAll(document: Json, patches: seq<Json>, caseSensitive: bool): Applied
    decreases |patches|
  {
    if patches == [] then Applied(0, document)
    else
      var r := ApplyPatch(document, patches[0], caseSensitive);
      if r.status != 0 then r else ApplyAll(r.document, patches[1..], caseSensitive)
  }

  function ApplyPatches(document: Json, patches: Json, caseSensitive: bool): Applied {
    if patches.Array? then ApplyAll(document, patches.items, caseSensitive) else Applied(1, document)
  }

  // ---- Paths as text ----

  /** The tokens of a path, encoded by section 3 of RFC 6901. */
  function Escapes(path: seq<string>): (r: seq<string>)
    ensures |r| == |path|
  {
    seq(|path|, i requires 0 <= i < |path| => Encode(path[i]))
  }

  function PathText(path: seq<string>): string {
    Join(Escapes(path))
  }

  /** Names that `decode_pointer_inplace` gets back from their encoding. */
  predicate DecodesBack(name: string) {
    '/' !in name && forall j | 0 <= j < |name| :: name[j] == '~' || (j < |Encode(name)| && Encode(name)[j] == name[j])
  }

  /** The last token of a path is decoded, the others are compared as they are. */
  predicate Writable(path: seq<string>) {
    path == [] || DecodesBack(Last(path))
  }

  /** Tokens that need no escaping. */
  predicate PlainPath(path: seq<string>) {
    forall i | 0 <= i < |path| :: Plain(path[i])
  }

  lemma PlainWritable(path: seq<string>)
    requires PlainPath(path)
    ensures Writable(path) && PathText(path) == Join(path)
  {
    forall i | 0 <= i < |path| ensures Escapes(path)[i] == path[i] {
      EncodePlain(path[i]);
    }
    assert Escapes(path) == path;
    if path != [] { EncodePlain(Last(path)); }
  }

  lemma {:induction false} LastSlashOf(front: string, t: string)
    requires '/' !in t
    ensures LastSlash(front + "/" + t) == Some(|front|)
  {
    var path := front + "/" + t;
    if t == "" {
      assert path == front + "/";
    } else {
      var shorter := t[..|t| - 1];
      assert path[|path| - 1] == t[|t| - 1] && t[|t| - 1] in t;
      assert path[..|path| - 1] == front + "/" + shorter;
      LastSlashOf(front, shorter);
    }
  }

  lemma SplitText(path: seq<string>)
    requires path != [] && DecodesBack(Last(path))
    ensures var text, front := PathText(path), |PathText(DropLast(path))|;
            && LastSlash(text) == Some(front)
            && text[..front] == PathText(DropLast(path))
            && Decode(text[front + 1..]) == Last(path)
  {
    var front, t := DropLast(path), Encode(Last(path));
    assert Escapes(path) == Escapes(front) + [t];
    JoinAppend(Escapes(front), t);
    EncodeGrows(Last(path));
    LastSlashOf(PathText(front), t);
    assert (PathText(front) + "/" + t)[|PathText(front)| + 1..] == t;
    DecodeInverts(Last(path));
  }

  lemma ResolveText(j: Json, path: seq<string>, caseSensitive: bool)
    requires path != []
    ensures Resolve(j, PathText(path), caseSensitive) ==
            var child := Step(j, Encode(path[0]), caseSensitive);
            if child.None? then None
            else
              var below := Resolve(ChildAt(j, child.value), PathText(path[1..]), caseSensitive);
              if below.None? then None else Some([child.value] + below.value)
  {
    EncodeGrows(path[0]);
    assert Escapes(path)[1..] == Escapes(path[1..]);
    ResolveJoin(j, Escapes(path), caseSensitive);
  }

  lemma TextEmpty(path: seq<string>)
    ensures PathText(path) == "" <==> path == []
  {
  }

  // ---- Refinement: tokens instead of text, views instead of trees ----

  /** Every token that meets an array is one whose index is read as RFC 6901 reads it. */
  predicate Proper(v: Value, path: seq<string>, caseSensitive: bool)
    decreases |path|
  {
    path == [] ||
    ((v.Arr? ==> RightIndex(Encode(path[0]))) &&
     var c := Child(v, path[0], caseSensitive);
     c.Some? ==> Proper(c.value, path[1..], caseSensitive))
  }

  /** Arrays that `size_t` can index. */
  predicate Indexable(j: Json) {
    match j
    case Array(items) => |items| < SIZE_MODULUS && forall i | 0 <= i < |items| :: Indexable(items[i])
    case Object(members) => forall i | 0 <= i < |members| :: Indexable(members[i].value)
    case _ => true
  }

  /** On such documents a wrong token fails by the RFC; others need right tokens. */
  predicate Readable(document: Json, path: seq<string>, caseSensitive: bool) {
    Indexable(document) || Proper(View(document, caseSensitive), path, caseSensitive)
  }

  lemma StepRefines(j: Json, name: string, caseSensitive: bool)
    requires Distinct(j, caseSensitive) && (j.Array? ==> RightIndex(Encode(name)))
    ensures var s, c := Step(j, Encode(name), caseSensitive), Child(View(j, caseSensitive), name, caseSensitive);
            s.Some? == c.Some? && (s.Some? ==> Means(ChildAt(j, s.value), c.value, caseSensitive))
  {
    if j.Object? {
      FindNamedIsFindMember(j.members, name, caseSensitive);
      FindIsLookup(j.members, name, caseSensitive);
    } else {
      DecodeIndexRight(Encode(name));
      EncodedIndex(name);
    }
    hide Encode, Fold, DecodeIndex, RfcIndex;
  }

  lemma WithChildRefines(j: Json, name: string, x: Json, v: Value, caseSensitive: bool)
    requires Distinct(j, caseSensitive) && (j.Array? ==> RightIndex(Encode(name))) && Means(x, v, caseSensitive)
    requires Step(j, Encode(name), caseSensitive).Some? && Child(View(j, caseSensitive), name, caseSensitive).Some?
    ensures Means(WithChild(j, Step(j, Encode(name), caseSensitive).value, x),
                  SetChild(View(j, caseSensitive), name, v, caseSensitive), caseSensitive)
  {
    var i := Step(j, Encode(name), caseSensitive).value;
    if j.Object? {
      FindNamedIsFindMember(j.members, name, caseSensitive);
      MemberReplaced(j.members, i, x, v, caseSensitive);
    } else {
      DecodeIndexRight(Encode(name));
      EncodedIndex(name);
      ItemReplaced(j.items, i, x, v, caseSensitive);
    }
    hide Encode, DecodeIndex, RfcIndex, ViewItems, ViewMembers, Distinct, RightIndex;
  }

  lemma MemberReplaced(members: seq<Member<Json>>, i: nat, x: Json, v: Value, caseSensitive: bool)
    requires Distinct(Object(members), caseSensitive) && i < |members| && Means(x, v, caseSensitive)
    ensures Means(Object(members[i := Member(members[i].key, x)]),
                  Obj(ViewMembers(members, caseSensitive)[Fold(members[i].key, caseSensitive) := v]), caseSensitive)
  {
    ViewReplace(members, i, x, caseSensitive);
    hide Fold, ViewMembers, DistinctKeys;
    assert DistinctValues(members[i := Member(members[i].key, x)], caseSensitive);
  }

  lemma ItemReplaced(items: seq<Json>, i: nat, x: Json, v: Value, caseSensitive: bool)
    requires DistinctItems(items, caseSensitive) && i < |items| && Means(x, v, caseSensitive)
    ensures Means(Array(items[i := x]), Arr(ViewItems(items, caseSensitive)[i := v]), caseSensitive)
  {
    assert ViewItems(items[i := x], caseSensitive) == ViewItems(items, caseSensitive)[i := v];
  }

  /** The node that a pointer leads to is the one its tokens lead to in the view, whatever the names. */
  lemma {:induction false} ResolveRefines(j: Json, path: seq<string>, caseSensitive: bool)
    requires Distinct(j, caseSensitive) && Proper(View(j, caseSensitive), path, caseSensitive)
    ensures var r := Resolve(j, PathText(path), caseSensitive);
            var g := Get(View(j, caseSensitive), path, caseSensitive);
            r.Some? == g.Some? && (r.Some? ==> Means(At(j, r.value), g.value, caseSensitive))
    decreases |path|
  {
    hide PathText, Encode, Child;
    if path != [] {
      ResolveText(j, path, caseSensitive);
      StepRefines(j, path[0], caseSensitive);
      var s := Step(j, Encode(path[0]), caseSensitive);
      if s.Some? { ResolveRefines(ChildAt(j, s.value), path[1..], caseSensitive); }
    } else {
      TextEmpty(path);
    }
  }

  /** Overwriting that node is `Set` on the view. */
  lemma {:induction false} PutRefines(j: Json, path: seq<string>, x: Json, v: Value, caseSensitive: bool)
    requires Distinct(j, caseSensitive) && Proper(View(j, caseSensitive), path, caseSensitive) && Means(x, v, caseSensitive)
    requires Resolve(j, PathText(path), caseSensitive).Some? && Get(View(j, caseSensitive), path, caseSensitive).Some?
    ensures Means(Put(j, Resolve(j, PathText(path), caseSensitive).value, x),
                  Set(View(j, caseSensitive), path, v, caseSensitive), caseSensitive)
    decreases |path|
  {
    hide PathText, Encode, Child, SetChild;
    if path != [] {
      ResolveText(j, path, caseSensitive);
      StepRefines(j, path[0], caseSensitive);
      var i := Step(j, Encode(path[0]), caseSensitive).value;
      PutRefines(ChildAt(j, i), path[1..], x, v, caseSensitive);
      var below := Put(ChildAt(j, i), Resolve(ChildAt(j, i), PathText(path[1..]), caseSensitive).value, x);
      WithChildRefines(j, path[0], below, View(below, caseSensitive), caseSensitive);
    } else {
      TextEmpty(path);
    }
  }

  /** A token that is no index leads the RFC nowhere. */
  lemma {:induction false} ImproperFails(j: Json, path: seq<string>, caseSensitive: bool)
    requires Distinct(j, caseSensitive) && Indexable(j) && !Proper(View(j, caseSensitive), path, caseSensitive)
    ensures path != []
    ensures Get(View(j, caseSensitive), path, caseSensitive).None?
    decreases |path|
  {
    var v := View(j, caseSensitive);
    if v.Arr? && !RightIndex(Encode(path[0])) {
      WrongIndex(Encode(path[0]));
      EncodedIndex(path[0]);
      hide Encode, RfcIndex;
    } else {
      StepRefines(j, path[0], caseSensitive);
      hide Child, Encode;
      var s := Step(j, Encode(path[0]), caseSensitive);
      assert Indexable(ChildAt(j, s.value));
      ImproperFails(ChildAt(j, s.value), path[1..], caseSensitive);
    }
  }

  lemma {:induction false} ProperSplit(v: Value, front: seq<string>, t: string, caseSensitive: bool)
    ensures Proper(v, front + [t], caseSensitive) <==>
            && Proper(v, front, caseSensitive)
            && var p := Get(v, front, caseSensitive); p.Some? && p.value.Arr? ==> RightIndex(Encode(t))
    decreases |front|
  {
    hide RightIndex, Encode, Child;
    if front == [] {
      assert front + [t] == [t];
    } else {
      assert (front + [t])[1..] == front[1..] + [t];
      var c := Child(v, front[0], caseSensitive);
      if c.Some? { ProperSplit(c.value, front[1..], t, caseSensitive); }
    }
  }

  /** What lies at a location has no say in whether the way there is proper. */
  lemma {:induction false} ProperSet(v: Value, path: seq<string>, x: Value, caseSensitive: bool)
    requires Get(v, path, caseSensitive).Some?
    ensures Get(Set(v, path, x, caseSensitive), path, caseSensitive) == Some(x)
    ensures Proper(Set(v, path, x, caseSensitive), path, caseSensitive) <==> Proper(v, path, caseSensitive)
    decreases |path|
  {
    GetSet(v, path, x, caseSensitive);
    if path != [] {
      var c := Child(v, path[0], caseSensitive).value;
      var below := Set(c, path[1..], x, caseSensitive);
      ProperSet(c, path[1..], x, caseSensitive);
      SetChildTwice(v, path[0], below, below, caseSensitive);
      assert SetChild(v, path[0], below, caseSensitive).Arr? <==> v.Arr?;
      hide Child, SetChild, RightIndex, Encode;
    }
  }

  /** The parent of a path, and the token below it: what the RFC needs, and what the code reads. */
  lemma ParentRefines(document: Json, path: seq<string>, caseSensitive: bool)
    requires Distinct(document, caseSensitive) && Readable(document, path, caseSensitive) && path != []
    ensures var v, front := View(document, caseSensitive), DropLast(path);
            var at, g := Resolve(document, PathText(front), caseSensitive), Get(v, front, caseSensitive);
            if Proper(v, front, caseSensitive) then
              && at.Some? == g.Some? && (at.Some? ==> Means(At(document, at.value), g.value, caseSensitive))
              && (Proper(v, path, caseSensitive) <==> (g.Some? && g.value.Arr? ==> RightIndex(Encode(Last(path)))))
            else g.None? && !Proper(v, path, caseSensitive)
  {
    var v, front := View(document, caseSensitive), DropLast(path);
    assert path == front + [Last(path)];
    ProperSplit(v, front, Last(path), caseSensitive);
    if Proper(v, front, caseSensitive) {
      ResolveRefines(document, front, caseSensitive);
    } else {
      ImproperFails(document, front, caseSensitive);
    }
    hide View, Get, Proper, Resolve;
  }

  lemma DetachAtParent(document: Json, path: seq<string>, caseSensitive: bool)
    requires path != [] && Writable(path)
    ensures var at := Resolve(document, PathText(DropLast(path)), caseSensitive);
            Detach(document, PathText(path), caseSensitive) ==
            if at.None? then None
            else
              var d := DetachChild(At(document, at.value), Last(path));
              if d.None? then None
              else Some(Detached(Put(document, at.value, d.value.document), d.value.item))
  {
    SplitText(path);
  }

  lemma AddAtParent(document: Json, path: seq<string>, x: Json, caseSensitive: bool)
    requires path != [] && Writable(path)
    ensures var at := Resolve(document, PathText(DropLast(path)), caseSensitive);
            AddAt(document, PathText(path), x, caseSensitive) ==
            if at.None? then Applied(9, document)
            else
              var r := AddToParent(At(document, at.value), Last(path), x, caseSensitive);
              if r.Refused? then Applied(r.status, document)
              else Applied(0, Put(document, at.value, r.parent))
  {
    SplitText(path);
  }

  // ---- detach_path ----

  /** `detach_path` always looks members up ignoring case; here that finds what the mode asks for. */
  predicate SameFind(parent: Json, name: string, caseSensitive: bool) {
    parent.Object? ==> FindMember(parent.members, name, false) == FindMember(parent.members, name, caseSensitive)
  }

  predicate FindsSame(document: Json, path: seq<string>, caseSensitive: bool) {
    path == [] ||
    var at := Resolve(document, PathText(DropLast(path)), caseSensitive);
    at.Some? ==> SameFind(At(document, at.value), Last(path), caseSensitive)
  }

  lemma DistinctWithout(items: seq<Json>, i: nat, caseSensitive: bool)
    requires DistinctItems(items, caseSensitive) && i < |items|
    ensures DistinctItems(items[..i] + items[i + 1..], caseSensitive)
  { }

  lemma DetachFromArray(items: seq<Json>, i: nat, caseSensitive: bool)
    requires DistinctItems(items, caseSensitive) && i < |items|
    ensures Means(Array(items[..i] + items[i + 1..]),
                  Arr(ViewItems(items, caseSensitive)[..i] + ViewItems(items, caseSensitive)[i + 1..]), caseSensitive)
  {
    DistinctWithout(items, i, caseSensitive);
    ViewItemsRemove(items, i, caseSensitive);
    var rest := items[..i] + items[i + 1..];
    assert View(Array(rest), caseSensitive) == Arr(ViewItems(rest, caseSensitive)) && Distinct(Array(rest), caseSensitive);
    hide DistinctItems, ViewItems, View, Distinct;
  }

  lemma DetachChildArray(items: seq<Json>, name: string, caseSensitive: bool)
    requires DistinctItems(items, caseSensitive) && DecodesBack(name)
    ensures var d, vs := DetachChild(Array(items), name), ViewItems(items, caseSensitive);
            var r := RemoveChild(Arr(vs), name, caseSensitive);
            RightIndex(Encode(name)) ==>
              && d.Some? == r.Some?
              && (d.Some? ==>
                    && Means(d.value.document, r.value, caseSensitive)
                    && Means(d.value.item, Child(Arr(vs), name, caseSensitive).value, caseSensitive))
  {
    hide Token, RfcIndex, Encode, DecodeIndex, RightIndex, View, ViewItems, Distinct;
    TokenOfAll(name);
    EncodedIndex(name);
    DecodeIndexRight(name);
    var index := DecodeIndex(name);
    if index.Some? && index.value < |items| {
      DetachFromArray(items, index.value, caseSensitive);
      assert Distinct(items[index.value], caseSensitive);
    }
  }

  lemma DetachChildObject(members: seq<Member<Json>>, name: string, caseSensitive: bool)
    requires Distinct(Object(members), caseSensitive)
    ensures var d, vm := DetachChild(Object(members), name), ViewMembers(members, caseSensitive);
            var r := RemoveChild(Obj(vm), name, caseSensitive);
            && (d.None? ==> r.None?)
            && (d.Some? ==>
                  if SameFind(Object(members), name, caseSensitive) then
                    && r.Some? && Means(d.value.document, r.value, caseSensitive)
                    && Means(d.value.item, Child(Obj(vm), name, caseSensitive).value, caseSensitive)
                  else WrongRemoved(d.value.document, vm, name, caseSensitive))
  {
    WithoutKey(members, name, caseSensitive);
    var i, k := FindMember(members, name, false), FindMember(members, name, caseSensitive);
    if k < |members| {
      assert Fold(members[k].key, false) == Fold(name, false);
      assert i <= k;
    }
    if i < |members| && i != k {
      RemovesWrong(members, name, i, caseSensitive);
    }
    hide Distinct, View, ViewMembers, FindMember, Fold;
  }

  /** Another member than the one that was named is gone. */
  ghost predicate WrongRemoved(after: Json, vm: map<string, Value>, name: string, caseSensitive: bool) {
    exists key :: key != Fold(name, caseSensitive) && key in vm && Means(after, Obj(vm - {key}), caseSensitive)
  }

  lemma RemovesWrong(members: seq<Member<Json>>, name: string, i: nat, caseSensitive: bool)
    requires Distinct(Object(members), caseSensitive) && i < |members|
    requires i == FindMember(members, name, false) && i != FindMember(members, name, caseSensitive)
    requires FindMember(members, name, caseSensitive) < |members| ==> i < FindMember(members, name, caseSensitive)
    ensures WrongRemoved(Object(members[..i] + members[i + 1..]), ViewMembers(members, caseSensitive), name, caseSensitive)
  {
    var key := members[i].key;
    assert Fold(key, caseSensitive) != Fold(name, caseSensitive);
    assert FindMember(members, key, caseSensitive) == i;
    WithoutKey(members, key, caseSensitive);
    hide Distinct, View, ViewMembers, FindMember, Fold;
  }

  /** The document with the item detached, and nothing else changed, means what the RFC says. */
  ghost predicate Removed(document: Json, path: seq<string>, d: Detached, caseSensitive: bool)
    requires path != []
  {
    var w := Remove(View(document, caseSensitive), path, caseSensitive);
    w.Some? && Means(d.document, w.value, caseSensitive)
  }

  /**
   `detach_path` refuses only what the RFC refuses.  What it does is what the RFC says if
   and only if the tokens that meet arrays are right and looking the member up ignoring case
   finds the member that was meant.
   */
  lemma DetachRefines(document: Json, path: seq<string>, caseSensitive: bool)
    requires Distinct(document, caseSensitive) && Readable(document, path, caseSensitive) && path != [] && Writable(path)
    ensures var d, v := Detach(document, PathText(path), caseSensitive), View(document, caseSensitive);
            && (d.None? ==> Remove(v, path, caseSensitive).None?)
            && (d.Some? ==>
                  (Removed(document, path, d.value, caseSensitive) <==>
                   Proper(v, path, caseSensitive) && FindsSame(document, path, caseSensitive)))
            && (d.Some? && Removed(document, path, d.value, caseSensitive) ==>
                  var g := Get(v, path, caseSensitive); g.Some? && Means(d.value.item, g.value, caseSensitive))
  {
    hide Distinct, View, Resolve, Put, Detach, At, Height, DetachChild, Set, PathText, Encode, DecodesBack, RightIndex;
    var front, t, v := DropLast(path), Last(path), View(document, caseSensitive);
    ParentRefines(document, path, caseSensitive);
    DetachAtParent(document, path, caseSensitive);
    assert path == front + [t];
    GetAppend(v, front, t, caseSensitive);
    var at := Resolve(document, PathText(front), caseSensitive);
    if at.Some? && Proper(v, front, caseSensitive) {
      DetachBelow(document, path, at.value, caseSensitive);
    }
    hide Get, Proper;
  }

  lemma DetachBelow(document: Json, path: seq<string>, at: Position, caseSensitive: bool)
    requires Distinct(document, caseSensitive) && Readable(document, path, caseSensitive) && path != [] && Writable(path)
    requires var v, front := View(document, caseSensitive), DropLast(path);
             && Resolve(document, PathText(front), caseSensitive) == Some(at) && Proper(v, front, caseSensitive)
             && var g := Get(v, front, caseSensitive); g.Some? && Means(At(document, at), g.value, caseSensitive)
    requires var v, front := View(document, caseSensitive), DropLast(path);
             var g := Get(v, front, caseSensitive).value;
             Proper(v, path, caseSensitive) <==> (g.Arr? ==> RightIndex(Encode(Last(path))))
    ensures var v := View(document, caseSensitive);
            var d := DetachChild(At(document, at), Last(path));
            var g := Get(v, DropLast(path), caseSensitive).value;
            && (d.None? ==> Remove(v, path, caseSensitive).None?)
            && (d.Some? ==>
                  var whole := Detached(Put(document, at, d.value.document), d.value.item);
                  && (Removed(document, path, whole, caseSensitive) <==>
                      Proper(v, path, caseSensitive) && SameFind(At(document, at), Last(path), caseSensitive))
                  && (Removed(document, path, whole, caseSensitive) ==>
                        var c := Child(g, Last(path), caseSensitive);
                        c.Some? && Means(d.value.item, c.value, caseSensitive)))
  {
    hide Distinct, Resolve, Put, Detach, At, Height, PathText, Encode, DecodesBack, Get, Set, Proper, Indexable, RightIndex;
    var v, front, t := View(document, caseSensitive), DropLast(path), Last(path);
    var p, g := At(document, at), Get(v, front, caseSensitive).value;
    if Indexable(document) { IndexableAt(document, at); }
    ArrayView(p, caseSensitive);
    DetachOne(p, t, caseSensitive);
    var d := DetachChild(p, t);
    if d.Some? {
      DetachedDistinct(p, t, caseSensitive);
      var after := d.value.document;
      PutRefines(document, front, after, View(after, caseSensitive), caseSensitive);
      GetSet(v, front, View(after, caseSensitive), caseSensitive);
      var w := RemoveChild(g, t, caseSensitive);
      if w.Some? { GetSet(v, front, w.value, caseSensitive); }
    }
    hide View, DetachChild, RemoveChild, Child, SameFind;
  }

  lemma DetachedDistinct(parent: Json, name: string, caseSensitive: bool)
    requires Distinct(parent, caseSensitive) && DetachChild(parent, name).Some?
    ensures Distinct(DetachChild(parent, name).value.document, caseSensitive)
  {
    if parent.Array? {
      DistinctWithout(parent.items, DecodeIndex(Token(name)).value, caseSensitive);
    } else {
      var i := FindMember(parent.members, name, false);
      DistinctRemove(parent.members, i, caseSensitive);
      ValuesRemove(parent.members, i, caseSensitive);
    }
    hide DecodeIndex, Token, FindMember, Fold;
  }

  /** One parent: taking the child out is what the RFC says, exactly under the two conditions. */
  lemma DetachOne(parent: Json, name: string, caseSensitive: bool)
    requires Distinct(parent, caseSensitive) && DecodesBack(name)
    requires Indexable(parent) || (parent.Array? ==> RightIndex(Encode(name)))
    ensures var d, v := DetachChild(parent, name), View(parent, caseSensitive);
            var r := RemoveChild(v, name, caseSensitive);
            && (d.None? ==> r.None?)
            && (d.Some? ==>
                  ((r.Some? && View(d.value.document, caseSensitive) == r.value) <==>
                   (v.Arr? ==> RightIndex(Encode(name))) && SameFind(parent, name, caseSensitive)))
            && (d.Some? && r.Some? && View(d.value.document, caseSensitive) == r.value ==>
                  Means(d.value.item, Child(v, name, caseSensitive).value, caseSensitive))
  {
    var d, v := DetachChild(parent, name), View(parent, caseSensitive);
    if parent.Array? {
      DetachChildArray(parent.items, name, caseSensitive);
      if !RightIndex(Encode(name)) {
        WrongIndex(Encode(name));
        EncodedIndex(name);
      }
    }
    if parent.Object? {
      DetachChildObject(parent.members, name, caseSensitive);
      if d.Some? && !SameFind(parent, name, caseSensitive) {
        var vm := ViewMembers(parent.members, caseSensitive);
        var key :| key != Fold(name, caseSensitive) && key in vm && Means(d.value.document, Obj(vm - {key}), caseSensitive);
        assert key !in vm - {key} && key in vm - {Fold(name, caseSensitive)};
      }
    }
    hide Distinct, Encode, RfcIndex, FindMember, ViewMembers, ViewItems, Fold;
  }

  lemma {:induction false} IndexableAt(j: Json, at: Position)
    requires Indexable(j) && Exists(j, at)
    ensures Indexable(At(j, at))
    decreases |at|
  {
    if at != [] { IndexableAt(ChildAt(j, at[0]), at[1..]); }
  }

  lemma {:induction false} IndexablePut(j: Json, at: Position, x: Json)
    requires Indexable(j) && Exists(j, at) && Indexable(x)
    ensures Indexable(Put(j, at, x))
    decreases |at|
  {
    if at != [] { IndexablePut(ChildAt(j, at[0]), at[1..], x); }
  }

  lemma IndexableDetach(document: Json, path: string, caseSensitive: bool)
    requires Indexable(document) && Detach(document, path, caseSensitive).Some?
    ensures Indexable(Detach(document, path, caseSensitive).value.document)
  {
    hide Resolve, DecodeIndex, Token, FindMember, Decode;
    var slash := LastSlash(path).value;
    var at := Resolve(document, path[..slash], caseSensitive).value;
    var d := DetachChild(At(document, at), Decode(path[slash + 1..])).value;
    IndexableAt(document, at);
    assert Indexable(d.document);
    IndexablePut(document, at, d.document);
  }

  // ---- Adding ----

  lemma InsertRefines(items: seq<Json>, i: nat, x: Json, v: Value, caseSensitive: bool)
    requires DistinctItems(items, caseSensitive) && i <= |items| && Means(x, v, caseSensitive)
    ensures var vs := ViewItems(items, caseSensitive);
            Means(Array(items[..i] + [x] + items[i..]), Arr(vs[..i] + [v] + vs[i..]), caseSensitive)
  {
    ViewItemsInsert(items, i, x, caseSensitive);
    DistinctInsert(items, i, x, caseSensitive);
  }

  lemma DistinctInsert(items: seq<Json>, i: nat, x: Json, caseSensitive: bool)
    requires DistinctItems(items, caseSensitive) && i <= |items| && Distinct(x, caseSensitive)
    ensures DistinctItems(items[..i] + [x] + items[i..], caseSensitive)
  {
  }

  lemma AddToObject(members: seq<Member<Json>>, name: string, x: Json, caseSensitive: bool)
    requires Distinct(Object(members), caseSensitive) && Distinct(x, caseSensitive)
    ensures var r := AddToParent(Object(members), name, x, caseSensitive);
            && r.Accepted?
            && Means(r.parent, Obj(ViewMembers(members, caseSensitive)[Fold(name, caseSensitive) := View(x, caseSensitive)]),
                     caseSensitive)
  {
    hide FindMember, ViewMembers, Fold, Distinct, View;
    WithMember(members, name, x, caseSensitive);
  }

  lemma AppendRefines(items: seq<Json>, x: Json, caseSensitive: bool)
    requires DistinctItems(items, caseSensitive) && Distinct(x, caseSensitive)
    ensures Means(Array(items + [x]), Arr(ViewItems(items, caseSensitive) + [View(x, caseSensitive)]), caseSensitive)
  {
    hide View, Distinct, DistinctItems, ViewItems;
    var n, vs := |items|, ViewItems(items, caseSensitive);
    InsertRefines(items, n, x, View(x, caseSensitive), caseSensitive);
    assert items[..n] + [x] + items[n..] == items + [x];
    assert vs[..n] + [View(x, caseSensitive)] + vs[n..] == vs + [View(x, caseSensitive)];
  }

  lemma AddToArray(items: seq<Json>, name: string, x: Json, caseSensitive: bool)
    requires DistinctItems(items, caseSensitive) && Distinct(x, caseSensitive) && DecodesBack(name)
    ensures var r := AddToParent(Array(items), name, x, caseSensitive);
            var a := AddChild(Arr(ViewItems(items, caseSensitive)), name, View(x, caseSensitive), caseSensitive);
            RightIndex(Encode(name)) ==>
              && r.Accepted? == a.Some?
              && (r.Refused? ==> r.status != 0)
              && (r.Accepted? ==> Means(r.parent, a.value, caseSensitive))
  {
    hide Token, View, ViewItems, Distinct, DistinctItems, Encode, RfcIndex;
    TokenOfAll(name);
    EncodedIndex(name);
    DecodeIndexRight(name);
    hide DecodeIndex, RightIndex;
    if name == "-" {
      AppendRefines(items, x, caseSensitive);
    } else {
      var index := DecodeIndex(name);
      if index.Some? && index.value <= |items| { InsertRefines(items, index.value, x, View(x, caseSensitive), caseSensitive); }
    }
  }

  lemma AddToParentRefines(parent: Json, name: string, x: Json, caseSensitive: bool)
    requires Distinct(parent, caseSensitive) && Distinct(x, caseSensitive) && DecodesBack(name)
    requires Indexable(parent) || (parent.Array? ==> RightIndex(Encode(name)))
    ensures var r := AddToParent(parent, name, x, caseSensitive);
            var a := AddChild(View(parent, caseSensitive), name, View(x, caseSensitive), caseSensitive);
            && (r.Refused? ==> r.status != 0)
            && (a.Some? <==> r.Accepted? && (parent.Array? ==> RightIndex(Encode(name))))
            && (a.Some? ==> Means(r.parent, a.value, caseSensitive))
  {
    if parent.Array? {
      AddToArray(parent.items, name, x, caseSensitive);
      if !RightIndex(Encode(name)) {
        WrongIndex(Encode(name));
        EncodedIndex(name);
      }
      if name == "-" { EncodePlain(name); }
    }
    if parent.Object? { AddToObject(parent.members, name, x, caseSensitive); }
    hide Distinct, View, Encode, RfcIndex, DecodeIndex, FindMember;
  }

  /** Adding at a path: the RFC allows exactly what the code does with right tokens. */
  lemma AddRefines(document: Json, path: seq<string>, x: Json, caseSensitive: bool)
    requires Distinct(document, caseSensitive) && Readable(document, path, caseSensitive) && path != [] && Writable(path)
    requires Distinct(x, caseSensitive)
    ensures var r, v := AddAt(document, PathText(path), x, caseSensitive), View(document, caseSensitive);
            var a := Add(v, path, View(x, caseSensitive), caseSensitive);
            && (a.Some? <==> r.status == 0 && Proper(v, path, caseSensitive))
            && (a.Some? ==> Means(r.document, a.value, caseSensitive))
  {
    hide Distinct, View, Resolve, Put, AddAt, At, Height, AddToParent, Get, Set, AddChild, PathText, Encode, Proper, Indexable;
    hide DecodesBack, RightIndex;
    var v, front, t := View(document, caseSensitive), DropLast(path), Last(path);
    ParentRefines(document, path, caseSensitive);
    AddAtParent(document, path, x, caseSensitive);
    var at := Resolve(document, PathText(front), caseSensitive);
    if at.Some? && Proper(v, front, caseSensitive) {
      var p := At(document, at.value);
      ArrayView(p, caseSensitive);
      if Indexable(document) { IndexableAt(document, at.value); }
      AddToParentRefines(p, t, x, caseSensitive);
      var r := AddToParent(p, t, x, caseSensitive);
      if r.Accepted? && (p.Array? ==> RightIndex(Encode(t))) {
        PutRefines(document, front, r.parent, View(r.parent, caseSensitive), caseSensitive);
      }
    }
  }

  lemma ArrayView(j: Json, caseSensitive: bool)
    ensures j.Array? <==> View(j, caseSensitive).Arr?
  {
  }

  // ---- Patches as JSON text describes them ----

  datatype Request =
    | DoAdd(path: seq<string>, value: Json)
    | DoRemove(path: seq<string>)
    | DoReplace(path: seq<string>, value: Json)
    | DoMove(path: seq<string>, from: seq<string>)
    | DoCopy(path: seq<string>, from: seq<string>)
    | DoTest(path: seq<string>, value: Json)

  /** What `compose_patch` builds, and its counterpart for "move" and "copy". */
  function Compose(r: Request): (patch: Json)
    ensures patch.Object?
  {
    var head := [Member("op", String(OpName(r))), Member("path", String(PathText(r.path)))];
    Object(if r.DoRemove? then head
           else if r.DoMove? || r.DoCopy? then head + [Member("from", String(PathText(r.from)))]
           else head + [Member("value", r.value)])
  }

  function OpName(r: Request): string {
    match r
    case DoAdd(_, _) => "add"
    case DoRemove(_) => "remove"
    case DoReplace(_, _) => "replace"
    case DoMove(_, _) => "move"
    case DoCopy(_, _) => "copy"
    case DoTest(_, _) => "test"
  }

  function Denotes(r: Request, caseSensitive: bool): Operation {
    match r
    case DoAdd(path, value) => OpAdd(path, View(value, caseSensitive))
    case DoRemove(path) => OpRemove(path)
    case DoReplace(path, value) => OpReplace(path, View(value, caseSensitive))
    case DoMove(path, from) => OpMove(path, from)
    case DoCopy(path, from) => OpCopy(path, from)
    case DoTest(path, value) => OpTest(path, View(value, caseSensitive))
  }

  predicate Sound(r: Request, caseSensitive: bool) {
    && Meaningful(Denotes(r, caseSensitive))
    && (!r.DoTest? ==> Writable(r.path))
    && (r.DoMove? ==> Writable(r.from))
    && (r.DoAdd? || r.DoReplace? || r.DoTest? ==> Distinct(r.value, caseSensitive))
    && (r.DoTest? ==> RawFree(r.value) && Consistent(r.value))
  }

  /** Which documents a request is about: keys distinct, arrays indexable, and for "test" comparable. */
  ghost predicate Applicable(document: Json, r: Request, caseSensitive: bool)
    requires Sound(r, caseSensitive)
  {
    && Distinct(document, caseSensitive)
    && (Indexable(document) || ProperRequest(View(document, caseSensitive), r, caseSensitive))
    && (r.DoTest? ==> RawFree(document) && Consistent(document))
  }

  /** The paths of a request hold right tokens, and it does not move anything into its own child. */
  ghost predicate ProperRequest(v: Value, r: Request, caseSensitive: bool)
    requires Sound(r, caseSensitive)
  {
    match r
    case DoMove(path, from) =>
      && Proper(v, from, caseSensitive)
      && !Above(from, path, caseSensitive)
      && (from != [] ==> var w := Remove(v, from, caseSensitive); w.Some? ==> Proper(w.value, path, caseSensitive))
    case DoCopy(path, from) => Proper(v, from, caseSensitive) && Proper(v, path, caseSensitive)
    case _ => Proper(v, r.path, caseSensitive)
  }

  /** A lookup that skips members whose keys start with another letter. */
  lemma FindByFirstLetter(ms: seq<Member<Json>>, name: string, n: nat, caseSensitive: bool)
    requires n < |ms| && ms[n].key == name && name != ""
    requires forall i | 0 <= i < n :: ms[i].key != "" && Fold(name, caseSensitive)[0] != Fold(ms[i].key, caseSensitive)[0]
    ensures FindMember(ms, name, caseSensitive) == n
  { }

  lemma ComposeFields(r: Request, caseSensitive: bool)
    ensures Field(Compose(r), "path", caseSensitive) == Some(String(PathText(r.path)))
    ensures Field(Compose(r), "op", caseSensitive) == Some(String(OpName(r)))
    ensures r.DoAdd? || r.DoReplace? || r.DoTest? ==> Field(Compose(r), "value", caseSensitive) == Some(r.value)
    ensures r.DoMove? || r.DoCopy? ==> Field(Compose(r), "from", caseSensitive) == Some(String(PathText(r.from)))
  {
    var ms := Compose(r).members;
    assert Fold("op", caseSensitive)[0] == 'o' && Fold("path", caseSensitive)[0] == 'p';
    assert Fold("value", caseSensitive)[0] == 'v' && Fold("from", caseSensitive)[0] == 'f';
    assert ms[0].key == "op" && ms[1].key == "path";
    assert |ms| == 3 ==> ms[2] == if r.DoMove? || r.DoCopy? then Member("from", String(PathText(r.from))) else Member("value", r.value);
    hide PathText, Fold;
    FindByFirstLetter(ms, "op", 0, caseSensitive);
    FindByFirstLetter(ms, "path", 1, caseSensitive);
    if |ms| == 3 { FindByFirstLetter(ms, ms[2].key, 2, caseSensitive); }
  }

  /** A patch that says what a request asks for, whatever else is in it and in whatever order. */
  ghost predicate Asks(patch: Json, r: Request, caseSensitive: bool) {
    && Field(patch, "op", caseSensitive) == Some(String(OpName(r)))
    && Field(patch, "path", caseSensitive) == Some(String(PathText(r.path)))
    && (r.DoAdd? || r.DoReplace? || r.DoTest? ==> Field(patch, "value", caseSensitive) == Some(r.value))
    && (r.DoMove? || r.DoCopy? ==> Field(patch, "from", caseSensitive) == Some(String(PathText(r.from))))
  }

  lemma ComposeAsks(r: Request, caseSensitive: bool)
    ensures Asks(Compose(r), r, caseSensitive)
  {
    ComposeFields(r, caseSensitive);
    hide Compose, Field, PathText;
  }

  function Code(r: Request): Opcode {
    match r
    case DoAdd(_, _) => ADD
    case DoRemove(_) => REMOVE
    case DoReplace(_, _) => REPLACE
    case DoMove(_, _) => MOVE
    case DoCopy(_, _) => COPY
    case DoTest(_, _) => TEST
  }

  lemma AskedOpcode(patch: Json, r: Request, caseSensitive: bool)
    requires Asks(patch, r, caseSensitive)
    ensures DecodeOperation(patch, caseSensitive) == Code(r)
  {
    hide Field, PathText;
    assert "add"[0] == 'a' && "remove"[2] == 'm' && "replace"[2] == 'p' && "move"[0] == 'm' && "copy"[0] == 'c';
    assert "test"[0] == 't' && "remove"[0] == 'r' && "replace"[0] == 'r';
  }

  lemma ComposeOpcode(r: Request, caseSensitive: bool)
    ensures DecodeOperation(Compose(r), caseSensitive) == Code(r)
  {
    ComposeAsks(r, caseSensitive);
    AskedOpcode(Compose(r), r, caseSensitive);
    hide Compose, DecodeOperation;
  }

  // ---- Each operation ----

  /** Case sensitively the two sides of a "test" must have their keys in the same order once sorted. */
  ghost predicate TestAligned(document: Json, path: seq<string>, x: Json, caseSensitive: bool) {
    caseSensitive ==>
      var at := Resolve(document, PathText(path), caseSensitive);
      at.Some? ==> Aligned(At(document, at.value), x)
  }

  /** With consistent numbers, equal views are views that the RFC calls equal. */
  lemma {:induction false} SameIsEqual(a: Json, b: Json, caseSensitive: bool)
    requires Distinct(a, caseSensitive) && Distinct(b, caseSensitive) && Consistent(a) && Consistent(b)
    ensures Same(View(a, caseSensitive), View(b, caseSensitive)) <==> View(a, caseSensitive) == View(b, caseSensitive)
    decreases Height(a)
  {
    match (a, b)
    case (Array(xs), Array(ys)) =>
      var vs, ws := ViewItems(xs, caseSensitive), ViewItems(ys, caseSensitive);
      if |xs| == |ys| {
        forall i | 0 <= i < |xs| ensures Same(vs[i], ws[i]) <==> vs[i] == ws[i] {
          SameIsEqual(xs[i], ys[i], caseSensitive);
        }
        hide View, Distinct, ViewItems;
      }
    case (Object(ms), Object(ns)) =>
      var vm, vn := ViewMembers(ms, caseSensitive), ViewMembers(ns, caseSensitive);
      forall k | k in vm && k in vn ensures Same(vm[k], vn[k]) <==> vm[k] == vn[k] {
        var i := MemberOf(ms, k, caseSensitive);
        var n := MemberOf(ns, k, caseSensitive);
        hide View, Distinct, ViewMembers, Fold;
        SameIsEqual(ms[i].value, ns[n].value, caseSensitive);
      }
      hide View, Distinct, ViewMembers;
    case _ =>
  }

  lemma MemberOf(ms: seq<Member<Json>>, k: string, caseSensitive: bool) returns (i: nat)
    requires Distinct(Object(ms), caseSensitive) && ConsistentValues(ms) && k in ViewMembers(ms, caseSensitive)
    ensures i < |ms| && ViewMembers(ms, caseSensitive)[k] == View(ms[i].value, caseSensitive)
    ensures Distinct(ms[i].value, caseSensitive) && Consistent(ms[i].value)
  {
    ViewKeys(ms, caseSensitive);
    i :| 0 <= i < |ms| && Fold(ms[i].key, caseSensitive) == k;
    ViewAt(ms, i, caseSensitive);
    hide View, Fold;
  }

  /** The verdict of "test" on a node. */
  lemma TestVerdict(node: Json, x: Json, caseSensitive: bool)
    requires Distinct(node, caseSensitive) && RawFree(node) && Consistent(node)
    requires Distinct(x, caseSensitive) && RawFree(x) && Consistent(x)
    ensures CompareJson(node, x, caseSensitive).equal <==>
            Same(View(node, caseSensitive), View(x, caseSensitive)) && (caseSensitive ==> Aligned(node, x))
    ensures Means(CompareJson(node, x, caseSensitive).a, View(node, caseSensitive), caseSensitive)
  {
    hide CompareJson, View, Distinct, RawFree, Consistent, Same, Aligned;
    SameIsEqual(node, x, caseSensitive);
    CompareJsonKeeps(node, x, caseSensitive, caseSensitive);
    if caseSensitive { CompareSensitive(node, x); } else { CompareJsonIsViewEquality(node, x); }
  }

  lemma {:induction false} ConsistentAt(j: Json, at: Position)
    requires RawFree(j) && Consistent(j) && Exists(j, at)
    ensures RawFree(At(j, at)) && Consistent(At(j, at))
    decreases |at|
  {
    if at != [] { ConsistentAt(ChildAt(j, at[0]), at[1..]); }
  }

  /**
   "test" returns 0 exactly where the RFC passes it, the array tokens are right and, case
   sensitively, sorting puts the keys of both sides in the same order.  It changes no meaning.
   */
  lemma TestRefines(document: Json, path: seq<string>, x: Json, caseSensitive: bool)
    requires Sound(DoTest(path, x), caseSensitive) && Applicable(document, DoTest(path, x), caseSensitive)
    ensures var r, v := ApplyTest(document, PathText(path), Some(x), caseSensitive), View(document, caseSensitive);
            var p := Perform(v, OpTest(path, View(x, caseSensitive)), caseSensitive);
            && (r.status == 0 && Proper(v, path, caseSensitive) <==> p.Some? && TestAligned(document, path, x, caseSensitive))
            && (Proper(v, path, caseSensitive) ==> Means(r.document, v, caseSensitive))
            && (p.Some? <==> Found(document, path, caseSensitive) && Passes(document, path, x, caseSensitive))
            && (p.Some? ==> p.value == v && Proper(v, path, caseSensitive))
  {
    hide View, CompareJson, Distinct, RawFree, Consistent, Height, Resolve, Put, PathText, Proper, Indexable, Same, Aligned, LookupCompare;
    var v := View(document, caseSensitive);
    if Proper(v, path, caseSensitive) {
      ResolveRefines(document, path, caseSensitive);
      var at := Resolve(document, PathText(path), caseSensitive);
      if at.Some? {
        var node := At(document, at.value);
        ConsistentAt(document, at.value);
        TestVerdict(node, x, caseSensitive);
        SameIsEqual(node, x, caseSensitive);
        LookupCompareIsViewEquality(node, x, caseSensitive);
        PutRefines(document, path, CompareJson(node, x, caseSensitive).a, View(node, caseSensitive), caseSensitive);
        SetGet(v, path, caseSensitive);
      }
    } else {
      ImproperFails(document, path, caseSensitive);
    }
  }

  /** `get_item_from_pointer` finds something, and every array token is right. */
  ghost predicate Found(document: Json, path: seq<string>, caseSensitive: bool) {
    Proper(View(document, caseSensitive), path, caseSensitive) && Resolve(document, PathText(path), caseSensitive).Some?
  }

  /** `cJSON_Compare` calls what is found equal to the value. */
  ghost predicate Passes(document: Json, path: seq<string>, x: Json, caseSensitive: bool) {
    var at := Resolve(document, PathText(path), caseSensitive);
    at.Some? && LookupCompare(At(document, at.value), x, caseSensitive)
  }

  /** An "add" at the path would work on this document. */
  ghost predicate Addable(document: Json, path: seq<string>, caseSensitive: bool) {
    Proper(View(document, caseSensitive), path, caseSensitive) && AddAt(document, PathText(path), Null, caseSensitive).status == 0
  }

  /** Status 0 with the document that the RFC asks for, or a failure where the RFC fails. */
  ghost predicate Right(a: Applied, p: Option<Value>, caseSensitive: bool) {
    (a.status == 0 <==> p.Some?) && (p.Some? ==> Means(a.document, p.value, caseSensitive))
  }

  /** Removing leaves the way to the parent proper. */
  lemma ProperAfterRemove(v: Value, path: seq<string>, caseSensitive: bool)
    requires path != [] && Proper(v, path, caseSensitive) && Remove(v, path, caseSensitive).Some?
    ensures Proper(Remove(v, path, caseSensitive).value, path, caseSensitive)
  {
    var front, t := DropLast(path), Last(path);
    assert path == front + [t];
    ProperSplit(v, front, t, caseSensitive);
    var p := Get(v, front, caseSensitive).value;
    var x := RemoveChild(p, t, caseSensitive).value;
    assert x.Arr? <==> p.Arr?;
    ProperSet(v, front, x, caseSensitive);
    ProperSplit(Set(v, front, x, caseSensitive), front, t, caseSensitive);
    hide Get, Set, Proper, RemoveChild, RightIndex, Encode;
  }

  /** "replace" below the root. */
  lemma ReplaceRefines(document: Json, path: seq<string>, x: Json, caseSensitive: bool)
    requires Sound(DoReplace(path, x), caseSensitive) && Applicable(document, DoReplace(path, x), caseSensitive) && path != []
    ensures var d, v := Detach(document, PathText(path), caseSensitive), View(document, caseSensitive);
            var p := Perform(v, OpReplace(path, View(x, caseSensitive)), caseSensitive);
            if d.None? then p.None?
            else
              var r := AddAt(d.value.document, PathText(path), x, caseSensitive);
              && (r.status != 0 || !Proper(v, path, caseSensitive) ==> p.None?)
              && (r.status == 0 ==>
                    (Right(r, p, caseSensitive) <==>
                     Proper(v, path, caseSensitive) && FindsSame(document, path, caseSensitive)))
  {
    hide Distinct, View, Detach, AddAt, PathText, Get, Set, Add, Remove, Proper, Height, Resolve, Encode, Indexable, FindsSame;
    hide DecodesBack;
    DetachRefines(document, path, caseSensitive);
    var d, v := Detach(document, PathText(path), caseSensitive), View(document, caseSensitive);
    if d.Some? {
      if !Proper(v, path, caseSensitive) {
        RemoveImproper(document, path, caseSensitive);
      } else if FindsSame(document, path, caseSensitive) {
        ProperAfterRemove(v, path, caseSensitive);
        AddRefines(d.value.document, path, x, caseSensitive);
      } else {
        ReplacesWrong(document, path, x, caseSensitive);
      }
    }
  }

  /** If looking up finds another member, "replace" removes that one and adds what it should replace. */
  lemma ReplacesWrong(document: Json, path: seq<string>, x: Json, caseSensitive: bool)
    requires Sound(DoReplace(path, x), caseSensitive) && Applicable(document, DoReplace(path, x), caseSensitive) && path != []
    requires Proper(View(document, caseSensitive), path, caseSensitive) && !FindsSame(document, path, caseSensitive)
    requires Detach(document, PathText(path), caseSensitive).Some?
    ensures var d, v := Detach(document, PathText(path), caseSensitive).value, View(document, caseSensitive);
            var p := Perform(v, OpReplace(path, View(x, caseSensitive)), caseSensitive);
            var r := AddAt(d.document, PathText(path), x, caseSensitive);
            r.status == 0 && !Right(r, p, caseSensitive)
  {
    hide Distinct, View, AddAt, PathText, Get, Set, Proper, Height, Resolve, Encode, Indexable, DecodesBack, RightIndex, At, Put;
    var v, front, t := View(document, caseSensitive), DropLast(path), Last(path);
    var k := Fold(t, caseSensitive);
    ParentRefines(document, path, caseSensitive);
    DetachAtParent(document, path, caseSensitive);
    var at := Resolve(document, PathText(front), caseSensitive).value;
    var parent := At(document, at);
    var key, vm := WrongKey(parent, t, caseSensitive);
    var d := Detach(document, PathText(path), caseSensitive).value.document;
    var less := Obj(vm - {key});
    PutRefines(document, front, DetachChild(parent, t).value.document, less, caseSensitive);
    ProperSet(v, front, less, caseSensitive);
    assert path == front + [t];
    ProperSplit(Set(v, front, less, caseSensitive), front, t, caseSensitive);
    AddRefines(d, path, x, caseSensitive);
    var y := View(x, caseSensitive);
    SetSet(v, front, less, Obj((vm - {key})[k := y]), caseSensitive);
    GetSet(v, front, Obj((vm - {key})[k := y]), caseSensitive);
    ReplacedKeeps(v, path, y, vm, key, caseSensitive);
    hide DetachChild, Perform, Fold;
  }

  lemma WrongKey(parent: Json, name: string, caseSensitive: bool) returns (key: string, vm: map<string, Value>)
    requires Distinct(parent, caseSensitive) && !SameFind(parent, name, caseSensitive) && DetachChild(parent, name).Some?
    ensures View(parent, caseSensitive) == Obj(vm) && key in vm && key != Fold(name, caseSensitive)
    ensures Means(DetachChild(parent, name).value.document, Obj(vm - {key}), caseSensitive)
  {
    vm := ViewMembers(parent.members, caseSensitive);
    DetachChildObject(parent.members, name, caseSensitive);
    key :| key != Fold(name, caseSensitive) && key in vm
           && Means(DetachChild(parent, name).value.document, Obj(vm - {key}), caseSensitive);
    hide Distinct, FindMember, ViewMembers, Fold;
  }

  /** What the RFC makes of "replace" still has every other member. */
  lemma ReplacedKeeps(v: Value, path: seq<string>, y: Value, vm: map<string, Value>, key: string, caseSensitive: bool)
    requires path != [] && Get(v, DropLast(path), caseSensitive) == Some(Obj(vm))
    requires key in vm && key != Fold(Last(path), caseSensitive)
    ensures var p := Perform(v, OpReplace(path, y), caseSensitive);
            p.Some? ==> var g := Get(p.value, DropLast(path), caseSensitive); g.Some? && g.value.Obj? && key in g.value.fields
  {
    hide Get, Set, Fold;
    var front, k := DropLast(path), Fold(Last(path), caseSensitive);
    if k in vm {
      var less := Obj(vm - {k});
      GetSet(v, front, less, caseSensitive);
      GetSet(Set(v, front, less, caseSensitive), front, Obj((vm - {k})[k := y]), caseSensitive);
    }
  }

  lemma RemoveImproper(document: Json, path: seq<string>, caseSensitive: bool)
    requires Distinct(document, caseSensitive) && Indexable(document) && path != []
    requires !Proper(View(document, caseSensitive), path, caseSensitive)
    ensures Remove(View(document, caseSensitive), path, caseSensitive).None?
  {
    var v, front, t := View(document, caseSensitive), DropLast(path), Last(path);
    ImproperFails(document, path, caseSensitive);
    assert path == front + [t];
    GetAppend(v, front, t, caseSensitive);
    hide View, Get, Child;
  }

  // ---- "move" and "copy" ----

  /** What is found is what the RFC finds. */
  lemma FoundRefines(document: Json, path: seq<string>, caseSensitive: bool)
    requires Distinct(document, caseSensitive) && Readable(document, path, caseSensitive)
    ensures Found(document, path, caseSensitive) <==> Get(View(document, caseSensitive), path, caseSensitive).Some?
  {
    hide Distinct, View, Resolve, Get, Proper, PathText, Indexable;
    if Proper(View(document, caseSensitive), path, caseSensitive) {
      ResolveRefines(document, path, caseSensitive);
    } else {
      ImproperFails(document, path, caseSensitive);
    }
  }

  lemma RemoveFound(v: Value, path: seq<string>, caseSensitive: bool)
    requires path != []
    ensures Get(v, path, caseSensitive).Some? <==> Remove(v, path, caseSensitive).Some?
  {
    FrontAndLast(path);
    RemoveIs(v, path, caseSensitive);
    hide *;
    GetAppend(v, DropLast(path), Last(path), caseSensitive);
  }

  lemma FrontAndLast(path: seq<string>)
    requires path != []
    ensures path == DropLast(path) + [Last(path)]
  {
  }

  lemma RemoveIs(v: Value, path: seq<string>, caseSensitive: bool)
    requires path != []
    ensures var parent := Get(v, DropLast(path), caseSensitive);
            Remove(v, path, caseSensitive).Some? <==> parent.Some? && Child(parent.value, Last(path), caseSensitive).Some?
  {
    hide Get, Set, Child;
  }

  lemma NoSlashAtRoot()
    ensures PathText([]) == "" && LastSlash("").None?
  {
    TextEmpty([]);
    hide PathText;
  }

  /** Onto the root the code moves nothing, and loses what it was to move. */
  lemma MoveToRoot(document: Json, path: seq<string>, from: seq<string>, caseSensitive: bool)
    requires Sound(DoMove(path, from), caseSensitive) && Applicable(document, DoMove(path, from), caseSensitive)
    requires path == [] || from == []
    ensures var a := ApplyFrom(document, PathText(path), Some(String(PathText(from))), true, caseSensitive);
            var p := Perform(View(document, caseSensitive), OpMove(path, from), caseSensitive);
            && a.status != 0
            && (p.Some? <==> path == [] && Found(document, from, caseSensitive))
            && (p.Some? ==> ProperRequest(View(document, caseSensitive), DoMove(path, from), caseSensitive))
  {
    var v, r := View(document, caseSensitive), DoMove(path, from);
    assert Distinct(document, caseSensitive) && Readable(document, from, caseSensitive) by {
      hide Distinct, View, Proper, Indexable, Writable, Above, Remove;
    }
    FoundRefines(document, from, caseSensitive);
    hide *;
    NoSlashAtRoot();
    GetAll(v, caseSensitive);
    if from == [] {
      RootTaken(document, path, caseSensitive);
      RootMoved(v, path, caseSensitive);
    } else {
      RemoveFound(v, from, caseSensitive);
      RootGiven(document, from, caseSensitive);
      MovedToRoot(v, from, caseSensitive);
    }
  }

  lemma RootTaken(document: Json, path: seq<string>, caseSensitive: bool)
    ensures ApplyFrom(document, PathText(path), Some(String(PathText([]))), true, caseSensitive).status == 5
  {
    NoSlashAtRoot();
    NoDetach(document, caseSensitive);
    hide Detach, AddAt, PathText;
  }

  lemma RootMoved(v: Value, path: seq<string>, caseSensitive: bool)
    ensures Perform(v, OpMove(path, []), caseSensitive).Some? <==> path == []
    ensures Sound(DoMove([], []), caseSensitive) && ProperRequest(v, DoMove([], []), caseSensitive)
  {
    ProperNowhere(v, caseSensitive);
    hide Proper, Get, Remove, Add;
  }

  lemma RootGiven(document: Json, from: seq<string>, caseSensitive: bool)
    ensures ApplyFrom(document, PathText([]), Some(String(PathText(from))), true, caseSensitive).status != 0
  {
    NoSlashAtRoot();
    var d := Detach(document, PathText(from), caseSensitive);
    if d.Some? { NoAdd(d.value.document, d.value.item, caseSensitive); }
    hide Detach, AddAt, PathText;
  }

  lemma MovedToRoot(v: Value, from: seq<string>, caseSensitive: bool)
    requires from != [] && Sound(DoMove([], from), caseSensitive)
    requires Get(v, from, caseSensitive).Some? <==> Remove(v, from, caseSensitive).Some?
    ensures Perform(v, OpMove([], from), caseSensitive).Some? <==> Get(v, from, caseSensitive).Some?
    ensures Proper(v, from, caseSensitive) ==> ProperRequest(v, DoMove([], from), caseSensitive)
    ensures Get(v, from, caseSensitive).Some? ==> Add(Remove(v, from, caseSensitive).value, [], Get(v, from, caseSensitive).value, caseSensitive).Some?
  {
    var w := Remove(v, from, caseSensitive);
    if w.Some? { ProperNowhere(w.value, caseSensitive); }
    hide Get, Remove, Proper, Writable;
  }

  lemma ProperNowhere(v: Value, caseSensitive: bool)
    ensures Proper(v, [], caseSensitive)
  {
  }

  lemma NoDetach(document: Json, caseSensitive: bool)
    ensures Detach(document, "", caseSensitive).None?
  {
  }

  lemma NoAdd(document: Json, x: Json, caseSensitive: bool)
    ensures AddAt(document, "", x, caseSensitive).status == 9
  {
  }

  lemma GetAll(v: Value, caseSensitive: bool)
    ensures Get(v, [], caseSensitive) == Some(v)
  {
  }

  /** A "move" whose lookup finds what is meant. */
  lemma MoveFinds(document: Json, path: seq<string>, from: seq<string>, caseSensitive: bool)
    requires Sound(DoMove(path, from), caseSensitive) && Applicable(document, DoMove(path, from), caseSensitive)
    requires path != [] && from != [] && FindsSame(document, from, caseSensitive)
    ensures var a := ApplyFrom(document, PathText(path), Some(String(PathText(from))), true, caseSensitive);
            var v := View(document, caseSensitive);
            var p := Perform(v, OpMove(path, from), caseSensitive);
            && (p.Some? <==> a.status == 0 && ProperRequest(v, DoMove(path, from), caseSensitive))
            && (p.Some? ==> Means(a.document, p.value, caseSensitive))
  {
    hide Distinct, View, Detach, AddAt, PathText, Get, Add, Remove, Proper, Height, Above, Indexable, DecodesBack, FindsSame, Fold;
    var v := View(document, caseSensitive);
    DetachRefines(document, from, caseSensitive);
    if !Proper(v, from, caseSensitive) { RemoveImproper(document, from, caseSensitive); }
    var d := Detach(document, PathText(from), caseSensitive);
    if d.Some? && Proper(v, from, caseSensitive) {
      if Indexable(document) { IndexableDetach(document, PathText(from), caseSensitive); }
      AddRefines(d.value.document, path, d.value.item, caseSensitive);
    }
  }

  // ---- A "move" that takes another member than the one that is meant ----

  /** Without one member, the way past it is as proper as before, and the way through it ends there. */
  lemma {:induction false} ProperWithout(v: Value, front: seq<string>, vm: map<string, Value>, key: string, path: seq<string>)
    requires Get(v, front, true) == Some(Obj(vm))
    ensures !(front + [key] < path) ==> (Proper(Set(v, front, Obj(vm - {key}), true), path, true) <==> Proper(v, path, true))
    ensures front + [key] < path && Proper(v, front, true) ==> Proper(Set(v, front, Obj(vm - {key}), true), path, true)
    decreases |front|
  {
    var less := Obj(vm - {key});
    if path == [] {
    } else if front == [] {
      Bytes(path[0]);
      assert [] + [key] == [key];
      assert path[0] == key && !([key] < path) ==> path[1..] == [];
      hide RightIndex, Encode, Fold;
    } else {
      SetBelow(v, front, less);
      var c, f := Child(v, front[0], true).value, front[0];
      var below := Set(c, front[1..], less, true);
      ChildAfterSet(v, f, below, path[0]);
      assert SetChild(v, f, below, true).Arr? <==> v.Arr?;
      hide RightIndex, Encode, Child, SetChild, Get, Set;
      if path[0] == f {
        ProperWithout(c, front[1..], vm, key, path[1..]);
        PrefixTail(front, key, path);
      } else {
        OtherStart(front, key, path);
      }
    }
  }

  /** The member that is found ignoring case means the same as the one that is meant. */
  ghost predicate Twins(document: Json, from: seq<string>, caseSensitive: bool) {
    var d, at := Detach(document, PathText(from), caseSensitive), Resolve(document, PathText(from), caseSensitive);
    d.Some? && at.Some? && View(d.value.item, caseSensitive) == View(At(document, at.value), caseSensitive)
  }

  /** Which member is taken, `a`, and which is meant, `b`, in the object at `front`. */
  ghost predicate Mistakes(
    document: Json, from: seq<string>, d: Detached, vm: map<string, Value>, a: string, b: string)
    requires from != []
  {
    var v, front := View(document, true), DropLast(from);
    && Get(v, front, true) == Some(Obj(vm)) && a in vm && b in vm && a != b && b == Last(from)
    && Means(d.document, Set(v, front, Obj(vm - {a}), true), true) && Means(d.item, vm[a], true)
    && Get(v, from, true) == Some(vm[b]) && Remove(v, from, true) == Some(Set(v, front, Obj(vm - {b}), true))
    && Proper(v, front, true) && Proper(v, from, true)
  }

  lemma MistakenMember(members: seq<Member<Json>>, name: string) returns (key: string)
    requires Distinct(Object(members), true) && !SameFind(Object(members), name, true) && name in ViewMembers(members, true)
    ensures var vm, d := ViewMembers(members, true), DetachChild(Object(members), name);
            && key in vm && key != name && d.Some?
            && Means(d.value.document, Obj(vm - {key}), true) && Means(d.value.item, vm[key], true)
  {
    var i, k := FindMember(members, name, false), FindMember(members, name, true);
    FindIsLookup(members, name, true);
    Bytes(name);
    assert Fold(members[k].key, false) == Fold(name, false) by { Bytes(members[k].key); }
    assert i <= k;
    key := members[i].key;
    Bytes(key);
    assert FindMember(members, key, true) == i;
    WithoutKey(members, key, true);
    ViewAt(members, i, true);
    assert Distinct(members[i].value, true);
    hide Distinct, View, ViewMembers, FindMember, Fold;
  }

  /** The object that holds both members. */
  lemma MistakeParent(document: Json, from: seq<string>) returns (at: Position, ms: seq<Member<Json>>)
    requires Distinct(document, true) && from != [] && Writable(from) && Readable(document, from, true)
    requires !FindsSame(document, from, true) && Found(document, from, true)
    ensures var v, front := View(document, true), DropLast(from);
            && Resolve(document, PathText(front), true) == Some(at) && Exists(document, at) && At(document, at) == Object(ms)
            && Distinct(Object(ms), true) && !SameFind(Object(ms), Last(from), true)
            && Get(v, front, true) == Some(Obj(ViewMembers(ms, true))) && Proper(v, front, true) && Proper(v, from, true)
  {
    hide *;
    var front := DropLast(from);
    ParentRefines(document, from, true);
    FoundRefines(document, from, true);
    FoundParent(document, from);
    at, ms := LooksElsewhere(document, from);
    ObjectMeans(At(document, at), View(Object(ms), true));
    MeansView(At(document, at), Get(View(document, true), front, true).value, Get(View(document, true), front, true).value);
  }

  /** If something is found, its parent is. */
  lemma FoundParent(document: Json, from: seq<string>)
    requires from != [] && Found(document, from, true) && Get(View(document, true), from, true).Some?
    ensures var v, front := View(document, true), DropLast(from);
            Proper(v, front, true) && Proper(v, from, true) && Get(v, front, true).Some?
  {
    var v, front := View(document, true), DropLast(from);
    assert from == front + [Last(from)];
    hide View, Proper, Get, Child, Encode, RightIndex;
    ProperSplit(v, front, Last(from), true);
    GetAppend(v, front, Last(from), true);
  }

  lemma LooksElsewhere(document: Json, from: seq<string>) returns (at: Position, ms: seq<Member<Json>>)
    requires from != [] && !FindsSame(document, from, true)
    ensures Resolve(document, PathText(DropLast(from)), true) == Some(at) && Exists(document, at)
    ensures At(document, at) == Object(ms) && !SameFind(Object(ms), Last(from), true)
  {
    hide Resolve, At, PathText, FindMember;
    at := Resolve(document, PathText(DropLast(from)), true).value;
    ms := At(document, at).members;
  }

  lemma ObjectMeans(j: Json, v: Value)
    ensures j.Object? ==> View(j, true) == Obj(ViewMembers(j.members, true))
  {
    hide ViewMembers;
  }

  lemma FindMistake(document: Json, from: seq<string>) returns (vm: map<string, Value>, a: string)
    requires Distinct(document, true) && from != [] && Writable(from) && Readable(document, from, true)
    requires !FindsSame(document, from, true) && Found(document, from, true)
    ensures var d := Detach(document, PathText(from), true); d.Some? && Mistakes(document, from, d.value, vm, a, Last(from))
  {
    hide *;
    var v, front, name := View(document, true), DropLast(from), Last(from);
    var at, ms := MistakeParent(document, from);
    vm := ViewMembers(ms, true);
    FoundRefines(document, from, true);
    FoundBelow(v, front, name, vm, from);
    a := MistakenMember(ms, name);
    var d := DetachChild(Object(ms), name).value;
    DetachAtParent(document, from, true);
    PutRefines(document, front, d.document, Obj(vm - {a}), true);
    MakesMistake(document, from, Detach(document, PathText(from), true).value, vm, a);
  }

  lemma FoundBelow(v: Value, front: seq<string>, name: string, vm: map<string, Value>, from: seq<string>)
    requires from != [] && front == DropLast(from) && name == Last(from) && Get(v, front, true) == Some(Obj(vm))
    requires Get(v, from, true).Some?
    ensures name in vm && Get(v, from, true) == Some(vm[name])
    ensures Remove(v, from, true) == Some(Set(v, front, Obj(vm - {name}), true))
  {
    assert from == front + [name];
    GetAppend(v, front, name, true);
    Bytes(name);
    hide Get, Set, Fold;
  }

  lemma MakesMistake(document: Json, from: seq<string>, d: Detached, vm: map<string, Value>, a: string)
    requires from != []
    requires var v, front, b := View(document, true), DropLast(from), Last(from);
             && Get(v, front, true) == Some(Obj(vm)) && a in vm && b in vm && a != b
             && Means(d.document, Set(v, front, Obj(vm - {a}), true), true) && Means(d.item, vm[a], true)
             && Get(v, from, true) == Some(vm[b]) && Remove(v, from, true) == Some(Set(v, front, Obj(vm - {b}), true))
             && Proper(v, front, true) && Proper(v, from, true)
    ensures Mistakes(document, from, d, vm, a, Last(from))
  {
    hide View, Distinct, Get, Set, Remove, Proper;
  }

  lemma AddSome(v: Value, path: seq<string>, x: Value, y: Value)
    ensures Add(v, path, x, true).Some? <==> Add(v, path, y, true).Some?
  {
    hide Get, RfcIndex;
  }

  lemma MeansView(j: Json, v: Value, w: Value)
    requires Means(j, v, true)
    ensures View(j, true) == v && Distinct(j, true) && (Means(j, w, true) <==> v == w)
  {
  }

  /** No path leads through two members of one object. */
  lemma TwoWays(front: seq<string>, a: string, b: string, path: seq<string>)
    requires a != b
    ensures !(front + [a] < path && front + [b] < path)
  {
    assert (front + [a])[|front|] == a && (front + [b])[|front|] == b;
    if front + [a] < path { assert path[|front|] == a; }
    if front + [b] < path { assert path[|front|] == b; }
  }

  /** Where the path leads, with one of the two members gone or the other. */
  lemma TwoDocuments(v: Value, front: seq<string>, vm: map<string, Value>, a: string, b: string, path: seq<string>)
    requires Get(v, front, true) == Some(Obj(vm)) && a in vm && b in vm && a != b && Proper(v, front, true)
    ensures var one, two := Set(v, front, Obj(vm - {a}), true), Set(v, front, Obj(vm - {b}), true);
            var works, r, p := Add(v, path, Leaf(Null), true).Some?, Add(one, path, vm[a], true), Add(two, path, vm[b], true);
            && (r.Some? <==> works && !(front + [a] < path))
            && (p.Some? <==> works && !(front + [b] < path))
            && (r.Some? ==> (p == r <==> Covers(v, path, front) && vm[a] == vm[b]))
            && (Proper(one, path, true) <==> front + [a] < path || Proper(v, path, true))
            && (!(front + [b] < path) ==> (Proper(two, path, true) <==> Proper(v, path, true)))
            && !(front + [a] < path && front + [b] < path)
  {
    hide *;
    AddWithout(v, front, vm, a, path, vm[a]);
    AddWithout(v, front, vm, b, path, vm[b]);
    AddSome(v, path, vm[a], Leaf(Null));
    AddSome(v, path, vm[b], Leaf(Null));
    ProperWithout(v, front, vm, a, path);
    ProperWithout(v, front, vm, b, path);
    TwoWays(front, a, b, path);
    if Add(Set(v, front, Obj(vm - {a}), true), path, vm[a], true).Some? { TwoMoves(v, front, vm, a, b, path, vm[a], vm[b]); }
  }

  lemma MistakesAre(document: Json, from: seq<string>, d: Detached, vm: map<string, Value>, a: string, b: string)
    requires from != [] && Mistakes(document, from, d, vm, a, b)
    ensures var v, front := View(document, true), DropLast(from);
            && from == front + [b] && Get(v, front, true) == Some(Obj(vm)) && a in vm && b in vm && a != b
            && Means(d.document, Set(v, front, Obj(vm - {a}), true), true) && Means(d.item, vm[a], true)
            && Get(v, from, true) == Some(vm[b]) && Remove(v, from, true) == Some(Set(v, front, Obj(vm - {b}), true))
            && Proper(v, front, true) && Proper(v, from, true)
  {
    assert from == DropLast(from) + [Last(from)];
  }

  /** What the RFC does. */
  lemma MistakenRfc(document: Json, path: seq<string>, from: seq<string>, two: Value, y: Value)
    requires Sound(DoMove(path, from), true) && from != []
    requires Get(View(document, true), from, true) == Some(y) && Remove(View(document, true), from, true) == Some(two)
    requires Proper(View(document, true), from, true)
    ensures var v := View(document, true);
            && Perform(v, OpMove(path, from), true) == (if from < path then None else Add(two, path, y, true))
            && (ProperRequest(v, DoMove(path, from), true) <==> !(from < path) && Proper(two, path, true))
  {
    BytesAbove(from, path);
    hide View, Get, Remove, Add, Proper, Above;
  }

  lemma AddableIs(document: Json, path: seq<string>)
    requires Distinct(document, true) && Readable(document, path, true) && path != [] && Writable(path)
    ensures Addable(document, path, true) <==> Add(View(document, true), path, Leaf(Null), true).Some?
    ensures Addable(document, path, true) ==> Proper(View(document, true), path, true)
  {
    assert View(Null, true) == Leaf(Null) && Distinct(Null, true);
    hide Distinct, View, AddAt, Add, Proper, PathText, Writable, Indexable;
    AddRefines(document, path, Null, true);
  }

  lemma EitherReadable(document: Json, d: Json, path: seq<string>, from: seq<string>)
    requires Sound(DoMove(path, from), true) && Applicable(document, DoMove(path, from), true)
    requires Indexable(document) ==> Indexable(d)
    requires ProperRequest(View(document, true), DoMove(path, from), true) ==>
               Proper(View(document, true), path, true) && Proper(View(d, true), path, true)
    ensures Readable(document, path, true) && Readable(d, path, true) && Writable(path) && Distinct(document, true)
  {
    hide Distinct, View, Proper, Indexable, ProperRequest, DecodesBack;
  }

  /** A "move" that takes another member: right only if both mean the same and their object is overwritten. */
  lemma MoveMistakes(document: Json, path: seq<string>, from: seq<string>)
    requires Sound(DoMove(path, from), true) && Applicable(document, DoMove(path, from), true)
    requires path != [] && from != [] && !FindsSame(document, from, true)
    ensures var a := ApplyFrom(document, PathText(path), Some(String(PathText(from))), true, true);
            var v := View(document, true);
            var p := Perform(v, OpMove(path, from), true);
            && (a.status == 0 ==>
                  (Right(a, p, true) <==>
                   && ProperRequest(v, DoMove(path, from), true)
                   && Covers(v, path, DropLast(from)) && Twins(document, from, true)))
            && (a.status != 0 ==> (p.Some? <==> Found(document, from, true) && Addable(document, path, true)))
            && (p.Some? ==> ProperRequest(v, DoMove(path, from), true))
  {
    hide *;
    MoveParts(document, path, from);
    var v, front := View(document, true), DropLast(from);
    if Found(document, from, true) {
      var vm, key := FindMistake(document, from);
      var d := Detach(document, PathText(from), true).value;
      var b := Last(from);
      MistakesAre(document, from, d, vm, key, b);
      var one, two := Set(v, front, Obj(vm - {key}), true), Set(v, front, Obj(vm - {b}), true);
      TwoDocuments(v, front, vm, key, b, path);
      MistakenRfc(document, path, from, two, vm[b]);
      MeansView(d.document, one, one);
      MeansView(d.item, vm[key], vm[key]);
      if Indexable(document) { IndexableDetach(document, PathText(from), true); }
      EitherReadable(document, d.document, path, from);
      AddableIs(document, path);
      AddRefines(d.document, path, d.item, true);
      TwinsAre(document, from, d, vm, key);
      MoveTakes(document, path, from, d);
      CoveredNotThrough(v, path, front, b);
      RightIs(AddAt(d.document, PathText(path), d.item, true), Perform(v, OpMove(path, from), true),
              Add(one, path, vm[key], true));
    } else {
      NothingFound(document, path, from);
    }
  }

  /** A path that ends above leads through nothing below. */
  lemma CoveredNotThrough(v: Value, path: seq<string>, front: seq<string>, b: string)
    ensures path != [] && Covers(v, path, front) ==> !(front + [b] < path)
  {
    hide Get;
  }

  lemma MoveParts(document: Json, path: seq<string>, from: seq<string>)
    requires Sound(DoMove(path, from), true) && Applicable(document, DoMove(path, from), true)
    ensures Distinct(document, true) && Writable(from) && Readable(document, from, true) && Meaningful(OpMove(path, from))
  {
    hide Distinct, View, Proper, Indexable, Writable, Above;
  }

  lemma TwinsAre(document: Json, from: seq<string>, d: Detached, vm: map<string, Value>, a: string)
    requires Distinct(document, true) && from != [] && Detach(document, PathText(from), true) == Some(d)
    requires Mistakes(document, from, d, vm, a, Last(from)) && Found(document, from, true)
    ensures a in vm && Last(from) in vm && (Twins(document, from, true) <==> vm[a] == vm[Last(from)])
  {
    hide View, Distinct, Get, Set, Proper, Resolve, PathText, Detach, At, Remove;
    ResolveRefines(document, from, true);
  }

  lemma MoveTakes(document: Json, path: seq<string>, from: seq<string>, d: Detached)
    requires Detach(document, PathText(from), true) == Some(d)
    ensures ApplyFrom(document, PathText(path), Some(String(PathText(from))), true, true) ==
            AddAt(d.document, PathText(path), d.item, true)
  {
    hide Detach, AddAt, PathText;
  }

  lemma RightIs(a: Applied, p: Option<Value>, r: Option<Value>)
    ensures a.status == 0 && r.Some? && Means(a.document, r.value, true) ==> (Right(a, p, true) <==> p == r)
    ensures a.status == 0 && p.None? ==> !Right(a, p, true)
  {
    hide View, Distinct;
  }

  lemma NothingFound(document: Json, path: seq<string>, from: seq<string>)
    requires Sound(DoMove(path, from), true) && Applicable(document, DoMove(path, from), true)
    requires from != [] && !Found(document, from, true)
    ensures Perform(View(document, true), OpMove(path, from), true).None?
    ensures forall a: Applied | a.status == 0 :: !Right(a, Perform(View(document, true), OpMove(path, from), true), true)
    ensures ProperRequest(View(document, true), DoMove(path, from), true) ==> !Twins(document, from, true)
  {
    MoveParts(document, path, from);
    hide View, Distinct, Get, Proper, Resolve, PathText, Detach, At, Remove, Above, Readable, Writable, Add;
    FoundRefines(document, from, true);
  }

  lemma CopyRefines(document: Json, path: seq<string>, from: seq<string>, caseSensitive: bool)
    requires Sound(DoCopy(path, from), caseSensitive) && Applicable(document, DoCopy(path, from), caseSensitive)
    ensures var a := ApplyFrom(document, PathText(path), Some(String(PathText(from))), false, caseSensitive);
            var v := View(document, caseSensitive);
            var p := Perform(v, OpCopy(path, from), caseSensitive);
            && (a.status == 0 ==> (Right(a, p, caseSensitive) <==> ProperRequest(v, DoCopy(path, from), caseSensitive)))
            && (a.status != 0 ==> (p.Some? <==> path == [] && Found(document, from, caseSensitive)))
            && (p.Some? ==> ProperRequest(v, DoCopy(path, from), caseSensitive))
            && (path == [] ==> a.status != 0)
  {
    hide Distinct, View, Resolve, At, AddAt, PathText, Get, Proper, Height, Exists, Indexable, DecodesBack;
    var v := View(document, caseSensitive);
    if path == [] {
      NoSlashAtRoot();
      ProperNowhere(v, caseSensitive);
      FoundRefines(document, from, caseSensitive);
      forall x: Json ensures AddAt(document, "", x, caseSensitive).status == 9 { NoAdd(document, x, caseSensitive); }
    } else if Proper(v, from, caseSensitive) {
      hide Add;
      ResolveRefines(document, from, caseSensitive);
      var at := Resolve(document, PathText(from), caseSensitive);
      if at.Some? { AddRefines(document, path, At(document, at.value), caseSensitive); }
    } else {
      hide Add;
      ImproperFails(document, from, caseSensitive);
    }
  }

  // ---- Every operation ----

  /** Which part of `apply_patch` handles a request. */
  lemma Dispatch(document: Json, patch: Json, r: Request, caseSensitive: bool)
    requires Sound(r, caseSensitive) && Asks(patch, r, caseSensitive)
    ensures ApplyPatch(document, patch, caseSensitive) ==
            var text := PathText(r.path);
            match r
            case DoAdd(path, x) => if path == [] then Applied(0, x) else AddAt(document, text, x, caseSensitive)
            case DoRemove(path) =>
              var d := Detach(document, text, caseSensitive);
              if d.None? then Applied(13, document) else Applied(0, d.value.document)
            case DoReplace(path, x) =>
              if path == [] then Applied(0, x)
              else
                var d := Detach(document, text, caseSensitive);
                if d.None? then Applied(13, document) else AddAt(d.value.document, text, x, caseSensitive)
            case DoMove(_, from) => ApplyFrom(document, text, Some(String(PathText(from))), true, caseSensitive)
            case DoCopy(_, from) => ApplyFrom(document, text, Some(String(PathText(from))), false, caseSensitive)
            case DoTest(_, x) => ApplyTest(document, text, Some(x), caseSensitive)
  {
    hide *;
    AskedOpcode(patch, r, caseSensitive);
    TextEmpty(r.path);
    AskedActs(document, patch, r, caseSensitive);
    if r.DoRemove? { RemovesBelow(r, caseSensitive); }
    Acts(document, r, Field(patch, "value", caseSensitive), Field(patch, "from", caseSensitive), caseSensitive);
  }

  /** The fields go to `Act`. */
  lemma AskedActs(document: Json, patch: Json, r: Request, caseSensitive: bool)
    requires Asks(patch, r, caseSensitive)
    ensures var value, from := Field(patch, "value", caseSensitive), Field(patch, "from", caseSensitive);
            && ApplyPatch(document, patch, caseSensitive) ==
               Act(document, DecodeOperation(patch, caseSensitive), PathText(r.path), value, from, caseSensitive)
            && (r.DoAdd? || r.DoReplace? || r.DoTest? ==> value == Some(r.value))
            && (r.DoMove? || r.DoCopy? ==> from == Some(String(PathText(r.from))))
  {
    hide Field, DecodeOperation, Act, PathText;
  }

  lemma Acts(document: Json, r: Request, value: Option<Json>, from: Option<Json>, caseSensitive: bool)
    requires r.DoAdd? || r.DoReplace? || r.DoTest? ==> value == Some(r.value)
    requires r.DoMove? || r.DoCopy? ==> from == Some(String(PathText(r.from)))
    requires (PathText(r.path) == "" <==> r.path == []) && (r.DoRemove? ==> r.path != [])
    ensures Act(document, Code(r), PathText(r.path), value, from, caseSensitive) ==
            var text := PathText(r.path);
            match r
            case DoAdd(path, x) => if path == [] then Applied(0, x) else AddAt(document, text, x, caseSensitive)
            case DoRemove(path) =>
              var d := Detach(document, text, caseSensitive);
              if d.None? then Applied(13, document) else Applied(0, d.value.document)
            case DoReplace(path, x) =>
              if path == [] then Applied(0, x)
              else
                var d := Detach(document, text, caseSensitive);
                if d.None? then Applied(13, document) else AddAt(d.value.document, text, x, caseSensitive)
            case DoMove(_, f) => ApplyFrom(document, text, Some(String(PathText(f))), true, caseSensitive)
            case DoCopy(_, f) => ApplyFrom(document, text, Some(String(PathText(f))), false, caseSensitive)
            case DoTest(_, x) => ApplyTest(document, text, Some(x), caseSensitive)
  {
    hide Detach, AddAt, PathText, ApplyFrom, ApplyTest;
  }

  lemma RemovesBelow(r: Request, caseSensitive: bool)
    requires Sound(r, caseSensitive) && r.DoRemove?
    ensures r.path != []
  {
  }

  /**
   Another member than the one that is meant answers to its name.  For a "move" this does no
   harm if both mean the same and the object that holds them is overwritten.
   */
  ghost predicate Confused(document: Json, r: Request, caseSensitive: bool) {
    match r
    case DoRemove(path) => !FindsSame(document, path, caseSensitive)
    case DoReplace(path, _) => !FindsSame(document, path, caseSensitive)
    case DoMove(path, from) =>
      from != [] && !FindsSame(document, from, caseSensitive) &&
      !(Covers(View(document, caseSensitive), path, DropLast(from)) && Twins(document, from, caseSensitive))
    case _ => false
  }

  /**
   The code refuses what it should do: a "copy" or "move" of something onto the root, a "move"
   for which it has taken away the member that the path leads through, and a "test" of two
   values that it has sorted differently.
   */
  ghost predicate Refuses(document: Json, r: Request, caseSensitive: bool) {
    match r
    case DoCopy(path, from) => path == [] && Found(document, from, caseSensitive)
    case DoMove(path, from) =>
      Found(document, from, caseSensitive) &&
      (path == [] || (!FindsSame(document, from, caseSensitive) && Addable(document, path, caseSensitive)))
    case DoTest(path, x) =>
      Found(document, path, caseSensitive) && Passes(document, path, x, caseSensitive) &&
      !TestAligned(document, path, x, caseSensitive)
    case _ => false
  }

  lemma MoveRefines(document: Json, path: seq<string>, from: seq<string>, caseSensitive: bool)
    requires Sound(DoMove(path, from), caseSensitive) && Applicable(document, DoMove(path, from), caseSensitive)
    ensures var r := DoMove(path, from);
            var a := ApplyFrom(document, PathText(path), Some(String(PathText(from))), true, caseSensitive);
            var v := View(document, caseSensitive);
            var p := Perform(v, OpMove(path, from), caseSensitive);
            && (a.status == 0 ==>
                  (Right(a, p, caseSensitive) <==> ProperRequest(v, r, caseSensitive) && !Confused(document, r, caseSensitive)))
            && (a.status != 0 ==> (p.Some? <==> Refuses(document, r, caseSensitive)))
            && (p.Some? ==> ProperRequest(v, r, caseSensitive))
  {
    SameFolding(document, from);
    hide ApplyFrom, Perform, View, Distinct, PathText, FindsSame, Found, Addable, Covers, Twins, Proper, Above, Remove;
    if path == [] || from == [] {
      MoveToRoot(document, path, from, caseSensitive);
      RootSame(document, caseSensitive);
    } else if FindsSame(document, from, caseSensitive) {
      MoveFinds(document, path, from, caseSensitive);
      hide Sound, Applicable;
    } else {
      MoveMistakes(document, path, from);
      hide Sound, Applicable, Right;
    }
  }

  /** Ignoring case both lookups are the same one. */
  lemma SameFolding(document: Json, path: seq<string>)
    ensures FindsSame(document, path, false)
  {
  }

  lemma RootSame(document: Json, caseSensitive: bool)
    ensures FindsSame(document, [], caseSensitive)
  {
  }

  /**
   Every operation, in both case modes, for every patch that asks for it.  If `apply_patch`
   returns 0, the document is what RFC 6902 says if and only if every token that meets an
   array is an index of RFC 6901 that fits, nothing is moved into its own child and the lookup
   ignoring case confuses nothing.  If it fails, the RFC fails if and only if the code does
   not refuse what it should do.
   */
  lemma ApplyRefines(document: Json, patch: Json, r: Request, caseSensitive: bool)
    requires Sound(r, caseSensitive) && Applicable(document, r, caseSensitive) && Asks(patch, r, caseSensitive)
    ensures var a, v := ApplyPatch(document, patch, caseSensitive), View(document, caseSensitive);
            var p := Perform(v, Denotes(r, caseSensitive), caseSensitive);
            && (a.status == 0 ==>
                  (Right(a, p, caseSensitive) <==> ProperRequest(v, r, caseSensitive) && !Confused(document, r, caseSensitive)))
            && (a.status != 0 ==> (p.Some? <==> Refuses(document, r, caseSensitive)))
            && (p.Some? ==> ProperRequest(v, r, caseSensitive))
  {
    hide ApplyPatch, Asks, Distinct, Detach, AddAt, PathText, ApplyFrom, ApplyTest, Writable, RawFree, Consistent, Get, Add, Remove;
    hide View, Height, Resolve, Proper, Indexable, FindsSame, Above, Same, Found, Passes, Addable, TestAligned, Twins, Covers;
    Dispatch(document, patch, r, caseSensitive);
    if r.path == [] && (r.DoAdd? || r.DoReplace?) { AtRoot(document, r, caseSensitive); }
    match r {
      case DoAdd(path, x) => if path != [] { AddRefines(document, path, x, caseSensitive); }
      case DoRemove(path) => RemoveRefines(document, path, caseSensitive);
      case DoReplace(path, x) => if path != [] { ReplaceRefines(document, path, x, caseSensitive); }
      case DoMove(path, from) => MoveRefines(document, path, from, caseSensitive);
      case DoCopy(path, from) => CopyRefines(document, path, from, caseSensitive);
      case DoTest(path, x) => TestRefines(document, path, x, caseSensitive);
    }
  }

  lemma AtRoot(document: Json, r: Request, caseSensitive: bool)
    requires r.path == [] && (r.DoAdd? || r.DoReplace?)
    ensures Perform(View(document, caseSensitive), Denotes(r, caseSensitive), caseSensitive) == Some(View(r.value, caseSensitive))
    ensures Proper(View(document, caseSensitive), r.path, caseSensitive) && FindsSame(document, r.path, caseSensitive)
  {
  }

  lemma RemoveRefines(document: Json, path: seq<string>, caseSensitive: bool)
    requires Distinct(document, caseSensitive) && Readable(document, path, caseSensitive) && path != [] && Writable(path)
    ensures var d, v := Detach(document, PathText(path), caseSensitive), View(document, caseSensitive);
            var w := Remove(v, path, caseSensitive);
            && (d.None? || !Proper(v, path, caseSensitive) ==> w.None?)
            && (d.Some? ==>
                  (Right(Applied(0, d.value.document), w, caseSensitive) <==>
                   Proper(v, path, caseSensitive) && FindsSame(document, path, caseSensitive)))
  {
    hide Detach, PathText, Remove, View, Distinct, Proper, FindsSame, Indexable, Writable, Get;
    DetachRefines(document, path, caseSensitive);
    if !Proper(View(document, caseSensitive), path, caseSensitive) { RemoveImproper(document, path, caseSensitive); }
  }

  /** Ignoring case the only requests that the code refuses wrongly are those onto the root. */
  lemma ApplyExactly(document: Json, patch: Json, r: Request)
    requires Sound(r, false) && Applicable(document, r, false) && Asks(patch, r, false)
    ensures var a, v := ApplyPatch(document, patch, false), View(document, false);
            var p := Perform(v, Denotes(r, false), false);
            && (p.Some? <==>
                  || (a.status == 0 && ProperRequest(v, r, false))
                  || ((r.DoMove? || r.DoCopy?) && r.path == [] && Found(document, r.from, false)))
            && (p.Some? && a.status == 0 ==> Means(a.document, p.value, false))
  {
    hide ApplyPatch, Asks, Distinct, View, Perform, ProperRequest, Resolve, Applicable, Found, FindsSame, Addable, Passes;
    ApplyRefines(document, patch, r, false);
    SameFolding(document, r.path);
    if r.DoMove? { SameFolding(document, r.from); }
    if (r.DoMove? || r.DoCopy?) && r.path == [] { RootFails(document, patch, r); }
  }

  /** A "copy" or "move" onto the root never succeeds. */
  lemma RootFails(document: Json, patch: Json, r: Request)
    requires Sound(r, false) && Applicable(document, r, false) && Asks(patch, r, false)
    requires (r.DoMove? || r.DoCopy?) && r.path == []
    ensures ApplyPatch(document, patch, false).status != 0
  {
    hide ApplyPatch, Asks, Distinct, View, Perform, Resolve, Found, FindsSame, ApplyFrom, PathText;
    Dispatch(document, patch, r, false);
    if r.DoMove? { MoveToRoot(document, r.path, r.from, false); } else { CopyRefines(document, r.path, r.from, false); }
  }

  // ---- Requests that the code and the RFC treat differently ----

  /** The empty token is no index, but is taken for 0. */
  lemma EmptyTokenRemoves(x: Json)
    ensures ApplyPatch(Array([x]), Compose(DoRemove([""])), false) == Applied(0, Array([]))
    ensures Perform(View(Array([x]), false), OpRemove([""]), false).None?
  {
    hide Detach, ApplyPatch, Compose, PathText, Writable, Perform;
    TakesFirst([x], "");
    assert [x][1..] == [];
    RemoveRuns(Array([x]), Array([]), x, [""]);
    EmptyTokenForbidden(Arr(ViewItems([x], false)));
    assert View(Array([x]), false) == Arr(ViewItems([x], false));
  }

  /** "copy" and "move" of a member onto the root: refused, and "move" has lost the member by then. */
  lemma RootRefused(x: Json)
    ensures ApplyPatch(Object([Member("a", x)]), Compose(DoCopy([], ["a"])), false) == Applied(9, Object([Member("a", x)]))
    ensures ApplyPatch(Object([Member("a", x)]), Compose(DoMove([], ["a"])), false) == Applied(9, Object([]))
    ensures var v := View(Object([Member("a", x)]), false);
            Perform(v, OpCopy([], ["a"]), false) == Perform(v, OpMove([], ["a"]), false) == Some(View(x, false))
  {
    hide *;
    var document := Object([Member("a", x)]);
    OnlyMember(x);
    NoSlashAtRoot();
    RootSound();
    ComposeAsks(DoCopy([], ["a"]), false);
    ComposeAsks(DoMove([], ["a"]), false);
    Dispatch(document, Compose(DoCopy([], ["a"])), DoCopy([], ["a"]), false);
    Dispatch(document, Compose(DoMove([], ["a"])), DoMove([], ["a"]), false);
    Transfers(document, PathText([]), PathText(["a"]));
    NoAdd(document, x, false);
    NoAdd(Object([]), x, false);
    NotAdded(document, x);
    NotAdded(Object([]), x);
    OnlyView(x);
  }

  lemma NotAdded(document: Json, x: Json)
    ensures AddAt(document, "", x, false).document == document
  {
  }

  lemma RootSound()
    ensures Sound(DoCopy([], ["a"]), false) && Sound(DoMove([], ["a"]), false) && Meaningful(OpCopy([], ["a"])) && Meaningful(OpMove([], ["a"]))
  {
    PlainWritable(["a"]);
    hide DecodesBack;
  }

  lemma Transfers(document: Json, path: string, from: string)
    ensures ApplyFrom(document, path, Some(String(from)), false, false) ==
            var at := Resolve(document, from, false);
            if at.None? then Applied(5, document) else AddAt(document, path, At(document, at.value), false)
    ensures ApplyFrom(document, path, Some(String(from)), true, false) ==
            var d := Detach(document, from, false);
            if d.None? then Applied(5, document) else AddAt(d.value.document, path, d.value.item, false)
  {
    hide Detach, AddAt, Resolve, At;
  }

  /** The only member of an object, by its pointer. */
  lemma OnlyMember(x: Json)
    ensures var document := Object([Member("a", x)]);
            && Resolve(document, PathText(["a"]), false) == Some([0]) && Exists(document, [0]) && At(document, [0]) == x
            && Detach(document, PathText(["a"]), false) == Some(Detached(Object([]), x))
  {
    var document := Object([Member("a", x)]);
    OnlyStep(x);
    hide *;
    ResolveText(document, ["a"], false);
    assert ["a"][1..] == [] && [0] + [] == [0];
    TextEmpty([]);
    RootFound(x);
    RootFound(document);
    DetachAtParent(document, ["a"], false);
  }

  lemma OnlyStep(x: Json)
    ensures var document := Object([Member("a", x)]);
            && Step(document, Encode("a"), false) == Some(0) && ChildAt(document, 0) == x
            && Exists(document, [0]) && At(document, [0]) == x && Writable(["a"])
            && DetachChild(document, "a") == Some(Detached(Object([]), x)) && DropLast(["a"]) == [] && Last(["a"]) == "a"
            && Put(document, [], Object([])) == Object([]) && PathText([]) == ""
  {
    hide *;
    OnlyAt(x);
    TextEmpty([]);
    OnlyFound([Member("a", x)], "a");
  }

  lemma OnlyAt(x: Json)
    ensures var document := Object([Member("a", x)]);
            && ChildAt(document, 0) == x && Exists(document, [0]) && At(document, [0]) == x && Writable(["a"])
            && DropLast(["a"]) == [] && Last(["a"]) == "a" && Put(document, [], Object([])) == Object([])
  {
    PlainWritable(["a"]);
    hide DecodesBack;
    assert [0][1..] == [];
    assert Exists(x, []) && At(x, []) == x;
  }

  lemma OnlyFound(ms: seq<Member<Json>>, key: string)
    requires |ms| == 1 && ms[0].key == key
    ensures Step(Object(ms), Encode(key), false) == Some(0)
    ensures DetachChild(Object(ms), key) == Some(Detached(Object([]), ms[0].value))
  {
    FirstMember(ms, key);
    FindNamedIsFindMember(ms, key, false);
    hide Fold, Encode, FindMember, FindNamed;
    assert ms[..0] + ms[1..] == [];
  }

  lemma FirstMember(ms: seq<Member<Json>>, key: string)
    requires ms != [] && ms[0].key == key
    ensures FindMember(ms, key, false) == 0
  {
    CmpZero(Fold(key, false), Fold(key, false));
    hide Fold;
  }

  lemma RootFound(j: Json)
    ensures Resolve(j, "", false) == Some([]) && Exists(j, []) && At(j, []) == j
  {
  }

  lemma OnlyView(x: Json)
    ensures var v := View(Object([Member("a", x)]), false);
            Perform(v, OpCopy([], ["a"]), false) == Perform(v, OpMove([], ["a"]), false) == Some(View(x, false))
  {
    var v, ms := View(Object([Member("a", x)]), false), [Member("a", x)];
    assert ms[0] == Member("a", x) && ms[1..] == [];
    ViewOfHead(ms);
    assert Get(v, ["a"], false) == Some(View(x, false)) by {
      assert v == Obj(ViewMembers(ms, false));
      assert ["a"][1..] == [];
    }
    RemoveFound(v, ["a"], false);
    hide Fold, View, ViewMembers, Remove, Get;
  }

  lemma EmptyTokenForbidden(v: Value)
    requires !v.Obj?
    ensures Perform(v, OpRemove([""]), false).None?
  {
    assert DropLast([""]) == [];
  }

  lemma IntoItselfForbidden(v: Value, path: seq<string>, from: seq<string>)
    requires path != [] && from != [] && Above(from, path, false)
    ensures Perform(v, OpMove(path, from), false).None?
  {
  }

  lemma RemoveRuns(document: Json, rest: Json, x: Json, path: seq<string>)
    requires path != [] && Writable(path) && Detach(document, PathText(path), false) == Some(Detached(rest, x))
    ensures ApplyPatch(document, Compose(DoRemove(path)), false) == Applied(0, rest)
  {
    hide Detach, ApplyPatch, Compose, PathText;
    ComposeAsks(DoRemove(path), false);
    Dispatch(document, Compose(DoRemove(path)), DoRemove(path), false);
  }

  lemma MoveRuns(document: Json, rest: Json, after: Json, x: Json, path: seq<string>, from: seq<string>)
    requires path != [] && from != [] && Writable(path) && Writable(from)
    requires Detach(document, PathText(from), false) == Some(Detached(rest, x))
    requires AddAt(rest, PathText(path), x, false) == Applied(0, after)
    ensures ApplyPatch(document, Compose(DoMove(path, from)), false) == Applied(0, after)
  {
    hide Detach, ApplyPatch, Compose, PathText, AddAt;
    ComposeAsks(DoMove(path, from), false);
    Dispatch(document, Compose(DoMove(path, from)), DoMove(path, from), false);
  }

  lemma FirstIndex(t: string)
    requires t == "" || t == "0"
    ensures Plain(t) && Token(t) == t && DecodeIndex(t) == Some(0) && Encode(t) == t && t != "-"
  {
    assert "0"[1..] == "" && forall i | 0 <= i < |"0"| :: "0"[i] >= '0';
    assert WrapHorner(0, "0") == WrapHorner(0, "");
    TokenOfAll(t);
    EncodePlain(t);
    hide Encode, Token;
  }

  /** How "" and "0" take the first element of an array that is the whole document. */
  lemma TakesFirst(items: seq<Json>, t: string)
    requires items != [] && (t == "" || t == "0")
    ensures Writable([t]) && Detach(Array(items), PathText([t]), false) == Some(Detached(Array(items[1..]), items[0]))
  {
    FirstIndex(t);
    hide Token, DecodeIndex, Encode;
    PlainWritable([t]);
    DetachAtParent(Array(items), [t], false);
    hide Detach, PathText;
    assert [t][..0] == [];
    TextEmpty([]);
    assert items[..0] + items[1..] == items[1..];
  }

  /** An array element moves into its neighbour, which has taken its index meanwhile. */
  lemma MovesIntoOther(x: Json)
    ensures ApplyPatch(Array([x, Object([])]), Compose(DoMove(["0", "x"], ["0"])), false) ==
            Applied(0, Array([Object([Member("x", x)])]))
    ensures Perform(View(Array([x, Object([])]), false), OpMove(["0", "x"], ["0"]), false).None?
  {
    hide View, Detach, ApplyPatch, Compose, PathText, AddAt, Writable, Perform, Fold;
    assert Above(["0"], ["0", "x"], false);
    IntoItselfForbidden(View(Array([x, Object([])]), false), ["0", "x"], ["0"]);
    hide Above;
    AddsBelowFirst(x);
    TakesFirst([x, Object([])], "0");
    assert [x, Object([])][1..] == [Object([])];
    MoveRuns(Array([x, Object([])]), Array([Object([])]), Array([Object([Member("x", x)])]), x, ["0", "x"], ["0"]);
  }

  lemma AddsBelowFirst(x: Json)
    ensures Writable(["0", "x"])
    ensures AddAt(Array([Object([])]), PathText(["0", "x"]), x, false) == Applied(0, Array([Object([Member("x", x)])]))
  {
    FirstIndex("0");
    assert Plain("x");
    PlainWritable(["0", "x"]);
    hide AddAt, PathText, Resolve, Writable, AddToParent, At, Put, DecodeIndex, Token, Encode, Exists;
    assert ["0", "x"][..1] == ["0"];
    ResolvesFirst(Object([]));
    EditsFirst(Object([]), Object([Member("x", x)]));
    AddsToNothing(x);
    AddRuns(Array([Object([])]), ["0", "x"], [0], Object([Member("x", x)]), x);
  }

  lemma AddRuns(document: Json, path: seq<string>, at: Position, parent: Json, x: Json)
    requires path != [] && Writable(path) && Resolve(document, PathText(DropLast(path)), false) == Some(at)
    requires AddToParent(At(document, at), Last(path), x, false) == Accepted(parent)
    ensures AddAt(document, PathText(path), x, false) == Applied(0, Put(document, at, parent))
  {
    hide AddAt, PathText, Resolve, Writable, AddToParent, At, Put;
    AddAtParent(document, path, x, false);
  }

  lemma EditsFirst(x: Json, y: Json)
    ensures Exists(Array([x]), [0]) && At(Array([x]), [0]) == x && Put(Array([x]), [0], y) == Array([y])
  {
    assert [0][1..] == [] && [x][0 := y] == [y];
    assert Exists(x, []) && At(x, []) == x && Put(x, [], y) == y;
  }

  lemma AddsToNothing(x: Json)
    ensures AddToParent(Object([]), "x", x, false) == Accepted(Object([Member("x", x)]))
  {
    assert [] + [Member("x", x)] == [Member("x", x)];
  }

  lemma ResolvesFirst(x: Json)
    ensures Resolve(Array([x]), PathText(["0"]), false) == Some([0])
  {
    FirstIndex("0");
    hide Token, DecodeIndex, Encode, PathText;
    TextEmpty([]);
    assert Resolve(x, "", false) == Some([]);
    hide Resolve;
    assert Pointer.Step(Array([x]), "0", false) == Some(0);
    ResolveText(Array([x]), ["0"], false);
    assert ["0"][1..] == [] && [0] + [] == [0];
  }
}
