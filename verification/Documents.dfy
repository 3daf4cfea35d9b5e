/**
 The edits of `cJSON_Utils.c` as they work, on trees that know what first members point back at:
 a document that is patched and merged into, a list that patches are appended to, and
 comparison and generation, which sort their operands as they go.
 */
module Documents {
  import opened CString
  import opened Decimal
  import opened Json
  import opened MemberSort
  import opened Options
  import opened Pointer
  import opened Compare
  import opened Links
  import opened Patch
  import opened Diff
  import opened MergeDiff
  import opened FindPointer
  import opened LinkedPatch
  import opened LinkedMerge
  import opened Operands

  // ---- Lookup ----

  /** `get_object_item`, one member after the other. */
  method FindItem<T>(members: seq<Member<T>>, key: string, caseSensitive: bool) returns (i: nat)
    ensures i == FindMember(members, key, caseSensitive)
  {
    hide Fold;
    i := 0;
    assert members[0..] == members;
    while i < |members| && CompareStrings(key, members[i].key, caseSensitive) != 0
      invariant 0 <= i <= |members|
      invariant FindMember(members, key, caseSensitive) == i + FindMember(members[i..], key, caseSensitive)
    {
      assert members[i..][1..] == members[i + 1..];
      i := i + 1;
    }
  }

  method GetField(patch: Json, name: string, caseSensitive: bool) returns (field: Option<Json>)
    ensures field == Field(patch, name, caseSensitive)
  {
    hide FindMember;
    field := None;
    if patch.Object? {
      var i := FindItem(patch.members, name, caseSensitive);
      if i < |patch.members| {
        field := Some(patch.members[i].value);
      }
    }
  }

  // ---- decode_pointer_inplace ----

  /** One buffer with two positions in it; the result is the C string it holds afterwards. */
  method DecodePointerInPlace(s: array<char>) returns (length: nat)
    requires s.Length > 0 && s[s.Length - 1] == NUL && NulFree(s[..s.Length - 1])
    modifies s
    ensures length < s.Length && s[length] == NUL && s[..length] == Decode(old(s[..s.Length - 1]))
  {
    hide DecodeInPlace;
    ghost var original := s[..s.Length - 1];
    var write, read := 0, 0;
    while s[read] != NUL
      invariant 0 <= write <= read < s.Length
      invariant s[read..] == old(s[read..])
      invariant Decode(original) == DecodeInPlace(original, s[..s.Length - 1], write, read)
      decreases s.Length - read
    {
      ghost var before, tail, start := s[..s.Length - 1], s[read..], read;
      DecodeStep(original, before, write, read);
      if s[read] == '~' {
        if s[read + 1] == '0' {
          s[write] := '~';
          assert s[..s.Length - 1] == before[write := '~'];
        } else if s[read + 1] == '1' {
          s[write + 1] := '/';
          assert s[..s.Length - 1] == before[write + 1 := '/'];
        } else {
          return s.Length - 1;
        }
        read := read + 1;
      }
      write, read := write + 1, read + 1;
      assert s[read..] == tail[read - start..];
    }
    DecodeEnd(original, s[..s.Length - 1], write, read);
    assert s[..s.Length - 1][..write] == s[..write];
    s[write] := NUL;
    length := write;
  }

  lemma DecodeStep(original: string, buffer: string, write: nat, read: nat)
    requires write <= read < |original| == |buffer|
    ensures DecodeInPlace(original, buffer, write, read) ==
            if original[read] != '~' then DecodeInPlace(original, buffer, write + 1, read + 1)
            else if read + 1 < |original| && original[read + 1] == '0' then
              DecodeInPlace(original, buffer[write := '~'], write + 1, read + 2)
            else if read + 1 < |original| && original[read + 1] == '1' then
              DecodeInPlace(original, buffer[write + 1 := '/'], write + 1, read + 2)
            else buffer
  {
  }

  lemma DecodeEnd(original: string, buffer: string, write: nat, read: nat)
    requires write <= read == |original| == |buffer|
    ensures DecodeInPlace(original, buffer, write, read) == buffer[..write]
  {
  }

  // ---- compare_json ----

  ghost function AheadLists(xs: seq<Tree>, ys: seq<Tree>, r: ListsCompared): ListsCompared {
    ListsCompared(r.equal, xs + r.xs, ys + r.ys)
  }

  lemma ListsRound(done: seq<Tree>, done2: seq<Tree>, xs: seq<Tree>, ys: seq<Tree>, caseSensitive: bool)
    requires xs != [] && ys != []
    ensures var c := CompareTree(xs[0], ys[0], caseSensitive);
            AheadLists(done, done2, CompareLists(xs, ys, caseSensitive)) ==
            if c.equal then AheadLists(done + [c.a], done2 + [c.b], CompareLists(xs[1..], ys[1..], caseSensitive))
            else ListsCompared(false, (done + [c.a]) + xs[1..], (done2 + [c.b]) + ys[1..])
  {
    hide CompareTree;
    var c := CompareTree(xs[0], ys[0], caseSensitive);
    var rest := CompareLists(xs[1..], ys[1..], caseSensitive);
    assert done + ([c.a] + rest.xs) == (done + [c.a]) + rest.xs && done2 + ([c.b] + rest.ys) == (done2 + [c.b]) + rest.ys;
    assert done + ([c.a] + xs[1..]) == (done + [c.a]) + xs[1..] && done2 + ([c.b] + ys[1..]) == (done2 + [c.b]) + ys[1..];
  }

  lemma ContainerHeight(t: Tree)
    ensures t.List? ==> ItemsHeight(Contents(t.items)) < Height(Content(t))
    ensures t.Record? ==> MembersHeight(MemberContents(t.members)) < Height(Content(t))
  {
  }

  lemma ElementHeight(ts: seq<Tree>, i: nat)
    requires i < |ts|
    ensures Height(Content(ts[i])) <= ItemsHeight(Contents(ts))
  {
  }

  lemma ValueHeight(ms: seq<Member<Tree>>, i: nat)
    requires i < |ms|
    ensures Height(Content(ms[i].value)) <= MembersHeight(MemberContents(ms))
  {
    assert MemberContents(ms)[i].value == Content(ms[i].value);
  }

  /** `compare_json`: the verdict, and both trees as the sorting leaves them. */
  method CompareTrees(a: Tree, b: Tree, caseSensitive: bool) returns (r: TreesCompared)
    ensures r == CompareTree(a, b, caseSensitive)
    decreases Height(Content(a)), 1
  {
    hide CompareLists, CompareRecords, Sort, BackAfter, Contents, MemberContents;
    if !SameType(Content(a), Content(b)) {
      return TreesCompared(false, a, b);
    }
    ContainerHeight(a);
    match a
    case Scalar(x, _) => {
      var y := b.atom;
      var equal := match x
        case Number(d, n) => d == y.valuedouble && n == y.valueint
        case String(s) => s == y.text
        case _ => true;
      r := TreesCompared(equal, a, b);
    }
    case List(items, mark) =>
      var c := CompareArrays(items, b.items, caseSensitive);
      r := TreesCompared(c.equal, List(c.xs, mark), List(c.ys, b.mark));
    case Record(members, back, mark) =>
      SortedHeight(members, caseSensitive);
      var c := CompareObjects(Sort(members, caseSensitive), Sort(b.members, caseSensitive), caseSensitive);
      r := TreesCompared(c.equal, Record(c.ms, BackAfter(members, back, caseSensitive), mark),
                         Record(c.ns, BackAfter(b.members, b.back, caseSensitive), b.mark));
  }

  lemma NoLists(xs: seq<Tree>, ys: seq<Tree>, done: seq<Tree>, done2: seq<Tree>, caseSensitive: bool)
    ensures xs == [] || ys == [] ==>
      AheadLists(done, done2, CompareLists(xs, ys, caseSensitive)) == ListsCompared(xs == [] && ys == [], done + xs, done2 + ys)
    ensures AheadLists([], [], CompareLists(xs, ys, caseSensitive)) == CompareLists(xs, ys, caseSensitive)
  { }

  /** The loop over two arrays. */
  method CompareArrays(xs: seq<Tree>, ys: seq<Tree>, caseSensitive: bool) returns (r: ListsCompared)
    ensures r == CompareLists(xs, ys, caseSensitive)
    decreases ItemsHeight(Contents(xs)), 2
  {
    hide CompareLists, CompareTree, AheadLists, Height, ItemsHeight, Content, Contents;
    var done, done2: seq<Tree> := [], [];
    var i := 0;
    assert xs[0..] == xs && ys[0..] == ys;
    NoLists(xs, ys, [], [], caseSensitive);
    while i < |xs| && i < |ys|
      invariant 0 <= i <= |xs| && i <= |ys|
      invariant CompareLists(xs, ys, caseSensitive) == AheadLists(done, done2, CompareLists(xs[i..], ys[i..], caseSensitive))
      decreases |xs| - i
    {
      assert xs[i..][1..] == xs[i + 1..] && ys[i..][1..] == ys[i + 1..];
      ListsRound(done, done2, xs[i..], ys[i..], caseSensitive);
      ElementHeight(xs, i);
      var c := CompareTrees(xs[i], ys[i], caseSensitive);
      done, done2 := done + [c.a], done2 + [c.b];
      if !c.equal {
        return ListsCompared(false, done + xs[i + 1..], done2 + ys[i + 1..]);
      }
      i := i + 1;
    }
    NoLists(xs[i..], ys[i..], done, done2, caseSensitive);
    r := ListsCompared(i == |xs| && i == |ys|, done + xs[i..], done2 + ys[i..]);
  }

  ghost function AheadRecords(ms: seq<Member<Tree>>, ns: seq<Member<Tree>>, r: RecordsCompared): RecordsCompared {
    RecordsCompared(r.equal, ms + r.ms, ns + r.ns)
  }

  lemma RecordsRound(
    done: seq<Member<Tree>>, done2: seq<Member<Tree>>, ms: seq<Member<Tree>>, ns: seq<Member<Tree>>, caseSensitive: bool)
    requires ms != [] && ns != []
    ensures var c := CompareTree(ms[0].value, ns[0].value, caseSensitive);
            var d, d2 := done + [Member(ms[0].key, c.a)], done2 + [Member(ns[0].key, c.b)];
            AheadRecords(done, done2, CompareRecords(ms, ns, caseSensitive)) ==
            if CompareStrings(ms[0].key, ns[0].key, caseSensitive) != 0 then RecordsCompared(false, done + ms, done2 + ns)
            else if c.equal then AheadRecords(d, d2, CompareRecords(ms[1..], ns[1..], caseSensitive))
            else RecordsCompared(false, d + ms[1..], d2 + ns[1..])
  {
    var c := CompareTree(ms[0].value, ns[0].value, caseSensitive);
    var m, n := Member(ms[0].key, c.a), Member(ns[0].key, c.b);
    var rest := CompareRecords(ms[1..], ns[1..], caseSensitive);
    hide CompareTree, CompareStrings, CompareRecords;
    RecordsStep(ms, ns, caseSensitive);
    TreeAssoc(done, m, rest.ms);
    TreeAssoc(done2, n, rest.ns);
    TreeAssoc(done, m, ms[1..]);
    TreeAssoc(done2, n, ns[1..]);
  }

  lemma TreeAssoc(done: seq<Member<Tree>>, m: Member<Tree>, rest: seq<Member<Tree>>)
    ensures done + ([m] + rest) == (done + [m]) + rest
  {
  }

  lemma NoRecords(
    ms: seq<Member<Tree>>, ns: seq<Member<Tree>>, done: seq<Member<Tree>>, done2: seq<Member<Tree>>, caseSensitive: bool)
    ensures ms == [] || ns == [] ==>
      AheadRecords(done, done2, CompareRecords(ms, ns, caseSensitive)) ==
      RecordsCompared(ms == [] && ns == [], done + ms, done2 + ns)
    ensures AheadRecords([], [], CompareRecords(ms, ns, caseSensitive)) == CompareRecords(ms, ns, caseSensitive)
  { }

  /** The walk over two sorted objects. */
  method CompareObjects(ms: seq<Member<Tree>>, ns: seq<Member<Tree>>, caseSensitive: bool) returns (r: RecordsCompared)
    ensures r == CompareRecords(ms, ns, caseSensitive)
    decreases MembersHeight(MemberContents(ms)), 2
  {
    hide CompareRecords, CompareTree, AheadRecords, Height, MembersHeight, CompareStrings, Content, MemberContents;
    var done, done2: seq<Member<Tree>> := [], [];
    var i := 0;
    assert ms[0..] == ms && ns[0..] == ns;
    NoRecords(ms, ns, [], [], caseSensitive);
    while i < |ms| && i < |ns|
      invariant 0 <= i <= |ms| && i <= |ns|
      invariant CompareRecords(ms, ns, caseSensitive) == AheadRecords(done, done2, CompareRecords(ms[i..], ns[i..], caseSensitive))
      decreases |ms| - i
    {
      assert ms[i..][1..] == ms[i + 1..] && ns[i..][1..] == ns[i + 1..];
      RecordsRound(done, done2, ms[i..], ns[i..], caseSensitive);
      if CompareStrings(ms[i].key, ns[i].key, caseSensitive) != 0 {
        return RecordsCompared(false, done + ms[i..], done2 + ns[i..]);
      }
      ValueHeight(ms, i);
      var c := CompareTrees(ms[i].value, ns[i].value, caseSensitive);
      done, done2 := done + [Member(ms[i].key, c.a)], done2 + [Member(ns[i].key, c.b)];
      if !c.equal {
        return RecordsCompared(false, done + ms[i + 1..], done2 + ns[i + 1..]);
      }
      i := i + 1;
    }
    NoRecords(ms[i..], ns[i..], done, done2, caseSensitive);
    r := RecordsCompared(i == |ms| && i == |ns|, done + ms[i..], done2 + ns[i..]);
  }

  // ---- Paths ----

  /** `strrchr(path, '/')`. */
  method FindLastSlash(path: string) returns (slash: Option<nat>)
    ensures slash == LastSlash(path)
  {
    hide LastSlash;
    var i := |path|;
    assert path[..i] == path;
    while i > 0 && path[i - 1] != '/'
      invariant 0 <= i <= |path|
      invariant LastSlash(path) == LastSlash(path[..i])
    {
      i := i - 1;
    }
    if i == 0 {
      return None;
    }
    slash := Some(i - 1);
  }

  /** The last token of a path, copied and decoded. */
  method DecodeChild(token: string) returns (child: string)
    requires NulFree(token)
    ensures child == Decode(token)
  {
    var copy := new char[|token| + 1];
    var i := 0;
    while i < |token|
      invariant 0 <= i <= |token| && copy[..i] == token[..i]
    {
      copy[i] := token[i];
      i := i + 1;
    }
    copy[|token|] := NUL;
    assert copy[..|token|] == token;
    var length := DecodePointerInPlace(copy);
    child := copy[..length];
  }

  // ---- Documents ----

  /** The text of a field is a C string. */
  ghost predicate CText(field: Option<Json>) {
    field.Some? && field.value.String? ==> NulFree(field.value.text)
  }

  /** The paths in a patch are C strings. */
  ghost predicate CPatch(patch: Json, caseSensitive: bool) {
    CText(Field(patch, "path", caseSensitive)) && CText(Field(patch, "from", caseSensitive))
  }

  lemma Split(path: string, slash: nat)
    requires NulFree(path) && slash < |path|
    ensures NulFree(path[..slash]) && NulFree(path[slash + 1..])
  {
  }

  /** Out of an array by index, or out of an object by key. */
  method TakeFrom(node: Tree, child: string, mark: nat, ends: set<nat>) returns (d: Taking)
    ensures d == TakeChild(node, child, mark, ends)
  {
    hide DecodeIndex, FindMember, Token, TakeMember;
    d := Missing;
    if node.List? {
      var index := DecodeArrayIndex(child);
      if index.Some? && index.value < |node.items| {
        d := Taken(List(node.items[..index.value] + node.items[index.value + 1..], node.mark), node.items[index.value]);
      }
    } else if node.Record? {
      var i := FindItem(node.members, child, false);
      if i < |node.members| {
        if i == 0 && Tears(node, ends) {
          return Torn;
        }
        d := TakeMember(node, i, mark);
      }
    }
  }

  /** Into an array by index or "-", or into an object under a key. */
  method PlaceUnder(node: Tree, child: string, value: Tree, caseSensitive: bool, ends: set<nat>) returns (p: Placing)
    ensures p == PlaceIn(node, child, value, caseSensitive, ends)
  {
    hide DecodeIndex, FindMember, Token, Appended, Dropped;
    if node.List? {
      if child == "-" {
        return Placed(List(node.items + [value], node.mark));
      }
      var index := DecodeArrayIndex(child);
      if index.None? {
        return Rejected(11);
      }
      if index.value > |node.items| {
        return Rejected(10);
      }
      return Placed(List(node.items[..index.value] + [value] + node.items[index.value..], node.mark));
    }
    if node.Record? {
      var i := FindItem(node.members, child, caseSensitive);
      var rest := node;
      if i < |node.members| {
        if i == 0 && Tears(node, ends) {
          return Tearing;
        }
        rest := Dropped(node, i);
      }
      return Placed(Appended(rest, Member(child, value)));
    }
    return Rejected(9);
  }

  /** How a call ends: with a list torn, or with a status and the document as it is then. */
  ghost predicate Finished(o: Outcome, torn: bool, status: int, root: Tree) {
    if torn then o == Broken else o == Ran(status, root)
  }

  class Document {
    var root: Tree

    constructor (root: Tree)
      ensures this.root == root
    {
      this.root := root;
    }

    /** `detach_path`; `Torn` says that the list that was edited is broken. */
    method DetachPath(path: string, caseSensitive: bool, move: bool) returns (d: Taking)
      requires NulFree(path)
      modifies this
      ensures d == Take(old(root), path, caseSensitive, move, true)
      ensures root == if d.Taken? then d.document else old(root)
    {
      hide Resolve, Decode, TakeChild, LastSlash, TreeAt, TreePut, Content, Ends, TopMark;
      var slash := FindLastSlash(path);
      if slash.None? {
        return Missing;
      }
      Split(path, slash.value);
      var parent := GetItemFromPointer(Content(root), path[..slash.value], caseSensitive);
      var child := DecodeChild(path[slash.value + 1..]);
      if parent.None? {
        return Missing;
      }
      d := TakeFrom(TreeAt(root, parent.value), child, if move then TopMark(root) + 1 else 0, Ends(root));
      if d.Taken? {
        root := TreePut(root, parent.value, d.document);
        d := Taken(root, d.item);
      }
    }

    /** The last part of `apply_patch`: a value goes to where the path says. */
    method AddAtPath(path: string, value: Tree, caseSensitive: bool) returns (torn: bool, status: int)
      requires NulFree(path)
      modifies this
      ensures Finished(PlaceAt(old(root), path, value, caseSensitive, true), torn, status, root)
    {
      hide Resolve, Decode, PlaceIn, LastSlash, TreeAt, TreePut, Content, EndsWith;
      var slash := FindLastSlash(path);
      if slash.None? {
        return false, 9;
      }
      Split(path, slash.value);
      var parent := GetItemFromPointer(Content(root), path[..slash.value], caseSensitive);
      var child := DecodeChild(path[slash.value + 1..]);
      if parent.None? {
        return false, 9;
      }
      var placed := PlaceUnder(TreeAt(root, parent.value), child, value, caseSensitive, EndsWith(root, value, true));
      match placed
      case Rejected(code) => return false, code;
      case Tearing => return true, 0;
      case Placed(p) =>
        root := TreePut(root, parent.value, p);
        return false, 0;
    }

    /** `apply_patch`, with its status codes. */
    method ApplyOne(patch: Json, caseSensitive: bool) returns (torn: bool, status: int)
      requires CPatch(patch, caseSensitive)
      modifies this
      ensures Finished(ApplyTree(old(root), patch, caseSensitive, true), torn, status, root)
    {
      hide Field, Resolve, DecodeOperation, ActTree;
      var path := GetField(patch, "path", caseSensitive);
      if path.None? || !path.value.String? {
        return false, 2;
      }
      torn, status := Act(patch, path.value.text, caseSensitive);
    }

    /** What follows once the path is known to be a string. */
    method Act(patch: Json, pointer: string, caseSensitive: bool) returns (torn: bool, status: int)
      requires NulFree(pointer) && CText(Field(patch, "from", caseSensitive))
      modifies this
      ensures Finished(ActTree(old(root), DecodeOperation(patch, caseSensitive), pointer, Field(patch, "value", caseSensitive),
                           Field(patch, "from", caseSensitive), caseSensitive, true), torn, status, root)
    {
      hide Field, Resolve, TakeAway, PlaceValue, TestTree, LinkedPatch.Transfer, DecodeOperation, Content;
      var opcode := DecodeOperation(patch, caseSensitive);
      if opcode == INVALID {
        return false, 3;
      }
      if opcode == TEST {
        status := Test(pointer, patch, caseSensitive);
        return false, status;
      }
      if pointer == "" {
        if opcode == REMOVE {
          root := Scalar(Invalid, 0);
          return false, 0;
        }
        if opcode == REPLACE || opcode == ADD {
          var value := GetField(patch, "value", caseSensitive);
          if value.None? {
            return false, 7;
          }
          root := Fresh(value.value);
          return false, 0;
        }
      }
      if opcode == REMOVE || opcode == REPLACE {
        torn, status := Remove(pointer, patch, opcode == REPLACE, caseSensitive);
      } else if opcode == MOVE || opcode == COPY {
        torn, status := Transfer(pointer, patch, opcode == MOVE, caseSensitive);
      } else {
        torn, status := AddValue(pointer, patch, caseSensitive);
      }
    }

    /** "remove", and "replace", which goes on to add. */
    method Remove(pointer: string, patch: Json, replace: bool, caseSensitive: bool) returns (torn: bool, status: int)
      requires NulFree(pointer)
      modifies this
      ensures Finished(TakeAway(old(root), pointer, Field(patch, "value", caseSensitive), replace, caseSensitive, true), torn, status, root)
    {
      hide Field, Take, PlaceValue;
      var d := DetachPath(pointer, caseSensitive, false);
      match d
      case Missing => return false, 13;
      case Torn => return true, 0;
      case Taken(_, _) =>
        if replace {
          torn, status := AddValue(pointer, patch, caseSensitive);
        } else {
          return false, 0;
        }
    }

    /** "add", and the second half of "replace". */
    method AddValue(pointer: string, patch: Json, caseSensitive: bool) returns (torn: bool, status: int)
      requires NulFree(pointer)
      modifies this
      ensures Finished(PlaceValue(old(root), pointer, Field(patch, "value", caseSensitive), caseSensitive, true), torn, status, root)
    {
      hide Field, PlaceAt;
      var value := GetField(patch, "value", caseSensitive);
      if value.None? {
        return false, 7;
      }
      torn, status := AddAtPath(pointer, Fresh(value.value), caseSensitive);
    }

    /** "test": the comparison sorts the document where it looks. */
    method Test(pointer: string, patch: Json, caseSensitive: bool) returns (status: int)
      modifies this
      ensures TestTree(old(root), pointer, Field(patch, "value", caseSensitive), caseSensitive) == Ran(status, root)
    {
      hide Field, Resolve, CompareTree, TreePut, TreeAt, Content;
      var at := GetItemFromPointer(Content(root), pointer, caseSensitive);
      var value := GetField(patch, "value", caseSensitive);
      if at.None? || value.None? {
        return 1;
      }
      var r := CompareTrees(TreeAt(root, at.value), Fresh(value.value), caseSensitive);
      root := TreePut(root, at.value, r.a);
      status := if r.equal then 0 else 1;
    }

    /** "move" and "copy". */
    method Transfer(pointer: string, patch: Json, move: bool, caseSensitive: bool) returns (torn: bool, status: int)
      requires NulFree(pointer) && CText(Field(patch, "from", caseSensitive))
      modifies this
      ensures Finished(LinkedPatch.Transfer(old(root), pointer, Field(patch, "from", caseSensitive), move, caseSensitive, true),
                   torn, status, root)
    {
      hide Field, Resolve, Take, PlaceAt, TreeAt, Content;
      var from := GetField(patch, "from", caseSensitive);
      if from.None? {
        return false, 4;
      }
      if !from.value.String? {
        return false, 5;
      }
      if move {
        var d := DetachPath(from.value.text, caseSensitive, true);
        match d
        case Missing => return false, 5;
        case Torn => return true, 0;
        case Taken(_, item) => torn, status := AddAtPath(pointer, item, caseSensitive);
      } else {
        var at := GetItemFromPointer(Content(root), from.value.text, caseSensitive);
        if at.None? {
          return false, 5;
        }
        torn, status := AddAtPath(pointer, Fresh(Content(TreeAt(root, at.value))), caseSensitive);
      }
    }

    /** `cJSONUtils_ApplyPatches`: one operation after the other, up to the first failure. */
    method ApplyPatches(patches: Json, caseSensitive: bool) returns (torn: bool, status: int)
      requires patches.Array? ==> forall i | 0 <= i < |patches.items| :: CPatch(patches.items[i], caseSensitive)
      modifies this
      ensures Finished(ApplyTrees(old(root), patches, caseSensitive, true), torn, status, root)
    {
      hide ApplyTree, CPatch;
      if !patches.Array? {
        return false, 1;
      }
      var ps := patches.items;
      var i := 0;
      assert ps[0..] == ps;
      while i < |ps|
        invariant 0 <= i <= |ps|
        invariant RunPatches(old(root), ps, caseSensitive, true) == RunPatches(root, ps[i..], caseSensitive, true)
      {
        assert ps[i..][1..] == ps[i + 1..];
        torn, status := ApplyOne(ps[i], caseSensitive);
        if torn || status != 0 {
          return;
        }
        i := i + 1;
      }
      return false, 0;
    }

    /** `cJSONUtils_MergePatch` on the document. */
    method MergeWith(patch: Json, caseSensitive: bool) returns (torn: bool)
      modifies this
      ensures var m := MergeTree(Some(old(root)), patch, caseSensitive, true, {});
              if torn then m.Breaks? else m == Becomes(root)
    {
      hide MergeTree;
      var m := MergeTrees(Some(root), patch, caseSensitive, {});
      torn := m.Breaks?;
      if m.Becomes? {
        root := m.tree;
      }
    }
  }

  // ---- merge_patch ----

  /** `merge_patch`: the members of the patch one by one. */
  method MergeTrees(target: Option<Tree>, patch: Json, caseSensitive: bool, outside: set<nat>) returns (r: Merging)
    ensures r == MergeTree(target, patch, caseSensitive, true, outside)
    decreases Height(patch), 0
  {
    hide MergeInto, Height, MembersHeight;
    if !patch.Object? {
      return Becomes(Fresh(patch));
    }
    var t := if target.Some? && target.value.Record? then target.value else Record([], Nowhere, 0);
    ghost var base := t;
    var ps := patch.members;
    var i := 0;
    assert ps[0..] == ps;
    while i < |ps|
      invariant 0 <= i <= |ps| && t.Record?
      invariant MergeRecord(base, ps, caseSensitive, true, outside) == MergeRecord(t, ps[i..], caseSensitive, true, outside)
    {
      assert ps[i..][1..] == ps[i + 1..];
      r := MergeOne(t, ps[i], caseSensitive, outside);
      if r.Breaks? {
        return;
      }
      t := r.tree;
      i := i + 1;
    }
    r := Becomes(t);
  }

  /** One round: detach, then merge and append unless the patch says null. */
  method MergeOne(t: Tree, p: Member<Json>, caseSensitive: bool, outside: set<nat>) returns (r: Merging)
    requires t.Record?
    ensures r == MergeInto(t, p, caseSensitive, true, outside)
    decreases Height(p.value), 1
  {
    hide FindMember, MergeTree, Height, Rejoined, EndsAround;
    var i := FindItem(t.members, p.key, caseSensitive);
    var previous: Option<Tree> := None;
    var rest := t;
    if i < |t.members| {
      if i == 0 && Tears(t, EndsAround(t, t, true, outside)) {
        return Breaks;
      }
      previous := Some(t.members[i].value);
      rest := Dropped(t, i);
    }
    if p.value.Null? {
      return Becomes(rest);
    }
    var m := MergeTrees(previous, p.value, caseSensitive, EndsAround(t, rest, true, outside));
    if m.Breaks? {
      return Breaks;
    }
    r := Becomes(Rejoined(t, i, Member(p.key, m.tree), p.value.Object?));
  }

  // ---- create_patches ----

  class PatchList {
    var items: seq<Json>

    constructor ()
      ensures items == []
    {
      items := [];
    }

    /** `compose_patch`. */
    method Compose(operation: string, path: string, suffix: Option<string>, value: Option<Json>)
      modifies this
      ensures suffix.None? ==> items == old(items) + [PatchOf(operation, path, value)]
      ensures suffix.Some? && Plain(suffix.value) ==>
        items == old(items) + [PatchOf(operation, path + "/" + suffix.value, value)]
    {
      hide Escaped;
      var full := path;
      if suffix.Some? {
        var segment := MemberSegment(suffix.value);
        full := path + segment;
        if Plain(suffix.value) {
          EscapedPlain(suffix.value);
          assert path + ("/" + suffix.value) == path + "/" + suffix.value;
        }
      }
      var patch := [Member("op", String(operation))];
      patch := patch + [Member("path", String(full))];
      if value.Some? {
        patch := patch + [Member("value", value.value)];
      }
      assert Object(patch) == PatchOf(operation, full, value);
      items := items + [Object(patch)];
    }

    /** `create_patches`; the result is what it leaves of the two operands. */
    method CreatePatches(path: string, from: Tree, to: Tree, ghost tokens: seq<string>) returns (s: Settled)
      requires path == Join(tokens) && PlainPath(tokens) && Addressable(Content(from)) && Addressable(Content(to))
      modifies this
      ensures items == old(items) + Compositions(Requests(tokens, Content(from), Content(to)))
      ensures s == Settle(from, to)
      decreases Height(Content(from)), 1
    {
      hide Compositions, ItemRequests, MemberRequests, Sort, Patch.Compose, Join, SettleLists, SettleRecords, BackAfter;
      assert items + [] == items;
      s := Settled(from, to);
      OneRequest(DoReplace(tokens, Content(to)));
      ReplaceComposes(tokens, Content(to));
      if !SameType(Content(from), Content(to)) {
        Compose("replace", path, None, Some(Content(to)));
        return;
      }
      ContainerHeight(from);
      match from
      case Scalar(x, _) =>
        var y := to.atom;
        var whole := match x
          case Number(d, n) => n != y.valueint || d != y.valuedouble
          case String(text) => text != y.text
          case _ => false;
        if whole {
          Compose("replace", path, None, Some(y));
        }
      case List(xs, mark) =>
        var r := CreateItemPatches(path, xs, to.items, tokens);
        s := Settled(List(r.xs, mark), List(r.ys, to.mark));
      case Record(ms, back, mark) =>
        SortedHeight(ms, false);
        SortedAddressable(ms);
        SortedAddressable(to.members);
        var r := CreateMemberPatches(path, Sort(ms, false), Sort(to.members, false), tokens);
        s := Settled(Record(r.ms, BackAfter(ms, back, false), mark),
                     Record(r.ns, BackAfter(to.members, to.back, false), to.mark));
    }

    /** Elements in both arrays, then those left over in one of them. */
    method CreateItemPatches(path: string, xs: seq<Tree>, ys: seq<Tree>, ghost tokens: seq<string>) returns (s: SettledLists)
      requires path == Join(tokens) && PlainPath(tokens)
      requires AddressableItems(Contents(xs)) && AddressableItems(Contents(ys))
      modifies this
      ensures items == old(items) + Compositions(ItemRequests(tokens, 0, Contents(xs), Contents(ys)))
      ensures s == SettleLists(xs, ys)
      decreases ItemsHeight(Contents(xs)), 2
    {
      hide Compositions, ItemRequests, Removals, Additions, Requests, Patch.Compose, Height, ItemsHeight, Addressable, Join, Digits;
      hide Content, Contents, Settle, SettleLists;
      ghost var was, js, ks := items, Contents(xs), Contents(ys);
      var done, done2: seq<Tree> := [], [];
      var i := 0;
      assert xs[0..] == xs && ys[0..] == ys && js[0..] == js && ks[0..] == ks;
      NothingSettled(xs, ys, [], []);
      while i < |xs| && i < |ys|
        invariant 0 <= i <= |xs| && i <= |ys|
        invariant was + Compositions(ItemRequests(tokens, 0, js, ks)) == items + Compositions(ItemRequests(tokens, i, js[i..], ks[i..]))
        invariant SettleLists(xs, ys) == AheadSettled(done, done2, SettleLists(xs[i..], ys[i..]))
        decreases |xs| - i
      {
        PairRequests(tokens, i, js, ks, items);
        JoinAppend(tokens, Digits(i));
        DigitsPlain(i);
        ElementHeight(xs, i);
        SettledRound(done, done2, xs, ys, i);
        var s' := CreatePatches(path + "/" + Digits(i), xs[i], ys[i], tokens + [Digits(i)]);
        done, done2 := done + [s'.from], done2 + [s'.to];
        i := i + 1;
      }
      LeftOver(tokens, i, js, ks, items);
      RemoveRest(path, i, |xs| - i, tokens);
      AddRest(path, ys[i..], tokens);
      ContentsFrom(ys, i);
      NothingSettled(xs[i..], ys[i..], done, done2);
      s := SettledLists(done + xs[i..], done2 + ys[i..]);
    }

    /** The elements that are gone, all of them at the same index. */
    method RemoveRest(path: string, index: nat, count: nat, ghost tokens: seq<string>)
      requires path == Join(tokens) && PlainPath(tokens)
      modifies this
      ensures items == old(items) + Compositions(Removals(tokens, index, count))
    {
      hide Compositions, Removals, Patch.Compose, Join, Digits;
      ghost var was := items;
      DigitsPlain(index);
      var left := count;
      while left > 0
        invariant 0 <= left <= count
        invariant was + Compositions(Removals(tokens, index, count)) == items + Compositions(Removals(tokens, index, left))
      {
        RemovalRound(tokens, index, left, items);
        RemoveComposes(tokens, Digits(index));
        Compose("remove", path, Some(Digits(index)), None);
        left := left - 1;
      }
      NoRemovals(tokens, index);
      assert items + [] == items;
    }

    /** The new elements, all of them at the end. */
    method AddRest(path: string, ys: seq<Tree>, ghost tokens: seq<string>)
      requires path == Join(tokens) && PlainPath(tokens)
      modifies this
      ensures items == old(items) + Compositions(Additions(tokens, Contents(ys)))
    {
      hide Compositions, Additions, Patch.Compose, Join, Contents, Content;
      ghost var was, ks := items, Contents(ys);
      assert Plain("-");
      var i := 0;
      assert ks[0..] == ks;
      while i < |ys|
        invariant 0 <= i <= |ys|
        invariant was + Compositions(Additions(tokens, ks)) == items + Compositions(Additions(tokens, ks[i..]))
      {
        AdditionRound(tokens, ks, i, items);
        AddComposes(tokens, "-", ks[i]);
        Compose("add", path, Some("-"), Some(Content(ys[i])));
        i := i + 1;
      }
      NoAdditions(tokens, ks);
      assert items + [] == items;
    }

    /** The walk over both sorted objects. */
    method CreateMemberPatches(path: string, ms: seq<Member<Tree>>, ns: seq<Member<Tree>>, ghost tokens: seq<string>)
      returns (s: SettledRecords)
      requires path == Join(tokens) && PlainPath(tokens)
      requires AddressableMembers(MemberContents(ms)) && AddressableMembers(MemberContents(ns))
      modifies this
      ensures items == old(items) + Compositions(MemberRequests(tokens, MemberContents(ms), MemberContents(ns)))
      ensures s == SettleRecords(ms, ns)
      decreases MembersHeight(MemberContents(ms)), 2
    {
      hide Compositions, MemberRequests, Requests, Patch.Compose, Height, MembersHeight, Addressable, Join, CompareStrings, Plain;
      hide Content, MemberContents, Settle, SettleRecords, AheadWalk;
      ghost var was, js, ks := items, MemberContents(ms), MemberContents(ns);
      var done, done2: seq<Member<Tree>> := [], [];
      var i, k := 0, 0;
      assert ms[0..] == ms && ns[0..] == ns && js[0..] == js && ks[0..] == ks;
      WalkStarts(ms, ns);
      while i < |ms| || k < |ns|
        invariant 0 <= i <= |ms| && 0 <= k <= |ns|
        invariant was + Compositions(MemberRequests(tokens, js, ks)) == items + Compositions(MemberRequests(tokens, js[i..], ks[k..]))
        invariant SettleRecords(ms, ns) == AheadWalk(done, done2, SettleRecords(ms[i..], ns[k..]))
        decreases |ms| - i + |ns| - k
      {
        WalkRound(tokens, js, ks, i, k, items);
        WalkSettles(done, done2, ms, ns, i, k);
        var diff := if i == |ms| then 1 else if k == |ns| then -1 else CompareStrings(ms[i].key, ns[k].key, false);
        assert diff <= 0 ==> Plain(js[i].key);
        assert diff >= 0 ==> Plain(ks[k].key);
        if diff == 0 {
          PlainSegment(path, ms[i].key);
          var segment := MemberSegment(ms[i].key);
          JoinAppend(tokens, ms[i].key);
          ValueHeight(ms, i);
          var r := CreatePatches(path + segment, ms[i].value, ns[k].value, tokens + [ms[i].key]);
          done, done2 := done + [Member(ms[i].key, r.from)], done2 + [Member(ns[k].key, r.to)];
          i, k := i + 1, k + 1;
        } else if diff < 0 {
          RemoveComposes(tokens, ms[i].key);
          Compose("remove", path, Some(ms[i].key), None);
          done := done + [ms[i]];
          i := i + 1;
        } else {
          AddComposes(tokens, ns[k].key, ks[k].value);
          Compose("add", path, Some(ns[k].key), Some(Content(ns[k].value)));
          done2 := done2 + [ns[k]];
          k := k + 1;
        }
      }
      NoWalk(tokens, js, ks);
      WalkEnds(ms, ns, done, done2);
      assert items + [] == items;
      s := SettledRecords(done, done2);
    }
  }

  /** The object that `compose_patch` builds. */
  function PatchOf(operation: string, path: string, value: Option<Json>): Json {
    var head := [Member("op", String(operation)), Member("path", String(path))];
    Object(if value.None? then head else head + [Member("value", value.value)])
  }

  lemma OneRequest(r: Request)
    ensures Compositions([r]) == [Patch.Compose(r)]
  { }

  lemma ReplaceComposes(tokens: seq<string>, x: Json)
    requires PlainPath(tokens)
    ensures Patch.Compose(DoReplace(tokens, x)) == PatchOf("replace", Join(tokens), Some(x))
  {
    PlainWritable(tokens);
    hide Join, PathText;
  }

  lemma RemoveComposes(tokens: seq<string>, t: string)
    requires PlainPath(tokens) && Plain(t)
    ensures Patch.Compose(DoRemove(tokens + [t])) == PatchOf("remove", Join(tokens) + "/" + t, None)
  {
    PlainWritable(tokens + [t]);
    JoinAppend(tokens, t);
    hide Join, PathText;
  }

  lemma AddComposes(tokens: seq<string>, t: string, x: Json)
    requires PlainPath(tokens) && Plain(t)
    ensures Patch.Compose(DoAdd(tokens + [t], x)) == PatchOf("add", Join(tokens) + "/" + t, Some(x))
  {
    PlainWritable(tokens + [t]);
    JoinAppend(tokens, t);
    hide Join, PathText;
  }

  lemma DigitsPlain(n: nat)
    ensures Plain(Digits(n))
  {
    hide Digits;
    forall i | 0 <= i < |Digits(n)| ensures Digits(n)[i] != '/' && Digits(n)[i] != '~' {
      assert IsDigit(Digits(n)[i]);
    }
  }

  lemma ContentsFrom(ys: seq<Tree>, i: nat)
    requires i <= |ys|
    ensures Contents(ys[i..]) == Contents(ys)[i..]
  {
    hide Contents;
  }

  lemma SortedAddressable(ms: seq<Member<Tree>>)
    requires AddressableMembers(MemberContents(ms))
    ensures AddressableMembers(MemberContents(Sort(ms, false)))
    ensures MemberContents(Sort(ms, false)) == Sort(MemberContents(ms), false)
  {
    ContentSorts(ms, false);
    SortAddressable(MemberContents(ms));
    hide Sort, MemberContents, FirstStays;
  }

  ghost function AheadSettled(xs: seq<Tree>, ys: seq<Tree>, s: SettledLists): SettledLists {
    SettledLists(xs + s.xs, ys + s.ys)
  }

  lemma NothingSettled(xs: seq<Tree>, ys: seq<Tree>, done: seq<Tree>, done2: seq<Tree>)
    ensures xs == [] || ys == [] ==> AheadSettled(done, done2, SettleLists(xs, ys)) == SettledLists(done + xs, done2 + ys)
    ensures AheadSettled([], [], SettleLists(xs, ys)) == SettleLists(xs, ys)
  {
  }

  lemma SettledRound(done: seq<Tree>, done2: seq<Tree>, xs: seq<Tree>, ys: seq<Tree>, i: nat)
    requires i < |xs| && i < |ys|
    ensures var r := Settle(xs[i], ys[i]);
            AheadSettled(done, done2, SettleLists(xs[i..], ys[i..])) ==
            AheadSettled(done + [r.from], done2 + [r.to], SettleLists(xs[i + 1..], ys[i + 1..]))
  {
    hide Settle;
    assert xs[i..][1..] == xs[i + 1..] && ys[i..][1..] == ys[i + 1..];
    var r, rest := Settle(xs[i], ys[i]), SettleLists(xs[i + 1..], ys[i + 1..]);
    assert done + ([r.from] + rest.xs) == (done + [r.from]) + rest.xs && done2 + ([r.to] + rest.ys) == (done2 + [r.to]) + rest.ys;
  }

  ghost function AheadWalk(ms: seq<Member<Tree>>, ns: seq<Member<Tree>>, s: SettledRecords): SettledRecords {
    SettledRecords(ms + s.ms, ns + s.ns)
  }

  lemma WalkStarts(ms: seq<Member<Tree>>, ns: seq<Member<Tree>>)
    ensures AheadWalk([], [], SettleRecords(ms, ns)) == SettleRecords(ms, ns)
  {
    hide SettleRecords;
  }

  lemma WalkEnds(ms: seq<Member<Tree>>, ns: seq<Member<Tree>>, done: seq<Member<Tree>>, done2: seq<Member<Tree>>)
    ensures AheadWalk(done, done2, SettleRecords(ms[|ms|..], ns[|ns|..])) == SettledRecords(done, done2)
  {
  }

  /** One step of the walk, also when one of the lists is used up. */
  lemma WalkSettles(
    done: seq<Member<Tree>>, done2: seq<Member<Tree>>, ms: seq<Member<Tree>>, ns: seq<Member<Tree>>, i: nat, k: nat)
    requires i <= |ms| && k <= |ns| && (i < |ms| || k < |ns|)
    ensures var diff := if i == |ms| then 1 else if k == |ns| then -1 else CompareStrings(ms[i].key, ns[k].key, false);
            AheadWalk(done, done2, SettleRecords(ms[i..], ns[k..])) ==
            if diff == 0 then
              var r := Settle(ms[i].value, ns[k].value);
              AheadWalk(done + [Member(ms[i].key, r.from)], done2 + [Member(ns[k].key, r.to)], SettleRecords(ms[i + 1..], ns[k + 1..]))
            else if diff < 0 then AheadWalk(done + [ms[i]], done2, SettleRecords(ms[i + 1..], ns[k..]))
            else AheadWalk(done, done2 + [ns[k]], SettleRecords(ms[i..], ns[k + 1..]))
  {
    var diff := if i == |ms| then 1 else if k == |ns| then -1 else CompareStrings(ms[i].key, ns[k].key, false);
    if i < |ms| { assert ms[i..][1..] == ms[i + 1..] && ms[i..] == [ms[i]] + ms[i + 1..]; }
    if k < |ns| { assert ns[k..][1..] == ns[k + 1..] && ns[k..] == [ns[k]] + ns[k + 1..]; }
    if i < |ms| && k < |ns| {
      SettleStep(ms[i..], ns[k..]);
      var r := Settle(ms[i].value, ns[k].value);
      hide SettleRecords, Settle, CompareStrings;
      if diff == 0 {
        var rest := SettleRecords(ms[i + 1..], ns[k + 1..]);
        TreeAssoc(done, Member(ms[i].key, r.from), rest.ms);
        TreeAssoc(done2, Member(ns[k].key, r.to), rest.ns);
      } else if diff < 0 {
        TreeAssoc(done, ms[i], SettleRecords(ms[i + 1..], ns[k..]).ms);
      } else {
        TreeAssoc(done2, ns[k], SettleRecords(ms[i..], ns[k + 1..]).ns);
      }
    } else if i < |ms| {
      TreeAssoc(done, ms[i], ms[i + 1..]);
    } else {
      TreeAssoc(done2, ns[k], ns[k + 1..]);
    }
  }

  lemma PlainSegment(path: string, key: string)
    requires Plain(key)
    ensures '/' !in key && path + ("/" + Escaped(key)) == path + "/" + key
  {
    EscapedPlain(key);
    hide Escaped;
  }

  lemma Behind(before: seq<Json>, a: seq<Request>, b: seq<Request>)
    ensures before + Compositions(a + b) == (before + Compositions(a)) + Compositions(b)
  {
    CompositionsAppend(a, b);
    hide Compositions;
  }

  lemma PairRequests(tokens: seq<string>, i: nat, xs: seq<Json>, ys: seq<Json>, before: seq<Json>)
    requires i < |xs| && i < |ys|
    ensures before + Compositions(ItemRequests(tokens, i, xs[i..], ys[i..])) ==
            (before + Compositions(Requests(tokens + [Digits(i)], xs[i], ys[i]))) +
            Compositions(ItemRequests(tokens, i + 1, xs[i + 1..], ys[i + 1..]))
  {
    assert xs[i..][1..] == xs[i + 1..] && ys[i..][1..] == ys[i + 1..];
    hide Requests, Compositions, Digits;
    Behind(before, Requests(tokens + [Digits(i)], xs[i], ys[i]), ItemRequests(tokens, i + 1, xs[i + 1..], ys[i + 1..]));
  }

  lemma LeftOver(tokens: seq<string>, i: nat, xs: seq<Json>, ys: seq<Json>, before: seq<Json>)
    requires i <= |xs| && i <= |ys| && (i == |xs| || i == |ys|)
    ensures before + Compositions(ItemRequests(tokens, i, xs[i..], ys[i..])) ==
            (before + Compositions(Removals(tokens, i, |xs| - i))) + Compositions(Additions(tokens, ys[i..]))
  {
    hide Requests, Compositions, Digits, Removals, Additions;
    Behind(before, Removals(tokens, i, |xs| - i), Additions(tokens, ys[i..]));
  }

  lemma RemovalRound(tokens: seq<string>, index: nat, left: nat, before: seq<Json>)
    requires left > 0
    ensures before + Compositions(Removals(tokens, index, left)) ==
            (before + [Patch.Compose(DoRemove(tokens + [Digits(index)]))]) + Compositions(Removals(tokens, index, left - 1))
  { }

  lemma NoRemovals(tokens: seq<string>, index: nat)
    ensures Compositions(Removals(tokens, index, 0)) == []
  {
  }

  lemma AdditionRound(tokens: seq<string>, ys: seq<Json>, i: nat, before: seq<Json>)
    requires i < |ys|
    ensures before + Compositions(Additions(tokens, ys[i..])) ==
            (before + [Patch.Compose(DoAdd(tokens + ["-"], ys[i]))]) + Compositions(Additions(tokens, ys[i + 1..]))
  { }

  lemma NoAdditions(tokens: seq<string>, ys: seq<Json>)
    ensures Compositions(Additions(tokens, ys[|ys|..])) == []
  {
  }

  lemma WalkRound(tokens: seq<string>, ms: seq<Member<Json>>, ns: seq<Member<Json>>, i: nat, k: nat, before: seq<Json>)
    requires i <= |ms| && k <= |ns| && (i < |ms| || k < |ns|)
    ensures var diff := if i == |ms| then 1 else if k == |ns| then -1 else CompareStrings(ms[i].key, ns[k].key, false);
            before + Compositions(MemberRequests(tokens, ms[i..], ns[k..])) ==
            if diff == 0 then
              (before + Compositions(Requests(tokens + [ms[i].key], ms[i].value, ns[k].value))) +
              Compositions(MemberRequests(tokens, ms[i + 1..], ns[k + 1..]))
            else if diff < 0 then
              (before + [Patch.Compose(DoRemove(tokens + [ms[i].key]))]) + Compositions(MemberRequests(tokens, ms[i + 1..], ns[k..]))
            else
              (before + [Patch.Compose(DoAdd(tokens + [ns[k].key], ns[k].value))]) +
              Compositions(MemberRequests(tokens, ms[i..], ns[k + 1..]))
  {
    hide Compositions, Patch.Compose, Requests, CompareStrings;
    if i < |ms| { assert ms[i..][1..] == ms[i + 1..]; }
    if k < |ns| { assert ns[k..][1..] == ns[k + 1..]; }
    var diff := if i == |ms| then 1 else if k == |ns| then -1 else CompareStrings(ms[i].key, ns[k].key, false);
    if diff == 0 {
      Behind(before, Requests(tokens + [ms[i].key], ms[i].value, ns[k].value), MemberRequests(tokens, ms[i + 1..], ns[k + 1..]));
    } else if diff < 0 {
      Behind(before, [DoRemove(tokens + [ms[i].key])], MemberRequests(tokens, ms[i + 1..], ns[k..]));
      OneRequest(DoRemove(tokens + [ms[i].key]));
    } else {
      Behind(before, [DoAdd(tokens + [ns[k].key], ns[k].value)], MemberRequests(tokens, ms[i..], ns[k + 1..]));
      OneRequest(DoAdd(tokens + [ns[k].key], ns[k].value));
    }
  }

  lemma NoWalk(tokens: seq<string>, ms: seq<Member<Json>>, ns: seq<Member<Json>>)
    ensures Compositions(MemberRequests(tokens, ms[|ms|..], ns[|ns|..])) == []
  {
  }

  // ---- generate_merge_patch ----

  /** `generate_merge_patch` with case folding: the patch, and what it leaves of the operands. */
  method GenerateMergePatch(from: Tree, to: Tree) returns (g: Generated)
    ensures g == GenerateTree(from, to)
    decreases Height(Content(from)), 0
  {
    hide GenerateRecords, Sort, Height, MembersHeight, BackAfter, Content;
    if !to.Record? || !from.Record? {
      return Generated(Some(Content(to)), from, to);
    }
    ContainerHeight(from);
    SortedHeight(from.members, false);
    var r := GenerateWalk(Sort(from.members, false), Sort(to.members, false));
    g := Generated(if r.patch == [] then None else Some(Object(r.patch)),
                   Record(r.ms, BackAfter(from.members, from.back, false), from.mark),
                   Record(r.ns, BackAfter(to.members, to.back, false), to.mark));
  }

  ghost function AheadGenerated(
    patch: seq<Member<Json>>, ms: seq<Member<Tree>>, ns: seq<Member<Tree>>, r: RecordsGenerated): RecordsGenerated
  {
    RecordsGenerated(patch + r.patch, ms + r.ms, ns + r.ns)
  }

  lemma PatchAssoc(a: seq<Member<Json>>, b: seq<Member<Json>>, c: seq<Member<Json>>)
    ensures a + (b + c) == (a + b) + c
  {
  }

  lemma GenerateRound(
    ms: seq<Member<Tree>>, ns: seq<Member<Tree>>, i: nat, k: nat,
    patch: seq<Member<Json>>, done: seq<Member<Tree>>, done2: seq<Member<Tree>>)
    requires i <= |ms| && k <= |ns| && (i < |ms| || k < |ns|)
    ensures var diff := if i == |ms| then 1 else if k == |ns| then -1 else Cmp(ms[i].key, ns[k].key);
            AheadGenerated(patch, done, done2, GenerateRecords(ms[i..], ns[k..])) ==
            if diff < 0 then
              AheadGenerated(patch + [Member(ms[i].key, Null)], done + [ms[i]], done2, GenerateRecords(ms[i + 1..], ns[k..]))
            else if diff > 0 then
              AheadGenerated(patch + [Member(ns[k].key, Content(ns[k].value))], done, done2 + [ns[k]],
                             GenerateRecords(ms[i..], ns[k + 1..]))
            else
              var r := GenerateValue(ms[i], ns[k]);
              AheadGenerated(patch + (if r.patch.None? then [] else [Member(ns[k].key, r.patch.value)]),
                             done + [Member(ms[i].key, r.from)], done2 + [Member(ns[k].key, r.to)],
                             GenerateRecords(ms[i + 1..], ns[k + 1..]))
  {
    var diff := if i == |ms| then 1 else if k == |ns| then -1 else Cmp(ms[i].key, ns[k].key);
    if i < |ms| { assert ms[i..][1..] == ms[i + 1..]; }
    if k < |ns| { assert ns[k..][1..] == ns[k + 1..]; }
    GenerateStep(ms[i..], ns[k..]);
    hide GenerateRecords, GenerateValue, Cmp, Content;
    if diff < 0 {
      var rest := GenerateRecords(ms[i + 1..], ns[k..]);
      PatchAssoc(patch, [Member(ms[i].key, Null)], rest.patch);
      TreeAssoc(done, ms[i], rest.ms);
    } else if diff > 0 {
      var rest := GenerateRecords(ms[i..], ns[k + 1..]);
      PatchAssoc(patch, [Member(ns[k].key, Content(ns[k].value))], rest.patch);
      TreeAssoc(done2, ns[k], rest.ns);
    } else {
      var r, rest := GenerateValue(ms[i], ns[k]), GenerateRecords(ms[i + 1..], ns[k + 1..]);
      PatchAssoc(patch, if r.patch.None? then [] else [Member(ns[k].key, r.patch.value)], rest.patch);
      TreeAssoc(done, Member(ms[i].key, r.from), rest.ms);
      TreeAssoc(done2, Member(ns[k].key, r.to), rest.ns);
    }
  }

  lemma GenerateEnds(ms: seq<Member<Tree>>, ns: seq<Member<Tree>>)
    ensures GenerateRecords(ms[|ms|..], ns[|ns|..]) == RecordsGenerated([], [], [])
    ensures AheadGenerated([], [], [], GenerateRecords(ms, ns)) == GenerateRecords(ms, ns)
  {
  }

  /** The walk over both sorted objects, which compares keys byte by byte. */
  method GenerateWalk(ms: seq<Member<Tree>>, ns: seq<Member<Tree>>) returns (r: RecordsGenerated)
    ensures r == GenerateRecords(ms, ns)
    decreases MembersHeight(MemberContents(ms)), 2
  {
    hide GenerateRecords, GenerateValue, Cmp, Height, MembersHeight, Content, MemberContents;
    var patch: seq<Member<Json>> := [];
    var done, done2: seq<Member<Tree>> := [], [];
    var i, k := 0, 0;
    assert ms[0..] == ms && ns[0..] == ns;
    GenerateEnds(ms, ns);
    while i < |ms| || k < |ns|
      invariant 0 <= i <= |ms| && 0 <= k <= |ns|
      invariant GenerateRecords(ms, ns) == AheadGenerated(patch, done, done2, GenerateRecords(ms[i..], ns[k..]))
      decreases |ms| - i + |ns| - k
    {
      GenerateRound(ms, ns, i, k, patch, done, done2);
      var diff := if i == |ms| then 1 else if k == |ns| then -1 else Cmp(ms[i].key, ns[k].key);
      if diff < 0 {
        patch, done := patch + [Member(ms[i].key, Null)], done + [ms[i]];
        i := i + 1;
      } else if diff > 0 {
        patch, done2 := patch + [Member(ns[k].key, Content(ns[k].value))], done2 + [ns[k]];
        k := k + 1;
      } else {
        ValueHeight(ms, i);
        var g := PatchValue(ms[i], ns[k]);
        patch := patch + if g.patch.None? then [] else [Member(ns[k].key, g.patch.value)];
        done, done2 := done + [Member(ms[i].key, g.from)], done2 + [Member(ns[k].key, g.to)];
        i, k := i + 1, k + 1;
      }
    }
    assert patch + [] == patch && done + [] == done && done2 + [] == done2;
    r := RecordsGenerated(patch, done, done2);
  }

  /** A key in both objects. */
  method PatchValue(m: Member<Tree>, n: Member<Tree>) returns (g: Generated)
    ensures g == GenerateValue(m, n)
    decreases Height(Content(m.value)), 1
  {
    hide CompareTree, GenerateTree, CompareJson, Content, Height, NoNullMembers;
    var c := CompareTrees(m.value, n.value, false);
    if c.equal {
      return Generated(None, c.a, c.b);
    }
    CompareContent(m.value, n.value, false);
    CompareAlike(Content(m.value), Content(n.value));
    g := GenerateMergePatch(c.a, c.b);
  }
}
