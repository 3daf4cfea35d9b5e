/**
 The exact reading of `LinkedPatch` and the strict one, in which a first member that points
 back is never detached.  A run that is right in the strict reading is right in the exact
 one, and they differ only where a "move" has taken a node that a first member points at.
 */
module Strays {
  import opened Options
  import opened CString
  import opened Json
  import opened MemberSort
  import opened Pointer
  import opened Compare
  import opened Links
  import opened Patch
  import opened LinkedPatch

  // ---- What is right in the strict reading ----

  lemma StrictTake(document: Tree, path: string, caseSensitive: bool, move: bool)
    ensures var d := Take(document, path, caseSensitive, move, false);
            !d.Torn? ==> Take(document, path, caseSensitive, move, true) == d
  {
    hide FindMember, DecodeIndex, Token, Resolve, Decode, TreeAt, TreePut, Content, LastSlash, Ends, TopMark, TakeMember;
  }

  lemma StrictPlace(document: Tree, path: string, value: Tree, caseSensitive: bool)
    ensures var o := PlaceAt(document, path, value, caseSensitive, false);
            o.Ran? ==> PlaceAt(document, path, value, caseSensitive, true) == o
  {
    hide FindMember, DecodeIndex, Token, Resolve, Decode, TreeAt, TreePut, Content, LastSlash, Ends, Appended, Dropped;
  }

  lemma StrictAct(
    document: Tree, opcode: Opcode, pointer: string, value: Option<Json>, from: Option<Json>, caseSensitive: bool)
    ensures var o := ActTree(document, opcode, pointer, value, from, caseSensitive, false);
            o.Ran? ==> ActTree(document, opcode, pointer, value, from, caseSensitive, true) == o
  {
    hide Take, PlaceAt, Resolve, Content, TreeAt, TestTree;
    if opcode == MOVE && from.Some? && from.value.String? {
      StrictTake(document, from.value.text, caseSensitive, true);
      var d := Take(document, from.value.text, caseSensitive, true, false);
      if d.Taken? { StrictPlace(d.document, pointer, d.item, caseSensitive); }
    } else if opcode == COPY && from.Some? && from.value.String? {
      var at := Resolve(Content(document), from.value.text, caseSensitive);
      if at.Some? { StrictPlace(document, pointer, Fresh(Content(TreeAt(document, at.value))), caseSensitive); }
    } else {
      if value.Some? { StrictPlace(document, pointer, Fresh(value.value), caseSensitive); }
      StrictTake(document, pointer, caseSensitive, false);
      var d := Take(document, pointer, caseSensitive, false, false);
      if value.Some? && d.Taken? { StrictPlace(d.document, pointer, Fresh(value.value), caseSensitive); }
    }
  }

  /** Whatever a run does in the strict reading without breaking a list, it does in the exact one. */
  lemma {:induction false} StrictRun(document: Tree, patches: seq<Json>, caseSensitive: bool)
    ensures var o := RunPatches(document, patches, caseSensitive, false);
            o.Ran? ==> RunPatches(document, patches, caseSensitive, true) == o
    decreases |patches|
  {
    hide ActTree, Field, DecodeOperation;
    if patches != [] {
      var path := Field(patches[0], "path", caseSensitive);
      if path.Some? && path.value.String? {
        StrictAct(document, DecodeOperation(patches[0], caseSensitive), path.value.text,
                  Field(patches[0], "value", caseSensitive), Field(patches[0], "from", caseSensitive), caseSensitive);
      }
      var o := ApplyTree(document, patches[0], caseSensitive, false);
      if o.Ran? && o.status == 0 { StrictRun(o.document, patches[1..], caseSensitive); }
    }
  }

  // ---- Where no node has strayed ----

  /** No first member points at a node in another list. */
  predicate Home(t: Tree) {
    match t
    case Scalar(_, _) => true
    case List(items, _) => HomeItems(items)
    case Record(members, back, _) => !back.Away? && HomeMembers(members)
  }

  predicate HomeItems(items: seq<Tree>) {
    forall i | 0 <= i < |items| :: Home(items[i])
  }

  predicate HomeMembers(members: seq<Member<Tree>>) {
    forall i | 0 <= i < |members| :: Home(members[i].value)
  }

  lemma {:induction false} CleanHome(t: Tree)
    requires Clean(t)
    ensures Home(t)
  {
    match t
    case Scalar(_, _) =>
    case List(items, _) => forall i | 0 <= i < |items| ensures Home(items[i]) { CleanHome(items[i]); }
    case Record(members, _, _) =>
      forall i | 0 <= i < |members| ensures Home(members[i].value) { CleanHome(members[i].value); }
  }

  lemma {:induction false} HomeAt(t: Tree, at: Position)
    requires Home(t) && Exists(Content(t), at)
    ensures Home(TreeAt(t, at))
    decreases |at|
  {
    if at != [] { HomeAt(TreeChild(t, at[0]), at[1..]); }
  }

  lemma {:induction false} HomePut(t: Tree, at: Position, x: Tree)
    requires Home(t) && Home(x) && Exists(Content(t), at)
    ensures Home(TreePut(t, at, x))
    decreases |at|
  {
    if at != [] {
      HomeAt(t, [at[0]]);
      assert TreeAt(t, [at[0]]) == TreeChild(t, at[0]) by { assert [at[0]][1..] == []; }
      HomePut(TreeChild(t, at[0]), at[1..], x);
    }
  }

  lemma HomeTakeChild(parent: Tree, child: string, mark: nat, ends: set<nat>)
    requires Home(parent)
    ensures var d := TakeChild(parent, child, mark, ends);
            d == TakeChild(parent, child, mark, {}) && (mark == 0 && d.Taken? ==> Home(d.document))
  {
    hide FindMember, DecodeIndex, Token;
  }

  lemma HomeTake(document: Tree, path: string, caseSensitive: bool, move: bool)
    requires Home(document)
    ensures var d := Take(document, path, caseSensitive, move, true);
            d == Take(document, path, caseSensitive, move, false) && (!move && d.Taken? ==> Home(d.document))
  {
    hide TakeChild, Resolve, Decode, TreeAt, TreePut, Content, LastSlash, Ends, TopMark, Home;
    var slash := LastSlash(path);
    if slash.Some? {
      var at := Resolve(Content(document), path[..slash.value], caseSensitive);
      if at.Some? {
        HomeAt(document, at.value);
        var mark, child := if move then TopMark(document) + 1 else 0, Decode(path[slash.value + 1..]);
        HomeTakeChild(TreeAt(document, at.value), child, mark, Ends(document));
        var d := TakeChild(TreeAt(document, at.value), child, mark, {});
        if !move && d.Taken? { HomePut(document, at.value, d.document); }
      }
    }
  }

  lemma HomePlaceIn(parent: Tree, child: string, value: Tree, caseSensitive: bool, ends: set<nat>)
    requires Home(parent)
    ensures var p := PlaceIn(parent, child, value, caseSensitive, ends);
            p == PlaceIn(parent, child, value, caseSensitive, {}) && (Home(value) && p.Placed? ==> Home(p.parent))
  {
    hide FindMember, DecodeIndex, Token;
  }

  lemma HomePlace(document: Tree, path: string, value: Tree, caseSensitive: bool)
    requires Home(document)
    ensures var o := PlaceAt(document, path, value, caseSensitive, true);
            o == PlaceAt(document, path, value, caseSensitive, false) && (Home(value) && o.Ran? ==> Home(o.document))
  {
    hide PlaceIn, Resolve, Decode, TreeAt, TreePut, Content, LastSlash, EndsWith, Home;
    var slash := LastSlash(path);
    if slash.Some? {
      var at := Resolve(Content(document), path[..slash.value], caseSensitive);
      if at.Some? {
        HomeAt(document, at.value);
        var child := Decode(path[slash.value + 1..]);
        HomePlaceIn(TreeAt(document, at.value), child, value, caseSensitive, EndsWith(document, value, true));
        assert EndsWith(document, value, false) == {} by { NoEnds(document, value); }
        var p := PlaceIn(TreeAt(document, at.value), child, value, caseSensitive, {});
        if p.Placed? && Home(value) { HomePut(document, at.value, p.parent); }
      }
    }
  }

  lemma NoEnds(document: Tree, value: Tree)
    ensures EndsWith(document, value, false) == {}
  {
  }

  lemma FreshHome(j: Json)
    ensures Home(Fresh(j))
  {
    CleanHome(Fresh(j));
  }

  // ---- Comparing brings no node into another list ----

  lemma SortHome(ms: seq<Member<Tree>>, caseSensitive: bool)
    requires HomeMembers(ms)
    ensures HomeMembers(Sort(ms, caseSensitive))
  {
    SortPermutes(ms, caseSensitive);
    var r := Sort(ms, caseSensitive);
    hide Sort, Home;
    forall i | 0 <= i < |r| ensures Home(r[i].value) {
      assert r[i] in multiset(ms);
      var k :| 0 <= k < |ms| && ms[k] == r[i];
    }
  }

  lemma HomeInside(t: Tree)
    requires t.Record? && Home(t)
    ensures HomeMembers(t.members)
  {
  }

  lemma HomeOutside(t: Tree, ms: seq<Member<Tree>>, caseSensitive: bool)
    requires t.Record? && Home(t) && HomeMembers(ms)
    ensures Home(Record(ms, BackAfter(t.members, t.back, caseSensitive), t.mark))
  {
    hide HomeMembers;
  }

  lemma HomeList(t: Tree, items: seq<Tree>)
    requires t.List?
    ensures Home(t) ==> HomeItems(t.items)
    ensures HomeItems(items) ==> Home(List(items, t.mark))
  {
  }

  lemma {:induction false} CompareHome(a: Tree, b: Tree, caseSensitive: bool)
    requires Home(a)
    ensures Home(CompareTree(a, b, caseSensitive).a)
    decreases Height(Content(a)), 0
  {
    hide *;
    if a.Record? && b.Record? {
      RecordsCompare(a, b, caseSensitive);
      RecordHeight(a);
      SortedHeight(a.members, caseSensitive);
      HomeInside(a);
      SortHome(a.members, caseSensitive);
      CompareRecordsHome(Sort(a.members, caseSensitive), Sort(b.members, caseSensitive), caseSensitive);
      HomeOutside(a, CompareRecords(Sort(a.members, caseSensitive), Sort(b.members, caseSensitive), caseSensitive).ms, caseSensitive);
    } else if a.List? && b.List? {
      ListsCompare(a, b, caseSensitive);
      ListHeight(a);
      HomeList(a, CompareLists(a.items, b.items, caseSensitive).xs);
      CompareListsHome(a.items, b.items, caseSensitive);
    } else {
      NotCompared(a, b, caseSensitive);
    }
  }

  lemma {:induction false} CompareListsHome(xs: seq<Tree>, ys: seq<Tree>, caseSensitive: bool)
    requires HomeItems(xs)
    ensures HomeItems(CompareLists(xs, ys, caseSensitive).xs)
    decreases ItemsHeight(Contents(xs)), |xs|
  {
    if xs != [] && ys != [] {
      CompareHome(xs[0], ys[0], caseSensitive);
      CompareListsHome(xs[1..], ys[1..], caseSensitive);
      hide CompareTree, Home;
    }
  }

  lemma {:induction false} CompareRecordsHome(ms: seq<Member<Tree>>, ns: seq<Member<Tree>>, caseSensitive: bool)
    requires HomeMembers(ms)
    ensures HomeMembers(CompareRecords(ms, ns, caseSensitive).ms)
    decreases MembersHeight(MemberContents(ms)), |ms|
  {
    if ms != [] && ns != [] {
      ContentTail(ms);
      CompareHome(ms[0].value, ns[0].value, caseSensitive);
      CompareRecordsHome(ms[1..], ns[1..], caseSensitive);
      RecordsStep(ms, ns, caseSensitive);
      hide CompareTree, CompareRecords, CompareStrings, Home;
    }
  }

  // ---- Runs without "move" ----

  lemma HomeTest(document: Tree, path: string, value: Option<Json>, caseSensitive: bool)
    requires Home(document)
    ensures Home(TestTree(document, path, value, caseSensitive).document)
  {
    hide CompareTree, Resolve, Content, TreeAt, TreePut, Home;
    var at := Resolve(Content(document), path, caseSensitive);
    if at.Some? && value.Some? {
      HomeAt(document, at.value);
      CompareHome(TreeAt(document, at.value), Fresh(value.value), caseSensitive);
      HomePut(document, at.value, CompareTree(TreeAt(document, at.value), Fresh(value.value), caseSensitive).a);
    }
  }

  lemma HomeAct(
    document: Tree, opcode: Opcode, pointer: string, value: Option<Json>, from: Option<Json>, caseSensitive: bool)
    requires Home(document) && opcode != MOVE
    ensures var o := ActTree(document, opcode, pointer, value, from, caseSensitive, true);
            && o == ActTree(document, opcode, pointer, value, from, caseSensitive, false)
            && (o.Ran? ==> Home(o.document))
  {
    hide Take, PlaceAt, Resolve, Content, TreeAt, TestTree;
    if opcode == COPY && from.Some? && from.value.String? {
      var at := Resolve(Content(document), from.value.text, caseSensitive);
      if at.Some? {
        FreshHome(Content(TreeAt(document, at.value)));
        HomePlace(document, pointer, Fresh(Content(TreeAt(document, at.value))), caseSensitive);
      }
    } else if opcode == TEST {
      HomeTest(document, pointer, value, caseSensitive);
    } else {
      if value.Some? {
        FreshHome(value.value);
        HomePlace(document, pointer, Fresh(value.value), caseSensitive);
      }
      HomeTake(document, pointer, caseSensitive, false);
      var d := Take(document, pointer, caseSensitive, false, false);
      if value.Some? && d.Taken? { HomePlace(d.document, pointer, Fresh(value.value), caseSensitive); }
    }
  }

  /** On such a document both readings of a run without "move" agree, and no node strays. */
  lemma {:induction false} HomeRun(document: Tree, patches: seq<Json>, caseSensitive: bool)
    requires Home(document) && forall i | 0 <= i < |patches| :: DecodeOperation(patches[i], caseSensitive) != MOVE
    ensures var o := RunPatches(document, patches, caseSensitive, true);
            o == RunPatches(document, patches, caseSensitive, false) && (o.Ran? ==> Home(o.document))
    decreases |patches|
  {
    hide ActTree, Field, DecodeOperation, Home;
    if patches != [] {
      var path := Field(patches[0], "path", caseSensitive);
      if path.Some? && path.value.String? {
        HomeAct(document, DecodeOperation(patches[0], caseSensitive), path.value.text,
                Field(patches[0], "value", caseSensitive), Field(patches[0], "from", caseSensitive), caseSensitive);
      }
      var o := ApplyTree(document, patches[0], caseSensitive, true);
      if o.Ran? && o.status == 0 { HomeRun(o.document, patches[1..], caseSensitive); }
    }
  }

  // ---- Marks ----

  /** No mark in the tree, of a node or of one that is pointed at, is greater. */
  predicate Below(t: Tree, top: nat) {
    t.mark <= top &&
    match t
    case Scalar(_, _) => true
    case List(items, _) => BelowItems(items, top)
    case Record(members, back, _) => (back.Away? ==> back.mark <= top) && BelowMembers(members, top)
  }

  predicate BelowItems(items: seq<Tree>, top: nat) {
    forall i | 0 <= i < |items| :: Below(items[i], top)
  }

  predicate BelowMembers(members: seq<Member<Tree>>, top: nat) {
    forall i | 0 <= i < |members| :: Below(members[i].value, top)
  }

  lemma {:induction false} BelowMore(t: Tree, top: nat, more: nat)
    requires Below(t, top) && top <= more
    ensures Below(t, more)
  {
    match t
    case Scalar(_, _) =>
    case List(items, _) => forall i | 0 <= i < |items| ensures Below(items[i], more) { BelowMore(items[i], top, more); }
    case Record(members, _, _) =>
      forall i | 0 <= i < |members| ensures Below(members[i].value, more) { BelowMore(members[i].value, top, more); }
  }

  /** `TopMark` is what it says, so that the next greater mark is a new one. */
  lemma {:induction false} BelowTop(t: Tree)
    ensures Below(t, TopMark(t))
  {
    match t
    case Scalar(_, _) =>
    case List(items, _) => forall i | 0 <= i < |items| ensures Below(items[i], TopMark(t)) { ItemTop(items, i, TopMark(t)); }
    case Record(members, _, _) =>
      forall i | 0 <= i < |members| ensures Below(members[i].value, TopMark(t)) { MemberTop(members, i, TopMark(t)); }
  }

  lemma {:induction false} ItemTop(items: seq<Tree>, i: nat, top: nat)
    requires i < |items| && ItemsTop(items) <= top
    ensures Below(items[i], top)
  {
    if i == 0 {
      BelowTop(items[0]);
      BelowMore(items[0], TopMark(items[0]), top);
    } else {
      ItemTop(items[1..], i - 1, top);
    }
  }

  lemma {:induction false} MemberTop(members: seq<Member<Tree>>, i: nat, top: nat)
    requires i < |members| && MembersTop(members) <= top
    ensures Below(members[i].value, top)
  {
    if i == 0 {
      BelowTop(members[0].value);
      BelowMore(members[0].value, TopMark(members[0].value), top);
    } else {
      MemberTop(members[1..], i - 1, top);
    }
  }

  lemma {:induction false} TopBelow(t: Tree, top: nat)
    requires Below(t, top)
    ensures TopMark(t) <= top
  {
    match t
    case Scalar(_, _) =>
    case List(items, _) => ItemsTopBelow(items, top);
    case Record(members, _, _) => MembersTopBelow(members, top);
  }

  lemma {:induction false} ItemsTopBelow(items: seq<Tree>, top: nat)
    requires BelowItems(items, top)
    ensures ItemsTop(items) <= top
  {
    if items != [] {
      TopBelow(items[0], top);
      ItemsTopBelow(items[1..], top);
    }
  }

  lemma {:induction false} MembersTopBelow(members: seq<Member<Tree>>, top: nat)
    requires BelowMembers(members, top)
    ensures MembersTop(members) <= top
  {
    if members != [] {
      TopBelow(members[0].value, top);
      MembersTopBelow(members[1..], top);
    }
  }

  lemma {:induction false} EndsBelow(t: Tree, top: nat)
    requires Below(t, top)
    ensures forall mark | mark in Ends(t) :: mark <= top
  {
    match t
    case Scalar(_, _) =>
    case List(items, _) =>
      assert items != [] ==> Below(items[|items| - 1], top);
      ItemEndsBelow(items, top);
    case Record(members, _, _) =>
      assert members != [] ==> Below(members[|members| - 1].value, top);
      MemberEndsBelow(members, top);
  }

  lemma {:induction false} ItemEndsBelow(items: seq<Tree>, top: nat)
    requires BelowItems(items, top)
    ensures forall mark | mark in ItemEnds(items) :: mark <= top
  {
    if items != [] {
      EndsBelow(items[0], top);
      ItemEndsBelow(items[1..], top);
    }
  }

  lemma {:induction false} MemberEndsBelow(members: seq<Member<Tree>>, top: nat)
    requires BelowMembers(members, top)
    ensures forall mark | mark in MemberEnds(members) :: mark <= top
  {
    if members != [] {
      EndsBelow(members[0].value, top);
      MemberEndsBelow(members[1..], top);
    }
  }

  lemma {:induction false} FreshBelow(j: Json)
    ensures Below(Fresh(j), 0)
  {
    match j
    case Array(items) => FreshItemsBelow(items);
    case Object(members) => FreshMembersBelow(members);
    case _ =>
  }

  lemma {:induction false} FreshItemsBelow(items: seq<Json>)
    ensures BelowItems(FreshItems(items), 0)
  {
    if items != [] {
      FreshBelow(items[0]);
      FreshItemsBelow(items[1..]);
    }
  }

  lemma {:induction false} FreshMembersBelow(members: seq<Member<Json>>)
    ensures BelowMembers(FreshMembers(members), 0)
  {
    if members != [] {
      FreshBelow(members[0].value);
      FreshMembersBelow(members[1..]);
    }
  }

  lemma SortBelow(ms: seq<Member<Tree>>, top: nat, caseSensitive: bool)
    requires BelowMembers(ms, top)
    ensures BelowMembers(Sort(ms, caseSensitive), top)
  {
    SortPermutes(ms, caseSensitive);
    var r := Sort(ms, caseSensitive);
    hide Sort, Below;
    forall i | 0 <= i < |r| ensures Below(r[i].value, top) {
      assert r[i] in multiset(ms);
      var k :| 0 <= k < |ms| && ms[k] == r[i];
    }
  }

  lemma BelowRecord(t: Tree, ms: seq<Member<Tree>>, top: nat, caseSensitive: bool)
    requires t.Record? && Below(t, top)
    ensures BelowMembers(t.members, top)
    ensures BelowMembers(ms, top) ==> Below(Record(ms, BackAfter(t.members, t.back, caseSensitive), t.mark), top)
  {
    hide Landing, Leader;
  }

  lemma BelowList(t: Tree, items: seq<Tree>, top: nat)
    requires t.List? && Below(t, top)
    ensures BelowItems(t.items, top)
    ensures BelowItems(items, top) ==> Below(List(items, t.mark), top)
  {
  }

  /** Comparing gives no marks. */
  lemma {:induction false} CompareBelow(a: Tree, b: Tree, top: nat, caseSensitive: bool)
    requires Below(a, top)
    ensures Below(CompareTree(a, b, caseSensitive).a, top)
    decreases Height(Content(a)), 0
  {
    hide *;
    if a.Record? && b.Record? {
      RecordsCompare(a, b, caseSensitive);
      RecordHeight(a);
      SortedHeight(a.members, caseSensitive);
      BelowRecord(a, CompareRecords(Sort(a.members, caseSensitive), Sort(b.members, caseSensitive), caseSensitive).ms, top, caseSensitive);
      SortBelow(a.members, top, caseSensitive);
      CompareRecordsBelow(Sort(a.members, caseSensitive), Sort(b.members, caseSensitive), top, caseSensitive);
    } else if a.List? && b.List? {
      ListsCompare(a, b, caseSensitive);
      ListHeight(a);
      BelowList(a, CompareLists(a.items, b.items, caseSensitive).xs, top);
      CompareListsBelow(a.items, b.items, top, caseSensitive);
    } else {
      NotCompared(a, b, caseSensitive);
    }
  }

  lemma {:induction false} CompareListsBelow(xs: seq<Tree>, ys: seq<Tree>, top: nat, caseSensitive: bool)
    requires BelowItems(xs, top)
    ensures BelowItems(CompareLists(xs, ys, caseSensitive).xs, top)
    decreases ItemsHeight(Contents(xs)), |xs|
  {
    if xs != [] && ys != [] {
      CompareBelow(xs[0], ys[0], top, caseSensitive);
      CompareListsBelow(xs[1..], ys[1..], top, caseSensitive);
      hide CompareTree, Below;
    }
  }

  lemma {:induction false} CompareRecordsBelow(ms: seq<Member<Tree>>, ns: seq<Member<Tree>>, top: nat, caseSensitive: bool)
    requires BelowMembers(ms, top)
    ensures BelowMembers(CompareRecords(ms, ns, caseSensitive).ms, top)
    decreases MembersHeight(MemberContents(ms)), |ms|
  {
    if ms != [] && ns != [] {
      ContentTail(ms);
      CompareBelow(ms[0].value, ns[0].value, top, caseSensitive);
      CompareRecordsBelow(ms[1..], ns[1..], top, caseSensitive);
      RecordsStep(ms, ns, caseSensitive);
      hide CompareTree, CompareRecords, CompareStrings, Below;
    }
  }
}
