/**
 A mark names one node: whatever a run of patches or a merge does to a document, no two nodes
 of it come to bear the same mark, so that `Away` says which node a first member points at.
 */
module Marks {
  import opened Options
  import opened CString
  import opened Json
  import opened MemberSort
  import opened Pointer
  import opened Compare
  import opened Links
  import opened Patch
  import opened LinkedPatch
  import opened LinkedMerge
  import opened Strays

  function Own(mark: nat, k: nat): nat {
    if mark == k && k != 0 then 1 else 0
  }

  /** How many nodes of a tree bear the mark. */
  function MarksIn(t: Tree, k: nat): nat {
    match t
    case Scalar(_, mark) => Own(mark, k)
    case List(items, mark) => Own(mark, k) + ItemMarks(items, k)
    case Record(members, _, mark) => Own(mark, k) + MemberMarks(members, k)
  }

  function ItemMarks(items: seq<Tree>, k: nat): nat {
    if items == [] then 0 else MarksIn(items[0], k) + ItemMarks(items[1..], k)
  }

  function MemberMarks(ms: seq<Member<Tree>>, k: nat): nat {
    if ms == [] then 0 else MarksIn(ms[0].value, k) + MemberMarks(ms[1..], k)
  }

  ghost predicate OneNodeEach(t: Tree) {
    forall k: nat :: MarksIn(t, k) <= 1
  }

  // ---- Parts ----

  lemma FirstItems(xs: seq<Tree>, k: nat)
    ensures ItemMarks(xs, k) == if xs == [] then 0 else MarksIn(xs[0], k) + ItemMarks(xs[1..], k)
  {
  }

  lemma {:induction false} ItemsJoin(a: seq<Tree>, b: seq<Tree>, k: nat)
    ensures ItemMarks(a + b, k) == ItemMarks(a, k) + ItemMarks(b, k)
  {
    hide *;
    FirstItems(a, k);
    if a == [] {
      assert a + b == b;
    } else {
      ItemsJoin(a[1..], b, k);
      FirstItems(a + b, k);
      assert (a + b)[1..] == a[1..] + b;
    }
  }

  lemma FirstMembers(xs: seq<Member<Tree>>, k: nat)
    ensures MemberMarks(xs, k) == if xs == [] then 0 else MarksIn(xs[0].value, k) + MemberMarks(xs[1..], k)
  {
  }

  lemma {:induction false} MembersJoin(a: seq<Member<Tree>>, b: seq<Member<Tree>>, k: nat)
    ensures MemberMarks(a + b, k) == MemberMarks(a, k) + MemberMarks(b, k)
  {
    hide *;
    FirstMembers(a, k);
    if a == [] {
      assert a + b == b;
    } else {
      MembersJoin(a[1..], b, k);
      FirstMembers(a + b, k);
      assert (a + b)[1..] == a[1..] + b;
    }
  }

  lemma OneItem(x: Tree, k: nat)
    ensures ItemMarks([x], k) == MarksIn(x, k)
  {
    assert ItemMarks([x][1..], k) == 0;
    hide MarksIn;
  }

  lemma OneMember(m: Member<Tree>, k: nat)
    ensures MemberMarks([m], k) == MarksIn(m.value, k)
  {
    assert MemberMarks([m][1..], k) == 0;
    hide MarksIn;
  }

  lemma ItemsSplit(items: seq<Tree>, i: nat, k: nat)
    requires i < |items|
    ensures ItemMarks(items, k) == ItemMarks(items[..i], k) + MarksIn(items[i], k) + ItemMarks(items[i + 1..], k)
    ensures ItemMarks(items[..i] + items[i + 1..], k) == ItemMarks(items[..i], k) + ItemMarks(items[i + 1..], k)
  {
    hide *;
    var front, rest := items[..i], items[i + 1..];
    assert items == (front + [items[i]]) + rest;
    ItemsJoin(front + [items[i]], rest, k);
    ItemsJoin(front, [items[i]], k);
    ItemsJoin(front, rest, k);
    OneItem(items[i], k);
  }

  lemma MembersSplit(ms: seq<Member<Tree>>, i: nat, k: nat)
    requires i < |ms|
    ensures MemberMarks(ms, k) == MemberMarks(ms[..i], k) + MarksIn(ms[i].value, k) + MemberMarks(ms[i + 1..], k)
    ensures MemberMarks(ms[..i] + ms[i + 1..], k) == MemberMarks(ms[..i], k) + MemberMarks(ms[i + 1..], k)
  {
    hide *;
    var front, rest := ms[..i], ms[i + 1..];
    assert ms == (front + [ms[i]]) + rest;
    MembersJoin(front + [ms[i]], rest, k);
    MembersJoin(front, [ms[i]], k);
    MembersJoin(front, rest, k);
    OneMember(ms[i], k);
  }

  lemma Unplug<T>(s: seq<T>, i: nat)
    requires i < |s|
    ensures multiset(s[..i] + s[i + 1..]) == multiset(s) - multiset{s[i]}
  {
    assert s == s[..i] + [s[i]] + s[i + 1..];
  }

  lemma Behead<T>(s: seq<T>)
    requires s != []
    ensures s[0] in multiset(s) && multiset(s[1..]) == multiset(s) - multiset{s[0]}
  {
    assert s == [s[0]] + s[1..];
  }

  lemma Unplugged<T>(s: seq<T>, r: seq<T>) returns (j: nat)
    requires multiset(s) == multiset(r) && s != []
    ensures j < |r| && r[j] == s[0] && multiset(s[1..]) == multiset(r[..j] + r[j + 1..])
  {
    Behead(s);
    j :| 0 <= j < |r| && r[j] == s[0];
    Unplug(r, j);
  }

  lemma {:induction false} MembersPermuted(ms: seq<Member<Tree>>, ns: seq<Member<Tree>>, k: nat)
    requires multiset(ms) == multiset(ns)
    ensures MemberMarks(ms, k) == MemberMarks(ns, k)
    decreases |ms|
  {
    hide *;
    FirstMembers(ms, k);
    if ms == [] {
      assert |ns| == |multiset(ns)| == |multiset(ms)|;
    } else {
      var j := Unplugged(ms, ns);
      MembersPermuted(ms[1..], ns[..j] + ns[j + 1..], k);
      MembersSplit(ns, j, k);
    }
  }

  lemma ListMarks(t: Tree, k: nat)
    requires t.List?
    ensures MarksIn(t, k) == Own(t.mark, k) + ItemMarks(t.items, k)
  {
  }

  lemma RecordMarks(t: Tree, k: nat)
    requires t.Record?
    ensures MarksIn(t, k) == Own(t.mark, k) + MemberMarks(t.members, k)
  {
  }

  lemma ChildMarks(t: Tree, i: nat, x: Tree, k: nat)
    requires i < ChildCount(Content(t))
    ensures MarksIn(TreeChild(t, i), k) <= MarksIn(t, k)
    ensures MarksIn(TreeWith(t, i, x), k) + MarksIn(TreeChild(t, i), k) == MarksIn(t, k) + MarksIn(x, k)
  {
    hide MarksIn, ItemMarks, MemberMarks, Own;
    if t.List? {
      var after := t.items[i := x];
      ItemsSplit(t.items, i, k);
      ItemsSplit(after, i, k);
      assert after[..i] == t.items[..i] && after[i + 1..] == t.items[i + 1..];
      ListMarks(t, k);
      ListMarks(TreeWith(t, i, x), k);
    } else {
      var after := t.members[i := Member(t.members[i].key, x)];
      MembersSplit(t.members, i, k);
      MembersSplit(after, i, k);
      assert after[..i] == t.members[..i] && after[i + 1..] == t.members[i + 1..];
      RecordMarks(t, k);
      RecordMarks(TreeWith(t, i, x), k);
    }
  }

  lemma {:induction false} PutMarks(t: Tree, at: Position, x: Tree, k: nat)
    requires Exists(Content(t), at)
    ensures MarksIn(TreeAt(t, at), k) <= MarksIn(t, k)
    ensures MarksIn(TreePut(t, at, x), k) + MarksIn(TreeAt(t, at), k) == MarksIn(t, k) + MarksIn(x, k)
    decreases |at|
  {
    hide MarksIn, TreeWith, TreeChild, Content;
    if at != [] {
      var c := TreeChild(t, at[0]);
      PutMarks(c, at[1..], x, k);
      var put := TreePut(c, at[1..], x);
      ChildMarks(t, at[0], put, k);
    }
  }

  lemma {:induction false} FreshMarks(j: Json, k: nat)
    ensures MarksIn(Fresh(j), k) == 0
  {
    match j
    case Array(items) => FreshItemMarks(items, k);
    case Object(members) => FreshMemberMarks(members, k);
    case _ =>
  }

  lemma {:induction false} FreshItemMarks(items: seq<Json>, k: nat)
    ensures ItemMarks(FreshItems(items), k) == 0
  {
    if items != [] {
      FreshMarks(items[0], k);
      FreshItemMarks(items[1..], k);
    }
  }

  lemma {:induction false} FreshMemberMarks(ms: seq<Member<Json>>, k: nat)
    ensures MemberMarks(FreshMembers(ms), k) == 0
  {
    if ms != [] {
      FreshMarks(ms[0].value, k);
      FreshMemberMarks(ms[1..], k);
    }
  }

  // ---- A greater mark than any is a new one ----

  lemma {:induction false} MarksBelow(t: Tree, top: nat, k: nat)
    requires Below(t, top) && k > top
    ensures MarksIn(t, k) == 0
  {
    match t
    case Scalar(_, _) =>
    case List(items, _) => ItemMarksBelow(items, top, k);
    case Record(members, _, _) => MemberMarksBelow(members, top, k);
  }

  lemma {:induction false} ItemMarksBelow(items: seq<Tree>, top: nat, k: nat)
    requires BelowItems(items, top) && k > top
    ensures ItemMarks(items, k) == 0
  {
    if items != [] {
      MarksBelow(items[0], top, k);
      ItemMarksBelow(items[1..], top, k);
    }
  }

  lemma {:induction false} MemberMarksBelow(ms: seq<Member<Tree>>, top: nat, k: nat)
    requires BelowMembers(ms, top) && k > top
    ensures MemberMarks(ms, k) == 0
  {
    if ms != [] {
      MarksBelow(ms[0].value, top, k);
      MemberMarksBelow(ms[1..], top, k);
    }
  }

  // ---- detach_path ----

  lemma MarkedMarks(t: Tree, mark: nat, k: nat)
    ensures MarksIn(Marked(t, mark), k) == if t.mark == 0 then MarksIn(t, k) + Own(mark, k) else MarksIn(t, k)
  {
    hide ItemMarks, MemberMarks;
  }

  lemma TakeMemberMarks(t: Tree, i: nat, mark: nat, k: nat)
    requires t.Record? && i < |t.members|
    ensures var d := TakeMember(t, i, mark);
            d.Taken? && MarksIn(t, k) <= MarksIn(d.document, k) + MarksIn(d.item, k) <= MarksIn(t, k) + Own(mark, k)
  {
    hide MarksIn, MemberMarks, Own, Marked, Held, Past;
    MembersSplit(t.members, i, k);
    MarkedMarks(t.members[i].value, mark, k);
    RecordMarks(t, k);
    RecordMarks(Dropped(t, i), k);
    RecordMarks(TakeMember(t, i, mark).document, k);
  }

  lemma TakeChildMarks(parent: Tree, child: string, mark: nat, ends: set<nat>, k: nat)
    ensures var d := TakeChild(parent, child, mark, ends);
            d.Taken? ==> MarksIn(d.document, k) + MarksIn(d.item, k) <= MarksIn(parent, k) + Own(mark, k)
  {
    hide MarksIn, ItemMarks, MemberMarks, Own, TakeMember, FindMember, DecodeIndex, Token, Tears;
    match parent
    case Scalar(_, _) =>
    case List(items, own) =>
      var index := DecodeIndex(Token(child));
      if index.Some? && index.value < |items| {
        ItemsSplit(items, index.value, k);
        ListMarks(parent, k);
        ListMarks(List(items[..index.value] + items[index.value + 1..], own), k);
      }
    case Record(members, _, _) =>
      var i := FindMember(members, child, false);
      if i < |members| { TakeMemberMarks(parent, i, mark, k); }
  }

  /** What is left and what was taken bear no mark more often than the document did, but for a new one. */
  lemma TakeMarks(document: Tree, path: string, caseSensitive: bool, move: bool, exact: bool, k: nat)
    ensures var d := Take(document, path, caseSensitive, move, exact);
            d.Taken? ==>
              MarksIn(d.document, k) + MarksIn(d.item, k) <=
              MarksIn(document, k) + Own(if move then TopMark(document) + 1 else 0, k)
  {
    hide TakeChild, Resolve, Decode, TreeAt, TreePut, Content, LastSlash, Ends, TopMark, MarksIn, Own;
    var slash := LastSlash(path);
    if slash.Some? {
      var at := Resolve(Content(document), path[..slash.value], caseSensitive);
      if at.Some? {
        var mark, child := if move then TopMark(document) + 1 else 0, Decode(path[slash.value + 1..]);
        var ends := if exact then Ends(document) else {};
        TakeChildMarks(TreeAt(document, at.value), child, mark, ends, k);
        var d := TakeChild(TreeAt(document, at.value), child, mark, ends);
        if d.Taken? {
          PutMarks(document, at.value, d.document, k);
        }
      }
    }
  }

  // ---- Adding a value ----

  lemma AppendedMarks(t: Tree, m: Member<Tree>, k: nat)
    requires t.Record?
    ensures MarksIn(Appended(t, m), k) == MarksIn(t, k) + MarksIn(m.value, k)
  {
    hide MarksIn, MemberMarks, Own, Held;
    MembersJoin(t.members, [m], k);
    OneMember(m, k);
    RecordMarks(t, k);
    RecordMarks(Appended(t, m), k);
  }

  lemma DroppedMarks(t: Tree, i: nat, k: nat)
    requires t.Record? && i < |t.members|
    ensures MarksIn(Dropped(t, i), k) + MarksIn(t.members[i].value, k) == MarksIn(t, k)
  {
    hide MarksIn, MemberMarks, Own, Held, Past;
    MembersSplit(t.members, i, k);
    RecordMarks(t, k);
    RecordMarks(Dropped(t, i), k);
  }

  lemma ListPlaceMarks(items: seq<Tree>, own: nat, i: nat, value: Tree, k: nat)
    requires i <= |items|
    ensures MarksIn(List(items[..i] + [value] + items[i..], own), k) == MarksIn(List(items, own), k) + MarksIn(value, k)
  {
    hide *;
    ItemsJoin(items[..i] + [value], items[i..], k);
    ItemsJoin(items[..i], [value], k);
    ItemsJoin(items[..i], items[i..], k);
    assert items[..i] + items[i..] == items;
    OneItem(value, k);
    ListMarks(List(items[..i] + [value] + items[i..], own), k);
    ListMarks(List(items, own), k);
  }

  lemma PlaceInMarks(parent: Tree, child: string, value: Tree, caseSensitive: bool, ends: set<nat>, k: nat)
    ensures var p := PlaceIn(parent, child, value, caseSensitive, ends);
            p.Placed? ==> MarksIn(p.parent, k) <= MarksIn(parent, k) + MarksIn(value, k)
  {
    hide MarksIn, Appended, Dropped, FindMember, DecodeIndex, Token, Tears;
    match parent
    case Scalar(_, _) =>
    case List(items, own) =>
      assert items[..|items|] + [value] + items[|items|..] == items + [value];
      ListPlaceMarks(items, own, |items|, value, k);
      var index := DecodeIndex(Token(child));
      if index.Some? && index.value <= |items| { ListPlaceMarks(items, own, index.value, value, k); }
    case Record(members, _, _) =>
      var i, m := FindMember(members, child, caseSensitive), Member(child, value);
      AppendedMarks(parent, m, k);
      if i < |members| {
        DroppedMarks(parent, i, k);
        AppendedMarks(Dropped(parent, i), m, k);
      }
  }

  lemma PlaceMarks(document: Tree, path: string, value: Tree, caseSensitive: bool, exact: bool, k: nat)
    ensures var o := PlaceAt(document, path, value, caseSensitive, exact);
            o.Ran? ==> MarksIn(o.document, k) <= MarksIn(document, k) + MarksIn(value, k)
  {
    hide PlaceIn, Resolve, Decode, TreeAt, TreePut, Content, LastSlash, EndsWith, MarksIn;
    var slash := LastSlash(path);
    if slash.Some? {
      var at := Resolve(Content(document), path[..slash.value], caseSensitive);
      if at.Some? {
        var child, ends := Decode(path[slash.value + 1..]), EndsWith(document, value, exact);
        PlaceInMarks(TreeAt(document, at.value), child, value, caseSensitive, ends, k);
        var p := PlaceIn(TreeAt(document, at.value), child, value, caseSensitive, ends);
        if p.Placed? {
          PutMarks(document, at.value, p.parent, k);
        }
      }
    }
  }

  // ---- Comparing ----

  lemma SortMarks(ms: seq<Member<Tree>>, caseSensitive: bool, k: nat)
    ensures MemberMarks(Sort(ms, caseSensitive), k) == MemberMarks(ms, k)
  {
    SortPermutes(ms, caseSensitive);
    MembersPermuted(Sort(ms, caseSensitive), ms, k);
  }

  lemma {:induction false} CompareMarks(a: Tree, b: Tree, caseSensitive: bool, k: nat)
    ensures MarksIn(CompareTree(a, b, caseSensitive).a, k) == MarksIn(a, k)
    decreases Height(Content(a)), 0
  {
    hide *;
    if a.Record? && b.Record? {
      RecordsCompare(a, b, caseSensitive);
      RecordHeight(a);
      SortedHeight(a.members, caseSensitive);
      SortMarks(a.members, caseSensitive, k);
      CompareRecordMarks(Sort(a.members, caseSensitive), Sort(b.members, caseSensitive), caseSensitive, k);
      RecordMarks(a, k);
      RecordMarks(CompareTree(a, b, caseSensitive).a, k);
    } else if a.List? && b.List? {
      ListsCompare(a, b, caseSensitive);
      ListHeight(a);
      CompareListMarks(a.items, b.items, caseSensitive, k);
      ListMarks(a, k);
      ListMarks(CompareTree(a, b, caseSensitive).a, k);
    } else {
      NotCompared(a, b, caseSensitive);
    }
  }

  lemma ConsMarks(m: Member<Tree>, ms: seq<Member<Tree>>, k: nat)
    ensures MemberMarks([m] + ms, k) == MarksIn(m.value, k) + MemberMarks(ms, k)
  {
    MembersJoin([m], ms, k);
    OneMember(m, k);
  }

  lemma {:induction false} CompareListMarks(xs: seq<Tree>, ys: seq<Tree>, caseSensitive: bool, k: nat)
    ensures ItemMarks(CompareLists(xs, ys, caseSensitive).xs, k) == ItemMarks(xs, k)
    decreases ItemsHeight(Contents(xs)), |xs|
  {
    if xs != [] && ys != [] {
      CompareMarks(xs[0], ys[0], caseSensitive, k);
      CompareListMarks(xs[1..], ys[1..], caseSensitive, k);
      hide CompareTree, MarksIn;
      var r := CompareTree(xs[0], ys[0], caseSensitive);
      ItemsJoin([r.a], xs[1..], k);
      ItemsJoin([r.a], CompareLists(xs[1..], ys[1..], caseSensitive).xs, k);
      OneItem(r.a, k);
    }
  }

  lemma {:induction false} CompareRecordMarks(ms: seq<Member<Tree>>, ns: seq<Member<Tree>>, caseSensitive: bool, k: nat)
    ensures MemberMarks(CompareRecords(ms, ns, caseSensitive).ms, k) == MemberMarks(ms, k)
    decreases MembersHeight(MemberContents(ms)), |ms|
  {
    if ms != [] && ns != [] {
      ContentTail(ms);
      CompareMarks(ms[0].value, ns[0].value, caseSensitive, k);
      CompareRecordMarks(ms[1..], ns[1..], caseSensitive, k);
      RecordsStep(ms, ns, caseSensitive);
      FirstMembers(ms, k);
      hide CompareTree, CompareRecords, CompareStrings, MarksIn, MemberMarks;
      var r := CompareTree(ms[0].value, ns[0].value, caseSensitive);
      ConsMarks(Member(ms[0].key, r.a), ms[1..], k);
      ConsMarks(Member(ms[0].key, r.a), CompareRecords(ms[1..], ns[1..], caseSensitive).ms, k);
    } else {
      NoneCompared(ms, ns, caseSensitive);
    }
  }

  lemma NoneCompared(ms: seq<Member<Tree>>, ns: seq<Member<Tree>>, caseSensitive: bool)
    requires ms == [] || ns == []
    ensures CompareRecords(ms, ns, caseSensitive).ms == ms
  {
  }

  // ---- Runs ----

  lemma TestMarks(document: Tree, path: string, value: Option<Json>, caseSensitive: bool, k: nat)
    ensures MarksIn(TestTree(document, path, value, caseSensitive).document, k) == MarksIn(document, k)
  {
    hide CompareTree, Resolve, Content, TreeAt, TreePut, MarksIn;
    var at := Resolve(Content(document), path, caseSensitive);
    if at.Some? && value.Some? {
      var was := TreeAt(document, at.value);
      var now := CompareTree(was, Fresh(value.value), caseSensitive).a;
      CompareMarks(was, Fresh(value.value), caseSensitive, k);
      PutMarks(document, at.value, now, k);
    }
  }

  lemma NewMark(t: Tree, k: nat)
    requires OneNodeEach(t)
    ensures MarksIn(t, k) + Own(TopMark(t) + 1, k) <= 1
  {
    BelowTop(t);
    if k == TopMark(t) + 1 { MarksBelow(t, TopMark(t), k); }
    hide MarksIn, TopMark;
  }

  lemma MoveMarks(document: Tree, pointer: string, from: string, caseSensitive: bool, exact: bool)
    requires OneNodeEach(document)
    ensures var d := Take(document, from, caseSensitive, true, exact);
            d.Taken? ==>
              var o := PlaceAt(d.document, pointer, d.item, caseSensitive, exact);
              o.Ran? ==> OneNodeEach(o.document)
  {
    hide Take, PlaceAt, MarksIn, TopMark, Own;
    var d := Take(document, from, caseSensitive, true, exact);
    if d.Taken? {
      var o := PlaceAt(d.document, pointer, d.item, caseSensitive, exact);
      if o.Ran? {
        forall k: nat ensures MarksIn(o.document, k) <= 1 {
          TakeMarks(document, from, caseSensitive, true, exact, k);
          PlaceMarks(d.document, pointer, d.item, caseSensitive, exact, k);
          NewMark(document, k);
        }
      }
    }
  }

  lemma PlaceFreshMarks(document: Tree, path: string, x: Json, caseSensitive: bool, exact: bool, k: nat)
    ensures var o := PlaceAt(document, path, Fresh(x), caseSensitive, exact);
            o.Ran? ==> MarksIn(o.document, k) <= MarksIn(document, k)
  {
    PlaceMarks(document, path, Fresh(x), caseSensitive, exact, k);
    FreshMarks(x, k);
    hide PlaceAt, MarksIn, Fresh;
  }

  lemma TakeAwayMarks(document: Tree, path: string, value: Option<Json>, replace: bool, caseSensitive: bool, exact: bool, k: nat)
    ensures var o := TakeAway(document, path, value, replace, caseSensitive, exact);
            o.Ran? ==> MarksIn(o.document, k) <= MarksIn(document, k)
  {
    hide Take, PlaceAt, MarksIn;
    TakeMarks(document, path, caseSensitive, false, exact, k);
    var d := Take(document, path, caseSensitive, false, exact);
    if d.Taken? && value.Some? { PlaceFreshMarks(d.document, path, value.value, caseSensitive, exact, k); }
  }

  lemma RootMarks(value: Option<Json>, k: nat)
    ensures MarksIn(Scalar(Invalid, 0), k) == 0 && (value.Some? ==> MarksIn(Fresh(value.value), k) == 0)
  {
    if value.Some? { FreshMarks(value.value, k); }
  }

  lemma ActMarks(
    document: Tree, opcode: Opcode, pointer: string, value: Option<Json>, from: Option<Json>, caseSensitive: bool, exact: bool, k: nat)
    requires opcode != MOVE
    ensures var o := ActTree(document, opcode, pointer, value, from, caseSensitive, exact);
            o.Ran? ==> MarksIn(o.document, k) <= MarksIn(document, k)
  {
    hide TakeAway, PlaceAt, Resolve, Content, TreeAt, TestTree, MarksIn, Fresh;
    RootMarks(value, k);
    if value.Some? { PlaceFreshMarks(document, pointer, value.value, caseSensitive, exact, k); }
    match opcode
    case TEST => TestMarks(document, pointer, value, caseSensitive, k);
    case REMOVE => TakeAwayMarks(document, pointer, value, false, caseSensitive, exact, k);
    case REPLACE => TakeAwayMarks(document, pointer, value, true, caseSensitive, exact, k);
    case COPY =>
      if from.Some? && from.value.String? {
        var at := Resolve(Content(document), from.value.text, caseSensitive);
        if at.Some? { PlaceFreshMarks(document, pointer, Content(TreeAt(document, at.value)), caseSensitive, exact, k); }
      }
    case _ =>
  }

  lemma ApplyMarks(document: Tree, patch: Json, caseSensitive: bool, exact: bool)
    requires OneNodeEach(document)
    ensures var o := ApplyTree(document, patch, caseSensitive, exact); o.Ran? ==> OneNodeEach(o.document)
  {
    hide ActTree, Field, DecodeOperation, MarksIn;
    var path, opcode := Field(patch, "path", caseSensitive), DecodeOperation(patch, caseSensitive);
    if path.Some? && path.value.String? {
      var value, from := Field(patch, "value", caseSensitive), Field(patch, "from", caseSensitive);
      var o := ActTree(document, opcode, path.value.text, value, from, caseSensitive, exact);
      if opcode == MOVE {
        MoveActs(document, path.value.text, value, from, caseSensitive, exact);
      } else if o.Ran? {
        forall k: nat ensures MarksIn(o.document, k) <= 1 {
          ActMarks(document, opcode, path.value.text, value, from, caseSensitive, exact, k);
        }
      }
    }
  }

  lemma MoveActs(
    document: Tree, pointer: string, value: Option<Json>, from: Option<Json>, caseSensitive: bool, exact: bool)
    requires OneNodeEach(document)
    ensures var o := ActTree(document, MOVE, pointer, value, from, caseSensitive, exact); o.Ran? ==> OneNodeEach(o.document)
  {
    hide Take, PlaceAt, OneNodeEach;
    if from.Some? && from.value.String? { MoveMarks(document, pointer, from.value.text, caseSensitive, exact); }
  }

  /** No run gives one mark to two nodes. */
  lemma {:induction false} RunMarks(document: Tree, patches: seq<Json>, caseSensitive: bool, exact: bool)
    requires OneNodeEach(document)
    ensures var o := RunPatches(document, patches, caseSensitive, exact); o.Ran? ==> OneNodeEach(o.document)
    decreases |patches|
  {
    hide ApplyTree, OneNodeEach;
    if patches != [] {
      ApplyMarks(document, patches[0], caseSensitive, exact);
      var o := ApplyTree(document, patches[0], caseSensitive, exact);
      if o.Ran? && o.status == 0 { RunMarks(o.document, patches[1..], caseSensitive, exact); }
    }
  }

  lemma FreshOneEach(j: Json)
    ensures OneNodeEach(Fresh(j))
  {
    hide MarksIn, Fresh;
    forall k: nat ensures MarksIn(Fresh(j), k) <= 1 { FreshMarks(j, k); }
  }

  // ---- merge_patch ----

  function MarksOption(t: Option<Tree>, k: nat): nat {
    if t.Some? then MarksIn(t.value, k) else 0
  }

  /** A merge gives no marks. */
  lemma {:induction false} MergeMarks(target: Option<Tree>, patch: Json, caseSensitive: bool, exact: bool, outside: set<nat>, k: nat)
    ensures var m := MergeTree(target, patch, caseSensitive, exact, outside);
            m.Becomes? ==> MarksIn(m.tree, k) <= MarksOption(target, k)
    decreases Height(patch), 0
  {
    if patch.Object? {
      var t := if target.Some? && target.value.Record? then target.value else Record([], Nowhere, 0);
      MergeRecordMarks(t, patch.members, caseSensitive, exact, outside, k);
      assert MarksIn(Record([], Nowhere, 0), k) == 0;
      hide MergeRecord, MarksIn;
    } else {
      FreshMarks(patch, k);
      hide Fresh;
    }
  }

  lemma {:induction false} MergeRecordMarks(
    t: Tree, ps: seq<Member<Json>>, caseSensitive: bool, exact: bool, outside: set<nat>, k: nat)
    requires t.Record?
    ensures var m := MergeRecord(t, ps, caseSensitive, exact, outside); m.Becomes? ==> MarksIn(m.tree, k) <= MarksIn(t, k)
    decreases MembersHeight(ps), |ps| + 1
  {
    if ps != [] {
      MergeIntoMarks(t, ps[0], caseSensitive, exact, outside, k);
      hide MergeInto, MarksIn;
      var r := MergeInto(t, ps[0], caseSensitive, exact, outside);
      if r.Becomes? { MergeRecordMarks(r.tree, ps[1..], caseSensitive, exact, outside, k); }
    }
  }

  lemma RejoinedMarks(t: Tree, i: nat, m: Member<Tree>, kept: bool, k: nat)
    requires t.Record?
    ensures MarksIn(Rejoined(t, i, m, kept), k) == MarksIn(Remaining(t, i), k) + MarksIn(m.value, k)
  {
    hide MarksIn, Remaining, Appended;
    var joined := Appended(Remaining(t, i), m);
    AppendedMarks(Remaining(t, i), m, k);
    RecordMarks(joined, k);
    RecordMarks(Rejoined(t, i, m, kept), k);
  }

  lemma {:induction false} MergeIntoMarks(t: Tree, p: Member<Json>, caseSensitive: bool, exact: bool, outside: set<nat>, k: nat)
    requires t.Record?
    ensures var r := MergeInto(t, p, caseSensitive, exact, outside); r.Becomes? ==> MarksIn(r.tree, k) <= MarksIn(t, k)
    decreases Height(p.value), 1
  {
    hide FindMember, Fold, MergeTree, Rejoined, EndsAround, MarksIn, Tears, Height, Dropped;
    var ms, i := t.members, FindMember(t.members, p.key, caseSensitive);
    if i < |ms| { DroppedMarks(t, i, k); }
    if !p.value.Null? {
      var previous := if i < |ms| then Some(ms[i].value) else None;
      var ends := EndsAround(t, Remaining(t, i), exact, outside);
      MergeMarks(previous, p.value, caseSensitive, exact, ends, k);
      var m := MergeTree(previous, p.value, caseSensitive, exact, ends);
      if m.Becomes? { RejoinedMarks(t, i, Member(p.key, m.tree), p.value.Object?, k); }
    }
  }

  /** No merge gives one mark to two nodes. */
  lemma MergeOneEach(t: Tree, patch: Json, caseSensitive: bool, exact: bool, outside: set<nat>)
    requires OneNodeEach(t)
    ensures var m := MergeTree(Some(t), patch, caseSensitive, exact, outside); m.Becomes? ==> OneNodeEach(m.tree)
  {
    hide MergeTree, MarksIn;
    var m := MergeTree(Some(t), patch, caseSensitive, exact, outside);
    if m.Becomes? {
      forall k: nat ensures MarksIn(m.tree, k) <= 1 { MergeMarks(Some(t), patch, caseSensitive, exact, outside, k); }
    }
  }
}
