/**
 Document trees with the one link that trees as values leave out.  `sort_list` does not clear
 the `prev` of the node that it brings to the front, so an object says here what its first
 member still points back at.  `Content` forgets that.
 */
module Links {
  import opened CString
  import opened Json
  import opened MemberSort
  import opened Pointer
  import opened Compare

  type Atom = j: Json | !j.Array? && !j.Object? witness Null

  /** The `prev` of an object's first member. */
  datatype Back =
    | Nowhere
    | Into(at: nat)   // a later member of the object
    | Gone            // a node that has been deleted
    | Away(mark: nat) // a node that "move" has put into another list

  /** A node that a first member may point at from another list has a mark other than 0. */
  datatype Tree =
    | Scalar(atom: Atom, mark: nat)
    | List(items: seq<Tree>, mark: nat)
    | Record(members: seq<Member<Tree>>, back: Back, mark: nat)

  function Content(t: Tree): Json {
    match t
    case Scalar(atom, _) => atom
    case List(items, _) => Array(Contents(items))
    case Record(members, _, _) => Object(MemberContents(members))
  }

  function Contents(items: seq<Tree>): (js: seq<Json>)
    ensures |js| == |items| && forall i | 0 <= i < |items| :: js[i] == Content(items[i])
  {
    if items == [] then [] else [Content(items[0])] + Contents(items[1..])
  }

  function MemberContents(members: seq<Member<Tree>>): (ms: seq<Member<Json>>)
    ensures |ms| == |members|
    ensures forall i | 0 <= i < |members| :: ms[i] == Member(members[i].key, Content(members[i].value))
  {
    if members == [] then []
    else [Member(members[0].key, Content(members[0].value))] + MemberContents(members[1..])
  }

  /** What parsing or duplicating makes: no node points back at another but its predecessor. */
  function Fresh(j: Json): (t: Tree)
    ensures Content(t) == j && Clean(t)
  {
    match j
    case Array(items) => List(FreshItems(items), 0)
    case Object(members) => Record(FreshMembers(members), Nowhere, 0)
    case _ => Scalar(j, 0)
  }

  function FreshItems(items: seq<Json>): (ts: seq<Tree>)
    ensures Contents(ts) == items && CleanItems(ts)
  {
    if items == [] then [] else [Fresh(items[0])] + FreshItems(items[1..])
  }

  function FreshMembers(members: seq<Member<Json>>): (ms: seq<Member<Tree>>)
    ensures MemberContents(ms) == members && CleanMembers(ms)
  {
    if members == [] then []
    else [Member(members[0].key, Fresh(members[0].value))] + FreshMembers(members[1..])
  }

  /** No object whose first member points back. */
  predicate Clean(t: Tree) {
    match t
    case Scalar(_, _) => true
    case List(items, _) => CleanItems(items)
    case Record(members, back, _) => back.Nowhere? && CleanMembers(members)
  }

  predicate CleanItems(items: seq<Tree>) {
    forall i | 0 <= i < |items| :: Clean(items[i])
  }

  predicate CleanMembers(members: seq<Member<Tree>>) {
    forall i | 0 <= i < |members| :: Clean(members[i].value)
  }

  // ---- Nodes by position ----

  function TreeChild(t: Tree, i: nat): (c: Tree)
    requires i < ChildCount(Content(t))
    ensures Content(c) == ChildAt(Content(t), i)
  {
    if t.List? then t.items[i] else t.members[i].value
  }

  function TreeWith(t: Tree, i: nat, x: Tree): (r: Tree)
    requires i < ChildCount(Content(t))
    ensures Content(r) == WithChild(Content(t), i, Content(x))
  {
    if t.List? then
      assert Contents(t.items[i := x]) == Contents(t.items)[i := Content(x)];
      List(t.items[i := x], t.mark)
    else
      var m := Member(t.members[i].key, x);
      assert MemberContents(t.members[i := m]) == MemberContents(t.members)[i := Member(m.key, Content(x))];
      Record(t.members[i := m], t.back, t.mark)
  }

  function TreeAt(t: Tree, at: Position): (c: Tree)
    requires Exists(Content(t), at)
    ensures Content(c) == At(Content(t), at)
    decreases |at|
  {
    if at == [] then t else TreeAt(TreeChild(t, at[0]), at[1..])
  }

  function TreePut(t: Tree, at: Position, x: Tree): (r: Tree)
    requires Exists(Content(t), at)
    ensures Content(r) == Put(Content(t), at, Content(x))
    decreases |at|
  {
    if at == [] then x else TreeWith(t, at[0], TreePut(TreeChild(t, at[0]), at[1..], x))
  }

  // ---- Sorting ----

  /** Sorting moves the contents as it moves the nodes. */
  lemma ContentSorts(ms: seq<Member<Tree>>, caseSensitive: bool)
    ensures MemberContents(Sort(ms, caseSensitive)) == Sort(MemberContents(ms), caseSensitive)
    ensures FirstStays(ms, caseSensitive) <==> FirstStays(MemberContents(ms), caseSensitive)
  {
    var js := MemberContents(ms);
    assert Tagged(ms) == Tagged(js);
    SortFollows(ms, Tagged(ms), ms, caseSensitive);
    SortFollows(js, Tagged(js), js, caseSensitive);
    hide Sort, Tagged;
  }

  lemma SortedHeight(ms: seq<Member<Tree>>, caseSensitive: bool)
    ensures MembersHeight(MemberContents(Sort(ms, caseSensitive))) <= MembersHeight(MemberContents(ms))
  {
    ContentSorts(ms, caseSensitive);
    SortHeight(MemberContents(ms), caseSensitive);
    hide Sort, MemberContents, FirstStays;
  }

  /**
   What the first member points back at after `sort_object`: what it did before, or, if
   another one has come to the front, the node that was in front of that one.
   */
  function BackAfter<T>(ms: seq<Member<T>>, back: Back, caseSensitive: bool): (after: Back)
    ensures after.Nowhere? <==> back.Nowhere? && FirstStays(ms, caseSensitive)
  {
    var first := Leader(ms, caseSensitive);
    if first > 0 then Into(Landing(ms, first - 1, caseSensitive))
    else if back.Into? then Into(Landing(ms, back.at, caseSensitive))
    else back
  }

  // ---- What a first member points back at ----

  /** The marks of the nodes at the ends of the lists in a tree, which have no `next`. */
  function Ends(t: Tree): set<nat> {
    match t
    case Scalar(_, _) => {}
    case List(items, _) => (if items == [] then {} else {items[|items| - 1].mark}) + ItemEnds(items)
    case Record(ms, _, _) => (if ms == [] then {} else {ms[|ms| - 1].value.mark}) + MemberEnds(ms)
  }

  function ItemEnds(items: seq<Tree>): set<nat> {
    if items == [] then {} else Ends(items[0]) + ItemEnds(items[1..])
  }

  function MemberEnds(ms: seq<Member<Tree>>): set<nat> {
    if ms == [] then {} else Ends(ms[0].value) + MemberEnds(ms[1..])
  }

  /** Every mark of a tree, of a node or of one that is pointed at, is at most this. */
  function TopMark(t: Tree): nat {
    match t
    case Scalar(_, mark) => mark
    case List(items, mark) => Greater(mark, ItemsTop(items))
    case Record(ms, back, mark) => Greater(if back.Away? then Greater(mark, back.mark) else mark, MembersTop(ms))
  }

  function ItemsTop(items: seq<Tree>): nat {
    if items == [] then 0 else Greater(TopMark(items[0]), ItemsTop(items[1..]))
  }

  function MembersTop(ms: seq<Member<Tree>>): nat {
    if ms == [] then 0 else Greater(TopMark(ms[0].value), MembersTop(ms[1..]))
  }

  function Greater(a: nat, b: nat): nat {
    if a < b then b else a
  }

  /**
   Detaching the first member writes its `next` into the node that it points back at.  This
   does no harm only if that node lives in another list and both have no `next`.
   */
  predicate Tears(t: Tree, ends: set<nat>)
    requires t.Record?
  {
    !t.back.Nowhere? && !(t.back.Away? && t.back.mark != 0 && t.back.mark in ends && |t.members| == 1)
  }

  function Held(back: Back, members: seq<Member<Tree>>): Back {
    if members == [] then Nowhere else back
  }

  /** Once the member at a position is deleted. */
  function Past(back: Back, i: nat): Back {
    match back
    case Into(at) => if at == i then Gone else if at > i then Into(at - 1) else back
    case _ => back
  }

  function Dropped(t: Tree, i: nat): (r: Tree)
    requires t.Record? && i < |t.members|
    ensures r.Record? && r.members == t.members[..i] + t.members[i + 1..]
    ensures !r.back.Nowhere? <==> !t.back.Nowhere? && r.members != []
  {
    var rest := t.members[..i] + t.members[i + 1..];
    Record(rest, Held(Past(t.back, i), rest), t.mark)
  }

  function Appended(t: Tree, m: Member<Tree>): (r: Tree)
    requires t.Record?
    ensures r.Record? && r.members == t.members + [m]
    ensures !r.back.Nowhere? <==> !t.back.Nowhere? && t.members != []
  {
    Record(t.members + [m], Held(t.back, t.members), t.mark)
  }

  function Marked(t: Tree, mark: nat): (r: Tree)
    ensures Content(r) == Content(t) && (Clean(t) ==> Clean(r))
  {
    if t.mark != 0 then t else t.(mark := mark)
  }

  // ---- compare_json ----

  /** The verdict, and what in-place sorting has made of the two trees. */
  datatype TreesCompared = TreesCompared(equal: bool, a: Tree, b: Tree)
  datatype ListsCompared = ListsCompared(equal: bool, xs: seq<Tree>, ys: seq<Tree>)
  datatype RecordsCompared = RecordsCompared(equal: bool, ms: seq<Member<Tree>>, ns: seq<Member<Tree>>)

  function CompareTree(a: Tree, b: Tree, caseSensitive: bool): TreesCompared
    decreases Height(Content(a)), 0
  {
    if !SameType(Content(a), Content(b)) then TreesCompared(false, a, b)
    else
      match a
      case Scalar(x, _) => TreesCompared(CompareJson(x, b.atom, caseSensitive).equal, a, b)
      case List(items, mark) =>
        var r := CompareLists(items, b.items, caseSensitive);
        TreesCompared(r.equal, List(r.xs, mark), List(r.ys, b.mark))
      case Record(members, back, mark) =>
        SortedHeight(members, caseSensitive);
        var r := CompareRecords(Sort(members, caseSensitive), Sort(b.members, caseSensitive), caseSensitive);
        TreesCompared(r.equal, Record(r.ms, BackAfter(members, back, caseSensitive), mark),
                      Record(r.ns, BackAfter(b.members, b.back, caseSensitive), b.mark))
  }

  function CompareLists(xs: seq<Tree>, ys: seq<Tree>, caseSensitive: bool): ListsCompared
    decreases ItemsHeight(Contents(xs)), |xs|
  {
    if xs == [] || ys == [] then ListsCompared(xs == [] && ys == [], xs, ys)
    else
      var r := CompareTree(xs[0], ys[0], caseSensitive);
      if !r.equal then ListsCompared(false, [r.a] + xs[1..], [r.b] + ys[1..])
      else
        var rest := CompareLists(xs[1..], ys[1..], caseSensitive);
        ListsCompared(rest.equal, [r.a] + rest.xs, [r.b] + rest.ys)
  }

  function CompareRecords(ms: seq<Member<Tree>>, ns: seq<Member<Tree>>, caseSensitive: bool): RecordsCompared
    decreases MembersHeight(MemberContents(ms)), |ms|
  {
    if ms == [] || ns == [] then RecordsCompared(ms == [] && ns == [], ms, ns)
    else if CompareStrings(ms[0].key, ns[0].key, caseSensitive) != 0 then RecordsCompared(false, ms, ns)
    else
      var r := CompareTree(ms[0].value, ns[0].value, caseSensitive);
      var m, n := Member(ms[0].key, r.a), Member(ns[0].key, r.b);
      if !r.equal then RecordsCompared(false, [m] + ms[1..], [n] + ns[1..])
      else
        var rest := CompareRecords(ms[1..], ns[1..], caseSensitive);
        RecordsCompared(rest.equal, [m] + rest.ms, [n] + rest.ns)
  }

  lemma ContentsCons(x: Tree, xs: seq<Tree>)
    ensures Contents([x] + xs) == [Content(x)] + Contents(xs)
  {
  }

  lemma MemberContentsCons(m: Member<Tree>, ms: seq<Member<Tree>>)
    ensures MemberContents([m] + ms) == [Member(m.key, Content(m.value))] + MemberContents(ms)
  {
  }

  /** Verdict and contents are those of `CompareJson`. */
  lemma {:induction false} CompareContent(a: Tree, b: Tree, caseSensitive: bool)
    ensures var r, c := CompareTree(a, b, caseSensitive), CompareJson(Content(a), Content(b), caseSensitive);
            r.equal == c.equal && Content(r.a) == c.a && Content(r.b) == c.b
    decreases Height(Content(a)), 0
  {
    if SameType(Content(a), Content(b)) {
      match a
      case Scalar(x, _) =>
      case List(items, _) => CompareListsContent(items, b.items, caseSensitive);
      case Record(_, _, _) => CompareRecordContent(a, b, caseSensitive);
    }
  }

  lemma {:induction false} CompareRecordContent(a: Tree, b: Tree, caseSensitive: bool)
    requires a.Record? && b.Record?
    ensures var r, c := CompareTree(a, b, caseSensitive), CompareJson(Content(a), Content(b), caseSensitive);
            r.equal == c.equal && Content(r.a) == c.a && Content(r.b) == c.b
    decreases MembersHeight(MemberContents(a.members)), |a.members| + 1
  {
    var ms, ns := a.members, b.members;
    RecordsCompare(a, b, caseSensitive);
    ObjectsCompare(MemberContents(ms), MemberContents(ns), caseSensitive);
    RecordContent(a);
    RecordContent(b);
    hide *;
    ContentSorts(ms, caseSensitive);
    ContentSorts(ns, caseSensitive);
    SortHeight(MemberContents(ms), caseSensitive);
    CompareRecordsContent(Sort(ms, caseSensitive), Sort(ns, caseSensitive), caseSensitive);
    var r := CompareTree(a, b, caseSensitive);
    RecordContent(r.a);
    RecordContent(r.b);
  }

  lemma RecordContent(t: Tree)
    requires t.Record?
    ensures Content(t) == Object(MemberContents(t.members))
  {
  }

  lemma RecordHeight(t: Tree)
    requires t.Record?
    ensures MembersHeight(MemberContents(t.members)) < Height(Content(t))
  {
  }

  lemma ListHeight(t: Tree)
    requires t.List?
    ensures ItemsHeight(Contents(t.items)) < Height(Content(t))
  {
  }

  lemma KindOf(t: Tree)
    ensures (Content(t).Object? <==> t.Record?) && (Content(t).Array? <==> t.List?)
  {
  }

  /** Nothing happens to trees that are not both arrays or both objects. */
  lemma NotCompared(a: Tree, b: Tree, caseSensitive: bool)
    requires !(a.Record? && b.Record?) && !(a.List? && b.List?)
    ensures CompareTree(a, b, caseSensitive).a == a
  {
    KindOf(a);
    KindOf(b);
    hide Content, CompareLists, CompareRecords, CompareJson, Sort, BackAfter;
  }

  lemma ListsCompare(a: Tree, b: Tree, caseSensitive: bool)
    requires a.List? && b.List?
    ensures CompareTree(a, b, caseSensitive).a == List(CompareLists(a.items, b.items, caseSensitive).xs, a.mark)
  {
    hide CompareLists, Contents;
  }

  lemma RecordsCompare(a: Tree, b: Tree, caseSensitive: bool)
    requires a.Record? && b.Record?
    ensures var r, c := CompareTree(a, b, caseSensitive),
                        CompareRecords(Sort(a.members, caseSensitive), Sort(b.members, caseSensitive), caseSensitive);
            && r.equal == c.equal
            && r.a == Record(c.ms, BackAfter(a.members, a.back, caseSensitive), a.mark)
            && r.b == Record(c.ns, BackAfter(b.members, b.back, caseSensitive), b.mark)
  {
    hide Sort, BackAfter, CompareRecords, MemberContents;
  }

  lemma ObjectsCompare(ms: seq<Member<Json>>, ns: seq<Member<Json>>, caseSensitive: bool)
    ensures var r := CompareJson(Object(ms), Object(ns), caseSensitive);
            var c := CompareMembers(Sort(ms, caseSensitive), Sort(ns, caseSensitive), caseSensitive);
            r.equal == c.equal && r.a == Object(c.ms) && r.b == Object(c.ns)
  {
    hide Sort, CompareMembers;
  }

  lemma {:induction false} CompareListsContent(xs: seq<Tree>, ys: seq<Tree>, caseSensitive: bool)
    ensures var r, c := CompareLists(xs, ys, caseSensitive), CompareItems(Contents(xs), Contents(ys), caseSensitive);
            r.equal == c.equal && Contents(r.xs) == c.xs && Contents(r.ys) == c.ys
    decreases ItemsHeight(Contents(xs)), |xs|
  {
    if xs != [] && ys != [] {
      CompareContent(xs[0], ys[0], caseSensitive);
      CompareListsContent(xs[1..], ys[1..], caseSensitive);
      hide CompareTree, CompareJson;
      var r, rest := CompareTree(xs[0], ys[0], caseSensitive), CompareLists(xs[1..], ys[1..], caseSensitive);
      ContentsCons(r.a, xs[1..]);
      ContentsCons(r.b, ys[1..]);
      ContentsCons(r.a, rest.xs);
      ContentsCons(r.b, rest.ys);
    }
  }

  /** One step of the walk. */
  lemma RecordsStep(ms: seq<Member<Tree>>, ns: seq<Member<Tree>>, caseSensitive: bool)
    requires ms != [] && ns != []
    ensures var r, c := CompareTree(ms[0].value, ns[0].value, caseSensitive), CompareRecords(ms, ns, caseSensitive);
            var m, n := Member(ms[0].key, r.a), Member(ns[0].key, r.b);
            c == if CompareStrings(ms[0].key, ns[0].key, caseSensitive) != 0 then RecordsCompared(false, ms, ns)
                 else if !r.equal then RecordsCompared(false, [m] + ms[1..], [n] + ns[1..])
                 else
                   var rest := CompareRecords(ms[1..], ns[1..], caseSensitive);
                   RecordsCompared(rest.equal, [m] + rest.ms, [n] + rest.ns)
  {
    hide CompareTree, CompareStrings;
  }

  lemma MembersStep(ms: seq<Member<Json>>, ns: seq<Member<Json>>, caseSensitive: bool)
    requires ms != [] && ns != []
    ensures var r, c := CompareJson(ms[0].value, ns[0].value, caseSensitive), CompareMembers(ms, ns, caseSensitive);
            var m, n := Member(ms[0].key, r.a), Member(ns[0].key, r.b);
            c == if CompareStrings(ms[0].key, ns[0].key, caseSensitive) != 0 then ComparedMembers(false, ms, ns)
                 else if !r.equal then ComparedMembers(false, [m] + ms[1..], [n] + ns[1..])
                 else
                   var rest := CompareMembers(ms[1..], ns[1..], caseSensitive);
                   ComparedMembers(rest.equal, [m] + rest.ms, [n] + rest.ns)
  {
    hide CompareJson, CompareStrings;
  }

  lemma ContentTail(ms: seq<Member<Tree>>)
    requires ms != []
    ensures MemberContents(ms)[0] == Member(ms[0].key, Content(ms[0].value))
    ensures MemberContents(ms)[1..] == MemberContents(ms[1..])
  {
  }

  lemma {:induction false} CompareRecordsContent(ms: seq<Member<Tree>>, ns: seq<Member<Tree>>, caseSensitive: bool)
    ensures var r := CompareRecords(ms, ns, caseSensitive);
            var c := CompareMembers(MemberContents(ms), MemberContents(ns), caseSensitive);
            r.equal == c.equal && MemberContents(r.ms) == c.ms && MemberContents(r.ns) == c.ns
    decreases MembersHeight(MemberContents(ms)), |ms|
  {
    if ms != [] && ns != [] {
      CompareContent(ms[0].value, ns[0].value, caseSensitive);
      CompareRecordsContent(ms[1..], ns[1..], caseSensitive);
      hide CompareTree, CompareJson, CompareRecords, CompareMembers, CompareStrings, MemberContents, Content;
      ContentTail(ms);
      ContentTail(ns);
      RecordsStep(ms, ns, caseSensitive);
      MembersStep(MemberContents(ms), MemberContents(ns), caseSensitive);
      var r, rest := CompareTree(ms[0].value, ns[0].value, caseSensitive), CompareRecords(ms[1..], ns[1..], caseSensitive);
      var m, n := Member(ms[0].key, r.a), Member(ns[0].key, r.b);
      MemberContentsCons(m, ms[1..]);
      MemberContentsCons(n, ns[1..]);
      MemberContentsCons(m, rest.ms);
      MemberContentsCons(n, rest.ns);
    }
  }
}
