/**
 A node that a first member points back at, taken elsewhere by "move".  While it is the last
 one of its new list, the first member that is left alone can be detached without harm; once
 something comes behind it, that list is cut off.
 */
module MovedNodes {
  import opened Options
  import opened CString
  import opened Json
  import opened MemberSort
  import opened Pointer
  import opened Rfc6902
  import opened Compare
  import opened Links
  import opened Patch
  import opened Diff
  import opened LinkedPatch
  import opened LinkedRun
  import opened LinkedDiff
  import opened Strays

  /** Two objects in a third one. */
  function Pair(o: Tree, c: Tree): Tree {
    Record([Member("o", o), Member("c", c)], Nowhere, 0)
  }

  lemma PairKeys(o: Tree, c: Tree)
    ensures FindMember(Pair(o, c).members, "o", false) == 0 && FindMember(Pair(o, c).members, "c", false) == 1
  {
    var ms := Pair(o, c).members;
    assert Fold("o", false) != Fold("c", false) by { assert Fold("o", false)[0] == 'o' && Fold("c", false)[0] == 'c'; }
    CmpZero(Fold("o", false), Fold("o", false));
    CmpZero(Fold("c", false), Fold("c", false));
    CmpZero(Fold("c", false), Fold("o", false));
    assert ms[1..][0] == Member("c", c);
    hide Fold;
  }

  lemma PairPuts(o: Tree, c: Tree, x: Tree)
    ensures Exists(Content(Pair(o, c)), [0]) && TreeAt(Pair(o, c), [0]) == o && TreePut(Pair(o, c), [0], x) == Pair(x, c)
    ensures Exists(Content(Pair(o, c)), [1]) && TreeAt(Pair(o, c), [1]) == c && TreePut(Pair(o, c), [1], x) == Pair(o, x)
  {
    var ms := Pair(o, c).members;
    assert [0][1..] == [] && [1][1..] == [];
    assert TreeAt(o, []) == o && TreeAt(c, []) == c && TreePut(o, [], x) == x && TreePut(c, [], x) == x;
    assert ms[0 := Member("o", x)] == [Member("o", x), Member("c", c)];
    assert ms[1 := Member("c", x)] == [Member("o", o), Member("c", x)];
  }

  lemma PairPlaces(o: Tree, c: Tree)
    ensures Resolve(Content(Pair(o, c)), PathText(["o"]), false) == Some([0])
    ensures Resolve(Content(Pair(o, c)), PathText(["c"]), false) == Some([1])
    ensures Exists(Content(Pair(o, c)), [0]) && TreeAt(Pair(o, c), [0]) == o
    ensures Exists(Content(Pair(o, c)), [1]) && TreeAt(Pair(o, c), [1]) == c
  {
    var t := Pair(o, c);
    PairKeys(o, c);
    PairPuts(o, c, o);
    hide FindMember, TreeAt, TreePut, Resolve, Content;
    OneStep(t, "o");
    OneStep(t, "c");
  }

  lemma OneStep(t: Tree, key: string)
    requires t.Record? && Partner(t.members, key).Some?
    ensures Resolve(Content(t), PathText([key]), false) == Some([FindMember(t.members, key, false)])
  {
    var i := FindMember(t.members, key, false);
    MemberStep(t, key);
    hide FindMember, PathText, Encode;
    assert [key][1..] == [];
    ResolveText(Content(t), [key], false);
    TextEmpty([]);
    assert Resolve(ChildAt(Content(t), i), "", false) == Some([]);
    assert [i] + [] == [i];
  }

  lemma TwoTokens(a: string, b: string)
    requires Plain(a) && Plain(b)
    ensures Writable([a, b]) && DropLast([a, b]) == [a] && Last([a, b]) == b
  {
    PlainWritable([a, b]);
  }

  // ---- The requests ----

  /** "test" of the first object. */
  lemma TestsFirst(o: Tree, c: Tree, x: Json)
    requires Sound(DoTest(["o"], x), false)
    ensures var r := CompareTree(o, Fresh(x), false);
            ApplyTree(Pair(o, c), Compose(DoTest(["o"], x)), false, true) == Ran(if r.equal then 0 else 1, Pair(r.a, c))
  {
    PairPlaces(o, c);
    hide *;
    TreeDispatch(Pair(o, c), DoTest(["o"], x), true);
    PairPuts(o, c, CompareTree(o, Fresh(x), false).a);
    TestTreeIs(Pair(o, c), PathText(["o"]), x);
  }

  lemma TestTreeIs(t: Tree, path: string, x: Json)
    requires Resolve(Content(t), path, false).Some?
    ensures var at := Resolve(Content(t), path, false).value;
            var r := CompareTree(TreeAt(t, at), Fresh(x), false);
            TestTree(t, path, Some(x), false) == Ran(if r.equal then 0 else 1, TreePut(t, at, r.a))
  {
    hide CompareTree, Resolve, Content, TreeAt, TreePut, Fresh;
  }

  /** What is left of the first object, and the node that was taken out of it. */
  function MovedItem(o: Tree, c: Tree): Tree
    requires o.Record? && |o.members| == 2
  {
    Marked(o.members[1].value, TopMark(Pair(o, c)) + 1)
  }

  function LeftAlone(o: Tree, item: Tree): Tree
    requires o.Record? && |o.members| == 2
  {
    Record([o.members[0]], Away(item.mark), o.mark)
  }

  function Only(c: Tree, key: string, item: Tree): Tree {
    Record([Member(key, item)], Nowhere, c.mark)
  }

  ghost predicate Movable(o: Tree, c: Tree, key: string) {
    && o.Record? && |o.members| == 2 && o.back == Into(1) && key == o.members[1].key && Plain(key)
    && Lower(o.members[0].key) != Lower(key)
    && c.Record? && c.members == []
  }

  lemma MovableParts(o: Tree, c: Tree, key: string)
    requires Movable(o, c, key)
    ensures var item := MovedItem(o, c);
            && item.mark != 0
            && TakeChild(o, key, TopMark(Pair(o, c)) + 1, Ends(Pair(o, c))) == Taken(LeftAlone(o, item), item)
    ensures forall ends :: PlaceIn(c, key, MovedItem(o, c), false, ends) == Placed(Only(c, key, MovedItem(o, c)))
    ensures Sound(DoMove(["c", key], ["o", key]), false) && Plain(key)
  {
    TakesSecond(o, TopMark(Pair(o, c)) + 1, Ends(Pair(o, c)));
    SoundMove(key);
    var item := MovedItem(o, c);
    hide Marked, TopMark, Ends, TakeChild, Sound;
    forall ends ensures PlaceIn(c, key, item, false, ends) == Placed(Only(c, key, item)) {
      PlacesAlone(c, key, item, ends);
    }
  }

  lemma TakesOut(o: Tree, c: Tree, key: string, item: Tree)
    requires Movable(o, c, key) && o.Record? && |o.members| == 2 && item == MovedItem(o, c)
    ensures Take(Pair(o, c), PathText(["o", key]), false, true, true) == Taken(Pair(LeftAlone(o, item), c), item)
  {
    hide *;
    MovableParts(o, c, key);
    TwoTokens("o", key);
    PairPlaces(o, c);
    PairPuts(o, c, LeftAlone(o, item));
    TakenAt(Pair(o, c), ["o", key], [0], LeftAlone(o, item), item);
  }

  /** A "move" takes a member out of the object at a position. */
  lemma TakenAt(t: Tree, path: seq<string>, at: Position, rest: Tree, item: Tree)
    requires path != [] && Writable(path) && Resolve(Content(t), PathText(DropLast(path)), false) == Some(at)
    requires TakeChild(TreeAt(t, at), Last(path), TopMark(t) + 1, Ends(t)) == Taken(rest, item)
    ensures Take(t, PathText(path), false, true, true) == Taken(TreePut(t, at, rest), item)
  {
    hide *;
    TakeText(t, path, true, true);
  }

  lemma PutsIn(o: Tree, c: Tree, key: string, item: Tree)
    requires Movable(o, c, key) && o.Record? && |o.members| == 2 && item == MovedItem(o, c)
    ensures PlaceAt(Pair(LeftAlone(o, item), c), PathText(["c", key]), item, false, true) ==
            Ran(0, Pair(LeftAlone(o, item), Only(c, key, item)))
  {
    hide *;
    MovableParts(o, c, key);
    TwoTokens("c", key);
    var rest := LeftAlone(o, item);
    PairPlaces(rest, c);
    PairPuts(rest, c, Only(c, key, item));
    PlaceText(Pair(rest, c), ["c", key], item, true);
    FinishIs(Pair(rest, c), [1], Only(c, key, item));
  }

  /** "move" of the second member of the first object into the second one, which is empty. */
  lemma MovesSecond(o: Tree, c: Tree, key: string)
    requires Movable(o, c, key) && o.Record? && |o.members| == 2
    ensures var item := MovedItem(o, c);
            && item.mark != 0
            && ApplyTree(Pair(o, c), Compose(DoMove(["c", key], ["o", key])), false, true) ==
               Ran(0, Pair(LeftAlone(o, item), Only(c, key, item)))
  {
    hide *;
    MovableParts(o, c, key);
    TakesOut(o, c, key, MovedItem(o, c));
    PutsIn(o, c, key, MovedItem(o, c));
    TreeDispatch(Pair(o, c), DoMove(["c", key], ["o", key]), true);
    TransferIs(Pair(o, c), PathText(["c", key]), PathText(["o", key]));
  }

  lemma SoundMove(key: string)
    requires Plain(key)
    ensures Sound(DoMove(["c", key], ["o", key]), false)
  {
    TwoTokens("c", key);
    TwoTokens("o", key);
    hide Writable;
  }

  lemma PlacesAlone(c: Tree, key: string, item: Tree, ends: set<nat>)
    requires c.Record? && c.members == []
    ensures PlaceIn(c, key, item, false, ends) == Placed(Record([Member(key, item)], Nowhere, c.mark))
  {
    assert [] + [Member(key, item)] == [Member(key, item)];
  }

  lemma TakesSecond(o: Tree, mark: nat, ends: set<nat>)
    requires o.Record? && |o.members| == 2 && o.back == Into(1) && mark > 0
    requires Lower(o.members[0].key) != Lower(o.members[1].key)
    ensures var item := Marked(o.members[1].value, mark);
            && item.mark != 0
            && TakeChild(o, o.members[1].key, mark, ends) == Taken(Record([o.members[0]], Away(item.mark), o.mark), item)
  {
    var ms := o.members;
    assert FindMember(ms, ms[1].key, false) == 1 by {
      CmpZero(Lower(ms[1].key), Lower(ms[0].key));
      CmpZero(Lower(ms[1].key), Lower(ms[1].key));
      assert ms[1..][0] == ms[1];
    }
    hide FindMember, Lower;
    assert ms[..1] + ms[2..] == [ms[0]];
  }

  lemma TransferIs(t: Tree, path: string, from: string)
    ensures var d := Take(t, from, false, true, true);
            d.Taken? ==>
              Transfer(t, path, Some(String(from)), true, false, true) == PlaceAt(d.document, path, d.item, false, true)
  {
    hide Take, PlaceAt;
  }

  lemma FinishIs(t: Tree, at: Position, x: Tree)
    requires Exists(Content(t), at)
    ensures Finish(t, at, Placed(x)) == Ran(0, TreePut(t, at, x))
  {
  }

  /** "remove" of the only member of the first object. */
  lemma RemovesOnly(o: Tree, c: Tree)
    requires o.Record? && |o.members| == 1 && Plain(o.members[0].key) && !Tears(o, Ends(Pair(o, c)))
    ensures ApplyTree(Pair(o, c), Compose(DoRemove(["o", o.members[0].key])), false, true) ==
            Ran(0, Pair(Record([], Nowhere, o.mark), c))
  {
    var t, key := Pair(o, c), o.members[0].key;
    TakesOnly(o, Ends(t));
    hide *;
    SoundRemove(key);
    TwoTokens("o", key);
    PairPlaces(o, c);
    PairPuts(o, c, Record([], Nowhere, o.mark));
    TreeDispatch(t, DoRemove(["o", key]), true);
    TakeText(t, ["o", key], false, true);
    TakeAwayIs(t, PathText(["o", key]));
  }

  lemma SoundRemove(key: string)
    requires Plain(key)
    ensures Sound(DoRemove(["o", key]), false)
  {
    TwoTokens("o", key);
    hide Writable;
  }

  lemma PairEnds(o: Tree, c: Tree)
    ensures Ends(Pair(o, c)) == {c.mark} + Ends(o) + Ends(c)
  {
    var ms := Pair(o, c).members;
    assert ms[1..] == [Member("c", c)] && ms[1..][1..] == [];
    assert MemberEnds(ms) == Ends(o) + MemberEnds(ms[1..]);
    assert MemberEnds(ms[1..]) == Ends(c) + MemberEnds([]);
  }

  lemma TakesOnly(o: Tree, ends: set<nat>)
    requires o.Record? && |o.members| == 1 && !Tears(o, ends)
    ensures var d := TakeChild(o, o.members[0].key, 0, ends); d == Taken(Record([], Nowhere, o.mark), o.members[0].value)
  {
    FoundBy(o.members, 0);
    hide FindMember;
  }

  lemma TakeAwayIs(t: Tree, path: string)
    ensures var d := Take(t, path, false, false, true);
            TakeAway(t, path, None, false, false, true) ==
            if d.Missing? then Ran(13, t) else if d.Torn? then Broken else Ran(0, d.document)
  {
    hide Take;
  }

  /** "add" behind the node in the second object. */
  lemma AddsBehind(o: Tree, c: Tree, key: string, z: Json)
    requires c.Record? && Partner(c.members, key).None? && Plain(key) && Distinct(z, false)
    ensures ApplyTree(Pair(o, c), Compose(DoAdd(["c", key], z)), false, true) ==
            Ran(0, Pair(o, Appended(c, Member(key, Fresh(z)))))
  {
    var t := Pair(o, c);
    SoundAdd(key, z);
    PlacesNew(c, key, Fresh(z), EndsWith(t, Fresh(z), true));
    hide *;
    TwoTokens("c", key);
    PairPlaces(o, c);
    PairPuts(o, c, Appended(c, Member(key, Fresh(z))));
    TreeDispatch(t, DoAdd(["c", key], z), true);
    PlaceText(t, ["c", key], Fresh(z), true);
    FinishIs(t, [1], Appended(c, Member(key, Fresh(z))));
  }

  lemma SoundAdd(key: string, z: Json)
    requires Plain(key) && Distinct(z, false)
    ensures Sound(DoAdd(["c", key], z), false)
  {
    TwoTokens("c", key);
    hide Writable, Distinct;
  }

  lemma PlacesNew(c: Tree, key: string, x: Tree, ends: set<nat>)
    requires c.Record? && Partner(c.members, key).None?
    ensures PlaceIn(c, key, x, false, ends) == Placed(Appended(c, Member(key, x)))
  {
    hide FindMember, Appended;
  }

  /** "remove" of a first member that points at a node that is not the last one of any list. */
  lemma RemoveTears(o: Tree, c: Tree)
    requires o.Record? && |o.members| == 1 && Plain(o.members[0].key) && Tears(o, Ends(Pair(o, c)))
    ensures ApplyTree(Pair(o, c), Compose(DoRemove(["o", o.members[0].key])), false, true).Broken?
  {
    var t, key := Pair(o, c), o.members[0].key;
    assert TakeChild(o, key, 0, Ends(t)).Torn? by {
      FoundBy(o.members, 0);
      hide FindMember;
    }
    SoundRemove(key);
    TwoTokens("o", key);
    hide *;
    PairPlaces(o, c);
    TreeDispatch(t, DoRemove(["o", key]), true);
    TakeText(t, ["o", key], false, true);
    TakeAwayIs(t, PathText(["o", key]));
  }

  // ---- The runs ----

  function Document(m: Member<Json>, n: Member<Json>): Json {
    Object([Member("o", Object([m, n])), Member("c", Object([]))])
  }

  lemma FreshDocument(m: Member<Json>, n: Member<Json>)
    ensures Fresh(Document(m, n)) == Pair(Fresh(Object([m, n])), Record([], Nowhere, 0))
  {
    var ms := Document(m, n).members;
    assert ms[1..] == [Member("c", Object([]))] && ms[1..][1..] == [];
    assert FreshMembers([]) == [];
    assert FreshMembers(ms[1..]) == [Member("c", Fresh(Object([])))] + FreshMembers([]);
    assert FreshMembers(ms) == [Member("o", Fresh(Object([m, n])))] + FreshMembers(ms[1..]);
  }

  /** The first object after a "test" that succeeds: turned round, with the node in front pointing at the other one. */
  ghost predicate Turned(o: Tree, m: Member<Json>, n: Member<Json>) {
    && o.Record? && |o.members| == 2 && o.back == Into(1)
    && o.members[0].key == n.key && o.members[1].key == m.key
    && Below(o, 0)
  }

  lemma TestTurnsFirst(m: Member<Json>, n: Member<Json>, x: Json) returns (o: Tree)
    requires Before(n.key, m.key, false) && Tested(Object([m, n]), x)
    ensures Turned(o, m, n)
    ensures ApplyTree(Fresh(Document(m, n)), Compose(DoTest(["o"], x)), false, true) == Ran(0, Pair(o, Record([], Nowhere, 0)))
  {
    hide *;
    ComparesTurned(m, n, x);
    SoundTest(m, n, x);
    o := CompareTree(Fresh(Object([m, n])), Fresh(x), false).a;
    FreshBelow(Object([m, n]));
    CompareBelow(Fresh(Object([m, n])), Fresh(x), 0, false);
    FreshDocument(m, n);
    TestsFirst(Fresh(Object([m, n])), Record([], Nowhere, 0), x);
    SecondKey(m, n, x);
    TurnedIs(o, m, n);
  }

  lemma SecondKey(m: Member<Json>, n: Member<Json>, x: Json)
    requires Before(n.key, m.key, false) && Tested(Object([m, n]), x)
    ensures var c := CompareTree(Fresh(Object([m, n])), Fresh(x), false).a;
            c.Record? && |c.members| == 2 ==> c.members[1].key == m.key
  {
    var t, u := Fresh(Object([m, n])), Fresh(x);
    assert t.Record? && |t.members| == 2 && t.members[0].key == m.key && t.members[1].key == n.key;
    assert u.Record?;
    hide Tested, Fresh, CompareTree, Before, CompareRecords, Content;
    assert t.members == [t.members[0], t.members[1]];
    LinkedDiff.SortTwo(t.members[0], t.members[1]);
    RecordsCompare(t, u, false);
    hide Sort;
    CompareKeepsKeys(Sort(t.members, false), Sort(u.members, false));
  }

  lemma TurnedIs(o: Tree, m: Member<Json>, n: Member<Json>)
    requires o.Record? && |o.members| == 2 && o.back == Into(1)
    requires o.members[0].key == n.key && o.members[1].key == m.key && Below(o, 0)
    ensures Turned(o, m, n)
  {
  }

  lemma SoundTest(m: Member<Json>, n: Member<Json>, x: Json)
    requires Tested(Object([m, n]), x)
    ensures Sound(DoTest(["o"], x), false)
  {
    hide View, Distinct, RawFree, Consistent;
  }

  /** "test" and "move": the first member that is left points at a node of another list, with a new mark. */
  lemma TestThenMove(m: Member<Json>, n: Member<Json>, x: Json) returns (one: Member<Tree>, item: Tree)
    requires Before(n.key, m.key, false) && Plain(m.key) && Tested(Object([m, n]), x)
    ensures one.key == n.key && item.mark == 1 && 1 !in Ends(one.value) && 1 !in Ends(item) && one.value.mark == 0
    ensures var o := RunPatches(Fresh(Document(m, n)), Compositions([DoTest(["o"], x), DoMove(["c", m.key], ["o", m.key])]), false, true);
            o == Ran(0, Pair(Record([one], Away(1), 0), Record([Member(m.key, item)], Nowhere, 0)))
  {
    hide *;
    var o := TestTurnsFirst(m, n, x);
    TurnedMoves(o, m, n);
    one, item := o.members[0], MovedItem(o, Record([], Nowhere, 0));
    MovesSecond(o, Record([], Nowhere, 0), m.key);
    RunTwo(Fresh(Document(m, n)), DoTest(["o"], x), DoMove(["c", m.key], ["o", m.key]));
  }

  lemma TurnedMoves(o: Tree, m: Member<Json>, n: Member<Json>)
    requires Turned(o, m, n) && Before(n.key, m.key, false) && Plain(m.key)
    ensures var c := Record([], Nowhere, 0);
            && o.Record? && |o.members| == 2 && Movable(o, c, m.key)
            && o.members[0].key == n.key && o.members[0].value.mark == 0
            && MovedItem(o, c).mark == 1
            && LeftAlone(o, MovedItem(o, c)) == Record([o.members[0]], Away(1), 0)
            && Only(c, m.key, MovedItem(o, c)) == Record([Member(m.key, MovedItem(o, c))], Nowhere, 0)
            && 1 !in Ends(o.members[0].value) && 1 !in Ends(MovedItem(o, c))
  {
    var c := Record([], Nowhere, 0);
    BeforeDiffers(n.key, m.key);
    ChildrenBelow(o);
    EndsBelow(o.members[0].value, 0);
    EndsBelow(o.members[1].value, 0);
    PairTop(o, c);
    MarkedEnds(o.members[1].value, 1);
    hide Before, Lower, TopMark, Ends, Plain;
  }

  lemma ChildrenBelow(o: Tree)
    requires o.Record? && Below(o, 0)
    ensures o.mark == 0 && forall i | 0 <= i < |o.members| :: Below(o.members[i].value, 0) && o.members[i].value.mark == 0
  {
    assert BelowMembers(o.members, 0);
  }

  lemma MarkedEnds(t: Tree, mark: nat)
    ensures Ends(Marked(t, mark)) == Ends(t)
  {
  }

  lemma BeforeDiffers(a: string, b: string)
    requires Before(a, b, false)
    ensures Lower(a) != Lower(b)
  {
    CmpZero(Lower(a), Lower(b));
  }

  lemma PairTop(o: Tree, c: Tree)
    requires Below(o, 0) && c == Record([], Nowhere, 0)
    ensures TopMark(Pair(o, c)) == 0
  {
    TopBelow(o, 0);
    var ms := Pair(o, c).members;
    assert ms[1..] == [Member("c", c)] && ms[1..][1..] == [];
    assert MembersTop(ms) == Greater(TopMark(o), MembersTop(ms[1..]));
    assert MembersTop(ms[1..]) == Greater(TopMark(c), MembersTop([]));
  }

  lemma RunTwo(t: Tree, a: Request, b: Request)
    ensures RunPatches(t, Compositions([a, b]), false, true) ==
            var o := ApplyTree(t, Compose(a), false, true);
            if o.Broken? || o.status != 0 then o else ApplyTree(o.document, Compose(b), false, true)
  {
    hide *;
    assert [a] + [b] == [a, b] && [b] + [] == [b];
    RunMore(t, a, [b]);
    var o := ApplyTree(t, Compose(a), false, true);
    if o.Ran? {
      RunMore(o.document, b, []);
      NoRun(ApplyTree(o.document, Compose(b), false, true));
    }
  }

  lemma RunMore(t: Tree, r: Request, rs: seq<Request>)
    ensures RunPatches(t, Compositions([r] + rs), false, true) ==
            var o := ApplyTree(t, Compose(r), false, true);
            if o.Broken? || o.status != 0 then o else RunPatches(o.document, Compositions(rs), false, true)
  {
    hide ApplyTree, Compose;
    assert ([r] + rs)[1..] == rs;
  }

  lemma NoRun(o: Outcome)
    ensures o.Ran? ==> RunPatches(o.document, Compositions([]), false, true) == Ran(0, o.document)
  {
  }

  /** One request behind a run that has gone well. */
  lemma {:induction false} RunThen(t: Tree, rs: seq<Request>, r: Request)
    ensures var o := RunPatches(t, Compositions(rs), false, true);
            o.Ran? && o.status == 0 ==>
              RunPatches(t, Compositions(rs + [r]), false, true) == ApplyTree(o.document, Compose(r), false, true)
    decreases |rs|
  {
    hide *;
    if rs == [] {
      assert [] + [r] == [r] && [r] + [] == [r];
      NoRun(Ran(0, t));
      RunMore(t, r, []);
      NoRun(ApplyTree(t, Compose(r), false, true));
    } else {
      assert rs == [rs[0]] + rs[1..] && rs + [r] == [rs[0]] + (rs[1..] + [r]);
      RunMore(t, rs[0], rs[1..]);
      RunMore(t, rs[0], rs[1..] + [r]);
      var o := ApplyTree(t, Compose(rs[0]), false, true);
      if o.Ran? && o.status == 0 { RunThen(o.document, rs[1..], r); }
    }
  }

  lemma {:induction false} AllThen(document: Json, rs: seq<Request>, r: Request)
    ensures var a := ApplyAll(document, Compositions(rs), false);
            a.status == 0 ==> ApplyAll(document, Compositions(rs + [r]), false) == ApplyPatch(a.document, Compose(r), false)
    decreases |rs|
  {
    hide ApplyPatch, Compose;
    if rs == [] {
      assert [] + [r] == [r] && [r][1..] == [];
      assert Compositions([r]) == [Compose(r)] && [Compose(r)][1..] == [];
    } else {
      assert (rs + [r])[1..] == rs[1..] + [r];
      AllThen(ApplyPatch(document, Compose(rs[0]), false).document, rs[1..], r);
    }
  }

  /** "test", and "move" of the node that is pointed at then. */
  function TestAndMove(m: Member<Json>, x: Json): seq<Request> {
    [DoTest(["o"], x), DoMove(["c", m.key], ["o", m.key])]
  }

  /**
   For any two members in the wrong order: after a "test" of the object that succeeds and a
   "move" of the greater one, the lesser one still points at it, but can be removed.
   */
  lemma MovedNodeSpares(m: Member<Json>, n: Member<Json>, x: Json) returns (o: Tree, c: Tree)
    requires Before(n.key, m.key, false) && Plain(m.key) && Plain(n.key) && Tested(Object([m, n]), x)
    ensures o.Record? && o.back.Away?
    ensures var t, run := Fresh(Document(m, n)), TestAndMove(m, x);
            && RunPatches(t, Compositions(run), false, true) == Ran(0, Pair(o, c))
            && RunPatches(t, Compositions(run + [DoRemove(["o", n.key])]), false, true) == Ran(0, Pair(Record([], Nowhere, 0), c))
  {
    hide *;
    var one, item := TestThenMove(m, n, x);
    o, c := Record([one], Away(1), 0), Record([Member(m.key, item)], Nowhere, 0);
    LastEnds(o, c, Member(m.key, item));
    RemovesOnly(o, c);
    RunIs(m, x);
    RunThen(Fresh(Document(m, n)), TestAndMove(m, x), DoRemove(["o", n.key]));
  }

  lemma RunIs(m: Member<Json>, x: Json)
    ensures TestAndMove(m, x) == [DoTest(["o"], x), DoMove(["c", m.key], ["o", m.key])]
  {
  }

  /** The node lies at the end of its list. */
  lemma LastEnds(o: Tree, c: Tree, last: Member<Tree>)
    requires o.Record? && |o.members| == 1 && o.back == Away(last.value.mark) && last.value.mark != 0
    requires c.Record? && c.members == [last]
    ensures !Tears(o, Ends(Pair(o, c)))
  {
    PairEnds(o, c);
    assert last.value.mark in Ends(c);
  }

  /**
   If another member is added behind the node that was moved, the same "remove" cuts that
   member off, although it should succeed.
   */
  lemma MovedNodeCutsOff(m: Member<Json>, n: Member<Json>, x: Json, key: string, z: Json)
    requires Before(n.key, m.key, false) && Plain(m.key) && Plain(n.key) && Tested(Object([m, n]), x)
    requires Plain(key) && Lower(key) != Lower(m.key) && Distinct(z, false)
    ensures var document, run := Document(m, n), (TestAndMove(m, x) + [DoAdd(["c", key], z)]) + [DoRemove(["o", n.key])];
            && RunPatches(Fresh(document), Compositions(run), false, true).Broken?
            && ApplyAll(document, Compositions(run), false).status == 0
  {
    hide *;
    var one, item := TestThenMove(m, n, x);
    var first, second := Member(m.key, item), Member(key, Fresh(z));
    var o, c := Record([one], Away(1), 0), Record([first], Nowhere, 0);
    var d := Appended(c, second);
    NotThere(first, key);
    AddsBehind(o, c, key, z);
    AppendedIs(c, second);
    FreshBelow(z);
    NotAtEnd(o, d, first, second);
    RemoveTears(o, d);
    RunIs(m, x);
    var t, run := Fresh(Document(m, n)), TestAndMove(m, x) + [DoAdd(["c", key], z)];
    RunThen(t, TestAndMove(m, x), DoAdd(["c", key], z));
    RunThen(t, run, DoRemove(["o", n.key]));
    WithoutPointer(o, d);
    RunContent(t, Compositions(run), false, true);
    AllThen(Document(m, n), run, DoRemove(["o", n.key]));
  }

  lemma NotThere(m: Member<Tree>, key: string)
    requires Lower(key) != Lower(m.key)
    ensures Partner([m], key).None?
  {
    assert [m][1..] == [];
    CmpZero(Lower(key), Lower(m.key));
  }

  lemma AppendedIs(c: Tree, m: Member<Tree>)
    requires c.Record? && c.back.Nowhere?
    ensures Appended(c, m) == Record(c.members + [m], Nowhere, c.mark)
  {
  }

  /** The node does not lie at the end of its list. */
  lemma NotAtEnd(o: Tree, d: Tree, first: Member<Tree>, second: Member<Tree>)
    requires o.Record? && |o.members| == 1 && o.back == Away(1) && o.members[0].value.mark == 0
    requires 1 !in Ends(o.members[0].value) && 1 !in Ends(first.value) && Below(second.value, 0)
    requires d == Record([first] + [second], Nowhere, 0)
    ensures Tears(o, Ends(Pair(o, d)))
  {
    PairEnds(o, d);
    EndsBelow(second.value, 0);
    assert o.members[1..] == [];
    assert MemberEnds(o.members) == Ends(o.members[0].value) + MemberEnds([]);
    var ms := [first] + [second];
    assert ms[1..] == [second] && ms[1..][1..] == [];
    assert MemberEnds(ms) == Ends(first.value) + MemberEnds(ms[1..]);
    assert MemberEnds(ms[1..]) == Ends(second.value) + MemberEnds([]);
    hide Ends, MemberEnds;
  }

  /** The same "remove" where nothing points back. */
  lemma WithoutPointer(o: Tree, d: Tree)
    requires o.Record? && |o.members| == 1 && Plain(o.members[0].key)
    ensures ApplyPatch(Content(Pair(o, d)), Compose(DoRemove(["o", o.members[0].key])), false).status == 0
  {
    var u := Record(o.members, Nowhere, o.mark);
    SameContent(o, u, d);
    NoPointer(u, Ends(Pair(u, d)));
    hide *;
    RemovesOnly(u, d);
    ApplyContent(Pair(u, d), Compose(DoRemove(["o", o.members[0].key])), false, true);
  }

  lemma NoPointer(u: Tree, ends: set<nat>)
    requires u.Record? && u.back.Nowhere?
    ensures !Tears(u, ends)
  {
  }

  lemma SameContent(o: Tree, u: Tree, d: Tree)
    requires o.Record? && u.Record? && o.members == u.members
    ensures Content(Pair(o, d)) == Content(Pair(u, d))
  {
    assert Content(o) == Content(u);
    var a, b := MemberContents(Pair(o, d).members), MemberContents(Pair(u, d).members);
    assert |a| == 2 && |b| == 2 && a[0] == b[0] && a[1] == b[1];
  }
}
