/**
 Generated patches on trees that know what first members point back at: when applying them to a
 document that means the same as their operand breaks a list.
 */
module LinkedDiff {
  import opened Options
  import opened CString
  import opened Decimal
  import opened Json
  import opened MemberSort
  import opened Pointer
  import opened Rfc6902
  import opened Compare
  import opened Links
  import opened Patch
  import opened Diff
  import opened LinkedPatch
  import opened LinkedRun
  import opened Strays

  // ---- When generated patches detach a member that points back ----

  /** The generator removes the member, or replaces its value as a whole. */
  predicate Lost(m: Member<Tree>, ns: seq<Member<Json>>) {
    var y := Partner(ns, m.key);
    y.None? || Whole(Content(m.value), y.value)
  }

  /**
   Somewhere in the tree an object's first member points back and is lost on the way to
   `to`, where the generator looks into both.
   */
  predicate Clashes(t: Tree, to: Json) {
    match t
    case Scalar(_, _) => false
    case List(items, _) => to.Array? && exists i | 0 <= i < |items| && i < |to.items| :: Clashes(items[i], to.items[i])
    case Record(members, back, _) =>
      to.Object? &&
      ((!back.Nowhere? && members != [] && Lost(members[0], to.members)) ||
       exists i | 0 <= i < |members| ::
         var y := Partner(to.members, members[i].key); y.Some? && Clashes(members[i].value, y.value))
  }

  /** The clash of the values under one key. */
  predicate ClashAt(t: Tree, key: string, ns: seq<Member<Json>>)
    requires t.Record?
  {
    var c, y := Partner(t.members, key), Partner(ns, key);
    c.Some? && y.Some? && Clashes(c.value, y.value)
  }

  /** The clash that the rest of the walk can still run into. */
  ghost predicate WalkClash(t: Tree, ms: seq<Member<Json>>, ns: seq<Member<Json>>)
    requires t.Record?
  {
    FirstClash(t, ms, ns) || exists i :: 0 <= i < |ms| && ClashAt(t, ms[i].key, ns)
  }

  predicate FirstClash(t: Tree, ms: seq<Member<Json>>, ns: seq<Member<Json>>)
    requires t.Record?
  {
    !t.back.Nowhere? && t.members != [] && Partner(ms, t.members[0].key).Some? && Lost(t.members[0], ns)
  }

  /** The document in the middle of the walk: old members still there, new ones not yet. */
  ghost predicate Midway(t: Tree, ms: seq<Member<Json>>, ns: seq<Member<Json>>) {
    && t.Record? && DistinctKeys(t.members, false) && Walkable(ms) && Walkable(ns)
    && (forall i | 0 <= i < |ms| :: OldThere(t, ms[i]))
    && (forall i | 0 <= i < |ns| :: NewNotYet(t, ms, ns[i].key))
  }

  ghost predicate OldThere(t: Tree, m: Member<Json>)
    requires t.Record?
  {
    var c := Partner(t.members, m.key);
    c.Some? && Means(Content(c.value), View(m.value, false))
  }

  ghost predicate NewNotYet(t: Tree, ms: seq<Member<Json>>, key: string)
    requires t.Record?
  {
    Partner(t.members, key).Some? ==> Partner(ms, key).Some?
  }

  /** What the generator takes as a whole does not clash inside. */
  lemma WholeNoClash(t: Tree, to: Json)
    requires Whole(Content(t), to)
    ensures !Clashes(t, to)
  {
  }

  /** Whether a value is taken as a whole depends on what it means only. */
  lemma WholeByView(a: Json, b: Json, to: Json)
    requires View(a, false) == View(b, false)
    ensures Whole(a, to) <==> Whole(b, to)
  {
  }

  // ---- One step of the walk ----

  function Drop(ms: seq<Member<Json>>, first: bool): seq<Member<Json>> {
    if first && ms != [] then ms[1..] else ms
  }

  /** A list whose first member, if it is dropped, has the key, and that has no other one. */
  ghost predicate Deals(ms: seq<Member<Json>>, key: string, first: bool) {
    Walkable(ms) && if first then ms != [] && Lower(ms[0].key) == Lower(key) else Partner(ms, key).None?
  }

  lemma DealsRest(ms: seq<Member<Json>>, key: string, first: bool, k: string)
    requires Deals(ms, key, first)
    ensures Lower(k) != Lower(key) ==> Partner(Drop(ms, first), k) == Partner(ms, k)
    ensures Lower(k) == Lower(key) ==> Partner(Drop(ms, first), k).None?
  {
    hide View, RawFreeValues, DistinctValues, AddressableMembers;
    if first { PartnerTail(ms, k); }
    if Lower(k) == Lower(key) { PartnerFold(ms, k, key); }
  }

  lemma DealsOthers(ms: seq<Member<Json>>, key: string, first: bool, i: nat)
    requires Deals(ms, key, first) && i < |Drop(ms, first)|
    ensures Lower(Drop(ms, first)[i].key) != Lower(key)
  {
    var k := Drop(ms, first)[i].key;
    DealsRest(ms, key, first, k);
    assert FindMember(Drop(ms, first), k, false) <= i by { FoundBy(Drop(ms, first), i); }
  }

  /** The document with one key dealt with: nothing changes under the other keys, nor who points back there. */
  ghost predicate Dealt(u: Tree, t: Tree, key: string)
    requires t.Record?
  {
    && u.Record? && DistinctKeys(u.members, false)
    && (forall k | Lower(k) != Lower(key) :: Partner(u.members, k) == Partner(t.members, k))
    && SameFirst(u, t, key)
  }

  predicate SameFirst(u: Tree, t: Tree, key: string)
    requires u.Record? && t.Record?
  {
    var before := !t.back.Nowhere? && t.members != [] && Lower(t.members[0].key) != Lower(key);
    var after := !u.back.Nowhere? && u.members != [] && Lower(u.members[0].key) != Lower(key);
    before == after && (before ==> u.members[0] == t.members[0])
  }

  lemma FirstStep(u: Tree, t: Tree, key: string, ms: seq<Member<Json>>, ns: seq<Member<Json>>, left: bool, right: bool)
    requires t.Record? && Dealt(u, t, key) && Deals(ms, key, left) && Deals(ns, key, right)
    ensures FirstClash(u, Drop(ms, left), Drop(ns, right)) <==> FirstClash(t, ms, ns) && Lower(t.members[0].key) != Lower(key)
  {
    hide Whole, DistinctKeys, Deals, Partner, Lower;
    if u.members != [] {
      var k := u.members[0].key;
      DealsRest(ms, key, left, k);
      DealsRest(ns, key, right, k);
    }
  }

  /** The rest of the walk clashes as the whole walk does, apart from the key that was dealt with. */
  lemma ClashStep(u: Tree, t: Tree, key: string, ms: seq<Member<Json>>, ns: seq<Member<Json>>, left: bool, right: bool)
    requires t.Record? && Dealt(u, t, key) && Deals(ms, key, left) && Deals(ns, key, right)
    requires !left ==> Partner(t.members, key).None?
    ensures WalkClash(t, ms, ns) <==>
            || WalkClash(u, Drop(ms, left), Drop(ns, right))
            || ClashAt(t, key, ns)
            || (FirstClash(t, ms, ns) && Lower(t.members[0].key) == Lower(key))
  {
    var ms', ns' := Drop(ms, left), Drop(ns, right);
    FirstStep(u, t, key, ms, ns, left, right);
    hide FirstClash, Clashes, Partner, Lower;
    forall i | 0 <= i < |ms'| ensures ClashAt(u, ms'[i].key, ns') <==> ClashAt(t, ms'[i].key, ns) {
      DealsOthers(ms, key, left, i);
      DealsRest(ns, key, right, ms'[i].key);
    }
    forall i | 0 <= i < |ms| ensures if left && i == 0 then ClashAt(t, ms[i].key, ns) <==> ClashAt(t, key, ns) else ms[i] == ms'[if left then i - 1 else i] {
      if left && i == 0 {
        PartnerFold(t.members, ms[0].key, key);
        PartnerFold(ns, ms[0].key, key);
      }
    }
    forall i | 0 <= i < |ms'| ensures ms'[i] == ms[if left then i + 1 else i] { }
    hide ClashAt;
    if ClashAt(t, key, ns) { assert left && ClashAt(t, ms[0].key, ns); }
  }

  lemma MidwayStep(u: Tree, t: Tree, key: string, ms: seq<Member<Json>>, ns: seq<Member<Json>>, left: bool, right: bool)
    requires Midway(t, ms, ns) && Dealt(u, t, key) && Deals(ms, key, left) && Deals(ns, key, right)
    requires !right ==> Partner(u.members, key).None?
    ensures Midway(u, Drop(ms, left), Drop(ns, right))
  {
    var ms', ns' := Drop(ms, left), Drop(ns, right);
    if left { WalkableTail(ms); }
    if right { WalkableTail(ns); }
    hide Partner, Lower, View, Walkable, DistinctKeys;
    forall i | 0 <= i < |ms'| ensures OldThere(u, ms'[i]) {
      DealsOthers(ms, key, left, i);
      assert ms'[i] == ms[if left then i + 1 else i];
      assert OldThere(t, ms[if left then i + 1 else i]);
    }
    forall i | 0 <= i < |ns'| ensures NewNotYet(u, ms', ns'[i].key) {
      DealsOthers(ns, key, right, i);
      DealsRest(ms, key, left, ns'[i].key);
      assert ns'[i] == ns[if right then i + 1 else i];
      assert NewNotYet(t, ms, ns[if right then i + 1 else i].key);
    }
  }

  // ---- The edits of the walk ----

  lemma RemovedDealt(t: Tree, key: string, i: nat)
    requires t.Record? && DistinctKeys(t.members, false)
    requires i == FindMember(t.members, key, false) && i < |t.members| && (i > 0 || t.back.Nowhere?)
    ensures var u := Dropped(t, i); Dealt(u, t, key) && Partner(u.members, key).None?
  {
    assert Fold(t.members[i].key, false) == Fold(key, false);
    DistinctRemove(t.members, i, false);
    DroppedFirst(t, key, i);
    hide FindMember, DistinctKeys, Partner, SameFirst, Dropped;
    forall k ensures Partner(t.members[..i] + t.members[i + 1..], k) ==
                     if Lower(k) == Lower(t.members[i].key) then None else Partner(t.members, k)
    {
      PartnerWithout(t.members, i, k);
    }
  }

  lemma DroppedFirst(t: Tree, key: string, i: nat)
    requires t.Record? && i < |t.members| && (i > 0 || t.back.Nowhere?)
    requires DistinctKeys(t.members, false) && Lower(t.members[i].key) == Lower(key)
    ensures SameFirst(Dropped(t, i), t, key)
  {
    assert i > 0 ==> Fold(t.members[0].key, false) != Fold(t.members[i].key, false);
    hide Past, Lower, DistinctKeys;
  }

  lemma PlacedDealt(t: Tree, key: string, x: Tree)
    requires t.Record? && DistinctKeys(t.members, false) && Partner(t.members, key).None?
    ensures Dealt(Appended(t, Member(key, x)), t, key)
  {
    var m := Member(key, x);
    DistinctMore(t.members, m);
    hide DistinctKeys;
    assert t.members != [] ==> Lower(t.members[0].key) != Lower(key) by {
      if t.members != [] { assert Fold(t.members[0].key, false) != Fold(key, false); }
    }
    hide Partner;
    forall k | Lower(k) != Lower(key) ensures Partner(t.members + [m], k) == Partner(t.members, k) {
      PartnerAppend(t.members, m, k);
    }
  }

  lemma SetDealt(t: Tree, key: string, i: nat, x: Tree)
    requires t.Record? && DistinctKeys(t.members, false) && i == FindMember(t.members, key, false) && i < |t.members|
    ensures Dealt(TreeWith(t, i, x), t, key)
  {
    assert Fold(t.members[i].key, false) == Fold(key, false);
    PartnerSet(t.members, i, x, key);
    hide FindMember, DistinctKeys, Partner;
    forall k | Lower(k) != Lower(key) ensures Partner(t.members[i := Member(t.members[i].key, x)], k) == Partner(t.members, k) {
      PartnerSet(t.members, i, x, k);
    }
  }

  lemma DealtTwice(u: Tree, r: Tree, t: Tree, key: string)
    requires t.Record? && Dealt(r, t, key) && Dealt(u, r, key)
    ensures Dealt(u, t, key)
  {
    hide DistinctKeys, Partner, Lower;
  }

  lemma RunFirst(t: Tree, r: Request, rs: seq<Request>)
    ensures RunPatches(t, Compositions([r] + rs), false) ==
            var o := ApplyTree(t, Compose(r), false);
            if o.Ran? && o.status == 0 then RunPatches(o.document, Compositions(rs), false) else o
  {
    hide ApplyTree, Compose;
    assert ([r] + rs)[1..] == rs;
  }

  lemma OneSound(key: string)
    requires Plain(key)
    ensures Writable([key]) && DecodesBack(key)
  {
    PlainWritable([key]);
    assert Last([key]) == key;
  }

  /** "remove" of a member. */
  lemma RemoveRuns(t: Tree, key: string)
    requires Plain(key)
    ensures ApplyTree(t, Compose(DoRemove([key])), false) ==
            var d := TakeChild(t, key);
            if d.Torn? then Broken else if d.Missing? then Ran(13, t) else Ran(0, d.document)
  {
    OneSound(key);
    hide ApplyTree, Compose, PathText, Take, TakeChild, Writable, DecodesBack;
    TreeDispatch(t, DoRemove([key]));
    OneToken(t, key, t);
  }

  /** "add" of a member. */
  lemma AddRuns(t: Tree, key: string, x: Json)
    requires Plain(key) && Distinct(x, false)
    ensures ApplyTree(t, Compose(DoAdd([key], x)), false) == Finish(t, [], PlaceIn(t, key, Fresh(x), false))
  {
    OneSound(key);
    hide ApplyTree, Compose, PathText, PlaceAt, PlaceIn, Writable, DecodesBack, Finish, Distinct, Fresh, View;
    TreeDispatch(t, DoAdd([key], x));
    OneToken(t, key, Fresh(x));
  }

  /** "replace" of a member. */
  lemma ReplaceRuns(t: Tree, key: string, x: Json)
    requires Plain(key) && Distinct(x, false)
    ensures ApplyTree(t, Compose(DoReplace([key], x)), false) ==
            var d := TakeChild(t, key);
            if d.Torn? then Broken else if d.Missing? then Ran(13, t)
            else Finish(d.document, [], PlaceIn(d.document, key, Fresh(x), false))
  {
    OneSound(key);
    hide ApplyTree, Compose, PathText, Take, TakeChild, PlaceAt, PlaceIn, Writable, DecodesBack, Finish, Distinct, Fresh, View;
    TreeDispatch(t, DoReplace([key], x));
    OneToken(t, key, t);
    var d := TakeChild(t, key);
    if d.Taken? { OneToken(d.document, key, Fresh(x)); }
  }

  lemma FinishAtRoot(t: Tree, p: Placing)
    requires p.Placed?
    ensures Finish(t, [], p) == Ran(0, p.parent)
  {
  }

  // ---- The walk ----

  lemma {:induction false} MembersClash(t: Tree, ms: seq<Member<Json>>, ns: seq<Member<Json>>)
    requires Midway(t, ms, ns)
    ensures RunPatches(t, Compositions(MemberRequests([], ms, ns)), false).Broken? <==> WalkClash(t, ms, ns)
    decreases MembersHeight(ms), |ms| + |ns|, 1
  {
    if ms == [] && ns == [] {
      assert MemberRequests([], ms, ns) == [];
      assert Compositions([]) == [];
    } else {
      hide Midway, WalkClash, RunPatches, Compositions, MemberRequests;
      if ms != [] && ns != [] && CompareStrings(ms[0].key, ns[0].key, false) == 0 {
        BothClash(t, ms, ns);
      } else if ms != [] && (ns == [] || CompareStrings(ms[0].key, ns[0].key, false) < 0) {
        OldClash(t, ms, ns);
      } else {
        NewClash(t, ms, ns);
      }
    }
  }

  /** A member is taken out, unless it is a first one that points back. */
  lemma TakesMember(t: Tree, key: string)
    requires t.Record? && DistinctKeys(t.members, false) && Partner(t.members, key).Some?
    ensures var d := TakeChild(t, key);
            && !d.Missing?
            && (d.Torn? <==> !t.back.Nowhere? && t.members != [] && Lower(t.members[0].key) == Lower(key))
            && (d.Taken? ==> Dealt(d.document, t, key) && Partner(d.document.members, key).None?)
  {
    var i := FindMember(t.members, key, false);
    assert Fold(t.members[i].key, false) == Fold(key, false);
    if Lower(t.members[0].key) == Lower(key) { FindUnique(t.members, 0, key); }
    if i > 0 || t.back.Nowhere? { RemovedDealt(t, key, i); }
    hide Dealt, DistinctKeys, FindMember;
  }

  lemma {:induction false} OldClash(t: Tree, ms: seq<Member<Json>>, ns: seq<Member<Json>>)
    requires Midway(t, ms, ns) && ms != []
    requires ns == [] || CompareStrings(ms[0].key, ns[0].key, false) < 0
    ensures RunPatches(t, Compositions(MemberRequests([], ms, ns)), false).Broken? <==> WalkClash(t, ms, ns)
    decreases MembersHeight(ms), |ms| + |ns|, 0
  {
    var key, rest := ms[0].key, MemberRequests([], ms[1..], ns);
    assert MemberRequests([], ms, ns) == [DoRemove([key])] + rest by { assert [] + [key] == [key]; }
    WalkableTail(ms);
    PartnerBefore(ns, key);
    assert OldThere(t, ms[0]);
    hide View, MemberRequests, Compositions, Walkable, StrictOrder, Clashes, CompareStrings, Whole, Addressable, Distinct, RawFree;
    RunFirst(t, DoRemove([key]), rest);
    RemoveRuns(t, key);
    TakesMember(t, key);
    hide TakeChild, RunPatches, ApplyTree, DistinctKeys;
    var d := TakeChild(t, key);
    if d.Torn? {
      FirstIsLost(t, key, ms, ns);
    } else {
      hide Partner;
      ClashStep(d.document, t, key, ms, ns, true, false);
      MidwayStep(d.document, t, key, ms, ns, true, false);
      hide Midway, WalkClash, FirstClash;
      MembersClash(d.document, ms[1..], ns);
    }
  }

  /** The first member points back and is not, or not as it is, in what the walk leads to. */
  lemma FirstIsLost(t: Tree, key: string, ms: seq<Member<Json>>, ns: seq<Member<Json>>)
    requires t.Record? && !t.back.Nowhere? && t.members != [] && Lower(t.members[0].key) == Lower(key)
    requires Partner(t.members, key).Some? && Partner(ms, key).Some?
    requires var y := Partner(ns, key); y.None? || Whole(Content(Partner(t.members, key).value), y.value)
    ensures FirstClash(t, ms, ns) && Lower(t.members[0].key) == Lower(key)
  {
    var first := t.members[0].key;
    PartnerFold(t.members, first, key);
    PartnerFold(ms, first, key);
    PartnerFold(ns, first, key);
    FoundBy(t.members, 0);
    hide Whole, Lower;
  }

  lemma {:induction false} NewClash(t: Tree, ms: seq<Member<Json>>, ns: seq<Member<Json>>)
    requires Midway(t, ms, ns) && ns != []
    requires ms == [] || CompareStrings(ms[0].key, ns[0].key, false) > 0
    ensures RunPatches(t, Compositions(MemberRequests([], ms, ns)), false).Broken? <==> WalkClash(t, ms, ns)
    decreases MembersHeight(ms), |ms| + |ns|, 0
  {
    var key, x, rest := ns[0].key, ns[0].value, MemberRequests([], ms, ns[1..]);
    assert MemberRequests([], ms, ns) == [DoAdd([key], x)] + rest by { assert [] + [key] == [key]; }
    WalkableTail(ns);
    if ms != [] { CmpOpposite(Lower(key), Lower(ms[0].key)); }
    PartnerBefore(ms, key);
    assert NewNotYet(t, ms, ns[0].key);
    FoundBy(ns, 0);
    hide View, MemberRequests, Compositions, Walkable, StrictOrder, Clashes, CompareStrings, Whole, Addressable, Distinct, RawFree;
    RunFirst(t, DoAdd([key], x), rest);
    AddRuns(t, key, x);
    var p := PlaceIn(t, key, Fresh(x), false);
    var u := Appended(t, Member(key, Fresh(x)));
    assert p == Placed(u);
    FinishAtRoot(t, p);
    PlacedDealt(t, key, Fresh(x));
    NotFirst(t, key);
    hide PlaceIn, RunPatches, ApplyTree, DistinctKeys, Finish, Fresh, Partner;
    ClashStep(u, t, key, ms, ns, false, true);
    MidwayStep(u, t, key, ms, ns, false, true);
    hide Midway, WalkClash, FirstClash;
    MembersClash(u, ms, ns[1..]);
  }

  lemma NotFirst(t: Tree, key: string)
    requires t.Record? && Partner(t.members, key).None?
    ensures t.members != [] ==> Lower(t.members[0].key) != Lower(key)
  {
    if t.members != [] { assert Fold(t.members[0].key, false) != Fold(key, false); }
  }

  lemma {:induction false} BothClash(t: Tree, ms: seq<Member<Json>>, ns: seq<Member<Json>>)
    requires Midway(t, ms, ns) && ms != [] && ns != [] && CompareStrings(ms[0].key, ns[0].key, false) == 0
    ensures RunPatches(t, Compositions(MemberRequests([], ms, ns)), false).Broken? <==> WalkClash(t, ms, ns)
    decreases MembersHeight(ms), |ms| + |ns|, 0
  {
    var key, x, y, rest := ms[0].key, ms[0].value, ns[0].value, MemberRequests([], ms[1..], ns[1..]);
    assert MemberRequests([], ms, ns) == Requests([key], x, y) + rest by { assert [] + [key] == [key]; }
    CmpZero(Lower(key), Lower(ns[0].key));
    WalkableTail(ms);
    WalkableTail(ns);
    assert OldThere(t, ms[0]);
    var c := Partner(t.members, key).value;
    WholeByView(Content(c), x, y);
    FoundBy(ms, 0);
    PartnerFold(ns, ns[0].key, key);
    FoundBy(ns, 0);
    hide View, MemberRequests, Walkable, StrictOrder, Clashes, CompareStrings, Whole, Addressable, Distinct, RawFree, Lost;
    CompositionsAppend(Requests([key], x, y), rest);
    RunAppend(t, Compositions(Requests([key], x, y)), Compositions(rest));
    if Whole(x, y) {
      WholeStep(t, key, x, y, ms, ns);
    } else {
      InnerStep(t, key, x, y, ms, ns);
    }
    var o := RunPatches(t, Compositions(Requests([key], x, y)), false);
    hide RunPatches, Compositions, Requests, Partner, DistinctKeys, Lower;
    if o.Ran? {
      var u := o.document;
      ClashStep(u, t, key, ms, ns, true, true);
      MidwayStep(u, t, key, ms, ns, true, true);
      hide Midway, WalkClash, FirstClash, ClashAt, Dealt;
      MembersClash(u, ms[1..], ns[1..]);
    }
  }

  /** A value that is replaced as a whole. */
  lemma WholeStep(t: Tree, key: string, x: Json, y: Json, ms: seq<Member<Json>>, ns: seq<Member<Json>>)
    requires t.Record? && DistinctKeys(t.members, false) && Plain(key) && Distinct(y, false)
    requires Partner(t.members, key).Some? && Partner(ms, key).Some? && Partner(ns, key) == Some(y)
    requires Whole(x, y) && Whole(Content(Partner(t.members, key).value), y)
    ensures var o := RunPatches(t, Compositions(Requests([key], x, y)), false);
            && (o.Broken? ==> FirstClash(t, ms, ns))
            && (o.Ran? ==>
                  && o.status == 0 && Dealt(o.document, t, key) && !ClashAt(t, key, ns)
                  && !(FirstClash(t, ms, ns) && Lower(t.members[0].key) == Lower(key)))
  {
    RequestsLonger([key], x, y);
    WholeNoClash(Partner(t.members, key).value, y);
    hide View, Whole, Distinct, Requests, Compositions, Content, Clashes;
    RunFirst(t, DoReplace([key], y), []);
    assert [DoReplace([key], y)] + [] == [DoReplace([key], y)];
    ReplaceRuns(t, key, y);
    TakesMember(t, key);
    var d := TakeChild(t, key);
    assert Compositions([]) == [] by { NoCompositions(); }
    if d.Torn? {
      FirstIsLost(t, key, ms, ns);
    } else {
      var r, m := d.document, Member(key, Fresh(y));
      var p := PlaceIn(r, key, Fresh(y), false);
      assert p == Placed(Appended(r, m));
      FinishAtRoot(r, p);
      PlacedDealt(r, key, Fresh(y));
      DealtTwice(p.parent, r, t, key);
    }
    hide TakeChild, PlaceIn, Finish, ApplyTree, DistinctKeys, Fresh;
  }

  lemma NoCompositions()
    ensures Compositions([]) == []
  {
  }

  lemma FirstIsKept(t: Tree, key: string, ms: seq<Member<Json>>, ns: seq<Member<Json>>)
    requires t.Record? && Partner(t.members, key).Some?
    requires var y := Partner(ns, key); y.Some? && !Whole(Content(Partner(t.members, key).value), y.value)
    ensures !(FirstClash(t, ms, ns) && Lower(t.members[0].key) == Lower(key))
  {
    hide Whole, Lower;
    if t.members != [] && Lower(t.members[0].key) == Lower(key) {
      var first := t.members[0].key;
      PartnerFold(t.members, first, key);
      PartnerFold(ns, first, key);
      FoundBy(t.members, 0);
    }
  }

  /** What a generator promises, in the words of a run below a child. */
  lemma GeneratedBelow(x: Json, y: Json)
    requires Addressable(x) && Addressable(y) && Distinct(y, false) && !Whole(x, y)
    ensures EditsBelow(Requests([], x, y))
  {
    RequestsSound([], x, y);
    RequestsLonger([], x, y);
    hide Requests, Sound, Whole;
  }

  /** A value that is worked on inside. */
  lemma {:induction false} InnerStep(t: Tree, key: string, x: Json, y: Json, ms: seq<Member<Json>>, ns: seq<Member<Json>>)
    requires t.Record? && DistinctKeys(t.members, false) && Plain(key)
    requires Addressable(x) && Addressable(y) && Distinct(x, false) && Distinct(y, false) && RawFree(x) && RawFree(y)
    requires Partner(t.members, key).Some? && Partner(ns, key) == Some(y)
    requires Means(Content(Partner(t.members, key).value), View(x, false))
    requires !Whole(x, y) && !Whole(Content(Partner(t.members, key).value), y)
    ensures var o := RunPatches(t, Compositions(Requests([key], x, y)), false);
            && (o.Broken? ==> ClashAt(t, key, ns))
            && (o.Ran? ==>
                  && o.status == 0 && Dealt(o.document, t, key) && !ClashAt(t, key, ns)
                  && !(FirstClash(t, ms, ns) && Lower(t.members[0].key) == Lower(key)))
    decreases Height(x), 1
  {
    var i := FindMember(t.members, key, false);
    var c := t.members[i].value;
    GeneratedBelow(x, y);
    FirstIsKept(t, key, ms, ns);
    MemberStep(t, key);
    assert [key] + [] == [key];
    var o := RunPatches(c, Compositions(Requests([], x, y)), false);
    if o.Ran? { SetDealt(t, key, i, o.document); }
    assert ClashAt(t, key, ns) <==> Clashes(c, y);
    assert Means(Content(c), View(x, false));
    LiftIs(t, i, o);
    hide *;
    RequestsUnder(key, [], x, y);
    RunBelow(t, key, i, Requests([], x, y));
    RunClashes(c, x, y);
    RunStatus(c, x, y);
  }

  lemma MemberStep(t: Tree, key: string)
    requires t.Record? && Partner(t.members, key).Some?
    ensures var i := FindMember(t.members, key, false);
            Pointer.Step(Content(t), Encode(key), false) == Some(i) && TreeChild(t, i) == t.members[i].value
  {
    FindInContent(t.members, key, false);
    FindNamedIsFindMember(MemberContents(t.members), key, false);
    hide Encode, FindMember, FindNamed;
  }

  lemma LiftIs(t: Tree, i: nat, o: Outcome)
    requires i < ChildCount(Content(t))
    ensures Lift(t, i, o) == if o.Broken? then Broken else Ran(o.status, TreeWith(t, i, o.document))
  {
  }

  /** A run of generated patches that breaks nothing ends with status 0 in what it should. */
  lemma RunStatus(t: Tree, from: Json, to: Json)
    requires Means(Content(t), View(from, false)) && Addressable(from) && Addressable(to)
    requires Distinct(from, false) && Distinct(to, false) && RawFree(from) && RawFree(to)
    ensures var o := RunPatches(t, Compositions(Requests([], from, to)), false);
            o.Ran? ==> o.status == 0 && Means(Content(o.document), View(to, false))
  {
    hide View, Distinct, RawFree, Addressable, RunPatches, ApplyAll, Requests, Compositions, Content, RunHits;
    RunContent(t, Compositions(Requests([], from, to)), false, false);
    PatchRoundTrip(Content(t), from, to);
  }

  // ---- Arrays ----

  lemma IndexToken(n: nat)
    requires n < SIZE_MODULUS
    ensures var t := Digits(n); Plain(t) && t != "-" && Token(t) == t && DecodeIndex(t) == Some(n) && Encode(t) == t
  {
    DecodePrinted(n);
    TokenOfAll(Digits(n));
    EncodePlain(Digits(n));
  }

  ghost predicate Elements(ts: seq<Tree>, xs: seq<Json>) {
    |ts| == |xs| && forall i | 0 <= i < |ts| :: Means(Content(ts[i]), View(xs[i], false))
  }

  ghost predicate AnyClash(ts: seq<Tree>, ys: seq<Json>) {
    exists i :: 0 <= i < |ts| && i < |ys| && Clashes(ts[i], ys[i])
  }

  lemma AnyClashStep(ts: seq<Tree>, ys: seq<Json>)
    requires ts != [] && ys != []
    ensures AnyClash(ts, ys) <==> Clashes(ts[0], ys[0]) || AnyClash(ts[1..], ys[1..])
  {
    hide Clashes;
    if AnyClash(ts, ys) {
      var i :| 0 <= i < |ts| && i < |ys| && Clashes(ts[i], ys[i]);
      if i > 0 { assert ts[1..][i - 1] == ts[i] && ys[1..][i - 1] == ys[i]; }
    }
    if AnyClash(ts[1..], ys[1..]) {
      var i :| 0 <= i < |ts[1..]| && i < |ys[1..]| && Clashes(ts[1..][i], ys[1..][i]);
      assert ts[1..][i] == ts[i + 1] && ys[1..][i] == ys[i + 1];
    }
  }

  lemma {:induction false} RemovalsRun(done: seq<Tree>, own: nat, ts: seq<Tree>)
    requires |done| + |ts| < SIZE_MODULUS
    ensures RunPatches(List(done + ts, own), Compositions(Removals([], |done|, |ts|)), false) == Ran(0, List(done, own))
    decreases |ts|
  {
    var t, key := List(done + ts, own), Digits(|done|);
    if ts == [] {
      assert done + ts == done;
      assert Compositions(Removals([], |done|, 0)) == [] by { NoCompositions(); }
    } else {
      IndexToken(|done|);
      assert [] + [key] == [key];
      assert (done + ts)[..|done|] + (done + ts)[|done| + 1..] == done + ts[1..];
      hide Digits, DecodeIndex, Token, Encode, Compositions, Compose;
      RunFirst(t, DoRemove([key]), Removals([], |done|, |ts[1..]|));
      RemoveRuns(t, key);
      assert TakeChild(t, key) == Taken(List(done + ts[1..], own), ts[0]);
      hide RunPatches, ApplyTree, TakeChild;
      RemovalsRun(done, own, ts[1..]);
    }
  }

  lemma {:induction false} AdditionsRun(done: seq<Tree>, own: nat, ys: seq<Json>)
    requires DistinctItems(ys, false)
    ensures var o := RunPatches(List(done, own), Compositions(Additions([], ys)), false); o.Ran? && o.status == 0
    decreases |ys|
  {
    if ys == [] {
      NoCompositions();
    } else {
      assert Distinct(ys[0], false) && Plain("-");
      assert [] + ["-"] == ["-"];
      hide Compositions, Compose, Distinct;
      RunFirst(List(done, own), DoAdd(["-"], ys[0]), Additions([], ys[1..]));
      AddRuns(List(done, own), "-", ys[0]);
      var p := PlaceIn(List(done, own), "-", Fresh(ys[0]), false);
      FinishAtRoot(List(done, own), p);
      hide RunPatches, ApplyTree, Finish;
      AdditionsRun(done + [Fresh(ys[0])], own, ys[1..]);
    }
  }

  lemma {:induction false} ItemsClash(done: seq<Tree>, own: nat, ts: seq<Tree>, xs: seq<Json>, ys: seq<Json>)
    requires |done| + |xs| < SIZE_MODULUS && Elements(ts, xs) && Comparable(xs) && Comparable(ys)
    ensures RunPatches(List(done + ts, own), Compositions(ItemRequests([], |done|, xs, ys)), false).Broken? <==> AnyClash(ts, ys)
    decreases ItemsHeight(xs), |xs|, 1
  {
    if xs != [] && ys != [] {
      PairClash(done, own, ts, xs, ys);
    } else {
      var removals, additions := Removals([], |done|, |xs|), Additions([], ys);
      assert DistinctItems(ys, false);
      hide Compositions, Removals, Additions, RunPatches, Elements, Comparable, Clashes;
      CompositionsAppend(removals, additions);
      RunAppend(List(done + ts, own), Compositions(removals), Compositions(additions));
      assert |ts| == |xs| by { SameCount(ts, xs); }
      RemovalsRun(done, own, ts);
      AdditionsRun(done, own, ys);
    }
  }

  lemma SameCount(ts: seq<Tree>, xs: seq<Json>)
    requires Elements(ts, xs)
    ensures |ts| == |xs|
  {
  }

  /** An element is replaced where it lies. */
  lemma ReplacesElement(done: seq<Tree>, own: nat, ts: seq<Tree>, y: Json)
    requires ts != [] && |done| < SIZE_MODULUS && Distinct(y, false)
    ensures ApplyTree(List(done + ts, own), Compose(DoReplace([Digits(|done|)], y)), false) ==
            Ran(0, List((done + [Fresh(y)]) + ts[1..], own))
  {
    var t, key, rest := List(done + ts, own), Digits(|done|), List(done + ts[1..], own);
    IndexToken(|done|);
    hide Digits, DecodeIndex, Token, Encode, ApplyTree, Compose, Distinct, Fresh;
    ReplaceRuns(t, key, y);
    assert (done + ts)[..|done|] + (done + ts)[|done| + 1..] == done + ts[1..];
    assert TakeChild(t, key) == Taken(rest, ts[0]);
    assert (done + ts[1..])[..|done|] + [Fresh(y)] + (done + ts[1..])[|done|..] == (done + [Fresh(y)]) + ts[1..];
    var p := PlaceIn(rest, key, Fresh(y), false);
    assert p == Placed(List((done + [Fresh(y)]) + ts[1..], own));
    FinishAtRoot(rest, p);
  }

  /** Requests below an element. */
  lemma BelowElement(done: seq<Tree>, own: nat, ts: seq<Tree>, rs: seq<Request>)
    requires ts != [] && |done| < SIZE_MODULUS && EditsBelow(rs)
    ensures var o := RunPatches(ts[0], Compositions(rs), false);
            RunPatches(List(done + ts, own), Compositions(UnderAll(Digits(|done|), rs)), false) ==
            if o.Broken? then Broken else Ran(o.status, List((done + [o.document]) + ts[1..], own))
  {
    var t, key := List(done + ts, own), Digits(|done|);
    var o := RunPatches(ts[0], Compositions(rs), false);
    ElementStep(done, own, ts);
    LiftElement(done, own, ts, o);
    hide *;
    RunBelow(t, key, |done|, rs);
  }

  lemma ElementStep(done: seq<Tree>, own: nat, ts: seq<Tree>)
    requires ts != [] && |done| < SIZE_MODULUS
    ensures var t := List(done + ts, own);
            Pointer.Step(Content(t), Encode(Digits(|done|)), false) == Some(|done|) && TreeChild(t, |done|) == ts[0]
  {
    IndexToken(|done|);
    hide Digits, DecodeIndex, Token, Encode;
  }

  lemma LiftElement(done: seq<Tree>, own: nat, ts: seq<Tree>, o: Outcome)
    requires ts != []
    ensures Lift(List(done + ts, own), |done|, o) == if o.Broken? then Broken else Ran(o.status, List((done + [o.document]) + ts[1..], own))
  {
    if o.Ran? { assert (done + ts)[|done| := o.document] == (done + [o.document]) + ts[1..]; }
  }

  lemma {:induction false} PairClash(done: seq<Tree>, own: nat, ts: seq<Tree>, xs: seq<Json>, ys: seq<Json>)
    requires |done| + |xs| < SIZE_MODULUS && Elements(ts, xs) && Comparable(xs) && Comparable(ys) && xs != [] && ys != []
    ensures RunPatches(List(done + ts, own), Compositions(ItemRequests([], |done|, xs, ys)), false).Broken? <==> AnyClash(ts, ys)
    decreases ItemsHeight(xs), |xs|, 0
  {
    var key, x, y := Digits(|done|), xs[0], ys[0];
    var first, rest := Requests([key], x, y), ItemRequests([], |done| + 1, xs[1..], ys[1..]);
    PairParts(done, ts, xs, ys);
    AnyClashStep(ts, ys);
    hide *;
    CompositionsAppend(first, rest);
    RunAppend(List(done + ts, own), Compositions(first), Compositions(rest));
    if Whole(x, y) {
      WholeNoClash(ts[0], y);
      ReplacesElement(done, own, ts, y);
      RunOne(List(done + ts, own), DoReplace([key], y));
      ItemsClash(done + [Fresh(y)], own, ts[1..], xs[1..], ys[1..]);
    } else {
      RequestsUnder(key, [], x, y);
      GeneratedBelow(x, y);
      BelowElement(done, own, ts, Requests([], x, y));
      RunClashes(ts[0], x, y);
      RunStatus(ts[0], x, y);
      var o := RunPatches(ts[0], Compositions(Requests([], x, y)), false);
      if o.Ran? { ItemsClash(done + [o.document], own, ts[1..], xs[1..], ys[1..]); }
    }
  }

  /** What the first pair brings along. */
  lemma PairParts(done: seq<Tree>, ts: seq<Tree>, xs: seq<Json>, ys: seq<Json>)
    requires Elements(ts, xs) && Comparable(xs) && Comparable(ys) && xs != [] && ys != []
    ensures var key, x, y := Digits(|done|), xs[0], ys[0];
            && ItemRequests([], |done|, xs, ys) == Requests([key], x, y) + ItemRequests([], |done| + 1, xs[1..], ys[1..])
            && [key] + [] == [key] && ts != []
            && Means(Content(ts[0]), View(x, false)) && Elements(ts[1..], xs[1..])
            && Comparable(xs[1..]) && Comparable(ys[1..])
            && Addressable(x) && Addressable(y) && Distinct(x, false) && Distinct(y, false) && RawFree(x) && RawFree(y)
            && (Whole(Content(ts[0]), y) <==> Whole(x, y))
            && (Whole(x, y) ==> Requests([key], x, y) == [DoReplace([key], y)])
            && Height(x) <= ItemsHeight(xs) && ItemsHeight(xs[1..]) <= ItemsHeight(xs)
  {
    var key, x, y := Digits(|done|), xs[0], ys[0];
    assert [] + [key] == [key];
    ComparableTail(xs);
    ComparableTail(ys);
    assert Means(Content(ts[0]), View(x, false));
    WholeByView(Content(ts[0]), x, y);
    RequestsLonger([key], x, y);
    hide Digits, View, Distinct, Whole, Requests, Addressable, RawFree, Height;
  }

  lemma RunOne(t: Tree, r: Request)
    ensures RunPatches(t, Compositions([r]), false) == ApplyTree(t, Compose(r), false)
  {
    RunFirst(t, r, []);
    NoCompositions();
    assert [r] + [] == [r];
    hide ApplyTree, Compose, Compositions;
  }

  // ---- The theorem ----

  lemma {:induction false} RunClashes(t: Tree, from: Json, to: Json)
    requires Means(Content(t), View(from, false)) && Addressable(from) && Addressable(to)
    requires Distinct(from, false) && Distinct(to, false) && RawFree(from) && RawFree(to)
    ensures RunPatches(t, Compositions(Requests([], from, to)), false).Broken? <==> Clashes(t, to)
    decreases Height(from), 0
  {
    WholeByView(Content(t), from, to);
    if Whole(from, to) {
      RequestsLonger([], from, to);
      WholeNoClash(t, to);
      hide View, Clashes, Distinct, Whole, Requests;
      RunOne(t, DoReplace([], to));
      RootReplaced(t, to);
      hide RunPatches, ApplyTree, Compositions;
    } else if from.Object? {
      ObjectClash(t, from, to);
      hide RunPatches, Clashes;
    } else if from.Array? {
      ArrayClash(t, from, to);
      hide RunPatches, Clashes;
    } else {
      assert Requests([], from, to) == [];
      NoCompositions();
    }
  }

  lemma RootReplaced(t: Tree, to: Json)
    requires Distinct(to, false)
    ensures ApplyTree(t, Compose(DoReplace([], to)), false) == Ran(0, Fresh(to))
  {
    hide ApplyTree, Compose, Distinct, PathText, Fresh, View;
    TreeDispatch(t, DoReplace([], to));
  }

  lemma {:induction false} ArrayClash(t: Tree, from: Json, to: Json)
    requires Means(Content(t), View(from, false)) && Addressable(from) && Addressable(to)
    requires Distinct(from, false) && Distinct(to, false) && RawFree(from) && RawFree(to)
    requires from.Array? && to.Array?
    ensures RunPatches(t, Compositions(Requests([], from, to)), false).Broken? <==> Clashes(t, to)
    decreases Height(from), 0, 0
  {
    ArrayClashParts(t, from, to);
    hide *;
    assert [] + t.items == t.items;
    ItemsClash([], t.mark, t.items, from.items, to.items);
  }

  lemma ArrayClashParts(t: Tree, from: Json, to: Json)
    requires Means(Content(t), View(from, false)) && Addressable(from) && Addressable(to)
    requires Distinct(from, false) && Distinct(to, false) && RawFree(from) && RawFree(to)
    requires from.Array? && to.Array?
    ensures t.List? && Requests([], from, to) == ItemRequests([], 0, from.items, to.items)
    ensures |t.items| == |from.items| < SIZE_MODULUS
    ensures forall i | 0 <= i < |t.items| :: Means(Content(t.items[i]), View(from.items[i], false))
    ensures Comparable(from.items) && Comparable(to.items) && ItemsHeight(from.items) < Height(from)
    ensures Clashes(t, to) <==> AnyClash(t.items, to.items)
    ensures t == List([] + t.items, t.mark)
  {
    ArrayMeans(t, from);
    hide View, Distinct, Fold, Content;
    assert [] + t.items == t.items;
  }

  lemma ArrayMeans(t: Tree, from: Json)
    requires Means(Content(t), View(from, false)) && from.Array?
    ensures t.List? && |t.items| == |from.items|
    ensures forall i | 0 <= i < |t.items| :: Means(Content(t.items[i]), View(from.items[i], false))
  {
    KindOf(t);
    assert ViewItems(Contents(t.items), false) == ViewItems(from.items, false);
    forall i | 0 <= i < |t.items| ensures Means(Content(t.items[i]), View(from.items[i], false)) {
      assert View(Contents(t.items)[i], false) == ViewItems(Contents(t.items), false)[i];
      assert DistinctItems(Contents(t.items), false);
    }
  }

  lemma {:induction false} ObjectClash(t: Tree, from: Json, to: Json)
    requires Means(Content(t), View(from, false)) && Addressable(from) && Addressable(to)
    requires Distinct(from, false) && Distinct(to, false) && RawFree(from) && RawFree(to)
    requires from.Object? && to.Object?
    ensures RunPatches(t, Compositions(Requests([], from, to)), false).Broken? <==> Clashes(t, to)
    decreases Height(from), 0, 0
  {
    var ms, ns := Sort(from.members, false), Sort(to.members, false);
    ObjectParts([], from, to);
    SortHeight(from.members, false);
    SortWalkable(from.members);
    SortWalkable(to.members);
    assert t.Record?;
    AllMidway(t, from, to);
    hide View, Clashes, Distinct, Requests, MemberRequests, RunPatches, Compositions, Height, MembersHeight, Walkable, Sort;
    MembersClash(t, ms, ns);
  }

  // ---- At the start of the walk ----

  /** Sorting keeps the partner of every key. */
  lemma PartnerSorted<T>(ms: seq<Member<T>>, key: string)
    requires DistinctKeys(ms, false)
    ensures Partner(Sort(ms, false), key) == Partner(ms, key)
  {
    var r := Sort(ms, false);
    SortPermutes(ms, false);
    PermutationDistinct(ms, r, false);
    hide Sort;
    var i := FindMember(ms, key, false);
    if i < |ms| {
      assert ms[i] in multiset(r);
      var j :| 0 <= j < |r| && r[j] == ms[i];
      assert Fold(ms[i].key, false) == Fold(key, false);
      FindUnique(r, j, key);
    } else {
      forall j | 0 <= j < |r| ensures Lower(r[j].key) != Lower(key) {
        assert r[j] in multiset(ms);
        var a :| 0 <= a < |ms| && ms[a] == r[j];
        assert Fold(ms[a].key, false) != Fold(key, false);
      }
      PartnerNone(r, key);
    }
  }

  lemma ContentKeys(ms: seq<Member<Tree>>)
    requires DistinctKeys(MemberContents(ms), false)
    ensures DistinctKeys(ms, false)
  {
    forall i, k | 0 <= i < k < |ms| ensures Fold(ms[i].key, false) != Fold(ms[k].key, false) {
      assert Fold(MemberContents(ms)[i].key, false) != Fold(MemberContents(ms)[k].key, false);
    }
  }

  /** A member of the document and the member of `from` under the same key. */
  lemma SamePartner(ts: seq<Member<Tree>>, ms: seq<Member<Json>>, key: string)
    requires Distinct(Object(MemberContents(ts)), false)
    requires ViewMembers(MemberContents(ts), false) == ViewMembers(ms, false)
    ensures var c, m := Partner(ts, key), Partner(ms, key);
            c.Some? == m.Some? && (c.Some? ==> Means(Content(c.value), View(m.value, false)))
  {
    var js := MemberContents(ts);
    assert forall i | 0 <= i < |js| :: Distinct(js[i].value, false);
    hide View, ViewMembers, FindMember, Fold, MemberContents, Distinct, Content;
    FindInContent(ts, key, false);
    FindIsLookup(js, key, false);
    FindIsLookup(ms, key, false);
  }

  lemma AllMidway(t: Tree, from: Json, to: Json)
    requires t.Record? && from.Object? && to.Object? && Means(Content(t), View(from, false))
    requires Distinct(from, false) && Distinct(to, false)
    requires var ms, ns := Sort(from.members, false), Sort(to.members, false);
             && Walkable(ms) && ViewMembers(ms, false) == ViewMembers(from.members, false)
             && Walkable(ns) && ViewMembers(ns, false) == ViewMembers(to.members, false)
    ensures var ms, ns := Sort(from.members, false), Sort(to.members, false);
            Midway(t, ms, ns) && (WalkClash(t, ms, ns) <==> Clashes(t, to))
  {
    var ms, ns, ts := Sort(from.members, false), Sort(to.members, false), t.members;
    assert View(Content(t), false) == Obj(ViewMembers(MemberContents(ts), false));
    ContentKeys(ts);
    forall i | 0 <= i < |ms| ensures OldThere(t, ms[i]) {
      SamePartner(ts, ms, ms[i].key);
      FoundBy(ms, i);
      var k := FindMember(ms, ms[i].key, false);
      OrderDistinct(ms);
      FindUnique(ms, i, ms[i].key);
    }
    forall i | 0 <= i < |ns| ensures NewNotYet(t, ms, ns[i].key) {
      SamePartner(ts, ms, ns[i].key);
    }
    forall k ensures Partner(ns, k) == Partner(to.members, k) && (Partner(ts, k).Some? <==> Partner(ms, k).Some?) {
      PartnerSorted(to.members, k);
      SamePartner(ts, ms, k);
    }
    hide View, ViewMembers, Sort, Walkable, Whole, Distinct, MemberContents, Content, OldThere, NewNotYet;
    ClashesByKey(t, to.members, ms, ns);
  }

  /** The clashes by position are the clashes by key. */
  lemma ClashesByKey(t: Tree, to: seq<Member<Json>>, ms: seq<Member<Json>>, ns: seq<Member<Json>>)
    requires t.Record? && DistinctKeys(t.members, false)
    requires forall k :: Partner(ns, k) == Partner(to, k) && (Partner(t.members, k).Some? <==> Partner(ms, k).Some?)
    ensures WalkClash(t, ms, ns) <==> Clashes(t, Object(to))
  {
    var ts := t.members;
    ClashesObject(t, to);
    FirstByKey(t, to, ms, ns);
    hide FirstClash, Lost, Partner, DistinctKeys, Clashes, ClashingChild, ClashAt;
    if exists i :: 0 <= i < |ms| && ClashAt(t, ms[i].key, ns) {
      var i :| 0 <= i < |ms| && ClashAt(t, ms[i].key, ns);
      var j := ByPosition(t, to, ns, ms[i].key);
    }
    if exists j :: 0 <= j < |ts| && ClashingChild(t, to, j) {
      var j :| 0 <= j < |ts| && ClashingChild(t, to, j);
      var i := ByKey(t, to, ms, ns, j);
    }
  }

  lemma ClashesObject(t: Tree, to: seq<Member<Json>>)
    requires t.Record?
    ensures Clashes(t, Object(to)) <==>
            || (!t.back.Nowhere? && t.members != [] && Lost(t.members[0], to))
            || exists j :: 0 <= j < |t.members| && ClashingChild(t, to, j)
  {
    hide Lost, Partner;
    if exists j :: 0 <= j < |t.members| && ClashingChild(t, to, j) {
      var j :| 0 <= j < |t.members| && ClashingChild(t, to, j);
      assert Partner(to, t.members[j].key).Some?;
    }
    if exists j | 0 <= j < |t.members| :: var y := Partner(to, t.members[j].key); y.Some? && Clashes(t.members[j].value, y.value) {
      var j :| 0 <= j < |t.members| && var y := Partner(to, t.members[j].key); y.Some? && Clashes(t.members[j].value, y.value);
      assert ClashingChild(t, to, j);
    }
  }

  lemma FirstByKey(t: Tree, to: seq<Member<Json>>, ms: seq<Member<Json>>, ns: seq<Member<Json>>)
    requires t.Record?
    requires forall k :: Partner(ns, k) == Partner(to, k) && (Partner(t.members, k).Some? <==> Partner(ms, k).Some?)
    ensures FirstClash(t, ms, ns) <==> !t.back.Nowhere? && t.members != [] && Lost(t.members[0], to)
  {
    if t.members != [] { FoundBy(t.members, 0); }
    hide Whole;
  }

  predicate ClashingChild(t: Tree, to: seq<Member<Json>>, j: nat)
    requires t.Record? && j < |t.members|
  {
    var y := Partner(to, t.members[j].key);
    y.Some? && Clashes(t.members[j].value, y.value)
  }

  lemma ByPosition(t: Tree, to: seq<Member<Json>>, ns: seq<Member<Json>>, key: string) returns (j: nat)
    requires t.Record? && ClashAt(t, key, ns) && Partner(ns, key) == Partner(to, key)
    ensures j < |t.members| && ClashingChild(t, to, j)
  {
    j := FindMember(t.members, key, false);
    assert Fold(t.members[j].key, false) == Fold(key, false);
    PartnerFold(to, t.members[j].key, key);
    hide Clashes, FindMember;
  }

  lemma ByKey(t: Tree, to: seq<Member<Json>>, ms: seq<Member<Json>>, ns: seq<Member<Json>>, j: nat) returns (i: nat)
    requires t.Record? && DistinctKeys(t.members, false) && j < |t.members| && ClashingChild(t, to, j)
    requires forall k :: Partner(ns, k) == Partner(to, k) && (Partner(t.members, k).Some? <==> Partner(ms, k).Some?)
    ensures i < |ms| && ClashAt(t, ms[i].key, ns)
  {
    var ts, key := t.members, t.members[j].key;
    FindUnique(ts, j, key);
    assert Partner(ts, key).Some?;
    i := FindMember(ms, key, false);
    assert Fold(ms[i].key, false) == Fold(key, false);
    PartnerFold(ts, ms[i].key, key);
    PartnerFold(ns, ms[i].key, key);
    hide Clashes, FindMember, DistinctKeys;
  }

  // ---- The round trip ----

  lemma {:induction false} NoMoves(rs: seq<Request>)
    requires forall i | 0 <= i < |rs| :: !rs[i].DoMove?
    ensures forall i | 0 <= i < |rs| :: DecodeOperation(Compositions(rs)[i], false) != MOVE
  {
    hide DecodeOperation, Compose;
    if rs != [] {
      ComposeOpcode(rs[0], false);
      NoMoves(rs[1..]);
    }
  }

  lemma GeneratedNoMoves(from: Json, to: Json)
    requires Addressable(from) && Addressable(to) && Distinct(to, false)
    ensures var ps := Compositions(Requests([], from, to));
            forall i | 0 <= i < |ps| :: DecodeOperation(ps[i], false) != MOVE
  {
    RequestsSound([], from, to);
    hide Requests, Sound, Compositions, DecodeOperation;
    NoMoves(Requests([], from, to));
  }

  /**
   Applying what `cJSONUtils_GeneratePatches` returns to a document that means `from`: if the
   document does not clash with `to` it returns 0 and leaves a document that means `to`, and
   if it does a list is broken, unless first members point at nodes in other lists.
   */
  lemma TreeRoundTrip(t: Tree, from: Json, to: Json)
    requires Means(Content(t), View(from, false)) && Addressable(from) && Addressable(to)
    requires Distinct(from, false) && Distinct(to, false) && RawFree(from) && RawFree(to)
    ensures var o := ApplyTrees(t, GeneratePatches(from, to), false, true);
            && (!Clashes(t, to) ==> o.Ran? && o.status == 0 && Means(Content(o.document), View(to, false)))
            && (Clashes(t, to) && Home(t) ==> o.Broken?)
  {
    RunClashes(t, from, to);
    RunStatus(t, from, to);
    GeneratedNoMoves(from, to);
    hide View, Distinct, RawFree, Addressable, RunPatches, Requests, Compositions, Content, Clashes, Home, DecodeOperation;
    StrictRun(t, Compositions(Requests([], from, to)), false);
    if Home(t) { HomeRun(t, Compositions(Requests([], from, to)), false); }
  }

  /** Nothing clashes in a document that was parsed or duplicated. */
  lemma {:induction false} CleanNoClash(t: Tree, to: Json)
    requires Clean(t)
    ensures !Clashes(t, to)
  {
    hide Lost, Partner;
    match t
    case Scalar(_, _) =>
    case List(items, _) =>
      if to.Array? {
        forall i | 0 <= i < |items| && i < |to.items| ensures !Clashes(items[i], to.items[i]) {
          CleanNoClash(items[i], to.items[i]);
        }
      }
    case Record(members, _, _) =>
      if to.Object? {
        forall i | 0 <= i < |members|
          ensures var y := Partner(to.members, members[i].key); y.Some? ==> !Clashes(members[i].value, y.value)
        {
          var y := Partner(to.members, members[i].key);
          if y.Some? { CleanNoClash(members[i].value, y.value); }
        }
      }
  }

  // ---- A "test" that breaks what follows ----

  lemma SortTwo<T>(m: Member<T>, n: Member<T>)
    requires Before(n.key, m.key, false)
    ensures Sort([m, n], false) == [n, m] && Leader([m, n], false) == 1 && Landing([m, n], 0, false) == 1
  {
    var a: Member<nat>, b: Member<nat> := Member(m.key, 0), Member(n.key, 1);
    CmpOpposite(Lower(n.key), Lower(m.key));
    SortTurns(m, n);
    SortTurns(a, b);
    assert Tagged([m, n]) == [a, b];
    hide Sort, Before;
    assert TagAt([b, a], 0) == 1 + TagAt([a], 0) by { assert [b, a][1..] == [a]; }
  }

  lemma SortTurns<T>(m: Member<T>, n: Member<T>)
    requires !Before(m.key, n.key, false)
    ensures Sort([m, n], false) == [n, m]
  {
    var ms := [m, n];
    assert !Before(ms[0].key, ms[0 + 1].key, false);
    assert ms[..1] == [m] && ms[1..] == [n] && Half(2) == 1;
    assert Sort([m], false) == [m] && Sort([n], false) == [n];
    assert MergeLists([m], [n]) == [n] + MergeLists([m], [n][1..]);
    assert MergeLists([m], [n][1..]) == [m];
  }

  lemma {:induction false} CompareKeepsKeys(ms: seq<Member<Tree>>, ns: seq<Member<Tree>>)
    ensures var r := CompareRecords(ms, ns, false); |r.ms| == |ms| && forall i | 0 <= i < |ms| :: r.ms[i].key == ms[i].key
    decreases |ms|
  {
    hide CompareTree, CompareStrings;
    if ms != [] && ns != [] {
      CompareKeepsKeys(ms[1..], ns[1..]);
      RecordsStep(ms, ns, false);
    }
  }

  /** The document, and a value that means the same. */
  ghost predicate Tested(document: Json, x: Json) {
    && x.Object? && View(x, false) == View(document, false)
    && Distinct(document, false) && RawFree(document) && Consistent(document)
    && Distinct(x, false) && RawFree(x) && Consistent(x)
  }

  /** What a "test" that succeeds leaves of an object of two members in the wrong order. */
  lemma TestTurns(m: Member<Json>, n: Member<Json>, x: Json)
    requires Before(n.key, m.key, false) && Tested(Object([m, n]), x)
    ensures var o := ApplyTree(Fresh(Object([m, n])), Compose(DoTest([], x)), false);
            && o.Ran? && o.status == 0 && o.document.Record? && o.document.back == Into(1)
            && |o.document.members| == 2 && o.document.members[0].key == n.key
            && Distinct(Content(o.document), false)
  {
    ComparesTurned(m, n, x);
    TestSound(Object([m, n]), x);
    hide *;
    TestAtRoot(Fresh(Object([m, n])), x);
    TreeDispatch(Fresh(Object([m, n])), DoTest([], x));
  }

  lemma TestSound(document: Json, x: Json)
    requires Tested(document, x)
    ensures Sound(DoTest([], x), false)
  {
    hide View, Distinct, RawFree, Consistent;
  }

  lemma ComparesTurned(m: Member<Json>, n: Member<Json>, x: Json)
    requires Before(n.key, m.key, false) && Tested(Object([m, n]), x)
    ensures var c := CompareTree(Fresh(Object([m, n])), Fresh(x), false);
            && c.equal && c.a.Record? && c.a.back == Into(1) && |c.a.members| == 2 && c.a.members[0].key == n.key
            && Distinct(Content(c.a), false)
  {
    var document := Object([m, n]);
    var t, u := Fresh(document), Fresh(x);
    assert t == Record(t.members, Nowhere, 0) && u == Record(u.members, Nowhere, 0);
    assert |t.members| == 2 && t.members[0].key == m.key && t.members[1].key == n.key;
    hide Fresh, Content, View, Distinct, RawFree, Consistent, CompareJson, CompareTree, Before;
    TurnedRecord(t.members, u.members);
    CompareContent(t, u, false);
    CompareJsonIsViewEquality(document, x);
    CompareJsonKeeps(document, x, false, false);
  }

  lemma TestAtRoot(t: Tree, x: Json)
    ensures PathText([]) == ""
    ensures var c := CompareTree(t, Fresh(x), false); TestTree(t, "", Some(x), false) == Ran(if c.equal then 0 else 1, c.a)
  {
    TextEmpty([]);
    hide CompareTree, Fresh, PathText;
  }

  lemma TurnedRecord(ts: seq<Member<Tree>>, us: seq<Member<Tree>>)
    requires |ts| == 2 && Before(ts[1].key, ts[0].key, false)
    ensures var u := CompareTree(Record(ts, Nowhere, 0), Record(us, Nowhere, 0), false).a;
            u.Record? && u.back == Into(1) && |u.members| == 2 && u.members[0].key == ts[1].key
  {
    assert ts == [ts[0], ts[1]];
    SortTwo(ts[0], ts[1]);
    CompareKeepsKeys(Sort(ts, false), Sort(us, false));
    hide Sort, CompareRecords, FirstStays, Before;
  }

  lemma FirstTorn(t: Tree)
    requires t.Record? && t.members != [] && !t.back.Nowhere?
    ensures TakeChild(t, t.members[0].key).Torn?
  {
    FoundBy(t.members, 0);
    hide FindMember;
  }

  /** What happens on the document with its links. */
  lemma TestThenReplace(m: Member<Json>, n: Member<Json>, x: Json, z: Json)
    requires Before(n.key, m.key, false) && Plain(n.key) && Distinct(z, false) && Tested(Object([m, n]), x)
    ensures RunPatches(Fresh(Object([m, n])), Compositions([DoTest([], x), DoReplace([n.key], z)]), false).Broken?
  {
    hide *;
    var test, replace := DoTest([], x), DoReplace([n.key], z);
    var t := Fresh(Object([m, n]));
    TestTurns(m, n, x);
    var o := ApplyTree(t, Compose(test), false);
    assert [test] + [replace] == [test, replace];
    RunFirst(t, test, [replace]);
    RunOne(o.document, replace);
    ReplaceRuns(o.document, n.key, z);
    FirstTorn(o.document);
  }

  /** What happens on values. */
  lemma TestLetsReplace(m: Member<Json>, n: Member<Json>, x: Json, z: Json)
    requires Before(n.key, m.key, false) && Plain(n.key) && Distinct(z, false) && Tested(Object([m, n]), x)
    ensures ApplyAll(Object([m, n]), Compositions([DoTest([], x), DoReplace([n.key], z)]), false).status == 0
  {
    var document := Object([m, n]);
    var test, replace := DoTest([], x), DoReplace([n.key], z);
    TestTurns(m, n, x);
    hide Distinct, View, RawFree, Consistent, Compose, ApplyTree, Compositions, Before, Fresh, Content;
    var o := ApplyTree(Fresh(document), Compose(test), false);
    ApplyContent(Fresh(document), Compose(test), false, false);
    ReplacesFirst(Content(o.document), n.key, z);
    AllOfTwo(document, Compose(test), Compose(replace));
    TwoCompositions(test, replace);
    hide ApplyAll, ApplyPatch;
  }

  /**
   For any two members in the wrong order: after a "test" of the object that succeeds, a
   "replace" of the member with the lesser key breaks the list, although it should succeed.
   */
  lemma TestBreaks(m: Member<Json>, n: Member<Json>, x: Json, z: Json)
    requires Before(n.key, m.key, false) && Plain(n.key) && Distinct(z, false) && Tested(Object([m, n]), x)
    ensures var document, patches := Object([m, n]), Compositions([DoTest([], x), DoReplace([n.key], z)]);
            RunPatches(Fresh(document), patches, false, true).Broken? && ApplyAll(document, patches, false).status == 0
  {
    hide *;
    TestThenReplace(m, n, x, z);
    TestLetsReplace(m, n, x, z);
    FreshHome(Object([m, n]));
    NoMoves([DoTest([], x), DoReplace([n.key], z)]);
    HomeRun(Fresh(Object([m, n])), Compositions([DoTest([], x), DoReplace([n.key], z)]), false);
  }

  lemma TwoCompositions(a: Request, b: Request)
    ensures Compositions([a, b]) == [Compose(a), Compose(b)]
  {
    assert [a, b][1..] == [b] && [b][1..] == [];
    hide Compose;
  }

  lemma AllOfTwo(document: Json, a: Json, b: Json)
    ensures ApplyAll(document, [a, b], false) ==
            var r := ApplyPatch(document, a, false);
            if r.status != 0 then r else ApplyPatch(r.document, b, false)
  {
    hide ApplyPatch;
    var ps := [a, b];
    AllStep(document, ps);
    assert ps[1..] == [b] && [b][1..] == [];
    var r := ApplyPatch(document, a, false);
    AllStep(r.document, [b]);
    AllNone(ApplyPatch(r.document, b, false).document);
    hide ApplyAll;
  }

  lemma AllNone(document: Json)
    ensures ApplyAll(document, [], false) == Applied(0, document)
  {
  }

  lemma AllStep(document: Json, ps: seq<Json>)
    requires ps != []
    ensures ApplyAll(document, ps, false) ==
            var r := ApplyPatch(document, ps[0], false); if r.status != 0 then r else ApplyAll(r.document, ps[1..], false)
  {
    hide ApplyPatch;
  }

  /** The same "replace" in an object that was parsed. */
  lemma ReplacesFirst(j: Json, key: string, z: Json)
    requires j.Object? && |j.members| == 2 && j.members[0].key == key && Plain(key)
    requires Distinct(j, false) && Distinct(z, false)
    ensures ApplyPatch(j, Compose(DoReplace([key], z)), false).status == 0
  {
    var t := Fresh(j);
    ContentKeys(t.members);
    FoundBy(t.members, 0);
    hide Distinct, View, Compose, ApplyTree, Fresh;
    TakesMember(t, key);
    ReplaceRuns(t, key, z);
    ApplyContent(t, Compose(DoReplace([key], z)), false, false);
    var d := TakeChild(t, key).document;
    var p := PlaceIn(d, key, Fresh(z), false);
    FinishAtRoot(d, p);
    hide TakeChild, Content;
  }
}
