/**
 What the two generators leave of their own operands.  Both sort objects in place, so the tree
 that a patch was generated from may have first members that point back, and the round trips
 in place hold exactly where the patch does not detach one of them.
 */
module Operands {
  import opened Options
  import opened CString
  import opened Json
  import opened MemberSort
  import opened Compare
  import opened Pointer
  import opened Links
  import opened Patch
  import opened Diff
  import opened MergeDiff
  import opened LinkedPatch
  import opened LinkedRun
  import opened LinkedDiff
  import opened Strays

  // ---- create_patches ----

  datatype Settled = Settled(from: Tree, to: Tree)
  datatype SettledLists = SettledLists(xs: seq<Tree>, ys: seq<Tree>)
  datatype SettledRecords = SettledRecords(ms: seq<Member<Tree>>, ns: seq<Member<Tree>>)

  /** Both operands after `create_patches`: sorted wherever it looked into two objects. */
  function Settle(from: Tree, to: Tree): Settled
    decreases Height(Content(from)), 0
  {
    if !SameType(Content(from), Content(to)) then Settled(from, to)
    else
      match from
      case Scalar(_, _) => Settled(from, to)
      case List(items, mark) =>
        var r := SettleLists(items, to.items);
        Settled(List(r.xs, mark), List(r.ys, to.mark))
      case Record(members, back, mark) =>
        SortedHeight(members, false);
        var r := SettleRecords(Sort(members, false), Sort(to.members, false));
        Settled(Record(r.ms, BackAfter(members, back, false), mark),
                Record(r.ns, BackAfter(to.members, to.back, false), to.mark))
  }

  function SettleLists(xs: seq<Tree>, ys: seq<Tree>): SettledLists
    decreases ItemsHeight(Contents(xs)), |xs|
  {
    if xs == [] || ys == [] then SettledLists(xs, ys)
    else
      var r, rest := Settle(xs[0], ys[0]), SettleLists(xs[1..], ys[1..]);
      SettledLists([r.from] + rest.xs, [r.to] + rest.ys)
  }

  function SettleRecords(ms: seq<Member<Tree>>, ns: seq<Member<Tree>>): SettledRecords
    decreases MembersHeight(MemberContents(ms)), |ms| + |ns|
  {
    if ms == [] || ns == [] then SettledRecords(ms, ns)
    else
      var diff := CompareStrings(ms[0].key, ns[0].key, false);
      if diff == 0 then
        var r, rest := Settle(ms[0].value, ns[0].value), SettleRecords(ms[1..], ns[1..]);
        SettledRecords([Member(ms[0].key, r.from)] + rest.ms, [Member(ns[0].key, r.to)] + rest.ns)
      else if diff < 0 then
        var rest := SettleRecords(ms[1..], ns);
        SettledRecords([ms[0]] + rest.ms, rest.ns)
      else
        var rest := SettleRecords(ms, ns[1..]);
        SettledRecords(rest.ms, [ns[0]] + rest.ns)
  }

  lemma KeptSame(j: Json)
    requires Distinct(j, false)
    ensures Kept(j, j, false)
  {
  }

  lemma KeptTwice(a: Json, b: Json, c: Json)
    requires Kept(a, b, false) && Kept(b, c, false)
    ensures Kept(a, c, false)
  {
  }

  lemma ConsKeeps(m: Member<Tree>, m0: Member<Tree>, ms: seq<Member<Tree>>, ms0: seq<Member<Tree>>)
    requires m.key == m0.key && Kept(Content(m.value), Content(m0.value), false)
    requires KeptMembers(MemberContents(ms), MemberContents(ms0), false)
    ensures KeptMembers(MemberContents([m] + ms), MemberContents([m0] + ms0), false)
  {
    MemberContentsCons(m, ms);
    MemberContentsCons(m0, ms0);
    hide MemberContents, Kept, Content;
  }

  lemma MembersKeepThemselves(ms: seq<Member<Tree>>)
    requires DistinctValues(MemberContents(ms), false)
    ensures KeptMembers(MemberContents(ms), MemberContents(ms), false)
  {
    forall i | 0 <= i < |ms| ensures Kept(MemberContents(ms)[i].value, MemberContents(ms)[i].value, false) {
      KeptSame(MemberContents(ms)[i].value);
    }
    hide Kept;
  }

  lemma ItemsKeepThemselves(xs: seq<Tree>)
    requires DistinctItems(Contents(xs), false)
    ensures KeptItems(Contents(xs), Contents(xs), false)
  {
    forall i | 0 <= i < |xs| ensures Kept(Contents(xs)[i], Contents(xs)[i], false) {
      KeptSame(Contents(xs)[i]);
    }
    hide Kept;
  }

  /** An object with sorted members and reordered values is what it was. */
  lemma RecordKeeps(after: seq<Member<Tree>>, ms: seq<Member<Tree>>)
    requires Distinct(Object(MemberContents(ms)), false)
    requires KeptMembers(MemberContents(after), MemberContents(Sort(ms, false)), false)
    ensures Kept(Object(MemberContents(after)), Object(MemberContents(ms)), false)
  {
    hide *;
    ContentSorts(ms, false);
    ObjectSorts(MemberContents(ms));
    var sorted := Sort(MemberContents(ms), false);
    KeptObject(MemberContents(after), sorted, false);
    KeptTwice(Object(MemberContents(after)), Object(sorted), Object(MemberContents(ms)));
  }

  lemma ObjectSorts(ms: seq<Member<Json>>)
    requires Distinct(Object(ms), false)
    ensures DistinctKeys(Sort(ms, false), false) && Kept(Object(Sort(ms, false)), Object(ms), false)
  {
    SortKeeps(ms, false, false);
    hide Sort;
  }

  lemma SortedValues(ms: seq<Member<Tree>>)
    requires Distinct(Object(MemberContents(ms)), false)
    ensures DistinctValues(MemberContents(Sort(ms, false)), false)
  {
    ContentSorts(ms, false);
    SortKeeps(MemberContents(ms), false, false);
    hide Sort, MemberContents;
  }

  /** Neither operand has changed what it means. */
  lemma {:induction false} SettleKeeps(from: Tree, to: Tree)
    requires Distinct(Content(from), false) && Distinct(Content(to), false)
    ensures var r := Settle(from, to); Kept(Content(r.from), Content(from), false) && Kept(Content(r.to), Content(to), false)
    decreases Height(Content(from)), 0
  {
    KeptSame(Content(from));
    KeptSame(Content(to));
    if SameType(Content(from), Content(to)) {
      match from
      case Scalar(_, _) =>
      case List(items, _) =>
        SettleListsKeep(items, to.items);
        var r := SettleLists(items, to.items);
        hide Kept, KeptItems, SettleLists, Contents;
        KeptItemsView(Contents(r.xs), Contents(items), false);
        KeptItemsView(Contents(r.ys), Contents(to.items), false);
      case Record(members, _, _) =>
        SortedHeight(members, false);
        SortedValues(members);
        SortedValues(to.members);
        hide Kept, KeptMembers, SettleRecords, MemberContents, Sort, BackAfter;
        SettleRecordsKeep(Sort(members, false), Sort(to.members, false));
        var r := SettleRecords(Sort(members, false), Sort(to.members, false));
        RecordKeeps(r.ms, members);
        RecordKeeps(r.ns, to.members);
    }
  }

  lemma {:induction false} SettleListsKeep(xs: seq<Tree>, ys: seq<Tree>)
    requires DistinctItems(Contents(xs), false) && DistinctItems(Contents(ys), false)
    ensures var r := SettleLists(xs, ys);
            KeptItems(Contents(r.xs), Contents(xs), false) && KeptItems(Contents(r.ys), Contents(ys), false)
    decreases ItemsHeight(Contents(xs)), |xs|
  {
    if xs == [] || ys == [] {
      ItemsKeepThemselves(xs);
      ItemsKeepThemselves(ys);
    } else {
      assert Distinct(Contents(xs)[0], false) && Distinct(Contents(ys)[0], false);
      assert Contents(xs)[1..] == Contents(xs[1..]) && Contents(ys)[1..] == Contents(ys[1..]);
      assert xs == [xs[0]] + xs[1..] && ys == [ys[0]] + ys[1..];
      SettleKeeps(xs[0], ys[0]);
      SettleListsKeep(xs[1..], ys[1..]);
      var r, rest := Settle(xs[0], ys[0]), SettleLists(xs[1..], ys[1..]);
      hide Kept, KeptItems, Contents, Content, Settle, Distinct, ItemsHeight;
      ContentsCons(r.from, rest.xs);
      ContentsCons(r.to, rest.ys);
      ContentsCons(xs[0], xs[1..]);
      ContentsCons(ys[0], ys[1..]);
      KeptConsItems(Content(r.from), Content(xs[0]), Contents(rest.xs), Contents(xs[1..]), false);
      KeptConsItems(Content(r.to), Content(ys[0]), Contents(rest.ys), Contents(ys[1..]), false);
    }
  }

  lemma {:induction false} SettleRecordsKeep(ms: seq<Member<Tree>>, ns: seq<Member<Tree>>)
    requires DistinctValues(MemberContents(ms), false) && DistinctValues(MemberContents(ns), false)
    ensures var r := SettleRecords(ms, ns);
            KeptMembers(MemberContents(r.ms), MemberContents(ms), false) && KeptMembers(MemberContents(r.ns), MemberContents(ns), false)
    decreases MembersHeight(MemberContents(ms)), |ms| + |ns|
  {
    if ms == [] || ns == [] {
      MembersKeepThemselves(ms);
      MembersKeepThemselves(ns);
    } else {
      hide *;
      FirstDistinct(ms);
      FirstDistinct(ns);
      SettleStep(ms, ns);
      TailHeight(ms);
      var diff := CompareStrings(ms[0].key, ns[0].key, false);
      assert ms == [ms[0]] + ms[1..] && ns == [ns[0]] + ns[1..];
      if diff == 0 {
        SettleKeeps(ms[0].value, ns[0].value);
        SettleRecordsKeep(ms[1..], ns[1..]);
        var r, rest := Settle(ms[0].value, ns[0].value), SettleRecords(ms[1..], ns[1..]);
        ConsKeeps(Member(ms[0].key, r.from), ms[0], rest.ms, ms[1..]);
        ConsKeeps(Member(ns[0].key, r.to), ns[0], rest.ns, ns[1..]);
      } else if diff < 0 {
        SettleRecordsKeep(ms[1..], ns);
        ConsKeeps(ms[0], ms[0], SettleRecords(ms[1..], ns).ms, ms[1..]);
      } else {
        SettleRecordsKeep(ms, ns[1..]);
        ConsKeeps(ns[0], ns[0], SettleRecords(ms, ns[1..]).ns, ns[1..]);
      }
    }
  }

  /** One step of the walk. */
  lemma SettleStep(ms: seq<Member<Tree>>, ns: seq<Member<Tree>>)
    requires ms != [] && ns != []
    ensures var diff, r := CompareStrings(ms[0].key, ns[0].key, false), Settle(ms[0].value, ns[0].value);
            SettleRecords(ms, ns) ==
            if diff == 0 then
              var rest := SettleRecords(ms[1..], ns[1..]);
              SettledRecords([Member(ms[0].key, r.from)] + rest.ms, [Member(ns[0].key, r.to)] + rest.ns)
            else if diff < 0 then
              var rest := SettleRecords(ms[1..], ns);
              SettledRecords([ms[0]] + rest.ms, rest.ns)
            else
              var rest := SettleRecords(ms, ns[1..]);
              SettledRecords(rest.ms, [ns[0]] + rest.ns)
  {
    hide Settle, CompareStrings;
  }

  lemma TailHeight(ms: seq<Member<Tree>>)
    requires ms != []
    ensures MembersHeight(MemberContents(ms[1..])) <= MembersHeight(MemberContents(ms))
  {
    ContentTail(ms);
    hide MemberContents, Content;
  }

  lemma FirstDistinct(ms: seq<Member<Tree>>)
    requires ms != [] && DistinctValues(MemberContents(ms), false)
    ensures Distinct(Content(ms[0].value), false) && DistinctValues(MemberContents(ms[1..]), false)
    ensures Kept(Content(ms[0].value), Content(ms[0].value), false)
    ensures Height(Content(ms[0].value)) <= MembersHeight(MemberContents(ms))
  {
    var js := MemberContents(ms);
    ContentTail(ms);
    FirstOf(js);
    hide *;
    KeptSame(js[0].value);
  }

  lemma FirstOf(js: seq<Member<Json>>)
    requires js != [] && DistinctValues(js, false)
    ensures Distinct(js[0].value, false) && DistinctValues(js[1..], false) && Height(js[0].value) <= MembersHeight(js)
  {
    hide Distinct, Height;
  }

  /** Generating puts no node into another list. */
  lemma {:induction false} SettleHome(from: Tree, to: Tree)
    requires Home(from)
    ensures Home(Settle(from, to).from)
    decreases Height(Content(from)), 0
  {
    hide *;
    if from.Record? && to.Record? {
      RecordHeight(from);
      RecordSettles(from, to);
      SortedHeight(from.members, false);
      HomeInside(from);
      SortHome(from.members, false);
      SettleRecordsHome(Sort(from.members, false), Sort(to.members, false));
      HomeOutside(from, SettleRecords(Sort(from.members, false), Sort(to.members, false)).ms, false);
    } else if from.List? && to.List? {
      ListSettles(from, to);
      SettleListsHome(from.items, to.items);
    } else {
      SettledAsIs(from, to);
    }
  }

  lemma ListSettles(from: Tree, to: Tree)
    requires from.List? && to.List?
    ensures var r := SettleLists(from.items, to.items).xs;
            && Settle(from, to).from == List(r, from.mark)
            && (Home(from) ==> HomeItems(from.items)) && (HomeItems(r) ==> Home(List(r, from.mark)))
    ensures ItemsHeight(Contents(from.items)) < Height(Content(from))
  {
    hide SettleLists;
  }

  lemma SettledAsIs(from: Tree, to: Tree)
    requires !(from.Record? && to.Record?) && !(from.List? && to.List?)
    ensures Settle(from, to).from == from
  {
  }

  lemma RecordSettles(from: Tree, to: Tree)
    requires from.Record? && to.Record?
    ensures var r := SettleRecords(Sort(from.members, false), Sort(to.members, false));
            Settle(from, to).from == Record(r.ms, BackAfter(from.members, from.back, false), from.mark)
  {
    hide Sort, BackAfter, SettleRecords, MemberContents;
  }

  lemma {:induction false} SettleListsHome(xs: seq<Tree>, ys: seq<Tree>)
    requires HomeItems(xs)
    ensures HomeItems(SettleLists(xs, ys).xs)
    decreases ItemsHeight(Contents(xs)), |xs|
  {
    if xs != [] && ys != [] {
      SettleHome(xs[0], ys[0]);
      SettleListsHome(xs[1..], ys[1..]);
      hide Settle, Home;
    }
  }

  lemma {:induction false} SettleRecordsHome(ms: seq<Member<Tree>>, ns: seq<Member<Tree>>)
    requires HomeMembers(ms)
    ensures HomeMembers(SettleRecords(ms, ns).ms)
    decreases MembersHeight(MemberContents(ms)), |ms| + |ns|
  {
    if ms != [] && ns != [] {
      SettleStep(ms, ns);
      ContentTail(ms);
      TailHeight(ms);
      hide Settle, SettleRecords, Home, CompareStrings;
      assert Home(ms[0].value);
      var diff := CompareStrings(ms[0].key, ns[0].key, false);
      if diff == 0 {
        SettleHome(ms[0].value, ns[0].value);
        SettleRecordsHome(ms[1..], ns[1..]);
      } else if diff < 0 {
        SettleRecordsHome(ms[1..], ns);
      } else {
        SettleRecordsHome(ms, ns[1..]);
      }
    }
  }

  /**
   Patching the very tree that the patches were generated from: unless some object's least
   member was not its first one and is lost, the tree means `to` afterwards; and if so, a list
   is broken, where no first member of the tree pointed at a node in another list before.
   */
  lemma PatchInPlace(from: Tree, to: Tree)
    requires Distinct(Content(from), false) && RawFree(Content(from)) && Addressable(Content(from))
    requires Distinct(Content(to), false) && RawFree(Content(to)) && Addressable(Content(to))
    ensures var t := Settle(from, to).from;
            var o := ApplyTrees(t, GeneratePatches(Content(from), Content(to)), false, true);
            && (!Upset(from, Content(to)) ==> o.Ran? && o.status == 0 && Means(Content(o.document), View(Content(to), false)))
            && (Upset(from, Content(to)) && Home(from) ==> o.Broken?)
  {
    SettleKeeps(from, to);
    UpsetClashes(from, to);
    hide Distinct, View, RawFree, Addressable, Clashes, Upset, ApplyTrees, GeneratePatches, Content, Settle, Consistent, Home;
    if Home(from) { SettleHome(from, to); }
    TreeRoundTrip(Settle(from, to).from, Content(from), Content(to));
  }

  // ---- The same condition on the operands as they were ----

  /**
   Before generating: somewhere in `from` an object's member with the least key is lost on the
   way to `to`, and it was not the first one, or points back already.
   */
  predicate Upset(t: Tree, to: Json) {
    match t
    case Scalar(_, _) => false
    case List(items, _) => to.Array? && exists i | 0 <= i < |items| && i < |to.items| :: Upset(items[i], to.items[i])
    case Record(members, back, _) =>
      to.Object? &&
      ((members != [] && !BackAfter(members, back, false).Nowhere? && Lost(Sort(members, false)[0], to.members)) ||
       exists i | 0 <= i < |members| ::
         var y := Partner(to.members, members[i].key); y.Some? && Upset(members[i].value, y.value))
  }

  predicate UpsetChild(m: Member<Tree>, ns: seq<Member<Json>>) {
    var y := Partner(ns, m.key);
    y.Some? && Upset(m.value, y.value)
  }

  predicate ClashChild(m: Member<Tree>, ns: seq<Member<Json>>) {
    var y := Partner(ns, m.key);
    y.Some? && Clashes(m.value, y.value)
  }

  /** Generating looks into a value exactly if the other object has the key. */
  function SettledValue(m: Member<Tree>, ns: seq<Member<Tree>>): Tree {
    var y := Partner(ns, m.key);
    if y.Some? then Settle(m.value, y.value).from else m.value
  }

  lemma {:induction false} SettledAt(ms: seq<Member<Tree>>, ns: seq<Member<Tree>>)
    requires StrictOrder(ms) && StrictOrder(ns)
    ensures var r := SettleRecords(ms, ns).ms;
            |r| == |ms| && forall i | 0 <= i < |ms| :: r[i] == Member(ms[i].key, SettledValue(ms[i], ns))
    decreases |ms| + |ns|
  {
    hide *;
    if ms == [] || ns == [] {
      SettledNot(ms, ns);
    } else {
      SettleStep(ms, ns);
      var diff := CompareStrings(ms[0].key, ns[0].key, false);
      PartnerTail(ms, ms[0].key);
      PartnerTail(ns, ns[0].key);
      SettledFirst(ms, ns);
      forall i | 0 <= i < |ms| && diff >= 0 && (i > 0 || diff > 0) ensures SettledValue(ms[i], ns[1..]) == SettledValue(ms[i], ns) {
        SettledLater(ms, ns, i);
      }
      if diff == 0 {
        SettledAt(ms[1..], ns[1..]);
      } else if diff < 0 {
        SettledAt(ms[1..], ns);
      } else {
        SettledAt(ms, ns[1..]);
      }
    }
  }

  lemma SettledNot(ms: seq<Member<Tree>>, ns: seq<Member<Tree>>)
    requires ms == [] || ns == []
    ensures SettleRecords(ms, ns).ms == ms && forall i | 0 <= i < |ms| :: SettledValue(ms[i], ns) == ms[i].value
  {
  }

  lemma SettledFirst(ms: seq<Member<Tree>>, ns: seq<Member<Tree>>)
    requires StrictOrder(ns) && ms != [] && ns != []
    ensures var diff := CompareStrings(ms[0].key, ns[0].key, false);
            && (diff == 0 ==> SettledValue(ms[0], ns) == Settle(ms[0].value, ns[0].value).from)
            && (diff < 0 ==> SettledValue(ms[0], ns) == ms[0].value)
  {
    CmpZero(Lower(ms[0].key), Lower(ns[0].key));
    PartnerTail(ns, ms[0].key);
    if CompareStrings(ms[0].key, ns[0].key, false) < 0 { PartnerBefore(ns, ms[0].key); }
    hide Settle, Partner, StrictOrder;
  }

  /** A later member, or the first one once the other list's first is passed by. */
  lemma SettledLater(ms: seq<Member<Tree>>, ns: seq<Member<Tree>>, i: nat)
    requires StrictOrder(ms) && StrictOrder(ns) && ns != [] && i < |ms|
    requires var diff := CompareStrings(ms[0].key, ns[0].key, false); diff >= 0 && (i > 0 || diff > 0)
    ensures SettledValue(ms[i], ns[1..]) == SettledValue(ms[i], ns)
  {
    PartnerTail(ns, ms[i].key);
    OrderDistinct(ms);
    CmpZero(Lower(ms[0].key), Lower(ns[0].key));
    if CompareStrings(ms[0].key, ns[0].key, false) > 0 {
      LaterThan(ms, ns[0].key, i);
    } else {
      assert Fold(ms[0].key, false) != Fold(ms[i].key, false);
    }
    hide Settle, Partner, StrictOrder;
  }

  lemma LaterThan(ms: seq<Member<Tree>>, key: string, i: nat)
    requires StrictOrder(ms) && i < |ms| && CompareStrings(ms[0].key, key, false) > 0
    ensures Lower(ms[i].key) != Lower(key)
  {
    CmpOpposite(Lower(key), Lower(ms[0].key));
    if i > 0 { CmpTransitive(Lower(key), Lower(ms[0].key), Lower(ms[i].key)); }
    CmpZero(Lower(key), Lower(ms[i].key));
  }

  lemma {:induction false} UpsetLists(xs: seq<Tree>, ys: seq<Tree>)
    requires DistinctItems(Contents(xs), false) && DistinctItems(Contents(ys), false)
    ensures var r := SettleLists(xs, ys).xs;
            |r| == |xs| && forall i | 0 <= i < |xs| && i < |ys| :: Clashes(r[i], Content(ys[i])) <==> Upset(xs[i], Content(ys[i]))
    decreases ItemsHeight(Contents(xs)), |xs| + 1
  {
    if xs != [] && ys != [] {
      assert Distinct(Contents(xs)[0], false) && Distinct(Contents(ys)[0], false);
      assert Contents(xs)[1..] == Contents(xs[1..]) && Contents(ys)[1..] == Contents(ys[1..]);
      hide Clashes, Upset, Content, Settle, Distinct;
      UpsetClashes(xs[0], ys[0]);
      UpsetLists(xs[1..], ys[1..]);
    }
  }

  lemma UpsetList(from: Tree, to: Tree)
    requires from.List? && to.List? && |SettleLists(from.items, to.items).xs| == |from.items|
    requires forall i | 0 <= i < |from.items| && i < |to.items| ::
               Clashes(SettleLists(from.items, to.items).xs[i], Content(to.items[i])) <==> Upset(from.items[i], Content(to.items[i]))
    ensures Clashes(Settle(from, to).from, Content(to)) <==> Upset(from, Content(to))
  {
    hide Lost, Partner, BackAfter, Sort, SettleLists, SettleRecords;
    var r := SettleLists(from.items, to.items).xs;
    assert Settle(from, to).from == List(r, from.mark);
    assert Content(to) == Array(Contents(to.items));
    hide Settle, Content;
  }

  /** What the member of the other object is, sorted or not, as a node or by its content. */
  lemma SortedPartner(ts: seq<Member<Tree>>, key: string)
    requires DistinctKeys(ts, false)
    ensures var p, y := Partner(Sort(ts, false), key), Partner(MemberContents(ts), key);
            p.Some? == y.Some? && (p.Some? ==> y == Some(Content(p.value)))
    ensures var p := Partner(Sort(ts, false), key);
            p.Some? ==> exists i :: 0 <= i < |ts| && ts[i].value == p.value
  {
    PartnerSorted(ts, key);
    FindInContent(ts, key, false);
    var i := FindMember(ts, key, false);
    hide Sort, Fold, MemberContents, Content;
  }

  /** One member of the sorted object, before and after generating. */
  lemma {:induction false} UpsetMember(m: Member<Tree>, ns: seq<Member<Tree>>)
    requires Distinct(Content(m.value), false) && Distinct(Object(MemberContents(ns)), false)
    ensures var after, js := Member(m.key, SettledValue(m, Sort(ns, false))), MemberContents(ns);
            && (ClashChild(after, js) <==> UpsetChild(m, js))
            && (Lost(after, js) <==> Lost(m, js))
    decreases Height(Content(m.value)), 2
  {
    ContentKeys(ns);
    SortedPartner(ns, m.key);
    var p := Partner(Sort(ns, false), m.key);
    if p.Some? {
      var i :| 0 <= i < |ns| && ns[i].value == p.value;
      assert Distinct(MemberContents(ns)[i].value, false);
      UpsetClashes(m.value, p.value);
      SettleKeeps(m.value, p.value);
      KeptView(Content(Settle(m.value, p.value).from), Content(m.value));
      WholeByView(Content(Settle(m.value, p.value).from), Content(m.value), Content(p.value));
    }
    hide Sort, Settle, Clashes, Upset, Whole, Content, MemberContents, Distinct, Kept;
  }

  lemma KeptView(a: Json, b: Json)
    requires Kept(a, b, false)
    ensures View(a, false) == View(b, false)
  {
  }

  ghost predicate AnyUpset(ms: seq<Member<Tree>>, ns: seq<Member<Json>>) {
    exists i :: 0 <= i < |ms| && UpsetChild(ms[i], ns)
  }

  ghost predicate AnyClashing(ms: seq<Member<Tree>>, ns: seq<Member<Json>>) {
    exists i :: 0 <= i < |ms| && ClashChild(ms[i], ns)
  }

  lemma UpsetSorted(ms: seq<Member<Tree>>, ns: seq<Member<Json>>)
    ensures AnyUpset(Sort(ms, false), ns) <==> AnyUpset(ms, ns)
  {
    SortPermutes(ms, false);
    var s := Sort(ms, false);
    hide Sort, UpsetChild;
    if AnyUpset(ms, ns) {
      var i :| 0 <= i < |ms| && UpsetChild(ms[i], ns);
      assert ms[i] in multiset(s);
      var k :| 0 <= k < |s| && s[k] == ms[i];
    }
    if AnyUpset(s, ns) {
      var i :| 0 <= i < |s| && UpsetChild(s[i], ns);
      assert s[i] in multiset(ms);
      var k :| 0 <= k < |ms| && ms[k] == s[i];
    }
  }

  lemma RecordClashes(ms: seq<Member<Tree>>, back: Back, mark: nat, ns: seq<Member<Json>>)
    ensures Clashes(Record(ms, back, mark), Object(ns)) <==> (!back.Nowhere? && ms != [] && Lost(ms[0], ns)) || AnyClashing(ms, ns)
  {
    hide Lost, Partner;
    if AnyClashing(ms, ns) {
      var i :| 0 <= i < |ms| && ClashChild(ms[i], ns);
      assert Partner(ns, ms[i].key).Some?;
    }
    if exists i | 0 <= i < |ms| :: var y := Partner(ns, ms[i].key); y.Some? && Clashes(ms[i].value, y.value) {
      var i :| 0 <= i < |ms| && var y := Partner(ns, ms[i].key); y.Some? && Clashes(ms[i].value, y.value);
      assert ClashChild(ms[i], ns);
    }
  }

  lemma RecordUpset(ms: seq<Member<Tree>>, back: Back, mark: nat, ns: seq<Member<Json>>)
    ensures Upset(Record(ms, back, mark), Object(ns)) <==>
            (ms != [] && !BackAfter(ms, back, false).Nowhere? && Lost(Sort(ms, false)[0], ns)) || AnyUpset(ms, ns)
  {
    hide Lost, Partner, BackAfter, Sort;
    if AnyUpset(ms, ns) {
      var i :| 0 <= i < |ms| && UpsetChild(ms[i], ns);
      assert Partner(ns, ms[i].key).Some?;
    }
    if exists i | 0 <= i < |ms| :: var y := Partner(ns, ms[i].key); y.Some? && Upset(ms[i].value, y.value) {
      var i :| 0 <= i < |ms| && var y := Partner(ns, ms[i].key); y.Some? && Upset(ms[i].value, y.value);
      assert UpsetChild(ms[i], ns);
    }
  }

  lemma SortedChildren(ms: seq<Member<Tree>>)
    requires Distinct(Object(MemberContents(ms)), false)
    ensures var s := Sort(ms, false);
            && StrictOrder(s) && DistinctKeys(ms, false)
            && forall i | 0 <= i < |s| :: Distinct(Content(s[i].value), false) && Height(Content(s[i].value)) <= MembersHeight(MemberContents(ms))
  {
    ContentKeys(ms);
    SortStrict(ms);
    SortPermutes(ms, false);
    var s, js := Sort(ms, false), MemberContents(ms);
    forall i | 0 <= i < |s|
      ensures Distinct(Content(s[i].value), false) && Height(Content(s[i].value)) <= MembersHeight(js)
    {
      assert s[i] in multiset(ms);
      var k :| 0 <= k < |ms| && ms[k] == s[i];
      assert Distinct(js[k].value, false) && Height(js[k].value) <= MembersHeight(js);
    }
    hide Sort, Distinct, Height;
  }

  lemma {:induction false} UpsetRecords(from: Tree, to: Tree)
    requires Distinct(Content(from), false) && Distinct(Content(to), false) && from.Record? && to.Record?
    ensures Clashes(Settle(from, to).from, Content(to)) <==> Upset(from, Content(to))
    decreases Height(Content(from)), 0
  {
    var ms, ts := from.members, to.members;
    var s, ns, js := Sort(ms, false), Sort(ts, false), MemberContents(ts);
    var r := SettleRecords(s, ns).ms;
    assert Settle(from, to).from == Record(r, BackAfter(ms, from.back, false), from.mark);
    assert Content(to) == Object(js) && Content(from) == Object(MemberContents(ms));
    RecordHeight(from);
    SortedChildren(ms);
    SortedChildren(ts);
    SettledAt(s, ns);
    RecordClashes(r, BackAfter(ms, from.back, false), from.mark, js);
    RecordUpset(ms, from.back, from.mark, js);
    UpsetSorted(ms, js);
    assert |s| == |ms|;
    hide *;
    forall i | 0 <= i < |s| ensures (ClashChild(r[i], js) <==> UpsetChild(s[i], js)) && (Lost(r[i], js) <==> Lost(s[i], js)) {
      UpsetMember(s[i], ts);
    }
    SameAny(r, s, js);
  }

  lemma SameAny(r: seq<Member<Tree>>, s: seq<Member<Tree>>, ns: seq<Member<Json>>)
    requires |r| == |s| && forall i | 0 <= i < |s| :: ClashChild(r[i], ns) <==> UpsetChild(s[i], ns)
    ensures AnyClashing(r, ns) <==> AnyUpset(s, ns)
  {
    hide ClashChild, UpsetChild;
    if AnyUpset(s, ns) {
      var i :| 0 <= i < |s| && UpsetChild(s[i], ns);
      assert ClashChild(r[i], ns);
    }
  }

  /** The condition on the sorted tree is the condition on the tree as it was. */
  lemma {:induction false} UpsetClashes(from: Tree, to: Tree)
    requires Distinct(Content(from), false) && Distinct(Content(to), false)
    ensures Clashes(Settle(from, to).from, Content(to)) <==> Upset(from, Content(to))
    decreases Height(Content(from)), 1
  {
    if SameType(Content(from), Content(to)) {
      match from
      case Scalar(_, _) =>
      case List(items, _) =>
        UpsetLists(items, to.items);
        UpsetList(from, to);
      case Record(members, _, _) => UpsetRecords(from, to);
    }
    hide Lost, Partner, Sort;
  }

  // ---- generate_merge_patch ----

  datatype Generated = Generated(patch: Option<Json>, from: Tree, to: Tree)
  datatype RecordsGenerated = RecordsGenerated(patch: seq<Member<Json>>, ms: seq<Member<Tree>>, ns: seq<Member<Tree>>)

  /** The patch, and both operands as comparing and sorting leave them. */
  function GenerateTree(from: Tree, to: Tree): Generated
    decreases Height(Content(from)), 0
  {
    if !to.Record? || !from.Record? then Generated(Some(Content(to)), from, to)
    else
      SortedHeight(from.members, false);
      var r := GenerateRecords(Sort(from.members, false), Sort(to.members, false));
      Generated(if r.patch == [] then None else Some(Object(r.patch)),
                Record(r.ms, BackAfter(from.members, from.back, false), from.mark),
                Record(r.ns, BackAfter(to.members, to.back, false), to.mark))
  }

  function GenerateRecords(ms: seq<Member<Tree>>, ns: seq<Member<Tree>>): RecordsGenerated
    decreases MembersHeight(MemberContents(ms)), |ms| + |ns|
  {
    if ms == [] && ns == [] then RecordsGenerated([], [], [])
    else
      var diff := if ms == [] then 1 else if ns == [] then -1 else Cmp(ms[0].key, ns[0].key);
      if diff < 0 then
        var rest := GenerateRecords(ms[1..], ns);
        RecordsGenerated([Member(ms[0].key, Null)] + rest.patch, [ms[0]] + rest.ms, rest.ns)
      else if diff > 0 then
        var rest := GenerateRecords(ms, ns[1..]);
        RecordsGenerated([Member(ns[0].key, Content(ns[0].value))] + rest.patch, rest.ms, [ns[0]] + rest.ns)
      else
        var r, rest := GenerateValue(ms[0], ns[0]), GenerateRecords(ms[1..], ns[1..]);
        RecordsGenerated((if r.patch.None? then [] else [Member(ns[0].key, r.patch.value)]) + rest.patch,
                         [Member(ms[0].key, r.from)] + rest.ms, [Member(ns[0].key, r.to)] + rest.ns)
  }

  /** A key in both objects. */
  function GenerateValue(m: Member<Tree>, n: Member<Tree>): Generated
    decreases Height(Content(m.value)), 1
  {
    var c := CompareTree(m.value, n.value, false);
    if c.equal then Generated(None, c.a, c.b)
    else
      CompareContent(m.value, n.value, false);
      CompareAlike(Content(m.value), Content(n.value));
      GenerateTree(c.a, c.b)
  }

  /** The patch is the one generated from the contents. */
  lemma {:induction false} GenerateContent(from: Tree, to: Tree)
    ensures GenerateTree(from, to).patch == Generate(Content(from), Content(to))
    decreases Height(Content(from)), 0
  {
    if to.Record? && from.Record? {
      var ms, ns := Sort(from.members, false), Sort(to.members, false);
      SortedHeight(from.members, false);
      RecordHeight(from);
      ObjectsGenerate(from, to);
      hide *;
      GenerateRecordsContent(ms, ns);
    }
  }

  lemma ObjectsGenerate(from: Tree, to: Tree)
    requires from.Record? && to.Record?
    ensures var ms, ns := Sort(from.members, false), Sort(to.members, false);
            var p, q := GenerateRecords(ms, ns).patch, GenerateMembers(MemberContents(ms), MemberContents(ns));
            && GenerateTree(from, to).patch == (if p == [] then None else Some(Object(p)))
            && Generate(Content(from), Content(to)) == (if q == [] then None else Some(Object(q)))
  {
    ContentSorts(from.members, false);
    ContentSorts(to.members, false);
    hide Sort, GenerateRecords, GenerateMembers, BackAfter, MemberContents, FirstStays;
  }

  lemma {:induction false} GenerateRecordsContent(ms: seq<Member<Tree>>, ns: seq<Member<Tree>>)
    ensures GenerateRecords(ms, ns).patch == GenerateMembers(MemberContents(ms), MemberContents(ns))
    decreases MembersHeight(MemberContents(ms)), |ms| + |ns|
  {
    if ms != [] || ns != [] {
      var diff := if ms == [] then 1 else if ns == [] then -1 else Cmp(ms[0].key, ns[0].key);
      if ms != [] { ContentTail(ms); }
      if ns != [] { ContentTail(ns); }
      assert ms != [] ==> Height(Content(ms[0].value)) <= MembersHeight(MemberContents(ms));
      hide Cmp, GenerateValue, GenerateChild, Content, MemberContents;
      if diff < 0 {
        GenerateRecordsContent(ms[1..], ns);
      } else if diff > 0 {
        GenerateRecordsContent(ms, ns[1..]);
      } else {
        GenerateValueContent(ms[0], ns[0]);
        GenerateRecordsContent(ms[1..], ns[1..]);
      }
    }
  }

  lemma {:induction false} GenerateValueContent(m: Member<Tree>, n: Member<Tree>)
    ensures var r := GenerateValue(m, n);
            GenerateChild(Member(m.key, Content(m.value)), Member(n.key, Content(n.value))) ==
            if r.patch.None? then [] else [Member(n.key, r.patch.value)]
    decreases Height(Content(m.value)), 1
  {
    hide CompareTree, CompareJson, GenerateTree, Generate, Height, NoNullMembers;
    CompareContent(m.value, n.value, false);
    CompareAlike(Content(m.value), Content(n.value));
    var c := CompareTree(m.value, n.value, false);
    if !c.equal { GenerateContent(c.a, c.b); }
  }

  /** Neither operand has changed what it means. */
  lemma {:induction false} GenerateKeeps(from: Tree, to: Tree)
    requires Distinct(Content(from), false) && Distinct(Content(to), false)
    ensures var r := GenerateTree(from, to); Kept(Content(r.from), Content(from), false) && Kept(Content(r.to), Content(to), false)
    decreases Height(Content(from)), 0
  {
    KeptSame(Content(from));
    KeptSame(Content(to));
    if to.Record? && from.Record? {
      SortedHeight(from.members, false);
      SortedValues(from.members);
      SortedValues(to.members);
      hide Kept, KeptMembers, GenerateRecords, MemberContents, Sort, BackAfter;
      GenerateRecordsKeep(Sort(from.members, false), Sort(to.members, false));
      var r := GenerateRecords(Sort(from.members, false), Sort(to.members, false));
      RecordKeeps(r.ms, from.members);
      RecordKeeps(r.ns, to.members);
    }
  }

  lemma {:induction false} GenerateRecordsKeep(ms: seq<Member<Tree>>, ns: seq<Member<Tree>>)
    requires DistinctValues(MemberContents(ms), false) && DistinctValues(MemberContents(ns), false)
    ensures var r := GenerateRecords(ms, ns);
            KeptMembers(MemberContents(r.ms), MemberContents(ms), false) && KeptMembers(MemberContents(r.ns), MemberContents(ns), false)
    decreases MembersHeight(MemberContents(ms)), |ms| + |ns|
  {
    hide *;
    if ms == [] && ns == [] {
      NothingKept();
    } else {
      var diff := if ms == [] then 1 else if ns == [] then -1 else Cmp(ms[0].key, ns[0].key);
      if ms != [] { FirstDistinct(ms); TailHeight(ms); assert ms == [ms[0]] + ms[1..]; }
      if ns != [] { FirstDistinct(ns); assert ns == [ns[0]] + ns[1..]; }
      GenerateStep(ms, ns);
      if diff < 0 {
        GenerateRecordsKeep(ms[1..], ns);
        ConsKeeps(ms[0], ms[0], GenerateRecords(ms[1..], ns).ms, ms[1..]);
      } else if diff > 0 {
        GenerateRecordsKeep(ms, ns[1..]);
        ConsKeeps(ns[0], ns[0], GenerateRecords(ms, ns[1..]).ns, ns[1..]);
      } else {
        GenerateValueKeeps(ms[0], ns[0]);
        GenerateRecordsKeep(ms[1..], ns[1..]);
        var r, rest := GenerateValue(ms[0], ns[0]), GenerateRecords(ms[1..], ns[1..]);
        ConsKeeps(Member(ms[0].key, r.from), ms[0], rest.ms, ms[1..]);
        ConsKeeps(Member(ns[0].key, r.to), ns[0], rest.ns, ns[1..]);
      }
    }
  }

  lemma NothingKept()
    ensures var r := GenerateRecords([], []);
            KeptMembers(MemberContents(r.ms), MemberContents([]), false) && KeptMembers(MemberContents(r.ns), MemberContents([]), false)
  {
  }

  /** One step of the walk. */
  lemma GenerateStep(ms: seq<Member<Tree>>, ns: seq<Member<Tree>>)
    requires ms != [] || ns != []
    ensures var diff := if ms == [] then 1 else if ns == [] then -1 else Cmp(ms[0].key, ns[0].key);
            GenerateRecords(ms, ns) ==
            if diff < 0 then
              var rest := GenerateRecords(ms[1..], ns);
              RecordsGenerated([Member(ms[0].key, Null)] + rest.patch, [ms[0]] + rest.ms, rest.ns)
            else if diff > 0 then
              var rest := GenerateRecords(ms, ns[1..]);
              RecordsGenerated([Member(ns[0].key, Content(ns[0].value))] + rest.patch, rest.ms, [ns[0]] + rest.ns)
            else
              var r, rest := GenerateValue(ms[0], ns[0]), GenerateRecords(ms[1..], ns[1..]);
              RecordsGenerated((if r.patch.None? then [] else [Member(ns[0].key, r.patch.value)]) + rest.patch,
                               [Member(ms[0].key, r.from)] + rest.ms, [Member(ns[0].key, r.to)] + rest.ns)
  {
    hide GenerateValue, Cmp, Content;
  }

  lemma {:induction false} GenerateValueKeeps(m: Member<Tree>, n: Member<Tree>)
    requires Distinct(Content(m.value), false) && Distinct(Content(n.value), false)
    ensures var r := GenerateValue(m, n);
            Kept(Content(r.from), Content(m.value), false) && Kept(Content(r.to), Content(n.value), false)
    decreases Height(Content(m.value)), 1
  {
    CompareContent(m.value, n.value, false);
    CompareJsonKeeps(Content(m.value), Content(n.value), false, false);
    CompareAlike(Content(m.value), Content(n.value));
    var c := CompareTree(m.value, n.value, false);
    if !c.equal {
      KeptDistinct(Content(c.a), Content(m.value));
      KeptDistinct(Content(c.b), Content(n.value));
      hide CompareTree, CompareJson, Kept, Distinct, GenerateTree, NoNullMembers;
      GenerateKeeps(c.a, c.b);
      var r := GenerateTree(c.a, c.b);
      KeptTwice(Content(r.from), Content(c.a), Content(m.value));
      KeptTwice(Content(r.to), Content(c.b), Content(n.value));
    }
  }

  lemma KeptDistinct(a: Json, b: Json)
    requires Kept(a, b, false)
    ensures Distinct(a, false)
  {
  }
}
