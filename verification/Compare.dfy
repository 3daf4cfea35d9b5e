/**
 The two equality tests: `cJSON_Compare`, which looks members up in both directions,
 and `compare_json`, which sorts both objects in place and walks them side by side.
 */
module Compare {
  import opened CString
  import opened Json
  import opened MemberSort

  // ---- cJSON_Compare ----

  predicate SameType(a: Json, b: Json) {
    match a
    case Invalid => b.Invalid?
    case False => b.False?
    case True => b.True?
    case Null => b.Null?
    case Number(_, _) => b.Number?
    case String(_) => b.String?
    case Raw(_) => b.Raw?
    case Array(_) => b.Array?
    case Object(_) => b.Object?
  }

  predicate LookupCompare(a: Json, b: Json, caseSensitive: bool)
    decreases Height(a) + Height(b), 0
  {
    SameType(a, b) &&
    match a
    case Invalid => false
    case False => true
    case True => true
    case Null => true
    case Number(d, _) => d == b.valuedouble
    case String(s) => s == b.text
    case Raw(s) => s == b.raw
    case Array(items) => LookupItems(items, b.items, caseSensitive)
    case Object(members) =>
      LookupMembers(members, b.members, caseSensitive) && LookupMembers(b.members, members, caseSensitive)
  }

  predicate LookupItems(xs: seq<Json>, ys: seq<Json>, caseSensitive: bool)
    decreases ItemsHeight(xs) + ItemsHeight(ys), 1
  {
    |xs| == |ys| && forall i | 0 <= i < |xs| :: LookupCompare(xs[i], ys[i], caseSensitive)
  }

  /** One of the two loops over members: each has an equal partner in the other object. */
  predicate LookupMembers(ms: seq<Member<Json>>, ns: seq<Member<Json>>, caseSensitive: bool)
    decreases MembersHeight(ms) + MembersHeight(ns), 1
  {
    forall i | 0 <= i < |ms| ::
      var k := FindMember(ns, ms[i].key, caseSensitive);
      k < |ns| && LookupCompare(ms[i].value, ns[k].value, caseSensitive)
  }

  // ---- compare_json ----

  /** The verdict, and what in-place sorting has made of the two trees. */
  datatype Compared = Compared(equal: bool, a: Json, b: Json)
  datatype ComparedItems = ComparedItems(equal: bool, xs: seq<Json>, ys: seq<Json>)
  datatype ComparedMembers = ComparedMembers(equal: bool, ms: seq<Member<Json>>, ns: seq<Member<Json>>)

  lemma {:induction false} HeightOfSubset(a: seq<Member<Json>>, b: seq<Member<Json>>)
    requires forall m | m in b :: m in a
    ensures MembersHeight(b) <= MembersHeight(a)
  {
    if b != [] {
      assert b[0] in a;
      var i :| 0 <= i < |a| && a[i] == b[0];
      assert Height(a[i].value) <= MembersHeight(a);
      HeightOfSubset(a, b[1..]);
    }
  }

  lemma SortHeight(ms: seq<Member<Json>>, caseSensitive: bool)
    ensures MembersHeight(Sort(ms, caseSensitive)) <= MembersHeight(ms)
  {
    SortPermutes(ms, caseSensitive);
    forall m | m in Sort(ms, caseSensitive) ensures m in ms {
      assert m in multiset(ms);
    }
    HeightOfSubset(ms, Sort(ms, caseSensitive));
  }

  function CompareJson(a: Json, b: Json, caseSensitive: bool): Compared
    decreases Height(a), 0
  {
    if !SameType(a, b) then Compared(false, a, b)
    else
      match a
      case Number(d, n) => Compared(d == b.valuedouble && n == b.valueint, a, b)
      case String(s) => Compared(s == b.text, a, b)
      case Array(items) =>
        var r := CompareItems(items, b.items, caseSensitive);
        Compared(r.equal, Array(r.xs), Array(r.ys))
      case Object(members) =>
        SortHeight(members, caseSensitive);
        var r := CompareMembers(Sort(members, caseSensitive), Sort(b.members, caseSensitive), caseSensitive);
        Compared(r.equal, Object(r.ms), Object(r.ns))
      case _ => Compared(true, a, b)
  }

  function CompareItems(xs: seq<Json>, ys: seq<Json>, caseSensitive: bool): ComparedItems
    decreases ItemsHeight(xs), |xs|
  {
    if xs == [] || ys == [] then ComparedItems(xs == [] && ys == [], xs, ys)
    else
      var r := CompareJson(xs[0], ys[0], caseSensitive);
      if !r.equal then ComparedItems(false, [r.a] + xs[1..], [r.b] + ys[1..])
      else
        var rest := CompareItems(xs[1..], ys[1..], caseSensitive);
        ComparedItems(rest.equal, [r.a] + rest.xs, [r.b] + rest.ys)
  }

  function CompareMembers(ms: seq<Member<Json>>, ns: seq<Member<Json>>, caseSensitive: bool): ComparedMembers
    decreases MembersHeight(ms), |ms|
  {
    if ms == [] || ns == [] then ComparedMembers(ms == [] && ns == [], ms, ns)
    else if CompareStrings(ms[0].key, ns[0].key, caseSensitive) != 0 then ComparedMembers(false, ms, ns)
    else
      var r := CompareJson(ms[0].value, ns[0].value, caseSensitive);
      var m, n := Member(ms[0].key, r.a), Member(ns[0].key, r.b);
      if !r.equal then ComparedMembers(false, [m] + ms[1..], [n] + ns[1..])
      else
        var rest := CompareMembers(ms[1..], ns[1..], caseSensitive);
        ComparedMembers(rest.equal, [m] + rest.ms, [n] + rest.ns)
  }

  // ---- In-place sorting does not change what either tree means ----

  /** `after` still means what `before` meant, and is as well formed. */
  ghost predicate Kept(after: Json, before: Json, caseSensitive: bool) {
    && View(after, caseSensitive) == View(before, caseSensitive)
    && Distinct(after, caseSensitive)
    && (RawFree(before) ==> RawFree(after))
    && (Consistent(before) ==> Consistent(after))
  }

  ghost predicate KeptItems(after: seq<Json>, before: seq<Json>, caseSensitive: bool) {
    |after| == |before| && forall i | 0 <= i < |after| :: Kept(after[i], before[i], caseSensitive)
  }

  ghost predicate KeptMembers(after: seq<Member<Json>>, before: seq<Member<Json>>, caseSensitive: bool) {
    |after| == |before| &&
    forall i | 0 <= i < |after| ::
      after[i].key == before[i].key && Kept(after[i].value, before[i].value, caseSensitive)
  }

  lemma {:induction false} KeptItemsView(after: seq<Json>, before: seq<Json>, caseSensitive: bool)
    requires KeptItems(after, before, caseSensitive)
    ensures Kept(Array(after), Array(before), caseSensitive)
  {
    assert ViewItems(after, caseSensitive) == ViewItems(before, caseSensitive);
    if RawFreeItems(before) {
      assert forall i | 0 <= i < |after| :: Kept(after[i], before[i], caseSensitive) && RawFree(before[i]);
    }
    if ConsistentItems(before) {
      assert forall i | 0 <= i < |after| :: Kept(after[i], before[i], caseSensitive) && Consistent(before[i]);
    }
  }

  lemma {:induction false} KeptMembersView(after: seq<Member<Json>>, before: seq<Member<Json>>, caseSensitive: bool)
    requires KeptMembers(after, before, caseSensitive)
    ensures ViewMembers(after, caseSensitive) == ViewMembers(before, caseSensitive)
  {
    if before != [] {
      KeptMembersView(after[1..], before[1..], caseSensitive);
    }
  }

  lemma KeptObject(after: seq<Member<Json>>, before: seq<Member<Json>>, caseSensitive: bool)
    requires KeptMembers(after, before, caseSensitive) && DistinctKeys(before, caseSensitive)
    ensures Kept(Object(after), Object(before), caseSensitive)
  {
    KeptMembersView(after, before, caseSensitive);
    forall i | 0 <= i < |after|
      ensures (RawFreeValues(before) ==> RawFree(after[i].value))
      ensures (ConsistentValues(before) ==> Consistent(after[i].value))
    {
      assert Kept(after[i].value, before[i].value, caseSensitive);
    }
  }

  lemma SortKeeps(ms: seq<Member<Json>>, sorting: bool, caseSensitive: bool)
    requires Distinct(Object(ms), caseSensitive)
    ensures Kept(Object(Sort(ms, sorting)), Object(ms), caseSensitive)
  {
    SortPermutes(ms, sorting);
    SortKeepsView(ms, sorting, caseSensitive);
    var r := Sort(ms, sorting);
    forall i | 0 <= i < |r|
      ensures Distinct(r[i].value, caseSensitive)
      ensures (RawFreeValues(ms) ==> RawFree(r[i].value)) && (ConsistentValues(ms) ==> Consistent(r[i].value))
    {
      assert r[i] in multiset(ms);
    }
  }

  lemma {:induction false} CompareJsonKeeps(a: Json, b: Json, sorting: bool, caseSensitive: bool)
    requires Distinct(a, caseSensitive) && Distinct(b, caseSensitive)
    ensures Kept(CompareJson(a, b, sorting).a, a, caseSensitive)
    ensures Kept(CompareJson(a, b, sorting).b, b, caseSensitive)
    decreases Height(a), 0
  {
    if SameType(a, b) {
      match a
      case Array(items) =>
        CompareItemsKeeps(items, b.items, sorting, caseSensitive);
        var r := CompareItems(items, b.items, sorting);
        KeptItemsView(r.xs, items, caseSensitive);
        KeptItemsView(r.ys, b.items, caseSensitive);
      case Object(members) =>
        var ms, ns := Sort(members, sorting), Sort(b.members, sorting);
        SortHeight(members, sorting);
        SortKeeps(members, sorting, caseSensitive);
        SortKeeps(b.members, sorting, caseSensitive);
        CompareMembersKeeps(ms, ns, sorting, caseSensitive);
        var r := CompareMembers(ms, ns, sorting);
        KeptObject(r.ms, ms, caseSensitive);
        KeptObject(r.ns, ns, caseSensitive);
      case _ =>
    }
  }

  lemma KeptConsItems(x: Json, x0: Json, xs: seq<Json>, xs0: seq<Json>, caseSensitive: bool)
    requires Kept(x, x0, caseSensitive) && KeptItems(xs, xs0, caseSensitive)
    ensures KeptItems([x] + xs, [x0] + xs0, caseSensitive)
  { }

  lemma {:induction false} CompareItemsKeeps(xs: seq<Json>, ys: seq<Json>, sorting: bool, caseSensitive: bool)
    requires DistinctItems(xs, caseSensitive) && DistinctItems(ys, caseSensitive)
    ensures KeptItems(CompareItems(xs, ys, sorting).xs, xs, caseSensitive)
    ensures KeptItems(CompareItems(xs, ys, sorting).ys, ys, caseSensitive)
    decreases ItemsHeight(xs), |xs|
  {
    if xs != [] && ys != [] {
      assert Distinct(xs[0], caseSensitive) && Distinct(ys[0], caseSensitive);
      assert DistinctItems(xs[1..], caseSensitive) && DistinctItems(ys[1..], caseSensitive);
      hide Kept, KeptItems, CompareJson, View, Distinct, DistinctItems;
      CompareJsonKeeps(xs[0], ys[0], sorting, caseSensitive);
      CompareItemsKeeps(xs[1..], ys[1..], sorting, caseSensitive);
      var c, rest := CompareJson(xs[0], ys[0], sorting), CompareItems(xs[1..], ys[1..], sorting);
      KeptRest(xs, c.a, rest.xs, caseSensitive);
      KeptRest(ys, c.b, rest.ys, caseSensitive);
    } else {
      KeptItself(xs, caseSensitive);
      KeptItself(ys, caseSensitive);
    }
  }

  lemma KeptItself(xs: seq<Json>, caseSensitive: bool)
    requires DistinctItems(xs, caseSensitive)
    ensures KeptItems(xs, xs, caseSensitive)
  {
  }

  /** Whether the walk stops after the first element or goes on. */
  lemma KeptRest(xs: seq<Json>, x: Json, rest: seq<Json>, caseSensitive: bool)
    requires xs != [] && DistinctItems(xs[1..], caseSensitive)
    requires Kept(x, xs[0], caseSensitive) && KeptItems(rest, xs[1..], caseSensitive)
    ensures KeptItems([x] + rest, xs, caseSensitive) && KeptItems([x] + xs[1..], xs, caseSensitive)
  {
    KeptItself(xs[1..], caseSensitive);
    assert xs == [xs[0]] + xs[1..];
    hide Kept, KeptItems, DistinctItems;
    KeptConsItems(x, xs[0], rest, xs[1..], caseSensitive);
    KeptConsItems(x, xs[0], xs[1..], xs[1..], caseSensitive);
  }

  lemma {:induction false} CompareMembersKeeps(
    ms: seq<Member<Json>>, ns: seq<Member<Json>>, sorting: bool, caseSensitive: bool)
    requires DistinctValues(ms, caseSensitive) && DistinctValues(ns, caseSensitive)
    ensures KeptMembers(CompareMembers(ms, ns, sorting).ms, ms, caseSensitive)
    ensures KeptMembers(CompareMembers(ms, ns, sorting).ns, ns, caseSensitive)
    decreases MembersHeight(ms), |ms|
  {
    if ms != [] && ns != [] {
      assert Distinct(ms[0].value, caseSensitive) && Distinct(ns[0].value, caseSensitive);
      assert DistinctValues(ms[1..], caseSensitive) && DistinctValues(ns[1..], caseSensitive);
      hide Kept, KeptMembers, CompareJson, View, Distinct, DistinctValues, CompareStrings;
      CompareJsonKeeps(ms[0].value, ns[0].value, sorting, caseSensitive);
      CompareMembersKeeps(ms[1..], ns[1..], sorting, caseSensitive);
      var c := CompareJson(ms[0].value, ns[0].value, sorting);
      var rest := CompareMembers(ms[1..], ns[1..], sorting);
      KeptWalk(ms, Member(ms[0].key, c.a), rest.ms, caseSensitive);
      KeptWalk(ns, Member(ns[0].key, c.b), rest.ns, caseSensitive);
    }
  }

  /** Whether the walk stops after the first member or goes on. */
  lemma KeptWalk(ms: seq<Member<Json>>, m: Member<Json>, rest: seq<Member<Json>>, caseSensitive: bool)
    requires ms != [] && DistinctValues(ms[1..], caseSensitive)
    requires m.key == ms[0].key && Kept(m.value, ms[0].value, caseSensitive)
    requires KeptMembers(rest, ms[1..], caseSensitive)
    ensures KeptMembers([m] + rest, ms, caseSensitive) && KeptMembers([m] + ms[1..], ms, caseSensitive)
  { }

  // ---- The verdict of compare_json is equality of views ----

  lemma {:induction false} CompareJsonIsViewEquality(a: Json, b: Json)
    requires Distinct(a, false) && Distinct(b, false) && RawFree(a) && RawFree(b)
    ensures CompareJson(a, b, false).equal <==> View(a, false) == View(b, false)
    decreases Height(a), 0
  {
    if SameType(a, b) {
      match a
      case Array(items) =>
        CompareItemsIsViewEquality(items, b.items);
      case Object(members) =>
        var ms, ns := Sort(members, false), Sort(b.members, false);
        SortHeight(members, false);
        SortKeeps(members, false, false);
        SortKeeps(b.members, false, false);
        SortStrict(members);
        SortStrict(b.members);
        CompareMembersIsViewEquality(ms, ns);
      case _ =>
    }
  }

  lemma {:induction false} CompareItemsIsViewEquality(xs: seq<Json>, ys: seq<Json>)
    requires DistinctItems(xs, false) && RawFreeItems(xs)
    requires DistinctItems(ys, false) && RawFreeItems(ys)
    ensures CompareItems(xs, ys, false).equal <==> ViewItems(xs, false) == ViewItems(ys, false)
    decreases ItemsHeight(xs), |xs|
  {
    if xs != [] && ys != [] {
      CompareJsonIsViewEquality(xs[0], ys[0]);
      CompareItemsIsViewEquality(xs[1..], ys[1..]);
      var vs, ws := ViewItems(xs, false), ViewItems(ys, false);
      assert vs == [vs[0]] + ViewItems(xs[1..], false) && ws == [ws[0]] + ViewItems(ys[1..], false);
      assert vs == ws ==> vs[1..] == ws[1..];
    }
  }

  ghost predicate StrictOrder<T>(ms: seq<Member<T>>) {
    forall i, k | 0 <= i < k < |ms| :: Before(ms[i].key, ms[k].key, false)
  }

  /** In a strictly ordered list a key before the first one does not occur. */
  lemma BeforeFirstIsAbsent(ms: seq<Member<Json>>, key: string)
    requires StrictOrder(ms) && (ms == [] || Before(key, ms[0].key, false))
    ensures Lower(key) !in ViewMembers(ms, false)
  {
    ViewKeys(ms, false);
    if Lower(key) in ViewMembers(ms, false) {
      var i :| 0 <= i < |ms| && Fold(ms[i].key, false) == Lower(key);
      if i > 0 {
        CmpTransitive(Lower(key), Lower(ms[0].key), Lower(ms[i].key));
      }
      CmpZero(Lower(key), Lower(key));
    }
  }

  /** The view of a strictly ordered list, taken apart at its first member. */
  lemma ViewOfHead(ms: seq<Member<Json>>)
    requires StrictOrder(ms) && ms != []
    ensures StrictOrder(ms[1..])
    ensures Lower(ms[0].key) !in ViewMembers(ms[1..], false)
    ensures ViewMembers(ms, false) - {Lower(ms[0].key)} == ViewMembers(ms[1..], false)
  {
    var rest := ms[1..];
    assert StrictOrder(rest);
    assert rest != [] ==> Before(ms[0].key, rest[0].key, false);
    BeforeFirstIsAbsent(rest, ms[0].key);
  }

  lemma {:induction false} CompareMembersIsViewEquality(ms: seq<Member<Json>>, ns: seq<Member<Json>>)
    requires StrictOrder(ms) && StrictOrder(ns)
    requires DistinctValues(ms, false) && RawFreeValues(ms)
    requires DistinctValues(ns, false) && RawFreeValues(ns)
    ensures CompareMembers(ms, ns, false).equal <==> ViewMembers(ms, false) == ViewMembers(ns, false)
    decreases MembersHeight(ms), |ms|
  {
    var vm, vn := ViewMembers(ms, false), ViewMembers(ns, false);
    if ms == [] || ns == [] {
      if ms != [] { assert Lower(ms[0].key) in vm; }
      if ns != [] { assert Lower(ns[0].key) in vn; }
    } else {
      var x, y := Lower(ms[0].key), Lower(ns[0].key);
      ViewOfHead(ms);
      ViewOfHead(ns);
      CmpZero(x, y);
      if x != y {
        CmpOpposite(x, y);
        if Cmp(x, y) < 0 {
          BeforeFirstIsAbsent(ns, ms[0].key);
          assert x in vm && x !in vn;
        } else {
          CmpOpposite(y, x);
          BeforeFirstIsAbsent(ms, ns[0].key);
          assert y in vn && y !in vm;
        }
      } else {
        CompareJsonIsViewEquality(ms[0].value, ns[0].value);
        CompareMembersIsViewEquality(ms[1..], ns[1..]);
        assert vm == (vm - {x})[x := vm[x]];
        assert vn == (vn - {x})[x := vn[x]];
      }
    }
  }

  // ---- The case-sensitive verdict ----

  /** The case-sensitive sort, which need not sort, leaves the keys of both trees in the same order. */
  ghost predicate Aligned(a: Json, b: Json)
    decreases Height(a), 0
  {
    if a.Array? && b.Array? then
      forall i | 0 <= i < |a.items| && i < |b.items| :: Aligned(a.items[i], b.items[i])
    else if a.Object? && b.Object? then
      SortHeight(a.members, true);
      AlignedMembers(Sort(a.members, true), Sort(b.members, true))
    else true
  }

  ghost predicate AlignedMembers(ms: seq<Member<Json>>, ns: seq<Member<Json>>)
    decreases MembersHeight(ms), 1
  {
    |ms| == |ns| && forall i | 0 <= i < |ms| :: ms[i].key == ns[i].key && Aligned(ms[i].value, ns[i].value)
  }

  /** The case-sensitive `compare_json` is equality of views as far as the keys are aligned. */
  lemma {:induction false} CompareSensitive(a: Json, b: Json)
    requires Distinct(a, true) && Distinct(b, true) && RawFree(a) && RawFree(b)
    ensures CompareJson(a, b, true).equal <==> View(a, true) == View(b, true) && Aligned(a, b)
    decreases Height(a), 0
  {
    if SameType(a, b) {
      match a
      case Array(items) => CompareItemsSensitive(items, b.items);
      case Object(members) =>
        var ms, ns := Sort(members, true), Sort(b.members, true);
        SortHeight(members, true);
        SortKeeps(members, true, true);
        SortKeeps(b.members, true, true);
        hide Sort, CompareMembers, DistinctKeys;
        CompareMembersSensitive(ms, ns);
        if AlignedMembers(ms, ns) { AlignedViews(ms, ns); }
      case _ =>
    }
  }

  lemma {:induction false} CompareItemsSensitive(xs: seq<Json>, ys: seq<Json>)
    requires DistinctItems(xs, true) && DistinctItems(ys, true) && RawFreeItems(xs) && RawFreeItems(ys)
    ensures CompareItems(xs, ys, true).equal <==>
            ViewItems(xs, true) == ViewItems(ys, true) && forall i | 0 <= i < |xs| && i < |ys| :: Aligned(xs[i], ys[i])
    decreases ItemsHeight(xs), |xs|
  {
    if xs != [] && ys != [] {
      CompareSensitive(xs[0], ys[0]);
      CompareItemsSensitive(xs[1..], ys[1..]);
      hide Aligned, CompareJson, View, Distinct, RawFree;
      var vs, ws := ViewItems(xs, true), ViewItems(ys, true);
      assert vs == [vs[0]] + ViewItems(xs[1..], true) && ws == [ws[0]] + ViewItems(ys[1..], true);
      assert vs == ws ==> vs[1..] == ws[1..];
      assert forall i | 0 < i < |xs| && i < |ys| :: xs[i] == xs[1..][i - 1] && ys[i] == ys[1..][i - 1];
    }
  }

  lemma {:induction false} CompareMembersSensitive(ms: seq<Member<Json>>, ns: seq<Member<Json>>)
    requires DistinctValues(ms, true) && DistinctValues(ns, true) && RawFreeValues(ms) && RawFreeValues(ns)
    ensures CompareMembers(ms, ns, true).equal <==> AlignedMembers(ms, ns) && SameValues(ms, ns)
    decreases MembersHeight(ms), |ms|
  {
    if ms != [] && ns != [] {
      CmpZero(ms[0].key, ns[0].key);
      CompareSensitive(ms[0].value, ns[0].value);
      assert DistinctValues(ms[1..], true) && DistinctValues(ns[1..], true) && RawFreeValues(ms[1..]) && RawFreeValues(ns[1..]);
      AlignedStep(ms, ns);
      hide Aligned, AlignedMembers, SameValues, CompareJson, View, Distinct, RawFree, DistinctValues, RawFreeValues;
      CompareMembersSensitive(ms[1..], ns[1..]);
    }
  }

  ghost predicate SameValues(ms: seq<Member<Json>>, ns: seq<Member<Json>>) {
    |ms| == |ns| && forall i | 0 <= i < |ms| :: View(ms[i].value, true) == View(ns[i].value, true)
  }

  lemma AlignedStep(ms: seq<Member<Json>>, ns: seq<Member<Json>>)
    requires ms != [] && ns != []
    ensures AlignedMembers(ms, ns) <==>
            ms[0].key == ns[0].key && Aligned(ms[0].value, ns[0].value) && AlignedMembers(ms[1..], ns[1..])
    ensures SameValues(ms, ns) <==> View(ms[0].value, true) == View(ns[0].value, true) && SameValues(ms[1..], ns[1..])
  {
    hide Aligned, View;
    assert |ms| == |ns| ==> forall i | 0 < i < |ms| :: ms[i] == ms[1..][i - 1] && ns[i] == ns[1..][i - 1];
  }

  /** With the same keys in the same order, the views are equal if the values' are. */
  lemma AlignedViews(ms: seq<Member<Json>>, ns: seq<Member<Json>>)
    requires AlignedMembers(ms, ns) && DistinctKeys(ms, true) && DistinctKeys(ns, true)
    ensures SameValues(ms, ns) <==> ViewMembers(ms, true) == ViewMembers(ns, true)
  {
    hide View, Aligned;
    if ViewMembers(ms, true) == ViewMembers(ns, true) {
      forall i | 0 <= i < |ms| ensures View(ms[i].value, true) == View(ns[i].value, true) {
        ViewAt(ms, i, true);
        ViewAt(ns, i, true);
      }
    }
    if SameValues(ms, ns) { SameMembers(ms, ns); }
  }

  lemma {:induction false} SameMembers(ms: seq<Member<Json>>, ns: seq<Member<Json>>)
    requires AlignedMembers(ms, ns) && SameValues(ms, ns)
    ensures ViewMembers(ms, true) == ViewMembers(ns, true)
  {
    hide View, Aligned;
    if ms != [] { SameMembers(ms[1..], ns[1..]); }
  }

  /** In every object of the tree, byte order and folded order agree on every two keys. */
  ghost predicate Agreeing(j: Json) {
    match j
    case Array(items) => forall i | 0 <= i < |items| :: Agreeing(items[i])
    case Object(members) => AgreeOn(KeySet(members)) && forall i | 0 <= i < |members| :: Agreeing(members[i].value)
    case _ => true
  }

  ghost function KeySet(ms: seq<Member<Json>>): set<string> {
    set m | m in ms :: m.key
  }

  /** Two lists in byte order with the same keys. */
  lemma {:induction false} SameOrder(ms: seq<Member<Json>>, ns: seq<Member<Json>>)
    requires SortedByBytes(ms) && SortedByBytes(ns) && DistinctKeys(ms, true) && DistinctKeys(ns, true)
    requires ViewMembers(ms, true).Keys == ViewMembers(ns, true).Keys
    ensures |ms| == |ns| && forall i | 0 <= i < |ms| :: ms[i].key == ns[i].key
    decreases |ms|
  {
    SameLeast(ms, ns);
    if ms != [] {
      TailKeys(ms);
      TailKeys(ns);
      hide ViewMembers, Cmp, DistinctKeys, Fold;
      assert forall i | 0 <= i < |ms[1..]| :: ms[1..][i] == ms[i + 1];
      assert forall i | 0 <= i < |ns[1..]| :: ns[1..][i] == ns[i + 1];
      SameOrder(ms[1..], ns[1..]);
      forall i | 0 <= i < |ms| ensures ms[i].key == ns[i].key {
        if i > 0 { assert ms[i] == ms[1..][i - 1] && ns[i] == ns[1..][i - 1]; }
      }
    }
  }

  lemma TailKeys(ms: seq<Member<Json>>)
    requires DistinctKeys(ms, true) && ms != []
    ensures DistinctKeys(ms[1..], true) && ViewMembers(ms[1..], true).Keys == ViewMembers(ms, true).Keys - {ms[0].key}
  {
    ViewRemove(ms, 0, true);
    DistinctRemove(ms, 0, true);
    assert ms[..0] + ms[1..] == ms[1..];
    hide ViewMembers;
  }

  lemma SameLeast(ms: seq<Member<Json>>, ns: seq<Member<Json>>)
    requires SortedByBytes(ms) && SortedByBytes(ns)
    requires ViewMembers(ms, true).Keys == ViewMembers(ns, true).Keys
    ensures (ms == [] <==> ns == []) && (ms != [] ==> ms[0].key == ns[0].key)
  {
    ViewKeys(ms, true);
    ViewKeys(ns, true);
    if ms != [] { assert Fold(ms[0].key, true) in ViewMembers(ms, true); }
    if ns != [] { assert Fold(ns[0].key, true) in ViewMembers(ns, true); }
    hide ViewMembers, Cmp;
    if ms != [] && ns != [] {
      var i :| 0 <= i < |ns| && Fold(ns[i].key, true) == ms[0].key;
      var k :| 0 <= k < |ms| && Fold(ms[k].key, true) == ns[0].key;
      CmpOpposite(ms[0].key, ns[0].key);
      CmpZero(ms[0].key, ns[0].key);
    }
  }

  lemma KeysOf(ms: seq<Member<Json>>)
    ensures KeysIn(ms, KeySet(ms)) && forall key :: key in KeySet(ms) <==> key in ViewMembers(ms, true)
  {
    ViewKeys(ms, true);
    forall key ensures key in KeySet(ms) <==> key in ViewMembers(ms, true) {
      if key in KeySet(ms) {
        var m :| m in ms && m.key == key;
        var i :| 0 <= i < |ms| && ms[i] == m;
        assert Fold(ms[i].key, true) == key;
      }
      if key in ViewMembers(ms, true) {
        var i :| 0 <= i < |ms| && Fold(ms[i].key, true) == key;
        assert ms[i] in ms;
      }
    }
    hide ViewMembers;
  }

  /** Two such objects that mean the same, sorted: the same keys with values that mean the same. */
  lemma AgreeingSorted(ms: seq<Member<Json>>, ns: seq<Member<Json>>)
    requires DistinctKeys(ms, true) && DistinctKeys(ns, true) && AgreeOn(KeySet(ms))
    requires ViewMembers(ms, true) == ViewMembers(ns, true)
    ensures var s, t := Sort(ms, true), Sort(ns, true);
            |s| == |t| && forall i | 0 <= i < |s| ::
              s[i].key == t[i].key && View(s[i].value, true) == View(t[i].value, true) && s[i] in ms && t[i] in ns
  {
    hide *;
    KeysOf(ms);
    KeysOf(ns);
    assert KeySet(ms) == KeySet(ns);
    SortAgreesSorts(ms, KeySet(ms));
    SortAgreesSorts(ns, KeySet(ms));
    SortKeepsView(ms, true, true);
    SortKeepsView(ns, true, true);
    SortPermutes(ms, true);
    SortPermutes(ns, true);
    var s, t := Sort(ms, true), Sort(ns, true);
    SameOrder(s, t);
    forall i | 0 <= i < |s|
      ensures s[i].key == t[i].key && View(s[i].value, true) == View(t[i].value, true) && s[i] in ms && t[i] in ns
    {
      ViewAt(s, i, true);
      ViewAt(t, i, true);
      assert s[i] in multiset(ms) && t[i] in multiset(ns);
    }
  }

  /** Trees that mean the same are aligned, if their keys are ordered alike in both ways. */
  lemma {:induction false} AgreeingAligned(a: Json, b: Json)
    requires Distinct(a, true) && Distinct(b, true) && View(a, true) == View(b, true) && Agreeing(a)
    ensures Aligned(a, b)
    decreases Height(a)
  {
    if a.Array? && b.Array? {
      forall i | 0 <= i < |a.items| && i < |b.items| ensures Aligned(a.items[i], b.items[i]) {
        assert ViewItems(a.items, true)[i] == ViewItems(b.items, true)[i];
        AgreeingAligned(a.items[i], b.items[i]);
      }
      hide Aligned, View;
    } else if a.Object? && b.Object? {
      AgreeingSorted(a.members, b.members);
      SortHeight(a.members, true);
      var s, t := Sort(a.members, true), Sort(b.members, true);
      hide Sort, View, ViewMembers, AgreeOn, DistinctKeys;
      forall i | 0 <= i < |s| ensures Aligned(s[i].value, t[i].value) {
        var k :| 0 <= k < |a.members| && a.members[k] == s[i];
        var n :| 0 <= n < |b.members| && b.members[n] == t[i];
        AgreeingAligned(s[i].value, t[i].value);
      }
      hide Aligned;
      AlignedBy(a, b);
    }
  }

  lemma AlignedBy(a: Json, b: Json)
    requires a.Object? && b.Object?
    requires var s, t := Sort(a.members, true), Sort(b.members, true);
             |s| == |t| && forall i | 0 <= i < |s| :: s[i].key == t[i].key && Aligned(s[i].value, t[i].value)
    ensures Aligned(a, b)
  {
    SortHeight(a.members, true);
    hide Sort;
  }

  /** With such keys the case-sensitive verdict is equality of views, as it should be. */
  lemma CompareAgreeing(a: Json, b: Json)
    requires Distinct(a, true) && Distinct(b, true) && RawFree(a) && RawFree(b) && Agreeing(a)
    ensures CompareJson(a, b, true).equal <==> View(a, true) == View(b, true)
  {
    hide CompareJson, View, Distinct, RawFree, Aligned, Agreeing;
    CompareSensitive(a, b);
    if View(a, true) == View(b, true) { AgreeingAligned(a, b); }
  }

  // ---- The verdict of cJSON_Compare is equality of views, for either case mode ----

  lemma {:induction false} LookupCompareIsViewEquality(a: Json, b: Json, caseSensitive: bool)
    requires Distinct(a, caseSensitive) && Distinct(b, caseSensitive) && Consistent(a) && Consistent(b)
    ensures LookupCompare(a, b, caseSensitive) <==> View(a, caseSensitive) == View(b, caseSensitive)
    decreases Height(a) + Height(b), 0
  {
    if SameType(a, b) {
      match a
      case Array(items) =>
        LookupItemsIsViewEquality(items, b.items, caseSensitive);
      case Object(members) =>
        LookupMembersIsInclusion(members, b.members, caseSensitive);
        LookupMembersIsInclusion(b.members, members, caseSensitive);
        InclusionBothWays(ViewMembers(members, caseSensitive), ViewMembers(b.members, caseSensitive));
      case _ =>
    }
  }

  lemma {:induction false} LookupItemsIsViewEquality(xs: seq<Json>, ys: seq<Json>, caseSensitive: bool)
    requires DistinctItems(xs, caseSensitive) && DistinctItems(ys, caseSensitive)
    requires ConsistentItems(xs) && ConsistentItems(ys)
    ensures LookupItems(xs, ys, caseSensitive) <==> ViewItems(xs, caseSensitive) == ViewItems(ys, caseSensitive)
    decreases ItemsHeight(xs) + ItemsHeight(ys), 1
  {
    if |xs| == |ys| {
      forall i | 0 <= i < |xs|
        ensures LookupCompare(xs[i], ys[i], caseSensitive) <==>
                ViewItems(xs, caseSensitive)[i] == ViewItems(ys, caseSensitive)[i]
      {
        LookupCompareIsViewEquality(xs[i], ys[i], caseSensitive);
      }
    }
  }

  ghost predicate Included(m: map<string, Value>, n: map<string, Value>) {
    forall k | k in m :: k in n && n[k] == m[k]
  }

  lemma InclusionBothWays(m: map<string, Value>, n: map<string, Value>)
    ensures Included(m, n) && Included(n, m) <==> m == n
  { }

  lemma {:induction false} LookupMembersIsInclusion(
    ms: seq<Member<Json>>, ns: seq<Member<Json>>, caseSensitive: bool)
    requires DistinctKeys(ms, caseSensitive) && DistinctValues(ms, caseSensitive) && ConsistentValues(ms)
    requires DistinctKeys(ns, caseSensitive) && DistinctValues(ns, caseSensitive) && ConsistentValues(ns)
    ensures LookupMembers(ms, ns, caseSensitive) <==>
            Included(ViewMembers(ms, caseSensitive), ViewMembers(ns, caseSensitive))
    decreases MembersHeight(ms) + MembersHeight(ns), 1
  {
    var vm, vn := ViewMembers(ms, caseSensitive), ViewMembers(ns, caseSensitive);
    forall i | 0 <= i < |ms|
      ensures var k := FindMember(ns, ms[i].key, caseSensitive);
              var f := Fold(ms[i].key, caseSensitive);
              && f in vm
              && ((k < |ns| && LookupCompare(ms[i].value, ns[k].value, caseSensitive)) <==> (f in vn && vn[f] == vm[f]))
    {
      var k := FindMember(ns, ms[i].key, caseSensitive);
      ViewAt(ms, i, caseSensitive);
      FindIsLookup(ns, ms[i].key, caseSensitive);
      if k < |ns| {
        LookupCompareIsViewEquality(ms[i].value, ns[k].value, caseSensitive);
      }
    }
    ViewKeys(ms, caseSensitive);
  }

  /** Sort-and-walk equality is lookup equality, and sorting left both meanings alone. */
  lemma CompareAgrees(a: Json, b: Json)
    requires Distinct(a, false) && Distinct(b, false) && RawFree(a) && RawFree(b) && Consistent(a) && Consistent(b)
    ensures CompareJson(a, b, false).equal == LookupCompare(a, b, false)
    ensures var r := CompareJson(a, b, false);
            LookupCompare(r.a, a, false) && LookupCompare(r.b, b, false)
  {
    CompareJsonIsViewEquality(a, b);
    LookupCompareIsViewEquality(a, b, false);
    CompareJsonKeeps(a, b, false, false);
    var r := CompareJson(a, b, false);
    LookupCompareIsViewEquality(r.a, a, false);
    LookupCompareIsViewEquality(r.b, b, false);
  }
}
