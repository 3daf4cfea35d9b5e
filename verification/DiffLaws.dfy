/** When there is nothing to patch, and what the two equality tests say of trees of any kind. */
module DiffLaws {
  import opened CString
  import opened Json
  import opened MemberSort
  import opened Rfc6902
  import opened Compare
  import opened Patch
  import opened Diff

  // ---- Nothing to patch ----

  /** The generator finds nothing to do exactly where `compare_json` finds no difference. */
  lemma {:induction false} NothingToDo(path: seq<string>, from: Json, to: Json)
    ensures Requests(path, from, to) == [] <==> CompareJson(from, to, false).equal
    decreases Height(from), 0
  {
    if SameType(from, to) {
      match from
      case Array(items) => NoItemRequests(path, 0, items, to.items);
      case Object(members) =>
        SortHeight(members, false);
        NoMemberRequests(path, Sort(members, false), Sort(to.members, false));
      case _ =>
    }
  }

  lemma {:induction false} NoItemRequests(path: seq<string>, index: nat, xs: seq<Json>, ys: seq<Json>)
    ensures ItemRequests(path, index, xs, ys) == [] <==> CompareItems(xs, ys, false).equal
    decreases ItemsHeight(xs), |xs|
  {
    if xs != [] && ys != [] {
      NothingToDo(path + [Decimal.Digits(index)], xs[0], ys[0]);
      NoItemRequests(path, index + 1, xs[1..], ys[1..]);
      hide Requests, CompareJson;
    }
  }

  lemma {:induction false} NoMemberRequests(path: seq<string>, ms: seq<Member<Json>>, ns: seq<Member<Json>>)
    ensures MemberRequests(path, ms, ns) == [] <==> CompareMembers(ms, ns, false).equal
    decreases MembersHeight(ms), |ms| + |ns|
  {
    if ms != [] && ns != [] {
      NothingToDo(path + [ms[0].key], ms[0].value, ns[0].value);
      NoMemberRequests(path, ms[1..], ns[1..]);
      hide Requests, CompareJson, Fold;
    }
  }

  /** The generated patch is empty exactly for trees that mean the same. */
  lemma EmptyPatch(from: Json, to: Json)
    requires Distinct(from, false) && Distinct(to, false) && RawFree(from) && RawFree(to)
    ensures GeneratePatches(from, to) == Array([]) <==> View(from, false) == View(to, false)
  {
    NothingToDo([], from, to);
    CompareJsonIsViewEquality(from, to);
    hide Requests, CompareJson, View, Compose;
  }

  // ---- cJSON_Compare on any trees ----

  /** No invalid node anywhere. */
  predicate ValidValue(v: Value) {
    match v
    case Leaf(j) => !j.Invalid?
    case Arr(elements) => forall i | 0 <= i < |elements| :: ValidValue(elements[i])
    case Obj(fields) => forall k | k in fields :: ValidValue(fields[k])
  }

  lemma {:induction false} SameTurns(v: Value, w: Value)
    requires ValidValue(v) && Same(v, w)
    ensures ValidValue(w) && Same(w, v)
  {
    match v
    case Leaf(_) =>
    case Arr(a) =>
      forall i | 0 <= i < |a| ensures ValidValue(w.elements[i]) && Same(w.elements[i], a[i]) { SameTurns(a[i], w.elements[i]); }
    case Obj(a) =>
      forall k | k in a ensures ValidValue(w.fields[k]) && Same(w.fields[k], a[k]) { SameTurns(a[k], w.fields[k]); }
  }

  ghost predicate Alike(a: Json, b: Json, caseSensitive: bool) {
    ValidValue(View(a, caseSensitive)) && Same(View(a, caseSensitive), View(b, caseSensitive))
  }

  /**
   `cJSON_Compare` looks at `valuedouble` alone, at raw text as at strings, and finds an invalid
   node different from everything: it is the equality of section 4.6 of RFC 6902 without such nodes.
   */
  lemma {:induction false} LookupExactly(a: Json, b: Json, caseSensitive: bool)
    requires Distinct(a, caseSensitive) && Distinct(b, caseSensitive)
    ensures LookupCompare(a, b, caseSensitive) <==> Alike(a, b, caseSensitive)
    decreases Height(a) + Height(b), 0
  {
    match a
    case Array(items) => if b.Array? { ItemsExactly(items, b.items, caseSensitive); }
    case Object(members) => if b.Object? { MembersExactly(members, b.members, caseSensitive); }
    case _ =>
  }

  lemma {:induction false} ItemsExactly(xs: seq<Json>, ys: seq<Json>, caseSensitive: bool)
    requires DistinctItems(xs, caseSensitive) && DistinctItems(ys, caseSensitive)
    ensures LookupItems(xs, ys, caseSensitive) <==> Alike(Array(xs), Array(ys), caseSensitive)
    decreases ItemsHeight(xs) + ItemsHeight(ys), 1
  {
    if |xs| == |ys| {
      forall i | 0 <= i < |xs| ensures LookupCompare(xs[i], ys[i], caseSensitive) <==> Alike(xs[i], ys[i], caseSensitive) {
        LookupExactly(xs[i], ys[i], caseSensitive);
      }
    }
  }

  /** Every field has its like in the other map. */
  ghost predicate AlikeIn(vm: map<string, Value>, vn: map<string, Value>) {
    forall k | k in vm :: k in vn && ValidValue(vm[k]) && Same(vm[k], vn[k])
  }

  lemma AlikeBothWays(vm: map<string, Value>, vn: map<string, Value>)
    ensures AlikeIn(vm, vn) && AlikeIn(vn, vm) <==> ValidValue(Obj(vm)) && Same(Obj(vm), Obj(vn))
  {
    hide ValidValue, Same;
    SameFields(vm, vn);
    if AlikeIn(vm, vn) && vm.Keys == vn.Keys {
      forall k | k in vn ensures ValidValue(vn[k]) && Same(vn[k], vm[k]) { SameTurns(vm[k], vn[k]); }
    }
  }

  lemma SameFields(vm: map<string, Value>, vn: map<string, Value>)
    ensures ValidValue(Obj(vm)) && Same(Obj(vm), Obj(vn)) <==> AlikeIn(vm, vn) && vm.Keys == vn.Keys
  {
  }

  lemma {:induction false} MembersExactly(ms: seq<Member<Json>>, ns: seq<Member<Json>>, caseSensitive: bool)
    requires DistinctKeys(ms, caseSensitive) && DistinctValues(ms, caseSensitive)
    requires DistinctKeys(ns, caseSensitive) && DistinctValues(ns, caseSensitive)
    ensures LookupMembers(ms, ns, caseSensitive) && LookupMembers(ns, ms, caseSensitive) <==>
            Alike(Object(ms), Object(ns), caseSensitive)
    decreases MembersHeight(ms) + MembersHeight(ns), 2
  {
    LookupInto(ms, ns, caseSensitive);
    LookupInto(ns, ms, caseSensitive);
    AlikeBothWays(ViewMembers(ms, caseSensitive), ViewMembers(ns, caseSensitive));
    hide LookupMembers, ViewMembers, AlikeIn;
  }

  lemma {:induction false} LookupInto(ms: seq<Member<Json>>, ns: seq<Member<Json>>, caseSensitive: bool)
    requires DistinctKeys(ms, caseSensitive) && DistinctValues(ms, caseSensitive)
    requires DistinctKeys(ns, caseSensitive) && DistinctValues(ns, caseSensitive)
    ensures LookupMembers(ms, ns, caseSensitive) <==> AlikeIn(ViewMembers(ms, caseSensitive), ViewMembers(ns, caseSensitive))
    decreases MembersHeight(ms) + MembersHeight(ns), 1
  {
    var vm, vn := ViewMembers(ms, caseSensitive), ViewMembers(ns, caseSensitive);
    forall i | 0 <= i < |ms|
      ensures var k := FindMember(ns, ms[i].key, caseSensitive);
              var f := Fold(ms[i].key, caseSensitive);
              && f in vm
              && ((k < |ns| && LookupCompare(ms[i].value, ns[k].value, caseSensitive)) <==>
                  (f in vn && ValidValue(vm[f]) && Same(vm[f], vn[f])))
    {
      var k := FindMember(ns, ms[i].key, caseSensitive);
      ViewAt(ms, i, caseSensitive);
      FindIsLookup(ns, ms[i].key, caseSensitive);
      if k < |ns| { LookupExactly(ms[i].value, ns[k].value, caseSensitive); }
    }
    ViewKeys(ms, caseSensitive);
  }

  // ---- compare_json on any trees ----

  /** The value without the text of raw nodes, which `compare_json` does not look at. */
  function Blurred(v: Value): Value {
    match v
    case Leaf(j) => if j.Raw? then Leaf(Raw("")) else v
    case Arr(elements) => Arr(seq(|elements|, i requires 0 <= i < |elements| => Blurred(elements[i])))
    case Obj(fields) => Obj(map k | k in fields :: Blurred(fields[k]))
  }

  /** The verdict of `compare_json` is equality of views up to the text of raw nodes. */
  lemma {:induction false} CompareBlurred(a: Json, b: Json)
    requires Distinct(a, false) && Distinct(b, false)
    ensures CompareJson(a, b, false).equal <==> Blurred(View(a, false)) == Blurred(View(b, false))
    decreases Height(a), 0
  {
    BlurredKind(a);
    BlurredKind(b);
    if SameType(a, b) {
      match a
      case Array(items) => CompareItemsBlurred(items, b.items);
      case Object(members) => CompareObjectsBlurred(members, b.members);
      case _ =>
    }
  }

  lemma BlurredKind(a: Json)
    ensures var v := Blurred(View(a, false)); (v.Arr? <==> a.Array?) && (v.Obj? <==> a.Object?)
  {
    hide ViewItems, ViewMembers;
  }

  lemma {:induction false} CompareItemsBlurred(xs: seq<Json>, ys: seq<Json>)
    requires DistinctItems(xs, false) && DistinctItems(ys, false)
    ensures CompareItems(xs, ys, false).equal <==> Blurred(Arr(ViewItems(xs, false))) == Blurred(Arr(ViewItems(ys, false)))
    decreases ItemsHeight(xs), |xs|
  {
    if xs != [] && ys != [] {
      CompareBlurred(xs[0], ys[0]);
      CompareItemsBlurred(xs[1..], ys[1..]);
      BlurredItems(xs);
      BlurredItems(ys);
      hide Blurred, View, ViewItems, CompareJson;
      var vs, ws := Blurred(Arr(ViewItems(xs[1..], false))), Blurred(Arr(ViewItems(ys[1..], false)));
      ConsEqual(Blurred(View(xs[0], false)), vs.elements, Blurred(View(ys[0], false)), ws.elements);
    } else {
      BlurredLength(ViewItems(xs, false));
      BlurredLength(ViewItems(ys, false));
    }
  }

  lemma BlurredLength(vs: seq<Value>)
    ensures Blurred(Arr(vs)).Arr? && |Blurred(Arr(vs)).elements| == |vs|
    ensures vs == [] ==> Blurred(Arr(vs)).elements == []
  {
  }

  lemma ConsEqual<T>(a: T, s: seq<T>, b: T, t: seq<T>)
    ensures [a] + s == [b] + t <==> a == b && s == t
  {
    assert ([a] + s)[0] == a && ([a] + s)[1..] == s && ([b] + t)[0] == b && ([b] + t)[1..] == t;
  }

  lemma BlurredItems(xs: seq<Json>)
    requires xs != []
    ensures Blurred(Arr(ViewItems(xs[1..], false))).Arr?
    ensures Blurred(Arr(ViewItems(xs, false))) ==
            Arr([Blurred(View(xs[0], false))] + Blurred(Arr(ViewItems(xs[1..], false))).elements)
  {
    var rest := ViewItems(xs[1..], false);
    assert ViewItems(xs, false) == [View(xs[0], false)] + rest;
    hide *;
    BlurredCons(View(xs[0], false), rest);
  }

  lemma BlurredCons(v: Value, rest: seq<Value>)
    ensures Blurred(Arr(rest)).Arr? && Blurred(Arr([v] + rest)) == Arr([Blurred(v)] + Blurred(Arr(rest)).elements)
  {
    var all := [v] + rest;
    assert Blurred(Arr(all)).elements == [Blurred(v)] + Blurred(Arr(rest)).elements;
  }

  lemma {:induction false} CompareObjectsBlurred(ms: seq<Member<Json>>, ns: seq<Member<Json>>)
    requires Distinct(Object(ms), false) && Distinct(Object(ns), false)
    ensures CompareJson(Object(ms), Object(ns), false).equal <==>
            Blurred(View(Object(ms), false)) == Blurred(View(Object(ns), false))
    decreases MembersHeight(ms), |ms| + 1
  {
    SortHeight(ms, false);
    SortKeeps(ms, false, false);
    SortKeeps(ns, false, false);
    SortStrict(ms);
    SortStrict(ns);
    hide Blurred, ViewMembers;
    CompareMembersBlurred(Sort(ms, false), Sort(ns, false));
  }

  lemma BlurredField(vm: map<string, Value>, k: string)
    requires k in vm
    ensures var b := Blurred(Obj(vm)).fields;
            k in b && b[k] == Blurred(vm[k]) && Blurred(Obj(vm - {k})).fields == b - {k}
  {
  }

  lemma BlurredKeys(vm: map<string, Value>, k: string)
    ensures k in Blurred(Obj(vm)).fields <==> k in vm
  {
  }

  lemma HeadField(ms: seq<Member<Json>>)
    requires StrictOrder(ms) && ms != []
    ensures var vm, k := ViewMembers(ms, false), Lower(ms[0].key);
            k in vm && vm[k] == View(ms[0].value, false) && vm - {k} == ViewMembers(ms[1..], false) && StrictOrder(ms[1..])
  {
    ViewOfHead(ms);
  }

  lemma {:induction false} CompareMembersBlurred(ms: seq<Member<Json>>, ns: seq<Member<Json>>)
    requires StrictOrder(ms) && StrictOrder(ns) && DistinctValues(ms, false) && DistinctValues(ns, false)
    ensures CompareMembers(ms, ns, false).equal <==>
            Blurred(Obj(ViewMembers(ms, false))) == Blurred(Obj(ViewMembers(ns, false)))
    decreases MembersHeight(ms), |ms|
  {
    var vm, vn := ViewMembers(ms, false), ViewMembers(ns, false);
    if ms == [] || ns == [] {
      OneEmpty(ms, ns);
    } else {
      HeadField(ms);
      HeadField(ns);
      var x, y := Lower(ms[0].key), Lower(ns[0].key);
      CmpZero(x, y);
      if x != y {
        HeadsApart(ms, ns);
      } else {
        CompareBlurred(ms[0].value, ns[0].value);
        CompareMembersBlurred(ms[1..], ns[1..]);
        BlurredField(vm, x);
        BlurredField(vn, x);
        hide Blurred, View, ViewMembers, CompareJson, Lower;
        PartsEqual(Blurred(Obj(vm)).fields, Blurred(Obj(vn)).fields, x);
        ObjAgain(vm);
        ObjAgain(vn);
        ObjAgain(vm - {x});
        ObjAgain(vn - {x});
      }
    }
  }

  lemma PartsEqual<K, V>(m: map<K, V>, n: map<K, V>, k: K)
    requires k in m && k in n
    ensures m == n <==> m[k] == n[k] && m - {k} == n - {k}
  {
    assert m == (m - {k})[k := m[k]] && n == (n - {k})[k := n[k]];
  }

  lemma ObjAgain(vm: map<string, Value>)
    ensures Blurred(Obj(vm)) == Obj(Blurred(Obj(vm)).fields)
  {
  }

  lemma OneEmpty(ms: seq<Member<Json>>, ns: seq<Member<Json>>)
    requires ms == [] || ns == []
    ensures Blurred(Obj(ViewMembers(ms, false))) == Blurred(Obj(ViewMembers(ns, false))) <==> ms == [] && ns == []
  {
    if ms != [] { BlurredKeys(ViewMembers(ms, false), Lower(ms[0].key)); }
    if ns != [] { BlurredKeys(ViewMembers(ns, false), Lower(ns[0].key)); }
    hide Blurred;
  }

  /** The lesser of two different first keys is missing on the other side. */
  lemma HeadsApart(ms: seq<Member<Json>>, ns: seq<Member<Json>>)
    requires StrictOrder(ms) && StrictOrder(ns) && ms != [] && ns != [] && Lower(ms[0].key) != Lower(ns[0].key)
    ensures Blurred(Obj(ViewMembers(ms, false))) != Blurred(Obj(ViewMembers(ns, false)))
  {
    var x, y := Lower(ms[0].key), Lower(ns[0].key);
    var vm, vn := ViewMembers(ms, false), ViewMembers(ns, false);
    HeadField(ms);
    HeadField(ns);
    CmpZero(x, y);
    CmpOpposite(x, y);
    BlurredKeys(vm, x);
    BlurredKeys(vn, x);
    BlurredKeys(vm, y);
    BlurredKeys(vn, y);
    if Cmp(x, y) < 0 {
      BeforeFirstIsAbsent(ns, ms[0].key);
    } else {
      CmpOpposite(y, x);
      BeforeFirstIsAbsent(ms, ns[0].key);
    }
    hide Blurred, ViewMembers;
  }
}
