/**
 `cJSONUtils_GenerateMergePatch`, and the round trip of section 2 of RFC 7396: merging the
 generated patch into what means `from` gives what means `to`.
 */
module MergeDiff {
  import opened Options
  import opened CString
  import opened Json
  import opened MemberSort
  import opened Compare
  import opened MergePatch

  /** An object in which no member, at any depth of nested objects, is null. */
  predicate NoNullMembers(j: Json) {
    match j
    case Object(members) => NoNulls(members)
    case _ => true
  }

  predicate NoNulls(ms: seq<Member<Json>>) {
    forall i | 0 <= i < |ms| :: !ms[i].value.Null? && NoNullMembers(ms[i].value)
  }

  // ---- What comparing leaves of a tree ----

  /** Sorting inside a tree makes it no higher, and keeps nulls where they were. */
  ghost predicate Alike(after: Json, before: Json) {
    && Height(after) <= Height(before)
    && (NoNullMembers(before) ==> NoNullMembers(after))
    && (after.Null? <==> before.Null?)
  }

  ghost predicate AlikeMembers(after: seq<Member<Json>>, before: seq<Member<Json>>) {
    |after| == |before| &&
    forall i | 0 <= i < |after| :: after[i].key == before[i].key && Alike(after[i].value, before[i].value)
  }

  lemma {:induction false} AlikeObject(after: seq<Member<Json>>, before: seq<Member<Json>>)
    requires AlikeMembers(after, before)
    ensures Alike(Object(after), Object(before))
  {
    forall i | 0 <= i < |after|
      ensures NoNulls(before) ==> !after[i].value.Null? && NoNullMembers(after[i].value)
    {
      assert Alike(after[i].value, before[i].value);
    }
    AlikeHeight(after, before);
  }

  lemma {:induction false} AlikeHeight(after: seq<Member<Json>>, before: seq<Member<Json>>)
    requires AlikeMembers(after, before)
    ensures MembersHeight(after) <= MembersHeight(before)
  {
    hide NoNullMembers;
    if before != [] {
      assert Alike(after[0].value, before[0].value);
      AlikeHeight(after[1..], before[1..]);
    }
  }

  lemma AlikeSorted(ms: seq<Member<Json>>)
    ensures Alike(Object(Sort(ms, false)), Object(ms))
  {
    hide Sort;
    SortHeight(ms, false);
    SortPermutes(ms, false);
    AlikePermuted(Sort(ms, false), ms);
    hide NoNulls;
  }

  lemma AlikePermuted(r: seq<Member<Json>>, ms: seq<Member<Json>>)
    requires multiset(r) == multiset(ms)
    ensures NoNulls(ms) ==> NoNulls(r)
  {
    hide NoNullMembers, Lower;
    forall i | 0 <= i < |r| ensures r[i] in ms {
      assert r[i] in multiset(ms);
    }
    if NoNulls(ms) {
      assert forall m | m in ms :: !m.value.Null? && NoNullMembers(m.value);
    }
  }

  lemma {:induction false} CompareAlike(a: Json, b: Json)
    ensures Alike(CompareJson(a, b, false).a, a) && Alike(CompareJson(a, b, false).b, b)
    decreases Height(a), 0
  {
    if SameType(a, b) {
      match a
      case Array(items) =>
        CompareItemsHeight(items, b.items);
      case Object(members) =>
        var ms, ns := Sort(members, false), Sort(b.members, false);
        SortHeight(members, false);
        AlikeSorted(members);
        AlikeSorted(b.members);
        CompareMembersAlike(ms, ns);
        var r := CompareMembers(ms, ns, false);
        AlikeObject(r.ms, ms);
        AlikeObject(r.ns, ns);
      case _ =>
    }
  }

  lemma {:induction false} CompareItemsHeight(xs: seq<Json>, ys: seq<Json>)
    ensures var r := CompareItems(xs, ys, false);
            ItemsHeight(r.xs) <= ItemsHeight(xs) && ItemsHeight(r.ys) <= ItemsHeight(ys)
    decreases ItemsHeight(xs), |xs|
  {
    if xs != [] && ys != [] {
      CompareAlike(xs[0], ys[0]);
      CompareItemsHeight(xs[1..], ys[1..]);
      hide CompareJson, NoNullMembers;
      var c, rest := CompareJson(xs[0], ys[0], false), CompareItems(xs[1..], ys[1..], false);
    }
  }

  lemma AlikeCons(m: Member<Json>, ms: seq<Member<Json>>, rest: seq<Member<Json>>)
    requires ms != [] && m.key == ms[0].key && Alike(m.value, ms[0].value) && AlikeMembers(rest, ms[1..])
    ensures AlikeMembers([m] + rest, ms)
  { }

  lemma {:induction false} CompareMembersAlike(ms: seq<Member<Json>>, ns: seq<Member<Json>>)
    ensures AlikeMembers(CompareMembers(ms, ns, false).ms, ms) && AlikeMembers(CompareMembers(ms, ns, false).ns, ns)
    decreases MembersHeight(ms), |ms|
  {
    if ms != [] && ns != [] {
      CompareAlike(ms[0].value, ns[0].value);
      CompareMembersAlike(ms[1..], ns[1..]);
      hide Alike, AlikeMembers, CompareJson, CompareStrings;
      var c := CompareJson(ms[0].value, ns[0].value, false);
      var rest := CompareMembers(ms[1..], ns[1..], false);
      AlikeCons(Member(ms[0].key, c.a), ms, rest.ms);
      AlikeCons(Member(ms[0].key, c.a), ms, ms[1..]);
      AlikeCons(Member(ns[0].key, c.b), ns, rest.ns);
      AlikeCons(Member(ns[0].key, c.b), ns, ns[1..]);
    }
  }

  // ---- generate_merge_patch ----

  /** None is the NULL patch. */
  function Generate(from: Json, to: Json): Option<Json>
    decreases Height(from), 0
  {
    if !to.Object? || !from.Object? then Some(to)
    else
      SortHeight(from.members, false);
      var ms := GenerateMembers(Sort(from.members, false), Sort(to.members, false));
      if ms == [] then None else Some(Object(ms))
  }

  /** The walk over both sorted lists, which compares keys with `strcmp`. */
  function GenerateMembers(ms: seq<Member<Json>>, ns: seq<Member<Json>>): seq<Member<Json>>
    decreases MembersHeight(ms), |ms| + |ns|
  {
    if ms == [] && ns == [] then []
    else
      var diff := if ms == [] then 1 else if ns == [] then -1 else Cmp(ms[0].key, ns[0].key);
      if diff < 0 then [Member(ms[0].key, Null)] + GenerateMembers(ms[1..], ns)
      else if diff > 0 then [ns[0]] + GenerateMembers(ms, ns[1..])
      else GenerateChild(ms[0], ns[0]) + GenerateMembers(ms[1..], ns[1..])
  }

  /** A key in both objects: no member unless the values differ; the comparison sorts both. */
  function GenerateChild(m: Member<Json>, n: Member<Json>): seq<Member<Json>>
    decreases Height(m.value), 1
  {
    var compared := CompareJson(m.value, n.value, false);
    if compared.equal then []
    else
      CompareAlike(m.value, n.value);
      var child := Generate(compared.a, compared.b);
      if child.None? then [] else [Member(n.key, child.value)]
  }

  // ---- The order of the walk ----

  function Keys(ms: seq<Member<Json>>): (ks: seq<string>)
    ensures |ks| == |ms|
  {
    seq(|ms|, i requires 0 <= i < |ms| => ms[i].key)
  }

  /** Which of two keys the walk comes to first: negative for `ks[i]`, 0 for both in one step. */
  function Sooner(ks: seq<string>, ls: seq<string>, i: nat, j: nat): int
    requires i < |ks| && j < |ls|
    decreases |ks| + |ls|
  {
    var diff := Cmp(ks[0], ls[0]);
    if diff < 0 then (if i == 0 then -1 else Sooner(ks[1..], ls, i - 1, j))
    else if diff > 0 then (if j == 0 then 1 else Sooner(ks, ls[1..], i, j - 1))
    else if i == 0 && j == 0 then 0
    else if i == 0 then -1
    else if j == 0 then 1
    else Sooner(ks[1..], ls[1..], i - 1, j - 1)
  }

  /** The keys that no later key exceeds; the first of them is the greatest key. */
  function Peaks(ks: seq<string>): (p: seq<string>)
    ensures ks != [] ==> p != []
  {
    if ks == [] then []
    else
      var p := Peaks(ks[1..]);
      if p == [] || Cmp(ks[0], p[0]) > 0 then [ks[0]] + p else p
  }

  /** Lexicographic order of two lists of keys. */
  function CmpAll(p: seq<string>, q: seq<string>): int {
    if p == [] then (if q == [] then 0 else -1)
    else if q == [] then 1
    else if Cmp(p[0], q[0]) != 0 then Cmp(p[0], q[0])
    else CmpAll(p[1..], q[1..])
  }

  ghost predicate AllDifferent(ks: seq<string>) {
    forall i, j | 0 <= i < j < |ks| :: ks[i] != ks[j]
  }

  /** A peak is one of the keys, and none of the keys exceeds the first peak. */
  lemma {:induction false} PeaksBound(ks: seq<string>)
    requires ks != []
    ensures Peaks(ks)[0] in ks
    ensures forall k | k in ks :: Cmp(k, Peaks(ks)[0]) <= 0
  {
    assert ks == [ks[0]] + ks[1..];
    CmpZero(ks[0], ks[0]);
    if |ks| > 1 {
      PeaksBound(ks[1..]);
      var top := Peaks(ks[1..])[0];
      if Cmp(ks[0], top) > 0 {
        CmpOpposite(top, ks[0]);
        forall k | k in ks ensures Cmp(k, ks[0]) <= 0 {
          if k in ks[1..] { CmpTransitive(k, top, ks[0]); }
        }
      }
    } else {
      assert Peaks(ks[1..]) == [];
    }
  }

  /** A list that starts below another's first peak: its start does not matter. */
  lemma StartBelow(a: seq<string>, q: seq<string>)
    requires a != [] && q != [] && Cmp(a[0], q[0]) < 0
    ensures var p := Peaks(a[1..]);
            if p == [] then CmpAll(Peaks(a), q) < 0
            else (CmpAll(Peaks(a), q) < 0 <==> CmpAll(p, q) < 0) && (CmpAll(Peaks(a), q) > 0 <==> CmpAll(p, q) > 0)
  {
    var p := Peaks(a[1..]);
    if p != [] && Cmp(a[0], p[0]) > 0 {
      CmpOpposite(p[0], a[0]);
      CmpTransitive(p[0], a[0], q[0]);
    }
  }

  /** Two lists that start with the same key: their starts do not matter. */
  lemma SameStart(a: seq<string>, b: seq<string>)
    requires a != [] && b != [] && a[0] == b[0] && AllDifferent(a) && AllDifferent(b)
    ensures var c, d := CmpAll(Peaks(a), Peaks(b)), CmpAll(Peaks(a[1..]), Peaks(b[1..]));
            (c < 0 <==> d < 0) && (c > 0 <==> d > 0)
  {
    hide CmpAll, Cmp, AllDifferent;
    StartDiffers(a);
    StartDiffers(b);
    SamePeak(a[0], Peaks(a[1..]), Peaks(b[1..]));
  }

  lemma SamePeak(k: string, p: seq<string>, q: seq<string>)
    requires (p != [] ==> Cmp(k, p[0]) != 0) && (q != [] ==> Cmp(k, q[0]) != 0)
    ensures var kp := if p == [] || Cmp(k, p[0]) > 0 then [k] + p else p;
            var kq := if q == [] || Cmp(k, q[0]) > 0 then [k] + q else q;
            (CmpAll(kp, kq) < 0 <==> CmpAll(p, q) < 0) && (CmpAll(kp, kq) > 0 <==> CmpAll(p, q) > 0)
  {
    hide Cmp;
    CmpZero(k, k);
    assert ([k] + p)[1..] == p && ([k] + q)[1..] == q;
    if p != [] { CmpOpposite(p[0], k); CmpOpposite(k, p[0]); }
    if q != [] { CmpOpposite(q[0], k); CmpOpposite(k, q[0]); }
    if p != [] && q != [] {
      CmpOpposite(q[0], p[0]);
      if Cmp(k, p[0]) > 0 && Cmp(k, q[0]) < 0 {
        CmpTransitive(p[0], k, q[0]);
      } else if Cmp(k, q[0]) > 0 && Cmp(k, p[0]) < 0 {
        CmpTransitive(q[0], k, p[0]);
      }
    }
  }

  lemma StartDiffers(a: seq<string>)
    requires a != [] && AllDifferent(a)
    ensures var p := Peaks(a[1..]); p != [] ==> Cmp(a[0], p[0]) != 0
  {
    if |a| > 1 {
      PeaksBound(a[1..]);
      var k := Peaks(a[1..])[0];
      var i :| 0 <= i < |a[1..]| && a[1..][i] == k;
      assert a[i + 1] == k;
      CmpZero(a[0], k);
    }
  }

  lemma BelowPeak(a: string, b: seq<string>)
    requires b != [] && Cmp(a, b[0]) < 0
    ensures Cmp(a, Peaks(b)[0]) < 0
  {
    PeaksBound(b);
    CmpTransitive(a, b[0], Peaks(b)[0]);
  }

  lemma {:induction false} CmpAllOpposite(p: seq<string>, q: seq<string>)
    ensures CmpAll(p, q) < 0 <==> CmpAll(q, p) > 0
    ensures CmpAll(p, q) > 0 <==> CmpAll(q, p) < 0
  {
    if p != [] && q != [] {
      CmpOpposite(p[0], q[0]);
      CmpOpposite(q[0], p[0]);
      CmpAllOpposite(p[1..], q[1..]);
    }
  }

  /** The walk comes to one key before the other exactly if the peaks up to it come first. */
  lemma {:induction false} SoonerByPeaks(ks: seq<string>, ls: seq<string>, i: nat, j: nat)
    requires i < |ks| && j < |ls| && AllDifferent(ks) && AllDifferent(ls)
    ensures var s, c := Sooner(ks, ls, i, j), CmpAll(Peaks(ks[..i + 1]), Peaks(ls[..j + 1]));
            (s < 0 <==> c < 0) && (s > 0 <==> c > 0)
    decreases |ks| + |ls|
  {
    var diff, a, b := Cmp(ks[0], ls[0]), ks[..i + 1], ls[..j + 1];
    assert i > 0 ==> a[1..] == ks[1..][..i];
    assert j > 0 ==> b[1..] == ls[1..][..j];
    assert i == 0 ==> a[1..] == [];
    assert j == 0 ==> b[1..] == [];
    if diff < 0 {
      BelowPeak(a[0], b);
      StartBelow(a, Peaks(b));
      if i > 0 { SoonerByPeaks(ks[1..], ls, i - 1, j); }
    } else if diff > 0 {
      CmpOpposite(ls[0], ks[0]);
      BelowPeak(b[0], a);
      StartBelow(b, Peaks(a));
      CmpAllOpposite(Peaks(a), Peaks(b));
      CmpAllOpposite(Peaks(a), Peaks(b[1..]));
      if j > 0 { SoonerByPeaks(ks, ls[1..], i, j - 1); }
    } else {
      CmpZero(ks[0], ls[0]);
      SameStart(a, b);
      if i > 0 && j > 0 { SoonerByPeaks(ks[1..], ls[1..], i - 1, j - 1); }
    }
  }

  // ---- Merging into something that is not an object ----

  /** With no null in it, an object merged into a non-object is itself. */
  lemma {:induction false} MergedFresh(target: Option<Value>, to: Json)
    requires target.Some? ==> !target.value.Obj? || !to.Object?
    requires Distinct(to, false) && NoNullMembers(to)
    ensures Merged(target, View(to, false)) == View(to, false)
    decreases Height(to)
  {
    if to.Object? {
      var vm := ViewMembers(to.members, false);
      ViewKeys(to.members, false);
      forall k | k in vm ensures vm[k] != Leaf(Null) && Merged(None, vm[k]) == vm[k] {
        var i :| 0 <= i < |to.members| && Fold(to.members[i].key, false) == k;
        ViewAt(to.members, i, false);
        MergedFresh(None, to.members[i].value);
        ViewIsNull(to.members[i].value, false);
      }
    }
  }

  // ---- Exactly when the round trip works ----

  /** The order in which the walk comes to two keys, from the keys up to them in folded order. */
  function PeakOrder(ms: seq<Member<Json>>, ns: seq<Member<Json>>, i: nat, j: nat): int
    requires i < |ms| && j < |ns|
  {
    CmpAll(Peaks(Keys(ms[..i + 1])), Peaks(Keys(ns[..j + 1])))
  }

  /**
   For every key that both objects have, up to case: the walk must not come to the new member
   first, and if it comes to both at once, the values must be equal or right in turn.
   */
  ghost predicate MergeRight(from: Json, to: Json)
    decreases Height(from), 1
  {
    from.Object? && to.Object? ==>
      (SortHeight(from.members, false); WalkRight(Sort(from.members, false), Sort(to.members, false)))
  }

  ghost predicate WalkRight(ms: seq<Member<Json>>, ns: seq<Member<Json>>)
    decreases MembersHeight(ms), 2
  {
    forall i, j | 0 <= i < |ms| && 0 <= j < |ns| && Lower(ms[i].key) == Lower(ns[j].key) ::
      var order := PeakOrder(ms, ns, i, j);
      order < 0 ||
      (order == 0 && (View(ms[i].value, false) == View(ns[j].value, false) || MergeRight(ms[i].value, ns[j].value)))
  }

  // ---- Sorting inside the trees does not matter ----

  /** The same tree up to member order, whatever the case mode. */
  ghost predicate Reordered(after: Json, before: Json) {
    && Distinct(after, false) && Distinct(before, false)
    && View(after, true) == View(before, true)
    && View(after, false) == View(before, false)
  }

  lemma {:induction false} DistinctBoth(j: Json)
    requires Distinct(j, false)
    ensures Distinct(j, true)
    decreases Height(j)
  {
    if j.Array? {
      forall i | 0 <= i < |j.items| ensures Distinct(j.items[i], true) {
        DistinctBoth(j.items[i]);
      }
    } else if j.Object? {
      DistinctKeysBoth(j.members);
      forall i | 0 <= i < |j.members| ensures Distinct(j.members[i].value, true) {
        DistinctBoth(j.members[i].value);
      }
    }
  }

  lemma DistinctKeysBoth(ms: seq<Member<Json>>)
    requires DistinctKeys(ms, false)
    ensures DistinctKeys(ms, true)
  {
    forall i, k | 0 <= i < k < |ms| ensures Fold(ms[i].key, true) != Fold(ms[k].key, true) {
      assert Fold(ms[i].key, false) != Fold(ms[k].key, false);
    }
  }

  lemma CompareReordered(a: Json, b: Json)
    requires Distinct(a, false) && Distinct(b, false)
    ensures Reordered(CompareJson(a, b, false).a, a) && Reordered(CompareJson(a, b, false).b, b)
  {
    DistinctBoth(a);
    DistinctBoth(b);
    CompareJsonKeeps(a, b, false, false);
    CompareJsonKeeps(a, b, false, true);
    hide CompareJson, View, Distinct, RawFree, Consistent;
  }

  lemma StrictDistinct(ms: seq<Member<Json>>)
    requires StrictOrder(ms)
    ensures DistinctKeys(ms, false) && DistinctKeys(ms, true) && AllDifferent(Keys(ms))
  {
    forall i, k | 0 <= i < k < |ms| ensures Lower(ms[i].key) != Lower(ms[k].key) {
      CmpZero(Lower(ms[i].key), Lower(ms[k].key));
    }
    DistinctKeysBoth(ms);
    forall i, k | 0 <= i < k < |ms| ensures Keys(ms)[i] != Keys(ms)[k] {
      assert Fold(ms[i].key, true) != Fold(ms[k].key, true);
    }
  }

  /** The same keys in strict order are the same list of keys. */
  lemma SameFirstKey(ms: seq<Member<Json>>, ns: seq<Member<Json>>)
    requires StrictOrder(ms) && StrictOrder(ns)
    requires ViewMembers(ms, true).Keys == ViewMembers(ns, true).Keys
    ensures (ms == [] <==> ns == []) && (ms != [] ==> ms[0].key == ns[0].key)
  {
    ViewKeys(ms, true);
    ViewKeys(ns, true);
    if ms != [] { assert Fold(ms[0].key, true) in ViewMembers(ms, true); }
    if ns != [] { assert Fold(ns[0].key, true) in ViewMembers(ns, true); }
    if ms != [] && ns != [] {
      var i :| 0 <= i < |ns| && Fold(ns[i].key, true) == ms[0].key;
      var k :| 0 <= k < |ms| && Fold(ms[k].key, true) == ns[0].key;
      CmpOpposite(Lower(ms[0].key), Lower(ns[0].key));
    }
  }

  lemma TailView(ms: seq<Member<Json>>, caseSensitive: bool)
    requires StrictOrder(ms) && ms != []
    ensures ViewMembers(ms[1..], caseSensitive) == ViewMembers(ms, caseSensitive) - {Fold(ms[0].key, caseSensitive)}
    ensures var k := Fold(ms[0].key, caseSensitive);
            k in ViewMembers(ms, caseSensitive) && ViewMembers(ms, caseSensitive)[k] == View(ms[0].value, caseSensitive)
  {
    StrictDistinct(ms);
    ViewRemove(ms, 0, caseSensitive);
    assert ms[..0] + ms[1..] == ms[1..];
    hide View, Fold;
  }

  /** Reordered objects, sorted, are the same lists of keys with reordered values. */
  lemma {:induction false} SortedAlike(ms: seq<Member<Json>>, ns: seq<Member<Json>>)
    requires StrictOrder(ms) && StrictOrder(ns) && DistinctValues(ms, false) && DistinctValues(ns, false)
    requires ViewMembers(ms, true) == ViewMembers(ns, true) && ViewMembers(ms, false) == ViewMembers(ns, false)
    ensures |ms| == |ns|
    ensures forall i | 0 <= i < |ms| :: ms[i].key == ns[i].key && Reordered(ms[i].value, ns[i].value)
    decreases |ms|
  {
    SameFirstKey(ms, ns);
    if ms != [] {
      TailView(ms, true);
      TailView(ms, false);
      TailView(ns, true);
      TailView(ns, false);
      hide View, ViewMembers, Distinct, Fold;
      assert StrictOrder(ms[1..]) && StrictOrder(ns[1..]);
      SortedAlike(ms[1..], ns[1..]);
      forall i | 0 <= i < |ms| ensures ms[i].key == ns[i].key && Reordered(ms[i].value, ns[i].value) {
        if i > 0 { assert ms[i] == ms[1..][i - 1] && ns[i] == ns[1..][i - 1]; }
      }
    }
  }

  lemma ReorderedSorts(a: Json, b: Json)
    requires Reordered(a, b) && a.Object? && b.Object?
    ensures var ms, ns := Sort(a.members, false), Sort(b.members, false);
            |ms| == |ns| && forall i | 0 <= i < |ms| :: ms[i].key == ns[i].key && Reordered(ms[i].value, ns[i].value)
  {
    SortsBothWays(a.members);
    SortsBothWays(b.members);
    hide Sort, Distinct, ViewMembers, Fold, Reordered;
    SortedAlike(Sort(a.members, false), Sort(b.members, false));
  }

  lemma SortsBothWays(ms: seq<Member<Json>>)
    requires Distinct(Object(ms), false)
    ensures var r := Sort(ms, false);
            && StrictOrder(r) && DistinctValues(r, false)
            && ViewMembers(r, true) == ViewMembers(ms, true) && ViewMembers(r, false) == ViewMembers(ms, false)
  {
    DistinctKeysBoth(ms);
    SortStrict(ms);
    SortKeeps(ms, false, false);
    SortKeepsView(ms, false, true);
    hide Sort, Fold;
  }

  lemma {:induction false} RightReordered(a: Json, a0: Json, b: Json, b0: Json)
    requires Reordered(a, a0) && Reordered(b, b0) && MergeRight(a0, b0)
    ensures MergeRight(a, b)
    decreases Height(a)
  {
    if a.Object? && b.Object? {
      var ms, ns, ms0, ns0 := Sort(a.members, false), Sort(b.members, false), Sort(a0.members, false), Sort(b0.members, false);
      ReorderedSorts(a, a0);
      ReorderedSorts(b, b0);
      SortHeight(a.members, false);
      hide Sort, Reordered, Fold;
      forall i, j | 0 <= i < |ms| && 0 <= j < |ns| && Lower(ms[i].key) == Lower(ns[j].key)
        ensures PeakOrder(ms, ns, i, j) == PeakOrder(ms0, ns0, i, j)
        ensures View(ms0[i].value, false) == View(ns0[j].value, false) ==> View(ms[i].value, false) == View(ns[j].value, false)
        ensures MergeRight(ms0[i].value, ns0[j].value) ==> MergeRight(ms[i].value, ns[j].value)
      {
        assert Keys(ms[..i + 1]) == Keys(ms0[..i + 1]) && Keys(ns[..j + 1]) == Keys(ns0[..j + 1]);
        ViewsAlike(ms[i].value, ms0[i].value);
        ViewsAlike(ns[j].value, ns0[j].value);
        if MergeRight(ms0[i].value, ns0[j].value) {
          RightReordered(ms[i].value, ms0[i].value, ns[j].value, ns0[j].value);
        }
      }
      hide View, PeakOrder, Lower;
    }
  }

  lemma ViewsAlike(a: Json, b: Json)
    requires Reordered(a, b)
    ensures View(a, false) == View(b, false)
  {
  }

  lemma ReorderedBack(a: Json, b: Json)
    requires Reordered(a, b)
    ensures Reordered(b, a)
  {
  }

  // ---- The walk, seen by the positions of the keys ----

  ghost predicate ChildFine(x: Json, y: Json) {
    View(x, false) == View(y, false) || MergeRight(x, y)
  }

  ghost predicate Fine(ms: seq<Member<Json>>, ns: seq<Member<Json>>) {
    forall i, j | 0 <= i < |ms| && 0 <= j < |ns| && Lower(ms[i].key) == Lower(ns[j].key) :: FineAt(ms, ns, i, j)
  }

  ghost predicate FineAt(ms: seq<Member<Json>>, ns: seq<Member<Json>>, i: nat, j: nat)
    requires i < |ms| && j < |ns|
  {
    var order := Sooner(Keys(ms), Keys(ns), i, j);
    order < 0 || (order == 0 && ChildFine(ms[i].value, ns[j].value))
  }

  lemma FineIsRight(ms: seq<Member<Json>>, ns: seq<Member<Json>>)
    requires StrictOrder(ms) && StrictOrder(ns)
    ensures Fine(ms, ns) <==> WalkRight(ms, ns)
  {
    StrictDistinct(ms);
    StrictDistinct(ns);
    hide Sooner, Peaks, CmpAll, View, MergeRight, AllDifferent, DistinctKeys, Lower;
    forall i, j | 0 <= i < |ms| && 0 <= j < |ns|
      ensures FineAt(ms, ns, i, j) <==>
              var order := PeakOrder(ms, ns, i, j);
              order < 0 || (order == 0 && ChildFine(ms[i].value, ns[j].value))
    {
      SoonerByPeaks(Keys(ms), Keys(ns), i, j);
      assert Keys(ms)[..i + 1] == Keys(ms[..i + 1]) && Keys(ns)[..j + 1] == Keys(ns[..j + 1]);
    }
    hide PeakOrder, FineAt;
  }

  lemma KeysTail(ms: seq<Member<Json>>)
    requires ms != []
    ensures Keys(ms)[1..] == Keys(ms[1..]) && Keys(ms)[0] == ms[0].key
  {
  }

  /** An old member that the walk comes to first. */
  lemma FineOld(ms: seq<Member<Json>>, ns: seq<Member<Json>>)
    requires ms != [] && (ns == [] || Cmp(ms[0].key, ns[0].key) < 0)
    ensures Fine(ms, ns) <==> Fine(ms[1..], ns)
  {
    KeysTail(ms);
    hide Lower, Cmp, ChildFine, Keys;
    if ns != [] {
      assert Keys(ns)[0] == ns[0].key by { KeysTail(ns); }
      forall i, j | 0 <= i < |ms| && 0 <= j < |ns| ensures FineAt(ms, ns, i, j) <==> i == 0 || FineAt(ms[1..], ns, i - 1, j) {
        if i > 0 { assert ms[i] == ms[1..][i - 1]; }
      }
      hide FineAt;
      if Fine(ms[1..], ns) {
        forall i, j | 0 <= i < |ms| && 0 <= j < |ns| && Lower(ms[i].key) == Lower(ns[j].key) ensures FineAt(ms, ns, i, j) {
          if i > 0 { assert ms[1..][i - 1] == ms[i] && FineAt(ms[1..], ns, i - 1, j); }
        }
      }
      if Fine(ms, ns) {
        forall i, j | 0 <= i < |ms[1..]| && 0 <= j < |ns| && Lower(ms[1..][i].key) == Lower(ns[j].key)
          ensures FineAt(ms[1..], ns, i, j)
        {
          assert ms[1..][i] == ms[i + 1] && FineAt(ms, ns, i + 1, j);
        }
      }
    }
  }

  /** A new member that the walk comes to first: fine only if there is no old one. */
  lemma FineNew(ms: seq<Member<Json>>, ns: seq<Member<Json>>)
    requires ns != [] && (ms == [] || Cmp(ms[0].key, ns[0].key) > 0)
    ensures Fine(ms, ns) <==> Fine(ms, ns[1..]) && forall i | 0 <= i < |ms| :: Lower(ms[i].key) != Lower(ns[0].key)
  {
    KeysTail(ns);
    hide Lower, Cmp, ChildFine, Keys;
    if ms != [] {
      assert Keys(ms)[0] == ms[0].key by { KeysTail(ms); }
      forall i, j | 0 <= i < |ms| && 0 <= j < |ns| ensures FineAt(ms, ns, i, j) <==> j > 0 && FineAt(ms, ns[1..], i, j - 1) {
        if j > 0 { assert ns[j] == ns[1..][j - 1]; }
      }
      hide FineAt;
      if Fine(ms, ns) {
        forall i | 0 <= i < |ms| ensures Lower(ms[i].key) != Lower(ns[0].key) {
          if Lower(ms[i].key) == Lower(ns[0].key) { assert false; }
        }
        forall i, j | 0 <= i < |ms| && 0 <= j < |ns[1..]| && Lower(ms[i].key) == Lower(ns[1..][j].key)
          ensures FineAt(ms, ns[1..], i, j)
        {
          assert ns[1..][j] == ns[j + 1] && FineAt(ms, ns, i, j + 1);
        }
      }
      if Fine(ms, ns[1..]) && forall i | 0 <= i < |ms| :: Lower(ms[i].key) != Lower(ns[0].key) {
        forall i, j | 0 <= i < |ms| && 0 <= j < |ns| && Lower(ms[i].key) == Lower(ns[j].key) ensures FineAt(ms, ns, i, j) {
          assert j > 0 && ns[1..][j - 1] == ns[j] && FineAt(ms, ns[1..], i, j - 1);
        }
      }
    }
  }

  /** A member that the walk finds in both. */
  lemma FineBoth(ms: seq<Member<Json>>, ns: seq<Member<Json>>)
    requires StrictOrder(ms) && StrictOrder(ns) && ms != [] && ns != [] && ms[0].key == ns[0].key
    ensures Fine(ms, ns) <==> ChildFine(ms[0].value, ns[0].value) && Fine(ms[1..], ns[1..])
  {
    KeysTail(ms);
    KeysTail(ns);
    CmpZero(ms[0].key, ns[0].key);
    StrictDistinct(ms);
    StrictDistinct(ns);
    hide Cmp, ChildFine, Keys;
    assert FineAt(ms, ns, 0, 0) <==> ChildFine(ms[0].value, ns[0].value);
    forall i, j | 0 < i < |ms| && 0 < j < |ns| ensures FineAt(ms, ns, i, j) <==> FineAt(ms[1..], ns[1..], i - 1, j - 1) {
      assert ms[i] == ms[1..][i - 1] && ns[j] == ns[1..][j - 1];
    }
    hide FineAt;
    if Fine(ms, ns) {
      assert FineAt(ms, ns, 0, 0);
      forall i, j | 0 <= i < |ms[1..]| && 0 <= j < |ns[1..]| && Lower(ms[1..][i].key) == Lower(ns[1..][j].key)
        ensures FineAt(ms[1..], ns[1..], i, j)
      {
        assert ms[1..][i] == ms[i + 1] && ns[1..][j] == ns[j + 1] && FineAt(ms, ns, i + 1, j + 1);
      }
    }
    if ChildFine(ms[0].value, ns[0].value) && Fine(ms[1..], ns[1..]) {
      forall i, j | 0 <= i < |ms| && 0 <= j < |ns| && Lower(ms[i].key) == Lower(ns[j].key) ensures FineAt(ms, ns, i, j) {
        if i > 0 && j > 0 {
          assert ms[1..][i - 1] == ms[i] && ns[1..][j - 1] == ns[j] && FineAt(ms[1..], ns[1..], i - 1, j - 1);
        } else if i > 0 {
          assert Fold(ms[0].key, false) != Fold(ms[i].key, false);
        } else if j > 0 {
          assert Fold(ns[0].key, false) != Fold(ns[j].key, false);
        }
      }
    }
  }

  // ---- What the generated members do, in order ----

  ghost predicate Walks(ms: seq<Member<Json>>) {
    StrictOrder(ms) && DistinctValues(ms, false) && RawFreeValues(ms)
  }

  lemma WalksTail(ms: seq<Member<Json>>)
    requires Walks(ms) && ms != []
    ensures Walks(ms[1..])
    ensures var x := ms[0].value; Distinct(x, false) && RawFree(x)
    ensures Lower(ms[0].key) !in ViewMembers(ms[1..], false)
    ensures ViewMembers(ms, false) == ViewMembers(ms[1..], false)[Lower(ms[0].key) := View(ms[0].value, false)]
  {
    ViewOfHead(ms);
    hide View, Distinct, RawFree, Lower;
  }

  lemma NoNullsTail(ns: seq<Member<Json>>)
    requires NoNulls(ns) && ns != []
    ensures NoNulls(ns[1..]) && !ns[0].value.Null? && NoNullMembers(ns[0].value)
  { }

  lemma {:induction false} FieldsAppend(base: Fields, a: seq<Member<Json>>, b: seq<Member<Json>>)
    ensures FieldsInOrder(base, a + b, false) == FieldsInOrder(FieldsInOrder(base, a, false), b, false)
    decreases |a|
  {
    hide FieldInOrder;
    if a == [] {
      assert a + b == b;
    } else {
      assert (a + b)[1..] == a[1..] + b && (a + b)[0] == a[0];
      FieldsAppend(FieldInOrder(base, a[0], false), a[1..], b);
    }
  }

  lemma OneField(base: Fields, p: Member<Json>)
    ensures FieldsInOrder(base, [p], false) == FieldInOrder(base, p, false)
  {
    hide FieldInOrder;
    assert [p][1..] == [];
  }

  /** What the first step of the walk emits, and what is left of both lists. */
  function Emitted(ms: seq<Member<Json>>, ns: seq<Member<Json>>): seq<Member<Json>>
    requires ms != [] || ns != []
  {
    var diff := Lead(ms, ns);
    if diff < 0 then [Member(ms[0].key, Null)] else if diff > 0 then [ns[0]] else GenerateChild(ms[0], ns[0])
  }

  /** Which head of the two lists comes next: negative for the old one, 0 for both. */
  function Lead(ms: seq<Member<Json>>, ns: seq<Member<Json>>): (diff: int)
    ensures ms != [] || ns != [] ==> (diff <= 0 ==> ms != []) && (diff >= 0 ==> ns != [])
  {
    if ms == [] then 1 else if ns == [] then -1 else Cmp(ms[0].key, ns[0].key)
  }

  function Rest(ms: seq<Member<Json>>, left: bool): seq<Member<Json>> {
    if left && ms != [] then ms[1..] else ms
  }

  lemma EmittedThen(base: Fields, ms: seq<Member<Json>>, ns: seq<Member<Json>>)
    requires ms != [] || ns != []
    ensures var diff := Lead(ms, ns);
            GenerateMembers(ms, ns) == Emitted(ms, ns) + GenerateMembers(Rest(ms, diff <= 0), Rest(ns, diff >= 0))
    ensures var diff := Lead(ms, ns);
            FieldsInOrder(base, GenerateMembers(ms, ns), false) ==
            FieldsInOrder(FieldsInOrder(base, Emitted(ms, ns), false),
                          GenerateMembers(Rest(ms, diff <= 0), Rest(ns, diff >= 0)), false)
  {
    hide Cmp, FieldsInOrder, GenerateChild;
    var diff := Lead(ms, ns);
    FieldsAppend(base, Emitted(ms, ns), GenerateMembers(Rest(ms, diff <= 0), Rest(ns, diff >= 0)));
  }

  lemma ChildShape(m: Member<Json>, n: Member<Json>)
    ensures var c := GenerateChild(m, n); |c| <= 1 && (c != [] ==> c[0].key == n.key)
  {
    hide CompareJson, Generate;
  }

  /** One step concerns one key. */
  lemma EmittedKey(base: Fields, ms: seq<Member<Json>>, ns: seq<Member<Json>>, k: string)
    requires ms != [] || ns != []
    requires Lead(ms, ns) < 0 ==> k != Lower(ms[0].key)
    requires Lead(ms, ns) >= 0 ==> k != Lower(ns[0].key)
    ensures var after := FieldsInOrder(base, Emitted(ms, ns), false);
            (k in after <==> k in base) && (k in base ==> after[k] == base[k])
  {
    hide Cmp, Lower, MergedInOrder;
    var e := Emitted(ms, ns);
    if Lead(ms, ns) == 0 { ChildShape(ms[0], ns[0]); }
    hide GenerateChild;
    if e != [] {
      OneField(base, e[0]);
      assert e == [e[0]];
    }
  }

  /** A key that neither list has is left alone. */
  lemma {:induction false} Untouched(base: Fields, ms: seq<Member<Json>>, ns: seq<Member<Json>>, k: string)
    requires k !in ViewMembers(ms, false) && k !in ViewMembers(ns, false)
    ensures var after := FieldsInOrder(base, GenerateMembers(ms, ns), false);
            (k in after <==> k in base) && (k in base ==> after[k] == base[k])
    decreases |ms| + |ns|
  {
    if ms != [] || ns != [] {
      var diff := Lead(ms, ns);
      hide Emitted, GenerateMembers, FieldsInOrder, View;
      EmittedThen(base, ms, ns);
      EmittedKey(base, ms, ns, k);
      Untouched(FieldsInOrder(base, Emitted(ms, ns), false), Rest(ms, diff <= 0), Rest(ns, diff >= 0), k);
    } else {
      assert GenerateMembers(ms, ns) == [];
    }
  }

  /** A key that only the old list has is deleted, whatever there was. */
  lemma {:induction false} Deleted(base: Fields, ms: seq<Member<Json>>, ns: seq<Member<Json>>, k: string)
    requires StrictOrder(ms) && k in ViewMembers(ms, false) && k !in ViewMembers(ns, false)
    ensures k !in FieldsInOrder(base, GenerateMembers(ms, ns), false)
    decreases |ms| + |ns|
  {
    var diff := Lead(ms, ns);
    ViewOfHead(ms);
    if diff == 0 { CmpZero(ms[0].key, ns[0].key); }
    EmittedThen(base, ms, ns);
    var after := FieldsInOrder(base, Emitted(ms, ns), false);
    if diff < 0 && k == Lower(ms[0].key) {
      OneField(base, Member(ms[0].key, Null));
      assert k !in after;
      hide Emitted, GenerateMembers, FieldsInOrder, View;
      Untouched(after, ms[1..], ns, k);
    } else {
      hide Emitted, GenerateMembers, FieldsInOrder, View;
      Deleted(after, Rest(ms, diff <= 0), Rest(ns, diff >= 0), k);
    }
  }

  /** The old members gone, the new ones in. */
  ghost function Exchanged(fields: Fields, gone: Fields, come: Fields): Fields {
    (fields - gone.Keys) + come
  }

  /** The fields still have the old members, and none that are only new. */
  ghost predicate Ready(fields: Fields, gone: Fields, come: Fields) {
    (forall k | k in gone :: k in fields && fields[k] == gone[k]) && forall k | k in come && k !in gone :: k !in fields
  }

  lemma ExchangeOld(fields: Fields, k: string, x: Value, gone: Fields, come: Fields)
    requires k !in gone && Ready(fields, gone[k := x], come)
    ensures Ready(fields - {k}, gone, come)
    ensures Exchanged(fields - {k}, gone, come) == Exchanged(fields, gone[k := x], come)
  {
  }

  lemma ExchangeNew(fields: Fields, k: string, y: Value, gone: Fields, come: Fields)
    requires k !in gone && k !in come && Ready(fields, gone, come[k := y])
    ensures Ready(fields[k := y], gone, come)
    ensures Exchanged(fields[k := y], gone, come) == Exchanged(fields, gone, come[k := y])
  {
  }

  lemma ExchangeBoth(fields: Fields, k: string, x: Value, y: Value, gone: Fields, come: Fields)
    requires k !in gone && k !in come && Ready(fields, gone[k := x], come[k := y])
    ensures Ready(fields[k := y], gone, come)
    ensures Exchanged(fields[k := y], gone, come) == Exchanged(fields, gone[k := x], come[k := y])
  {
  }

  // ---- Generated patches are tidy ----

  lemma TidyMore(a: seq<Member<Json>>, b: seq<Member<Json>>)
    requires TidyValues(a, false) && TidyValues(b, false)
    ensures TidyValues(a + b, false)
  {
  }

  lemma {:induction false} GenerateTidy(from: Json, to: Json)
    requires Distinct(from, false) && Distinct(to, false)
    ensures var g := Generate(from, to);
            g.Some? ==> Tidy(g.value, false) && (to.Null? <==> g.value.Null?)
    decreases Height(from), 0
  {
    if to.Object? && from.Object? {
      SortHeight(from.members, false);
      SortKeeps(from.members, false, false);
      SortKeeps(to.members, false, false);
      GenerateMembersTidy(Sort(from.members, false), Sort(to.members, false));
    } else {
      DistinctTidy(to, false);
    }
  }

  lemma {:induction false} GenerateMembersTidy(ms: seq<Member<Json>>, ns: seq<Member<Json>>)
    requires DistinctValues(ms, false) && DistinctValues(ns, false)
    ensures TidyValues(GenerateMembers(ms, ns), false)
    decreases MembersHeight(ms), |ms| + |ns|
  {
    if ms != [] || ns != [] {
      var diff := Lead(ms, ns);
      EmittedThen(map[], ms, ns);
      assert diff >= 0 ==> Distinct(ns[0].value, false);
      if diff == 0 {
        assert Distinct(ms[0].value, false);
        GenerateChildTidy(ms[0], ns[0]);
      } else if diff > 0 {
        DistinctTidy(ns[0].value, false);
      }
      assert TidyValues(Emitted(ms, ns), false);
      hide Emitted, GenerateMembers, FieldsInOrder, TidyValues, Cmp, Distinct;
      GenerateMembersTidy(Rest(ms, diff <= 0), Rest(ns, diff >= 0));
      TidyMore(Emitted(ms, ns), GenerateMembers(Rest(ms, diff <= 0), Rest(ns, diff >= 0)));
    } else {
      assert GenerateMembers(ms, ns) == [];
    }
  }

  lemma {:induction false} GenerateChildTidy(m: Member<Json>, n: Member<Json>)
    requires Distinct(m.value, false) && Distinct(n.value, false)
    ensures TidyValues(GenerateChild(m, n), false)
    decreases Height(m.value), 1
  {
    hide Distinct, View, RawFree, Consistent, CompareJson, Tidy, Generate, Height, NoNullMembers;
    CompareJsonKeeps(m.value, n.value, false, false);
    CompareAlike(m.value, n.value);
    var compared := CompareJson(m.value, n.value, false);
    GenerateTidy(compared.a, compared.b);
  }

  // ---- What the generated members lead to ----

  /** The walk generates members that lead to the new fields, if and only if it is fine. */
  ghost predicate Says(base: Fields, ms: seq<Member<Json>>, ns: seq<Member<Json>>) {
    FieldsInOrder(base, GenerateMembers(ms, ns), false) == Exchanged(base, ViewMembers(ms, false), ViewMembers(ns, false))
    <==> Fine(ms, ns)
  }

  lemma {:induction false} WalkSays(base: Fields, ms: seq<Member<Json>>, ns: seq<Member<Json>>)
    requires Walks(ms) && Walks(ns) && NoNulls(ns) && Ready(base, ViewMembers(ms, false), ViewMembers(ns, false))
    ensures Says(base, ms, ns)
    decreases MembersHeight(ms), |ms| + |ns|, 1
  {
    if ms == [] && ns == [] {
      assert GenerateMembers(ms, ns) == [];
      assert Exchanged(base, map[], map[]) == base;
    } else {
      var diff := Lead(ms, ns);
      hide Says, Walks, Ready, NoNulls;
      if diff < 0 {
        OldSays(base, ms, ns);
      } else if diff > 0 {
        NewSays(base, ms, ns);
      } else {
        BothSay(base, ms, ns);
      }
    }
  }

  lemma {:induction false} OldSays(base: Fields, ms: seq<Member<Json>>, ns: seq<Member<Json>>)
    requires Walks(ms) && Walks(ns) && NoNulls(ns) && Ready(base, ViewMembers(ms, false), ViewMembers(ns, false))
    requires (ms != [] || ns != []) && Lead(ms, ns) < 0
    ensures Says(base, ms, ns)
    decreases MembersHeight(ms), |ms| + |ns|, 0
  {
    var k := Lower(ms[0].key);
    EmittedThen(base, ms, ns);
    FineOld(ms, ns);
    WalksTail(ms);
    OneField(base, Member(ms[0].key, Null));
    hide View, Fine, Walks, Ready, FieldsInOrder, GenerateMembers, Exchanged, Cmp, Lower, NoNulls;
    ExchangeOld(base, k, View(ms[0].value, false), ViewMembers(ms[1..], false), ViewMembers(ns, false));
    WalkSays(base - {k}, ms[1..], ns);
  }

  /** What a new member under a new key adds. */
  lemma NewField(base: Fields, n: Member<Json>)
    requires Lower(n.key) !in base && Distinct(n.value, false) && NoNullMembers(n.value) && !n.value.Null?
    ensures FieldsInOrder(base, [n], false) == base[Lower(n.key) := View(n.value, false)]
  {
    OneField(base, n);
    InOrderIsMerged(None, n.value, false);
    MergedFresh(None, n.value);
    hide View, Lower, MergedInOrder, Merged, Distinct;
  }

  lemma {:induction false} NewSays(base: Fields, ms: seq<Member<Json>>, ns: seq<Member<Json>>)
    requires Walks(ms) && Walks(ns) && NoNulls(ns) && Ready(base, ViewMembers(ms, false), ViewMembers(ns, false))
    requires (ms != [] || ns != []) && Lead(ms, ns) > 0
    ensures Says(base, ms, ns)
    decreases MembersHeight(ms), |ms| + |ns|, 0
  {
    var k, y := Lower(ns[0].key), View(ns[0].value, false);
    var vm, come := ViewMembers(ms, false), ViewMembers(ns[1..], false);
    EmittedThen(base, ms, ns);
    FineNew(ms, ns);
    WalksTail(ns);
    NoNullsTail(ns);
    ViewKeys(ms, false);
    if k in vm {
      hide View, ViewMembers, Fine, FieldsInOrder, GenerateMembers, Cmp, Lower, NoNulls, Distinct;
      Deleted(FieldsInOrder(base, [ns[0]], false), ms, ns[1..], k);
    } else {
      hide View, ViewMembers, Fine, FieldsInOrder, GenerateMembers, Cmp, Lower, NoNulls, Distinct, Walks;
      NewField(base, ns[0]);
      ExchangeNew(base, k, y, vm, come);
      hide Exchanged, Ready;
      WalkSays(base[k := y], ms, ns[1..]);
    }
  }

  lemma {:induction false} BothSay(base: Fields, ms: seq<Member<Json>>, ns: seq<Member<Json>>)
    requires Walks(ms) && Walks(ns) && NoNulls(ns) && Ready(base, ViewMembers(ms, false), ViewMembers(ns, false))
    requires (ms != [] || ns != []) && Lead(ms, ns) == 0
    ensures Says(base, ms, ns)
    decreases MembersHeight(ms), |ms| + |ns|, 0
  {
    var k, x, y := Lower(ns[0].key), View(ms[0].value, false), View(ns[0].value, false);
    var gone, come := ViewMembers(ms[1..], false), ViewMembers(ns[1..], false);
    EmittedThen(base, ms, ns);
    CmpZero(ms[0].key, ns[0].key);
    WalksTail(ms);
    WalksTail(ns);
    NoNullsTail(ns);
    FineBoth(ms, ns);
    assert base[k] == x;
    var after := FieldsInOrder(base, GenerateChild(ms[0], ns[0]), false);
    hide View, ViewMembers, Fine, FieldsInOrder, GenerateMembers, GenerateChild, ChildFine, Cmp, Lower, NoNulls, Distinct, Walks;
    ChildSays(base, ms[0], ns[0]);
    ExchangeBoth(base, k, x, y, gone, come);
    if ChildFine(ms[0].value, ns[0].value) {
      hide Exchanged, Ready;
      WalkSays(after, ms[1..], ns[1..]);
    } else {
      Untouched(after, ms[1..], ns[1..], k);
    }
  }

  /** A key in both objects: the generated member, if any, leads to the new value if the values are fine. */
  lemma {:induction false} ChildSays(base: Fields, m: Member<Json>, n: Member<Json>)
    requires m.key == n.key && Lower(n.key) in base && base[Lower(n.key)] == View(m.value, false)
    requires Distinct(m.value, false) && RawFree(m.value) && Distinct(n.value, false) && RawFree(n.value)
    requires !n.value.Null? && NoNullMembers(n.value)
    ensures var k, after := Lower(n.key), FieldsInOrder(base, GenerateChild(m, n), false);
            && k in after && after == base[k := after[k]]
            && (after[k] == View(n.value, false) <==> ChildFine(m.value, n.value))
    ensures GenerateChild(m, n) == [] <==> View(m.value, false) == View(n.value, false)
    decreases Height(m.value), 1
  {
    hide View, Distinct, RawFree, Consistent, CompareJson, NoNullMembers, MergedInOrder, Lower, MergeRight, Height;
    CompareJsonIsViewEquality(m.value, n.value);
    CompareJsonKeeps(m.value, n.value, false, false);
    CompareAlike(m.value, n.value);
    CompareReordered(m.value, n.value);
    var c := CompareJson(m.value, n.value, false);
    if !c.equal {
      GenerateRight(c.a, c.b);
      GenerateTidy(c.a, c.b);
      SameRight(c.a, m.value, c.b, n.value);
      hide Generate;
      var g := Generate(c.a, c.b);
      OneField(base, Member(n.key, g.value));
    }
  }

  lemma SameRight(a: Json, a0: Json, b: Json, b0: Json)
    requires Reordered(a, a0) && Reordered(b, b0)
    ensures MergeRight(a, b) <==> MergeRight(a0, b0)
  {
    hide MergeRight, Reordered;
    ReorderedBack(a, a0);
    ReorderedBack(b, b0);
    if MergeRight(a0, b0) { RightReordered(a, a0, b, b0); }
    if MergeRight(a, b) { RightReordered(a0, a, b0, b); }
  }

  /**
   Taken in order, the generated patch turns what `from` means into what `to` means exactly if
   the pair is right; where there is no patch, the two mean the same already.
   */
  lemma {:induction false} GenerateRight(from: Json, to: Json)
    requires Distinct(from, false) && RawFree(from)
    requires Distinct(to, false) && RawFree(to) && NoNullMembers(to)
    ensures var g := Generate(from, to);
            if g.None? then View(from, false) == View(to, false) && MergeRight(from, to)
            else MergedInOrder(Some(View(from, false)), g.value, false) == View(to, false) <==> MergeRight(from, to)
    decreases Height(from), 0, 2
  {
    if !to.Object? || !from.Object? {
      if to.Object? {
        InOrderIsMerged(Some(View(from, false)), to, false);
        MergedFresh(Some(View(from, false)), to);
      }
    } else {
      ObjectsRight(from, to);
      hide Fine, GenerateMembers, Distinct, Sort, WalkRight, FieldsInOrder, ViewMembers, NoNullMembers, RawFree;
      var ms := GenerateMembers(Sort(from.members, false), Sort(to.members, false));
      assert ms == [] ==> FieldsInOrder(ViewMembers(from.members, false), ms, false) == ViewMembers(from.members, false) by { NoFields(ViewMembers(from.members, false)); }
    }
  }

  lemma NoFields(base: Fields)
    ensures FieldsInOrder(base, [], false) == base
  {
  }

  lemma {:induction false} ObjectsRight(from: Json, to: Json)
    requires Distinct(from, false) && RawFree(from)
    requires Distinct(to, false) && RawFree(to) && NoNullMembers(to)
    requires from.Object? && to.Object?
    ensures var ms := GenerateMembers(Sort(from.members, false), Sort(to.members, false));
            var f, t := ViewMembers(from.members, false), ViewMembers(to.members, false);
            && (FieldsInOrder(f, ms, false) == t <==> MergeRight(from, to))
            && (ms == [] ==> f == t)
    decreases Height(from), 0, 1
  {
    hide Walks, Distinct, Sort, View, ViewMembers, RawFree, WalkRight, GenerateMembers, FieldsInOrder, Fine, NoNulls, MergeRight;
    hide Height, MembersHeight, NoNullMembers;
    var ms, ns := Sort(from.members, false), Sort(to.members, false);
    ObjectsSorted(from, to);
    var f, t := ViewMembers(ms, false), ViewMembers(ns, false);
    ReadyAtFirst(f, t);
    WalkSays(f, ms, ns);
    hide Exchanged, Ready;
    WalksStrict(ms);
    WalksStrict(ns);
    FineIsRight(ms, ns);
    NothingGenerated(ms, ns);
  }

  lemma ReadyAtFirst(gone: Fields, come: Fields)
    ensures Ready(gone, gone, come) && Exchanged(gone, gone, come) == come
  {
  }

  lemma ObjectsSorted(from: Json, to: Json)
    requires Distinct(from, false) && RawFree(from)
    requires Distinct(to, false) && RawFree(to) && NoNullMembers(to)
    requires from.Object? && to.Object?
    ensures var ms, ns := Sort(from.members, false), Sort(to.members, false);
            && Walks(ms) && Walks(ns) && NoNulls(ns) && MembersHeight(ms) < Height(from)
            && ViewMembers(ms, false) == ViewMembers(from.members, false)
            && ViewMembers(ns, false) == ViewMembers(to.members, false)
            && (MergeRight(from, to) <==> WalkRight(ms, ns))
  {
    SortHeight(from.members, false);
    SortWalks(from.members);
    SortWalks(to.members);
    SortNoNulls(to.members);
    hide Sort, Walks, NoNulls, WalkRight, View, ViewMembers;
  }

  lemma WalksStrict(ms: seq<Member<Json>>)
    requires Walks(ms)
    ensures StrictOrder(ms)
  {
  }

  /** Nothing is generated exactly for the same keys with values that mean the same. */
  lemma {:induction false} NothingGenerated(ms: seq<Member<Json>>, ns: seq<Member<Json>>)
    requires Walks(ms) && Walks(ns) && NoNulls(ns)
    ensures GenerateMembers(ms, ns) == [] <==> Keys(ms) == Keys(ns) && ViewMembers(ms, false) == ViewMembers(ns, false)
    decreases MembersHeight(ms), |ms| + |ns|, 2
  {
    if ms == [] && ns == [] {
      assert GenerateMembers(ms, ns) == [];
    } else if Lead(ms, ns) != 0 {
      EmittedThen(map[], ms, ns);
      if ms != [] && ns != [] { CmpZero(ms[0].key, ns[0].key); KeysTail(ms); KeysTail(ns); }
      hide GenerateMembers;
    } else {
      EmittedThen(map[], ms, ns);
      CmpZero(ms[0].key, ns[0].key);
      WalksTail(ms);
      WalksTail(ns);
      NoNullsTail(ns);
      KeysTail(ms);
      KeysTail(ns);
      hide GenerateMembers, GenerateChild, View, ViewMembers, Walks, NoNulls, Distinct, Lower, FieldsInOrder;
      ChildSays(map[Lower(ns[0].key) := View(ms[0].value, false)], ms[0], ns[0]);
      NothingGenerated(ms[1..], ns[1..]);
      SameCons(Keys(ms), Keys(ns));
      SameUpdate(ViewMembers(ms[1..], false), ViewMembers(ns[1..], false), Lower(ns[0].key),
                 View(ms[0].value, false), View(ns[0].value, false));
    }
  }

  lemma SameCons(a: seq<string>, b: seq<string>)
    requires a != [] && b != [] && a[0] == b[0]
    ensures a == b <==> a[1..] == b[1..]
  {
    assert a == [a[0]] + a[1..] && b == [b[0]] + b[1..];
  }

  lemma SameUpdate(f: Fields, g: Fields, k: string, x: Value, y: Value)
    requires k !in f && k !in g
    ensures f[k := x] == g[k := y] <==> f == g && x == y
  {
    assert f == f[k := x] - {k} && g == g[k := y] - {k};
    assert f[k := x][k] == x && g[k := y][k] == y;
  }

  lemma SortWalks(ms: seq<Member<Json>>)
    requires Distinct(Object(ms), false) && RawFreeValues(ms)
    ensures Walks(Sort(ms, false)) && ViewMembers(Sort(ms, false), false) == ViewMembers(ms, false)
  {
    SortKeeps(ms, false, false);
    SortStrict(ms);
    hide Distinct, RawFree, Sort;
  }

  lemma SortNoNulls(ms: seq<Member<Json>>)
    requires NoNulls(ms)
    ensures NoNulls(Sort(ms, false))
  {
    SortPermutes(ms, false);
    var r := Sort(ms, false);
    forall i | 0 <= i < |r| ensures !r[i].value.Null? && NoNullMembers(r[i].value) {
      assert r[i] in multiset(ms);
    }
    hide NoNullMembers, Sort;
  }

  // ---- The round trip ----

  /** The patch is NULL exactly for two objects with the same keys that mean the same. */
  lemma NullPatch(from: Json, to: Json)
    requires Distinct(from, false) && RawFree(from)
    requires Distinct(to, false) && RawFree(to) && NoNullMembers(to)
    ensures Generate(from, to).None? <==>
            && from.Object? && to.Object? && View(from, false) == View(to, false)
            && ViewMembers(from.members, true).Keys == ViewMembers(to.members, true).Keys
  {
    if from.Object? && to.Object? {
      var ms, ns := Sort(from.members, false), Sort(to.members, false);
      SortWalks(from.members);
      SortWalks(to.members);
      SortNoNulls(to.members);
      SortsBothWays(from.members);
      SortsBothWays(to.members);
      hide Walks, Sort, Distinct, RawFree, NoNulls, GenerateMembers, ViewMembers;
      NothingGenerated(ms, ns);
      SameKeys(ms, ns);
    }
  }

  lemma {:induction false} SameKeys(ms: seq<Member<Json>>, ns: seq<Member<Json>>)
    requires StrictOrder(ms) && StrictOrder(ns)
    ensures Keys(ms) == Keys(ns) <==> ViewMembers(ms, true).Keys == ViewMembers(ns, true).Keys
    decreases |ms|
  {
    if Keys(ms) == Keys(ns) {
      KeysSet(ms);
      KeysSet(ns);
      assert |Keys(ms)| == |Keys(ns)|;
      forall k ensures k in ViewMembers(ms, true) <==> k in ViewMembers(ns, true) { }
    }
    if ViewMembers(ms, true).Keys == ViewMembers(ns, true).Keys {
      SameFirstKey(ms, ns);
      if ms != [] {
        TailView(ms, true);
        TailView(ns, true);
        hide ViewMembers, View;
        assert ViewMembers(ms[1..], true).Keys == ViewMembers(ns[1..], true).Keys;
        SameKeys(ms[1..], ns[1..]);
        KeysTail(ms);
        KeysTail(ns);
        SameCons(Keys(ms), Keys(ns));
      }
    }
  }

  lemma KeysSet(ms: seq<Member<Json>>)
    ensures forall k :: k in ViewMembers(ms, true) <==> k in Keys(ms)
  {
    ViewKeys(ms, true);
    forall k ensures k in ViewMembers(ms, true) <==> k in Keys(ms) {
      if k in Keys(ms) {
        var i :| 0 <= i < |Keys(ms)| && Keys(ms)[i] == k;
        assert Fold(ms[i].key, true) == k;
      }
      if k in ViewMembers(ms, true) {
        var i :| 0 <= i < |ms| && Fold(ms[i].key, true) == k;
        assert Keys(ms)[i] == k;
      }
    }
  }

  /**
   Merging the generated patch into a document that means `from` gives what `to` means if and
   only if the order of the walk is right for every key that both have.
   */
  lemma MergePatchRoundTrip(document: Json, from: Json, to: Json)
    requires Distinct(from, false) && RawFree(from)
    requires Distinct(to, false) && RawFree(to) && NoNullMembers(to)
    requires Means(document, View(from, false))
    ensures var g := Generate(from, to);
            (if g.None? then View(document, false) == View(to, false)
             else Means(Merge(Some(document), g.value, false), View(to, false)))
            <==> MergeRight(from, to)
  {
    hide View, Distinct, Merge, MergedInOrder, Generate, NoNullMembers, RawFree, Height, MergeRight, Tidy;
    GenerateRight(from, to);
    GenerateTidy(from, to);
    var g := Generate(from, to);
    if g.Some? { MergeInOrder(Some(document), g.value, false); }
  }

  // ---- Keys that `tolower` leaves alone ----

  predicate LowerKeys(ms: seq<Member<Json>>) {
    forall i | 0 <= i < |ms| :: Lower(ms[i].key) == ms[i].key
  }

  /** Keys of objects, at any depth of nested objects, are unchanged by `tolower`. */
  predicate LowerCase(j: Json) {
    match j
    case Object(members) => LowerKeys(members) && LowerValues(members)
    case _ => true
  }

  predicate LowerValues(ms: seq<Member<Json>>) {
    forall i | 0 <= i < |ms| :: LowerCase(ms[i].value)
  }

  lemma SortLower(ms: seq<Member<Json>>)
    requires LowerKeys(ms) && LowerValues(ms)
    ensures LowerKeys(Sort(ms, false)) && LowerValues(Sort(ms, false))
  {
    SortPermutes(ms, false);
    var r := Sort(ms, false);
    forall i | 0 <= i < |r| ensures Lower(r[i].key) == r[i].key && LowerCase(r[i].value) {
      assert r[i] in multiset(ms);
    }
    hide LowerCase, Sort;
  }

  /** Of keys in order only the last is a peak. */
  lemma {:induction false} PeaksAscending(ks: seq<string>)
    requires ks != [] && forall i, j | 0 <= i < j < |ks| :: Cmp(ks[i], ks[j]) < 0
    ensures Peaks(ks) == [ks[|ks| - 1]]
  {
    if |ks| > 1 {
      PeaksAscending(ks[1..]);
      CmpOpposite(ks[0], ks[|ks| - 1]);
      CmpOpposite(ks[|ks| - 1], ks[0]);
    }
  }

  /** Then folded order is byte order, and the round trip always works. */
  lemma {:induction false} LowerCaseRight(from: Json, to: Json)
    requires Distinct(from, false) && Distinct(to, false) && LowerCase(from) && LowerCase(to)
    ensures MergeRight(from, to)
    decreases Height(from)
  {
    if from.Object? && to.Object? {
      var ms, ns := Sort(from.members, false), Sort(to.members, false);
      SortHeight(from.members, false);
      SortsBothWays(from.members);
      SortsBothWays(to.members);
      SortLower(from.members);
      SortLower(to.members);
      forall i, j | 0 <= i < |ms| && 0 <= j < |ns| && Lower(ms[i].key) == Lower(ns[j].key)
        ensures PeakOrder(ms, ns, i, j) == 0 && MergeRight(ms[i].value, ns[j].value)
      {
        LowerPeak(ms, i);
        LowerPeak(ns, j);
        CmpZero(ms[i].key, ns[j].key);
        OneKey(ms[i].key);
        LowerCaseRight(ms[i].value, ns[j].value);
      }
      hide Sort, PeakOrder, View, Lower;
    }
  }

  lemma OneKey(k: string)
    ensures CmpAll([k], [k]) == 0
  {
    CmpZero(k, k);
    assert [k][1..] == [];
  }

  lemma LowerPeak(ms: seq<Member<Json>>, i: nat)
    requires StrictOrder(ms) && LowerKeys(ms) && i < |ms|
    ensures Lower(ms[i].key) == ms[i].key && Peaks(Keys(ms[..i + 1])) == [ms[i].key]
  {
    var ks := Keys(ms[..i + 1]);
    forall a, b | 0 <= a < b < |ks| ensures Cmp(ks[a], ks[b]) < 0 {
      assert Before(ms[a].key, ms[b].key, false) && Lower(ms[a].key) == ms[a].key && Lower(ms[b].key) == ms[b].key;
    }
    PeaksAscending(ks);
  }

  /** An upper-case key can be wrong: up to "B" the walk meets "a" in one list, and nothing in the other. */
  lemma MixedCaseWrong(x: Json, y: Json)
    ensures !MergeRight(Object([Member("a", x), Member("B", y)]), Object([Member("B", y)]))
  {
    var ms, ns := [Member("a", x), Member("B", y)], [Member("B", y)];
    assert Lower("a")[0] == 'a' && Lower("B")[0] == 'b';
    assert Before("a", "B", false);
    assert Ascending(ms, false);
    assert Sort(ms, false) == ms && Sort(ns, false) == ns;
    assert Cmp("a", "B") > 0;
    hide Cmp, Lower, Sort, Ascending, View;
    assert Keys(ms[..1 + 1]) == ["a", "B"] && Keys(ns[..0 + 1]) == ["B"];
    assert ["a", "B"][1..] == ["B"] && ["B"][1..] == [];
    assert Peaks(["B"]) == ["B"];
    assert Peaks(["a", "B"]) == ["a"] + ["B"];
    assert PeakOrder(ms, ns, 1, 0) > 0;
    assert Lower(ms[1].key) == Lower(ns[0].key);
  }
}
