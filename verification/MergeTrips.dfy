/**
 The merge-patch round trip on trees that know what first members point back at: exactly when
 it breaks a list, in terms of the two operands, and in place.
 */
module MergeTrips {
  import opened Options
  import opened CString
  import opened Json
  import opened MemberSort
  import opened Compare
  import opened Links
  import opened MergePatch
  import opened MergeDiff
  import opened LinkedRun
  import opened LinkedDiff
  import opened LinkedMerge
  import opened Strays
  import opened Operands

  // ---- What the generated patch says about a key ----

  /** The member that is generated for a key that the walk meets in both lists, if any. */
  function Child(m: Member<Json>, n: Member<Json>): Option<Json> {
    var g := GenerateChild(m, n);
    if g == [] then None else Some(g[0].value)
  }

  /** The first member of the patch with the key: the one that the walk comes to first. */
  function FirstSaid(ms: seq<Member<Json>>, ns: seq<Member<Json>>, key: string): Option<Json> {
    var i, j := FindMember(ms, key, false), FindMember(ns, key, false);
    if i == |ms| then (if j == |ns| then None else Some(ns[j].value))
    else if j == |ns| then Some(Null)
    else
      var order := Sooner(Keys(ms), Keys(ns), i, j);
      if order < 0 then Some(Null) else if order > 0 then Some(ns[j].value) else Child(ms[i], ns[j])
  }

  lemma FindCons<T>(m: Member<T>, ms: seq<Member<T>>, key: string)
    ensures FindMember([m] + ms, key, false) == if Lower(key) == Lower(m.key) then 0 else 1 + FindMember(ms, key, false)
  {
    assert ([m] + ms)[1..] == ms;
    CmpZero(Lower(key), Lower(m.key));
  }

  lemma FindHead<T>(ms: seq<Member<T>>, key: string)
    requires ms != []
    ensures FindMember(ms, key, false) == if Lower(key) == Lower(ms[0].key) then 0 else 1 + FindMember(ms[1..], key, false)
  {
    assert ms == [ms[0]] + ms[1..];
    FindCons(ms[0], ms[1..], key);
    hide FindMember, Lower;
  }

  lemma PartnerHead(p: Member<Json>, ps: seq<Member<Json>>, key: string)
    ensures Partner([p] + ps, key) == if Lower(key) == Lower(p.key) then Some(p.value) else Partner(ps, key)
  {
    FindCons(p, ps, key);
    hide FindMember, Lower;
    assert forall i | 0 < i < |[p] + ps| :: ([p] + ps)[i] == ps[i - 1];
  }

  /** A key that is gone from a strictly ordered list with its head. */
  lemma GoneWithHead(ms: seq<Member<Json>>, key: string)
    requires StrictOrder(ms) && ms != [] && Lower(key) == Lower(ms[0].key)
    ensures FindMember(ms[1..], key, false) == |ms[1..]|
  {
    PartnerTail(ms, key);
  }

  /** The two walks along the keys in step. */
  lemma SoonerStep(ms: seq<Member<Json>>, ns: seq<Member<Json>>, i: nat, j: nat)
    requires i < |ms| && j < |ns|
    ensures var diff := Cmp(ms[0].key, ns[0].key);
            Sooner(Keys(ms), Keys(ns), i, j) ==
            if diff < 0 then (if i == 0 then -1 else Sooner(Keys(ms[1..]), Keys(ns), i - 1, j))
            else if diff > 0 then (if j == 0 then 1 else Sooner(Keys(ms), Keys(ns[1..]), i, j - 1))
            else if i == 0 && j == 0 then 0
            else if i == 0 then -1
            else if j == 0 then 1
            else Sooner(Keys(ms[1..]), Keys(ns[1..]), i - 1, j - 1)
  {
    KeysTail(ms);
    KeysTail(ns);
    hide Cmp, Keys;
  }

  lemma SaidOld(ms: seq<Member<Json>>, ns: seq<Member<Json>>, key: string)
    requires ms != [] && (ns == [] || Cmp(ms[0].key, ns[0].key) < 0)
    ensures FirstSaid(ms, ns, key) == if Lower(key) == Lower(ms[0].key) then Some(Null) else FirstSaid(ms[1..], ns, key)
  {
    hide Cmp, Lower, Keys, Child, Sooner;
    FindHead(ms, key);
    var i, j := FindMember(ms, key, false), FindMember(ns, key, false);
    if i < |ms| && j < |ns| { SoonerStep(ms, ns, i, j); }
    hide FindMember;
    assert i > 0 ==> forall k | 0 <= k < |ms[1..]| :: ms[1..][k] == ms[k + 1];
  }

  lemma SaidNew(ms: seq<Member<Json>>, ns: seq<Member<Json>>, key: string)
    requires ns != [] && (ms == [] || Cmp(ms[0].key, ns[0].key) > 0)
    ensures FirstSaid(ms, ns, key) == if Lower(key) == Lower(ns[0].key) then Some(ns[0].value) else FirstSaid(ms, ns[1..], key)
  {
    hide Cmp, Lower, Keys, Child, Sooner;
    FindHead(ns, key);
    var i, j := FindMember(ms, key, false), FindMember(ns, key, false);
    if i < |ms| && j < |ns| { SoonerStep(ms, ns, i, j); }
    hide FindMember;
    assert j > 0 ==> forall k | 0 <= k < |ns[1..]| :: ns[1..][k] == ns[k + 1];
  }

  lemma SaidBoth(ms: seq<Member<Json>>, ns: seq<Member<Json>>, key: string)
    requires StrictOrder(ms) && StrictOrder(ns) && ms != [] && ns != [] && ms[0].key == ns[0].key
    ensures FirstSaid(ms, ns, key) ==
            if Lower(key) == Lower(ms[0].key) then Child(ms[0], ns[0]) else FirstSaid(ms[1..], ns[1..], key)
    ensures Lower(key) == Lower(ms[0].key) ==> FirstSaid(ms[1..], ns[1..], key) == None
  {
    FindHead(ms, key);
    FindHead(ns, key);
    CmpZero(ms[0].key, ns[0].key);
    if Lower(key) == Lower(ms[0].key) {
      GoneWithHead(ms, key);
      GoneWithHead(ns, key);
    }
    hide Cmp, Lower, Keys, Child, Sooner, StrictOrder;
    var i, j := FindMember(ms, key, false), FindMember(ns, key, false);
    if i < |ms| && j < |ns| { SoonerStep(ms, ns, i, j); }
    hide FindMember;
    assert i > 0 ==> forall k | 0 <= k < |ms[1..]| :: ms[1..][k] == ms[k + 1];
    assert j > 0 ==> forall k | 0 <= k < |ns[1..]| :: ns[1..][k] == ns[k + 1];
  }

  /** One step of the walk: what it says, and what the rest says. */
  lemma SaidStep(ms: seq<Member<Json>>, ns: seq<Member<Json>>, key: string)
    requires StrictOrder(ms) && StrictOrder(ns) && (ms != [] || ns != [])
    ensures var diff := Lead(ms, ns);
            var rest := FirstSaid(Rest(ms, diff <= 0), Rest(ns, diff >= 0), key);
            FirstSaid(ms, ns, key) ==
            if diff < 0 then (if Lower(key) == Lower(ms[0].key) then Some(Null) else rest)
            else if diff > 0 then (if Lower(key) == Lower(ns[0].key) then Some(ns[0].value) else rest)
            else if Lower(key) == Lower(ms[0].key) then Child(ms[0], ns[0])
            else rest
    ensures Lead(ms, ns) == 0 ==> ms[0].key == ns[0].key
    ensures Lead(ms, ns) == 0 && Lower(key) == Lower(ms[0].key) ==> FirstSaid(ms[1..], ns[1..], key) == None
  {
    hide FindMember, Lower, Keys, Child, StrictOrder, FirstSaid;
    var diff := Lead(ms, ns);
    if diff == 0 {
      CmpZero(ms[0].key, ns[0].key);
      SaidBoth(ms, ns, key);
    } else if diff < 0 {
      SaidOld(ms, ns, key);
    } else {
      SaidNew(ms, ns, key);
    }
  }

  lemma {:induction false} GeneratedSays(ms: seq<Member<Json>>, ns: seq<Member<Json>>, key: string)
    requires StrictOrder(ms) && StrictOrder(ns)
    ensures Partner(GenerateMembers(ms, ns), key) == FirstSaid(ms, ns, key)
    decreases |ms| + |ns|
  {
    if ms == [] && ns == [] {
      assert GenerateMembers(ms, ns) == [];
    } else {
      EmittedThen(map[], ms, ns);
      SaidStep(ms, ns, key);
      var diff := Lead(ms, ns);
      var ms', ns' := Rest(ms, diff <= 0), Rest(ns, diff >= 0);
      assert StrictOrder(ms') && StrictOrder(ns');
      var e, rest := Emitted(ms, ns), GenerateMembers(ms', ns');
      if diff == 0 { ChildShape(ms[0], ns[0]); }
      hide GenerateMembers, GenerateChild, Partner, FirstSaid, Cmp, Lower, StrictOrder, FieldsInOrder;
      GeneratedSays(ms', ns', key);
      if e != [] {
        assert e == [e[0]];
        PartnerHead(e[0], rest, key);
      } else {
        assert e + rest == rest;
      }
    }
  }

  // ---- When the patch detaches a member that points back ----

  /** The walk over two sorted objects comes to the key in both at once. */
  predicate Meets(key: string, ms: seq<Member<Json>>, ns: seq<Member<Json>>) {
    var i, j := FindMember(ms, key, false), FindMember(ns, key, false);
    i < |ms| && j < |ns| && PeakOrder(ms, ns, i, j) == 0
  }

  /** And the values mean the same, so that the patch does not name the key. */
  predicate Spared(key: string, ms: seq<Member<Json>>, ns: seq<Member<Json>>) {
    Meets(key, ms, ns) && View(Partner(ms, key).value, false) == View(Partner(ns, key).value, false)
  }

  /**
   Somewhere in the tree, in an object that the merge goes into, a first member points back and
   is not left alone: `to` lacks its key, or the walk does not meet it in both objects at once,
   or its value means something else.
   */
  predicate Disturbed(t: Tree, from: Json, to: Json)
    decreases t, 0
  {
    t.Record? && from.Object? && to.Object? &&
    var ms, ns := Sort(from.members, false), Sort(to.members, false);
    || (t.members != [] && !t.back.Nowhere? && !Spared(t.members[0].key, ms, ns))
    || exists k | 0 <= k < |t.members| :: DisturbedBelow(t.members[k], ms, ns)
  }

  predicate DisturbedBelow(m: Member<Tree>, ms: seq<Member<Json>>, ns: seq<Member<Json>>)
    decreases m.value, 1
  {
    Meets(m.key, ms, ns) && !Spared(m.key, ms, ns) &&
    Disturbed(m.value, Partner(ms, m.key).value, Partner(ns, m.key).value)
  }

  // ---- Reordering the operands inside does not matter ----

  ghost predicate ReorderedMembers(ms: seq<Member<Json>>, ms0: seq<Member<Json>>) {
    |ms| == |ms0| && forall i | 0 <= i < |ms| :: ms[i].key == ms0[i].key && Reordered(ms[i].value, ms0[i].value)
  }

  lemma {:induction false} SamePlaces<T, U>(ms: seq<Member<T>>, ns: seq<Member<U>>, key: string)
    requires |ms| == |ns| && forall i | 0 <= i < |ms| :: ms[i].key == ns[i].key
    ensures FindMember(ms, key, false) == FindMember(ns, key, false)
    decreases |ms|
  {
    hide Fold, CompareStrings;
    if ms != [] { SamePlaces(ms[1..], ns[1..], key); }
  }

  lemma SameSpared(key: string, ms: seq<Member<Json>>, ms0: seq<Member<Json>>, ns: seq<Member<Json>>, ns0: seq<Member<Json>>)
    requires ReorderedMembers(ms, ms0) && ReorderedMembers(ns, ns0)
    ensures Meets(key, ms, ns) <==> Meets(key, ms0, ns0)
    ensures Spared(key, ms, ns) <==> Spared(key, ms0, ns0)
    ensures Meets(key, ms, ns) ==> Reordered(Partner(ms, key).value, Partner(ms0, key).value)
                                   && Reordered(Partner(ns, key).value, Partner(ns0, key).value)
  {
    SamePlaces(ms, ms0, key);
    SamePlaces(ns, ns0, key);
    hide FindMember, Fold, View, Distinct, Peaks, CmpAll;
    var i, j := FindMember(ms, key, false), FindMember(ns, key, false);
    if i < |ms| && j < |ns| {
      assert Keys(ms[..i + 1]) == Keys(ms0[..i + 1]) && Keys(ns[..j + 1]) == Keys(ns0[..j + 1]);
      ViewsAlike(ms[i].value, ms0[i].value);
      ViewsAlike(ns[j].value, ns0[j].value);
    }
    hide PeakOrder;
  }

  lemma {:induction false} DisturbedReordered(t: Tree, a: Json, a0: Json, b: Json, b0: Json)
    requires Reordered(a, a0) && Reordered(b, b0)
    ensures Disturbed(t, a, b) <==> Disturbed(t, a0, b0)
    decreases t
  {
    ObjectsAlike(a, a0);
    ObjectsAlike(b, b0);
    if t.Record? && a.Object? && b.Object? {
      var ms, ns, ms0, ns0 := Sort(a.members, false), Sort(b.members, false), Sort(a0.members, false), Sort(b0.members, false);
      ReorderedSorts(a, a0);
      ReorderedSorts(b, b0);
      hide Sort, Reordered, Spared, Meets, Partner, View;
      forall k | 0 <= k < |t.members| ensures DisturbedBelow(t.members[k], ms, ns) <==> DisturbedBelow(t.members[k], ms0, ns0) {
        var m := t.members[k];
        SameSpared(m.key, ms, ms0, ns, ns0);
        if Meets(m.key, ms, ns) {
          DisturbedReordered(m.value, Partner(ms, m.key).value, Partner(ms0, m.key).value,
                             Partner(ns, m.key).value, Partner(ns0, m.key).value);
        }
        hide Disturbed;
      }
      if t.members != [] { SameSpared(t.members[0].key, ms, ms0, ns, ns0); }
      hide DisturbedBelow;
    }
  }

  lemma ObjectsAlike(a: Json, a0: Json)
    requires Reordered(a, a0)
    ensures a.Object? <==> a0.Object?
  {
    hide ViewMembers, ViewItems, Distinct;
  }

  // ---- The patch hits exactly the members that are disturbed ----

  /** A child of the document and the member of the old object under its key. */
  ghost predicate Denoted(m: Member<Tree>, ms: seq<Member<Json>>) {
    var x := Partner(ms, m.key);
    x.Some? && Means(Content(m.value), View(x.value, false))
  }

  /** What the patch says about a key that the old object has, if the walk's order is right. */
  lemma SaysOf(ms: seq<Member<Json>>, ns: seq<Member<Json>>, key: string)
    requires Walks(ms) && Walks(ns) && NoNulls(ns) && Fine(ms, ns) && Partner(ms, key).Some?
    ensures var said := Partner(GenerateMembers(ms, ns), key);
            && (said.None? <==> Spared(key, ms, ns))
            && (Meets(key, ms, ns) && said.Some? ==>
                  var x, y := Partner(ms, key).value, Partner(ns, key).value;
                  var c := CompareJson(x, y, false);
                  Generate(c.a, c.b) == said && MergeRight(x, y))
            && (!Meets(key, ms, ns) ==> said == Some(Null))
  {
    WalksStrict(ms);
    WalksStrict(ns);
    GeneratedSays(ms, ns, key);
    var i, j := FindMember(ms, key, false), FindMember(ns, key, false);
    if j < |ns| {
      OrderSigns(ms, ns, i, j);
      assert Lower(ms[i].key) == Lower(ns[j].key) && FineAt(ms, ns, i, j);
      if Sooner(Keys(ms), Keys(ns), i, j) == 0 { MetChild(ms, ns, i, j); }
    }
    hide *;
  }

  lemma OrderSigns(ms: seq<Member<Json>>, ns: seq<Member<Json>>, i: nat, j: nat)
    requires StrictOrder(ms) && StrictOrder(ns) && i < |ms| && j < |ns|
    ensures var s, c := Sooner(Keys(ms), Keys(ns), i, j), PeakOrder(ms, ns, i, j); (s < 0 <==> c < 0) && (s > 0 <==> c > 0)
  {
    StrictDistinct(ms);
    StrictDistinct(ns);
    hide Sooner, Peaks, CmpAll, AllDifferent, DistinctKeys, Lower;
    SoonerByPeaks(Keys(ms), Keys(ns), i, j);
    assert Keys(ms)[..i + 1] == Keys(ms[..i + 1]) && Keys(ns)[..j + 1] == Keys(ns[..j + 1]);
  }

  lemma MetChild(ms: seq<Member<Json>>, ns: seq<Member<Json>>, i: nat, j: nat)
    requires Walks(ms) && Walks(ns) && NoNulls(ns) && i < |ms| && j < |ns|
    requires Lower(ms[i].key) == Lower(ns[j].key) && ChildFine(ms[i].value, ns[j].value)
    requires Sooner(Keys(ms), Keys(ns), i, j) == 0
    ensures var x, y := ms[i].value, ns[j].value;
            var said, c := Child(ms[i], ns[j]), CompareJson(x, y, false);
            && (said.None? <==> View(x, false) == View(y, false))
            && (said.Some? ==> Generate(c.a, c.b) == said && MergeRight(x, y))
  {
    MetTogether(ms, ns, i, j);
    assert Distinct(ms[i].value, false) && RawFree(ms[i].value) && Distinct(ns[j].value, false) && RawFree(ns[j].value);
    assert !ns[j].value.Null? && NoNullMembers(ns[j].value);
    hide Walks, NoNulls, View, Distinct, RawFree, NoNullMembers, CompareJson, Generate, Sooner, FieldsInOrder, Lower, MergeRight;
    ChildSays(map[Lower(ns[j].key) := View(ms[i].value, false)], ms[i], ns[j]);
  }

  /** Keys that the walk meets at once are the same, byte by byte. */
  lemma {:induction false} MetTogether(ms: seq<Member<Json>>, ns: seq<Member<Json>>, i: nat, j: nat)
    requires i < |ms| && j < |ns| && Sooner(Keys(ms), Keys(ns), i, j) == 0
    ensures ms[i].key == ns[j].key
    decreases |ms| + |ns|
  {
    hide Sooner, Cmp;
    SoonerStep(ms, ns, i, j);
    var diff := Cmp(ms[0].key, ns[0].key);
    if diff < 0 {
      MetTogether(ms[1..], ns, i - 1, j);
    } else if diff > 0 {
      MetTogether(ms, ns[1..], i, j - 1);
    } else if i > 0 && j > 0 {
      MetTogether(ms[1..], ns[1..], i - 1, j - 1);
    } else {
      CmpZero(ms[0].key, ns[0].key);
    }
  }

  ghost predicate Mergeable(from: Json, to: Json) {
    && Distinct(from, false) && RawFree(from)
    && Distinct(to, false) && RawFree(to) && NoNullMembers(to)
  }

  /** One child of the document. */
  lemma {:induction false} ChildHits(m: Member<Tree>, ms: seq<Member<Json>>, ns: seq<Member<Json>>)
    requires Walks(ms) && Walks(ns) && NoNulls(ns) && Fine(ms, ns) && Denoted(m, ms)
    ensures ChildHit(m, GenerateMembers(ms, ns), false) <==> DisturbedBelow(m, ms, ns)
    decreases MembersHeight(ms), 1
  {
    hide *;
    PartOf(m, ms);
    SaysOf(ms, ns, m.key);
    HitByPartner(m, GenerateMembers(ms, ns));
    BelowIs(m, ms, ns);
    var said := Partner(GenerateMembers(ms, ns), m.key);
    if Meets(m.key, ms, ns) && said.Some? {
      var x, y := Partner(ms, m.key).value, Partner(ns, m.key).value;
      PartsOf(m.key, ms, ns);
      Settles(x, y);
      var c := CompareJson(x, y, false);
      SameMeaning(Content(m.value), x, c.a);
      HitsDisturb(m.value, c.a, c.b);
      DisturbedReordered(m.value, c.a, x, c.b, y);
    }
  }

  lemma BelowIs(m: Member<Tree>, ms: seq<Member<Json>>, ns: seq<Member<Json>>)
    ensures Meets(m.key, ms, ns) ==> Partner(ms, m.key).Some? && Partner(ns, m.key).Some?
    ensures DisturbedBelow(m, ms, ns) <==>
            Meets(m.key, ms, ns) && !Spared(m.key, ms, ns) &&
            Disturbed(m.value, Partner(ms, m.key).value, Partner(ns, m.key).value)
    ensures Spared(m.key, ms, ns) ==> Meets(m.key, ms, ns)
  {
    hide Disturbed, View, PeakOrder;
  }

  lemma HitByPartner(m: Member<Tree>, ps: seq<Member<Json>>)
    ensures ChildHit(m, ps, false) <==>
            var said := Partner(ps, m.key); said.Some? && !said.value.Null? && MergeHits(m.value, said.value, false)
    ensures !MergeHits(m.value, Null, false)
  {
    hide FindMember;
  }

  lemma PartOf(m: Member<Tree>, ms: seq<Member<Json>>)
    requires Denoted(m, ms)
    ensures var x := Partner(ms, m.key);
            x.Some? && Distinct(Content(m.value), false) && View(Content(m.value), false) == View(x.value, false)
  {
  }

  lemma PartsOf(key: string, ms: seq<Member<Json>>, ns: seq<Member<Json>>)
    requires Walks(ms) && Walks(ns) && NoNulls(ns) && Meets(key, ms, ns)
    ensures Partner(ms, key).Some? && Partner(ns, key).Some?
    ensures var x, y := Partner(ms, key).value, Partner(ns, key).value;
            Mergeable(x, y) && Height(x) <= MembersHeight(ms)
  {
    hide View, PeakOrder, FindMember, Lower, Distinct, RawFree, NoNullMembers;
    var i, j := FindMember(ms, key, false), FindMember(ns, key, false);
    assert Distinct(ms[i].value, false) && RawFree(ms[i].value) && Distinct(ns[j].value, false) && RawFree(ns[j].value);
    assert NoNullMembers(ns[j].value);
  }

  /** What comparing leaves of two values. */
  lemma Settles(x: Json, y: Json)
    requires Mergeable(x, y)
    ensures var c := CompareJson(x, y, false);
            && Mergeable(c.a, c.b) && Reordered(c.a, x) && Reordered(c.b, y) && Height(c.a) <= Height(x)
            && (MergeRight(x, y) ==> MergeRight(c.a, c.b))
            && View(c.a, false) == View(x, false)
  {
    hide View, Distinct, RawFree, Consistent, CompareJson, NoNullMembers, MergeRight, Height;
    CompareJsonKeeps(x, y, false, false);
    CompareAlike(x, y);
    CompareReordered(x, y);
    var c := CompareJson(x, y, false);
    SameRight(c.a, x, c.b, y);
  }

  lemma SameMeaning(j: Json, x: Json, a: Json)
    requires Distinct(j, false) && View(j, false) == View(x, false) && View(a, false) == View(x, false)
    ensures Means(j, View(a, false))
  {
  }

  lemma SameKind(t: Tree, from: Json)
    requires Means(Content(t), View(from, false))
    ensures t.Record? <==> from.Object?
  {
    hide ViewMembers, ViewItems, Distinct;
  }

  lemma Children(t: Tree, from: Json)
    requires t.Record? && from.Object? && Distinct(from, false) && Means(Content(t), View(from, false))
    ensures forall k | 0 <= k < |t.members| :: Denoted(t.members[k], Sort(from.members, false))
  {
    var ts := t.members;
    RecordContent(t);
    ViewOfObjects(MemberContents(ts), from.members);
    ContentKeys(ts);
    assert DistinctKeys(from.members, false);
    hide Sort, View, ViewMembers, Distinct, Content, MemberContents, DistinctKeys;
    forall k | 0 <= k < |ts| ensures Denoted(ts[k], Sort(from.members, false)) {
      SamePartner(ts, from.members, ts[k].key);
      PartnerSorted(from.members, ts[k].key);
      FindUnique(ts, k, ts[k].key);
    }
  }

  lemma ViewOfObjects(ms: seq<Member<Json>>, ns: seq<Member<Json>>)
    ensures View(Object(ms), false) == View(Object(ns), false) ==> ViewMembers(ms, false) == ViewMembers(ns, false)
    ensures Distinct(Object(ms), false) ==> DistinctKeys(ms, false)
  {
    hide ViewMembers;
  }

  lemma GeneratedIs(t: Tree, from: Json, to: Json)
    requires t.Record? && from.Object? && to.Object?
    ensures var ps := GenerateMembers(Sort(from.members, false), Sort(to.members, false));
            var g := Generate(from, to);
            (g.Some? && MergeHits(t, g.value, false)) <==> RecordHits(t, ps, false)
  {
    hide Sort, GenerateMembers;
    var ps := GenerateMembers(Sort(from.members, false), Sort(to.members, false));
    if ps == [] {
      forall j | 0 <= j < |t.members| ensures !ChildHit(t.members[j], ps, false) { }
    }
  }

  lemma HitsAre(t: Tree, ps: seq<Member<Json>>)
    requires t.Record?
    ensures RecordHits(t, ps, false) <==>
            || (t.members != [] && !t.back.Nowhere? && Partner(ps, t.members[0].key).Some?)
            || exists k | 0 <= k < |t.members| :: ChildHit(t.members[k], ps, false)
  {
    hide ChildHit, Partner;
  }

  lemma DisturbedIs(t: Tree, from: Json, to: Json)
    requires t.Record? && from.Object? && to.Object?
    ensures var ms, ns := Sort(from.members, false), Sort(to.members, false);
            Disturbed(t, from, to) <==>
            || (t.members != [] && !t.back.Nowhere? && !Spared(t.members[0].key, ms, ns))
            || exists k | 0 <= k < |t.members| :: DisturbedBelow(t.members[k], ms, ns)
  {
    hide Sort, DisturbedBelow, Spared;
  }

  lemma FirstHits(t: Tree, ms: seq<Member<Json>>, ns: seq<Member<Json>>)
    requires Walks(ms) && Walks(ns) && NoNulls(ns) && Fine(ms, ns) && t.Record?
    requires forall k | 0 <= k < |t.members| :: Denoted(t.members[k], ms)
    ensures t.members != [] ==> (Partner(GenerateMembers(ms, ns), t.members[0].key).Some? <==> !Spared(t.members[0].key, ms, ns))
  {
    hide *;
    if t.members != [] {
      PartOf(t.members[0], ms);
      SaysOf(ms, ns, t.members[0].key);
    }
  }

  /** Where the walk's order is right, the generated patch hits exactly what is disturbed. */
  lemma {:induction false} HitsDisturb(t: Tree, from: Json, to: Json)
    requires Mergeable(from, to) && Means(Content(t), View(from, false)) && MergeRight(from, to)
    ensures var g := Generate(from, to); (g.Some? && MergeHits(t, g.value, false)) <==> Disturbed(t, from, to)
    decreases Height(from), 0
  {
    SameKind(t, from);
    if t.Record? && from.Object? && to.Object? {
      var ms, ns := Sort(from.members, false), Sort(to.members, false);
      assert Distinct(from, false) && RawFree(from) && Distinct(to, false) && RawFree(to) && NoNullMembers(to);
      hide *;
      ObjectsSorted(from, to);
      WalksStrict(ms);
      WalksStrict(ns);
      FineIsRight(ms, ns);
      Children(t, from);
      GeneratedIs(t, from, to);
      forall k | 0 <= k < |t.members| ensures ChildHit(t.members[k], GenerateMembers(ms, ns), false) <==> DisturbedBelow(t.members[k], ms, ns) {
        ChildHits(t.members[k], ms, ns);
      }
      FirstHits(t, ms, ns);
      HitsAre(t, GenerateMembers(ms, ns));
      DisturbedIs(t, from, to);
    } else {
      hide View, Distinct;
    }
  }

  // ---- The round trip ----

  /**
   Merging the generated patch into a document that means `from` leaves what `to` means if the
   walk's order is right and nothing is disturbed; and only then, unless first members of the
   document point at nodes in other lists.
   */
  lemma TreeMergeRoundTrip(t: Tree, from: Json, to: Json, outside: set<nat>)
    requires Mergeable(from, to) && Means(Content(t), View(from, false))
    ensures var g := Generate(from, to);
            if g.None? then View(Content(t), false) == View(to, false) && MergeRight(from, to) && !Disturbed(t, from, to)
            else
              var m := MergeTree(Some(t), g.value, false, true, outside);
              var right := m.Becomes? && Means(Content(m.tree), View(to, false));
              && (MergeRight(from, to) && !Disturbed(t, from, to) ==> right)
              && (right && Home(t) ==> MergeRight(from, to) && !Disturbed(t, from, to))
  {
    hide View, Distinct, Merge, Generate, NoNullMembers, RawFree, MergeRight, Tidy, Tame, MergeHits, MergeTree, Content, Disturbed, Home;
    MergePatchRoundTrip(Content(t), from, to);
    GenerateRight(from, to);
    GenerateTidy(from, to);
    GenerateTame(from, to);
    if MergeRight(from, to) { HitsDisturb(t, from, to); }
    var g := Generate(from, to);
    if g.Some? {
      MergeBreaks(Some(t), g.value, false, outside);
      MergeContent(Some(t), g.value, false, true, outside);
    }
  }

  // ---- The same condition on the operands as they were ----

  /**
   Before generating: somewhere in `from`, in an object that the merge goes into, the member
   with the least key is not left alone, and it was not the first one, or points back already.
   */
  predicate MergeUpset(t: Tree, to: Json)
    decreases t, 0
  {
    t.Record? && to.Object? &&
    var ms, ns := Sort(MemberContents(t.members), false), Sort(to.members, false);
    || (t.members != [] && !BackAfter(t.members, t.back, false).Nowhere? && !Spared(ms[0].key, ms, ns))
    || exists k | 0 <= k < |t.members| :: UpsetBelow(t.members[k], ms, ns)
  }

  predicate UpsetBelow(m: Member<Tree>, ms: seq<Member<Json>>, ns: seq<Member<Json>>)
    decreases m.value, 1
  {
    Meets(m.key, ms, ns) && !Spared(m.key, ms, ns) && MergeUpset(m.value, Partner(ns, m.key).value)
  }

  ghost predicate AnyBelow(ts: seq<Member<Tree>>, ms: seq<Member<Json>>, ns: seq<Member<Json>>) {
    exists k | 0 <= k < |ts| :: UpsetBelow(ts[k], ms, ns)
  }

  lemma UpsetIs(t: Tree, to: Json)
    requires t.Record? && to.Object?
    ensures var ms, ns := Sort(MemberContents(t.members), false), Sort(to.members, false);
            MergeUpset(t, to) <==>
            || (t.members != [] && !BackAfter(t.members, t.back, false).Nowhere? && !Spared(ms[0].key, ms, ns))
            || AnyBelow(t.members, ms, ns)
  {
    hide Sort, UpsetBelow, Spared, BackAfter, MemberContents;
  }

  lemma UpsetBelowIs(m: Member<Tree>, ms: seq<Member<Json>>, ns: seq<Member<Json>>)
    ensures Meets(m.key, ms, ns) ==> Partner(ms, m.key).Some? && Partner(ns, m.key).Some?
    ensures UpsetBelow(m, ms, ns) <==>
            Meets(m.key, ms, ns) && !Spared(m.key, ms, ns) && MergeUpset(m.value, Partner(ns, m.key).value)
  {
    hide MergeUpset, View, PeakOrder, Spared;
  }

  lemma AnyPermuted(ts: seq<Member<Tree>>, us: seq<Member<Tree>>, ms: seq<Member<Json>>, ns: seq<Member<Json>>)
    requires multiset(ts) == multiset(us) && AnyBelow(ts, ms, ns)
    ensures AnyBelow(us, ms, ns)
  {
    hide UpsetBelow;
    var k :| 0 <= k < |ts| && UpsetBelow(ts[k], ms, ns);
    assert ts[k] in multiset(us);
    var i :| 0 <= i < |us| && us[i] == ts[k];
  }

  /** Sorting does not change which members there are below. */
  lemma AnySorted(ts: seq<Member<Tree>>, ms: seq<Member<Json>>, ns: seq<Member<Json>>)
    ensures AnyBelow(Sort(ts, false), ms, ns) <==> AnyBelow(ts, ms, ns)
  {
    SortPermutes(ts, false);
    hide Sort, AnyBelow;
    if AnyBelow(ts, ms, ns) { AnyPermuted(ts, Sort(ts, false), ms, ns); }
    if AnyBelow(Sort(ts, false), ms, ns) { AnyPermuted(Sort(ts, false), ts, ms, ns); }
  }

  /** Both trees are upset by the same new values. */
  ghost predicate SameUpset(u: Tree, t: Tree) {
    forall to | Distinct(to, false) :: MergeUpset(u, to) <==> MergeUpset(t, to)
  }

  /** The members of an object in folded order, with values that may have been sorted inside. */
  ghost predicate Arranged(us: seq<Member<Tree>>, s: seq<Member<Tree>>) {
    |us| == |s| &&
    forall i | 0 <= i < |us| ::
      && us[i].key == s[i].key && SameUpset(us[i].value, s[i].value)
      && Reordered(Content(us[i].value), Content(s[i].value))
  }

  lemma ArrangedContents(us: seq<Member<Tree>>, s: seq<Member<Tree>>)
    requires Arranged(us, s)
    ensures ReorderedMembers(MemberContents(us), MemberContents(s))
  {
    hide Reordered, SameUpset, Content;
  }

  lemma AscendingStays(us: seq<Member<Tree>>)
    requires StrictOrder(us)
    ensures Sort(us, false) == us && FirstStays(us, false)
    ensures Sort(MemberContents(us), false) == MemberContents(us)
  {
    forall i | 0 <= i < |us| - 1 ensures Before(us[i].key, us[i + 1].key, false) { }
    assert Ascending(Tagged(us), false);
    assert Ascending(MemberContents(us), false);
    hide Before;
  }

  lemma StrictKeys(us: seq<Member<Tree>>, s: seq<Member<Tree>>)
    requires Arranged(us, s) && StrictOrder(s)
    ensures StrictOrder(us)
  {
    hide Before, SameUpset, Reordered, Content;
  }

  lemma SelfReordered(to: Json)
    requires Distinct(to, false) && to.Object?
    ensures var ns := Sort(to.members, false); ReorderedMembers(ns, ns)
    ensures forall key :: Partner(Sort(to.members, false), key).Some? ==> Distinct(Partner(Sort(to.members, false), key).value, false)
  {
    assert Reordered(to, to);
    hide Distinct, Sort;
    ReorderedSorts(to, to);
  }

  /** An object that has been sorted, and below perhaps, is upset as it was before. */
  lemma TurnedUpset(u: Tree, t: Tree)
    requires u.Record? && t.Record? && Distinct(Content(t), false)
    requires Arranged(u.members, Sort(t.members, false)) && u.back == BackAfter(t.members, t.back, false)
    ensures SameUpset(u, t)
  {
    forall to | Distinct(to, false) ensures MergeUpset(u, to) <==> MergeUpset(t, to) {
      if to.Object? { TurnedUpsetBy(u, t, to); }
    }
    hide MergeUpset, Distinct;
  }

  lemma TurnedUpsetBy(u: Tree, t: Tree, to: Json)
    requires u.Record? && t.Record? && Distinct(Content(t), false) && Distinct(to, false) && to.Object?
    requires Arranged(u.members, Sort(t.members, false)) && u.back == BackAfter(t.members, t.back, false)
    ensures MergeUpset(u, to) <==> MergeUpset(t, to)
  {
    hide *;
    var s, ns := Sort(t.members, false), Sort(to.members, false);
    var ms, mu := MemberContents(s), MemberContents(u.members);
    SortedStrictly(t);
    FirstKeys(u.members, s);
    StrictKeys(u.members, s);
    AscendingStays(u.members);
    ContentSorts(t.members, false);
    ArrangedContents(u.members, s);
    SelfReordered(to);
    forall k | 0 <= k < |s| ensures (UpsetBelow(u.members[k], mu, ns) <==> UpsetBelow(s[k], ms, ns)) && u.members[k].key == s[k].key {
      SameBelow(u.members, s, k, ns, to);
    }
    AnyBoth(u.members, mu, s, ms, ns);
    AnySorted(t.members, ms, ns);
    if u.members != [] { SameSpared(s[0].key, mu, ms, ns, ns); }
    UpsetIs(u, to);
    UpsetIs(t, to);
  }

  lemma FirstKeys(us: seq<Member<Tree>>, s: seq<Member<Tree>>)
    requires Arranged(us, s)
    ensures |us| == |s| && (us != [] ==> MemberContents(us)[0].key == us[0].key && MemberContents(s)[0].key == s[0].key && us[0].key == s[0].key)
  {
    hide SameUpset, Reordered;
  }

  lemma SortedStrictly(t: Tree)
    requires t.Record? && Distinct(Content(t), false)
    ensures StrictOrder(Sort(t.members, false)) && |Sort(t.members, false)| == |t.members|
  {
    RecordContent(t);
    SortedChildren(t.members);
    hide Sort, Distinct, Content;
  }

  lemma SameBelow(us: seq<Member<Tree>>, s: seq<Member<Tree>>, k: nat, ns: seq<Member<Json>>, to: Json)
    requires Arranged(us, s) && k < |s| && to.Object? && Distinct(to, false) && ns == Sort(to.members, false)
    ensures us[k].key == s[k].key
    ensures UpsetBelow(us[k], MemberContents(us), ns) <==> UpsetBelow(s[k], MemberContents(s), ns)
  {
    ArrangedContents(us, s);
    SelfReordered(to);
    UpsetBelowIs(us[k], MemberContents(us), ns);
    UpsetBelowIs(s[k], MemberContents(s), ns);
    assert us[k].key == s[k].key && SameUpset(us[k].value, s[k].value);
    hide *;
    SameSpared(s[k].key, MemberContents(us), MemberContents(s), ns, ns);
    if Meets(s[k].key, MemberContents(s), ns) { UpsetBy(us[k].value, s[k].value, Partner(ns, s[k].key).value); }
  }

  lemma UpsetBy(u: Tree, t: Tree, to: Json)
    requires SameUpset(u, t) && Distinct(to, false)
    ensures MergeUpset(u, to) <==> MergeUpset(t, to)
  {
    hide MergeUpset, Distinct;
  }

  lemma AnyBoth(us: seq<Member<Tree>>, mu: seq<Member<Json>>, s: seq<Member<Tree>>, ms: seq<Member<Json>>, ns: seq<Member<Json>>)
    requires |us| == |s| && forall k | 0 <= k < |s| :: UpsetBelow(us[k], mu, ns) <==> UpsetBelow(s[k], ms, ns)
    ensures AnyBelow(us, mu, ns) <==> AnyBelow(s, ms, ns)
  {
    hide UpsetBelow;
  }

  // ---- Comparing leaves the condition alone ----

  lemma SameItself(t: Tree)
    requires Distinct(Content(t), false)
    ensures SameUpset(t, t) && Reordered(Content(t), Content(t))
  {
    hide MergeUpset, View, Distinct;
  }

  lemma ArrangedCons(m: Member<Tree>, us: seq<Member<Tree>>, m0: Member<Tree>, s: seq<Member<Tree>>)
    requires m.key == m0.key && SameUpset(m.value, m0.value) && Reordered(Content(m.value), Content(m0.value)) && Arranged(us, s)
    ensures Arranged([m] + us, [m0] + s)
  {
    hide SameUpset, Reordered, Content;
  }

  lemma {:induction false} ArrangedItself(s: seq<Member<Tree>>)
    requires DistinctValues(MemberContents(s), false)
    ensures Arranged(s, s)
  {
    forall i | 0 <= i < |s| ensures SameUpset(s[i].value, s[i].value) && Reordered(Content(s[i].value), Content(s[i].value)) {
      assert Distinct(MemberContents(s)[i].value, false);
      SameItself(s[i].value);
    }
    hide SameUpset, Reordered, Content;
  }

  lemma {:induction false} CompareUpset(a: Tree, b: Tree)
    requires Distinct(Content(a), false) && Distinct(Content(b), false)
    ensures SameUpset(CompareTree(a, b, false).a, a)
    decreases Height(Content(a)), 0
  {
    hide *;
    if a.Record? && b.Record? {
      RecordsCompare(a, b, false);
      RecordHeight(a);
      SortedHeight(a.members, false);
      RecordContent(a);
      RecordContent(b);
      SortedValues(a.members);
      SortedValues(b.members);
      CompareRecordsUpset(Sort(a.members, false), Sort(b.members, false));
      TurnedUpset(CompareTree(a, b, false).a, a);
    } else {
      NotUpset(a, b);
    }
  }

  lemma NotUpset(a: Tree, b: Tree)
    requires !a.Record? || !b.Record?
    ensures SameUpset(CompareTree(a, b, false).a, a)
  {
    if a.List? && b.List? { ListsCompare(a, b, false); } else { NotCompared(a, b, false); }
    hide CompareTree, Distinct, MergeUpset;
    var u := CompareTree(a, b, false).a;
    forall to | Distinct(to, false) ensures MergeUpset(u, to) <==> MergeUpset(a, to) {
      if !a.Record? {
        NoneUpset(u, to);
        NoneUpset(a, to);
      }
    }
  }

  lemma {:induction false} CompareRecordsUpset(ms: seq<Member<Tree>>, ns: seq<Member<Tree>>)
    requires DistinctValues(MemberContents(ms), false) && DistinctValues(MemberContents(ns), false)
    ensures Arranged(CompareRecords(ms, ns, false).ms, ms)
    decreases MembersHeight(MemberContents(ms)), |ms|
  {
    hide *;
    if ms == [] || ns == [] {
      NoComparison(ms, ns);
      ArrangedItself(ms);
    } else {
      FirstDistinct(ms);
      FirstDistinct(ns);
      TailHeight(ms);
      RecordsStep(ms, ns, false);
      assert ms == [ms[0]] + ms[1..];
      CompareUpset(ms[0].value, ns[0].value);
      CompareRecordsUpset(ms[1..], ns[1..]);
      CompareContent(ms[0].value, ns[0].value, false);
      CompareReordered(Content(ms[0].value), Content(ns[0].value));
      ArrangedItself(ms);
      ArrangedItself(ms[1..]);
      var r, rest := CompareTree(ms[0].value, ns[0].value, false), CompareRecords(ms[1..], ns[1..], false);
      ArrangedCons(Member(ms[0].key, r.a), rest.ms, ms[0], ms[1..]);
      ArrangedCons(Member(ms[0].key, r.a), ms[1..], ms[0], ms[1..]);
    }
  }

  lemma NoComparison(ms: seq<Member<Tree>>, ns: seq<Member<Tree>>)
    requires ms == [] || ns == []
    ensures CompareRecords(ms, ns, false).ms == ms
  {
  }

  lemma {:induction false} UpsetReordered(t: Tree, to: Json, to0: Json)
    requires Reordered(to, to0) && Distinct(Content(t), false)
    ensures MergeUpset(t, to) <==> MergeUpset(t, to0)
    decreases t
  {
    hide *;
    ObjectsAlike(to, to0);
    if t.Record? && to.Object? {
      var ms, ns, ns0 := Sort(MemberContents(t.members), false), Sort(to.members, false), Sort(to0.members, false);
      RecordContent(t);
      SortedValues(t.members);
      ContentSorts(t.members, false);
      ReorderedSorts(to, to0);
      ValuesReordered(ms);
      SortedToo(ns, ns0);
      DistinctContents(t.members);
      UpsetIs(t, to);
      UpsetIs(t, to0);
      forall k | 0 <= k < |t.members| ensures UpsetBelow(t.members[k], ms, ns) <==> UpsetBelow(t.members[k], ms, ns0) {
        var m := t.members[k];
        SameSpared(m.key, ms, ms, ns, ns0);
        UpsetBelowIs(m, ms, ns);
        UpsetBelowIs(m, ms, ns0);
        if Meets(m.key, ms, ns) { UpsetReordered(m.value, Partner(ns, m.key).value, Partner(ns0, m.key).value); }
      }
      AnyOfBoth(t.members, ms, ns, ns0);
      if t.members != [] { SameSpared(ms[0].key, ms, ms, ns, ns0); }
    } else {
      NoneUpset(t, to);
      NoneUpset(t, to0);
    }
  }

  lemma NoneUpset(t: Tree, to: Json)
    requires !t.Record? || !to.Object?
    ensures !MergeUpset(t, to)
  {
  }

  lemma SortedToo(ns: seq<Member<Json>>, ns0: seq<Member<Json>>)
    requires |ns| == |ns0| && forall i | 0 <= i < |ns| :: ns[i].key == ns0[i].key && Reordered(ns[i].value, ns0[i].value)
    ensures ReorderedMembers(ns, ns0)
  {
    hide Reordered;
  }

  lemma AnyOfBoth(ts: seq<Member<Tree>>, ms: seq<Member<Json>>, ns: seq<Member<Json>>, ns0: seq<Member<Json>>)
    requires forall k | 0 <= k < |ts| :: UpsetBelow(ts[k], ms, ns) <==> UpsetBelow(ts[k], ms, ns0)
    ensures AnyBelow(ts, ms, ns) <==> AnyBelow(ts, ms, ns0)
  {
    hide UpsetBelow;
  }

  lemma ValuesReordered(ms: seq<Member<Json>>)
    requires DistinctValues(ms, false)
    ensures ReorderedMembers(ms, ms)
  {
    hide View;
  }

  lemma DistinctContents(ts: seq<Member<Tree>>)
    requires Distinct(Object(MemberContents(ts)), false)
    ensures forall k | 0 <= k < |ts| :: Distinct(Content(ts[k].value), false)
  {
    hide *;
    var js := MemberContents(ts);
    ValuesOf(js);
    forall k | 0 <= k < |ts| ensures Distinct(Content(ts[k].value), false) {
      assert js[k] == Member(ts[k].key, Content(ts[k].value));
    }
  }

  lemma ValuesOf(js: seq<Member<Json>>)
    requires Distinct(Object(js), false)
    ensures forall k | 0 <= k < |js| :: Distinct(js[k].value, false)
  {
  }

  // ---- In place ----

  /** What the walk leaves of a member that it meets in both objects. */
  lemma {:induction false} GeneratedAt(ms: seq<Member<Tree>>, ns: seq<Member<Tree>>, i: nat)
    requires i < |ms|
    ensures var r := GenerateRecords(ms, ns).ms;
            && |r| == |ms| && r[i].key == ms[i].key
            && forall j | 0 <= j < |ns| && Sooner(Keys(MemberContents(ms)), Keys(MemberContents(ns)), i, j) == 0 ::
                 r[i].value == GenerateValue(ms[i], ns[j]).from
    decreases |ms| + |ns|
  {
    hide *;
    GenerateStep(ms, ns);
    ContentTail(ms);
    if ns != [] { ContentTail(ns); }
    var r := GenerateRecords(ms, ns).ms;
    var diff := if ns == [] then -1 else Cmp(ms[0].key, ns[0].key);
    forall j | 0 <= j < |ns|
      ensures Sooner(Keys(MemberContents(ms)), Keys(MemberContents(ns)), i, j) ==
              if diff < 0 then (if i == 0 then -1 else Sooner(Keys(MemberContents(ms[1..])), Keys(MemberContents(ns)), i - 1, j))
              else if diff > 0 then (if j == 0 then 1 else Sooner(Keys(MemberContents(ms)), Keys(MemberContents(ns[1..])), i, j - 1))
              else if i == 0 && j == 0 then 0
              else if i == 0 then -1
              else if j == 0 then 1
              else Sooner(Keys(MemberContents(ms[1..])), Keys(MemberContents(ns[1..])), i - 1, j - 1)
    {
      SoonerStep(MemberContents(ms), MemberContents(ns), i, j);
    }
    if diff < 0 {
      if i > 0 { GeneratedAt(ms[1..], ns, i - 1); } else { GeneratedCount(ms[1..], ns); }
    } else if diff > 0 {
      GeneratedAt(ms, ns[1..], i);
      forall j | 0 < j < |ns| ensures ns[j] == ns[1..][j - 1] { }
    } else {
      if i > 0 { GeneratedAt(ms[1..], ns[1..], i - 1); } else { GeneratedCount(ms[1..], ns[1..]); }
      forall j | 0 < j < |ns| ensures ns[j] == ns[1..][j - 1] { }
    }
  }

  lemma {:induction false} GeneratedCount(ms: seq<Member<Tree>>, ns: seq<Member<Tree>>)
    ensures |GenerateRecords(ms, ns).ms| == |ms|
    decreases |ms| + |ns|
  {
    if ms != [] || ns != [] {
      GenerateStep(ms, ns);
      var diff := if ms == [] then 1 else if ns == [] then -1 else Cmp(ms[0].key, ns[0].key);
      hide GenerateRecords, GenerateValue, Cmp;
      if diff < 0 {
        GeneratedCount(ms[1..], ns);
      } else if diff > 0 {
        GeneratedCount(ms, ns[1..]);
      } else {
        GeneratedCount(ms[1..], ns[1..]);
      }
    }
  }

  /** What generating makes of two values that the walk meets and that differ. */
  lemma ValueGenerated(m: Member<Tree>, n: Member<Tree>)
    requires Mergeable(Content(m.value), Content(n.value)) && View(Content(m.value), false) != View(Content(n.value), false)
    ensures var c := CompareTree(m.value, n.value, false);
            && GenerateValue(m, n).from == GenerateTree(c.a, c.b).from
            && Mergeable(Content(c.a), Content(c.b)) && Height(Content(c.a)) <= Height(Content(m.value))
            && Reordered(Content(c.a), Content(m.value)) && Reordered(Content(c.b), Content(n.value))
            && SameUpset(c.a, m.value)
  {
    CompareContent(m.value, n.value, false);
    CompareUpset(m.value, n.value);
    Settles(Content(m.value), Content(n.value));
    hide CompareTree, CompareJson, GenerateTree, View, RawFree, NoNullMembers, SameUpset, Reordered, Distinct, Height, Content;
    CompareJsonIsViewEquality(Content(m.value), Content(n.value));
  }

  /** One member, before and after. */
  lemma {:induction false} BelowGenerated(s: seq<Member<Tree>>, sn: seq<Member<Tree>>, k: nat)
    requires k < |s| && Walks(MemberContents(s)) && Walks(MemberContents(sn)) && NoNulls(MemberContents(sn))
    ensures var r, ms, ns := GenerateRecords(s, sn).ms, MemberContents(s), MemberContents(sn);
            |r| == |s| && r[k].key == s[k].key && (DisturbedBelow(r[k], ms, ns) <==> UpsetBelow(s[k], ms, ns))
    decreases MembersHeight(MemberContents(s)), 1
  {
    hide *;
    var r, ms, ns := GenerateRecords(s, sn).ms, MemberContents(s), MemberContents(sn);
    var key := s[k].key;
    GeneratedAt(s, sn, k);
    BelowIs(r[k], ms, ns);
    UpsetBelowIs(s[k], ms, ns);
    if Meets(key, ms, ns) && !Spared(key, ms, ns) {
      var j := MetAt(s, sn, k);
      PartsOf(key, ms, ns);
      NotSpared(key, ms, ns);
      ValueGenerated(s[k], sn[j]);
      var c := CompareTree(s[k].value, sn[j].value, false);
      var x, y := Content(s[k].value), Content(sn[j].value);
      GeneratedUpset(c.a, c.b);
      DisturbedReordered(r[k].value, Content(c.a), x, Content(c.b), y);
      DistinctParts(Content(c.b), y, x);
      UpsetBy(c.a, s[k].value, Content(c.b));
      UpsetReordered(s[k].value, Content(c.b), y);
    }
  }

  lemma NotSpared(key: string, ms: seq<Member<Json>>, ns: seq<Member<Json>>)
    requires Meets(key, ms, ns) && !Spared(key, ms, ns)
    ensures Partner(ms, key).Some? && Partner(ns, key).Some?
    ensures View(Partner(ms, key).value, false) != View(Partner(ns, key).value, false)
  {
    hide View, PeakOrder;
  }

  lemma DistinctParts(b: Json, y: Json, x: Json)
    requires Reordered(b, y) && Mergeable(x, y)
    ensures Distinct(b, false) && Distinct(x, false)
  {
  }

  /** The positions at which the walk meets the key of a member. */
  lemma MetAt(s: seq<Member<Tree>>, sn: seq<Member<Tree>>, k: nat) returns (j: nat)
    requires k < |s| && Walks(MemberContents(s)) && Walks(MemberContents(sn))
    requires Meets(s[k].key, MemberContents(s), MemberContents(sn))
    ensures j < |sn| && Sooner(Keys(MemberContents(s)), Keys(MemberContents(sn)), k, j) == 0
    ensures Partner(MemberContents(s), s[k].key) == Some(Content(s[k].value))
    ensures Partner(MemberContents(sn), s[k].key) == Some(Content(sn[j].value))
  {
    var ms, ns, key := MemberContents(s), MemberContents(sn), s[k].key;
    WalksStrict(ms);
    WalksStrict(ns);
    OrderDistinct(ms);
    FindUnique(ms, k, key);
    j := FindMember(ns, key, false);
    OrderSigns(ms, ns, k, j);
    hide Walks, StrictOrder, DistinctKeys, FindMember, Sooner, PeakOrder, Content;
  }

  /** The condition on the tree as generating leaves it is the condition on the tree as it was. */
  lemma {:induction false} GeneratedUpset(from: Tree, to: Tree)
    requires Mergeable(Content(from), Content(to))
    ensures Disturbed(GenerateTree(from, to).from, Content(from), Content(to)) <==> MergeUpset(from, Content(to))
    decreases Height(Content(from)), 0
  {
    hide *;
    if from.Record? && to.Record? {
      var s, sn := Sort(from.members, false), Sort(to.members, false);
      var ms, ns, r := MemberContents(s), MemberContents(sn), GenerateRecords(s, sn).ms;
      var u := GenerateTree(from, to).from;
      RecordContent(from);
      RecordContent(to);
      RecordHeight(from);
      SortedHeight(from.members, false);
      ContentSorts(from.members, false);
      ContentSorts(to.members, false);
      MergeableParts(Content(from), Content(to));
      ObjectsSorted(Content(from), Content(to));
      RecordGenerates(from, to);
      GeneratedCount(s, sn);
      forall k | 0 <= k < |s| ensures r[k].key == s[k].key && (DisturbedBelow(r[k], ms, ns) <==> UpsetBelow(s[k], ms, ns)) {
        BelowGenerated(s, sn, k);
      }
      AnySorted(from.members, ms, ns);
      UpsetIs(from, Content(to));
      DisturbedIs(u, Content(from), Content(to));
      BelowBoth(r, s, ms, ns);
      FirstContent(s);
    } else {
      NeitherUpset(from, to);
    }
  }

  lemma MergeableParts(from: Json, to: Json)
    requires Mergeable(from, to)
    ensures Distinct(from, false) && RawFree(from) && Distinct(to, false) && RawFree(to) && NoNullMembers(to)
  {
  }

  lemma RecordGenerates(from: Tree, to: Tree)
    requires from.Record? && to.Record?
    ensures var r := GenerateRecords(Sort(from.members, false), Sort(to.members, false));
            GenerateTree(from, to).from == Record(r.ms, BackAfter(from.members, from.back, false), from.mark)
    ensures |Sort(from.members, false)| == |from.members|
  {
    hide Sort, BackAfter, GenerateRecords, MemberContents;
  }

  lemma BelowBoth(r: seq<Member<Tree>>, s: seq<Member<Tree>>, ms: seq<Member<Json>>, ns: seq<Member<Json>>)
    requires |r| == |s| && forall k | 0 <= k < |s| :: DisturbedBelow(r[k], ms, ns) <==> UpsetBelow(s[k], ms, ns)
    ensures (exists k | 0 <= k < |r| :: DisturbedBelow(r[k], ms, ns)) <==> AnyBelow(s, ms, ns)
  {
    hide UpsetBelow, DisturbedBelow;
  }

  lemma FirstContent(s: seq<Member<Tree>>)
    ensures s != [] ==> MemberContents(s) != [] && MemberContents(s)[0].key == s[0].key
  {
  }

  lemma NeitherUpset(from: Tree, to: Tree)
    requires !from.Record? || !to.Record?
    ensures !MergeUpset(from, Content(to)) && !Disturbed(GenerateTree(from, to).from, Content(from), Content(to))
  {
  }

  /** Generating puts no node into another list. */
  lemma {:induction false} GenerateHome(from: Tree, to: Tree)
    requires Home(from)
    ensures Home(GenerateTree(from, to).from)
    decreases Height(Content(from)), 0
  {
    hide *;
    if from.Record? && to.Record? {
      RecordHeight(from);
      RecordGenerates(from, to);
      SortedHeight(from.members, false);
      HomeInside(from);
      SortHome(from.members, false);
      GenerateRecordsHome(Sort(from.members, false), Sort(to.members, false));
      HomeOutside(from, GenerateRecords(Sort(from.members, false), Sort(to.members, false)).ms, false);
    } else {
      GeneratedAsIs(from, to);
    }
  }

  lemma GeneratedAsIs(from: Tree, to: Tree)
    requires !from.Record? || !to.Record?
    ensures GenerateTree(from, to).from == from
  {
  }

  lemma {:induction false} GenerateRecordsHome(ms: seq<Member<Tree>>, ns: seq<Member<Tree>>)
    requires HomeMembers(ms)
    ensures HomeMembers(GenerateRecords(ms, ns).ms)
    decreases MembersHeight(MemberContents(ms)), |ms| + |ns|
  {
    if ms == [] && ns == [] {
    } else {
      GenerateStep(ms, ns);
      if ms != [] { ContentTail(ms); TailHeight(ms); assert Home(ms[0].value); }
      hide GenerateRecords, GenerateValue, Home, Cmp, Content, MemberContents;
      var diff := if ms == [] then 1 else if ns == [] then -1 else Cmp(ms[0].key, ns[0].key);
      if diff < 0 {
        GenerateRecordsHome(ms[1..], ns);
      } else if diff > 0 {
        GenerateRecordsHome(ms, ns[1..]);
      } else {
        GenerateValueHome(ms[0], ns[0]);
        GenerateRecordsHome(ms[1..], ns[1..]);
      }
    }
  }

  lemma {:induction false} GenerateValueHome(m: Member<Tree>, n: Member<Tree>)
    requires Home(m.value)
    ensures Home(GenerateValue(m, n).from)
    decreases Height(Content(m.value)), 1
  {
    hide CompareTree, GenerateTree, Home, Height;
    CompareHome(m.value, n.value, false);
    CompareContent(m.value, n.value, false);
    CompareAlike(Content(m.value), Content(n.value));
    var c := CompareTree(m.value, n.value, false);
    if !c.equal { GenerateHome(c.a, c.b); }
    hide NoNullMembers;
  }

  /**
   Merging into the very tree that the patch was generated from: it leaves what `to` means if
   the walk's order is right and the tree was not upset before; and only then, where no first
   member of it pointed at a node in another list.
   */
  lemma MergeInPlace(from: Tree, to: Tree, outside: set<nat>)
    requires Mergeable(Content(from), Content(to))
    ensures var g := GenerateTree(from, to);
            var fine := MergeRight(Content(from), Content(to)) && !MergeUpset(from, Content(to));
            if g.patch.None? then View(Content(g.from), false) == View(Content(to), false) && fine
            else
              var m := MergeTree(Some(g.from), g.patch.value, false, true, outside);
              var right := m.Becomes? && Means(Content(m.tree), View(Content(to), false));
              (fine ==> right) && (right && Home(from) ==> fine)
  {
    MergeableParts(Content(from), Content(to));
    hide *;
    GenerateKeeps(from, to);
    GenerateContent(from, to);
    GeneratedUpset(from, to);
    if Home(from) { GenerateHome(from, to); }
    KeptMeans(Content(GenerateTree(from, to).from), Content(from));
    TreeMergeRoundTrip(GenerateTree(from, to).from, Content(from), Content(to), outside);
  }

  lemma KeptMeans(a: Json, b: Json)
    requires Kept(a, b, false)
    ensures Means(a, View(b, false))
  {
  }
}
