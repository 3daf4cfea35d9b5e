/**
 Runs of requests on trees that know what first members point back at: requests below a child
 are a run on that child, and what the members of an object are after each edit.
 */
module LinkedRun {
  import opened Options
  import opened CString
  import opened Decimal
  import opened Json
  import opened MemberSort
  import opened Pointer
  import opened Rfc6902
  import opened Compare
  import opened Links
  import opened Patch
  import opened Diff
  import opened LinkedPatch

  // ---- Requests one level further down ----

  function Under(k: string, r: Request): Request {
    r.(path := [k] + r.path)
  }

  function UnderAll(k: string, rs: seq<Request>): (us: seq<Request>)
    ensures |us| == |rs| && forall i | 0 <= i < |rs| :: us[i] == Under(k, rs[i])
  {
    if rs == [] then [] else [Under(k, rs[0])] + UnderAll(k, rs[1..])
  }

  lemma UnderAppend(k: string, a: seq<Request>, b: seq<Request>)
    ensures UnderAll(k, a + b) == UnderAll(k, a) + UnderAll(k, b)
  {
    hide UnderAll;
  }

  function Lift(t: Tree, i: nat, o: Outcome): Outcome
    requires i < ChildCount(Content(t))
  {
    if o.Broken? then Broken else Ran(o.status, TreeWith(t, i, o.document))
  }

  function LiftTaking(t: Tree, i: nat, d: Taking): Taking
    requires i < ChildCount(Content(t))
  {
    if d.Taken? then Taken(TreeWith(t, i, d.document), d.item) else d
  }

  lemma TreeWithSame(t: Tree, i: nat, x: Tree, y: Tree)
    requires i < ChildCount(Content(t))
    ensures TreeWith(t, i, TreeChild(t, i)) == t
    ensures var u := TreeWith(t, i, x); TreeChild(u, i) == x && TreeWith(u, i, y) == TreeWith(t, i, y)
  {
    assert if t.List? then i < |t.items| else t.Record? && i < |t.members|;
    hide Content;
    if t.List? {
      var items := t.items;
      assert items[i := items[i]] == items && items[i := x][i := y] == items[i := y];
    } else {
      var ms := t.members;
      assert ms[i := ms[i]] == ms && ms[i := Member(ms[i].key, x)][i := Member(ms[i].key, y)] == ms[i := Member(ms[i].key, y)];
    }
  }

  lemma {:induction false} FindNamedKeys(ms: seq<Member<Json>>, ns: seq<Member<Json>>, token: string)
    requires |ms| == |ns| && forall i | 0 <= i < |ms| :: ms[i].key == ns[i].key
    ensures FindNamed(ms, token, false) == FindNamed(ns, token, false)
  {
    hide Names;
    if ms != [] { FindNamedKeys(ms[1..], ns[1..], token); }
  }

  /** Overwriting a child does not change which child a token selects. */
  lemma StepKept(t: Tree, i: nat, x: Tree, token: string)
    requires i < ChildCount(Content(t))
    ensures Pointer.Step(Content(TreeWith(t, i, x)), token, false) == Pointer.Step(Content(t), token, false)
  {
    hide DecodeIndex;
    if t.Record? {
      FindNamedKeys(MemberContents(TreeWith(t, i, x).members), MemberContents(t.members), token);
    }
  }

  /** Where the parent of a longer path lies. */
  lemma ParentBelow(t: Tree, k: string, i: nat, p: seq<string>)
    requires p != [] && Pointer.Step(Content(t), Encode(k), false) == Some(i)
    ensures DropLast([k] + p) == [k] + DropLast(p) && Last([k] + p) == Last(p)
    ensures var below := Resolve(Content(TreeChild(t, i)), PathText(DropLast(p)), false);
            Resolve(Content(t), PathText([k] + DropLast(p)), false) == if below.None? then None else Some([i] + below.value)
  {
    hide *;
    TokensBelow(k, p);
    var path := [k] + DropLast(p);
    assert path[0] == k && path[1..] == DropLast(p);
    StepBelow(t, k, i);
    ResolveText(Content(t), path, false);
  }

  lemma TokensBelow(k: string, p: seq<string>)
    requires p != []
    ensures DropLast([k] + p) == [k] + DropLast(p) && Last([k] + p) == Last(p)
  {
  }

  lemma StepBelow(t: Tree, k: string, i: nat)
    requires Pointer.Step(Content(t), Encode(k), false) == Some(i)
    ensures i < ChildCount(Content(t)) && Content(TreeChild(t, i)) == ChildAt(Content(t), i)
  {
    hide Content, Encode, TreeChild;
  }

  lemma AtBelow(t: Tree, i: nat, at: Position, x: Tree)
    requires i < ChildCount(Content(t)) && Exists(Content(TreeChild(t, i)), at)
    ensures Exists(Content(t), [i] + at)
    ensures TreeAt(t, [i] + at) == TreeAt(TreeChild(t, i), at)
    ensures TreePut(t, [i] + at, x) == TreeWith(t, i, TreePut(TreeChild(t, i), at, x))
  {
    assert ([i] + at)[1..] == at;
  }

  lemma TakeBelow(t: Tree, k: string, i: nat, p: seq<string>)
    requires p != [] && Writable(p) && Pointer.Step(Content(t), Encode(k), false) == Some(i)
    ensures Take(t, PathText([k] + p), false) == LiftTaking(t, i, Take(TreeChild(t, i), PathText(p), false))
  {
    hide Take, PathText, TakeChild, Resolve, TreeAt, TreePut, TreeWith, TreeChild, Encode, DecodesBack;
    var c := TreeChild(t, i);
    ParentBelow(t, k, i, p);
    TakeText(t, [k] + p);
    TakeText(c, p);
    var at := Resolve(Content(c), PathText(DropLast(p)), false);
    if at.Some? {
      AtBelow(t, i, at.value, t);
      var d := TakeChild(TreeAt(c, at.value), Last(p));
      if d.Taken? { AtBelow(t, i, at.value, d.document); }
    }
  }

  lemma PlaceBelow(t: Tree, k: string, i: nat, p: seq<string>, x: Tree)
    requires p != [] && Writable(p) && Pointer.Step(Content(t), Encode(k), false) == Some(i)
    ensures PlaceAt(t, PathText([k] + p), x, false) == Lift(t, i, PlaceAt(TreeChild(t, i), PathText(p), x, false))
  {
    hide PlaceAt, PathText, PlaceIn, Resolve, TreeAt, TreePut, TreeWith, TreeChild, Encode, DecodesBack;
    var c := TreeChild(t, i);
    ParentBelow(t, k, i, p);
    TreeWithSame(t, i, c, c);
    PlaceText(t, [k] + p, x);
    PlaceText(c, p, x);
    var at := Resolve(Content(c), PathText(DropLast(p)), false);
    if at.Some? {
      AtBelow(t, i, at.value, t);
      var q := PlaceIn(TreeAt(c, at.value), Last(p), x, false);
      if q.Placed? { AtBelow(t, i, at.value, q.parent); }
    }
  }

  lemma TakeAwayBelow(t: Tree, k: string, i: nat, p: seq<string>, value: Option<Json>, replace: bool)
    requires p != [] && Writable(p) && Pointer.Step(Content(t), Encode(k), false) == Some(i) && (replace ==> value.Some?)
    ensures TakeAway(t, PathText([k] + p), value, replace, false) ==
            Lift(t, i, TakeAway(TreeChild(t, i), PathText(p), value, replace, false))
  {
    hide Take, PlaceAt, PathText, TreeWith, TreeChild, Encode, Writable, Content;
    var c := TreeChild(t, i);
    TakeBelow(t, k, i, p);
    TreeWithSame(t, i, c, c);
    var d := Take(c, PathText(p), false);
    if d.Taken? && replace {
      var u := TreeWith(t, i, d.document);
      StepKept(t, i, d.document, Encode(k));
      PlaceBelow(u, k, i, p, Fresh(value.value));
      var o := PlaceAt(d.document, PathText(p), Fresh(value.value), false);
      TreeWithSame(t, i, d.document, if o.Ran? then o.document else c);
    }
  }

  /** A request that edits: what the generator makes. */
  ghost predicate Edits(r: Request) {
    Sound(r, false) && (r.DoAdd? || r.DoRemove? || r.DoReplace?)
  }

  lemma UnderSound(k: string, r: Request)
    requires Edits(r) && r.path != []
    ensures Edits(Under(k, r)) && Writable(r.path)
  {
    hide DecodesBack, View, Distinct;
    assert Last([k] + r.path) == Last(r.path);
  }

  lemma ApplyBelow(t: Tree, k: string, i: nat, r: Request)
    requires Edits(r) && r.path != [] && Pointer.Step(Content(t), Encode(k), false) == Some(i)
    ensures ApplyTree(t, Compose(Under(k, r)), false) == Lift(t, i, ApplyTree(TreeChild(t, i), Compose(r), false))
  {
    hide ApplyTree, Compose, PathText, TakeAway, PlaceAt, TreeWith, TreeChild, Encode, Writable, Distinct, Content, Fresh, View;
    var c, u := TreeChild(t, i), Under(k, r);
    UnderSound(k, r);
    TreeDispatch(t, u);
    TreeDispatch(c, r);
    match r {
      case DoAdd(path, x) => PlaceBelow(t, k, i, path, Fresh(x));
      case DoRemove(path) => TakeAwayBelow(t, k, i, path, None, false);
      case DoReplace(path, x) => TakeAwayBelow(t, k, i, path, Some(x), true);
    }
  }

  ghost predicate EditsBelow(rs: seq<Request>) {
    forall i | 0 <= i < |rs| :: Edits(rs[i]) && rs[i].path != []
  }

  /** Requests below a child are a run on that child. */
  lemma {:induction false} RunBelow(t: Tree, k: string, i: nat, rs: seq<Request>)
    requires EditsBelow(rs) && Pointer.Step(Content(t), Encode(k), false) == Some(i)
    ensures RunPatches(t, Compositions(UnderAll(k, rs)), false) ==
            Lift(t, i, RunPatches(TreeChild(t, i), Compositions(rs), false))
    decreases |rs|
  {
    hide ApplyTree, Compose, TreeWith, TreeChild, Encode, Edits, Content, Under, Pointer.Step;
    var c := TreeChild(t, i);
    TreeWithSame(t, i, c, c);
    if rs != [] {
      ApplyBelow(t, k, i, rs[0]);
      var o := ApplyTree(c, Compose(rs[0]), false);
      if o.Ran? && o.status == 0 {
        StepKept(t, i, o.document, Encode(k));
        RunBelow(TreeWith(t, i, o.document), k, i, rs[1..]);
        var last := RunPatches(o.document, Compositions(rs[1..]), false);
        TreeWithSame(t, i, o.document, if last.Ran? then last.document else c);
      }
    }
  }

  lemma {:induction false} RunAppend(t: Tree, a: seq<Json>, b: seq<Json>)
    ensures RunPatches(t, a + b, false) ==
            var o := RunPatches(t, a, false); if o.Ran? && o.status == 0 then RunPatches(o.document, b, false) else o
    decreases |a|
  {
    hide ApplyTree;
    if a == [] {
      assert a + b == b;
    } else {
      assert (a + b)[0] == a[0] && (a + b)[1..] == a[1..] + b;
      var o := ApplyTree(t, a[0], false);
      if o.Ran? && o.status == 0 { RunAppend(o.document, a[1..], b); }
    }
  }

  // ---- The requests below a key ----

  lemma {:induction false} RequestsUnder(k: string, path: seq<string>, from: Json, to: Json)
    ensures Requests([k] + path, from, to) == UnderAll(k, Requests(path, from, to))
    decreases Height(from), 0
  {
    if SameType(from, to) {
      match from
      case Array(items) => ItemRequestsUnder(k, path, 0, items, to.items);
      case Object(members) =>
        SortHeight(members, false);
        MemberRequestsUnder(k, path, Sort(members, false), Sort(to.members, false));
      case _ =>
    }
  }

  lemma {:induction false} ItemRequestsUnder(k: string, path: seq<string>, index: nat, xs: seq<Json>, ys: seq<Json>)
    ensures ItemRequests([k] + path, index, xs, ys) == UnderAll(k, ItemRequests(path, index, xs, ys))
    decreases ItemsHeight(xs), |xs|
  {
    if xs != [] && ys != [] {
      var t := Digits(index);
      RequestsUnder(k, path + [t], xs[0], ys[0]);
      ItemRequestsUnder(k, path, index + 1, xs[1..], ys[1..]);
      assert ([k] + path) + [t] == [k] + (path + [t]);
      hide Requests, Digits;
      UnderAppend(k, Requests(path + [t], xs[0], ys[0]), ItemRequests(path, index + 1, xs[1..], ys[1..]));
    } else {
      RemovalsUnder(k, path, index, |xs|);
      AdditionsUnder(k, path, ys);
      hide Removals, Additions;
      UnderAppend(k, Removals(path, index, |xs|), Additions(path, ys));
    }
  }

  lemma {:induction false} RemovalsUnder(k: string, path: seq<string>, index: nat, count: nat)
    ensures Removals([k] + path, index, count) == UnderAll(k, Removals(path, index, count))
  {
    hide Digits;
    if count > 0 {
      RemovalsUnder(k, path, index, count - 1);
      assert ([k] + path) + [Digits(index)] == [k] + (path + [Digits(index)]);
    }
  }

  lemma {:induction false} AdditionsUnder(k: string, path: seq<string>, ys: seq<Json>)
    ensures Additions([k] + path, ys) == UnderAll(k, Additions(path, ys))
  {
    if ys != [] {
      AdditionsUnder(k, path, ys[1..]);
      assert ([k] + path) + ["-"] == [k] + (path + ["-"]);
    }
  }

  lemma {:induction false} MemberRequestsUnder(k: string, path: seq<string>, ms: seq<Member<Json>>, ns: seq<Member<Json>>)
    ensures MemberRequests([k] + path, ms, ns) == UnderAll(k, MemberRequests(path, ms, ns))
    decreases MembersHeight(ms), |ms| + |ns|
  {
    if ms != [] || ns != [] {
      var diff := if ms == [] then 1 else if ns == [] then -1 else CompareStrings(ms[0].key, ns[0].key, false);
      var t := if diff > 0 then ns[0].key else ms[0].key;
      assert ([k] + path) + [t] == [k] + (path + [t]);
      hide Requests, CompareStrings;
      if diff == 0 {
        RequestsUnder(k, path + [t], ms[0].value, ns[0].value);
        MemberRequestsUnder(k, path, ms[1..], ns[1..]);
        UnderAppend(k, Requests(path + [t], ms[0].value, ns[0].value), MemberRequests(path, ms[1..], ns[1..]));
      } else if diff < 0 {
        MemberRequestsUnder(k, path, ms[1..], ns);
      } else {
        MemberRequestsUnder(k, path, ms, ns[1..]);
      }
    }
  }

  /** The generator replaces the value as a whole. */
  predicate Whole(from: Json, to: Json) {
    || !SameType(from, to)
    || (from.Number? && from != to)
    || (from.String? && from != to)
  }

  ghost predicate Longer(rs: seq<Request>, n: nat) {
    forall i | 0 <= i < |rs| :: |rs[i].path| > n
  }

  lemma {:induction false} RequestsLonger(path: seq<string>, from: Json, to: Json)
    ensures if Whole(from, to) then Requests(path, from, to) == [DoReplace(path, to)] else Longer(Requests(path, from, to), |path|)
    decreases Height(from), 0
  {
    if SameType(from, to) {
      match from
      case Array(items) => ItemRequestsLonger(path, 0, items, to.items);
      case Object(members) =>
        SortHeight(members, false);
        MemberRequestsLonger(path, Sort(members, false), Sort(to.members, false));
      case _ =>
    }
  }

  lemma {:induction false} ItemRequestsLonger(path: seq<string>, index: nat, xs: seq<Json>, ys: seq<Json>)
    ensures Longer(ItemRequests(path, index, xs, ys), |path|)
    decreases ItemsHeight(xs), |xs|
  {
    hide Digits;
    if xs != [] && ys != [] {
      RequestsLonger(path + [Digits(index)], xs[0], ys[0]);
      ItemRequestsLonger(path, index + 1, xs[1..], ys[1..]);
      hide Requests;
    } else {
      RemovalsLonger(path, index, |xs|);
      AdditionsLonger(path, ys);
    }
  }

  lemma {:induction false} RemovalsLonger(path: seq<string>, index: nat, count: nat)
    ensures Longer(Removals(path, index, count), |path|)
  {
    hide Digits;
    if count > 0 { RemovalsLonger(path, index, count - 1); }
  }

  lemma {:induction false} AdditionsLonger(path: seq<string>, ys: seq<Json>)
    ensures Longer(Additions(path, ys), |path|)
  {
    if ys != [] { AdditionsLonger(path, ys[1..]); }
  }

  lemma {:induction false} MemberRequestsLonger(path: seq<string>, ms: seq<Member<Json>>, ns: seq<Member<Json>>)
    ensures Longer(MemberRequests(path, ms, ns), |path|)
    decreases MembersHeight(ms), |ms| + |ns|
  {
    if ms != [] || ns != [] {
      var diff := if ms == [] then 1 else if ns == [] then -1 else CompareStrings(ms[0].key, ns[0].key, false);
      hide Requests, CompareStrings;
      if diff == 0 {
        RequestsLonger(path + [ms[0].key], ms[0].value, ns[0].value);
        MemberRequestsLonger(path, ms[1..], ns[1..]);
      } else if diff < 0 {
        MemberRequestsLonger(path, ms[1..], ns);
      } else {
        MemberRequestsLonger(path, ms, ns[1..]);
      }
    }
  }

  // ---- Members by key ----

  /** The value of the first member with the key. */
  function Partner<T>(ms: seq<Member<T>>, key: string, caseSensitive: bool := false): Option<T> {
    var i := FindMember(ms, key, caseSensitive);
    if i < |ms| then Some(ms[i].value) else None
  }

  lemma FindUnique<T>(ms: seq<Member<T>>, i: nat, key: string, caseSensitive: bool := false)
    requires DistinctKeys(ms, caseSensitive) && i < |ms| && Fold(ms[i].key, caseSensitive) == Fold(key, caseSensitive)
    ensures FindMember(ms, key, caseSensitive) == i
  {
  }

  lemma PartnerNone<T>(ms: seq<Member<T>>, key: string, caseSensitive: bool := false)
    requires forall i | 0 <= i < |ms| :: Fold(ms[i].key, caseSensitive) != Fold(key, caseSensitive)
    ensures FindMember(ms, key, caseSensitive) == |ms|
  {
  }

  lemma PartnerFold<T>(ms: seq<Member<T>>, a: string, b: string, caseSensitive: bool := false)
    requires Fold(a, caseSensitive) == Fold(b, caseSensitive)
    ensures FindMember(ms, a, caseSensitive) == FindMember(ms, b, caseSensitive) && Partner(ms, a, caseSensitive) == Partner(ms, b, caseSensitive)
  {
    var i, k := FindMember(ms, a, caseSensitive), FindMember(ms, b, caseSensitive);
    assert i < |ms| ==> Fold(ms[i].key, caseSensitive) == Fold(b, caseSensitive);
    assert k < |ms| ==> Fold(ms[k].key, caseSensitive) == Fold(a, caseSensitive);
  }

  lemma PartnerWithout<T>(ms: seq<Member<T>>, i: nat, key: string, caseSensitive: bool := false)
    requires DistinctKeys(ms, caseSensitive) && i < |ms|
    ensures var rest := ms[..i] + ms[i + 1..];
            Partner(rest, key, caseSensitive) == if Fold(key, caseSensitive) == Fold(ms[i].key, caseSensitive) then None else Partner(ms, key, caseSensitive)
  {
    var rest := ms[..i] + ms[i + 1..];
    DistinctRemove(ms, i, caseSensitive);
    var k := FindMember(ms, key, caseSensitive);
    if Fold(key, caseSensitive) == Fold(ms[i].key, caseSensitive) {
      forall j | 0 <= j < |rest| ensures Fold(rest[j].key, caseSensitive) != Fold(key, caseSensitive) {
        assert rest[j] == ms[if j < i then j else j + 1];
        assert Fold(rest[j].key, caseSensitive) != Fold(ms[i].key, caseSensitive);
      }
      PartnerNone(rest, key, caseSensitive);
    } else if k < |ms| {
      var j := if k < i then k else k - 1;
      assert rest[j] == ms[k];
      FindUnique(rest, j, key, caseSensitive);
    } else {
      forall j | 0 <= j < |rest| ensures Fold(rest[j].key, caseSensitive) != Fold(key, caseSensitive) {
        assert rest[j] == ms[if j < i then j else j + 1];
        assert Fold(ms[if j < i then j else j + 1].key, caseSensitive) != Fold(key, caseSensitive);
      }
      PartnerNone(rest, key, caseSensitive);
    }
  }

  lemma PartnerAppend<T>(ms: seq<Member<T>>, m: Member<T>, key: string, caseSensitive: bool := false)
    requires Partner(ms, m.key, caseSensitive).None?
    ensures Partner(ms + [m], key, caseSensitive) == if Fold(key, caseSensitive) == Fold(m.key, caseSensitive) then Some(m.value) else Partner(ms, key, caseSensitive)
  {
    var all, k := ms + [m], FindMember(ms + [m], key, caseSensitive);
    if Fold(key, caseSensitive) == Fold(m.key, caseSensitive) { PartnerFold(ms, m.key, key, caseSensitive); }
    var i := FindMember(ms, key, caseSensitive);
    if i < |ms| {
      assert all[i] == ms[i];
      assert k <= i;
      assert all[k] == ms[k];
    } else {
      assert all[|ms|] == m;
      forall j | 0 <= j < |ms| ensures Fold(all[j].key, caseSensitive) != Fold(key, caseSensitive) {
        assert all[j] == ms[j] && Fold(ms[j].key, caseSensitive) != Fold(key, caseSensitive);
      }
      assert k >= |ms|;
      assert k == |ms| <==> Fold(m.key, caseSensitive) == Fold(key, caseSensitive);
    }
  }

  lemma PartnerSet<T>(ms: seq<Member<T>>, i: nat, x: T, key: string, caseSensitive: bool := false)
    requires DistinctKeys(ms, caseSensitive) && i < |ms|
    ensures var r := ms[i := Member(ms[i].key, x)];
            DistinctKeys(r, caseSensitive) &&
            Partner(r, key, caseSensitive) == if Fold(key, caseSensitive) == Fold(ms[i].key, caseSensitive) then Some(x) else Partner(ms, key, caseSensitive)
  {
    var r, k := ms[i := Member(ms[i].key, x)], FindMember(ms, key, caseSensitive);
    assert DistinctKeys(r, caseSensitive);
    if k < |ms| {
      FindUnique(r, k, key, caseSensitive);
      if Fold(key, caseSensitive) == Fold(ms[i].key, caseSensitive) { FindUnique(ms, i, key, caseSensitive); }
    } else {
      assert Fold(ms[i].key, caseSensitive) != Fold(key, caseSensitive);
      forall j | 0 <= j < |r| ensures Fold(r[j].key, caseSensitive) != Fold(key, caseSensitive) {
        assert Fold(ms[j].key, caseSensitive) != Fold(key, caseSensitive);
      }
      PartnerNone(r, key, caseSensitive);
    }
  }

  lemma FoundBy<T>(ms: seq<Member<T>>, i: nat, caseSensitive: bool := false)
    requires i < |ms|
    ensures FindMember(ms, ms[i].key, caseSensitive) <= i
  {
  }

  lemma DistinctMore<T>(ms: seq<Member<T>>, m: Member<T>, caseSensitive: bool := false)
    requires DistinctKeys(ms, caseSensitive) && Partner(ms, m.key, caseSensitive).None?
    ensures DistinctKeys(ms + [m], caseSensitive)
  {
    forall i | 0 <= i < |ms| ensures Fold(ms[i].key, caseSensitive) != Fold(m.key, caseSensitive) {
      assert FindMember(ms, m.key, caseSensitive) == |ms|;
    }
    hide Fold;
  }

  /** In a strictly ordered list, a key before the first one has no partner. */
  lemma PartnerBefore<T>(ms: seq<Member<T>>, key: string)
    requires StrictOrder(ms) && (ms == [] || Before(key, ms[0].key, false))
    ensures Partner(ms, key).None?
  {
    var i := FindMember(ms, key, false);
    if i < |ms| {
      assert Fold(ms[i].key, false) == Fold(key, false);
      CmpZero(Lower(key), Lower(ms[i].key));
      if i > 0 { CmpTransitive(Lower(key), Lower(ms[0].key), Lower(ms[i].key)); }
    }
  }

  lemma PartnerTail<T>(ms: seq<Member<T>>, key: string)
    requires StrictOrder(ms) && ms != []
    ensures StrictOrder(ms[1..])
    ensures Partner(ms[1..], key) == if Lower(key) == Lower(ms[0].key) then None else Partner(ms, key)
    ensures Lower(key) == Lower(ms[0].key) ==> Partner(ms, key) == Some(ms[0].value)
  {
    OrderDistinct(ms);
    assert ms[..0] + ms[1..] == ms[1..];
    PartnerWithout(ms, 0, key);
    if Lower(key) == Lower(ms[0].key) { FindUnique(ms, 0, key); }
  }

  lemma OrderDistinct<T>(ms: seq<Member<T>>)
    requires StrictOrder(ms)
    ensures DistinctKeys(ms, false)
  {
    forall i, k | 0 <= i < k < |ms| ensures Fold(ms[i].key, false) != Fold(ms[k].key, false) {
      CmpZero(Lower(ms[i].key), Lower(ms[k].key));
    }
  }
}
