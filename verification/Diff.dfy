/**
 `create_patches`: the operations that turn one tree into another, and the round trip of
 section 4 of RFC 6902.  Case is folded, as in `cJSONUtils_GeneratePatches`.
 */
module Diff {
  import opened Options
  import opened CString
  import opened Decimal
  import opened Json
  import opened MemberSort
  import opened Pointer
  import opened Rfc6902
  import opened Compare
  import opened Patch

  function Requests(path: seq<string>, from: Json, to: Json): seq<Request>
    decreases Height(from), 0
  {
    if !SameType(from, to) then [DoReplace(path, to)]
    else
      match from
      case Number(d, n) => if n != to.valueint || d != to.valuedouble then [DoReplace(path, to)] else []
      case String(s) => if s != to.text then [DoReplace(path, to)] else []
      case Array(items) => ItemRequests(path, 0, items, to.items)
      case Object(members) =>
        SortHeight(members, false);
        MemberRequests(path, Sort(members, false), Sort(to.members, false))
      case _ => []
  }

  /** Pairs of elements first, then removals at one index, then additions at the end. */
  function ItemRequests(path: seq<string>, index: nat, xs: seq<Json>, ys: seq<Json>): seq<Request>
    decreases ItemsHeight(xs), |xs|
  {
    if xs != [] && ys != [] then
      Requests(path + [Digits(index)], xs[0], ys[0]) + ItemRequests(path, index + 1, xs[1..], ys[1..])
    else Removals(path, index, |xs|) + Additions(path, ys)
  }

  function Removals(path: seq<string>, index: nat, count: nat): seq<Request> {
    if count == 0 then [] else [DoRemove(path + [Digits(index)])] + Removals(path, index, count - 1)
  }

  function Additions(path: seq<string>, ys: seq<Json>): seq<Request> {
    if ys == [] then [] else [DoAdd(path + ["-"], ys[0])] + Additions(path, ys[1..])
  }

  /** The walk over both sorted member lists. */
  function MemberRequests(path: seq<string>, ms: seq<Member<Json>>, ns: seq<Member<Json>>): seq<Request>
    decreases MembersHeight(ms), |ms| + |ns|
  {
    if ms == [] && ns == [] then []
    else
      var diff := if ms == [] then 1 else if ns == [] then -1 else CompareStrings(ms[0].key, ns[0].key, false);
      if diff == 0 then
        Requests(path + [ms[0].key], ms[0].value, ns[0].value) + MemberRequests(path, ms[1..], ns[1..])
      else if diff < 0 then [DoRemove(path + [ms[0].key])] + MemberRequests(path, ms[1..], ns)
      else [DoAdd(path + [ns[0].key], ns[0].value)] + MemberRequests(path, ms, ns[1..])
  }

  /** The patch array that `cJSONUtils_GeneratePatches` returns. */
  function Compositions(rs: seq<Request>): (ps: seq<Json>)
    ensures |ps| == |rs|
  {
    if rs == [] then [] else [Compose(rs[0])] + Compositions(rs[1..])
  }

  lemma {:induction false} CompositionsAppend(a: seq<Request>, b: seq<Request>)
    ensures Compositions(a + b) == Compositions(a) + Compositions(b)
  {
    hide Compose;
    if a == [] {
      assert a + b == b;
    } else {
      assert (a + b)[1..] == a[1..] + b;
      CompositionsAppend(a[1..], b);
    }
  }

  function GeneratePatches(from: Json, to: Json): Json {
    Array(Compositions(Requests([], from, to)))
  }

  // ---- Every generated request is sound ----

  /** What a generator promises about its requests. */
  ghost predicate Generated(rs: seq<Request>) {
    forall i | 0 <= i < |rs| :: Sound(rs[i], false) && (rs[i].DoAdd? || rs[i].DoRemove? || rs[i].DoReplace?)
  }

  lemma {:induction false} RequestsSound(path: seq<string>, from: Json, to: Json)
    requires PlainPath(path) && Addressable(from) && Addressable(to) && Distinct(to, false)
    ensures Generated(Requests(path, from, to))
    decreases Height(from), 0
  {
    PlainWritable(path);
    if SameType(from, to) {
      match from
      case Array(items) => ItemRequestsSound(path, 0, items, to.items);
      case Object(members) =>
        SortHeight(members, false);
        SortAddressable(members);
        SortAddressable(to.members);
        SortKeeps(to.members, false, false);
        MemberRequestsSound(path, Sort(members, false), Sort(to.members, false));
      case _ =>
    }
  }

  lemma SortAddressable(ms: seq<Member<Json>>)
    requires AddressableMembers(ms)
    ensures AddressableMembers(Sort(ms, false))
  {
    SortPermutes(ms, false);
    var r := Sort(ms, false);
    forall i | 0 <= i < |r| ensures Plain(r[i].key) && Addressable(r[i].value) {
      assert r[i] in multiset(ms);
    }
  }

  lemma {:induction false} ItemRequestsSound(path: seq<string>, index: nat, xs: seq<Json>, ys: seq<Json>)
    requires PlainPath(path) && AddressableItems(xs) && AddressableItems(ys) && DistinctItems(ys, false)
    requires index + |xs| < SIZE_MODULUS
    ensures Generated(ItemRequests(path, index, xs, ys))
    decreases ItemsHeight(xs), |xs|
  {
    DecodePrinted(index);
    if xs != [] && ys != [] {
      RequestsSound(path + [Digits(index)], xs[0], ys[0]);
      ItemRequestsSound(path, index + 1, xs[1..], ys[1..]);
    } else {
      RemovalsSound(path, index, |xs|);
      AdditionsSound(path, ys);
    }
  }

  lemma {:induction false} RemovalsSound(path: seq<string>, index: nat, count: nat)
    requires PlainPath(path) && index < SIZE_MODULUS
    ensures Generated(Removals(path, index, count))
  {
    DecodePrinted(index);
    PlainWritable(path + [Digits(index)]);
    if count > 0 { RemovalsSound(path, index, count - 1); }
  }

  lemma {:induction false} AdditionsSound(path: seq<string>, ys: seq<Json>)
    requires PlainPath(path) && DistinctItems(ys, false)
    ensures Generated(Additions(path, ys))
  {
    if ys != [] {
      assert Plain("-");
      PlainWritable(path + ["-"]);
      AdditionsSound(path, ys[1..]);
    }
  }

  lemma {:induction false} MemberRequestsSound(path: seq<string>, ms: seq<Member<Json>>, ns: seq<Member<Json>>)
    requires PlainPath(path) && AddressableMembers(ms) && AddressableMembers(ns) && DistinctValues(ns, false)
    ensures Generated(MemberRequests(path, ms, ns))
    decreases MembersHeight(ms), |ms| + |ns|
  {
    if ms == [] && ns == [] {
    } else {
      var diff := if ms == [] then 1 else if ns == [] then -1 else CompareStrings(ms[0].key, ns[0].key, false);
      hide Sound, Requests, CompareStrings, Distinct, Addressable;
      if diff == 0 {
        RequestsSound(path + [ms[0].key], ms[0].value, ns[0].value);
        MemberRequestsSound(path, ms[1..], ns[1..]);
      } else if diff < 0 {
        RemoveSound(path + [ms[0].key]);
        MemberRequestsSound(path, ms[1..], ns);
      } else {
        AddSound(path + [ns[0].key], ns[0].value);
        MemberRequestsSound(path, ms, ns[1..]);
      }
    }
  }

  lemma RemoveSound(path: seq<string>)
    requires PlainPath(path) && path != []
    ensures Sound(DoRemove(path), false)
  {
    PlainWritable(path);
  }

  lemma AddSound(path: seq<string>, x: Json)
    requires PlainPath(path) && Distinct(x, false)
    ensures Sound(DoAdd(path, x), false)
  {
    PlainWritable(path);
  }

  // ---- A whole patch array on the view ----

  /** Performing generated requests on a view. */
  ghost function Effect(v: Value, rs: seq<Request>): Option<Value>
    requires Generated(rs)
    decreases |rs|
  {
    if rs == [] then Some(v)
    else
      var next := Perform(v, Denotes(rs[0], false), false);
      if next.None? then None else Effect(next.value, rs[1..])
  }

  /** Each request is proper for the view that it meets. */
  ghost predicate ProperAll(v: Value, rs: seq<Request>)
    requires Generated(rs)
    decreases |rs|
  {
    rs == [] ||
    (ProperRequest(v, rs[0], false) &&
     var next := Perform(v, Denotes(rs[0], false), false);
     next.Some? ==> ProperAll(next.value, rs[1..]))
  }

  /** Applying the composed patches one after the other has that effect. */
  lemma {:induction false} ApplyAllRefines(document: Json, rs: seq<Request>)
    requires Distinct(document, false) && Generated(rs) && ProperAll(View(document, false), rs)
    ensures var a, e := ApplyAll(document, Compositions(rs), false), Effect(View(document, false), rs);
            (a.status == 0) == e.Some? && (a.status == 0 ==> Means(a.document, e.value))
    decreases |rs|
  {
    hide ApplyPatch, Perform, View, Distinct, ProperRequest, Sound, Asks, Compose, Found;
    if rs != [] {
      ComposeAsks(rs[0], false);
      ApplyExactly(document, Compose(rs[0]), rs[0]);
      var r := ApplyPatch(document, Compose(rs[0]), false);
      if r.status == 0 { ApplyAllRefines(r.document, rs[1..]); }
    }
  }

  lemma {:induction false} EffectAppend(v: Value, a: seq<Request>, b: seq<Request>)
    requires Generated(a) && Generated(b)
    ensures Generated(a + b)
    ensures Effect(v, a + b) == var mid := Effect(v, a); if mid.None? then None else Effect(mid.value, b)
    ensures ProperAll(v, a) && (Effect(v, a).Some? ==> ProperAll(Effect(v, a).value, b)) ==> ProperAll(v, a + b)
    decreases |a|
  {
    hide Perform, ProperRequest;
    if a == [] {
      assert a + b == b;
    } else {
      assert (a + b)[0] == a[0] && (a + b)[1..] == a[1..] + b;
      var next := Perform(v, Denotes(a[0], false), false);
      if next.Some? {
        EffectAppend(next.value, a[1..], b);
      } else {
        assert Generated(a + b);
      }
    }
  }

  // ---- One request below a location ----

  lemma RemoveBelow(v: Value, path: seq<string>, t: string)
    requires Get(v, path, false).Some?
    ensures Perform(v, OpRemove(path + [t]), false) ==
            var r := RemoveChild(Get(v, path, false).value, t, false);
            if r.None? then None else Some(Set(v, path, r.value, false))
  { }

  lemma AddBelow(v: Value, path: seq<string>, t: string, x: Value)
    requires Get(v, path, false).Some?
    ensures Perform(v, OpAdd(path + [t], x), false) ==
            var r := AddChild(Get(v, path, false).value, t, x, false);
            if r.None? then None else Some(Set(v, path, r.value, false))
  { }

  /** What it means for requests to turn the part at a location into `x`. */
  ghost predicate Turns(v: Value, path: seq<string>, rs: seq<Request>, x: Value)
    requires Get(v, path, false).Some?
  {
    Generated(rs) && Effect(v, rs) == Some(Set(v, path, x, false)) && ProperAll(v, rs)
  }

  /** Requests that turn the part into `x`, then requests that turn that into `y`. */
  lemma TurnsThen(v: Value, path: seq<string>, a: seq<Request>, x: Value, b: seq<Request>, y: Value)
    requires Get(v, path, false).Some? && Turns(v, path, a, x)
    requires Get(Set(v, path, x, false), path, false).Some? && Turns(Set(v, path, x, false), path, b, y)
    ensures Turns(v, path, a + b, y)
  {
    SetSet(v, path, x, y, false);
    EffectAppend(v, a, b);
    hide Get, Set, Sound, Perform, ProperRequest;
  }

  lemma NothingTurns(v: Value, path: seq<string>)
    requires Get(v, path, false).Some?
    ensures Turns(v, path, [], Get(v, path, false).value)
  {
    SetGet(v, path, false);
  }

  lemma RemoveTurns(v: Value, path: seq<string>, t: string, x: Value)
    requires Get(v, path, false).Some? && PlainPath(path) && Plain(t) && Proper(v, path + [t], false)
    requires RemoveChild(Get(v, path, false).value, t, false) == Some(x)
    ensures Turns(v, path, [DoRemove(path + [t])], x)
  {
    RemoveBelow(v, path, t);
    PlainWritable(path + [t]);
    OneEffect(v, DoRemove(path + [t]));
    hide Get, Set, RemoveChild, Effect;
  }

  lemma AddTurns(v: Value, path: seq<string>, t: string, y: Json, x: Value)
    requires Get(v, path, false).Some? && PlainPath(path) && Plain(t) && Proper(v, path + [t], false) && Distinct(y, false)
    requires AddChild(Get(v, path, false).value, t, View(y, false), false) == Some(x)
    ensures Turns(v, path, [DoAdd(path + [t], y)], x)
  {
    AddBelow(v, path, t, View(y, false));
    PlainWritable(path + [t]);
    OneEffect(v, DoAdd(path + [t], y));
    hide Get, Set, AddChild, Effect, Distinct, View;
  }

  lemma OneEffect(v: Value, r: Request)
    requires Sound(r, false) && (r.DoAdd? || r.DoRemove? || r.DoReplace?)
    ensures Generated([r]) && Effect(v, [r]) == Perform(v, Denotes(r, false), false)
    ensures ProperRequest(v, r, false) ==> ProperAll(v, [r])
  { }

  /** The way to a child is proper if a token that meets an array is an index. */
  lemma ProperBelow(v: Value, path: seq<string>, t: string)
    requires Proper(v, path, false) && Plain(t)
    requires var p := Get(v, path, false); p.Some? && p.value.Arr? ==> RightIndex(t)
    ensures Proper(v, path + [t], false)
  {
    EncodePlain(t);
    ProperSplit(v, path, t, false);
    hide Get, Proper, Encode, RightIndex;
  }

  /** Turning a child turns its parent. */
  lemma ChildTurns(v: Value, path: seq<string>, t: string, rs: seq<Request>, y: Value)
    requires Get(v, path + [t], false).Some? && Turns(v, path + [t], rs, y)
    ensures Get(v, path, false).Some? && Child(Get(v, path, false).value, t, false).Some?
    ensures Turns(v, path, rs, SetChild(Get(v, path, false).value, t, y, false))
  {
    SetAppend(v, path, t, y, false);
    hide Get, Set, Child, SetChild, Effect;
  }

  // ---- Arrays ----

  lemma {:induction false} RemovalsWork(v: Value, path: seq<string>, done: seq<Value>, rest: seq<Value>)
    requires PlainPath(path) && Proper(v, path, false) && |done| + |rest| < SIZE_MODULUS
    requires Get(v, path, false) == Some(Arr(done + rest))
    ensures Turns(v, path, Removals(path, |done|, |rest|), Arr(done))
    decreases |rest|
  {
    if rest == [] {
      assert done + rest == done;
      NothingTurns(v, path);
    } else {
      var t, x := Digits(|done|), Arr(done + rest[1..]);
      DecodePrinted(|done|);
      assert (done + rest)[..|done|] + (done + rest)[|done| + 1..] == done + rest[1..];
      RfcPrinted(|done|);
      ProperBelow(v, path, t);
      RemoveTurns(v, path, t, x);
      ProperSet(v, path, x, false);
      RemovalsWork(Set(v, path, x, false), path, done, rest[1..]);
      TurnsThen(v, path, [DoRemove(path + [t])], x, Removals(path, |done|, |rest[1..]|), Arr(done));
      hide Turns, Get, Set, RemoveChild;
    }
  }

  lemma {:induction false} AdditionsWork(v: Value, path: seq<string>, done: seq<Value>, ys: seq<Json>)
    requires PlainPath(path) && Proper(v, path, false) && DistinctItems(ys, false)
    requires Get(v, path, false) == Some(Arr(done))
    ensures Turns(v, path, Additions(path, ys), Arr(done + ViewItems(ys, false)))
    decreases |ys|
  {
    if ys == [] {
      assert done + ViewItems(ys, false) == done;
      NothingTurns(v, path);
    } else {
      var y, rest := View(ys[0], false), ViewItems(ys[1..], false);
      var x, longer := Arr(done + [y]), done + [y];
      assert longer + rest == done + ViewItems(ys, false) by { hide View; }
      ProperBelow(v, path, "-");
      AddTurns(v, path, "-", ys[0], x);
      ProperSet(v, path, x, false);
      hide Turns, Get, Set, View, Distinct, ViewItems;
      AdditionsWork(Set(v, path, x, false), path, longer, ys[1..]);
      TurnsThen(v, path, [DoAdd(path + ["-"], ys[0])], x, Additions(path, ys[1..]), Arr(longer + rest));
    }
  }

  ghost predicate Comparable(xs: seq<Json>) {
    DistinctItems(xs, false) && AddressableItems(xs) && RawFreeItems(xs)
  }

  lemma ComparableTail(xs: seq<Json>)
    requires Comparable(xs) && xs != []
    ensures Comparable(xs[1..])
    ensures Addressable(xs[0]) && Distinct(xs[0], false) && RawFree(xs[0])
  { }

  lemma JoinAt(done: seq<Value>, x: Value, rest: seq<Value>, y: Value)
    ensures (done + ([x] + rest))[|done|] == x
    ensures (done + ([x] + rest))[|done| := y] == done + [y] + rest
  {
  }

  lemma ItemInPlace(done: seq<Value>, xs: seq<Json>, y: Value)
    requires xs != []
    ensures (done + ViewItems(xs, false))[|done|] == View(xs[0], false)
    ensures (done + ViewItems(xs, false))[|done| := y] == done + [y] + ViewItems(xs[1..], false)
  {
    assert ViewItems(xs, false) == [View(xs[0], false)] + ViewItems(xs[1..], false);
    hide View, ViewItems;
    JoinAt(done, View(xs[0], false), ViewItems(xs[1..], false), y);
  }

  lemma {:induction false} ItemsWork(v: Value, path: seq<string>, done: seq<Value>, xs: seq<Json>, ys: seq<Json>)
    requires PlainPath(path) && Proper(v, path, false) && |done| + |xs| < SIZE_MODULUS && Comparable(xs) && Comparable(ys)
    requires Get(v, path, false) == Some(Arr(done + ViewItems(xs, false)))
    ensures Turns(v, path, ItemRequests(path, |done|, xs, ys), Arr(done + ViewItems(ys, false)))
    decreases ItemsHeight(xs), |xs|
  {
    if xs != [] && ys != [] {
      PairWorks(v, path, done, xs, ys);
    } else {
      RemovalsWork(v, path, done, ViewItems(xs, false));
      ProperSet(v, path, Arr(done), false);
      AdditionsWork(Set(v, path, Arr(done), false), path, done, ys);
      TurnsThen(v, path, Removals(path, |done|, |xs|), Arr(done), Additions(path, ys), Arr(done + ViewItems(ys, false)));
      hide Turns, Get, Set, View, Distinct;
    }
  }

  /** One pair of elements, and then the rest. */
  lemma {:induction false} PairWorks(v: Value, path: seq<string>, done: seq<Value>, xs: seq<Json>, ys: seq<Json>)
    requires PlainPath(path) && Proper(v, path, false) && |done| + |xs| < SIZE_MODULUS && Comparable(xs) && Comparable(ys)
    requires xs != [] && ys != []
    requires Get(v, path, false) == Some(Arr(done + ViewItems(xs, false)))
    ensures Turns(v, path, ItemRequests(path, |done|, xs, ys), Arr(done + ViewItems(ys, false)))
    decreases ItemsHeight(xs), |xs|, 1
  {
    var t, y := Digits(|done|), View(ys[0], false);
    var mid, goal := done + [y] + ViewItems(xs[1..], false), done + ViewItems(ys, false);
    var first, rest := Requests(path + [t], xs[0], ys[0]), ItemRequests(path, |done| + 1, xs[1..], ys[1..]);
    assert goal == done + [y] + ViewItems(ys[1..], false) by { ItemInPlace(done, ys, y); }
    assert ItemRequests(path, |done|, xs, ys) == first + rest;
    hide *;
    ComparableTail(xs);
    ComparableTail(ys);
    PairFirst(v, path, done, xs, ys);
    ProperSet(v, path, Arr(mid), false);
    ItemsWork(Set(v, path, Arr(mid), false), path, done + [y], xs[1..], ys[1..]);
    TurnsThen(v, path, first, Arr(mid), rest, Arr(goal));
  }

  lemma {:induction false} PairFirst(v: Value, path: seq<string>, done: seq<Value>, xs: seq<Json>, ys: seq<Json>)
    requires PlainPath(path) && Proper(v, path, false) && |done| + |xs| < SIZE_MODULUS && Comparable(xs) && Comparable(ys)
    requires xs != [] && ys != []
    requires Get(v, path, false) == Some(Arr(done + ViewItems(xs, false)))
    ensures Turns(v, path, Requests(path + [Digits(|done|)], xs[0], ys[0]),
                  Arr(done + [View(ys[0], false)] + ViewItems(xs[1..], false)))
    decreases ItemsHeight(xs), |xs|, 0
  {
    var t, y := Digits(|done|), View(ys[0], false);
    DecodePrinted(|done|);
    ComparableTail(xs);
    ComparableTail(ys);
    ItemInPlace(done, xs, y);
    GetAppend(v, path, t, false);
    RfcPrinted(|done|);
    ProperBelow(v, path, t);
    hide Turns, Get, View, Distinct, Comparable, Requests, Addressable, RawFree, Proper, Digits;
    Works(v, path + [t], xs[0], ys[0]);
    ChildTurns(v, path, t, Requests(path + [t], xs[0], ys[0]), y);
  }

  // ---- Objects ----

  type Fields = map<string, Value>

  /** The fields after the walk: the old members gone, the new ones in. */
  ghost function Exchanged(fields: Fields, gone: Fields, come: Fields): Fields {
    (fields - gone.Keys) + come
  }

  ghost predicate Holds(fields: Fields, part: Fields) {
    forall k | k in part :: k in fields && fields[k] == part[k]
  }

  lemma ExchangeBoth(fields: Fields, k: string, x: Value, y: Value, gone: Fields, come: Fields)
    requires k !in gone && k !in come && Holds(fields, gone[k := x])
    ensures Holds(fields[k := y], gone)
    ensures Exchanged(fields[k := y], gone, come) == Exchanged(fields, gone[k := x], come[k := y])
  {
  }

  lemma ExchangeOld(fields: Fields, k: string, x: Value, gone: Fields, come: Fields)
    requires k !in gone && k !in come && Holds(fields, gone[k := x])
    ensures Holds(fields - {k}, gone)
    ensures Exchanged(fields - {k}, gone, come) == Exchanged(fields, gone[k := x], come)
  {
  }

  lemma ExchangeNew(fields: Fields, k: string, y: Value, gone: Fields, come: Fields)
    requires k !in gone && k !in come && Holds(fields, gone)
    ensures Holds(fields[k := y], gone)
    ensures Exchanged(fields[k := y], gone, come) == Exchanged(fields, gone, come[k := y])
  {
  }

  ghost predicate Walkable(ms: seq<Member<Json>>) {
    StrictOrder(ms) && DistinctValues(ms, false) && AddressableMembers(ms) && RawFreeValues(ms)
  }

  lemma WalkableTail(ms: seq<Member<Json>>)
    requires Walkable(ms) && ms != []
    ensures Walkable(ms[1..])
    ensures var m := ms[0]; Plain(m.key) && Addressable(m.value) && Distinct(m.value, false) && RawFree(m.value)
    ensures Lower(ms[0].key) !in ViewMembers(ms[1..], false)
    ensures ViewMembers(ms, false) == ViewMembers(ms[1..], false)[Lower(ms[0].key) := View(ms[0].value, false)]
  {
    ViewOfHead(ms);
    hide View, Addressable, Distinct, RawFree;
  }

  lemma {:induction false} MembersWork(
    v: Value, path: seq<string>, fields: Fields, ms: seq<Member<Json>>, ns: seq<Member<Json>>)
    requires PlainPath(path) && Proper(v, path, false) && Walkable(ms) && Walkable(ns)
    requires Get(v, path, false) == Some(Obj(fields)) && Holds(fields, ViewMembers(ms, false))
    ensures Turns(v, path, MemberRequests(path, ms, ns), Obj(Exchanged(fields, ViewMembers(ms, false), ViewMembers(ns, false))))
    decreases MembersHeight(ms), |ms| + |ns|
  {
    hide Turns, Get;
    if ms == [] && ns == [] {
      assert Exchanged(fields, map[], map[]) == fields;
      NothingTurns(v, path);
    } else if ms != [] && ns != [] && CompareStrings(ms[0].key, ns[0].key, false) == 0 {
      BothHave(v, path, fields, ms, ns);
    } else if ms != [] && (ns == [] || CompareStrings(ms[0].key, ns[0].key, false) < 0) {
      OnlyOld(v, path, fields, ms, ns);
    } else {
      OnlyNew(v, path, fields, ms, ns);
    }
  }

  lemma {:induction false} BothHave(
    v: Value, path: seq<string>, fields: Fields, ms: seq<Member<Json>>, ns: seq<Member<Json>>)
    requires PlainPath(path) && Proper(v, path, false) && Walkable(ms) && Walkable(ns) && ms != [] && ns != []
    requires CompareStrings(ms[0].key, ns[0].key, false) == 0
    requires Get(v, path, false) == Some(Obj(fields)) && Holds(fields, ViewMembers(ms, false))
    ensures Turns(v, path, MemberRequests(path, ms, ns), Obj(Exchanged(fields, ViewMembers(ms, false), ViewMembers(ns, false))))
    decreases MembersHeight(ms), |ms| + |ns|, 0
  {
    var t, k, y := ms[0].key, Lower(ms[0].key), View(ns[0].value, false);
    var first, rest := Requests(path + [t], ms[0].value, ns[0].value), MemberRequests(path, ms[1..], ns[1..]);
    var mid := fields[k := y];
    CmpZero(k, Lower(ns[0].key));
    WalkableTail(ms);
    WalkableTail(ns);
    GetAppend(v, path, t, false);
    ProperBelow(v, path, t);
    Works(v, path + [t], ms[0].value, ns[0].value);
    ChildTurns(v, path, t, first, y);
    assert Turns(v, path, first, Obj(mid));
    ProperSet(v, path, Obj(mid), false);
    var gone, come := ViewMembers(ms[1..], false), ViewMembers(ns[1..], false);
    ExchangeBoth(fields, k, View(ms[0].value, false), y, gone, come);
    hide Turns, Get, Set, View, Distinct, Walkable, Requests, ViewMembers, Holds, Exchanged;
    MembersWork(Set(v, path, Obj(mid), false), path, mid, ms[1..], ns[1..]);
    TurnsThen(v, path, first, Obj(mid), rest, Obj(Exchanged(mid, gone, come)));
  }

  lemma {:induction false} OnlyOld(
    v: Value, path: seq<string>, fields: Fields, ms: seq<Member<Json>>, ns: seq<Member<Json>>)
    requires PlainPath(path) && Proper(v, path, false) && Walkable(ms) && Walkable(ns) && ms != []
    requires ns == [] || CompareStrings(ms[0].key, ns[0].key, false) < 0
    requires Get(v, path, false) == Some(Obj(fields)) && Holds(fields, ViewMembers(ms, false))
    ensures Turns(v, path, MemberRequests(path, ms, ns), Obj(Exchanged(fields, ViewMembers(ms, false), ViewMembers(ns, false))))
    decreases MembersHeight(ms), |ms| + |ns|, 0
  {
    var t, k := ms[0].key, Lower(ms[0].key);
    var first, rest := [DoRemove(path + [t])], MemberRequests(path, ms[1..], ns);
    var mid := fields - {k};
    WalkableTail(ms);
    BeforeFirstIsAbsent(ns, t);
    ProperBelow(v, path, t);
    RemoveTurns(v, path, t, Obj(mid));
    ProperSet(v, path, Obj(mid), false);
    var gone, come := ViewMembers(ms[1..], false), ViewMembers(ns, false);
    ExchangeOld(fields, k, View(ms[0].value, false), gone, come);
    hide Turns, Get, Set, View, Distinct, Walkable, ViewMembers, Holds, Exchanged;
    MembersWork(Set(v, path, Obj(mid), false), path, mid, ms[1..], ns);
    TurnsThen(v, path, first, Obj(mid), rest, Obj(Exchanged(mid, gone, come)));
  }

  lemma {:induction false} OnlyNew(
    v: Value, path: seq<string>, fields: Fields, ms: seq<Member<Json>>, ns: seq<Member<Json>>)
    requires PlainPath(path) && Proper(v, path, false) && Walkable(ms) && Walkable(ns) && ns != []
    requires ms == [] || CompareStrings(ms[0].key, ns[0].key, false) > 0
    requires Get(v, path, false) == Some(Obj(fields)) && Holds(fields, ViewMembers(ms, false))
    ensures Turns(v, path, MemberRequests(path, ms, ns), Obj(Exchanged(fields, ViewMembers(ms, false), ViewMembers(ns, false))))
    decreases MembersHeight(ms), |ms| + |ns|, 0
  {
    var t, k, y := ns[0].key, Lower(ns[0].key), View(ns[0].value, false);
    var first, rest := [DoAdd(path + [t], ns[0].value)], MemberRequests(path, ms, ns[1..]);
    var mid := fields[k := y];
    WalkableTail(ns);
    if ms != [] { CmpOpposite(k, Lower(ms[0].key)); }
    BeforeFirstIsAbsent(ms, t);
    ProperBelow(v, path, t);
    AddTurns(v, path, t, ns[0].value, Obj(mid));
    ProperSet(v, path, Obj(mid), false);
    var gone, come := ViewMembers(ms, false), ViewMembers(ns[1..], false);
    ExchangeNew(fields, k, y, gone, come);
    hide Turns, Get, Set, View, Distinct, Walkable, ViewMembers, Holds, Exchanged;
    MembersWork(Set(v, path, Obj(mid), false), path, mid, ms, ns[1..]);
    TurnsThen(v, path, first, Obj(mid), rest, Obj(Exchanged(mid, gone, come)));
  }

  // ---- The round trip ----

  /** "replace" below the root: a removal and an addition in its place. */
  lemma ReplaceBelow(v: Value, front: seq<string>, t: string, x: Value)
    requires Get(v, front + [t], false).Some?
    ensures Perform(v, OpReplace(front + [t], x), false) == Some(Set(v, front + [t], x, false))
  {
    GetAppend(v, front, t, false);
    var parent := Get(v, front, false).value;
    ReplaceChild(parent, t, x);
    var without, with_ := RemoveChild(parent, t, false).value, SetChild(parent, t, x, false);
    RemoveBelow(v, front, t);
    GetSet(v, front, without, false);
    AddBelow(Set(v, front, without, false), front, t, x);
    SetSet(v, front, without, with_, false);
    SetAppend(v, front, t, x, false);
    hide Get, Set, Child, SetChild, RemoveChild, AddChild, Remove, Add;
  }

  lemma ReplaceIsSet(v: Value, path: seq<string>, x: Value)
    requires Get(v, path, false).Some?
    ensures Perform(v, OpReplace(path, x), false) == Some(Set(v, path, x, false))
  {
    if path != [] {
      hide Get, Set, Perform;
      assert path == DropLast(path) + [Last(path)];
      ReplaceBelow(v, DropLast(path), Last(path), x);
    }
  }

  lemma ReplaceWorks(v: Value, path: seq<string>, to: Json)
    requires Get(v, path, false).Some? && PlainPath(path) && Proper(v, path, false) && Distinct(to, false)
    ensures Turns(v, path, [DoReplace(path, to)], View(to, false))
  {
    hide Effect, View, Distinct, Get, Set, Perform;
    PlainWritable(path);
    OneEffect(v, DoReplace(path, to));
    ReplaceIsSet(v, path, View(to, false));
  }

  lemma ReplaceChild(parent: Value, t: string, x: Value)
    requires Child(parent, t, false).Some?
    ensures RemoveChild(parent, t, false).Some?
    ensures AddChild(RemoveChild(parent, t, false).value, t, x, false) == Some(SetChild(parent, t, x, false))
  {
    match parent
    case Obj(fields) =>
      PutBack(fields, Lower(t), x);
    case Arr(elements) =>
      var i := RfcIndex(t).value;
      var shorter := elements[..i] + elements[i + 1..];
      assert shorter[..i] + [x] + shorter[i..] == elements[i := x];
      assert t != "-";
    case _ =>
  }

  /** At any location that means `from`, the generated requests leave what `to` means. */
  lemma {:induction false} Works(v: Value, path: seq<string>, from: Json, to: Json)
    requires PlainPath(path) && Proper(v, path, false) && Addressable(from) && Addressable(to)
    requires Distinct(from, false) && Distinct(to, false) && RawFree(from) && RawFree(to)
    requires Get(v, path, false) == Some(View(from, false))
    ensures Turns(v, path, Requests(path, from, to), View(to, false))
    decreases Height(from), 0, 1
  {
    if SameType(from, to) && from.Array? {
      assert [] + ViewItems(from.items, false) == ViewItems(from.items, false);
      assert [] + ViewItems(to.items, false) == ViewItems(to.items, false);
      ItemsWork(v, path, [], from.items, to.items);
      hide Turns, Get;
    } else if SameType(from, to) && from.Object? {
      ObjectsWork(v, path, from, to);
      hide Turns, Get;
    } else if Requests(path, from, to) == [] {
      NothingTurns(v, path);
      hide Turns, Get;
    } else {
      ReplaceWorks(v, path, to);
      hide Turns, Get;
    }
  }

  lemma {:induction false} ObjectsWork(v: Value, path: seq<string>, from: Json, to: Json)
    requires PlainPath(path) && Proper(v, path, false) && Addressable(from) && Addressable(to)
    requires Distinct(from, false) && Distinct(to, false) && RawFree(from) && RawFree(to)
    requires from.Object? && to.Object?
    requires Get(v, path, false) == Some(View(from, false))
    ensures Turns(v, path, Requests(path, from, to), View(to, false))
    decreases Height(from), 0, 0
  {
    hide Turns, Get, Walkable, Sort, Plain, PlainPath, Requests, MemberRequests, View, ViewMembers, Distinct, RawFree, Addressable;
    hide Height, MembersHeight, AddressableMembers, RawFreeValues;
    var ms, ns := Sort(from.members, false), Sort(to.members, false);
    ObjectParts(path, from, to);
    SortHeight(from.members, false);
    SortWalkable(from.members);
    SortWalkable(to.members);
    var gone, come := ViewMembers(from.members, false), ViewMembers(to.members, false);
    MembersWork(v, path, gone, ms, ns);
    ExchangeAll(gone, come);
  }

  lemma ExchangeAll(gone: Fields, come: Fields)
    ensures Exchanged(gone, gone, come) == come && Holds(gone, gone)
  {
  }

  lemma ObjectParts(path: seq<string>, from: Json, to: Json)
    requires from.Object? && to.Object?
    requires Distinct(from, false) && Distinct(to, false) && RawFree(from) && RawFree(to) && Addressable(from) && Addressable(to)
    ensures Distinct(Object(from.members), false) && AddressableMembers(from.members) && RawFreeValues(from.members)
    ensures Distinct(Object(to.members), false) && AddressableMembers(to.members) && RawFreeValues(to.members)
    ensures View(from, false) == Obj(ViewMembers(from.members, false)) && View(to, false) == Obj(ViewMembers(to.members, false))
    ensures Requests(path, from, to) == MemberRequests(path, Sort(from.members, false), Sort(to.members, false))
    ensures MembersHeight(from.members) < Height(from)
  { }

  lemma SortWalkable(ms: seq<Member<Json>>)
    requires Distinct(Object(ms), false) && AddressableMembers(ms) && RawFreeValues(ms)
    ensures Walkable(Sort(ms, false)) && ViewMembers(Sort(ms, false), false) == ViewMembers(ms, false)
  {
    SortKeeps(ms, false, false);
    SortAddressable(ms);
    SortStrict(ms);
  }

  /**
   Applying what `cJSONUtils_GeneratePatches` returns to any document that means `from`
   succeeds, and leaves a document that means `to`.
   */
  lemma PatchRoundTrip(document: Json, from: Json, to: Json)
    requires Distinct(from, false) && Distinct(to, false) && RawFree(from) && RawFree(to)
    requires Addressable(from) && Addressable(to)
    requires Means(document, View(from, false))
    ensures var r := ApplyPatches(document, GeneratePatches(from, to), false);
            r.status == 0 && Means(r.document, View(to, false))
  {
    var v, rs := View(document, false), Requests([], from, to);
    assert Get(v, [], false) == Some(v) && Set(v, [], View(to, false), false) == View(to, false);
    Works(v, [], from, to);
    ApplyAllRefines(document, rs);
    hide Get, Set, Effect, View, Distinct, Requests, Compositions, ApplyAll;
  }
}
