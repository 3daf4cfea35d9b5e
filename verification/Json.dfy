/**
 The tree that a `cJSON` node stands for, and the two readings of a tree that the
 theorems compare: the tree itself, and its `View`, in which an object is a map from
 folded keys, so that member order and (if folding) key case are forgotten.
 */
module Json {
  import opened CString

  datatype Member<T> = Member(key: string, value: T)

  /** One constructor per `cJSON` type.  A number carries both of its fields. */
  datatype Json =
    | Invalid
    | False
    | True
    | Null
    | Number(valuedouble: real, valueint: int)
    | String(text: string)
    | Raw(raw: string)
    | Array(items: seq<Json>)
    | Object(members: seq<Member<Json>>)

  const INT_MAX: int := 0x7fff_ffff
  const INT_MIN: int := -0x8000_0000

  /** Conversion of a `double` to `int`: the fraction is dropped. */
  function Truncate(d: real): int {
    if d >= 0.0 then d.Floor else -(-d).Floor
  }

  /** How `valueint` follows from `valuedouble`: saturating at both ends of `int`. */
  function Saturate(d: real): int {
    if d >= INT_MAX as real then INT_MAX
    else if d <= INT_MIN as real then INT_MIN
    else Truncate(d)
  }

  function MakeNumber(d: real): Json {
    Number(d, Saturate(d))
  }

  // ---- Height: the termination measure of everything that visits a tree ----

  function Height(j: Json): (h: nat)
    ensures j.Array? ==> forall i | 0 <= i < |j.items| :: Height(j.items[i]) < h
    ensures j.Object? ==> forall i | 0 <= i < |j.members| :: Height(j.members[i].value) < h
  {
    match j
    case Array(items) => 1 + ItemsHeight(items)
    case Object(members) => 1 + MembersHeight(members)
    case _ => 0
  }

  function ItemsHeight(items: seq<Json>): (h: nat)
    ensures forall i | 0 <= i < |items| :: Height(items[i]) <= h
  {
    if items == [] then 0
    else
      var first, rest := Height(items[0]), ItemsHeight(items[1..]);
      assert forall i | 1 <= i < |items| :: items[i] == items[1..][i - 1];
      if first > rest then first else rest
  }

  function MembersHeight(members: seq<Member<Json>>): (h: nat)
    ensures forall i | 0 <= i < |members| :: Height(members[i].value) <= h
  {
    if members == [] then 0
    else
      var first, rest := Height(members[0].value), MembersHeight(members[1..]);
      assert forall i | 1 <= i < |members| :: members[i] == members[1..][i - 1];
      if first > rest then first else rest
  }

  // ---- Object members as a map ----

  /** `get_object_item`: the index of the first member with the key, or the length. */
  function FindMember<T>(members: seq<Member<T>>, key: string, caseSensitive: bool): (i: nat)
    ensures i <= |members|
    ensures i < |members| ==> Fold(members[i].key, caseSensitive) == Fold(key, caseSensitive)
    ensures forall k | 0 <= k < i :: Fold(members[k].key, caseSensitive) != Fold(key, caseSensitive)
  {
    if members == [] then 0
    else if CompareStrings(key, members[0].key, caseSensitive) == 0 then
      CmpZero(Fold(key, caseSensitive), Fold(members[0].key, caseSensitive));
      0
    else
      CmpZero(Fold(key, caseSensitive), Fold(members[0].key, caseSensitive));
      1 + FindMember(members[1..], key, caseSensitive)
  }

  predicate DistinctKeys<T>(members: seq<Member<T>>, caseSensitive: bool) {
    forall i, k | 0 <= i < k < |members| ::
      Fold(members[i].key, caseSensitive) != Fold(members[k].key, caseSensitive)
  }

  datatype Value =
    | Leaf(json: Json)
    | Arr(elements: seq<Value>)
    | Obj(fields: map<string, Value>)

  function View(j: Json, caseSensitive: bool): Value {
    match j
    case Array(items) => Arr(ViewItems(items, caseSensitive))
    case Object(members) => Obj(ViewMembers(members, caseSensitive))
    case _ => Leaf(j)
  }

  function ViewItems(items: seq<Json>, caseSensitive: bool): (vs: seq<Value>)
    ensures |vs| == |items|
    ensures forall i | 0 <= i < |items| :: vs[i] == View(items[i], caseSensitive)
  {
    if items == [] then [] else [View(items[0], caseSensitive)] + ViewItems(items[1..], caseSensitive)
  }

  lemma ViewItemsRemove(items: seq<Json>, i: nat, caseSensitive: bool)
    requires i < |items|
    ensures ViewItems(items[..i] + items[i + 1..], caseSensitive) ==
            ViewItems(items, caseSensitive)[..i] + ViewItems(items, caseSensitive)[i + 1..]
  {
    hide View, ViewItems;
  }

  lemma ViewItemsInsert(items: seq<Json>, i: nat, x: Json, caseSensitive: bool)
    requires i <= |items|
    ensures ViewItems(items[..i] + [x] + items[i..], caseSensitive) ==
            ViewItems(items, caseSensitive)[..i] + [View(x, caseSensitive)] + ViewItems(items, caseSensitive)[i..]
  {
    hide View, ViewItems;
  }

  /** Of two members with the same folded key the first one counts, as in a lookup. */
  function ViewMembers(members: seq<Member<Json>>, caseSensitive: bool): map<string, Value> {
    if members == [] then map[]
    else ViewMembers(members[1..], caseSensitive)
         [Fold(members[0].key, caseSensitive) := View(members[0].value, caseSensitive)]
  }

  /** Lookup by `get_object_item` is lookup in the view. */
  lemma {:induction false} FindIsLookup(members: seq<Member<Json>>, key: string, caseSensitive: bool)
    ensures var i := FindMember(members, key, caseSensitive);
            var m := ViewMembers(members, caseSensitive);
            && (i < |members| <==> Fold(key, caseSensitive) in m)
            && (i < |members| ==> m[Fold(key, caseSensitive)] == View(members[i].value, caseSensitive))
  {
    if members != [] {
      FindIsLookup(members[1..], key, caseSensitive);
      CmpZero(Fold(key, caseSensitive), Fold(members[0].key, caseSensitive));
    }
  }

  lemma {:induction false} ViewKeys(members: seq<Member<Json>>, caseSensitive: bool)
    ensures forall k ::
      k in ViewMembers(members, caseSensitive) <==>
      exists i :: 0 <= i < |members| && Fold(members[i].key, caseSensitive) == k
  {
    if members != [] {
      var rest := members[1..];
      ViewKeys(rest, caseSensitive);
      forall k | k in ViewMembers(members, caseSensitive)
        ensures exists i :: 0 <= i < |members| && Fold(members[i].key, caseSensitive) == k
      {
        if k == Fold(members[0].key, caseSensitive) {
        } else {
          assert k in ViewMembers(rest, caseSensitive);
          var i :| 0 <= i < |rest| && Fold(rest[i].key, caseSensitive) == k;
          assert members[i + 1] == rest[i];
        }
      }
      forall i | 0 <= i < |members| ensures Fold(members[i].key, caseSensitive) in ViewMembers(members, caseSensitive) {
        if i > 0 {
          assert members[i] == rest[i - 1];
        }
      }
    }
  }

  /** With distinct keys every member is the one its own key finds. */
  lemma {:induction false} ViewAt(members: seq<Member<Json>>, i: nat, caseSensitive: bool)
    requires DistinctKeys(members, caseSensitive) && i < |members|
    ensures var k := Fold(members[i].key, caseSensitive);
            k in ViewMembers(members, caseSensitive) &&
            ViewMembers(members, caseSensitive)[k] == View(members[i].value, caseSensitive)
  {
    FindIsLookup(members, members[i].key, caseSensitive);
  }

  /** With distinct keys the view is determined by the set of members, not by their order. */
  lemma ViewOfPermutation(a: seq<Member<Json>>, b: seq<Member<Json>>, caseSensitive: bool)
    requires DistinctKeys(a, caseSensitive) && DistinctKeys(b, caseSensitive)
    requires multiset(a) == multiset(b)
    ensures ViewMembers(a, caseSensitive) == ViewMembers(b, caseSensitive)
  {
    ViewIncluded(a, b, caseSensitive);
    ViewIncluded(b, a, caseSensitive);
  }

  lemma ViewIncluded(a: seq<Member<Json>>, b: seq<Member<Json>>, caseSensitive: bool)
    requires DistinctKeys(a, caseSensitive) && DistinctKeys(b, caseSensitive)
    requires multiset(a) == multiset(b)
    ensures forall k | k in ViewMembers(a, caseSensitive) ::
      k in ViewMembers(b, caseSensitive) && ViewMembers(b, caseSensitive)[k] == ViewMembers(a, caseSensitive)[k]
  {
    ViewKeys(a, caseSensitive);
    forall k | k in ViewMembers(a, caseSensitive)
      ensures k in ViewMembers(b, caseSensitive) && ViewMembers(b, caseSensitive)[k] == ViewMembers(a, caseSensitive)[k]
    {
      var i :| 0 <= i < |a| && Fold(a[i].key, caseSensitive) == k;
      assert a[i] in multiset(b);
      var n :| 0 <= n < |b| && b[n] == a[i];
      ViewAt(a, i, caseSensitive);
      ViewAt(b, n, caseSensitive);
    }
  }

  /** Appending a member under a new key is a map update. */
  lemma {:induction false} ViewAppend(members: seq<Member<Json>>, m: Member<Json>, caseSensitive: bool)
    requires Fold(m.key, caseSensitive) !in ViewMembers(members, caseSensitive)
    ensures ViewMembers(members + [m], caseSensitive) ==
            ViewMembers(members, caseSensitive)[Fold(m.key, caseSensitive) := View(m.value, caseSensitive)]
  {
    if members == [] {
      assert members + [m] == [m];
    } else {
      assert (members + [m])[1..] == members[1..] + [m];
      ViewAppend(members[1..], m, caseSensitive);
    }
  }

  lemma DistinctRemove<T>(members: seq<Member<T>>, i: nat, caseSensitive: bool)
    requires DistinctKeys(members, caseSensitive) && i < |members|
    ensures DistinctKeys(members[..i] + members[i + 1..], caseSensitive)
  {
  }

  lemma DistinctTail<T>(members: seq<Member<T>>, i: nat, caseSensitive: bool)
    requires DistinctKeys(members, caseSensitive) && 0 < i < |members|
    ensures DistinctKeys(members[1..], caseSensitive)
    ensures Fold(members[0].key, caseSensitive) != Fold(members[i].key, caseSensitive)
  {
  }

  lemma UpdateThenRemove<K, V>(m: map<K, V>, k: K, v: V, gone: K)
    requires k != gone
    ensures (m - {gone})[k := v] == m[k := v] - {gone}
  {
  }

  lemma UpdateRemoved<K, V>(m: map<K, V>, k: K, v: V)
    requires k !in m
    ensures m[k := v] - {k} == m
  {
  }

  /** Detaching a member removes its key. */
  lemma {:induction false} ViewRemove(members: seq<Member<Json>>, i: nat, caseSensitive: bool)
    requires DistinctKeys(members, caseSensitive) && i < |members|
    ensures ViewMembers(members[..i] + members[i + 1..], caseSensitive) ==
            ViewMembers(members, caseSensitive) - {Fold(members[i].key, caseSensitive)}
  {
    var first, rest := members[0], members[1..];
    var r := members[..i] + members[i + 1..];
    var k, v := Fold(first.key, caseSensitive), View(first.value, caseSensitive);
    if i == 0 {
      assert r == rest;
      ViewKeys(rest, caseSensitive);
      UpdateRemoved(ViewMembers(rest, caseSensitive), k, v);
    } else {
      DistinctTail(members, i, caseSensitive);
      ViewRemove(rest, i - 1, caseSensitive);
      hide View, DistinctKeys, Fold;
      assert r[1..] == rest[..i - 1] + rest[i..] && r[0] == first;
      assert rest[i - 1] == members[i];
      UpdateThenRemove(ViewMembers(rest, caseSensitive), k, v, Fold(members[i].key, caseSensitive));
    }
  }

  /** Overwriting the value of a member is a map update at its key. */
  lemma {:induction false} ViewReplace(members: seq<Member<Json>>, i: nat, x: Json, caseSensitive: bool)
    requires DistinctKeys(members, caseSensitive) && i < |members|
    ensures var r := members[i := Member(members[i].key, x)];
            && DistinctKeys(r, caseSensitive)
            && ViewMembers(r, caseSensitive) ==
               ViewMembers(members, caseSensitive)[Fold(members[i].key, caseSensitive) := View(x, caseSensitive)]
  {
    hide View;
    var r := members[i := Member(members[i].key, x)];
    assert DistinctKeys(r, caseSensitive);
    if i > 0 {
      ViewReplace(members[1..], i - 1, x, caseSensitive);
      assert r[1..] == members[1..][i - 1 := Member(members[i].key, x)];
    } else {
      assert r[1..] == members[1..];
    }
  }

  // ---- Well-formed trees ----

  /** Every object, at any depth, has keys that stay distinct under folding. */
  predicate Distinct(j: Json, caseSensitive: bool) {
    match j
    case Array(items) => DistinctItems(items, caseSensitive)
    case Object(members) => DistinctKeys(members, caseSensitive) && DistinctValues(members, caseSensitive)
    case _ => true
  }

  predicate DistinctItems(items: seq<Json>, caseSensitive: bool) {
    forall i | 0 <= i < |items| :: Distinct(items[i], caseSensitive)
  }

  predicate DistinctValues(members: seq<Member<Json>>, caseSensitive: bool) {
    forall i | 0 <= i < |members| :: Distinct(members[i].value, caseSensitive)
  }

  /** A tree with distinct keys that stands for a view. */
  ghost predicate Means(j: Json, v: Value, caseSensitive: bool := false) {
    Distinct(j, caseSensitive) && View(j, caseSensitive) == v
  }

  lemma ValuesRemove(members: seq<Member<Json>>, i: nat, caseSensitive: bool)
    requires DistinctValues(members, caseSensitive) && i < |members|
    ensures DistinctValues(members[..i] + members[i + 1..], caseSensitive)
  {
    hide Distinct;
  }

  /** Detaching the member with a key, if there is one. */
  lemma WithoutKey(members: seq<Member<Json>>, key: string, caseSensitive: bool)
    requires Distinct(Object(members), caseSensitive)
    ensures var i, vm := FindMember(members, key, caseSensitive), ViewMembers(members, caseSensitive);
            && (i < |members| <==> Fold(key, caseSensitive) in vm)
            && (i < |members| ==> Means(members[i].value, vm[Fold(key, caseSensitive)], caseSensitive))
            && Means(Object(if i < |members| then members[..i] + members[i + 1..] else members),
                     Obj(vm - {Fold(key, caseSensitive)}), caseSensitive)
  {
    var i, vm := FindMember(members, key, caseSensitive), ViewMembers(members, caseSensitive);
    FindIsLookup(members, key, caseSensitive);
    if i < |members| {
      ViewRemove(members, i, caseSensitive);
      DistinctRemove(members, i, caseSensitive);
      ValuesRemove(members, i, caseSensitive);
      assert Distinct(members[i].value, caseSensitive);
    } else {
      assert vm - {Fold(key, caseSensitive)} == vm;
    }
    hide ViewMembers, DistinctKeys, DistinctValues, Fold;
  }

  lemma DistinctAppend(members: seq<Member<Json>>, m: Member<Json>, caseSensitive: bool)
    requires DistinctKeys(members, caseSensitive)
    requires Fold(m.key, caseSensitive) !in ViewMembers(members, caseSensitive)
    ensures DistinctKeys(members + [m], caseSensitive)
  {
    ViewKeys(members, caseSensitive);
    hide ViewMembers, Fold;
  }

  lemma ValuesAppend(members: seq<Member<Json>>, m: Member<Json>, caseSensitive: bool)
    requires DistinctValues(members, caseSensitive) && Distinct(m.value, caseSensitive)
    ensures DistinctValues(members + [m], caseSensitive)
  {
    hide Distinct;
  }

  /** Appending a member under a key that is not there. */
  lemma WithNewKey(members: seq<Member<Json>>, key: string, x: Json, caseSensitive: bool)
    requires Distinct(Object(members), caseSensitive) && Distinct(x, caseSensitive)
    requires Fold(key, caseSensitive) !in ViewMembers(members, caseSensitive)
    ensures Means(Object(members + [Member(key, x)]),
                  Obj(ViewMembers(members, caseSensitive)[Fold(key, caseSensitive) := View(x, caseSensitive)]),
                  caseSensitive)
  {
    ViewAppend(members, Member(key, x), caseSensitive);
    DistinctAppend(members, Member(key, x), caseSensitive);
    ValuesAppend(members, Member(key, x), caseSensitive);
    hide ViewMembers, DistinctKeys, DistinctValues, Fold;
  }

  lemma PutBack(m: map<string, Value>, k: string, v: Value)
    ensures (m - {k})[k := v] == m[k := v]
  {
  }

  /** Detaching the member with a key, if there is one, and appending another. */
  lemma WithMember(members: seq<Member<Json>>, key: string, x: Json, caseSensitive: bool)
    requires Distinct(Object(members), caseSensitive) && Distinct(x, caseSensitive)
    ensures var i := FindMember(members, key, caseSensitive);
            var rest := if i < |members| then members[..i] + members[i + 1..] else members;
            Means(Object(rest + [Member(key, x)]),
                  Obj(ViewMembers(members, caseSensitive)[Fold(key, caseSensitive) := View(x, caseSensitive)]),
                  caseSensitive)
  {
    var i := FindMember(members, key, caseSensitive);
    var rest := if i < |members| then members[..i] + members[i + 1..] else members;
    WithoutKey(members, key, caseSensitive);
    WithNewKey(rest, key, x, caseSensitive);
    hide FindMember, ViewMembers, Fold, Distinct;
    PutBack(ViewMembers(members, caseSensitive), Fold(key, caseSensitive), View(x, caseSensitive));
  }

  /** No raw node: `compare_json` and the patch generator take any two of them for equal. */
  predicate RawFree(j: Json) {
    match j
    case Raw(_) => false
    case Array(items) => RawFreeItems(items)
    case Object(members) => RawFreeValues(members)
    case _ => true
  }

  predicate RawFreeItems(items: seq<Json>) {
    forall i | 0 <= i < |items| :: RawFree(items[i])
  }

  predicate RawFreeValues(members: seq<Member<Json>>) {
    forall i | 0 <= i < |members| :: RawFree(members[i].value)
  }

  /** No invalid node, and each number's two fields agree. */
  predicate Consistent(j: Json) {
    match j
    case Invalid => false
    case Number(d, n) => n == Saturate(d)
    case Array(items) => ConsistentItems(items)
    case Object(members) => ConsistentValues(members)
    case _ => true
  }

  predicate ConsistentItems(items: seq<Json>) {
    forall i | 0 <= i < |items| :: Consistent(items[i])
  }

  predicate ConsistentValues(members: seq<Member<Json>>) {
    forall i | 0 <= i < |members| :: Consistent(members[i].value)
  }
}
