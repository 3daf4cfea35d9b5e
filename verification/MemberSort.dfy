/**
 What `sort_list` computes, as a function on the sequence of members: it leaves a
 strictly ascending list alone, splits at half the length rounded up, and merges by
 folded key whatever case sensitivity was asked for.
 */
module MemberSort {
  import opened CString
  import opened Json

  predicate Before(a: string, b: string, caseSensitive: bool) {
    CompareStrings(a, b, caseSensitive) < 0
  }

  /** The test for a sorted list: every neighbouring pair is in strict order. */
  predicate Ascending<T>(ms: seq<Member<T>>, caseSensitive: bool) {
    forall i | 0 <= i < |ms| - 1 :: Before(ms[i].key, ms[i + 1].key, caseSensitive)
  }

  /** Of two members that compare equal the second list's comes first. */
  function MergeLists<T>(a: seq<Member<T>>, b: seq<Member<T>>): (r: seq<Member<T>>)
    ensures |r| == |a| + |b|
    ensures a != [] && b != [] ==> r[0] == a[0] || r[0] == b[0]
  {
    if a == [] then b
    else if b == [] then a
    else if Before(a[0].key, b[0].key, false) then [a[0]] + MergeLists(a[1..], b)
    else [b[0]] + MergeLists(a, b[1..])
  }

  function Half(n: nat): nat {
    (n + 1) / 2
  }

  function Sort<T>(ms: seq<Member<T>>, caseSensitive: bool): (r: seq<Member<T>>)
    ensures |r| == |ms|
    decreases |ms|
  {
    if |ms| <= 1 || Ascending(ms, caseSensitive) then ms
    else
      var mid := Half(|ms|);
      MergeLists(Sort(ms[..mid], caseSensitive), Sort(ms[mid..], caseSensitive))
  }

  lemma {:induction false} MergePermutes<T>(a: seq<Member<T>>, b: seq<Member<T>>)
    ensures multiset(MergeLists(a, b)) == multiset(a) + multiset(b)
  {
    if a != [] && b != [] {
      assert a == [a[0]] + a[1..] && b == [b[0]] + b[1..];
      if Before(a[0].key, b[0].key, false) {
        MergePermutes(a[1..], b);
      } else {
        MergePermutes(a, b[1..]);
      }
    }
  }

  lemma MultisetSplit<T>(s: seq<T>, i: nat)
    requires i <= |s|
    ensures multiset(s[..i]) + multiset(s[i..]) == multiset(s)
  {
    assert s == s[..i] + s[i..];
  }

  /** Sorting never adds, drops or changes a member, whatever the case sensitivity. */
  lemma {:induction false} SortPermutes<T>(ms: seq<Member<T>>, caseSensitive: bool)
    ensures multiset(Sort(ms, caseSensitive)) == multiset(ms)
    decreases |ms|
  {
    hide MergeLists, Before, Ascending;
    if Sort(ms, caseSensitive) != ms {
      var mid := Half(|ms|);
      SortPermutes(ms[..mid], caseSensitive);
      SortPermutes(ms[mid..], caseSensitive);
      MergePermutes(Sort(ms[..mid], caseSensitive), Sort(ms[mid..], caseSensitive));
      MultisetSplit(ms, mid);
    }
  }

  /** Non-decreasing by lower-cased key. */
  predicate SortedByLower<T>(ms: seq<Member<T>>) {
    forall i, k | 0 <= i < k < |ms| :: CompareStrings(ms[i].key, ms[k].key, false) <= 0
  }

  lemma {:induction false} AscendingIsSorted<T>(ms: seq<Member<T>>)
    requires Ascending(ms, false)
    ensures SortedByLower(ms)
  {
    if |ms| > 1 {
      var rest := ms[1..];
      assert Ascending(rest, false) by {
        forall i | 0 <= i < |rest| - 1 ensures Before(rest[i].key, rest[i + 1].key, false) {
          assert Before(ms[i + 1].key, ms[i + 1 + 1].key, false);
        }
      }
      AscendingIsSorted(rest);
      forall i, k | 0 <= i < k < |ms| ensures CompareStrings(ms[i].key, ms[k].key, false) <= 0 {
        if i > 0 {
          assert ms[i] == rest[i - 1] && ms[k] == rest[k - 1];
        } else if k > 1 {
          assert Before(ms[0].key, ms[0 + 1].key, false);
          assert ms[1] == rest[0] && ms[k] == rest[k - 1];
          CmpTransitive(Lower(ms[0].key), Lower(ms[1].key), Lower(ms[k].key));
        } else {
          assert Before(ms[0].key, ms[0 + 1].key, false);
        }
      }
    }
  }

  /** A lower bound of both lists is a lower bound of their merge. */
  lemma {:induction false} MergeBounded<T>(a: seq<Member<T>>, b: seq<Member<T>>, key: string)
    requires forall i | 0 <= i < |a| :: CompareStrings(key, a[i].key, false) <= 0
    requires forall i | 0 <= i < |b| :: CompareStrings(key, b[i].key, false) <= 0
    ensures forall i | 0 <= i < |MergeLists(a, b)| :: CompareStrings(key, MergeLists(a, b)[i].key, false) <= 0
  {
    if a != [] && b != [] {
      if Before(a[0].key, b[0].key, false) {
        MergeBounded(a[1..], b, key);
      } else {
        MergeBounded(a, b[1..], key);
      }
    }
  }

  lemma {:induction false} MergeSorted<T>(a: seq<Member<T>>, b: seq<Member<T>>)
    requires SortedByLower(a) && SortedByLower(b)
    ensures SortedByLower(MergeLists(a, b))
  {
    if a != [] && b != [] {
      var x, y := Lower(a[0].key), Lower(b[0].key);
      if Before(a[0].key, b[0].key, false) {
        MergeSorted(a[1..], b);
        forall i | 0 <= i < |b| ensures CompareStrings(a[0].key, b[i].key, false) <= 0 {
          if i > 0 { CmpTransitive(x, y, Lower(b[i].key)); }
        }
        MergeBounded(a[1..], b, a[0].key);
        PrependSorted(a[0], MergeLists(a[1..], b));
      } else {
        CmpOpposite(x, y);
        MergeSorted(a, b[1..]);
        forall i | 0 <= i < |a| ensures CompareStrings(b[0].key, a[i].key, false) <= 0 {
          CmpOpposite(y, x);
          if i > 0 { CmpTransitive(y, x, Lower(a[i].key)); }
        }
        MergeBounded(a, b[1..], b[0].key);
        PrependSorted(b[0], MergeLists(a, b[1..]));
      }
    }
  }

  lemma PrependSorted<T>(m: Member<T>, ms: seq<Member<T>>)
    requires SortedByLower(ms)
    requires forall i | 0 <= i < |ms| :: CompareStrings(m.key, ms[i].key, false) <= 0
    ensures SortedByLower([m] + ms)
  {
    var r := [m] + ms;
    forall i, k | 0 <= i < k < |r| ensures CompareStrings(r[i].key, r[k].key, false) <= 0 {
      assert r[k] == ms[k - 1];
      if i > 0 { assert r[i] == ms[i - 1]; }
    }
  }

  /** With case folding the result is in non-decreasing order of folded keys. */
  lemma {:induction false} SortSorts<T>(ms: seq<Member<T>>)
    ensures SortedByLower(Sort(ms, false))
    decreases |ms|
  {
    if |ms| <= 1 {
    } else if Ascending(ms, false) {
      AscendingIsSorted(ms);
    } else {
      var mid := Half(|ms|);
      SortSorts(ms[..mid]);
      SortSorts(ms[mid..]);
      MergeSorted(Sort(ms[..mid], false), Sort(ms[mid..], false));
    }
  }

  // ---- Which member comes first ----

  /** The members with their positions for values. */
  function Tagged<T>(ms: seq<Member<T>>): (r: seq<Member<nat>>)
    ensures |r| == |ms|
  {
    seq(|ms|, i requires 0 <= i < |ms| => Member(ms[i].key, i))
  }

  /** The member that sorting puts first is the one that was first before, and not only equal to it. */
  predicate FirstStays<T>(ms: seq<Member<T>>, caseSensitive: bool) {
    Leader(ms, caseSensitive) == 0
  }

  /** Where a tag is in a list of tags. */
  function TagAt(tags: seq<Member<nat>>, i: nat): nat {
    if tags == [] || tags[0].value == i then 0 else 1 + TagAt(tags[1..], i)
  }

  /** The position to which sorting moves the member at position `i`. */
  function Landing<T>(ms: seq<Member<T>>, i: nat, caseSensitive: bool): nat {
    TagAt(Sort(Tagged(ms), caseSensitive), i)
  }

  /** The position from which sorting brings a member to the front. */
  function Leader<T>(ms: seq<Member<T>>, caseSensitive: bool): nat {
    if ms == [] then 0 else Sort(Tagged(ms), caseSensitive)[0].value
  }

  /** The tags say where in `all` the members come from. */
  ghost predicate Follows<T>(ms: seq<Member<T>>, tags: seq<Member<nat>>, all: seq<Member<T>>) {
    |ms| == |tags| &&
    forall i | 0 <= i < |ms| :: tags[i].key == ms[i].key && tags[i].value < |all| && ms[i] == all[tags[i].value]
  }

  lemma {:induction false} MergeFollows<T>(
    a: seq<Member<T>>, s: seq<Member<nat>>, b: seq<Member<T>>, t: seq<Member<nat>>, all: seq<Member<T>>)
    requires Follows(a, s, all) && Follows(b, t, all)
    ensures Follows(MergeLists(a, b), MergeLists(s, t), all)
  {
    if a != [] && b != [] {
      hide Before;
      if Before(a[0].key, b[0].key, false) {
        MergeFollows(a[1..], s[1..], b, t, all);
        PrependFollows(a[0], s[0], MergeLists(a[1..], b), MergeLists(s[1..], t), all);
      } else {
        MergeFollows(a, s, b[1..], t[1..], all);
        PrependFollows(b[0], t[0], MergeLists(a, b[1..]), MergeLists(s, t[1..]), all);
      }
      hide Follows;
    }
  }

  lemma PrependFollows<T>(m: Member<T>, tag: Member<nat>, ms: seq<Member<T>>, tags: seq<Member<nat>>, all: seq<Member<T>>)
    requires Follows(ms, tags, all) && tag.key == m.key && tag.value < |all| && m == all[tag.value]
    ensures Follows([m] + ms, [tag] + tags, all)
  {
  }

  /** Sorting looks at keys only: whatever the values, members move as their tags do. */
  lemma {:induction false} SortFollows<T>(
    ms: seq<Member<T>>, tags: seq<Member<nat>>, all: seq<Member<T>>, caseSensitive: bool)
    requires Follows(ms, tags, all)
    ensures Follows(Sort(ms, caseSensitive), Sort(tags, caseSensitive), all)
    decreases |ms|
  {
    if |ms| > 1 && !Ascending(ms, caseSensitive) {
      var mid := Half(|ms|);
      SortFollows(ms[..mid], tags[..mid], all, caseSensitive);
      SortFollows(ms[mid..], tags[mid..], all, caseSensitive);
      MergeFollows(Sort(ms[..mid], caseSensitive), Sort(tags[..mid], caseSensitive),
                   Sort(ms[mid..], caseSensitive), Sort(tags[mid..], caseSensitive), all);
    }
  }

  lemma {:induction false} TagFound(tags: seq<Member<nat>>, i: nat, k: nat)
    requires k < |tags| && tags[k].value == i
    ensures TagAt(tags, i) <= k && tags[TagAt(tags, i)].value == i
  {
    if tags[0].value != i { TagFound(tags[1..], i, k - 1); }
  }

  /** Every member lies where its landing is, and the first one comes from where the leader is. */
  lemma MembersLand<T>(ms: seq<Member<T>>, i: nat, caseSensitive: bool)
    requires i < |ms|
    ensures Landing(ms, i, caseSensitive) < |ms| && Sort(ms, caseSensitive)[Landing(ms, i, caseSensitive)] == ms[i]
    ensures Leader(ms, caseSensitive) < |ms| && Sort(ms, caseSensitive)[0] == ms[Leader(ms, caseSensitive)]
  {
    var tags := Sort(Tagged(ms), caseSensitive);
    SortPermutes(Tagged(ms), caseSensitive);
    SortFollows(ms, Tagged(ms), ms, caseSensitive);
    assert Tagged(ms)[i] in multiset(tags);
    hide Sort;
    var k :| 0 <= k < |tags| && tags[k] == Tagged(ms)[i];
    TagFound(tags, i, k);
  }

  /** With distinct keys the first key tells. */
  lemma FirstStaysByKey<T>(ms: seq<Member<T>>, caseSensitive: bool)
    requires DistinctKeys(ms, false) && ms != []
    ensures FirstStays(ms, caseSensitive) <==> Sort(ms, caseSensitive)[0].key == ms[0].key
  {
    SortFollows(ms, Tagged(ms), ms, caseSensitive);
  }

  // ---- When the case-sensitive sort sorts ----

  /** Byte order and folded order agree on two keys: the lesser one is lesser in both. */
  predicate Agree(a: string, b: string) {
    Cmp(a, b) < 0 ==> Cmp(Lower(a), Lower(b)) < 0
  }

  ghost predicate AgreeOn(keys: set<string>) {
    forall a, b | a in keys && b in keys :: Agree(a, b)
  }

  predicate KeysIn<T>(ms: seq<Member<T>>, keys: set<string>) {
    forall i | 0 <= i < |ms| :: ms[i].key in keys
  }

  /** Non-decreasing by key, byte by byte. */
  predicate SortedByBytes<T>(ms: seq<Member<T>>) {
    forall i, k | 0 <= i < k < |ms| :: Cmp(ms[i].key, ms[k].key) <= 0
  }

  /** On such keys both modes compare alike. */
  lemma AgreeBefore(a: string, b: string)
    requires Agree(a, b) && Agree(b, a)
    ensures Before(a, b, true) <==> Before(a, b, false)
  {
    CmpZero(a, b);
    CmpOpposite(b, a);
    CmpOpposite(Lower(b), Lower(a));
    CmpZero(Lower(a), Lower(b));
  }

  lemma {:induction false} SortAgrees<T>(ms: seq<Member<T>>, keys: set<string>)
    requires KeysIn(ms, keys) && AgreeOn(keys)
    ensures Sort(ms, true) == Sort(ms, false)
    decreases |ms|
  {
    forall i | 0 <= i < |ms| - 1
      ensures Before(ms[i].key, ms[i + 1].key, true) <==> Before(ms[i].key, ms[i + 1].key, false)
    {
      AgreeBefore(ms[i].key, ms[i + 1].key);
    }
    if |ms| > 1 && !Ascending(ms, true) {
      var mid := Half(|ms|);
      SortAgrees(ms[..mid], keys);
      SortAgrees(ms[mid..], keys);
    }
  }

  lemma SortAgreesSorts<T>(ms: seq<Member<T>>, keys: set<string>)
    requires KeysIn(ms, keys) && AgreeOn(keys)
    ensures SortedByBytes(Sort(ms, true))
  {
    SortAgrees(ms, keys);
    SortSorts(ms);
    SortPermutes(ms, false);
    var r := Sort(ms, false);
    forall i, k | 0 <= i < k < |r| ensures Cmp(r[i].key, r[k].key) <= 0 {
      assert r[i] in multiset(ms) && r[k] in multiset(ms);
      assert CompareStrings(r[i].key, r[k].key, false) <= 0;
      CmpOpposite(r[k].key, r[i].key);
      CmpOpposite(Lower(r[k].key), Lower(r[i].key));
      assert Agree(r[k].key, r[i].key);
    }
  }

  /** Two keys in byte order that folding turns around or makes equal, the lesser one twice. */
  lemma DisagreementUnsorts<T>(a: string, b: string, x: T)
    requires !Agree(a, b)
    ensures var m, n := Member(a, x), Member(b, x);
            !SortedByBytes(Sort([n, m], true)) || !SortedByBytes(Sort([m, m, n], true))
  {
    var m, n := Member(a, x), Member(b, x);
    CmpOpposite(a, b);
    CmpZero(a, a);
    CmpZero(Lower(a), Lower(a));
    if Before(b, a, false) {
      assert !Before([n, m][0].key, [n, m][0 + 1].key, true);
      SortTwo(n, m);
      assert Sort([n, m], true) == [n, m];
      assert Cmp([n, m][0].key, [n, m][1].key) > 0;
    } else {
      CmpOpposite(Lower(b), Lower(a));
      CmpZero(Lower(a), Lower(b));
      CmpZero(Lower(b), Lower(a));
      var ms := [m, m, n];
      assert !Before(ms[0].key, ms[0 + 1].key, true);
      assert ms[..2] == [m, m] && ms[2..] == [n];
      assert !Before([m, m][0].key, [m, m][0 + 1].key, true);
      SortTwo(m, m);
      assert Sort(ms, true) == MergeLists([m, m], [n]);
      assert MergeLists([m, m], [n]) == [n] + MergeLists([m, m], []);
      assert Cmp(Sort(ms, true)[0].key, Sort(ms, true)[1].key) > 0;
    }
  }

  lemma SortTwo<T>(m: Member<T>, n: Member<T>)
    requires !Before(m.key, n.key, true)
    ensures Sort([m, n], true) == if Before(m.key, n.key, false) then [m, n] else [n, m]
  {
    var ms := [m, n];
    assert !Before(ms[0].key, ms[0 + 1].key, true);
    assert ms[..1] == [m] && ms[1..] == [n] && Half(2) == 1;
    assert Sort([m], true) == [m] && Sort([n], true) == [n];
    assert MergeLists([m][1..], [n]) == [n] && MergeLists([m], [n][1..]) == [m];
  }

  /**
   The case-sensitive sort merges by folded key.  It sorts every list over a set of keys if
   and only if byte order and folded order agree on every two of them.
   */
  lemma CaseSensitiveSortRight(keys: set<string>)
    ensures (forall ms: seq<Member<Json>> | KeysIn(ms, keys) :: SortedByBytes(Sort(ms, true))) <==> AgreeOn(keys)
  {
    if AgreeOn(keys) {
      forall ms: seq<Member<Json>> | KeysIn(ms, keys) ensures SortedByBytes(Sort(ms, true)) {
        SortAgreesSorts(ms, keys);
      }
    } else {
      var a, b :| a in keys && b in keys && !Agree(a, b);
      DisagreementUnsorts(a, b, Null);
      var m, n := Member(a, Null), Member(b, Null);
      assert KeysIn([n, m], keys) && KeysIn([m, m, n], keys);
    }
  }

  lemma CountTwice<T>(s: seq<T>, i: nat, k: nat)
    requires i < k < |s| && s[i] == s[k]
    ensures multiset(s)[s[i]] >= 2
  {
    assert s == s[..k] + s[k..];
    assert s[..k][i] == s[i] && s[k..][0] == s[i];
    assert s[i] in multiset(s[..k]) && s[i] in multiset(s[k..]);
  }

  lemma CountOnce<T>(s: seq<T>, i: nat)
    requires i < |s| && forall k | 0 <= k < |s| && k != i :: s[k] != s[i]
    ensures multiset(s)[s[i]] == 1
  {
    var before, after := s[..i], s[i + 1..];
    assert s == before + [s[i]] + after;
    assert s[i] !in before && s[i] !in after;
    assert s[i] !in multiset(before) && s[i] !in multiset(after);
  }

  /** Reordering keeps keys distinct. */
  lemma PermutationDistinct<T>(a: seq<Member<T>>, b: seq<Member<T>>, caseSensitive: bool)
    requires DistinctKeys(a, caseSensitive) && multiset(a) == multiset(b)
    ensures DistinctKeys(b, caseSensitive)
  {
    forall i, k | 0 <= i < k < |b|
      ensures Fold(b[i].key, caseSensitive) != Fold(b[k].key, caseSensitive)
    {
      if Fold(b[i].key, caseSensitive) == Fold(b[k].key, caseSensitive) {
        assert b[i] in multiset(a) && b[k] in multiset(a);
        var p :| 0 <= p < |a| && a[p] == b[i];
        var q :| 0 <= q < |a| && a[q] == b[k];
        assert p == q;
        CountTwice(b, i, k);
        CountOnce(a, p);
        assert false;
      }
    }
  }

  /** Sorting does not change what the object means, in either mode. */
  lemma SortKeepsView(ms: seq<Member<Json>>, sorting: bool, caseSensitive: bool)
    requires DistinctKeys(ms, caseSensitive)
    ensures DistinctKeys(Sort(ms, sorting), caseSensitive)
    ensures ViewMembers(Sort(ms, sorting), caseSensitive) == ViewMembers(ms, caseSensitive)
  {
    SortPermutes(ms, sorting);
    PermutationDistinct(ms, Sort(ms, sorting), caseSensitive);
    ViewOfPermutation(Sort(ms, sorting), ms, caseSensitive);
  }

  /** With distinct keys the folding sort is strictly ascending. */
  lemma SortStrict<T>(ms: seq<Member<T>>)
    requires DistinctKeys(ms, false)
    ensures forall i, k | 0 <= i < k < |Sort(ms, false)| ::
      Before(Sort(ms, false)[i].key, Sort(ms, false)[k].key, false)
  {
    var r := Sort(ms, false);
    SortPermutes(ms, false);
    PermutationDistinct(ms, r, false);
    SortSorts(ms);
    forall i, k | 0 <= i < k < |r| ensures Before(r[i].key, r[k].key, false) {
      CmpZero(Lower(r[i].key), Lower(r[k].key));
    }
  }
}
