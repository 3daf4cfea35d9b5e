/**
 What becomes of members whose keys are equal ignoring case: sorting turns their order round.
 With that, the sorted list is determined by what it is, and not by how it is computed.
 */
module SortTies {
  import opened CString
  import opened Json
  import opened MemberSort

  /** The members with a key, in their order. */
  function OfKey<T>(ms: seq<Member<T>>, key: string): seq<Member<T>> {
    if ms == [] then []
    else (if Lower(ms[0].key) == Lower(key) then [ms[0]] else []) + OfKey(ms[1..], key)
  }

  function Reversed<T>(s: seq<T>): seq<T> {
    if s == [] then [] else Reversed(s[1..]) + [s[0]]
  }

  lemma {:induction false} ReversedJoin<T>(a: seq<T>, b: seq<T>)
    ensures Reversed(a + b) == Reversed(b) + Reversed(a)
  {
    if a == [] {
      assert a + b == b;
    } else {
      assert (a + b)[1..] == a[1..] + b;
      ReversedJoin(a[1..], b);
    }
  }

  lemma {:induction false} OfKeyJoin<T>(a: seq<Member<T>>, b: seq<Member<T>>, key: string)
    ensures OfKey(a + b, key) == OfKey(a, key) + OfKey(b, key)
  {
    hide Lower;
    if a == [] {
      assert a + b == b;
    } else {
      assert (a + b)[1..] == a[1..] + b;
      OfKeyJoin(a[1..], b, key);
    }
  }

  /** No member of a list has the key, if all of them come behind it. */
  lemma {:induction false} NoneBehind<T>(ms: seq<Member<T>>, key: string)
    requires forall i | 0 <= i < |ms| :: CompareStrings(key, ms[i].key, false) < 0
    ensures OfKey(ms, key) == []
  {
    if ms != [] {
      CmpZero(Lower(key), Lower(ms[0].key));
      NoneBehind(ms[1..], key);
    }
  }

  lemma AllBehind<T>(a: Member<T>, b: seq<Member<T>>)
    requires b != [] && SortedByLower(b) && Before(a.key, b[0].key, false)
    ensures forall i | 0 <= i < |b| :: CompareStrings(a.key, b[i].key, false) < 0
  {
    forall i | 0 <= i < |b| ensures CompareStrings(a.key, b[i].key, false) < 0 {
      if i > 0 { CmpTransitive(Lower(a.key), Lower(b[0].key), Lower(b[i].key)); }
    }
  }

  lemma SortedTail<T>(ms: seq<Member<T>>)
    requires ms != [] && SortedByLower(ms)
    ensures SortedByLower(ms[1..])
  {
  }

  lemma SameKey<T>(ms: seq<Member<T>>, j: string, k: string)
    requires Lower(j) == Lower(k)
    ensures OfKey(ms, j) == OfKey(ms, k)
  {
    hide Lower;
  }

  lemma MergeStep<T>(a: seq<Member<T>>, b: seq<Member<T>>)
    requires a != [] && b != []
    ensures MergeLists(a, b) == if Before(a[0].key, b[0].key, false) then [a[0]] + MergeLists(a[1..], b)
                                else [b[0]] + MergeLists(a, b[1..])
  {
    hide Before;
  }

  lemma ConsOfKey<T>(m: Member<T>, ms: seq<Member<T>>, key: string)
    ensures OfKey([m] + ms, key) == (if Lower(m.key) == Lower(key) then [m] else []) + OfKey(ms, key)
  {
    hide Lower;
    assert ([m] + ms)[1..] == ms;
  }

  lemma MergeNothing<T>(a: seq<Member<T>>, b: seq<Member<T>>, key: string)
    requires a == [] || b == []
    ensures OfKey(MergeLists(a, b), key) == OfKey(b, key) + OfKey(a, key)
  {
    hide Lower;
  }

  /** Merging puts those of the second list first. */
  lemma {:induction false} MergeTies<T>(a: seq<Member<T>>, b: seq<Member<T>>, key: string)
    requires SortedByLower(a) && SortedByLower(b)
    ensures OfKey(MergeLists(a, b), key) == OfKey(b, key) + OfKey(a, key)
    decreases |a| + |b|
  {
    hide *;
    if a == [] || b == [] {
      MergeNothing(a, b, key);
    } else {
      MergeStep(a, b);
      if Before(a[0].key, b[0].key, false) {
        SortedTail(a);
        MergeTies(a[1..], b, key);
        assert [a[0]] + a[1..] == a;
        ConsOfKey(a[0], a[1..], key);
        ConsOfKey(a[0], MergeLists(a[1..], b), key);
        if Lower(a[0].key) == Lower(key) {
          AllBehind(a[0], b);
          NoneBehind(b, a[0].key);
          SameKey(b, a[0].key, key);
        }
      } else {
        SortedTail(b);
        MergeTies(a, b[1..], key);
        assert [b[0]] + b[1..] == b;
        ConsOfKey(b[0], b[1..], key);
        ConsOfKey(b[0], MergeLists(a, b[1..]), key);
      }
    }
  }

  lemma {:induction false} AscendingTies<T>(ms: seq<Member<T>>, key: string)
    requires Ascending(ms, false)
    ensures |OfKey(ms, key)| <= 1
  {
    if |ms| > 1 {
      var rest := ms[1..];
      assert Ascending(rest, false) by {
        forall i | 0 <= i < |rest| - 1 ensures Before(rest[i].key, rest[i + 1].key, false) {
          assert Before(ms[i + 1].key, ms[i + 1 + 1].key, false);
        }
      }
      AscendingIsSorted(rest);
      AscendingTies(rest, key);
      assert Before(ms[0].key, ms[0 + 1].key, false);
      AllBehind(ms[0], rest);
      NoneBehind(rest, ms[0].key);
      if Lower(ms[0].key) == Lower(key) { SameKey(rest, ms[0].key, key); }
    }
  }

  lemma ShortList<T>(ms: seq<Member<T>>, key: string)
    requires |ms| <= 1
    ensures |OfKey(ms, key)| <= 1
  {
    hide Lower;
    if ms != [] { assert OfKey(ms[1..], key) == []; }
  }

  lemma ShortReversed<T>(s: seq<T>)
    requires |s| <= 1
    ensures Reversed(s) == s
  {
  }

  /** Members with one key come out in reverse. */
  lemma {:induction false} SortReversesTies<T>(ms: seq<Member<T>>, key: string)
    ensures OfKey(Sort(ms, false), key) == Reversed(OfKey(ms, key))
    decreases |ms|
  {
    hide Lower, Before, Ascending;
    if |ms| <= 1 || Ascending(ms, false) {
      if |ms| > 1 { AscendingTies(ms, key); }
      if |ms| <= 1 { ShortList(ms, key); }
      ShortReversed(OfKey(ms, key));
    } else {
      var mid := Half(|ms|);
      var a, b := ms[..mid], ms[mid..];
      SortSorts(a);
      SortSorts(b);
      SortReversesTies(a, key);
      SortReversesTies(b, key);
      hide SortedByLower, Sort;
      SortSplit(ms);
      MergeTies(Sort(a, false), Sort(b, false), key);
      OfKeyJoin(a, b, key);
      assert a + b == ms;
      ReversedJoin(OfKey(a, key), OfKey(b, key));
    }
  }

  lemma SortSplit<T>(ms: seq<Member<T>>)
    requires |ms| > 1 && !Ascending(ms, false)
    ensures Sort(ms, false) == MergeLists(Sort(ms[..Half(|ms|)], false), Sort(ms[Half(|ms|)..], false))
  {
  }

  /** Two sorted lists with the same members for every key are the same list. */
  lemma {:induction false} SameList<T>(r: seq<Member<T>>, s: seq<Member<T>>)
    requires SortedByLower(r) && SortedByLower(s) && forall key: string :: OfKey(r, key) == OfKey(s, key)
    ensures r == s
    decreases |r|
  {
    if r == [] {
      if s != [] { FirstHasKey(s); }
    } else {
      assert OfKey(r, r[0].key) == OfKey(s, r[0].key);
      FirstOf(r, s);
      assert OfKey(s, s[0].key) == OfKey(r, s[0].key);
      FirstOf(s, r);
      CmpAntisymmetric(r[0].key, s[0].key);
      SameKey(s, r[0].key, s[0].key);
      assert r[0] == OfKey(r, r[0].key)[0] && s[0] == OfKey(s, s[0].key)[0];
      SortedTail(r);
      SortedTail(s);
      assert r[0] == s[0];
      hide SortedByLower, Lower;
      forall key: string ensures OfKey(r[1..], key) == OfKey(s[1..], key) {
        assert OfKey(r, key) == OfKey(s, key);
        TailOfKey(r, key);
        TailOfKey(s, key);
      }
      SameList(r[1..], s[1..]);
      assert r == [r[0]] + r[1..] && s == [s[0]] + s[1..];
    }
  }

  lemma FirstHasKey<T>(s: seq<Member<T>>)
    requires s != []
    ensures OfKey(s, s[0].key) != []
  {
  }

  lemma TailOfKey<T>(ms: seq<Member<T>>, key: string)
    requires ms != []
    ensures var front := if Lower(ms[0].key) == Lower(key) then [ms[0]] else [];
            OfKey(ms, key) == front + OfKey(ms[1..], key) && OfKey(ms[1..], key) == OfKey(ms, key)[|front|..]
  {
    hide Lower;
  }

  lemma CmpAntisymmetric(a: string, b: string)
    requires CompareStrings(a, b, false) <= 0 && CompareStrings(b, a, false) <= 0
    ensures Lower(a) == Lower(b)
  {
    CmpOpposite(Lower(a), Lower(b));
    CmpZero(Lower(a), Lower(b));
  }

  /** The first key of a sorted list is the least: it is not behind any that occurs. */
  lemma {:induction false} FirstOf<T>(r: seq<Member<T>>, s: seq<Member<T>>)
    requires r != [] && SortedByLower(s) && OfKey(s, r[0].key) != []
    ensures s != [] && CompareStrings(s[0].key, r[0].key, false) <= 0
  {
    var m := OfKey(s, r[0].key)[0];
    Occurs(s, r[0].key);
    var i :| 0 <= i < |s| && Lower(s[i].key) == Lower(r[0].key);
    if i == 0 { CmpZero(Lower(s[0].key), Lower(r[0].key)); }
  }

  lemma {:induction false} Occurs<T>(s: seq<Member<T>>, key: string)
    requires OfKey(s, key) != []
    ensures exists i :: 0 <= i < |s| && Lower(s[i].key) == Lower(key)
  {
    hide Lower;
    if Lower(s[0].key) != Lower(key) {
      Occurs(s[1..], key);
      var i :| 0 <= i < |s[1..]| && Lower(s[1..][i].key) == Lower(key);
      assert s[i + 1] == s[1..][i];
    }
  }

  ghost predicate Ordered<T>(ms: seq<Member<T>>, r: seq<Member<T>>) {
    SortedByLower(r) && forall key: string :: OfKey(r, key) == Reversed(OfKey(ms, key))
  }

  lemma SortOrdered<T>(ms: seq<Member<T>>)
    ensures Ordered(ms, Sort(ms, false))
  {
    SortSorts(ms);
    hide Sort, SortedByLower, OfKey, Reversed;
    forall key: string ensures OfKey(Sort(ms, false), key) == Reversed(OfKey(ms, key)) {
      SortReversesTies(ms, key);
    }
  }

  lemma OneOrder<T>(ms: seq<Member<T>>, r: seq<Member<T>>, s: seq<Member<T>>)
    requires Ordered(ms, r) && Ordered(ms, s)
    ensures r == s
  {
    hide SortedByLower, OfKey, Reversed;
    SameList(r, s);
  }

  /** Sorting ignoring case is exactly this: non-decreasing keys, and equal ones in reverse. */
  lemma SortDetermined<T>(ms: seq<Member<T>>, r: seq<Member<T>>)
    ensures r == Sort(ms, false) <==> Ordered(ms, r)
  {
    hide *;
    SortOrdered(ms);
    if Ordered(ms, r) { OneOrder(ms, r, Sort(ms, false)); }
  }

  /** The case-sensitive sort leaves a list alone that is in strict byte order, whatever the folded order is. */
  lemma ByteOrderStays<T>(ms: seq<Member<T>>)
    requires forall i, k | 0 <= i < k < |ms| :: Cmp(ms[i].key, ms[k].key) < 0
    ensures Sort(ms, true) == ms
  {
    forall i | 0 <= i < |ms| - 1 ensures Before(ms[i].key, ms[i + 1].key, true) {
      assert Cmp(ms[i].key, ms[i + 1].key) < 0;
    }
  }

  /** Any other list is taken apart in the middle, and merged ignoring case. */
  lemma OtherOrderMerges<T>(ms: seq<Member<T>>, i: nat)
    requires i + 1 < |ms| && Cmp(ms[i].key, ms[i + 1].key) >= 0
    ensures var mid := (|ms| + 1) / 2;
            forall key: string ::
              SortedByLower(Sort(ms[..mid], true)) && SortedByLower(Sort(ms[mid..], true)) ==>
                && SortedByLower(Sort(ms, true))
                && OfKey(Sort(ms, true), key) == OfKey(Sort(ms[mid..], true), key) + OfKey(Sort(ms[..mid], true), key)
  {
    assert !Before(ms[i].key, ms[i + 1].key, true);
    var a, b := Sort(ms[..Half(|ms|)], true), Sort(ms[Half(|ms|)..], true);
    assert Sort(ms, true) == MergeLists(a, b);
    if SortedByLower(a) && SortedByLower(b) {
      hide Sort, SortedByLower, OfKey;
      MergeSorted(a, b);
      forall key: string ensures OfKey(MergeLists(a, b), key) == OfKey(b, key) + OfKey(a, key) {
        MergeTies(a, b, key);
      }
    }
  }
}
