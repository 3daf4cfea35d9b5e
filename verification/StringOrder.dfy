/** The order of `strcmp`, letters ignoring case, and the loop that compares them. */
module StringOrder {
  import opened CString

  /** Lower case, letter by letter. */
  lemma LowerTable(s: string, i: nat)
    requires i < |s|
    ensures Lower(s)[i] == if 'A' <= s[i] <= 'Z' then "abcdefghijklmnopqrstuvwxyz"[s[i] as int - 'A' as int] else s[i]
  {
    var letters := "abcdefghijklmnopqrstuvwxyz";
    if 'A' <= s[i] <= 'Z' {
      var k := s[i] as int - 'A' as int;
      assert letters[k] as int == 'a' as int + k;
    }
  }

  /** One string comes before another if it is the front of it, or has the lesser byte where they part. */
  ghost predicate ByteOrder(a: string, b: string) {
    (a < b) || exists i: nat :: i < |a| && i < |b| && a[..i] == b[..i] && a[i] < b[i]
  }

  /** How far two strings are the same. */
  lemma {:induction false} CommonFront(a: string, b: string) returns (i: nat)
    ensures i <= |a| && i <= |b| && a[..i] == b[..i] && (i == |a| || i == |b| || a[i] != b[i])
  {
    if a == "" || b == "" || a[0] != b[0] {
      i := 0;
    } else {
      i := CommonFront(a[1..], b[1..]);
      assert a[..i + 1] == [a[0]] + a[1..][..i] && b[..i + 1] == [b[0]] + b[1..][..i];
      i := i + 1;
    }
  }

  lemma SameInFront(a: string, b: string, i: nat, j: nat)
    requires j < i <= |a| && i <= |b| && a[..i] == b[..i]
    ensures a[j] == b[j]
  {
    assert a[..i][j] == b[..i][j];
  }

  lemma NotInFront(a: string, b: string, i: nat)
    requires i < |a| && i < |b| && a[i] != b[i]
    ensures !(a <= b)
  {
  }

  lemma CmpIsByteOrder(a: string, b: string)
    ensures Cmp(a, b) < 0 <==> ByteOrder(a, b)
  {
    var i := CommonFront(a, b);
    CmpBehind(a, b, i);
    forall j: nat | j < |a| && j < |b| && a[..j] == b[..j] && a[j] < b[j] ensures j == i && i < |a| && i < |b| {
      if j < i { SameInFront(a, b, i, j); }
      if i < j { SameInFront(a, b, j, i); }
    }
    if i == |a| {
      assert a == b[..i] && a[i..] == "";
    } else if i == |b| {
      assert b[i..] == "";
    } else {
      assert a[i..][0] == a[i] && b[i..][0] == b[i];
      NotInFront(a, b, i);
    }
  }

  /** What is left to compare behind a common front. */
  lemma {:induction false} CmpBehind(a: string, b: string, i: nat)
    requires i <= |a| && i <= |b| && a[..i] == b[..i]
    ensures Cmp(a, b) == Cmp(a[i..], b[i..])
  {
    if i > 0 {
      assert a[..i][0] == b[..i][0] && a[1..][..i - 1] == a[..i][1..] && b[1..][..i - 1] == b[..i][1..];
      CmpBehind(a[1..], b[1..], i - 1);
      assert a[1..][i - 1..] == a[i..] && b[1..][i - 1..] == b[i..];
    }
  }

  /** The loop of `compare_strings` over two C strings with their terminators, ignoring case. */
  method CompareLoop(a: string, b: string) returns (difference: int)
    requires NulFree(a) && NulFree(b)
    ensures difference < 0 <==> CompareStrings(a, b, false) < 0
    ensures difference == 0 <==> CompareStrings(a, b, false) == 0
  {
    var x, y := a + [NUL], b + [NUL];
    var i := 0;
    while ToLower(x[i]) == ToLower(y[i])
      invariant 0 <= i <= |a| && i <= |b|
      invariant Lower(a)[..i] == Lower(b)[..i]
      decreases |a| - i
    {
      if x[i] == NUL {
        EndTogether(a, b, i);
        return 0;
      }
      GoOn(a, b, i);
      i := i + 1;
    }
    difference := ToLower(x[i]) as int - ToLower(y[i]) as int;
    PartHere(a, b, i);
  }

  lemma Bytes(a: string, i: nat)
    requires NulFree(a) && i <= |a|
    ensures var x := a + [NUL]; (x[i] == NUL <==> i == |a|) && (i < |a| ==> x[i] == a[i] && Lower(a)[i] == ToLower(x[i]) != NUL)
    ensures ToLower(NUL) == NUL
  {
    if i < |a| { assert a[i] in a; }
  }

  lemma GoOn(a: string, b: string, i: nat)
    requires NulFree(a) && NulFree(b) && i <= |a| && i <= |b| && Lower(a)[..i] == Lower(b)[..i]
    requires ToLower((a + [NUL])[i]) == ToLower((b + [NUL])[i]) && (a + [NUL])[i] != NUL
    ensures i < |a| && i < |b| && Lower(a)[..i + 1] == Lower(b)[..i + 1]
  {
    Bytes(a, i);
    Bytes(b, i);
    hide Lower, ToLower;
    assert Lower(a)[..i + 1] == Lower(a)[..i] + [Lower(a)[i]];
    assert Lower(b)[..i + 1] == Lower(b)[..i] + [Lower(b)[i]];
  }

  lemma EndTogether(a: string, b: string, i: nat)
    requires NulFree(a) && NulFree(b) && i <= |a| && i <= |b| && Lower(a)[..i] == Lower(b)[..i]
    requires ToLower((a + [NUL])[i]) == ToLower((b + [NUL])[i]) && (a + [NUL])[i] == NUL
    ensures CompareStrings(a, b, false) == 0
  {
    Bytes(a, i);
    Bytes(b, i);
    CmpBehind(Lower(a), Lower(b), i);
    hide Lower, ToLower;
  }

  lemma PartHere(a: string, b: string, i: nat)
    requires NulFree(a) && NulFree(b) && i <= |a| && i <= |b| && Lower(a)[..i] == Lower(b)[..i]
    requires ToLower((a + [NUL])[i]) != ToLower((b + [NUL])[i])
    ensures var d := ToLower((a + [NUL])[i]) as int - ToLower((b + [NUL])[i]) as int;
            (d < 0 <==> CompareStrings(a, b, false) < 0) && d != 0 && CompareStrings(a, b, false) != 0
  {
    Bytes(a, i);
    Bytes(b, i);
    CmpBehind(Lower(a), Lower(b), i);
    hide Lower, ToLower;
  }
}
