/**
 `sort_list` on the nodes in memory: the lists are split by cutting one `next`, sorted, and
 merged by relinking, proved to order the nodes exactly as `MemberSort.Sort` does.
 */
module ListSort {
  import opened Json
  import opened MemberSort
  import opened NodeList

  /** The nodes of a list with their keys, as the members that `Sort` orders. */
  ghost function Keyed(nodes: seq<Node>): (r: seq<Member<Node>>)
    ensures |r| == |nodes|
  {
    seq(|nodes|, i requires 0 <= i < |nodes| => Member(nodes[i].key, nodes[i]))
  }

  lemma KeyedSlices(nodes: seq<Node>, i: nat)
    requires i <= |nodes|
    ensures Keyed(nodes[..i]) == Keyed(nodes)[..i] && Keyed(nodes[i..]) == Keyed(nodes)[i..]
  {
  }

  lemma KeyedJoin(a: seq<Node>, b: seq<Node>)
    ensures Keyed(a + b) == Keyed(a) + Keyed(b)
  {
  }

  // ---- Chains by their bonds ----

  ghost predicate Bond(nodes: seq<Node>, i: nat)
    requires i + 1 < |nodes|
    reads nodes[i], nodes[i + 1]
  {
    nodes[i].next == nodes[i + 1] && nodes[i + 1].prev == nodes[i]
  }

  /** Linked both ways, except that the last node may point anywhere. */
  ghost predicate Bonded(nodes: seq<Node>)
    reads nodes
  {
    Separate(nodes) && forall i | 0 <= i < |nodes| - 1 :: Bond(nodes, i)
  }

  lemma ChainTail(nodes: seq<Node>)
    requires Chain(nodes) && nodes != []
    ensures Chain(nodes[1..]) && nodes[0].next == First(nodes[1..])
  {
    assert Linked(nodes, 0);
    forall i | 0 <= i < |nodes[1..]| ensures Linked(nodes[1..], i) {
      assert Linked(nodes, i + 1);
    }
  }

  /** The chains that the merge works on share no node. */
  ghost predicate Apart(a: seq<Node>, b: seq<Node>) {
    forall i, k | 0 <= i < |a| && 0 <= k < |b| :: a[i] != b[k]
  }

  /** `result_tail->next = smaller; smaller->prev = result_tail;`, or the start of the result. */
  method Attach(ghost done: seq<Node>, tail: Node?, chain: Node, ghost rest: seq<Node>)
    requires Bonded(done) && Chain(rest) && rest != [] && rest[0] == chain && Apart(done, rest)
    requires tail == if done == [] then null else done[|done| - 1]
    modifies if tail == null then {} else {tail, chain}
    ensures Bonded(done + [chain]) && Chain(rest)
    ensures done != [] ==> done[0].prev == old(done[0].prev)
    ensures done == [] ==> chain.prev == old(chain.prev)
  {
    if tail != null {
      tail.next := chain;
      chain.prev := tail;
    }
    ghost var all := done + [chain];
    forall i | 0 <= i < |all| - 1 ensures Bond(all, i) {
      if i < |done| - 1 { assert old(Bond(done, i)); }
    }
    forall i | 0 <= i < |rest| ensures Linked(rest, i) {
      assert old(Linked(rest, i));
    }
  }

  /** One step of the merge, on keys. */
  lemma MergeStep(a: seq<Node>, b: seq<Node>)
    requires a != [] && b != []
    ensures MergeLists(Keyed(a), Keyed(b)) ==
            if Before(a[0].key, b[0].key, false) then Keyed([a[0]]) + MergeLists(Keyed(a[1..]), Keyed(b))
            else Keyed([b[0]]) + MergeLists(Keyed(a), Keyed(b[1..]))
  {
    KeyedSlices(a, 1);
    KeyedSlices(b, 1);
    assert Keyed([a[0]]) == [Keyed(a)[0]] && Keyed([b[0]]) == [Keyed(b)[0]];
    hide Keyed, Before;
  }

  lemma MergeDone(a: seq<Node>, b: seq<Node>)
    requires a == [] || b == []
    ensures MergeLists(Keyed(a), Keyed(b)) == Keyed(a + b)
  { }

  lemma RegroupKeyed(done: seq<Node>, x: Node, rest: seq<Member<Node>>)
    ensures Keyed(done) + (Keyed([x]) + rest) == Keyed(done + [x]) + rest
  { }

  /** The rest of one list behind the result. */
  method AttachRest(ghost done: seq<Node>, tail: Node, chain: Node?, ghost rest: seq<Node>)
    requires Bonded(done) && done != [] && done[|done| - 1] == tail
    requires Chain(rest) && rest != [] && chain == rest[0] && Apart(done, rest)
    modifies tail, chain
    ensures Chain(done + rest) && done[0].prev == old(done[0].prev)
  {
    tail.next := chain;
    chain.prev := tail;
    ghost var all := done + rest;
    forall i | 0 <= i < |all| ensures Linked(all, i) {
      if i < |done| {
        if i > 0 { assert old(Bond(done, i - 1)); }
        if i + 1 < |done| { assert old(Bond(done, i)); }
      } else {
        assert old(Linked(rest, i - |done|));
      }
    }
  }

  /** Everything the merge works on: what is merged, and what is left of both lists. */
  ghost predicate Merging(done: seq<Node>, a: seq<Node>, b: seq<Node>)
    reads done, a, b
  {
    Bonded(done) && Chain(a) && Chain(b) && Apart(done, a) && Apart(done, b) && Apart(a, b)
  }

  /** Moves the first node of `a` behind what is merged. */
  method Take(ghost done: seq<Node>, tail: Node?, node: Node, ghost a: seq<Node>, ghost b: seq<Node>) returns (next: Node?)
    requires Merging(done, a, b) && a != [] && node == a[0]
    requires tail == if done == [] then null else done[|done| - 1]
    modifies if tail == null then {} else {tail, node}
    ensures Merging(done + [node], a[1..], b) && next == First(a[1..])
    ensures done != [] ==> done[0].prev == old(done[0].prev)
    ensures done == [] ==> node.prev == old(node.prev)
  {
    Attach(done, tail, node, a);
    ChainTail(a);
    next := node.next;
    forall i | 0 <= i < |b| ensures Linked(b, i) {
      assert old(Linked(b, i));
    }
  }

  /** One round of the merge: the node with the smaller key, or the second list's if they are equal. */
  method MergeRound(ghost done: seq<Node>, ghost a: seq<Node>, ghost b: seq<Node>, tail: Node?, first: Node, second: Node)
    returns (smaller: Node, newFirst: Node?, newSecond: Node?, ghost newA: seq<Node>, ghost newB: seq<Node>)
    requires Merging(done, a, b) && a != [] && b != [] && first == a[0] && second == b[0]
    requires tail == if done == [] then null else done[|done| - 1]
    modifies if tail == null then {} else {tail, first, second}
    ensures Merging(done + [smaller], newA, newB) && newFirst == First(newA) && newSecond == First(newB)
    ensures (smaller == first && newA == a[1..] && newB == b) || (smaller == second && newA == a && newB == b[1..])
    ensures MergeLists(Keyed(a), Keyed(b)) == Keyed([smaller]) + MergeLists(Keyed(newA), Keyed(newB))
    ensures done != [] ==> done[0].prev == old(done[0].prev)
    ensures done == [] ==> smaller.prev == old(smaller.prev)
  {
    hide Keyed, MergeLists, Chain, Bonded, Apart, Before, Merging;
    MergeStep(a, b);
    newFirst, newSecond, newA, newB := first, second, a, b;
    if Before(first.key, second.key, false) {
      smaller := first;
      newFirst := Take(done, tail, smaller, a, b);
      newA := a[1..];
    } else {
      smaller := second;
      Swap(done, a, b);
      newSecond := Take(done, tail, smaller, b, a);
      newB := b[1..];
      Swap(done + [smaller], newB, a);
    }
  }

  /** The merging half of `sort_list`. */
  method Merge(list1: Node, list2: Node, ghost a: seq<Node>, ghost b: seq<Node>)
    returns (result: Node, ghost merged: seq<Node>)
    requires Merging([], a, b) && a != [] && b != [] && list1 == a[0] && list2 == b[0]
    modifies a, b
    ensures Chain(merged) && merged != [] && result == merged[0]
    ensures Keyed(merged) == MergeLists(Keyed(a), Keyed(b))
    ensures forall n | n in merged :: n in a || n in b
    ensures (result == list1 || result == list2) && result.prev == old(result.prev)
  {
    hide Keyed, MergeLists, Chain, Bonded, Apart, Before;
    var first: Node?, second: Node?, tail: Node? := list1, list2, null;
    ghost var as_, bs, done := a, b, [];
    result := list1;
    while first != null && second != null
      invariant Merging(done, as_, bs) && first == First(as_) && second == First(bs)
      invariant tail == if done == [] then null else done[|done| - 1]
      invariant as_ != [] || bs != []
      invariant first != null ==> first in a
      invariant second != null ==> second in b
      invariant tail != null ==> tail in a || tail in b
      invariant result == list1 || result == list2
      invariant done == [] ==> first == list1 && second == list2
      invariant done != [] ==> result == done[0] && result.prev == old(result.prev)
      invariant done == [] ==> as_ == a && bs == b && list1.prev == old(list1.prev) && list2.prev == old(list2.prev)
      invariant MergeLists(Keyed(a), Keyed(b)) == Keyed(done) + MergeLists(Keyed(as_), Keyed(bs))
      invariant forall n | n in done :: n in a || n in b
      invariant forall n | n in as_ :: n in a
      invariant forall n | n in bs :: n in b
      decreases |as_| + |bs|
    {
      var smaller;
      ghost var merges := MergeLists(Keyed(as_), Keyed(bs));
      smaller, first, second, as_, bs := MergeRound(done, as_, bs, tail, first, second);
      RegroupKeyed(done, smaller, MergeLists(Keyed(as_), Keyed(bs)));
      if tail == null {
        result := smaller;
      }
      tail := smaller;
      done := done + [smaller];
    }
    MergeDone(as_, bs);
    KeyedJoin(done, as_ + bs);
    merged := done + (as_ + bs);
    if first != null {
      assert as_ + bs == as_;
      AttachRest(done, tail, first, as_);
    }
    if second != null {
      assert as_ + bs == bs;
      AttachRest(done, tail, second, bs);
    }
  }

  lemma Swap(done: seq<Node>, a: seq<Node>, b: seq<Node>)
    requires Merging(done, a, b)
    ensures Merging(done, b, a)
  {
  }

  // ---- sort_list ----

  /** The test for a sorted list. */
  method IsAscending(list: Node, caseSensitive: bool, ghost nodes: seq<Node>) returns (ascending: bool)
    requires Chain(nodes) && nodes != [] && list == nodes[0]
    ensures ascending == Ascending(Keyed(nodes), caseSensitive)
  {
    hide Before;
    var current := list;
    ghost var i := 0;
    assert Linked(nodes, 0);
    while current.next != null && Before(current.key, current.next.key, caseSensitive)
      invariant 0 <= i < |nodes| && current == nodes[i]
      invariant forall k | 0 <= k < i :: Before(Keyed(nodes)[k].key, Keyed(nodes)[k + 1].key, caseSensitive)
      decreases |nodes| - i
    {
      assert Linked(nodes, i);
      current := current.next;
      i := i + 1;
    }
    assert Linked(nodes, i);
    ascending := current.next == null;
    if !ascending {
      assert !Before(Keyed(nodes)[i].key, Keyed(nodes)[i + 1].key, caseSensitive);
    }
  }

  /** Two pointers, one of them twice as fast. */
  method FindMiddle(list: Node, ghost nodes: seq<Node>) returns (second: Node?)
    requires Chain(nodes) && |nodes| > 1 && list == nodes[0]
    ensures second == nodes[Half(|nodes|)]
  {
    second := list;
    var current: Node? := list;
    ghost var i := 0;
    while current != null
      invariant 0 <= i <= Half(|nodes|) && second == nodes[i]
      invariant current == if 2 * i < |nodes| then nodes[2 * i] else null
      decreases Half(|nodes|) - i
    {
      assert Linked(nodes, i) && Linked(nodes, 2 * i);
      second := second.next;
      current := current.next;
      if current != null {
        assert Linked(nodes, 2 * i + 1);
        current := current.next;
      }
      i := i + 1;
    }
  }

  /** Cuts the chain in front of `second`; its `prev` is left pointing at the first half. */
  method Cut(second: Node, ghost nodes: seq<Node>, ghost mid: nat)
    requires Chain(nodes) && 0 < mid < |nodes| && second == nodes[mid]
    modifies nodes[mid - 1]
    ensures nodes[mid - 1].prev == old(nodes[mid - 1].prev)
    ensures Merging([], nodes[..mid], nodes[mid..])
  {
    assert Linked(nodes, mid);
    if second.prev != null {
      second.prev.next := null;
    }
    ghost var a, b := nodes[..mid], nodes[mid..];
    forall i | 0 <= i < |a| ensures Linked(a, i) {
      assert old(Linked(nodes, i));
    }
    forall i | 0 <= i < |b| ensures Linked(b, i) {
      assert old(Linked(nodes, mid + i));
    }
  }

  /**
   `sort_list`: the nodes of the list in the order of `Sort`, linked both ways.  The `prev`
   of the node that ends up first is not touched.
   */
  method SortList(list: Node?, caseSensitive: bool, ghost nodes: seq<Node>)
    returns (result: Node?, ghost sorted: seq<Node>)
    requires Chain(nodes) && list == First(nodes)
    modifies nodes
    ensures Chain(sorted) && result == First(sorted)
    ensures Keyed(sorted) == Sort(Keyed(nodes), caseSensitive)
    ensures forall n | n in sorted :: n in nodes
    ensures result != null ==> result in nodes && result.prev == old(result.prev)
    decreases |nodes|, 1
  {
    hide Keyed, Sort, Ascending, MergeLists, Chain;
    result, sorted := list, nodes;
    SortStep(nodes, caseSensitive);
    if list == null {
      return;
    }
    NextOfFirst(nodes);
    if list.next == null {
      return;
    }
    var ascending := IsAscending(list, caseSensitive, nodes);
    if ascending {
      return;
    }
    var second := FindMiddle(list, nodes);
    ghost var mid := Half(|nodes|);
    ghost var a, b := nodes[..mid], nodes[mid..];
    Halves(nodes, mid);
    Cut(second, nodes, mid);
    ghost var a2, b2;
    var first;
    first, second, a2, b2 := SortHalves(list, second, caseSensitive, a, b);
    assert forall i | 0 <= i < |a2| :: a2[i] in a2 && a2[i] in nodes;
    assert forall i | 0 <= i < |b2| :: b2[i] in b2 && b2[i] in nodes;
    result, sorted := Merge(first, second, a2, b2);
  }

  /** The two recursive calls. */
  method SortHalves(list1: Node, list2: Node, caseSensitive: bool, ghost a: seq<Node>, ghost b: seq<Node>)
    returns (first: Node, second: Node, ghost a2: seq<Node>, ghost b2: seq<Node>)
    requires Chain(a) && Chain(b) && a != [] && b != [] && list1 == a[0] && list2 == b[0]
    requires forall n | n in a :: n !in b
    modifies a, b
    ensures Merging([], a2, b2) && a2 != [] && b2 != [] && first == a2[0] && second == b2[0]
    ensures Keyed(a2) == Sort(Keyed(a), caseSensitive) && Keyed(b2) == Sort(Keyed(b), caseSensitive)
    ensures forall n | n in a2 :: n in a
    ensures forall n | n in b2 :: n in b
    ensures first in a && first.prev == old(first.prev)
    ensures second in b && second.prev == old(second.prev)
    decreases |a| + |b|, 0
  {
    hide Keyed, Sort, Chain;
    var head1, head2;
    head1, a2 := SortList(list1, caseSensitive, a);
    first := head1;
    assert forall n | n in a2 :: n !in b;
    label Between:
    ChainKept(b);
    head2, b2 := SortList(list2, caseSensitive, b);
    second := head2;
    ChainKept@Between(a2);
    StillApart(a, b, a2, b2);
  }

  twostate lemma ChainKept(nodes: seq<Node>)
    requires old(Chain(nodes))
    requires forall n | n in nodes :: n.next == old(n.next) && n.prev == old(n.prev)
    ensures Chain(nodes)
  {
    forall i | 0 <= i < |nodes| ensures Linked(nodes, i) {
      assert nodes[i] in nodes && old(Linked(nodes, i));
    }
  }

  lemma Halves(nodes: seq<Node>, mid: nat)
    requires mid <= |nodes| && Chain(nodes)
    ensures forall n | n in nodes[..mid] :: n in nodes && n !in nodes[mid..]
    ensures forall n | n in nodes[mid..] :: n in nodes && n !in nodes[..mid]
  {
  }

  lemma StillApart(a: seq<Node>, b: seq<Node>, a2: seq<Node>, b2: seq<Node>)
    requires forall n | n in a :: n !in b
    requires forall n | n in a2 :: n in a
    requires forall n | n in b2 :: n in b
    ensures Apart(a2, b2)
  {
    forall i, k | 0 <= i < |a2| && 0 <= k < |b2| ensures a2[i] != b2[k] {
      assert a2[i] in a2 && b2[k] in b2;
    }
  }

  lemma NextOfFirst(nodes: seq<Node>)
    requires Chain(nodes) && nodes != []
    ensures nodes[0].next == null <==> |nodes| == 1
  {
    assert Linked(nodes, 0);
  }

  /** What `Sort` does at one level. */
  lemma SortStep(nodes: seq<Node>, caseSensitive: bool)
    ensures var ms, mid := Keyed(nodes), Half(|nodes|);
            Sort(ms, caseSensitive) ==
            if |nodes| <= 1 || Ascending(ms, caseSensitive) then ms
            else MergeLists(Sort(Keyed(nodes[..mid]), caseSensitive), Sort(Keyed(nodes[mid..]), caseSensitive))
  {
    KeyedSlices(nodes, Half(|nodes|));
    hide Keyed, Ascending, MergeLists;
  }

  /**
   `sort_object`.  The list can be walked forwards and backwards afterwards, but whatever node
   comes to the front still points back at its old neighbour.
   */
  method SortObject(p: Parent, caseSensitive: bool)
    requires p.Walkable()
    modifies p, p.nodes
    ensures Keyed(p.nodes) == Sort(Keyed(old(p.nodes)), caseSensitive)
    ensures multiset(p.nodes) == multiset(old(p.nodes))
    ensures p.Walkable()
    ensures First(p.nodes) == First(old(p.nodes)) <==> FirstStays(Keyed(old(p.nodes)), caseSensitive)
    ensures p.PointsBack() <==> old(p.PointsBack()) || !FirstStays(Keyed(old(p.nodes)), caseSensitive)
    ensures First(p.nodes) != First(old(p.nodes)) ==> p.child.prev in p.nodes[1..]
    ensures var first := Leader(Keyed(old(p.nodes)), caseSensitive);
            first > 0 ==>
              var landing := Landing(Keyed(old(p.nodes)), first - 1, caseSensitive);
              p.child != null && landing < |p.nodes| && p.child.prev == p.nodes[landing]
    ensures First(p.nodes) == First(old(p.nodes)) && p.child != null ==> p.child.prev == old(p.child.prev)
  {
    hide Sort, Ascending;
    ghost var was, sorted := p.nodes, [];
    forall i | 0 < i < |was| ensures was[i].prev == was[i - 1] {
      assert Linked(was, i);
    }
    p.child, sorted := SortList(p.child, caseSensitive, p.nodes);
    p.nodes := sorted;
    SamePermutation(was, sorted, caseSensitive);
    FirstByTag(was, sorted, caseSensitive);
    LeaderNode(was, sorted, caseSensitive);
    hide Keyed, FirstStays, Leader, Landing;
    if p.child != null {
      ghost var at :| 0 <= at < |was| && was[at] == p.child;
      if at > 0 {
        assert was[at - 1] in multiset(was);
        assert was[at - 1] in sorted;
        ghost var k :| 0 <= k < |sorted| && sorted[k] == was[at - 1];
        assert sorted[1..][k - 1] == was[at - 1];
      }
    }
  }

  /** Which node comes to the front, and where the one in front of it comes to lie. */
  lemma LeaderNode(was: seq<Node>, sorted: seq<Node>, caseSensitive: bool)
    requires Keyed(sorted) == Sort(Keyed(was), caseSensitive)
    ensures |sorted| == |was|
    ensures was == [] ==> Leader(Keyed(was), caseSensitive) == 0
    ensures was != [] ==>
              var first := Leader(Keyed(was), caseSensitive);
              && first < |was| && sorted[0] == was[first]
              && (first > 0 ==>
                    var landing := Landing(Keyed(was), first - 1, caseSensitive);
                    landing < |sorted| && sorted[landing] == was[first - 1])
  {
    hide *;
    var ms := Keyed(was);
    KeyedNodes(was);
    KeyedNodes(sorted);
    if was == [] {
      NoLeader(ms, caseSensitive);
    } else {
      MembersLand(ms, 0, caseSensitive);
      var first := Leader(ms, caseSensitive);
      if first > 0 { MembersLand(ms, first - 1, caseSensitive); }
    }
  }

  lemma NoLeader(ms: seq<Member<Node>>, caseSensitive: bool)
    requires ms == []
    ensures Leader(ms, caseSensitive) == 0
  {
  }

  lemma KeyedNodes(nodes: seq<Node>)
    ensures |Keyed(nodes)| == |nodes| && forall i | 0 <= i < |nodes| :: Keyed(nodes)[i].value == nodes[i]
  {
  }

  /** The node that comes to the front is the one whose tag does. */
  lemma FirstByTag(was: seq<Node>, sorted: seq<Node>, caseSensitive: bool)
    requires Separate(was) && Keyed(sorted) == Sort(Keyed(was), caseSensitive)
    ensures First(sorted) == First(was) <==> FirstStays(Keyed(was), caseSensitive)
  {
    var ms := Keyed(was);
    assert |sorted| == |was|;
    SortFollows(ms, Tagged(ms), ms, caseSensitive);
    hide Sort, Tagged;
    if was != [] {
      var tag := Sort(Tagged(ms), caseSensitive)[0].value;
      assert Keyed(sorted)[0] == ms[tag];
      assert sorted[0] == was[tag];
    }
  }

  /**
   Sorting an object and then detaching its first member leaves a list exactly if the first
   member has stayed first; otherwise walking along the list never comes to an end.
   */
  method SortThenDetach(p: Parent, caseSensitive: bool) returns (item: Node)
    requires p.Valid() && p.nodes != []
    modifies p, p.nodes
    ensures item == Sort(Keyed(old(p.nodes)), caseSensitive)[0].value
    ensures if FirstStays(Keyed(old(p.nodes)), caseSensitive) then p.Valid() else p.Endless()
  {
    hide Sort, FirstStays, Ascending;
    ghost var was := p.nodes;
    SortObject(p, caseSensitive);
    ghost var sorted := p.nodes;
    FirstKeyed(sorted);
    SameNodes(was, sorted);
    hide Keyed, Chain;
    item := p.child;
    if item.prev != null {
      assert item.prev in sorted[1..] && item.prev in sorted && item.prev in was;
    }
    p.Around(0);
    p.DetachItemViaPointer(item, 0);
  }

  lemma FirstKeyed(nodes: seq<Node>)
    ensures nodes != [] ==> Keyed(nodes)[0].value == nodes[0] && First(nodes) == nodes[0]
  {
  }

  lemma SameNodes(a: seq<Node>, b: seq<Node>)
    requires multiset(a) == multiset(b)
    ensures (forall i | 0 <= i < |b| :: b[i] in a) && |a| == |b|
  {
    forall i | 0 <= i < |b| ensures b[i] in a {
      assert b[i] in multiset(a);
    }
    assert |multiset(a)| == |multiset(b)|;
  }

  lemma {:induction false} KeyedCount(nodes: seq<Node>, n: Node)
    ensures multiset(Keyed(nodes))[Member(n.key, n)] == multiset(nodes)[n]
  {
    if nodes != [] {
      KeyedSlices(nodes, 1);
      var m := Keyed(nodes);
      assert m[0] == Member(n.key, n) <==> nodes[0] == n;
      hide Keyed;
      KeyedCount(nodes[1..], n);
      assert nodes == [nodes[0]] + nodes[1..] && m == [m[0]] + m[1..];
    }
  }

  lemma UnkeyMultiset(a: seq<Node>, b: seq<Node>)
    requires multiset(Keyed(a)) == multiset(Keyed(b))
    ensures multiset(a) == multiset(b)
  {
    hide Keyed;
    forall n: Node ensures multiset(a)[n] == multiset(b)[n] {
      KeyedCount(a, n);
      KeyedCount(b, n);
    }
  }

  lemma SamePermutation(a: seq<Node>, b: seq<Node>, caseSensitive: bool)
    requires Keyed(b) == Sort(Keyed(a), caseSensitive)
    ensures multiset(a) == multiset(b) && |a| == |b|
  {
    SortPermutes(Keyed(a), caseSensitive);
    UnkeyMultiset(a, b);
  }
}
