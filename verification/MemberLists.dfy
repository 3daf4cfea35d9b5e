/**
 What a first member points back at, in memory: detaching, appending and sorting do to the
 nodes of a list what `Links` says of it.
 */
module MemberLists {
  import opened Json
  import opened MemberSort
  import opened NodeList
  import opened ListSort
  import opened Links

  /** The first node's `prev` is what is said. */
  ghost predicate PointsAs(p: Parent, back: Back)
    reads p, p.nodes, p.child
  {
    p.Walkable() &&
    match back
    case Nowhere => p.child == null || p.child.prev == null
    case Into(at) => 0 < at < |p.nodes| && p.child != null && p.child.prev == p.nodes[at]
    case Gone => p.child != null && p.child.prev != null && p.child.prev !in p.nodes
    case Away(_) => p.child != null && p.child.prev != null
  }

  /** Any member but the first one, and the first one if it points nowhere, can be detached. */
  method DetachMember(p: Parent, item: Node, ghost i: nat, ghost back: Back)
    requires PointsAs(p, back) && i < |p.nodes| && p.nodes[i] == item && (i > 0 || back.Nowhere?)
    modifies p, p.nodes, if item.prev == null then {} else {item.prev}
    ensures p.nodes == Without(old(p.nodes), i) && item.Loose()
    ensures PointsAs(p, if p.nodes == [] then Nowhere else Past(back, i))
  {
    assert i == 0 ==> item == p.child && item.prev == null;
    ghost var was := p.nodes;
    p.DetachItemViaPointer(item, i);
    assert p.Walkable();
    if back.Into? && i < back.at { assert p.nodes[back.at - 1] == was[back.at]; }
    if back.Into? && i > back.at { assert p.nodes[back.at] == was[back.at]; }
  }

  /** A member at the end; one that comes alone points nowhere. */
  method AppendMember(p: Parent, item: Node, ghost back: Back)
    requires PointsAs(p, back) && item !in p.nodes && item.Loose()
    requires back.Gone? && p.child != null ==> p.child.prev != item
    modifies p, p.nodes, item
    ensures p.nodes == old(p.nodes) + [item]
    ensures PointsAs(p, if old(p.nodes) == [] then Nowhere else back)
  {
    p.Append(item);
  }

  lemma SortedPlaces(was: seq<Node>, sorted: seq<Node>, at: nat, caseSensitive: bool)
    requires Keyed(sorted) == Sort(Keyed(was), caseSensitive) && at < |was|
    ensures |sorted| == |was|
    ensures Landing(Keyed(was), at, caseSensitive) < |sorted| && sorted[Landing(Keyed(was), at, caseSensitive)] == was[at]
    ensures Leader(Keyed(was), caseSensitive) < |was| && sorted[0] == was[Leader(Keyed(was), caseSensitive)]
  {
    MembersLand(Keyed(was), at, caseSensitive);
    hide Sort, Landing, Leader;
    var i, first := Landing(Keyed(was), at, caseSensitive), Leader(Keyed(was), caseSensitive);
    assert Keyed(sorted)[i].value == sorted[i] && Keyed(was)[at].value == was[at];
    assert Keyed(sorted)[0].value == sorted[0] && Keyed(was)[first].value == was[first];
  }

  /** The first node of a list points at `prev`, which is what is said. */
  ghost predicate Said(nodes: seq<Node>, prev: Node?, back: Back) {
    match back
    case Nowhere => nodes == [] || prev == null
    case Into(at) => 0 < at < |nodes| && prev == nodes[at]
    case Gone => nodes != [] && prev != null && prev !in nodes
    case Away(_) => nodes != [] && prev != null
  }

  lemma SaidIs(p: Parent, back: Back)
    requires p.Walkable()
    ensures PointsAs(p, back) <==> Said(p.nodes, if p.nodes == [] then null else p.nodes[0].prev, back)
  {
  }

  /** What is said after sorting. */
  lemma SaidAfter(was: seq<Node>, sorted: seq<Node>, prev: Node?, now: Node?, back: Back, caseSensitive: bool)
    requires Keyed(sorted) == Sort(Keyed(was), caseSensitive) && multiset(sorted) == multiset(was) && Separate(sorted)
    requires Said(was, prev, back) && was != []
    requires var first := Leader(Keyed(was), caseSensitive);
             now == if 0 < first <= |was| then was[first - 1] else prev
    ensures Said(sorted, now, BackAfter(Keyed(was), back, caseSensitive))
  {
    hide *;
    SortedPlaces(was, sorted, 0, caseSensitive);
    BackAfterIs(Keyed(was), back, caseSensitive);
    if Leader(Keyed(was), caseSensitive) > 0 {
      SaidMoves(was, sorted, now, caseSensitive);
    } else {
      SaidStays(was, sorted, prev, back, caseSensitive);
    }
  }

  /** Another node has come to the front. */
  lemma SaidMoves(was: seq<Node>, sorted: seq<Node>, now: Node?, caseSensitive: bool)
    requires Keyed(sorted) == Sort(Keyed(was), caseSensitive) && multiset(sorted) == multiset(was) && Separate(sorted)
    requires 0 < Leader(Keyed(was), caseSensitive) < |was| && now == was[Leader(Keyed(was), caseSensitive) - 1]
    ensures Said(sorted, now, Into(Landing(Keyed(was), Leader(Keyed(was), caseSensitive) - 1, caseSensitive)))
  {
    hide *;
    var first := Leader(Keyed(was), caseSensitive);
    SortedPlaces(was, sorted, first - 1, caseSensitive);
    Apart(was, sorted, first - 1, first);
    IntoLater(sorted, now, Landing(Keyed(was), first - 1, caseSensitive));
  }

  lemma BackAfterIs<T>(ms: seq<Member<T>>, back: Back, caseSensitive: bool)
    ensures var first := Leader(ms, caseSensitive);
            BackAfter(ms, back, caseSensitive) ==
            if first > 0 then Into(Landing(ms, first - 1, caseSensitive))
            else if back.Into? then Into(Landing(ms, back.at, caseSensitive)) else back
  {
    hide Landing, Leader;
  }

  lemma IntoLater(nodes: seq<Node>, n: Node?, at: nat)
    requires at < |nodes| && n == nodes[at] && n != nodes[0]
    ensures Said(nodes, n, Into(at))
  {
  }

  lemma SaidInto(nodes: seq<Node>, prev: Node?, at: nat)
    requires Said(nodes, prev, Into(at))
    ensures 0 < at < |nodes| && prev == nodes[at]
  {
  }

  /** The first node has stayed first. */
  lemma SaidStays(was: seq<Node>, sorted: seq<Node>, prev: Node?, back: Back, caseSensitive: bool)
    requires Keyed(sorted) == Sort(Keyed(was), caseSensitive) && multiset(sorted) == multiset(was) && Separate(sorted)
    requires Said(was, prev, back) && was != [] && Leader(Keyed(was), caseSensitive) == 0
    ensures Said(sorted, prev, if back.Into? then Into(Landing(Keyed(was), back.at, caseSensitive)) else back)
  {
    SortedPlaces(was, sorted, 0, caseSensitive);
    hide Sort, Landing, Leader, Said, Keyed, Separate;
    if back.Into? {
      SaidInto(was, prev, back.at);
      SortedPlaces(was, sorted, back.at, caseSensitive);
      Apart(was, sorted, back.at, 0);
      IntoLater(sorted, prev, Landing(Keyed(was), back.at, caseSensitive));
    } else {
      SameNodes(was, sorted, prev);
      SaidElse(was, sorted, prev, back);
    }
  }

  lemma SaidElse(was: seq<Node>, sorted: seq<Node>, prev: Node?, back: Back)
    requires !back.Into? && Said(was, prev, back) && was != [] && sorted != [] && (prev in was <==> prev in sorted)
    ensures Said(sorted, prev, back)
  {
  }

  lemma SameNodes(was: seq<Node>, sorted: seq<Node>, n: Node?)
    requires multiset(sorted) == multiset(was)
    ensures n in was <==> n in sorted
  {
    if n != null { assert n in multiset(was) <==> n in multiset(sorted); }
  }

  /** Sorting does not make two nodes of one. */
  lemma Apart(was: seq<Node>, sorted: seq<Node>, i: nat, k: nat)
    requires multiset(sorted) == multiset(was) && Separate(sorted) && i < |was| && k < |was| && i != k
    ensures was[i] != was[k]
  {
    if was[i] == was[k] {
      var a, b := if i < k then i else k, if i < k then k else i;
      assert was == was[..a] + [was[a]] + was[a + 1..b] + [was[b]] + was[b + 1..];
      assert multiset(sorted)[was[a]] >= 2;
      Twice(sorted, was[a]);
    }
  }

  lemma {:induction false} Twice(nodes: seq<Node>, n: Node)
    requires Separate(nodes)
    ensures multiset(nodes)[n] <= 1
  {
    if nodes != [] {
      assert nodes == [nodes[0]] + nodes[1..];
      assert Separate(nodes[1..]) by {
        forall i, k | 0 <= i < k < |nodes[1..]| ensures nodes[1..][i] != nodes[1..][k] { assert nodes[i + 1] != nodes[k + 1]; }
      }
      Twice(nodes[1..], n);
      assert forall k | 0 <= k < |nodes[1..]| :: nodes[1..][k] == nodes[k + 1] != nodes[0];
      assert nodes[0] !in multiset(nodes[1..]);
    }
  }

  /** Sorting leaves the `prev` of the node that comes to the front: `BackAfter` says what that is. */
  method SortMembers(p: Parent, caseSensitive: bool, ghost back: Back)
    requires PointsAs(p, back)
    modifies p, p.nodes
    ensures Keyed(p.nodes) == Sort(Keyed(old(p.nodes)), caseSensitive)
    ensures PointsAs(p, BackAfter(Keyed(old(p.nodes)), back, caseSensitive))
  {
    ghost var was, prev := p.nodes, if p.nodes == [] then null else p.nodes[0].prev;
    SaidIs(p, back);
    SortObject(p, caseSensitive);
    hide Sort, Landing, Leader, BackAfter, Said;
    ghost var after := BackAfter(Keyed(was), back, caseSensitive);
    SaidIs(p, after);
    if was == [] {
      NothingSaid(was, prev, back, caseSensitive);
    } else {
      ghost var first := Leader(Keyed(was), caseSensitive);
      SortedPlaces(was, p.nodes, if 0 < first <= |was| then first - 1 else 0, caseSensitive);
      SaidAfter(was, p.nodes, prev, p.nodes[0].prev, back, caseSensitive);
    }
  }

  lemma NothingSaid(was: seq<Node>, prev: Node?, back: Back, caseSensitive: bool)
    requires was == [] && Said(was, prev, back)
    ensures Said([], null, BackAfter(Keyed(was), back, caseSensitive))
  {
    assert Keyed(was) == [];
  }
}
