/**
 Child lists as they lie in memory: nodes with `next` and `prev`, and a parent with the
 first child.  Each editing call is one operation on the sequence of nodes and keeps the
 list well formed, and so does every run of calls.
 */
module NodeList {

  class Node {
    var next: Node?
    var prev: Node?
    const key: string

    constructor (key: string)
      ensures next == null && prev == null && this.key == key
    {
      next, prev, this.key := null, null, key;
    }

    /** Not linked to anything. */
    ghost predicate Loose()
      reads this
    {
      next == null && prev == null
    }
  }

  ghost predicate Separate(nodes: seq<Node>) {
    forall i, k | 0 <= i < k < |nodes| :: nodes[i] != nodes[k]
  }

  /** The nodes are linked in this order; the `prev` of the first one is left open. */
  ghost predicate Chain(nodes: seq<Node>)
    reads nodes
  {
    Separate(nodes) && forall i | 0 <= i < |nodes| :: Linked(nodes, i)
  }

  /** What one node of a chain points to. */
  ghost predicate Linked(nodes: seq<Node>, i: nat)
    requires i < |nodes|
    reads nodes[i]
  {
    && nodes[i].next == (if i + 1 < |nodes| then nodes[i + 1] else null)
    && (i > 0 ==> nodes[i].prev == nodes[i - 1])
  }

  function First(nodes: seq<Node>): Node? {
    if nodes == [] then null else nodes[0]
  }

  /** A list without its node at an index. */
  function Without(nodes: seq<Node>, i: nat): seq<Node> {
    if i < |nodes| then nodes[..i] + nodes[i + 1..] else nodes
  }

  function Inserted(nodes: seq<Node>, i: nat, item: Node): seq<Node> {
    if i < |nodes| then nodes[..i] + [item] + nodes[i..] else nodes + [item]
  }

  function Behind(nodes: seq<Node>, i: nat): Node? {
    if i + 1 < |nodes| then nodes[i + 1] else null
  }

  /** In front of a node of a list whose first node points to `back`. */
  function InFrontOf(nodes: seq<Node>, i: nat, back: Node?): Node? {
    if 0 < i <= |nodes| then nodes[i - 1] else back
  }

  /** Every other node of a chain is led past the node at `i` if it was next to it, and else linked as before. */
  ghost predicate Unlinked(nodes: seq<Node>, i: nat, back: Node?)
    reads nodes
  {
    var p, q := InFrontOf(nodes, i, back), Behind(nodes, i);
    forall k | 0 <= k < |nodes| && k != i ::
      && nodes[k].next == (if nodes[k] == p then q else Behind(nodes, k))
      && nodes[k].prev == (if nodes[k] == q then p else InFrontOf(nodes, k, back))
  }

  lemma Rechained(nodes: seq<Node>, i: nat, back: Node?)
    requires Separate(nodes) && i < |nodes| && Unlinked(nodes, i, back) && (i > 0 || back !in nodes[1..])
    ensures Chain(Without(nodes, i))
    ensures Without(nodes, i) != [] ==> Without(nodes, i)[0].prev == back
  {
    var rest := Without(nodes, i);
    forall k | 0 <= k < |rest| ensures Linked(rest, k) {
      var j := if k < i then k else k + 1;
      assert rest[k] == nodes[j];
      if i == 0 { assert nodes[j] == nodes[1..][j - 1]; }
    }
    if rest != [] { assert rest[0] == nodes[if i == 0 then 1 else 0]; }
  }

  lemma LoopedBack(nodes: seq<Node>, behind: nat)
    requires Separate(nodes) && 0 < behind < |nodes| && Unlinked(nodes, 0, nodes[behind])
    ensures var rest := Without(nodes, 0);
            && !Chain(rest)
            && forall k | 0 <= k < behind :: rest[k].next == rest[if k + 1 < behind then k + 1 else 0]
  {
    var rest := Without(nodes, 0);
    forall k | 0 <= k < behind ensures rest[k].next == rest[if k + 1 < behind then k + 1 else 0] {
      assert rest[k] == nodes[k + 1];
    }
    assert !Linked(rest, behind - 1);
  }

  class Parent {
    var child: Node?
    ghost var nodes: seq<Node>

    constructor ()
      ensures Valid() && nodes == []
    {
      child, nodes := null, [];
    }

    /** A well-formed doubly linked list: nothing in front of the first node, nothing behind the last. */
    ghost predicate Valid()
      reads this, nodes
    {
      Chain(nodes) && child == First(nodes) && (child != null ==> child.prev == null)
    }

    /** The neighbours of the node at a position. */
    lemma Around(i: nat)
      requires Walkable() && i < |nodes|
      ensures nodes[i].next == if i + 1 < |nodes| then nodes[i + 1] else null
      ensures i > 0 ==> nodes[i].prev == nodes[i - 1]
      ensures Valid() && i == 0 ==> nodes[i].prev == null
      ensures i + 1 < |nodes| ==> nodes[i + 1].prev == nodes[i]
      ensures i > 0 ==> nodes[i - 1].next == nodes[i]
      ensures (nodes[i] == child) == (i == 0)
    {
      assert Linked(nodes, i);
      if i + 1 < |nodes| { assert Linked(nodes, i + 1); }
      if i > 0 { assert Linked(nodes, i - 1); }
    }

    /** `get_array_item`: walks `which` steps. */
    method GetArrayItem(which: nat) returns (item: Node?)
      requires Valid()
      ensures item == if which < |nodes| then nodes[which] else null
    {
      item := child;
      var index := which;
      while item != null && index > 0
        invariant 0 <= index <= which
        invariant item == if which - index < |nodes| then nodes[which - index] else null
        decreases index
      {
        assert Linked(nodes, which - index);
        index := index - 1;
        item := item.next;
      }
    }

    /** `add_item_to_array`: walks to the last node and appends. */
    method Append(item: Node)
      requires Walkable() && item !in nodes && item.Loose()
      modifies this, nodes, item
      ensures Walkable() && nodes == old(nodes) + [item]
      ensures PointsBack() <==> old(PointsBack())
      ensures old(nodes) != [] ==> child == old(child) && child.prev == old(child.prev)
      ensures old(Valid()) ==> Valid()
    {
      ghost var was := nodes;
      var last := child;
      if last == null {
        child := item;
      } else {
        ghost var i := 0;
        while last.next != null
          invariant 0 <= i < |nodes| && last == nodes[i]
          decreases |nodes| - i
        {
          assert Linked(nodes, i);
          last := last.next;
          i := i + 1;
        }
        assert Linked(nodes, i);
        last.next := item;
        item.prev := last;
      }
      nodes := nodes + [item];
      forall k | 0 <= k < |nodes| ensures Linked(nodes, k) {
        if k < |was| { assert old(Linked(was, k)); }
      }
    }

    /** A list as sorting may leave it: whatever the first node's `prev` points to. */
    ghost predicate Walkable()
      reads this, nodes
    {
      Chain(nodes) && child == First(nodes)
    }

    /** The first node's `prev` is not NULL. */
    ghost predicate PointsBack()
      reads this, child
    {
      child != null && child.prev != null
    }

    /** The walk along `next` never comes to an end. */
    ghost predicate Endless()
      reads this, nodes
    {
      child == First(nodes) &&
      exists b :: 0 < b <= |nodes| && forall k | 0 <= k < b :: nodes[k].next != null && nodes[k].next in nodes[..b]
    }

    lemma GoesRound(b: nat)
      requires child == First(nodes) && 0 < b <= |nodes|
      requires forall k | 0 <= k < b :: nodes[k].next == nodes[if k + 1 < b then k + 1 else 0]
      ensures Endless()
    {
      forall k | 0 <= k < b ensures nodes[k].next != null && nodes[k].next in nodes[..b] {
        assert nodes[..b][if k + 1 < b then k + 1 else 0] == nodes[k].next;
      }
    }

    /**
     `cJSON_DetachItemViaPointer` on the node at position `i`.  Detaching the first node
     overwrites the `next` of the node that it points back at: if that is a node of the list,
     the list is no chain any more, and walking along it never ends; if it is not, a node
     outside is written to: one that has been deleted, or one in another list.
     */
    method DetachItemViaPointer(item: Node, ghost i: nat)
      requires Walkable() && i < |nodes| && nodes[i] == item
      modifies this, nodes, if item.prev == null then {} else {item.prev}
      ensures nodes == Without(old(nodes), i) && item.Loose() && item !in nodes && child == First(nodes)
      ensures Chain(nodes) <==> i > 0 || old(item.prev) !in old(nodes)[1..]
      ensures Chain(nodes) && nodes != [] ==> nodes[0].prev == old(nodes[0].prev)
      ensures !Chain(nodes) ==> Endless()
      ensures i == 0 && old(item.prev) != null ==> old(item.prev).next == child || old(item.prev) == item
      ensures old(item.prev) != null && old(item.prev) !in old(nodes) ==> old(item.prev).prev == old(item.prev.prev)
      ensures i > 0 || old(item.prev) == null ==> (PointsBack() <==> i > 0 && old(PointsBack()))
      ensures old(Valid()) ==> Valid()
    {
      ghost var was, back := nodes, nodes[0].prev;
      Around(i);
      ghost var behind: nat := 0;
      if i == 0 && back in nodes[1..] {
        behind :| 0 < behind < |nodes| && nodes[behind] == back;
      }
      Unlink(item, i);
      nodes := Without(nodes, i);
      if behind > 0 {
        LoopedBack(was, behind);
        GoesRound(behind);
      } else {
        Rechained(was, i, back);
      }
    }

    /** The assignments: the neighbours, and the parent, are led past the node. */
    method Unlink(item: Node, ghost i: nat)
      requires Walkable() && i < |nodes| && nodes[i] == item
      modifies this`child, nodes, if item.prev == null then {} else {item.prev}
      ensures item.Loose() && child == if i > 0 then old(child) else Behind(nodes, i)
      ensures Unlinked(nodes, i, old(nodes[0].prev))
      ensures old(item.prev) != null && old(item.prev) != item ==> old(item.prev).next == Behind(nodes, i)
      ensures old(item.prev) != null && old(item.prev) !in nodes ==> old(item.prev).prev == old(item.prev.prev)
    {
      Around(i);
      if item.prev != null {
        item.prev.next := item.next;
      }
      if item.next != null {
        item.next.prev := item.prev;
      }
      if item == child {
        child := item.next;
      }
      item.prev := null;
      item.next := null;
      forall k | 0 <= k < |nodes| && k != i
        ensures nodes[k].next == (if nodes[k] == old(item.prev) then Behind(nodes, i) else Behind(nodes, k))
        ensures nodes[k].prev == (if nodes[k] == Behind(nodes, i) then old(item.prev) else InFrontOf(nodes, k, old(nodes[0].prev)))
      {
        assert old(Linked(nodes, k));
      }
    }

    /** `cJSON_DetachItemFromArray`, and `detach_item_from_array` of the utilities. */
    method Detach(which: int) returns (item: Node?)
      requires Valid()
      modifies this, nodes
      ensures Valid()
      ensures if 0 <= which < |old(nodes)| then
                item == old(nodes)[which] && item.Loose() && nodes == Without(old(nodes), which) && item !in nodes
              else item == null && nodes == old(nodes)
    {
      if which < 0 {
        return null;
      }
      item := GetArrayItem(which);
      if item != null {
        Around(which);
        DetachItemViaPointer(item, which);
      }
    }

    /** The linking that both insertions share: `item` in front of the node at position `i`. */
    method Link(item: Node, after: Node, ghost i: nat)
      requires Valid() && item !in nodes && i < |nodes| && nodes[i] == after
      modifies this, nodes, item
      ensures Valid() && nodes == Inserted(old(nodes), i, item)
    {
      ghost var was := nodes;
      Around(i);
      item.next := after;
      item.prev := after.prev;
      after.prev := item;
      if after == child {
        child := item;
      } else {
        item.prev.next := item;
      }
      nodes := Inserted(nodes, i, item);
      forall k | 0 <= k < |nodes| ensures Linked(nodes, k) {
        if k != i { assert old(Linked(was, if k < i then k else k - 1)); }
      }
    }

    /** `cJSON_InsertItemInArray`: behind the end it appends, and a negative index does nothing. */
    method Insert(which: int, item: Node)
      requires Valid() && item !in nodes && item.Loose()
      modifies this, nodes, item
      ensures Valid() && nodes == if which < 0 then old(nodes) else Inserted(old(nodes), which, item)
      ensures which < 0 ==> item.Loose()
    {
      if which < 0 {
        return;
      }
      var after := GetArrayItem(which);
      if after == null {
        Append(item);
      } else {
        Link(item, after, which);
      }
    }

    /** `insert_item_in_array` of the utilities: it refuses an index behind the end. */
    method InsertInside(which: nat, item: Node) returns (ok: bool)
      requires Valid() && item !in nodes && item.Loose()
      modifies this, nodes, item
      ensures Valid() && ok == (which <= |old(nodes)|)
      ensures nodes == if ok then Inserted(old(nodes), which, item) else old(nodes)
      ensures !ok ==> item.Loose()
    {
      var node := child;
      var left := which;
      while node != null && left > 0
        invariant 0 <= left <= which && which - left <= |nodes|
        invariant node == if which - left < |nodes| then nodes[which - left] else null
        decreases left
      {
        assert Linked(nodes, which - left);
        node := node.next;
        left := left - 1;
      }
      if left > 0 {
        return false;
      }
      if node == null {
        Append(item);
      } else {
        Link(item, node, which);
      }
      ok := true;
    }

    /** `cJSON_ReplaceItemViaPointer`; the node that is replaced is deleted, and no longer linked. */
    method ReplaceItemViaPointer(item: Node, replacement: Node, ghost i: nat)
      requires Valid() && i < |nodes| && nodes[i] == item
      requires replacement == item || replacement !in nodes
      modifies this, nodes, replacement
      ensures Valid() && nodes == old(nodes)[i := replacement]
      ensures replacement != item ==> item.Loose()
    {
      if replacement == item {
        return;
      }
      ghost var was := nodes;
      Around(i);
      replacement.next := item.next;
      replacement.prev := item.prev;
      if replacement.next != null {
        replacement.next.prev := replacement;
      }
      if replacement.prev != null {
        replacement.prev.next := replacement;
      }
      if child == item {
        child := replacement;
      }
      item.next := null;
      item.prev := null;
      nodes := nodes[i := replacement];
      forall k | 0 <= k < |nodes| ensures Linked(nodes, k) {
        assert old(Linked(was, k));
      }
    }

    /** `cJSON_ReplaceItemInArray`. */
    method Replace(which: int, replacement: Node)
      requires Valid() && replacement !in nodes
      modifies this, nodes, replacement
      ensures Valid()
      ensures nodes == if 0 <= which < |old(nodes)| then old(nodes)[which := replacement] else old(nodes)
      ensures 0 <= which < |old(nodes)| ==> old(nodes)[which].Loose()
      ensures !(0 <= which < |old(nodes)|) ==> replacement.next == old(replacement.next) && replacement.prev == old(replacement.prev)
    {
      if which < 0 {
        return;
      }
      var item := GetArrayItem(which);
      if item != null {
        ReplaceItemViaPointer(item, replacement, which);
      }
    }
  }

  /**
   Detaching the first node of a list while it points back at a node of another one.  Both
   lists are what they should be afterwards if and only if neither of the two nodes had a
   `next`: otherwise the other list is cut off, or runs on into this one.
   */
  method DetachAcross(p: Parent, q: Parent, item: Node, ghost j: nat)
    requires p != q && p.Walkable() && p.nodes != [] && p.nodes[0] == item
    requires q.Walkable() && j < |q.nodes| && item.prev == q.nodes[j]
    requires forall n | n in p.nodes :: n !in q.nodes
    modifies p, p.nodes, q.nodes[j]
    ensures p.nodes == old(p.nodes)[1..] && q.nodes == old(q.nodes) && item.Loose()
    ensures p.Valid() && q.Walkable() <==> j + 1 == |q.nodes| && |old(p.nodes)| == 1
    ensures j + 1 == |q.nodes| && |old(p.nodes)| == 1 && old(q.Valid()) ==> q.Valid()
    ensures q.nodes[j].next == First(p.nodes)
  {
    ghost var mine, others := p.nodes, q.nodes;
    assert Linked(others, j);
    assert others[j] in others;
    assert others[j] !in mine;
    p.DetachItemViaPointer(item, 0);
    assert Without(mine, 0) == mine[1..];
    forall k | 0 <= k < |others| && k != j ensures Linked(others, k) {
      assert others[k] in others && old(Linked(others, k));
    }
    if |mine| > 1 {
      assert mine[1] in mine && mine[1] !in others;
      assert others[j].next == mine[1];
    }
    assert Linked(others, j) <==> j + 1 == |others| && |mine| == 1;
  }

  // ---- Runs of calls ----

  datatype Call =
    | AppendCall(item: Node)
    | InsertCall(which: int, item: Node)
    | InsertInsideCall(position: nat, item: Node)
    | DetachCall(which: int)
    | ReplaceCall(which: int, item: Node)

  /** The list, and the nodes that exist outside of it. */
  datatype World = World(nodes: seq<Node>, pool: set<Node>)

  /** A caller may hand over only a node that is in no list. */
  ghost predicate Allowed(w: World, c: Call) {
    c.DetachCall? || c.item in w.pool
  }

  ghost function Next(w: World, c: Call): World {
    match c
    case AppendCall(item) => World(w.nodes + [item], w.pool - {item})
    case InsertCall(which, item) =>
      if which < 0 then w else World(Inserted(w.nodes, which, item), w.pool - {item})
    case InsertInsideCall(position, item) =>
      if position > |w.nodes| then w else World(Inserted(w.nodes, position, item), w.pool - {item})
    case DetachCall(which) =>
      if 0 <= which < |w.nodes| then World(Without(w.nodes, which), w.pool + {w.nodes[which]}) else w
    case ReplaceCall(which, item) =>
      if 0 <= which < |w.nodes| then World(w.nodes[which := item], w.pool - {item}) else w
  }

  ghost predicate AllowedRun(w: World, calls: seq<Call>)
    decreases |calls|
  {
    calls == [] || (Allowed(w, calls[0]) && AllowedRun(Next(w, calls[0]), calls[1..]))
  }

  ghost function Final(w: World, calls: seq<Call>): World
    decreases |calls|
  {
    if calls == [] then w else Final(Next(w, calls[0]), calls[1..])
  }

  ghost predicate Disjoint(w: World) {
    forall n | n in w.pool :: n !in w.nodes
  }

  ghost predicate AllLoose(pool: set<Node>)
    reads pool
  {
    forall n | n in pool :: n.Loose()
  }

  ghost predicate Outside(w: World)
    reads w.pool
  {
    Disjoint(w) && AllLoose(w.pool)
  }

  lemma NextDisjoint(w: World, c: Call)
    requires Disjoint(w) && Separate(w.nodes) && Allowed(w, c)
    ensures Disjoint(Next(w, c))
  {
  }

  ghost function Everything(w: World): set<Node> {
    w.pool + set n | n in w.nodes
  }

  /** No call brings in a node from elsewhere. */
  lemma NextInside(w: World, c: Call)
    requires Allowed(w, c)
    ensures Everything(Next(w, c)) <= Everything(w)
  {
  }

  /** One call, with the pool of free nodes. */
  method Perform(p: Parent, ghost pool: set<Node>, c: Call)
    requires p.Valid() && Outside(World(p.nodes, pool)) && Allowed(World(p.nodes, pool), c)
    modifies p, p.nodes, pool
    ensures p.Valid()
    ensures var w := Next(old(World(p.nodes, pool)), c); p.nodes == w.nodes && Outside(w)
  {
    hide Disjoint;
    ghost var w := World(p.nodes, pool);
    NextDisjoint(w, c);
    PoolFree(w);
    match c
    case AppendCall(item) => p.Append(item);
    case InsertCall(which, item) => p.Insert(which, item);
    case InsertInsideCall(position, item) => var _ := p.InsertInside(position, item);
    case DetachCall(which) => var _ := p.Detach(which);
    case ReplaceCall(which, item) => p.Replace(which, item);
  }

  lemma EverythingIs(w: World)
    ensures Everything(w) == w.pool + set n | n in w.nodes
  {
  }

  lemma PoolFree(w: World)
    requires Disjoint(w)
    ensures forall n | n in w.pool :: n !in w.nodes
  {
  }

  /** Any run of calls leaves a well-formed list with exactly the nodes that the run adds up to. */
  method Run(p: Parent, ghost pool: set<Node>, calls: seq<Call>)
    requires p.Valid() && Outside(World(p.nodes, pool)) && AllowedRun(World(p.nodes, pool), calls)
    modifies p, p.nodes, pool
    ensures p.Valid() && p.nodes == Final(old(World(p.nodes, pool)), calls).nodes
    ensures Outside(Final(old(World(p.nodes, pool)), calls))
  {
    ghost var start := World(p.nodes, pool);
    ghost var w := start;
    hide Next, Everything;
    ghost var all := Everything(start);
    EverythingIs(w);
    var i := 0;
    assert calls[0..] == calls;
    while i < |calls|
      invariant 0 <= i <= |calls|
      invariant p.Valid() && w.nodes == p.nodes && Outside(w)
      invariant Everything(w) <= all
      invariant AllowedRun(w, calls[i..]) && Final(start, calls) == Final(w, calls[i..])
    {
      assert calls[i..][1..] == calls[i + 1..];
      NextInside(w, calls[i]);
      EverythingIs(w);
      Perform(p, w.pool, calls[i]);
      w := Next(w, calls[i]);
      i := i + 1;
    }
  }

  /** Detaching a node that was just inserted restores the list. */
  lemma DetachUndoesInsert(nodes: seq<Node>, i: nat, item: Node)
    requires i <= |nodes|
    ensures Without(Inserted(nodes, i, item), i) == nodes
  {
  }
}
