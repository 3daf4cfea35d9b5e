/**
 Who owns which allocation: every node, string and key is a block of memory, an allocator
 may refuse any request, and what a failed call has allocated is released again.
 */
module Ownership {
  import opened Options

  /** A string in a block of its own, or, as a constant key, in somebody else's. */
  datatype Text = Text(block: nat, text: string)

  datatype Node = Node(
    block: nat, reference: bool, constKey: bool, data: int,
    value: Option<Text>, key: Option<Text>, children: seq<Node>)

  type Bag = multiset<nat>

  function Only(t: Option<Text>): Bag {
    if t.None? then multiset{} else multiset{t.value.block}
  }

  /** The blocks that `cJSON_Delete` frees with a node. */
  function Owned(n: Node): Bag {
    multiset{n.block} + (if n.reference then multiset{} else Only(n.value) + OwnedBy(n.children)) +
    (if n.constKey then multiset{} else Only(n.key))
  }

  function OwnedBy(nodes: seq<Node>): Bag {
    if nodes == [] then multiset{} else Owned(nodes[0]) + OwnedBy(nodes[1..])
  }

  lemma {:induction false} OwnedByAppend(a: seq<Node>, b: seq<Node>)
    ensures OwnedBy(a + b) == OwnedBy(a) + OwnedBy(b)
  {
    hide Owned;
    if a == [] {
      assert a + b == b;
    } else {
      assert (a + b)[1..] == a[1..] + b;
      OwnedByAppend(a[1..], b);
    }
  }

  lemma OwnedByOne(n: Node)
    ensures OwnedBy([n]) == Owned(n)
  { }

  /** What a copy has in common with its original: everything but the blocks. */
  datatype Shape = Shape(constKey: bool, data: int, value: Option<string>, key: Option<string>, children: seq<Shape>)

  function TextOf(t: Option<Text>): Option<string> {
    if t.None? then None else Some(t.value.text)
  }

  function ShapeOf(n: Node, recurse: bool): Shape {
    Shape(n.constKey, n.data, TextOf(n.value), TextOf(n.key), if recurse then ShapesOf(n.children) else [])
  }

  function ShapesOf(nodes: seq<Node>): seq<Shape> {
    if nodes == [] then [] else [ShapeOf(nodes[0], true)] + ShapesOf(nodes[1..])
  }

  lemma {:induction false} ShapesAppend(nodes: seq<Node>, n: Node)
    ensures ShapesOf(nodes + [n]) == ShapesOf(nodes) + [ShapeOf(n, true)]
  {
    hide ShapeOf;
    if nodes == [] {
      assert nodes + [n] == [n];
    } else {
      assert (nodes + [n])[1..] == nodes[1..] + [n];
      ShapesAppend(nodes[1..], n);
    }
  }

  class Memory {
    /** The blocks in use; none of them twice. */
    var live: Bag
    var next: nat

    constructor ()
      ensures Valid() && live == multiset{}
    {
      live, next := multiset{}, 0;
    }

    ghost predicate Valid()
      reads this
    {
      forall b | b in live :: live[b] == 1 && b < next
    }

    /** Nondeterministic: any request may be refused. */
    method Allocate() returns (block: Option<nat>)
      requires Valid()
      modifies this
      ensures Valid() && next >= old(next)
      ensures block.None? ==> live == old(live)
      ensures block.Some? ==> block.value !in old(live) && live == old(live) + multiset{block.value}
      ensures block.Some? ==> old(next) <= block.value < next
    {
      var granted: bool := *;
      if granted {
        block := Some(next);
        live := live + multiset{next};
        next := next + 1;
      } else {
        block := None;
      }
    }

    /** Only a block in use can be freed, so nothing is freed twice. */
    method Free(block: nat, ghost rest: Bag)
      requires Valid() && live == rest + multiset{block}
      modifies this`live
      ensures Valid() && live == rest && block !in live
    {
      assert live[block] == 1;
      live := live - multiset{block};
    }

    method FreeText(t: Option<Text>, ghost rest: Bag)
      requires Valid() && live == rest + Only(t)
      modifies this`live
      ensures Valid() && live == rest
    {
      if t.Some? {
        Free(t.value.block, rest);
      }
    }

    /** `cJSON_Delete`: along the list, and into the children that are owned; `rest` stays in use. */
    method Delete(nodes: seq<Node>, ghost rest: Bag)
      requires Valid() && live == rest + OwnedBy(nodes)
      modifies this`live
      ensures Valid() && live == rest
      decreases nodes, 1
    {
      hide Owned, OwnedBy, Valid;
      var i := 0;
      assert nodes[0..] == nodes;
      while i < |nodes|
        invariant 0 <= i <= |nodes| && Valid()
        invariant live == rest + OwnedBy(nodes[i..])
      {
        FirstOwned(nodes, i);
        DeleteNode(nodes[i], rest + OwnedBy(nodes[i + 1..]));
        i := i + 1;
      }
      NothingOwned(nodes);
    }

    method DeleteNode(n: Node, ghost rest: Bag)
      requires Valid() && live == rest + Owned(n)
      modifies this`live
      ensures Valid() && live == rest
      decreases n, 0
    {
      hide Valid, Only, OwnedBy;
      ghost var children := if n.reference then multiset{} else OwnedBy(n.children);
      ghost var value := if n.reference then multiset{} else Only(n.value);
      ghost var key := if n.constKey then multiset{} else Only(n.key);
      NodeParts(n, rest, children, value, key);
      if !n.reference {
        if n.children != [] {
          Delete(n.children, rest + multiset{n.block} + key + value);
        } else {
          NoChildren(rest + multiset{n.block} + key + value);
        }
        FreeText(n.value, rest + multiset{n.block} + key);
      }
      if !n.constKey {
        FreeText(n.key, rest + multiset{n.block});
      }
      Free(n.block, rest);
    }
  }

  // ---- Nodes under construction ----

  lemma NewNode(n: Node, rest: Bag)
    requires n.value == None && n.key == None && n.children == []
    ensures Owned(n) == multiset{n.block}
  {
  }

  lemma WithValue(n: Node, t: Text, rest: Bag)
    requires !n.reference && n.value == None
    ensures rest + Owned(n.(value := Some(t))) == (rest + Owned(n)) + multiset{t.block}
  { }

  lemma WithKey(n: Node, t: Option<Text>, rest: Bag)
    requires n.key == None
    ensures rest + Owned(n.(key := t)) == (rest + Owned(n)) + (if n.constKey then multiset{} else Only(t))
  { }

  lemma WithChildren(n: Node, before: seq<Node>, more: seq<Node>, rest: Bag)
    requires !n.reference && n.children == before
    ensures rest + Owned(n.(children := before + more)) == (rest + Owned(n)) + OwnedBy(more)
  {
    OwnedByAppend(before, more);
    hide OwnedBy, Only;
    var key := if n.constKey then multiset{} else Only(n.key);
    assert Owned(n.(children := before + more)) == multiset{n.block} + (Only(n.value) + OwnedBy(before + more)) + key;
    assert Owned(n) == multiset{n.block} + (Only(n.value) + OwnedBy(before)) + key;
    hide Owned;
  }

  /** `cJSON_strdup`; None without a string is not a failure. */
  method CopyText(mem: Memory, t: Option<Text>) returns (ok: bool, copy: Option<Text>)
    requires mem.Valid()
    modifies mem
    ensures mem.Valid() && mem.live == old(mem.live) + Only(copy)
    ensures ok ==> TextOf(copy) == TextOf(t)
    ensures !ok ==> copy == None
  {
    ok, copy := true, None;
    if t.Some? {
      var block := mem.Allocate();
      if block.None? {
        ok := false;
      } else {
        copy := Some(Text(block.value, t.value.text));
      }
    }
  }

  /**
   `cJSON_Duplicate`.  Whichever allocation is refused, exactly what was in use before is in
   use afterwards; a copy has blocks of its own only, and the content of the original.
   */
  method Duplicate(mem: Memory, item: Node, recurse: bool) returns (copy: Option<Node>)
    requires mem.Valid()
    modifies mem
    ensures mem.Valid()
    ensures copy.None? ==> mem.live == old(mem.live)
    ensures copy.Some? ==> mem.live == old(mem.live) + Owned(copy.value) && !copy.value.reference
    ensures copy.Some? ==> ShapeOf(copy.value, true) == ShapeOf(item, recurse)
    decreases item
  {
    hide Owned, OwnedBy, Only, Memory.Valid, ShapesOf;
    ghost var rest := mem.live;
    var block := mem.Allocate();
    if block.None? {
      return None;
    }
    var node := Node(block.value, false, item.constKey, item.data, None, None, []);
    NewNode(node, rest);
    var ok, text := CopyText(mem, item.value);
    if !ok {
      OnlyNothing(mem.live, rest + Owned(node));
      Discard(mem, node, rest);
      return None;
    }
    node := AddValue(mem, node, text, rest);
    if item.constKey {
      WithKey(node, item.key, rest);
      node := node.(key := item.key);
    } else {
      ok, text := CopyText(mem, item.key);
      if !ok {
        OnlyNothing(mem.live, rest + Owned(node));
        Discard(mem, node, rest);
        return None;
      }
      WithKey(node, text, rest);
      node := node.(key := text);
    }
    if !recurse {
      NoShapes();
      return Some(node);
    }
    ok, node := CopyChildren(mem, node, item.children, rest);
    copy := if ok then Some(node) else None;
  }

  lemma OnlyNothing(live: Bag, before: Bag)
    requires live == before + Only(None)
    ensures live == before
  {
  }

  lemma NoShapes()
    ensures ShapesOf([]) == []
  {
  }

  /** The `fail` label: the node and everything that hangs on it. */
  method Discard(mem: Memory, node: Node, ghost rest: Bag)
    requires mem.Valid() && mem.live == rest + Owned(node)
    modifies mem`live
    ensures mem.Valid() && mem.live == rest
  {
    OwnedByOne(node);
    mem.Delete([node], rest);
  }

  /** `newitem->valuestring = copy`. */
  method AddValue(mem: Memory, node: Node, text: Option<Text>, ghost rest: Bag) returns (filled: Node)
    requires !node.reference && node.value == None && mem.live == (rest + Owned(node)) + Only(text)
    ensures filled == node.(value := text) && mem.live == rest + Owned(filled)
  {
    hide Owned;
    filled := node.(value := text);
    if text.Some? {
      WithValue(node, text.value, rest);
    }
  }

  /** The loop over the children; a failure deletes the node with the children copied so far. */
  method CopyChildren(mem: Memory, node: Node, items: seq<Node>, ghost rest: Bag) returns (ok: bool, filled: Node)
    requires mem.Valid() && mem.live == rest + Owned(node) && !node.reference && node.children == []
    modifies mem
    ensures mem.Valid()
    ensures !ok ==> mem.live == rest
    ensures ok ==> mem.live == rest + Owned(filled)
    ensures ok ==> filled == node.(children := filled.children) && ShapesOf(filled.children) == ShapesOf(items)
    decreases items
  {
    hide Owned, OwnedBy, Memory.Valid, ShapesOf, ShapeOf;
    filled := node;
    NoShapes();
    var i := 0;
    assert items[..0] == [];
    while i < |items|
      invariant 0 <= i <= |items| && mem.Valid()
      invariant mem.live == rest + Owned(filled)
      invariant filled == node.(children := filled.children)
      invariant ShapesOf(filled.children) == ShapesOf(items[..i])
    {
      var child := Duplicate(mem, items[i], true);
      if child.None? {
        Discard(mem, filled, rest);
        return false, filled;
      }
      WithChildren(filled, filled.children, [child.value], rest);
      OwnedByOne(child.value);
      ShapesAppend(filled.children, child.value);
      ShapesAppend(items[..i], items[i]);
      assert items[..i + 1] == items[..i] + [items[i]];
      filled := filled.(children := filled.children + [child.value]);
      i := i + 1;
    }
    assert items[..|items|] == items;
    ok := true;
  }

  lemma NoChildren(rest: Bag)
    ensures rest + OwnedBy([]) == rest
  {
  }

  lemma NodeParts(n: Node, rest: Bag, children: Bag, value: Bag, key: Bag)
    requires children == if n.reference then multiset{} else OwnedBy(n.children)
    requires value == if n.reference then multiset{} else Only(n.value)
    requires key == if n.constKey then multiset{} else Only(n.key)
    ensures rest + Owned(n) == rest + multiset{n.block} + key + value + children
    ensures n.reference ==> rest + multiset{n.block} + key + value + children == rest + multiset{n.block} + key
    ensures n.constKey ==> rest + multiset{n.block} + key == rest + multiset{n.block}
  {
    hide OwnedBy, Only;
    assert Owned(n) == multiset{n.block} + (value + children) + key;
    hide Owned;
  }

  lemma FirstOwned(nodes: seq<Node>, i: nat)
    requires i < |nodes|
    ensures OwnedBy(nodes[i..]) == Owned(nodes[i]) + OwnedBy(nodes[i + 1..])
  { }

  lemma NothingOwned(nodes: seq<Node>)
    ensures OwnedBy(nodes[|nodes|..]) == multiset{}
  {
  }
}
