/**
 The operations of section 4 of RFC 6902 on views, where an object is a map and order
 (and, if folding, key case) is gone.  Array indices are those of section 4 of RFC 6901.
 */
module Rfc6902 {
  import opened Options
  import opened CString
  import opened Json
  import opened Pointer

  /** The child of a view that a token selects. */
  function Child(v: Value, token: string, caseSensitive: bool): Option<Value> {
    match v
    case Obj(fields) =>
      var k := Fold(token, caseSensitive);
      if k in fields then Some(fields[k]) else None
    case Arr(elements) =>
      var index := RfcIndex(token);
      if index.Some? && index.value < |elements| then Some(elements[index.value]) else None
    case Leaf(_) => None
  }

  function SetChild(v: Value, token: string, x: Value, caseSensitive: bool): Value
    requires Child(v, token, caseSensitive).Some?
  {
    match v
    case Obj(fields) => Obj(fields[Fold(token, caseSensitive) := x])
    case Arr(elements) => Arr(elements[RfcIndex(token).value := x])
  }

  function Get(v: Value, tokens: seq<string>, caseSensitive: bool): Option<Value>
    decreases |tokens|
  {
    if tokens == [] then Some(v)
    else
      var c := Child(v, tokens[0], caseSensitive);
      if c.None? then None else Get(c.value, tokens[1..], caseSensitive)
  }

  /** The view with the part at an existing location overwritten. */
  function Set(v: Value, tokens: seq<string>, x: Value, caseSensitive: bool): Value
    requires Get(v, tokens, caseSensitive).Some?
    decreases |tokens|
  {
    if tokens == [] then x
    else
      var c := Child(v, tokens[0], caseSensitive).value;
      SetChild(v, tokens[0], Set(c, tokens[1..], x, caseSensitive), caseSensitive)
  }

  /** "add" below an existing parent: insert or append in an array, put in an object. */
  function AddChild(v: Value, token: string, x: Value, caseSensitive: bool): Option<Value> {
    match v
    case Obj(fields) => Some(Obj(fields[Fold(token, caseSensitive) := x]))
    case Arr(elements) =>
      if token == "-" then Some(Arr(elements + [x]))
      else
        var index := RfcIndex(token);
        if index.Some? && index.value <= |elements| then
          Some(Arr(elements[..index.value] + [x] + elements[index.value..]))
        else None
    case Leaf(_) => None
  }

  function RemoveChild(v: Value, token: string, caseSensitive: bool): Option<Value> {
    if Child(v, token, caseSensitive).None? then None
    else
      match v
      case Obj(fields) => Some(Obj(fields - {Fold(token, caseSensitive)}))
      case Arr(elements) =>
        var i := RfcIndex(token).value;
        Some(Arr(elements[..i] + elements[i + 1..]))
  }

  function DropLast(tokens: seq<string>): seq<string>
    requires tokens != []
  {
    tokens[..|tokens| - 1]
  }

  function Last(tokens: seq<string>): string
    requires tokens != []
  {
    tokens[|tokens| - 1]
  }

  function Add(v: Value, tokens: seq<string>, x: Value, caseSensitive: bool): Option<Value> {
    if tokens == [] then Some(x)
    else
      var parent := Get(v, DropLast(tokens), caseSensitive);
      if parent.None? then None
      else
        var edited := AddChild(parent.value, Last(tokens), x, caseSensitive);
        if edited.None? then None else Some(Set(v, DropLast(tokens), edited.value, caseSensitive))
  }

  function Remove(v: Value, tokens: seq<string>, caseSensitive: bool): Option<Value>
    requires tokens != []
  {
    var parent := Get(v, DropLast(tokens), caseSensitive);
    if parent.None? then None
    else
      var edited := RemoveChild(parent.value, Last(tokens), caseSensitive);
      if edited.None? then None else Some(Set(v, DropLast(tokens), edited.value, caseSensitive))
  }

  /** Operations; the value that "add", "replace" and "test" carry is itself a view. */
  datatype Operation =
    | OpAdd(path: seq<string>, value: Value)
    | OpRemove(path: seq<string>)
    | OpReplace(path: seq<string>, value: Value)
    | OpMove(path: seq<string>, from: seq<string>)
    | OpCopy(path: seq<string>, from: seq<string>)
    | OpTest(path: seq<string>, value: Value)

  /** There is no document without a root. */
  predicate Meaningful(op: Operation) {
    op.OpRemove? ==> op.path != []
  }

  /** Section 4.4: "from" must not be a proper prefix of "path"; nothing moves into its own child. */
  predicate Above(from: seq<string>, path: seq<string>, caseSensitive: bool) {
    |from| < |path| && forall i | 0 <= i < |from| :: Fold(from[i], caseSensitive) == Fold(path[i], caseSensitive)
  }

  /** Equality as section 4.6 defines it for "test": numbers are equal if their values are. */
  predicate Same(v: Value, w: Value) {
    match v
    case Leaf(a) => w.Leaf? && if a.Number? && w.json.Number? then a.valuedouble == w.json.valuedouble else a == w.json
    case Arr(a) => w.Arr? && |a| == |w.elements| && forall i | 0 <= i < |a| :: Same(a[i], w.elements[i])
    case Obj(a) => w.Obj? && a.Keys == w.fields.Keys && forall k | k in a :: Same(a[k], w.fields[k])
  }

  /** None is failure of the operation. */
  function Perform(v: Value, op: Operation, caseSensitive: bool): Option<Value>
    requires Meaningful(op)
  {
    match op
    case OpAdd(path, x) => Add(v, path, x, caseSensitive)
    case OpRemove(path) => Remove(v, path, caseSensitive)
    case OpReplace(path, x) =>
      if path == [] then Some(x)
      else
        var removed := Remove(v, path, caseSensitive);
        if removed.None? then None else Add(removed.value, path, x, caseSensitive)
    case OpMove(path, from) =>
      if Above(from, path, caseSensitive) then None
      else if from == [] then Some(v) // then "path" is the root too
      else
        var moved, removed := Get(v, from, caseSensitive), Remove(v, from, caseSensitive);
        if moved.None? || removed.None? then None else Add(removed.value, path, moved.value, caseSensitive)
    case OpCopy(path, from) =>
      var copied := Get(v, from, caseSensitive);
      if copied.None? then None else Add(v, path, copied.value, caseSensitive)
    case OpTest(path, x) =>
      var found := Get(v, path, caseSensitive);
      if found.Some? && Same(found.value, x) then Some(v) else None
  }

  // ---- Get and Set obey the laws of a lens ----

  lemma {:induction false} GetSet(v: Value, tokens: seq<string>, x: Value, caseSensitive: bool)
    requires Get(v, tokens, caseSensitive).Some?
    ensures Get(Set(v, tokens, x, caseSensitive), tokens, caseSensitive) == Some(x)
    decreases |tokens|
  {
    if tokens != [] {
      GetSet(Child(v, tokens[0], caseSensitive).value, tokens[1..], x, caseSensitive);
    }
  }

  lemma SetChildTwice(v: Value, t: string, x: Value, y: Value, caseSensitive: bool)
    requires Child(v, t, caseSensitive).Some?
    ensures var once := SetChild(v, t, x, caseSensitive);
            && Child(once, t, caseSensitive) == Some(x)
            && SetChild(once, t, y, caseSensitive) == SetChild(v, t, y, caseSensitive)
  {
  }

  lemma {:induction false} SetSet(v: Value, tokens: seq<string>, x: Value, y: Value, caseSensitive: bool)
    requires Get(v, tokens, caseSensitive).Some?
    ensures Get(Set(v, tokens, x, caseSensitive), tokens, caseSensitive).Some?
    ensures Set(Set(v, tokens, x, caseSensitive), tokens, y, caseSensitive) == Set(v, tokens, y, caseSensitive)
    decreases |tokens|
  {
    GetSet(v, tokens, x, caseSensitive);
    if tokens != [] {
      var c, rest := Child(v, tokens[0], caseSensitive).value, tokens[1..];
      SetSet(c, rest, x, y, caseSensitive);
      SetChildTwice(v, tokens[0], Set(c, rest, x, caseSensitive), Set(c, rest, y, caseSensitive), caseSensitive);
      hide Child, SetChild;
    }
  }

  lemma {:induction false} SetGet(v: Value, tokens: seq<string>, caseSensitive: bool)
    requires Get(v, tokens, caseSensitive).Some?
    ensures Set(v, tokens, Get(v, tokens, caseSensitive).value, caseSensitive) == v
    decreases |tokens|
  {
    if tokens != [] {
      SetGet(Child(v, tokens[0], caseSensitive).value, tokens[1..], caseSensitive);
    }
  }

  lemma {:induction false} GetAppend(v: Value, tokens: seq<string>, t: string, caseSensitive: bool)
    ensures Get(v, tokens + [t], caseSensitive) ==
            var parent := Get(v, tokens, caseSensitive);
            if parent.None? then None else Child(parent.value, t, caseSensitive)
    decreases |tokens|
  {
    if tokens == [] {
      assert tokens + [t] == [t];
    } else {
      assert (tokens + [t])[1..] == tokens[1..] + [t];
      var c := Child(v, tokens[0], caseSensitive);
      if c.Some? { GetAppend(c.value, tokens[1..], t, caseSensitive); }
    }
  }

  lemma {:induction false} SetAppend(v: Value, tokens: seq<string>, t: string, x: Value, caseSensitive: bool)
    requires Get(v, tokens + [t], caseSensitive).Some?
    ensures Get(v, tokens, caseSensitive).Some?
    ensures Child(Get(v, tokens, caseSensitive).value, t, caseSensitive).Some?
    ensures Set(v, tokens + [t], x, caseSensitive) ==
            Set(v, tokens, SetChild(Get(v, tokens, caseSensitive).value, t, x, caseSensitive), caseSensitive)
    decreases |tokens|
  {
    GetAppend(v, tokens, t, caseSensitive);
    if tokens == [] {
      assert tokens + [t] == [t];
    } else {
      assert (tokens + [t])[1..] == tokens[1..] + [t];
      SetAppend(Child(v, tokens[0], caseSensitive).value, tokens[1..], t, x, caseSensitive);
    }
  }
}
