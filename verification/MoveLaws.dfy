/**
 What RFC 6902's "add" makes of a document from which one member of an object has been taken,
 or another one, with keys compared byte by byte.
 */
module MoveLaws {
  import opened Options
  import opened CString
  import opened Json
  import opened Pointer
  import opened Rfc6902

  lemma Bytes(s: string)
    ensures Fold(s, true) == s
  {
  }

  lemma BytesAbove(from: seq<string>, path: seq<string>)
    ensures Above(from, path, true) <==> from < path
  {
    if from < path {
      forall i | 0 <= i < |from| ensures Fold(from[i], true) == Fold(path[i], true) { }
    }
    if Above(from, path, true) {
      forall i | 0 <= i < |from| ensures from[i] == path[i] { assert Fold(from[i], true) == Fold(path[i], true); }
    }
  }

  /** "add" further down, one token at a time. */
  lemma AddStep(v: Value, path: seq<string>, x: Value)
    requires |path| > 1
    ensures Add(v, path, x, true) ==
            var c := Child(v, path[0], true);
            if c.None? then None
            else
              var r := Add(c.value, path[1..], x, true);
              if r.None? then None else Some(SetChild(v, path[0], r.value, true))
  {
    hide Child, SetChild, AddChild;
    var front := DropLast(path);
    assert front[0] == path[0] && front[1..] == DropLast(path[1..]) && Last(path) == Last(path[1..]);
  }

  /** Overwriting one child leaves the others alone. */
  lemma ChildAfterSet(v: Value, f: string, x: Value, k: string)
    requires Child(v, f, true).Some?
    ensures Child(SetChild(v, f, x, true), k, true) == if k == f then Some(x) else Child(v, k, true)
  {
    if v.Arr? && RfcIndex(k) == RfcIndex(f) { RfcInjective(f, k); }
    hide RfcIndex;
  }

  lemma SetBelow(v: Value, front: seq<string>, x: Value)
    requires front != [] && Get(v, front, true).Some?
    ensures var c := Child(v, front[0], true);
            && c.Some? && Get(c.value, front[1..], true) == Get(v, front, true)
            && Set(v, front, x, true) == SetChild(v, front[0], Set(c.value, front[1..], x, true), true)
  {
    hide Child, SetChild;
  }

  /** "add" directly below a value works or not whatever one child is. */
  lemma AddBeside(v: Value, f: string, c: Value, k: string, x: Value)
    requires Child(v, f, true).Some?
    ensures Add(v, [k], x, true) == AddChild(v, k, x, true)
    ensures Add(SetChild(v, f, c, true), [k], x, true).Some? <==> Add(v, [k], x, true).Some?
  {
    assert DropLast([k]) == [] && Last([k]) == k;
    hide RfcIndex;
  }

  /**
   Taking a member away keeps "add" from working exactly where the path leads through it.
   */
  lemma {:induction false} AddWithout(
    v: Value, front: seq<string>, vm: map<string, Value>, key: string, path: seq<string>, x: Value)
    requires Get(v, front, true) == Some(Obj(vm)) && key in vm
    ensures Add(Set(v, front, Obj(vm - {key}), true), path, x, true).Some? <==>
            Add(v, path, x, true).Some? && !(front + [key] < path)
    decreases |front|
  {
    var less := Obj(vm - {key});
    if path == [] {
    } else if front == [] {
      WithoutAtRoot(vm, key, path, x);
      assert front + [key] == [key];
    } else {
      SetBelow(v, front, less);
      var c := Child(v, front[0], true).value;
      var below := Set(c, front[1..], less, true);
      hide *;
      if |path| == 1 {
        assert path == [path[0]];
        AddBeside(v, front[0], below, path[0], x);
      } else {
        AddStep(v, path, x);
        AddStep(SetChild(v, front[0], below, true), path, x);
        ChildAfterSet(v, front[0], below, path[0]);
        if path[0] == front[0] {
          AddWithout(c, front[1..], vm, key, path[1..], x);
          PrefixTail(front, key, path);
        } else {
          OtherStart(front, key, path);
        }
      }
    }
  }

  lemma PrefixTail(front: seq<string>, key: string, path: seq<string>)
    requires front != [] && path != [] && path[0] == front[0]
    ensures front + [key] < path <==> front[1..] + [key] < path[1..]
    ensures path <= front <==> path[1..] <= front[1..]
  {
    var from := front + [key];
    assert from[0] == path[0] && from[1..] == front[1..] + [key];
    assert from == [from[0]] + from[1..] && path == [path[0]] + path[1..] && front == [front[0]] + front[1..];
  }

  lemma OtherStart(front: seq<string>, key: string, path: seq<string>)
    requires front != [] && path != [] && path[0] != front[0]
    ensures !(front + [key] < path) && !(path <= front)
  {
    assert (front + [key])[0] == front[0];
  }

  lemma WithoutAtRoot(vm: map<string, Value>, key: string, path: seq<string>, x: Value)
    requires key in vm && path != []
    ensures Add(Obj(vm - {key}), path, x, true).Some? <==> Add(Obj(vm), path, x, true).Some? && !([key] < path)
  {
    if |path| == 1 {
      assert DropLast(path) == [];
    } else {
      AddStep(Obj(vm), path, x);
      AddStep(Obj(vm - {key}), path, x);
      Bytes(path[0]);
      assert [key] < path <==> path[0] == key;
      hide Add, Fold;
    }
  }

  // ---- Two members, one of them taken and put elsewhere ----

  /** The path ends at an object member that lies on the way to `front`. */
  predicate Covers(v: Value, path: seq<string>, front: seq<string>) {
    path == [] || (path <= front && var p := Get(v, DropLast(path), true); p.Some? && p.value.Obj?)
  }

  /**
   Taking one member of an object or another one, and adding a value each time: the results are
   the same only if the object is overwritten, and the values are the same.
   */
  lemma {:induction false} TwoMoves(
    v: Value, front: seq<string>, vm: map<string, Value>, a: string, b: string, path: seq<string>, x: Value, y: Value)
    requires Get(v, front, true) == Some(Obj(vm)) && a in vm && b in vm && a != b
    requires Add(Set(v, front, Obj(vm - {a}), true), path, x, true).Some?
    ensures Add(Set(v, front, Obj(vm - {b}), true), path, y, true) == Add(Set(v, front, Obj(vm - {a}), true), path, x, true) <==>
            Covers(v, path, front) && x == y
    decreases |front|
  {
    if path == [] {
    } else if front == [] {
      TwoAtRoot(vm, a, b, path, x, y);
    } else {
      SetBelow(v, front, Obj(vm - {a}));
      SetBelow(v, front, Obj(vm - {b}));
      var f, c := front[0], Child(v, front[0], true).value;
      TwoDiffer(c, front[1..], vm, a, b);
      hide *;
      var one, two := Set(c, front[1..], Obj(vm - {a}), true), Set(c, front[1..], Obj(vm - {b}), true);
      if |path| == 1 {
        assert path == [path[0]];
        TwoBeside(v, front, one, two, path[0], x, y);
      } else {
        AddStep(SetChild(v, f, one, true), path, x);
        AddStep(SetChild(v, f, two, true), path, y);
        ChildAfterSet(v, f, one, path[0]);
        ChildAfterSet(v, f, two, path[0]);
        if path[0] == f {
          TwoMoves(c, front[1..], vm, a, b, path[1..], x, y);
          CoversBelow(v, path, front);
          TwoThrough(v, f, one, two, Add(one, path[1..], x, true).value, Add(two, path[1..], y, true));
        } else {
          OtherStart(front, f, path);
          NotCovered(v, path, front);
          TwoApart(v, f, one, two, path[0], Add(Child(v, path[0], true).value, path[1..], x, true).value,
                   Add(Child(v, path[0], true).value, path[1..], y, true));
        }
      }
    }
  }

  lemma NotCovered(v: Value, path: seq<string>, front: seq<string>)
    requires path != [] && !(path <= front)
    ensures !Covers(v, path, front)
  {
  }

  lemma TwoDiffer(c: Value, rest: seq<string>, vm: map<string, Value>, a: string, b: string)
    requires Get(c, rest, true) == Some(Obj(vm)) && a in vm && a != b
    ensures Set(c, rest, Obj(vm - {a}), true) != Set(c, rest, Obj(vm - {b}), true)
  {
    GetSet(c, rest, Obj(vm - {a}), true);
    GetSet(c, rest, Obj(vm - {b}), true);
    assert a !in vm - {a} && a in vm - {b};
    hide Get, Set;
  }

  lemma TwoAtRoot(vm: map<string, Value>, a: string, b: string, path: seq<string>, x: Value, y: Value)
    requires a in vm && b in vm && a != b && path != [] && Add(Obj(vm - {a}), path, x, true).Some?
    ensures Add(Obj(vm - {b}), path, y, true) != Add(Obj(vm - {a}), path, x, true) && !Covers(Obj(vm), path, [])
  {
    assert !(path <= []);
    var one, two := Obj(vm - {a}), Obj(vm - {b});
    Bytes(path[0]);
    if |path| == 1 {
      var k := path[0];
      assert path == [k] && DropLast(path) == [] && Last(path) == k;
      assert Add(one, path, x, true) == Some(Obj((vm - {a})[k := x]));
      assert Add(two, path, y, true) == Some(Obj((vm - {b})[k := y]));
      assert k == a ==> b in (vm - {a})[k := x] && b !in (vm - {b})[k := y];
      assert k != a ==> a !in (vm - {a})[k := x] && a in (vm - {b})[k := y];
    } else {
      AddStep(one, path, x);
      AddStep(two, path, y);
      hide Add, Fold;
      var r, s := Add(one, path, x, true).value, Add(two, path, y, true);
      assert r.Obj? && a !in r.fields;
      assert s.Some? ==> s.value.Obj? && a in s.value.fields;
    }
  }

  /** Added next to the way to the object, or over it. */
  lemma TwoBeside(v: Value, front: seq<string>, one: Value, two: Value, k: string, x: Value, y: Value)
    requires front != [] && Child(v, front[0], true).Some? && one != two
    requires Add(SetChild(v, front[0], one, true), [k], x, true).Some?
    ensures Add(SetChild(v, front[0], two, true), [k], y, true) == Add(SetChild(v, front[0], one, true), [k], x, true) <==>
            Covers(v, [k], front) && x == y
  {
    var f := front[0];
    assert DropLast([k]) == [] && Last([k]) == k;
    assert [k] <= front <==> k == f;
    if v.Obj? {
      var fields := v.fields;
      if k == f {
        assert fields[f := one][f := x] == fields[f := x] && fields[f := two][f := y] == fields[f := y];
        assert fields[f := x][f] == x && fields[f := y][f] == y;
      } else {
        assert fields[f := one][k := x][f] == one && fields[f := two][k := y][f] == two;
      }
    } else {
      var i, j, es := RfcIndex(f).value, if k == "-" then |v.elements| else RfcIndex(k).value, v.elements;
      var at := if j <= i then i + 1 else i;
      var r, s := es[i := one][..j] + [x] + es[i := one][j..], es[i := two][..j] + [y] + es[i := two][j..];
      assert r[at] == one && s[at] == two;
      assert es[i := one] + [x] == es[i := one][..|es|] + [x] + es[i := one][|es|..];
      assert es[i := two] + [y] == es[i := two][..|es|] + [y] + es[i := two][|es|..];
    }
    hide RfcIndex;
  }

  lemma CoversBelow(v: Value, path: seq<string>, front: seq<string>)
    requires front != [] && |path| > 1 && path[0] == front[0] && Child(v, front[0], true).Some?
    ensures Covers(v, path, front) <==> Covers(Child(v, front[0], true).value, path[1..], front[1..])
  {
    PrefixTail(front, "", path);
    var rest := DropLast(path);
    assert rest[0] == path[0] && rest[1..] == DropLast(path[1..]);
    hide Child;
  }

  lemma TwoThrough(v: Value, f: string, one: Value, two: Value, r: Value, s: Option<Value>)
    requires Child(v, f, true).Some?
    ensures Child(SetChild(v, f, one, true), f, true).Some? && Child(SetChild(v, f, two, true), f, true).Some?
    ensures (s.Some? && SetChild(SetChild(v, f, two, true), f, s.value, true) == SetChild(SetChild(v, f, one, true), f, r, true)) <==>
            s == Some(r)
  {
    ChildAfterSet(v, f, one, f);
    ChildAfterSet(v, f, two, f);
    ChildAfterSet(SetChild(v, f, one, true), f, r, f);
    if s.Some? {
      ChildAfterSet(SetChild(v, f, two, true), f, s.value, f);
      SetChildTwice(v, f, one, r, true);
      SetChildTwice(v, f, two, s.value, true);
    }
    hide Child, SetChild;
  }

  lemma TwoApart(v: Value, f: string, one: Value, two: Value, k: string, r: Value, s: Option<Value>)
    requires Child(v, f, true).Some? && Child(v, k, true).Some? && k != f && one != two
    ensures Child(SetChild(v, f, one, true), k, true).Some? && Child(SetChild(v, f, two, true), k, true).Some?
    ensures s.Some? ==> SetChild(SetChild(v, f, two, true), k, s.value, true) != SetChild(SetChild(v, f, one, true), k, r, true)
  {
    ChildAfterSet(v, f, one, k);
    ChildAfterSet(v, f, two, k);
    ChildAfterSet(v, f, one, f);
    ChildAfterSet(v, f, two, f);
    ChildAfterSet(SetChild(v, f, one, true), k, r, f);
    if s.Some? { ChildAfterSet(SetChild(v, f, two, true), k, s.value, f); }
    hide Child, SetChild;
  }
}
