/**
 How `apply_patch` fails: the status code of every malformed patch, the one of every operation
 that RFC 6902 refuses, and what the document is afterwards.
 */
module PatchFaults {
  import opened Options
  import opened CString
  import opened Json
  import opened Pointer
  import opened Rfc6902
  import opened Compare
  import opened Patch
  import opened Links
  import opened LinkedPatch
  import opened PointerText

  // ---- Malformed patches ----

  /** The text of a field, if the patch has it and it is a string. */
  function TextOf(patch: Json, name: string, caseSensitive: bool): Option<string> {
    var f := Field(patch, name, caseSensitive);
    if f.Some? && f.value.String? then Some(f.value.text) else None
  }

  predicate Known(op: string) {
    op == "remove" || TakesValue(op) || TakesFrom(op)
  }

  predicate TakesValue(op: string) {
    op == "add" || op == "replace" || op == "test"
  }

  predicate TakesFrom(op: string) {
    op == "move" || op == "copy"
  }

  /** Everything that section 4 of RFC 6902 demands to be in a patch, with members of the right kind. */
  predicate Complete(patch: Json, caseSensitive: bool) {
    var op := TextOf(patch, "op", caseSensitive);
    && TextOf(patch, "path", caseSensitive).Some?
    && op.Some? && Known(op.value)
    && (TakesValue(op.value) ==> Field(patch, "value", caseSensitive).Some?)
    && (TakesFrom(op.value) ==> TextOf(patch, "from", caseSensitive).Some?)
  }

  lemma OpcodeOf(patch: Json, caseSensitive: bool)
    ensures var op := TextOf(patch, "op", caseSensitive);
            DecodeOperation(patch, caseSensitive) ==
            if op == Some("add") then ADD else if op == Some("remove") then REMOVE else if op == Some("replace") then REPLACE
            else if op == Some("move") then MOVE else if op == Some("copy") then COPY else if op == Some("test") then TEST
            else INVALID
  {
    hide Field;
  }

  lemma ActsOn(document: Json, patch: Json, caseSensitive: bool)
    ensures var path := TextOf(patch, "path", caseSensitive);
            ApplyPatch(document, patch, caseSensitive) ==
            if path.None? then Applied(2, document)
            else Act(document, DecodeOperation(patch, caseSensitive), path.value,
                     Field(patch, "value", caseSensitive), Field(patch, "from", caseSensitive), caseSensitive)
  {
    hide Field, DecodeOperation, Act;
  }

  lemma ActsOnTree(document: Tree, patch: Json, caseSensitive: bool, exact: bool)
    ensures var path := TextOf(patch, "path", caseSensitive);
            ApplyTree(document, patch, caseSensitive, exact) ==
            if path.None? then Ran(2, document)
            else ActTree(document, DecodeOperation(patch, caseSensitive), path.value,
                         Field(patch, "value", caseSensitive), Field(patch, "from", caseSensitive), caseSensitive, exact)
  {
    hide Field, DecodeOperation, ActTree;
  }

  /** The status of every patch that is not complete, in the order in which it is looked at. */
  ghost function FaultOf(patch: Json, caseSensitive: bool, removes: bool): int {
    var op := TextOf(patch, "op", caseSensitive);
    if TextOf(patch, "path", caseSensitive).None? then 2
    else if op.None? || !Known(op.value) then 3
    else if op.value == "test" then 1
    else if op.value == "replace" && removes then 13
    else if TakesValue(op.value) then 7
    else if Field(patch, "from", caseSensitive).None? then 4
    else 5
  }

  /** "replace" has found nothing to remove before it looks for the new value. */
  predicate NothingThere(document: Json, patch: Json, caseSensitive: bool) {
    var path := TextOf(patch, "path", caseSensitive);
    path.Some? && path.value != "" && Detach(document, path.value, caseSensitive).None?
  }

  /** What is missing for an operation code. */
  lemma ActFaults(
    document: Json, opcode: Opcode, pointer: string, value: Option<Json>, from: Option<Json>, caseSensitive: bool)
    ensures var a, d := Act(document, opcode, pointer, value, from, caseSensitive), Detach(document, pointer, caseSensitive);
            && (opcode == INVALID ==> a == Applied(3, document))
            && (opcode == TEST && value.None? ==> a == Applied(1, document))
            && (opcode == ADD && value.None? ==> a == Applied(7, document))
            && (opcode == REPLACE && value.None? ==>
                  a == if pointer == "" then Applied(7, document)
                       else if d.None? then Applied(13, document) else Applied(7, d.value.document))
            && ((opcode == MOVE || opcode == COPY) && from.None? ==> a == Applied(4, document))
            && ((opcode == MOVE || opcode == COPY) && from.Some? && !from.value.String? ==> a == Applied(5, document))
  {
    hide Detach, AddAt, Resolve, CompareJson;
  }

  /** Which part is missing, by operation code. */
  lemma FaultKinds(patch: Json, caseSensitive: bool, removes: bool)
    requires !Complete(patch, caseSensitive) && TextOf(patch, "path", caseSensitive).Some?
    ensures var fault, opcode := FaultOf(patch, caseSensitive, removes), DecodeOperation(patch, caseSensitive);
            var value, from := Field(patch, "value", caseSensitive), Field(patch, "from", caseSensitive);
            && (opcode == REPLACE <==> TextOf(patch, "op", caseSensitive) == Some("replace"))
            && match opcode
               case INVALID => fault == 3
               case TEST => value.None? && fault == 1
               case ADD => value.None? && fault == 7
               case REPLACE => value.None? && fault == if removes then 13 else 7
               case REMOVE => false
               case _ => if from.None? then fault == 4 else !from.value.String? && fault == 5
  {
    OpcodeOf(patch, caseSensitive);
    hide DecodeOperation;
    var op := TextOf(patch, "op", caseSensitive);
    var path, from := TextOf(patch, "path", caseSensitive), TextOf(patch, "from", caseSensitive);
    assert from.None? ==> var f := Field(patch, "from", caseSensitive); f.None? || !f.value.String?;
    hide TextOf, Field;
    if op.Some? {
      assert op.value == "move" || op.value == "copy" ==> !TakesValue(op.value);
    }
  }

  lemma NoPath(document: Json, patch: Json, caseSensitive: bool, removes: bool)
    requires TextOf(patch, "path", caseSensitive).None?
    ensures FaultOf(patch, caseSensitive, removes) == 2 && !NothingThere(document, patch, caseSensitive)
  {
    hide TextOf;
  }

  /** A patch that is not complete fails, and leaves the document, or what "replace" has left of it. */
  lemma Malformed(document: Json, patch: Json, caseSensitive: bool)
    requires !Complete(patch, caseSensitive)
    ensures var a, path := ApplyPatch(document, patch, caseSensitive), TextOf(patch, "path", caseSensitive);
            && a.status == FaultOf(patch, caseSensitive, NothingThere(document, patch, caseSensitive)) != 0
            && (if a.status == 7 && TextOf(patch, "op", caseSensitive) == Some("replace") && path.value != "" then
                  Detach(document, path.value, caseSensitive).Some? &&
                  a.document == Detach(document, path.value, caseSensitive).value.document
                else a.document == document)
  {
    ActsOn(document, patch, caseSensitive);
    var path := TextOf(patch, "path", caseSensitive);
    hide ApplyPatch, DecodeOperation, Field, Detach, Act, FaultOf, Complete, TextOf;
    if path.Some? {
      FaultKinds(patch, caseSensitive, NothingThere(document, patch, caseSensitive));
      ActFaults(document, DecodeOperation(patch, caseSensitive), path.value,
                Field(patch, "value", caseSensitive), Field(patch, "from", caseSensitive), caseSensitive);
    } else {
      NoPath(document, patch, caseSensitive, false);
    }
  }

  lemma TreeActFaults(
    document: Tree, opcode: Opcode, pointer: string, value: Option<Json>, from: Option<Json>, caseSensitive: bool, exact: bool)
    ensures var o := ActTree(document, opcode, pointer, value, from, caseSensitive, exact);
            && (opcode == INVALID ==> o == Ran(3, document))
            && (opcode == TEST && value.None? ==> o == Ran(1, document))
            && (opcode == ADD && value.None? ==> o == Ran(7, document))
            && ((opcode == MOVE || opcode == COPY) && from.None? ==> o == Ran(4, document))
            && ((opcode == MOVE || opcode == COPY) && from.Some? && !from.value.String? ==> o == Ran(5, document))
  {
    hide Take, PlaceAt, Resolve, CompareTree, TakeAway;
  }

  /** On trees with their links nothing is touched, unless a "replace" has taken its member away. */
  lemma TreeMalformed(document: Tree, patch: Json, caseSensitive: bool, exact: bool)
    requires !Complete(patch, caseSensitive)
    ensures var o := ApplyTree(document, patch, caseSensitive, exact);
            var fault := FaultOf(patch, caseSensitive, NothingThere(Content(document), patch, caseSensitive));
            if TextOf(patch, "path", caseSensitive).Some? && TextOf(patch, "op", caseSensitive) == Some("replace") then
              o.Ran? ==> o.status == fault
            else o == Ran(fault, document)
  {
    ActsOnTree(document, patch, caseSensitive, exact);
    var path := TextOf(patch, "path", caseSensitive);
    var removes := NothingThere(Content(document), patch, caseSensitive);
    hide ApplyTree, DecodeOperation, Field, ActTree, FaultOf, Complete, TextOf, NothingThere;
    if path.Some? {
      FaultKinds(patch, caseSensitive, removes);
      TreeActFaults(document, DecodeOperation(patch, caseSensitive), path.value,
                    Field(patch, "value", caseSensitive), Field(patch, "from", caseSensitive), caseSensitive, exact);
      ApplyContent(document, patch, caseSensitive, exact);
      Malformed(Content(document), patch, caseSensitive);
    } else {
      NoPath(Content(document), patch, caseSensitive, removes);
    }
  }

  /** Every patch that succeeds is complete. */
  lemma SuccessIsComplete(document: Json, patch: Json, caseSensitive: bool)
    requires ApplyPatch(document, patch, caseSensitive).status == 0
    ensures Complete(patch, caseSensitive)
  {
    hide ApplyPatch, Complete, FaultOf, NothingThere;
    if !Complete(patch, caseSensitive) { Malformed(document, patch, caseSensitive); }
  }

  /** The patches that ask for a request are those that are complete and have legal pointers. */
  lemma AskingIsComplete(patch: Json, r: Request, caseSensitive: bool)
    requires Asks(patch, r, caseSensitive)
    ensures Complete(patch, caseSensitive)
  {
    hide Field, PathText;
  }

  // ---- Operations that fail ----

  /** Why nothing can be added at a path: no container, no index, or one too far. */
  ghost function AddFault(v: Value, path: seq<string>, caseSensitive: bool): int
    requires path != []
  {
    var parent := Get(v, DropLast(path), caseSensitive);
    if parent.None? || !parent.value.Arr? then 9
    else if RfcIndex(Last(path)).None? then 11
    else 10
  }

  lemma AddFails(document: Json, path: seq<string>, x: Json, caseSensitive: bool)
    requires Distinct(document, caseSensitive) && path != [] && Writable(path)
    requires Proper(View(document, caseSensitive), path, caseSensitive)
    ensures var r := AddAt(document, PathText(path), x, caseSensitive);
            r.status != 0 ==> r == Applied(AddFault(View(document, caseSensitive), path, caseSensitive), document)
  {
    hide Distinct, View, Resolve, Put, AddAt, At, Get, PathText, Encode, Proper, Indexable, DecodesBack, RightIndex, AddToParent;
    var v, front, t := View(document, caseSensitive), DropLast(path), Last(path);
    ParentRefines(document, path, caseSensitive);
    AddAtParent(document, path, x, caseSensitive);
    var at := Resolve(document, PathText(front), caseSensitive);
    if at.Some? {
      ArrayView(At(document, at.value), caseSensitive);
      AddRefused(At(document, at.value), t, x, caseSensitive);
    }
  }

  lemma AddRefused(parent: Json, name: string, x: Json, caseSensitive: bool)
    requires DecodesBack(name) && (parent.Array? ==> RightIndex(Encode(name)))
    ensures var r := AddToParent(parent, name, x, caseSensitive);
            r.Refused? ==>
              !parent.Object? &&
              r.status == if !parent.Array? then 9 else if RfcIndex(name).None? then 11 else 10
  {
    if parent.Array? {
      TokenOfAll(name);
      EncodedIndex(name);
      DecodeIndexRight(name);
    }
    hide Token, Encode, RfcIndex, DecodeIndex, FindMember;
  }

  /** The status of a request that fails by the RFC, or that leads onto the root. */
  ghost function FailureOf(v: Value, r: Request, caseSensitive: bool): int
    requires Sound(r, caseSensitive)
  {
    match r
    case DoAdd(path, _) => if path == [] then 0 else AddFault(v, path, caseSensitive)
    case DoRemove(_) => 13
    case DoReplace(_, _) => 13
    case DoMove(path, from) =>
      if from == [] || Get(v, from, caseSensitive).None? then 5
      else if path == [] then 9
      else
        var w := Remove(v, from, caseSensitive);
        if w.None? then 5 else AddFault(w.value, path, caseSensitive)
    case DoCopy(path, from) =>
      if Get(v, from, caseSensitive).None? then 5 else if path == [] then 9 else AddFault(v, path, caseSensitive)
    case DoTest(_, _) => 1
  }

  /** What a failure leaves: only "move" has taken something away. */
  ghost function LeftOf(v: Value, r: Request, caseSensitive: bool): Value {
    if r.DoMove? && r.from != [] && Remove(v, r.from, caseSensitive).Some? then Remove(v, r.from, caseSensitive).value else v
  }

  /**
   A proper request that fails does so with the code that says why, and changes nothing, but
   that a "move" has lost what it took.
   */
  lemma FailsWith(document: Json, patch: Json, r: Request, caseSensitive: bool)
    requires Sound(r, caseSensitive) && Applicable(document, r, caseSensitive) && Asks(patch, r, caseSensitive)
    requires ProperRequest(View(document, caseSensitive), r, caseSensitive)
    requires r.DoMove? ==> FindsSame(document, r.from, caseSensitive)
    ensures var a, v := ApplyPatch(document, patch, caseSensitive), View(document, caseSensitive);
            a.status != 0 ==>
              a.status == FailureOf(v, r, caseSensitive) && Means(a.document, LeftOf(v, r, caseSensitive), caseSensitive)
  {
    Dispatch(document, patch, r, caseSensitive);
    hide ApplyPatch, Asks, Distinct, Detach, AddAt, PathText, ApplyFrom, ApplyTest, Writable, RawFree, Consistent, Get, Remove;
    hide View, Resolve, Proper, Indexable, FindsSame, Above, AddFault;
    match r
    case DoAdd(path, x) => if path != [] { AddFails(document, path, x, caseSensitive); }
    case DoRemove(path) =>
    case DoReplace(path, x) => if path != [] { ReplaceFails(document, path, x, caseSensitive); }
    case DoMove(path, from) => MoveFails(document, path, from, caseSensitive);
    case DoCopy(path, from) => CopyFails(document, path, from, caseSensitive);
    case DoTest(path, x) => TestFails(document, path, x, caseSensitive);
  }

  /** What was there can be put back. */
  lemma ReplaceFails(document: Json, path: seq<string>, x: Json, caseSensitive: bool)
    requires Sound(DoReplace(path, x), caseSensitive) && Applicable(document, DoReplace(path, x), caseSensitive) && path != []
    requires Proper(View(document, caseSensitive), path, caseSensitive)
    ensures var d := Detach(document, PathText(path), caseSensitive);
            d.Some? ==> AddAt(d.value.document, PathText(path), x, caseSensitive).status == 0
  {
    hide Distinct, View, PathText, Proper, Indexable, Resolve, Put, At, Writable, Detach, AddAt;
    DetachAtParent(document, path, caseSensitive);
    var front, t := DropLast(path), Last(path);
    var at := Resolve(document, PathText(front), caseSensitive);
    if at.Some? && DetachChild(At(document, at.value), t).Some? {
      var d := DetachChild(At(document, at.value), t).value;
      DetachedKind(At(document, at.value), t, x, caseSensitive);
      ResolvesAfter(document, front, at.value, d.document, caseSensitive);
      AddAtParent(Put(document, at.value, d.document), path, x, caseSensitive);
    }
  }

  lemma DetachedKind(parent: Json, name: string, x: Json, caseSensitive: bool)
    ensures var d := DetachChild(parent, name);
            d.Some? ==> AddToParent(d.value.document, name, x, caseSensitive).Accepted?
  {
    hide DecodeIndex, Token, FindMember;
  }

  /** The way to a node does not depend on what is there. */
  lemma {:induction false} ResolvesAfter(document: Json, path: seq<string>, at: Position, x: Json, caseSensitive: bool)
    requires Resolve(document, PathText(path), caseSensitive) == Some(at)
    ensures Exists(Put(document, at, x), at) && At(Put(document, at, x), at) == x
    ensures Resolve(Put(document, at, x), PathText(path), caseSensitive) == Some(at)
    decreases |path|
  {
    hide PathText, Encode;
    if path == [] {
      TextEmpty(path);
    } else {
      ResolveText(document, path, caseSensitive);
      var i := at[0];
      var below := Put(ChildAt(document, i), at[1..], x);
      ResolvesAfter(ChildAt(document, i), path[1..], at[1..], x, caseSensitive);
      StepAfter(document, Encode(path[0]), below, caseSensitive);
      ResolveText(Put(document, at, x), path, caseSensitive);
    }
  }

  lemma StepAfter(j: Json, token: string, x: Json, caseSensitive: bool)
    requires Step(j, token, caseSensitive).Some?
    ensures var i := Step(j, token, caseSensitive).value;
            var k := WithChild(j, i, x);
            Step(k, token, caseSensitive) == Some(i) && i < ChildCount(k) && ChildAt(k, i) == x
  {
    hide DecodeIndex;
    if j.Object? {
      var i := Step(j, token, caseSensitive).value;
      NamedAfter(j.members, token, i, x, caseSensitive);
    }
  }

  lemma {:induction false} NamedAfter(ms: seq<Member<Json>>, token: string, i: nat, x: Json, caseSensitive: bool)
    requires i < |ms|
    ensures FindNamed(ms[i := Member(ms[i].key, x)], token, caseSensitive) == FindNamed(ms, token, caseSensitive)
    decreases |ms|
  {
    hide Pointer.Names;
    var after := ms[i := Member(ms[i].key, x)];
    if i > 0 {
      assert after[1..] == ms[1..][i - 1 := Member(ms[1..][i - 1].key, x)];
      NamedAfter(ms[1..], token, i - 1, x, caseSensitive);
    } else {
      assert after[1..] == ms[1..];
    }
  }

  lemma MoveFails(document: Json, path: seq<string>, from: seq<string>, caseSensitive: bool)
    requires Sound(DoMove(path, from), caseSensitive) && Applicable(document, DoMove(path, from), caseSensitive)
    requires ProperRequest(View(document, caseSensitive), DoMove(path, from), caseSensitive)
    requires FindsSame(document, from, caseSensitive)
    ensures var a := ApplyFrom(document, PathText(path), Some(String(PathText(from))), true, caseSensitive);
            var r, v := DoMove(path, from), View(document, caseSensitive);
            a.status != 0 ==>
              a.status == FailureOf(v, r, caseSensitive) && Means(a.document, LeftOf(v, r, caseSensitive), caseSensitive)
  {
    hide Distinct, View, Detach, AddAt, PathText, Get, Remove, Proper, Above, Indexable, DecodesBack, FindsSame, Fold, AddFault;
    NoSlashAtRoot();
    NoDetach(document, caseSensitive);
    if from != [] {
      DetachRefines(document, from, caseSensitive);
      RemoveFound(View(document, caseSensitive), from, caseSensitive);
      var d := Detach(document, PathText(from), caseSensitive);
      if d.Some? {
        if path == [] {
          NothingAdded(d.value.document, d.value.item, caseSensitive);
        } else {
          AddFails(d.value.document, path, d.value.item, caseSensitive);
        }
      }
    }
  }

  lemma NothingAdded(document: Json, x: Json, caseSensitive: bool)
    ensures AddAt(document, "", x, caseSensitive) == Applied(9, document)
  {
  }

  lemma CopyFails(document: Json, path: seq<string>, from: seq<string>, caseSensitive: bool)
    requires Sound(DoCopy(path, from), caseSensitive) && Applicable(document, DoCopy(path, from), caseSensitive)
    requires ProperRequest(View(document, caseSensitive), DoCopy(path, from), caseSensitive)
    ensures var a := ApplyFrom(document, PathText(path), Some(String(PathText(from))), false, caseSensitive);
            var v := View(document, caseSensitive);
            a.status != 0 ==> a == Applied(FailureOf(v, DoCopy(path, from), caseSensitive), document)
  {
    hide Distinct, View, Resolve, At, AddAt, PathText, Get, Proper, Exists, Indexable, DecodesBack, AddFault;
    NoSlashAtRoot();
    ResolveRefines(document, from, caseSensitive);
    var at := Resolve(document, PathText(from), caseSensitive);
    if at.Some? {
      if path == [] {
        NothingAdded(document, At(document, at.value), caseSensitive);
      } else {
        AddFails(document, path, At(document, at.value), caseSensitive);
      }
    }
  }

  lemma TestFails(document: Json, path: seq<string>, x: Json, caseSensitive: bool)
    requires Sound(DoTest(path, x), caseSensitive) && Applicable(document, DoTest(path, x), caseSensitive)
    requires Proper(View(document, caseSensitive), path, caseSensitive)
    ensures var a := ApplyTest(document, PathText(path), Some(x), caseSensitive);
            a.status != 0 ==> a.status == 1 && Means(a.document, View(document, caseSensitive), caseSensitive)
  {
    TestRefines(document, path, x, caseSensitive);
    hide View, Distinct, CompareJson, Resolve, PathText, Found, Passes, TestAligned, Proper, Perform;
  }

  // ---- Runs ----

  /** A run goes on behind operations that succeed, and ends at the first one that fails. */
  lemma {:induction false} RunJoins(document: Json, ps: seq<Json>, qs: seq<Json>, caseSensitive: bool)
    ensures var a := ApplyAll(document, ps, caseSensitive);
            ApplyAll(document, ps + qs, caseSensitive) == if a.status == 0 then ApplyAll(a.document, qs, caseSensitive) else a
    decreases |ps|
  {
    hide ApplyPatch;
    if ps == [] {
      assert ps + qs == qs;
    } else {
      assert (ps + qs)[1..] == ps[1..] + qs;
      var a := ApplyPatch(document, ps[0], caseSensitive);
      if a.status == 0 { RunJoins(a.document, ps[1..], qs, caseSensitive); }
    }
  }

  lemma RunOne(document: Json, p: Json, caseSensitive: bool)
    ensures ApplyAll(document, [p], caseSensitive) == ApplyPatch(document, p, caseSensitive)
    ensures ApplyAll(document, [], caseSensitive) == Applied(0, document)
  {
    hide ApplyPatch;
    assert [p][1..] == [];
  }

  /** The status of a run is that of its first operation that fails, and later ones have no effect. */
  lemma FirstFailureCounts(document: Json, ps: seq<Json>, p: Json, qs: seq<Json>, caseSensitive: bool)
    requires ApplyAll(document, ps, caseSensitive).status == 0
    ensures var a := ApplyPatch(ApplyAll(document, ps, caseSensitive).document, p, caseSensitive);
            a.status != 0 ==> ApplyPatches(document, Array(ps + [p] + qs), caseSensitive) == a
    ensures !Array(ps).Object? && forall j: Json | !j.Array? :: ApplyPatches(document, j, caseSensitive) == Applied(1, document)
  {
    var d := ApplyAll(document, ps, caseSensitive).document;
    RunOne(d, p, caseSensitive);
    RunJoins(document, ps, [p], caseSensitive);
    RunJoins(document, ps + [p], qs, caseSensitive);
    hide ApplyAll, ApplyPatch;
  }

  // ---- A patch that nobody asks for ----

  function StrayPatch(x: Json): Json {
    Object([Member("op", String("add")), Member("path", String("x/a")), Member("value", x)])
  }

  lemma StrayFields(x: Json, caseSensitive: bool)
    ensures var patch := StrayPatch(x);
            && Field(patch, "op", caseSensitive) == Some(String("add"))
            && Field(patch, "path", caseSensitive) == Some(String("x/a"))
            && Field(patch, "value", caseSensitive) == Some(x)
  {
    var ms := [Member("op", String("add")), Member("path", String("x/a")), Member("value", x)];
    assert Fold("op", caseSensitive)[0] == 'o' && Fold("path", caseSensitive)[0] == 'p' && Fold("value", caseSensitive)[0] == 'v';
    hide Fold;
    FindByFirstLetter(ms, "op", 0, caseSensitive);
    FindByFirstLetter(ms, "path", 1, caseSensitive);
    FindByFirstLetter(ms, "value", 2, caseSensitive);
  }

  lemma StrayPlaced(x: Json, caseSensitive: bool)
    ensures AddAt(Object([]), "x/a", x, caseSensitive) == Applied(0, Object([Member("a", x)]))
  {
    var text, document := "x/a", Object([]);
    LastSlashOf("x", "a");
    assert "x" + "/" + "a" == text && text[..1] == "x" && text[2..] == "a";
    StrayResolves(document, "x", caseSensitive);
    EncodePlain("a");
    DecodeInverts("a");
    assert At(document, []) == document && forall j :: Put(document, [], j) == j;
    assert [] + [Member("a", x)] == [Member("a", x)];
    hide LastSlash, Resolve, Decode, Encode, Put;
  }

  lemma StrayActs(x: Json, caseSensitive: bool)
    ensures ApplyPatch(Object([]), StrayPatch(x), caseSensitive) == AddAt(Object([]), "x/a", x, caseSensitive)
  {
    StrayFields(x, caseSensitive);
    ActsOn(Object([]), StrayPatch(x), caseSensitive);
    OpcodeOf(StrayPatch(x), caseSensitive);
    hide Field, AddAt, StrayPatch, ApplyPatch, DecodeOperation;
  }

  lemma NobodyAsks(x: Json, r: Request, caseSensitive: bool)
    ensures !Asks(StrayPatch(x), r, caseSensitive)
  {
    StrayFields(x, caseSensitive);
    NotRead("x/a");
    LegalText("x/a", r.path);
    hide PathText, Field, ReadPointer, StrayPatch;
  }

  /**
   "add" with a path that is no pointer succeeds all the same: that nobody asks for a patch
   does not make it fail.
   */
  lemma StrayAdds(x: Json, caseSensitive: bool)
    ensures ApplyPatch(Object([]), StrayPatch(x), caseSensitive) == Applied(0, Object([Member("a", x)]))
    ensures forall r: Request :: !Asks(StrayPatch(x), r, caseSensitive)
  {
    hide *;
    StrayActs(x, caseSensitive);
    StrayPlaced(x, caseSensitive);
    forall r: Request ensures !Asks(StrayPatch(x), r, caseSensitive) {
      NobodyAsks(x, r, caseSensitive);
    }
  }
}
