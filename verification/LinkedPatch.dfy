/**
 `apply_patch` on trees that know what first members point back at.  Detaching such a member
 overwrites the `next` of another node: one of the same list, one that is freed already, or
 one that a "move" has put into another list.  Unless that `next` was NULL and stays so, a
 list is not what it should be any more; this is the outcome `Broken`, and nothing is said
 about what comes after it.  In every other outcome status and document are those of `Patch`.
 */
module LinkedPatch {
  import opened Options
  import opened CString
  import opened Json
  import opened Pointer
  import opened Rfc6902
  import opened Compare
  import opened Links
  import opened Patch

  // ---- detach_path ----

  datatype Taking = Missing | Torn | Taken(document: Tree, item: Tree)

  /** A node that is to live on gets the mark, if the first member points at it. */
  function TakeMember(t: Tree, i: nat, mark: nat): Taking
    requires t.Record? && i < |t.members|
  {
    var item, rest := t.members[i].value, Dropped(t, i);
    if mark == 0 || t.back != Into(i) || rest.members == [] then Taken(rest, item)
    else
      var moved := Marked(item, mark);
      Taken(Record(rest.members, Away(moved.mark), rest.mark), moved)
  }

  function TakeChild(parent: Tree, child: string, mark: nat := 0, ends: set<nat> := {}): Taking {
    match parent
    case Scalar(_, _) => Missing
    case List(items, own) =>
      var index := DecodeIndex(Token(child));
      if index.Some? && index.value < |items| then
        Taken(List(items[..index.value] + items[index.value + 1..], own), items[index.value])
      else Missing
    case Record(members, _, _) =>
      var i := FindMember(members, child, false);
      if i == |members| then Missing
      else if i == 0 && Tears(parent, ends) then Torn
      else TakeMember(parent, i, mark)
  }

  /**
   Everywhere below, `exact` tells the two readings apart: the exact one lets a first member
   be detached where this does no harm, and the other one never if it points back.
   */
  function Take(document: Tree, path: string, caseSensitive: bool, move: bool := false, exact: bool := false): Taking {
    var slash := LastSlash(path);
    if slash.None? then Missing
    else
      var parent := Resolve(Content(document), path[..slash.value], caseSensitive);
      if parent.None? then Missing
      else
        var d := TakeChild(TreeAt(document, parent.value), Decode(path[slash.value + 1..]),
                           if move then TopMark(document) + 1 else 0, if exact then Ends(document) else {});
        if d.Taken? then Taken(TreePut(document, parent.value, d.document), d.item) else d
  }

  // ---- Adding a value at a path ----

  datatype Placing = Rejected(status: int) | Tearing | Placed(parent: Tree)

  /** The old member is deleted first; a member that comes alone into an object points nowhere. */
  function PlaceIn(parent: Tree, child: string, value: Tree, caseSensitive: bool, ends: set<nat> := {}): Placing {
    match parent
    case Scalar(_, _) => Rejected(9)
    case List(items, own) =>
      if child == "-" then Placed(List(items + [value], own))
      else
        var index := DecodeIndex(Token(child));
        if index.None? then Rejected(11)
        else if index.value > |items| then Rejected(10)
        else Placed(List(items[..index.value] + [value] + items[index.value..], own))
    case Record(members, _, _) =>
      var i := FindMember(members, child, caseSensitive);
      if i == |members| then Placed(Appended(parent, Member(child, value)))
      else if i == 0 && Tears(parent, ends) then Tearing
      else Placed(Appended(Dropped(parent, i), Member(child, value)))
  }

  datatype Outcome = Broken | Ran(status: int, document: Tree)

  /** The nodes without a `next` while a value is on its way into the document: its own ones too. */
  function EndsWith(document: Tree, value: Tree, exact: bool): set<nat> {
    if exact then Ends(document) + Ends(value) + {value.mark} else {}
  }

  function PlaceAt(document: Tree, path: string, value: Tree, caseSensitive: bool, exact: bool := false): Outcome {
    var slash := LastSlash(path);
    if slash.None? then Ran(9, document)
    else
      var parent := Resolve(Content(document), path[..slash.value], caseSensitive);
      if parent.None? then Ran(9, document)
      else
        Finish(document, parent.value,
               PlaceIn(TreeAt(document, parent.value), Decode(path[slash.value + 1..]), value, caseSensitive,
                       EndsWith(document, value, exact)))
  }

  function Finish(document: Tree, at: Position, p: Placing): Outcome
    requires Exists(Content(document), at)
  {
    match p
    case Rejected(status) => Ran(status, document)
    case Tearing => Broken
    case Placed(parent) => Ran(0, TreePut(document, at, parent))
  }

  // ---- apply_patch ----

  function TestTree(document: Tree, path: string, value: Option<Json>, caseSensitive: bool): Outcome {
    var at := Resolve(Content(document), path, caseSensitive);
    if at.None? || value.None? then Ran(1, document)
    else
      var r := CompareTree(TreeAt(document, at.value), Fresh(value.value), caseSensitive);
      Ran(if r.equal then 0 else 1, TreePut(document, at.value, r.a))
  }

  /** "add", and "replace" once the old value is gone: the value is duplicated. */
  function PlaceValue(
    document: Tree, path: string, value: Option<Json>, caseSensitive: bool, exact: bool := false): Outcome
  {
    if value.None? then Ran(7, document) else PlaceAt(document, path, Fresh(value.value), caseSensitive, exact)
  }

  /** "remove" and "replace": the old item is deleted. */
  function TakeAway(
    document: Tree, path: string, value: Option<Json>, replace: bool, caseSensitive: bool, exact: bool := false): Outcome
  {
    var d := Take(document, path, caseSensitive, false, exact);
    match d
    case Missing => Ran(13, document)
    case Torn => Broken
    case Taken(rest, _) => if replace then PlaceValue(rest, path, value, caseSensitive, exact) else Ran(0, rest)
  }

  /** "move" hands the node itself over, "copy" a duplicate. */
  function Transfer(
    document: Tree, path: string, from: Option<Json>, move: bool, caseSensitive: bool, exact: bool := false): Outcome
  {
    if from.None? then Ran(4, document)
    else if !from.value.String? then Ran(5, document)
    else if move then
      var d := Take(document, from.value.text, caseSensitive, true, exact);
      match d
      case Missing => Ran(5, document)
      case Torn => Broken
      case Taken(rest, item) => PlaceAt(rest, path, item, caseSensitive, exact)
    else
      var at := Resolve(Content(document), from.value.text, caseSensitive);
      if at.None? then Ran(5, document)
      else PlaceAt(document, path, Fresh(Content(TreeAt(document, at.value))), caseSensitive, exact)
  }

  function ActTree(
    document: Tree, opcode: Opcode, pointer: string, value: Option<Json>, from: Option<Json>, caseSensitive: bool,
    exact: bool := false): Outcome
  {
    if opcode == INVALID then Ran(3, document)
    else if opcode == TEST then TestTree(document, pointer, value, caseSensitive)
    else if pointer == "" && opcode == REMOVE then Ran(0, Scalar(Invalid, 0))
    else if pointer == "" && (opcode == REPLACE || opcode == ADD) then
      if value.None? then Ran(7, document) else Ran(0, Fresh(value.value))
    else if opcode == REMOVE || opcode == REPLACE then
      TakeAway(document, pointer, value, opcode == REPLACE, caseSensitive, exact)
    else if opcode == MOVE || opcode == COPY then
      Transfer(document, pointer, from, opcode == MOVE, caseSensitive, exact)
    else PlaceValue(document, pointer, value, caseSensitive, exact)
  }

  function ApplyTree(document: Tree, patch: Json, caseSensitive: bool, exact: bool := false): Outcome {
    var path := Field(patch, "path", caseSensitive);
    if path.None? || !path.value.String? then Ran(2, document)
    else
      ActTree(document, DecodeOperation(patch, caseSensitive), path.value.text,
              Field(patch, "value", caseSensitive), Field(patch, "from", caseSensitive), caseSensitive, exact)
  }

  /** `cJSONUtils_ApplyPatches`. */
  function RunPatches(document: Tree, patches: seq<Json>, caseSensitive: bool, exact: bool := false): Outcome
    decreases |patches|
  {
    if patches == [] then Ran(0, document)
    else
      var r := ApplyTree(document, patches[0], caseSensitive, exact);
      if r.Broken? || r.status != 0 then r else RunPatches(r.document, patches[1..], caseSensitive, exact)
  }

  function ApplyTrees(document: Tree, patches: Json, caseSensitive: bool, exact: bool := false): Outcome {
    if patches.Array? then RunPatches(document, patches.items, caseSensitive, exact) else Ran(1, document)
  }

  // ---- What a patch detaches ----

  /** The first member of an object, found by its key, may not be detached. */
  predicate IsBack(parent: Tree, child: string, finding: bool, ends: set<nat>) {
    parent.Record? && parent.members != [] && FindMember(parent.members, child, finding) == 0 && Tears(parent, ends)
  }

  /** The path leads to such a member. */
  predicate AtBack(document: Tree, path: string, caseSensitive: bool, finding: bool, ends: set<nat>) {
    var slash := LastSlash(path);
    slash.Some? &&
    var at := Resolve(Content(document), path[..slash.value], caseSensitive);
    at.Some? &&
    IsBack(TreeAt(document, at.value), Decode(path[slash.value + 1..]), finding, ends)
  }

  lemma {:induction false} FindInContent(ms: seq<Member<Tree>>, key: string, caseSensitive: bool)
    ensures FindMember(MemberContents(ms), key, caseSensitive) == FindMember(ms, key, caseSensitive)
  {
    hide CompareStrings, Fold;
    if ms != [] { FindInContent(ms[1..], key, caseSensitive); }
  }

  lemma ContentsWithout(items: seq<Tree>, i: nat)
    requires i < |items|
    ensures Contents(items[..i] + items[i + 1..]) == Contents(items)[..i] + Contents(items)[i + 1..]
  {
    hide *;
    var rest, js := items[..i] + items[i + 1..], Contents(items);
    forall k | 0 <= k < |rest| ensures Contents(rest)[k] == (js[..i] + js[i + 1..])[k] {
      assert rest[k] == items[if k < i then k else k + 1];
    }
  }

  lemma MembersWithout(ms: seq<Member<Tree>>, i: nat)
    requires i < |ms|
    ensures MemberContents(ms[..i] + ms[i + 1..]) == MemberContents(ms)[..i] + MemberContents(ms)[i + 1..]
  {
    hide *;
    var rest, js := ms[..i] + ms[i + 1..], MemberContents(ms);
    forall k | 0 <= k < |rest| ensures MemberContents(rest)[k] == (js[..i] + js[i + 1..])[k] {
      assert rest[k] == ms[if k < i then k else k + 1];
    }
  }

  lemma ContentsInsert(items: seq<Tree>, i: nat, x: Tree)
    requires i <= |items|
    ensures Contents(items[..i] + [x] + items[i..]) == Contents(items)[..i] + [Content(x)] + Contents(items)[i..]
  {
    hide *;
  }

  lemma MembersAppend(ms: seq<Member<Tree>>, m: Member<Tree>)
    ensures MemberContents(ms + [m]) == MemberContents(ms) + [Member(m.key, Content(m.value))]
  {
    hide MemberContents;
  }

  lemma TakeFromList(items: seq<Tree>, own: nat, child: string, mark: nat, ends: set<nat>)
    ensures var t, d := TakeChild(List(items, own), child, mark, ends), DetachChild(Array(Contents(items)), child);
            if d.None? then t.Missing? else t.Taken? && d == Some(Detached(Content(t.document), Content(t.item)))
  {
    hide DecodeIndex, Token, Contents;
    var index := DecodeIndex(Token(child));
    if index.Some? && index.value < |items| { ContentsWithout(items, index.value); }
  }

  lemma TakeMemberContent(t: Tree, i: nat, mark: nat)
    requires t.Record? && i < |t.members|
    ensures var d, js := TakeMember(t, i, mark), MemberContents(t.members);
            d.Taken? && Content(d.document) == Object(js[..i] + js[i + 1..]) && Content(d.item) == js[i].value
  {
    MembersWithout(t.members, i);
    RecordContent(TakeMember(t, i, mark).document);
    hide MemberContents;
  }

  lemma TakeFromRecord(t: Tree, child: string, mark: nat, ends: set<nat>)
    requires t.Record?
    ensures var r, d := TakeChild(t, child, mark, ends), DetachChild(Object(MemberContents(t.members)), child);
            if IsBack(t, child, false, ends) then r.Torn?
            else if d.None? then r.Missing?
            else r.Taken? && d == Some(Detached(Content(r.document), Content(r.item)))
  {
    hide FindMember, MemberContents, Fold, Token, DecodeIndex, TakeMember, Content;
    FindInContent(t.members, child, false);
    var i := FindMember(t.members, child, false);
    if i < |t.members| { TakeMemberContent(t, i, mark); }
  }

  lemma TakeChildContent(parent: Tree, child: string, mark: nat, ends: set<nat>)
    ensures var t, d := TakeChild(parent, child, mark, ends), DetachChild(Content(parent), child);
            if IsBack(parent, child, false, ends) then t.Torn?
            else if d.None? then t.Missing?
            else t.Taken? && d == Some(Detached(Content(t.document), Content(t.item)))
  {
    match parent
    case Scalar(_, _) =>
    case List(items, own) => TakeFromList(items, own, child, mark, ends);
    case Record(_, _, _) => TakeFromRecord(parent, child, mark, ends);
  }

  /** `detach_path` breaks the list exactly at a first member that may not be detached, and else is `Detach`. */
  lemma TakeContent(document: Tree, path: string, caseSensitive: bool, move: bool, exact: bool)
    ensures var t, d := Take(document, path, caseSensitive, move, exact), Detach(Content(document), path, caseSensitive);
            && (t.Torn? <==> AtBack(document, path, caseSensitive, false, if exact then Ends(document) else {}))
            && (t.Missing? ==> d.None?)
            && (t.Taken? ==> d == Some(Detached(Content(t.document), Content(t.item))))
  {
    hide TakeChild, DetachChild, Resolve, LastSlash, Decode, Content, IsBack, Ends, TopMark;
    var slash := LastSlash(path);
    if slash.Some? {
      var parent := Resolve(Content(document), path[..slash.value], caseSensitive);
      if parent.Some? {
        TakeChildContent(TreeAt(document, parent.value), Decode(path[slash.value + 1..]),
                         if move then TopMark(document) + 1 else 0, if exact then Ends(document) else {});
      }
    }
  }

  lemma PlaceInList(items: seq<Tree>, own: nat, child: string, value: Tree, caseSensitive: bool, ends: set<nat>)
    ensures var p := PlaceIn(List(items, own), child, value, caseSensitive, ends);
            var a := AddToParent(Array(Contents(items)), child, Content(value), caseSensitive);
            if a.Refused? then p == Rejected(a.status) else p.Placed? && Content(p.parent) == a.parent
  {
    hide DecodeIndex, Token, Contents;
    var js, n := Contents(items), |items|;
    ContentsInsert(items, n, value);
    assert items[..n] + [value] + items[n..] == items + [value];
    assert js[..n] + [Content(value)] + js[n..] == js + [Content(value)];
    var index := DecodeIndex(Token(child));
    if index.Some? && index.value <= n { ContentsInsert(items, index.value, value); }
  }

  lemma AppendedContent(t: Tree, m: Member<Tree>)
    requires t.Record?
    ensures Content(Appended(t, m)) == Object(MemberContents(t.members) + [Member(m.key, Content(m.value))])
  {
    MembersAppend(t.members, m);
    RecordContent(Appended(t, m));
    hide MemberContents;
  }

  lemma PlaceInRecord(t: Tree, child: string, value: Tree, caseSensitive: bool, ends: set<nat>)
    requires t.Record?
    ensures var p := PlaceIn(t, child, value, caseSensitive, ends);
            var a := AddToParent(Object(MemberContents(t.members)), child, Content(value), caseSensitive);
            if IsBack(t, child, caseSensitive, ends) then p.Tearing?
            else p.Placed? && a.Accepted? && Content(p.parent) == a.parent
  {
    hide FindMember, MemberContents, Content;
    FindInContent(t.members, child, caseSensitive);
    var i, m := FindMember(t.members, child, caseSensitive), Member(child, value);
    if i < |t.members| {
      MembersWithout(t.members, i);
      AppendedContent(Dropped(t, i), m);
    } else {
      AppendedContent(t, m);
    }
    hide Appended, Dropped;
  }

  lemma PlaceInContent(parent: Tree, child: string, value: Tree, caseSensitive: bool, ends: set<nat>)
    ensures var p := PlaceIn(parent, child, value, caseSensitive, ends);
            var a := AddToParent(Content(parent), child, Content(value), caseSensitive);
            if IsBack(parent, child, caseSensitive, ends) then p.Tearing?
            else if a.Refused? then p == Rejected(a.status)
            else p.Placed? && Content(p.parent) == a.parent
  {
    match parent
    case Scalar(_, _) =>
    case List(items, own) => PlaceInList(items, own, child, value, caseSensitive, ends);
    case Record(_, _, _) => PlaceInRecord(parent, child, value, caseSensitive, ends);
  }

  lemma PlaceAtContent(document: Tree, path: string, value: Tree, caseSensitive: bool, exact: bool)
    ensures var o := PlaceAt(document, path, value, caseSensitive, exact);
            var a := AddAt(Content(document), path, Content(value), caseSensitive);
            && (o.Broken? <==> AtBack(document, path, caseSensitive, caseSensitive, EndsWith(document, value, exact)))
            && (o.Ran? ==> a == Applied(o.status, Content(o.document)))
  {
    hide PlaceIn, AddToParent, Resolve, LastSlash, Decode, Content, IsBack, EndsWith;
    var slash := LastSlash(path);
    if slash.Some? {
      var parent := Resolve(Content(document), path[..slash.value], caseSensitive);
      if parent.Some? {
        PlaceInContent(TreeAt(document, parent.value), Decode(path[slash.value + 1..]), value, caseSensitive,
                       EndsWith(document, value, exact));
      }
    }
  }

  /** The operation detaches a first member that it may not: by "remove", "replace", "move", or where it adds. */
  predicate ActHits(
    document: Tree, opcode: Opcode, pointer: string, value: Option<Json>, from: Option<Json>, caseSensitive: bool, exact: bool)
  {
    match opcode
    case ADD => pointer != "" && value.Some? && AddHits(document, pointer, Fresh(value.value), caseSensitive, exact)
    case REMOVE => pointer != "" && TakeHits(document, pointer, caseSensitive, exact)
    case REPLACE =>
      pointer != "" &&
      (TakeHits(document, pointer, caseSensitive, exact) ||
       (value.Some? &&
        var d := Take(document, pointer, caseSensitive, false, exact);
        d.Taken? && AddHits(d.document, pointer, Fresh(value.value), caseSensitive, exact)))
    case MOVE =>
      from.Some? && from.value.String? &&
      (TakeHits(document, from.value.text, caseSensitive, exact) ||
       var d := Take(document, from.value.text, caseSensitive, true, exact);
       d.Taken? && AddHits(d.document, pointer, d.item, caseSensitive, exact))
    case COPY =>
      from.Some? && from.value.String? &&
      var at := Resolve(Content(document), from.value.text, caseSensitive);
      at.Some? && AddHits(document, pointer, Fresh(Content(TreeAt(document, at.value))), caseSensitive, exact)
    case _ => false
  }

  predicate TakeHits(document: Tree, path: string, caseSensitive: bool, exact: bool) {
    AtBack(document, path, caseSensitive, false, if exact then Ends(document) else {})
  }

  predicate AddHits(document: Tree, path: string, value: Tree, caseSensitive: bool, exact: bool) {
    AtBack(document, path, caseSensitive, caseSensitive, EndsWith(document, value, exact))
  }

  predicate Hits(document: Tree, patch: Json, caseSensitive: bool, exact: bool) {
    var path := Field(patch, "path", caseSensitive);
    path.Some? && path.value.String? &&
    ActHits(document, DecodeOperation(patch, caseSensitive), path.value.text,
            Field(patch, "value", caseSensitive), Field(patch, "from", caseSensitive), caseSensitive, exact)
  }

  lemma TestContent(document: Tree, path: string, value: Option<Json>, caseSensitive: bool)
    ensures var o, a := TestTree(document, path, value, caseSensitive), ApplyTest(Content(document), path, value, caseSensitive);
            o.Ran? && a == Applied(o.status, Content(o.document))
  {
    hide CompareTree, CompareJson, Resolve, Content;
    var at := Resolve(Content(document), path, caseSensitive);
    if at.Some? && value.Some? {
      CompareContent(TreeAt(document, at.value), Fresh(value.value), caseSensitive);
    }
  }

  lemma TransferContent(
    document: Tree, pointer: string, value: Option<Json>, from: Option<Json>, move: bool, caseSensitive: bool, exact: bool)
    ensures var o := Transfer(document, pointer, from, move, caseSensitive, exact);
            var a := ApplyFrom(Content(document), pointer, from, move, caseSensitive);
            && (o.Ran? ==> a == Applied(o.status, Content(o.document)))
            && (o.Broken? <==> ActHits(document, if move then MOVE else COPY, pointer, value, from, caseSensitive, exact))
  {
    hide Take, PlaceAt, Detach, AddAt, AtBack, Resolve, Content, EndsWith, Ends;
    if from.Some? && from.value.String? {
      if move {
        TakeContent(document, from.value.text, caseSensitive, true, exact);
        var d := Take(document, from.value.text, caseSensitive, true, exact);
        if d.Taken? { PlaceAtContent(d.document, pointer, d.item, caseSensitive, exact); }
      } else {
        var at := Resolve(Content(document), from.value.text, caseSensitive);
        if at.Some? {
          PlaceAtContent(document, pointer, Fresh(Content(TreeAt(document, at.value))), caseSensitive, exact);
        }
      }
    }
  }

  lemma PlaceValueContent(document: Tree, path: string, value: Option<Json>, caseSensitive: bool, exact: bool)
    ensures var o := PlaceValue(document, path, value, caseSensitive, exact);
            && (o.Broken? <==> value.Some? && AddHits(document, path, Fresh(value.value), caseSensitive, exact))
            && (o.Ran? ==> ApplyValue(Content(document), path, value, caseSensitive) == Applied(o.status, Content(o.document)))
  {
    hide PlaceAt, AddAt, AtBack, Content, EndsWith;
    if value.Some? { PlaceAtContent(document, path, Fresh(value.value), caseSensitive, exact); }
  }

  lemma TakeAwayContent(document: Tree, path: string, value: Option<Json>, replace: bool, caseSensitive: bool, exact: bool)
    ensures var o := TakeAway(document, path, value, replace, caseSensitive, exact);
            var t, d := Take(document, path, caseSensitive, false, exact), Detach(Content(document), path, caseSensitive);
            && (o.Broken? <==>
                  || TakeHits(document, path, caseSensitive, exact)
                  || (replace && value.Some? && t.Taken? && AddHits(t.document, path, Fresh(value.value), caseSensitive, exact)))
            && (o.Ran? ==>
                  Applied(o.status, Content(o.document)) ==
                  if d.None? then Applied(13, Content(document))
                  else if replace then ApplyValue(d.value.document, path, value, caseSensitive)
                  else Applied(0, d.value.document))
  {
    hide Take, PlaceValue, Detach, ApplyValue, AtBack, Content, EndsWith, Ends;
    TakeContent(document, path, caseSensitive, false, exact);
    var d := Take(document, path, caseSensitive, false, exact);
    if d.Taken? { PlaceValueContent(d.document, path, value, caseSensitive, exact); }
  }

  lemma ActContent(
    document: Tree, opcode: Opcode, pointer: string, value: Option<Json>, from: Option<Json>, caseSensitive: bool, exact: bool)
    ensures var o := ActTree(document, opcode, pointer, value, from, caseSensitive, exact);
            && (o.Broken? <==> ActHits(document, opcode, pointer, value, from, caseSensitive, exact))
            && (o.Ran? ==>
                  Act(Content(document), opcode, pointer, value, from, caseSensitive) == Applied(o.status, Content(o.document)))
  {
    if opcode == ADD || opcode == REMOVE || opcode == REPLACE {
      EditContent(document, opcode, pointer, value, from, caseSensitive, exact);
    } else {
      hide Content, TestTree, ApplyTest, Transfer, ApplyFrom, AddHits, TakeHits, Resolve, Take;
      match opcode
      case MOVE => TransferContent(document, pointer, value, from, true, caseSensitive, exact);
      case COPY => TransferContent(document, pointer, value, from, false, caseSensitive, exact);
      case TEST => TestContent(document, pointer, value, caseSensitive);
      case INVALID =>
    }
    hide ActTree, ActHits, Act;
  }

  lemma EditContent(
    document: Tree, opcode: Opcode, pointer: string, value: Option<Json>, from: Option<Json>, caseSensitive: bool, exact: bool)
    requires opcode == ADD || opcode == REMOVE || opcode == REPLACE
    ensures var o := ActTree(document, opcode, pointer, value, from, caseSensitive, exact);
            && (o.Broken? <==> ActHits(document, opcode, pointer, value, from, caseSensitive, exact))
            && (o.Ran? ==>
                  Act(Content(document), opcode, pointer, value, from, caseSensitive) == Applied(o.status, Content(o.document)))
  {
    if pointer == "" {
      assert Content(Scalar(Invalid, 0)) == Invalid;
    } else {
      hide TakeAway, PlaceValue, ApplyValue, TakeHits, AddHits, Content, Take, Detach;
      match opcode
      case ADD => PlaceValueContent(document, pointer, value, caseSensitive, exact);
      case REMOVE => TakeAwayContent(document, pointer, value, false, caseSensitive, exact);
      case REPLACE => TakeAwayContent(document, pointer, value, true, caseSensitive, exact);
    }
  }

  /** One patch breaks a list exactly if it detaches a first member that it may not, in either reading. */
  lemma ApplyContent(document: Tree, patch: Json, caseSensitive: bool, exact: bool)
    ensures var o := ApplyTree(document, patch, caseSensitive, exact);
            && (o.Broken? <==> Hits(document, patch, caseSensitive, exact))
            && (o.Ran? ==> ApplyPatch(Content(document), patch, caseSensitive) == Applied(o.status, Content(o.document)))
  {
    hide ActTree, ActHits, Act, Field, DecodeOperation, Content;
    var path := Field(patch, "path", caseSensitive);
    if path.Some? && path.value.String? {
      ActContent(document, DecodeOperation(patch, caseSensitive), path.value.text,
                 Field(patch, "value", caseSensitive), Field(patch, "from", caseSensitive), caseSensitive, exact);
    }
  }

  /** Some patch of the run that is reached hits such a member. */
  predicate RunHits(document: Tree, patches: seq<Json>, caseSensitive: bool, exact: bool)
    decreases |patches|
  {
    patches != [] &&
    (Hits(document, patches[0], caseSensitive, exact) ||
     var o := ApplyTree(document, patches[0], caseSensitive, exact);
     o.Ran? && o.status == 0 && RunHits(o.document, patches[1..], caseSensitive, exact))
  }

  /** A run does at every step what `ApplyAll` does if and only if no patch of it hits such a member. */
  lemma {:induction false} RunContent(document: Tree, patches: seq<Json>, caseSensitive: bool, exact: bool)
    ensures var o := RunPatches(document, patches, caseSensitive, exact);
            && (o.Broken? <==> RunHits(document, patches, caseSensitive, exact))
            && (o.Ran? ==> ApplyAll(Content(document), patches, caseSensitive) == Applied(o.status, Content(o.document)))
    decreases |patches|
  {
    hide ApplyTree, ApplyPatch, Hits, Content;
    if patches != [] {
      ApplyContent(document, patches[0], caseSensitive, exact);
      var o := ApplyTree(document, patches[0], caseSensitive, exact);
      if o.Ran? && o.status == 0 { RunContent(o.document, patches[1..], caseSensitive, exact); }
    }
  }

  // ---- Without "test" ----

  lemma {:induction false} CleanAt(t: Tree, at: Position)
    requires Clean(t) && Exists(Content(t), at)
    ensures Clean(TreeAt(t, at))
    decreases |at|
  {
    if at != [] { CleanAt(TreeChild(t, at[0]), at[1..]); }
  }

  lemma {:induction false} CleanPut(t: Tree, at: Position, x: Tree)
    requires Clean(t) && Clean(x) && Exists(Content(t), at)
    ensures Clean(TreePut(t, at, x))
    decreases |at|
  {
    if at != [] {
      CleanAt(t, [at[0]]);
      assert TreeAt(t, [at[0]]) == TreeChild(t, at[0]) by { assert [at[0]][1..] == []; }
      CleanPut(TreeChild(t, at[0]), at[1..], x);
    }
  }

  lemma CleanTake(document: Tree, path: string, caseSensitive: bool, move: bool, exact: bool)
    requires Clean(document)
    ensures var d := Take(document, path, caseSensitive, move, exact);
            !d.Torn? && (d.Taken? ==> Clean(d.document) && Clean(d.item))
  {
    hide FindMember, DecodeIndex, Token, Resolve, Decode, TreeAt, TreePut, Content, LastSlash, Ends, TopMark;
    var slash := LastSlash(path);
    if slash.Some? {
      var at := Resolve(Content(document), path[..slash.value], caseSensitive);
      if at.Some? {
        CleanAt(document, at.value);
        var d := TakeChild(TreeAt(document, at.value), Decode(path[slash.value + 1..]),
                           if move then TopMark(document) + 1 else 0, if exact then Ends(document) else {});
        if d.Taken? { CleanPut(document, at.value, d.document); }
      }
    }
  }

  lemma CleanPlaceIn(parent: Tree, child: string, value: Tree, caseSensitive: bool, ends: set<nat>)
    requires Clean(parent) && Clean(value)
    ensures var p := PlaceIn(parent, child, value, caseSensitive, ends); !p.Tearing? && (p.Placed? ==> Clean(p.parent))
  {
    hide FindMember, DecodeIndex, Token, Fold;
  }

  lemma CleanPlace(document: Tree, path: string, value: Tree, caseSensitive: bool, exact: bool)
    requires Clean(document) && Clean(value)
    ensures var o := PlaceAt(document, path, value, caseSensitive, exact); o.Ran? && Clean(o.document)
  {
    hide PlaceIn, Resolve, Decode, TreeAt, TreePut, Content, LastSlash, Clean, EndsWith;
    var slash := LastSlash(path);
    if slash.Some? {
      var at := Resolve(Content(document), path[..slash.value], caseSensitive);
      if at.Some? {
        CleanAt(document, at.value);
        var child := Decode(path[slash.value + 1..]);
        var ends := EndsWith(document, value, exact);
        CleanPlaceIn(TreeAt(document, at.value), child, value, caseSensitive, ends);
        var p := PlaceIn(TreeAt(document, at.value), child, value, caseSensitive, ends);
        if p.Placed? { CleanPut(document, at.value, p.parent); }
      }
    }
  }

  lemma CleanAct(
    document: Tree, opcode: Opcode, pointer: string, value: Option<Json>, from: Option<Json>, caseSensitive: bool, exact: bool)
    requires Clean(document) && opcode != TEST
    ensures var o := ActTree(document, opcode, pointer, value, from, caseSensitive, exact); o.Ran? && Clean(o.document)
  {
    hide Take, PlaceAt, Resolve, Content, TreeAt;
    if opcode == MOVE && from.Some? && from.value.String? {
      CleanTake(document, from.value.text, caseSensitive, true, exact);
      var d := Take(document, from.value.text, caseSensitive, true, exact);
      if d.Taken? { CleanPlace(d.document, pointer, d.item, caseSensitive, exact); }
    } else if opcode == COPY && from.Some? && from.value.String? {
      var at := Resolve(Content(document), from.value.text, caseSensitive);
      if at.Some? { CleanPlace(document, pointer, Fresh(Content(TreeAt(document, at.value))), caseSensitive, exact); }
    } else if value.Some? || opcode == REMOVE {
      if value.Some? { CleanPlace(document, pointer, Fresh(value.value), caseSensitive, exact); }
      CleanTake(document, pointer, caseSensitive, false, exact);
      var d := Take(document, pointer, caseSensitive, false, exact);
      if value.Some? && d.Taken? { CleanPlace(d.document, pointer, Fresh(value.value), caseSensitive, exact); }
    } else {
      CleanTake(document, pointer, caseSensitive, false, exact);
    }
  }

  /** Only "test" sorts: on a document in which no first member points back, a run without it breaks nothing. */
  lemma {:induction false} CleanRun(document: Tree, patches: seq<Json>, caseSensitive: bool, exact: bool)
    requires Clean(document) && forall i | 0 <= i < |patches| :: DecodeOperation(patches[i], caseSensitive) != TEST
    ensures var o := RunPatches(document, patches, caseSensitive, exact); o.Ran? && Clean(o.document)
    decreases |patches|
  {
    hide ActTree, Field, Clean, DecodeOperation;
    if patches != [] {
      var path := Field(patches[0], "path", caseSensitive);
      if path.Some? && path.value.String? {
        CleanAct(document, DecodeOperation(patches[0], caseSensitive), path.value.text,
                 Field(patches[0], "value", caseSensitive), Field(patches[0], "from", caseSensitive), caseSensitive, exact);
      }
      var o := ApplyTree(document, patches[0], caseSensitive, exact);
      if o.status == 0 { CleanRun(o.document, patches[1..], caseSensitive, exact); }
    }
  }

  // ---- Requests, token by token ----

  /** Which part of `apply_patch` handles a request. */
  lemma TreeDispatch(document: Tree, r: Request, exact: bool := false)
    requires Sound(r, false) && !r.DoCopy?
    ensures ApplyTree(document, Compose(r), false, exact) ==
            var text := PathText(r.path);
            match r
            case DoAdd(path, x) => if path == [] then Ran(0, Fresh(x)) else PlaceAt(document, text, Fresh(x), false, exact)
            case DoRemove(path) => TakeAway(document, text, None, false, false, exact)
            case DoReplace(path, x) =>
              if path == [] then Ran(0, Fresh(x)) else TakeAway(document, text, Some(x), true, false, exact)
            case DoMove(_, from) => Transfer(document, text, Some(String(PathText(from))), true, false, exact)
            case DoTest(_, x) => TestTree(document, text, Some(x), false)
  {
    ComposeFields(r, false);
    ComposeOpcode(r, false);
    TextEmpty(r.path);
    hide Compose, Field, DecodeOperation, Distinct, Take, PlaceAt, PathText, TestTree, Writable, RawFree, Consistent;
  }

  lemma TakeText(document: Tree, path: seq<string>, move: bool := false, exact: bool := false)
    requires path != [] && Writable(path)
    ensures var at := Resolve(Content(document), PathText(DropLast(path)), false);
            Take(document, PathText(path), false, move, exact) ==
            if at.None? then Missing
            else
              var d := TakeChild(TreeAt(document, at.value), Last(path), if move then TopMark(document) + 1 else 0,
                                 if exact then Ends(document) else {});
              if d.Taken? then Taken(TreePut(document, at.value, d.document), d.item) else d
  {
    hide TakeChild, PathText, Resolve, TopMark, Ends;
    SplitText(path);
  }

  lemma PlaceText(document: Tree, path: seq<string>, value: Tree, exact: bool := false)
    requires path != [] && Writable(path)
    ensures var at := Resolve(Content(document), PathText(DropLast(path)), false);
            PlaceAt(document, PathText(path), value, false, exact) ==
            if at.None? then Ran(9, document)
            else
              Finish(document, at.value,
                     PlaceIn(TreeAt(document, at.value), Last(path), value, false, EndsWith(document, value, exact)))
  {
    hide PlaceIn, EndsWith, PathText, Resolve;
    SplitText(path);
  }

  /** A path of one token: the parent is the document itself. */
  lemma OneToken(document: Tree, k: string, value: Tree)
    requires DecodesBack(k)
    ensures Take(document, PathText([k]), false) == TakeChild(document, k)
    ensures PlaceAt(document, PathText([k]), value, false) == Finish(document, [], PlaceIn(document, k, value, false))
  {
    hide PlaceIn, TakeChild, PathText, Take, PlaceAt, DecodesBack;
    TakeText(document, [k]);
    PlaceText(document, [k], value);
    assert EndsWith(document, value, false) == {};
    assert DropLast([k]) == [] && Last([k]) == k;
    TextEmpty([]);
    assert TreeAt(document, []) == document;
  }
}
