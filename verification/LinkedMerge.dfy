/**
 `merge_patch` on trees that know what first members point back at, and when a merge detaches
 such a member.
 */
module LinkedMerge {
  import opened Options
  import opened CString
  import opened Json
  import opened MemberSort
  import opened Compare
  import opened Links
  import opened MergePatch
  import opened MergeDiff
  import opened LinkedPatch
  import opened LinkedRun
  import opened Strays

  // ---- merge_patch ----

  datatype Merging = Breaks | Becomes(tree: Tree)

  /** `outside` holds the marks of the nodes without a `next` in the rest of the document. */
  function MergeTree(
    target: Option<Tree>, patch: Json, caseSensitive: bool, exact: bool := false, outside: set<nat> := {}): Merging
    decreases Height(patch), 0
  {
    if !patch.Object? then Becomes(Fresh(patch))
    else
      MergeRecord(if target.Some? && target.value.Record? then target.value else Record([], Nowhere, 0),
                  patch.members, caseSensitive, exact, outside)
  }

  /** The loop over the members of the patch. */
  function MergeRecord(
    t: Tree, ps: seq<Member<Json>>, caseSensitive: bool, exact: bool := false, outside: set<nat> := {}): Merging
    requires t.Record?
    decreases MembersHeight(ps), |ps| + 1
  {
    if ps == [] then Becomes(t)
    else
      var r := MergeInto(t, ps[0], caseSensitive, exact, outside);
      if r.Breaks? then Breaks else MergeRecord(r.tree, ps[1..], caseSensitive, exact, outside)
  }

  /** One round: the old member is detached, merged unless the patch says null, and appended. */
  function MergeInto(
    t: Tree, p: Member<Json>, caseSensitive: bool, exact: bool := false, outside: set<nat> := {}): (r: Merging)
    requires t.Record?
    ensures r.Becomes? ==> r.tree.Record?
    decreases Height(p.value), 1
  {
    var ms, i := t.members, FindMember(t.members, p.key, caseSensitive);
    if i < |ms| && i == 0 && Tears(t, EndsAround(t, t, exact, outside)) then Breaks
    else
      var rest := Remaining(t, i);
      if p.value.Null? then Becomes(rest)
      else
        var m := MergeTree(if i < |ms| then Some(ms[i].value) else None, p.value, caseSensitive, exact,
                           EndsAround(t, rest, exact, outside));
        if m.Breaks? then Breaks else Becomes(Rejoined(t, i, Member(p.key, m.tree), p.value.Object?))
  }

  /** The nodes without a `next`: outside, below what is left of an object, and the object itself, which is in no list. */
  function EndsAround(t: Tree, rest: Tree, exact: bool, outside: set<nat>): set<nat> {
    if exact then outside + Ends(rest) + {t.mark} else {}
  }

  /** The object without the member at a position, if there is one. */
  function Remaining(t: Tree, i: nat): (r: Tree)
    requires t.Record?
    ensures r.Record? && r.members == Detached(t.members, i)
    ensures r.members != [] ==> (r.back.Nowhere? <==> t.back.Nowhere?)
  {
    if i < |t.members| then Dropped(t, i) else t
  }

  /** The merged member at the end: the very node if an object was merged into one, and else a new one. */
  function Rejoined(t: Tree, i: nat, m: Member<Tree>, kept: bool): (r: Tree)
    requires t.Record?
    ensures r.Record? && r.members == Remaining(t, i).members + [m]
    ensures !r.back.Nowhere? <==> !t.back.Nowhere? && Remaining(t, i).members != []
  {
    var rest := Remaining(t, i);
    var joined := Appended(rest, m);
    if kept && i < |t.members| && t.members[i].value.Record? && t.back == Into(i) && rest.members != [] then
      Record(joined.members, Into(|rest.members|), joined.mark)
    else joined
  }

  function ContentOption(t: Option<Tree>): Option<Json> {
    if t.Some? then Some(Content(t.value)) else None
  }

  /** A merge that breaks nothing is the merge of the contents. */
  lemma {:induction false} MergeContent(target: Option<Tree>, patch: Json, caseSensitive: bool, exact: bool, outside: set<nat>)
    ensures var m := MergeTree(target, patch, caseSensitive, exact, outside);
            m.Becomes? ==> Content(m.tree) == Merge(ContentOption(target), patch, caseSensitive)
    decreases Height(patch), 0
  {
    if patch.Object? {
      var t := if target.Some? && target.value.Record? then target.value else Record([], Nowhere, 0);
      MergeRecordContent(t, patch.members, caseSensitive, exact, outside);
      assert MemberContents([]) == [];
      hide MergeRecord, MergeMembers;
    }
  }

  lemma {:induction false} MergeRecordContent(t: Tree, ps: seq<Member<Json>>, caseSensitive: bool, exact: bool, outside: set<nat>)
    requires t.Record?
    ensures var m := MergeRecord(t, ps, caseSensitive, exact, outside);
            m.Becomes? ==> Content(m.tree) == Object(MergeMembers(MemberContents(t.members), ps, caseSensitive))
    decreases MembersHeight(ps), |ps| + 1
  {
    if ps != [] {
      MergeIntoContent(t, ps[0], caseSensitive, exact, outside);
      hide MergeInto, MergeMember, MemberContents;
      var r := MergeInto(t, ps[0], caseSensitive, exact, outside);
      if r.Becomes? { MergeRecordContent(r.tree, ps[1..], caseSensitive, exact, outside); }
    }
  }

  lemma {:induction false} MergeIntoContent(t: Tree, p: Member<Json>, caseSensitive: bool, exact: bool, outside: set<nat>)
    requires t.Record?
    ensures var r := MergeInto(t, p, caseSensitive, exact, outside);
            r.Becomes? ==> MemberContents(r.tree.members) == MergeMember(MemberContents(t.members), p, caseSensitive)
    decreases Height(p.value), 1
  {
    hide FindMember, MemberContents, Fold, Content, MergeTree, Merge, Height, Rejoined, Remaining, EndsAround;
    var ms, i := t.members, FindMember(t.members, p.key, caseSensitive);
    FindInContent(ms, p.key, caseSensitive);
    var rest := Remaining(t, i);
    if i < |ms| { MembersWithout(ms, i); }
    if !p.value.Null? {
      var previous := if i < |ms| then Some(ms[i].value) else None;
      var ends := EndsAround(t, rest, exact, outside);
      MergeContent(previous, p.value, caseSensitive, exact, ends);
      var m := MergeTree(previous, p.value, caseSensitive, exact, ends);
      if m.Becomes? { MembersAppend(rest.members, Member(p.key, m.tree)); }
    }
  }

  // ---- Clean targets ----

  lemma {:induction false} CleanMerge(target: Option<Tree>, patch: Json, caseSensitive: bool, exact: bool, outside: set<nat>)
    requires target.Some? ==> Clean(target.value)
    ensures var m := MergeTree(target, patch, caseSensitive, exact, outside); m.Becomes? && Clean(m.tree)
    decreases Height(patch), 0
  {
    if patch.Object? {
      var t := if target.Some? && target.value.Record? then target.value else Record([], Nowhere, 0);
      CleanMergeRecord(t, patch.members, caseSensitive, exact, outside);
    }
  }

  lemma {:induction false} CleanMergeRecord(t: Tree, ps: seq<Member<Json>>, caseSensitive: bool, exact: bool, outside: set<nat>)
    requires t.Record? && Clean(t)
    ensures var m := MergeRecord(t, ps, caseSensitive, exact, outside); m.Becomes? && Clean(m.tree)
    decreases MembersHeight(ps), |ps| + 1
  {
    if ps != [] {
      CleanMergeInto(t, ps[0], caseSensitive, exact, outside);
      hide MergeInto, Clean;
      CleanMergeRecord(MergeInto(t, ps[0], caseSensitive, exact, outside).tree, ps[1..], caseSensitive, exact, outside);
    }
  }

  lemma {:induction false} CleanMergeInto(t: Tree, p: Member<Json>, caseSensitive: bool, exact: bool, outside: set<nat>)
    requires t.Record? && Clean(t)
    ensures var m := MergeInto(t, p, caseSensitive, exact, outside); m.Becomes? && Clean(m.tree)
    decreases Height(p.value), 1
  {
    hide FindMember, MergeTree, Fold, Height, EndsAround;
    var ms, i := t.members, FindMember(t.members, p.key, caseSensitive);
    if i < |ms| { assert Clean(ms[i].value); }
    if !p.value.Null? {
      CleanMerge(if i < |ms| then Some(ms[i].value) else None, p.value, caseSensitive, exact,
                 EndsAround(t, Remaining(t, i), exact, outside));
    }
  }

  // ---- The two readings ----

  /** A merge that breaks nothing in the strict reading is the same in the exact one. */
  lemma {:induction false} StrictMerge(target: Option<Tree>, patch: Json, caseSensitive: bool, outside: set<nat>)
    ensures var m := MergeTree(target, patch, caseSensitive); m.Becomes? ==> MergeTree(target, patch, caseSensitive, true, outside) == m
    decreases Height(patch), 0
  {
    if patch.Object? {
      var t := if target.Some? && target.value.Record? then target.value else Record([], Nowhere, 0);
      StrictMergeRecord(t, patch.members, caseSensitive, outside);
      hide MergeRecord;
    }
  }

  lemma {:induction false} StrictMergeRecord(t: Tree, ps: seq<Member<Json>>, caseSensitive: bool, outside: set<nat>)
    requires t.Record?
    ensures var m := MergeRecord(t, ps, caseSensitive); m.Becomes? ==> MergeRecord(t, ps, caseSensitive, true, outside) == m
    decreases MembersHeight(ps), |ps| + 1
  {
    if ps != [] {
      StrictMergeInto(t, ps[0], caseSensitive, outside);
      hide MergeInto;
      var r := MergeInto(t, ps[0], caseSensitive);
      if r.Becomes? { StrictMergeRecord(r.tree, ps[1..], caseSensitive, outside); }
    }
  }

  lemma {:induction false} StrictMergeInto(t: Tree, p: Member<Json>, caseSensitive: bool, outside: set<nat>)
    requires t.Record?
    ensures var r := MergeInto(t, p, caseSensitive); r.Becomes? ==> MergeInto(t, p, caseSensitive, true, outside) == r
    decreases Height(p.value), 1
  {
    hide FindMember, MergeTree, Fold, Height, Ends, Rejoined, Remaining;
    var ms, i := t.members, FindMember(t.members, p.key, caseSensitive);
    if !p.value.Null? {
      StrictMerge(if i < |ms| then Some(ms[i].value) else None, p.value, caseSensitive,
                  EndsAround(t, Remaining(t, i), true, outside));
    }
  }

  lemma {:induction false} HomeMerge(target: Option<Tree>, patch: Json, caseSensitive: bool, outside: set<nat>)
    requires target.Some? ==> Home(target.value)
    ensures var m := MergeTree(target, patch, caseSensitive);
            MergeTree(target, patch, caseSensitive, true, outside) == m && (m.Becomes? ==> Home(m.tree))
    decreases Height(patch), 0
  {
    if patch.Object? {
      var t := if target.Some? && target.value.Record? then target.value else Record([], Nowhere, 0);
      HomeMergeRecord(t, patch.members, caseSensitive, outside);
      hide MergeRecord;
    } else {
      FreshHome(patch);
    }
  }

  lemma {:induction false} HomeMergeRecord(t: Tree, ps: seq<Member<Json>>, caseSensitive: bool, outside: set<nat>)
    requires t.Record? && Home(t)
    ensures var m := MergeRecord(t, ps, caseSensitive);
            MergeRecord(t, ps, caseSensitive, true, outside) == m && (m.Becomes? ==> Home(m.tree))
    decreases MembersHeight(ps), |ps| + 1
  {
    if ps != [] {
      HomeMergeInto(t, ps[0], caseSensitive, outside);
      hide MergeInto, Home;
      var r := MergeInto(t, ps[0], caseSensitive);
      if r.Becomes? { HomeMergeRecord(r.tree, ps[1..], caseSensitive, outside); }
    }
  }

  lemma {:induction false} HomeMergeInto(t: Tree, p: Member<Json>, caseSensitive: bool, outside: set<nat>)
    requires t.Record? && Home(t)
    ensures var r := MergeInto(t, p, caseSensitive);
            MergeInto(t, p, caseSensitive, true, outside) == r && (r.Becomes? ==> Home(r.tree))
    decreases Height(p.value), 1
  {
    hide FindMember, MergeTree, Fold, Height, Ends;
    var ms, i := t.members, FindMember(t.members, p.key, caseSensitive);
    assert i < |ms| ==> Home(ms[i].value);
    if !p.value.Null? {
      HomeMerge(if i < |ms| then Some(ms[i].value) else None, p.value, caseSensitive,
                EndsAround(t, Remaining(t, i), true, outside));
    }
  }

  // ---- Exactly when a merge breaks ----

  /** The patch names a first member that points back, in an object that the merge goes into. */
  predicate MergeHits(t: Tree, patch: Json, caseSensitive: bool)
    decreases Height(patch), 1
  {
    t.Record? && patch.Object? && RecordHits(t, patch.members, caseSensitive)
  }

  predicate RecordHits(t: Tree, ps: seq<Member<Json>>, caseSensitive: bool)
    requires t.Record?
    decreases MembersHeight(ps), 3
  {
    FirstNamed(t, ps, caseSensitive) || exists j | 0 <= j < |t.members| :: ChildHit(t.members[j], ps, caseSensitive)
  }

  predicate FirstNamed(t: Tree, ps: seq<Member<Json>>, caseSensitive: bool)
    requires t.Record?
  {
    !t.back.Nowhere? && t.members != [] && Partner(ps, t.members[0].key, caseSensitive).Some?
  }

  /** The first member of the patch with the key is merged into the child. */
  predicate ChildHit(m: Member<Tree>, ps: seq<Member<Json>>, caseSensitive: bool)
    decreases MembersHeight(ps), 2
  {
    var i := FindMember(ps, m.key, caseSensitive);
    i < |ps| && !ps[i].value.Null? && MergeHits(m.value, ps[i].value, caseSensitive)
  }

  /** Of two members of a patch with the same key, one is null. */
  predicate Tame(patch: Json, caseSensitive: bool) {
    match patch
    case Object(members) => TameMembers(members, caseSensitive)
    case _ => true
  }

  predicate TameMembers(ps: seq<Member<Json>>, caseSensitive: bool) {
    && (forall i, k | 0 <= i < k < |ps| && Fold(ps[i].key, caseSensitive) == Fold(ps[k].key, caseSensitive) ::
          ps[i].value.Null? || ps[k].value.Null?)
    && forall i | 0 <= i < |ps| :: Tame(ps[i].value, caseSensitive)
  }

  lemma {:induction false} DistinctTame(j: Json, caseSensitive: bool)
    requires Distinct(j, caseSensitive)
    ensures Tame(j, caseSensitive)
  {
    if j.Object? {
      forall i | 0 <= i < |j.members| ensures Tame(j.members[i].value, caseSensitive) {
        DistinctTame(j.members[i].value, caseSensitive);
      }
      hide Fold;
    }
  }

  lemma {:induction false} CleanNoHit(t: Tree, patch: Json, caseSensitive: bool)
    requires Clean(t)
    ensures !MergeHits(t, patch, caseSensitive)
    decreases Height(patch), 1
  {
    if t.Record? && patch.Object? {
      var ps := patch.members;
      forall j | 0 <= j < |t.members| ensures !ChildHit(t.members[j], ps, caseSensitive) {
        var i := FindMember(ps, t.members[j].key, caseSensitive);
        if i < |ps| { CleanNoHit(t.members[j].value, ps[i].value, caseSensitive); }
        hide MergeHits;
      }
      hide ChildHit;
    }
  }

  lemma PartnerCons(p: Member<Json>, ps: seq<Member<Json>>, key: string, caseSensitive: bool)
    ensures FindMember([p] + ps, key, caseSensitive) ==
            if Fold(key, caseSensitive) == Fold(p.key, caseSensitive) then 0 else 1 + FindMember(ps, key, caseSensitive)
  {
    assert ([p] + ps)[1..] == ps;
    CmpZero(Fold(key, caseSensitive), Fold(p.key, caseSensitive));
  }

  /** A child under another key is hit by the rest of the patch as by the whole patch. */
  lemma HitByRest(m: Member<Tree>, p: Member<Json>, ps: seq<Member<Json>>, caseSensitive: bool)
    requires Fold(m.key, caseSensitive) != Fold(p.key, caseSensitive)
    ensures ChildHit(m, [p] + ps, caseSensitive) <==> ChildHit(m, ps, caseSensitive)
    ensures Partner([p] + ps, m.key, caseSensitive) == Partner(ps, m.key, caseSensitive)
  {
    PartnerCons(p, ps, m.key, caseSensitive);
    hide MergeHits, Fold, FindMember;
  }

  lemma HitByFirst(m: Member<Tree>, p: Member<Json>, ps: seq<Member<Json>>, caseSensitive: bool)
    requires Fold(m.key, caseSensitive) == Fold(p.key, caseSensitive)
    ensures ChildHit(m, [p] + ps, caseSensitive) <==> !p.value.Null? && MergeHits(m.value, p.value, caseSensitive)
    ensures Partner([p] + ps, m.key, caseSensitive) == Some(p.value)
  {
    PartnerCons(p, ps, m.key, caseSensitive);
    hide MergeHits, Fold, FindMember;
  }

  /** What was appended is not merged into once more. */
  lemma NotHitAgain(p: Member<Json>, x: Tree, ps: seq<Member<Json>>, caseSensitive: bool)
    requires TameMembers([p] + ps, caseSensitive) && !p.value.Null?
    ensures !ChildHit(Member(p.key, x), ps, caseSensitive)
  {
    var i := FindMember(ps, p.key, caseSensitive);
    if i < |ps| {
      assert ([p] + ps)[0] == p && ([p] + ps)[i + 1] == ps[i];
      assert Fold(ps[i].key, caseSensitive) == Fold(p.key, caseSensitive);
    }
    hide Fold, FindMember;
  }

  lemma TameTail(p: Member<Json>, ps: seq<Member<Json>>, caseSensitive: bool)
    requires TameMembers([p] + ps, caseSensitive)
    ensures TameMembers(ps, caseSensitive) && Tame(p.value, caseSensitive)
  {
    var all := [p] + ps;
    assert all[0] == p;
    assert forall i | 0 <= i < |ps| :: ps[i] == all[i + 1];
    hide Fold, Tame;
  }

  /** One round breaks only if there is a hit; otherwise the rest of the patch hits what the whole hits. */
  lemma {:induction false} IntoHits(t: Tree, p: Member<Json>, ps: seq<Member<Json>>, caseSensitive: bool)
    requires t.Record? && Distinct(Content(t), caseSensitive) && TameMembers([p] + ps, caseSensitive) && Tidy(p.value, caseSensitive)
    ensures var r := MergeInto(t, p, caseSensitive);
            if r.Breaks? then RecordHits(t, [p] + ps, caseSensitive)
            else RecordHits(r.tree, ps, caseSensitive) <==> RecordHits(t, [p] + ps, caseSensitive)
    decreases Height(p.value), 1
  {
    var ms, i := t.members, FindMember(t.members, p.key, caseSensitive);
    TameTail(p, ps, caseSensitive);
    OnlyOne(t, p, caseSensitive);
    IntoIs(t, p, caseSensitive);
    if i < |ms| { HitByFirst(ms[i], p, ps, caseSensitive); }
    hide *;
    if i < |ms| && i == 0 && !t.back.Nowhere? {
      FirstHit(t, p, ps, caseSensitive);
    } else if p.value.Null? {
      assert Detached(ms, i) + [] == Detached(ms, i);
      RestHits(t, i, p, ps, Remaining(t, i), [], caseSensitive);
    } else {
      var previous := if i < |ms| then Some(ms[i].value) else None;
      StrictBreaks(previous, p.value, caseSensitive);
      var m := MergeTree(previous, p.value, caseSensitive);
      if m.Becomes? {
        NotHitAgain(p, m.tree, ps, caseSensitive);
        RestHits(t, i, p, ps, Rejoined(t, i, Member(p.key, m.tree), p.value.Object?), [Member(p.key, m.tree)], caseSensitive);
      } else {
        InnerHit(t, i, p, ps, caseSensitive);
      }
    }
  }

  /** The members without the one at a position, if there is one. */
  function Detached(ms: seq<Member<Tree>>, i: nat): seq<Member<Tree>> {
    if i < |ms| then ms[..i] + ms[i + 1..] else ms
  }

  lemma IntoIs(t: Tree, p: Member<Json>, caseSensitive: bool)
    requires t.Record?
    ensures var ms, i := t.members, FindMember(t.members, p.key, caseSensitive);
            var m := MergeTree(if i < |ms| then Some(ms[i].value) else None, p.value, caseSensitive);
            MergeInto(t, p, caseSensitive) ==
            if i < |ms| && i == 0 && !t.back.Nowhere? then Breaks
            else if p.value.Null? then Becomes(Remaining(t, i))
            else if m.Breaks? then Breaks
            else Becomes(Rejoined(t, i, Member(p.key, m.tree), p.value.Object?))
  {
    hide FindMember, MergeTree, Fold, Remaining, Rejoined;
  }

  lemma FirstHit(t: Tree, p: Member<Json>, ps: seq<Member<Json>>, caseSensitive: bool)
    requires t.Record? && !t.back.Nowhere? && t.members != [] && Partner([p] + ps, t.members[0].key, caseSensitive).Some?
    ensures RecordHits(t, [p] + ps, caseSensitive)
  {
    hide ChildHit, Partner;
  }

  lemma InnerHit(t: Tree, i: nat, p: Member<Json>, ps: seq<Member<Json>>, caseSensitive: bool)
    requires t.Record? && i < |t.members| && ChildHit(t.members[i], [p] + ps, caseSensitive)
    ensures RecordHits(t, [p] + ps, caseSensitive)
  {
    hide ChildHit, Partner;
  }

  /** The member under the patch's key, and no other one. */
  lemma OnlyOne(t: Tree, p: Member<Json>, caseSensitive: bool)
    requires t.Record? && Distinct(Content(t), caseSensitive)
    ensures var ms, i := t.members, FindMember(t.members, p.key, caseSensitive);
            && (i < |ms| ==> Fold(ms[i].key, caseSensitive) == Fold(p.key, caseSensitive) && Distinct(Content(ms[i].value), caseSensitive))
            && forall j | 0 <= j < |ms| && j != i :: Fold(ms[j].key, caseSensitive) != Fold(p.key, caseSensitive)
  {
    var ms, i := t.members, FindMember(t.members, p.key, caseSensitive);
    ContentDistinct(ms, caseSensitive);
    if i < |ms| {
      assert Distinct(MemberContents(ms)[i].value, caseSensitive);
      forall j | 0 <= j < |ms| && j != i ensures Fold(ms[j].key, caseSensitive) != Fold(p.key, caseSensitive) {
        assert Fold(ms[j].key, caseSensitive) != Fold(ms[i].key, caseSensitive);
      }
    }
  }

  lemma ContentDistinct(ms: seq<Member<Tree>>, caseSensitive: bool)
    requires Distinct(Object(MemberContents(ms)), caseSensitive)
    ensures DistinctKeys(ms, caseSensitive)
  {
    forall i, k | 0 <= i < k < |ms| ensures Fold(ms[i].key, caseSensitive) != Fold(ms[k].key, caseSensitive) {
      assert Fold(MemberContents(ms)[i].key, caseSensitive) != Fold(MemberContents(ms)[k].key, caseSensitive);
    }
  }

  /** The members without the one that was detached, and with one that is not hit again. */
  lemma RestHits(t: Tree, i: nat, p: Member<Json>, ps: seq<Member<Json>>, u: Tree, more: seq<Member<Tree>>, caseSensitive: bool)
    requires t.Record? && i <= |t.members| && |more| <= 1 && (i == 0 && t.members != [] ==> t.back.Nowhere?)
    requires u.Record? && u.members == Detached(t.members, i) + more
    requires u.members != [] ==> (!u.back.Nowhere? <==> !t.back.Nowhere? && Detached(t.members, i) != [])
    requires forall j | 0 <= j < |t.members| && j != i :: Fold(t.members[j].key, caseSensitive) != Fold(p.key, caseSensitive)
    requires i < |t.members| ==> !ChildHit(t.members[i], [p] + ps, caseSensitive)
    requires more != [] ==> !ChildHit(more[0], ps, caseSensitive)
    ensures RecordHits(u, ps, caseSensitive) <==> RecordHits(t, [p] + ps, caseSensitive)
  {
    var ms := t.members;
    var rest := Detached(ms, i);
    hide ChildHit, Fold, Partner;
    if ms != [] && i != 0 {
      HitByRest(ms[0], p, ps, caseSensitive);
      assert u.members[0] == ms[0];
    }
    assert FirstNamed(u, ps, caseSensitive) <==> FirstNamed(t, [p] + ps, caseSensitive);
    hide FirstNamed;
    assert AnyHit(rest + more, ps, caseSensitive) <==> AnyHit(rest, ps, caseSensitive) by { HitsMore(rest, more, ps, caseSensitive); }
    HitsWithout(ms, i, p, ps, caseSensitive);
    assert RecordHits(u, ps, caseSensitive) <==> FirstNamed(u, ps, caseSensitive) || AnyHit(u.members, ps, caseSensitive);
    assert RecordHits(t, [p] + ps, caseSensitive) <==> FirstNamed(t, [p] + ps, caseSensitive) || AnyHit(ms, [p] + ps, caseSensitive);
  }

  ghost predicate AnyHit(ms: seq<Member<Tree>>, ps: seq<Member<Json>>, caseSensitive: bool) {
    exists j | 0 <= j < |ms| :: ChildHit(ms[j], ps, caseSensitive)
  }

  lemma HitsMore(rest: seq<Member<Tree>>, more: seq<Member<Tree>>, ps: seq<Member<Json>>, caseSensitive: bool)
    requires |more| <= 1 && (more != [] ==> !ChildHit(more[0], ps, caseSensitive))
    ensures AnyHit(rest + more, ps, caseSensitive) <==> AnyHit(rest, ps, caseSensitive)
  {
    hide ChildHit;
    var all := rest + more;
    assert forall j | 0 <= j < |rest| :: all[j] == rest[j];
    assert more != [] ==> all[|rest|] == more[0];
  }

  lemma HitsWithout(ms: seq<Member<Tree>>, i: nat, p: Member<Json>, ps: seq<Member<Json>>, caseSensitive: bool)
    requires i <= |ms| && (i < |ms| ==> !ChildHit(ms[i], [p] + ps, caseSensitive))
    requires forall j | 0 <= j < |ms| && j != i :: Fold(ms[j].key, caseSensitive) != Fold(p.key, caseSensitive)
    ensures AnyHit(Detached(ms, i), ps, caseSensitive) <==> AnyHit(ms, [p] + ps, caseSensitive)
  {
    hide ChildHit, Fold;
    var rest := Detached(ms, i);
    forall j | 0 <= j < |ms| && j != i ensures ChildHit(ms[j], ps, caseSensitive) <==> ChildHit(ms[j], [p] + ps, caseSensitive) {
      HitByRest(ms[j], p, ps, caseSensitive);
    }
    if AnyHit(rest, ps, caseSensitive) {
      var j :| 0 <= j < |rest| && ChildHit(rest[j], ps, caseSensitive);
      assert rest[j] == ms[if j < i then j else j + 1];
    }
    if AnyHit(ms, [p] + ps, caseSensitive) {
      var j :| 0 <= j < |ms| && ChildHit(ms[j], [p] + ps, caseSensitive);
      assert j != i && rest[if j < i then j else j - 1] == ms[j];
    }
  }

  /** A merge breaks if and only if the patch names a first member that points back where it goes into. */
  lemma {:induction false} StrictBreaks(target: Option<Tree>, patch: Json, caseSensitive: bool)
    requires (target.Some? ==> Distinct(Content(target.value), caseSensitive)) && Tame(patch, caseSensitive) && Tidy(patch, caseSensitive)
    ensures MergeTree(target, patch, caseSensitive).Breaks? <==> target.Some? && MergeHits(target.value, patch, caseSensitive)
    decreases Height(patch), 0
  {
    if patch.Object? {
      if target.Some? && target.value.Record? {
        RecordBreaks(target.value, patch.members, caseSensitive);
      } else {
        CleanMerge(None, patch, caseSensitive, false, {});
      }
      hide MergeRecord, RecordHits;
    }
  }

  lemma {:induction false} RecordBreaks(t: Tree, ps: seq<Member<Json>>, caseSensitive: bool)
    requires t.Record? && Distinct(Content(t), caseSensitive) && TameMembers(ps, caseSensitive) && TidyValues(ps, caseSensitive)
    ensures MergeRecord(t, ps, caseSensitive).Breaks? <==> RecordHits(t, ps, caseSensitive)
    decreases MembersHeight(ps), |ps| + 1
  {
    if ps != [] {
      var p, rest := ps[0], ps[1..];
      assert ps == [p] + rest;
      TameTail(p, rest, caseSensitive);
      assert Tidy(p.value, caseSensitive) && TidyValues(rest, caseSensitive);
      hide Tidy, TidyValues;
      hide RecordHits, MergeInto, TameMembers, Distinct, Content, Tame;
      IntoHits(t, p, rest, caseSensitive);
      var r := MergeInto(t, p, caseSensitive);
      if r.Becomes? {
        IntoDistinct(t, p, caseSensitive);
        RecordBreaks(r.tree, rest, caseSensitive);
      }
    } else {
      forall j | 0 <= j < |t.members| ensures !ChildHit(t.members[j], ps, caseSensitive) { }
    }
  }

  lemma IntoDistinct(t: Tree, p: Member<Json>, caseSensitive: bool)
    requires t.Record? && Distinct(Content(t), caseSensitive) && Tidy(p.value, caseSensitive)
    ensures var r := MergeInto(t, p, caseSensitive); r.Becomes? ==> Distinct(Content(r.tree), caseSensitive)
  {
    MergeIntoContent(t, p, caseSensitive, false, {});
    MergeMemberInOrder(MemberContents(t.members), p, caseSensitive);
    hide MergeInto, MergeMember, MemberContents, View, ViewMembers, FieldInOrder, Distinct;
  }

  /**
   A merge does what it does on values if the patch names no first member that points back,
   where it goes into; and if it names one a list is broken, unless first members point at
   nodes in other lists.
   */
  lemma MergeBreaks(target: Option<Tree>, patch: Json, caseSensitive: bool, outside: set<nat>)
    requires (target.Some? ==> Distinct(Content(target.value), caseSensitive)) && Tame(patch, caseSensitive) && Tidy(patch, caseSensitive)
    ensures var m := MergeTree(target, patch, caseSensitive, true, outside);
            var hit := target.Some? && MergeHits(target.value, patch, caseSensitive);
            && (!hit ==> m.Becomes? && Content(m.tree) == Merge(ContentOption(target), patch, caseSensitive))
            && (hit && Home(target.value) ==> m.Breaks?)
  {
    hide *;
    StrictBreaks(target, patch, caseSensitive);
    StrictMerge(target, patch, caseSensitive, outside);
    MergeContent(target, patch, caseSensitive, true, outside);
    if target.Some? && Home(target.value) { HomeMerge(target, patch, caseSensitive, outside); }
  }

  /** The same for every patch whose keys are distinct, in either mode. */
  lemma DistinctBreaks(target: Option<Tree>, patch: Json, caseSensitive: bool, outside: set<nat>)
    requires (target.Some? ==> Distinct(Content(target.value), caseSensitive)) && Distinct(patch, caseSensitive)
    ensures var m := MergeTree(target, patch, caseSensitive, true, outside);
            var hit := target.Some? && MergeHits(target.value, patch, caseSensitive);
            && (!hit ==> m.Becomes? && Content(m.tree) == Merge(ContentOption(target), patch, caseSensitive))
            && (hit && Home(target.value) ==> m.Breaks?)
  {
    hide *;
    DistinctTame(patch, caseSensitive);
    DistinctTidy(patch, caseSensitive);
    MergeBreaks(target, patch, caseSensitive, outside);
  }

  // ---- Generated patches are tame ----

  lemma {:induction false} GenerateTame(from: Json, to: Json)
    requires Distinct(from, false) && Distinct(to, false)
    ensures var g := Generate(from, to); g.Some? ==> Tame(g.value, false)
    decreases Height(from), 0
  {
    if to.Object? && from.Object? {
      var ms, ns := Sort(from.members, false), Sort(to.members, false);
      SortHeight(from.members, false);
      SortsBothWays(from.members);
      SortsBothWays(to.members);
      hide Sort, Distinct;
      MembersTame(ms, ns);
    } else {
      DistinctTame(to, false);
    }
  }

  /** The generated members with a value have keys of the new object. */
  ghost predicate FromNew(ps: seq<Member<Json>>, ns: seq<Member<Json>>) {
    forall i | 0 <= i < |ps| && !ps[i].value.Null? :: Partner(ns, ps[i].key).Some?
  }

  lemma {:induction false} MembersTame(ms: seq<Member<Json>>, ns: seq<Member<Json>>)
    requires StrictOrder(ms) && StrictOrder(ns) && DistinctValues(ms, false) && DistinctValues(ns, false)
    ensures var ps := GenerateMembers(ms, ns); TameMembers(ps, false) && FromNew(ps, ns)
    decreases MembersHeight(ms), |ms| + |ns| + 1
  {
    if ms == [] && ns == [] {
      assert GenerateMembers(ms, ns) == [];
    } else {
      var diff := Lead(ms, ns);
      EmittedThen(map[], ms, ns);
      var ms', ns' := Rest(ms, diff <= 0), Rest(ns, diff >= 0);
      EmittedTame(ms, ns);
      assert StrictOrder(ms') && StrictOrder(ns') && DistinctValues(ms', false) && DistinctValues(ns', false);
      hide GenerateMembers, Emitted, Cmp, Distinct, FieldsInOrder, Tame, StrictOrder;
      MembersTame(ms', ns');
      JoinTame(Emitted(ms, ns), GenerateMembers(ms', ns'), ns, diff >= 0);
    }
  }

  /** One step emits at most one member; with a value, its key is the next new one. */
  lemma {:induction false} EmittedTame(ms: seq<Member<Json>>, ns: seq<Member<Json>>)
    requires ms != [] || ns != []
    requires DistinctValues(ms, false) && DistinctValues(ns, false)
    ensures var e := Emitted(ms, ns);
            && |e| <= 1
            && (e != [] ==> Tame(e[0].value, false) && (e[0].value.Null? || (Lead(ms, ns) >= 0 && e[0].key == ns[0].key)))
    decreases MembersHeight(ms), 1
  {
    var diff := Lead(ms, ns);
    assert diff >= 0 ==> Distinct(ns[0].value, false);
    assert diff <= 0 ==> Distinct(ms[0].value, false);
    if diff == 0 {
      ChildShape(ms[0], ns[0]);
      hide Distinct, CompareJson, Generate, View, RawFree, Consistent, NoNullMembers, Height, Tame;
      CompareJsonKeeps(ms[0].value, ns[0].value, false, false);
      CompareAlike(ms[0].value, ns[0].value);
      var c := CompareJson(ms[0].value, ns[0].value, false);
      GenerateTame(c.a, c.b);
    } else if diff > 0 {
      DistinctTame(ns[0].value, false);
    }
  }

  lemma JoinTame(e: seq<Member<Json>>, ps: seq<Member<Json>>, ns: seq<Member<Json>>, right: bool)
    requires |e| <= 1 && TameMembers(ps, false) && StrictOrder(ns) && FromNew(ps, Rest(ns, right))
    requires e != [] ==> Tame(e[0].value, false) && (e[0].value.Null? || (right && ns != [] && e[0].key == ns[0].key))
    ensures TameMembers(e + ps, false) && FromNew(e + ps, ns)
  {
    FromRest(ps, ns, right);
    if ns != [] { FoundBy(ns, 0); }
    hide Partner, Tame, Fold, StrictOrder, TameMembers, FromNew;
    if e == [] {
      assert e + ps == ps;
    } else {
      ConsTame(e[0], ps);
      ConsFromNew(e[0], ps, ns);
      assert e + ps == [e[0]] + ps;
    }
  }

  lemma FromRest(ps: seq<Member<Json>>, ns: seq<Member<Json>>, right: bool)
    requires StrictOrder(ns) && FromNew(ps, Rest(ns, right))
    ensures FromNew(ps, ns)
    ensures right && ns != [] ==> forall i | 0 <= i < |ps| && !ps[i].value.Null? :: Fold(ps[i].key, false) != Fold(ns[0].key, false)
  {
    if right && ns != [] {
      hide FindMember, StrictOrder;
      forall i | 0 <= i < |ps| && !ps[i].value.Null?
        ensures Partner(ns, ps[i].key).Some? && Fold(ps[i].key, false) != Fold(ns[0].key, false)
      {
        PartnerTail(ns, ps[i].key);
        FoldIsLower(ps[i].key);
        FoldIsLower(ns[0].key);
      }
    }
  }

  lemma ConsFromNew(p: Member<Json>, ps: seq<Member<Json>>, ns: seq<Member<Json>>)
    requires FromNew(ps, ns) && (p.value.Null? || Partner(ns, p.key).Some?)
    ensures FromNew([p] + ps, ns)
  {
    hide Partner;
    assert forall i | 0 < i < |[p] + ps| :: ([p] + ps)[i] == ps[i - 1];
  }

  lemma ConsTame(p: Member<Json>, ps: seq<Member<Json>>)
    requires TameMembers(ps, false) && Tame(p.value, false)
    requires !p.value.Null? ==> forall i | 0 <= i < |ps| && !ps[i].value.Null? :: Fold(ps[i].key, false) != Fold(p.key, false)
    ensures TameMembers([p] + ps, false)
  {
    hide Tame, Fold;
    var all := [p] + ps;
    forall i | 0 <= i < |all| ensures Tame(all[i].value, false) {
      if i > 0 { assert all[i] == ps[i - 1]; }
    }
    forall i, k | 0 <= i < k < |all| && Fold(all[i].key, false) == Fold(all[k].key, false)
      ensures all[i].value.Null? || all[k].value.Null?
    {
      TwoOf(p, ps, i, k);
    }
  }

  lemma TwoOf(p: Member<Json>, ps: seq<Member<Json>>, i: nat, k: nat)
    requires i < k < |[p] + ps|
    ensures ([p] + ps)[k] == ps[k - 1] && ([p] + ps)[i] == if i == 0 then p else ps[i - 1]
  {
  }

  lemma FoldIsLower(k: string)
    ensures Fold(k, false) == Lower(k)
  {
  }
}
