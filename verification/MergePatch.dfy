/**
 JSON Merge Patch: `merge_patch` against the recursive function of section 2 of RFC 7396,
 and the round trip with `generate_merge_patch`.
 */
module MergePatch {
  import opened Options
  import opened CString
  import opened Json

  type Fields = map<string, Value>

  // ---- RFC 7396 on views ----

  /** `MergePatch(Target, Patch)`; None is an absent target. */
  function Merged(target: Option<Value>, patch: Value): Value
    decreases patch, 1
  {
    if patch.Obj? then
      Obj(MergedFields(if target.Some? && target.value.Obj? then target.value.fields else map[], patch))
    else patch
  }

  function MergedFields(base: Fields, patch: Value): Fields
    requires patch.Obj?
    decreases patch, 0
  {
    map k | k in base.Keys + patch.fields.Keys && !(k in patch.fields && patch.fields[k] == Leaf(Null)) ::
      if k in patch.fields then Merged(if k in base then Some(base[k]) else None, patch.fields[k]) else base[k]
  }

  // ---- merge_patch ----

  function Merge(target: Option<Json>, patch: Json, caseSensitive: bool): Json
    decreases Height(patch), 0
  {
    if !patch.Object? then patch
    else
      var base := if target.Some? && target.value.Object? then target.value.members else [];
      Object(MergeMembers(base, patch.members, caseSensitive))
  }

  /** The loop over the members of the patch. */
  function MergeMembers(ms: seq<Member<Json>>, patch: seq<Member<Json>>, caseSensitive: bool): seq<Member<Json>>
    decreases MembersHeight(patch), |patch| + 1
  {
    if patch == [] then ms
    else MergeMembers(MergeMember(ms, patch[0], caseSensitive), patch[1..], caseSensitive)
  }

  /** One round: a null deletes, anything else is merged into what was detached and appended. */
  function MergeMember(ms: seq<Member<Json>>, p: Member<Json>, caseSensitive: bool): seq<Member<Json>>
    decreases Height(p.value), 1
  {
    var i := FindMember(ms, p.key, caseSensitive);
    var rest := if i < |ms| then ms[..i] + ms[i + 1..] else ms;
    if p.value.Null? then rest
    else
      var previous := if i < |ms| then Some(ms[i].value) else None;
      rest + [Member(p.key, Merge(previous, p.value, caseSensitive))]
  }

  function ViewOption(t: Option<Json>, caseSensitive: bool): Option<Value> {
    if t.Some? then Some(View(t.value, caseSensitive)) else None
  }

  // ---- A patch as it is read: member after member ----

  /** What a patch makes of a target if its members count in order; a key may come more than once. */
  function MergedInOrder(target: Option<Value>, patch: Json, caseSensitive: bool): Value
    decreases Height(patch), 0
  {
    if patch.Object? then
      Obj(FieldsInOrder(if target.Some? && target.value.Obj? then target.value.fields else map[], patch.members, caseSensitive))
    else View(patch, caseSensitive)
  }

  function FieldsInOrder(base: Fields, ps: seq<Member<Json>>, caseSensitive: bool): Fields
    decreases MembersHeight(ps), |ps| + 1
  {
    if ps == [] then base else FieldsInOrder(FieldInOrder(base, ps[0], caseSensitive), ps[1..], caseSensitive)
  }

  function FieldInOrder(base: Fields, p: Member<Json>, caseSensitive: bool): Fields
    decreases Height(p.value), 1
  {
    var k := Fold(p.key, caseSensitive);
    if p.value.Null? then base - {k}
    else base[k := MergedInOrder(if k in base then Some(base[k]) else None, p.value, caseSensitive)]
  }

  /** The objects of the patch itself may name a key twice, but nothing that is copied from it does. */
  predicate Tidy(patch: Json, caseSensitive: bool) {
    match patch
    case Object(members) => TidyValues(members, caseSensitive)
    case _ => Distinct(patch, caseSensitive)
  }

  predicate TidyValues(ps: seq<Member<Json>>, caseSensitive: bool) {
    forall i | 0 <= i < |ps| :: Tidy(ps[i].value, caseSensitive)
  }

  lemma {:induction false} DistinctTidy(j: Json, caseSensitive: bool)
    requires Distinct(j, caseSensitive)
    ensures Tidy(j, caseSensitive)
  {
    if j.Object? {
      forall i | 0 <= i < |j.members| ensures Tidy(j.members[i].value, caseSensitive) {
        DistinctTidy(j.members[i].value, caseSensitive);
      }
    }
  }

  /** `merge_patch` takes the members in order, and keeps keys distinct. */
  lemma {:induction false} MergeInOrder(target: Option<Json>, patch: Json, caseSensitive: bool)
    requires target.Some? ==> Distinct(target.value, caseSensitive)
    requires Tidy(patch, caseSensitive)
    ensures Means(Merge(target, patch, caseSensitive),
                  MergedInOrder(ViewOption(target, caseSensitive), patch, caseSensitive), caseSensitive)
    decreases Height(patch), 0
  {
    if patch.Object? {
      var base := if target.Some? && target.value.Object? then target.value.members else [];
      MergeMembersInOrder(base, patch.members, caseSensitive);
    }
  }

  lemma {:induction false} MergeMembersInOrder(ms: seq<Member<Json>>, ps: seq<Member<Json>>, caseSensitive: bool)
    requires Distinct(Object(ms), caseSensitive) && TidyValues(ps, caseSensitive)
    ensures Means(Object(MergeMembers(ms, ps, caseSensitive)),
                  Obj(FieldsInOrder(ViewMembers(ms, caseSensitive), ps, caseSensitive)), caseSensitive)
    decreases MembersHeight(ps), |ps| + 1
  {
    if ps != [] {
      MergeMemberInOrder(ms, ps[0], caseSensitive);
      hide Distinct, Fold, MergeMember, FieldInOrder, Tidy;
      MergeMembersInOrder(MergeMember(ms, ps[0], caseSensitive), ps[1..], caseSensitive);
    }
  }

  lemma {:induction false} MergeMemberInOrder(ms: seq<Member<Json>>, p: Member<Json>, caseSensitive: bool)
    requires Distinct(Object(ms), caseSensitive) && Tidy(p.value, caseSensitive)
    ensures Means(Object(MergeMember(ms, p, caseSensitive)),
                  Obj(FieldInOrder(ViewMembers(ms, caseSensitive), p, caseSensitive)), caseSensitive)
    decreases Height(p.value), 1
  {
    hide Distinct, MergedInOrder, Merge, Fold, FindMember, ViewMembers, View, Height, Tidy;
    WithoutKey(ms, p.key, caseSensitive);
    if !p.value.Null? {
      var i := FindMember(ms, p.key, caseSensitive);
      var previous := if i < |ms| then Some(ms[i].value) else None;
      MergeInOrder(previous, p.value, caseSensitive);
      WithMember(ms, p.key, Merge(previous, p.value, caseSensitive), caseSensitive);
    }
  }

  // ---- Refinement of RFC 7396 ----

  /** With distinct keys the order does not count, and this is the function of the RFC. */
  lemma {:induction false} InOrderIsMerged(target: Option<Value>, patch: Json, caseSensitive: bool)
    requires Distinct(patch, caseSensitive)
    ensures MergedInOrder(target, patch, caseSensitive) == Merged(target, View(patch, caseSensitive))
    decreases Height(patch), 0
  {
    if patch.Object? {
      var base := if target.Some? && target.value.Obj? then target.value.fields else map[];
      FieldsAreMerged(base, patch.members, caseSensitive);
    }
  }

  lemma {:induction false} FieldsAreMerged(base: Fields, ps: seq<Member<Json>>, caseSensitive: bool)
    requires Distinct(Object(ps), caseSensitive)
    ensures FieldsInOrder(base, ps, caseSensitive) == MergedFields(base, Obj(ViewMembers(ps, caseSensitive)))
    decreases MembersHeight(ps), |ps| + 1
  {
    if ps == [] {
      assert MergedFields(base, Obj(map[])) == base;
    } else {
      var p, k := ps[0], Fold(ps[0].key, caseSensitive);
      PatchTail(ps, caseSensitive);
      ViewIsNull(p.value, caseSensitive);
      hide Distinct, MergedFields, Fold, View;
      InOrderIsMerged(if k in base then Some(base[k]) else None, p.value, caseSensitive);
      FieldsAreMerged(FieldInOrder(base, p, caseSensitive), ps[1..], caseSensitive);
      MergedStep(base, ViewMembers(ps[1..], caseSensitive), k, View(p.value, caseSensitive));
      hide MergedInOrder, Merged;
    }
  }

  /** What one member of the patch does to the fields of the target. */
  ghost function MergedField(base: Fields, k: string, p: Value): Fields {
    if p == Leaf(Null) then base - {k} else base[k := Merged(if k in base then Some(base[k]) else None, p)]
  }

  /** `merge_patch` computes the function of the RFC, up to member order. */
  lemma MergeRefines(target: Option<Json>, patch: Json, caseSensitive: bool)
    requires target.Some? ==> Distinct(target.value, caseSensitive)
    requires Distinct(patch, caseSensitive)
    ensures Means(Merge(target, patch, caseSensitive),
                  Merged(ViewOption(target, caseSensitive), View(patch, caseSensitive)), caseSensitive)
  {
    DistinctTidy(patch, caseSensitive);
    MergeInOrder(target, patch, caseSensitive);
    InOrderIsMerged(ViewOption(target, caseSensitive), patch, caseSensitive);
    hide View, Distinct, Merge, Merged, MergedInOrder, Tidy;
  }

  lemma ViewIsNull(j: Json, caseSensitive: bool)
    ensures j.Null? <==> View(j, caseSensitive) == Leaf(Null)
  {
  }

  lemma PatchTail(ms: seq<Member<Json>>, caseSensitive: bool)
    requires Distinct(Object(ms), caseSensitive) && ms != []
    ensures Distinct(Object(ms[1..]), caseSensitive) && Distinct(ms[0].value, caseSensitive)
    ensures Fold(ms[0].key, caseSensitive) !in ViewMembers(ms[1..], caseSensitive)
  {
    ViewKeys(ms[1..], caseSensitive);
    hide View;
  }

  lemma MergedStep(base: Fields, tail: Fields, k: string, p: Value)
    requires k !in tail
    ensures MergedFields(base, Obj(tail[k := p])) == MergedFields(MergedField(base, k, p), Obj(tail))
  {
  }

  /** Applying a merge patch twice is applying it once. */
  lemma {:induction false} MergedTwice(target: Option<Value>, patch: Value)
    ensures Merged(Some(Merged(target, patch)), patch) == Merged(target, patch)
    decreases patch
  {
    if patch.Obj? {
      var base := if target.Some? && target.value.Obj? then target.value.fields else map[];
      var once := MergedFields(base, patch);
      forall k | k in patch.fields && patch.fields[k] != Leaf(Null)
        ensures k in once && Merged(Some(once[k]), patch.fields[k]) == once[k]
      {
        MergedTwice(if k in base then Some(base[k]) else None, patch.fields[k]);
      }
      assert MergedFields(once, patch) == once;
    }
  }

  lemma MergeIdempotent(target: Option<Json>, patch: Json, caseSensitive: bool)
    requires target.Some? ==> Distinct(target.value, caseSensitive)
    requires Distinct(patch, caseSensitive)
    ensures var once := Merge(target, patch, caseSensitive);
            View(Merge(Some(once), patch, caseSensitive), caseSensitive) == View(once, caseSensitive)
  {
    var once := Merge(target, patch, caseSensitive);
    MergeRefines(target, patch, caseSensitive);
    MergeRefines(Some(once), patch, caseSensitive);
    MergedTwice(ViewOption(target, caseSensitive), View(patch, caseSensitive));
    hide View, Merge, Merged, Distinct;
  }
}
