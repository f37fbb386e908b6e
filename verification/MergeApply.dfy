/** merge_patch: applying a JSON Merge Patch to a tree. */
module MergeApply {
  import opened Text
  import opened JsonTree
  import opened TreeCompare
  import opened Patch
  import opened MemberLists
  import Rfc = Rfc7396

  /** The children a merge starts from: none when the target is missing or not an object. */
  function TargetMembers(target: Option<Json>): seq<Member> {
    if target.Some? && target.value.Object? then target.value.members else []
  }

  /** get_object_item, as the node found. */
  function Found(ms: seq<Member>, key: string, cs: bool): Option<Json> {
    var i := Lookup(ms, key, cs);
    if i < |ms| then Some(ms[i].value) else None
  }

  /** merge_patch with a patch; no result when a duplicate cannot be made. */
  function Merged(target: Option<Json>, patch: Json, cs: bool): Option<Json>
    decreases Height(patch), 1, 0
  {
    if !patch.Object? then Duplicate(patch)
    else
      ChildHeight(patch);
      var ms := MergedMembers(TargetMembers(target), patch.members, cs, Height(patch));
      if ms.None? then None else Some(Object(ms.value))
  }

  /** The walk of merge_patch over the members of an object patch. */
  function MergedMembers(ms: seq<Member>, ps: seq<Member>, cs: bool, ghost h: nat): Option<seq<Member>>
    requires forall i | 0 <= i < |ps| :: Height(ps[i].value) < h
    decreases h, 0, |ps|
  {
    if ps == [] then Some(ms)
    else
      var p := ps[0];
      if p.value.Null? then MergedMembers(DeleteMember(ms, p.key, cs), ps[1..], cs, h)
      else
        var v := Merged(Found(ms, p.key, cs), p.value, cs);
        if v.None? then None
        else MergedMembers(DeleteMember(ms, p.key, cs) + [Member(p.key, v.value)], ps[1..], cs, h)
  }

  /** cJSONUtils_MergePatch and its case-sensitive twin; None is a null pointer. */
  function MergePatchUtil(target: Option<Json>, patch: Option<Json>, cs: bool): Option<Json> {
    if patch.None? then None else Merged(target, patch.value, cs)
  }

  /** The child of that name taken out of the target, if there is one. */
  method Take(ms: seq<Member>, key: string, cs: bool) returns (rest: seq<Member>, taken: Option<Json>)
    ensures rest == DeleteMember(ms, key, cs) && taken == Found(ms, key, cs)
  {
    var at := LookupLoop(ms, key, cs);
    hide First, Fold;
    rest, taken := ms, None;
    if at < |ms| {
      rest, taken := ms[..at] + ms[at + 1..], Some(ms[at].value);
    }
  }

  /** The member loop of merge_patch, editing the target's children as it goes. */
  method MergeLoop(target: Option<Json>, patch: Json, cs: bool) returns (r: Option<Json>)
    ensures r == Merged(target, patch, cs)
    decreases Height(patch)
  {
    hide DeleteMember, Found, Height;
    if !patch.Object? {
      return Duplicate(patch);
    }
    ChildHeight(patch);
    var ms := if target.Some? && target.value.Object? then target.value.members else [];
    var rest := patch.members;
    while rest != []
      invariant forall i | 0 <= i < |rest| :: Height(rest[i].value) < Height(patch)
      invariant MergedMembers(ms, rest, cs, Height(patch))
             == MergedMembers(TargetMembers(target), patch.members, cs, Height(patch))
      decreases |rest|
    {
      var child := rest[0];
      var replaceMe;
      ms, replaceMe := Take(ms, child.key, cs);
      if !child.value.Null? {
        var replacement := MergeLoop(replaceMe, child.value, cs);
        if replacement.None? {
          return None;
        }
        ms := ms + [Member(child.key, replacement.value)];
      }
      rest := rest[1..];
    }
    return Some(Object(ms));
  }

  // ---- when a result exists ----

  /** Every value the merge has to duplicate stays within the circular limit. */
  ghost predicate Copyable(patch: Json) {
    if patch.Object? then
      forall i | 0 <= i < |patch.members| :: patch.members[i].value.Null? || Copyable(patch.members[i].value)
    else Height(patch) <= CJSON_CIRCULAR_LIMIT
  }

  lemma {:induction false} LowCopyable(patch: Json)
    requires Height(patch) <= CJSON_CIRCULAR_LIMIT
    ensures Copyable(patch)
  {
    if patch.Object? {
      ChildHeight(patch);
      forall i | 0 <= i < |patch.members| ensures Copyable(patch.members[i].value) {
        LowCopyable(patch.members[i].value);
      }
    }
  }

  ghost predicate AllCopyable(ps: seq<Member>) {
    forall i | 0 <= i < |ps| :: ps[i].value.Null? || Copyable(ps[i].value)
  }

  lemma {:induction false} MergedMembersExists(ms: seq<Member>, ps: seq<Member>, cs: bool, h: nat)
    requires forall i | 0 <= i < |ps| :: Height(ps[i].value) < h
    ensures MergedMembers(ms, ps, cs, h).Some? <==> AllCopyable(ps)
    decreases h, 0, |ps|
  {
    if ps != [] {
      assert AllCopyable(ps) <==> (ps[0].value.Null? || Copyable(ps[0].value)) && AllCopyable(ps[1..]) by {
        assert ps == [ps[0]] + ps[1..];
      }
      var gone := DeleteMember(ms, ps[0].key, cs);
      if ps[0].value.Null? {
        MergedMembersExists(gone, ps[1..], cs, h);
      } else {
        var v := Merged(Found(ms, ps[0].key, cs), ps[0].value, cs);
        MergedExists(Found(ms, ps[0].key, cs), ps[0].value, cs);
        if v.Some? {
          MergedMembersExists(gone + [Member(ps[0].key, v.value)], ps[1..], cs, h);
        }
      }
    }
  }

  /** A merge yields a tree exactly when all it copies can be copied, whatever the target. */
  lemma {:induction false} MergedExists(target: Option<Json>, patch: Json, cs: bool)
    ensures Merged(target, patch, cs).Some? <==> Copyable(patch)
    decreases Height(patch), 1, 0
  {
    if patch.Object? {
      ChildHeight(patch);
      MergedMembersExists(TargetMembers(target), patch.members, cs, Height(patch));
    } else {
      DuplicateRecExact(patch, 0);
    }
  }

  // ---- the result is RFC 7396's ----

  ghost function DocOf(j: Option<Json>, cs: bool): Option<Doc> {
    if j.None? then None else Some(Meaning(j.value, cs))
  }

  lemma FoundMeaning(ms: seq<Member>, key: string, cs: bool)
    ensures DocOf(Found(ms, key, cs), cs) == Rfc.At(Meanings(ms, cs), Fold(key, cs))
  {
    KeysFirst(ms, Fold(key, cs), cs);
  }

  ghost predicate UniqueValues(ms: seq<Member>, cs: bool) {
    forall m | m in ms :: Unique(m.value, cs)
  }

  lemma UniqueMembers(ms: seq<Member>, cs: bool)
    ensures Unique(Object(ms), cs) <==> DistinctKeys(ms, cs) && UniqueValues(ms, cs)
  {
    if UniqueValues(ms, cs) {
      forall i | 0 <= i < |ms| ensures Unique(ms[i].value, cs) {
        assert ms[i] in ms;
      }
    }
  }

  lemma DeleteUnique(ms: seq<Member>, key: string, cs: bool)
    requires UniqueValues(ms, cs)
    ensures UniqueValues(DeleteMember(ms, key, cs), cs)
  {
  }

  lemma PutUnique(ms: seq<Member>, x: Member, cs: bool)
    requires UniqueValues(ms, cs) && Unique(x.value, cs)
    ensures UniqueValues(ms + [x], cs)
  {
  }

  lemma FoundUnique(ms: seq<Member>, key: string, cs: bool)
    requires UniqueValues(ms, cs)
    ensures Found(ms, key, cs).Some? ==> Unique(Found(ms, key, cs).value, cs)
  {
  }

  lemma PatchHead(ps: seq<Member>, cs: bool)
    requires ps != [] && DistinctKeys(ps, cs)
    ensures DistinctKeys(ps[1..], cs) && Fold(ps[0].key, cs) !in Meanings(ps[1..], cs)
    ensures Meanings(ps, cs) == Meanings(ps[1..], cs)[Fold(ps[0].key, cs) := Meaning(ps[0].value, cs)]
    ensures UniqueValues(ps, cs) ==> Unique(ps[0].value, cs) && UniqueValues(ps[1..], cs)
  {
    TailFacts(ps, cs);
    assert Meanings(ps[1..], cs).Keys == Keys(ps[1..], cs);
    assert ps[0] in ps;
  }

  lemma NoMeanings(cs: bool)
    ensures Meanings([], cs) == map[]
  {
  }

  lemma NullMeaning(j: Json, cs: bool)
    ensures Meaning(j, cs) == DNull <==> j.Null?
  {
  }

  lemma {:induction false} MergedMembersRfc(ms: seq<Member>, ps: seq<Member>, cs: bool, h: nat)
    returns (out: seq<Member>)
    requires forall i | 0 <= i < |ps| :: Height(ps[i].value) < h
    requires DistinctKeys(ms, cs) && DistinctKeys(ps, cs) && UniqueValues(ms, cs) && UniqueValues(ps, cs)
    requires AllCopyable(ps)
    ensures MergedMembers(ms, ps, cs, h) == Some(out)
    ensures DistinctKeys(out, cs) && UniqueValues(out, cs)
    ensures Meanings(out, cs) == Rfc.MergeMaps(Meanings(ms, cs), Meanings(ps, cs))
    decreases h, 0, |ps|
  {
    hide Merged, DistinctKeys, UniqueValues, DeleteMember, Found, Meanings, Fold, Rfc.MergeMaps;
    if ps == [] {
      out := ms;
      NoMeanings(cs);
      Rfc.EmptyStep(Meanings(ms, cs));
    } else {
      var p, rest, gone := ps[0], ps[1..], DeleteMember(ms, ps[0].key, cs);
      PatchHead(ps, cs);
      DeleteFacts(ms, p.key, cs);
      DeleteUnique(ms, p.key, cs);
      NullMeaning(p.value, cs);
      if p.value.Null? {
        out := MergedMembersRfc(gone, rest, cs, h);
        Rfc.RemoveStep(Meanings(ms, cs), Meanings(rest, cs), Fold(p.key, cs));
      } else {
        FoundUnique(ms, p.key, cs);
        var v := MergedRfc(Found(ms, p.key, cs), p.value, cs);
        var x := Member(p.key, v);
        FoundMeaning(ms, p.key, cs);
        PutFacts(ms, x, cs);
        PutUnique(gone, x, cs);
        out := MergedMembersRfc(gone + [x], rest, cs, h);
        Rfc.PutStep(Meanings(ms, cs), Meanings(rest, cs), Fold(p.key, cs), Meaning(p.value, cs));
      }
    }
  }

  /** merge_patch computes the MergePatch function of RFC 7396, and keeps keys unique. */
  lemma {:induction false} MergedRfc(target: Option<Json>, patch: Json, cs: bool) returns (r: Json)
    requires target.Some? ==> Unique(target.value, cs)
    requires Unique(patch, cs) && Copyable(patch)
    ensures Merged(target, patch, cs) == Some(r)
    ensures Unique(r, cs)
    ensures Meaning(r, cs) == Rfc.MergePatch(DocOf(target, cs), Meaning(patch, cs))
    decreases Height(patch), 1, 0
  {
    if !patch.Object? {
      DuplicateRecExact(patch, 0);
      r := patch;
      return;
    }
    ChildHeight(patch);
    var ms := TargetMembers(target);
    UniqueMembers(patch.members, cs);
    UniqueMembers(ms, cs);
    var out := MergedMembersRfc(ms, patch.members, cs, Height(patch));
    r := Object(out);
    UniqueMembers(out, cs);
    TargetMeanings(target, cs);
  }

  lemma TargetMeanings(target: Option<Json>, cs: bool)
    ensures Meanings(TargetMembers(target), cs) == Rfc.MembersOf(DocOf(target, cs))
  {
    assert Meanings([], cs) == map[];
  }

  /** Merging the same patch twice is merging it once. */
  lemma MergedTwice(target: Option<Json>, patch: Json, cs: bool)
    requires target.Some? ==> Unique(target.value, cs)
    requires Unique(patch, cs) && Copyable(patch)
    ensures Merged(target, patch, cs).Some?
    ensures var once := Merged(target, patch, cs);
      var twice := Merged(once, patch, cs);
      twice.Some? && Meaning(twice.value, cs) == Meaning(once.value, cs)
  {
    var once := MergedRfc(target, patch, cs);
    var twice := MergedRfc(Some(once), patch, cs);
    Rfc.MergeIdempotent(DocOf(target, cs), Meaning(patch, cs));
  }
}
