/** Which members a merge leaves, member by member and in which order. */
module MergeOrder {
  import opened Text
  import opened JsonTree
  import opened TreeCompare
  import opened Patch
  import opened MemberLists
  import opened MergeApply

  /** The members whose names the patch does not mention, in their order. */
  function Untouched(ms: seq<Member>, ps: seq<Member>, cs: bool): seq<Member> {
    if ms == [] then []
    else (if First(ps, Fold(ms[0].key, cs), cs) == |ps| then [ms[0]] else []) + Untouched(ms[1..], ps, cs)
  }

  /**
   * One new member for every value of the patch that is not null, in the order and by the names of the
   * patch; its value is that of the patch merged into what the object had under the name.
   */
  ghost predicate AreMerged(out: seq<Member>, ms: seq<Member>, ps: seq<Member>, cs: bool)
    decreases |ps|
  {
    if ps == [] then out == []
    else if ps[0].value.Null? then AreMerged(out, ms, ps[1..], cs)
    else
      && out != [] && out[0].key == ps[0].key
      && Merged(Found(ms, ps[0].key, cs), ps[0].value, cs) == Some(out[0].value)
      && AreMerged(out[1..], ms, ps[1..], cs)
  }

  // ---- one member of the patch ----

  lemma {:induction false} UntouchedSplit(a: seq<Member>, b: seq<Member>, ps: seq<Member>, cs: bool)
    ensures Untouched(a + b, ps, cs) == Untouched(a, ps, cs) + Untouched(b, ps, cs)
    decreases |a|
  {
    hide *;
    if a == [] {
      NothingLeft(b, ps, cs);
    } else {
      HeadLeft(a, ps, cs);
      HeadLeft(a + b, ps, cs);
      assert (a + b)[0] == a[0] && (a + b)[1..] == a[1..] + b;
      UntouchedSplit(a[1..], b, ps, cs);
    }
  }

  lemma NothingLeft(b: seq<Member>, ps: seq<Member>, cs: bool)
    ensures Untouched([] + b, ps, cs) == Untouched([], ps, cs) + Untouched(b, ps, cs)
  {
    hide First, Fold;
    assert [] + b == b;
  }

  lemma HeadLeft(ms: seq<Member>, ps: seq<Member>, cs: bool)
    requires ms != []
    ensures Untouched(ms, ps, cs)
      == (if First(ps, Fold(ms[0].key, cs), cs) == |ps| then [ms[0]] else []) + Untouched(ms[1..], ps, cs)
  {
    hide First, Fold;
  }

  lemma UntouchedOne(x: Member, ps: seq<Member>, cs: bool)
    requires Fold(x.key, cs) !in Keys(ps, cs)
    ensures Untouched([x], ps, cs) == [x]
  {
    KeysFirst(ps, Fold(x.key, cs), cs);
    assert [x][1..] == [];
    hide First, Fold;
  }

  lemma FirstCons(p: Member, ps: seq<Member>, fk: string, cs: bool)
    ensures First([p] + ps, fk, cs) == |[p] + ps| <==> Fold(p.key, cs) != fk && First(ps, fk, cs) == |ps|
  {
    assert ([p] + ps)[1..] == ps;
    hide Fold;
  }

  /** Members with other names are untouched by a first member of the patch too. */
  lemma {:induction false} UntouchedOthers(ms: seq<Member>, p: Member, ps: seq<Member>, cs: bool)
    requires Fold(p.key, cs) !in Keys(ms, cs)
    ensures Untouched(ms, [p] + ps, cs) == Untouched(ms, ps, cs)
    decreases |ms|
  {
    hide First, Fold;
    if ms != [] {
      assert ms[0] in ms && forall m | m in ms[1..] :: m in ms;
      FirstCons(p, ps, Fold(ms[0].key, cs), cs);
      UntouchedOthers(ms[1..], p, ps, cs);
    }
  }

  lemma {:induction false} UntouchedDelete(ms: seq<Member>, p: Member, ps: seq<Member>, cs: bool)
    requires DistinctKeys(ms, cs)
    ensures Untouched(DeleteMember(ms, p.key, cs), ps, cs) == Untouched(ms, [p] + ps, cs)
  {
    var fk := Fold(p.key, cs);
    var i := First(ms, fk, cs);
    KeysFirst(ms, fk, cs);
    hide First, Fold, Untouched;
    if i == |ms| {
      UntouchedOthers(ms, p, ps, cs);
    } else {
      var front, back := ms[..i], ms[i + 1..];
      assert ms == front + ([ms[i]] + back) && DropAt(ms, i) == front + back;
      Apart(ms, i, cs);
      UntouchedSplit(front, [ms[i]] + back, [p] + ps, cs);
      UntouchedSplit([ms[i]], back, [p] + ps, cs);
      UntouchedSplit(front, back, ps, cs);
      UntouchedOthers(front, p, ps, cs);
      UntouchedOthers(back, p, ps, cs);
      Touched(ms[i], p, ps, cs);
    }
  }

  lemma Apart(ms: seq<Member>, i: nat, cs: bool)
    requires i < |ms| && DistinctKeys(ms, cs)
    ensures Fold(ms[i].key, cs) !in Keys(ms[..i], cs) && Fold(ms[i].key, cs) !in Keys(ms[i + 1..], cs)
  {
    hide Fold;
    forall m | m in ms[..i] ensures Fold(m.key, cs) != Fold(ms[i].key, cs) {
      var k :| 0 <= k < i && ms[k] == m;
    }
    forall m | m in ms[i + 1..] ensures Fold(m.key, cs) != Fold(ms[i].key, cs) {
      var k :| 0 <= k < |ms[i + 1..]| && ms[i + 1..][k] == m;
      assert ms[i + 1 + k] == m;
    }
  }

  lemma Touched(x: Member, p: Member, ps: seq<Member>, cs: bool)
    requires Fold(x.key, cs) == Fold(p.key, cs)
    ensures Untouched([x], [p] + ps, cs) == []
  {
    FirstCons(p, ps, Fold(x.key, cs), cs);
    assert [x][1..] == [];
    hide First, Fold;
  }

  lemma FoundInFront(ms: seq<Member>, tail: seq<Member>, q: string, cs: bool)
    requires forall m | m in tail :: Fold(m.key, cs) != Fold(q, cs)
    ensures Found(ms + tail, q, cs) == Found(ms, q, cs)
  {
    hide Fold;
    var fk := Fold(q, cs);
    var j := Lookup(ms, q, cs);
    var all := ms + tail;
    if j < |ms| {
      FirstIs(all, fk, cs, j);
    } else {
      forall k | 0 <= k < |all| ensures Fold(all[k].key, cs) != fk {
        assert k >= |ms| ==> all[k] == tail[k - |ms|] && tail[k - |ms|] in tail;
      }
      FirstIs(all, fk, cs, |all|);
    }
  }

  lemma FoundWithout(ms: seq<Member>, i: nat, q: string, cs: bool)
    requires i < |ms| && Fold(ms[i].key, cs) != Fold(q, cs)
    ensures Found(DropAt(ms, i), q, cs) == Found(ms, q, cs)
  {
    hide Fold;
    var fk := Fold(q, cs);
    var j := Lookup(ms, q, cs);
    var rest := DropAt(ms, i);
    if j < |ms| {
      FirstIs(rest, fk, cs, if j < i then j else j - 1);
    } else {
      FirstIs(rest, fk, cs, |rest|);
    }
  }

  /** Taking out one name, and putting it back at the end, leaves what is found under the others. */
  lemma FoundOthers(ms: seq<Member>, p: string, q: string, tail: seq<Member>, cs: bool)
    requires Fold(p, cs) != Fold(q, cs) && forall m | m in tail :: Fold(m.key, cs) == Fold(p, cs)
    ensures Found(DeleteMember(ms, p, cs) + tail, q, cs) == Found(ms, q, cs)
  {
    hide Fold, Found, First;
    var i := Lookup(ms, p, cs);
    FoundInFront(DeleteMember(ms, p, cs), tail, q, cs);
    if i < |ms| {
      FoundWithout(ms, i, q, cs);
    }
  }

  lemma {:induction false} SameFound(out: seq<Member>, ms: seq<Member>, ms': seq<Member>, ps: seq<Member>, cs: bool)
    requires forall i | 0 <= i < |ps| :: Found(ms, ps[i].key, cs) == Found(ms', ps[i].key, cs)
    ensures AreMerged(out, ms, ps, cs) == AreMerged(out, ms', ps, cs)
    decreases |ps|
  {
    hide Merged, Found;
    if ps != [] {
      assert Found(ms, ps[0].key, cs) == Found(ms', ps[0].key, cs);
      forall i | 0 <= i < |ps| - 1 ensures Found(ms, ps[1..][i].key, cs) == Found(ms', ps[1..][i].key, cs) {
        assert ps[1..][i] == ps[i + 1];
      }
      SameFound(out, ms, ms', ps[1..], cs);
      if out != [] {
        SameFound(out[1..], ms, ms', ps[1..], cs);
      }
    }
  }

  // ---- the whole patch ----

  lemma {:induction false} MembersInOrder(ms: seq<Member>, ps: seq<Member>, cs: bool, h: nat)
    returns (added: seq<Member>)
    requires forall i | 0 <= i < |ps| :: Height(ps[i].value) < h
    requires DistinctKeys(ms, cs) && DistinctKeys(ps, cs) && AllCopyable(ps)
    ensures MergedMembers(ms, ps, cs, h) == Some(Untouched(ms, ps, cs) + added) && AreMerged(added, ms, ps, cs)
    decreases |ps|
  {
    hide Merged, DistinctKeys, DeleteMember, Found, Fold, Untouched, Copyable, Height, AreMerged;
    if ps == [] {
      added := [];
      NothingTouched(ms, cs);
      assert ms + [] == ms;
    } else {
      var p, rest, gone := ps[0], ps[1..], DeleteMember(ms, ps[0].key, cs);
      PatchHead(ps, cs);
      DeleteFacts(ms, p.key, cs);
      assert AllCopyable(rest);
      if p.value.Null? {
        added := MembersInOrder(gone, rest, cs, h);
        NullTurn(ms, ps, added, cs);
      } else {
        MergedExists(Found(ms, p.key, cs), p.value, cs);
        var x := Member(p.key, Merged(Found(ms, p.key, cs), p.value, cs).value);
        PutFacts(ms, x, cs);
        var more := MembersInOrder(gone + [x], rest, cs, h);
        added := [x] + more;
        PutTurn(ms, ps, x, more, cs);
      }
    }
  }

  lemma NullTurn(ms: seq<Member>, ps: seq<Member>, added: seq<Member>, cs: bool)
    requires ps != [] && ps[0].value.Null? && DistinctKeys(ms, cs) && DistinctKeys(ps, cs)
    requires AreMerged(added, DeleteMember(ms, ps[0].key, cs), ps[1..], cs)
    ensures AreMerged(added, ms, ps, cs)
    ensures Untouched(DeleteMember(ms, ps[0].key, cs), ps[1..], cs) == Untouched(ms, ps, cs)
  {
    hide Merged, DistinctKeys, DeleteMember, Found, Fold, Untouched;
    var gone := DeleteMember(ms, ps[0].key, cs);
    OthersFound(ms, ps, [], cs);
    assert gone + [] == gone;
    SameFound(added, ms, gone, ps[1..], cs);
    UntouchedDelete(ms, ps[0], ps[1..], cs);
    assert ps == [ps[0]] + ps[1..];
  }

  lemma PutTurn(ms: seq<Member>, ps: seq<Member>, x: Member, more: seq<Member>, cs: bool)
    requires ps != [] && !ps[0].value.Null? && DistinctKeys(ms, cs) && DistinctKeys(ps, cs)
    requires x.key == ps[0].key && Merged(Found(ms, x.key, cs), ps[0].value, cs) == Some(x.value)
    requires AreMerged(more, DeleteMember(ms, ps[0].key, cs) + [x], ps[1..], cs)
    ensures AreMerged([x] + more, ms, ps, cs)
    ensures Untouched(DeleteMember(ms, ps[0].key, cs) + [x], ps[1..], cs) + more == Untouched(ms, ps, cs) + ([x] + more)
  {
    hide Merged, DistinctKeys, DeleteMember, Found, Fold, Untouched;
    var gone, rest := DeleteMember(ms, ps[0].key, cs), ps[1..];
    OthersFound(ms, ps, [x], cs);
    SameFound(more, ms, gone + [x], rest, cs);
    assert ([x] + more)[1..] == more;
    UntouchedDelete(ms, ps[0], rest, cs);
    assert ps == [ps[0]] + rest;
    UntouchedSplit(gone, [x], rest, cs);
    NotInRest(ps, cs);
    UntouchedOne(x, rest, cs);
    assert (Untouched(gone, rest, cs) + [x]) + more == Untouched(gone, rest, cs) + ([x] + more);
  }

  lemma {:induction false} NothingTouched(ms: seq<Member>, cs: bool)
    ensures Untouched(ms, [], cs) == ms && AreMerged([], ms, [], cs)
    decreases |ms|
  {
    if ms != [] {
      NothingTouched(ms[1..], cs);
      assert ms == [ms[0]] + ms[1..];
    }
  }

  lemma NotInRest(ps: seq<Member>, cs: bool)
    requires ps != [] && DistinctKeys(ps, cs)
    ensures Fold(ps[0].key, cs) !in Keys(ps[1..], cs)
  {
    Apart(ps, 0, cs);
  }

  lemma OthersFound(ms: seq<Member>, ps: seq<Member>, tail: seq<Member>, cs: bool)
    requires ps != [] && DistinctKeys(ms, cs) && DistinctKeys(ps, cs)
    requires tail == [] || (|tail| == 1 && tail[0].key == ps[0].key)
    ensures forall i | 0 <= i < |ps[1..]| ::
      Found(ms, ps[1..][i].key, cs) == Found(DeleteMember(ms, ps[0].key, cs) + tail, ps[1..][i].key, cs)
  {
    hide Fold, Found, DeleteMember;
    forall i | 0 <= i < |ps[1..]|
      ensures Found(ms, ps[1..][i].key, cs) == Found(DeleteMember(ms, ps[0].key, cs) + tail, ps[1..][i].key, cs)
    {
      assert ps[1..][i] == ps[i + 1];
      assert Fold(ps[0].key, cs) != Fold(ps[i + 1].key, cs);
      FoundOthers(ms, ps[0].key, ps[i + 1].key, tail, cs);
    }
  }

  /**
   * Merging an object patch into any target, keys unique: the members that the patch does not mention stay
   * in front, untouched and in their order; behind them stand the merged ones in the order of the patch.
   */
  lemma MergedInOrder(target: Option<Json>, patch: Json, cs: bool) returns (added: seq<Member>)
    requires patch.Object? && DistinctKeys(patch.members, cs) && Copyable(patch)
    requires target.Some? && target.value.Object? ==> DistinctKeys(target.value.members, cs)
    ensures var ms := if target.Some? && target.value.Object? then target.value.members else [];
      && Merged(target, patch, cs) == Some(Object(Untouched(ms, patch.members, cs) + added))
      && AreMerged(added, ms, patch.members, cs)
  {
    hide DistinctKeys, Untouched, Height, AreMerged;
    ChildHeight(patch);
    assert AllCopyable(patch.members);
    assert DistinctKeys([], cs) by {
      NoneApart(cs);
    }
    added := MembersInOrder(TargetMembers(target), patch.members, cs, Height(patch));
  }

  lemma NoneApart(cs: bool)
    ensures DistinctKeys([], cs)
  {
  }
}
