/** One member removed: exactly when the generated merge patch keeps the others. */
module MergeExact {
  import opened Text
  import opened JsonTree
  import opened SortedMembers
  import opened TreeCompare
  import opened CompareInPlace
  import opened Patch
  import opened MemberLists
  import opened MergeApply
  import opened MergeGen

  // ---- equal parts need no patch ----

  lemma CommonHead(f: seq<Member>, t: seq<Member>, h: nat)
    requires forall i | 0 <= i < |t| :: Height(t[i].value) < h
    requires f != [] && t != [] && f[0] == t[0] && Sound(f[0].value, false)
    ensures GenerateMembers(f, t, false, h) == GenerateMembers(f[1..], t[1..], false, h)
  {
    hide CompareJson, Generate;
    CompareStringsOrder(f[0].key, f[0].key, true);
    CompareJsonDecidesMeaning(f[0].value, f[0].value, false);
  }

  lemma {:induction false} GenerateSelf(f: seq<Member>, h: nat)
    requires forall i | 0 <= i < |f| :: Height(f[i].value) < h && Sound(f[i].value, false)
    ensures GenerateMembers(f, f, false, h) == []
    decreases |f|
  {
    if f != [] {
      CommonHead(f, f, h);
      GenerateSelf(f[1..], h);
    }
  }

  lemma DropBehind<T>(s: seq<T>, k: nat)
    requires 0 < k < |s|
    ensures DropAt(s, k)[0] == s[0] && DropAt(s, k)[1..] == DropAt(s[1..], k - 1)
  {
  }

  // ---- strcmp puts the removed key in front of the next one ----

  lemma {:induction false} RemovedPatch(s: seq<Member>, k: nat, h: nat)
    requires k < |s| && (k + 1 == |s| || Before(s[k].key, s[k + 1].key))
    requires forall i | 0 <= i < |s| :: Height(s[i].value) < h && Sound(s[i].value, false)
    ensures forall i | 0 <= i < |s| - 1 :: Height(DropAt(s, k)[i].value) < h
    ensures GenerateMembers(s, DropAt(s, k), false, h) == [Member(s[k].key, Null)]
    decreases k
  {
    hide Sound, Height, GenerateMembers;
    if k == 0 {
      assert DropAt(s, 0) == s[1..];
      FirstRemoved(s, h);
    } else {
      DropBehind(s, k);
      RemovedPatch(s[1..], k - 1, h);
      CommonHead(s, DropAt(s, k), h);
    }
  }

  lemma FirstRemoved(s: seq<Member>, h: nat)
    requires s != [] && (|s| == 1 || Before(s[0].key, s[1].key))
    requires forall i | 0 <= i < |s| :: Height(s[i].value) < h && Sound(s[i].value, false)
    ensures GenerateMembers(s, s[1..], false, h) == [Member(s[0].key, Null)]
  {
    hide Sound, Height, Generate, Left, CompareJson;
    GenerateSelf(s[1..], h);
    if |s| > 1 {
      CompareStringsOrder(s[0].key, s[1].key, true);
    }
  }

  // ---- strcmp puts the next key in front ----

  /** The patch ends up deleting the folded key: it names it with null, and not again behind that. */
  ghost predicate Clears(ps: seq<Member>, fk: string) {
    exists i :: 0 <= i < |ps| && Fold(ps[i].key, false) == fk && ps[i].value.Null?
      && fk !in Keys(ps[i + 1..], false)
  }

  lemma KeysCons(x: Member, ps: seq<Member>)
    ensures Keys([x] + ps, false) == {Fold(x.key, false)} + Keys(ps, false)
  {
    forall m | m in ps ensures Fold(m.key, false) in Keys([x] + ps, false) {
      assert m in [x] + ps;
    }
    assert x in [x] + ps;
  }

  lemma ClearsCons(x: Member, ps: seq<Member>, fk: string)
    requires Clears(ps, fk)
    ensures Clears([x] + ps, fk)
  {
    var i :| 0 <= i < |ps| && Fold(ps[i].key, false) == fk && ps[i].value.Null? && fk !in Keys(ps[i + 1..], false);
    assert ([x] + ps)[i + 1] == ps[i] && ([x] + ps)[i + 2..] == ps[i + 1..];
  }

  lemma ClearsSome(ps: seq<Member>, fk: string)
    requires Clears(ps, fk)
    ensures ps != []
  {
  }

  lemma ClearsHead(key: string, ps: seq<Member>, fk: string)
    requires Fold(key, false) == fk && fk !in Keys(ps, false)
    ensures Clears([Member(key, Null)] + ps, fk)
  {
    var all := [Member(key, Null)] + ps;
    assert all[0] == Member(key, Null) && all[0 + 1..] == ps;
  }

  /** The patch names only keys of the two lists. */
  lemma {:induction false} PatchKeys(f: seq<Member>, t: seq<Member>, h: nat)
    requires forall i | 0 <= i < |t| :: Height(t[i].value) < h
    ensures Keys(GenerateMembers(f, t, false, h), false) <= Keys(f, false) + Keys(t, false)
    decreases |f| + |t|
  {
    if f != [] || t != [] {
      hide CompareJson, Generate, Duplicate;
      var out := GenerateMembers(f, t, false, h);
      var x, f', t' := PatchStep(f, t, h);
      PatchKeys(f', t', h);
      var rest := GenerateMembers(f', t', false, h);
      if x.Some? {
        KeysCons(x.value, rest);
      }
    }
  }

  /** One turn of the walk: at most one member, under the key of a head that it takes off. */
  lemma PatchStep(f: seq<Member>, t: seq<Member>, h: nat) returns (x: Option<Member>, f': seq<Member>, t': seq<Member>)
    requires forall i | 0 <= i < |t| :: Height(t[i].value) < h
    requires f != [] || t != []
    ensures |f'| + |t'| < |f| + |t| && (f' == f || (f != [] && f' == f[1..])) && (t' == t || (t != [] && t' == t[1..]))
    ensures f' != f && t' != t ==> Fold(f[0].key, false) == Fold(t[0].key, false)
    ensures f' != f && t' == t ==> x == Some(Member(f[0].key, Null))
    ensures x.Some? ==> Fold(x.value.key, false) in Keys(f, false) + Keys(t, false)
    ensures x.Some? && t' != t ==> x.value.key == t[0].key
    ensures GenerateMembers(f, t, false, h)
      == (if x.Some? then [x.value] + GenerateMembers(f', t', false, h) else GenerateMembers(f', t', false, h))
    ensures Keys(f', false) <= Keys(f, false) && Keys(t', false) <= Keys(t, false)
  {
    hide CompareJson, Generate, Duplicate;
    var diff := if f == [] then 1 else if t == [] then -1 else CompareStrings(f[0].key, t[0].key, true);
    if diff < 0 {
      assert f[0] in f;
      x, f', t' := Some(Member(f[0].key, Null)), f[1..], t;
    } else if diff > 0 {
      assert t[0] in t;
      var item := Duplicate(t[0].value);
      x, f', t' := if item.Some? then Some(Member(t[0].key, item.value)) else None, f, t[1..];
    } else {
      assert t[0] in t;
      CompareStringsOrder(f[0].key, t[0].key, true);
      f', t' := f[1..], t[1..];
      if CompareJson(f[0].value, t[0].value, false) {
        x := None;
      } else {
        var v, w := Left(f[0].value, t[0].value, false), Left(t[0].value, f[0].value, false);
        LeftSame(t[0].value, f[0].value, false, true);
        var item := Generate(Some(v), Some(w), false);
        x := if item.Some? then Some(Member(t[0].key, item.value)) else None;
      }
    }
  }

  lemma HeadKey(t: seq<Member>)
    requires t != []
    ensures Fold(t[0].key, false) in Keys(t, false)
  {
    assert t[0] in t;
  }

  /** A key of the first list that the second one lacks ends up deleted. */
  lemma {:induction false} LostKey(f: seq<Member>, t: seq<Member>, key: string, h: nat)
    requires forall i | 0 <= i < |t| :: Height(t[i].value) < h
    requires DistinctKeys(f, false) && Fold(key, false) in Keys(f, false) && Fold(key, false) !in Keys(t, false)
    ensures Clears(GenerateMembers(f, t, false, h), Fold(key, false))
    decreases |f| + |t|
  {
    hide CompareJson, Generate, Duplicate, Fold, GenerateMembers;
    var fk := Fold(key, false);
    var x, f', t' := PatchStep(f, t, h);
    TailFacts(f, false);
    if t != [] {
      HeadKey(t);
    }
    if f' != f && Fold(f[0].key, false) == fk {
      PatchKeys(f', t', h);
      ClearsHead(f[0].key, GenerateMembers(f', t', false, h), fk);
    } else {
      LostKey(f', t', key, h);
      if x.Some? {
        ClearsCons(x.value, GenerateMembers(f', t', false, h), fk);
      }
    }
  }

  // ---- merging such a patch ----

  /** What one member of a patch leaves to be merged into. */
  lemma MergeStep(ms: seq<Member>, ps: seq<Member>, h: nat) returns (next: seq<Member>)
    requires forall i | 0 <= i < |ps| :: Height(ps[i].value) < h
    requires ps != [] && DistinctKeys(ms, false) && MergedMembers(ms, ps, false, h).Some?
    ensures MergedMembers(ms, ps, false, h) == MergedMembers(next, ps[1..], false, h)
    ensures DistinctKeys(next, false) && Keys(next, false) <= Keys(ms, false) + {Fold(ps[0].key, false)}
    ensures ps[0].value.Null? ==> Fold(ps[0].key, false) !in Keys(next, false)
  {
    hide Merged, DeleteMember, Meaning, Meanings, Fold, Keys;
    var p := ps[0];
    DeleteFacts(ms, p.key, false);
    MeaningsKeySet(ms, false);
    MeaningsKeySet(DeleteMember(ms, p.key, false), false);
    if p.value.Null? {
      next := DeleteMember(ms, p.key, false);
    } else {
      var v := Merged(Found(ms, p.key, false), p.value, false);
      next := DeleteMember(ms, p.key, false) + [Member(p.key, v.value)];
      AppendDistinct(DeleteMember(ms, p.key, false), Member(p.key, v.value), false);
    }
  }

  lemma {:induction false} MergeAbsent(ms: seq<Member>, ps: seq<Member>, fk: string, h: nat)
    requires forall i | 0 <= i < |ps| :: Height(ps[i].value) < h
    requires DistinctKeys(ms, false) && fk !in Keys(ms, false) && fk !in Keys(ps, false)
    ensures MergedMembers(ms, ps, false, h).Some? ==> fk !in Keys(MergedMembers(ms, ps, false, h).value, false)
    decreases |ps|
  {
    if ps != [] && MergedMembers(ms, ps, false, h).Some? {
      assert ps[0] in ps;
      hide MergedMembers;
      var next := MergeStep(ms, ps, h);
      MergeAbsent(next, ps[1..], fk, h);
    }
  }

  lemma {:induction false} MergeClears(ms: seq<Member>, ps: seq<Member>, fk: string, h: nat)
    requires forall i | 0 <= i < |ps| :: Height(ps[i].value) < h
    requires DistinctKeys(ms, false) && Clears(ps, fk)
    ensures MergedMembers(ms, ps, false, h).Some? ==> fk !in Keys(MergedMembers(ms, ps, false, h).value, false)
    decreases |ps|
  {
    hide MergedMembers, DistinctKeys, Fold;
    if MergedMembers(ms, ps, false, h).Some? {
      var i :| 0 <= i < |ps| && Fold(ps[i].key, false) == fk && ps[i].value.Null? && fk !in Keys(ps[i + 1..], false);
      var next := MergeStep(ms, ps, h);
      if i == 0 {
        assert ps[0 + 1..] == ps[1..];
        MergeAbsent(next, ps[1..], fk, h);
      } else {
        ClearsTail(ps, i, fk);
        MergeClears(next, ps[1..], fk, h);
      }
    }
  }

  lemma ClearsTail(ps: seq<Member>, i: nat, fk: string)
    requires 0 < i < |ps| && Fold(ps[i].key, false) == fk && ps[i].value.Null? && fk !in Keys(ps[i + 1..], false)
    ensures Clears(ps[1..], fk)
  {
    assert ps[1..][i - 1] == ps[i] && ps[1..][(i - 1) + 1..] == ps[i + 1..];
  }

  // ---- the two together ----

  ghost predicate RoundTrips(from: Json, to: Json) {
    var result := MergePatchUtil(Some(from), Generate(Some(from), Some(to), false), false);
    result.Some? && Meaning(result.value, false) == Meaning(to, false)
  }

  lemma SortedHeads(ms: seq<Member>)
    requires Unique(Object(ms), false) && Plain(Object(ms))
    ensures forall i | 0 <= i < |SortMembers(ms, false)| ::
      Height(SortMembers(ms, false)[i].value) < Height(Object(ms)) && Sound(SortMembers(ms, false)[i].value, false)
  {
    SortedHeights(Object(ms), false);
    SortedFacts(ms, false);
    forall i | 0 <= i < |SortMembers(ms, false)| ensures Sound(SortMembers(ms, false)[i].value, false) {
      var m := SortMembers(ms, false)[i];
      assert m in SortMembers(ms, false) && m in ms;
      var p :| 0 <= p < |ms| && ms[p] == m;
    }
  }

  /** Where strcmp agrees, only the removed key is deleted. */
  lemma RemovedKept(ms: seq<Member>, i: nat, k: nat)
    requires i < |ms| && Unique(Object(ms), false) && Plain(Object(ms))
    requires k < |SortMembers(ms, false)| && SortMembers(ms, false)[k] == ms[i]
    requires SortMembers(DropAt(ms, i), false) == DropAt(SortMembers(ms, false), k)
    requires k + 1 == |SortMembers(ms, false)|
      || Before(SortMembers(ms, false)[k].key, SortMembers(ms, false)[k + 1].key)
    ensures RoundTrips(Object(ms), Object(DropAt(ms, i)))
  {
    var s, to := SortMembers(ms, false), Object(DropAt(ms, i));
    SortedHeads(ms);
    SortedHeights(to, false);
    RemovedGenerated(s, k, Height(Object(ms)), Height(to));
    GeneratedFrom(Object(ms), to, false);
    hide *;
    NullPatch(ms, ms[i].key);
    DeletedIsDropped(ms, i);
    RoundTripsBy(Object(ms), to, Object([Member(ms[i].key, Null)]), to);
  }

  lemma DeletedIsDropped(ms: seq<Member>, i: nat)
    requires i < |ms| && Unique(Object(ms), false)
    ensures DeleteMember(ms, ms[i].key, false) == DropAt(ms, i)
  {
    FirstDistinct(ms, i, false);
  }

  lemma RoundTripsBy(from: Json, to: Json, patch: Json, merged: Json)
    requires Generate(Some(from), Some(to), false) == Some(patch)
    requires Merged(Some(from), patch, false) == Some(merged) && Meaning(merged, false) == Meaning(to, false)
    ensures RoundTrips(from, to)
  {
    hide Generate, Merged, Meaning;
  }

  lemma RemovedGenerated(s: seq<Member>, k: nat, h: nat, low: nat)
    requires k < |s| && (k + 1 == |s| || Before(s[k].key, s[k + 1].key))
    requires forall i | 0 <= i < |s| :: Height(s[i].value) < h && Sound(s[i].value, false)
    requires forall i | 0 <= i < |s| - 1 :: Height(DropAt(s, k)[i].value) < low
    ensures GenerateMembers(s, DropAt(s, k), false, low) == [Member(s[k].key, Null)]
  {
    hide Sound;
    RemovedPatch(s, k, h);
    HeightFree(s, DropAt(s, k), h, low);
  }

  /** The bound that the walk carries for its termination does not matter. */
  lemma {:induction false} HeightFree(f: seq<Member>, t: seq<Member>, h: nat, h': nat)
    requires forall i | 0 <= i < |t| :: Height(t[i].value) < h && Height(t[i].value) < h'
    ensures GenerateMembers(f, t, false, h) == GenerateMembers(f, t, false, h')
    decreases |f| + |t|
  {
    hide CompareJson, Generate, Duplicate;
    if f != [] || t != [] {
      var diff := if f == [] then 1 else if t == [] then -1 else CompareStrings(f[0].key, t[0].key, true);
      if diff < 0 {
        HeightFree(f[1..], t, h, h');
      } else if diff > 0 {
        HeightFree(f, t[1..], h, h');
      } else {
        HeightFree(f[1..], t[1..], h, h');
      }
    }
  }

  /** A patch with one null member deletes that member. */
  lemma NullPatch(ms: seq<Member>, key: string)
    ensures Merged(Some(Object(ms)), Object([Member(key, Null)]), false) == Some(Object(DeleteMember(ms, key, false)))
  {
    var ps := [Member(key, Null)];
    ChildHeight(Object(ps));
    assert ps[1..] == [];
    hide DeleteMember;
    assert MergedMembers(DeleteMember(ms, key, false), [], false, Height(Object(ps)))
      == Some(DeleteMember(ms, key, false));
  }

  lemma {:induction false} NextCleared(s: seq<Member>, k: nat, h: nat)
    requires k + 1 < |s| && StrictlyBefore(s, false) && DistinctKeys(s, false) && Before(s[k + 1].key, s[k].key)
    requires forall i | 0 <= i < |s| :: Sound(s[i].value, false)
    requires forall i | 0 <= i < |s| - 1 :: Height(DropAt(s, k)[i].value) < h
    ensures Clears(GenerateMembers(s, DropAt(s, k), false, h), Fold(s[k + 1].key, false))
    decreases k
  {
    hide GenerateMembers, Sound, Clears, Fold;
    if k == 0 {
      assert DropAt(s, 0) == s[1..];
      HeadCleared(s, h);
    } else {
      DropBehind(s, k);
      TailSorted(s, false);
      NextCleared(s[1..], k - 1, h);
      CommonHead(s, DropAt(s, k), h);
    }
  }

  lemma HeadCleared(s: seq<Member>, h: nat)
    requires |s| > 1 && DistinctKeys(s, false) && Before(s[1].key, s[0].key)
    requires forall i | 0 <= i < |s[1..]| :: Height(s[1..][i].value) < h
    ensures Clears(GenerateMembers(s, s[1..], false, h), Fold(s[1].key, false))
  {
    hide CompareJson, Generate, Duplicate, Clears;
    var t, fk := s[1..], Fold(s[1].key, false);
    assert t[1..] == s[2..] && t[0] == s[1];
    CompareStringsOrder(s[0].key, s[1].key, true);
    var rest, item := GenerateMembers(s, t[1..], false, h), Duplicate(t[0].value);
    assert GenerateMembers(s, t, false, h) == Added(t[0].key, item) + rest;
    hide GenerateMembers, Fold;
    KeyBehind(s, fk);
    LostKey(s, t[1..], s[1].key, h);
    if item.Some? {
      ClearsCons(Member(t[0].key, item.value), rest, fk);
    } else {
      assert [] + rest == rest;
    }
  }

  lemma KeyBehind(s: seq<Member>, fk: string)
    requires |s| > 1 && DistinctKeys(s, false) && fk == Fold(s[1].key, false)
    ensures fk in Keys(s, false) && fk !in Keys(s[2..], false)
  {
    assert s[1] in s;
    forall m | m in s[2..] ensures Fold(m.key, false) != fk {
      var j :| 0 <= j < |s[2..]| && s[2..][j] == m;
      assert m == s[j + 2];
    }
  }

  lemma LostWhenMerged(ms: seq<Member>, ps: seq<Member>, fk: string)
    requires DistinctKeys(ms, false) && Clears(ps, fk)
    ensures var r := Merged(Some(Object(ms)), Object(ps), false);
      r.Some? ==> r.value.Object? && fk !in Keys(r.value.members, false)
  {
    ChildHeight(Object(ps));
    MergeClears(ms, ps, fk, Height(Object(ps)));
  }

  lemma KeyTellsApart(a: seq<Member>, b: seq<Member>, fk: string)
    requires fk !in Keys(a, false) && fk in Keys(b, false)
    ensures Meaning(Object(a), false) != Meaning(Object(b), false)
  {
    MeaningsKeySet(a, false);
    MeaningsKeySet(b, false);
    assert Meaning(Object(a), false).members == Meanings(a, false);
    assert Meaning(Object(b), false).members == Meanings(b, false);
  }

  /** Where strcmp puts the next key first, that key is lost. */
  lemma NextLost(ms: seq<Member>, i: nat, k: nat)
    requires i < |ms| && Unique(Object(ms), false) && Plain(Object(ms))
    requires k + 1 < |SortMembers(ms, false)| && SortMembers(ms, false)[k] == ms[i]
    requires SortMembers(DropAt(ms, i), false) == DropAt(SortMembers(ms, false), k)
    requires Before(SortMembers(ms, false)[k + 1].key, SortMembers(ms, false)[k].key)
    ensures !RoundTrips(Object(ms), Object(DropAt(ms, i)))
  {
    hide SortMembers, Meaning, Before, Sound, Clears;
    var s, to := SortMembers(ms, false), Object(DropAt(ms, i));
    var next, h := s[k + 1], Height(to);
    SortedHeads(ms);
    SortedHeights(to, false);
    SortedFacts(ms, false);
    NextCleared(s, k, h);
    var ps := GenerateMembers(s, DropAt(s, k), false, h);
    ClearsSome(ps, Fold(next.key, false));
    assert Generate(Some(Object(ms)), Some(to), false) == Some(Object(ps));
    hide Generate, GenerateMembers;
    LostWhenMerged(ms, ps, Fold(next.key, false));
    NextStays(ms, i, k);
    var r := Merged(Some(Object(ms)), Object(ps), false);
    if r.Some? {
      KeyTellsApart(r.value.members, DropAt(ms, i), Fold(next.key, false));
    }
  }

  lemma NextStays(ms: seq<Member>, i: nat, k: nat)
    requires i < |ms| && DistinctKeys(ms, false) && k + 1 < |SortMembers(ms, false)|
    requires SortMembers(ms, false)[k] == ms[i]
    ensures Fold(SortMembers(ms, false)[k + 1].key, false) in Keys(DropAt(ms, i), false)
  {
    hide SortMembers;
    var s := SortMembers(ms, false);
    SortedFacts(ms, false);
    assert s[k + 1] in s && s[k + 1] in ms && s[k + 1] != s[k];
    DropMember(ms, i, s[k + 1]);
  }

  /**
   * Removing a member from any object, ignoring case: the generated merge patch gives the object without it if and
   * only if the key is the last one, or strcmp too puts it in front of the key that follows it in the sorted object.
   */
  lemma RemovedMemberExact(ms: seq<Member>, i: nat) returns (k: nat)
    requires i < |ms| && Unique(Object(ms), false) && Plain(Object(ms))
    ensures var s := SortMembers(ms, false);
      && k < |s| && s[k] == ms[i]
      && (RoundTrips(Object(ms), Object(DropAt(ms, i))) <==> k + 1 == |s| || Before(s[k].key, s[k + 1].key))
  {
    k := SortedDrop(ms, i, false);
    hide SortMembers, RoundTrips, Fold;
    var s := SortMembers(ms, false);
    if k + 1 == |s| || Before(s[k].key, s[k + 1].key) {
      RemovedKept(ms, i, k);
    } else {
      BeforeTrichotomy(s[k].key, s[k + 1].key);
      assert Fold(s[k].key, false) != Fold(s[k + 1].key, false) by {
        SortedFacts(ms, false);
      }
      NextLost(ms, i, k);
    }
  }

  // ---- two keys ----

  lemma TwoSorted(p: Member, q: Member)
    requires Fold(p.key, false) != Fold(q.key, false)
    ensures SortMembers([p, q], false)
      == if Before(Fold(p.key, false), Fold(q.key, false)) then [p, q] else [q, p]
  {
    var ms, s := [p, q], SortMembers([p, q], false);
    BeforeTrichotomy(Fold(p.key, false), Fold(q.key, false));
    assert DistinctKeys(ms, false);
    SortedFacts(ms, false);
    hide SortMembers;
    assert s == [s[0], s[1]] && s[0] in s && s[1] in s;
  }

  lemma TwoFit(p: Member, q: Member)
    requires Fold(p.key, false) != Fold(q.key, false) && p.value.True? && q.value.True?
    ensures Unique(Object([p, q]), false) && Plain(Object([p, q]))
  {
  }

  /** Of two members, p is removed: q is lost exactly when sorting puts p first and strcmp puts q first. */
  lemma TwoKeysExact(p: string, q: string)
    requires Fold(p, false) != Fold(q, false)
    ensures RoundTrips(Object([Member(p, True), Member(q, True)]), Object([Member(q, True)]))
      <==> !(Before(Fold(p, false), Fold(q, false)) && Before(q, p))
  {
    var a, b := Member(p, True), Member(q, True);
    TwoFit(a, b);
    TwoSorted(a, b);
    hide SortMembers, RoundTrips;
    var k := RemovedMemberExact([a, b], 0);
    assert DropAt([a, b], 0) == [b];
    BeforeTrichotomy(p, q);
  }

  /** For example "B" is lost next to "a": in ASCII it precedes every lower-case letter. */
  lemma UpperCaseLoses()
    ensures !RoundTrips(Object([Member("a", True), Member("B", True)]), Object([Member("B", True)]))
  {
    hide RoundTrips;
    assert Fold("a", false) == "a" && Fold("B", false) == "b" by {
      assert ToLower('B') == 'b';
    }
    TwoKeysExact("a", "B");
  }
}
