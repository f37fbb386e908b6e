/** One member removed, replaced or added: exactly when the generated patch does what it says. */
module PatchExact {
  import opened Text
  import opened JsonTree
  import opened SortedMembers
  import opened TreeCompare
  import opened PointerEscape
  import opened PointerLookup
  import opened Patch
  import opened PatchGen
  import opened PatchFrame
  import opened MemberLists
  import opened PatchRoundTrip

  // ---- nothing to do for equal parts ----

  /** A document needs no edits to become itself. */
  lemma {:induction false} DiffSelf(path: string, j: Json, cs: bool)
    ensures Diff(path, j, j, cs) == []
    decreases Height(j), 1, 0
  {
    if j.Array? {
      ChildHeight(j);
      DiffItemsSelf(path, j.items, 0, cs, Height(j));
    } else if j.Object? {
      SortedHeights(j, cs);
      DiffMembersSelf(path, SortMembers(j.members, cs), cs, Height(j));
    }
  }

  lemma {:induction false} DiffItemsSelf(path: string, f: seq<Json>, index: nat, cs: bool, h: nat)
    requires forall i | 0 <= i < |f| :: Height(f[i]) < h
    ensures DiffItems(path, f, f, index, cs, h) == []
    decreases h, 0, |f|
  {
    if f != [] {
      DiffSelf(path + "/" + Decimal(index), f[0], cs);
      DiffItemsSelf(path, f[1..], index + 1, cs, h);
    }
  }

  lemma {:induction false} DiffMembersSelf(path: string, f: seq<Member>, cs: bool, h: nat)
    requires forall i | 0 <= i < |f| :: Height(f[i].value) < h
    ensures DiffMembers(path, f, f, cs, h) == []
    decreases h, 0, |f|
  {
    if f != [] {
      CompareStringsOrder(f[0].key, f[0].key, cs);
      DiffSelf(path + "/" + Encode(f[0].key), f[0].value, cs);
      DiffMembersSelf(path, f[1..], cs, h);
    }
  }

  /** Both walks step over a common head. */
  lemma CommonHead(path: string, f: seq<Member>, t: seq<Member>, cs: bool, h: nat)
    requires forall i | 0 <= i < |f| :: Height(f[i].value) < h
    requires f != [] && t != [] && f[0] == t[0]
    ensures DiffMembers(path, f, t, cs, h) == DiffMembers(path, f[1..], t[1..], cs, h)
  {
    CompareStringsOrder(f[0].key, f[0].key, cs);
    DiffSelf(path + "/" + Encode(f[0].key), f[0].value, cs);
    hide Diff;
    assert Diff(path + "/" + Encode(f[0].key), f[0].value, f[0].value, cs) == [];
  }

  lemma DropBehind<T>(s: seq<T>, k: nat)
    requires 0 < k < |s|
    ensures DropAt(s, k)[0] == s[0] && DropAt(s, k)[1..] == DropAt(s[1..], k - 1)
  {
  }

  // ---- the patch for one member ----

  lemma {:induction false} RemovedDiff(path: string, s: seq<Member>, k: nat, cs: bool, h: nat)
    requires k < |s| && StrictlyBefore(s, cs) && forall i | 0 <= i < |s| :: Height(s[i].value) < h
    ensures DiffMembers(path, s, DropAt(s, k), cs, h) == [Edit(REMOVE, path + "/" + Encode(s[k].key), None)]
    decreases k
  {
    hide Encode, Diff;
    if k == 0 {
      assert DropAt(s, 0) == s[1..];
      DiffMembersSelf(path, s[1..], cs, h);
      if |s| > 1 {
        CompareStringsOrder(s[0].key, s[1].key, cs);
      }
    } else {
      DropBehind(s, k);
      CommonHead(path, s, DropAt(s, k), cs, h);
      RemovedDiff(path, s[1..], k - 1, cs, h);
    }
  }

  lemma {:induction false} AddedDiff(path: string, s: seq<Member>, k: nat, cs: bool, h: nat)
    requires k < |s| && StrictlyBefore(s, cs) && forall i | 0 <= i < |s| :: Height(s[i].value) < h
    ensures forall i | 0 <= i < |s| - 1 :: Height(DropAt(s, k)[i].value) < h
    ensures DiffMembers(path, DropAt(s, k), s, cs, h) == [Edit(ADD, path + "/" + Encode(s[k].key), Some(s[k].value))]
    decreases k
  {
    hide Encode, Diff;
    if k == 0 {
      assert DropAt(s, 0) == s[1..];
      DiffMembersSelf(path, s[1..], cs, h);
      if |s| > 1 {
        CompareStringsOrder(s[1].key, s[0].key, cs);
      }
    } else {
      DropBehind(s, k);
      AddedDiff(path, s[1..], k - 1, cs, h);
      CommonHead(path, DropAt(s, k), s, cs, h);
    }
  }

  lemma {:induction false} ReplacedDiff(path: string, s: seq<Member>, k: nat, v: Json, cs: bool, h: nat)
    requires k < |s| && Replaced(s[k].value, v) && forall i | 0 <= i < |s| :: Height(s[i].value) < h
    ensures DiffMembers(path, s, s[k := Member(s[k].key, v)], cs, h)
      == [Edit(REPLACE, path + "/" + Encode(s[k].key), Some(v))]
    decreases k
  {
    var t := s[k := Member(s[k].key, v)];
    if k == 0 {
      CompareStringsOrder(s[0].key, s[0].key, cs);
      assert t[1..] == s[1..];
      DiffMembersSelf(path, s[1..], cs, h);
      assert Diff(path + "/" + Encode(s[0].key), s[0].value, v, cs)
        == [Edit(REPLACE, path + "/" + Encode(s[0].key), Some(v))];
    } else {
      hide Encode, Diff;
      CommonHead(path, s, t, cs, h);
      assert t[1..] == s[1..][k - 1 := Member(s[k].key, v)];
      ReplacedDiff(path, s[1..], k - 1, v, cs, h);
    }
  }

  // ---- the sorted lists of two objects that differ in one member ----

  lemma UpdatedMembers(ms: seq<Member>, i: nat, x: Member, m: Member, cs: bool)
    requires i < |ms| && DistinctKeys(ms, cs)
    ensures m in ms[i := x] <==> m == x || (m in ms && m != ms[i])
  {
    var r := ms[i := x];
    assert r[i] == x;
    if m in ms && m != ms[i] {
      var p :| 0 <= p < |ms| && ms[p] == m;
      assert r[p] == m;
    }
    if m in r && m != x {
      var p :| 0 <= p < |r| && r[p] == m;
      assert ms[p] == m && p != i;
    }
  }

  lemma UpdateSorted(s: seq<Member>, k: nat, v: Json, cs: bool)
    requires k < |s| && StrictlyBefore(s, cs)
    ensures StrictlyBefore(s[k := Member(s[k].key, v)], cs)
  {
  }

  lemma SortedUpdate(ms: seq<Member>, i: nat, v: Json, cs: bool) returns (k: nat)
    requires i < |ms| && DistinctKeys(ms, cs)
    ensures k < |SortMembers(ms, cs)| && SortMembers(ms, cs)[k] == ms[i]
    ensures SortMembers(ms[i := Member(ms[i].key, v)], cs) == SortMembers(ms, cs)[k := Member(ms[i].key, v)]
  {
    hide SortMembers, Fold;
    var s, x := SortMembers(ms, cs), Member(ms[i].key, v);
    SortedFacts(ms, cs);
    assert ms[i] in s;
    k :| 0 <= k < |s| && s[k] == ms[i];
    UpdateDistinct(ms, i, v, cs);
    UpdateDistinct(s, k, v, cs);
    UpdateSorted(s, k, v, cs);
    SortedFacts(ms[i := x], cs);
    var r := SortMembers(ms[i := x], cs);
    forall m ensures m in s[k := x] <==> m in r {
      UpdatedMembers(ms, i, x, m, cs);
      UpdatedMembers(s, k, x, m, cs);
    }
    SortedUnique(s[k := x], r, cs);
  }

  // ---- a removed member ----

  /** What the last token of a member's path names once it is decoded where it stands. */
  function PathKey(key: string): string { DecodeToken(Encode(key)) }

  lemma KeyToken(key: string)
    ensures SplitPath("/" + Encode(key)) == Some(("", Encode(key))) && "" + "/" + Encode(key) == "/" + Encode(key) != ""
  {
    EncodeNoSlash(key);
    RootToken(Encode(key));
  }

  /** Detaching by a member's path takes whatever is first found, ignoring case, under the decoded key. */
  lemma DetachByPath(ms: seq<Member>, key: string, cs: bool)
    ensures var l := Lookup(ms, PathKey(key), false);
      Detach(Object(ms), "/" + Encode(key), cs)
        == if l < |ms| then (Some(ms[l].value), Object(DropAt(ms, l))) else (None, Object(ms))
  {
    hide Encode, DecodeToken;
    KeyToken(key);
    assert Resolve(Object(ms), "", cs) == Some([]);
  }

  lemma InsertByPath(ms: seq<Member>, key: string, v: Json, cs: bool)
    ensures Insert(Object(ms), "/" + Encode(key), v, cs)
      == (0, Object(DeleteMember(ms, PathKey(key), cs) + [Member(PathKey(key), v)]))
  {
    hide Encode, DecodeToken, DeleteMember;
    KeyToken(key);
    assert Resolve(Object(ms), "", cs) == Some([]);
  }

  /** A patch list of one edit does what the edit does. */
  lemma OnePatch(from: Json, to: Json, e: Edit, cs: bool)
    requires Composed(e) && Diff("", from, to, cs) == [e]
    ensures ApplyPatches(from, Array(ToPatches(Diff("", from, to, cs))), cs) == ApplyEdit(from, e, cs)
  {
    hide Diff, ApplyEdit;
    ApplyComposedAll(from, [e], cs);
    OneEdit(from, e, cs);
  }

  /** The patch for a removed member, and what it takes out. */
  lemma RemovedMember(ms: seq<Member>, i: nat, cs: bool)
    requires i < |ms| && DistinctKeys(ms, cs)
    ensures var from, to, l := Object(ms), Object(DropAt(ms, i)), Lookup(ms, PathKey(ms[i].key), false);
      && Diff("", from, to, cs) == [Edit(REMOVE, "/" + Encode(ms[i].key), None)]
      && ApplyPatches(from, Array(ToPatches(Diff("", from, to, cs))), cs)
        == if l < |ms| then (0, Object(DropAt(ms, l))) else (13, from)
  {
    var from, to := Object(ms), Object(DropAt(ms, i));
    var e := Edit(REMOVE, "/" + Encode(ms[i].key), None);
    hide Encode, DecodeToken, Lookup;
    var k := SortedDrop(ms, i, cs);
    KeyToken(ms[i].key);
    SortedHeights(from, cs);
    RemovedDiff("", SortMembers(ms, cs), k, cs, Height(from));
    assert Diff("", from, to, cs) == [e];
    hide Diff;
    OnePatch(from, to, e, cs);
    DetachByPath(ms, ms[i].key, cs);
  }

  lemma DropsApart(ms: seq<Member>, i: nat, l: nat, cs: bool)
    requires i < |ms| && l < |ms| && DistinctKeys(ms, cs)
    ensures Meaning(Object(DropAt(ms, l)), cs) == Meaning(Object(DropAt(ms, i)), cs) <==> l == i
  {
    DropFacts(ms, i, cs);
    DropFacts(ms, l, cs);
    hide Meaning;
    MeaningKeys(DropAt(ms, i), cs);
    MeaningKeys(DropAt(ms, l), cs);
    assert ms[l] in ms && ms[i] in ms;
    ObjectMeaning(DropAt(ms, i), cs);
    ObjectMeaning(DropAt(ms, l), cs);
  }

  lemma ObjectMeaning(ms: seq<Member>, cs: bool)
    ensures Meaning(Object(ms), cs) == DObject(Meanings(ms, cs))
  {
  }

  /**
   * Removing a member from any object: the generated patch gives the object without it if and only if detach_path,
   * which ignores case, finds that very member first under the decoded key.
   */
  lemma RemovedKeyExact(ms: seq<Member>, i: nat, cs: bool)
    requires i < |ms| && DistinctKeys(ms, cs)
    ensures var from, to := Object(ms), Object(DropAt(ms, i));
      var (status, result) := ApplyPatches(from, Array(ToPatches(Diff("", from, to, cs))), cs);
      (status == 0 && Meaning(result, cs) == Meaning(to, cs)) <==> (Lookup(ms, PathKey(ms[i].key), false) == i)
  {
    var l := Lookup(ms, PathKey(ms[i].key), false);
    hide Diff, Meaning, PathKey, Lookup;
    RemovedMember(ms, i, cs);
    if l < |ms| {
      DropsApart(ms, i, l, cs);
    }
  }

  // ---- a replaced member ----

  /** The patch for a member replaced as a whole, and what becomes of the object. */
  lemma ReplacedMember(ms: seq<Member>, i: nat, v: Json, cs: bool)
    requires i < |ms| && DistinctKeys(ms, cs) && Replaced(ms[i].value, v) && Height(v) <= CJSON_CIRCULAR_LIMIT
    ensures var from, to := Object(ms), Object(ms[i := Member(ms[i].key, v)]);
      var key := PathKey(ms[i].key);
      var l := Lookup(ms, key, false);
      && Diff("", from, to, cs) == [Edit(REPLACE, "/" + Encode(ms[i].key), Some(v))]
      && ApplyPatches(from, Array(ToPatches(Diff("", from, to, cs))), cs)
        == if l < |ms| then (0, Object(DeleteMember(DropAt(ms, l), key, cs) + [Member(key, v)])) else (13, from)
  {
    var from, to := Object(ms), Object(ms[i := Member(ms[i].key, v)]);
    var e := Edit(REPLACE, "/" + Encode(ms[i].key), Some(v));
    hide Encode, DecodeToken, Lookup, DeleteMember, Replaced;
    var k := SortedUpdate(ms, i, v, cs);
    KeyToken(ms[i].key);
    SortedHeights(from, cs);
    ReplacedDiff("", SortMembers(ms, cs), k, v, cs, Height(from));
    assert Diff("", from, to, cs) == [e];
    hide Diff;
    OnePatch(from, to, e, cs);
    DetachByPath(ms, ms[i].key, cs);
    var l := Lookup(ms, PathKey(ms[i].key), false);
    if l < |ms| {
      InsertByPath(DropAt(ms, l), ms[i].key, v, cs);
    }
  }

  /** What is replaced as a whole meant something else before. */
  lemma ReplacedMeaning(v: Json, w: Json, cs: bool)
    requires Replaced(v, w)
    ensures Meaning(v, cs) != Meaning(w, cs)
  {
  }

  lemma UpdatesApart(ms: seq<Member>, i: nat, l: nat, key: string, v: Json, cs: bool)
    requires i < |ms| && l < |ms| && DistinctKeys(ms, cs) && Meaning(ms[i].value, cs) != Meaning(v, cs)
    ensures Meaning(Object(DeleteMember(DropAt(ms, l), key, cs) + [Member(key, v)]), cs)
         == Meaning(Object(ms[i := Member(ms[i].key, v)]), cs)
      <==> l == i && Fold(key, cs) == Fold(ms[i].key, cs)
  {
    hide Meaning, Meanings, Fold, DeleteMember;
    DropFacts(ms, l, cs);
    PutFacts(DropAt(ms, l), Member(key, v), cs);
    UpdateFacts(ms, i, v, cs);
    ObjectMeaning(DeleteMember(DropAt(ms, l), key, cs) + [Member(key, v)], cs);
    ObjectMeaning(ms[i := Member(ms[i].key, v)], cs);
    MeaningAt(ms, i, cs);
    MeaningAt(ms, l, cs);
    PutsApart(Meanings(ms, cs), Fold(ms[l].key, cs), Fold(key, cs), Fold(ms[i].key, cs), Meaning(v, cs));
  }

  lemma PutsApart(m: map<string, Doc>, off: string, on: string, k: string, v: Doc)
    requires off in m && k in m && m[k] != v
    ensures (m - {off})[on := v] == m[k := v] <==> on == k && off == k
  {
    var a, b := (m - {off})[on := v], m[k := v];
    if a == b {
      assert off in b && off in a;
      assert a[k] == v;
    }
  }

  /**
   * Replacing a member as a whole: the generated patch succeeds and gives the object with the new value if and only
   * if detach_path finds that very member first, and the new one gets its key back.
   */
  lemma ReplacedKeyExact(ms: seq<Member>, i: nat, v: Json, cs: bool)
    requires i < |ms| && DistinctKeys(ms, cs) && Replaced(ms[i].value, v) && Height(v) <= CJSON_CIRCULAR_LIMIT
    ensures var from, to := Object(ms), Object(ms[i := Member(ms[i].key, v)]);
      var (status, result) := ApplyPatches(from, Array(ToPatches(Diff("", from, to, cs))), cs);
      (status == 0 && Meaning(result, cs) == Meaning(to, cs)) <==>
      (Lookup(ms, PathKey(ms[i].key), false) == i && Fold(PathKey(ms[i].key), cs) == Fold(ms[i].key, cs))
  {
    var l := Lookup(ms, PathKey(ms[i].key), false);
    ReplacedMeaning(ms[i].value, v, cs);
    hide Diff, Meaning, PathKey, Lookup, Fold, Replaced;
    ReplacedMember(ms, i, v, cs);
    if l < |ms| {
      UpdatesApart(ms, i, l, PathKey(ms[i].key), v, cs);
    }
  }

  // ---- an added member ----

  /** The patch for an added member, and what becomes of the object. */
  lemma AddedMember(ms: seq<Member>, x: Member, cs: bool)
    requires DistinctKeys(ms, cs) && Fold(x.key, cs) !in Keys(ms, cs) && Height(x.value) <= CJSON_CIRCULAR_LIMIT
    ensures var from, to, key := Object(ms), Object(ms + [x]), PathKey(x.key);
      && Diff("", from, to, cs) == [Edit(ADD, "/" + Encode(x.key), Some(x.value))]
      && ApplyPatches(from, Array(ToPatches(Diff("", from, to, cs))), cs)
        == (0, Object(DeleteMember(ms, key, cs) + [Member(key, x.value)]))
  {
    var from, to := Object(ms), Object(ms + [x]);
    var e := Edit(ADD, "/" + Encode(x.key), Some(x.value));
    hide Encode, DecodeToken, Lookup, DeleteMember, Fold;
    AppendDistinct(ms, x, cs);
    assert (ms + [x])[|ms|] == x && DropAt(ms + [x], |ms|) == ms;
    var k := SortedDrop(ms + [x], |ms|, cs);
    KeyToken(x.key);
    SortedHeights(from, cs);
    SortedHeights(to, cs);
    AddedWalk(ms, x, k, cs);
    assert Diff("", from, to, cs) == [e];
    hide Diff;
    OnePatch(from, to, e, cs);
    InsertByPath(ms, x.key, x.value, cs);
  }

  lemma AddedWalk(ms: seq<Member>, x: Member, k: nat, cs: bool)
    requires k < |SortMembers(ms + [x], cs)| && SortMembers(ms + [x], cs)[k] == x
    requires StrictlyBefore(SortMembers(ms + [x], cs), cs)
    requires SortMembers(ms, cs) == DropAt(SortMembers(ms + [x], cs), k)
    ensures Diff("", Object(ms), Object(ms + [x]), cs) == [Edit(ADD, "" + "/" + Encode(x.key), Some(x.value))]
  {
    hide Encode, SortMembers;
    var s := SortMembers(ms + [x], cs);
    SortedHeights(Object(ms), cs);
    SortedHeights(Object(ms + [x]), cs);
    var h, high := Height(Object(ms)), Height(Object(ms + [x])) + Height(Object(ms));
    AddedDiff("", s, k, cs, high);
    HeightFree("", DropAt(s, k), s, cs, h, high);
  }

  /** The bound that the walk carries for its termination does not matter. */
  lemma {:induction false} HeightFree(path: string, f: seq<Member>, t: seq<Member>, cs: bool, h: nat, h': nat)
    requires forall i | 0 <= i < |f| :: Height(f[i].value) < h && Height(f[i].value) < h'
    ensures DiffMembers(path, f, t, cs, h) == DiffMembers(path, f, t, cs, h')
    decreases |f| + |t|
  {
    if f != [] || t != [] {
      var diff := if f == [] then 1 else if t == [] then -1 else CompareStrings(f[0].key, t[0].key, cs);
      if diff == 0 {
        HeightFree(path, f[1..], t[1..], cs, h, h');
      } else if diff < 0 {
        HeightFree(path, f[1..], t, cs, h, h');
      } else {
        HeightFree(path, f, t[1..], cs, h, h');
      }
    }
  }

  /** Adding a member to any object: the round trip holds if and only if the decoded key is the key. */
  lemma AddedKeyExact(ms: seq<Member>, x: Member, cs: bool)
    requires DistinctKeys(ms, cs) && Fold(x.key, cs) !in Keys(ms, cs) && Height(x.value) <= CJSON_CIRCULAR_LIMIT
    ensures var from, to := Object(ms), Object(ms + [x]);
      var (status, result) := ApplyPatches(from, Array(ToPatches(Diff("", from, to, cs))), cs);
      status == 0 && (Meaning(result, cs) == Meaning(to, cs) <==> Fold(PathKey(x.key), cs) == Fold(x.key, cs))
  {
    hide *;
    AddedMember(ms, x, cs);
    AddsApart(ms, x, PathKey(x.key), cs);
  }

  lemma AddsApart(ms: seq<Member>, x: Member, key: string, cs: bool)
    requires DistinctKeys(ms, cs) && Fold(x.key, cs) !in Keys(ms, cs)
    ensures Meaning(Object(DeleteMember(ms, key, cs) + [Member(key, x.value)]), cs) == Meaning(Object(ms + [x]), cs)
      <==> Fold(key, cs) == Fold(x.key, cs)
  {
    hide Meaning, Meanings, Fold, DeleteMember, Keys, DistinctKeys;
    AppendFacts(ms, x, cs);
    PutFacts(ms, Member(key, x.value), cs);
    ObjectMeaning(ms + [x], cs);
    ObjectMeaning(DeleteMember(ms, key, cs) + [Member(key, x.value)], cs);
    MeaningKeys(ms, cs);
    OnesApart(Meanings(ms, cs), Fold(key, cs), Fold(x.key, cs), Meaning(x.value, cs));
  }

  lemma OnesApart(m: map<string, Doc>, on: string, k: string, v: Doc)
    requires k !in m
    ensures m[on := v] == m[k := v] <==> on == k
  {
    if m[on := v] == m[k := v] {
      assert k in m[on := v];
    }
  }

  // ---- decodable keys, and keys that differ only in case ----

  lemma DecodableKey(key: string)
    requires Decodable(key)
    ensures PathKey(key) == key
  {
    DecodeUndoesEncode(key);
  }

  /** In the case-sensitive mode an added member comes back exactly under a decodable key. */
  lemma AddedDecodable(ms: seq<Member>, x: Member)
    requires DistinctKeys(ms, true) && x.key !in Keys(ms, true) && Height(x.value) <= CJSON_CIRCULAR_LIMIT
    ensures var from, to := Object(ms), Object(ms + [x]);
      var (status, result) := ApplyPatches(from, Array(ToPatches(Diff("", from, to, true))), true);
      status == 0 && (Meaning(result, true) == Meaning(to, true) <==> Decodable(x.key))
  {
    hide Diff, Meaning, Decodable, Encode;
    AddedKeyExact(ms, x, true);
    DecodeUndoesEncode(x.key);
  }

  /** Keys that differ only in case, in the case-sensitive mode: the second of the two takes the first one with it. */
  lemma CaseTwinsLost(ms: seq<Member>, i: nat, j: nat)
    requires i < j < |ms| && DistinctKeys(ms, true) && Decodable(ms[j].key)
    requires Fold(ms[i].key, false) == Fold(ms[j].key, false)
    ensures var from, to := Object(ms), Object(DropAt(ms, j));
      var (status, result) := ApplyPatches(from, Array(ToPatches(Diff("", from, to, true))), true);
      status == 0 && Meaning(result, true) != Meaning(to, true)
  {
    DecodableKey(ms[j].key);
    hide Diff, Meaning, Decodable, Fold, PathKey;
    assert Lookup(ms, ms[j].key, false) <= i;
    RemovedKeyExact(ms, j, true);
    RemovedMember(ms, j, true);
  }
}
