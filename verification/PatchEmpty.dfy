/** When the patch generator has nothing to do. */
module PatchEmpty {
  import opened Text
  import opened JsonTree
  import opened SortedMembers
  import opened TreeCompare
  import opened PointerEscape
  import opened PatchGen

  /** For every two trees, whatever their keys and numbers: no edits exactly when compare_json finds them equal. */
  lemma {:induction false} NoEditsExact(path: string, from: Json, to: Json, cs: bool)
    ensures Diff(path, from, to, cs) == [] <==> CompareJson(from, to, cs)
    decreases Height(from), 1, 0
  {
    hide Height, SortMembers;
    if SameKind(from, to) && from.Array? {
      ChildHeight(from);
      NoItemEdits(path, from.items, to.items, 0, cs, Height(from));
    } else if SameKind(from, to) && from.Object? {
      SortedHeights(from, cs);
      NoMemberEdits(path, SortMembers(from.members, cs), SortMembers(to.members, cs), cs, Height(from));
    }
  }

  lemma NoneOfBoth(a: seq<Edit>, b: seq<Edit>)
    ensures a + b == [] <==> a == [] && b == []
  {
    assert |a + b| == |a| + |b|;
  }

  lemma {:induction false} NoItemEdits(path: string, f: seq<Json>, t: seq<Json>, index: nat, cs: bool, h: nat)
    requires forall i | 0 <= i < |f| :: Height(f[i]) < h
    ensures DiffItems(path, f, t, index, cs, h) == []
      <==> |f| == |t| && forall i | 0 <= i < |f| :: CompareJson(f[i], t[i], cs)
    decreases h, 0, |f|
  {
    hide Diff, CompareJson, Height;
    if f != [] && t != [] {
      NoEditsExact(path + "/" + Decimal(index), f[0], t[0], cs);
      NoItemEdits(path, f[1..], t[1..], index + 1, cs, h);
      NoneOfBoth(Diff(path + "/" + Decimal(index), f[0], t[0], cs), DiffItems(path, f[1..], t[1..], index + 1, cs, h));
      ItemsPaired(f, t, cs);
    } else {
      NoneOfBoth(Removes(path, |f|, index), Adds(path, t));
    }
  }

  lemma ItemsPaired(f: seq<Json>, t: seq<Json>, cs: bool)
    requires f != [] && t != []
    ensures (|f| == |t| && forall i | 0 <= i < |f| :: CompareJson(f[i], t[i], cs))
      <==> CompareJson(f[0], t[0], cs) && |f[1..]| == |t[1..]|
           && forall i | 0 <= i < |f[1..]| :: CompareJson(f[1..][i], t[1..][i], cs)
  {
    hide CompareJson;
    if CompareJson(f[0], t[0], cs) && |f| == |t|
      && forall i | 0 <= i < |f[1..]| :: CompareJson(f[1..][i], t[1..][i], cs) {
      forall i | 0 <= i < |f| ensures CompareJson(f[i], t[i], cs) {
        assert i > 0 ==> f[i] == f[1..][i - 1] && t[i] == t[1..][i - 1];
      }
    }
    assert |f| == |t| ==> forall i | 0 <= i < |f[1..]| :: f[1..][i] == f[i + 1] && t[1..][i] == t[i + 1];
  }

  lemma {:induction false} NoMemberEdits(path: string, f: seq<Member>, t: seq<Member>, cs: bool, h: nat)
    requires forall i | 0 <= i < |f| :: Height(f[i].value) < h
    ensures DiffMembers(path, f, t, cs, h) == [] <==> PairsEqual(f, t, cs, h)
    decreases h, 0, |f| + |t|
  {
    hide Diff, CompareJson, Height, CompareStrings;
    if f != [] && t != [] {
      MembersPaired(f, t, cs, h);
      if CompareStrings(f[0].key, t[0].key, cs) == 0 {
        NoEditsExact(path + "/" + Encode(f[0].key), f[0].value, t[0].value, cs);
        NoMemberEdits(path, f[1..], t[1..], cs, h);
        NoneOfBoth(Diff(path + "/" + Encode(f[0].key), f[0].value, t[0].value, cs),
          DiffMembers(path, f[1..], t[1..], cs, h));
      }
    }
  }

  lemma MembersPaired(f: seq<Member>, t: seq<Member>, cs: bool, h: nat)
    requires f != [] && t != [] && forall i | 0 <= i < |f| :: Height(f[i].value) < h
    ensures PairsEqual(f, t, cs, h)
      <==> CompareStrings(f[0].key, t[0].key, cs) == 0 && CompareJson(f[0].value, t[0].value, cs)
           && PairsEqual(f[1..], t[1..], cs, h)
  {
    hide CompareJson, Height, CompareStrings;
    if PairsEqual(f, t, cs, h) {
      forall i | 0 <= i < |f[1..]|
        ensures CompareStrings(f[1..][i].key, t[1..][i].key, cs) == 0
        ensures CompareJson(f[1..][i].value, t[1..][i].value, cs)
      {
        assert f[1..][i] == f[i + 1] && t[1..][i] == t[i + 1];
      }
    }
    if CompareStrings(f[0].key, t[0].key, cs) == 0 && CompareJson(f[0].value, t[0].value, cs)
      && PairsEqual(f[1..], t[1..], cs, h) {
      forall i | 0 <= i < |f|
        ensures CompareStrings(f[i].key, t[i].key, cs) == 0 && CompareJson(f[i].value, t[i].value, cs)
      {
        assert i > 0 ==> f[i] == f[1..][i - 1] && t[i] == t[1..][i - 1];
      }
    }
  }
}
