/** Applying the generated patches to a copy of the first document gives the second. */
module PatchRoundTrip {
  import opened Text
  import opened JsonTree
  import opened SortedMembers
  import opened TreeCompare
  import opened PointerEscape
  import opened PointerLookup
  import opened Patch
  import opened PatchGen
  import opened PatchFrame
  import opened MemberLists

  // ---- the shape of generated edits ----

  lemma PrefixAppend(p: string, a: seq<Edit>, b: seq<Edit>)
    ensures PrefixAll(p, a + b) == PrefixAll(p, a) + PrefixAll(p, b)
  {
  }

  lemma {:induction false} DiffPrefix(p: string, q: string, from: Json, to: Json, cs: bool)
    ensures Diff(p + q, from, to, cs) == PrefixAll(p, Diff(q, from, to, cs))
    decreases Height(from), 1, 0
  {
    if !SameKind(from, to) {
    } else if from.Array? {
      ChildHeight(from);
      DiffItemsPrefix(p, q, from.items, to.items, 0, cs, Height(from));
    } else if from.Object? {
      SortedHeights(from, cs);
      DiffMembersPrefix(p, q, SortMembers(from.members, cs), SortMembers(to.members, cs), cs, Height(from));
    }
  }

  lemma Regroup(p: string, q: string, token: string)
    ensures (p + q) + "/" + token == p + (q + "/" + token)
  {
  }

  lemma {:induction false} DiffItemsPrefix(p: string, q: string, f: seq<Json>, t: seq<Json>, index: nat,
        cs: bool, h: nat)
    requires forall i | 0 <= i < |f| :: Height(f[i]) < h
    ensures DiffItems(p + q, f, t, index, cs, h) == PrefixAll(p, DiffItems(q, f, t, index, cs, h))
    decreases h, 0, |f|
  {
    if f != [] && t != [] {
      var here := q + "/" + Decimal(index);
      Regroup(p, q, Decimal(index));
      DiffPrefix(p, here, f[0], t[0], cs);
      DiffItemsPrefix(p, q, f[1..], t[1..], index + 1, cs, h);
      PrefixAppend(p, Diff(here, f[0], t[0], cs), DiffItems(q, f[1..], t[1..], index + 1, cs, h));
    } else {
      Regroup(p, q, Encode(Decimal(index)));
      Regroup(p, q, Encode("-"));
      PrefixAppend(p, Removes(q, |f|, index), Adds(q, t));
    }
  }

  lemma {:induction false} DiffMembersPrefix(p: string, q: string, f: seq<Member>, t: seq<Member>, cs: bool, h: nat)
    requires forall i | 0 <= i < |f| :: Height(f[i].value) < h
    ensures DiffMembers(p + q, f, t, cs, h) == PrefixAll(p, DiffMembers(q, f, t, cs, h))
    decreases h, 0, |f| + |t|
  {
    hide Diff, Encode, CompareStrings, Height;
    if f != [] || t != [] {
      var diff := if f == [] then 1 else if t == [] then -1 else CompareStrings(f[0].key, t[0].key, cs);
      if diff == 0 {
        var here := q + "/" + Encode(f[0].key);
        Regroup(p, q, Encode(f[0].key));
        DiffPrefix(p, here, f[0].value, t[0].value, cs);
        DiffMembersPrefix(p, q, f[1..], t[1..], cs, h);
        PrefixAppend(p, Diff(here, f[0].value, t[0].value, cs), DiffMembers(q, f[1..], t[1..], cs, h));
      } else if diff < 0 {
        Regroup(p, q, Encode(f[0].key));
        DiffMembersPrefix(p, q, f[1..], t, cs, h);
        PrefixAppend(p, [Edit(REMOVE, q + "/" + Encode(f[0].key), None)], DiffMembers(q, f[1..], t, cs, h));
      } else {
        Regroup(p, q, Encode(t[0].key));
        DiffMembersPrefix(p, q, f, t[1..], cs, h);
        PrefixAppend(p, [Edit(ADD, q + "/" + Encode(t[0].key), Some(t[0].value))], DiffMembers(q, f, t[1..], cs, h));
      }
    }
  }

  /** The edits for a child are the child's own edits under its token. */
  lemma ChildDiff(token: string, from: Json, to: Json, cs: bool)
    ensures Diff("" + "/" + token, from, to, cs) == PrefixAll("/" + token, Diff("", from, to, cs))
  {
    assert "" + "/" + token == ("/" + token) + "";
    DiffPrefix("/" + token, "", from, to, cs);
  }

  ghost predicate AllComposed(es: seq<Edit>) {
    forall i | 0 <= i < |es| :: Composed(es[i])
  }

  lemma {:induction false} DiffComposed(path: string, from: Json, to: Json, cs: bool)
    requires Height(to) <= CJSON_CIRCULAR_LIMIT
    ensures AllComposed(Diff(path, from, to, cs))
    decreases Height(from), 1, 0
  {
    if !SameKind(from, to) {
    } else if from.Array? {
      ChildHeight(from);
      ChildHeight(to);
      DiffItemsComposed(path, from.items, to.items, 0, cs, Height(from));
    } else if from.Object? {
      SortedHeights(from, cs);
      SortedHeights(to, cs);
      DiffMembersComposed(path, SortMembers(from.members, cs), SortMembers(to.members, cs), cs, Height(from));
    }
  }

  lemma {:induction false} DiffItemsComposed(path: string, f: seq<Json>, t: seq<Json>, index: nat, cs: bool, h: nat)
    requires forall i | 0 <= i < |f| :: Height(f[i]) < h
    requires forall i | 0 <= i < |t| :: Height(t[i]) <= CJSON_CIRCULAR_LIMIT
    ensures AllComposed(DiffItems(path, f, t, index, cs, h))
    decreases h, 0, |f|
  {
    if f != [] && t != [] {
      DiffComposed(path + "/" + Decimal(index), f[0], t[0], cs);
      DiffItemsComposed(path, f[1..], t[1..], index + 1, cs, h);
    }
  }

  lemma {:induction false} DiffMembersComposed(path: string, f: seq<Member>, t: seq<Member>, cs: bool, h: nat)
    requires forall i | 0 <= i < |f| :: Height(f[i].value) < h
    requires forall i | 0 <= i < |t| :: Height(t[i].value) <= CJSON_CIRCULAR_LIMIT
    ensures AllComposed(DiffMembers(path, f, t, cs, h))
    decreases h, 0, |f| + |t|
  {
    if f != [] || t != [] {
      var diff := if f == [] then 1 else if t == [] then -1 else CompareStrings(f[0].key, t[0].key, cs);
      if diff == 0 {
        DiffComposed(path + "/" + Encode(f[0].key), f[0].value, t[0].value, cs);
        DiffMembersComposed(path, f[1..], t[1..], cs, h);
      } else if diff < 0 {
        DiffMembersComposed(path, f[1..], t, cs, h);
      } else {
        DiffMembersComposed(path, f, t[1..], cs, h);
      }
    }
  }

  lemma PrefixDeep(token: string, es: seq<Edit>)
    ensures Deep(PrefixAll("/" + token, es))
  {
  }

  lemma {:induction false} DiffItemsDeep(f: seq<Json>, t: seq<Json>, index: nat, cs: bool, h: nat)
    requires forall i | 0 <= i < |f| :: Height(f[i]) < h
    ensures Deep(DiffItems("", f, t, index, cs, h))
    decreases |f|
  {
    if f != [] && t != [] {
      ChildDiff(Decimal(index), f[0], t[0], cs);
      PrefixDeep(Decimal(index), Diff("", f[0], t[0], cs));
      DiffItemsDeep(f[1..], t[1..], index + 1, cs, h);
    }
  }

  lemma {:induction false} DiffMembersDeep(f: seq<Member>, t: seq<Member>, cs: bool, h: nat)
    requires forall i | 0 <= i < |f| :: Height(f[i].value) < h
    ensures Deep(DiffMembers("", f, t, cs, h))
    decreases |f| + |t|
  {
    if f != [] || t != [] {
      var diff := if f == [] then 1 else if t == [] then -1 else CompareStrings(f[0].key, t[0].key, cs);
      if diff == 0 {
        ChildDiff(Encode(f[0].key), f[0].value, t[0].value, cs);
        PrefixDeep(Encode(f[0].key), Diff("", f[0].value, t[0].value, cs));
        DiffMembersDeep(f[1..], t[1..], cs, h);
      } else if diff < 0 {
        DiffMembersDeep(f[1..], t, cs, h);
      } else {
        DiffMembersDeep(f, t[1..], cs, h);
      }
    }
  }

  /** A node that create_patches replaces as a whole. */
  predicate Replaced(v: Json, w: Json) {
    || !SameKind(v, w)
    || (v.Number? && (ValueInt(v.d) != ValueInt(w.d) || !CompareDouble(v.d, w.d)))
    || (v.String? && v.s != w.s)
  }

  /** The edits of a node: one replacement of the node itself, or only edits below it. */
  lemma DiffShape(from: Json, to: Json, cs: bool)
    ensures Replaced(from, to) ==> Diff("", from, to, cs) == [Edit(REPLACE, "", Some(to))]
    ensures !Replaced(from, to) ==> Deep(Diff("", from, to, cs))
  {
    if !SameKind(from, to) {
    } else if from.Array? {
      ChildHeight(from);
      DiffItemsDeep(from.items, to.items, 0, cs, Height(from));
    } else if from.Object? {
      SortedHeights(from, cs);
      DiffMembersDeep(SortMembers(from.members, cs), SortMembers(to.members, cs), cs, Height(from));
    }
  }

  // ---- domains ----

  ghost predicate Target(j: Json, cs: bool) {
    Sound(j, cs) && Height(j) <= CJSON_CIRCULAR_LIMIT
  }

  /** A member that detach_path finds by its own path: the key decodes, and no twin ignoring case is in front. */
  ghost predicate Detachable(ms: seq<Member>, m: Member) {
    Decodable(m.key) && Holds(ms, m, false)
  }

  /** A member that is taken out of the first object: removed, or replaced as a whole. */
  predicate Detached(m: Member, to: Json, cs: bool) {
    var w := Field(to, m.key, cs);
    w.None? || Replaced(m.value, w.value)
  }

  /**
   * Where the generated paths lead to what they name: members to be taken out are detachable, new keys decode in
   * place, and elements have indices. Members that stay, or are edited below, may have any key.
   */
  ghost predicate Patchable(from: Json, to: Json, cs: bool)
    decreases from
  {
    if from.Array? && to.Array? then
      && |from.items| <= SIZE_RANGE
      && forall i | 0 <= i < |from.items| && i < |to.items| :: Patchable(from.items[i], to.items[i], cs)
    else if from.Object? && to.Object? then
      && (forall i | 0 <= i < |from.members| ::
           if Detached(from.members[i], to, cs) then Detachable(from.members, from.members[i])
           else Patchable(from.members[i].value, Field(to, from.members[i].key, cs).value, cs))
      && (forall i | 0 <= i < |to.members| ::
           Field(from, to.members[i].key, cs).None? ==> Decodable(to.members[i].key))
    else true
  }

  ghost predicate AllSound(ms: seq<Member>, cs: bool) {
    forall i | 0 <= i < |ms| :: Sound(ms[i].value, cs)
  }

  ghost predicate Works(from: Json, to: Json, cs: bool) {
    && AllComposed(Diff("", from, to, cs))
    && ApplyEdits(from, Diff("", from, to, cs), cs).0 == 0
    && Meaning(ApplyEdits(from, Diff("", from, to, cs), cs).1, cs) == Meaning(to, cs)
    && Sound(ApplyEdits(from, Diff("", from, to, cs), cs).1, cs)
  }

  /** The edits succeed one after the other and lead from j to k. */
  ghost predicate Runs(j: Json, es: seq<Edit>, k: Json, cs: bool) {
    AllComposed(es) && ApplyEdits(j, es, cs) == (0, k)
  }

  lemma RunsAppend(j: Json, a: seq<Edit>, k: Json, b: seq<Edit>, l: Json, cs: bool)
    requires Runs(j, a, k, cs) && Runs(k, b, l, cs)
    ensures Runs(j, a + b, l, cs)
  {
    ApplyEditsAppend(j, a, b, cs);
  }

  lemma RunsOne(j: Json, e: Edit, k: Json, cs: bool)
    requires Composed(e) && ApplyEdit(j, e, cs) == (0, k)
    ensures Runs(j, [e], k, cs)
  {
    OneEdit(j, e, cs);
  }

  lemma RunsNone(j: Json, cs: bool)
    ensures Runs(j, [], j, cs)
  {
  }

  /** What the edits of a node make of it. */
  ghost function Result(from: Json, to: Json, cs: bool): Json
    requires Works(from, to, cs)
  {
    ApplyEdits(from, Diff("", from, to, cs), cs).1
  }

  lemma RootToken(token: string)
    requires '/' !in token
    ensures SplitPath("/" + token) == Some(("", token))
    ensures "/" + token != ""
  {
    var p := "/" + token;
    assert p[1..] == token && p[..0] == "";
    LastSlashUnique(p, 0);
  }

  lemma OneEdit(j: Json, e: Edit, cs: bool)
    requires Composed(e)
    ensures ApplyEdits(j, [e], cs) == ApplyEdit(j, e, cs)
  {
    var next := ApplyEdit(j, e, cs).1;
    assert [e][1..] == [];
    assert ApplyEdits(next, [], cs) == (0, next);
  }

  // ---- arrays ----

  lemma IndexToken(n: nat)
    requires n < SIZE_RANGE
    ensures SplitPath("/" + Decimal(n)) == Some(("", Decimal(n)))
    ensures DecodeToken(Decimal(n)) == Decimal(n) && Encode(Decimal(n)) == Decimal(n)
    ensures DecodeIndex(Decimal(n)) == Some(n) && Decimal(n) != "-"
  {
    DecimalPlain(n);
    RootToken(Decimal(n));
    PlainDecodable(Decimal(n));
    EncodePlain(Decimal(n));
    assert Decimal(n) + "" == Decimal(n);
    DecodePrintedIndex(n, "");
  }

  lemma DetachItem(items: seq<Json>, n: nat, cs: bool)
    requires n < |items| <= SIZE_RANGE
    ensures Detach(Array(items), "/" + Decimal(n), cs) == (Some(items[n]), Array(DropAt(items, n)))
  {
    IndexToken(n);
    assert Resolve(Array(items), "", cs) == Some([]);
  }

  lemma InsertItem(items: seq<Json>, n: nat, v: Json, cs: bool)
    requires n <= |items| && n < SIZE_RANGE
    ensures Insert(Array(items), "/" + Decimal(n), v, cs) == (0, Array(items[..n] + [v] + items[n..]))
  {
    IndexToken(n);
    assert Resolve(Array(items), "", cs) == Some([]);
  }

  /** Replacing an element: removed and inserted at the same index. */
  lemma ReplaceItem(items: seq<Json>, n: nat, v: Json, cs: bool)
    requires n < |items| <= SIZE_RANGE && Height(v) <= CJSON_CIRCULAR_LIMIT
    ensures ApplyEdit(Array(items), Edit(REPLACE, "/" + Decimal(n), Some(v)), cs) == (0, Array(items[n := v]))
  {
    DetachItem(items, n, cs);
    InsertItem(DropAt(items, n), n, v, cs);
    RootToken(Decimal(n));
    DropAndInsert(items, n, v);
  }

  lemma DropAndInsert(items: seq<Json>, n: nat, v: Json)
    requires n < |items|
    ensures DropAt(items, n)[..n] + [v] + DropAt(items, n)[n..] == items[n := v]
  {
  }

  /** The edits of one element change that element in place. */
  lemma ItemEdits(items: seq<Json>, n: nat, to: Json, cs: bool)
    requires n < |items| <= SIZE_RANGE && Works(items[n], to, cs)
    ensures Runs(Array(items), Diff("" + "/" + Decimal(n), items[n], to, cs),
      Array(items[n := Result(items[n], to, cs)]), cs)
  {
    var es, j := Diff("", items[n], to, cs), Array(items);
    ChildDiff(Decimal(n), items[n], to, cs);
    DiffShape(items[n], to, cs);
    if es == [Edit(REPLACE, "", Some(to))] {
      assert Composed(es[0]);
      OneEdit(items[n], es[0], cs);
      assert ("/" + Decimal(n)) + "" == "/" + Decimal(n);
      var e := Edit(REPLACE, "/" + Decimal(n), Some(to));
      assert PrefixAll("/" + Decimal(n), es) == [e];
      ReplaceItem(items, n, to, cs);
      RunsOne(j, e, Array(items[n := to]), cs);
    } else {
      EditsUnder(j, n, es, cs);
    }
  }

  lemma RemoveItem(items: seq<Json>, m: nat, cs: bool)
    requires m < |items| <= SIZE_RANGE
    ensures Runs(Array(items), [Edit(REMOVE, "" + "/" + Encode(Decimal(m)), None)], Array(DropAt(items, m)), cs)
  {
    hide Decimal, Encode, Detach, DropAt;
    DetachItem(items, m, cs);
    IndexToken(m);
    RootToken(Decimal(m));
    assert "" + "/" + Decimal(m) == "/" + Decimal(m);
    RunsOne(Array(items), Edit(REMOVE, "" + "/" + Encode(Decimal(m)), None), Array(DropAt(items, m)), cs);
  }

  /** Repeated removal at one index cuts exactly the tail. */
  lemma {:induction false} RemovesWork(items: seq<Json>, m: nat, k: nat, cs: bool)
    requires m + k == |items| <= SIZE_RANGE
    ensures Runs(Array(items), Removes("", k, m), Array(items[..m]), cs)
    decreases k
  {
    if k == 0 {
      RunsNone(Array(items), cs);
      assert items[..m] == items;
    } else {
      RemoveItem(items, m, cs);
      RemovesWork(DropAt(items, m), m, k - 1, cs);
      assert DropAt(items, m)[..m] == items[..m];
      var first := [Edit(REMOVE, "" + "/" + Encode(Decimal(m)), None)];
      RunsAppend(Array(items), first, Array(DropAt(items, m)), Removes("", k - 1, m), Array(items[..m]), cs);
      assert Removes("", k, m) == first + Removes("", k - 1, m);
    }
  }

  lemma AppendItem(items: seq<Json>, v: Json, cs: bool)
    requires Height(v) <= CJSON_CIRCULAR_LIMIT
    ensures Runs(Array(items), [Edit(ADD, "" + "/" + Encode("-"), Some(v))], Array(items + [v]), cs)
  {
    RootToken("-");
    PlainDecodable("-");
    EncodePlain("-");
    assert "" + "/" + "-" == "/" + "-";
    assert Resolve(Array(items), "", cs) == Some([]);
    RunsOne(Array(items), Edit(ADD, "" + "/" + Encode("-"), Some(v)), Array(items + [v]), cs);
  }

  lemma {:induction false} AddsWork(items: seq<Json>, t: seq<Json>, cs: bool)
    requires forall i | 0 <= i < |t| :: Height(t[i]) <= CJSON_CIRCULAR_LIMIT
    ensures Runs(Array(items), Adds("", t), Array(items + t), cs)
    decreases |t|
  {
    if t == [] {
      RunsNone(Array(items), cs);
      assert items + t == items;
    } else {
      AppendItem(items, t[0], cs);
      AddsWork(items + [t[0]], t[1..], cs);
      assert (items + [t[0]]) + t[1..] == items + t;
      var first := [Edit(ADD, "" + "/" + Encode("-"), Some(t[0]))];
      RunsAppend(Array(items), first, Array(items + [t[0]]), Adds("", t[1..]), Array(items + t), cs);
      assert Adds("", t) == first + Adds("", t[1..]);
    }
  }

  lemma RestWorks(done: seq<Json>, f: seq<Json>, t: seq<Json>, cs: bool)
    requires |done| + |f| <= SIZE_RANGE
    requires forall i | 0 <= i < |t| :: Height(t[i]) <= CJSON_CIRCULAR_LIMIT
    ensures Runs(Array(done + f), Removes("", |f|, |done|) + Adds("", t), Array(done + t), cs)
  {
    RemovesWork(done + f, |done|, |f|, cs);
    assert (done + f)[..|done|] == done;
    AddsWork(done, t, cs);
    RunsAppend(Array(done + f), Removes("", |f|, |done|), Array(done), Adds("", t), Array(done + t), cs);
  }

  lemma UpdateBetween(done: seq<Json>, f: seq<Json>, r: Json)
    requires f != []
    ensures (done + f)[|done|] == f[0]
    ensures (done + f)[|done| := r] == (done + [r]) + f[1..]
  {
  }

  lemma FirstItem(done: seq<Json>, f: seq<Json>, to: Json, cs: bool)
    requires f != [] && |done| + |f| <= SIZE_RANGE && Works(f[0], to, cs)
    ensures Runs(Array(done + f), Diff("" + "/" + Decimal(|done|), f[0], to, cs),
                 Array((done + [Result(f[0], to, cs)]) + f[1..]), cs)
  {
    UpdateBetween(done, f, Result(f[0], to, cs));
    ItemEdits(done + f, |done|, to, cs);
  }

  ghost predicate SameMeanings(a: seq<Json>, b: seq<Json>, cs: bool) {
    |a| == |b| && forall i | 0 <= i < |a| :: Meaning(a[i], cs) == Meaning(b[i], cs) && Sound(a[i], cs)
  }

  /** The edits of an array, with `done` elements already as they should be. */
  lemma {:induction false} ItemsWork(done: seq<Json>, f: seq<Json>, t: seq<Json>, cs: bool, h: nat)
    returns (out: seq<Json>)
    requires |done| + |f| <= SIZE_RANGE
    requires forall i | 0 <= i < |f| :: Height(f[i]) < h && Sound(f[i], cs)
    requires forall i | 0 <= i < |t| :: Target(t[i], cs)
    requires forall i | 0 <= i < |f| && i < |t| :: Patchable(f[i], t[i], cs)
    ensures Runs(Array(done + f), DiffItems("", f, t, |done|, cs, h), Array(done + out), cs)
    ensures SameMeanings(out, t, cs)
    decreases h, 0, |f|, 1
  {
    hide Diff, Patchable, Target, Sound, Works, SameMeanings;
    if f != [] && t != [] {
      DiffWorks(f[0], t[0], cs);
      var r := Result(f[0], t[0], cs);
      FirstItem(done, f, t[0], cs);
      var rest := ItemsWork(done + [r], f[1..], t[1..], cs, h);
      RunsAppend(Array(done + f), Diff("" + "/" + Decimal(|done|), f[0], t[0], cs), Array((done + [r]) + f[1..]),
                 DiffItems("", f[1..], t[1..], |done| + 1, cs, h), Array((done + [r]) + rest), cs);
      out := [r] + rest;
      Associate3(done, r, rest);
      ResultMeans(f[0], t[0], cs);
      ConsMeanings(r, rest, t, cs);
    } else {
      TargetsMean(t, cs);
      RestWorks(done, f, t, cs);
      out := t;
    }
  }

  lemma ResultMeans(from: Json, to: Json, cs: bool)
    requires Works(from, to, cs)
    ensures Meaning(Result(from, to, cs), cs) == Meaning(to, cs) && Sound(Result(from, to, cs), cs)
  {
  }

  lemma ConsMeanings(r: Json, rest: seq<Json>, t: seq<Json>, cs: bool)
    requires t != [] && Meaning(r, cs) == Meaning(t[0], cs) && Sound(r, cs) && SameMeanings(rest, t[1..], cs)
    ensures SameMeanings([r] + rest, t, cs)
  {
    hide Meaning, Sound;
  }

  lemma TargetsMean(t: seq<Json>, cs: bool)
    requires forall i | 0 <= i < |t| :: Target(t[i], cs)
    ensures forall i | 0 <= i < |t| :: Height(t[i]) <= CJSON_CIRCULAR_LIMIT
    ensures SameMeanings(t, t, cs)
  {
    hide Sound, Meaning;
  }

  lemma Associate3(a: seq<Json>, x: Json, b: seq<Json>)
    ensures (a + [x]) + b == a + ([x] + b)
  {
  }

  // ---- objects ----

  lemma MemberToken(key: string)
    requires Decodable(key)
    ensures SplitPath("/" + Encode(key)) == Some(("", Encode(key)))
    ensures DecodeToken(Encode(key)) == key
    ensures "" + "/" + Encode(key) == "/" + Encode(key) != ""
  {
    EncodeNoSlash(key);
    RootToken(Encode(key));
    DecodeUndoesEncode(key);
  }

  lemma DetachMember(ms: seq<Member>, m: Member, cs: bool)
    requires Detachable(ms, m)
    ensures Detach(Object(ms), "/" + Encode(m.key), cs) == (Some(m.value), Object(DropAt(ms, Lookup(ms, m.key, false))))
  {
    MemberToken(m.key);
    assert Resolve(Object(ms), "", cs) == Some([]);
  }

  lemma InsertMember(ms: seq<Member>, key: string, v: Json, cs: bool)
    requires Decodable(key)
    ensures Insert(Object(ms), "/" + Encode(key), v, cs) == (0, Object(DeleteMember(ms, key, cs) + [Member(key, v)]))
  {
    hide Encode, DecodeToken, DeleteMember, Decodable;
    MemberToken(key);
    assert Resolve(Object(ms), "", cs) == Some([]);
  }

  /** "remove" of a member. */
  lemma MemberRemove(ms: seq<Member>, m: Member, cs: bool)
    requires Detachable(ms, m)
    ensures Runs(Object(ms), [Edit(REMOVE, "" + "/" + Encode(m.key), None)],
      Object(DropAt(ms, Lookup(ms, m.key, false))), cs)
  {
    MemberToken(m.key);
    DetachMember(ms, m, cs);
    RunsOne(Object(ms), Edit(REMOVE, "" + "/" + Encode(m.key), None), Object(DropAt(ms, Lookup(ms, m.key, false))), cs);
  }

  /** "add" of a member. */
  lemma MemberAdd(ms: seq<Member>, m: Member, cs: bool)
    requires Decodable(m.key) && Height(m.value) <= CJSON_CIRCULAR_LIMIT
    ensures Runs(Object(ms), [Edit(ADD, "" + "/" + Encode(m.key), Some(m.value))],
                 Object(DeleteMember(ms, m.key, cs) + [Member(m.key, m.value)]), cs)
  {
    MemberToken(m.key);
    InsertMember(ms, m.key, m.value, cs);
    RunsOne(Object(ms), Edit(ADD, "" + "/" + Encode(m.key), Some(m.value)),
            Object(DeleteMember(ms, m.key, cs) + [Member(m.key, m.value)]), cs);
  }

  /** The members after a whole member was replaced: taken out, and added at the end. */
  ghost function ReplacedMembers(ms: seq<Member>, m: Member, v: Json, cs: bool): seq<Member>
    requires Holds(ms, m, false)
  {
    DeleteMember(DropAt(ms, Lookup(ms, m.key, false)), m.key, cs) + [Member(m.key, v)]
  }

  /** What the edits of one member need, for an object that holds it. */
  ghost predicate Editable(ms: seq<Member>, m: Member, to: Json, cs: bool) {
    Holds(ms, m, cs) && Works(m.value, to, cs) && (Replaced(m.value, to) ==> Detachable(ms, m))
  }

  /** The members after the edits of one member: replaced as a whole, or changed in place. */
  ghost function EditedMembers(ms: seq<Member>, m: Member, to: Json, cs: bool): seq<Member>
    requires Editable(ms, m, to, cs)
  {
    if Replaced(m.value, to) then ReplacedMembers(ms, m, to, cs)
    else ms[Lookup(ms, m.key, cs) := Member(m.key, Result(m.value, to, cs))]
  }

  lemma MemberReplace(ms: seq<Member>, m: Member, to: Json, cs: bool)
    requires Detachable(ms, m) && Height(to) <= CJSON_CIRCULAR_LIMIT
    ensures Runs(Object(ms), [Edit(REPLACE, "/" + Encode(m.key), Some(to))], Object(ReplacedMembers(ms, m, to, cs)), cs)
  {
    MemberToken(m.key);
    DetachMember(ms, m, cs);
    InsertMember(DropAt(ms, Lookup(ms, m.key, false)), m.key, to, cs);
    RunsOne(Object(ms), Edit(REPLACE, "/" + Encode(m.key), Some(to)), Object(ReplacedMembers(ms, m, to, cs)), cs);
  }

  lemma MemberEdits(ms: seq<Member>, m: Member, to: Json, cs: bool)
    requires DistinctKeys(ms, cs) && Editable(ms, m, to, cs)
    ensures Runs(Object(ms), Diff("" + "/" + Encode(m.key), m.value, to, cs), Object(EditedMembers(ms, m, to, cs)), cs)
  {
    hide Diff, Encode, Replaced, Fold, Lookup;
    var es := Diff("", m.value, to, cs);
    ChildDiff(Encode(m.key), m.value, to, cs);
    DiffShape(m.value, to, cs);
    if Replaced(m.value, to) {
      assert Composed(es[0]);
      assert ("/" + Encode(m.key)) + "" == "/" + Encode(m.key);
      assert PrefixAll("/" + Encode(m.key), es) == [Edit(REPLACE, "/" + Encode(m.key), Some(to))];
      MemberReplace(ms, m, to, cs);
    } else {
      EditsUnder(Object(ms), Lookup(ms, m.key, cs), es, cs);
    }
  }

  /** What the edits of one member mean for the object, and for the members still to come. */
  lemma EditedFacts(ms: seq<Member>, m: Member, to: Json, cs: bool)
    requires DistinctKeys(ms, cs) && Editable(ms, m, to, cs)
    ensures DistinctKeys(EditedMembers(ms, m, to, cs), cs)
    ensures Meanings(EditedMembers(ms, m, to, cs), cs) == Meanings(ms, cs)[Fold(m.key, cs) := Meaning(to, cs)]
  {
    hide Diff, Encode, Replaced, Fold, Decodable, Meaning, Meanings;
    if Replaced(m.value, to) {
      var i := Lookup(ms, m.key, false);
      DropFacts(ms, i, cs);
      PutFacts(DropAt(ms, i), Member(m.key, to), cs);
      PutOver(Meanings(ms, cs), Fold(m.key, cs), Meaning(to, cs));
    } else {
      UpdateFacts(ms, Lookup(ms, m.key, cs), Result(m.value, to, cs), cs);
    }
  }

  lemma PutOver(m: map<string, Doc>, k: string, v: Doc)
    ensures (m - {k})[k := v] == m[k := v]
  {
  }

  lemma EditedHolds(ms: seq<Member>, m: Member, to: Json, other: Member, cs: bool, mode: bool)
    requires Editable(ms, m, to, cs) && Holds(ms, other, mode) && Fold(other.key, cs) != Fold(m.key, cs)
    ensures Holds(EditedMembers(ms, m, to, cs), other, mode)
  {
    hide Diff, Encode, Replaced, Fold, Decodable;
    if Replaced(m.value, to) {
      var i := Lookup(ms, m.key, false);
      DropHolds(ms, i, other, mode);
      PutHolds(DropAt(ms, i), Member(m.key, to), other, cs, mode);
    } else {
      UpdateHolds(ms, Lookup(ms, m.key, cs), Result(m.value, to, cs), other, mode);
    }
  }

  lemma DropSound(ms: seq<Member>, i: nat, cs: bool)
    requires i < |ms| && AllSound(ms, cs)
    ensures AllSound(DropAt(ms, i), cs)
  {
    forall p | 0 <= p < |ms| - 1 ensures Sound(DropAt(ms, i)[p].value, cs) {
      DropIndex(ms, i, p);
    }
  }

  lemma PutSound(ms: seq<Member>, x: Member, cs: bool)
    requires AllSound(ms, cs) && Sound(x.value, cs)
    ensures AllSound(DeleteMember(ms, x.key, cs) + [x], cs)
  {
    if Lookup(ms, x.key, cs) < |ms| {
      DropSound(ms, Lookup(ms, x.key, cs), cs);
    }
  }

  lemma EditedSound(ms: seq<Member>, m: Member, to: Json, cs: bool)
    requires Editable(ms, m, to, cs) && AllSound(ms, cs) && Sound(to, cs)
    ensures AllSound(EditedMembers(ms, m, to, cs), cs)
  {
    hide Diff, Encode, Replaced, Fold, Decodable, Unique, Plain;
    if Replaced(m.value, to) {
      var i := Lookup(ms, m.key, false);
      DropSound(ms, i, cs);
      PutSound(DropAt(ms, i), Member(m.key, to), cs);
    }
  }

  /** The object holds every member of f, and can detach those that t does not keep. */
  ghost predicate AllHold(ms: seq<Member>, f: seq<Member>, t: seq<Member>, cs: bool) {
    forall i | 0 <= i < |f| :: Holds(ms, f[i], cs) && (Detached(f[i], Object(t), cs) ==> Detachable(ms, f[i]))
  }

  /** What the walk needs to know about the two sorted lists. */
  ghost predicate Walkable(f: seq<Member>, t: seq<Member>, cs: bool, h: nat) {
    && StrictlyBefore(f, cs) && DistinctKeys(f, cs) && StrictlyBefore(t, cs) && DistinctKeys(t, cs)
    && (forall i | 0 <= i < |f| :: Height(f[i].value) < h && FromFits(f[i], t, cs))
    && (forall i | 0 <= i < |t| :: ToFits(t[i], f, cs))
  }

  ghost predicate FromFits(m: Member, t: seq<Member>, cs: bool) {
    && Sound(m.value, cs)
    && (!Detached(m, Object(t), cs) ==> Patchable(m.value, Field(Object(t), m.key, cs).value, cs))
  }

  ghost predicate ToFits(n: Member, f: seq<Member>, cs: bool) {
    Target(n.value, cs) && (Field(Object(f), n.key, cs).None? ==> Decodable(n.key))
  }

  /** Taking the head off does not change how another key is looked up. */
  lemma FieldTail(ms: seq<Member>, key: string, cs: bool)
    requires ms != [] && Fold(ms[0].key, cs) != Fold(key, cs)
    ensures Field(Object(ms[1..]), key, cs) == Field(Object(ms), key, cs)
  {
  }

  /** Walking on: what is left still fits, when no member left had its counterpart taken off. */
  lemma WalkOn(f: seq<Member>, f': seq<Member>, t: seq<Member>, t': seq<Member>, cs: bool, h: nat)
    requires Walkable(f, t, cs, h)
    requires f' == f || (f != [] && f' == f[1..])
    requires t' == t || (t != [] && t' == t[1..])
    requires forall m | m in f' :: Field(Object(t'), m.key, cs) == Field(Object(t), m.key, cs)
    requires forall n | n in t' :: Field(Object(f'), n.key, cs) == Field(Object(f), n.key, cs)
    ensures Walkable(f', t', cs, h)
  {
    hide Field, Sound, Target, Decodable, Patchable, Replaced;
    if f != [] {
      TailSorted(f, cs);
    }
    if t != [] {
      TailSorted(t, cs);
    }
    forall i | 0 <= i < |f'| ensures Height(f'[i].value) < h && FromFits(f'[i], t', cs) {
      assert f'[i] in f' && f'[i] in f;
    }
    forall i | 0 <= i < |t'| ensures ToFits(t'[i], f', cs) {
      assert t'[i] in t' && t'[i] in t;
    }
  }

  lemma TailFields(ms: seq<Member>, others: seq<Member>, cs: bool)
    requires ms != [] && forall m | m in others :: Fold(m.key, cs) != Fold(ms[0].key, cs)
    ensures forall m | m in others :: Field(Object(ms[1..]), m.key, cs) == Field(Object(ms), m.key, cs)
  {
    hide Field;
    forall m | m in others ensures Field(Object(ms[1..]), m.key, cs) == Field(Object(ms), m.key, cs) {
      FieldTail(ms, m.key, cs);
    }
  }

  /** Which members may be left behind the heads that a turn of the walk takes off. */
  lemma WalkTails(f: seq<Member>, t: seq<Member>, cs: bool, h: nat)
    requires Walkable(f, t, cs, h)
    ensures f != [] && Fold(f[0].key, cs) !in Keys(t, cs) ==> Walkable(f[1..], t, cs, h)
    ensures t != [] && Fold(t[0].key, cs) !in Keys(f, cs) ==> Walkable(f, t[1..], cs, h)
    ensures f != [] && t != [] && Fold(f[0].key, cs) == Fold(t[0].key, cs) ==> Walkable(f[1..], t[1..], cs, h)
  {
    hide Field, Walkable, Fold;
    if f != [] && Fold(f[0].key, cs) !in Keys(t, cs) {
      TailFields(f, t, cs);
      WalkOn(f, f[1..], t, t, cs, h);
    }
    if t != [] && Fold(t[0].key, cs) !in Keys(f, cs) {
      TailFields(t, f, cs);
      WalkOn(f, f, t, t[1..], cs, h);
    }
    if f != [] && t != [] && Fold(f[0].key, cs) == Fold(t[0].key, cs) {
      HeadsApart(f, t, cs, h);
      TailFields(f, t[1..], cs);
      TailFields(t, f[1..], cs);
      WalkOn(f, f[1..], t, t[1..], cs, h);
    }
  }

  lemma HeadsApart(f: seq<Member>, t: seq<Member>, cs: bool, h: nat)
    requires Walkable(f, t, cs, h) && f != [] && t != [] && Fold(f[0].key, cs) == Fold(t[0].key, cs)
    ensures forall m | m in f[1..] :: Fold(m.key, cs) != Fold(t[0].key, cs)
    ensures forall m | m in t[1..] :: Fold(m.key, cs) != Fold(f[0].key, cs)
  {
  }

  /** The object keeps its keys outside of f, and has those of t. */
  ghost predicate Walked(ms: seq<Member>, out: seq<Member>, f: seq<Member>, t: seq<Member>, cs: bool) {
    DistinctKeys(out, cs) && Meanings(out, cs) == (Meanings(ms, cs) - Keys(f, cs)) + Meanings(t, cs)
  }

  /** The merge walk over two sorted member lists, on any object that still holds the first one. */
  lemma {:induction false} MembersWork(ms: seq<Member>, f: seq<Member>, t: seq<Member>, cs: bool, h: nat)
    returns (out: seq<Member>)
    requires DistinctKeys(ms, cs) && AllSound(ms, cs) && AllHold(ms, f, t, cs) && Walkable(f, t, cs, h)
    ensures Runs(Object(ms), DiffMembers("", f, t, cs, h), Object(out), cs)
    ensures Walked(ms, out, f, t, cs) && AllSound(out, cs)
    decreases h, 0, |f| + |t|, 1
  {
    if f == [] && t == [] {
      RunsNone(Object(ms), cs);
      out := ms;
      NothingWalked(ms, cs);
    } else {
      var diff := if f == [] then 1 else if t == [] then -1 else CompareStrings(f[0].key, t[0].key, cs);
      if diff == 0 {
        out := WalkBoth(ms, f, t, cs, h);
      } else if diff < 0 {
        out := WalkRemove(ms, f, t, cs, h);
      } else {
        out := WalkAdd(ms, f, t, cs, h);
      }
    }
  }

  lemma NothingWalked(ms: seq<Member>, cs: bool)
    requires DistinctKeys(ms, cs)
    ensures Walked(ms, ms, [], [], cs)
  {
  }

  lemma RemovedKeyGone(f: seq<Member>, t: seq<Member>, cs: bool)
    requires StrictlyBefore(t, cs) && f != [] && (t == [] || CompareStrings(f[0].key, t[0].key, cs) < 0)
    ensures Fold(f[0].key, cs) !in Keys(t, cs) && Field(Object(t), f[0].key, cs) == None
  {
    if t != [] {
      CompareStringsOrder(f[0].key, t[0].key, cs);
    }
    BeforeHead(Fold(f[0].key, cs), t, cs);
    KeysFirst(t, Fold(f[0].key, cs), cs);
  }

  lemma RemoveHolds(ms: seq<Member>, f: seq<Member>, t: seq<Member>, cs: bool)
    requires f != [] && DistinctKeys(f, cs) && AllHold(ms, f, t, cs) && Detachable(ms, f[0])
    ensures AllHold(DropAt(ms, Lookup(ms, f[0].key, false)), f[1..], t, cs)
  {
    hide Decodable, Detached, Lookup;
    var i := Lookup(ms, f[0].key, false);
    forall k | 0 <= k < |f[1..]|
      ensures Holds(DropAt(ms, i), f[1..][k], cs)
      ensures Detached(f[1..][k], Object(t), cs) ==> Detachable(DropAt(ms, i), f[1..][k])
    {
      assert f[1..][k] == f[k + 1];
      DropHolds(ms, i, f[k + 1], cs);
      if Detached(f[k + 1], Object(t), cs) {
        DropHolds(ms, i, f[k + 1], false);
      }
    }
  }

  lemma RemoveWalked(ms: seq<Member>, i: nat, out: seq<Member>, f: seq<Member>, t: seq<Member>, cs: bool)
    requires DistinctKeys(ms, cs) && i < |ms| && f != [] && DistinctKeys(f, cs) && ms[i] == f[0]
    requires Walked(DropAt(ms, i), out, f[1..], t, cs)
    ensures Walked(ms, out, f, t, cs)
  {
    DropFacts(ms, i, cs);
    TailFacts(f, cs);
    RemoveMath(Meanings(ms, cs), Keys(f, cs), Fold(f[0].key, cs));
  }

  lemma {:induction false} WalkRemove(ms: seq<Member>, f: seq<Member>, t: seq<Member>, cs: bool, h: nat)
    returns (out: seq<Member>)
    requires DistinctKeys(ms, cs) && AllSound(ms, cs) && AllHold(ms, f, t, cs) && Walkable(f, t, cs, h)
    requires f != [] && (t == [] || CompareStrings(f[0].key, t[0].key, cs) < 0)
    ensures Runs(Object(ms), DiffMembers("", f, t, cs, h), Object(out), cs)
    ensures Walked(ms, out, f, t, cs) && AllSound(out, cs)
    decreases h, 0, |f| + |t|, 0
  {
    hide Field, Replaced, Decodable, Lookup, Encode, Fold, FromFits, ToFits, Meanings, Keys;
    RemovedKeyGone(f, t, cs);
    WalkTails(f, t, cs, h);
    var i := Lookup(ms, f[0].key, false);
    assert Detached(f[0], Object(t), cs) && Detachable(ms, f[0]);
    MemberRemove(ms, f[0], cs);
    DropFacts(ms, i, cs);
    RemoveHolds(ms, f, t, cs);
    DropSound(ms, i, cs);
    out := MembersWork(DropAt(ms, i), f[1..], t, cs, h);
    RunsAppend(Object(ms), [Edit(REMOVE, "" + "/" + Encode(f[0].key), None)], Object(DropAt(ms, i)),
               DiffMembers("", f[1..], t, cs, h), Object(out), cs);
    RemoveWalked(ms, i, out, f, t, cs);
  }

  lemma RemoveMath(m: map<string, Doc>, keys: set<string>, k: string)
    requires k in keys
    ensures (m - {k}) - (keys - {k}) == m - keys
  {
  }

  /** The object after "add" still holds every member of the first list. */
  lemma AddHolds(ms: seq<Member>, f: seq<Member>, t: seq<Member>, x: Member, cs: bool)
    requires AllHold(ms, f, t, cs) && t != [] && x == t[0] && Fold(x.key, cs) !in Keys(f, cs)
    ensures AllHold(DeleteMember(ms, x.key, cs) + [x], f, t[1..], cs)
  {
    hide Decodable, Fold, Field, Replaced, DeleteMember;
    var next := DeleteMember(ms, x.key, cs) + [x];
    TailFields(t, f, cs);
    forall i | 0 <= i < |f|
      ensures Holds(next, f[i], cs) && (Detached(f[i], Object(t[1..]), cs) ==> Detachable(next, f[i]))
    {
      assert f[i] in f;
      PutHolds(ms, x, f[i], cs, cs);
      if Detached(f[i], Object(t[1..]), cs) {
        PutHolds(ms, x, f[i], cs, false);
      }
    }
  }

  lemma AddedKeyNew(f: seq<Member>, t: seq<Member>, cs: bool)
    requires StrictlyBefore(f, cs) && t != [] && (f == [] || CompareStrings(f[0].key, t[0].key, cs) > 0)
    ensures Fold(t[0].key, cs) !in Keys(f, cs) && Field(Object(f), t[0].key, cs) == None
  {
    if f != [] {
      CompareStringsOrder(f[0].key, t[0].key, cs);
    }
    BeforeHead(Fold(t[0].key, cs), f, cs);
    KeysFirst(f, Fold(t[0].key, cs), cs);
  }

  lemma AddWalked(ms: seq<Member>, out: seq<Member>, f: seq<Member>, t: seq<Member>, cs: bool)
    requires DistinctKeys(ms, cs) && t != [] && DistinctKeys(t, cs) && Fold(t[0].key, cs) !in Keys(f, cs)
    requires Walked(DeleteMember(ms, t[0].key, cs) + [t[0]], out, f, t[1..], cs)
    ensures Walked(ms, out, f, t, cs)
  {
    PutFacts(ms, t[0], cs);
    TailFacts(t, cs);
    assert Meanings(t[1..], cs).Keys == Keys(t[1..], cs);
    AddMath(Meanings(ms, cs), Keys(f, cs), Fold(t[0].key, cs), Meaning(t[0].value, cs), Meanings(t[1..], cs));
  }

  lemma {:induction false} WalkAdd(ms: seq<Member>, f: seq<Member>, t: seq<Member>, cs: bool, h: nat)
    returns (out: seq<Member>)
    requires DistinctKeys(ms, cs) && AllSound(ms, cs) && AllHold(ms, f, t, cs) && Walkable(f, t, cs, h)
    requires t != [] && (f == [] || CompareStrings(f[0].key, t[0].key, cs) > 0)
    ensures Runs(Object(ms), DiffMembers("", f, t, cs, h), Object(out), cs)
    ensures Walked(ms, out, f, t, cs) && AllSound(out, cs)
    decreases h, 0, |f| + |t|, 0
  {
    hide Field, Replaced, Decodable, Lookup, Encode, Fold, FromFits, Meanings, Keys, DeleteMember;
    AddedKeyNew(f, t, cs);
    WalkTails(f, t, cs, h);
    assert ToFits(t[0], f, cs);
    var next := DeleteMember(ms, t[0].key, cs) + [t[0]];
    MemberAdd(ms, t[0], cs);
    PutFacts(ms, t[0], cs);
    AddHolds(ms, f, t, t[0], cs);
    PutSound(ms, t[0], cs);
    out := MembersWork(next, f, t[1..], cs, h);
    RunsAppend(Object(ms), [Edit(ADD, "" + "/" + Encode(t[0].key), Some(t[0].value))], Object(next),
               DiffMembers("", f, t[1..], cs, h), Object(out), cs);
    AddWalked(ms, out, f, t, cs);
  }

  lemma AddMath(m: map<string, Doc>, keys: set<string>, k: string, v: Doc, t: map<string, Doc>)
    requires k !in keys && k !in t
    ensures (m[k := v] - keys) + t == (m - keys) + t[k := v]
  {
  }

  lemma BothHold(ms: seq<Member>, f: seq<Member>, t: seq<Member>, cs: bool)
    requires f != [] && t != [] && DistinctKeys(f, cs) && AllHold(ms, f, t, cs)
    requires Fold(f[0].key, cs) == Fold(t[0].key, cs) && Editable(ms, f[0], t[0].value, cs)
    ensures AllHold(EditedMembers(ms, f[0], t[0].value, cs), f[1..], t[1..], cs)
  {
    hide Decodable, Field, Replaced, Works, Diff, Encode, Fold;
    var next := EditedMembers(ms, f[0], t[0].value, cs);
    forall i | 0 <= i < |f[1..]|
      ensures Holds(next, f[1..][i], cs) && (Detached(f[1..][i], Object(t[1..]), cs) ==> Detachable(next, f[1..][i]))
    {
      assert f[1..][i] == f[i + 1];
      FieldTail(t, f[i + 1].key, cs);
      EditedHolds(ms, f[0], t[0].value, f[i + 1], cs, cs);
      if Detached(f[i + 1], Object(t[1..]), cs) {
        EditedHolds(ms, f[0], t[0].value, f[i + 1], cs, false);
      }
    }
  }

  lemma BothWalked(ms: seq<Member>, next: seq<Member>, out: seq<Member>, f: seq<Member>, t: seq<Member>, cs: bool)
    requires f != [] && t != [] && DistinctKeys(f, cs) && DistinctKeys(t, cs)
    requires Fold(f[0].key, cs) == Fold(t[0].key, cs)
    requires Meanings(next, cs) == Meanings(ms, cs)[Fold(f[0].key, cs) := Meaning(t[0].value, cs)]
    requires Walked(next, out, f[1..], t[1..], cs)
    ensures Walked(ms, out, f, t, cs)
  {
    TailFacts(f, cs);
    TailFacts(t, cs);
    assert Meanings(t[1..], cs).Keys == Keys(t[1..], cs);
    BothMath(Meanings(ms, cs), Keys(f, cs), Fold(f[0].key, cs), Meaning(t[0].value, cs), Meanings(t[1..], cs));
  }

  /** The head of the second list is the counterpart of the head of the first. */
  lemma HeadField(f: seq<Member>, t: seq<Member>, cs: bool)
    requires f != [] && t != [] && CompareStrings(f[0].key, t[0].key, cs) == 0
    ensures Fold(f[0].key, cs) == Fold(t[0].key, cs) && Field(Object(t), f[0].key, cs) == Some(t[0].value)
  {
    CompareStringsOrder(f[0].key, t[0].key, cs);
  }

  lemma {:induction false} WalkBoth(ms: seq<Member>, f: seq<Member>, t: seq<Member>, cs: bool, h: nat)
    returns (out: seq<Member>)
    requires DistinctKeys(ms, cs) && AllSound(ms, cs) && AllHold(ms, f, t, cs) && Walkable(f, t, cs, h)
    requires f != [] && t != [] && CompareStrings(f[0].key, t[0].key, cs) == 0
    ensures Runs(Object(ms), DiffMembers("", f, t, cs, h), Object(out), cs)
    ensures Walked(ms, out, f, t, cs) && AllSound(out, cs)
    decreases h, 0, |f| + |t|, 0
  {
    hide Field, Replaced, Decodable, Lookup, Encode, Fold, Meanings, Keys, DeleteMember, Patchable, Works;
    var m, to := f[0], t[0].value;
    HeadField(f, t, cs);
    WalkTails(f, t, cs, h);
    assert FromFits(m, t, cs) && ToFits(t[0], f, cs);
    MemberWorks(m, t, cs, h);
    assert Editable(ms, m, to, cs);
    MemberEdits(ms, m, to, cs);
    EditedFacts(ms, m, to, cs);
    BothHold(ms, f, t, cs);
    EditedSound(ms, m, to, cs);
    var next := EditedMembers(ms, m, to, cs);
    out := MembersWork(next, f[1..], t[1..], cs, h);
    RunsAppend(Object(ms), Diff("" + "/" + Encode(m.key), m.value, to, cs), Object(next),
               DiffMembers("", f[1..], t[1..], cs, h), Object(out), cs);
    BothWalked(ms, next, out, f, t, cs);
  }

  /** The edits of a member that both objects have. */
  lemma {:induction false} MemberWorks(m: Member, t: seq<Member>, cs: bool, h: nat)
    requires Height(m.value) < h && FromFits(m, t, cs) && t != [] && Target(t[0].value, cs)
    requires Field(Object(t), m.key, cs) == Some(t[0].value)
    ensures Works(m.value, t[0].value, cs)
    decreases h, 0, 0, 0
  {
    hide Works, Field;
    var w := t[0].value;
    if Replaced(m.value, w) {
      DiffShape(m.value, w, cs);
      ReplacedWorks(m.value, w, cs);
    } else {
      DiffWorks(m.value, w, cs);
    }
  }

  lemma BothMath(m: map<string, Doc>, keys: set<string>, k: string, v: Doc, t: map<string, Doc>)
    requires k in keys && k !in t
    ensures (m[k := v] - (keys - {k})) + t == (m - keys) + t[k := v]
  {
  }

  // ---- the theorem, node by node ----

  lemma {:induction false} ArrayWorks(from: Json, to: Json, cs: bool)
    requires from.Array? && to.Array? && Sound(from, cs) && Target(to, cs) && Patchable(from, to, cs)
    ensures Works(from, to, cs)
    decreases Height(from), 1, 0
  {
    ArrayParts(from, to, cs);
    ArrayDiff(from, to, cs);
    hide *;
    NothingBefore(from.items);
    var out := ItemsWork([], from.items, to.items, cs, Height(from));
    NothingBefore(out);
    SameArrayMeaning(out, to.items, cs);
    WholeWorks(from, to, Array(out), cs);
  }

  lemma NothingBefore<T>(s: seq<T>)
    ensures [] + s == s
  {
  }

  lemma ArrayDiff(from: Json, to: Json, cs: bool)
    requires from.Array? && to.Array? && forall i | 0 <= i < |from.items| :: Height(from.items[i]) < Height(from)
    ensures Diff("", from, to, cs) == DiffItems("", from.items, to.items, 0, cs, Height(from))
  {
    hide DiffItems, Height;
  }

  lemma ArrayParts(from: Json, to: Json, cs: bool)
    requires from.Array? && to.Array? && Sound(from, cs) && Target(to, cs) && Patchable(from, to, cs)
    ensures |from.items| <= SIZE_RANGE
    ensures forall i | 0 <= i < |from.items| :: Height(from.items[i]) < Height(from) && Sound(from.items[i], cs)
    ensures forall i | 0 <= i < |to.items| :: Target(to.items[i], cs)
    ensures forall i | 0 <= i < |from.items| && i < |to.items| :: Patchable(from.items[i], to.items[i], cs)
  {
    ChildHeight(from);
    ChildHeight(to);
  }

  lemma SameArrayMeaning(a: seq<Json>, b: seq<Json>, cs: bool)
    requires SameMeanings(a, b, cs)
    ensures Meaning(Array(a), cs) == Meaning(Array(b), cs)
    ensures Sound(Array(a), cs)
  {
    assert Meaning(Array(a), cs).items == Meaning(Array(b), cs).items;
  }

  lemma ReplacedWorks(from: Json, to: Json, cs: bool)
    requires Target(to, cs)
    requires Diff("", from, to, cs) == [Edit(REPLACE, "", Some(to))]
    ensures Works(from, to, cs)
  {
    OneEdit(from, Edit(REPLACE, "", Some(to)), cs);
  }

  lemma {:induction false} DiffWorks(from: Json, to: Json, cs: bool)
    requires Sound(from, cs) && Target(to, cs) && Patchable(from, to, cs)
    ensures Works(from, to, cs)
    decreases Height(from), 2, 0
  {
    if Replaced(from, to) {
      DiffShape(from, to, cs);
      ReplacedWorks(from, to, cs);
    } else if from.Array? {
      ArrayWorks(from, to, cs);
    } else if from.Object? {
      ObjectWorks(from, to, cs);
    } else if from.Number? {
      CompareDoubleExact(from.d, to.d);
    }
  }

  lemma {:induction false} ObjectWorks(from: Json, to: Json, cs: bool)
    requires from.Object? && to.Object? && Sound(from, cs) && Target(to, cs) && Patchable(from, to, cs)
    ensures Works(from, to, cs)
    decreases Height(from), 1, 0
  {
    hide SortMembers, Meaning, Walkable, AllHold, Patchable, Height;
    var f, t := SortMembers(from.members, cs), SortMembers(to.members, cs);
    SortedHeights(from, cs);
    SortedWalkable(from, to, cs);
    var out := MembersWork(from.members, f, t, cs, Height(from));
    WholeWalk(from.members, to.members, out, cs);
    assert Diff("", from, to, cs) == DiffMembers("", f, t, cs, Height(from));
    hide Diff;
    UniqueObject(out, cs);
    WholeWorks(from, to, Object(out), cs);
  }

  lemma UniqueObject(ms: seq<Member>, cs: bool)
    requires DistinctKeys(ms, cs) && AllSound(ms, cs)
    ensures Sound(Object(ms), cs)
  {
  }

  lemma WholeWorks(from: Json, to: Json, out: Json, cs: bool)
    requires Runs(from, Diff("", from, to, cs), out, cs) && Meaning(out, cs) == Meaning(to, cs) && Sound(out, cs)
    ensures Works(from, to, cs)
  {
    hide Diff, Meaning, Sound;
  }

  lemma WholeWalk(ms: seq<Member>, to: seq<Member>, out: seq<Member>, cs: bool)
    requires DistinctKeys(ms, cs) && DistinctKeys(to, cs)
    requires Walked(ms, out, SortMembers(ms, cs), SortMembers(to, cs), cs)
    ensures Meaning(Object(out), cs) == Meaning(Object(to), cs)
  {
    var f := SortMembers(ms, cs);
    SortedFacts(ms, cs);
    SortedFacts(to, cs);
    MeaningKeys(ms, cs);
    MeaningKeys(f, cs);
    AllRemoved(Meanings(ms, cs), Meanings(to, cs));
    SameMeaning(out, to, cs);
  }

  lemma MeaningKeys(ms: seq<Member>, cs: bool)
    ensures Meanings(ms, cs).Keys == Keys(ms, cs)
  {
  }

  lemma SameMeaning(a: seq<Member>, b: seq<Member>, cs: bool)
    requires Meanings(a, cs) == Meanings(b, cs)
    ensures Meaning(Object(a), cs) == Meaning(Object(b), cs)
  {
  }

  lemma AllRemoved(m: map<string, Doc>, t: map<string, Doc>)
    ensures (m - m.Keys) + t == t
  {
  }

  lemma SameKeys(s: seq<Member>, ms: seq<Member>, cs: bool)
    requires forall m :: m in s <==> m in ms
    ensures Keys(s, cs) == Keys(ms, cs)
  {
  }

  /** Looking a key up in the sorted object finds the same value. */
  lemma SortedField(ms: seq<Member>, key: string, cs: bool)
    requires DistinctKeys(ms, cs)
    ensures Field(Object(SortMembers(ms, cs)), key, cs) == Field(Object(ms), key, cs)
  {
    var s, fk := SortMembers(ms, cs), Fold(key, cs);
    SortedFacts(ms, cs);
    hide SortMembers, Fold, StrictlyBefore, DistinctKeys;
    KeysFirst(ms, fk, cs);
    KeysFirst(s, fk, cs);
    SameKeys(s, ms, cs);
    hide Keys;
    if fk in Keys(ms, cs) {
      var i, j := First(ms, fk, cs), First(s, fk, cs);
      assert s[j] in s && s[j] in ms;
      OneByKey(ms, i, s[j], cs);
    }
  }

  lemma OneByKey(ms: seq<Member>, i: nat, m: Member, cs: bool)
    requires DistinctKeys(ms, cs) && i < |ms| && m in ms && Fold(m.key, cs) == Fold(ms[i].key, cs)
    ensures m == ms[i]
  {
    var p :| 0 <= p < |ms| && ms[p] == m;
  }

  lemma SortedWalkable(from: Json, to: Json, cs: bool)
    requires from.Object? && to.Object? && Sound(from, cs) && Target(to, cs) && Patchable(from, to, cs)
    ensures AllHold(from.members, SortMembers(from.members, cs), SortMembers(to.members, cs), cs)
    ensures Walkable(SortMembers(from.members, cs), SortMembers(to.members, cs), cs, Height(from))
  {
    hide Field, SortMembers, Replaced, Decodable, Detachable;
    var f, t := SortMembers(from.members, cs), SortMembers(to.members, cs);
    SortedFacts(from.members, cs);
    SortedFacts(to.members, cs);
    forall i | 0 <= i < |f|
      ensures Height(f[i].value) < Height(from) && FromFits(f[i], t, cs) && Holds(from.members, f[i], cs)
      ensures Detached(f[i], Object(t), cs) ==> Detachable(from.members, f[i])
    {
      assert f[i] in from.members;
      SourceMember(from, to, f[i], cs);
      SortedField(to.members, f[i].key, cs);
    }
    forall i | 0 <= i < |t| ensures ToFits(t[i], f, cs) {
      assert t[i] in to.members;
      TargetMember(from, to, t[i], cs);
      SortedField(from.members, t[i].key, cs);
    }
  }

  lemma SourceMember(from: Json, to: Json, m: Member, cs: bool)
    requires from.Object? && to.Object? && Sound(from, cs) && Patchable(from, to, cs) && m in from.members
    ensures Height(m.value) < Height(from) && Sound(m.value, cs) && Holds(from.members, m, cs)
    ensures Detached(m, to, cs) ==> Detachable(from.members, m)
    ensures !Detached(m, to, cs) ==> Patchable(m.value, Field(to, m.key, cs).value, cs)
  {
    hide Replaced, Decodable, Field, Detachable, Height;
    ChildHeight(from);
    var p :| 0 <= p < |from.members| && from.members[p] == m;
    FirstDistinct(from.members, p, cs);
  }

  lemma TargetMember(from: Json, to: Json, n: Member, cs: bool)
    requires from.Object? && to.Object? && Target(to, cs) && Patchable(from, to, cs) && n in to.members
    ensures Target(n.value, cs) && (Field(from, n.key, cs).None? ==> Decodable(n.key))
  {
    hide Replaced, Decodable, Field, Detached;
    ChildHeight(to);
    var p :| 0 <= p < |to.members| && to.members[p] == n;
  }

  /**
   * JSON Patch round trip: the patches generated from `from` to `to`, applied to a copy of `from`,
   * all succeed and give a document that cJSON_Compare finds equal to `to`.
   */
  lemma PatchRoundTrips(from: Json, to: Json, cs: bool)
    requires Sound(from, cs) && Target(to, cs) && Patchable(from, to, cs)
    ensures var (status, result) := ApplyPatches(from, Array(ToPatches(Diff("", from, to, cs))), cs);
      status == 0 && Meaning(result, cs) == Meaning(to, cs) && Compare(result, to, cs)
  {
    DiffWorks(from, to, cs);
    hide Diff, Meaning, Compare, Patchable;
    ApplyComposedAll(from, Diff("", from, to, cs), cs);
    CompareDecidesMeaning(Result(from, to, cs), to, cs);
  }

  // ---- two trees whose keys are all plain ----

  /** Every key decodes in place, and elements have indices. */
  ghost predicate KeysDecodable(j: Json) {
    match j
    case Array(items) => |items| <= SIZE_RANGE && forall i | 0 <= i < |items| :: KeysDecodable(items[i])
    case Object(ms) => forall i | 0 <= i < |ms| :: Decodable(ms[i].key) && KeysDecodable(ms[i].value)
    case _ => true
  }

  /** With keys that all decode, and none that differ only in case, any document can be patched into any other. */
  lemma {:induction false} PlainKeysPatchable(from: Json, to: Json, cs: bool)
    requires Unique(from, false) && KeysDecodable(from) && KeysDecodable(to)
    ensures Patchable(from, to, cs)
    decreases from
  {
    if from.Array? && to.Array? {
      forall i | 0 <= i < |from.items| && i < |to.items| ensures Patchable(from.items[i], to.items[i], cs) {
        PlainKeysPatchable(from.items[i], to.items[i], cs);
      }
    } else if from.Object? && to.Object? {
      forall i | 0 <= i < |from.members|
        ensures Detachable(from.members, from.members[i])
        ensures !Detached(from.members[i], to, cs) ==>
          Patchable(from.members[i].value, Field(to, from.members[i].key, cs).value, cs)
      {
        FirstDistinct(from.members, i, false);
        if !Detached(from.members[i], to, cs) {
          PlainKeysPatchable(from.members[i].value, Field(to, from.members[i].key, cs).value, cs);
        }
      }
    }
  }
}
