/** generate_merge_patch, and the round trip through merge_patch. */
module MergeGen {
  import opened Text
  import opened JsonTree
  import opened SortedMembers
  import opened TreeCompare
  import opened CompareInPlace
  import opened MemberLists
  import opened MergeApply
  import Rfc = Rfc7396

  /** What cJSON_AddItemToObject adds: nothing for a null pointer. */
  function Added(key: string, item: Option<Json>): seq<Member> {
    if item.None? then [] else [Member(key, item.value)]
  }

  /** generate_merge_patch; None is a null pointer. */
  function Generate(from: Option<Json>, to: Option<Json>, cs: bool): Option<Json>
    decreases if to.Some? then Height(to.value) else 0, 1, 0
  {
    if to.None? then Some(Null)
    else if !to.value.Object? || from.None? || !from.value.Object? then Duplicate(to.value)
    else
      SortedHeights(to.value, cs);
      var ps := GenerateMembers(SortMembers(from.value.members, cs), SortMembers(to.value.members, cs),
          cs, Height(to.value));
      if ps == [] then None else Some(Object(ps))
  }

  /**
   * The walk over two sorted member lists: it orders them by strcmp, and nested patches ignore case and start from the
   * values as compare_json has left them.
   */
  function GenerateMembers(f: seq<Member>, t: seq<Member>, cs: bool, ghost h: nat): seq<Member>
    requires forall i | 0 <= i < |t| :: Height(t[i].value) < h
    decreases h, 0, |f| + |t|
  {
    if f == [] && t == [] then []
    else
      var diff := if f == [] then 1 else if t == [] then -1 else CompareStrings(f[0].key, t[0].key, true);
      if diff < 0 then Added(f[0].key, Some(Null)) + GenerateMembers(f[1..], t, cs, h)
      else if diff > 0 then Added(t[0].key, Duplicate(t[0].value)) + GenerateMembers(f, t[1..], cs, h)
      else if CompareJson(f[0].value, t[0].value, cs) then GenerateMembers(f[1..], t[1..], cs, h)
      else
        var v, w := Left(f[0].value, t[0].value, cs), Left(t[0].value, f[0].value, cs);
        LeftSame(t[0].value, f[0].value, cs, true);
        Added(t[0].key, Generate(Some(v), Some(w), false)) + GenerateMembers(f[1..], t[1..], cs, h)
  }

  // ---- what is left of the first tree: the generator and compare_json sort the objects that they compare ----

  function Walked(a: Json, b: Json, cs: bool): Json
    decreases Height(a), 1, 0
  {
    if !a.Object? || !b.Object? then a
    else
      SortedHeights(a, cs);
      Object(WalkedMembers(SortMembers(a.members, cs), SortMembers(b.members, cs), cs, Height(a)))
  }

  function WalkedMembers(x: seq<Member>, y: seq<Member>, cs: bool, ghost h: nat): seq<Member>
    requires forall i | 0 <= i < |x| :: Height(x[i].value) < h
    decreases h, 0, |x| + |y|
  {
    if x == [] || y == [] then x
    else
      var diff := CompareStrings(x[0].key, y[0].key, true);
      if diff == 0 then
        LeftSame(x[0].value, y[0].value, cs, true);
        [Member(x[0].key, WalkedValue(x[0].value, y[0].value, cs, h))] + WalkedMembers(x[1..], y[1..], cs, h)
      else if diff < 0 then [x[0]] + WalkedMembers(x[1..], y, cs, h)
      else WalkedMembers(x, y[1..], cs, h)
  }

  /** Two values with one name: compared, and when they differ walked again ignoring case. */
  function WalkedValue(v: Json, w: Json, cs: bool, ghost h: nat): Json
    requires Height(v) < h
    decreases h, 0, 0
  {
    LeftSame(v, w, cs, true);
    var v', w' := Left(v, w, cs), Left(w, v, cs);
    if CompareJson(v, w, cs) then v' else Walked(v', w', false)
  }

  /** The generator leaves a tree that is as high and means the same. */
  lemma {:induction false} WalkedSame(a: Json, b: Json, cs: bool, mode: bool)
    ensures SameValue(a, Walked(a, b, cs), mode)
    decreases Height(a), 1, 0
  {
    if a.Object? && b.Object? {
      SortedHeights(a, cs);
      var x, y := SortMembers(a.members, cs), SortMembers(b.members, cs);
      WalkedMembersSame(x, y, cs, mode, Height(a));
      SortedSame(a.members, cs, mode);
      SameObject(x, WalkedMembers(x, y, cs, Height(a)), mode);
    }
  }

  lemma {:induction false} WalkedMembersSame(x: seq<Member>, y: seq<Member>, cs: bool, mode: bool, h: nat)
    requires forall i | 0 <= i < |x| :: Height(x[i].value) < h
    ensures SamePairs(x, WalkedMembers(x, y, cs, h), mode)
    decreases h, 0, |x| + |y|
  {
    hide WalkedValue, Height, Unique, Plain, Meaning, CompareStrings;
    if x != [] && y != [] {
      var diff := CompareStrings(x[0].key, y[0].key, true);
      if diff == 0 {
        WalkedValueSame(x[0].value, y[0].value, cs, mode, h);
        WalkedMembersSame(x[1..], y[1..], cs, mode, h);
      } else if diff < 0 {
        WalkedMembersSame(x[1..], y, cs, mode, h);
      } else {
        WalkedMembersSame(x, y[1..], cs, mode, h);
      }
    }
  }

  lemma {:induction false} WalkedValueSame(v: Json, w: Json, cs: bool, mode: bool, h: nat)
    requires Height(v) < h
    ensures SameValue(v, WalkedValue(v, w, cs, h), mode)
    decreases h, 0, 0
  {
    hide Left, Walked, CompareJson, Height, Unique, Plain, Meaning;
    LeftSame(v, w, cs, mode);
    if !CompareJson(v, w, cs) {
      WalkedSame(Left(v, w, cs), Left(w, v, cs), false, mode);
    }
  }

  /** The loop of generate_merge_patch, appending to the patch, and the two trees as it leaves them. */
  method GenerateLoop(from: Option<Json>, to: Option<Json>, cs: bool)
    returns (r: Option<Json>, from': Option<Json>, to': Option<Json>)
    ensures r == Generate(from, to, cs)
    ensures from' == if from.Some? && to.Some? then Some(Walked(from.value, to.value, cs)) else from
    ensures to' == if from.Some? && to.Some? then Some(Walked(to.value, from.value, cs)) else to
    decreases if to.Some? then Height(to.value) else 0, 1
  {
    hide GenerateMembers, WalkedMembers, Height;
    if to.None? {
      return Some(Null), from, to;
    }
    if !to.value.Object? || from.None? || !from.value.Object? {
      return Duplicate(to.value), from, to;
    }
    SortedHeights(from.value, cs);
    SortedHeights(to.value, cs);
    var patch, x, y := GenerateWalk(SortMembers(from.value.members, cs), SortMembers(to.value.members, cs), cs,
      Height(from.value), Height(to.value));
    r, from', to' := if patch == [] then None else Some(Object(patch)), Some(Object(x)), Some(Object(y));
  }

  method GenerateWalk(fs: seq<Member>, ts: seq<Member>, cs: bool, ghost k: nat, ghost h: nat)
    returns (patch: seq<Member>, x: seq<Member>, y: seq<Member>)
    requires forall i | 0 <= i < |fs| :: Height(fs[i].value) < k
    requires forall i | 0 <= i < |ts| :: Height(ts[i].value) < h
    ensures patch == GenerateMembers(fs, ts, cs, h)
    ensures x == WalkedMembers(fs, ts, cs, k) && y == WalkedMembers(ts, fs, cs, h)
    decreases h, 0, 2
  {
    hide *;
    var f, t := fs, ts;
    patch, x, y := [], [], [];
    while f != [] || t != []
      invariant forall i | 0 <= i < |f| :: Height(f[i].value) < k
      invariant forall i | 0 <= i < |t| :: Height(t[i].value) < h
      invariant patch + GenerateMembers(f, t, cs, h) == GenerateMembers(fs, ts, cs, h)
      invariant x + WalkedMembers(f, t, cs, k) == WalkedMembers(fs, ts, cs, k)
      invariant y + WalkedMembers(t, f, cs, h) == WalkedMembers(ts, fs, cs, h)
      decreases |f| + |t|
    {
      var item, v, w;
      item, v, w, f, t := GenerateStep(f, t, cs, k, h);
      Reassociate(patch, item, GenerateMembers(f, t, cs, h));
      Reassociate(x, v, WalkedMembers(f, t, cs, k));
      Reassociate(y, w, WalkedMembers(t, f, cs, h));
      patch, x, y := patch + item, x + v, y + w;
    }
    WalkDone(cs, k, h);
    assert patch + [] == patch && x + [] == x && y + [] == y;
  }

  lemma WalkDone(cs: bool, k: nat, h: nat)
    ensures GenerateMembers([], [], cs, h) == []
    ensures WalkedMembers([], [], cs, k) == [] && WalkedMembers([], [], cs, h) == []
  {
  }

  /** One turn of that loop: what it adds to the patch, the members left of the heads, and the lists still to walk. */
  method GenerateStep(f: seq<Member>, t: seq<Member>, cs: bool, ghost k: nat, ghost h: nat)
    returns (item: seq<Member>, x: seq<Member>, y: seq<Member>, f': seq<Member>, t': seq<Member>)
    requires f != [] || t != []
    requires forall i | 0 <= i < |f| :: Height(f[i].value) < k
    requires forall i | 0 <= i < |t| :: Height(t[i].value) < h
    ensures |f'| + |t'| < |f| + |t|
    ensures forall i | 0 <= i < |f'| :: Height(f'[i].value) < k
    ensures forall i | 0 <= i < |t'| :: Height(t'[i].value) < h
    ensures GenerateMembers(f, t, cs, h) == item + GenerateMembers(f', t', cs, h)
    ensures WalkedMembers(f, t, cs, k) == x + WalkedMembers(f', t', cs, k)
    ensures WalkedMembers(t, f, cs, h) == y + WalkedMembers(t', f', cs, h)
    decreases h, 0, 1
  {
    GenerateTurn(f, t, cs, h);
    WalkedTurn(f, t, cs, k);
    WalkedTurn(t, f, cs, h);
    hide *;
    item, x, y, f', t' := [], [], [], f, t;
    var diff := 1;
    if f != [] {
      diff := -1;
      if t != [] {
        diff := CompareStringsLoop(f[0].key, t[0].key, true);
      }
    }
    if diff < 0 {
      item, x, f' := [Member(f[0].key, Null)], [f[0]], f[1..];
    } else if diff > 0 {
      item, y, t' := Added(t[0].key, Duplicate(t[0].value)), [t[0]], t[1..];
    } else {
      var inner, v, w := GenerateForValues(f[0].value, t[0].value, cs, k, h);
      if inner.Some? {
        item := Added(t[0].key, inner.value);
      }
      x, y, f', t' := [Member(f[0].key, v)], [Member(t[0].key, w)], f[1..], t[1..];
    }
  }

  /** Two values with one name: compared, and only when they differ a patch between them, ignoring case. */
  method GenerateForValues(v: Json, w: Json, cs: bool, ghost k: nat, ghost h: nat)
    returns (inner: Option<Option<Json>>, v': Json, w': Json)
    requires Height(v) < k && Height(w) < h
    ensures inner == if CompareJson(v, w, cs) then None
      else Some(Generate(Some(Left(v, w, cs)), Some(Left(w, v, cs)), false))
    ensures v' == WalkedValue(v, w, cs, k) && w' == WalkedValue(w, v, cs, h)
    decreases h, 0, 0
  {
    hide Left, Walked, CompareJson, Height, Generate;
    CompareJsonSymmetric(v, w, cs);
    LeftSame(w, v, cs, true);
    var same;
    same, v', w' := CompareJsonLoop(v, w, cs);
    if same {
      return None, v', w';
    }
    var r, a, b := GenerateLoop(Some(v'), Some(w'), false);
    return Some(r), a.value, b.value;
  }

  lemma GenerateTurn(f: seq<Member>, t: seq<Member>, cs: bool, h: nat)
    requires f != [] || t != []
    requires forall i | 0 <= i < |t| :: Height(t[i].value) < h
    ensures var diff := if f == [] then 1 else if t == [] then -1 else CompareStrings(f[0].key, t[0].key, true);
      var all := GenerateMembers(f, t, cs, h);
      && (diff < 0 ==> all == [Member(f[0].key, Null)] + GenerateMembers(f[1..], t, cs, h))
      && (diff > 0 ==> all == Added(t[0].key, Duplicate(t[0].value)) + GenerateMembers(f, t[1..], cs, h))
      && (diff == 0 && CompareJson(f[0].value, t[0].value, cs) ==>
        all == [] + GenerateMembers(f[1..], t[1..], cs, h))
      && (diff == 0 && !CompareJson(f[0].value, t[0].value, cs) ==>
        var v, w := Left(f[0].value, t[0].value, cs), Left(t[0].value, f[0].value, cs);
        all == Added(t[0].key, Generate(Some(v), Some(w), false)) + GenerateMembers(f[1..], t[1..], cs, h))
  {
    hide Left, CompareJson, Height, Generate, Duplicate, CompareStrings;
  }

  /** One turn of the walk, as it looks from the one list and from the other. */
  lemma WalkedTurn(x: seq<Member>, y: seq<Member>, cs: bool, h: nat)
    requires forall i | 0 <= i < |x| :: Height(x[i].value) < h
    ensures x != [] && (y == [] || CompareStrings(x[0].key, y[0].key, true) < 0) ==>
      WalkedMembers(x, y, cs, h) == [x[0]] + WalkedMembers(x[1..], y, cs, h)
    ensures y != [] && (x == [] || CompareStrings(x[0].key, y[0].key, true) > 0) ==>
      WalkedMembers(x, y, cs, h) == [] + WalkedMembers(x, y[1..], cs, h)
    ensures x != [] && y != [] && CompareStrings(x[0].key, y[0].key, true) == 0 ==>
      WalkedMembers(x, y, cs, h)
        == [Member(x[0].key, WalkedValue(x[0].value, y[0].value, cs, h))] + WalkedMembers(x[1..], y[1..], cs, h)
    ensures x != [] && y != [] ==>
      && (CompareStrings(x[0].key, y[0].key, true) < 0 <==> CompareStrings(y[0].key, x[0].key, true) > 0)
      && (CompareStrings(x[0].key, y[0].key, true) == 0 <==> CompareStrings(y[0].key, x[0].key, true) == 0)
  {
    hide WalkedValue, Height, CompareStrings;
    if x != [] && y != [] {
      OrderFlips(x[0].key, y[0].key, true);
    }
    if x != [] && y == [] {
      assert WalkedMembers(x[1..], y, cs, h) == x[1..];
    }
  }

  lemma Reassociate<T>(a: seq<T>, b: seq<T>, c: seq<T>)
    ensures (a + b) + c == a + (b + c)
  {
  }

  // ---- the key domain ----

  /** strcmp orders the two keys as the sort does in the case mode. */
  predicate SameOrder(p: string, q: string, cs: bool) {
    && (CompareStrings(p, q, true) < 0 <==> CompareStrings(p, q, cs) < 0)
    && (CompareStrings(p, q, true) == 0 <==> CompareStrings(p, q, cs) == 0)
  }

  /**
   * Where the generator's two orders agree. It sorts in the case mode and walks by strcmp, so each key of one object
   * must stand to each key of the other in the same order both ways. Nested objects are walked ignoring case, as
   * compare_json leaves them, so what they compare must not depend on the mode in which the patch will be merged.
   */
  ghost predicate Agree(from: Json, to: Json, cs: bool, mode: bool)
    decreases Height(from), 1
  {
    ChildHeight(from);
    from.Object? && to.Object? ==>
      && DistinctKeys(from.members, cs) && DistinctKeys(to.members, cs)
      && forall i, j | 0 <= i < |from.members| && 0 <= j < |to.members| ::
           PairAgrees(from.members[i], to.members[j], cs, mode)
  }

  ghost predicate PairAgrees(m: Member, n: Member, cs: bool, mode: bool)
    decreases Height(m.value), 2
  {
    LeftSame(m.value, n.value, cs, true);
    && SameOrder(m.key, n.key, cs)
    && (m.key == n.key ==>
      && (CompareJson(m.value, n.value, cs) <==> CompareJson(m.value, n.value, mode))
      && (!CompareJson(m.value, n.value, mode) ==>
        Agree(Left(m.value, n.value, cs), Left(n.value, m.value, cs), false, mode)))
  }

  /** The documents between which a patch, generated in one mode and merged in another, says what it should. */
  ghost predicate Fits(from: Json, to: Json, cs: bool, mode: bool) {
    && (cs ==> mode) && Sound(from, mode) && Sound(to, mode)
    && Height(to) <= CJSON_CIRCULAR_LIMIT && Agree(from, to, cs, mode)
  }

  lemma FinerFold(a: string, b: string, cs: bool, mode: bool)
    requires (cs ==> mode) && Fold(a, cs) != Fold(b, cs)
    ensures Fold(a, mode) != Fold(b, mode)
  {
  }

  /** Keys that are told apart in one mode are told apart case-sensitively too. */
  lemma FinerDistinct(ms: seq<Member>, cs: bool, mode: bool)
    requires (cs ==> mode) && DistinctKeys(ms, cs)
    ensures DistinctKeys(ms, mode)
  {
    forall i, j | 0 <= i < j < |ms| ensures Fold(ms[i].key, mode) != Fold(ms[j].key, mode) {
      FinerFold(ms[i].key, ms[j].key, cs, mode);
    }
  }

  lemma FinerAbsent(key: string, ms: seq<Member>, cs: bool, mode: bool)
    requires (cs ==> mode) && Fold(key, cs) !in Keys(ms, cs)
    ensures Fold(key, mode) !in Keys(ms, mode)
  {
    forall m | m in ms ensures Fold(m.key, mode) != Fold(key, mode) {
      assert Fold(m.key, cs) in Keys(ms, cs);
      FinerFold(m.key, key, cs, mode);
    }
  }

  // ---- what the walk has said so far ----

  /** out is a merge patch from the members f to the members t. */
  ghost predicate Says(out: seq<Member>, f: seq<Member>, t: seq<Member>, mode: bool) {
    && DistinctKeys(out, mode) && UniqueValues(out, mode) && AllCopyable(out)
    && Keys(out, mode) <= Keys(f, mode) + Keys(t, mode)
    && Meanings(out, mode) == Rfc.DiffMaps(Meanings(f, mode), Meanings(t, mode))
  }

  lemma ConsFacts(x: Member, ms: seq<Member>, cs: bool)
    requires DistinctKeys(ms, cs) && Fold(x.key, cs) !in Keys(ms, cs)
    ensures DistinctKeys([x] + ms, cs)
    ensures Keys([x] + ms, cs) == Keys(ms, cs) + {Fold(x.key, cs)}
    ensures Meanings([x] + ms, cs) == Meanings(ms, cs)[Fold(x.key, cs) := Meaning(x.value, cs)]
  {
    var r := [x] + ms;
    assert r[1..] == ms && r[0] == x;
    forall i | 0 <= i < |ms| ensures Fold(ms[i].key, cs) != Fold(x.key, cs) {
      assert ms[i] in ms;
    }
    assert DistinctKeys(r, cs);
    TailFacts(r, cs);
  }

  lemma ConsCopyable(x: Member, ms: seq<Member>, mode: bool)
    requires UniqueValues(ms, mode) && AllCopyable(ms)
    requires Unique(x.value, mode) && (x.value.Null? || Copyable(x.value))
    ensures UniqueValues([x] + ms, mode) && AllCopyable([x] + ms)
  {
  }

  /** One more member in front of the patch. */
  lemma SaysCons(x: Member, rest: seq<Member>, f': seq<Member>, t': seq<Member>, f: seq<Member>, t: seq<Member>,
        mode: bool)
    requires Says(rest, f', t', mode) && Unique(x.value, mode) && (x.value.Null? || Copyable(x.value))
    requires Keys(f', mode) <= Keys(f, mode) && Keys(t', mode) <= Keys(t, mode)
    requires Fold(x.key, mode) in Keys(f, mode) + Keys(t, mode) && Fold(x.key, mode) !in Keys(f', mode) + Keys(t', mode)
    requires Rfc.DiffMaps(Meanings(f, mode), Meanings(t, mode))
          == Rfc.DiffMaps(Meanings(f', mode), Meanings(t', mode))[Fold(x.key, mode) := Meaning(x.value, mode)]
    ensures Says([x] + rest, f, t, mode)
  {
    hide Meanings, Meaning, Keys, Fold, Unique, Copyable, AllCopyable, UniqueValues, Rfc.DiffMaps;
    ConsFacts(x, rest, mode);
    ConsCopyable(x, rest, mode);
  }

  /** Head and tail of a member list, as maps and as keys. */
  lemma HeadOff(ms: seq<Member>, cs: bool)
    requires ms != [] && DistinctKeys(ms, cs)
    ensures var k := Fold(ms[0].key, cs);
      && k in Keys(ms, cs) && Keys(ms[1..], cs) == Keys(ms, cs) - {k} && k !in Meanings(ms[1..], cs)
      && Meanings(ms, cs) == Meanings(ms[1..], cs)[k := Meaning(ms[0].value, cs)]
  {
    TailFacts(ms, cs);
    MeaningsKeys(ms[1..], cs);
  }

  lemma SaysRemove(f: seq<Member>, t: seq<Member>, rest: seq<Member>, mode: bool)
    requires f != [] && DistinctKeys(f, mode) && Fold(f[0].key, mode) !in Keys(t, mode)
    requires Says(rest, f[1..], t, mode)
    ensures Says([Member(f[0].key, Null)] + rest, f, t, mode)
  {
    hide Meanings, Keys, Fold, Copyable, AllCopyable, UniqueValues, Rfc.DiffMaps, DistinctKeys, Says;
    HeadOff(f, mode);
    MeaningsKeys(t, mode);
    Rfc.DiffRemove(Meanings(f[1..], mode), Meanings(t, mode), Fold(f[0].key, mode), Meaning(f[0].value, mode));
    SaysCons(Member(f[0].key, Null), rest, f[1..], t, f, t, mode);
  }

  lemma SaysAdd(f: seq<Member>, t: seq<Member>, rest: seq<Member>, mode: bool)
    requires t != [] && DistinctKeys(t, mode) && Fold(t[0].key, mode) !in Keys(f, mode)
    requires Unique(t[0].value, mode) && Copyable(t[0].value)
    requires Says(rest, f, t[1..], mode)
    ensures Says([t[0]] + rest, f, t, mode)
  {
    hide Meanings, Meaning, Keys, Fold, Unique, Copyable, AllCopyable, UniqueValues, Rfc.DiffMaps, DistinctKeys, Says;
    HeadOff(t, mode);
    MeaningsKeys(f, mode);
    Rfc.DiffAdd(Meanings(f, mode), Meanings(t[1..], mode), Fold(t[0].key, mode), Meaning(t[0].value, mode));
    SaysCons(t[0], rest, f, t[1..], f, t, mode);
  }

  lemma SaysSame(f: seq<Member>, t: seq<Member>, rest: seq<Member>, mode: bool)
    requires f != [] && t != [] && DistinctKeys(f, mode) && DistinctKeys(t, mode)
    requires Fold(f[0].key, mode) == Fold(t[0].key, mode) && Meaning(f[0].value, mode) == Meaning(t[0].value, mode)
    requires Says(rest, f[1..], t[1..], mode)
    ensures Says(rest, f, t, mode)
  {
    hide Meanings, Meaning, Keys, Fold, Copyable, AllCopyable, UniqueValues, Rfc.DiffMaps, DistinctKeys;
    HeadOff(f, mode);
    HeadOff(t, mode);
    Rfc.DiffSame(Meanings(f[1..], mode), Meanings(t[1..], mode), Fold(t[0].key, mode), Meaning(t[0].value, mode));
  }

  lemma SaysChange(f: seq<Member>, t: seq<Member>, v: Json, rest: seq<Member>, mode: bool)
    requires f != [] && t != [] && DistinctKeys(f, mode) && DistinctKeys(t, mode)
    requires Fold(f[0].key, mode) == Fold(t[0].key, mode) && Meaning(f[0].value, mode) != Meaning(t[0].value, mode)
    requires Unique(v, mode) && Copyable(v)
    requires Meaning(v, mode) == Rfc.DiffPatch(Meaning(f[0].value, mode), Meaning(t[0].value, mode))
    requires Says(rest, f[1..], t[1..], mode)
    ensures Says([Member(t[0].key, v)] + rest, f, t, mode)
  {
    hide Meanings, Meaning, Keys, Fold, Unique, Copyable, AllCopyable, UniqueValues, Rfc.DiffMaps, Rfc.DiffPatch,
      DistinctKeys, Says;
    HeadOff(f, mode);
    HeadOff(t, mode);
    Rfc.DiffChange(Meanings(f[1..], mode), Meanings(t[1..], mode), Fold(t[0].key, mode),
      Meaning(f[0].value, mode), Meaning(t[0].value, mode));
    SaysCons(Member(t[0].key, v), rest, f[1..], t[1..], f, t, mode);
  }

  // ---- the generated patch is the least one ----

  ghost predicate ListSound(ms: seq<Member>, cs: bool, mode: bool) {
    StrictlyBefore(ms, cs) && DistinctKeys(ms, cs) && forall m | m in ms :: Sound(m.value, mode)
  }

  /** What the walk needs to know about the two sorted lists. */
  ghost predicate Walkable(f: seq<Member>, t: seq<Member>, cs: bool, mode: bool, h: nat) {
    && (cs ==> mode) && h <= CJSON_CIRCULAR_LIMIT
    && ListSound(f, cs, mode) && ListSound(t, cs, mode)
    && (forall i | 0 <= i < |t| :: Height(t[i].value) < h)
    && (forall m, n | m in f && n in t :: PairAgrees(m, n, cs, mode))
  }

  /** Where strcmp puts the two heads. */
  lemma HeadOrder(f: seq<Member>, t: seq<Member>, cs: bool, mode: bool, h: nat)
    requires Walkable(f, t, cs, mode, h) && f != [] && t != []
    ensures var c := CompareStrings(f[0].key, t[0].key, true);
      && (c < 0 ==> Fold(f[0].key, mode) !in Keys(t, mode))
      && (c > 0 ==> Fold(t[0].key, mode) !in Keys(f, mode))
      && (c == 0 ==> f[0].key == t[0].key)
  {
    var c := CompareStrings(f[0].key, t[0].key, true);
    assert f[0] in f && t[0] in t && PairAgrees(f[0], t[0], cs, mode);
    CompareStringsOrder(f[0].key, t[0].key, true);
    CompareStringsOrder(f[0].key, t[0].key, cs);
    if c < 0 {
      BeforeHead(Fold(f[0].key, cs), t, cs);
      FinerAbsent(f[0].key, t, cs, mode);
    } else if c > 0 {
      BeforeHead(Fold(t[0].key, cs), f, cs);
      FinerAbsent(t[0].key, f, cs, mode);
    }
  }

  lemma SoundTail(ms: seq<Member>, cs: bool, mode: bool)
    requires ms != [] && ListSound(ms, cs, mode)
    ensures ListSound(ms[1..], cs, mode) && Sound(ms[0].value, mode)
  {
    hide Sound;
    TailSorted(ms, cs);
  }

  lemma WalkTails(f: seq<Member>, t: seq<Member>, cs: bool, mode: bool, h: nat)
    requires Walkable(f, t, cs, mode, h)
    ensures f != [] ==> Walkable(f[1..], t, cs, mode, h)
    ensures t != [] ==> Walkable(f, t[1..], cs, mode, h)
    ensures f != [] && t != [] ==> Walkable(f[1..], t[1..], cs, mode, h)
  {
    hide ListSound, PairAgrees;
    if f != [] {
      SoundTail(f, cs, mode);
    }
    if t != [] {
      SoundTail(t, cs, mode);
    }
  }

  lemma {:induction false} GenerateMembersSays(f: seq<Member>, t: seq<Member>, cs: bool, mode: bool, h: nat)
    returns (out: seq<Member>)
    requires Walkable(f, t, cs, mode, h)
    ensures out == GenerateMembers(f, t, cs, h) && Says(out, f, t, mode)
    decreases h, 0, |f| + |t|
  {
    hide PairAgrees, Says, Sound, Fold, Keys, StrictlyBefore;
    WalkTails(f, t, cs, mode, h);
    if f == [] && t == [] {
      out := [];
      SaysNothing(mode);
    } else if t == [] || (f != [] && CompareStrings(f[0].key, t[0].key, true) < 0) {
      if t != [] {
        HeadOrder(f, t, cs, mode, h);
      }
      FinerDistinct(f, cs, mode);
      NoKeys(mode);
      var rest := GenerateMembersSays(f[1..], t, cs, mode, h);
      SaysRemove(f, t, rest, mode);
      out := [Member(f[0].key, Null)] + rest;
    } else if f == [] || CompareStrings(f[0].key, t[0].key, true) > 0 {
      if f != [] {
        HeadOrder(f, t, cs, mode, h);
      }
      FinerDistinct(t, cs, mode);
      NoKeys(mode);
      var rest := GenerateMembersSays(f, t[1..], cs, mode, h);
      AddedValue(t, cs, mode, h);
      SaysAdd(f, t, rest, mode);
      out := [t[0]] + rest;
    } else {
      HeadOrder(f, t, cs, mode, h);
      out := GenerateBoth(f, t, cs, mode, h);
    }
  }

  lemma SaysNothing(mode: bool)
    ensures Says([], [], [], mode)
  {
    assert Meanings([], mode) == map[];
    Rfc.DiffEmpty(map[], map[]);
  }

  lemma NoKeys(mode: bool)
    ensures Keys([], mode) == {}
  {
  }

  /** A value the patch takes over as it is. */
  lemma AddedValue(t: seq<Member>, cs: bool, mode: bool, h: nat)
    requires t != [] && ListSound(t, cs, mode) && Height(t[0].value) < h <= CJSON_CIRCULAR_LIMIT
    ensures Duplicate(t[0].value) == Some(t[0].value) && Unique(t[0].value, mode) && Copyable(t[0].value)
  {
    SoundTail(t, cs, mode);
    LowCopyable(t[0].value);
    DuplicateRecExact(t[0].value, 0);
  }

  /** A turn of the walk on two members with one name. */
  lemma {:induction false} GenerateBoth(f: seq<Member>, t: seq<Member>, cs: bool, mode: bool, h: nat)
    returns (out: seq<Member>)
    requires Walkable(f, t, cs, mode, h) && f != [] && t != [] && f[0].key == t[0].key
    requires CompareStrings(f[0].key, t[0].key, true) == 0
    ensures out == GenerateMembers(f, t, cs, h) && Says(out, f, t, mode)
    decreases h, 0, |f| + |t|, 0
  {
    hide Says, Fold, Keys, StrictlyBefore, SameOrder, CompareJson;
    WalkTails(f, t, cs, mode, h);
    FinerDistinct(f, cs, mode);
    FinerDistinct(t, cs, mode);
    var v, w := f[0].value, t[0].value;
    assert f[0] in f && t[0] in t && PairAgrees(f[0], t[0], cs, mode);
    CompareJsonDecidesMeaning(v, w, mode);
    var rest := GenerateMembersSays(f[1..], t[1..], cs, mode, h);
    if CompareJson(v, w, cs) {
      SaysSame(f, t, rest, mode);
      out := rest;
    } else {
      LeftSame(v, w, cs, mode);
      LeftSame(w, v, cs, mode);
      var p := GenerateMeaning(Left(v, w, cs), Left(w, v, cs), false, mode);
      SaysChange(f, t, p.value, rest, mode);
      out := [Member(t[0].key, p.value)] + rest;
    }
  }

  /**
   * generate_merge_patch: no patch exactly for two equal objects; otherwise the patch names
   * exactly what was removed, added or changed.
   */
  lemma {:induction false} GenerateMeaning(from: Json, to: Json, cs: bool, mode: bool) returns (p: Option<Json>)
    requires Fits(from, to, cs, mode)
    ensures p == Generate(Some(from), Some(to), cs)
    ensures p.None? <==> from.Object? && to.Object? && Meaning(from, mode) == Meaning(to, mode)
    ensures p.Some? ==> Unique(p.value, mode) && Copyable(p.value)
    ensures p.Some? ==> Meaning(p.value, mode) == Rfc.DiffPatch(Meaning(from, mode), Meaning(to, mode))
    decreases Height(to), 2, 0
  {
    if from.Object? && to.Object? {
      hide Meaning, Rfc.DiffPatch, Agree, Unique, Copyable;
      var out := GenerateObject(from, to, cs, mode);
      SaidObject(from, to, out, mode);
      p := if out == [] then None else Some(Object(out));
    } else {
      DuplicateRecExact(to, 0);
      LowCopyable(to);
      OtherPatch(from, to, mode);
      p := Some(to);
    }
  }

  lemma OtherPatch(from: Json, to: Json, mode: bool)
    requires !from.Object? || !to.Object?
    ensures Rfc.DiffPatch(Meaning(from, mode), Meaning(to, mode)) == Meaning(to, mode)
  {
    ObjectKind(from, mode);
    ObjectKind(to, mode);
    hide Meaning;
  }

  lemma ObjectKind(j: Json, mode: bool)
    ensures Meaning(j, mode).DObject? <==> j.Object?
  {
  }

  lemma {:induction false} GenerateObject(from: Json, to: Json, cs: bool, mode: bool) returns (out: seq<Member>)
    requires from.Object? && to.Object? && Fits(from, to, cs, mode)
    ensures Generate(Some(from), Some(to), cs) == if out == [] then None else Some(Object(out))
    ensures DistinctKeys(out, mode) && UniqueValues(out, mode) && AllCopyable(out)
    ensures Meanings(out, mode) == Rfc.DiffMaps(Meanings(from.members, mode), Meanings(to.members, mode))
    decreases Height(to), 1, 0
  {
    hide SortMembers, Meanings, Walkable, Fits, Generate, GenerateMembers, DistinctKeys, UniqueValues, Rfc.DiffMaps;
    hide Height;
    SortedHeights(to, cs);
    SortedWalkable(from, to, cs, mode);
    FitsKeys(from, to, cs, mode);
    SortedMeanings(from.members, cs, mode);
    SortedMeanings(to.members, cs, mode);
    GeneratedFrom(from, to, cs);
    out := GenerateMembersSays(SortMembers(from.members, cs), SortMembers(to.members, cs), cs, mode, Height(to));
  }

  lemma FitsKeys(from: Json, to: Json, cs: bool, mode: bool)
    requires from.Object? && to.Object? && Fits(from, to, cs, mode)
    ensures (cs ==> mode) && DistinctKeys(from.members, cs) && DistinctKeys(to.members, cs)
  {
  }

  /** The patch between two objects is what the walk over their sorted members finds, or none. */
  lemma GeneratedFrom(from: Json, to: Json, cs: bool)
    requires from.Object? && to.Object?
    requires forall i | 0 <= i < |SortMembers(to.members, cs)| ::
      Height(SortMembers(to.members, cs)[i].value) < Height(to)
    ensures var ps := GenerateMembers(SortMembers(from.members, cs), SortMembers(to.members, cs), cs, Height(to));
      Generate(Some(from), Some(to), cs) == if ps == [] then None else Some(Object(ps))
  {
    hide GenerateMembers, SortMembers, Height;
  }

  /** Sorting in one mode keeps the meaning in the other. */
  lemma SortedMeanings(ms: seq<Member>, cs: bool, mode: bool)
    requires (cs ==> mode) && DistinctKeys(ms, cs)
    ensures Meanings(SortMembers(ms, cs), mode) == Meanings(ms, mode)
  {
    SortedFacts(ms, cs);
    FinerDistinct(ms, cs, mode);
    FinerDistinct(SortMembers(ms, cs), cs, mode);
    SameMembersMeaning(ms, SortMembers(ms, cs), mode);
  }

  lemma SaidObject(from: Json, to: Json, out: seq<Member>, mode: bool)
    requires from.Object? && to.Object? && DistinctKeys(out, mode) && UniqueValues(out, mode) && AllCopyable(out)
    requires Meanings(out, mode) == Rfc.DiffMaps(Meanings(from.members, mode), Meanings(to.members, mode))
    ensures out == [] <==> Meaning(from, mode) == Meaning(to, mode)
    ensures Unique(Object(out), mode) && Copyable(Object(out))
    ensures Meaning(Object(out), mode) == Rfc.DiffPatch(Meaning(from, mode), Meaning(to, mode))
  {
    hide *;
    Rfc.DiffEmpty(Meanings(from.members, mode), Meanings(to.members, mode));
    ObjectMeanings(from, to, mode);
    EmptyMeanings(out, mode);
    PatchObject(out, mode);
  }

  lemma PatchObject(out: seq<Member>, mode: bool)
    requires DistinctKeys(out, mode) && UniqueValues(out, mode) && AllCopyable(out)
    ensures Unique(Object(out), mode) && Copyable(Object(out))
  {
    UniqueMembers(out, mode);
  }

  lemma ObjectMeanings(a: Json, b: Json, mode: bool)
    requires a.Object? && b.Object?
    ensures Meaning(a, mode) == DObject(Meanings(a.members, mode))
    ensures Meaning(a, mode) == Meaning(b, mode) <==> Meanings(a.members, mode) == Meanings(b.members, mode)
    ensures Rfc.DiffPatch(Meaning(a, mode), Meaning(b, mode))
      == DObject(Rfc.DiffMaps(Meanings(a.members, mode), Meanings(b.members, mode)))
  {
  }

  lemma EmptyMeanings(out: seq<Member>, mode: bool)
    requires DistinctKeys(out, mode)
    ensures out == [] <==> Meanings(out, mode) == map[]
    ensures Meaning(Object(out), mode) == DObject(Meanings(out, mode))
  {
    MeaningsKeys(out, mode);
    if out != [] {
      MeaningAt(out, 0, mode);
    }
  }

  lemma SortedWalkable(from: Json, to: Json, cs: bool, mode: bool)
    requires from.Object? && to.Object? && Fits(from, to, cs, mode)
    ensures Walkable(SortMembers(from.members, cs), SortMembers(to.members, cs), cs, mode, Height(to))
  {
    hide PairAgrees, SortMembers, ListSound, Sound;
    var f, t := SortMembers(from.members, cs), SortMembers(to.members, cs);
    SortedListSound(from.members, cs, mode);
    SortedListSound(to.members, cs, mode);
    SortedHeights(to, cs);
    forall m, n | m in f && n in t ensures PairAgrees(m, n, cs, mode) {
      var i :| 0 <= i < |from.members| && from.members[i] == m;
      var j :| 0 <= j < |to.members| && to.members[j] == n;
    }
  }

  lemma SortedListSound(ms: seq<Member>, cs: bool, mode: bool)
    requires DistinctKeys(ms, cs)
    ensures Sound(Object(ms), mode) ==> ListSound(SortMembers(ms, cs), cs, mode)
    ensures forall m :: m in SortMembers(ms, cs) <==> m in ms
  {
    SortedFacts(ms, cs);
    if Sound(Object(ms), mode) {
      forall m | m in ms ensures Sound(m.value, mode) {
        var i :| 0 <= i < |ms| && ms[i] == m;
      }
    }
  }

  // ---- the round trip ----

  /**
   * Merge-patch round trip. No patch is returned exactly for objects that compare_json finds equal.
   * Otherwise merging the patch into a copy of `from` gives `to` exactly when no null member was
   * added or changed to; in particular whenever `to` has no null member. Merging no patch loses the target.
   */
  lemma MergeRoundTrips(from: Json, to: Json, cs: bool)
    requires Fits(from, to, cs, cs)
    ensures var patch := Generate(Some(from), Some(to), cs);
      && (patch.None? <==> from.Object? && to.Object? && CompareJson(from, to, cs))
      && (patch.None? ==> MergePatchUtil(Some(from), patch, cs) == None)
      && (patch.Some? ==>
        var result := MergePatchUtil(Some(from), patch, cs);
        && result.Some?
        && (Meaning(result.value, cs) == Meaning(to, cs) <==> Rfc.Expressible(Meaning(from, cs), Meaning(to, cs)))
        && (Rfc.NullFree(Meaning(to, cs)) ==> Meaning(result.value, cs) == Meaning(to, cs)))
  {
    var patch := GenerateMeaning(from, to, cs, cs);
    CompareJsonDecidesMeaning(from, to, cs);
    if patch.Some? {
      var result := MergedRfc(Some(from), patch.value, cs);
      Rfc.DiffThenMerge(Meaning(from, cs), Meaning(to, cs));
      if Rfc.NullFree(Meaning(to, cs)) {
        Rfc.NullFreeExpressible(Meaning(from, cs), Meaning(to, cs));
      }
    }
  }

  // ---- keys without upper-case letters ----

  /** No upper-case letter in any key. */
  ghost predicate Lower(j: Json) {
    match j
    case Array(items) => forall i | 0 <= i < |items| :: Lower(items[i])
    case Object(ms) => forall i | 0 <= i < |ms| :: NoUpper(ms[i].key) && Lower(ms[i].value)
    case _ => true
  }

  lemma LowerFirst(ms: seq<Member>, fk: string, cs: bool)
    requires forall i | 0 <= i < |ms| :: NoUpper(ms[i].key)
    ensures First(ms, fk, cs) == First(ms, fk, false)
    ensures Keys(ms, cs) == Keys(ms, false)
  {
    forall i | 0 <= i < |ms| ensures Fold(ms[i].key, cs) == ms[i].key == Fold(ms[i].key, false) {
      NoUpperFold(ms[i].key, cs);
      NoUpperFold(ms[i].key, false);
    }
    FirstIs(ms, fk, cs, First(ms, fk, false));
    forall m | m in ms ensures Fold(m.key, cs) == Fold(m.key, false) {
      var i :| 0 <= i < |ms| && ms[i] == m;
    }
  }

  /** Without upper-case letters both modes see the same meaning. */
  lemma {:induction false} LowerMeaning(j: Json, cs: bool)
    requires Lower(j)
    ensures Meaning(j, cs) == Meaning(j, false)
  {
    match j
    case Array(items) =>
      forall i | 0 <= i < |items| ensures Meaning(items[i], cs) == Meaning(items[i], false) {
        LowerMeaning(items[i], cs);
      }
      assert Meaning(j, cs).items == Meaning(j, false).items;
    case Object(ms) =>
      forall i | 0 <= i < |ms| ensures Meaning(ms[i].value, cs) == Meaning(ms[i].value, false) {
        LowerMeaning(ms[i].value, cs);
      }
      LowerMeanings(ms, cs);
    case _ =>
  }

  lemma LowerMeanings(ms: seq<Member>, cs: bool)
    requires forall i | 0 <= i < |ms| :: NoUpper(ms[i].key) && Meaning(ms[i].value, cs) == Meaning(ms[i].value, false)
    ensures Meaning(Object(ms), cs) == Meaning(Object(ms), false)
  {
    hide *;
    var a, b := Meanings(ms, cs), Meanings(ms, false);
    MeaningsKeys(ms, cs);
    MeaningsKeys(ms, false);
    LowerFirst(ms, "", cs);
    forall fk | fk in a ensures a[fk] == b[fk] {
      LowerFirst(ms, fk, cs);
      FirstMeaning(ms, fk, cs);
      FirstMeaning(ms, fk, false);
    }
    assert a == b;
    ObjectsMean(ms, cs, false);
  }

  lemma FirstMeaning(ms: seq<Member>, fk: string, cs: bool)
    requires fk in Meanings(ms, cs)
    ensures First(ms, fk, cs) < |ms| && Meanings(ms, cs)[fk] == Meaning(ms[First(ms, fk, cs)].value, cs)
  {
    KeysFirst(ms, fk, cs);
  }

  lemma ObjectsMean(ms: seq<Member>, cs: bool, mode: bool)
    requires Meanings(ms, cs) == Meanings(ms, mode)
    ensures Meaning(Object(ms), cs) == Meaning(Object(ms), mode)
  {
  }

  lemma FoldedNoUpper(s: string)
    ensures Fold(s, false) == s <==> NoUpper(s)
  {
    if Fold(s, false) == s {
      forall i | 0 <= i < |s| ensures !('A' <= s[i] <= 'Z') {
        assert ToLower(s[i]) == Fold(s, false)[i];
      }
    }
  }

  /** Objects at the top with keys that compare as they are spelled, and no upper-case letters below. */
  ghost predicate LowerBelow(j: Json, cs: bool) {
    && Sound(j, cs)
    && (j.Object? ==> forall i | 0 <= i < |j.members| ::
         Fold(j.members[i].key, cs) == j.members[i].key && LowerValue(j.members[i].value))
  }

  ghost predicate LowerValue(v: Json) { Lower(v) && Unique(v, false) && Plain(v) }

  lemma SpelledOrder(p: string, q: string, cs: bool)
    requires Fold(p, cs) == p && Fold(q, cs) == q
    ensures SameOrder(p, q, cs)
  {
    CompareStringsOrder(p, q, true);
    CompareStringsOrder(p, q, cs);
  }

  lemma {:induction false} LowerAgrees(v: Json, w: Json, mode: bool)
    requires LowerValue(v) && LowerValue(w)
    ensures Agree(v, w, false, mode)
    decreases Height(v), 1
  {
    ChildHeight(v);
    if v.Object? && w.Object? {
      forall i, j | 0 <= i < |v.members| && 0 <= j < |w.members|
        ensures PairAgrees(v.members[i], w.members[j], false, mode)
      {
        FoldedNoUpper(v.members[i].key);
        FoldedNoUpper(w.members[j].key);
        LowerPair(v.members[i], w.members[j], false, mode);
      }
    }
  }

  lemma {:induction false} LowerPair(m: Member, n: Member, cs: bool, mode: bool)
    requires (cs ==> mode) && LowerValue(m.value) && LowerValue(n.value)
    requires Fold(m.key, cs) == m.key && Fold(n.key, cs) == n.key
    ensures PairAgrees(m, n, cs, mode)
    decreases Height(m.value), 2
  {
    SpelledOrder(m.key, n.key, cs);
    LowerCompare(m.value, n.value, cs, mode);
    LeftLower(m.value, n.value, cs);
    LeftLower(n.value, m.value, cs);
    LowerAgrees(Left(m.value, n.value, cs), Left(n.value, m.value, cs), mode);
  }

  /** Nor has what compare_json leaves. */
  lemma LeftLower(a: Json, b: Json, cs: bool)
    requires LowerValue(a)
    ensures LowerValue(Left(a, b, cs)) && Height(Left(a, b, cs)) == Height(a)
  {
    hide Lower, Left, Unique, Plain, Height;
    LeftSame(a, b, cs, false);
    LeftKeys(a, b, cs);
  }

  lemma {:induction false} LeftKeys(a: Json, b: Json, cs: bool)
    requires Lower(a)
    ensures Lower(Left(a, b, cs))
    decreases Height(a), 1, 0
  {
    ChildHeight(a);
    if SameKind(a, b) && a.Array? {
      LeftItemKeys(a.items, b.items, cs, Height(a));
    } else if SameKind(a, b) && a.Object? {
      SortedHeights(a, cs);
      var x := SortMembers(a.members, cs);
      SortedMembersOf(a.members, cs);
      assert LowerAll(x) by {
        forall i | 0 <= i < |x| ensures NoUpper(x[i].key) && Lower(x[i].value) {
          assert x[i] in a.members;
        }
      }
      LeftMemberKeys(x, SortMembers(b.members, cs), cs, Height(a));
    }
  }

  ghost predicate LowerAll(ms: seq<Member>) {
    forall i | 0 <= i < |ms| :: NoUpper(ms[i].key) && Lower(ms[i].value)
  }

  lemma LowerHead(ms: seq<Member>)
    requires ms != []
    ensures LowerAll(ms) <==> NoUpper(ms[0].key) && Lower(ms[0].value) && LowerAll(ms[1..])
  {
    hide NoUpper, Lower;
    assert ms == [ms[0]] + ms[1..];
  }

  lemma {:induction false} LeftItemKeys(x: seq<Json>, y: seq<Json>, cs: bool, h: nat)
    requires forall i | 0 <= i < |x| :: Height(x[i]) < h && Lower(x[i])
    ensures forall i | 0 <= i < |LeftItems(x, y, cs, h)| :: Lower(LeftItems(x, y, cs, h)[i])
    decreases h, 0, |x|
  {
    hide Left, CompareJson, Height, Lower;
    if x != [] && y != [] {
      LeftKeys(x[0], y[0], cs);
      LeftItemKeys(x[1..], y[1..], cs, h);
    }
  }

  lemma {:induction false} LeftMemberKeys(x: seq<Member>, y: seq<Member>, cs: bool, h: nat)
    requires LowerAll(x) && forall i | 0 <= i < |x| :: Height(x[i].value) < h
    ensures LowerAll(LeftMembers(x, y, cs, h))
    decreases h, 0, |x|
  {
    hide Left, CompareJson, Height, Lower, CompareStrings, NoUpper, LowerAll;
    if x != [] && y != [] && CompareStrings(x[0].key, y[0].key, cs) == 0 {
      LowerHead(x);
      LeftKeys(x[0].value, y[0].value, cs);
      LeftMemberKeys(x[1..], y[1..], cs, h);
      var r := LeftMembers(x, y, cs, h);
      assert r[1..] == if CompareJson(x[0].value, y[0].value, cs) then LeftMembers(x[1..], y[1..], cs, h) else x[1..];
      LowerHead(r);
    }
  }

  lemma LowerCompare(v: Json, w: Json, cs: bool, mode: bool)
    requires LowerValue(v) && LowerValue(w)
    ensures CompareJson(v, w, cs) <==> CompareJson(v, w, mode)
  {
    hide CompareJson, Meaning, Lower;
    forall x: Json, y: bool | x == v || x == w ensures Unique(x, y) && Meaning(x, y) == Meaning(x, false) {
      UniqueCoarser(x, y);
      LowerMeaning(x, y);
    }
    CompareJsonDecidesMeaning(v, w, cs);
    CompareJsonDecidesMeaning(v, w, mode);
  }

  /** In particular the round trip holds between documents without upper-case letters in their keys. */
  lemma LowerFits(from: Json, to: Json, cs: bool)
    requires LowerBelow(from, cs) && LowerBelow(to, cs) && Height(to) <= CJSON_CIRCULAR_LIMIT
    ensures Fits(from, to, cs, cs)
  {
    if from.Object? && to.Object? {
      forall i, j | 0 <= i < |from.members| && 0 <= j < |to.members|
        ensures PairAgrees(from.members[i], to.members[j], cs, cs)
      {
        LowerPair(from.members[i], to.members[j], cs, cs);
      }
    }
  }
}
