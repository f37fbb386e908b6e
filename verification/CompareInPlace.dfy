/** compare_json as it runs: it sorts the objects that it compares, and leaves them sorted. */
module CompareInPlace {
  import opened Text
  import opened JsonTree
  import opened SortList
  import opened SortedMembers
  import opened TreeCompare

  // ---- what is left of the first tree ----

  /** The first tree afterwards: the objects that the walks came to are sorted, up to where they stopped. */
  function Left(a: Json, b: Json, cs: bool): Json
    decreases Height(a), 1, 0
  {
    ChildHeight(a);
    if !SameKind(a, b) then a
    else
      match a
      case Array(items) => Array(LeftItems(items, b.items, cs, Height(a)))
      case Object(ms) =>
        SortedHeights(a, cs);
        Object(LeftMembers(SortMembers(ms, cs), SortMembers(b.members, cs), cs, Height(a)))
      case _ => a
  }

  function LeftItems(x: seq<Json>, y: seq<Json>, cs: bool, ghost h: nat): seq<Json>
    requires forall i | 0 <= i < |x| :: Height(x[i]) < h
    decreases h, 0, |x|
  {
    if x == [] || y == [] then x
    else [Left(x[0], y[0], cs)] + if CompareJson(x[0], y[0], cs) then LeftItems(x[1..], y[1..], cs, h) else x[1..]
  }

  function LeftMembers(x: seq<Member>, y: seq<Member>, cs: bool, ghost h: nat): seq<Member>
    requires forall i | 0 <= i < |x| :: Height(x[i].value) < h
    decreases h, 0, |x|
  {
    if x == [] || y == [] || CompareStrings(x[0].key, y[0].key, cs) != 0 then x
    else
      [Member(x[0].key, Left(x[0].value, y[0].value, cs))]
      + if CompareJson(x[0].value, y[0].value, cs) then LeftMembers(x[1..], y[1..], cs, h) else x[1..]
  }

  /** The first n elements are there on both sides and agree. */
  ghost predicate ItemsAgree(x: seq<Json>, y: seq<Json>, n: nat, cs: bool) {
    n <= |x| && n <= |y| && forall k | 0 <= k < n :: CompareJson(x[k], y[k], cs)
  }

  ghost predicate MembersAgree(x: seq<Member>, y: seq<Member>, n: nat, cs: bool) {
    && n <= |x| && n <= |y|
    && forall k | 0 <= k < n :: CompareStrings(x[k].key, y[k].key, cs) == 0 && CompareJson(x[k].value, y[k].value, cs)
  }

  lemma ItemsAgreeTail(x: seq<Json>, y: seq<Json>, n: nat, cs: bool)
    requires n > 0 && x != [] && y != []
    ensures ItemsAgree(x, y, n, cs) <==> CompareJson(x[0], y[0], cs) && ItemsAgree(x[1..], y[1..], n - 1, cs)
  {
    hide CompareJson;
    if CompareJson(x[0], y[0], cs) && ItemsAgree(x[1..], y[1..], n - 1, cs) {
      forall k | 0 <= k < n ensures CompareJson(x[k], y[k], cs) {
        assert k > 0 ==> x[k] == x[1..][k - 1] && y[k] == y[1..][k - 1];
      }
    }
    if ItemsAgree(x, y, n, cs) {
      forall k | 0 <= k < n - 1 ensures CompareJson(x[1..][k], y[1..][k], cs) {
        assert x[1..][k] == x[k + 1] && y[1..][k] == y[k + 1];
      }
    }
  }

  lemma MembersAgreeTail(x: seq<Member>, y: seq<Member>, n: nat, cs: bool)
    requires n > 0 && x != [] && y != []
    ensures MembersAgree(x, y, n, cs)
      <==> CompareStrings(x[0].key, y[0].key, cs) == 0 && CompareJson(x[0].value, y[0].value, cs)
           && MembersAgree(x[1..], y[1..], n - 1, cs)
  {
    hide CompareJson, CompareStrings;
    if CompareStrings(x[0].key, y[0].key, cs) == 0 && CompareJson(x[0].value, y[0].value, cs)
      && MembersAgree(x[1..], y[1..], n - 1, cs) {
      forall k | 0 <= k < n
        ensures CompareStrings(x[k].key, y[k].key, cs) == 0 && CompareJson(x[k].value, y[k].value, cs)
      {
        assert k > 0 ==> x[k] == x[1..][k - 1] && y[k] == y[1..][k - 1];
      }
    }
    if MembersAgree(x, y, n, cs) {
      forall k | 0 <= k < n - 1
        ensures CompareStrings(x[1..][k].key, y[1..][k].key, cs) == 0
        ensures CompareJson(x[1..][k].value, y[1..][k].value, cs)
      {
        assert x[1..][k] == x[k + 1] && y[1..][k] == y[k + 1];
      }
    }
  }

  /** Elements up to the first that differs are left as their comparison leaves them, the rest as they were. */
  lemma {:induction false} ItemLeft(x: seq<Json>, y: seq<Json>, i: nat, cs: bool, h: nat)
    requires i < |x| && forall k | 0 <= k < |x| :: Height(x[k]) < h
    ensures |LeftItems(x, y, cs, h)| == |x|
    ensures LeftItems(x, y, cs, h)[i] == if i < |y| && ItemsAgree(x, y, i, cs) then Left(x[i], y[i], cs) else x[i]
    decreases |x|
  {
    assert ItemsAgree(x, y, 0, cs);
    hide Left, CompareJson, Height, ItemsAgree;
    if y != [] && i > 0 {
      ItemsAgreeTail(x, y, i, cs);
      if CompareJson(x[0], y[0], cs) {
        ItemLeft(x[1..], y[1..], i - 1, cs, h);
      }
    } else if y != [] && |x| > 1 {
      ItemLeft(x[1..], y[1..], 0, cs, h);
    }
  }

  /** The same for sorted members; a value is looked at only under a common name. */
  lemma {:induction false} MemberLeft(x: seq<Member>, y: seq<Member>, i: nat, cs: bool, h: nat)
    requires i < |x| && forall k | 0 <= k < |x| :: Height(x[k].value) < h
    ensures |LeftMembers(x, y, cs, h)| == |x|
    ensures LeftMembers(x, y, cs, h)[i]
      == if i < |y| && CompareStrings(x[i].key, y[i].key, cs) == 0 && MembersAgree(x, y, i, cs)
         then Member(x[i].key, Left(x[i].value, y[i].value, cs))
         else x[i]
    decreases |x|
  {
    assert MembersAgree(x, y, 0, cs);
    hide Left, CompareJson, Height, CompareStrings, MembersAgree;
    if y != [] && i > 0 {
      MembersAgreeTail(x, y, i, cs);
      if CompareStrings(x[0].key, y[0].key, cs) == 0 && CompareJson(x[0].value, y[0].value, cs) {
        MemberLeft(x[1..], y[1..], i - 1, cs, h);
      }
    } else if y != [] && |x| > 1 {
      MemberLeft(x[1..], y[1..], 0, cs, h);
    }
  }

  // ---- the comparison is symmetric, so the second tree is left in the same way ----

  /** On all trees, equal in one order is equal in the other. */
  lemma {:induction false} CompareJsonSymmetric(a: Json, b: Json, cs: bool)
    ensures CompareJson(a, b, cs) == CompareJson(b, a, cs)
    decreases Height(a), 1
  {
    ChildHeight(a);
    if !SameKind(a, b) {
    } else if a.Array? {
      if |a.items| == |b.items| {
        forall i | 0 <= i < |a.items|
          ensures CompareJson(a.items[i], b.items[i], cs) == CompareJson(b.items[i], a.items[i], cs)
        {
          CompareJsonSymmetric(a.items[i], b.items[i], cs);
        }
      }
    } else if a.Object? {
      SortedHeights(a, cs);
      SortedHeights(b, cs);
      PairsSymmetric(SortMembers(a.members, cs), SortMembers(b.members, cs), cs, Height(a), Height(b));
    }
  }

  lemma {:induction false} PairsSymmetric(x: seq<Member>, y: seq<Member>, cs: bool, h: nat, k: nat)
    requires forall i | 0 <= i < |x| :: Height(x[i].value) < h
    requires forall i | 0 <= i < |y| :: Height(y[i].value) < k
    ensures PairsEqual(x, y, cs, h) == PairsEqual(y, x, cs, k)
    decreases h, 0
  {
    if |x| == |y| {
      forall i | 0 <= i < |x|
        ensures CompareJson(x[i].value, y[i].value, cs) == CompareJson(y[i].value, x[i].value, cs)
        ensures CompareStrings(x[i].key, y[i].key, cs) == 0 <==> CompareStrings(y[i].key, x[i].key, cs) == 0
      {
        CompareJsonSymmetric(x[i].value, y[i].value, cs);
        OrderFlips(x[i].key, y[i].key, cs);
      }
    }
  }

  lemma OrderFlips(p: string, q: string, cs: bool)
    ensures CompareStrings(p, q, cs) < 0 <==> CompareStrings(q, p, cs) > 0
    ensures CompareStrings(p, q, cs) == 0 <==> CompareStrings(q, p, cs) == 0
  {
    CompareStringsOrder(p, q, cs);
    CompareStringsOrder(q, p, cs);
    BeforeTrichotomy(Fold(p, cs), Fold(q, cs));
  }

  // ---- the walks ----

  /** The walks of compare_json over elements and sorted members, and the two trees as they leave them. */
  method CompareJsonLoop(a: Json, b: Json, cs: bool) returns (r: bool, a': Json, b': Json)
    ensures r == CompareJson(a, b, cs)
    ensures a' == Left(a, b, cs) && b' == Left(b, a, cs)
    decreases Height(a), 1
  {
    hide LeftItems, LeftMembers, PairsEqual, Height;
    a', b' := a, b;
    ChildHeight(a);
    ChildHeight(b);
    if !SameKind(a, b) {
      r := false;
    } else if a.Number? {
      r := ValueInt(a.d) == ValueInt(b.d) && CompareDouble(a.d, b.d);
    } else if a.String? {
      r := a.s == b.s;
    } else if a.Array? {
      var x, y;
      r, x, y := ItemsLoop(a.items, b.items, cs, Height(a), Height(b));
      a', b' := Array(x), Array(y);
    } else if a.Object? {
      SortedHeights(a, cs);
      SortedHeights(b, cs);
      var x, y;
      r, x, y := PairsLoop(SortMembers(a.members, cs), SortMembers(b.members, cs), cs, Height(a), Height(b));
      a', b' := Object(x), Object(y);
    } else {
      r := true;
    }
  }

  method ItemsLoop(x: seq<Json>, y: seq<Json>, cs: bool, ghost h: nat, ghost k: nat)
    returns (r: bool, x': seq<Json>, y': seq<Json>)
    requires forall i | 0 <= i < |x| :: Height(x[i]) < h
    requires forall i | 0 <= i < |y| :: Height(y[i]) < k
    ensures r <==> |x| == |y| && forall i | 0 <= i < |x| :: CompareJson(x[i], y[i], cs)
    ensures x' == LeftItems(x, y, cs, h) && y' == LeftItems(y, x, cs, k)
    decreases h, 0
  {
    hide LeftItems, Left, CompareJson, Height;
    x', y' := [], [];
    var i := 0;
    while i < |x| && i < |y|
      invariant i <= |x| && i <= |y|
      invariant forall j | 0 <= j < i :: CompareJson(x[j], y[j], cs)
      invariant x' + LeftItems(x[i..], y[i..], cs, h) == LeftItems(x, y, cs, h)
      invariant y' + LeftItems(y[i..], x[i..], cs, k) == LeftItems(y, x, cs, k)
    {
      ItemsTurn(x', x, y, i, cs, h);
      ItemsTurn(y', y, x, i, cs, k);
      CompareJsonSymmetric(x[i], y[i], cs);
      var same, v, w := CompareJsonLoop(x[i], y[i], cs);
      x', y' := x' + [v], y' + [w];
      i := i + 1;
      if !same {
        return false, x' + x[i..], y' + y[i..];
      }
    }
    ItemsEnd(x, y, i, cs, h);
    ItemsEnd(y, x, i, cs, k);
    return i == |x| == |y|, x' + x[i..], y' + y[i..];
  }

  lemma ItemsTurn(done: seq<Json>, x: seq<Json>, y: seq<Json>, i: nat, cs: bool, h: nat)
    requires forall j | 0 <= j < |x| :: Height(x[j]) < h
    requires i < |x| && i < |y|
    ensures done + LeftItems(x[i..], y[i..], cs, h) == (done + [Left(x[i], y[i], cs)])
      + if CompareJson(x[i], y[i], cs) then LeftItems(x[i + 1..], y[i + 1..], cs, h) else x[i + 1..]
  {
    hide Left, CompareJson, Height;
    assert x[i..][1..] == x[i + 1..] && y[i..][1..] == y[i + 1..];
  }

  lemma ItemsEnd(x: seq<Json>, y: seq<Json>, i: nat, cs: bool, h: nat)
    requires forall j | 0 <= j < |x| :: Height(x[j]) < h
    requires i <= |x| && i <= |y| && (i == |x| || i == |y|)
    ensures LeftItems(x[i..], y[i..], cs, h) == x[i..]
  {
  }

  method PairsLoop(x: seq<Member>, y: seq<Member>, cs: bool, ghost h: nat, ghost k: nat)
    returns (r: bool, x': seq<Member>, y': seq<Member>)
    requires forall i | 0 <= i < |x| :: Height(x[i].value) < h
    requires forall i | 0 <= i < |y| :: Height(y[i].value) < k
    ensures r == PairsEqual(x, y, cs, h)
    ensures x' == LeftMembers(x, y, cs, h) && y' == LeftMembers(y, x, cs, k)
    decreases h, 0
  {
    hide *;
    x', y' := [], [];
    var i := 0;
    assert x[0..] == x && y[0..] == y;
    while i < |x| && i < |y|
      invariant i <= |x| && i <= |y|
      invariant PairsEqual(x[i..], y[i..], cs, h) == PairsEqual(x, y, cs, h)
      invariant x' + LeftMembers(x[i..], y[i..], cs, h) == LeftMembers(x, y, cs, h)
      invariant y' + LeftMembers(y[i..], x[i..], cs, k) == LeftMembers(y, x, cs, k)
    {
      PairTurn(x, y, i, cs, h);
      PairsTurn(x', x, y, i, cs, h);
      PairsTurn(y', y, x, i, cs, k);
      CompareJsonSymmetric(x[i].value, y[i].value, cs);
      OrderFlips(x[i].key, y[i].key, cs);
      var c := CompareStringsLoop(x[i].key, y[i].key, cs);
      if c != 0 {
        return false, x' + x[i..], y' + y[i..];
      }
      var same, v, w := CompareJsonLoop(x[i].value, y[i].value, cs);
      x', y' := x' + [Member(x[i].key, v)], y' + [Member(y[i].key, w)];
      i := i + 1;
      if !same {
        return false, x' + x[i..], y' + y[i..];
      }
    }
    PairsEnd(x, y, i, cs, h);
    PairsEnd(y, x, i, cs, k);
    return i == |x| == |y|, x' + x[i..], y' + y[i..];
  }

  lemma PairTurn(x: seq<Member>, y: seq<Member>, i: nat, cs: bool, h: nat)
    requires forall j | 0 <= j < |x| :: Height(x[j].value) < h
    requires i < |x| && i < |y|
    ensures PairsEqual(x[i..], y[i..], cs, h) <==>
      && CompareStrings(x[i].key, y[i].key, cs) == 0 && CompareJson(x[i].value, y[i].value, cs)
      && PairsEqual(x[i + 1..], y[i + 1..], cs, h)
  {
    hide CompareJson, Height, CompareStrings;
    var a, b := x[i..], y[i..];
    assert x[i + 1..] == a[1..] && y[i + 1..] == b[1..] && a[0] == x[i] && b[0] == y[i];
    if PairsEqual(x[i + 1..], y[i + 1..], cs, h) {
      assert forall j | 1 <= j < |a| :: a[j] == a[1..][j - 1] && b[j] == b[1..][j - 1];
    }
    if PairsEqual(a, b, cs, h) {
      assert forall j | 0 <= j < |a| - 1 :: a[1..][j] == a[j + 1] && b[1..][j] == b[j + 1];
    }
  }

  lemma PairsTurn(done: seq<Member>, x: seq<Member>, y: seq<Member>, i: nat, cs: bool, h: nat)
    requires forall j | 0 <= j < |x| :: Height(x[j].value) < h
    requires i < |x| && i < |y|
    ensures CompareStrings(x[i].key, y[i].key, cs) != 0 ==>
      done + LeftMembers(x[i..], y[i..], cs, h) == done + x[i..]
    ensures CompareStrings(x[i].key, y[i].key, cs) == 0 ==>
      var rest := if CompareJson(x[i].value, y[i].value, cs) then LeftMembers(x[i + 1..], y[i + 1..], cs, h)
        else x[i + 1..];
      done + LeftMembers(x[i..], y[i..], cs, h)
        == (done + [Member(x[i].key, Left(x[i].value, y[i].value, cs))]) + rest
  {
    hide *;
    HeadAndTail(x, i);
    HeadAndTail(y, i);
    HeadsLeft(x[i..], y[i..], cs, h);
    if CompareStrings(x[i].key, y[i].key, cs) == 0 {
      var rest := if CompareJson(x[i].value, y[i].value, cs) then LeftMembers(x[i + 1..], y[i + 1..], cs, h)
        else x[i + 1..];
      Regroup(done, [Member(x[i].key, Left(x[i].value, y[i].value, cs))], rest);
    }
  }

  lemma HeadAndTail(x: seq<Member>, i: nat)
    requires i < |x|
    ensures x[i..] != [] && x[i..][0] == x[i] && x[i..][1..] == x[i + 1..]
  {
  }

  lemma Regroup(a: seq<Member>, b: seq<Member>, c: seq<Member>)
    ensures a + (b + c) == (a + b) + c
  {
  }

  lemma HeadsLeft(x: seq<Member>, y: seq<Member>, cs: bool, h: nat)
    requires x != [] && y != [] && forall j | 0 <= j < |x| :: Height(x[j].value) < h
    ensures CompareStrings(x[0].key, y[0].key, cs) != 0 ==> LeftMembers(x, y, cs, h) == x
    ensures CompareStrings(x[0].key, y[0].key, cs) == 0 ==>
      var rest := if CompareJson(x[0].value, y[0].value, cs) then LeftMembers(x[1..], y[1..], cs, h) else x[1..];
      LeftMembers(x, y, cs, h) == [Member(x[0].key, Left(x[0].value, y[0].value, cs))] + rest
  {
    hide Left, CompareJson, Height, CompareStrings;
  }

  lemma PairsEnd(x: seq<Member>, y: seq<Member>, i: nat, cs: bool, h: nat)
    requires forall j | 0 <= j < |x| :: Height(x[j].value) < h
    requires i <= |x| && i <= |y| && (i == |x| || i == |y|)
    ensures LeftMembers(x[i..], y[i..], cs, h) == x[i..]
    ensures PairsEqual(x[i..], y[i..], cs, h) <==> i == |x| == |y|
  {
  }

  // ---- the order changes, and nothing else ----

  /** The same length, and position by position the same height and, in the given mode, meaning. */
  ghost predicate SameItems(x: seq<Json>, x': seq<Json>, mode: bool) {
    |x'| == |x| && forall i | 0 <= i < |x| :: SameValue(x[i], x'[i], mode)
  }

  ghost predicate SamePairs(x: seq<Member>, x': seq<Member>, mode: bool) {
    |x'| == |x| && forall i | 0 <= i < |x| :: x'[i].key == x[i].key && SameValue(x[i].value, x'[i].value, mode)
  }

  /** One tree is as high as the other, as sound, and means the same. */
  ghost predicate SameValue(v: Json, w: Json, mode: bool) {
    && Height(w) == Height(v) && (Plain(v) ==> Plain(w))
    && (Unique(v, mode) ==> Unique(w, mode) && Meaning(w, mode) == Meaning(v, mode))
  }

  /** compare_json, in either mode, leaves a tree that is as high and means the same in any mode with unique keys. */
  lemma {:induction false} LeftSame(a: Json, b: Json, cs: bool, mode: bool)
    ensures SameValue(a, Left(a, b, cs), mode)
    decreases Height(a), 1, 0
  {
    ChildHeight(a);
    if SameKind(a, b) && a.Array? {
      LeftItemsSame(a.items, b.items, cs, mode, Height(a));
      SameArray(a.items, LeftItems(a.items, b.items, cs, Height(a)), mode);
    } else if SameKind(a, b) && a.Object? {
      SortedHeights(a, cs);
      var x, y := SortMembers(a.members, cs), SortMembers(b.members, cs);
      LeftMembersSame(x, y, cs, mode, Height(a));
      SortedSame(a.members, cs, mode);
      SameObject(x, LeftMembers(x, y, cs, Height(a)), mode);
    }
  }

  lemma {:induction false} LeftItemsSame(x: seq<Json>, y: seq<Json>, cs: bool, mode: bool, h: nat)
    requires forall i | 0 <= i < |x| :: Height(x[i]) < h
    ensures SameItems(x, LeftItems(x, y, cs, h), mode)
    decreases h, 0, |x|
  {
    hide Left, CompareJson, Height, Unique, Plain, Meaning;
    if x != [] && y != [] {
      LeftSame(x[0], y[0], cs, mode);
      LeftItemsSame(x[1..], y[1..], cs, mode, h);
    }
  }

  lemma {:induction false} LeftMembersSame(x: seq<Member>, y: seq<Member>, cs: bool, mode: bool, h: nat)
    requires forall i | 0 <= i < |x| :: Height(x[i].value) < h
    ensures SamePairs(x, LeftMembers(x, y, cs, h), mode)
    decreases h, 0, |x|
  {
    hide Left, CompareJson, Height, Unique, Plain, Meaning, CompareStrings;
    if x != [] && y != [] && CompareStrings(x[0].key, y[0].key, cs) == 0 {
      LeftSame(x[0].value, y[0].value, cs, mode);
      LeftMembersSame(x[1..], y[1..], cs, mode, h);
    }
  }

  lemma {:induction false} SameItemsHeight(x: seq<Json>, x': seq<Json>)
    requires |x| == |x'| && forall i | 0 <= i < |x| :: Height(x[i]) == Height(x'[i])
    ensures ItemsHeight(x) == ItemsHeight(x')
  {
    hide Height;
    if x != [] {
      SameItemsHeight(x[1..], x'[1..]);
    }
  }

  lemma {:induction false} SamePairsHeight(x: seq<Member>, x': seq<Member>)
    requires |x| == |x'| && forall i | 0 <= i < |x| :: Height(x[i].value) == Height(x'[i].value)
    ensures MembersHeight(x) == MembersHeight(x')
  {
    hide Height;
    if x != [] {
      SamePairsHeight(x[1..], x'[1..]);
    }
  }

  lemma SameArray(x: seq<Json>, x': seq<Json>, mode: bool)
    requires SameItems(x, x', mode)
    ensures SameValue(Array(x), Array(x'), mode)
  {
    hide Meaning, Unique, Plain;
    SameItemsHeight(x, x');
    PlainArray(x, x', mode);
    if Unique(Array(x), mode) {
      UniqueItems(x, x', mode);
      ItemsMeanArray(x, x', mode);
    }
  }

  lemma PlainArray(x: seq<Json>, x': seq<Json>, mode: bool)
    requires SameItems(x, x', mode)
    ensures Plain(Array(x)) ==> Plain(Array(x'))
  {
    hide Meaning, Unique, Height;
  }

  lemma UniqueItems(x: seq<Json>, x': seq<Json>, mode: bool)
    requires SameItems(x, x', mode) && Unique(Array(x), mode)
    ensures forall i | 0 <= i < |x| :: Unique(x'[i], mode) && Meaning(x'[i], mode) == Meaning(x[i], mode)
  {
    hide Meaning, Plain, Height;
  }

  lemma ItemsMeanArray(x: seq<Json>, x': seq<Json>, mode: bool)
    requires |x'| == |x| && Unique(Array(x), mode)
    requires forall i | 0 <= i < |x| :: Unique(x'[i], mode) && Meaning(x'[i], mode) == Meaning(x[i], mode)
    ensures Unique(Array(x'), mode) && Meaning(Array(x'), mode) == Meaning(Array(x), mode)
  {
  }

  lemma SameObject(x: seq<Member>, x': seq<Member>, mode: bool)
    requires SamePairs(x, x', mode)
    ensures SameValue(Object(x), Object(x'), mode)
  {
    SamePairsHeight(x, x');
    if Unique(Object(x), mode) {
      PairsMeanObject(x, x', mode);
    }
  }

  lemma PairsMeanObject(x: seq<Member>, x': seq<Member>, mode: bool)
    requires |x'| == |x| && Unique(Object(x), mode) && forall i | 0 <= i < |x| :: x'[i].key == x[i].key
    requires forall i | 0 <= i < |x| ::
      Unique(x'[i].value, mode) && Meaning(x'[i].value, mode) == Meaning(x[i].value, mode)
    ensures Unique(Object(x'), mode) && Meaning(Object(x'), mode) == Meaning(Object(x), mode)
  {
    PairedMeanings(x, x', mode);
    ObjectMeans(x, mode);
    ObjectMeans(x', mode);
  }

  lemma ObjectMeans(ms: seq<Member>, mode: bool)
    ensures Meaning(Object(ms), mode) == DObject(Meanings(ms, mode))
  {
  }

  /** Sorting in one mode changes neither the height nor the meaning in any other. */
  lemma SortedSame(ms: seq<Member>, cs: bool, mode: bool)
    ensures SameValue(Object(ms), Object(SortMembers(ms, cs)), mode)
  {
    var x := SortMembers(ms, cs);
    SortedMembersOf(ms, cs);
    SortPermutes(ms, MemberKey, cs);
    assert multiset(x) == multiset(ms);
    hide SortMembers, Unique, Plain, Meaning, Height, Meanings;
    MembersHeightSame(ms, x);
    ObjectHeight(ms, x);
    PermutedPlain(ms, x);
    if Unique(Object(ms), mode) {
      PermutedUnique(ms, x, mode);
      SameMembersMeaning(ms, x, mode);
      ObjectMeans(x, mode);
      ObjectMeans(ms, mode);
    }
  }

  lemma ObjectHeight(ms: seq<Member>, x: seq<Member>)
    requires |x| == |ms| && MembersHeight(ms) == MembersHeight(x)
    ensures Height(Object(ms)) == Height(Object(x))
  {
  }

  lemma PermutedPlain(ms: seq<Member>, x: seq<Member>)
    requires forall m :: m in x <==> m in ms
    ensures Plain(Object(ms)) ==> Plain(Object(x))
  {
    if Plain(Object(ms)) {
      forall i | 0 <= i < |x| ensures Plain(x[i].value) {
        assert x[i] in ms;
      }
    }
  }

  lemma PermutedUnique(ms: seq<Member>, x: seq<Member>, mode: bool)
    requires multiset(ms) == multiset(x) && (forall m :: m in x <==> m in ms) && Unique(Object(ms), mode)
    ensures Unique(Object(x), mode) && DistinctKeys(x, mode) && DistinctKeys(ms, mode)
  {
    DistinctPermutation(ms, x, mode);
    hide DistinctKeys;
    forall i | 0 <= i < |x| ensures Unique(x[i].value, mode) {
      assert x[i] in ms;
    }
  }

  lemma MembersHeightSame(ms: seq<Member>, x: seq<Member>)
    requires |x| == |ms| && forall m :: m in x <==> m in ms
    ensures MembersHeight(ms) == MembersHeight(x)
  {
    hide Height;
    if ms != [] {
      var i :| 0 <= i < |ms| && Height(ms[i].value) == MembersHeight(ms);
      var j :| 0 <= j < |x| && Height(x[j].value) == MembersHeight(x);
      assert ms[i] in x && x[j] in ms;
    }
  }
}
