/** What the two comparisons decide on trees with any numbers: equality up to the order of members and rounding. */
module TreeLikeness {
  import opened Text
  import opened JsonTree
  import Numerals
  import opened Render
  import opened ParseText
  import opened JsonGrammar
  import opened ParseRoundTrip
  import opened SortedMembers
  import opened TreeCompare

  /** Less than 2^-52 apart, measured by the larger of the two. */
  predicate Near(a: real, b: real) {
    4503599627370496.0 * Abs(a - b) <= (if Abs(a) > Abs(b) then Abs(a) else Abs(b))
  }

  /**
   * Equal documents, up to near numbers. compare_json (`ints`) also wants the integer parts equal, and
   * takes two invalid nodes for equal; cJSON_Compare takes an invalid node for unequal to any.
   */
  ghost predicate Like(x: Doc, y: Doc, ints: bool)
    decreases x
  {
    match x
    case DInvalid => ints && y.DInvalid?
    case DNumber(d) => y.DNumber? && Near(d, y.d) && (ints ==> ValueInt(d) == ValueInt(y.d))
    case DArray(items) =>
      y.DArray? && |y.items| == |items| && forall i | 0 <= i < |items| :: Like(items[i], y.items[i], ints)
    case DObject(members) =>
      y.DObject? && y.members.Keys == members.Keys && forall k | k in members :: Like(members[k], y.members[k], ints)
    case _ => x == y
  }

  ghost predicate LikeMembers(a: map<string, Doc>, b: map<string, Doc>, ints: bool) {
    a.Keys == b.Keys && forall k | k in a :: Like(a[k], b[k], ints)
  }

  // ---- cJSON_Compare ----

  /** On trees with unique keys: cJSON_Compare holds exactly when the meanings are alike. */
  lemma {:induction false} CompareDecidesLikeness(a: Json, b: Json, cs: bool)
    requires Unique(a, cs) && Unique(b, cs)
    ensures Compare(a, b, cs) <==> Like(Meaning(a, cs), Meaning(b, cs), false)
    decreases Height(a) + Height(b), 2
  {
    hide Compare, Meaning, Unique, Height, Like;
    if a.Array? && b.Array? {
      ArraysCompared(a, b, cs);
    } else if a.Object? && b.Object? {
      MembersCompared(a, b, cs);
    } else {
      LeavesCompared(a, b, cs);
    }
  }

  lemma LeavesCompared(a: Json, b: Json, cs: bool)
    requires !(a.Array? && b.Array?) && !(a.Object? && b.Object?)
    ensures Compare(a, b, cs) <==> Like(Meaning(a, cs), Meaning(b, cs), false)
  {
    if a.Number? && b.Number? {
      NearEnough(a.d, b.d);
    }
    hide Height, Included, Near, CompareDouble;
  }

  lemma NearEnough(a: real, b: real)
    ensures CompareDouble(a, b) <==> Near(a, b)
  {
    hide Abs;
  }

  lemma {:induction false} ArraysCompared(a: Json, b: Json, cs: bool)
    requires a.Array? && b.Array? && Unique(a, cs) && Unique(b, cs)
    ensures Compare(a, b, cs) <==> Like(Meaning(a, cs), Meaning(b, cs), false)
    decreases Height(a) + Height(b), 1
  {
    hide Height;
    ChildHeight(a);
    ChildHeight(b);
    var x, y := Meaning(a, cs).items, Meaning(b, cs).items;
    if |a.items| == |b.items| {
      forall i | 0 <= i < |a.items| ensures Compare(a.items[i], b.items[i], cs) <==> Like(x[i], y[i], false) {
        CompareDecidesLikeness(a.items[i], b.items[i], cs);
      }
    }
  }

  lemma {:induction false} MembersCompared(a: Json, b: Json, cs: bool)
    requires a.Object? && b.Object? && Unique(a, cs) && Unique(b, cs)
    ensures Compare(a, b, cs) <==> Like(Meaning(a, cs), Meaning(b, cs), false)
    decreases Height(a) + Height(b), 1
  {
    hide *;
    ObjectsCompared(a, b, cs);
    ObjectsAlike(a, b, cs, false);
    IncludedLike(a, b, cs);
    IncludedLike(b, a, cs);
    LikeBothWays(a.members, b.members, cs);
  }

  /** Every key of one list is a key of the other, with values alike. */
  ghost predicate Covered(a: seq<Member>, b: seq<Member>, cs: bool) {
    forall k | k in Meanings(a, cs) ::
      k in Meanings(b, cs) && Like(Meanings(a, cs)[k], Meanings(b, cs)[k], false)
  }

  lemma LikeBothWays(a: seq<Member>, b: seq<Member>, cs: bool)
    ensures Covered(a, b, cs) && Covered(b, a, cs) <==> LikeMembers(Meanings(a, cs), Meanings(b, cs), false)
  {
    hide Meanings, Like;
    forall k | k in Meanings(a, cs) && k in Meanings(b, cs)
      ensures Like(Meanings(a, cs)[k], Meanings(b, cs)[k], false) == Like(Meanings(b, cs)[k], Meanings(a, cs)[k], false)
    {
      LikeSymmetric(Meanings(a, cs)[k], Meanings(b, cs)[k], false);
    }
  }

  lemma {:induction false} LikeSymmetric(x: Doc, y: Doc, ints: bool)
    ensures Like(x, y, ints) == Like(y, x, ints)
    decreases x
  {
    if x.DArray? && y.DArray? && |x.items| == |y.items| {
      forall i | 0 <= i < |x.items| ensures Like(x.items[i], y.items[i], ints) == Like(y.items[i], x.items[i], ints) {
        LikeSymmetric(x.items[i], y.items[i], ints);
      }
    } else if x.DObject? && y.DObject? && x.members.Keys == y.members.Keys {
      forall k | k in x.members ensures Like(x.members[k], y.members[k], ints) == Like(y.members[k], x.members[k], ints)
      {
        LikeSymmetric(x.members[k], y.members[k], ints);
      }
    }
  }

  lemma {:induction false} IncludedLike(a: Json, b: Json, cs: bool)
    requires a.Object? && b.Object? && Unique(a, cs) && Unique(b, cs)
    ensures Included(a, b, cs) <==> Covered(a.members, b.members, cs)
    decreases Height(a) + Height(b), 0
  {
    hide Compare, Meaning, Height, Like;
    ChildHeight(a);
    ChildHeight(b);
    if Included(a, b, cs) {
      forall k | k in Meanings(a.members, cs)
        ensures k in Meanings(b.members, cs) && Like(Meanings(a.members, cs)[k], Meanings(b.members, cs)[k], false)
      {
        var i := MeaningsKey(a.members, k, cs);
        var j := Lookup(b.members, a.members[i].key, cs);
        CompareDecidesLikeness(a.members[i].value, b.members[j].value, cs);
        MeaningAt(b.members, j, cs);
      }
    }
    if Covered(a.members, b.members, cs) {
      forall i | 0 <= i < |a.members|
        ensures var j := Lookup(b.members, a.members[i].key, cs);
          j < |b.members| && Compare(a.members[i].value, b.members[j].value, cs)
      {
        MeaningAt(a.members, i, cs);
        var j := MeaningsKey(b.members, Fold(a.members[i].key, cs), cs);
        FirstDistinct(b.members, j, cs);
        MeaningAt(b.members, j, cs);
        CompareDecidesLikeness(a.members[i].value, b.members[j].value, cs);
      }
    }
  }

  // ---- compare_json ----

  /** On trees with unique keys: compare_json holds exactly when the meanings are alike and integer parts agree. */
  lemma {:induction false} CompareJsonDecidesLikeness(a: Json, b: Json, cs: bool)
    requires Unique(a, cs) && Unique(b, cs)
    ensures CompareJson(a, b, cs) <==> Like(Meaning(a, cs), Meaning(b, cs), true)
    decreases Height(a), 2
  {
    hide CompareJson, Meaning, Unique, Height, Like;
    if a.Array? && b.Array? {
      ItemsPaired(a, b, cs);
    } else if a.Object? && b.Object? {
      MembersPaired(a, b, cs);
    } else {
      LeavesPaired(a, b, cs);
    }
  }

  lemma LeavesPaired(a: Json, b: Json, cs: bool)
    requires !(a.Array? && b.Array?) && !(a.Object? && b.Object?)
    ensures CompareJson(a, b, cs) <==> Like(Meaning(a, cs), Meaning(b, cs), true)
  {
    if a.Number? && b.Number? {
      NearEnough(a.d, b.d);
    }
    hide Height, PairsEqual, Near, CompareDouble, ValueInt;
  }

  lemma {:induction false} ItemsPaired(a: Json, b: Json, cs: bool)
    requires a.Array? && b.Array? && Unique(a, cs) && Unique(b, cs)
    ensures CompareJson(a, b, cs) <==> Like(Meaning(a, cs), Meaning(b, cs), true)
    decreases Height(a), 1
  {
    hide Height;
    ChildHeight(a);
    var x, y := Meaning(a, cs).items, Meaning(b, cs).items;
    if |a.items| == |b.items| {
      forall i | 0 <= i < |a.items| ensures CompareJson(a.items[i], b.items[i], cs) <==> Like(x[i], y[i], true) {
        CompareJsonDecidesLikeness(a.items[i], b.items[i], cs);
      }
    }
  }

  lemma {:induction false} MembersPaired(a: Json, b: Json, cs: bool)
    requires a.Object? && b.Object? && Unique(a, cs) && Unique(b, cs)
    ensures CompareJson(a, b, cs) <==> Like(Meaning(a, cs), Meaning(b, cs), true)
    decreases Height(a), 1
  {
    hide *;
    var x, y := SortMembers(a.members, cs), SortMembers(b.members, cs);
    SortedUnique(a, cs);
    SortedUnique(b, cs);
    PairsStand(a, b, cs);
    ObjectsAlike(a, b, cs, true);
    PairsAlike(x, y, cs, Height(a));
  }

  lemma ObjectsAlike(a: Json, b: Json, cs: bool, ints: bool)
    requires a.Object? && b.Object?
    ensures Like(Meaning(a, cs), Meaning(b, cs), ints)
      <==> LikeMembers(Meanings(a.members, cs), Meanings(b.members, cs), ints)
  {
    hide Meaning, Meanings;
    AsMembers(a, cs);
    AsMembers(b, cs);
    AlikeMaps(Meanings(a.members, cs), Meanings(b.members, cs), ints);
  }

  lemma AlikeMaps(x: map<string, Doc>, y: map<string, Doc>, ints: bool)
    ensures Like(DObject(x), DObject(y), ints) <==> LikeMembers(x, y, ints)
  {
  }

  lemma AsMembers(j: Json, cs: bool)
    requires j.Object?
    ensures Meaning(j, cs) == DObject(Meanings(j.members, cs))
  {
  }

  lemma PairsStand(a: Json, b: Json, cs: bool)
    requires a.Object? && b.Object?
    ensures forall i | 0 <= i < |SortMembers(a.members, cs)| :: Height(SortMembers(a.members, cs)[i].value) < Height(a)
    ensures CompareJson(a, b, cs)
      <==> PairsEqual(SortMembers(a.members, cs), SortMembers(b.members, cs), cs, Height(a))
  {
    hide PairsEqual, Height;
    SortedHeights(a, cs);
  }

  lemma SortedUnique(j: Json, cs: bool)
    requires j.Object? && Unique(j, cs)
    ensures var x := SortMembers(j.members, cs);
      && StrictlyBefore(x, cs) && DistinctKeys(x, cs) && Meanings(x, cs) == Meanings(j.members, cs)
      && forall i | 0 <= i < |x| :: Unique(x[i].value, cs)
  {
    hide Meaning, SortMembers;
    SortedFacts(j.members, cs);
    var x := SortMembers(j.members, cs);
    forall i | 0 <= i < |x| ensures Unique(x[i].value, cs) { assert x[i] in j.members; }
  }

  lemma {:induction false} PairsAlike(x: seq<Member>, y: seq<Member>, cs: bool, h: nat)
    requires forall i | 0 <= i < |x| :: Height(x[i].value) < h && Unique(x[i].value, cs)
    requires forall i | 0 <= i < |y| :: Unique(y[i].value, cs)
    requires StrictlyBefore(x, cs) && StrictlyBefore(y, cs) && DistinctKeys(x, cs) && DistinctKeys(y, cs)
    ensures PairsEqual(x, y, cs, h) <==> LikeMembers(Meanings(x, cs), Meanings(y, cs), true)
    decreases h, 0
  {
    hide Meanings, Like, CompareJson, Height;
    forall i | 0 <= i < |x| && i < |y|
      ensures CompareStrings(x[i].key, y[i].key, cs) == 0 <==> Fold(x[i].key, cs) == Fold(y[i].key, cs)
      ensures CompareJson(x[i].value, y[i].value, cs) <==> Like(Meaning(x[i].value, cs), Meaning(y[i].value, cs), true)
    {
      CompareStringsOrder(x[i].key, y[i].key, cs);
      CompareJsonDecidesLikeness(x[i].value, y[i].value, cs);
    }
    hide StrictlyBefore, LikeMembers, Meaning;
    if PairsEqual(x, y, cs, h) {
      PairedAlike(x, y, cs);
    }
    if LikeMembers(Meanings(x, cs), Meanings(y, cs), true) {
      AlikePaired(x, y, cs);
    }
  }

  lemma AlikePaired(x: seq<Member>, y: seq<Member>, cs: bool)
    requires StrictlyBefore(x, cs) && StrictlyBefore(y, cs) && DistinctKeys(x, cs) && DistinctKeys(y, cs)
    requires LikeMembers(Meanings(x, cs), Meanings(y, cs), true)
    ensures |x| == |y|
    ensures forall i | 0 <= i < |x| :: Fold(x[i].key, cs) == Fold(y[i].key, cs)
    ensures forall i | 0 <= i < |x| :: Like(Meaning(x[i].value, cs), Meaning(y[i].value, cs), true)
  {
    assert Keys(x, cs) == Meanings(x, cs).Keys && Keys(y, cs) == Meanings(y, cs).Keys;
    hide Meaning, Meanings, Like;
    SortedAligned(x, y, cs);
    forall i | 0 <= i < |x| ensures Like(Meaning(x[i].value, cs), Meaning(y[i].value, cs), true) {
      MeaningAt(x, i, cs);
      MeaningAt(y, i, cs);
    }
  }

  lemma PairedAlike(x: seq<Member>, y: seq<Member>, cs: bool)
    requires DistinctKeys(x, cs) && DistinctKeys(y, cs) && |x| == |y|
    requires forall i | 0 <= i < |x| :: Fold(x[i].key, cs) == Fold(y[i].key, cs)
    requires forall i | 0 <= i < |x| :: Like(Meaning(x[i].value, cs), Meaning(y[i].value, cs), true)
    ensures LikeMembers(Meanings(x, cs), Meanings(y, cs), true)
  {
    hide Meaning, Meanings, Like, DistinctKeys;
    var a, b := Meanings(x, cs), Meanings(y, cs);
    forall k | k in a ensures k in b && Like(a[k], b[k], true) {
      var i := MeaningsKey(x, k, cs);
      MeaningAt(y, i, cs);
    }
    forall k | k in b ensures k in a {
      var i := MeaningsKey(y, k, cs);
      MeaningAt(x, i, cs);
    }
  }

  // ---- what is read back compares equal to what was printed ----

  lemma {:induction false} AlikeCompares(a: Json, b: Json, cs: bool)
    requires Alike(a, b) && Unique(b, cs) && HasText(b)
    ensures Compare(a, b, cs)
    decreases Height(b)
  {
    ChildHeight(b);
    hide Height, Numerals.NumberText;
    if b.Array? {
      forall i | 0 <= i < |b.items| ensures Compare(a.items[i], b.items[i], cs) {
        AlikeCompares(a.items[i], b.items[i], cs);
      }
    } else if b.Object? {
      AlikeKeys(a.members, b.members, cs);
      forall i | 0 <= i < |b.members| ensures Compare(a.members[i].value, b.members[i].value, cs) {
        AlikeCompares(a.members[i].value, b.members[i].value, cs);
      }
      forall i | 0 <= i < |b.members| ensures Compare(b.members[i].value, a.members[i].value, cs) {
        CompareSymmetric(a.members[i].value, b.members[i].value, cs);
      }
    }
  }

  lemma AlikeKeys(a: seq<Member>, b: seq<Member>, cs: bool)
    requires |a| == |b| && DistinctKeys(b, cs) && forall i | 0 <= i < |b| :: a[i].key == b[i].key
    ensures forall i | 0 <= i < |b| :: Lookup(b, a[i].key, cs) == i == Lookup(a, b[i].key, cs)
  {
    forall i | 0 <= i < |b| ensures Lookup(b, a[i].key, cs) == i == Lookup(a, b[i].key, cs) {
      FirstDistinct(b, i, cs);
      FirstDistinct(a, i, cs);
    }
  }

  /** For any numbers: what cJSON_Parse makes of the printed text compares equal to the tree in cJSON_Compare. */
  lemma PrintedComparesEqual(j: Json, format: bool, cs: bool)
    requires Ready(j) && Unique(j, cs) && Nest(j) <= 1000
    ensures Parse(RenderValue(j, format, 0), true).Ok?
    ensures Compare(Parse(RenderValue(j, format, 0), true).value, j, cs)
  {
    hide Compare, Parse, RenderValue, Unique, Alike, Nest;
    ParseUndoesPrint(j, format, true);
    AlikeCompares(Reread(j), j, cs);
  }
}
