/** cJSON_Compare and compare_json: when two trees count as equal. */
module TreeCompare {
  import opened Text
  import opened JsonTree
  import opened SortedMembers

  lemma ChildHeight(j: Json)
    ensures j.Array? ==> forall i | 0 <= i < |j.items| :: Height(j.items[i]) < Height(j)
    ensures j.Object? ==> forall i | 0 <= i < |j.members| :: Height(j.members[i].value) < Height(j)
  {
  }

  /** cJSON_Compare */
  predicate Compare(a: Json, b: Json, cs: bool)
    decreases Height(a) + Height(b), 1
  {
    ChildHeight(a);
    ChildHeight(b);
    SameKind(a, b) &&
    match a
    case Invalid => false
    case Number(d) => CompareDouble(d, b.d)
    case String(s) => s == b.s
    case Array(items) =>
      |items| == |b.items| && forall i | 0 <= i < |items| :: Compare(items[i], b.items[i], cs)
    case Object(ms) => Included(a, b, cs) && Included(b, a, cs)
    case _ => true
  }

  /** Each member of a has an equal counterpart in b. */
  predicate Included(a: Json, b: Json, cs: bool)
    requires a.Object? && b.Object?
    decreases Height(a) + Height(b), 0
  {
    ChildHeight(a);
    ChildHeight(b);
    forall i | 0 <= i < |a.members| ::
      var j := Lookup(b.members, a.members[i].key, cs);
      j < |b.members| && Compare(a.members[i].value, b.members[j].value, cs)
  }

  /** The element and member loops of cJSON_Compare. */
  method CompareLoop(a: Json, b: Json, cs: bool) returns (r: bool)
    ensures r == Compare(a, b, cs)
    decreases Height(a) + Height(b), 1
  {
    ChildHeight(a);
    ChildHeight(b);
    if !SameKind(a, b) || a.Invalid? {
      return false;
    }
    if a.Number? {
      return CompareDouble(a.d, b.d);
    } else if a.String? {
      return a.s == b.s;
    } else if a.Array? {
      var i := 0;
      while i < |a.items| && i < |b.items|
        invariant i <= |a.items| && i <= |b.items|
        invariant forall k | 0 <= k < i :: Compare(a.items[k], b.items[k], cs)
      {
        r := CompareLoop(a.items[i], b.items[i], cs);
        if !r {
          return;
        }
        i := i + 1;
      }
      return i == |a.items| == |b.items|;
    } else if a.Object? {
      r := IncludedLoop(a, b, cs);
      if r {
        r := IncludedLoop(b, a, cs);
      }
      return;
    }
    return true;
  }

  /** One of the two member walks: each member of a has an equal counterpart in b. */
  method IncludedLoop(a: Json, b: Json, cs: bool) returns (r: bool)
    requires a.Object? && b.Object?
    ensures r == Included(a, b, cs)
    decreases Height(a) + Height(b), 0
  {
    hide Compare, Height;
    ChildHeight(a);
    ChildHeight(b);
    var i := 0;
    while i < |a.members|
      invariant i <= |a.members|
      invariant forall k | 0 <= k < i ::
        var j := Lookup(b.members, a.members[k].key, cs);
        j < |b.members| && Compare(a.members[k].value, b.members[j].value, cs)
    {
      var j := LookupLoop(b.members, a.members[i].key, cs);
      if j == |b.members| {
        return false;
      }
      r := CompareLoop(a.members[i].value, b.members[j].value, cs);
      if !r {
        return;
      }
      i := i + 1;
    }
    r := true;
  }

  /** On all trees, equal in one order is equal in the other. */
  lemma {:induction false} CompareSymmetric(a: Json, b: Json, cs: bool)
    ensures Compare(a, b, cs) == Compare(b, a, cs)
    decreases Height(a) + Height(b)
  {
    ChildHeight(a);
    ChildHeight(b);
    if a.Array? && b.Array? && |a.items| == |b.items| {
      forall i | 0 <= i < |a.items| ensures Compare(a.items[i], b.items[i], cs) == Compare(b.items[i], a.items[i], cs) {
        CompareSymmetric(a.items[i], b.items[i], cs);
      }
    }
  }

  /** cJSON_Compare decides equality of order-free meanings. */
  lemma {:induction false} CompareDecidesMeaning(a: Json, b: Json, cs: bool)
    requires Unique(a, cs) && Unique(b, cs) && Plain(a) && Plain(b)
    ensures Compare(a, b, cs) <==> Meaning(a, cs) == Meaning(b, cs)
    decreases Height(a) + Height(b), 2
  {
    hide Compare, Meaning, Unique, Plain, Height;
    if a.Array? && b.Array? {
      CompareArrays(a, b, cs);
    } else if a.Object? && b.Object? {
      CompareObjects(a, b, cs);
    } else {
      CompareOthers(a, b, cs);
    }
  }

  /** Values of different kinds, and values without children. */
  lemma CompareOthers(a: Json, b: Json, cs: bool)
    requires Plain(a) && Plain(b) && !(a.Array? && b.Array?) && !(a.Object? && b.Object?)
    ensures Compare(a, b, cs) <==> Meaning(a, cs) == Meaning(b, cs)
  {
    hide Height, Included;
    if a.Number? && b.Number? {
      CompareDoubleExact(a.d, b.d);
    }
  }

  lemma ObjectsCompared(a: Json, b: Json, cs: bool)
    requires a.Object? && b.Object?
    ensures Compare(a, b, cs) <==> Included(a, b, cs) && Included(b, a, cs)
    ensures Meaning(a, cs) == Meaning(b, cs) <==> Meanings(a.members, cs) == Meanings(b.members, cs)
  {
    hide Included, Height;
  }

  lemma {:induction false} CompareObjects(a: Json, b: Json, cs: bool)
    requires a.Object? && b.Object?
    requires Unique(a, cs) && Unique(b, cs) && Plain(a) && Plain(b)
    ensures Compare(a, b, cs) <==> Meaning(a, cs) == Meaning(b, cs)
    decreases Height(a) + Height(b), 1
  {
    hide Compare, Included, Meaning, Meanings, Unique, Plain, Height;
    ObjectsCompared(a, b, cs);
    if Compare(a, b, cs) {
      IncludedMembers(a, b, cs);
      IncludedMembers(b, a, cs);
      assert Meanings(a.members, cs) == Meanings(b.members, cs);
    }
    if Meaning(a, cs) == Meaning(b, cs) {
      MembersIncluded(a, b, cs);
      MembersIncluded(b, a, cs);
    }
  }

  lemma {:induction false} CompareArrays(a: Json, b: Json, cs: bool)
    requires a.Array? && b.Array?
    requires Unique(a, cs) && Unique(b, cs) && Plain(a) && Plain(b)
    ensures Compare(a, b, cs) <==> Meaning(a, cs) == Meaning(b, cs)
    decreases Height(a) + Height(b), 1
  {
    hide Height;
    ChildHeight(a);
    ChildHeight(b);
    var ma, mb := Meaning(a, cs).items, Meaning(b, cs).items;
    if |a.items| == |b.items| {
      forall i | 0 <= i < |a.items| ensures Compare(a.items[i], b.items[i], cs) <==> ma[i] == mb[i] {
        CompareDecidesMeaning(a.items[i], b.items[i], cs);
      }
      if ma == mb {
        assert forall i | 0 <= i < |a.items| :: ma[i] == mb[i];
      }
    } else {
      assert |ma| != |mb|;
    }
  }

  /** Equal counterparts for every member give equal meanings under every key. */
  lemma {:induction false} IncludedMembers(a: Json, b: Json, cs: bool)
    requires a.Object? && b.Object?
    requires Unique(a, cs) && Unique(b, cs) && Plain(a) && Plain(b)
    requires Included(a, b, cs)
    ensures forall fk | fk in Meanings(a.members, cs) ::
      fk in Meanings(b.members, cs) && Meanings(b.members, cs)[fk] == Meanings(a.members, cs)[fk]
    decreases Height(a) + Height(b), 0
  {
    ChildHeight(a);
    ChildHeight(b);
    forall fk | fk in Meanings(a.members, cs)
      ensures fk in Meanings(b.members, cs) && Meanings(b.members, cs)[fk] == Meanings(a.members, cs)[fk]
    {
      var i := MeaningsKey(a.members, fk, cs);
      var j := Lookup(b.members, a.members[i].key, cs);
      CompareDecidesMeaning(a.members[i].value, b.members[j].value, cs);
      MeaningAt(b.members, j, cs);
    }
  }

  lemma {:induction false} MembersIncluded(a: Json, b: Json, cs: bool)
    requires a.Object? && b.Object?
    requires Unique(a, cs) && Unique(b, cs) && Plain(a) && Plain(b)
    requires Meanings(a.members, cs) == Meanings(b.members, cs)
    ensures Included(a, b, cs)
    decreases Height(a) + Height(b), 0
  {
    ChildHeight(a);
    ChildHeight(b);
    forall i | 0 <= i < |a.members|
      ensures var j := Lookup(b.members, a.members[i].key, cs);
        j < |b.members| && Compare(a.members[i].value, b.members[j].value, cs)
    {
      MeaningAt(a.members, i, cs);
      var j := MeaningsKey(b.members, Fold(a.members[i].key, cs), cs);
      FirstDistinct(b.members, j, cs);
      MeaningAt(b.members, j, cs);
      CompareDecidesMeaning(a.members[i].value, b.members[j].value, cs);
    }
  }

  /** Every plain tree with unique keys equals its recursive duplicate, up to the circular limit. */
  lemma DuplicateComparesEqual(j: Json, cs: bool)
    requires Unique(j, cs) && Plain(j)
    ensures Duplicate(j).Some? <==> Height(j) <= 10000
    ensures Duplicate(j).Some? ==> Compare(j, Duplicate(j).value, cs)
  {
    DuplicateRecExact(j, 0);
    CompareDecidesMeaning(j, j, cs);
  }

  // ---- compare_json: the comparison of cJSON_Utils.c, by sorted members ----

  predicate CompareJson(a: Json, b: Json, cs: bool)
    decreases Height(a), 1
  {
    ChildHeight(a);
    SameKind(a, b) &&
    match a
    case Number(d) => ValueInt(d) == ValueInt(b.d) && CompareDouble(d, b.d)
    case String(s) => s == b.s
    case Array(items) =>
      |items| == |b.items| && forall i | 0 <= i < |items| :: CompareJson(items[i], b.items[i], cs)
    case Object(ms) =>
      SortedHeights(a, cs);
      PairsEqual(SortMembers(ms, cs), SortMembers(b.members, cs), cs, Height(a))
    case _ => true
  }

  /** Same keys and equal values, position by position. */
  predicate PairsEqual(x: seq<Member>, y: seq<Member>, cs: bool, ghost h: nat)
    requires forall i | 0 <= i < |x| :: Height(x[i].value) < h
    decreases h, 0
  {
    |x| == |y| && forall i | 0 <= i < |x| ::
      CompareStrings(x[i].key, y[i].key, cs) == 0 && CompareJson(x[i].value, y[i].value, cs)
  }

  lemma SortedHeights(j: Json, cs: bool)
    requires j.Object?
    ensures forall i | 0 <= i < |SortMembers(j.members, cs)| :: Height(SortMembers(j.members, cs)[i].value) < Height(j)
  {
    SortedMembersOf(j.members, cs);
    forall i | 0 <= i < |SortMembers(j.members, cs)| ensures Height(SortMembers(j.members, cs)[i].value) < Height(j) {
      assert SortMembers(j.members, cs)[i] in j.members;
      ChildHeight(j);
    }
  }

  lemma KeysTail(ms: seq<Member>, cs: bool)
    requires ms != [] && StrictlyBefore(ms, cs)
    ensures Keys(ms[1..], cs) == Keys(ms, cs) - {Fold(ms[0].key, cs)}
    ensures forall fk | fk in Keys(ms, cs) :: fk == Fold(ms[0].key, cs) || Before(Fold(ms[0].key, cs), fk)
  {
    assert ms == [ms[0]] + ms[1..];
    forall m | m in ms[1..] ensures Before(Fold(ms[0].key, cs), Fold(m.key, cs)) {
      var i :| 0 <= i < |ms[1..]| && ms[1..][i] == m;
      assert ms[i + 1] == m;
    }
    forall m | m in ms[1..] ensures Fold(m.key, cs) != Fold(ms[0].key, cs) {
      BeforeTrichotomy(Fold(ms[0].key, cs), Fold(m.key, cs));
    }
  }

  /** Two sorted member lists with the same keys have them at the same positions. */
  lemma {:induction false} SortedAligned(x: seq<Member>, y: seq<Member>, cs: bool)
    requires StrictlyBefore(x, cs) && StrictlyBefore(y, cs) && Keys(x, cs) == Keys(y, cs)
    ensures |x| == |y|
    ensures forall i | 0 <= i < |x| :: Fold(x[i].key, cs) == Fold(y[i].key, cs)
  {
    assert x != [] ==> Fold(x[0].key, cs) in Keys(x, cs);
    assert y != [] ==> Fold(y[0].key, cs) in Keys(y, cs);
    if x != [] {
      KeysTail(x, cs);
      KeysTail(y, cs);
      BeforeTrichotomy(Fold(x[0].key, cs), Fold(y[0].key, cs));
      SortedAligned(x[1..], y[1..], cs);
      assert forall i | 1 <= i < |x| :: x[i] == x[1..][i - 1] && y[i] == y[1..][i - 1];
    }
  }

  /** compare_json decides the same equality. */
  lemma {:induction false} CompareJsonDecidesMeaning(a: Json, b: Json, cs: bool)
    requires Unique(a, cs) && Unique(b, cs) && Plain(a) && Plain(b)
    ensures CompareJson(a, b, cs) <==> Meaning(a, cs) == Meaning(b, cs)
    decreases Height(a), 1
  {
    ChildHeight(a);
    if !SameKind(a, b) {
    } else if a.Number? {
      CompareDoubleExact(a.d, b.d);
    } else if a.Array? {
      var ma, mb := Meaning(a, cs).items, Meaning(b, cs).items;
      if |a.items| == |b.items| {
        forall i | 0 <= i < |a.items| ensures CompareJson(a.items[i], b.items[i], cs) <==> ma[i] == mb[i] {
          CompareJsonDecidesMeaning(a.items[i], b.items[i], cs);
        }
      } else {
        assert |ma| != |mb|;
      }
    } else if a.Object? {
      var x, y := SortMembers(a.members, cs), SortMembers(b.members, cs);
      SortedFacts(a.members, cs);
      SortedFacts(b.members, cs);
      SortedHeights(a, cs);
      forall i | 0 <= i < |x| ensures Unique(x[i].value, cs) && Plain(x[i].value) { assert x[i] in a.members; }
      forall i | 0 <= i < |y| ensures Unique(y[i].value, cs) && Plain(y[i].value) { assert y[i] in b.members; }
      PairsDecideMeaning(x, y, cs, Height(a));
    }
  }

  lemma {:induction false} PairsDecideMeaning(x: seq<Member>, y: seq<Member>, cs: bool, h: nat)
    requires forall i | 0 <= i < |x| :: Height(x[i].value) < h && Unique(x[i].value, cs) && Plain(x[i].value)
    requires forall i | 0 <= i < |y| :: Unique(y[i].value, cs) && Plain(y[i].value)
    requires StrictlyBefore(x, cs) && StrictlyBefore(y, cs) && DistinctKeys(x, cs) && DistinctKeys(y, cs)
    ensures PairsEqual(x, y, cs, h) <==> Meanings(x, cs) == Meanings(y, cs)
    decreases h, 0
  {
    forall i | 0 <= i < |x| && i < |y|
      ensures CompareStrings(x[i].key, y[i].key, cs) == 0 <==> Fold(x[i].key, cs) == Fold(y[i].key, cs)
      ensures CompareJson(x[i].value, y[i].value, cs) <==> Meaning(x[i].value, cs) == Meaning(y[i].value, cs)
    {
      CompareStringsOrder(x[i].key, y[i].key, cs);
      CompareJsonDecidesMeaning(x[i].value, y[i].value, cs);
    }
    if PairsEqual(x, y, cs, h) {
      PairedMeanings(x, y, cs);
    }
    if Meanings(x, cs) == Meanings(y, cs) {
      MeaningsPaired(x, y, cs);
    }
  }

  lemma MeaningsPaired(x: seq<Member>, y: seq<Member>, cs: bool)
    requires StrictlyBefore(x, cs) && StrictlyBefore(y, cs) && DistinctKeys(x, cs) && DistinctKeys(y, cs)
    requires Meanings(x, cs) == Meanings(y, cs)
    ensures |x| == |y|
    ensures forall i | 0 <= i < |x| :: Fold(x[i].key, cs) == Fold(y[i].key, cs)
    ensures forall i | 0 <= i < |x| :: Meaning(x[i].value, cs) == Meaning(y[i].value, cs)
  {
    assert Keys(x, cs) == Meanings(x, cs).Keys && Keys(y, cs) == Meanings(y, cs).Keys;
    SortedAligned(x, y, cs);
    forall i | 0 <= i < |x| ensures Meaning(x[i].value, cs) == Meaning(y[i].value, cs) {
      MeaningAt(x, i, cs);
      MeaningAt(y, i, cs);
    }
  }

  lemma PairedMeanings(x: seq<Member>, y: seq<Member>, cs: bool)
    requires DistinctKeys(x, cs) && DistinctKeys(y, cs) && |x| == |y|
    requires forall i | 0 <= i < |x| :: Fold(x[i].key, cs) == Fold(y[i].key, cs)
    requires forall i | 0 <= i < |x| :: Meaning(x[i].value, cs) == Meaning(y[i].value, cs)
    ensures Meanings(x, cs) == Meanings(y, cs)
  {
    hide *;
    forall fk | fk in Meanings(x, cs) ensures fk in Meanings(y, cs) && Meanings(y, cs)[fk] == Meanings(x, cs)[fk] {
      var i := MeaningsKey(x, fk, cs);
      MeaningAt(y, i, cs);
    }
    forall fk | fk in Meanings(y, cs) ensures fk in Meanings(x, cs) {
      var i := MeaningsKey(y, fk, cs);
      MeaningAt(x, i, cs);
    }
  }
}
