/** Dropping, appending and updating members: effects on lookups and on meaning. */
module MemberLists {
  import opened Text
  import opened JsonTree
  import opened SortedMembers
  import opened TreeCompare
  import opened Patch

  lemma FirstIs(ms: seq<Member>, fk: string, cs: bool, r: nat)
    requires r <= |ms|
    requires forall i | 0 <= i < r :: Fold(ms[i].key, cs) != fk
    requires r < |ms| ==> Fold(ms[r].key, cs) == fk
    ensures First(ms, fk, cs) == r
  {
  }

  /** The member is in the list, and is the first one found under its name in the case mode. */
  ghost predicate Holds(ms: seq<Member>, m: Member, cs: bool) {
    var i := Lookup(ms, m.key, cs);
    i < |ms| && ms[i] == m
  }

  lemma DropHolds(ms: seq<Member>, i: nat, m: Member, cs: bool)
    requires i < |ms| && Holds(ms, m, cs) && ms[i] != m
    ensures Holds(DropAt(ms, i), m, cs)
  {
    var l := Lookup(ms, m.key, cs);
    FirstIs(DropAt(ms, i), Fold(m.key, cs), cs, if l < i then l else l - 1);
  }

  lemma AppendHolds(ms: seq<Member>, x: Member, m: Member, cs: bool)
    requires Holds(ms, m, cs)
    ensures Holds(ms + [x], m, cs)
  {
    FirstIs(ms + [x], Fold(m.key, cs), cs, Lookup(ms, m.key, cs));
  }

  lemma UpdateHolds(ms: seq<Member>, i: nat, v: Json, m: Member, cs: bool)
    requires i < |ms| && Holds(ms, m, cs) && ms[i] != m
    ensures Holds(ms[i := Member(ms[i].key, v)], m, cs)
  {
    FirstIs(ms[i := Member(ms[i].key, v)], Fold(m.key, cs), cs, Lookup(ms, m.key, cs));
  }

  // ---- one member off, one member on ----

  /** A map is the meaning of a list when it has its keys and, at each key, that member's meaning. */
  lemma MeaningsAre(ms: seq<Member>, b: map<string, Doc>, cs: bool)
    requires DistinctKeys(ms, cs) && Keys(ms, cs) == b.Keys
    requires forall i | 0 <= i < |ms| :: Fold(ms[i].key, cs) in b ==> b[Fold(ms[i].key, cs)] == Meaning(ms[i].value, cs)
    ensures Meanings(ms, cs) == b
  {
    var a := Meanings(ms, cs);
    assert a.Keys == Keys(ms, cs);
    forall fk | fk in a ensures a[fk] == b[fk] {
      var i := MeaningsKey(ms, fk, cs);
    }
  }

  lemma DropIndex<T>(s: seq<T>, i: nat, p: nat)
    requires i < |s| && p < |s| - 1
    ensures DropAt(s, i)[p] == s[if p < i then p else p + 1]
  {
  }

  lemma DropMember(ms: seq<Member>, i: nat, m: Member)
    requires i < |ms|
    ensures m in DropAt(ms, i) ==> m in ms
    ensures m in ms ==> m == ms[i] || m in DropAt(ms, i)
  {
    assert ms == ms[..i] + [ms[i]] + ms[i + 1..];
  }

  lemma DropDistinct(ms: seq<Member>, i: nat, cs: bool)
    requires i < |ms| && DistinctKeys(ms, cs)
    ensures DistinctKeys(DropAt(ms, i), cs)
    ensures forall m | m in DropAt(ms, i) :: Fold(m.key, cs) != Fold(ms[i].key, cs)
  {
    var r := DropAt(ms, i);
    forall p, q | 0 <= p < q < |r| ensures Fold(r[p].key, cs) != Fold(r[q].key, cs) {
      DropIndex(ms, i, p);
      DropIndex(ms, i, q);
    }
    forall m | m in r ensures Fold(m.key, cs) != Fold(ms[i].key, cs) {
      var p :| 0 <= p < |r| && r[p] == m;
      DropIndex(ms, i, p);
    }
  }

  lemma DropKeys(ms: seq<Member>, i: nat, cs: bool)
    requires i < |ms| && DistinctKeys(ms, cs)
    ensures Keys(DropAt(ms, i), cs) == Keys(ms, cs) - {Fold(ms[i].key, cs)}
  {
    DropDistinct(ms, i, cs);
    forall m ensures m in DropAt(ms, i) ==> m in ms
             ensures m in ms ==> m == ms[i] || m in DropAt(ms, i) {
      DropMember(ms, i, m);
    }
  }

  lemma DropFacts(ms: seq<Member>, i: nat, cs: bool)
    requires i < |ms| && DistinctKeys(ms, cs)
    ensures DistinctKeys(DropAt(ms, i), cs)
    ensures Keys(DropAt(ms, i), cs) == Keys(ms, cs) - {Fold(ms[i].key, cs)}
    ensures Meanings(DropAt(ms, i), cs) == Meanings(ms, cs) - {Fold(ms[i].key, cs)}
  {
    DropDistinct(ms, i, cs);
    DropKeys(ms, i, cs);
    var r, b := DropAt(ms, i), Meanings(ms, cs) - {Fold(ms[i].key, cs)};
    MeaningsKeys(ms, cs);
    forall p | 0 <= p < |r| && Fold(r[p].key, cs) in b ensures b[Fold(r[p].key, cs)] == Meaning(r[p].value, cs) {
      DropIndex(ms, i, p);
      MeaningAt(ms, if p < i then p else p + 1, cs);
    }
    MeaningsAre(r, b, cs);
  }

  lemma AppendDistinct(ms: seq<Member>, x: Member, cs: bool)
    requires DistinctKeys(ms, cs) && Fold(x.key, cs) !in Keys(ms, cs)
    ensures DistinctKeys(ms + [x], cs)
    ensures Keys(ms + [x], cs) == Keys(ms, cs) + {Fold(x.key, cs)}
  {
    forall i | 0 <= i < |ms| ensures Fold(ms[i].key, cs) != Fold(x.key, cs) {
      assert ms[i] in ms;
    }
  }

  lemma AppendFacts(ms: seq<Member>, x: Member, cs: bool)
    requires DistinctKeys(ms, cs) && Fold(x.key, cs) !in Keys(ms, cs)
    ensures DistinctKeys(ms + [x], cs)
    ensures Meanings(ms + [x], cs) == Meanings(ms, cs)[Fold(x.key, cs) := Meaning(x.value, cs)]
  {
    AppendDistinct(ms, x, cs);
    var r, b := ms + [x], Meanings(ms, cs)[Fold(x.key, cs) := Meaning(x.value, cs)];
    MeaningsKeys(ms, cs);
    forall p | 0 <= p < |r| && Fold(r[p].key, cs) in b ensures b[Fold(r[p].key, cs)] == Meaning(r[p].value, cs) {
      if p < |ms| {
        assert ms[p] in ms;
        MeaningAt(ms, p, cs);
      }
    }
    MeaningsAre(r, b, cs);
  }

  lemma UpdateDistinct(ms: seq<Member>, i: nat, v: Json, cs: bool)
    requires i < |ms| && DistinctKeys(ms, cs)
    ensures DistinctKeys(ms[i := Member(ms[i].key, v)], cs)
    ensures Keys(ms[i := Member(ms[i].key, v)], cs) == Keys(ms, cs)
  {
    var r := ms[i := Member(ms[i].key, v)];
    forall m | m in r ensures Fold(m.key, cs) in Keys(ms, cs) {
      var p :| 0 <= p < |r| && r[p] == m;
      assert ms[p] in ms;
    }
    forall m | m in ms ensures Fold(m.key, cs) in Keys(r, cs) {
      var p :| 0 <= p < |ms| && ms[p] == m;
      assert r[p] in r;
    }
  }

  lemma MeaningsKeySet(ms: seq<Member>, cs: bool)
    ensures Meanings(ms, cs).Keys == Keys(ms, cs)
  {
  }

  lemma UpdateFacts(ms: seq<Member>, i: nat, v: Json, cs: bool)
    requires i < |ms| && DistinctKeys(ms, cs)
    ensures DistinctKeys(ms[i := Member(ms[i].key, v)], cs)
    ensures Meanings(ms[i := Member(ms[i].key, v)], cs) == Meanings(ms, cs)[Fold(ms[i].key, cs) := Meaning(v, cs)]
  {
    hide Meanings, Meaning, Fold;
    UpdateDistinct(ms, i, v, cs);
    MeaningsKeySet(ms, cs);
    var r, b := ms[i := Member(ms[i].key, v)], Meanings(ms, cs)[Fold(ms[i].key, cs) := Meaning(v, cs)];
    FirstDistinct(ms, i, cs);
    forall p | 0 <= p < |r| && Fold(r[p].key, cs) in b ensures b[Fold(r[p].key, cs)] == Meaning(r[p].value, cs) {
      if p != i {
        MeaningAt(ms, p, cs);
      }
    }
    MeaningsAre(r, b, cs);
  }

  lemma MeaningsKeys(ms: seq<Member>, cs: bool)
    ensures Meanings(ms, cs).Keys == Keys(ms, cs)
  {
  }

  /** Deleting by name takes the key off, whether or not it was there. */
  lemma DeleteFacts(ms: seq<Member>, key: string, cs: bool)
    requires DistinctKeys(ms, cs)
    ensures DistinctKeys(DeleteMember(ms, key, cs), cs)
    ensures Fold(key, cs) !in Keys(DeleteMember(ms, key, cs), cs)
    ensures Meanings(DeleteMember(ms, key, cs), cs) == Meanings(ms, cs) - {Fold(key, cs)}
  {
    KeysFirst(ms, Fold(key, cs), cs);
    MeaningsKeys(ms, cs);
    hide Meanings, Fold, DistinctKeys, Keys, DropAt;
    if Lookup(ms, key, cs) < |ms| {
      DropFacts(ms, Lookup(ms, key, cs), cs);
    }
  }

  /** Deleting by name and appending: a map update, whatever was there. */
  lemma PutFacts(ms: seq<Member>, x: Member, cs: bool)
    requires DistinctKeys(ms, cs)
    ensures DistinctKeys(DeleteMember(ms, x.key, cs) + [x], cs)
    ensures Meanings(DeleteMember(ms, x.key, cs) + [x], cs) == Meanings(ms, cs)[Fold(x.key, cs) := Meaning(x.value, cs)]
  {
    DeleteFacts(ms, x.key, cs);
    AppendFacts(DeleteMember(ms, x.key, cs), x, cs);
    var m, k, v := Meanings(ms, cs), Fold(x.key, cs), Meaning(x.value, cs);
    assert (m - {k})[k := v] == m[k := v];
  }

  /** Deleting by name in one mode keeps other names, as they are found in either mode. */
  lemma PutHolds(ms: seq<Member>, x: Member, m: Member, cs: bool, mode: bool)
    requires Holds(ms, m, mode) && Fold(m.key, cs) != Fold(x.key, cs)
    ensures Holds(DeleteMember(ms, x.key, cs) + [x], m, mode)
  {
    var i := Lookup(ms, x.key, cs);
    if i < |ms| {
      DropHolds(ms, i, m, mode);
    }
    AppendHolds(DeleteMember(ms, x.key, cs), x, m, mode);
  }

  // ---- sorted lists, head and tail ----

  lemma TailSorted(ms: seq<Member>, cs: bool)
    requires ms != [] && StrictlyBefore(ms, cs) && DistinctKeys(ms, cs)
    ensures StrictlyBefore(ms[1..], cs) && DistinctKeys(ms[1..], cs)
  {
  }

  lemma TailFacts(ms: seq<Member>, cs: bool)
    requires ms != [] && DistinctKeys(ms, cs)
    ensures Keys(ms[1..], cs) == Keys(ms, cs) - {Fold(ms[0].key, cs)}
    ensures Fold(ms[0].key, cs) in Keys(ms, cs)
    ensures Meanings(ms, cs) == Meanings(ms[1..], cs)[Fold(ms[0].key, cs) := Meaning(ms[0].value, cs)]
  {
    assert DropAt(ms, 0) == ms[1..];
    DropFacts(ms, 0, cs);
    MeaningAt(ms, 0, cs);
    FirstDistinct(ms, 0, cs);
    PutBack(Meanings(ms, cs), Fold(ms[0].key, cs));
  }

  lemma PutBack(m: map<string, Doc>, k: string)
    requires k in m
    ensures (m - {k})[k := m[k]] == m
  {
  }

  /** Two sorted lists with the same members are the same list. */
  lemma SortedUnique(x: seq<Member>, y: seq<Member>, cs: bool)
    requires StrictlyBefore(x, cs) && StrictlyBefore(y, cs) && DistinctKeys(x, cs)
    requires forall m :: m in x <==> m in y
    ensures x == y
  {
    assert Keys(x, cs) == Keys(y, cs);
    SortedAligned(x, y, cs);
    forall i | 0 <= i < |x| ensures x[i] == y[i] {
      assert y[i] in x;
      var j :| 0 <= j < |x| && x[j] == y[i];
    }
  }

  /** A key before the head of a sorted list is not in the list. */
  lemma BeforeHead(k: string, ms: seq<Member>, cs: bool)
    requires StrictlyBefore(ms, cs) && (ms == [] || Before(k, Fold(ms[0].key, cs)))
    ensures k !in Keys(ms, cs)
  {
    if ms != [] {
      KeysTail(ms, cs);
      forall fk | fk in Keys(ms, cs) ensures fk != k {
        BeforeTrichotomy(k, k);
        if fk != Fold(ms[0].key, cs) {
          BeforeTransitive(k, Fold(ms[0].key, cs), fk);
        }
      }
    }
  }

  // ---- sorting without one member ----

  lemma DropSorted(s: seq<Member>, k: nat, cs: bool)
    requires k < |s| && StrictlyBefore(s, cs)
    ensures StrictlyBefore(DropAt(s, k), cs)
  {
    var r := DropAt(s, k);
    forall p, q | 0 <= p < q < |r| ensures Before(Fold(r[p].key, cs), Fold(r[q].key, cs)) {
      DropIndex(s, k, p);
      DropIndex(s, k, q);
    }
  }

  lemma DroppedMembers(ms: seq<Member>, i: nat, m: Member, cs: bool)
    requires i < |ms| && DistinctKeys(ms, cs)
    ensures m in DropAt(ms, i) <==> m in ms && m != ms[i]
  {
    DropDistinct(ms, i, cs);
    DropMember(ms, i, m);
  }

  lemma SortedDrop(ms: seq<Member>, i: nat, cs: bool) returns (k: nat)
    requires i < |ms| && DistinctKeys(ms, cs)
    ensures k < |SortMembers(ms, cs)| && SortMembers(ms, cs)[k] == ms[i]
    ensures StrictlyBefore(SortMembers(ms, cs), cs)
    ensures SortMembers(DropAt(ms, i), cs) == DropAt(SortMembers(ms, cs), k)
  {
    hide SortMembers, Fold;
    var s, r := SortMembers(ms, cs), SortMembers(DropAt(ms, i), cs);
    SortedFacts(ms, cs);
    assert ms[i] in s;
    k :| 0 <= k < |s| && s[k] == ms[i];
    DropDistinct(ms, i, cs);
    DropDistinct(s, k, cs);
    DropSorted(s, k, cs);
    SortedFacts(DropAt(ms, i), cs);
    forall m ensures m in DropAt(s, k) <==> m in r {
      DroppedMembers(ms, i, m, cs);
      DroppedMembers(s, k, m, cs);
    }
    SortedUnique(DropAt(s, k), r, cs);
  }
}
