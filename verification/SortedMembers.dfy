/** What sorting does to the members of an object: their order, and nothing of their meaning. */
module SortedMembers {
  import opened Text
  import opened JsonTree
  import opened SortList

  function MemberKey(m: Member): string { m.key }

  /** sort_object */
  function SortMembers(ms: seq<Member>, cs: bool): seq<Member> {
    Sort(ms, MemberKey, cs)
  }

  lemma TwiceInSequence<T>(s: seq<T>, i: nat, j: nat)
    requires i < j < |s| && s[i] == s[j]
    ensures multiset(s)[s[i]] >= 2
  {
    assert s == s[..j] + [s[j]] + s[j + 1..];
    assert s[i] in s[..j];
  }

  lemma {:induction false} TwiceInMultiset<T>(s: seq<T>, x: T) returns (i: nat, j: nat)
    requires multiset(s)[x] >= 2
    ensures i < j < |s| && s[i] == s[j] == x
  {
    var last := |s| - 1;
    assert s == s[..last] + [s[last]];
    if multiset(s[..last])[x] >= 2 {
      i, j := TwiceInMultiset(s[..last], x);
    } else {
      assert x in s[..last];
      i :| 0 <= i < last && s[i] == x;
      j := last;
    }
  }

  lemma DistinctPermutation(ms: seq<Member>, ms': seq<Member>, cs: bool)
    requires multiset(ms) == multiset(ms') && DistinctKeys(ms, cs)
    ensures DistinctKeys(ms', cs)
  {
    forall i, j | 0 <= i < j < |ms'| ensures Fold(ms'[i].key, cs) != Fold(ms'[j].key, cs) {
      if Fold(ms'[i].key, cs) == Fold(ms'[j].key, cs) {
        assert ms'[i] in multiset(ms) && ms'[j] in multiset(ms);
        var p :| 0 <= p < |ms| && ms[p] == ms'[i];
        var q :| 0 <= q < |ms| && ms[q] == ms'[j];
        TwiceInSequence(ms', i, j);
        var a, b := TwiceInMultiset(ms, ms'[i]);
      }
    }
  }

  lemma IncludedMeaning(ms: seq<Member>, ms': seq<Member>, fk: string, cs: bool)
    requires DistinctKeys(ms', cs) && fk in Meanings(ms, cs)
    requires forall m | m in ms :: m in ms'
    ensures fk in Meanings(ms', cs) && Meanings(ms', cs)[fk] == Meanings(ms, cs)[fk]
  {
    var i := MeaningsKey(ms, fk, cs);
    assert ms[i] in ms';
    var j :| 0 <= j < |ms'| && ms'[j] == ms[i];
    MeaningAt(ms', j, cs);
  }

  /** With pairwise different keys, the same members mean the same in any order. */
  lemma SameMembersMeaning(ms: seq<Member>, ms': seq<Member>, cs: bool)
    requires DistinctKeys(ms, cs) && DistinctKeys(ms', cs)
    requires forall m :: m in ms <==> m in ms'
    ensures Meanings(ms', cs) == Meanings(ms, cs)
  {
    var a, b := Meanings(ms, cs), Meanings(ms', cs);
    forall fk | fk in a ensures fk in b && b[fk] == a[fk] { IncludedMeaning(ms, ms', fk, cs); }
    forall fk | fk in b ensures fk in a && b[fk] == a[fk] { IncludedMeaning(ms', ms, fk, cs); }
  }

  ghost predicate StrictlyBefore(ms: seq<Member>, cs: bool) {
    forall i, j | 0 <= i < j < |ms| :: Before(Fold(ms[i].key, cs), Fold(ms[j].key, cs))
  }

  lemma SortDistinct(ms: seq<Member>, cs: bool)
    requires DistinctKeys(ms, cs)
    ensures DistinctKeys(SortMembers(ms, cs), cs) && StrictlyBefore(SortMembers(ms, cs), cs)
  {
    var s := SortMembers(ms, cs);
    SortPermutes(ms, MemberKey, cs);
    SortOrdered(ms, MemberKey, cs);
    DistinctPermutation(ms, s, cs);
    forall i, j | 0 <= i < j < |s| ensures Before(Fold(s[i].key, cs), Fold(s[j].key, cs)) {
      assert !Before(Fold(MemberKey(s[j]), cs), Fold(MemberKey(s[i]), cs));
      BeforeTrichotomy(Fold(s[i].key, cs), Fold(s[j].key, cs));
    }
  }

  /** The sorted object has exactly the members of the object. */
  lemma SortedMembersOf(ms: seq<Member>, cs: bool)
    ensures |SortMembers(ms, cs)| == |ms|
    ensures forall m :: m in SortMembers(ms, cs) <==> m in ms
  {
    SortPermutes(ms, MemberKey, cs);
    var s := SortMembers(ms, cs);
    forall m ensures m in s <==> m in ms {
      assert m in multiset(s) <==> m in multiset(ms);
    }
    assert |multiset(s)| == |s|;
  }

  /** sort_object: same members, same meaning, keys strictly increasing. */
  lemma SortedFacts(ms: seq<Member>, cs: bool)
    requires DistinctKeys(ms, cs)
    ensures DistinctKeys(SortMembers(ms, cs), cs) && StrictlyBefore(SortMembers(ms, cs), cs)
    ensures Meanings(SortMembers(ms, cs), cs) == Meanings(ms, cs)
    ensures |SortMembers(ms, cs)| == |ms| && forall m :: m in SortMembers(ms, cs) <==> m in ms
  {
    SortDistinct(ms, cs);
    SortedMembersOf(ms, cs);
    SameMembersMeaning(ms, SortMembers(ms, cs), cs);
  }
}
