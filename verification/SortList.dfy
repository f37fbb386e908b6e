/** sort_list: the merge sort of cJSON_Utils.c, as a function on sequences and on linked nodes. */
module SortList {
  import opened Text

  // ---- the algorithm on sequences ----

  predicate StrictlyAscending<T>(xs: seq<T>, key: T -> string, cs: bool) {
    forall i | 0 <= i < |xs| - 1 :: CompareStrings(key(xs[i]), key(xs[i + 1]), cs) < 0
  }

  function Merge<T>(a: seq<T>, b: seq<T>, key: T -> string, cs: bool): seq<T> {
    if a == [] then b
    else if b == [] then a
    else if CompareStrings(key(a[0]), key(b[0]), cs) < 0 then [a[0]] + Merge(a[1..], b, key, cs)
    else [b[0]] + Merge(a, b[1..], key, cs)
  }

  function Sort<T>(xs: seq<T>, key: T -> string, cs: bool): seq<T>
    decreases |xs|
  {
    if |xs| <= 1 || StrictlyAscending(xs, key, cs) then xs
    else
      var mid := (|xs| + 1) / 2;
      Merge(Sort(xs[..mid], key, cs), Sort(xs[mid..], key, cs), key, cs)
  }

  // ---- a sort: ordered and a permutation ----

  /** No later element's key comes before an earlier one's. */
  ghost predicate Ordered<T>(xs: seq<T>, key: T -> string, cs: bool) {
    forall i, j | 0 <= i < j < |xs| :: !Before(Fold(key(xs[j]), cs), Fold(key(xs[i]), cs))
  }

  lemma {:induction false} MergePermutes<T>(a: seq<T>, b: seq<T>, key: T -> string, cs: bool)
    ensures multiset(Merge(a, b, key, cs)) == multiset(a) + multiset(b)
  {
    if a != [] && b != [] {
      assert a == [a[0]] + a[1..] && b == [b[0]] + b[1..];
      if CompareStrings(key(a[0]), key(b[0]), cs) < 0 {
        MergePermutes(a[1..], b, key, cs);
      } else {
        MergePermutes(a, b[1..], key, cs);
      }
    }
  }

  lemma HalvesMultiset<T>(xs: seq<T>, mid: nat)
    requires mid <= |xs|
    ensures multiset(xs) == multiset(xs[..mid]) + multiset(xs[mid..])
  {
    assert xs == xs[..mid] + xs[mid..];
  }

  lemma {:induction false} SortPermutes<T>(xs: seq<T>, key: T -> string, cs: bool)
    ensures multiset(Sort(xs, key, cs)) == multiset(xs)
    decreases |xs|
  {
    if !(|xs| <= 1 || StrictlyAscending(xs, key, cs)) {
      var mid := (|xs| + 1) / 2;
      HalvesMultiset(xs, mid);
      SortPermutes(xs[..mid], key, cs);
      SortPermutes(xs[mid..], key, cs);
      MergePermutes(Sort(xs[..mid], key, cs), Sort(xs[mid..], key, cs), key, cs);
    }
  }

  lemma {:induction false} AscendingOrdered<T>(xs: seq<T>, i: nat, j: nat, key: T -> string, cs: bool)
    requires StrictlyAscending(xs, key, cs) && i < j < |xs|
    ensures Before(Fold(key(xs[i]), cs), Fold(key(xs[j]), cs))
    decreases j
  {
    CompareStringsOrder(key(xs[j - 1]), key(xs[j - 1 + 1]), cs);
    if i < j - 1 {
      AscendingOrdered(xs, i, j - 1, key, cs);
      BeforeTransitive(Fold(key(xs[i]), cs), Fold(key(xs[j - 1]), cs), Fold(key(xs[j]), cs));
    }
  }

  /** An element that precedes everything may be put in front of an ordered sequence. */
  lemma ConsOrdered<T>(x: T, ys: seq<T>, key: T -> string, cs: bool)
    requires Ordered(ys, key, cs)
    requires forall y | y in ys :: !Before(Fold(key(y), cs), Fold(key(x), cs))
    ensures Ordered([x] + ys, key, cs)
  {
    var zs := [x] + ys;
    forall i, j | 0 <= i < j < |zs| ensures !Before(Fold(key(zs[j]), cs), Fold(key(zs[i]), cs)) {
      assert zs[j] == ys[j - 1] && ys[j - 1] in ys;
    }
  }

  lemma NotBeforeTransitive(a: string, b: string, c: string)
    requires !Before(b, a) && !Before(c, b)
    ensures !Before(c, a)
  {
    BeforeTrichotomy(a, b);
    BeforeTrichotomy(b, c);
    BeforeTrichotomy(a, c);
    if Before(a, b) && Before(b, c) {
      BeforeTransitive(a, b, c);
    }
  }

  /** What does not come after the head of an ordered sequence comes after none of it. */
  lemma HeadBound<T>(x: T, ys: seq<T>, y: T, key: T -> string, cs: bool)
    requires Ordered(ys, key, cs) && y in ys
    requires !Before(Fold(key(ys[0]), cs), Fold(key(x), cs))
    ensures !Before(Fold(key(y), cs), Fold(key(x), cs))
  {
    var i :| 0 <= i < |ys| && ys[i] == y;
    if i > 0 {
      NotBeforeTransitive(Fold(key(x), cs), Fold(key(ys[0]), cs), Fold(key(y), cs));
    }
  }

  lemma MergeMember<T>(a: seq<T>, b: seq<T>, y: T, key: T -> string, cs: bool)
    requires y in Merge(a, b, key, cs)
    ensures y in a || y in b
  {
    MergePermutes(a, b, key, cs);
    assert y in multiset(Merge(a, b, key, cs));
  }

  /** The smaller head, in front of the merge of what is left. */
  lemma MergeStepOrdered<T>(x: T, a: seq<T>, b: seq<T>, key: T -> string, cs: bool)
    requires Ordered(a, key, cs) && Ordered(b, key, cs) && Ordered(Merge(a, b, key, cs), key, cs)
    requires a != [] ==> !Before(Fold(key(a[0]), cs), Fold(key(x), cs))
    requires b != [] ==> !Before(Fold(key(b[0]), cs), Fold(key(x), cs))
    ensures Ordered([x] + Merge(a, b, key, cs), key, cs)
  {
    forall y | y in Merge(a, b, key, cs) ensures !Before(Fold(key(y), cs), Fold(key(x), cs)) {
      MergeMember(a, b, y, key, cs);
      if y in a {
        HeadBound(x, a, y, key, cs);
      } else {
        HeadBound(x, b, y, key, cs);
      }
    }
    ConsOrdered(x, Merge(a, b, key, cs), key, cs);
  }

  lemma {:induction false} MergeOrdered<T>(a: seq<T>, b: seq<T>, key: T -> string, cs: bool)
    requires Ordered(a, key, cs) && Ordered(b, key, cs)
    ensures Ordered(Merge(a, b, key, cs), key, cs)
  {
    if a != [] && b != [] {
      CompareStringsOrder(key(a[0]), key(b[0]), cs);
      BeforeTrichotomy(Fold(key(a[0]), cs), Fold(key(b[0]), cs));
      if CompareStrings(key(a[0]), key(b[0]), cs) < 0 {
        MergeOrdered(a[1..], b, key, cs);
        MergeStepOrdered(a[0], a[1..], b, key, cs);
      } else {
        MergeOrdered(a, b[1..], key, cs);
        MergeStepOrdered(b[0], a, b[1..], key, cs);
      }
    }
  }

  /** sort_list leaves its elements ordered by compare_strings, in either case mode. */
  lemma {:induction false} SortOrdered<T>(xs: seq<T>, key: T -> string, cs: bool)
    ensures Ordered(Sort(xs, key, cs), key, cs)
    decreases |xs|
  {
    if |xs| <= 1 {
    } else if StrictlyAscending(xs, key, cs) {
      forall i, j | 0 <= i < j < |xs| ensures !Before(Fold(key(xs[j]), cs), Fold(key(xs[i]), cs)) {
        AscendingOrdered(xs, i, j, key, cs);
        BeforeTrichotomy(Fold(key(xs[i]), cs), Fold(key(xs[j]), cs));
      }
    } else {
      var mid := (|xs| + 1) / 2;
      SortOrdered(xs[..mid], key, cs);
      SortOrdered(xs[mid..], key, cs);
      MergeOrdered(Sort(xs[..mid], key, cs), Sort(xs[mid..], key, cs), key, cs);
    }
  }

  // ---- equal keys end up in reverse order ----

  /** The elements with a folded key, in their order. */
  function With<T>(xs: seq<T>, fk: string, key: T -> string, cs: bool): seq<T> {
    if xs == [] then []
    else (if Fold(key(xs[0]), cs) == fk then [xs[0]] else []) + With(xs[1..], fk, key, cs)
  }

  function Reversed<T>(xs: seq<T>): seq<T> {
    if xs == [] then [] else Reversed(xs[1..]) + [xs[0]]
  }

  lemma {:induction false} WithSplit<T>(a: seq<T>, b: seq<T>, fk: string, key: T -> string, cs: bool)
    ensures With(a + b, fk, key, cs) == With(a, fk, key, cs) + With(b, fk, key, cs)
    decreases |a|
  {
    hide Fold;
    if a == [] {
      assert a + b == b;
    } else {
      assert (a + b)[0] == a[0] && (a + b)[1..] == a[1..] + b;
      WithSplit(a[1..], b, fk, key, cs);
      var head := if Fold(key(a[0]), cs) == fk then [a[0]] else [];
      assert With(a + b, fk, key, cs) == head + (With(a[1..], fk, key, cs) + With(b, fk, key, cs));
    }
  }

  lemma {:induction false} WithNone<T>(xs: seq<T>, fk: string, key: T -> string, cs: bool)
    requires forall x | x in xs :: Fold(key(x), cs) != fk
    ensures With(xs, fk, key, cs) == []
    decreases |xs|
  {
    if xs != [] {
      WithNone(xs[1..], fk, key, cs);
    }
  }

  lemma {:induction false} ReversedSplit<T>(a: seq<T>, b: seq<T>)
    ensures Reversed(a + b) == Reversed(b) + Reversed(a)
    decreases |a|
  {
    if a == [] {
      assert a + b == b;
    } else {
      assert (a + b)[1..] == a[1..] + b;
      ReversedSplit(a[1..], b);
    }
  }

  /** A key in front of an ordered sequence's first occurs nowhere in it. */
  lemma NotBehind<T>(x: T, ys: seq<T>, key: T -> string, cs: bool)
    requires ys != [] && Ordered(ys, key, cs) && Before(Fold(key(x), cs), Fold(key(ys[0]), cs))
    ensures With(ys, Fold(key(x), cs), key, cs) == []
  {
    forall y | y in ys ensures Fold(key(y), cs) != Fold(key(x), cs) {
      var i :| 0 <= i < |ys| && ys[i] == y;
      BeforeTrichotomy(Fold(key(x), cs), Fold(key(ys[0]), cs));
    }
    WithNone(ys, Fold(key(x), cs), key, cs);
  }

  lemma {:induction false} MergeWith<T>(a: seq<T>, b: seq<T>, fk: string, key: T -> string, cs: bool)
    requires Ordered(a, key, cs) && Ordered(b, key, cs)
    ensures With(Merge(a, b, key, cs), fk, key, cs) == With(b, fk, key, cs) + With(a, fk, key, cs)
  {
    hide With, Merge, Fold, Ordered, CompareStrings;
    MergeTurn(a, b, key, cs);
    if a == [] || b == [] {
      NoneWith(fk, key, cs);
      assert With(b, fk, key, cs) + [] == With(b, fk, key, cs);
    } else {
      CompareStringsOrder(key(a[0]), key(b[0]), cs);
      OrderedTail(a, key, cs);
      OrderedTail(b, key, cs);
      var w, v := With(a[1..], fk, key, cs), With(b[1..], fk, key, cs);
      WithHead(a, fk, key, cs);
      WithHead(b, fk, key, cs);
      if CompareStrings(key(a[0]), key(b[0]), cs) < 0 {
        MergeWith(a[1..], b, fk, key, cs);
        NotBehind(a[0], b, key, cs);
        WithHead([a[0]] + Merge(a[1..], b, key, cs), fk, key, cs);
        assert ([a[0]] + Merge(a[1..], b, key, cs))[1..] == Merge(a[1..], b, key, cs);
      } else {
        MergeWith(a, b[1..], fk, key, cs);
        WithHead([b[0]] + Merge(a, b[1..], key, cs), fk, key, cs);
        assert ([b[0]] + Merge(a, b[1..], key, cs))[1..] == Merge(a, b[1..], key, cs);
      }
    }
  }

  lemma NoneWith<T>(fk: string, key: T -> string, cs: bool)
    ensures With([], fk, key, cs) == []
  {
  }

  lemma WithHead<T>(xs: seq<T>, fk: string, key: T -> string, cs: bool)
    requires xs != []
    ensures With(xs, fk, key, cs)
      == (if Fold(key(xs[0]), cs) == fk then [xs[0]] else []) + With(xs[1..], fk, key, cs)
  {
  }

  lemma OrderedTail<T>(xs: seq<T>, key: T -> string, cs: bool)
    requires xs != [] && Ordered(xs, key, cs)
    ensures Ordered(xs[1..], key, cs)
  {
  }

  lemma MergeTurn<T>(a: seq<T>, b: seq<T>, key: T -> string, cs: bool)
    ensures a == [] ==> Merge(a, b, key, cs) == b
    ensures b == [] ==> Merge(a, b, key, cs) == a
    ensures a != [] && b != [] ==>
      Merge(a, b, key, cs)
      == if CompareStrings(key(a[0]), key(b[0]), cs) < 0 then [a[0]] + Merge(a[1..], b, key, cs)
         else [b[0]] + Merge(a, b[1..], key, cs)
  {
    hide CompareStrings;
  }

  lemma AscendingWith<T>(xs: seq<T>, fk: string, key: T -> string, cs: bool)
    requires |xs| <= 1 || StrictlyAscending(xs, key, cs)
    ensures |With(xs, fk, key, cs)| <= 1
    decreases |xs|
  {
    if |xs| > 1 {
      assert StrictlyAscending(xs[1..], key, cs) by {
        var tail := xs[1..];
        forall i | 0 <= i < |tail| - 1 ensures CompareStrings(key(tail[i]), key(tail[i + 1]), cs) < 0 {
          assert CompareStrings(key(xs[i + 1]), key(xs[i + 1 + 1]), cs) < 0;
        }
      }
      AscendingWith(xs[1..], fk, key, cs);
      if Fold(key(xs[0]), cs) == fk {
        forall y | y in xs[1..] ensures Fold(key(y), cs) != fk {
          var i :| 0 <= i < |xs| - 1 && xs[1..][i] == y;
          AscendingOrdered(xs, 0, i + 1, key, cs);
          BeforeTrichotomy(fk, fk);
        }
        WithNone(xs[1..], fk, key, cs);
      }
    } else if |xs| == 1 {
      assert xs[1..] == [];
    }
  }

  /**
   * The sort is not stable but the opposite: the elements with one key come out in reverse order. With
   * SortOrdered and SortPermutes this leaves one result only.
   */
  lemma {:induction false} SortReversesTies<T>(xs: seq<T>, fk: string, key: T -> string, cs: bool)
    ensures With(Sort(xs, key, cs), fk, key, cs) == Reversed(With(xs, fk, key, cs))
    decreases |xs|
  {
    hide With, Merge, Fold, StrictlyAscending, Reversed, Ordered;
    if |xs| <= 1 || StrictlyAscending(xs, key, cs) {
      AscendingWith(xs, fk, key, cs);
      ShortReversed(With(xs, fk, key, cs));
    } else {
      var mid := (|xs| + 1) / 2;
      var a, b := xs[..mid], xs[mid..];
      SortOrdered(a, key, cs);
      SortOrdered(b, key, cs);
      MergeWith(Sort(a, key, cs), Sort(b, key, cs), fk, key, cs);
      SortReversesTies(a, fk, key, cs);
      SortReversesTies(b, fk, key, cs);
      assert xs == a + b;
      WithSplit(a, b, fk, key, cs);
      ReversedSplit(With(a, fk, key, cs), With(b, fk, key, cs));
    }
  }

  lemma ShortReversed<T>(w: seq<T>)
    requires |w| <= 1
    ensures Reversed(w) == w
  {
    assert w != [] ==> w[1..] == [] && w == [w[0]];
  }

  // ---- the algorithm on linked nodes ----

  class ListNode {
    const key: string
    var next: ListNode?
    var prev: ListNode?

    constructor (key: string)
      ensures this.key == key && next == null && prev == null
    {
      this.key := key;
      next, prev := null, null;
    }
  }

  function NodeKey(n: ListNode): string { n.key }

  function Head(nodes: seq<ListNode>): ListNode? {
    if nodes == [] then null else nodes[0]
  }

  ghost predicate Distinct(nodes: seq<ListNode>) {
    forall i, j | 0 <= i < j < |nodes| :: nodes[i] != nodes[j]
  }

  /** The nodes are linked by next in this order, and every one but the head knows its predecessor. */
  ghost predicate Chain(nodes: seq<ListNode>)
    reads nodes
  {
    && Distinct(nodes)
    && (forall i {:trigger nodes[i].next} | 0 <= i < |nodes| ::
         nodes[i].next == if i + 1 < |nodes| then nodes[i + 1] else null)
    && (forall i {:trigger nodes[i].prev} | 1 <= i < |nodes| :: nodes[i].prev == nodes[i - 1])
  }

  /** The test whether a list is already sorted. */
  method IsAscending(list: ListNode, cs: bool, ghost nodes: seq<ListNode>) returns (r: bool)
    requires nodes != [] && Chain(nodes) && list == nodes[0]
    ensures r == StrictlyAscending(nodes, NodeKey, cs)
  {
    var current: ListNode := list;
    ghost var i := 0;
    while current.next != null && CompareStrings(current.key, current.next.key, cs) < 0
      invariant i < |nodes| && current == nodes[i]
      invariant forall k | 0 <= k < i :: CompareStrings(NodeKey(nodes[k]), NodeKey(nodes[k + 1]), cs) < 0
      decreases |nodes| - i
    {
      current := current.next;
      i := i + 1;
    }
    r := current.next == null;
    if !r {
      assert !(CompareStrings(NodeKey(nodes[i]), NodeKey(nodes[i + 1]), cs) < 0);
    }
  }

  /** The two-pointer walk to the middle of a list. */
  method Middle(list: ListNode, ghost nodes: seq<ListNode>) returns (second: ListNode?)
    requires |nodes| >= 2 && Chain(nodes) && list == nodes[0]
    ensures second == nodes[(|nodes| + 1) / 2]
  {
    second := list;
    var current: ListNode? := list;
    ghost var k := 0;
    while current != null
      invariant 2 * k <= |nodes| + 1
      invariant k <= |nodes|
      invariant second == if k < |nodes| then nodes[k] else null
      invariant current == if 2 * k < |nodes| then nodes[2 * k] else null
      decreases |nodes| + 1 - 2 * k
    {
      assert nodes[k].next == if k + 1 < |nodes| then nodes[k + 1] else null;
      second := second.next;
      current := current.next;
      if current != null {
        assert current == nodes[2 * k + 1];
        current := current.next;
      }
      k := k + 1;
    }
  }

  /** Chain without the end: the nodes are linked both ways among themselves. */
  ghost predicate Linked(nodes: seq<ListNode>)
    reads nodes
  {
    && (forall i {:trigger nodes[i].next} | 0 <= i < |nodes| - 1 :: nodes[i].next == nodes[i + 1])
    && (forall i {:trigger nodes[i].prev} | 1 <= i < |nodes| :: nodes[i].prev == nodes[i - 1])
  }

  /** A merge in progress: what has been merged, and the two lists that remain. */
  ghost predicate Merging(done: seq<ListNode>, f: seq<ListNode>, s: seq<ListNode>)
    reads done, f, s
  {
    && Linked(done) && Distinct(done) && Chain(f) && Chain(s)
    && Apart(done, f) && Apart(done, s) && Apart(f, s)
  }

  /** Moving the head of one list behind the merged nodes. */
  method Attach(start: ListNode?, tail: ListNode, node: ListNode, ghost done: seq<ListNode>,
        ghost own: seq<ListNode>, ghost other: seq<ListNode>)
    returns (start': ListNode)
    requires Merging(done, own, other) && own != [] && node == own[0]
    requires start == Head(done) && (done != [] ==> tail == done[|done| - 1])
    modifies if done == [] then {} else {tail, node}
    ensures Merging(done + [node], own[1..], other)
    ensures start' == (done + [node])[0]
    ensures node.next == Head(own[1..])
  {
    if start == null {
      start' := node;
    } else {
      start' := start;
      tail.next := node;
      node.prev := tail;
    }
  }

  /** Closing a merge: the rest of one list follows the merged nodes. */
  method AttachRest(tail: ListNode, rest: ListNode, ghost done: seq<ListNode>, ghost own: seq<ListNode>)
    requires done != [] && tail == done[|done| - 1] && rest == Head(own)
    requires Linked(done) && Chain(own) && Distinct(done) && Apart(done, own)
    modifies tail, rest
    ensures Chain(done + own)
  {
    tail.next := rest;
    rest.prev := tail;
  }

  lemma Associate<T>(a: seq<T>, x: T, b: seq<T>)
    ensures a + ([x] + b) == (a + [x]) + b
  {
  }

  /** One round of the merge moves one element behind those already merged. */
  lemma MergeHead(done: seq<ListNode>, f: seq<ListNode>, s: seq<ListNode>, cs: bool)
    requires f != [] && s != []
    ensures done + Merge(f, s, NodeKey, cs)
         == if CompareStrings(f[0].key, s[0].key, cs) < 0
            then (done + [f[0]]) + Merge(f[1..], s, NodeKey, cs)
            else (done + [s[0]]) + Merge(f, s[1..], NodeKey, cs)
  {
    if CompareStrings(f[0].key, s[0].key, cs) < 0 {
      Associate(done, f[0], Merge(f[1..], s, NodeKey, cs));
    } else {
      Associate(done, s[0], Merge(f, s[1..], NodeKey, cs));
    }
  }

  ghost function NodeSet(nodes: seq<ListNode>): set<ListNode> {
    set n | n in nodes
  }

  /** One round of the merge loop. */
  method MergeStep(first: ListNode, second: ListNode, start: ListNode?, tail: ListNode, cs: bool,
                   ghost done: seq<ListNode>, ghost f: seq<ListNode>, ghost s: seq<ListNode>, ghost all: set<ListNode>)
    returns (first': ListNode?, second': ListNode?, start': ListNode, tail': ListNode,
             ghost f': seq<ListNode>, ghost s': seq<ListNode>)
    requires Merging(done, f, s) && f != [] && s != [] && first == f[0] && second == s[0]
    requires start == Head(done) && (done != [] ==> tail == done[|done| - 1])
    requires NodeSet(done) + NodeSet(f) + NodeSet(s) == all
    modifies all
    ensures tail' == if CompareStrings(first.key, second.key, cs) < 0 then first else second
    ensures f' == if tail' == first then f[1..] else f
    ensures s' == if tail' == first then s else s[1..]
    ensures Merging(done + [tail'], f', s')
    ensures first' == Head(f') && second' == Head(s')
    ensures start' == (done + [tail'])[0]
    ensures NodeSet(done + [tail']) + NodeSet(f') + NodeSet(s') == all
  {
    if CompareStrings(first.key, second.key, cs) < 0 {
      start' := Attach(start, tail, first, done, f, s);
      tail', first', second' := first, first.next, second;
      f', s' := f[1..], s;
    } else {
      start' := Attach(start, tail, second, done, s, f);
      tail', first', second' := second, first, second.next;
      f', s' := f, s[1..];
    }
  }

  lemma MergeStart(as_: seq<ListNode>, bs: seq<ListNode>, cs: bool)
    requires Chain(as_) && Chain(bs) && Apart(as_, bs)
    ensures Merging([], as_, bs) && [] + Merge(as_, bs, NodeKey, cs) == Merge(as_, bs, NodeKey, cs)
    ensures NodeSet([]) + NodeSet(as_) + NodeSet(bs) == NodeSet(as_) + NodeSet(bs)
  {
  }

  lemma HeadOf<T>(a: seq<T>, b: seq<T>)
    requires a != []
    ensures a + b != [] && (a + b)[0] == a[0]
  {
  }

  /** Merging two lists link by link. */
  method MergeLists(a: ListNode, b: ListNode, cs: bool, ghost as_: seq<ListNode>, ghost bs: seq<ListNode>)
    returns (result: ListNode, ghost out: seq<ListNode>)
    requires as_ != [] && bs != [] && Chain(as_) && Chain(bs) && Apart(as_, bs)
    requires a == as_[0] && b == bs[0]
    modifies NodeSet(as_) + NodeSet(bs)
    ensures out == Merge(as_, bs, NodeKey, cs)
    ensures Chain(out) && out != [] && result == out[0]
  {
    MergeStart(as_, bs, cs);
    hide Merge, Merging, Linked, Chain, Distinct, Apart, NodeKey, NodeSet, CompareStrings;
    var first: ListNode?, second: ListNode? := a, b;
    var start: ListNode?, tail: ListNode := null, a;
    ghost var done: seq<ListNode>, f, s := [], as_, bs;
    ghost var all, goal := NodeSet(as_) + NodeSet(bs), Merge(as_, bs, NodeKey, cs);
    while first != null && second != null
      invariant Merging(done, f, s)
      invariant first == Head(f) && second == Head(s)
      invariant NodeSet(done) + NodeSet(f) + NodeSet(s) == all
      invariant if done == [] then f != [] && s != [] else f != [] || s != []
      invariant start == Head(done) && (done != [] ==> tail == done[|done| - 1])
      invariant done + Merge(f, s, NodeKey, cs) == goal
      decreases |f| + |s|
    {
      MergeHead(done, f, s, cs);
      first, second, start, tail, f, s := MergeStep(first, second, start, tail, cs, done, f, s, all);
      done := done + [tail];
    }
    FinishMerge(first, second, tail, cs, done, f, s, all);
    result, out := start, goal;
    HeadOf(done, Merge(f, s, NodeKey, cs));
  }

  /** The two appends after the merge loop. */
  method FinishMerge(first: ListNode?, second: ListNode?, tail: ListNode, cs: bool,
                     ghost done: seq<ListNode>, ghost f: seq<ListNode>, ghost s: seq<ListNode>,
                     ghost all: set<ListNode>)
    requires Merging(done, f, s) && first == Head(f) && second == Head(s) && (f == [] <==> s != [])
    requires done != [] && tail == done[|done| - 1] && NodeSet(done) + NodeSet(f) + NodeSet(s) == all
    modifies all
    ensures Chain(done + Merge(f, s, NodeKey, cs))
  {
    if first != null {
      AttachRest(tail, first, done, f);
    }
    if second != null {
      AttachRest(tail, second, done, s);
    }
  }

  /** Cutting a list in front of its middle node. */
  method Split(second: ListNode, ghost nodes: seq<ListNode>, ghost mid: nat)
    requires 0 < mid < |nodes| && Chain(nodes) && second == nodes[mid]
    modifies NodeSet(nodes)
    ensures Chain(nodes[..mid]) && Chain(nodes[mid..]) && Apart(nodes[..mid], nodes[mid..])
  {
    assert second.prev == nodes[mid - 1];
    second.prev.next := null;
    second.prev := null;
  }

  /** sort_list: the same nodes, relinked in the order the sequence sort gives. */
  method SortNodes(list: ListNode?, cs: bool, ghost nodes: seq<ListNode>)
    returns (result: ListNode?, ghost out: seq<ListNode>)
    requires Chain(nodes) && list == Head(nodes)
    modifies NodeSet(nodes)
    ensures out == Sort(nodes, NodeKey, cs)
    ensures multiset(out) == multiset(nodes)
    ensures Chain(out) && result == Head(out)
    decreases |nodes|, 1
  {
    if list == null || list.next == null {
      return list, nodes;
    }
    var ascending := IsAscending(list, cs, nodes);
    if ascending {
      return list, nodes;
    }
    SortPermutes(nodes, NodeKey, cs);
    var second := Middle(list, nodes);
    ghost var mid := (|nodes| + 1) / 2;
    ghost var left, right := nodes[..mid], nodes[mid..];
    Split(second, nodes, mid);
    assert NodeSet(left) <= NodeSet(nodes) && NodeSet(right) <= NodeSet(nodes);
    result, out := SortHalves(list, second, cs, left, right);
  }

  /** The recursive sorts of the two halves and their merge. */
  method SortHalves(list: ListNode, second: ListNode, cs: bool, ghost left: seq<ListNode>, ghost right: seq<ListNode>)
    returns (result: ListNode, ghost out: seq<ListNode>)
    requires left != [] && right != [] && Chain(left) && Chain(right) && Apart(left, right)
    requires list == left[0] && second == right[0]
    modifies NodeSet(left) + NodeSet(right)
    ensures out == Merge(Sort(left, NodeKey, cs), Sort(right, NodeKey, cs), NodeKey, cs)
    ensures Chain(out) && out != [] && result == out[0]
    decreases |left| + |right|, 0
  {
    var a, sortedLeft := SortNodes(list, cs, left);
    SameNodes(left, sortedLeft, right);
    var b, sortedRight := SortNodes(second, cs, right);
    SameNodes(right, sortedRight, sortedLeft);
    result, out := MergeLists(a, b, cs, sortedLeft, sortedRight);
  }

  /** A rearrangement of xs is as far from ys as xs is. */
  lemma SameNodes(xs: seq<ListNode>, xs': seq<ListNode>, ys: seq<ListNode>)
    requires multiset(xs) == multiset(xs') && Apart(xs, ys)
    ensures Apart(xs', ys) && Apart(ys, xs')
    ensures NodeSet(xs) == NodeSet(xs') && (xs == [] <==> xs' == [])
  {
    forall n ensures n in xs <==> n in xs' {
      assert n in multiset(xs') <==> n in multiset(xs);
    }
    forall i, j | 0 <= i < |xs'| && 0 <= j < |ys| ensures xs'[i] != ys[j] {
      assert xs'[i] in xs;
    }
    assert |multiset(xs)| == |xs| && |multiset(xs')| == |xs'|;
  }

  ghost predicate Apart(xs: seq<ListNode>, ys: seq<ListNode>) {
    forall i, j | 0 <= i < |xs| && 0 <= j < |ys| :: xs[i] != ys[j]
  }
}
