/** cJSON_Duplicate_rec on linked nodes: a deep copy that shares nothing and is linked as every tree is. */
module DuplicateTree {
  import opened JsonTree

  /** The values of a cJSON struct that a duplicate copies. */
  datatype Payload = Payload(kind: nat, valueDouble: real, valueString: Option<string>, name: Option<string>)

  class Item {
    const payload: Payload
    var next: Item?
    var prev: Item?
    var child: Item?

    constructor (payload: Payload)
      ensures this.payload == payload && next == null && prev == null && child == null
    {
      this.payload := payload;
      next, prev, child := null, null, null;
    }
  }

  /** Which nodes make up a tree, and how they hang together. */
  datatype Shape = Shape(node: Item, kids: seq<Shape>)

  ghost function Nodes(s: Shape): set<Item>
    decreases s
  {
    {s.node} + Below(s.kids)
  }

  ghost function Below(kids: seq<Shape>): set<Item>
    decreases kids
  {
    if kids == [] then {} else Below(kids[..|kids| - 1]) + Nodes(kids[|kids| - 1])
  }

  lemma {:induction false} BelowHas(kids: seq<Shape>)
    ensures forall k | 0 <= k < |kids| :: kids[k].node in Below(kids) && Nodes(kids[k]) <= Below(kids)
  {
    if kids != [] {
      BelowHas(kids[..|kids| - 1]);
    }
  }

  lemma BelowMore(kids: seq<Shape>, t: Shape)
    ensures Below(kids + [t]) == Below(kids) + Nodes(t)
  {
    assert (kids + [t])[..|kids|] == kids;
  }

  /** No node occurs twice. */
  ghost predicate Apart(node: Item, kids: seq<Shape>) {
    node !in Below(kids) && AllApart(kids)
  }

  ghost predicate AllApart(kids: seq<Shape>) {
    forall i, j | 0 <= i < j < |kids| :: Nodes(kids[i]) !! Nodes(kids[j])
  }

  lemma AllApartMore(kids: seq<Shape>, t: Shape)
    requires AllApart(kids) && Below(kids) !! Nodes(t)
    ensures AllApart(kids + [t])
  {
    hide Nodes, Below;
    BelowHas(kids);
    var all := kids + [t];
    forall i, j | 0 <= i < j < |all| ensures Nodes(all[i]) !! Nodes(all[j]) {
      assert Nodes(all[i]) <= Below(kids);
    }
  }

  /** The root of one tree of a list lies below none of them. */
  lemma RootOutside(kids: seq<Shape>, j: nat, k: nat)
    requires AllApart(kids) && j < |kids| && k < |kids| && kids[j].node !in Below(kids[j].kids)
    ensures kids[j].node !in Below(kids[k].kids)
  {
    hide Nodes, Below;
    NodesOf(kids[j]);
    NodesOf(kids[k]);
    if j < k {
      assert kids[j].node in Nodes(kids[j]);
    } else if k < j {
      assert kids[j].node in Nodes(kids[j]);
    }
  }

  lemma NodesOf(s: Shape)
    ensures Nodes(s) == {s.node} + Below(s.kids)
  {
  }

  /** Siblings linked in order; the first one's prev is the given node. */
  ghost predicate Linked(kids: seq<Shape>, first: Item?)
    reads Below(kids)
  {
    BelowHas(kids);
    && (forall i {:trigger kids[i].node.next} | 0 <= i < |kids| ::
         kids[i].node.next == if i + 1 < |kids| then kids[i + 1].node else null)
    && (forall i {:trigger kids[i].node.prev} | 0 <= i < |kids| ::
         kids[i].node.prev == if i > 0 then kids[i - 1].node else first)
  }

  function FirstNode(kids: seq<Shape>): Item? { if kids == [] then null else kids[0].node }
  function LastNode(kids: seq<Shape>): Item? { if kids == [] then null else kids[|kids| - 1].node }

  /** A well-linked tree: in every child list the head's prev is the tail. */
  ghost predicate Tree(s: Shape)
    reads s.node`child, Below(s.kids)
    decreases s
  {
    BelowHas(s.kids);
    && s.node.child == FirstNode(s.kids)
    && Apart(s.node, s.kids)
    && Linked(s.kids, LastNode(s.kids))
    && forall k | 0 <= k < |s.kids| :: Tree(s.kids[k])
  }

  /** The same values in the same places. */
  ghost predicate SameValues(a: Shape, b: Shape) {
    a.node.payload == b.node.payload && |a.kids| == |b.kids|
    && forall k | 0 <= k < |a.kids| :: SameValues(a.kids[k], b.kids[k])
  }

  ghost function ShapeHeight(s: Shape): nat {
    if s.kids == [] then 0 else 1 + KidsHeight(s.kids)
  }

  ghost function KidsHeight(kids: seq<Shape>): nat {
    if kids == [] then 0 else Max(ShapeHeight(kids[0]), KidsHeight(kids[1..]))
  }

  lemma {:induction false} KidsHeightBound(kids: seq<Shape>, k: nat)
    requires k < |kids|
    ensures ShapeHeight(kids[k]) <= KidsHeight(kids)
  {
    if k > 0 {
      KidsHeightBound(kids[1..], k - 1);
    }
  }

  lemma {:induction false} KidsHeightReached(kids: seq<Shape>, limit: nat)
    requires forall k | 0 <= k < |kids| :: ShapeHeight(kids[k]) <= limit
    ensures KidsHeight(kids) <= limit
  {
    if kids != [] {
      KidsHeightReached(kids[1..], limit);
    }
  }

  /** The copies made so far: trees apart from each other, chained, the first one's prev still null. */
  ghost predicate Chained(copies: seq<Shape>)
    reads Below(copies)
  {
    BelowHas(copies);
    && AllApart(copies) && Linked(copies, null)
    && forall k | 0 <= k < |copies| :: Tree(copies[k])
  }

  /** The first copy becomes the child. */
  method AttachFirst(parent: Item, newChild: Item, ghost t: Shape)
    requires Tree(t) && t.node == newChild && newChild.next == null && newChild.prev == null && parent !in Nodes(t)
    modifies parent`child
    ensures Chained([t]) && parent.child == newChild
  {
    hide Nodes, Below, Tree;
    NodesOf(t);
    ChainedOne(t);
    parent.child := newChild;
  }

  lemma ChainedOne(t: Shape)
    requires Tree(t) && t.node.next == null && t.node.prev == null
    ensures Chained([t])
  {
    hide Tree;
  }

  /** Hanging one more copy behind the last one. */
  method AttachAfter(last: Item, newChild: Item, ghost copies: seq<Shape>, ghost t: Shape)
    requires Chained(copies) && copies != [] && last == copies[|copies| - 1].node
    requires Tree(t) && t.node == newChild && newChild.next == null && newChild.prev == null
    requires Below(copies) !! Nodes(t)
    modifies newChild`prev, last`next
    ensures Chained(copies + [t])
  {
    hide Nodes, Below, Tree, AllApart, Chained, Linked;
    ChainedFacts(copies);
    AllApartMore(copies, t);
    LinksOutside(copies, t);
    last.next := newChild;
    newChild.prev := last;
    assert forall k | 0 <= k < |copies| :: Tree(copies[k]);
    ChainedMore(copies, t);
  }

  lemma ChainedFacts(copies: seq<Shape>)
    requires Chained(copies)
    ensures AllApart(copies) && forall k | 0 <= k < |copies| :: Tree(copies[k])
    ensures forall i {:trigger copies[i].node.next} | 0 <= i < |copies| ::
      copies[i].node.next == if i + 1 < |copies| then copies[i + 1].node else null
    ensures forall i {:trigger copies[i].node.prev} | 0 <= i < |copies| ::
      copies[i].node.prev == if i > 0 then copies[i - 1].node else null
  {
  }

  /** The two nodes that are linked lie below no root, and are no other root. */
  lemma LinksOutside(copies: seq<Shape>, t: Shape)
    requires AllApart(copies) && copies != [] && Below(copies) !! Nodes(t) && Tree(t)
    requires forall k | 0 <= k < |copies| :: Tree(copies[k])
    ensures forall k | 0 <= k < |copies| ::
      t.node !in Below(copies[k].kids) && copies[|copies| - 1].node !in Below(copies[k].kids)
        && copies[k].node != t.node
    ensures t.node !in Below(t.kids) && copies[|copies| - 1].node !in Below(t.kids)
    ensures forall k | 0 <= k < |copies| - 1 :: copies[k].node != copies[|copies| - 1].node
  {
    hide Nodes, Below, Tree, AllApart;
    BelowHas(copies);
    NodesOf(t);
    RootApart(t);
    RootApart(copies[|copies| - 1]);
    RootsDistinct(copies);
    forall k | 0 <= k < |copies|
      ensures t.node !in Below(copies[k].kids)
      ensures copies[|copies| - 1].node !in Below(copies[k].kids) && copies[k].node != t.node
    {
      RootOutside(copies, |copies| - 1, k);
      NodesOf(copies[k]);
    }
  }

  /** The links of one more copy behind a chain. */
  lemma ChainedMore(copies: seq<Shape>, t: Shape)
    requires copies != [] && (forall k | 0 <= k < |copies| :: Tree(copies[k])) && Tree(t)
    requires AllApart(copies + [t])
    requires forall i {:trigger copies[i].node.next} | 0 <= i < |copies| ::
      copies[i].node.next == if i + 1 < |copies| then copies[i + 1].node else t.node
    requires forall i {:trigger copies[i].node.prev} | 0 <= i < |copies| ::
      copies[i].node.prev == if i > 0 then copies[i - 1].node else null
    requires t.node.next == null && t.node.prev == copies[|copies| - 1].node
    ensures Chained(copies + [t])
  {
    hide Nodes, Below, Tree, AllApart;
  }

  lemma RootsDistinct(kids: seq<Shape>)
    requires AllApart(kids) && kids != []
    ensures forall i | 0 <= i < |kids| - 1 :: kids[i].node != kids[|kids| - 1].node
  {
    hide Nodes, Below;
    forall i | 0 <= i < |kids| - 1 ensures kids[i].node != kids[|kids| - 1].node {
      NodesOf(kids[i]);
      NodesOf(kids[|kids| - 1]);
      assert kids[i].node in Nodes(kids[i]);
    }
  }

  lemma RootApart(s: Shape)
    requires Tree(s)
    ensures s.node !in Below(s.kids)
  {
  }

  /** The head's prev is set to the tail: the copy is a tree. */
  method Close(newItem: Item, ghost copies: seq<Shape>, last: Item?)
    requires Chained(copies) && newItem !in Below(copies)
    requires newItem.child == FirstNode(copies) && last == LastNode(copies)
    modifies (if newItem.child == null then {} else {newItem.child})`prev
    ensures Tree(Shape(newItem, copies))
  {
    hide Nodes, Below, Tree, AllApart;
    BelowHas(copies);
    if newItem.child != null {
      forall k | 0 <= k < |copies| ensures newItem.child !in Below(copies[k].kids) {
        RootApart(copies[0]);
        RootOutside(copies, 0, k);
      }
      newItem.child.prev := last;
    }
    assert forall k | 0 <= k < |copies| :: Tree(copies[k]);
    Closed(newItem, copies);
  }

  lemma Closed(newItem: Item, copies: seq<Shape>)
    requires newItem !in Below(copies) && newItem.child == FirstNode(copies)
    requires AllApart(copies) && Linked(copies, LastNode(copies)) && forall k | 0 <= k < |copies| :: Tree(copies[k])
    ensures Tree(Shape(newItem, copies))
  {
    hide Nodes, Below;
  }

  lemma TreeFacts(s: Shape)
    requires Tree(s)
    ensures s.node.child == FirstNode(s.kids)
    ensures forall k | 0 <= k < |s.kids| :: Tree(s.kids[k])
    ensures forall k {:trigger s.kids[k].node.next} | 0 <= k < |s.kids| ::
      s.kids[k].node.next == if k + 1 < |s.kids| then s.kids[k + 1].node else null
  {
  }

  /** cJSON_Duplicate_rec with recurse set. */
  method Duplicate(item: Item, depth: nat, ghost s: Shape) returns (copy: Item?, ghost s': Shape)
    requires Tree(s) && s.node == item && depth <= CJSON_CIRCULAR_LIMIT && (forall x | x in Nodes(s) :: allocated(x))
    ensures copy != null <==> depth + ShapeHeight(s) <= CJSON_CIRCULAR_LIMIT
    ensures copy != null ==> s'.node == copy && fresh(Nodes(s')) && (forall x | x in Nodes(s') :: allocated(x))
    ensures copy != null ==> Tree(s') && SameValues(s, s') && copy.next == null && copy.prev == null
    decreases s, 0, 1
  {
    hide Nodes, Below, Tree, Chained, SameValues, KidsHeight, Matched;
    var newItem := new Item(item.payload);
    NodesOf(s);
    assert newItem !in Nodes(s);
    ghost var copies;
    var ok, last;
    ok, last, copies := CopyChildren(newItem, item, depth, s);
    s' := s;
    if !ok {
      return null, s;
    }
    BelowHas(copies);
    assert newItem.child != null ==> newItem.child in Below(copies);
    Close(newItem, copies, last);
    s' := Shape(newItem, copies);
    NodesOf(s');
    MatchedAll(s.kids, copies, depth);
    SameRoot(s, s');
    copy := newItem;
  }

  /** The copies made so far match the first children, and none of those was too deep. */
  ghost predicate Matched(kids: seq<Shape>, copies: seq<Shape>, depth: nat) {
    && |copies| <= |kids|
    && forall k | 0 <= k < |copies| ::
      SameValues(kids[k], copies[k]) && depth + 1 + ShapeHeight(kids[k]) <= CJSON_CIRCULAR_LIMIT
  }

  lemma MatchedMore(kids: seq<Shape>, copies: seq<Shape>, more: seq<Shape>, depth: nat)
    requires Matched(kids, copies, depth) && |copies| < |kids| && |more| == |copies| + 1
    requires forall k | 0 <= k < |copies| :: more[k] == copies[k]
    requires SameValues(kids[|copies|], more[|copies|])
    requires depth + 1 + ShapeHeight(kids[|copies|]) <= CJSON_CIRCULAR_LIMIT
    ensures Matched(kids, more, depth)
  {
    hide SameValues, ShapeHeight;
  }

  lemma MatchedAll(kids: seq<Shape>, copies: seq<Shape>, depth: nat)
    requires Matched(kids, copies, depth) && |copies| == |kids|
    ensures kids == [] || depth + 1 + KidsHeight(kids) <= CJSON_CIRCULAR_LIMIT
    ensures forall k | 0 <= k < |kids| :: SameValues(kids[k], copies[k])
  {
    hide SameValues, ShapeHeight, KidsHeight;
    if kids != [] {
      assert depth + 1 + ShapeHeight(kids[0]) <= CJSON_CIRCULAR_LIMIT;
      KidsHeightReached(kids, CJSON_CIRCULAR_LIMIT - depth - 1);
    }
  }

  /** The child loop: copies of the children of an item, chained below the new item. */
  method CopyChildren(newItem: Item, item: Item, depth: nat, ghost s: Shape)
    returns (ok: bool, last: Item?, ghost copies: seq<Shape>)
    requires Tree(s) && s.node == item && depth <= CJSON_CIRCULAR_LIMIT && (forall x | x in Nodes(s) :: allocated(x))
    requires newItem.child == null && newItem !in Nodes(s)
    modifies newItem`child
    ensures ok <==> s.kids == [] || depth + 1 + KidsHeight(s.kids) <= CJSON_CIRCULAR_LIMIT
    ensures ok ==> Chained(copies) && newItem.child == FirstNode(copies) && last == LastNode(copies)
    ensures ok ==> fresh(Below(copies)) && newItem !in Below(copies) && forall x | x in Below(copies) :: allocated(x)
    ensures ok ==> Matched(s.kids, copies, depth) && |copies| == |s.kids|
    decreases s, 0, 0
  {
    hide Nodes, Below, Tree, Chained, SameValues, KidsHeight, ShapeHeight, Linked, AllApart, Matched;
    NodesOf(s);
    BelowHas(s.kids);
    TreeFacts(s);
    NothingChained();
    NothingMatched(s.kids, depth);
    var child := item.child;
    ok, last, copies := true, null, [];
    while child != null
      invariant ok && Matched(s.kids, copies, depth) && |copies| <= |s.kids|
      invariant Tree(s) && child == (if |copies| < |s.kids| then s.kids[|copies|].node else null)
      invariant fresh(Below(copies)) && (forall x | x in Below(copies) :: allocated(x)) && Chained(copies)
      invariant newItem.child == FirstNode(copies) && last == LastNode(copies)
      decreases |s.kids| - |copies|
    {
      ghost var kid := s.kids[|copies|];
      KidsHeightBound(s.kids, |copies|);
      if depth >= CJSON_CIRCULAR_LIMIT {
        ok := false;
        return;
      }
      TreeFacts(s);
      BelowHas(copies);
      var newChild, more := CopyChild(newItem, child, last, depth, kid, copies);
      if newChild == null {
        ok := false;
        return;
      }
      MatchedMore(s.kids, copies, more, depth);
      copies := more;
      last := newChild;
      child := child.next;
    }
    MatchedAll(s.kids, copies, depth);
  }

  lemma NothingMatched(kids: seq<Shape>, depth: nat)
    ensures Matched(kids, [], depth)
  {
  }

  /** One turn of the child loop: the copy of a child, hung behind the copies made so far. */
  method CopyChild(newItem: Item, child: Item, last: Item?, depth: nat, ghost kid: Shape, ghost copies: seq<Shape>)
    returns (newChild: Item?, ghost more: seq<Shape>)
    requires depth < CJSON_CIRCULAR_LIMIT && Tree(kid) && kid.node == child
    requires (forall x | x in Nodes(kid) :: allocated(x))
    requires Chained(copies) && (forall x | x in Below(copies) :: allocated(x)) && newItem !in Below(copies)
    requires newItem.child == FirstNode(copies) && last == LastNode(copies)
    modifies newItem`child, (if last == null then {} else {last})`next
    ensures newChild != null <==> depth + 1 + ShapeHeight(kid) <= CJSON_CIRCULAR_LIMIT
    ensures newChild != null ==> |more| == |copies| + 1 && SameValues(kid, more[|copies|])
    ensures newChild != null ==> forall k | 0 <= k < |copies| :: more[k] == copies[k]
    ensures newChild != null ==> Chained(more) && newItem.child == FirstNode(more) && newChild == LastNode(more)
    ensures newChild != null ==> newChild in Below(more) && newItem !in Below(more)
    ensures newChild != null ==> (forall x | x in Below(more) :: allocated(x)) && fresh(Below(more) - Below(copies))
    decreases kid, 1, 0
  {
    hide Nodes, Below, Tree, Chained, SameValues;
    ghost var t;
    newChild, t := Duplicate(child, depth + 1, kid);
    more := copies + [t];
    if newChild == null {
      return;
    }
    NodesOf(t);
    BelowHas(copies);
    BelowMore(copies, t);
    BelowHas(more);
    if last != null {
      AttachAfter(last, newChild, copies, t);
    } else {
      assert more == [t];
      AttachFirst(newItem, newChild, t);
    }
  }

  lemma SameRoot(a: Shape, b: Shape)
    requires a.node.payload == b.node.payload && |a.kids| == |b.kids|
    requires forall k | 0 <= k < |a.kids| :: SameValues(a.kids[k], b.kids[k])
    ensures SameValues(a, b)
  {
  }

  lemma NothingChained()
    ensures Chained([]) && Below([]) == {}
  {
  }
}
