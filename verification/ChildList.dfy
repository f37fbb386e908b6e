/** The child list of a node: doubly linked, the head's prev pointing at the tail. */
module ChildList {
  import opened Patch

  /** The links of a cJSON struct. */
  class Node {
    var next: Node?
    var prev: Node?
    var child: Node?

    constructor ()
      ensures next == null && prev == null && child == null
    {
      next, prev, child := null, null, null;
    }
  }

  ghost predicate Distinct(nodes: seq<Node>) {
    forall i, j | 0 <= i < j < |nodes| :: nodes[i] != nodes[j]
  }

  function NextOf(nodes: seq<Node>, i: nat): Node? {
    if i + 1 < |nodes| then nodes[i + 1] else null
  }

  /** Every node's predecessor; the head's is the tail. */
  function PrevOf(nodes: seq<Node>, i: nat): Node?
    requires i < |nodes|
  {
    if i == 0 then nodes[|nodes| - 1] else nodes[i - 1]
  }

  /** The children of the parent are exactly these nodes, in this order. */
  ghost predicate Children(parent: Node, nodes: seq<Node>)
    reads parent, nodes
  {
    && Distinct(nodes) && parent !in nodes
    && parent.child == (if nodes == [] then null else nodes[0])
    && (forall i {:trigger nodes[i].next} | 0 <= i < |nodes| :: nodes[i].next == NextOf(nodes, i))
    && (forall i {:trigger nodes[i].prev} | 0 <= i < |nodes| :: nodes[i].prev == PrevOf(nodes, i))
  }

  /** The next chain ends after as many steps as there are children: no cycle. */
  ghost function Walk(from: Node?, steps: nat, nodes: seq<Node>): Node?
    reads nodes
  {
    if steps == 0 || from == null || from !in nodes then from else Walk(from.next, steps - 1, nodes)
  }

  lemma {:induction false} WalkReaches(parent: Node, nodes: seq<Node>, i: nat, steps: nat)
    requires Children(parent, nodes) && i + steps <= |nodes|
    ensures Walk(if i < |nodes| then nodes[i] else null, steps, nodes)
      == if i + steps < |nodes| then nodes[i + steps] else null
    decreases steps
  {
    if steps > 0 {
      assert nodes[i].next == NextOf(nodes, i);
      WalkReaches(parent, nodes, i + 1, steps - 1);
    }
  }

  /** get_array_item */
  method GetItem(parent: Node, index: nat, ghost nodes: seq<Node>) returns (item: Node?)
    requires Children(parent, nodes)
    ensures item == if index < |nodes| then nodes[index] else null
  {
    item := parent.child;
    var rest: nat := index;
    ghost var k := 0;
    while item != null && rest > 0
      invariant k + rest == index && k <= |nodes|
      invariant k < |nodes| ==> item != null && item == nodes[k]
      invariant k == |nodes| ==> item == null
      decreases rest
    {
      assert nodes[k].next == NextOf(nodes, k);
      item := item.next;
      rest := rest - 1;
      k := k + 1;
    }
  }

  /** add_item_to_array */
  method AddItem(parent: Node?, item: Node?, ghost nodes: seq<Node>) returns (ok: bool)
    requires parent != null ==> Children(parent, nodes)
    requires item != null ==> item !in nodes && item.next == null
    modifies parent, item, nodes
    ensures ok <==> parent != null && item != null && parent != item
    ensures ok ==> Children(parent, nodes + [item])
    ensures !ok && parent != null ==> Children(parent, nodes)
    ensures forall n | n in nodes :: n.child == old(n.child)
    ensures item != null && item != parent ==> item.child == old(item.child)
  {
    if item == null || parent == null || parent == item {
      return false;
    }
    var child := parent.child;
    ghost var all := nodes + [item];
    if child == null {
      parent.child := item;
      item.prev := item;
      item.next := null;
    } else if child.prev != null {
      var last := child.prev;
      assert last == nodes[|nodes| - 1];
      last.next := item;
      item.prev := last;
      parent.child.prev := item;
      assert forall i {:trigger all[i].next} | 0 <= i < |all| :: all[i].next == NextOf(all, i);
    }
    return true;
  }

  /** cJSON_DetachItemViaPointer, for the child at i of the parent or for an item that is in no list. */
  method Detach(parent: Node?, item: Node?, ghost nodes: seq<Node>, ghost i: nat) returns (r: Node?)
    requires parent != null ==> Children(parent, nodes)
    requires parent != null && item != null ==>
      (i < |nodes| && item == nodes[i]) || (item !in nodes && item.prev == null)
    modifies parent, nodes
    ensures r == if parent != null && item != null && item in nodes then item else null
    ensures r != null ==> i < |nodes| && Children(parent, DropAt(nodes, i)) && item.next == null && item.prev == null
    ensures r == null && parent != null ==> Children(parent, nodes)
    ensures forall n | n in nodes :: n.child == old(n.child)
  {
    if parent == null || item == null || (item != parent.child && item.prev == null) {
      return null;
    }
    assert i == 0 <==> item == parent.child;
    assert item.next == NextOf(nodes, i) && item.prev == PrevOf(nodes, i);
    assert forall j | 0 <= j < |nodes| :: nodes[j] != parent && (nodes[j] == item <==> j == i);
    if item != parent.child {
      item.prev.next := item.next;
    }
    if item.next != null {
      item.next.prev := item.prev;
    }
    if item == parent.child {
      parent.child := item.next;
    } else if item.next == null {
      parent.child.prev := item.prev;
    }
    item.prev := null;
    item.next := null;
    r := item;
    assert forall j {:trigger nodes[j].next} | 0 <= j < |nodes| && j != i ::
      nodes[j].next == if j + 1 == i then NextOf(nodes, i) else NextOf(nodes, j);
    assert forall j {:trigger nodes[j].prev} | 0 <= j < |nodes| && j != i ::
      nodes[j].prev == if j == i + 1 || (j == 0 && i == |nodes| - 1) then PrevOf(nodes, i) else PrevOf(nodes, j);
    Dropped(parent, nodes, DropAt(nodes, i), i);
  }

  lemma Dropped(parent: Node, nodes: seq<Node>, rest: seq<Node>, i: nat)
    requires i < |nodes| && rest == DropAt(nodes, i) && Distinct(nodes) && parent !in nodes
    requires parent.child == if i == 0 then NextOf(nodes, 0) else nodes[0]
    requires forall j {:trigger nodes[j].next} | 0 <= j < |nodes| && j != i ::
      nodes[j].next == if j + 1 == i then NextOf(nodes, i) else NextOf(nodes, j)
    requires forall j {:trigger nodes[j].prev} | 0 <= j < |nodes| && j != i ::
      nodes[j].prev == if j == i + 1 || (j == 0 && i == |nodes| - 1) then PrevOf(nodes, i) else PrevOf(nodes, j)
    ensures Children(parent, rest)
  {
    DropDistinct(nodes, i);
    DropIndices(nodes, i);
    hide DropAt, Distinct;
    forall j | 0 <= j < |rest| ensures rest[j].next == NextOf(rest, j) {
      assert rest[j] == nodes[if j < i then j else j + 1];
    }
    forall j | 0 <= j < |rest| ensures rest[j].prev == PrevOf(rest, j) {
      assert rest[j] == nodes[if j < i then j else j + 1];
    }
  }

  lemma DropDistinct(nodes: seq<Node>, i: nat)
    requires i < |nodes| && Distinct(nodes)
    ensures Distinct(DropAt(nodes, i))
    ensures forall n | n in DropAt(nodes, i) :: n in nodes
  {
    DropIndices(nodes, i);
    var rest := DropAt(nodes, i);
    forall p, q | 0 <= p < q < |rest| ensures rest[p] != rest[q] {
      assert rest[p] == nodes[if p < i then p else p + 1] && rest[q] == nodes[if q < i then q else q + 1];
    }
  }

  lemma DropIndices(nodes: seq<Node>, i: nat)
    requires i < |nodes|
    ensures |DropAt(nodes, i)| == |nodes| - 1
    ensures forall j | 0 <= j < |nodes| - 1 :: DropAt(nodes, i)[j] == nodes[if j < i then j else j + 1]
  {
  }

  /** The list with a node put in front of position i. */
  function InsertAt(nodes: seq<Node>, i: nat, item: Node): seq<Node>
    requires i <= |nodes|
  {
    nodes[..i] + [item] + nodes[i..]
  }

  lemma InsertIndices(nodes: seq<Node>, i: nat, item: Node)
    requires i <= |nodes|
    ensures |InsertAt(nodes, i, item)| == |nodes| + 1
    ensures forall j | 0 <= j <= |nodes| ::
      InsertAt(nodes, i, item)[j] == if j < i then nodes[j] else if j == i then item else nodes[j - 1]
  {
  }

  lemma Inserted(parent: Node, nodes: seq<Node>, all: seq<Node>, item: Node, i: nat)
    requires i < |nodes| && all == InsertAt(nodes, i, item)
    requires Distinct(nodes) && parent !in nodes && item !in nodes && item != parent
    requires parent.child == if i == 0 then item else nodes[0]
    requires item.next == nodes[i] && item.prev == PrevOf(nodes, i)
    requires forall j {:trigger nodes[j].next} | 0 <= j < |nodes| ::
      nodes[j].next == if j + 1 == i then item else NextOf(nodes, j)
    requires forall j {:trigger nodes[j].prev} | 0 <= j < |nodes| ::
      nodes[j].prev == if j == i then item else PrevOf(nodes, j)
    ensures Children(parent, all)
  {
    InsertDistinct(nodes, i, item);
    InsertIndices(nodes, i, item);
    forall j | 0 <= j < |all| ensures all[j].next == NextOf(all, j) {
      InsertedNext(nodes, all, item, i, j);
    }
    forall j | 0 <= j < |all| ensures all[j].prev == PrevOf(all, j) {
      InsertedPrev(nodes, all, item, i, j);
    }
  }

  lemma InsertedNext(nodes: seq<Node>, all: seq<Node>, item: Node, i: nat, j: nat)
    requires i < |nodes| && all == InsertAt(nodes, i, item) && j < |all|
    requires item.next == nodes[i]
    requires j < i ==> nodes[j].next == if j + 1 == i then item else NextOf(nodes, j)
    requires j > i ==> nodes[j - 1].next == NextOf(nodes, j - 1)
    ensures all[j].next == NextOf(all, j)
  {
  }

  lemma InsertedPrev(nodes: seq<Node>, all: seq<Node>, item: Node, i: nat, j: nat)
    requires i < |nodes| && all == InsertAt(nodes, i, item) && j < |all|
    requires item.prev == PrevOf(nodes, i)
    requires j < i ==> nodes[j].prev == PrevOf(nodes, j)
    requires j > i ==> nodes[j - 1].prev == if j - 1 == i then item else PrevOf(nodes, j - 1)
    ensures all[j].prev == PrevOf(all, j)
  {
  }

  lemma InsertDistinct(nodes: seq<Node>, i: nat, item: Node)
    requires i <= |nodes| && Distinct(nodes) && item !in nodes
    ensures Distinct(InsertAt(nodes, i, item))
    ensures forall n | n in InsertAt(nodes, i, item) :: n in nodes || n == item
  {
    InsertIndices(nodes, i, item);
    var all := InsertAt(nodes, i, item);
    forall p, q | 0 <= p < q < |all| ensures all[p] != all[q] {
      assert all[p] == if p < i then nodes[p] else if p == i then item else nodes[p - 1];
      assert all[q] == if q < i then nodes[q] else if q == i then item else nodes[q - 1];
    }
  }

  /** Linking a new node in front of a child of the parent. */
  method LinkBefore(parent: Node, after: Node, item: Node, ghost nodes: seq<Node>, ghost i: nat)
    requires Children(parent, nodes) && i < |nodes| && after == nodes[i] && item !in nodes && item != parent
    modifies parent, item, nodes
    ensures Children(parent, InsertAt(nodes, i, item))
    ensures (forall n | n in nodes :: n.child == old(n.child)) && item.child == old(item.child)
  {
    assert i == 0 <==> after == parent.child;
    assert after.prev == PrevOf(nodes, i);
    assert forall j | 0 <= j < |nodes| :: nodes[j] != item && nodes[j] != parent && (nodes[j] == after <==> j == i);
    item.next := after;
    item.prev := after.prev;
    after.prev := item;
    if after == parent.child {
      parent.child := item;
    } else {
      item.prev.next := item;
    }
    assert forall j {:trigger nodes[j].next} | 0 <= j < |nodes| ::
      nodes[j].next == if j + 1 == i then item else NextOf(nodes, j);
    assert forall j {:trigger nodes[j].prev} | 0 <= j < |nodes| ::
      nodes[j].prev == if j == i then item else PrevOf(nodes, j);
    Inserted(parent, nodes, InsertAt(nodes, i, item), item, i);
  }

  /** cJSON_InsertItemInArray: past the end it appends. */
  method InsertItem(parent: Node, which: int, item: Node?, ghost nodes: seq<Node>) returns (ok: bool)
    requires Children(parent, nodes)
    requires item != null ==> item !in nodes && item != parent && item.next == null
    modifies parent, item, nodes
    ensures ok <==> which >= 0 && item != null
    ensures ok ==> Children(parent, if which < |nodes| then InsertAt(nodes, which, item) else nodes + [item])
    ensures !ok ==> Children(parent, nodes)
  {
    if which < 0 || item == null {
      return false;
    }
    var after := GetItem(parent, which, nodes);
    if after == null {
      ok := AddItem(parent, item, nodes);
      return;
    }
    if after != parent.child && after.prev == null {
      return false;
    }
    LinkBefore(parent, after, item, nodes, which);
    return true;
  }

  /** insert_item_in_array of cJSON_Utils.c: past the end it fails. */
  method InsertItemWithin(parent: Node, which: nat, item: Node, ghost nodes: seq<Node>) returns (ok: bool)
    requires Children(parent, nodes) && item !in nodes && item != parent && item.next == null
    modifies parent, item, nodes
    ensures ok <==> which <= |nodes|
    ensures ok ==> Children(parent, InsertAt(nodes, which, item))
    ensures !ok ==> Children(parent, nodes)
  {
    var child := parent.child;
    var rest: nat := which;
    ghost var k := 0;
    while child != null && rest > 0
      invariant k + rest == which && k <= |nodes|
      invariant k < |nodes| ==> child != null && child == nodes[k]
      invariant k == |nodes| ==> child == null
      decreases rest
    {
      assert nodes[k].next == NextOf(nodes, k);
      child, rest := child.next, rest - 1;
      k := k + 1;
    }
    if rest > 0 {
      return false;
    }
    if child == null {
      ok := AddItem(parent, item, nodes);
      assert InsertAt(nodes, |nodes|, item) == nodes + [item];
      return;
    }
    LinkBefore(parent, child, item, nodes, which);
    return true;
  }

  /** detach_item_from_array of cJSON_Utils.c, and cJSON_DetachItemFromArray. */
  method DetachIndex(parent: Node, which: int, ghost nodes: seq<Node>) returns (item: Node?)
    requires Children(parent, nodes)
    modifies parent, nodes
    ensures item == if 0 <= which < |nodes| then nodes[which] else null
    ensures Children(parent, if item != null then DropAt(nodes, which) else nodes)
    ensures item != null ==> item.next == null && item.prev == null
  {
    if which < 0 {
      return null;
    }
    item := GetItem(parent, which, nodes);
    if item != null {
      item := Detach(parent, item, nodes, which);
    }
  }

  /** cJSON_ReplaceItemViaPointer, for the child at i of the parent, in a parent that has children. */
  method Replace(parent: Node?, item: Node?, replacement: Node?, ghost nodes: seq<Node>, ghost i: nat)
    returns (ok: bool)
    requires parent != null ==> Children(parent, nodes)
    requires item != null && nodes != [] ==> i < |nodes| && item == nodes[i]
    requires replacement == item || replacement == null || (replacement !in nodes && replacement != parent)
    modifies parent, replacement, nodes
    ensures ok <==> parent != null && nodes != [] && replacement != null && item != null
    ensures ok ==> Children(parent, nodes[i := replacement])
    ensures ok && replacement != item ==> item.next == null && item.prev == null
    ensures !ok && parent != null ==> Children(parent, nodes)
  {
    if parent == null || parent.child == null || replacement == null || item == null {
      return false;
    }
    assert item.next == NextOf(nodes, i) && item.prev == PrevOf(nodes, i);
    if replacement == item {
      assert nodes[i := replacement] == nodes;
      return true;
    }
    assert i == 0 <==> item == parent.child;
    replacement.next := item.next;
    replacement.prev := item.prev;
    if replacement.next != null {
      replacement.next.prev := replacement;
    }
    if parent.child == item {
      if parent.child.prev == parent.child {
        replacement.prev := replacement;
      }
      parent.child := replacement;
    } else {
      if replacement.prev != null {
        replacement.prev.next := replacement;
      }
      if replacement.next == null {
        parent.child.prev := replacement;
      }
    }
    item.next := null;
    item.prev := null;
    ok := true;
    assert forall j {:trigger nodes[j].next} | 0 <= j < |nodes| && j != i ::
      nodes[j].next == if j + 1 == i then replacement else NextOf(nodes, j);
    assert forall j {:trigger nodes[j].prev} | 0 <= j < |nodes| && j != i ::
      nodes[j].prev == if j == i + 1 || (j == 0 && i == |nodes| - 1) then replacement else PrevOf(nodes, j);
    Exchanged(parent, nodes, i, replacement);
  }

  lemma Exchanged(parent: Node, nodes: seq<Node>, i: nat, r: Node)
    requires i < |nodes| && Distinct(nodes) && parent !in nodes && r !in nodes && r != parent
    requires parent.child == if i == 0 then r else nodes[0]
    requires forall j {:trigger nodes[j].next} | 0 <= j < |nodes| && j != i ::
      nodes[j].next == if j + 1 == i then r else NextOf(nodes, j)
    requires forall j {:trigger nodes[j].prev} | 0 <= j < |nodes| && j != i ::
      nodes[j].prev == if j == i + 1 || (j == 0 && i == |nodes| - 1) then r else PrevOf(nodes, j)
    requires r.next == NextOf(nodes, i) && r.prev == if |nodes| == 1 then r else PrevOf(nodes, i)
    ensures Children(parent, nodes[i := r])
  {
    var all := nodes[i := r];
    forall j | 0 <= j < |all| ensures all[j].next == NextOf(all, j) && all[j].prev == PrevOf(all, j) {
      assert j != i ==> all[j] == nodes[j];
    }
  }
}
