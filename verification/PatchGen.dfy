/** create_patches: the edits that lead from one document to another. */
module PatchGen {
  import opened Text
  import opened JsonTree
  import opened TreeCompare
  import opened CompareInPlace
  import opened SortedMembers
  import opened PointerEscape
  import opened Patch

  /** What compose_patch is asked for: an operation, the full path, and a value. */
  datatype Edit = Edit(op: Operation, path: string, value: Option<Json>)

  function OperationName(op: Operation): string {
    match op
    case ADD => "add"
    case REMOVE => "remove"
    case REPLACE => "replace"
    case MOVE => "move"
    case COPY => "copy"
    case TEST => "test"
    case INVALID => ""
  }

  /** The patch object compose_patch builds; no "value" when there is none to copy. */
  function ToPatch(e: Edit): Json {
    var head := [Member("op", String(OperationName(e.op))), Member("path", String(e.path))];
    var copy := if e.value.Some? then Duplicate(e.value.value) else None;
    Object(if copy.Some? then head + [Member("value", copy.value)] else head)
  }

  function ToPatches(es: seq<Edit>): (r: seq<Json>)
    ensures |r| == |es|
  {
    seq(|es|, i requires 0 <= i < |es| => ToPatch(es[i]))
  }

  function Removes(path: string, n: nat, index: nat): seq<Edit> {
    seq(n, _ => Edit(REMOVE, path + "/" + Encode(Decimal(index)), None))
  }

  function Adds(path: string, t: seq<Json>): seq<Edit> {
    seq(|t|, i requires 0 <= i < |t| => Edit(ADD, path + "/" + Encode("-"), Some(t[i])))
  }

  /** create_patches */
  function Diff(path: string, from: Json, to: Json, cs: bool): seq<Edit>
    decreases Height(from), 1, 0
  {
    if !SameKind(from, to) then [Edit(REPLACE, path, Some(to))]
    else
      match from
      case Number(d) =>
        if ValueInt(d) != ValueInt(to.d) || !CompareDouble(d, to.d) then [Edit(REPLACE, path, Some(to))] else []
      case String(s) => if s != to.s then [Edit(REPLACE, path, Some(to))] else []
      case Array(items) =>
        ChildHeight(from);
        DiffItems(path, items, to.items, 0, cs, Height(from))
      case Object(ms) =>
        SortedHeights(from, cs);
        DiffMembers(path, SortMembers(ms, cs), SortMembers(to.members, cs), cs, Height(from))
      case _ => []
  }

  /** The three element loops of create_patches, from position index on. */
  function DiffItems(path: string, f: seq<Json>, t: seq<Json>, index: nat, cs: bool, ghost h: nat): seq<Edit>
    requires forall i | 0 <= i < |f| :: Height(f[i]) < h
    decreases h, 0, |f|
  {
    if f != [] && t != [] then
      Diff(path + "/" + Decimal(index), f[0], t[0], cs) + DiffItems(path, f[1..], t[1..], index + 1, cs, h)
    else Removes(path, |f|, index) + Adds(path, t)
  }

  /** The walk of create_patches over two sorted member lists. */
  function DiffMembers(path: string, f: seq<Member>, t: seq<Member>, cs: bool, ghost h: nat): seq<Edit>
    requires forall i | 0 <= i < |f| :: Height(f[i].value) < h
    decreases h, 0, |f| + |t|
  {
    if f == [] && t == [] then []
    else
      var diff := if f == [] then 1 else if t == [] then -1 else CompareStrings(f[0].key, t[0].key, cs);
      if diff == 0 then
        Diff(path + "/" + Encode(f[0].key), f[0].value, t[0].value, cs) + DiffMembers(path, f[1..], t[1..], cs, h)
      else if diff < 0 then
        [Edit(REMOVE, path + "/" + Encode(f[0].key), None)] + DiffMembers(path, f[1..], t, cs, h)
      else
        [Edit(ADD, path + "/" + Encode(t[0].key), Some(t[0].value))] + DiffMembers(path, f, t[1..], cs, h)
  }

  // ---- what is left of the first tree: create_patches sorts the objects that it compares ----

  function Walked(a: Json, b: Json, cs: bool): Json
    decreases Height(a), 1, 0
  {
    ChildHeight(a);
    if !SameKind(a, b) then a
    else
      match a
      case Array(items) => Array(WalkedItems(items, b.items, cs, Height(a)))
      case Object(ms) =>
        SortedHeights(a, cs);
        Object(WalkedMembers(SortMembers(ms, cs), SortMembers(b.members, cs), cs, Height(a)))
      case _ => a
  }

  function WalkedItems(x: seq<Json>, y: seq<Json>, cs: bool, ghost h: nat): seq<Json>
    requires forall i | 0 <= i < |x| :: Height(x[i]) < h
    decreases h, 0, |x|
  {
    if x == [] || y == [] then x else [Walked(x[0], y[0], cs)] + WalkedItems(x[1..], y[1..], cs, h)
  }

  /** Elements that have a counterpart are walked, the rest stay as they were. */
  lemma {:induction false} ItemWalked(x: seq<Json>, y: seq<Json>, i: nat, cs: bool, h: nat)
    requires i < |x| && forall k | 0 <= k < |x| :: Height(x[k]) < h
    ensures |WalkedItems(x, y, cs, h)| == |x|
    ensures WalkedItems(x, y, cs, h)[i] == if i < |y| then Walked(x[i], y[i], cs) else x[i]
    decreases |x|
  {
    hide Walked, Height;
    if y != [] && |x| > 1 {
      ItemWalked(x[1..], y[1..], if i > 0 then i - 1 else 0, cs, h);
    }
  }

  function WalkedMembers(x: seq<Member>, y: seq<Member>, cs: bool, ghost h: nat): seq<Member>
    requires forall i | 0 <= i < |x| :: Height(x[i].value) < h
    decreases h, 0, |x| + |y|
  {
    if x == [] || y == [] then x
    else
      var diff := CompareStrings(x[0].key, y[0].key, cs);
      if diff == 0 then
        [Member(x[0].key, Walked(x[0].value, y[0].value, cs))] + WalkedMembers(x[1..], y[1..], cs, h)
      else if diff < 0 then [x[0]] + WalkedMembers(x[1..], y, cs, h)
      else WalkedMembers(x, y[1..], cs, h)
  }

  /** create_patches leaves a tree that is as high and means the same. */
  lemma {:induction false} WalkedSame(a: Json, b: Json, cs: bool, mode: bool)
    ensures SameValue(a, Walked(a, b, cs), mode)
    decreases Height(a), 1, 0
  {
    ChildHeight(a);
    if SameKind(a, b) && a.Array? {
      WalkedItemsSame(a.items, b.items, cs, mode, Height(a));
      SameArray(a.items, WalkedItems(a.items, b.items, cs, Height(a)), mode);
    } else if SameKind(a, b) && a.Object? {
      SortedHeights(a, cs);
      var x, y := SortMembers(a.members, cs), SortMembers(b.members, cs);
      WalkedMembersSame(x, y, cs, mode, Height(a));
      SortedSame(a.members, cs, mode);
      SameObject(x, WalkedMembers(x, y, cs, Height(a)), mode);
    }
  }

  lemma {:induction false} WalkedItemsSame(x: seq<Json>, y: seq<Json>, cs: bool, mode: bool, h: nat)
    requires forall i | 0 <= i < |x| :: Height(x[i]) < h
    ensures SameItems(x, WalkedItems(x, y, cs, h), mode)
    decreases h, 0, |x|
  {
    hide Walked, Height, Unique, Plain, Meaning;
    if x != [] && y != [] {
      WalkedSame(x[0], y[0], cs, mode);
      WalkedItemsSame(x[1..], y[1..], cs, mode, h);
    }
  }

  lemma {:induction false} WalkedMembersSame(x: seq<Member>, y: seq<Member>, cs: bool, mode: bool, h: nat)
    requires forall i | 0 <= i < |x| :: Height(x[i].value) < h
    ensures SamePairs(x, WalkedMembers(x, y, cs, h), mode)
    decreases h, 0, |x| + |y|
  {
    hide Walked, Height, Unique, Plain, Meaning, CompareStrings;
    if x != [] && y != [] {
      var diff := CompareStrings(x[0].key, y[0].key, cs);
      if diff == 0 {
        WalkedSame(x[0].value, y[0].value, cs, mode);
        WalkedMembersSame(x[1..], y[1..], cs, mode, h);
      } else if diff < 0 {
        WalkedMembersSame(x[1..], y, cs, mode, h);
      } else {
        WalkedMembersSame(x, y[1..], cs, mode, h);
      }
    }
  }

  /** The array of patches that the generator appends to. */
  class PatchList {
    var patches: seq<Json>

    constructor ()
      ensures patches == []
    {
      patches := [];
    }

    /** compose_patch */
    method Compose(op: Operation, path: string, suffix: Option<string>, value: Option<Json>)
      modifies this
      ensures patches == old(patches)
        + [ToPatch(Edit(op, if suffix.None? then path else path + "/" + Encode(suffix.value), value))]
    {
      var full := path;
      if suffix.Some? {
        full := MemberPath(path, suffix.value);
      }
      patches := patches + [ToPatch(Edit(op, full, value))];
    }

    /** create_patches */
    method Create(path: string, from: Json, to: Json, cs: bool) returns (from': Json, to': Json)
      modifies this
      ensures patches == old(patches) + ToPatches(Diff(path, from, to, cs))
      ensures from' == Walked(from, to, cs) && to' == Walked(to, from, cs)
      decreases Height(from), 2
    {
      hide DiffItems, DiffMembers, WalkedItems, WalkedMembers, CompareDouble, ToPatch, Height;
      from', to' := from, to;
      if !SameKind(from, to) {
        Compose(REPLACE, path, None, Some(to));
        return;
      }
      if from.Number? {
        if ValueInt(from.d) != ValueInt(to.d) || !CompareDouble(from.d, to.d) {
          Compose(REPLACE, path, None, Some(to));
        }
      } else if from.String? {
        if from.s != to.s {
          Compose(REPLACE, path, None, Some(to));
        }
      } else if from.Array? {
        var x, y := CreateForItems(path, from, to, cs);
        from', to' := Array(x), Array(y);
      } else if from.Object? {
        var x, y := CreateForMembers(path, from, to, cs);
        from', to' := Object(x), Object(y);
      }
    }

    method CreateForItems(path: string, from: Json, to: Json, cs: bool) returns (x: seq<Json>, y: seq<Json>)
      requires from.Array? && to.Array?
      modifies this
      ensures patches == old(patches) + ToPatches(Diff(path, from, to, cs))
      ensures Array(x) == Walked(from, to, cs) && Array(y) == Walked(to, from, cs)
      decreases Height(from), 1
    {
      ChildHeight(from);
      ChildHeight(to);
      ArraysStart(path, from, to, cs);
      hide *;
      x, y := [], [];
      var f, t := from.items, to.items;
      var index := 0;
      ghost var h, k := Height(from), Height(to);
      ghost var goal := patches + ToPatches(Diff(path, from, to, cs));
      while f != [] && t != []
        invariant forall i | 0 <= i < |f| :: Height(f[i]) < h
        invariant forall i | 0 <= i < |t| :: Height(t[i]) < k
        invariant patches + ToPatches(DiffItems(path, f, t, index, cs, h)) == goal
        invariant Array(x + WalkedItems(f, t, cs, h)) == Walked(from, to, cs)
        invariant Array(y + WalkedItems(t, f, cs, k)) == Walked(to, from, cs)
        decreases |f|
      {
        var here := path + "/" + Decimal(index);
        DiffTurn(patches, path, f, t, index, cs, h);
        ItemTurn(x, f, t, cs, h);
        ItemTurn(y, t, f, cs, k);
        var v, w := Create(here, f[0], t[0], cs);
        x, y := x + [v], y + [w];
        f, t, index := f[1..], t[1..], index + 1;
      }
      ItemsDone(patches, path, f, t, index, cs, h, k);
      RemoveRest(path, |f|, index);
      AddRest(path, t);
      x, y := x + f, y + t;
    }

    /** Elements that the new array lacks: one removal each, always at the same index. */
    method RemoveRest(path: string, n: nat, index: nat)
      modifies this
      ensures patches == old(patches) + ToPatches(Removes(path, n, index))
    {
      for i := 0 to n
        invariant patches == old(patches) + ToPatches(Removes(path, i, index))
      {
        Compose(REMOVE, path, Some(Decimal(index)), None);
      }
    }

    /** Elements that the old array lacks: each appended behind the end. */
    method AddRest(path: string, t: seq<Json>)
      modifies this
      ensures patches == old(patches) + ToPatches(Adds(path, t))
    {
      var rest := t;
      while rest != []
        invariant patches + ToPatches(Adds(path, rest)) == old(patches) + ToPatches(Adds(path, t))
        decreases |rest|
      {
        ghost var e := Edit(ADD, path + "/" + Encode("-"), Some(rest[0]));
        assert Adds(path, rest) == [e] + Adds(path, rest[1..]);
        AdvanceOne(patches, e, Adds(path, rest[1..]));
        Compose(ADD, path, Some("-"), Some(rest[0]));
        rest := rest[1..];
      }
    }

    method CreateForMembers(path: string, from: Json, to: Json, cs: bool) returns (x: seq<Member>, y: seq<Member>)
      requires from.Object? && to.Object?
      modifies this
      ensures patches == old(patches) + ToPatches(Diff(path, from, to, cs))
      ensures Object(x) == Walked(from, to, cs) && Object(y) == Walked(to, from, cs)
      decreases Height(from), 1
    {
      SortedHeights(from, cs);
      SortedHeights(to, cs);
      ObjectsStart(path, from, to, cs);
      hide *;
      x, y := [], [];
      var f, t := SortMembers(from.members, cs), SortMembers(to.members, cs);
      ghost var h, k := Height(from), Height(to);
      ghost var goal := patches + ToPatches(Diff(path, from, to, cs));
      while f != [] || t != []
        invariant forall i | 0 <= i < |f| :: Height(f[i].value) < h
        invariant forall i | 0 <= i < |t| :: Height(t[i].value) < k
        invariant patches + ToPatches(DiffMembers(path, f, t, cs, h)) == goal
        invariant Object(x + WalkedMembers(f, t, cs, h)) == Walked(from, to, cs)
        invariant Object(y + WalkedMembers(t, f, cs, k)) == Walked(to, from, cs)
        decreases |f| + |t|
      {
        var v, w;
        v, w, f, t := CreateForHeads(path, f, t, cs, h, k);
        Regrouped(x, v, WalkedMembers(f, t, cs, h));
        Regrouped(y, w, WalkedMembers(t, f, cs, k));
        x, y := x + v, y + w;
      }
      MembersDone(path, cs, h, k);
      Nothing(patches, x, y);
    }

    /** One turn of the walk: the edits for the heads, the members left of them, and the lists still to walk. */
    method CreateForHeads(path: string, f: seq<Member>, t: seq<Member>, cs: bool, ghost h: nat, ghost k: nat)
      returns (v: seq<Member>, w: seq<Member>, f': seq<Member>, t': seq<Member>)
      requires f != [] || t != []
      requires forall i | 0 <= i < |f| :: Height(f[i].value) < h
      requires forall i | 0 <= i < |t| :: Height(t[i].value) < k
      modifies this
      ensures |f'| + |t'| < |f| + |t|
      ensures forall i | 0 <= i < |f'| :: Height(f'[i].value) < h
      ensures forall i | 0 <= i < |t'| :: Height(t'[i].value) < k
      ensures patches + ToPatches(DiffMembers(path, f', t', cs, h))
        == old(patches) + ToPatches(DiffMembers(path, f, t, cs, h))
      ensures v + WalkedMembers(f', t', cs, h) == WalkedMembers(f, t, cs, h)
      ensures w + WalkedMembers(t', f', cs, k) == WalkedMembers(t, f, cs, k)
      decreases h, 0
    {
      HeadsTurn(patches, path, f, t, cs, h);
      MemberTurn(f, t, cs, h);
      MemberTurn(t, f, cs, k);
      hide *;
      v, w, f', t' := [], [], f, t;
      var diff;
      if f == [] {
        diff := 1;
      } else if t == [] {
        diff := -1;
      } else {
        diff := CompareStringsLoop(f[0].key, t[0].key, cs);
      }
      if diff == 0 {
        var here := MemberPath(path, f[0].key);
        var a, b := Create(here, f[0].value, t[0].value, cs);
        v, w, f', t' := [Member(f[0].key, a)], [Member(t[0].key, b)], f[1..], t[1..];
      } else if diff < 0 {
        Compose(REMOVE, path, Some(f[0].key), None);
        v, f' := [f[0]], f[1..];
      } else {
        Compose(ADD, path, Some(t[0].key), Some(t[0].value));
        w, t' := [t[0]], t[1..];
      }
    }
  }

  /** cJSONUtils_GeneratePatches and its case-sensitive twin; None is a null pointer. */
  method GeneratePatches(from: Option<Json>, to: Option<Json>, cs: bool)
    returns (patches: Option<Json>, from': Option<Json>, to': Option<Json>)
    ensures patches == if from.None? || to.None? then None
      else Some(Array(ToPatches(Diff("", from.value, to.value, cs))))
    ensures from' == if from.None? || to.None? then from else Some(Walked(from.value, to.value, cs))
    ensures to' == if from.None? || to.None? then to else Some(Walked(to.value, from.value, cs))
  {
    if from.None? || to.None? {
      return None, from, to;
    }
    var list := new PatchList();
    var v, w := list.Create("", from.value, to.value, cs);
    assert list.patches == ToPatches(Diff("", from.value, to.value, cs));
    return Some(Array(list.patches)), Some(v), Some(w);
  }

  // ---- one turn of each walk ----

  lemma ToPatchesAppend(a: seq<Edit>, b: seq<Edit>)
    ensures ToPatches(a + b) == ToPatches(a) + ToPatches(b)
  {
  }

  lemma Advance(p: seq<Json>, a: seq<Edit>, b: seq<Edit>)
    ensures p + ToPatches(a + b) == (p + ToPatches(a)) + ToPatches(b)
  {
    ToPatchesAppend(a, b);
  }

  lemma AdvanceOne(p: seq<Json>, e: Edit, b: seq<Edit>)
    ensures p + ToPatches([e] + b) == (p + [ToPatch(e)]) + ToPatches(b)
  {
    Advance(p, [e], b);
    assert ToPatches([e]) == [ToPatch(e)];
  }

  lemma ArraysStart(path: string, from: Json, to: Json, cs: bool)
    requires from.Array? && to.Array?
    requires forall i | 0 <= i < |from.items| :: Height(from.items[i]) < Height(from)
    requires forall i | 0 <= i < |to.items| :: Height(to.items[i]) < Height(to)
    ensures Diff(path, from, to, cs) == DiffItems(path, from.items, to.items, 0, cs, Height(from))
    ensures Array([] + WalkedItems(from.items, to.items, cs, Height(from))) == Walked(from, to, cs)
    ensures Array([] + WalkedItems(to.items, from.items, cs, Height(to))) == Walked(to, from, cs)
  {
    hide WalkedItems, DiffItems, Height;
  }

  lemma DiffTurn(p: seq<Json>, path: string, f: seq<Json>, t: seq<Json>, index: nat, cs: bool, h: nat)
    requires f != [] && t != [] && forall i | 0 <= i < |f| :: Height(f[i]) < h
    ensures p + ToPatches(DiffItems(path, f, t, index, cs, h))
      == (p + ToPatches(Diff(path + "/" + Decimal(index), f[0], t[0], cs)))
        + ToPatches(DiffItems(path, f[1..], t[1..], index + 1, cs, h))
  {
    hide Diff, ToPatches, Height;
    Advance(p, Diff(path + "/" + Decimal(index), f[0], t[0], cs), DiffItems(path, f[1..], t[1..], index + 1, cs, h));
  }

  lemma ItemTurn(done: seq<Json>, x: seq<Json>, y: seq<Json>, cs: bool, h: nat)
    requires forall i | 0 <= i < |x| :: Height(x[i]) < h
    requires x != [] && y != []
    ensures done + WalkedItems(x, y, cs, h) == (done + [Walked(x[0], y[0], cs)]) + WalkedItems(x[1..], y[1..], cs, h)
  {
    hide Walked, Height;
  }

  lemma ItemsDone(p: seq<Json>, path: string, f: seq<Json>, t: seq<Json>, index: nat, cs: bool, h: nat, k: nat)
    requires forall i | 0 <= i < |f| :: Height(f[i]) < h
    requires forall i | 0 <= i < |t| :: Height(t[i]) < k
    requires f == [] || t == []
    ensures p + ToPatches(DiffItems(path, f, t, index, cs, h))
      == (p + ToPatches(Removes(path, |f|, index))) + ToPatches(Adds(path, t))
    ensures WalkedItems(f, t, cs, h) == f && WalkedItems(t, f, cs, k) == t
  {
    hide ToPatches, Removes, Adds, Height;
    Advance(p, Removes(path, |f|, index), Adds(path, t));
  }

  lemma ObjectsStart(path: string, from: Json, to: Json, cs: bool)
    requires from.Object? && to.Object?
    requires forall i | 0 <= i < |SortMembers(from.members, cs)| ::
      Height(SortMembers(from.members, cs)[i].value) < Height(from)
    requires forall i | 0 <= i < |SortMembers(to.members, cs)| ::
      Height(SortMembers(to.members, cs)[i].value) < Height(to)
    ensures var f, t := SortMembers(from.members, cs), SortMembers(to.members, cs);
      && Diff(path, from, to, cs) == DiffMembers(path, f, t, cs, Height(from))
      && Object([] + WalkedMembers(f, t, cs, Height(from))) == Walked(from, to, cs)
      && Object([] + WalkedMembers(t, f, cs, Height(to))) == Walked(to, from, cs)
  {
    hide SortMembers, WalkedMembers, DiffMembers, Height;
  }

  /** The edits of one turn come first. */
  lemma HeadsTurn(p: seq<Json>, path: string, f: seq<Member>, t: seq<Member>, cs: bool, h: nat)
    requires f != [] || t != []
    requires forall i | 0 <= i < |f| :: Height(f[i].value) < h
    ensures var diff := if f == [] then 1 else if t == [] then -1 else CompareStrings(f[0].key, t[0].key, cs);
      var all := p + ToPatches(DiffMembers(path, f, t, cs, h));
      && (diff == 0 ==>
        all == (p + ToPatches(Diff(path + "/" + Encode(f[0].key), f[0].value, t[0].value, cs)))
          + ToPatches(DiffMembers(path, f[1..], t[1..], cs, h)))
      && (diff < 0 ==>
        all == (p + [ToPatch(Edit(REMOVE, path + "/" + Encode(f[0].key), None))])
          + ToPatches(DiffMembers(path, f[1..], t, cs, h)))
      && (diff > 0 ==>
        all == (p + [ToPatch(Edit(ADD, path + "/" + Encode(t[0].key), Some(t[0].value)))])
          + ToPatches(DiffMembers(path, f, t[1..], cs, h)))
  {
    hide Diff, ToPatches, ToPatch, Encode, Height, CompareStrings;
    var diff := if f == [] then 1 else if t == [] then -1 else CompareStrings(f[0].key, t[0].key, cs);
    if diff == 0 {
      Advance(p, Diff(path + "/" + Encode(f[0].key), f[0].value, t[0].value, cs),
        DiffMembers(path, f[1..], t[1..], cs, h));
    } else if diff < 0 {
      AdvanceOne(p, Edit(REMOVE, path + "/" + Encode(f[0].key), None), DiffMembers(path, f[1..], t, cs, h));
    } else {
      AdvanceOne(p, Edit(ADD, path + "/" + Encode(t[0].key), Some(t[0].value)), DiffMembers(path, f, t[1..], cs, h));
    }
  }

  /** One turn of the walk over members, as it looks from the one list and from the other. */
  lemma MemberTurn(x: seq<Member>, y: seq<Member>, cs: bool, h: nat)
    requires forall i | 0 <= i < |x| :: Height(x[i].value) < h
    ensures x != [] && (y == [] || CompareStrings(x[0].key, y[0].key, cs) < 0) ==>
      WalkedMembers(x, y, cs, h) == [x[0]] + WalkedMembers(x[1..], y, cs, h)
    ensures y != [] && (x == [] || CompareStrings(x[0].key, y[0].key, cs) > 0) ==>
      WalkedMembers(x, y, cs, h) == [] + WalkedMembers(x, y[1..], cs, h)
    ensures x != [] && y != [] && CompareStrings(x[0].key, y[0].key, cs) == 0 ==>
      WalkedMembers(x, y, cs, h)
        == [Member(x[0].key, Walked(x[0].value, y[0].value, cs))] + WalkedMembers(x[1..], y[1..], cs, h)
    ensures x != [] && y != [] ==>
      && (CompareStrings(x[0].key, y[0].key, cs) < 0 <==> CompareStrings(y[0].key, x[0].key, cs) > 0)
      && (CompareStrings(x[0].key, y[0].key, cs) == 0 <==> CompareStrings(y[0].key, x[0].key, cs) == 0)
  {
    hide Walked, Height, CompareStrings;
    if x != [] && y != [] {
      OrderFlips(x[0].key, y[0].key, cs);
    }
    if x != [] && y == [] {
      assert WalkedMembers(x[1..], y, cs, h) == x[1..];
    }
  }

  lemma Regrouped(a: seq<Member>, b: seq<Member>, c: seq<Member>)
    ensures a + (b + c) == (a + b) + c
  {
  }

  lemma MembersDone(path: string, cs: bool, h: nat, k: nat)
    ensures ToPatches(DiffMembers(path, [], [], cs, h)) == []
    ensures WalkedMembers([], [], cs, h) == [] && WalkedMembers([], [], cs, k) == []
  {
  }

  lemma Nothing(p: seq<Json>, x: seq<Member>, y: seq<Member>)
    ensures p + [] == p && x + [] == x && y + [] == y
  {
  }
}
