/** Edits as operations on documents, and how an edit under one child leaves the rest alone. */
module PatchFrame {
  import opened Text
  import opened JsonTree
  import opened TreeCompare
  import opened CompareInPlace
  import opened PointerEscape
  import opened PointerLookup
  import opened Patch
  import opened PatchGen

  /** The edits create_patches composes: additions and replacements carry a value that can be copied. */
  ghost predicate Composed(e: Edit) {
    && (e.op.ADD? || e.op.REMOVE? || e.op.REPLACE?)
    && (e.op.REMOVE? <==> e.value.None?)
    && (e.value.Some? ==> Height(e.value.value) <= CJSON_CIRCULAR_LIMIT)
  }

  /** What a composed edit does. */
  ghost function ApplyEdit(j: Json, e: Edit, cs: bool): (int, Json)
    requires Composed(e)
  {
    if e.path == "" then (0, if e.op.REMOVE? then Invalid else e.value.value)
    else if e.op.ADD? then Insert(j, e.path, e.value.value, cs)
    else
      var (old_, rest) := Detach(j, e.path, cs);
      if old_.None? then (13, rest)
      else if e.op.REMOVE? then (0, rest)
      else Insert(rest, e.path, e.value.value, cs)
  }

  ghost function ApplyEdits(j: Json, es: seq<Edit>, cs: bool): (int, Json)
    requires forall i | 0 <= i < |es| :: Composed(es[i])
    decreases |es|
  {
    if es == [] then (0, j)
    else
      var (status, next) := ApplyEdit(j, es[0], cs);
      if status != 0 then (status, next) else ApplyEdits(next, es[1..], cs)
  }

  /** Field names of different length do not hide one another. */
  lemma LookupNamed(ms: seq<Member>, i: nat, name: string, cs: bool)
    requires i <= |ms|
    requires forall k | 0 <= k < i :: |ms[k].key| != |name|
    requires i < |ms| ==> ms[i].key == name
    ensures Lookup(ms, name, cs) == i
  {
    forall k | 0 <= k < i ensures Fold(ms[k].key, cs) != Fold(name, cs) {
      assert |Fold(ms[k].key, cs)| != |Fold(name, cs)|;
    }
  }

  lemma PatchFields(e: Edit, cs: bool)
    requires Composed(e)
    ensures Field(ToPatch(e), "op", cs) == Some(String(OperationName(e.op)))
    ensures Field(ToPatch(e), "path", cs) == Some(String(e.path))
    ensures Field(ToPatch(e), "value", cs) == e.value
  {
    if e.value.Some? {
      DuplicateRecExact(e.value.value, 0);
    }
    var ms := ToPatch(e).members;
    LookupNamed(ms, 0, "op", cs);
    LookupNamed(ms, 1, "path", cs);
    LookupNamed(ms, 2, "value", cs);
  }

  lemma OperationNames(op: Operation)
    requires op.ADD? || op.REMOVE? || op.REPLACE?
    ensures OperationNamed(OperationName(op)) == op
  {
    assert |"add"| == 3 && |"remove"| == 6 && |"replace"| == 7;
  }

  lemma ValueFetched(j: Json, e: Edit, cs: bool)
    requires Composed(e) && e.value.Some?
    ensures ValueToAdd(j, ToPatch(e), e.op, cs) == (0, e.value, j)
  {
    PatchFields(e, cs);
    DuplicateRecExact(e.value.value, 0);
  }

  lemma PerformEdit(j: Json, patch: Json, e: Edit, cs: bool)
    requires Composed(e)
    requires e.value.Some? ==> ValueToAdd(j, patch, e.op, cs) == (0, e.value, j)
    requires e.value.Some? ==> var rest := Detach(j, e.path, cs).1;
      ValueToAdd(rest, patch, e.op, cs) == (0, e.value, rest)
    ensures Perform(j, patch, e.op, e.path, cs) == ApplyEdit(j, e, cs)
  {
  }

  /** Applying a composed patch object is applying its edit. */
  lemma ApplyComposed(j: Json, e: Edit, cs: bool)
    requires Composed(e)
    ensures Apply(j, ToPatch(e), cs) == ApplyEdit(j, e, cs)
  {
    var patch := ToPatch(e);
    PatchFields(e, cs);
    OperationNames(e.op);
    assert Apply(j, patch, cs) == Perform(j, patch, e.op, e.path, cs);
    if e.value.Some? {
      ValueFetched(j, e, cs);
      ValueFetched(Detach(j, e.path, cs).1, e, cs);
    }
    PerformEdit(j, patch, e, cs);
  }

  lemma {:induction false} ApplyComposedAll(j: Json, es: seq<Edit>, cs: bool)
    requires forall i | 0 <= i < |es| :: Composed(es[i])
    ensures ApplyAll(j, ToPatches(es), cs) == ApplyEdits(j, es, cs)
    decreases |es|
  {
    hide ApplyEdit, Composed, ToPatch, Apply;
    if es != [] {
      ApplyComposed(j, es[0], cs);
      assert ToPatches(es)[0] == ToPatch(es[0]) && ToPatches(es)[1..] == ToPatches(es[1..]);
      ApplyComposedAll(ApplyEdit(j, es[0], cs).1, es[1..], cs);
    }
  }

  lemma {:induction false} ApplyEditsAppend(j: Json, a: seq<Edit>, b: seq<Edit>, cs: bool)
    requires forall i | 0 <= i < |a| :: Composed(a[i])
    requires forall i | 0 <= i < |b| :: Composed(b[i])
    requires ApplyEdits(j, a, cs).0 == 0
    ensures ApplyEdits(j, a + b, cs) == ApplyEdits(ApplyEdits(j, a, cs).1, b, cs)
    decreases |a|
  {
    if a == [] {
      assert a + b == b;
    } else {
      assert (a + b)[0] == a[0] && (a + b)[1..] == a[1..] + b;
      ApplyEditsAppend(ApplyEdit(j, a[0], cs).1, a[1..], b, cs);
    }
  }

  // ---- prefixed edits ----

  function PrefixEdit(p: string, e: Edit): Edit {
    e.(path := p + e.path)
  }

  function PrefixAll(p: string, es: seq<Edit>): (r: seq<Edit>)
    ensures |r| == |es|
    ensures forall i | 0 <= i < |es| :: r[i] == PrefixEdit(p, es[i])
  {
    seq(|es|, i requires 0 <= i < |es| => PrefixEdit(p, es[i]))
  }

  /** Every edit is below the root. */
  ghost predicate Deep(es: seq<Edit>) {
    forall i | 0 <= i < |es| :: es[i].path != "" && es[i].path[0] == '/'
  }

  /** A node whose children are each led to by their own token. */
  ghost predicate Branch(j: Json, cs: bool) {
    match j
    case Array(items) => |items| <= SIZE_RANGE
    case Object(ms) => DistinctKeys(ms, cs)
    case _ => false
  }

  lemma SetChildBranch(j: Json, i: nat, v: Json, cs: bool)
    requires i < |Children(j)| && Branch(j, cs)
    ensures Branch(SetChild(j, i, v), cs)
    ensures Token(SetChild(j, i, v), i) == Token(j, i)
    ensures |Children(SetChild(j, i, v))| == |Children(j)|
    ensures SetChild(j, i, Children(j)[i]) == j
    ensures forall w :: SetChild(SetChild(j, i, v), i, w) == SetChild(j, i, w)
  {
    if j.Object? {
      var ms, ms' := j.members, SetChild(j, i, v).members;
      assert forall k | 0 <= k < |ms| :: ms'[k].key == ms[k].key;
      assert ms[i := Member(ms[i].key, ms[i].value)] == ms;
      forall w ensures SetChild(SetChild(j, i, v), i, w) == SetChild(j, i, w) {
        assert ms'[i := Member(ms'[i].key, w)] == ms[i := Member(ms[i].key, w)];
      }
    } else {
      assert j.items[i := j.items[i]] == j.items;
      forall w ensures SetChild(SetChild(j, i, v), i, w) == SetChild(j, i, w) {
        assert j.items[i := v][i := w] == j.items[i := w];
      }
    }
  }

  lemma Reassociate(token: string, rest: string)
    ensures "/" + token + rest == "/" + (token + rest)
  {
  }

  lemma ResolveUnder(j: Json, i: nat, rest: string, cs: bool)
    requires i < |Children(j)| && Branch(j, cs) && EndsToken(rest)
    ensures Resolve(j, "/" + Token(j, i) + rest, cs) == Under([i], Resolve(Children(j)[i], rest, cs))
  {
    hide Step, SkipToken, Resolve, Token, Children, Under;
    StepToken(j, i, rest, cs);
    ResolveStep(j, i, Token(j, i) + rest, rest, cs);
    Reassociate(Token(j, i), rest);
  }

  /** Splitting a path below a prefix at its last slash. */
  lemma SplitUnder(p: string, path: string)
    requires path != "" && path[0] == '/'
    ensures SplitPath(path).Some? && EndsToken(SplitPath(path).value.0)
    ensures SplitPath(p + path) == Some((p + SplitPath(path).value.0, SplitPath(path).value.1))
  {
    var r, full := LastSlash(path), p + path;
    assert path[0] in path;
    assert full[|p| + r + 1..] == path[r + 1..];
    assert full[|p| + r] == path[r];
    assert full[..|p| + r] == p + path[..r];
    LastSlashUnique(full, |p| + r);
  }

  lemma PutUnder(j: Json, i: nat, at: seq<nat>, v: Json)
    requires i < |Children(j)| && ValidPath(Children(j)[i], at)
    ensures ValidPath(j, [i] + at) && NodeAt(j, [i] + at) == NodeAt(Children(j)[i], at)
    ensures PutAt(j, [i] + at, v) == SetChild(j, i, PutAt(Children(j)[i], at, v))
  {
    var c := [i] + at;
    assert c[0] == i && c[1..] == at;
  }

  lemma DetachAtUnder(j: Json, i: nat, parent: string, token: string, cs: bool)
    requires i < |Children(j)| && Branch(j, cs) && EndsToken(parent)
    ensures DetachAt(j, "/" + Token(j, i) + parent, token, cs)
         == (DetachAt(Children(j)[i], parent, token, cs).0,
             SetChild(j, i, DetachAt(Children(j)[i], parent, token, cs).1))
  {
    var child := Children(j)[i];
    ResolveUnder(j, i, parent, cs);
    SetChildBranch(j, i, child, cs);
    var at := Resolve(child, parent, cs);
    if at.Some? {
      PutUnder(j, i, at.value, DetachChild(NodeAt(child, at.value), DecodeToken(token)).1);
    }
  }

  lemma DetachUnder(j: Json, i: nat, path: string, cs: bool)
    requires i < |Children(j)| && Branch(j, cs) && path != "" && path[0] == '/'
    ensures Detach(j, "/" + Token(j, i) + path, cs)
         == (Detach(Children(j)[i], path, cs).0, SetChild(j, i, Detach(Children(j)[i], path, cs).1))
  {
    SplitUnder("/" + Token(j, i), path);
    DetachAtUnder(j, i, SplitPath(path).value.0, SplitPath(path).value.1, cs);
  }

  lemma InsertAtUnder(j: Json, i: nat, parent: string, token: string, v: Json, cs: bool)
    requires i < |Children(j)| && Branch(j, cs) && EndsToken(parent)
    ensures InsertAt(j, "/" + Token(j, i) + parent, token, v, cs)
         == (InsertAt(Children(j)[i], parent, token, v, cs).0,
             SetChild(j, i, InsertAt(Children(j)[i], parent, token, v, cs).1))
  {
    var child := Children(j)[i];
    ResolveUnder(j, i, parent, cs);
    SetChildBranch(j, i, child, cs);
    var at := Resolve(child, parent, cs);
    if at.Some? {
      PutUnder(j, i, at.value, InsertChild(NodeAt(child, at.value), DecodeToken(token), v, cs).1);
    }
  }

  lemma InsertUnder(j: Json, i: nat, path: string, v: Json, cs: bool)
    requires i < |Children(j)| && Branch(j, cs) && path != "" && path[0] == '/'
    ensures Insert(j, "/" + Token(j, i) + path, v, cs)
         == (Insert(Children(j)[i], path, v, cs).0, SetChild(j, i, Insert(Children(j)[i], path, v, cs).1))
  {
    SplitUnder("/" + Token(j, i), path);
    InsertAtUnder(j, i, SplitPath(path).value.0, SplitPath(path).value.1, v, cs);
  }

  /** Frame: an edit below child i acts on that child as it would on its own, and on nothing else. */
  lemma EditUnder(j: Json, i: nat, e: Edit, cs: bool)
    requires i < |Children(j)| && Branch(j, cs) && Composed(e) && e.path != "" && e.path[0] == '/'
    ensures ApplyEdit(j, PrefixEdit("/" + Token(j, i), e), cs)
         == (ApplyEdit(Children(j)[i], e, cs).0, SetChild(j, i, ApplyEdit(Children(j)[i], e, cs).1))
  {
    hide Detach, Insert, Token, Children, SetChild, Branch;
    var path := "/" + Token(j, i) + e.path;
    assert path != "" && path[0] == '/';
    if e.op.ADD? {
      InsertUnder(j, i, e.path, e.value.value, cs);
    } else {
      DetachUnder(j, i, e.path, cs);
      var rest := Detach(Children(j)[i], e.path, cs).1;
      if e.op.REPLACE? {
        var j' := SetChild(j, i, rest);
        SetChildBranch(j, i, rest, cs);
        InsertUnder(j', i, e.path, e.value.value, cs);
      }
    }
  }

  /** The same for a list of edits, as long as each of them succeeds on the child. */
  lemma {:induction false} EditsUnder(j: Json, i: nat, es: seq<Edit>, cs: bool)
    requires i < |Children(j)| && Branch(j, cs) && Deep(es)
    requires forall k | 0 <= k < |es| :: Composed(es[k])
    requires ApplyEdits(Children(j)[i], es, cs).0 == 0
    ensures forall k | 0 <= k < |es| :: Composed(PrefixAll("/" + Token(j, i), es)[k])
    ensures ApplyEdits(j, PrefixAll("/" + Token(j, i), es), cs)
         == (0, SetChild(j, i, ApplyEdits(Children(j)[i], es, cs).1))
    decreases |es|
  {
    hide ApplyEdit, Token, Children, SetChild, Branch;
    var p := "/" + Token(j, i);
    SetChildBranch(j, i, Children(j)[i], cs);
    if es != [] {
      EditUnder(j, i, es[0], cs);
      var next := ApplyEdit(Children(j)[i], es[0], cs).1;
      SetChildBranch(j, i, next, cs);
      EditsUnder(SetChild(j, i, next), i, es[1..], cs);
      assert PrefixAll(p, es)[1..] == PrefixAll(p, es[1..]);
    }
  }

  // ---- tests ----

  lemma {:induction false} NodeUnique(j: Json, at: seq<nat>, cs: bool)
    requires Unique(j, cs) && ValidPath(j, at)
    ensures Unique(NodeAt(j, at), cs)
    decreases |at|
  {
    if at != [] {
      NodeUnique(Children(j)[at[0]], at[1..], cs);
    }
  }

  /** A child exchanged for one that means the same. */
  lemma SameChild(j: Json, i: nat, v: Json, cs: bool)
    requires Unique(j, cs) && i < |Children(j)| && Unique(v, cs) && Meaning(v, cs) == Meaning(Children(j)[i], cs)
    ensures Unique(SetChild(j, i, v), cs) && Meaning(SetChild(j, i, v), cs) == Meaning(j, cs)
  {
    match j
    case Array(items) =>
      ItemsMeanArray(items, items[i := v], cs);
    case Object(ms) =>
      PairsMeanObject(ms, ms[i := Member(ms[i].key, v)], cs);
  }

  lemma {:induction false} SameNode(j: Json, at: seq<nat>, v: Json, cs: bool)
    requires Unique(j, cs) && ValidPath(j, at) && Unique(v, cs) && Meaning(v, cs) == Meaning(NodeAt(j, at), cs)
    ensures Unique(PutAt(j, at, v), cs) && Meaning(PutAt(j, at, v), cs) == Meaning(j, cs)
    decreases |at|
  {
    hide Unique, Meaning, SetChild, Children;
    if at != [] {
      ChildUnique(j, at[0], cs);
      SameNode(Children(j)[at[0]], at[1..], v, cs);
      SameChild(j, at[0], PutAt(Children(j)[at[0]], at[1..], v), cs);
    }
  }

  lemma ChildUnique(j: Json, i: nat, cs: bool)
    requires Unique(j, cs) && i < |Children(j)|
    ensures Unique(Children(j)[i], cs)
  {
  }

  /** "test" may reorder members of the document, but never changes what it means. */
  lemma TestKeepsMeaning(j: Json, patch: Json, path: string, cs: bool)
    requires Unique(j, cs)
    ensures var rest := Perform(j, patch, TEST, path, cs).1;
      Unique(rest, cs) && Meaning(rest, cs) == Meaning(j, cs)
  {
    hide Unique, Meaning, Resolve, Field, Left, CompareJson;
    var at, value := Resolve(j, path, cs), Field(patch, "value", cs);
    if at.Some? && value.Some? {
      NodeUnique(j, at.value, cs);
      LeftSame(NodeAt(j, at.value), value.value, cs, cs);
      SameNode(j, at.value, Left(NodeAt(j, at.value), value.value, cs), cs);
    }
  }

  /** "test" succeeds exactly when there is a node at the path and it means the value. */
  lemma TestDecides(j: Json, patch: Json, path: string, cs: bool)
    requires Sound(j, cs) && Sound(patch, cs)
    ensures var at, value := Resolve(j, path, cs), Field(patch, "value", cs);
      Perform(j, patch, TEST, path, cs).0 == 0 <==>
        at.Some? && value.Some? && Meaning(NodeAt(j, at.value), cs) == Meaning(value.value, cs)
  {
    var at, value := Resolve(j, path, cs), Field(patch, "value", cs);
    if at.Some? && value.Some? {
      NodeSound(j, at.value, cs);
      hide Resolve, Meaning, CompareJson, NodeAt;
      CompareJsonDecidesMeaning(NodeAt(j, at.value), value.value, cs);
    }
  }

  lemma {:induction false} NodeSound(j: Json, at: seq<nat>, cs: bool)
    requires Sound(j, cs) && ValidPath(j, at)
    ensures Sound(NodeAt(j, at), cs)
    decreases |at|
  {
    if at != [] {
      NodeSound(Children(j)[at[0]], at[1..], cs);
    }
  }
}
