/** What each patch operation does to any document, and which status a refused patch gets. */
module PatchOperations {
  import opened Text
  import opened JsonTree
  import opened PointerEscape
  import opened PointerLookup
  import opened Patch
  import opened MemberLists
  import opened PatchFrame

  // ---- patch objects ----

  /** A patch object with these fields, whatever else it holds. */
  ghost predicate Says(patch: Json, op: string, path: string, cs: bool) {
    Field(patch, "op", cs) == Some(String(op)) && Field(patch, "path", cs) == Some(String(path))
  }

  function RemovePatch(path: string): Json {
    Object([Member("op", String("remove")), Member("path", String(path))])
  }

  function AddPatch(path: string, v: Json): Json {
    Object([Member("op", String("add")), Member("path", String(path)), Member("value", v)])
  }

  lemma RemoveSays(path: string, cs: bool)
    ensures Says(RemovePatch(path), "remove", path, cs)
  {
    var ms := RemovePatch(path).members;
    LookupNamed(ms, 0, "op", cs);
    LookupNamed(ms, 1, "path", cs);
  }

  lemma AddSays(path: string, v: Json, cs: bool)
    ensures Says(AddPatch(path, v), "add", path, cs) && Field(AddPatch(path, v), "value", cs) == Some(v)
  {
    var ms := AddPatch(path, v).members;
    LookupNamed(ms, 0, "op", cs);
    LookupNamed(ms, 1, "path", cs);
    LookupNamed(ms, 2, "value", cs);
  }

  lemma SixNames()
    ensures OperationNamed("add") == ADD && OperationNamed("remove") == REMOVE && OperationNamed("replace") == REPLACE
    ensures OperationNamed("move") == MOVE && OperationNamed("copy") == COPY && OperationNamed("test") == TEST
  {
    assert |"add"| == 3 && |"remove"| == 6 && |"replace"| == 7;
    assert "move"[0] == 'm' && "copy"[0] == 'c' && "test"[0] == 't';
  }

  lemma ApplySays(j: Json, patch: Json, op: string, path: string, cs: bool)
    requires Says(patch, op, path, cs)
    ensures Apply(j, patch, cs) == Perform(j, patch, OperationNamed(op), path, cs)
  {
    hide Field, OperationNamed, Perform;
  }

  lemma Removes(j: Json, path: string, cs: bool)
    requires path != ""
    ensures var (item, rest) := Detach(j, path, cs);
      Apply(j, RemovePatch(path), cs) == (if item.None? then 13 else 0, rest)
  {
    RemoveSays(path, cs);
    SixNames();
    ApplySays(j, RemovePatch(path), "remove", path, cs);
    hide Detach, OperationNamed, Field, RemovePatch, Apply, Says;
  }

  lemma Adds(j: Json, path: string, v: Json, cs: bool)
    requires path != ""
    ensures Apply(j, AddPatch(path, v), cs)
      == if Height(v) <= CJSON_CIRCULAR_LIMIT then Insert(j, path, v, cs) else (8, j)
  {
    AddSays(path, v, cs);
    DuplicateRecExact(v, 0);
    hide Insert, Field, AddPatch, Apply, Says, Height;
    AddPerforms(j, AddPatch(path, v), path, v, cs);
  }

  lemma AddPerforms(j: Json, patch: Json, path: string, v: Json, cs: bool)
    requires path != "" && Says(patch, "add", path, cs) && Field(patch, "value", cs) == Some(v)
    ensures Apply(j, patch, cs) == if Duplicate(v).Some? then Insert(j, path, Duplicate(v).value, cs) else (8, j)
  {
    SixNames();
    ApplySays(j, patch, "add", path, cs);
    hide Insert, OperationNamed, Field, Duplicate, Apply, Says;
    assert Field(patch, "value", cs) == Some(v);
  }

  /** The two patches one after the other. */
  lemma RemovesAndAdds(j: Json, from: string, path: string, v: Json, cs: bool)
    requires from != "" && path != "" && Detach(j, from, cs).0.Some?
    ensures var rest := Detach(j, from, cs).1;
      ApplyAll(j, [RemovePatch(from), AddPatch(path, v)], cs)
        == if Height(v) <= CJSON_CIRCULAR_LIMIT then Insert(rest, path, v, cs) else (8, rest)
  {
    Removes(j, from, cs);
    var rest := Detach(j, from, cs).1;
    Adds(rest, path, v, cs);
    hide *;
    TwoPatches(j, RemovePatch(from), AddPatch(path, v), cs);
  }

  lemma TwoPatches(j: Json, p: Json, q: Json, cs: bool)
    ensures var (status, next) := Apply(j, p, cs);
      ApplyAll(j, [p, q], cs) == if status != 0 then (status, next) else Apply(next, q, cs)
  {
    hide Apply;
    assert [p, q][1..] == [q];
    OnePatch(Apply(j, p, cs).1, q, cs);
  }

  lemma OnePatch(j: Json, q: Json, cs: bool)
    ensures ApplyAll(j, [q], cs) == Apply(j, q, cs)
  {
    hide Apply;
    assert [q][1..] == [];
  }

  // ---- which child a path names ----

  /** A pointer: empty, or starting with a slash. */
  predicate Pointer(p: string) { p == "" || p[0] == '/' }

  /** Where a path ends: its parent, found in the case mode, and the child there that the key names ignoring case. */
  function Target(j: Json, parent: string, key: string, cs: bool): (r: Option<seq<nat>>)
    ensures r.Some? ==> ValidPath(j, r.value)
  {
    var at := Resolve(j, parent, cs);
    if at.None? then None
    else
      var i := Step(NodeAt(j, at.value), Encode(key), false);
      if i.None? then None
      else
        OneStep(NodeAt(j, at.value), i.value);
        PathAppend(j, at.value, [i.value]);
        Some(at.value + [i.value])
  }

  lemma TokenAfter(parent: string, key: string)
    ensures SplitPath(parent + "/" + Encode(key)) == Some((parent, Encode(key)))
  {
    EncodeNoSlash(key);
    var path, n := parent + "/" + Encode(key), |parent|;
    assert path[n] == '/' && path[n + 1..] == Encode(key) && path[..n] == parent;
    LastSlashUnique(path, n);
  }

  /** The name walk of detach_path finds what a pointer token finds, ignoring case. */
  lemma SameMember(ms: seq<Member>, key: string, cs: bool)
    ensures MatchMember(ms, Encode(key), cs) == Lookup(ms, key, cs)
  {
    var r := MatchMember(ms, Encode(key), cs);
    forall i | 0 <= i < |ms|
      ensures ComparePointers(ms[i].key, Encode(key), cs) <==> Fold(ms[i].key, cs) == Fold(key, cs)
    {
      ComparePointersEncoded(ms[i].key, key, "", cs);
      assert Encode(key) + "" == Encode(key);
    }
  }

  /** An escaped key reads as an index exactly when the key does. */
  lemma SameIndex(key: string)
    requires Decodable(key)
    ensures DecodeIndex(key) == DecodeIndex(Encode(key))
  {
    if '~' !in key {
      EncodePlain(key);
    } else {
      NoIndex(key);
      EncodeTilde(key);
      EncodeNoSlash(key);
      NoIndex(Encode(key));
    }
  }

  lemma {:induction false} EncodeTilde(key: string)
    requires '~' in key
    ensures '~' in Encode(key)
  {
    if key[0] != '~' {
      EncodeTilde(key[1..]);
    }
  }

  lemma NoIndex(p: string)
    requires '~' in p && '/' !in p
    ensures DecodeIndex(p) == None
  {
    ScanStops(p, 0);
  }

  lemma {:induction false} ScanStops(p: string, acc: nat)
    requires '~' in p && '/' !in p
    ensures !EndsToken(ScanIndex(p, acc).1)
  {
    if IsDigit(p[0]) {
      ScanStops(p[1..], (10 * acc + DigitValue(p[0])) % SIZE_RANGE);
    }
  }

  /** Detaching takes that child, and nothing when there is none. */
  lemma DetachTakes(node: Json, key: string)
    requires Decodable(key)
    ensures var i := Step(node, Encode(key), false);
      if i.None? then DetachChild(node, DecodeToken(Encode(key))) == (None, node)
      else DetachChild(node, DecodeToken(Encode(key))).0 == Some(Children(node)[i.value])
  {
    DecodeUndoesEncode(key);
    match node
    case Array(items) => SameIndex(key);
    case Object(ms) => SameMember(ms, key, false);
    case _ =>
  }

  lemma {:induction false} PutSame(j: Json, at: seq<nat>)
    requires ValidPath(j, at)
    ensures PutAt(j, at, NodeAt(j, at)) == j
    decreases |at|
  {
    if at != [] {
      PutSame(Children(j)[at[0]], at[1..]);
      SetSame(j, at[0]);
    }
  }

  lemma SetSame(j: Json, i: nat)
    requires i < |Children(j)|
    ensures SetChild(j, i, Children(j)[i]) == j
  {
    match j
    case Array(items) => assert items[i := items[i]] == items;
    case Object(ms) => assert ms[i := Member(ms[i].key, ms[i].value)] == ms;
  }

  lemma DetachPathTakes(j: Json, parent: string, key: string, cs: bool)
    requires Decodable(key)
    ensures var at, taken := Target(j, parent, key, cs), Detach(j, parent + "/" + Encode(key), cs);
      if at.None? then taken == (None, j) else taken.0 == Some(NodeAt(j, at.value))
  {
    TokenAfter(parent, key);
    var at := Resolve(j, parent, cs);
    if at.Some? {
      var node := NodeAt(j, at.value);
      DetachTakes(node, key);
      PutSame(j, at.value);
      hide Resolve, DetachChild, DecodeToken, SplitPath, Encode, Step, Children, Decodable;
      var i := Step(node, Encode(key), false);
      if i.Some? {
        OneStep(node, i.value);
        PathAppend(j, at.value, [i.value]);
      }
    }
  }

  // ---- move ----

  /**
   * A move, in any document: status 5 and nothing changed when nothing is there, and otherwise the removal at "from"
   * followed by the addition at "path" of what was there, but without the nesting limit that an addition has.
   */
  lemma MoveIsRemoveAndAdd(j: Json, patch: Json, parent: string, key: string, path: string, cs: bool)
    requires Says(patch, "move", path, cs) && path != ""
    requires Field(patch, "from", cs) == Some(String(parent + "/" + Encode(key))) && Decodable(key)
    ensures var from, at := parent + "/" + Encode(key), Target(j, parent, key, cs);
      if at.None? then Apply(j, patch, cs) == (5, j)
      else
        var v := NodeAt(j, at.value);
        (Apply(j, patch, cs) == ApplyAll(j, [RemovePatch(from), AddPatch(path, v)], cs)) <==>
        Height(v) <= CJSON_CIRCULAR_LIMIT
  {
    var from, at := parent + "/" + Encode(key), Target(j, parent, key, cs);
    SixNames();
    DetachPathTakes(j, parent, key, cs);
    MoveFetches(j, patch, from, path, cs);
    if at.Some? {
      var rest := Detach(j, from, cs).1;
      var v := NodeAt(j, at.value);
      RemovesAndAdds(j, from, path, v, cs);
      InsertStatus(rest, path, v, cs);
    }
  }

  lemma MoveFetches(j: Json, patch: Json, from: string, path: string, cs: bool)
    requires Says(patch, "move", path, cs) && Field(patch, "from", cs) == Some(String(from))
    ensures var (item, rest) := Detach(j, from, cs);
      Apply(j, patch, cs) == if item.None? then (5, rest) else Insert(rest, path, item.value, cs)
  {
    SixNames();
    ApplySays(j, patch, "move", path, cs);
    hide Detach, Insert, OperationNamed, Field, Apply, Says;
  }

  lemma InsertStatus(j: Json, path: string, v: Json, cs: bool)
    ensures Insert(j, path, v, cs).0 in {0, 9, 10, 11}
  {
    hide Resolve, DecodeToken, DecodeIndex, DeleteMember;
  }

  /** Where keys are unique ignoring case, what is moved is the value that the pointer "from" leads to. */
  lemma TargetIsResolved(j: Json, parent: string, key: string, cs: bool)
    requires Unique(j, false) && Pointer(parent)
    ensures var at := Resolve(j, parent + "/" + Encode(key), cs);
      at.Some? ==> Target(j, parent, key, cs) == at
    ensures !cs ==> Target(j, parent, key, cs) == Resolve(j, parent + "/" + Encode(key), cs)
  {
    ResolveLast(j, parent, Encode(key), cs) by {
      EncodeNoSlash(key);
    }
    var at := Resolve(j, parent, cs);
    if at.Some? {
      NodeUnique(j, at.value, false);
      SameStep(NodeAt(j, at.value), key, cs);
    }
  }

  /** There: a move of what a pointer resolves to is its removal followed by its addition at the other path. */
  lemma MoveResolved(j: Json, patch: Json, parent: string, key: string, path: string, cs: bool)
    requires Unique(j, false) && Pointer(parent) && Decodable(key)
    requires Says(patch, "move", path, cs) && path != ""
    requires Field(patch, "from", cs) == Some(String(parent + "/" + Encode(key)))
    ensures var from := parent + "/" + Encode(key);
      var at := Resolve(j, from, cs);
      at.Some? && Height(NodeAt(j, at.value)) <= 10000 ==>
        Apply(j, patch, cs) == ApplyAll(j, [RemovePatch(from), AddPatch(path, NodeAt(j, at.value))], cs)
  {
    hide *;
    TargetIsResolved(j, parent, key, cs);
    MoveIsRemoveAndAdd(j, patch, parent, key, path, cs);
    CircularLimit();
  }

  lemma CircularLimit()
    ensures CJSON_CIRCULAR_LIMIT == 10000
  {
  }

  lemma SameStep(node: Json, key: string, cs: bool)
    requires Unique(node, false)
    ensures Step(node, Encode(key), cs).Some? ==> Step(node, Encode(key), false) == Step(node, Encode(key), cs)
  {
    if node.Object? {
      var ms := node.members;
      SameMember(ms, key, cs);
      SameMember(ms, key, false);
      var i := Lookup(ms, key, cs);
      if i < |ms| {
        FoldCoarser(ms[i].key, key, cs);
        FirstDistinct(ms, i, false);
      }
    }
  }

  /** A pointer with one token more: the parent, and one step. */
  lemma {:induction false} ResolveLast(j: Json, parent: string, token: string, cs: bool)
    requires Pointer(parent) && '/' !in token
    ensures var at := Resolve(j, parent, cs);
      Resolve(j, parent + "/" + token, cs) ==
        if at.None? then None
        else
          var i := Step(NodeAt(j, at.value), token, cs);
          if i.None? then None else Some(at.value + [i.value])
    decreases |parent|
  {
    hide *;
    if parent == "" {
      ResolveOne(j, token, cs);
    } else {
      var inner := parent[1..];
      Slashed(parent, token);
      StepBehind(j, inner, token, cs);
      SkipBehind(inner, token);
      ResolveDown(j, inner + ("/" + token), cs);
      ResolveDown(j, inner, cs);
      var i := Step(j, inner, cs);
      if i.Some? {
        var child, rest := Children(j)[i.value], SkipToken(inner);
        SkipStarts(inner);
        ResolveLast(child, rest, token, cs);
        if Resolve(child, rest, cs).Some? {
          LastDown(j, i.value, Resolve(child, rest, cs).value);
        }
      }
    }
  }

  lemma ResolveOne(j: Json, token: string, cs: bool)
    requires '/' !in token
    ensures Resolve(j, "" + "/" + token, cs)
      == if Step(j, token, cs).None? then None else Some([] + [Step(j, token, cs).value])
    ensures Resolve(j, "", cs) == Some([]) && NodeAt(j, []) == j
  {
    hide Step;
    SkipPlain(token, "");
    assert token + "" == token;
    assert ("" + "/" + token)[1..] == token;
    assert forall i: nat :: [i] + [] == [] + [i];
  }

  lemma Slashed(parent: string, token: string)
    requires Pointer(parent) && parent != ""
    ensures parent == "/" + parent[1..] && parent + "/" + token == "/" + (parent[1..] + ("/" + token))
    ensures forall rest :: rest + "/" + token == rest + ("/" + token)
  {
  }

  lemma ResolveDown(j: Json, p: string, cs: bool)
    ensures var i := Step(j, p, cs);
      Resolve(j, "/" + p, cs) ==
        if i.None? || Resolve(Children(j)[i.value], SkipToken(p), cs).None? then None
        else Some([i.value] + Resolve(Children(j)[i.value], SkipToken(p), cs).value)
  {
    hide Step, SkipToken;
    assert ("/" + p)[1..] == p;
  }

  lemma LastDown(j: Json, i: nat, at: seq<nat>)
    requires i < |Children(j)| && ValidPath(Children(j)[i], at)
    ensures ValidPath(j, [i] + at) && NodeAt(j, [i] + at) == NodeAt(Children(j)[i], at)
    ensures forall k: nat :: [i] + (at + [k]) == ([i] + at) + [k]
  {
    PathHead([i], at);
    assert [i][1..] + at == at;
    hide Children;
    OneDown(j, [i] + at, Children(j)[i]);
  }

  lemma SkipStarts(p: string)
    ensures Pointer(SkipToken(p))
  {
  }

  lemma {:induction false} SkipBehind(p: string, token: string)
    ensures SkipToken(p + ("/" + token)) == SkipToken(p) + ("/" + token)
  {
    if !EndsToken(p) {
      assert (p + ("/" + token))[1..] == p[1..] + ("/" + token);
      SkipBehind(p[1..], token);
    } else if p == "" {
      assert p + ("/" + token) == "/" + token;
    }
  }

  lemma StepBehind(j: Json, p: string, token: string, cs: bool)
    ensures Step(j, p + ("/" + token), cs) == Step(j, p, cs)
  {
    match j
    case Array(_) => IndexBehind(p, token);
    case Object(ms) => MemberBehind(ms, p, token, cs);
    case _ =>
  }

  lemma IndexBehind(p: string, token: string)
    ensures DecodeIndex(p + ("/" + token)) == DecodeIndex(p)
  {
    ScanBehind(p, token, 0);
  }

  lemma {:induction false} ScanBehind(p: string, token: string, acc: nat)
    ensures ScanIndex(p + ("/" + token), acc) == (ScanIndex(p, acc).0, ScanIndex(p, acc).1 + ("/" + token))
  {
    if p != "" && IsDigit(p[0]) {
      assert (p + ("/" + token))[1..] == p[1..] + ("/" + token);
      ScanBehind(p[1..], token, (10 * acc + DigitValue(p[0])) % SIZE_RANGE);
    } else if p == "" {
      assert p + ("/" + token) == "/" + token;
    }
  }

  lemma {:induction false} MemberBehind(ms: seq<Member>, p: string, token: string, cs: bool)
    ensures MatchMember(ms, p + ("/" + token), cs) == MatchMember(ms, p, cs)
  {
    if ms != [] {
      NameBehind(ms[0].key, p, token, cs);
      MemberBehind(ms[1..], p, token, cs);
    }
  }

  lemma {:induction false} NameBehind(name: string, p: string, token: string, cs: bool)
    ensures ComparePointers(name, p + ("/" + token), cs) == ComparePointers(name, p, cs)
    decreases |name|
  {
    var q := p + ("/" + token);
    if name != "" && p != "" && p[0] != '/' {
      assert q[..1] == p[..1] && q[1..] == p[1..] + ("/" + token);
      NameBehind(name[1..], p[1..], token, cs);
      if |p| > 1 {
        assert q[2..] == p[2..] + ("/" + token);
        NameBehind(name[1..], p[2..], token, cs);
      }
    }
  }

  // ---- copy ----

  /**
   * A copy, in any document and from any path: status 5 when the path leads nowhere, 6 when the value is nested too
   * deeply, and otherwise the addition at "path" of the value there.
   */
  lemma CopyIsAdd(j: Json, patch: Json, from: string, path: string, cs: bool)
    requires Says(patch, "copy", path, cs) && path != "" && Field(patch, "from", cs) == Some(String(from))
    ensures var at := Resolve(j, from, cs);
      Apply(j, patch, cs) ==
        if at.None? then (5, j)
        else if Height(NodeAt(j, at.value)) > CJSON_CIRCULAR_LIMIT then (6, j)
        else Apply(j, AddPatch(path, NodeAt(j, at.value)), cs)
  {
    hide Insert, Field, Resolve, Apply, Says, NodeAt, Height;
    var at := Resolve(j, from, cs);
    if at.None? {
      CopyNothing(j, patch, from, path, cs);
    } else {
      var v := NodeAt(j, at.value);
      DuplicateRecExact(v, 0);
      Adds(j, path, v, cs);
      CopyFetches(j, patch, from, path, cs);
    }
  }

  lemma CopyNothing(j: Json, patch: Json, from: string, path: string, cs: bool)
    requires Says(patch, "copy", path, cs) && Field(patch, "from", cs) == Some(String(from))
    requires Resolve(j, from, cs).None?
    ensures Apply(j, patch, cs) == (5, j)
  {
    SixNames();
    ApplySays(j, patch, "copy", path, cs);
    hide Insert, Detach, OperationNamed, Field, Resolve, Duplicate, Apply, Says, NodeAt, PutAt;
  }

  lemma CopyFetches(j: Json, patch: Json, from: string, path: string, cs: bool)
    requires Says(patch, "copy", path, cs) && Field(patch, "from", cs) == Some(String(from))
    requires Resolve(j, from, cs).Some?
    ensures var v := NodeAt(j, Resolve(j, from, cs).value);
      Apply(j, patch, cs) == if Duplicate(v).None? then (6, j) else Insert(j, path, Duplicate(v).value, cs)
  {
    SixNames();
    ApplySays(j, patch, "copy", path, cs);
    hide Insert, OperationNamed, Field, Resolve, Duplicate, Apply, Says;
  }

  /** Moved or copied to the empty path nothing arrives; what was moved is gone. */
  lemma NothingToRoot(j: Json, patch: Json, from: string, cs: bool)
    requires Field(patch, "from", cs) == Some(String(from)) && from != ""
    ensures var at := Resolve(j, from, cs);
      Says(patch, "copy", "", cs) && at.Some? && Height(NodeAt(j, at.value)) <= CJSON_CIRCULAR_LIMIT ==>
        Apply(j, patch, cs) == (9, j)
    ensures Says(patch, "move", "", cs) && Apply(j, RemovePatch(from), cs).0 == 0 ==>
      Apply(j, patch, cs) == (9, Apply(j, RemovePatch(from), cs).1)
  {
    var at := Resolve(j, from, cs);
    if Says(patch, "copy", "", cs) && at.Some? {
      DuplicateRecExact(NodeAt(j, at.value), 0);
      CopyFetches(j, patch, from, "", cs);
    }
    if Says(patch, "move", "", cs) {
      MoveFetches(j, patch, from, "", cs);
      Removes(j, from, cs);
    }
  }

  // ---- add ----

  /** Adding at an index: what was there and behind it moves up, and nothing else changes. */
  lemma AddAtIndex(j: Json, parent: string, i: nat, v: Json, cs: bool) returns (items': seq<Json>)
    requires Resolve(j, parent, cs).Some? && NodeAt(j, Resolve(j, parent, cs).value).Array?
    requires i <= |NodeAt(j, Resolve(j, parent, cs).value).items| && i < SIZE_RANGE
    requires Height(v) <= CJSON_CIRCULAR_LIMIT
    ensures var at := Resolve(j, parent, cs).value;
      var items := NodeAt(j, at).items;
      && Apply(j, AddPatch(parent + "/" + Decimal(i), v), cs) == (0, PutAt(j, at, Array(items')))
      && |items'| == |items| + 1 && items'[i] == v
      && (forall k | 0 <= k < i :: items'[k] == items[k]) && (forall k | i <= k < |items| :: items'[k + 1] == items[k])
  {
    var at := Resolve(j, parent, cs).value;
    var items := NodeAt(j, at).items;
    hide *;
    items' := IndexInserted(items, i, v);
    PrintedIndex(i);
    InsertsAt(j, parent, Decimal(i), v, cs);
  }

  lemma IndexInserted(items: seq<Json>, i: nat, v: Json) returns (items': seq<Json>)
    requires i <= |items| && i < SIZE_RANGE
    ensures InsertChild(Array(items), Decimal(i), v, false) == InsertChild(Array(items), Decimal(i), v, true)
    ensures InsertChild(Array(items), Decimal(i), v, true) == (0, Array(items'))
    ensures |items'| == |items| + 1 && items'[i] == v
    ensures forall k | 0 <= k < i :: items'[k] == items[k]
    ensures forall k | i <= k < |items| :: items'[k + 1] == items[k]
  {
    PrintedIndex(i);
    hide DecodeIndex, Decimal, Encode, DecodeToken, Decodable;
    items' := items[..i] + [v] + items[i..];
  }

  lemma PrintedIndex(i: nat)
    requires i < SIZE_RANGE
    ensures Encode(Decimal(i)) == Decimal(i) == DecodeToken(Decimal(i)) && Decimal(i) != "-"
    ensures DecodeIndex(Decimal(i)) == Some(i) && Decodable(Decimal(i))
  {
    DecimalPlain(i);
    EncodePlain(Decimal(i));
    PlainDecodable(Decimal(i));
    DecodePrintedIndex(i, "");
    assert Decimal(i) + "" == Decimal(i);
  }

  /** An addition below a parent, under the key that its last token decodes to. */
  lemma InsertsAt(j: Json, parent: string, key: string, v: Json, cs: bool)
    requires Decodable(key) && Height(v) <= CJSON_CIRCULAR_LIMIT
    ensures var at := Resolve(j, parent, cs);
      Apply(j, AddPatch(parent + "/" + Encode(key), v), cs) ==
        if at.None? then (9, j)
        else
          var (status, node) := InsertChild(NodeAt(j, at.value), key, v, cs);
          (status, PutAt(j, at.value, node))
  {
    hide InsertChild, Resolve;
    Adds(j, parent + "/" + Encode(key), v, cs);
    TokenAfter(parent, key);
    DecodeUndoesEncode(key);
  }

  /** Adding under a name: the object means what it meant, with this value under this key. */
  lemma AddUnderKey(j: Json, parent: string, key: string, v: Json, cs: bool) returns (ms': seq<Member>)
    requires Resolve(j, parent, cs).Some? && NodeAt(j, Resolve(j, parent, cs).value).Object?
    requires Decodable(key) && Height(v) <= CJSON_CIRCULAR_LIMIT
    requires DistinctKeys(NodeAt(j, Resolve(j, parent, cs).value).members, cs)
    ensures var at := Resolve(j, parent, cs).value;
      var ms := NodeAt(j, at).members;
      && Apply(j, AddPatch(parent + "/" + Encode(key), v), cs) == (0, PutAt(j, at, Object(ms')))
      && DistinctKeys(ms', cs) && Meanings(ms', cs) == Meanings(ms, cs)[Fold(key, cs) := Meaning(v, cs)]
      && ms' != [] && ms'[|ms'| - 1] == Member(key, v)
  {
    var at := Resolve(j, parent, cs).value;
    var ms := NodeAt(j, at).members;
    ms' := DeleteMember(ms, key, cs) + [Member(key, v)];
    InsertsAt(j, parent, key, v, cs);
    PutFacts(ms, Member(key, v), cs);
  }

  /** The refused additions: 9 without a container there, 11 for what is no index, 10 for an index past the end. */
  lemma AddRefused(j: Json, parent: string, key: string, v: Json, cs: bool)
    requires Decodable(key) && Height(v) <= CJSON_CIRCULAR_LIMIT
    ensures var at := Resolve(j, parent, cs);
      var r := Apply(j, AddPatch(parent + "/" + Encode(key), v), cs);
      && (at.None? || (!NodeAt(j, at.value).Array? && !NodeAt(j, at.value).Object?) ==> r == (9, j))
      && (at.Some? && NodeAt(j, at.value).Array? && key != "-" ==>
        var items := NodeAt(j, at.value).items;
        && (DecodeIndex(key) == None ==> r == (11, j))
        && (DecodeIndex(key).Some? && DecodeIndex(key).value > |items| ==> r == (10, j)))
  {
    InsertsAt(j, parent, key, v, cs);
    var at := Resolve(j, parent, cs);
    hide Resolve, Apply, AddPatch, DecodeIndex, Encode, Decodable;
    if at.Some? {
      PutSame(j, at.value);
    }
  }

  // ---- remove and replace ----

  /** Removing at an index: what is behind it moves down, and nothing else changes. */
  lemma RemoveAtIndex(j: Json, parent: string, i: nat, cs: bool) returns (items': seq<Json>)
    requires Resolve(j, parent, cs).Some? && NodeAt(j, Resolve(j, parent, cs).value).Array?
    requires i < |NodeAt(j, Resolve(j, parent, cs).value).items| && i < SIZE_RANGE
    ensures var at := Resolve(j, parent, cs).value;
      var items := NodeAt(j, at).items;
      && Apply(j, RemovePatch(parent + "/" + Decimal(i)), cs) == (0, PutAt(j, at, Array(items')))
      && |items'| == |items| - 1
      && (forall k | 0 <= k < i :: items'[k] == items[k]) && (forall k | i < k < |items| :: items'[k - 1] == items[k])
  {
    var at := Resolve(j, parent, cs).value;
    hide *;
    items' := IndexDetached(NodeAt(j, at).items, i);
    PrintedIndex(i);
    Detaches(j, parent, Decimal(i), cs);
  }

  lemma IndexDetached(items: seq<Json>, i: nat) returns (items': seq<Json>)
    requires i < |items| && i < SIZE_RANGE
    ensures DetachChild(Array(items), Decimal(i)) == (Some(items[i]), Array(items'))
    ensures |items'| == |items| - 1
    ensures forall k | 0 <= k < i :: items'[k] == items[k]
    ensures forall k | i < k < |items| :: items'[k - 1] == items[k]
  {
    PrintedIndex(i);
    hide DecodeIndex, Decimal, Encode, DecodeToken, Decodable;
    items' := DropAt(items, i);
  }

  lemma Detaches(j: Json, parent: string, key: string, cs: bool)
    requires Decodable(key)
    ensures var at := Resolve(j, parent, cs);
      Apply(j, RemovePatch(parent + "/" + Encode(key)), cs) ==
        if at.None? then (13, j)
        else
          var (item, node) := DetachChild(NodeAt(j, at.value), key);
          (if item.None? then 13 else 0, PutAt(j, at.value, node))
  {
    hide DetachChild, Resolve;
    Removes(j, parent + "/" + Encode(key), cs);
    TokenAfter(parent, key);
    DecodeUndoesEncode(key);
  }

  /** Status 13 exactly when there is nothing to remove, and then nothing changes. */
  lemma RemoveRefused(j: Json, parent: string, key: string, cs: bool)
    requires Decodable(key)
    ensures var r := Apply(j, RemovePatch(parent + "/" + Encode(key)), cs);
      if Target(j, parent, key, cs).None? then r == (13, j) else r.0 == 0
  {
    Removes(j, parent + "/" + Encode(key), cs);
    DetachPathTakes(j, parent, key, cs);
  }

  /** Replacing is removing and then adding the value. */
  lemma ReplaceIsRemoveAndAdd(j: Json, patch: Json, path: string, v: Json, cs: bool)
    requires Says(patch, "replace", path, cs) && Field(patch, "value", cs) == Some(v) && path != ""
    ensures Apply(j, patch, cs) == ApplyAll(j, [RemovePatch(path), AddPatch(path, v)], cs)
  {
    Removes(j, path, cs);
    var rest := Detach(j, path, cs).1;
    Adds(rest, path, v, cs);
    TwoPatches(j, RemovePatch(path), AddPatch(path, v), cs);
    DuplicateRecExact(v, 0);
    ReplacePerforms(j, patch, path, v, cs);
  }

  lemma ReplacePerforms(j: Json, patch: Json, path: string, v: Json, cs: bool)
    requires Says(patch, "replace", path, cs) && Field(patch, "value", cs) == Some(v) && path != ""
    ensures var (item, rest) := Detach(j, path, cs);
      Apply(j, patch, cs) == if item.None? then (13, rest)
        else if Duplicate(v).None? then (8, rest)
        else Insert(rest, path, Duplicate(v).value, cs)
  {
    SixNames();
    ApplySays(j, patch, "replace", path, cs);
    hide Detach, Insert, OperationNamed, Field, Duplicate, Apply, Says;
    assert Field(patch, "value", cs) == Some(v);
  }

  /** Removing the root succeeds and leaves an invalid node. */
  lemma RootRemoved(j: Json, patch: Json, cs: bool)
    requires Says(patch, "remove", "", cs)
    ensures Apply(j, patch, cs) == (0, Invalid)
  {
    SixNames();
    ApplySays(j, patch, "remove", "", cs);
    hide Detach, Insert, OperationNamed, Field, Apply, Says;
  }

  /** A replacement without a value has status 7, and has removed the old value all the same. */
  lemma ReplaceWithoutValue(j: Json, patch: Json, path: string, cs: bool)
    requires Says(patch, "replace", path, cs) && Field(patch, "value", cs) == None && path != ""
    ensures var (status, rest) := Apply(j, RemovePatch(path), cs);
      Apply(j, patch, cs) == (if status != 0 then status else 7, rest)
  {
    Removes(j, path, cs);
    hide Detach, RemovePatch, Apply;
    NoReplacement(j, patch, path, cs);
  }

  lemma NoReplacement(j: Json, patch: Json, path: string, cs: bool)
    requires Says(patch, "replace", path, cs) && Field(patch, "value", cs) == None && path != ""
    ensures var (item, rest) := Detach(j, path, cs);
      Apply(j, patch, cs) == (if item.None? then 13 else 7, rest)
  {
    SixNames();
    ApplySays(j, patch, "replace", path, cs);
    hide Detach, Insert, OperationNamed, Field, Resolve, Duplicate, Apply, Says, NodeAt, PutAt;
    assert Field(patch, "value", cs) == None;
  }

  // ---- lists of patches ----

  /** A list of one is that patch; what is left of the document after a failure stays. */
  lemma {:induction false} AppliedInOrder(j: Json, ps: seq<Json>, qs: seq<Json>, cs: bool)
    ensures |ps| == 1 ==> ApplyAll(j, ps, cs) == Apply(j, ps[0], cs)
    ensures var (status, next) := ApplyAll(j, ps, cs);
      ApplyAll(j, ps + qs, cs) == if status != 0 then (status, next) else ApplyAll(next, qs, cs)
    decreases |ps|
  {
    hide Apply;
    if ps == [] {
      assert ps + qs == qs;
    } else {
      if |ps| == 1 {
        assert ps == [ps[0]];
        OnePatch(j, ps[0], cs);
      }
      assert (ps + qs)[1..] == ps[1..] + qs;
      AppliedInOrder(Apply(j, ps[0], cs).1, ps[1..], qs, cs);
    }
  }

  /** What is no array of patches has status 1 and changes nothing. */
  lemma NoListRefused(j: Json, patches: Json, cs: bool)
    ensures ApplyPatches(j, patches, cs) == if patches.Array? then ApplyAll(j, patches.items, cs) else (1, j)
  {
  }

  // ---- undoing ----

  /** What an addition at an index did, the removal there undoes. */
  lemma AddThenRemove(j: Json, parent: string, i: nat, v: Json, cs: bool)
    requires Resolve(j, parent, cs).Some? && NodeAt(j, Resolve(j, parent, cs).value).Array?
    requires i <= |NodeAt(j, Resolve(j, parent, cs).value).items| && i < SIZE_RANGE
    requires Height(v) <= CJSON_CIRCULAR_LIMIT && Pointer(parent)
    ensures var path := parent + "/" + Decimal(i);
      ApplyAll(j, [AddPatch(path, v), RemovePatch(path)], cs) == (0, j)
  {
    var path, at := parent + "/" + Decimal(i), Resolve(j, parent, cs).value;
    var items := NodeAt(j, at).items;
    hide *;
    var items' := AddAtIndex(j, parent, i, v, cs);
    var j' := PutAt(j, at, Array(items'));
    ResolvePut(j, parent, Array(items'), cs);
    var items'' := RemoveAtIndex(j', parent, i, cs);
    BackAgain(items, items', items'', i);
    PutTwice(j, at, Array(items'), Array(items));
    PutSame(j, at);
    TwoPatches(j, AddPatch(path, v), RemovePatch(path), cs);
  }

  lemma BackAgain(a: seq<Json>, b: seq<Json>, c: seq<Json>, i: nat)
    requires i <= |a| && |b| == |a| + 1 && |c| == |a|
    requires (forall k | 0 <= k < i :: b[k] == a[k]) && (forall k | i <= k < |a| :: b[k + 1] == a[k])
    requires (forall k | 0 <= k < i :: c[k] == b[k]) && (forall k | i < k < |b| :: c[k - 1] == b[k])
    ensures c == a
  {
    forall k | 0 <= k < |a| ensures c[k] == a[k] {
      if k >= i {
        assert c[(k + 1) - 1] == b[k + 1];
      }
    }
  }

  /** Exchanging a node for another leaves the pointer to it as it was. */
  lemma {:induction false} ResolvePut(j: Json, p: string, v: Json, cs: bool)
    requires Resolve(j, p, cs).Some?
    ensures var at := Resolve(j, p, cs).value;
      var j' := PutAt(j, at, v);
      Resolve(j', p, cs) == Some(at) && NodeAt(j', at) == v
    decreases |p|
  {
    hide *;
    ResolveTurn(j, p, cs);
    if p != [] && p[0] == '/' {
      var i := Step(j, p[1..], cs).value;
      var child, at := Children(j)[i], Resolve(j, p, cs).value;
      ResolvePut(child, SkipToken(p[1..]), v, cs);
      StepKept(j, i, PutAt(child, at[1..], v), p[1..], cs);
      PutDown(j, at, v);
      ResolveTurn(PutAt(j, at, v), p, cs);
      OneDown(PutAt(j, at, v), at, PutAt(child, at[1..], v));
    } else {
      PutHere(j, v);
      ResolveTurn(v, p, cs);
    }
  }

  /** One token of a resolved pointer. */
  lemma ResolveTurn(j: Json, p: string, cs: bool)
    ensures if p == [] || p[0] != '/' then Resolve(j, p, cs) == Some([])
            else
              var i := Step(j, p[1..], cs);
              Resolve(j, p, cs)
              == if i.None? then None else Under([i.value], Resolve(Children(j)[i.value], SkipToken(p[1..]), cs))
    ensures p != [] && p[0] == '/' && Resolve(j, p, cs).Some? ==>
      var at, i := Resolve(j, p, cs).value, Step(j, p[1..], cs).value;
      at != [] && at[0] == i && Resolve(Children(j)[i], SkipToken(p[1..]), cs) == Some(at[1..]) && at == [i] + at[1..]
  {
    hide Step, SkipToken, Children;
  }

  lemma PutDown(j: Json, at: seq<nat>, v: Json)
    requires at != [] && ValidPath(j, at)
    ensures at[0] < |Children(j)| && ValidPath(Children(j)[at[0]], at[1..])
    ensures PutAt(j, at, v) == SetChild(j, at[0], PutAt(Children(j)[at[0]], at[1..], v))
    ensures at[0] < |Children(PutAt(j, at, v))|
    ensures Children(PutAt(j, at, v))[at[0]] == PutAt(Children(j)[at[0]], at[1..], v)
  {
    hide Children, SetChild;
  }

  lemma PutHere(j: Json, v: Json)
    ensures ValidPath(j, []) && PutAt(j, [], v) == v && ValidPath(v, []) && NodeAt(v, []) == v
  {
  }

  lemma StepKept(j: Json, i: nat, v: Json, p: string, cs: bool)
    requires i < |Children(j)|
    ensures Step(SetChild(j, i, v), p, cs) == Step(j, p, cs)
  {
    if j.Object? {
      MatchKept(j.members, i, v, p, cs);
    }
  }

  lemma MatchKept(ms: seq<Member>, i: nat, v: Json, p: string, cs: bool)
    requires i < |ms|
    ensures MatchMember(ms[i := Member(ms[i].key, v)], p, cs) == MatchMember(ms, p, cs)
  {
    hide ComparePointers;
    var ms' := ms[i := Member(ms[i].key, v)];
    var r, r' := MatchMember(ms, p, cs), MatchMember(ms', p, cs);
    assert forall k | 0 <= k < |ms| :: ms'[k].key == ms[k].key;
  }

  lemma {:induction false} PutTwice(j: Json, at: seq<nat>, v: Json, w: Json)
    requires ValidPath(j, at)
    ensures ValidPath(PutAt(j, at, v), at) && PutAt(PutAt(j, at, v), at, w) == PutAt(j, at, w)
    decreases |at|
  {
    if at != [] {
      var child := Children(j)[at[0]];
      PutTwice(child, at[1..], v, w);
      SetTwice(j, at[0], PutAt(child, at[1..], v), PutAt(child, at[1..], w));
    }
  }

  lemma SetTwice(j: Json, i: nat, v: Json, w: Json)
    requires i < |Children(j)|
    ensures SetChild(SetChild(j, i, v), i, w) == SetChild(j, i, w)
  {
  }

  // ---- refused patches ----

  /** Statuses that do not depend on the document: 2 without a path, 3 without an operation, 4 and 5 for "from". */
  lemma PatchRefused(j: Json, patch: Json, cs: bool)
    ensures var path, op, from := Field(patch, "path", cs), Field(patch, "op", cs), Field(patch, "from", cs);
      && (path.None? || !path.value.String? ==> Apply(j, patch, cs) == (2, j))
      && (path.Some? && path.value.String? ==>
        && (op.None? || !op.value.String? || op.value.s !in {"add", "remove", "replace", "move", "copy", "test"} ==>
          Apply(j, patch, cs) == (3, j))
        && (op == Some(String("move")) || op == Some(String("copy")) ==>
          && (from.None? ==> Apply(j, patch, cs) == (4, j))
          && (from.Some? && !from.value.String? ==> Apply(j, patch, cs) == (5, j))))
  {
    hide Perform, Field, OperationNamed;
    var path, op := Field(patch, "path", cs), Field(patch, "op", cs);
    if path.Some? && path.value.String? && op.Some? && op.value.String? {
      NamedOnly(op.value.s);
      FromRefused(j, patch, op.value.s, path.value.s, cs);
    }
    NothingPerformed(j, patch, cs);
  }

  lemma NamedOnly(op: string)
    ensures op !in {"add", "remove", "replace", "move", "copy", "test"} ==> OperationNamed(op) == INVALID
  {
  }

  lemma NothingPerformed(j: Json, patch: Json, cs: bool)
    ensures forall path :: Perform(j, patch, INVALID, path, cs) == (3, j)
  {
  }

  lemma FromRefused(j: Json, patch: Json, op: string, path: string, cs: bool)
    requires Says(patch, op, path, cs)
    ensures var from := Field(patch, "from", cs);
      op == "move" || op == "copy" ==>
        && (from.None? ==> Apply(j, patch, cs) == (4, j))
        && (from.Some? && !from.value.String? ==> Apply(j, patch, cs) == (5, j))
  {
    SixNames();
    ApplySays(j, patch, op, path, cs);
    hide Detach, Insert, Field, OperationNamed, Apply, Says, Resolve;
  }

  /** Status 7 for a missing value, and 8 for one that is nested too deeply. */
  lemma ValueRefused(j: Json, patch: Json, path: string, cs: bool)
    requires Says(patch, "add", path, cs) || (Says(patch, "replace", path, cs) && path == "")
    ensures var value := Field(patch, "value", cs);
      && (value.None? ==> Apply(j, patch, cs) == (7, j))
      && (value.Some? && Height(value.value) > CJSON_CIRCULAR_LIMIT ==> Apply(j, patch, cs) == (8, j))
      && (value.Some? && Height(value.value) <= CJSON_CIRCULAR_LIMIT && path == "" ==>
        Apply(j, patch, cs) == (0, value.value))
  {
    var value := Field(patch, "value", cs);
    if value.Some? {
      DuplicateRecExact(value.value, 0);
    }
    hide Detach, Insert, Height, Duplicate, Field, Says, Apply;
    ValueTaken(j, patch, path, cs);
  }

  lemma ValueTaken(j: Json, patch: Json, path: string, cs: bool)
    requires Says(patch, "add", path, cs) || (Says(patch, "replace", path, cs) && path == "")
    ensures var value := Field(patch, "value", cs);
      && (value.None? ==> Apply(j, patch, cs) == (7, j))
      && (value.Some? && Duplicate(value.value).None? ==> Apply(j, patch, cs) == (8, j))
      && (value.Some? && Duplicate(value.value).Some? && path == "" ==>
        Apply(j, patch, cs) == (0, Duplicate(value.value).value))
  {
    SixNames();
    var op := if Says(patch, "add", path, cs) then "add" else "replace";
    ApplySays(j, patch, op, path, cs);
    hide Detach, Insert, Field, OperationNamed, Duplicate, Apply, Says;
  }
}
