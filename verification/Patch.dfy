/** JSON Patch (RFC 6902): what one patch object does to a document. */
module Patch {
  import opened JsonTree
  import opened TreeCompare
  import opened CompareInPlace
  import opened PointerEscape
  import opened PointerLookup

  datatype Operation = INVALID | ADD | REMOVE | REPLACE | MOVE | COPY | TEST

  /** get_object_item on any node: only objects have named children. */
  function Field(j: Json, name: string, cs: bool): Option<Json> {
    if j.Object? then
      var i := Lookup(j.members, name, cs);
      if i < |j.members| then Some(j.members[i].value) else None
    else None
  }

  function OperationNamed(name: string): Operation {
    if name == "add" then ADD
    else if name == "remove" then REMOVE
    else if name == "replace" then REPLACE
    else if name == "move" then MOVE
    else if name == "copy" then COPY
    else if name == "test" then TEST
    else INVALID
  }

  /** decode_patch_operation */
  function DecodeOperation(patch: Json, cs: bool): Operation {
    var op := Field(patch, "op", cs);
    if op.Some? && op.value.String? then OperationNamed(op.value.s) else INVALID
  }

  /** strrchr(p, '/'): the position of the last slash; |p| when there is none. */
  function LastSlash(p: string): (r: nat)
    ensures r <= |p|
    ensures r < |p| ==> p[r] == '/' && '/' !in p[r + 1..]
    ensures r == |p| ==> '/' !in p
  {
    if p == [] then 0
    else
      var r := LastSlash(p[1..]);
      if r < |p| - 1 then r + 1
      else if p[0] == '/' then 0
      else |p|
  }

  /** A path cut at its last slash into a parent pointer and a token. */
  function SplitPath(path: string): Option<(string, string)> {
    var slash := LastSlash(path);
    if slash == |path| then None else Some((path[..slash], path[slash + 1..]))
  }

  function DropAt<T>(s: seq<T>, i: nat): seq<T>
    requires i < |s|
  {
    s[..i] + s[i + 1..]
  }

  // ---- child lists ----

  /** Taking the child a decoded token names off a node: by index, or by name ignoring case. */
  function DetachChild(parent: Json, token: string): (Option<Json>, Json) {
    match parent
    case Array(items) =>
      var index := DecodeIndex(token);
      if index.None? || index.value >= |items| then (None, parent)
      else (Some(items[index.value]), Array(DropAt(items, index.value)))
    case Object(ms) =>
      var i := Lookup(ms, token, false);
      if i == |ms| then (None, parent) else (Some(ms[i].value), Object(DropAt(ms, i)))
    case _ => (None, parent)
  }

  /** The object without its first member of that name. */
  function DeleteMember(ms: seq<Member>, key: string, cs: bool): seq<Member> {
    var i := Lookup(ms, key, cs);
    if i == |ms| then ms else DropAt(ms, i)
  }

  /** Adding a value to a node under a decoded token: a status, and the new node. */
  function InsertChild(parent: Json, token: string, value: Json, cs: bool): (int, Json) {
    match parent
    case Array(items) =>
      if token == "-" then (0, Array(items + [value]))
      else
        var index := DecodeIndex(token);
        if index.None? then (11, parent)
        else if index.value > |items| then (10, parent)
        else (0, Array(items[..index.value] + [value] + items[index.value..]))
    case Object(ms) => (0, Object(DeleteMember(ms, token, cs) + [Member(token, value)]))
    case _ => (9, parent)
  }

  // ---- documents ----

  /** Detaching below a parent pointer. */
  function DetachAt(j: Json, parent: string, token: string, cs: bool): (Option<Json>, Json) {
    var at := Resolve(j, parent, cs);
    if at.None? then (None, j)
    else
      var (item, rest) := DetachChild(NodeAt(j, at.value), DecodeToken(token));
      (item, PutAt(j, at.value, rest))
  }

  /** detach_path: the detached node, and what is left of the document. */
  function Detach(j: Json, path: string, cs: bool): (Option<Json>, Json) {
    var split := SplitPath(path);
    if split.None? then (None, j) else DetachAt(j, split.value.0, split.value.1, cs)
  }

  /** Adding below a parent pointer. */
  function InsertAt(j: Json, parent: string, token: string, value: Json, cs: bool): (int, Json) {
    var at := Resolve(j, parent, cs);
    if at.None? then (9, j)
    else
      var (status, rest) := InsertChild(NodeAt(j, at.value), DecodeToken(token), value, cs);
      (status, PutAt(j, at.value, rest))
  }

  /** The last part of apply_patch: add the value at the path. */
  function Insert(j: Json, path: string, value: Json, cs: bool): (int, Json) {
    var split := SplitPath(path);
    if split.None? then (9, j) else InsertAt(j, split.value.0, split.value.1, value, cs)
  }

  /** The value an operation adds: a status, the value, and the document it was taken from. */
  function ValueToAdd(j: Json, patch: Json, op: Operation, cs: bool): (int, Option<Json>, Json) {
    if op.MOVE? || op.COPY? then
      var from := Field(patch, "from", cs);
      if from.None? then (4, None, j)
      else if !from.value.String? then (5, None, j)
      else if op.MOVE? then
        var (item, rest) := Detach(j, from.value.s, cs);
        if item.None? then (5, None, rest) else (0, item, rest)
      else
        var at := Resolve(j, from.value.s, cs);
        if at.None? then (5, None, j)
        else
          var copy := Duplicate(NodeAt(j, at.value));
          if copy.None? then (6, None, j) else (0, copy, j)
    else
      var value := Field(patch, "value", cs);
      if value.None? then (7, None, j)
      else
        var copy := Duplicate(value.value);
        if copy.None? then (8, None, j) else (0, copy, j)
  }

  /** apply_patch once operation and path are known. */
  function Perform(j: Json, patch: Json, op: Operation, path: string, cs: bool): (int, Json) {
    match op
    case INVALID => (3, j)
    case TEST =>
      var at := Resolve(j, path, cs);
      var value := Field(patch, "value", cs);
      if at.None? || value.None? then (1, j)
      else
        var node := NodeAt(j, at.value);
        (if CompareJson(node, value.value, cs) then 0 else 1, PutAt(j, at.value, Left(node, value.value, cs)))
    case REMOVE =>
      if path == "" then (0, Invalid)
      else
        var (old_, rest) := Detach(j, path, cs);
        (if old_.None? then 13 else 0, rest)
    case REPLACE =>
      if path == "" then Overwrite(ValueToAdd(j, patch, op, cs))
      else
        var (old_, rest) := Detach(j, path, cs);
        if old_.None? then (13, rest) else AddFetched(ValueToAdd(rest, patch, op, cs), path, cs)
    case ADD =>
      if path == "" then Overwrite(ValueToAdd(j, patch, op, cs))
      else AddFetched(ValueToAdd(j, patch, op, cs), path, cs)
    case _ => AddFetched(ValueToAdd(j, patch, op, cs), path, cs)
  }

  /** Replacing the root by a fetched value. */
  function Overwrite(fetched: (int, Option<Json>, Json)): (int, Json) {
    if fetched.1.None? then (fetched.0, fetched.2) else (0, fetched.1.value)
  }

  function AddFetched(fetched: (int, Option<Json>, Json), path: string, cs: bool): (int, Json) {
    if fetched.1.None? then (fetched.0, fetched.2) else Insert(fetched.2, path, fetched.1.value, cs)
  }

  /** apply_patch: the status, and the document afterwards (also when the status is an error). */
  function Apply(j: Json, patch: Json, cs: bool): (int, Json) {
    var path := Field(patch, "path", cs);
    if path.None? || !path.value.String? then (2, j)
    else Perform(j, patch, DecodeOperation(patch, cs), path.value.s, cs)
  }

  /** The loop of cJSONUtils_ApplyPatches: stop at the first status that is not 0. */
  function ApplyAll(j: Json, patches: seq<Json>, cs: bool): (int, Json)
    decreases |patches|
  {
    if patches == [] then (0, j)
    else
      var (status, next) := Apply(j, patches[0], cs);
      if status != 0 then (status, next) else ApplyAll(next, patches[1..], cs)
  }

  function ApplyPatches(j: Json, patches: Json, cs: bool): (int, Json) {
    if patches.Array? then ApplyAll(j, patches.items, cs) else (1, j)
  }

  // ---- the document that patches change in place ----

  method LastSlashLoop(p: string) returns (r: nat)
    ensures r == LastSlash(p)
  {
    r := |p|;
    while r > 0 && p[r - 1] != '/'
      invariant r <= |p|
      invariant '/' !in p[r..]
    {
      r := r - 1;
      assert p[r..] == [p[r]] + p[r + 1..];
    }
    if r > 0 {
      r := r - 1;
      LastSlashUnique(p, r);
    } else {
      assert p[0..] == p;
      r := |p|;
    }
  }

  lemma {:induction false} LastSlashUnique(p: string, r: nat)
    requires r < |p| && p[r] == '/' && '/' !in p[r + 1..]
    ensures LastSlash(p) == r
  {
    if r > 0 {
      assert p[1..][r..] == p[r + 1..];
      LastSlashUnique(p[1..], r - 1);
    } else {
      assert LastSlash(p[1..]) == |p| - 1;
    }
  }

  /** The copied path's last token, decoded where it stands. */
  method LastToken(path: string, slash: nat) returns (token: string)
    requires slash < |path|
    ensures token == DecodeToken(path[slash + 1..])
  {
    var n := |path| - slash - 1;
    var buffer := new char[n + 1](_ => '\0');
    for i := 0 to n
      invariant buffer[..i] == path[slash + 1..slash + 1 + i]
      invariant buffer[n] == '\0'
    {
      buffer[i] := path[slash + 1 + i];
    }
    assert buffer[..n] == path[slash + 1..];
    var length := DecodeInPlace(buffer);
    token := buffer[..length];
  }

  class Document {
    var root: Json

    constructor (root: Json)
      ensures this.root == root
    {
      this.root := root;
    }

    /** detach_path */
    method DetachPath(path: string, cs: bool) returns (item: Option<Json>)
      modifies this
      ensures (item, root) == Detach(old(root), path, cs)
    {
      var slash := LastSlashLoop(path);
      if slash == |path| {
        return None;
      }
      var at := ResolveLoop(root, path[..slash], cs);
      if at.None? {
        return None;
      }
      var token := LastToken(path, slash);
      var split := DetachChild(NodeAt(root, at.value), token);
      item := split.0;
      root := PutAt(root, at.value, split.1);
    }

    /** The end of apply_patch: adding the value at the path. */
    method AddAtPath(path: string, value: Json, cs: bool) returns (status: int)
      modifies this
      ensures (status, root) == Insert(old(root), path, value, cs)
    {
      var slash := LastSlashLoop(path);
      if slash == |path| {
        return 9;
      }
      var at := ResolveLoop(root, path[..slash], cs);
      if at.None? {
        return 9;
      }
      var token := LastToken(path, slash);
      var result := InsertChild(NodeAt(root, at.value), token, value, cs);
      status := result.0;
      root := PutAt(root, at.value, result.1);
    }

    /** The middle of apply_patch: the value that an operation adds. */
    method FetchValue(patch: Json, op: Operation, cs: bool) returns (status: int, value: Option<Json>)
      modifies this
      ensures (status, value, root) == ValueToAdd(old(root), patch, op, cs)
      ensures status == 0 <==> value.Some?
    {
      if op.MOVE? || op.COPY? {
        var from := Field(patch, "from", cs);
        if from.None? {
          return 4, None;
        }
        if !from.value.String? {
          return 5, None;
        }
        if op.MOVE? {
          value := DetachPath(from.value.s, cs);
        } else {
          var at := ResolveLoop(root, from.value.s, cs);
          if at.None? {
            return 5, None;
          }
          value := Duplicate(NodeAt(root, at.value));
          return if value.None? then 6 else 0, value;
        }
        return if value.None? then 5 else 0, value;
      }
      var field := Field(patch, "value", cs);
      if field.None? {
        return 7, None;
      }
      value := Duplicate(field.value);
      return if value.None? then 8 else 0, value;
    }

    /** apply_patch */
    method ApplyPatch(patch: Json, cs: bool) returns (status: int)
      modifies this
      ensures (status, root) == Apply(old(root), patch, cs)
    {
      var path := Field(patch, "path", cs);
      if path.None? || !path.value.String? {
        return 2;
      }
      var op := DecodeOperation(patch, cs);
      if op.INVALID? {
        return 3;
      } else if op.TEST? {
        var at := ResolveLoop(root, path.value.s, cs);
        var value := Field(patch, "value", cs);
        if at.None? || value.None? {
          return 1;
        }
        var same, node, _ := CompareJsonLoop(NodeAt(root, at.value), value.value, cs);
        root := PutAt(root, at.value, node);
        return if same then 0 else 1;
      }
      if path.value.s == "" {
        if op.REMOVE? {
          root := Invalid;
          return 0;
        }
        if op.REPLACE? || op.ADD? {
          var s, value := FetchValue(patch, op, cs);
          if value.None? {
            return s;
          }
          root := value.value;
          return 0;
        }
      }
      if op.REMOVE? || op.REPLACE? {
        var old_ := DetachPath(path.value.s, cs);
        if old_.None? {
          return 13;
        }
        if op.REMOVE? {
          return 0;
        }
      }
      var s, value := FetchValue(patch, op, cs);
      if value.None? {
        return s;
      }
      status := AddAtPath(path.value.s, value.value, cs);
    }

    /** cJSONUtils_ApplyPatches and its case-sensitive twin. */
    method ApplyPatchList(patches: Json, cs: bool) returns (status: int)
      modifies this
      ensures (status, root) == ApplyPatches(old(root), patches, cs)
    {
      if !patches.Array? {
        return 1;
      }
      var i := 0;
      while i < |patches.items|
        invariant i <= |patches.items|
        invariant ApplyAll(root, patches.items[i..], cs) == ApplyPatches(old(root), patches, cs)
      {
        assert patches.items[i..][1..] == patches.items[i + 1..];
        status := ApplyPatch(patches.items[i], cs);
        if status != 0 {
          return;
        }
        i := i + 1;
      }
      return 0;
    }
  }
}
