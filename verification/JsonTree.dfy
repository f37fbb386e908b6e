/** The cJSON tree as a value, its order-free meaning, and lookups of object members. */
module JsonTree {
  import opened Text

  datatype Option<+T> = None | Some(value: T)

  /** A cJSON node. Number carries valuedouble; valueint is derived from it. */
  datatype Json =
    | Invalid
    | False
    | True
    | Null
    | Number(d: real)
    | String(s: string)
    | Array(items: seq<Json>)
    | Object(members: seq<Member>)

  /** A child of an object: its `string` field and the node. */
  datatype Member = Member(key: string, value: Json)

  /** What a document means once the order of object members is forgotten. */
  datatype Doc =
    | DInvalid
    | DFalse
    | DTrue
    | DNull
    | DNumber(d: real)
    | DString(s: string)
    | DArray(items: seq<Doc>)
    | DObject(members: map<string, Doc>)

  /** Equality of (type & 0xFF). */
  predicate SameKind(a: Json, b: Json) {
    match a
    case Invalid => b.Invalid?
    case False => b.False?
    case True => b.True?
    case Null => b.Null?
    case Number(_) => b.Number?
    case String(_) => b.String?
    case Array(_) => b.Array?
    case Object(_) => b.Object?
  }

  // ---- numbers ----

  const INT_MAX: int := 2147483647
  const INT_MIN: int := -2147483648
  const DBL_EPSILON: real := 1.0 / 4503599627370496.0

  /** The valueint kept beside a double: saturated, truncated toward zero. */
  function ValueInt(d: real): int {
    if d >= INT_MAX as real then INT_MAX
    else if d <= INT_MIN as real then INT_MIN
    else if d >= 0.0 then d.Floor
    else -((-d).Floor)
  }

  /** Toward zero, less than one away; at the ends of the int range and beyond, the end. */
  lemma ValueIntExact(d: real)
    ensures -2147483648.0 < d < 2147483647.0 ==>
      var v := ValueInt(d) as real; if d >= 0.0 then d - 1.0 < v <= d && v >= 0.0 else d <= v < d + 1.0 && v <= 0.0
    ensures d >= 2147483647.0 ==> ValueInt(d) == 2147483647
    ensures d <= -2147483648.0 ==> ValueInt(d) == -2147483648
  {
  }

  predicate IsInt32(d: real) {
    d == d.Floor as real && INT_MIN <= d.Floor <= INT_MAX
  }

  function Abs(d: real): real { if d < 0.0 then -d else d }

  /** compare_double */
  predicate CompareDouble(a: real, b: real) {
    Abs(a - b) <= (if Abs(a) > Abs(b) then Abs(a) else Abs(b)) * DBL_EPSILON
  }

  /** On 32-bit integers the relative tolerance is exact. */
  lemma CompareDoubleExact(a: real, b: real)
    requires IsInt32(a) && IsInt32(b)
    ensures CompareDouble(a, b) <==> a == b
  {
    var m := if Abs(a) > Abs(b) then Abs(a) else Abs(b);
    assert m <= 2147483648.0;
    assert m * DBL_EPSILON < 1.0;
    if a != b {
      assert a.Floor != b.Floor;
      assert a - b == (a.Floor - b.Floor) as real;
      assert Abs(a - b) >= 1.0;
    }
  }

  // ---- object members ----

  /** The position of the first member whose folded key is fk; |ms| when there is none. */
  function First(ms: seq<Member>, fk: string, cs: bool): (r: nat)
    ensures r <= |ms|
    ensures forall i | 0 <= i < r :: Fold(ms[i].key, cs) != fk
    ensures r < |ms| ==> Fold(ms[r].key, cs) == fk
  {
    if ms == [] then 0
    else if Fold(ms[0].key, cs) == fk then 0
    else 1 + First(ms[1..], fk, cs)
  }

  /** get_object_item */
  function Lookup(ms: seq<Member>, key: string, cs: bool): nat {
    First(ms, Fold(key, cs), cs)
  }

  /** The member walk of get_object_item. */
  method LookupLoop(ms: seq<Member>, key: string, cs: bool) returns (r: nat)
    ensures r == Lookup(ms, key, cs)
  {
    hide Fold, First, Before, CompareStrings;
    r := 0;
    while r < |ms|
      invariant r <= |ms|
      invariant forall i | 0 <= i < r :: Fold(ms[i].key, cs) != Fold(key, cs)
    {
      var c := CompareStringsLoop(key, ms[r].key, cs);
      CompareStringsOrder(key, ms[r].key, cs);
      if c == 0 {
        return;
      }
      r := r + 1;
    }
  }

  ghost function Keys(ms: seq<Member>, cs: bool): set<string> {
    set m | m in ms :: Fold(m.key, cs)
  }

  ghost predicate DistinctKeys(ms: seq<Member>, cs: bool) {
    forall i, j | 0 <= i < j < |ms| :: Fold(ms[i].key, cs) != Fold(ms[j].key, cs)
  }

  lemma KeysFirst(ms: seq<Member>, fk: string, cs: bool)
    ensures fk in Keys(ms, cs) <==> First(ms, fk, cs) < |ms|
  {
    if fk in Keys(ms, cs) {
      var m :| m in ms && Fold(m.key, cs) == fk;
    }
    var r := First(ms, fk, cs);
    assert r < |ms| ==> ms[r] in ms;
  }

  lemma FirstDistinct(ms: seq<Member>, i: nat, cs: bool)
    requires i < |ms| && DistinctKeys(ms, cs)
    ensures First(ms, Fold(ms[i].key, cs), cs) == i
    ensures Fold(ms[i].key, cs) in Keys(ms, cs)
  {
    assert ms[i] in ms;
  }

  // ---- the meaning of a tree ----

  ghost function Meaning(j: Json, cs: bool): Doc {
    match j
    case Invalid => DInvalid
    case False => DFalse
    case True => DTrue
    case Null => DNull
    case Number(d) => DNumber(d)
    case String(s) => DString(s)
    case Array(items) =>
      DArray(seq(|items|, i requires 0 <= i < |items| => Meaning(items[i], cs)))
    case Object(ms) =>
      DObject(map fk | fk in Keys(ms, cs) ::
        KeysFirst(ms, fk, cs); Meaning(ms[First(ms, fk, cs)].value, cs))
  }

  /** The map half of Meaning(Object(ms)). */
  ghost function Meanings(ms: seq<Member>, cs: bool): map<string, Doc> {
    Meaning(Object(ms), cs).members
  }

  lemma MeaningAt(ms: seq<Member>, i: nat, cs: bool)
    requires i < |ms| && DistinctKeys(ms, cs)
    ensures Fold(ms[i].key, cs) in Meanings(ms, cs)
    ensures Meanings(ms, cs)[Fold(ms[i].key, cs)] == Meaning(ms[i].value, cs)
  {
    FirstDistinct(ms, i, cs);
  }

  lemma MeaningsKey(ms: seq<Member>, fk: string, cs: bool) returns (i: nat)
    requires fk in Meanings(ms, cs)
    ensures i < |ms| && Fold(ms[i].key, cs) == fk && Meanings(ms, cs)[fk] == Meaning(ms[i].value, cs)
  {
    KeysFirst(ms, fk, cs);
    i := First(ms, fk, cs);
  }

  // ---- domains ----

  /** Every object of the tree has pairwise different keys in the given mode. */
  ghost predicate Unique(j: Json, cs: bool) {
    match j
    case Array(items) => forall i | 0 <= i < |items| :: Unique(items[i], cs)
    case Object(ms) => DistinctKeys(ms, cs) && forall i | 0 <= i < |ms| :: Unique(ms[i].value, cs)
    case _ => true
  }

  lemma {:induction false} UniqueCoarser(j: Json, cs: bool)
    requires Unique(j, false)
    ensures Unique(j, cs)
  {
    match j
    case Array(items) =>
      forall i | 0 <= i < |items| ensures Unique(items[i], cs) { UniqueCoarser(items[i], cs); }
    case Object(ms) =>
      forall i | 0 <= i < |ms| ensures Unique(ms[i].value, cs) { UniqueCoarser(ms[i].value, cs); }
      forall i, j | 0 <= i < j < |ms| ensures Fold(ms[i].key, cs) != Fold(ms[j].key, cs) {
        if Fold(ms[i].key, cs) == Fold(ms[j].key, cs) {
          FoldCoarser(ms[i].key, ms[j].key, cs);
        }
      }
    case _ =>
  }

  /** No invalid node, and every number is a 32-bit integer. */
  ghost predicate Plain(j: Json) {
    match j
    case Invalid => false
    case Number(d) => IsInt32(d)
    case Array(items) => forall i | 0 <= i < |items| :: Plain(items[i])
    case Object(ms) => forall i | 0 <= i < |ms| :: Plain(ms[i].value)
    case _ => true
  }

  /** The trees on which the comparisons decide equality of meanings. */
  ghost predicate Sound(j: Json, cs: bool) {
    Unique(j, cs) && Plain(j)
  }

  // ---- nesting and cJSON_Duplicate ----

  const CJSON_CIRCULAR_LIMIT: nat := 10000

  function Max(a: nat, b: nat): nat { if a < b then b else a }

  /** How many levels of children hang below the node. */
  function Height(j: Json): nat {
    match j
    case Array(items) => if items == [] then 0 else 1 + ItemsHeight(items)
    case Object(ms) => if ms == [] then 0 else 1 + MembersHeight(ms)
    case _ => 0
  }

  function ItemsHeight(items: seq<Json>): (h: nat)
    ensures forall i | 0 <= i < |items| :: Height(items[i]) <= h
    ensures items != [] ==> exists i | 0 <= i < |items| :: Height(items[i]) == h
  {
    if items == [] then 0 else Max(Height(items[0]), ItemsHeight(items[1..]))
  }

  function MembersHeight(ms: seq<Member>): (h: nat)
    ensures forall i | 0 <= i < |ms| :: Height(ms[i].value) <= h
    ensures ms != [] ==> exists i | 0 <= i < |ms| :: Height(ms[i].value) == h
  {
    if ms == [] then 0 else Max(Height(ms[0].value), MembersHeight(ms[1..]))
  }

  /** cJSON_Duplicate_rec with recurse set: no copy of children at the circular limit. */
  function DuplicateRec(j: Json, depth: nat): Option<Json> {
    match j
    case Array(items) =>
      var copies := DuplicateItems(items, depth);
      if copies.None? then None else Some(Array(copies.value))
    case Object(ms) =>
      var copies := DuplicateMembers(ms, depth);
      if copies.None? then None else Some(Object(copies.value))
    case _ => Some(j)
  }

  function DuplicateItems(items: seq<Json>, depth: nat): Option<seq<Json>> {
    if items == [] then Some([])
    else if depth >= CJSON_CIRCULAR_LIMIT then None
    else
      var head := DuplicateRec(items[0], depth + 1);
      if head.None? then None
      else
        var tail := DuplicateItems(items[1..], depth);
        if tail.None? then None else Some([head.value] + tail.value)
  }

  function DuplicateMembers(ms: seq<Member>, depth: nat): Option<seq<Member>> {
    if ms == [] then Some([])
    else if depth >= CJSON_CIRCULAR_LIMIT then None
    else
      var head := DuplicateRec(ms[0].value, depth + 1);
      if head.None? then None
      else
        var tail := DuplicateMembers(ms[1..], depth);
        if tail.None? then None else Some([Member(ms[0].key, head.value)] + tail.value)
  }

  function Duplicate(j: Json): Option<Json> { DuplicateRec(j, 0) }

  lemma {:induction false} DuplicateItemsExact(items: seq<Json>, depth: nat)
    requires depth <= CJSON_CIRCULAR_LIMIT
    ensures DuplicateItems(items, depth)
         == if items == [] || depth + 1 + ItemsHeight(items) <= CJSON_CIRCULAR_LIMIT then Some(items) else None
  {
    if items != [] && depth < CJSON_CIRCULAR_LIMIT {
      DuplicateRecExact(items[0], depth + 1);
      DuplicateItemsExact(items[1..], depth);
      assert items == [items[0]] + items[1..];
    }
  }

  lemma {:induction false} DuplicateMembersExact(ms: seq<Member>, depth: nat)
    requires depth <= CJSON_CIRCULAR_LIMIT
    ensures DuplicateMembers(ms, depth)
         == if ms == [] || depth + 1 + MembersHeight(ms) <= CJSON_CIRCULAR_LIMIT then Some(ms) else None
  {
    if ms != [] && depth < CJSON_CIRCULAR_LIMIT {
      DuplicateRecExact(ms[0].value, depth + 1);
      DuplicateMembersExact(ms[1..], depth);
      assert ms == [Member(ms[0].key, ms[0].value)] + ms[1..];
    }
  }

  /** A recursive duplicate is the same tree, and exists exactly up to the circular limit. */
  lemma {:induction false} DuplicateRecExact(j: Json, depth: nat)
    requires depth <= CJSON_CIRCULAR_LIMIT
    ensures DuplicateRec(j, depth)
         == if depth + Height(j) <= CJSON_CIRCULAR_LIMIT then Some(j) else None
  {
    match j
    case Array(items) => DuplicateItemsExact(items, depth);
    case Object(ms) => DuplicateMembersExact(ms, depth);
    case _ =>
  }
}
