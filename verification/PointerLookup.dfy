/** Resolving JSON Pointers to nodes, and building the pointer of a node. */
module PointerLookup {
  import opened Text
  import opened JsonTree
  import opened PointerEscape
  import Numerals

  // ---- nodes as paths of child positions ----

  /** The nodes on a child list. */
  function Children(j: Json): (r: seq<Json>)
    ensures j.Array? ==> r == j.items
    ensures j.Object? ==> |r| == |j.members| && forall i | 0 <= i < |r| :: r[i] == j.members[i].value
  {
    match j
    case Array(items) => items
    case Object(ms) => seq(|ms|, i requires 0 <= i < |ms| => ms[i].value)
    case _ => []
  }

  lemma ChildrenLower(j: Json, i: nat)
    requires i < |Children(j)|
    ensures Height(Children(j)[i]) < Height(j)
  {
  }

  /** The node with its i-th child replaced; keys stay. */
  function SetChild(j: Json, i: nat, v: Json): (r: Json)
    requires i < |Children(j)|
    ensures Children(r) == Children(j)[i := v]
  {
    match j
    case Array(items) => Array(items[i := v])
    case Object(ms) => Object(ms[i := Member(ms[i].key, v)])
  }

  predicate ValidPath(j: Json, at: seq<nat>)
    decreases |at|
  {
    at == [] || (at[0] < |Children(j)| && ValidPath(Children(j)[at[0]], at[1..]))
  }

  function NodeAt(j: Json, at: seq<nat>): Json
    requires ValidPath(j, at)
    decreases |at|
  {
    if at == [] then j else NodeAt(Children(j)[at[0]], at[1..])
  }

  /** The tree with the node at a path replaced. */
  function PutAt(j: Json, at: seq<nat>, v: Json): Json
    requires ValidPath(j, at)
    decreases |at|
  {
    if at == [] then v else SetChild(j, at[0], PutAt(Children(j)[at[0]], at[1..], v))
  }

  // ---- tokens ----

  /** The range of size_t on the 32-bit target. */
  const SIZE_RANGE: nat := 0x1_0000_0000

  predicate EndsToken(p: string) { p == [] || p[0] == '/' }

  /** compare_pointers: does a member name match the first token of a pointer? */
  function ComparePointers(name: string, p: string, cs: bool): bool {
    if name != [] && p != [] && p[0] != '/' then
      if p[0] == '~' then
        && |p| > 1
        && ((p[1] == '0' && name[0] == '~') || (p[1] == '1' && name[0] == '/'))
        && ComparePointers(name[1..], p[2..], cs)
      else
        Fold(name[..1], cs) == Fold(p[..1], cs) && ComparePointers(name[1..], p[1..], cs)
    else (p != [] && p[0] != '/') == (name != [])
  }

  method ComparePointersLoop(name: string, p: string, cs: bool) returns (r: bool)
    ensures r == ComparePointers(name, p, cs)
  {
    var i, j := 0, 0;
    while i < |name| && j < |p| && p[j] != '/'
      invariant i <= |name| && j <= |p|
      invariant ComparePointers(name[i..], p[j..], cs) == ComparePointers(name, p, cs)
      decreases |name| - i
    {
      assert name[i..][1..] == name[i + 1..] && p[j..][1..] == p[j + 1..];
      if p[j] == '~' {
        if !(j + 1 < |p| && ((p[j + 1] == '0' && name[i] == '~') || (p[j + 1] == '1' && name[i] == '/'))) {
          return false;
        }
        assert p[j..][2..] == p[j + 2..];
        j := j + 1;
      } else {
        assert name[i..][..1] == name[i..i + 1] && p[j..][..1] == p[j..j + 1];
        if Fold(name[i..i + 1], cs) != Fold(p[j..j + 1], cs) {
          return false;
        }
      }
      i, j := i + 1, j + 1;
    }
    r := (j < |p| && p[j] != '/') == (i < |name|);
  }

  /** A member name matches an escaped key exactly when it equals the key in the case mode. */
  lemma {:induction false} ComparePointersEncoded(name: string, k: string, rest: string, cs: bool)
    requires EndsToken(rest)
    ensures ComparePointers(name, Encode(k) + rest, cs) <==> Fold(name, cs) == Fold(k, cs)
  {
    if k == [] {
      assert Encode(k) + rest == rest;
    } else {
      var more := Encode(k[1..]) + rest;
      assert Encode(k) + rest == EncodeChar(k[0]) + more;
      if name == [] {
        assert (EncodeChar(k[0]) + more)[0] == EncodeChar(k[0])[0] != '/';
        assert |Fold(name, cs)| != |Fold(k, cs)|;
      } else {
        ComparePointersEncoded(name[1..], k[1..], rest, cs);
        MatchEncodedChar(name, k, more, cs);
        FoldHeadTail(name, k, cs);
      }
    }
  }

  lemma FoldHeadTail(a: string, b: string, cs: bool)
    requires a != [] && b != []
    ensures Fold(a, cs) == Fold(b, cs) <==> Fold(a[..1], cs) == Fold(b[..1], cs) && Fold(a[1..], cs) == Fold(b[1..], cs)
  {
    FoldCons(a, cs);
    FoldCons(b, cs);
    assert Fold(a, cs)[..1] == Fold(a[..1], cs) && Fold(b, cs)[..1] == Fold(b[..1], cs);
    assert Fold(a, cs)[1..] == Fold(a[1..], cs) && Fold(b, cs)[1..] == Fold(b[1..], cs);
  }

  lemma MatchEncodedChar(name: string, k: string, more: string, cs: bool)
    requires name != [] && k != []
    ensures ComparePointers(name, EncodeChar(k[0]) + more, cs)
       <==> Fold(name[..1], cs) == Fold(k[..1], cs) && ComparePointers(name[1..], more, cs)
  {
    var code := EncodeChar(k[0]);
    var p := code + more;
    assert p[|code|..] == more;
    assert Fold(name[..1], cs) == Fold(k[..1], cs) <==> Fold(name[..1], cs)[0] == Fold(k[..1], cs)[0];
    if |code| == 1 {
      assert p[..1] == k[..1];
    }
  }

  lemma FoldCons(s: string, cs: bool)
    requires s != []
    ensures Fold(s, cs) == Fold(s[..1], cs) + Fold(s[1..], cs)
  {
  }

  /** The digit loop of decode_array_index_from_pointer, wrapping like size_t. */
  function ScanIndex(p: string, acc: nat): (nat, string) {
    if p != [] && IsDigit(p[0]) then ScanIndex(p[1..], (10 * acc + DigitValue(p[0])) % SIZE_RANGE) else (acc, p)
  }

  /** decode_array_index_from_pointer */
  function DecodeIndex(p: string): Option<nat> {
    if |p| > 1 && p[0] == '0' && p[1] != '/' then None
    else
      var (index, rest) := ScanIndex(p, 0);
      if EndsToken(rest) then Some(index) else None
  }

  method DecodeIndexLoop(p: string) returns (r: Option<nat>)
    ensures r == DecodeIndex(p)
  {
    if |p| > 1 && p[0] == '0' && p[1] != '/' {
      return None;
    }
    var index: nat, position := 0, 0;
    while position < |p| && IsDigit(p[position])
      invariant position <= |p|
      invariant ScanIndex(p[position..], index) == ScanIndex(p, 0)
    {
      assert p[position..][1..] == p[position + 1..];
      index := (10 * index + DigitValue(p[position])) % SIZE_RANGE;
      position := position + 1;
    }
    if position < |p| && p[position] != '/' {
      return None;
    }
    return Some(index);
  }

  lemma {:induction false} ScanDigits(d: string, rest: string, acc: nat)
    requires AllDigits(d) && EndsToken(rest) && DigitsValue(d, acc) < SIZE_RANGE
    ensures ScanIndex(d + rest, acc) == (DigitsValue(d, acc), rest)
  {
    hide *;
    if d == [] {
      ScanNothing(rest, acc);
    } else {
      ValueStep(d, acc);
      ScanStep(d, rest, acc);
      ScanDigits(d[1..], rest, 10 * acc + DigitValue(d[0]));
    }
  }

  lemma ScanNothing(rest: string, acc: nat)
    requires EndsToken(rest)
    ensures ScanIndex([] + rest, acc) == (acc, rest) && AllDigits([]) && DigitsValue([], acc) == acc
  {
    assert [] + rest == rest;
  }

  lemma ValueStep(d: string, acc: nat)
    requires d != [] && AllDigits(d)
    ensures IsDigit(d[0]) && AllDigits(d[1..])
    ensures 10 * acc + DigitValue(d[0]) <= DigitsValue(d, acc) == DigitsValue(d[1..], 10 * acc + DigitValue(d[0]))
  {
  }

  lemma ScanStep(d: string, rest: string, acc: nat)
    requires d != [] && IsDigit(d[0]) && 10 * acc + DigitValue(d[0]) < SIZE_RANGE
    ensures ScanIndex(d + rest, acc) == ScanIndex(d[1..] + rest, 10 * acc + DigitValue(d[0]))
  {
    assert (d + rest)[0] == d[0] && (d + rest)[1..] == d[1..] + rest;
  }

  /** A printed index decodes to itself. */
  lemma DecodePrintedIndex(i: nat, rest: string)
    requires i < SIZE_RANGE && EndsToken(rest)
    ensures DecodeIndex(Decimal(i) + rest) == Some(i)
  {
    DecimalValue(i);
    ScanDigits(Decimal(i), rest, 0);
    var p := Decimal(i) + rest;
    if p[0] == '0' && |p| > 1 {
      assert p[1] == rest[0];
    }
  }

  /** The path buffers leave twenty characters for a printed index. */
  lemma IndexFits(i: nat)
    requires i < SIZE_RANGE
    ensures |Decimal(i)| <= 20
  {
    Numerals.TenTen();
    Numerals.DecimalShort(i, 10);
  }

  lemma DecimalPlain(i: nat)
    ensures '~' !in Decimal(i) && '/' !in Decimal(i) && Decimal(i) != "-"
  {
  }

  /** What is left of a pointer behind its first token: empty, or from the next slash on. */
  function SkipToken(p: string): (r: string)
    ensures EndsToken(r) && |r| <= |p|
  {
    if EndsToken(p) then p else SkipToken(p[1..])
  }

  lemma {:induction false} SkipPlain(token: string, rest: string)
    requires '/' !in token && EndsToken(rest)
    ensures SkipToken(token + rest) == rest
  {
    if token == [] {
      assert token + rest == rest;
    } else {
      assert (token + rest)[1..] == token[1..] + rest;
      SkipPlain(token[1..], rest);
    }
  }

  // ---- get_item_from_pointer ----

  /** The first member that matches the token; |ms| when none does. */
  function MatchMember(ms: seq<Member>, p: string, cs: bool): (r: nat)
    ensures r <= |ms|
    ensures forall i | 0 <= i < r :: !ComparePointers(ms[i].key, p, cs)
    ensures r < |ms| ==> ComparePointers(ms[r].key, p, cs)
  {
    if ms == [] || ComparePointers(ms[0].key, p, cs) then 0 else 1 + MatchMember(ms[1..], p, cs)
  }

  /** The child one token leads to. */
  function Step(j: Json, p: string, cs: bool): (r: Option<nat>)
    ensures r.Some? ==> r.value < |Children(j)|
  {
    match j
    case Array(items) =>
      var index := DecodeIndex(p);
      if index.Some? && index.value < |items| then index else None
    case Object(ms) =>
      var i := MatchMember(ms, p, cs);
      if i < |ms| then Some(i) else None
    case _ => None
  }

  /** get_item_from_pointer */
  function Resolve(j: Json, p: string, cs: bool): (r: Option<seq<nat>>)
    ensures r.Some? ==> ValidPath(j, r.value)
    decreases |p|
  {
    if p == [] || p[0] != '/' then Some([])
    else
      var i := Step(j, p[1..], cs);
      if i.None? then None
      else
        var below := Resolve(Children(j)[i.value], SkipToken(p[1..]), cs);
        if below.None? then None else Some([i.value] + below.value)
  }

  lemma {:induction false} PathAppend(j: Json, a: seq<nat>, b: seq<nat>)
    requires ValidPath(j, a) && ValidPath(NodeAt(j, a), b)
    ensures ValidPath(j, a + b) && NodeAt(j, a + b) == NodeAt(NodeAt(j, a), b)
    decreases |a|
  {
    hide Children;
    if a == [] {
      assert a + b == b;
    } else {
      var child := Children(j)[a[0]];
      PathAppend(child, a[1..], b);
      PathHead(a, b);
      OneDown(j, a + b, child);
    }
  }

  lemma NoSteps(j: Json)
    ensures ValidPath(j, []) && NodeAt(j, []) == j
  {
  }

  lemma OneStep(j: Json, i: nat)
    requires i < |Children(j)|
    ensures ValidPath(j, [i]) && NodeAt(j, [i]) == Children(j)[i]
  {
  }

  lemma PathHead(a: seq<nat>, b: seq<nat>)
    requires a != []
    ensures (a + b)[0] == a[0] && (a + b)[1..] == a[1..] + b
  {
  }

  lemma OneDown(j: Json, at: seq<nat>, child: Json)
    requires at != [] && at[0] < |Children(j)| && Children(j)[at[0]] == child && ValidPath(child, at[1..])
    ensures ValidPath(j, at) && NodeAt(j, at) == NodeAt(child, at[1..])
  {
  }

  /** The member walk of get_item_from_pointer. */
  method MatchMemberLoop(ms: seq<Member>, p: string, cs: bool) returns (r: nat)
    ensures r == MatchMember(ms, p, cs)
  {
    r := 0;
    while r < |ms|
      invariant r <= |ms|
      invariant forall k | 0 <= k < r :: !ComparePointers(ms[k].key, p, cs)
    {
      var found := ComparePointersLoop(ms[r].key, p, cs);
      if found {
        return;
      }
      r := r + 1;
    }
  }

  /** The body of the token loop that finds the next node. */
  method StepLoop(j: Json, p: string, cs: bool) returns (r: Option<nat>)
    ensures r == Step(j, p, cs)
  {
    if j.Array? {
      var index := DecodeIndexLoop(p);
      return if index.Some? && index.value < |j.items| then index else None;
    } else if j.Object? {
      var i := MatchMemberLoop(j.members, p, cs);
      return if i < |j.members| then Some(i) else None;
    }
    return None;
  }

  ghost function Under(at: seq<nat>, below: Option<seq<nat>>): Option<seq<nat>> {
    if below.None? then None else Some(at + below.value)
  }

  lemma UnderNothing(below: Option<seq<nat>>)
    ensures Under([], below) == below
  {
    if below.Some? {
      assert [] + below.value == below.value;
    }
  }

  lemma UnderOne(at: seq<nat>, i: nat, below: Option<seq<nat>>)
    ensures Under(at, Under([i], below)) == Under(at + [i], below)
  {
    if below.Some? {
      assert at + ([i] + below.value) == (at + [i]) + below.value;
    }
  }

  /** The loop of get_item_from_pointer, from token to token. */
  method ResolveLoop(root: Json, pointer: string, cs: bool) returns (r: Option<seq<nat>>)
    ensures r == Resolve(root, pointer, cs)
  {
    hide Step, PutAt, NodeAt, ValidPath, Children;
    NoSteps(root);
    var p, at: seq<nat> := pointer, [];
    var current := root;
    UnderNothing(Resolve(root, p, cs));
    while p != [] && p[0] == '/'
      invariant ValidPath(root, at) && current == NodeAt(root, at)
      invariant Resolve(root, pointer, cs) == Under(at, Resolve(current, p, cs))
      decreases |p|
    {
      p := p[1..];
      var i := StepLoop(current, p, cs);
      if i.None? {
        return None;
      }
      OneStep(current, i.value);
      PathAppend(root, at, [i.value]);
      UnderOne(at, i.value, Resolve(Children(current)[i.value], SkipToken(p), cs));
      current := Children(current)[i.value];
      at := at + [i.value];
      ghost var rest := SkipToken(p);
      while p != [] && p[0] != '/'
        invariant SkipToken(p) == rest
      {
        p := p[1..];
      }
    }
    assert at + [] == at;
    return Some(at);
  }

  // ---- cJSONUtils_FindPointerFromObjectTo ----

  /** The token that leads to child i. */
  function Token(j: Json, i: nat): string
    requires i < |Children(j)|
  {
    if j.Array? then Decimal(i) else Encode(j.members[i].key)
  }

  /** The depth-first search for a node; nodes are told apart by where they stand. */
  function FindPointer(j: Json, here: seq<nat>, target: seq<nat>): Option<string>
    decreases Height(j), 1, 0
  {
    if here == target then Some("")
    else FindBelow(j, here, target, 0)
  }

  function FindBelow(j: Json, here: seq<nat>, target: seq<nat>, i: nat): Option<string>
    requires i <= |Children(j)|
    decreases Height(j), 0, |Children(j)| - i
  {
    if i == |Children(j)| then None
    else
      ChildrenLower(j, i);
      var found := FindPointer(Children(j)[i], here + [i], target);
      if found.Some? then Some("/" + Token(j, i) + found.value)
      else FindBelow(j, here, target, i + 1)
  }

  method FindPointerLoop(j: Json, here: seq<nat>, target: seq<nat>) returns (r: Option<string>)
    ensures r == FindPointer(j, here, target)
    decreases Height(j)
  {
    if here == target {
      return Some("");
    }
    var i := 0;
    while i < |Children(j)|
      invariant i <= |Children(j)|
      invariant FindBelow(j, here, target, i) == FindPointer(j, here, target)
    {
      ChildrenLower(j, i);
      var found := FindPointerLoop(Children(j)[i], here + [i], target);
      if found.Some? {
        if j.Array? {
          return Some("/" + Decimal(i) + found.value);
        }
        var path := MemberPath("", j.members[i].key);
        assert "" + "/" == "/";
        return Some(path + found.value);
      }
      i := i + 1;
    }
    return None;
  }

  /** The pointer made of the tokens along a path. */
  function PointerTo(j: Json, at: seq<nat>): string
    requires ValidPath(j, at)
    decreases |at|
  {
    if at == [] then "" else "/" + Token(j, at[0]) + PointerTo(Children(j)[at[0]], at[1..])
  }

  /** Arrays short enough to be indexed by size_t. */
  ghost predicate Indexable(j: Json) {
    match j
    case Array(items) => |items| <= SIZE_RANGE && forall i | 0 <= i < |items| :: Indexable(items[i])
    case Object(ms) => forall i | 0 <= i < |ms| :: Indexable(ms[i].value)
    case _ => true
  }

  /** The search meets exactly the nodes of the tree, and spells the path it took. */
  lemma {:induction false} FindPointerFinds(j: Json, here: seq<nat>, at: seq<nat>)
    ensures FindPointer(j, here, here + at) == if ValidPath(j, at) then Some(PointerTo(j, at)) else None
    decreases |at|, 1, 0
  {
    if at == [] {
      assert here + at == here;
    } else {
      assert here != here + at;
      FindBelowFinds(j, here, at, 0);
    }
  }

  lemma {:induction false} FindBelowFinds(j: Json, here: seq<nat>, at: seq<nat>, i: nat)
    requires at != [] && i <= |Children(j)|
    ensures FindBelow(j, here, here + at, i)
         == if at[0] >= i && ValidPath(j, at) then Some(PointerTo(j, at)) else None
    decreases |at|, 0, |Children(j)| - i
  {
    if i < |Children(j)| {
      if at[0] == i {
        assert here + at == (here + [i]) + at[1..];
        FindPointerFinds(Children(j)[i], here + [i], at[1..]);
      } else {
        assert (here + [i])[|here|] != (here + at)[|here|];
        FindNothing(Children(j)[i], here + [i], here + at, |here|);
      }
      FindBelowFinds(j, here, at, i + 1);
    }
  }

  /** No node below a place has an address outside of it. */
  lemma {:induction false} FindNothing(j: Json, here: seq<nat>, target: seq<nat>, k: nat)
    requires k < |here| && k < |target| && here[k] != target[k]
    ensures FindPointer(j, here, target) == None
    decreases Height(j), 1, 0
  {
    FindNothingBelow(j, here, target, k, 0);
  }

  lemma {:induction false} FindNothingBelow(j: Json, here: seq<nat>, target: seq<nat>, k: nat, i: nat)
    requires i <= |Children(j)|
    requires k < |here| && k < |target| && here[k] != target[k]
    ensures FindBelow(j, here, target, i) == None
    decreases Height(j), 0, |Children(j)| - i
  {
    if i < |Children(j)| {
      ChildrenLower(j, i);
      FindNothing(Children(j)[i], here + [i], target, k);
      FindNothingBelow(j, here, target, k, i + 1);
    }
  }

  lemma ResolveStep(j: Json, i: nat, p: string, rest: string, cs: bool)
    requires Step(j, p, cs) == Some(i) && SkipToken(p) == rest
    ensures Resolve(j, "/" + p, cs) == Under([i], Resolve(Children(j)[i], rest, cs))
  {
    assert ("/" + p)[1..] == p;
  }

  lemma PointerToCons(j: Json, at: seq<nat>)
    requires at != [] && ValidPath(j, at)
    ensures PointerTo(j, at) == "/" + (Token(j, at[0]) + PointerTo(Children(j)[at[0]], at[1..]))
    ensures EndsToken(PointerTo(Children(j)[at[0]], at[1..]))
  {
  }

  lemma ChildDomain(j: Json, i: nat, cs: bool)
    requires i < |Children(j)| && Unique(j, cs) && Indexable(j)
    ensures Unique(Children(j)[i], cs) && Indexable(Children(j)[i])
  {
  }

  lemma RoundTripStep(j: Json, i: nat, rest: string, below: seq<nat>, cs: bool)
    requires i < |Children(j)| && Unique(j, cs) && Indexable(j) && EndsToken(rest)
    requires Resolve(Children(j)[i], rest, cs) == Some(below)
    ensures Resolve(j, "/" + (Token(j, i) + rest), cs) == Some([i] + below)
  {
    StepToken(j, i, rest, cs);
    ResolveStep(j, i, Token(j, i) + rest, rest, cs);
  }

  /** JSON Pointer round trip: the pointer made for a node resolves to that node. */
  lemma {:induction false} PointerRoundTrip(j: Json, at: seq<nat>, cs: bool)
    requires ValidPath(j, at) && Unique(j, cs) && Indexable(j)
    ensures Resolve(j, PointerTo(j, at), cs) == Some(at)
    decreases |at|
  {
    if at != [] {
      ChildDomain(j, at[0], cs);
      PointerRoundTrip(Children(j)[at[0]], at[1..], cs);
      PointerToCons(j, at);
      RoundTripStep(j, at[0], PointerTo(Children(j)[at[0]], at[1..]), at[1..], cs);
      assert [at[0]] + at[1..] == at;
    }
  }

  /** The token of a child leads to that child, and is skipped as a whole. */
  lemma StepToken(j: Json, i: nat, rest: string, cs: bool)
    requires i < |Children(j)| && EndsToken(rest)
    requires j.Array? ==> |j.items| <= SIZE_RANGE
    requires j.Object? ==> DistinctKeys(j.members, cs)
    ensures Step(j, Token(j, i) + rest, cs) == Some(i)
    ensures SkipToken(Token(j, i) + rest) == rest
  {
    if j.Array? {
      DecodePrintedIndex(i, rest);
      DecimalPlain(i);
      SkipPlain(Decimal(i), rest);
    } else {
      MatchKey(j.members, i, j.members[i].key, rest, cs);
      EncodeNoSlash(j.members[i].key);
      SkipPlain(Encode(j.members[i].key), rest);
    }
  }

  /** An escaped key is matched by the one member that has it. */
  lemma MatchKey(ms: seq<Member>, i: nat, k: string, rest: string, cs: bool)
    requires i < |ms| && DistinctKeys(ms, cs) && EndsToken(rest)
    requires Fold(ms[i].key, cs) == Fold(k, cs)
    ensures MatchMember(ms, Encode(k) + rest, cs) == i
  {
    var p := Encode(k) + rest;
    var r := MatchMember(ms, p, cs);
    ComparePointersEncoded(ms[i].key, k, rest, cs);
    if r < |ms| {
      ComparePointersEncoded(ms[r].key, k, rest, cs);
    }
  }

  /** Whatever node the search finds is the node its pointer resolves to. */
  lemma FoundPointerResolves(j: Json, target: seq<nat>, cs: bool)
    requires Unique(j, cs) && Indexable(j)
    ensures FindPointer(j, [], target).Some? <==> ValidPath(j, target)
    ensures FindPointer(j, [], target).Some? ==> Resolve(j, FindPointer(j, [], target).value, cs) == Some(target)
  {
    assert [] + target == target;
    FindPointerFinds(j, [], target);
    if ValidPath(j, target) {
      PointerRoundTrip(j, target, cs);
    }
  }
}
