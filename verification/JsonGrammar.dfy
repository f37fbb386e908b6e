/** JSON texts: what it means that a stretch of text spells a tree, and that the parser reads it. */
module JsonGrammar {
  import opened Text
  import opened JsonTree
  import opened Render
  import opened ParseText
  import opened StringLiteral
  import opened StringAccepted
  import N = JsonNumber

  // ---- white space and delimiters ----

  lemma {:induction false} BlankEndIs(t: string, o: nat, p: nat)
    requires o <= p < |t| && !IsBlank(t[p]) && forall i | o <= i < p :: IsBlank(t[i])
    ensures BlankEnd(t, o) == p
    decreases p - o
  {
    if o < p {
      BlankEndIs(t, o + 1, p);
    }
  }

  /** Blanks are all characters up to the space, codes 0 to 32. */
  predicate Blank(t: string, a: nat, b: nat) {
    a <= b <= |t| && forall i | a <= i < b :: t[i] as int <= 32
  }

  /** Blanks and then something else: skipping stops there. */
  lemma SkipTo(t: string, a: nat, b: nat)
    requires Blank(t, a, b) && b < |t| && !IsBlank(t[b])
    ensures SkipBlank(t, a) == b
  {
    BlankEndIs(t, a, b);
  }

  /** What may follow a value without being taken for a part of it. */
  predicate Delimited(t: string, e: nat) {
    e < |t| ==> !IsNumberChar(t[e])
  }

  // ---- numbers ----

  lemma {:induction false} NumberEndIs(t: string, o: nat, e: nat)
    requires o <= e <= |t| && (forall i | o <= i < e :: IsNumberChar(t[i])) && Delimited(t, e)
    ensures NumberEnd(t, o) == e
    decreases e - o
  {
    if o < e {
      NumberEndIs(t, o + 1, e);
    }
  }

  // ---- nesting ----

  /** How deep arrays and objects are nested: an empty one counts as one level. */
  function Nest(j: Json): nat {
    match j
    case Array(items) => 1 + NestItems(items)
    case Object(ms) => 1 + NestMembers(ms)
    case _ => 0
  }

  function NestItems(items: seq<Json>): nat {
    if items == [] then 0 else Max(Nest(items[0]), NestItems(items[1..]))
  }

  function NestMembers(ms: seq<Member>): nat {
    if ms == [] then 0 else Max(Nest(ms[0].value), NestMembers(ms[1..]))
  }

  // ---- the grammar, over positions ----

  /** A numeral with that value; it starts with a digit or a minus sign. */
  ghost predicate SpellsNumber(t: string, o: nat, e: nat, d: real) {
    && o < e <= |t| && (t[o] == '-' || '0' <= t[o] <= '9')
    && exists n: N.Numeral :: N.WellFormed(n) && N.Spelled(n) == t[o..e] && N.Value(n) == d
  }

  /** The text from o to e is a JSON text for the tree; any blanks may stand between tokens. */
  ghost predicate Spells(t: string, o: nat, e: nat, j: Json)
    decreases j, 0
  {
    match j
    case Invalid => false
    case Null => Reads(t, o, "null") && e == o + 4
    case False => Reads(t, o, "false") && e == o + 5
    case True => Reads(t, o, "true") && e == o + 4
    case Number(d) => SpellsNumber(t, o, e, d)
    case String(s) => AcceptsString(t, o, e, s)
    case Array(items) =>
      Sees(t, o, '[') && o < e - 1 && Sees(t, e - 1, ']')
      && if items == [] then Blank(t, o + 1, e - 1) else SpellsItems(t, o + 1, e - 1, items)
    case Object(ms) =>
      Sees(t, o, '{') && o < e - 1 && Sees(t, e - 1, '}')
      && if ms == [] then Blank(t, o + 1, e - 1) else SpellsMembers(t, o + 1, e - 1, ms)
  }

  /** Where a value lies: from a to b, with blanks up to c; k is behind a name and its colon. */
  datatype Place = Place(k: nat, a: nat, b: nat, c: nat)

  /** Elements from o to e: blanks around each, commas between them. */
  ghost predicate SpellsItems(t: string, o: nat, e: nat, items: seq<Json>)
    requires items != []
    decreases items, 1
  {
    exists p: Place :: ItemAt(t, o, e, items, p)
  }

  ghost predicate ItemAt(t: string, o: nat, e: nat, items: seq<Json>, p: Place)
    requires items != []
    decreases items, 0
  {
    && Blank(t, o, p.a) && Spells(t, p.a, p.b, items[0]) && Blank(t, p.b, p.c)
    && if |items| == 1 then p.c == e else Sees(t, p.c, ',') && SpellsItems(t, p.c + 1, e, items[1..])
  }

  /** Members from o to e: a name, a colon and a value each. */
  ghost predicate SpellsMembers(t: string, o: nat, e: nat, ms: seq<Member>)
    requires ms != []
    decreases ms, 1
  {
    exists p: Place :: MemberAt(t, o, e, ms, p)
  }

  ghost predicate MemberAt(t: string, o: nat, e: nat, ms: seq<Member>, p: Place)
    requires ms != []
    decreases ms, 0
  {
    && SpellsName(t, o, p.k, ms[0].key)
    && Blank(t, p.k, p.a) && Spells(t, p.a, p.b, ms[0].value) && Blank(t, p.b, p.c)
    && if |ms| == 1 then p.c == e else Sees(t, p.c, ',') && SpellsMembers(t, p.c + 1, e, ms[1..])
  }

  /** A name and its colon, up to k. */
  ghost predicate SpellsName(t: string, o: nat, k: nat, key: string) {
    exists a: nat, b: nat :: NameAt(t, o, k, key, a, b)
  }

  ghost predicate NameAt(t: string, o: nat, k: nat, key: string, a: nat, b: nat) {
    Blank(t, o, a) && AcceptsString(t, a, b, key) && k > 0 && Blank(t, b, k - 1) && Sees(t, k - 1, ':')
  }

  // ---- one turn of each loop of the parser ----

  /** Accepted with this value and end, or rejected. */
  predicate Accepts<T(==)>(r: Parsed<T>, accepted: bool, value: T, end: nat) {
    if accepted then r == Ok(value, end) else r.Fail?
  }

  lemma ElementsLast(t: string, q: nat, depth: nat, a: nat, b: nat, c: nat, v: Json, ok: bool)
    requires q < |t| && SkipBlank(t, q + 1) == a && b <= |t| && Accepts(ParseValue(t, a, depth), ok, v, b)
    requires SkipBlank(t, b) == c && Sees(t, c, ']')
    ensures Accepts(ParseElements(t, q, depth), ok, [v], c + 1)
  {
    hide ParseValue;
  }

  lemma ElementsMore(t: string, q: nat, depth: nat, a: nat, b: nat, c: nat, v: Json, ok: bool,
      vs: seq<Json>, okRest: bool, end: nat)
    requires q < |t| && SkipBlank(t, q + 1) == a && b <= |t| && Accepts(ParseValue(t, a, depth), ok, v, b)
    requires SkipBlank(t, b) == c && Sees(t, c, ',') && Accepts(ParseElements(t, c, depth), okRest, vs, end)
    ensures Accepts(ParseElements(t, q, depth), ok && okRest, [v] + vs, end)
  {
    hide ParseValue;
  }

  lemma MembersLast(t: string, q: nat, depth: nat, key: string, k: nat, a: nat, b: nat, c: nat, v: Json, ok: bool)
    requires q < |t| && k <= |t| && ParseKey(t, q) == Ok(key, k)
    requires SkipBlank(t, k) == a && b <= |t| && Accepts(ParseValue(t, a, depth), ok, v, b)
    requires SkipBlank(t, b) == c && Sees(t, c, '}')
    ensures Accepts(ParseMembers(t, q, depth), ok, [Member(key, v)], c + 1)
  {
    hide ParseValue, ParseKey;
  }

  lemma MembersMore(t: string, q: nat, depth: nat, key: string, k: nat, a: nat, b: nat, c: nat, v: Json, ok: bool,
      ms: seq<Member>, okRest: bool, end: nat)
    requires q < |t| && k <= |t| && ParseKey(t, q) == Ok(key, k)
    requires SkipBlank(t, k) == a && b <= |t| && Accepts(ParseValue(t, a, depth), ok, v, b)
    requires SkipBlank(t, b) == c && Sees(t, c, ',') && Accepts(ParseMembers(t, c, depth), okRest, ms, end)
    ensures Accepts(ParseMembers(t, q, depth), ok && okRest, [Member(key, v)] + ms, end)
  {
    hide ParseValue, ParseKey;
  }

  /** Stepping back in front of the first element changes nothing: blanks are skipped again. */
  lemma ArrayLoop(t: string, o: nat, p: nat, depth: nat, items: seq<Json>, ok: bool, end: nat)
    requires o < |t| && depth < CJSON_NESTING_LIMIT && SkipBlank(t, o + 1) == p < |t|
    requires !IsBlank(t[p]) && t[p] != ']'
    requires Accepts(ParseElements(t, o, depth + 1), ok, items, end)
    ensures Accepts(ParseArray(t, o, depth), ok, Array(items), end)
  {
    hide ParseValue;
    SkipTo(t, p, p);
    assert ParseElements(t, p - 1, depth + 1) == ParseElements(t, o, depth + 1);
  }

  lemma ObjectLoop(t: string, o: nat, p: nat, depth: nat, ms: seq<Member>, ok: bool, end: nat)
    requires o < |t| && depth < CJSON_NESTING_LIMIT && SkipBlank(t, o + 1) == p && Sees(t, p, QUOTE)
    requires Accepts(ParseMembers(t, o, depth + 1), ok, ms, end)
    ensures Accepts(ParseObject(t, o, depth), ok, Object(ms), end)
  {
    hide ParseObject, ParseMembers, ParseKey;
    SkipTo(t, p, p);
    KeyFrom(t, p - 1, o);
    MembersFrom(t, p - 1, o, depth + 1);
    ObjectWrap(t, o, p, depth);
  }

  lemma ObjectWrap(t: string, o: nat, p: nat, depth: nat)
    requires o < |t| && depth < CJSON_NESTING_LIMIT && SkipBlank(t, o + 1) == p && Sees(t, p, QUOTE)
    ensures ParseObject(t, o, depth) == AsObject(ParseMembers(t, p - 1, depth + 1))
  {
    hide ParseMembers;
  }

  lemma KeyFrom(t: string, q: nat, q': nat)
    requires q + 1 < |t| && q' + 1 < |t| && SkipBlank(t, q + 1) == SkipBlank(t, q' + 1)
    ensures ParseKey(t, q) == ParseKey(t, q')
  {
    hide ParseString;
  }

  lemma MembersFrom(t: string, q: nat, q': nat, depth: nat)
    requires q < |t| && q' < |t| && ParseKey(t, q) == ParseKey(t, q')
    ensures ParseMembers(t, q, depth) == ParseMembers(t, q', depth)
  {
    hide ParseKey, ParseValue;
  }

  // ---- what a spelling starts with ----

  predicate StartsValue(c: char, j: Json) {
    match j
    case Invalid => false
    case Null => c == 'n'
    case False => c == 'f'
    case True => c == 't'
    case Number(_) => c == '-' || IsDigit(c)
    case String(_) => c == QUOTE
    case Array(_) => c == '['
    case Object(_) => c == '{'
  }

  lemma SpellsFirst(t: string, o: nat, e: nat, j: Json)
    requires Spells(t, o, e, j)
    ensures o < e <= |t| && StartsValue(t[o], j) && !IsBlank(t[o]) && t[o] != ']' && t[o] != ','
  {
    match j
    case Null => ReadsAt(t, o, "null", 0);
    case False => ReadsAt(t, o, "false", 0);
    case True => ReadsAt(t, o, "true", 0);
    case String(s) => StringParses(t, o, e, s);
    case _ =>
  }

  lemma StringParses(t: string, o: nat, e: nat, s: string)
    requires AcceptsString(t, o, e, s)
    ensures o < e <= |t| && t[o] == QUOTE && ParseString(t, o) == Ok(s, e)
  {
    StringExact(t, o, e, s);
    hide ParseString, ClosingQuote, CString, AllFormed;
  }

  lemma NumberParses(t: string, o: nat, e: nat, d: real)
    requires SpellsNumber(t, o, e, d) && Delimited(t, e)
    ensures ParseNumber(t, o) == Ok(Number(d), e)
  {
    var n: N.Numeral :| N.WellFormed(n) && N.Spelled(n) == t[o..e] && N.Value(n) == d;
    N.NumeralRead(n);
    NumeralChars(n);
    hide Strtod, N.Spelled, N.Value, N.WellFormed;
    forall i | o <= i < e ensures IsNumberChar(t[i]) {
      assert t[i] == t[o..e][i - o];
    }
    NumberEndIs(t, o, e);
  }

  lemma NumeralChars(n: N.Numeral)
    requires N.WellFormed(n)
    ensures forall c | c in N.Spelled(n) :: IsNumberChar(c)
  {
    var power := N.PowerText(n);
    if n.power.Some? {
      forall c | c in power ensures IsNumberChar(c) {
      }
    }
    forall c | c in N.Spelled(n) ensures IsNumberChar(c) {
      assert c in n.sign || c in n.whole || c in N.PointText(n) || c in power;
    }
  }

  lemma NameParses(t: string, q: nat, k: nat, key: string)
    requires SpellsName(t, q + 1, k, key)
    ensures q + 1 < k <= |t| && ParseKey(t, q) == Ok(key, k)
    ensures Sees(t, SkipBlank(t, q + 1), QUOTE)
  {
    hide ParseKey, ParseString, AcceptsString;
    var a: nat, b: nat :| NameAt(t, q + 1, k, key, a, b);
    StringParses(t, a, b, key);
    SkipTo(t, q + 1, a);
    SkipTo(t, b, k - 1);
    KeyStep(t, q, a, b, k, key);
  }

  lemma KeyStep(t: string, q: nat, a: nat, b: nat, k: nat, key: string)
    requires q + 1 < |t| && SkipBlank(t, q + 1) == a && ParseString(t, a) == Ok(key, b)
    requires k > 0 && SkipBlank(t, b) == k - 1 && Sees(t, k - 1, ':')
    ensures ParseKey(t, q) == Ok(key, k)
  {
    hide ParseString;
  }

  lemma NotWord(t: string, o: nat, word: string, c: char)
    requires Sees(t, o, c) && word != [] && word[0] != c
    ensures !Reads(t, o, word)
  {
    if o + |word| <= |t| {
      assert t[o..o + |word|][0] == c;
    }
  }

  /** Which parser runs, by the first character. */
  lemma Dispatch(t: string, o: nat, c: char, depth: nat)
    requires Sees(t, o, c) && c != 'n' && c != 'f' && c != 't'
    ensures c == QUOTE && ParseString(t, o).Ok? ==>
      ParseValue(t, o, depth) == Ok(String(ParseString(t, o).value), ParseString(t, o).end)
    ensures c == '-' || IsDigit(c) ==> ParseValue(t, o, depth) == ParseNumber(t, o)
    ensures c == '[' ==> ParseValue(t, o, depth) == ParseArray(t, o, depth)
    ensures c == '{' ==> ParseValue(t, o, depth) == ParseObject(t, o, depth)
  {
    hide ParseString, ParseNumber, ParseArray, ParseObject;
    NotWord(t, o, "null", c);
    NotWord(t, o, "false", c);
    NotWord(t, o, "true", c);
  }

  // ---- the parser reads every spelling ----

  /** A spelling within the nesting limit is read as its tree; a deeper one is rejected. */
  lemma {:induction false} SpellingParses(t: string, o: nat, e: nat, j: Json, depth: nat)
    requires Spells(t, o, e, j) && Delimited(t, e) && depth <= CJSON_NESTING_LIMIT
    ensures Accepts(ParseValue(t, o, depth), depth + Nest(j) <= CJSON_NESTING_LIMIT, j, e)
    decreases j, 0
  {
    hide ParseString, ParseNumber, ParseArray, ParseObject, Strtod;
    SpellsFirst(t, o, e, j);
    if !j.Null? && !j.True? && !j.False? {
      Dispatch(t, o, t[o], depth);
    }
    match j
    case Null =>
    case False => NotWord(t, o, "null", t[o]);
    case True =>
      NotWord(t, o, "null", t[o]);
      NotWord(t, o, "false", t[o]);
    case Number(d) => NumberParses(t, o, e, d);
    case String(s) => StringParses(t, o, e, s);
    case Array(items) => ArrayParses(t, o, e, items, depth);
    case Object(ms) => ObjectParses(t, o, e, ms, depth);
  }

  lemma {:induction false} ArrayParses(t: string, o: nat, e: nat, items: seq<Json>, depth: nat)
    requires o < e - 1 && Sees(t, e - 1, ']') && depth <= CJSON_NESTING_LIMIT
    requires if items == [] then Blank(t, o + 1, e - 1) else SpellsItems(t, o + 1, e - 1, items)
    ensures Accepts(ParseArray(t, o, depth), depth + 1 + NestItems(items) <= CJSON_NESTING_LIMIT, Array(items), e)
    decreases items, 2
  {
    hide ParseValue, ParseElements, SpellsItems;
    if depth < CJSON_NESTING_LIMIT {
      if items == [] {
        EmptyArrayParses(t, o, e, depth);
      } else {
        var a := ItemsFirst(t, o + 1, e - 1, items);
        ItemsParse(t, o, e - 1, items, depth + 1);
        ArrayLoop(t, o, a, depth, items, depth + 1 + NestItems(items) <= CJSON_NESTING_LIMIT, e);
      }
    }
  }

  /** Brackets around nothing but blanks. */
  lemma EmptyArrayParses(t: string, o: nat, e: nat, depth: nat)
    requires depth < CJSON_NESTING_LIMIT && o < e - 1 && Blank(t, o + 1, e - 1) && Sees(t, e - 1, ']')
    ensures ParseArray(t, o, depth) == Ok(Array([]), e)
  {
    hide ParseElements;
    SkipTo(t, o + 1, e - 1);
  }

  /** Braces around nothing but blanks. */
  lemma EmptyObjectParses(t: string, o: nat, e: nat, depth: nat)
    requires depth < CJSON_NESTING_LIMIT && o < e - 1 && Blank(t, o + 1, e - 1) && Sees(t, e - 1, '}')
    ensures ParseObject(t, o, depth) == Ok(Object([]), e)
  {
    hide ParseMembers;
    SkipTo(t, o + 1, e - 1);
  }

  lemma ItemsFirst(t: string, o: nat, e: nat, items: seq<Json>) returns (a: nat)
    requires items != [] && o <= |t| && SpellsItems(t, o, e, items) && Sees(t, e, ']')
    ensures SkipBlank(t, o) == a < |t| && !IsBlank(t[a]) && t[a] != ']'
  {
    hide SpellsItems, Spells;
    var p := ItemsPlace(t, o, e, items);
    a := p.a;
    SpellsFirst(t, a, p.b, items[0]);
    SkipTo(t, o, a);
  }

  /** What follows an element or a member value does not continue a number. */
  lemma ValueEnds(t: string, b: nat, c: nat)
    requires Blank(t, b, c) && c < |t| && (t[c] == ',' || t[c] == ']' || t[c] == '}')
    ensures Delimited(t, b) && SkipBlank(t, b) == c
  {
    SkipTo(t, b, c);
  }

  lemma ItemsPlace(t: string, o: nat, e: nat, items: seq<Json>) returns (p: Place)
    requires items != [] && SpellsItems(t, o, e, items) && Sees(t, e, ']')
    ensures p.c < |t| && (t[p.c] == ',' || t[p.c] == ']')
    ensures Blank(t, o, p.a) && Spells(t, p.a, p.b, items[0]) && Blank(t, p.b, p.c)
    ensures |items| == 1 ==> p.c == e
    ensures |items| > 1 ==> Sees(t, p.c, ',') && SpellsItems(t, p.c + 1, e, items[1..])
  {
    p :| ItemAt(t, o, e, items, p);
  }

  lemma NestItemsCons(items: seq<Json>, depth: nat)
    requires items != []
    ensures depth + NestItems(items) <= CJSON_NESTING_LIMIT
       <==> depth + Nest(items[0]) <= CJSON_NESTING_LIMIT && depth + NestItems(items[1..]) <= CJSON_NESTING_LIMIT
  {
    assert depth + Nest(items[0]) <= CJSON_NESTING_LIMIT ==> depth <= CJSON_NESTING_LIMIT;
  }

  lemma {:induction false} ItemRead(t: string, q: nat, e: nat, items: seq<Json>, depth: nat) returns (p: Place)
    requires items != [] && q < |t| && SpellsItems(t, q + 1, e, items)
    requires Sees(t, e, ']') && depth <= CJSON_NESTING_LIMIT
    ensures ElementRead(t, q, p, items[0], depth)
    ensures |items| == 1 ==> p.c == e
    ensures |items| > 1 ==> Sees(t, p.c, ',') && SpellsItems(t, p.c + 1, e, items[1..])
    decreases items, 0
  {
    hide ParseValue, SpellsItems, Spells;
    p := ItemsPlace(t, q + 1, e, items);
    SpellsFirst(t, p.a, p.b, items[0]);
    SkipTo(t, q + 1, p.a);
    ValueEnds(t, p.b, p.c);
    SpellingParses(t, p.a, p.b, items[0], depth);
  }

  /** The first element and the blanks around it, as the element loop reads them. */
  predicate ElementRead(t: string, q: nat, p: Place, v: Json, depth: nat) {
    && q < |t| && p.a <= |t| && p.b <= |t| && SkipBlank(t, q + 1) == p.a && SkipBlank(t, p.b) == p.c
    && Accepts(ParseValue(t, p.a, depth), depth + Nest(v) <= CJSON_NESTING_LIMIT, v, p.b)
  }

  lemma OneElement(t: string, q: nat, p: Place, items: seq<Json>, depth: nat)
    requires |items| == 1 && depth <= CJSON_NESTING_LIMIT && ElementRead(t, q, p, items[0], depth) && Sees(t, p.c, ']')
    ensures Accepts(ParseElements(t, q, depth), depth + NestItems(items) <= CJSON_NESTING_LIMIT, items, p.c + 1)
  {
    hide ParseValue, ParseElements;
    NestItemsCons(items, depth);
    assert items[1..] == [] && [items[0]] == items;
    ElementsLast(t, q, depth, p.a, p.b, p.c, items[0], depth + Nest(items[0]) <= CJSON_NESTING_LIMIT);
  }

  lemma MoreElements(t: string, q: nat, p: Place, items: seq<Json>, depth: nat, end: nat)
    requires |items| > 1 && depth <= CJSON_NESTING_LIMIT && ElementRead(t, q, p, items[0], depth) && Sees(t, p.c, ',')
    requires Accepts(ParseElements(t, p.c, depth), depth + NestItems(items[1..]) <= CJSON_NESTING_LIMIT,
        items[1..], end)
    ensures Accepts(ParseElements(t, q, depth), depth + NestItems(items) <= CJSON_NESTING_LIMIT, items, end)
  {
    hide ParseValue, ParseElements;
    NestItemsCons(items, depth);
    assert [items[0]] + items[1..] == items;
    ElementsMore(t, q, depth, p.a, p.b, p.c, items[0], depth + Nest(items[0]) <= CJSON_NESTING_LIMIT,
      items[1..], depth + NestItems(items[1..]) <= CJSON_NESTING_LIMIT, end);
  }

  lemma {:induction false} ItemsParse(t: string, q: nat, e: nat, items: seq<Json>, depth: nat)
    requires items != [] && q < |t| && SpellsItems(t, q + 1, e, items)
    requires Sees(t, e, ']') && depth <= CJSON_NESTING_LIMIT
    ensures Accepts(ParseElements(t, q, depth), depth + NestItems(items) <= CJSON_NESTING_LIMIT, items, e + 1)
    decreases items, 1
  {
    hide ParseValue, ParseElements, SpellsItems;
    var p := ItemRead(t, q, e, items, depth);
    if |items| == 1 {
      OneElement(t, q, p, items, depth);
    } else {
      ItemsParse(t, p.c, e, items[1..], depth);
      MoreElements(t, q, p, items, depth, e + 1);
    }
  }

  lemma {:induction false} ObjectParses(t: string, o: nat, e: nat, ms: seq<Member>, depth: nat)
    requires o < e - 1 && Sees(t, e - 1, '}') && depth <= CJSON_NESTING_LIMIT
    requires if ms == [] then Blank(t, o + 1, e - 1) else SpellsMembers(t, o + 1, e - 1, ms)
    ensures Accepts(ParseObject(t, o, depth), depth + 1 + NestMembers(ms) <= CJSON_NESTING_LIMIT, Object(ms), e)
    decreases ms, 3
  {
    hide ParseValue, ParseMembers, ParseKey, SpellsMembers;
    if depth < CJSON_NESTING_LIMIT {
      if ms == [] {
        EmptyObjectParses(t, o, e, depth);
      } else {
        FullObjectParses(t, o, e, ms, depth);
      }
    }
  }

  lemma {:induction false} FullObjectParses(t: string, o: nat, e: nat, ms: seq<Member>, depth: nat)
    requires o < e - 1 && Sees(t, e - 1, '}') && depth < CJSON_NESTING_LIMIT
    requires ms != [] && SpellsMembers(t, o + 1, e - 1, ms)
    ensures Accepts(ParseObject(t, o, depth), depth + 1 + NestMembers(ms) <= CJSON_NESTING_LIMIT, Object(ms), e)
    decreases ms, 2
  {
    hide ParseValue, ParseMembers, ParseKey, ParseObject, SpellsMembers;
    var a := MembersFirst(t, o, e - 1, ms);
    MembersParse(t, o, e - 1, ms, depth + 1);
    ObjectLoop(t, o, a, depth, ms, depth + 1 + NestMembers(ms) <= CJSON_NESTING_LIMIT, e);
  }

  lemma MembersFirst(t: string, q: nat, e: nat, ms: seq<Member>) returns (a: nat)
    requires ms != [] && q < |t| && SpellsMembers(t, q + 1, e, ms) && Sees(t, e, '}')
    ensures q + 1 < |t| && SkipBlank(t, q + 1) == a && Sees(t, a, QUOTE)
  {
    hide ParseKey, SpellsMembers, SpellsName, Spells;
    var p := MembersPlace(t, q + 1, e, ms);
    NameParses(t, q, p.k, ms[0].key);
    a := SkipBlank(t, q + 1);
  }

  lemma MembersPlace(t: string, o: nat, e: nat, ms: seq<Member>) returns (p: Place)
    requires ms != [] && SpellsMembers(t, o, e, ms) && Sees(t, e, '}')
    ensures p.c < |t| && (t[p.c] == ',' || t[p.c] == '}')
    ensures SpellsName(t, o, p.k, ms[0].key) && Blank(t, p.k, p.a)
    ensures Spells(t, p.a, p.b, ms[0].value) && Blank(t, p.b, p.c)
    ensures |ms| == 1 ==> p.c == e
    ensures |ms| > 1 ==> Sees(t, p.c, ',') && SpellsMembers(t, p.c + 1, e, ms[1..])
  {
    p :| MemberAt(t, o, e, ms, p);
  }

  /** Name, colon, value and the blanks behind it, as the member loop reads them. */
  lemma {:induction false} MemberRead(t: string, q: nat, e: nat, ms: seq<Member>, depth: nat) returns (p: Place)
    requires ms != [] && q < |t| && SpellsMembers(t, q + 1, e, ms) && Sees(t, e, '}') && depth <= CJSON_NESTING_LIMIT
    ensures FirstRead(t, q, p, ms[0], depth)
    ensures |ms| == 1 ==> p.c == e
    ensures |ms| > 1 ==> Sees(t, p.c, ',') && SpellsMembers(t, p.c + 1, e, ms[1..])
    decreases ms, 0, 0
  {
    hide ParseValue, ParseKey, SpellsMembers, SpellsName, Spells;
    p := MembersPlace(t, q + 1, e, ms);
    NameParses(t, q, p.k, ms[0].key);
    SpellsFirst(t, p.a, p.b, ms[0].value);
    SkipTo(t, p.k, p.a);
    ValueEnds(t, p.b, p.c);
    SpellingParses(t, p.a, p.b, ms[0].value, depth);
  }

  lemma NestMembersCons(ms: seq<Member>, depth: nat)
    requires ms != []
    ensures depth + NestMembers(ms) <= CJSON_NESTING_LIMIT
       <==> depth + Nest(ms[0].value) <= CJSON_NESTING_LIMIT && depth + NestMembers(ms[1..]) <= CJSON_NESTING_LIMIT
  {
    assert depth + Nest(ms[0].value) <= CJSON_NESTING_LIMIT ==> depth <= CJSON_NESTING_LIMIT;
  }

  /** The first member and the blanks behind it, as the member loop reads them. */
  predicate FirstRead(t: string, q: nat, p: Place, m: Member, depth: nat) {
    && q < |t| && p.k <= |t| && p.a <= |t| && p.b <= |t| && ParseKey(t, q) == Ok(m.key, p.k)
    && SkipBlank(t, p.k) == p.a && SkipBlank(t, p.b) == p.c
    && Accepts(ParseValue(t, p.a, depth), depth + Nest(m.value) <= CJSON_NESTING_LIMIT, m.value, p.b)
  }

  lemma OneMember(t: string, q: nat, p: Place, ms: seq<Member>, depth: nat)
    requires |ms| == 1 && depth <= CJSON_NESTING_LIMIT && FirstRead(t, q, p, ms[0], depth) && Sees(t, p.c, '}')
    ensures Accepts(ParseMembers(t, q, depth), depth + NestMembers(ms) <= CJSON_NESTING_LIMIT, ms, p.c + 1)
  {
    hide ParseValue, ParseKey, ParseMembers;
    NestMembersCons(ms, depth);
    assert ms[1..] == [] && [Member(ms[0].key, ms[0].value)] == ms;
    MembersLast(t, q, depth, ms[0].key, p.k, p.a, p.b, p.c, ms[0].value,
      depth + Nest(ms[0].value) <= CJSON_NESTING_LIMIT);
  }

  lemma MoreMembers(t: string, q: nat, p: Place, ms: seq<Member>, depth: nat, end: nat)
    requires |ms| > 1 && depth <= CJSON_NESTING_LIMIT && FirstRead(t, q, p, ms[0], depth) && Sees(t, p.c, ',')
    requires Accepts(ParseMembers(t, p.c, depth), depth + NestMembers(ms[1..]) <= CJSON_NESTING_LIMIT, ms[1..], end)
    ensures Accepts(ParseMembers(t, q, depth), depth + NestMembers(ms) <= CJSON_NESTING_LIMIT, ms, end)
  {
    hide ParseValue, ParseKey, ParseMembers;
    NestMembersCons(ms, depth);
    assert [Member(ms[0].key, ms[0].value)] + ms[1..] == ms;
    MembersMore(t, q, depth, ms[0].key, p.k, p.a, p.b, p.c, ms[0].value,
      depth + Nest(ms[0].value) <= CJSON_NESTING_LIMIT,
      ms[1..], depth + NestMembers(ms[1..]) <= CJSON_NESTING_LIMIT, end);
  }

  lemma {:induction false} MembersParse(t: string, q: nat, e: nat, ms: seq<Member>, depth: nat)
    requires ms != [] && q < |t| && SpellsMembers(t, q + 1, e, ms) && Sees(t, e, '}') && depth <= CJSON_NESTING_LIMIT
    ensures Accepts(ParseMembers(t, q, depth), depth + NestMembers(ms) <= CJSON_NESTING_LIMIT, ms, e + 1)
    decreases ms, 1
  {
    hide ParseValue, ParseKey, ParseMembers, SpellsMembers;
    if |ms| == 1 {
      LastTurn(t, q, e, ms, depth);
    } else {
      var c := NextTurn(t, q, e, ms, depth);
      MembersParse(t, c, e, ms[1..], depth);
    }
  }

  /** The last member read. */
  lemma {:induction false} LastTurn(t: string, q: nat, e: nat, ms: seq<Member>, depth: nat)
    requires |ms| == 1 && q < |t| && SpellsMembers(t, q + 1, e, ms) && Sees(t, e, '}') && depth <= CJSON_NESTING_LIMIT
    ensures Accepts(ParseMembers(t, q, depth), depth + NestMembers(ms) <= CJSON_NESTING_LIMIT, ms, e + 1)
    decreases ms, 0, 1
  {
    hide ParseValue, ParseKey, ParseMembers, SpellsMembers;
    var p := MemberRead(t, q, e, ms, depth);
    OneMember(t, q, p, ms, depth);
  }

  /** One member read, and then the rest of the walk. */
  lemma {:induction false} NextTurn(t: string, q: nat, e: nat, ms: seq<Member>, depth: nat) returns (c: nat)
    requires |ms| > 1 && q < |t| && SpellsMembers(t, q + 1, e, ms) && Sees(t, e, '}') && depth <= CJSON_NESTING_LIMIT
    ensures Sees(t, c, ',') && SpellsMembers(t, c + 1, e, ms[1..])
    ensures Accepts(ParseMembers(t, c, depth), depth + NestMembers(ms[1..]) <= CJSON_NESTING_LIMIT, ms[1..], e + 1)
      ==> Accepts(ParseMembers(t, q, depth), depth + NestMembers(ms) <= CJSON_NESTING_LIMIT, ms, e + 1)
    decreases ms, 0, 1
  {
    hide ParseValue, ParseKey, ParseMembers, SpellsMembers;
    var p := MemberRead(t, q, e, ms, depth);
    c := p.c;
    if Accepts(ParseMembers(t, c, depth), depth + NestMembers(ms[1..]) <= CJSON_NESTING_LIMIT, ms[1..], e + 1) {
      MoreMembers(t, q, p, ms, depth, e + 1);
    }
  }
}
