/** The parser accepts nothing but the grammar: whatever it reads as a tree spells that tree. */
module JsonAccepted {
  import opened Text
  import opened JsonTree
  import opened Render
  import opened ParseText
  import opened StringAccepted
  import opened JsonGrammar
  import N = JsonNumber
  import ParseRoundTrip

  // ---- blanks and leaves ----

  lemma SkippedBlank(t: string, o: nat)
    requires o <= |t|
    ensures Blank(t, o, SkipBlank(t, o))
  {
  }

  lemma BlankJoined(t: string, a: nat, b: nat, c: nat)
    requires Blank(t, a, b) && Blank(t, b, c)
    ensures Blank(t, a, c)
  {
  }

  lemma NumberAccepted(t: string, o: nat)
    requires o < |t| && (t[o] == '-' || IsDigit(t[o])) && ParseNumber(t, o).Ok?
    ensures ParseNumber(t, o).value.Number? && SpellsNumber(t, o, ParseNumber(t, o).end, ParseNumber(t, o).value.d)
  {
    hide Strtod, N.Spelled, N.Value, N.WellFormed;
    var s := t[o..NumberEnd(t, o)];
    var n := N.StrtodSpells(s);
    Shorter(t, o, NumberEnd(t, o), Strtod(s).value.1);
  }

  lemma Shorter(t: string, o: nat, e: nat, k: nat)
    requires o + k <= e <= |t|
    ensures t[o..e][..k] == t[o..o + k]
  {
  }

  /** Which parser runs, by the first character; nothing else starts a value. */
  lemma FirstDecides(t: string, o: nat, depth: nat)
    requires o <= |t| && ParseValue(t, o, depth).Ok?
    ensures o < |t|
    ensures var r := ParseValue(t, o, depth);
      || (t[o] == 'n' && r == Ok(Null, o + 4) && Reads(t, o, "null"))
      || (t[o] == 'f' && r == Ok(False, o + 5) && Reads(t, o, "false"))
      || (t[o] == 't' && r == Ok(True, o + 4) && Reads(t, o, "true"))
      || (t[o] == QUOTE && ParseString(t, o).Ok? && r == Ok(String(ParseString(t, o).value), ParseString(t, o).end))
      || ((t[o] == '-' || IsDigit(t[o])) && r == ParseNumber(t, o))
      || (t[o] == '[' && r == ParseArray(t, o, depth))
      || (t[o] == '{' && r == ParseObject(t, o, depth))
  {
    hide ParseString, ParseNumber, ParseArray, ParseObject;
    if o < |t| {
      WordFirst(t, o, "null", t[o]);
      WordFirst(t, o, "false", t[o]);
      WordFirst(t, o, "true", t[o]);
    }
  }

  lemma WordFirst(t: string, o: nat, word: string, c: char)
    requires Sees(t, o, c) && word != ""
    ensures Reads(t, o, word) ==> word[0] == c
  {
    if word[0] != c {
      NotWord(t, o, word, c);
    }
  }

  // ---- values ----

  /** Whatever the parser reads as a tree spells that tree, nested within the limit. */
  lemma {:induction false} AcceptedSpells(t: string, o: nat, depth: nat)
    requires o <= |t| && depth <= 1000 && ParseValue(t, o, depth).Ok?
    ensures var r := ParseValue(t, o, depth); Spells(t, o, r.end, r.value) && depth + Nest(r.value) <= 1000
    decreases |t| - o, 3
  {
    hide ParseValue, ParseString, ParseNumber, ParseArray, ParseObject, AcceptsString, SpellsNumber, SpellsItems,
      SpellsMembers, NestItems, NestMembers;
    FirstDecides(t, o, depth);
    var r := ParseValue(t, o, depth);
    if t[o] == QUOTE {
      StringExact(t, o, r.end, r.value.s);
    } else if t[o] == '-' || IsDigit(t[o]) {
      NumberAccepted(t, o);
    } else if t[o] == '[' {
      ArrayAccepted(t, o, depth);
    } else if t[o] == '{' {
      ObjectAccepted(t, o, depth);
    }
  }

  // ---- arrays ----

  lemma {:induction false} ArrayAccepted(t: string, o: nat, depth: nat)
    requires o < |t| && t[o] == '[' && depth <= 1000 && ParseArray(t, o, depth).Ok?
    ensures var r := ParseArray(t, o, depth); Spells(t, o, r.end, r.value) && depth + Nest(r.value) <= 1000
    decreases |t| - o, 2
  {
    hide ParseElements, SpellsItems, SkipBlank;
    var p := SkipBlank(t, o + 1);
    SkippedBlank(t, o + 1);
    if !Sees(t, p, ']') {
      ElementsAccepted(t, p - 1, depth + 1);
      var r := ParseElements(t, p - 1, depth + 1);
      ItemsEarlier(t, o + 1, p, r.end - 1, r.value);
    }
  }

  /** Blanks in front of the first element belong to the list. */
  lemma ItemsEarlier(t: string, o: nat, o': nat, e: nat, items: seq<Json>)
    requires items != [] && Blank(t, o, o') && SpellsItems(t, o', e, items)
    ensures SpellsItems(t, o, e, items)
  {
    var p: Place :| ItemAt(t, o', e, items, p);
    hide Spells, SpellsItems;
    BlankJoined(t, o, o', p.a);
    assert ItemAt(t, o, e, items, p);
    ItemsPlaced(t, o, e, items, p);
  }

  lemma ItemsPlaced(t: string, o: nat, e: nat, items: seq<Json>, p: Place)
    requires items != [] && ItemAt(t, o, e, items, p)
    ensures SpellsItems(t, o, e, items)
  {
    hide ItemAt;
  }

  /** One turn of the element loop on an accepted text. */
  lemma ElementsTurn(t: string, q: nat, depth: nat) returns (p: Place)
    requires q < |t| && ParseElements(t, q, depth).Ok?
    ensures p.a == SkipBlank(t, q + 1) && ParseValue(t, p.a, depth).Ok? && p.b == ParseValue(t, p.a, depth).end
    ensures p.c == SkipBlank(t, p.b) && q < p.a < p.b <= p.c
    ensures var r, v := ParseElements(t, q, depth), ParseValue(t, p.a, depth).value;
      || (Sees(t, p.c, ',') && ParseElements(t, p.c, depth).Ok?
          && r == Ok([v] + ParseElements(t, p.c, depth).value, ParseElements(t, p.c, depth).end))
      || (Sees(t, p.c, ']') && r == Ok([v], p.c + 1))
  {
    hide ParseValue;
    var a := SkipBlank(t, q + 1);
    var b := ParseValue(t, a, depth).end;
    p := Place(0, a, b, SkipBlank(t, b));
  }

  lemma {:induction false} ElementsAccepted(t: string, q: nat, depth: nat)
    requires q < |t| && depth <= 1000 && ParseElements(t, q, depth).Ok?
    ensures var r := ParseElements(t, q, depth);
      && r.value != [] && q + 1 < r.end && Sees(t, r.end - 1, ']') && SpellsItems(t, q + 1, r.end - 1, r.value)
      && depth + NestItems(r.value) <= 1000
    decreases |t| - q, 1
  {
    hide ParseValue, ParseElements, SkipBlank, Spells, SpellsItems;
    var p := ElementsTurn(t, q, depth);
    SkippedBlank(t, q + 1);
    SkippedBlank(t, p.b);
    AcceptedSpells(t, p.a, depth);
    var r := ParseElements(t, q, depth);
    if Sees(t, p.c, ',') {
      ElementsAccepted(t, p.c, depth);
      assert r.value[1..] == ParseElements(t, p.c, depth).value;
    } else {
      assert r.value[1..] == [];
    }
    NestItemsCons(r.value, depth);
    ItemsPlaced(t, q + 1, r.end - 1, r.value, p);
  }

  // ---- objects ----

  lemma {:induction false} ObjectAccepted(t: string, o: nat, depth: nat)
    requires o < |t| && t[o] == '{' && depth <= 1000 && ParseObject(t, o, depth).Ok?
    ensures var r := ParseObject(t, o, depth); Spells(t, o, r.end, r.value) && depth + Nest(r.value) <= 1000
    decreases |t| - o, 2
  {
    hide ParseMembers, SpellsMembers, SkipBlank;
    var p := SkipBlank(t, o + 1);
    SkippedBlank(t, o + 1);
    if !Sees(t, p, '}') {
      MembersAccepted(t, p - 1, depth + 1);
      var r := ParseMembers(t, p - 1, depth + 1);
      MembersEarlier(t, o + 1, p, r.end - 1, r.value);
    }
  }

  lemma MembersEarlier(t: string, o: nat, o': nat, e: nat, ms: seq<Member>)
    requires ms != [] && Blank(t, o, o') && SpellsMembers(t, o', e, ms)
    ensures SpellsMembers(t, o, e, ms)
  {
    hide *;
    var p := FirstPlace(t, o', e, ms);
    NameEarlier(t, o, o', p.k, ms[0].key);
    PlaceEarlier(t, o, o', e, ms, p);
    MembersPlaced(t, o, e, ms, p);
  }

  lemma FirstPlace(t: string, o: nat, e: nat, ms: seq<Member>) returns (p: Place)
    requires ms != [] && SpellsMembers(t, o, e, ms)
    ensures MemberAt(t, o, e, ms, p) && SpellsName(t, o, p.k, ms[0].key)
  {
    hide Spells, SpellsName;
    p :| MemberAt(t, o, e, ms, p);
  }

  lemma PlaceEarlier(t: string, o: nat, o': nat, e: nat, ms: seq<Member>, p: Place)
    requires ms != [] && MemberAt(t, o', e, ms, p) && SpellsName(t, o, p.k, ms[0].key)
    ensures MemberAt(t, o, e, ms, p)
  {
    hide Spells, SpellsMembers, SpellsName, Blank;
  }

  lemma NameEarlier(t: string, o: nat, o': nat, k: nat, key: string)
    requires Blank(t, o, o') && SpellsName(t, o', k, key)
    ensures SpellsName(t, o, k, key)
  {
    hide AcceptsString;
    var a: nat, b: nat :| NameAt(t, o', k, key, a, b);
    BlankJoined(t, o, o', a);
    assert NameAt(t, o, k, key, a, b);
  }

  lemma MembersPlaced(t: string, o: nat, e: nat, ms: seq<Member>, p: Place)
    requires ms != [] && MemberAt(t, o, e, ms, p)
    ensures SpellsMembers(t, o, e, ms)
  {
    hide MemberAt;
  }

  lemma KeyAccepted(t: string, q: nat)
    requires q < |t| && ParseKey(t, q).Ok?
    ensures q + 1 < ParseKey(t, q).end && SpellsName(t, q + 1, ParseKey(t, q).end, ParseKey(t, q).value)
  {
    hide ParseString, AcceptsString, SkipBlank;
    var a := SkipBlank(t, q + 1);
    var key := ParseString(t, a);
    SkippedBlank(t, q + 1);
    SkippedBlank(t, key.end);
    StringExact(t, a, key.end, key.value);
    assert NameAt(t, q + 1, ParseKey(t, q).end, key.value, a, key.end);
  }

  /** One turn of the member loop on an accepted text. */
  lemma MembersTurn(t: string, q: nat, depth: nat) returns (p: Place)
    requires q < |t| && ParseMembers(t, q, depth).Ok?
    ensures ParseKey(t, q).Ok? && p.k == ParseKey(t, q).end && p.a == SkipBlank(t, p.k)
    ensures ParseValue(t, p.a, depth).Ok? && p.b == ParseValue(t, p.a, depth).end
    ensures p.c == SkipBlank(t, p.b) && q < p.a < p.b <= p.c
    ensures var r, m := ParseMembers(t, q, depth), Member(ParseKey(t, q).value, ParseValue(t, p.a, depth).value);
      || (Sees(t, p.c, ',') && ParseMembers(t, p.c, depth).Ok?
          && r == Ok([m] + ParseMembers(t, p.c, depth).value, ParseMembers(t, p.c, depth).end))
      || (Sees(t, p.c, '}') && r == Ok([m], p.c + 1))
  {
    hide ParseValue, ParseKey;
    var k := ParseKey(t, q).end;
    var a := SkipBlank(t, k);
    var b := ParseValue(t, a, depth).end;
    p := Place(k, a, b, SkipBlank(t, b));
  }

  lemma {:induction false} MembersAccepted(t: string, q: nat, depth: nat)
    requires q < |t| && depth <= 1000 && ParseMembers(t, q, depth).Ok?
    ensures var r := ParseMembers(t, q, depth);
      && r.value != [] && q + 1 < r.end && Sees(t, r.end - 1, '}') && SpellsMembers(t, q + 1, r.end - 1, r.value)
      && depth + NestMembers(r.value) <= 1000
    decreases |t| - q, 1
  {
    hide ParseValue, ParseMembers, ParseKey, SkipBlank, Spells, SpellsMembers, SpellsName;
    var p := MembersTurn(t, q, depth);
    KeyAccepted(t, q);
    SkippedBlank(t, p.k);
    SkippedBlank(t, p.b);
    AcceptedSpells(t, p.a, depth);
    var r := ParseMembers(t, q, depth);
    if Sees(t, p.c, ',') {
      MembersAccepted(t, p.c, depth);
      assert r.value[1..] == ParseMembers(t, p.c, depth).value;
    } else {
      assert r.value[1..] == [];
    }
    NestMembersCons(r.value, depth);
    MembersPlaced(t, q + 1, r.end - 1, r.value, p);
  }

  // ---- both directions ----

  /**
   * From an offset to an end that no number character follows: the parser reads a tree exactly when the
   * text spells it and it is nested no deeper than a thousand levels.
   */
  lemma ParsesExactly(t: string, o: nat, e: nat, j: Json)
    requires o <= |t| && Delimited(t, e)
    ensures ParseValue(t, o, 0) == Ok(j, e) <==> Spells(t, o, e, j) && Nest(j) <= 1000
  {
    hide ParseValue, Spells, Nest;
    if ParseValue(t, o, 0) == Ok(j, e) {
      AcceptedSpells(t, o, 0);
    }
    if Spells(t, o, e, j) {
      SpellingParses(t, o, e, j, 0);
    }
  }

  /** A literal without a closing quote: the error lies behind its opening quote, or on it when nothing follows. */
  lemma UnclosedFails(t: string, a: nat, requireNullTerminated: bool)
    requires Blank(t, 0, a) && Sees(t, a, QUOTE) && ClosingQuote(t, a + 1) == None
    ensures ParseWithLength(t, requireNullTerminated) == Fail(if a + 1 < |t| then a + 1 else a)
  {
    hide ParseString;
    SkipTo(t, 0, a);
    assert t[0] as int <= 34;
    ParseRoundTrip.NoBom(t);
    UnclosedString(t, a);
  }

  lemma UnclosedString(t: string, a: nat)
    requires Sees(t, a, QUOTE) && ClosingQuote(t, a + 1) == None
    ensures ParseValue(t, a, 0) == Fail(a + 1)
  {
    WordFirst(t, a, "null", QUOTE);
    WordFirst(t, a, "false", QUOTE);
    WordFirst(t, a, "true", QUOTE);
  }

  /**
   * A whole accepted document: behind a byte order mark, if there are two more bytes, and blanks, a
   * spelling of the tree; and, when a terminator is required, blanks up to it.
   */
  lemma DocumentAccepted(t: string, requireNullTerminated: bool) returns (a: nat, b: nat)
    requires ParseWithLength(t, requireNullTerminated).Ok?
    ensures var j, e := ParseWithLength(t, requireNullTerminated).value, ParseWithLength(t, requireNullTerminated).end;
      && Blank(t, if |t| > 4 && t[..3] == [0xEF as char, 0xBB as char, 0xBF as char] then 3 else 0, a)
      && Spells(t, a, b, j) && Nest(j) <= 1000
      && (if requireNullTerminated then Blank(t, b, e) && Sees(t, e, NUL) else e == b)
  {
    hide ParseValue, Spells, Nest, SkipBlank;
    var bom := BomEnd(t);
    assert bom == if |t| > 4 && t[..3] == [0xEF as char, 0xBB as char, 0xBF as char] then 3 else 0;
    a := SkipBlank(t, bom);
    SkippedBlank(t, bom);
    AcceptedSpells(t, a, 0);
    b := ParseValue(t, a, 0).end;
    SkippedBlank(t, b);
  }
}
