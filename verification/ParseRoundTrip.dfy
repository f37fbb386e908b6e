/** Parsing undoes printing, up to the nesting limit and no deeper. */
module ParseRoundTrip {
  import opened JsonTree
  import opened Numerals
  import opened Render
  import opened ParseText
  import opened StringLiteral
  import opened StringAccepted
  import opened JsonGrammar
  import N = JsonNumber
  import opened NumeralRoundTrip

  // ---- the printer's tokens ----

  predicate AllBlank(s: string) { forall i | 0 <= i < |s| :: IsBlank(s[i]) }

  lemma ReadBlank(t: string, o: nat, pad: string)
    requires Reads(t, o, pad) && AllBlank(pad)
    ensures Blank(t, o, o + |pad|)
  {
    forall i | o <= i < o + |pad| ensures IsBlank(t[i]) {
      ReadsAt(t, o, pad, i - o);
    }
  }

  lemma NumberSpelled(t: string, o: nat, d: real)
    requires Reads(t, o, NumberText(d))
    ensures SpellsNumber(t, o, o + |NumberText(d)|, ReadBack(d))
  {
    hide NumberText, Strtod, ReadBack;
    var s := NumberText(d);
    StrtodText(d);
    var n := N.StrtodSpells(s);
    assert s[..|s|] == s;
    NumberStart(d);
    ReadsAt(t, o, s, 0);
  }

  lemma StringSpelled(t: string, o: nat, s: string)
    requires NulFree(s) && Reads(t, o, Quoted(s))
    ensures AcceptsString(t, o, o + |Quoted(s)|, s)
  {
    hide Escaped, Spellings, DenotedAll, AcceptsString, CString;
    PiecesFacts(s);
    WellFormedAccepted(t, o, PiecesOf(s));
  }

  // ---- the tree that a printed text spells ----

  /** The tree with every number as its text has it. */
  function Reread(j: Json): Json
    decreases j, 0
  {
    match j
    case Number(d) => Number(ReadBack(d))
    case Array(items) => Array(RereadItems(items))
    case Object(ms) => Object(RereadMembers(ms))
    case _ => j
  }

  function RereadItems(items: seq<Json>): (r: seq<Json>)
    ensures |r| == |items| && forall i | 0 <= i < |r| :: r[i] == Reread(items[i])
    decreases items, 1
  {
    if items == [] then [] else [Reread(items[0])] + RereadItems(items[1..])
  }

  function RereadMembers(ms: seq<Member>): (r: seq<Member>)
    ensures |r| == |ms| && forall i | 0 <= i < |r| :: r[i] == Member(ms[i].key, Reread(ms[i].value))
    decreases ms, 1
  {
    if ms == [] then [] else [Member(ms[0].key, Reread(ms[0].value))] + RereadMembers(ms[1..])
  }

  /** The same tree, up to the tolerance of compare_double in its numbers. */
  ghost predicate Alike(a: Json, b: Json)
    decreases b
  {
    match b
    case Number(d) => a.Number? && CompareDouble(a.d, d)
    case Array(items) => a.Array? && |a.items| == |items| && forall i | 0 <= i < |items| :: Alike(a.items[i], items[i])
    case Object(ms) =>
      a.Object? && |a.members| == |ms|
      && forall i | 0 <= i < |ms| :: a.members[i].key == ms[i].key && Alike(a.members[i].value, ms[i].value)
    case _ => a == b
  }

  lemma {:induction false} RereadAlike(j: Json)
    ensures Alike(Reread(j), j)
    decreases j
  {
    match j
    case Number(d) => ReadBackClose(d);
    case Array(items) =>
      forall i | 0 <= i < |items| ensures Alike(Reread(items[i]), items[i]) {
        RereadAlike(items[i]);
      }
    case Object(ms) =>
      forall i | 0 <= i < |ms| ensures Alike(Reread(ms[i].value), ms[i].value) {
        RereadAlike(ms[i].value);
      }
    case _ =>
  }

  lemma IntegerBack(d: real)
    requires IsInt32(d)
    ensures ReadBack(d) == d && |NumberText(d)| <= NUMBER_BUFFER
  {
    hide Rounded, NumberText;
    IntegerText(d);
    IntegerShort(d);
  }

  /** 32-bit integers are printed exactly. */
  lemma {:induction false} RereadPlain(j: Json)
    requires JsonTree.Plain(j)
    ensures Reread(j) == j && HasText(j)
    decreases j
  {
    hide NumberText, IsInt32;
    match j
    case Number(d) => IntegerBack(d);
    case Array(items) =>
      forall i | 0 <= i < |items| ensures Reread(items[i]) == items[i] && HasText(items[i]) {
        RereadPlain(items[i]);
      }
    case Object(ms) =>
      forall i | 0 <= i < |ms| ensures Reread(ms[i].value) == ms[i].value && HasText(ms[i].value) {
        RereadPlain(ms[i].value);
      }
    case _ =>
  }

  /** No invalid node, and every number is one that a double can hold. */
  ghost predicate Doubles(j: Json) {
    match j
    case Invalid => false
    case Number(d) => DoubleSized(d)
    case Array(items) => forall i | 0 <= i < |items| :: Doubles(items[i])
    case Object(ms) => forall i | 0 <= i < |ms| :: Doubles(ms[i].value)
    case _ => true
  }

  /** Such a tree has a text. */
  lemma {:induction false} DoublesHaveText(j: Json)
    requires Doubles(j)
    ensures HasText(j)
    decreases j
  {
    hide NumberText, DoubleSized;
    match j
    case Number(d) => TextFits(d);
    case Array(items) =>
      forall i | 0 <= i < |items| ensures HasText(items[i]) {
        DoublesHaveText(items[i]);
      }
    case Object(ms) =>
      forall i | 0 <= i < |ms| ensures HasText(ms[i].value) {
        DoublesHaveText(ms[i].value);
      }
    case _ =>
  }

  lemma {:induction false} RereadNest(j: Json)
    ensures Nest(Reread(j)) == Nest(j)
    decreases j, 0
  {
    match j
    case Array(items) => RereadNestItems(items);
    case Object(ms) => RereadNestMembers(ms);
    case _ =>
  }

  lemma {:induction false} RereadNestItems(items: seq<Json>)
    ensures NestItems(RereadItems(items)) == NestItems(items)
    decreases items, 1
  {
    if items != [] {
      RereadNest(items[0]);
      RereadNestItems(items[1..]);
      assert RereadItems(items)[1..] == RereadItems(items[1..]);
    }
  }

  lemma {:induction false} RereadNestMembers(ms: seq<Member>)
    ensures NestMembers(RereadMembers(ms)) == NestMembers(ms)
    decreases ms, 1
  {
    if ms != [] {
      RereadNest(ms[0].value);
      RereadNestMembers(ms[1..]);
      assert RereadMembers(ms)[1..] == RereadMembers(ms[1..]);
    }
  }

  // ---- a printed text spells it ----

  /** A tree that the printer has a text for. */
  ghost predicate Ready(j: Json) { Printable(j) && HasText(j) }

  lemma {:induction false} RenderSpells(t: string, o: nat, j: Json, format: bool, indent: nat)
    requires Ready(j) && Reads(t, o, RenderValue(j, format, indent))
    ensures Spells(t, o, o + |RenderValue(j, format, indent)|, Reread(j))
    decreases j, 0
  {
    hide Reads, SpellsNumber, AcceptsString, RenderItems, RenderMembers, NumberText, ReadBack;
    match j
    case Null =>
    case False =>
    case True =>
    case Number(d) => NumberSpelled(t, o, d);
    case String(s) => StringSpelled(t, o, s);
    case Array(items) => ArraySpelled(t, o, items, format, indent);
    case Object(ms) => ObjectSpelled(t, o, ms, format, indent);
  }

  // ---- arrays ----

  ghost predicate ItemsReady(items: seq<Json>) { forall i | 0 <= i < |items| :: Ready(items[i]) }

  lemma {:induction false} ArraySpelled(t: string, o: nat, items: seq<Json>, format: bool, indent: nat)
    requires ItemsReady(items) && Reads(t, o, RenderValue(Array(items), format, indent))
    ensures Spells(t, o, o + |RenderValue(Array(items), format, indent)|, Array(RereadItems(items)))
    decreases items, 3
  {
    hide Reads, SpellsItems, Ready;
    var inner := RenderItems(items, format, indent + 1);
    ReadsSplit(t, o, "[" + inner, "]");
    ReadsSplit(t, o, "[", inner);
    ReadsAt(t, o, "[", 0);
    ReadsAt(t, o + 1 + |inner|, "]", 0);
    EndWithin(t, o + 1 + |inner|, "]");
    EndWithin(t, o, "[");
    if items != [] {
      assert Blank(t, o + 1, o + 1);
      ItemsSpelled(t, o + 1, o + 1, items, format, indent + 1);
    }
  }

  lemma EndWithin(t: string, o: nat, s: string)
    requires Reads(t, o, s)
    ensures o + |s| <= |t|
  {
  }

  /** From the start of an element's value, or from blanks in front of it. */
  lemma {:induction false} ItemsSpelled(t: string, start: nat, o: nat, items: seq<Json>, format: bool, indent: nat)
    requires items != [] && ItemsReady(items) && Blank(t, start, o)
    requires Reads(t, o, RenderItems(items, format, indent))
    ensures RereadItems(items) != []
    ensures SpellsItems(t, start, o + |RenderItems(items, format, indent)|, RereadItems(items))
    decreases items, 2
  {
    hide Reads, Spells, RenderValue, Reread, Ready;
    var back := RereadItems(items);
    assert back[0] == Reread(items[0]) && back[1..] == RereadItems(items[1..]);
    var value, tail := RenderValue(items[0], format, indent), if |items| > 1 then ItemSeparator(format) else "";
    ReadsSplit(t, o, value + tail, RenderItems(items[1..], format, indent));
    ReadsSplit(t, o, value, tail);
    var e := o + |value|;
    RenderSpells(t, o, items[0], format, indent);
    EndWithin(t, o, value);
    var place := Place(0, o, e, e);
    assert Blank(t, e, e);
    hide Blank, ItemSeparator;
    if |items| == 1 {
      assert items[1..] == [];
      assert e == o + |RenderItems(items, format, indent)|;
      assert ItemAt(t, start, e, back, place);
    } else {
      SeparatorPad(t, e, format);
      ItemsSpelled(t, e + 1, e + |tail|, items[1..], format, indent);
      assert ItemAt(t, start, o + |RenderItems(items, format, indent)|, back, place);
    }
  }

  lemma SeparatorPad(t: string, e: nat, format: bool)
    requires Reads(t, e, ItemSeparator(format))
    ensures Sees(t, e, ',') && Blank(t, e + 1, e + |ItemSeparator(format)|)
  {
    assert ItemSeparator(format) == "," + ItemSeparator(format)[1..];
    ReadsSplit(t, e, ",", ItemSeparator(format)[1..]);
    ReadsAt(t, e, ItemSeparator(format), 0);
    ReadBlank(t, e + 1, ItemSeparator(format)[1..]);
  }

  // ---- objects ----

  ghost predicate MembersReady(ms: seq<Member>) {
    forall i | 0 <= i < |ms| :: NulFree(ms[i].key) && Ready(ms[i].value)
  }

  lemma {:induction false} ObjectSpelled(t: string, o: nat, ms: seq<Member>, format: bool, indent: nat)
    requires MembersReady(ms) && Reads(t, o, RenderValue(Object(ms), format, indent))
    ensures Spells(t, o, o + |RenderValue(Object(ms), format, indent)|, Object(RereadMembers(ms)))
    decreases ms, 3
  {
    hide *;
    var start, c, e := ObjectLayout(t, o, ms, format, indent);
    if ms == [] {
      NoneReread();
      EmptyObject(t, o, start, c, e, format, indent + 1);
    } else {
      MembersSpelled(t, o + 1, start, e, ms, format, indent + 1);
      FilledObject(t, o, e, RereadMembers(ms));
    }
  }

  lemma NoneReread()
    ensures RereadMembers([]) == []
  {
  }

  lemma EmptyObject(t: string, o: nat, start: nat, c: nat, e: nat, format: bool, indent: nat)
    requires Sees(t, o, '{') && o < start <= c && Blank(t, o + 1, start)
    requires c == start + |RenderMembers([], format, indent)|
    requires Blank(t, c, e) && Sees(t, e, '}')
    ensures Spells(t, o, e + 1, Object([]))
  {
  }

  lemma FilledObject(t: string, o: nat, e: nat, ms: seq<Member>)
    requires ms != [] && o < e && Sees(t, o, '{') && Sees(t, e, '}') && SpellsMembers(t, o + 1, e, ms)
    ensures Spells(t, o, e + 1, Object(ms))
  {
    hide SpellsMembers;
  }

  /** Brace, line end, members, indentation, brace; e is where the closing brace lies. */
  lemma ObjectLayout(t: string, o: nat, ms: seq<Member>, format: bool, indent: nat) returns (start: nat, c: nat, e: nat)
    requires Reads(t, o, RenderValue(Object(ms), format, indent))
    ensures Sees(t, o, '{') && o < start <= c <= e && Blank(t, o + 1, start)
    ensures c == start + |RenderMembers(ms, format, indent + 1)|
    ensures Reads(t, start, RenderMembers(ms, format, indent + 1)) && Blank(t, c, e)
    ensures Sees(t, e, '}') && e + 1 == o + |RenderValue(Object(ms), format, indent)|
  {
    hide Reads, RenderMembers;
    var inner := RenderMembers(ms, format, indent + 1);
    var line, close := LineEnd(format), Indent(format, indent);
    ReadsSplit(t, o, ("{" + line) + inner, close + "}");
    ReadsSplit(t, o, "{" + line, inner);
    ReadsSplit(t, o, "{", line);
    EndWithin(t, o, "{");
    ReadsAt(t, o, "{", 0);
    ReadBlank(t, o + 1, line);
    start, c, e := o + 1 + |line|, o + 1 + |line| + |inner|, o + 1 + |line| + |inner| + |close|;
    ReadsSplit(t, c, close, "}");
    ReadBlank(t, c, close);
    EndWithin(t, e, "}");
    ReadsAt(t, e, "}", 0);
  }

  /** Where the parts of the first printed member lie. */
  datatype Layout = Layout(key: nat, colon: nat, value: nat, tail: nat, next: nat)

  lemma KeyLayout(t: string, o: nat, m: Member, format: bool, indent: nat) returns (key: nat, colon: nat)
    requires Reads(t, o, RenderKey(m.key, format, indent))
    ensures Reads(t, o, Indent(format, indent)) && key == o + |Indent(format, indent)|
    ensures Reads(t, key, Quoted(m.key)) && colon == key + |Quoted(m.key)| && Reads(t, colon, KeySeparator(format))
    ensures colon + |KeySeparator(format)| == o + |RenderKey(m.key, format, indent)|
  {
    hide Reads;
    var pad, name := Indent(format, indent), Quoted(m.key);
    ReadsSplit(t, o, pad + name, KeySeparator(format));
    ReadsSplit(t, o, pad, name);
    key, colon := o + |pad|, o + |pad| + |name|;
  }

  lemma MemberLayout(t: string, o: nat, m: Member, more: bool, format: bool, indent: nat) returns (at: Layout)
    requires Reads(t, o, RenderMember(m, more, format, indent))
    ensures Reads(t, o, Indent(format, indent)) && at.key == o + |Indent(format, indent)|
    ensures Reads(t, at.key, Quoted(m.key)) && at.colon == at.key + |Quoted(m.key)|
    ensures Reads(t, at.colon, KeySeparator(format)) && at.value == at.colon + |KeySeparator(format)|
    ensures Reads(t, at.value, RenderValue(m.value, format, indent))
    ensures at.tail == at.value + |RenderValue(m.value, format, indent)|
    ensures Reads(t, at.tail, MemberEnd(more, format)) && at.next == at.tail + |MemberEnd(more, format)|
    ensures at.next == o + |RenderMember(m, more, format, indent)|
  {
    hide Reads, RenderKey, RenderValue;
    var key, value, tail := RenderKey(m.key, format, indent), RenderValue(m.value, format, indent),
        MemberEnd(more, format);
    ReadsSplit(t, o, key + value, tail);
    ReadsSplit(t, o, key, value);
    var k, c := KeyLayout(t, o, m, format, indent);
    var v := o + |key|;
    at := Layout(k, c, v, v + |value|, v + |value| + |tail|);
  }

  /** Indentation, key and colon; start is where the blanks in front of them begin. */
  lemma NameSpelled(t: string, start: nat, o: nat, at: Layout, m: Member, format: bool, indent: nat)
    requires NulFree(m.key) && Blank(t, start, o)
    requires Reads(t, o, Indent(format, indent)) && at.key == o + |Indent(format, indent)|
    requires Reads(t, at.key, Quoted(m.key)) && at.colon == at.key + |Quoted(m.key)|
    requires Reads(t, at.colon, KeySeparator(format)) && at.value == at.colon + |KeySeparator(format)|
    ensures SpellsName(t, start, at.colon + 1, m.key) && Blank(t, at.colon + 1, at.value)
  {
    hide Reads, AcceptsString;
    ReadBlank(t, o, Indent(format, indent));
    StringSpelled(t, at.key, m.key);
    assert KeySeparator(format) == ":" + KeySeparator(format)[1..];
    ReadsSplit(t, at.colon, ":", KeySeparator(format)[1..]);
    EndWithin(t, at.colon, ":");
    ReadsAt(t, at.colon, ":", 0);
    ReadBlank(t, at.colon + 1, KeySeparator(format)[1..]);
    assert NameAt(t, start, at.colon + 1, m.key, at.key, at.colon);
  }

  /** A comma when members follow, and the end of the line. */
  lemma TailSpelled(t: string, tail: nat, more: bool, format: bool)
    requires Reads(t, tail, MemberEnd(more, format))
    ensures more ==> Sees(t, tail, ',') && Blank(t, tail + 1, tail + |MemberEnd(more, format)|)
    ensures !more ==> Blank(t, tail, tail + |MemberEnd(more, format)|)
  {
    hide Reads;
    var comma := if more then "," else "";
    ReadsSplit(t, tail, comma, LineEnd(format));
    ReadBlank(t, tail + |comma|, LineEnd(format));
    if more {
      EndWithin(t, tail, comma);
      ReadsAt(t, tail, comma, 0);
    }
  }

  lemma MembersText(ms: seq<Member>, format: bool, indent: nat)
    requires ms != []
    ensures RenderMembers(ms, format, indent)
      == RenderMember(ms[0], |ms| > 1, format, indent) + RenderMembers(ms[1..], format, indent)
    ensures |ms| == 1 ==> RenderMembers(ms[1..], format, indent) == []
  {
    hide RenderMember;
  }

  lemma {:induction false} MembersSpelled(t: string, start: nat, o: nat, e: nat, ms: seq<Member>, format: bool,
        indent: nat)
    requires ms != [] && MembersReady(ms) && Blank(t, start, o)
    requires Reads(t, o, RenderMembers(ms, format, indent)) && Blank(t, o + |RenderMembers(ms, format, indent)|, e)
    ensures RereadMembers(ms) != [] && SpellsMembers(t, start, e, RereadMembers(ms))
    decreases ms, 2
  {
    hide Reads, Spells, SpellsName, RenderMember, RenderMembers, RenderValue, MemberEnd, Indent,
      KeySeparator, Ready, Reread;
    var m, more, back := ms[0], |ms| > 1, RereadMembers(ms);
    assert back[0] == Member(m.key, Reread(m.value)) && back[1..] == RereadMembers(ms[1..]);
    MembersText(ms, format, indent);
    ReadsSplit(t, o, RenderMember(m, more, format, indent), RenderMembers(ms[1..], format, indent));
    var at := MemberLayout(t, o, m, more, format, indent);
    NameSpelled(t, start, o, at, m, format, indent);
    RenderSpells(t, at.value, m.value, format, indent);
    EndWithin(t, at.value, RenderValue(m.value, format, indent));
    TailSpelled(t, at.tail, more, format);
    if !more {
      assert ms[1..] == [];
      assert MemberAt(t, start, e, back, Place(at.colon + 1, at.value, at.tail, e));
    } else {
      MembersSpelled(t, at.tail + 1, at.next, e, ms[1..], format, indent);
      assert MemberAt(t, start, e, back, Place(at.colon + 1, at.value, at.tail, at.tail));
    }
  }

  // ---- parse undoes print ----

  /**
   * The printed text of a tree, anywhere in a buffer and not continued by a number, parses to
   * that tree with its numbers read back and ends right behind the text, when the tree is nested
   * within the limit; one level deeper it is rejected.
   */
  lemma ParsePrinted(before: string, j: Json, after: string, format: bool, depth: nat)
    requires Ready(j) && depth <= CJSON_NESTING_LIMIT
    requires after != [] ==> !IsNumberChar(after[0])
    ensures var text := RenderValue(j, format, 0);
      var r := ParseValue(before + text + after, |before|, depth);
      if depth + Nest(j) <= CJSON_NESTING_LIMIT then r == Ok(Reread(j), |before + text|) else r.Fail?
  {
    hide Spells, RenderValue, ParseValue, Reread;
    var text := RenderValue(j, format, 0);
    var t := before + text + after;
    assert t[|before|..|before| + |text|] == text;
    RenderSpells(t, |before|, j, format, 0);
    RereadNest(j);
    SpellingParses(t, |before|, |before| + |text|, Reread(j), depth);
  }

  // ---- whole documents ----

  lemma {:induction false} BlankToEnd(t: string, o: nat)
    requires Blank(t, o, |t|)
    ensures BlankEnd(t, o) == |t|
    decreases |t| - o
  {
    if o < |t| {
      BlankToEnd(t, o + 1);
    }
  }

  lemma NoBom(t: string)
    requires t != [] && t[0] != 0xEF as char
    ensures BomEnd(t) == 0
  {
    if 4 < |t| {
      assert t[0..3][0] == t[0] && BOM[0] == 0xEF as char;
    }
  }

  /** A value with blanks around it, in a buffer that ends with a terminator. */
  lemma DocumentParses(t: string, a: nat, b: nat, j: Json)
    requires Blank(t, 0, a) && Spells(t, a, b, j) && b < |t| && Blank(t, b, |t|) && t[|t| - 1] == NUL
    requires Nest(j) <= 1000
    ensures ParseWithLength(t, false) == Ok(j, b) && ParseWithLength(t, true) == Ok(j, |t| - 1)
  {
    hide Spells, ParseValue;
    SpellsFirst(t, a, b, j);
    assert t[0] != 0xEF as char;
    NoBom(t);
    SkipTo(t, 0, a);
    SpellingParses(t, a, b, j, 0);
    BlankToEnd(t, b);
  }

  /** The same behind a byte order mark. */
  lemma MarkedDocumentParses(t: string, a: nat, b: nat, j: Json)
    requires Reads(t, 0, [0xEF as char, 0xBB as char, 0xBF as char]) && Blank(t, 3, a) && Spells(t, a, b, j)
    requires b < |t| && Blank(t, b, |t|) && t[|t| - 1] == NUL
    requires Nest(j) <= 1000
    ensures ParseWithLength(t, false) == Ok(j, b) && ParseWithLength(t, true) == Ok(j, |t| - 1)
  {
    hide Spells, ParseValue;
    SpellsFirst(t, a, b, j);
    SkipTo(t, 3, a);
    SpellingParses(t, a, b, j, 0);
    BlankToEnd(t, b);
  }

  /**
   * cJSON_ParseWithOpts undoes cJSON_Print and cJSON_PrintUnformatted: what comes back is the tree
   * with every number as its text has it, equal in the eyes of compare_double, and exactly the tree
   * when the numbers are 32-bit integers.
   */
  lemma ParseUndoesPrint(j: Json, format: bool, requireNullTerminated: bool)
    requires Ready(j) && Nest(j) <= 1000
    ensures Parse(RenderValue(j, format, 0), requireNullTerminated) == Ok(Reread(j), |RenderValue(j, format, 0)|)
    ensures Alike(Reread(j), j) && (JsonTree.Plain(j) ==> Reread(j) == j)
  {
    hide Spells, RenderValue, ParseWithLength, Reread;
    var text := RenderValue(j, format, 0);
    var t := text + [NUL];
    assert t[0..|text|] == text;
    RenderSpells(t, 0, j, format, 0);
    RereadNest(j);
    DocumentParses(t, 0, |text|, Reread(j));
    RereadAlike(j);
    if JsonTree.Plain(j) {
      RereadPlain(j);
    }
  }

  /**
   * Anything but blanks behind a printed tree: it is ignored when no terminator is required, and otherwise
   * refused with the error position at its first character.
   */
  lemma TrailingRefused(j: Json, format: bool, c: char, rest: string)
    requires Ready(j) && Nest(j) <= 1000 && c as int > 32 && !IsNumberChar(c)
    ensures var text := RenderValue(j, format, 0);
      && Parse(text + [c] + rest, true) == Fail(|text|)
      && Parse(text + [c] + rest, false) == Ok(Reread(j), |text|)
  {
    hide Spells, RenderValue, ParseValue, Reread, Ready, Nest;
    var text := RenderValue(j, format, 0);
    var t := (text + [c] + rest) + [NUL];
    assert t == "" + text + ([c] + rest + [NUL]);
    ParsePrinted("", j, [c] + rest + [NUL], format, 0);
    assert t[0..|text|] == text;
    RenderSpells(t, 0, j, format, 0);
    SpellsFirst(t, 0, |text|, Reread(j));
    assert t[0] != 0xEF as char;
    NoBom(t);
    SkipTo(t, 0, 0);
    assert t[|text|] == c;
    SkipTo(t, |text|, |text|);
  }

  /** A tree nested too deeply is printed, but its text is not accepted. */
  lemma DeepPrintRejected(j: Json, format: bool, requireNullTerminated: bool)
    requires Ready(j) && Nest(j) > 1000
    ensures Parse(RenderValue(j, format, 0), requireNullTerminated).Fail?
  {
    hide Spells, RenderValue, ParseValue, Reread;
    var text := RenderValue(j, format, 0);
    var t := text + [NUL];
    assert t[0..|text|] == text;
    RenderSpells(t, 0, j, format, 0);
    RereadNest(j);
    SpellsFirst(t, 0, |text|, Reread(j));
    NoBom(t);
    SkipTo(t, 0, 0);
    SpellingParses(t, 0, |text|, Reread(j), 0);
  }
}
