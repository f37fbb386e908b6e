/** What printed text looks like: its separators, and what stands outside its string literals. */
module PrintLayout {
  import opened JsonTree
  import opened Numerals
  import opened Render

  // ---- the layout, part by part ----

  function Joined(parts: seq<string>, separator: string): string
    decreases |parts|
  {
    if parts == [] then "" else if |parts| == 1 then parts[0] else parts[0] + separator + Joined(parts[1..], separator)
  }

  function Pick<T>(format: bool, formatted: T, short: T): T { if format then formatted else short }

  ghost function Texts(items: seq<Json>, format: bool, depth: nat): seq<string> {
    seq(|items|, i requires 0 <= i < |items| => RenderValue(items[i], format, depth))
  }

  /** One member: behind one tab for every level, the quoted key, a colon, and a tab in front of the value. */
  ghost function Line(m: Member, format: bool, depth: nat): string {
    seq(Pick(format, depth, 0), _ => '\t') + "\"" + Escaped(m.key) + "\"" + Pick(format, ":\t", ":")
    + RenderValue(m.value, format, depth)
  }

  ghost function Lines(ms: seq<Member>, format: bool, depth: nat): seq<string> {
    seq(|ms|, i requires 0 <= i < |ms| => Line(ms[i], format, depth))
  }

  lemma {:induction false} ItemsLayout(items: seq<Json>, format: bool, depth: nat)
    ensures RenderItems(items, format, depth) == Joined(Texts(items, format, depth), Pick(format, ", ", ","))
    decreases |items|
  {
    hide RenderValue;
    if items != [] {
      ItemsLayout(items[1..], format, depth);
      assert Texts(items, format, depth)[1..] == Texts(items[1..], format, depth);
    }
  }

  /** An array stands on one line; its elements are apart by a comma, and a space when formatted. */
  lemma ArrayLayout(items: seq<Json>, format: bool, depth: nat)
    ensures RenderValue(Array(items), format, depth)
      == "[" + Joined(Texts(items, format, depth + 1), Pick(format, ", ", ",")) + "]"
  {
    hide RenderItems;
    ItemsLayout(items, format, depth + 1);
  }

  lemma LineParts(m: Member, more: bool, format: bool, depth: nat)
    ensures RenderMember(m, more, format, depth)
      == Line(m, format, depth) + ((if more then "," else "") + Pick(format, "\n", ""))
  {
    KeyParts(m.key, format, depth);
    hide RenderValue, RenderKey, Escaped, Indent;
    var k, v := RenderKey(m.key, format, depth), RenderValue(m.value, format, depth);
    assert MemberEnd(more, format) == (if more then "," else "") + Pick(format, "\n", "");
    assert Line(m, format, depth) == k + v;
  }

  lemma KeyParts(key: string, format: bool, depth: nat)
    ensures RenderKey(key, format, depth)
      == seq(Pick(format, depth, 0), _ => '\t') + "\"" + Escaped(key) + "\"" + Pick(format, ":\t", ":")
  {
    hide Escaped;
    assert Indent(format, depth) == seq(Pick(format, depth, 0), _ => '\t');
    assert KeySeparator(format) == Pick(format, ":\t", ":") && [QUOTE] == "\"";
    Parted(Indent(format, depth), "\"", Escaped(key), "\"");
  }

  lemma Parted(a: string, b: string, c: string, d: string)
    ensures a + (b + c + d) == a + b + c + d
  {
  }

  lemma {:induction false} MembersLayout(ms: seq<Member>, format: bool, depth: nat)
    requires ms != []
    ensures RenderMembers(ms, format, depth)
      == Joined(Lines(ms, format, depth), Pick(format, ",\n", ",")) + Pick(format, "\n", "")
    decreases |ms|
  {
    hide RenderMember, Line, Joined;
    var first, end := Line(ms[0], format, depth), Pick(format, "\n", "");
    LineParts(ms[0], |ms| > 1, format, depth);
    JoinedStep(Lines(ms, format, depth), Pick(format, ",\n", ","));
    if |ms| > 1 {
      MembersLayout(ms[1..], format, depth);
      assert Lines(ms, format, depth)[1..] == Lines(ms[1..], format, depth);
      assert "," + end == Pick(format, ",\n", ",");
    } else {
      assert ms[1..] == [] && RenderMembers(ms[1..], format, depth) == "";
      assert "" + end == end && (first + end) + "" == first + end;
    }
  }

  lemma JoinedStep(parts: seq<string>, separator: string)
    requires parts != []
    ensures Joined(parts, separator)
      == if |parts| == 1 then parts[0] else parts[0] + separator + Joined(parts[1..], separator)
  {
  }

  /** An object has its members on lines of their own when formatted, and on no line end at all when not. */
  lemma ObjectLayout(ms: seq<Member>, format: bool, depth: nat)
    ensures RenderValue(Object(ms), format, depth)
      == "{" + Pick(format, "\n", "")
         + (if ms == [] then ""
            else Joined(Lines(ms, format, depth + 1), Pick(format, ",\n", ",")) + Pick(format, "\n", ""))
         + seq(Pick(format, depth, 0), _ => '\t') + "}"
  {
    assert ms == [] ==> RenderMembers(ms, format, depth + 1) == "";
    hide RenderMembers, Joined, Lines;
    if ms != [] {
      MembersLayout(ms, format, depth + 1);
    }
    assert Indent(format, depth) == seq(Pick(format, depth, 0), _ => '\t');
    assert LineEnd(format) == Pick(format, "\n", "");
  }

  // ---- inside and outside of string literals ----

  /** Outside, inside a literal, in it behind a backslash, in it behind an escaped backslash. */
  datatype Place = Outside | Inside | Escaping | Paired

  /**
   * Where a character leads. For JSON a backslash escapes whatever follows it; for cJSON_Minify it
   * escapes a quote only, so a second backslash counts as another first one.
   */
  function Next(p: Place, c: char, json: bool): Place {
    match p
    case Outside => if c == '\"' then Inside else Outside
    case Escaping => if c != '\\' then Inside else if json then Paired else Escaping
    case _ => if c == '\"' then Outside else if c == '\\' then Escaping else Inside
  }

  function Scan(s: string, p: Place, json: bool): Place {
    if s == [] then p else Scan(s[1..], Next(p, s[0], json), json)
  }

  /** None of the characters stands outside string literals. */
  predicate FreeOf(s: string, p: Place, chars: set<char>, json: bool) {
    s == [] || ((p == Outside ==> s[0] !in chars) && FreeOf(s[1..], Next(p, s[0], json), chars, json))
  }

  /** No string literal ends in an escaped backslash. */
  predicate Apart(s: string, p: Place) {
    s == [] || (!(p == Paired && s[0] == '\"') && Apart(s[1..], Next(p, s[0], true)))
  }

  lemma {:induction false} Appended(a: string, b: string, p: Place, chars: set<char>, json: bool)
    ensures Scan(a + b, p, json) == Scan(b, Scan(a, p, json), json)
    ensures FreeOf(a + b, p, chars, json) <==> FreeOf(a, p, chars, json) && FreeOf(b, Scan(a, p, json), chars, json)
    ensures json ==> (Apart(a + b, p) <==> Apart(a, p) && Apart(b, Scan(a, p, json)))
    decreases |a|
  {
    hide Next;
    if a == [] {
      assert a + b == b;
    } else {
      assert (a + b)[1..] == a[1..] + b;
      Appended(a[1..], b, Next(p, a[0], json), chars, json);
    }
  }

  /** A piece of text that starts and ends outside literals, free of some characters there, its literals apart. */
  predicate Closed(s: string, chars: set<char>, apart: bool) {
    Scan(s, Outside, true) == Outside && FreeOf(s, Outside, chars, true) && (apart ==> Apart(s, Outside))
  }

  lemma ClosedBoth(a: string, b: string, chars: set<char>, apart: bool)
    requires Closed(a, chars, apart) && Closed(b, chars, apart)
    ensures Closed(a + b, chars, apart)
  {
    hide Scan, FreeOf, Apart;
    Appended(a, b, Outside, chars, true);
  }

  lemma {:induction false} PlainClosed(s: string, chars: set<char>, apart: bool)
    requires forall i | 0 <= i < |s| :: s[i] != '\"' && s[i] !in chars
    ensures Closed(s, chars, apart)
    decreases |s|
  {
    if s != [] {
      PlainClosed(s[1..], chars, apart);
    }
  }

  ghost predicate InLiteral(p: Place) { p == Inside || p == Paired }

  lemma CharScanned(c: char, p: Place, chars: set<char>)
    requires InLiteral(p)
    ensures var e := EscapeChar(c);
      && Scan(e, p, true) == (if c == '\\' then Paired else Inside)
      && FreeOf(e, p, chars, true) && Apart(e, p)
  {
    var e := EscapeChar(c);
    if |e| == 2 {
      ScanTwo(e, p, chars);
    } else if |e| == 6 {
      HexDigitPlain(c as int / 16);
      HexDigitPlain(c as int % 16);
      assert e == e[..2] + e[2..];
      Appended(e[..2], e[2..], p, chars, true);
      ScanTwo(e[..2], p, chars);
      InsideScanned(e[2..], chars);
    } else {
      assert e[1..] == [];
    }
  }

  lemma ScanTwo(e: string, p: Place, chars: set<char>)
    requires InLiteral(p) && |e| == 2 && e[0] == '\\'
    ensures Scan(e, p, true) == (if e[1] == '\\' then Paired else Inside) && FreeOf(e, p, chars, true) && Apart(e, p)
  {
    assert e[1..][0] == e[1] && e[1..][1..] == [];
    var last := e[1..];
    NothingScanned(if e[1] == '\\' then Paired else Inside, chars);
    assert Scan(last, Escaping, true) == Scan(last[1..], Next(Escaping, last[0], true), true);
  }

  lemma {:induction false} InsideScanned(s: string, chars: set<char>)
    requires forall i | 0 <= i < |s| :: s[i] != '\"' && s[i] != '\\'
    ensures Scan(s, Inside, true) == Inside && FreeOf(s, Inside, chars, true) && Apart(s, Inside)
    decreases |s|
  {
    if s != [] {
      InsideScanned(s[1..], chars);
    }
  }

  lemma HexDigitPlain(n: nat)
    requires n < 16
    ensures HexDigit(n) != '\"' && HexDigit(n) != '\\'
  {
  }

  predicate LastBackslash(s: string) { s != [] && s[|s| - 1] == '\\' }

  lemma {:induction false} EscapedScanned(s: string, chars: set<char>)
    ensures Scan(Escaped(s), Inside, true) == if LastBackslash(s) then Paired else Inside
    ensures FreeOf(Escaped(s), Inside, chars, true) && Apart(Escaped(s), Inside)
    decreases |s|
  {
    hide EscapeChar, Scan, FreeOf, Apart;
    EscapedNothing();
    if s == [] {
      NothingScanned(Inside, chars);
    } else {
      var front, c := s[..|s| - 1], s[|s| - 1];
      EscapedScanned(front, chars);
      assert s == front + [c];
      EscapedAppend(front, [c]);
      assert Escaped([c]) == EscapeChar(c) by {
        EscapedHead([c]);
        assert [c][1..] == [];
      }
      Appended(Escaped(front), EscapeChar(c), Inside, chars, true);
      CharScanned(c, if LastBackslash(front) then Paired else Inside, chars);
    }
  }

  lemma NothingScanned(p: Place, chars: set<char>)
    ensures Scan("", p, true) == p && FreeOf("", p, chars, true) && Apart("", p)
  {
  }

  lemma QuotedClosed(s: string, chars: set<char>, apart: bool)
    requires '\"' !in chars && (apart ==> !LastBackslash(s))
    ensures Closed(Quoted(s), chars, apart)
  {
    hide Escaped, FreeOf, Scan, Apart;
    var e := Escaped(s);
    EscapedScanned(s, chars);
    QuoteScanned(Outside, chars);
    QuoteScanned(Inside, chars);
    QuoteScanned(Paired, chars);
    Appended("\"", e, Outside, chars, true);
    Appended("\"" + e, "\"", Outside, chars, true);
    assert Quoted(s) == "\"" + e + "\"";
  }

  lemma QuoteScanned(p: Place, chars: set<char>)
    requires '\"' !in chars && p != Escaping
    ensures Scan("\"", p, true) == (if p == Outside then Inside else Outside) && FreeOf("\"", p, chars, true)
    ensures p != Paired ==> Apart("\"", p)
  {
    assert "\""[1..] == "";
  }

  /** No string and no key ends in a backslash. */
  ghost predicate NoLastBackslash(j: Json) {
    match j
    case String(s) => !LastBackslash(s)
    case Array(items) => forall i | 0 <= i < |items| :: NoLastBackslash(items[i])
    case Object(ms) => forall i | 0 <= i < |ms| :: !LastBackslash(ms[i].key) && NoLastBackslash(ms[i].value)
    case _ => true
  }

  /** Characters that are no part of a text outside its literals. */
  function Never(format: bool): set<char> {
    if format then {'/', '\r'} else {'/', '\r', '\n', '\t', ' '}
  }

  /** Outside literals, unformatted text has no blank, and neither form has a slash. */
  lemma {:induction false} ValueClosed(j: Json, format: bool, depth: nat, apart: bool)
    requires apart ==> NoLastBackslash(j)
    ensures Closed(RenderValue(j, format, depth), Never(format), apart)
    decreases j, 0
  {
    hide Closed, Tabs, Never, Quoted, NumberText;
    var chars := Never(format);
    match j
    case String(s) =>
      assert '\"' !in chars by {
        NeverQuote(format);
      }
      QuotedClosed(s, chars, apart);
    case Number(d) =>
      NumberClosed(d, format, apart);
    case Array(items) =>
      ItemsClosed(items, format, depth + 1, apart);
      ArrayClosed(RenderItems(items, format, depth + 1), format, apart);
    case Object(ms) =>
      MembersClosed(ms, format, depth + 1, apart);
      ObjectClosed(RenderMembers(ms, format, depth + 1), format, depth, apart);
    case _ => WordClosed(j, format, depth, apart);
  }

  lemma NeverQuote(format: bool)
    ensures '\"' !in Never(format)
  {
  }

  lemma NumberClosed(d: real, format: bool, apart: bool)
    ensures Closed(NumberText(d), Never(format), apart)
  {
    hide NumberText, Closed;
    NumberChars(d);
    NumeralClosed(NumberText(d), format, apart);
  }

  lemma NumeralClosed(s: string, format: bool, apart: bool)
    requires forall c | c in s :: NumeralChar(c)
    ensures Closed(s, Never(format), apart)
  {
    forall i | 0 <= i < |s| ensures s[i] != '\"' && s[i] !in Never(format) {
      assert s[i] in s;
    }
    PlainClosed(s, Never(format), apart);
  }

  lemma WordClosed(j: Json, format: bool, depth: nat, apart: bool)
    requires !j.Number? && !j.String? && !j.Array? && !j.Object?
    ensures Closed(RenderValue(j, format, depth), Never(format), apart)
  {
    PlainClosed(RenderValue(j, format, depth), Never(format), apart);
  }

  lemma ArrayClosed(inner: string, format: bool, apart: bool)
    requires Closed(inner, Never(format), apart)
    ensures Closed("[" + inner + "]", Never(format), apart)
  {
    hide Closed;
    var chars := Never(format);
    PlainClosed("[", chars, apart);
    PlainClosed("]", chars, apart);
    ClosedBoth("[", inner, chars, apart);
    ClosedBoth("[" + inner, "]", chars, apart);
  }

  lemma ObjectClosed(inner: string, format: bool, depth: nat, apart: bool)
    requires Closed(inner, Never(format), apart)
    ensures Closed(("{" + LineEnd(format)) + inner + (Indent(format, depth) + "}"), Never(format), apart)
  {
    hide Closed, Indent;
    var chars := Never(format);
    var open, close := "{" + LineEnd(format), Indent(format, depth) + "}";
    PlainClosed(open, chars, apart);
    IndentPlain(format, depth);
    PlainClosed(close, chars, apart);
    ClosedBoth(open, inner, chars, apart);
    ClosedBoth(open + inner, close, chars, apart);
  }

  lemma IndentPlain(format: bool, depth: nat)
    ensures forall i | 0 <= i < |Indent(format, depth)| :: Indent(format, depth)[i] == '\t'
    ensures !format ==> Indent(format, depth) == ""
  {
  }

  lemma {:induction false} ItemsClosed(items: seq<Json>, format: bool, depth: nat, apart: bool)
    requires apart ==> forall i | 0 <= i < |items| :: NoLastBackslash(items[i])
    ensures Closed(RenderItems(items, format, depth), Never(format), apart)
    decreases items, 0
  {
    hide Closed;
    var chars := Never(format);
    if items == [] {
      PlainClosed("", chars, apart);
    } else {
      var v, sep := RenderValue(items[0], format, depth), if |items| > 1 then ItemSeparator(format) else "";
      ValueClosed(items[0], format, depth, apart);
      ItemsClosed(items[1..], format, depth, apart);
      PlainClosed(sep, chars, apart);
      ClosedBoth(v, sep, chars, apart);
      ClosedBoth(v + sep, RenderItems(items[1..], format, depth), chars, apart);
    }
  }

  lemma {:induction false} MembersClosed(ms: seq<Member>, format: bool, depth: nat, apart: bool)
    requires apart ==> forall i | 0 <= i < |ms| :: !LastBackslash(ms[i].key) && NoLastBackslash(ms[i].value)
    ensures Closed(RenderMembers(ms, format, depth), Never(format), apart)
    decreases ms, 0
  {
    hide Closed, RenderKey;
    var chars := Never(format);
    if ms == [] {
      PlainClosed("", chars, apart);
    } else {
      var k, v := RenderKey(ms[0].key, format, depth), RenderValue(ms[0].value, format, depth);
      var end := MemberEnd(|ms| > 1, format);
      KeyClosed(ms[0].key, format, depth, apart);
      ValueClosed(ms[0].value, format, depth, apart);
      MembersClosed(ms[1..], format, depth, apart);
      PlainClosed(end, chars, apart);
      ClosedBoth(k, v, chars, apart);
      ClosedBoth(k + v, end, chars, apart);
      ClosedBoth((k + v) + end, RenderMembers(ms[1..], format, depth), chars, apart);
    }
  }

  lemma KeyClosed(key: string, format: bool, depth: nat, apart: bool)
    requires apart ==> !LastBackslash(key)
    ensures Closed(RenderKey(key, format, depth), Never(format), apart)
  {
    hide Closed, Quoted, Indent;
    var chars := Never(format);
    IndentPlain(format, depth);
    PlainClosed(Indent(format, depth), chars, apart);
    QuotedClosed(key, chars, apart);
    PlainClosed(KeySeparator(format), chars, apart);
    ClosedBoth(Indent(format, depth), Quoted(key), chars, apart);
    ClosedBoth(Indent(format, depth) + Quoted(key), KeySeparator(format), chars, apart);
  }

  /** Unformatted text has no blank outside its string literals. */
  lemma UnformattedBlankFree(j: Json, depth: nat)
    ensures FreeOf(RenderValue(j, false, depth), Outside, {' ', '\t', '\r', '\n'}, true)
  {
    ValueClosed(j, false, depth, false);
    hide RenderValue;
    FewerChars(RenderValue(j, false, depth), Outside, Never(false), {' ', '\t', '\r', '\n'});
  }

  lemma {:induction false} FewerChars(s: string, p: Place, chars: set<char>, fewer: set<char>)
    requires FreeOf(s, p, chars, true) && fewer <= chars
    ensures FreeOf(s, p, fewer, true)
    decreases |s|
  {
    if s != [] {
      FewerChars(s[1..], Next(p, s[0], true), chars, fewer);
    }
  }
}
