/** The text of a tree: what the printer of cJSON.c is to produce, formatted or not. */
module Render {
  import opened JsonTree
  import opened Numerals

  const NUL: char := 0 as char
  const QUOTE: char := '\"'
  const BACKSLASH: char := '\\'
  const TAB: char := 9 as char
  const NEWLINE: char := 10 as char
  const NUMBER_BUFFER: nat := 25

  predicate NulFree(s: string) {
    NUL !in s
  }

  // ---- strings ----

  function HexDigit(n: nat): char
    requires n < 16
  {
    if n < 10 then (n + '0' as int) as char else (n - 10 + 'a' as int) as char
  }

  /** The letter after the backslash of a two-character escape; NUL when there is none. */
  function EscapeLetter(c: char): char {
    if c == QUOTE then QUOTE
    else if c == BACKSLASH then BACKSLASH
    else if c == 8 as char then 'b'
    else if c == 12 as char then 'f'
    else if c == 10 as char then 'n'
    else if c == 13 as char then 'r'
    else if c == 9 as char then 't'
    else NUL
  }

  /** How one character of a string is written between the quotes. */
  function EscapeChar(c: char): (r: string)
    ensures |r| == 1 || |r| == 2 || |r| == 6
    ensures c != NUL ==> NulFree(r)
    ensures |r| == 1 ==> r == [c] && c > 31 as char && c != QUOTE && c != BACKSLASH
  {
    if EscapeLetter(c) != NUL then [BACKSLASH, EscapeLetter(c)]
    else if c < 32 as char then [BACKSLASH, 'u', '0', '0', HexDigit(c as int / 16), HexDigit(c as int % 16)]
    else [c]
  }

  function Escaped(s: string): (r: string)
    ensures NulFree(s) ==> NulFree(r)
  {
    if s == [] then [] else EscapeChar(s[0]) + Escaped(s[1..])
  }

  lemma {:induction false} EscapedAppend(a: string, b: string)
    ensures Escaped(a + b) == Escaped(a) + Escaped(b)
  {
    hide *;
    EscapedNothing();
    if a == [] {
      assert a + b == b && [] + Escaped(b) == Escaped(b);
    } else {
      EscapedHead(a);
      HeadAndTail(a, b);
      EscapedHead(a + b);
      EscapedAppend(a[1..], b);
      Regroup(EscapeChar(a[0]), Escaped(a[1..]), Escaped(b));
    }
  }

  lemma EscapedNothing()
    ensures Escaped([]) == []
  {
  }

  lemma Regroup(a: string, b: string, c: string)
    ensures (a + b) + c == a + (b + c)
  {
  }

  lemma EscapedHead(s: string)
    requires s != []
    ensures Escaped(s) == EscapeChar(s[0]) + Escaped(s[1..])
  {
    hide EscapeChar, NulFree;
  }

  lemma HeadAndTail(a: string, b: string)
    requires a != []
    ensures a + b != [] && (a + b)[0] == a[0] && (a + b)[1..] == a[1..] + b
  {
  }

  lemma EscapedStep(s: string, i: nat)
    requires i < |s|
    ensures Escaped(s[..i + 1]) == Escaped(s[..i]) + EscapeChar(s[i])
    ensures |Escaped(s[..i + 1])| <= |Escaped(s)|
  {
    hide EscapeChar;
    EscapedAppend(s[..i], [s[i]]);
    assert s[..i + 1] == s[..i] + [s[i]] && [s[i]][1..] == [];
    EscapedAppend(s[..i + 1], s[i + 1..]);
    assert s == s[..i + 1] + s[i + 1..];
  }

  /** Nothing needs escaping exactly when the escaped form is no longer. */
  lemma {:induction false} EscapedLonger(s: string)
    ensures |Escaped(s)| >= |s|
    ensures |Escaped(s)| == |s| ==> Escaped(s) == s
  {
    if s != [] {
      EscapedLonger(s[1..]);
      assert s == [s[0]] + s[1..];
    }
  }

  function Quoted(s: string): string {
    [QUOTE] + Escaped(s) + [QUOTE]
  }

  // ---- values ----

  function Tabs(n: nat): (r: string)
    ensures |r| == n && NulFree(r)
  {
    seq(n, _ => TAB)
  }

  function ItemSeparator(format: bool): string { if format then ", " else "," }
  function KeySeparator(format: bool): string { if format then [':', TAB] else ":" }
  function LineEnd(format: bool): string { if format then [NEWLINE] else "" }
  function Indent(format: bool, depth: nat): string { if format then Tabs(depth) else "" }

  function RenderValue(j: Json, format: bool, depth: nat): string
    decreases j, 0
  {
    match j
    case Invalid => ""
    case False => "false"
    case True => "true"
    case Null => "null"
    case Number(d) => NumberText(d)
    case String(s) => Quoted(s)
    case Array(items) => "[" + RenderItems(items, format, depth + 1) + "]"
    case Object(ms) =>
      ("{" + LineEnd(format)) + RenderMembers(ms, format, depth + 1) + (Indent(format, depth) + "}")
  }

  function RenderItem(item: Json, more: bool, format: bool, depth: nat): string
    decreases item, 1
  {
    RenderValue(item, format, depth) + (if more then ItemSeparator(format) else "")
  }

  function RenderItems(items: seq<Json>, format: bool, depth: nat): string
    decreases items, 0
  {
    if items == [] then ""
    else RenderItem(items[0], |items| > 1, format, depth) + RenderItems(items[1..], format, depth)
  }

  /** The indentation, the key and the colon. */
  function RenderKey(key: string, format: bool, depth: nat): string {
    Indent(format, depth) + Quoted(key) + KeySeparator(format)
  }

  function MemberEnd(more: bool, format: bool): string {
    (if more then "," else "") + LineEnd(format)
  }

  function RenderMember(m: Member, more: bool, format: bool, depth: nat): string
    decreases m, 1
  {
    RenderKey(m.key, format, depth) + RenderValue(m.value, format, depth) + MemberEnd(more, format)
  }

  function RenderMembers(ms: seq<Member>, format: bool, depth: nat): string
    decreases ms, 0
  {
    if ms == [] then ""
    else RenderMember(ms[0], |ms| > 1, format, depth) + RenderMembers(ms[1..], format, depth)
  }

  // ---- what can be printed ----

  /** The printer has a text for the tree: no invalid node, and every number fits its local buffer. */
  ghost predicate HasText(j: Json) {
    match j
    case Invalid => false
    case Number(d) => |NumberText(d)| <= NUMBER_BUFFER
    case Array(items) => forall i | 0 <= i < |items| :: HasText(items[i])
    case Object(ms) => forall i | 0 <= i < |ms| :: HasText(ms[i].value)
    case _ => true
  }

  /** Strings are C strings. */
  ghost predicate Printable(j: Json) {
    match j
    case String(s) => NulFree(s)
    case Array(items) => forall i | 0 <= i < |items| :: Printable(items[i])
    case Object(ms) => forall i | 0 <= i < |ms| :: NulFree(ms[i].key) && Printable(ms[i].value)
    case _ => true
  }

  lemma NumberNulFree(d: real)
    ensures NulFree(NumberText(d))
  {
    NumberChars(d);
  }

  lemma {:induction false} RenderNulFree(j: Json, format: bool, depth: nat)
    requires Printable(j)
    ensures NulFree(RenderValue(j, format, depth))
    decreases j, 0
  {
    match j
    case Number(d) => NumberNulFree(d);
    case Array(items) => ItemsNulFree(items, format, depth + 1);
    case Object(ms) => MembersNulFree(ms, format, depth + 1);
    case _ =>
  }

  lemma {:induction false} ItemsNulFree(items: seq<Json>, format: bool, depth: nat)
    requires forall i | 0 <= i < |items| :: Printable(items[i])
    ensures NulFree(RenderItems(items, format, depth))
    decreases items, 0
  {
    if items != [] {
      RenderNulFree(items[0], format, depth);
      ItemsNulFree(items[1..], format, depth);
    }
  }

  lemma {:induction false} MembersNulFree(ms: seq<Member>, format: bool, depth: nat)
    requires forall i | 0 <= i < |ms| :: NulFree(ms[i].key) && Printable(ms[i].value)
    ensures NulFree(RenderMembers(ms, format, depth))
    decreases ms, 0
  {
    if ms != [] {
      RenderNulFree(ms[0].value, format, depth);
      MembersNulFree(ms[1..], format, depth);
    }
  }
}
