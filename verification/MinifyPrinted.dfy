/** What cJSON_Minify takes out: the layout of printed text, every blank outside literals, and whole comments. */
module MinifyPrinted {
  import opened JsonTree
  import Numerals
  import opened Render
  import opened PrintLayout
  import opened Minify
  import opened MinifyParse

  const BLANKS_AND_SLASH: set<char> := {' ', '\t', '\r', '\n', '/'}

  // ---- no blank is left outside literals ----

  /**
   * For every text: outside its literals the minified text holds no space, tab, carriage return, line
   * feed or slash, going by the minifier's own reading of literals.
   */
  lemma {:induction false} NoBlankLeft(s: string)
    ensures FreeOf(Minified(s), Outside, BLANKS_AND_SLASH, false)
    decreases |s|
  {
    if s != [] {
      if IsSpace(s[0]) {
        NoBlankLeft(s[1..]);
      } else if s[0] == '/' {
        NoBlankLeft(s[1..]);
        if |s| > 1 && s[1] == '/' {
          NoBlankLeft(AfterLine(s[2..]));
        } else if |s| > 1 && s[1] == '*' {
          NoBlankLeft(AfterBlock(s[2..]));
        }
      } else if s[0] == QUOTE {
        NoBlankLeftInside(s[1..]);
        FreeMore(QUOTE, MinifiedString(s[1..]), Outside, false);
      } else {
        NoBlankLeft(s[1..]);
        FreeMore(s[0], Minified(s[1..]), Outside, false);
      }
    }
  }

  lemma {:induction false} NoBlankLeftInside(s: string)
    ensures FreeOf(MinifiedString(s), Inside, BLANKS_AND_SLASH, false)
    decreases |s|
  {
    if s != [] {
      if s[0] == QUOTE {
        NoBlankLeft(s[1..]);
        FreeMore(QUOTE, Minified(s[1..]), Inside, false);
      } else if s[0] == BACKSLASH {
        BehindBackslash(s);
      } else {
        NoBlankLeftInside(s[1..]);
        FreeMore(s[0], MinifiedString(s[1..]), Inside, false);
      }
    }
  }

  lemma {:induction false} BehindBackslash(s: string)
    requires s != [] && s[0] == BACKSLASH
    ensures FreeOf(MinifiedString(s), Inside, BLANKS_AND_SLASH, false)
    decreases |s|, 0
  {
    if |s| > 1 && s[1] == QUOTE {
      NoBlankLeftInside(s[2..]);
      FreeMore(QUOTE, MinifiedString(s[2..]), Escaping, false);
      FreeMore(BACKSLASH, [QUOTE] + MinifiedString(s[2..]), Inside, false);
      assert MinifiedString(s) == [BACKSLASH] + ([QUOTE] + MinifiedString(s[2..]));
    } else {
      var rest := MinifiedString(s[1..]);
      NoBlankLeftInside(s[1..]);
      assert s[1..] != [] ==> s[1..][0] != QUOTE;
      StringStart(s[1..]);
      FreeMore(BACKSLASH, rest, Inside, false);
      assert MinifiedString(s) == [BACKSLASH] + rest;
    }
  }

  lemma FreeMore(c: char, rest: string, p: Place, json: bool)
    ensures FreeOf([c] + rest, p, BLANKS_AND_SLASH, json)
      == ((p == Outside ==> c !in BLANKS_AND_SLASH) && FreeOf(rest, Next(p, c, json), BLANKS_AND_SLASH, json))
  {
    assert ([c] + rest)[1..] == rest;
  }

  // ---- a piece between cuts outside literals is minified for itself ----

  /** A piece of JSON text: it starts and ends outside literals, without a slash there, its literals apart. */
  ghost predicate Piece(a: string) { Closed(a, {'/'}, true) }

  lemma {:induction false} PieceMinified(a: string, x: string)
    requires Scan(a, Outside, true) == Outside && FreeOf(a, Outside, {'/'}, true) && Apart(a, Outside)
    ensures Minified(a + x) == Minified(a) + Minified(x)
    decreases |a|
  {
    if a == [] {
      assert a + x == x;
    } else {
      assert (a + x)[0] == a[0] && (a + x)[1..] == a[1..] + x;
      if a[0] == QUOTE {
        LiteralMinified(a[1..], x, Inside);
      } else {
        PieceMinified(a[1..], x);
      }
    }
  }

  lemma {:induction false} LiteralMinified(a: string, x: string, p: Place)
    requires p == Inside || p == Paired
    requires Scan(a, p, true) == Outside && FreeOf(a, p, {'/'}, true) && Apart(a, p)
    ensures MinifiedString(a + x) == MinifiedString(a) + Minified(x)
    decreases |a|
  {
    hide Minified;
    assert (a + x)[0] == a[0] && (a + x)[1..] == a[1..] + x;
    if a[0] == QUOTE {
      PieceMinified(a[1..], x);
    } else if a[0] == BACKSLASH {
      EscapeMinified(a, x, p);
    } else {
      LiteralMinified(a[1..], x, Inside);
    }
  }

  lemma {:induction false} EscapeMinified(a: string, x: string, p: Place)
    requires (p == Inside || p == Paired) && a != [] && a[0] == BACKSLASH
    requires Scan(a, p, true) == Outside && FreeOf(a, p, {'/'}, true) && Apart(a, p)
    ensures MinifiedString(a + x) == MinifiedString(a) + Minified(x)
    decreases |a|, 0
  {
    EscapeScanned(a, p);
    hide Scan, FreeOf, Apart, Minified, MinifiedString;
    LiteralMinified(a[2..], x, Next(Escaping, a[1], true));
    assert (a + x)[0] == a[0] && (a + x)[1] == a[1] && (a + x)[2..] == a[2..] + x;
    TwoCopied(a);
    TwoCopied(a + x);
  }

  /** Behind a backslash and what it escapes, the scan goes on inside the literal, and not at a quote behind a pair. */
  lemma EscapeScanned(a: string, p: Place)
    requires (p == Inside || p == Paired) && a != [] && a[0] == BACKSLASH
    requires Scan(a, p, true) == Outside && FreeOf(a, p, {'/'}, true) && Apart(a, p)
    ensures |a| > 1
    ensures var q := Next(Escaping, a[1], true);
      && (q == Inside || q == Paired)
      && Scan(a[2..], q, true) == Outside && FreeOf(a[2..], q, {'/'}, true) && Apart(a[2..], q)
    ensures a[1] == BACKSLASH ==> |a| > 2 && a[2] != QUOTE
  {
    var rest := a[1..];
    assert Scan(rest, Escaping, true) == Outside && FreeOf(rest, Escaping, {'/'}, true) && Apart(rest, Escaping);
    assert rest[1..] == a[2..] && rest[0] == a[1];
    var q := Next(Escaping, a[1], true);
    assert Scan(a[2..], q, true) == Outside && FreeOf(a[2..], q, {'/'}, true) && Apart(a[2..], q);
    if a[1] == BACKSLASH {
      assert a[2..] != [];
      assert a[2..][0] == a[2];
    }
  }

  /** A backslash and what it escapes are both copied, unless an escaped backslash stands in front of a quote. */
  lemma TwoCopied(s: string)
    requires |s| > 1 && s[0] == BACKSLASH && (s[1] == BACKSLASH ==> |s| > 2 && s[2] != QUOTE)
    ensures MinifiedString(s) == [BACKSLASH, s[1]] + MinifiedString(s[2..])
  {
    assert s[0..] == s && s[0..2] == [BACKSLASH, s[1]];
    hide Minified, MinifiedString;
    EscapeStep(s, 0);
  }

  lemma PiecesMinified(a: string, b: string)
    requires Piece(a) && Piece(b)
    ensures Minified(a + b) == Minified(a) + Minified(b) && Piece(a + b)
  {
    hide Minified;
    PieceMinified(a, b);
    ClosedBoth(a, b, {'/'}, true);
  }

  // ---- formatted text minifies to unformatted text ----

  lemma ValuePiece(j: Json, format: bool, depth: nat)
    requires NoLastBackslash(j)
    ensures Piece(RenderValue(j, format, depth))
  {
    ValueClosed(j, format, depth, true);
    hide RenderValue;
    ClosedFewer(RenderValue(j, format, depth), format);
  }

  lemma ClosedFewer(s: string, format: bool)
    requires Closed(s, Never(format), true)
    ensures Piece(s)
  {
    FewerChars(s, Outside, Never(format), {'/'});
  }

  lemma ItemsPiece(items: seq<Json>, format: bool, depth: nat)
    requires forall i | 0 <= i < |items| :: NoLastBackslash(items[i])
    ensures Piece(RenderItems(items, format, depth))
  {
    ItemsClosed(items, format, depth, true);
    hide RenderItems;
    ClosedFewer(RenderItems(items, format, depth), format);
  }

  lemma MembersPiece(ms: seq<Member>, format: bool, depth: nat)
    requires forall i | 0 <= i < |ms| :: !LastBackslash(ms[i].key) && NoLastBackslash(ms[i].value)
    ensures Piece(RenderMembers(ms, format, depth))
  {
    MembersClosed(ms, format, depth, true);
    hide RenderMembers;
    ClosedFewer(RenderMembers(ms, format, depth), format);
  }

  lemma PlainPiece(s: string)
    requires forall i | 0 <= i < |s| :: s[i] != '\"' && s[i] != '/'
    ensures Piece(s)
  {
    PlainClosed(s, {'/'}, true);
  }

  ghost predicate Kept(s: string) {
    forall i | 0 <= i < |s| :: s[i] !in {' ', '\t', '\r', '\n', '/', '\"'}
  }

  lemma {:induction false} KeptMinified(s: string)
    requires Kept(s)
    ensures Minified(s) == s
    decreases |s|
  {
    if s != [] {
      KeptMinified(s[1..]);
      assert s == [s[0]] + s[1..];
    }
  }

  ghost predicate Blanks(s: string) {
    forall i | 0 <= i < |s| :: s[i] in {' ', '\t', '\r', '\n'}
  }

  lemma {:induction false} BlanksMinified(s: string)
    requires Blanks(s)
    ensures Minified(s) == ""
    decreases |s|
  {
    if s != [] {
      BlanksMinified(s[1..]);
    }
  }

  /** Characters that stay, and blanks behind them. */
  lemma MarkMinified(mark: string, blanks: string)
    requires Kept(mark) && Blanks(blanks)
    ensures Minified(mark + blanks) == mark && Piece(mark + blanks)
  {
    hide Minified;
    PlainPiece(mark);
    PlainPiece(blanks);
    PiecesMinified(mark, blanks);
    KeptMinified(mark);
    BlanksMinified(blanks);
  }

  lemma StringMinified(s: string)
    requires !LastBackslash(s)
    ensures Minified(Quoted(s)) == Quoted(s) && Piece(Quoted(s))
  {
    hide Minified, Escaped, MinifiedString;
    QuotedClosed(s, {'/'}, true);
    EscapedMinified(s, "");
    var e := Escaped(s);
    assert Minified("") == "" by {
      KeptMinified("");
    }
    AtQuote(e + [QUOTE] + "");
    assert [QUOTE] + (e + [QUOTE] + "") == Quoted(s) == [QUOTE] + (e + [QUOTE]);
  }

  lemma NumberMinified(d: real)
    ensures Minified(Numerals.NumberText(d)) == Numerals.NumberText(d)
  {
    hide Numerals.NumberText, Minified;
    Numerals.NumberChars(d);
    var s := Numerals.NumberText(d);
    forall i | 0 <= i < |s| ensures s[i] !in {' ', '\t', '\r', '\n', '/', '\"'} {
      assert s[i] in s;
    }
    KeptMinified(s);
  }

  /**
   * For every tree in which no string and no key ends in a backslash: minifying its formatted text gives
   * its unformatted text.
   */
  lemma {:induction false} PrintedMinified(j: Json, depth: nat)
    requires NoLastBackslash(j)
    ensures Minified(RenderValue(j, true, depth)) == RenderValue(j, false, depth)
    decreases j, 0
  {
    hide Minified, Quoted, LastBackslash, Numerals.NumberText;
    match j
    case String(s) => StringMinified(s);
    case Number(d) => NumberMinified(d);
    case Array(items) =>
      ItemsMinified(items, depth + 1);
      ItemsPiece(items, true, depth + 1);
      Bracketed(RenderItems(items, true, depth + 1));
    case Object(ms) =>
      MembersMinified(ms, depth + 1);
      MembersPiece(ms, true, depth + 1);
      Braced(RenderMembers(ms, true, depth + 1), depth);
    case _ => KeptMinified(RenderValue(j, true, depth));
  }

  lemma Bracketed(inner: string)
    requires Piece(inner)
    ensures Minified("[" + inner + "]") == "[" + Minified(inner) + "]"
  {
    hide Minified, Piece;
    MarkMinified("[", "");
    MarkMinified("]", "");
    assert "[" + "" == "[" && "]" + "" == "]";
    PiecesMinified("[", inner);
    PiecesMinified("[" + inner, "]");
  }

  lemma IndentBlank(depth: nat)
    ensures Blanks(Indent(true, depth)) && Blanks(LineEnd(true)) && Blanks("")
    ensures Minified(Indent(true, depth)) == "" && Piece(Indent(true, depth))
  {
    BlanksMinified(Indent(true, depth));
    PlainPiece(Indent(true, depth));
  }

  lemma Braced(inner: string, depth: nat)
    requires Piece(inner)
    ensures Minified(("{" + LineEnd(true)) + inner + (Indent(true, depth) + "}"))
      == ("{" + LineEnd(false)) + Minified(inner) + (Indent(false, depth) + "}")
  {
    var tabs, end := Indent(true, depth), LineEnd(true);
    IndentBlank(depth);
    assert Indent(false, depth) == LineEnd(false) == "" && "{" + "" == "{" && "" + "}" == "}" && "}" + "" == "}";
    MarkMinified("{", end);
    MarkMinified("}", "");
    hide Minified, Piece, Indent, LineEnd;
    PiecesMinified(tabs, "}");
    PiecesMinified("{" + end, inner);
    PiecesMinified(("{" + end) + inner, tabs + "}");
  }

  lemma {:induction false} ItemsMinified(items: seq<Json>, depth: nat)
    requires forall i | 0 <= i < |items| :: NoLastBackslash(items[i])
    ensures Minified(RenderItems(items, true, depth)) == RenderItems(items, false, depth)
    decreases items, 0
  {
    hide Minified, Piece, RenderValue;
    if items == [] {
      KeptMinified("");
    } else {
      var v, sep, more := RenderValue(items[0], true, depth), if |items| > 1 then ", " else "", |items| > 1;
      PrintedMinified(items[0], depth);
      ValuePiece(items[0], true, depth);
      ItemsMinified(items[1..], depth);
      ItemsPiece(items[1..], true, depth);
      SeparatorMinified(more);
      hide RenderItems;
      PiecesMinified(v, sep);
      PiecesMinified(v + sep, RenderItems(items[1..], true, depth));
      ItemsHead(items, true, depth);
      ItemsHead(items, false, depth);
    }
  }

  lemma SeparatorMinified(more: bool)
    ensures Minified(if more then ", " else "") == (if more then "," else "") && Piece(if more then ", " else "")
  {
    if more {
      MarkMinified(",", " ");
      assert "," + " " == ", ";
    } else {
      MarkMinified("", "");
      assert "" + "" == "";
    }
  }

  lemma ItemsHead(items: seq<Json>, format: bool, depth: nat)
    requires items != []
    ensures RenderItems(items, format, depth)
      == (RenderValue(items[0], format, depth) + (if |items| > 1 then (if format then ", " else ",") else ""))
         + RenderItems(items[1..], format, depth)
  {
    hide RenderValue;
  }

  lemma {:induction false} MembersMinified(ms: seq<Member>, depth: nat)
    requires forall i | 0 <= i < |ms| :: !LastBackslash(ms[i].key) && NoLastBackslash(ms[i].value)
    ensures Minified(RenderMembers(ms, true, depth)) == RenderMembers(ms, false, depth)
    decreases ms, 0
  {
    hide Minified, Piece, RenderValue, RenderKey, MemberEnd, LastBackslash;
    if ms == [] {
      KeptMinified("");
    } else {
      var k, v := RenderKey(ms[0].key, true, depth), RenderValue(ms[0].value, true, depth);
      var end := MemberEnd(|ms| > 1, true);
      KeyMinified(ms[0].key, depth);
      PrintedMinified(ms[0].value, depth);
      ValuePiece(ms[0].value, true, depth);
      MembersMinified(ms[1..], depth);
      MembersPiece(ms[1..], true, depth);
      EndMinified(|ms| > 1);
      MembersHead(ms, true, depth);
      MembersHead(ms, false, depth);
      hide RenderMembers;
      PiecesMinified(k, v);
      PiecesMinified(k + v, end);
      PiecesMinified((k + v) + end, RenderMembers(ms[1..], true, depth));
    }
  }

  lemma EndMinified(more: bool)
    ensures Minified(MemberEnd(more, true)) == MemberEnd(more, false) && Piece(MemberEnd(more, true))
  {
    IndentBlank(0);
    MarkMinified(if more then "," else "", LineEnd(true));
    assert (if more then "," else "") + LineEnd(false) == if more then "," else "";
  }

  lemma MembersHead(ms: seq<Member>, format: bool, depth: nat)
    requires ms != []
    ensures RenderMembers(ms, format, depth)
      == ((RenderKey(ms[0].key, format, depth) + RenderValue(ms[0].value, format, depth)) + MemberEnd(|ms| > 1, format))
         + RenderMembers(ms[1..], format, depth)
  {
    hide RenderKey, RenderValue, MemberEnd;
  }

  lemma KeyMinified(key: string, depth: nat)
    requires !LastBackslash(key)
    ensures Minified(RenderKey(key, true, depth)) == RenderKey(key, false, depth) && Piece(RenderKey(key, true, depth))
  {
    StringMinified(key);
    IndentBlank(depth);
    var tabs, q, sep := Indent(true, depth), Quoted(key), KeySeparator(true);
    assert Minified(sep) == ":" && Piece(sep) by {
      MarkMinified(":", "\t");
      assert ":" + "\t" == sep;
    }
    hide Minified, Piece, Indent, Quoted;
    PiecesMinified(tabs, q);
    PiecesMinified(tabs + q, sep);
    assert "" + q == q;
    assert RenderKey(key, false, depth) == q + ":" by {
      NoIndent(depth);
      assert "" + q + ":" == q + ":";
    }
  }

  lemma NoIndent(depth: nat)
    ensures Indent(false, depth) == ""
  {
  }

  // ---- comments ----

  /** A comment up to its end: two slashes and a line, or a block. */
  ghost predicate IsComment(c: string) {
    || (exists body :: c == "//" + body + "\n" && '\n' !in body)
    || (exists body :: c == "/*" + body + "*/" && !HasEnd(body))
  }

  ghost predicate HasEnd(body: string) {
    exists i | 0 < i < |body| :: body[i - 1] == '*' && body[i] == '/'
  }

  lemma {:induction false} LineSkipped(body: string, rest: string)
    requires '\n' !in body
    ensures AfterLine(body + ("\n" + rest)) == rest
    decreases |body|
  {
    var s := body + ("\n" + rest);
    if body == "" {
      assert s == "\n" + rest && s[1..] == rest;
    } else {
      assert s[1..] == body[1..] + ("\n" + rest);
      LineSkipped(body[1..], rest);
    }
  }

  lemma {:induction false} BlockSkipped(body: string, rest: string)
    requires !HasEnd(body)
    ensures AfterBlock(body + ("*/" + rest)) == rest
    decreases |body|
  {
    var s := body + ("*/" + rest);
    if body == "" {
      assert s == "*/" + rest && s[2..] == rest;
    } else {
      assert s[1..] == body[1..] + ("*/" + rest);
      assert |body| > 1 ==> s[1] == body[1];
      assert |body| == 1 ==> s[1] == '*';
      assert !HasEnd(body[1..]);
      BlockSkipped(body[1..], rest);
    }
  }

  /** A comment in front of any text goes as a whole, and nothing else with it. */
  lemma CommentSkipped(c: string, rest: string)
    requires IsComment(c)
    ensures Minified(c + rest) == Minified(rest)
  {
    if body :| c == "//" + body + "\n" && '\n' !in body {
      LineCommentSkipped(c, body, rest);
    } else {
      var body :| c == "/*" + body + "*/" && !HasEnd(body);
      BlockCommentSkipped(c, body, rest);
    }
  }

  lemma LineCommentSkipped(c: string, body: string, rest: string)
    requires c == "//" + body + "\n" && '\n' !in body
    ensures Minified(c + rest) == Minified(rest)
  {
    hide AfterLine, AfterBlock;
    var s := c + rest;
    assert s[2..] == body + ("\n" + rest) && s[0] == s[1] == '/';
    LineSkipped(body, rest);
  }

  lemma BlockCommentSkipped(c: string, body: string, rest: string)
    requires c == "/*" + body + "*/" && !HasEnd(body)
    ensures Minified(c + rest) == Minified(rest)
  {
    hide AfterLine, AfterBlock, HasEnd;
    var s := c + rest;
    assert s[2..] == body + ("*/" + rest) && s[0] == '/' && s[1] == '*';
    BlockSkipped(body, rest);
  }

  /**
   * For every text: a comment behind a part that ends outside literals, has no slash there and no
   * literal that ends in an escaped backslash, makes no difference, whatever follows.
   */
  lemma CommentDropped(a: string, c: string, b: string)
    requires Piece(a) && IsComment(c)
    ensures Minified(a + c + b) == Minified(a + b)
  {
    hide Minified, IsComment;
    PieceMinified(a, c + b);
    PieceMinified(a, b);
    CommentSkipped(c, b);
    assert a + (c + b) == a + c + b;
  }

  /** In particular anywhere outside the literals of printed text, formatted or not. */
  lemma PrintedCommentDropped(j: Json, format: bool, a: string, c: string, b: string)
    requires NoLastBackslash(j) && RenderValue(j, format, 0) == a + b
    requires Scan(a, Outside, true) == Outside && IsComment(c)
    ensures Minified(a + c + b) == RenderValue(j, false, 0)
  {
    ValuePiece(j, format, 0);
    PrintedMinified(j, 0);
    UnformattedStays(j);
    hide RenderValue, Minified, IsComment, Scan, FreeOf, Apart;
    Appended(a, b, Outside, {'/'}, true);
    CommentDropped(a, c, b);
  }

  lemma UnformattedStays(j: Json)
    requires NoLastBackslash(j)
    ensures Minified(RenderValue(j, false, 0)) == RenderValue(j, false, 0)
  {
    PrintedMinified(j, 0);
    hide RenderValue, Minified;
    MinifiedAgain(RenderValue(j, true, 0));
  }
}
