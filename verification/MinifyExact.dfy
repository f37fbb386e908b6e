/** Exactly which trees have a formatted text that cJSON_Minify turns into their unformatted text. */
module MinifyExact {
  import opened JsonTree
  import Numerals
  import opened Render
  import opened PrintLayout
  import opened Minify
  import opened MinifyParse
  import opened MinifyPrinted

  /**
   * A string may end in a backslash where nothing but closing brackets follows: as the text itself, or as
   * the last element of an array that is itself last in this sense. No other string and no key may.
   */
  ghost predicate Minifiable(j: Json) {
    match j
    case Array(items) => MinifiableItems(items)
    case Object(_) => NoLastBackslash(j)
    case _ => true
  }

  ghost predicate MinifiableItems(items: seq<Json>) {
    && (forall i | 0 <= i < |items| - 1 :: NoLastBackslash(items[i]))
    && (items != [] ==> Minifiable(items[|items| - 1]))
  }

  // ---- texts that differ at a position they both have ----

  ghost predicate Differs(m: string, u: string) {
    exists i :: 0 <= i < |m| && i < |u| && m[i] != u[i]
  }

  lemma DiffersAt(p: string, a: string, b: string)
    requires a != "" && b != "" && a[0] != b[0]
    ensures Differs(p + a, p + b)
  {
    assert (p + a)[|p|] != (p + b)[|p|];
  }

  lemma DiffersBehind(p: string, m: string, u: string, more: string)
    requires Differs(m, u)
    ensures Differs(p + m, p + (u + more))
  {
    var i :| 0 <= i < |m| && i < |u| && m[i] != u[i];
    assert (p + m)[|p| + i] == m[i] && (p + (u + more))[|p| + i] == u[i];
  }

  lemma DiffersNot(m: string, u: string)
    requires Differs(m, u)
    ensures m != u
  {
  }

  // ---- what follows a string that ends in a backslash stays as it is, up to the next quote ----

  lemma BadString(s: string, tail: string)
    requires LastBackslash(s)
    ensures Minified(Quoted(s) + tail) == Quoted(s) + MinifiedString(tail)
  {
    hide Minified, MinifiedString, Escaped;
    EscapedMinified(s, tail);
    AtQuote(Escaped(s) + [QUOTE] + tail);
    assert [QUOTE] + (Escaped(s) + [QUOTE] + tail) == Quoted(s) + tail;
    assert [QUOTE] + (Escaped(s) + [QUOTE] + MinifiedString(tail)) == Quoted(s) + MinifiedString(tail);
  }

  lemma TwoInside(a: char, b: char, rest: string)
    requires a != QUOTE && a != BACKSLASH && b != QUOTE && b != BACKSLASH
    ensures MinifiedString([a, b] + rest) == [a, b] + MinifiedString(rest)
  {
    hide MinifiedString;
    assert [a, b] + rest == [a] + ([b] + rest);
    MinifyParse.Inside(a, [b] + rest);
    MinifyParse.Inside(b, rest);
  }

  lemma NotBlank(j: Json, depth: nat)
    requires HasText(j)
    ensures var u := RenderValue(j, false, depth); u != "" && u[0] !in {' ', '\t', '\r', '\n'}
  {
    UnformattedBlankFree(j, depth);
    hide Numerals.NumberText, Escaped;
    if j.Number? {
      Numerals.NumberStart(j.d);
    }
  }

  lemma NotBlankItems(items: seq<Json>, depth: nat)
    requires items != [] && HasText(items[0])
    ensures var u := RenderItems(items, false, depth); u != "" && u[0] !in {' ', '\t', '\r', '\n'}
  {
    hide RenderValue;
    NotBlank(items[0], depth);
    ItemsHead(items, false, depth);
  }

  lemma QuoteFirst(ms: seq<Member>, depth: nat)
    requires ms != []
    ensures var u := RenderMembers(ms, false, depth); u != "" && u[0] == QUOTE
  {
    hide RenderValue, Escaped;
    MembersHead(ms, false, depth);
    NoIndent(depth);
  }

  /** With a string or key that ends in a backslash: all is well up to the end, or the texts differ. */
  lemma {:induction false} BadValue(j: Json, depth: nat, tail: string)
    requires HasText(j) && !NoLastBackslash(j)
    ensures var m, u := Minified(RenderValue(j, true, depth) + tail), RenderValue(j, false, depth);
      if Minifiable(j) then m == u + MinifiedString(tail) else Differs(m, u)
    decreases j, 0
  {
    hide Minified, MinifiedString, Quoted, Differs, LastBackslash;
    match j
    case String(s) => BadString(s, tail);
    case Array(items) =>
      BadItems(items, depth + 1, "]" + tail);
      BadBrackets(items, depth, tail);
    case Object(ms) =>
      BadMembers(ms, depth + 1, Indent(true, depth) + "}" + tail);
      BadBraces(ms, depth, tail);
    case _ =>
  }

  lemma BadBrackets(items: seq<Json>, depth: nat, tail: string)
    requires var m, u :=
        Minified(RenderItems(items, true, depth + 1) + ("]" + tail)), RenderItems(items, false, depth + 1);
      if MinifiableItems(items) then m == u + MinifiedString("]" + tail) else Differs(m, u)
    ensures var m, u :=
        Minified(RenderValue(Array(items), true, depth) + tail), RenderValue(Array(items), false, depth);
      if MinifiableItems(items) then m == u + MinifiedString(tail) else Differs(m, u)
  {
    hide *;
    var f, u := RenderItems(items, true, depth + 1), RenderItems(items, false, depth + 1);
    ArrayText(items, true, depth);
    ArrayText(items, false, depth);
    InBrackets(f, tail);
    OpensArray(f + ("]" + tail));
    ClosesArray(tail);
    InBrackets(u, MinifiedString(tail));
    if !MinifiableItems(items) {
      DiffersBehind("[", Minified(f + ("]" + tail)), u, "]");
    }
  }

  lemma ArrayText(items: seq<Json>, format: bool, depth: nat)
    ensures RenderValue(Array(items), format, depth) == "[" + (RenderItems(items, format, depth + 1) + "]")
  {
    hide RenderItems;
    assert "[" + RenderItems(items, format, depth + 1) + "]" == "[" + (RenderItems(items, format, depth + 1) + "]");
  }

  lemma InBrackets(f: string, tail: string)
    ensures ("[" + (f + "]")) + tail == "[" + (f + ("]" + tail))
  {
  }

  lemma OpensArray(x: string)
    ensures Minified("[" + x) == "[" + Minified(x)
  {
    MinifyParse.Outside('[', x);
  }

  lemma ClosesArray(x: string)
    ensures MinifiedString("]" + x) == "]" + MinifiedString(x)
  {
    MinifyParse.Inside(']', x);
  }

  lemma BadBraces(ms: seq<Member>, depth: nat, tail: string)
    requires Differs(Minified(RenderMembers(ms, true, depth + 1) + (Indent(true, depth) + "}" + tail)),
                     RenderMembers(ms, false, depth + 1) + "}")
    ensures Differs(Minified(RenderValue(Object(ms), true, depth) + tail), RenderValue(Object(ms), false, depth))
  {
    hide *;
    var open, close := "{" + LineEnd(true), Indent(true, depth) + "}" + tail;
    var f, u := RenderMembers(ms, true, depth + 1), RenderMembers(ms, false, depth + 1);
    IndentBlank(depth);
    BraceMinified();
    PieceTaken(open, f + close);
    InBraces(ms, depth, tail);
    DiffersBehind("{", Minified(f + close), u + "}", "");
    ShortObject(ms, depth);
  }

  lemma BraceMinified()
    ensures Minified("{" + LineEnd(true)) == "{" && Piece("{" + LineEnd(true))
  {
    hide Minified, Piece;
    IndentBlank(0);
    MarkMinified("{", LineEnd(true));
  }

  lemma InBraces(ms: seq<Member>, depth: nat, tail: string)
    ensures RenderValue(Object(ms), true, depth) + tail
      == ("{" + LineEnd(true)) + (RenderMembers(ms, true, depth + 1) + (Indent(true, depth) + "}" + tail))
  {
    hide RenderMembers, Indent, LineEnd;
    Regrouped("{" + LineEnd(true), RenderMembers(ms, true, depth + 1), Indent(true, depth) + "}", tail);
  }

  lemma Regrouped(a: string, b: string, c: string, d: string)
    ensures (a + b + c) + d == a + (b + (c + d))
  {
  }

  lemma ShortObject(ms: seq<Member>, depth: nat)
    ensures "{" + ((RenderMembers(ms, false, depth + 1) + "}") + "") == RenderValue(Object(ms), false, depth)
  {
    NoIndent(depth);
    hide RenderMembers, Indent;
    assert LineEnd(false) == "" && "{" + "" == "{" && "" + "}" == "}";
  }

  lemma PieceTaken(a: string, x: string)
    requires Piece(a)
    ensures Minified(a + x) == Minified(a) + Minified(x)
  {
    hide Minified;
    PieceMinified(a, x);
  }

  lemma {:induction false} BadItems(items: seq<Json>, depth: nat, tail: string)
    requires forall i | 0 <= i < |items| :: HasText(items[i])
    requires exists i :: 0 <= i < |items| && !NoLastBackslash(items[i])
    ensures var m, u := Minified(RenderItems(items, true, depth) + tail), RenderItems(items, false, depth);
      if MinifiableItems(items) then m == u + MinifiedString(tail) else Differs(m, u)
    decreases items, 0
  {
    hide *;
    if !NoLastBackslash(items[0]) {
      var sep := if |items| > 1 then ", " else "";
      BadValue(items[0], depth, sep + (RenderItems(items[1..], true, depth) + tail));
      BadHead(items, depth, tail);
    } else {
      BadRest(items);
      BadItems(items[1..], depth, tail);
      CleanHead(items, depth, tail);
    }
  }

  /** The first element holds no such string. */
  lemma CleanHead(items: seq<Json>, depth: nat, tail: string)
    requires items != [] && NoLastBackslash(items[0]) && (MinifiableItems(items) <==> MinifiableItems(items[1..]))
    requires var m, u := Minified(RenderItems(items[1..], true, depth) + tail), RenderItems(items[1..], false, depth);
      if MinifiableItems(items[1..]) then m == u + MinifiedString(tail) else Differs(m, u)
    ensures var m, u := Minified(RenderItems(items, true, depth) + tail), RenderItems(items, false, depth);
      if MinifiableItems(items) then m == u + MinifiedString(tail) else Differs(m, u)
  {
    hide *;
    var v, w := RenderValue(items[0], true, depth), RenderValue(items[0], false, depth);
    var sep, more := if |items| > 1 then ", " else "", if |items| > 1 then "," else "";
    var rest, rest' := RenderItems(items[1..], true, depth), RenderItems(items[1..], false, depth);
    ItemsHead(items, true, depth);
    ItemsHead(items, false, depth);
    PrintedMinified(items[0], depth);
    ValuePiece(items[0], true, depth);
    SeparatorMinified(|items| > 1);
    PiecesMinified(v, sep);
    PieceTaken(v + sep, rest + tail);
    assert (v + sep) + (rest + tail) == ((v + sep) + rest) + tail;
    if MinifiableItems(items[1..]) {
      assert (w + more) + (rest' + MinifiedString(tail)) == ((w + more) + rest') + MinifiedString(tail);
    } else {
      DiffersBehind(w + more, Minified(rest + tail), rest', "");
      assert (w + more) + (rest' + "") == (w + more) + rest';
    }
  }

  lemma BadRest(items: seq<Json>)
    requires (exists i :: 0 <= i < |items| && !NoLastBackslash(items[i])) && NoLastBackslash(items[0])
    ensures exists i :: 0 <= i < |items[1..]| && !NoLastBackslash(items[1..][i])
    ensures MinifiableItems(items) <==> MinifiableItems(items[1..])
  {
    var i :| 0 <= i < |items| && !NoLastBackslash(items[i]);
    assert items[1..][i - 1] == items[i];
    assert forall k | 1 <= k < |items| - 1 :: items[k] == items[1..][k - 1];
  }

  /** The first element holds such a string. */
  lemma BadHead(items: seq<Json>, depth: nat, tail: string)
    requires items != [] && !NoLastBackslash(items[0]) && forall i | 0 <= i < |items| :: HasText(items[i])
    requires var x := (if |items| > 1 then ", " else "") + (RenderItems(items[1..], true, depth) + tail);
      var m, u := Minified(RenderValue(items[0], true, depth) + x), RenderValue(items[0], false, depth);
      if Minifiable(items[0]) then m == u + MinifiedString(x) else Differs(m, u)
    ensures var m, u := Minified(RenderItems(items, true, depth) + tail), RenderItems(items, false, depth);
      if MinifiableItems(items) then m == u + MinifiedString(tail) else Differs(m, u)
  {
    hide Minified, MinifiedString, Differs, RenderValue, NoLastBackslash;
    var v, w := RenderValue(items[0], true, depth), RenderValue(items[0], false, depth);
    var rest, rest' := RenderItems(items[1..], true, depth), RenderItems(items[1..], false, depth);
    ItemsHead(items, true, depth);
    ItemsHead(items, false, depth);
    if |items| == 1 {
      assert rest == rest' == "" && "" + ("" + tail) == tail && v + tail == ((v + "") + "") + tail;
      assert (w + "") + "" == w;
      hide RenderItems;
    } else {
      hide RenderItems;
      var x := ", " + (rest + tail);
      assert v + x == ((v + ", ") + rest) + tail;
      if Minifiable(items[0]) {
        NotBlankItems(items[1..], depth);
        SpaceStays(w, rest + tail, rest');
      } else {
        DiffersLonger(Minified(v + x), w, "," + rest');
        assert w + ("," + rest') == (w + ",") + rest';
      }
    }
  }

  lemma DiffersLonger(m: string, u: string, more: string)
    requires Differs(m, u)
    ensures Differs(m, u + more)
  {
    var i :| 0 <= i < |m| && i < |u| && m[i] != u[i];
    assert (u + more)[i] == u[i];
  }

  lemma SpaceStays(w: string, x: string, y: string)
    requires y != "" && y[0] != ' '
    ensures Differs(w + MinifiedString(", " + x), (w + ",") + y)
  {
    hide MinifiedString, Differs;
    TwoInside(',', ' ', x);
    assert [',', ' '] == ", ";
    DiffersAt(w + ",", " " + MinifiedString(x), y);
    assert w + (", " + MinifiedString(x)) == (w + ",") + (" " + MinifiedString(x));
  }

  ghost predicate BadMember(m: Member) { LastBackslash(m.key) || !NoLastBackslash(m.value) }

  /** The member lines differ at the latest where the line end behind the last one meets the closing brace. */
  lemma {:induction false} BadMembers(ms: seq<Member>, depth: nat, tail: string)
    requires forall i | 0 <= i < |ms| :: HasText(ms[i].value)
    requires exists i :: 0 <= i < |ms| && BadMember(ms[i])
    ensures Differs(Minified(RenderMembers(ms, true, depth) + tail), RenderMembers(ms, false, depth) + "}")
    decreases ms, 0
  {
    hide Minified, MinifiedString, Differs, RenderMembers, RenderValue, RenderKey, MemberEnd, LastBackslash;
    var k, v := RenderKey(ms[0].key, true, depth), RenderValue(ms[0].value, true, depth);
    var end := MemberEnd(|ms| > 1, true);
    var k', v', end' :=
      RenderKey(ms[0].key, false, depth), RenderValue(ms[0].value, false, depth), MemberEnd(|ms| > 1, false);
    var rest, rest' := RenderMembers(ms[1..], true, depth), RenderMembers(ms[1..], false, depth);
    MembersHead(ms, true, depth);
    MembersHead(ms, false, depth);
    var after := end + (rest + tail);
    assert (((k + v) + end) + rest) + tail == k + (v + after);
    assert (((k' + v') + end') + rest') + "}" == k' + (v' + (end' + (rest' + "}")));
    if LastBackslash(ms[0].key) {
      NotBlank(ms[0].value, depth);
      BadKey(ms[0].key, depth, v + after, v' + (end' + (rest' + "}")));
    } else {
      KeyMinified(ms[0].key, depth);
      PieceTaken(k, v + after);
      if !NoLastBackslash(ms[0].value) {
        BadValue(ms[0].value, depth, after);
        BadEnd(ms, depth, tail, v);
        DiffersBehind(k', Minified(v + after), v' + (end' + (rest' + "}")), "");
        assert (v' + (end' + (rest' + "}"))) + "" == v' + (end' + (rest' + "}"));
      } else {
        assert exists i :: 0 <= i < |ms[1..]| && BadMember(ms[1..][i]) by {
          var i :| 0 <= i < |ms| && BadMember(ms[i]);
          assert ms[1..][i - 1] == ms[i];
        }
        BadMembers(ms[1..], depth, tail);
        PrintedMinified(ms[0].value, depth);
        ValuePiece(ms[0].value, true, depth);
        EndMinified(|ms| > 1);
        PieceTaken(v, after);
        PieceTaken(end, rest + tail);
        DiffersBehind(k' + (v' + end'), Minified(rest + tail), rest' + "}", "");
        assert (k' + (v' + end')) + Minified(rest + tail) == k' + (v' + (end' + Minified(rest + tail)));
        assert (k' + (v' + end')) + ((rest' + "}") + "") == k' + (v' + (end' + (rest' + "}")));
      }
    }
  }

  lemma BadKey(key: string, depth: nat, x: string, y: string)
    requires LastBackslash(key) && y != "" && y[0] != '\t'
    ensures Differs(Minified(RenderKey(key, true, depth) + x), RenderKey(key, false, depth) + y)
  {
    var tabs, q := Indent(true, depth), Quoted(key);
    IndentBlank(depth);
    NoIndent(depth);
    hide Minified, MinifiedString, Differs, Indent, Quoted, LastBackslash, Piece;
    BadString(key, ":\t" + x);
    PieceTaken(tabs, q + (":\t" + x));
    assert RenderKey(key, true, depth) + x == tabs + (q + (":\t" + x));
    TwoInside(':', '\t', x);
    assert [':', '\t'] == ":\t";
    DiffersAt(q + ":", "\t" + MinifiedString(x), y);
    assert "" + (q + (":\t" + MinifiedString(x))) == (q + ":") + ("\t" + MinifiedString(x));
    assert RenderKey(key, false, depth) + y == (q + ":") + y;
  }

  /** The value of the first member holds such a string: behind it a line end stays. */
  lemma BadEnd(ms: seq<Member>, depth: nat, tail: string, v: string)
    requires ms != []
    requires var x := MemberEnd(|ms| > 1, true) + (RenderMembers(ms[1..], true, depth) + tail);
      var m, u := Minified(v + x), RenderValue(ms[0].value, false, depth);
      if Minifiable(ms[0].value) then m == u + MinifiedString(x) else Differs(m, u)
    ensures Differs(
      Minified(v + (MemberEnd(|ms| > 1, true) + (RenderMembers(ms[1..], true, depth) + tail))),
      RenderValue(ms[0].value, false, depth)
        + (MemberEnd(|ms| > 1, false) + (RenderMembers(ms[1..], false, depth) + "}")))
  {
    var rest, rest' := RenderMembers(ms[1..], true, depth), RenderMembers(ms[1..], false, depth);
    var end, end', w := MemberEnd(|ms| > 1, true), MemberEnd(|ms| > 1, false), RenderValue(ms[0].value, false, depth);
    var x := end + (rest + tail);
    assert |ms| == 1 ==> rest' == "" by {
      assert |ms| == 1 ==> ms[1..] == [];
    }
    hide Minified, MinifiedString, Differs, RenderMembers, RenderValue, MemberEnd, Minifiable;
    if Minifiable(ms[0].value) {
      if |ms| > 1 {
        QuoteFirst(ms[1..], depth);
      }
      EndStays(|ms| > 1, w, rest + tail, rest');
    } else {
      DiffersLonger(Minified(v + x), w, end' + (rest' + "}"));
    }
  }

  lemma EndStays(more: bool, w: string, x: string, y: string)
    requires if more then y != "" && y[0] == QUOTE else y == ""
    ensures Differs(w + MinifiedString(MemberEnd(more, true) + x), w + (MemberEnd(more, false) + (y + "}")))
  {
    hide MinifiedString, Differs;
    if more {
      assert MemberEnd(true, true) == [',', '\n'] && MemberEnd(true, false) == [','];
      TwoInside(',', '\n', x);
      DiffersAt(w + ",", "\n" + MinifiedString(x), y + "}");
      assert w + ([',', '\n'] + MinifiedString(x)) == (w + ",") + ("\n" + MinifiedString(x));
      assert (w + ",") + (y + "}") == w + ([','] + (y + "}"));
    } else {
      assert MemberEnd(false, true) == ['\n'] && MemberEnd(false, false) == [];
      MinifyParse.Inside('\n', x);
      DiffersAt(w, ['\n'] + MinifiedString(x), "}");
      assert [] + ("" + "}") == "}";
    }
  }

  /**
   * For every tree with a text: minifying its formatted text gives its unformatted text if and only if a
   * string ends in a backslash nowhere but at the very end, with nothing but closing brackets behind it.
   */
  lemma PrintedMinifiedExact(j: Json)
    requires HasText(j)
    ensures Minified(RenderValue(j, true, 0)) == RenderValue(j, false, 0) <==> Minifiable(j)
  {
    hide Minified, RenderValue, Differs;
    if NoLastBackslash(j) {
      PrintedMinified(j, 0);
      CleanMinifiable(j);
    } else {
      BadValue(j, 0, "");
      assert RenderValue(j, true, 0) + "" == RenderValue(j, true, 0);
      assert RenderValue(j, false, 0) + "" == RenderValue(j, false, 0);
      assert MinifiedString("") == "";
      if !Minifiable(j) {
        DiffersNot(Minified(RenderValue(j, true, 0)), RenderValue(j, false, 0));
      }
    }
  }

  lemma {:induction false} CleanMinifiable(j: Json)
    requires NoLastBackslash(j)
    ensures Minifiable(j)
    decreases j
  {
    if j.Array? && j.items != [] {
      CleanMinifiable(j.items[|j.items| - 1]);
    }
  }
}
