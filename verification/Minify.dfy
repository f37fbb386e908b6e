/** cJSON_Minify: white space and comments taken out of a text in place. */
module Minify {
  import opened Render

  predicate IsSpace(c: char) {
    c == ' ' || c == TAB || c == NEWLINE || c == 13 as char
  }

  /** What is left behind a one-line comment, from behind its slashes. */
  function AfterLine(s: string): (r: string)
    ensures |r| <= |s|
  {
    if s == [] then [] else if s[0] == NEWLINE then s[1..] else AfterLine(s[1..])
  }

  /** What is left behind a comment that ends with a star and a slash. */
  function AfterBlock(s: string): (r: string)
    ensures |r| <= |s|
  {
    if s == [] then []
    else if s[0] == '*' && |s| > 1 && s[1] == '/' then s[2..]
    else AfterBlock(s[1..])
  }

  /** The text outside string literals. */
  function Minified(s: string): string
    decreases |s|
  {
    if s == [] then []
    else if IsSpace(s[0]) then Minified(s[1..])
    else if s[0] == '/' then
      if |s| > 1 && s[1] == '/' then Minified(AfterLine(s[2..]))
      else if |s| > 1 && s[1] == '*' then Minified(AfterBlock(s[2..]))
      else Minified(s[1..])
    else if s[0] == QUOTE then [QUOTE] + MinifiedString(s[1..])
    else [s[0]] + Minified(s[1..])
  }

  /** The text inside a string literal, up to its closing quote and on. */
  function MinifiedString(s: string): string
    decreases |s|
  {
    if s == [] then []
    else if s[0] == QUOTE then [QUOTE] + Minified(s[1..])
    else if s[0] == BACKSLASH && |s| > 1 && s[1] == QUOTE then [BACKSLASH, QUOTE] + MinifiedString(s[2..])
    else [s[0]] + MinifiedString(s[1..])
  }

  // ---- minifying twice is minifying once ----

  lemma StringStart(s: string)
    ensures s != [] ==> MinifiedString(s) != [] && MinifiedString(s)[0] == s[0]
  {
  }

  lemma {:induction false} MinifiedStringAgain(s: string)
    ensures MinifiedString(MinifiedString(s)) == MinifiedString(s)
    decreases |s|
  {
    if s != [] {
      var r := MinifiedString(s);
      if s[0] == QUOTE {
        assert r[1..] == Minified(s[1..]);
        MinifiedAgain(s[1..]);
      } else if s[0] == BACKSLASH && |s| > 1 && s[1] == QUOTE {
        assert r[2..] == MinifiedString(s[2..]);
        MinifiedStringAgain(s[2..]);
      } else {
        assert r[1..] == MinifiedString(s[1..]);
        StringStart(s[1..]);
        MinifiedStringAgain(s[1..]);
      }
    }
  }

  lemma {:induction false} MinifiedAgain(s: string)
    ensures Minified(Minified(s)) == Minified(s)
    decreases |s|
  {
    if s != [] {
      var r := Minified(s);
      if IsSpace(s[0]) {
        MinifiedAgain(s[1..]);
      } else if s[0] == '/' {
        if |s| > 1 && s[1] == '/' {
          MinifiedAgain(AfterLine(s[2..]));
        } else if |s| > 1 && s[1] == '*' {
          MinifiedAgain(AfterBlock(s[2..]));
        } else {
          MinifiedAgain(s[1..]);
        }
      } else if s[0] == QUOTE {
        assert r[1..] == MinifiedString(s[1..]);
        MinifiedStringAgain(s[1..]);
      } else {
        assert r[1..] == Minified(s[1..]);
        MinifiedAgain(s[1..]);
      }
    }
  }

  // ---- in place ----

  lemma SuffixStep(s: string, i: nat)
    requires i < |s|
    ensures s[i..][0] == s[i] && s[i..][1..] == s[i + 1..]
    ensures i + 1 < |s| ==> s[i..][1] == s[i + 1] && s[i..][2..] == s[i + 2..]
  {
  }

  lemma Join(a: string, b: string, c: string)
    ensures a + (b + c) == (a + b) + c
  {
  }

  /** What is made of the text from i on, outside string literals and inside one. */
  ghost function TextFrom(s: string, i: nat): string
    requires i <= |s|
  {
    Minified(s[i..])
  }

  ghost function StringFrom(s: string, i: nat): string
    requires i <= |s|
  {
    MinifiedString(s[i..])
  }

  predicate EscapedQuote(s: string, i: nat) {
    i + 1 < |s| && s[i] == BACKSLASH && s[i + 1] == QUOTE
  }

  /** One turn inside a literal, behind what is already written. */
  lemma StringTurn(w: string, s: string, i: nat)
    requires i < |s|
    ensures s[i] == QUOTE ==> w + StringFrom(s, i) == (w + [QUOTE]) + TextFrom(s, i + 1)
    ensures EscapedQuote(s, i) ==> w + StringFrom(s, i) == ((w + [BACKSLASH]) + [QUOTE]) + StringFrom(s, i + 2)
    ensures s[i] != QUOTE && !EscapedQuote(s, i) ==> w + StringFrom(s, i) == (w + [s[i]]) + StringFrom(s, i + 1)
  {
    SuffixStep(s, i);
    if s[i] == QUOTE {
      Join(w, [QUOTE], Minified(s[i + 1..]));
    } else if EscapedQuote(s, i) {
      assert (w + [BACKSLASH]) + [QUOTE] == w + [BACKSLASH, QUOTE];
      Join(w, [BACKSLASH, QUOTE], MinifiedString(s[i + 2..]));
    } else {
      Join(w, [s[i]], MinifiedString(s[i + 1..]));
    }
  }

  /** One turn outside literals: a space or a stray slash goes, a literal starts, or a character stays. */
  lemma TextTurn(w: string, s: string, i: nat)
    requires i < |s|
    ensures IsSpace(s[i]) || (s[i] == '/' && !Comment(s, i)) ==> TextFrom(s, i) == TextFrom(s, i + 1)
    ensures s[i] == QUOTE ==> w + TextFrom(s, i) == (w + [QUOTE]) + StringFrom(s, i + 1)
    ensures !IsSpace(s[i]) && s[i] != '/' && s[i] != QUOTE ==> w + TextFrom(s, i) == (w + [s[i]]) + TextFrom(s, i + 1)
  {
    SuffixStep(s, i);
    if s[i] == QUOTE {
      Join(w, [QUOTE], MinifiedString(s[i + 1..]));
    } else {
      Join(w, [s[i]], Minified(s[i + 1..]));
    }
  }

  predicate Comment(s: string, i: nat) {
    i + 1 < |s| && s[i] == '/' && (s[i + 1] == '/' || s[i + 1] == '*')
  }

  /** One turn outside literals: a comment goes as a whole. */
  lemma CommentTurn(s: string, i: nat)
    requires Comment(s, i)
    ensures TextFrom(s, i) == Minified(if s[i + 1] == '/' then AfterLine(s[i + 2..]) else AfterBlock(s[i + 2..]))
  {
    SuffixStep(s, i);
  }

  lemma LineTurn(s: string, i: nat)
    requires i <= |s|
    ensures AfterLine(s[i..]) == if i == |s| then [] else if s[i] == NEWLINE then s[i + 1..] else AfterLine(s[i + 1..])
  {
    if i < |s| {
      SuffixStep(s, i);
    }
  }

  lemma BlockTurn(s: string, i: nat)
    requires i <= |s|
    ensures AfterBlock(s[i..])
      == if i == |s| then []
         else if i + 1 < |s| && s[i] == '*' && s[i + 1] == '/' then s[i + 2..]
         else AfterBlock(s[i + 1..])
  {
    if i < |s| {
      SuffixStep(s, i);
    }
  }

  class Minifier {
    const text: array<char>
    var json: nat
    var into: nat
    /** The text as it was, without its terminator. */
    ghost const original: string

    constructor (text: array<char>)
      requires text.Length > 0 && text[text.Length - 1] == NUL && NUL !in text[..text.Length - 1]
      ensures this.text == text && original == text[..text.Length - 1]
      ensures json == 0 && into == 0 && Valid()
    {
      this.text := text;
      json, into := 0, 0;
      original := text[..text.Length - 1];
    }

    /** The output never passes the input: what is still to be read is untouched. */
    ghost predicate Valid()
      reads this, text
    {
      && into <= json <= |original| && text.Length == |original| + 1
      && (forall k | 0 <= k < |original| :: original[k] != NUL)
      && (forall k | json <= k < |original| :: text[k] == original[k]) && text[|original|] == NUL
    }

    ghost function Written(): string
      reads this, text
      requires Valid()
    {
      text[..into]
    }

    /** skip_oneline_comment */
    method SkipOneLine()
      requires Valid() && json + 2 <= |original|
      modifies `json
      ensures Valid() && old(json) < json && into == old(into)
      ensures original[json..] == AfterLine(original[old(json) + 2..])
    {
      hide AfterLine;
      ghost var goal := AfterLine(original[json + 2..]);
      json := json + 2;
      while text[json] != NUL
        invariant Valid() && old(json) < json && into == old(into) && AfterLine(original[json..]) == goal
        decreases |original| - json
      {
        LineTurn(original, json);
        if text[json] == NEWLINE {
          json := json + 1;
          return;
        }
        json := json + 1;
      }
      LineTurn(original, json);
    }

    /** skip_multiline_comment */
    method SkipMultiLine()
      requires Valid() && json + 2 <= |original|
      modifies `json
      ensures Valid() && old(json) < json && into == old(into)
      ensures original[json..] == AfterBlock(original[old(json) + 2..])
    {
      hide AfterBlock;
      ghost var goal := AfterBlock(original[json + 2..]);
      json := json + 2;
      while text[json] != NUL
        invariant Valid() && old(json) < json && into == old(into) && AfterBlock(original[json..]) == goal
        decreases |original| - json
      {
        BlockTurn(original, json);
        if text[json] == '*' && text[json + 1] == '/' {
          json := json + 2;
          return;
        }
        json := json + 1;
      }
      BlockTurn(original, json);
    }

    /** One character copied back, both positions moved. */
    method CopyOne()
      requires Valid() && json < |original|
      modifies `json, `into, text
      ensures Valid() && json == old(json) + 1 && Written() == old(Written()) + [original[old(json)]]
    {
      text[into] := text[json];
      json, into := json + 1, into + 1;
    }

    /** An escaped quote copied back. */
    method CopyTwo()
      requires Valid() && json + 1 < |original|
      modifies `json, `into, text
      ensures Valid() && json == old(json) + 2
      ensures Written() == (old(Written()) + [original[old(json)]]) + [original[old(json) + 1]]
    {
      CopyOne();
      CopyOne();
    }

    /** minify_string */
    method CopyString()
      requires Valid() && json < |original| && original[json] == QUOTE
      modifies `json, `into, text
      ensures Valid() && json > old(json)
      ensures Written() + TextFrom(original, json) == old(Written()) + TextFrom(original, old(json))
    {
      hide TextFrom, StringFrom, Written;
      ghost var goal := Written() + TextFrom(original, json);
      TextTurn(Written(), original, json);
      CopyOne();
      while text[json] != NUL
        invariant Valid() && json > old(json)
        invariant Written() + StringFrom(original, json) == goal
        decreases |original| - json
      {
        StringTurn(Written(), original, json);
        if text[json] == QUOTE {
          CopyOne();
          return;
        }
        if text[json] == BACKSLASH && text[json + 1] == QUOTE {
          CopyTwo();
        } else {
          CopyOne();
        }
      }
      NothingLeft(original, json);
    }

    /** The branches of cJSON_Minify for the two kinds of comments. */
    method SkipComment(block: bool)
      requires Valid() && Comment(original, json) && (block <==> original[json + 1] == '*')
      modifies `json
      ensures Valid() && json > old(json) && into == old(into)
      ensures TextFrom(original, json) == TextFrom(original, old(json))
    {
      hide Minified, AfterLine, AfterBlock;
      CommentTurn(original, json);
      if block {
        SkipMultiLine();
      } else {
        SkipOneLine();
      }
    }

    /** The loop of cJSON_Minify and its terminator. */
    method Run()
      requires Valid() && json == 0 && into == 0
      modifies this, text
      ensures into < text.Length && text[..into] == Minified(original) && text[into] == NUL
    {
      hide Minified, TextFrom, StringFrom, AfterLine, AfterBlock;
      WholeText(original);
      while text[json] != NUL
        invariant Valid() && Written() + TextFrom(original, json) == Minified(original)
        decreases |original| - json
      {
        TextTurn(Written(), original, json);
        if IsSpace(text[json]) {
          json := json + 1;
        } else if text[json] == '/' {
          if text[json + 1] == '/' {
            SkipComment(false);
          } else if text[json + 1] == '*' {
            SkipComment(true);
          } else {
            json := json + 1;
          }
        } else if text[json] == QUOTE {
          CopyString();
        } else {
          CopyOne();
        }
      }
      NothingLeft(original, json);
      text[into] := NUL;
    }
  }

  lemma WholeText(s: string)
    ensures TextFrom(s, 0) == Minified(s) && [] + TextFrom(s, 0) == TextFrom(s, 0)
  {
    assert s[0..] == s;
  }

  lemma NothingLeft(s: string, i: nat)
    requires i == |s|
    ensures TextFrom(s, i) == [] == StringFrom(s, i)
  {
  }
}
