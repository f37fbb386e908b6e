/** Minifying a text that the parser accepts does not change what it parses to. */
module MinifyParse {
  import opened Text
  import opened JsonTree
  import opened Render
  import opened Utf8
  import opened ParseText
  import opened StringLiteral
  import opened JsonGrammar
  import opened ParseRoundTrip
  import opened Minify

  /** How many backslashes stand directly in front of position i. */
  function Backslashes(s: string, i: nat): nat
    requires i <= |s|
  {
    if i > 0 && s[i - 1] == BACKSLASH then 1 + Backslashes(s, i - 1) else 0
  }

  /** No quote behind an even number of backslashes, unless there are none: no literal ends in an escaped backslash. */
  predicate EndsPlain(s: string) {
    forall i | 0 <= i < |s| && s[i] == QUOTE :: Backslashes(s, i) == 0 || Backslashes(s, i) % 2 == 1
  }

  /** Reading s from o on, outside literals, and its minified form m from p on. */
  predicate Corr(s: string, m: string, o: nat, p: nat) {
    o <= |s| && p <= |m| && m[p..] == Minified(s[o..]) + [NUL]
  }

  /** The buffer of a C string. */
  function Buffer(s: string): string { s + [NUL] }

  predicate Plain(c: char) { !IsSpace(c) && c != '/' && c != QUOTE }

  // ---- one character ----

  lemma Drop(m: string, p: nat, c: char, rest: string)
    requires p <= |m| && m[p..] == [c] + rest
    ensures p < |m| && m[p] == c && m[p + 1..] == rest
  {
    assert m[p..][0] == c && m[p..][1..] == rest;
  }

  lemma PlainStep(s: string, m: string, o: nat, p: nat)
    requires Corr(s, m, o, p) && o < |s| && Plain(s[o])
    ensures p < |m| && m[p] == s[o] && Corr(s, m, o + 1, p + 1)
  {
    SuffixStep(s, o);
    assert Minified(s[o..]) == [s[o]] + Minified(s[o + 1..]);
    hide Minified;
    assert m[p..] == [s[o]] + (Minified(s[o + 1..]) + [NUL]);
    Drop(m, p, s[o], Minified(s[o + 1..]) + [NUL]);
  }

  lemma SpaceStep(s: string, m: string, o: nat, p: nat)
    requires Corr(s, m, o, p) && o < |s| && IsSpace(s[o])
    ensures Corr(s, m, o + 1, p)
  {
    SuffixStep(s, o);
  }

  lemma EndStep(s: string, m: string, p: nat)
    requires Corr(s, m, |s|, p)
    ensures p == |m| - 1 && m[p] == NUL
  {
    assert Minified([]) + [NUL] == [NUL] && s[|s|..] == [];
    assert m[p..][0] == NUL;
  }

  lemma {:induction false} PlainRun(s: string, m: string, o: nat, e: nat, p: nat)
    requires Corr(s, m, o, p) && o <= e <= |s| && forall i | o <= i < e :: Plain(s[i])
    ensures p + (e - o) <= |m| && m[p..p + (e - o)] == s[o..e] && Corr(s, m, e, p + (e - o))
    decreases e - o
  {
    hide Corr;
    if o < e {
      PlainStep(s, m, o, p);
      PlainRun(s, m, o + 1, e, p + 1);
      assert m[p..p + (e - o)] == [m[p]] + m[p + 1..p + (e - o)];
      assert s[o..e] == [s[o]] + s[o + 1..e];
    } else {
      CorrBounds(s, m, o, p);
    }
  }

  lemma CorrBounds(s: string, m: string, o: nat, p: nat)
    requires Corr(s, m, o, p)
    ensures o <= |s| && p < |m|
  {
  }

  // ---- white space ----

  /** Blanks up to a: those that are not removed are still blanks. */
  lemma {:induction false} BlankRun(s: string, m: string, o: nat, a: nat, p: nat) returns (b: nat)
    requires Corr(s, m, o, p) && o <= a <= |s| && forall i | o <= i < a :: IsBlank(s[i])
    ensures p <= b < |m| && Corr(s, m, a, b) && Blank(m, p, b)
    decreases a - o
  {
    hide Corr;
    if o == a {
      CorrBounds(s, m, o, p);
      b := p;
    } else if IsSpace(s[o]) {
      SpaceStep(s, m, o, p);
      b := BlankRun(s, m, o + 1, a, p);
    } else {
      PlainStep(s, m, o, p);
      b := BlankRun(s, m, o + 1, a, p + 1);
    }
  }

  /** Skipping blanks up to a character that stays. */
  lemma SkipSim(s: string, m: string, o: nat, p: nat) returns (b: nat)
    requires Corr(s, m, o, p)
    requires var t := Buffer(s); var a := SkipBlank(t, o); a < |s| && !IsBlank(t[a]) && t[a] != '/'
    ensures Corr(s, m, SkipBlank(Buffer(s), o), b) && SkipBlank(m, p) == b && p <= b < |m|
    ensures m[b] == s[SkipBlank(Buffer(s), o)] && Blank(m, p, b)
  {
    var t := Buffer(s);
    var a := SkipBlank(t, o);
    forall i | o <= i < a ensures IsBlank(s[i]) {
      assert t[i] == s[i];
    }
    b := BlankRun(s, m, o, a, p);
    assert t[a] == s[a];
    StaysFirst(s, m, a, b);
    SkipTo(m, p, b);
  }

  /** The next character outside literals, when it is neither a space nor a slash. */
  lemma StaysFirst(s: string, m: string, o: nat, p: nat)
    requires Corr(s, m, o, p) && o < |s| && !IsSpace(s[o]) && s[o] != '/'
    ensures p < |m| && m[p] == s[o]
  {
    SuffixStep(s, o);
    var rest := if s[o] == QUOTE then MinifiedString(s[o + 1..]) else Minified(s[o + 1..]);
    assert Minified(s[o..]) == [s[o]] + rest;
    hide Minified, MinifiedString;
    assert m[p..][0] == s[o];
  }

  /** Only blanks up to the terminator. */
  lemma EndSim(s: string, m: string, o: nat, p: nat)
    requires Corr(s, m, o, p) && Blank(Buffer(s), o, |s| + 1)
    ensures p < |m| && Blank(m, p, |m|) && SkipBlank(m, p) == |m| - 1 && m[|m| - 1] == NUL
  {
    var t := Buffer(s);
    forall i | o <= i < |s| ensures IsBlank(s[i]) {
      assert t[i] == s[i];
    }
    var b := BlankRun(s, m, o, |s|, p);
    EndStep(s, m, b);
    BlankAll(m, p);
  }

  lemma {:induction false} BlankAll(m: string, p: nat)
    requires Blank(m, p, |m|)
    ensures BlankEnd(m, p) == |m|
    decreases |m| - p
  {
    if p < |m| {
      BlankAll(m, p + 1);
    }
  }

  // ---- string literals ----

  lemma NoQuoteAtEnd(s: string)
    ensures ClosingQuote(Buffer(s), |s|).None? && ClosingQuote(Buffer(s), |s| + 1).None?
  {
    var t := Buffer(s);
    assert t[|s|] == NUL && ClosingQuote(t, |s| + 1).None?;
  }

  /** What minify_string makes of the text behind a literal that closes at end. */
  function AfterLiteral(s: string, i: nat, end: nat): string
    requires i <= end < |s|
  {
    if i < end && s[end - 1] == BACKSLASH then MinifiedString(s[end + 1..]) else Minified(s[end + 1..])
  }

  /**
   * Everything up to the quote that the parser finds is copied. What follows is taken for the inside
   * of a string exactly when the literal ends in a backslash, which the parser knows to be escaped.
   */
  lemma {:induction false} LiteralCopied(s: string, i: nat, end: nat)
    requires i <= |s| && ClosingQuote(Buffer(s), i) == Some(end)
    ensures i <= end < |s| && MinifiedString(s[i..]) == s[i..end + 1] + AfterLiteral(s, i, end)
    decreases |s| - i
  {
    var t := Buffer(s);
    NoQuoteAtEnd(s);
    SuffixStep(s, i);
    assert t[i] == s[i];
    if s[i] == QUOTE {
      assert s[i..i + 1] == [QUOTE];
    } else if s[i] == BACKSLASH {
      EscapeCopied(s, i, end);
    } else {
      LiteralCopied(s, i + 1, end);
      CopiedMore(s, i, 1, end, AfterLiteral(s, i, end));
    }
  }

  lemma {:induction false} EscapeCopied(s: string, i: nat, end: nat)
    requires i < |s| && s[i] == BACKSLASH && ClosingQuote(Buffer(s), i) == Some(end)
    ensures i <= end < |s| && MinifiedString(s[i..]) == s[i..end + 1] + AfterLiteral(s, i, end)
    decreases |s| - i, 0
  {
    var t := Buffer(s);
    assert t[i] == s[i] && ClosingQuote(t, i) == ClosingQuote(t, i + 2);
    NoQuoteAtEnd(s);
    if s[i + 1] == BACKSLASH && s[i + 2] == QUOTE {
      assert t[i + 2] == QUOTE;
      EscapedBackslash(s, i);
    } else {
      LiteralCopied(s, i + 2, end);
      hide ClosingQuote;
      EscapeStep(s, i);
      CopiedMore(s, i, 2, end, AfterLiteral(s, i, end));
    }
  }

  /** A literal that ends in an escaped backslash is run past its end. */
  lemma EscapedBackslash(s: string, i: nat)
    requires i + 2 < |s| && s[i] == s[i + 1] == BACKSLASH && s[i + 2] == QUOTE
    ensures MinifiedString(s[i..]) == s[i..i + 3] + MinifiedString(s[i + 3..])
  {
    SuffixStep(s, i);
    SuffixStep(s, i + 1);
    assert MinifiedString(s[i..]) == [BACKSLASH] + ([BACKSLASH, QUOTE] + MinifiedString(s[i + 3..]));
    assert s[i..i + 3] == [BACKSLASH] + [BACKSLASH, QUOTE];
  }

  /** Any other escape is copied. */
  lemma EscapeStep(s: string, i: nat)
    requires i + 1 < |s| && s[i] == BACKSLASH
    requires s[i + 1] == BACKSLASH ==> i + 2 < |s| && s[i + 2] != QUOTE
    ensures MinifiedString(s[i..]) == s[i..i + 2] + MinifiedString(s[i + 2..])
  {
    SuffixStep(s, i);
    SuffixStep(s, i + 1);
    assert s[i..i + 2] == [BACKSLASH, s[i + 1]] == [BACKSLASH] + [s[i + 1]];
    if s[i + 1] != QUOTE {
      assert MinifiedString(s[i..]) == [BACKSLASH] + ([s[i + 1]] + MinifiedString(s[i + 2..]));
    }
  }

  lemma CopiedMore(s: string, i: nat, k: nat, end: nat, rest: string)
    requires i + k <= end < |s|
    ensures s[i..i + k] + (s[i + k..end + 1] + rest) == s[i..end + 1] + rest
    ensures k == 1 ==> s[i..i + k] == [s[i]]
  {
    assert s[i..end + 1] == s[i..i + k] + s[i + k..end + 1];
  }

  /** Where the parser is not behind a backslash, the backslashes in front of a literal's end come in pairs. */
  lemma {:induction false} ClosedPlain(s: string, i: nat, end: nat)
    requires EndsPlain(s) && i <= end < |s| && ClosingQuote(Buffer(s), i) == Some(end) && Backslashes(s, i) % 2 == 0
    ensures Backslashes(s, end) == 0
    decreases |s| - i
  {
    var t := Buffer(s);
    assert t[i] == s[i];
    if s[i] == BACKSLASH {
      assert ClosingQuote(t, i) == ClosingQuote(t, i + 2);
      assert Backslashes(s, i + 1) == 1 + Backslashes(s, i);
      assert Backslashes(s, i + 2) == if s[i + 1] == BACKSLASH then 1 + Backslashes(s, i + 1) else 0;
      ClosedPlain(s, i + 2, end);
    } else if s[i] != QUOTE {
      ClosedPlain(s, i + 1, end);
    }
  }

  lemma StringCopied(s: string, o: nat, end: nat)
    requires EndsPlain(s) && o < |s| && s[o] == QUOTE && ClosingQuote(Buffer(s), o + 1) == Some(end)
    ensures o < end < |s| && MinifiedString(s[o + 1..]) == s[o + 1..end + 1] + Minified(s[end + 1..])
  {
    hide ClosingQuote, EndsPlain, Minified, MinifiedString;
    LiteralCopied(s, o + 1, end);
    assert Backslashes(s, o + 1) == 0;
    ClosedPlain(s, o + 1, end);
  }

  // ---- the parsers of tokens depend only on the token ----

  /** The same characters at o in t and at p in m. */
  predicate Same(t: string, o: nat, m: string, p: nat, n: nat) {
    o + n <= |t| && p + n <= |m| && forall i {:trigger t[i]} | o <= i < o + n :: t[i] == m[p + (i - o)]
  }

  lemma SameSlices(t: string, o: nat, m: string, p: nat, n: nat)
    requires o + n <= |t| && p + n <= |m| && t[o..o + n] == m[p..p + n]
    ensures Same(t, o, m, p, n)
  {
    forall i | o <= i < o + n ensures t[i] == m[p + (i - o)] {
      assert t[o..o + n][i - o] == m[p..p + n][i - o];
    }
  }

  lemma SameFrom(t: string, o: nat, m: string, p: nat, n: nat, k: nat)
    requires Same(t, o, m, p, n) && k <= n
    ensures Same(t, o + k, m, p + k, n - k)
  {
  }

  lemma SameSlice(t: string, o: nat, m: string, p: nat, n: nat, a: nat, b: nat)
    requires Same(t, o, m, p, n) && a <= b <= n
    ensures t[o + a..o + b] == m[p + a..p + b]
  {
    var x, y := t[o + a..o + b], m[p + a..p + b];
    forall i | 0 <= i < b - a ensures x[i] == y[i] {
      assert t[o + a + i] == m[p + (a + i)];
    }
  }

  lemma {:induction false} QuoteSame(t: string, o: nat, m: string, p: nat, n: nat)
    requires Same(t, o, m, p, n + 1) && ClosingQuote(t, o) == Some(o + n)
    ensures ClosingQuote(m, p) == Some(p + n)
    decreases n
  {
    assert t[o] == m[p];
    if n > 0 {
      var k := if t[o] == BACKSLASH then 2 else 1;
      SameFrom(t, o, m, p, n + 1, k);
      QuoteSame(t, o + k, m, p + k, n - k);
    }
  }

  lemma LiteralSame(t: string, o: nat, m: string, p: nat, n: nat)
    requires Same(t, o, m, p, n)
    ensures Literal(t, o, o + n).Some? == Literal(m, p, p + n).Some?
    ensures Literal(t, o, o + n) == Literal(m, p, p + n)
  {
    hide Hex4;
    if n >= 6 {
      SameSlice(t, o, m, p, n, 2, 6);
      if n >= 12 {
        assert t[o + 6] == m[p + 6] && t[o + 7] == m[p + 7];
        SameSlice(t, o, m, p, n, 8, 12);
      }
    }
  }

  lemma StepSame(t: string, o: nat, m: string, p: nat, n: nat)
    requires Same(t, o, m, p, n + 1) && 0 < n && o + n < |t| && p + n < |m|
    requires DecodeStep(t, o, o + n).Some?
    ensures DecodeStep(m, p, p + n).Some?
    ensures var (bytes, next) := DecodeStep(t, o, o + n).value;
      DecodeStep(m, p, p + n) == Some((bytes, p + (next - o)))
  {
    hide Literal, Bytes;
    assert t[o] == m[p] && t[o + 1] == m[p + 1];
    SameFewer(t, o, m, p, n + 1, n);
    LiteralSame(t, o, m, p, n);
  }

  lemma SameFewer(t: string, o: nat, m: string, p: nat, n: nat, k: nat)
    requires Same(t, o, m, p, n) && k <= n
    ensures Same(t, o, m, p, k)
  {
  }

  lemma {:induction false} DecodeSame(t: string, o: nat, end: nat, m: string, p: nat, end': nat)
    requires o <= end + 1 && end < |t| && end' < |m| && end - o == end' - p
    requires (o <= end ==> Same(t, o, m, p, end - o + 1))
    requires Decode(t, o, end).Ok?
    ensures Decode(m, p, end').Ok? && Decode(m, p, end').value == Decode(t, o, end).value
    decreases end + 1 - o
  {
    hide DecodeStep;
    if o < end {
      StepSame(t, o, m, p, end - o);
      var (bytes, next) := DecodeStep(t, o, end).value;
      if next <= end {
        SameFrom(t, o, m, p, end - o + 1, next - o);
      }
      DecodeSame(t, next, end, m, p + (next - o), end');
    }
  }

  /** parse_string looks at nothing but the literal. */
  lemma StringSame(t: string, o: nat, m: string, p: nat, e: nat)
    requires o < |t| && ParseString(t, o).Ok? && ParseString(t, o).end == e && e <= |t|
    requires Same(t, o, m, p, e - o)
    ensures p < |m| && ParseString(m, p) == Ok(ParseString(t, o).value, p + (e - o))
  {
    hide Decode, ClosingQuote;
    var end := ClosingQuote(t, o + 1).value;
    assert t[o] == m[p];
    SameFrom(t, o, m, p, e - o, 1);
    QuoteSame(t, o + 1, m, p + 1, end - (o + 1));
    DecodeSame(t, o + 1, end, m, p + 1, p + (end - o));
  }

  /** parse_number looks at nothing but the run of numeral characters. */
  lemma NumberSame(t: string, o: nat, m: string, p: nat, e: nat)
    requires o <= |t| && NumberEnd(t, o) == e && Same(t, o, m, p, e - o) && Delimited(m, p + (e - o))
    requires ParseNumber(t, o).Ok?
    ensures ParseNumber(m, p) == Ok(ParseNumber(t, o).value, p + (ParseNumber(t, o).end - o))
  {
    hide Strtod;
    forall i | p <= i < p + (e - o) ensures IsNumberChar(m[i]) {
      assert t[o + (i - p)] == m[i];
    }
    NumberEndIs(m, p, p + (e - o));
    SameSlice(t, o, m, p, e - o, 0, e - o);
  }

  // ---- the two parses, step by step ----

  /** What must follow a value in an accepted text: a comma, a closing bracket, or only blanks. */
  predicate Follows(t: string, e: nat) {
    && e <= |t|
    && var c := SkipBlank(t, e);
       Sees(t, c, ',') || Sees(t, c, ']') || Sees(t, c, '}') || Blank(t, e, |t|)
  }

  lemma FollowsDelimited(t: string, e: nat)
    requires Follows(t, e)
    ensures Delimited(t, e)
  {
  }

  /** Behind the value, the minified text does not continue a number either. */
  lemma FollowSim(s: string, m: string, e: nat, p: nat)
    requires Corr(s, m, e, p) && Follows(Buffer(s), e)
    ensures Delimited(m, p)
  {
    hide Corr;
    var t := Buffer(s);
    var c := SkipBlank(t, e);
    if Blank(t, e, |t|) {
      EndSim(s, m, e, p);
    } else {
      assert t[c] == s[c];
      var b := SkipSim(s, m, e, p);
    }
  }

  lemma WordSim(s: string, m: string, o: nat, p: nat, word: string)
    requires Corr(s, m, o, p) && Reads(Buffer(s), o, word)
    requires forall i | 0 <= i < |word| :: Plain(word[i]) && word[i] != NUL
    ensures Reads(m, p, word) && Corr(s, m, o + |word|, p + |word|)
  {
    hide Corr;
    var t := Buffer(s);
    forall i | o <= i < o + |word| ensures i < |s| && Plain(s[i]) {
      ReadsAt(t, o, word, i - o);
    }
    CorrBounds(s, m, o, p);
    if word != [] {
      ReadsAt(t, o, word, |word| - 1);
      assert t[|s|] == NUL;
    }
    assert o + |word| <= |s|;
    PlainRun(s, m, o, o + |word|, p);
    assert s[o..o + |word|] == t[o..o + |word|];
  }

  /** Text that stands unchanged in the minified text. */
  lemma KeptSame(s: string, o: nat, e: nat, m: string, p: nat)
    requires o <= e <= |s| && p + (e - o) <= |m| && m[p..p + (e - o)] == s[o..e]
    ensures Same(Buffer(s), o, m, p, e - o)
    ensures o < e ==> m[p] == s[o]
  {
    assert Buffer(s)[o..e] == s[o..e];
    SameSlices(Buffer(s), o, m, p, e - o);
    assert o < e ==> m[p] == m[p..p + (e - o)][0];
  }

  lemma StringClosed(t: string, o: nat)
    requires o < |t| && ParseString(t, o).Ok?
    ensures ParseString(t, o).end > 0 && ClosingQuote(t, o + 1) == Some(ParseString(t, o).end - 1)
  {
    hide Decode, ClosingQuote, CString;
  }

  lemma StringSim(s: string, m: string, o: nat, p: nat) returns (p': nat)
    requires Corr(s, m, o, p) && EndsPlain(s) && Sees(Buffer(s), o, QUOTE) && ParseString(Buffer(s), o).Ok?
    ensures p < |m| && m[p] == QUOTE && o < |s|
    ensures ParseString(m, p) == Ok(ParseString(Buffer(s), o).value, p')
    ensures Corr(s, m, ParseString(Buffer(s), o).end, p')
  {
    hide ParseString, ClosingQuote, Corr, EndsPlain, Same;
    var t := Buffer(s);
    assert o < |s| && s[o] == QUOTE;
    StringClosed(t, o);
    var e := ParseString(t, o).end;
    p' := p + (e - o);
    StringCopied(s, o, e - 1);
    LiteralKept(s, m, o, p, e - 1);
    KeptSame(s, o, e, m, p);
    StringSame(t, o, m, p, e);
  }

  /** A literal from o to end stands unchanged in the minified text. */
  lemma LiteralKept(s: string, m: string, o: nat, p: nat, end: nat)
    requires Corr(s, m, o, p) && o < end < |s| && s[o] == QUOTE
    requires MinifiedString(s[o + 1..]) == s[o + 1..end + 1] + Minified(s[end + 1..])
    ensures p + (end + 1 - o) <= |m| && m[p..p + (end + 1 - o)] == s[o..end + 1]
    ensures Corr(s, m, end + 1, p + (end + 1 - o))
  {
    hide Minified, MinifiedString;
    var rest := Minified(s[end + 1..]) + [NUL];
    LiteralInside(s, o, end);
    assert m[p..] == s[o..end + 1] + rest;
    Prefix(m, p, s[o..end + 1], rest);
  }

  lemma LiteralInside(s: string, o: nat, end: nat)
    requires o < end < |s| && s[o] == QUOTE
    requires MinifiedString(s[o + 1..]) == s[o + 1..end + 1] + Minified(s[end + 1..])
    ensures Minified(s[o..]) == s[o..end + 1] + Minified(s[end + 1..])
  {
    SuffixStep(s, o);
    assert Minified(s[o..]) == [QUOTE] + MinifiedString(s[o + 1..]);
    hide Minified, MinifiedString;
    assert s[o..end + 1] == [QUOTE] + s[o + 1..end + 1];
  }

  lemma Prefix(m: string, p: nat, a: string, b: string)
    requires p <= |m| && m[p..] == a + b
    ensures p + |a| <= |m| && m[p..p + |a|] == a && m[p + |a|..] == b
  {
    assert m[p..p + |a|] == m[p..][..|a|];
    assert m[p + |a|..] == m[p..][|a|..];
  }

  lemma NumberSpan(s: string, o: nat) returns (e: nat)
    requires o <= |s| && ParseNumber(Buffer(s), o).Ok? && Delimited(Buffer(s), ParseNumber(Buffer(s), o).end)
    ensures e == ParseNumber(Buffer(s), o).end == NumberEnd(Buffer(s), o) && o < e <= |s|
    ensures forall i | o <= i < e :: Plain(s[i])
  {
    hide Strtod;
    var t := Buffer(s);
    e := NumberEnd(t, o);
    assert e == ParseNumber(t, o).end;
    assert IsNumberChar(t[e - 1]) && t[|s|] == NUL;
    forall i | o <= i < e ensures Plain(s[i]) {
      assert IsNumberChar(t[i]);
    }
  }

  lemma NumberSim(s: string, m: string, o: nat, p: nat) returns (p': nat)
    requires Corr(s, m, o, p) && ParseNumber(Buffer(s), o).Ok? && Follows(Buffer(s), ParseNumber(Buffer(s), o).end)
    ensures ParseNumber(m, p) == Ok(ParseNumber(Buffer(s), o).value, p')
    ensures Corr(s, m, ParseNumber(Buffer(s), o).end, p')
  {
    hide ParseNumber, Follows, Corr, Same, Delimited;
    var t := Buffer(s);
    CorrBounds(s, m, o, p);
    FollowsDelimited(t, ParseNumber(t, o).end);
    var e := NumberSpan(s, o);
    p' := p + (e - o);
    PlainRun(s, m, o, e, p);
    FollowSim(s, m, e, p');
    KeptSame(s, o, e, m, p);
    NumberSame(t, o, m, p, e);
  }

  /** A value that is accepted starts with one of these. */
  predicate Starts(c: char) {
    c == 'n' || c == 'f' || c == 't' || c == QUOTE || c == '-' || IsDigit(c) || c == '[' || c == '{'
  }

  lemma ValueStarts(t: string, o: nat, depth: nat)
    requires o <= |t| && ParseValue(t, o, depth).Ok?
    ensures o < |t| && Starts(t[o])
  {
    hide ParseString, ParseNumber, ParseArray, ParseObject;
    if Reads(t, o, "null") {
      ReadsAt(t, o, "null", 0);
    } else if Reads(t, o, "false") {
      ReadsAt(t, o, "false", 0);
    } else if Reads(t, o, "true") {
      ReadsAt(t, o, "true", 0);
    }
  }

  lemma {:induction false} ValueSim(s: string, m: string, o: nat, p: nat, depth: nat) returns (p': nat)
    requires NulFree(s) && EndsPlain(s) && Corr(s, m, o, p)
    requires ParseValue(Buffer(s), o, depth).Ok? && Follows(Buffer(s), ParseValue(Buffer(s), o, depth).end)
    ensures ParseValue(m, p, depth) == Ok(ParseValue(Buffer(s), o, depth).value, p')
    ensures Corr(s, m, ParseValue(Buffer(s), o, depth).end, p')
    decreases |s| - o, 4
  {
    hide Corr, ParseString, ParseNumber, ParseArray, ParseObject, Follows, EndsPlain;
    var t := Buffer(s);
    ValueStarts(t, o, depth);
    assert t[o] == s[o];
    StaysFirst(s, m, o, p);
    var c := s[o];
    if c != 'n' && c != 'f' && c != 't' {
      Dispatch(t, o, c, depth);
      Dispatch(m, p, c, depth);
    }
    if Reads(t, o, "null") {
      WordSim(s, m, o, p, "null");
      p' := p + 4;
    } else if Reads(t, o, "false") {
      WordSim(s, m, o, p, "false");
      ReadsAt(t, o, "false", 0);
      NotWord(m, p, "null", c);
      p' := p + 5;
    } else if Reads(t, o, "true") {
      WordSim(s, m, o, p, "true");
      ReadsAt(t, o, "true", 0);
      NotWord(m, p, "null", c);
      NotWord(m, p, "false", c);
      p' := p + 4;
    } else if c == QUOTE {
      p' := StringSim(s, m, o, p);
    } else if c == '-' || IsDigit(c) {
      p' := NumberSim(s, m, o, p);
    } else if c == '[' {
      p' := ArraySim(s, m, o, p, depth);
    } else {
      p' := ObjectSim(s, m, o, p, depth);
    }
  }

  // ---- arrays ----

  /** What one turn of the element loop read in an accepted text. */
  lemma ElementsTurn(t: string, q: nat, depth: nat) returns (a: nat, b: nat, c: nat)
    requires q < |t| && ParseElements(t, q, depth).Ok?
    ensures a == SkipBlank(t, q + 1) && ParseValue(t, a, depth).Ok? && b == ParseValue(t, a, depth).end
    ensures c == SkipBlank(t, b) && q < c && (Sees(t, c, ',') || Sees(t, c, ']')) && Follows(t, b)
    ensures var v := ParseValue(t, a, depth).value; var r := ParseElements(t, q, depth);
      if Sees(t, c, ',') then
        ParseElements(t, c, depth).Ok?
        && r == Ok([v] + ParseElements(t, c, depth).value, ParseElements(t, c, depth).end)
      else r == Ok([v], c + 1)
  {
    hide ParseValue;
    a := SkipBlank(t, q + 1);
    b := ParseValue(t, a, depth).end;
    c := SkipBlank(t, b);
  }

  lemma {:induction false} ElementsSim(s: string, m: string, q: nat, p: nat, depth: nat) returns (p': nat)
    requires NulFree(s) && EndsPlain(s) && q < |s| && p < |m| && Corr(s, m, q + 1, p + 1)
    requires ParseElements(Buffer(s), q, depth).Ok?
    ensures ParseElements(m, p, depth) == Ok(ParseElements(Buffer(s), q, depth).value, p')
    ensures Corr(s, m, ParseElements(Buffer(s), q, depth).end, p')
    decreases |s| - q, 2
  {
    hide Corr, ParseValue, ParseElements, Follows, SkipBlank;
    var t := Buffer(s);
    var a, b, c := ElementsTurn(t, q, depth);
    ValueStarts(t, a, depth);
    SkipBounds(t, q + 1);
    SkipBounds(t, b);
    assert t[a] == s[a] && t[c] == s[c];
    var a' := SkipSim(s, m, q + 1, p + 1);
    var b' := ValueSim(s, m, a, a', depth);
    var c' := SkipSim(s, m, b, b');
    PlainStep(s, m, c, c');
    var v := ParseValue(t, a, depth).value;
    if Sees(t, c, ',') {
      p' := ElementsSim(s, m, c, c', depth);
      ElementsMore(m, p, depth, a', b', c', v, true, ParseElements(t, c, depth).value, true, p');
    } else {
      p' := c' + 1;
      ElementsLast(m, p, depth, a', b', c', v, true);
    }
  }

  lemma SkipBounds(t: string, o: nat)
    requires o <= |t|
    ensures o <= SkipBlank(t, o) <= |t|
  {
  }

  lemma SkipTwice(t: string, o: nat)
    requires o <= |t|
    ensures SkipBlank(t, SkipBlank(t, o)) == SkipBlank(t, o)
  {
    var p := SkipBlank(t, o);
    if p < |t| && IsBlank(t[p]) {
      assert p + 1 == |t| && BlankEnd(t, p + 1) == |t|;
    }
  }

  /** What an accepted array is: empty, or elements read from its bracket on. */
  lemma ArrayTurn(t: string, o: nat, depth: nat) returns (a: nat)
    requires o < |t| && ParseArray(t, o, depth).Ok?
    ensures depth < CJSON_NESTING_LIMIT && a == SkipBlank(t, o + 1) && a < |t|
    ensures Sees(t, a, ']') ==> ParseArray(t, o, depth) == Ok(Array([]), a + 1)
    ensures !Sees(t, a, ']') ==> ParseArray(t, o, depth) == AsArray(ParseElements(t, o, depth + 1))
  {
    hide ParseValue;
    a := SkipBlank(t, o + 1);
    SkipTwice(t, o + 1);
    if !Sees(t, a, ']') && a < |t| {
      assert ParseElements(t, a - 1, depth + 1) == ParseElements(t, o, depth + 1);
    }
  }

  lemma {:induction false} ArraySim(s: string, m: string, o: nat, p: nat, depth: nat) returns (p': nat)
    requires NulFree(s) && EndsPlain(s) && Corr(s, m, o, p) && o < |s| && s[o] == '['
    requires ParseArray(Buffer(s), o, depth).Ok?
    ensures p < |m| && ParseArray(m, p, depth) == Ok(ParseArray(Buffer(s), o, depth).value, p')
    ensures Corr(s, m, ParseArray(Buffer(s), o, depth).end, p')
    decreases |s| - o, 3
  {
    hide Corr, ParseElements, SkipBlank;
    var t := Buffer(s);
    PlainStep(s, m, o, p);
    var a := ArrayTurn(t, o, depth);
    SkipBounds(t, o + 1);
    assert a < |s| ==> t[a] == s[a];
    assert t[|s|] == NUL;
    if Sees(t, a, ']') {
      var a' := SkipSim(s, m, o + 1, p + 1);
      PlainStep(s, m, a, a');
      p' := a' + 1;
    } else {
      p' := FullArraySim(s, m, o, p, depth);
    }
  }

  lemma {:induction false} FullArraySim(s: string, m: string, o: nat, p: nat, depth: nat) returns (p': nat)
    requires NulFree(s) && EndsPlain(s) && o < |s| && p < |m| && Corr(s, m, o + 1, p + 1)
    requires depth < CJSON_NESTING_LIMIT && SkipBlank(Buffer(s), o + 1) < |Buffer(s)|
    requires !Sees(Buffer(s), SkipBlank(Buffer(s), o + 1), ']')
    requires ParseElements(Buffer(s), o, depth + 1).Ok?
    ensures ParseArray(m, p, depth) == Ok(Array(ParseElements(Buffer(s), o, depth + 1).value), p')
    ensures Corr(s, m, ParseElements(Buffer(s), o, depth + 1).end, p')
    decreases |s| - o, 3, 0
  {
    hide Corr, ParseElements, SkipBlank, ParseArray, ParseValue;
    var t := Buffer(s);
    var a, b, c := ElementsTurn(t, o, depth + 1);
    ValueStarts(t, a, depth + 1);
    SkipBounds(t, o + 1);
    assert a < |s| ==> t[a] == s[a];
    assert t[|s|] == NUL;
    var a' := SkipSim(s, m, o + 1, p + 1);
    p' := ElementsSim(s, m, o, p, depth + 1);
    ArrayLoop(m, p, a', depth, ParseElements(t, o, depth + 1).value, true, p');
  }

  // ---- objects ----

  lemma KeyTurn(t: string, q: nat) returns (a: nat, e: nat, c: nat)
    requires q < |t| && ParseKey(t, q).Ok?
    ensures q + 1 < |t| && a == SkipBlank(t, q + 1) && Sees(t, a, QUOTE)
    ensures ParseString(t, a).Ok? && e == ParseString(t, a).end && c == SkipBlank(t, e) && Sees(t, c, ':')
    ensures ParseKey(t, q) == Ok(ParseString(t, a).value, c + 1) && q < a < e
  {
    hide Decode, ClosingQuote;
    a := SkipBlank(t, q + 1);
    e := ParseString(t, a).end;
    c := SkipBlank(t, e);
  }

  lemma KeySim(s: string, m: string, q: nat, p: nat) returns (a': nat, p': nat)
    requires NulFree(s) && EndsPlain(s) && q < |s| && p < |m| && Corr(s, m, q + 1, p + 1)
    requires ParseKey(Buffer(s), q).Ok?
    ensures ParseKey(m, p) == Ok(ParseKey(Buffer(s), q).value, p')
    ensures Corr(s, m, ParseKey(Buffer(s), q).end, p')
    ensures p + 1 < |m| && SkipBlank(m, p + 1) == a' && Sees(m, a', QUOTE)
  {
    hide Corr, ParseKey, ParseString, SkipBlank;
    var t := Buffer(s);
    var a, e, c := KeyTurn(t, q);
    SkipBounds(t, q + 1);
    SkipBounds(t, e);
    assert t[|s|] == NUL;
    assert t[a] == s[a] && t[c] == s[c];
    CorrBounds(s, m, q + 1, p + 1);
    a' := SkipSim(s, m, q + 1, p + 1);
    var e' := StringSim(s, m, a, a');
    var c' := SkipSim(s, m, e, e');
    PlainStep(s, m, c, c');
    p' := c' + 1;
    KeyStep(m, p, a', e', p', ParseString(t, a).value);
  }

  /** What one turn of the member loop read in an accepted text. */
  lemma MembersTurn(t: string, q: nat, depth: nat) returns (k: nat, a: nat, b: nat, c: nat)
    requires q < |t| && ParseMembers(t, q, depth).Ok?
    ensures ParseKey(t, q).Ok? && k == ParseKey(t, q).end && q < k <= |t|
    ensures a == SkipBlank(t, k) && ParseValue(t, a, depth).Ok? && b == ParseValue(t, a, depth).end
    ensures c == SkipBlank(t, b) && q < c && (Sees(t, c, ',') || Sees(t, c, '}')) && Follows(t, b)
    ensures var member := Member(ParseKey(t, q).value, ParseValue(t, a, depth).value);
      var r := ParseMembers(t, q, depth);
      if Sees(t, c, ',') then
        ParseMembers(t, c, depth).Ok?
        && r == Ok([member] + ParseMembers(t, c, depth).value, ParseMembers(t, c, depth).end)
      else r == Ok([member], c + 1)
  {
    hide ParseValue, ParseKey;
    k := ParseKey(t, q).end;
    a := SkipBlank(t, k);
    b := ParseValue(t, a, depth).end;
    c := SkipBlank(t, b);
  }

  lemma {:induction false} MembersSim(s: string, m: string, q: nat, p: nat, depth: nat) returns (p': nat)
    requires NulFree(s) && EndsPlain(s) && q < |s| && p < |m| && Corr(s, m, q + 1, p + 1)
    requires ParseMembers(Buffer(s), q, depth).Ok?
    ensures ParseMembers(m, p, depth) == Ok(ParseMembers(Buffer(s), q, depth).value, p')
    ensures Corr(s, m, ParseMembers(Buffer(s), q, depth).end, p')
    decreases |s| - q, 2
  {
    hide Corr, ParseValue, ParseMembers, ParseKey, Follows, SkipBlank;
    var t := Buffer(s);
    var k, a, b, c := MembersTurn(t, q, depth);
    ValueStarts(t, a, depth);
    SkipBounds(t, k);
    SkipBounds(t, b);
    assert t[|s|] == NUL;
    assert t[a] == s[a] && t[c] == s[c];
    var key, v := ParseKey(t, q).value, ParseValue(t, a, depth).value;
    var first, k' := KeySim(s, m, q, p);
    CorrBounds(s, m, k, k');
    var a' := SkipSim(s, m, k, k');
    var b' := ValueSim(s, m, a, a', depth);
    CorrBounds(s, m, b, b');
    var c' := SkipSim(s, m, b, b');
    PlainStep(s, m, c, c');
    if Sees(t, c, ',') {
      p' := MembersSim(s, m, c, c', depth);
      MembersMore(m, p, depth, key, k', a', b', c', v, true, ParseMembers(t, c, depth).value, true, p');
    } else {
      p' := c' + 1;
      MembersLast(m, p, depth, key, k', a', b', c', v, true);
    }
  }

  lemma ObjectTurn(t: string, o: nat, depth: nat) returns (a: nat)
    requires o < |t| && ParseObject(t, o, depth).Ok?
    ensures depth < CJSON_NESTING_LIMIT && a == SkipBlank(t, o + 1) && a < |t|
    ensures Sees(t, a, '}') ==> ParseObject(t, o, depth) == Ok(Object([]), a + 1)
    ensures !Sees(t, a, '}') ==> ParseObject(t, o, depth) == AsObject(ParseMembers(t, o, depth + 1))
  {
    hide ParseValue, ParseString;
    a := SkipBlank(t, o + 1);
    SkipTwice(t, o + 1);
    if !Sees(t, a, '}') && a < |t| {
      assert ParseKey(t, a - 1).Ok?;
      KeyFrom(t, a - 1, o);
      MembersFrom(t, a - 1, o, depth + 1);
    }
  }

  lemma {:induction false} ObjectSim(s: string, m: string, o: nat, p: nat, depth: nat) returns (p': nat)
    requires NulFree(s) && EndsPlain(s) && Corr(s, m, o, p) && o < |s| && s[o] == '{'
    requires ParseObject(Buffer(s), o, depth).Ok?
    ensures p < |m| && ParseObject(m, p, depth) == Ok(ParseObject(Buffer(s), o, depth).value, p')
    ensures Corr(s, m, ParseObject(Buffer(s), o, depth).end, p')
    decreases |s| - o, 3
  {
    hide Corr, ParseMembers, SkipBlank;
    var t := Buffer(s);
    PlainStep(s, m, o, p);
    var a := ObjectTurn(t, o, depth);
    SkipBounds(t, o + 1);
    assert a < |s| ==> t[a] == s[a];
    assert t[|s|] == NUL;
    if Sees(t, a, '}') {
      var a' := SkipSim(s, m, o + 1, p + 1);
      PlainStep(s, m, a, a');
      p' := a' + 1;
    } else {
      var members := ParseMembers(t, o, depth + 1);
      var k, i, j, l := MembersTurn(t, o, depth + 1);
      var a', k' := KeySim(s, m, o, p);
      p' := MembersSim(s, m, o, p, depth + 1);
      ObjectLoop(m, p, a', depth, members.value, true, p');
    }
  }

  // ---- whole documents ----

  /**
   * For a text accepted as a whole in which no string literal ends in an escaped backslash, the
   * minified text is accepted as a whole too, as the same tree.
   */
  lemma MinifiedParsesSame(s: string)
    requires NulFree(s) && EndsPlain(s) && Parse(s, true).Ok?
    ensures Parse(Minified(s), true) == Ok(Parse(s, true).value, |Minified(s)|)
  {
    var t, m := Buffer(s), Buffer(Minified(s));
    assert s[0..] == s && m[0..] == m;
    assert Corr(s, m, 0, 0);
    var bom := BomEnd(t);
    var start := SkipBlank(t, bom);
    var item := ParseValue(t, start, 0);
    var last := SkipBlank(t, item.end);
    hide Corr, ParseValue, Minified;
    assert last < |t| && t[last] == NUL;
    OnlyTerminator(s, last);
    BlankRest(t, item.end);
    ValueStarts(t, start, 0);
    SkipBounds(t, bom);
    assert t[|s|] == NUL;
    assert start < |s| && t[start] == s[start];
    var a' := StartSim(s, m);
    var e' := ValueSim(s, m, start, a', 0);
    EndSim(s, m, item.end, e');
  }

  lemma SinglesEndPlain(s: string)
    requires forall i, j | 0 <= i < |s| && 0 <= j < |s| && j == i + 1 :: s[i] != BACKSLASH || s[j] != BACKSLASH
    ensures EndsPlain(s)
  {
    forall i | 0 <= i < |s| && s[i] == QUOTE ensures Backslashes(s, i) <= 1 {
      if i > 1 {
        assert s[i - 2] != BACKSLASH || s[i - 1] != BACKSLASH;
        assert Backslashes(s, i - 1) == 0 || s[i - 1] != BACKSLASH;
      }
    }
  }

  /** In particular a text without two backslashes side by side. */
  lemma SingleBackslashesParseSame(s: string)
    requires NulFree(s) && Parse(s, true).Ok?
    requires forall i, j | 0 <= i < |s| && 0 <= j < |s| && j == i + 1 :: s[i] != BACKSLASH || s[j] != BACKSLASH
    ensures Parse(Minified(s), true) == Ok(Parse(s, true).value, |Minified(s)|)
  {
    hide *;
    SinglesEndPlain(s);
    MinifiedParsesSame(s);
  }

  /** A byte order mark stays, and none appears. */
  lemma StartSim(s: string, m: string) returns (a': nat)
    requires Corr(s, m, 0, 0)
    requires var t := Buffer(s); var start := SkipBlank(t, BomEnd(t)); start < |s| && Starts(t[start])
    ensures SkipBlank(m, BomEnd(m)) == a' && Corr(s, m, SkipBlank(Buffer(s), BomEnd(Buffer(s))), a')
    ensures m != []
  {
    hide Corr;
    var t := Buffer(s);
    var start := SkipBlank(t, BomEnd(t));
    assert t[start] == s[start];
    if BomEnd(t) == 3 {
      forall i | 0 <= i < 3 ensures i < |s| && Plain(s[i]) {
        ReadsAt(t, 0, BOM, i);
        assert t[i] == s[i];
      }
      PlainRun(s, m, 0, 3, 0);
      assert s[0..3] == t[0..3];
      a' := SkipSim(s, m, 3, 3);
      CorrEnds(s, m, start, a');
    } else {
      a' := SkipSim(s, m, 0, 0);
      assert a' > 0 ==> IsBlank(m[0]);
      NoBom(m);
    }
  }

  lemma CorrEnds(s: string, m: string, o: nat, p: nat)
    requires Corr(s, m, o, p)
    ensures p < |m| && m[|m| - 1] == NUL
  {
    assert m[p..][|m| - 1 - p] == NUL;
  }

  lemma OnlyTerminator(s: string, i: nat)
    requires NulFree(s) && i <= |s| && Buffer(s)[i] == NUL
    ensures i == |s|
  {
  }

  lemma BlankRest(t: string, o: nat)
    requires o <= |t| && t != [] && SkipBlank(t, o) == |t| - 1 && IsBlank(t[|t| - 1])
    ensures Blank(t, o, |t|)
  {
  }

  // ---- why the backslashes matter ----

  lemma TwoStrings(a: string, b: string, format: bool)
    ensures RenderValue(Array([String(a), String(b)]), format, 0)
      == "[" + Quoted(a) + ItemSeparator(format) + Quoted(b) + "]"
  {
    hide Quoted, ItemSeparator;
    var items, last := [String(a), String(b)], [String(b)];
    assert items[1..] == last;
    LastString(b, format);
    assert RenderItems(items, format, 1) == RenderItem(String(a), true, format, 1) + RenderItems(last, format, 1);
    Bracketed(Quoted(a), ItemSeparator(format), Quoted(b));
  }

  lemma LastString(b: string, format: bool)
    ensures RenderItems([String(b)], format, 1) == Quoted(b)
  {
    hide Quoted;
    assert [String(b)][1..] == [];
    assert RenderItem(String(b), false, format, 1) == Quoted(b) + "" == Quoted(b);
  }

  lemma Bracketed(a: string, sep: string, b: string)
    ensures "[" + ((a + sep) + b) + "]" == "[" + a + sep + b + "]"
  {
  }

  lemma ShortQuoted()
    ensures Quoted([' ']) == [QUOTE, ' ', QUOTE] && Quoted([]) == [QUOTE, QUOTE]
  {
    assert [' '][1..] == [];
    assert Escaped([' ']) == EscapeChar(' ') + Escaped([]);
  }

  lemma Inside(c: char, rest: string)
    requires c != QUOTE && c != BACKSLASH
    ensures MinifiedString([c] + rest) == [c] + MinifiedString(rest)
  {
    assert ([c] + rest)[1..] == rest;
  }

  lemma AtQuote(rest: string)
    ensures MinifiedString([QUOTE] + rest) == [QUOTE] + Minified(rest)
    ensures Minified([QUOTE] + rest) == [QUOTE] + MinifiedString(rest)
  {
    assert ([QUOTE] + rest)[1..] == rest;
  }

  lemma Outside(c: char, rest: string)
    requires c != QUOTE && c != '/'
    ensures Minified([c] + rest) == if IsSpace(c) then Minified(rest) else [c] + Minified(rest)
  {
    assert ([c] + rest)[1..] == rest;
  }

  lemma BracketLeft()
    ensures Minified([']']) == [']'] == MinifiedString([']'])
  {
    assert Minified([]) == [] && MinifiedString([]) == [];
    Outside(']', []);
    Inside(']', []);
    assert [']'] + [] == [']'];
  }

  /** Comma, space, a string of one space, bracket: taken for what they are, only the space between them goes. */
  lemma RestOutside()
    ensures Minified([',', ' ', QUOTE, ' ', QUOTE, ']']) == [',', QUOTE, ' ', QUOTE, ']']
  {
    hide Minified, MinifiedString;
    BracketLeft();
    AtQuote([']']);
    Inside(' ', [QUOTE] + [']']);
    AtQuote([' '] + ([QUOTE] + [']']));
    var spaced := [QUOTE] + ([' '] + ([QUOTE] + [']']));
    Outside(' ', spaced);
    Outside(',', [' '] + spaced);
    assert IsSpace(' ') && !IsSpace(',');
    assert [','] + ([' '] + spaced) == [',', ' ', QUOTE, ' ', QUOTE, ']'];
  }

  /** The same, taken for the inside of the string in front of them: the space inside the second string goes. */
  lemma RestInside()
    ensures MinifiedString([',', ' ', QUOTE, ' ', QUOTE, ']']) == [',', ' ', QUOTE, QUOTE, ']']
  {
    hide Minified, MinifiedString;
    BracketLeft();
    AtQuote([']']);
    Outside(' ', [QUOTE] + [']']);
    AtQuote([' '] + ([QUOTE] + [']']));
    var spaced := [QUOTE] + ([' '] + ([QUOTE] + [']']));
    Inside(' ', spaced);
    Inside(',', [' '] + spaced);
    assert IsSpace(' ');
    assert [','] + ([' '] + spaced) == [',', ' ', QUOTE, ' ', QUOTE, ']'];
  }

  /** An escaped string ends in a backslash exactly when the string does. */
  lemma LastEscape(s: string)
    ensures Escaped(s) == [] <==> s == []
    ensures s != [] ==> (Escaped(s)[|Escaped(s)| - 1] == BACKSLASH <==> s[|s| - 1] == BACKSLASH)
  {
    if s != [] {
      var front, c := s[..|s| - 1], s[|s| - 1];
      assert s == front + [c];
      EscapedAppend(front, [c]);
      LastCharacter(c);
      hide Escaped, EscapeChar;
      var e := EscapeChar(c);
      assert (Escaped(front) + e)[|Escaped(front)| + |e| - 1] == e[|e| - 1];
    }
  }

  lemma LastCharacter(c: char)
    ensures var e := EscapeChar(c);
      Escaped([c]) == e && e != [] && (e[|e| - 1] == BACKSLASH <==> c == BACKSLASH)
  {
    assert [c][1..] == [] && Escaped([]) == [];
  }

  lemma QuoteBehindEscaped(s: string, e: string, rest: string)
    requires e == Escaped(s)
    ensures ClosingQuote(Buffer(e + [QUOTE] + rest), 0) == Some(|e|)
  {
    hide Escaped, ClosingQuote, Spellings;
    PiecesFacts(s);
    var t := Buffer(e + [QUOTE] + rest);
    assert t[0..0 + |e|] == e && t[|e|] == QUOTE;
    QuoteFound(t, 0, |e|, PiecesOf(s));
  }

  lemma SplitBehind(e: string, rest: string)
    ensures var behind := e + [QUOTE] + rest;
      && behind[0..] == behind && behind[0..|e| + 1] == e + [QUOTE] && behind[|e| + 1..] == rest
      && (e != [] ==> behind[|e| - 1] == e[|e| - 1])
  {
  }

  /** What the minifier makes of the inside of a printed string and what follows it. */
  lemma EscapedMinified(s: string, rest: string)
    ensures MinifiedString(Escaped(s) + [QUOTE] + rest)
      == Escaped(s) + [QUOTE] + (if s != [] && s[|s| - 1] == BACKSLASH then MinifiedString(rest) else Minified(rest))
  {
    hide Minified, MinifiedString, Escaped, ClosingQuote;
    var e := Escaped(s);
    QuoteBehindEscaped(s, e, rest);
    SplitBehind(e, rest);
    LiteralCopied(e + [QUOTE] + rest, 0, |e|);
    LastEscape(s);
  }

  lemma QuotedMinified(s: string, rest: string)
    ensures Minified("[" + Quoted(s) + rest)
      == "[" + Quoted(s) + (if s != [] && s[|s| - 1] == BACKSLASH then MinifiedString(rest) else Minified(rest))
  {
    hide *;
    var after := if s != [] && s[|s| - 1] == BACKSLASH then MinifiedString(rest) else Minified(rest);
    EscapedMinified(s, rest);
    QuotedShape(s, rest);
    QuotedShape(s, after);
    AtQuote(Escaped(s) + [QUOTE] + rest);
    IsQuote(QUOTE);
    Outside('[', [QUOTE] + (Escaped(s) + [QUOTE] + rest));
  }

  lemma QuotedShape(s: string, rest: string)
    ensures "[" + Quoted(s) + rest == ['['] + ([QUOTE] + (Escaped(s) + [QUOTE] + rest))
  {
    hide Escaped;
  }

  lemma IsQuote(c: char)
    requires c == QUOTE
    ensures c != '[' && !IsSpace('[')
  {
  }

  /**
   * A printed array of any string and a string of one space: minifying its text keeps the array if and only if the
   * first string does not end in a backslash; otherwise the space in the second string is lost.
   */
  lemma LastBackslashExact(s: string)
    requires NulFree(s)
    ensures var j, other := Array([String(s), String(" ")]), Array([String(s), String("")]);
      var text := RenderValue(j, true, 0);
      var small := Minified(text);
      && Parse(text, true) == Ok(j, |text|) && j != other
      && Parse(small, true) == Ok(if s != [] && s[|s| - 1] == BACKSLASH then other else j, |small|)
  {
    var j, other := Array([String(s), String(" ")]), Array([String(s), String("")]);
    TwoStrings(s, " ", true);
    TwoStrings(s, " ", false);
    TwoStrings(s, "", true);
    ShortQuoted();
    var q, rest := Quoted(s), [',', ' ', QUOTE, ' ', QUOTE, ']'];
    hide RenderValue, Parse, Minified, Quoted;
    QuotedMinified(s, rest);
    RestOutside();
    RestInside();
    assert "[" + q + ", " + [QUOTE, ' ', QUOTE] + "]" == "[" + q + rest;
    assert "[" + q + "," + [QUOTE, ' ', QUOTE] + "]" == "[" + q + [',', QUOTE, ' ', QUOTE, ']'];
    assert "[" + q + ", " + [QUOTE, QUOTE] + "]" == "[" + q + [',', ' ', QUOTE, QUOTE, ']'];
    ShallowPair(s, " ");
    ShallowPair(s, "");
    ParseUndoesPrint(j, true, true);
    ParseUndoesPrint(j, false, true);
    ParseUndoesPrint(other, true, true);
    assert j.items[1] != other.items[1];
  }

  lemma ShallowPair(a: string, b: string)
    requires NulFree(a) && NulFree(b)
    ensures var j := Array([String(a), String(b)]); Ready(j) && JsonTree.Plain(j) && Nest(j) <= CJSON_NESTING_LIMIT
  {
    var items, last := [String(a), String(b)], [String(b)];
    assert items[1..] == last && last[1..] == [];
    assert NestItems([]) == 0;
    assert NestItems(last) == Max(Nest(String(b)), NestItems(last[1..])) == 0;
    assert NestItems(items) == Max(Nest(String(a)), NestItems(items[1..])) == 0;
  }
}
