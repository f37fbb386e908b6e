/** Exactly which string literals the parser accepts, well-formed or not, and as what. */
module StringAccepted {
  import opened JsonTree
  import opened Render
  import opened Utf8
  import opened ParseText
  import opened StringLiteral

  /**
   * A form of RFC 8259, or one of two oddities: \u with four characters that are not all hexadecimal
   * digits, which parse_hex4 turns into a zero; and, where such a form has put the second pass out of
   * step with the first, a quote taken for itself.
   */
  datatype Loose = Sound(piece: Piece) | Zero(four: string) | RawQuote

  predicate Formed(l: Loose) {
    match l
    case Sound(p) => WellFormed(p)
    case Zero(four) => |four| == 4 && !FourHex(four)
    case RawQuote => true
  }

  function Text(l: Loose): string {
    match l
    case Sound(p) => Spelling(p)
    case Zero(four) => [BACKSLASH, 'u'] + four
    case RawQuote => [QUOTE]
  }

  function Yields(l: Loose): string
    requires Formed(l)
  {
    match l
    case Sound(p) => Denoted(p)
    case Zero(_) => [NUL]
    case RawQuote => [QUOTE]
  }

  predicate AllFormed(ls: seq<Loose>) { forall i | 0 <= i < |ls| :: Formed(ls[i]) }

  function Texts(ls: seq<Loose>): string {
    if ls == [] then [] else Text(ls[0]) + Texts(ls[1..])
  }

  function YieldsAll(ls: seq<Loose>): string
    requires AllFormed(ls)
  {
    if ls == [] then [] else Yields(ls[0]) + YieldsAll(ls[1..])
  }

  /** The pieces fill n characters, or one more: the closing quote itself may be taken for an escaped one. */
  predicate Fills(ls: seq<Loose>, n: nat) {
    || |Texts(ls)| == n
    || (|Texts(ls)| == n + 1 && ls != [] && ls[|ls| - 1] == Sound(Short(QUOTE)))
  }

  /** From the opening quote at o to the closing quote in front of e: pieces that yield the C string. */
  ghost predicate AcceptsString(t: string, o: nat, e: nat, s: string) {
    && Sees(t, o, QUOTE) && o + 2 <= e && ClosingQuote(t, o + 1) == Some(e - 1)
    && exists ls :: AllFormed(ls) && Reads(t, o + 1, Texts(ls)) && Fills(ls, e - o - 2) && CString(YieldsAll(ls)) == s
  }

  // ---- one piece ----

  lemma ZeroByte()
    ensures Bytes(0) == [NUL]
  {
  }

  /** What one step of the second pass reads is such a piece. */
  lemma StepLoose(t: string, p: nat, end: nat) returns (l: Loose)
    requires p < end < |t| && DecodeStep(t, p, end).Some?
    ensures Formed(l) && Reads(t, p, Text(l)) && DecodeStep(t, p, end) == Some((Yields(l), p + |Text(l)|))
    ensures p + |Text(l)| <= end || (p + 2 == end + 1 && l == Sound(Short(t[end])))
  {
    hide HEX_DIGITS, SHORT_ESCAPES, CodeUnit, Literal, Unescape, Bytes;
    if t[p] == QUOTE {
      l := RawQuote;
    } else if t[p] != BACKSLASH {
      l := Sound(Plain(t[p]));
    } else if t[p + 1] == 'u' {
      l := UnitLoose(t, p, end);
    } else {
      UnescapeExact(t[p + 1]);
      l := Sound(Short(t[p + 1]));
    }
  }

  lemma UnitLoose(t: string, p: nat, end: nat) returns (l: Loose)
    requires p < end < |t| && t[p] == BACKSLASH && t[p + 1] == 'u' && Literal(t, p, end).Some?
    ensures Formed(l) && Reads(t, p, Text(l)) && Yields(l) == Bytes(Literal(t, p, end).value.1)
    ensures |Text(l)| == Literal(t, p, end).value.0 && p + |Text(l)| <= end
  {
    LiteralParts(t, p, end);
    var four := t[p + 2..p + 6];
    hide *;
    HexRight(four);
    if !FourHex(four) {
      l := ZeroLoose(t, p, four);
    } else if 0xD800 <= CodeUnit(four) <= 0xDBFF {
      HexRight(t[p + 8..p + 12]);
      l := PairLoose(t, p, four, t[p + 8..p + 12]);
    } else {
      l := Sound(Unit(four));
      SixRead(t, p, four);
      UnitYields(four);
    }
  }

  /** What utf16_literal_to_utf8 looked at. */
  lemma LiteralParts(t: string, p: nat, end: nat)
    requires p < end < |t| && Literal(t, p, end).Some?
    ensures p + 6 <= end
    ensures var first := Hex4(t[p + 2..p + 6]);
      if 0xD800 <= first <= 0xDBFF then
        p + 12 <= end && t[p + 6] == BACKSLASH && t[p + 7] == 'u'
        && 0xDC00 <= Hex4(t[p + 8..p + 12]) <= 0xDFFF
        && Literal(t, p, end) == Some((12, 0x10000 + (first - 0xD800) * 0x400 + (Hex4(t[p + 8..p + 12]) - 0xDC00)))
      else !(0xDC00 <= first <= 0xDFFF) && Literal(t, p, end) == Some((6, first))
  {
    hide Hex4;
  }

  lemma SixRead(t: string, p: nat, four: string)
    requires p + 6 <= |t| && t[p] == BACKSLASH && t[p + 1] == 'u' && four == t[p + 2..p + 6]
    ensures Reads(t, p, [BACKSLASH, 'u'] + four) && |[BACKSLASH, 'u'] + four| == 6
  {
    assert t[p..p + 6] == [BACKSLASH, 'u'] + four;
  }

  lemma ZeroLoose(t: string, p: nat, four: string) returns (l: Loose)
    requires p + 6 <= |t| && t[p] == BACKSLASH && t[p + 1] == 'u' && four == t[p + 2..p + 6] && !FourHex(four)
    ensures Formed(l) && Reads(t, p, Text(l)) && |Text(l)| == 6 && Yields(l) == Bytes(0)
  {
    hide HEX_DIGITS, Bytes, Reads;
    l := Zero(four);
    SixRead(t, p, four);
    ZeroByte();
  }

  lemma UnitYields(four: string)
    requires FourHex(four) && !(0xD800 <= CodeUnit(four) <= 0xDFFF)
    ensures var l := Sound(Unit(four));
      Formed(l) && Text(l) == [BACKSLASH, 'u'] + four && CodeUnit(four) < 0x10000 && Yields(l) == Bytes(CodeUnit(four))
  {
    HexRight(four);
    hide HEX_DIGITS, Bytes, CodeUnit, Hex4;
  }

  lemma PairLoose(t: string, p: nat, high: string, low: string) returns (l: Loose)
    requires p + 12 <= |t| && t[p] == t[p + 6] == BACKSLASH && t[p + 1] == t[p + 7] == 'u'
    requires high == t[p + 2..p + 6] && low == t[p + 8..p + 12] && FourHex(high) && FourHex(low)
    requires 0xD800 <= CodeUnit(high) <= 0xDBFF && 0xDC00 <= CodeUnit(low) <= 0xDFFF
    ensures Formed(l) && Reads(t, p, Text(l)) && |Text(l)| == 12
    ensures Yields(l) == Bytes(0x10000 + (CodeUnit(high) - 0xD800) * 0x400 + (CodeUnit(low) - 0xDC00))
  {
    hide HEX_DIGITS, Bytes, CodeUnit;
    l := Sound(Pair(high, low));
    assert t[p..p + 12] == [BACKSLASH, 'u'] + high + [BACKSLASH, 'u'] + low;
  }

  /** And each such piece is read so. */
  lemma LooseStep(t: string, p: nat, end: nat, l: Loose)
    requires p < end < |t| && Formed(l) && Reads(t, p, Text(l))
    requires p + |Text(l)| <= end || (l == Sound(Short(QUOTE)) && p + 2 == end + 1)
    ensures DecodeStep(t, p, end) == Some((Yields(l), p + |Text(l)|))
  {
    hide HEX_DIGITS, SHORT_ESCAPES, CodeUnit, Literal, Unescape, Bytes;
    match l
    case Sound(piece) =>
      if p + |Text(l)| <= end {
        DecodePiece(t, p, end, piece);
      } else {
        QuoteStep(t, p, end);
      }
    case Zero(four) => ZeroStep(t, p, end, four);
    case RawQuote => ReadsAt(t, p, [QUOTE], 0);
  }

  lemma QuoteStep(t: string, p: nat, end: nat)
    requires p < end < |t| && Reads(t, p, [BACKSLASH, QUOTE])
    ensures WellFormed(Short(QUOTE)) && DecodeStep(t, p, end) == Some((Denoted(Short(QUOTE)), p + 2))
  {
    ReadsAt(t, p, [BACKSLASH, QUOTE], 0);
    ReadsAt(t, p, [BACKSLASH, QUOTE], 1);
  }

  lemma ZeroStep(t: string, p: nat, end: nat, four: string)
    requires |four| == 4 && !FourHex(four) && Reads(t, p, [BACKSLASH, 'u'] + four) && p + 6 <= end < |t|
    ensures DecodeStep(t, p, end) == Some(([NUL], p + 6))
  {
    hide HEX_DIGITS, CodeUnit, Hex4;
    HexRight(four);
    ZeroByte();
    ReadsAt(t, p, [BACKSLASH, 'u'] + four, 0);
    ReadsAt(t, p, [BACKSLASH, 'u'] + four, 1);
    ReadsSplit(t, p, [BACKSLASH, 'u'], four);
  }

  // ---- the whole second pass ----

  lemma DecodeTurn(t: string, p: nat, end: nat)
    requires p < end < |t|
    ensures var step := DecodeStep(t, p, end);
      if step.None? then Decode(t, p, end) == Fail(p)
      else
        var rest := Decode(t, step.value.1, end);
        Decode(t, p, end) == if rest.Fail? then rest else Ok(step.value.0 + rest.value, rest.end)
  {
    hide DecodeStep;
  }

  lemma TextsCons(l: Loose, ls: seq<Loose>)
    ensures Texts([l] + ls) == Text(l) + Texts(ls)
    ensures Formed(l) && AllFormed(ls) ==> AllFormed([l] + ls) && YieldsAll([l] + ls) == Yields(l) + YieldsAll(ls)
  {
    assert ([l] + ls)[1..] == ls;
  }

  lemma {:induction false} DecodeLoose(t: string, p: nat, end: nat) returns (ls: seq<Loose>)
    requires p <= end < |t| && t[end] == QUOTE && Decode(t, p, end).Ok?
    ensures AllFormed(ls) && Reads(t, p, Texts(ls)) && Fills(ls, end - p)
    ensures Decode(t, p, end).value == YieldsAll(ls)
    decreases end - p
  {
    hide DecodeStep, Formed, Text, Yields;
    if p == end {
      ls := [];
    } else {
      DecodeTurn(t, p, end);
      var l := StepLoose(t, p, end);
      var next := p + |Text(l)|;
      if next <= end {
        var rest := DecodeLoose(t, next, end);
        ls := [l] + rest;
        TextsCons(l, rest);
        ReadsSplit(t, p, Text(l), Texts(rest));
        assert rest != [] ==> ls[|ls| - 1] == rest[|rest| - 1];
      } else {
        ls := [l];
        TextsCons(l, []);
        assert [l] + [] == [l] && Text(l) + Texts([]) == Text(l);
        assert Decode(t, next, end) == Ok([], next);
        assert Yields(l) + [] == Yields(l);
      }
    }
  }

  lemma {:induction false} LooseDecodes(t: string, p: nat, end: nat, ls: seq<Loose>)
    requires p <= end < |t| && AllFormed(ls) && Reads(t, p, Texts(ls)) && Fills(ls, end - p)
    ensures Decode(t, p, end).Ok? && Decode(t, p, end).value == YieldsAll(ls)
    decreases |ls|
  {
    hide *;
    if ls == [] {
      NoPieces(t, p, end);
    } else {
      var l, rest := ls[0], ls[1..];
      var next := p + |Text(l)|;
      FirstPiece(t, p, end, ls);
      LooseStep(t, p, end, l);
      DecodeTurn(t, p, end);
      if next <= end {
        LooseDecodes(t, next, end, rest);
      } else {
        NothingBehind(t, next, end, l);
      }
    }
  }

  lemma NoPieces(t: string, p: nat, end: nat)
    requires p <= end < |t| && Fills([], end - p)
    ensures p == end && Decode(t, p, end) == Ok([], p) && AllFormed([]) && YieldsAll([]) == []
  {
  }

  lemma NothingBehind(t: string, next: nat, end: nat, l: Loose)
    requires end < next && end < |t| && Formed(l)
    ensures Decode(t, next, end) == Ok([], next) && AllFormed([l]) && YieldsAll([l]) == Yields(l) == Yields(l) + []
  {
    TextsCons(l, []);
    hide Formed, Yields;
    assert [l] + [] == [l];
  }

  /** Where the first of several pieces lies, and the rest. */
  lemma FirstPiece(t: string, p: nat, end: nat, ls: seq<Loose>)
    requires ls != [] && p <= end < |t| && AllFormed(ls) && Reads(t, p, Texts(ls)) && Fills(ls, end - p)
    ensures var l, rest, next := ls[0], ls[1..], p + |Text(ls[0])|;
      && p < end && Formed(l) && Reads(t, p, Text(l)) && AllFormed(rest) && YieldsAll(ls) == Yields(l) + YieldsAll(rest)
      && (next <= end ==> Reads(t, next, Texts(rest)) && Fills(rest, end - next))
      && (next > end ==> ls == [l] && l == Sound(Short(QUOTE)) && p + 2 == end + 1)
  {
    hide *;
    var l, rest := ls[0], ls[1..];
    assert ls == [l] + rest;
    PiecesTail(ls);
    TextNotEmpty(l);
    TextsCons(l, rest);
    ReadsSplit(t, p, Text(l), Texts(rest));
    FillsTail(ls, end - p);
  }

  lemma FillsTail(ls: seq<Loose>, n: nat)
    requires ls != [] && AllFormed(ls) && Fills(ls, n)
    ensures n > 0
    ensures if |Text(ls[0])| <= n then Fills(ls[1..], n - |Text(ls[0])|)
            else ls == [ls[0]] && ls[0] == Sound(Short(QUOTE)) && n == 1 && |Text(ls[0])| == 2
  {
    LastFills(ls, n);
    if |ls| == 1 {
      assert ls == [ls[0]] && ls[1..] == [];
    }
    hide Formed;
  }

  lemma PiecesTail(ls: seq<Loose>)
    requires ls != [] && AllFormed(ls)
    ensures Formed(ls[0]) && AllFormed(ls[1..])
  {
    hide Formed;
  }

  lemma TextNotEmpty(l: Loose)
    requires Formed(l)
    ensures Text(l) != []
  {
  }

  /** Only the last piece may reach over the end. */
  lemma LastFills(ls: seq<Loose>, n: nat)
    requires ls != [] && AllFormed(ls) && Fills(ls, n)
    ensures n > 0
    ensures |Text(ls[0])| <= n || (|ls| == 1 && ls[0] == Sound(Short(QUOTE)) && n == 1)
    ensures |Text(ls[0])| <= n && |ls| > 1 ==> Fills(ls[1..], n - |Text(ls[0])|)
    ensures |Text(ls[0])| <= n && |ls| == 1 ==> |Text(ls[0])| == n
  {
    hide Formed;
    TextNotEmpty(ls[0]);
    if |ls| > 1 {
      assert ls[1..][|ls| - 2] == ls[|ls| - 1];
      TextNotEmpty(ls[|ls| - 1]);
      TextsLast(ls[1..]);
    } else {
      assert ls[1..] == [];
    }
  }

  lemma {:induction false} TextsLast(ls: seq<Loose>)
    requires ls != []
    ensures |Texts(ls)| >= |Text(ls[|ls| - 1])|
    decreases |ls|
  {
    if |ls| > 1 {
      TextsLast(ls[1..]);
    } else {
      assert ls[1..] == [];
    }
  }

  // ---- parse_string ----

  /** parse_string accepts exactly these literals, as exactly these strings. */
  lemma StringExact(t: string, o: nat, e: nat, s: string)
    requires o < |t|
    ensures ParseString(t, o) == Ok(s, e) <==> AcceptsString(t, o, e, s)
  {
    hide Decode, ClosingQuote, CString, Texts, YieldsAll, AllFormed, Fills;
    if ParseString(t, o) == Ok(s, e) {
      var ls := DecodeLoose(t, o + 1, e - 1);
      assert e - 1 - (o + 1) == e - o - 2;
    }
    if AcceptsString(t, o, e, s) {
      var ls :| AllFormed(ls) && Reads(t, o + 1, Texts(ls)) && Fills(ls, e - o - 2) && CString(YieldsAll(ls)) == s;
      LooseDecodes(t, o + 1, e - 1, ls);
    }
  }

  /** In particular the literals of RFC 8259, as what they denote. */
  lemma WellFormedAccepted(t: string, o: nat, ps: seq<Piece>)
    requires StringLiteral.AllWellFormed(ps) && Reads(t, o, [QUOTE] + Spellings(ps) + [QUOTE])
    ensures o < |t| && AcceptsString(t, o, o + |Spellings(ps)| + 2, CString(DenotedAll(ps)))
  {
    hide ParseString, AcceptsString, Spellings, DenotedAll, CString;
    QuotedReads(t, o, Spellings(ps));
    LiteralDenotes(t, o, ps);
    StringExact(t, o, o + |Spellings(ps)| + 2, CString(DenotedAll(ps)));
  }
}
