/** String literals as sequences of escapes and plain characters: what parse_string makes of them. */
module StringLiteral {
  import opened JsonTree
  import opened Render
  import opened Utf8
  import opened ParseText

  /** The forms a character may take in a literal (RFC 8259, section 7). */
  datatype Piece =
    | Plain(c: char)
    | Short(letter: char)
    | Unit(hex: string)
    | Pair(high: string, low: string)

  /** The eight letters of section 7 of RFC 8259 and the characters they stand for. */
  const SHORT_ESCAPES: map<char, char> := map[
    '\"' := 0x22 as char, '\\' := 0x5C as char, '/' := 0x2F as char, 'b' := 0x08 as char,
    'f' := 0x0C as char, 'n' := 0x0A as char, 'r' := 0x0D as char, 't' := 0x09 as char]

  /** The twenty-two hexadecimal digits. */
  const HEX_DIGITS: map<char, nat> := map[
    '0' := 0, '1' := 1, '2' := 2, '3' := 3, '4' := 4, '5' := 5, '6' := 6, '7' := 7, '8' := 8, '9' := 9,
    'a' := 10, 'b' := 11, 'c' := 12, 'd' := 13, 'e' := 14, 'f' := 15,
    'A' := 10, 'B' := 11, 'C' := 12, 'D' := 13, 'E' := 14, 'F' := 15]

  predicate FourHex(s: string) { |s| == 4 && forall i | 0 <= i < 4 :: s[i] in HEX_DIGITS }

  /** The 16-bit unit that four digits spell. */
  function CodeUnit(s: string): nat
    requires FourHex(s)
  {
    HEX_DIGITS[s[0]] * 0x1000 + HEX_DIGITS[s[1]] * 0x100 + HEX_DIGITS[s[2]] * 0x10 + HEX_DIGITS[s[3]]
  }

  predicate WellFormed(p: Piece) {
    match p
    case Plain(c) => c != QUOTE && c != BACKSLASH
    case Short(letter) => letter in SHORT_ESCAPES
    case Unit(hex) => FourHex(hex) && !(0xD800 <= CodeUnit(hex) <= 0xDFFF)
    case Pair(high, low) =>
      && FourHex(high) && FourHex(low)
      && 0xD800 <= CodeUnit(high) <= 0xDBFF && 0xDC00 <= CodeUnit(low) <= 0xDFFF
  }

  function Spelling(p: Piece): string {
    match p
    case Plain(c) => [c]
    case Short(letter) => [BACKSLASH, letter]
    case Unit(hex) => [BACKSLASH, 'u'] + hex
    case Pair(high, low) => [BACKSLASH, 'u'] + high + [BACKSLASH, 'u'] + low
  }

  /** The bytes a piece stands for: itself, a character of the table, or the UTF-8 of its code point. */
  function Denoted(p: Piece): string
    requires WellFormed(p)
  {
    UnitsFit(p);
    match p
    case Plain(c) => [c]
    case Short(letter) => [SHORT_ESCAPES[letter]]
    case Unit(hex) => Bytes(CodeUnit(hex))
    case Pair(high, low) => Bytes(0x10000 + (CodeUnit(high) - 0xD800) * 0x400 + (CodeUnit(low) - 0xDC00))
  }

  lemma UnitsFit(p: Piece)
    requires WellFormed(p)
    ensures p.Unit? ==> CodeUnit(p.hex) < 0x10000
  {
    if p.Unit? {
      HexRight(p.hex);
    }
  }

  // ---- the tables against the parser ----

  /** The parser knows these short escapes, with these characters, and no other. */
  lemma UnescapeExact(c: char)
    ensures Unescape(c) == if c in SHORT_ESCAPES then Some(SHORT_ESCAPES[c]) else None
  {
  }

  lemma HexDigitExact(c: char)
    ensures IsHex(c) <==> c in HEX_DIGITS
    ensures IsHex(c) ==> HexValue(c) == HEX_DIGITS[c]
  {
  }

  /** parse_hex4 accepts exactly these digits and computes their unit. */
  lemma HexRight(s: string)
    requires |s| == 4
    ensures FourHex(s) <==> AllHex(s)
    ensures Hex4(s) == if FourHex(s) then CodeUnit(s) else 0
    ensures FourHex(s) ==> CodeUnit(s) < 0x10000
  {
    hide HEX_DIGITS;
    forall i | 0 <= i < 4
      ensures (IsHex(s[i]) <==> s[i] in HEX_DIGITS) && (IsHex(s[i]) ==> HexValue(s[i]) == HEX_DIGITS[s[i]])
    {
      HexDigitExact(s[i]);
    }
    if AllHex(s) {
      hide IsHex, HexValue;
      HexSpread(s);
    }
  }

  lemma HexSpread(s: string)
    requires |s| == 4 && AllHex(s)
    ensures HexNumber(s) == HexValue(s[0]) * 0x1000 + HexValue(s[1]) * 0x100 + HexValue(s[2]) * 0x10 + HexValue(s[3])
  {
    hide HexValue, IsHex;
    assert s[..3][..2] == s[..2] && s[..2][..1] == s[..1] && s[..1][..0] == [];
    assert HexNumber(s[..1]) == HexValue(s[0]);
    assert HexNumber(s[..2]) == 16 * HexNumber(s[..1]) + HexValue(s[1]);
    assert HexNumber(s[..3]) == 16 * HexNumber(s[..2]) + HexValue(s[2]);
  }

  predicate AllWellFormed(ps: seq<Piece>) {
    forall i | 0 <= i < |ps| :: WellFormed(ps[i])
  }

  function Spellings(ps: seq<Piece>): string {
    if ps == [] then [] else Spelling(ps[0]) + Spellings(ps[1..])
  }

  function DenotedAll(ps: seq<Piece>): string
    requires AllWellFormed(ps)
  {
    if ps == [] then [] else Denoted(ps[0]) + DenotedAll(ps[1..])
  }

  // ---- reading at an offset ----

  lemma ReadsSplit(t: string, o: nat, a: string, b: string)
    ensures Reads(t, o, a + b) <==> Reads(t, o, a) && Reads(t, o + |a|, b)
  {
    if o + |a| + |b| <= |t| {
      assert t[o..o + |a + b|] == t[o..o + |a|] + t[o + |a|..o + |a| + |b|];
      assert (a + b)[..|a|] == a && (a + b)[|a|..] == b;
      assert t[o..o + |a|] == t[o..o + |a + b|][..|a|];
      assert t[o + |a|..o + |a| + |b|] == t[o..o + |a + b|][|a|..];
    }
  }

  lemma ReadsAt(t: string, o: nat, s: string, k: nat)
    requires Reads(t, o, s) && k < |s|
    ensures t[o + k] == s[k]
  {
    assert t[o..o + |s|][k] == s[k];
  }

  // ---- the two passes over a well-formed literal ----

  /** Neither quotes nor backslashes: the first pass walks over them. */
  lemma {:induction false} QuoteBehind(t: string, i: nat, s: string)
    requires Reads(t, i, s) && QUOTE !in s && BACKSLASH !in s
    ensures ClosingQuote(t, i) == ClosingQuote(t, i + |s|)
    decreases |s|
  {
    if s != [] {
      ReadsAt(t, i, s, 0);
      assert s == [s[0]] + s[1..];
      ReadsSplit(t, i, [s[0]], s[1..]);
      QuoteBehind(t, i + 1, s[1..]);
    }
  }

  lemma HexPlain(s: string)
    requires FourHex(s)
    ensures QUOTE !in s && BACKSLASH !in s
  {
  }

  /** The first pass over \uXXXX. */
  lemma QuoteBehindUnit(t: string, i: nat, hex: string)
    requires FourHex(hex) && Reads(t, i, [BACKSLASH, 'u'] + hex)
    ensures ClosingQuote(t, i) == ClosingQuote(t, i + 6)
  {
    ReadsSplit(t, i, [BACKSLASH, 'u'], hex);
    ReadsAt(t, i, [BACKSLASH, 'u'], 0);
    HexPlain(hex);
    QuoteBehind(t, i + 2, hex);
  }

  lemma QuoteBehindPiece(t: string, i: nat, p: Piece)
    requires WellFormed(p) && Reads(t, i, Spelling(p))
    ensures ClosingQuote(t, i) == ClosingQuote(t, i + |Spelling(p)|)
  {
    hide HEX_DIGITS, SHORT_ESCAPES, CodeUnit, ClosingQuote, Reads;
    match p
    case Plain(c) => QuoteBehind(t, i, [c]);
    case Short(letter) => QuoteBehindShort(t, i, letter);
    case Unit(hex) => QuoteBehindUnit(t, i, hex);
    case Pair(high, low) => QuoteBehindPair(t, i, high, low);
  }

  lemma QuoteBehindShort(t: string, i: nat, letter: char)
    requires Reads(t, i, [BACKSLASH, letter])
    ensures ClosingQuote(t, i) == ClosingQuote(t, i + 2)
  {
    ReadsAt(t, i, [BACKSLASH, letter], 0);
  }

  lemma QuoteBehindPair(t: string, i: nat, high: string, low: string)
    requires FourHex(high) && FourHex(low) && Reads(t, i, [BACKSLASH, 'u'] + high + [BACKSLASH, 'u'] + low)
    ensures ClosingQuote(t, i) == ClosingQuote(t, i + 12)
  {
    hide *;
    PairSpelling(high, low);
    ReadsSplit(t, i, [BACKSLASH, 'u'] + high, [BACKSLASH, 'u'] + low);
    FourLong(high);
    QuoteBehindUnit(t, i, high);
    QuoteBehindUnit(t, i + 6, low);
  }

  lemma FourLong(hex: string)
    requires FourHex(hex)
    ensures |[BACKSLASH, 'u'] + hex| == 6
  {
  }

  lemma SpellingsFirst(ps: seq<Piece>)
    requires ps != []
    ensures Spellings(ps) == Spelling(ps[0]) + Spellings(ps[1..]) && |Spelling(ps[0])| > 0
  {
  }

  lemma SpellingsSplit(t: string, i: nat, end: nat, ps: seq<Piece>) returns (next: nat)
    requires ps != [] && Reads(t, i, Spellings(ps)) && i + |Spellings(ps)| == end
    ensures next == i + |Spelling(ps[0])| && i < next <= end
    ensures Reads(t, i, Spelling(ps[0])) && Reads(t, next, Spellings(ps[1..])) && next + |Spellings(ps[1..])| == end
  {
    hide *;
    next := i + |Spelling(ps[0])|;
    SpellingsFirst(ps);
    ReadsSplit(t, i, Spelling(ps[0]), Spellings(ps[1..]));
  }

  lemma {:induction false} QuoteFound(t: string, i: nat, end: nat, ps: seq<Piece>)
    requires AllWellFormed(ps) && Reads(t, i, Spellings(ps)) && i + |Spellings(ps)| == end && Sees(t, end, QUOTE)
    ensures ClosingQuote(t, i) == Some(end)
    decreases |ps|
  {
    hide *;
    if ps == [] {
      QuoteHere(t, end);
    } else {
      var next := SpellingsSplit(t, i, end, ps);
      FormedTail(ps);
      QuoteBehindPiece(t, i, ps[0]);
      QuoteFound(t, next, end, ps[1..]);
    }
  }

  lemma QuoteHere(t: string, end: nat)
    requires Sees(t, end, QUOTE)
    ensures |Spellings([])| == 0 && ClosingQuote(t, end) == Some(end)
  {
  }

  lemma FormedTail(ps: seq<Piece>)
    requires AllWellFormed(ps) && ps != []
    ensures WellFormed(ps[0]) && AllWellFormed(ps[1..])
  {
  }

  lemma HexRead(t: string, i: nat, hex: string)
    requires FourHex(hex) && Reads(t, i, [BACKSLASH, 'u'] + hex)
    ensures t[i] == BACKSLASH && t[i + 1] == 'u' && t[i + 2..i + 6] == hex
  {
    ReadsAt(t, i, [BACKSLASH, 'u'] + hex, 0);
    ReadsAt(t, i, [BACKSLASH, 'u'] + hex, 1);
    ReadsSplit(t, i, [BACKSLASH, 'u'], hex);
  }

  /** The second pass writes what a piece denotes and steps behind it. */
  lemma DecodePiece(t: string, i: nat, end: nat, p: Piece)
    requires WellFormed(p) && Reads(t, i, Spelling(p)) && i + |Spelling(p)| <= end < |t|
    ensures DecodeStep(t, i, end) == Some((Denoted(p), i + |Spelling(p)|))
  {
    hide HEX_DIGITS, SHORT_ESCAPES, CodeUnit, Bytes, Literal, Unescape, DecodeStep, Reads;
    match p
    case Plain(c) => PlainRead(t, i, end, c);
    case Short(letter) => ShortRead(t, i, end, letter);
    case Unit(hex) =>
      UnitRead(t, i, end, hex);
      EscapeStep(t, i, end);
    case Pair(high, low) =>
      PairSpelling(high, low);
      PairRead(t, i, end, high, low);
      EscapeStep(t, i, end);
  }

  lemma PlainRead(t: string, i: nat, end: nat, c: char)
    requires c != BACKSLASH && Reads(t, i, [c]) && i + 1 <= end < |t|
    ensures DecodeStep(t, i, end) == Some(([c], i + 1))
  {
    ReadsAt(t, i, [c], 0);
  }

  lemma EscapeStep(t: string, i: nat, end: nat)
    requires i < end < |t| && t[i] == BACKSLASH && t[i + 1] == 'u' && Literal(t, i, end).Some?
    ensures DecodeStep(t, i, end)
      == Some((Bytes(Literal(t, i, end).value.1), i + Literal(t, i, end).value.0))
  {
    hide Literal, Bytes;
  }

  lemma ShortRead(t: string, i: nat, end: nat, letter: char)
    requires letter in SHORT_ESCAPES && Reads(t, i, [BACKSLASH, letter]) && i + 2 <= end < |t|
    ensures DecodeStep(t, i, end) == Some(([SHORT_ESCAPES[letter]], i + 2))
  {
    NotUnit();
    hide SHORT_ESCAPES, Bytes, Literal, Unescape;
    UnescapeExact(letter);
    ReadsAt(t, i, [BACKSLASH, letter], 0);
    ReadsAt(t, i, [BACKSLASH, letter], 1);
  }

  lemma NotUnit()
    ensures 'u' !in SHORT_ESCAPES
  {
  }

  lemma PairSpelling(high: string, low: string)
    ensures [BACKSLASH, 'u'] + high + [BACKSLASH, 'u'] + low == ([BACKSLASH, 'u'] + high) + ([BACKSLASH, 'u'] + low)
  {
  }

  lemma UnitRead(t: string, i: nat, end: nat, hex: string)
    requires FourHex(hex) && !(0xD800 <= CodeUnit(hex) <= 0xDFFF)
    requires Reads(t, i, [BACKSLASH, 'u'] + hex) && i + 6 <= end < |t|
    ensures t[i] == BACKSLASH && t[i + 1] == 'u' && Literal(t, i, end) == Some((6, CodeUnit(hex)))
  {
    hide Hex4, HEX_DIGITS, CodeUnit;
    HexRight(hex);
    HexRead(t, i, hex);
  }

  lemma PairRead(t: string, i: nat, end: nat, high: string, low: string)
    requires FourHex(high) && FourHex(low)
    requires 0xD800 <= CodeUnit(high) <= 0xDBFF && 0xDC00 <= CodeUnit(low) <= 0xDFFF
    requires Reads(t, i, ([BACKSLASH, 'u'] + high) + ([BACKSLASH, 'u'] + low)) && i + 12 <= end < |t|
    ensures t[i] == BACKSLASH && t[i + 1] == 'u'
    ensures Literal(t, i, end)
      == Some((12, 0x10000 + (CodeUnit(high) - 0xD800) * 0x400 + (CodeUnit(low) - 0xDC00)))
  {
    hide Hex4, HEX_DIGITS, CodeUnit;
    HexRight(high);
    HexRight(low);
    ReadsSplit(t, i, [BACKSLASH, 'u'] + high, [BACKSLASH, 'u'] + low);
    HexRead(t, i, high);
    HexRead(t, i + 6, low);
  }

  /** A lone half of a surrogate pair is rejected. */
  lemma SurrogateRejected(t: string, i: nat, end: nat, hex: string)
    requires FourHex(hex) && Reads(t, i, [BACKSLASH, 'u'] + hex) && i + 6 <= end < |t|
    requires 0xD800 <= CodeUnit(hex) <= 0xDFFF
    requires forall low :: FourHex(low) && 0xDC00 <= CodeUnit(low) <= 0xDFFF ==>
      !Reads(t[..end], i + 6, [BACKSLASH, 'u'] + low)
    ensures DecodeStep(t, i, end) == None
  {
    hide Hex4, HEX_DIGITS, CodeUnit;
    HexRight(hex);
    HexRead(t, i, hex);
    if i + 12 <= end && t[i + 6] == BACKSLASH && t[i + 7] == 'u' {
      HexRight(t[i + 8..i + 12]);
      EscapeRead(t, i + 6, end);
    }
  }

  lemma EscapeRead(t: string, p: nat, end: nat)
    requires p + 6 <= end < |t| && t[p] == BACKSLASH && t[p + 1] == 'u'
    ensures Reads(t[..end], p, [BACKSLASH, 'u'] + t[p + 2..p + 6])
  {
    assert t[..end][p..p + 6] == [BACKSLASH, 'u'] + t[p + 2..p + 6];
  }

  lemma DecodeCons(t: string, i: nat, next: nat, end: nat, piece: string, rest: string)
    requires i < end < |t| && DecodeStep(t, i, end) == Some((piece, next)) && Decode(t, next, end) == Ok(rest, end)
    ensures Decode(t, i, end) == Ok(piece + rest, end)
  {
  }

  lemma {:induction false} DecodePieces(t: string, i: nat, end: nat, ps: seq<Piece>)
    requires AllWellFormed(ps) && Reads(t, i, Spellings(ps)) && i + |Spellings(ps)| == end < |t|
    ensures Decode(t, i, end) == Ok(DenotedAll(ps), end)
    decreases |ps|
  {
    hide *;
    if ps == [] {
      NothingDecoded(t, i, end);
    } else {
      var next := SpellingsSplit(t, i, end, ps);
      FormedTail(ps);
      DecodePiece(t, i, end, ps[0]);
      DecodePieces(t, next, end, ps[1..]);
      DecodeCons(t, i, next, end, Denoted(ps[0]), DenotedAll(ps[1..]));
      DenotedCons(ps);
    }
  }

  lemma NothingDecoded(t: string, i: nat, end: nat)
    requires i + |Spellings([])| == end < |t|
    ensures AllWellFormed([]) && Decode(t, i, end) == Ok(DenotedAll([]), end)
  {
  }

  lemma DenotedCons(ps: seq<Piece>)
    requires AllWellFormed(ps) && ps != []
    ensures WellFormed(ps[0]) && AllWellFormed(ps[1..]) && DenotedAll(ps) == Denoted(ps[0]) + DenotedAll(ps[1..])
  {
    hide WellFormed, Denoted;
  }

  /** A well-formed literal parses to the UTF-8 bytes it denotes, cut at a zero byte, and ends behind its quote. */
  lemma LiteralDenotes(t: string, o: nat, ps: seq<Piece>)
    requires AllWellFormed(ps) && Reads(t, o, [QUOTE] + Spellings(ps) + [QUOTE])
    ensures ParseString(t, o) == Ok(CString(DenotedAll(ps)), o + |Spellings(ps)| + 2)
  {
    hide Spellings, DenotedAll, CString, ParseString, Decode, ClosingQuote, AllWellFormed;
    var s := Spellings(ps);
    var end := o + 1 + |s|;
    QuotedReads(t, o, s);
    QuoteFound(t, o + 1, end, ps);
    DecodePieces(t, o + 1, end, ps);
    BothPasses(t, o, end, DenotedAll(ps));
  }

  lemma BothPasses(t: string, o: nat, end: nat, output: string)
    requires Sees(t, o, QUOTE) && ClosingQuote(t, o + 1) == Some(end) && Decode(t, o + 1, end) == Ok(output, end)
    ensures ParseString(t, o) == Ok(CString(output), end + 1)
  {
  }

  lemma QuotedReads(t: string, o: nat, s: string)
    requires Reads(t, o, [QUOTE] + s + [QUOTE])
    ensures t[o] == QUOTE && Reads(t, o + 1, s) && Sees(t, o + 1 + |s|, QUOTE)
  {
    ReadsSplit(t, o, [QUOTE] + s, [QUOTE]);
    ReadsSplit(t, o, [QUOTE], s);
    ReadsAt(t, o, [QUOTE], 0);
    ReadsAt(t, o + 1 + |s|, [QUOTE], 0);
  }

  // ---- the printer's literals ----

  /** The form print_string_ptr chooses for a character. */
  function PieceOf(c: char): Piece {
    if EscapeLetter(c) != NUL then Short(EscapeLetter(c))
    else if c < 32 as char then Unit(['0', '0', HexDigit(c as int / 16), HexDigit(c as int % 16)])
    else Plain(c)
  }

  lemma PieceFacts(c: char)
    ensures WellFormed(PieceOf(c)) && Spelling(PieceOf(c)) == EscapeChar(c) && Denoted(PieceOf(c)) == [c]
  {
    if EscapeLetter(c) != NUL {
      ShortOf(c);
      hide HEX_DIGITS, SHORT_ESCAPES, EscapeLetter, CodeUnit, Bytes;
    } else if c < 32 as char {
      ControlFacts(c);
      hide HEX_DIGITS, SHORT_ESCAPES, EscapeLetter, HexDigit, CodeUnit, FourHex, Bytes;
    } else {
      PlainFacts(c);
      hide HEX_DIGITS, SHORT_ESCAPES, EscapeLetter, CodeUnit, Bytes;
    }
  }

  lemma PlainFacts(c: char)
    requires EscapeLetter(c) == NUL
    ensures c != QUOTE && c != BACKSLASH
  {
  }

  lemma ControlFacts(c: char)
    requires c < 32 as char
    ensures var hex := ['0', '0', HexDigit(c as int / 16), HexDigit(c as int % 16)];
      FourHex(hex) && CodeUnit(hex) == c as int && Bytes(c as int) == [c]
  {
    DigitOf(c as int / 16);
    DigitOf(c as int % 16);
    ZeroDigit();
    hide HEX_DIGITS, HexDigit;
  }

  lemma ZeroDigit()
    ensures '0' in HEX_DIGITS && HEX_DIGITS['0'] == 0
  {
  }

  lemma ShortOf(c: char)
    requires EscapeLetter(c) != NUL
    ensures EscapeLetter(c) in SHORT_ESCAPES && SHORT_ESCAPES[EscapeLetter(c)] == c
  {
  }

  lemma DigitOf(v: nat)
    requires v < 16
    ensures HexDigit(v) in HEX_DIGITS && HEX_DIGITS[HexDigit(v)] == v
  {
  }

  /**
   * What print_string_ptr escapes: the characters of the short escapes, but for the slash, by their
   * letters; the other control characters by four lower-case digits; and nothing else.
   */
  lemma EscapeExact(c: char)
    ensures var digits, e := "0123456789abcdef", EscapeChar(c);
      if c != '/' && exists letter :: letter in SHORT_ESCAPES && SHORT_ESCAPES[letter] == c then
        |e| == 2 && e[0] == '\\' && e[1] in SHORT_ESCAPES && SHORT_ESCAPES[e[1]] == c
      else if c < 32 as char then e == "\\u00" + [digits[c as int / 16], digits[c as int % 16]]
      else e == [c]
  {
    var digits := "0123456789abcdef";
    assert forall v: nat | v < 16 :: HexDigit(v) == digits[v];
    if EscapeLetter(c) != NUL {
      ShortOf(c);
    } else if c != '/' {
      LetterOf(c);
    }
  }

  lemma LetterOf(c: char)
    requires EscapeLetter(c) == NUL && c != '/'
    ensures forall letter :: letter in SHORT_ESCAPES ==> SHORT_ESCAPES[letter] != c
  {
  }

  function PiecesOf(s: string): seq<Piece> {
    seq(|s|, i requires 0 <= i < |s| => PieceOf(s[i]))
  }

  lemma {:induction false} PiecesFacts(s: string)
    ensures AllWellFormed(PiecesOf(s)) && Spellings(PiecesOf(s)) == Escaped(s) && DenotedAll(PiecesOf(s)) == s
  {
    hide WellFormed, Spelling, Denoted, PieceOf, EscapeChar;
    forall i | 0 <= i < |s| ensures WellFormed(PiecesOf(s)[i]) {
      PieceFacts(s[i]);
    }
    if s != [] {
      PieceFacts(s[0]);
      PiecesFacts(s[1..]);
      assert PiecesOf(s)[1..] == PiecesOf(s[1..]);
      assert s == [s[0]] + s[1..];
    }
  }

  /** What the printer quotes, the parser reads back. */
  lemma QuotedParses(t: string, o: nat, s: string)
    requires NulFree(s) && Reads(t, o, Quoted(s))
    ensures ParseString(t, o) == Ok(s, o + |Quoted(s)|)
  {
    PiecesFacts(s);
    LiteralDenotes(t, o, PiecesOf(s));
  }
}
