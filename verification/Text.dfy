/** C strings as the code sees them: sequences of characters without the terminator. */
module Text {

  /** tolower of the C locale. */
  function ToLower(c: char): char {
    if 'A' <= c <= 'Z' then (c as int + 32) as char else c
  }

  const LETTERS: map<char, char> := map[
    'A' := 'a', 'B' := 'b', 'C' := 'c', 'D' := 'd', 'E' := 'e', 'F' := 'f', 'G' := 'g', 'H' := 'h', 'I' := 'i',
    'J' := 'j', 'K' := 'k', 'L' := 'l', 'M' := 'm', 'N' := 'n', 'O' := 'o', 'P' := 'p', 'Q' := 'q', 'R' := 'r',
    'S' := 's', 'T' := 't', 'U' := 'u', 'V' := 'v', 'W' := 'w', 'X' := 'x', 'Y' := 'y', 'Z' := 'z']

  /** The twenty-six letters, and no other character, change. */
  lemma ToLowerExact(c: char)
    ensures ToLower(c) == if c in LETTERS then LETTERS[c] else c
  {
    if 'A' <= c <= 'M' {
      FirstHalf(c);
    } else if 'N' <= c <= 'Z' {
      SecondHalf(c);
    } else {
      NoLetter(c);
    }
    hide LETTERS;
  }

  lemma FirstHalf(c: char)
    requires 'A' <= c <= 'M'
    ensures c in LETTERS && LETTERS[c] as int == c as int + 32
  {
  }

  lemma SecondHalf(c: char)
    requires 'N' <= c <= 'Z'
    ensures c in LETTERS && LETTERS[c] as int == c as int + 32
  {
  }

  lemma NoLetter(c: char)
    requires !('A' <= c <= 'Z')
    ensures c !in LETTERS
  {
  }

  /** The characters a comparison looks at: all of them, or their lower-case forms. */
  function Fold(s: string, caseSensitive: bool): (r: string)
    ensures |r| == |s|
  {
    if caseSensitive then s else seq(|s|, i requires 0 <= i < |s| => ToLower(s[i]))
  }

  lemma FoldCoarser(a: string, b: string, cs: bool)
    requires Fold(a, cs) == Fold(b, cs)
    ensures Fold(a, false) == Fold(b, false)
  {
  }

  /** No upper-case letter: both comparison modes see the same characters. */
  predicate NoUpper(s: string) {
    forall i | 0 <= i < |s| :: !('A' <= s[i] <= 'Z')
  }

  lemma NoUpperFold(s: string, cs: bool)
    requires NoUpper(s)
    ensures Fold(s, cs) == s
  {
  }

  /** The dictionary order strcmp decides. */
  predicate Before(a: string, b: string) {
    b != [] && (a == [] || a[0] < b[0] || (a[0] == b[0] && Before(a[1..], b[1..])))
  }

  lemma {:induction false} BeforeTrichotomy(a: string, b: string)
    ensures a == b || Before(a, b) || Before(b, a)
    ensures !(Before(a, b) && Before(b, a))
    ensures a == b ==> !Before(a, b)
  {
    if a != [] && b != [] {
      BeforeTrichotomy(a[1..], b[1..]);
      assert a == [a[0]] + a[1..] && b == [b[0]] + b[1..];
    }
  }

  lemma {:induction false} BeforeTransitive(a: string, b: string, c: string)
    requires Before(a, b) && Before(b, c)
    ensures Before(a, c)
  {
    if a != [] && a[0] == b[0] == c[0] {
      BeforeTransitive(a[1..], b[1..], c[1..]);
    }
  }

  /** compare_strings: negative, zero or positive. */
  function CompareStrings(a: string, b: string, cs: bool): int {
    if a == [] && b == [] then 0
    else if a == [] then -1
    else if b == [] then 1
    else
      var x, y := Fold(a[..1], cs)[0], Fold(b[..1], cs)[0];
      if x == y then CompareStrings(a[1..], b[1..], cs) else x as int - y as int
  }

  lemma {:induction false} CompareStringsOrder(a: string, b: string, cs: bool)
    ensures CompareStrings(a, b, cs) < 0 <==> Before(Fold(a, cs), Fold(b, cs))
    ensures CompareStrings(a, b, cs) == 0 <==> Fold(a, cs) == Fold(b, cs)
    ensures CompareStrings(a, b, cs) > 0 <==> Before(Fold(b, cs), Fold(a, cs))
  {
    var fa, fb := Fold(a, cs), Fold(b, cs);
    if a != [] && b != [] {
      CompareStringsOrder(a[1..], b[1..], cs);
      assert fa[1..] == Fold(a[1..], cs) && fb[1..] == Fold(b[1..], cs);
      assert fa == [fa[0]] + fa[1..] && fb == [fb[0]] + fb[1..];
    }
  }

  /** The walk of compare_strings over two non-null strings. */
  method CompareStringsLoop(a: string, b: string, cs: bool) returns (r: int)
    ensures r == CompareStrings(a, b, cs)
  {
    var i := 0;
    while i < |a| && i < |b| && Fold(a[i..i + 1], cs) == Fold(b[i..i + 1], cs)
      invariant i <= |a| && i <= |b|
      invariant CompareStrings(a[i..], b[i..], cs) == CompareStrings(a, b, cs)
    {
      assert a[i..][..1] == a[i..i + 1] && b[i..][..1] == b[i..i + 1];
      assert a[i..][1..] == a[i + 1..] && b[i..][1..] == b[i + 1..];
      i := i + 1;
    }
    if i == |a| && i == |b| {
      return 0;
    } else if i == |a| {
      return -1;
    } else if i == |b| {
      return 1;
    }
    assert a[i..][..1] == a[i..i + 1] && b[i..][..1] == b[i..i + 1];
    return Fold(a[i..i + 1], cs)[0] as int - Fold(b[i..i + 1], cs)[0] as int;
  }

  // ---- decimal numerals ("%lu", "%d") ----

  predicate IsDigit(c: char) { '0' <= c <= '9' }

  function DigitValue(c: char): nat
    requires IsDigit(c)
  {
    c as int - '0' as int
  }

  predicate AllDigits(s: string) {
    forall i | 0 <= i < |s| :: IsDigit(s[i])
  }

  /** "%lu" */
  function Decimal(n: nat): (s: string)
    ensures |s| >= 1 && AllDigits(s)
    ensures s[0] == '0' ==> |s| == 1
    ensures n > 0 ==> s[0] != '0'
  {
    if n < 10 then [(n + '0' as int) as char]
    else Decimal(n / 10) + [(n % 10 + '0' as int) as char]
  }

  /** The number that reading digits from left to right gives. */
  function DigitsValue(s: string, acc: nat): (r: nat)
    requires AllDigits(s)
    ensures acc <= r
  {
    if s == [] then acc else DigitsValue(s[1..], 10 * acc + DigitValue(s[0]))
  }

  lemma {:induction false} DigitsAppend(a: string, c: char, acc: nat)
    requires AllDigits(a) && IsDigit(c)
    ensures DigitsValue(a + [c], acc) == 10 * DigitsValue(a, acc) + DigitValue(c)
  {
    if a == [] {
      assert a + [c] == [c];
    } else {
      DigitsAppend(a[1..], c, 10 * acc + DigitValue(a[0]));
      assert (a + [c])[1..] == a[1..] + [c];
    }
  }

  lemma {:induction false} DecimalValue(n: nat)
    ensures DigitsValue(Decimal(n), 0) == n
  {
    if n >= 10 {
      DecimalValue(n / 10);
      DigitsAppend(Decimal(n / 10), (n % 10 + '0' as int) as char, 0);
    }
  }

  /** "%d" */
  function DecimalInt(n: int): (s: string)
    ensures |s| >= 1
  {
    if n < 0 then "-" + Decimal(-n) else Decimal(n)
  }
}
