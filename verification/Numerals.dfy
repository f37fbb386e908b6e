/** The text of a number: "%d" for what fits valueint, else "%1.15g", or "%1.17g" when 15 digits are too few. */
module Numerals {
  import opened Text
  import opened JsonTree

  function Power10(n: int): real
    decreases if n < 0 then -n else n
  {
    if n == 0 then 1.0 else if n > 0 then 10.0 * Power10(n - 1) else Power10(n + 1) / 10.0
  }

  lemma PowerPositive(n: int)
    ensures Power10(n) > 0.0
    decreases if n < 0 then -n else n
  {
    if n > 0 {
      PowerPositive(n - 1);
    } else if n < 0 {
      PowerPositive(n + 1);
    }
  }

  lemma PowerNext(n: int)
    ensures Power10(n + 1) == 10.0 * Power10(n)
  {
  }

  // ---- the decimal exponent ----

  /** How often a number of at least 1 can be divided by ten before it falls below ten. */
  function Above(a: real): nat
    requires a >= 1.0
    decreases a.Floor
  {
    if a < 10.0 then 0 else 1 + Above(a / 10.0)
  }

  /** How often a number below 1 must be multiplied by ten to reach 1. */
  function Below(a: real): nat
    requires 0.0 < a < 1.0
    decreases (1.0 / a).Floor
  {
    if a * 10.0 >= 1.0 then 1
    else
      Shrinks(a);
      1 + Below(a * 10.0)
  }

  lemma Shrinks(a: real)
    requires 0.0 < a && a * 10.0 < 1.0
    ensures (1.0 / (a * 10.0)).Floor < (1.0 / a).Floor
  {
    var x := 1.0 / a;
    assert x * a == 1.0;
    assert x > 10.0 by {
      if x <= 10.0 {
        Multiplied(x, 10.0, a);
      }
    }
    assert 1.0 / (a * 10.0) == x / 10.0;
    assert x / 10.0 <= x - 9.0;
  }

  lemma Multiplied(x: real, y: real, a: real)
    requires x <= y && a > 0.0
    ensures x * a <= y * a
  {
  }

  function Magnitude(a: real): int
    requires a > 0.0
  {
    if a >= 1.0 then Above(a) else 0 - Below(a)
  }

  lemma {:induction false} AboveFits(a: real)
    requires a >= 1.0
    ensures Power10(Above(a)) <= a < Power10(Above(a) + 1)
    decreases a.Floor
  {
    if a < 10.0 {
      assert Power10(1) == 10.0 * Power10(0);
    } else {
      AboveFits(a / 10.0);
      PowerNext(Above(a / 10.0));
      PowerNext(Above(a / 10.0) + 1);
    }
  }

  lemma {:induction false} BelowFits(a: real)
    requires 0.0 < a < 1.0
    ensures Power10(0 - Below(a)) <= a < Power10(1 - Below(a))
    decreases (1.0 / a).Floor
  {
    if a * 10.0 >= 1.0 {
      assert Power10(-1) == Power10(0) / 10.0;
    } else {
      Shrinks(a);
      BelowFits(a * 10.0);
      PowerNext(0 - Below(a * 10.0) - 1);
      PowerNext(0 - Below(a * 10.0));
    }
  }

  /** The exponent is the decimal one: 10^x <= a < 10^(x+1). */
  lemma MagnitudeFits(a: real)
    requires a > 0.0
    ensures Power10(Magnitude(a)) <= a < Power10(Magnitude(a) + 1)
  {
    if a >= 1.0 {
      AboveFits(a);
    } else {
      BelowFits(a);
    }
  }

  // ---- rounding to p significant digits ----

  /** The nearest integer, the even one of two. */
  function RoundEven(x: real): int {
    var f := x.Floor;
    var rest := x - f as real;
    if rest < 0.5 || (rest == 0.5 && f % 2 == 0) then f else f + 1
  }

  lemma RoundEvenNear(x: real)
    ensures Abs(RoundEven(x) as real - x) <= 0.5
    ensures Abs(RoundEven(x) as real - x) == 0.5 ==> RoundEven(x) % 2 == 0
  {
  }

  /** The weight of the last of p significant digits. */
  function Unit(a: real, p: nat): real
    requires a > 0.0
  {
    Power10(Magnitude(a) - p + 1)
  }

  function Digits(a: real, p: nat): int
    requires a > 0.0
  {
    PowerPositive(Magnitude(a) - p + 1);
    RoundEven(a / Unit(a, p))
  }

  /** The number that p significant digits spell. */
  function Rounded(d: real, p: nat): real
    requires d != 0.0
  {
    var a := Abs(d);
    (if d < 0.0 then -1.0 else 1.0) * (Digits(a, p) as real * Unit(a, p))
  }

  /** No number with p significant digits at that exponent is nearer; of two as near, the even one is taken. */
  lemma RoundedNear(d: real, p: nat)
    requires d != 0.0
    ensures Abs(Rounded(d, p) - d) <= Unit(Abs(d), p) / 2.0
    ensures Abs(Rounded(d, p) - d) == Unit(Abs(d), p) / 2.0 ==> Digits(Abs(d), p) % 2 == 0
  {
    hide Digits, Unit;
    var a := Abs(d);
    DigitsNear(a, p);
    SameSign(d, Digits(a, p) as real * Unit(a, p));
  }

  lemma DigitsNear(a: real, p: nat)
    requires a > 0.0
    ensures Abs(Digits(a, p) as real * Unit(a, p) - a) <= Unit(a, p) / 2.0
    ensures Abs(Digits(a, p) as real * Unit(a, p) - a) == Unit(a, p) / 2.0 ==> Digits(a, p) % 2 == 0
  {
    hide RoundEven, Magnitude, Power10;
    var u := Unit(a, p);
    PowerPositive(Magnitude(a) - p + 1);
    RoundEvenNear(a / u);
    ScaledNear(Digits(a, p) as real, a, u);
  }

  /** The rounded magnitude gets the sign back. */
  lemma SameSign(d: real, n: real)
    ensures Abs((if d < 0.0 then -1.0 else 1.0) * n - d) == Abs(n - Abs(d))
  {
  }

  lemma ScaledNear(n: real, a: real, u: real)
    requires u > 0.0 && Abs(n - a / u) <= 0.5
    ensures Abs(n * u - a) <= u / 2.0
    ensures Abs(n * u - a) == u / 2.0 ==> Abs(n - a / u) == 0.5
  {
    var q := a / u;
    assert q * u == a;
    assert n * u - a == (n - q) * u;
    Multiplied(n - q, 0.5, u);
    Multiplied(-0.5, n - q, u);
    HalfUnit(n - q, n * u - a, u);
  }

  lemma HalfUnit(x: real, y: real, u: real)
    requires u > 0.0 && y == x * u
    ensures Abs(y) == u / 2.0 ==> Abs(x) == 0.5
  {
    if y == u / 2.0 {
      ZeroFactor(x - 0.5, u);
    } else if -y == u / 2.0 {
      assert (x + 0.5) * u == x * u + 0.5 * u;
      ZeroFactor(x + 0.5, u);
    }
  }

  lemma ZeroFactor(x: real, u: real)
    requires u > 0.0 && x * u == 0.0
    ensures x == 0.0
  {
  }

  // ---- the text ----

  /** The last k digits of a number, zeros in front. */
  function Padded(n: nat, k: nat): (s: string)
    ensures |s| == k && AllDigits(s)
  {
    if k == 0 then "" else Padded(n / 10, k - 1) + [('0' as int + n % 10) as char]
  }

  /** Trailing zeros are not printed. */
  function Stripped(s: string): (r: string)
    ensures r <= s
  {
    if s != "" && s[|s| - 1] == '0' then Stripped(s[..|s| - 1]) else s
  }

  function Zeros(k: nat): (s: string)
    ensures |s| == k && AllDigits(s)
  {
    seq(k, _ => '0')
  }

  /** Integer digits, and a point only in front of fraction digits. */
  function Pointed(whole: string, fraction: string): string {
    whole + (if Stripped(fraction) == "" then "" else "." + Stripped(fraction))
  }

  function ExponentText(x: int): string {
    var k := if x < 0 then -x else x;
    (if x < 0 then "e-" else "e+") + (if k < 10 then "0" else "") + Decimal(k)
  }

  /** The p significant digits, and the exponent of the first: one higher when rounding carries. */
  function Kept(d: real, p: nat): (r: (string, int))
    requires d != 0.0 && p > 0
    ensures |r.0| == p && AllDigits(r.0)
  {
    var n := Digits(Abs(d), p);
    var digits := Padded(if n < 0 then 0 else n, p + 1);
    if digits[0] != '0' then (digits[..p], Magnitude(Abs(d)) + 1) else (digits[1..], Magnitude(Abs(d)))
  }

  /** Which digits stand in front of the point and which behind it. */
  function Placed(kept: string, x: int): (r: (string, string))
    requires kept != "" && AllDigits(kept)
    ensures r.0 != "" && AllDigits(r.0) && AllDigits(r.1)
  {
    if 0 <= x < |kept| then (kept[..x + 1], kept[x + 1..])
    else if -4 <= x < 0 then ("0", Zeros(-x - 1) + kept)
    else (kept[..1], kept[1..])
  }

  /** The exponent is printed when it is below -4 or there are too few digits. */
  function Tail(x: int, p: nat): string {
    if -4 <= x < p then "" else ExponentText(x)
  }

  /** "%1.pg" of a number other than zero. */
  function General(d: real, p: nat): string
    requires d != 0.0 && p > 0
  {
    var (kept, x) := Kept(d, p);
    var (whole, fraction) := Placed(kept, x);
    (if d < 0.0 then "-" else "") + Pointed(whole, fraction) + Tail(x, p)
  }

  /** What print_number writes. */
  function NumberText(d: real): string {
    if d == ValueInt(d) as real then DecimalInt(ValueInt(d))
    else if CompareDouble(Rounded(d, 15), d) then General(d, 15)
    else General(d, 17)
  }

  predicate NumeralChar(c: char) { IsDigit(c) || c == '.' || c == '-' || c == '+' || c == 'e' }

  lemma {:induction false} StrippedDigits(s: string)
    requires AllDigits(s)
    ensures AllDigits(Stripped(s))
  {
  }

  lemma PointedChars(whole: string, fraction: string)
    requires AllDigits(whole) && AllDigits(fraction)
    ensures forall c | c in Pointed(whole, fraction) :: NumeralChar(c)
  {
    StrippedDigits(fraction);
  }

  lemma ExponentChars(x: int)
    ensures forall c | c in ExponentText(x) :: NumeralChar(c)
  {
  }

  lemma GeneralChars(d: real, p: nat)
    requires d != 0.0 && p > 0
    ensures forall c | c in General(d, p) :: NumeralChar(c)
  {
    hide Kept, Placed, Pointed, ExponentText;
    var (kept, x) := Kept(d, p);
    var (whole, fraction) := Placed(kept, x);
    ExponentChars(x);
    PointedChars(whole, fraction);
  }

  /** Every character of a number's text can be read back as part of a number. */
  lemma NumberChars(d: real)
    ensures forall c | c in NumberText(d) :: NumeralChar(c)
  {
    hide General, Rounded;
    if d == ValueInt(d) as real {
    } else {
      GeneralChars(d, 15);
      GeneralChars(d, 17);
    }
  }

  /** It starts with a digit or a minus sign. */
  lemma NumberStart(d: real)
    ensures NumberText(d) != "" && (NumberText(d)[0] == '-' || IsDigit(NumberText(d)[0]))
  {
    hide Rounded, Kept, Placed, Tail, Decimal;
  }

  lemma {:induction false} DecimalShort(n: nat, k: nat)
    requires k > 0 && n as real < Power10(k)
    ensures |Decimal(n)| <= k
    decreases k
  {
    if n >= 10 {
      PowerNext(k - 1);
      assert k > 1;
      DecimalShort(n / 10, k - 1);
    }
  }

  /** A 32-bit integer takes at most eleven characters. */
  lemma IntegerShort(d: real)
    requires IsInt32(d)
    ensures NumberText(d) == DecimalInt(ValueInt(d)) && |NumberText(d)| <= 11
  {
    IntegerText(d);
    hide NumberText, Decimal, ValueInt;
    TenTen();
    DecimalShort(if ValueInt(d) < 0 then -ValueInt(d) else ValueInt(d), 10);
  }

  lemma IntegerText(d: real)
    requires IsInt32(d)
    ensures d == ValueInt(d) as real && INT_MIN <= ValueInt(d) <= INT_MAX
    ensures NumberText(d) == DecimalInt(ValueInt(d))
  {
    hide General, Rounded, DecimalInt, CompareDouble;
    var n := d.Floor;
    assert d == n as real;
    if d < 0.0 {
      assert -d == (-n) as real;
    }
  }

  lemma TenTen()
    ensures Power10(10) == 10000000000.0
  {
    assert Power10(5) == 100000.0;
  }
}
