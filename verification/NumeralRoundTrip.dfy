/** Reading a printed number back: strtod on what print_number writes. */
module NumeralRoundTrip {
  import opened Text
  import opened JsonTree
  import opened Numerals
  import opened Render
  import opened ParseText
  import N = JsonNumber

  /** The number that the text of d spells: d itself, or d at 15 or 17 significant digits. */
  function ReadBack(d: real): real {
    if d == ValueInt(d) as real then d else if CompareDouble(Rounded(d, 15), d) then Rounded(d, 15) else Rounded(d, 17)
  }

  // ---- powers of ten ----

  function Ten(k: nat): (r: nat)
    ensures r > 0
  {
    if k == 0 then 1 else 10 * Ten(k - 1)
  }

  lemma {:induction false} TenPower(k: nat)
    ensures Power10(k) == Ten(k) as real
  {
    if k > 0 {
      TenPower(k - 1);
    }
  }

  lemma {:induction false} PowerAdd(a: int, b: int)
    ensures Power10(a + b) == Power10(a) * Power10(b)
    decreases if a < 0 then -a else a
  {
    hide *;
    if a == 0 {
      PowerZero(b);
    } else if a > 0 {
      PowerAdd(a - 1, b);
      PowerNext(a - 1);
      PowerNext(a - 1 + b);
      StepUp(Power10(a - 1), Power10(b), Power10(a - 1 + b));
    } else {
      PowerAdd(a + 1, b);
      PowerNext(a);
      PowerNext(a + b);
      StepDown(Power10(a), Power10(b), Power10(a + b));
    }
  }

  lemma PowerZero(b: int)
    ensures Power10(0 + b) == Power10(0) * Power10(b)
  {
    assert Power10(0) == 1.0;
  }

  lemma StepUp(x: real, y: real, z: real)
    requires z == x * y
    ensures 10.0 * z == (10.0 * x) * y
  {
  }

  lemma StepDown(x: real, y: real, z: real)
    requires 10.0 * z == (10.0 * x) * y
    ensures z == x * y
  {
  }

  lemma {:induction false} PowerGrows(m: int, n: int)
    requires m <= n
    ensures Power10(m) <= Power10(n)
    decreases n - m
  {
    if m < n {
      PowerGrows(m, n - 1);
      PowerNext(n - 1);
      PowerPositive(n - 1);
    }
  }

  // ---- how long the text is ----

  /** Zero, or between 10^-999 and 10^999 in size: so is every finite double. */
  predicate DoubleSized(d: real) {
    d != 0.0 ==> Power10(-999) <= Abs(d) < Power10(999)
  }

  /** Every number that a double can hold has a text that fits the buffer of print_number. */
  lemma TextFits(d: real)
    requires DoubleSized(d)
    ensures |NumberText(d)| <= NUMBER_BUFFER
  {
    hide General, Rounded, ValueInt, Power10, DecimalInt;
    ZeroValue();
    if d == ValueInt(d) as real {
      ValueIsInt(d);
      IntegerShort(d);
    } else {
      GeneralFits(d, 15);
      GeneralFits(d, 17);
    }
  }

  lemma ValueIsInt(d: real)
    requires d == ValueInt(d) as real
    ensures IsInt32(d)
  {
    assert d.Floor == ValueInt(d);
  }

  lemma GeneralFits(d: real, p: nat)
    requires d != 0.0 && Power10(-999) <= Abs(d) < Power10(999) && 0 < p <= 17
    ensures |General(d, p)| <= 24
  {
    hide Placed, Pointed, Magnitude, Power10, Stripped, ExponentText;
    var a := Abs(d);
    var m := Magnitude(a);
    MagnitudeFits(a);
    if m >= 999 {
      PowerGrows(999, m);
    }
    if m < -999 {
      PowerGrows(m + 1, -999);
    }
    var (kept, x) := Kept(d, p);
    PlacedFits(kept, x);
    if !(-4 <= x < p) {
      ExponentFits(x);
    }
  }

  lemma PlacedFits(kept: string, x: int)
    requires kept != "" && AllDigits(kept)
    ensures var (whole, fraction) := Placed(kept, x);
      |Pointed(whole, fraction)| <= |kept| + (if -4 <= x < 0 then 5 else 1)
  {
    hide Stripped;
  }

  lemma ExponentFits(x: int)
    requires -999 <= x <= 999
    ensures |ExponentText(x)| <= 5
  {
    var k := if x < 0 then -x else x;
    hide Power10;
    if k >= 10 {
      hide Decimal;
      Thousand();
      DecimalShort(k, 3);
    }
  }

  lemma Thousand()
    ensures Power10(3) == 1000.0
  {
  }

  // ---- how far off the text is ----

  /** With 17 digits the text is within the tolerance of compare_double, so every number reads back as an equal one. */
  lemma ReadBackClose(d: real)
    ensures CompareDouble(ReadBack(d), d)
  {
    hide Rounded, ValueInt;
    ZeroValue();
    if d != ValueInt(d) as real {
      assert d != 0.0;
      SeventeenClose(d);
    }
  }

  lemma ZeroValue()
    ensures ValueInt(0.0) == 0
  {
  }

  lemma SeventeenClose(d: real)
    requires d != 0.0
    ensures CompareDouble(Rounded(d, 17), d)
  {
    hide *;
    AbsPositive(d);
    var a, m := Abs(d), Magnitude(Abs(d));
    HalfUnitOff(d, 17);
    MagnitudeFits(a);
    PowerAdd(m, -16);
    SixteenDown();
    UnitIs(a, 17);
    PowerPositive(-16);
    CloseEnough(Abs(Rounded(d, 17) - d), Power10(m), Power10(-16), a, DBL_EPSILON);
    WithinLarger(Rounded(d, 17), d);
  }

  lemma HalfUnitOff(d: real, p: nat)
    requires d != 0.0
    ensures Abs(d) > 0.0 && Abs(Rounded(d, p) - d) <= Unit(Abs(d), p) / 2.0
  {
    AbsPositive(d);
    hide Rounded, Unit, Abs, Digits;
    RoundedNear(d, p);
  }

  lemma UnitIs(a: real, p: nat)
    requires a > 0.0
    ensures Unit(a, p) == Power10(Magnitude(a) + (1 - p))
  {
    hide Magnitude, Power10;
  }

  lemma WithinLarger(x: real, d: real)
    requires Abs(x - d) <= Abs(d) * DBL_EPSILON
    ensures CompareDouble(x, d)
  {
    var larger := if Abs(x) > Abs(d) then Abs(x) else Abs(d);
    Multiplied(Abs(d), larger, DBL_EPSILON);
  }

  lemma SixteenDown()
    ensures Power10(-16) / 2.0 <= DBL_EPSILON
  {
    PowerAdd(-8, -8);
    assert Power10(-4) == 0.0001 by {
      assert Power10(-2) == 0.01;
    }
    PowerAdd(-4, -4);
  }

  lemma CloseEnough(off: real, low: real, q: real, a: real, eps: real)
    requires off <= low * q / 2.0 && low <= a && a > 0.0 && 0.0 < q && q / 2.0 <= eps
    ensures off <= a * eps
  {
    var half := q / 2.0;
    assert low * q / 2.0 == low * half;
    Multiplied(low, a, half);
    Multiplied(half, eps, a);
    assert half * a == a * half && eps * a == a * eps;
  }

  // ---- the value of digit strings ----

  lemma {:induction false} DigitsConcat(a: string, b: string, acc: nat)
    requires AllDigits(a) && AllDigits(b)
    ensures AllDigits(a + b) && DigitsValue(a + b, acc) == DigitsValue(b, DigitsValue(a, acc))
  {
    if a == [] {
      assert a + b == b;
    } else {
      DigitsConcat(a[1..], b, 10 * acc + DigitValue(a[0]));
      assert (a + b)[1..] == a[1..] + b;
    }
  }

  lemma {:induction false} ZerosValue(k: nat)
    ensures DigitsValue(Zeros(k), 0) == 0
  {
    if k > 0 {
      assert Zeros(k)[1..] == Zeros(k - 1);
      ZerosValue(k - 1);
    }
  }

  /** Zeros that are stripped only scale. */
  lemma {:induction false} StrippedValue(w: string, s: string)
    requires AllDigits(w) && AllDigits(s)
    ensures AllDigits(Stripped(s)) && AllDigits(w + s) && AllDigits(w + Stripped(s))
    ensures DigitsValue(w + s, 0) == DigitsValue(w + Stripped(s), 0) * Ten(|s| - |Stripped(s)|)
  {
    if s != "" && s[|s| - 1] == '0' {
      var front := s[..|s| - 1];
      StrippedValue(w, front);
      DigitsAppend(w + front, '0', 0);
      assert (w + front) + ['0'] == w + s;
      ScaledOnce(DigitsValue(w + Stripped(front), 0), Ten(|front| - |Stripped(front)|));
    }
  }

  lemma ScaledOnce(v: nat, t: nat)
    ensures 10 * (v * t) == v * (10 * t)
  {
  }

  lemma {:induction false} PaddedValue(n: nat, k: nat)
    requires n < Ten(k)
    ensures DigitsValue(Padded(n, k), 0) == n
    decreases k
  {
    if k > 0 {
      PaddedValue(n / 10, k - 1);
      DigitsAppend(Padded(n / 10, k - 1), ('0' as int + n % 10) as char, 0);
    }
  }

  lemma {:induction false} PaddedZero(n: nat, k: nat)
    requires n < Ten(k)
    ensures Padded(n, k + 1)[0] == '0'
    decreases k
  {
    if k > 0 {
      PaddedZero(n / 10, k - 1);
      assert Padded(n, k + 1)[0] == Padded(n / 10, k)[0];
    }
  }

  // ---- the significant digits ----

  /** Rounding stays between neighbouring powers of ten. */
  lemma DigitsFit(a: real, p: nat)
    requires a > 0.0 && p > 0
    ensures 0 < Digits(a, p) <= Ten(p)
  {
    hide Unit, RoundEven, Ten;
    PowerPositive(Magnitude(a) - p + 1);
    UnitQuotient(a, p);
    RoundBetween(a / Unit(a, p), Ten(p));
  }

  lemma UnitQuotient(a: real, p: nat)
    requires a > 0.0 && p > 0
    ensures Unit(a, p) > 0.0 && 1.0 <= a / Unit(a, p) < Ten(p) as real
  {
    hide Magnitude, Power10, Ten;
    var m := Magnitude(a);
    MagnitudeFits(a);
    PowerPositive(m - p + 1);
    PowerAdd(p - 1, m - p + 1);
    PowerAdd(p, m - p + 1);
    TenPower(p);
    TenPower(p - 1);
    Quotient(a, Ten(p - 1), Ten(p), Unit(a, p));
  }

  lemma Quotient(a: real, low: nat, high: nat, u: real)
    requires u > 0.0 && low as real * u <= a < high as real * u
    ensures low as real <= a / u < high as real
  {
    var q := a / u;
    assert q * u == a;
    if q < low as real {
      Smaller(q, low as real, u);
    }
    if q >= high as real {
      Multiplied(high as real, q, u);
    }
  }

  lemma Smaller(x: real, y: real, u: real)
    requires x < y && u > 0.0
    ensures x * u < y * u
  {
  }

  lemma RoundBetween(x: real, high: nat)
    requires 1.0 <= x < high as real
    ensures 0 < RoundEven(x) <= high
  {
  }

  lemma KeptValue(d: real, p: nat)
    requires d != 0.0 && p > 0
    ensures var (kept, x) := Kept(d, p);
      DigitsValue(kept, 0) as real * Power10(x - p + 1) == Digits(Abs(d), p) as real * Unit(Abs(d), p)
  {
    hide Magnitude, Power10, Digits, Padded, DigitsValue, Abs;
    var a := Abs(d);
    AbsPositive(d);
    DigitsFit(a, p);
    var n: nat := Digits(a, p);
    var u := Power10(Magnitude(a) - p + 1);
    if Padded(n, p + 1)[0] != '0' {
      if n < Ten(p) {
        PaddedZero(n, p);
      }
      CarriedValue(n, p);
      PowerNext(Magnitude(a) - p + 1);
      CarriedScale(n / 10, u);
      assert Power10(Magnitude(a) + 1 - p + 1) == 10.0 * u;
    } else {
      TenBelow(n, p);
      PaddedValue(n, p + 1);
      LeadingZero(Padded(n, p + 1));
    }
  }

  lemma AbsPositive(d: real)
    requires d != 0.0
    ensures Abs(d) > 0.0
  {
  }

  lemma TenBelow(n: nat, p: nat)
    requires n <= Ten(p)
    ensures n < Ten(p + 1)
  {
  }

  lemma CarriedValue(n: nat, p: nat)
    requires p > 0 && n == Ten(p)
    ensures n == 10 * (n / 10) && DigitsValue(Padded(n, p + 1)[..p], 0) == n / 10
  {
    assert Padded(n, p + 1)[..p] == Padded(n / 10, p);
    PaddedValue(n / 10, p);
  }

  lemma CarriedScale(k: nat, u: real)
    ensures k as real * (10.0 * u) == (10 * k) as real * u
  {
  }

  lemma LeadingZero(s: string)
    requires s != "" && AllDigits(s) && s[0] == '0'
    ensures DigitsValue(s[1..], 0) == DigitsValue(s, 0)
  {
  }

  // ---- the text as a numeral ----

  /** Two digits at least. */
  function PowerDigits(k: nat): string { (if k < 10 then "0" else "") + Decimal(k) }

  lemma PaddedDecimal(k: nat)
    ensures AllDigits(PowerDigits(k)) && DigitsValue(PowerDigits(k), 0) == k
  {
    hide Decimal;
    DigitsConcat(if k < 10 then "0" else "", Decimal(k), 0);
    DecimalValue(k);
  }

  function PowerOf(x: int, p: nat): Option<N.Power> {
    if -4 <= x < p then None
    else Some(N.Power('e', if x < 0 then "-" else "+", PowerDigits(if x < 0 then -x else x)))
  }

  /** The parts of the text of "%1.pg". */
  function NumeralOf(d: real, p: nat): N.Numeral
    requires d != 0.0 && p > 0
  {
    var (kept, x) := Kept(d, p);
    var (whole, fraction) := Placed(kept, x);
    var f := Stripped(fraction);
    N.Numeral(if d < 0.0 then "-" else "", whole, if f == "" then None else Some(f), PowerOf(x, p))
  }

  lemma NumeralSpelled(d: real, p: nat)
    requires d != 0.0 && p > 0
    ensures N.Spelled(NumeralOf(d, p)) == General(d, p)
  {
    hide Kept, Placed, Stripped, Decimal;
    var (kept, x) := Kept(d, p);
    var (whole, fraction) := Placed(kept, x);
    var n := NumeralOf(d, p);
    TailSpelled(x, p);
    assert N.PowerText(n) == Tail(x, p);
    assert Pointed(whole, fraction) == n.whole + N.PointText(n);
    hide Tail, Pointed, N.PowerText, N.PointText;
    assert n.sign + (n.whole + N.PointText(n)) + N.PowerText(n) == n.sign + n.whole + N.PointText(n) + N.PowerText(n);
  }

  lemma TailSpelled(x: int, p: nat)
    ensures Tail(x, p)
      == if PowerOf(x, p).None? then ""
         else [PowerOf(x, p).value.mark] + PowerOf(x, p).value.sign + PowerOf(x, p).value.digits
  {
    hide Decimal;
    assert ['e'] + "-" == "e-" && ['e'] + "+" == "e+";
  }

  lemma NumeralFormed(d: real, p: nat)
    requires d != 0.0 && p > 0
    ensures N.WellFormed(NumeralOf(d, p))
    ensures N.PowerValue(NumeralOf(d, p)) == if -4 <= Kept(d, p).1 < p then 0 else Kept(d, p).1
  {
    hide Kept, Placed, Stripped, PowerDigits, DigitsValue;
    var (kept, x) := Kept(d, p);
    var (whole, fraction) := Placed(kept, x);
    StrippedDigits(fraction);
    PaddedDecimal(if x < 0 then -x else x);
    assert PowerOf(x, p).Some? ==> PowerOf(x, p).value.digits != "" by {
      assert |PowerDigits(if x < 0 then -x else x)| > 0 by {
        TwoDigits(if x < 0 then -x else x);
      }
    }
  }

  lemma TwoDigits(k: nat)
    ensures |PowerDigits(k)| >= 2 && (PowerDigits(k)[0] == '0' ==> |PowerDigits(k)| == 2)
  {
    if k >= 10 {
      assert |Decimal(k / 10)| >= 1;
    }
  }

  /** The zeros that are not printed do not change the value. */
  lemma StrippedScale(whole: string, fraction: string, e: int)
    requires AllDigits(whole) && AllDigits(fraction)
    ensures AllDigits(whole + fraction) && AllDigits(Stripped(fraction)) && AllDigits(whole + Stripped(fraction))
    ensures DigitsValue(whole + Stripped(fraction), 0) as real * Power10(e - |Stripped(fraction)|)
         == DigitsValue(whole + fraction, 0) as real * Power10(e - |fraction|)
  {
    hide Stripped, Power10, DigitsValue, Ten;
    StrippedValue(whole, fraction);
    var f := Stripped(fraction);
    var k := |fraction| - |f|;
    TenPower(k);
    PowerAdd(k, e - |fraction|);
    MovedScale(DigitsValue(whole + f, 0), Ten(k), Power10(e - |fraction|));
  }

  lemma MovedScale(v: nat, t: nat, u: real)
    ensures v as real * (t as real * u) == (v * t) as real * u
  {
  }

  /** However the digits are placed, they and the printed exponent give the same number. */
  lemma PlacedValue(kept: string, x: int)
    requires kept != "" && AllDigits(kept)
    ensures var (whole, fraction) := Placed(kept, x);
      && AllDigits(whole + fraction) && DigitsValue(whole + fraction, 0) == DigitsValue(kept, 0)
      && (if -4 <= x < |kept| then 0 else x) - |fraction| == x - |kept| + 1
  {
    hide DigitsValue, AllDigits, Zeros;
    if 0 <= x < |kept| {
      TwoParts(kept, x + 1);
    } else if -4 <= x < 0 {
      ZerosInFront(kept, -x - 1);
    } else {
      TwoParts(kept, 1);
    }
  }

  lemma TwoParts(s: string, k: nat)
    requires k <= |s|
    ensures s[..k] + s[k..] == s && |s[k..]| == |s| - k
  {
  }

  lemma ZerosInFront(kept: string, k: nat)
    requires AllDigits(kept)
    ensures var s := "0" + (Zeros(k) + kept);
      AllDigits(s) && DigitsValue(s, 0) == DigitsValue(kept, 0)
  {
    hide DigitsValue, Zeros;
    var front := "0" + Zeros(k);
    assert "0" + (Zeros(k) + kept) == front + kept;
    ZerosValue(k);
    LeadingZero(front);
    assert front[1..] == Zeros(k);
    DigitsConcat(front, kept, 0);
  }

  lemma NumeralValue(d: real, p: nat)
    requires d != 0.0 && p > 0
    ensures N.WellFormed(NumeralOf(d, p)) && N.Value(NumeralOf(d, p)) == Rounded(d, p)
  {
    hide *;
    NumeralFormed(d, p);
    NumeralParts(d, p);
    RoundedIs(d, p);
    KeptValue(d, p);
    var (kept, x) := Kept(d, p);
    var (whole, fraction) := Placed(kept, x);
    var f := Stripped(fraction);
    var e := if -4 <= x < p then 0 else x;
    StrippedScale(whole, fraction, e);
    PlacedValue(kept, x);
    ValueIs(NumeralOf(d, p), whole + f, e - |f|);
  }

  lemma ValueIs(n: N.Numeral, digits: string, power: int)
    requires N.WellFormed(n) && n.whole + N.Behind(n) == digits && N.PowerValue(n) - |N.Behind(n)| == power
    requires AllDigits(digits)
    ensures var v := DigitsValue(digits, 0) as real * Power10(power);
      N.Value(n) == if n.sign == "-" then -v else v
  {
    hide N.WellFormed, N.PowerValue, DigitsValue, Power10;
  }

  lemma RoundedIs(d: real, p: nat)
    requires d != 0.0
    ensures var v := Digits(Abs(d), p) as real * Unit(Abs(d), p);
      Rounded(d, p) == if d < 0.0 then -v else v
  {
    hide Digits, Unit;
    Signed(d, Digits(Abs(d), p) as real * Unit(Abs(d), p));
  }

  lemma NumeralParts(d: real, p: nat)
    requires d != 0.0 && p > 0
    ensures var (whole, fraction) := Placed(Kept(d, p).0, Kept(d, p).1);
      var n := NumeralOf(d, p);
      n.whole == whole && N.Behind(n) == Stripped(fraction) && (n.sign == "-" <==> d < 0.0)
  {
    hide Kept, Placed, Stripped, PowerOf;
  }

  lemma Signed(d: real, v: real)
    ensures (if d < 0.0 then -1.0 else 1.0) * v == if d < 0.0 then -v else v
  {
  }

  /** strtod reads the text of "%1.pg" to its end, as the number rounded to p digits. */
  lemma StrtodGeneral(d: real, p: nat)
    requires d != 0.0 && p > 0
    ensures Strtod(General(d, p)) == Some((Rounded(d, p), |General(d, p)|))
  {
    hide *;
    NumeralSpelled(d, p);
    NumeralValue(d, p);
    N.NumeralRead(NumeralOf(d, p));
  }

  /** strtod on "%d". */
  lemma StrtodInt(n: int)
    ensures Strtod(DecimalInt(n)) == Some((n as real, |DecimalInt(n)|))
  {
    hide Decimal, DigitsValue, Strtod;
    var digits := Decimal(if n < 0 then -n else n);
    var numeral := N.Numeral(if n < 0 then "-" else "", digits, None, None);
    assert digits + "" == digits && N.Spelled(numeral) == DecimalInt(n);
    N.NumeralRead(numeral);
    DecimalValue(if n < 0 then -n else n);
    assert Power10(0) == 1.0;
  }

  /** strtod reads the text of every number to its end; 17 digits are printed only where 15 lose too much. */
  lemma StrtodText(d: real)
    ensures Strtod(NumberText(d)) == Some((ReadBack(d), |NumberText(d)|))
    ensures d != 0.0 && !IsInt32(d) ==>
      ReadBack(d) == if CompareDouble(Rounded(d, 15), d) then Rounded(d, 15) else Rounded(d, 17)
  {
    hide Strtod, General, Rounded, DecimalInt;
    ZeroValue();
    if d == ValueInt(d) as real {
      ValueIsInt(d);
      StrtodInt(ValueInt(d));
    } else if CompareDouble(Rounded(d, 15), d) {
      StrtodGeneral(d, 15);
    } else {
      StrtodGeneral(d, 17);
    }
  }

  // ---- the form of the text ----

  /** The kept digits are significant from the first on, and the exponent is that of the rounded number. */
  lemma KeptExponent(d: real, p: nat)
    requires d != 0.0 && p > 0
    ensures var (kept, x) := Kept(d, p);
      kept[0] != '0' && Power10(x) <= Abs(Rounded(d, p)) < Power10(x + 1)
  {
    hide *;
    KeptFirst(d, p);
    KeptValue(d, p);
    RoundedAbs(d, p);
    var (kept, x) := Kept(d, p);
    DigitsSpan(kept);
    PowersSpan(DigitsValue(kept, 0), x, p);
  }

  lemma PowersSpan(v: nat, x: int, p: nat)
    requires p > 0 && Ten(p - 1) <= v < Ten(p)
    ensures Power10(x) <= v as real * Power10(x - p + 1) < Power10(x + 1)
  {
    hide Power10, Ten;
    var u := Power10(x - p + 1);
    PowerPositive(x - p + 1);
    PowerAdd(p - 1, x - p + 1);
    PowerAdd(p, x - p + 1);
    TenPower(p);
    TenPower(p - 1);
    Multiplied(Ten(p - 1) as real, v as real, u);
    Smaller(v as real, Ten(p) as real, u);
  }

  lemma RoundedAbs(d: real, p: nat)
    requires d != 0.0 && p > 0
    ensures Abs(Rounded(d, p)) == Digits(Abs(d), p) as real * Unit(Abs(d), p)
  {
    AbsPositive(d);
    DigitsFit(Abs(d), p);
    PowerPositive(Magnitude(Abs(d)) - p + 1);
    assert Unit(Abs(d), p) > 0.0;
    RoundedIs(d, p);
    hide Digits, Unit, Rounded;
    Product(Digits(Abs(d), p) as real, Unit(Abs(d), p));
  }

  lemma Product(x: real, y: real)
    requires x > 0.0 && y > 0.0
    ensures x * y > 0.0
  {
  }

  lemma {:induction false} DigitsSpan(s: string)
    requires s != "" && AllDigits(s) && s[0] != '0'
    ensures Ten(|s| - 1) <= DigitsValue(s, 0) < Ten(|s|)
    decreases |s|
  {
    if |s| == 1 {
      assert s[1..] == "" && Ten(1) == 10 * Ten(0) == 10;
    } else {
      var front, c := s[..|s| - 1], s[|s| - 1];
      assert s == front + [c];
      DigitsSpan(front);
      DigitsAppend(front, c, 0);
    }
  }

  lemma KeptFirst(d: real, p: nat)
    requires d != 0.0 && p > 0
    ensures Kept(d, p).0[0] != '0'
  {
    var a := Abs(d);
    AbsPositive(d);
    DigitsFit(a, p);
    DigitsAtLeast(a, p);
    hide Magnitude, Power10, Abs, Digits, Padded, Ten;
    var n: nat := Digits(a, p);
    if Padded(n, p + 1)[0] == '0' {
      if n == Ten(p) {
        FirstPadded(n, p + 1);
      }
      PaddedTail(n, p);
      FirstPadded(n, p);
    }
  }

  lemma {:induction false} PaddedTail(n: nat, k: nat)
    ensures Padded(n, k + 1)[1..] == Padded(n, k)
    decreases k
  {
    if k > 0 {
      PaddedTail(n / 10, k - 1);
      var last := [('0' as int + n % 10) as char];
      assert Padded(n, k + 1) == Padded(n / 10, k) + last && Padded(n, k) == Padded(n / 10, k - 1) + last;
    }
  }

  lemma {:induction false} FirstPadded(n: nat, k: nat)
    requires k > 0 && Ten(k - 1) <= n < Ten(k)
    ensures Padded(n, k)[0] != '0'
    decreases k
  {
    if k == 1 {
      assert Ten(1) == 10 * Ten(0) == 10;
      assert Padded(n, 1) == Padded(n / 10, 0) + [('0' as int + n % 10) as char];
    } else {
      FirstPadded(n / 10, k - 1);
      assert Padded(n, k)[0] == Padded(n / 10, k - 1)[0];
    }
  }

  lemma DigitsAtLeast(a: real, p: nat)
    requires a > 0.0 && p > 0
    ensures Digits(a, p) >= Ten(p - 1)
  {
    hide Magnitude, Power10, Ten;
    var m := Magnitude(a);
    MagnitudeFits(a);
    PowerPositive(m - p + 1);
    PowerAdd(p - 1, m - p + 1);
    PowerAdd(p, m - p + 1);
    TenPower(p);
    TenPower(p - 1);
    Quotient(a, Ten(p - 1), Ten(p), Unit(a, p));
  }

  /**
   * The form of a number that is no integer of 32 bits: no superfluous zero in front or behind, a point only
   * in front of digits, and an exponent, of at least two digits and behind a single digit, exactly when the
   * rounded number is below 10^-4 or has more than p integer digits.
   */
  lemma GeneralForm(d: real, p: nat)
    requires d != 0.0 && p > 0
    ensures var n := NumeralOf(d, p);
      && N.Spelled(n) == General(d, p) && N.WellFormed(n) && N.Value(n) == Rounded(d, p)
      && n.sign == (if d < 0.0 then "-" else "") && n.whole != "" && (n.whole[0] == '0' ==> n.whole == "0")
      && (n.fraction.Some? ==> n.fraction.value != "" && n.fraction.value[|n.fraction.value| - 1] != '0')
      && (n.power.Some? <==> Abs(Rounded(d, p)) < 0.0001 || Abs(Rounded(d, p)) >= Power10(p))
      && (n.power.Some? ==>
        && n.power.value.mark == 'e' && n.power.value.sign != "" && |n.whole| == 1 && n.whole != "0"
        && |n.power.value.digits| >= 2 && (n.power.value.digits[0] == '0' ==> |n.power.value.digits| == 2))
  {
    hide *;
    NumeralSpelled(d, p);
    NumeralValue(d, p);
    KeptExponent(d, p);
    NumeralShape(d, p);
    ExponentNeeded(Abs(Rounded(d, p)), Kept(d, p).1, p);
  }

  /** The parts by the kept digits and their exponent. */
  lemma NumeralShape(d: real, p: nat)
    requires d != 0.0 && p > 0 && Kept(d, p).0[0] != '0'
    ensures var n := NumeralOf(d, p);
      && n.sign == (if d < 0.0 then "-" else "") && n.whole != "" && (n.whole[0] == '0' ==> n.whole == "0")
      && (n.fraction.Some? ==> n.fraction.value != "" && n.fraction.value[|n.fraction.value| - 1] != '0')
      && (n.power.Some? <==> !(-4 <= Kept(d, p).1 < p))
      && (n.power.Some? ==>
        && n.power.value.mark == 'e' && n.power.value.sign != "" && |n.whole| == 1 && n.whole != "0"
        && |n.power.value.digits| >= 2 && (n.power.value.digits[0] == '0' ==> |n.power.value.digits| == 2))
  {
    var (kept, x) := Kept(d, p);
    PlacedShape(kept, x);
    TwoDigits(if x < 0 then -x else x);
    StrippedEnd(Placed(kept, x).1);
    hide Kept, Stripped, PowerDigits, Placed;
  }

  lemma PlacedShape(kept: string, x: int)
    requires kept != "" && AllDigits(kept) && kept[0] != '0'
    ensures var whole := Placed(kept, x).0;
      && whole != "" && (whole[0] == '0' ==> whole == "0")
      && (!(-4 <= x < |kept|) ==> |whole| == 1 && whole != "0")
  {
    assert kept[..1][0] == kept[0];
  }

  lemma {:induction false} StrippedEnd(s: string)
    ensures Stripped(s) != "" ==> Stripped(s)[|Stripped(s)| - 1] != '0'
    decreases |s|
  {
    if s != "" && s[|s| - 1] == '0' {
      StrippedEnd(s[..|s| - 1]);
    }
  }

  lemma ExponentNeeded(r: real, x: int, p: nat)
    requires Power10(x) <= r < Power10(x + 1)
    ensures !(-4 <= x < p) <==> r < 0.0001 || r >= Power10(p)
  {
    TenThousandth();
    hide Power10;
    if x < -4 {
      PowerGrows(x + 1, -4);
    } else {
      PowerGrows(-4, x);
    }
    if x >= p {
      PowerGrows(p, x);
    } else {
      PowerGrows(x + 1, p);
    }
  }

  lemma TenThousandth()
    ensures Power10(-4) == 0.0001
  {
    assert Power10(-2) == 0.01;
  }
}
