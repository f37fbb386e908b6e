/** Decimal numerals by their parts, and that strtod reads exactly these. */
module JsonNumber {
  import opened Text
  import opened JsonTree
  import opened Numerals
  import opened ParseText

  /** An exponent: its letter, its sign and its digits. */
  datatype Power = Power(mark: char, sign: string, digits: string)

  /** A numeral: sign, digits, digits behind a point, exponent; every number of section 6 of RFC 8259 is one. */
  datatype Numeral = Numeral(sign: string, whole: string, fraction: Option<string>, power: Option<Power>)

  predicate IsSign(s: string) { s == "" || s == "-" || s == "+" }

  predicate WellFormed(n: Numeral) {
    && IsSign(n.sign) && AllDigits(n.whole) && AllDigits(Behind(n)) && n.whole + Behind(n) != ""
    && (n.power.Some? ==>
      && (n.power.value.mark == 'e' || n.power.value.mark == 'E') && IsSign(n.power.value.sign)
      && n.power.value.digits != "" && AllDigits(n.power.value.digits))
  }

  /** The digits behind the point. */
  function Behind(n: Numeral): string { if n.fraction.Some? then n.fraction.value else "" }

  function PointText(n: Numeral): string { if n.fraction.Some? then "." + n.fraction.value else "" }

  function PowerText(n: Numeral): string {
    if n.power.Some? then [n.power.value.mark] + n.power.value.sign + n.power.value.digits else ""
  }

  function Spelled(n: Numeral): string {
    n.sign + n.whole + PointText(n) + PowerText(n)
  }

  function PowerValue(n: Numeral): int
    requires WellFormed(n)
  {
    if n.power.None? then 0
    else
      var x: int := DigitsValue(n.power.value.digits, 0);
      if n.power.value.sign == "-" then -x else x
  }

  /** The exponent counts from behind the last digit. */
  function Value(n: Numeral): real
    requires WellFormed(n)
  {
    JoinedDigits(n.whole, Behind(n));
    Scaled(n.sign == "-", n.whole + Behind(n), PowerValue(n) - |Behind(n)|)
  }

  lemma JoinedDigits(a: string, b: string)
    requires AllDigits(a) && AllDigits(b)
    ensures AllDigits(a + b)
  {
  }

  lemma {:induction false} DigitsStop(s: string, i: nat, e: nat)
    requires i <= e <= |s| && AllDigits(s[i..e]) && (e < |s| ==> !IsDigit(s[e]))
    ensures DigitsEnd(s, i) == e
    decreases e - i
  {
    if i < e {
      assert s[i..e][0] == s[i] && s[i..e][1..] == s[i + 1..e];
      DigitsStop(s, i + 1, e);
    }
  }

  /** Where the parts of a spelled numeral lie. */
  lemma PartsLie(n: Numeral)
    requires WellFormed(n)
    ensures var s, i := Spelled(n), |n.sign|;
      var w := i + |n.whole|;
      var m := w + |PointText(n)|;
      && |s| == m + |PowerText(n)|
      && s[..i] == n.sign && s[i..w] == n.whole && s[w..m] == PointText(n) && s[m..] == PowerText(n)
  {
    hide PointText, PowerText;
    var front := n.sign + n.whole;
    Halves(n.sign, n.whole);
    Halves(front, PointText(n));
    Halves(front + PointText(n), PowerText(n));
    var s := Spelled(n);
    var w := |front|;
    var m := w + |PointText(n)|;
    assert s[w..m] == s[..m][w..] && s[..w] == s[..m][..w] && s[|n.sign|..w] == s[..w][|n.sign|..];
    assert s[..|n.sign|] == s[..w][..|n.sign|];
  }

  lemma Halves(a: string, b: string)
    ensures (a + b)[..|a|] == a && (a + b)[|a|..] == b
  {
  }

  /** Strtod by the positions it stops at. */
  lemma StrtodParts(s: string, i: nat, w: nat, m: nat, end: nat, e: int)
    requires i == (if s != [] && (s[0] == '-' || s[0] == '+') then 1 else 0) && DigitsEnd(s, i) == w
    requires var point := w < |s| && s[w] == '.'; m == if point then DigitsEnd(s, w + 1) else w
    requires Exponent(s, m) == (end, e)
    ensures var fraction := if w < |s| && s[w] == '.' then s[w + 1..m] else "";
      AllDigits(s[i..w] + fraction)
      && if s[i..w] + fraction == "" then Strtod(s) == None
         else Strtod(s) == Some((Scaled(s[0] == '-', s[i..w] + fraction, e - |fraction|), end))
  {
    hide DigitsEnd, Scaled;
    var fraction := if w < |s| && s[w] == '.' then s[w + 1..m] else "";
    JoinedDigits(s[i..w], fraction);
  }

  lemma SignSeen(n: Numeral)
    requires WellFormed(n)
    ensures var s := Spelled(n);
      && s != "" && |n.sign| == (if s[0] == '-' || s[0] == '+' then 1 else 0) && (s[0] == '-' <==> n.sign == "-")
  {
    PartsLie(n);
    var s := Spelled(n);
    if n.sign != "" {
      assert s[0] == s[..1][0];
    } else if n.whole != "" {
      assert s[0] == s[0..|n.whole|][0];
    } else {
      assert s[0] == s[0..|PointText(n)|][0];
    }
  }

  lemma PowerRead(n: Numeral)
    requires WellFormed(n)
    ensures Exponent(Spelled(n), |Spelled(n)| - |PowerText(n)|) == (|Spelled(n)|, PowerValue(n))
  {
    PartsLie(n);
    var s := Spelled(n);
    var m := |s| - |PowerText(n)|;
    hide Spelled, DigitsEnd, Exponent;
    if n.power.Some? {
      PowerAt(s, m, n.power.value);
    } else {
      NoPower(s);
    }
  }

  lemma NoPower(s: string)
    ensures Exponent(s, |s|) == (|s|, 0)
  {
  }

  lemma PowerAt(s: string, m: nat, p: Power)
    requires m <= |s| && s[m..] == [p.mark] + p.sign + p.digits
    requires (p.mark == 'e' || p.mark == 'E') && IsSign(p.sign) && p.digits != "" && AllDigits(p.digits)
    ensures var x: int := DigitsValue(p.digits, 0);
      Exponent(s, m) == (|s|, if p.sign == "-" then -x else x)
  {
    var k := m + 1 + |p.sign|;
    assert s[k..|s|] == p.digits && s[m] == p.mark && s[k] == p.digits[0] by {
      assert s[m..][0] == p.mark && s[m..][1 + |p.sign|] == p.digits[0] && s[m..][1 + |p.sign|..] == p.digits;
    }
    assert p.sign != "" ==> s[m + 1] == p.sign[0] by {
      assert p.sign != "" ==> s[m..][1] == p.sign[0];
    }
    DigitsStop(s, k, |s|);
    assert IsDigit(p.digits[0]);
    hide DigitsEnd, DigitsValue;
  }

  /** strtod reads every numeral to its end, as its value. */
  lemma NumeralRead(n: Numeral)
    requires WellFormed(n)
    ensures Strtod(Spelled(n)) == Some((Value(n), |Spelled(n)|))
  {
    hide *;
    PartsLie(n);
    SignSeen(n);
    PowerRead(n);
    DigitsThere(n);
    var s, i := Spelled(n), |n.sign|;
    var w := i + |n.whole|;
    var m := w + |PointText(n)|;
    WholeEnds(n, s, i, w, m);
    StrtodParts(s, i, w, m, |s|, PowerValue(n));
  }

  lemma DigitsThere(n: Numeral)
    requires WellFormed(n)
    ensures AllDigits(n.whole + Behind(n)) && n.whole + Behind(n) != ""
    ensures Value(n) == Scaled(n.sign == "-", n.whole + Behind(n), PowerValue(n) - |Behind(n)|)
    ensures Behind(n) == if n.fraction.Some? then n.fraction.value else ""
  {
    hide Scaled, PowerValue;
    JoinedDigits(n.whole, Behind(n));
  }

  lemma WholeEnds(n: Numeral, s: string, i: nat, w: nat, m: nat)
    requires WellFormed(n) && i <= w <= m <= |s|
    requires s[i..w] == n.whole && s[w..m] == PointText(n) && s[m..] == PowerText(n)
    ensures DigitsEnd(s, i) == w && ((w < |s| && s[w] == '.') <==> n.fraction.Some?)
    ensures n.fraction.Some? ==> DigitsEnd(s, w + 1) == m && s[w + 1..m] == n.fraction.value
    ensures n.fraction.None? ==> m == w
  {
    hide DigitsEnd;
    assert m < |s| ==> s[m] == s[m..][0] && !IsDigit(s[m]) && s[m] != '.';
    if n.fraction.Some? {
      assert s[w] == s[w..m][0] == '.';
      assert s[w + 1..m] == s[w..m][1..] == n.fraction.value;
      DigitsStop(s, w + 1, m);
    }
    DigitsStop(s, i, w);
  }

  // ---- and nothing else ----

  /** Whatever strtod reads from the start of a text is a numeral, and what it yields is its value. */
  lemma StrtodSpells(s: string) returns (n: Numeral)
    requires Strtod(s).Some?
    ensures WellFormed(n) && Spelled(n) == s[..Strtod(s).value.1] && Value(n) == Strtod(s).value.0
  {
    hide Strtod, Exponent, DigitsEnd, Scaled, DigitsValue, Power10, Spelled;
    var i := if s != [] && (s[0] == '-' || s[0] == '+') then 1 else 0;
    var w := DigitsEnd(s, i);
    var point := w < |s| && s[w] == '.';
    var m := if point then DigitsEnd(s, w + 1) else w;
    var (end, e) := Exponent(s, m);
    StrtodParts(s, i, w, m, end, e);
    var power := PowerSpells(s, m);
    n := Numeral(s[..i], s[i..w], if point then Some(s[w + 1..m]) else None, power);
    SignText(s, i);
    PutTogether(s, i, w, m, end, n);
  }

  lemma PutTogether(s: string, i: nat, w: nat, m: nat, end: nat, n: Numeral)
    requires i <= w <= m <= end <= |s| && n.sign == s[..i] && n.whole == s[i..w] && PowerText(n) == s[m..end]
    requires if n.fraction.None? then m == w else w < m && s[w] == '.' && n.fraction.value == s[w + 1..m]
    ensures Spelled(n) == s[..end]
  {
    assert PointText(n) == s[w..m] by {
      assert n.fraction.Some? ==> s[w..m] == [s[w]] + s[w + 1..m];
    }
    hide PointText, PowerText;
    assert s[..end] == s[..i] + s[i..w] + s[w..m] + s[m..end];
  }

  lemma SignText(s: string, i: nat)
    requires i == if s != [] && (s[0] == '-' || s[0] == '+') then 1 else 0
    ensures IsSign(s[..i]) && (s[..i] == "-" <==> s != [] && s[0] == '-')
  {
    if i == 1 {
      assert s[..1] == [s[0]] && [s[0]][0] == s[0];
    }
  }

  lemma PowerSpells(s: string, m: nat) returns (p: Option<Power>)
    requires m <= |s|
    ensures var (end, e) := Exponent(s, m);
      && m <= end
      && (if p.None? then end == m && e == 0
          else
            && (p.value.mark == 'e' || p.value.mark == 'E') && IsSign(p.value.sign)
            && p.value.digits != "" && AllDigits(p.value.digits)
            && s[m..end] == [p.value.mark] + p.value.sign + p.value.digits
            && var x: int := DigitsValue(p.value.digits, 0); e == if p.value.sign == "-" then -x else x)
  {
    var (end, e) := Exponent(s, m);
    p := None;
    if end > m {
      var k := if m + 1 < |s| && (s[m + 1] == '+' || s[m + 1] == '-') then m + 2 else m + 1;
      p := Some(Power(s[m], s[m + 1..k], s[k..end]));
      assert s[m..end] == [s[m]] + s[m + 1..k] + s[k..end];
      assert k == m + 2 ==> s[m + 1..k] == [s[m + 1]];
    }
  }
}
