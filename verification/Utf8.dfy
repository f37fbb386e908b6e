/** Code points, their UTF-8 bytes (RFC 3629) and UTF-16 escapes (RFC 8259, section 7). */
module Utf8 {
  import opened JsonTree

  // ---- four hexadecimal digits ----

  predicate IsHex(c: char) {
    '0' <= c <= '9' || 'A' <= c <= 'F' || 'a' <= c <= 'f'
  }

  function HexValue(c: char): (v: nat)
    requires IsHex(c)
    ensures v < 16
  {
    if c <= '9' then c as int - '0' as int
    else if c <= 'F' then 10 + c as int - 'A' as int
    else 10 + c as int - 'a' as int
  }

  predicate AllHex(s: string) {
    forall i | 0 <= i < |s| :: IsHex(s[i])
  }

  function HexNumber(s: string): nat
    requires AllHex(s)
  {
    if s == [] then 0 else 16 * HexNumber(s[..|s| - 1]) + HexValue(s[|s| - 1])
  }

  lemma {:induction false} HexBound(s: string)
    requires AllHex(s) && |s| <= 4
    ensures HexNumber(s) < (if |s| == 0 then 1 else if |s| == 1 then 16
          else if |s| == 2 then 256 else if |s| == 3 then 4096 else 65536)
  {
    if s != [] {
      HexBound(s[..|s| - 1]);
    }
  }

  /** parse_hex4: the number of the four digits, and 0 when one of them is not a digit. */
  function Hex4(s: string): (h: nat)
    requires |s| == 4
    ensures h < 0x10000
  {
    if AllHex(s) then HexBound(s); HexNumber(s) else 0
  }

  /** The loop of parse_hex4. */
  method ParseHex4(s: string) returns (h: nat)
    requires |s| == 4
    ensures h == Hex4(s)
  {
    h := 0;
    var i := 0;
    while i < 4
      invariant 0 <= i <= 4 && AllHex(s[..i])
      invariant h == if i == 0 then 0 else if i < 4 then 16 * HexNumber(s[..i]) else HexNumber(s[..i])
    {
      if !IsHex(s[i]) {
        return 0;
      }
      assert s[..i + 1][..i] == s[..i];
      h := h + HexValue(s[i]);
      if i < 3 {
        h := h * 16;
      }
      i := i + 1;
    }
    assert s[..4] == s;
  }

  // ---- bytes of a code point ----

  function Byte(n: nat): char
    requires n < 256
  {
    n as char
  }

  /** How many bytes a code point takes. */
  function Utf8Length(cp: nat): nat
    requires cp <= 0x10FFFF
  {
    if cp < 0x80 then 1 else if cp < 0x800 then 2 else if cp < 0x10000 then 3 else 4
  }

  /** The UTF-8 bytes of a code point, as the table of section 3 of RFC 3629 lays out its bits. */
  function Bytes(cp: nat): (r: string)
    requires cp <= 0x10FFFF
    ensures |r| == Utf8Length(cp)
  {
    if cp < 0x80 then [Byte(cp)]
    else if cp < 0x800 then [Byte(0xC0 + cp / 64), Byte(0x80 + cp % 64)]
    else if cp < 0x10000 then [Byte(0xE0 + cp / 4096), Byte(0x80 + cp / 64 % 64), Byte(0x80 + cp % 64)]
    else [Byte(0xF0 + cp / 262144), Byte(0x80 + cp / 4096 % 64), Byte(0x80 + cp / 64 % 64), Byte(0x80 + cp % 64)]
  }

  /** Reading a code point back from its bytes; forms that are longer than they need be are not accepted. */
  function FromBytes(s: string): Option<nat> {
    if |s| == 1 && s[0] as int < 0x80 then Some(s[0] as int)
    else if |s| == 2 && 0xC0 <= s[0] as int < 0xE0 && Tail(s[1]) then
      AtLeast(0x80, (s[0] as int - 0xC0) * 64 + Bits(s[1]))
    else if |s| == 3 && 0xE0 <= s[0] as int < 0xF0 && Tail(s[1]) && Tail(s[2]) then
      AtLeast(0x800, (s[0] as int - 0xE0) * 4096 + Bits(s[1]) * 64 + Bits(s[2]))
    else if |s| == 4 && 0xF0 <= s[0] as int < 0xF8 && Tail(s[1]) && Tail(s[2]) && Tail(s[3]) then
      AtLeast(0x10000, (s[0] as int - 0xF0) * 262144 + Bits(s[1]) * 4096 + Bits(s[2]) * 64 + Bits(s[3]))
    else None
  }

  function AtLeast(low: nat, cp: nat): Option<nat> { if cp < low then None else Some(cp) }

  predicate Tail(c: char) { 0x80 <= c as int < 0xC0 }

  function Bits(c: char): nat
    requires Tail(c)
  {
    c as int - 0x80
  }

  /** The bytes determine the code point. */
  lemma BytesDecode(cp: nat)
    requires cp <= 0x10FFFF
    ensures FromBytes(Bytes(cp)) == Some(cp)
  {
    assert cp / 64 / 64 == cp / 4096 && cp / 4096 / 64 == cp / 262144;
    ByteRemainders(cp);
  }

  lemma ByteRemainders(cp: nat)
    ensures cp == cp / 64 * 64 + cp % 64
    ensures cp / 64 == cp / 4096 * 64 + cp / 64 % 64
    ensures cp / 4096 == cp / 262144 * 64 + cp / 4096 % 64
  {
  }

  /** 64 to the power n, for n up to 3. */
  function Scale(n: nat): (r: nat)
    requires n <= 3
    ensures r > 0
  {
    if n == 0 then 1 else if n == 1 then 64 else if n == 2 then 4096 else 262144
  }

  function FirstMark(length: nat): nat {
    if length == 1 then 0 else if length == 2 then 0xC0 else if length == 3 then 0xE0 else 0xF0
  }

  lemma BytesAt(cp: nat, k: nat, rest: nat)
    requires cp <= 0x10FFFF && k < Utf8Length(cp) && rest == cp / Scale(Utf8Length(cp) - 1 - k)
    ensures k > 0 ==> Bytes(cp)[k] == Byte(0x80 + rest % 64) && rest / 64 == cp / Scale(Utf8Length(cp) - k)
    ensures k == 0 ==> FirstMark(Utf8Length(cp)) + rest < 256
    ensures k == 0 ==> Bytes(cp)[0] == Byte(FirstMark(Utf8Length(cp)) + rest)
  {
  }

  lemma LengthFits(cp: nat)
    requires cp <= 0x10FFFF
    ensures 1 <= Utf8Length(cp) <= 4 && cp / Scale(0) == cp
  {
  }

  /** The C bit operations on the code point are these divisions and remainders. */
  lemma BitForms(x: bv32, mark: bv32)
    ensures (x | 0x80) & 0xBF == 0x80 + x % 64
    ensures x >> 6 == x / 64
    ensures (mark == 0xC0 && x < 0x20) || (mark == 0xE0 && x < 0x10) || (mark == 0xF0 && x < 0x08) ==>
      (x | mark) & 0xFF == mark + x
  {
  }

  /** The loop of utf16_literal_to_utf8 that stores the bytes, from the last to the first. */
  method StoreBytes(cp: nat, output: array<char>, at: nat)
    requires cp <= 0x10FFFF && at + Utf8Length(cp) <= output.Length
    modifies output
    ensures output[..at + Utf8Length(cp)] == old(output[..at]) + Bytes(cp)
  {
    hide *;
    LengthFits(cp);
    var length := Utf8Length(cp);
    ghost var goal := Bytes(cp);
    var rest, position := cp, length - 1;
    while position > 0
      invariant 0 <= position < length
      invariant output[..at] == old(output[..at])
      invariant rest == cp / Scale(length - 1 - position)
      invariant forall k | position < k < length :: output[at + k] == goal[k]
    {
      BytesAt(cp, position, rest);
      output[at + position] := Byte(0x80 + rest % 64);
      rest := rest / 64;
      position := position - 1;
    }
    BytesAt(cp, 0, rest);
    output[at] := Byte(FirstMark(length) + rest);
    assert output[at..at + length] == goal;
    assert output[..at + length] == output[..at] + output[at..at + length];
  }

  // ---- surrogates ----

  predicate HighSurrogate(u: nat) { 0xD800 <= u <= 0xDBFF }
  predicate LowSurrogate(u: nat) { 0xDC00 <= u <= 0xDFFF }

  function FromSurrogates(high: nat, low: nat): (cp: nat)
    requires HighSurrogate(high) && LowSurrogate(low)
    ensures 0x10000 <= cp <= 0x10FFFF
  {
    0x10000 + (high - 0xD800) * 1024 + (low - 0xDC00)
  }

  /** Every supplementary code point is denoted by exactly one surrogate pair. */
  lemma SurrogatesExact(cp: nat, high: nat, low: nat)
    requires 0x10000 <= cp <= 0x10FFFF && HighSurrogate(high) && LowSurrogate(low)
    ensures FromSurrogates(high, low) == cp
       <==> high == 0xD800 + (cp - 0x10000) / 1024 && low == 0xDC00 + (cp - 0x10000) % 1024
  {
  }

  /** One or two \u escapes at p, before end: their length and the code point; None when rejected. */
  function Literal(t: string, p: nat, end: nat): (r: Option<(nat, nat)>)
    requires p <= end <= |t|
    ensures r.Some? ==> (r.value.0 == 6 || r.value.0 == 12) && p + r.value.0 <= end && r.value.1 <= 0x10FFFF
    ensures r.Some? && r.value.0 == 6 ==> r.value.1 < 0x10000
  {
    if end - p < 6 then None
    else
      var first := Hex4(t[p + 2..p + 6]);
      if LowSurrogate(first) then None
      else if HighSurrogate(first) then
        if end - (p + 6) < 6 || t[p + 6] != '\\' || t[p + 7] != 'u' then None
        else
          var second := Hex4(t[p + 8..p + 12]);
          if !LowSurrogate(second) then None else Some((12, FromSurrogates(first, second)))
      else Some((6, first))
  }
}
