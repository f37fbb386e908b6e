/** JSON Pointer (RFC 6901): escaping, index tokens, resolution, and construction. */
module PointerEscape {

  // ---- escape sequences ----

  function EncodeChar(c: char): string {
    if c == '/' then "~1" else if c == '~' then "~0" else [c]
  }

  /** encode_string_as_pointer */
  function Encode(s: string): string {
    if s == [] then [] else EncodeChar(s[0]) + Encode(s[1..])
  }

  lemma {:induction false} EncodeAppend(a: string, b: string)
    ensures Encode(a + b) == Encode(a) + Encode(b)
  {
    if a == [] {
      assert a + b == b;
    } else {
      assert (a + b)[1..] == a[1..] + b;
      EncodeAppend(a[1..], b);
    }
  }

  lemma {:induction false} EncodeNoSlash(s: string)
    ensures '/' !in Encode(s)
    ensures |s| <= |Encode(s)|
  {
    if s != [] {
      EncodeNoSlash(s[1..]);
    }
  }

  lemma {:induction false} EncodePlain(s: string)
    requires '~' !in s && '/' !in s
    ensures Encode(s) == s
  {
    if s != [] {
      EncodePlain(s[1..]);
      assert s == [s[0]] + s[1..];
    }
  }

  lemma EncodeOne(c: char)
    ensures Encode([c]) == EncodeChar(c)
  {
    assert Encode([c]) == EncodeChar(c) + Encode([]);
  }

  lemma EncodeStep(s: string, i: nat)
    requires i < |s|
    ensures Encode(s[..i + 1]) == Encode(s[..i]) + EncodeChar(s[i])
    ensures Encode(s[i..]) == EncodeChar(s[i]) + Encode(s[i + 1..])
  {
    assert s[..i + 1] == s[..i] + [s[i]];
    EncodeAppend(s[..i], [s[i]]);
    EncodeOne(s[i]);
    assert s[i..][1..] == s[i + 1..];
  }

  /** pointer_encoded_length is exact. */
  method EncodedLength(s: string) returns (length: nat)
    ensures length == |Encode(s)|
  {
    length := 0;
    for i := 0 to |s|
      invariant length == |Encode(s[..i])|
    {
      EncodeStep(s, i);
      if s[i] == '~' || s[i] == '/' {
        length := length + 1;
      }
      length := length + 1;
    }
    assert s[..|s|] == s;
  }

  /** Writing an escaped string and its terminator into a buffer. */
  method EncodeInto(buffer: array<char>, at: nat, source: string)
    requires at + |Encode(source)| < buffer.Length
    modifies buffer
    ensures buffer[..at] == old(buffer[..at])
    ensures buffer[at..at + |Encode(source)|] == Encode(source)
    ensures buffer[at + |Encode(source)|] == '\0'
  {
    hide Encode, EncodeChar;
    var d := at;
    ghost var full := Encode(source);
    for i := 0 to |source|
      invariant at <= d && d - at <= |full|
      invariant full[d - at..] == Encode(source[i..])
      invariant buffer[..at] == old(buffer[..at])
      invariant buffer[at..d] == full[..d - at]
    {
      EncodeStep(source, i);
      TakeMore(full, d - at, EncodeChar(source[i]), Encode(source[i + 1..]));
      d := WriteEscaped(buffer, at, d, source[i]);
    }
    EncodeNothing(source);
    assert full[..d - at] == full;
    buffer[d] := '\0';
  }

  lemma EncodeNothing(s: string)
    ensures Encode(s[|s|..]) == []
  {
  }

  lemma TakeMore(full: string, n: nat, part: string, rest: string)
    requires n <= |full| && full[n..] == part + rest
    ensures n + |part| <= |full|
    ensures full[..n + |part|] == full[..n] + part
    ensures full[n + |part|..] == rest
  {
    assert full == full[..n] + (part + rest);
  }

  /** One character of the escaping loop. */
  method WriteEscaped(buffer: array<char>, ghost at: nat, d: nat, c: char) returns (d': nat)
    requires at <= d && d + |EncodeChar(c)| <= buffer.Length
    modifies buffer
    ensures d' == d + |EncodeChar(c)|
    ensures buffer[..at] == old(buffer[..at])
    ensures buffer[at..d'] == old(buffer[at..d]) + EncodeChar(c)
  {
    d' := d;
    if c == '/' {
      buffer[d'] := '~';
      buffer[d' + 1] := '1';
      d' := d' + 1;
    } else if c == '~' {
      buffer[d'] := '~';
      buffer[d' + 1] := '0';
      d' := d' + 1;
    } else {
      buffer[d'] := c;
    }
    d' := d' + 1;
  }

  /** The path of a member: the buffer that holds it is exactly large enough. */
  method MemberPath(path: string, suffix: string) returns (full: string)
    ensures full == path + "/" + Encode(suffix)
  {
    hide Encode;
    var length := EncodedLength(suffix);
    var buffer := new char[|path| + length + 2](_ => '\0');
    for i := 0 to |path|
      invariant buffer[..i] == path[..i]
    {
      buffer[i] := path[i];
    }
    buffer[|path|] := '/';
    assert buffer[..|path| + 1] == path + "/";
    EncodeInto(buffer, |path| + 1, suffix);
    full := buffer[..|path| + 1 + length];
    assert full == buffer[..|path| + 1] + buffer[|path| + 1..|path| + 1 + length];
  }

  // ---- decode_pointer_inplace ----

  /** The loop of decode_pointer_inplace: source position s, write position d. */
  function DecodeFrom(buffer: string, d: nat, s: nat): (r: string)
    requires d <= s <= |buffer|
    decreases |buffer| - s
  {
    if s == |buffer| then buffer[..d]
    else if buffer[s] != '~' then DecodeFrom(buffer, d + 1, s + 1)
    else if s + 1 < |buffer| && buffer[s + 1] == '0' then DecodeFrom(buffer[d := '~'], d + 1, s + 2)
    else if s + 1 < |buffer| && buffer[s + 1] == '1' then DecodeFrom(buffer[d + 1 := '/'], d + 1, s + 2)
    else buffer
  }

  function DecodeToken(s: string): string { DecodeFrom(s, 0, 0) }

  /** decode_pointer_inplace on a terminated buffer; the result is what stands before the terminator. */
  method DecodeInPlace(buffer: array<char>) returns (length: nat)
    requires buffer.Length > 0 && buffer[buffer.Length - 1] == '\0'
    modifies buffer
    ensures length < buffer.Length && buffer[length] == '\0'
    ensures buffer[..length] == DecodeToken(old(buffer[..buffer.Length - 1]))
  {
    var n := buffer.Length - 1;
    ghost var goal := DecodeToken(buffer[..n]);
    var d, s := 0, 0;
    while s < n
      invariant d <= s <= n
      invariant buffer[n] == '\0'
      invariant DecodeFrom(buffer[..n], d, s) == goal
    {
      if buffer[s] == '~' {
        if s + 1 < n && buffer[s + 1] == '0' {
          ghost var before := buffer[..n];
          buffer[d] := '~';
          assert buffer[..n] == before[d := '~'];
        } else if s + 1 < n && buffer[s + 1] == '1' {
          ghost var before := buffer[..n];
          buffer[d + 1] := '/';
          assert buffer[..n] == before[d + 1 := '/'];
        } else {
          return n;
        }
        s := s + 1;
      }
      d, s := d + 1, s + 1;
    }
    ghost var text := buffer[..n];
    buffer[d] := '\0';
    length := d;
    assert buffer[..d] == text[..d];
  }

  /** What the in-place decoder leaves at position p of a key escaped as e. */
  function DecodedChar(k: string, e: string, p: nat): char
    requires p < |k| <= |e|
  {
    if k[p] == '~' then '~' else if p > 0 && k[p - 1] == '/' then '/' else e[p]
  }

  /** What stands at position p once d characters are decoded. */
  function DuringDecode(k: string, e: string, d: nat, p: nat): char
    requires d <= |k| <= |e| && p < |e|
  {
    if p < d then DecodedChar(k, e, p) else if p == d > 0 && k[d - 1] == '/' then '/' else e[p]
  }

  /** The decoder's state after d characters of a key escaped as e. */
  ghost predicate Decoding(k: string, e: string, buffer: string, d: nat, s: nat) {
    && d <= |k| && |k| <= |e| == |buffer| && d <= s <= |buffer|
    && (forall p | 0 <= p < |buffer| :: buffer[p] == DuringDecode(k, e, d, p))
    && (d == s > 0 ==> k[d - 1] != '/')
  }

  /** Where the source position s reads the code of the next character. */
  ghost predicate ReadsCode(e: string, s: nat, c: char) {
    && s + |EncodeChar(c)| <= |e| && e[s] == EncodeChar(c)[0]
    && (|EncodeChar(c)| == 2 ==> e[s + 1] == EncodeChar(c)[1])
  }

  lemma DecodingSource(k: string, e: string, d: nat, s: nat)
    requires d < |k| && s <= |e| && e[s..] == Encode(k[d..])
    ensures ReadsCode(e, s, k[d])
    ensures e[s + |EncodeChar(k[d])|..] == Encode(k[d + 1..])
  {
    assert k[d..][1..] == k[d + 1..];
    var code, rest := EncodeChar(k[d]), Encode(k[d + 1..]);
    assert e[s..] == code + rest;
    assert e[s..][0] == code[0];
    if |code| == 2 {
      assert e[s..][1] == code[1];
    }
    assert e[s + |code|..] == e[s..][|code|..] == rest;
  }

  lemma DecodingStep(k: string, e: string, buffer: string, d: nat, s: nat) returns (next: string)
    requires Decoding(k, e, buffer, d, s) && d < |k| && ReadsCode(e, s, k[d])
    ensures Decoding(k, e, next, d + 1, s + |EncodeChar(k[d])|)
    ensures DecodeFrom(buffer, d, s) == DecodeFrom(next, d + 1, s + |EncodeChar(k[d])|)
  {
    assert buffer[s] == DuringDecode(k, e, d, s) == e[s];
    if k[d] == '~' || k[d] == '/' {
      assert buffer[s + 1] == DuringDecode(k, e, d, s + 1) == e[s + 1];
    }
    next := if k[d] == '~' then buffer[d := '~'] else if k[d] == '/' then buffer[d + 1 := '/'] else buffer;
    forall p | 0 <= p < |next| ensures next[p] == DuringDecode(k, e, d + 1, p) {
      assert buffer[p] == DuringDecode(k, e, d, p);
    }
  }

  lemma {:induction false} DecodeFromEncoded(k: string, e: string, buffer: string, d: nat, s: nat)
    requires Decoding(k, e, buffer, d, s) && e[s..] == Encode(k[d..])
    ensures |DecodeFrom(buffer, d, s)| == |k|
    ensures forall p | 0 <= p < |k| :: DecodeFrom(buffer, d, s)[p] == DecodedChar(k, e, p)
    decreases |k| - d
  {
    if d < |k| {
      DecodingSource(k, e, d, s);
      var next := DecodingStep(k, e, buffer, d, s);
      DecodeFromEncoded(k, e, next, d + 1, s + |EncodeChar(k[d])|);
    } else {
      assert k[d..] == [] && e[s..] == [];
      assert s == |buffer|;
      forall p | 0 <= p < |k| ensures buffer[p] == DecodedChar(k, e, p) {
        assert buffer[p] == DuringDecode(k, e, d, p);
      }
    }
  }

  /** A key free of '/' whose escaped form shows every other character at its own place. */
  predicate Decodable(k: string) {
    EncodeNoSlash(k);
    '/' !in k && forall p | 0 <= p < |k| :: k[p] == '~' || Encode(k)[p] == k[p]
  }

  /** The in-place decoder undoes the escaping exactly for decodable keys. */
  lemma DecodeUndoesEncode(k: string)
    ensures DecodeToken(Encode(k)) == k <==> Decodable(k)
  {
    EncodeNoSlash(k);
    assert k[0..] == k;
    DecodeFromEncoded(k, Encode(k), Encode(k), 0, 0);
    if '/' in k {
      var p := FirstSlash(k);
      assert DecodedChar(k, Encode(k), p) == Encode(k)[p] && Encode(k)[p] in Encode(k);
    }
  }

  lemma {:induction false} FirstSlash(k: string) returns (p: nat)
    requires '/' in k
    ensures p < |k| && k[p] == '/' && '/' !in k[..p]
  {
    if k[0] == '/' {
      p := 0;
    } else {
      p := FirstSlash(k[1..]);
      p := p + 1;
      assert k[..p] == [k[0]] + k[1..][..p - 1];
    }
  }

  lemma PlainDecodable(k: string)
    requires '~' !in k && '/' !in k
    ensures Decodable(k) && DecodeToken(k) == k
  {
    EncodePlain(k);
    DecodeUndoesEncode(k);
  }
}
