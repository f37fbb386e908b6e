/** What the parser of cJSON.c makes of a text, from an offset on: a tree and an end, or a failure. */
module ParseText {
  import opened Text
  import opened JsonTree
  import opened Numerals
  import opened Render
  import opened Utf8

  const CJSON_NESTING_LIMIT: nat := 1000

  /** Success with the offset behind what was read, or failure with the offset left behind. */
  datatype Parsed<+T> = Ok(value: T, end: nat) | Fail(at: nat)

  // ---- white space ----

  predicate IsBlank(c: char) { c <= 32 as char }

  function BlankEnd(t: string, o: nat): (p: nat)
    requires o <= |t|
    ensures o <= p <= |t| && forall i | o <= i < p :: IsBlank(t[i])
    ensures p < |t| ==> !IsBlank(t[p])
    decreases |t| - o
  {
    if o < |t| && IsBlank(t[o]) then BlankEnd(t, o + 1) else o
  }

  /** buffer_skip_whitespace: at the end of the buffer it steps back onto the last blank. */
  function SkipBlank(t: string, o: nat): (p: nat)
    requires o <= |t|
    ensures o <= p <= |t| && (o < |t| ==> p < |t|)
    ensures forall i | o <= i < p :: IsBlank(t[i])
  {
    if o == |t| then o
    else
      var p := BlankEnd(t, o);
      if p == |t| then p - 1 else p
  }

  // ---- numbers ----

  predicate IsNumberChar(c: char) {
    IsDigit(c) || c == '+' || c == '-' || c == 'e' || c == 'E' || c == '.'
  }

  function NumberEnd(t: string, o: nat): (p: nat)
    requires o <= |t|
    ensures o <= p <= |t| && forall i | o <= i < p :: IsNumberChar(t[i])
    ensures p < |t| ==> !IsNumberChar(t[p])
    decreases |t| - o
  {
    if o < |t| && IsNumberChar(t[o]) then NumberEnd(t, o + 1) else o
  }

  function DigitsEnd(s: string, i: nat): (p: nat)
    requires i <= |s|
    ensures i <= p <= |s| && AllDigits(s[i..p])
    ensures p < |s| ==> !IsDigit(s[p])
    decreases |s| - i
  {
    if i < |s| && IsDigit(s[i]) then
      var p := DigitsEnd(s, i + 1);
      assert s[i..p] == [s[i]] + s[i + 1..p];
      p
    else i
  }

  /** The end of an optional exponent at m, and its value. */
  function Exponent(s: string, m: nat): (r: (nat, int))
    requires m <= |s|
    ensures m <= r.0 <= |s|
  {
    if m < |s| && (s[m] == 'e' || s[m] == 'E') then
      var k := if m + 1 < |s| && (s[m + 1] == '+' || s[m + 1] == '-') then m + 2 else m + 1;
      var e := DigitsEnd(s, k);
      if e == k then (m, 0)
      else
        var magnitude: int := DigitsValue(s[k..e], 0);
        (e, if s[m + 1] == '-' then -magnitude else magnitude)
    else (m, 0)
  }

  /** All digits as one integer, times a power of ten, with a sign. */
  function Scaled(negative: bool, digits: string, power: int): real
    requires AllDigits(digits)
  {
    var magnitude := DigitsValue(digits, 0) as real * Power10(power);
    if negative then -magnitude else magnitude
  }

  /** strtod on a decimal numeral: the exact value and how much of it was read. */
  function Strtod(s: string): (r: Option<(real, nat)>)
    ensures r.Some? ==> 0 < r.value.1 <= |s|
  {
    var i := if s != [] && (s[0] == '-' || s[0] == '+') then 1 else 0;
    var whole := DigitsEnd(s, i);
    var point := whole < |s| && s[whole] == '.';
    var m := if point then DigitsEnd(s, whole + 1) else whole;
    var fraction := if point then s[whole + 1..m] else [];
    if s[i..whole] + fraction == [] then None
    else
      var (end, e) := Exponent(s, m);
      Some((Scaled(s[0] == '-', s[i..whole] + fraction, e - |fraction|), end))
  }

  /** parse_number */
  function ParseNumber(t: string, o: nat): (r: Parsed<Json>)
    requires o <= |t|
    ensures r.Ok? ==> o < r.end <= |t|
    ensures r.Fail? ==> r.at <= |t|
  {
    var number := Strtod(t[o..NumberEnd(t, o)]);
    if number.None? then Fail(o) else Ok(Number(number.value.0), o + number.value.1)
  }

  // ---- strings ----

  /** A C string ends at the first terminator. */
  function CString(s: string): (r: string)
    ensures NulFree(r)
    ensures NulFree(s) ==> r == s
  {
    if s == [] || s[0] == NUL then [] else [s[0]] + CString(s[1..])
  }

  /** The first pass of parse_string: the closing quote, stepping over a backslash and what follows it. */
  function ClosingQuote(t: string, i: nat): (r: Option<nat>)
    ensures r.Some? ==> i <= r.value < |t| && t[r.value] == QUOTE
    decreases |t| - i
  {
    if i >= |t| then None
    else if t[i] == QUOTE then Some(i)
    else if t[i] == BACKSLASH then (if i + 1 >= |t| then None else ClosingQuote(t, i + 2))
    else ClosingQuote(t, i + 1)
  }

  /** One- and two-letter escapes: what the letter behind the backslash stands for. */
  function Unescape(c: char): Option<char> {
    if c == 'b' then Some(8 as char)
    else if c == 'f' then Some(12 as char)
    else if c == 'n' then Some(10 as char)
    else if c == 'r' then Some(13 as char)
    else if c == 't' then Some(9 as char)
    else if c == QUOTE || c == BACKSLASH || c == '/' then Some(c)
    else None
  }

  /** The second pass at p: the bytes written and the next position. */
  function DecodeStep(t: string, p: nat, end: nat): (r: Option<(string, nat)>)
    requires p < end < |t|
    ensures r.Some? ==> p < r.value.1 <= end + 1
  {
    if t[p] != BACKSLASH then Some(([t[p]], p + 1))
    else if t[p + 1] == 'u' then
      var literal := Literal(t, p, end);
      if literal.None? then None else Some((Bytes(literal.value.1), p + literal.value.0))
    else
      var c := Unescape(t[p + 1]);
      if c.None? then None else Some(([c.value], p + 2))
  }

  /** The second pass of parse_string, up to the closing quote. */
  function Decode(t: string, p: nat, end: nat): (r: Parsed<string>)
    requires end < |t|
    ensures r.Fail? ==> p <= r.at < end
    decreases end - p
  {
    if p >= end then Ok([], p)
    else
      var step := DecodeStep(t, p, end);
      if step.None? then Fail(p)
      else
        var rest := Decode(t, step.value.1, end);
        if rest.Fail? then rest else Ok(step.value.0 + rest.value, rest.end)
  }

  /** parse_string */
  function ParseString(t: string, o: nat): (r: Parsed<string>)
    requires o < |t|
    ensures r.Ok? ==> o < r.end <= |t| && NulFree(r.value)
    ensures r.Fail? ==> r.at <= |t|
  {
    if t[o] != QUOTE then Fail(o + 1)
    else
      var end := ClosingQuote(t, o + 1);
      if end.None? then Fail(o + 1)
      else
        var output := Decode(t, o + 1, end.value);
        if output.Fail? then output else Ok(CString(output.value), end.value + 1)
  }

  // ---- values ----

  predicate Reads(t: string, o: nat, word: string) {
    o + |word| <= |t| && t[o..o + |word|] == word
  }

  predicate Sees(t: string, o: nat, c: char) {
    o < |t| && t[o] == c
  }

  /** parse_value, at a nesting depth. */
  function ParseValue(t: string, o: nat, depth: nat): (r: Parsed<Json>)
    requires o <= |t|
    ensures r.Ok? ==> o < r.end <= |t|
    ensures r.Fail? ==> r.at <= |t|
    decreases |t| - o, 2
  {
    if Reads(t, o, "null") then Ok(Null, o + 4)
    else if Reads(t, o, "false") then Ok(False, o + 5)
    else if Reads(t, o, "true") then Ok(True, o + 4)
    else if o == |t| then Fail(o)
    else if t[o] == QUOTE then
      var s := ParseString(t, o);
      if s.Fail? then Fail(s.at) else Ok(String(s.value), s.end)
    else if t[o] == '-' || IsDigit(t[o]) then ParseNumber(t, o)
    else if t[o] == '[' then ParseArray(t, o, depth)
    else if t[o] == '{' then ParseObject(t, o, depth)
    else Fail(o)
  }

  /** parse_array, at its opening bracket. */
  function ParseArray(t: string, o: nat, depth: nat): (r: Parsed<Json>)
    requires o < |t|
    ensures r.Ok? ==> o < r.end <= |t|
    ensures r.Fail? ==> r.at <= |t|
    decreases |t| - o, 1
  {
    if depth >= CJSON_NESTING_LIMIT then Fail(o)
    else
      var p := SkipBlank(t, o + 1);
      if Sees(t, p, ']') then Ok(Array([]), p + 1)
      else if p == |t| then Fail(p - 1)
      else
        AsArray(ParseElements(t, p - 1, depth + 1))
  }

  function AsArray(r: Parsed<seq<Json>>): Parsed<Json> {
    if r.Fail? then Fail(r.at) else Ok(Array(r.value), r.end)
  }

  /** The element loop of parse_array, from the position in front of an element. */
  function ParseElements(t: string, q: nat, depth: nat): (r: Parsed<seq<Json>>)
    requires q < |t|
    ensures r.Ok? ==> q < r.end <= |t|
    ensures r.Fail? ==> r.at <= |t|
    decreases |t| - q, 0
  {
    var item := ParseValue(t, SkipBlank(t, q + 1), depth);
    if item.Fail? then Fail(item.at)
    else
      var p := SkipBlank(t, item.end);
      if Sees(t, p, ',') then
        var rest := ParseElements(t, p, depth);
        if rest.Fail? then rest else Ok([item.value] + rest.value, rest.end)
      else if Sees(t, p, ']') then Ok([item.value], p + 1)
      else Fail(p)
  }

  /** parse_object, at its opening brace. */
  function ParseObject(t: string, o: nat, depth: nat): (r: Parsed<Json>)
    requires o < |t|
    ensures r.Ok? ==> o < r.end <= |t|
    ensures r.Fail? ==> r.at <= |t|
    decreases |t| - o, 1
  {
    if depth >= CJSON_NESTING_LIMIT then Fail(o)
    else
      var p := SkipBlank(t, o + 1);
      if Sees(t, p, '}') then Ok(Object([]), p + 1)
      else if p == |t| then Fail(p - 1)
      else
        AsObject(ParseMembers(t, p - 1, depth + 1))
  }

  function AsObject(r: Parsed<seq<Member>>): Parsed<Json> {
    if r.Fail? then Fail(r.at) else Ok(Object(r.value), r.end)
  }

  /** A name and the colon behind it, from the position in front of the name. */
  function ParseKey(t: string, q: nat): (r: Parsed<string>)
    requires q < |t|
    ensures r.Ok? ==> q < r.end <= |t|
    ensures r.Fail? ==> r.at <= |t|
  {
    if q + 1 >= |t| then Fail(q)
    else
      var key := ParseString(t, SkipBlank(t, q + 1));
      if key.Fail? then key
      else
        var p := SkipBlank(t, key.end);
        if Sees(t, p, ':') then Ok(key.value, p + 1) else Fail(p)
  }

  /** The member loop of parse_object. */
  function ParseMembers(t: string, q: nat, depth: nat): (r: Parsed<seq<Member>>)
    requires q < |t|
    ensures r.Ok? ==> q < r.end <= |t|
    ensures r.Fail? ==> r.at <= |t|
    decreases |t| - q, 0
  {
    var key := ParseKey(t, q);
    if key.Fail? then Fail(key.at)
    else
      var item := ParseValue(t, SkipBlank(t, key.end), depth);
      if item.Fail? then Fail(item.at)
      else
        var member := Member(key.value, item.value);
        var p := SkipBlank(t, item.end);
        if Sees(t, p, ',') then
          var rest := ParseMembers(t, p, depth);
          if rest.Fail? then rest else Ok([member] + rest.value, rest.end)
        else if Sees(t, p, '}') then Ok([member], p + 1)
        else Fail(p)
  }

  // ---- the public parser ----

  const BOM: string := [0xEF as char, 0xBB as char, 0xBF as char]

  /** skip_utf8_bom, at the start of the buffer: only when more than four bytes are there. */
  function BomEnd(t: string): nat {
    if 4 < |t| && Reads(t, 0, BOM) then 3 else 0
  }

  /** cJSON_ParseWithLengthOpts: the tree and the end of the parse, or the error position. */
  function ParseWithLength(t: string, requireNullTerminated: bool): Parsed<Json> {
    if t == [] then Fail(0)
    else
      var start := SkipBlank(t, BomEnd(t));
      var item := ParseValue(t, start, 0);
      if item.Fail? then Fail(ErrorPosition(t, item.at))
      else if requireNullTerminated then
        var p := SkipBlank(t, item.end);
        if p < |t| && t[p] == NUL then Ok(item.value, p) else Fail(ErrorPosition(t, p))
      else item
  }

  function ErrorPosition(t: string, at: nat): nat
    requires t != []
  {
    if at < |t| then at else |t| - 1
  }

  /** cJSON_ParseWithOpts: the terminator counts as a byte of the buffer. */
  function Parse(s: string, requireNullTerminated: bool): Parsed<Json> {
    ParseWithLength(s + [NUL], requireNullTerminated)
  }
}
