/** The parser of cJSON.c: an offset and a depth moved through the buffer, token by token. */
module ParseBuffer {
  import opened Text
  import opened JsonTree
  import opened Render
  import opened Utf8
  import T = ParseText

  // ---- how much room the first pass of parse_string leaves ----

  /** The escapes that the first pass, walking from i, starts in front of p. */
  function Skips(t: string, i: nat, p: nat): nat
    requires p <= |t|
    decreases p - i
  {
    if i >= p then 0
    else if t[i] == BACKSLASH then 1 + Skips(t, i + 2, p)
    else Skips(t, i + 1, p)
  }

  lemma {:induction false} SkipsOne(t: string, i: nat, p: nat)
    requires p < |t|
    ensures Skips(t, i, p) <= Skips(t, i, p + 1) <= Skips(t, i, p) + (if t[p] == BACKSLASH then 1 else 0)
    decreases p - i
  {
    if i < p {
      SkipsOne(t, if t[i] == BACKSLASH then i + 2 else i + 1, p);
    }
  }

  /** Two neighbouring positions start at most one escape. */
  lemma {:induction false} SkipsTwo(t: string, i: nat, p: nat)
    requires p + 2 <= |t|
    ensures Skips(t, i, p + 2) <= Skips(t, i, p) + 1
    decreases p - i
  {
    if i < p {
      SkipsTwo(t, if t[i] == BACKSLASH then i + 2 else i + 1, p);
    } else {
      SkipsOne(t, if i < p + 1 then p + 1 else i, p + 1);
    }
  }

  /** Bytes that may have been written when the second pass is at p. */
  function Room(t: string, start: nat, p: nat): int
    requires p <= |t|
  {
    p - start - Skips(t, start, p)
  }

  lemma {:induction false} RoomGrows(t: string, start: nat, p: nat, q: nat)
    requires p <= q <= |t|
    ensures Room(t, start, p) <= Room(t, start, q)
    decreases q - p
  {
    if p < q {
      SkipsOne(t, start, q - 1);
      RoomGrows(t, start, p, q - 1);
    }
  }

  lemma SkipsSix(t: string, start: nat, p: nat)
    requires p + 6 <= |t|
    ensures Room(t, start, p + 6) >= Room(t, start, p) + 3
  {
    SkipsTwo(t, start, p);
    SkipsTwo(t, start, p + 2);
    SkipsTwo(t, start, p + 4);
  }

  /** One step of the second pass writes no more than the room it gains, whatever the escapes look like. */
  lemma StepFits(t: string, start: nat, p: nat, end: nat)
    requires start <= p < end < |t|
    requires T.DecodeStep(t, p, end).Some?
    ensures var (bytes, next) := T.DecodeStep(t, p, end).value;
      next <= |t| && Room(t, start, p) + |bytes| <= Room(t, start, next)
  {
    if t[p] != BACKSLASH {
      SkipsOne(t, start, p);
    } else if t[p + 1] == 'u' {
      var (length, cp) := Literal(t, p, end).value;
      SkipsSix(t, start, p);
      if length == 12 {
        SkipsSix(t, start, p + 6);
      }
    } else {
      SkipsTwo(t, start, p);
    }
  }

  class ParseBuffer {
    const content: string
    var offset: nat
    var depth: nat

    constructor (content: string)
      ensures this.content == content && offset == 0 && depth == 0
    {
      this.content := content;
      offset := 0;
      depth := 0;
    }

    ghost predicate Inside()
      reads `offset
    {
      offset <= |content|
    }

    /** The outcome of a parse: the value and the end, or the offset a failure leaves behind. */
    ghost predicate Outcome<V>(r: Option<V>, parsed: T.Parsed<V>)
      reads `offset
    {
      match parsed
      case Ok(v, end) => r == Some(v) && offset == end
      case Fail(at) => r.None? && offset == at
    }

    /** buffer_skip_whitespace */
    method SkipWhitespace()
      requires Inside()
      modifies `offset
      ensures Inside() && offset == T.SkipBlank(content, old(offset))
    {
      if offset >= |content| {
        return;
      }
      while offset < |content| && content[offset] <= 32 as char
        invariant old(offset) <= offset <= |content|
        invariant T.BlankEnd(content, offset) == T.BlankEnd(content, old(offset))
      {
        offset := offset + 1;
      }
      if offset == |content| {
        offset := offset - 1;
      }
    }

    /** parse_number */
    method ParseNumber() returns (r: Option<Json>)
      requires Inside()
      modifies `offset
      ensures Inside() && Outcome(r, T.ParseNumber(content, old(offset)))
    {
      var i := 0;
      while offset + i < |content| && T.IsNumberChar(content[offset + i])
        invariant offset + i <= |content|
        invariant T.NumberEnd(content, offset + i) == T.NumberEnd(content, offset)
      {
        i := i + 1;
      }
      var number := T.Strtod(content[offset..offset + i]);
      if number.None? {
        return None;
      }
      offset := offset + number.value.1;
      return Some(Number(number.value.0));
    }

    /** The first pass of parse_string: the closing quote and the number of escapes. */
    method FindQuote(start: nat) returns (end: Option<nat>, skipped: nat)
      requires start <= |content|
      ensures end == T.ClosingQuote(content, start)
      ensures end.Some? ==> skipped == Skips(content, start, end.value)
    {
      var inputEnd := start;
      skipped := 0;
      while inputEnd < |content| && content[inputEnd] != QUOTE
        invariant start <= inputEnd <= |content| + 1
        invariant T.ClosingQuote(content, inputEnd) == T.ClosingQuote(content, start)
        invariant T.ClosingQuote(content, start).Some? ==>
          Skips(content, start, T.ClosingQuote(content, start).value)
            == skipped + Skips(content, inputEnd, T.ClosingQuote(content, start).value)
        decreases |content| + 1 - inputEnd
      {
        if content[inputEnd] == BACKSLASH {
          if inputEnd + 1 >= |content| {
            return None, skipped;
          }
          skipped := skipped + 1;
          inputEnd := inputEnd + 1;
        }
        inputEnd := inputEnd + 1;
      }
      if inputEnd >= |content| || content[inputEnd] != QUOTE {
        return None, skipped;
      }
      return Some(inputEnd), skipped;
    }

    /** utf16_literal_to_utf8: the bytes stored behind the output pointer; 0 when the literal is rejected. */
    method Utf16LiteralToUtf8(p: nat, end: nat, output: array<char>, at: nat) returns (length: nat, next: nat)
      requires p < end < |content|
      requires Literal(content, p, end).Some? ==> at + |Bytes(Literal(content, p, end).value.1)| <= output.Length
      modifies output
      ensures Literal(content, p, end).None? ==> length == 0 && output[..] == old(output[..])
      ensures Literal(content, p, end).Some? ==>
        var (l, cp) := Literal(content, p, end).value;
        length == l && next == at + |Bytes(cp)| <= output.Length && output[..next] == old(output[..at]) + Bytes(cp)
    {
      length, next := 0, at;
      if end - p < 6 {
        return;
      }
      var first := ParseHex4(content[p + 2..p + 6]);
      if 0xDC00 <= first <= 0xDFFF {
        return;
      }
      var codepoint := first;
      var sequenceLength := 6;
      if 0xD800 <= first <= 0xDBFF {
        sequenceLength := 12;
        if end - (p + 6) < 6 {
          return;
        }
        if content[p + 6] != BACKSLASH || content[p + 7] != 'u' {
          return;
        }
        var second := ParseHex4(content[p + 8..p + 12]);
        if second < 0xDC00 || second > 0xDFFF {
          return;
        }
        codepoint := FromSurrogates(first, second);
      }
      StoreBytes(codepoint, output, at);
      return sequenceLength, at + Utf8Length(codepoint);
    }

    /** One turn of the second pass: bytes stored, and both pointers moved; ok is false on a bad escape. */
    method StoreStep(p: nat, end: nat, output: array<char>, at: nat) returns (ok: bool, p': nat, at': nat)
      requires p < end < |content|
      requires T.DecodeStep(content, p, end).Some? ==> at + |T.DecodeStep(content, p, end).value.0| <= output.Length
      modifies output
      ensures ok <==> T.DecodeStep(content, p, end).Some?
      ensures ok ==>
        var (bytes, next) := T.DecodeStep(content, p, end).value;
        p' == next && at' == at + |bytes| <= output.Length && output[..at'] == old(output[..at]) + bytes
    {
      ok, p', at' := true, p, at;
      if content[p] != BACKSLASH {
        output[at] := content[p];
        p', at' := p + 1, at + 1;
      } else if content[p + 1] == 'u' {
        var length, next := Utf16LiteralToUtf8(p, end, output, at);
        ok := length != 0;
        p', at' := p + length, next;
      } else {
        var c := T.Unescape(content[p + 1]);
        if c.None? {
          ok := false;
          return;
        }
        output[at] := c.value;
        p', at' := p + 2, at + 1;
      }
    }

    /** The second pass of parse_string, into a buffer of the size the first pass computed. */
    method StoreLiteral(start: nat, end: nat, output: array<char>) returns (written: nat, failedAt: Option<nat>)
      requires start <= end < |content| && content[end] == QUOTE
      requires output.Length == end - start + 1 - Skips(content, start, end) + 1
      modifies output
      ensures match T.Decode(content, start, end)
        case Fail(at) => failedAt == Some(at)
        case Ok(bytes, _) => failedAt.None? && written < output.Length && output[..written] == bytes
    {
      hide T.DecodeStep, Literal, Skips, Bytes;
      SkipsOne(content, start, end);
      SkipsStart(content, start, end);
      var p := start;
      written := 0;
      ghost var whole := T.Decode(content, start, end);
      PrefixedStart(output[..written], whole);
      while p < end
        invariant start <= p <= end + 1 && written <= Room(content, start, p) && written < output.Length
        invariant Prefixed(output[..written], T.Decode(content, p, end)) == whole
        decreases end + 1 - p
      {
        ghost var done := output[..written];
        if T.DecodeStep(content, p, end).Some? {
          StepFits(content, start, p, end);
          RoomGrows(content, start, T.DecodeStep(content, p, end).value.1, end + 1);
          PrefixedStep(content, done, p, end);
        }
        var ok, p', at' := StoreStep(p, end, output, written);
        if !ok {
          return written, Some(p);
        }
        p, written := p', at';
      }
      failedAt := None;
    }

    /** parse_string: the valuestring read, a C string. */
    method ParseString() returns (r: Option<string>)
      requires offset < |content|
      modifies `offset
      ensures Inside() && Outcome(r, T.ParseString(content, old(offset)))
    {
      hide T.Decode, T.ClosingQuote, Skips;
      var start := offset + 1;
      if content[offset] != QUOTE {
        offset := start;
        return None;
      }
      var end, skipped := FindQuote(start);
      if end.None? {
        offset := start;
        return None;
      }
      SkipsStart(content, start, end.value);
      var allocationLength := end.value - offset - skipped;
      var output := new char[allocationLength + 1];
      var written, failedAt := StoreLiteral(start, end.value, output);
      if failedAt.Some? {
        offset := failedAt.value;
        return None;
      }
      output[written] := NUL;
      assert output[..written] == T.Decode(content, start, end.value).value;
      offset := end.value + 1;
      return Some(T.CString(output[..written]));
    }

    /** parse_value: a success moves the offset forward and leaves the depth as it was. */
    method ParseValue() returns (r: Option<Json>)
      requires Inside()
      modifies this
      ensures Inside() && Outcome(r, T.ParseValue(content, old(offset), old(depth)))
      ensures r.Some? ==> depth == old(depth) && old(offset) < offset
      decreases |content| - offset, 3
    {
      hide T.ParseString, T.ParseNumber, T.ParseArray, T.ParseObject;
      if T.Reads(content, offset, "null") {
        offset := offset + 4;
        return Some(Null);
      }
      if T.Reads(content, offset, "false") {
        offset := offset + 5;
        return Some(False);
      }
      if T.Reads(content, offset, "true") {
        offset := offset + 4;
        return Some(True);
      }
      if offset == |content| {
        return None;
      }
      if content[offset] == QUOTE {
        var s := ParseString();
        return if s.None? then None else Some(String(s.value));
      }
      if content[offset] == '-' || IsDigit(content[offset]) {
        r := ParseNumber();
      } else if content[offset] == '[' {
        r := ParseArray();
      } else if content[offset] == '{' {
        r := ParseObject();
      } else {
        r := None;
      }
    }

    /** parse_array, at its opening bracket. */
    method ParseArray() returns (r: Option<Json>)
      requires T.Sees(content, offset, '[')
      modifies this
      ensures Inside() && Outcome(r, T.ParseArray(content, old(offset), old(depth)))
      ensures r.Some? ==> depth == old(depth)
      decreases |content| - offset, 2
    {
      hide T.ParseElements;
      if depth >= T.CJSON_NESTING_LIMIT {
        return None;
      }
      depth := depth + 1;
      offset := offset + 1;
      SkipWhitespace();
      if T.Sees(content, offset, ']') {
        depth, offset := depth - 1, offset + 1;
        return Some(Array([]));
      }
      if offset == |content| {
        offset := offset - 1;
        return None;
      }
      offset := offset - 1;
      var items := ParseElements();
      if items.None? {
        return None;
      }
      depth := depth - 1;
      return Some(Array(items.value));
    }

    /** The do-while loop of parse_array, up to the closing bracket. */
    method ParseElements() returns (r: Option<seq<Json>>)
      requires offset < |content|
      modifies this
      ensures Inside() && Outcome(r, T.ParseElements(content, old(offset), old(depth)))
      ensures r.Some? ==> depth == old(depth)
      decreases |content| - offset, 1
    {
      hide T.ParseValue, T.ParseElements;
      var items: seq<Json> := [];
      ghost var whole := T.ParseElements(content, offset, depth);
      PrefixedNone(whole);
      while true
        invariant old(offset) <= offset < |content| && depth == old(depth)
        invariant PrefixedList(items, T.ParseElements(content, offset, depth)) == whole
        decreases |content| - offset
      {
        ElementsTurn(content, items, offset, depth);
        offset := offset + 1;
        SkipWhitespace();
        var item := ParseValue();
        if item.None? {
          return None;
        }
        items := items + [item.value];
        SkipWhitespace();
        if !T.Sees(content, offset, ',') {
          if !T.Sees(content, offset, ']') {
            return None;
          }
          offset := offset + 1;
          return Some(items);
        }
      }
    }

    /** parse_object, at its opening brace. */
    method ParseObject() returns (r: Option<Json>)
      requires T.Sees(content, offset, '{')
      modifies this
      ensures Inside() && Outcome(r, T.ParseObject(content, old(offset), old(depth)))
      ensures r.Some? ==> depth == old(depth)
      decreases |content| - offset, 2
    {
      hide T.ParseMembers;
      if depth >= T.CJSON_NESTING_LIMIT {
        return None;
      }
      depth := depth + 1;
      offset := offset + 1;
      SkipWhitespace();
      if T.Sees(content, offset, '}') {
        depth, offset := depth - 1, offset + 1;
        return Some(Object([]));
      }
      if offset == |content| {
        offset := offset - 1;
        return None;
      }
      offset := offset - 1;
      var members := ParseMembers();
      if members.None? {
        return None;
      }
      depth := depth - 1;
      return Some(Object(members.value));
    }

    /** The name of a member and the colon behind it. */
    method ParseKey() returns (r: Option<string>)
      requires offset < |content|
      modifies `offset
      ensures Inside() && Outcome(r, T.ParseKey(content, old(offset)))
    {
      hide T.ParseString;
      if offset + 1 >= |content| {
        return None;
      }
      offset := offset + 1;
      SkipWhitespace();
      r := ParseString();
      if r.None? {
        return;
      }
      SkipWhitespace();
      if !T.Sees(content, offset, ':') {
        return None;
      }
      offset := offset + 1;
    }

    /** The do-while loop of parse_object, up to the closing brace. */
    method ParseMembers() returns (r: Option<seq<Member>>)
      requires offset < |content|
      modifies this
      ensures Inside() && Outcome(r, T.ParseMembers(content, old(offset), old(depth)))
      ensures r.Some? ==> depth == old(depth)
      decreases |content| - offset, 1
    {
      hide T.ParseValue, T.ParseMembers, T.ParseKey;
      var members: seq<Member> := [];
      ghost var whole := T.ParseMembers(content, offset, depth);
      PrefixedNone(whole);
      while true
        invariant old(offset) <= offset < |content| && depth == old(depth)
        invariant PrefixedList(members, T.ParseMembers(content, offset, depth)) == whole
        decreases |content| - offset
      {
        MembersTurn(content, members, offset, depth);
        var key := ParseKey();
        if key.None? {
          return None;
        }
        SkipWhitespace();
        var item := ParseValue();
        if item.None? {
          return None;
        }
        members := members + [Member(key.value, item.value)];
        SkipWhitespace();
        if !T.Sees(content, offset, ',') {
          if !T.Sees(content, offset, '}') {
            return None;
          }
          offset := offset + 1;
          return Some(members);
        }
      }
    }

    /** skip_utf8_bom, at the start of the buffer. */
    method SkipBom()
      requires offset == 0
      modifies `offset
      ensures Inside() && offset == T.BomEnd(content)
    {
      if 4 < |content| && T.Reads(content, 0, T.BOM) {
        offset := 3;
      }
    }
  }

  /** cJSON_ParseWithLengthOpts: the tree, and the end of the parse or the error position. */
  method ParseWithLengthOpts(value: string, requireNullTerminated: bool) returns (item: Option<Json>, position: nat)
    ensures match T.ParseWithLength(value, requireNullTerminated)
      case Ok(v, end) => item == Some(v) && position == end
      case Fail(at) => item.None? && position == at
  {
    hide T.ParseValue;
    if |value| == 0 {
      return None, 0;
    }
    var buffer := new ParseBuffer(value);
    buffer.SkipBom();
    buffer.SkipWhitespace();
    item := buffer.ParseValue();
    if item.Some? && requireNullTerminated {
      buffer.SkipWhitespace();
      if buffer.offset >= |value| || value[buffer.offset] != NUL {
        item := None;
      }
    }
    if item.Some? {
      return item, buffer.offset;
    }
    position := if buffer.offset < |value| then buffer.offset else |value| - 1;
  }

  // ---- the lists the loops have built so far ----

  function PrefixedList<V>(done: seq<V>, rest: T.Parsed<seq<V>>): T.Parsed<seq<V>> {
    if rest.Fail? then rest else T.Ok(done + rest.value, rest.end)
  }

  lemma PrefixedNone<V>(r: T.Parsed<seq<V>>)
    ensures PrefixedList([], r) == r
  {
    if r.Ok? {
      assert [] + r.value == r.value;
    }
  }

  lemma PrefixedMore<V>(done: seq<V>, v: V, rest: T.Parsed<seq<V>>)
    ensures PrefixedList(done, PrefixedList([v], rest)) == PrefixedList(done + [v], rest)
  {
    if rest.Ok? {
      assert done + ([v] + rest.value) == (done + [v]) + rest.value;
    }
  }

  /** What one turn of the element loop leaves of the whole walk. */
  lemma ElementsTurn(t: string, done: seq<Json>, q: nat, depth: nat)
    requires q < |t|
    ensures var item := T.ParseValue(t, T.SkipBlank(t, q + 1), depth);
      var whole := PrefixedList(done, T.ParseElements(t, q, depth));
      if item.Fail? then whole == T.Fail(item.at)
      else
        var c := T.SkipBlank(t, item.end);
        if T.Sees(t, c, ',') then whole == PrefixedList(done + [item.value], T.ParseElements(t, c, depth))
        else if T.Sees(t, c, ']') then whole == T.Ok(done + [item.value], c + 1)
        else whole == T.Fail(c)
  {
    hide T.ParseValue;
    var item := T.ParseValue(t, T.SkipBlank(t, q + 1), depth);
    if item.Ok? {
      var c := T.SkipBlank(t, item.end);
      if T.Sees(t, c, ',') {
        PrefixedMore(done, item.value, T.ParseElements(t, c, depth));
      }
    }
  }

  lemma MembersTurn(t: string, done: seq<Member>, q: nat, depth: nat)
    requires q < |t|
    ensures var key := T.ParseKey(t, q);
      var whole := PrefixedList(done, T.ParseMembers(t, q, depth));
      if key.Fail? then whole == T.Fail(key.at)
      else
        var item := T.ParseValue(t, T.SkipBlank(t, key.end), depth);
        if item.Fail? then whole == T.Fail(item.at)
        else
          var c := T.SkipBlank(t, item.end);
          var member := Member(key.value, item.value);
          if T.Sees(t, c, ',') then whole == PrefixedList(done + [member], T.ParseMembers(t, c, depth))
          else if T.Sees(t, c, '}') then whole == T.Ok(done + [member], c + 1)
          else whole == T.Fail(c)
  {
    hide T.ParseValue, T.ParseKey;
    var key := T.ParseKey(t, q);
    if key.Ok? {
      var item := T.ParseValue(t, T.SkipBlank(t, key.end), depth);
      if item.Ok? {
        var c := T.SkipBlank(t, item.end);
        if T.Sees(t, c, ',') {
          PrefixedMore(done, Member(key.value, item.value), T.ParseMembers(t, c, depth));
        }
      }
    }
  }

  lemma SkipsStart(t: string, start: nat, end: nat)
    requires start <= end <= |t|
    ensures Room(t, start, start) == 0 && Room(t, start, end) >= 0
  {
    RoomGrows(t, start, start, end);
  }

  lemma PrefixedStart(none: string, r: T.Parsed<string>)
    requires none == []
    ensures Prefixed(none, r) == r
  {
    if r.Ok? {
      assert none + r.value == r.value;
    }
  }

  function Prefixed(done: string, rest: T.Parsed<string>): T.Parsed<string> {
    if rest.Fail? then T.Fail(rest.at) else T.Ok(done + rest.value, rest.end)
  }

  lemma PrefixedStep(t: string, done: string, p: nat, end: nat)
    requires p < end < |t| && T.DecodeStep(t, p, end).Some?
    ensures var (bytes, next) := T.DecodeStep(t, p, end).value;
      Prefixed(done, T.Decode(t, p, end)) == Prefixed(done + bytes, T.Decode(t, next, end))
  {
    var (bytes, next) := T.DecodeStep(t, p, end).value;
    var rest := T.Decode(t, next, end);
    if rest.Ok? {
      assert (done + bytes) + rest.value == done + (bytes + rest.value);
    }
  }
}
