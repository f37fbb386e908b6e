/** The printer of cJSON.c: a growing buffer whose offset is moved only after the text is there. */
module PrintBuffer {
  import opened JsonTree
  import opened Numerals
  import opened Render

  class Buffer {
    var buffer: array<char>
    var offset: nat
    var depth: nat
    const noalloc: bool
    const format: bool

    constructor (buffer: array<char>, noalloc: bool, format: bool)
      requires buffer.Length <= INT_MAX
      ensures this.buffer == buffer && offset == 0 && depth == 0
      ensures this.noalloc == noalloc && this.format == format && Valid()
    {
      this.buffer := buffer;
      this.noalloc := noalloc;
      this.format := format;
      offset := 0;
      depth := 0;
    }

    ghost predicate Valid()
      reads `buffer, `offset
    {
      && buffer.Length <= INT_MAX
      && (if buffer.Length == 0 then offset == 0 else offset < buffer.Length)
    }

    /** The size the buffer may reach: what was given, or the largest int. */
    ghost function Cap(): int
      reads `buffer
    {
      if noalloc then buffer.Length else INT_MAX
    }

    ghost function Written(): string
      reads `buffer, `offset, buffer
      requires Valid()
    {
      buffer[..offset]
    }

    lemma WrittenLength()
      requires Valid()
      ensures |Written()| == offset
    {
    }

    /** The buffer starts with the text and a terminator, with at least one byte to spare. */
    ghost predicate Ends(text: string)
      reads `buffer, buffer
    {
      |text| + 2 <= buffer.Length && buffer[..|text|] == text && buffer[|text|] == NUL
    }

    /** ensure: room for `needed` more bytes and one behind them, growing to twice that when possible. */
    method Ensure(needed: nat) returns (ok: bool)
      requires Valid()
      modifies this`buffer
      ensures Valid() && Cap() == old(Cap())
      ensures buffer == old(buffer) || (!noalloc && fresh(buffer))
      ensures ok <==> old(offset) + needed + 1 <= Cap()
      ensures ok ==> offset + needed + 1 <= buffer.Length
      ensures old(buffer.Length) <= buffer.Length && Written() == old(Written())
    {
      if buffer.Length > 0 && offset >= buffer.Length {
        return false;
      }
      if needed > INT_MAX {
        return false;
      }
      var total := needed + offset + 1;
      if total <= buffer.Length {
        return true;
      }
      if noalloc {
        return false;
      }
      var newSize;
      if total > INT_MAX / 2 {
        if total > INT_MAX {
          return false;
        }
        newSize := INT_MAX;
      } else {
        newSize := total * 2;
      }
      var newBuffer := new char[newSize];
      forall i | 0 <= i < buffer.Length {
        newBuffer[i] := buffer[i];
      }
      assert newBuffer[..offset] == buffer[..offset];
      buffer := newBuffer;
      ok := true;
    }

    /** update_offset: past the text up to its terminator. */
    method UpdateOffset(ghost before: string, ghost text: string)
      requires Valid() && Ends(before + text) && |before| <= offset <= |before + text| && NulFree(text)
      modifies this`offset
      ensures Valid() && offset == |before + text|
    {
      ghost var whole := before + text;
      assert forall p | offset <= p < |whole| :: whole[p] != NUL by {
        forall p | offset <= p < |whole| ensures whole[p] != NUL {
          assert whole[p] == text[p - |before|];
        }
      }
      var n := 0;
      while buffer[offset + n] != NUL
        invariant offset + n <= |whole| < buffer.Length
        invariant buffer[..|whole|] == whole && buffer[|whole|] == NUL
        invariant forall p | offset <= p < |whole| :: buffer[p] == whole[p]
        decreases |whole| - n
      {
        n := n + 1;
      }
      assert offset + n == |whole|;
      offset := offset + n;
    }

    /** Writing bytes behind an output pointer; what is before it stays. */
    method Store(at: nat, text: string)
      requires at + |text| <= buffer.Length
      modifies buffer
      ensures buffer[..at + |text|] == old(buffer[..at]) + text
    {
      forall i | 0 <= i < |text| {
        buffer[at + i] := text[i];
      }
      assert buffer[at..at + |text|] == text;
      assert buffer[..at + |text|] == buffer[..at] + buffer[at..at + |text|];
    }

    /** The same with a terminator behind it. */
    method StoreTerminated(at: nat, text: string)
      requires at + |text| + 2 <= buffer.Length
      modifies buffer
      ensures Ends(old(buffer[..at]) + text)
    {
      Store(at, text + [NUL]);
      ghost var whole := old(buffer[..at]) + text;
      assert buffer[..|whole| + 1] == old(buffer[..at]) + (text + [NUL]) == whole + [NUL];
      assert buffer[..|whole|] == buffer[..|whole| + 1][..|whole|];
      assert buffer[|whole|] == buffer[..|whole| + 1][|whole|];
    }

    /** A fixed word: ensure and strcpy. */
    method PrintWord(word: string) returns (ok: bool)
      requires Valid()
      modifies this`buffer, buffer
      ensures Valid() && Cap() == old(Cap()) && (buffer == old(buffer) || (!noalloc && fresh(buffer)))
      ensures ok <==> old(offset) + |word| + 2 <= Cap()
      ensures ok ==> Ends(old(Written()) + word)
    {
      ok := Ensure(|word| + 1);
      if ok {
        StoreTerminated(offset, word);
      }
    }

    /** ensure for a piece and a terminator, written and stepped over. */
    method PrintPiece(piece: string) returns (ok: bool)
      requires Valid()
      modifies this`buffer, this`offset, buffer
      ensures Valid() && Cap() == old(Cap()) && (buffer == old(buffer) || (!noalloc && fresh(buffer)))
      ensures ok <==> old(offset) + |piece| + 2 <= Cap()
      ensures ok ==> Written() == old(Written()) + piece
      ensures ok ==> Ends(old(Written()) + piece)
    {
      ok := PrintWord(piece);
      if ok {
        offset := offset + |piece|;
      }
    }

    /** ensure for a piece without a terminator, written and stepped over. */
    method PrintOpen(piece: string) returns (ok: bool)
      requires Valid()
      modifies this`buffer, this`offset, buffer
      ensures Valid() && Cap() == old(Cap()) && (buffer == old(buffer) || (!noalloc && fresh(buffer)))
      ensures ok <==> old(offset) + |piece| + 1 <= Cap()
      ensures ok ==> Written() == old(Written()) + piece && offset == old(offset) + |piece|
    {
      ok := Ensure(|piece|);
      if ok {
        Store(offset, piece);
        offset := offset + |piece|;
      }
    }

    /** print_number: refuses a text that does not fit its local buffer. */
    method PrintNumber(d: real) returns (ok: bool)
      requires Valid()
      modifies this`buffer, this`offset, buffer
      ensures Valid() && Cap() == old(Cap()) && (buffer == old(buffer) || (!noalloc && fresh(buffer)))
      ensures ok <==> |NumberText(d)| <= NUMBER_BUFFER && old(offset) + |NumberText(d)| + 2 <= Cap()
      ensures ok ==> Written() == old(Written()) + NumberText(d)
      ensures ok ==> Ends(old(Written()) + NumberText(d))
    {
      var text := NumberText(d);
      hide NumberText;
      if |text| > NUMBER_BUFFER {
        return false;
      }
      ok := PrintPiece(text);
    }

    /** The first pass of print_string_ptr: how many more bytes escaping takes. */
    method CountEscapes(s: string) returns (escapes: nat)
      ensures |s| + escapes == |Escaped(s)|
    {
      escapes := 0;
      var i := 0;
      EscapedEnds(s);
      hide *;
      while i < |s|
        invariant i <= |s| && i + escapes == |Escaped(s[..i])|
      {
        EscapeLength(s, i);
        if EscapeLetter(s[i]) != NUL {
          escapes := escapes + 1;
        } else if s[i] < 32 as char {
          escapes := escapes + 5;
        }
        i := i + 1;
      }
    }

    /** One character of the second pass; returns the output pointer behind it. */
    method StoreEscaped(at: nat, c: char) returns (next: nat)
      requires at + |EscapeChar(c)| <= buffer.Length
      modifies buffer
      ensures next == at + |EscapeChar(c)| && buffer[..next] == old(buffer[..at]) + EscapeChar(c)
    {
      EscapeParts(c);
      hide EscapeChar, EscapeLetter, HexDigit;
      if c > 31 as char && c != QUOTE && c != BACKSLASH {
        Store(at, [c]);
        return at + 1;
      }
      Store(at, [BACKSLASH]);
      next := at + 1;
      assert buffer[..next] == old(buffer[..at]) + [BACKSLASH];
      if EscapeLetter(c) != NUL {
        Store(next, [EscapeLetter(c)]);
        next := next + 1;
      } else {
        Store(next, ['u', '0', '0', HexDigit(c as int / 16), HexDigit(c as int % 16)]);
        next := next + 5;
      }
    }

    /** The second pass of print_string_ptr. */
    method StoreEscapes(at: nat, s: string) returns (next: nat)
      requires at + |Escaped(s)| <= buffer.Length
      modifies buffer
      ensures next == at + |Escaped(s)| && buffer[..next] == old(buffer[..at]) + Escaped(s)
    {
      ghost var pre := buffer[..at];
      next := at;
      assert buffer[..next] == pre + Escaped(s[..0]);
      var i := 0;
      while i < |s|
        invariant i <= |s| && next == at + |Escaped(s[..i])| <= buffer.Length
        invariant buffer[..next] == pre + Escaped(s[..i])
      {
        EscapedBehind(pre, s, i);
        next := StoreEscaped(next, s[i]);
        i := i + 1;
      }
      assert s[..|s|] == s;
    }

    /** print_string_ptr: the quoted string and a terminator, the offset not moved. */
    method PrintString(s: string) returns (ok: bool)
      requires Valid()
      modifies this`buffer, buffer
      ensures Valid() && Cap() == old(Cap()) && (buffer == old(buffer) || (!noalloc && fresh(buffer)))
      ensures ok <==> old(offset) + |Quoted(s)| + 2 <= Cap()
      ensures ok ==> Ends(old(Written()) + Quoted(s))
    {
      var escapes := CountEscapes(s);
      var outputLength := |s| + escapes;
      ok := Ensure(outputLength + 3);
      if !ok {
        return;
      }
      StoreQuoted(s, escapes);
    }

    method StoreQuoted(s: string, escapes: nat)
      requires Valid() && offset + |Quoted(s)| + 2 <= buffer.Length && |s| + escapes == |Escaped(s)|
      modifies buffer
      ensures Ends(old(Written()) + Quoted(s))
    {
      ghost var pre := Written();
      Store(offset, [QUOTE]);
      var next := offset + 1;
      ghost var start := pre + [QUOTE];
      assert buffer[..next] == start;
      if escapes == 0 {
        EscapedLonger(s);
        Store(next, s);
        next := next + |s|;
      } else {
        next := StoreEscapes(next, s);
      }
      assert buffer[..next] == start + Escaped(s);
      StoreTerminated(next, [QUOTE]);
      QuotedBehind(pre, s);
    }

    // ---- containers ----

    /** print_value */
    method PrintValue(j: Json) returns (ok: bool)
      requires Valid() && Printable(j)
      modifies this`buffer, this`offset, this`depth, buffer
      ensures Valid() && Cap() == old(Cap()) && (buffer == old(buffer) || (!noalloc && fresh(buffer)))
      ensures ok <==> HasText(j) && old(offset) + |RenderValue(j, format, old(depth))| + 2 <= Cap()
      ensures ok ==> Ends(old(Written()) + RenderValue(j, format, old(depth)))
      ensures ok ==> old(offset) <= offset <= old(offset) + |RenderValue(j, format, old(depth))| && depth == old(depth)
      decreases j, 2
    {
      match j
      case Invalid => ok := false;
      case False => ok := PrintWord("false");
      case True => ok := PrintWord("true");
      case Null => ok := PrintWord("null");
      case Number(d) => ok := PrintNumber(d);
      case String(s) => ok := PrintString(s);
      case Array(_) => ok := PrintArray(j);
      case Object(_) => ok := PrintObject(j);
    }

    /** print_value and update_offset: the text is written and stepped over. */
    method PrintChild(j: Json) returns (ok: bool)
      requires Valid() && Printable(j)
      modifies this`buffer, this`offset, this`depth, buffer
      ensures Valid() && Cap() == old(Cap()) && (buffer == old(buffer) || (!noalloc && fresh(buffer)))
      ensures ok <==> HasText(j) && old(offset) + |RenderValue(j, format, old(depth))| + 2 <= Cap()
      ensures ok ==> Written() == old(Written()) + RenderValue(j, format, old(depth)) && depth == old(depth)
      decreases j, 3
    {
      ghost var pre, text := Written(), RenderValue(j, format, depth);
      ok := PrintValue(j);
      if ok {
        RenderNulFree(j, format, depth);
        UpdateOffset(pre, text);
      }
    }

    /** One turn of the element loop: the element, and a separator when another follows. */
    method PrintItem(item: Json, more: bool) returns (ok: bool)
      requires Valid() && Printable(item)
      modifies this`buffer, this`offset, this`depth, buffer
      ensures Valid() && Cap() == old(Cap()) && (buffer == old(buffer) || (!noalloc && fresh(buffer)))
      ensures ok <==> HasText(item) && old(offset) + |RenderItem(item, more, format, old(depth))| + 2 <= Cap()
      ensures ok ==> Written() == old(Written()) + RenderItem(item, more, format, old(depth)) && depth == old(depth)
      decreases item, 4
    {
      hide HasText, Printable, RenderValue;
      ok := PrintChild(item);
      if ok && more {
        Associate(old(Written()), RenderValue(item, format, depth), ItemSeparator(format));
        ok := PrintPiece(ItemSeparator(format));
      }
    }

    /** The element loop of print_array. */
    method PrintItems(items: seq<Json>) returns (ok: bool)
      requires Valid() && forall i | 0 <= i < |items| :: Printable(items[i])
      modifies this`buffer, this`offset, this`depth, buffer
      ensures Valid() && Cap() == old(Cap()) && (buffer == old(buffer) || (!noalloc && fresh(buffer)))
      ensures ok ==> forall i | 0 <= i < |items| :: HasText(items[i])
      ensures ok ==> Written() == old(Written()) + RenderItems(items, format, old(depth)) && depth == old(depth)
      ensures !ok && (forall i | 0 <= i < |items| :: HasText(items[i])) ==>
        old(offset) + |RenderItems(items, format, old(depth))| + 2 > Cap()
      decreases items, 5
    {
      hide RenderItem, HasText, Printable;
      ghost var goal := Written() + RenderItems(items, format, depth);
      ok := true;
      var i := 0;
      assert items[0..] == items;
      while i < |items|
        invariant i <= |items| && Valid() && Cap() == old(Cap())
        invariant (buffer == old(buffer) || (!noalloc && fresh(buffer)))
        invariant ok && depth == old(depth) && Written() + RenderItems(items[i..], format, depth) == goal
        invariant forall k | 0 <= k < i :: HasText(items[k])
      {
        ItemsStep(Written(), items, i, format, depth);
        ok := PrintItem(items[i], i + 1 < |items|);
        if !ok {
          return;
        }
        i := i + 1;
      }
    }

    /** print_array */
    method PrintArray(j: Json) returns (ok: bool)
      requires Valid() && j.Array? && Printable(j)
      modifies this`buffer, this`offset, this`depth, buffer
      ensures Valid() && Cap() == old(Cap()) && (buffer == old(buffer) || (!noalloc && fresh(buffer)))
      ensures ok <==> HasText(j) && old(offset) + |RenderValue(j, format, old(depth))| + 2 <= Cap()
      ensures ok ==> Ends(old(Written()) + RenderValue(j, format, old(depth)))
      ensures ok ==> old(offset) <= offset <= old(offset) + |RenderValue(j, format, old(depth))| && depth == old(depth)
      decreases j, 1
    {
      ok := PrintBracketed(j.items, RenderItems(j.items, format, depth + 1));
    }

    /** The steps of print_array: bracket, the elements, bracket. */
    method PrintBracketed(items: seq<Json>, ghost inner: string) returns (ok: bool)
      requires Valid() && forall i | 0 <= i < |items| :: Printable(items[i])
      requires inner == RenderItems(items, format, depth + 1)
      modifies this`buffer, this`offset, this`depth, buffer
      ensures Valid() && Cap() == old(Cap()) && (buffer == old(buffer) || (!noalloc && fresh(buffer)))
      ensures ok ==> (forall i | 0 <= i < |items| :: HasText(items[i])) && old(offset) + |inner| + 4 <= Cap()
      ensures !ok && (forall i | 0 <= i < |items| :: HasText(items[i])) ==> old(offset) + |inner| + 4 > Cap()
      ensures ok ==> Ends(old(Written()) + ("[" + inner + "]")) && depth == old(depth)
      ensures ok ==> old(offset) <= offset <= old(offset) + |inner| + 2
      decreases items, 6
    {
      hide RenderItems, HasText, Printable, Written, Ends, Valid;
      WrittenLength();
      Bracketed(Written(), "[", inner, "]");
      ok := PrintOpen("[");
      if !ok {
        return;
      }
      depth := depth + 1;
      ok := PrintItems(items);
      WrittenLength();
      if !ok {
        return;
      }
      ok := PrintWord("]");
      if ok {
        depth := depth - 1;
      }
    }

    /** The indentation, the key and the colon of a member. */
    method PrintKey(key: string) returns (ok: bool)
      requires Valid() && NulFree(key)
      modifies this`buffer, this`offset, buffer
      ensures Valid() && Cap() == old(Cap()) && (buffer == old(buffer) || (!noalloc && fresh(buffer)))
      ensures ok ==> Written() == old(Written()) + RenderKey(key, format, depth)
      ensures !ok ==> old(offset) + |RenderKey(key, format, depth)| + 1 > Cap()
    {
      hide Quoted;
      if format {
        ok := PrintOpen(Tabs(depth));
        if !ok {
          return;
        }
      }
      ghost var pre := old(Written()) + Indent(format, depth);
      assert Written() == pre;
      ok := PrintString(key);
      if !ok {
        return;
      }
      EscapedNulFree(key);
      UpdateOffset(pre, Quoted(key));
      AssociateFour(old(Written()), Indent(format, depth), Quoted(key), KeySeparator(format));
      ok := PrintOpen(KeySeparator(format));
    }

    /** One turn of the member loop. */
    method PrintMember(m: Member, more: bool) returns (ok: bool)
      requires Valid() && NulFree(m.key) && Printable(m.value)
      modifies this`buffer, this`offset, this`depth, buffer
      ensures Valid() && Cap() == old(Cap()) && (buffer == old(buffer) || (!noalloc && fresh(buffer)))
      ensures ok <==> HasText(m.value) && old(offset) + |RenderMember(m, more, format, old(depth))| + 2 <= Cap()
      ensures ok ==> Written() == old(Written()) + RenderMember(m, more, format, old(depth)) && depth == old(depth)
      decreases m, 4
    {
      hide RenderKey, RenderValue, MemberEnd, HasText, Printable;
      ok := PrintKey(m.key);
      if !ok {
        return;
      }
      AssociateFour(old(Written()), RenderKey(m.key, format, depth), RenderValue(m.value, format, depth),
        MemberEnd(more, format));
      ok := PrintChild(m.value);
      if !ok {
        return;
      }
      ok := PrintPiece(MemberEnd(more, format));
    }

    /** The member loop of print_object. */
    method PrintMembers(ms: seq<Member>) returns (ok: bool)
      requires Valid() && forall i | 0 <= i < |ms| :: NulFree(ms[i].key) && Printable(ms[i].value)
      modifies this`buffer, this`offset, this`depth, buffer
      ensures Valid() && Cap() == old(Cap()) && (buffer == old(buffer) || (!noalloc && fresh(buffer)))
      ensures ok ==> forall i | 0 <= i < |ms| :: HasText(ms[i].value)
      ensures ok ==> Written() == old(Written()) + RenderMembers(ms, format, old(depth)) && depth == old(depth)
      ensures !ok && (forall i | 0 <= i < |ms| :: HasText(ms[i].value)) ==>
        old(offset) + |RenderMembers(ms, format, old(depth))| + 2 > Cap()
      decreases ms, 5
    {
      hide RenderMember, HasText, Printable, NulFree;
      ghost var goal := Written() + RenderMembers(ms, format, depth);
      ok := true;
      var i := 0;
      assert ms[0..] == ms;
      while i < |ms|
        invariant i <= |ms| && Valid() && Cap() == old(Cap()) && (buffer == old(buffer) || (!noalloc && fresh(buffer)))
        invariant ok && depth == old(depth) && Written() + RenderMembers(ms[i..], format, depth) == goal
        invariant forall k | 0 <= k < i :: HasText(ms[k].value)
      {
        MembersStep(Written(), ms, i, format, depth);
        ok := PrintMember(ms[i], i + 1 < |ms|);
        if !ok {
          return;
        }
        i := i + 1;
      }
    }

    /** print_object */
    method PrintObject(j: Json) returns (ok: bool)
      requires Valid() && j.Object? && Printable(j)
      modifies this`buffer, this`offset, this`depth, buffer
      ensures Valid() && Cap() == old(Cap()) && (buffer == old(buffer) || (!noalloc && fresh(buffer)))
      ensures ok <==> HasText(j) && old(offset) + |RenderValue(j, format, old(depth))| + 2 <= Cap()
      ensures ok ==> Ends(old(Written()) + RenderValue(j, format, old(depth)))
      ensures ok ==> old(offset) <= offset <= old(offset) + |RenderValue(j, format, old(depth))| && depth == old(depth)
      decreases j, 1
    {
      var ms := j.members;
      ok := PrintBraced(ms, "{" + LineEnd(format), RenderMembers(ms, format, depth + 1), Indent(format, depth) + "}");
    }

    /** The opening brace and its line end, with one byte to spare, stepped over. */
    method PrintBrace(brace: string) returns (ok: bool)
      requires Valid()
      modifies this`buffer, this`offset, buffer
      ensures Valid() && Cap() == old(Cap()) && (buffer == old(buffer) || (!noalloc && fresh(buffer)))
      ensures ok <==> old(offset) + |brace| + 2 <= Cap()
      ensures ok ==> Written() == old(Written()) + brace && offset == old(offset) + |brace|
    {
      ok := Ensure(|brace| + 1);
      if ok {
        Store(offset, brace);
        offset := offset + |brace|;
      }
    }

    /** The steps of print_object: brace and line end, the members, indentation and brace. */
    method PrintBraced(ms: seq<Member>, brace: string, ghost inner: string, close: string) returns (ok: bool)
      requires Valid() && forall i | 0 <= i < |ms| :: NulFree(ms[i].key) && Printable(ms[i].value)
      requires inner == RenderMembers(ms, format, depth + 1)
      modifies this`buffer, this`offset, this`depth, buffer
      ensures Valid() && Cap() == old(Cap()) && (buffer == old(buffer) || (!noalloc && fresh(buffer)))
      ensures ok ==> forall i | 0 <= i < |ms| :: HasText(ms[i].value)
      ensures ok ==> old(offset) + |brace| + |inner| + |close| + 2 <= Cap()
      ensures !ok && (forall i | 0 <= i < |ms| :: HasText(ms[i].value)) ==>
        old(offset) + |brace| + |inner| + |close| + 2 > Cap()
      ensures ok ==> Ends(old(Written()) + (brace + inner + close)) && depth == old(depth)
      ensures ok ==> old(offset) <= offset <= old(offset) + |brace| + |inner| + |close|
      decreases ms, 6
    {
      hide RenderMembers, HasText, Printable, Written, Ends, Valid;
      WrittenLength();
      Bracketed(Written(), brace, inner, close);
      ok := PrintBrace(brace);
      if !ok {
        return;
      }
      depth := depth + 1;
      ok := PrintMembers(ms);
      WrittenLength();
      if !ok {
        return;
      }
      ok := PrintWord(close);
      if ok {
        depth := depth - 1;
      }
    }
  }

  // ---- the public printers ----

  /** print: cJSON_Print and cJSON_PrintUnformatted. */
  method Print(item: Json, format: bool) returns (r: Option<string>)
    requires Printable(item)
    ensures r == if HasText(item) && |RenderValue(item, format, 0)| + 2 <= INT_MAX
      then Some(RenderValue(item, format, 0)) else None
  {
    var start := new char[256];
    var p := new Buffer(start, false, format);
    ghost var text := RenderValue(item, format, 0);
    assert p.Written() == "" && "" + text == text;
    var ok := p.PrintValue(item);
    if !ok {
      return None;
    }
    RenderNulFree(item, format, 0);
    p.UpdateOffset("", text);
    return Some(p.buffer[..p.offset]);
  }

  /** cJSON_PrintBuffered: the same text whatever the first size, null for a negative one. */
  method PrintBuffered(item: Json, prebuffer: int, format: bool) returns (r: array?<char>)
    requires Printable(item) && prebuffer <= INT_MAX
    ensures r != null <==> prebuffer >= 0 && HasText(item) && |RenderValue(item, format, 0)| + 2 <= INT_MAX
    ensures r != null ==> var text := RenderValue(item, format, 0);
      |text| < r.Length && r[..|text|] == text && r[|text|] == NUL
  {
    if prebuffer < 0 {
      return null;
    }
    var start := new char[prebuffer];
    var p := new Buffer(start, false, format);
    ghost var text := RenderValue(item, format, 0);
    assert p.Written() == "" && "" + text == text;
    var ok := p.PrintValue(item);
    return if ok then p.buffer else null;
  }

  /** cJSON_PrintPreallocated: succeeds exactly when two bytes more than the text are there. */
  method PrintPreallocated(item: Json, buffer: array?<char>, length: int, format: bool) returns (ok: bool)
    requires Printable(item) && length <= INT_MAX
    requires buffer != null && length >= 0 ==> buffer.Length == length
    modifies buffer
    ensures ok <==> buffer != null && HasText(item) && length >= |RenderValue(item, format, 0)| + 2
    ensures ok ==> var text := RenderValue(item, format, 0); buffer[..|text|] == text && buffer[|text|] == NUL
  {
    if length < 0 || buffer == null {
      return false;
    }
    var p := new Buffer(buffer, true, format);
    ghost var text := RenderValue(item, format, 0);
    assert p.Written() == "" && "" + text == text;
    ok := p.PrintValue(item);
  }

  lemma EscapedEnds(s: string)
    ensures Escaped(s[..0]) == "" && s[..|s|] == s
  {
  }

  lemma EscapeParts(c: char)
    ensures c > 31 as char && c != QUOTE && c != BACKSLASH ==> EscapeChar(c) == [c]
    ensures !(c > 31 as char && c != QUOTE && c != BACKSLASH) && EscapeLetter(c) == NUL ==>
      c < 32 as char
      && EscapeChar(c) == [BACKSLASH] + ['u', '0', '0', HexDigit(c as int / 16), HexDigit(c as int % 16)]
    ensures EscapeLetter(c) != NUL ==> EscapeChar(c) == [BACKSLASH] + [EscapeLetter(c)]
  {
  }

  lemma EscapeLength(s: string, i: nat)
    requires i < |s|
    ensures |Escaped(s[..i + 1])| == |Escaped(s[..i])|
      + if EscapeLetter(s[i]) != NUL then 2 else if s[i] < 32 as char then 6 else 1
  {
    hide Escaped;
    EscapedStep(s, i);
  }

  // ---- pieces of text, one behind the other ----

  lemma Associate(a: string, b: string, c: string)
    ensures (a + b) + c == a + (b + c)
  {
  }

  lemma AssociateFour(a: string, b: string, c: string, d: string)
    ensures ((a + b) + c) + d == a + (b + c + d)
  {
  }

  lemma Bracketed(pre: string, left: string, text: string, right: string)
    ensures ((pre + left) + text) + right == pre + (left + text + right)
  {
  }

  lemma ItemsStep(pre: string, items: seq<Json>, i: nat, format: bool, depth: nat)
    requires i < |items|
    ensures pre + RenderItems(items[i..], format, depth)
         == (pre + RenderItem(items[i], i + 1 < |items|, format, depth)) + RenderItems(items[i + 1..], format, depth)
  {
    assert items[i..][1..] == items[i + 1..];
    Associate(pre, RenderItem(items[i], i + 1 < |items|, format, depth), RenderItems(items[i + 1..], format, depth));
  }

  lemma MembersStep(pre: string, ms: seq<Member>, i: nat, format: bool, depth: nat)
    requires i < |ms|
    ensures pre + RenderMembers(ms[i..], format, depth)
         == (pre + RenderMember(ms[i], i + 1 < |ms|, format, depth)) + RenderMembers(ms[i + 1..], format, depth)
  {
    assert ms[i..][1..] == ms[i + 1..];
    Associate(pre, RenderMember(ms[i], i + 1 < |ms|, format, depth), RenderMembers(ms[i + 1..], format, depth));
  }

  lemma EscapedNulFree(key: string)
    requires NulFree(key)
    ensures NulFree(Quoted(key))
  {
  }

  lemma EscapedBehind(pre: string, s: string, i: nat)
    requires i < |s|
    ensures pre + Escaped(s[..i + 1]) == (pre + Escaped(s[..i])) + EscapeChar(s[i])
    ensures |Escaped(s[..i])| + |EscapeChar(s[i])| == |Escaped(s[..i + 1])| <= |Escaped(s)|
  {
    EscapedStep(s, i);
  }

  lemma QuotedBehind(pre: string, s: string)
    ensures ((pre + [QUOTE]) + Escaped(s)) + [QUOTE] == pre + Quoted(s)
  {
  }
}
