/** DNS packets in dns_proxy.c: reading the question, and building the captive-portal answers. */
module DnsPacket {
  import opened JsonTree

  type Byte = x: int | 0 <= x < 256

  const HEADER: nat := 12

  // ---- reading a question ----

  predicate IsPrint(b: Byte) { 0x20 <= b <= 0x7E }

  function Shown(b: Byte): char { if IsPrint(b) then b as char else '?' }

  /** Characters are appended while the output has room for a terminator behind them. */
  function AppendBytes(out: string, chunk: seq<Byte>, cap: nat): (r: string)
    requires |out| <= cap
    ensures |out| <= |r| <= cap
    decreases |chunk|
  {
    if chunk == [] then out
    else AppendBytes(if |out| < cap then out + [Shown(chunk[0])] else out, chunk[1..], cap)
  }

  function AppendLabel(out: string, chunk: seq<Byte>, cap: nat): (r: string)
    requires |out| <= cap
    ensures |out| <= |r| <= cap
  {
    AppendBytes(if out != [] && |out| < cap then out + "." else out, chunk, cap)
  }

  /** The QNAME loop of parse_dns_query from o on: the name and where reading stopped; None when rejected. */
  function ReadName(buf: seq<Byte>, o: nat, out: string, cap: nat): (r: Option<(string, nat)>)
    requires o <= |buf| && |out| <= cap
    ensures r.Some? ==> o <= r.value.1 <= |buf| && |r.value.0| <= cap
    decreases |buf| - o
  {
    if o == |buf| then Some((out, o))
    else if buf[o] == 0 then Some((out, o + 1))
    else if buf[o] >= 0x40 then None
    else if o + 1 + buf[o] > |buf| then None
    else ReadName(buf, o + 1 + buf[o], AppendLabel(out, buf[o + 1..o + 1 + buf[o]], cap), cap)
  }

  /** A big-endian 16-bit number. */
  function Word(high: Byte, low: Byte): nat {
    var h: int := high;
    h * 256 + low
  }

  datatype Question = Question(name: string, qtype: nat, end: nat)

  /** parse_dns_query, for an output buffer of cap + 1 characters; `end` is where the question ends. */
  function ParseQuery(buf: seq<Byte>, cap: nat): (r: Option<Question>)
    ensures r.Some? ==> HEADER < r.value.end <= |buf| && 0 < |r.value.name| <= cap
  {
    if |buf| < HEADER || (buf[4] == 0 && buf[5] == 0) then None
    else
      var name := ReadName(buf, HEADER, "", cap);
      if name.None? || name.value.0 == "" || name.value.1 + 4 > |buf| then None
      else
        var o := name.value.1;
        Some(Question(name.value.0, Word(buf[o], buf[o + 1]), o + 4))
  }

  /** question_end, from o on */
  function QuestionEnd(buf: seq<Byte>, o: nat): (r: Option<nat>)
    ensures r.Some? ==> r.value >= o + 5
    decreases |buf| - o
  {
    if o >= |buf| then None
    else if buf[o] == 0 then Some(o + 5)
    else QuestionEnd(buf, o + buf[o] + 1)
  }

  /** Both walks stop at the same terminator. */
  lemma {:induction false} WalksAgree(buf: seq<Byte>, o: nat, out: string, cap: nat)
    requires o <= |buf| && |out| <= cap
    requires ReadName(buf, o, out, cap).Some? && ReadName(buf, o, out, cap).value.1 + 4 <= |buf|
    ensures QuestionEnd(buf, o) == Some(ReadName(buf, o, out, cap).value.1 + 4)
    decreases |buf| - o
  {
    if o < |buf| && buf[o] != 0 {
      WalksAgree(buf, o + 1 + buf[o], AppendLabel(out, buf[o + 1..o + 1 + buf[o]], cap), cap);
    }
  }

  /** On every packet the parser accepts, question_end is the end of the question it read. */
  lemma EndAgrees(buf: seq<Byte>, cap: nat)
    requires ParseQuery(buf, cap).Some?
    ensures QuestionEnd(buf, HEADER) == Some(ParseQuery(buf, cap).value.end)
  {
    WalksAgree(buf, HEADER, "", cap);
  }

  lemma NameTurn(buf: seq<Byte>, o: nat, out: string, cap: nat)
    requires o < |buf| && |out| <= cap
    ensures buf[o] == 0 ==> ReadName(buf, o, out, cap) == Some((out, o + 1))
    ensures buf[o] >= 0x40 || (buf[o] > 0 && o + 1 + buf[o] > |buf|) ==> ReadName(buf, o, out, cap) == None
    ensures var e := o + 1 + buf[o];
      0 < buf[o] < 0x40 && e <= |buf| ==>
        ReadName(buf, o, out, cap) == ReadName(buf, e, AppendLabel(out, buf[o + 1..e], cap), cap)
  {
  }

  lemma NameEnd(buf: seq<Byte>, out: string, cap: nat)
    requires |out| <= cap
    ensures ReadName(buf, |buf|, out, cap) == Some((out, |buf|))
  {
  }

  // ---- the loops ----

  /** parse_dns_query: qname holds the name and a terminator. */
  method ParseDnsQuery(buf: seq<Byte>, qname: array<char>) returns (ok: bool, qtype: nat, length: nat)
    requires qname.Length > 0
    modifies qname
    ensures ok <==> ParseQuery(buf, qname.Length - 1).Some?
    ensures ok ==> qtype == ParseQuery(buf, qname.Length - 1).value.qtype
    ensures ok ==> length < qname.Length && qname[length] == 0 as char
    ensures ok ==> qname[..length] == ParseQuery(buf, qname.Length - 1).value.name
  {
    hide ReadName, AppendLabel;
    ok, qtype, length := false, 0, 0;
    if |buf| < HEADER {
      return;
    }
    if buf[4] == 0 && buf[5] == 0 {
      return;
    }
    var cap := qname.Length - 1;
    var offset := HEADER;
    ghost var whole := ReadName(buf, HEADER, "", cap);
    while offset < |buf|
      invariant HEADER <= offset <= |buf| && length <= cap
      invariant ReadName(buf, offset, qname[..length], cap) == whole
      decreases |buf| - offset
    {
      NameTurn(buf, offset, qname[..length], cap);
      var labelLength := buf[offset];
      offset := offset + 1;
      if labelLength == 0 {
        break;
      }
      if labelLength >= 0x40 {
        return;
      }
      if offset + labelLength > |buf| {
        return;
      }
      length := StoreLabel(buf, offset, labelLength, qname, length);
      offset := offset + labelLength;
    }
    NameEnd(buf, qname[..length], cap);
    assert whole == Some((qname[..length], offset));
    if length == 0 {
      return;
    }
    qname[length] := 0 as char;
    assert qname[..length] == whole.value.0;
    if offset + 4 > |buf| {
      return;
    }
    qtype := Word(buf[offset], buf[offset + 1]);
    ok := true;
  }

  /** The dot in front of a label, and the label. */
  method StoreLabel(buf: seq<Byte>, offset: nat, labelLength: nat, qname: array<char>, start: nat) returns (length: nat)
    requires offset + labelLength <= |buf| && start < qname.Length
    modifies qname
    ensures length < qname.Length
    ensures qname[..length] == AppendLabel(old(qname[..start]), buf[offset..offset + labelLength], qname.Length - 1)
  {
    hide AppendBytes;
    ghost var before := qname[..start];
    length := start;
    if length != 0 && length < qname.Length - 1 {
      qname[length] := '.';
      length := length + 1;
      assert qname[..length] == before + ".";
    }
    length := CopyLabel(buf, offset, labelLength, qname, length);
  }

  /** The character loop for one label. */
  method CopyLabel(buf: seq<Byte>, offset: nat, labelLength: nat, qname: array<char>, start: nat) returns (length: nat)
    requires offset + labelLength <= |buf| && start < qname.Length
    modifies qname
    ensures length < qname.Length
    ensures qname[..length] == AppendBytes(old(qname[..start]), buf[offset..offset + labelLength], qname.Length - 1)
  {
    var cap := qname.Length - 1;
    length := start;
    ghost var whole := AppendBytes(qname[..start], buf[offset..offset + labelLength], cap);
    for i := 0 to labelLength
      invariant length <= cap
      invariant AppendBytes(qname[..length], buf[offset + i..offset + labelLength], cap) == whole
    {
      ghost var rest := buf[offset + i..offset + labelLength];
      assert rest[1..] == buf[offset + i + 1..offset + labelLength] && rest[0] == buf[offset + i];
      ghost var before := qname[..length];
      if length < cap {
        qname[length] := Shown(buf[offset + i]);
        length := length + 1;
        assert qname[..length] == before + [Shown(rest[0])];
      }
    }
  }

  /** question_end: -1 for malformed input. */
  method FindQuestionEnd(buf: seq<Byte>) returns (end: int)
    ensures end == if QuestionEnd(buf, HEADER).Some? then QuestionEnd(buf, HEADER).value else -1
  {
    var off: nat := HEADER;
    while off < |buf| && buf[off] != 0
      invariant QuestionEnd(buf, off) == QuestionEnd(buf, HEADER)
      decreases |buf| - off
    {
      off := off + buf[off] + 1;
    }
    return if off < |buf| then off + 1 + 4 else -1;
  }

  // ---- building answers ----

  /** The header bytes every captive answer overwrites: flags, ANCOUNT, NSCOUNT, ARCOUNT. */
  function Answered(q: seq<Byte>, end: nat, answers: Byte): (r: seq<Byte>)
    requires HEADER <= end <= |q|
    ensures |r| == end
  {
    seq(end, i requires 0 <= i < end => AnsweredAt(q, i, answers))
  }

  function AnsweredAt(q: seq<Byte>, i: nat, answers: Byte): Byte
    requires i < |q|
  {
    if i == 2 then 0x81 else if i == 3 then 0x80
    else if i == 7 then answers
    else if i == 6 || 8 <= i < 12 then 0
    else q[i]
  }

  /** An A record in class IN with a TTL of sixty seconds, named by a pointer to offset 12. */
  function AddressRecord(ip: seq<Byte>): seq<Byte> {
    [0xC0, 0x0C, 0x00, 0x01, 0x00, 0x01, 0x00, 0x00, 0x00, 0x3C, 0x00, 0x04] + ip
  }

  /** The answer to a packet at the start of the receive buffer is the answer to the packet. */
  lemma AnsweredPacket(buf: seq<Byte>, qlen: nat, end: nat, answers: Byte)
    requires HEADER <= end <= qlen <= |buf|
    ensures Answered(buf, end, answers) == Answered(buf[..qlen], end, answers)
  {
    forall i | 0 <= i < end ensures AnsweredAt(buf, i, answers) == AnsweredAt(buf[..qlen], i, answers) {
      assert buf[..qlen][i] == buf[i];
    }
  }

  /**
   * build_captive_response, for the packet in the first qlen bytes of a receive buffer that is no
   * shorter than the output: the length built, or -1. A malformed packet's question may end behind
   * the packet; what lies in the buffer there is copied.
   */
  method BuildCaptiveResponse(buf: seq<Byte>, qlen: nat, out: array<Byte>, ip: seq<Byte>) returns (n: int)
    requires |ip| == 4 && qlen <= |buf| && out.Length <= |buf|
    modifies out
    ensures var end := QuestionEnd(buf[..qlen], HEADER);
      if end.None? || end.value + 16 > out.Length then n == -1 && out[..] == old(out[..])
      else n == end.value + 16 && out[..n] == Answered(buf, end.value, 1) + AddressRecord(ip)
  {
    var end := FindQuestionEnd(buf[..qlen]);
    if end < 0 || end + 16 > out.Length {
      return -1;
    }
    CopyQuestion(buf, end, out, 1);
    StoreRecord(out, end, ip);
    return end + 16;
  }

  /** The sixteen bytes of the answer record. */
  method StoreRecord(out: array<Byte>, o: nat, ip: seq<Byte>)
    requires o + 16 <= out.Length && |ip| == 4
    modifies out
    ensures out[..o + 16] == old(out[..o]) + AddressRecord(ip)
  {
    var p := Append(out, o, [0xC0, 0x0C]);
    p := Append(out, p, [0x00, 0x01]);
    p := Append(out, p, [0x00, 0x01]);
    p := Append(out, p, [0x00, 0x00]);
    p := Append(out, p, [0x00, 0x3C]);
    p := Append(out, p, [0x00, 0x04]);
    p := Append(out, p, ip);
    assert [0xC0, 0x0C] + [0x00, 0x01] + [0x00, 0x01] + [0x00, 0x00] + [0x00, 0x3C] + [0x00, 0x04] + ip
      == AddressRecord(ip);
    Chain(old(out[..o]), [0xC0, 0x0C], [0x00, 0x01], [0x00, 0x01], [0x00, 0x00], [0x00, 0x3C], [0x00, 0x04], ip);
  }

  /** Bytes stored behind an output pointer. */
  method Append(out: array<Byte>, o: nat, bytes: seq<Byte>) returns (next: nat)
    requires o + |bytes| <= out.Length
    modifies out
    ensures next == o + |bytes| && out[..next] == old(out[..o]) + bytes
  {
    forall i | 0 <= i < |bytes| {
      out[o + i] := bytes[i];
    }
    assert out[o..o + |bytes|] == bytes;
    assert out[..o + |bytes|] == out[..o] + out[o..o + |bytes|];
    return o + |bytes|;
  }

  lemma Chain(p: seq<Byte>, a: seq<Byte>, b: seq<Byte>, c: seq<Byte>, d: seq<Byte>, e: seq<Byte>, f: seq<Byte>,
        g: seq<Byte>)
    ensures p + a + b + c + d + e + f + g == p + (a + b + c + d + e + f + g)
  {
  }

  /** The question copied, and the header bytes an answer sets. */
  method CopyQuestion(q: seq<Byte>, end: nat, out: array<Byte>, answers: Byte)
    requires HEADER <= end <= |q| && end <= out.Length
    modifies out
    ensures out[..end] == Answered(q, end, answers)
  {
    forall i | 0 <= i < end {
      out[i] := q[i];
    }
    out[2], out[3] := 0x81, 0x80;
    out[6], out[7] := 0, answers;
    out[8], out[9], out[10], out[11] := 0, 0, 0, 0;
    forall i | 0 <= i < end ensures out[i] == AnsweredAt(q, i, answers) {
    }
  }

  /** build_nodata_response: the length built, or -1. */
  method BuildNodataResponse(buf: seq<Byte>, qlen: nat, out: array<Byte>) returns (n: int)
    requires qlen <= |buf| && out.Length <= |buf|
    modifies out
    ensures var end := QuestionEnd(buf[..qlen], HEADER);
      if end.None? || end.value > out.Length then n == -1 && out[..] == old(out[..])
      else n == end.value && out[..n] == Answered(buf, end.value, 0)
  {
    var end := FindQuestionEnd(buf[..qlen]);
    if end < 0 || end > out.Length {
      return -1;
    }
    CopyQuestion(buf, end, out, 0);
    return end;
  }

  // ---- reading a response (RFC 1035, section 4.1) ----

  datatype Header = Header(id: nat, flags: nat, questions: nat, answers: nat, authorities: nat, additionals: nat)

  function ReadHeader(p: seq<Byte>): Header
    requires |p| >= HEADER
  {
    Header(Word(p[0], p[1]), Word(p[2], p[3]), Word(p[4], p[5]), Word(p[6], p[7]), Word(p[8], p[9]), Word(p[10], p[11]))
  }

  datatype Record = Record(owner: string, rtype: nat, rclass: nat, ttl: nat, data: seq<Byte>, end: nat)

  /** A resource record whose owner is a compression pointer. */
  function ReadRecord(p: seq<Byte>, o: nat, cap: nat): Option<Record> {
    if o + 12 > |p| || p[o] < 0xC0 then None
    else
      var target, length := Word(p[o] - 0xC0, p[o + 1]), Word(p[o + 10], p[o + 11]);
      if target > |p| || o + 12 + length > |p| then None
      else
        var owner := ReadName(p, target, "", cap);
        if owner.None? then None
        else
          Some(Record(owner.value.0, Word(p[o + 2], p[o + 3]), Word(p[o + 4], p[o + 5]),
            Word(p[o + 6], p[o + 7]) * 65536 + Word(p[o + 8], p[o + 9]), p[o + 12..o + 12 + length], o + 12 + length))
  }

  /** A terminated name reads the same wherever its bytes are the same. */
  lemma {:induction false} NameLocal(p: seq<Byte>, p': seq<Byte>, o: nat, out: string, cap: nat)
    requires o <= |p| && |out| <= cap
    requires ReadName(p, o, out, cap).Some? && ReadName(p, o, out, cap).value.1 < |p|
    requires ReadName(p, o, out, cap).value.1 <= |p'|
    requires forall i | o <= i < ReadName(p, o, out, cap).value.1 :: p'[i] == p[i]
    ensures ReadName(p', o, out, cap) == ReadName(p, o, out, cap)
    decreases |p| - o
  {
    if p[o] != 0 {
      var next := o + 1 + p[o];
      assert p'[o + 1..next] == p[o + 1..next];
      NameLocal(p, p', next, AppendLabel(out, p[o + 1..next], cap), cap);
    }
  }

  lemma AnsweredKeeps(q: seq<Byte>, end: nat, answers: Byte, tail: seq<Byte>)
    requires HEADER <= end <= |q|
    ensures var r := Answered(q, end, answers) + tail;
      && |r| == end + |tail| && r[end..] == tail
      && r[0] == q[0] && r[1] == q[1] && r[2] == 0x81 && r[3] == 0x80 && r[4] == q[4] && r[5] == q[5]
      && r[6] == 0 && r[7] == answers && r[8] == 0 && r[9] == 0 && r[10] == 0 && r[11] == 0
      && forall i | HEADER <= i < end :: r[i] == q[i]
  {
  }

  /** The answer carries the question that was asked, and the query's transaction ID. */
  lemma AnswerAsks(q: seq<Byte>, cap: nat, answers: Byte, tail: seq<Byte>)
    requires ParseQuery(q, cap).Some?
    ensures var asked := ParseQuery(q, cap).value;
      var r := Answered(q, asked.end, answers) + tail;
      && ParseQuery(r, cap) == Some(asked)
      && ReadHeader(r) == Header(Word(q[0], q[1]), 0x8180, Word(q[4], q[5]), Word(0, answers), 0, 0)
      && ReadName(r, HEADER, "", cap) == ReadName(q, HEADER, "", cap)
  {
    var asked := ParseQuery(q, cap).value;
    AnsweredKeeps(q, asked.end, answers, tail);
    NameLocal(q, Answered(q, asked.end, answers) + tail, HEADER, "", cap);
  }

  /**
   * The captive answer to an accepted query with one question: it asks the same question, and holds
   * exactly one record, an A record for the queried name with the given address.
   */
  lemma CaptiveAnswers(q: seq<Byte>, cap: nat, ip: seq<Byte>)
    requires ParseQuery(q, cap).Some? && Word(q[4], q[5]) == 1 && |ip| == 4
    ensures var asked := ParseQuery(q, cap).value;
      var r := Answered(q, asked.end, 1) + AddressRecord(ip);
      && ParseQuery(r, cap) == Some(asked)
      && ReadHeader(r) == Header(Word(q[0], q[1]), 0x8180, 1, 1, 0, 0)
      && ReadRecord(r, asked.end, cap) == Some(Record(asked.name, 1, 1, 60, ip, |r|))
  {
    var asked := ParseQuery(q, cap).value;
    AnswerAsks(q, cap, 1, AddressRecord(ip));
    AnsweredKeeps(q, asked.end, 1, AddressRecord(ip));
    RecordReads(Answered(q, asked.end, 1) + AddressRecord(ip), asked.end, ip, cap);
  }

  lemma RecordReads(r: seq<Byte>, o: nat, ip: seq<Byte>, cap: nat)
    requires HEADER <= o <= |r| && r[o..] == AddressRecord(ip) && |ip| == 4
    requires ReadName(r, HEADER, "", cap).Some?
    ensures ReadRecord(r, o, cap) == Some(Record(ReadName(r, HEADER, "", cap).value.0, 1, 1, 60, ip, |r|))
  {
    forall i | 0 <= i < 16 ensures r[o + i] == AddressRecord(ip)[i] {
      assert r[o + i] == r[o..][i];
    }
    hide ReadName;
    assert r[o + 12..o + 16] == ip;
  }

  /** The answer without data: the same question, no record, nothing behind the question. */
  lemma NodataAnswers(q: seq<Byte>, cap: nat)
    requires ParseQuery(q, cap).Some? && Word(q[4], q[5]) == 1
    ensures var asked := ParseQuery(q, cap).value;
      var r := Answered(q, asked.end, 0);
      && |r| == asked.end && ParseQuery(r, cap) == Some(asked)
      && ReadHeader(r) == Header(Word(q[0], q[1]), 0x8180, 1, 0, 0, 0)
  {
    AnswerAsks(q, cap, 0, []);
    var r := Answered(q, ParseQuery(q, cap).value.end, 0);
    assert r + [] == r;
  }

  // ---- exactly which questions are read, and as what ----

  /** A label of 1 to 63 bytes, whatever they are. */
  predicate IsLabel(l: seq<Byte>) {
    0 < |l| < 64
  }

  predicate AllLabels(ls: seq<seq<Byte>>) {
    forall i | 0 <= i < |ls| :: IsLabel(ls[i])
  }

  /** Each label behind its length, and a zero byte. */
  function EncodeName(ls: seq<seq<Byte>>): seq<Byte>
    requires AllLabels(ls)
  {
    if ls == [] then [0]
    else
      assert IsLabel(ls[0]);
      [|ls[0]| as Byte] + ls[0] + EncodeName(ls[1..])
  }

  /** Bytes from the space to the tilde as they are, any other as a question mark. */
  function Characters(l: seq<Byte>): string {
    seq(|l|, i requires 0 <= i < |l| => if 32 <= l[i] <= 126 then l[i] as char else '?')
  }

  /** The labels behind a name that is already there, joined with dots. */
  function Joined(out: string, ls: seq<seq<Byte>>): string
    decreases |ls|
  {
    if ls == [] then out
    else Joined((if out == "" then "" else out + ".") + Characters(ls[0]), ls[1..])
  }

  /** The first cap characters. */
  function Shortened(s: string, cap: nat): string {
    if |s| <= cap then s else s[..cap]
  }

  lemma {:induction false} AppendShortens(out: string, l: seq<Byte>, cap: nat)
    requires |out| <= cap
    ensures AppendBytes(out, l, cap) == Shortened(out + Characters(l), cap)
    decreases |l|
  {
    if l == [] {
      assert out + Characters(l) == out;
    } else {
      var c := [Shown(l[0])];
      assert out + Characters(l) == (out + c) + Characters(l[1..]);
      if |out| < cap {
        AppendShortens(out + c, l[1..], cap);
      } else {
        AppendShortens(out, l[1..], cap);
        ShortenedTwice(out, c + Characters(l[1..]), Characters(l[1..]), cap);
        assert out + (c + Characters(l[1..])) == (out + c) + Characters(l[1..]);
      }
    }
  }

  /** Behind a full buffer nothing matters. */
  lemma ShortenedTwice(out: string, a: string, b: string, cap: nat)
    requires |out| == cap
    ensures Shortened(out + a, cap) == Shortened(out + b, cap) == out
  {
  }

  lemma LabelShortens(out: string, l: seq<Byte>, cap: nat)
    requires |out| <= cap
    ensures AppendLabel(out, l, cap) == Shortened((if out == "" then "" else out + ".") + Characters(l), cap)
  {
    hide AppendBytes, Characters;
    if out != [] && |out| < cap {
      AppendShortens(out + ".", l, cap);
    } else {
      AppendShortens(out, l, cap);
      if out != [] {
        ShortenedTwice(out, Characters(l), "." + Characters(l), cap);
        assert out + ("." + Characters(l)) == (out + ".") + Characters(l);
      } else {
        assert out + Characters(l) == "" + Characters(l);
      }
    }
  }

  /** Shortening in front of further labels and behind them is shortening behind them. */
  lemma {:induction false} JoinedShortens(out: string, ls: seq<seq<Byte>>, cap: nat)
    requires cap > 0
    ensures Shortened(Joined(Shortened(out, cap), ls), cap) == Shortened(Joined(out, ls), cap)
    decreases |ls|
  {
    hide Characters;
    if ls != [] && |out| > cap {
      var c := Characters(ls[0]);
      var short := out[..cap];
      JoinedShortens((short + ".") + c, ls[1..], cap);
      JoinedShortens((out + ".") + c, ls[1..], cap);
      assert ((short + ".") + c)[..cap] == short == ((out + ".") + c)[..cap];
    }
  }

  /** The encoded name lies at o. */
  predicate NameAt(buf: seq<Byte>, o: nat, ls: seq<seq<Byte>>)
    requires AllLabels(ls)
  {
    o + |EncodeName(ls)| <= |buf| && buf[o..o + |EncodeName(ls)|] == EncodeName(ls)
  }

  lemma {:induction false} NameReads(buf: seq<Byte>, o: nat, ls: seq<seq<Byte>>, out: string, cap: nat)
    requires AllLabels(ls) && NameAt(buf, o, ls) && |out| <= cap && cap > 0
    ensures ReadName(buf, o, out, cap) == Some((Shortened(Joined(out, ls), cap), o + |EncodeName(ls)|))
    decreases |ls|
  {
    hide *;
    JoinedStep(out, ls);
    LabelsOnly(ls);
    if ls == [] {
      NameEnds(buf, o, out, cap);
      AlreadyShort(out, cap);
    } else {
      var l := ls[0];
      var next := FirstLabel(buf, o, ls);
      LabelShortens(out, l, cap);
      NameStep(buf, o, l, out, cap);
      NameReads(buf, next, ls[1..], AppendLabel(out, l, cap), cap);
      JoinedShortens((if out == "" then "" else out + ".") + Characters(l), ls[1..], cap);
    }
  }

  lemma AlreadyShort(out: string, cap: nat)
    requires |out| <= cap
    ensures Shortened(out, cap) == out && |EncodeName([])| == 1
  {
  }

  lemma JoinedStep(out: string, ls: seq<seq<Byte>>)
    ensures ls == [] ==> Joined(out, ls) == out
    ensures ls != [] ==>
      Joined(out, ls) == Joined((if out == "" then "" else out + ".") + Characters(ls[0]), ls[1..])
  {
  }

  lemma LabelsOnly(ls: seq<seq<Byte>>)
    requires AllLabels(ls)
    ensures ls != [] ==> 0 < |ls[0]| < 0x40 && AllLabels(ls[1..])
  {
    assert ls != [] ==> IsLabel(ls[0]);
  }

  lemma NameEnds(buf: seq<Byte>, o: nat, out: string, cap: nat)
    requires NameAt(buf, o, []) && |out| <= cap
    ensures ReadName(buf, o, out, cap) == Some((out, o + 1))
  {
    assert buf[o] == buf[o..o + 1][0];
  }

  lemma NameStep(buf: seq<Byte>, o: nat, l: seq<Byte>, out: string, cap: nat)
    requires o + 1 + |l| <= |buf| && 0 < |l| < 0x40 && buf[o] == |l| && buf[o + 1..o + 1 + |l|] == l && |out| <= cap
    ensures ReadName(buf, o, out, cap) == ReadName(buf, o + 1 + |l|, AppendLabel(out, l, cap), cap)
    ensures |AppendLabel(out, l, cap)| <= cap
  {
    hide AppendLabel;
  }

  /** Where the first label of an encoded name lies. */
  lemma FirstLabel(buf: seq<Byte>, o: nat, ls: seq<seq<Byte>>) returns (next: nat)
    requires ls != [] && AllLabels(ls) && NameAt(buf, o, ls)
    ensures AllLabels(ls[1..]) && NameAt(buf, next, ls[1..])
    ensures next == o + 1 + |ls[0]| && next + |EncodeName(ls[1..])| == o + |EncodeName(ls)| <= |buf|
    ensures buf[o] == |ls[0]| && buf[o + 1..next] == ls[0]
  {
    var l, rest, code := ls[0], EncodeName(ls[1..]), EncodeName(ls);
    next := o + 1 + |l|;
    assert code == [|l| as Byte] + l + rest;
    Slices(buf, o, [|l| as Byte], l, rest);
  }

  lemma Slices(buf: seq<Byte>, o: nat, a: seq<Byte>, b: seq<Byte>, c: seq<Byte>)
    requires |a| == 1 && o + |a + b + c| <= |buf| && buf[o..o + |a + b + c|] == a + b + c
    ensures buf[o] == a[0] && buf[o + 1..o + 1 + |b|] == b && buf[o + 1 + |b|..o + 1 + |b| + |c|] == c
  {
    var code := a + b + c;
    assert code[0] == a[0] && code[1..1 + |b|] == b && code[1 + |b|..] == c;
    assert buf[o] == buf[o..o + |code|][0];
    SliceOfSlice(buf, o, o + |code|, 1, 1 + |b|);
    SliceOfSlice(buf, o, o + |code|, 1 + |b|, |code|);
  }

  lemma SliceOfSlice(s: seq<Byte>, lo: nat, hi: nat, i: nat, j: nat)
    requires i <= j && lo + j <= hi <= |s|
    ensures s[lo..hi][i..j] == s[lo + i..lo + j]
  {
    forall k | 0 <= k < j - i ensures s[lo..hi][i..j][k] == s[lo + i..lo + j][k] {
    }
  }

  /** An encoded name of at least one label, with four more bytes behind it, in a packet that has a question. */
  ghost predicate Asked(buf: seq<Byte>, ls: seq<seq<Byte>>) {
    && |buf| >= 12 && (buf[4] != 0 || buf[5] != 0)
    && ls != [] && AllLabels(ls) && NameAt(buf, 12, ls) && 12 + |EncodeName(ls)| + 4 <= |buf|
  }

  /**
   * Every such packet is read: the labels joined with dots, cut to the size of the output buffer, and the
   * two bytes behind the name as the type.
   */
  lemma QueryReads(buf: seq<Byte>, ls: seq<seq<Byte>>, cap: nat)
    requires Asked(buf, ls) && cap > 0
    ensures var o := 12 + |EncodeName(ls)|;
      ParseQuery(buf, cap)
      == Some(Question(Shortened(Joined("", ls), cap), (buf[o] as int) * 256 + (buf[o + 1] as int), o + 4))
  {
    hide ReadName, EncodeName, Joined;
    NameReads(buf, HEADER, ls, "", cap);
    JoinedLonger("", ls);
  }

  lemma {:induction false} JoinedLonger(out: string, ls: seq<seq<Byte>>)
    requires AllLabels(ls)
    ensures |Joined(out, ls)| >= |out| && (ls != [] ==> Joined(out, ls) != "")
    decreases |ls|
  {
    if ls != [] {
      assert IsLabel(ls[0]);
      JoinedLonger((if out == "" then "" else out + ".") + Characters(ls[0]), ls[1..]);
    }
  }

  /** The labels of a name that was read up to its terminator. */
  lemma {:induction false} ReadLabels(buf: seq<Byte>, o: nat, out: string, cap: nat) returns (ls: seq<seq<Byte>>)
    requires o <= |buf| && |out| <= cap && ReadName(buf, o, out, cap).Some?
    requires ReadName(buf, o, out, cap).value.1 < |buf|
    ensures AllLabels(ls) && NameAt(buf, o, ls) && ReadName(buf, o, out, cap).value.1 == o + |EncodeName(ls)|
    ensures ls == [] ==> ReadName(buf, o, out, cap).value.0 == out
    decreases |buf| - o
  {
    hide AppendLabel;
    if buf[o] == 0 {
      ls := [];
      assert buf[o..o + 1] == [buf[o]];
    } else {
      var e := o + 1 + buf[o];
      NameTurn(buf, o, out, cap);
      var rest := ReadLabels(buf, e, AppendLabel(out, buf[o + 1..e], cap), cap);
      ls := [buf[o + 1..e]] + rest;
      LabelInFront(buf, o, rest);
    }
  }

  lemma LabelInFront(buf: seq<Byte>, o: nat, rest: seq<seq<Byte>>)
    requires o < |buf| && 0 < buf[o] < 0x40 && o + 1 + buf[o] <= |buf|
    requires AllLabels(rest) && NameAt(buf, o + 1 + buf[o], rest)
    ensures var ls := [buf[o + 1..o + 1 + buf[o]]] + rest;
      AllLabels(ls) && NameAt(buf, o, ls) && |EncodeName(ls)| == 1 + buf[o] + |EncodeName(rest)|
  {
    var e := o + 1 + buf[o];
    var ls := [buf[o + 1..e]] + rest;
    assert ls[1..] == rest;
    var last := e + |EncodeName(rest)|;
    assert buf[o..last] == [buf[o]] + buf[o + 1..e] + buf[e..last];
  }

  /** And no other packet is: compressed, overlong and unterminated names and packets without a question are refused. */
  lemma QueryAccepted(buf: seq<Byte>, cap: nat)
    requires ParseQuery(buf, cap).Some?
    ensures exists ls :: Asked(buf, ls)
  {
    hide ReadName, EncodeName;
    var ls := ReadLabels(buf, HEADER, "", cap);
    assert Asked(buf, ls);
  }
}
