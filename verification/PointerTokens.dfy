/** Resolving any JSON Pointer, token by token, against section 4 of RFC 6901. */
module PointerTokens {
  import opened Text
  import opened JsonTree
  import opened PointerEscape
  import opened PointerLookup

  // ---- what an escaped token stands for ----

  /** Every occurrence of a tilde and a digit replaced by one character, from left to right. */
  function Replaced(s: string, digit: char, with: char): string {
    if |s| > 1 && s[0] == '~' && s[1] == digit then [with] + Replaced(s[2..], digit, with)
    else if s == "" then ""
    else [s[0]] + Replaced(s[1..], digit, with)
  }

  /** A key with only its tildes escaped. */
  function Tildes(k: string): string {
    if k == "" then "" else (if k[0] == '~' then "~0" else [k[0]]) + Tildes(k[1..])
  }

  lemma {:induction false} SlashesBack(k: string)
    ensures Replaced(Encode(k), '1', '/') == Tildes(k)
  {
    if k != "" {
      SlashesBack(k[1..]);
      var rest := Encode(k[1..]);
      ReplacedStep(EncodeChar(k[0]), rest, '1', '/');
      assert |EncodeChar(k[0])| == 1 ==> EncodeChar(k[0]) == [k[0]];
    }
  }

  lemma ReplacedStep(code: string, rest: string, digit: char, with: char)
    requires |code| == 1 || (|code| == 2 && code[0] == '~' && code[1] != '~')
    requires |code| == 1 ==> code[0] != '~'
    ensures Replaced(code + rest, digit, with)
      == (if |code| == 2 && code[1] == digit then [with] else code) + Replaced(rest, digit, with)
  {
    var s := code + rest;
    if |code| == 1 {
      assert s[1..] == rest;
    } else {
      assert s[2..] == rest && s[1..] == [code[1]] + rest;
      if code[1] != digit {
        assert s[1..][1..] == rest;
        assert [code[0]] + ([code[1]] + Replaced(rest, digit, with)) == code + Replaced(rest, digit, with);
      }
    }
  }

  lemma {:induction false} TildesBack(k: string)
    ensures Replaced(Tildes(k), '0', '~') == k
  {
    if k != "" {
      TildesBack(k[1..]);
      ReplacedStep(if k[0] == '~' then "~0" else [k[0]], Tildes(k[1..]), '0', '~');
      assert k == [k[0]] + k[1..];
    }
  }

  /** Evaluating an escaped key as section 4 of RFC 6901 says, ~1 first and then ~0, gives the key. */
  lemma EscapedEvaluates(k: string)
    ensures Replaced(Replaced(Encode(k), '1', '/'), '0', '~') == k
  {
    SlashesBack(k);
    TildesBack(k);
  }

  // ---- array indices ----

  /** Digits without a leading zero, counted modulo the range of size_t; the code takes an empty token for 0. */
  function IndexOf(k: string): Option<nat> {
    if AllDigits(k) && (|k| <= 1 || k[0] != '0') then Some(DigitsValue(k, 0) % 0x1_0000_0000) else None
  }

  lemma {:induction false} DigitsWrap(d: string, acc: nat)
    requires AllDigits(d)
    ensures DigitsValue(d, acc % 0x1_0000_0000) % 0x1_0000_0000 == DigitsValue(d, acc) % 0x1_0000_0000
    decreases |d|
  {
    var m := 0x1_0000_0000;
    if d != "" {
      var a, b := 10 * (acc % m) + DigitValue(d[0]), 10 * acc + DigitValue(d[0]);
      DigitsWrap(d[1..], a);
      DigitsWrap(d[1..], b);
      WrapStep(acc, DigitValue(d[0]));
      assert a % m == b % m;
    }
  }

  lemma WrapStep(acc: nat, v: nat)
    ensures (10 * (acc % 0x1_0000_0000) + v) % 0x1_0000_0000 == (10 * acc + v) % 0x1_0000_0000
  {
    var m := 0x1_0000_0000;
    var q, r := acc / m, acc % m;
    assert 10 * acc + v == (10 * r + v) + (10 * q) * m;
    Wrapped(10 * r + v, 10 * q);
  }

  lemma {:induction false} Wrapped(x: nat, k: nat)
    ensures (x + k * 0x1_0000_0000) % 0x1_0000_0000 == x % 0x1_0000_0000
    decreases k
  {
    if k > 0 {
      Wrapped(x, k - 1);
      assert x + k * 0x1_0000_0000 == (x + (k - 1) * 0x1_0000_0000) + 0x1_0000_0000;
    }
  }

  lemma {:induction false} ScanEncoded(k: string, rest: string, acc: nat)
    requires EndsToken(rest) && acc < SIZE_RANGE
    ensures var (index, left) := ScanIndex(Encode(k) + rest, acc);
      if AllDigits(k) then index == DigitsValue(k, acc) % 0x1_0000_0000 && left == rest else !EndsToken(left)
    decreases |k|
  {
    hide DigitsValue;
    var p := Encode(k) + rest;
    if k == "" {
      assert p == rest;
      NoDigits(acc);
    } else if IsDigit(k[0]) {
      var more := Encode(k[1..]) + rest;
      assert p == [k[0]] + more && p[1..] == more;
      var next := 10 * acc + DigitValue(k[0]);
      ScanEncoded(k[1..], rest, next % SIZE_RANGE);
      DigitsHead(k, acc);
      if AllDigits(k[1..]) {
        DigitsWrap(k[1..], next);
        assert AllDigits(k);
      } else {
        assert !AllDigits(k);
      }
    } else {
      assert p[0] == EncodeChar(k[0])[0] != '/' && !IsDigit(p[0]);
    }
  }

  lemma NoDigits(acc: nat)
    ensures AllDigits("") && DigitsValue("", acc) == acc
  {
  }

  lemma DigitsHead(k: string, acc: nat)
    requires k != "" && IsDigit(k[0])
    ensures AllDigits(k) ==>
      AllDigits(k[1..]) && DigitsValue(k, acc) == DigitsValue(k[1..], 10 * acc + DigitValue(k[0]))
    ensures AllDigits(k[1..]) ==> AllDigits(k)
  {
    assert k == [k[0]] + k[1..];
  }

  lemma DecodeEncoded(k: string, rest: string)
    requires EndsToken(rest)
    ensures DecodeIndex(Encode(k) + rest) == IndexOf(k)
  {
    hide DigitsValue, ScanIndex;
    var p := Encode(k) + rest;
    ScanEncoded(k, rest, 0);
    if k != "" && IsDigit(k[0]) {
      assert p == [k[0]] + (Encode(k[1..]) + rest);
      if |k| > 1 {
        assert p[1] == EncodeChar(k[1])[0] != '/' by {
          assert Encode(k[1..])[0] == EncodeChar(k[1..][0])[0];
        }
      } else {
        assert k[1..] == "" && Encode(k[1..]) == "" && p == [k[0]] + rest;
        assert |p| > 1 ==> p[1] == rest[0] == '/';
      }
    } else if k == "" {
      assert p == rest;
    } else {
      assert p[0] == EncodeChar(k[0])[0] != '0';
      assert !AllDigits(k);
    }
  }

  // ---- following tokens from node to node ----

  function PathOf(ks: seq<string>): string {
    if ks == [] then "" else "/" + (Encode(ks[0]) + PathOf(ks[1..]))
  }

  /** The child a token leads to: the element at an index, or the first member with that key in the case mode. */
  ghost function Child(j: Json, k: string, cs: bool): (r: Option<nat>)
    ensures r.Some? ==> r.value < |Children(j)|
  {
    match j
    case Array(items) => if IndexOf(k).Some? && IndexOf(k).value < |items| then IndexOf(k) else None
    case Object(ms) =>
      var i := First(ms, Fold(k, cs), cs);
      if i < |ms| then Some(i) else None
    case _ => None
  }

  ghost function Followed(j: Json, ks: seq<string>, cs: bool): Option<seq<nat>>
    decreases |ks|
  {
    if ks == [] then Some([])
    else
      var i := Child(j, ks[0], cs);
      if i.None? then None else Under([i.value], Followed(Children(j)[i.value], ks[1..], cs))
  }

  lemma {:induction false} MatchIsFirst(ms: seq<Member>, k: string, rest: string, cs: bool)
    requires EndsToken(rest)
    ensures MatchMember(ms, Encode(k) + rest, cs) == First(ms, Fold(k, cs), cs)
    decreases |ms|
  {
    hide Encode, Fold, ComparePointers;
    if ms != [] {
      ComparePointersEncoded(ms[0].key, k, rest, cs);
      MatchIsFirst(ms[1..], k, rest, cs);
    }
  }

  lemma StepIsChild(j: Json, k: string, rest: string, cs: bool)
    requires EndsToken(rest)
    ensures Step(j, Encode(k) + rest, cs) == Child(j, k, cs)
  {
    hide Encode, Fold, ComparePointers, DecodeIndex, IndexOf, MatchMember;
    if j.Array? {
      DecodeEncoded(k, rest);
    } else if j.Object? {
      MatchIsFirst(j.members, k, rest, cs);
    }
  }

  /**
   * For every tree and every list of tokens, escaped and joined with slashes: the code goes from node to
   * node as the tokens say, and finds nothing exactly when one of them leads nowhere.
   */
  lemma {:induction false} PathFollowed(j: Json, ks: seq<string>, cs: bool)
    ensures Resolve(j, PathOf(ks), cs) == Followed(j, ks, cs)
    decreases |ks|
  {
    hide Encode, Step, Child, Children;
    if ks != [] {
      var token, rest := Encode(ks[0]), PathOf(ks[1..]);
      StepIsChild(j, ks[0], rest, cs);
      EncodeNoSlash(ks[0]);
      SkipPlain(token, rest);
      var i := Child(j, ks[0], cs);
      if i.Some? {
        PathFollowed(Children(j)[i.value], ks[1..], cs);
        ResolveStep(j, i.value, token + rest, rest, cs);
      } else {
        NoStep(j, token + rest, cs);
      }
    }
  }

  lemma NoStep(j: Json, p: string, cs: bool)
    requires Step(j, p, cs) == None
    ensures Resolve(j, "/" + p, cs) == None
  {
    assert ("/" + p)[1..] == p;
  }

  /** A pointer that does not start with a slash leads to the whole document, the empty one and any other. */
  lemma UnrootedPointer(j: Json, p: string, cs: bool)
    requires p == "" || p[0] != '/'
    ensures Resolve(j, p, cs) == Some([]) && NodeAt(j, []) == j
  {
  }

  // ---- malformed escapes ----

  /** A tilde that neither 0 nor 1 follows. */
  ghost predicate BadEscape(token: string) {
    exists i :: 0 <= i < |token| && token[i] == '~' && !(i + 1 < |token| && token[i + 1] in {'0', '1'})
  }

  /** A token with a malformed escape matches no name. */
  lemma {:induction false} BadEscapeMatchesNothing(name: string, token: string, rest: string, cs: bool)
    requires BadEscape(token) && '/' !in token && EndsToken(rest)
    ensures !ComparePointers(name, token + rest, cs)
    decreases |token|
  {
    var i :| 0 <= i < |token| && token[i] == '~' && !(i + 1 < |token| && token[i + 1] in {'0', '1'});
    var p := token + rest;
    assert p[0] == token[0] && token[0] in token;
    if name != "" && ComparePointers(name, p, cs) {
      if token[0] == '~' {
        assert p[1] in {'0', '1'};
        assert |token| > 1;
        assert p[1] == token[1];
        assert i > 1;
        assert p[2..] == token[2..] + rest;
        assert token[2..][i - 2] == '~';
        BadEscapeMatchesNothing(name[1..], token[2..], rest, cs);
      } else {
        assert p[1..] == token[1..] + rest;
        assert token[1..][i - 1] == '~';
        BadEscapeMatchesNothing(name[1..], token[1..], rest, cs);
      }
    }
  }
}
