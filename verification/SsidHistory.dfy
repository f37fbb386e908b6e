/** The SSID history over whole runs: the five most recent distinct names since the last erase. */
module SsidHistory {
  import opened Text
  import opened JsonTree
  import opened WifiConfig

  // ---- what the history should be ----

  /** Distinct names, the most recently added first. */
  function Recent(adds: seq<string>): seq<string>
    decreases |adds|
  {
    if adds == [] then []
    else [adds[|adds| - 1]] + Without(Recent(adds[..|adds| - 1]), adds[|adds| - 1])
  }

  /** The position of the last time a name was added. */
  function LastAdd(adds: seq<string>, s: string): (i: nat)
    requires s in adds
    ensures i < |adds| && adds[i] == s && forall j | i < j < |adds| :: adds[j] != s
    decreases |adds|
  {
    if adds[|adds| - 1] == s then |adds| - 1 else LastAdd(adds[..|adds| - 1], s)
  }

  ghost predicate NoRepeats(h: seq<string>) {
    forall i, j | 0 <= i < j < |h| :: h[i] != h[j]
  }

  /** Every name of h was added, and each was last added after the ones behind it. */
  ghost predicate MostRecentFirst(h: seq<string>, adds: seq<string>) {
    && (forall i | 0 <= i < |h| :: h[i] in adds)
    && forall i, j | 0 <= i < j < |h| :: LastAdd(adds, h[i]) > LastAdd(adds, h[j])
  }

  lemma {:induction false} WithoutKeepsOrder(h: seq<string>, s: string, adds: seq<string>)
    requires MostRecentFirst(h, adds)
    ensures MostRecentFirst(Without(h, s), adds)
  {
    hide LastAdd;
    if h != [] {
      WithoutKeepsOrder(h[1..], s, adds);
      WithoutMembers(h[1..], s);
      if h[0] != s {
        var rest := Without(h[1..], s);
        forall j | 0 <= j < |rest| ensures LastAdd(adds, h[0]) > LastAdd(adds, rest[j]) {
          assert rest[j] in h[1..];
          var k :| 0 <= k < |h[1..]| && h[1..][k] == rest[j];
          assert h[k + 1] == rest[j];
        }
      }
    }
  }

  lemma LastAddPrefix(adds: seq<string>, last: string, s: string)
    requires s in adds && s != last
    ensures LastAdd(adds + [last], s) == LastAdd(adds, s)
  {
    assert (adds + [last])[..|adds|] == adds;
  }

  /** Recent is what its name says: all added names, without repeats, most recent first. */
  lemma {:induction false} RecentIsRecent(adds: seq<string>)
    ensures forall s :: s in Recent(adds) <==> s in adds
    ensures MostRecentFirst(Recent(adds), adds)
    decreases |adds|
  {
    if adds != [] {
      var init, last := adds[..|adds| - 1], adds[|adds| - 1];
      assert adds == init + [last];
      RecentIsRecent(init);
      WithoutMembers(Recent(init), last);
      WithoutKeepsOrder(Recent(init), last, init);
      hide Recent, Without, MostRecentFirst;
      OneMoreRecent(Without(Recent(init), last), init, last);
    }
  }

  lemma OneMoreRecent(rest: seq<string>, init: seq<string>, last: string)
    requires MostRecentFirst(rest, init) && last !in rest
    ensures MostRecentFirst([last] + rest, init + [last])
  {
    hide LastAdd;
    forall i | 0 <= i < |rest| ensures LastAdd(init + [last], rest[i]) == LastAdd(init, rest[i]) {
      assert rest[i] in rest;
      LastAddPrefix(init, last, rest[i]);
    }
    LastAddLast(init, last);
  }

  lemma LastAddLast(init: seq<string>, last: string)
    ensures LastAdd(init + [last], last) == |init|
  {
  }

  lemma RecentNoRepeats(adds: seq<string>)
    ensures NoRepeats(Recent(adds))
  {
    RecentIsRecent(adds);
  }

  // ---- keeping only five loses nothing of the first five ----

  lemma {:induction false} WithoutAbsent(h: seq<string>, s: string)
    requires s !in h
    ensures Without(h, s) == h
  {
    if h != [] {
      WithoutAbsent(h[1..], s);
      assert h == [h[0]] + h[1..];
    }
  }

  lemma {:induction false} TakeWithout(r: seq<string>, s: string, k: nat)
    requires NoRepeats(r)
    ensures Take(Without(Take(r, k + 1), s), k) == Take(Without(r, s), k)
    decreases |r|
  {
    if r != [] {
      var first := Take(r, k + 1);
      TakeTail(r, k);
      if r[0] == s {
        WithoutAbsent(r[1..], s);
        WithoutAbsent(first[1..], s);
      } else if k > 0 {
        TakeWithout(r[1..], s, k - 1);
        TakeCons(r[0], Without(first[1..], s), k);
        TakeCons(r[0], Without(r[1..], s), k);
      }
    }
  }

  lemma TakeTail(r: seq<string>, k: nat)
    requires r != []
    ensures Take(r, k + 1) != [] && Take(r, k + 1)[0] == r[0] && Take(r, k + 1)[1..] == Take(r[1..], k)
    ensures forall s | s in Take(r[1..], k) :: s in r[1..]
  {
  }

  lemma TakeCons(x: string, h: seq<string>, k: nat)
    requires k > 0
    ensures Take([x] + h, k) == [x] + Take(h, k - 1)
  {
  }

  lemma RememberRecent(adds: seq<string>, s: string)
    requires |s| <= MAX_SSID_LEN
    ensures Remember(Take(Recent(adds), MAX_SSID_HISTORY), s) == Take(Recent(adds + [s]), MAX_SSID_HISTORY)
  {
    RecentNoRepeats(adds);
    TakeWithout(Recent(adds), s, MAX_SSID_HISTORY - 1);
    assert (adds + [s])[..|adds|] == adds;
    TakeCons(s, Without(Recent(adds), s), MAX_SSID_HISTORY);
  }

  // ---- what is stored is what is loaded ----

  lemma {:induction false} QuietPutAll(n: Nvs, ws: seq<Write>)
    requires n.faults == []
    ensures PutAll(n, ws) == (n.(entries := Written(n.entries, ws)), OK)
    decreases |ws|
  {
    if ws != [] {
      QuietPutAll(Put(n, ws[0].0, ws[0].1).0, ws[1..]);
    }
  }

  lemma HistoryKeysApart(i: nat, j: nat)
    ensures HistoryKey(i) == HistoryKey(j) ==> i == j
    ensures HistoryKey(i) != HIST_COUNT
  {
    if HistoryKey(i) == HistoryKey(j) {
      assert HistoryKey(i)[|"hist_ssid_"|..] == Decimal(i) && HistoryKey(j)[|"hist_ssid_"|..] == Decimal(j);
      DecimalValue(i);
      DecimalValue(j);
    }
    assert HistoryKey(i)[5] == 's' && HIST_COUNT[5] == 'c';
  }

  lemma {:induction false} WrittenAt(m: map<string, Value>, ws: seq<Write>, j: nat)
    requires j < |ws| && forall i | j < i < |ws| :: ws[i].0 != ws[j].0
    ensures ws[j].0 in Written(m, ws) && Written(m, ws)[ws[j].0] == ws[j].1
    decreases |ws|
  {
    if j == 0 {
      WrittenElsewhere(m[ws[0].0 := ws[0].1], ws[1..], ws[0].0);
    } else {
      WrittenAt(m[ws[0].0 := ws[0].1], ws[1..], j - 1);
    }
  }

  lemma {:induction false} WrittenElsewhere(m: map<string, Value>, ws: seq<Write>, key: string)
    requires key in m && forall i | 0 <= i < |ws| :: ws[i].0 != key
    ensures key in Written(m, ws) && Written(m, ws)[key] == m[key]
    decreases |ws|
  {
    if ws != [] {
      WrittenElsewhere(m[ws[0].0 := ws[0].1], ws[1..], key);
    }
  }

  ghost predicate Fits(h: seq<string>) {
    |h| <= MAX_SSID_HISTORY && forall i | 0 <= i < |h| :: |h[i]| <= MAX_SSID_LEN
  }

  lemma HistoryWritten(m: map<string, Value>, h: seq<string>)
    requires Fits(h)
    ensures ByteAt(Written(m, HistoryWrites(h)), HIST_COUNT) == Some(|h|)
    ensures forall i | 0 <= i < |h| :: StringAt(Written(m, HistoryWrites(h)), HistoryKey(i), MAX_SSID_LEN) == Some(h[i])
  {
    var ws := HistoryWrites(h);
    forall i, j | 0 <= j < i < |ws| ensures ws[i].0 != ws[j].0 {
      HistoryKeysApart(i - 1, if j == 0 then 0 else j - 1);
    }
    WrittenAt(m, ws, 0);
    forall i | 0 <= i < |h| ensures StringAt(Written(m, ws), HistoryKey(i), MAX_SSID_LEN) == Some(h[i]) {
      WrittenAt(m, ws, i + 1);
      assert ws[i + 1] == (HistoryKey(i), Str(h[i]));
    }
  }

  lemma {:induction false} EntriesRead(n: Nvs, i: nat, h: seq<string>)
    requires n.faults == [] && i <= |h|
    requires forall k | 0 <= k < |h| :: StringAt(n.entries, HistoryKey(k), MAX_SSID_LEN) == Some(h[k])
    ensures ReadEntries(n, i, |h|) == (n, h[i..])
    decreases |h| - i
  {
    if i < |h| {
      EntriesRead(n, i + 1, h);
      assert h[i..] == [h[i]] + h[i + 1..];
    }
  }

  /** Adding a name to a store without faults: the next load returns the new history. */
  lemma AddedIsLoaded(n: Nvs, s: string)
    requires n.faults == [] && 0 < |s| <= MAX_SSID_LEN && Fits(LoadHistory(n).1)
    ensures var (n', e) := AddSsid(n, s);
      e == OK && n'.faults == [] && LoadHistory(n').1 == Remember(LoadHistory(n).1, s)
  {
    hide ReadEntries, Written;
    LoadHistoryReads(n);
    LoadHistoryQuiet(n);
    var past := LoadHistory(n).1;
    var h := Remember(past, s);
    WithoutMembers(past, s);
    assert Fits(h) by {
      forall i | 0 <= i < |h| ensures |h[i]| <= MAX_SSID_LEN {
        assert i > 0 ==> h[i] in Without(past, s);
      }
    }
    var n1 := OpenForWriting(LoadHistory(n).0).0;
    QuietPutAll(n1, HistoryWrites(h));
    HistoryWritten(n1.entries, h);
    EntriesRead(AddSsid(n, s).0, 0, h);
  }

  lemma {:induction false} ReadEntriesQuiet(n: Nvs, i: nat, count: nat)
    requires n.faults == [] && i <= count
    ensures ReadEntries(n, i, count).0 == n
    decreases count - i
  {
    if i < count {
      ReadEntriesQuiet(n, i + 1, count);
    }
  }

  lemma LoadHistoryQuiet(n: Nvs)
    requires n.faults == []
    ensures LoadHistory(n).0 == n
  {
    var count := GetByte(OpenForReading(n).0, HIST_COUNT).1;
    if count.Some? && count.value <= MAX_SSID_HISTORY {
      ReadEntriesQuiet(n, 0, count.value);
    }
  }

  // ---- whole runs ----

  datatype Event = Added(ssid: string) | Erased

  function RunHistory(n: Nvs, es: seq<Event>): Nvs
    decreases |es|
  {
    if es == [] then n
    else
      var before, e := RunHistory(n, es[..|es| - 1]), es[|es| - 1];
      if e.Erased? then Erase(before).0 else AddSsid(before, e.ssid).0
  }

  /** The names added since the last erase. */
  function SinceErase(es: seq<Event>): seq<string>
    decreases |es|
  {
    if es == [] || es[|es| - 1].Erased? then []
    else SinceErase(es[..|es| - 1]) + [es[|es| - 1].ssid]
  }

  predicate NamesFit(es: seq<Event>) {
    forall i | 0 <= i < |es| && es[i].Added? :: 0 < |es[i].ssid| <= MAX_SSID_LEN
  }

  lemma {:induction false} SinceEraseFits(es: seq<Event>)
    requires NamesFit(es)
    ensures forall s | s in SinceErase(es) :: |s| <= MAX_SSID_LEN
    decreases |es|
  {
    if es != [] {
      SinceEraseFits(es[..|es| - 1]);
    }
  }

  /** Over any run of adds and erases the loaded history is the five most recent distinct names since the last erase. */
  lemma {:induction false} HistoryIsRecent(n: Nvs, es: seq<Event>)
    requires n.faults == [] && n.entries == map[] && NamesFit(es)
    ensures RunHistory(n, es).faults == []
    ensures LoadHistory(RunHistory(n, es)).1 == Take(Recent(SinceErase(es)), 5)
    decreases |es|
  {
    if es != [] && es[|es| - 1].Added? {
      var init, s := es[..|es| - 1], es[|es| - 1].ssid;
      var adds := SinceErase(init);
      HistoryIsRecent(n, init);
      SinceEraseFits(init);
      RecentIsRecent(adds);
      assert Fits(Take(Recent(adds), MAX_SSID_HISTORY)) by {
        forall i | 0 <= i < |Take(Recent(adds), MAX_SSID_HISTORY)|
          ensures |Take(Recent(adds), MAX_SSID_HISTORY)[i]| <= MAX_SSID_LEN {
          assert Recent(adds)[i] in Recent(adds);
        }
      }
      AddedIsLoaded(RunHistory(n, init), s);
      RememberRecent(adds, s);
    } else if es != [] {
      HistoryIsRecent(n, es[..|es| - 1]);
    }
  }
}
