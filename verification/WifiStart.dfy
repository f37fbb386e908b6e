/** What the next start finds in the store after each command, when no access fails. */
module WifiStart {
  import opened JsonTree
  import opened SsidHistory
  import opened WifiConfig

  // ---- a session touches the keys it writes and no others ----

  function At(m: map<string, Value>, key: string): Option<Value> {
    if key in m then Some(m[key]) else None
  }

  ghost predicate Elsewhere(ws: seq<Write>, key: string) {
    forall i | 0 <= i < |ws| :: ws[i].0 != key
  }

  lemma {:induction false} PutAllElsewhere(n: Nvs, ws: seq<Write>, key: string)
    requires Elsewhere(ws, key)
    ensures At(PutAll(n, ws).0.entries, key) == At(n.entries, key)
    decreases |ws|
  {
    if ws != [] {
      PutAllElsewhere(Put(n, ws[0].0, ws[0].1).0, ws[1..], key);
    }
  }

  /** Whatever fails. */
  lemma SessionElsewhere(n: Nvs, ws: seq<Write>, key: string)
    requires Elsewhere(ws, key)
    ensures At(PutSession(n, ws).0.entries, key) == At(n.entries, key)
  {
    hide Elsewhere, PutAll;
    PutAllElsewhere(OpenForWriting(n).0, ws, key);
  }

  lemma QuietSession(n: Nvs, ws: seq<Write>)
    requires n.faults == []
    ensures PutSession(n, ws) == (n.(created := true, entries := Written(n.entries, ws)), OK)
  {
    hide PutAll, Written;
    QuietPutAll(n.(created := true), ws);
  }

  /** The position of the first failing access among the next `count`, or `count` when none of them fails. */
  function FirstFault(faults: seq<bool>, count: nat): (k: nat)
    ensures k <= count && (k < count ==> k < |faults| && faults[k])
    ensures forall i | 0 <= i < k && i < |faults| :: !faults[i]
    decreases count
  {
    if count == 0 then 0
    else if faults == [] then count
    else if faults[0] then 0
    else 1 + FirstFault(faults[1..], count - 1)
  }

  /** From n, the writes ended in n' with e: at the first fault, or behind the last write. */
  ghost predicate Stopped(n: Nvs, ws: seq<Write>, n': Nvs, e: Error) {
    var k := FirstFault(n.faults, |ws|);
    && (e == OK <==> k == |ws|) && n'.entries == Written(n.entries, ws[..k]) && n'.created == n.created
    && (e == OK ==> n'.faults == FaultsAfter(n.faults, |ws|))
  }

  /** What is left of the schedule after some accesses. */
  function FaultsAfter(faults: seq<bool>, count: nat): seq<bool> {
    if |faults| < count then [] else faults[count..]
  }

  lemma {:induction false} PutAllStops(n: Nvs, ws: seq<Write>)
    ensures Stopped(n, ws, PutAll(n, ws).0, PutAll(n, ws).1)
    decreases |ws|
  {
    hide *;
    PutTurn(n, ws);
    if ws == [] {
      NoWrites(n);
    } else if Fails(n) {
      FailsFirst(n, ws);
    } else {
      var n1 := Tick(n).(entries := n.entries[ws[0].0 := ws[0].1]);
      PutAllStops(n1, ws[1..]);
      StoppedLater(n, ws, PutAll(n1, ws[1..]).0, PutAll(n1, ws[1..]).1);
    }
  }

  lemma NoWrites(n: Nvs)
    ensures Stopped(n, [], n, OK)
  {
  }

  lemma FailsFirst(n: Nvs, ws: seq<Write>)
    requires Fails(n) && ws != []
    ensures Stopped(n, ws, Tick(n), FAILED)
  {
    assert FirstFault(n.faults, |ws|) == 0 && ws[..0] == [];
  }

  lemma StoppedLater(n: Nvs, ws: seq<Write>, n': Nvs, e: Error)
    requires !Fails(n) && ws != []
    requires Stopped(Tick(n).(entries := n.entries[ws[0].0 := ws[0].1]), ws[1..], n', e)
    ensures Stopped(n, ws, n', e)
  {
    hide FirstFault, Written, FaultsAfter;
    var k := FirstFault(Tick(n).faults, |ws| - 1);
    NextFault(n, |ws|);
    OneMoreWritten(n.entries, ws, k);
    OneFaultFewer(n.faults, |ws|);
  }

  lemma PutTurn(n: Nvs, ws: seq<Write>)
    ensures ws == [] ==> PutAll(n, ws) == (n, OK)
    ensures ws != [] && Fails(n) ==> PutAll(n, ws) == (Tick(n), FAILED)
    ensures ws != [] && !Fails(n) ==>
      PutAll(n, ws) == PutAll(Tick(n).(entries := n.entries[ws[0].0 := ws[0].1]), ws[1..])
  {
  }

  lemma OneMoreWritten(m: map<string, Value>, ws: seq<Write>, k: nat)
    requires k < |ws|
    ensures Written(m, ws[..k + 1]) == Written(m[ws[0].0 := ws[0].1], ws[1..][..k])
  {
    assert ws[..k + 1][0] == ws[0] && ws[..k + 1][1..] == ws[1..][..k];
  }

  lemma OneFaultFewer(faults: seq<bool>, count: nat)
    requires count > 0
    ensures var rest := if faults == [] then faults else faults[1..];
      FaultsAfter(rest, count - 1) == FaultsAfter(faults, count)
  {
  }

  lemma NextFault(n: Nvs, count: nat)
    requires count > 0 && !Fails(n)
    ensures FirstFault(n.faults, count) == 1 + FirstFault(Tick(n).faults, count - 1)
  {
  }

  /**
   * Of the opening, the writes and the commit of a session, the first access that fails ends it: it
   * reports success exactly when none fails, and has made exactly the writes before that access.
   */
  lemma SessionStops(n: Nvs, ws: seq<Write>)
    ensures var k := FirstFault(n.faults, |ws| + 2);
      var (n', e) := PutSession(n, ws);
      && e == (if k == |ws| + 2 then OK else FAILED)
      && n'.entries == Written(n.entries, ws[..if k == 0 then 0 else if k > |ws| then |ws| else k - 1])
      && n'.created == (n.created || k > 0)
  {
    hide PutAll, Written, FirstFault, Stopped;
    if Fails(n) {
      FaultFirst(n.faults, |ws| + 2);
      NothingWritten(n.entries, ws[..0]);
    } else {
      var n1 := OpenForWriting(n).0;
      NextFault(n, |ws| + 2);
      PutAllStops(n1, ws);
      PutAllFails(n1, ws);
      CommitStops(n1, ws, PutAll(n1, ws).0, PutAll(n1, ws).1);
    }
  }

  /** The writes and the commit of a session that could be opened. */
  lemma CommitStops(n: Nvs, ws: seq<Write>, n': Nvs, e: Error)
    requires Stopped(n, ws, n', e) && (e == OK || e == FAILED)
    ensures var k := FirstFault(n.faults, |ws| + 1);
      var (n'', e') := if e != OK then (n', e) else Commit(n');
      && e' == (if k == |ws| + 1 then OK else FAILED) && n''.created == n.created
      && n''.entries == Written(n.entries, ws[..if k > |ws| then |ws| else k])
  {
    hide Written, FirstFault;
    FaultsSplit(n.faults, |ws|);
    FaultHere(n'.faults);
    var k := FirstFault(n.faults, |ws|);
    assert e == OK ==> FirstFault(n.faults, |ws| + 1) == |ws| + FirstFault(n'.faults, 1);
  }

  lemma {:induction false} PutAllFails(n: Nvs, ws: seq<Write>)
    ensures PutAll(n, ws).1 == OK || PutAll(n, ws).1 == FAILED
    decreases |ws|
  {
    if ws != [] {
      PutAllFails(Put(n, ws[0].0, ws[0].1).0, ws[1..]);
    }
  }

  lemma {:induction false} FaultsSplit(faults: seq<bool>, count: nat)
    ensures FirstFault(faults, count + 1) ==
      if FirstFault(faults, count) < count then FirstFault(faults, count)
      else count + FirstFault(FaultsAfter(faults, count), 1)
    decreases count
  {
    if count > 0 && faults != [] && !faults[0] {
      FaultsSplit(faults[1..], count - 1);
      assert |faults| >= count ==> faults[1..][count - 1..] == faults[count..];
    }
  }

  lemma FaultHere(faults: seq<bool>)
    ensures FirstFault(faults, 1) == if faults != [] && faults[0] then 0 else 1
  {
  }

  lemma FaultFirst(faults: seq<bool>, count: nat)
    requires faults != [] && faults[0] && count > 0
    ensures FirstFault(faults, count) == 0
  {
  }

  lemma NothingWritten(m: map<string, Value>, ws: seq<Write>)
    requires ws == []
    ensures Written(m, ws) == m
  {
  }

  // ---- the configuration, the flag and the history live under keys of their own ----

  ghost predicate SameConfig(m: map<string, Value>, m': map<string, Value>) {
    && At(m, STA_SSID) == At(m', STA_SSID) && At(m, STA_PASS) == At(m', STA_PASS)
    && At(m, AP_SSID) == At(m', AP_SSID) && At(m, AP_PASS) == At(m', AP_PASS)
    && At(m, AP_MAX_CONN) == At(m', AP_MAX_CONN)
  }

  ghost predicate SameFlag(m: map<string, Value>, m': map<string, Value>) {
    At(m, PROVISIONED) == At(m', PROVISIONED)
  }

  ghost predicate SameHistory(m: map<string, Value>, m': map<string, Value>) {
    At(m, HIST_COUNT) == At(m', HIST_COUNT) && forall i: nat :: At(m, HistoryKey(i)) == At(m', HistoryKey(i))
  }

  lemma SameConfigLoads(n: Nvs, n': Nvs)
    requires n.faults == [] == n'.faults && n.created && n'.created && SameConfig(n.entries, n'.entries)
    ensures StoredConfig(n.entries) == StoredConfig(n'.entries)
    ensures Load(n).1 == Load(n').1 && Load(n).2 == Load(n').2
  {
    hide Load, Valid;
    QuietLoad(n);
    QuietLoad(n');
  }

  lemma {:induction false} SameEntriesRead(n: Nvs, n': Nvs, i: nat, count: nat)
    requires n.faults == [] == n'.faults && SameHistory(n.entries, n'.entries) && i <= count
    ensures ReadEntries(n, i, count).1 == ReadEntries(n', i, count).1
    decreases count - i
  {
    hide HistoryKey;
    if i < count {
      SameEntriesRead(n, n', i + 1, count);
      assert At(n.entries, HistoryKey(i)) == At(n'.entries, HistoryKey(i));
    }
  }

  lemma SameHistoryLoads(n: Nvs, n': Nvs)
    requires n.faults == [] == n'.faults && n.created && n'.created && SameHistory(n.entries, n'.entries)
    ensures LoadHistory(n).1 == LoadHistory(n').1
  {
    hide ReadEntries, HistoryKey;
    var count := ByteAt(n.entries, HIST_COUNT);
    assert ByteAt(n'.entries, HIST_COUNT) == count;
    if count.Some? && count.value <= MAX_SSID_HISTORY {
      SameEntriesRead(n, n', 0, count.value);
    }
  }

  lemma ConfigWritesElsewhere(c: Config, i: nat)
    ensures Elsewhere(ConfigWrites(c), PROVISIONED) && Elsewhere(ConfigWrites(c), HIST_COUNT)
    ensures Elsewhere(ConfigWrites(c), HistoryKey(i))
  {
    KeysApart();
    assert HistoryKey(i)[0] == 'h';
  }

  lemma SaveLeaves(n: Nvs, c: Config)
    ensures SameFlag(n.entries, Save(n, c).0.entries) && SameHistory(n.entries, Save(n, c).0.entries)
  {
    hide Elsewhere, PutSession, HistoryKey, ConfigWrites, At;
    if Valid(c) {
      ConfigWritesElsewhere(c, 0);
      SessionElsewhere(n, ConfigWrites(c), PROVISIONED);
      SessionElsewhere(n, ConfigWrites(c), HIST_COUNT);
      forall i: nat ensures At(n.entries, HistoryKey(i)) == At(Save(n, c).0.entries, HistoryKey(i)) {
        ConfigWritesElsewhere(c, i);
        SessionElsewhere(n, ConfigWrites(c), HistoryKey(i));
      }
    }
  }

  lemma HistoryWritesElsewhere(h: seq<string>)
    ensures Elsewhere(HistoryWrites(h), STA_SSID) && Elsewhere(HistoryWrites(h), STA_PASS)
    ensures Elsewhere(HistoryWrites(h), AP_SSID) && Elsewhere(HistoryWrites(h), AP_PASS)
    ensures Elsewhere(HistoryWrites(h), AP_MAX_CONN) && Elsewhere(HistoryWrites(h), PROVISIONED)
  {
    var ws := HistoryWrites(h);
    KeysApart();
    forall i | 0 <= i < |ws| ensures ws[i].0[0] == 'h' {
      assert i > 0 ==> ws[i].0 == HistoryKey(i - 1);
    }
  }

  /** Adding a name leaves the configuration and the flag alone, wherever it stops. */
  lemma AddLeaves(n: Nvs, s: string)
    ensures SameConfig(n.entries, AddSsid(n, s).0.entries) && SameFlag(n.entries, AddSsid(n, s).0.entries)
  {
    hide Elsewhere, PutSession, LoadHistory, HistoryWrites, Remember, At;
    if s != "" {
      var (n1, h) := LoadHistory(n);
      LoadHistoryReads(n);
      var ws := HistoryWrites(Remember(h, s));
      HistoryWritesElsewhere(Remember(h, s));
      SessionElsewhere(n1, ws, STA_SSID);
      SessionElsewhere(n1, ws, STA_PASS);
      SessionElsewhere(n1, ws, AP_SSID);
      SessionElsewhere(n1, ws, AP_PASS);
      SessionElsewhere(n1, ws, AP_MAX_CONN);
      SessionElsewhere(n1, ws, PROVISIONED);
    }
  }

  function FlagWrites(on: bool): seq<Write> { [(PROVISIONED, U8(if on then 1 else 0))] }

  lemma FlagElsewhere(on: bool, i: nat)
    ensures Elsewhere(FlagWrites(on), STA_SSID) && Elsewhere(FlagWrites(on), STA_PASS)
    ensures Elsewhere(FlagWrites(on), AP_SSID) && Elsewhere(FlagWrites(on), AP_PASS)
    ensures Elsewhere(FlagWrites(on), AP_MAX_CONN) && Elsewhere(FlagWrites(on), HIST_COUNT)
    ensures Elsewhere(FlagWrites(on), HistoryKey(i))
  {
    KeysApart();
    assert HistoryKey(i)[0] == 'h';
  }

  /** Setting or clearing the flag leaves the rest alone, wherever it stops. */
  lemma FlagLeaves(n: Nvs, on: bool)
    ensures SameConfig(n.entries, SetProvisioned(n, on).0.entries)
    ensures SameHistory(n.entries, SetProvisioned(n, on).0.entries)
  {
    hide Elsewhere, PutSession, HistoryKey, At;
    var ws := FlagWrites(on);
    FlagElsewhere(on, 0);
    SessionElsewhere(n, ws, STA_SSID);
    SessionElsewhere(n, ws, STA_PASS);
    SessionElsewhere(n, ws, AP_SSID);
    SessionElsewhere(n, ws, AP_PASS);
    SessionElsewhere(n, ws, AP_MAX_CONN);
    SessionElsewhere(n, ws, HIST_COUNT);
    forall i: nat ensures At(n.entries, HistoryKey(i)) == At(SetProvisioned(n, on).0.entries, HistoryKey(i)) {
      FlagElsewhere(on, i);
      SessionElsewhere(n, ws, HistoryKey(i));
    }
  }

  // ---- every loaded history fits ----

  lemma {:induction false} ReadEntriesFit(n: Nvs, i: nat, count: nat)
    requires i <= count
    ensures |ReadEntries(n, i, count).1| == count - i
    ensures forall k | 0 <= k < count - i :: |ReadEntries(n, i, count).1[k]| <= MAX_SSID_LEN
    decreases count - i
  {
    if i < count {
      ReadEntriesFit(GetString(n, HistoryKey(i), MAX_SSID_LEN).0, i + 1, count);
    }
  }

  lemma LoadedFits(n: Nvs)
    ensures Fits(LoadHistory(n).1)
  {
    var n2 := GetByte(OpenForReading(n).0, HIST_COUNT);
    if n2.1.Some? && n2.1.value <= MAX_SSID_HISTORY {
      ReadEntriesFit(n2.0, 0, n2.1.value);
    }
  }

  // ---- the flag ----

  /** The flag reads as it was written, and the configuration and the history as before. */
  lemma MarkedStarts(n: Nvs, on: bool)
    requires n.faults == []
    ensures var (n', e) := SetProvisioned(n, on);
      && e == OK && n'.faults == [] && n'.created && HasCredentials(n') == (n', on)
      && (n.created ==> Load(n').1 == Load(n).1 && Load(n').2 == Load(n).2 && LoadHistory(n').1 == LoadHistory(n).1)
  {
    var (n', e) := SetProvisioned(n, on);
    assert e == OK && n' == n.(created := true, entries := n.entries[PROVISIONED := U8(if on then 1 else 0)]) by {
      QuietSession(n, FlagWrites(on));
      assert FlagWrites(on)[1..] == [];
    }
    FlagLeaves(n, on);
    hide Load, LoadHistory, SameConfig, SameHistory, SetProvisioned;
    if n.created {
      SameConfigLoads(n, n');
      SameHistoryLoads(n, n');
    }
  }

  // ---- saving from the web page ----

  /** The limits of the form, in characters and stations. */
  predicate WithinLimits(c: Config) {
    && 1 <= |c.staSsid| <= 32 && |c.staPassword| <= 64 && 1 <= |c.apSsid| <= 32
    && (c.apPassword == "" || 8 <= |c.apPassword| <= 64) && 1 <= c.apMaxConnections <= 10
  }

  lemma QuietSave(n: Nvs, c: Config)
    requires n.faults == [] && Valid(c)
    ensures var (n', e) := Save(n, c);
      && e == OK && n'.faults == [] && n'.created && StoredConfig(n'.entries) == Some(c)
      && (n.created || n.entries == map[] ==> LoadHistory(n').1 == LoadHistory(n).1)
  {
    var (n', e) := Save(n, c);
    assert e == OK && n'.faults == [] && n'.created by {
      QuietSession(n, ConfigWrites(c));
    }
    hide Save, StoredConfig, LoadHistory, SameHistory, SameFlag;
    SavedIsStored(n, c);
    SaveLeaves(n, c);
    if n.created {
      SameHistoryLoads(n, n');
    } else if n.entries == map[] {
      NoHistory(n);
      NoHistory(n.(created := true));
      SameHistoryLoads(n.(created := true), n');
    }
  }

  lemma SavedWithin(n: Nvs, c: Config)
    requires n.faults == []
    ensures Save(n, c).1 == OK <==> WithinLimits(c)
  {
    if WithinLimits(c) {
      assert Valid(c);
      hide Save;
      QuietSave(n, c);
    }
  }

  lemma NoHistory(n: Nvs)
    requires n.faults == [] && n.entries == map[]
    ensures LoadHistory(n).1 == []
  {
  }

  /**
   * Without faults the save handler takes exactly the configurations within the limits. The next start
   * then finds credentials, loads that configuration, and has its network first in the history.
   */
  lemma ConfiguredStarts(n: Nvs, c: Config)
    requires n.faults == []
    ensures var n' := HandleConfigure(n, c);
      if WithinLimits(c) then
        && HasCredentials(n') == (n', true) && Load(n') == (n', c, OK)
        && |LoadHistory(n').1| > 0 && LoadHistory(n').1[0] == c.staSsid
        && (n.created || n.entries == map[] ==> LoadHistory(n').1 == Remember(LoadHistory(n).1, c.staSsid))
      else n' == n
  {
    if WithinLimits(c) {
      assert Valid(c);
      QuietSave(n, c);
      hide Save, Valid, WithinLimits;
      SavedStarts(n, Save(n, c).0, c);
    }
  }

  lemma SavedStarts(n: Nvs, n1: Nvs, c: Config)
    requires Save(n, c) == (n1, OK) && Valid(c) && n1.faults == [] && n1.created
    requires StoredConfig(n1.entries) == Some(c)
    ensures var n' := HandleConfigure(n, c);
      && HasCredentials(n') == (n', true) && Load(n') == (n', c, OK)
      && |LoadHistory(n').1| > 0 && LoadHistory(n').1[0] == c.staSsid
      && LoadHistory(n').1 == Remember(LoadHistory(n1).1, c.staSsid)
  {
    assert 0 < |c.staSsid| <= MAX_SSID_LEN;
    hide Save, StoredConfig, AddSsid, LoadHistory, HasCredentials, SetProvisioned, SameConfig, SameFlag, SameHistory,
      Fits, Valid, Load;
    LoadedFits(n1);
    AddedIsLoaded(n1, c.staSsid);
    AddLeaves(n1, c.staSsid);
    var n2 := AddSsid(n1, c.staSsid).0;
    AddOpens(n1, c.staSsid);
    SameConfigLoads(n1, n2);
    MarkedStarts(n2, true);
    QuietLoad(n1);
    LoadTwice(SetProvisioned(n2, true).0);
  }

  lemma AddOpens(n: Nvs, s: string)
    requires n.faults == [] && n.created
    ensures AddSsid(n, s).0.created
  {
    hide LoadHistory, HistoryWrites, PutSession;
    LoadHistoryQuiet(n);
    QuietSession(n, HistoryWrites(Remember(LoadHistory(n).1, s)));
  }

  lemma LoadTwice(n: Nvs)
    requires n.faults == []
    ensures Load(n).0 == n
  {
  }

  // ---- erasing, resetting, following new defaults ----

  /** After an erase the next start finds nothing and falls back to the built-in configuration. */
  lemma ErasedStarts(n: Nvs)
    requires n.faults == []
    ensures var (n', e) := Erase(n);
      && e == OK && n' == Nvs(map[], true, []) && !HasCredentials(n').1 && LoadHistory(n').1 == []
      && Load(n').1 == DEFAULTS && Load(n').2 == NOT_FOUND
  {
  }

  /** After a reset it loads the defaults as a stored configuration, but finds no credentials and no history. */
  lemma ResetStarts(n: Nvs)
    requires n.faults == []
    ensures var (n', e) := ResetToDefaults(n);
      && e == OK && n'.faults == [] && !HasCredentials(n').1 && LoadHistory(n').1 == []
      && Load(n') == (n', DEFAULTS, OK)
  {
    ErasedStarts(n);
    var n1 := Erase(n).0;
    var n' := Save(n1, DEFAULTS).0;
    assert Valid(DEFAULTS);
    hide Erase, Save, LoadHistory, Load, StoredConfig, SameHistory, Valid, DEFAULTS;
    QuietSave(n1, DEFAULTS);
    SaveLeaves(n1, DEFAULTS);
    QuietLoad(n');
  }

  /** A stored network other than the built-in one is given up at the next start; anything else is left as it is. */
  lemma SyncedStarts(n: Nvs)
    requires n.faults == [] && n.created
    ensures var (n', e) := SyncDefaults(n);
      && e == OK
      && (if HasConfig(n.entries) && StoredConfig(n.entries).value.staSsid != "Router1"
          then Load(n') == (n', DEFAULTS, OK) && !HasCredentials(n').1 && LoadHistory(n').1 == []
          else n' == n)
  {
    assert DEFAULTS.staSsid == "Router1";
    QuietLoad(n);
    LoadTwice(n);
    ResetStarts(n);
    hide Load, ResetToDefaults, StoredConfig, LoadHistory, HasCredentials, Valid, DEFAULTS;
  }

  // ---- the dashboard's credentials ----

  /** They are stored as given, next to everything else. */
  lemma AuthStarts(n: Nvs, user: string, password: string)
    requires n.faults == []
    ensures var n' := Perform(n, SaveAuth(user, password));
      && At(n'.entries, "dash_user") == Some(Str(user)) && At(n'.entries, "dash_pass") == Some(Str(password))
      && forall key | key != "dash_user" && key != "dash_pass" :: At(n'.entries, key) == At(n.entries, key)
  {
    var ws := [("dash_user", Str(user)), ("dash_pass", Str(password))];
    QuietSession(n, ws);
    var m := n.entries["dash_user" := Str(user)];
    assert Written(n.entries, ws) == Written(m, ws[1..]);
    assert Written(m, ws[1..]) == m["dash_pass" := Str(password)] by {
      assert ws[1..][1..] == [];
    }
    assert "dash_user"[5] == 'u' && "dash_pass"[5] == 'p';
  }
}
