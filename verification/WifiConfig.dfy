/** The persistent Wi-Fi configuration: a key/value store in which any access may fail. */
module WifiConfig {
  import opened Text
  import opened JsonTree

  // ---- the key/value store ----

  datatype Value = Str(s: string) | U8(n: nat)

  /**
   * The "wifi_cfg" namespace of the flash store. It exists once it was opened for writing.
   * `faults` says of the accesses to come, in order, which ones fail; when it runs out they succeed.
   * A write takes effect at once; erasing is all or nothing.
   */
  datatype Nvs = Nvs(entries: map<string, Value>, created: bool, faults: seq<bool>)

  datatype Error = OK | INVALID_ARG | NOT_FOUND | FAILED

  function Fails(n: Nvs): bool { n.faults != [] && n.faults[0] }

  function Tick(n: Nvs): Nvs { if n.faults == [] then n else n.(faults := n.faults[1..]) }

  function OpenForWriting(n: Nvs): (Nvs, Error) {
    if Fails(n) then (Tick(n), FAILED) else (Tick(n).(created := true), OK)
  }

  function OpenForReading(n: Nvs): (Nvs, Error) {
    if !n.created then (n, NOT_FOUND) else if Fails(n) then (Tick(n), FAILED) else (Tick(n), OK)
  }

  function Put(n: Nvs, key: string, v: Value): (Nvs, Error) {
    if Fails(n) then (Tick(n), FAILED) else (Tick(n).(entries := n.entries[key := v]), OK)
  }

  function Commit(n: Nvs): (Nvs, Error) {
    (Tick(n), if Fails(n) then FAILED else OK)
  }

  function EraseAll(n: Nvs): (Nvs, Error) {
    if Fails(n) then (Tick(n), FAILED) else (Tick(n).(entries := map[]), OK)
  }

  /** nvs_get_str into a buffer for at most `max` characters. */
  function GetString(n: Nvs, key: string, max: nat): (Nvs, Option<string>) {
    (Tick(n), if Fails(n) then None else StringAt(n.entries, key, max))
  }

  function GetByte(n: Nvs, key: string): (Nvs, Option<nat>) {
    (Tick(n), if Fails(n) then None else ByteAt(n.entries, key))
  }

  function StringAt(m: map<string, Value>, key: string, max: nat): Option<string> {
    if key in m && m[key].Str? && |m[key].s| <= max then Some(m[key].s) else None
  }

  function ByteAt(m: map<string, Value>, key: string): Option<nat> {
    if key in m && m[key].U8? then Some(m[key].n) else None
  }

  // ---- configurations ----

  const MAX_SSID_LEN: nat := 32
  const MAX_PASSWORD_LEN: nat := 64

  const STA_SSID: string := "sta_ssid"
  const STA_PASS: string := "sta_pass"
  const AP_SSID: string := "ap_ssid"
  const AP_PASS: string := "ap_pass"
  const AP_MAX_CONN: string := "ap_max_conn"
  const PROVISIONED: string := "provisioned"

  datatype Config = Config(staSsid: string, staPassword: string, apSsid: string, apPassword: string,
      apMaxConnections: nat)

  const DEFAULTS: Config := Config("Router1", "12345678", "Zains_ESP_Repeater", "12345678", 4)

  /** wifi_config_validate: field by field. */
  predicate Valid(c: Config) {
    && 0 < |c.staSsid| <= MAX_SSID_LEN && |c.staPassword| <= MAX_PASSWORD_LEN
    && 0 < |c.apSsid| <= MAX_SSID_LEN
    && (|c.apPassword| == 0 || 8 <= |c.apPassword| <= MAX_PASSWORD_LEN)
    && 0 < c.apMaxConnections <= 10
  }

  type Write = (string, Value)

  /** Writes in order, stopping at the first that fails. */
  function PutAll(n: Nvs, ws: seq<Write>): (Nvs, Error)
    decreases |ws|
  {
    if ws == [] then (n, OK)
    else
      var (n', e) := Put(n, ws[0].0, ws[0].1);
      if e != OK then (n', e) else PutAll(n', ws[1..])
  }

  function ConfigWrites(c: Config): seq<Write> {
    [(STA_SSID, Str(c.staSsid)), (STA_PASS, Str(c.staPassword)), (AP_SSID, Str(c.apSsid)), (AP_PASS, Str(c.apPassword)),
     (AP_MAX_CONN, U8(c.apMaxConnections))]
  }

  /** Open, write, commit. */
  function PutSession(n: Nvs, ws: seq<Write>): (Nvs, Error) {
    var (n1, open) := OpenForWriting(n);
    if open != OK then (n1, open)
    else
      var (n2, put) := PutAll(n1, ws);
      if put != OK then (n2, put) else Commit(n2)
  }

  /** wifi_config_save */
  function Save(n: Nvs, c: Config): (Nvs, Error) {
    if !Valid(c) then (n, INVALID_ARG) else PutSession(n, ConfigWrites(c))
  }

  /** wifi_config_erase */
  function Erase(n: Nvs): (Nvs, Error) {
    var (n1, open) := OpenForWriting(n);
    if open != OK then (n1, open)
    else
      var (n2, erased) := EraseAll(n1);
      if erased != OK then (n2, erased) else Commit(n2)
  }

  /** The configuration that the entries hold, whatever its values. */
  function StoredConfig(m: map<string, Value>): Option<Config> {
    var a, b := StringAt(m, STA_SSID, MAX_SSID_LEN), StringAt(m, STA_PASS, MAX_PASSWORD_LEN);
    var c, d := StringAt(m, AP_SSID, MAX_SSID_LEN), StringAt(m, AP_PASS, MAX_PASSWORD_LEN);
    var e := ByteAt(m, AP_MAX_CONN);
    if a.None? || b.None? || c.None? || d.None? || e.None? then None
    else Some(Config(a.value, b.value, c.value, d.value, e.value))
  }

  /** wifi_config_load: the configuration handed out and the error code. */
  function Load(n: Nvs): (Nvs, Config, Error) {
    var (n0, opened0) := OpenForReading(n);
    if opened0 != OK then (n0, DEFAULTS, opened0)
    else
      var (n1, a) := GetString(n0, STA_SSID, MAX_SSID_LEN);
      var (n2, b) := GetString(n1, STA_PASS, MAX_PASSWORD_LEN);
      var (n3, c) := GetString(n2, AP_SSID, MAX_SSID_LEN);
      var (n4, d) := GetString(n3, AP_PASS, MAX_PASSWORD_LEN);
      var (n5, e) := GetByte(n4, AP_MAX_CONN);
      if a.None? || b.None? || c.None? || d.None? || e.None? then (n5, DEFAULTS, NOT_FOUND)
      else
        var config := Config(a.value, b.value, c.value, d.value, e.value);
        if Valid(config) then (n5, config, OK) else (n5, DEFAULTS, INVALID_ARG)
  }

  /** wifi_config_reset_to_defaults */
  function ResetToDefaults(n: Nvs): (Nvs, Error) {
    var (n1, erased) := Erase(n);
    if erased != OK then (n1, erased) else Save(n1, DEFAULTS)
  }

  /** wifi_config_sync_defaults */
  function SyncDefaults(n: Nvs): (Nvs, Error) {
    var (n1, config, loaded) := Load(n);
    if loaded != OK || config.staSsid == DEFAULTS.staSsid then (n1, OK) else ResetToDefaults(n1)
  }

  /** wifi_config_set_provisioned */
  function SetProvisioned(n: Nvs, provisioned: bool): (Nvs, Error) {
    PutSession(n, [(PROVISIONED, U8(if provisioned then 1 else 0))])
  }

  /** wifi_config_has_sta_credentials */
  function HasCredentials(n: Nvs): (Nvs, bool) {
    var (n1, open) := OpenForReading(n);
    if open != OK then (n1, false)
    else
      var (n2, flag) := GetByte(n1, PROVISIONED);
      (n2, flag == Some(1))
  }

  // ---- SSID history ----

  const MAX_SSID_HISTORY: nat := 5
  const HIST_COUNT: string := "hist_count"

  function HistoryKey(i: nat): string { "hist_ssid_" + Decimal(i) }

  function Without(h: seq<string>, s: string): seq<string> {
    if h == [] then [] else (if h[0] == s then [] else [h[0]]) + Without(h[1..], s)
  }

  function Take<T>(h: seq<T>, n: nat): seq<T> { if |h| > n then h[..n] else h }

  /** The history with a name put in front, without its older occurrence, at most five names long. */
  function Remember(h: seq<string>, s: string): seq<string> {
    [Take(s, MAX_SSID_LEN)] + Take(Without(h, s), MAX_SSID_HISTORY - 1)
  }

  /** The entries from i on; an unreadable one is left empty. */
  function ReadEntries(n: Nvs, i: nat, count: nat): (Nvs, seq<string>)
    requires i <= count
    decreases count - i
  {
    if i == count then (n, [])
    else
      var (n1, s) := GetString(n, HistoryKey(i), MAX_SSID_LEN);
      var (n2, rest) := ReadEntries(n1, i + 1, count);
      (n2, [if s.Some? then s.value else ""] + rest)
  }

  /** wifi_config_load_ssid_history */
  function LoadHistory(n: Nvs): (Nvs, seq<string>) {
    var (n1, open) := OpenForReading(n);
    if open != OK then (n1, [])
    else
      var (n2, count) := GetByte(n1, HIST_COUNT);
      if count.None? || count.value > MAX_SSID_HISTORY then (n2, []) else ReadEntries(n2, 0, count.value)
  }

  function HistoryWrites(h: seq<string>): seq<Write> {
    [(HIST_COUNT, U8(|h|))] + seq(|h|, i requires 0 <= i < |h| => (HistoryKey(i), Str(h[i])))
  }

  /** wifi_config_add_ssid_to_history */
  function AddSsid(n: Nvs, ssid: string): (Nvs, Error) {
    if ssid == "" then (n, INVALID_ARG)
    else
      var (n1, h) := LoadHistory(n);
      PutSession(n1, HistoryWrites(Remember(h, ssid)))
  }

  /** The first loop of wifi_config_add_ssid_to_history: the older names, without the new one. */
  method Dedupe(ssids: array<string>, count: nat, ssid: string, temp: array<string>) returns (newCount: nat)
    requires count <= ssids.Length == temp.Length && temp != ssids
    requires forall i | 0 <= i < count :: |ssids[i]| <= MAX_SSID_LEN
    modifies temp
    ensures newCount <= count && temp[..newCount] == Without(ssids[..count], ssid)
  {
    hide Without;
    ghost var all := ssids[..count];
    newCount := 0;
    for i := 0 to count
      invariant newCount <= i && all == ssids[..count]
      invariant temp[..newCount] + Without(all[i..], ssid) == Without(all, ssid)
    {
      ghost var before := temp[..newCount];
      DedupeTurn(before, all, i, ssid);
      if ssids[i] != ssid {
        temp[newCount] := Take(ssids[i], MAX_SSID_LEN);
        newCount := newCount + 1;
        assert temp[..newCount] == before + [all[i]];
      }
    }
    DedupeEnd(temp[..newCount], all, ssid);
  }

  lemma DedupeTurn(kept: seq<string>, all: seq<string>, i: nat, ssid: string)
    requires i < |all|
    ensures kept + Without(all[i..], ssid)
      == (if all[i] == ssid then kept else kept + [all[i]]) + Without(all[i + 1..], ssid)
  {
    assert all[i..][1..] == all[i + 1..];
  }

  lemma DedupeEnd(kept: seq<string>, all: seq<string>, ssid: string)
    ensures kept + Without(all[|all|..], ssid) == kept
  {
  }

  /** The shift loop: at most four older names move down behind the new one. */
  method Shift(ssids: array<string>, temp: array<string>, newCount: nat, ssid: string) returns (count: nat)
    requires ssids.Length == MAX_SSID_HISTORY == temp.Length && temp != ssids && newCount <= temp.Length
    requires forall i | 0 <= i < newCount :: |temp[i]| <= MAX_SSID_LEN
    modifies ssids
    ensures count <= MAX_SSID_HISTORY
    ensures ssids[..count] == [Take(ssid, MAX_SSID_LEN)] + Take(temp[..newCount], MAX_SSID_HISTORY - 1)
  {
    var maxOld := if newCount < MAX_SSID_HISTORY - 1 then newCount else MAX_SSID_HISTORY - 1;
    var i: int := maxOld - 1;
    while i >= 0
      invariant -1 <= i < maxOld
      invariant forall k | i < k < maxOld :: ssids[k + 1] == temp[k]
      decreases i + 1
    {
      ssids[i + 1] := Take(temp[i], MAX_SSID_LEN);
      i := i - 1;
    }
    ssids[0] := Take(ssid, MAX_SSID_LEN);
    count := maxOld + 1;
    assert ssids[1..count] == temp[..maxOld];
    assert ssids[..count] == [ssids[0]] + ssids[1..count];
  }

  /** The history in its five-name array, brought up to date. */
  method UpdateHistory(ssids: array<string>, count: nat, ssid: string) returns (newCount: nat)
    requires ssids.Length == MAX_SSID_HISTORY && count <= MAX_SSID_HISTORY
    requires forall i | 0 <= i < count :: |ssids[i]| <= MAX_SSID_LEN
    modifies ssids
    ensures newCount <= MAX_SSID_HISTORY && ssids[..newCount] == Remember(old(ssids[..count]), ssid)
  {
    var temp := new string[MAX_SSID_HISTORY];
    var kept := Dedupe(ssids, count, ssid, temp);
    WithoutMembers(ssids[..count], ssid);
    assert forall k | 0 <= k < kept :: temp[k] == temp[..kept][k] && temp[..kept][k] in ssids[..count];
    newCount := Shift(ssids, temp, kept, ssid);
  }

  lemma {:induction false} WithoutMembers(h: seq<string>, s: string)
    ensures forall x | x in Without(h, s) :: x in h && x != s
    ensures forall x | x in h && x != s :: x in Without(h, s)
    ensures |Without(h, s)| <= |h|
  {
    if h != [] {
      WithoutMembers(h[1..], s);
      assert h == [h[0]] + h[1..];
    }
  }

  // ---- commands ----

  datatype Command =
    | Configure(config: Config)
    | Reset
    | Sync
    | EraseConfig
    | Add(ssid: string)
    | SaveAuth(user: string, password: string)
    | Unprovision

  /** The save handler of the web server: the flag is set only after a successful save. */
  function HandleConfigure(n: Nvs, c: Config): Nvs {
    var (n1, saved) := Save(n, c);
    if saved != OK then n1 else SetProvisioned(AddSsid(n1, c.staSsid).0, true).0
  }

  function Perform(n: Nvs, cmd: Command): Nvs {
    match cmd
    case Configure(c) => HandleConfigure(n, c)
    case Reset => ResetToDefaults(n).0
    case Sync => SyncDefaults(n).0
    case EraseConfig => Erase(n).0
    case Add(s) => AddSsid(n, s).0
    case SaveAuth(u, p) => PutSession(n, [("dash_user", Str(u)), ("dash_pass", Str(p))]).0
    case Unprovision => SetProvisioned(n, false).0
  }

  function PerformAll(n: Nvs, cmds: seq<Command>): Nvs
    decreases |cmds|
  {
    if cmds == [] then n else PerformAll(Perform(n, cmds[0]), cmds[1..])
  }

  // ---- a provisioned store holds a complete valid configuration ----

  predicate HasConfig(m: map<string, Value>) {
    StoredConfig(m).Some? && Valid(StoredConfig(m).value)
  }

  predicate Inv(m: map<string, Value>) {
    ByteAt(m, PROVISIONED) == Some(1) ==> HasConfig(m)
  }

  /** A write of a valid field, or of another key, and not of a set flag. */
  predicate SafeWrite(w: Write) {
    if w.0 == STA_SSID || w.0 == AP_SSID then w.1.Str? && 0 < |w.1.s| <= MAX_SSID_LEN
    else if w.0 == STA_PASS then w.1.Str? && |w.1.s| <= MAX_PASSWORD_LEN
    else if w.0 == AP_PASS then w.1.Str? && (|w.1.s| == 0 || 8 <= |w.1.s| <= MAX_PASSWORD_LEN)
    else if w.0 == AP_MAX_CONN then w.1.U8? && 0 < w.1.n <= 10
    else if w.0 == PROVISIONED then w.1 != U8(1)
    else true
  }

  /** Validity is field by field: one valid field more keeps a valid configuration valid. */
  lemma SafePut(m: map<string, Value>, w: Write)
    requires SafeWrite(w)
    ensures HasConfig(m) ==> HasConfig(m[w.0 := w.1])
    ensures Inv(m) ==> Inv(m[w.0 := w.1])
  {
  }

  lemma {:induction false} PutAllKeeps(n: Nvs, ws: seq<Write>)
    requires forall i | 0 <= i < |ws| :: SafeWrite(ws[i])
    ensures HasConfig(n.entries) ==> HasConfig(PutAll(n, ws).0.entries)
    ensures Inv(n.entries) ==> Inv(PutAll(n, ws).0.entries)
    decreases |ws|
  {
    hide HasConfig, Inv, SafeWrite;
    if ws != [] {
      SafePut(n.entries, ws[0]);
      PutAllKeeps(Put(n, ws[0].0, ws[0].1).0, ws[1..]);
    }
  }

  /** A session of safe writes, wherever it stops. */
  lemma SessionKeeps(n: Nvs, ws: seq<Write>)
    requires forall i | 0 <= i < |ws| :: SafeWrite(ws[i])
    ensures HasConfig(n.entries) ==> HasConfig(PutSession(n, ws).0.entries)
    ensures Inv(n.entries) ==> Inv(PutSession(n, ws).0.entries)
  {
    hide HasConfig, Inv, SafeWrite;
    var (n1, open) := OpenForWriting(n);
    PutAllKeeps(n1, ws);
  }

  lemma ConfigWritesSafe(c: Config)
    requires Valid(c)
    ensures forall i | 0 <= i < |ConfigWrites(c)| :: SafeWrite(ConfigWrites(c)[i])
  {
  }

  lemma KeysApart()
    ensures HIST_COUNT != STA_SSID && HIST_COUNT != STA_PASS && HIST_COUNT != AP_SSID && HIST_COUNT != AP_PASS
    ensures HIST_COUNT != AP_MAX_CONN && HIST_COUNT != PROVISIONED
    ensures forall i: nat :: HistoryKey(i)[0] == 'h'
    ensures STA_SSID[0] == STA_PASS[0] == 's'
    ensures AP_SSID[0] == AP_PASS[0] == AP_MAX_CONN[0] == 'a' && PROVISIONED[0] == 'p'
  {
    assert HIST_COUNT[0] == 'h' && STA_SSID[0] == 's' && STA_PASS[0] == 's';
    assert AP_SSID[0] == 'a' && PROVISIONED[0] == 'p';
  }

  lemma HistoryWritesSafe(h: seq<string>)
    ensures forall i | 0 <= i < |HistoryWrites(h)| :: SafeWrite(HistoryWrites(h)[i])
  {
    KeysApart();
    forall i | 0 <= i < |HistoryWrites(h)| ensures SafeWrite(HistoryWrites(h)[i]) {
      if i > 0 {
        assert HistoryWrites(h)[i].0 == HistoryKey(i - 1) && HistoryKey(i - 1)[0] == 'h';
      }
    }
  }

  /** The entries after all of the writes. */
  function Written(m: map<string, Value>, ws: seq<Write>): map<string, Value>
    decreases |ws|
  {
    if ws == [] then m else Written(m[ws[0].0 := ws[0].1], ws[1..])
  }

  lemma {:induction false} PutAllWrites(n: Nvs, ws: seq<Write>)
    requires PutAll(n, ws).1 == OK
    ensures PutAll(n, ws).0.entries == Written(n.entries, ws) && PutAll(n, ws).0.created == n.created
    decreases |ws|
  {
    if ws != [] {
      PutAllWrites(Put(n, ws[0].0, ws[0].1).0, ws[1..]);
    }
  }

  lemma ConfigWritten(m: map<string, Value>, c: Config)
    requires Valid(c)
    ensures StoredConfig(Written(m, ConfigWrites(c))) == Some(c)
  {
    var ws := ConfigWrites(c);
    var m1 := m[STA_SSID := Str(c.staSsid)];
    var m2 := m1[STA_PASS := Str(c.staPassword)];
    var m3 := m2[AP_SSID := Str(c.apSsid)];
    var m4 := m3[AP_PASS := Str(c.apPassword)];
    var m5 := m4[AP_MAX_CONN := U8(c.apMaxConnections)];
    assert Written(m, ws) == Written(m1, ws[1..]);
    assert Written(m1, ws[1..]) == Written(m2, ws[2..]) by { assert ws[1..][1..] == ws[2..]; }
    assert Written(m2, ws[2..]) == Written(m3, ws[3..]) by { assert ws[2..][1..] == ws[3..]; }
    assert Written(m3, ws[3..]) == Written(m4, ws[4..]) by { assert ws[3..][1..] == ws[4..]; }
    assert Written(m4, ws[4..]) == m5 by { assert ws[4..][1..] == []; }
  }

  /** After a successful save the store holds exactly that configuration. */
  lemma SavedIsStored(n: Nvs, c: Config)
    requires Save(n, c).1 == OK
    ensures Valid(c) && StoredConfig(Save(n, c).0.entries) == Some(c)
  {
    var n1 := OpenForWriting(n).0;
    PutAllWrites(n1, ConfigWrites(c));
    ConfigWritten(n1.entries, c);
  }

  lemma SaveKeeps(n: Nvs, c: Config)
    requires Inv(n.entries)
    ensures Inv(Save(n, c).0.entries)
  {
    if Valid(c) {
      ConfigWritesSafe(c);
      SessionKeeps(n, ConfigWrites(c));
    }
  }

  lemma EraseKeeps(n: Nvs)
    requires Inv(n.entries)
    ensures Inv(Erase(n).0.entries)
  {
  }

  lemma ResetKeeps(n: Nvs)
    requires Inv(n.entries)
    ensures Inv(ResetToDefaults(n).0.entries)
  {
    hide Erase, Save, Inv;
    EraseKeeps(n);
    SaveKeeps(Erase(n).0, DEFAULTS);
  }

  lemma LoadReads(n: Nvs)
    ensures Load(n).0.entries == n.entries && Load(n).0.created == n.created
  {
    hide StringAt, ByteAt, Valid, Fails;
  }

  lemma {:induction false} ReadEntriesReads(n: Nvs, i: nat, count: nat)
    requires i <= count
    ensures ReadEntries(n, i, count).0.entries == n.entries && ReadEntries(n, i, count).0.created == n.created
    decreases count - i
  {
    if i < count {
      ReadEntriesReads(GetString(n, HistoryKey(i), MAX_SSID_LEN).0, i + 1, count);
    }
  }

  lemma LoadHistoryReads(n: Nvs)
    ensures LoadHistory(n).0.entries == n.entries && LoadHistory(n).0.created == n.created
  {
    var n2 := GetByte(OpenForReading(n).0, HIST_COUNT);
    if n2.1.Some? && n2.1.value <= MAX_SSID_HISTORY {
      ReadEntriesReads(n2.0, 0, n2.1.value);
    }
  }

  lemma AddKeeps(n: Nvs, s: string)
    ensures HasConfig(n.entries) ==> HasConfig(AddSsid(n, s).0.entries)
    ensures Inv(n.entries) ==> Inv(AddSsid(n, s).0.entries)
  {
    hide LoadHistory, PutSession, HasConfig, Inv;
    LoadHistoryReads(n);
    var h := Remember(LoadHistory(n).1, s);
    HistoryWritesSafe(h);
    SessionKeeps(LoadHistory(n).0, HistoryWrites(h));
  }

  lemma FlagPut(m: map<string, Value>)
    requires HasConfig(m)
    ensures HasConfig(m[PROVISIONED := U8(1)])
  {
    KeysApart();
  }

  /** Setting the flag is safe once a complete valid configuration is there, whatever fails. */
  lemma FlagKeeps(n: Nvs, on: bool)
    requires on ==> HasConfig(n.entries)
    ensures Inv(n.entries) ==> Inv(SetProvisioned(n, on).0.entries)
  {
    hide HasConfig;
    var ws := [(PROVISIONED, U8(if on then 1 else 0))];
    if on {
      FlagPut(n.entries);
      var n1 := OpenForWriting(n).0;
      assert PutAll(n1, ws) == Put(n1, PROVISIONED, U8(1)) by {
        assert ws[1..] == [];
      }
    } else {
      SessionKeeps(n, ws);
    }
  }

  lemma ConfigureKeeps(n: Nvs, c: Config)
    requires Inv(n.entries)
    ensures Inv(HandleConfigure(n, c).entries)
  {
    hide Save, AddSsid, SetProvisioned, Inv;
    SaveKeeps(n, c);
    var (n1, saved) := Save(n, c);
    if saved == OK {
      SavedIsStored(n, c);
      AddKeeps(n1, c.staSsid);
      FlagKeeps(AddSsid(n1, c.staSsid).0, true);
    }
  }

  lemma PerformKeeps(n: Nvs, cmd: Command)
    requires Inv(n.entries)
    ensures Inv(Perform(n, cmd).entries)
  {
    hide HandleConfigure, ResetToDefaults, Load, Erase, AddSsid, PutSession, Inv, HasConfig;
    match cmd
    case Configure(c) => ConfigureKeeps(n, c);
    case Reset => ResetKeeps(n);
    case Sync =>
      LoadReads(n);
      ResetKeeps(Load(n).0);
    case EraseConfig => EraseKeeps(n);
    case Add(s) => AddKeeps(n, s);
    case SaveAuth(u, p) => AuthKeeps(n, u, p);
    case Unprovision => FlagKeeps(n, false);
  }

  lemma AuthKeeps(n: Nvs, u: string, p: string)
    requires Inv(n.entries)
    ensures Inv(PutSession(n, [("dash_user", Str(u)), ("dash_pass", Str(p))]).0.entries)
  {
    var ws := [("dash_user", Str(u)), ("dash_pass", Str(p))];
    KeysApart();
    assert "dash_user"[0] == 'd' && "dash_pass"[0] == 'd';
    SessionKeeps(n, ws);
  }

  /** In every reachable state, with any accesses failing, a set flag means a complete valid configuration. */
  lemma {:induction false} ReachableProvisioned(n: Nvs, cmds: seq<Command>)
    requires Inv(n.entries)
    ensures Inv(PerformAll(n, cmds).entries)
    decreases |cmds|
  {
    hide Inv, Perform;
    if cmds != [] {
      PerformKeeps(n, cmds[0]);
      ReachableProvisioned(Perform(n, cmds[0]), cmds[1..]);
    }
  }

  // ---- what the next start reads ----

  /** Without faults, loading hands out the stored configuration when it is complete and valid, else the defaults. */
  lemma QuietLoad(n: Nvs)
    requires n.faults == [] && n.created
    ensures HasConfig(n.entries) ==> Load(n) == (n, StoredConfig(n.entries).value, OK)
    ensures !HasConfig(n.entries)
      ==> Load(n) == (n, DEFAULTS, if StoredConfig(n.entries).None? then NOT_FOUND else INVALID_ARG)
  {
  }

  /** With faults, loading hands out the stored configuration or the defaults, never a mixture. */
  lemma LoadNeverMixes(n: Nvs)
    ensures Load(n).2 == OK ==> HasConfig(n.entries) && StoredConfig(n.entries) == Some(Load(n).1)
    ensures Load(n).2 != OK ==> Load(n).1 == DEFAULTS
  {
  }

  /**
   * From an empty store, after any commands with any failures: when the device then reports stored
   * credentials, a start without read faults loads the stored valid configuration and not the defaults.
   */
  lemma ProvisionedLoads(cmds: seq<Command>, faults: seq<bool>)
    ensures var n := PerformAll(Nvs(map[], false, faults), cmds).(faults := []);
      HasCredentials(n).1 ==> HasConfig(n.entries) && Load(n) == (n, StoredConfig(n.entries).value, OK)
  {
    hide PerformAll, Load, StoredConfig;
    var start := Nvs(map[], false, faults);
    assert ByteAt(start.entries, PROVISIONED) == None;
    ReachableProvisioned(start, cmds);
    var n := PerformAll(start, cmds).(faults := []);
    if HasCredentials(n).1 {
      QuietLoad(n);
    }
  }
}
