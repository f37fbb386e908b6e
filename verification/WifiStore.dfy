/** The functions of wifi_config_manager.c over the open store, access by access. */
module WifiStore {
  import opened JsonTree
  import opened WifiConfig
  import opened WifiStart

  class Store {
    var nvs: Nvs

    constructor (faults: seq<bool>)
      ensures nvs == Nvs(map[], false, faults)
    {
      nvs := Nvs(map[], false, faults);
    }

    method Open(writing: bool) returns (e: Error)
      modifies this
      ensures (nvs, e) == if writing then OpenForWriting(old(nvs)) else OpenForReading(old(nvs))
    {
      var r := if writing then OpenForWriting(nvs) else OpenForReading(nvs);
      nvs, e := r.0, r.1;
    }

    method Set(key: string, v: Value) returns (e: Error)
      modifies this
      ensures (nvs, e) == Put(old(nvs), key, v)
    {
      var r := Put(nvs, key, v);
      nvs, e := r.0, r.1;
    }

    method CommitWrites() returns (e: Error)
      modifies this
      ensures (nvs, e) == Commit(old(nvs))
    {
      var r := Commit(nvs);
      nvs, e := r.0, r.1;
    }

    method GetStr(key: string, max: nat) returns (s: Option<string>)
      modifies this
      ensures (nvs, s) == GetString(old(nvs), key, max)
    {
      var r := GetString(nvs, key, max);
      nvs, s := r.0, r.1;
    }

    method GetU8(key: string) returns (b: Option<nat>)
      modifies this
      ensures (nvs, b) == GetByte(old(nvs), key)
    {
      var r := GetByte(nvs, key);
      nvs, b := r.0, r.1;
    }

    /** wifi_config_save */
    method SaveConfig(c: Config) returns (e: Error)
      modifies this
      ensures (nvs, e) == Save(old(nvs), c)
      ensures e == OK ==> Valid(c) && StoredConfig(nvs.entries) == Some(c)
      ensures Inv(old(nvs).entries) ==> Inv(nvs.entries)
    {
      SaveFacts(nvs, c);
      hide StoredConfig, Inv;
      if !Valid(c) {
        return INVALID_ARG;
      }
      FiveWrites(OpenForWriting(nvs).0, c);
      hide PutAll;
      e := Open(true);
      if e != OK {
        return;
      }
      e := Set(STA_SSID, Str(c.staSsid));
      if e != OK {
        return;
      }
      e := Set(STA_PASS, Str(c.staPassword));
      if e != OK {
        return;
      }
      e := Set(AP_SSID, Str(c.apSsid));
      if e != OK {
        return;
      }
      e := Set(AP_PASS, Str(c.apPassword));
      if e != OK {
        return;
      }
      e := Set(AP_MAX_CONN, U8(c.apMaxConnections));
      if e != OK {
        return;
      }
      e := CommitWrites();
    }

    /** wifi_config_load */
    method LoadConfig() returns (c: Config, e: Error)
      modifies this
      ensures (nvs, c, e) == Load(old(nvs))
      ensures e == OK ==> Valid(c) && StoredConfig(old(nvs).entries) == Some(c)
      ensures e != OK ==> c == DEFAULTS
      ensures nvs.entries == old(nvs).entries
    {
      LoadFacts(nvs);
      hide StoredConfig;
      c := DEFAULTS;
      e := Open(false);
      if e != OK {
        return;
      }
      var staSsid := GetStr(STA_SSID, MAX_SSID_LEN);
      var staPassword := GetStr(STA_PASS, MAX_PASSWORD_LEN);
      var apSsid := GetStr(AP_SSID, MAX_SSID_LEN);
      var apPassword := GetStr(AP_PASS, MAX_PASSWORD_LEN);
      var maxConn := GetU8(AP_MAX_CONN);
      if staSsid.None? || staPassword.None? || apSsid.None? || apPassword.None? || maxConn.None? {
        return c, NOT_FOUND;
      }
      var loaded := Config(staSsid.value, staPassword.value, apSsid.value, apPassword.value, maxConn.value);
      if !Valid(loaded) {
        return c, INVALID_ARG;
      }
      return loaded, OK;
    }

    /** wifi_config_load_ssid_history, into the first entries of the array; returns how many. */
    method LoadSsids(ssids: array<string>) returns (count: nat)
      requires ssids.Length == MAX_SSID_HISTORY
      modifies this, ssids
      ensures count <= MAX_SSID_HISTORY && (nvs, ssids[..count]) == LoadHistory(old(nvs))
      ensures forall i | 0 <= i < count :: |ssids[i]| <= MAX_SSID_LEN
    {
      count := 0;
      var e := Open(false);
      if e != OK {
        return;
      }
      var stored := GetU8(HIST_COUNT);
      if stored.None? || stored.value > MAX_SSID_HISTORY {
        return;
      }
      count := stored.value;
      ReadNames(ssids, count);
    }

    /** The loop that reads the stored names. */
    method ReadNames(ssids: array<string>, count: nat)
      requires count <= ssids.Length
      modifies this, ssids
      ensures (nvs, ssids[..count]) == ReadEntries(old(nvs), 0, count)
      ensures forall i | 0 <= i < count :: |ssids[i]| <= MAX_SSID_LEN
    {
      ghost var whole := ReadEntries(nvs, 0, count);
      assert ssids[..0] + whole.1 == whole.1;
      hide ReadEntries, HistoryKey, GetString;
      for i := 0 to count
        invariant forall k | 0 <= k < i :: |ssids[k]| <= MAX_SSID_LEN
        invariant whole.0 == ReadEntries(nvs, i, count).0
        invariant whole.1 == ssids[..i] + ReadEntries(nvs, i, count).1
      {
        ghost var before := ssids[..i];
        ReadTurn(nvs, i, count);
        ShortRead(nvs, HistoryKey(i));
        var s := GetStr(HistoryKey(i), MAX_SSID_LEN);
        ssids[i] := if s.Some? then s.value else "";
        assert ssids[..i + 1] == before + [ssids[i]];
        OneMore(before, ssids[i], ReadEntries(nvs, i + 1, count).1);
      }
      ReadNothing(nvs, count);
      assert ssids[..count] + [] == ssids[..count];
    }

    /** wifi_config_add_ssid_to_history */
    method AddSsidToHistory(ssid: string) returns (e: Error)
      modifies this
      ensures (nvs, e) == AddSsid(old(nvs), ssid)
      ensures Inv(old(nvs).entries) ==> Inv(nvs.entries)
    {
      AddKeeps(nvs, ssid);
      hide Inv, HasConfig;
      if |ssid| == 0 {
        return INVALID_ARG;
      }
      var ssids := new string[MAX_SSID_HISTORY];
      var count := LoadSsids(ssids);
      count := UpdateHistory(ssids, count, ssid);
      e := Open(true);
      if e != OK {
        return;
      }
      e := WriteHistory(ssids, count);
      if e != OK {
        return;
      }
      e := CommitWrites();
    }

    /** The count and then the names, one write each, stopping at the first that fails. */
    method WriteHistory(ssids: array<string>, count: nat) returns (e: Error)
      requires count <= ssids.Length
      modifies this
      ensures (nvs, e) == PutAll(old(nvs), HistoryWrites(ssids[..count]))
    {
      ghost var ws := HistoryWrites(ssids[..count]);
      hide PutAll, Put, HistoryWrites, HistoryKey;
      ghost var whole := PutAll(nvs, ws);
      FirstWrite(nvs, ssids[..count]);
      e := Set(HIST_COUNT, U8(count));
      if e != OK {
        return;
      }
      for i := 0 to count
        invariant e == OK && PutAll(nvs, ws[i + 1..]) == whole
      {
        NextWrite(nvs, ssids[..count], i);
        e := Set(HistoryKey(i), Str(ssids[i]));
        if e != OK {
          return;
        }
      }
      LastWrite(nvs, ssids[..count]);
    }

    /** wifi_config_erase */
    method EraseConfiguration() returns (e: Error)
      modifies this
      ensures (nvs, e) == Erase(old(nvs))
      ensures Inv(old(nvs).entries) ==> Inv(nvs.entries)
      ensures e == OK ==> nvs.entries == map[]
      ensures old(nvs).faults == [] ==> e == OK
    {
      e := Open(true);
      if e != OK {
        return;
      }
      var r := EraseAll(nvs);
      nvs, e := r.0, r.1;
      if e != OK {
        return;
      }
      e := CommitWrites();
    }

    /** wifi_config_set_provisioned */
    method MarkProvisioned(provisioned: bool) returns (e: Error)
      modifies this
      ensures (nvs, e) == SetProvisioned(old(nvs), provisioned)
      ensures !provisioned || HasConfig(old(nvs).entries) ==> Inv(old(nvs).entries) ==> Inv(nvs.entries)
      ensures old(nvs).faults == [] ==> e == OK && HasCredentials(nvs) == (nvs, provisioned)
    {
      if nvs.faults == [] {
        MarkedStarts(nvs, provisioned);
      }
      if !provisioned || HasConfig(nvs.entries) {
        FlagKeeps(nvs, provisioned);
      }
      hide Inv, HasConfig, HasCredentials;
      OneWrite(OpenForWriting(nvs).0, (PROVISIONED, U8(if provisioned then 1 else 0)));
      e := Open(true);
      if e != OK {
        return;
      }
      e := Set(PROVISIONED, U8(if provisioned then 1 else 0));
      if e == OK {
        e := CommitWrites();
      }
    }

    /** wifi_config_reset_to_defaults */
    method ResetConfiguration() returns (e: Error)
      modifies this
      ensures (nvs, e) == ResetToDefaults(old(nvs))
      ensures e == OK ==> StoredConfig(nvs.entries) == Some(DEFAULTS)
      ensures Inv(old(nvs).entries) ==> Inv(nvs.entries)
      ensures old(nvs).faults == []
        ==> e == OK && Load(nvs) == (nvs, DEFAULTS, OK) && !HasCredentials(nvs).1 && LoadHistory(nvs).1 == []
    {
      if nvs.faults == [] {
        ResetStarts(nvs);
      }
      hide Load, HasCredentials, LoadHistory;
      hide Save, Erase, Inv, StoredConfig;
      e := EraseConfiguration();
      if e == OK {
        e := SaveConfig(DEFAULTS);
      }
    }

    /** wifi_config_sync_defaults */
    method SyncConfiguration() returns (e: Error)
      modifies this
      ensures (nvs, e) == SyncDefaults(old(nvs))
      ensures Inv(old(nvs).entries) ==> Inv(nvs.entries)
    {
      hide Load, Save, Erase, Inv, StoredConfig, Valid;
      var config, loaded := LoadConfig();
      if loaded == OK && config.staSsid != DEFAULTS.staSsid {
        e := EraseConfiguration();
        if e == OK {
          e := SaveConfig(DEFAULTS);
        }
        return;
      }
      return OK;
    }

    /** The end of the save handler: save, history, and only then the flag. */
    method Configure(c: Config) returns (ok: bool)
      modifies this
      ensures nvs == HandleConfigure(old(nvs), c) && (ok <==> Save(old(nvs), c).1 == OK)
      ensures Inv(old(nvs).entries) ==> Inv(nvs.entries)
      ensures old(nvs).faults == [] ==> (ok <==> WithinLimits(c))
      ensures old(nvs).faults == [] && ok ==> HasCredentials(nvs).1 && Load(nvs) == (nvs, c, OK)
    {
      if nvs.faults == [] {
        ConfiguredStarts(nvs, c);
        SavedWithin(nvs, c);
      }
      if Inv(nvs.entries) {
        ConfigureKeeps(nvs, c);
      }
      hide Save, AddSsid, SetProvisioned, Inv, StoredConfig, HasConfig, Load, HasCredentials, WithinLimits, LoadHistory;
      if !Valid(c) {
        InvalidNotSaved(nvs, c);
        return false;
      }
      var e := SaveConfig(c);
      if e != OK {
        return false;
      }
      e := AddSsidToHistory(c.staSsid);
      e := MarkProvisioned(true);
      ok := true;
    }
  }

  lemma SaveFacts(n: Nvs, c: Config)
    ensures Save(n, c).1 == OK ==> Valid(c) && StoredConfig(Save(n, c).0.entries) == Some(c)
    ensures Inv(n.entries) ==> Inv(Save(n, c).0.entries)
  {
    hide Save, Inv, StoredConfig;
    if Save(n, c).1 == OK {
      SavedIsStored(n, c);
    }
    if Inv(n.entries) {
      SaveKeeps(n, c);
    }
  }

  lemma LoadFacts(n: Nvs)
    ensures Load(n).2 == OK ==> Valid(Load(n).1) && StoredConfig(n.entries) == Some(Load(n).1)
    ensures Load(n).2 != OK ==> Load(n).1 == DEFAULTS
    ensures Load(n).0.entries == n.entries
  {
    LoadNeverMixes(n);
    LoadReads(n);
    hide Load;
  }

  lemma FirstWrite(n: Nvs, h: seq<string>)
    ensures var ws := HistoryWrites(h);
      var (next, e) := Put(n, HIST_COUNT, U8(|h|));
      |ws| == |h| + 1 && PutAll(n, ws) == if e != OK then (next, e) else PutAll(next, ws[1..])
  {
  }

  lemma NextWrite(n: Nvs, h: seq<string>, i: nat)
    requires i < |h|
    ensures var ws := HistoryWrites(h);
      var (next, e) := Put(n, HistoryKey(i), Str(h[i]));
      |ws| == |h| + 1 && PutAll(n, ws[i + 1..]) == if e != OK then (next, e) else PutAll(next, ws[i + 2..])
  {
    var ws := HistoryWrites(h);
    assert ws[i + 1..][0] == ws[i + 1] == (HistoryKey(i), Str(h[i]));
    assert ws[i + 1..][1..] == ws[i + 2..];
  }

  lemma LastWrite(n: Nvs, h: seq<string>)
    ensures |HistoryWrites(h)| == |h| + 1 && PutAll(n, HistoryWrites(h)[|h| + 1..]) == (n, OK)
  {
  }

  lemma ReadTurn(n: Nvs, i: nat, count: nat)
    requires i < count
    ensures var (next, s) := GetString(n, HistoryKey(i), MAX_SSID_LEN);
      var (last, rest) := ReadEntries(next, i + 1, count);
      ReadEntries(n, i, count) == (last, [if s.Some? then s.value else ""] + rest)
  {
  }

  lemma ShortRead(n: Nvs, key: string)
    ensures var s := GetString(n, key, MAX_SSID_LEN).1; s.Some? ==> |s.value| <= MAX_SSID_LEN
  {
  }

  lemma ReadNothing(n: Nvs, count: nat)
    ensures ReadEntries(n, count, count) == (n, [])
  {
  }

  lemma OneMore(before: seq<string>, s: string, rest: seq<string>)
    ensures before + ([s] + rest) == (before + [s]) + rest
  {
  }

  lemma OneWrite(n: Nvs, w: Write)
    ensures PutAll(n, [w]) == Put(n, w.0, w.1)
  {
    assert [w][1..] == [];
  }

  lemma InvalidNotSaved(n: Nvs, c: Config)
    requires !Valid(c)
    ensures Save(n, c) == (n, INVALID_ARG)
  {
  }

  /** The five writes of a save, one by one. */
  lemma FiveWrites(n0: Nvs, c: Config)
    ensures var (n1, e1) := Put(n0, STA_SSID, Str(c.staSsid));
      var (n2, e2) := Put(n1, STA_PASS, Str(c.staPassword));
      var (n3, e3) := Put(n2, AP_SSID, Str(c.apSsid));
      var (n4, e4) := Put(n3, AP_PASS, Str(c.apPassword));
      var (n5, e5) := Put(n4, AP_MAX_CONN, U8(c.apMaxConnections));
      PutAll(n0, ConfigWrites(c)) ==
        if e1 != OK then (n1, e1) else if e2 != OK then (n2, e2) else if e3 != OK then (n3, e3)
        else if e4 != OK then (n4, e4) else (n5, e5)
  {
    var ws := ConfigWrites(c);
    assert ws[1..][1..] == ws[2..] && ws[2..][1..] == ws[3..] && ws[3..][1..] == ws[4..] && ws[4..][1..] == [];
    hide Put;
    var (n1, e1) := Put(n0, STA_SSID, Str(c.staSsid));
    var (n2, e2) := Put(n1, STA_PASS, Str(c.staPassword));
    var (n3, e3) := Put(n2, AP_SSID, Str(c.apSsid));
    var (n4, e4) := Put(n3, AP_PASS, Str(c.apPassword));
    var (n5, e5) := Put(n4, AP_MAX_CONN, U8(c.apMaxConnections));
    assert PutAll(n4, ws[4..]) == (n5, e5);
    assert PutAll(n3, ws[3..]) == if e4 != OK then (n4, e4) else PutAll(n4, ws[4..]);
    assert PutAll(n2, ws[2..]) == if e3 != OK then (n3, e3) else PutAll(n3, ws[3..]);
    assert PutAll(n1, ws[1..]) == if e2 != OK then (n2, e2) else PutAll(n2, ws[2..]);
  }
}
