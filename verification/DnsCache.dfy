/** The DNS answer cache of dns_proxy.c: twenty slots, sixty seconds, in front of an upstream server. */
module DnsCache {
  import opened JsonTree

  const DNS_CACHE_SIZE: nat := 20
  const DNS_CACHE_TTL: int := 60 * 1000000
  const BUFFER_SIZE: nat := 1024
  const NAME_SIZE: nat := 255
  const INT64_MAX: int := 0x7FFF_FFFF_FFFF_FFFF

  type Bytes = seq<bv8>

  /** What is compared: the first 255 characters of the name, and the type. */
  datatype Key = Key(qname: string, qtype: nat)

  datatype Slot = Slot(key: Key, response: Bytes, expiry: int, valid: bool)

  function Cut(s: string): string {
    if |s| > NAME_SIZE then s[..NAME_SIZE] else s
  }

  function KeyOf(qname: string, qtype: nat): Key { Key(Cut(qname), qtype) }

  // ---- one lookup, one store, on the table as a sequence ----

  predicate Matches(s: Slot, key: Key) { s.valid && s.key == key }

  function Find(slots: seq<Slot>, key: Key): (r: nat)
    ensures r <= |slots|
    ensures r < |slots| ==> Matches(slots[r], key)
    ensures forall i | 0 <= i < r :: !Matches(slots[i], key)
  {
    if slots == [] then 0
    else if Matches(slots[0], key) then 0
    else 1 + Find(slots[1..], key)
  }

  /** dns_cache_lookup: the table left behind, and the cached response. */
  function LookupIn(slots: seq<Slot>, key: Key, now: int, size: nat): (r: (seq<Slot>, Option<Bytes>))
    ensures |r.0| == |slots| && forall i | 0 <= i < |slots| :: r.0[i].expiry == slots[i].expiry
  {
    var i := Find(slots, key);
    if i == |slots| then (slots, None)
    else if now > slots[i].expiry then (slots[i := slots[i].(valid := false)], None)
    else if |slots[i].response| > size then (slots, None)
    else (slots, Some(slots[i].response))
  }

  predicate IsFree(s: Slot, now: int) { !s.valid || now > s.expiry }

  function FirstFree(slots: seq<Slot>, now: int): (r: nat)
    ensures r <= |slots|
    ensures r < |slots| ==> IsFree(slots[r], now)
    ensures forall i | 0 <= i < r :: !IsFree(slots[i], now)
  {
    if slots == [] then 0
    else if IsFree(slots[0], now) then 0
    else 1 + FirstFree(slots[1..], now)
  }

  /** The first of the entries that expire soonest. */
  predicate IsOldest(slots: seq<Slot>, i: nat) {
    && i < |slots|
    && (forall j | 0 <= j < |slots| :: slots[i].expiry <= slots[j].expiry)
    && (forall j | 0 <= j < i :: slots[i].expiry < slots[j].expiry)
  }

  function Oldest(slots: seq<Slot>): (r: nat)
    requires slots != []
    ensures IsOldest(slots, r)
  {
    if |slots| == 1 then 0
    else
      var r := 1 + Oldest(slots[1..]);
      assert forall j | 1 <= j < |slots| :: slots[j] == slots[1..][j - 1];
      if slots[0].expiry <= slots[r].expiry then 0 else r
  }

  /** Where dns_cache_store puts an entry: a free or expired slot, or over the oldest. */
  function Place(slots: seq<Slot>, now: int): (r: nat)
    requires slots != []
    ensures r < |slots|
  {
    var free := FirstFree(slots, now);
    if free < |slots| then free else Oldest(slots)
  }

  /** dns_cache_store */
  function StoreIn(slots: seq<Slot>, key: Key, response: Bytes, now: int): seq<Slot>
    requires slots != []
  {
    if |response| > BUFFER_SIZE then slots
    else slots[Place(slots, now) := Slot(key, response, now + DNS_CACHE_TTL, true)]
  }

  lemma FoundAt(slots: seq<Slot>, key: Key, i: nat)
    requires i <= |slots| && (i < |slots| ==> Matches(slots[i], key))
    requires forall j | 0 <= j < i :: !Matches(slots[j], key)
    ensures Find(slots, key) == i
  {
  }

  lemma FreeAt(slots: seq<Slot>, now: int, i: nat)
    requires i <= |slots| && (i < |slots| ==> IsFree(slots[i], now))
    requires forall j | 0 <= j < i :: !IsFree(slots[j], now)
    ensures FirstFree(slots, now) == i
  {
  }

  lemma OldestIs(slots: seq<Slot>, i: nat)
    requires IsOldest(slots, i)
    ensures Oldest(slots) == i
  {
  }

  // ---- the proxy loop: lookup, forward, store ----

  /** What the upstream server sent, and when it was stored. */
  datatype Answer = Answer(response: Bytes, at: int)

  /** A parsed query: its transaction ID, when it was looked up, and the answer it would be forwarded to. */
  datatype Query = Query(id0: bv8, id1: bv8, qname: string, qtype: nat, at: int, upstream: Option<Answer>)

  datatype Stored = Stored(key: Key, response: Bytes, at: int)

  /** The table, with the history of everything ever stored and the time of the last step. */
  datatype State = State(slots: seq<Slot>, log: seq<Stored>, clock: int)

  /** The cached response under the current transaction ID. */
  function Readdressed(response: Bytes, q: Query): Bytes {
    seq(|response|, i requires 0 <= i < |response| => if i == 0 then q.id0 else if i == 1 then q.id1 else response[i])
  }

  /** On bytes: the reply has the query's transaction ID in front, and from then on the bytes of the response. */
  predicate Answers(reply: Bytes, response: Bytes, q: Query) {
    && |reply| == |response|
    && (|reply| > 0 ==> reply[0] == q.id0) && (|reply| > 1 ==> reply[1] == q.id1)
    && forall i | 2 <= i < |reply| :: reply[i] == response[i]
  }

  /** The key holds the queried type and the first 255 characters of the queried name. */
  predicate Asks(key: Key, q: Query) {
    key.qtype == q.qtype && key.qname == if |q.qname| > 255 then q.qname[..255] else q.qname
  }

  /** One turn of dns_proxy_task for a parsed query: the state after it, whether it was a hit, and the reply. */
  function Step(s: State, q: Query): (State, bool, Option<Bytes>)
    requires s.slots != []
  {
    var key := KeyOf(q.qname, q.qtype);
    var (slots, hit) := LookupIn(s.slots, key, q.at, BUFFER_SIZE);
    if hit.Some? && |hit.value| > 0 then (State(slots, s.log, q.at), true, Some(Readdressed(hit.value, q)))
    else if q.upstream.None? then (State(slots, s.log, q.at), false, None)
    else
      var a := q.upstream.value;
      if |a.response| == 0 then (State(slots, s.log, a.at), false, Some(a.response))
      else
        (State(StoreIn(slots, key, a.response, a.at), s.log + [Stored(key, a.response, a.at)], a.at),
         false, Some(a.response))
  }

  // ---- the table in place ----

  class Cache {
    const slots: array<Slot>

    constructor ()
      ensures fresh(slots) && slots.Length == DNS_CACHE_SIZE
      ensures forall i | 0 <= i < slots.Length :: !slots[i].valid
    {
      slots := new Slot[DNS_CACHE_SIZE](_ => Slot(Key("", 0), [], 0, false));
    }

    /** dns_cache_lookup */
    method LookupEntry(qname: string, qtype: nat, now: int, size: nat) returns (r: Option<Bytes>)
      modifies slots
      ensures (slots[..], r) == LookupIn(old(slots[..]), KeyOf(qname, qtype), now, size)
    {
      var key := KeyOf(qname, qtype);
      for i := 0 to slots.Length
        invariant slots[..] == old(slots[..])
        invariant forall j | 0 <= j < i :: !Matches(slots[j], key)
      {
        if slots[i].valid && slots[i].key.qtype == qtype && slots[i].key.qname == Cut(qname) {
          FoundAt(slots[..], key, i);
          if now > slots[i].expiry {
            slots[i] := slots[i].(valid := false);
            return None;
          }
          if |slots[i].response| > size {
            return None;
          }
          return Some(slots[i].response);
        }
      }
      FoundAt(slots[..], key, slots.Length);
      return None;
    }

    /** dns_cache_store, for expiry times a 64-bit clock can hold. */
    method StoreEntry(qname: string, qtype: nat, response: Bytes, now: int)
      requires slots.Length > 0
      requires forall i | 0 <= i < slots.Length :: slots[i].expiry < INT64_MAX
      modifies slots
      ensures slots[..] == StoreIn(old(slots[..]), KeyOf(qname, qtype), response, now)
    {
      if |response| > BUFFER_SIZE {
        return;
      }
      var idx := -1;
      var oldestExpiry := INT64_MAX;
      var oldest := 0;
      var i := 0;
      while i < slots.Length
        invariant 0 <= i <= slots.Length && idx == -1 && oldest < slots.Length
        invariant forall j | 0 <= j < i :: !IsFree(slots[j], now)
        invariant i == 0 ==> oldestExpiry == INT64_MAX && oldest == 0
        invariant i > 0 ==> oldest < i && oldestExpiry == slots[oldest].expiry
        invariant forall j | 0 <= j < i :: oldestExpiry <= slots[j].expiry
        invariant forall j | 0 <= j < oldest :: oldestExpiry < slots[j].expiry
      {
        if !slots[i].valid || now > slots[i].expiry {
          idx := i;
          break;
        }
        if slots[i].expiry < oldestExpiry {
          oldestExpiry, oldest := slots[i].expiry, i;
        }
        i := i + 1;
      }
      FreeAt(slots[..], now, i);
      if idx == -1 {
        idx := oldest;
        OldestIs(slots[..], oldest);
      }
      slots[idx] := Slot(KeyOf(qname, qtype), response, now + DNS_CACHE_TTL, true);
    }

    /** The order of dns_proxy_task: look up, and only after a miss forward and store. */
    method HandleQuery(q: Query, ghost log: seq<Stored>, ghost clock: int) returns (hit: bool, reply: Option<Bytes>)
      requires slots.Length > 0 && forall i | 0 <= i < slots.Length :: slots[i].expiry < INT64_MAX
      modifies slots
      ensures Step(State(old(slots[..]), log, clock), q)
        == (State(slots[..], Step(State(old(slots[..]), log, clock), q).0.log,
               Step(State(old(slots[..]), log, clock), q).0.clock), hit, reply)
      ensures hit ==> reply.Some? && slots[..] == old(slots[..]) && exists i ::
        && 0 <= i < slots.Length && slots[i].valid && Asks(slots[i].key, q) && q.at <= slots[i].expiry
        && 0 < |slots[i].response| && Answers(reply.value, slots[i].response, q)
      ensures !hit ==> reply == if q.upstream.None? then None else Some(q.upstream.value.response)
    {
      var cached := LookupEntry(q.qname, q.qtype, q.at, BUFFER_SIZE);
      assert forall i | 0 <= i < slots.Length :: slots[i].expiry == slots[..][i].expiry == old(slots[..])[i].expiry;
      if cached.Some? && |cached.value| > 0 {
        ghost var i := Find(slots[..], KeyOf(q.qname, q.qtype));
        assert Matches(slots[i], KeyOf(q.qname, q.qtype)) && slots[i].response == cached.value;
        return true, Some(Readdressed(cached.value, q));
      }
      if q.upstream.None? {
        return false, None;
      }
      var a := q.upstream.value;
      if |a.response| > 0 {
        StoreEntry(q.qname, q.qtype, a.response, a.at);
      }
      return false, Some(a.response);
    }
  }

  /** Time does not run backwards, strictly forwards between stores; datagrams fit the receive buffer. */
  ghost predicate Timely(s: State, q: Query) {
    && s.clock <= q.at
    && (q.upstream.Some? ==>
      && q.at <= q.upstream.value.at && |q.upstream.value.response| <= BUFFER_SIZE
      && (s.log != [] ==> s.log[|s.log| - 1].at < q.upstream.value.at))
  }

  function Initial(clock: int): State {
    State(seq(DNS_CACHE_SIZE, _ => Slot(Key("", 0), [], 0, false)), [], clock)
  }

  /** The state after a run of queries. */
  function Run(clock: int, qs: seq<Query>): (s: State)
    ensures s.slots != []
  {
    if qs == [] then Initial(clock)
    else Step(Run(clock, qs[..|qs| - 1]), qs[|qs| - 1]).0
  }

  ghost predicate TimelyRun(clock: int, qs: seq<Query>) {
    qs != [] ==>
      TimelyRun(clock, qs[..|qs| - 1]) && Timely(Run(clock, qs[..|qs| - 1]), qs[|qs| - 1])
  }

  // ---- what holds in every reachable state ----

  /** The k-th store is the last one for its key. */
  ghost predicate LastFor(log: seq<Stored>, k: nat) {
    k < |log| && forall m | k < m < |log| :: log[m].key != log[k].key
  }

  ghost predicate LogFits(log: seq<Stored>, clock: int) {
    && (forall m, n | 0 <= m < n < |log| :: log[m].at < log[n].at)
    && (forall m | 0 <= m < |log| :: log[m].at <= clock && 0 < |log[m].response| <= BUFFER_SIZE)
  }

  /** A valid slot holds the store that its origin names, and that store is the last for its key. */
  ghost predicate Holds(slots: seq<Slot>, log: seq<Stored>, origin: seq<nat>, i: nat)
    requires i < |slots| && i < |origin|
  {
    slots[i].valid ==>
      && LastFor(log, origin[i])
      && log[origin[i]] == Stored(slots[i].key, slots[i].response, slots[i].expiry - DNS_CACHE_TTL)
  }

  ghost predicate Sound(slots: seq<Slot>, log: seq<Stored>, origin: seq<nat>) {
    && |slots| == DNS_CACHE_SIZE == |origin|
    && (forall i | 0 <= i < |slots| :: Holds(slots, log, origin, i))
    && (forall i, j | 0 <= i < j < |slots| && slots[i].valid && slots[j].valid :: origin[i] != origin[j])
  }

  ghost predicate Kept(slots: seq<Slot>, origin: seq<nat>, k: nat)
    requires |slots| == |origin|
  {
    exists i :: 0 <= i < |slots| && slots[i].valid && origin[i] == k
  }

  /** Every live last store with at most nineteen stores behind it is still in the table. */
  ghost predicate Complete(slots: seq<Slot>, log: seq<Stored>, origin: seq<nat>, clock: int)
    requires |slots| == |origin|
  {
    forall k | 0 <= k < |log| && |log| - k <= DNS_CACHE_SIZE && clock <= log[k].at + DNS_CACHE_TTL && LastFor(log, k) ::
      Kept(slots, origin, k)
  }

  ghost predicate Inv(s: State, origin: seq<nat>) {
    LogFits(s.log, s.clock) && Sound(s.slots, s.log, origin) && Complete(s.slots, s.log, origin, s.clock)
  }

  /** At most one valid slot per key. */
  lemma OneSlotPerKey(s: State, origin: seq<nat>, i: nat, j: nat)
    requires Inv(s, origin) && i < |s.slots| && j < |s.slots| && i != j
    requires s.slots[i].valid && s.slots[j].valid
    ensures s.slots[i].key != s.slots[j].key
  {
    assert Holds(s.slots, s.log, origin, i) && Holds(s.slots, s.log, origin, j);
    assert origin[i] != origin[j];
  }

  // ---- lookups keep it ----

  lemma LookupKeeps(s: State, origin: seq<nat>, key: Key, now: int)
    requires Inv(s, origin) && s.clock <= now
    ensures var (slots, hit) := LookupIn(s.slots, key, now, BUFFER_SIZE);
      && Inv(State(slots, s.log, now), origin)
      && (hit.None? ==> Find(slots, key) == |slots|)
  {
    var (slots, hit) := LookupIn(s.slots, key, now, BUFFER_SIZE);
    var i := Find(s.slots, key);
    if i < |s.slots| {
      assert Holds(s.slots, s.log, origin, i);
      if now > s.slots[i].expiry {
        forall j | 0 <= j < |slots| ensures Holds(slots, s.log, origin, j) {
          assert Holds(s.slots, s.log, origin, j);
        }
        forall k | 0 <= k < |s.log| && |s.log| - k <= DNS_CACHE_SIZE
            && now <= s.log[k].at + DNS_CACHE_TTL && LastFor(s.log, k)
          ensures Kept(slots, origin, k)
        {
          assert Kept(s.slots, origin, k);
          var j :| 0 <= j < |s.slots| && s.slots[j].valid && origin[j] == k;
          assert Holds(s.slots, s.log, origin, j);
          assert slots[j] == s.slots[j];
        }
        forall j | 0 <= j < |slots| ensures !Matches(slots[j], key) {
          if j != i && s.slots[j].valid {
            OneSlotPerKey(s, origin, i, j);
          }
        }
        FoundAt(slots, key, |slots|);
      }
    }
  }

  // ---- stores keep it ----

  lemma {:induction false} DistinctBetween(xs: seq<nat>, low: nat, high: nat)
    requires low <= high && forall i | 0 <= i < |xs| :: low <= xs[i] < high
    requires forall i, j | 0 <= i < j < |xs| :: xs[i] != xs[j]
    ensures |xs| <= high - low
    decreases high - low
  {
    if xs != [] {
      assert low <= xs[0] < high;
      var top := high - 1;
      if i :| 0 <= i < |xs| && xs[i] == top {
        var rest := xs[..i] + xs[i + 1..];
        forall p | 0 <= p < |rest| ensures rest[p] == xs[if p < i then p else p + 1] {
        }
        DistinctBetween(rest, low, top);
      } else {
        DistinctBetween(xs, low, top);
      }
    }
  }

  /** The slot that expires later holds the later store. */
  lemma LaterExpiry(slots: seq<Slot>, log: seq<Stored>, origin: seq<nat>, clock: int, o: nat, i: nat)
    requires LogFits(log, clock)
    requires o < |slots| == |origin| && i < |slots| && slots[o].valid && slots[i].valid
    requires Holds(slots, log, origin, o) && Holds(slots, log, origin, i) && slots[o].expiry <= slots[i].expiry
    ensures origin[o] <= origin[i] < |log|
  {
  }

  /** A full table: the oldest slot holds a store with at least nineteen others behind it. */
  lemma OldestBehind(slots: seq<Slot>, log: seq<Stored>, origin: seq<nat>, clock: int)
    requires LogFits(log, clock) && Sound(slots, log, origin) && forall i | 0 <= i < |slots| :: slots[i].valid
    ensures |log| - origin[Oldest(slots)] >= DNS_CACHE_SIZE
  {
    hide Holds, LogFits, Oldest;
    var o := Oldest(slots);
    forall i | 0 <= i < |origin| ensures origin[o] <= origin[i] < |log| {
      LaterExpiry(slots, log, origin, clock, o, i);
    }
    DistinctBetween(origin, origin[o], |log|);
  }

  /** A store overwrites a live entry only when all twenty are live, and then the one stored first. */
  lemma DisplacesOnlyOldest(s: State, origin: seq<nat>, now: int)
    requires Inv(s, origin) && !IsFree(s.slots[Place(s.slots, now)], now)
    ensures forall i | 0 <= i < |s.slots| :: !IsFree(s.slots[i], now)
    ensures forall i | 0 <= i < |s.slots| && i != Place(s.slots, now) :: origin[Place(s.slots, now)] < origin[i]
  {
    var p := Place(s.slots, now);
    assert p == Oldest(s.slots) && Holds(s.slots, s.log, origin, p);
    forall i | 0 <= i < |s.slots| && i != p ensures origin[p] < origin[i] {
      assert Holds(s.slots, s.log, origin, i);
      assert s.slots[p].expiry <= s.slots[i].expiry;
    }
  }

  lemma LogGrows(log: seq<Stored>, clock: int, last: Stored)
    requires LogFits(log, clock) && clock <= last.at && 0 < |last.response| <= BUFFER_SIZE
    requires log != [] ==> log[|log| - 1].at < last.at
    ensures LogFits(log + [last], last.at)
  {
    var n, all := |log|, log + [last];
    forall m, k | 0 <= m < k < |all| ensures all[m].at < all[k].at {
      assert k == n && m < n - 1 ==> log[m].at < log[n - 1].at;
    }
  }

  /** A key that the table does not hold, stored: the newest store is there, and no live one within reach is lost. */
  lemma StoreKeeps(s: State, origin: seq<nat>, key: Key, response: Bytes, now: int) returns (origin': seq<nat>)
    requires Inv(s, origin) && s.clock <= now && Find(s.slots, key) == |s.slots|
    requires 0 < |response| <= BUFFER_SIZE && (s.log != [] ==> s.log[|s.log| - 1].at < now)
    ensures Inv(State(StoreIn(s.slots, key, response, now), s.log + [Stored(key, response, now)], now), origin')
  {
    var p, n := Place(s.slots, now), |s.log|;
    var slots, log := StoreIn(s.slots, key, response, now), s.log + [Stored(key, response, now)];
    origin' := origin[p := n];
    forall i | 0 <= i < |slots| ensures Holds(slots, log, origin', i) {
      assert Holds(s.slots, s.log, origin, i);
    }
    assert Sound(slots, log, origin') by {
      forall i, j | 0 <= i < j < |slots| && slots[i].valid && slots[j].valid ensures origin'[i] != origin'[j] {
        assert Holds(s.slots, s.log, origin, i) && Holds(s.slots, s.log, origin, j);
      }
    }
    LogGrows(s.log, s.clock, Stored(key, response, now));
    forall k | 0 <= k < |log| && |log| - k <= DNS_CACHE_SIZE && now <= log[k].at + DNS_CACHE_TTL && LastFor(log, k)
      ensures Kept(slots, origin', k)
    {
      if k == n {
        assert slots[p].valid && origin'[p] == k;
      } else {
        StillKept(s, origin, key, response, now, k);
        var i :| 0 <= i < |s.slots| && s.slots[i].valid && origin[i] == k && i != p;
        assert slots[i].valid && origin'[i] == k;
      }
    }
  }

  lemma StillKept(s: State, origin: seq<nat>, key: Key, response: Bytes, now: int, k: nat)
    requires Inv(s, origin) && s.clock <= now && k < |s.log|
    requires |s.log| - k < DNS_CACHE_SIZE && now <= s.log[k].at + DNS_CACHE_TTL
    requires LastFor(s.log + [Stored(key, response, now)], k)
    ensures exists i :: 0 <= i < |s.slots| && s.slots[i].valid && origin[i] == k && i != Place(s.slots, now)
  {
    var log := s.log + [Stored(key, response, now)];
    assert LastFor(s.log, k) by {
      forall m | k < m < |s.log| ensures s.log[m].key != s.log[k].key {
        assert log[m].key != log[k].key;
      }
    }
    assert Kept(s.slots, origin, k);
    var i :| 0 <= i < |s.slots| && s.slots[i].valid && origin[i] == k;
    assert Holds(s.slots, s.log, origin, i);
    var free := FirstFree(s.slots, now);
    if i == Place(s.slots, now) && free == |s.slots| {
      assert forall j | 0 <= j < |s.slots| :: !IsFree(s.slots[j], now);
      OldestBehind(s.slots, s.log, origin, s.clock);
    }
  }

  /** One turn of the proxy loop keeps the invariant. */
  lemma StepKeeps(s: State, origin: seq<nat>, q: Query) returns (origin': seq<nat>)
    requires Inv(s, origin) && Timely(s, q)
    ensures s.slots != [] && Inv(Step(s, q).0, origin')
  {
    hide LookupIn, StoreIn, Complete, Sound, LogFits;
    var key := KeyOf(q.qname, q.qtype);
    LookupKeeps(s, origin, key, q.at);
    HitsAreFull(s, origin, key, q.at);
    var (slots, hit) := LookupIn(s.slots, key, q.at, BUFFER_SIZE);
    var looked := State(slots, s.log, q.at);
    if hit.Some? || q.upstream.None? {
      origin' := origin;
    } else if |q.upstream.value.response| == 0 {
      origin' := origin;
      Later(looked, origin, q.upstream.value.at);
    } else {
      origin' := StoreKeeps(looked, origin, key, q.upstream.value.response, q.upstream.value.at);
    }
  }

  lemma HitsAreFull(s: State, origin: seq<nat>, key: Key, now: int)
    requires Inv(s, origin)
    ensures s.slots != []
    ensures LookupIn(s.slots, key, now, BUFFER_SIZE).1.Some? ==> |LookupIn(s.slots, key, now, BUFFER_SIZE).1.value| > 0
  {
    var i := Find(s.slots, key);
    assert i < |s.slots| ==> Holds(s.slots, s.log, origin, i);
  }

  lemma Later(s: State, origin: seq<nat>, clock: int)
    requires Inv(s, origin) && s.clock <= clock
    ensures Inv(s.(clock := clock), origin)
  {
  }

  /** The invariant holds after every run. */
  lemma {:induction false} RunKeeps(clock: int, qs: seq<Query>) returns (origin: seq<nat>)
    requires TimelyRun(clock, qs)
    ensures Inv(Run(clock, qs), origin)
    decreases |qs|
  {
    if qs == [] {
      origin := seq(DNS_CACHE_SIZE, _ => 0);
    } else {
      var before := RunKeeps(clock, qs[..|qs| - 1]);
      origin := StepKeeps(Run(clock, qs[..|qs| - 1]), before, qs[|qs| - 1]);
    }
  }

  // ---- what a client sees ----

  /**
   * After every run, a hit answers with the last response stored for the queried name and type,
   * under the current transaction ID, and no older than sixty seconds.
   */
  lemma HitIsLastStore(clock: int, qs: seq<Query>, q: Query) returns (k: nat)
    requires TimelyRun(clock, qs) && Timely(Run(clock, qs), q)
    requires Step(Run(clock, qs), q).1
    ensures var log := Run(clock, qs).log;
      var reply := Step(Run(clock, qs), q).2;
      && LastFor(log, k) && Asks(log[k].key, q)
      && q.at <= log[k].at + 60 * 1000000
      && reply.Some? && Answers(reply.value, log[k].response, q)
  {
    var s := Run(clock, qs);
    var origin := RunKeeps(clock, qs);
    var i := Find(s.slots, KeyOf(q.qname, q.qtype));
    assert Holds(s.slots, s.log, origin, i);
    k := origin[i];
  }

  /**
   * After every run, a response stored at most sixty seconds ago, the last for its key and with at
   * most nineteen stores behind it, is a hit: a live entry survives nineteen later stores.
   */
  lemma LiveStoreHits(clock: int, qs: seq<Query>, q: Query, k: nat)
    requires TimelyRun(clock, qs) && Timely(Run(clock, qs), q)
    requires LastFor(Run(clock, qs).log, k) && Asks(Run(clock, qs).log[k].key, q)
    requires q.at <= Run(clock, qs).log[k].at + 60 * 1000000 && |Run(clock, qs).log| - k <= 20
    ensures var (next, hit, reply) := Step(Run(clock, qs), q);
      && hit && reply.Some? && Answers(reply.value, Run(clock, qs).log[k].response, q)
      && next.log == Run(clock, qs).log
  {
    AskedKey(Run(clock, qs).log[k].key, q);
    hide Run;
    var s := Run(clock, qs);
    var origin := RunKeeps(clock, qs);
    assert Kept(s.slots, origin, k);
    var i :| 0 <= i < |s.slots| && s.slots[i].valid && origin[i] == k;
    assert Holds(s.slots, s.log, origin, i);
    FindsValid(s, origin, i);
    hide Find, LastFor, Sound, LogFits, Complete, Inv;
    FoundAnswers(s, q, i);
  }

  /** A valid slot is the one that a lookup for its key finds. */
  lemma FindsValid(s: State, origin: seq<nat>, i: nat)
    requires Inv(s, origin) && i < |s.slots| && s.slots[i].valid
    ensures Find(s.slots, s.slots[i].key) == i
  {
    hide Inv;
    var f := Find(s.slots, s.slots[i].key);
    assert Matches(s.slots[i], s.slots[i].key);
    if f != i {
      OneSlotPerKey(s, origin, f, i);
    }
  }

  lemma FoundAnswers(s: State, q: Query, i: nat)
    requires i < |s.slots| && Find(s.slots, KeyOf(q.qname, q.qtype)) == i && q.at <= s.slots[i].expiry
    requires 0 < |s.slots[i].response| <= BUFFER_SIZE
    ensures Step(s, q).1 && Step(s, q).0.log == s.log
    ensures Step(s, q).2.Some? && Answers(Step(s, q).2.value, s.slots[i].response, q)
  {
  }

  lemma AskedKey(key: Key, q: Query)
    ensures Asks(key, q) <==> key == KeyOf(q.qname, q.qtype)
  {
  }

  /**
   * A miss passes the upstream answer on unchanged, and stores one that is not empty under the queried name and type
   * and the time it came; a hit stores nothing. Without an answer there is no reply.
   */
  lemma MissPassesOn(s: State, q: Query)
    requires s.slots != []
    ensures var (next, hit, reply) := Step(s, q);
      && (hit ==> next.log == s.log)
      && (!hit && q.upstream.None? ==> reply == None && next.log == s.log)
      && (!hit && q.upstream.Some? ==>
        && reply == Some(q.upstream.value.response)
        && (q.upstream.value.response == [] ==> next.log == s.log)
        && (q.upstream.value.response != [] ==>
          && |next.log| == |s.log| + 1 && next.log[..|s.log|] == s.log
          && Asks(next.log[|s.log|].key, q) && next.log[|s.log|].response == q.upstream.value.response
          && next.log[|s.log|].at == q.upstream.value.at))
  {
    hide LookupIn, StoreIn, Readdressed;
    AskedKey(KeyOf(q.qname, q.qtype), q);
  }
}
