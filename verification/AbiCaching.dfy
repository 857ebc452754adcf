/**
 The ABI cache: an insertion-ordered map used as a least-recently-used cache with expiry, in front
 of an expiring persistent tier. Each cache method is one step.
 */
module AbiCaching {
  import opened Common

  type Key = string
  type Abi = string

  // ----- keys

  function ContractPrefix(contractId: string): Key {
    "abi:" + contractId + ":"
  }

  /** Both parts are required. */
  function MakeKey(contractId: string, wasmHash: string): Option<Key> {
    if contractId == "" || wasmHash == "" then None else Some(ContractPrefix(contractId) + wasmHash)
  }

  predicate HasPrefix(key: Key, prefix: Key) {
    prefix <= key
  }

  predicate ColonFree(s: string) {
    ':' !in s
  }

  // ----- the memory tier

  /** One entry of the Map, which iterates in insertion order. */
  datatype Slot = Slot(key: Key, value: Abi, expiresAt: nat)

  predicate DistinctKeys(m: seq<Slot>) {
    forall i, j :: 0 <= i < j < |m| ==> m[i].key != m[j].key
  }

  function Find(m: seq<Slot>, k: Key): (r: Option<Slot>)
    ensures r.Some? ==> r.value in m && r.value.key == k
    ensures r.None? ==> forall s :: s in m ==> s.key != k
  {
    if m == [] then None
    else if m[|m| - 1].key == k then Some(m[|m| - 1])
    else Find(m[..|m| - 1], k)
  }

  /** The map without a key, order kept. */
  function Delete(m: seq<Slot>, k: Key): (r: seq<Slot>)
    ensures |r| <= |m|
  {
    if m == [] then []
    else
      var init, last := m[..|m| - 1], m[|m| - 1];
      if last.key == k then Delete(init, k) else Delete(init, k) + [last]
  }

  lemma {:induction false} DeleteContents(m: seq<Slot>, k: Key)
    ensures forall s :: s in Delete(m, k) <==> s in m && s.key != k
  {
    if m != [] {
      var init, last := m[..|m| - 1], m[|m| - 1];
      assert forall s :: s in m <==> s in init || s == last;
      DeleteContents(init, k);
    }
  }

  /** The map without the keys that start with a prefix, order kept. */
  function DeletePrefix(m: seq<Slot>, prefix: Key): (r: seq<Slot>)
    ensures forall s :: s in r <==> s in m && !HasPrefix(s.key, prefix)
    ensures |r| <= |m|
  {
    if m == [] then []
    else
      var init, last := m[..|m| - 1], m[|m| - 1];
      assert forall s :: s in m <==> s in init || s == last;
      if HasPrefix(last.key, prefix) then DeletePrefix(init, prefix) else DeletePrefix(init, prefix) + [last]
  }

  // ----- the cache

  datatype Persisted = Persisted(value: Abi, expiresAt: nat)

  datatype Cache = Cache(
    maxEntries: nat,
    ttl: nat,
    memory: seq<Slot>,
    persistent: bool,
    redis: map<Key, Persisted>)

  /** The newest slots, as many as there is room for. */
  function Newest(m: seq<Slot>, capacity: nat): (r: seq<Slot>)
    ensures |r| <= capacity
  {
    if |m| > capacity then m[|m| - capacity..] else m
  }

  lemma NewestOfRest(m: seq<Slot>, capacity: nat)
    requires |m| > capacity
    ensures Newest(m[1..], capacity) == Newest(m, capacity)
  {
    assert m[1..][|m| - 1 - capacity..] == m[|m| - capacity..];
  }

  function SetMemory(c: Cache, k: Key, v: Abi, now: nat): Cache {
    c.(memory := Newest(Delete(c.memory, k) + [Slot(k, v, now + c.ttl)], c.maxEntries))
  }

  function Get(c: Cache, k: Key, now: nat): (Cache, Option<Abi>) {
    match Find(c.memory, k)
    case None => (c.(memory := Delete(c.memory, k)), None)
    case Some(e) =>
      if e.expiresAt <= now then (c.(memory := Delete(c.memory, k)), None)
      else (c.(memory := Delete(c.memory, k) + [e]), Some(e.value))
  }

  /** The persistent tier drops an entry when its time is up. */
  function Fetch(c: Cache, k: Key, now: nat): Option<Abi> {
    if c.persistent && k in c.redis && now < c.redis[k].expiresAt then Some(c.redis[k].value) else None
  }

  function GetPersistent(c: Cache, k: Key, now: nat): (Cache, Option<Abi>) {
    var (d, hit) := Get(c, k, now);
    if hit.Some? then (d, hit)
    else
      match Fetch(d, k, now)
      case None => (d, None)
      case Some(v) => (SetMemory(d, k, v, now), Some(v))
  }

  function Set(c: Cache, k: Key, v: Abi, now: nat): Cache {
    var d := SetMemory(c, k, v, now);
    if d.persistent then d.(redis := d.redis[k := Persisted(v, now + d.ttl)]) else d
  }

  function Invalidate(c: Cache, k: Key): Cache {
    c.(memory := Delete(c.memory, k), redis := if c.persistent then c.redis - {k} else c.redis)
  }

  function InvalidateContract(c: Cache, contractId: string): Cache {
    var prefix := ContractPrefix(contractId);
    c.(memory := DeletePrefix(c.memory, prefix),
       redis := if c.persistent then map k | k in c.redis && !HasPrefix(k, prefix) :: c.redis[k] else c.redis)
  }

  datatype Event =
    | SetEvent(key: Key, value: Abi, now: nat)
    | GetEvent(key: Key, now: nat)
    | GetPersistentEvent(key: Key, now: nat)
    | InvalidateEvent(key: Key)
    | InvalidateContractEvent(contractId: string)
    | ClearEvent

  function Step(c: Cache, e: Event): Cache {
    match e
    case SetEvent(k, v, now) => Set(c, k, v, now)
    case GetEvent(k, now) => Get(c, k, now).0
    case GetPersistentEvent(k, now) => GetPersistent(c, k, now).0
    case InvalidateEvent(k) => Invalidate(c, k)
    case InvalidateContractEvent(id) => InvalidateContract(c, id)
    case ClearEvent => c.(memory := [])
  }

  function Run(c: Cache, events: seq<Event>): Cache {
    if events == [] then c else Step(Run(c, events[..|events| - 1]), events[|events| - 1])
  }

  function Empty(maxEntries: nat, ttl: nat, persistent: bool): Cache {
    Cache(maxEntries, ttl, [], persistent, map[])
  }

  // ----- the memory tier is a least-recently-used cache

  /** The specification: every key with the moment it was last touched. */
  datatype Stamped = Stamped(value: Abi, expiresAt: nat, touched: nat)

  datatype Lru = Lru(entries: map<Key, Stamped>, clock: nat)

  ghost predicate IsOldest(entries: map<Key, Stamped>, k: Key) {
    k in entries && forall x :: x in entries ==> entries[k].touched <= entries[x].touched
  }

  /** Reading touches a live key and forgets an expired one. */
  ghost function LruGet(l: Lru, k: Key, now: nat): Lru {
    if k in l.entries && now < l.entries[k].expiresAt then
      Lru(l.entries[k := l.entries[k].(touched := l.clock)], l.clock + 1)
    else Lru(l.entries - {k}, l.clock)
  }

  ghost function LruAdd(l: Lru, k: Key, v: Abi, expiresAt: nat): Lru {
    Lru(l.entries[k := Stamped(v, expiresAt, l.clock)], l.clock + 1)
  }

  /** Writing touches the key and, over capacity, evicts a key touched the longest ago. */
  ghost predicate LruPut(l: Lru, k: Key, v: Abi, expiresAt: nat, capacity: nat, l': Lru) {
    LruTrim(LruAdd(l, k, v, expiresAt), capacity, l')
  }

  ghost predicate LruTrim(added: Lru, capacity: nat, l': Lru) {
    if |added.entries| <= capacity then l' == added
    else exists victim :: IsOldest(added.entries, victim) && l' == added.(entries := added.entries - {victim})
  }

  /** The slots are the entries, in the order in which they were last touched. */
  ghost predicate Represents(m: seq<Slot>, l: Lru) {
    && (forall i {:trigger Matches(m[i], l)} :: 0 <= i < |m| ==> Matches(m[i], l))
    && (forall k {:trigger Find(m, k)} :: k in l.entries ==> Find(m, k).Some?)
    && (forall i, j {:trigger TouchedBefore(m[i], m[j], l)} :: 0 <= i < j < |m| ==> TouchedBefore(m[i], m[j], l))
  }

  ghost predicate Matches(s: Slot, l: Lru) {
    && s.key in l.entries
    && l.entries[s.key].value == s.value && l.entries[s.key].expiresAt == s.expiresAt
    && l.entries[s.key].touched < l.clock
  }

  ghost predicate TouchedBefore(a: Slot, b: Slot, l: Lru) {
    a.key in l.entries && b.key in l.entries && l.entries[a.key].touched < l.entries[b.key].touched
  }

  lemma RepresentsDistinct(m: seq<Slot>, l: Lru)
    requires Represents(m, l)
    ensures DistinctKeys(m)
  {
    forall i, j | 0 <= i < j < |m| ensures m[i].key != m[j].key {
      assert TouchedBefore(m[i], m[j], l);
    }
  }

  lemma FindIn(m: seq<Slot>, s: Slot)
    requires s in m
    ensures Find(m, s.key).Some?
  {
  }

  lemma {:induction false} FindDistinct(m: seq<Slot>, i: nat)
    requires DistinctKeys(m) && i < |m|
    ensures Find(m, m[i].key) == Some(m[i])
  {
    if i < |m| - 1 {
      assert m[i].key != m[|m| - 1].key;
      FindDistinct(m[..|m| - 1], i);
    }
  }

  /** The position in the original map of a slot that a deletion kept. */
  lemma {:induction false} DeleteOrder(m: seq<Slot>, k: Key, i: nat, j: nat) returns (a: nat, b: nat)
    requires i < j < |Delete(m, k)|
    ensures a < b < |m| && m[a] == Delete(m, k)[i] && m[b] == Delete(m, k)[j]
  {
    var init, last := m[..|m| - 1], m[|m| - 1];
    var d := Delete(init, k);
    if last.key != k && j == |d| {
      DeleteContents(init, k);
      assert d[i] in init;
      a :| 0 <= a < |init| && init[a] == d[i];
      b := |m| - 1;
    } else {
      a, b := DeleteOrder(init, k, i, j);
    }
  }

  lemma DeleteRepresents(m: seq<Slot>, l: Lru, k: Key)
    requires Represents(m, l)
    ensures Represents(Delete(m, k), l.(entries := l.entries - {k}))
  {
    var d, l' := Delete(m, k), l.(entries := l.entries - {k});
    DeleteContents(m, k);
    forall i | 0 <= i < |d| ensures Matches(d[i], l') {
      assert d[i] in m;
      var a :| 0 <= a < |m| && m[a] == d[i];
      assert Matches(m[a], l);
    }
    forall x | x in l'.entries ensures Find(d, x).Some? {
      assert Find(m, x).Some?;
      FindIn(d, Find(m, x).value);
    }
    forall i, j | 0 <= i < j < |d| ensures TouchedBefore(d[i], d[j], l') {
      var a, b := DeleteOrder(m, k, i, j);
      assert TouchedBefore(m[a], m[b], l);
      assert d[i] in m && d[j] in m;
    }
  }

  lemma AppendRepresents(m: seq<Slot>, l: Lru, s: Slot)
    requires Represents(m, l) && s.key !in l.entries
    ensures Represents(m + [s], LruAdd(l, s.key, s.value, s.expiresAt))
  {
    var m', l' := m + [s], LruAdd(l, s.key, s.value, s.expiresAt);
    forall i | 0 <= i < |m'| ensures Matches(m'[i], l') {
      if i < |m| { assert Matches(m[i], l); }
    }
    forall k | k in l'.entries ensures Find(m', k).Some? {
      if k == s.key { FindIn(m', s); } else { FindIn(m', Find(m, k).value); }
    }
    forall i, j | 0 <= i < j < |m'| ensures TouchedBefore(m'[i], m'[j], l') {
      assert Matches(m[i], l);
      if j < |m| { assert TouchedBefore(m[i], m[j], l); }
    }
  }

  lemma {:induction false} RepresentsSize(m: seq<Slot>, l: Lru)
    requires Represents(m, l)
    ensures |m| == |l.entries|
    decreases |m|
  {
    if m == [] {
      assert forall k :: k in l.entries ==> Find(m, k).Some?;
      assert l.entries == map[];
    } else {
      DropOldestRepresents(m, l);
      RepresentsSize(m[1..], l.(entries := l.entries - {m[0].key}));
    }
  }

  lemma FirstIsOldest(m: seq<Slot>, l: Lru)
    requires Represents(m, l) && m != []
    ensures IsOldest(l.entries, m[0].key)
  {
    assert Matches(m[0], l);
    forall x | x in l.entries ensures l.entries[m[0].key].touched <= l.entries[x].touched {
      var s := Find(m, x).value;
      var i :| 0 <= i < |m| && m[i] == s;
      if i > 0 { assert TouchedBefore(m[0], m[i], l); }
    }
  }

  lemma DropOldestRepresents(m: seq<Slot>, l: Lru)
    requires Represents(m, l) && m != []
    ensures m[0].key in l.entries && |l.entries - {m[0].key}| == |l.entries| - 1
    ensures Represents(m[1..], l.(entries := l.entries - {m[0].key}))
  {
    assert Matches(m[0], l);
    RepresentsDistinct(m, l);
    var t, l' := m[1..], l.(entries := l.entries - {m[0].key});
    forall i | 0 <= i < |t| ensures Matches(t[i], l') {
      assert Matches(m[i + 1], l) && m[0].key != m[i + 1].key;
    }
    forall k | k in l'.entries ensures Find(t, k).Some? {
      var s := Find(m, k).value;
      assert s in m && s != m[0];
      FindIn(t, s);
    }
    forall i, j | 0 <= i < j < |t| ensures TouchedBefore(t[i], t[j], l') {
      assert TouchedBefore(m[i + 1], m[j + 1], l) && m[0].key != m[i + 1].key && m[0].key != m[j + 1].key;
    }
    assert l'.entries.Keys == l.entries.Keys - {m[0].key};
  }

  /** A read returns what the specification holds, and both sides stay in step. */
  lemma GetRefines(c: Cache, l: Lru, k: Key, now: nat)
    requires Represents(c.memory, l)
    ensures Represents(Get(c, k, now).0.memory, LruGet(l, k, now))
    ensures Get(c, k, now).1 ==
            if k in l.entries && now < l.entries[k].expiresAt then Some(l.entries[k].value) else None
  {
    var found := Find(c.memory, k);
    DeleteRepresents(c.memory, l, k);
    if found.Some? {
      FoundMatches(c.memory, l, k);
      ReinsertRepresents(c.memory, l, found.value);
    }
  }

  lemma FoundMatches(m: seq<Slot>, l: Lru, k: Key)
    requires Represents(m, l) && Find(m, k).Some?
    ensures Matches(Find(m, k).value, l)
  {
    var i :| 0 <= i < |m| && m[i] == Find(m, k).value;
    assert Matches(m[i], l);
  }

  /** Deleting and reinserting a key makes it the most recently touched one. */
  lemma ReinsertRepresents(m: seq<Slot>, l: Lru, s: Slot)
    requires Represents(m, l)
    ensures Represents(Delete(m, s.key) + [s], LruAdd(l, s.key, s.value, s.expiresAt))
  {
    var l1 := l.(entries := l.entries - {s.key});
    DeleteRepresents(m, l, s.key);
    AppendRepresents(Delete(m, s.key), l1, s);
    assert LruAdd(l1, s.key, s.value, s.expiresAt) == LruAdd(l, s.key, s.value, s.expiresAt);
  }

  /** A write evicts only a key touched the longest ago, and only when the cache is full. */
  lemma SetMemoryRefines(c: Cache, l: Lru, k: Key, v: Abi, now: nat) returns (l': Lru)
    requires Represents(c.memory, l) && |c.memory| <= c.maxEntries && c.maxEntries >= 1
    ensures LruPut(l, k, v, now + c.ttl, c.maxEntries, l')
    ensures Represents(SetMemory(c, k, v, now).memory, l')
    ensures |SetMemory(c, k, v, now).memory| <= c.maxEntries
  {
    var s := Slot(k, v, now + c.ttl);
    var m := Delete(c.memory, k) + [s];
    ReinsertRepresents(c.memory, l, s);
    l' := Evicted(m, LruAdd(l, k, v, now + c.ttl), c.maxEntries);
  }

  /** At most one key is over capacity, and it is the first in order. */
  lemma Evicted(m: seq<Slot>, added: Lru, capacity: nat) returns (l': Lru)
    requires Represents(m, added) && 1 <= capacity && |m| <= capacity + 1
    ensures LruTrim(added, capacity, l')
    ensures Represents(Newest(m, capacity), l')
  {
    RepresentsSize(m, added);
    l' := added;
    if |m| > capacity {
      FirstIsOldest(m, added);
      DropOldestRepresents(m, added);
      l' := added.(entries := added.entries - {m[0].key});
    }
  }

  /** The key just written is in the cache, and is the last in order. */
  lemma JustWrittenStays(c: Cache, k: Key, v: Abi, now: nat)
    requires c.maxEntries >= 1
    ensures var m := SetMemory(c, k, v, now).memory;
            m != [] && m[|m| - 1] == Slot(k, v, now + c.ttl) && Find(m, k) == Some(m[|m| - 1])
  {
  }

  lemma {:induction false} DeletePrefixOrder(m: seq<Slot>, p: Key, i: nat, j: nat) returns (a: nat, b: nat)
    requires i < j < |DeletePrefix(m, p)|
    ensures a < b < |m| && m[a] == DeletePrefix(m, p)[i] && m[b] == DeletePrefix(m, p)[j]
  {
    var init, last := m[..|m| - 1], m[|m| - 1];
    var d := DeletePrefix(init, p);
    if !HasPrefix(last.key, p) && j == |d| {
      assert d[i] in init;
      a :| 0 <= a < |init| && init[a] == d[i];
      b := |m| - 1;
    } else {
      a, b := DeletePrefixOrder(init, p, i, j);
    }
  }

  ghost function LruDropPrefix(l: Lru, p: Key): Lru {
    l.(entries := map k | k in l.entries && !HasPrefix(k, p) :: l.entries[k])
  }

  lemma DeletePrefixRepresents(m: seq<Slot>, l: Lru, p: Key)
    requires Represents(m, l)
    ensures Represents(DeletePrefix(m, p), LruDropPrefix(l, p))
  {
    var d, l' := DeletePrefix(m, p), LruDropPrefix(l, p);
    forall i | 0 <= i < |d| ensures Matches(d[i], l') {
      assert d[i] in m;
      var a :| 0 <= a < |m| && m[a] == d[i];
      assert Matches(m[a], l);
    }
    forall x | x in l'.entries ensures Find(d, x).Some? {
      FindIn(d, Find(m, x).value);
    }
    forall i, j | 0 <= i < j < |d| ensures TouchedBefore(d[i], d[j], l') {
      var a, b := DeletePrefixOrder(m, p, i, j);
      assert TouchedBefore(m[a], m[b], l);
      assert d[i] in m && d[j] in m;
    }
  }

  /** One step of the least-recently-used specification, with what the persistent tier supplied. */
  ghost predicate LruStep(c: Cache, l: Lru, e: Event, l': Lru) {
    match e
    case SetEvent(k, v, now) => LruPut(l, k, v, now + c.ttl, c.maxEntries, l')
    case GetEvent(k, now) => l' == LruGet(l, k, now)
    case GetPersistentEvent(k, now) =>
      var read := LruGet(l, k, now);
      if Get(c, k, now).1.None? && Fetch(c, k, now).Some? then
        LruPut(read, k, Fetch(c, k, now).value, now + c.ttl, c.maxEntries, l')
      else l' == read
    case InvalidateEvent(k) => l' == l.(entries := l.entries - {k})
    case InvalidateContractEvent(id) => l' == LruDropPrefix(l, ContractPrefix(id))
    case ClearEvent => l' == l.(entries := map[])
  }

  lemma GetShrinks(c: Cache, k: Key, now: nat)
    ensures |Get(c, k, now).0.memory| <= |c.memory|
  {
    if Find(c.memory, k).Some? {
      var e := Find(c.memory, k).value;
      DeleteShrinks(c.memory, k, e);
    }
  }

  lemma {:induction false} DeleteShrinks(m: seq<Slot>, k: Key, e: Slot)
    requires e in m && e.key == k
    ensures |Delete(m, k)| < |m|
  {
    var init, last := m[..|m| - 1], m[|m| - 1];
    if last.key != k {
      assert e in init;
      DeleteShrinks(init, k, e);
    }
  }

  lemma GetPersistentRefines(c: Cache, l: Lru, k: Key, now: nat) returns (l': Lru)
    requires Represents(c.memory, l) && |c.memory| <= c.maxEntries && c.maxEntries >= 1
    ensures LruStep(c, l, GetPersistentEvent(k, now), l')
    ensures Represents(GetPersistent(c, k, now).0.memory, l') && |GetPersistent(c, k, now).0.memory| <= c.maxEntries
  {
    var (d, hit) := Get(c, k, now);
    GetRefines(c, l, k, now);
    GetShrinks(c, k, now);
    l' := LruGet(l, k, now);
    assert Fetch(d, k, now) == Fetch(c, k, now);
    if hit.None? && Fetch(c, k, now).Some? {
      l' := SetMemoryRefines(d, l', k, Fetch(c, k, now).value, now);
    } else {
      assert GetPersistent(c, k, now).0 == d;
    }
  }

  lemma StepRefinesLru(c: Cache, l: Lru, e: Event) returns (l': Lru)
    requires Represents(c.memory, l) && |c.memory| <= c.maxEntries && c.maxEntries >= 1
    ensures LruStep(c, l, e, l') && Represents(Step(c, e).memory, l') && |Step(c, e).memory| <= c.maxEntries
  {
    match e
    case SetEvent(k, v, now) => l' := SetMemoryRefines(c, l, k, v, now);
    case GetEvent(k, now) =>
      GetRefines(c, l, k, now);
      GetShrinks(c, k, now);
      l' := LruGet(l, k, now);
    case GetPersistentEvent(k, now) => l' := GetPersistentRefines(c, l, k, now);
    case InvalidateEvent(k) =>
      DeleteRepresents(c.memory, l, k);
      l' := l.(entries := l.entries - {k});
    case InvalidateContractEvent(id) =>
      DeletePrefixRepresents(c.memory, l, ContractPrefix(id));
      l' := LruDropPrefix(l, ContractPrefix(id));
    case ClearEvent =>
      l' := l.(entries := map[]);
  }

  /** The specification can reach this state along the events of the cache. */
  ghost predicate LruReaches(c: Cache, events: seq<Event>, l: Lru) {
    if events == [] then l == Lru(map[], 0)
    else
      var init, last := events[..|events| - 1], events[|events| - 1];
      exists before :: LruReaches(c, init, before) && LruStep(Run(c, init), before, last, l)
  }

  /** Every run of the cache is a run of the timestamped specification, within capacity throughout. */
  lemma {:induction false} RunRefinesLru(c: Cache, events: seq<Event>) returns (l: Lru)
    requires c.memory == [] && c.maxEntries >= 1
    ensures LruReaches(c, events, l) && Represents(Run(c, events).memory, l)
    ensures |Run(c, events).memory| <= c.maxEntries && Run(c, events).maxEntries == c.maxEntries
  {
    if events == [] {
      l := Lru(map[], 0);
    } else {
      var init := events[..|events| - 1];
      var before := RunRefinesLru(c, init);
      l := StepRefinesLru(Run(c, init), before, events[|events| - 1]);
    }
  }

  // ----- what is served

  /** The latest value set for each key and not invalidated since, with the time it was set. */
  datatype Written = Written(value: Abi, at: nat)

  type Truth = map<Key, Written>

  function TruthStep(t: Truth, e: Event): Truth {
    match e
    case SetEvent(k, v, now) => t[k := Written(v, now)]
    case InvalidateEvent(k) => t - {k}
    case InvalidateContractEvent(id) => map k | k in t && !HasPrefix(k, ContractPrefix(id)) :: t[k]
    case _ => t
  }

  function TruthRun(events: seq<Event>): Truth {
    if events == [] then map[] else TruthStep(TruthRun(events[..|events| - 1]), events[|events| - 1])
  }

  predicate SlotTrue(c: Cache, t: Truth, s: Slot) {
    && s.key in t && s.value == t[s.key].value
    && s.expiresAt <= t[s.key].at + (if c.persistent then 2 * c.ttl else c.ttl)
  }

  predicate PersistedTrue(c: Cache, t: Truth, k: Key)
    requires k in c.redis
  {
    k in t && c.redis[k].value == t[k].value && c.redis[k].expiresAt == t[k].at + c.ttl
  }

  /** Both tiers hold only latest values; promotion restarts the memory clock but not the persistent one. */
  predicate Truthful(c: Cache, t: Truth) {
    && (forall s :: s in c.memory ==> SlotTrue(c, t, s))
    && (forall k :: k in c.redis ==> PersistedTrue(c, t, k))
  }

  lemma PromotionTruthful(c: Cache, t: Truth, k: Key, now: nat)
    requires Truthful(c, t) && Fetch(c, k, now).Some?
    ensures Truthful(SetMemory(c, k, Fetch(c, k, now).value, now), t)
  {
    assert PersistedTrue(c, t, k);
    var d := SetMemory(c, k, Fetch(c, k, now).value, now);
    DeleteContents(c.memory, k);
    forall s | s in d.memory ensures SlotTrue(d, t, s) {
      if s in c.memory { assert SlotTrue(c, t, s); }
    }
    forall x | x in d.redis ensures PersistedTrue(d, t, x) { assert PersistedTrue(c, t, x); }
  }

  lemma GetTruthful(c: Cache, t: Truth, k: Key, now: nat)
    requires Truthful(c, t)
    ensures Truthful(Get(c, k, now).0, t)
  {
    var d := Get(c, k, now).0;
    DeleteContents(c.memory, k);
    forall s | s in d.memory ensures SlotTrue(d, t, s) { assert s in c.memory && SlotTrue(c, t, s); }
    forall x | x in d.redis ensures PersistedTrue(d, t, x) { assert PersistedTrue(c, t, x); }
  }

  lemma SetTruthful(c: Cache, t: Truth, k: Key, v: Abi, now: nat)
    requires Truthful(c, t) && (c.persistent || c.redis == map[])
    ensures Truthful(Set(c, k, v, now), t[k := Written(v, now)])
  {
    var d, t' := Set(c, k, v, now), t[k := Written(v, now)];
    DeleteContents(c.memory, k);
    forall s | s in d.memory ensures SlotTrue(d, t', s) {
      if s.key != k { assert s in c.memory && SlotTrue(c, t, s); }
    }
    forall x | x in d.redis ensures PersistedTrue(d, t', x) {
      if x != k { assert PersistedTrue(c, t, x); }
    }
  }

  lemma StepTruthful(c: Cache, t: Truth, e: Event)
    requires Truthful(c, t) && (c.persistent || c.redis == map[])
    ensures Truthful(Step(c, e), TruthStep(t, e))
  {
    var d, t' := Step(c, e), TruthStep(t, e);
    match e
    case SetEvent(k, v, now) => SetTruthful(c, t, k, v, now);
    case GetEvent(k, now) => GetTruthful(c, t, k, now);
    case GetPersistentEvent(k, now) =>
      GetTruthful(c, t, k, now);
      if Get(c, k, now).1.None? && Fetch(c, k, now).Some? { PromotionTruthful(Get(c, k, now).0, t, k, now); }
    case InvalidateEvent(k) =>
      DeleteContents(c.memory, k);
      forall s | s in d.memory ensures SlotTrue(d, t', s) { assert SlotTrue(c, t, s); }
      forall x | x in d.redis ensures PersistedTrue(d, t', x) { assert PersistedTrue(c, t, x); }
    case InvalidateContractEvent(id) =>
      forall s | s in d.memory ensures SlotTrue(d, t', s) { assert SlotTrue(c, t, s); }
      forall x | x in d.redis ensures PersistedTrue(d, t', x) { assert PersistedTrue(c, t, x); }
    case ClearEvent =>
      forall x | x in d.redis ensures PersistedTrue(d, t', x) { assert PersistedTrue(c, t, x); }
  }

  lemma {:induction false} RunTruthful(maxEntries: nat, ttl: nat, persistent: bool, events: seq<Event>)
    ensures var c := Run(Empty(maxEntries, ttl, persistent), events);
            && Truthful(c, TruthRun(events))
            && c.ttl == ttl && c.persistent == persistent && (persistent || c.redis == map[])
  {
    if events != [] {
      var init := events[..|events| - 1];
      RunTruthful(maxEntries, ttl, persistent, init);
      var c := Run(Empty(maxEntries, ttl, persistent), init);
      StepTruthful(c, TruthRun(init), events[|events| - 1]);
      StepKeepsSettings(c, events[|events| - 1]);
    }
  }

  lemma StepKeepsSettings(c: Cache, e: Event)
    requires c.persistent || c.redis == map[]
    ensures var d := Step(c, e);
            d.ttl == c.ttl && d.persistent == c.persistent && (d.persistent || d.redis == map[])
  {
  }

  /**
   Whatever either read serves, after any run, is the latest value set for the key and not
   invalidated since; it was set less than one lifetime ago without the persistent tier, and less
   than two lifetimes ago with it.
   */
  lemma ServedValueIsLatest(maxEntries: nat, ttl: nat, persistent: bool, events: seq<Event>, k: Key, now: nat)
    ensures var c, t := Run(Empty(maxEntries, ttl, persistent), events), TruthRun(events);
            && (Get(c, k, now).1.Some? ==> FreshIn(t, k, Get(c, k, now).1.value, now, if persistent then 2 * ttl else ttl))
            && (GetPersistent(c, k, now).1.Some? ==>
                  FreshIn(t, k, GetPersistent(c, k, now).1.value, now, if persistent then 2 * ttl else ttl))
  {
    var c, t := Run(Empty(maxEntries, ttl, persistent), events), TruthRun(events);
    RunTruthful(maxEntries, ttl, persistent, events);
    ServedFresh(c, t, k, now);
  }

  /** v is the latest value of k and is younger than `age`. */
  predicate FreshIn(t: Truth, k: Key, v: Abi, now: nat, age: nat) {
    k in t && v == t[k].value && now < t[k].at + age
  }

  lemma ServedFresh(c: Cache, t: Truth, k: Key, now: nat)
    requires Truthful(c, t) && (c.persistent || c.redis == map[])
    ensures var age := if c.persistent then 2 * c.ttl else c.ttl;
            && (Get(c, k, now).1.Some? ==> FreshIn(t, k, Get(c, k, now).1.value, now, age))
            && (GetPersistent(c, k, now).1.Some? ==> FreshIn(t, k, GetPersistent(c, k, now).1.value, now, age))
  {
    if Find(c.memory, k).Some? { assert SlotTrue(c, t, Find(c.memory, k).value); }
    if k in c.redis { assert PersistedTrue(c, t, k); }
  }

  lemma StepPersists(c: Cache, t: Truth, e: Event)
    requires c.persistent && c.redis.Keys == t.Keys
    ensures Step(c, e).persistent && Step(c, e).redis.Keys == TruthStep(t, e).Keys
  {
  }

  /** The persistent tier holds exactly the keys set and not invalidated since, each with its latest value and expiry. */
  lemma PersistentTierIsExact(maxEntries: nat, ttl: nat, events: seq<Event>)
    ensures var c, t := Run(Empty(maxEntries, ttl, true), events), TruthRun(events);
            && c.persistent && c.ttl == ttl && c.redis.Keys == t.Keys
            && forall k :: k in t ==> k in c.redis && c.redis[k] == Persisted(t[k].value, t[k].at + ttl)
  {
    PersistentKeys(maxEntries, ttl, events);
    RunTruthful(maxEntries, ttl, true, events);
    var c, t := Run(Empty(maxEntries, ttl, true), events), TruthRun(events);
    forall k | k in t ensures k in c.redis && c.redis[k] == Persisted(t[k].value, t[k].at + ttl) {
      assert k in c.redis.Keys;
      assert PersistedTrue(c, t, k);
    }
  }

  lemma {:induction false} PersistentKeys(maxEntries: nat, ttl: nat, events: seq<Event>)
    ensures var c := Run(Empty(maxEntries, ttl, true), events); c.persistent && c.redis.Keys == TruthRun(events).Keys
  {
    if events != [] {
      var init := events[..|events| - 1];
      PersistentKeys(maxEntries, ttl, init);
      StepPersists(Run(Empty(maxEntries, ttl, true), init), TruthRun(init), events[|events| - 1]);
    }
  }

  /**
   Retention: with the persistent tier a value set less than one lifetime ago and not invalidated since
   is served after every run, however much was written and evicted in between.
   */
  lemma LatestValueIsServed(maxEntries: nat, ttl: nat, events: seq<Event>, k: Key, now: nat)
    requires k in TruthRun(events) && now < TruthRun(events)[k].at + ttl
    ensures GetPersistent(Run(Empty(maxEntries, ttl, true), events), k, now).1 == Some(TruthRun(events)[k].value)
  {
    var c := Run(Empty(maxEntries, ttl, true), events);
    PersistentTierIsExact(maxEntries, ttl, events);
    ServedValueIsLatest(maxEntries, ttl, true, events, k, now);
    GetKeepsPersisted(c, k, now);
  }

  /** Reading memory leaves the persistent tier alone, and a live persisted value is served. */
  lemma GetKeepsPersisted(c: Cache, k: Key, now: nat)
    ensures Fetch(Get(c, k, now).0, k, now) == Fetch(c, k, now)
    ensures Fetch(c, k, now).Some? ==> GetPersistent(c, k, now).1.Some?
  {
  }

  /** The bound is approached: a value promoted just before it lapses is served at age 2 * ttl - 2. */
  lemma PromotionRestartsTheClock(ttl: nat, a: Key, b: Key, v: Abi, w: Abi)
    requires ttl >= 2 && a != b
    ensures var c0 := Set(Set(Empty(1, ttl, true), a, v, 0), b, w, 0);
            var c1 := GetPersistent(c0, a, ttl - 1).0;
            Get(c1, a, 2 * ttl - 2).1 == Some(v)
  {
    var s0 := Set(Empty(1, ttl, true), a, v, 0);
    var c0 := Set(s0, b, w, 0);
    OneSlot(s0, b, w, 0);
    assert c0.redis[a] == Persisted(v, ttl);
    PromotedIsServed(c0, a, ttl - 1, 2 * ttl - 2);
  }

  /** With a single slot, a write leaves nothing but itself in memory. */
  lemma OneSlot(c: Cache, k: Key, v: Abi, now: nat)
    requires c.maxEntries == 1
    ensures Set(c, k, v, now).memory == [Slot(k, v, now + c.ttl)]
  {
  }

  /** A value fetched from the persistent tier is served from memory for a whole further lifetime. */
  lemma PromotedIsServed(c: Cache, k: Key, now: nat, later: nat)
    requires c.maxEntries >= 1 && Find(c.memory, k).None? && Fetch(c, k, now).Some? && later < now + c.ttl
    ensures Get(GetPersistent(c, k, now).0, k, later).1 == Fetch(c, k, now)
  {
    JustWrittenStays(Get(c, k, now).0, k, Fetch(c, k, now).value, now);
  }

  // ----- the keys of a contract

  /** b is a itself, or a continued by a colon and more. */
  predicate Covers(a: string, b: string) {
    a == b || a + ":" <= b
  }

  /** Prefixes are compared part by part. */
  lemma PrefixByParts(p: string, x: string, q: string, y: string)
    requires |p| == |q|
    ensures p + x <= q + y <==> p == q && x <= y
  {
    assert forall i :: 0 <= i < |p| ==> (p + x)[i] == p[i] && (q + y)[i] == q[i];
    assert forall i :: 0 <= i < |x| ==> (p + x)[|p| + i] == x[i];
    assert forall i :: 0 <= i < |y| ==> (q + y)[|q| + i] == y[i];
    if p + x <= q + y {
      assert forall i :: 0 <= i < |p + x| ==> (p + x)[i] == (q + y)[i];
    }
  }

  /** A colon that ends a prefix lies in the id, closes it, or lies in the hash. */
  lemma ColonPlaces(a: string, b: string, hash: string)
    ensures a + ":" <= b + ":" + hash <==> Covers(a, b) || (b + ":" <= a && a[|b| + 1..] + ":" <= hash)
  {
    var x, y := a + ":", b + ":" + hash;
    if |a| < |b| {
      var q, z := b[..|x|], b[|x|..];
      assert y == q + (z + ":" + hash) && b == q + z && x == x + [];
      PrefixByParts(x, [], q, z + ":" + hash);
      PrefixByParts(x, [], q, z);
    } else if |a| == |b| {
      assert y == b + (":" + hash);
      PrefixByParts(a, ":", b, ":" + hash);
    } else {
      var p, z := a[..|b| + 1], a[|b| + 1..];
      assert x == p + (z + ":") && a == p + z && b + ":" == b + ":" + [];
      PrefixByParts(p, z + ":", b + ":", hash);
      PrefixByParts(b + ":", [], p, z);
    }
  }

  /** Which keys a contract's prefix matches, for all ids and hashes. */
  lemma PrefixMatchesIff(a: string, b: string, hash: string)
    ensures HasPrefix(ContractPrefix(b) + hash, ContractPrefix(a)) <==>
            Covers(a, b) || (b + ":" <= a && a[|b| + 1..] + ":" <= hash)
    ensures ColonFree(hash) ==> (HasPrefix(ContractPrefix(b) + hash, ContractPrefix(a)) <==> Covers(a, b))
  {
    assert ContractPrefix(a) == "abi:" + (a + ":") && ContractPrefix(b) + hash == "abi:" + (b + ":" + hash);
    PrefixByParts("abi:", a + ":", "abi:", b + ":" + hash);
    ColonPlaces(a, b, hash);
    if b + ":" <= a && a[|b| + 1..] + ":" <= hash {
      assert hash[|a[|b| + 1..]|] == ':';
    }
  }

  /** With colon-free ids a contract's prefix matches the keys of that contract and no other. */
  lemma PrefixIdentifiesContract(a: string, b: string, hash: string)
    requires ColonFree(a) && ColonFree(b)
    ensures HasPrefix(ContractPrefix(b) + hash, ContractPrefix(a)) <==> a == b
  {
    PrefixMatchesIff(a, b, hash);
    ColonInside(a, b);
    ColonInside(b, a);
  }

  lemma ColonInside(a: string, b: string)
    ensures a + ":" <= b ==> !ColonFree(b)
  {
    if a + ":" <= b {
      assert b[|a|] == ':';
    }
  }

  /** Invalidating a contract clears from both tiers the keys of the contracts its id covers, and no others. */
  lemma InvalidateContractExact(c: Cache, id: string, other: string, hash: string)
    requires ColonFree(hash)
    ensures var key, d := ContractPrefix(other) + hash, InvalidateContract(c, id);
            && (forall s :: s in c.memory && s.key == key ==> (s in d.memory <==> !Covers(id, other)))
            && (c.persistent && key in c.redis ==> (key in d.redis <==> !Covers(id, other)))
  {
    PrefixMatchesIff(id, other, hash);
  }

  /** Invalidating a spares every key of b, whatever the hash. */
  ghost predicate Spares(a: string, b: string) {
    forall hash :: !HasPrefix(ContractPrefix(b) + hash, ContractPrefix(a))
  }

  /** One contract's invalidation spares another's keys exactly if neither id continues the other after a colon. */
  lemma SparesIff(a: string, b: string)
    ensures Spares(a, b) <==> !Covers(a, b) && !Covers(b, a)
  {
    if !Covers(a, b) && !Covers(b, a) {
      forall hash ensures !HasPrefix(ContractPrefix(b) + hash, ContractPrefix(a)) {
        PrefixMatchesIff(a, b, hash);
      }
    } else if Covers(a, b) {
      PrefixMatchesIff(a, b, "");
    } else {
      PrefixMatchesIff(a, b, a[|b| + 1..] + ":");
    }
  }

  /** Two pairs whose ids, or whose hashes, are free of colons have different keys. */
  lemma KeysAreInjective(a: string, g: string, b: string, h: string)
    requires MakeKey(a, g).Some? && MakeKey(a, g) == MakeKey(b, h)
    requires (ColonFree(a) && ColonFree(b)) || (ColonFree(g) && ColonFree(h))
    ensures a == b && g == h
  {
    var key := ContractPrefix(a) + g;
    assert key == ContractPrefix(b) + h;
    PrefixMatchesIff(a, b, h);
    PrefixMatchesIff(b, a, g);
    if ColonFree(a) && ColonFree(b) {
      PrefixIdentifiesContract(a, b, h);
    }
    assert key[|ContractPrefix(a)|..] == g;
    assert (ContractPrefix(b) + h)[|ContractPrefix(b)|..] == h;
  }

  // ----- the cache object

  class AbiCache {
    const maxEntries: nat
    const ttl: nat
    const persistent: bool
    var memory: seq<Slot>
    var redis: map<Key, Persisted>

    function View(): Cache
      reads this
    {
      Cache(maxEntries, ttl, memory, persistent, redis)
    }

    constructor (maxEntries: nat, ttl: nat, persistent: bool)
      ensures View() == Empty(maxEntries, ttl, persistent)
    {
      this.maxEntries, this.ttl, this.persistent := maxEntries, ttl, persistent;
      memory, redis := [], map[];
    }

    method ReadMemory(k: Key, now: nat) returns (r: Option<Abi>)
      modifies this`memory
      ensures (View(), r) == Get(old(View()), k, now)
    {
      var entry := Find(memory, k);
      if entry.None? || entry.value.expiresAt <= now {
        memory := Delete(memory, k);
        return None;
      }
      memory := Delete(memory, k);
      memory := memory + [entry.value];
      return Some(entry.value.value);
    }

    /** Delete, reinsert, then evict from the front while over capacity. */
    method WriteMemory(k: Key, v: Abi, now: nat)
      modifies this`memory
      ensures View() == SetMemory(old(View()), k, v, now)
    {
      memory := Delete(memory, k);
      memory := memory + [Slot(k, v, now + ttl)];
      ghost var full := memory;
      while |memory| > maxEntries
        invariant Newest(memory, maxEntries) == Newest(full, maxEntries)
      {
        NewestOfRest(memory, maxEntries);
        memory := memory[1..];
      }
    }

    method Read(k: Key, now: nat) returns (r: Option<Abi>)
      modifies this
      ensures (View(), r) == GetPersistent(old(View()), k, now)
    {
      r := ReadMemory(k, now);
      if r.Some? {
        return;
      }
      r := Fetch(View(), k, now);
      if r.Some? {
        WriteMemory(k, r.value, now);
      }
    }

    method Write(k: Key, v: Abi, now: nat)
      modifies this
      ensures View() == Set(old(View()), k, v, now)
    {
      WriteMemory(k, v, now);
      if persistent {
        redis := redis[k := Persisted(v, now + ttl)];
      }
    }

    method Forget(k: Key)
      modifies this
      ensures View() == Invalidate(old(View()), k)
    {
      memory := Delete(memory, k);
      if persistent {
        redis := redis - {k};
      }
    }

    /** One pass over the keys, deleting the matching ones. */
    method ForgetContract(contractId: string)
      modifies this
      ensures View() == InvalidateContract(old(View()), contractId)
    {
      var prefix := ContractPrefix(contractId);
      var slots := memory;
      var kept: seq<Slot> := [];
      assert slots[..0] == [];
      for i := 0 to |slots|
        invariant kept == DeletePrefix(slots[..i], prefix)
      {
        assert slots[..i + 1][..i] == slots[..i];
        if !HasPrefix(slots[i].key, prefix) {
          kept := kept + [slots[i]];
        }
      }
      assert slots[..|slots|] == slots;
      memory := kept;
      if persistent {
        redis := map k | k in redis && !HasPrefix(k, prefix) :: redis[k];
      }
    }
  }
}
