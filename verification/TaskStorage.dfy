/**
 Normalised task storage: split meta/payload/stats records with fallback reads from a monolithic
 legacy record that is dual-written, can go stale, and is migrated on upgrade.
 */
module TaskStorage {
  import opened Common

  type Address = string
  type TaskId = nat

  const U64_MAX: nat := 0xFFFF_FFFF_FFFF_FFFF
  const STORAGE_SCHEMA_VERSION: nat := 2

  datatype TaskConfig = TaskConfig(
    creator: Address, target: Address, function_: string, args: seq<string>, resolver: Option<Address>,
    interval: nat, lastRun: nat, gasBalance: int, whitelist: seq<Address>, isActive: bool,
    blockedBy: seq<TaskId>, yieldStrategy: Option<nat>, permissions: nat)

  datatype TaskMeta = TaskMeta(
    creator: Address, interval: nat, lastRun: nat, gasBalance: int, isActive: bool,
    blockedBy: seq<TaskId>, resolver: Option<Address>, whitelist: seq<Address>,
    yieldStrategy: Option<nat>, permissions: nat)

  datatype TaskPayload = TaskPayload(target: Address, function_: string, args: seq<string>)

  datatype TaskStats = TaskStats(runCount: nat, failureCount: nat, lastLedger: nat)

  const NO_STATS := TaskStats(0, 0, 0)

  /** The persistent keys Task, TaskMeta, TaskPayload, TaskStats and Counter, and the schema version. */
  datatype Store = Store(
    legacy: map<TaskId, TaskConfig>,
    meta: map<TaskId, TaskMeta>,
    payload: map<TaskId, TaskPayload>,
    stats: map<TaskId, TaskStats>,
    counter: nat,
    schemaVersion: nat)

  function SaturatingAdd(a: nat, b: nat): nat {
    if a + b > U64_MAX then U64_MAX else a + b
  }

  function MetaOf(c: TaskConfig): TaskMeta {
    TaskMeta(c.creator, c.interval, c.lastRun, c.gasBalance, c.isActive, c.blockedBy, c.resolver,
             c.whitelist, c.yieldStrategy, c.permissions)
  }

  function PayloadOf(c: TaskConfig): TaskPayload {
    TaskPayload(c.target, c.function_, c.args)
  }

  function Join(m: TaskMeta, p: TaskPayload): TaskConfig {
    TaskConfig(m.creator, p.target, p.function_, p.args, m.resolver, m.interval, m.lastRun, m.gasBalance,
               m.whitelist, m.isActive, m.blockedBy, m.yieldStrategy, m.permissions)
  }

  // ----- reads

  function Lookup<V>(m: map<TaskId, V>, id: TaskId): Option<V> {
    if id in m then Some(m[id]) else None
  }

  function LoadMeta(s: Store, id: TaskId): Option<TaskMeta> {
    if id in s.meta then Some(s.meta[id])
    else if id in s.legacy then Some(MetaOf(s.legacy[id]))
    else None
  }

  function LoadPayload(s: Store, id: TaskId): Option<TaskPayload> {
    if id in s.payload then Some(s.payload[id])
    else if id in s.legacy then Some(PayloadOf(s.legacy[id]))
    else None
  }

  function LoadStats(s: Store, id: TaskId): TaskStats {
    if id in s.stats then s.stats[id] else NO_STATS
  }

  function LoadConfig(s: Store, id: TaskId): Option<TaskConfig> {
    match LoadMeta(s, id)
    case None => None
    case Some(m) =>
      match LoadPayload(s, id)
      case None => None
      case Some(p) => Some(Join(m, p))
  }

  predicate TaskExists(s: Store, id: TaskId) {
    id in s.meta || id in s.legacy
  }

  predicate CheckTaskReady(s: Store, id: TaskId, now: nat) {
    match LoadMeta(s, id)
    case None => false
    case Some(m) => m.isActive && now >= SaturatingAdd(m.lastRun, m.interval)
  }

  /** The parent list the dependency validator reads. */
  function BlockedBy(s: Store, id: TaskId): seq<TaskId> {
    match LoadMeta(s, id)
    case Some(m) => m.blockedBy
    case None => if id in s.legacy then s.legacy[id].blockedBy else []
  }

  // ----- writes

  datatype Op =
    | Save(id: TaskId, config: TaskConfig)
    | UpdateMeta(id: TaskId, f: TaskMeta -> TaskMeta)
    | RecordRun(id: TaskId, lastRun: nat, ledger: nat)
    | Remove(id: TaskId)
    | Migrate

  function SaveSplit(s: Store, id: TaskId, c: TaskConfig): Store {
    s.(meta := s.meta[id := MetaOf(c)],
       payload := s.payload[id := PayloadOf(c)],
       stats := if id in s.stats then s.stats else s.stats[id := NO_STATS],
       legacy := s.legacy[id := c])
  }

  function MetaUpdated(s: Store, id: TaskId, f: TaskMeta -> TaskMeta): Store {
    match LoadMeta(s, id)
    case None => s
    case Some(m) => s.(meta := s.meta[id := f(m)])
  }

  function CountedRun(t: TaskStats, ledger: nat): TaskStats {
    t.(runCount := SaturatingAdd(t.runCount, 1), lastLedger := ledger)
  }

  function RunRecorded(s: Store, id: TaskId, lastRun: nat, ledger: nat): Store {
    MetaUpdated(s.(stats := s.stats[id := CountedRun(LoadStats(s, id), ledger)]), id,
                (m: TaskMeta) => m.(lastRun := lastRun))
  }

  function Removed(s: Store, id: TaskId): Store {
    s.(legacy := s.legacy - {id}, meta := s.meta - {id}, payload := s.payload - {id}, stats := s.stats - {id})
  }

  function MigrateOne(s: Store, id: TaskId): Store {
    if id in s.legacy && id !in s.meta then SaveSplit(s, id, s.legacy[id]) else s
  }

  /** The migration loop up to and including id n. */
  function MigrateUpTo(s: Store, n: nat): Store {
    if n == 0 then s else MigrateOne(MigrateUpTo(s, n - 1), n)
  }

  function Migrated(s: Store): Store {
    MigrateUpTo(s, s.counter).(schemaVersion := STORAGE_SCHEMA_VERSION)
  }

  function Apply(s: Store, op: Op): Store {
    match op
    case Save(id, c) => SaveSplit(s, id, c)
    case UpdateMeta(id, f) => MetaUpdated(s, id, f)
    case RecordRun(id, lastRun, ledger) => RunRecorded(s, id, lastRun, ledger)
    case Remove(id) => Removed(s, id)
    case Migrate => Migrated(s)
  }

  function Run(s: Store, ops: seq<Op>): Store {
    if ops == [] then s else Apply(Run(s, ops[..|ops| - 1]), ops[|ops| - 1])
  }

  // ----- the specification: two plain maps

  datatype Spec = Spec(configs: map<TaskId, TaskConfig>, stats: map<TaskId, TaskStats>)

  function SpecStats(t: Spec, id: TaskId): TaskStats {
    if id in t.stats then t.stats[id] else NO_STATS
  }

  function SpecModify(t: Spec, id: TaskId, f: TaskMeta -> TaskMeta): Spec {
    if id in t.configs then t.(configs := t.configs[id := Join(f(MetaOf(t.configs[id])), PayloadOf(t.configs[id]))])
    else t
  }

  function SpecApply(t: Spec, op: Op): Spec {
    match op
    case Save(id, c) => t.(configs := t.configs[id := c])
    case UpdateMeta(id, f) => SpecModify(t, id, f)
    case RecordRun(id, lastRun, ledger) =>
      SpecModify(t.(stats := t.stats[id := CountedRun(SpecStats(t, id), ledger)]), id,
                 (m: TaskMeta) => m.(lastRun := lastRun))
    case Remove(id) => t.(configs := t.configs - {id}, stats := t.stats - {id})
    case Migrate => t
  }

  function SpecRun(t: Spec, ops: seq<Op>): Spec {
    if ops == [] then t else SpecApply(SpecRun(t, ops[..|ops| - 1]), ops[|ops| - 1])
  }

  /** A payload record comes with a meta record, and a meta record with a payload to go with it. */
  predicate Consistent(s: Store) {
    && (forall id :: id in s.payload ==> id in s.meta)
    && (forall id :: id in s.meta ==> id in s.payload || id in s.legacy)
  }

  ghost predicate Refines(s: Store, t: Spec) {
    && Consistent(s)
    && (forall id {:trigger LoadConfig(s, id)} :: LoadConfig(s, id) == Lookup(t.configs, id))
    && (forall id {:trigger LoadStats(s, id)} :: LoadStats(s, id) == SpecStats(t, id))
  }

  predicate LegacyOnly(s: Store) {
    s.meta == map[] && s.payload == map[]
  }

  // ----- refinement

  lemma JoinInverse(c: TaskConfig)
    ensures Join(MetaOf(c), PayloadOf(c)) == c
  {
  }

  lemma SaveRefines(s: Store, t: Spec, id: TaskId, c: TaskConfig)
    requires Refines(s, t)
    ensures Refines(SaveSplit(s, id, c), t.(configs := t.configs[id := c]))
  {
    var s', t' := SaveSplit(s, id, c), t.(configs := t.configs[id := c]);
    forall x ensures LoadConfig(s', x) == Lookup(t'.configs, x) {
      assert LoadConfig(s, x) == Lookup(t.configs, x);
    }
    forall x ensures LoadStats(s', x) == SpecStats(t', x) { assert LoadStats(s, x) == SpecStats(t, x); }
  }

  lemma ModifyRefines(s: Store, t: Spec, id: TaskId, f: TaskMeta -> TaskMeta)
    requires Refines(s, t)
    ensures Refines(MetaUpdated(s, id, f), SpecModify(t, id, f))
  {
    var s', t' := MetaUpdated(s, id, f), SpecModify(t, id, f);
    assert LoadConfig(s, id) == Lookup(t.configs, id);
    forall x ensures LoadConfig(s', x) == Lookup(t'.configs, x) {
      assert LoadConfig(s, x) == Lookup(t.configs, x);
    }
    forall x ensures LoadStats(s', x) == SpecStats(t', x) { assert LoadStats(s, x) == SpecStats(t, x); }
  }

  lemma StatsRefines(s: Store, t: Spec, id: TaskId, ledger: nat)
    requires Refines(s, t)
    ensures Refines(s.(stats := s.stats[id := CountedRun(LoadStats(s, id), ledger)]),
                    t.(stats := t.stats[id := CountedRun(SpecStats(t, id), ledger)]))
  {
    var s' := s.(stats := s.stats[id := CountedRun(LoadStats(s, id), ledger)]);
    forall x ensures LoadConfig(s', x) == Lookup(t.configs, x) { assert LoadConfig(s, x) == LoadConfig(s', x); }
    forall x ensures LoadStats(s', x) == SpecStats(t.(stats := t.stats[id := CountedRun(SpecStats(t, id), ledger)]), x) {
      assert LoadStats(s, x) == SpecStats(t, x);
      assert LoadStats(s, id) == SpecStats(t, id);
    }
  }

  lemma RemoveRefines(s: Store, t: Spec, id: TaskId)
    requires Refines(s, t)
    ensures Refines(Removed(s, id), t.(configs := t.configs - {id}, stats := t.stats - {id}))
  {
    var s', t' := Removed(s, id), t.(configs := t.configs - {id}, stats := t.stats - {id});
    forall x ensures LoadConfig(s', x) == Lookup(t'.configs, x) { assert LoadConfig(s, x) == Lookup(t.configs, x); }
    forall x ensures LoadStats(s', x) == SpecStats(t', x) { assert LoadStats(s, x) == SpecStats(t, x); }
  }

  // ----- migration

  /** Migrating one task changes no view. */
  lemma MigrateOneView(s: Store, n: TaskId, id: TaskId)
    requires Consistent(s)
    ensures Consistent(MigrateOne(s, n))
    ensures LoadConfig(MigrateOne(s, n), id) == LoadConfig(s, id)
    ensures LoadStats(MigrateOne(s, n), id) == LoadStats(s, id)
  {
  }

  lemma {:induction false} MigrateUpToView(s: Store, n: nat, id: TaskId)
    requires Consistent(s)
    ensures Consistent(MigrateUpTo(s, n))
    ensures LoadConfig(MigrateUpTo(s, n), id) == LoadConfig(s, id)
    ensures LoadStats(MigrateUpTo(s, n), id) == LoadStats(s, id)
  {
    if n > 0 {
      MigrateUpToView(s, n - 1, id);
      MigrateOneView(MigrateUpTo(s, n - 1), n, id);
    }
  }

  /** Migration leaves the configuration and the statistics of every task as they read before. */
  lemma MigrationPreservesViews(s: Store, id: TaskId)
    requires Consistent(s)
    ensures Consistent(Migrated(s))
    ensures LoadConfig(Migrated(s), id) == LoadConfig(s, id)
    ensures LoadStats(Migrated(s), id) == LoadStats(s, id)
  {
    MigrateUpToView(s, s.counter, id);
    var t := MigrateUpTo(s, s.counter);
    assert LoadConfig(Migrated(s), id) == LoadConfig(t, id);
  }

  /** What becomes of one task's records when it is migrated, or is not. */
  predicate Moved(s: Store, t: Store, id: TaskId, moved: bool)
    requires moved ==> id in s.legacy
  {
    && Lookup(t.legacy, id) == Lookup(s.legacy, id) && t.counter == s.counter
    && Lookup(t.meta, id) == (if moved then Some(MetaOf(s.legacy[id])) else Lookup(s.meta, id))
    && Lookup(t.payload, id) == (if moved then Some(PayloadOf(s.legacy[id])) else Lookup(s.payload, id))
    && Lookup(t.stats, id) == (if moved then Some(LoadStats(s, id)) else Lookup(s.stats, id))
  }

  lemma MigrateOneRecords(s: Store, n: TaskId, id: TaskId)
    ensures Moved(s, MigrateOne(s, n), id, id == n && id in s.legacy && id !in s.meta)
  {
  }

  /** Record by record, what the migration loop leaves behind. */
  lemma {:induction false} MigrateUpToRecords(s: Store, n: nat, id: TaskId)
    ensures Moved(s, MigrateUpTo(s, n), id, 1 <= id <= n && id in s.legacy && id !in s.meta)
  {
    if n > 0 {
      MigrateUpToRecords(s, n - 1, id);
      MigrateOneRecords(MigrateUpTo(s, n - 1), n, id);
    }
  }

  /**
   After migration every legacy task with an id in 1..counter has a meta record. Its payload is split
   off too, unless its meta record had already been written on its own; other tasks are untouched.
   */
  lemma MigrationCoversLegacyTasks(s: Store, id: TaskId)
    ensures var t := Migrated(s);
            && (1 <= id <= s.counter && id in s.legacy ==>
                  && id in t.meta
                  && (id in t.payload <==> id in s.payload || id !in s.meta))
            && (!(1 <= id <= s.counter && id in s.legacy) ==>
                  Lookup(t.meta, id) == Lookup(s.meta, id) && Lookup(t.payload, id) == Lookup(s.payload, id))
            && Lookup(t.legacy, id) == Lookup(s.legacy, id)
  {
    MigrateUpToRecords(s, s.counter, id);
  }

  /** The exception is reached: a legacy task whose meta is updated before the migration keeps its payload unsplit. */
  lemma EarlyUpdateLeavesPayload(s: Store, id: TaskId, f: TaskMeta -> TaskMeta)
    requires LegacyOnly(s) && id in s.legacy
    ensures var t := Run(s, [UpdateMeta(id, f), Migrate]);
            id in t.meta && id !in t.payload && LoadPayload(t, id) == Some(PayloadOf(s.legacy[id]))
  {
    var u, update := MetaUpdated(s, id, f), [UpdateMeta(id, f)];
    var ops := update + [Migrate];
    assert update[..0] == [] && ops[..1] == update;
    assert Run(s, update) == u;
    assert Run(s, ops) == Migrated(u) && ops == [UpdateMeta(id, f), Migrate];
    MigrateUpToRecords(u, u.counter, id);
  }

  lemma {:induction false} NothingLeftToMigrate(s: Store, n: nat)
    requires forall id :: 1 <= id <= n && id in s.legacy ==> id in s.meta
    ensures MigrateUpTo(s, n) == s
  {
    if n > 0 { NothingLeftToMigrate(s, n - 1); }
  }

  lemma MigrationIdempotent(s: Store)
    ensures Migrated(Migrated(s)) == Migrated(s)
  {
    var t := Migrated(s);
    MigrateUpToRecords(s, s.counter, 0);
    forall id | 1 <= id <= t.counter && id in t.legacy ensures id in t.meta {
      MigrateUpToRecords(s, s.counter, id);
    }
    NothingLeftToMigrate(t, t.counter);
  }

  lemma MigrateRefines(s: Store, t: Spec)
    requires Refines(s, t)
    ensures Refines(Migrated(s), t)
  {
    forall id ensures LoadConfig(Migrated(s), id) == Lookup(t.configs, id) {
      MigrationPreservesViews(s, id);
    }
    forall id ensures LoadStats(Migrated(s), id) == SpecStats(t, id) {
      MigrationPreservesViews(s, id);
      assert LoadStats(s, id) == SpecStats(t, id);
    }
    MigrationPreservesViews(s, 0);
  }

  // ----- whole runs

  lemma StepRefines(s: Store, t: Spec, op: Op)
    requires Refines(s, t)
    ensures Refines(Apply(s, op), SpecApply(t, op))
  {
    match op
    case Save(id, c) => SaveRefines(s, t, id, c);
    case UpdateMeta(id, f) => ModifyRefines(s, t, id, f);
    case RecordRun(id, lastRun, ledger) =>
      StatsRefines(s, t, id, ledger);
      ModifyRefines(s.(stats := s.stats[id := CountedRun(LoadStats(s, id), ledger)]),
                    t.(stats := t.stats[id := CountedRun(SpecStats(t, id), ledger)]), id,
                    (m: TaskMeta) => m.(lastRun := lastRun));
    case Remove(id) => RemoveRefines(s, t, id);
    case Migrate => MigrateRefines(s, t);
  }

  /** Every run from a legacy-only store behaves as the same run on a plain map of configurations. */
  lemma {:induction false} RunRefines(s: Store, ops: seq<Op>)
    requires LegacyOnly(s)
    ensures Refines(Run(s, ops), SpecRun(Spec(s.legacy, s.stats), ops))
  {
    if ops == [] {
      forall id ensures LoadConfig(s, id) == Lookup(s.legacy, id) {
        if id in s.legacy { JoinInverse(s.legacy[id]); }
      }
      forall id ensures LoadStats(s, id) == SpecStats(Spec(s.legacy, s.stats), id) {}
    } else {
      var init := ops[..|ops| - 1];
      RunRefines(s, init);
      StepRefines(Run(s, init), SpecRun(Spec(s.legacy, s.stats), init), ops[|ops| - 1]);
    }
  }

  /** What the readers answer, in terms of the plain map. */
  lemma ReadersAgree(s: Store, t: Spec, id: TaskId, now: nat)
    requires Refines(s, t)
    ensures TaskExists(s, id) <==> LoadConfig(s, id).Some?
    ensures TaskExists(s, id) <==> id in t.configs
    ensures CheckTaskReady(s, id, now) <==>
            id in t.configs && t.configs[id].isActive
            && now >= SaturatingAdd(t.configs[id].lastRun, t.configs[id].interval)
    ensures BlockedBy(s, id) == if id in t.configs then t.configs[id].blockedBy else []
  {
    assert LoadConfig(s, id) == Lookup(t.configs, id);
  }

  /** Field by field, the meta and the payload that the readers load are those of the plain map's configuration. */
  lemma RecordsMatchConfig(s: Store, t: Spec, id: TaskId)
    requires Refines(s, t) && id in t.configs
    ensures LoadMeta(s, id).Some? && LoadPayload(s, id).Some?
    ensures var c, m, p := t.configs[id], LoadMeta(s, id).value, LoadPayload(s, id).value;
            && m.creator == c.creator && m.interval == c.interval && m.lastRun == c.lastRun
            && m.gasBalance == c.gasBalance && m.isActive == c.isActive && m.blockedBy == c.blockedBy
            && m.resolver == c.resolver && m.whitelist == c.whitelist
            && m.yieldStrategy == c.yieldStrategy && m.permissions == c.permissions
            && p.target == c.target && p.function_ == c.function_ && p.args == c.args
  {
    assert LoadConfig(s, id) == Lookup(t.configs, id);
  }

  /** An update changes the meta of its own task by f, and nothing of a task that does not exist. */
  lemma UpdateChangesMeta(s: Store, id: TaskId, f: TaskMeta -> TaskMeta, other: TaskId)
    ensures var t := MetaUpdated(s, id, f);
            && LoadMeta(t, other) == (if other == id && TaskExists(s, id) then Some(f(LoadMeta(s, id).value)) else LoadMeta(s, other))
            && LoadPayload(t, other) == LoadPayload(s, other) && LoadStats(t, other) == LoadStats(s, other)
            && (!TaskExists(s, id) ==> t == s)
  {
  }

  // ----- the statistics over a run

  /** The statistics of a task as its history tells them: runs counted without a limit, forgotten on removal. */
  function History(start: TaskStats, ops: seq<Op>, id: TaskId): TaskStats {
    if ops == [] then start
    else
      var h := History(start, ops[..|ops| - 1], id);
      match ops[|ops| - 1]
      case RecordRun(x, _, ledger) => if x == id then TaskStats(h.runCount + 1, h.failureCount, ledger) else h
      case Remove(x) => if x == id then TaskStats(0, 0, 0) else h
      case _ => h
  }

  function Min(a: nat, b: nat): nat { if a <= b then a else b }

  lemma MigrationKeepsStats(s: Store, id: TaskId)
    ensures LoadStats(Migrated(s), id) == LoadStats(s, id)
  {
    MigrateUpToRecords(s, s.counter, id);
  }

  /**
   Over every run, from every store, the run count is the number of recorded runs since the task was
   last removed, up to the largest 64-bit number; failures are kept and the ledger is the latest one.
   */
  lemma {:induction false} StatsFollowHistory(s: Store, ops: seq<Op>, id: TaskId)
    requires LoadStats(s, id).runCount <= U64_MAX
    ensures var h := History(LoadStats(s, id), ops, id);
            LoadStats(Run(s, ops), id) == h.(runCount := Min(h.runCount, U64_MAX))
  {
    if ops != [] {
      var init := ops[..|ops| - 1];
      StatsFollowHistory(s, init, id);
      StatsStep(Run(s, init), ops[|ops| - 1], id);
    }
  }

  /** What one operation does to the statistics of a task. */
  lemma StatsStep(s: Store, op: Op, id: TaskId)
    requires LoadStats(s, id).runCount <= U64_MAX
    ensures var a, b := LoadStats(s, id), LoadStats(Apply(s, op), id);
            if op.RecordRun? && op.id == id then
              b == TaskStats(if a.runCount < U64_MAX then a.runCount + 1 else U64_MAX, a.failureCount, op.ledger)
            else if op.Remove? && op.id == id then b == TaskStats(0, 0, 0)
            else b == a
  {
    if op.Migrate? { MigrationKeepsStats(s, id); }
  }

  /** The legacy record does go stale, and no reader shows it. */
  lemma LegacyCopyGoesStale(s: Store, id: TaskId, c: TaskConfig, lastRun: nat, ledger: nat)
    requires Consistent(s) && lastRun != c.lastRun
    ensures var t := RunRecorded(SaveSplit(s, id, c), id, lastRun, ledger);
            && t.legacy[id] == c
            && LoadConfig(t, id) == Some(c.(lastRun := lastRun)) && LoadConfig(t, id) != Some(t.legacy[id])
  {
    JoinInverse(c.(lastRun := lastRun));
  }

  // ----- the contract's storage

  class TaskStore {
    var legacy: map<TaskId, TaskConfig>
    var meta: map<TaskId, TaskMeta>
    var payload: map<TaskId, TaskPayload>
    var stats: map<TaskId, TaskStats>
    var counter: nat
    var schemaVersion: nat

    function View(): Store
      reads this
    {
      Store(legacy, meta, payload, stats, counter, schemaVersion)
    }

    constructor (legacy: map<TaskId, TaskConfig>, stats: map<TaskId, TaskStats>, counter: nat)
      ensures View() == Store(legacy, map[], map[], stats, counter, 1) && LegacyOnly(View())
    {
      this.legacy, this.stats, this.counter := legacy, stats, counter;
      meta, payload, schemaVersion := map[], map[], 1;
    }

    method SaveTaskSplit(id: TaskId, config: TaskConfig)
      modifies this
      ensures View() == Apply(old(View()), Save(id, config))
    {
      meta := meta[id := MetaOf(config)];
      payload := payload[id := PayloadOf(config)];
      if id !in stats {
        stats := stats[id := NO_STATS];
      }
      legacy := legacy[id := config];
    }

    method UpdateTaskMeta(id: TaskId, f: TaskMeta -> TaskMeta) returns (r: Option<TaskMeta>)
      modifies this
      ensures View() == Apply(old(View()), UpdateMeta(id, f))
      ensures r.Some? <==> TaskExists(old(View()), id)
      ensures r.Some? ==> LoadMeta(View(), id) == r
    {
      var m := LoadMeta(View(), id);
      if m.None? {
        return None;
      }
      meta := meta[id := f(m.value)];
      return Some(f(m.value));
    }

    method RecordSuccessfulRun(id: TaskId, lastRun: nat, ledger: nat)
      modifies this
      ensures View() == Apply(old(View()), RecordRun(id, lastRun, ledger))
    {
      var counted := LoadStats(View(), id);
      counted := counted.(runCount := SaturatingAdd(counted.runCount, 1));
      counted := counted.(lastLedger := ledger);
      stats := stats[id := counted];
      var m := LoadMeta(View(), id);
      if m.Some? {
        meta := meta[id := m.value.(lastRun := lastRun)];
      }
    }

    method RemoveTask(id: TaskId)
      modifies this
      ensures View() == Apply(old(View()), Remove(id))
    {
      legacy := legacy - {id};
      meta := meta - {id};
      payload := payload - {id};
      stats := stats - {id};
    }

    method MigrateLegacyTasks()
      modifies this
      ensures View() == Apply(old(View()), Migrate)
    {
      ghost var start := View();
      MigrateUpToRecords(start, start.counter, 0);
      var id := 1;
      while id <= counter
        invariant 1 <= id <= counter + 1 && counter == start.counter
        invariant View() == MigrateUpTo(start, id - 1)
      {
        MigrateUpToRecords(start, id, 0);
        if id in legacy && id !in meta {
          SaveTaskSplit(id, legacy[id]);
        }
        id := id + 1;
      }
      schemaVersion := STORAGE_SCHEMA_VERSION;
    }
  }
}
