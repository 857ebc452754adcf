/**
 The timelocked upgrade workflow: propose, cancel and execute over a proxy configuration, a pending
 proposal, the upgrade records and the task store it migrates. A panic reverts the whole call.
 */
module Upgrade {
  import opened Common
  import opened TaskStorage

  type Hash = string

  const UPGRADE_TIMELOCK_SECONDS: nat := 172_800

  datatype Proposal = Proposal(
    newWasmHash: Hash, migrationVersion: nat, expectedVersion: nat, newVersion: nat,
    proposedAt: nat, executeAfter: nat, proposer: Address)

  datatype ProxyConfig = ProxyConfig(
    admin: Address, version: nat, implementationHash: Option<Hash>, upgradeCount: nat)

  datatype UpgradeRecord = UpgradeRecord(
    previousVersion: nat, newVersion: nat, implementationHash: Hash, upgradedBy: Address, upgradedAt: nat)

  datatype Contract = Contract(
    proxy: Option<ProxyConfig>,
    proposal: Option<Proposal>,
    records: map<nat, UpgradeRecord>,
    wasm: Hash,
    store: Store)

  datatype Action =
    | Propose(hash: Hash, migrationVersion: nat, expectedVersion: nat, newVersion: nat)
    | Execute
    | Cancel

  /** A call by `admin`, with or without its authorisation, at ledger time `now`. */
  datatype Call = Call(action: Action, admin: Address, authorised: bool, now: nat)

  datatype Panic =
    | Unauthorised
    | ProxyNotInitialised
    | InvalidUpgradeVersion
    | UpgradeNotProposed
    | UpgradeTimelockActive

  datatype Result<T> = Ok(value: T) | Failed(panic: Panic)

  // ----- calls

  function RequireProxyAdmin(c: Contract, call: Call): Result<ProxyConfig> {
    if !call.authorised then Failed(Unauthorised)
    else if c.proxy.None? then Failed(ProxyNotInitialised)
    else if c.proxy.value.admin != call.admin then Failed(Unauthorised)
    else Ok(c.proxy.value)
  }

  function Max(a: nat, b: nat): nat { if a >= b then a else b }

  function ProposalFor(call: Call): Proposal
    requires call.action.Propose?
  {
    Proposal(call.action.hash, call.action.migrationVersion, call.action.expectedVersion, call.action.newVersion,
             call.now, SaturatingAdd(call.now, UPGRADE_TIMELOCK_SECONDS), call.admin)
  }

  function Proposed(c: Contract, call: Call): Result<Contract>
    requires call.action.Propose?
  {
    match RequireProxyAdmin(c, call)
    case Failed(e) => Failed(e)
    case Ok(config) =>
      if config.version != call.action.expectedVersion || call.action.newVersion <= config.version then
        Failed(InvalidUpgradeVersion)
      else
        Ok(c.(proposal := Some(ProposalFor(call))))
  }

  function StorageMigrated(s: Store, oldVersion: nat, newVersion: nat): Result<Store> {
    if newVersion <= oldVersion then Failed(InvalidUpgradeVersion)
    else
      var t := if oldVersion < 2 && newVersion >= 2 then Migrated(s) else s;
      Ok(t.(schemaVersion := newVersion))
  }

  function Executed(c: Contract, call: Call): Result<Contract> {
    match RequireProxyAdmin(c, call)
    case Failed(e) => Failed(e)
    case Ok(config) =>
      if c.proposal.None? then Failed(UpgradeNotProposed)
      else
        var p := c.proposal.value;
        if call.now < p.executeAfter then Failed(UpgradeTimelockActive)
        else if config.version != p.expectedVersion then Failed(InvalidUpgradeVersion)
        else
          match StorageMigrated(c.store, config.version, Max(p.migrationVersion, STORAGE_SCHEMA_VERSION))
          case Failed(e) => Failed(e)
          case Ok(store) =>
            var id := SaturatingAdd(config.upgradeCount, 1);
            var record := UpgradeRecord(config.version, p.newVersion, p.newWasmHash, call.admin, call.now);
            Ok(Contract(
                 Some(config.(version := p.newVersion, implementationHash := Some(p.newWasmHash), upgradeCount := id)),
                 None,
                 c.records[id := record],
                 p.newWasmHash,
                 store))
  }

  function Cancelled(c: Contract, call: Call): Result<Contract> {
    match RequireProxyAdmin(c, call)
    case Failed(e) => Failed(e)
    case Ok(_) =>
      if c.proposal.None? then Failed(UpgradeNotProposed) else Ok(c.(proposal := None))
  }

  function Attempt(c: Contract, call: Call): Result<Contract> {
    match call.action
    case Propose(_, _, _, _) => Proposed(c, call)
    case Execute => Executed(c, call)
    case Cancel => Cancelled(c, call)
  }

  /** A panic leaves the contract as it was. */
  function Called(c: Contract, call: Call): Contract {
    match Attempt(c, call)
    case Ok(c') => c'
    case Failed(_) => c
  }

  // ----- who may call, and what each call does

  /** The proxy's admin calls, with its authorisation. */
  predicate FromAdmin(c: Contract, call: Call) {
    call.authorised && c.proxy.Some? && c.proxy.value.admin == call.admin
  }

  /** Any call that is not the admin's fails, and says which of the two reasons applies. */
  lemma OnlyAdminSucceeds(c: Contract, call: Call)
    requires !FromAdmin(c, call)
    ensures Attempt(c, call) == Failed(if call.authorised && c.proxy.None? then ProxyNotInitialised else Unauthorised)
    ensures Called(c, call) == c
  {
  }

  /** A proposal is taken exactly from the admin, for the current version and a higher one, and replaces nothing but the pending one. */
  lemma ProposeSucceedsIff(c: Contract, call: Call)
    requires call.action.Propose?
    ensures Attempt(c, call).Ok? <==>
            FromAdmin(c, call) && call.action.expectedVersion == c.proxy.value.version < call.action.newVersion
    ensures FromAdmin(c, call) && !Attempt(c, call).Ok? ==> Attempt(c, call) == Failed(InvalidUpgradeVersion)
    ensures Attempt(c, call).Ok? ==>
              var c' := Called(c, call);
              && c'.proposal.Some? && c' == c.(proposal := c'.proposal)
              && var p, a := c'.proposal.value, call.action;
                 && p.newWasmHash == a.hash && p.migrationVersion == a.migrationVersion
                 && p.expectedVersion == a.expectedVersion && p.newVersion == a.newVersion
                 && p.proposer == call.admin && p.proposedAt == call.now
                 && (call.now + UPGRADE_TIMELOCK_SECONDS <= U64_MAX ==>
                       p.executeAfter == call.now + UPGRADE_TIMELOCK_SECONDS)
  {
  }

  /** A cancellation succeeds exactly for the admin while something is pending, and only drops it. */
  lemma CancelSucceedsIff(c: Contract, call: Call)
    requires call.action.Cancel?
    ensures Attempt(c, call).Ok? <==> FromAdmin(c, call) && c.proposal.Some?
    ensures FromAdmin(c, call) && c.proposal.None? ==> Attempt(c, call) == Failed(UpgradeNotProposed)
    ensures Attempt(c, call).Ok? ==> Called(c, call) == c.(proposal := None)
  {
  }

  /** The panics of an execution by the admin, in their order. */
  lemma ExecutePanics(c: Contract, call: Call)
    requires call.action.Execute? && FromAdmin(c, call)
    ensures c.proposal.None? <==> Attempt(c, call) == Failed(UpgradeNotProposed)
    ensures Attempt(c, call) == Failed(UpgradeTimelockActive) <==>
            c.proposal.Some? && call.now < c.proposal.value.executeAfter
    ensures Attempt(c, call) == Failed(InvalidUpgradeVersion) <==>
            && c.proposal.Some? && call.now >= c.proposal.value.executeAfter
            && (c.proxy.value.version != c.proposal.value.expectedVersion
                || Max(c.proposal.value.migrationVersion, STORAGE_SCHEMA_VERSION) <= c.proxy.value.version)
  {
  }

  /** An execution keeps the admin and every earlier record, uses up the proposal and sets the schema version. */
  lemma ExecuteEffect(c: Contract, call: Call)
    requires call.action.Execute? && Attempt(c, call).Ok?
    ensures var c' := Called(c, call);
            && c.proxy.Some? && c.proposal.Some? && c'.proxy.Some? && c'.proposal.None?
            && c'.proxy.value.admin == c.proxy.value.admin && c'.proxy.value.version == c.proposal.value.newVersion
            && c'.wasm == c.proposal.value.newWasmHash
            && c'.store.schemaVersion == Max(c.proposal.value.migrationVersion, STORAGE_SCHEMA_VERSION)
            && (c.proxy.value.version >= 2 ==> c'.store == c.store.(schemaVersion := c'.store.schemaVersion))
            && (c.proxy.value.upgradeCount < U64_MAX ==> c'.proxy.value.upgradeCount == c.proxy.value.upgradeCount + 1)
            && forall i :: i in c.records && i != c'.proxy.value.upgradeCount ==>
                 i in c'.records && c'.records[i] == c.records[i]
  {
  }

  // ----- runs

  /** The contract after the first n calls. */
  function After(c: Contract, calls: seq<Call>, n: nat): Contract
    requires n <= |calls|
  {
    if n == 0 then c else Called(After(c, calls, n - 1), calls[n - 1])
  }

  predicate Succeeds(c: Contract, calls: seq<Call>, n: nat)
    requires n < |calls|
  {
    Attempt(After(c, calls, n), calls[n]).Ok?
  }

  predicate Initialised(c: Contract) {
    c.proxy.Some? && c.proxy.value.upgradeCount == 0 && c.proposal.None? && c.records == map[]
  }

  // ----- the pending proposal

  /** A pending proposal expects the current version, raises it, carries its timelock and is the admin's. */
  predicate ProposalOk(c: Contract) {
    c.proposal.Some? ==>
      var p := c.proposal.value;
      && c.proxy.Some?
      && p.expectedVersion == c.proxy.value.version < p.newVersion
      && p.executeAfter == SaturatingAdd(p.proposedAt, UPGRADE_TIMELOCK_SECONDS)
      && p.proposer == c.proxy.value.admin
  }

  lemma {:induction false} PendingProposalInvariant(c: Contract, calls: seq<Call>, n: nat)
    requires ProposalOk(c) && n <= |calls|
    ensures ProposalOk(After(c, calls, n))
  {
    if n > 0 { PendingProposalInvariant(c, calls, n - 1); }
  }

  /** Step i proposed what is pending after n calls, and no later call among them succeeded. */
  predicate IsOrigin(c: Contract, calls: seq<Call>, i: nat, n: nat)
    requires n <= |calls|
  {
    && i < n
    && calls[i].action.Propose? && Succeeds(c, calls, i)
    && After(c, calls, n).proposal == Some(ProposalFor(calls[i]))
    && forall m {:trigger Succeeds(c, calls, m)} :: i < m < n ==> !Succeeds(c, calls, m)
  }

  lemma {:induction false} PendingProposalOrigin(c: Contract, calls: seq<Call>, n: nat) returns (i: nat)
    requires c.proposal.None? && n <= |calls| && After(c, calls, n).proposal.Some?
    ensures IsOrigin(c, calls, i, n)
  {
    if Succeeds(c, calls, n - 1) {
      i := n - 1;
    } else {
      i := PendingProposalOrigin(c, calls, n - 1);
    }
  }

  /**
   The hash an upgrade installs is that of the latest proposal, which was neither replaced nor
   cancelled nor executed in between, and which is at least 48 hours old (or its timelock saturated
   at the end of the clock).
   */
  lemma InstalledHashIsLatestProposal(c: Contract, calls: seq<Call>, n: nat) returns (i: nat)
    requires Initialised(c)
    requires n < |calls| && calls[n].action.Execute? && Succeeds(c, calls, n)
    ensures i < n && calls[i].action.Propose? && Succeeds(c, calls, i)
    ensures forall m {:trigger Succeeds(c, calls, m)} :: i < m < n ==> !Succeeds(c, calls, m)
    ensures After(c, calls, n + 1).wasm == calls[i].action.hash
    ensures After(c, calls, n + 1).proxy.Some?
            && After(c, calls, n + 1).proxy.value.version == calls[i].action.newVersion
            && After(c, calls, n + 1).proxy.value.implementationHash == Some(calls[i].action.hash)
    ensures var c' := After(c, calls, n + 1);
            var id := c'.proxy.value.upgradeCount;
            && id in c'.records && c'.proposal.None?
            && c'.records[id] == UpgradeRecord(After(c, calls, n).proxy.value.version, calls[i].action.newVersion,
                                               calls[i].action.hash, calls[n].admin, calls[n].now)
    ensures calls[n].now >= SaturatingAdd(calls[i].now, UPGRADE_TIMELOCK_SECONDS)
    ensures calls[i].now + UPGRADE_TIMELOCK_SECONDS <= U64_MAX ==>
              calls[n].now - calls[i].now >= UPGRADE_TIMELOCK_SECONDS
  {
    i := PendingProposalOrigin(c, calls, n);
    assert After(c, calls, n + 1) == Called(After(c, calls, n), calls[n]);
  }

  /** Once proposed, an upgrade executes exactly when its lock has run out and its migration target is new. */
  lemma ExecuteSucceedsIff(c: Contract, call: Call)
    requires ProposalOk(c) && call.action.Execute?
    ensures Attempt(c, call).Ok? <==>
            && call.authorised && c.proxy.Some? && c.proxy.value.admin == call.admin
            && c.proposal.Some?
            && call.now >= SaturatingAdd(c.proposal.value.proposedAt, UPGRADE_TIMELOCK_SECONDS)
            && Max(c.proposal.value.migrationVersion, STORAGE_SCHEMA_VERSION) > c.proxy.value.version
  {
  }

  lemma {:induction false} AdminNeverChanges(c: Contract, calls: seq<Call>, n: nat)
    requires c.proxy.Some? && n <= |calls|
    ensures After(c, calls, n).proxy.Some? && After(c, calls, n).proxy.value.admin == c.proxy.value.admin
  {
    if n > 0 { AdminNeverChanges(c, calls, n - 1); }
  }

  /**
   Over every run the installed code changes only by an authorised execution of the admin, and only to
   what an authorised proposal of the admin named.
   */
  lemma CodeChangesOnlyByAdmin(c: Contract, calls: seq<Call>, n: nat) returns (i: nat)
    requires Initialised(c) && n < |calls| && After(c, calls, n + 1).wasm != After(c, calls, n).wasm
    ensures calls[n].action.Execute? && calls[n].authorised && calls[n].admin == c.proxy.value.admin
    ensures i < n && calls[i].action.Propose? && calls[i].authorised && calls[i].admin == c.proxy.value.admin
    ensures After(c, calls, n + 1).wasm == calls[i].action.hash
  {
    assert After(c, calls, n + 1) == Called(After(c, calls, n), calls[n]);
    AdminNeverChanges(c, calls, n);
    i := InstalledHashIsLatestProposal(c, calls, n);
    AdminNeverChanges(c, calls, i);
    assert Attempt(After(c, calls, i), calls[i]).Ok?;
  }

  /** An admin's proposal, left alone until its timelock has run out, executes for the admin. */
  lemma ProposedUpgradeExecutes(c: Contract, propose: Call, execute: Call)
    requires propose.action.Propose? && Attempt(c, propose).Ok? && execute.action.Execute? && execute.authorised
    requires execute.admin == propose.admin && execute.now >= propose.now + UPGRADE_TIMELOCK_SECONDS
    requires Max(propose.action.migrationVersion, STORAGE_SCHEMA_VERSION) > propose.action.expectedVersion
    ensures var c' := Called(Called(c, propose), execute);
            && c'.wasm == propose.action.hash && c'.proxy.Some? && c'.proposal.None?
            && c'.proxy.value.version == propose.action.newVersion && c'.proxy.value.admin == propose.admin
  {
  }

  // ----- the upgrade records

  /** Records 1..count form a chain of rising versions from `first` to `last`. */
  predicate IsChain(records: map<nat, UpgradeRecord>, count: nat, first: nat, last: nat)
    decreases count
  {
    if count == 0 then records == map[] && first == last
    else
      && count in records
      && records[count].previousVersion < records[count].newVersion == last
      && IsChain(records - {count}, count - 1, first, records[count].previousVersion)
  }

  predicate RecordsOk(c: Contract, first: nat) {
    && c.proxy.Some?
    && IsChain(c.records, c.proxy.value.upgradeCount, first, c.proxy.value.version)
    && (c.proxy.value.upgradeCount > 0 ==>
          c.proxy.value.upgradeCount in c.records
          && c.proxy.value.implementationHash == Some(c.records[c.proxy.value.upgradeCount].implementationHash))
  }

  lemma {:induction false} ChainKeys(records: map<nat, UpgradeRecord>, count: nat, first: nat, last: nat)
    requires IsChain(records, count, first, last)
    ensures forall i: nat :: i in records <==> 1 <= i <= count
    decreases count
  {
    if count > 0 {
      ChainKeys(records - {count}, count - 1, first, records[count].previousVersion);
      forall i: nat ensures i in records <==> 1 <= i <= count {
        assert i in records <==> i == count || i in records - {count};
      }
    }
  }

  lemma ExtendChain(records: map<nat, UpgradeRecord>, count: nat, first: nat, last: nat, r: UpgradeRecord)
    requires IsChain(records, count, first, last) && r.previousVersion == last < r.newVersion
    ensures IsChain(records[count + 1 := r], count + 1, first, r.newVersion)
  {
    ChainKeys(records, count, first, last);
    assert records[count + 1 := r] - {count + 1} == records;
  }

  /** Consecutive records of a chain meet, and versions rise along it. */
  lemma {:induction false} ChainOrder(records: map<nat, UpgradeRecord>, count: nat, first: nat, last: nat, i: nat)
    requires IsChain(records, count, first, last) && 1 <= i <= count
    ensures i in records && first <= records[i].previousVersion < records[i].newVersion <= last
    ensures i == count ==> records[i].newVersion == last
    ensures i == 1 ==> records[i].previousVersion == first
    ensures i < count ==> i + 1 in records && records[i].newVersion == records[i + 1].previousVersion
    decreases count
  {
    var rest, mid := records - {count}, records[count].previousVersion;
    ChainKeys(records, count, first, last);
    if count == 1 {
    } else if i < count {
      ChainOrder(rest, count - 1, first, mid, i);
      assert records[i] == rest[i];
      if i + 1 < count { assert records[i + 1] == rest[i + 1]; }
    } else {
      ChainOrder(rest, count - 1, first, mid, count - 1);
    }
  }

  lemma StepKeepsRecords(c: Contract, call: Call, first: nat)
    requires ProposalOk(c) && RecordsOk(c, first) && c.proxy.value.upgradeCount < U64_MAX
    ensures RecordsOk(Called(c, call), first)
    ensures c.proxy.value.version <= Called(c, call).proxy.value.version
    ensures Called(c, call).proxy.value.upgradeCount <= c.proxy.value.upgradeCount + 1
  {
    if call.action.Execute? && Attempt(c, call).Ok? {
      var config, p := c.proxy.value, c.proposal.value;
      ExtendChain(c.records, config.upgradeCount, first, config.version,
                  UpgradeRecord(config.version, p.newVersion, p.newWasmHash, call.admin, call.now));
    }
  }

  /** Over every run the upgrade records form a strictly rising chain that ends at the current version. */
  lemma {:induction false} UpgradeHistory(c: Contract, calls: seq<Call>, n: nat)
    requires Initialised(c) && n <= |calls| && n < U64_MAX
    ensures RecordsOk(After(c, calls, n), c.proxy.value.version)
    ensures After(c, calls, n).proxy.value.upgradeCount <= n
  {
    if n > 0 {
      UpgradeHistory(c, calls, n - 1);
      PendingProposalInvariant(c, calls, n - 1);
      StepKeepsRecords(After(c, calls, n - 1), calls[n - 1], c.proxy.value.version);
    }
  }

  // ----- the migration an upgrade runs

  /** An upgrade never changes how a task reads; from a version below 2 it also migrates every legacy task. */
  lemma UpgradeMigratesTasks(c: Contract, call: Call, id: TaskId)
    requires call.action.Execute? && Attempt(c, call).Ok? && Consistent(c.store)
    ensures var t := Called(c, call).store;
            && c.proxy.Some?
            && Consistent(t)
            && LoadConfig(t, id) == LoadConfig(c.store, id) && LoadStats(t, id) == LoadStats(c.store, id)
            && (c.proxy.value.version < 2 && 1 <= id <= c.store.counter && id in c.store.legacy ==> id in t.meta)
  {
    var s, t := c.store, Called(c, call).store;
    MigrationPreservesViews(s, id);
    MigrationCoversLegacyTasks(s, id);
    assert LoadConfig(t, id) == LoadConfig(if c.proxy.value.version < 2 then Migrated(s) else s, id);
  }

  // ----- the contract object

  class UpgradeController {
    var proxy: Option<ProxyConfig>
    var proposal: Option<Proposal>
    var records: map<nat, UpgradeRecord>
    var wasm: Hash
    const tasks: TaskStore

    function View(): Contract
      reads this, tasks
    {
      Contract(proxy, proposal, records, wasm, tasks.View())
    }

    /** As `init_proxy` leaves it: version set, nothing pending, no record. */
    constructor (admin: Address, version: nat, wasm: Hash, tasks: TaskStore)
      requires version > 0
      ensures View() == Contract(Some(ProxyConfig(admin, version, None, 0)), None, map[], wasm, tasks.View())
      ensures Initialised(View()) && this.tasks == tasks
    {
      this.tasks, this.wasm := tasks, wasm;
      proxy, proposal, records := Some(ProxyConfig(admin, version, None, 0)), None, map[];
    }

    method ProposeUpgrade(call: Call) returns (r: Result<()>)
      requires call.action.Propose?
      modifies this
      ensures View() == Called(old(View()), call)
      ensures r.Ok? <==> Attempt(old(View()), call).Ok?
      ensures r.Failed? ==> Attempt(old(View()), call) == Failed(r.panic)
    {
      var auth := RequireProxyAdmin(View(), call);
      if auth.Failed? {
        return Failed(auth.panic);
      }
      var config := auth.value;
      if config.version != call.action.expectedVersion || call.action.newVersion <= config.version {
        return Failed(InvalidUpgradeVersion);
      }
      var executeAfter := SaturatingAdd(call.now, UPGRADE_TIMELOCK_SECONDS);
      proposal := Some(Proposal(call.action.hash, call.action.migrationVersion, call.action.expectedVersion,
                                call.action.newVersion, call.now, executeAfter, call.admin));
      return Ok(());
    }

    method MigrateStorage(oldVersion: nat, newVersion: nat) returns (r: Result<()>)
      modifies tasks
      ensures r.Ok? <==> StorageMigrated(old(tasks.View()), oldVersion, newVersion).Ok?
      ensures r.Ok? ==> StorageMigrated(old(tasks.View()), oldVersion, newVersion) == Ok(tasks.View())
      ensures r.Failed? ==>
                && tasks.View() == old(tasks.View())
                && StorageMigrated(old(tasks.View()), oldVersion, newVersion) == Failed(r.panic)
    {
      if newVersion <= oldVersion {
        return Failed(InvalidUpgradeVersion);
      }
      if oldVersion < 2 && newVersion >= 2 {
        tasks.MigrateLegacyTasks();
      }
      tasks.schemaVersion := newVersion;
      return Ok(());
    }

    method ExecuteUpgrade(call: Call) returns (r: Result<()>)
      requires call.action.Execute?
      modifies this, tasks
      ensures View() == Called(old(View()), call)
      ensures r.Ok? <==> Attempt(old(View()), call).Ok?
      ensures r.Failed? ==> Attempt(old(View()), call) == Failed(r.panic)
    {
      var auth := RequireProxyAdmin(View(), call);
      if auth.Failed? {
        return Failed(auth.panic);
      }
      var config := auth.value;
      if proposal.None? {
        return Failed(UpgradeNotProposed);
      }
      var p := proposal.value;
      if call.now < p.executeAfter {
        return Failed(UpgradeTimelockActive);
      }
      if config.version != p.expectedVersion {
        return Failed(InvalidUpgradeVersion);
      }
      var migration := MigrateStorage(config.version, Max(p.migrationVersion, STORAGE_SCHEMA_VERSION));
      if migration.Failed? {
        return Failed(migration.panic);
      }
      var id := SaturatingAdd(config.upgradeCount, 1);
      var record := UpgradeRecord(config.version, p.newVersion, p.newWasmHash, call.admin, call.now);
      config := config.(version := p.newVersion);
      config := config.(implementationHash := Some(p.newWasmHash));
      config := config.(upgradeCount := id);
      records := records[id := record];
      proxy := Some(config);
      proposal := None;
      wasm := p.newWasmHash;
      return Ok(());
    }

    method CancelUpgrade(call: Call) returns (r: Result<()>)
      requires call.action.Cancel?
      modifies this
      ensures View() == Called(old(View()), call)
      ensures r.Ok? <==> Attempt(old(View()), call).Ok?
      ensures r.Failed? ==> Attempt(old(View()), call) == Failed(r.panic)
    {
      var auth := RequireProxyAdmin(View(), call);
      if auth.Failed? {
        return Failed(auth.panic);
      }
      if proposal.None? {
        return Failed(UpgradeNotProposed);
      }
      proposal := None;
      return Ok(());
    }
  }
}
