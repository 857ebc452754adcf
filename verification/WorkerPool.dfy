/**
 The proof service's worker pool and its in-flight map, as a step system over the events that
 interleave in the process: dispatches after the cache read, worker messages, errors and exits,
 timeouts, the clean-up that follows a settled proof, start and shutdown.
 */
module WorkerPool {
  import opened Common

  type Key = string

  datatype Status = Idle | Active | Recycling

  datatype Reason = GenerationFailed | WorkerError | WorkerExited | ProverTimeout | ShuttingDown

  datatype Outcome = Pending | Resolved(proof: string) | Rejected(reason: Reason)

  /** A pool entry. Entries and jobs are named by their position in the service's `entries` and `jobs`. */
  datatype Entry = Entry(id: nat, status: Status, job: Option<nat>)

  /** A dispatched proof: its promise, its timeout timer, and whether its clean-up has run. */
  datatype Job = Job(entry: nat, key: Key, armed: bool, outcome: Outcome, settleCalls: nat, cleaned: bool)

  datatype Service = Service(
    ready: bool,
    workerCount: nat,
    workers: seq<nat>,
    entries: seq<Entry>,
    jobs: seq<Job>,
    inFlight: map<Key, nat>)

  datatype Event =
    | Initialize
    | Resume(key: Key)
    | Message(entry: nat, outcome: Outcome)
    | Error(entry: nat)
    | Exit(entry: nat)
    | Timeout(job: nat)
    | Cleanup(job: nat)
    | Shutdown

  /** What a call of generateProof gets after its cache read missed. */
  datatype Reply = Joined(job: nat) | Dispatched(job: nat) | AtCapacity

  // ----- steps

  function Spawn(s: Service, id: nat): Service {
    s.(entries := s.entries + [Entry(id, Idle, None)], workers := s.workers + [|s.entries|])
  }

  function SpawnFrom(s: Service, i: nat): Service
    decreases s.workerCount - i
  {
    if i >= s.workerCount then s else SpawnFrom(Spawn(s, i), i + 1)
  }

  function Initialized(s: Service): Service {
    SpawnFrom(s.(ready := true, workers := []), 0)
  }

  /** The first idle entry in pool order. */
  function FirstIdle(entries: seq<Entry>, workers: seq<nat>): (r: Option<nat>)
    ensures r.Some? ==> r.value in workers && r.value < |entries| && entries[r.value].status.Idle?
    ensures r.None? ==> forall w :: w in workers && w < |entries| ==> !entries[w].status.Idle?
  {
    if workers == [] then None
    else if workers[0] < |entries| && entries[workers[0]].status.Idle? then Some(workers[0])
    else FirstIdle(entries, workers[1..])
  }

  function Resumed(s: Service, key: Key): (Service, Reply) {
    if key in s.inFlight then (s, Joined(s.inFlight[key]))
    else
      match FirstIdle(s.entries, s.workers)
      case None => (s, AtCapacity)
      case Some(e) =>
        var j := |s.jobs|;
        (s.(entries := s.entries[e := s.entries[e].(status := Active, job := Some(j))],
            jobs := s.jobs + [Job(e, key, true, Pending, 0, false)],
            inFlight := s.inFlight[key := j]),
         Dispatched(j))
  }

  /** Clear the timer and call resolve or reject; a promise keeps its first outcome. */
  function Settled(job: Job, outcome: Outcome): Job {
    job.(armed := false,
         outcome := if job.outcome.Pending? then outcome else job.outcome,
         settleCalls := job.settleCalls + 1)
  }

  function SettleJob(jobs: seq<Job>, j: nat, outcome: Outcome): (r: seq<Job>)
    ensures |r| == |jobs|
  {
    if j < |jobs| then jobs[j := Settled(jobs[j], outcome)] else jobs
  }

  /** Take the job off an entry, if it has one, and settle it. */
  function Released(s: Service, e: nat, status: Status, outcome: Outcome): Service
    requires e < |s.entries|
  {
    match s.entries[e].job
    case None => s
    case Some(j) =>
      s.(entries := s.entries[e := s.entries[e].(job := None, status := status)],
         jobs := SettleJob(s.jobs, j, outcome))
  }

  function Without(workers: seq<nat>, e: nat): seq<nat> {
    if workers == [] then []
    else if workers[0] == e then workers[1..]
    else [workers[0]] + Without(workers[1..], e)
  }

  function Replaced(s: Service, e: nat): Service
    requires e < |s.entries|
  {
    if e !in s.workers then s
    else
      var t := s.(workers := Without(s.workers, e));
      if s.ready then Spawn(t, s.entries[e].id) else t
  }

  function Messaged(s: Service, e: nat, outcome: Outcome): Service {
    if e < |s.entries| then Released(s, e, Idle, outcome) else s
  }

  function Errored(s: Service, e: nat): Service {
    if e < |s.entries| then
      Replaced(Released(s, e, s.entries[e].status, Rejected(WorkerError)), e)
    else s
  }

  function Exited(s: Service, e: nat): Service {
    if e < |s.entries| then
      var t := Released(s, e, s.entries[e].status, Rejected(WorkerExited));
      if s.ready then Replaced(t, e) else t
    else s
  }

  /** An armed timer fires: it clears whatever job its entry holds and rejects its own. */
  function TimedOut(s: Service, j: nat): Service {
    if j < |s.jobs| && s.jobs[j].armed && s.jobs[j].entry < |s.entries| then
      var e := s.jobs[j].entry;
      s.(entries := s.entries[e := s.entries[e].(job := None, status := Recycling)],
         jobs := SettleJob(s.jobs, j, Rejected(ProverTimeout)))
    else s
  }

  function CleanedUp(s: Service, j: nat): Service {
    if j < |s.jobs| && !s.jobs[j].outcome.Pending? && !s.jobs[j].cleaned then
      s.(jobs := s.jobs[j := s.jobs[j].(cleaned := true)], inFlight := s.inFlight - {s.jobs[j].key})
    else s
  }

  /** The shutdown loop over the first n workers: jobs are rejected, entries keep pointing at them. */
  function RejectHeld(s: Service, n: nat): (jobs: seq<Job>)
    requires n <= |s.workers|
    ensures |jobs| == |s.jobs|
  {
    if n == 0 then s.jobs
    else
      var w, jobs := s.workers[n - 1], RejectHeld(s, n - 1);
      if w < |s.entries| && s.entries[w].job.Some? then SettleJob(jobs, s.entries[w].job.value, Rejected(ShuttingDown))
      else jobs
  }

  function ShutDown(s: Service): Service {
    s.(ready := false, workers := [], jobs := RejectHeld(s, |s.workers|), inFlight := map[])
  }

  function Step(s: Service, e: Event): Service {
    match e
    case Initialize => Initialized(s)
    case Resume(key) => Resumed(s, key).0
    case Message(w, outcome) => if outcome.Pending? then s else Messaged(s, w, outcome)
    case Error(w) => Errored(s, w)
    case Exit(w) => Exited(s, w)
    case Timeout(j) => TimedOut(s, j)
    case Cleanup(j) => CleanedUp(s, j)
    case Shutdown => ShutDown(s)
  }

  function Run(s: Service, events: seq<Event>): Service
    decreases |events|
  {
    if events == [] then s else Run(Step(s, events[0]), events[1..])
  }

  function Fresh(workerCount: nat): Service {
    Service(false, workerCount, [], [], [], map[])
  }

  // ----- the pool invariant

  /** An entry's job, in the pool or not, is a job dispatched to that entry. */
  predicate EntryOk(s: Service, e: nat)
    requires e < |s.entries|
  {
    match s.entries[e].job
    case None => true
    case Some(j) => j < |s.jobs| && s.jobs[j].entry == e && s.entries[e].status.Active?
  }

  /** A timer is armed exactly while its promise is pending, and then its entry still holds its job. */
  predicate JobOk(s: Service, j: nat)
    requires j < |s.jobs|
  {
    var job := s.jobs[j];
    && job.entry < |s.entries|
    && (job.armed <==> job.outcome.Pending?)
    && (job.settleCalls == 0 <==> job.outcome.Pending?)
    && (job.armed ==> s.entries[job.entry].job == Some(j))
    && (job.cleaned ==> !job.outcome.Pending?)
  }

  /** In the pool: active if and only if it has a job, and that job's timer is armed. */
  predicate WorkerOk(s: Service, w: nat) {
    && w < |s.entries|
    && (s.entries[w].status.Active? <==> s.entries[w].job.Some?)
    && (s.entries[w].job.Some? ==> s.entries[w].job.value < |s.jobs| && s.jobs[s.entries[w].job.value].armed)
  }

  function IdOf(entries: seq<Entry>, w: nat): nat {
    if w < |entries| then entries[w].id else 0
  }

  function Ids(entries: seq<Entry>, workers: seq<nat>): (ids: seq<nat>)
    ensures |ids| == |workers|
  {
    seq(|workers|, i requires 0 <= i < |workers| => IdOf(entries, workers[i]))
  }

  function UpTo(n: nat): (r: seq<nat>)
    ensures |r| == n
  {
    seq(n, i => i)
  }

  predicate Distinct(workers: seq<nat>) {
    forall i, j :: 0 <= i < j < |workers| ==> workers[i] != workers[j]
  }

  predicate InRange(s: Service) {
    forall w :: w in s.workers ==> w < |s.entries|
  }

  /** The pool holds each of the ids 0 .. workerCount-1 exactly once while ready, and nothing otherwise. */
  predicate Staffed(s: Service) {
    && InRange(s)
    && Distinct(s.workers)
    && if s.ready then multiset(Ids(s.entries, s.workers)) == multiset(UpTo(s.workerCount)) else s.workers == []
  }

  predicate PoolInvExcept(s: Service, x: nat) {
    && (forall e {:trigger EntryOk(s, e)} :: 0 <= e < |s.entries| ==> EntryOk(s, e))
    && (forall j {:trigger JobOk(s, j)} :: 0 <= j < |s.jobs| ==> JobOk(s, j))
    && (forall w {:trigger WorkerOk(s, w)} :: w in s.workers && w != x ==> WorkerOk(s, w))
    && Staffed(s)
  }

  predicate PoolInv(s: Service) {
    PoolInvExcept(s, |s.entries|)
  }

  // ----- the pool invariant is kept

  lemma IdsExtend(s: Service, id: nat)
    requires InRange(s)
    ensures InRange(Spawn(s, id))
    ensures Ids(Spawn(s, id).entries, Spawn(s, id).workers) == Ids(s.entries, s.workers) + [id]
  {
    forall i | 0 <= i < |s.workers| ensures s.workers[i] < |s.entries| {
      assert s.workers[i] in s.workers;
    }
  }

  lemma IdsSame(s: Service, t: Service)
    requires InRange(s) && t.workers == s.workers && |t.entries| == |s.entries|
    requires forall e :: 0 <= e < |s.entries| ==> t.entries[e].id == s.entries[e].id
    ensures InRange(t) && Ids(t.entries, t.workers) == Ids(s.entries, s.workers)
  {
  }

  lemma SpawnKeepsRest(s: Service, id: nat)
    requires (forall e {:trigger EntryOk(s, e)} :: 0 <= e < |s.entries| ==> EntryOk(s, e))
    requires (forall j {:trigger JobOk(s, j)} :: 0 <= j < |s.jobs| ==> JobOk(s, j))
    requires (forall w {:trigger WorkerOk(s, w)} :: w in s.workers ==> WorkerOk(s, w))
    requires Distinct(s.workers)
    ensures var t := Spawn(s, id);
            && (forall e {:trigger EntryOk(t, e)} :: 0 <= e < |t.entries| ==> EntryOk(t, e))
            && (forall j {:trigger JobOk(t, j)} :: 0 <= j < |t.jobs| ==> JobOk(t, j))
            && (forall w {:trigger WorkerOk(t, w)} :: w in t.workers ==> WorkerOk(t, w))
            && Distinct(t.workers)
  {
    var t := Spawn(s, id);
    forall e | 0 <= e < |t.entries| ensures EntryOk(t, e) {
      if e < |s.entries| { assert EntryOk(s, e); }
    }
    forall j | 0 <= j < |t.jobs| ensures JobOk(t, j) { assert JobOk(s, j); }
    forall w | w in t.workers ensures WorkerOk(t, w) {
      if w in s.workers { assert WorkerOk(s, w); }
    }
    forall i | 0 <= i < |s.workers| ensures s.workers[i] != |s.entries| {
      assert WorkerOk(s, s.workers[i]);
    }
  }

  lemma {:induction false} SpawnFromInv(s: Service, i: nat)
    requires i <= s.workerCount && s.ready
    requires (forall e {:trigger EntryOk(s, e)} :: 0 <= e < |s.entries| ==> EntryOk(s, e))
    requires (forall j {:trigger JobOk(s, j)} :: 0 <= j < |s.jobs| ==> JobOk(s, j))
    requires (forall w {:trigger WorkerOk(s, w)} :: w in s.workers ==> WorkerOk(s, w))
    requires Distinct(s.workers) && InRange(s) && Ids(s.entries, s.workers) == UpTo(i)
    ensures PoolInv(SpawnFrom(s, i))
    decreases s.workerCount - i
  {
    if i < s.workerCount {
      SpawnKeepsRest(s, i);
      IdsExtend(s, i);
      assert UpTo(i + 1) == UpTo(i) + [i];
      SpawnFromInv(Spawn(s, i), i + 1);
    }
  }

  lemma InitializeKeeps(s: Service)
    requires PoolInv(s)
    ensures PoolInv(Initialized(s))
  {
    var t := s.(ready := true, workers := []);
    forall e | 0 <= e < |t.entries| ensures EntryOk(t, e) { assert EntryOk(s, e); }
    forall j | 0 <= j < |t.jobs| ensures JobOk(t, j) { assert JobOk(s, j); }
    assert Ids(t.entries, t.workers) == UpTo(0);
    SpawnFromInv(t, 0);
  }

  lemma ResumeKeeps(s: Service, key: Key)
    requires PoolInv(s)
    ensures PoolInv(Resumed(s, key).0)
  {
    var t := Resumed(s, key).0;
    if key !in s.inFlight && FirstIdle(s.entries, s.workers).Some? {
      var a, n := FirstIdle(s.entries, s.workers).value, |s.jobs|;
      assert WorkerOk(s, a);
      forall e | 0 <= e < |t.entries| ensures EntryOk(t, e) { assert EntryOk(s, e); }
      forall j | 0 <= j < |t.jobs| ensures JobOk(t, j) {
        if j < n { assert JobOk(s, j); }
      }
      forall w | w in t.workers ensures WorkerOk(t, w) { assert WorkerOk(s, w); }
      IdsSame(s, t);
    }
  }

  lemma ReleaseKeeps(s: Service, e: nat, status: Status, outcome: Outcome)
    requires PoolInv(s) && e < |s.entries| && !outcome.Pending?
    ensures PoolInvExcept(Released(s, e, status, outcome), e)
    ensures !status.Active? || e !in s.workers ==> PoolInv(Released(s, e, status, outcome))
  {
    var t := Released(s, e, status, outcome);
    if s.entries[e].job.Some? {
      var k := s.entries[e].job.value;
      assert EntryOk(s, e);
      forall x | 0 <= x < |t.entries| ensures EntryOk(t, x) { assert EntryOk(s, x); }
      forall j | 0 <= j < |t.jobs| ensures JobOk(t, j) { assert JobOk(s, j); }
      forall w | w in t.workers && (w != e || !status.Active?) ensures WorkerOk(t, w) {
        assert WorkerOk(s, w);
        if w != e { assert EntryOk(s, w); }
      }
      IdsSame(s, t);
    }
  }

  lemma {:induction false} WithoutElements(workers: seq<nat>, e: nat)
    requires Distinct(workers) && e in workers
    ensures forall w :: w in Without(workers, e) <==> w in workers && w != e
    ensures Distinct(Without(workers, e))
  {
    if workers[0] != e {
      var rest := workers[1..];
      assert Distinct(rest) by {
        forall i, j | 0 <= i < j < |rest| ensures rest[i] != rest[j] {
          assert rest[i] == workers[i + 1] && rest[j] == workers[j + 1];
        }
      }
      WithoutElements(rest, e);
      var r := Without(workers, e);
      forall w ensures w in r <==> w in workers && w != e {
        assert w in workers <==> w == workers[0] || w in rest;
      }
      forall i, j | 0 <= i < j < |r| ensures r[i] != r[j] {
        if i == 0 {
          assert r[j] in rest;
        }
      }
    } else {
      var rest := workers[1..];
      forall w ensures w in rest <==> w in workers && w != e {
        assert w in workers <==> w == workers[0] || w in rest;
      }
    }
  }

  lemma {:induction false} WithoutIds(entries: seq<Entry>, workers: seq<nat>, e: nat)
    requires e in workers
    ensures multiset(Ids(entries, workers)) == multiset(Ids(entries, Without(workers, e))) + multiset{IdOf(entries, e)}
  {
    var rest := workers[1..];
    assert Ids(entries, workers) == [IdOf(entries, workers[0])] + Ids(entries, rest);
    if workers[0] != e {
      var cut := Without(rest, e);
      WithoutIds(entries, rest, e);
      assert Ids(entries, Without(workers, e)) == [IdOf(entries, workers[0])] + Ids(entries, cut);
    }
  }

  lemma {:induction false} WithoutAt(workers: seq<nat>, e: nat, index: nat)
    requires index < |workers| && workers[index] == e && e !in workers[..index]
    ensures Without(workers, e) == workers[..index] + workers[index + 1..]
  {
    if index > 0 {
      var rest := workers[1..];
      assert workers[0] in workers[..index];
      forall i | 0 <= i < index - 1 ensures rest[i] != e { assert rest[i] == workers[..index][i + 1]; }
      WithoutAt(rest, e, index - 1);
      assert workers[..index] + workers[index + 1..] == [workers[0]] + (rest[..index - 1] + rest[index..]);
    }
  }

  lemma ReplaceKeeps(s: Service, e: nat)
    requires PoolInvExcept(s, e) && e < |s.entries| && (s.ready || e !in s.workers)
    ensures PoolInv(Replaced(s, e))
  {
    if e in s.workers {
      var t := s.(workers := Without(s.workers, e));
      WithoutElements(s.workers, e);
      WithoutIds(s.entries, s.workers, e);
      forall x | 0 <= x < |t.entries| ensures EntryOk(t, x) { assert EntryOk(s, x); }
      forall j | 0 <= j < |t.jobs| ensures JobOk(t, j) { assert JobOk(s, j); }
      forall w | w in t.workers ensures WorkerOk(t, w) { assert WorkerOk(s, w); }
      SpawnKeepsRest(t, s.entries[e].id);
      IdsExtend(t, s.entries[e].id);
    } else {
      forall w | w in s.workers ensures WorkerOk(s, w) {}
    }
  }

  lemma TimeoutIsRelease(s: Service, j: nat)
    requires PoolInv(s) && j < |s.jobs| && s.jobs[j].armed
    ensures s.jobs[j].entry < |s.entries|
    ensures s.entries[s.jobs[j].entry].job == Some(j)
    ensures TimedOut(s, j) == Released(s, s.jobs[j].entry, Recycling, Rejected(ProverTimeout))
  {
    assert JobOk(s, j);
  }

  lemma CleanupKeeps(s: Service, k: nat)
    requires PoolInv(s)
    ensures PoolInv(CleanedUp(s, k))
  {
    var t := CleanedUp(s, k);
    if t != s {
      forall x | 0 <= x < |t.entries| ensures EntryOk(t, x) { assert EntryOk(s, x); }
      forall j | 0 <= j < |t.jobs| ensures JobOk(t, j) { assert JobOk(s, j); }
      forall w | w in t.workers ensures WorkerOk(t, w) { assert WorkerOk(s, w); }
    }
  }

  lemma {:induction false} RejectHeldJobs(s: Service, n: nat, j: nat)
    requires PoolInv(s) && n <= |s.workers| && j < |s.jobs|
    ensures RejectHeld(s, n)[j] ==
            if s.jobs[j].armed && s.jobs[j].entry in s.workers[..n] then Settled(s.jobs[j], Rejected(ShuttingDown))
            else s.jobs[j]
  {
    if n > 0 {
      var w := s.workers[n - 1];
      RejectHeldJobs(s, n - 1, j);
      assert s.workers[..n] == s.workers[..n - 1] + [w];
      assert w in s.workers;
      assert WorkerOk(s, w) && EntryOk(s, w) && JobOk(s, j);
      assert w !in s.workers[..n - 1];
    }
  }

  lemma ShutdownKeeps(s: Service)
    requires PoolInv(s)
    ensures PoolInv(ShutDown(s))
  {
    var t := ShutDown(s);
    forall j | 0 <= j < |t.jobs| ensures JobOk(t, j) {
      assert JobOk(s, j);
      RejectHeldJobs(s, |s.workers|, j);
    }
    forall x | 0 <= x < |t.entries| ensures EntryOk(t, x) {
      assert EntryOk(s, x);
      if s.entries[x].job.Some? { RejectHeldJobs(s, |s.workers|, s.entries[x].job.value); }
    }
  }

  /** Every event keeps the pool invariant, shutdowns and restarts included. */
  lemma StepKeepsPool(s: Service, ev: Event)
    requires PoolInv(s)
    ensures PoolInv(Step(s, ev))
  {
    match ev
    case Initialize => InitializeKeeps(s);
    case Resume(key) => ResumeKeeps(s, key);
    case Message(w, outcome) =>
      if w < |s.entries| && !outcome.Pending? { ReleaseKeeps(s, w, Idle, outcome); }
    case Error(w) =>
      if w < |s.entries| {
        ReleaseKeeps(s, w, s.entries[w].status, Rejected(WorkerError));
        ReplaceKeeps(Released(s, w, s.entries[w].status, Rejected(WorkerError)), w);
      }
    case Exit(w) =>
      if w < |s.entries| {
        ReleaseKeeps(s, w, s.entries[w].status, Rejected(WorkerExited));
        if s.ready { ReplaceKeeps(Released(s, w, s.entries[w].status, Rejected(WorkerExited)), w); }
      }
    case Timeout(j) =>
      if j < |s.jobs| && s.jobs[j].armed {
        TimeoutIsRelease(s, j);
        ReleaseKeeps(s, s.jobs[j].entry, Recycling, Rejected(ProverTimeout));
      }
    case Cleanup(j) => CleanupKeeps(s, j);
    case Shutdown => ShutdownKeeps(s);
  }

  lemma FreshInv(workerCount: nat)
    ensures PoolInv(Fresh(workerCount))
  {
  }

  lemma {:induction false} RunKeepsPool(s: Service, events: seq<Event>)
    requires PoolInv(s)
    ensures PoolInv(Run(s, events))
    decreases |events|
  {
    if events != [] {
      StepKeepsPool(s, events[0]);
      RunKeepsPool(Step(s, events[0]), events[1..]);
    }
  }

  // ----- what the pool invariant means for a ready service

  /** The pool's ids are exactly 0 .. workerCount-1, each once. */
  lemma PoolIdsExact(s: Service, id: nat)
    requires PoolInv(s) && s.ready
    ensures |s.workers| == s.workerCount
    ensures multiset(Ids(s.entries, s.workers))[id] == if id < s.workerCount then 1 else 0
  {
    assert |multiset(Ids(s.entries, s.workers))| == |multiset(UpTo(s.workerCount))|;
    UpToOnce(s.workerCount, id);
  }

  lemma {:induction false} UpToOnce(n: nat, id: nat)
    ensures multiset(UpTo(n))[id] == if id < n then 1 else 0
  {
    if n > 0 {
      UpToOnce(n - 1, id);
      assert UpTo(n) == UpTo(n - 1) + [n - 1];
    }
  }

  /** In every reachable state, a pool worker is active iff it holds a job iff a timer is armed for it. */
  lemma ActiveIffJobIffTimer(workerCount: nat, events: seq<Event>, w: nat)
    requires w in Run(Fresh(workerCount), events).workers
    ensures var t := Run(Fresh(workerCount), events);
            && w < |t.entries|
            && (t.entries[w].status.Active? <==> t.entries[w].job.Some?)
            && (t.entries[w].job.Some? <==> exists j :: 0 <= j < |t.jobs| && t.jobs[j].armed && t.jobs[j].entry == w)
  {
    var t := Run(Fresh(workerCount), events);
    FreshInv(workerCount);
    RunKeepsPool(Fresh(workerCount), events);
    assert WorkerOk(t, w) && EntryOk(t, w);
    if j :| 0 <= j < |t.jobs| && t.jobs[j].armed && t.jobs[j].entry == w {
      assert JobOk(t, j);
    }
  }

  /** A firing timer finds its own job still on its entry: it never acts against a later one. */
  lemma TimerFiresOnItsOwnJob(s: Service, events: seq<Event>, j: nat)
    requires PoolInv(s)
    requires j < |Run(s, events).jobs| && Run(s, events).jobs[j].armed
    ensures var t := Run(s, events);
            && t.jobs[j].entry < |t.entries| && t.entries[t.jobs[j].entry].job == Some(j)
            && t.jobs[j].outcome.Pending?
  {
    RunKeepsPool(s, events);
    assert JobOk(Run(s, events), j);
  }

  // ----- promises and recycled workers over a run

  /** A later state of a run: jobs keep their identity and their outcome, recycled entries stay recycled. */
  predicate Later(s: Service, t: Service) {
    && |s.entries| <= |t.entries| && |s.jobs| <= |t.jobs|
    && (forall j {:trigger t.jobs[j]} :: 0 <= j < |s.jobs| ==> JobLater(s.jobs[j], t.jobs[j]))
    && (forall e {:trigger t.entries[e]} :: 0 <= e < |s.entries| ==> EntryLater(s.entries[e], t.entries[e]))
    && (forall j {:trigger t.jobs[j]} :: |s.jobs| <= j < |t.jobs| ==> NotRecycled(s, t.jobs[j].entry))
  }

  predicate NotRecycled(s: Service, e: nat) {
    e < |s.entries| ==> !s.entries[e].status.Recycling?
  }

  predicate JobLater(a: Job, b: Job) {
    && a.entry == b.entry && a.key == b.key
    && (!a.outcome.Pending? ==> b.outcome == a.outcome)
    && (a.cleaned ==> b.cleaned) && (!a.armed ==> !b.armed)
  }

  predicate EntryLater(a: Entry, b: Entry) {
    a.id == b.id && (a.status.Recycling? ==> b.status.Recycling? && b.job.None?)
  }

  /** Spawning only adds to entries and pool. */
  lemma {:induction false} SpawnFromAdds(s: Service, i: nat)
    ensures var t := SpawnFrom(s, i);
            && s.workers <= t.workers && s.entries <= t.entries
            && t.jobs == s.jobs && t.inFlight == s.inFlight && t.ready == s.ready && t.workerCount == s.workerCount
    decreases s.workerCount - i
  {
    if i < s.workerCount { SpawnFromAdds(Spawn(s, i), i + 1); }
  }

  lemma ReleaseIsLater(s: Service, e: nat, status: Status, outcome: Outcome)
    requires PoolInv(s) && e < |s.entries|
    requires s.entries[e].status.Recycling? ==> status.Recycling?
    ensures Later(s, Released(s, e, status, outcome))
  {
    forall x | 0 <= x < |s.entries| ensures s.entries[x].status.Recycling? ==> s.entries[x].job.None? {
      assert EntryOk(s, x);
    }
  }

  lemma ResumeIsLater(s: Service, key: Key)
    requires PoolInv(s)
    ensures Later(s, Resumed(s, key).0)
  {
    forall x | 0 <= x < |s.entries| ensures s.entries[x].status.Recycling? ==> s.entries[x].job.None? {
      assert EntryOk(s, x);
    }
  }

  lemma StepIsLater(s: Service, ev: Event)
    requires PoolInv(s)
    ensures Later(s, Step(s, ev))
  {
    forall x | 0 <= x < |s.entries| ensures s.entries[x].status.Recycling? ==> s.entries[x].job.None? {
      assert EntryOk(s, x);
    }
    match ev
    case Initialize => SpawnFromAdds(s.(ready := true, workers := []), 0);
    case Resume(key) => ResumeIsLater(s, key);
    case Message(w, outcome) =>
      if w < |s.entries| && !s.entries[w].status.Recycling? { ReleaseIsLater(s, w, Idle, outcome); }
    case Error(w) => if w < |s.entries| { ReleaseIsLater(s, w, s.entries[w].status, Rejected(WorkerError)); }
    case Exit(w) => if w < |s.entries| { ReleaseIsLater(s, w, s.entries[w].status, Rejected(WorkerExited)); }
    case Timeout(j) =>
      if j < |s.jobs| && s.jobs[j].armed {
        TimeoutIsRelease(s, j);
        ReleaseIsLater(s, s.jobs[j].entry, Recycling, Rejected(ProverTimeout));
      }
    case Cleanup(j) =>
    case Shutdown =>
      forall j | 0 <= j < |s.jobs| ensures JobLater(s.jobs[j], ShutDown(s).jobs[j]) {
        RejectHeldJobs(s, |s.workers|, j);
      }
  }

  lemma LaterTransitive(a: Service, b: Service, c: Service)
    requires Later(a, b) && Later(b, c)
    ensures Later(a, c)
  {
    forall j | 0 <= j < |a.jobs| ensures JobLater(a.jobs[j], c.jobs[j]) {
      assert JobLater(a.jobs[j], b.jobs[j]) && JobLater(b.jobs[j], c.jobs[j]);
    }
    forall e | 0 <= e < |a.entries| ensures EntryLater(a.entries[e], c.entries[e]) {
      assert EntryLater(a.entries[e], b.entries[e]) && EntryLater(b.entries[e], c.entries[e]);
    }
    forall j | |a.jobs| <= j < |c.jobs| ensures NotRecycled(a, c.jobs[j].entry) {
      if j < |b.jobs| {
        assert JobLater(b.jobs[j], c.jobs[j]) && NotRecycled(a, b.jobs[j].entry);
      } else {
        assert NotRecycled(b, c.jobs[j].entry);
        if c.jobs[j].entry < |a.entries| {
          assert EntryLater(a.entries[c.jobs[j].entry], b.entries[c.jobs[j].entry]);
        }
      }
    }
  }

  /**
   Over every run: a settled proof keeps its outcome, and an entry that timed out stays out of
   service, so that no job dispatched afterwards ever runs on it.
   */
  lemma {:induction false} RunIsLater(s: Service, events: seq<Event>)
    requires PoolInv(s)
    ensures Later(s, Run(s, events))
    decreases |events|
  {
    if events == [] {
      StepIsLater(s, Cleanup(|s.jobs|));
    } else {
      var t := Step(s, events[0]);
      StepIsLater(s, events[0]);
      StepKeepsPool(s, events[0]);
      RunIsLater(t, events[1..]);
      LaterTransitive(s, t, Run(t, events[1..]));
    }
  }

  /** Nothing but one entry and one job changes. */
  predicate OnlyTouches(s: Service, t: Service, e: nat, j: nat) {
    && t.ready == s.ready && t.workerCount == s.workerCount && t.workers == s.workers && t.inFlight == s.inFlight
    && |t.entries| == |s.entries| && |t.jobs| == |s.jobs|
    && (forall x {:trigger t.entries[x]} :: 0 <= x < |s.entries| && x != e ==> t.entries[x] == s.entries[x])
    && (forall k {:trigger t.jobs[k]} :: 0 <= k < |s.jobs| && k != j ==> t.jobs[k] == s.jobs[k])
  }

  /** A job that was pending now has this outcome and no timer; a settled one keeps its outcome. */
  predicate SettledBy(before: Job, after: Job, outcome: Outcome) {
    && after.entry == before.entry && after.key == before.key && after.cleaned == before.cleaned && !after.armed
    && after.settleCalls == before.settleCalls + 1
    && after.outcome == if before.outcome.Pending? then outcome else before.outcome
  }

  /** A timeout takes its worker out of service and rejects its own job; a timer no longer armed does nothing. */
  lemma TimeoutRecycles(s: Service, j: nat)
    requires PoolInv(s) && j < |s.jobs|
    ensures !s.jobs[j].armed ==> TimedOut(s, j) == s
    ensures s.jobs[j].armed ==>
              var t, e := TimedOut(s, j), s.jobs[j].entry;
              && e < |s.entries| && OnlyTouches(s, t, e, j)
              && t.entries[e] == Entry(s.entries[e].id, Recycling, None)
              && SettledBy(s.jobs[j], t.jobs[j], Rejected(ProverTimeout)) && s.jobs[j].outcome.Pending?
  {
    assert JobOk(s, j);
  }

  /** After its timeout an entry stays out of service and no later job of any run is sent to it. */
  lemma TimedOutNeverDispatchedAgain(s: Service, j: nat, events: seq<Event>)
    requires PoolInv(s) && j < |s.jobs| && s.jobs[j].armed
    ensures var e, t := s.jobs[j].entry, Run(TimedOut(s, j), events);
            && e < |t.entries| && t.entries[e].status.Recycling? && t.entries[e].job.None?
            && j < |t.jobs| && t.jobs[j].outcome == Rejected(ProverTimeout)
            && forall k {:trigger t.jobs[k]} :: |s.jobs| <= k < |t.jobs| ==> t.jobs[k].entry != e
  {
    var s', e := TimedOut(s, j), s.jobs[j].entry;
    TimeoutRecycles(s, j);
    StepKeepsPool(s, Timeout(j));
    RunIsLater(s', events);
    var t := Run(s', events);
    assert EntryLater(s'.entries[e], t.entries[e]) && JobLater(s'.jobs[j], t.jobs[j]);
    forall k | |s.jobs| <= k < |t.jobs| ensures t.jobs[k].entry != e {
      assert NotRecycled(s', t.jobs[k].entry);
    }
  }

  // ----- each job is settled once

  /** No entry still points at a rejected job, as a shutdown leaves them. */
  predicate Unhaunted(s: Service) {
    && (forall e {:trigger s.entries[e]} :: 0 <= e < |s.entries| && s.entries[e].job.Some? ==>
          s.entries[e].job.value < |s.jobs| && s.jobs[s.entries[e].job.value].armed)
    && (forall j {:trigger s.jobs[j]} :: 0 <= j < |s.jobs| ==> s.jobs[j].settleCalls <= 1)
  }

  /** Within a session resolve or reject is called exactly once on every job that stops being pending. */
  lemma StepSettlesOnce(s: Service, ev: Event)
    requires PoolInv(s) && Unhaunted(s) && !ev.Shutdown?
    ensures Unhaunted(Step(s, ev))
  {
    match ev
    case Initialize => SpawnFromNewEntries(s.(ready := true, workers := []), 0);
    case Resume(key) => ResumeSettlesOnce(s, key);
    case Message(w, outcome) => if w < |s.entries| { ReleaseSettlesOnce(s, w, Idle, outcome); }
    case Error(w) =>
      if w < |s.entries| { ReleaseSettlesOnce(s, w, s.entries[w].status, Rejected(WorkerError)); }
    case Exit(w) =>
      if w < |s.entries| { ReleaseSettlesOnce(s, w, s.entries[w].status, Rejected(WorkerExited)); }
    case Timeout(j) =>
      if j < |s.jobs| && s.jobs[j].armed {
        TimeoutIsRelease(s, j);
        ReleaseSettlesOnce(s, s.jobs[j].entry, Recycling, Rejected(ProverTimeout));
      }
    case Cleanup(j) =>
  }

  lemma ResumeSettlesOnce(s: Service, key: Key)
    requires Unhaunted(s)
    ensures Unhaunted(Resumed(s, key).0)
  {
  }

  lemma {:induction false} SpawnFromNewEntries(s: Service, i: nat)
    requires Unhaunted(s)
    ensures Unhaunted(SpawnFrom(s, i))
    decreases s.workerCount - i
  {
    if i < s.workerCount { SpawnFromNewEntries(Spawn(s, i), i + 1); }
  }

  lemma ReleaseSettlesOnce(s: Service, w: nat, status: Status, outcome: Outcome)
    requires PoolInv(s) && Unhaunted(s) && w < |s.entries|
    ensures Unhaunted(Released(s, w, status, outcome))
  {
    var t := Released(s, w, status, outcome);
    if s.entries[w].job.Some? {
      var k := s.entries[w].job.value;
      assert EntryOk(s, w) && JobOk(s, k);
      forall e | 0 <= e < |t.entries| && t.entries[e].job.Some?
        ensures t.entries[e].job.value < |t.jobs| && t.jobs[t.entries[e].job.value].armed
      {
        assert EntryOk(s, e);
      }
    }
  }

  predicate NoShutdown(events: seq<Event>) {
    forall i :: 0 <= i < |events| ==> !events[i].Shutdown?
  }

  // ----- one worker per cache key

  /** The in-flight map holds exactly the dispatched jobs whose clean-up has not run. */
  predicate Deduplicated(s: Service) {
    && (forall j {:trigger s.jobs[j]} :: 0 <= j < |s.jobs| && !s.jobs[j].cleaned ==>
          s.jobs[j].key in s.inFlight && s.inFlight[s.jobs[j].key] == j)
    && (forall k {:trigger s.inFlight[k]} :: k in s.inFlight ==>
          s.inFlight[k] < |s.jobs| && s.jobs[s.inFlight[k]].key == k && !s.jobs[s.inFlight[k]].cleaned)
  }

  lemma StepKeepsDeduplicated(s: Service, ev: Event)
    requires Deduplicated(s) && !ev.Shutdown?
    ensures Deduplicated(Step(s, ev))
  {
    match ev
    case Initialize => SpawnFromDeduplicated(s.(ready := true, workers := []), 0);
    case Resume(key) => ResumeDeduplicated(s, key);
    case Message(w, outcome) => if w < |s.entries| { ReleaseDeduplicated(s, w, Idle, outcome); }
    case Error(w) => if w < |s.entries| { ReleaseDeduplicated(s, w, s.entries[w].status, Rejected(WorkerError)); }
    case Exit(w) => if w < |s.entries| { ReleaseDeduplicated(s, w, s.entries[w].status, Rejected(WorkerExited)); }
    case Timeout(j) => SettleDeduplicated(s, j, Rejected(ProverTimeout));
    case Cleanup(j) => CleanupDeduplicated(s, j);
  }

  lemma ResumeDeduplicated(s: Service, key: Key)
    requires Deduplicated(s)
    ensures Deduplicated(Resumed(s, key).0)
  {
  }

  lemma CleanupDeduplicated(s: Service, j: nat)
    requires Deduplicated(s)
    ensures Deduplicated(CleanedUp(s, j))
  {
  }

  lemma SettleDeduplicated(s: Service, j: nat, outcome: Outcome)
    requires Deduplicated(s)
    ensures Deduplicated(s.(jobs := SettleJob(s.jobs, j, outcome)))
  {
  }

  lemma ReleaseDeduplicated(s: Service, w: nat, status: Status, outcome: Outcome)
    requires Deduplicated(s) && w < |s.entries|
    ensures Deduplicated(Released(s, w, status, outcome))
  {
    if s.entries[w].job.Some? { SettleDeduplicated(s, s.entries[w].job.value, outcome); }
  }

  lemma {:induction false} SpawnFromDeduplicated(s: Service, i: nat)
    requires Deduplicated(s)
    ensures Deduplicated(SpawnFrom(s, i))
    decreases s.workerCount - i
  {
    if i < s.workerCount { SpawnFromDeduplicated(Spawn(s, i), i + 1); }
  }

  /** A session: any events without a shutdown, from a state with no clean-up outstanding. */
  lemma {:induction false} SessionInvariant(s: Service, events: seq<Event>)
    requires PoolInv(s) && Unhaunted(s) && Deduplicated(s) && NoShutdown(events)
    ensures PoolInv(Run(s, events)) && Unhaunted(Run(s, events)) && Deduplicated(Run(s, events))
    decreases |events|
  {
    if events != [] {
      assert !events[0].Shutdown?;
      StepKeepsPool(s, events[0]);
      StepSettlesOnce(s, events[0]);
      StepKeepsDeduplicated(s, events[0]);
      assert NoShutdown(events[1..]);
      SessionInvariant(Step(s, events[0]), events[1..]);
    }
  }

  /** In a session no job's promise is resolved or rejected twice. */
  lemma EachJobSettledOnce(workerCount: nat, events: seq<Event>, j: nat)
    requires NoShutdown(events) && j < |Run(Fresh(workerCount), events).jobs|
    ensures var job := Run(Fresh(workerCount), events).jobs[j];
            job.settleCalls == if job.outcome.Pending? then 0 else 1
  {
    FreshInv(workerCount);
    SessionInvariant(Fresh(workerCount), events);
    assert JobOk(Run(Fresh(workerCount), events), j);
  }

  /** In a session at most one worker runs a given cache key, and that key is in the in-flight map. */
  lemma OneWorkerPerKey(workerCount: nat, events: seq<Event>, v: nat, w: nat)
    requires NoShutdown(events)
    requires var t := Run(Fresh(workerCount), events);
             && v in t.workers && w in t.workers && v < |t.entries| && w < |t.entries|
             && t.entries[v].job.Some? && t.entries[w].job.Some?
    ensures var t := Run(Fresh(workerCount), events);
            var a, b := t.entries[v].job.value, t.entries[w].job.value;
            && a < |t.jobs| && b < |t.jobs|
            && t.jobs[a].key in t.inFlight && t.inFlight[t.jobs[a].key] == a
            && (t.jobs[a].key == t.jobs[b].key ==> v == w)
  {
    var t := Run(Fresh(workerCount), events);
    FreshInv(workerCount);
    SessionInvariant(Fresh(workerCount), events);
    var a, b := t.entries[v].job.value, t.entries[w].job.value;
    assert EntryOk(t, v) && EntryOk(t, w);
    assert JobOk(t, a) && JobOk(t, b);
    assert t.jobs[a].armed && t.jobs[b].armed;
  }

  /** In a session a clean-up removes its own job's entry from the in-flight map and nothing else. */
  lemma CleanupRemovesItsOwnEntry(workerCount: nat, events: seq<Event>, j: nat)
    requires NoShutdown(events)
    requires var t := Run(Fresh(workerCount), events);
             j < |t.jobs| && !t.jobs[j].outcome.Pending? && !t.jobs[j].cleaned
    ensures var t := Run(Fresh(workerCount), events);
            && t.jobs[j].key in t.inFlight && t.inFlight[t.jobs[j].key] == j
            && CleanedUp(t, j).inFlight == t.inFlight - {t.jobs[j].key}
  {
    FreshInv(workerCount);
    SessionInvariant(Fresh(workerCount), events);
  }

  /** The three replies of a request whose cache read missed. */
  lemma ReplyMeaning(s: Service, key: Key)
    requires PoolInv(s)
    ensures var (t, reply) := Resumed(s, key);
            match reply
            case Joined(j) =>
              && t == s && key in s.inFlight && j == s.inFlight[key]
              && (Deduplicated(s) ==> j < |s.jobs| && s.jobs[j].key == key && !s.jobs[j].cleaned)
            case Dispatched(j) =>
              && j == |s.jobs| && |t.jobs| == j + 1 && t.jobs[j].key == key && t.jobs[j].outcome.Pending?
              && t.jobs[j].entry in s.workers && s.entries[t.jobs[j].entry].status.Idle?
              && t.entries[t.jobs[j].entry] == Entry(s.entries[t.jobs[j].entry].id, Active, Some(j))
              && t.jobs[j].armed && t.inFlight == s.inFlight[key := j] && key !in s.inFlight
              && OnlyTouches(s.(inFlight := t.inFlight, jobs := s.jobs + [t.jobs[j]]), t, t.jobs[j].entry, j)
            case AtCapacity =>
              t == s && key !in s.inFlight && forall w :: w in s.workers ==> !s.entries[w].status.Idle?
  {
  }

  /** The worker chosen is the first idle one in pool order. */
  lemma {:induction false} FirstIdleIsFirst(entries: seq<Entry>, workers: seq<nat>) returns (i: nat)
    requires FirstIdle(entries, workers).Some?
    ensures i < |workers| && FirstIdle(entries, workers).value == workers[i]
    ensures forall k :: 0 <= k < i && workers[k] < |entries| ==> !entries[workers[k]].status.Idle?
  {
    i := 0;
    if !(workers[0] < |entries| && entries[workers[0]].status.Idle?) {
      var k := FirstIdleIsFirst(entries, workers[1..]);
      i := k + 1;
      assert forall m :: 1 <= m < i ==> workers[m] == workers[1..][m - 1];
    }
  }

  /** A start makes the service ready with workerCount new idle workers, whatever there was before, and touches nothing else. */
  lemma InitializeStarts(s: Service)
    ensures var t, n := Initialized(s), |s.entries|;
            && t.ready && t.workerCount == s.workerCount && t.jobs == s.jobs && t.inFlight == s.inFlight
            && |t.workers| == s.workerCount && |t.entries| == n + s.workerCount && s.entries <= t.entries
            && forall i {:trigger t.workers[i]} :: 0 <= i < s.workerCount ==>
                 t.workers[i] == n + i && t.entries[n + i] == Entry(i, Idle, None)
  {
    SpawnFromShape(s.(ready := true, workers := []), 0);
  }

  /** Spawning from id i on appends one idle entry per id. */
  lemma {:induction false} SpawnFromShape(s: Service, i: nat)
    requires i <= s.workerCount
    ensures var t, n, m := SpawnFrom(s, i), |s.entries|, s.workerCount - i;
            && t.ready == s.ready && t.workerCount == s.workerCount && t.jobs == s.jobs && t.inFlight == s.inFlight
            && |t.workers| == |s.workers| + m && |t.entries| == n + m && s.entries <= t.entries && s.workers <= t.workers
            && forall k {:trigger t.workers[k]} :: |s.workers| <= k < |t.workers| ==>
                 t.workers[k] == n + k - |s.workers| && t.entries[n + k - |s.workers|] == Entry(i + k - |s.workers|, Idle, None)
    decreases s.workerCount - i
  {
    if i < s.workerCount {
      var u := Spawn(s, i);
      SpawnFromShape(u, i + 1);
      var t, n := SpawnFrom(s, i), |s.entries|;
      assert t == SpawnFrom(u, i + 1);
      assert |u.entries| == n + 1 && |u.workers| == |s.workers| + 1;
      forall k | |s.workers| <= k < |t.workers|
        ensures t.workers[k] == n + k - |s.workers|
             && t.entries[n + k - |s.workers|] == Entry(i + k - |s.workers|, Idle, None)
      {
        if k == |s.workers| {
          assert t.workers[k] == u.workers[k] == n && t.entries[n] == u.entries[n] == Entry(i, Idle, None);
        } else {
          assert t.workers[k] == |u.entries| + k - |u.workers|;
        }
      }
    }
  }

  /** An answer settles the job its worker holds and makes the worker idle; without a job it is ignored. */
  lemma MessageSettles(s: Service, w: nat, outcome: Outcome)
    requires PoolInv(s) && w < |s.entries|
    ensures s.entries[w].job.None? ==> Messaged(s, w, outcome) == s
    ensures s.entries[w].job.Some? ==>
              var t, j := Messaged(s, w, outcome), s.entries[w].job.value;
              && j < |s.jobs| && OnlyTouches(s, t, w, j)
              && t.entries[w] == Entry(s.entries[w].id, Idle, None) && SettledBy(s.jobs[j], t.jobs[j], outcome)
              && (w in s.workers ==> s.jobs[j].outcome.Pending?)
  {
    assert EntryOk(s, w);
    if w in s.workers && s.entries[w].job.Some? {
      assert WorkerOk(s, w);
      assert JobOk(s, s.entries[w].job.value);
    }
  }

  /** A failing or exiting worker is replaced by a fresh idle one under the same id; its job is rejected. */
  lemma FailureReplaces(s: Service, w: nat, exited: bool)
    requires PoolInv(s) && s.ready && w in s.workers
    ensures w < |s.entries|
    ensures var t, n := if exited then Exited(s, w) else Errored(s, w), |s.entries|;
            && w !in t.workers && n in t.workers && t.entries[n] == Entry(s.entries[w].id, Idle, None)
            && (forall v :: v in s.workers && v != w ==> v in t.workers && t.entries[v] == s.entries[v])
            && t.ready && t.inFlight == s.inFlight && |t.entries| == n + 1 && |t.jobs| == |s.jobs|
            && t.entries[w] == s.entries[w].(job := None)
            && (s.entries[w].job.None? ==> t.jobs == s.jobs)
            && (s.entries[w].job.Some? ==>
                  var j := s.entries[w].job.value;
                  && j < |s.jobs| && s.jobs[j].outcome.Pending?
                  && SettledBy(s.jobs[j], t.jobs[j], Rejected(if exited then WorkerExited else WorkerError))
                  && forall k {:trigger t.jobs[k]} :: 0 <= k < |s.jobs| && k != j ==> t.jobs[k] == s.jobs[k])
  {
    assert WorkerOk(s, w);
    if s.entries[w].job.Some? { assert JobOk(s, s.entries[w].job.value); }
    WithoutElements(s.workers, w);
  }

  /** A worker that is no longer in the pool is not replaced; a job it still holds is rejected. */
  lemma StrayFailureRejects(s: Service, w: nat, exited: bool)
    requires PoolInv(s) && w < |s.entries| && w !in s.workers
    ensures var t := if exited then Exited(s, w) else Errored(s, w);
            && (s.entries[w].job.None? ==> t == s)
            && (s.entries[w].job.Some? ==>
                  var j := s.entries[w].job.value;
                  && j < |s.jobs| && OnlyTouches(s, t, w, j)
                  && t.entries[w] == s.entries[w].(job := None)
                  && SettledBy(s.jobs[j], t.jobs[j], Rejected(if exited then WorkerExited else WorkerError)))
  {
    assert EntryOk(s, w);
  }

  /** A clean-up runs once, after its job has settled, and then only forgets the job's key. */
  lemma CleanupForgetsKey(s: Service, j: nat)
    requires j < |s.jobs|
    ensures var t := CleanedUp(s, j);
            if s.jobs[j].outcome.Pending? || s.jobs[j].cleaned then t == s
            else
              && t.jobs[j] == s.jobs[j].(cleaned := true) && s.jobs[j].key !in t.inFlight
              && OnlyTouches(s.(inFlight := t.inFlight), t, |s.entries|, j)
              && forall k :: k != s.jobs[j].key ==>
                   (k in t.inFlight <==> k in s.inFlight) && (k in s.inFlight ==> t.inFlight[k] == s.inFlight[k])
  {
  }

  /** A shutdown rejects the job of every pool worker, disarms its timer, and empties pool and map; no other job changes. */
  lemma ShutdownRejects(s: Service, j: nat)
    requires PoolInv(s) && j < |s.jobs|
    ensures var t := ShutDown(s);
            && t.workers == [] && t.inFlight == map[] && !t.ready && t.workerCount == s.workerCount
            && t.entries == s.entries && |t.jobs| == |s.jobs|
            && if exists w :: w in s.workers && w < |s.entries| && s.entries[w].job == Some(j)
               then s.jobs[j].outcome.Pending? && SettledBy(s.jobs[j], t.jobs[j], Rejected(ShuttingDown))
               else t.jobs[j] == s.jobs[j]
  {
    assert s.workers[..|s.workers|] == s.workers;
    RejectHeldJobs(s, |s.workers|, j);
    assert JobOk(s, j);
    if w :| w in s.workers && w < |s.entries| && s.entries[w].job == Some(j) {
      assert WorkerOk(s, w) && EntryOk(s, w);
    }
  }

  // ----- across a shutdown

  /** A shutdown leaves the in-flight map exact if and only if every dispatched job had been cleaned up. */
  lemma ShutdownDeduplicatedIff(s: Service)
    requires PoolInv(s)
    ensures Deduplicated(ShutDown(s)) <==> forall j {:trigger s.jobs[j]} :: 0 <= j < |s.jobs| ==> s.jobs[j].cleaned
  {
    var t := ShutDown(s);
    forall j | 0 <= j < |s.jobs| ensures t.jobs[j].cleaned == s.jobs[j].cleaned {
      RejectHeldJobs(s, |s.workers|, j);
    }
  }

  /** The key of the job a worker holds. */
  function HeldKey(s: Service, w: nat): Option<Key> {
    if w < |s.entries| && s.entries[w].job.Some? && s.entries[w].job.value < |s.jobs| then
      Some(s.jobs[s.entries[w].job.value].key)
    else None
  }

  /** Two workers of the pool run one key. */
  ghost predicate DoubleRun(s: Service) {
    exists v, w :: v in s.workers && w in s.workers && v != w && HeldKey(s, v).Some? && HeldKey(s, v) == HeldKey(s, w)
  }

  /** An exact in-flight map rules it out. */
  lemma ExactMapOneWorker(s: Service)
    requires PoolInv(s) && Deduplicated(s)
    ensures !DoubleRun(s)
  {
    forall v, w | v in s.workers && w in s.workers && HeldKey(s, v).Some? && HeldKey(s, v) == HeldKey(s, w) ensures v == w {
      var a, b := s.entries[v].job.value, s.entries[w].job.value;
      assert WorkerOk(s, v) && WorkerOk(s, w) && EntryOk(s, v) && EntryOk(s, w);
      assert JobOk(s, a) && JobOk(s, b);
    }
  }

  lemma {:induction false} ExactMapStaysExact(s: Service, events: seq<Event>)
    requires Deduplicated(s) && NoShutdown(events)
    ensures Deduplicated(Run(s, events))
    decreases |events|
  {
    if events != [] {
      assert !events[0].Shutdown?;
      StepKeepsDeduplicated(s, events[0]);
      assert NoShutdown(events[1..]);
      ExactMapStaysExact(Step(s, events[0]), events[1..]);
    }
  }

  lemma StepKeepsWorkerCount(s: Service, ev: Event)
    ensures Step(s, ev).workerCount == s.workerCount
  {
    if ev.Initialize? { SpawnFromAdds(s.(ready := true, workers := []), 0); }
  }

  lemma {:induction false} RunKeepsWorkerCount(s: Service, events: seq<Event>)
    ensures Run(s, events).workerCount == s.workerCount
    decreases |events|
  {
    if events != [] {
      StepKeepsWorkerCount(s, events[0]);
      RunKeepsWorkerCount(Step(s, events[0]), events[1..]);
    }
  }

  /** Fewer than two workers cannot run a key twice. */
  lemma SmallPoolOneWorker(s: Service)
    requires PoolInv(s) && s.workerCount < 2
    ensures !DoubleRun(s)
  {
    if s.ready { PoolIdsExact(s, 0); }
    forall v, w | v in s.workers && w in s.workers ensures v == w {
    }
  }

  /** A pool whose first two workers are idle, with nothing in flight, and a settled job whose clean-up is still to come. */
  predicate Restarted(s: Service, a: nat, b: nat, j: nat) {
    && |s.workers| >= 2 && s.workers[0] == a && s.workers[1] == b && a != b && a < |s.entries| && b < |s.entries|
    && s.entries[a].status.Idle? && s.entries[b].status.Idle? && s.inFlight == map[]
    && j < |s.jobs| && !s.jobs[j].outcome.Pending? && !s.jobs[j].cleaned
  }

  lemma InitializeRestarts(s: Service, j: nat)
    requires s.workerCount >= 2 && s.inFlight == map[]
    requires j < |s.jobs| && !s.jobs[j].outcome.Pending? && !s.jobs[j].cleaned
    ensures Restarted(Initialized(s), |s.entries|, |s.entries| + 1, j) && Initialized(s).jobs == s.jobs
  {
    InitializeStarts(s);
    assert Initialized(s).workers[0] == |s.entries| && Initialized(s).workers[1] == |s.entries| + 1;
  }

  lemma FirstIsIdle(entries: seq<Entry>, workers: seq<nat>)
    requires workers != [] && workers[0] < |entries| && entries[workers[0]].status.Idle?
    ensures FirstIdle(entries, workers) == Some(workers[0])
  {
  }

  lemma SecondIsIdle(entries: seq<Entry>, workers: seq<nat>)
    requires |workers| >= 2 && workers[0] < |entries| && !entries[workers[0]].status.Idle?
    requires workers[1] < |entries| && entries[workers[1]].status.Idle?
    ensures FirstIdle(entries, workers) == Some(workers[1])
  {
    FirstIsIdle(entries, workers[1..]);
  }

  /** The late clean-up deletes the entry of the job running now, and a second request starts a second worker. */
  lemma LateCleanupDoubles(s: Service, a: nat, b: nat, j: nat)
    requires Restarted(s, a, b, j)
    ensures var key := s.jobs[j].key; DoubleRun(Step(Step(Step(s, Resume(key)), Cleanup(j)), Resume(key)))
  {
    var key, n := s.jobs[j].key, |s.jobs|;
    FirstIsIdle(s.entries, s.workers);
    var s1 := Step(s, Resume(key));
    var s2 := Step(s1, Cleanup(j));
    assert s1.jobs[j] == s.jobs[j] && s1.entries[a].job == Some(n) && s1.jobs[n].key == key;
    assert key !in s2.inFlight && s2.entries == s1.entries && |s2.jobs| == n + 1;
    SecondIsIdle(s2.entries, s2.workers);
    var s3 := Step(s2, Resume(key));
    assert s3.entries[b].job == Some(n + 1) && s3.jobs[n + 1].key == key;
    assert s3.entries[a].job == Some(n) && s3.jobs[n].key == key;
    assert s3.workers[0] == a && s3.workers[1] == b;
    assert HeldKey(s3, a) == Some(key) == HeldKey(s3, b);
  }

  /** What a shutdown keeps of a job; firing its timer, if one is still armed, settles it. */
  lemma ShutdownLeavesJob(s: Service, j: nat)
    requires PoolInv(s) && j < |s.jobs| && !s.jobs[j].cleaned
    ensures var t := Step(ShutDown(s), Timeout(j));
            && t.workerCount == s.workerCount && t.inFlight == map[]
            && j < |t.jobs| && !t.jobs[j].outcome.Pending? && !t.jobs[j].cleaned
  {
    RejectHeldJobs(s, |s.workers|, j);
    ShutdownKeeps(s);
    assert JobOk(ShutDown(s), j);
  }

  /** The restart race: a run after the shutdown in which two workers run the key of a job not cleaned up. */
  lemma RestartRace(s: Service, j: nat) returns (events: seq<Event>)
    requires PoolInv(s) && s.workerCount >= 2 && j < |s.jobs| && !s.jobs[j].cleaned
    ensures NoShutdown(events) && DoubleRun(Run(ShutDown(s), events))
  {
    ShutdownLeavesJob(s, j);
    var s0 := ShutDown(s);
    var s1 := Step(s0, Timeout(j));
    InitializeRestarts(s1, j);
    var s2 := Step(s1, Initialize);
    var key := s2.jobs[j].key;
    LateCleanupDoubles(s2, |s1.entries|, |s1.entries| + 1, j);
    var s3 := Step(s2, Resume(key));
    var s4 := Step(s3, Cleanup(j));
    var e4 := [Resume(key)] + [];
    var e3 := [Cleanup(j)] + e4;
    var e2 := [Resume(key)] + e3;
    var e1 := [Initialize] + e2;
    events := [Timeout(j)] + e1;
    RunCons(s0, Timeout(j), e1);
    RunCons(s1, Initialize, e2);
    RunCons(s2, Resume(key), e3);
    RunCons(s3, Cleanup(j), e4);
    RunCons(s4, Resume(key), []);
  }

  /** Some run after a shutdown, up to the next one, has two workers of the pool on one key. */
  ghost predicate CanDoubleRun(s: Service) {
    exists events :: NoShutdown(events) && DoubleRun(Run(ShutDown(s), events))
  }

  /**
   One worker per key survives a shutdown of the service if and only if every job had been cleaned
   up by then, or there are not two workers.
   */
  lemma RestartRaceIff(s: Service)
    requires PoolInv(s)
    ensures CanDoubleRun(s) <==> s.workerCount >= 2 && exists j :: 0 <= j < |s.jobs| && !s.jobs[j].cleaned
  {
    if s.workerCount >= 2 && exists j :: 0 <= j < |s.jobs| && !s.jobs[j].cleaned {
      var j :| 0 <= j < |s.jobs| && !s.jobs[j].cleaned;
      var events := RestartRace(s, j);
    } else {
      forall events | NoShutdown(events) ensures !DoubleRun(Run(ShutDown(s), events)) {
        var t := Run(ShutDown(s), events);
        ShutdownKeeps(s);
        RunKeepsPool(ShutDown(s), events);
        RunKeepsWorkerCount(ShutDown(s), events);
        if s.workerCount < 2 {
          SmallPoolOneWorker(t);
        } else {
          ShutdownDeduplicatedIff(s);
          ExactMapStaysExact(ShutDown(s), events);
          ExactMapOneWorker(t);
        }
      }
    }
  }

  lemma RunCons(s: Service, e: Event, rest: seq<Event>)
    ensures Run(s, [e] + rest) == Run(Step(s, e), rest)
  {
    assert ([e] + rest)[1..] == rest;
  }

  // ----- the service object

  class ZKProofService {
    const workerCount: nat
    var isReady: bool
    var workers: seq<nat>
    var entries: seq<Entry>
    var jobs: seq<Job>
    var inFlightProofs: map<Key, nat>

    function View(): Service
      reads this
    {
      Service(isReady, workerCount, workers, entries, jobs, inFlightProofs)
    }

    constructor (workerCount: nat)
      ensures View() == Fresh(workerCount) && PoolInv(View())
    {
      this.workerCount := workerCount;
      isReady, workers, entries, jobs, inFlightProofs := false, [], [], [], map[];
      new;
      FreshInv(workerCount);
    }

    method InitializePool()
      requires PoolInv(View())
      modifies this
      ensures PoolInv(View()) && View() == Step(old(View()), Initialize)
    {
      StepKeepsPool(View(), Initialize);
      isReady := true;
      workers := [];
      ghost var start := View();
      for i := 0 to workerCount
        invariant SpawnFrom(View(), i) == SpawnFrom(start, 0)
      {
        SpawnWorker(i);
      }
    }

    method SpawnWorker(id: nat)
      modifies this
      ensures View() == Spawn(old(View()), id)
    {
      entries := entries + [Entry(id, Idle, None)];
      workers := workers + [|entries| - 1];
    }

    /** The first idle entry, marked active; none when the pool is at capacity. */
    method AcquireWorker() returns (r: Option<nat>)
      requires PoolInv(View())
      modifies this`entries
      ensures r == FirstIdle(old(entries), workers)
      ensures r.None? ==> entries == old(entries)
      ensures r.Some? ==> r.value < |old(entries)|
                          && entries == old(entries)[r.value := old(entries)[r.value].(status := Active)]
    {
      for i := 0 to |workers|
        invariant FirstIdle(entries, workers) == FirstIdle(entries, workers[i..])
      {
        assert workers[i] in workers;
        if entries[workers[i]].status.Idle? {
          r := Some(workers[i]);
          entries := entries[workers[i] := entries[workers[i]].(status := Active)];
          return;
        }
        assert workers[i..][1..] == workers[i + 1..];
      }
      r := None;
    }

    /** The part of generateProof after its cache read missed. */
    method GenerateProof(key: Key) returns (reply: Reply)
      requires PoolInv(View())
      modifies this
      ensures PoolInv(View()) && (View(), reply) == Resumed(old(View()), key)
    {
      StepKeepsPool(View(), Resume(key));
      if key in inFlightProofs {
        return Joined(inFlightProofs[key]);
      }
      ghost var before := entries;
      var worker := AcquireWorker();
      if worker.None? {
        return AtCapacity;
      }
      var e, j := worker.value, |jobs|;
      entries := entries[e := entries[e].(job := Some(j))];
      assert entries == before[e := before[e].(status := Active, job := Some(j))];
      jobs := jobs + [Job(e, key, true, Pending, 0, false)];
      inFlightProofs := inFlightProofs[key := j];
      return Dispatched(j);
    }

    method OnMessage(e: nat, outcome: Outcome)
      requires PoolInv(View()) && e < |entries| && !outcome.Pending?
      modifies this
      ensures PoolInv(View()) && View() == Step(old(View()), Message(e, outcome))
    {
      StepKeepsPool(View(), Message(e, outcome));
      var job := entries[e].job;
      if job.None? {
        return;
      }
      jobs := SettleJob(jobs, job.value, outcome);
      entries := entries[e := entries[e].(job := None, status := Idle)];
    }

    method OnError(e: nat)
      requires PoolInv(View()) && e < |entries|
      modifies this
      ensures PoolInv(View()) && View() == Step(old(View()), Error(e))
    {
      StepKeepsPool(View(), Error(e));
      var job := entries[e].job;
      if job.Some? {
        jobs := SettleJob(jobs, job.value, Rejected(WorkerError));
        entries := entries[e := entries[e].(job := None)];
      }
      ReplaceWorker(e);
    }

    method OnExit(e: nat)
      requires PoolInv(View()) && e < |entries|
      modifies this
      ensures PoolInv(View()) && View() == Step(old(View()), Exit(e))
    {
      StepKeepsPool(View(), Exit(e));
      var job := entries[e].job;
      if job.Some? {
        jobs := SettleJob(jobs, job.value, Rejected(WorkerExited));
        entries := entries[e := entries[e].(job := None)];
      }
      if isReady {
        ReplaceWorker(e);
      }
    }

    /** `indexOf`, `splice`, and a new worker under the same id while the service is ready. */
    method ReplaceWorker(e: nat)
      requires e < |entries|
      modifies this
      ensures View() == Replaced(old(View()), e)
    {
      if e !in workers {
        return;
      }
      var index := 0;
      while workers[index] != e
        invariant 0 <= index < |workers| && e !in workers[..index]
        decreases |workers| - index
      {
        index := index + 1;
      }
      WithoutAt(workers, e, index);
      workers := workers[..index] + workers[index + 1..];
      if isReady {
        SpawnWorker(entries[e].id);
      }
    }

    method OnTimeout(j: nat)
      requires PoolInv(View()) && j < |jobs| && jobs[j].armed
      modifies this
      ensures PoolInv(View()) && View() == Step(old(View()), Timeout(j))
    {
      StepKeepsPool(View(), Timeout(j));
      assert JobOk(View(), j);
      var e := jobs[j].entry;
      entries := entries[e := entries[e].(job := None, status := Recycling)];
      jobs := SettleJob(jobs, j, Rejected(ProverTimeout));
    }

    method OnSettled(j: nat)
      requires PoolInv(View()) && j < |jobs| && !jobs[j].outcome.Pending? && !jobs[j].cleaned
      modifies this
      ensures PoolInv(View()) && View() == Step(old(View()), Cleanup(j))
    {
      StepKeepsPool(View(), Cleanup(j));
      inFlightProofs := inFlightProofs - {jobs[j].key};
      jobs := jobs[j := jobs[j].(cleaned := true)];
    }

    method ShutdownService()
      requires PoolInv(View())
      modifies this
      ensures PoolInv(View()) && View() == Step(old(View()), Shutdown)
    {
      StepKeepsPool(View(), Shutdown);
      ghost var start := View();
      isReady := false;
      for i := 0 to |workers|
        invariant workers == start.workers && entries == start.entries && !isReady
        invariant inFlightProofs == start.inFlight && jobs == RejectHeld(start, i)
      {
        assert workers[i] in workers;
        if entries[workers[i]].job.Some? {
          jobs := SettleJob(jobs, entries[workers[i]].job.value, Rejected(ShuttingDown));
        }
      }
      workers := [];
      inFlightProofs := map[];
    }
  }
}
