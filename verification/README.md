# SoroTask verification

A Dafny model of the parts of SoroTask whose correctness is hardest to see from the code, with proofs
for all inputs, all runs or all reachable states. `dafny verify dfyconfig.toml` checks the project.

| file | what it models |
|---|---|
| `Common.dfy` | the option and byte types the other files share |
| `PrimeField.dfy` | congruence, Euclid's lemma, Fermat's little theorem, the square-and-multiply inverse |
| `Polynomial.dfy` | root counting, uniqueness of interpolation and Lagrange's formula modulo a prime |
| `Shamir.dfy` | splitting a secret, reconstructing it, secrecy of too few shares, repeated participants |
| `ThresholdContext.dfy` | the key buffer, its hexadecimal number and its 32-byte reconstruction |
| `DependencyGraph.dfy` | the iterative dependency validator and every graph it can let through |
| `WorkerPool.dfy` | the proof worker pool and the in-flight map as an event-step system |
| `TaskStorage.dfy` | split/legacy task storage, its migration, and the plain map it refines |
| `Upgrade.dfy` | the timelocked upgrade workflow over whole runs |
| `PackedArgs.dfy` | the compact argument codec |
| `FeeMath.dfy` | 128-bit rounding and the exact fee-split laws |
| `WasmSections.dfy` | LEB128 in double precision and the WebAssembly section walk |
| `AbiCaching.dfy` | the LRU/TTL cache with its persistent tier |
| `MerkleProof.dfy` | order-independent Merkle membership proofs over hexadecimal digests |

## How the code is rendered

- Loops are methods with invariants, objects are classes whose methods are tied to a step function of
  the old state, and the properties are proved about those functions.
- JavaScript's `%` on bigints is `JsRem` (sign of the dividend). Rust's `/` and `%` are `TruncDiv` and
  `TruncRem`. JavaScript numbers that can exceed 2^53 are rounded by `ToDouble`.
- Random bytes, clocks, ledger times, authorisations and answers of foreign code are parameters.
- A Soroban panic reverts, so a panicking call is a failed step with no state change.
- Pool entries and jobs are named by their position in growing lists, which stand for the objects that
  event handlers and timers keep referring to after an entry has left the pool.
- The Shamir modulus is a parameter assumed prime; that 2^256 - 189 is prime is not proved here.

## Where the code falls short of its documentation

- A multiple of the modulus has no inverse and `modInverse` answers 0 (`InverseOfZero`), so a repeated
  participant is not noticed: its share silently gets weight zero (`RepeatedNodeWeighsNothing`). The
  context only counts participants. For every list, with or without repetitions, all secrets are recovered
  if and only if the moments of the weights match (`AlwaysReconstructsIff`); with exactly t participants
  that means no repetition (`ExactThresholdIffDistinct`), fewer than t nodes named once always fail
  (`TooFewNamedOnce`, for example `RepeatedExtraNodeFails`), and some repetitions are harmless
  (`RepeatedNodesMayRecover`).
- A key survives splitting if and only if it has 32 bytes and lies below the modulus (`KeyRoundTrip`).
- The cycle search is cut at depth 5 and misses long cycles; the depth check is what rejects them
  (`LongCycleIsCaughtByDepthOnly`). It misses short ones too: a task pushed again takes its latest depth, so a
  detour of five edges hides a path of two (`ShortCycleIsMissed`, on graphs that the validator lets be stored,
  `DetourIsReachable`). A cycle is reported as one along every walk whose tasks lie at the end of no walk of
  five or more edges (`FindsMeaning`). Stored chains are not bounded by the depth limit
  (`LongChainsAreReachable`).
- The in-flight map is exact within a session. After a shutdown some run puts two workers on one key if and
  only if there are at least two workers and some job had not been cleaned up (`RestartRaceIff`).
- A task whose meta record was written before migration keeps its payload in the legacy record only
  (`MigrationCoversLegacyTasks`, reached by `EarlyUpdateLeavesPayload`).
- An upgrade executes only if its migration target exceeds the contract version (`ExecuteSucceedsIff`); a
  proposal from version 2 on whose migration version is not above it can never run.
- The argument codec's module comment speaks of 1, 2, 4, 8 or 16 bytes and of a length nibble in the tag; the
  code writes a length byte of its own and any length from 1 to 8 or 16 (`WireFormat`).
- Decoding the least 128-bit integer panics with overflow checks and wraps correctly without; the
  manifest sets no profile, so overflow checking is a parameter of the model (`RoundTrip`).
- `div_ceil` is a ceiling, and `div_floor` a floor, only under the stated sign conditions
  (`DivCeilIsCeilingIff`, `DivFloorIsFloorIff`); a fee rate above 100% makes the keeper's part negative
  (`SplitIsExact`).
- `readUnsignedLeb128` rounds lengths above 2^53 (`LebRoundTrip`, `LebRoundsAboveLimit`); the section walk
  is not affected.
- A promoted cache entry can be almost two lifetimes old (`PromotionRestartsTheClock`). Invalidating a
  contract also clears the keys of every contract whose id continues its id after a colon, and no others as
  long as hashes are free of colons (`InvalidateContractExact`, `SparesIff`).
- `verifyMerkleProof` does not check its siblings, and hexadecimal decoding stops silently. A sibling of 65
  characters, or of more than 128, lets a digest that is no leaf pass without any hash collision; siblings of
  every other length do not (`LevelSoundIff`, `FirstSiblingIff`, `ForgedProof`). Nor does it check the depth
  (`InnerNodePassesWithShorterProof`).

## Model

| member | source | states |
|---|---|---|
| PrimeField.EuclidLemma | zk-proof-service/index.js:72-89 | a prime dividing a product divides a factor, the cancellation all of GF(p) rests on |
| PrimeField.Fermat | zk-proof-service/index.js:72-79 | a^(p-1) is 1 modulo every prime p not dividing a, proved from scratch |
| PrimeField.InverseIsInverse | zk-proof-service/index.js:72-79 | a^(p-2) is the inverse of every a the prime p does not divide |
| PrimeField.InverseOfZero | zk-proof-service/index.js:78-89 | a multiple of p has no inverse, and the loop answers 0 for p > 2 |
| PrimeField.NormalisedCong | zk-proof-service/index.js:81 | the normalisation brings every integer, negative ones too, to its residue |
| PrimeField.SquareMultiplyStep | zk-proof-service/index.js:83-87 | one round keeps result * base^exp in its residue class |
| PrimeField.ModInverse | zk-proof-service/index.js:78-89 | the loop computes a^(p-2) mod p, and a * result is 1 modulo a prime not dividing a |
| Polynomial.RootCount | zk-proof-service/index.js:91-114 | a polynomial with as many distinct roots as coefficients vanishes modulo p |
| Polynomial.InterpolationUnique | zk-proof-service/index.js:91-114 | polynomials agreeing at enough points have congruent coefficients |
| Polynomial.LagrangeInterpolates | zk-proof-service/index.js:97-114 | Lagrange's formula passes through each of its points |
| Polynomial.LagrangeReproduces | zk-proof-service/index.js:97-114 | interpolating enough values of a polynomial gives its value everywhere |
| Shamir.LagrangeInterpolateAtZero | zk-proof-service/index.js:97-114 | the nested loops compute Lagrange's formula at zero, reduced for shares in the field |
| Shamir.WeightParts | zk-proof-service/index.js:102-109 | the inner loop computes numerator and denominator of a share's weight |
| Shamir.EvaluateShare | zk-proof-service/index.js:136-142 | the term loops compute the polynomial's value modulo p |
| Shamir.ShamirSplit | zk-proof-service/index.js:126-146 | shares are the points 1..n of the polynomial with the secret at zero; too large a secret is refused |
| Shamir.ShamirReconstruct | zk-proof-service/index.js:153-156 | the result is Lagrange's formula at zero |
| Shamir.ReconstructionTheorem | zk-proof-service/index.js:97-156 | any t or more distinct shares reconstruct exactly the secret, whatever the random coefficients |
| Shamir.EverySecretPossible | zk-proof-service/index.js:126-146 | fewer than t shares can be explained by every secret |
| Shamir.SecrecyTheorem | zk-proof-service/index.js:126-146 | t-1 distinct shares fit every secret through exactly one choice of coefficients |
| Shamir.SplitSecrecy | zk-proof-service/index.js:126-146 | whatever t-1 nodes see of a split arises for every secret from exactly one choice of the random values |
| Shamir.SplitUsesResidues | zk-proof-service/index.js:128-133 | random values act as their residues, and only the first t-1 count |
| Shamir.SplitThenReconstruct | zk-proof-service/index.js:126-156 | the shares that t or more distinct nodes hold after a split give the secret back |
| Shamir.TooFewDistinctNodes | zk-proof-service/index.js:205-219 | participants that are fewer than t without repetitions fail for some secret |
| Shamir.AlwaysReconstructsIff | zk-proof-service/index.js:97-114 | any list of participants recovers every secret iff its weights have moments 1, 0, .., 0 below t |
| Shamir.MatchingMomentsRecover | zk-proof-service/index.js:97-156 | participants with matching moments reconstruct the secret of every polynomial |
| Shamir.RepeatedNodeWeighsNothing | zk-proof-service/index.js:97-114 | the share of a node named twice is multiplied by zero |
| Shamir.TooFewNamedOnce | zk-proof-service/index.js:205-219 | however long the list, fewer than t nodes named exactly once fail for some secret |
| Shamir.RepeatedExtraNodeFails | zk-proof-service/index.js:205-219 | participants a, b, b with threshold 2 pass the guard and fail |
| Shamir.RepeatedNodesMayRecover | zk-proof-service/index.js:205-219 | participants 2, 1, 1 with threshold 1 recover every secret, so distinctness is not necessary |
| Shamir.ExactThresholdIffDistinct | zk-proof-service/index.js:205-219 | exactly t participants recover every secret iff no node is repeated |
| ThresholdContext.NumberKeyValue | zk-proof-service/index.js:220-221 | a number below 16^64 becomes 32 bytes that stand for it |
| ThresholdContext.ModulusFits | zk-proof-service/index.js:68-70 | residues of the code's modulus fit 64 hexadecimal digits |
| ThresholdContext.KeyNumberBigEndian | zk-proof-service/index.js:181 | the key buffer is read as a big-endian number |
| ThresholdContext.KeyRoundTrip | zk-proof-service/index.js:180-221 | a key is rebuilt iff it has 32 bytes and is below the modulus |
| ThresholdContext.Context.InitKey | zk-proof-service/index.js:180-187 | the context holds the shares of the key's number for the given random values; an empty buffer is refused |
| ThresholdContext.DefaultNodesRecover | zk-proof-service/index.js:202-203 | the default participants are distinct nodes and recover every key |
| ThresholdContext.Context.GatherShares | zk-proof-service/index.js:211-216 | the participants' shares in order, or the first participant without one |
| ThresholdContext.Context.RecoverKey | zk-proof-service/index.js:198-221 | each error exactly when it applies; the rebuilt buffer for every list; distinct, default or moment-matching participants rebuild the key |
| ThresholdContext.Context.FindShare | zk-proof-service/index.js:212-216 | a share is found iff the index is a node, and is that node's share |
| DependencyGraph.DepthOf | contract/src/dag.rs:84-92 | the first recorded depth of the id, or none iff it is not recorded |
| DependencyGraph.SetDepth | contract/src/dag.rs:94-103 | the list stands for the same map with the id at the new depth |
| DependencyGraph.PushParents | contract/src/dag.rs:68-78 | the target is hit iff it is a parent; otherwise exactly the unvisited parents are pushed, each one level deeper |
| DependencyGraph.SearchRound | contract/src/dag.rs:52-79 | one round of the loop is one step of the search |
| DependencyGraph.FindsMeaning | contract/src/dag.rs:40-82 | on every graph the search is sound within 5 edges, complete along clear walks, and exact when no walk from the start exceeds 5 |
| DependencyGraph.HasPath | contract/src/dag.rs:40-82 | terminates with the search's answer, hence all of the above |
| DependencyGraph.WouldCreateCycle | contract/src/dag.rs:31-37 | reports a return path within 5 edges, always along clear walks, exactly where the cut cannot be reached |
| DependencyGraph.MaxDepthFrom | contract/src/dag.rs:137-171 | min(longest walk, 6) from the task with the new edge, on every graph, cyclic or not |
| DependencyGraph.ValidateNewDependency | contract/src/dag.rs:106-129 | accepted iff ids differ, the parent list has room or the parent, and no walk exceeds 5; when each error is given and what it means |
| DependencyGraph.ClosingEdgeNotAcceptable | contract/src/dag.rs:120-126 | an edge closing a cycle of any length breaks the depth bound |
| DependencyGraph.AcceptedEdgeKeepsAcyclic | contract/src/dag.rs:124-126 | the depth bound alone keeps an acyclic graph acyclic |
| DependencyGraph.RunsStayAcyclic | contract/src/dag.rs:105-171 | every run of validated additions and arbitrary removals stays acyclic |
| DependencyGraph.ReachableGraphsAcyclic | contract/src/dag.rs:105-171 | so every graph built from no tasks is acyclic |
| DependencyGraph.LongChainsAreReachable | contract/src/dag.rs:131-134 | chains of every length can be stored |
| DependencyGraph.LongCycleIsCaughtByDepthOnly | contract/src/dag.rs:40-126 | for chains over 5 the cycle search misses the cycle and the depth check rejects it |
| DependencyGraph.DetourHides | contract/src/dag.rs:52-79 | behind a detour of five edges nothing of a task's direct parent is searched |
| DependencyGraph.ShortCycleIsMissed | contract/src/dag.rs:31-126 | closing a cycle of three edges there is reported as too deep |
| DependencyGraph.DetourIsReachable | contract/src/dag.rs:106-129 | the validator lets every such graph be stored |
| DependencyGraph.AddDependency | contract/src/lib.rs:6297-6311 | the stored graph changes exactly by a validated edge |
| DependencyGraph.RemoveDependency | contract/src/lib.rs:6362-6373 | exactly the named parent is removed and the others keep their order |
| WorkerPool.StepKeepsPool | zk-proof-service/index.js:298-457 | every event keeps the pool invariant, shutdown and restart included |
| WorkerPool.RunKeepsPool | zk-proof-service/index.js:298-457 | the pool invariant holds after every interleaving |
| WorkerPool.PoolIdsExact | zk-proof-service/index.js:298-305 | a ready pool holds each id 0..workerCount-1 exactly once |
| WorkerPool.ActiveIffJobIffTimer | zk-proof-service/index.js:325-352 | in every reachable state active iff a job is set iff a timer is armed for the worker |
| WorkerPool.TimerFiresOnItsOwnJob | zk-proof-service/index.js:438-446 | an armed timer's entry still holds that timer's pending job |
| WorkerPool.TimeoutRecycles | zk-proof-service/index.js:438-445 | a timeout recycles its entry and rejects its job, touching nothing else; a cleared timer does nothing |
| WorkerPool.RunIsLater | zk-proof-service/index.js:319-457 | over every run outcomes never change and recycled entries stay recycled |
| WorkerPool.TimedOutNeverDispatchedAgain | zk-proof-service/index.js:396-445 | no later job of any run is sent to a timed-out entry |
| WorkerPool.StepSettlesOnce | zk-proof-service/index.js:325-352 | no event of a session settles a job twice |
| WorkerPool.EachJobSettledOnce | zk-proof-service/index.js:325-445 | in a session resolve or reject is called once on each finished job, never on a pending one |
| WorkerPool.StepKeepsDeduplicated | zk-proof-service/index.js:418-457 | outside a shutdown the in-flight map holds exactly the jobs not yet cleaned up |
| WorkerPool.SessionInvariant | zk-proof-service/index.js:298-457 | all three invariants hold throughout a session |
| WorkerPool.OneWorkerPerKey | zk-proof-service/index.js:427-456 | at most one worker runs a cache key, and that key is in flight |
| WorkerPool.CleanupRemovesItsOwnEntry | zk-proof-service/index.js:450-455 | a clean-up deletes its own job's entry, never a newer one |
| WorkerPool.InitializeStarts | zk-proof-service/index.js:298-305 | from every state a start gives a ready pool of workerCount new idle workers and changes nothing else |
| WorkerPool.FirstIdleIsFirst | zk-proof-service/index.js:396-401 | the worker chosen is the first idle one in pool order |
| WorkerPool.ReplyMeaning | zk-proof-service/index.js:430-456 | joined iff in flight, dispatched to an idle worker with nothing else touched, refused iff none is idle |
| WorkerPool.MessageSettles | zk-proof-service/index.js:325-333 | an answer settles the held job and frees the worker, touching nothing else; without a job it is ignored |
| WorkerPool.FailureReplaces | zk-proof-service/index.js:334-370 | a failed worker is replaced under its id, its job rejected, all others untouched |
| WorkerPool.StrayFailureRejects | zk-proof-service/index.js:334-370 | a worker outside the pool is not replaced; only a job it holds is rejected |
| WorkerPool.CleanupForgetsKey | zk-proof-service/index.js:450-455 | a clean-up runs once after its job settled and forgets exactly that job's key |
| WorkerPool.ShutdownRejects | zk-proof-service/index.js:545-557 | shutdown rejects exactly the jobs of pool workers and empties pool and map |
| WorkerPool.ShutdownDeduplicatedIff | zk-proof-service/index.js:545-560 | the map is exact after a shutdown iff every job had been cleaned up |
| WorkerPool.RestartRace | zk-proof-service/index.js:452-454 | from every shutdown with two workers and a job not cleaned up, a run with two workers on its key |
| WorkerPool.RestartRaceIff | zk-proof-service/index.js:427-560 | two workers can run one key after a shutdown iff there are two workers and a job not cleaned up |
| WorkerPool.ZKProofService.InitializePool | zk-proof-service/index.js:298-305 | the loop performs the initialize step |
| WorkerPool.ZKProofService.SpawnWorker | zk-proof-service/index.js:319-354 | one idle entry is appended |
| WorkerPool.ZKProofService.AcquireWorker | zk-proof-service/index.js:396-401 | the first idle entry becomes active, nothing else changes |
| WorkerPool.ZKProofService.GenerateProof | zk-proof-service/index.js:430-456 | performs the resume step and gives its reply |
| WorkerPool.ZKProofService.OnMessage | zk-proof-service/index.js:325-333 | performs the message step |
| WorkerPool.ZKProofService.OnError | zk-proof-service/index.js:334-342 | performs the error step |
| WorkerPool.ZKProofService.OnExit | zk-proof-service/index.js:343-352 | performs the exit step |
| WorkerPool.ZKProofService.ReplaceWorker | zk-proof-service/index.js:365-370 | splices the entry and respawns its id while ready |
| WorkerPool.ZKProofService.OnTimeout | zk-proof-service/index.js:438-445 | performs the timeout step |
| WorkerPool.ZKProofService.OnSettled | zk-proof-service/index.js:450-455 | performs the clean-up step |
| WorkerPool.ZKProofService.ShutdownService | zk-proof-service/index.js:545-560 | the loop performs the shutdown step |
| TaskStorage.StepRefines | contract/src/storage.rs:138-242 | every write refines the same write on a plain map |
| TaskStorage.RunRefines | contract/src/storage.rs:58-242 | every run from a legacy-only store behaves as the run on a plain map, statistics included |
| TaskStorage.ReadersAgree | contract/src/storage.rs:217-222 | existence, readiness and parents read as on the plain map; a config loads iff the task exists |
| TaskStorage.RecordsMatchConfig | contract/src/storage.rs:58-158 | field by field the loaded meta and payload are the plain configuration's |
| TaskStorage.UpdateChangesMeta | contract/src/task.rs:32-40 | an update applies the function to its task's meta and to nothing else |
| TaskStorage.StatsFollowHistory | contract/src/storage.rs:187-199 | over every run the run count is the number of recorded runs since removal, capped at 2^64 - 1; failures and latest ledger |
| TaskStorage.LegacyCopyGoesStale | contract/src/storage.rs:175-199 | the legacy record goes stale and is not what readers see |
| TaskStorage.MigrationPreservesViews | contract/src/storage.rs:225-242 | migration changes no task's configuration or statistics |
| TaskStorage.MigrateUpToRecords | contract/src/storage.rs:232-240 | record by record what the migration loop leaves |
| TaskStorage.MigrationCoversLegacyTasks | contract/src/storage.rs:225-242 | every legacy task in 1..counter gets a meta record; exactly which payloads are split; others untouched |
| TaskStorage.EarlyUpdateLeavesPayload | contract/src/storage.rs:225-242 | a legacy task updated before the migration keeps its payload unsplit, and it still reads the same |
| TaskStorage.MigrationIdempotent | contract/src/storage.rs:225-242 | migrating twice is migrating once, on every store |
| TaskStorage.TaskStore.SaveTaskSplit | contract/src/storage.rs:138-179 | performs the save step on all four records |
| TaskStorage.TaskStore.UpdateTaskMeta | contract/src/task.rs:32-40 | performs the meta update iff the task exists and returns the new meta |
| TaskStorage.TaskStore.RecordSuccessfulRun | contract/src/storage.rs:187-199 | performs the run-recording step |
| TaskStorage.TaskStore.RemoveTask | contract/src/storage.rs:202-215 | performs the removal step |
| TaskStorage.TaskStore.MigrateLegacyTasks | contract/src/storage.rs:225-242 | the loop performs the migration step |
| Upgrade.OnlyAdminSucceeds | contract/src/admin.rs:15-22 | a call that is not the proxy admin's authorised one fails and changes nothing |
| Upgrade.ProposeSucceedsIff | contract/src/upgrade.rs:33-59 | a proposal is taken iff from the admin, for the current version and a higher one, with the stored fields |
| Upgrade.CancelSucceedsIff | contract/src/upgrade.rs:141-146 | a cancellation succeeds iff from the admin with something pending, and only drops it |
| Upgrade.ExecutePanics | contract/src/upgrade.rs:87-106 | which panic an execution by the admin gives, and when |
| Upgrade.ExecuteEffect | contract/src/upgrade.rs:87-138 | an execution keeps the admin and earlier records, uses up the proposal and sets the schema version |
| Upgrade.PendingProposalInvariant | contract/src/upgrade.rs:33-70 | a pending proposal is the admin's, expects the current version, raises it and carries its timelock |
| Upgrade.PendingProposalOrigin | contract/src/upgrade.rs:33-154 | what is pending was proposed by a call after which no call succeeded |
| Upgrade.InstalledHashIsLatestProposal | contract/src/upgrade.rs:87-138 | an installed hash is the latest uncancelled proposal, at least 48 hours old, and is recorded with caller and time |
| Upgrade.ExecuteSucceedsIff | contract/src/upgrade.rs:73-106 | when an upgrade executes |
| Upgrade.ProposedUpgradeExecutes | contract/src/upgrade.rs:33-138 | the admin's proposal, left alone for 48 hours, executes for the admin |
| Upgrade.CodeChangesOnlyByAdmin | contract/src/upgrade.rs:33-138 | over every run the code changes only by the admin's execution of the admin's proposal |
| Upgrade.ChainOrder | contract/src/upgrade.rs:108-124 | consecutive records meet and versions rise strictly along the chain |
| Upgrade.UpgradeHistory | contract/src/upgrade.rs:87-138 | over every run the records form such a chain ending at the current version |
| Upgrade.UpgradeMigratesTasks | contract/src/upgrade.rs:73-106 | an upgrade changes no task's view and from a version below 2 migrates every legacy task |
| Upgrade.UpgradeController.ProposeUpgrade | contract/src/upgrade.rs:33-70 | performs the propose call or reverts with its panic |
| Upgrade.UpgradeController.MigrateStorage | contract/src/upgrade.rs:73-84 | migrates below version 2, refuses a target that is not newer |
| Upgrade.UpgradeController.ExecuteUpgrade | contract/src/upgrade.rs:87-138 | performs the execute call or reverts with its panic |
| Upgrade.UpgradeController.CancelUpgrade | contract/src/upgrade.rs:141-154 | performs the cancel call or reverts with its panic |
| PackedArgs.MinLenIsMinimal | contract/src/packed_args.rs:30-44 | a length holds its value and no shorter one does |
| PackedArgs.PushVarintU64 | contract/src/packed_args.rs:48-58 | appends the length byte and the minimal little-endian bytes |
| PackedArgs.PushVarintI128 | contract/src/packed_args.rs:71-87 | appends sign, length and magnitude |
| PackedArgs.ReadVarintU64 | contract/src/packed_args.rs:60-69 | reads such a value or panics on a bad length or a short buffer |
| PackedArgs.ReadVarintI128 | contract/src/packed_args.rs:89-106 | the same for signed values, with wrap-around and the overflow of negation |
| PackedArgs.PackArgs | contract/src/packed_args.rs:126-167 | the loop concatenates the encodings of the arguments |
| PackedArgs.DecodeArg | contract/src/packed_args.rs:177-220 | one tag and value, a panic, or an unknown tag |
| PackedArgs.UnpackArgs | contract/src/packed_args.rs:172-223 | the loop decodes to the end, to a panic or to an unknown tag |
| PackedArgs.ReadArgBack | contract/src/packed_args.rs:126-223 | every encoded argument decodes to itself in any surroundings, but for the least integer under checks |
| PackedArgs.RoundTrip | contract/src/packed_args.rs:126-223 | unpacking inverts packing iff no argument is unreadable, and panics otherwise |
| PackedArgs.WireFormat | contract/src/packed_args.rs:20-167 | the bytes of every argument: its tag number, then a minimal varint, signed varint or blob |
| PackedArgs.UnknownTagEndsList | contract/src/packed_args.rs:219 | an unknown tag ends the list and what was read before is returned |
| PackedArgs.TruncatedBufferPanics | contract/src/packed_args.rs:60-220 | a buffer that ends inside an argument panics |
| PackedArgs.UndecodableBlobPanics | contract/src/packed_args.rs:192-217 | bytes that are no XDR of the announced type panic |
| PackedArgs.NumberReadableIff | contract/src/packed_args.rs:60-106 | exactly when a number can be read |
| PackedArgs.PackInjective | contract/src/packed_args.rs:126-167 | different argument lists pack differently |
| PackedArgs.PackedSizeIsSum | contract/src/packed_args.rs:225-230 | the packed size is the sum of the sizes computed from the values |
| PackedArgs.PackedSize | contract/src/packed_args.rs:228-230 | returns that sum |
| FeeMath.DivCeilIsCeilingIff | contract/src/math.rs:59-78 | a ceiling iff the divisor is positive or divides the product |
| FeeMath.DivCeilErrors | contract/src/math.rs:59-78 | when each error and the panic arise |
| FeeMath.DivFloorIsFloorIff | contract/src/math.rs:81-89 | a floor iff the quotient is not negative or exact |
| FeeMath.DivFloorErrors | contract/src/math.rs:81-89 | when each error and the panic arise |
| FeeMath.SplitComputesShare | contract/src/math.rs:94-104 | nothing for a fee that is not positive; otherwise a split succeeds iff the product fits and pays the rounded-up share |
| FeeMath.SplitIsExact | contract/src/math.rs:92-104 | parts add up, the keeper gets the floor, and none is negative iff the rate is at most 100% |
| FeeMath.SplitSubadditive | contract/src/math.rs:92-104 | if a + b can be split, so can a and b, for at most one more unit of protocol fee and never less |
| FeeMath.SplitsExcessBelowCount | contract/src/math.rs:92-104 | over n splits the parts add up to the fees, the protocol is never underpaid and its excess is under n units |
| FeeMath.YieldIsFloor | contract/src/math.rs:106-109 | yield overflows iff the product does, and on a non-negative principal is the floor |
| WasmSections.LebLengthIff | backend-abi-registry/parser.js:166-178 | a code is found exactly where one starts |
| WasmSections.ReadUnsignedLeb128 | backend-abi-registry/parser.js:166-178 | reads the code's value, rounded to a double, or reports a malformed length |
| WasmSections.LebRoundTrip | backend-abi-registry/parser.js:166-178 | every value below 2^56 is read back, exactly iff it is a multiple of the spacing of doubles |
| WasmSections.LebRoundsAboveLimit | backend-abi-registry/parser.js:171 | 2^53 + 1 is not read back exactly |
| WasmSections.RoundingIsNearest | backend-abi-registry/parser.js:171 | sums are rounded to the nearest double, ties to even |
| WasmSections.RoundedEndCompares | backend-abi-registry/parser.js:142-154 | rounded ends compare with the buffer as exact ones do |
| WasmSections.ScannedSection | backend-abi-registry/parser.js:139-162 | a section that passes is a well-formed section of the grammar |
| WasmSections.SectionScans | backend-abi-registry/parser.js:139-162 | a well-formed section passes and the walk goes on behind it |
| WasmSections.FaultIff | backend-abi-registry/parser.js:139-162 | a section is rejected with each error exactly if its bytes have that fault |
| WasmSections.WalkSection | backend-abi-registry/parser.js:139-162 | the loop body in doubles takes the exact branch |
| WasmSections.WalkModule | backend-abi-registry/parser.js:132-164 | accepts iff header and remainder are a module; otherwise the verdict is the fault of the first bad section |
| WasmSections.ValidateWasm | backend-abi-registry/parser.js:132-164 | accepts exactly the modules with no empty contractspecv0 section |
| AbiCaching.GetRefines | backend-abi-registry/abiCache.js:17-27 | a read returns and touches what the timestamped specification holds |
| AbiCaching.SetMemoryRefines | backend-abi-registry/abiCache.js:51-60 | a write evicts only a key touched longest ago, and only when full |
| AbiCaching.JustWrittenStays | backend-abi-registry/abiCache.js:51-60 | the key just written is never evicted |
| AbiCaching.StepRefinesLru | backend-abi-registry/abiCache.js:17-79 | every method refines a step of the LRU specification within capacity |
| AbiCaching.RunRefinesLru | backend-abi-registry/abiCache.js:17-79 | so does every run |
| AbiCaching.RunTruthful | backend-abi-registry/abiCache.js:17-79 | both tiers hold only latest, uninvalidated values with bounded expiry |
| AbiCaching.ServedValueIsLatest | backend-abi-registry/abiCache.js:17-60 | any served value is the latest set and younger than 2 TTL, or 1 TTL without the persistent tier |
| AbiCaching.PersistentTierIsExact | backend-abi-registry/abiCache.js:42-79 | over every run the persistent tier holds exactly the keys set and not invalidated, with latest value and expiry |
| AbiCaching.LatestValueIsServed | backend-abi-registry/abiCache.js:29-49 | over every run a value set less than one TTL ago and not invalidated is served, whatever was evicted |
| AbiCaching.PromotionRestartsTheClock | backend-abi-registry/abiCache.js:35-39 | a promoted value is served at age 2 TTL - 2 |
| AbiCaching.PrefixMatchesIff | backend-abi-registry/abiCache.js:12-15 | for all ids and hashes, exactly which keys a contract's prefix matches |
| AbiCaching.PrefixIdentifiesContract | backend-abi-registry/abiCache.js:12-15 | with colon-free ids a prefix matches one contract's keys only |
| AbiCaching.InvalidateContractExact | backend-abi-registry/abiCache.js:68-79 | for all ids, both tiers lose the keys of the contracts the id covers and no others |
| AbiCaching.SparesIff | backend-abi-registry/abiCache.js:68-79 | invalidating one contract spares all keys of another iff neither id continues the other after a colon |
| AbiCaching.KeysAreInjective | backend-abi-registry/abiCache.js:12-15 | pairs whose ids, or whose hashes, are colon-free have different keys |
| AbiCaching.AbiCache.ReadMemory | backend-abi-registry/abiCache.js:17-27 | performs the read step |
| AbiCaching.AbiCache.WriteMemory | backend-abi-registry/abiCache.js:51-60 | the eviction loop performs the memory write |
| AbiCaching.AbiCache.Read | backend-abi-registry/abiCache.js:29-40 | performs the read through both tiers |
| AbiCaching.AbiCache.Write | backend-abi-registry/abiCache.js:42-49 | performs the write to both tiers |
| AbiCaching.AbiCache.Forget | backend-abi-registry/abiCache.js:62-66 | performs the invalidation |
| AbiCaching.AbiCache.ForgetContract | backend-abi-registry/abiCache.js:68-79 | the key loop performs the contract invalidation |
| MerkleProof.NibbleValues | zk-proof-service/server.js:608 | the sixteen digits and their values in either case, and no others |
| MerkleProof.DecodedDigit | zk-proof-service/server.js:608 | the decoded characters are hexadecimal and give the bytes' digits |
| MerkleProof.DecodingStops | zk-proof-service/server.js:608 | decoding stops only before a pair that is not a byte |
| MerkleProof.VerifyMerkleProof | zk-proof-service/server.js:600-611 | accepts iff lengths agree and the leaf climbs to the root |
| MerkleProof.LexLeIff | zk-proof-service/server.js:606-607 | strings are ordered by their first difference, prefixes first |
| MerkleProof.CombineSymmetric | zk-proof-service/server.js:605-608 | hashing is independent of the order of the children |
| MerkleProof.LevelSoundIff | zk-proof-service/server.js:603-608 | a sibling of n characters keeps the digest joined to it identifiable iff n is not 65 and at most 128 |
| MerkleProof.ProofExists | zk-proof-service/server.js:589-611 | every leaf of a perfect tree has an accepted proof of digests hashing only what the tree hashed |
| MerkleProof.ProofIsSound | zk-proof-service/server.js:600-611 | an accepted digest at the tree's depth is a leaf, or proof and tree show two byte strings with one hash |
| MerkleProof.MembershipIff | zk-proof-service/server.js:600-611 | over a tree without collisions a digest is a leaf iff it has a proof hashing only what the tree hashed |
| MerkleProof.FirstSiblingIff | zk-proof-service/server.js:600-611 | for every hash, a length of the first sibling admits no forged proof iff it is safe |
| MerkleProof.ForgedProof | zk-proof-service/server.js:600-611 | for every hash, depth and unsafe length, a non-leaf digest with an accepted proof and no new hash input |
| MerkleProof.InnerNodePassesWithShorterProof | zk-proof-service/server.js:600-611 | without fixing the depth an inner node passes too |

## Left out

- Primality of 2^256 - 189: a hypothesis of the Shamir results.
- AES-256-GCM decryption, SHA-256, cache-key hashing and the proof cache: foreign code; the hash is a parameter.
- Negative secrets, which `shamirSplit` does not refuse: `initKey` never produces one.
- `is_acyclic` and `has_cycle_from` (contract/src/dag.rs:174-205): their cycle branch cannot be reached.
- `enqueueAsyncJob` sits inside an unclosed comment, and `_releaseWorker` has no caller.
- The part of `generateProof` before and during its cache read: any request may resume at any time, so a superset of the real interleavings is covered; cache hits change nothing in the pool.
- The order in which one worker can emit its events: every order is allowed.
- Schema-version monotonicity: `execute_upgrade` compares it with the contract version, so it can go down.
- `upgrade_contract` and `transfer_proxy_admin` (contract/src/lib.rs:5427-5498): runs here consist of propose, cancel and execute.
- Call sites that write the legacy task record directly, bypassing contract/src/storage.rs.
- A migration counter of 2^64 - 1, whose loop increment overflows.
- Buffers of the argument codec within a few bytes of 2^32, where offset arithmetic overflows; XDR codecs are parameters assumed invertible.
- Values that JSON or JavaScript truthiness would change (null, 0, empty strings) in the ABI cache, glob characters in contract ids, and interleaving of two cache methods: each method is one step.
- `FixedPoint128::mul`, `mul_div` and `from_whole`: a checked product and one truncating division each, which `TruncDiv` already covers.
- Merkle proofs over leaves that are not lower-case digests, which the documentation of `verifyMerkleProof` rules out; characters above U+00FF count as non-hexadecimal.
- HTTP routes, rate limiting, metrics, Redis transport, decompression, event publishing, keeper wiring, the frontend and the scripts: plumbing or rendering.
