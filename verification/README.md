# Metashrew: a verified model

Metashrew is a Bitcoin indexer. A user program turns each block into key/value writes; the writes
go into an append-only store in which every key keeps a list of (height, value) versions; the store
answers historical lookups and undoes blocks when the chain reorganises. This project models that
system in Dafny and proves what it is built to guarantee, and, where the code falls short of a claim
made in it, exactly when the claim holds. `dafny verify dfyconfig.toml` checks everything.

| file | what it models |
|---|---|
| `Versions.dfy` | version lists and the maps of them: lookup, trimming, block writes |
| `Physical.dfy` | the flat physical store (length cells, numbered slots, metadata) and how it stands for version lists |
| `Rollback.dfy` | full scan, manifest path and per-key helper as functions on stores, and their relation |
| `Store.dfy` | class `VersionedStore`: the loops of lookup, batch building, commit and the three rollbacks |
| `Indexing.dfy` | arbitrary runs of commits, rollbacks and crashes inside them by an arbitrary deterministic program |
| `DirectRun.dfy` | the program run over a plain memory, which indexing is measured against |
| `Runtime.dfy` | the runtime's reads, its atomic block call and its batch slot |
| `Guest.dfy` | the guest's cache and flush queue, followed down to lookups |
| `Tree.dfy`, `TreeStore.dfy`, `TreeHelper.dfy` | the sparse Merkle tree: values, stored nodes, and the update loops |
| `SyncStorage.dfy`, `SyncRefinement.dfy` | the sync engine's storage and node, and the physical store seen as that storage |
| `Reorg.dfy`, `ReorgWalk.dfy`, `Heal.dfy` | the reorg decision, the walk read by read, the startup heal |
| `SyncEngine.dfy`, `SnapshotEngine.dfy` | the methods of the plain and of the snapshot engine |
| `EngineRuns.dfy`, `EngineSoundness.dfy`, `EngineOrder.dfy` | every run of either engine's tasks, what it keeps and which steps break it |
| `EngineCalls.dfy`, `EngineProgress.dfy` | the engine's calls as runs, catching up with a node and converging to it after a fork |
| `EngineKills.dfy`, `EngineRestart.dfy` | kills inside a rollback, and what can follow a restart |
| `SnapshotRuns.dfy`, `SnapshotProgram.dfy` | the snapshot engine's cursor and staleness guard, and the program's fetcher around it |
| `Pipeline.dfy`, `PipelineProgress.dfy`, `PipelineStale.dfy` | fetcher, processor and result handler under every interleaving, their progress, and heights taken up twice |
| `Overlay.dfy` | the production adapter's write shadow |
| `LinkedList.dfy`, `Checkpoints.dfy` | list and checkpoint stack over key-value cells |
| `Mempool.dfy` | ancestor sets and block templates |
| `Encoding.dfy`, `Formats.dfy`, `Wire.dfy` | bytes: numbers, storage keys, entries, manifests, validator messages |
| `RawStore.dfy` | the physical store under its rendered keys |
| `Target.dfy`, `Validator.dfy` | compact targets and the Bitcoin block validator |

Block execution, block hashing and SHA-256 are parameters or free terms. In the sync engine a hash
is a term that remembers what was hashed, which makes it injective and never the empty hash;
`Validator.dfy` takes any function on bytes.

## Where the code differs from what it says

- A comment at crates/metashrew-runtime/src/rollback.rs:263-266 says that an interrupted manifest
  rollback leaves a clean intermediate height. It trims each key to the final target at once, so it
  does not; `CleanIntermediateIff` gives the exact condition and `InterruptedIsNotClean` a store for
  which it fails. Running the rollback again does repair it (`InterruptedThenRerun`).
- The heal is documented as idempotent (crates/metashrew-sync/src/sync.rs:1281-1282). Ending at the
  depth floor it is not; `SecondHealIsNoOpIff` gives the exact condition on storage and node. When
  the node fails in the middle of the walk the heal settles on the height reached, not on the
  candidate it started from (`HealStopsAtFailure`).
- A rollback over a block that wrote nothing finds no manifest and runs the full scan, which leaves
  hash records and manifests above its target (`RollbackExactIff`). A later reorg walk can read such
  a record, and a rollback it decides on can lie above the tip (`DecisionsBelowTipIff`).
- A process killed inside a rollback leaves the pointer where it was and some keys already trimmed to
  the rollback's target. The startup heal does not know that target: with the node away it settles
  above it (`AwaySettlesOnReached`), and versions in between are missing from then on.
  `KilledRestartSoundIff` gives the exact condition on storage and node, and
  `StillForkedRestartIsSound` a case in which it always holds.
- The fetcher and the result handler can walk back at the same time; the later of two rollbacks can
  then move the pointer up over heights that are gone. `OvertakenWalkSoundIff` says when that does no
  harm. `RunSoundIff` shows that this, left-over records, the kills above, and the next point are the
  only ways a run goes wrong.
- The inline check lets a block through whose parent hash is missing
  (crates/metashrew-sync/src/sync.rs:616-623), so with a fetch floor above 0 an empty store can start
  at that height. With a validation policy installed this cannot happen.
- In the snapshot engine a rollback by the result handler leaves the cursor where it was, though the
  fetcher is documented to resume from the new tip (crates/rockshrew-mono/src/lib.rs:133-136). With
  the cursor more than one above the new tip no later run commits, short of a restart or a node that
  contradicts a stored record; and without a policy a failed refresh keeps the fetcher above what it
  had sent (`HandlerRollbackAdvancesIff`). The staleness guard can then pass over a block that is not
  stored (`PassesOverUnstoredIff`).
- After a restart with only block 0 stored the engine resumes at block 0, whose commit is then always
  out of order. Without a fetch floor no run gets out (`RestartAdvancesIff`); with one it does
  (`FloorAdvances`).
- In the pipeline a fetcher that read the cursor before a block was released takes the block up again
  at any height (`ReleaseLeavesStale`, `StaleTakeUpIff`). At height 0 that blocks the pipeline for
  good, above it until a reorg takes the tip below the height, if the cursor and the window of the
  walk let it (`AttemptCanCommitIff`). The pipeline's own block call never reports an error, so the
  handler's recovery branch is not reachable from it.
- The atomic block call is documented to disarm its batch slot in every case
  (crates/metashrew-runtime/src/runtime.rs:2368-2373). Two early returns skip that; the contract of
  `ProcessBlockAtomic` has the condition.
- Stored state roots are placeholders: `StoredRootsAreEmpty` shows that all of them are zero.
- The first update of an empty tree returns before writing its leaf (`FirstLeafIsLost`).
- `delete_value` on the linked list unlinks an index only if the index just below it is live or it is
  the head and not the only one (`DeleteRemovesIff`). An append after deleting the last index is
  visited if and only if that deletion unlinked nothing (`AppendVisitedIff`).
- The block template's guard weighs a transaction without its ancestors, so the weight limit holds if
  and only if every pick fits together with them (`SizeLimitIff`; `SizeLimitCanFail` is a pool that
  breaks it). Its base reward is 62,500,000,000 because the literal `6_25` is 625.

## Model

| member | source | states |
|---|---|---|
| Store.VersionedStore.GetAtHeight | crates/metashrew-runtime/src/smt.rs:1624-1681 | on ordered lists the binary search, with its 32-bit midpoint, never errs and returns the value of the last version at or below the asked height, for lengths up to 2^31 |
| Runtime.BlockRuntime.HostGet | crates/metashrew-runtime/src/runtime.rs:2093-2145 | a read by the guest is answered, through the lookup at the height below, with what a program sees below its height, nothing or an error reading as empty |
| Indexing.BlockReadsBelow | crates/metashrew-runtime/src/runtime.rs:2118-2128 | a block writes what its program writes on a view that holds under each key exactly the value of the last version below the block's height, if that is not empty (at height 0, of height 0) |
| Indexing.BlockSeesBelow | crates/metashrew-runtime/src/runtime.rs:2118-2128 | there is always such a view, the one handed to the program |
| Versions.LaterBlockKeepsAnswers | crates/metashrew-runtime/src/smt.rs:441-473 | a later block changes no answer for an earlier height |
| Versions.LastWriteWins | crates/metashrew-runtime/src/smt.rs:441-473 | from its height on, the last write of a block to a key is the answer; keys the block does not write answer as before |
| Versions.TrimLookup | crates/metashrew-runtime/src/rollback.rs:151-173 | after a rollback a question about any height is answered as it was for the smaller of that height and the target |
| Versions.TrimIsPrefix | crates/metashrew-runtime/src/rollback.rs:285-305 | on ordered versions the filter of the full scan equals the prefix left by the backward walk |
| Versions.KeepLenBoundary | crates/metashrew-runtime/src/rollback.rs:285-305 | the backward walk stops at a length n if and only if everything from n on is above the target and the version before n is not |
| Store.VersionedStore.BuildBatch | crates/metashrew-runtime/src/smt.rs:421-509 | the batch built with local key lengths, applied at once, equals appending the writes one by one and then adding root, manifest and runtime tip; repeated keys included |
| Store.VersionedStore.PutEach | crates/metashrew-runtime/src/smt.rs:1585-1621 | storing the pairs one batch at a time gives the same versions |
| Store.VersionedStore.CommitAtomic | crates/metashrew-sync/src/traits.rs:318-342 | a commit is accepted if and only if it is in order, and then applies batch and metadata together; a refused one writes nothing |
| Store.VersionedStore.ApplyBlock | crates/rockshrew-runtime/src/storage_adapter.rs:337-413 | building and committing together take the store exactly to the committed store or leave it alone |
| Physical.CommitRefines | crates/metashrew-runtime/src/smt.rs:441-504 | a commit above the tip keeps the physical store well formed (slots match lengths, lists ordered, every version listed in its manifest) and refines appending to the version lists |
| Physical.CommittedHist | crates/metashrew-runtime/src/smt.rs:441-473 | a commit appends to each key exactly the versions the block wrote to it, in order |
| Store.VersionedStore.RollbackScan | crates/metashrew-runtime/src/rollback.rs:83-227 | the scan, compacting keys in any order, computes the full-scan function |
| Store.VersionedStore.CompactKey | crates/metashrew-runtime/src/rollback.rs:151-210 | the operations for one key leave exactly its versions at or below the target at compacted slots |
| Store.VersionedStore.TrimKey | crates/metashrew-runtime/src/rollback.rs:276-314 | the backward walk over one key deletes exactly the slots above the target and rewrites or removes the length |
| Store.VersionedStore.StepBatch | crates/metashrew-runtime/src/rollback.rs:263-331 | the batch for one height computes one step of the fast rollback |
| Store.VersionedStore.RollbackWithManifests | crates/metashrew-runtime/src/rollback.rs:237-340 | with a manifest for every height the loop computes all steps; otherwise it touches nothing and says so |
| Store.VersionedStore.RollbackToHeight | crates/rockshrew-runtime/src/storage_adapter.rs:159-178 | the adapter runs the manifest path, falls back to the scan, then moves the pointer |
| Store.VersionedStore.RollbackKey | crates/metashrew-runtime/src/smt.rs:1792-1828 | the per-key helper computes its function on stores |
| Rollback.FastRefinesSlow | crates/metashrew-runtime/src/rollback.rs:237-340 | on a well-formed store the manifest rollback and the full scan leave the same version lists, the old ones trimmed to the target |
| Rollback.RollbackRefines | crates/rockshrew-runtime/src/storage_adapter.rs:159-178 | whichever path runs, a rollback trims every list to the target and keeps the store well formed |
| Rollback.RollbackDropsMetadata | crates/metashrew-runtime/src/rollback.rs:99-143 | after a completed rollback no state root or block record is left above the target up to the old tip, after a scan none above the target at all, and every other one is there as it was |
| Rollback.RollbackDropsRecords | crates/metashrew-runtime/src/rollback.rs:316-331 | the hash records and manifests above the target, up to the old tip, are gone if every manifest was there and all in place otherwise |
| Rollback.InterruptedThenRerun | crates/metashrew-runtime/src/rollback.rs:263-331 | a fast rollback stopped after any batch and run again on either path, to the same or a lower height, ends as one uninterrupted rollback |
| Rollback.RollbackAfterCrashesIff | crates/metashrew-runtime/src/rollback.rs:237-340 | a process killed inside any number of rollbacks, on either path, and then rolled back completely to any height: the lists are those of one rollback to that height if and only if no killed rollback had trimmed a key with a version above its own target and at or below that height |
| Rollback.RollbackAfterCrashes | crates/metashrew-runtime/src/rollback.rs:237-340 | any number of rollbacks, on either path and to any heights not below the target, each stopped anywhere, do not matter to a complete rollback afterwards |
| Rollback.ScanRerun | crates/metashrew-runtime/src/rollback.rs:143-213 | a full scan stopped between any keys and run again ends as one uninterrupted scan |
| Rollback.FastPartialKeeps | crates/metashrew-runtime/src/rollback.rs:237-340 | after any number of batches the store is well formed, bounded by the height reached, and has lost nothing at or below the target |
| Rollback.FastPartialExact | crates/metashrew-runtime/src/rollback.rs:237-340 | after some batches a key listed at a processed height is trimmed to the target and every other key is untouched |
| Rollback.CleanIntermediateIff | crates/metashrew-runtime/src/rollback.rs:263-269 | the state between two batches is the clean state of the height reached if and only if no processed key has a version between the target and that height |
| Rollback.InterruptedIsNotClean | crates/metashrew-runtime/src/rollback.rs:263-269 | a store for which it is not, and for which the versions in between are gone for good |
| Rollback.HelperMatchesScan | crates/metashrew-runtime/src/smt.rs:1792-1828 | the per-key helper and the full scan leave a key the same list and so the same answers |
| Indexing.RunIndexedIff | crates/metashrew-runtime/src/runtime.rs:2118-2128 | for every deterministic program and every run of commits and rollbacks, with kills inside rollbacks and restarts at any height: throughout, the version lists are those of indexing the surviving blocks from an empty store if and only if no killed rollback took a version at or below the height of the rollback completed after it |
| Indexing.RunEquivalence | crates/metashrew-runtime/src/runtime.rs:2118-2128 | so they are in every run whose killed rollbacks are each followed by one to the same height or a lower one |
| Indexing.RunDescribedIff | crates/metashrew-sync/src/traits.rs:293-342 | throughout a run the hash records at the chain's heights and the pointer describe the surviving chain if and only if no rollback is completed above the height a killed manifest rollback had come down to |
| Indexing.StoredRootsAreEmpty | crates/metashrew-runtime/src/smt.rs:475-481 | every root any such run ever stores is the all-zero placeholder |
| Indexing.ReorgEquivalence | crates/metashrew-runtime/src/rollback.rs:83-340 | indexing A, rolling back to R and indexing B leaves the version lists of indexing A up to R and then B from an empty store |
| Indexing.TrimToPrefix | crates/metashrew-runtime/src/runtime.rs:2118-2128 | trimming what a chain left gives what the shorter chain leaves, because a program reads only below its own height |
| DirectRun.IndexingIsDirect | crates/metashrew-runtime/src/runtime.rs:2118-2128 | indexing a chain through the versioned store gives the version lists of running the program over a plain memory that each block's writes overwrite |
| DirectRun.HistoryIsMemory | crates/metashrew-runtime/src/smt.rs:1624-1681 | a store that holds a chain's lists answers for each height with that memory as it was after the block |
| DirectRun.RunAnswersWithMemory | crates/metashrew-runtime/src/smt.rs:1624-1681 | so does the store after any run of commits, rollbacks and kills in which no killed rollback took what is kept, for the surviving chain |
| Runtime.BlockRuntime.HostFlush | crates/metashrew-runtime/src/runtime.rs:2014-2086 | armed, a flush leaves the store alone and its batch in the slot; unarmed, it is written at once; a failing flush does neither and raises the failure flag |
| Runtime.BlockRuntime.ProcessBlockAtomic | crates/metashrew-runtime/src/runtime.rs:2304-2421 | the call writes nothing; it succeeds if and only if the entry point is found, the guest returns, every flush works and there is one, no old failure flag is up, and root and refresh work; the result is the last flush's batch only; when the slot stays armed |
| Guest.GuestCache.Get | crates/metashrew-core/src/lib.rs:166-184 | a read is answered by the cache or else by the host, and cached |
| Guest.GuestCache.Flush | crates/metashrew-core/src/lib.rs:257-271 | the flush sends each queued key with its cached value, in order, and empties the queue |
| Guest.CacheReadsLastWrite | crates/metashrew-core/src/lib.rs:166-222 | after any run of gets and sets a read gives the last value set or what the host holds, and exactly the keys set are queued |
| Guest.GuestWritesAreRead | crates/metashrew-core/src/lib.rs:166-271 | after any guest run and a flush at h, lookups from h on give the last value set per key and lookups below h are unchanged |
| Guest.SameAnswers | crates/metashrew-runtime/src/smt.rs:1599-1621 | folding single puts into one batch, or flushing a block twice, gives the same answers at every height |
| Guest.ListsAgreeIff | crates/metashrew-runtime/src/smt.rs:1599-1621 | the lists that folding leaves agree at a key if and only if the block writes the key at most once |
| Guest.RunAndFlush | crates/metashrew-core/src/lib.rs:166-271 | a run of the guest's own gets and sets and then a flush sends the queue of that run with its cached values |
| Tree.InsertIntoCanon | crates/metashrew-runtime/src/smt.rs:2307-2414 | inserting into a canonical tree gives the canonical tree of the updated content, with the depth error if and only if the key and its last-bit sibling are both present |
| Tree.SeparateIsCanon | crates/metashrew-runtime/src/smt.rs:2417-2487 | separating two leaves builds the canonical tree of the two keys |
| Tree.FindInCanon | crates/metashrew-runtime/src/smt.rs:1337-1382 | a lookup in a canonical tree reads its content, with an error if and only if the key and its sibling are both present |
| Tree.CanonInjective | crates/metashrew-runtime/src/smt.rs:1174-1192 | the canonical root determines the content |
| Tree.RootsAgreeIffContentsDo | crates/metashrew-runtime/src/smt.rs:2257-2487 | two sequences of insertions without error, from one content, give the same root if and only if they give the same final content |
| Tree.InsertThenFind | crates/metashrew-runtime/src/smt.rs:2257-2487 | after one insertion the new value is read and every other key reads as before, outside crowded pairs |
| TreeStore.UpdateFromStored | crates/metashrew-runtime/src/smt.rs:2257-2305 | an update from a stored non-empty root is the insertion on values; the new tree is stored and every tree stored before still is |
| TreeStore.UpdatesFromStored | crates/metashrew-runtime/src/smt.rs:2257-2305 | from a stored tree with keys, any sequence of stored updates is the sequence of insertions on values; every tree on the way stays stored |
| TreeStore.StoredRootsAgreeIff | crates/metashrew-runtime/src/smt.rs:2257-2487 | order independence in storage: two sequences of updates without error return the same root if and only if they give the same final content |
| TreeStore.FirstLeafIsLost | crates/metashrew-runtime/src/smt.rs:2286-2289 | from the empty root the leaf is not written and the next update forgets it |
| TreeStore.NewRootStoredIff | crates/metashrew-runtime/src/smt.rs:2286-2296 | the returned root is stored if and only if the tree was not empty or the leaf was there already |
| TreeHelper.SmtHelper.GetLeaf | crates/metashrew-runtime/src/smt.rs:1337-1382 | the lookup loop finds what the content-addressed lookup finds, depth error included |
| TreeHelper.SmtHelper.UpdateForKey | crates/metashrew-runtime/src/smt.rs:2257-2305 | walk, separation and upward rebuild together compute the update |
| TreeHelper.SmtHelper.CreateSeparating | crates/metashrew-runtime/src/smt.rs:2417-2487 | the search for the parting bit and the upward loop build the separating nodes |
| TreeHelper.SmtHelper.RebuildPath | crates/metashrew-runtime/src/smt.rs:2341-2414 | rebuilding the visited path from the bottom gives the new root and the nodes above the new leaf |
| TreeHelper.SmtHelper.SeparateHashOnly | crates/metashrew-runtime/src/smt.rs:708-761 | the hash-only separation, with its own search and its own upward loop, returns the root of the separated tree |
| TreeHelper.SmtHelper.RebuildHashOnly | crates/metashrew-runtime/src/smt.rs:615-706 | the hash-only rebuild returns the root of the insertion |
| TreeHelper.SmtHelper.ComputeRootOnly | crates/metashrew-runtime/src/smt.rs:589-706 | the root-only computation returns the root the storing update returns |
| TreeHelper.SmtHelper.GetNodeCached | crates/metashrew-runtime/src/smt.rs:345-366 | the node cache never changes an answer |
| SyncStorage.RollbackKeepsChainIff | crates/rockshrew-runtime/src/storage_adapter.rs:159-178 | a rollback keeps the stored chain if and only if every height it moves the tip up over has a linked record left from earlier; at or below the tip it always does |
| SyncStorage.RollbackExactIff | crates/metashrew-runtime/src/rollback.rs:83-340 | from exactly the records 0 to the tip a rollback leaves exactly the records 0 to its target if and only if every height undone had a manifest |
| SyncRefinement.CommitIsCommit | crates/metashrew-sync/src/traits.rs:318-342 | a commit of the physical store is the commit of the engine's storage |
| SyncRefinement.RollbackIsRollback | crates/rockshrew-runtime/src/storage_adapter.rs:159-178 | a rollback of the physical store, by manifests or by scan, is the rollback of the engine's storage, left-over records included |
| SyncRefinement.SameInOrder | crates/metashrew-sync/src/traits.rs:318-342 | the in-order check of the physical store is that of the engine's storage |
| SyncRefinement.StopIsInterruption | crates/metashrew-runtime/src/rollback.rs:83-340 | a rollback of the physical store killed on either path is the killed rollback of the engine's storage |
| SyncRefinement.PointersArePointers | crates/rockshrew-runtime/src/storage_adapter.rs:294-301 | the batch that ends the heal moves both pointers of the engine's storage and nothing else |
| SyncEngine.Engine.HandleReorg | crates/metashrew-sync/src/sync.rs:1474-1535 | the walk-back loop computes the decision and rolls the storage back accordingly; a failing refresh leaves the rollback done and returns an error |
| SyncEngine.Engine.Init | crates/metashrew-sync/src/sync.rs:288-362 | startup heals, then puts the cursor behind the tip, or at the start block if that is above, or at 0 for tip 0 |
| Reorg.DecisionIff | crates/metashrew-sync/src/sync.rs:1474-1535 | the walk decides on a rollback to a height if and only if that height is the floor of the window or agrees, every record between it and the cursor is contradicted by an answer, and there is one |
| Reorg.ReorgFindsFork | crates/metashrew-sync/src/sync.rs:1474-1535 | against an answering node that confirms exactly the records below some point, with any records left above the tip, the engine rolls back to the highest shared height or the window floor, and does nothing when no record in between disagrees |
| Reorg.SomeNodeRollsToIff | crates/metashrew-sync/src/sync.rs:1474-1535 | some node makes the walk decide on a given height if and only if that height is stored or the floor and a record lies between it and the cursor |
| Reorg.DecisionsBelowTipIff | crates/metashrew-sync/src/sync.rs:1474-1535 | every decision, whatever the node answers, lies below the tip if and only if the window holds no record above the tip |
| ReorgWalk.AloneIsDecision | crates/metashrew-sync/src/sync.rs:1474-1535 | the walk taken read by read, with the lock released in between, comes to the decision when nothing interferes |
| SyncEngine.Engine.ProcessBlock | crates/metashrew-sync/src/sync.rs:657-789 | a block call commits if and only if the block is accepted, in order, and some attempt within the budget works; otherwise nothing changes |
| SyncEngine.Engine.HealPointerDivergence | crates/metashrew-sync/src/sync.rs:1292-1471 | the startup heal computes the healed storage and the safe height |
| SyncEngine.Engine.FindMaxStoredHash | crates/metashrew-sync/src/traits.rs:250-269 | the scan finds the highest stored hash in the window |
| Heal.HealIsSafe | crates/metashrew-sync/src/sync.rs:1292-1471 | the heal never moves forward, so its refusal cannot happen; it ends at or below all three pointers and, against an answering node, at a confirmed hash, the depth floor or zero |
| Heal.HealWritesNothingIff | crates/metashrew-sync/src/sync.rs:1333-1389 | the heal writes nothing if and only if the tip is 0 or has its hash, with a runtime pointer not below it and no contradiction (or no depth), and the runtime pointer is at the tip |
| Heal.HealStopsAtFailure | crates/metashrew-sync/src/sync.rs:1419-1426 | when the node fails in the middle of the walk the heal settles on the height reached |
| Heal.MaxStoredHashIsHighest | crates/metashrew-sync/src/traits.rs:250-269 | the scan finds the highest hash stored at most 256 below the tip, and 0 if there is none |
| Heal.SettlesAtHighest | crates/metashrew-sync/src/sync.rs:1397-1440 | with a node the heal settles on the highest height from the lowest pointer down, within the depth, that has a hash the node does not contradict, or on the end of the depth |
| Heal.SecondHealIsNoOpIff | crates/metashrew-sync/src/sync.rs:1281-1282 | a second heal against the same node is a no-op if and only if the lowest pointer is 0, or the node is there and the depth reaches zero or a stored hash in the window is not contradicted, or there is no node or no depth and the lowest pointer has its hash |
| Heal.HealedAboveZeroIff | crates/metashrew-sync/src/sync.rs:1333-1453 | on records without a gap the heal leaves a tip above 0 if and only if the lowest pointer is above 0 and the node is away, the depth ends above 0, or some height above 0 is not contradicted |
| Heal.HealAtFloorIsNotIdempotent | crates/metashrew-sync/src/sync.rs:1281-1282 | a case in which every heal moves one height further down |
| Heal.HealKeepsChain | crates/metashrew-sync/src/sync.rs:1292-1471 | a heal keeps the stored chain |
| EngineSoundness.StepInvIff | crates/metashrew-sync/src/sync.rs:398-789 | soundness (nothing stored, or linked records from 0 to the tip and the version lists of indexing the blocks behind them from scratch), and what a killed rollback leaves of it, is kept by a step if and only if the step neither commits above height 0 to the empty store, nor rolls back to above the tip over a height without a linked record of a block that writes nothing, nor restarts at or above a version a killed rollback has removed |
| EngineSoundness.RunSoundIff | crates/metashrew-sync/src/sync.rs:398-1033 | for either engine, every policy, fetch floor, prefetched block, failing attempt, restart and two walks interleaved read by read, with the process killed anywhere inside rollbacks of walks and of heals: a run is sound whenever there is a process if and only if no step of it is one of those three |
| EngineSoundness.PolicyRunSoundIff | crates/metashrew-sync/src/snapshot_sync.rs:216-593 | under an installed validation policy the last two are the only ones |
| EngineSoundness.CutSoundIff | crates/rockshrew-runtime/src/storage_adapter.rs:159-178 | a rollback to any height keeps a sound state sound if and only if every height it moves the tip up over has a linked record of a block that writes nothing |
| EngineSoundness.OvertakenWalkSoundIff | crates/metashrew-sync/src/sync.rs:1486-1524 | two walks at once, the later decision above the earlier: the state stays sound if and only if the earlier rollback found a manifest missing and the blocks in between write nothing |
| EngineSoundness.TipMovesByOne | crates/metashrew-sync/src/sync.rs:398-789 | from a sound state a step moves the tip up by one through a commit, or down through a rollback, or not at all, unless it rolls back to above the tip |
| EngineOrder.OneWalkRunsAreSound | crates/metashrew-sync/src/sync.rs:398-1033 | with a program that writes in every block, one walk at a time and no kill inside a rollback, every run under an installed policy is sound, its records are exactly 0 to the tip, and no rollback aims above the tip |
| EngineKills.KilledRestartSoundIff | crates/metashrew-sync/src/sync.rs:1292-1471 | killed anywhere inside a rollback and restarted against any node, a sound state is sound again if and only if no key already trimmed has a version above the rollback's target and at or below the height the heal settles on |
| EngineKills.StillForkedRestartIsSound | crates/metashrew-sync/src/sync.rs:1292-1471 | it always is if the node still contradicts every record above the target and the depth reaches it |
| EngineKills.AwaySettlesOnReached | crates/metashrew-sync/src/sync.rs:1333-1453 | with the node away the heal settles on the height the batches of a killed manifest rollback had reached, or on the tip after a killed scan, whatever the target was |
| EngineKills.KilledRestartExactIff | crates/metashrew-runtime/src/rollback.rs:83-340 | after a kill and a restart the hash records are exactly 0 to the tip again if and only if the rollback had not begun or the heal settles on the very height its batches had reached |
| EngineRestart.RestartAdvancesIff | crates/metashrew-sync/src/sync.rs:288-362 | after a restart that recovers, some run without fetch floors commits another block if and only if the store was empty or the heal stops above height 0, a condition on storage and node before the restart |
| EngineRestart.FloorAdvances | crates/metashrew-sync/src/sync.rs:398-464 | a fetch floor of one above the tip lets every restart be followed by a commit, from tip 0 too |
| EngineCalls.ReorgCallIsRun | crates/metashrew-sync/src/sync.rs:1474-1535 | a reorg call nobody interrupts is a run of steps that leaves storage and result as its contract says |
| EngineCalls.BlockCallIsRun | crates/metashrew-sync/src/sync.rs:657-789 | a block call nobody interrupts is a run of steps that leaves storage as its contract says |
| EngineProgress.OneBlockGetsIn | crates/metashrew-sync/src/sync.rs:398-789 | in either engine a block of the node that fits is fetched, committed and reported, and the cursor moves past it |
| EngineProgress.CatchesUp | crates/metashrew-sync/src/snapshot_sync.rs:216-593 | in either engine some run commits the rest of the node's chain in order and ends with the cursor right above it |
| EngineProgress.ConvergesToNode | crates/metashrew-sync/src/sync.rs:1474-1535 | against a node whose chain is at least as long as the stored one and forks from it within the window, some run of either engine brings storage to exactly the node's records, with the version lists of indexing the blocks behind them |
| EngineProgress.HandlerConverges | crates/metashrew-sync/src/sync.rs:963-1020 | the plain engine does so through its result handler too, called for a broken link or an out-of-order commit |
| SnapshotEngine.Engine.ProcessBlock | crates/metashrew-sync/src/snapshot_sync.rs:452-593 | against a storage and cursor that others move between attempts: which attempt skips the block, which applies it, and what state each result leaves |
| SnapshotEngine.OvertakenCallSkips | crates/metashrew-sync/src/snapshot_sync.rs:471-492 | a block that another task commits before an attempt is skipped at that attempt and only there, and without the guard its commit would be out of order |
| SnapshotEngine.Engine.NextBlock | crates/metashrew-sync/src/snapshot_sync.rs:216-291 | the fetch runs the reorg check, then returns the node's block at the cursor raised to the floor exactly when that is at most the remote tip, below the exit height and served, waits exactly beyond the remote tip or exit height, and errs exactly otherwise; a failing refresh leaves the cursor where it was |
| SnapshotRuns.PassesOverUnstoredIff | crates/metashrew-sync/src/snapshot_sync.rs:471-492 | the staleness guard, which takes every block below the cursor for applied, can pass over a block that is not stored if and only if the cursor is more than one above the tip |
| SnapshotProgram.AdvancesIff | crates/rockshrew-mono/src/lib.rs:1086-1215 | with nothing under way the program can go on from its tip, in any run without a restart, a forged block or a node that contradicts what is stored, if and only if the cursor is at most one above the tip, and the next height has not been sent yet or a policy is installed, whose refusal of a later block makes the fetcher forget |
| SnapshotProgram.HandlerRollbackAdvancesIff | crates/rockshrew-mono/src/lib.rs:1386-1425 | after a rollback by the result handler the program can go on from the new tip, as the fetcher is documented to, if and only if the cursor was at most one above the target already, and the refresh worked, or the next height had not been sent, or a policy is installed |
| Pipeline.InFlightIsProcessingSet | crates/metashrew-sync/src/sync.rs:816-1033 | in every interleaving, each read of a reorg walk a step of its own, a height is held in exactly one place if it is in the processing set and in none otherwise |
| Pipeline.MovesProperlyIff | crates/metashrew-sync/src/sync.rs:816-1033 | with records from 0 to the tip, a step moves the tip otherwise than by a commit at the tip plus one or a rollback to below if and only if it is a rollback to above the tip |
| Pipeline.RunMovesProperlyIff | crates/metashrew-sync/src/sync.rs:816-1033 | so throughout a run, in every interleaving, if and only if no rollback in it aims above the tip |
| Pipeline.RunOrderlyIff | crates/metashrew-sync/src/sync.rs:816-1033 | a walk that has seen a contradiction is below the tip throughout a run, which is enough for that, if and only if no step of it hears a record above the tip contradicted |
| Pipeline.ExactFromStart | crates/metashrew-sync/src/sync.rs:816-1033 | started empty, with blocks that all write something, every interleaving has nothing stored yet or records and manifests at exactly 0 to the tip |
| PipelineProgress.BlocksGetIn | crates/metashrew-sync/src/sync.rs:816-1033 | from rest some run without a walk commits any number of blocks at the next heights in order and comes to rest with the cursor right above the last |
| PipelineProgress.GetsInAfterReorg | crates/metashrew-sync/src/sync.rs:816-1033 | so it does after the fetcher has found the tip contradicted and rolled back, from the height it rolled back |
| PipelineStale.StaleTakeUpIff | crates/metashrew-sync/src/sync.rs:820-957 | a free height the fetcher has read is taken up whatever is stored: it is a stored one if and only if it is at or below the tip, which nobody checks |
| PipelineStale.ReleaseLeavesStale | crates/metashrew-sync/src/sync.rs:820-1033 | at every height: committing, reporting and releasing a block moves the cursor past it and leaves a fetcher that read the cursor before with a stored, free height |
| PipelineStale.AttemptCanCommitIff | crates/metashrew-sync/src/sync.rs:1088-1147 | with nothing but the fetcher to move, an attempt can still succeed if and only if its height is above 0 and is the next one, or is stored, below the cursor, and the window of a walk from the cursor reaches a record; the run is constructed |
| PipelineStale.WedgedForever | crates/metashrew-sync/src/sync.rs:1088-1147 | an attempt at a stored block 0 stays where it is in every run and nothing is committed any more |
| Overlay.ShadeAllIsApplyAll | crates/rockshrew-runtime/src/adapter.rs:241-252 | any run of changes on the shadow reads like the same run on one plain map |
| Overlay.Adapter.Get | crates/rockshrew-runtime/src/adapter.rs:279-297 | a get reads the effective map |
| Overlay.Adapter.PutKey | crates/rockshrew-runtime/src/adapter.rs:327-350 | a put changes the effective map at its key; with a shadow the database is untouched |
| Overlay.Adapter.DeleteKey | crates/rockshrew-runtime/src/adapter.rs:318-325 | a delete removes its key from the effective map; with a shadow the database is untouched |
| Overlay.Adapter.WriteBatch | crates/rockshrew-runtime/src/adapter.rs:268-277 | a batch acts on the effective map in order, behind a height write in production only |
| Overlay.BatchMovesTip | crates/rockshrew-runtime/src/adapter.rs:146-167 | after a production batch that leaves it alone the tip key reads the adapter's height plus one, little-endian |
| Overlay.Database.IteratePrefix | crates/rockshrew-runtime/src/adapter.rs:358-372 | seek and stop at the first key without the prefix find every key with it, once |
| Overlay.Adapter.ScanPrefix | crates/rockshrew-runtime/src/adapter.rs:352-390 | a prefix scan returns exactly the effective pairs under the prefix, no key twice |
| Overlay.Adapter.KeyList | crates/rockshrew-runtime/src/adapter.rs:396-422 | the key list holds exactly the effective keys, none twice |
| Overlay.Adapter.CreateIsolatedCopy | crates/rockshrew-runtime/src/adapter.rs:436-453 | a copy starts from the database, not from the shadow of what it copies |
| Overlay.RunIsolated | crates/metashrew-runtime/src/runtime.rs:680-730 | any run on an isolated copy reads like that run on a plain map, and production does not change |
| Overlay.PrefixedAreTogether | crates/rockshrew-runtime/src/adapter.rs:358-372 | in byte order nothing lies between a prefix and the keys with it |
| LinkedList.LegalRunVisitsLive | crates/metashrew-support/src/index_pointer.rs:384-471 | over any run whose deletions name a live index, not the last, that is the head or has a live index just below, the walk visits exactly the live indices once each, increasing |
| LinkedList.LegalDeletionIff | crates/metashrew-support/src/index_pointer.rs:438-452 | a deletion keeps a run legal if and only if its index is live, not the last, and the head or right above a live one |
| LinkedList.LegalRunReadsValues | crates/metashrew-support/src/index_pointer.rs:453-471 | the walk of a legal run reads the appended values of the live indices, in order |
| LinkedList.LegalRunKeepsValues | crates/metashrew-support/src/index_pointer.rs:384-452 | over a legal run every live index holds the value appended there and every deleted one a zero byte |
| LinkedList.EveryWalkEnds | crates/metashrew-support/src/index_pointer.rs:453-471 | whatever is deleted, the walk ends and visits increasing indices |
| LinkedList.DeleteRemovesIff | crates/metashrew-support/src/index_pointer.rs:438-452 | deleting any live index, first, last or only, removes it from the walk if and only if the index just below it is live or it is the head and not alone |
| LinkedList.AppendVisitedIff | crates/metashrew-support/src/index_pointer.rs:384-452 | after the last index has been deleted the next append is visited if and only if that deletion did not remove the index from the walk |
| LinkedList.RunOn | crates/metashrew-support/src/index_pointer.rs:384-452 | a run of calls on a fresh list leaves the cells of that run |
| LinkedList.List.DeleteValue | crates/metashrew-support/src/index_pointer.rs:438-452 | a deletion rewrites head or one link and drops the item |
| LinkedList.List.MapLl | crates/metashrew-support/src/index_pointer.rs:453-471 | the loop returns what the walk visits, each index with its item |
| Checkpoints.Stack.Get | crates/metashrew-core/src/index_pointer.rs:81-95 | the top-down search reads the flattened stack over the store |
| Checkpoints.Stack.Commit | crates/metashrew-core/src/index_pointer.rs:115-129 | a commit merges the top layer down, or writes the last layer to the store and keeps it |
| Checkpoints.RunRefines | crates/metashrew-core/src/index_pointer.rs:58-147 | over any run that keeps a layer, the layers answer at every depth as a stack of full snapshots |
| Checkpoints.RunOn | crates/metashrew-core/src/index_pointer.rs:58-147 | a run of calls on the stack leaves layers and store of that run |
| Checkpoints.CommitKeepsAnswers | crates/metashrew-core/src/index_pointer.rs:115-129 | a commit changes no answer |
| Checkpoints.RollbackRestores | crates/metashrew-core/src/index_pointer.rs:108-132 | a rollback restores the state of the matching checkpoint, whatever happened above it |
| Mempool.GetAncestorSetInfo | crates/memshrew-p2p/src/main.rs:637-666 | the worklist ends on any ancestor relation, cycles included, and sums fee and size over exactly the reachable part of the pool |
| Mempool.SearchEnds | crates/memshrew-p2p/src/main.rs:637-666 | when the worklist is empty exactly the reachable ids have been added |
| Mempool.IncludeWithAncestors | crates/memshrew-p2p/src/main.rs:699-710 | a pick adds exactly the reachable pool transactions not yet in, once each, and their fees and sizes |
| Mempool.GenerateBlockTemplate | crates/memshrew-p2p/src/main.rs:668-724 | the template lists each picked transaction once and its totals are theirs |
| Mempool.TakenIff | crates/memshrew-p2p/src/main.rs:689-710 | an entry is taken at its turn, with all it can reach, if and only if its fee rate is at least 1, it is not in yet, and the template with it alone stays within 4,000,000 |
| Mempool.PickedIsClosed | crates/memshrew-p2p/src/main.rs:699-710 | with a transaction the template holds all its ancestors in the pool |
| Mempool.LeftOutDidNotFit | crates/memshrew-p2p/src/main.rs:689-697 | a transaction of sufficient fee rate is left out only if it did not fit at its turn |
| Mempool.PickedForAnEntry | crates/memshrew-p2p/src/main.rs:689-710 | every listed transaction is reachable from a tried one of sufficient fee rate |
| Mempool.SizeLimitIff | crates/memshrew-p2p/src/main.rs:694-697 | a template keeps the weight limit if and only if at every entry picked the template would fit with the entry and all its ancestors, the sum the guard leaves out |
| Formats.RenderCollidesIff | crates/metashrew-runtime/src/smt.rs:462-471 | two storage keys share their bytes if and only if they are equal or one is a version slot of a reserved user key and the other the record at that height |
| Formats.UserKeyText | crates/metashrew-runtime/src/smt.rs:444-471 | the key texts of a length and of a version slot |
| Formats.MetadataText | crates/metashrew-runtime/src/rollback.rs:99-113 | the key texts of state roots and block records |
| Formats.RecordText | crates/metashrew-runtime/src/rollback.rs:316-331 | the key texts of manifests and hash records |
| Formats.PointerText | crates/rockshrew-runtime/src/storage_adapter.rs:84-91 | the key texts of the two pointers |
| RawStore.RawOpsAgree | crates/metashrew-runtime/src/smt.rs:452-504 | on stores without slots of the two reserved user keys, a batch applied under the rendered byte keys is the batch applied to the store |
| RawStore.RawInjective | crates/metashrew-runtime/src/smt.rs:452-504 | two such stores have the same byte-keyed map if and only if they are the same |
| RawStore.RawScanFinds | crates/metashrew-runtime/src/rollback.rs:99-149 | a scan of the byte keys collects exactly the user keys and deletes exactly the metadata above the target |
| RawStore.CommitSeparateIff | crates/metashrew-runtime/src/smt.rs:452-504 | a commit keeps a store of that kind if and only if the block writes neither reserved key |
| RawStore.RollbackSeparate | crates/metashrew-runtime/src/rollback.rs:83-340 | a rollback keeps a store of that kind, on either path |
| Formats.ScanReadsKeys | crates/metashrew-runtime/src/rollback.rs:99-123 | on rendered keys the scan reads back exactly the metadata height or the user key |
| Formats.EntryRoundTrip | crates/metashrew-runtime/src/smt.rs:462-466 | an entry decodes to its height and value in lookups, and to its height in rollbacks |
| Formats.EntryText | crates/metashrew-runtime/src/smt.rs:462-466 | an entry's text is the height in decimal, a colon and the value in lower-case hex, byte by byte |
| Formats.SerializeManifest | crates/metashrew-runtime/src/smt.rs:91-99 | the loop writes the manifest format |
| Formats.DeserializeManifest | crates/metashrew-runtime/src/smt.rs:102-122 | the offset loop reads the manifest format, stopping at the first record that does not fit |
| Formats.ManifestRoundTrip | crates/metashrew-runtime/src/smt.rs:91-122 | a manifest decodes to its keys |
| Formats.TornManifest | crates/metashrew-runtime/src/smt.rs:102-122 | a manifest cut anywhere decodes to a prefix of its keys, and to all of them if and only if nothing was lost |
| Encoding.ParsePrinted | crates/metashrew-runtime/src/smt.rs:452-471 | a printed number parses back if and only if it fits 32 bits |
| Encoding.ParsePlus | crates/metashrew-runtime/src/rollback.rs:57-65 | one leading plus sign is passed over when a height is parsed, a second is not |
| Encoding.HexValueIff | crates/metashrew-runtime/src/smt.rs:1650-1660 | the characters read as hex digits are 0-9, a-f and A-F |
| Encoding.HexRoundTrip | crates/metashrew-runtime/src/smt.rs:464-466 | hex text decodes to the bytes it was made from |
| Encoding.Le32Bytes | crates/metashrew-runtime/src/smt.rs:91-99 | a 32-bit number is four bytes, the lowest first |
| Wire.Encode | crates/metashrew-validator-core/src/wire.rs:40-52 | the pushes write the request format |
| Wire.EncodedLayout | crates/metashrew-validator-core/src/wire.rs:40-52 | the byte offsets of version, height, flag, hash, header length, header and parent hash |
| Wire.Decode | crates/metashrew-validator-core/src/wire.rs:54-82 | the cursor reads the request format |
| Wire.DecodedIff | crates/metashrew-validator-core/src/wire.rs:54-82 | a buffer decodes to a request if and only if it starts with that request's encoding, any flag byte but 1 meaning no parent hash |
| Wire.RequestRoundTrip | crates/metashrew-validator-core/src/wire.rs:40-82 | every request decodes to itself |
| Wire.NoProperPrefixDecodes | crates/metashrew-validator-core/src/wire.rs:40-82 | no proper prefix of an encoded request decodes |
| Wire.VerdictDecodedIff | crates/metashrew-validator-core/src/wire.rs:116-124 | a buffer decodes to a verdict if and only if version, flag, reason length and reason are at their offsets, any flag byte but 1 meaning no |
| Wire.VerdictLayout | crates/metashrew-validator-core/src/wire.rs:104-112 | the byte offsets of an encoded verdict |
| Wire.VerdictRoundTrip | crates/metashrew-validator-core/src/wire.rs:104-124 | a verdict decodes to itself whatever follows, and no proper prefix of it decodes |
| Target.TargetFromBits | crates/metashrew-validator-core/src/lib.rs:196-222 | a target exists if and only if sign bit clear, mantissa nonzero and exponent at most 32; its bytes as a big-endian number are floor(mantissa * 256^(exponent-3)) |
| Target.TargetOfParts | crates/metashrew-validator-core/src/lib.rs:196-222 | bits put together from exponent, sign and a 23-bit mantissa are refused if and only if the sign is set, the mantissa 0 or the exponent above 32, and stand for floor(mantissa * 256^(exponent-3)) |
| Target.MeetsTarget | crates/metashrew-validator-core/src/lib.rs:225-232 | a hash meets the bits if and only if they are not refused and the hash as a number is at most the value |
| Encoding.BeforeIsLess | crates/metashrew-validator-core/src/lib.rs:229-231 | between equally long buffers byte order is numeric order |
| Validator.Validate | crates/metashrew-validator-core/src/lib.rs:347-380 | the validator accepts if and only if the header is complete, hashes to the claim, names the stored parent or the genesis, and meets its own target |
| Validator.AcceptableIff | crates/metashrew-validator-core/src/lib.rs:236-380 | a block whose header is put together from version, parent, merkle root, time, bits and nonce is accepted if and only if the header hashes to the claim, names the stored parent byte-reversed or is the genesis block, and the hash as a number is at most the target of its bits |
| Validator.LastHashFixesChain | crates/metashrew-validator-core/src/lib.rs:254-301 | for any hash function, two accepted chains of one height with the same last hash have the same hashed headers throughout, or two of their own headers collide |

## Left out

- Wasmtime, linear memory and pointer passing; RocksDB tuning and fsync; network, RPC, HTTP, SSH, logging and clocks: a storage write is one atomic map update and the process can be killed between any two. Errors of storage itself while it is read are not modelled.
- Snapshot files and repository sync, view concurrency limits, key labels, fork databases and the deliberately buggy adapter.
- `append`, `pop` and the other plain list operations of the pointer trait: counters over numbered cells, easier members than the linked list.
- The in-memory adapter and the mock storage and node: their rollback drops every record above its target, which is the case of a rollback whose heights all have manifests.
- AuxPoW parsing, the AuxPoW and custom validators, and reason texts of verdicts.
- The cached tree helper that indexes a bit with the wrong depth (smt.rs:908), and multi-key root computations whose nodes are not in storage while they run.
- Heights and lengths in `Physical`, `Rollback` and `Indexing` are unbounded; that a key can have 2^32 versions, or a chain 2^32 blocks, is not modelled there.
- RawStore.RawOpsAgree: cells stay decoded under the rendered keys; their bytes are the round trips of module `Formats`. Stores with slots of the two reserved user keys are covered only by `Formats.RenderCollidesIff`.
- Store.VersionedStore.BuildBatch: the manifest lists the written keys once each in order of first writing; the source sorts them by bytes.
- Store.VersionedStore.GetAtHeight: `Db` holds decoded cells, so the error branches for unreadable entries are met only through module `Formats`. Lengths above 2^31, where the 32-bit midpoint sum can wrap, are excluded.
- SyncEngine.Engine.HandleReorg: one uninterrupted call on storage that does not change; interleaved walks are the steps of `ReorgWalk`, `EngineRuns` and `Pipeline`.
- SyncEngine.Engine.HealPointerDivergence: an unreadable pointer, which the source replaces by another one, is not modelled.
- SyncEngine.Engine.Init: the root record stored for the height below a start block is not modelled.
- EngineSoundness.RunSoundIff: the engine starts from an empty store at height 0 and validation is on; the exit height and the reorg threshold only remove steps from the runs considered. A run has one processor, as the source has. Blocks wait in a set, not in a channel.
- SnapshotProgram.AdvancesIff: starts from exact records and from nothing under way; a block is fetched, sent and remembered in one step. A node that contradicts a stored record, or serves a block that is not what it claims, can still bring the handler or the fetcher's own walk into play and is outside the runs considered.
- EngineRestart.RestartAdvancesIff: runs without fetch floors above 0 and without blocks fetched ahead; `FloorAdvances` has the floors.
- Pipeline.InFlightIsProcessingSet: channel capacities and shutdown are not modelled; they only remove interleavings. Each storage or set access under a lock is one step.
- SnapshotEngine.Engine.ProcessBlock: storage and cursor at each attempt are parameters; that other tasks move them only by steps of the engine is the subject of `EngineRuns`.
- Mempool.GetAncestorSetInfo: sums are unbounded and the ratio returned beside them is not modelled; fee rates are reals and the order of entries is a parameter.
- Overlay.Adapter.ScanPrefix: what the database iterator yields is a parameter, required to be the keys in byte order.
- Wire.VerdictRoundTrip: the reason is bytes; the lossy conversion to text is not modelled.
- Validator.Validate: only the verdict's flag; SHA-256 is a parameter. The engine's policies in `SyncEngine.Accepts` take hashes as terms and are not derived from this byte-level validator.
- Guest.GuestCache.Flush: the encoding of the flushed list between guest and host is not modelled.
