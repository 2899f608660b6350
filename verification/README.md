# DetourModKit: verified models of its protocols, cache, voting and formats

DetourModKit is a toolkit for writing game modifications on 64-bit Windows. It patches functions and hands out
guarded trampolines, caches the operating system's memory map, finds code by signature and votes on what it found,
detects edited signatures by a hash, and stores signatures and drift reports as text. This project models the parts
of it whose correctness depends on step order, on several indexes agreeing, or on a format reading back what was
written, and proves what those parts are for.

Four groups of modules:

- **Protocols**, as step systems over any number of threads, with inductive invariants and theorems about every run:
  `HookGate` (guarded calls against destruction of the trampoline), `HookLayers` and `InstallAll` (layered patches on
  one target and the table install that rolls back), `ReaderDrain` (cache readers against shutdown), `Seqlock` (the
  profiler ring), `ReloadGate` (quiescing background reloads), `WatcherSlot` (the auto-reload watcher).
- **The region cache**: `ShardContents` is what a shard holds as a value, `CacheShard` is the shard updated in place and
  proved against it, `ShardLookup` is the two-tier lookup, and `Permission` ties the cached, coalesced and uncached
  permission checks to one per-byte definition.
- **Hashing and voting**: `Fnv`, `Evidence`, `Permutations`, `Fingerprint`, `DriftGate`, `Quorum`, and `StoredSignatures`, which
  takes a captured signature through the manifest store.
- **Formats and binary tables**: `Options`, `Ascii`, `Numerals`, `Splitting`, `DriftManifest`; `Tokens`, `SectionNames`, `ManifestTokens`,
  `ManifestRecords`, `ManifestCodec`, `ManifestStore`, `ManifestRoundTrip`; `Image`, `Rtti`, `ExportTable`.

Check the whole project with `dafny verify dfyconfig.toml`.

## What the models take as given

- Steps of a protocol interleave one atomic access or one critical section at a time. The source uses sequentially
  consistent operations or mutexes where order matters, with two exceptions. The shard-count load of a cache reader
  is an acquire load and is modelled as one: it may return any count published since the flag store the reader saw.
  The profiler's seqlock uses acquire/release with a fence; sequential consistency is a modelling choice there.
- `enable`, `disable` and `release` do not overlap destruction of the same handle, as the handle's contract says.
- `VirtualQuery` is a total function: the region it reports contains the queried address, ends below 2^64, and is
  uniform inside. It does not change during one permission check. Other threads may use the shard in between.
- Readability of memory is decided page by page, and memory does not change while an image is examined.
- The backend that writes the patch either succeeds or leaves the prologue as it was.
- The INI document is an ordered store of named sections with exact names and values.
- Clocks, allocation failures, lock failures, backend results, resolver results and validators are parameters or
  free choices of a step.

## Where the code does less than one might expect

Each of these has a concrete run or input and the exact condition under which the property does hold.

- A handle destroyed from inside its own guarded call frees the trampoline it is running on, because the gate mutex is
  recursive (`HookGate.DestroyingInsideOwnCallIsUnsafe`). Freeing is safe exactly when the destroying thread began
  outside the hook (`HookGate.DestructionIsSafeIffBegunOutside`).
- After an allocation failure leaves an entry out of the LRU index, a shard can exceed its capacity
  (`ShardContents.OrphanDefeatsCapacity`). An insert stays within capacity exactly when there was room or something to
  evict (`ShardContents.InsertStaysWithinCapacityIff`).
- An update keeps the three containers of a shard consistent exactly when the 64-bit LRU counter does not wrap
  (`ShardContents.UpdatedConsistentIffNoWrap`); a shard one key short of it loses consistency on its next update
  (`ShardContents.WrapBreaksConsistency`).
- Member order can decide a quorum when clusters disagree: four independent vtable anchors that vote 1, 1, 2, 2 resolve to 1
  in one order and to 2 in another (`Quorum.OrderCanDecide`). All orders decide alike exactly when all qualifying centers
  commit alike (`Quorum.OrderMattersExactlyWhen`).
- A tab in a name is lost from a drift report (`DriftManifest.TabInNameIsLost`). Records read back unchanged exactly when
  their names have no tab or newline and their codes have tokens (`DriftManifest.RoundTripIff`).
- A field that a record's kind does not use is not stored, so a value set there is lost (`ManifestRoundTrip.UnusedFieldIsLost`);
  of two records with one label one is lost (`ManifestRoundTrip.DuplicateLabelIsLost`). Over exact section names, any
  manifest reads back unchanged exactly when its labels are usable and distinct, its records are storable and their unused
  fields are at their defaults (`ManifestRoundTrip.UnchangedIff`).
- A rung section whose index is padded with a zero is accepted and ignored (`ManifestStore.PaddedRungIsLost`), although
  orphaned and gapped rungs are refused. A rung section of an accepted manifest is read exactly when its index has no
  leading zeros and its parent is not itself a rung section (`ManifestStore.RungIsReadIff`).
- The fingerprint covers binding fields that the store drops, so a captured signature can read back as Drifted although
  nobody edited it (`StoredSignatures.UnusedWidthDrifts`). Its evidence always survives
  (`StoredSignatures.OnlyTheBindingChanges`), and its state does when no binding field is lost
  (`StoredSignatures.StateSurvivesStore`). That is the exact condition whenever the bytes at stake lie within four adjacent
  bytes of the folded stream (`StoredSignatures.MatchSurvivesStoreIff`), as the value width, the register, the xmm index and
  the low byte of the method index do (`StoredSignatures.LowFieldsAreLocal`).

`ShardLookup.EmptyQueryCanMiss` is not in this list: every caller of the lookup passes at least one byte. It only shows
why `ShardLookup.FindEqualsScan` speaks of non-empty queries.

## Model

| member | source | states |
|---|---|---|
| HookGate.ChangeKeepsCount | src/hook.cpp:951-979 | taking or giving up the gate's recursive mutex keeps, for every thread, the hold count equal to the number of that thread's entries that hold it |
| HookGate.LockKeptByEntry | include/DetourModKit/hook.hpp:508-525 | every step of a call, enable or disable keeps the mutex owned by exactly the thread whose entries hold it |
| HookGate.StatusKept | src/hook.cpp:982-1088 | the status word always matches the one enable or disable in progress, if any, and otherwise the last finished one |
| HookGate.CallableKept | src/hook.cpp:794-857 | once the destructor has withdrawn the callable, no later call, enable or disable step publishes it again |
| HookGate.PastKept | src/hook.cpp:794-857 | after withdrawal the callable is null and no thread but the destroyer is still running the trampoline |
| HookGate.StepKeepsInv | src/hook.cpp:794-1103 | every step of any thread keeps the gate invariant |
| HookGate.RunKeepsInv | src/hook.cpp:794-1103 | so does every run, with unboundedly many threads and re-entries |
| HookGate.PublishedExactlyWhenArmed | src/hook.cpp:982-1088 | in every reachable state of a live handle with the mutex free, the callable is non-null exactly when the hook is inline and Active |
| HookGate.NoCallIntoFreedTrampoline | src/hook.cpp:794-926 | in every run whose destroyer is not inside the hook, no guarded call is ever inside an unmapped trampoline |
| HookGate.FreeingIsSafeIffDestroyerOutside | src/hook.cpp:858-926 | at the point of freeing, freeing is safe if and only if the destroying thread is not itself inside the trampoline |
| HookGate.DestructionIsSafeIffBegunOutside | src/hook.cpp:794-926 | a destruction that runs to the free is safe if and only if it was begun from outside the hook, whatever happened in between |
| HookGate.DestroyingInsideOwnCallIsUnsafe | include/DetourModKit/hook.hpp:374-396 | every armed inline hook has a run, destroying it from inside its own guarded call, that leaves a caller in unmapped memory |
| HookGate.ReadyIsSettled | src/hook.cpp:951-979 | with no control operation in progress the status is Active or Disabled and the callable says which, for inline hooks |
| HookGate.EnableArms | src/hook.cpp:982-1034 | from every such state an enable of a disabled hook runs to its end, and leaves it Active with the callable published if the backend succeeds, and otherwise Disabled; nothing else changes |
| HookGate.DisableDisarms | src/hook.cpp:1038-1088 | a disable of an active hook runs to its end, and leaves it Disabled with a null callable if the backend succeeds, and otherwise Active |
| HookGate.RepeatChangesNothing | src/hook.cpp:982-1088 | enabling an active hook or disabling a disabled one runs to its end and changes nothing |
| HookGate.CallRunsExactlyWhenArmed | include/DetourModKit/hook.hpp:508-525 | a guarded call enters the trampoline, holding the gate, exactly when the hook is inline and Active, and otherwise leaves with the gate as it was |
| HookGate.CallAfterEnable | src/hook.cpp:982-1034 | in every reachable state, after a successful enable the next guarded call of any thread enters the trampoline of an inline hook |
| HookGate.CallAfterDisable | src/hook.cpp:1038-1088 | in every reachable state, after a successful disable the next guarded call of any thread does not |
| HookGate.DestructionFreesUnlessLayered | src/hook.cpp:794-926 | a destruction off the loader lock withdraws the callable, and frees the trampoline exactly when no newer layer is on the target |
| HookGate.DestructionLeaks | src/hook.cpp:794-853 | under the loader lock, or when the gate cannot be locked, the trampoline stays mapped and the callable published |
| HookLayers.FrontIsOldestReservation | src/internal/hook_ledger.hpp:100-152 | the reservation at the front of the queue is the oldest one waiting |
| HookLayers.SlotHolderIsNewest | src/internal/hook_ledger.hpp:240-288 | whoever holds the slot to restore or patch is at least as new as every mapped layer |
| HookLayers.PatchKeepsChain | src/hook.cpp:1108-1190 | patching on top of a sound chain saves the newest mapped layer as resume point and leaves the chain sound |
| HookLayers.RestoreKeepsChain | src/hook.cpp:903-924 | restoring the newest layer of a sound chain leaves a sound chain without it |
| HookLayers.StepKeepsInv | src/internal/hook_ledger.hpp:100-314 | every reserve, patch, undo, commit, rollback, leak, leave, decide, restore and release step keeps the ledger and chain invariant |
| HookLayers.RunKeepsInv | src/hook.cpp:858-924 | so does every run of any number of installs, teardowns and leaks on one target |
| HookLayers.ResumesAreMapped | src/hook.cpp:858-924 | in every reachable state each layer's saved resume point is the pristine prologue or an older layer that is still mapped |
| HookLayers.TargetLeadsThroughAllLayers | src/hook.cpp:858-924 | the target leads to the newest mapped layer, and following saved resume points from it visits exactly the mapped layers |
| HookLayers.OnlyNewestIsRestored | src/hook.cpp:874-925 | whenever a layer is restored or undone, the target's prologue leads to that very layer |
| HookLayers.LeakedStays | src/hook.cpp:876-901 | a leaked layer stays mapped and in the creation order in every later state |
| HookLayers.InstallPatches | src/hook.cpp:1108-1190 | an install at the front of the queue makes the target lead to its layer, saves as resume point what the target led to, and leaves the queue |
| HookLayers.NewestIsRestored | src/hook.cpp:858-924 | a teardown at the front with no newer hook on the target writes its resume point back and drops its layer, its place in the order and in the queue |
| HookLayers.OlderIsLeaked | src/hook.cpp:858-901 | under a newer hook the teardown leaves the layer mapped and only leaves the queue |
| InstallAll.DestroyUndoesInstall | src/hook.cpp:858-924 | destroying a freshly installed layer returns its target to the value it had before |
| InstallAll.DestroyedMeans | src/hook.cpp:858-924 | a destroyed layer is restored and dropped exactly when it is the newest and the loader lock is not held; otherwise the target is unchanged |
| InstallAll.FailedAttemptChangesNothing | src/hook.cpp:1108-1272 | an install attempt that fails at any stage leaves its target as it was |
| InstallAll.PopRow | src/hook.cpp:1288-1294 | popping an installed row restores the whole world off the loader lock, and leaves it in place under it |
| InstallAll.InstallRow | src/hook.cpp:1307-1328 | one row either adds its layer on top of its target or changes nothing |
| InstallAll.OccupiedMeans | src/hook.cpp:1303-1328 | a target carries a hook after the first k rows exactly when it did before or one of them installed there |
| InstallAll.HookAtMeans | src/hook.cpp:1303-1328 | a row gets a hook exactly when its attempt goes through and it does not refuse a target hooked before the call or by an earlier row |
| InstallAll.LayeredMeans | src/hook.cpp:1303-1328 | after k rows each target has its old hooks, then the new ones in row order, and leads to the last of them |
| InstallAll.NextRow | src/hook.cpp:1307-1328 | one step of the loop gives the world and the hook of the next row |
| InstallAll.RollBack | src/hook.cpp:1282-1301 | destroying the installed rows newest first returns every target to its initial state, even when rows share targets |
| InstallAll.InstallTable | src/hook.cpp:1274-1340 | the table is done exactly when no row throws and every mandatory row has its hook, with every hook in place; at the first row that throws, or is mandatory and got none, every target is what it was before the call (under the loader lock: the rows so far stay) |
| ReaderDrain.CountsKept | src/memory_cache.cpp:236-261 | each stripe always counts exactly the readers at home there, between their increment and decrement |
| ReaderDrain.ZeroStripeHasNoReader | src/memory_cache.cpp:221-261 | a stripe with a live reader is not zero |
| ReaderDrain.SumKeepsQuiet | src/memory_cache.cpp:221-229 | reading one more zero stripe extends the set of stripes known to hold no reader that could touch the shards |
| ReaderDrain.StepKeepsInv | src/memory_cache.cpp:1032-1064 | every step of any reader, of init and of shutdown keeps the invariant, although the stripes are summed one at a time and count loads may be stale |
| ReaderDrain.RunKeepsInv | src/memory_cache.cpp:1239-1286 | so does every run with unboundedly many readers |
| ReaderDrain.NoUseAfterFree | src/memory_cache.cpp:1239-1286 | in every reachable state a reader that loaded a shard count finds the array allocated and exactly that long, across re-inits with other counts and stale loads; so do clear, cleanup and the shutdown sweep |
| ReaderDrain.DrainedMeansQuiet | src/memory_cache.cpp:1256-1276 | when shutdown has seen a zero sum, no reader is live |
| ReaderDrain.InitPublishes | src/memory_cache.cpp:862-903 | an init of a stopped cache runs to its end and publishes the array and its count |
| ReaderDrain.ReaderUsesTheCache | src/memory_cache.cpp:1032-1064 | between operations a reader enters the array exactly when the cache is initialized, with the length of the array |
| ReaderDrain.ShutdownFrees | src/memory_cache.cpp:1239-1286 | with no reader inside, a shutdown runs to its end and frees the array |
| ShardContents.RemovalFinds | src/memory_cache.cpp:370-376 | on sorted ranges the lower bound of a base is its position exactly when the base is present |
| ShardContents.WithoutKeepsMatching | src/memory_cache.cpp:575-583 | erasing an entry with its index entries leaves both indexes referring only to matching map entries |
| ShardContents.WithoutKeepsConsistent | src/memory_cache.cpp:575-583 | erasing from a consistent shard leaves map, LRU index and ranges describing the same regions |
| ShardContents.EvictionRemovesOldest | src/memory_cache.cpp:434-452 | eviction removes exactly the entry with the smallest LRU key, from all three containers |
| ShardContents.EvictedKeeps | src/memory_cache.cpp:434-452 | eviction keeps matching and consistent shards so |
| ShardContents.TrimmedKeeps | src/memory_cache.cpp:458-464 | so does trimming to the hard maximum |
| ShardContents.TrimmedFits | src/memory_cache.cpp:458-464 | trimming ends within the maximum or with nothing left to evict |
| ShardContents.UpdatedKeepsMatching | src/memory_cache.cpp:471-556 | an update keeps both indexes referring only to matching entries wherever an allocation fails |
| ShardContents.UpdatedConsistentIffNoWrap | src/memory_cache.cpp:471-530 | without a failure an update keeps the containers consistent, with unique LRU keys below the counter, if and only if the counter does not wrap |
| ShardContents.WrapBreaksConsistency | src/memory_cache.cpp:515-527 | a consistent shard whose counter is at its last value, on which every update breaks consistency |
| ShardContents.InsertStaysWithinCapacityIff | src/memory_cache.cpp:505-529 | an insert stays within capacity if and only if there was room or the LRU index had something to evict |
| ShardContents.ConsistentStaysWithinCapacity | src/memory_cache.cpp:471-556 | a consistent shard stays within capacity through any update, failed or not |
| ShardContents.UpdateStores | src/memory_cache.cpp:471-556 | an update stores the reported region with the time of the report unless an allocation fails first, in which case the region's own entry is as before; other entries are unchanged, and only making room for a new region removes one |
| ShardContents.FullShardEvictsOldest | src/memory_cache.cpp:505-529 | an insert into a full consistent shard removes exactly the entry with the smallest LRU key |
| ShardContents.OrphanDefeatsCapacity | src/memory_cache.cpp:505-556 | a failed LRU insertion followed by one more insert exceeds a capacity of one |
| ShardContents.SweepStep | src/memory_cache.cpp:773-806 | removing one more region leaves exactly the old contents restricted to the regions still kept |
| ShardContents.RunKeepsMatching | src/memory_cache.cpp:434-591 | any sequence of insert, refresh, evict, trim, expire and invalidate steps, failures included, keeps the indexes matching |
| ShardContents.RunKeepsSound | src/memory_cache.cpp:434-591 | without failures any such sequence keeps the containers consistent, sorted, with unique keys, and within capacity |
| ShardLookup.FindIsSound | src/memory_cache.cpp:393-427 | whatever the lookup returns is a valid, unexpired entry covering the whole query |
| ShardLookup.CandidateIsTheRegion | src/memory_cache.cpp:407-426 | among disjoint ranges the one before the upper bound of an address is the region that contains it |
| ShardLookup.FindIff | src/memory_cache.cpp:393-427 | for every query, zero bytes included, the lookup succeeds if and only if a covering entry is one it can reach |
| ShardLookup.FindEqualsScan | src/memory_cache.cpp:315-335 | for a non-empty query over disjoint regions the lookup succeeds exactly when a scan of all entries would |
| ShardLookup.CoversMeans | src/memory_cache.cpp:315-335 | an entry that does not wrap covers a query exactly when it is valid, at most as old as the expiry on the wrapping clock, and holds all of the query |
| ShardLookup.StoredRegionAnswers | src/memory_cache.cpp:393-427 | until it expires, a region stored by an update answers every non-empty query that lies inside it |
| ShardLookup.EmptyQueryCanMiss | src/memory_cache.cpp:315-335 | why the comparison with a scan speaks of non-empty queries: a shard and a zero-byte query, which no caller makes, that a scan accepts and the lookup misses |
| CacheShard.UpdateGuarantees | src/memory_cache.cpp:471-556 | matching, consistency and capacity guarantees of one update together |
| CacheShard.SearchLower | src/memory_cache.cpp:359-376 | the halving search stays in bounds on any ranges, and on sorted ones finds the first range not before a pair |
| CacheShard.SearchUpper | src/memory_cache.cpp:407-408 | the halving search stays in bounds on any ranges, and on sorted ones finds the first range after a pair |
| CacheShard.InsertSorted | src/memory_cache.cpp:359-364 | inserts a range at its lower bound, found by binary search |
| CacheShard.RemoveSorted | src/memory_cache.cpp:370-376 | removes the range of a base found by binary search, and keeps the ranges sorted |
| CacheShard.FindInTiers | src/memory_cache.cpp:393-427 | the page probe and the range search: any answer is a covering entry, and on sorted ranges the answer is the lookup's |
| CacheShard.Shard.constructor | src/memory_cache.cpp:105-132 | a new shard is empty and consistent |
| CacheShard.Shard.EvictOldest | src/memory_cache.cpp:434-452 | in place, becomes the evicted value, reports whether anything was evicted, and keeps matching and consistency |
| CacheShard.Shard.Trim | src/memory_cache.cpp:458-464 | in place, becomes the trimmed value |
| CacheShard.Shard.Refresh | src/memory_cache.cpp:476-502 | in place, becomes the refreshed value, up to the allocation that fails; what that value holds is stated by UpdateStores and by Store |
| CacheShard.Shard.Insert | src/memory_cache.cpp:515-528 | in place, becomes the value with the new region in all three containers, up to the allocation that fails |
| CacheShard.Shard.Store | src/memory_cache.cpp:471-530 | refreshes or makes room and inserts; without a failure the entry under the base is the reported region with the time of the report, and every other entry left is unchanged |
| CacheShard.Shard.Update | src/memory_cache.cpp:471-556 | the same, and after a failure other entries are still unchanged; keeps matching always, consistency iff no wrap, capacity from a consistent shard |
| CacheShard.Shard.EraseEntry | src/memory_cache.cpp:575-583 | removes one region from all three containers |
| CacheShard.Shard.Sweep | src/memory_cache.cpp:563-591 | leaves exactly the entries to be kept, unchanged, in all containers, and counts the others |
| CacheShard.Shard.CleanupExpired | src/memory_cache.cpp:563-591 | leaves exactly the entries that are valid and not expired |
| CacheShard.Shard.EvictOverlapping | src/memory_cache.cpp:773-806 | leaves exactly the entries that do not overlap the range |
| CacheShard.Shard.Cleanup | src/memory_cache.cpp:622-631 | after the sweep and the trim only unexpired entries are left, unchanged, within the hard maximum unless nothing can be evicted; matching and consistency are kept |
| CacheShard.Shard.Clear | src/memory_cache.cpp:1214-1218 | empties the three containers and keeps the counter; the result is consistent |
| CacheShard.Shard.Lookup | src/memory_cache.cpp:393-427 | any answer is a covering entry; on sorted ranges the answer is the lookup's; for non-empty queries over disjoint regions there is one exactly when a scan finds one |
| CacheShard.InvalidatedRangeMisses | src/memory_cache.cpp:773-806 | once no overlapping entry is left, every non-empty query that meets the range misses |
| Permission.UniformDecides | src/memory_cache.cpp:996-1024 | in a uniform region one byte's answer is every byte's answer |
| Permission.WriteMaskMeans | src/memory_cache.cpp:60-63 | a protection meets the write mask exactly when one of the four writable flags is set |
| Permission.ReadMaskMeans | src/memory_cache.cpp:55-58 | a protection meets the read mask exactly when one of the six readable flags is set |
| Permission.BarredMaskMeans | src/memory_cache.cpp:337-350 | a protection is barred exactly when its no-access or its guard flag is set |
| Permission.PermissionsMean | src/memory_cache.cpp:337-350 | both permission checks, bit by bit of the protection word |
| Permission.RangePermissionUncached | src/memory_cache.cpp:996-1024 | the region walk answers true if and only if the range does not wrap and every byte is committed and permitted |
| Permission.UpdateKeepsAgreement | src/memory_cache.cpp:471-556 | storing what the system reported keeps every unexpired entry in agreement with the system, wherever an allocation fails |
| Permission.Interfere | src/memory_cache.cpp:597-631 | other threads' stores, cleanup passes with their trims, invalidations and clears keep the agreement |
| Permission.QueryAndStore | src/memory_cache.cpp:914-927 | the leader returns the system's report and keeps the agreement |
| Permission.QueryAndUpdateCache | src/memory_cache.cpp:909-973 | leader, coalesced follower and timed-out follower all return a report true of the system, and keep the agreement |
| Permission.AnswerFromRegion | src/memory_cache.cpp:1083-1107 | one region's report, completed by the walk when the range runs past it, gives the per-byte answer |
| Permission.CheckMemoryPermission | src/memory_cache.cpp:1032-1108 | on hit, leader, follower and uncached paths alike: true if and only if the range is non-null, non-empty, does not wrap and every byte is committed and permitted; the agreement is kept |
| Permission.IsReadable | src/memory_cache.cpp:1411-1414 | the same for the read mask of the source |
| Permission.IsWritable | src/memory_cache.cpp:1416-1419 | the same for the write mask of the source, and a range that checks as writable is readable too |
| Seqlock.StoreKeepsReaders | src/profiler.cpp:127-165 | a writer's store never falsifies what a reader of an even, unchanged sequence has seen so far |
| Seqlock.UnchangedMeansGenuine | src/profiler.cpp:211-244 | a reader whose slot count has not moved has read a payload that some record completed there |
| Seqlock.SameSequenceSameCount | src/profiler.cpp:211-244 | within one wrap of the 32-bit sequence, an equal sequence means an equal count |
| Seqlock.StepKeepsInv | src/profiler.cpp:127-165 | every single store and load, of any number of recorders and exporters, keeps the invariant |
| Seqlock.RunKeepsInv | src/profiler.cpp:127-244 | so does every run |
| Seqlock.RunKnown | src/profiler.cpp:127-165 | every payload being stored or completed in a run was passed to some record call of that run |
| Seqlock.EmittedSamplesAreWhole | src/profiler.cpp:211-244 | every emitted sample is the four fields of one record call that completed in that slot, never a mixture |
| Seqlock.UndisturbedReadEmits | src/profiler.cpp:211-246 | an undisturbed read of a settled slot emits the record last completed there, if it has a name |
| Seqlock.UnfitReadDrops | src/profiler.cpp:211-246 | a slot that is being written or has a null name is skipped |
| Seqlock.RecordStores | src/profiler.cpp:114-165 | an undisturbed record call stores its four fields in its slot and leaves the slot settled |
| Seqlock.RecordedIsExported | src/profiler.cpp:114-246 | a sample recorded and then exported, both undisturbed, comes out as it went in |
| ReloadGate.CountKept | src/config.cpp:668-705 | each step keeps the in-flight count equal to the number of passes between increment and decrement |
| ReloadGate.ZeroMeansHarmless | src/config.cpp:1887-1903 | a zero count means no pass is past its second latch check |
| ReloadGate.StepKeepsInv | src/config.cpp:668-705 | every step of any pass and of the unload side keeps the invariant |
| ReloadGate.RunKeepsInv | src/config.cpp:1842-1858 | so does every run with unboundedly many passes |
| ReloadGate.CountIsPassesInFlight | src/config.cpp:668-705 | in every reachable state the count is exactly the number of passes in flight |
| ReloadGate.QuiescedStays | src/config.cpp:1882-1911 | quiescence lasts through every run without a rearm |
| ReloadGate.SilentUntilRearm | src/config.cpp:1882-1911 | after an await that reported quiescence, no pass runs a setter or the user callback until a rearm |
| ReloadGate.UnlatchedPassRunsSetter | src/config.cpp:668-705 | while the gate is not latched a pass gets to run a setter |
| ReloadGate.UnlatchedPassRunsCallback | src/config.cpp:668-705 | and after its setters the user callback |
| ReloadGate.UnlatchedPassFinishes | src/config.cpp:668-705 | and ends with the gate as it found it |
| ReloadGate.AwaitReportsQuiescence | src/config.cpp:1882-1911 | in every reachable state a waiting unload is latched, and reports quiescence exactly when no pass is between increment and decrement |
| ReloadGate.AwaitGivesUp | src/config.cpp:1887-1903 | an await that times out reports nothing and leaves the latch in place |
| ReloadGate.LatchThenAwait | src/config.cpp:1842-1911 | with no pass in flight, latching and awaiting reports quiescence |
| WatcherSlot.StepKeepsInv | src/config.cpp:1559-1629 | every critical section keeps re-points' remembered generations no newer than the current one |
| WatcherSlot.StepKeepsOff | src/config.cpp:1968-2012 | once off, every step but an enable stays off, a late restart included |
| WatcherSlot.RunKeepsOff | src/config.cpp:1937-1956 | so does every run without an enable |
| WatcherSlot.DisabledStaysOff | src/config.cpp:1968-2012 | after a disable that is not refused as a self-call, no watcher and no callback occupy the slot until an enable, even if a load had moved the old watcher out before |
| WatcherSlot.UndisturbedRepointRestarts | src/config.cpp:1559-1629 | a re-point that no disable, enable or other re-point disturbs ends with a watcher on the new file carrying the old callback |
| WatcherSlot.EnableStarts | src/config.cpp:1914-1965 | an enable on an empty slot leaves a running watcher with its callback, or none and no callback when the watcher does not start |
| WatcherSlot.EnableRefused | src/config.cpp:1914-1965 | before the first load, or over a running watcher, an enable changes nothing |
| WatcherSlot.DisableTakesEffect | src/config.cpp:1968-2010 | a disable changes nothing on the watcher's or the servicer's own thread, and otherwise empties slot and callback and advances the generation |
| WatcherSlot.MoveOutMeans | src/config.cpp:1560-1600 | a load moves the watcher out, remembering the generation, exactly when it watches another file, up to ASCII case, and is not on its own thread |
| WatcherSlot.ServicerStartsOnce | src/config.cpp:2044-2048 | the hotkey servicer is started by the first request and kept by later ones |
| Fnv.XorWordInjective | src/anchor.cpp:231-234 | xor with a byte is injective in the hash and in the byte |
| Fnv.PrimeIsInvertible | src/anchor.cpp:231-234 | multiplying by the FNV prime modulo 2^64 is injective |
| Fnv.StepInjective | src/anchor.cpp:231-234 | one fold step is injective in the hash for a fixed byte and in the byte for a fixed hash |
| Fnv.FoldConcat | src/anchor.cpp:238-247 | folding a concatenation is folding its parts in turn |
| Fnv.FoldInjective | src/anchor.cpp:231-247 | folding the same stream preserves whether two hashes are equal, both ways |
| Fnv.OneByteEditChangesHash | src/anchor.cpp:231-247 | two streams that differ in exactly one byte always fold to different hashes |
| Fnv.ShortRunsInjective | src/anchor.cpp:231-247 | from one hash, different runs of up to four bytes never fold alike |
| Fnv.FourByteEditChangesHash | src/anchor.cpp:231-247 | two streams that differ only within four adjacent bytes fold to the same hash if and only if they are equal |
| Fnv.FoldInt | src/anchor.cpp:238-247 | the integer loop folds exactly the little-endian bytes of the value |
| Fnv.LittleEndianInjective | src/anchor.cpp:238-247 | the little-endian bytes of a value in range determine it |
| Fnv.LittleEndianAt | src/anchor.cpp:238-247 | byte i of a folded integer is the value divided by 256 to the i, modulo 256 |
| Fnv.KnownAnswer | src/anchor.cpp:228-234 | the published FNV-1a 64 test value of the letter a |
| Evidence.CandidateUnambiguous | src/anchor.cpp:293-333 | the bytes of a ladder rung determine the rung and where its bytes end |
| Evidence.CascadeUnambiguous | src/anchor.cpp:334-346 | the bytes of a ladder determine the ladder and where its bytes end |
| Evidence.EvidenceUnambiguous | src/anchor.cpp:348-394 | two anchors fold the same evidence bytes if and only if they declare the same evidence |
| Evidence.EvidencePrefix | src/anchor.cpp:348-394 | with what follows aligned alike, evidence bytes determine the anchor and where they end |
| Evidence.CandidateFormat | src/anchor.cpp:293-333 | the bytes of each kind of rung, field by field, with the tag in front and lengths before variable fields |
| Evidence.FacetFormat | src/anchor.cpp:322-331 | the three facet bytes: return mode, terminator, broad match |
| Evidence.EvidenceFormat | src/anchor.cpp:348-394 | the bytes of each kind of anchor, as stored baselines rely on them; the default page scope adds nothing |
| Permutations.CollectPermutes | src/anchor.cpp:987-1054 | gathering over a rearranged sequence gathers a rearrangement |
| Permutations.AscendingSorts | src/anchor.cpp:987-1054 | the reference sort is sorted and a permutation |
| Permutations.SortedIsUnique | src/anchor.cpp:987-1054 | a multiset has one sorted arrangement |
| Fingerprint.NextEvidence | src/anchor.cpp:1010-1029 | a selection pass finds the least evidence value above the previous one, if and only if there is one |
| Fingerprint.CountEvidence | src/anchor.cpp:1031-1038 | the counting pass finds the multiplicity of a value |
| Fingerprint.FoldRepeated | src/anchor.cpp:1039-1042 | folding a value count times is folding that many copies |
| Fingerprint.FoldMembers | src/anchor.cpp:1005-1047 | the allocation-free loop terminates and equals folding the ascending sort of all members' evidence, duplicates and zeros included |
| Fingerprint.QuorumFingerprint | src/anchor.cpp:987-1054 | so does the whole quorum fingerprint with its header fields |
| Fingerprint.QuorumHashOrderFree | src/anchor.cpp:987-1054 | permuting the members never changes the fingerprint |
| Fingerprint.QuorumUnambiguous | src/anchor.cpp:987-1054 | two quorums fold the same bytes if and only if they have as many members with the same evidence in any order, ask for the same number of votes, and agree on match policy and tolerance |
| DriftGate.FoldBinding | src/manifest.cpp:1010-1042 | the binding fold is the fold of the binding's byte stream |
| DriftGate.FingerprintFoldsContract | src/manifest.cpp:1237-1245 | the current fingerprint is one fold over evidence bytes followed by binding bytes |
| DriftGate.BindingUnambiguous | src/manifest.cpp:1030-1042 | the binding bytes determine the binding |
| DriftGate.ContractUnambiguous | src/manifest.cpp:1237-1245 | two signatures fold the same bytes if and only if evidence and binding are the same |
| DriftGate.OneByteEditDrifts | src/manifest.cpp:1247-1260 | changing one folded byte of a captured signature makes it Drifted, unless it had no baseline, and it was a Match before |
| DriftGate.LocalEditDrifts | src/manifest.cpp:1247-1260 | an edit within four adjacent folded bytes of a captured signature makes it Drifted if and only if evidence or binding changed |
| DriftGate.ByteFieldEditDrifts | src/manifest.cpp:1030-1042 | in particular editing the binding kind, the value width, the register or the xmm index |
| DriftGate.CheckEach | src/manifest.cpp:1670-1707 | the loop splits the signatures, in order, into entries that pass and denials with their status and drift state |
| DriftGate.GateWith | src/manifest.cpp:1651-1737 | the passing entries are trusted if the floor is met, otherwise nothing is and each is denied with its own drift state |
| DriftGate.ResolveAndGate | src/manifest.cpp:1651-1737 | the same with the signatures' real fingerprint states |
| DriftGate.GateLosesNothing | src/manifest.cpp:1651-1737 | the names of the trusted and the rejected together are the names of all signatures, each as often as the manifest holds it |
| DriftGate.TrustedPassed | src/manifest.cpp:1670-1707 | whatever is trusted is the entry of a signature that passed every check |
| DriftGate.TrustedIff | src/manifest.cpp:1670-1734 | an entry is trusted if and only if enough signatures pass and it is the entry of one that does |
| DriftGate.TrustedExactly | src/manifest.cpp:1651-1737 | an entry is trusted if and only if it carries the name, kind, binding and 64-bit address of a signature that resolved, has the fingerprint of its baseline where drift is rejected and has a baseline where a missing one is, and the share of such signatures reaches the floor clamped to 0..1 |
| DriftGate.RejectedExactly | src/manifest.cpp:1651-1737 | a rejection is listed if and only if it carries the name, status and baseline state of a signature that is not such a one, or of any signature when the share is too small |
| DriftGate.FailingIsDenied | src/manifest.cpp:1670-1707 | a signature that fails a check is denied with its own status and state |
| DriftGate.StrictGateIsAllOrNothing | src/manifest.cpp:1712-1734 | under a full floor the manifest is trusted if and only if every signature passes |
| DriftGate.EditedSignatureNotTrusted | src/manifest.cpp:1670-1707 | while drift is rejected, the gate denies as Drifted every captured signature edited in one byte |
| Quorum.CollectAtoms | src/anchor.cpp:510-567 | the collected atoms are those of the anchor's kind |
| Quorum.GatherRungs | src/anchor.cpp:530-538 | one atom per rung, in order |
| Quorum.GatherOperands | src/anchor.cpp:539-551 | one atom per rung, refined by operand kind, index and width |
| Quorum.PlacesUnambiguous | src/anchor.cpp:415-509 | two places fold the same atom bytes if and only if they are the same place |
| Quorum.RungsFoldAlike | src/anchor.cpp:470-508 | two rungs fold the same atom bytes if and only if at most their scan facets differ |
| Quorum.AtomsMean | src/anchor.cpp:510-567 | a flat anchor has the atom of its one place, a ladder one for every rung in order, with the operand selector folded on for operand anchors |
| Quorum.NoRungsCompareByKind | src/anchor.cpp:552-566 | two anchors without a rung are dependent if and only if they are of one kind |
| Quorum.SharesAtom | src/anchor.cpp:123-140 | the nested loop finds a shared atom if and only if there is one |
| Quorum.CheckPair | src/anchor.cpp:98-135 | the pair test built from the atom loops: independent if and only if not the same object, not two manual values and no shared atom |
| Quorum.SharedRungIsDependent | src/anchor.cpp:510-567 | two RIP anchors with a rung in common are never independent |
| Quorum.SharedOperandIsDependent | src/anchor.cpp:539-551 | two operand anchors that select the same operand of a common rung are never independent |
| Quorum.OperandSelectorsDecide | src/anchor.cpp:539-551 | on one rung two operand anchors share an atom if and only if operand kind, index and width are all the same |
| Quorum.WrapperAndFacetsDoNotMatter | src/anchor.cpp:429-509 | a string anchor and a rung for the same string are dependent, whatever their other settings |
| Quorum.ModuleCaseDoesNotMatter | src/anchor.cpp:263-276 | export anchors on the same export are dependent when the module names differ only in ASCII case |
| Quorum.AgreeIsDistance | src/anchor.cpp:60-96 | the unsigned gap test is the true integer distance test for every pair of 64-bit values and every tolerance |
| Quorum.CountAgreeing | src/anchor.cpp:161-176 | the loop counts the votes that agree with a center |
| Quorum.CheckPairs | src/anchor.cpp:142-159 | the nested loop accepts if and only if all pairs are independent |
| Quorum.CollectVotes | src/anchor.cpp:775-784 | the votes are the resolved members' values in member order |
| Quorum.ResolveQuorum | src/anchor.cpp:728-806 | the quorum case computes the declared decision, in every failure branch too |
| Quorum.ResolvedIsCorroborated | src/anchor.cpp:728-806 | a resolved value is accepted by the validator and backed by at least N >= 2 distinct members with pairwise disjoint atoms whose values agree with it, where N is the threshold, or the number of members when that is 0 |
| Quorum.MalformedFails | src/anchor.cpp:728-757 | fewer than two members, a null or nested one, a threshold of one or a threshold above the member count fails, whatever the members resolve to |
| Quorum.DependentPairIsRefused | src/anchor.cpp:98-159 | a well-formed quorum in which two members are one object, two manual values, or share an atom is refused as not independent before any vote |
| Quorum.FirstBackedDecides | src/anchor.cpp:791-805 | from any member on, the first one that enough members agree with decides, and without one the vote fails |
| Quorum.ResolvesToFirstBacked | src/anchor.cpp:728-806 | a well-formed quorum of pairwise independent members resolves to the value of its first member that N members agree with, if the validator accepts it, and otherwise fails |
| Quorum.IndependenceOrderFree | src/anchor.cpp:142-159 | pairwise independence does not depend on member order |
| Quorum.OrderMattersExactlyWhen | src/anchor.cpp:791-805 | all member orders decide alike if and only if all qualifying centers commit alike |
| Quorum.OrderCanDecide | src/anchor.cpp:791-805 | a well-formed quorum of independent members that resolves to 1 in one order and to 2 in another |
| Quorum.MajorityExactIsOrderFree | src/anchor.cpp:728-806 | under a strict majority and exact match every member order gives the same status and value |
| Quorum.MajorityToleranceIsBounded | src/anchor.cpp:728-806 | under a strict majority and tolerance match two orders' values are at most twice the tolerance apart |
| DriftManifest.LineReadsBack | src/drift_manifest.cpp:93-115 | the line of a representable record reads back as that record and cannot be mistaken for a line break |
| DriftManifest.TokenSpelled | src/drift_manifest.cpp:30-70 | the four spelled codes, with every other code written as a bad descriptor; a token is read if and only if it is one of them exactly |
| DriftManifest.RoundTrip | src/drift_manifest.cpp:93-208 | parsing a serialised report, or its CRLF form, returns every record unchanged |
| DriftManifest.RoundTripIff | src/drift_manifest.cpp:30-208 | a list of records survives serialising and parsing if and only if every name is free of tab and newline and every code has a token |
| DriftManifest.TabInNameIsLost | src/drift_manifest.cpp:93-175 | a record with a tab in its name that does not read back |
| DriftManifest.AcceptedRecordsRepresentable | src/drift_manifest.cpp:117-208 | whatever the parser accepts can be written again |
| DriftManifest.AcceptedTextIsStable | src/drift_manifest.cpp:117-208 | for any accepted text, serialising its records and parsing again gives the same records |
| DriftManifest.Serialize | src/drift_manifest.cpp:93-115 | the appending loop produces the declared text |
| DriftManifest.SplitFields | src/drift_manifest.cpp:150-175 | the field loop finds the tab-separated fields, and refuses exactly when there are more than six |
| DriftManifest.TakeLine | src/drift_manifest.cpp:130-200 | one line is taken, skipped or refused as the line grammar says |
| DriftManifest.ParseWith | src/drift_manifest.cpp:117-208 | the line loop computes the line grammar over the split text |
| DriftManifest.LineMeans | src/drift_manifest.cpp:150-200 | a line reads as a record if and only if it has exactly six fields and each reads as its own member |
| DriftManifest.ParseMeans | src/drift_manifest.cpp:117-208 | blank lines aside: without the header first the report has no header; with it, any bad line makes it malformed, and otherwise its records are those of the other lines, in order |
| DriftManifest.Parse | src/drift_manifest.cpp:117-208 | the parser computes the declared result, each error included |
| Numerals.DigitsSpelled | src/manifest.cpp:77-98 | the sixteen digits by name; letters count alike in either case, and no other character is a digit |
| Numerals.ValueJoins | src/drift_manifest.cpp:72-82 | digits count by position, in decimal and in hex |
| Tokens.SignedHexReads | src/manifest.cpp:417-426 | a signed hex token reads back for every 64-bit value, the most negative one included |
| Tokens.DecimalTokenReads | src/manifest.cpp:141-153 | a decimal token reads back for every unsigned value, and as a byte when it fits |
| Tokens.HexTokenReads | src/manifest.cpp:77-98 | a hex token reads back for every unsigned value |
| Tokens.BoolReads | src/manifest.cpp:166-178 | a boolean token reads back |
| Tokens.TrimMeans | src/manifest.cpp:59-71 | trimming takes blanks away at both ends, all of them, and nothing else |
| Tokens.OffsetsRead | src/manifest.cpp:661-683 | every list of 64-bit offsets reads back |
| Tokens.ReadOffsets | src/manifest.cpp:661-683 | the comma loop computes the declared list, skipping blank pieces and refusing bad ones |
| Tokens.WriteOffsets | src/manifest.cpp:1437-1450 | the writing loop computes the declared token |
| SectionNames.NoLaterInfix | src/manifest.cpp:442-453 | nothing after the last infix of a rung section name can be taken for another |
| SectionNames.RungSectionParses | src/manifest.cpp:442-470 | a rung section name parses to its own parent and index |
| SectionNames.RungNameParses | src/manifest.cpp:442-470 | any numeral after the last infix is taken as an index, also one with leading zeros |
| SectionNames.RungSectionsDiffer | src/manifest.cpp:433-470 | equal rung section names have the same parent and index |
| SectionNames.ParseIndex | src/manifest.cpp:454-469 | the digit loop reads the index, and refuses an overflow, a sign or a stray character |
| ManifestTokens.ModeReads | src/manifest.cpp:241-277 | every scan mode's token reads back |
| ManifestTokens.ModeSpelled | src/manifest.cpp:241-277 | how each scan mode is spelled |
| ManifestTokens.ModeParsed | src/manifest.cpp:241-277 | a token reads as a scan mode if and only if, with blanks around it and case ignored, it is that spelling |
| ManifestTokens.KindReads | src/manifest.cpp:182-239 | an anchor kind's token reads back if and only if the kind can be stored |
| ManifestTokens.KindSpelled | src/manifest.cpp:182-239 | how each anchor kind is spelled |
| ManifestTokens.KindParsed | src/manifest.cpp:182-239 | a token reads as a anchor kind if and only if, with blanks around it and case ignored, it is that spelling and the kind can be stored |
| ManifestTokens.OperandReads | src/manifest.cpp:279-296 | every operand kind's token reads back |
| ManifestTokens.OperandSpelled | src/manifest.cpp:279-296 | how each operand kind is spelled; a token reads as it if and only if, with blanks around it and case ignored, it is that spelling |
| ManifestTokens.EncodingReads | src/manifest.cpp:298-315 | every string encoding's token reads back |
| ManifestTokens.EncodingSpelled | src/manifest.cpp:298-315 | how each string encoding is spelled; a token reads as it if and only if, with blanks around it and case ignored, it is that spelling |
| ManifestTokens.PagesReads | src/manifest.cpp:317-341 | every page scope's token reads back |
| ManifestTokens.PagesSpelled | src/manifest.cpp:317-341 | how each page scope is spelled; a token reads as it if and only if, with blanks around it and case ignored, it is that spelling |
| ManifestTokens.ReturnReads | src/manifest.cpp:343-373 | every cross-reference return mode's token reads back |
| ManifestTokens.ReturnSpelled | src/manifest.cpp:343-373 | how each cross-reference return mode is spelled; a token reads as it if and only if, with blanks around it and case ignored, it is that spelling |
| ManifestTokens.BindingReads | src/manifest.cpp:375-395 | every binding kind's token reads back |
| ManifestTokens.BindingSpelled | src/manifest.cpp:375-395 | how each binding kind is spelled; a token reads as it if and only if, with blanks around it and case ignored, it is that spelling |
| ManifestTokens.RegisterReads | src/manifest.cpp:397-415 | a register's token reads back, and an unknown register reads as the first |
| ManifestTokens.RegistersSpelled | src/manifest.cpp:40-41 | the fifteen register names, by number |
| ManifestTokens.RegisterParsed | src/manifest.cpp:397-408 | a token reads as a register if and only if, with blanks around it and case ignored, it is its name |
| ManifestRecords.SpecReads | src/manifest.cpp:474-624 | a rung read through its own fields is the rung with unused fields at their defaults, or is refused exactly when its RIP layout is invalid |
| ManifestRecords.RecordReads | src/manifest.cpp:629-856 | a record read through its own fields is the record with the fields its kind does not use at their defaults |
| ManifestRecords.SpecMeans | src/manifest.cpp:474-624 | a section reads as a rung if and only if its mode and the keys that mode needs are there, every other key of the mode is absent with its default or says what the rung holds, and a RIP layout fits the instruction |
| ManifestRecords.BindingMeans | src/manifest.cpp:652-722 | a section reads as a binding if and only if every binding key is absent with its default or says what the binding holds |
| ManifestRecords.RecordMeans | src/manifest.cpp:629-856 | a section reads as a record if and only if its kind is there, and every other key the kind uses is absent with its default or says what the record holds; a manual value must be there |
| ManifestRecords.DefaultsSpelled | include/DetourModKit/manifest.hpp:101-236 | what a field holds that no key sets |
| ManifestCodec.FieldReads | src/manifest.cpp:1422-1547 | the text written under each key reads back as the value |
| ManifestCodec.NumbersWritten | src/manifest.cpp:1422-1547 | fingerprints and signed offsets are written in hex, with the sign in front, other numbers in decimal |
| ManifestCodec.RegisterIsWritten | src/manifest.cpp:410-414 | a register is written by its own name, an unknown one as the first |
| ManifestCodec.UnstorableKindIsRefused | src/manifest.cpp:182-239 | a kind without a section form is refused on reading |
| ManifestCodec.SpecRoundTrip | src/manifest.cpp:474-624 | a rung's section text reads back as its normal form, or is refused exactly when its layout is invalid |
| ManifestCodec.RecordRoundTrip | src/manifest.cpp:629-856 | a record's section text reads back as its normal form, or is refused exactly when its kind cannot be stored |
| ManifestStore.PutAllHolds | src/manifest.cpp:1422-1547 | writing sections with distinct names leaves every section as written, in order |
| ManifestStore.BlocksDistinct | src/manifest.cpp:926-944 | with distinct serialisable labels no two sections, record, rung or header, share a name |
| ManifestStore.RecordAtReads | src/manifest.cpp:1366-1401 | a record's section, with its own rungs and no stray ones, reads back |
| ManifestStore.StoreRoundTrip | src/manifest.cpp:1282-1405 | for any codec whose texts read back, parsing a serialised manifest returns its revision and its records in order |
| ManifestStore.BadRecordRejects | src/manifest.cpp:1325-1405 | one record that cannot be read makes the whole manifest be rejected |
| ManifestStore.ReadRecordsAreNamed | src/manifest.cpp:1351-1402 | whatever the store, the records read from it have distinct, non-empty labels that are not rung names |
| ManifestStore.WriteRungs | src/manifest.cpp:1508-1547 | the rung loop writes one section per rung |
| ManifestStore.WriteRecord | src/manifest.cpp:1422-1547 | a record writes its own section and then its rungs |
| ManifestStore.Serialize | src/manifest.cpp:1407-1547 | the loops write the declared store |
| ManifestStore.ReadLadder | src/manifest.cpp:1375-1389 | the rung loop reads consecutive rung sections until the first gap |
| ManifestStore.FindStray | src/manifest.cpp:1391-1399 | the stray loop finds a rung section beyond the ladder if and only if there is one |
| ManifestStore.ReadRecordAt | src/manifest.cpp:1366-1401 | fields, ladder and stray check together compute the declared record |
| ManifestStore.ReadRecords | src/manifest.cpp:1351-1402 | the section loop reads the record sections in order and skips rung sections |
| ManifestStore.Parse | src/manifest.cpp:1282-1405 | the parser computes the declared result, each error included |
| ManifestStore.RecordAtIff | src/manifest.cpp:1351-1402 | a record is read from its section if and only if it has a label and readable fields, its rungs up to the first gap read, and no rung section of it lies past the gap |
| ManifestStore.AcceptedIff | src/manifest.cpp:1282-1405 | a store is accepted, as exactly this manifest, if and only if the header names schema 1 and a fitting revision, no rung lacks its parent section, and every record section reads; the header error is reported exactly when the header is at fault |
| ManifestStore.RungIsReadIff | src/manifest.cpp:1326-1402 | a rung section of an accepted store is read into a record if and only if its index has no leading zeros and its parent is not itself a rung section |
| ManifestStore.PaddedRungIsLost | src/manifest.cpp:442-470 | for every record with a rung: a second section for that rung, with a zero in front of the index, is accepted and ignored |
| ManifestRoundTrip.RoundTrip | src/manifest.cpp:1282-1547 | with the toolkit's own codec, a manifest of distinct serialisable records reads back with its revision, in order, each in normal form |
| ManifestRoundTrip.AcceptedIffSerialisable | src/manifest.cpp:926-944 | with usable distinct labels, a serialised manifest is accepted if and only if every record has a storable kind and valid rung layouts |
| ManifestRoundTrip.UnchangedIff | src/manifest.cpp:1282-1547 | over exact section names any manifest reads back unchanged if and only if its labels are usable and distinct, its kinds and layouts storable, and every field the active kind does not use at its default |
| ManifestRoundTrip.UnusedFieldIsLost | src/manifest.cpp:1470-1490 | a manual record with a type name set reads back without it |
| ManifestRoundTrip.DuplicateLabelIsLost | src/manifest.cpp:1422-1433 | two equal records are stored as one, so they do not read back |
| StoredSignatures.LadderCompilesAlike | src/manifest.cpp:861-903 | every ladder compiles alike after its rungs were stored |
| StoredSignatures.RungCompilesIff | src/manifest.cpp:861-903 | a rung compiles to a candidate if and only if the mode, the compiled pattern and every parameter agree, and a RIP layout fits the instruction |
| StoredSignatures.CompilesIff | src/manifest.cpp:1081-1162 | a record compiles to a signature if and only if its label is usable, the evidence its kind needs is there and compiles to that anchor, and label, binding and baseline are the record's |
| StoredSignatures.OnlyTheBindingChanges | src/manifest.cpp:1050-1162 | a record read back compiles exactly when the original does, to the same evidence and baseline; only the unused binding fields change |
| StoredSignatures.StateSurvivesStore | src/manifest.cpp:1237-1255 | with the unused fields of its binding at their defaults, a signature reads back and compiles to itself |
| StoredSignatures.MatchSurvivesStoreIff | src/manifest.cpp:1237-1255 | a match whose loss lies within four adjacent folded bytes is a match after the store if and only if it loses nothing, and is Drifted otherwise |
| StoredSignatures.LowFieldsAreLocal | src/manifest.cpp:1030-1042 | every loss of the width, the register, the xmm index and the low byte of the method index is such a loss |
| StoredSignatures.UnusedWidthDrifts | src/manifest.cpp:1030-1042 | for every usable label, a captured match whose unused value width is folded but not stored, so that it reads back as Drifted |
| Rtti.SiteMeans | src/rtti.cpp:66-132 | a locator is accepted if and only if its signature field is 1, its self field points back at it from the module base and its type descriptor's name lies in the module; each field at its own offset |
| Rtti.ResolveSiteMeans | src/rtti.cpp:66-132 | a vtable has a site if and only if it is in the module and the pointer right before it leads to such a locator, all of it in the module |
| Rtti.AcceptMeans | src/rtti.cpp:520-545 | a slot is accepted if and only if it holds a pointer into the scope, to a locator of the module that owns the following vtable, with the type named as asked; the answer is the locator's offset field |
| Rtti.AddKeeps | src/rtti.cpp:546-560 | adding an accepted vtable keeps the list duplicate-free, genuine and under the cap, and loses nothing |
| Rtti.SearchCollects | src/rtti.cpp:494-566 | the slot-by-slot search collects genuine matches only, and below the cap all of them, each once |
| Rtti.HitIffAccepted | src/rtti.cpp:500-508 | the slots searched are exactly the qword-aligned slots that fit in the window |
| Rtti.ScanCollects | src/rtti.cpp:575-609 | over several windows: below the cap exactly the accepted vtables, each once |
| Rtti.BelowCapIff | src/rtti.cpp:575-609 | the scan stays below its cap if and only if fewer distinct vtables than that are accepted in its windows |
| Rtti.PageReadsAlike | src/rtti.cpp:506-518 | a run of qwords within one page reads as a whole exactly when any one of them reads |
| Rtti.SearchJoins | src/rtti.cpp:502-566 | searching two adjacent runs in turn is searching their union |
| Rtti.SearchFull | src/rtti.cpp:502-520 | once the cap is reached the rest of a search changes nothing |
| Rtti.ReadWords | src/rtti.cpp:516-518 | the chunk read fills the buffer with the words, or fails as a whole |
| Rtti.IsListed | src/rtti.cpp:546-554 | the duplicate loop finds a listed vtable if and only if it is listed |
| Rtti.Append | src/rtti.cpp:546-560 | in place, the output array becomes the list with the match added |
| Rtti.SweepChunk | src/rtti.cpp:520-562 | examining a buffered chunk equals searching its slots one by one |
| Rtti.SweepPage | src/rtti.cpp:516-562 | so does reading and examining one page's chunk, unreadable pages included |
| Rtti.NextChunk | src/rtti.cpp:506-517 | a chunk is non-empty, stays within one page and within the window |
| Rtti.SweepNext | src/rtti.cpp:502-564 | the next chunk equals the search of its slots |
| Rtti.SweepSlots | src/rtti.cpp:500-566 | the chunked sweep equals the slot-by-slot search |
| Rtti.SweepRange | src/rtti.cpp:494-566 | so does the sweep of a window from its first aligned slot |
| Rtti.ScanVtables | src/rtti.cpp:575-609 | so does the scan over all windows, or nothing for an invalid scope or name |
| Rtti.SelectPrimary | src/rtti.cpp:715-735 | a vtable is selected if and only if the list is not full and it is the only offset-0 match |
| Rtti.VtableForType | src/rtti.cpp:706-736 | v is returned if and only if fewer than 64 distinct vtables of the type are in the scanned windows and v is the only offset-0 one |
| Rtti.SelectedIsUnique | src/rtti.cpp:706-736 | a selected vtable is the only accepted offset-0 one in the windows |
| Rtti.UniqueIsSelected | src/rtti.cpp:706-736 | below the cap a unique offset-0 vtable is selected |
| ExportTable.CheckedRvaMeans | src/scan_export.cpp:49-81 | a non-empty range is accepted if and only if all of it lies in the image, with no wrap |
| ExportTable.TablesAtMeans | src/scan_export.cpp:188-210 | tables are reported if and only if the counts are in bounds and all three tables lie in the image |
| ExportTable.TablesAreInside | src/scan_export.cpp:138-210 | headers that report exports report tables inside the image |
| ExportTable.NameIsUnique | src/scan_export.cpp:88-119 | at one address at most one name without a zero byte is found |
| ExportTable.EntryMeans | src/scan_export.cpp:237-268 | what a name leads to: the function slot its 16-bit ordinal selects, forwarded when that lies in the export directory, an address when it lies elsewhere in the image, nothing when the ordinal or the slot is out of range |
| ExportTable.BadImageMeans | src/scan_export.cpp:132-175 | an image is refused exactly when a DOS, NT or optional-header field at its own offset is wrong or unreadable |
| ExportTable.ExportsMean | src/scan_export.cpp:159-210 | the counts and the three tables are those in the export directory's fields, each at its own offset, bounded and inside the image |
| ExportTable.NameMatches | src/scan_export.cpp:88-119 | the byte loop accepts exactly the name and its terminator, and reads only inside the image |
| ExportTable.ReadEntry | src/scan_export.cpp:237-268 | an entry is classified as EntryMeans spells out, reading only inside the image |
| ExportTable.TestName | src/scan_export.cpp:219-233 | one name-table entry is read and compared, reading only inside the image |
| ExportTable.ReadHeaders | src/scan_export.cpp:132-175 | the header walk computes the declared result; after the DOS header it reads only inside the image |
| ExportTable.ReadDirectory | src/scan_export.cpp:159-210 | the directory is located and checked, reading only inside the image |
| ExportTable.ScanEnds | src/scan_export.cpp:270-278 | a scan that reached the end with one match resolves to it, with none finds nothing |
| ExportTable.SecondMatch | src/scan_export.cpp:231-234 | a second match means no export resolves |
| ExportTable.FirstMatchDecides | src/scan_export.cpp:237-268 | a first match that does not land settles the outcome: forwarded or not found |
| ExportTable.UnreadableName | src/scan_export.cpp:221-226 | an unreadable name means no export resolves and none is forwarded |
| ExportTable.ScanNames | src/scan_export.cpp:212-278 | found exactly when every name reads, exactly one is the target and it lands; forwarded exactly when the first match is a forwarder |
| ExportTable.ResolvesMeans | src/scan_export.cpp:212-278 | an address is found exactly when all names read, one alone is the target, and its ordinal's function slot holds that address inside the image and outside the directory |
| ExportTable.ForwardsMeans | src/scan_export.cpp:212-278 | the outcome is forwarded exactly when the first name that is the target selects a slot inside the directory, all names up to it being readable |
| ExportTable.ResolvedIsCode | src/scan_export.cpp:250-268 | a resolved address is in the image, is not its base, and is outside the export directory |
| ExportTable.ResolveExport | src/scan_export.cpp:122-281 | the whole resolver: each outcome if and only if its condition; a found address is the image base plus the function slot selected by the 16-bit ordinal of a name that is the target; after the DOS header every read is inside the image |

## Left out

- The VMT half of the hook module and the mid-hook register accessors: backend clone behaviour and plain field reads.
- Enabling and disabling an older layer while newer layers sit on the same target: `HookLayers` covers install, teardown and leak; what the backend writes for a disabled middle layer is not part of this model.
- Moving a hook handle: the handle stays where it is.
- Prologue-risk and pre-hook heuristics of an install: they appear only as an attempt that may fail.
- `HookLayers` numbers hooks in the order the ledger appends them; the source's own ids come from a separate counter and are only compared for equality.
- ReaderDrain.CountsKept: does not model the width of the stripe counters, because that many simultaneous readers cannot exist.
- ReloadGate.CountKept: does not model the width of the in-flight counter, for the same reason.
- The at-exit path of the cache, its cleanup thread and its statistics.
- Choosing a shard, and `invalidate_range` over shards whose lock is contended: only the per-shard sweep is a guarantee in the source.
- Permission.CheckMemoryPermission: does not model a memory map that changes during the check, because the source promises nothing then.
- Seqlock.EmittedSamplesAreWhole: does not model reset, a writer lapped by a whole ring of later ones, or 2^32 increments during one read, because the source excludes them; tick conversion and JSON text are left out.
- WatcherSlot.DisabledStaysOff: does not model a full wrap of the 64-bit disable generation within one re-point.
- Reading a configuration file, the content-hash skip, setters' effects and the servicer thread of the configuration module.
- The other gate of the anchor module, quality statistics, parallel resolution, and the resolvers that members call.
- DriftGate.ResolveAndGate: takes the floor as a real number, so a NaN floor (which the source treats as zero) and rounding of the ratio are not captured.
- Physical INI text: comments, heredocs, and values that the document cannot carry (NUL, line breaks, outer blanks), which the source refuses before writing. Keys are symbols with fixed distinct spellings.
- ManifestRoundTrip.UnchangedIff: section names are exact here; the document looks sections up without regard to ASCII case, so two labels that differ only in case merge. The in-memory fields `validator`, `validator_context`, `validate_manual` and `require_validator` of a record are never written and are not part of the modelled record.
- StoredSignatures.MatchSurvivesStoreIff: states no exact condition for a binding that loses offsets, or high bytes of its method index that do not fit one window of four adjacent bytes with whatever else is lost; for those only the direction of `StoredSignatures.StateSurvivesStore` is stated, since a 64-bit hash cannot tell all such streams apart.
- StoredSignatures.OnlyTheBindingChanges: how text becomes bytes and how a pattern compiles are given, and values the document cannot carry are left out.
- Parsing pattern text, adopting in-code anchors and overlaying manifests.
- Walking section headers to collect RTTI windows: the windows are given.
- Rtti.SweepRange: requires windows to end below the last page of the address space, because user-mode images do.
- Guarded reads' fault handling: a read either returns the bytes or fails as a whole.
- Scanning, input, logging, diagnostics, filesystem and build scripts.
