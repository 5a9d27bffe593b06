# Model of the NebulaCompute cluster components

The project models the stateful components of `src/distributed_cluster` and proves what they keep
over whole runs:

- two LRU memory caches, the multi-tier cache above them and the stand-alone eviction strategies;
- the consistent-hash ring and its replica walk;
- the token bucket and the circuit breaker;
- the auto-scaling manager with the queue-based and the cost-aware policy;
- backup retention;
- the write-behind queue;
- cost tracking and pricing.

Each module follows one source component: a class with the source's fields and methods, proved
against functions on values, and theorems about those functions over all runs. `Common` holds
sequence, sum and stable-sort facts, `OrderedDict` the insertion-ordered dictionary that several
components keep.

Conventions. Clocks, the policies' and the provider's answers, storage failures, fresh ids and
lossy tiers are inputs. Floats are reals. A lock section, or a stretch between two awaits, is one
step. A Python exception is a value of the result type. A dictionary whose order matters is a
sequence of items with distinct keys.

Where the code departs from its own documentation, the code is followed and the exact condition
is proved:

- a store into the size-bounded cache evicts even when it overwrites, so a key survives one other
  key fewer than a textbook LRU promises (`WorkingSetExactly`);
- `get_nodes` never returns when a node without virtual nodes leaves too few healthy nodes
  (`WalkEndsExactly`), and `get_node` may return an unhealthy node (`GetNode`,
  `LookupGivesUpEarly`);
- the breaker reads a clock that may go back (`DepartsExactly`);
- the write-back mode of the tiered cache never writes a lower tier (`WriteBackNeverWritesBack`),
  and remote tiers swallow failures (`RunCoherentExactly`, `MissedStoreServesOld`); so does the
  flush of the write-behind queue (`LastWriterExactly`, `SwallowedWriteIsLost`);
- the retention loop counts the deletions of all types against each type (`KeepsAtMostExactly`,
  `CountLimitMetExactly`) and never sees snapshots beyond the newest 10000 (`UnlistedStay`);
- with a cluster state the manager counts healthy workers and not the fleet, so range and budget
  are exceeded by the workers it misses (`FleetInRange`, `BudgetKept`, `MissedWorkersOverspend`);
- with a negative number of periods the queue policy ignores its depth thresholds
  (`NegativePeriodsFlap`);
- cost entries are stamped without a time zone and compared with a time-zoned cutoff, so cleaning
  up a non-empty ledger raises and removes nothing (`CleanupNeverWorks`);
- price tiers are charged by their widths alone (`ChargesOverlapsExactly`);
- segmented LRU lists a protected key twice once it is inserted again (`SegmentBatchExactly`,
  `RunDisjointExactly`).

## Model

| member | source | states |
|---|---|---|
| LruBackend.Inclusion | src/distributed_cluster/caching/backends.py:91-186 | for capacities c1 <= c2, one run and one clock: the small cache's entries are in order a subsequence of the large one's with equal values and expiries, and every hit in the small is the same hit in the large |
| LruBackend.StepIncluded | src/distributed_cluster/caching/backends.py:91-186 | each operation keeps the inclusion together with "free space in the larger is at least that in the smaller" |
| LruBackend.EvictIncluded | src/distributed_cluster/caching/backends.py:99-102 | eviction from both keeps the inclusion: the small cache drops at least as many oldest entries |
| LruBackend.NoBeladyAnomaly | src/distributed_cluster/caching/backends.py:104-118 | a larger cache never has fewer lookup hits on the same run |
| LruBackend.OrderIsRecency | src/distributed_cluster/caching/backends.py:104-186 | in every reachable state the dictionary lists its keys in the order in which they were last stored or last found by a lookup, a series of lookups counting name by name |
| LruBackend.StoredIsServed | src/distributed_cluster/caching/backends.py:104-129 | from end to end: a stored key answers a later lookup with its value until its ttl has passed and no longer, whatever happens over at most max_size - 2 other keys |
| LruBackend.LookupKeepsWorkingSet | src/distributed_cluster/caching/backends.py:104-129 | a lookup that finds its key makes it as safe as a store, wherever it stood before |
| LruBackend.LookupsAnswer | src/distributed_cluster/caching/backends.py:104-186 | lookups, presence tests and series of lookups answer the live entries and nothing else; expiries of None and 0.0 never pass |
| LruBackend.KeepsExactly | src/distributed_cluster/caching/backends.py:91-186 | which entries each operation leaves: a store the newest max_size - 1 others and its own, the others all but what they delete or find expired |
| LruBackend.EntriesAreCurrent | src/distributed_cluster/caching/backends.py:104-186 | in every reachable state an entry holds the value and expiry of the last set of its key, with no delete or clear since |
| LruBackend.WorkingSetExactly | src/distributed_cluster/caching/backends.py:99-129 | for every capacity >= 1: a stored entry survives every run over the other keys ks that neither deletes nor outlives it if and only if ks is empty or has at most max_size - 2 keys |
| LruBackend.WorkingSetKept | src/distributed_cluster/caching/backends.py:99-129 | the sufficient half, whatever the cache held when the entry was stored |
| LruBackend.OverwriteEvictsOther | src/distributed_cluster/caching/backends.py:120-129 | the necessary half, for every capacity: a run over any larger ks that evicts the entry, by filling the cache and storing once more |
| LruBackend.MemoryBackend.EvictIfNeeded | src/distributed_cluster/caching/backends.py:99-102 | the loop leaves the newest max_size - 1 entries; for a non-positive size it empties the cache and raises |
| LruBackend.MemoryBackend.Get | src/distributed_cluster/caching/backends.py:104-118 | an expired entry is dropped, a live one moves to the recent end and is returned |
| LruBackend.MemoryBackend.Set | src/distributed_cluster/caching/backends.py:120-129 | evicts first, then stores at the recent end with the given or default ttl; size limit and distinct keys kept |
| LruBackend.MemoryBackend.Delete | src/distributed_cluster/caching/backends.py:131-136 | removes exactly the key and reports whether it was there |
| LruBackend.MemoryBackend.Exists | src/distributed_cluster/caching/backends.py:138-148 | reports presence, dropping an expired entry, without touching the order |
| LruBackend.MemoryBackend.GetMany | src/distributed_cluster/caching/backends.py:172-186 | the loop's results and order; expired entries read as missing but stay |
| LruBackend.MemoryBackend.CleanupExpired | src/distributed_cluster/caching/backends.py:91-97 | collecting then deleting leaves exactly the unexpired entries, in order |
| LruBackend.MemoryBackend.Clear | src/distributed_cluster/caching/backends.py:163-167 | empties the cache and returns the former size |
| Common.SortStable | src/distributed_cluster/cache/distributed.py:85 | the sort keeps elements of equal key in their original order |
| Common.SortUnique | src/distributed_cluster/cache/distributed.py:85 | ascending order and stability determine the sorted list |
| HashRing.AddGainsPoints | src/distributed_cluster/cache/distributed.py:79-85 | adding a node adds exactly one point per index, hashed from its id, a colon and the decimal numeral of the index, to whatever was on the ring |
| HashRing.VirtualKeysDiffer | src/distributed_cluster/cache/distributed.py:80 | distinct virtual nodes of one node are hashed from distinct keys |
| HashRing.AddKeepsRing | src/distributed_cluster/cache/distributed.py:74-85 | adding a node keeps the ring sorted and naming only known nodes |
| HashRing.RemoveKeepsRing | src/distributed_cluster/cache/distributed.py:93-100 | removing a node keeps the ring sorted and naming only known nodes |
| HashRing.RemoveUndoesAdd | src/distributed_cluster/cache/distributed.py:74-100 | removing a fresh node after adding it restores the exact ring and node table, hash collisions included |
| HashRing.AddMovesOnlyItsKeys | src/distributed_cluster/cache/distributed.py:74-153 | with the new node deleted, every key's clockwise list of distinct healthy nodes is the old list |
| HashRing.RemoveMovesOnlyItsKeys | src/distributed_cluster/cache/distributed.py:93-153 | after a removal every key's list is the old list without the node |
| HashRing.ReplicaSetsDifferByOne | src/distributed_cluster/cache/distributed.py:129-153 | the first k of a list with and without a node are equal, or the node displaced exactly the last of the others |
| HashRing.AddChangesOneReplica | src/distributed_cluster/cache/distributed.py:74-153 | adding a fresh node changes each replica list by at most that node |
| HashRing.RemoveChangesOneReplica | src/distributed_cluster/cache/distributed.py:93-153 | removing a node changes each replica list by at most one later node moving up |
| HashRing.FailoverMovesOnlyItsKeys | src/distributed_cluster/cache/distributed.py:129-153 | a node failing a health check is only deleted from every key's list, a recovering one only inserted into it |
| HashRing.FailoverChangesOneReplica | src/distributed_cluster/cache/distributed.py:129-153 | a failing node changes each replica list by at most one later node moving up |
| HashRing.BisectSplits | src/distributed_cluster/cache/distributed.py:112 | the bisected index separates the hashes below the key's from those at or above it |
| HashRing.ReplicasExactly | src/distributed_cluster/cache/distributed.py:129-153 | the replica list in the ring's own terms: from the first point whose hash is not below the key's, each healthy node with a point once, in the order of their first points, wrapping at the end |
| HashRing.VisitExactly | src/distributed_cluster/cache/distributed.py:112-125 | the walks pass one turn of the ring from that point, over and over |
| HashRing.WalkEndsExactly | src/distributed_cluster/cache/distributed.py:137-151 | the walk ends if and only if the ring holds enough healthy nodes or every known node has a point on it |
| HashRing.ZeroWeightNodeSpins | src/distributed_cluster/cache/distributed.py:79-151 | a node of weight 0 makes a request for two replicas of a one-point ring loop for ever |
| HashRing.Collect | src/distributed_cluster/cache/distributed.py:137-151 | the wrapping loop passes a prefix of one turn of the ring and stops where its guard first fails |
| HashRing.ConsistentHashing.GetNodes | src/distributed_cluster/cache/distributed.py:129-153 | returns exactly the first count distinct healthy nodes clockwise from the key, fewer when there are fewer |
| HashRing.Skip | src/distributed_cluster/cache/distributed.py:120-125 | the skipping loop stops at the first healthy point or after as many attempts as there are nodes |
| HashRing.FirstHealthyIsHead | src/distributed_cluster/cache/distributed.py:104-153 | the first healthy point met clockwise belongs to the head of the replica list |
| HashRing.ConsistentHashing.GetNode | src/distributed_cluster/cache/distributed.py:104-127 | None exactly for an empty ring; the result is healthy exactly when one of the first len(nodes)+1 points is, and is then the head of the replica list, otherwise the owner of the last of those points |
| HashRing.LookupGivesUpEarly | src/distributed_cluster/cache/distributed.py:120-127 | a ring with a healthy node whose lookup stops on an unhealthy one |
| HashRing.AppendVirtual | src/distributed_cluster/cache/distributed.py:79-82 | the loop appends one point per virtual node in index order |
| HashRing.ConsistentHashing.AddNode | src/distributed_cluster/cache/distributed.py:74-85 | registers the node, gains its virtual_nodes * weight points (`AddGainsPoints`) and sorts stably |
| HashRing.ConsistentHashing.RemoveNode | src/distributed_cluster/cache/distributed.py:93-100 | drops the node and all its points, nothing for an unknown id |
| HashRing.ConsistentHashing.SetHealth | src/distributed_cluster/cache/distributed.py:333-356 | a health check changes only the flag of one registered node |
| RateLimiter.WindowBound | src/distributed_cluster/__init__.py:164-183 | for any requests, tokens granted from call i to j total at most max(burst, last request) + rate * elapsed time |
| RateLimiter.LimitHeldExactly | src/distributed_cluster/__init__.py:164-183 | every window obeys burst + rate * time if and only if no request exceeds the burst size |
| RateLimiter.TokensInRange | src/distributed_cluster/__init__.py:164-183 | between calls the tokens stay in [0, burst] |
| RateLimiter.SleepsExactly | src/distributed_cluster/__init__.py:164-177 | a call sleeps if and only if granting it on arrival would break the limit of some window |
| RateLimiter.TokenBucketRateLimiter.Acquire | src/distributed_cluster/__init__.py:164-177 | refill, grant or sleep for the missing tokens divided by the rate, refill again, grant; ZeroDivisionError when it has to wait at rate 0 |
| RateLimiter.TokenBucketRateLimiter.Refill | src/distributed_cluster/__init__.py:179-183 | adds rate times elapsed time, capped at the burst size |
| CircuitBreaker.AdmitsExactly | src/distributed_cluster/__init__.py:218-242 | after any interleaving, a call is admitted exactly when failures since the last success are below the threshold or the timeout has passed since the last failure |
| CircuitBreaker.AdmitsOrProbed | src/distributed_cluster/__init__.py:218-242 | with any clock, a call is admitted exactly when the log specification admits it or an earlier call has entered the half-open breaker since the last completion |
| CircuitBreaker.DepartsExactly | src/distributed_cluster/__init__.py:220-229 | the breaker and the specification disagree on a call if and only if such a probe is under way and the clock has gone back to before the timeout |
| CircuitBreaker.Invariants | src/distributed_cluster/__init__.py:218-242 | CLOSED exactly while the failure count is below the threshold; HALF_OPEN implies the timeout has passed |
| CircuitBreaker.StaysShut | src/distributed_cluster/__init__.py:218-242 | after a failure that reaches the threshold, no call enters within the timeout unless one succeeds |
| CircuitBreaker.ClockGoingBackBreaksIt | src/distributed_cluster/__init__.py:221-224 | a concrete log on which they disagree |
| CircuitBreaker.Circuit.Enter | src/distributed_cluster/__init__.py:220-229 | the first lock section, the remaining time a refusal carries, and agreement with the log specification, for a steady clock and for any clock |
| CircuitBreaker.Circuit.OnSuccess | src/distributed_cluster/__init__.py:232-235 | a success closes the breaker and clears the count |
| CircuitBreaker.Circuit.OnFailure | src/distributed_cluster/__init__.py:236-242 | a failure counts, is stamped, and opens the breaker at the threshold |
| ByteBackend.LimitsHeld | src/distributed_cluster/cache/backends.py:109-214 | in every reachable state the entry count is within max_size (or 1) and the bytes within the limit unless one oversized entry is alone |
| ByteBackend.OrderIsRecency | src/distributed_cluster/cache/backends.py:109-214 | dictionary order is the order in which the keys were last looked up or stored |
| ByteBackend.EvictIsShortest | src/distributed_cluster/cache/backends.py:142-145 | the evicted entries are the shortest least-recent prefix that makes room, or all |
| ByteBackend.EntriesAreCurrent | src/distributed_cluster/cache/backends.py:109-214 | in every reachable state an entry is the last one stored under its key, with that value, expiry and size |
| ByteBackend.UnevictedIsServed | src/distributed_cluster/cache/backends.py:109-126 | a key not evicted answers a lookup with its last value until its ttl has passed, and no longer |
| ByteBackend.StoreKeepsExactly | src/distributed_cluster/cache/backends.py:128-166 | a store leaves its own entry and, of the others, those that remain when the fewest oldest are dropped for both limits to hold |
| ByteBackend.KeepsExactly | src/distributed_cluster/cache/backends.py:109-214 | which entries every other operation leaves |
| ByteBackend.LookupsAnswer | src/distributed_cluster/cache/backends.py:109-185 | lookups and presence tests answer the live entries and nothing else |
| ByteBackend.BytesAdds | src/distributed_cluster/cache/backends.py:157-166 | the byte count is the sum of the sizes |
| ByteBackend.GetIsLossyLookup | src/distributed_cluster/cache/backends.py:109-126 | as a map, a lookup only loses the key if expired and answers from the rest |
| ByteBackend.SetIsLossyStore | src/distributed_cluster/cache/backends.py:128-166 | as a map, a store loses exactly the evicted keys and then holds the new value |
| ByteBackend.StepIsLossy | src/distributed_cluster/cache/backends.py:109-214 | as a map, every operation only loses keys, but for the value a store puts in |
| ByteBackend.MemoryBackend.Get | src/distributed_cluster/cache/backends.py:109-126 | expiry, move to the recent end, value; byte count stays the sum of the sizes |
| ByteBackend.MemoryBackend.Set | src/distributed_cluster/cache/backends.py:128-166 | the eviction loop, the replaced entry and the byte count; all invariants kept |
| ByteBackend.MemoryBackend.RemoveEntry | src/distributed_cluster/cache/backends.py:193-197 | drops one entry and gives back its bytes |
| ByteBackend.MemoryBackend.EvictOldest | src/distributed_cluster/cache/backends.py:199-203 | drops exactly the first entry in dictionary order, nothing from an empty cache |
| ByteBackend.MemoryBackend.Delete | src/distributed_cluster/cache/backends.py:168-174 | removes exactly the key and reports whether it was there |
| ByteBackend.MemoryBackend.Exists | src/distributed_cluster/cache/backends.py:176-185 | reports presence, dropping an expired entry, without touching the order |
| ByteBackend.MemoryBackend.Clear | src/distributed_cluster/cache/backends.py:187-191 | empties cache and byte count |
| ByteBackend.MemoryBackend.CleanupExpired | src/distributed_cluster/cache/backends.py:205-214 | leaves exactly the unexpired entries and returns the number removed |
| Tiered.RunCoherentExactly | src/distributed_cluster/cache/backends.py:460-500 | in either mode and with any losses and swallowed failures, the tiers stay coherent along a run if and only if no store, deletion or clear leaves out a tier holding something that it makes out of date |
| Tiered.StepCoherentExactly | src/distributed_cluster/cache/backends.py:471-500 | one operation keeps coherence if and only if every tier it does not reach holds no other value for the stored key, not the deleted key, or nothing for a clear |
| Tiered.AlwaysCoherent | src/distributed_cluster/cache/backends.py:460-500 | under write-through, along any run whose stores, deletions and clears succeed, with any losses and failing lookups or promotions, whatever a tier holds is the last value set for its key and not deleted since |
| Tiered.MissedStoreServesOld | src/distributed_cluster/cache/backends.py:471-484 | a store swallowed by the second tier: once the first has lost the new value, a lookup answers the old one |
| Tiered.LastSetIsServed | src/distributed_cluster/cache/backends.py:460-484 | from end to end: under write-through a lookup answers the last value set as long as one tier that answers has not lost the key since, whatever else is looked up, promoted, stored, deleted and lost in between |
| Tiered.StoreReachesExactly | src/distributed_cluster/cache/backends.py:471-484 | a store puts its value into every tier under write-through, the first otherwise, less those that fail, and changes nothing else |
| Tiered.DeletionReachesExactly | src/distributed_cluster/cache/backends.py:486-500 | a deletion removes its key and a clear everything from every tier that does not fail, and nothing else |
| Tiered.LookupExactly | src/distributed_cluster/cache/backends.py:460-469 | a lookup answers what the first tier that answers holds, puts it into the tiers above that take it and changes nothing else |
| Tiered.LookupAgrees | src/distributed_cluster/cache/backends.py:460-469 | a lookup returns the plain map's value if some tier that answers holds one, None otherwise |
| Tiered.HitIsPromoted | src/distributed_cluster/cache/backends.py:460-469 | after a hit all higher tiers whose store succeeds hold the value; the same lookup again is served by the first tier and changes nothing |
| Tiered.WriteBackNeverWritesBack | src/distributed_cluster/cache/backends.py:471-484 | without write-through, tiers below the first stay empty when they start empty, and the tiers stay coherent if no change fails |
| Tiered.MemoryRunIsTierRun | src/distributed_cluster/cache/backends.py:109-214 | the memory backend, limits, recency, expiry and evictions included, is a tier of this model: along any run its contents are those of a lossy map over the same sets, deletions and clears |
| Tiered.MemoryIsCoherent | src/distributed_cluster/cache/backends.py:109-214 | so whatever the memory backend holds is what was last stored for its key |
| Tiered.MemoryLookupIsTierLookup | src/distributed_cluster/cache/backends.py:109-126 | and a lookup in it answers what the lookup in the tier does |
| Tiered.TieredBackend.Get | src/distributed_cluster/cache/backends.py:460-469 | the nested loops: first tier that answers with a value, promotion to the higher ones that take it |
| Tiered.TieredBackend.Set | src/distributed_cluster/cache/backends.py:471-484 | every tier, or the first only, holds the new value unless it fails; reports whether all succeeded; IndexError without tiers |
| Tiered.TieredBackend.Delete | src/distributed_cluster/cache/backends.py:486-489 | the key leaves every tier that does not fail; reports whether any of those had it |
| Tiered.TieredBackend.Clear | src/distributed_cluster/cache/backends.py:498-500 | every tier that does not fail is emptied |
| Retention.ShouldDeleteMonotone | src/distributed_cluster/backup/scheduler.py:79-122 | what is due stays due with greater age, count and size |
| Retention.ShouldDeleteExactly | src/distributed_cluster/backup/scheduler.py:79-122 | which limit makes a snapshot due, above the minimum |
| Retention.UnitsExactly | src/distributed_cluster/backup/manager.py:653-659 | ages count full days of 86400 seconds, sizes units of 2 to the 30th bytes |
| Retention.GroupExactly | src/distributed_cluster/backup/manager.py:642-654 | a group is the snapshots of one type, oldest first, those of one time in the listed order |
| Retention.OldestGoFirst | src/distributed_cluster/backup/manager.py:634-675 | within each type the deletion attempts are a prefix of the oldest-first order, whatever the storage refuses |
| Retention.MinimumKept | src/distributed_cluster/backup/manager.py:634-675 | every type keeps at least min(min_backups, its initial count) |
| Retention.CountsCut | src/distributed_cluster/backup/manager.py:634-675 | if all deletes succeed, a FULL or INCREMENTAL group ends with at most max(min_backups, keep count) plus the deletions of earlier types |
| Retention.KeepsAtMostExactly | src/distributed_cluster/backup/manager.py:634-675 | if all deletes succeed, a type of any kind ends with at most n snapshots if and only if it had no more, or the youngest one too many is due at count n + 1 less the deletions of earlier types and at the size then left |
| Retention.CountLimitMetExactly | src/distributed_cluster/backup/manager.py:634-675 | a FULL or INCREMENTAL type on which only count limits bear meets max(min_backups, keep count) if and only if it did before, or the oldest snapshot of no earlier type is due |
| Retention.NothingEarlierExactly | src/distributed_cluster/backup/manager.py:656-670 | earlier types lose nothing if and only if the oldest snapshot of each is spared as things stand before the cleanup |
| Retention.PolicyMetOrMinimum | src/distributed_cluster/backup/manager.py:634-675 | if all deletes succeed, a type is down to its minimum or all it keeps meets age, size and count limits, counts less the earlier deletions |
| Retention.OnlyOldGo | src/distributed_cluster/backup/scheduler.py:103-122 | within its count limits and with no size limit, a group loses only snapshots created more than the maximum age in microseconds ago |
| Retention.TotalTracksSurvivors | src/distributed_cluster/backup/manager.py:650-675 | the tracked total is the survivors' size and the result is the number removed |
| Retention.SharedCounterSparesTooMany | src/distributed_cluster/backup/manager.py:660-670 | a concrete whole cleanup that leaves one incremental too many |
| Retention.AttemptsArePrefix | src/distributed_cluster/backup/manager.py:656-670 | the same prefix property for one group entered with any counter and total |
| Retention.GroupStopsAtMinimum | src/distributed_cluster/backup/manager.py:660-670 | deletion in a group stops while the counter still leaves the minimum |
| Retention.BackupManager.CleanGroup | src/distributed_cluster/backup/manager.py:656-671 | the loop over one type updates counter, total and storage as the pass says |
| Retention.BackupManager.CleanupOldBackups | src/distributed_cluster/backup/manager.py:630-675 | lists the newest 10000, returns the number of deletions and leaves exactly the snapshots not removed |
| Retention.UnlistedStay | src/distributed_cluster/backup/storage.py:235-259 | a snapshot beyond the listing is no newer than any listed one and is never deleted |
| Autoscaler.FleetInRange | src/distributed_cluster/autoscaling/scaler.py:358-564 | any mix of automatic cycles and manual calls under any policy keeps the fleet in [min_workers, max_workers]; with a cluster state whose healthy count misses or adds workers, within that range widened by as many |
| Autoscaler.StepStaysInRange | src/distributed_cluster/autoscaling/scaler.py:403-564 | each step stays within the per-cycle limits and the (widened) range, even from a stale worker count |
| Autoscaler.CycleActsExactly | src/distributed_cluster/autoscaling/scaler.py:358-564 | an automatic cycle does nothing while either cooldown runs and otherwise what decision, per-cycle limit and range allow, as far as the provider delivers; only a call that returns leaves a stamp |
| Autoscaler.ManualActsExactly | src/distributed_cluster/autoscaling/scaler.py:649-693 | a manual call goes for its clamped target within the per-cycle limit and what the stale count leaves, whatever the cooldowns |
| Autoscaler.CycleMovesAsFarAsAllowed | src/distributed_cluster/autoscaling/scaler.py:414-417 | with a provider that delivers, a cycle moves the count it read until decision, per-cycle limit or range stops it |
| Autoscaler.ManualReachesExactly | src/distributed_cluster/autoscaling/scaler.py:649-693 | a manual call takes the count it read to the clamped target if and only if the distance fits the per-cycle limit and the stale count leaves room |
| Autoscaler.CooldownsKept | src/distributed_cluster/autoscaling/scaler.py:617-637 | every automatic scaling starts at least cooldown_up after each earlier successful scale-up and cooldown_down after each earlier successful scale-down |
| Autoscaler.TraceAccounts | src/distributed_cluster/autoscaling/scaler.py:403-564 | the scalings of a run account for the whole change of its fleet, and each for the stamp it leaves (`ScalingsRecorded`) |
| Autoscaler.GrowthRate | src/distributed_cluster/autoscaling/scaler.py:403-478 | consecutive successful automatic scale-ups spanning T add at most (1 + T / cooldown_up) * max_scale_up_per_cycle workers |
| Autoscaler.RateCapExactly | src/distributed_cluster/autoscaling/scaler.py:617-637 | that bound in full: the limit once, and again for every cooldown in the span |
| Autoscaler.BudgetKept | src/distributed_cluster/autoscaling/scaler.py:358-417 | automatic cycles under the cost-aware policy over any base policy keep workers * cost within the hourly budget; with a cluster state whose healthy count misses workers, all but as many workers |
| Autoscaler.MissedWorkersOverspend | src/distributed_cluster/autoscaling/scaler.py:371-417 | for any number of missed workers, a cycle that takes a fleet within the budget over it by all of them |
| Autoscaler.AutoScalingManager.ScaleUp | src/distributed_cluster/autoscaling/scaler.py:403-478 | clamps, asks the provider, stamps a success |
| Autoscaler.AutoScalingManager.ScaleDown | src/distributed_cluster/autoscaling/scaler.py:480-564 | clamps, asks the provider, stamps a success |
| Autoscaler.AutoScalingManager.EvaluateAndScale | src/distributed_cluster/autoscaling/scaler.py:358-401 | refreshes the count from what is read, respects the cooldowns, follows the decision |
| Autoscaler.AutoScalingManager.ScaleTo | src/distributed_cluster/autoscaling/scaler.py:649-693 | moves from the count read towards the clamped target without refreshing the count or checking cooldowns |
| ScalingPolicies.NoFlapping | src/distributed_cluster/autoscaling/policies.py:228-291 | a depth-triggered scale-up and a scale-down are at least evaluation_periods recorded evaluations apart, in either order; with 0 periods a run never has both |
| ScalingPolicies.DecidesExactly | src/distributed_cluster/autoscaling/policies.py:212-291 | for at least one period, when the policy scales up or down and by how much, in terms of the wait, the last depths and the workers the queue needs |
| ScalingPolicies.RequiredIsLeast | src/distributed_cluster/autoscaling/policies.py:235 | the workers a queue needs are the least that take it at jobs_per_worker each |
| ScalingPolicies.WindowIsLastDepths | src/distributed_cluster/autoscaling/policies.py:228-231 | the history is always the last evaluation_periods observed depths, all of them for 0 periods |
| ScalingPolicies.NegativePeriodsFlap | src/distributed_cluster/autoscaling/policies.py:228-291 | with any negative number of periods no run depends on the depth thresholds: below the maximum every evaluation without a wait trigger scales up, at the maximum down if fewer workers suffice |
| ScalingPolicies.DecisionsStayInLimits | src/distributed_cluster/autoscaling/policies.py:140-142 | a queue decision never aims outside the policy's worker limits |
| ScalingPolicies.QueueBasedPolicy.Evaluate | src/distributed_cluster/autoscaling/policies.py:212-291 | records the depth in the window and decides by wait time, then depth |
| ScalingPolicies.CostAwareExactly | src/distributed_cluster/autoscaling/policies.py:733-793 | the cost-aware policy passes on what is affordable, cuts a scale-up down to the most that is, and lets one worker go when jobs cost more than twice the target |
| ScalingPolicies.BudgetExactly | src/distributed_cluster/autoscaling/policies.py:751-757 | a fleet is within budget if its workers together cost no more than the hourly budget |
| ScalingPolicies.UpStaysWithinBudget | src/distributed_cluster/autoscaling/policies.py:751-780 | growing by no more than the cost-aware answer ends within a non-negative budget from any count |
| ScalingPolicies.QuotientAffordable | src/distributed_cluster/autoscaling/policies.py:757 | the truncated quotient of budget and cost is affordable |
| ScalingPolicies.QuotientIsMost | src/distributed_cluster/autoscaling/policies.py:757 | no more workers than the truncated quotient are affordable |
| WriteBehind.LastWriterExactly | src/distributed_cluster/cache/cache_manager.py:348-498 | for every interleaving of sets with collecting, flushing, failing and swallowed flushes, Redis overlaid with batch and queue holds for every key what was last set for it at the local or at all levels, with its ttl or the default, if and only if no batch is cleared with a write that has neither landed nor been overtaken |
| WriteBehind.SwallowedWriteIsLost | src/distributed_cluster/cache/cache_manager.py:467-501 | one set whose flush Redis swallows: batch and queue end empty and Redis without the key |
| WriteBehind.StepKeepsExactly | src/distributed_cluster/cache/cache_manager.py:467-501 | a set adds its writes to the overlay and every other step keeps it, except clearing a batch that a swallowed error (cache/backends.py:380-397) kept from Redis |
| WriteBehind.PendingIsLastWriter | src/distributed_cluster/cache/cache_manager.py:348-366 | so it does after every run without a swallowed error |
| WriteBehind.DrainedIsLastWriter | src/distributed_cluster/cache/cache_manager.py:467-501 | when batch and queue are empty Redis itself holds what was last set for every key |
| WriteBehind.WorkerDrains | src/distributed_cluster/cache/cache_manager.py:467-490 | with callers quiet, as many worker turns as queued writes empty queue and batch |
| WriteBehind.QuietRedisHoldsLastSets | src/distributed_cluster/cache/cache_manager.py:348-498 | from end to end: after a run that loses nothing, as many quiet turns as writes are queued leave in Redis what was last set for every key |
| WriteBehind.TurnFlushesExactly | src/distributed_cluster/cache/cache_manager.py:471-486 | a turn flushes if the write it takes fills the batch or was the last one queued |
| WriteBehind.SetQueuesExactly | src/distributed_cluster/cache/cache_manager.py:348-366 | which writes a set queues at each level, the one for Redis first |
| WriteBehind.CacheManager.Set | src/distributed_cluster/cache/cache_manager.py:348-366 | queues one write per addressed remote level (`SetQueuesExactly`) |
| WriteBehind.CacheManager.WorkerTurn | src/distributed_cluster/cache/cache_manager.py:467-490 | takes one write and flushes the batch when it is full or the queue is empty |
| WriteBehind.CacheManager.ProcessBatch | src/distributed_cluster/cache/cache_manager.py:492-498 | writes the Redis part of the batch in order |
| CostTracker.TotalsAgree | src/distributed_cluster/billing/tracker.py:471-571 | in every state reached with unique ids, index-based selections and totals of jobs, users, teams and projects equal a scan of the live entries, for any dates |
| CostTracker.IndexAgreesWithScan | src/distributed_cluster/billing/tracker.py:516-537 | each live entry is found once and in order, dangling ids notwithstanding |
| CostTracker.ScanExactly | src/distributed_cluster/billing/tracker.py:516-537 | the scan selects, in the order of the ledger, the entries of the name that start and end within the dates |
| CostTracker.AlwaysFaithful | src/distributed_cluster/billing/tracker.py:268-319 | the indexes list exactly the ids of all entries ever stored under each name |
| CostTracker.UserTotalsCoverAll | src/distributed_cluster/billing/tracker.py:471-484 | the totals of all indexed users add up to all live cost |
| CostTracker.BreakdownsAddUp | src/distributed_cluster/billing/tracker.py:543-556 | the category and the resource breakdown of any selection each add up to its total |
| CostTracker.GroupTotals | src/distributed_cluster/billing/tracker.py:543-556 | the accumulating loop maps exactly the occurring groups to their sums |
| CostTracker.CalculateJobCost | src/distributed_cluster/billing/tracker.py:331-405 | the accumulated total is the sum of the listed resource costs |
| CostTracker.JobTotalExactly | src/distributed_cluster/billing/tracker.py:321-405 | what a job costs: cores, memory and GPUs by the hour, egress by the GB and tokens one by one, each at its own price, one core and one GB when not given |
| CostTracker.PartsExactly | src/distributed_cluster/billing/tracker.py:321-405 | the parts it lists, in order, each with resource, quantity, price and cost |
| CostTracker.MergedExactly | src/distributed_cluster/billing/tracker.py:287 | a setting given when the job ends counts before the one given when it started |
| CostTracker.JobEntryExactly | src/distributed_cluster/billing/tracker.py:407-423 | what the entry of a finished job says, its hours being 3600 seconds each |
| CostTracker.NothingEverRemoved | src/distributed_cluster/billing/tracker.py:92-710 | with naive stamps, the default of created_at, the live entries are all those ever stored |
| CostTracker.CleanupNeverWorks | src/distributed_cluster/billing/tracker.py:700-710 | after every run with naive stamps that has stored anything, a cleanup raises and changes nothing |
| CostTracker.CleanedExactly | src/distributed_cluster/billing/tracker.py:700-715 | with time-zoned stamps a cleanup would keep exactly the entries not created before the cutoff, in order |
| CostTracker.CostTracker.StartJob | src/distributed_cluster/billing/tracker.py:234-264 | tracks the job from zero usage, replacing an earlier start |
| CostTracker.CostTracker.RecordAiUsage | src/distributed_cluster/billing/tracker.py:425-448 | adds tokens, one request and the names given to a tracked job only |
| CostTracker.CostTracker.StopJob | src/distributed_cluster/billing/tracker.py:268-319 | stores and indexes the job's cost entry with a naive creation stamp, or does nothing for an unknown job |
| CostTracker.CostTracker.GetEntityCosts | src/distributed_cluster/billing/tracker.py:516-571 | total, hours, number of jobs and both breakdowns are those of the scanned entries, and the values of each breakdown add up to the total |
| CostTracker.CostTracker.CleanupOldEntries | src/distributed_cluster/billing/tracker.py:700-715 | raises for every ledger the tracker can reach that is not empty, and changes nothing |
| Pricing.TieredCostIsClosedForm | src/distributed_cluster/billing/pricing.py:64-84 | for tiers contiguous from 0 the loop is the sum of price times overlap of [0, q] with each tier |
| Pricing.OverlapCostExactly | src/distributed_cluster/billing/pricing.py:72-82 | a tier's share is the part of [0, q] between its ends at its own price, with the source's defaults for what is missing |
| Pricing.TierOrderExactly | src/distributed_cluster/billing/pricing.py:64-71 | tiers are taken by rising lower ends; without tiers the base price holds |
| Pricing.ChargesOverlapsExactly | src/distributed_cluster/billing/pricing.py:72-82 | for tiers from 0 up, of no negative width and only the last unbounded, the loop charges each tier its own overlap for every quantity if and only if every tier of positive width starts at the total width of those before it |
| Pricing.ChargeOfQuantities | src/distributed_cluster/billing/pricing.py:72-82 | the loop total is the sum of price times the quantity charged to each tier |
| Pricing.GapsAreIgnored | src/distributed_cluster/billing/pricing.py:72-82 | a concrete misaligned tier: one from 100 to 200 charges the first units |
| Pricing.TieredCostSubadditive | src/distributed_cluster/billing/pricing.py:64-84 | with prices that never rise, cost(a+b) <= cost(a) + cost(b) |
| Pricing.RuleOrderIrrelevant | src/distributed_cluster/billing/pricing.py:341-359 | the final cost is the same for every order of the rules |
| Pricing.PassIsProduct | src/distributed_cluster/billing/pricing.py:164-176 | a pass over rules multiplies the cost by the product of the applying rules' factors |
| Pricing.ApplyExactly | src/distributed_cluster/billing/pricing.py:164-176 | a discount of p percent leaves cost * (100 - p) / 100 and a markup of m percent makes that times (100 + m) / 100 |
| Pricing.AppliesExactly | src/distributed_cluster/billing/pricing.py:148-162 | when a rule does not apply |
| Pricing.PassExactly | src/distributed_cluster/billing/pricing.py:348-354 | the pass takes the rules one after the other and skips those that do not apply |
| Pricing.PriorityExactly | src/distributed_cluster/billing/pricing.py:341-346 | the order of the pass: falling priority, rules of one priority as they were added |
| Pricing.CalculateTieredCost | src/distributed_cluster/billing/pricing.py:64-84 | the loop over the sorted tiers computes the tiered cost |
| Pricing.FinalCost | src/distributed_cluster/billing/pricing.py:341-359 | the loop applies the applying rules by falling priority and lists their names |
| EvictionStrategies.BatchIsRepeated | src/distributed_cluster/cache/strategies.py:105-126 | select_victims(n) is n rounds of select_victim and on_delete, ties included |
| EvictionStrategies.VictimIsLeastRecent | src/distributed_cluster/cache/strategies.py:89-114 | over any run of accesses, insertions and deletions the LRU victim is a tracked key whose last use is the earliest of all |
| EvictionStrategies.VictimIsLeastFrequent | src/distributed_cluster/cache/strategies.py:143-170 | over any run, decays included, the LFU victim is a tracked key with the least frequency |
| EvictionStrategies.CountsExactly | src/distributed_cluster/cache/strategies.py:143-163 | a frequency is one more for every access since the insertion, scaled by the decays after each |
| EvictionStrategies.MinItemExactly | src/distributed_cluster/cache/strategies.py:109-114 | the victim has the least score, and of several the first in dictionary order |
| EvictionStrategies.SegmentBatchExactly | src/distributed_cluster/cache/strategies.py:450-480 | for segmented LRU the batch of n equals n rounds of select_victim and on_delete if and only if none of the protected victims it takes is on probation as well |
| EvictionStrategies.SegmentBatchesAgreeExactly | src/distributed_cluster/cache/strategies.py:450-480 | batches of every size agree with repeated eviction if and only if the segments are disjoint |
| EvictionStrategies.SegmentBatchIsRepeated | src/distributed_cluster/cache/strategies.py:450-480 | the sufficient half: disjoint segments make every batch agree |
| EvictionStrategies.StepFinds | src/distributed_cluster/cache/strategies.py:428-448 | what each segment of segmented LRU holds for a key after an operation |
| EvictionStrategies.TracksExactly | src/distributed_cluster/cache/strategies.py:428-448 | in every run the two segments together track exactly the inserted, undeleted keys |
| EvictionStrategies.RunDisjointExactly | src/distributed_cluster/cache/strategies.py:428-448 | the segments stay disjoint if and only if no key is inserted while it is protected |
| EvictionStrategies.ReinsertedKeyListedTwice | src/distributed_cluster/cache/strategies.py:441-480 | a concrete run whose batch and repeated eviction differ |
| EvictionStrategies.DecayKeepsVictims | src/distributed_cluster/cache/strategies.py:157-163 | a positive decay factor changes no victim |
| EvictionStrategies.LruStrategy.OnUse | src/distributed_cluster/cache/strategies.py:95-103 | stamps the key in place, new keys at the end |
| EvictionStrategies.LruStrategy.OnDelete | src/distributed_cluster/cache/strategies.py:105-107 | forgets exactly the key |
| EvictionStrategies.LruStrategy.SelectVictims | src/distributed_cluster/cache/strategies.py:116-126 | the batch in any reachable state is what repeated eviction gives |
| EvictionStrategies.LfuStrategy.MaybeDecay | src/distributed_cluster/cache/strategies.py:157-163 | scales all frequencies once the interval has passed |
| EvictionStrategies.LfuStrategy.OnAccess | src/distributed_cluster/cache/strategies.py:143-147 | decays if due, then counts one access |
| EvictionStrategies.LfuStrategy.OnInsert | src/distributed_cluster/cache/strategies.py:149-151 | starts the key at frequency 1 |
| EvictionStrategies.LfuStrategy.OnDelete | src/distributed_cluster/cache/strategies.py:153-155 | forgets exactly the key |
| EvictionStrategies.LfuStrategy.SelectVictims | src/distributed_cluster/cache/strategies.py:172-182 | the batch in any reachable state is what repeated eviction gives |
| EvictionStrategies.SlruStrategy.OnAccess | src/distributed_cluster/cache/strategies.py:428-439 | promotes from probation, restamps when protected, ignores unknown keys |
| EvictionStrategies.SlruStrategy.OnInsert | src/distributed_cluster/cache/strategies.py:441-443 | puts the key on probation |
| EvictionStrategies.SlruStrategy.OnDelete | src/distributed_cluster/cache/strategies.py:445-448 | forgets the key in both segments |
| EvictionStrategies.SlruStrategy.SelectVictims | src/distributed_cluster/cache/strategies.py:462-480 | probationary victims first, then protected ones; repeated eviction exactly when it takes no key twice |

## Left out

- Rounding of floating-point arithmetic: times, money, tokens, scores and sizes are reals.
- Logging, callbacks, latency and hit statistics, access counts and event logs.
- Key patterns (`keys`), `close` and the cleanup thread's timing in the size-bounded backend.
- RateLimiter.WindowBound: assumes that a sleep lasts at least the time asked and that the clock is monotonic.
- CircuitBreaker.Circuit.Enter: a cancelled call is no event of the log, because the source leaves the breaker untouched then.
- HashRing.ConsistentHashing.GetNodes: requires the exact condition under which the source's loop ends (`WalkEndsExactly`).
- The bisection and the sort of the ring are library calls and enter as functions that are characterised by `BisectSplits`, `SortStable` and `SortUnique`; MD5 is any function.
- Concurrent operations on the tiered cache; expiry times after a promotion; real Redis, Memcached and distributed tiers, which are lossy maps here; a remote change that is reported as failed although it took effect.
- `exists` of the tiered cache, an easy disjunction over the tiers.
- The restore path of the backup manager and the other clusters' snapshots in a shared storage; snapshot ids are taken as given.
- Autoscaler.BudgetKept: for a positive worker cost, where the source does not divide by zero, and a budget that is not negative.
- Autoscaler.AutoScalingManager.ScaleDown: does not model the draining of workers, which waits before the provider call and changes neither fleet nor stamps.
- The start, stop and pause life cycle of the manager.
- The resource-based, composite, predictive and scheduled policies.
- ScalingPolicies.UpStaysWithinBudget: for a positive worker cost and a budget that is not negative, as Autoscaler.BudgetKept.
- WriteBehind.LastWriterExactly: covers sets only, on Redis, while the worker is up; expiry in Redis, `delete`, `clear` and `stop` are not modelled.
- WriteBehind.CacheManager.Set: does not model the write to the L1 dictionary, which the queue does not depend on, nor the mode without the queue.
- WriteBehind.CacheManager.WorkerTurn: one turn while callers are quiet and Redis answers; the steps of LastWriterExactly cover the other turns.
- WriteBehind.CacheManager.ProcessBatch: does not model the distributed backend, whose `mset` runs its sets concurrently and so has no last writer.
- CostTracker.TotalsAgree: entry ids are unique, as random UUIDs are taken to be; usage metrics, trends and price updates are not modelled.
- Time-of-day and spot pricing, and the price and rule registries of the pricing engine.
- TTL and adaptive eviction strategies; negative victim counts.
- Quorum replication, the second cache store, invalidation, provider failover, analytics and forecasting.
