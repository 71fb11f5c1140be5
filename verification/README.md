# Temporal server core, modelled and proved in Dafny

This project models the parts of the Temporal server whose correctness is a statement about whole
runs or about unbounded arithmetic, and proves those statements with Dafny 4.11.
`dafny verify dfyconfig.toml` checks all of it.

| file | what it models |
|---|---|
| `HistoryIterator.dfy` | the archival iterator that cuts a workflow history into blobs while reading it through a paged store |
| `LruSpec.dfy`, `LruExpiry.dfy`, `LruProperties.dfy`, `LruPinning.dfy`, `LruCache.dfy` | the LRU cache with time-to-live and pinning, its iterator, and what clients may rely on |
| `FailoverVersion.dfy`, `ClusterMetadata.dfy` | failover-version arithmetic, the cluster metadata cache and its refresh |
| `PagingIterator.dfy` | the generic paging iterator, which feeds the cluster listing |
| `ConcurrentTxMap.dfy`, `ConcurrentTxMapProof.dfy`, `ConcurrentTxMapCommit.dfy`, `ConcurrentTxMapOrder.dfy`, `ConcurrentTxMapMeaning.dfy` | the sharded concurrent map as a protocol of lock, check, count, store and unlock steps, its linearizability, and what that means for callers |
| `ClientCache.dfy` | the double-checked client cache as a protocol of any number of threads |
| `MovingWindowAverage.dfy` | the moving-window average over a ring buffer |
| `ShardMapping.dfy` | the mapping of shard IDs between clusters with different shard counts |
| `RetryPolicy.dfy`, `RetryBackoff.dfy`, `Retry.dfy` | retry policies, how their delays grow, the retrier and the retry loop |
| `GoInt.dfy`, `Wrappers.dfy` | wrap-around and truncating division of Go integers, and an optional value |

## The main results

- **Archival.** For every history, paging, transient failure and rebuild from a saved state, what a run
  has delivered followed by what its state still promises is constant (`RunConservesBlobs`). So a
  finished run delivers exactly the greedy split (`FinishedRunIsGreedy`), the only split with its
  bounds (`GreedySplitIsUnique`), and without failures it does finish (`RunFinishes`); resuming from
  checkpoints changes nothing (`ResumeFromCheckpoint`, `ArchiveWithCheckpoints`) and no `Next` indexes
  an empty list (`RunNeverPanics`).
- **LRU cache.** The map and the list agree after every method, and every method follows functions on
  the access list. On those functions: the list is ordered by last touch in every run, the victim is
  the least recently touched unreferenced entry, a full-cache error is characterised exactly, a larger
  cache never misses where a smaller one hits and holds the same values exactly under a stated
  condition on the trace, and in pin mode a held entry is never evicted, expired or changed. A value put
  at a time is found until that time plus the time to live and not after (`PutLives`).
- **Cluster metadata.** From versions that are not negative the next failover version is the least
  owned version as long as that fits in 64 bits, and then it maps back to its cluster. For all 64-bit
  versions it is stated exactly when a version maps back to its cluster and when two clusters collide.
  Over every run of store changes and refreshes, each refresh makes the cache mirror the store, and it is
  stated field by field what a refresh makes of the stored rows (`RefreshFollowsRows`).
- **Sharded map.** Under every interleaving, `Len` is the number of items plus the corrections in
  flight, and the answers of operations on keys are those of one map fed in lock order. The map is
  linearizable, `Len` included, in the order in which requests take effect: that order gives each call
  one place, respects the order of calls that do not overlap, and explains every answer on one map. Said
  without a map: every operation answers by the last write of its key (`AnswersFollowLastWrite`).
- **Client cache.** Under every interleaving the provider succeeds at most once for a key, no client is
  replaced, all successful answers for a key agree, and errors are exactly the provider's failures.
- **Moving average, shard mapping, retries, paging.** Each implementation is proved against an
  independent reference: a mean over the recorded history, congruence of hashes, a geometric growth of
  delays up to the maximum with bounds on calls, and the concatenation of all pages.

## Where the code differs from what one may expect

- `GetNextFailoverVersion` truncates toward zero, so from a negative version it can skip an owned
  version. `TruncationOvershoots` shows an input; `NextVersionFromNegative` says exactly when it does.
  Close to the 64-bit maximum the result wraps to a negative number (`LastVersionWraps`);
  `NextVersionIsLeastOwned` says exactly when.
- Because of both, two clusters can mint the same version: one wraps around, the other starts from a
  negative version (`WrapCanCollide`). `ClustersCollideExactly` gives the exact condition; an increment
  that divides 2^64 never meets it (`DividingIncrementNeverCollides`).
- A minted version that is negative has no known cluster; `NextVersionNamesItsCluster` says exactly
  when that happens. The same-cluster test can miss when the difference of two versions wraps
  (`WrappedDifferenceMisleads`, `SameClusterIsSameResidue`).
- A refresh replaces an entry only when the listed version is larger and one of three fields differs.
  It therefore mirrors the store exactly under the condition of `RefreshMirrorsExactly`;
  `RestartedVersionStaysStale` shows an input outside it, and `SkippedRowLags` what may lag.
- In pin mode a `Get` that hits a live nil value counts a reference although its caller sees a miss, and
  a cache of size zero hands out values it does not keep. `CountsMatchExactly` says that over every
  disciplined run counts equal holders exactly when neither happens; `NilValueLeaksReference` and
  `ZeroSizeKeepsNothing` show runs, `NonNilNeverLeaks` a rule a client can follow. In a
  cache that can hold something a held entry is never evicted, expired or changed, leaks or not.
- Over a live nil value `PutIfNotExist` hands out the new value and keeps the nil (`HandedOutIsStored`).
- The order in which operations take their locks is not a linearization once `Len` is called:
  `LockOrderMissesLen` shows a run. The order in which they take effect is.
- With `PutIfNotExist` two caches of different sizes can hold different values under one key
  (`PutIfNotExistCanDisagree`); `ValuesAgreeExactly` says of every trace whether they do.
- The comments on the exponential policy raise the coefficient to the current attempt; the code raises
  it to one less. The model follows the code.
- An exponential policy with a negative initial interval, a negative coefficient and a maximum interval
  of -2 computes the done marker as a delay (`NegativeConfigurationHitsDone`); `DoneExactly` covers all
  configurations. With a negative maximum interval any delay that is given exceeds that maximum
  (`DelayBounds`).
- With a coefficient of one a retry policy never reaches a maximum interval above its initial one;
  `SettlesExactly` says exactly when it does.
- A history with no events at all is never reported as finished (`EmptyHistoryNeverFinishes`).

## How the model reads the code

- Go nil is `None`; a panic is a value of the result type. 64- and 32-bit wrap-around is explicit
  wherever the source adds versions, sums or sizes.
- Clock readings, random draws, context errors and operation outcomes are parameters. The history
  store is a history together with a plan that says, read by read, how much of it to serve or that the
  read breaks; the theorems hold for every plan. The size estimator is an arbitrary function that may fail.
- The elements of the LRU list are handles into one store record, so that an element keeps its identity
  when it moves; the cache's mutex serialises calls, so each method runs alone.
- Go maps are visited in an arbitrary order.
- Floating point is modelled by real numbers and `math.Pow` by an integer power.
- The two concurrent components are state machines: a state, the steps a thread can take, and runs of
  any number of threads in any order.

## Model

| member | source | states |
|---|---|---|
| `HistoryIterator.LastIdOfBatch` | common/archiver/historyIterator.go:194-194 | one past the last event of a batch is the first event of the next batch, so the cursor stays on a boundary |
| `HistoryIterator.SeekBoundary` | common/archiver/historyIterator.go:221-231 | a read from a batch boundary starts at exactly that batch |
| `HistoryIterator.CutIsMinimal` | common/archiver/historyIterator.go:178-204 | no proper prefix of a greedy blob reaches the target, and every blob before the end of the history reaches it |
| `HistoryIterator.BlobsTileHistory` | common/archiver/historyIterator.go:170-219 | the greedy blobs concatenate to the history, every batch once and in order, with those bounds |
| `HistoryIterator.GreedySplitIsUnique` | common/archiver/historyIterator.go:170-219 | any two splits of a history with those bounds have the same bodies |
| `HistoryIterator.HeadersChain` | common/archiver/historyIterator.go:134-157 | along the split the last flag is on exactly the final blob, each count is last ID minus first ID plus one, and each blob starts one past the one before |
| `HistoryIterator.HeaderMatchesBody` | common/archiver/historyIterator.go:134-152 | the header of a blob says what the events of its body say: first and last IDs and versions, and their number |
| `HistoryIterator.HistoryStore.ReadHistory` | common/archiver/historyIterator.go:221-231 | a read breaks, finds nothing, or returns a non-empty run of batches from the asked event on |
| `HistoryIterator.Iterator.constructor` | common/archiver/historyIterator.go:103-119 | a new iterator stands at the first event and is not finished |
| `HistoryIterator.Iterator.FromState` | common/archiver/historyIterator.go:87-101 | an undecodable token is refused, no token starts afresh, and an encoded state is restored |
| `HistoryIterator.Iterator.Reset` | common/archiver/historyIterator.go:235-242 | an undecodable token is an error that leaves the iterator as it was |
| `HistoryIterator.Iterator.Next` | common/archiver/historyIterator.go:121-158 | delivers exactly the greedy blob at the cursor and moves past it, or fails and leaves the state unchanged; each error has its own cause (the last read broke with that message, a batch of this very blob cannot be sized, the whole history is missing), and a delivery means every read was served and every batch of the blob sized; it panics only on a state outside the history or a non-positive target |
| `HistoryIterator.Iterator.MakeBlob` | common/archiver/historyIterator.go:134-157 | the header carries the first and last versions and IDs of the body and the number of its events |
| `HistoryIterator.Iterator.ReadHistoryBatches` | common/archiver/historyIterator.go:170-219 | the batches up to the greedy cut, whatever the paging, all of them sized and all reads served, with the state after them; an error has its own cause |
| `HistoryIterator.Iterator.ReadPage` | common/archiver/historyIterator.go:178-204 | one round of the loop takes the batches of a page, completes the blob, finds the end of the history or reports an error with its cause |
| `HistoryIterator.Iterator.LookAhead` | common/archiver/historyIterator.go:206-218 | the extra read decides whether the iteration is finished, exactly by whether batches remain; if it breaks, that is the error |
| `HistoryIterator.Iterator.TakePage` | common/archiver/historyIterator.go:187-203 | one page brings the iterator to the greedy cut or to the page's end with the cut still the same, and it fails exactly on a batch before the cut that cannot be sized |
| `HistoryIterator.EventConservesBlobs` | common/archiver/historyIterator.go:121-158 | one call of Next, failed or not, or one rebuild conserves delivered plus remaining blobs and does not panic |
| `HistoryIterator.DeliveryMovesCursor` | common/archiver/historyIterator.go:121-158 | a delivered blob starts at the event the state asked for, is marked last exactly when the iteration is finished afterwards, and otherwise the state asks for the event after its last |
| `HistoryIterator.CutConserves` | common/archiver/historyIterator.go:198-218 | the state after a cut promises exactly the blobs after it |
| `HistoryIterator.RunConservesBlobs` | common/archiver/historyIterator.go:121-242 | over every run of calls, failures and rebuilds, delivered blobs followed by remaining ones are constant |
| `HistoryIterator.RunNeverPanics` | common/archiver/historyIterator.go:128-136 | no Next of such a run indexes an empty batch list |
| `HistoryIterator.FinishedRunIsGreedy` | common/archiver/historyIterator.go:121-219 | a finished run delivers exactly the greedy split of the history, from event one to the last event |
| `HistoryIterator.RunFinishes` | common/archiver/historyIterator.go:121-219 | a run without failed calls finishes within as many calls as blobs remain |
| `HistoryIterator.ResumeFromCheckpoint` | common/archiver/historyIterator.go:87-101 | blobs before a saved state followed by those of a separate run from it are the uninterrupted result |
| `HistoryIterator.ArchiveWithCheckpoints` | common/archiver/historyIterator.go:87-168 | saving the state and rebuilding the iterator from it before any of the calls still delivers the beginning of the greedy split, all of it exactly when finished, one blob for each call that does not fail |
| `HistoryIterator.HasNextMeansMore` | common/archiver/historyIterator.go:161-163 | in a reachable state HasNext holds exactly when a blob remains, and then a batch starts at the next event ID |
| `HistoryIterator.EmptyHistoryNeverFinishes` | common/archiver/historyIterator.go:180-186 | with no history at all nothing is delivered and the state never changes |
| `LruSpec.VictimBelow` | common/cache/lru.go:312-325 | the victim is the last entry without references; none exists exactly when all are referenced |
| `LruSpec.ApplyKeepsInv` | common/cache/lru.go:161-325 | every operation keeps keys distinct, the size within the maximum and unpinned counts at zero |
| `LruSpec.RunKeepsInv` | common/cache/lru.go:161-325 | the same over every sequence of operations |
| `LruSpec.CacheFullExactly` | common/cache/lru.go:198-210 | PutIfNotExist returns the full-cache error exactly when a new key meets a full cache whose every entry is referenced |
| `LruSpec.PutFullExactly` | common/cache/lru.go:252-305 | the same for the common put |
| `LruSpec.UnpinnedNeverFull` | common/cache/lru.go:295-300 | without pinning and with a positive maximum the error is unreachable |
| `LruSpec.GetMeaning` | common/cache/lru.go:161-186 | a hit returns the stored value, puts the entry first and counts a reference in pin mode; a miss removes at most the key's expired entry; every other key is untouched |
| `LruSpec.DeleteMeaning` | common/cache/lru.go:213-224 | Delete takes out its key and leaves every other key as it was |
| `LruSpec.MadeRoomMeaning` | common/cache/lru.go:295-297 | making room loses at most the victim's key |
| `LruSpec.InsertMeaning` | common/cache/lru.go:282-305 | after an insertion the new key has its value, its stamp if entries can expire and its first reference in pin mode, the victim is gone and every other key is as before |
| `LruSpec.PutMeaning` | common/cache/lru.go:252-305 | over a live entry value and stamp change only when updates are allowed; otherwise a new first entry, and at most one other key lost; a cache of size zero stores nothing |
| `LruSpec.HandedOutIsStored` | common/cache/lru.go:198-210 | the value PutIfNotExist hands out is the stored one exactly when the cache can hold something and no live nil meets a new value |
| `LruSpec.LiveFacts` | common/cache/lru.go:327-329 | the live entries are exactly the unexpired ones, keys still distinct |
| `LruExpiry.GetByTime` | common/cache/lru.go:161-186 | Get finds and keeps an entry that is referenced, unstamped or not older than its stamp plus the time to live, and misses and drops any other |
| `LruExpiry.PutByTime` | common/cache/lru.go:252-305 | a put meets the value of such an entry and treats any other as absent, with the value and stamp it leaves in each case |
| `LruExpiry.IterationByTime` | common/cache/lru.go:92-103 | the same test decides what an iteration yields |
| `LruExpiry.EntryLives` | common/cache/lru.go:161-329 | over every run that does not put, delete or evict its key, an entry is found and yielded with its value until its stamp plus the time to live, and later only while it is referenced |
| `LruExpiry.PutLives` | common/cache/lru.go:161-329 | over every run, a value put at a time is found by every Get of its key up to that time plus the time to live while nothing puts, deletes or evicts the key, by no later one unless the entry is referenced, and for good without a time to live; the same for what an iteration yields |
| `LruProperties.ApplyMovesOnly` | common/cache/lru.go:161-325 | an operation moves at most the touched key to the front and otherwise only drops keys, keeping the order |
| `LruProperties.LastTouch` | common/cache/lru.go:161-186 | the latest position of a key in the log of touches |
| `LruProperties.RunOrderedByRecency` | common/cache/lru.go:161-325 | in every run the access list is ordered by latest touch |
| `LruProperties.VictimIsLeastRecent` | common/cache/lru.go:312-325 | in every run the victim is the unreferenced entry touched longest ago |
| `LruProperties.PlainStep` | common/cache/lru.go:161-325 | without pinning and expiry the keys evolve by a simple rule: move to front, push, cut off the end |
| `LruProperties.StepKeepsInclusion` | common/cache/lru.go:161-325 | one operation on two caches keeps the smaller list a subsequence of the larger, with lengths at most the size difference apart |
| `LruProperties.SmallerIncludedInLarger` | common/cache/lru.go:161-325 | over every trace the smaller cache's list is a subsequence of the larger's |
| `LruProperties.LargerNeverMisses` | common/cache/lru.go:161-186 | a key in the smaller cache is in the larger one |
| `LruProperties.ValueAfterStep` | common/cache/lru.go:161-224 | one operation stores the put value, keeps a value or drops it |
| `LruProperties.StepAgreesExactly` | common/cache/lru.go:161-224 | one operation on both caches keeps a key's agreement exactly unless it is a PutIfNotExist of a key lost by the smaller and held by the larger under another value |
| `LruProperties.ValuesAgreeExactly` | common/cache/lru.go:161-224 | over every trace the smaller cache's values are the larger's after every prefix exactly when no such PutIfNotExist occurs in it |
| `LruProperties.SameValueInLarger` | common/cache/lru.go:161-224 | over every trace without PutIfNotExist a hit in the smaller cache finds the same value in the larger |
| `LruProperties.PutIfNotExistCanDisagree` | common/cache/lru.go:198-210 | traces of two puts and a PutIfNotExist, for any keys and values, after which caches of sizes one and two hold different values under one key |
| `LruPinning.StepCountsExactly` | common/cache/lru.go:161-325 | one disciplined operation keeps a key's count equal to its holders exactly unless it is a Get of a live nil, or a PutIfNotExist at size zero, at that key |
| `LruPinning.PutMoves` | common/cache/lru.go:198-210 | PutIfNotExist moves counts and holders together, and the victim is held by nobody |
| `LruPinning.StepMoves` | common/cache/lru.go:161-325 | every disciplined operation moves count and holders of a key together, a leak aside |
| `LruPinning.CountsMatchExactly` | common/cache/lru.go:161-325 | over every disciplined run counts equal holders after every prefix exactly when no operation of the run leaks |
| `LruPinning.NonNilNeverLeaks` | common/cache/lru.go:161-325 | runs that never put nil into a cache that can hold something never leak |
| `LruPinning.HeldIsCovered` | common/cache/lru.go:161-325 | over every disciplined run, leaks or not, counts are at least the numbers of holders and held keys are cached |
| `LruPinning.ReleaseMeaning` | common/cache/lru.go:227-240 | Release takes one reference off its entry and changes nothing else |
| `LruPinning.HeldEntriesStay` | common/cache/lru.go:161-325 | over every disciplined run without a leak counts equal holders and every held key is cached |
| `LruPinning.HeldIsNeverEvictedOrExpired` | common/cache/lru.go:312-329 | over every disciplined run, leaks or not, a held entry is resident, is not the victim and is not expired at any time; without a leak its count is the number of its holders |
| `LruPinning.StepKeepsValue` | common/cache/lru.go:161-325 | one disciplined operation leaves a held entry's value and stamp alone |
| `LruPinning.HeldValueStays` | common/cache/lru.go:161-325 | over every disciplined run a key's value and stamp stay the same while it stays held |
| `LruPinning.ZeroSizeKeepsNothing` | common/cache/lru.go:252-255 | a cache of size zero hands out a value it does not keep |
| `LruPinning.ReleasedCacheAccepts` | common/cache/lru.go:295-300 | after a run without a leak, with no holders left, a full cache accepts a new key |
| `LruPinning.NilValueLeaksReference` | common/cache/lru.go:173-185 | runs that put nil, release it and get it end with a count of one and no holder |
| `LruCache.IndexAgrees` | common/cache/lru.go:161-176 | when map and list agree, a map lookup finds exactly the key's place in the list |
| `LruCache.KeysDistinct` | common/cache/lru.go:252-305 | agreement of map and list makes the keys of the list distinct |
| `LruCache.RemoveAgrees` | common/cache/lru.go:307-310 | removing an element from both keeps them in agreement and removes one entry of the contents |
| `LruCache.FrontAgrees` | common/cache/lru.go:184-184 | moving an element to the front keeps them in agreement |
| `LruCache.PushAgrees` | common/cache/lru.go:302-304 | pushing a new element and indexing it keeps them in agreement |
| `LruCache.UpdateAgrees` | common/cache/lru.go:266-278 | changing an element's fields, short of its key, keeps them in agreement |
| `LruCache.EvictAgrees` | common/cache/lru.go:312-325 | eviction keeps them in agreement and removes exactly the victim |
| `LruCache.Lru.constructor` | common/cache/lru.go:132-144 | a new cache is empty |
| `LruCache.Lru.Get` | common/cache/lru.go:161-186 | keeps map and list in agreement; result and contents are those of GetMeaning's function; the result is the stored value exactly when the entry is referenced, unstamped or not older than the time to live, and nil otherwise |
| `LruCache.Lru.Put` | common/cache/lru.go:189-195 | panics exactly in pin mode; otherwise an updating put that never reports a full cache |
| `LruCache.Lru.PutIfNotExist` | common/cache/lru.go:198-210 | the existing value, the new value, or the full-cache error, with the contents of PutMeaning's function |
| `LruCache.Lru.PutInternal` | common/cache/lru.go:252-305 | result and contents are those of PutMeaning's function |
| `LruCache.Lru.InsertNew` | common/cache/lru.go:282-305 | result and contents are those of InsertMeaning's function |
| `LruCache.Lru.UpdateAndMoveToFront` | common/cache/lru.go:266-278 | the changed entry comes first, the others keep their order |
| `LruCache.Lru.DeleteInternal` | common/cache/lru.go:307-310 | the element leaves the list and its key the map |
| `LruCache.Lru.EvictOnceInternal` | common/cache/lru.go:312-325 | the walk from the back deletes exactly the victim, if there is one |
| `LruCache.Lru.Delete` | common/cache/lru.go:213-224 | the key's entry is gone, whatever its references; an absent key changes nothing |
| `LruCache.Lru.Release` | common/cache/lru.go:227-240 | one reference less in pin mode; nothing otherwise |
| `LruCache.Lru.Size` | common/cache/lru.go:243-248 | the number of entries in the list |
| `LruCache.LruIterator.constructor` | common/cache/lru.go:108-117 | fixes the time of the iteration and stands at the first live entry, the expired ones before it deleted |
| `LruCache.LruIterator.PrepareNext` | common/cache/lru.go:92-103 | deletes expired entries up to the next live one and stands there |
| `LruCache.LruIterator.DeleteExpired` | common/cache/lru.go:95-98 | one expired element is stepped past before it is deleted, so the walk keeps its place |
| `LruCache.LruIterator.Next` | common/cache/lru.go:75-90 | yields the entry it stands at and moves on, what was yielded being the live part of what was passed; it panics exactly when nothing is left |
| `LruCache.LruIterator.FollowsSpec` | common/cache/lru.go:75-117 | at any point the cache has lost exactly the expired entries passed so far |
| `LruCache.LruIterator.CompletedIteration` | common/cache/lru.go:75-117 | a completed iteration yielded exactly the entries live at its creation, once and in access order, and exactly those remain |
| `LruCache.LruIterator.YieldedByTime` | common/cache/lru.go:75-117 | an entry was yielded exactly when it was referenced, unstamped or not older than the time to live at the creation of the iterator |
| `FailoverVersion.LeastOwned` | common/cluster/metadata.go:308-325 | the least version from v on that a cluster owns, less than one increment away |
| `FailoverVersion.LeastOwnedUnique` | common/cluster/metadata.go:308-325 | there is only one |
| `FailoverVersion.NextVersionIsLeastOwned` | common/cluster/metadata.go:308-325 | from every non-negative version the next version is the least owned one, in [v, v+increment), exactly when that fits in 64 bits |
| `FailoverVersion.NextVersionForm` | common/cluster/metadata.go:308-325 | the next version from every 64-bit version: a multiple of the increment above the initial version, less 2^64 exactly when the least owned version is out of range |
| `FailoverVersion.LastVersionWraps` | common/cluster/metadata.go:308-325 | a version from which the result wraps to a negative version the cluster does not own |
| `FailoverVersion.NextVersionFromNegative` | common/cluster/metadata.go:308-325 | from a negative version the result is owned and not below, and the least such exactly under a stated remainder condition |
| `FailoverVersion.TruncationOvershoots` | common/cluster/metadata.go:308-325 | a negative version from which an owned version is skipped |
| `FailoverVersion.IndexFindsOwner` | common/cluster/metadata.go:528-548 | with distinct initial versions the reverse index names each cluster itself |
| `FailoverVersion.NameByNamespace` | common/cluster/metadata.go:350-387 | in a local namespace the empty version is the current cluster's and any other panics; in a global one the empty version is unknown as zero, and any other is looked up by its signed remainder, or by the increment when that is zero, the number an unknown name carries |
| `FailoverVersion.NameIsOwner` | common/cluster/metadata.go:350-387 | a positive version is named after the cluster that owns it and is unknown exactly when none does; zero and negative versions are unknown |
| `FailoverVersion.NextVersionNamesItsCluster` | common/cluster/metadata.go:308-387 | from any 64-bit version the next version maps back to its cluster exactly when the version is above minus one increment and the result does not wrap; otherwise the name is unknown |
| `FailoverVersion.ClustersNeverCollide` | common/cluster/metadata.go:308-325 | from any 64-bit versions two clusters mint different versions unless one of them wraps while the other starts negative |
| `FailoverVersion.ClustersCollideExactly` | common/cluster/metadata.go:308-325 | two clusters mint the same version exactly when one wraps around, 2^64 separates their residue classes, and the other starts negative within one increment below where the first lands |
| `FailoverVersion.DividingIncrementNeverCollides` | common/cluster/metadata.go:308-325 | with an increment that divides 2^64 two clusters never mint the same version, from any versions |
| `FailoverVersion.WrapCanCollide` | common/cluster/metadata.go:308-325 | two clusters and starting versions that do collide |
| `FailoverVersion.SameClusterIsSameResidue` | common/cluster/metadata.go:327-329 | the same-cluster test is equality of residues whenever the difference fits in 64 bits or the increment divides 2^64; otherwise the two never both hold |
| `FailoverVersion.WrappedDifferenceMisleads` | common/cluster/metadata.go:327-329 | two versions of one residue that the test tells apart because their difference wraps |
| `FailoverVersion.SameClusterIsSameOwner` | common/cluster/metadata.go:327-387 | for versions with known owners it is equality of owners |
| `ClusterMetadata.IndexSizeDetectsDuplicates` | common/cluster/metadata.go:173-175 | comparing sizes detects exactly the repeated initial versions |
| `ClusterMetadata.UpdateVersionToClusterName` | common/cluster/metadata.go:528-548 | builds the reverse index in any visiting order, panicking exactly on an invalid cluster |
| `ClusterMetadata.RefreshMirrorsExactly` | common/cluster/metadata.go:442-509 | a refresh makes the cache mirror the listing exactly when each common entry is newer in the listing or has the same three fields |
| `ClusterMetadata.RestartedVersionStaysStale` | common/cluster/metadata.go:464-486 | a listing with a lower version after which the cache stays stale |
| `ClusterMetadata.RefreshIsIdempotent` | common/cluster/metadata.go:442-509 | an immediate second refresh finds no difference and changes nothing |
| `ClusterMetadata.SkippedRowLags` | common/cluster/metadata.go:464-470 | a newer row with the same three fields is skipped for good: the cache mirrors the listing while its version and shard count differ |
| `ClusterMetadata.EventKeepsConsistent` | common/cluster/metadata.go:442-509 | store changes and refreshes keep cache and store consistent in versions, and a refresh mirrors |
| `ClusterMetadata.EveryRefreshMirrors` | common/cluster/metadata.go:442-526 | over every run of store changes, refreshes and failed listings each refresh makes names and the three fields equal the store's |
| `ClusterMetadata.CollectedHasEveryRow` | common/cluster/metadata.go:576-591 | the listing has every stored row, field by field, and nothing else; of rows with one name the last |
| `ClusterMetadata.RefreshFollowsRows` | common/cluster/metadata.go:442-592 | after a refresh exactly the stored names are cached; a row that is new, or newer with another enabled flag, address or initial version, is cached with its enabled flag, initial version, address, shard count and version, and any other leaves the cached entry |
| `ClusterMetadata.DiffIsRefresh` | common/cluster/metadata.go:448-507 | the collected differences are exactly the names a refresh changes |
| `ClusterMetadata.AppliedDiff` | common/cluster/metadata.go:511-522 | applying the differences to the cache is the refresh |
| `ClusterMetadata.Metadata.New` | common/cluster/metadata.go:146-197 | construction succeeds exactly on a sound configuration: positive 32-bit increment, known master and current cluster, named clusters with distinct initial versions between one and the increment, and an address for each enabled one |
| `ClusterMetadata.Metadata.ListAllClusterMetadata` | common/cluster/metadata.go:550-592 | lists all rows of all pages of the store field by field, or returns the first page error |
| `ClusterMetadata.Metadata.CollectRows` | common/cluster/metadata.go:576-591 | the loop over the paging iterator sees every row before an error |
| `ClusterMetadata.Metadata.DiffListed` | common/cluster/metadata.go:452-487 | the loop over listed clusters collects the new and the changed ones |
| `ClusterMetadata.Metadata.DiffRemoved` | common/cluster/metadata.go:488-494 | the loop over cached clusters adds those no longer listed |
| `ClusterMetadata.Metadata.UpdateClusterInfoLocked` | common/cluster/metadata.go:511-522 | old entries without new ones are deleted, the others stored, all else unchanged |
| `ClusterMetadata.Metadata.RefreshClusterMetadata` | common/cluster/metadata.go:442-509 | a failed listing changes nothing; otherwise the cache follows the stored rows field by field as in RefreshFollowsRows and the index is rebuilt, or an invalid row panics |
| `PagingIterator.DeliveriesAreAllPages` | common/collection/pagingIterator.go:73-127 | what is delivered is the concatenation of all pages, then the page error once if there is one |
| `PagingIterator.BoundIrrelevant` | common/collection/pagingIterator.go:115-127 | any bound on the length of the token chain that suffices gives the same deliveries |
| `PagingIterator.Pager.constructor` | common/collection/pagingIterator.go:42-70 | everything is still to be delivered |
| `PagingIterator.Pager.GetNextPage` | common/collection/pagingIterator.go:115-127 | reading a page loses nothing of what the token promised |
| `PagingIterator.Pager.HasNext` | common/collection/pagingIterator.go:73-90 | true exactly when something remains, skipping empty pages; asking again loses nothing |
| `PagingIterator.Pager.Next` | common/collection/pagingIterator.go:93-113 | hands out the next item or the error, and panics exactly when nothing remains |
| `ConcurrentTxMap.Home` | common/collection/concurrent_tx_map.go:250-253 | a key has one of the 32 shards |
| `ConcurrentTxMapProof.WrittenIsApplied` | common/collection/concurrent_tx_map.go:110-203 | what an operation stores is its effect on a single map, and its size step is the change in the number of keys |
| `ConcurrentTxMapProof.CheckBranches` | common/collection/concurrent_tx_map.go:91-203 | after the lookup the answer is final and nothing changes, or the store that follows is justified |
| `ConcurrentTxMapProof.LockKeepsInv` | common/collection/concurrent_tx_map.go:91-203 | taking a lock keeps the invariant |
| `ConcurrentTxMapProof.CheckKeepsInv` | common/collection/concurrent_tx_map.go:91-203 | so does the lookup under it, with lazy initialisation |
| `ConcurrentTxMapProof.CountKeepsInv` | common/collection/concurrent_tx_map.go:110-203 | so does the atomic change of the size, before or after the store |
| `ConcurrentTxMapProof.StoreKeepsInv` | common/collection/concurrent_tx_map.go:110-203 | so does the store or deletion |
| `ConcurrentTxMapProof.UnlockKeepsInv` | common/collection/concurrent_tx_map.go:91-203 | so does the unlock, with the answer returned |
| `ConcurrentTxMapProof.LenKeepsInv` | common/collection/concurrent_tx_map.go:246-248 | the steps of Len keep it |
| `ConcurrentTxMapProof.StepKeepsInv` | common/collection/concurrent_tx_map.go:91-203 | every step of every thread keeps the invariant |
| `ConcurrentTxMapProof.EveryRunKeepsInv` | common/collection/concurrent_tx_map.go:91-203 | so does every interleaving |
| `ConcurrentTxMapProof.LenIsItemsPlusInFlight` | common/collection/concurrent_tx_map.go:246-253 | at every moment Len is the items in all shards plus the corrections in flight, and every key is in its hash shard only |
| `ConcurrentTxMapProof.AnswersAreSequential` | common/collection/concurrent_tx_map.go:91-203 | every response to an operation on a key carries the answer that operation gives when all of them run alone in lock order on a single map |
| `ConcurrentTxMapProof.NoStoreIntoNil` | common/collection/concurrent_tx_map.go:255-259 | no store meets an uninitialised shard |
| `ConcurrentTxMapProof.QuietLenIsExact` | common/collection/concurrent_tx_map.go:246-248 | with no thread inside a lock Len is the number of keys of that map, exactly as long as it fits in 32 bits, and every lookup agrees with it |
| `ConcurrentTxMapCommit.CheckKeepsCommit` | common/collection/concurrent_tx_map.go:91-203 | a lookup that decides the operation commits it without changing the number of keys |
| `ConcurrentTxMapCommit.CountKeepsCommit` | common/collection/concurrent_tx_map.go:110-203 | the atomic change of the size commits the operation and moves the size by as much as the committed map |
| `ConcurrentTxMapCommit.StoreKeepsCommit` | common/collection/concurrent_tx_map.go:110-203 | a store brings the shard in line with what is committed, or one operation ahead of it |
| `ConcurrentTxMapCommit.UnlockKeepsCommit` | common/collection/concurrent_tx_map.go:91-203 | a returned answer is that of the committed map at its place |
| `ConcurrentTxMapCommit.LenKeepsCommit` | common/collection/concurrent_tx_map.go:246-248 | the size that Len reads is the number of keys committed |
| `ConcurrentTxMapCommit.EveryRunKeepsCommit` | common/collection/concurrent_tx_map.go:91-248 | every interleaving keeps the items of a shard equal to what is committed, save at the key of its writer |
| `ConcurrentTxMapCommit.LenIsCommitted` | common/collection/concurrent_tx_map.go:246-248 | at every moment of every run Len is the number of keys of one map fed in commit order, wrapped to 32 bits |
| `ConcurrentTxMapOrder.BeginKeepsOrder` | common/collection/concurrent_tx_map.go:91-248 | a call adds its invocation to the history and keeps the order invariant |
| `ConcurrentTxMapOrder.StepAdvances` | common/collection/concurrent_tx_map.go:91-248 | between invocation and response a call commits in one step: a deciding lookup, the change of the size, or reading it |
| `ConcurrentTxMapOrder.CommitKeepsOrder` | common/collection/concurrent_tx_map.go:91-248 | committing gives the call its place in the order, after every response made before the call |
| `ConcurrentTxMapOrder.EndKeepsOrder` | common/collection/concurrent_tx_map.go:91-248 | the response matches the call of its thread and is the only one |
| `ConcurrentTxMapOrder.EveryRunKeepsOrder` | common/collection/concurrent_tx_map.go:91-248 | every interleaving keeps the order invariant |
| `ConcurrentTxMapOrder.EveryRunIsLinearizable` | common/collection/concurrent_tx_map.go:91-248 | after every run, Len included, the commit order is a linearization: one place for each call, each response matched to the one call it answers, real-time order respected, and every answer the sequential one |
| `ConcurrentTxMapOrder.LockOrderMissesLen` | common/collection/concurrent_tx_map.go:124-136 | a run whose Len, called after the last operation of the lock order returned, does not count an earlier one |
| `ConcurrentTxMapMeaning.ReplayLeaves` | common/collection/concurrent_tx_map.go:91-203 | one more operation in lock order changes only its own key and leaves there what it is for: Put its value, PutIfNotExist and PutOrDo the old value or theirs, Remove nothing, RemoveIf nothing exactly when the predicate holds, Get and GetAndDo what they found |
| `ConcurrentTxMapMeaning.ReplayAllLeaves` | common/collection/concurrent_tx_map.go:91-248 | the same in commit order; the length changes no key |
| `ConcurrentTxMapMeaning.PlaceLeaves` | common/collection/concurrent_tx_map.go:110-203 | what a request leaves under a key can be told from the request and its answer alone |
| `ConcurrentTxMapMeaning.HoldsLastStored` | common/collection/concurrent_tx_map.go:91-203 | in any sequence of requests a key holds a value exactly when the last request that wrote the key, as its answer tells, stored that value |
| `ConcurrentTxMapMeaning.AnswersFollowLastWrite` | common/collection/concurrent_tx_map.go:91-203 | in every run of every interleaving each operation answers by the last write of its key before it in the linearization: as for a present key holding the stored value, or as for an absent one |
| `ConcurrentTxMapMeaning.GetSeesLastPut` | common/collection/concurrent_tx_map.go:91-122 | a Get answers the value of the last Put of its key before it when no other write of that key lies between |
| `ClientCache.StepGrows` | common/clientCache.go:78-100 | a step adds a client only under a key that has none and never changes another |
| `ClientCache.StepKeepsInv` | common/clientCache.go:78-117 | every step of every thread keeps the invariant on locks, knowledge, creations and answers |
| `ClientCache.EveryRunKeepsInv` | common/clientCache.go:78-117 | so does every interleaving, and no cached client is replaced or dropped |
| `ClientCache.ProvideKeepsCreated` | common/clientCache.go:86-99 | when the provider succeeds, no earlier success was for the same key |
| `ClientCache.ProvidedOnce` | common/clientCache.go:78-100 | in every run the provider succeeds at most once for a key, whatever fails in between |
| `ClientCache.AnswersAgree` | common/clientCache.go:78-117 | all successful answers for a key, single or part of GetAllClients, are the one client the provider made |
| `ClientCache.ErrorsKept` | common/clientCache.go:94-97 | every step keeps error answers explained by failures of the provider |
| `ClientCache.ErrorsComeFromProvider` | common/clientCache.go:94-113 | an error a call returns is a failure the provider gave, while that call ran, to that thread for the key the error is about |
| `ClientCache.FailuresAreReported` | common/clientCache.go:94-113 | in every run each failure of the provider is returned by the call that met it, unless that call is just about to return it |
| `ClientCache.WriteIsExclusive` | common/clientCache.go:79-99 | while one thread is about to store, no other is inside a lock |
| `MovingWindowAverage.YoungSuffix` | common/aggregate/moving_window_average.go:95-103 | once the held samples are the young ones, their sum and number are those of the reference |
| `MovingWindowAverage.MeanAtIsMean` | common/aggregate/moving_window_average.go:84-93 | the reference is a mean: times the number of samples younger than the window it is their 64-bit sum, it is zero when there are none, and when the sum fits it lies within all bounds on their values |
| `MovingWindowAverage.YoungCountIsNumber` | common/aggregate/moving_window_average.go:84-103 | the count of the reference is the number of samples whose age is below the window |
| `MovingWindowAverage.PushHolds` | common/aggregate/moving_window_average.go:66-82 | writing at the tail of the ring appends the newest sample, across wrap-around |
| `MovingWindowAverage.PopHolds` | common/aggregate/moving_window_average.go:95-103 | moving the head drops exactly the oldest sample held |
| `MovingWindowAverage.MeanOfHeld` | common/aggregate/moving_window_average.go:84-93 | sum over count of the held samples is the mean of the young ones among the last capacity minus one |
| `MovingWindowAverage.MovingWindowAvg.constructor` | common/aggregate/moving_window_average.go:55-64 | nothing is recorded |
| `MovingWindowAverage.MovingWindowAvg.Record` | common/aggregate/moving_window_average.go:66-82 | adds one sample to the history and keeps ring, sum and count in step with it, dropping the oldest when full |
| `MovingWindowAverage.MovingWindowAvg.Average` | common/aggregate/moving_window_average.go:84-93 | the mean, at the time of the last clock reading the call makes, of those of the last capacity minus one samples that are younger than the window: times their number it is their 64-bit sum, it is zero if there are none, and without overflow it lies between their least and greatest value; which reading is the last is stated exactly |
| `MovingWindowAverage.MovingWindowAvg.ExpireOldValues` | common/aggregate/moving_window_average.go:95-103 | reads the clock once for each sample dropped, each of which was old at its reading, and once for the first sample kept, which was young at that reading |
| `ShardMapping.MapShardID` | common/util.go:393-425 | panics exactly on counts neither of which divides the other; otherwise, for a valid shard ID, exactly the related shards in increasing order; for any other ID the 32-bit result with its wrap-around |
| `ShardMapping.OneToMany` | common/util.go:404-418 | the loop computes the source ID plus every multiple of the source count, in 32 bits |
| `ShardMapping.OneToManyImages` | common/util.go:404-418 | for a valid ID nothing wraps and the images are exactly the related shards in increasing order |
| `ShardMapping.MappingFollowsWorkflows` | common/util.go:383-425 | the target shard of any workflow is mapped from its source shard |
| `ShardMapping.MappedPairHasWorkflow` | common/util.go:383-425 | every mapped pair is the pair of shards of some 32-bit workflow hash, below the larger count |
| `ShardMapping.MappingIsSymmetric` | common/util.go:393-425 | swapping the clusters inverts the mapping |
| `ShardMapping.ImagesPartitionTargets` | common/util.go:393-425 | with a source count not larger, each target shard comes from exactly one source shard |
| `ShardMapping.MappingComposes` | common/util.go:393-425 | mapping through a cluster in between is mapping directly |
| `ShardMapping.VerifyAcceptsExactlyMapped` | common/util.go:427-450 | the check accepts a pair of valid IDs exactly when one maps to the other |
| `RetryPolicy.DelayBounds` | common/backoff/retrypolicy.go:163-203 | a delay lies within the remaining time and the attempt limit; unless the maximum interval is negative it lies between four fifths of the capped interval, rounded down, and that interval; it respects the maximum exactly when that is positive |
| `RetryPolicy.DoneExactly` | common/backoff/retrypolicy.go:163-203 | in any configuration, done exactly when attempts or time ran out, the interval is not positive, the cap fell below the initial interval, or the maximum interval is -2 |
| `RetryPolicy.NegativeConfigurationHitsDone` | common/backoff/retrypolicy.go:163-203 | a configuration whose computed delay is the done marker |
| `RetryBackoff.RawGrows` | common/backoff/retrypolicy.go:174-174 | the interval of the first attempt is the initial one, and that of each further attempt is the coefficient times the one before |
| `RetryBackoff.DelayOfLeastBound` | common/backoff/retrypolicy.go:163-203 | the delay is between four fifths, rounded down, and the whole of the least of the growing interval, the maximum and the remaining time, with every draw below a fifth added exactly; it is done when that is below the initial interval |
| `RetryBackoff.DelayFollowsBackoff` | common/backoff/retrypolicy.go:163-203 | while neither cap binds, the delay of attempt n is in that band of the initial interval multiplied n - 1 times by the coefficient |
| `RetryBackoff.StaysAtMaximum` | common/backoff/retrypolicy.go:178-180 | once an interval has reached the maximum every later delay is in the band of the maximum |
| `RetryBackoff.SettlesExactly` | common/backoff/retrypolicy.go:163-203 | with a coefficient of at least one and no other limit the intervals reach the maximum and the delays stay in its band exactly when the coefficient is above one or the initial interval is the maximum |
| `RetryBackoff.ThrottleBackoff` | common/backoff/retry.go:38-46 | the throttle policy waits in the bands of one, two, four, eight and then always ten seconds |
| `RetryBackoff.PhasesHandOver` | common/backoff/retrypolicy.go:206-212 | after a first phase of three attempts the delay of attempt n is the second policy's for attempt n - 3 |
| `RetryPolicy.SecondPhaseStartsLate` | common/backoff/retrypolicy.go:206-212 | with a growing second policy no second-phase delay is given before the fourth attempt |
| `RetryPolicy.ThrottleAlwaysWaits` | common/backoff/retry.go:38-46 | the throttle policy is never done and waits between 0.8 and 10 seconds |
| `RetryPolicy.DoneAfterLimit` | common/backoff/retrypolicy.go:163-216 | past its attempt limit any policy, nested ones included, is done for good |
| `RetryPolicy.Retrier.constructor` | common/backoff/retrypolicy.go:117-124 | the first attempt, timed from now |
| `RetryPolicy.Retrier.Reset` | common/backoff/retrypolicy.go:224-227 | back to the first attempt, timed from now |
| `RetryPolicy.Retrier.NextBackOff` | common/backoff/retrypolicy.go:230-240 | the policy's delay for the current attempt and elapsed time; the attempt moves on by one |
| `Retry.Throttled` | common/backoff/retry.go:157-159 | an exhausted error waits for the longer of the policy's and the throttle policy's delay, counted over exhausted errors only |
| `Retry.AfterFailure` | common/backoff/retry.go:149-163 | another call follows exactly when the policy is not done, the error is retryable and not the context's, and the wait ends by the deadline |
| `Retry.ThrottleRetryContext` | common/backoff/retry.go:127-178 | returns the last call's outcome, or the context's error if no call was made, stops only for a cause, and with an attempt limit always returns |
| `Retry.CallsAreLimited` | common/backoff/retry.go:144-178 | with an attempt limit m there are at most m+1 calls, for every outcome sequence; for a two-phase policy of limits m and n at most the larger of m and n+3, plus one |
| `Retry.NeverRetried` | common/backoff/retry.go:144-155 | no call follows a success, a rejected error, the context's own error or a finished context |
| `Retry.RetriedExactly` | common/backoff/retry.go:144-163 | a call is followed by another after a given wait exactly when its error is retryable and not the context's, the policy is not done, the wait is the policy's delay or the longer of the two delays, and it ends by the deadline |
| `Retry.WaitBounds` | common/backoff/retry.go:157-163 | every wait ends by the deadline and is the policy's delay, or for exhausted errors at least 0.8 seconds |
| `Retry.WaitsEndInTime` | common/backoff/retry.go:149-163 | with an expiration interval every wait for an error that is not an exhausted one ends within it, and is not negative unless the maximum interval is |

## Left out

- Retry.ThrottleRetryContext: a two-phase policy whose second phase has coefficient zero and, in its first attempts, an infinite interval that nothing caps or an initial interval of zero is excluded, because Go leaves the conversion of infinity and of not-a-number to an integer to the platform; `RetryPolicy.Retrier` excludes the same.
- RetryPolicy.DelayBounds: rounding and overflow of floating point are not modelled, because delays are real numbers here.
- LruPinning.HeldEntriesStay: Delete of a held key and unmatched Release are excluded, because the source leaves both to the discipline of its callers.
- MovingWindowAverage.MovingWindowAvg.Average: the division is exact instead of rounded to a 64-bit float; the sum does wrap to 64 bits as in the source.
- The concurrent map and the client cache are modelled on values as state machines, so that update in place appears as a step from one state to the next.
- Contains on the concurrent map: it is Get with the value dropped.
- The iterator of the concurrent map, which copies shards to a channel, is not modelled: it promises no consistent snapshot.
- GetClientForKey's ring lookup and GetAllAddresses: both only produce the keys that the protocol is given.
- The retry loop's timer: whether a wait ends by its timer or by the context shows only in the context error of the next round.
- ConcurrentRetrier, IgnoreErrors and the policy setters: they would only add easy members.
- Old values passed to metadata callbacks (the address of a loop variable is stored), the refresh loop's timing and callback delivery: the proved properties are about the cached clusters.
- Metadata without a store, ping checks, getters, logging and metrics: they would only add easy members.
- Reading a history from an event ID inside a batch: the store is assumed to answer from the first batch that starts at or after it, which no reachable state depends on.
- JSON encoding of the iterator state and of batches, the hash of workflow IDs and the linked list of the Go library are arbitrary functions or sequences.
- RPC clients, service start-up, configuration, authorization, dynamic configuration, persistence, cron and codec packages: wiring, I/O, or work done in libraries.
- The simple cache, the priority queue and the indexed take list: easier variants of what is modelled, or library code.
