# Object storage platform: verified models

This project models the parts of the platform in which state is shared, cached or edited in place, and proves what they
guarantee over every input and every interleaving. `dafny verify dfyconfig.toml` checks all of it.

**Quota service.** Usage of users and buckets lives in memory (`MemoryCache`: usage, limits and dirty marks, each locked on
its own), and a single background loop writes it to Redis.

- `quota_domain.dfy`, `quota_ledger.dfy`: counters, limits, the admission test, and what any sequence of atomic accesses to
  one usage entry guarantees: bounds, machine arithmetic, batches, conservation.
- `memory_cache.dfy`: the cache and the two-step check of user and bucket, call by call.
- `write_behind.dfy`, `write_behind_guarantees.dfy`, `write_behind_losses.dfy`, `write_behind_calls.dfy`: any number of request handlers and the flush loop, interleaved at every
  point where the source releases a lock. A subject's accesses form a log; memory is the replay of the log and Redis the
  replay of a prefix of it. For subjects that the start-up load gave their stored usage, no update is lost and Redis only moves
  forward; for all subjects, limits hold although handlers check stale ones, arithmetic never overflows and books balance.
- `redis_repository.dfy`, `restart.dfy`: the key and hash layout, loading, and a restart that nobody can notice.
- `limit_write_through.dfy`, `limit_agreement.dfy`: the two copies of a limit under concurrent `SetQuota`, `DeleteSubject` and
  `GetQuota` calls, with commands to Redis that may fail and with commands that do not.

**Authorization service** (`decision_keys.dfy`, `decision_cache.dfy`). Checks go through a cache with a time to live, in front
of a graph that changes. Exactly on queries whose cache key is unambiguous, answers have bounded age; the bound is tight, and
the audit log is complete.

**Presentation deck** (`deck_lists.dfy`, `rail.dfy`, `deck_ops.dfy`, `deck_stage.dfy`). The child list, the slide list, the active index and
the thumbnail rail that is reordered in place.

**Gateway fakes and smoke payload** (`upstream.dfy`, `payload.dfy`). The publish protocol of Storage and Metadata with chunked
reads, and the generated upload stream.

Some promises turn out not to hold on all inputs. Each has a concrete run that breaks it and the exact condition for it:

- A check that the bucket refuses takes the user's reservation back by applying the negated delta. If the delta itself was
  clamped at zero, the user ends with more usage than before (`RollbackCanInflate`, `RefusedByBucketIsNeutralIff`). With other
  accesses in between, the user can also end with less (`InterleavedRollbackDiffers`, `RefusedCheckIsNeutralIff`). That last
  condition is about accesses still to come; the condition a caller can keep is that of `BooksBalance`: release only what is
  outstanding.
- A usage entry that the load cannot read is skipped, and the service starts although its README says that a load error stops
  it. The next update of the subject then overwrites the stored usage (`SkippedUsageIsLost`, `MisloadedIsLost`,
  `NeverLostIff`, `KeptAfterLoadIff`); from then on nothing more of it is lost (`WrittenIsKept`).
- A subject deleted while the flush holds its old value comes back in Redis (`DeletedSubjectReturns`, `DeletionHoldsIff`). The
  service's own README names this race.
- The two copies of a limit can come apart: when the one write to Redis fails (`FailedWriteDisagrees`), when two `SetQuota`
  calls overlap (`OverlapCanDisagree`), and when `GetQuota` caches a limit it read before it was changed (`FallBackCanRevert`).
  `AgreesInTheEndIff` says when they are bound to agree, and `AgreesIfNoneFailsIff` when they are if no command fails.
- A subject whose name starts with the key prefix does not survive a load, because the prefix is stripped as often as it
  occurs (`PrefixedSubjectCollides`, `KeyRoundTripIff`, `LoadRebuildsIff`).
- Two authorization queries can share a cache key, and one is then answered with the other's decision (`ColonsCollide`,
  `ServedAnothersDecision`, `AlwaysFreshIff`). Subjects with equally many colons, such as `user:<uuid>`, never do
  (`EqualColonsNeverCollide`).
- A slide deleted while it is dragged: the drop fails after it has changed the deck's index (`StaleDragLosesIndex`,
  `StaleSpoilsIff`, `Do`). A drag remembers a position, not a slide (`DeletionKeepsPositionIff`, `MoveKeepsPositionIff`).

Where comments and code of the source differ, the model follows the code: the comment on `set_quota` speaks of a background
flush of limits, but the code writes them through; the comment on `check` names two reasons, but the code returns four.

## Model

| member | source | states |
|---|---|---|
| `QuotaDomain.UsageEntry.Apply` | services/quota/src/domain/quota.rs:11-17 | a counter is the sum, never negative; the clamp acts only where the sum is not positive |
| `QuotaDomain.AdmittedIffFits` | services/quota/src/cache/memory.rs:415-451 | a delta is admitted if and only if every finite dimension it grows stays within its limit; a refusal names such a dimension, the usage it would have reached and the limit |
| `QuotaDomain.AdmittedInNumbers` | services/quota/src/cache/memory.rs:415-451 | the test in plain numbers: -1 is no limit, a limit may be used up exactly |
| `QuotaDomain.RefusalIsExplained` | services/quota/src/cache/memory.rs:415-451 | a refusal names the first of bytes, objects and buckets that does not fit, with the usage it would have reached and the limit |
| `QuotaDomain.ReleaseIsAlwaysAdmitted` | services/quota/src/cache/memory.rs:415-451 | a delta that grows nothing is never refused, even above the limit |
| `QuotaLedger.BoundedByLimits` | services/quota/src/cache/memory.rs:74-136 | over any sequence of accesses, usage is at most the largest limit checked against plus what unchecked updates added |
| `QuotaLedger.WithinAttempts` | services/quota/src/domain/quota.rs:11-17 | usage stays between zero and the start plus everything ever attempted |
| `QuotaLedger.NoOverflow` | services/quota/src/cache/memory.rs:415-451 | if the start plus everything attempted fits in 64 bits, every sum formed by test or update is in range, and the wrapping test and addition agree with the unbounded ones |
| `QuotaLedger.MachineReplayIsExact` | services/quota/src/domain/quota.rs:11-17 | under the same condition, wrapping arithmetic reaches the exact usage after every access |
| `QuotaLedger.BatchGrantedIffTotalFits` | services/quota/src/cache/memory.rs:74-120 | reservations of non-negative amounts under one limit are all granted if and only if the total fits every finite dimension it grows; usage then grows by exactly the total |
| `QuotaLedger.BatchIgnoresOrder` | services/quota/src/cache/memory.rs:74-120 | any permutation of a batch has the same all-granted outcome and the same final usage |
| `QuotaLedger.LogIsBatch` | services/quota/src/cache/memory.rs:93-110 | the accesses to one entry, when all are reservations under one limit, are a batch served in their order |
| `QuotaLedger.TakeKeepsBalance` | services/quota/src/domain/quota.rs:11-17 | taking a non-negative amount keeps usage equal to start plus outstanding, and nothing is clamped |
| `QuotaLedger.GiveBackKeepsBalance` | services/quota/src/domain/quota.rs:62-70 | giving back the negation of an outstanding amount keeps that balance, and nothing is clamped |
| `QuotaLedger.Conservation` | services/quota/src/domain/quota.rs:11-70 | over any run of takings and returns, usage is the start plus what is outstanding; returning everything restores the start |
| `QuotaLedger.ClampNeverFires` | services/quota/src/domain/quota.rs:11-17 | in such a run every sum is non-negative before the clamp |
| `QuotaLedger.ReplayClosedForm` | services/quota/src/domain/quota.rs:11-17 | any sequence of clamped accesses has a closed form: what they add up to, on the start or on the depth they reach, whichever is larger |
| `QuotaLedger.RollbackCancelsIff` | services/quota/src/service/quota.rs:84-87 | a reservation and its roll-back cancel out around any accesses between them if and only if those stay above zero on their own or end there; a negative amount must be covered all along |
| `QuotaLedger.PairRemovableIff` | services/quota/src/service/quota.rs:84-87 | in any log, such a pair can be removed without changing the usage if and only if that holds in every dimension |
| `QuotaLedger.InterleavedRollbackDiffers` | services/quota/src/service/quota.rs:84-87 | accesses around which a refused check leaves 1 byte where there would have been 4 |
| `CacheTables.InsertAllRebuilds` | services/quota/src/cache/memory.rs:44-54 | inserting rows that cover a table rebuilds it, in any order and with any repetition |
| `CacheTables.VerdictIff` | services/quota/src/cache/memory.rs:83-110 | the limit that is set, or else the default, decides alone: allowed if and only if the delta fits it in every dimension, else refused for the first in which it does not |
| `CacheTables.RollbackExactIff` | services/quota/src/domain/quota.rs:62-70 | applying a delta and then its negation restores the usage if and only if the delta clamped nothing |
| `MemoryCaches.MemoryCache.LoadUsage` | services/quota/src/cache/memory.rs:44-48 | the loop's effect is the insertion of all rows, later ones winning |
| `MemoryCaches.MemoryCache.LoadLimits` | services/quota/src/cache/memory.rs:50-54 | the same for limits |
| `MemoryCaches.MemoryCache.CheckAndReserve` | services/quota/src/cache/memory.rs:74-120 | allowed if and only if the delta fits the limit that is set, or else the default, in every dimension, with the first that does not as the reason; the branches for present and absent entries are one rule, absent being zero; only a grant changes usage and marks; a denial leaves every subject's usage as it was, though it may add a zero entry |
| `MemoryCaches.MemoryCache.Update` | services/quota/src/cache/memory.rs:124-130 | the delta is applied to the usage, absent being zero, and the subject marked |
| `MemoryCaches.MemoryCache.SetLimit` | services/quota/src/cache/memory.rs:134-136 | exactly the subject's limit is replaced |
| `MemoryCaches.SetThenReserve` | services/quota/src/cache/memory.rs:83-136 | once a limit is set it decides the next reservation of the subject, whatever the default |
| `MemoryCaches.MemoryCache.DeleteSubject` | services/quota/src/cache/memory.rs:138-142 | usage, limit and mark of exactly the subject are gone |
| `MemoryCaches.MemoryCache.MarkDirty` | services/quota/src/cache/memory.rs:145-149 | exactly the given subjects are added to the marks |
| `MemoryCaches.MemoryCache.CollectDirty` | services/quota/src/cache/memory.rs:158 | exactly the marked subjects, each once |
| `MemoryCaches.MemoryCache.Unmark` | services/quota/src/cache/memory.rs:159-161 | exactly these marks are gone |
| `MemoryCaches.MemoryCache.ReadRows` | services/quota/src/cache/memory.rs:162-164 | exactly the current usages of the keys that have one, each once |
| `MemoryCaches.MemoryCache.SnapshotDirty` | services/quota/src/cache/memory.rs:157-165 | no mark is left; the rows are exactly the current usages of the marked subjects that have one, each subject once |
| `MemoryCaches.CheckIsRight` | services/quota/src/service/quota.rs:44-104 | what does not fit the user is refused with the user's reason, then what does not fit the bucket with the bucket's, and nothing else; a byte limit is reported as the user's or the bucket's, whichever it is |
| `MemoryCaches.QuotaService.ReserveBoth` | services/quota/src/service/quota.rs:61-104 | reserve, reserve, roll back: the answer, the usage of every subject and the marks afterwards, also when user and bucket are the same |
| `MemoryCaches.QuotaService.CheckQuota` | services/quota/src/service/quota.rs:44-104 | an empty subject is an error that changes nothing; otherwise the answer is right in the sense above, a grant is added to user and named bucket, a refusal by the user changes nothing, one by the bucket at most what adding and taking back changes in the user |
| `MemoryCaches.QuotaService.UpdateUsage` | services/quota/src/service/quota.rs:111-130 | the delta is applied to user and named bucket, both marked; an empty subject is an error that changes nothing |
| `MemoryCaches.RefusedByBucketIsNeutralIff` | services/quota/src/service/quota.rs:84-87 | a refusal by the bucket, in a call that is not interrupted, leaves every usage as it was if and only if the delta alone would not take a counter of the user below zero |
| `MemoryCaches.RollbackCanInflate` | services/quota/src/service/quota.rs:84-87 | a refused call after which a user with 5 bytes has 10 |
| `WriteBehind.AccessKeeps` | services/quota/src/cache/memory.rs:93-110 | the locked access keeps the invariant: the writer now owes a mark |
| `WriteBehind.MarkKeeps` | services/quota/src/cache/memory.rs:116-129 | the mark settles what the writer owed |
| `WriteBehind.BeginKeeps` | services/quota/src/cache/memory.rs:74-142 | starting a call keeps the invariant |
| `WriteBehind.ReadLimitKeeps` | services/quota/src/cache/memory.rs:80-87 | snapshotting a limit keeps the invariant: the snapshot was in force at some time |
| `WriteBehind.InsertLimitKeeps` | services/quota/src/cache/memory.rs:134-136 | replacing a limit keeps the invariant, whatever snapshots are around |
| `WriteBehindCalls.SetLimitDecides` | services/quota/src/cache/memory.rs:74-136 | over every run: once a limit has been set, and until it is set again or the subject deleted, every reservation that comes to read the limit is logged with it and granted if and only if it fits it, whatever its default |
| `WriteBehindCalls.ReservationUsesSnapshot` | services/quota/src/cache/memory.rs:80-110 | every reservation is decided by the limit that was set, or else the default, when it read it, whatever happened to the limit before it got to the entry |
| `WriteBehindCalls.FailureMarksAll` | services/quota/src/service/quota.rs:216-225 | whichever write of a flush fails, with or without effect, every subject of the snapshot is marked again |
| `WriteBehindCalls.CallsGoOn` | services/quota/src/cache/memory.rs:74-142 | at every moment of every run every call in flight can take its next step, with any outcome that Redis may have |
| `WriteBehindCalls.FlushGoesOn` | services/quota/src/service/quota.rs:208-234 | and so can the flush loop |
| `WriteBehind.CollectKeeps` | services/quota/src/cache/memory.rs:158 | collecting one marked key keeps the invariant |
| `WriteBehind.UnmarkKeeps` | services/quota/src/cache/memory.rs:159-161 | when a mark is removed, the flush loop owes the subject instead |
| `WriteBehind.ReadUsageKeeps` | services/quota/src/cache/memory.rs:162-164 | because reading follows unmarking, a row holds the current usage or somebody still owes the subject |
| `WriteBehind.StoreKeeps` | services/quota/src/repository/redis.rs:94-110 | a write that succeeds, or fails with or without effect, keeps the invariant |
| `WriteBehind.RemarkKeeps` | services/quota/src/service/quota.rs:216-225 | marking the rows of a failed flush again keeps the invariant |
| `WriteBehind.DeletionKeeps` | services/quota/src/service/quota.rs:175-181 | the steps of a deletion do not disturb any other subject |
| `WriteBehind.StepKeeps` | services/quota/src/cache/memory.rs:74-165 | every step of every handler and of the flush loop keeps the invariant |
| `WriteBehind.RunInv` | services/quota/src/app.rs:97-112 | the invariant holds at every moment of every run that starts with a load, whatever the load skipped |
| `WriteBehind.CoveredIff` | services/quota/src/repository/redis.rs:46-67 | the store's part of it covers exactly the subjects that got their stored usage and that nobody has asked to delete |
| `WriteBehind.RunMemory` | services/quota/src/cache/memory.rs:74-136 | memory's part of it covers every subject until somebody asks to delete it |
| `WriteBehindGuarantees.NoLostUpdate` | services/quota/src/cache/memory.rs:93-165 | for a subject that was loaded as stored and that nobody deletes: at every moment, stored usage equals usage in memory, or the subject is marked, or a writer owes its mark, or the flush owes its read, write or new mark |
| `WriteBehindLosses.UpdateOverwrites` | services/quota/src/repository/redis.rs:94-110 | from any start-up, one update and one flush without failure store what memory makes of the update, whatever was stored before |
| `WriteBehindLosses.MisloadedIsLost` | services/quota/src/repository/redis.rs:61 | every subject that was not loaded as stored has a run that ends at rest and in which Redis does not hold what it held plus the accesses since |
| `WriteBehindLosses.NeverLostIff` | services/quota/src/repository/redis.rs:46-67 | Redis holds, whenever the service rests in any run, what it held at the start plus all accesses since, if and only if the subject was loaded as stored |
| `WriteBehindLosses.SkippedUsageIsLost` | services/quota/src/repository/redis.rs:61 | 5 bytes stored, the entry skipped by the load, one update and one clean flush: 1 byte stored, and nothing left to repair it |
| `WriteBehindLosses.AsIfStep` | services/quota/src/cache/memory.rs:74-165 | no step can tell a misloaded subject from one that was loaded as stored, and the first write that reaches Redis ends the difference |
| `WriteBehindLosses.WrittenIsKept` | services/quota/src/cache/memory.rs:93-165 | once a write of a misloaded subject has reached Redis, none of its updates is lost, and Redis holds the usage after a prefix of its history |
| `WriteBehindGuarantees.QuietMeansPersisted` | services/quota/src/cache/memory.rs:153-156 | with nothing in flight and nothing marked, Redis holds every usage |
| `WriteBehindGuarantees.StepForward` | services/quota/src/repository/redis.rs:94-110 | no step shortens a subject's history or the prefix of it that is stored |
| `WriteBehindGuarantees.StoreMovesForward` | services/quota/src/repository/redis.rs:94-110 | for such a subject every stored value is the usage after a prefix of its one history, and later stores never hold a shorter prefix, also across flushes that failed half-way |
| `WriteBehindGuarantees.AccessesAreSerial` | services/quota/src/cache/memory.rs:91-110 | concurrent accesses to an entry, loaded as stored or not, have the effect of one sequence of checked accesses |
| `WriteBehindGuarantees.LimitsHold` | services/quota/src/cache/memory.rs:74-136 | in every interleaving with limit changes, usage is at most the largest limit that has been in force plus unchecked gains |
| `WriteBehindGuarantees.ConcurrentReservations` | services/quota/src/cache/memory.rs:74-120 | concurrent reservations under one limit are all granted if and only if their total fits, in whatever order they reach the entry |
| `WriteBehindGuarantees.NeverOverflows` | services/quota/src/cache/memory.rs:415-451 | in every reachable state of a subject whose attempts fit in 64 bits, no access has overflowed, the machine holds the exact usage, and it is not negative |
| `WriteBehindGuarantees.BooksBalance` | services/quota/src/domain/quota.rs:11-70 | in every interleaving of takings and returns, usage is the start plus what is outstanding |
| `WriteBehindGuarantees.RefusedCheckIsNeutralIff` | services/quota/src/service/quota.rs:44-104 | in every interleaving, a reservation that is taken back leaves the usage that the other accesses alone would have left, if and only if it leaves no trace in any dimension |
| `WriteBehindGuarantees.CleanFlushPersists` | services/quota/src/service/quota.rs:208-234 | a flush without failures and handlers leaves Redis equal to memory, memory unchanged and no mark |
| `WriteBehindCalls.ReservationAlone` | services/quota/src/cache/memory.rs:74-120 | the small steps of a reservation that is not interrupted are the reservation as one call, decided by the limit that is set, or else the default |
| `WriteBehindCalls.UpdateAlone` | services/quota/src/cache/memory.rs:124-130 | those of an update apply the delta and mark the subject, and change nothing else |
| `WriteBehindCalls.SetLimitAlone` | services/quota/src/cache/memory.rs:134-136 | those of a limit change set exactly that limit |
| `WriteBehindCalls.DeletionAlone` | services/quota/src/service/quota.rs:175-181 | those of a deletion take the subject's usage, limit, mark and stored entry, and nothing else |
| `WriteBehindGuarantees.GoneStays` | services/quota/src/service/quota.rs:175-181 | a deleted subject that no flush holds stays out of Redis until it is called for again |
| `WriteBehindGuarantees.DeletionHoldsIff` | services/quota/src/service/quota.rs:175-181 | a deleted subject can return without a call on it if and only if the flush in flight holds a row read before the deletion |
| `WriteBehindLosses.DeletedSubjectReturns` | services/quota/README.md:109-112 | a run in which a deleted subject ends up stored, with nothing left in memory or in flight to remove it |
| `RedisLayout.KeyRoundTripIff` | services/quota/src/repository/redis.rs:57 | a subject comes back from its key if and only if it does not start with the prefix |
| `RedisLayout.KeysAreDistinct` | services/quota/src/repository/redis.rs:57 | decoding tells the keys of two subjects without the prefix apart |
| `RedisLayout.PrefixedSubjectCollides` | services/quota/src/repository/redis.rs:81 | a subject and its prefixed form decode to the same name |
| `RedisLayout.ReadAfterPut` | services/quota/src/repository/redis.rs:173-205 | a hash written is read back as it was, and no other subject or family is affected |
| `RedisRepositories.UsageHash` | services/quota/src/repository/redis.rs:173-188 | under quota:usage: and the subject, the fields bytes, objects and buckets are the counters; a missing one is zero, and none of them no entry |
| `RedisRepositories.LimitHash` | services/quota/src/repository/redis.rs:190-205 | under quota:limit: and the subject, the fields bytes_limit, objects_limit and buckets_limit are the limits; a missing one is -1, and none of them no entry |
| `RedisRepositories.UsageWritten` | services/quota/src/repository/redis.rs:94-110 | a usage is written to exactly these fields of exactly this key |
| `RedisRepositories.LimitWritten` | services/quota/src/repository/redis.rs:113-129 | and a limit to its fields |
| `RedisLayout.PutAllEncodes` | services/quota/src/repository/redis.rs:94-129 | writing rows changes the stored table by exactly these rows and leaves the other family alone |
| `RedisLayout.DropEncodes` | services/quota/src/repository/redis.rs:138-146 | deleting a subject takes exactly its record out of the stored table, in both families |
| `RedisLayout.LoadRebuildsIff` | services/quota/src/repository/redis.rs:46-91 | a load rebuilds the stored table if and only if no stored subject starts with the prefix and each was scanned and read at least once; order and repetition of the scan do not matter |
| `RedisLayout.LoadedIff` | services/quota/src/repository/redis.rs:46-91 | one subject gets its stored record if and only if it has one, does not start with the prefix and was scanned and read, whatever became of the others |
| `RedisLayout.LastReadWins` | services/quota/src/repository/redis.rs:53-63 | of stored subjects that decode to one name, the one read last wins |
| `RedisRepositories.RedisRepository.Flush` | services/quota/src/repository/redis.rs:94-129 | the rows before the first failure are written, the failing one possibly, no later one; success means all are |
| `RedisRepositories.RedisRepository.DeleteSubject` | services/quota/src/repository/redis.rs:138-146 | both hashes of the subject go, unless the one command fails without effect |
| `RedisRepositories.RedisRepository.LoadAll` | services/quota/src/repository/redis.rs:46-91 | one row per scanned key that has a record and is read without failure, in the order of the scan |
| `RedisRepositories.LoadFromStorage` | services/quota/src/service/quota.rs:191-203 | a failed scan leaves the cache as it was; otherwise both tables receive their rows, and nothing is marked |
| `Restart.Serve` | services/quota/src/cache/memory.rs:58-136 | serving requests by the cache's own operations gives the replies and the tables of the functions that the restart law speaks of |
| `Restart.SameReplies` | services/quota/src/cache/memory.rs:102-110 | caches that agree on usage and limit of all subjects but some, up to zero entries, give the same replies to every sequence of requests that spares those |
| `Restart.ServeBoth` | services/quota/src/cache/memory.rs:58-136 | two such caches, asked through their own operations, answer alike |
| `Restart.StepHashes` | services/quota/src/repository/redis.rs:94-146 | every step of a run, with any outcome of a write or a deletion, keeps the hashes an encoding of the stored usage |
| `Restart.HashesHoldTheStore` | services/quota/src/repository/redis.rs:94-146 | at every moment of every run the usage hashes hold exactly the stored table, whatever happens to the limit hashes |
| `Restart.UsageReloaded` | services/quota/src/repository/redis.rs:46-67 | loading usage into an empty cache gives exactly the stored table |
| `Restart.UsageLoadedIff` | services/quota/src/service/quota.rs:191-203 | a load gives a subject its stored usage if and only if that is nothing, or its key was scanned and read and it does not start with the prefix |
| `Restart.KeptAfterLoadIff` | services/quota/src/app.rs:97-112 | after a start-up load, nothing of a subject is lost in any run if and only if that holds |
| `Restart.LimitsReloaded` | services/quota/src/repository/redis.rs:70-91 | loading limits into an empty cache gives exactly the stored table |
| `Restart.RestartIsInvisible` | services/quota/src/app.rs:97 | after any run that ends with a clean flush, a load gives a subject the usage and limit it had, and every later sequence of requests on such subjects gets the replies of the uninterrupted cache; this for each subject that was loaded as stored, that nobody deletes, whose limit is persisted and whose keys are read and decode to it alone, whatever becomes of the others |
| `LimitWriteThrough.LastWriteWins` | services/quota/src/service/quota.rs:143-181 | at the end of any path the copies agree if and only if the last write that reached Redis carries the cached limit or, if none did, the limit stored all along is the cached one |
| `LimitWriteThrough.SettledStep` | services/quota/src/service/quota.rs:143-181 | no step of a call in flight, with any outcome, unsettles a settled subject |
| `LimitWriteThrough.OddOneOut` | services/quota/src/service/quota.rs:143-181 | a call that carries something else than Redis holds can leave the copies apart for good |
| `LimitWriteThrough.AgreesInTheEndIff` | services/quota/src/service/quota.rs:143-181 | under every order of the calls in flight (set, delete, look up, at any point) and every outcome of their commands the copies end in agreement, if and only if each call carries what Redis holds and the cache holds it too or is about to be written |
| `LimitAgreement.HeadingStep` | services/quota/src/service/quota.rs:143-181 | if all calls in flight lead to one value, no step that succeeds changes that |
| `LimitAgreement.TwoDiffer` | services/quota/src/service/quota.rs:143-181 | two calls that carry different limits can leave the copies apart even if nothing fails |
| `LimitAgreement.FetchedBack` | services/quota/src/service/quota.rs:143-181 | a look-up that can still read the stored limit can bring it back over what a writer sets |
| `LimitAgreement.AgreesIfNoneFailsIff` | services/quota/src/service/quota.rs:143-181 | when no command fails, the copies end in agreement under every order if and only if all calls carry one value, Redis has it or a writer brings it with no look-up able to bring back another, and the cache has it or is bound to get it |
| `LimitWriteThrough.TurnsKeepAgreement` | services/quota/src/service/quota.rs:143-181 | if calls on a subject take turns and their writes take effect, the copies agree whenever none is in flight; only a limit skipped by the load may be missing from the cache |
| `LimitWriteThrough.WritesAlone` | services/quota/src/service/quota.rs:143-181 | alone and without failure, SetQuota leaves the limit in both copies and DeleteSubject in neither |
| `LimitWriteThrough.LookUpAlone` | services/quota/src/service/quota.rs:158-169 | GetQuota alone leaves a cached limit alone, and otherwise caches what Redis has |
| `LimitWriteThrough.FailedWriteDisagrees` | services/quota/README.md:95-96 | a single SetQuota whose write fails leaves the new limit in the cache, none in Redis and nobody to retry |
| `LimitWriteThrough.OverlapCanDisagree` | services/quota/src/service/quota.rs:143-154 | two successful calls that leave the first limit in Redis and the second in the cache |
| `LimitWriteThrough.FallBackCanRevert` | services/quota/src/service/quota.rs:158-169 | a GetQuota that puts the former limit back into the cache over a limit set meanwhile |
| `DecisionKeys.KeyIs` | services/authz/internal/repositories/cache/redis_cache.py:17-19 | the key of every query, literally |
| `DecisionKeys.UnambiguousIsAlone` | services/authz/internal/repositories/cache/redis_cache.py:17-19 | no other query shares the key of a query whose key holds a verb between colons in one place only |
| `DecisionKeys.SharedKeyIff` | services/authz/internal/repositories/cache/redis_cache.py:17-19 | another query shares a query's key if and only if the key is ambiguous in this sense |
| `DecisionKeys.ColonsCollide` | services/authz/internal/repositories/cache/redis_cache.py:17-19 | two queries with one key: the object of one reads like the end of the other's subject |
| `DecisionKeys.EqualColonsNeverCollide` | services/authz/README.md:91-98 | queries whose subjects have equally many colons, as the documented identifiers have one, never share a key |
| `DecisionCaching.LookupOk` | services/authz/internal/permission/service.py:77-82 | a cache hit carries a recent decision about a query with the same key |
| `DecisionCaching.FreshRun` | services/authz/internal/permission/service.py:68-106 | in every interleaving, every entry, call and answer carries a decision the graph gave, at a bounded distance, to a query with the same key |
| `DecisionCaching.AnswersAreFresh` | services/authz/internal/permission/service.py:77-106 | every answer to a query with an unambiguous key is the graph's decision at some instant less than 30 s plus the slowest query-to-cache delay before the lookup, or later |
| `DecisionCaching.HitOrMiss` | services/authz/internal/permission/service.py:77-112 | a check that missed the cache answers what the graph decided about its own query at or after the lookup, whatever its key; one that says it hit the cache, what the graph had decided by then about a query with its key |
| `DecisionCaching.ServedAnothersDecision` | services/authz/internal/permission/service.py:80-82 | for any two queries with one key, a run in which one is answered with a decision the graph never gave it |
| `DecisionCaching.AlwaysFreshIff` | services/authz/internal/permission/service.py:77-106 | answers to a query are that fresh in every run if and only if its key is unambiguous |
| `DecisionCaching.AlikeAnswersAreFresh` | services/authz/internal/permission/service.py:77-106 | if all checks name subjects with equally many colons, every answer is that fresh |
| `DecisionCaching.AnswersConverge` | services/authz/internal/permission/service.py:77-106 | once the graph has been stable for that long, every check gets its decision, if its key is unambiguous or all checks are alike |
| `DecisionCaching.BoundIsTight` | services/authz/internal/permission/service.py:106 | for every margin there is a run with an answer that old less the margin, so the bound cannot be improved |
| `DecisionCaching.ChecksAuditedOnce` | services/authz/internal/permission/service.py:124-128 | a completed check has exactly one decision event, with the value it returned |
| `DecisionCaching.DecisionEventsAreTheReturned` | services/authz/internal/permission/service.py:124-128 | when all calls have completed, every decision event belongs to a check and carries what it returned |
| `DecisionCaching.MutationsAuditedOnce` | services/authz/internal/permission/service.py:28-40 | a completed mutation has exactly one tuple event with the recorded time if the store recorded it, else none |
| `DecisionCaching.TupleEventsAreTheRecorded` | services/authz/internal/permission/service.py:28-54 | when all calls have completed, the tuple events are, as a multiset, the mutations the store reported as recorded |
| `DeckLists.SlidesOfRemoveAt` | presentation/deck-stage.js:974-980 | taking a slide out of the children and filtering again takes it out of the slide list |
| `DeckLists.MoveTarget` | presentation/deck-stage.js:1666 | the reference child puts the moved node at the target's place among the children |
| `DeckLists.MoveMovesSlide` | presentation/deck-stage.js:1663-1675 | among arbitrary other nodes, insertBefore with that reference, filtered again, is the slide list with element i moved to j; no node is lost or duplicated |
| `DeckLists.MovedIs` | presentation/deck-stage.js:1663-1678 | the moved slide is where it was moved to, and the others keep their order |
| `Rails.PlaceNext` | presentation/deck-stage.js:1325-1327 | inserting the wanted thumb before the child in its place extends the ordered part and keeps the set of children |
| `Rails.Rail.BySlide` | presentation/deck-stage.js:1307-1308 | the index holds every entry under its slide |
| `Rails.Rail.Match` | presentation/deck-stage.js:1309-1315 | slides keep their thumb or get a new one, no thumb serves two slides, and exactly the entries of missing slides are orphans |
| `Rails.Rail.RemoveOrphans` | presentation/deck-stage.js:1317-1320 | only thumbs of the new entries stay in the rail |
| `Rails.Rail.Place` | presentation/deck-stage.js:1325-1327 | position i holds the wanted thumb, earlier positions are unchanged, and the other children are the same |
| `Rails.Rail.Order` | presentation/deck-stage.js:1324-1332 | the children become exactly the thumbs in order; positions and skip marks are right |
| `Rails.Rail.Render` | presentation/deck-stage.js:1305-1333 | for any old rail and any distinct slides: children and entries are those of the slides in order, surviving slides keep their thumb, orphans are gone, no duplicates, positions and skip marks right |
| `DeckOps.MoveKeepsActive` | presentation/deck-stage.js:1669-1672 | the recomputed index is in range and points at the same slide |
| `DeckOps.DeleteKeepsActive` | presentation/deck-stage.js:1629-1630 | deleting another slide keeps the active one; deleting the active one activates the next, or the previous at the end |
| `DeckOps.NeighbourTakesOver` | presentation/deck-stage.js:1629-1630 | the next slide takes the place of a deleted active one, or the previous one if there is no next |
| `DeckOps.DropFillsGap` | presentation/deck-stage.js:1424-1430 | the drop arithmetic is in range and puts the slide into the targeted gap, the others keeping their order |
| `DeckOps.StepBack` | presentation/deck-stage.js:1274-1282 | from a shown slide, a step that goes somewhere is undone by the opposite step, for any skip pattern |
| `DeckOps.StaleSpoilsIff` | presentation/deck-stage.js:1669-1672 | a failed move of a missing slide leaves the index of a valid deck right if and only if it aims beyond the active slide |
| `DeckOps.DeletionKeepsPositionIff` | presentation/deck-stage.js:1402-1404 | after a deletion the dragged position holds the same slide if and only if it lies before the deleted one |
| `DeckOps.MoveKeepsPositionIff` | presentation/deck-stage.js:1402-1404 | after a move it does if and only if it lies outside the stretch that was moved |
| `DeckOps.ShapeStep` | presentation/deck-stage.js:1260-1678 | an operation leaves some slide active and at least one slide, and removes at most the one it deletes |
| `DeckOps.GoesToNearest` | presentation/deck-stage.js:1262 | going somewhere ends at the position asked for, at 0 below it and at the last slide above |
| `DeckOps.NearestIs` | presentation/deck-stage.js:1276-1279 | everything the search passes is skipped, and what it ends on in the deck is not |
| `DeckOps.SkipTwice` | presentation/deck-stage.js:1638-1645 | skipping flips the mark of its slide and no other, so twice changes nothing |
| `DeckOps.InStepIff` | presentation/deck-stage.js:1260-1678 | from a deck whose active slide is the indexed one, an operation leaves it so if and only if it does not move a missing slide to the active position or before it |
| `DeckOps.ApplyingRepairs` | presentation/deck-stage.js:1260-1678 | however far off the index is, an operation that sets the active slide brings it back |
| `DeckOps.StaysInStep` | presentation/deck-stage.js:1260-1678 | after any sequence in which no operation moves a slide that is missing by then, the active slide is the indexed one |
| `DeckStages.DeckStage.constructor` | presentation/deck-stage.js:968-971 | a collected deck with the index taken from the location hash is valid |
| `DeckStages.DeckStage.RestoreIndex` | presentation/deck-stage.js:1040-1049 | a one-based hash within range selects the slide, anything else leaves the index |
| `DeckStages.DeckStage.ReadSlides` | presentation/deck-stage.js:975-980 | the filter loop gives the slides among the children, in their order |
| `DeckStages.DeckStage.CollectSlides` | presentation/deck-stage.js:974-1014 | the slides are the filtered children, the index is clamped, last-visible mark and rail are up to date, thumbs reused |
| `DeckStages.DeckStage.MarkLastVisible` | presentation/deck-stage.js:1019-1026 | exactly the last slide that is not skipped is marked |
| `DeckStages.DeckStage.ApplyIndex` | presentation/deck-stage.js:1051-1062 | exactly the slide at the index is active |
| `DeckStages.DeckStage.Refresh` | presentation/deck-stage.js:1676-1677 | after any change of the children everything is in step again, the index clamped |
| `DeckStages.DeckStage.GoTo` | presentation/deck-stage.js:1260-1269 | the index is the position asked for, 0 below it or the last slide above, and its slide active, unless the index was that position already |
| `DeckStages.DeckStage.SkipPast` | presentation/deck-stage.js:1276-1279 | the search ends; everything it passed is skipped, and what it found is not |
| `DeckStages.DeckStage.AdvanceBy` | presentation/deck-stage.js:1274-1282 | it lands on the nearest slide in its direction that is not skipped, or stays if there is none |
| `DeckStages.DeckStage.FollowActive` | presentation/deck-stage.js:1669-1672 | the index becomes the one at which the active slide will be |
| `DeckStages.DeckStage.Reinsert` | presentation/deck-stage.js:1665-1674 | the children's slides are the list move, and the index follows the active slide |
| `DeckStages.DeckStage.MoveSlide` | presentation/deck-stage.js:1663-1678 | the slide list is the list move, the children are a permutation, the same slide is active, the deck valid; targets out of range are ignored; it fails if and only if the slide is gone and the target is not, and then changes only the index |
| `DeckStages.DeckStage.TakeOut` | presentation/deck-stage.js:1629-1632 | exactly the slide leaves the children, and the index is adjusted |
| `DeckStages.DeckStage.DeleteSlide` | presentation/deck-stage.js:1626-1636 | exactly the slide is gone, unless it is the only one or missing; the active slide is as above; the deck never empties |
| `DeckStages.DeckStage.ToggleSkip` | presentation/deck-stage.js:1638-1653 | the slide's skip mark flips, on its thumb too, and the last-visible mark follows |
| `DeckStages.DeckStage.MoveDropped` | presentation/deck-stage.js:1430 | the slide at the dragged position ends in the gap, also when it stays where it is |
| `DeckStages.DeckStage.DropOn` | presentation/deck-stage.js:1420-1431 | the slide that is at the dragged position when the drop comes ends in the targeted gap, the children are a permutation, the same slide is active |
| `DeckStages.DeckStage.DropStale` | presentation/deck-stage.js:1420-1431 | a drop from a position that has no slide any more moves nothing, and changes the index as the move would have |
| `DeckStages.DeckStage.Act` | presentation/deck-stage.js:1260-1678 | one operation on any sound deck does to slides, skip marks, index and active slide what its functions say |
| `DeckStages.DeckStage.Do` | presentation/deck-stage.js:1260-1678 | it fails exactly if it moves a missing slide to an existing place; the deck is valid afterwards exactly if index and active slide coincide then; from a valid deck, exactly if it was not such a move to the active position or before it |
| `DeckStages.DeckStage.DoAll` | presentation/deck-stage.js:1260-1678 | a sequence of operations, on any sound deck, makes of it what the functions say |
| `DeckStages.DeckStage.Perform` | presentation/deck-stage.js:1260-1678 | after any sequence of go, advance, move, delete, skip and drop: slides, skip marks, index and the one active slide are those the functions give, last-visible mark right, rail in step, deck not empty; exactly which operations fail; the index is that of the active slide if and only if the functions say so, in particular if no operation moves a missing slide |
| `DeckStages.StaleDragLosesIndex` | presentation/deck-stage.js:1626-1678 | a slide deleted while dragged and then dropped: the index is 2 in a deck of two |
| `Upstreams.NextNameIsNew` | services/gateway/internal/testkit/upstream.go:234-238 | the next blob name is used by no commit and no seed, so a commit overwrites nothing |
| `Upstreams.BlobNameIs` | services/gateway/internal/testkit/upstream.go:236 | a blob's name is blob- and its number in decimal digits |
| `Upstreams.BlobsAreStable` | services/gateway/internal/testkit/upstream.go:46-240 | over every interleaving of seeds, uploads and publications, every published version resolves, no blob disappears, and a blob's bytes change only if its key is seeded again |
| `Upstreams.VersionStays` | services/gateway/internal/testkit/upstream.go:174-180 | a key keeps its version until it is published or seeded again |
| `Upstreams.UploadIsReadable` | services/gateway/internal/testkit/upstream.go:165-264 | after upload and publication, and no later publication or seed of the key, look-up and retrieval give the uploaded bytes in non-empty pieces of at most 1048576 bytes, all but the last full |
| `Upstreams.SeedIsReadable` | services/gateway/internal/testkit/upstream.go:80-86 | after a seed, and no later publication or seed of the key, look-up gives the size of the seeded bytes and leads to them, and retrieval joins to them |
| `Upstreams.UploadAndRead` | services/gateway/internal/testkit/upstream.go:165-264 | an object sent in any pieces, published, looked up and retrieved through the calls themselves comes back as the joined pieces |
| `Upstreams.ChunksJoin` | services/gateway/internal/testkit/upstream.go:252-262 | the pieces join to the data; none is empty, all but the last are full |
| `Upstreams.Upstream.Seed` | services/gateway/internal/testkit/upstream.go:80-86 | blob and version are registered, and everything still resolves |
| `Upstreams.Upstream.CreateObjectVersion` | services/gateway/internal/testkit/upstream.go:165-182 | a version is published if and only if no hook fails and its blob exists; otherwise nothing changes |
| `Upstreams.Upstream.GetObjectMeta` | services/gateway/internal/testkit/upstream.go:184-194 | the published version or not found; a version found has its blob |
| `Upstreams.Upstream.StoreObject` | services/gateway/internal/testkit/upstream.go:201-240 | success if and only if header, stream, declared size and hooks are good; then the concatenated chunks are committed under a new name, and name and checksum returned; otherwise the first reason is reported and nothing changes |
| `Upstreams.Upstream.Receive` | services/gateway/internal/testkit/upstream.go:212-225 | the buffer is the concatenation of the chunks |
| `Upstreams.Upstream.RetrieveObject` | services/gateway/internal/testkit/upstream.go:242-264 | what is sent is the blob's pieces, or as many of them as got through before a hook or the stream failed, with that error; a retrieval error comes after the last piece |
| `Payloads.Payload.Read` | services/gateway/cmd/smoke/main.go:160-171 | the buffer receives the next bytes of the seed's stream, as many as fit and remain, and is otherwise unchanged; the end is reported if and only if nothing remained |
| `Payloads.ReadAll` | services/gateway/cmd/smoke/main.go:160-171 | for every sequence of buffer sizes the output is a prefix of the one stream whose byte k is (k mod 251 + seed) mod 256, its length the sum of the sizes up to the payload's size; the end is reported exactly to the reads after the last byte |

## Left out

- The usage entry is a value, not an object: the source copies it in and out of its map, and nothing else holds a reference to it.
- Integers are unbounded; `NoOverflow`, `MachineReplayIsExact` and `NeverOverflows` say when the source's 64-bit arithmetic gives the same results, and nothing is said about runs beyond that.
- NoLostUpdate: and the other theorems over runs speak of subjects that nobody has asked to delete; `DeletionHoldsIff` says exactly what a deletion guarantees. A subject that was deleted once and is used again stays outside these theorems. A misloaded subject is outside those about the store until it is written again (`WrittenIsKept`).
- KeptAfterLoadIff: speaks of subjects that share their decoded name with no other stored subject; among those that do, `LastReadWins` says which one the load takes.
- RestartIsInvisible: takes for granted that the limits of these subjects are persisted, because they are written on another path; `AgreesInTheEndIff` says exactly when calls in flight are bound to persist them.
- RefusedCheckIsNeutralIff: takes the outcomes of the other reservations as they were; a reservation that was refused because of the amount held is not granted in retrospect.
- A Redis command that takes effect after its call has reported a failure and a later command has been sent.
- Health probes, metrics, tracing, logging and the gRPC mapping of the quota service.
- The repository's usage and limit methods have the same code for different fields; they are modelled once, with the family as a parameter.
- The graph's decision is one instant, although the graph store may send more than one query for it; permission paths and levels are not modelled. The invalidator that listens to Kafka is covered by evictions at any time.
- The reason text of an authorization check, `read_tuples` and the health check.
- In the deck: labels, counters, notes, messages, events, animation, scaling, the asynchronous slot change and a disabled rail.
- In the gateway fakes: `HeadBucket`, `OnChunk`, `Stats` and the wiring of listeners and clients. Errors of hooks and streams, and the MD5 function, are inputs.
- In the smoke payload: 64-bit wrap-around of the offset, which no payload reaches.
