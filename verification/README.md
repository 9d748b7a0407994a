# Daikon: a model of the key-value store and proofs about it

Daikon is a Redis-like key-value store: an in-memory map with an LRU order, a memory counter, expiry and
MULTI/EXEC; a write-ahead log that a restart, a point-in-time recovery and replicas read; a Pub/Sub engine;
and HyperLogLog sketches. This project models those parts in Dafny and proves what they keep over every
run. `dafny verify dfyconfig.toml` checks all of it.

## How the model is laid out

| file | contents |
|---|---|
| `Basics.dfy`, `Decimal.dfy` | option and result types, UTF-8 byte lengths, sums over maps, decimal printing and parsing |
| `StoreModel.dfy` | the state of the store engine as a value, and the effect of every command on it |
| `KvStore.dfy` | the store engine as an object: the same commands as methods that change its fields, with their loops and their keyspace events; each method is proved against the function of its name in `StoreModel` |
| `LruOrder.dfy` | the order against the history of touches; what eviction removes |
| `MemoryLedger.dfy` | the memory counter against the bytes really held |
| `Transactions.dfy` | MULTI, EXEC and DISCARD against the same writes done directly; what evictions drop |
| `Expiry.dfy`, `Glob.dfy` | reads at a time, clean-up, the pattern matcher behind KEYS |
| `HyperLogLog.dfy`, `SketchCommands.dfy`, `HashCounters.dfy` | bit arithmetic and meaning of sketches, PFADD and PFMERGE, HINCRBY |
| `CommandLaws.dfy`, `CommandMeanings.dfy` | how commands undo and add up to each other; what each command answers, refuses and leaves to be read |
| `EventMeanings.dfy`, `Statistics.dfy` | keyspace events and statistics counters against what was done to the keys |
| `Wal.dfy`, `LogFile.dfy` | log entries and the commands they stand for; the log as a file whose writes can stop half way |
| `EntryMeanings.dfy` | what each of the 19 log operations stands for, for handlers, start-up replay, replicas and recovery alike |
| `Refusals.dfy` | when a command changes nothing, and how long a refusal lasts |
| `Recovery.dfy`, `ConcurrentHandlers.dfy`, `SecondReplay.dfy` | handlers, crashes and start-up replay; handlers that run at once; replay over a saved store |
| `Pitr.dfy`, `SnapshotNames.dfy` | point-in-time recovery; snapshot file names |
| `Replication.dfy`, `ReplicationFailures.dfy` | one master, one replica: appends, syncs that finish or fail half way, clean-ups, restarts; where replication stops, when it catches up and what restarts repeat |
| `PubSub.dfy`, `PubSubThreads.dfy` | the engine as an object; the same operations cut into steps of many threads over two locks |

Conventions. The clock is a parameter, in whole seconds. Integers are unbounded except where their width
matters: hashes, snapshot times and expiry times are below 2^64, shifts wrap explicitly, subtraction from
the counters stops at zero, hash fields parse as signed 64-bit decimals. Strings are sequences of Unicode
characters and are measured in UTF-8 bytes, as `String::len` does. JSON encoding, display text and the
string hash are parameters (`Wal.Codec`); a lemma that needs decoding to invert encoding says so.
Where the source iterates a hash map, the method picks keys in an arbitrary order and the contract holds for
every order.

## Main results

- **Replication.** For any master log, duplicate timestamps included, a replica's log is always the
  first-entry-per-timestamp filter of a prefix of the master's (`ReplicaIsFilteredPrefix`). With distinct
  timestamps it is a prefix under every interleaving of appends, syncs, failed syncs and restarts
  (`ReplicaIsPrefix`); a sync of a lagging replica progresses exactly when its log can be written and its
  store does not refuse the next entry (`SyncProgressesExactlyWhen`), and enough progress makes the logs
  equal (`CatchesUp`; with duplicates, `CatchesUpExactlyWhen`). The store is the fold of what was tried and, when failures are clean, of what was
  kept (`StoreFoldsLog`). Each entry is carried out as what it stands for
  (`SyncDoesEntries`, `EntryMeanings.EntryIsDone`), and the reported lag is what is missing, up to the entries
  that the index has not passed yet (`SyncMirrors`).
- **Store engine.** Over every run of 23 kinds of commands, the LRU order is the keys by last touch and
  covers every live key (`RunKeepsIndexed`), the memory ledger balances (`RunBalances`), the statistics count
  what was done (`RunIsCounted`), and eviction removes exactly the shortest sufficient prefix
  (`EvictionIsShortestPrefix`).
- **Transactions.** A queued run and the direct run leave the same entries, order and write count exactly
  when every key that the direct run's evictions drop is set again later (`TransactionEquivalence`).
- **Durability.** Start-up replay succeeds exactly when every logged SET is acceptable, and then gives the
  store that the pending request would have left, for any row of crashes and restarts (`CrashRecovery`).
  With handlers that run at once it gives the same entries, as long as requests on one key are applied in
  log order (`ConcurrentCrashRecovery`). Point-in-time recovery gives each key its last effective write
  before the cut (`RecoveryMeaning`).
- **Pub/Sub.** Under every interleaving of threads, each id is listed as often as it was subscribed since it was
  last taken off (`ListedAsSubscribed`), a publish that is over has delivered to each subscriber as often as it
  was subscribed when the list was copied (`PublishReachesSubscribers`), listed ids have queues, no list stays
  empty, every message is accounted for, and no state is deadlocked.
- **Sketches.** Registers depend only on the set of values; merging is union; the rank is the position of the
  first one bit.

## What the proofs show about the code

Where the code and its own comments disagree, the model follows the code. Each point below rests on the lemmas
it names.

- The comment on `sync` promises idempotency by timestamp (src/replication.rs:220-226), but timestamps are
  whole seconds: entries of one second after the first are skipped as duplicates, and once a full batch has
  nothing new the replica never advances again (`ReplicationFailures.BurstWithinOneSecondSticks`,
  `ReplicationFailures.StuckForever`, with the exact conditions in
  `ReplicationFailures.SyncAdvancesExactlyWhen` and `ReplicationFailures.CatchesUpExactlyWhen`).
- The comment on seeding the index says that restarts are idempotent (src/replication.rs:201). They are when
  the local log is a prefix of the master's; otherwise some entry is applied twice
  (`ReplicationFailures.RestartRepeatsThird`, with the condition in
  `ReplicationFailures.RestartRepeatsExactlyWhen`).
- The master logs before it applies, so it also logs what it refuses. A replica stops at an entry that its
  store refuses and whose error is passed on (`ReplicationFailures.RefusedIncrBlocks`, with the exact condition
  in `ReplicationFailures.SyncProgressesExactlyWhen`). It stays there until a restart, exactly unless a clean-up
  of expired keys makes an APPEND acceptable (`ReplicationFailures.BlockedExactlyWhile`,
  `Refusals.RefusalOutlastsCleanUpExactlyWhen`).
- The replica changes its store before it appends to its log; when that append fails, the next sync applies
  the entry again (`Replication.UnloggedAppendIsDoneTwice`, with the exact condition under which a failed
  sync leaves no mark in `ReplicationFailures.FailedSyncIsCleanExactlyWhen`).
- An MSET that is refused after its first pair keeps what it wrote before
  (`Refusals.RefusedChangesNothingExactlyWhen`).
- A SET that the store refuses is logged all the same and then makes start-up replay fail as a whole; this is
  the condition in `Recovery.CrashRecovery`.
- GETSET and MSET log raw text where replay expects JSON, and pipeline SET does the same
  (src/api.rs:1377-1388): replay passes such an entry over (`Recovery.RawWritesAreLost`, with the exact
  conditions in `Recovery.RawWriteReplaysExactlyWhen` and `Recovery.RawMsetReplaysExactlyWhen`).
- A SET with a TTL logs the TTL and not the time at which it ends, so replay counts it from the replay
  (`Recovery.TtlSetReplaysExactlyWhen`).
- The log is written outside the store's lock, so two writes can be applied in the other order than logged
  (`ConcurrentHandlers.OvertakingSetsDivergeExactlyWhen`; for counters, APPEND and pushes,
  `ConcurrentHandlers.OvertakingPairDivergesExactlyWhen`).
- A log write that stops inside its line takes the next entry with it, although that one was acknowledged. When
  it stops inside a character or inside a ciphertext, the whole log cannot be read any more, and with it neither
  start-up nor a pull works (`LogFiles.ReadBackExactlyWhen`, `LogFiles.ReadingMeaning`,
  `LogFiles.PlainLogIsReadableExactlyWhen`).
- `Wal::clear` says it is called after a snapshot, but no start-up or save path calls it; a restart from a
  saved store applies the log once more (`SecondReplay.SavedStoreAppendsTwice`). That is harmless for every
  key that the log sets or deletes anywhere (`SecondReplay.RebuiltKeyIsKept`); the exact conditions for
  the others are in `SecondReplay.InPlaceKeyIsKeptExactlyWhen` (counters and texts),
  `SecondReplay.PushedListIsKeptExactlyWhen`, `SecondReplay.FieldsAreKept` and, for single requests,
  `SecondReplay.RepeatIsHarmlessExactlyWhen`.
- Replicas and point-in-time recovery store the logged JSON text of a SET undecoded
  (`Pitr.RecoveredSetHoldsEncoding`).
- Point-in-time recovery stops at the first later entry, which is the right cut exactly when no entry not
  after the target stands behind it (`Pitr.ClockStepLosesEntry`, `Pitr.PrefixIsNotAfterExactlyWhen`).
- A store recovered from a snapshot has an empty LRU order and the default configuration, so a key of the
  snapshot is not evicted until it is written again (`Pitr.UnorderedKeySurvivesEviction`,
  `Pitr.SnapshotKeysAreNotEvicted`); the first key written is evicted instead, exactly when it does not fit
  beside the saved counter (`Pitr.FirstSetSurvivesExactlyWhen`).
- Snapshot names carry nanoseconds and log entries seconds (src/pitr.rs:124-127, src/wal.rs:78-81), and recovery
  compares both with one target. A target in seconds finds no snapshot (`Pitr.SecondsReachNoSnapshot`,
  `Pitr.NoSnapshotInReach`); recovery to the latest snapshot, whose target is in nanoseconds, replays the whole
  log on top of it (`Pitr.WholeLogExactlyWhen`, `Pitr.LatestSnapshotReplaysAll`), which keeps the snapshot's
  entries exactly when the log's last writes are what the snapshot holds
  (`Pitr.LatestSnapshotIsKeptExactlyWhen`).
- EXEC neither charges nor evicts (`Transactions.ExecNeverCharges`), so entries and order can differ from the
  direct run's (`Transactions.EvictionBreaksEquivalence`, with the exact condition in
  `Transactions.TransactionEquivalence`). It also leaves the memory counter and the key count alone, emits no
  keyspace events, and counts a delete of a missing key.
- Readers treat a key as expired when `now > exp`, clean-up when `now >= exp` (`Expiry.ReaderAndCleanupDisagree`,
  with the exact condition in `Expiry.CleanupVisibleExactlyWhen`).
- The comment in `subscribe` says "if not already subscribed" (src/pubsub.rs:92), but an id is listed once more
  on every call (`PubSubs.PubSub.Subscribe`) and is then delivered a message that many times
  (`PubSubThreads.InterleavedPushes`). The number that publish returns is the number of receivers exactly when
  no id is listed twice (`PubSubThreads.CountIsReceiversExactlyWhen`).

## Model

| member | source | states |
|---|---|---|
| Replication.ReplicationReplica.constructor | src/replication.rs:180-218 | a started replica takes the length of its local log as the index and remembers no timestamp |
| Replication.ReplicationReplica.ApplyWalEntry | src/replication.rs:427-506 | the store does what the entry stands for, spelt out for the 19 operations; the local log grows by the entry exactly when it is none of the entries at which a replica stops and the append works |
| Replication.ReplicationReplica.Sync | src/replication.rs:227-326 | store, log, index, timestamps, lag, success and the commands run are those of the batch specification, for an append failure at any entry |
| Replication.BatchesAddUp | src/replication.rs:109-119 | batch after batch, each from where the last one ended, makes up the log from any index, without gap or overlap |
| Replication.BatchGuardIsRedundant | src/replication.rs:264-275 | dropping the guard against duplicates within a batch never changes the outcome |
| Replication.ReplicaIsFilteredPrefix | src/replication.rs:227-326 | for any log and any mix of appends, syncs, failed syncs and clean-ups: the local log is the first-per-timestamp filter of a prefix, and index <= applied <= prefix length |
| Replication.LifetimeIsFiltered | src/replication.rs:201-326 | in any process lifetime, after restarts too: the local log is the one at the start followed by the filter of a stretch of the master's log that begins at its length |
| Replication.SyncKeepsFiltered | src/replication.rs:264-308 | one sync never shrinks that stretch; a successful one extends it to the end of its batch, moves the index by what it applied, and reports a lag of exactly the entries beyond the new index |
| Replication.ReplicaIsPrefix | src/replication.rs:201-217 | with distinct timestamps, under every interleaving of appends, syncs, failed syncs, clean-ups and restarts, the local log is a prefix of the master's and at most 99 ahead of the index |
| Replication.SyncMirrors | src/replication.rs:264-308 | one sync keeps that invariant, applies something when it succeeds and something was missing, and reports the number of missing entries, or up to 99 more |
| Replication.CatchesUp | src/replication.rs:389-393 | as many successful syncs as there are missing entries make the replica's log equal to a quiescent master's |
| Replication.StoreFoldsLog | src/replication.rs:427-506 | within one process lifetime the store is the fold of the entries tried and the clean-ups onto the start store, the log grows by those kept, and the store is the fold of the kept ones and the clean-ups alone unless a local append failed or an MSET was refused after its first pair |
| Replication.RejectionsDoNotShow | src/replication.rs:264-297 | entries that the store refused can be left out of the fold |
| Replication.SyncDoesEntries | src/replication.rs:264-308 | a sync leads through stores in which each entry that it logs is done as what it stands for, in order; a failed one has besides tried one more entry of the master's |
| EntryMeanings.EntryIsDone | src/replication.rs:430-500 | for each of the 19 operations, what the command run for an entry leaves at which keys, apart from evictions, stated on entries, items, fields, sums and sketches |
| EntryMeanings.SetEntryIsRead | src/replication.rs:431-441 | after a SET entry reads find the text and the remaining time is the TTL, or -1 without one; other keys read as before |
| EntryMeanings.ExpireEntryIsRead | src/replication.rs:486-488 | after an EXPIRE entry a readable key has the TTL as remaining time and reads as before; an unreadable one stays as it was |
| EntryMeanings.PersistEntryIsRead | src/replication.rs:489-491 | after a PERSIST entry the value can be read at any time, even one that had expired, and there is no remaining time |
| EntryMeanings.BlocksExactlyWhen | src/replication.rs:430-500 | a replica stops at a SET, GETSET or MSET with a write too large, a counter operation on no integer, an APPEND on another type or with a text too large, and at nothing else; other refusals are passed over |
| EntryMeanings.RefusedExactlyWhen | src/replication.rs:464-500 | an entry is refused if and only if it is one of those, or one of those passed over, spelt out for sketches, lists and hashes |
| EntryMeanings.RequestIsDone | src/api.rs:310-2196 | for each of the 13 requests: the handler does what was asked and logs just that, the text of a SET encoded |
| EntryMeanings.ReplayedEntryIsDone | src/server.rs:619-730 | start-up replay of the 16 other operations does what the entry stands for |
| EntryMeanings.ReplayedWriteIsDone | src/server.rs:619-730 | start-up replay of SET and GETSET sets the decoded value; an undecodable one does nothing, and only a SET too large fails |
| EntryMeanings.ReplayedMsetIsDone | src/server.rs:619-730 | start-up replay of MSET sets the decoded pairs, or none when one does not decode |
| Refusals.RefusedChangesNothingExactlyWhen | src/kv_store.rs:392-532 | a refused command leaves the whole store as it was, except exactly an MSET whose first pair was accepted |
| Refusals.ReportingCommandIsIdleExactlyWhen | src/kv_store.rs:255-532 | SET, GETSET, INCRBY and APPEND change nothing exactly when they are refused, MSET exactly when it has no pairs or refuses the first |
| Refusals.MSetIsIdleExactlyWhen | src/kv_store.rs:518-532 | MSET changes nothing if and only if it has no pairs or refuses its first one, inside a transaction and out, with eviction or not |
| Refusals.CommandIsIdleExactlyWhen | src/kv_store.rs:255-1771 | for each of the 23 commands: nothing at all changes, order and counters included, if and only if a condition on the store and the arguments holds, spelt out per command |
| Refusals.RefusalOutlastsCleanUpExactlyWhen | src/kv_store.rs:841-868 | a refused entry is refused after a clean-up too, if and only if it is not an APPEND to a key that was due with a text that can be set |
| Refusals.RefusalIsLasting | src/replication.rs:430-463 | a refused entry whose error is passed on is refused again after it has been tried, at any later time |
| Refusals.EntryKeepsConfig | src/replication.rs:430-500 | no log entry changes the configuration |
| Replication.UnloggedAppendIsDoneTwice | src/replication.rs:502-503 | an APPEND whose local append fails is in the store, and the next sync appends the text once more |
| ReplicationFailures.FailedSyncIsCleanExactlyWhen | src/replication.rs:289-297 | a sync that could not apply the next entry, refused or not loggable, leaves the replica as it was if and only if the entry's command finds nothing to change; all 19 log operations |
| ReplicationFailures.SyncProgressesExactlyWhen | src/replication.rs:289-297 | with distinct timestamps a sync of a lagging replica applies something if and only if its log can be written and its store does not refuse the next entry; otherwise log, index, timestamps and lag stay |
| ReplicationFailures.BlockedExactlyWhile | src/server.rs:294-325 | a refused next entry stops the replica throughout a run without restart, whatever the master appends and however often it syncs, if and only if no clean-up makes the entry acceptable; only the clean-ups change the store meanwhile, unless the entry is an MSET refused after its first pair |
| ReplicationFailures.RestartRepeatsExactlyWhen | src/replication.rs:201-217 | over any run, a restart, and any run after it: some entry is applied twice if and only if a position kept before lies in the stretch worked through after; once that has reached the end of the earlier work, if and only if the log at the restart was no prefix of the master's |
| ReplicationFailures.RestartRepeatsThird | src/replication.rs:201-217 | three entries, two of one second: the third is applied once more after a restart |
| ReplicationFailures.SyncAdvancesExactlyWhen | src/replication.rs:277-289 | a successful sync applies something if and only if its batch holds a timestamp not applied before |
| ReplicationFailures.StuckForever | src/replication.rs:299-302 | after a full batch with nothing new, no later sync of that process changes log or index, whatever the master appends |
| ReplicationFailures.BurstWithinOneSecondSticks | src/wal.rs:76-87 | 101 entries of one second leave the replica with the first of them, and stuck |
| ReplicationFailures.CatchesUpExactlyWhen | src/replication.rs:264-302 | for any log, enough successful syncs bring a new replica of a quiescent master to the first entry of every timestamp if and only if fewer than 100 of the entries before the last new timestamp repeat an earlier one |
| ReplicationFailures.RefusedIncrBlocks | src/replication.rs:446-448 | for example, a logged INCR of a key that is missing or no integer makes a sync fail with nothing changed |
| KvStores.KvStore.constructor | src/kv_store.rs:244-254 | a new store is empty with zero counters |
| KvStores.KvStore.Load | src/kv_store.rs:984-1008 | a loaded store lists every key once in its LRU order and has no transaction |
| KvStores.KvStore.SetEntry | src/kv_store.rs:293-328 | validation, queueing, charge, touch and eviction happen in the source's order, errors change nothing, and the events are those of the evictions followed by the set |
| KvStores.KvStore.Set | src/kv_store.rs:293-328 | as SetEntry without expiry |
| KvStores.KvStore.SetWithTtl | src/kv_store.rs:255-291 | as SetEntry with expiry now + ttl, or none when that does not fit 64 bits |
| KvStores.KvStore.Delete | src/kv_store.rs:374-387 | answers with the old value; counts and emits only when there was one; inside a transaction only queues |
| KvStores.KvStore.IncrBy | src/kv_store.rs:392-470 | an integer grows by the amount and is touched; a missing key or another type is an error that changes nothing |
| KvStores.KvStore.Append | src/kv_store.rs:473-501 | text is added at the end without a charge, or the key is created by a set; the answer is the length in bytes |
| KvStores.KvStore.GetSet | src/kv_store.rs:504-508 | answers with the value before the write, or with the error of the write |
| KvStores.KvStore.MSet | src/kv_store.rs:518-532 | the pairs are written in order up to the first refused one, with the events of each write |
| KvStores.AllPairsAreMSet | src/kv_store.rs:528-531 | the rounds of the loop, stopped at the first error, add up to the recursive meaning of MSET |
| KvStores.KvStore.Expire | src/kv_store.rs:542-565 | sets the expiry of a live key and nothing else; false for a missing or expired one |
| KvStores.KvStore.Persist | src/kv_store.rs:570-580 | clears an expiry and nothing else; false when there is none |
| KvStores.KvStore.CleanupExpired | src/kv_store.rs:841-868 | removes exactly the due keys, counts them, and emits one event for each in the order collected |
| KvStores.OneExpiredEventPerKey | src/kv_store.rs:861-864 | with notifications on there is exactly one expired event per removed key, with none otherwise |
| EventMeanings.OneEvictedEventPerKey | src/kv_store.rs:1153-1174 | with notifications on, eviction emits exactly one event for each key that it removes |
| EventMeanings.SetEventsMeaning | src/kv_store.rs:283-328 | an accepted set emits one evicted event for each key that it removes, then one set event; nothing when refused, queued or with notifications off |
| EventMeanings.MSetEventsMeaning | src/kv_store.rs:518-532 | the set events of an MSET are the keys before its first refused pair, in order |
| KvStores.KvStore.Keys | src/kv_store.rs:806-828 | lists each unexpired matching key once and no other |
| KvStores.EstimateValueSize | src/kv_store.rs:1131-1142 | the size of a hash is the sum over its fields in whatever order they are visited |
| KvStores.KvStore.ValidateKey | src/kv_store.rs:1104-1118 | empty before too large; sizes in bytes |
| KvStores.KvStore.ValidateValue | src/kv_store.rs:1120-1129 | refuses exactly the values above the size limit |
| KvStores.KvStore.UpdateLru | src/kv_store.rs:1146-1151 | every occurrence of the key goes and one is put at the end |
| KvStores.KvStore.EnforceMemoryLimit | src/kv_store.rs:1153-1174 | the loop ends in the recursive meaning of eviction, with one event per removed entry in order of removal |
| KvStores.KvStore.EvictOldest | src/kv_store.rs:1159-1168 | one round drops the first key of the order and, if it is there, its entry with its charge |
| KvStores.KvStore.Emit | src/kv_store.rs:1188-1201 | an event is recorded exactly when notifications are on |
| KvStores.KvStore.PfReserve | src/kv_store.rs:632-655 | a new empty sketch is charged; an existing key is an error |
| KvStores.KvStore.PfAdd | src/kv_store.rs:657-707 | the sketch takes all values; only a new key is charged; errors change nothing |
| KvStores.KvStore.Merged | src/kv_store.rs:765-781 | the loop over the sources computes the merge specification, errors included |
| KvStores.KvStore.PfMerge | src/kv_store.rs:742-801 | the destination becomes the merge without expiry, charged only when new; errors change nothing |
| KvStores.KvStore.Push | src/kv_store.rs:1365-1448 | LPUSH puts the values at the head in reverse, RPUSH at the tail; only a new key is charged |
| KvStores.KvStore.Pop | src/kv_store.rs:1451-1498 | removes and answers the first or last element; a missing or empty list changes nothing |
| KvStores.KvStore.HSet | src/kv_store.rs:1540-1581 | the new fields win, the answer counts the fields that were not there, for every order of insertion |
| KvStores.KvStore.HDel | src/kv_store.rs:1602-1623 | removes the named fields, counts each once even if named twice, and counts a write only when one was there |
| KvStores.KvStore.HIncrBy | src/kv_store.rs:1671-1713 | a field that is missing or not a 64-bit decimal counts as zero; the sum is stored as text |
| KvStores.KvStore.Multi | src/kv_store.rs:1219-1228 | opens an empty queue, or fails inside a transaction |
| KvStores.KvStore.QueueOperation | src/kv_store.rs:1761-1771 | appends to the queue, or fails outside a transaction |
| KvStores.KvStore.Exec | src/kv_store.rs:1231-1347 | closes the queue first and leaves what its operations leave one after the other, with one reply each |
| KvStores.KvStore.ExecOne | src/kv_store.rs:1242-1344 | one queued operation: no charge, no eviction; a type mismatch still counts as a write and a touch |
| KvStores.KvStore.Discard | src/kv_store.rs:1350-1359 | drops the queue, or fails outside a transaction |
| CommandMeanings.SetMeaning | src/kv_store.rs:293-328 | accepted if and only if key and value have the right size; then what is left is the old entries and the new one, with exact key and eviction counts, and with room nothing is gone |
| CommandMeanings.SetErrors | src/kv_store.rs:1104-1129 | which of the three errors a refused set gives |
| CommandMeanings.SetIsRead | src/kv_store.rs:293-346 | after SET reads find the value at any time, with no remaining time |
| CommandMeanings.SetWithTtlIsRead | src/kv_store.rs:255-291 | after SET with TTL the remaining time counts down from it and the value is read to its last second; no expiry when the end exceeds 64 bits |
| CommandMeanings.GetSetMeaning | src/kv_store.rs:504-508 | the answer is the value stored before, whatever its expiry, which is what a read would have found unless it had expired |
| CommandMeanings.DeleteMeaning | src/kv_store.rs:374-387 | the answer is the value stored before; outside a transaction no read finds the key after, and others read as before |
| CommandMeanings.IncrByMeaning | src/kv_store.rs:392-470 | the answer is the number left at the key, the expiry stays, and errors change nothing |
| CommandMeanings.AppendMeaning | src/kv_store.rs:473-501 | the text stands behind the old one, and the answer is the sum of their byte lengths |
| CommandMeanings.ExpiryRepliesExactlyWhen | src/kv_store.rs:542-580 | EXPIRE answers true if and only if the key can be read, PERSIST if and only if it has an expiry |
| CommandMeanings.ListErrors | src/kv_store.rs:1365-1498 | errors of list commands, and that a pop answers nothing exactly on a missing or empty list |
| CommandMeanings.HashErrors | src/kv_store.rs:1540-1713 | errors of hash commands: a bad key before a wrong type |
| CommandMeanings.SketchErrors | src/kv_store.rs:632-707 | errors of PFADD and PFRESERVE |
| CommandMeanings.HSetMeaning | src/kv_store.rs:1540-1581 | each field afterwards is the new one, or else the old one; the answer is the number of fields that were not there, some or all |
| CommandMeanings.HDelMeaning | src/kv_store.rs:1602-1623 | the named fields are gone and the others stay; the answer is the number of those that were there |
| CommandMeanings.QueuedWriteMeaning | src/kv_store.rs:1244-1258 | a queued SET or DELETE answers OK and does what it says |
| CommandMeanings.QueuedCounterMeaning | src/kv_store.rs:1259-1320 | a queued counter operation counts from the number there or from zero and answers with its text |
| CommandMeanings.QueuedAppendMeaning | src/kv_store.rs:1321-1344 | a queued APPEND puts its text behind the old one, or creates the key |
| CommandMeanings.TransactionControl | src/kv_store.rs:1219-1359 | which of MULTI, EXEC, DISCARD and queueing are refused when, and what they do to the queue |
| CommandMeanings.ExecAnswersEach | src/kv_store.rs:1231-1347 | one answer per queued operation, each as on the store that the ones before it left |
| Statistics.RunIsCounted | src/kv_store.rs:255-1347 | over every run the write, delete and expiry counters are the sums of what its commands wrote, deleted and removed, as told by their answers |
| Statistics.CommandIsCounted | src/kv_store.rs:255-1713 | the same for each of the 23 commands |
| Statistics.KeyCountExactlyWhen | src/kv_store.rs:274-281 | the key count is the number of keys after a set or the creation of a key, and is left alone by every other command, deletions and EXEC included |
| LruOrder.RunKeepsIndexed | src/kv_store.rs:1146-1174 | over every run of commands the order is the most recently touched keys, oldest first, without duplicates, and holds every live key |
| LruOrder.ApplyKeepsIndexed | src/kv_store.rs:1146-1151 | each command extends the history of touches by exactly the keys it touches and keeps the order in step |
| LruOrder.LoadedIsIndexed | src/kv_store.rs:1006 | the order of a loaded store is indexed from the start |
| LruOrder.ByRecencyOrdersByLastTouch | src/kv_store.rs:1146-1151 | a key earlier in the order was last touched earlier |
| LruOrder.ByRecencyTouch | src/kv_store.rs:1148-1150 | removing a key and putting it at the end is what one more touch does to the recency order |
| LruOrder.EvictionIsShortestPrefix | src/kv_store.rs:1158-1172 | eviction removes the shortest prefix of the order that brings the counter within the limit, or all of it, and keeps every other entry |
| LruOrder.EvictionMeetsLimitExactlyWhen | src/kv_store.rs:1158-1172 | eviction brings the counter within the limit if and only if dropping every key of the order does |
| MemoryLedger.RunBalances | src/kv_store.rs:255-328 | over every run: counter + uncharged growth = live bytes + dropped bytes + bytes clipped by saturating subtraction |
| MemoryLedger.ApplyBalances | src/kv_store.rs:1231-1347 | each of the 23 commands, EXEC and clean-up included, keeps the ledger balanced |
| MemoryLedger.SetHonoursLimit | src/kv_store.rs:1153-1174 | after a set that goes through with eviction on, in any run from a new store, live bytes exceed the limit by at most the uncharged growth |
| MemoryLedger.LimitIsKept | src/kv_store.rs:1153-1174 | in runs without growth in place the live bytes are within the limit after every accepted plain set |
| MemoryLedger.EvictReachesLimit | src/kv_store.rs:1158-1172 | when the order covers the keys, eviction ends within the limit or with nothing live |
| MemoryLedger.FreshWritesSurvive | src/kv_store.rs:293-328 | from an exact counter, sets of keys not live, each value within the limit, keep the counter exact and within the limit and leave the key just written |
| MemoryLedger.EvictSparesNewest | src/kv_store.rs:1153-1174 | from an exact counter eviction never takes the newest key when its value fits |
| Transactions.TransactionEquivalence | src/kv_store.rs:1219-1359 | MULTI, any run of set, set_with_ttl, delete, mset and getset, EXEC leaves the entries, order and write count of the direct run if and only if every key that the direct run's evictions drop is set again later in it; before EXEC nothing has changed; DISCARD returns to the start |
| Transactions.ViewsAgreeExactlyWhen | src/kv_store.rs:1153-1174 | the same for the queued operations themselves, from any state |
| Transactions.RoomMakesTransactionsEquivalent | src/kv_store.rs:283-286 | nothing is written or all that is written fits, if and only if the direct run drops nothing, and then the two agree |
| Transactions.RoomExactlyWhen | src/kv_store.rs:1153-1174 | room is the same as dropping nothing, and then the counter grows by exactly the bytes set |
| Transactions.RunIsDirect | src/kv_store.rs:255-532 | a run of commands is the run of the sets and deletes that a transaction would have queued |
| Transactions.RunQueues | src/kv_store.rs:269-272 | inside a transaction a run changes the queue alone, and refused writes queue nothing |
| Transactions.RunExecutesAlike | src/kv_store.rs:1242-1258 | the queue executed on a store and the commands run on it agree, and the direct run charges exactly the bytes of its sets |
| Transactions.ExecNeverCharges | src/kv_store.rs:1244-1253 | EXEC leaves counter and eviction count alone |
| Transactions.EvictionBreaksEquivalence | src/kv_store.rs:320-323 | a concrete write over the limit is evicted directly and kept by EXEC |
| Expiry.CleanupInvisibleLater | src/kv_store.rs:841-868 | at every later time get, exists, ttl_seconds, keys and iter answer as without the clean-up |
| Expiry.CleanupVisibleExactlyWhen | src/kv_store.rs:588-607 | a read of a key at a time can tell that clean-up ran if and only if the time is not after the key's expiry and the expiry not after the clean-up |
| Expiry.CleanupRemovesDueKeys | src/kv_store.rs:847-867 | exactly the keys with expiry not after now go, the others keep their entry, and the count is the number gone |
| Expiry.ReaderAndCleanupDisagree | src/kv_store.rs:339-341 | in the second of its expiry a key is readable and is removed by clean-up |
| Expiry.StarListsExistingKeys | src/kv_store.rs:535-537 | KEYS with `*` lists exactly the keys that EXISTS accepts |
| Expiry.KeysMeaning | src/kv_store.rs:806-828 | for every pattern, KEYS lists a key if and only if it exists and matches in the declarative sense |
| Expiry.IterationMeaning | src/kv_store.rs:968-981 | the iteration yields a key with a value if and only if a read finds that value |
| Glob.MatchRecursive | src/kv_store.rs:1784-1802 | the recursive matcher ends and answers true exactly when the rest of the text splits into pieces matched by the rest of the pattern |
| Glob.GlobMeaning | src/kv_store.rs:1780-1805 | matching agrees with the declarative meaning |
| Glob.ConcatenationLaw | src/kv_store.rs:1780-1805 | a pattern in two parts matches exactly the texts that split into a match of each |
| Glob.ReversalLaw | src/kv_store.rs:1780-1805 | text and pattern may both be reversed |
| HyperLogLogs.IndexSplitsHash | src/hyperloglog.rs:42 | for every 64-bit hash the index is below 2^p and hash = index * 2^(64-p) + low bits |
| HyperLogLogs.RankIsFirstOneBit | src/hyperloglog.rs:43-45 | the rank is the position of the first one bit among the low 64-p bits, or 65-p when there is none |
| HyperLogLogs.HyperLogLog.constructor | src/hyperloglog.rs:23-30 | the precision is clamped to 4..16 and all 2^p registers are zero |
| HyperLogLogs.HyperLogLog.Add | src/hyperloglog.rs:40-53 | one register takes the maximum with the rank, every register stays within 0..65-p, and the answer tells whether anything changed |
| HyperLogLogs.HyperLogLog.Merge | src/hyperloglog.rs:55-68 | register-wise maximum when the precisions agree, an error and no change otherwise |
| HyperLogLogs.AddHashesSummarise | src/hyperloglog.rs:40-53 | each register holds the largest rank among the added hashes of its index, zero if there is none |
| HyperLogLogs.SketchDependsOnSetOnly | src/hyperloglog.rs:40-53 | order and repetition of added values do not matter |
| HyperLogLogs.MergeIsSketchOfUnion | src/hyperloglog.rs:55-68 | merging two sketches is the sketch of both collections together |
| SketchCommands.MergeSourcesMeaning | src/kv_store.rs:765-781 | a merge succeeds if and only if every source that exists is a sketch of the right precision, and then joins the base with exactly those sketches |
| SketchCommands.MergeNamesFirstMisfit | src/kv_store.rs:765-781 | a failed merge names the first source that does not fit |
| SketchCommands.PfMergeMeaning | src/kv_store.rs:742-801 | PFMERGE succeeds if and only if destination and sources fit; then it answers with the destination's sketch joined with exactly the sources' sketches, stores it without expiry, and changes no other key |
| SketchCommands.MergeOfAddsIsUnion | src/kv_store.rs:657-801 | PFADD, PFADD and PFMERGE of the two answer with the sketch of all the values |
| SketchCommands.PfReserveMeaning | src/kv_store.rs:632-655 | exactly a missing key with a valid name becomes an empty sketch of the precision asked for, or the nearest in 4..16 |
| SketchCommands.MergeDependsOnSourceSet | src/kv_store.rs:742-801 | PFMERGE depends on the set of sources only, success included, and naming the destination as a source is harmless |
| SketchCommands.SplitAddsAgree | src/kv_store.rs:657-707 | adding in two commands answers as adding in one |
| SketchCommands.PfAddMeaning | src/kv_store.rs:657-707 | the sketch under the key is the old one (or an empty one) with the values added, and no other key changes |
| SketchCommands.RefusedSketchCommandChangesNothing | src/kv_store.rs:632-801 | a PFADD, PFMERGE or PFRESERVE that answers with an error leaves the store as it was |
| HashCounters.HIncrByAdds | src/kv_store.rs:1671-1713 | the stored text reads back as the old number plus the amount, other fields keep theirs, whenever the sum is a 64-bit number |
| HashCounters.IncrementsAddUp | src/kv_store.rs:1671-1713 | a row of increments adds up |
| HashCounters.FieldReads | src/kv_store.rs:1674-1681 | a field counts as the number it prints, and as zero when it is missing or no 64-bit number |
| CommandLaws.ListIsQueue | src/kv_store.rs:1411-1474 | RPUSH then LPOPs: what comes out is what was there followed by what was pushed |
| CommandLaws.ListIsStack | src/kv_store.rs:1365-1498 | as many pops as pushes at the same end answer with the values last one first and leave the items that were there |
| CommandLaws.PopsTakeInOrder | src/kv_store.rs:1451-1498 | any number of pops: the values answered and the items left make up the list, in order |
| CommandLaws.SplitPushesAgree | src/kv_store.rs:1365-1448 | pushing in two commands leaves and answers what pushing in one does |
| CommandLaws.SplitAppendsAgree | src/kv_store.rs:473-501 | two APPENDs are one APPEND of both texts |
| CommandLaws.IncrementIsUndone | src/kv_store.rs:446-470 | the opposite increment gives back every entry |
| CommandLaws.AddedFieldsAreDeleted | src/kv_store.rs:1540-1623 | HDEL of the fields that an HSET added gives back the hash, with the same count |
| CommandLaws.ExpiryCountsDown | src/kv_store.rs:542-607 | after EXPIRE the remaining time counts down, and the key reads as before to the end of its last second and not after |
| CommandLaws.PersistUndoesExpire | src/kv_store.rs:542-580 | PERSIST after EXPIRE leaves no expiry, and the store as it was if there was none before |
| Decimal.ParseShowI64 | src/kv_store.rs:1676-1681 | parsing the text of a 64-bit number gives the number |
| Decimal.ShowParse | src/kv_store.rs:1676-1681 | digits without a zero in front print as they were once read |
| Decimal.ParseI64ExactlyWhen | src/kv_store.rs:1676-1681 | read are exactly digits with at most one sign in front, in the 64-bit range |
| Wal.Execute | src/replication.rs:430-500 | running a command on the store object has the command's effect and reports exactly its refusals |
| Recovery.ReplayWal | src/server.rs:619-730 | the loop returns the fold of the log, and fails exactly when a logged SET is refused on the way |
| Recovery.CrashRecovery | src/server.rs:619-730 | for every serial run of the SET, DELETE, INCR, DECR, INCRBY, APPEND, list and hash handlers, failed requests and failed log writes included, with crashes and restarts at any point, replay from an empty store gives the store that the pending request would have left, if and only if every logged SET is acceptable; otherwise it fails |
| Recovery.StepKeepsRecoverable | src/api.rs:336-356 | logging, a failed log write, applying and a restart each keep that invariant |
| Recovery.RequestReplays | src/api.rs:326-356 | replaying what a handler logs does what the handler does, or fails on a SET the store refuses |
| Recovery.Handle | src/api.rs:423-436 | a handler applies nothing that it could not log |
| Recovery.RawWritesAreLost | src/api.rs:1377-1388 | raw text that is not JSON is passed over by replay for GETSET, MSET and pipeline SET with any TTL, although the store had changed |
| Recovery.RawWriteReplaysExactlyWhen | src/server.rs:636-672 | with room for the text and what it decodes to, replay of a raw GETSET or SET with any TTL agrees with the handler if and only if the text decodes to itself and the expiry is the same, or the refusals agree |
| Recovery.TtlSetReplaysExactlyWhen | src/server.rs:639-644 | replay of a logged SET with TTL agrees with the handler if and only if it runs in the same second or the expiry overflows both times |
| Recovery.RawMsetReplaysExactlyWhen | src/server.rs:673-688 | with room, replay of a raw MSET agrees with the handler if and only if the decoded pairs, none if one does not decode, are accepted up to the same pair, have as many bytes and write the same last value to each key |
| Recovery.SetsAgreeExactlyWhen | src/kv_store.rs:518-532 | two rows of sets of the same keys, with room, leave the same store if and only if they are as many, have as many bytes and end in the same value for each key |
| Wal.FaithfulCodecExists | src/api.rs:326-334 | there is a codec that gives every encoded text back, as crash recovery asks |
| LogFiles.LogFile.Append | src/wal.rs:114-126 | a write that stops anywhere, inside a character or a ciphertext too, leaves a line that continues; only a complete one is a success |
| LogFiles.LogFile.ReadAll | src/wal.rs:129-166 | the entries of the lines that parse, in order; a line that does not parse is passed over, one that is no text or no ciphertext ends the reading with an error |
| LogFiles.ReadingMeaning | src/wal.rs:114-166 | for any row of writes, reading succeeds if and only if no write spoiled a line, and then answers with the acknowledged entries that began on a line of their own, in order, and a last one whose newline is missing |
| LogFiles.ReadBackExactlyWhen | src/wal.rs:114-166 | an acknowledged entry is read back if and only if no write of the row spoiled a line and the file did not end inside a line when it was written |
| LogFiles.PlainLogIsReadableExactlyWhen | src/wal.rs:139-142 | without encryption reading succeeds if and only if no write stopped inside a character |
| LogFiles.CleanWritesAreRead | src/wal.rs:114-166 | when no write stops inside its line, what is read is what was acknowledged |
| ConcurrentHandlers.ConcurrentCrashRecovery | src/api.rs:336-356 | handlers that run at once, a crash at any point: when requests on one key are applied in log order and the limit leaves room for what was logged, replay gives the entries that the pending requests would have left, if and only if every logged SET is acceptable |
| ConcurrentHandlers.KeyOrderIsEnough | src/api.rs:342-356 | any order of applying that keeps the order on each key ends in the entries of applying in log order |
| ConcurrentHandlers.DifferentKeysCommute | src/api.rs:347-356 | two requests on different keys leave the same entries in either order |
| ConcurrentHandlers.RequestServesKey | src/kv_store.rs:293-1713 | serving a request changes at most the entry of its key and charges at most a bound known beforehand |
| ConcurrentHandlers.RequestDependsOnKey | src/kv_store.rs:293-1713 | what a request leaves at its key depends only on what was there |
| ConcurrentHandlers.OvertakingSetsDivergeExactlyWhen | src/api.rs:342-356 | two accepted SETs applied in the other order than logged: replay brings back other entries if and only if they set one key to different texts |
| ConcurrentHandlers.OvertakingPairDivergesExactlyWhen | src/api.rs:423-436 | the same for two counter requests (never), two APPENDs and two pushes on one key: if and only if they apply and their texts, or their values pushed at one end, differ in the other order |
| SecondReplay.SavedStoreAppendsTwice | src/server.rs:220-245 | for example, a restart from a saved store appends a logged text a second time |
| SecondReplay.RebuiltKeyIsKept | src/server.rs:220-245 | a key that the log sets or deletes anywhere ends with the same entry whatever store the log is replayed over |
| SecondReplay.InPlaceKeyIsKeptExactlyWhen | src/server.rs:220-245 | a saved counter or text that the log never sets or deletes keeps its entry if and only if the increments add up to zero, or the appended texts are empty |
| SecondReplay.PushedListIsKeptExactlyWhen | src/server.rs:698-703 | a saved list that the log only pushes to keeps its entry if and only if nothing was pushed |
| SecondReplay.FieldsAreKept | src/server.rs:716-721 | a hash whose fields the log only sets and deletes keeps its entry in every further replay |
| SecondReplay.RepeatIsHarmlessExactlyWhen | src/server.rs:220-245 | for each of the 13 requests: replaying it over the store saved right after it keeps the key's entry if and only if a condition on the saved value and the arguments holds |
| Pitr.RecoverToTimestamp | src/pitr.rs:203-262 | the result is the chosen snapshot, or a new store, with the log prefix run on top, whatever entries are refused; the count is the prefix's length |
| Pitr.OpenBase | src/pitr.rs:206-239 | the base is the chosen snapshot's entries and counters with default configuration and empty order |
| Pitr.ChosenIsNewestNotAfter | src/pitr.rs:196-207 | the chosen snapshot is a newest one not after the target; there is none only when all are after it |
| Pitr.ListingIsStable | src/pitr.rs:196 | the listing keeps every snapshot, those of one time in directory order |
| Pitr.ChosenIsFirstOfItsTime | src/pitr.rs:196-207 | of several snapshots of that time the first in the directory is chosen |
| Pitr.RecoveryDoesEntries | src/pitr.rs:242-255 | from the base to the recovered store, each entry of the prefix is done as what it stands for |
| Pitr.NoSnapshotInReach | src/pitr.rs:206-239 | when every snapshot is after the target, recovery is the fold of the prefix from a new store |
| Pitr.SecondsReachNoSnapshot | src/pitr.rs:124-127 | a target in seconds below a billion times the second of every snapshot recovers as without any snapshot |
| Pitr.RecoverToLatestSnapshot | src/pitr.rs:265-276 | an error without snapshots, else recovery to the time in the newest name |
| Pitr.WholeLogExactlyWhen | src/pitr.rs:245-248 | the whole log is replayed if and only if no entry is after the target |
| Pitr.LatestSnapshotReplaysAll | src/pitr.rs:265-276 | with no entry after the newest name, recovery to the latest snapshot is the whole log run on top of it |
| Pitr.LatestSnapshotIsKeptExactlyWhen | src/pitr.rs:265-276 | that keeps the snapshot's entries if and only if the log's last effective write to each key is what the snapshot holds |
| Pitr.PrefixIsNotAfterExactlyWhen | src/pitr.rs:245-248 | the replayed prefix is the entries not after the target if and only if no such entry stands behind a later one |
| Pitr.EveryCutIsCleanExactlyWhen | src/pitr.rs:245-248 | that holds for every target if and only if the timestamps never go back |
| Pitr.PrefixIsNotAfter | src/pitr.rs:245-248 | with nondecreasing timestamps the replayed prefix is exactly the entries not after the target |
| Pitr.PrefixIsPrefix | src/pitr.rs:245-248 | in general it is the longest prefix with no later entry in it |
| Pitr.ClockStepLosesEntry | src/pitr.rs:246-248 | for example, when the clock steps back once an entry not after the target is lost |
| Pitr.RecoveryMeaning | src/pitr.rs:311-344 | for SET, DELETE, GETSET and MSET that evict nothing, each key holds its last effective write in the prefix, or the snapshot's entry |
| Pitr.SnapshotMakesNoDifference | src/pitr.rs:242-255 | when the prefix writes or deletes every snapshot key, the recovered entries are those recovered without any snapshot |
| Transactions.RunLeavesLastWrite | src/kv_store.rs:504-532 | a run of such writes leaves each key with its last effective write, or as it was |
| Pitr.PlainWritesReplayTwice | src/server.rs:220-245 | replaying such writes over the store saved after them changes no entry |
| Pitr.SnapshotKeysAreNotEvicted | src/kv_store.rs:225-226 | the first set on a recovered store, however large, evicts no other key of the snapshot |
| Pitr.UnorderedKeySurvivesEviction | src/kv_store.rs:1158-1172 | a key that is not in the order survives every eviction with its entry |
| Pitr.FirstSetSurvivesExactlyWhen | src/kv_store.rs:225-226 | on a recovered store the first key set stays if and only if it fits beside the saved counter, and the counter comes within the limit if and only if the saved one was |
| Pitr.RecoveredSetHoldsEncoding | src/pitr.rs:313-323 | a recovered SET holds the JSON text that was logged, which is the value that was set if and only if encoding leaves it unchanged |
| SnapshotNames.NamesRoundTrip | src/pitr.rs:34-96 | reading a printed name gives back time and compression for every attempt number and for encrypted files |
| SnapshotNames.NamesAreDistinct | src/pitr.rs:130-136 | different attempts print different names |
| SnapshotNames.FreshName | src/pitr.rs:129-137 | the loop ends within one try more than there are files, with the first unused name |
| PubSubs.PubSub.Subscribe | src/pubsub.rs:78-104 | the id is listed once more, and gets an empty queue only if it has none |
| PubSubs.PubSub.Unsubscribe | src/pubsub.rs:107-119 | every listing of the id goes, and an empty list goes with it |
| PubSubs.PubSub.Publish | src/pubsub.rs:125-151 | each listed id is pushed to as often as it is listed, a full queue loses its oldest message, and the count is the number of listings |
| PubSubs.PubSub.PollMessages | src/pubsub.rs:156-179 | the oldest messages up to the limit are taken in order, the rest stays |
| PubSubs.PubSub.CleanupStaleSubscribers | src/pubsub.rs:203-221 | ids without pending messages leave every list, empty lists go, queues stay |
| PubSubs.SubscriptionAdds | src/pubsub.rs:89-103 | a subscription lists its id once more on its channel, behind those already there, and leaves every other list |
| PubSubs.UnsubscriptionRemoves | src/pubsub.rs:107-119 | exactly that id's listings on that channel go, and the channel exactly when no other id is left |
| PubSubs.CleanupKeeps | src/pubsub.rs:203-221 | exactly the listings of ids with a message waiting are kept, and the channels that have one |
| PubSubs.WithPendingKeepsOrder | src/pubsub.rs:203-221 | the ids that a clean-up keeps stay in their order |
| PubSubs.PollTakesOldest | src/pubsub.rs:163-176 | a poll takes the smaller of limit and queue length, and taken followed by left is the queue |
| PubSubs.PushEnds | src/pubsub.rs:139-148 | the message is last in the queue, and only a full queue loses something, its oldest message |
| PubSubs.SubscribePublishPoll | src/pubsub.rs:78-179 | subscribe, publish, poll: the message is there, and for a new subscriber nothing else |
| PubSubs.DeliveryAccounts | src/pubsub.rs:139-148 | a delivery keeps the queue the end of what was delivered, within the bound |
| PubSubs.PollingAccounts | src/pubsub.rs:163-176 | a poll keeps the polled messages an in-order part of what has left the queue |
| PubSubs.NothingIsLostUnseen | src/pubsub.rs:125-179 | polled, queued and dropped add up to delivered; without an overflow polled followed by queued is delivered |
| PubSubThreads.EveryQueueIsAccounted | src/pubsub.rs:125-179 | that holds for each subscriber in every state that any interleaving of threads reaches |
| PubSubThreads.ListsAreSound | src/pubsub.rs:78-119 | whenever no thread holds the channels lock for writing, every listed id has a queue and no list is empty |
| PubSubThreads.ListedAsSubscribed | src/pubsub.rs:78-221 | in every reachable state an id is listed on a channel as often as it was subscribed since an unsubscription, or a clean-up with nothing waiting, last took it off |
| PubSubThreads.SubscribersAreDelivered | src/pubsub.rs:125-151 | a publish that copies the list at some point of a run and is over later has delivered its message to each id as often as it was subscribed at that point |
| PubSubThreads.PublishReachesSubscribers | src/pubsub.rs:125-151 | the same from the call of publish: it does copy the list at some point in between |
| PubSubThreads.PassesThrough | src/pubsub.rs:78-221 | an operation that is over has taken each of its effects, with its locks, in one of its steps |
| PubSubThreads.PublishCountIsItsPushes | src/pubsub.rs:134-150 | whatever runs in the gap between the two locks, publish pushes as often as the number it returns |
| PubSubThreads.NoDeadlock | src/pubsub.rs:89-90 | while any thread is in an operation some thread can go on, even if readers may not pass waiting writers |
| PubSubThreads.NextKeepsInv | src/pubsub.rs:78-221 | every step of every operation keeps lock exclusion, list soundness, copied ids and accounts |
| PubSubThreads.InterleavedPushes | src/pubsub.rs:139-148 | whatever other threads do meanwhile, the pushes of a publish are the delivery of the engine's method, and each subscriber is delivered the message as often as it is listed |
| PubSubThreads.CountIsReceiversExactlyWhen | src/pubsub.rs:150 | the receivers are the listed ids, and the returned count is their number if and only if no id is listed twice |

## Left out

- HTTP routing, authentication, metrics, Lua, JSON, gzip, zstd and encryption: the value codec and the string hash are parameters.
- Floating point: `HyperLogLog::count`, `hincrbyfloat`, hit rates. PFADD and PFMERGE answer with the sketch whose count the source returns, so what is proved is about the sketch.
- KvStores.KvStore.IncrBy: unbounded integers, since the overflow behaviour of INCR depends on the build mode; INCR and DECR are amounts 1 and -1. The same holds for the amounts of HINCRBY.
- KvStores.KvStore.Load: reading the file is not modelled; a stored sketch is assumed to have the registers that the constructor gives it.
- KvStores.KvStore.Keys: the filter is one comprehension with the matcher as a predicate; `Glob.MatchRecursive` proves the recursion itself.
- KvStores.KvStore.PfMerge: the sketches inside the store are values, so aliasing of register vectors is not modelled; `HyperLogLogs.HyperLogLog` proves the update in place.
- HyperLogLogs.HyperLogLog.Merge: asks for two distinct register vectors, as Rust's borrow rules do.
- MemoryLedger.FreshWritesSurvive: besides an exact counter it asks that the order covers the keys, which every reachable store fulfils; a store recovered from a snapshot does not, and there the property fails (`Pitr.SnapshotKeysAreNotEvicted`).
- MemoryLedger.RunBalances: `reset_stats` is not a command of the runs.
- Transactions.TransactionEquivalence: compares entries, order and write count; the delete counter, the memory counter, the key count and the keyspace events are not the same in the two runs.
- Recovery.CrashRecovery: one request at a time, no TTL and no transaction; one clock reading serves a whole replay; a log write that fails leaves the file as it was, and `LogFiles` shows what torn writes do to the file.
- EntryMeanings.EntryIsDone: asks for a store outside a transaction, since a queued write is carried out by EXEC and not by the entry; the entries that evictions drop are named by `LruOrder.EvictionIsShortestPrefix`.
- ConcurrentHandlers.ConcurrentCrashRecovery: compares the entries, since order and counters do depend on the order in which different keys are written; where eviction is on it asks that the limit leaves room for everything logged, since what is evicted depends on that order too.
- ConcurrentHandlers.OvertakingPairDivergesExactlyWhen: pairs of unlike requests on one key, pops and hash requests are only known to be safe when they keep their order; two APPENDs to a missing key are compared when both texts are accepted.
- LogFiles.LogFile.Append: bytes are not modelled; what a reader makes of a torn line is taken from its parts, so a part of a line followed by another line is taken not to parse, and the key is taken to stay the same.
- Recovery.ReplayWal: malformed log lines, which the source skips, are not in the modelled log.
- Recovery.RawWriteReplaysExactlyWhen: asks for room for both writes, as does the lemma on MSET; an eviction after one of them can hide the difference.
- SecondReplay.InPlaceKeyIsKeptExactlyWhen: exact for counters and texts; lists that the log also pops from and hash fields that it increments are covered one request at a time (`SecondReplay.RepeatIsHarmlessExactlyWhen`).
- Pitr.RecoverToTimestamp: unreadable snapshot files; sorting is an insertion into an ordered list; one clock reading serves a recovery.
- Replication.ReplicationReplica.Sync: the heartbeat and the HTTP exchange are the step `Unreachable`; the batch and the total are read from one state of the master; syncs of one replica do not run at once, and a clean-up runs between syncs and not inside one; what the master records about its replicas is left out.
- Replication.CatchesUp: stated for syncs that succeed; when they do is `ReplicationFailures.SyncProgressesExactlyWhen`.
- PubSubThreads.NoDeadlock: fairness among waiting threads is not modelled, so it does not say that each thread gets its turn.
- Read commands with one branch (`hget`, `hlen`, `llen`, `lrange`, `mget`), uptime and hit counters, configuration, command line, backup pruning in `save_with_version` and removal of old snapshots.
