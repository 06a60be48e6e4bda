# memlay in Dafny

memlay is an in-memory Nostr relay. This project models its event store and what surrounds
it, and proves what the relay promises about them for every input, every run and every
interleaving:

- the **index** of stored events (`EventIndex`), once as a class whose operations run one at a
  time and once as a machine in which any number of threads take one step at a time on the shared maps;
- the **persistence protocol**, down to the bytes of its three files: the log format, the snapshot
  lines, rotate / snapshot / remove-old, recovery after a crash at any point, compaction, and group
  commit;
- the **query planner**, which fetches through one index and filters afterwards, and its limits;
- the **fanout**, which routes through a kind index and disconnects slow peers;
- **NIP-09 deletion**: what a request removes, and that it does not come back.

Check the whole project with `dafny verify dfyconfig.toml`.

## How it is put together

`Events` holds events, kinds, replacement keys and the order in which the store ranks events.
`StoreSpec` is the store seen from outside: a map from slots to events (a slot is a replacement
key, or the event's own id) and a bounded queue of tombstones. `EventIndex` is proved to do
exactly what `StoreSpec` says while keeping five secondary indexes, the eviction shards, the
replacement keys and two counters in agreement, and so is, in `Solo`, each operation of the concurrent
machine when no other thread moves; `EventStore` adds the log, and is proved to do what
the crash machine of `Checkpoint` says. `Replays` is the theory of replaying a log over a
snapshot; `Wal` and `Snapshots` turn records and events into bytes.

| file | what it models |
|---|---|
| `Events.dfy`, `EventSets.dfy`, `IndexKeys.dfy` | src/event.rs, the `EventRef` order, bucket keys |
| `Oldest.dfy` | the 64 eviction shards, `get_oldest`, `get_newest` |
| `StoreSpec.dfy`, `Tombstones.dfy`, `EventIndex.dfy` | src/store/index.rs, one operation at a time |
| `ConcurrentIndex.dfy`, `Solo.dfy`, `Completeness.dfy`, `Races.dfy` | src/store/index.rs under threads; a thread left alone; what arrives in any schedule; schedules that break what the code does not provide |
| `Wal.dfy`, `GroupCommit.dfy` | src/store/wal.rs |
| `Snapshots.dfy`, `Replays.dfy`, `Checkpoint.dfy`, `Crashes.dfy`, `Losses.dfy` | the snapshot, checkpoint and recovery parts of src/store/mod.rs; what a crash leaves; runs that lose events |
| `EventStore.dfy`, `Loading.dfy`, `Deletion.dfy` | src/store/mod.rs, src/deletion.rs |
| `Filters.dfy`, `LiveMatching.dfy`, `Planner.dfy`, `Limits.dfy`, `Fallback.dfy` | src/subscription.rs and the index queries |
| `DropWindow.dfy`, `Fanout.dfy` | src/fanout.rs |

Modelling decisions:

- **An id determines its event**, payload included: `Catalogue` maps ids to events and every
  event that enters is `Genuine`. `insert` overwrites a stored event on a duplicate without
  adjusting the byte count, so the accounting needs this.
- The secondary maps are one map keyed by which index and which key in it. A `BTreeSet` is the
  strictly sorted sequence it iterates; a heap is the sequence it pops.
- Hex and decimal parsing are modelled; JSON parsing is a parameter (`parse`). `content` and
  `sig` decide nothing and are left inside `raw`.
- Clocks are parameters (`clocks`, `now`), and so are the sampled process memory and the payload budget.
  A send queue is a bounded buffer whose sends fail when it is full or closed. Methods return ghost
  values where a statement needs them: where tags were found, what was evicted after which record.
- Counters are unbounded integers; the program's wrap-around cancels out whenever the true
  value is in range. Memory limits are assumed small enough that `max_bytes * 90` does not overflow.
- Map iteration order is arbitrary: the order in which a snapshot lists events and the generic
  tag letter a hash map yields first are parameters of the statements.

The crash machine of `Checkpoint` has the program's state (memory, the three files as bytes, how far
a checkpoint has got) and history variables that no step reads: what the files were meant to hold, and
some facts about the run so far.

- `exposed`: memory may hold what only a segment held that is gone. This begins with a rotation over a
  non-empty `wal.log.old` that no snapshot covers, or with recovery's removal of a non-empty one (unless a
  snapshot already covers it and the time since was calm), and ends with the next snapshot.
- `spoiled`, `priorSpoiled`: something was appended to the log, or to the rotated segment, after torn
  bytes, so that the segment is not read as it was written. The mark moves with the segment at a rotation
  and goes with it when the segment is removed. A restart that reads such a segment loads whatever its
  bytes happen to mean; the next completed checkpoint heals that too. `Intact` is neither.
- `calm`: nothing was evicted since the oldest segment on disk began, and no recovery since came up short.
- `held`: every event that was in memory since then.

`Loaded` is the time between loading and the checkpoint that follows it; clients are not served yet.

## Where the code does not do what it says

Each of these is proved of the code as written, and with each the condition under which the code is
right; where only one direction is known this is said.

- The planner drops conditions. It answers, for every filter, the `Effective` filter; this
  is the filter itself exactly when `NothingDropped` holds, and otherwise, if anything matches the
  effective filter, there is a store that answers an event the filter does not match
  (`Planner.PlannerAnswers`, `EffectiveIsAll`, `DroppedConditionShows`). `#e` and `#p` are compared by
  the fold of the id, which is not injective: nothing is missed, and without collisions nothing is
  added. Which ids collide is known exactly (`IndexKeys.FoldsCollideIff`); ids that share a half never do.
- Live matching compares `#e` and `#p` values as text, the planner as the ids they decode to. A
  subscription is sent exactly what it would be answered if the values are lower-case on both sides;
  for all events exactly if every spelling of every value is given (`LiveMatching.LiveAgreesIff`).
- A limit is applied to every list fetched, before `until`, kinds and authors are checked. For every
  filter that fetches one list, the answer is the newest matches exactly if `OneListSpared`
  (`Limits.OneListLimitIff`; `LimitKeepsTheNewestIff` for one value with since and until;
  `LimitComesBeforeKinds` for an author with a kind). For any number of lists the limit does no harm if
  it spares each, and only then if no event is in two of them (`Limits.LimitHarmsIff`).
- Several values are answered one after another, each up to the limit: for every list of values that is
  the newest matches exactly if they are `InTurn` (`Limits.LimitAnswersInTurn`, `LimitIsNewestIff`,
  `FirstKindIsServedFirst`).
- `get_newest` keeps the first events it scans, except that a newest event replaces the newest of
  them. It is right for every distribution over the shards exactly if it is asked for at most one
  event, has room for all, or all but the first are equally old (`Oldest.GetNewestIsRightIff`). Its
  result is listed oldest first. Three events whose ids choose the first three shards show it over the
  index's own shards (`Fallback.TwoOfThreeGoWrong`).
- A payload with a line feed, an empty one, or one ending in a carriage return does not read back from
  the snapshot, and exactly these do not (`Snapshots.SnapshotReadsBackIff`); a completed checkpoint
  loses such an event (`Losses.LineFeedLosesTheEvent`).
- A log record longer than 16 MiB is written but does not read back; a log reads back as written
  exactly when no payload is longer (`Wal.RoundTripIffAllFit`).
- Rotating again before a snapshot was written, and recovery removing `wal.log.old` before its own
  snapshot, lose events if a crash follows before the next snapshot (`Losses.SecondRotationLosesEvents`,
  `Losses.RemovingOldTooSoonLosesEvents`). Whenever the system is neither exposed nor has a spoiled
  segment, recovery is complete (`Crashes.CrashSafety`), and every completed checkpoint restores that
  (`Crashes.CheckpointHeals`).
- A restart that finds only torn bytes keeps them at the head of the log, and the next event published
  is lost, whichever it is (`Losses.TornHeadLosesTheNextEvent`); without such a restart nothing is
  appended after torn bytes, as long as appends themselves do not fail (`Crashes.SpoiledOnlyByTornHeads`).
- A power loss takes the records after the last sync. If only operations were performed since that sync,
  recovery is that of a crash at some moment in between (`Crashes.PowerLoss`). If a snapshot was written
  meanwhile, deleted events can come back, because the log is not synced before it
  (`Losses.SnapshotOutrunsTheLog`).
- A checkpoint that completes between the record of a deletion and its removal from memory drops the
  record and keeps the event (`Losses.CheckpointInsideADeletion`).
- A failed sync in group commit forgets unsynced bytes exactly if the flag is clear and no other thread
  is pending; failed syncs of flush and rotate do no harm (`GroupCommit.FailedCommitBreaksInvIff`,
  `UnsyncedIsNeverForgotten`).
- Under races a deletion can leave two versions of one key, the counters can end short, a
  replaceable event can leave index entries behind, a newer version can lose to an older one, and a
  republished event can end up stored and buried (`Races`). `ConcurrentIndex` and `Completeness` say
  what remains true: uniqueness if deletions spare replaceable events, no orphans and nothing lost among
  other events, and by how much the counters are short. That each of these hypotheses is needed is shown by a schedule, not for
  every schedule outside it.
- A deletion coordinate with an empty d-identifier misses events with an explicit empty `d`
  tag, and only those (`Deletion.CoordinateReach`).
- Kinds 0 and 3 are not replaceable, against NIP-01, and are the only such kinds
  (`StoreSpec.KindsZeroAndThreeAreNotReplaced`).

## Model

| member | source | states |
|---|---|---|
| Events.HexRoundTrip | src/event.rs:273-280 | Every 32-byte value reads back from its 64 hex digits. |
| Events.HexIs | src/event.rs:273-279 | A text decodes to an id if and only if it is that id's 64 digits, in upper or lower case. |
| Events.TagIdsAreTheDecodedValues | src/event.rs:136-156 | `e_tags`/`p_tags` yield exactly the decodable first values of the tags of that name. |
| Events.DTagIs | src/event.rs:178-185 | The d-identifier is `v` if and only if the kind is addressable and the first tag called `d` that has a value has the value `v`. |
| Events.CompeteIff | src/event.rs:164-211 | Two events compete if and only if they agree on author, kind and, for addressable kinds, d-identifier; any other event competes only with itself. |
| Events.LexLessIs | src/store/index.rs:138-146 | One id ranks below another exactly if it has the smaller byte at the first place where they differ. |
| Events.BeforeTransitive | src/store/index.rs:138-146 | The ranking of events (later first, then lower id) is transitive. |
| Events.BeforeTotal | src/store/index.rs:129-152 | It orders any two events with different id or time, and never both ways. |
| EventSets.InsertKeepsOrder | src/store/index.rs:110-152 | Inserting into a sorted index adds exactly that event, keeps the order, and grows it by one unless it was there. |
| EventSets.RemoveKeepsOrder | src/store/index.rs:110-152 | Removing takes out exactly that event and keeps the order. |
| EventSets.SortedIsUnique | src/store/index.rs:138-146 | Two sorted indexes with the same members list them identically. |
| IndexKeys.KeysAreBelonging | src/store/index.rs:315-381 | The bucket keys `insert` writes under are exactly those the event belongs in by author, kind, tag values and shard. |
| IndexKeys.FoldIsNotInjective | src/store/index.rs:102-107 | The XOR fold maps a whole family of different ids together. |
| IndexKeys.FoldsCollideIff | src/store/index.rs:102-107 | Two ids share a fold if and only if their first halves differ, byte by byte, by what their second halves differ by. |
| IndexKeys.FoldSeparatesHalves | src/store/index.rs:88-107 | Of two ids that agree on one half, either half, the folds are equal only if the ids are. |
| IndexKeys.FoldSeesEveryByte | src/store/index.rs:102-107 | Changing any one byte of an id changes its fold. |
| Oldest.GetOldest | src/store/index.rs:645-677 | For any distribution over the shards, returns min(count, total) distinct events, oldest first, none left out older than one returned. |
| Oldest.ScanShard | src/store/index.rs:651-668 | One shard's scan, early exit included, keeps the heap the oldest of what has been seen. |
| Oldest.BreakKeepsScan | src/store/index.rs:651-668 | Breaking off a shard at the first event that does not fit skips nothing that would fit. |
| Oldest.HeapIsTheAnswer | src/store/index.rs:668-677 | A finished scan's heap has the right size and leaves out nothing older than what it holds. |
| Oldest.GetNewestWithRoomForAll | src/store/index.rs:682-718 | With room for everything, every event is returned once, oldest first. |
| Oldest.CollectNewest | src/store/index.rs:682-718 | The program's loops compute the answer the statements below are about. |
| Oldest.NewestHeapIs | src/store/index.rs:696-709 | For every count the scan keeps the first events it meets, a newest of all in place of the newest of them. |
| Oldest.GetNewestKeeps | src/store/index.rs:682-718 | The same of the result: its members, their number, and that the one event exchanged is a newest of all. |
| Oldest.GetNewestIsRightIff | src/store/index.rs:679-718 | It returns the newest events for every distribution over the 64 shards, whether or not ids choose it, if and only if count is at most one, or there is room for all, or all but the first are equally old. |
| Oldest.GetNewestIsOldestFirst | src/store/index.rs:711-717 | For every count the result is listed oldest first. |
| Fallback.EverythingIsAnswered | src/subscription.rs:414-418 | A filter without conditions is answered with what `get_newest` keeps of the index's own shards, oldest first. |
| Fallback.TwoOfThreeGoWrong | src/store/index.rs:235-244 | Three stored events with given ids and any rising times: asked for two, the filter is answered with the oldest and the newest. |
| Oldest.GetNewestGoesWrong | src/store/index.rs:686-717 | In every other case a named distribution makes it keep an event older than one it leaves out. |
| Oldest.GetNewestCanKeepTheOldest | src/store/index.rs:686-717 | The smallest instance: of three events in three shards, asked for two, it returns the oldest and the newest. |
| StoreSpec.RunKeepsWf | src/store/index.rs:249-507 | Every run of inserts, evictions and deletions keeps: one event per slot, no stored event buried, a bounded duplicate-free queue. |
| StoreSpec.InsertsKeepTheWinners | src/store/index.rs:262-298 | After any inserts into an empty store exactly the winners are stored: everything non-replaceable, and per key the latest, then lowest id. |
| StoreSpec.WinnersAre | src/store/index.rs:262-298 | The same without slots and keys: stored is every event of a kind that is not replaced, and of each author, kind and first `d` value the latest version, of the latest the one with the lowest id. |
| StoreSpec.OutcomeMeans | src/store/index.rs:249-401 | What each answer of an insert means: who stands in the way, what exactly is stored afterwards, and which event was replaced. |
| StoreSpec.InsertOrderIsIrrelevant | src/store/index.rs:262-298 | Any two arrival orders of the same events, with any repeats, give the same store. |
| StoreSpec.KindsZeroAndThreeAreNotReplaced | src/event.rs:166-168 | Of NIP-01's replaceable kinds exactly 0 and 3 are not replaced: every version of them is kept. |
| StoreSpec.BuryKeepsQueue | src/store/index.rs:67-79 | Burying keeps the queue duplicate-free and bounded, contains the id afterwards and adds nothing else. |
| StoreSpec.NoResurrection | src/store/index.rs:252-256 | From a fresh burial until 262144 further fresh ones, in every run of one operation at a time, the id is not stored and every insert of it answers Deleted. |
| StoreSpec.BurialBoundIsExact | src/store/index.rs:20-84 | The fresh burial that makes it 262144 forgets the id. |
| TombstoneQueue.Tombstones.Contains | src/store/index.rs:63-65 | Answers membership in the queue; the shortcut through the count is sound. |
| TombstoneQueue.Tombstones.Insert | src/store/index.rs:67-79 | The queue becomes the old one with the id buried; set, queue and count keep agreeing. |
| EventIndexes.AddToAll | src/store/index.rs:315-381 | Every bucket the event belongs in gains exactly it, no other bucket changes, all stay sorted. |
| EventIndexes.RemoveFromAll | src/store/index.rs:433-489 | Every bucket the event belongs in loses exactly it, no other bucket changes, all stay sorted. |
| EventIndexes.EventIndex.InternalRemove | src/store/index.rs:566-641 | Takes the event out of primary map, indexes and counters; drops its key only for deletions; returns what was there. |
| EventIndexes.EventIndex.Claim | src/store/index.rs:262-293 | The incoming version wins exactly if it ranks before the slot's holder; then it takes the key and exactly the holder is removed. |
| EventIndexes.EventIndex.Store | src/store/index.rs:295-381 | Adds the event to primary map, indexes and counters, keeping them in agreement. |
| EventIndexes.EventIndex.Insert | src/store/index.rs:249-401 | Refines the store specification (`WinnersAre`, `OutcomeMeans`) in state and outcome, and keeps the whole representation invariant. |
| EventIndexes.EventIndex.Remove | src/store/index.rs:493-495 | Refines eviction; the event leaves every index. |
| EventIndexes.EventIndex.DeleteById | src/store/index.rs:500-507 | Refines deletion: event gone, id buried, whether or not it was stored. |
| EventIndexes.EventIndex.ReplayTombstone | src/store/mod.rs:870-879 | Replaying a tombstone has the effect of the deletion it records. |
| EventIndexes.EventIndex.KeyTargets | src/store/index.rs:532-548 | Returns exactly the stored events under the key that are not newer than `until`; at most one. |
| EventIndexes.EventIndex.GetOldest | src/store/index.rs:645-677 | The oldest stored events, as for `Oldest.GetOldest`, over the index's own shards. |
| EventIndexes.ShardsHoldEverything | src/store/index.rs:235-244 | The shards partition the stored events. |
| EventIndexes.ByteSumWithout | src/store/index.rs:296-313 | The byte total is that of any one event plus that of the rest. |
| ConcurrentIndex.TurnPays | src/store/index.rs:295-313 | Every step of every thread changes the primary map by at most one event and counts it, owes it, or records it as missed. |
| ConcurrentIndex.TurnMinds | src/store/index.rs:383-489 | No step leaves an index entry without its event unless the same thread will yet look at it or take it out. |
| ConcurrentIndex.TurnHandles | src/store/index.rs:262-308 | No step leaves a stored replaceable event that its key does not name unless the same thread will yet check or remove it. |
| ConcurrentIndex.TurnRespectsGuards | src/store/index.rs:266-291 | While a thread holds a key's entry guard no other thread changes that key. |
| ConcurrentIndex.RunKeepsInv | src/store/index.rs:249-641 | These invariants hold after every schedule of every number of threads. |
| ConcurrentIndex.NoOrphansOnceIdle | src/store/index.rs:295-489 | Once all threads are idle, every index entry of a non-replaceable event refers to a stored event, whatever else ran. |
| ConcurrentIndex.CountersOnceIdle | src/store/index.rs:300-313 | Once idle, the counters fall short of the stored events by exactly what early exits failed to find. |
| ConcurrentIndex.CountersExactWithoutReplaceables | src/store/index.rs:300-313 | Without replaceable events, both counters equal size and byte sum of the primary map. |
| ConcurrentIndex.OneVersionPerKeyOnceIdle | src/store/index.rs:262-308 | Unless a deletion names a replaceable event: once idle, every stored replaceable event is the one its key maps to, so no key has two. |
| Solo.StoringEnds | src/store/index.rs:295-401 | An insert that meets nobody goes from the primary map to the end with the event stored, counted and under exactly its keys. |
| Solo.TakingEnds | src/store/index.rs:566-641 | A removal that meets nobody clears map, counters and exactly the event's entries, and drops the key exactly if asked for. |
| Solo.InsertAlone | src/store/index.rs:249-401 | From any shared state that stands for a store, an insert run alone ends in one that stands for the store after it: buried, refused, duplicate or stored, replaceable or not. |
| Solo.EvictAlone | src/store/index.rs:493-495 | The same of an eviction. |
| Solo.DeleteAlone | src/store/index.rs:500-507 | The same of a deletion, tombstone included. |
| Solo.AloneRefines | src/store/index.rs:249-641 | Running alone refines the specification, whatever is called; the end state is the same whenever the thread is idle again. |
| Solo.SerialRefines | src/store/index.rs:249-641 | Any operations of any threads, one after the other, do to maps, indexes, counters and tombstones of the concurrent index what the specification's run does. |
| Completeness.InsertsArriveOnceIdle | src/store/index.rs:249-401 | In every schedule: once idle, an event that is not replaceable and that no eviction or deletion names is stored if and only if its insert was begun, and is then in exactly the indexes it belongs in. |
| Completeness.RunStoresOnlyCalled | src/store/index.rs:249-401 | In every schedule only events whose insert was begun are ever stored. |
| Races.DeletionBreaksUniqueness | src/store/index.rs:574-577 | For any three versions of one key there is a schedule with one deletion that ends with two of them stored. |
| Races.OvertakenInsertLeavesCountersShort | src/store/index.rs:305-308 | For any two versions there is a schedule that ends idle with one early exit missed. |
| Races.ReplaceableOrphan | src/store/index.rs:305-308 | A schedule that ends idle with an index entry whose replaceable event is not stored. |
| Races.NewerCanLose | src/store/index.rs:271-277 | A schedule that ends idle with only the older of two versions stored. |
| Races.RepublishBeatsTheTombstone | src/store/index.rs:500-507 | A schedule that ends idle with an event both stored and buried. |
| Wal.LengthFieldReads | src/store/wal.rs:84-91 | The length field reads back as the length modulo 2^32. |
| Wal.ReplayPath | src/store/wal.rs:189-260 | The read loop delivers the operations, and the verdict, of the reference reading. |
| Wal.ReplayWholeRecords | src/store/wal.rs:189-260 | Whole records come back in order whatever bytes follow. |
| Wal.TornRecordIsRefused | src/store/wal.rs:198-260 | A proper prefix of a record delivers nothing and is an error. |
| Wal.TornTail | src/store/wal.rs:189-260 | Of every byte prefix of a log, exactly the operations wholly inside it are delivered, and the answer is Ok exactly on a record boundary. |
| Wal.RoundTripIffAllFit | src/store/wal.rs:74-116 | A log reads back as written if and only if every payload is within 16 MiB. |
| Wal.WriteAheadLog.Append | src/store/wal.rs:74-116 | Appends exactly the record's bytes, counts them all, and sets the flag. |
| Wal.Compact | src/store/wal.rs:299-394 | Writes the first insert of each live event, in order, and the file reads back as exactly that; kept plus removed is the number of records read. |
| Wal.CompactionPreservesMeaning | src/store/wal.rs:299-394 | For every list of records, the compacted list replayed from empty gives the same live set. |
| Wal.CompactedFilePreservesMeaning | src/store/wal.rs:299-394 | The same of files: whatever state the log is in, the compacted file rebuilds the live set the original gave. |
| Wal.TornHeadHidesTheNext | src/store/wal.rs:198-260 | A record appended after the head of another is never delivered. |
| Wal.LiveListRebuildsStore | src/store/mod.rs:676-683 | Inserting the events of a store, in whatever order the map lists them, rebuilds it. |
| Snapshots.ReadAllLines | src/store/mod.rs:829-836 | The line loop yields the lines of the reference reading. |
| Snapshots.SnapshotReadsBackIff | src/store/mod.rs:678-681 | A snapshot file reads back as written if and only if every payload takes exactly one line. |
| Snapshots.SnapshotReadsBack | src/store/mod.rs:824-847 | Such payloads that parse give back exactly the events written, in order. |
| Snapshots.LineFeedIsNeverReadBack | src/store/mod.rs:829-846 | No file yields an event whose payload holds a line feed. |
| Replays.ReplayActs | src/store/mod.rs:384-390 | The records of an operation have the same effect on any replayed store whose tombstones are among memory's latest. |
| Replays.StepTombs | src/store/mod.rs:870-879 | The queue a replay builds stays memory's latest, one per tombstone record up to the bound, with every id the log deletes that memory remembers. |
| Replays.StepSelects | src/store/mod.rs:851-880 | A replay leaves each slot as the snapshot had it or as a replay from nothing makes it, and no lower; every operation keeps this. |
| Replays.ReplayIsIdempotent | src/store/mod.rs:851-853 | Replaying such a log over its own result changes nothing. |
| Replays.LogIsIdempotent | src/store/mod.rs:851-853 | Every log that memory wrote is such a log, whatever was evicted meanwhile. |
| Replays.ReplayOverSnapshot | src/store/mod.rs:851-896 | Replaying a log over a snapshot taken anywhere along it loses nothing live and revives nothing buried; without evictions it ends exactly where memory ended. |
| Checkpoint.FilesReadBack | src/store/mod.rs:824-896 | The bytes of the three files, with a record cut off anywhere, are read back as what was written. |
| Checkpoint.StepKeepsInv | src/store/mod.rs:708-742 | Every publish, deletion, eviction, rotation, snapshot, removal and restart, misreading ones included, keeps the invariant between memory and the bytes on disk. |
| Checkpoint.LoadingIsGenuine | src/store/mod.rs:824-896 | What is loaded from intact segments is genuine and storable, so the premise about what restarts parse restricts only misreading ones. |
| Checkpoint.ReachableKeepsInv | src/store/mod.rs:708-742 | The same over all runs. |
| Crashes.CrashSafety | src/store/mod.rs:691-742 | Unless exposed, and with both segments intact, at any point of any run with the next append cut anywhere: every live event or a version that beats it; exactly the live set if calm; nothing deleted; nothing not held since the oldest segment began; memory's latest tombstones, one per deletion on disk up to the bound. |
| Crashes.CheckpointHeals | src/store/mod.rs:708-742 | After any run whatever, a completed checkpoint leaves memory as it is, the files holding the snapshot alone, and the system calm, intact and not exposed. |
| Crashes.PerformsDo | src/store/mod.rs:462-508 | After any run whatever, operations performed next leave memory as they leave it one after the other, append exactly their records, and touch no other file. |
| Crashes.DeletionsSurviveRestart | src/store/mod.rs:380-383 | An event deleted since the oldest segment began, and still remembered, is answered Deleted after recovery. |
| Crashes.CheckpointForgetsTombstones | src/deletion.rs:26-29 | After any run whatever, a completed checkpoint and a restart keep the live set and forget every tombstone. |
| Crashes.PowerLoss | src/store/wal.rs:98-106 | Of every byte prefix of the log that reaches a moment since which only operations were performed, recovery is that of a crash inside one of them. |
| Crashes.TornOperation | src/store/mod.rs:462-508 | A crash inside an operation recovers as from before it or as from after it. |
| Crashes.SpoiledOnlyByTornHeads | src/store/mod.rs:917-923 | Nothing is appended after torn bytes unless a restart found only torn bytes. |
| Crashes.CalmWithoutEvictions | src/store/mod.rs:700-701 | A run without evictions is calm unless a restart came while exposed or misread a segment. |
| Losses.SecondRotationLosesEvents | src/store/wal.rs:128-145 | For every event, a run with two rotations and no snapshot between them ends exposed, and a crash loses the event. |
| Losses.RemovingOldTooSoonLosesEvents | src/store/mod.rs:913-920 | For every event, a run with a crash during recovery, after the removal of the old segment, loses it. |
| Losses.TornHeadLosesTheNextEvent | src/store/mod.rs:917-923 | After any restart that found only torn bytes, the next event published is not recovered. |
| Losses.TornHeadRun | src/store/mod.rs:917-923 | Such a run exists. |
| Losses.LineFeedLosesTheEvent | src/store/mod.rs:678-681 | A completed checkpoint loses every event whose payload holds a line feed. |
| Losses.SnapshotOutrunsTheLog | src/store/mod.rs:670-689 | For every event, a run after which a surviving prefix of the log revives it although memory deleted it before the snapshot. |
| Losses.CheckpointInsideADeletion | src/store/mod.rs:424-430 | The two halves of a deletion make the operation; with a checkpoint between them the deleted event comes back. |
| GroupCommit.UnsyncedIsNeverForgotten | src/store/wal.rs:98-160 | In every interleaving in which no group commit's sync fails: unsynced bytes mean the flag is set, an append is about to set it, or a commit is between swap and sync. |
| GroupCommit.CleanMeansDurable | src/store/wal.rs:150-160 | Then, once idle, a clear flag means everything written is synced. |
| GroupCommit.FailedCommitBreaksInvIff | src/store/wal.rs:150-160 | A failed commit sync breaks this exactly if bytes are unsynced, the flag is clear and no other thread is pending. |
| GroupCommit.FailedCommitForgets | src/store/wal.rs:150-160 | A schedule that ends idle with unsynced bytes and a clear flag. |
| GroupCommit.OperationsAlone | src/store/wal.rs:73-160 | With the lock free, an append ends with its bytes written and the flag set; a commit if the flag is set, a flush and a rotation end with everything written synced and the flag clear. |
| GroupCommit.NeverStuck | src/store/wal.rs:73-160 | In every schedule, failed syncs included, some thread can move as long as one is busy. |
| DropWindow.WindowCountsSinceFirst | src/fanout.rs:155-166 | The window always counts exactly the latest drops since it was opened. |
| DropWindow.KillImpliesManyDrops | src/fanout.rs:143-171 | A kill implies at least 2049 drops within one stretch of at most ten seconds. |
| DropWindow.ManyDropsForceKill | src/fanout.rs:143-171 | 4097 drops within any ten seconds force a kill by their end. |
| DropWindow.TwiceTheLimitCanPass | src/fanout.rs:25-31 | 4096 need not. |
| Filters.DecodeAllHas | src/subscription.rs:126-166 | The decoded values are exactly those some given value decodes to. |
| LiveMatching.MatchesIs | src/subscription.rs:903-942 | Live matching, written out: ids, kinds, authors, times, and for each letter a tag whose first value is one of the texts. |
| LiveMatching.SatisfiesIs | src/subscription.rs:285-468 | What a filter asks of a stored event, written out: the same, with `#e` and `#p` compared by the id they decode to. |
| LiveMatching.LiveAgrees | src/subscription.rs:903-942 | The two agree on every event for every filter without `#e` and `#p`, and with them if all values are ids and every spelling of each is given. |
| LiveMatching.LiveAgreesIff | src/subscription.rs:930-937 | For every filter that some event passes both ways they agree on all events if and only if that holds. |
| LiveMatching.LiveAgreesInLowerCase | src/subscription.rs:930-937 | They agree between filters and events whose `#e` and `#p` values are written in lower case. |
| Fanouts.KeyCoversWants | src/fanout.rs:263-298 | A connection's key never hides a subscription that wants the event. |
| Fanouts.ComputeKey | src/fanout.rs:263-288 | Computes the key its subscriptions call for: none, any, or exactly the kinds named. |
| Fanouts.AddKinds | src/fanout.rs:331-343 | Adds the connection under exactly these kinds. |
| Fanouts.RemoveKinds | src/fanout.rs:345-362 | Removes it from exactly these kinds and leaves no empty entry. |
| Fanouts.NeverIndexedTwice | src/fanout.rs:301-318 | No connection is in both parts of the index, so no duplicate is delivered. |
| Fanouts.Deliver | src/fanout.rs:114-138 | Attempts exactly the subscriptions that want the event, in order, each with the effect `DeliveryIs` spells out. |
| Fanouts.WantedInOrder | src/fanout.rs:119-122 | The subscriptions attempted are exactly those with a filter that matches, in the order of subscription. |
| Fanouts.OfferAllQueues | src/fanout.rs:124-135 | The messages of the first of them that fit are queued, in order, behind the old queue; exactly these are counted as sent and exactly the others as dropped, none fitting if the receiver is gone. |
| Fanouts.OfferAllOverflows | src/fanout.rs:140-153 | The overflow list gains exactly the dropped subscriptions not yet in it, once each, in the order of their first drop. |
| Fanouts.DropTimesAre | src/fanout.rs:124-171 | Every drop is recorded at its time, and something is dropped only if the queue is full or closed. |
| Fanouts.DeliveryIs | src/fanout.rs:114-153 | All of these of one delivery. |
| Fanouts.WantedOnce | src/fanout.rs:114-138 | Each subscription is attempted at most once. |
| Fanouts.OfferAllCounts | src/fanout.rs:114-171 | Every attempt counts once as sent or dropped, subscriptions are untouched, and window and kill flag are those of the drop times. |
| Fanouts.AttemptsAreCounted | src/fanout.rs:131-144 | A publish raises sent + dropped of a connection by exactly its number of attempts. |
| Fanouts.DeliverTo | src/fanout.rs:320-322 | The delivery loop does to its targets what a walk over them does, each once. |
| Fanouts.Fanout.Register | src/fanout.rs:198-216 | Adds a fresh connection with nothing queued, subscribed, sent, dropped or overflowed; the registry stays consistent. |
| Fanouts.Fanout.Unregister | src/fanout.rs:218-224 | Takes it out of registry and index; everything else is unchanged. |
| Fanouts.Fanout.SetSub | src/fanout.rs:228-239 | Afterwards the connection has exactly this subscription and its other ones, and is keyed accordingly. |
| Fanouts.WithSubAre | src/fanout.rs:231-237 | The subscription is replaced in its place or added at the end; every other one stays where it was. |
| Fanouts.Fanout.RemoveSub | src/fanout.rs:241-252 | Afterwards the connection has exactly its other subscriptions; the answer says whether there was one, and the connection is keyed accordingly. |
| Fanouts.Fanout.Reindex | src/fanout.rs:263-298 | Files the connection exactly under the key its subscriptions call for. |
| Fanouts.Fanout.Publish | src/fanout.rs:301-323 | Routing equals broadcasting: exactly the deliveries of a walk over all registered connections, each once; every registered connection has its matching subscriptions queued, counted and overflowed as `DeliveryIs` says, and no other connection changes. |
| Planner.SiftAll | src/subscription.rs:427-467 | The final loop keeps the passing candidates in order, repeats removed by its set of ids. |
| Planner.QueryFilter | src/subscription.rs:285-468 | The program computes the answer the theorems below are about. |
| Planner.CandidatesAre | src/store/index.rs:755-877 | Without a limit, exactly the stored events the plan asks for are fetched. |
| Planner.AnswerIs | src/subscription.rs:382-468 | For every filter without a limit: exactly the stored events fetched and passed, each once. |
| Planner.PlannerAnswers | src/subscription.rs:285-468 | For every filter without a limit and every store, collisions included: exactly the stored events that satisfy the effective filter with the leading `#e`/`#p` compared by fold, each once. |
| Planner.PlannerAnswersTheEffectiveFilter | src/subscription.rs:285-468 | No event that satisfies the effective filter is missed, and without collisions no other is answered. |
| Planner.PlannerEqualsScan | src/subscription.rs:285-468 | If nothing is dropped, no stored event that satisfies the filter is missed, each is answered once, and without collisions nothing else is. |
| Planner.PlannerEqualsScanOnSharedHalves | src/subscription.rs:285-468 | If nothing is dropped, and every `#e`/`#p` value asked for agrees with every stored one on a half, the answer is exactly the stored events that satisfy the filter, with no premise about collisions. |
| Planner.PreparedIsParsed | src/subscription.rs:126-166 | Decoding the hex values of a fresh filter prepares it as the planner needs, keeps its meaning, and fills a field in exactly if some value decodes. |
| Planner.OneLetterDropsNothing | src/subscription.rs:427-468 | Non-empty ids without tags, or no ids and at most one tag letter, drop nothing. |
| Planner.EffectiveIsAll | src/subscription.rs:436-451 | The effective filter is the filter if and only if `NothingDropped`. |
| Planner.DroppedConditionShows | src/subscription.rs:436-451 | If something is dropped and some event satisfies the effective filter, a store is given that answers an event the filter does not match. |
| Limits.LimitTakesAPrefix | src/subscription.rs:285-290 | Where the events that pass come first in every list fetched, the limited answer is the beginning of the unlimited one. |
| Limits.LimitHarmsIff | src/subscription.rs:285-465 | For every filter that fetches through keys: so it is if the limit spares every list, and, if no event is in two lists, only then. |
| Limits.OneListLimitIff | src/subscription.rs:285-465 | For every filter that fetches one list: the answer is the n newest matches if and only if n is zero, the list is no longer than n, its first n events all match, or none after them does. |
| Limits.LimitComesBeforeKinds | src/subscription.rs:382-437 | An author whose newest n events are of other kinds: author, kind and limit n find nothing, though older events match. |
| Limits.LimitAnswersInTurn | src/subscription.rs:382-413 | Any list of kinds, authors or tag values, with optional since: the values in the order given, newest first each, each event once, cut to the limit. |
| Limits.LimitIsNewestIff | src/subscription.rs:382-465 | For every list of values, repeats and shared events included, that is the newest matches in order if and only if the newest event new under each value ranks after all answered for the values before it. |
| Limits.FirstKindIsServedFirst | src/subscription.rs:382-413 | Two kinds and limit one: the newest of the first kind, however new the second kind's. |
| Limits.LimitKeepsTheNewestIff | src/subscription.rs:382-468 | One value, optional since and until, limit n: the n newest matches in order if and only if n is zero, at most n events of the value are in the since range, none of them is too late, or all are. |
| Limits.MatchesAre | src/subscription.rs:903-942 | Without collisions, the events under the condition's keys within the times are those that satisfy the filter. |
| Deletion.RequestOf | src/deletion.rs:81-104 | The ids are exactly the decodable first values of the tags called `e`; the coordinates are, in order, those of exactly the tags called `a` whose first value is one. |
| Deletion.CoordinateRoundTrip | src/deletion.rs:118-140 | Every coordinate reads back as written, whatever colons its d-identifier holds. |
| Deletion.CoordinateShape | src/deletion.rs:118-140 | A text is a coordinate if and only if it is a kind, a colon, a public key, a colon and the d-identifier. |
| Deletion.KindParses | src/deletion.rs:125-126 | A kind reads back from its decimal digits, with or without a plus sign, exactly if it fits 32 bits. |
| Deletion.CoordinateReach | src/store/index.rs:519-531 | The key of a coordinate is that of exactly the events of its author, kind and first `d` value (none counting as empty), except those whose first `d` value is explicitly empty. |
| EventStores.EventStore.Insert | src/store/mod.rs:462-508 | Publishing does to memory and log what the crash machine says, and answers accordingly. |
| EventStores.EventStore.RemoveRecorded | src/store/mod.rs:424-430 | Deletes an event from memory, and may be called only when its tombstone record is the last in the log. |
| EventStores.EventStore.Retract | src/store/mod.rs:384-390 | One removal: record logged, then event removed and buried. |
| EventStores.EventStore.DeleteIds | src/store/mod.rs:422-434 | Deletes exactly the author's events among the ids and counts the foreign ones. |
| EventStores.EventStore.DeleteCoordinates | src/store/mod.rs:436-452 | Deletes exactly the author's events under the coordinates up to `until`; every coordinate is accounted for. |
| EventStores.EventStore.ApplyDeletion | src/store/mod.rs:414-454 | Removes, lists once, buries and logs exactly the doomed events, one record each, and counts the rest. |
| EventStores.DeletionIsRetractions | src/store/mod.rs:414-454 | A deletion is a run of the crash machine's retractions and logs what they log. |
| EventStores.DeletedStayDeleted | src/deletion.rs:21-29 | Until the next restart, republishing a deleted event answers Deleted until its tombstone is forgotten, whatever happens meanwhile. |
| EventStores.EventStore.Ingest | src/store/mod.rs:791-821 | After each event loaded nothing is evicted unless memory passed 90% of a limit; then the oldest go one by one, each while memory was above 70%, until it is not. |
| Loading.LimitInForce | src/store/mod.rs:791-801 | Loading is bounded exactly from a limit of two bytes on. |
| Loading.BytesAreWeight | src/store/mod.rs:809-821 | The byte counter is the sum of the payloads of the stored events. |
| EventStores.EventStore.Replay | src/store/mod.rs:855-880 | Memory is the records run in order, each insert followed by exactly the evictions it calls for and no other record by any. |
| EventStores.EventStore.LoadFromDisk | src/store/mod.rs:785-896 | From the files' bytes: memory is their records run so; if the distinct events in them together fit 90% of the limit, or there is none, it is the recovery of the crash machine; with a limit memory ends within 90%; says whether anything was applied. |
| Loading.FittingFilesAreKept | src/store/mod.rs:791-821 | If the distinct events of the records together fit 90% of the limit, nothing is evicted and the records are run as they are. |
| Loading.LoadsAllThatFits | src/store/mod.rs:785-896 | Then loading under a limit is the recovery without one. |
| Loading.LoadsEndWithinThreshold | src/store/mod.rs:791-821 | Every load under a limit ends within 90% of it. |
| EventStores.EventStore.EvictBatch | src/store/mod.rs:331-354 | Evicts the oldest in chunks of a hundred until within bounds, the batch used up, or nothing left; at every chunk boundary before the last a bound was still exceeded. |
| EventStores.EventStore.MaybeEvict | src/store/mod.rs:301-373 | Evicts only when over a bound; then reaches it, uses up its batch of 5000 or 1000, or empties the store, and evicts no chunk beyond that; nothing evicted is newer than anything left. |
| EventStores.EvictionsAreRemovals | src/store/mod.rs:331-354 | What is evicted goes as the crash machine's evictions do, and leaves no record in the log. |

## Left out

- HTTP, WebSocket and task handling (src/relay.rs, src/main.rs), idle timers and channel plumbing: input and output.
- JSON parsing and printing, SHA-256 and Schnorr verification: libraries outside the repository; events are parsed values. Payloads are taken to be UTF-8, as text messages are.
- RSS sampling, the amplification estimate, the adaptive eviction interval, configuration, metrics and proxy headers: environment reads or easy members.
- Lists that share events and other conditions at once: `LimitHarmsIff` then says when a limit does no harm, not that it does harm otherwise, since a later list can bring back what an earlier one lost.
- Limits on filters with times alone, beyond what `get_newest` keeps: the same list is sifted by time.
- Completeness.InsertsArriveOnceIdle: says nothing of an id that is inserted, removed and inserted again concurrently; the code does not keep its index entries complete.
- A checkpoint after loading whose rotation itself fails, so that clients are served on the old log: the crash machine lets that rotation succeed; a snapshot that fails is covered.
- Failed log appends (`wal.insert` errors are reported and serving goes on, src/store/mod.rs:487-489): every append of the crash machine succeeds unless a crash cuts it off.
- Threads interleaving between the index insert and its log append (but for the one deletion shown), and snapshots that iterate the map while it changes: an operation and its records are one step of the crash machine, and a snapshot lists one state.
- `truncate`, compaction racing with appends, `bytes_written` under concurrency, `insert_batch`, `save_to_disk`: unused by the store, not kept exact, or easy.
- `take_overflowed` and the wake-up of a connection's task: plumbing around the overflow list.
- Concurrent registration and publishing in the fanout: its operations run one at a time.
- Deadlock freedom of the index and memory ordering: every map operation, set operation and atomic is one indivisible step, and an entry guard is a lock on its key.
- Crashes.CrashSafety: assumes no memory limit during recovery (`EventStore.LoadFromDisk` says what recovery does with one, and when it makes no difference), and that every published payload fits a record, takes one line and parses back (the codec statements say exactly which do); of a restart that misreads a spoiled segment, that what it parses is genuine and can be stored.
- Losses.TornHeadLosesTheNextEvent: for payloads as JSON has them, without zero bytes, of at least four bytes and below 16 MiB.
- Limits.LimitKeepsTheNewestIff: for authors, assumes that no stored event shares a queried author's fold without being by that author; `#e` and `#p` matches are by fold, as the index compares them.
- Limits.LimitIsNewestIff: same assumption about authors.
- Planner.PlannerAnswers: assumes at most 2^64 - 1 stored events.
