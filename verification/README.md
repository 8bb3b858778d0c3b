# Sync layer verification

A Dafny model of the replicated stores under `edge/src`, with proofs of what their protocols are for. Each store is modelled twice over: as a state machine on values, about which the properties are proved over every run, and as a class or a loop in the form the code has, whose methods are proved to take exactly the steps of that machine.

* **Workspace registry** - `Hlc`, `RegistryCore`, `RegistryMerge`, `RegistryArrivals`, `RegistryRevival`, `RegistryHistory`, `RegistryTable`, `RegistryRedelivery`, `RegistrySync`, `RegistryAnswers`, `RegistryReseed`, `RegistryRoom`, `RegistryClient`: hybrid logical clocks as strings, per-field last-writer-wins rows with tombstones and revival, transactional batches, tombstone collection, delta sync by cursor to any number of replicas, and what a stale or bereft replica pushes back.
* **Chat log relay** - `ChatLog`, `ChatFrames`, `ChatPull`, `ChatSync`: the append-only log with batch deduplication and pruning checkpoints, the frame codec, paging by truncation, and the log together with its clients.
* **Session persistence** - `UpdateLog`, `Blobs`, `SessionStore`, `SessionPenalty`, `SessionRoom`, `Fragments`, `FragmentRoom`: chunked log rows, chunked blobs read by range, the agreement of snapshot, log, buffer and cached document, and the fragmentation of large updates.
* **Durable wakes** - `Nudges`, `NudgeRuns`, `DeviceRoom`: the bounded, token-fenced queue and its in-flight window.
* **Preview presence** - `Preview`, `PreviewRuns`, `PreviewRoom`: sockets, stored catalogs, and what each peer makes of the messages it is sent.

`Options` and `Bytes` are shared helpers. SQL tables are maps, `meta` entries are fields, and each handler is one atomic step. A Loro document is the set of updates imported into it: importing is union, whether an import succeeds depends on the document and the update, and exporting keeps the content. Clocks, random receipts and the choice of which socket is live are parameters of the steps, so every theorem holds for all of them.

## Findings

Places where the plain statement is false of the code, each with the exact condition or a concrete run:

* Merging a live row is order-independent if and only if the newest writes to each field that tie on the clock agree on the value (`RegistryMerge.ConvergenceIsExact`).
* Upserts, updates and deletes of a row, under any clocks, end in one state in any order and with any repeats if and only if no order leaves the row live, or some upserts last and write every field that anything writes, at least as new (`RegistryRevival.RevivalConvergesExactly`). An upsert lasts when it is newer than the newest delete by its own clock and also by the clock of some field it writes: the first lets it revive, the second keeps deletes out. For operations under one clock each this says that no upsert is newer than the newest delete, or the newer ones write every field (`RegistryRevival.OneClockCover`). `RegistryRevival.RevivalsDependOnOrder` is the smallest failing run.
* A seed rebuilds a row exactly when the row is deleted, or was never revived and has no cleared field (`RegistryHistory.SeedingIsExact`), so a wiped server is rebuilt from one copy without loss exactly when all its rows are of that kind (`RegistryReseed.WipeIsLosslessExactly`); `docs/registry-sync.md` calls it lossless. A stale seed is harmless after every history in which the row is neither revived nor purged exactly when the old copy carried a clock (`RegistryHistory.StaleSeedsAreHarmlessExactly`). After a purge the seed of any live copy brings the row back (`RegistryHistory.PurgedRowIsReseeded`).
* The client takes that last path itself: a full answer makes it seed the rows the answer lacks. In every run this brings back exactly the rows its copy still held live and the table had lost, each of them deleted and then purged, and only when its cursor was below the floor (`RegistryReseed.ReseedRevivesExactly`); `RegistryReseed.PurgedRowComesBack` is a run in which it happens.
* An alarm collects the tombstones past their retention if and only if a push has applied something since the alarm before (`RegistryAnswers.AlarmCollectsExactly`): a tombstone that was too young at the last alarm of a room gone idle stays, however old it grows, until another push applies.
* Re-applying an operation is not always a no-op. It is one, at every later point before the row is revived or purged, if and only if the operation was spent by its first delivery (`RegistryRedelivery.RedeliveryIsSilentExactly`), which `RegistryRedelivery.DeliveredIsSpentExactly` reads off the operation and the row it met. Four families fail: an update that outran its create is dropped and then applies (`RegistryRedelivery.DroppedUpdateReapplies`); an upsert whose clock is newer than the clocks it writes revives a row that a delete between those clocks had buried, because revival compares the operation's clock and not the fields' (`RegistryRedelivery.UndercutUpsertRevives`); across a revival an old upsert brings back fields that the revival had dropped (`RegistryRedelivery.RevivedRowTakesOldFields`); and once the alarm has purged the tombstone, the old delete and any old upsert apply again (`RegistryRedelivery.PurgeUndoesDelivery`, `RegistryRedelivery.PurgedDeleteReapplies`).
* Clock strings order correctly up to 13 digits of milliseconds and 6 of counter and misorder at the next one (`Hlc.WideClocksMisorder`); validation accepts exactly the clocks inside those widths (`Hlc.ValidEncodings`), so the server never stores one outside.
* Repeated pulls receive everything if and only if every pending row's frame fits the body cap by itself (`ChatPull.PullsFinishExactly`); headers within their own cap make it so.
* A finished pull brings the cursor to the head it reported except when an acknowledgement has moved the cursor past that head, the checkpoint is not contained, and the pull had asked from beyond the checkpoint (`ChatSync.FinishedPullCatchesUp`, an equivalence). `ChatSync.CursorCanBeSetBack` is a run in which that happens; nothing is lost, but the rows travel again.
* A re-pushed batch is recognised exactly while the floor is below its row (`ChatLog.RepushIsDeduplicatedWhileStored`).
* Sent updates all arrive exactly when none exceeds the reassembly limit (`Fragments.ShuffledUpdatesAreConserved`); the sender does not check that limit.
* The preview budget lets up to two windows' worth of messages through almost at once (`Preview.TwoBudgetsMayMeet`) and never more (`Preview.BudgetBoundsTheRate`).
* `docs/registry-sync.md` says a delete applies when newer than the tombstone clock. The code compares it with the newest clock anywhere on a live row, and the model follows the code.

## Model

| member | source | states |
|---|---|---|
| Hlc.ClocksAreTotallyOrdered | edge/src/registry-core.ts:13-22 | string comparison of clocks is a strict total order, so two different clocks never tie |
| Hlc.EncodingKeepsOrder | edge/src/registry-core.ts:13-19 | for milliseconds below 10^13 and counters below 10^6, string order on encoded clocks is exactly the order on (ms, counter, device) |
| Hlc.WidthIsExact | edge/src/registry-core.ts:18-19 | padding keeps the fixed width exactly while the number fits it |
| Hlc.WideClocksMisorder | edge/src/registry-core.ts:18-19 | past either width the order is lost: the first 14-digit millisecond sorts before the last 13-digit one, and the first 7-digit counter before the last 6-digit one |
| Hlc.ValidEncodings | edge/src/registry-core.ts:58 | validation accepts an encoded clock if and only if both numbers fit their width and the device has its form |
| Hlc.ValidClocksDecode | edge/src/registry-core.ts:58 | every clock that passes validation is the encoding of numbers that fit |
| Hlc.HorizonSelectsValidClocks | edge/src/registry-room.ts:457-463 | comparing a valid clock with the horizon string selects exactly the clocks whose milliseconds lie below the horizon, before the epoch included |
| RegistryCore.MaxClockOf | edge/src/registry-core.ts:165-171 | the loop finds the newest of the tombstone clock and all field clocks |
| RegistryCore.WriteEntries | edge/src/registry-core.ts:144-160 | the field loop keeps, per field, the newer of the stored and the offered write, and reports a change exactly when one won or the row is new |
| RegistryCore.Apply | edge/src/registry-core.ts:111-161 | every branch of the merge: tombstone on missing, delete against the newest clock, update never creates or revives, revival from empty clocks |
| RegistryMerge.ApplyKeepsWellFormed | edge/src/registry-core.ts:111-161 | every stored field keeps a clock, and tombstones stay empty with a tombstone clock |
| RegistryMerge.BeatsMaxClock | edge/src/registry-core.ts:165-171 | a delete wins over a live row exactly when it is newer than every clock on it |
| RegistryMerge.LiveRowHoldsNewest | edge/src/registry-core.ts:144-160 | after any sequence of writes each field of a live row is a newest write to it, null meaning absent |
| RegistryMerge.LiveRowsConverge | edge/src/registry-core.ts:100-161 | any two arrivals of the same set of writes, repeats included, give the same row when tying newest writes agree |
| RegistryMerge.DistinctClocksConverge | edge/src/registry-core.ts:13-16 | clocks that never tie on different values, as the device suffix gives, are enough to converge |
| RegistryMerge.ConvergenceIsExact | edge/src/registry-core.ts:22 | all arrival orders agree if and only if tying newest writes agree on the value |
| RegistryArrivals.HeldStep | edge/src/registry-core.ts:111-161 | after any part of an arrival, in any order, the row is made of what arrived and holds, at least as new, every write of every upsert seen that no delete can stop |
| RegistryArrivals.UncontestedIsBuried | edge/src/registry-core.ts:114-142 | where no upsert is newer than the newest delete and no write fences it out, every arrival ends in its bare tombstone |
| RegistryRevival.RevivalConvergesExactly | edge/src/registry-core.ts:111-161 | from an absent row, any upserts, updates and deletes under any clocks agree on the final state over all orders and repeats if and only if no order leaves the row live, or some upserts are newer than the newest delete by their own and a written clock and write every field that anything writes, at least as new |
| RegistryRevival.OneClockCover | edge/src/registry-core.ts:111-142 | for operations under one clock each the condition is that the upserts newer than the newest delete, if any, write every field that any upsert writes |
| RegistryRevival.NewestDeleteWins | edge/src/registry-core.ts:114-142 | a delete that is the newest operation, and newer than every write, always wins, whatever else arrives in whatever order |
| RegistryRevival.NewestOperationWins | edge/src/registry-core.ts:111-171 | from an absent row, whole-row upserts and deletes in any order with repeats end in the state of the single newest operation |
| RegistryRevival.RevivalsDependOnOrder | edge/src/registry-core.ts:135-139 | the smallest uncovered case: two arrival orders of create, delete and a narrower upsert end differently |
| RegistryHistory.MaxClockNeverDecreases | edge/src/registry-core.ts:165-171 | no operation moves a stored row's newest clock back |
| RegistryHistory.MaxClockNeverDecreasesOverRuns | edge/src/registry-core.ts:111-171 | nor does any history of operations and alarms, until the row is purged |
| RegistryHistory.DeliveredDeleteNeverReapplies | edge/src/registry-core.ts:114-128 | once delivered, a delete changes nothing again, whatever came in between, as long as the row is not purged |
| RegistryHistory.PurgeForgets | edge/src/registry-room.ts:457-470 | after the purge of its tombstone any delete and any upsert applies to the row, however old |
| RegistryHistory.SettledIsNoOp | edge/src/registry-core.ts:147-159 | a write to a live row changes nothing exactly when each of its fields already holds a clock as new |
| RegistryHistory.DeliverySettles | edge/src/registry-core.ts:144-160 | a write lands fully on the first live row it meets |
| RegistryHistory.SettledStays | edge/src/registry-core.ts:144-160 | and stays settled under every later write |
| RegistryHistory.SeedingRestoresARow | edge/src/registry-core.ts:173-188 | seeding an absent row restores its deleted flag, its fields and the clock of every present field |
| RegistryHistory.SeedingIsExact | edge/src/registry-core.ts:175-188 | the restored row is the original if and only if it is deleted, or was never revived and holds no cleared field |
| RegistryHistory.SeedRevivesExactly | edge/src/registry-core.ts:179-187 | the seed of a live copy revives a tombstone if and only if some clock on the copy is newer than it |
| RegistryHistory.StaleSeedsChangeNothing | edge/src/registry-core.ts:175-188 | seeding an old copy that has a clock changes nothing in any later state, unless the row was revived or purged in between |
| RegistryHistory.PurgedRowIsReseeded | edge/src/registry-core.ts:175-188 | delete any live row and purge it, and the seed of its old copy brings it back live, with its fields |
| RegistryHistory.ClocklessSeedRevives | edge/src/registry-core.ts:179 | a row without a clock is an empty one, and its seed revives a later tombstone |
| RegistryHistory.StaleSeedsAreHarmlessExactly | edge/src/registry-core.ts:175-188 | a stale seed changes nothing after every history that neither revives nor purges the row if and only if the old copy carried a clock |
| RegistryTable.OverlayKeyIsInjective | edge/src/registry-room.ts:387 | the text key of the batch overlay names one table row |
| RegistryTable.ValidKindHasNoSpace | edge/src/registry-core.ts:56 | validated kinds contain no space, which that needs |
| RegistryTable.PushKeepsServerOk | edge/src/registry-room.ts:370-401 | every stored stamp stays between 1 and the batch counter, rows stay under their own keys, and only validated clocks are stored |
| RegistryTable.AlarmKeepsServerOk | edge/src/registry-room.ts:451-470 | so does tombstone collection |
| RegistryTable.AlarmPurgesExactlyOldTombstones | edge/src/registry-room.ts:457-470 | of any stored table, the alarm removes a row exactly when it is a tombstone whose clock is more than the retention old, leaves every other row as it was, and the floor covers what it removed |
| RegistryTable.AlarmRaisesFloorExactly | edge/src/registry-room.ts:457-470 | the floor rises to the newest stamp purged, and no further; the counter stays, and the alarm is idle until a push |
| RegistryTable.PushAppliesNothingExactly | edge/src/registry-room.ts:385-401 | a push applies zero operations exactly when each alone would change nothing, and then the table is as it was |
| RegistryTable.BatchEqualsOneAtATime | edge/src/registry-room.ts:381-401 | a batch equals its operations pushed one at a time, up to stamps; the counter pays one per batch, and the number reported as applied is what it would pay one at a time |
| RegistryTable.BroadcastIsTheDelta | edge/src/registry-room.ts:402-414 | the broadcast rows are exactly the rows newer than the counter before the push |
| RegistryRedelivery.SpentStays | edge/src/registry-core.ts:109-161 | an operation with nothing left to do to a row stays so under every operation that does not revive the row |
| RegistryRedelivery.DeliveredIsSpentExactly | edge/src/registry-core.ts:109-161 | a delivery leaves its operation spent if and only if it is no update without a row and no upsert that a delete can undercut |
| RegistryRedelivery.OwnClockFences | edge/src/registry-core.ts:112-137 | an upsert no newer than some clock it writes cannot be undercut, wherever it lands |
| RegistryRedelivery.NoClockBetweenExactly | edge/src/registry-core.ts:22 | whether a delete can undercut is one comparison: the next valid clock is the row's newest with a dash appended |
| RegistryRedelivery.NoClockBelowExactly | edge/src/registry-core.ts:22 | on a row without a clock a delete undercuts every upsert not under the least clock there is |
| RegistryRedelivery.RedeliveryIsSilentExactly | edge/src/registry-room.ts:218-243 | after any later pushes and alarms that neither revive nor purge one of its rows, pushing a batch again changes nothing, if and only if the first push left every operation spent |
| RegistryRedelivery.LandedBatchIsSilent | edge/src/registry-room.ts:218-243 | so a batch with deletes whose operations each landed for good can be redelivered, counter included, without effect, until one of its rows is revived or purged |
| RegistryRedelivery.DeleteFreeRedeliveryExactly | edge/src/registry-room.ts:218-243 | where nothing is deleted, and alarms run or not, redelivery is always without effect if and only if the first push landed every operation but updates that write nothing |
| RegistryRedelivery.RedeliveryChangesNothing | edge/src/registry-room.ts:218-243 | in particular when each update of the batch met its row |
| RegistryRedelivery.DroppedUpdateReapplies | edge/src/registry-core.ts:133 | an update that outran its create does apply on redelivery |
| RegistryRedelivery.RevivedRowTakesOldFields | edge/src/registry-core.ts:139 | after a revival a redelivered upsert brings back a field the revival dropped |
| RegistryRedelivery.UndercutUpsertRevives | edge/src/registry-core.ts:112-139 | an upsert newer than the clocks it writes revives the row a delete between them buried |
| RegistryRedelivery.PurgeUndoesDelivery | edge/src/registry-room.ts:457-470 | an operation on a row the alarm has purged creates it anew when it is pushed again, as a tombstone or live |
| RegistryRedelivery.PurgedDeleteReapplies | edge/src/registry-room.ts:457-470 | so the delete of an unknown row, spent by its delivery, is heard again once its tombstone is purged |
| RegistryRoom.OverlayStep | edge/src/registry-room.ts:386-394 | one turn of the overlay loop is one operation on the table |
| RegistryRoom.Room.ApplyPushBatch | edge/src/registry-room.ts:354-416 | a malformed or invalid batch changes nothing; otherwise the room takes the batch whole and broadcasts the touched rows |
| RegistryRoom.Room.ApplyToOverlay | edge/src/registry-room.ts:383-394 | the loop over the overlay leaves the batch result over the stored table, and counts what applied |
| RegistryRoom.Room.SaveRows | edge/src/registry-room.ts:395-396 | saving the overlay turns the stored table into that result |
| RegistryRoom.Room.HandleHello | edge/src/registry-room.ts:312-335 | a cursor from the floor to the counter is answered with just the rows stamped after it; and any copy of the table that is in step under the given cursor becomes exactly the live rows, at the present counter, by taking the answer |
| RegistryRoom.Room.Alarm | edge/src/registry-room.ts:452-470 | the collection loop finds the highest purged stamp, purges, raises the floor, and is idle when nothing changed |
| RegistrySync.AlarmKeepsStep | edge/src/registry-room.ts:455-470 | a purge that strands a replica's live row puts the floor above that replica's cursor |
| RegistrySync.HelloBringsUpToDate | edge/src/registry-room.ts:312-335 | taking a hello answer brings any replica to the counter |
| RegistrySync.HeardPushKeepsStep | crates/doc/src/registry.rs:506-524 | a broadcast applied to a replica, with or without a gap below it, keeps it in step |
| RegistrySync.RunKeepsInv | edge/src/registry-room.ts:312-470 | pushes, alarms and syncs in any interleaving keep every replica in step with the table |
| RegistrySync.CaughtUpReplicasAreExact | edge/src/registry-room.ts:312-335 | in every run a replica whose cursor is the counter holds exactly the live rows |
| RegistrySync.HelloIsExact | edge/src/registry-room.ts:321-334 | in every run a client that takes the hello answer holds exactly the live rows, across collections |
| RegistrySync.HeardPushKeepsReplicaCaughtUp | crates/doc/src/registry.rs:506-524 | a caught-up client that hears every broadcast stays exact |
| RegistryAnswers.AnswerIsTheDelta | edge/src/registry-room.ts:321-334 | in every run a cursor from the floor to the counter is answered with exactly the rows that pushes changed since the counter stood there, as they now are, and the client is asked to seed nothing |
| RegistryAnswers.SecondHelloIsEmpty | edge/src/registry-room.ts:321-334 | in every run a second hello with nothing in between brings an empty delta |
| RegistryAnswers.AnswerIsFullExactly | edge/src/registry-room.ts:325 | in every run an answer is full if and only if the client never asked before, or a row last changed after its cursor has been purged |
| RegistryAnswers.FloorIsNewestPurged | edge/src/registry-room.ts:457-470 | in every run the floor is the newest stamp ever purged |
| RegistryAnswers.AlarmCollectsExactly | edge/src/registry-room.ts:451-470 | in every run an alarm purges a row if and only if it is a tombstone past its retention and some push has applied since the alarm before |
| RegistryAnswers.HeardRowsLand | crates/doc/src/registry.rs:512-527 | a client that hears a push holds the rows it changed as the table does, past a gap too, and every other row as before |
| RegistryReseed.SeedsAreValid | crates/doc/src/registry.rs:255-285 | the seeds of rows a server could hold pass its checks of kinds and clocks |
| RegistryReseed.ReseedAddsExactly | crates/doc/src/registry.rs:477-503 | pushing the seeds of the rows a table lacks, in any order and any batches, changes no row of the table and adds exactly those rows, with their deleted flags and fields |
| RegistryReseed.WipeIsLosslessExactly | crates/doc/src/registry.rs:458-476 | seeding a wiped server from a copy gives the copy's table, batch numbers aside, if and only if each row is deleted, or was never revived and holds no cleared field |
| RegistryReseed.LostServerCatchesUp | crates/doc/src/registry.rs:458-476 | a server fallen behind a copy, whatever rows it has, gets every field of the copy's live rows at least as new as the copy held it, where it has not buried the row |
| RegistryReseed.ReseedRevivesExactly | crates/doc/src/registry.rs:442-503 | in every run, what an answer makes a client push brings back exactly the rows it held live and the table had lost, each of them deleted and purged before, and only from below the floor; rows in the table stay as they were |
| RegistryReseed.PurgedRowComesBack | crates/doc/src/registry.rs:477-503 | a run in which a client that missed a delete brings the row back after its collection |
| RegistryClient.ChunksHoldTheOps | crates/doc/src/registry.rs:587-617 | the queued batches hold the operations in order, none empty, none over the room's cap and none but the last less than 400 |
| RegistryClient.SeedOp | crates/doc/src/registry.rs:255-285 | the seed of a row, its clock found by the loop over clocks |
| RegistryClient.SeedRows | crates/doc/src/registry.rs:483-492 | the loop lists the seeds of exactly the rows outside the given ones |
| RegistryClient.Doc.EnqueueOps | crates/doc/src/registry.rs:587-617 | the splitting loop appends the operations in full chunks and a rest |
| RegistryClient.Doc.ApplyState | crates/doc/src/registry.rs:442-503 | a delta lands, a full answer replaces, one from behind the cursor lands and seeds everything; exactly the seeds owed are queued behind what was pending, and the outcome says which it was |
| RegistryClient.Doc.ApplyRows | crates/doc/src/registry.rs:512-527 | rows always land, and the cursor moves exactly when there is no gap |
| UpdateLog.AppendedUpdatesReadBack | edge/src/update-log.ts:32-66 | appending any non-empty updates after any rows and reading back yields them after what was there, in order |
| UpdateLog.LegacyRowsReadBack | edge/src/update-log.ts:13-15 | rows all marked as starts read back as one update each |
| UpdateLog.ChunkRowsFit | edge/src/update-log.ts:31-42 | rows are not empty, none but the last less than 1,500,000 bytes and none more, and together as long as the update |
| UpdateLog.Log.AppendUpdateRow | edge/src/update-log.ts:32-42 | the insert loop appends exactly the update's chunk rows |
| UpdateLog.Log.ReadUpdateRows | edge/src/update-log.ts:45-66 | the reader loop regroups the rows into the updates |
| Blobs.IntersectingChunks | edge/src/blobs.ts:44-47 | the chunks selected are exactly those that intersect the range |
| Blobs.BlobStore.Put | edge/src/blobs.ts:22-28 | the name then holds the bytes, empty ones included, and every other name its own rows |
| Blobs.BlobStore.Delete | edge/src/blobs.ts:56-58 | exactly the name's rows go |
| Blobs.BlobStore.GetRange | edge/src/blobs.ts:32-55 | a range error exactly for a start or end out of bounds, missing for an unknown name, otherwise the bytes of the range and the full length, reading only the intersecting chunks |
| Blobs.BlobStore.ReadChunks | edge/src/blobs.ts:41-53 | the copy loop fills the output with exactly the range |
| Blobs.ResumedDownloadIsWhole | edge/src/chat-room.ts:148-174 | resuming a cut download at any points, as often as it takes, makes up the whole checkpoint |
| Blobs.ServesExactly | edge/src/chat-room.ts:148-174 | not found, unsatisfiable, part or whole, each exactly when it applies, with the bytes the range header names |
| ChatFrames.FramesRoundTrip | edge/src/chat-frames.ts:65-101 | bytes decode to a frame if and only if they are the encoding of that sendable frame |
| ChatFrames.EncodedLayout | edge/src/chat-frames.ts:65-78 | byte by byte: kind, the header's length with its lowest byte first, header, payload |
| ChatFrames.EncodeFrame | edge/src/chat-frames.ts:65-78 | filling the buffer part by part gives type, length, header, payload |
| ChatFrames.BodyParsesBack | edge/src/chat-room.ts:227-235 | a length-prefixed body parses back to its frames |
| ChatFrames.CutBodyParsesToAPrefix | crates/sync/src/chat_client.rs:1538-1553 | a body cut anywhere parses to a prefix of its frames |
| ChatFrames.BuildBody | edge/src/chat-room.ts:227-235 | the buffer filled at a moving offset is that body |
| ChatLog.CommitPrunesExactly | edge/src/chat-log.ts:128-149 | a commit is accepted exactly between floor and head, and prunes exactly the rows it newly covers |
| ChatLog.CheckpointIsLastCommitted | edge/src/chat-log.ts:128-149 | in every run the stored blob, the stored frontier and the floor are those of the last commit that was in bounds, none before the first |
| ChatLog.AppendIsExact | edge/src/chat-log.ts:65-89 | a row within the cap under a batch not stored becomes the row after the head as it came, a stored batch is answered its number, and nothing else changes the log |
| ChatLog.RowsAreTheAppends | edge/src/chat-log.ts:65-89 | in every run the head counts the new rows within the cap, and each stored row is byte for byte the one whose append brought the head to its number |
| ChatLog.RunKeepsLogOk | edge/src/chat-log.ts:65-149 | in every run the stored numbers are exactly floor+1 to head with unique batch ids, the checkpoint sits at the floor, and neither moves back |
| ChatLog.FreshAcksCountUp | edge/src/chat-log.ts:78-88 | fresh acknowledgements are consecutive numbers, across pruning |
| ChatLog.StoredRowsStay | edge/src/chat-log.ts:142 | a stored row stays unchanged exactly until the floor passes it |
| ChatLog.RepushIsDeduplicatedWhileStored | edge/src/chat-log.ts:61-77 | a re-push answers the original number and changes nothing exactly while its row is stored |
| ChatLog.RowsFromIsExact | edge/src/chat-log.ts:93-113 | reading after a number yields exactly the wanted rows, in increasing order |
| ChatLog.Store.AppendRow | edge/src/chat-log.ts:65-89 | empty and oversized rows are refused, known batches answered, others appended at head+1 |
| ChatLog.Store.CommitCheckpoint | edge/src/chat-log.ts:128-149 | the three refusals, and otherwise blob, frontier, pruning and both counters together |
| ChatLog.Store.ReadRowsAfter | edge/src/chat-log.ts:93-113 | the cursor loop reads those rows |
| ChatPull.PageIsLongestFit | edge/src/chat-room.ts:204-223 | a page is the longest prefix of the rows whose frames fit the cap |
| ChatPull.TruncatedPagesCarryThreeRows | edge/src/chat-room.ts:204-223 | with headers within their cap a truncated page carries at least three rows |
| ChatPull.PullsFinishExactly | edge/src/chat-room.ts:204-226 | repeated pulls receive every pending row sooner or later if and only if each row's frame alone fits the cap |
| ChatPull.PullsEqualOneRead | edge/src/chat-room.ts:204-226 | repeated pulls terminate and concatenate to exactly one unbounded read |
| ChatPull.PulledRowsReadBack | edge/src/chat-room.ts:190-235 | the body parses back to its frames and each row frame decodes to its row's bytes |
| ChatPull.ResponseIsExact | edge/src/chat-room.ts:190-235 | a parsed response is the state frame, then only frames of pending rows, and the final marker, as the last frame, if and only if no pending row's frame is missing |
| ChatPull.TakePage | edge/src/chat-room.ts:209-223 | the paging loop takes that page and reports truncation exactly when rows are left |
| ChatPull.GetRows | edge/src/chat-room.ts:176-239 | the handler's body, parsed, is such a response |
| ChatSync.CursorsAreHonest | edge/src/chat-room.ts:176-239 | in every run each client's document holds every update accepted at or below its cursor |
| ChatSync.NothingAcceptedIsLost | edge/src/chat-log.ts:119-149 | in every run an accepted update is still a row or in what the stored checkpoint blob decodes to |
| ChatSync.FinishedPullIsComplete | edge/src/chat-room.ts:176-239 | a pull in whose body the client finds the final marker, own rows excluded or not, leaves everything accepted up to the reported head in the document |
| ChatSync.FinishedPullCatchesUp | crates/sync/src/chat_client.rs:189-216 | when nothing was excluded it brings the cursor to that head if and only if the cursor was not past it, or the checkpoint is contained or absent, or the pull asked from no later than the checkpoint |
| ChatSync.AnswerReadsBack | crates/sync/src/chat_client.rs:1537-1650 | what a client reads in a response body is the log's figures, the page, and done exactly when the page is the last |
| ChatSync.PullAddsExactly | crates/sync/src/chat_client.rs:1576-1634 | a pull adds its rows, and the checkpoint if and only if there is one whose frontier is not contained |
| ChatSync.LostLogIsReread | crates/sync/src/chat_client.rs:194-215 | a cursor past the server's head starts over at the checkpoint, or at the beginning when there is none |
| ChatSync.CursorCanBeSetBack | crates/sync/src/chat_client.rs:194-215 | a run in which a finished pull sets the cursor back below the head it reported |
| ChatSync.RunKeepsInv | edge/src/chat-room.ts:176-281 | local commits, pushes, re-pushes, checkpoints and pulls of several devices in any interleaving keep the invariant |
| SessionStore.SalvageEqualsOnePass | edge/src/session-room.ts:702-735 | restarting after a failed import ends with exactly the updates that one skip-the-failures pass imports |
| SessionStore.EveryUpdateIsTried | edge/src/session-room.ts:724-734 | a pass keeps every non-empty update whose import does not itself fail at some document on the way, and nothing else: one bad update costs no other |
| SessionStore.AllImportExactly | edge/src/session-room.ts:704-709 | a batch imports throughout if and only if each non-empty update imports after those before it |
| SessionStore.ReplayRebuilds | edge/src/session-room.ts:939-957 | a cold replay of snapshot, log and buffer skips nothing and rebuilds what the room holds |
| SessionStore.EnsureKeepsOk | edge/src/session-room.ts:888-1003 | materializing changes nothing the room holds; a trim after a cold replay, and only that, makes it the snapshot and clears the log |
| SessionStore.ApplyKeepsOk | edge/src/session-room.ts:693-765 | accepting a batch adds the same updates to document and buffer, on the good path and on the salvage path |
| SessionStore.FlushKeepsOk | edge/src/session-room.ts:1075-1123 | flushing, with the fold it may trigger, keeps the content and leaves the log within both budgets |
| SessionStore.FlushFoldsExactly | edge/src/session-room.ts:1075-1123 | a flush makes everything held the snapshot if and only if the log with the buffer on it would pass a budget, and else appends the buffer in order |
| SessionStore.CrashLosesOnlyTheBuffer | edge/src/session-room.ts:951-957 | losing memory loses at most what was still buffered |
| SessionStore.DocumentIsAlwaysRebuildable | edge/src/session-room.ts:685-1123 | after any run the cached document and a cold replay both equal the accepted updates, and byte counter and budgets are true |
| SessionStore.NothingHeldIsForgotten | edge/src/session-room.ts:784-804 | without a kill, what the room holds and what a cold replay rebuilds only grow |
| SessionStore.AcceptedBatchIsKept | edge/src/session-room.ts:693-765 | every non-empty update of a batch that is let in, unless its own import failed, is rebuilt by a cold replay after any later kill-free run |
| SessionPenalty.ShutOutExactly | edge/src/session-room.ts:664-763 | in every run a batch is turned away unread if and only if it is above 4 KB and its device has failed at least three times since its last clean batch, the last time within ten minutes |
| SessionRoom.Room.EnsureDoc | edge/src/session-room.ts:888-1003 | the method takes exactly the materializing step |
| SessionRoom.Room.ReplayInto | edge/src/session-room.ts:943-957 | the replay loop tries every update: each non-empty one is held or failed when it was tried |
| SessionRoom.Room.ImportUntilFailure | edge/src/session-room.ts:704-709 | the first pass stops at the first update that fails |
| SessionRoom.Room.Salvage | edge/src/session-room.ts:724-734 | the second pass tries every update and keeps, in order, those that do not fail |
| SessionRoom.Room.ImportBatch | edge/src/session-room.ts:702-735 | both passes together try every update and keep those that do not fail, and succeed exactly when each imports in turn |
| SessionRoom.Room.Record | edge/src/session-room.ts:784-791 | the buffer grows by the non-empty updates and its byte count with it |
| SessionRoom.Room.ApplyUpdates | edge/src/session-room.ts:685-765 | unless turned away, every non-empty update is held and relayed or failed when it was tried, nothing else is, and the batch is accepted exactly when each imports in turn |
| SessionRoom.Room.FoldLog | edge/src/session-room.ts:1113-1123 | folding makes the document the snapshot and clears log and counter |
| SessionRoom.Room.Flush | edge/src/session-room.ts:1075-1105 | the flush loop appends every buffered update and folds exactly past a budget |
| SessionRoom.Room.ReleaseIdleDoc | edge/src/session-room.ts:1016-1029 | the cached document goes, and nothing else, exactly when idle for a minute |
| Fragments.SmallBatchesAreBounded | edge/src/session-room.ts:1345-1351 | no frame of small updates is empty or totals more than the fragment size |
| Fragments.SmallBatchesKeepOrder | edge/src/session-room.ts:1345-1351 | the frames hold all the small updates in order |
| Fragments.SmallBatchesAreGreedy | edge/src/session-room.ts:1345-1351 | no two frames in a row could have been one |
| Fragments.FragmentsAreFull | edge/src/session-room.ts:1354-1379 | a large update goes out in as many fragments as it takes, each of 200,000 bytes but the last, cut at their places |
| Fragments.FragmentStep | edge/src/session-room.ts:847-884 | a fragment lands in its slot, other batches are untouched, and the last one delivers the update byte for byte |
| Fragments.MessagesAreDistinct | edge/src/session-room.ts:1328-1381 | what is sent is each header and each fragment once, headers first |
| Fragments.ArrivalDelivers | edge/src/session-room.ts:806-884 | any arrival of every message once, headers before their fragments, delivers what the jobs carry |
| Fragments.ShuffledUpdatesAreConserved | edge/src/session-room.ts:1324-1381 | under any such shuffle and interleaving the delivered updates are the sent ones within the reassembly limit; all of them exactly when none exceeds it |
| FragmentRoom.SendSmall | edge/src/session-room.ts:1330-1351 | the first pass sends the frames of small updates |
| FragmentRoom.SendLarge | edge/src/session-room.ts:1354-1379 | a header, then the fragments in order |
| FragmentRoom.SendUpdates | edge/src/session-room.ts:1328-1381 | both passes send exactly the messages of the updates, each batch under its own id |
| FragmentRoom.CopyParts | edge/src/session-room.ts:877-882 | copying the parts at a moving offset gives them joined and padded to the size, or nothing exactly at a hole or an overrun |
| FragmentRoom.Reassembler.HandleFragmentHeader | edge/src/session-room.ts:806-845 | a batch above 32 MB or 4096 fragments is refused, any other opens an empty batch, replacing one of its id |
| FragmentRoom.Reassembler.HandleFragment | edge/src/session-room.ts:847-884 | a fragment fills its slot of an open batch, past the end leaving holes; with as many received as there are slots the batch closes and delivers its parts joined, or nothing at a hole or an overrun; no other batch is touched |
| Nudges.FirstRowsAreCurrent | edge/src/device-nudges.ts:30-34 | the window holds current rows, one per chat, as many as there are up to two pages |
| Nudges.FirstRowsAreInOrder | edge/src/device-nudges.ts:32 | the window is in queue order, by time and then by chat |
| Nudges.WindowHoldsTheOldest | edge/src/device-nudges.ts:32 | a wake left out of the window was queued after every wake inside it |
| Nudges.ReplayRetires | edge/src/device-room.ts:227-241 | a replay retires nothing for a host that acknowledges, and for one that does not just what it was sent |
| Nudges.ReplaySendsExactly | edge/src/device-room.ts:227-244 | a replay sends what is due, oldest first, until the page is full: not what is in flight, and no reconciliation to a host that cannot acknowledge it |
| Nudges.SentIsInFlight | edge/src/device-room.ts:229-242 | what goes out is what comes into flight, none of it twice |
| Nudges.WindowIsBounded | edge/src/device-room.ts:233 | at most a page goes out and at most a page is ever in flight |
| Nudges.ReplayFillsTheWindow | edge/src/device-room.ts:227-244 | after a replay to an acknowledging host its page is full or everything queued is in flight |
| Nudges.ReplayMakesProgress | edge/src/device-nudges.ts:32 | with room in flight and a wake that is not, a replay sends something: two pages of window are enough |
| NudgeRuns.RunKeepsInv | edge/src/device-nudges.ts:16-28 | in every run the queue stays within its cap and each host within its page |
| NudgeRuns.HostsAreTheJoined | edge/src/device-room.ts:163-179 | in every run the hosts are those that joined and have not closed since, acknowledging or not as they joined |
| NudgeRuns.NoWakeIsLost | edge/src/device-nudges.ts:16-39 | in every run a chat is queued with a time and receipt exactly when its latest accepted wake came with them and that receipt is not settled since |
| NudgeRuns.OnlyItsOwnAckSettles | edge/src/device-nudges.ts:36-39 | when every host acknowledges, only an acknowledgement naming that very receipt settles it |
| NudgeRuns.RefusalIsRemembered | edge/src/device-nudges.ts:19-24 | the reconciliation asked for by the latest refused wake stands exactly until its own acknowledgement |
| NudgeRuns.ReceiptsStayDistinct | edge/src/device-nudges.ts:25-26 | while wakes carry receipts of their own, so do the queue's rows |
| NudgeRuns.ReplaysLeaveNothingWaiting | edge/src/device-room.ts:212-287 | in every run, after a wake the live host, after an alarm the live host, and after its joining or acknowledging a host has a full page or everything queued in flight; one that does not acknowledge was sent a full page or all there was |
| NudgeRuns.SendsExactly | edge/src/device-room.ts:212-287 | in every run each of these events sends its host exactly what is due then: after joining or an alarm nothing counts as in flight, after an acknowledgement its receipt no longer does |
| NudgeRuns.NothingElseIsSent | edge/src/device-room.ts:212-287 | and no other event sends anything |
| NudgeRuns.FlightIsTracked | edge/src/device-room.ts:227-244 | what a host then has in flight is what it had and what it was sent |
| NudgeRuns.RoundShrinksQueue | edge/src/device-room.ts:246-253 | one alarm, all of it acknowledged, clears the reconciliation and retires exactly as many wakes as its page then holds, or all there are |
| NudgeRuns.AcknowledgingDrains | edge/src/device-room.ts:246-287 | a host that acknowledges all it is sent empties the queue in n rounds if and only if n pages hold the queue and its reconciliation |
| DeviceRoom.PickLiveHost | edge/src/device-room.ts:336-353 | a host is picked exactly when some eligible socket is live, and then the freshest, the first of equals |
| DeviceRoom.SelectOldest | edge/src/device-nudges.ts:32 | the ordered, limited selection |
| DeviceRoom.Room.EnqueueNudge | edge/src/device-nudges.ts:16-28 | accepted unless new and the queue is full; the newer receipt replaces the older |
| DeviceRoom.Room.AcknowledgeNudge | edge/src/device-nudges.ts:36-39 | a row goes only for its own receipt |
| DeviceRoom.Room.ReplayNudges | edge/src/device-room.ts:227-244 | the loop sends, counts and retires as the replay specification says |
| DeviceRoom.Room.PostNudge | edge/src/device-room.ts:212-222 | the handler takes the wake step and answers bad id, full, or queued with whether a host was live |
| DeviceRoom.Room.JoinHost | edge/src/device-room.ts:163-179 | a joining host starts with nothing in flight and is sent what is queued |
| DeviceRoom.Room.HandleNudgeAck | edge/src/device-room.ts:276-287 | the acknowledgement retires its receipt, frees its slot and replays |
| DeviceRoom.Room.HandleAlarm | edge/src/device-room.ts:246-253 | the alarm forgets what was in flight and sends again, if a host is live |
| Preview.VacatingLeavesOthers | edge/src/preview-room.ts:50-53 | retiring a device's earlier socket frees its place and leaves what peers see of others |
| Preview.JoinKeepsInv | edge/src/preview-room.ts:53-63 | a joining socket is told the table, and told to the table's peers |
| Preview.RemoveKeepsInv | edge/src/preview-room.ts:114-120 | a leaving socket takes its catalog and every peer's entry with it |
| Preview.OnMessageKeepsInv | edge/src/preview-room.ts:67-90 | every message, valid or not, keeps views and table equal |
| Preview.MessageSendsExactly | edge/src/preview-room.ts:67-90 | an accepted catalog goes to every other active socket, a signal to the socket of the device it names or back as gone, and no message adds anything else to any socket |
| Preview.CountedExactly | edge/src/preview-room.ts:67-75 | a message counts if and only if its socket takes part, it is signaling, and the window has passed or holds fewer than 120 |
| Preview.BudgetBoundsTheRate | edge/src/preview-room.ts:72-74 | 241 messages in a row on one socket span more than one window |
| Preview.RefusedOnlyWhenBusy | edge/src/preview-room.ts:72-74 | a message is refused for its rate only after 120 counted ones in the ten seconds before it |
| Preview.TwoBudgetsMayMeet | edge/src/preview-room.ts:72-74 | 240 can arrive within a millisecond |
| Preview.EvictsExactlyTheStale | edge/src/preview-room.ts:93-105 | the alarm retires exactly the sockets silent for 45 s or older than 15 min |
| PreviewRuns.DevicesAreBounded | edge/src/preview-room.ts:45-120 | in every run at most 16 devices take part, each by one socket, and stored catalogs are valid ones of those devices |
| PreviewRuns.ConnectsExactly | edge/src/preview-room.ts:45-51 | after any run a connection is accepted if and only if it is an authenticated upgrade under a valid id and its device is there already or fewer than sixteen are; otherwise the answer names the first check that failed |
| PreviewRuns.SignalsReachTheirDevice | edge/src/preview-room.ts:83-88 | after any run a signal within budget reaches the socket of the device it names, with its sender's name, and no other; without one its sender hears that it is gone |
| PreviewRuns.SilentSocketsAreEvicted | edge/src/preview-room.ts:93-105 | after any run an alarm keeps a device's socket if and only if a counted message, its connecting or a pong is within 45 s and its connecting within 15 min |
| PreviewRuns.PeersSeeTheRoom | edge/src/preview-room.ts:45-120 | in every run a connected peer's view is the stored catalogs of the other active devices |
| PreviewRuns.TableIsLastPublished | edge/src/preview-room.ts:78-82 | the stored catalog is the last one published on the device's present connection |
| PreviewRuns.PeersSeeTheLatestCatalogs | edge/src/preview-room.ts:45-120 | every peer holds every other active device's last published catalog, across reconnects and evictions |
| PreviewRoom.CheckCatalog | edge/src/preview-room.ts:9-26 | the validating loop accepts exactly at most 256 valid services of the device under distinct ids |
| PreviewRoom.Room.HandleConnect | edge/src/preview-room.ts:45-66 | the four refusals, and otherwise the replacing connection |
| PreviewRoom.Room.HandleMessage | edge/src/preview-room.ts:67-90 | the message step; the socket is closed exactly when the message is no signaling, over budget, an invalid catalog, an invalid signal or neither |
| PreviewRoom.Room.RemoveSocket | edge/src/preview-room.ts:114-120 | the leaving step |
| PreviewRoom.Room.HandleAlarm | edge/src/preview-room.ts:93-105 | the eviction loop |

## Left out

- HTTP and WebSocket plumbing, authentication, room membership, acknowledgement codes of the session protocol, routing, R2 backups, alarm scheduling, statistics, logging: input and output around the logic, or wrappers.
- Loro itself and its wire codec: a document is the set of its updates. The root of a shallow snapshot, poisoned wasm memory and freed documents are not modelled; a trim keeps the content.
- `/reset`, `/reset-log` and the automatic wedge break: they drop data by design, so the runs here exclude them.
- Interleavings at `await` inside one handler, and failed socket sends: each handler is one step and each send succeeds.
- Field names such as `constructor` that JavaScript finds on a plain object's prototype: fields and clocks are maps here.
- Error texts of the operation validator and the order in which it reports them: an operation is valid or it is not. Its byte count is a parameter.
- The order of rows inside one `state` or `rows` frame of the registry: a frame carries a table.
- Presence of the registry and chat rooms, and their quotas: independent of the stores.
- RegistryRevival.RevivalConvergesExactly: starts from an absent row, and takes two writes of one field under one clock to carry one value, as the device in every clock ensures; on live rows RegistryMerge.ConvergenceIsExact does without that.
- RegistryRedelivery.NoClockBetweenExactly: for a newest clock whose device is already at its full length the next clock is not spelled out.
- RegistrySync.HelloIsExact: no run wipes the server, so a client ahead of it occurs only in RegistryReseed.WipeIsLosslessExactly; local writes are pushes of the run, and the queue of pending batches is RegistryClient's alone.
- RegistryReseed.ReseedRevivesExactly: the seeds are pushed before anything else happens to the table; pushes in between are ordinary pushes of the run.
- RegistryClient.Doc.ApplyState: batch ids, the generation counter and the stored floor are not modelled, nor is the one-time zeroing of old snapshots' cursors.
- ChatFrames.FramesRoundTrip: asks for a header shorter than 2^32 bytes, which every typed array is; JSON parsing is a predicate that says which header bytes are an object.
- ChatSync.FinishedPullIsComplete: takes header texts, checkpoints and frontiers to be read as they were written, and what an answer carries to fit its frames; each device name has one client, pushes what its document holds, re-pushes a batch unchanged, and checkpoints no further than its cursor; the WebSocket relay of rows before the backfill ends is not modelled, since only the HTTP pull keeps its own page. A push and the client's taking of its acknowledgement are one step, so acknowledgements that arrive late, after other events, are not in the runs.
- SessionStore.DocumentIsAlwaysRebuildable: importing the same update twice succeeds if it did once, and success depends only on document and update.
- Fragments.ShuffledUpdatesAreConserved: batch ids are numbers given out in turn, standing for the random ones; the room membership check and the penalty box at a fragment header are not modelled, so every batch is one of a member in good standing.
- Blobs.BlobStore.StoredLength: SQL's sum over a name's rows is a loop over its contiguous indexes.
- NudgeRuns.ReceiptsStayDistinct: random receipts are taken to be distinct where the statement needs it, which only the progress statements do.
- DeviceRoom.Room.JoinHost: predecessors are asked to close and stay listed until their close arrives, as in the code; the relay of client frames, the sidecar slots and `host_closed` notices are left out.
- PreviewRuns.SignalsReachTheirDevice: a signal's content is checked before the step, so its SDP rules are not modelled; nor are wrongly typed catalog fields.
- PreviewRoom.Room.HandleMessage: a closed socket stays listed until its close event arrives, which is a later step of the run.
