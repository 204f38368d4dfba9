# Verified model of the zero-nvr control plane

The repository is the control plane of a network video recorder. This project models the algorithms and
protocols in it that carry state over time, and proves what they promise over every run. The programs that
change things step by step are methods and classes, each proved against a specification on values; the
theorems are lemmas about those specifications. `dafny verify dfyconfig.toml` checks everything.

| files | component |
|---|---|
| `Windows`, `Coverage`, `Preroll`, `PrerollRuns`, `PrerollNeeds`, `PrerollBounds`, `PrerollLoop`, `Recovery` | the rolling event prebuffer of the recording programs: window merge, promotion, collection, coverage, recovery from the file system |
| `PrebufferTasks` | the production prebuffer tasks: promotion and delayed collection under changing triggers |
| `Reconciliation`, `CatalogService` | the hook service and the crash-tolerant catalog reconciler |
| `PreviewWall`, `PreviewHistory`, `PreviewNotices`, `PreviewSockets`, `PreviewWallClient` | the browser's preview-wall client |
| `CsvRecords` | the camera batch CSV parser, with a printer of quoted and bare cells that it inverts |
| `Timeline`, `PlaybackLookup` | timeline projection on the server and lookup in the browser |
| `Pagination`, `CursorCodec` | keyset pagination and its cursor text |
| `AtomicWrite`, `SnapshotPublish` | atomic file publication and the swap of a SQLite database |
| `Drift`, `MasterClock` | playback drift control and the master clock |
| `EventBus` | bounded fan-out of runtime events |
| `Wrappers`, `Sorting` | shared shapes, and sorting with its uniqueness facts |

## What the model assumes

- Python floats and JavaScript numbers are reals (`Number` keeps the non-finite case apart); milliseconds of
  a `Date` and of the task queue are integers. Clocks are read values passed in; the lemmas say where they
  must not go back.
- A disk under reconciliation is fixed: which files exist, what listing shows, and what inspecting a file
  yields (`Reconciliation.World`). SQLite transactions are atomic.
- Browser events (socket open, message, close, timer, microtask) are explicit steps in any order. Preview-wall
  listeners do not call back into the client.
- A hook announces a fragment that has ended by the worker's clock, and triggers may be cancelled at any time
  (`PrebufferTasks`).
- A crash keeps the effects on names in the order they were made, except that in `AtomicWrite` the target
  name may fall back to any earlier file, because nothing flushes the directory. Flushing a file makes its
  bytes and its mode durable; bytes never flushed may be torn, and a mode set after the flush may be lost.
  The database that is swapped out and its sidecars are durable when the swap begins (`SnapshotPublish`).

## Results that differ from what one would expect

- **Prebuffer**: "disappeared before promotion" is unreachable over all runs if and only if the buffer is at
  least the pre-roll and no hook reports a duration below pre-roll minus buffer (so 25 s below zero with the
  default 10 s and 35 s); with event windows of no length any duration will do (`BoundsAreExact`).
- **Merging** keeps every overlap of a fragment, whatever the windows, if and only if the fragment has a
  positive length (`MergingKeepsOverlapExactly`).
- **Coverage** is complete for windows longer than the tolerance; no shorter window is safe
  (`ShortWindowsCanBeMissed`).
- **Collection task**: its guard covers the triggers it has read. Nothing needed is lost if no trigger
  reaches back further than the collection delay, and for every shorter delay a run loses a fragment
  (`NothingNeededIsLost`, `LateNeedIsLost`). The end of an event also revives a trigger that was cancelled;
  such a revival must reach back no further either, for no delay covers one that does (`RevivedNeedIsLost`).
- **Promotion** cleans up a copy that is too short or without media; an exception of the copying, the
  inspection, the flush or the rename leaves the unfinished copy, and nothing else leaves one
  (`InterruptedCopyIsLeft`).
- **CSV**: a table printed with quoted and bare cells in any mix is read back, but for two collisions: a row
  ended by CR in front of an empty bare row ended by LF is one CRLF break (`Unambiguous`), and a text that
  begins with U+FEFF loses it (`BomIsDropped`).
- **Next playable time**: the search can return the start of an empty range where nothing plays. It is right
  for all instants if and only if no available range is stray, which positive lengths guarantee
  (`NextPlayableIsExact`, `StrayRangeMisleads`).
- **Atomic write**: exclusive creation alone is not enough; calls that share a temporary name can tear the
  target (`SharedTemporaryTears`), so the unique name is what the guarantee rests on.
- **File mode**: a write sets the requested mode after its last flush, so that a crash can leave the complete
  payload in the mode its temporary was created with, which the umask may have made a narrower one. The
  requested mode survives every crash if and only if the file was created in it, as a usual umask leaves
  0600, or was moved by `replace_durably`, which sets it before the flush (`ModeIsKeptExactly`).
- **Snapshot swap**: the code flushes the copy but no directory, so it relies on the file system keeping the
  order of the renames; were the moves lost and the last rename kept, the result is unsafe exactly when a
  sidecar existed (`LostMovesAreUnsafe`). Stopped by an exception it is always safe. Stopped by a crash it is
  safe if and only if the rollback directory is on the same device, or there was no sidecar, or none had been
  removed: across devices a move is a copy nobody flushes (`CrashIsSafeExactly`).

## Model

| member | source | states |
|---|---|---|
| Windows.MergeWindows | poc/zlm-recording/app/event_preroll.py:167-178 | the loop that widens the last merged window in place computes the sorted fold `Merged` |
| Windows.MergedIsCanonical | poc/zlm-recording/app/event_preroll.py:167-178 | merged windows are sorted, further apart than the tolerance, the same for every permutation of the input, and merging them again changes nothing |
| Windows.MergingKeepsOverlapExactly | poc/zlm-recording/app/event_preroll.py:181-182 | at tolerance 0 a fragment overlaps some merged window iff it overlaps some original one, for all windows, exactly when its length is positive |
| Windows.MergerAloneOverlaps | poc/zlm-recording/app/event_preroll.py:181-182 | every fragment without positive length has two windows touching at its end whose merger it overlaps and neither of which it overlaps |
| Windows.LaterWindowIsHarmless | poc/zlm-recording/app/event_preroll.py:457-461 | a window starting after both ends of a fragment never changes whether the merged windows touch it, however windows chain |
| Windows.NoLengthNoOverlap | poc/zlm-recording/app/event_preroll.py:181-182 | windows without length merge into windows that no fragment without length overlaps |
| Windows.MergedNear | poc/zlm-recording/app/event_preroll.py:167-178 | every instant within the tolerance of a merged interval is within it of one of the windows merged |
| Windows.MergedContains | poc/zlm-recording/app/event_preroll.py:167-178 | every window lies inside one merged interval |
| Windows.MergingGrows | poc/zlm-recording/app/event_preroll.py:167-178 | every merged interval still lies inside one when further windows are merged in, so merged windows only ever grow |
| Coverage.CoverageForEvent | poc/zlm-recording/app/event_preroll.py:337-368 | the scan reports the first merged interval that covers the target within the tolerance, and nothing exactly when none does |
| Coverage.CoverageIsSound | poc/zlm-recording/app/event_preroll.py:337-368 | a positive answer puts every instant of the required window within the tolerance of some promoted fragment |
| Coverage.CoverageIsComplete | poc/zlm-recording/app/event_preroll.py:337-368 | a window longer than the tolerance, spanned by fragments chained with gaps within the tolerance whose overlapping ones are promoted, is reported covered whatever else was promoted |
| Coverage.ShortWindowsCanBeMissed | poc/zlm-recording/app/event_preroll.py:337-368 | every window no longer than the tolerance has a chain spanning it of which no fragment overlaps it, so nothing is promoted and it is not covered |
| PrerollLoop.HookFragments | poc/zlm-recording/app/event_preroll.py:83-118 | the scan of the stored hook rows lists the first row of each eligible path in order |
| Preroll.ListingIsExact | poc/zlm-recording/app/event_preroll.py:83-118 | the listed fragments are exactly those of the stored rows of the stream that were not dropped and lie in the prebuffer, the first one of each path, from their start to their start plus their duration |
| PrerollLoop.PrerollMonitor.PromoteFragment | poc/zlm-recording/app/event_preroll.py:211-259 | one promotion: failure when the file is gone, copying raises, the copy is short, the inspection raises, the media has no duration, or flushing or renaming raises, with the partial copy removed or left as the program does; otherwise the path is promoted and logged |
| PrerollLoop.PrerollMonitor.PromotePass | poc/zlm-recording/app/event_preroll.py:463-468 | the promotion loop skips promoted paths, promotes what overlaps a window, and stops at the first failure; PromoteAllExactly and OnlyNeededIsPromoted say of its value what was promoted |
| PrerollLoop.PrerollMonitor.GcEphemeral | poc/zlm-recording/app/event_preroll.py:270-294 | the collector removes exactly the listed files older than the cutoff that no window needs or that are promoted |
| PrerollLoop.PrerollMonitor.RunPass | poc/zlm-recording/app/event_preroll.py:438-477 | one pass in the source's order: read the time, fire events, merge windows once, promote, collect |
| PrerollLoop.PrerollMonitor.MainLoop | poc/zlm-recording/app/event_preroll.py:437-497 | under any settings the stateful loop equals the run on values, promotes nothing that no fired event needs, and leaves unfinished exactly the copy its failure interrupted; under sufficient settings every state it stops in is safe |
| PrerollRuns.RunIsSafe | poc/zlm-recording/app/event_preroll.py:437-477 | the invariant over all runs: every listed fragment is in the buffer, promoted, or too old for any window still to come and untouched by all so far; promotions are of listed fragments and never repeat |
| Preroll.PassPromotes | poc/zlm-recording/app/event_preroll.py:463-477 | a pass that does not fail promotes every fragment it lists that overlaps the window of an event fired by then, and its collector leaves it promoted |
| PrerollNeeds.PromoteAllExactly | poc/zlm-recording/app/event_preroll.py:463-468 | the promotion loop adds exactly the listed paths some window overlaps, or only some of those when it fails |
| PrerollNeeds.OnlyNeededIsPromoted | poc/zlm-recording/app/event_preroll.py:463-468 | over every run with any settings, each promoted path is that of a listed fragment overlapping the merged event windows, for a fragment of positive length the window of one fired event, spelled out as pre-roll and post-roll around it; its copy was whole, had media and took its final name |
| PrerollNeeds.FailuresAreTrue | poc/zlm-recording/app/event_preroll.py:211-259 | over every run a failure names a fragment some event needs and the cause that really occurred |
| PrerollNeeds.CollectAllExactly | poc/zlm-recording/app/event_preroll.py:270-294 | the collector removes exactly the buffered paths with a listing older than the cutoff that is promoted or that no window needs, and records each of them |
| PrerollNeeds.OnlyOldIsCollected | poc/zlm-recording/app/event_preroll.py:270-294 | over every run, what a pass takes from the buffer was listed as ending before the buffer's length ago, and is promoted or not needed by the windows of the fired events |
| PrerollRuns.PrerollIsNeverLost | poc/zlm-recording/app/event_preroll.py:211-219 | with a buffer at least as long as the pre-roll, no duration below pre-roll minus buffer and a clock that does not go back, promotion never finds a file gone, no path is promoted twice, and every fragment overlapping the window of any past or future event is promoted or still buffered |
| PrerollRuns.SpannedEventIsCovered | poc/zlm-recording/app/event_preroll.py:463-490 | end to end: once a linked recording that spans an event's window is listed, the next pass makes the coverage check answer yes |
| PrerollRuns.InterruptedCopyIsLeft | poc/zlm-recording/app/event_preroll.py:229-249 | over every run a partial copy lies beside its final name iff the run ended in an exception of copying, inspecting or publishing, and then it is that file's |
| PrerollRuns.BufferIsTrimmed | poc/zlm-recording/app/event_preroll.py:270-294 | under any settings, after a pass that does not fail every file listed when it promoted and still in the buffer ends no earlier than the buffer's length before the pass |
| PrerollBounds.BoundsAreExact | poc/zlm-recording/app/event_preroll.py:277-282 | over all runs with durations of at least a given, possibly negative, length the disappearance failure is unreachable if and only if the buffer is at least the pre-roll and that length at least pre-roll minus buffer (or event windows have no length) |
| PrerollBounds.ShortBufferDisappears | poc/zlm-recording/app/event_preroll.py:277-282 | every buffer shorter than the pre-roll has a run that fails, however long all fragments are |
| PrerollBounds.ShortDurationDisappears | poc/zlm-recording/app/event_preroll.py:105-113 | for every sufficient buffer, every duration below pre-roll minus buffer has a run that fails |
| Recovery.Recover | poc/zlm-recording/app/prebuffer_recovery.py:368-393 | recovery publishes the files overlapping the trigger in order, fails when there are none, leaves those before it published when copying one raises, and otherwise succeeds iff their merged coverage covers the window |
| Recovery.RecoveryFindsSpannedTriggers | poc/zlm-recording/app/prebuffer_recovery.py:368-393 | a trigger window longer than the tolerance that the files on disk span is always recovered |
| Recovery.RecoveredMediaIsNear | poc/zlm-recording/app/prebuffer_recovery.py:200-211 | after a recovery every instant of the window is within the tolerance of a file that overlaps it |
| PrebufferTasks.PrebufferWorker.OverlapsFragment | backend/app/modules/recordings/triggers.py:519-568 | the query answers whether a trigger that is not cancelled overlaps the fragment, an open one overlapping everything after its start |
| PrebufferTasks.PrebufferWorker.Promote | backend/app/worker/tasks.py:193-226 | an uninterrupted promotion does nothing for a fragment no live trigger overlaps; it is refused without write capacity, outside the prebuffer, when the file is gone and was never published, or when the copy has the wrong size; otherwise exactly the copy on the camera's target is published and catalogued |
| PrebufferTasks.PrebufferWorker.GcPrebufferFragment | backend/app/worker/tasks.py:266-340 | an uninterrupted collection is the composition of its task's steps; it raises exactly for a buffered fragment that a live trigger overlaps and that is not available on the current target, is then due again after 30 s while retries are left, and refuses to delete outside the prebuffer |
| PrebufferTasks.CollectionIsGuarded | backend/app/worker/tasks.py:296-337 | in every interleaving of hooks, triggers, retargeting, promotions and collections cut between their transactions, a fragment leaves the prebuffer only if no trigger its collection had read needs it or a copy is catalogued as available |
| PrebufferTasks.NothingNeededIsLost | backend/app/modules/recordings/dispatcher.py:60-75 | if no new, extended or revived trigger reaches back further than the collection delay, every fragment any trigger needs is in the prebuffer or available, in every reachable state |
| PrebufferTasks.LateNeedIsLost | backend/app/modules/recordings/dispatcher.py:60-75 | for every shorter delay there is a run after which a needed fragment is in neither place |
| PrebufferTasks.RevivedNeedIsLost | backend/app/modules/recordings/triggers.py:221-233 | an event's end revives a cancelled trigger: for every delay there is a run whose other steps reach back not at all after which the revived trigger needs a fragment that is in neither place |
| PrebufferTasks.OnlyWantedIsPublished | backend/app/worker/tasks.py:193-226 | over every run, each published copy was made by a promotion of a finalized fragment inside the prebuffer, on the target of that moment, while some live trigger overlapped it and it was still there or already published |
| PrebufferTasks.OnlyPublishedIsAvailable | backend/app/worker/tasks.py:193-226 | nothing is catalogued as available that was not published and committed |
| PrebufferTasks.CollectionIsLate | backend/app/modules/recordings/dispatcher.py:60-75 | whatever the triggers do, a fragment leaves the prebuffer no earlier than the collection delay after its end, by a collection and for good, and none outside the prebuffer is deleted |
| PrebufferTasks.ReportedFootageIsWanted | backend/app/modules/recordings/triggers.py:221-233 | once an event's end is reported, and unless it is cancelled later, its trigger wants everything from its start to that end and to every earlier planned end, whatever is reported or stopped afterwards |
| PrebufferTasks.StopIsKept | backend/app/modules/recordings/triggers.py:341-380 | a live open trigger that is stopped ends there, unless its event's end is reported later |
| PrebufferTasks.EndsAreGiven | backend/app/modules/recordings/triggers.py:221-233 | no trigger ever has an end that was not planned, reported or set by a stop |
| CatalogService.RecordingCatalog.PostHook | poc/zlm-recording/app/main.py:203-242 | a pending drop consumes the hook, prebuffer fragments are not catalogued, any other new path gets one row |
| CatalogService.RecordingCatalog.InsertRow | poc/zlm-recording/app/main.py:434-483 | the inserting transaction adds a row exactly when the path has none |
| CatalogService.RecordingCatalog.MarkRowMissing | poc/zlm-recording/app/reconciliation_faults.py:290-305 | the marking transaction changes exactly a row that is not MISSING yet, and reports whether it did |
| CatalogService.RecordingCatalog.MarkPass | poc/zlm-recording/app/reconciliation_faults.py:342-352 | the first loop marks, in order, every live row whose file is gone, and stops where the crash is simulated |
| CatalogService.RecordingCatalog.RecoverPass | poc/zlm-recording/app/reconciliation_faults.py:354-380 | the second loop recovers exactly the unknown listed files with an identity and positive duration, reports the others, and stops where the crash is simulated |
| CatalogService.RecordingCatalog.Reconcile | poc/zlm-recording/app/reconciliation_faults.py:319-391 | a run makes exactly the first outstanding repairs its crash setting allows, reports them, and crashes iff that setting is reached; the rows there were keep their facts, and each new one holds the identity, start, end and duration its file was inspected with |
| CatalogService.RecordingCatalog.RecoverListed | poc/zlm-recording/app/main.py:486-517 | the service's own reconciler, which asks the catalog per file, makes the same recoveries with the same facts, counts the files and lists every file whose inspection raised as an error |
| CatalogService.ScanIsExact | poc/zlm-recording/app/reconciliation_faults.py:354-380 | which files the fault harness recovers, skips and reports, and why, said of each listed path in terms of the disk and the catalog alone |
| CatalogService.ServiceScanIsExact | poc/zlm-recording/app/main.py:486-517 | the same of the service's reconciler |
| Reconciliation.RowsTellTheTruth | poc/zlm-recording/app/reconciliation_faults.py:237-281 | over every interleaving of hooks, crashed runs and concurrent transactions, each row that was not there at first holds what its file was inspected with, if a reconciler made it, or what a delivered hook announced, if a hook did: identity, start, end as start plus duration, and duration; and no later step changes any of it |
| Reconciliation.HookIsDroppedExactly | poc/zlm-recording/app/main.py:203-242 | after any events a hook is dropped iff dropping was armed since the hook before it; otherwise it changes the catalog iff its path is new and outside the prebuffer |
| Reconciliation.PrefixLeavesTheRest | poc/zlm-recording/app/reconciliation_faults.py:319-391 | after any prefix of the repairs exactly the rest is outstanding and no path has two rows |
| Reconciliation.CrashedRunResumes | poc/zlm-recording/app/reconciliation_faults.py:326-340 | a crashed run strictly decreases the outstanding repairs, and a complete run after it ends in the rows of an uninterrupted one |
| Reconciliation.CrashesConverge | poc/zlm-recording/app/reconciliation_faults.py:319-391 | any sequence of runs crashed anywhere followed by a complete one gives the rows of one uninterrupted run, and a further run changes nothing |
| Reconciliation.CatalogConverges | poc/zlm-recording/app/reconciliation_faults.py:319-391 | after any interleaving of delivered, dropped and repeated hooks, transactions of concurrent reconcilers and crashed runs, one complete run puts every path in the state that its first state, whether a hook was delivered, and the disk determine |
| Reconciliation.NeverCataloguedTwice | poc/zlm-recording/app/main.py:66-74 | no path ever has two rows, even under transactions decided on stale reads |
| PreviewWall.StepKeepsInv | frontend/src/live/previewWall.ts:113-345 | every API call and browser event keeps: an active client has exactly one of a socket and a reconnect timer and an inactive one neither; the slot map holds exactly the open subscriptions, one per slot; firstFrame settles at most once and by closing; ids count up modulo 2^32; the last sync sent is current |
| PreviewWall.Play | frontend/src/live/previewWall.ts:63-347 | that invariant holds after every sequence of events from a fresh client |
| PreviewWall.CurrentSyncIsExact | frontend/src/live/previewWall.ts:133-151 | a sync message carries the layout and one stream per open subscription, no others, by strictly rising slot |
| PreviewWall.LastSyncIsCurrent | frontend/src/live/previewWall.ts:133-160 | in every reachable state with the socket open and no sync queued, the last sync sent on it names the current layout and exactly the open subscriptions |
| PreviewWall.FirstFrameIsHonest | frontend/src/live/previewWall.ts:231-265 | firstFrame is settled at most once, always once its subscription is closed or replaced, and true iff a well-formed frame with its slot and id arrived on the current socket while the subscription was open and unsettled |
| PreviewWall.FirstFrameArrives | frontend/src/live/previewWall.ts:231-265 | the first well-formed frame for a waiting subscription settles it as true |
| PreviewWall.IdsCollideAtWrapAround | frontend/src/live/previewWall.ts:80-84 | two subscriptions share an id exactly when a multiple of 2^32 allocations lies between them |
| PreviewWall.SupersededTagIsIgnored | frontend/src/live/previewWall.ts:207-247 | with fewer than 2^32 allocations in between, a ready, error or frame tagged for a superseded subscription of the slot changes nothing |
| PreviewHistory.FlagsAreExact | frontend/src/live/previewWall.ts:282-345 | over every run the client is closed iff it was told to close, and its layout is the one set last, or none |
| PreviewHistory.SubscriptionIsOpenExactly | frontend/src/live/previewWall.ts:290-345 | over every run the n-th call of subscribe makes the n-th subscription, with its input; it is open iff neither its own close, nor the first close of the client, nor a later subscription of its slot has come since |
| PreviewHistory.OpenedSocketIsSynced | frontend/src/live/previewWall.ts:175-178 | when its socket opens, the client sends exactly one sync on it in the next microtask |
| PreviewHistory.TimerConnects | frontend/src/live/previewWall.ts:127-130 | a pending reconnect that is due makes a new socket the current one |
| PreviewHistory.SendsExactly | frontend/src/live/previewWall.ts:133-160 | syncs are coalesced: any event sends at most one, a microtask that was queued sends one on the open current socket, and nothing else sends any |
| PreviewNotices.FrameTagIsExact | frontend/src/live/previewWall.ts:231-247 | a binary message is taken as a frame of a slot and id iff it has version 1, the slot, the id in big-endian order and a JPEG between its start and end markers |
| PreviewNotices.AddressedIsTold | frontend/src/live/previewWall.ts:190-265 | a ready, error or frame message with the slot and id of an open subscription tells that listener alone, a frame with its JPEG bytes, and resets the reconnect attempts |
| PreviewNotices.UnaddressedIsIgnored | frontend/src/live/previewWall.ts:190-265 | any other message, but for a fatal error, changes nothing at all |
| PreviewNotices.ClosingIsTold | frontend/src/live/previewWall.ts:113-131 | when the current socket closes every open subscription is told that the client reconnects, which it will after the delay of the attempts made in a row |
| PreviewNotices.ListenersAreTold | frontend/src/live/previewWall.ts:63-347 | over every run, what listeners have been told is, in order, exactly what each event tells them |
| PreviewNotices.BackoffIsExact | frontend/src/live/previewWall.ts:113-131 | over every run the attempt count is the number of reconnects since a message last reached a subscription, and a pending reconnect waits for the delay of that count |
| PreviewSockets.NoSocketIsLeft | frontend/src/live/previewWall.ts:90-100 | over every run all sockets but the current one are closed, or closing without handlers, and the current one is not closed |
| PreviewSockets.ConnectsExactly | frontend/src/live/previewWall.ts:162-174 | over every run the client has a socket or a pending reconnect, never both, exactly while it is not closed, has a layout and some subscription is open |
| PreviewWallClient.Client.OpenSocket | frontend/src/live/previewWall.ts:162-174 | ensureSocket creates a socket exactly when the client is active and has neither socket nor timer |
| PreviewWallClient.Client.SubscribeSlot | frontend/src/live/previewWall.ts:290-313 | subscribe closes and settles the slot's previous holder, allocates the next id and updates the connection |
| PreviewWallClient.Client.CloseSlot | frontend/src/live/previewWall.ts:317-328 | a registration's close frees the slot only if it still holds it, settles firstFrame and updates the connection |
| PreviewWallClient.Client.Close | frontend/src/live/previewWall.ts:332-345 | closing settles and drops every subscription, cancels the timer and detaches the socket |
| PreviewWallClient.Client.OnMessage | frontend/src/live/previewWall.ts:179-265 | text and binary messages are routed by slot and id with the source's checks; what listeners then hear is AddressedIsTold and UnaddressedIsIgnored |
| PreviewWallClient.Client.Handle | frontend/src/live/previewWall.ts:63-347 | each event on the mutable client is one step of the model |
| PreviewWallClient.Client.Drive | frontend/src/live/previewWall.ts:63-347 | a client driven by any events is in the model's state for them and satisfies the invariant |
| CsvRecords.ScanText | frontend/src/cameraBatchCsv.ts:44-104 | the index loop that skips ahead over doubled quotes and CRLF terminates and computes the character-level scan |
| CsvRecords.HeadersRepeat | frontend/src/cameraBatchCsv.ts:104-113 | a header repeats iff two non-empty normalised headers are equal |
| CsvRecords.ParseCsvRecords | frontend/src/cameraBatchCsv.ts:28-131 | the parser returns the records, or the empty, unterminated-quote, duplicate-header or too-many-rows error, in the source's order of checks |
| CsvRecords.ParsingUndoesPrinting | frontend/src/cameraBatchCsv.ts:44-131 | for every table whose cells are quoted or bare in any mix (bare without separators, line breaks or a leading quote), its rows ended by any mix of LF, CRLF and CR and the last one possibly not, the parser sees exactly the non-blank rows, each with the line it starts on |
| CsvRecords.TableRoundTrip | frontend/src/cameraBatchCsv.ts:44-131 | for non-blank rows under distinct non-empty headers, in any such printing, each record has its row's cell under each header and the line 1 plus the line breaks counted before it |
| CsvRecords.RecordHoldsItsCells | frontend/src/cameraBatchCsv.ts:120-131 | under distinct headers a record maps each non-empty header to the row's cell in its column, or to the empty string |
| CsvRecords.UnclosedQuoteIsRejected | frontend/src/cameraBatchCsv.ts:44-131 | a cell opened and never closed, after any printed table and any cells of its own row, is rejected with the line its row starts on |
| CsvRecords.TableIsRefusedExactly | frontend/src/cameraBatchCsv.ts:96-118 | a printed table of headers and records is refused iff two non-empty normalised headers are equal, with the line of the headers, or else there are more records than allowed |
| CsvRecords.BomIsDropped | frontend/src/cameraBatchCsv.ts:32-35 | a byte order mark before a text that does not begin with one changes nothing |
| CsvRecords.TrimDropsSpace | frontend/src/cameraBatchCsv.ts:96-104 | what trimming drops is white space at the two ends |
| Timeline.BuildRanges | poc/zlm-recording/app/timeline_playback.py:231-257 | the loop that extends the current range in place computes the fold `Ranges` |
| Timeline.ResolveWallClock | poc/zlm-recording/app/timeline_playback.py:382-418 | the first segment holding the instant with the offset into it, else the gap from the greatest earlier end to the least later start |
| Timeline.ResolutionIsExact | poc/zlm-recording/app/timeline_playback.py:382-418 | an instant resolves to a segment and an offset iff that is the first segment containing it and the offset leads from its start to the instant; to a gap iff no segment contains it |
| Timeline.RangesPartition | poc/zlm-recording/app/timeline_playback.py:231-257 | ranges list the segment ids in order, each once, and lie strictly apart |
| Timeline.PlayableInOneRange | poc/zlm-recording/app/timeline_playback.py:382-418 | for sorted positive-length segments every playable instant lies in exactly one range |
| Timeline.GapsMatchRanges | poc/zlm-recording/app/timeline_playback.py:594-607 | an instant before, between or after the ranges resolves to a gap bounded by exactly the neighbouring range ends |
| Timeline.OneGapOneAnswer | poc/zlm-recording/app/timeline_playback.py:382-418 | two instants of one gap resolve to the same bounds |
| Timeline.NormalizeContinuitySession | poc/zlm-recording/app/timeline_playback.py:276-330 | the loop back-computes each start from the next boundary and keeps the last segment's |
| Timeline.NormalizingKeepsMedia | poc/zlm-recording/app/timeline_playback.py:276-330 | normalising keeps ids and durations and makes each segment as long as its media |
| Timeline.NormalizingShiftsDeltas | poc/zlm-recording/app/timeline_playback.py:260-330 | the boundary deltas of the normalised session are the raw ones shifted left by one with a final 0 |
| Timeline.SessionRanges | poc/zlm-recording/app/timeline_playback.py:231-330 | a normalised session breaks into ranges exactly at the raw deltas after the first that exceed the tolerance, so into one if none does, however biased the first start |
| PlaybackLookup.FindTimelineSegmentAt | frontend/src/api/playback.ts:203-233 | on every sorted non-overlapping list the binary search returns the segment that contains the instant, as a linear scan does, and nothing iff none contains it |
| PlaybackLookup.FindNextPlayableTimelineTime | frontend/src/api/playback.ts:161-201 | the loops return nothing while playback is possible, else the least later start of an available range |
| PlaybackLookup.NextPlayableIsExact | frontend/src/api/playback.ts:161-201 | that answer is the least later playable instant, or nothing exactly when playback is possible now or never again, for all instants iff no available range is stray |
| PlaybackLookup.PositiveLengthsLeaveNoStray | frontend/src/api/playback.ts:147-159 | ranges of positive length leave no stray range |
| PlaybackLookup.StrayRangeMisleads | frontend/src/api/playback.ts:187-196 | an empty range is returned as the next playable instant although a later one is |
| Pagination.AcceptedLimitsTraverse | backend/app/core/pagination.py:110-126 | with every accepted limit a traversal visits the whole fixed table in pages of at most the maximum; with the refused limit 0 the first page of any table is empty and final |
| Pagination.NothingTwice | backend/app/core/pagination.py:129-181 | whatever is inserted or deleted between requests, the items of all pages followed are strictly newest first, so no row is returned twice |
| Pagination.NothingMissed | backend/app/core/pagination.py:129-181 | a completed traversal returns every row that was present at each of its requests |
| Pagination.FixedTableTraversal | backend/app/core/pagination.py:129-181 | over a fixed table the pages concatenate to the newest-first listing past the cursor and the traversal completes |
| Pagination.FixedTableOrder | backend/app/core/pagination.py:141-145 | from the first page they are the whole table sorted newest first, each row once, in PageCount requests |
| Pagination.PageCountIsCeiling | backend/app/core/pagination.py:163-175 | PageCount is the larger of 1 and the row count divided by the limit, rounded up |
| CursorCodec.CursorRoundTrip | backend/app/core/pagination.py:59-97 | for every payload, base64url with its padding stripped decodes to the payload after the padding is restored (sections 5 and 3.2 of RFC 4648) |
| CursorCodec.CursorTextIsExact | backend/app/core/pagination.py:59-97 | the text has 4/3 as many digits as the payload bytes, rounded up, and every three bytes and the four digits of the URL-safe alphabet in their place are one number, the most significant first (section 5 of RFC 4648) |
| AtomicWrite.Directory.AtomicWriteBytes | backend/app/core/fs.py:64-95 | one call, completed or interrupted anywhere, makes of the directory exactly what the functions NamesAfter and InodesAfter say |
| AtomicWrite.WriteIsItsSteps | backend/app/core/fs.py:64-95 | for every fault, and also when its temporary name is taken, what such a call makes of the directory is what the steps of the interleaving protocol make of it, run with this call alone |
| AtomicWrite.WriteIsAllOrNothing | backend/app/core/fs.py:64-95 | it leaves the target either as it was or holding the whole flushed payload in the requested mode, no temporary of its own, and every other file alone, also one that has its temporary's name |
| AtomicWrite.Directory.FillAndRename | backend/app/core/fs.py:84-91 | the try block renames only after it has written and flushed the whole payload and set the mode |
| AtomicWrite.Directory.ReplaceDurably | backend/app/core/fs.py:129-147 | the same of a move, completed or interrupted anywhere |
| AtomicWrite.MoveIsItsSteps | backend/app/core/fs.py:129-147 | for every fault, and also when its source is missing, what a move makes of the directory is what its steps in the protocol make of it |
| AtomicWrite.MoveIsAllOrNothing | backend/app/core/fs.py:129-147 | the source's bytes, flushed in the requested mode, become the target and the source's name is gone, or only the source's own mode and flush have changed; without a source nothing changes |
| AtomicWrite.TargetIsWhole | backend/app/core/fs.py:64-147 | with any number of writers and movers interleaved step by step, partial writes, exceptions at any point and a crash, the target is the original or one call's complete flushed payload in its mode, or after a crash for a write in the mode its file was created with; without a crash it is that of the call that renamed last and no finished call leaves a temporary |
| AtomicWrite.ModeIsKeptExactly | backend/app/core/fs.py:64-147 | in every state reached without a crash, a file that is or was the target, put there by a call that asked for a mode, is in that mode after every crash iff the call was a move or its temporary was created in that mode |
| AtomicWrite.UndisturbedCallPublishes | backend/app/core/fs.py:84-91 | wherever the other calls are, a call that is left alone has its complete file as the target within the steps it has left |
| AtomicWrite.SharedTemporaryTears | backend/app/core/fs.py:45-52 | with one shared temporary name a run of three calls puts an incomplete file in place of the target |
| SnapshotPublish.Storage.MoveAside | backend/app/cli.py:96-99 | a sidecar that exists is moved to the rollback directory, by rename or across devices by copy and removal |
| SnapshotPublish.Storage.PublishSqliteSnapshot | backend/app/cli.py:80-101 | the effects made are flush, move -wal, move -shm, rename, in this order |
| SnapshotPublish.Storage.RestoreSqlite | backend/app/cli.py:1990-2002 | a restoration copies beside the database, publishes only a verified copy, and removes the copy again unless it was copying that raised |
| SnapshotPublish.PublicationIsSafe | backend/app/cli.py:80-101 | stopped by an exception after any number of effects, the database is the previous one or the whole flushed copy, the copy never stands beside an old sidecar, and no sidecar is lost; completed, the copy is the database |
| SnapshotPublish.RestorationIsSafe | backend/app/cli.py:1990-2002 | the same holds of a whole restoration stopped by an exception anywhere, also after the clean-up of the copy |
| SnapshotPublish.RestorationEnds | backend/app/cli.py:1990-2002 | a restoration that ran to its end has swapped the database iff the copy was verified, leaves a torn copy behind iff copying raised, and otherwise changed nothing but the copy |
| SnapshotPublish.CrashIsSafeExactly | backend/app/cli.py:80-101 | a publication stopped by a crash after any number of effects is safe, whatever unflushed bytes the crash tears, iff the sidecars are renamed on one device, or there are none, or none has been removed yet |
| SnapshotPublish.RestorationCrashIsSafeExactly | backend/app/cli.py:1990-2002 | the same condition for a whole restoration: copying, checking and clean-up make no difference |
| SnapshotPublish.LostMovesAreUnsafe | backend/app/cli.py:85-95 | if the moves were lost and the rename kept, the state is safe iff there was no sidecar |
| Drift.PlaybackDriftController.EvaluateDrift | frontend/src/playback/driftController.ts:63-157 | an evaluation of finite inputs with a positive base rate is the decision on values, and of any other inputs nothing; SeeksExactly and CorrectsExactly say when it seeks and corrects |
| Drift.ResetIsFresh | frontend/src/playback/driftController.ts:54-61 | a controller that was reset acts from then on, over any run, exactly as a new one |
| Drift.SeeksExactly | frontend/src/playback/driftController.ts:79-93 | over any run from a new controller with nondecreasing times, a sample is answered by a hard seek iff its drift is at least hardSeek either way and no hard seek of the run lies less than the seek cooldown before it |
| Drift.CorrectsExactly | frontend/src/playback/driftController.ts:95-156 | over any run from a new controller, a drift of at least softEnter and below hardSeek is answered by the corrective rate, unless a seek or rate action of the run lies within its cooldown before it, and then by nothing |
| Drift.AdjustmentFacts | frontend/src/playback/driftController.ts:127-146 | the adjustment stays between the configured bounds and grows with the drift |
| Drift.AdjustmentIsLinear | frontend/src/playback/driftController.ts:127-146 | the adjustment is the smallest one up to softExit, the largest from hardSeek on, and in between grows in proportion to the drift |
| Drift.CorrectiveRateOpposes | frontend/src/playback/driftController.ts:148-156 | a corrective rate lies on the side that opposes the drift, within base times the adjustment bounds, and the further the larger the drift |
| Drift.CooldownsRespected | frontend/src/playback/driftController.ts:79-125 | over any run with nondecreasing time hard seeks are at least the seek cooldown apart, no rate action falls inside it, and a corrective rate comes at least the rate cooldown after every earlier action |
| Drift.SeekRateIsBounded | frontend/src/playback/driftController.ts:79-93 | over a time T there are at most T / cooldown + 1 hard seeks |
| Drift.EpisodeHasEntry | frontend/src/playback/driftController.ts:102-118 | an active correction was entered, since none was last active, by a drift of at least softEnter |
| Drift.ControllerIsTuned | frontend/src/playback/driftController.ts:127-156 | the controller's rates shrink any drift at a speed between base times the two adjustments |
| Drift.DriftNeverGrows | frontend/src/playback/driftController.ts:79-156 | closed with an ideal player evaluated often enough, each evaluation of a correction shrinks the drift or keeps it, on the same side of zero |
| Drift.CorrectionEnds | frontend/src/playback/driftController.ts:102-125 | a correction ends in time, inside the exit band, at the base rate, without a seek |
| Drift.DriftIsCorrected | frontend/src/playback/driftController.ts:79-156 | from a drift of softEnter or more the player is corrected within rateCooldown + 2 gaps + (hardSeek - softExit) / slowest speed, the drift never growing or changing sign on the way |
| Drift.SeekRemovesDrift | frontend/src/playback/driftController.ts:79-93 | closed with an ideal player, an evaluation at or beyond hardSeek with no seek in the cooldown leaves the drift 0 at the base rate |
| Drift.LargeDriftIsRemoved | frontend/src/playback/driftController.ts:79-93 | a player at or beyond hardSeek has drift 0 and the base rate after its first evaluation past the cooldown |
| MasterClock.MasterPlaybackClock.Create | frontend/src/playback/masterClock.ts:22-30 | construction throws exactly on a media time that is not finite |
| MasterClock.MasterPlaybackClock.SeekTo | frontend/src/playback/masterClock.ts:52-57 | seek anchors the stated time, or throws and changes nothing |
| MasterClock.MasterPlaybackClock.PlayFrom | frontend/src/playback/masterClock.ts:59-69 | play defaults to the current time and rate, checks both before changing anything, and anchors at a second clock read |
| MasterClock.MasterPlaybackClock.PauseAt | frontend/src/playback/masterClock.ts:71-78 | pause defaults to the current time and anchors at a second clock read |
| MasterClock.MasterPlaybackClock.SetPlaybackRate | frontend/src/playback/masterClock.ts:80-86 | the rate is checked first; the current time is anchored anew under the new rate |
| MasterClock.CurrentTimeAddsUp | frontend/src/playback/masterClock.ts:40-86 | after any operations, accepted or refused, the current time is the last stated media time plus rate times playing time since, less the lag |
| MasterClock.LagIsNonnegative | frontend/src/playback/masterClock.ts:59-86 | the lag, rate times the time between the two reads of each operation since that kept the playing position, is never negative and zero when the reads coincide |
| MasterClock.KeepsGoingForward | frontend/src/playback/masterClock.ts:59-86 | over any run of operations without an accepted stated media time, a read before it is at most a read after it |
| MasterClock.ClockRunsExactly | frontend/src/playback/masterClock.ts:40-86 | after any operations the clock runs iff it was started and no pause or seek has been accepted since, and then at the rate accepted last, or 1; otherwise all later reads are the same |
| MasterClock.OperationIsExact | frontend/src/playback/masterClock.ts:52-86 | an operation is refused iff it names a number that is not finite or a rate that is not positive, and then changes no read; at the instant of any other the clock reads the media time it states, else what it read just before |
| EventBus.RuntimeEventBus.Create | backend/app/core/events.py:15-27 | queue sizes outside 4 to 1024 are refused |
| EventBus.RuntimeEventBus.Subscribe | backend/app/core/events.py:29-39 | a new empty queue of the configured size joins; the bus with its history makes one step of the model |
| EventBus.RuntimeEventBus.Unsubscribe | backend/app/core/events.py:41-46 | exactly the given queue leaves, as one step of the model; a queue it has not handed out is ignored |
| EventBus.RuntimeEventBus.Consume | backend/app/core/events.py:29-39 | a consumer takes the oldest queued event, as one step of the model |
| EventBus.RuntimeEventBus.Publish | backend/app/core/events.py:48-76 | in whatever order the set is visited, every subscribed queue gets one event with the next id, a full one losing its oldest, as one step of the model; so the bus keeps the invariant of RunsAreFaithful |
| EventBus.RunsAreFaithful | backend/app/core/events.py:29-76 | in every interleaving of subscribe, publish, consume and unsubscribe each queue is the run of publications ending at the latest one it was subscribed for, deliveries are publications of its time in order, and with nothing dropped deliveries and queue are all of them |
| EventBus.EventIsWhatWasPublished | backend/app/core/events.py:48-60 | the n-th publication of a run is event n of the stream for ever, with the kind, time and data published |
| EventBus.MembershipIsExact | backend/app/core/events.py:29-46 | the n-th subscription is the n-th subscriber, receives what is published from then on, and is subscribed iff it has not unsubscribed since |
| EventBus.QueueIsSuffix | backend/app/core/events.py:61-76 | queued ids are consecutive, at most queue_size many, and end at the latest publication; ids delivered and queued strictly increase; published = delivered + dropped + queued |
| EventBus.DrainingCatchesUp | backend/app/core/events.py:8-13 | after any run, a subscriber that empties its queue has received the latest publications it was subscribed for without a gap |

## Left out

- HTTP routing, JSON and UUID text, `datetime` parsing, subprocesses, rclone, ffmpeg and logging: plumbing without state of its own. `infer_identity`, `infer_stream` and duration inspection are one function of the path, `World.inspect`.
- Floating-point rounding: drift, clock and window arithmetic is over reals.
- Catalog rows are identified by their path instead of random ids; the join of segments and locations is one row; sizes, creation times and the rounding of durations to milliseconds are not in it.
- The recording programs' polling waits, thread sleeps, tmpfs statistics and evidence files; the main loop's final wait for coverage is the coverage check alone.
- Recovery's copies: why one raises, and the partial copy that it leaves, are not distinguished; files published before it are.
- `PrebufferTasks` keeps catalogued copies available for ever: retention and missing-file marking of canonical copies are not part of it. The prebuffer directory is a path prefix.
- resolve_within, resolve_within_or_none: symbolic links and path normalisation are the operating system's.
- Errors of base64 text no cursor was encoded to: Python skips foreign characters, the model's decoder refuses them; the round trip is about encoded cursors.
- Rows whose timestamp changes during a traversal: between pages rows are inserted and deleted only.
- FindTimelineSegmentAt: the midpoint is taken in unsigned 32-bit arithmetic, so the contract asks for at most 2^31 segments, beyond which it would wrap.
- `MasterPlaybackClock.snapshot` and the plain getters.
- Preview-wall listeners that call back into the client, and the text of error messages.
- PostgreSQL restore, safety snapshots taken before a restore, and their naming.
- remote_restore.py's cache eviction, retention planning, migrations, settings, and user-interface composables: they would add easy members.
