# City archive and scanner transcripts: verified models

This project models the algorithmic cores of the repository in Dafny and proves what they are for:
which cursors the scanner feed hands out and who sees them, that agenda alignment is optimal, that a
crawl frontier cannot starve a page, that the exported ZIP reads back, and what the caption, passage,
vote and vocabulary code keeps. Code that updates state step by step is a class or a method with loops,
proved against functions; the theorems are about those functions and about whole runs of them.

`dafny verify dfyconfig.toml` checks everything.

## Components

**Scanner store** (`StoreModel`, `ScannerStore`, `StoreRuns`, `StoreEffects`, `StoreOrder`, `StoreWindow`, `Polling`,
`StoreWitnesses`). `StoreEffects` says what each operation does to the other columns: session marks, gaps,
inserted and expired rows. A segment row is committed first and published second, when the session's reorder
window reaches its slot; publication takes `MAX(published_seq) + 1`. `StoreModel` states each public operation on a table indexed by row id
(a deleted row leaves a hole, as AUTOINCREMENT does). An operation list also contains `OpStage`, the
first commit of `persist_segment` with the second missing, and `OpMemory`, any loss of the in-memory
window; so "every run" includes a crash or a fault between the two commits. The class `ScannerStore`
has the source's fields and loops and is proved equal to those functions.
What the theorems say of the code:
- Cursors are never shared by two live rows, and never change, in any run. They are not *reused*
  exactly while no sweep deletes the row with the largest cursor (`Polling.SweepKeepsTop`,
  `Polling.RunFresh`); when one does, a client that was up to date misses the next published row,
  whether it was inserted before or after the sweep (`Polling.UpToDateClientSeesNextRow`). A run
  that hands out cursor 1 twice is `StoreWitnesses.CursorHandedOutTwice`.
- Publication order follows slot order in every state of a run, and would if the session was closed there,
  exactly if every operation of the run met its condition (`StoreOrder.RunKeepsOrderIff`, over every run:
  faults, crashes, late completions, sweeps and other sessions included); without sweeps the cursors after
  the final close already tell (`StoreOrder.RunClosesInOrderIff`). Only these have a condition
  (`StoreOrder.StepSafe`; a persist is an insert and a completion):
  - an insert for a slot: no published row of the session has a later slot;
  - a completion of a slot: no staged row of the session lies below the next-expected slot, or the
    publication loop passes no staged row. This fails after a fault: `persist_segment` can fail at its second
    commit with the window already advanced (storage.py:518-519), the worker goes on with the session
    (worker.py:381-386), and the next slot is published above the row left behind
    (`StoreWitnesses.FaultAtSecondCommit`). It fails for a chunk finished after the close
    (`StoreWitnesses.LateAfterClose`) and for a row of a slot completed before, exactly if a later slot has
    been published (`StoreWindow.LateRowKeepsOrderIff`, `StoreWitnesses.SlotCompletedTwice`);
  - a start that recovers the feed: the start stamps of the session's staged rows follow their slots, because
    recovery sorts by start stamp first (storage.py:287). Within one connection starts never decrease
    (`Capture`), but a slice clamped to the clock after a reconnect may start before the last slice of the
    connection before (`Capture.BurstMayStartEarlier`, `StoreWitnesses.RecoveryOutOfSlotOrder`).
- As long as a session is open, with each slot completed once and no fault, flush or second session on its
  feed, the first two conditions hold of themselves, and its rows are published exactly below the least slot
  not completed (`StoreWindow.SessionsPublishInOrder`). A session that completes nothing after its close or
  after a fault can lose the order only to a recovery (`StoreWindow.OnlyRecoveriesBreakOrder`).

**Worker** (`Worker`). Capture, the bounded queue, the single ASR thread and retention as events over
the store, with the fate of every sequence number as history. A store call may fail in either of a chunk's
two transactions, which leaves the window in memory in any state. Four results differ from the four
outcomes one would expect (row, non-speech, ASR-failure gap, back-pressure gap):
- speech that repeats the stamps and audio hash of a stored row ends without a row or a gap of its own
  (`Worker.RepeatedAudioHasNoRow`); without a storage fault that is the only way
  (`Worker.SpeechStoredUnlessRepeated`). Capture emits
  such a pair when two consecutive slices of one length and the same bytes get equal clock readings
  (`Capture.EqualReadingsRepeatStamps`, `Capture.SliceTwice`);
- a gap of at most 50 ms is not recorded (storage.py:391-393);
- a storage fault may leave a slot with no record at all, or a row stranded until a later publication, at
  the latest that of the close or of the next start (`Worker.CoverageAccounted`);
- `stop()` waits for its threads with time-outs, closes the session and then the store it owns
  (worker.py:195-207; both commands let the runtime own its store, cli.py:31 and 51). A chunk finished after
  that is lost: no row, no gap, no completion (`Worker.ClosedStoreLosesChunks`). Between the two closes, or
  on a store handed in, the window of the closed session starts over: a chunk's row is inserted, and
  published at once exactly if every slot below it has been completed since the close and its own has not
  (`Worker.LateChunkAfterClose`); otherwise it waits for the slots below, a flush or the next start of the feed.

A back-pressure drop never completes its slot, so without a fault no row after it is published before the
close.

**Capture** (`Capture`). Slicing of one connection's PCM bytes with stamps in microseconds.

**Alignment** (`Alignment`). Candidate rows with given positive scores, the dynamic program over
(item, anchor), the back-trace, `item_at`, and the item bounds of `build_analysis.py`.

**ZIP** (`Crc32`, `Zip`, `ZipBytes`, `ZipForeign`). The store-only writer and the reader, following PKWARE APPNOTE sections 4.3.7,
4.3.12 and 4.3.16, and the CRC of RFC 1952 section 8. As written, every central entry holds local offset 0
(atlas/js/export.js:56), where section 4.4.16 of APPNOTE requires the entry's own. `MakeZip` takes a flag for
which of the two is written: with the entry's own offset the round trip holds for every list of files
within the field limits; as written, entry i reads back its bytes exactly when they are a prefix of
contents 0, header 1, contents 1 and so on, a function of the file list (`ZipBytes.AsWrittenReadsBackIff`).
Archives of other writers are listed and unpacked too (`ZipForeign`).

**URL normal form** (`Utf8`, `UrlText`, `Canonical`, `OpenCanonical`). `unquote`, `quote`, `parse_qsl`, `urlencode` and
sorting down to UTF-8 bytes (RFC 3986 section 2.1), and `canonical` on parsed references. `request` insists
that `canonical(url) == url`. That fails in two families and only there: the re-encoded query is
over 1000 characters, or the path ends in empty parameters (`/a;`), which `urljoin` drops when it
joins a URL under its own scheme. What a normal form holds is `Canonical.TailHolds`: the pairs that are not
tracking parameters, each as often as given. `OpenCanonical` is the crawler's form for any host, with scheme,
lower-cased host and port.

**Crawler** (`Mirror`, `MirrorUrls`). The frontier carried from run to run, the archive byte account, and the
hash chain of changes. `Mirror.VisitOutcome` says, answer by answer, what a visit stores and returns. A run's page, time and byte limits appear as the number of answers the run is
given. A pending URL that is not its own normal form is not itself served: its place goes to its
canonical form, or is lost if canonical() refuses it (`MirrorUrls`).

**Votes** (`Votes`), **captions** (`Captions`), **passages** (`Passages`), **BPE merge recovery**
(`MergeRecovery`, `BpeEncode`). Loops over counters, windows, buffers and pieces, each proved against what
it counts, keeps or partitions. `paragraphs` counts a separator only once its running length is not
zero, so empty lines at the start of a paragraph let it exceed the limit by their number
(`Captions.BlankLinesOverrun` reaches that bound); `emitted_lines` produces none (`Captions.EmittedNonBlank`).
`BpeEncode` is the encoder that applies the recovered merges in list order. With unique ranks of at most
10^9, the code's stand-in for a missing pair, it rebuilds every token of the table exactly if every longer
token yields a merge (`BpeEncode.RebuildsAllIff`). With two tokens of one rank only one half holds: a
rebuilt token yields a merge (`BpeEncode.RebuiltYieldsMerge`), but a table in which all do may not be
rebuilt (`BpeEncode.TiedRanksStick`).

## Model

| member | source | states |
|---|---|---|
| StoreRuns.RunKeeps | services/scanner_transcriber/scanner_transcriber/storage.py:245-605 | over every run of the store, crashes, storage faults and sweeps included: no two live rows share a cursor or a session slot, a row's columns and its cursor never change once set, and a row published later has a larger cursor than every live row published before |
| StoreRuns.ApplyKeeps | services/scanner_transcriber/scanner_transcriber/storage.py:431-529 | each single operation keeps those table invariants |
| StoreRuns.DrainKeeps | services/scanner_transcriber/scanner_transcriber/storage.py:567-590 | advancing the window keeps the table invariants and stops only at a slot that is not completed |
| StoreRuns.PublishOne | services/scanner_transcriber/scanner_transcriber/storage.py:549-565 | publication gives one row the next cursor, raises the maximum by one and touches no other row |
| StoreRuns.PublishAllCursors | services/scanner_transcriber/scanner_transcriber/storage.py:592-605 | publishing a list of staged rows gives consecutive cursors in list order and leaves every other row alone |
| StoreRuns.FlushCursors | services/scanner_transcriber/scanner_transcriber/storage.py:592-605 | a flush publishes exactly the selected staged rows, in their ORDER BY order, above every earlier cursor |
| StoreRuns.RecoveryPublishesFeed | services/scanner_transcriber/scanner_transcriber/storage.py:245-348 | starting a session publishes every stranded row of the feed, in capture order, and deletes and renumbers nothing |
| StoreRuns.RecoveryOverRuns | services/scanner_transcriber/scanner_transcriber/storage.py:245-348 | after any run that crashed at any point, a restart publishes every committed row of the feed; in every continuation each keeps that one cursor, below the cursors of all rows inserted later |
| StoreOrder.RunKeepsOrderIff | services/scanner_transcriber/scanner_transcriber/storage.py:245-605 | over every run of a store (any operations, faults, memory losses, late completions and sweeps; the session's drafts carry its feed): cursors follow slots in every state, and would if the session was closed there, if and only if every operation met its condition: an insert finds no published row of a later slot, a completion leaves no staged row behind below rows it publishes, a recovery finds the start stamps of the session's staged rows in slot order |
| StoreOrder.RunClosesInOrderIff | services/scanner_transcriber/scanner_transcriber/storage.py:362-380 | over every run without sweeps: after the close cursors follow slots if and only if every operation of the run met that condition |
| StoreOrder.StepKeepsOrderIff | services/scanner_transcriber/scanner_transcriber/storage.py:431-605 | one operation of any kind on a session in slot order leaves it in slot order if and only if it meets its condition |
| StoreOrder.DrainInOrderIff | services/scanner_transcriber/scanner_transcriber/storage.py:567-590 | the publication loop, from any window: a session in order stays in order if and only if no staged row lies below the next-expected slot or the loop publishes none of the session's rows |
| StoreOrder.DrainPublishes | services/scanner_transcriber/scanner_transcriber/storage.py:567-590 | the loop publishes exactly the session's staged rows with slots from the next-expected one to the least number not in the done set, where it stops |
| StoreOrder.AdvanceOrdered | services/scanner_transcriber/scanner_transcriber/storage.py:573-589 | one turn of the loop keeps cursors in slot order and the rows still to come above every published one |
| StoreOrder.InSlotOrderIff | services/scanner_transcriber/scanner_transcriber/storage.py:592-605 | a flush or close gives slot order if and only if the published rows are in order and every staged row's slot is above them |
| StoreOrder.RecoveryKeepsOrderIff | services/scanner_transcriber/scanner_transcriber/storage.py:281-293 | a recovery keeps slot order if and only if, among the session's staged rows, start stamps follow slots |
| StoreOrder.FlushEnded | services/scanner_transcriber/scanner_transcriber/storage.py:592-605 | flushing a session in order keeps cursor order and leaves none of its rows staged |
| StoreOrder.ClosePublishesSession | services/scanner_transcriber/scanner_transcriber/storage.py:362-380 | after a close no row of the session is unpublished, whatever happened before |
| StoreWindow.SessionsPublishInOrder | services/scanner_transcriber/scanner_transcriber/storage.py:431-605 | over every run from the empty store, as long as the session is open (each slot completed once; no close, flush, storage fault, memory loss or second session on its feed): cursors strictly increase with sequence number, the next-expected number is the least slot not completed, and rows are published exactly below it |
| StoreWindow.OnlyRecoveriesBreakOrder | services/scanner_transcriber/scanner_transcriber/storage.py:245-605 | over a run in which the session completes each slot at most once and none after its close or a fault: slot order holds in every state if and only if every recovery of the feed finds the start stamps of the session's staged rows in slot order |
| StoreWindow.OpenStepKeeps | services/scanner_transcriber/scanner_transcriber/storage.py:431-605 | every operation, of this or another session, that leaves the session open keeps its publication order and window |
| StoreWindow.DrainWindow | services/scanner_transcriber/scanner_transcriber/storage.py:573-589 | for an open session the window loop publishes all rows below the slot it stops at, and that slot is not completed |
| StoreWindow.WindowFollowsCompletions | services/scanner_transcriber/scanner_transcriber/storage.py:567-590 | whatever rows the table holds, the next-expected number is the least slot not completed since the window was last reset |
| StoreWindow.PublishedAtOnceIff | services/scanner_transcriber/scanner_transcriber/storage.py:511-519 | a new row is published by its own persist if and only if its slot has not been completed since the window was reset and every slot below it has |
| StoreWindow.LateRowKeepsOrderIff | services/scanner_transcriber/scanner_transcriber/storage.py:567-605 | a row for a slot of an open session completed before keeps slot order if and only if no later slot has been published |
| StoreWitnesses.SlotCompletedTwice | services/scanner_transcriber/scanner_transcriber/storage.py:567-605 | a run from the empty store: slot 0 completed as non-speech, slot 1 published, then a row for slot 0 ends up with the larger cursor |
| StoreWitnesses.FaultAtSecondCommit | services/scanner_transcriber/scanner_transcriber/storage.py:511-529 | a run from the empty store: slot 0 is inserted and its second commit fails with the window advanced, the session goes on and slot 1 is published, and the close gives slot 0 the larger cursor |
| StoreWitnesses.LateAfterClose | services/scanner_transcriber/scanner_transcriber/storage.py:362-380 | a run from the empty store: the close publishes slot 1, and slot 0, persisted after it, gets the larger cursor |
| StoreWitnesses.RecoveryOutOfSlotOrder | services/scanner_transcriber/scanner_transcriber/storage.py:281-293 | a run from the empty store: a staged slot 2 that starts earlier than staged slot 1 gets the smaller cursor at the restart |
| Polling.PollingExactlyOnce | services/scanner_transcriber/scanner_transcriber/storage.py:617-678 | following next_cursor with any limits and any operations between pages returns every published row of the feed in the range once, in cursor order, and when has_more is false all rows above the start, while no sweep deletes the largest cursor |
| Polling.PageContents | services/scanner_transcriber/scanner_transcriber/storage.py:628-678 | a page after a cursor holds exactly the feed's published rows between that cursor and next_cursor, ascending; without has_more nothing is left |
| Polling.LatestPageContents | services/scanner_transcriber/scanner_transcriber/storage.py:640-678 | the page without a cursor holds the latest rows, as many as the limit allows, ascending, and next_cursor is the feed's largest |
| Polling.PageNumbers | services/scanner_transcriber/scanner_transcriber/storage.py:617-678 | the limit is the caller's clamped to 1..200; has_more is true if and only if a published row of the feed lies above next_cursor, and the page is then full; total and latest cursor count and bound the feed's rows; an empty page hands the cursor back |
| Polling.PublishedAfter | services/scanner_transcriber/scanner_transcriber/storage.py:629-637 | the query returns exactly the feed's rows above the cursor, ascending |
| Polling.SweepKeepsTop | services/scanner_transcriber/scanner_transcriber/storage.py:757-778 | a sweep leaves the largest cursor in place if and only if the row that holds it (if any) ends after the transcript cutoff |
| Polling.RunFresh | services/scanner_transcriber/scanner_transcriber/storage.py:549-563 | while every sweep keeps the top row, every newly given cursor is above all earlier ones: none is reused |
| Polling.UpToDateClientSeesNextRow | services/scanner_transcriber/scanner_transcriber/storage.py:549-565 | after a sweep and any insertions without a publication, a client that had seen every cursor receives the next published row if and only if the row with the largest cursor survived the sweep |
| StoreWitnesses.CursorHandedOutTwice | services/scanner_transcriber/scanner_transcriber/storage.py:549-565 | a run from the empty store: cursor 1 is published and read, its row expires, the next chunk is published with cursor 1 again, and the client at cursor 1 gets an empty page |
| ScannerStores.ScannerStore.PersistSegment | services/scanner_transcriber/scanner_transcriber/storage.py:431-529 | the two-commit insert: new state is stage then mark ready, or only mark ready for a duplicate, and the row returned is the inserted or the clashing one; a new row holds the draft's columns and moves only its session's last audio end |
| ScannerStores.ScannerStore.MarkSequenceReadyLocked | services/scanner_transcriber/scanner_transcriber/storage.py:567-590 | the window loop equals its specification, and the list it returns is exactly the newly published rows in cursor order |
| ScannerStores.ScannerStore.MarkNonSpeechSequenceComplete | services/scanner_transcriber/scanner_transcriber/storage.py:531-547 | completes a slot without a row, returning the rows that become public |
| ScannerStores.ScannerStore.AssignNextPublicationSeq | services/scanner_transcriber/scanner_transcriber/storage.py:549-565 | a staged row gets one more than the largest cursor and nothing else changes; a row that has a cursor, or no row, changes nothing |
| ScannerStores.ScannerStore.FlushSession | services/scanner_transcriber/scanner_transcriber/storage.py:607-615 | publishes the session's staged rows in slot order |
| ScannerStores.ScannerStore.CloseSession | services/scanner_transcriber/scanner_transcriber/storage.py:362-380 | flushes, stamps this session alone as stopped and forgets its window |
| ScannerStores.ScannerStore.RecoverAndStartSession | services/scanner_transcriber/scanner_transcriber/storage.py:245-348 | publishes the feed's stranded rows; marks the feed's latest session, if active, as recovered_after_crash at the start and leaves all others alone; appends the new active session with an empty window; records a restart gap from the last audio end to the start exactly if that is over 250 ms; fails only for a session id in use, and returns how many rows it recovered |
| ScannerStores.ScannerStore.ListPublishedSegments | services/scanner_transcriber/scanner_transcriber/storage.py:617-678 | the fetch of one more than the limit, the has_more test and the slice give exactly the feed's rows between the cursor and next_cursor, all above it without has_more; without a cursor, reading backwards gives the newest rows ascending |
| ScannerStores.ScannerStore.EnforceRetention | services/scanner_transcriber/scanner_transcriber/storage.py:705-787 | clears expired audio and deletes expired rows with independent cutoffs, exactly those that end by them, and counts both exactly |
| StoreEffects.StartEffect | services/scanner_transcriber/scanner_transcriber/storage.py:245-348 | column by column on the tables before and after a start: a taken session id changes nothing; otherwise the crash mark and its time fall on the feed's latest session if it was active and on no other, one active session is added with nothing done and 0 expected next, and the gaps grow by exactly one worker_restart gap, from the previous audio end to the start, if and only if the two are more than 250 000 microseconds apart |
| StoreEffects.SessionsAndGaps | services/scanner_transcriber/scanner_transcriber/storage.py:350-429 | every other operation on sessions and gaps: what moves a last audio end and whose, that a duplicate moves none, that a close marks its own session, and that a gap is recorded if and only if it is longer than 50 ms |
| StoreEffects.SessionIdsUnique | services/scanner_transcriber/scanner_transcriber/storage.py:245-380 | over every run no two sessions have one id |
| StoreEffects.InsertedIff | services/scanner_transcriber/scanner_transcriber/storage.py:431-470 | a draft becomes a row if and only if no live row has its segment id, its session and slot, or its feed, stamps and audio hash, where null hashes are never equal |
| StoreEffects.PersistColumns | services/scanner_transcriber/scanner_transcriber/storage.py:470-519 | the new row holds the draft's columns and whether its audio is retained; rows already there change at most their cursors |
| StoreEffects.SweepEffect | services/scanner_transcriber/scanner_transcriber/storage.py:757-778 | a sweep leaves exactly the rows that end after the transcript cutoff, and retained audio exactly where the row also ends after the audio cutoff; nothing else changes |
| Worker.CoverageAccounted | services/scanner_transcriber/scanner_transcriber/worker.py:266-386 | after any run of a worker, storage faults included, every allocated sequence number has exactly one fate: a row of its own with its chunk's stamps and hash (published, or stranded by a fault and published at the latest by the close), a duplicate of the same audio, non-speech, an own gap row (if longer than 50 ms) with this feed and session, the chunk's start and end and the reason queue_backpressure_drop or asr_failure, lost to a storage fault with neither, or still waiting in a queue within its bound; every row and worker gap of the session is the record of exactly one slot; without a fault rows are published in slot order and none above a slot not finished |
| Worker.HandleKeeps | services/scanner_transcriber/scanner_transcriber/worker.py:266-402 | every capture, take, finish, disconnect and retention event, failing store calls included, keeps that account, gap fields and row fields included |
| Worker.FinishKeeps | services/scanner_transcriber/scanner_transcriber/worker.py:306-386 | finishing a chunk as speech, silence or failure settles exactly its slot: a row with its stamps, non-speech, or an asr_failure gap from its start to its end |
| Worker.CaptureKeeps | services/scanner_transcriber/scanner_transcriber/worker.py:280-289 | queueing or dropping a chunk accounts for the new number; a drop leaves a queue_backpressure_drop gap from the chunk's start to its end and completes no slot |
| Worker.CapturedEffect | services/scanner_transcriber/scanner_transcriber/worker.py:280-289 | a chunk joins the end of the queue exactly while fewer than max_pending wait; otherwise its gap is logged field by field and nothing else of the store moves |
| Worker.TakenEffect | services/scanner_transcriber/scanner_transcriber/worker.py:291-304 | the ASR thread takes the oldest waiting chunk and touches nothing else |
| Worker.FinishedEffect | services/scanner_transcriber/scanner_transcriber/worker.py:306-386 | speech without a duplicate stores a row with every column of the chunk and the text; failure logs a gap with the chunk's stamps; silence neither; all three move this session's last audio end to the chunk's end, a duplicate does not; no other slot's fate changes |
| Worker.StrandedEffect | services/scanner_transcriber/scanner_transcriber/worker.py:342-386 | if the second commit fails the new row holds every column and the text; if the first one fails no row changes |
| Worker.OutsideEffect | services/scanner_transcriber/scanner_transcriber/worker.py:388-402 | a disconnect logs one gap with its own stamps and reason; retention applies the audio and the transcript cutoff each to its own columns |
| Worker.QueueBounded | services/scanner_transcriber/scanner_transcriber/worker.py:266-289 | over every run no more chunks wait than the queue has room for |
| Worker.SpeechStoredUnlessRepeated | services/scanner_transcriber/scanner_transcriber/storage.py:436-470 | in a worker run, a speech chunk gets a row of its own if and only if no live row has its segment id or its feed, stamps and audio hash |
| Worker.RepeatedAudioHasNoRow | services/scanner_transcriber/scanner_transcriber/worker.py:342-380 | two chunks with the same stamps and audio: the second slot ends with no row, no completion as non-speech and no gap |
| Worker.StoppedAccounted | services/scanner_transcriber/scanner_transcriber/worker.py:173-207 | once the queue is drained no slot waits, and the close publishes every row of the session, without a fault in slot order |
| Worker.LateChunkAfterClose | services/scanner_transcriber/scanner_transcriber/worker.py:190-207 | on a store that stays open after the session was closed (handed in, or not yet closed): after any further operations that keep the session's window, a new speech chunk is inserted, and published at once if and only if its slot has not been completed since the close and every slot below it has |
| Worker.ClosedStoreLosesChunks | services/scanner_transcriber/scanner_transcriber/storage.py:225-236 | once stop() has closed the store (worker.py:206-207) every call fails: tables and window stay as they are, settled slots keep their fate, and a slot that was waiting or is captured later is lost once its turn comes |
| Capture.StreamCaptureRunner.EmitBuffer | services/scanner_transcriber/scanner_transcriber/capture.py:226-301 | cuts an even number of bytes off the front, numbers the slice, ends it no later than the clock; says exactly when nothing is emitted and what is then discarded |
| Capture.StreamCaptureRunner.Receive | services/scanner_transcriber/scanner_transcriber/capture.py:414-426 | after each block, emitted slices followed by the buffer are the bytes received, slices are even, of the chunk length and consecutive, end minus start is their duration, starts and ends never decrease, each starts where the last one ended (the first at the reading of the first block minus that block's duration) unless it had to be moved back to end at its own clock reading, and less than one chunk is left |
| Capture.StreamCaptureRunner.FlushTail | services/scanner_transcriber/scanner_transcriber/capture.py:456-458 | at the end of a connection all bytes are in slices except an odd last byte, or a tail below the flush minimum; the tail slice continues where the last one ended or ends now |
| Capture.Rounding | services/scanner_transcriber/scanner_transcriber/capture.py:226-262 | a duration is the nearest microsecond, the even one of two equally near; a chunk's target the nearest byte |
| Capture.Appended | services/scanner_transcriber/scanner_transcriber/capture.py:252-262 | a slice that continues from the last end, clamped to a non-decreasing clock, never ends before an earlier slice |
| Capture.StartsAppended | services/scanner_transcriber/scanner_transcriber/capture.py:252-262 | a slice no longer than the one before it never starts before it either, clamped or not |
| Capture.EqualReadingsRepeatStamps | services/scanner_transcriber/scanner_transcriber/capture.py:252-262 | two consecutive slices of one length have the same stamps if and only if the clock reading is the end of the first, which was emitted then |
| Capture.BurstMayStartEarlier | services/scanner_transcriber/scanner_transcriber/capture.py:414-426 | the first slice after a reconnect starts before the last one of the previous connection if and only if its burst is longer than the time since that start |
| Alignment.Align | audit/alignment.py:135-191 | the aligned items form a best chain, the one that the tie rule of ChooseChain selects, with start and end stamps of consecutive anchors, in time order |
| Alignment.ChooseChain | audit/alignment.py:163-180 | the chosen chain scores at least as much as every strictly increasing chain of candidates; ties are decided: every other chain with that score has a later candidate where, read from the end, the two first differ |
| Alignment.OptimalStep | audit/alignment.py:167-172 | one turn of the dynamic program: the new entry bounds every chain that ends at its candidate |
| Alignment.PickedIsBest | audit/alignment.py:175-180 | the back-trace of the selected key is a best chain with the stored total |
| Alignment.PickedIsFirst | audit/alignment.py:166-180 | every other chain of the best total has a later candidate where, read from the end, it first differs from the back-trace |
| Alignment.TraceBack | audit/alignment.py:176-180 | the loop over back-pointers with a final reverse gives the chain that ends at the key |
| Alignment.ChainIncreasing | audit/alignment.py:163-180 | any two members of a chain increase strictly in item index and in anchor index (and ChainIff: every such selection is a chain) |
| Alignment.CollectCandidates | audit/alignment.py:152-166 | the flat list holds exactly the scored pairs, each once, in (item, anchor) order |
| Alignment.ItemAt | audit/alignment.py:194-202 | returns the one aligned item whose span covers the time, or none exactly before the first start |
| Alignment.ItemBounds | audit/build_analysis.py:133-139 | the ranges tile the segments from the first start to the end, and segment k is in range j if and only if item j's span covers k's time |
| Alignment.CoversOnce | audit/alignment.py:194-202 | no time is covered by two items |
| Crc32.Crc | atlas/js/export.js:16-20 | the table-driven register equals the bit-at-a-time reflected CRC with polynomial 0xEDB88320 on every byte sequence |
| Crc32.BuildTable | atlas/js/export.js:7-15 | entry n is n shifted eight times through the polynomial |
| Crc32.LoopTurn | atlas/js/export.js:18 | one table look-up equals feeding the eight bits of the byte |
| Crc32.TableLookup | atlas/js/export.js:18 | eight shifts of a register are the table entry of its low byte xor the rest |
| Crc32.StepsXor | atlas/js/export.js:11 | shifting is linear over xor |
| Crc32.CrcOfConcatenation | atlas/js/export.js:16-20 | the CRC of a concatenation continues from the first part's register |
| Crc32.KnownEntries | atlas/js/export.js:7-15 | table entries 0, 1 and 128 are 0, 0x77073096 and 0xEDB88320 |
| Crc32.KnownCrcs | atlas/js/export.js:16-20 | the CRC of nothing is 0, that of the byte 0xFF is 0xFF000000 |
| Zip.MakeZip | atlas/js/export.js:21-71 | the bytes written are the local headers and contents, the central directory and the end record, with every field of the three layouts; within the field limits the reader lists the same names, sizes and offsets in order, and with the entry's own offset unpacks every file's exact bytes |
| Zip.WriteFiles | atlas/js/export.js:27-61 | each file's local and central header hold its CRC, sizes and name, and the running offset is where its header starts |
| Zip.RoundTrip | atlas/js/import.js:49-81 | with the entry's own offset: reading an archive of any files within the field limits lists the same names in order, and every entry unpacks to its exact bytes |
| Zip.ListingReadsBack | atlas/js/import.js:49-73 | in both forms the listing gives every name, method, size and recorded offset in order |
| ZipBytes.AsWrittenReadsBackIff | atlas/js/export.js:56 | with offset 0 throughout: names read back, and entry i's bytes do if and only if they are a prefix of contents 0, header 1, contents 1 and so on, computed from the file list alone |
| ZipBytes.ArchiveIsBytes | atlas/js/export.js:21-71 | the fields of the three record layouts fix every byte: the archive is one function of the file list |
| ZipBytes.LongerEntryHoldsHeader | atlas/js/export.js:56 | an entry that reads back is a prefix of the first file's contents, or is longer and starts with those contents followed by a local header signature (as far as it has room) |
| Zip.AsWrittenFailsForTwoFiles | atlas/js/export.js:56 | two one-byte files: the second reads back as the first |
| Zip.ReadZip | atlas/js/import.js:49-73 | the scan and the entry loop equal the specification, errors included, on any bytes |
| Zip.ScanEndFindsLast | atlas/js/import.js:52-56 | the backward scan finds the last end record among the final 66000 bytes |
| ZipForeign.ListsAnyArchive | atlas/js/import.js:49-73 | an archive by any writer (extra fields, comments, any method, any trailing comment, data anywhere) is listed with every member's name, method, compressed size and offset, as long as its last end record lies in the final 66000 bytes |
| ZipForeign.ReadsDirectory | atlas/js/import.js:59-71 | the walk over a directory steps over each record's name, extra field and comment |
| ZipForeign.ListingEnds | atlas/js/import.js:60-61 | the walk stops without an error at a record of another kind, and fails where one runs past the end |
| ZipForeign.NotAZipIff | atlas/js/import.js:52-57 | the file is refused as no ZIP if and only if no end signature stands in the final 66000 bytes at least 22 before the end |
| ZipForeign.UnzipsStored | atlas/js/import.js:74-79 | a stored entry unpacks to the bytes behind its local header, whatever the lengths of its name and extra field |
| ZipForeign.UnzipOutcome | atlas/js/import.js:74-81 | an entry unpacks if and only if its header lies within the file and it is stored; method 8 goes to the inflater, any other is refused by its number |
| Utf8.DecodeEncode | tools/sync_city.py:181-186 | decoding with replacement undoes UTF-8 encoding |
| Utf8.DecodeSplits | tools/sync_city.py:181-186 | decoding with replacement never joins across a byte that is not a continuation byte, even after malformed bytes |
| Utf8.Layout | tools/sync_city.py:181-186 | a code point's encoding is its base-64 digits under the lead byte of its length |
| Utf8.ReplacedPrefix | tools/sync_city.py:181-186 | at malformed bytes one U+FFFD stands for the longest start of any character's encoding, or for a single byte that starts none |
| UrlText.QuotePathIdempotent | tools/sync_city.py:189 | quoting a path twice is quoting it once |
| UrlText.UnquoteQuoted | tools/sync_city.py:181-189 | a quoted path decodes to the same text as the path itself, so the exclusion test sees the same string |
| UrlText.UnquoteIsDecode | tools/sync_city.py:181 | unquote's run-by-run decoding equals decoding the whole byte string at once |
| UrlText.QuotedChar | tools/sync_city.py:189 | which characters of a path and of a form stay, which one becomes '+', and that all others become '%' and two upper-case hex digits |
| UrlText.ParseFields | tools/sync_city.py:185 | a query is read field by field, cut at '&' |
| UrlText.ParseField | tools/sync_city.py:185 | a field is cut at its first '='; one without it has an empty value, also kept; key and value are unquoted with '+' as a space |
| UrlText.ParseWritten | tools/sync_city.py:185-189 | reading a written query returns the pairs, whatever characters keys and values hold |
| UrlText.SortSorts | tools/sync_city.py:189 | sorting gives an ordered permutation |
| UrlText.SortOfSorted | tools/sync_city.py:189 | sorting a sorted query changes nothing |
| UrlText.LexLeIs | tools/sync_city.py:189 | pairs are ordered by the first differing code point, a prefix first |
| Canonical.CanonicalFixedPoint | tools/sync_city.py:173-191 | an accepted reference's canonical URL is its own canonical form if and only if its re-encoded query is at most 1000 characters and its path does not end in empty parameters (what it keeps: TailHolds) |
| Canonical.JoinedFixedPoint | tools/sync_city.py:173-191 | a reference joined under its own scheme is canonical once and for all if and only if its re-encoded query fits |
| OpenCanonical.OpenFixedPoint | tools/anycity_crawler.py:367-393 | on any host in scope, the canonical URL of an accepted reference is its own canonical form if and only if its re-encoded query is at most 1000 characters and the path does not end in empty parameters; scheme, lower-cased host and non-default port read back (what it keeps: TailHolds) |
| OpenCanonical.UrlParsesBack | tools/anycity_crawler.py:369-391 | a canonical URL splits into the scheme, host, shown port, path and query it was built from, but for empty parameters |
| Canonical.TailFixedPoint | tools/anycity_crawler.py:384-393 | for either limit on the number of pairs, the normal form of path and query is its own normal form if and only if the new query fits |
| Canonical.SettlesAtSecondForm | tools/sync_city.py:173-191 | applied to a canonical URL, canonical refuses it (for certain if its query is over 1000 characters) or gives a URL that is its own canonical form |
| Canonical.TailHolds | tools/sync_city.py:181-191 | path and query are accepted if and only if the decoded path is not excluded, at most 8 (or 10) pairs survive the filter and the query has at most 1000 characters; the result is the quoted path and a sorted query that reads back to exactly those pairs, as often as given, whose case-folded key neither starts with utm_ nor is fbclid or gclid |
| Canonical.KeepKeeps | tools/sync_city.py:184-186 | the filter keeps each pair as often as it occurs, or drops it for its key |
| Canonical.FilteredKeys | tools/sync_city.py:184-186 | id, page, utm and xutm_source are kept; utm_source, UTM_Medium, fbclid and GCLID are dropped |
| Canonical.AcceptedIff | tools/sync_city.py:173-191 | a reference has a canonical URL if and only if its scheme is http or https, it has no userinfo, the one host, no port or 80 or 443, and its path and query are accepted; the URL is the https origin and that form |
| OpenCanonical.AcceptedIff | tools/anycity_crawler.py:367-393 | the same on any host in scope, with the scheme kept and the port shown if and only if it is neither absent, 0 nor the scheme's own |
| Canonical.KeptAndSorted | tools/sync_city.py:185-189 | filtering and sorting settle after one pass, whatever is filtered (KeepKeeps and FilteredKeys say what is) |
| Canonical.QuoteKeepsParams | tools/sync_city.py:189 | quoting neither creates nor removes empty parameters |
| Canonical.OtherSchemeNotFixed | tools/sync_city.py:173-191 | http "/a;" is accepted and its canonical URL canonicalises to "/a" |
| Canonical.LongQueryNotFixed | tools/sync_city.py:212-216 | 334 to 1000 double quotes as a query are accepted, and the canonical URL is then not its own normal form |
| Mirror.NoStarvation | tools/sync_city.py:345-380 | if the URL at index i of pending canonicalises to v and v to itself, v is attempted in any runs permitted more than i pages in all, whatever links are discovered and whichever runs fail meanwhile |
| Mirror.NoStarvationWithin | tools/sync_city.py:345-380 | with at least m pages permitted a run, that is within floor(i/m)+1 runs, drained queues included |
| Mirror.RunServesPending | tools/sync_city.py:355-380 | one run attempts the canonical form of a pending URL or moves it up by all the pages it was permitted |
| Mirror.QueueMovesUp | tools/sync_city.py:366-377 | the queue is served strictly in order: after k attempts exactly its first k members were visited |
| Mirror.RunAccountsForQueue | tools/sync_city.py:349-380 | every URL scheduled for a run is either attempted in it or left pending, none twice |
| Mirror.QueuedIff | tools/sync_city.py:349-365 | a URL is queued if and only if something offered has it as canonical form |
| Mirror.OtherFormTakesPlace | tools/sync_city.py:349-359 | a pending URL with another canonical form gives its place to that one, and is itself queued if and only if something else on offer canonicalises to it |
| Mirror.RefusedPendingIsDropped | tools/sync_city.py:349-359 | a pending URL that canonical refuses has no effect on the queue |
| Mirror.StartOrder | tools/sync_city.py:349-365 | a run's queue is filled from pending, then seeds, then sitemap pages, then known records, each behind all earlier ones, and holds nothing but their canonical forms |
| Mirror.LinksScheduled | tools/sync_city.py:373-377 | after a page is visited exactly those of its links that canonical accepts are scheduled besides, and none after an error |
| MirrorUrls.PendingUrlServed | tools/sync_city.py:173-191 | a pending URL that canonical produced and still accepts has its second form attempted within floor(i/m)+1 runs; it is that form itself if and only if its query fits and its path has no empty parameters |
| MirrorUrls.LongPendingUrlDropped | tools/sync_city.py:187-189 | a pending URL whose re-encoded query is over 1000 characters is dropped without an attempt |
| MirrorUrls.EmptyParamsGiveWay | tools/sync_city.py:349-359 | a pending "/a;" gives its place to "/a" |
| Mirror.CrawlPageKeepsLedger | tools/sync_city.py:281-343 | one visit keeps the byte account equal to the sum over records, the budget and the change chain, and an error logs no change (what it stores: VisitOutcome) |
| Mirror.VisitOutcome | tools/sync_city.py:281-343 | answer by answer: a 200 page, or a document with a sound signature, that fits the budget sets the URL's record to its hash, size, status and time, with its links for a page and none for a document, moves the byte account by new minus old size, logs a change from the old hash to the new exactly if they differ, and leaves every other record alone; 304 on a known URL and any other status move only status and time; an unsupported kind, a denial, a failure, a bad signature and an excess change nothing; and which result or error each gives |
| Mirror.LastArchivedAnswer | tools/sync_city.py:281-343 | after any visits, a URL's record holds hash, size and links of the last answer archived for it |
| Mirror.SettleKeeps | tools/sync_city.py:366-374 | a page denied by robots.txt has its record's status set to -1 and nothing else is touched |
| Mirror.RunKeepsLedger | tools/sync_city.py:345-397 | over a whole run, whatever links are followed, the byte account, the budget and the change chain hold |
| Mirror.LedgerOverRuns | tools/anycity_crawler.py:895-967 | over any sequence of visits the archive bytes equal the sum of record sizes and never rise above the budget if they started within it, and the change log only grows as a chain (what it stores: LastArchivedAnswer) |
| Mirror.ChainOfUrl | tools/sync_city.py:335-340 | consecutive changes of one URL link: the later one's before is the earlier one's after |
| Mirror.FirstOfUrl | tools/sync_city.py:335-340 | a URL's first change has no before |
| Mirror.LastOfUrl | tools/sync_city.py:335-342 | a URL's last change holds the hash the ledger compares with its record |
| Mirror.CityMirror.CrawlOne | tools/sync_city.py:281-343 | the visit as written updates records, bytes and changes as specified, on every answer and error, with the outcome that VisitOutcome spells out |
| Mirror.CityMirror.Run | tools/sync_city.py:345-397 | the run loop as written equals the specified run and leaves the unserved queue as pending |
| Votes.VotingRecord | audit/reconcile.py:141-187 | every counter equals its definition over the votes: cast, no and contested votes per member, minority votes as the member's entries on the strictly shorter side of votes with both sides present, and pairs together and alike |
| Votes.CountPairs | audit/reconcile.py:177-181 | one contested vote adds one to each pair of distinct voters, and to agreement exactly when both are in yes or both are not |
| Votes.RatesAtMostOne | audit/reconcile.py:163-195 | minority votes never exceed contested votes, contested and no votes never exceed votes cast, alike never exceeds together (what they add up to: MemberTotals) |
| Votes.MemberTotals | audit/reconcile.py:155-176 | summed over all members, minority votes are the smaller of the two sides of each contested vote and nothing on a tie, no votes the entries in no, and cast and contested votes the entries of both sides |
| Votes.ShorterSide | audit/reconcile.py:172-174 | the list the code picks is the strictly shorter side |
| Votes.AgreementInRange | audit/reconcile.py:196 | every agreement ratio is between 0 and 1 |
| Votes.PairTotals | audit/reconcile.py:177-181 | summed over all pairs, together is the sum of C(n,2) over the voters of each contested vote, and alike the sum of C(yes,2) + C(no only,2) |
| Votes.RecordTotals | audit/reconcile.py:141-187 | the recorded counters have those totals |
| Votes.PairsCount | audit/reconcile.py:178 | n members have C(n,2) pairs |
| Captions.EmittedLines | tools/fetch_transcripts.py:104-138 | the loop with its overlap scan equals the specified merge |
| Captions.CueEmits | tools/fetch_transcripts.py:114-138 | a cue adds exactly its lines behind the longest overlap with the window before it, each with the cue's own start, and changes nothing emitted before |
| Captions.StreamEndsWithWindow | tools/fetch_transcripts.py:114-138 | after every cue the stream ends with the last non-empty window, whole |
| Captions.ExtensionShortest | tools/fetch_transcripts.py:128-135 | no shorter extension of the previous window ends with the new one |
| Captions.StampsFollowCues | tools/fetch_transcripts.py:133-134 | emitted stamps never decrease if the cues' do not |
| Captions.EmittedNonBlank | tools/fetch_transcripts.py:123-135 | no emitted line is empty |
| Captions.Paragraphs | tools/fetch_transcripts.py:141-160 | each paragraph is one group: its lines joined by single spaces, stamped with the first line's start |
| Captions.GroupsPartition | tools/fetch_transcripts.py:150-160 | the groups in order are all the lines, none lost or moved |
| Captions.ParagraphsFit | tools/fetch_transcripts.py:151-157 | a paragraph of several lines exceeds max_chars by at most the number of empty lines it starts with, so not at all without empty lines, and none could have taken the next line |
| Captions.BlankLinesOverrun | tools/fetch_transcripts.py:157 | that bound is reached: one empty line, "a" and "b" make four characters under a limit of three |
| Passages.SplitLong | audit/audit_ingest_node.py:579-599 | pieces are non-empty, at most limit long, and keep every non-whitespace character in order; if the sentences' white space is blanks, none in front, and no word is longer than the limit, exactly the words in order; if every sentence fits, each piece is some consecutive sentences joined by blanks, and could not have taken the next sentence |
| Passages.BreakSentence | audit/audit_ingest_node.py:584-591 | breaking an over-long sentence ends, with bounded pieces and nothing lost |
| Passages.TimestampedSegments | audit/audit_ingest_node.py:602-617 | segments are non-empty, at most twice chunk_chars, and form one group for each stamped text in order, each segment with that text's stamp and the group with its non-whitespace characters in order |
| Passages.BuildPassages | audit/audit_ingest_node.py:644-667 | passages are an ordered partition of the segments, each shorter than 3 times chunk_chars, all but the last cut where the size first reaches chunk_chars |
| Passages.PassageLength | audit/audit_ingest_node.py:651-662 | the running size is the passage's length plus one |
| MergeRecovery.BytesToUnicode | services/scanner_transcriber/scanner_transcriber/model_bootstrap.py:50-63 | the table covers all 256 bytes and is injective |
| MergeRecovery.KeysDistinct | services/scanner_transcriber/scanner_transcriber/model_bootstrap.py:145 | distinct tokens have distinct vocabulary keys |
| MergeRecovery.KeyOfJoin | services/scanner_transcriber/scanner_transcriber/model_bootstrap.py:50-63 | a key is its bytes' characters in order, a printable byte itself and the n-th unprintable one 256 + n, so two keys concatenate to their tokens' key |
| MergeRecovery.RecoverMerges | services/scanner_transcriber/scanner_transcriber/model_bootstrap.py:142-162 | the loop records each token's merge in listing order, both halves under their vocabulary strings, and one vocabulary key per token with its rank |
| MergeRecovery.ReduceToken | services/scanner_transcriber/scanner_transcriber/model_bootstrap.py:147-160 | the merge loop ends, for any rank table, with the specified pieces |
| MergeRecovery.BestPair | services/scanner_transcriber/scanner_transcriber/model_bootstrap.py:149-153 | the pair of least rank, leftmost among equals |
| MergeRecovery.ReduceKeeps | services/scanner_transcriber/scanner_transcriber/model_bootstrap.py:148-160 | the pieces always concatenate to the token, at least two remain, and every piece longer than a byte has a smaller rank |
| MergeRecovery.MergeRejoins | services/scanner_transcriber/scanner_transcriber/model_bootstrap.py:161-162 | a recorded merge rejoins to its token from two known halves, each multi-byte half of strictly smaller rank |
| MergeRecovery.MergesInRankOrder | services/scanner_transcriber/scanner_transcriber/model_bootstrap.py:144-162 | the recorded merges come out in the order of their tokens' ranks |
| MergeRecovery.MergesDeriveTokens | services/scanner_transcriber/scanner_transcriber/model_bootstrap.py:142-162 | if every multi-byte token yields a merge, every token can be rebuilt from single bytes by recovered merges |
| BpeEncode.RebuildsAllIff | services/scanner_transcriber/scanner_transcriber/model_bootstrap.py:142-162 | for unique ranks of at most 10^9: applying the recovered merges in list order rebuilds every token from its bytes if and only if every longer token yields a merge |
| BpeEncode.RebuiltYieldsMerge | services/scanner_transcriber/scanner_transcriber/model_bootstrap.py:142-162 | in any rank table, a longer token that the encoder rebuilds yields a merge |
| BpeEncode.EncodeRebuildsToken | services/scanner_transcriber/scanner_transcriber/model_bootstrap.py:142-162 | for a table in which every longer token yields a merge and ranks are unique, applying the recovered merges in list order to any token's bytes ends in exactly that token |
| BpeEncode.LocalStep | services/scanner_transcriber/scanner_transcriber/model_bootstrap.py:148-160 | merging the lowest-ranked pair is local: every run of pieces is what the loop makes of its own bytes alone |
| BpeEncode.TiedRanksStick | services/scanner_transcriber/scanner_transcriber/model_bootstrap.py:144-162 | with two tokens of one rank, listed against the loop's order, the recovered merges leave a token in two pieces |

## Left out

- SQLite, files, subprocesses, HTTP and locks themselves: a table is a sequence, a transaction is atomic, a transport is an arbitrary answer.
- Wall-clock columns and columns never read back (published_at_utc, capture_to_publish_ms, backend names, metrics, private paths); the deletion of private audio files.
- Stamps compared as text in SQL: `format_utc` drops a zero fraction, so text order is time order only for stamps of equal width; stamps are integers here.
- Two processes on one database: the feed lock admits one writer per feed, but writers for different feeds share the `MAX` query; the model is one process.
- `persist_segment` picks some clashing row with LIMIT 1 when several clash; the model picks the lowest row id. Only the row returned depends on it.
- A storage error raised by a single SQL statement inside a transaction is the rollback of that transaction: the operation does not happen, or `OpStage` happens.
- Backup and restore, status and health snapshots, event broadcast, gap listing.
- Worker thread interleavings finer than one store call; the store's lock serialises those.
- Capture's reconnect loop, backoff and upstream gaps; float rounding of durations (durations are exact microseconds).
- Candidate scoring in alignment (regular expressions, token overlap): scores are an arbitrary positive function, as reals.
- Canonical.CanonicalFixedPoint: starts from a parsed reference; `urljoin` and `urlsplit` of arbitrary raw text are modelled only on canonical URLs, where the second application needs them. Exclusion patterns are a predicate on the decoded path. A lone surrogate, which the source rejects, has no counterpart in `char`.
- Canonical.TailFixedPoint: path and query only; the origin part of anycity_crawler.py is OpenCanonical.OpenFixedPoint.
- OpenCanonical.OpenFixedPoint: hosts in brackets (IPv6) are not modelled; their brackets are lost in `hostname`. The scope is a predicate on the host.
- The heap frontier of `Harvester.run`: its pending list is in heap order, so the first-in-first-out bound does not apply to it.
- Redirects, retries, robots.txt parsing and the budgets inside `request`; HTML parsing; titles and paths of stored records.
- DEFLATE entries, and `TextDecoder` (replacement and byte-order mark) after unzipping: entries are bytes. `TextEncoder` before zipping likewise: names and contents are given as bytes.
- Votes.VotingRecord: the counters of cast, no, minority and contested votes and of pairs; the counts of meetings, motions and not_voting, the rounding to three digits and the sorting of the tables are not modelled.
- VTT block and timing parsing, `clean_line`, the sentence and timestamp regular expressions: their outputs are inputs.
- Tensor conversion, special tokens and file formats in `convert_npz_to_ct2`.
- Encryption, lexicon classifiers, report rendering and browser views.
