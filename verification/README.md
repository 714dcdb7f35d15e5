# Verified models of the indexer's core

The repository indexes project files and agent session transcripts, keeps the index in step with
file-system events, and answers searches over it. This project models the parts of it where a
mistake would be silent: how events, scans and readers are kept apart, how a transcript that grew
is read without reading it all again, how text becomes terms, how candidates are admitted and
ranked, and the decoders, the JSON scanner and the posting cache below all that. The program's
classes are classes here, its loops are loops with invariants, and each method is proved against a
function of its inputs or of the state before it; the lemmas then say what those functions promise.
`dafny verify dfyconfig.toml` checks everything.

## How the modules fit together

- **Reconciliation.** `Scopes`, `Coverage` and `Reconciliation` model the controller, its run
  handle and the coverage ledger as objects. `ReconciliationRuns` lets watchers, the worker, the
  store, stale tickets and process restarts interleave in any way and for any length, with a log of
  observed events, the set of events still owed a scan, and for every stored path whether it is
  searchable and when its content was last verified.
- **Sessions.** `SessionFraming` cuts records out of reads of any size and takes the four digests in
  one pass; `SessionIds` is the two-level identifier set; `SessionReading` is one attempt at a file,
  with its two passes and its retries; `SessionHistory` proves that resuming from a checkpoint is
  the same as starting over, for one read and for whole histories of a growing file;
  `SessionRecords` says which records count, and whose the file is. `FieldLog`,
  `FieldReplay` and `FieldDedup` are the deduplication of visible fields, `SessionChunks` their
  chunks, and `SessionFields` leads from a record's items to what is stored.
- **Text.** `WordForms`, `RunSplit` and `Tokenizer` are the streaming tokenizer, each against a
  declarative split of the whole text, of which `ComponentLaws` says what it means; `OpenTerms` says
  what it has given of a text that has not ended; `QueryTerms` is the query's side of it. `Utf8` and
  `Utf16` decode, `FileChunks` cuts, and `FileReading` leads from a file's bytes to its chunks with
  both; `ChunkTerms` says which terms chunks carry and what the store makes of them.
- **Search.** `Lanes` and `Admission` decide which candidates may be ranked, `Similarity`,
  `Proximity`, `Ranking` and `Selection` compare, deduplicate and select them, `PostingCache` is
  the cache of posting lists.
- **Capture.** `JsonNumbers`, `JsonStrings` and `JsonScanner` are the byte scanner for records,
  `JsonSpelling` the ways to write what it reads.

`Options`, `Bytes`, `Collections`, `Surrogates`, `Identifiers` and `Chunks` hold what several of these share.

## What the program does not promise

Some properties that one might expect fail, and the proofs say exactly when they hold.

- Subtracting an outcome that was added restores the totals exactly when no diagnostic category
  counted zero is shared by both (`Coverage.SubtractUndoesAdd`); an outcome counted twice can be
  taken out twice exactly when all its diagnostic counts are positive
  (`Coverage.TwoCopiesCanBeRemoved`).
- If the first session identifier of a transcript appears only behind the checkpoint, a resumed
  read leaves earlier chunks without it, and a full read does not
  (`SessionHistory.LateSessionIsNotRewritten`). Resuming equals rebuilding if the prefix names a
  session, or the suffix names none, or the prefix's first well-formed record names its own; for a
  normalisation that tells sessions apart it does so exactly then
  (`SessionHistory.AppendEqualsRebuildExactlyWhen`).
- How alike two hits are by place depends on which comes first, exactly when one follows the other in
  a session and not the other way round (`Similarity.StructuralIsSymmetricExactlyWhen`).
- Deduplication misses a repeat exactly when it repeats a field that stood alone in memory while the
  next item had no key (`FieldLog.DedupIsCompleteExactlyWhen`), and the output shows it exactly when
  that field has text (`FieldDedup.OutputIsCompleteExactlyWhen`); `FieldLog.LoneFieldIsRepeated` has
  such fields.
- The file chunker drops the last terms of a file exactly when the file ends where a chunk does, inside
  an occurrence whose end would bring a term not given before (`FileChunks.ChunkFile`). That is every
  compound with a letter or a digit, and every run with one, unless the run is too long to be its own
  term and its digest is that of one of its own components too (`FileChunks.LosesTermsExactlyWhen`).
  `FileChunks.FullChunkLosesTerms` and `FileChunks.FullWordIsLost` have such files, and
  `FileChunks.SomeFilesLoseTerms` one of each kind.
- The store tokenizes a chunk without terms on its own. So it indexes what a field contains exactly
  when every chunk of it with a letter or a digit carries terms
  (`SessionChunks.StoreIndexesFieldExactlyWhen`), which fails for every word of one
  component that is longer than a chunk (`SessionChunks.LongWordIsIndexedInPart`); and it restores what
  the file chunker dropped from a single chunk exactly when that chunk carries no terms
  (`FileChunks.StoreRestoresExactlyWhen`).
- A JSON string that can be skipped can be captured exactly when its escape letters mean something,
  its surrogates come in pairs and the bytes between its escapes are well-formed
  (`JsonStrings.SkippedIsCapturedExactlyWhen`); `JsonStrings.SkippingAcceptsMore` has strings that
  fail each of these.

## Model

| member | source | states |
|---|---|---|
| `Scopes.MergeCoversExactly` | src/reconciliation.rs:31-41 | A merged scope covers every path of both sides, and no other unless it overflowed to everything, which it does exactly past 1024 paths |
| `Scopes.QueueKeepsWork` | src/reconciliation.rs:145-155 | Queueing never drops work: the queue covers the new scope and all that it covered before, and stays bounded |
| `Coverage.Add` | src/coverage.rs:36-43 | The loop over categories yields the pointwise sum, with exactly the categories of either side |
| `Coverage.Subtract` | src/coverage.rs:45-57 | For a contained outcome the loop yields the pointwise difference, dropping exactly the categories that reach zero; no count underflows and no category is missing |
| `Coverage.SubtractUndoesAdd` | src/coverage.rs:36-57 | What was added can be subtracted, and doing so restores the total exactly when every category both sides share was positive in the total |
| `Coverage.TwoCopiesCanBeRemoved` | src/coverage.rs:45-57 | An outcome counted twice can be subtracted twice exactly when all its diagnostic counts are positive |
| `Coverage.TotalsAreDetermined` | src/coverage.rs:104-142 | Totals that are the sum of the stored outcomes are determined by these alone, whatever the history |
| `Coverage.CategoryPresence` | src/coverage.rs:36-57 | A diagnostic category is present in the totals exactly when a stored outcome counts it |
| `Coverage.InsertKeepsConserved` | src/coverage.rs:132-142 | Storing an outcome and adding it keeps the totals the pointwise sum of what is stored |
| `Coverage.RemoveKeepsConserved` | src/coverage.rs:132-142 | A stored outcome is always contained in the totals, so subtracting it is safe, and removing it keeps them the sum of the rest |
| `Coverage.FullUpdateForgetsHistory` | src/coverage.rs:86-130 | After a completed full update the ledger is the same whatever it was before, is known, and stores exactly the sources the update names with an outcome |
| `Coverage.EarlyPublicationIsAbsorbed` | src/coverage.rs:86-142 | Publishing any outcomes for the sources of a report during the run, in any order and number, then applying the report gives the ledger that applying alone gives |
| `Coverage.ReadyMeansSettled` | src/coverage.rs:150-201 | The status is ready exactly when coverage is known and no stored source and no discovery has pending work or errors |
| `Coverage.CollectionCoverage.PublishSource` | src/coverage.rs:132-142 | Replaces or removes one source outcome and leaves everything else, with the running totals still the sum over the map |
| `Coverage.CollectionCoverage.RetainNamed` | src/coverage.rs:104-121 | A full update drops exactly the sources it does not name, and takes their counts out of the totals |
| `Coverage.CollectionCoverage.PublishAll` | src/coverage.rs:104-130 | The loop over the update leaves every named source as the update says and every other as it was, in whatever order it goes |
| `Coverage.CollectionCoverage.Apply` | src/coverage.rs:86-130 | The whole new ledger for failed, partial, precise and full reports: flags, unfinished sources, discovery outcomes, stored sources, clock |
| `Coverage.CollectionCoverage.Snapshot` | src/coverage.rs:150-172 | Totals with discovery added, and the pending count, unknown unless coverage is known |
| `Coverage.SnapshotCounts` | src/coverage.rs:150-172 | Every count a reader is shown, pending, errors, excluded and each category, is the sum over the stored sources with what both discoveries found; a failed scan adds an error and a category of its own |
| `Coverage.FullScanIsShown` | src/coverage.rs:86-172 | After a completed full scan every count shown is the sum over the outcomes of its report with what its own discovery found, and nothing else |
| `Coverage.ScanIsShown` | src/coverage.rs:86-172 | After any other scan the outcomes it names replace those stored, and what discovery found counts as the kind of scan, completeness and cancellation say |
| `Coverage.KnownExactlyWhen` | src/coverage.rs:86-166 | A full scan leaves coverage known exactly if it was completed, a precise one exactly if also every source in its scope was reported and nothing else was in doubt |
| `Coverage.PublicationCounts` | src/coverage.rs:132-142 | Publishing one outcome changes every sum by the difference to the outcome before it |
| `Reconciliation.Controller.constructor` | src/reconciliation.rs:120-136 | A new controller has observed its own creation, owes a full scan, and is safe at no revision |
| `Reconciliation.Controller.Observe` | src/reconciliation.rs:138-143 | An event moves the revision on, queues its scope and its Git flag, and changes nothing else |
| `Reconciliation.Controller.Queue` | src/reconciliation.rs:145-155 | The queue becomes the old one merged with the scope |
| `Reconciliation.Controller.WatchError` | src/reconciliation.rs:157-163 | A watch fault is noted, moves the publication on only if it changes, and leaves events, queue and ledger alone |
| `Reconciliation.Controller.Begin` | src/reconciliation.rs:174-197 | A run begins exactly when none is active and work is queued; its ticket captures the queue, the Git flag and the revision, and the queue is emptied |
| `Reconciliation.Controller.Invalidated` | src/reconciliation.rs:209-215 | Only the active ticket makes its revision the safe one |
| `Reconciliation.Controller.Publish` | src/reconciliation.rs:92-104 | Only the active ticket changes an outcome, and then the publication moves on |
| `Reconciliation.Controller.Finish` | src/reconciliation.rs:217-258 | The whole new state for stale tickets, failures, mis-scoped reports and completions, and whether the run completed |
| `Reconciliation.Controller.Snapshot` | src/reconciliation.rs:260-285 | What a reader gets: coverage, eligibility and the token of the moment |
| `Reconciliation.Controller.Validates` | src/reconciliation.rs:287-292 | A snapshot validates exactly when its token is still the controller's |
| `Reconciliation.Run.Widen` | src/reconciliation.rs:303-306 | Widening merges into the run's own ticket and makes that the active one; the queue stays |
| `Reconciliation.Run.Scan` | src/reconciliation.rs:308-377 | A run suppresses, notes, scans, publishes and finishes in this order; if suppression fails, nothing is noted or published and the run finishes as failed |
| `Reconciliation.Run.Drop` | src/reconciliation.rs:379-388 | Dropping an unfinished run is finishing it as failed; dropping a finished one changes nothing |
| `Reconciliation.StaleTicketsChangeNothing` | src/reconciliation.rs:199-258 | A ticket that is not the active one changes no state, whether used to note, publish or finish |
| `Reconciliation.WatchFaultIsShown` | src/reconciliation.rs:260-277 | A watch fault is one more error and one more in its category, with its text, and nothing else |
| `Reconciliation.StatusMeans` | src/coverage.rs:184-201 | What building, refreshing, degraded and ready each say of what is queued, stored and discovered and of the watcher |
| `ReconciliationRuns.StepInv` | src/reconciliation.rs:138-388 | Every step of watchers, worker, store, stale tickets or restart keeps the invariant over revisions, queue, ticket, rows and owed events |
| `ReconciliationRuns.InvAlways` | src/reconciliation.rs:138-388 | The invariant holds in every state of every run of any length |
| `ReconciliationRuns.NoObligationIsLost` | src/reconciliation.rs:145-258 | In every reachable state each event not yet discharged is covered, with its Git flag, by the active ticket if captured there and otherwise by the queue; explicit scopes never exceed their limit |
| `ReconciliationRuns.KnownMeansNothingOwed` | src/reconciliation.rs:260-285 | Whenever pending changes are reported as known, no event is owed a scan |
| `ReconciliationRuns.DischargeIsEarned` | src/reconciliation.rs:217-258 | An event stops being owed only by the completion of the noted run that had captured it and covers its scope, and then no searchable row in its scope was verified before it |
| `ReconciliationRuns.FinishDecides` | src/reconciliation.rs:217-258 | The controller re-queues a finishing run exactly when it has not discharged its events |
| `ReconciliationRuns.RunsAreNumberedUpwards` | src/reconciliation.rs:174-197 | Within one process the ticket a run is given has a greater number than every ticket given before |
| `ReconciliationRuns.EndedRunsNeverMatch` | src/reconciliation.rs:174-258 | Once a run has ended, by finishing, being dropped or a restart, no later state matches its ticket or any widening of it |
| `ReconciliationRuns.FinishEndsRun` | src/reconciliation.rs:217-258 | Finishing a run with a ticket that matches, widened or not, ends it in that sense |
| `ReconciliationRuns.CleanScanSettles` | src/reconciliation.rs:217-258 | If a noted run ends with its own complete report nothing it captured is owed, and if nothing was observed meanwhile the controller is idle, readers may read and coverage has its time |
| `ReconciliationRuns.OtherEndsSettleNothing` | src/reconciliation.rs:217-258 | After a failure, a cancellation, incomplete discovery or a report that is not the run's own, all that was owed is owed, its work is queued again and coverage is unknown |
| `ReconciliationRuns.ForeignReportIsFailure` | src/reconciliation.rs:222-236 | A report of another run, or of another kind of scan than the ticket asked for, counts as a failure, whatever it says |
| `ReconciliationRuns.TimeMeansCompleted` | src/reconciliation.rs:217-258 | Coverage has a time exactly when a run of this process has completed, so the status is never building after that |
| `ReconciliationRuns.LedgerIsHistory` | src/reconciliation.rs:92-258 | In every state of every run the ledger stores for each source just what was last accepted for it |
| `ReconciliationRuns.FaultIsShown` | src/reconciliation.rs:157-163 | A watch fault stays from when it is reported until it is withdrawn, whatever happens between |
| `ReconciliationRuns.StepToken` | src/reconciliation.rs:260-292 | Tokens only move on; a step that keeps the token keeps everything a reader can see and the event log |
| `ReconciliationRuns.TokenHolds` | src/reconciliation.rs:260-292 | If the token is the same at two moments, it and everything visible were the same at every moment between |
| `ReconciliationRuns.EligibleRowsAreCurrent` | src/reconciliation.rs:260-285 | In an eligible state every searchable row was verified at or after every observed event that touches its path |
| `ReconciliationRuns.ReadProtocol` | src/reconciliation.rs:260-292 | If an eligible snapshot still validates after the read, then at the moment of the read the snapshot was the same and every searchable row was verified since every event that touches it, for any interleaving |
| `ReconciliationRuns.StepAgrees` | src/reconciliation.rs:217-258 | Every step keeps the agreement between the controller's obligations and the ledger's flags |
| `ReconciliationRuns.AgreeAlways` | src/reconciliation.rs:217-258 | That agreement holds in every state of every run whose scanners report on their own scope |
| `ReconciliationRuns.ControllerAndLedgerAgree` | src/reconciliation.rs:217-258 | While the ledger is not reconstructed a full scan is active or queued; an idle controller reports known coverage exactly unless a precise scan reported incomplete discovery since the last completed full one |
| `SessionFraming.FramingIsExact` | src/session_stream.rs:2528-2610 | The records of a text and its unfinished end concatenate to it, each record ends with its only newline, and the end has none |
| `SessionFraming.LinesOfAppend` | src/session_stream.rs:2528-2610 | Appending to a file that ends between records keeps its records and adds those of the suffix |
| `SessionFraming.CompletePart` | src/session_stream.rs:2528-2610 | The part up to the last newline has all the records and no unfinished end |
| `SessionFraming.NoteBoundary` | src/session_stream.rs:2647-2706 | Hashing up to a boundary inside a read notes the digest of exactly the bytes before it, once |
| `SessionFraming.Absorb` | src/session_stream.rs:2647-2706 | One read extends all the running hashes correctly wherever both boundaries fall |
| `SessionFraming.Pass` | src/session_stream.rs:2647-2706 | After any sequence of reads the hashers have absorbed the file and its suffix, and both prefix digests are noted if reached |
| `SessionFraming.DigestFile` | src/session_stream.rs:2647-2706 | For any read sizes: the digests of file, suffix and both prefixes, none exactly when the offsets are out of order or past the end, and the count of bytes both hashers absorbed |
| `SessionIds.DurableIdSet.constructor` | src/session_stream.rs:1157-1187 | An append starts from the committed identifiers, a rebuild from none |
| `SessionIds.DurableIdSet.Insert` | src/session_stream.rs:1188-1247 | Reports new exactly when the identifier is in neither prefix nor suffix; the first value stays |
| `SessionIds.DurableIdSet.Value` | src/session_stream.rs:1249-1271 | Looks through both levels and finds what a single map would hold |
| `SessionIds.DurableIdSet.Finish` | src/session_stream.rs:1273-1284 | The updates handed over, put on top of the committed prefix, give exactly what lookups saw |
| `SessionIds.InsertIntoDisjoint` | src/session_stream.rs:1188-1284 | Updates disjoint from the prefix can be recorded apart and joined later |
| `SessionReading.FrameBuffer` | src/session_stream.rs:2528-2610 | Framing one buffer, with a record begun in an earlier one, advances over exactly the records completed so far |
| `SessionReading.StreamRecords` | src/session_stream.rs:2528-2610 | For any read sizes the first pass sees the records of the concatenated bytes, their digest, and whether an unfinished record remains |
| `SessionReading.ScanMovesOn` | src/session_stream.rs:2528-2610 | The first pass moves on by exactly the bytes and lines of the records it was given |
| `SessionReading.ScanAppend` | src/session_stream.rs:2528-2610 | Scanning records in two goes is scanning them in one |
| `SessionReading.NormalizeRecords` | src/session_stream.rs:669-966 | The second pass over the captured records is the fold of normalisation, with identifiers kept in the two-level set |
| `SessionReading.NormalizeRecord` | src/session_stream.rs:669-966 | One record updates identifiers, session, chunks and diagnostics as the fold step says |
| `SessionReading.ReadFile` | src/session_stream.rs:669-966 | One attempt, branch by branch: fresh or resumed, excluded, unstable or accepted, with checkpoint, digests and identifier updates |
| `SessionReading.ReadFileWithRetries` | src/session_stream.rs:600-666 | The retry loop terminates and follows the retry relation |
| `SessionReading.RetriesAreAuthoritative` | src/session_stream.rs:600-666 | At most three retries; what an append attempt rejects is never the answer; an unstable answer means three unstable full reads in a row |
| `SessionReading.RetriedFull` | src/session_stream.rs:600-666 | Without a checkpoint the loop returns the first full attempt that is not unstable, or the last allowed |
| `SessionHistory.ScanJoins` | src/session_stream.rs:669-966 | Findings of an acceptable prefix and of its suffix scanned alone join to the findings of the whole |
| `SessionHistory.NormalizedShifts` | src/session_stream.rs:669-966 | Chunks and diagnostics already gathered do not influence how further records are normalised |
| `SessionHistory.NormalizedAppend` | src/session_stream.rs:669-966 | Normalising records in two goes is normalising them in one |
| `SessionHistory.FullReadIs` | src/session_stream.rs:669-966 | What a full read of a steady file amounts to |
| `SessionHistory.FullReadVerified` | src/session_stream.rs:669-966 | A full read of a steady file verifies, with the checkpoint at the end of its last record |
| `SessionHistory.AppendEqualsRebuild` | src/session_stream.rs:669-966 | Resuming from the checkpoint of an accepted prefix gives the same chunks in total, identifiers, checkpoint, version, diagnostics and pending flag as one full read, and is accepted exactly when that is, provided the session is settled by the checkpoint |
| `SessionHistory.ChangedPrefixIsNotResumed` | src/session_stream.rs:669-966 | If the bytes before the checkpoint no longer have their digest the resumed attempt is not accepted; if the file is shorter, the attempt is a full read |
| `SessionHistory.AppendEqualsRebuildExactlyWhen` | src/session_stream.rs:669-966 | If chunks tell which session a record was taken to belong to, resuming leaves what a full read leaves exactly when the prefix names a session, the suffix names none, or the first well-formed record of the prefix names its own, whatever inspection and summaries say |
| `SessionHistory.AcceptanceAgrees` | src/session_stream.rs:817-839 | Whether the file is accepted does not depend on where reading begins |
| `SessionHistory.InheritedSessionIsReplaced` | src/session_stream.rs:855-894 | If the first well-formed record names its session, the session inherited before it changes nothing |
| `SessionHistory.RetriesOnSteadyFile` | src/session_stream.rs:600-666 | On a steady file the retry loop returns the resumed attempt if accepted and otherwise the full read |
| `SessionHistory.StoreStep` | src/session_stream.rs:600-966 | After one more read, in the same context or another, the store is what a full read would have left |
| `SessionHistory.HistoryIsInvisible` | src/session_stream.rs:600-966 | After any history of reads of a file, through growth, rewriting and changes of identity, owner or registry that may change what inspection finds, the store is what one full read of the last state leaves |
| `SessionHistory.AcceptedReadsAreWhole` | src/session_stream.rs:669-966 | An accepted attempt is the attempt on the steady file that its second pass verified, though the two passes read at different times (digests injective on the suffix) |
| `SessionHistory.LateSessionIsNotRewritten` | src/session_stream.rs:855-894 | A concrete transcript on which resuming leaves an earlier chunk without the session identifier that a full read gives it |
| `SessionRecords.RecordsAreLines` | src/session_stream.rs:2528-2610 | Every line becomes one record, with its own bytes, their range, its line number and their digest |
| `SessionRecords.MalformedAreCounted` | src/session_stream.rs:700-800 | Inspection counts a malformed record for every record that it marks as malformed, and no other |
| `SessionRecords.TakenExactlyWhen` | src/session_stream.rs:780-838 | A full read of a steady file takes it exactly when a record names a directory of this collection and none names another's or an unknown one |
| `SessionRecords.ExcludedExactlyWhen` | src/session_stream.rs:807-838 | A file is excluded, rather than refused, exactly when it names directories of others and no other directory |
| `SessionRecords.HintIsFirstSession` | src/session_stream.rs:700-800 | The session assumed at first is the first that any record names |
| `SessionRecords.ForeignCheckpointIsIgnored` | src/session_stream.rs:685-720 | A checkpoint of another layout, provider, file, owner or registry, or from behind the end of the file, is as good as none |
| `SessionRecords.SeenKeyIsInjective` | src/session_stream.rs:885-887 | The key of a seen event keeps event and digest apart |
| `SessionRecords.RepeatsCountForNothing` | src/session_stream.rs:884-919 | Reading records is normalising those that repeat no event and digest before them, and no others, wherever the first occurrence lies |
| `SessionRecords.FullReadDropsRepeats` | src/session_stream.rs:861-919 | What a full read keeps, chunks, identifiers, session and diagnostics, is that of its records less the repeats |
| `SessionRecords.ResumedReadDropsRepeats` | src/session_stream.rs:861-919 | What a resumed read adds is that of the suffix less the records that repeat one before the checkpoint or behind it |
| `Utf8.SyntaxIsEncoding` | src/ingest.rs:1088-1167 | The byte ranges of section 4 of RFC 3629 admit exactly the encodings of scalar values |
| `Utf8.FedSplits` | src/ingest.rs:1088-1167 | Feeding two buffers is feeding their concatenation |
| `Utf8.DecoderIsExact` | src/ingest.rs:1088-1167 | For any split into buffers: accepted exactly when well-formed, the scalars re-encode to the input, and their byte ranges tile it |
| `Utf8.EncodingIsInjective` | src/ingest.rs:1088-1167 | A byte sequence is the encoding of at most one text |
| `Utf8.Utf8Decoder.Feed` | src/ingest.rs:1093-1159 | The byte loop, with bytes held over from earlier buffers, is the decoder's run; it stops at the first error |
| `Utf8.Utf8Decoder.Push` | src/ingest.rs:1093-1159 | One byte completes a character, is held, or is refused |
| `Utf8.Utf8Decoder.Finish` | src/ingest.rs:1161-1167 | The end is accepted exactly when nothing is held |
| `Surrogates.PairsAreSupplementary` | src/ingest.rs:1210-1249 | Surrogate pairs are exactly the characters beyond the basic plane, in section 2 of RFC 2781's arithmetic |
| `Utf16.FedSplits16` | src/ingest.rs:1185-1208 | Feeding two buffers is feeding their concatenation |
| `Utf16.Decoder16IsExact` | src/ingest.rs:1170-1261 | For either byte order and any split into buffers: accepted exactly when well-formed, scalars re-encode to the input, ranges tile it |
| `Utf16.Utf16Decoder.Feed` | src/ingest.rs:1185-1208 | The byte loop, with half a unit and a high surrogate held over, is the decoder's run |
| `Utf16.Utf16Decoder.PushByte` | src/ingest.rs:1185-1208 | Two bytes make a unit in the decoder's byte order |
| `Utf16.Utf16Decoder.Push` | src/ingest.rs:1210-1249 | A unit stands alone, begins a pair, completes one, or is refused; ranges reach back to the pair's start |
| `Utf16.Utf16Decoder.Finish` | src/ingest.rs:1251-1261 | The end is accepted exactly when neither half a unit nor half a pair is held |
| `WordForms.PushChar` | src/text.rs:349-389 | A form in the making stays that of the text so far: the complete folding while that is at most 256 bytes, and a running digest of all of it afterwards |
| `WordForms.FormDeduper.Insert` | src/text.rs:419-437 | New exactly when never inserted, on both sides of the move to disk |
| `WordForms.FirstOccurrencesKeepsAll` | src/text.rs:412-437 | Deduplication keeps every form exactly once |
| `RunSplit.SegmentsPush` | src/text.rs:273-304 | One more character changes only the end of the declarative split: it joins, cuts, or moves the last letter of an acronym into a new word |
| `RunSplit.TracksPush` | src/text.rs:273-304 | The tokenizer's one character of lookahead tracks that split through every character |
| `RunSplit.TracksFinish` | src/text.rs:306-336 | Committing what is pending at the end completes the split |
| `RunSplit.RunTokenizer.Push` | src/text.rs:273-304 | Pushing keeps the tokenizer in step with the split of the text so far and returns the terms that were added |
| `RunSplit.RunTokenizer.Finish` | src/text.rs:306-314 | Over the run, what is emitted is exactly the first occurrences among its components' terms followed by that of the whole, which is left out if it is all underscores |
| `RunSplit.RunTokenizer.CommitPending` | src/text.rs:316-320 | The character held back joins the component |
| `RunSplit.RunTokenizer.CommitChar` | src/text.rs:322-326 | A character joins the component, its form and its flags |
| `RunSplit.RunTokenizer.FinishComponent` | src/text.rs:328-336 | A component with a letter or digit is closed and its term emitted unless it was before |
| `RunSplit.RunTokenizer.EmitForm` | src/text.rs:338-344 | A form is emitted exactly when it is new |
| `ComponentLaws.BoundarySeparates` | src/text.rs:273-304 | Where there is a boundary, the components are those before it and those behind it |
| `ComponentLaws.UnderscoreSeparates` | src/text.rs:273-304 | An underscore separates, whatever stands beside it, and is no component |
| `ComponentLaws.CapitalSeparates` | src/text.rs:273-304 | A capital behind a lower-case letter begins a component |
| `ComponentLaws.AcronymSeparates` | src/text.rs:273-304 | The last of several capitals belongs to the word that it begins |
| `ComponentLaws.WordIsWhole` | src/text.rs:273-304 | A word, with a capital in front or without, and with digits, is one component |
| `ComponentLaws.CapitalsAreWhole` | src/text.rs:273-304 | Capitals alone are one component |
| `Tokenizer.SplitKeepsAll` | src/text.rs:141-203 | The pieces of a text, in order, are all of it but the breaks |
| `Tokenizer.SplitIsMaximal` | src/text.rs:141-203 | No piece is empty or holds a break, and each ends where a break or the text does |
| `Tokenizer.TokensAre` | src/text.rs:141-203 | The terms of a text are those of its closed parts and then of what is still open |
| `Tokenizer.PartsPush` | src/text.rs:141-163 | One character moves between runs, surfaces and delimiters as the declarative split of the longer text says |
| `Tokenizer.SurfaceTokenizer.Push` | src/text.rs:221-229 | A character joins the surface and, with a separator held back, its trimmed form |
| `Tokenizer.SurfaceTokenizer.PushSeparator` | src/text.rs:231-238 | A separator is held back for the trimmed form until something follows |
| `Tokenizer.SurfaceTokenizer.Finish` | src/text.rs:240-256 | One compound form is emitted exactly when the surface has a letter or digit and a separator; a trailing separator is left off if another remains |
| `Tokenizer.CompoundIsTerm` | src/text.rs:231-256 | A compound is a term of its own, and one separator behind it makes no difference; a second one does |
| `Tokenizer.TrailingSeparatorStays` | src/text.rs:240-256 | The only separator of an occurrence stays with it also at its end |
| `Tokenizer.StreamingTokenizer.Push` | src/text.rs:141-163 | Character by character, what has been emitted is what the split of the text so far has closed |
| `Tokenizer.StreamingTokenizer.Finish` | src/text.rs:189-195 | Over any text the terms emitted are exactly those of the declarative split |
| `Tokenizer.StreamingTokenizer.FinishRun` | src/text.rs:197-203 | Ending a run emits its terms and nothing else |
| `Tokenizer.AtDelimiter` | src/text.rs:141-163 | Behind a delimiter all terms of the text so far have been emitted |
| `OpenTerms.EmittedIs` | src/text.rs:141-163 | What the tokenizer has emitted of a text that has not ended is a function of the text: all that is closed, and the closed components of the open run |
| `OpenTerms.BlankHasNoTerms` | src/text.rs:306-336 | A run has terms exactly when it is not all underscores |
| `OpenTerms.TermsExactlyWhen` | src/text.rs:141-344 | A text has terms exactly when it holds a letter or a digit |
| `OpenTerms.RunEndsExactlyWhen` | src/text.rs:306-344 | What a run has given before its end is a beginning of its terms; the end adds to it exactly when its last component or the whole has a term that no closed component has |
| `OpenTerms.ShortTellsWhole` | src/text.rs:349-389 | For a run of at most 256 bytes, folded, no component has its term, whatever the digest |
| `OpenTerms.WholeIsToCome` | src/text.rs:306-336 | Until a run ends its own term is still to come, as every component is shorter: for a run of at most 256 bytes always, for a longer one unless its digest is also that of one of its own components |
| `OpenTerms.MoreToComeExactlyWhen` | src/text.rs:189-203 | What has been given of a text is a beginning of its terms, and all of them exactly when the end of its open occurrence brings nothing new |
| `OpenTerms.LettersBringMore` | src/text.rs:189-256 | The end of an occurrence brings nothing without a letter or digit; with one it does if the occurrence is a compound, or a run of at most 256 bytes, or a run whose digest none of its components has |
| `QueryTerms.TokenizeWithSurfaces` | src/text.rs:68-88 | The query's terms and whole surfaces, occurrence by occurrence, and as a multiset exactly the terms of the text |
| `QueryTerms.AppendOccurrence` | src/text.rs:90-104 | The last term of an occurrence is put first and recorded as its surface |
| `QueryTerms.QueryMatchesIndex` | src/text.rs:68-104 | Index and query agree on the terms of a text, each as often |
| `QueryTerms.WholeComesFirst` | src/text.rs:65-104 | A query gets the complete form of an occurrence before its components, and as its surface that form without the separators at its end, never a component |
| `Similarity.WeightedJaccard` | src/ranking.rs:793-800 | The two loops compute what is shared over what is held by either |
| `Similarity.JaccardIsSymmetric` | src/ranking.rs:793-800 | Similarity does not depend on which hit comes first, although the sum runs over one side only |
| `Similarity.JaccardBounds` | src/ranking.rs:793-800 | It lies in the unit interval, is positive exactly when a term is common, and one exactly when the weights are the same and not empty |
| `Similarity.OverlapCountsBytes` | src/ranking.rs:802-820 | The overlap is the number of common bytes over that of the shorter range, and one exactly when a range contains the other |
| `Similarity.DuplicateIsSymmetric` | src/ranking.rs:837-852 | Neither overlap nor being a duplicate depends on the order |
| `Similarity.NearlySameIsOverlap` | src/ranking.rs:802-820 | Ranges overlap enough exactly when they are of one version and share four fifths of the bytes of the shorter one |
| `Similarity.StructuralMeans` | src/ranking.rs:821-836 | Which of the four values two hits get, and that nearly the same text goes before adjacency and that before common symbols |
| `Similarity.StructuralIsSymmetricExactlyWhen` | src/ranking.rs:821-836 | The order of the hits matters exactly when one of two parts of a source follows the other and not the other way round |
| `Similarity.DuplicateMeans` | src/ranking.rs:837-852 | Duplicates are of one kind and say the very same, or are nearly the same stretch of a project file |
| `Proximity.Best` | src/ranking.rs:734-762 | The sliding window finds the length of the shortest window with every wanted term, and none exactly when none covers them |
| `Proximity.Closeness` | src/ranking.rs:734-762 | Wanted terms over the shortest window, never above one; zero exactly when fewer than two are wanted or no window covers them |
| `Ranking.Sort` | src/ranking.rs:956-961 | A permutation ordered by tier, relevance and identifier |
| `Ranking.FindDuplicate` | src/ranking.rs:962-971 | The first representative that the candidate duplicates, or none if there is none |
| `Ranking.Dedupe` | src/ranking.rs:962-971 | No representative duplicates an earlier one, every candidate is once a representative or in the list of the first it duplicates, and representatives precede what they stand for |
| `Selection.ClosestIsClosest` | src/ranking.rs:1010-1019 | The kept similarity is the true maximum over everything selected, measured at the first that reaches it |
| `Selection.ClosestIsUnique` | src/ranking.rs:1010-1019 | There is only one such similarity |
| `Selection.OptimalIsUnique` | src/ranking.rs:982-998 | There is only one first best candidate of the highest tier |
| `Selection.Update` | src/ranking.rs:1010-1019 | Comparing with the new pick only keeps every similarity the true maximum |
| `Selection.FindBest` | src/ranking.rs:982-998 | One scan with the kept similarities finds the first candidate of the highest tier whose recomputed score is greatest |
| `Selection.Scale` | src/ranking.rs:972-976 | The scale is the greatest relevance, and positive |
| `Selection.Select` | src/ranking.rs:977-1021 | The loop makes exactly the greedy selection with similarities recomputed from scratch, of the length that limit, cap and candidates allow |
| `Selection.EachPickIsBest` | src/ranking.rs:977-1021 | Each pick has the highest tier of all then available, and within it the greatest score against the picks before it |
| `Selection.SimilarityCounts` | src/ranking.rs:978-1011 | Whatever else was available in a pick's tier leads it in relevance by no more than in similarity to the picks so far, at the exchange rate of the two shares: of equally relevant candidates the less similar is picked, of equally similar ones the more relevant |
| `Selection.PickIsExplained` | src/ranking.rs:986-1008 | A pick's score is its share of relevance less its penalty, and that is the share of its greatest similarity to the picks before |
| `Selection.RankedIsInOrder` | src/ranking.rs:958-978 | What is left after sorting and collapsing is in the order of tier, then relevance, the greater first, then identifier |
| `Selection.WithoutDiversity` | src/ranking.rs:978-1011 | Without diversity the answer is the beginning of the ranking itself: tier, then relevance, then identifier |
| `Selection.TiersNeverRise` | src/ranking.rs:977-1021 | Tiers never rise along the output, and what is cut off is of no higher tier |
| `Selection.NothingIsLost` | src/ranking.rs:977-1021 | Picks and remaining candidates are together the distinct candidates |
| `Selection.PicksExtend` | src/ranking.rs:977-1021 | A longer selection begins with the shorter one |
| `Selection.EveryCandidateOnce` | src/ranking.rs:956-1022 | Every retained candidate appears exactly once, as a pick, as one left over, or in one collapsed list |
| `Selection.FirstPickIsMostRelevant` | src/ranking.rs:956-1022 | The first pick is the most relevant candidate of the highest tier |
| `Selection.Rerank` | src/ranking.rs:956-1022 | Sort, deduplication, scale and selection composed: the scale is the greatest relevance, but positive, and the length is the least of limit, 200 and the distinct candidates |
| `Lanes.RecordedSums` | src/admission.rs:81-140 | What is recorded per identifier is a summary of its deliveries: lanes that found it, a score each lane delivered, the greatest expansion score |
| `Lanes.DeliveryOrderIsIrrelevant` | src/admission.rs:81-140 | The same deliveries in any order and number leave the same record |
| `Lanes.WindowsMeet` | src/admission.rs:99-111 | A window of time has its first moment and not its last: windows that meet share no hit and leave none out |
| `Admission.Candidates.Record` | src/admission.rs:81-140 | A hit outside the filter on collection, kind, path, agent, session and time is refused and changes nothing; any other is merged |
| `Admission.Reserve` | src/admission.rs:254-266 | Takes exactly the best of the class, up to the limit, and loses and repeats nothing |
| `Admission.TopIsUnique` | src/admission.rs:254-266 | The best so many of a set are determined |
| `Admission.TopOfFewer` | src/admission.rs:254-266 | Whoever is among the best of many is among as many best of fewer |
| `Admission.PoolIsFull` | src/admission.rs:170-251 | The pool has exactly as many members as cap and candidates allow |
| `Admission.BestOfClassAreAdmitted` | src/admission.rs:170-251 | The best of each reserved class, up to its reserve, are in the pool, also those an earlier reservation took |
| `Admission.LeadersAreAdmitted` | src/admission.rs:170-251 | Reservations cannot crowd out the leaders of the general order |
| `Admission.RestAreBest` | src/admission.rs:170-251 | The unreserved places go to the best of those not reserved |
| `Admission.Candidates.Finish` | src/admission.rs:170-251 | The pool is exactly the admitted set, without repetition, in the general order, and every member was delivered by a hit in scope; the last cut removes nothing |
| `Admission.PoolIsByScore` | src/admission.rs:169-243 | In the pool spelled paths come first, then what was found by words, then the greater score, then the lesser identifier; no candidate left out scores more than an unreserved member of its standing |
| `Admission.ReservesAreByScore` | src/admission.rs:194-236 | Each reserve takes as many of its class as fit, and what it leaves scores no more, by the measure of its kind, than anything it takes |
| `Identifiers.IdLeqIs` | src/admission.rs:188-188 | Ties are broken lexicographically |
| `Admission.PoolIgnoresDeliveryOrder` | src/admission.rs:81-251 | The pool, with its order, does not depend on the order in which lanes delivered |
| `JsonNumbers.AutomatonIsExact` | src/session_json.rs:635-744 | The byte automaton accepts exactly the numbers of section 6 of RFC 8259 |
| `JsonNumbers.NoTerminatorInside` | src/session_json.rs:635-744 | No byte of a number could have ended it |
| `JsonNumbers.StopDecides` | src/session_json.rs:635-744 | Where the automaton stops, it is decided whether there is a number at all and where it ends |
| `JsonStrings.NextItemIsExact` | src/session_json.rs:525-617 | Reading finds an item exactly when its spelling is there, and there is at most one |
| `JsonStrings.ParseIsExact` | src/session_json.rs:428-495 | A string parses to items exactly when their spellings and the closing mark are there |
| `JsonStrings.SkippingFollowsCapture` | src/session_json.rs:497-523 | Whatever capturing accepts, skipping consumes to the very same byte |
| `JsonStrings.SkippingAcceptsMore` | src/session_json.rs:497-523 | Skipping accepts every meaningless escape, every lone surrogate and every stray continuation byte, which capturing refuses |
| `JsonStrings.StridesAreBody` | src/session_json.rs:497-523 | The strides of a skipped string are its bytes up to the closing mark |
| `JsonStrings.SkippedIsCapturedExactlyWhen` | src/session_json.rs:428-523 | A string that can be skipped can be captured exactly when its two-byte escapes are among the eight, a low surrogate stands exactly behind each high one, and every stretch between escapes is well-formed UTF-8 |
| `JsonSpelling.WrittenIsRead` | src/session_json.rs:525-617 | Any text, each of its characters written as it is, by its letter or by its number in digits of either case, is read back as that text |
| `JsonSpelling.ReadIsWritten` | src/session_json.rs:525-617 | Whatever is read is the text of such a writing |
| `JsonScanner.JsonParser.ReadByte` | src/session_json.rs:859-881 | The next byte in logical order, the pushed-back one first; none exactly at the end |
| `JsonScanner.JsonParser.UnreadByte` | src/session_json.rs:854-857 | Pushing back the byte just read undoes reading it |
| `JsonScanner.JsonParser.ParseNumber` | src/session_json.rs:635-744 | Succeeds exactly when a number followed by the end or one of seven terminators is there, leaves the terminator unread, and captures the numeral in bounded fragments |
| `JsonScanner.JsonParser.CaptureNumberByte` | src/session_json.rs:746-761 | A captured byte joins the fragment or starts the next; nothing is lost |
| `JsonScanner.JsonParser.FinishNumberCapture` | src/session_json.rs:763-775 | The last fragment is written, and the fragments are the numeral |
| `JsonScanner.JsonParser.ReadHexQuad` | src/session_json.rs:605-617 | Four hexadecimal digits and their value, or a refusal exactly when they are not there |
| `JsonScanner.JsonParser.DecodeUnicodeEscape` | src/session_json.rs:587-603 | A lone quad, or both halves of a pair, give the character they spell; anything else is refused |
| `JsonScanner.JsonParser.DecodeString` | src/session_json.rs:525-585 | Delivers the text of the string that is there in fragments of at most 16 KiB, cut between characters, and stands behind its closing mark; refuses exactly when there is none |
| `JsonScanner.JsonParser.ParseStringCapture` | src/session_json.rs:428-495 | Accepts exactly the strings of the grammar and spools their decoded text |
| `JsonScanner.JsonParser.ParseKey` | src/session_json.rs:399-414 | A key is its decoded text, or absent exactly when longer than 4096 bytes, and is consumed either way |
| `JsonScanner.JsonParser.ParseStringDiscard` | src/session_json.rs:497-523 | Consumes exactly what skipping over a string consumes |
| `JsonScanner.JsonParser.ExpectByte` | src/session_json.rs:832-840 | Succeeds exactly when the expected byte is next |
| `PostingCache.Cache.Pressure` | src/hot.rs:41-46 | Under pressure the cache is emptied, and stays so |
| `PostingCache.Cache.Clear` | src/hot.rs:47-51 | Entries, order and byte count are emptied together |
| `PostingCache.Cache.Get` | src/hot.rs:52-58 | A reader of another generation empties the cache; an entry returned is the one a direct load gives |
| `PostingCache.Cache.Insert` | src/hot.rs:59-74 | Refused under pressure, for another generation or a key already there; otherwise the oldest leave until there is room, no more than needed, and the cap is kept |
| `PostingCache.Cache.Evict` | src/hot.rs:63-70 | Drops the oldest entries, and no more than needed |
| `PostingCache.Cache.Run` | src/hot.rs:128-163 | Over any interleaving of readers at any generations every entry returned is the one a direct load gives, and the bytes stay within the cap |
| `FieldLog.GroupingKeepsText` | src/session_stream.rs:1449-1475 | Items of one field are grouped without losing or moving text, whatever the fragment boundaries |
| `FieldLog.GroupingIsExact` | src/session_stream.rs:1449-1475 | Neighbouring items are one field exactly when they have the same tag, with a key |
| `FieldLog.DistinctIsFirsts` | src/session_stream.rs:1559-1627 | The promised output is, in order, the fields whose key and text have not both been there before, and those without a key |
| `FieldLog.DedupIsCompleteExactlyWhen` | src/session_stream.rs:1449-1639 | What is let out is the first occurrence of each field exactly when no field repeats one that stood alone in memory |
| `FieldLog.LoggedShows` | src/session_stream.rs:1449-1639 | What is let out has the same fields with text as the promised output unless a lone field with text is repeated, and then it has more text |
| `FieldLog.LoneFieldIsRepeated` | src/session_stream.rs:1449-1569 | A field held in memory, then one without a key, then the first again: all three are let out, and if it has text the output shows it twice |
| `FieldLog.AllKeyedIsComplete` | src/session_stream.rs:1449-1639 | Among items that all have keys, no repeat escapes |
| `FieldReplay.CheckIsSound` | src/session_stream.rs:1754-1788 | On a stretch of well-formed text cut anywhere, validation finds the longest whole characters and that the rest is only cut |
| `FieldReplay.ReplayValid` | src/session_stream.rs:1754-1788 | Emits what is whole, keeps a character that is cut, and at the end keeps nothing |
| `FieldReplay.ReplayField` | src/session_stream.rs:1728-1752 | Reading a field back in blocks emits well-formed items that are together its text |
| `FieldReplay.RangesEqual` | src/session_stream.rs:1699-1726 | Comparing two stretches of the spool block by block decides whether they are equal |
| `FieldDedup.VisibleFieldDeduper.Push` | src/session_stream.rs:1449-1475 | An item continues the field under way or ends it, and what is let out is what the log of fields says |
| `FieldDedup.VisibleFieldDeduper.StartField` | src/session_stream.rs:1477-1499 | A field starts in memory or, if too long or if spooling has begun, in the spool |
| `FieldDedup.VisibleFieldDeduper.AppendActive` | src/session_stream.rs:1501-1531 | Text joins the field under way, which moves to the spool when it grows too long |
| `FieldDedup.VisibleFieldDeduper.PromoteActive` | src/session_stream.rs:1533-1557 | Moving the field under way to the spool keeps it what it is |
| `FieldDedup.VisibleFieldDeduper.FindDuplicate` | src/session_stream.rs:1584-1612 | A recorded field is found exactly when key and full text are the same, also when digests collide |
| `FieldDedup.VisibleFieldDeduper.FinishActive` | src/session_stream.rs:1559-1627 | A field is let out exactly if not recorded, with its text reassembled |
| `FieldDedup.VisibleFieldDeduper.EnsureStorage` | src/session_stream.rs:1629-1635 | The spool is created once and starts empty |
| `FieldDedup.VisibleFieldDeduper.Finish` | src/session_stream.rs:1637-1639 | What was let out over the whole event is what the log of its fields emits |
| `FieldDedup.OutputIsCompleteExactlyWhen` | src/session_stream.rs:1419-1639 | The items let out spell the first occurrence of each field exactly when no lone field with text is repeated |
| `FieldDedup.Collect` | src/session_stream.rs:1419-1639 | Over any sequence of items, for any digest function, the items let out spell the first occurrence of each field exactly when no lone field with text is repeated, and always if all items have keys |
| `SessionChunks.SessionChunkAppender.Push` | src/session_stream.rs:2422-2452 | An item continues its logical field or ends it; chunks stay bounded and carry the first item's metadata |
| `SessionChunks.SessionChunkAppender.FinishActive` | src/session_stream.rs:2460-2473 | Ending a field adds the tokenizer's last terms to its last chunk, also at exact multiples of 16 KiB |
| `SessionChunks.SessionChunkAppender.FlushCurrent` | src/session_stream.rs:2475-2497 | Cutting a chunk loses neither text nor terms |
| `SessionChunks.SessionChunkAppender.Finish` | src/session_stream.rs:2499-2502 | All fields have been cut into chunks |
| `SessionChunks.CutAll` | src/session_stream.rs:2395-2503 | For any items: each field's chunks are non-empty, at most 16 KiB, end only where the next character does not fit, concatenate to its text and carry exactly the terms of the whole text, each term in the chunk that completes it |
| `SessionChunks.FieldsAreExact` | src/session_stream.rs:2422-2452 | Neighbouring items are one field, with the metadata of the first, exactly when they have the same logical identifier |
| `SessionFields.StoreFields` | src/session_stream.rs:895-919 | From the items of a record to its stored chunks: each field let through becomes chunks with exactly its terms, and all chunks together are, byte for byte, the texts let through, which are those of the distinct fields exactly when no lone field with text is repeated |
| `SessionChunks.StoreIndexesFieldExactlyWhen` | src/store.rs:1410-1413 | The store indexes for a field exactly the terms of its text just when every chunk of it that holds a letter or a digit carries terms |
| `SessionChunks.LongWordIsIndexedInPart` | src/store.rs:1410-1413 | For every word without capitals or underscores that is longer than a chunk, however the appender cuts it, the store indexes something else than its terms |
| `ChunkTerms.StoreAddsNothingExactlyWhen` | src/store.rs:1410-1413 | For the chunks of files and of sessions alike, the store indexes what they carry exactly when every chunk with a letter or a digit carries terms |
| `ChunkTerms.NoTermsBefore` | src/session_stream.rs:2422-2452 | A chunk that ends inside the first word carries no terms |
| `FileChunks.Chunker.Push` | src/ingest.rs:1281-1330 | Takes a character, cutting before a chunk would be too long and after one is full or has 60 lines; refuses exactly when the text so far is binary |
| `FileChunks.Chunker.Inspect` | src/ingest.rs:1281-1300 | Refuses a zero character, or a disallowed one that is at least the eighth and makes them a fifth |
| `FileChunks.Chunker.Flush` | src/ingest.rs:1339-1364 | Cutting a chunk keeps text, terms, lines and bytes |
| `FileChunks.Chunker.Finish` | src/ingest.rs:1332-1337 | All text is in chunks, and their terms are those of the whole text if text was waiting, and otherwise what the tokenizer had given before the end |
| `FileChunks.ByteRangesAbut` | src/ingest.rs:1281-1364 | The chunks' byte ranges abut from the first character to the last |
| `FileChunks.ReadableExactlyWhen` | src/ingest.rs:1281-1300 | Checking only at disallowed characters refuses exactly the texts with a zero character or, at some point, eight disallowed ones that make up a fifth |
| `FileChunks.SpacingIsReadable` | src/ingest.rs:1281-1300 | A text whose only control characters are tabs, line ends and feeds is readable at any length; eight others and nothing else are not |
| `FileChunks.ChunkFile` | src/ingest.rs:1264-1365 | For any decoded file: refused exactly when binary; otherwise bounded chunks that concatenate to it and end only where they are full, where the next character does not fit or behind a sixtieth line, with lines one plus the newlines before, abutting bytes, and each term in the chunk that completes it; their terms are a beginning of the text's, and some are missing exactly when the file ends where a chunk does inside an occurrence whose end brings more |
| `FileChunks.LosesTermsExactlyWhen` | src/ingest.rs:1332-1343 | That takes a letter or digit in the open occurrence; and these suffice if it is a compound, a run of at most 256 bytes, or a run whose digest none of its components has |
| `FileChunks.FullChunkLosesTerms` | src/ingest.rs:1332-1343 | After any complete occurrences, a compound (a separator and a word without capitals or underscores) that fills the first chunk to the byte at the end of the file loses its terms |
| `FileChunks.FullWordIsLost` | src/ingest.rs:1332-1343 | A file that is one word without capitals or underscores and fills a chunk to the byte is cut into a chunk without terms, whatever the digest |
| `FileChunks.SomeFilesLoseTerms` | src/ingest.rs:1332-1343 | There are such files: 16384 letters, and a full stop with 16383 letters |
| `FileChunks.StoreRestoresExactlyWhen` | src/store.rs:1410-1413 | Of any text that is one chunk and has lost terms the store indexes all terms exactly when the chunk carries none |
| `FileReading.DetectIsShort` | src/ingest.rs:983-993 | The first three bytes decide the encoding of the whole file, and hold its mark |
| `FileReading.MarkDecides` | src/ingest.rs:983-993 | A file that begins with U+FEFF in one of the three encodings is in that encoding, and its text begins behind the mark; any other is UTF-8 from its first byte |
| `FileReading.SizeIsBytes` | src/ingest.rs:1302-1330 | The size by which chunks are bounded is the length of their text in UTF-8 |
| `FileReading.DecodingIsExact` | src/ingest.rs:1046-1085 | In any of the three encodings: accepted exactly when well-formed; the characters encode to the bytes, and their ranges tile them from where they begin |
| `FileReading.DecodingGrows` | src/ingest.rs:1046-1085 | What has been decoded stays, and so does a failure, however the file goes on |
| `FileReading.Decoder.Feed` | src/ingest.rs:1061-1074 | A read is decoded in the encoding chosen, and the characters of all reads are those of their concatenation |
| `FileReading.Decoder.Finish` | src/ingest.rs:1076-1085 | The end is accepted exactly when the bytes fed are well-formed |
| `FileReading.Process` | src/ingest.rs:898-903 | After a read all that has been decoded is in the chunker; if the read is refused, no file that begins with the bytes read so far is a readable text |
| `FileReading.ProcessAll` | src/ingest.rs:904-933 | Over all reads nothing is lost, and stopping early is right: the whole file is no readable text |
| `FileReading.EndFile` | src/ingest.rs:934-942 | The file is taken exactly when well-formed and readable, and its chunks are as they should be |
| `FileReading.ReadSource` | src/ingest.rs:881-951 | From a file's bytes, in reads of any size, to its chunks: taken exactly when well-formed in the encoding it announces and not binary; then the chunks, encoded again, are the file behind its mark, their byte ranges abut from there to its end, and they carry its terms unless it ends where a chunk does inside an occurrence whose end brings more |

## Left out

- SessionHistory.AcceptedReadsAreWhole: assumes that the digest tells apart the two suffixes it compares, which is what the code relies on.
- ReconciliationRuns.ControllerAndLedgerAgree: assumes that a precise report names the keys of its ticket's paths and that a completed one has an entry for each, which the scanners outside this model provide.
- ReconciliationRuns.ReadProtocol: every method of the controller is one atomic step, as its mutex makes it, and process incarnations increase.
- Reconciliation.Run.Scan: project and session runs are one method; the store's invalidation and the scanner's publications are given.
- Coverage.CollectionCoverage.Apply: counters are unbounded; the 64-bit width is not modelled, and the clock is a parameter.
- SessionIds.DurableIdSet.Insert: neither the batching of writes nor the scratch database.
- SessionReading.ReadFile: ownership, the two passes' reads and the steadiness of the file's identity are parameters; normalisation of a record is an uninterpreted step over record, identifiers and session. The report's counts of errors and exclusions and its messages are not modelled.
- SessionRecords.RepeatsCountForNothing: assumes that digests have no colon, being hexadecimal, and that normalisation remembers no events itself (it remembers calls).
- SessionRecords.ExcludedExactlyWhen: assumes that inspection finds directories also where it looks at metadata only.
- QueryTerms.WholeComesFirst: for a run longer than 256 bytes, unless its digest is also that of one of its own components.
- WordForms.FormDeduper.Insert: the disk set is a set; its failures are not modelled.
- WordForms.PushChar: case folding, character classes and the digest are uninterpreted, with lower and upper case disjoint.
- FieldDedup.Collect: an item's text is well-formed UTF-8, as the program's string type guarantees; spool and digest index are values in memory.
- Selection.Rerank: scores are real numbers and given; rounding, infinities and the order of NaN are not modelled.
- Proximity.Closeness: the quotient is a real number; the stop words are a parameter.
- Admission.Candidates.Finish: whether a path is the one the query spells out, and whether the pool is weak, are parameters.
- Admission.PoolIgnoresDeliveryOrder: holds for one score per identifier in the lexical and in the meaningful lane, since a later delivery replaces an earlier one there.
- PostingCache.Cache.Get: entries are values, so sharing one with a reader is not visible; loading and scoring postings are outside.
- JsonScanner.JsonParser.ReadByte: read errors, cancellation and progress counts are not modelled.
- The object and array walker of the JSON scanner, literals, depth and path limits, and which paths are captured.
- Files, SQLite, sockets, threads, clocks, Git commands, watchers and memory sampling (`src/runtime.rs`, `src/main.rs`, `src/git_changes.rs`, `src/identity.rs`).
- The provider field tables that turn a record into visible fields, and the discovery and association of session files.
- BM25 scoring, field weights, temporal decay, expansion scoring, query classification, stop words and the search for literals.
- Statistics and hydration of admitted candidates, and the searches that fill the lanes.
- FileReading.ReadSource: neither the checks that the file stays the same while it is read, nor the disk cache, cancellation or the spool.
- SessionFields.StoreFields: de-duplication and cutting take turns item by item in the program; here one follows the other, which gives both the same inputs. How an item's tag gives its chunk's head is a parameter.
- Retries and fingerprints of project files, which follow the pattern proved for sessions.
- `src/progress.rs` counts work for a status display and decides nothing; `src/content_cache.rs` is a disk cache of prepared chunks that may be missing at any time; `src/query.rs` holds the tables that classify and widen queries; `src/record_spool.rs` writes records to temporary files and reads them back, which are sequences here.
