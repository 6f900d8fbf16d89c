# UltraBridge in Dafny

A model of the parts of UltraBridge whose correctness spans many calls: the device-sync engine, the
folder forest, the embedding cache, the text chunker, the Boox point files, hybrid search, and the
Boox job queue.

Check everything with `dafny verify dfyconfig.toml`.

## What is modelled

**Device sync.** Devices push full-row upserts. The server validates, deduplicates by
`(site_id, op_seq)`, merges each op into a mirror by last writer wins, appends it to a gap-free
changelog, advances a per-device `accepted_through`, and relays other sites' ops by cursor. It also
authors ops of its own. `sync_state.dfy` has each transaction as a function on the tables;
`sync_store.dfy` and `sync_service.dfy` have the classes that update the tables in place, each
method proved equal to its function. `reconcile.dfy` has the reference semantics: the greatest op
per row. The main results are that the incremental mirror is always the merge of the changelog
(`sync_runs.dfy`), that it depends only on the set of delivered ops (`delivery.dfy`), what
`accepted_through` means and why bad ops cannot hold it back (`accepted.dfy`), and that devices
which have caught up agree with the server and with each other (`relay.dfy`).
`authoring.dfy`, `inventory.dfy` and `changed_pages.dfy` treat the server's own edits and the
render notifications, and `ulid.dfy` the encoding that lets ids be compared as strings.

**Folder forest.** Last-writer-wins can close parent pointers into a cycle. `forest.dfy`,
`forest_contents.dfy` and `forest_nodes.dfy` prove that the tree builder ends on every parent map and
what it shows where; `folder_path.dfy` relates it to the breadcrumb climb.

**Embedding cache.** `embeddings.dfy` has the table and the cache as values and the agreement
between them; `embedding_store.dfy` has the growable buffer that is filtered in place and whose
vectors are references shared by copied notes.

**Chunker, point files, search, queue.** `chunk.dfy` has the splitter and `chunk_spans.dfy` where it
cuts. `point_file.dfy` has the builder and the parser of point files, `point_layout.dfy` the place of
every byte. `fusion.dfy` has the search, `job_queue.dfy` the protocol of worker, watchdog and user
interface, and `job_store.dfy` the statements and the worker that take its steps.

Every lemma with parameters carries `{:induction false}`: a proof uses no induction that it does not
spell out.

## Where the code and its documentation differ

- `docs/sync/forestnote-sync-protocol.md` section 7.4 lets the server answer a cursor above
  `last_seq` with `last_seq`. The code echoes the request's cursor
  (`internal/syncstore/store.go:625`), and so does the model: `RelayProtocol.CursorAboveLogIsEchoed`.
- Sections 7.2 and 7.3 call a rejection permanent and a resend harmless. A type error is noticed
  only on an op that would win its row, so an op rejected once may be logged when it is sent again
  after a newer op has won the row. `Accepted.ResendIsHarmless` says exactly when, and what still
  holds; `Accepted.RejectedOpIsLoggedOnResend` is an example.
- `ApplyResult.ChangedPages` reports the page a stroke or text box is on after a winning op, not the
  page it was on before: `ChangedPages.ReportIsCompleteIffNothingMoves` and `MovedStrokeIsMissed`.
- The chunker keeps words between its four break characters whole. A vertical tab or form feed is
  trimmed as white space but is not a break, so a word it sets off can be cut:
  `ChunkText.VerticalTabDoesNotProtect`; `ChunkSpans.StretchStaysWholeIffInOneBlock` says exactly when.
- `SkipNote` says it marks a note's latest job as skipped (`internal/booxpipeline/store.go:407`). A
  mark made while the worker holds that job is overwritten when the job ends:
  `JobQueue.SkipLastsIffWorkerIsElsewhere`.
- An empty map of points builds into a file that the parser refuses: `PointFile.RoundTripIff`.

## Assumptions

- A database error changes nothing and is not modelled further. A transaction is all or nothing; a
  single statement is atomic. The clock, random bytes, the order of map iteration and of rows
  without a sort key are parameters or unspecified.
- An op's identity determines its content (`Delivery.IdentityFixesOp`); devices push under their own
  site id only, which the relay results state as `Honest`.
- Numbers in columns are integers of magnitude at most 2^53, where the wire's floats are exact.
- In the queue protocol the worker's own statements succeed.

## Model

| member | source | states |
|---|---|---|
| `Ops.ValidateAccepts` | internal/syncstore/store.go:40-62 | an op is structurally accepted iff its table is known, its pk and site id are ULIDs, its op_seq is positive and every known column is present |
| `Ops.ValidateNamesTheFault` | internal/syncstore/store.go:40-62 | the reason given for a refusal is the first test that fails, in the order table, pk, site id, op_seq, and the first missing column in listed order |
| `Ops.FirstBadFinds` | internal/syncstore/store.go:358-600 | the row writers name a column exactly when some column has a value of the wrong type, and that column has one |
| `Ops.FirstBadIsFirst` | internal/syncstore/store.go:358-600 | the column named is the first badly typed one in reading order |
| `Ops.WriterAcceptsWellTyped` | internal/syncstore/store.go:668-716 | the row writers accept an op iff every known column of its table has a value of its type, whatever order they read in |
| `Ops.NormalizeKeepsMeaning` | internal/syncstore/op.go:167-178 | exactly the unknown columns are dropped; doing so is idempotent and changes neither the row addressed, the cells written, nor whether the op is accepted |
| `Base64.RoundTrip` | internal/syncstore/store.go:706-716 | a stroke's bytes survive base64 on the wire: decoding the encoding gives every byte back |
| `Base64.DecodesIffPadded` | internal/syncstore/store.go:706-716 | a text decodes iff, line breaks aside, it is whole groups of digits with one or two padding characters at most at its end; left-over bits may be anything |
| `Base64.TestVectors` | internal/syncstore/store.go:706-716 | the encoder gives the test vectors of RFC 4648, section 10 |
| `Reconcile.LessIsStrictTotalOrder` | internal/syncstore/reconcile.go:18-26 | the merge order is irreflexive, transitive and total on (wall_ts, op_seq, site_id) |
| `Reconcile.ClockThenSeqThenSite` | internal/syncstore/reconcile.go:18-26 | a smaller wall_ts is less; at equal wall_ts a smaller op_seq; at both equal the site id that is a prefix or smaller at the first difference |
| `Reconcile.Merge` | internal/syncstore/reconcile.go:33-43 | the loop over ops computes the left-to-right fold `Merged` |
| `Reconcile.MergedIsMerge` | internal/syncstore/reconcile.go:28-43 | the fold holds, for each row some op names, a normalised op of the set that no op of the set beats, and no other rows |
| `Reconcile.MergeUnique` | internal/syncstore/reconcile.go:28-43 | a set of ops whose keys are distinct has only one merge |
| `Reconcile.MergeIgnoresOrderAndDuplicates` | internal/syncstore/reconcile.go:28-43 | any permutation or repetition of the ops merges to the same map |
| `Reconcile.MergeResumesFromWinners` | internal/syncstore/reconcile.go:28-43 | merging a prefix's winners with the remaining ops equals merging everything |
| `SyncStore.Store.MergeRow` | internal/syncstore/store.go:311-356 | the mirror row is replaced iff the op beats the stored key and is well typed; the outcome and the whole new mirror are stated |
| `SyncStore.Store.AppendOp` | internal/syncstore/store.go:137-155 | the op is appended verbatim under the next global seq and nothing else changes |
| `SyncStore.Store.ApplyBatch` | internal/syncstore/store.go:67-130 | the transaction's whole new state and its response are the value-level `SyncState.ApplyBatch` of the old state |
| `SyncStore.Store.AdvanceAccepted` | internal/syncstore/store.go:270-306 | the walk ends, at the greatest extension of the old water over logged and just-rejected op_seqs, and stores it keeping the pull cursor |
| `SyncStore.Store.AuthorOps` | internal/syncstore/store.go:183-232 | all or nothing: on a refusal every table is as before; otherwise every draft is stamped, merged and appended and the counter advanced by their number |
| `SyncStore.RefusalStays` | internal/syncstore/store.go:199-216 | a batch refused at some draft stays refused however many drafts follow |
| `SyncStore.Store.OpsSince` | internal/syncstore/store.go:613-647 | the loop over the rows answers the value-level relay page: limit, cursor and `hasMore` included |
| `SyncStore.Store.RecordCursor` | internal/syncstore/store.go:658-665 | the pull cursor is stored and the acknowledged water kept |
| `SyncRuns.MergeRowRefines` | internal/syncstore/store.go:311-356 | one incremental merge step is one step of the reference fold: same winner, same cells |
| `SyncRuns.StepKeepsInv` | internal/syncstore/store.go:67-232 | every batch, authoring and pull keeps: gap-free seqs, unique identities, valid log, mirror equal to the merge of the log, winners well typed |
| `SyncRuns.MirrorRefinesMerge` | internal/syncstore/reconcile.go:28-43 | after any interleaving of batches and authoring the mirror is exactly the materialised merge of the changelog, and a row exists iff the log has an op for it |
| `SyncRuns.LatestWriteIsKept` | internal/syncstore/store.go:311-356 | after any run, for every logged op, its row was written by a logged op, cell for cell under that op's clock and identity, and with no smaller wall_ts, or at equal wall_ts op_seq, or at both equal site id |
| `SyncRuns.ChangelogIsGapFree` | internal/syncstore/store.go:137-155 | over any run global seqs are exactly 1..last_seq, no (site_id, op_seq) is logged twice and the log only grows |
| `Delivery.MirrorIsMergeOfDelivered` | internal/syncstore/store.go:84-118 | after any run the mirror is the merge of the valid, well-typed ops among everything delivered |
| `Delivery.DeliveryOrderIsIrrelevant` | docs/sync/forestnote-sync-protocol.md:409-420 | two runs that deliver the same set of ops, batched, permuted and repeated in any way, end with equal mirrors |
| `Delivery.BadlyTypedOpIsLoggedIffItLoses` | internal/syncstore/store.go:318-355 | a badly typed op enters the changelog iff its row already holds a key it does not beat; it never changes the mirror |
| `Accepted.AcceptedThroughIsContiguous` | internal/syncstore/store.go:270-306 | one call answers the contiguous high-water over its changelog and its own rejections, and touches no other device's water |
| `Accepted.WaterIsGreatest` | internal/syncstore/store.go:284-297 | no greater extension over settled op_seqs exists |
| `Accepted.PoisonOpsDoNotWedge` | internal/syncstore/store.go:76-82 | a batch that carries every own op_seq above the water up to K moves it to at least K, however many ops are refused |
| `Accepted.EveryOpIsAnswered` | internal/syncstore/store.go:76-105 | after a batch every op of it is in the changelog or named as rejected with a true reason; nothing else is named, and a sound op never is |
| `Accepted.AppendsInOrder` | internal/syncstore/store.go:107-117 | the changelog grows by ops of the batch, verbatim, in the order they came, under consecutive seqs and the time of the call |
| `Accepted.CursorHalvesAreIndependent` | internal/syncstore/store.go:270-306 | a push sets a device's acknowledged water and keeps its pull cursor, a pull the reverse; no other call or device touches the row |
| `Accepted.WaterIsMonotone` | internal/syncstore/store.go:120-124 | over any run the water of a device never falls |
| `Accepted.WaterCoversOnlySettled` | internal/syncstore/store.go:270-306 | after any run every op_seq in 1..water is in the log or was rejected by some call |
| `Accepted.ResendIsHarmless` | docs/sync/forestnote-sync-protocol.md:409-420 | a second delivery of a batch, at once or after any other calls, changes no row, reports no page and lowers no water (at once: the same water); the log grows iff the batch has a badly typed, once rejected op that its row now beats |
| `Accepted.RejectedOpIsLoggedOnResend` | internal/syncstore/store.go:84-118 | a concrete batch whose first delivery rejects op 1 and whose second delivery logs it |
| `RelayProtocol.PageIsNextStretch` | internal/syncstore/store.go:613-647 | a page holds precisely the foreign ops between the request's cursor and the answered one, at most the limit, and `hasMore` iff a foreign op lies beyond |
| `RelayProtocol.PageTakesDueEntries` | internal/syncstore/store.go:613-647 | by positions in the changelog: a page is the other sites' entries after the cursor, in log order, cut off at the limit (500 by default); cursor and `hasMore` accordingly |
| `RelayProtocol.AnswerReadsFinalLog` | internal/syncsvc/service.go:92-127 | an exchange's page is taken from the changelog as the exchange leaves it, and its cursor and water are what is recorded for the device |
| `RelayProtocol.DrainIsWholeSuffix` | internal/syncstore/store.go:613-647 | paging with the returned cursor ends and concatenates to exactly the other sites' suffix, for every limit |
| `RelayProtocol.CursorAboveLogIsEchoed` | internal/syncstore/store.go:625-647 | a cursor above last_seq is answered with itself and no ops |
| `RelayProtocol.NextKeepsNetInv` | internal/syncsvc/service.go:92-127 | every write, exchange (lost answers included) and authoring keeps every device's holdings equal to the foreign part of a log prefix |
| `RelayProtocol.RelayIsExact` | internal/syncsvc/service.go:92-127 | over any honest run a device holds the other sites' ops up to its cursor, in order, each once |
| `RelayProtocol.CaughtUpDeviceAgreesWithServer` | internal/syncsvc/service.go:92-127 | a caught-up device all of whose own ops are logged merges to exactly the server's mirror |
| `RelayProtocol.CaughtUpDevicesAgree` | internal/syncsvc/service.go:92-127 | any two such devices agree |
| `RelayProtocol.NoMoreMeansCaughtUp` | internal/syncstore/store.go:636-646 | after an answered exchange a device is caught up iff the answer said there is no more |
| `SyncService.Service.Sync` | internal/syncsvc/service.go:78-128 | the four envelope checks in order, each refusal changing nothing; otherwise batch, relay page, cursor, response and notified pages are one exchange of the relay protocol |
| `Authoring.ServerOpsAreNumbered` | internal/syncstore/store.go:183-232 | if no device pushes under the server's site id, the server's ops carry op_seqs exactly 1..last_op_seq in log order |
| `Authoring.AuthoringWritesItsRows` | internal/syncstore/store.go:183-232 | a batch of complete drafts, repeated rows included, is accepted; each drafted row then holds its last draft, under that draft's op_seq, unless its stored key is newer; no other row changes |
| `Authoring.LaterDraftBeatsEarlier` | internal/syncstore/store.go:183-232 | in the mirror after one authored batch a row drafted twice holds a key above the earlier draft's and no lower than the later one's, and the last draft's cells unless something newer was stored |
| `Authoring.AuthoringRefusesOnlyFaults` | internal/syncstore/store.go:199-216 | a refusal names a fault of one of the stamped drafts, and a structurally invalid draft is always refused |
| `Inventory.WireRoundTrip` | internal/syncstore/store.go:241-262 | a mirror cell of a column's type reads back unchanged after going through the wire value |
| `Inventory.CoerceInvertsWire` | internal/syncstore/store.go:668-716 | a wire value reads as a cell at a column type exactly if it is the wire form of that cell, up to base64 spelling |
| `Inventory.RewriteChangesOneColumn` | internal/syncstore/inventory.go:388-416 | re-emitting a row with one column replaced is complete and changes that cell only |
| `Inventory.SoftDeleteNotebook` | internal/syncstore/inventory.go:233-346 | answers exactly the pages whose own cells say live and of this notebook; the notebook, those pages, the live strokes that name one of them and the pages' recognised text are left tombstoned, blanked text and otherwise unchanged cells, unless newer; no other row changes; the changelog grows by exactly the stamped tombstones |
| `Inventory.DeletedNotebookIsEmpty` | internal/syncstore/inventory.go:359-379 | when no affected row is newer, no page of the notebook is live, its pages have no live strokes, its text boxes are untouched but none is listed |
| `Inventory.ListedTextBoxesAre` | internal/syncstore/inventory.go:359-379 | a box is listed iff its own cells say that it is live and names a live page of the notebook |
| `Inventory.EditTextBoxText` | internal/syncstore/inventory.go:381-416 | missing and deleted boxes change nothing; otherwise the box holds the new text and all other columns unless its row is newer, no other row changes, its page is answered, and the changelog grows by exactly the stamped edit; the invariants hold for the next call |
| `ChangedPages.ReportIsCompleteIffNothingMoves` | internal/syncstore/store.go:102-117 | one op reports every page, other than the empty id, whose render input it changes iff it takes no live stroke or text box off some such page |
| `ChangedPages.BatchReportsChangedPages` | internal/syncstore/reads.go:38-94 | if nothing is moved off a page and its liveness, live strokes or live text boxes differ after a batch, it is reported |
| `ChangedPages.OnlyContentIsReported` | internal/syncstore/store.go:330-355 | only page, stroke and text box ops report a page; page-text ops never do |
| `ChangedPages.MovedStrokeIsMissed` | internal/syncstore/store.go:102-117 | a concrete stroke moved between pages changes the page it left, which is not reported |
| `ChangedPages.RenderInputIsThePage` | internal/syncstore/reads.go:38-94 | the render input of a page is its notebook and liveness and, of the live strokes and text boxes that name it, every column but page, creation and deletion |
| `Ulid.EncodeUlid` | internal/syncstore/op.go:120-150 | the bit shifts compute the base-32 digits of the 16 bytes; the result is a ULID |
| `Ulid.SameNumber` | internal/syncstore/op.go:120-150 | the 26 digits denote the same number as the 16 bytes |
| `Ulid.EncodingIsFaithful` | internal/syncstore/op.go:93-162 | different bytes give different ULIDs, and ASCII order of ULIDs is numeric order of the 128-bit numbers (ULID specification, section Sorting) |
| `Ulid.LaterIdsAreGreater` | internal/syncstore/op.go:101-118 | of two ids minted at different milliseconds below 2^48 the later one is greater, whatever their random bytes |
| `Forest.BuildForestNoteTree` | internal/service/note.go:879-928 | on every parent map, cycles included, the recursion ends and yields the forest of root paths and the list of unfiled notebooks |
| `Forest.Build` | internal/service/note.go:910-922 | the recursion over children builds the subtree at the end of a root path and terminates |
| `Forest.RootPathUnique` | internal/service/note.go:879-928 | a folder has at most one chain of ancestors from a root |
| `ForestNodes.ForestIsTrue` | internal/service/note.go:879-928 | at the top the folders without a live parent, in every node the notebooks and subfolders that name it, with their names, in the order of the lists; apart, in order, the notebooks without a live folder |
| `ForestContents.ForestShowsEachRootPathOnce` | internal/service/note.go:879-928 | the places of the forest are exactly the root paths, each once |
| `ForestContents.EachNotebookIsShownAtItsFolder` | internal/service/note.go:879-928 | a notebook stands at a place as often as it is listed if it is filed and the place is its own folder seen from its root, elsewhere never; there is at most one such place; every other notebook is unfiled |
| `FolderPaths.FolderPath` | internal/syncstore/inventory.go:165-193 | the climb ends on every parent map, and the in-place reversal yields the climbed chain from the top down |
| `FolderPaths.ClimbIsAscent` | internal/syncstore/inventory.go:165-193 | a breadcrumb is a chain of distinct live folders, at most 65, cut short only at the limit, at a missing ancestor or where a cycle closes |
| `FolderPaths.BreadcrumbIsRootPath` | internal/syncstore/inventory.go:165-193 | the breadcrumb of a folder with a root path is the lowest 65 folders of that path |
| `FolderPaths.TreeAgreesWithBreadcrumb` | internal/syncstore/inventory.go:165-193 | the ids from the root to a tree node equal the breadcrumb of that node iff its depth is at most 65 |
| `FolderPaths.RootPathIffNoCycle` | internal/service/note.go:879-928 | a live folder has a root path iff its chain of parents repeats no id |
| `FolderPaths.FolderIsShownIffNoCycle` | internal/service/note.go:879-928 | a live folder is in the forest iff its chain of parents repeats no id |
| `FolderPaths.NotebookIsShownIffNoCycle` | internal/service/note.go:879-928 | a notebook filed in a live folder is in the forest iff that folder's chain of parents repeats no id |
| `FloatBytes.RoundTrip` | internal/rag/store.go:263-279 | a vector's float bit patterns survive the little-endian blob |
| `FloatBytes.EncodeIsLittleEndian` | internal/rag/store.go:263-269 | four bytes for each float, least significant first |
| `FloatBytes.BlobRoundTripIffWholeWords` | internal/rag/store.go:272-279 | a blob survives loading and saving iff its length is a multiple of four |
| `FloatBytes.FloatsToBytes` | internal/rag/store.go:263-269 | the byte loop fills the buffer with the encoding |
| `FloatBytes.BytesToFloats` | internal/rag/store.go:272-279 | the loop decodes whole words only; up to three trailing bytes are ignored |
| `EmbeddingStore.Store.Save` | internal/rag/store.go:39-75 | the table row is inserted or replaced and the first cached record with the key overwritten, or one appended, by reference |
| `EmbeddingStore.Store.DropFromCache` | internal/rag/store.go:86-93 | filtering the slice onto its own backing array keeps exactly the records out of scope, in order |
| `EmbeddingStore.Store.DeleteScope` | internal/rag/store.go:80-117 | `DeletePage` removes the rows and cached records of that page of the note, `Delete` those of the note; all others stay as they are |
| `EmbeddingStore.Store.Rename` | internal/rag/store.go:122-135 | fails iff a moved row would take an existing key, and then changes nothing; otherwise repoints table and cache |
| `EmbeddingStore.Store.Copy` | internal/rag/store.go:141-178 | clears the destination, then duplicates the source in the table and, sharing vectors, in the cache |
| `EmbeddingStore.Store.LoadAll` | internal/rag/store.go:182-209 | afterwards the cache agrees with the table, one record per row |
| `EmbeddingStore.Store.AllEmbeddings` | internal/rag/store.go:212-224 | the snapshot reads like the cache and shares no vector with it |
| `EmbeddingStore.Store.Perform` | internal/rag/store.go:39-178 | every operation does to table and cache what its value-level form says, vectors shared by earlier copies included |
| `EmbeddingStore.Store.PerformAll` | internal/rag/store.go:39-178 | agreement of cache and table survives every sequential run of the operations |
| `Embeddings.RunKeepsAgreement` | internal/rag/store.go:39-178 | the same on values: no duplicate keys, and each key reads in the cache as in the table, after any run |
| `Embeddings.DeletePageRemovesThePage` | internal/rag/store.go:80-95 | a key is in the table, or found in the cache, afterwards iff it was and is not of that note and page; values unchanged |
| `Embeddings.DeleteRemovesTheNote` | internal/rag/store.go:100-117 | the same by note path alone |
| `Embeddings.SaveWritesOneKey` | internal/rag/store.go:39-75 | one key gets the blob, model and time in the table and the vector in the cache; no other key changes |
| `Embeddings.RenameIsRefusedIffTaken` | internal/rag/store.go:122-135 | a rename is refused iff some page chunk of the note has a namesake under the other path |
| `Embeddings.RenameMovesTheNote` | internal/rag/store.go:122-135 | a refused rename changes nothing; any other empties the old path and adds its rows and vectors to the new one |
| `Embeddings.SelfCopyEmpties` | internal/rag/store.go:141-178 | copying a note onto itself empties it in the table and in the cache |
| `Embeddings.CopyDuplicates` | internal/rag/store.go:141-178 | copying onto another path gives it exactly the source's vectors and changes no other key |
| `Embeddings.CopyCopiesRows` | internal/rag/store.go:141-158 | the destination's rows become exactly the source's, model and time included; every other row stays |
| `ChunkText.ChunkText` | internal/rag/chunk.go:19-46 | the loop ends and computes the recursive splitter, whose chunks `ChunkSpans.ChunksAreGreedy` determines |
| `ChunkText.ChunksAreTrimmedAndShort` | internal/rag/chunk.go:19-46 | every chunk is non-blank, trimmed and at most 1500 characters |
| `ChunkText.NoContentIsDropped` | internal/rag/chunk.go:15-18 | up to white space the chunks in order are the text |
| `ChunkText.RunsStayWhole` | internal/rag/chunk.go:15-18 | every maximal run between break characters of at most 1500 characters lies whole, up to trimming, in one chunk |
| `ChunkText.WordStaysWholeIffItFits` | internal/rag/chunk.go:15-18 | a run without white space lies whole in one chunk iff it is at most 1500 characters |
| `ChunkText.VerticalTabDoesNotProtect` | internal/rag/chunk.go:34-41 | a concrete text in which a word set off by a vertical tab is cut in two |
| `ChunkSpans.ChunksLieAtSpans` | internal/rag/chunk.go:19-46 | the chunks, one by one, are the parts of the trimmed text at the places `Spans` |
| `ChunkSpans.StretchStaysWholeIffInOneBlock` | internal/rag/chunk.go:15-41 | a stretch of a run without break characters lies whole in one chunk iff its first and last character are in the same block of 1500 characters counted from the start of the run |
| `ChunkSpans.ChunksAreGreedy` | internal/rag/chunk.go:30-45 | the chunks are the trimmed pieces of the trimmed text, each cut at the last break within 1500 characters of its start or after 1500 if there is none, the next starting behind the breaks, the last at most 1500 long |
| `ChunkSpans.GreedyPositionsAreUnique` | internal/rag/chunk.go:30-45 | no other positions are such, so the statement above fixes every chunk |
| `PointFile.BuildPointFile` | internal/booxnote/testutil/builder.go:155-220 | the builder lays out header, blocks, cross-reference table and offset for any visiting order of the map |
| `PointFile.ParsePointFile` | internal/booxnote/point.go:18-57 | on arbitrary bytes every slice is in range and the result is the value-level `Parse`, first error included |
| `PointFile.DecodeTinyPoints` | internal/booxnote/point.go:61-84 | decodes as many whole points as fit behind the four attribute bytes |
| `PointFile.PointRoundTrip` | internal/booxnote/testutil/builder.go:223-232 | one 16-byte point record reads back bit for bit |
| `PointFile.IdRoundTrip` | internal/booxnote/testutil/builder.go:235-242 | an id survives its 36-byte field iff it fits and does not end in NUL |
| `PointFile.FileParses` | internal/booxnote/point.go:18-57 | a file with blocks parses to what the blocks add up to; a file without is refused |
| `PointFile.RoundTripIff` | internal/booxnote/point.go:18-57 | parse(build(m)) is m, in any block order, iff m is not empty and every id fits its field |
| `PointFile.AcceptedIff` | internal/booxnote/point.go:18-57 | arbitrary bytes are accepted iff the table lies inside them, has whole entries and names only blocks inside them |
| `PointLayout.ParsedBytes` | internal/booxnote/point.go:18-84 | where every field of accepted bytes is read: table place, 44-byte entries of id, offset and length, and points of five big-endian fields; the last entry of an id counts |
| `PointLayout.RefusalNamesTheFault` | internal/booxnote/point.go:18-57 | each error is given exactly for its fault; an out-of-range error names the first entry whose block lies outside |
| `PointLayout.BuiltBytes` | internal/booxnote/testutil/builder.go:155-242 | where every byte of a built file lies: zero header, adjacent blocks behind four zero bytes, padded entries in block order, the place of the table |
| `Fusion.PageKeyInjective` | internal/rag/retriever.go:131-135 | the key under which seen pages are remembered tells all pages apart, even if paths contain NUL |
| `Fusion.RankPages` | internal/rag/retriever.go:129-148 | each page once, in order of its first chunk, ranks 1..k, at most topN |
| `Fusion.VectorLeg` | internal/rag/retriever.go:113-148 | the vector list is the topN pages with some positive similarity, ordered by their best chunk, whatever the order of ties |
| `Fusion.Fuse` | internal/rag/retriever.go:153-170 | the map holds exactly the pages of either list, each with its reciprocal-rank score |
| `Fusion.ScoreIsReciprocalRank` | internal/rag/retriever.go:153-170 | a page scores 1/(60 + rank) for each list it is in, ranks from 1 |
| `Fusion.DominanceIsRewarded` | internal/rag/retriever.go:153-170 | a page no worse than another in both lists and strictly better in one scores strictly higher |
| `Fusion.CollectResults` | internal/rag/retriever.go:184-213 | the loop keeps the first `limit` entries that can be enriched and pass the filters |
| `Fusion.Search` | internal/rag/retriever.go:79-216 | the answer is the top `limit` of the eligible candidates by fused score, each once; a failed keyword query is an error |
| `Fusion.AnswerIsWhatIsWanted` | internal/rag/retriever.go:184-213 | every result passes each filter that is set, date bounds included; there are at most `limit` (20 by default), and fewer only if every wanted candidate is among them |
| `Fusion.DominatingPageComesFirst` | internal/rag/retriever.go:79-216 | in every answer a page that dominates a returned page is returned before it |
| `JobStore.Store.EnqueueJob` | internal/booxpipeline/store.go:143-175 | a note row is ensured and one pending job inserted under a fresh id |
| `JobStore.Store.ClaimNextJob` | internal/booxpipeline/store.go:183-201 | claims an eligible pending job of least queued_at, or nothing if none is eligible |
| `JobStore.Store.CompleteJob` | internal/booxpipeline/store.go:204-215 | the row ends done with its source, model and finish time, all else as it was; a deleted row is left deleted |
| `JobStore.Store.FailJob` | internal/booxpipeline/store.go:218-229 | the row ends failed with its message and finish time, all else as it was; a deleted row is left deleted |
| `JobStore.Store.SkipNote` | internal/booxpipeline/store.go:408-418 | exactly the note's job with the greatest id is skipped |
| `JobStore.Store.UnskipNote` | internal/booxpipeline/store.go:421-432 | exactly the note's latest job is put back, if it is skipped |
| `JobStore.Store.RetryAllFailed` | internal/booxpipeline/store.go:492-503 | every failed job is put back, and their number returned |
| `JobStore.Store.ReclaimStuckJobs` | internal/booxpipeline/store.go:520-531 | exactly the jobs in progress since before the cutoff are put back with one more attempt |
| `JobStore.Store.DeleteNote` | internal/booxpipeline/store.go:435-453 | exactly the note's jobs and the note are removed |
| `JobStore.Processor.constructor` | internal/booxpipeline/processor.go:45-54 | start-up reclaims every job a crash left in progress, before the worker holds anything |
| `JobStore.Processor.Poll` | internal/booxpipeline/processor.go:63-87 | one pass of the worker's loop is an enabled claim or wait of the protocol |
| `JobStore.Processor.FinishJob` | internal/booxpipeline/processor.go:89-111 | the end of a job is a finish event of the protocol |
| `JobStore.Processor.WatchdogTick` | internal/booxpipeline/processor.go:114-125 | a watchdog tick is a watchdog event of the protocol |
| `JobQueue.StepKeepsInv` | internal/booxpipeline/processor.go:45-125 | every event keeps: only the worker's job can be in progress, and nobody else has finished it |
| `JobQueue.AtMostTheWorkersJobIsInProgress` | internal/booxpipeline/processor.go:45-125 | after start-up, in any interleaving, the jobs in progress are at most the worker's, and none while it is idle |
| `JobQueue.StepKeepsRow` | internal/booxpipeline/store.go:143-229 | a row disappears only with its note; its note and attempt count change only as claims and reclaims say; a done row changes only by a skip that finds it the latest |
| `JobQueue.IdsAreNotReused` | internal/notedb/schema.go:86-100 | a deleted row never comes back under its id |
| `JobQueue.AttemptsCountClaimsAndReclaims` | internal/booxpipeline/store.go:174-201 | over any run a row's attempts grow by the number of its claims and reclaims, and only deletion of its note removes it |
| `JobQueue.DoneIsFinal` | internal/booxpipeline/store.go:204-215 | a finished job stays unchanged until its note is deleted, or skipped while the job is its latest |
| `JobQueue.FinishDecidesTheStatus` | internal/booxpipeline/processor.go:89-111 | the worker's job ends done if it was processed and failed if it was not; no other row changes |
| `JobQueue.OnlyFinishingSettles` | internal/booxpipeline/store.go:204-229 | over any run, a job is done or failed only if it was so before or the worker held it and finished it in just that way |
| `JobQueue.SkipLastsIffWorkerIsElsewhere` | internal/booxpipeline/store.go:408-418 | after a skip the latest job stays skipped over every run that neither unskips nor deletes the note, iff the worker did not hold that job |

## Left out

- SQL text, JSON, HTTP and the SHA-256 of the schema string: tables are maps and sequences, the payload is the op itself, the two accepted hashes are constants.
- Fractional numbers in columns, and 64-bit overflow of sequence numbers and clocks.
- `newULID` reads the clock and random bytes: `Ulid.Minted` is the byte layout only, with both as parameters.
- Folder rows keep id, name and parent; their sort order and dates do not affect the tree. The order of list queries is not modelled beyond the order of the input.
- ChunkText.ChunkText: characters are ASCII; for other text Go's trimming also removes two wider white-space characters and the budget counts bytes.
- PointFile.BuildPointFile: stated while the blocks end below 2^31 bytes; beyond that the builder's 32-bit offsets turn negative and it fails.
- EmbeddingStore.Store.Save: the cached vector is the caller's own array, as in the code, so agreement lasts while nobody writes to it; overlapping calls are not modelled, because the table and the cache are not updated under one lock.
- Fusion.Search: scores and similarities are real numbers, so equal ranks never collide by rounding; the keyword search, the cosine similarity, the query embedding and the metadata lookup are parameters.
- JobQueue.AtMostTheWorkersJobIsInProgress: one processor is started once; stopping it, restarting the same object and moving notes to another path are not modelled.
- `SoftDeleteNotebook` and device pushes that fall between its reads and its authoring are not interleaved; the method takes one state.
- Text-box tombstones on notebook deletion, which the code does not write.
- Rendering, OCR, embedding calls, PDF tools, file watching, MCP, CalDAV and web handlers: input and output around libraries that are not part of this model.
- The retry spool of `cmd/boox-bridge` and `internal/processor`'s claim by start time: small, and weaker than the queue modelled here.
