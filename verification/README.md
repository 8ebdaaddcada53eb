# Fisherman, verified

A Dafny model of the parts of Fisherman that carry state across steps, runs or processes, with
proofs of what those parts promise. Each `.dfy` file holds one component or the main results about
one; `dafny verify dfyconfig.toml` checks them all.

| file | component |
|---|---|
| `BrightRegion.dfy` | the explicit-stack flood fill that finds the page in a screenshot |
| `ImportChunks.dfy`, `ImportBodies.dfy`, `PagedExport.dfy` | splitting an archive into request bodies, what each body holds, and paging a big export |
| `TenantKey.dfy`, `TenantAdmission.dfy` | the tenant data key as a write-once register, and which calls get it |
| `KeyMigration.dfy`, `MigrationKeys.dfy` | the migration to client-held keys, and what a batch makes of each row |
| `RateLimiter.dfy`, `RpcRouter.dfy`, `RpcRouting.dfy` | the relay: limiter, calls and responses, and where calls go |
| `EventStores.dfy`, `DequeAnswers.dfy`, `StoreRetention.dfy`, `StoreAgreement.dfy`, `StoreDifferences.dfy`, `StoreInterleavings.dfy` | the relay's two event stores; what the deque one answers and the SQL one retains over whole runs; when both answer alike |
| `UploadQueue.dfy`, `DurableSender.dfy`, `SenderProgress.dfy`, `UploadBound.dfy` | the bounded outbox, the sender that drains it, its progress, and its upload timestamp as a deletion bound |
| `MirrorSync.dfy` | the incremental mirror |
| `FrameQuery.dfy`, `FrameAnswers.dfy`, `MirrorAnswers.dfy` | the two frame queries, when they answer alike, and the way from files on disk to the mirror's answer |
| `Replay.dfy`, `ReplayShown.dfy`, `ReplayClock.dfy` | offline replay of a policy, what it shows at each row, and when its clock matters |
| `DotEnv.dfy`, `TextLines.dfy` | the dotenv file as a map, and text as lines |
| `ContextDelete.dfy`, `WindowDelete.dfy` | windowed deletion, and what it takes and leaves |
| `Options.dfy`, `Collections.dfy` | optional values, and what several components say of numbers, sets and sequences |

## How the model is built

Objects whose methods change fields are classes; loops are loops with invariants; each method is
proved against a specification function, and the main results are about that function, over all
inputs or all runs. Where several processes or tasks interleave (tenant key, sender, relay calls), each
statement or await is one atomic step of a state machine, and the results hold for every sequence of steps.
Ciphertext is a symbolic pair of key and plaintext; opening it with another key fails. SQL tables are
sequences or maps. Times are integers. Clock readings, walk orders, directory listings, parsers and
policies are parameters, so a result holds for all of them.

## What turned out not to hold

These claims are natural readings of the code or its documentation and are false. Each bullet names a
lemma with the exact condition under which the code does meet the claim: whatever violates the condition
is a failing input. Where it helps, a lemma with a concrete one is named beside it.

- Every successful tenant call returns the stored key (`TenantKey.SafeExactly`, `MixedRunLosesKey`): false where one
  process enrolls tenants by itself while another takes access requests for them.
- `last_uploaded_ts` bounds what may be deleted locally (`UploadBound.BoundSoundExactly`, `BoundCanFail`,
  `ClockStepFails`): false once an append into a full table drops an unsent frame that is not in hand and one not
  dated earlier is sent, and while a frame still to be sent is dated before one already sent, as after a clock step.
- A scan leaves no file behind (`MirrorSync.FaultyScanExactly`, `RefusedFileIsPassed`, `SkippedStaysLost`): false
  when the upload of a file fails and a file with a later time is stored.
- Blob names identify files (`MirrorSync.KeysUnambiguousExactly`, `PrefixSharesName`): false where one directory path
  is a textual prefix of the other, because the folder is told from the start of the path.
- A paged image export equals the one request (`PagedExport.ExportExact`, `DistinctExportExact`): false when two
  frames tie across a page edge, and, beyond the backend's cap of 20000 rows, unless a tie hides all rows past the cap.
- The two frame queries agree: false for rows between two milliseconds whose stamp lies on the other side of the
  window (`FrameAnswers.QueriesAgreeExactly`, `SubMillisecondRowsDiffer`), for names that do not sort as times
  (`AllQueriesAgreeExactly`, `NameOrderNeedsOneLength`), and for limits below one (`LimitsAgreeExactly`).
- A dotenv value reads back, and persisting it touches no other key (`DotEnv.PersistThenReadExactly`,
  `PersistTwiceExactly`, `PersistKeepsOthersExactly`): false for keys with a leading blank, a leading `#` or an
  `export ` prefix, and for values that are quoted, untrimmed or contain a line break.
- The dry run predicts the deletion (`ContextDelete.DryRunPredictsExactly`): false when the limit falls
  inside a transcript file, since the real run rewrites whole files.
- The two event stores answer alike (`StoreInterleavings.StoresAgreeExactly`, `ReopenedDequeParts`,
  `StoreDifferences.TiesAreOrderedDifferently`): false for equal and for decreasing timestamps under one tag, and, for
  fetches without a tag, for equal timestamps under two tags. Without evictions such a tie is harmless if the later
  event lies under the tag used first (`StoreDifferences.AppendsAgreeExactly`); an eviction can delete that deque and
  reopen it behind the other. The comment that the buffer size is per author is also imprecise: both stores bound each
  author and recipient tag.
- The limiter never allows more than its limit (`RateLimiter.ClockExactly`, `JumpExceeds`, `ClockMustNotStepBack`):
  false when the wall clock runs past a window and then comes back within it.
- The SQL store answers from the newest events ever appended (`StoreRetention.TaggedFetchIsBatchExactly`,
  `ClockMustNotStepBack`): false when an eviction read a clock so late that it removed what a fetch should still see.
- Migration always comes to its end (`KeyMigration.FinishExactly`, `StuckExactly`, `UnreadableRowBlocks`): false while
  anything due cannot be decrypted, which stops every batch that reaches it; and a batch moves no frame while the due
  rows before such a row, or all in its reach, have images that cannot be moved.
- A replay depends only on its data (`ReplayClock.ClockFreeExactly`, `ForwardFreeExactly`, `UndatedRowSees`,
  `DatedRowSees`, `WorkflowShowsTheClock`): false for two or more rows of which one is undated, because such a row is
  filed under the wall clock of the replay; at readings after the recording an undated first row shows only in the
  workflow summary. The snapshot itself carries a stamp of that clock.
- A replay sees the outcomes at or before an event, as the manifest text says (`Replay.EligibleExactly`,
  `SameTimeIsNotShown`): the code takes those strictly before it.

## Model

| member | source | states |
|---|---|---|
| BrightRegion.FindLargestBrightRegion | fisherman/ocr.py:101-147 | for every rectangular grid the search ends and returns an answer as defined by reachability: the tight half-open box of the first largest 4-connected bright component in row order, or none |
| BrightRegion.AnswerIsUnique | fisherman/ocr.py:101-147 | the reachability definition admits exactly one answer per grid, so the method computes it |
| BrightRegion.NoneExactlyWhenAllSmall | fisherman/ocr.py:143-147 | the answer is none if and only if every bright component is smaller than the minimum area |
| BrightRegion.Search | fisherman/ocr.py:116-147 | the row-by-row sweep finds the first largest component of any labelling of the grid by components |
| BrightRegion.VisitPixel | fisherman/ocr.py:116-145 | after each pixel, what has been visited is exactly the components that start before the cursor, and the best box is the first largest among them |
| BrightRegion.Flood | fisherman/ocr.py:121-141 | a flood from an unvisited bright pixel counts exactly its component, boxes it tightly, and marks all of it |
| BrightRegion.PopAndMark | fisherman/ocr.py:127-141 | each pop takes a new pixel of the component, which bounds the loop, and keeps the flood in shape |
| BrightRegion.MarkNeighbours | fisherman/ocr.py:135-141 | exactly the in-grid neighbours become visited; exactly the new bright ones are pushed, each once |
| BrightRegion.FloodDone | fisherman/ocr.py:127-147 | when the stack is empty the popped pixels are the whole component of the seed and nothing else |
| BrightRegion.ClosedHoldsComponent | fisherman/ocr.py:127-141 | a set closed under bright neighbours holds the component of each of its pixels |
| BrightRegion.SameComponent | fisherman/ocr.py:116-119 | connected pixels have one and the same component, so components are disjoint or equal |
| BrightRegion.ComponentsLabel | fisherman/ocr.py:116-147 | the path-defined components partition the bright pixels |
| BrightRegion.ScaledBoxInside | fisherman/ocr.py:156-174 | a box in the thumbnail scales to a non-empty box inside the original image that keeps every image pixel wholly inside the exact rectangle |
| BrightRegion.ScaledInterval | fisherman/ocr.py:167-174 | the same on one axis, for integer truncation |
| BrightRegion.NeighboursExactly | fisherman/ocr.py:135-141 | pixels are neighbours if and only if they are one step apart along one axis |
| ImportChunks.ImportChunks | fisherman/cli.py:1317-1388 | the closure-based packer produces the greedy split of the dict rows, or one empty body |
| ImportChunks.Packer.constructor | fisherman/cli.py:1349-1352 | a packer starts with no body and the base size |
| ImportChunks.Packer.Add | fisherman/cli.py:1369-1379 | adding a row advances the greedy split by exactly that row and keeps counts, bytes and lists in step |
| ImportChunks.Packer.Flush | fisherman/cli.py:1357-1367 | flushing closes the open group if it has any row |
| ImportChunks.EveryRowOnce | fisherman/cli.py:1381-1388 | all bodies together hold every dict row exactly once and in order, frames and transcripts each |
| ImportChunks.EveryChunkWithinLimits | fisherman/cli.py:1369-1388 | no body exceeds the record limit, and the real compact JSON of a body of several records stays within the byte limit |
| ImportChunks.FewestChunks | fisherman/cli.py:1317-1388 | no order-preserving split uses fewer bodies, among those that keep the record limit and the byte limit as the packer itself counts bytes: 1024 for an open body and two more than its JSON for each row |
| ImportChunks.GreedyIsFewest | fisherman/cli.py:1369-1379 | the same with an open group, against every split of what is open and what remains |
| ImportChunks.GreedyIsSplit | fisherman/cli.py:1369-1388 | the groups are a split of the rows in order and each obeys the limits |
| ImportBodies.BodiesExactly | fisherman/cli.py:1317-1388 | by the settings alone: each body obeys the record and the byte limit, a lone record apart; none is empty unless the archive holds no record; and a body ends only where the first record of the next one would break a limit |
| ImportBodies.LimitsAre | fisherman/cli.py:1326-1340 | the record limit is the image setting if a dict frame has an image and the plain one otherwise, at least one; the byte limit is its setting, at least one mebibyte |
| ImportBodies.JoinIs | fisherman/cli.py:1345-1347 | a list in a body is the texts of its rows with a comma between any two |
| ImportBodies.GreedyFills | fisherman/cli.py:1369-1379 | each further group starts with a record that does not fit into the group before it |
| PagedExport.ExportArchive | fisherman/cli.py:1455-1554 | the paging loop ends on every table and yields the specified merge of pages |
| PagedExport.MergePage | fisherman/cli.py:1523-1529 | merging a page appends its unseen rows in order and keeps the seen set and the remaining count in step |
| PagedExport.PageShrinks | fisherman/cli.py:1544-1548 | every full page strictly narrows the window, whatever the backend holds, so the loop ends |
| PagedExport.RequestExactly | server/ingest.py:2949-2997 | one request answers, of the rows dated between the two bounds, both included, the first ones in order, as many as asked for, at least one and at most 20000 |
| PagedExport.ExportAsks | fisherman/cli.py:1471-1485 | limits and batches below one count as one; without images, or for no more than a batch, the export is one request |
| PagedExport.PagesComplete | fisherman/cli.py:1495-1548 | with no equal timestamps across a page edge the pages give the unpaged rows in the unpaged order |
| PagedExport.PagesMiss | fisherman/cli.py:1546-1548 | a row tied with the last row of a page is never fetched |
| PagedExport.ExportExact | fisherman/cli.py:1473-1548 | for every limit and batch the image export equals the one big request if and only if it does not page; or one page exceeds the backend cap of 20000; or, with limit or data within the cap, no two frames tie across a page edge; or, with both beyond it, none does below the cap, the cap is a page edge, and all rows from the last capped one on share one time |
| PagedExport.PagesPast | fisherman/cli.py:1495-1548 | if the cap is not a page edge, some page reaches past it |
| PagedExport.PagesCapped | fisherman/cli.py:1495-1548 | if it is, the pages are the capped rows exactly when all later rows are tied with the last of them |
| PagedExport.DistinctExportExact | server/ingest.py:2949-2997 | with distinct timestamps the export equals the one request if and only if the limit or the data stays within the backend cap of 20000, or one page already exceeds it |
| TenantKey.SafeExactly | server/ingest.py:482-621 | over every interleaving of statements, every successful call returns the stored key if and only if the deployment does not mix auto-enrolling processes with processes that take access requests; which calls succeed is stated in TenantAdmission |
| TenantKey.OneKeyForAll | server/ingest.py:501-621 | two calls that succeed in one run return the same key, and it is the unwrapping of the stored one |
| TenantKey.InvHolds | server/ingest.py:501-621 | the program point of every unfinished call stays consistent with the row under all interleavings |
| TenantKey.PointStep | server/ingest.py:501-621 | one statement of a call keeps its own program point consistent |
| TenantKey.PointStable | server/ingest.py:501-621 | no statement of another actor disturbs a call |
| TenantKey.KeyIsWriteOnce | server/cli.py:369-388 | no statement of any actor removes the row or changes a stored wrapped key |
| TenantKey.StoredKeyNeverChanges | server/cli.py:369-388 | over whole runs a stored key stays what it is |
| TenantKey.MixedRunLosesKey | server/ingest.py:533-540 | a run in which an access request falls between a read and its insert: the call succeeds with a key that is stored nowhere |
| TenantAdmission.AdmissionExactly | server/ingest.py:501-545 | in every run, what a call meets at its first read decides whether it is ever refused there and with which error: no row and no auto-enrollment, a disabled row, or a row that is not active; and it is refused so only then |
| TenantAdmission.DeviceExactly | server/ingest.py:600-621 | in every run, a call that looks at its device is refused if and only if the device is stored as revoked at that moment; otherwise it can only go on to its key |
| TenantAdmission.RevokedNeverServed | server/ingest.py:600-610 | a call started while its device is stored as revoked never ends with a key, in any continuation |
| TenantAdmission.RevokedIsRefused | server/ingest.py:600-610 | a device revoked at any earlier step of a run never gets the key in a later call |
| TenantAdmission.RevokedForGood | server/ingest.py:600-610 | no statement of a call and no command takes a revocation back |
| TenantAdmission.EnrolledIsAdmitted | server/cli.py:369-388 | after an enrollment that was not taken back, no call is refused by its first read |
| TenantAdmission.DisabledIsRefused | server/ingest.py:542-543 | after a disabling that was not taken back, every call is refused as disabled |
| TenantAdmission.RequestedWaits | server/ingest.py:544-545 | a tenant that asked for access is refused as not active until it is enrolled |
| TenantAdmission.RequestKeepsActive | server/ingest.py:405-437 | a request for access takes nothing from an active tenant |
| TenantAdmission.CommandsExactly | server/cli.py:369-414 | an enrollment makes the row active with the quota given and keeps a stored key; a disabling and a request for access keep key and quota |
| TenantAdmission.OthersKeep | server/ingest.py:586-598 | a quota once set, the disabling and the enrollment state are changed only by the operator commands for them |
| TenantAdmission.EveryCallEnds | server/ingest.py:482-621 | a call that got six turns has succeeded or failed, whatever the others did in between |
| TenantAdmission.AloneRefused | server/ingest.py:501-545 | a call on its own that is refused leaves the tables as they were |
| TenantAdmission.AloneDevice | server/ingest.py:600-621 | on its own, a call then fails on a revoked device, passes a known one, and registers an unknown one |
| TenantAdmission.AloneServes | server/ingest.py:501-621 | on its own, an admitted call ends with the stored key, or with the one it made and stored where there was none, sets the default quota only where there was none, and treats its device so |
| KeyMigration.Migration.Migrate | server/ingest.py:1947-2146 | one request is the frame pass, the transcript pass, the API key and the final count; a failure keeps the updates made so far; MigrationKeys.BatchExactly says what that makes of every row |
| KeyMigration.Migration.MigrateDueFrames | server/ingest.py:1965-2033 | the row-by-row loop equals the pass over the due rows, stopping at the first undecryptable one |
| KeyMigration.Migration.MigrateDueAudio | server/ingest.py:2051-2068 | the same for transcripts |
| KeyMigration.RunSafe | server/ingest.py:1947-2146 | over any sequence of batches, failing or not, every text reads as at the start, no remaining count of frames, transcripts or the API key rises, and the wrapped key is the old one, or gone and needed by nothing |
| KeyMigration.RunFinishes | server/ingest.py:1947-2146 | with everything due readable and images movable, as many batches as there are pending rows bring all counts to zero and drop the wrapped key |
| KeyMigration.BatchSafe | server/ingest.py:1947-2146 | one batch, whatever fails in it, keeps every text as it read, raises no remaining count, and drops the wrapped key only when nothing needs it |
| KeyMigration.CleanBatch | server/ingest.py:2035-2049 | a batch with everything due readable and images movable takes off the pending frames up to the limit and at least one transcript |
| KeyMigration.FinishKeeps | server/ingest.py:2101-2144 | the wrapped key is dropped if and only if no frame, transcript or API key is left |
| KeyMigration.StuckExactly | server/ingest.py:1965-2033 | whatever the data, a batch migrates no frame if and only if the due rows in its reach start with readable ones whose images cannot be moved, up to their end or to a row with an undecryptable column |
| KeyMigration.UnreadableRowBlocks | server/ingest.py:1987-2000 | while the first due row has an undecryptable column, no run of batches changes anything |
| KeyMigration.FinishExactly | server/ingest.py:1947-2146 | some sequence of batches brings the migration to its end if and only if every frame, transcript and API key still under the server key can be decrypted with it |
| KeyMigration.BatchRows | server/ingest.py:1947-2146 | row by row, a batch leaves a row as it was or brings a readable one under the client key |
| KeyMigration.FramesPass | server/ingest.py:1965-2033 | the frame loop keeps every text and lowers the pending count by exactly what it reports |
| KeyMigration.AudioPassKeeps | server/ingest.py:2051-2068 | the same for transcripts |
| KeyMigration.RunKeepsMigrated | server/ingest.py:2133-2144 | once nothing needs the server key, nothing will |
| KeyMigration.SeeFrameExactly | server/ingest.py:624-650 | a reader sees each column of a row under the key that the row's source selects |
| KeyMigration.RecryptKeepsText | server/ingest.py:743-753 | re-encryption keeps the text a reader sees, and fails only on what no reader could read |
| MigrationKeys.RecryptExactly | server/ingest.py:743-753 | a column is re-encrypted, with its own text and under the client key, if and only if it is stored under the master key or the tenant's server key; otherwise the batch aborts |
| MigrationKeys.SeeExactly | server/ingest.py:743-753 | a reader sees the text of exactly the columns under the key it holds or the master key |
| MigrationKeys.BatchExactly | server/ingest.py:1947-2146 | one batch, exactly: it moves the frames that are among the first due ones up to the limit, clamped to 1 to 2000, that can be decrypted together with all due ones before them, and whose image can be moved; transcripts alike in the room that is left; the API key after them; it fails if and only if a column in its reach is under another key; and the wrapped key goes if and only if nothing is left |
| MigrationKeys.FramesExactly | server/ingest.py:1951-2033 | the frame loop alone: which rows change, into what, how many, and whether the batch goes on |
| MigrationKeys.AudioExactly | server/ingest.py:2035-2068 | the transcript loop alone |
| MigrationKeys.FinishByKeysExactly | server/ingest.py:1947-2146 | some sequence of batches brings the migration to its end if and only if every due column is empty or stored under the master key or the tenant's server key |
| MigrationKeys.RunKeepsColumns | server/ingest.py:1947-2146 | over any sequence of batches, failing or not, every stored column is what it was, or holds the same text under the client key in place of the master key or the server key |
| MigrationKeys.SelectedIs | server/ingest.py:1951-1963 | the rows fetched are those with fewer than the limit of due rows before them |
| MigrationKeys.RowExactly | server/ingest.py:1966-2033 | one row aborts, stays behind for its image, or moves, by the keys of its four columns and its image |
| RateLimiter.SlidingWindowRateLimiter.constructor | relay/server.py:81-84 | the limit is at least one |
| RateLimiter.SlidingWindowRateLimiter.Allow | relay/server.py:86-95 | one call drops expired hits of its key and decides by the count left |
| RateLimiter.NeverOverLimit | relay/server.py:80-95 | with a clock that does not step back, no closed window of the configured length holds more than the limit of allowed hits of one key, in any run |
| RateLimiter.DecisionExact | relay/server.py:86-95 | a call is allowed if and only if fewer than the limit of allowed hits lie in the window ending now; every refusal happens at exactly the limit |
| RateLimiter.KeysIndependent | relay/server.py:89-94 | the bucket and decisions of a key are those of the run restricted to its own calls |
| RateLimiter.RunIsGood | relay/server.py:86-95 | the deque always is the part of the allowed history that can still count |
| RateLimiter.ClockExactly | relay/server.py:86-95 | for the clock readings of a key, every run with any number of calls at each reading keeps the bound if and only if the limit is one or no reading runs past the window of an earlier one and a later one comes back within it |
| RateLimiter.NoJumpNoExcess | relay/server.py:86-95 | under any clock a run keeps the bound when the limit is one or its readings never jump back so |
| RateLimiter.JumpExceeds | relay/server.py:86-95 | every such jump lets one hit too many into a window, for every limit of at least two |
| RateLimiter.ClockMustNotStepBack | relay/server.py:87-91 | readings 100, 100, 120, 105: three allowed hits in a window of ten whose limit is two |
| EventStores.EventStore.constructor | relay/server.py:112-116 | an empty store |
| EventStores.EventStore.Append | relay/server.py:118-124 | the event gets the next id and joins the deque of its author and tag, which keeps its last events up to the buffer size; every other deque stays |
| EventStores.EventStore.Fetch | relay/server.py:126-153 | in plain comparisons: every answered event is held under the author and the tag asked for, is not older than the cutoff and is newer than the bound; every such event is answered unless the limit is reached and no answered one is older; newest first |
| EventStores.EventStore.FreshEvents | relay/server.py:145-150 | of one deque exactly the events not older than the cutoff and newer than the bound, in order |
| EventStores.EventStore.EvictExpired | relay/server.py:155-164 | drops expired heads of every deque and empty deques, and counts them |
| EventStores.EvictsExactly | relay/server.py:155-164 | deque by deque: the events before the first one that is not expired go, the rest stays, and a deque with none left goes |
| EventStores.SQLiteEventStore.constructor | relay/server.py:177-207 | an empty table |
| EventStores.SQLiteEventStore.Append | relay/server.py:215-231 | the row gets the next id; afterwards exactly the rows of other keys and the newest of its own key are there, in id order |
| EventStores.SQLiteEventStore.Trim | relay/server.py:277-309 | a row of that author and tag stays if and only if fewer rows of the key than the buffer size are newer by time and id; every other row stays |
| EventStores.SQLiteEventStore.Fetch | relay/server.py:233-270 | in plain comparisons: every answered row is of the author and the tag asked for, not older than the cutoff and newer than the bound; every such row is answered unless the limit is reached and all answered ones are newer by time, then id; strictly in that order |
| EventStores.SQLiteEventStore.EvictExpired | relay/server.py:272-275 | exactly the rows older than the cutoff go, in number as reported |
| EventStores.TrimmedMember | relay/server.py:295-309 | trimming a key keeps exactly the rows of other keys and those of its own with fewer than n newer ones |
| EventStores.TopRank | relay/server.py:233-270 | ordering and cutting picks exactly the rows with fewer than n matching rows before them |
| EventStores.FetchIs | relay/server.py:233-270 | an answer is strictly newest first and holds exactly those rows |
| EventStores.MemFetchIs | relay/server.py:126-153 | the answer of the deques in plain comparisons, for any deques |
| EventStores.SqlFetchIs | relay/server.py:233-270 | the answer of the table in plain comparisons, for any table |
| DequeAnswers.DequeAnswerExactly | relay/server.py:109-164 | after every run of appends and evictions a fetch answers events of the author, of the tag asked for, not older than the cutoff and newer than the bound; all of those held, unless the limit is reached and the others come later; newest first, for one time in the order of the deques, and within one tag in the order of the appends |
| DequeAnswers.RunFiled | relay/server.py:118-124 | in every run each event lies in the deque of its own author and tag, in the order of the ids |
| DequeAnswers.SortOrder | relay/server.py:151-153 | the stable sort puts newer events first and keeps the order of the deques for equal times |
| DequeAnswers.StandingApart | relay/server.py:118-124 | no event stands before itself, so none is answered twice |
| StoreRetention.TaggedFetchIsBatchExactly | relay/server.py:215-309 | after any run of appends and evictions a tagged fetch is the batch answer over everything ever appended, for every bound and limit, if and only if no eviction removed an unexpired event that is among the newest ever of its key |
| StoreRetention.TaggedFetchIsBatch | relay/server.py:215-309 | it is so in every run whose evictions read no later clock than the fetch |
| StoreRetention.ClockMustNotStepBack | relay/server.py:272-275 | an eviction at a late clock reading removes an event that an earlier reading should still see |
| StoreRetention.Survives | relay/server.py:277-309 | trimming never removes a row that is among the newest ever of its key |
| StoreRetention.Gone | relay/server.py:272-275 | what an eviction removed never comes back |
| StoreRetention.VisibleIfStored | relay/server.py:277-309 | without such an eviction every unexpired stored row is among the newest ever of its key |
| StoreRetention.RunBounded | relay/server.py:295-309 | no key ever holds more rows than the buffer size |
| StoreAgreement.StoresAgree | relay/server.py:109-309 | if of what a fetch looks at no two events share a timestamp and under each tag timestamps rise, both stores answer it alike, tagged or not, after every interleaving of appends and evictions |
| StoreAgreement.RunCoupled | relay/server.py:109-309 | while the timestamps of a key rise, both stores hold the same rows of it in the same order |
| StoreAgreement.CoupledFetch | relay/server.py:126-153 | coupled stores answer every fetch alike when ties between deques fall |
| StoreAgreement.TrimIsNewest | relay/server.py:295-309 | under rising timestamps trimming in SQL keeps what the bounded deque keeps |
| StoreAgreement.SameIds | relay/server.py:118-124 | both stores hand out the same ids in every run |
| StoreDifferences.AppendsAgreeExactly | relay/server.py:109-309 | without evictions: of any sequence of appends both stores answer a fetch for an author, with or without a tag, alike after every prefix and for every buffer size, bound and limit, if and only if under each tag timestamps rise and of two events of one time under different tags the later lies under the tag used first |
| StoreDifferences.DecreaseParts | relay/server.py:118-124 | an event older than the last of its key displaces it from a deque of one and not from the table |
| StoreDifferences.TieParts | relay/server.py:152-152 | where the gathered events show the earlier of two equal times first, the answers differ |
| StoreDifferences.RunInOrder | relay/server.py:118-120 | deques stand in the order in which their keys were first used |
| StoreDifferences.TiesAreOrderedDifferently | relay/server.py:152-152 | of two equal timestamps one store answers the older event, the other the newer |
| StoreInterleavings.StoresAgreeExactly | relay/server.py:109-309 | for any list of appends: however evictions interleave with them, both stores answer every fetch for an author, with or without a tag, alike after every such run, for every buffer size, bound and limit, if and only if of the events it looks at no two share a timestamp and under each tag timestamps rise |
| StoreInterleavings.EvictedTieParts | relay/server.py:155-164 | two events of one time under different tags, with everything before them evicted: the deque store shows the earlier one first |
| StoreInterleavings.RunReopens | relay/server.py:155-164 | after an eviction that empties the deques the next append opens the first one |
| StoreInterleavings.ReopenedDequeParts | relay/server.py:155-164 | a run in which an eviction deletes the deque of the tag used first, so that it is opened again after another: the answers differ |
| RpcRouter.Router.constructor | relay/server.py:475-480 | no endpoint is registered |
| RpcRouter.Router.Register | relay/server.py:482-495 | an endpoint replaces the one with its pubkey in place, or joins at the end; the replaced socket is reported |
| RpcRouter.Router.Unregister | relay/server.py:497-505 | exactly the endpoints of that socket go, and an empty bucket goes with them |
| RpcRouter.PickPolicy | relay/server.py:458-472 | a pick exists if and only if an admissible endpoint does; primaries come first; otherwise it is a most recently seen one |
| RpcRouter.OneEndpointPerPubkey | relay/server.py:482-505 | in every run a user never has two endpoints with one pubkey or one socket |
| RpcRouter.DisconnectIsPrecise | relay/server.py:497-505 | the disconnect of a socket removes its endpoint and no other, so a replacement survives the late disconnect of what it replaced |
| RpcRouter.BucketsAlwaysOk | relay/server.py:475-505 | the invariant behind both, over every interleaving |
| RpcRouter.SystemOk | relay/server.py:515-555 | calls, pending futures and messages in flight stay consistent over every interleaving |
| RpcRouter.ReturnsOwnResponse | fisherman/relay_client.py:146-173 | a call that returns does so with what the handler returned, on the socket it was sent to, for this call's own body, whatever the order of responses; whose socket that is, RpcRouting states |
| RpcRouter.CompletesOnce | relay/server.py:536-555 | a completed call never changes its outcome |
| RpcRouter.DeliverCompletesItsCall | relay/server.py:536-555 | in every run the delivery of a response resolves exactly the open call that carries its id and whose send did not fail, with the response's payload, and changes no other call |
| RpcRouter.RunPending | relay/server.py:515-555 | in every run an open call is pending under its own id unless its send failed, and then it is not |
| RpcRouter.StepKeepsCalls | relay/server.py:515-555 | no step changes the identity of a call or a finished outcome |
| RpcRouter.EnlistKeeps | relay/server.py:482-492 | registering keeps pubkeys and sockets distinct |
| RpcRouter.DropKeeps | relay/server.py:501-503 | unregistering keeps the others |
| RpcRouting.CallGoesToItsUser | relay/server.py:515-530 | in every run each call is sent to a socket whose first hello named the call's own user |
| RpcRouting.RequestGoesToItsUser | relay/server.py:528-530 | in every run each request on the wire, or at work in a daemon, is the request of a call of the user whose socket it goes to |
| RpcRouting.EndpointsExactly | relay/server.py:482-535 | in every run a user's endpoints are exactly those whose socket said hello for that user with that kind and pubkey, has not disconnected since, and was not replaced by another hello of the user with the same pubkey; each was last seen when it said hello or when the latest send to it returned |
| RpcRouting.UsersSaidHello | relay/server.py:609-635 | a socket belongs to the user that its first hello named, for good |
| RpcRouting.PickExactly | relay/server.py:458-472 | the pick is the first primary where the preference allows primaries and there is one, otherwise the first of the most recently seen admissible endpoints, and none if and only if nothing is admissible |
| RpcRouting.CallStartsExactly | relay/server.py:515-526 | in every run a call for a user starts, open and pending under its rpc id, on the socket of the chosen one of that user's endpoints at that moment, or nothing changes because none is admissible |
| RpcRouting.ListedIsOnline | relay/server.py:497-508 | in every run a user who is listed has an endpoint |
| RpcRouting.WireExactly | relay/server.py:528-555 | messages are lost with their socket, and leave the wire when they are received, handled and delivered |
| RpcRouting.AnsweredCallReturns | relay/server.py:528-555 | a call whose request is sent, received, handled and answered returns the answer and waits for nothing |
| RpcRouting.SilentCallTimesOut | relay/server.py:536-540 | a call without an answer in time ends timed out and waits for nothing, and a late answer changes no call |
| RpcRouting.RaisingSendFails | relay/server.py:532-534 | a call whose send raises fails at once and waits for nothing |
| UploadQueue.UploadQueue.constructor | fisherman/upload_queue.py:29-41 | an empty table; a negative bound counts as zero |
| UploadQueue.UploadQueue.Append | fisherman/upload_queue.py:74-94 | a row with a new id is added and the oldest beyond the bound go; a bound of zero stores nothing |
| UploadQueue.UploadQueue.Trim | fisherman/upload_queue.py:175-189 | exactly the newest rows up to the bound stay |
| UploadQueue.UploadQueue.Peek | fisherman/upload_queue.py:96-129 | the first rows of the target, as PeekedExactly states |
| UploadQueue.PeekedExactly | fisherman/upload_queue.py:96-129 | a peek answers rows of the target asked for, or of any, by rising id; at most the limit, which is at least one; and any such row left out is newer than all of a full answer |
| UploadQueue.UploadQueue.Delete | fisherman/upload_queue.py:131-133 | exactly the rows with another id stay, in id order |
| UploadQueue.UploadQueue.MarkFailed | fisherman/upload_queue.py:135-146 | row by row: the one of that id counts one more attempt and keeps the clipped error, every other row is as it was, in its place |
| UploadQueue.NewestKeeps | fisherman/upload_queue.py:175-189 | what trimming drops is older than everything it keeps, and then the table is full |
| UploadQueue.MatchingHead | fisherman/upload_queue.py:113-118 | a targeted peek starts at the oldest row of that target |
| UploadQueue.WithoutMember | fisherman/upload_queue.py:131-133 | deletion removes that id and nothing else |
| UploadQueue.MarkedSame | fisherman/upload_queue.py:137-145 | marking changes the attempts and the error of one row and keeps everything else, row by row |
| DurableSender.CompletedInOrder | fisherman/streamer.py:252-290 | in every interleaving of producers and the sender, completed sends are for the target only and have strictly increasing ids; the counters describe exactly them |
| DurableSender.InvHolds | fisherman/streamer.py:252-290 | the sender invariant, with the item in hand, under every interleaving |
| DurableSender.LeavesUnsentOnlyWhenFull | fisherman/upload_queue.py:175-189 | an unsent row leaves only in an append that fills the table with newer rows |
| DurableSender.NothingLostEarly | fisherman/streamer.py:252-290 | over whole runs every row is still queued, was sent, or was overtaken by a full table of newer appends |
| DurableSender.MaxTsIsMaximum | fisherman/streamer.py:276-279 | the upload timestamp is the maximum frame time sent |
| SenderProgress.RoundSendsOldest | fisherman/streamer.py:252-280 | a connected idle sender sends the oldest row of its target, removes that row and no other, counts it, and raises the timestamp only to a later one; with no such row nothing changes |
| SenderProgress.DrainSendsAll | fisherman/streamer.py:252-280 | as many rounds as there are rows of the target send all of them in the order of their ids and leave exactly the rows of other targets |
| SenderProgress.FailedSendIsRetried | fisherman/streamer.py:281-290 | a failed send notes one more attempt and the error, cut to 500 characters, in the row of the item in hand only; the item stays in hand, nothing completes while the connection is down, and once it is back the same item is sent |
| SenderProgress.DisconnectedWaits | fisherman/streamer.py:254-267 | without a connection nothing is taken in hand and nothing completes |
| SenderProgress.HeadIsOldest | fisherman/streamer.py:255-255 | the head of a peek for the target is its row with the least id |
| UploadBound.BoundSoundExactly | fisherman/streamer.py:252-290 | after any run, whatever the clock, every frame not later than that timestamp has been sent if and only if no append into a full table dropped a frame of the target that was not in hand, with a frame counted that is not dated earlier, and no frame still to be sent is dated up to the timestamp |
| UploadBound.InOrderSoundExactly | fisherman/streamer.py:252-290 | for frames captured in the order in which they were queued: if and only if no frame was dropped so with a younger one counted |
| UploadBound.ClockStepFails | fisherman/streamer.py:276-279 | a run in which the clock steps back: the timestamp covers a frame that still waits, and nothing was dropped |
| UploadBound.LostForever | fisherman/upload_queue.py:175-189 | a frame dropped so is never sent in any continuation |
| UploadBound.FindLoss | fisherman/upload_queue.py:175-189 | every frame of the target that is neither queued, in hand nor sent was dropped so by some append |
| UploadBound.NothingOlder | fisherman/streamer.py:252-290 | no frame older than a counted one is still queued or in hand |
| UploadBound.HistoryKnows | fisherman/upload_queue.py:74-94 | rows, completed sends and the item in hand carry what was appended under their ids |
| UploadBound.BoundCanFail | fisherman/streamer.py:276-279 | a run in which the timestamp covers a frame that was lost |
| MirrorSync.Syncer.constructor | fisherman/sync.py:125-145 | an empty mirror with the loaded mark |
| MirrorSync.Syncer.ScanDir | fisherman/sync.py:100-118 | files at least as new as the mark, oldest first |
| MirrorSync.Syncer.UploadOne | fisherman/sync.py:215-231 | a stored file is sealed under its name and may raise the mark; a refused one is counted; an unreadable one changes nothing |
| MirrorSync.Syncer.ScanAndUpload | fisherman/sync.py:179-198 | a scan uploads frames, audio and configs in order and sets the mark reached |
| MirrorSync.CleanScanExactly | fisherman/sync.py:179-198 | after a failure-free scan every file on disk can be restored if and only if the mirror was safe before |
| MirrorSync.FaultyScanExactly | fisherman/sync.py:215-231 | after a scan with any failures the mirror is safe if and only if every file whose bytes were neither stored before nor now is as new as the old mark and as every file the scan stores |
| MirrorSync.RefusedFileIsPassed | fisherman/sync.py:215-231 | a reachable scan that leaves the mirror unsafe: the older of two files is refused, the newer stored |
| MirrorSync.WriteExactly | fisherman/sync.py:110-112 | a local write keeps the mirror safe if and only if it is not dated before the mark, unless its bytes were stored already |
| MirrorSync.OrderlyRunsRestore | fisherman/sync.py:179-231 | in every run of writes with nondecreasing times and failure-free scans the mark never falls and after each scan every file can be restored |
| MirrorSync.SkippedStaysLost | fisherman/sync.py:226-231 | a file below the mark that is not in the store is never uploaded again until it is rewritten |
| MirrorSync.ScanEffect | fisherman/sync.py:179-231 | per file, what one scan with any failures makes recoverable, exactly |
| MirrorSync.ScanMark | fisherman/sync.py:189-196 | the new mark is the latest of the old mark and the times of the files the scan stores |
| MirrorSync.PrefixSharesName | fisherman/sync.py:185-188 | with /d/frames and /d/frames-audio the two files named a share one blob name |
| MirrorSync.KeysUnambiguousExactly | fisherman/sync.py:185-188 | no two local files share a blob name if and only if both directories are one or neither path is a textual prefix of the other |
| MirrorSync.KeysApart | fisherman/sync.py:185-188 | under that condition names are injective over frames, audio and configs |
| MirrorSync.SortIsStable | fisherman/sync.py:117-117 | a directory is uploaded oldest first, each file once, equal times in walk order |
| MirrorSync.UploadAllCounts | fisherman/sync.py:215-231 | a scan counts as uploaded each file it stores and as failed each one the store refuses, and an unreadable one as neither |
| MirrorSync.SealedExactly | fisherman/sync.py:85-98 | a blob opens with its own secret and under its own name only |
| MirrorSync.KeysExactly | fisherman/sync.py:185-188 | with the directories apart, a file lies under frames/ or audio/ with its relative path, and the two configs under config/, each with .enc |
| MirrorSync.JoinExactly | fisherman/sync.py:100-118 | a file below a directory has the directory, one slash and its relative path |
| MirrorSync.DiskExactly | fisherman/sync.py:100-118 | a local write puts one file and a removal takes one away; neither touches the store |
| FrameQuery.FrameStore.constructor | fisherman/frame_store.py:17-20 | an empty store |
| FrameQuery.FrameStore.Save | fisherman/frame_store.py:22-71 | the row becomes the one file of its millisecond in its day, and no other file changes |
| FrameQuery.FrameStore.Query | fisherman/frame_store.py:77-140 | the nested loops with their early returns are the specified scan over the days, last first |
| FrameQuery.QueryFrames | mirror/query.py:32-85 | the mirror lists, filters by name, sorts and scans as specified |
| FrameQuery.LocalIsFilterThenTake | fisherman/frame_store.py:101-140 | leaving at the first too-old row loses nothing; the late limit test yields at least one match |
| FrameQuery.MirrorIsFilterThenTake | mirror/query.py:59-85 | the early limit test is filter-then-take for all blobs and every limit |
| FrameQuery.VisitsAll | fisherman/frame_store.py:93-101 | the walk meets every file once, whatever order the folders are listed in |
| FrameQuery.VisitsDescend | fisherman/frame_store.py:93-101 | it meets the rows newest first, across days as within them, when names sort as times |
| FrameQuery.DayDescendsExactly | fisherman/frame_store.py:97-101 | the rows of a day are met newest first if and only if their names sort as their times |
| FrameQuery.SortedCandidates | mirror/query.py:43-55 | the mirror visits exactly the blobs of the window, newest first |
| FrameQuery.NameOrder | fisherman/frame_store.py:97-100 | stamps of one length sort by name as by time |
| FrameQuery.SelectedExactly | fisherman/frame_store.py:101-140 | the reference answer, row by row and in order: the time is in the window, bounds included, the app and the searched text occur without regard to case, and the bundle is the very one |
| FrameAnswers.QueriesAgreeExactly | mirror/query.py:32-85 | when names sort as times and the mirror holds the tree, both queries give the same rows in the same order for every limit of at least one, if and only if no row matching by text is inside the window by its exact time and outside it by its truncated stamp, or the other way round |
| FrameAnswers.AllQueriesAgreeExactly | mirror/query.py:32-85 | every query is answered alike for every limit of at least one, if and only if in each day the names of the rows sort as their times and every time is a whole number of milliseconds |
| FrameAnswers.OneLengthQueriesAgreeExactly | mirror/query.py:32-85 | the first of these for trees whose stamps have one length in each day |
| FrameAnswers.LimitsAgreeExactly | mirror/query.py:59-61 | a query whose windows agree is answered alike if and only if the limit is at least one or nothing matches |
| FrameAnswers.NameOrderNeedsOneLength | fisherman/frame_store.py:97-100 | two files, of milliseconds 999 and 1000: asked for one row, the local query answers the older and the mirror the newer |
| FrameAnswers.SubMillisecondRowsDiffer | mirror/query.py:48-53 | a row between two milliseconds is found by one query and not by the other |
| FrameAnswers.HereIs | fisherman/frame_store.py:77-140 | the rows the local query can answer are exactly those in the exact window that match by text, newest first |
| FrameAnswers.ThereIs | mirror/query.py:43-85 | the rows the mirror can answer are exactly those in the window of stamps that match by text, newest first |
| MirrorAnswers.MirroredQueriesAgree | mirror/query.py:32-85 | from files written in order and mirrored by scans without failures, none removed and blob names unambiguous, to the answers: after the last scan both queries agree for every limit of at least one, if and only if both windows agree |
| MirrorAnswers.ListingMirrors | mirror/query.py:43-47 | when every file on disk can be restored and no blob is stray, what the mirror lists, decrypts and parses is the local tree |
| MirrorAnswers.RunNoStrays | fisherman/sync.py:179-231 | without removals every blob is that of a file still on disk |
| Replay.ReplayAll | harness/eval/replay.py:469-507 | the loop produces the predictions of the specified run; what the policy is shown in it is stated in ReplayShown |
| Replay.TrimWindow | harness/eval/replay.py:167-171 | entries older than the cutoff go from the front |
| Replay.MemoryForWindows | harness/eval/replay.py:174-233 | the memory has the specified features |
| Replay.WorkflowContextForRecent | harness/eval/replay.py:236-304 | the one-pass grouping, last six groups |
| Replay.CopyRows | harness/eval/replay.py:298-304 | the rows of those keys in order, without their private times |
| Replay.KeepValid | harness/eval/replay.py:184-185 | exactly the valid entries in order |
| Replay.CountSwitches | harness/eval/replay.py:187-193 | the switch count of the last fifteen minutes |
| Replay.RecentOutcomesFor | harness/eval/replay.py:358-367 | the last five outcomes strictly before the event |
| Replay.EligibleExactly | harness/eval/replay.py:358-367 | an outcome is eligible if and only if it is dated strictly before the event |
| Replay.SameTimeIsNotShown | harness/eval/replay.py:364-366 | an outcome at the very time of the event is not shown |
| Replay.NoFutureLeakage | harness/eval/replay.py:358-507 | for any policy, datasets that agree on the first n rows and outcome logs that agree before them give the same first n predictions |
| Replay.WindowsAreFilters | harness/eval/replay.py:477-487 | with nondecreasing times the deques are the plain filters of the history by two hours and fifteen minutes at every tick |
| Replay.TrimIsFilterExactly | harness/eval/replay.py:167-171 | dropping from the front is filtering if and only if no too-old entry waits behind a fresh one |
| Replay.MinutesSpanTheLongestRun | harness/eval/replay.py:208-229 | the reported minutes span exactly the longest unbroken run on the current app, and are zero for idle, undated or epoch rows |
| Replay.RunStartIsLongest | harness/eval/replay.py:211-221 | the backward walk stops at the start of the longest unbroken suffix |
| Replay.MinutesWithinTwoHours | harness/eval/replay.py:229-229 | in such a replay the minutes lie between 0 and 120 |
| Replay.GroupsAreSummaries | harness/eval/replay.py:261-296 | every key has one group, and it is the summary of that key's entries alone |
| Replay.RowSummarises | harness/eval/replay.py:286-292 | a group counts its entries, spans their times, and carries exactly their quality flags |
| Replay.OrderOnlyGrows | harness/eval/replay.py:268-270 | keys stand in the order of their first appearance |
| Replay.SwitchesCountPoints | harness/eval/replay.py:187-193 | switches count the places where a known app is followed by a different one |
| ReplayShown.RowIsShown | harness/eval/replay.py:473-507 | over whole runs the policy decides on the recorded row itself but for the minutes since the last push: at a dated row 9999 if no earlier dated row's prediction was a ping, otherwise the minutes, not below zero, from the latest such row; an undated row is shown as recorded |
| ReplayShown.LastPushIs | harness/eval/replay.py:490-491 | the simulated push time is the date of the latest prediction that pings at a dated row |
| ReplayShown.ValidOnlyIs | harness/eval/replay.py:333-339 | what counts as work, entry by entry and in order: active, not sensitive by flag or label, and a frame at most a minute old |
| ReplayShown.MemoryShows | harness/eval/replay.py:184-233 | the snapshot holds the apps and scenes of the last thirty valid entries, the switches, the pause before the last entry, and a boundary where a gap in capture, or else that pause, exceeds ninety seconds |
| ReplayShown.MinutesExactly | harness/eval/replay.py:195-229 | in plain terms: the minutes on the app reach back to the first of the entries that link up to the last one without a break, each at most ninety seconds before the next, work on that app, and after no gap in capture; none if the last is no work or follows a gap |
| ReplayShown.FlagsExactly | harness/eval/replay.py:307-321 | each quality flag stands for one plain fact about the entry |
| ReplayShown.GroupedExactly | harness/eval/replay.py:264-267 | two entries share a group of the workflow summary if they are of one workflow, or, without one, of one app and title in one slot of ninety seconds, and not if these differ |
| ReplayShown.GroupTexts | harness/eval/replay.py:270-296 | a group shows the app and the redacted title of its first entry, cut at 180 characters, the last scene that is not empty, and the redacted texts one after the other |
| ReplayShown.WorkflowShows | harness/eval/replay.py:195-304 | the workflow summary is the last six, in the order of their first entries, of the groups made by the entries of the five minutes before the event, each summed up from those entries alone; for an undated or epoch row at work the five minutes end where the run on its app began |
| ReplayShown.FreshOfKey | harness/eval/replay.py:261-267 | the entries of a group are those of its key not older than the five minutes |
| ReplayShown.PreviewExactly | harness/eval/replay.py:293-296 | a preview takes up a text it does not show yet, after a separator, and is cut at 240 characters |
| ReplayClock.ClockFreeExactly | harness/eval/replay.py:469-507 | whatever policy replays the rows, as long as it ignores the stamp of the snapshot, its predictions are the same at all clock readings if and only if every row is dated or there is at most one row |
| ReplayClock.ForwardFreeExactly | harness/eval/replay.py:469-507 | at readings that never step back and lie after the recording, the predictions of every policy that looks neither at the stamp nor at the workflow summary are the same if and only if every row but the first is dated |
| ReplayClock.DatedRunsIgnoreTheClock | harness/eval/replay.py:484-487 | with every row dated, the replay clock reaches a policy only through the stamp of its snapshot |
| ReplayClock.UndatedRowSees | harness/eval/replay.py:484-487 | an undated row after another: a policy that acts on the pause sees the clock reading |
| ReplayClock.DatedRowSees | harness/eval/replay.py:477-487 | a dated row after an undated first one: the same |
| ReplayClock.UndatedLate | harness/eval/replay.py:484-487 | the same for an undated later row at readings after the recording |
| ReplayClock.WorkflowShowsTheClock | harness/eval/replay.py:257-262 | the workflow summary shows the time of an undated first row, in the number of its groups |
| ReplayClock.BlurSame | harness/eval/replay.py:174-233 | the rest of the snapshot does not |
| ReplayClock.LoneRowIgnoresTheClock | harness/eval/replay.py:484-487 | a lone undated row is decided alike at every clock reading |
| DotEnv.EnvFile.constructor | fisherman/config.py:75-77 | a file, present or not |
| DotEnv.EnvFile.ReadVar | fisherman/config.py:75-95 | the first line that sets the key decides |
| DotEnv.EnvFile.PersistVar | fisherman/config.py:115-141 | every line that sets the key is replaced, or one is appended |
| DotEnv.EnvFile.RemoveVar | fisherman/config.py:144-161 | exactly the lines that set the key go, and the end of the text is trimmed |
| DotEnv.PersistThenReadExactly | fisherman/config.py:115-141 | for every starting file a persisted value reads back if and only if key and value are ones a single line can hold |
| DotEnv.PersistKeepsOthersExactly | fisherman/config.py:115-141 | for keys without an equals sign: from every starting file another key reads after a persist as before, if and only if no line of the written entry gives that key a value |
| DotEnv.PersistKeepsOthers | fisherman/config.py:121-129 | it is so for a plain key with a value on one line |
| DotEnv.PersistTwiceExactly | fisherman/config.py:115-133 | for keys without an equals sign, whatever the value: persisting twice is persisting once if and only if the key is plain and the entry is one line, with or without a final carriage return |
| DotEnv.PersistShows | fisherman/config.py:115-133 | the lines of a written file, whatever breaks the entry holds |
| DotEnv.RemoveReads | fisherman/config.py:144-153 | after removal the key reads as absent and every other key as before |
| DotEnv.SamePrefix | fisherman/config.py:83-90 | reading and `_line_sets_key` agree on which lines set a key, although they strip differently |
| DotEnv.OneKeyPerLine | fisherman/config.py:108-112 | a line sets at most one key |
| DotEnv.EntrySets | fisherman/config.py:123-129 | a written entry sets its own key if and only if the key is plain |
| DotEnv.ValueBack | fisherman/config.py:91-94 | a value survives trimming and unquoting if and only if it is trimmed and not quoted |
| DotEnv.QuotedReads | fisherman/config.py:91-94 | a value within one pair of equal quotes reads as what stands between them |
| DotEnv.ReadEntry | fisherman/config.py:88-94 | a written entry of a good key reads back trimmed and unquoted |
| DotEnv.TrimTailReads | fisherman/config.py:153-153 | trimming the end of the text changes no reading |
| TextLines.LinesRoundTrip | fisherman/config.py:133-133 | clean lines joined and split again are the same lines |
| TextLines.SplitCat | fisherman/config.py:133-133 | splitting is done piece by piece at a newline, whatever breaks the pieces hold |
| TextLines.ContainsIsSubstring | fisherman/frame_store.py:126-132 | the text filter is substring search |
| TextLines.StrippedLines | fisherman/config.py:153-153 | what is left after trimming the joined text, as lines |
| ContextDelete.ContextHome.constructor | fisherman/context_home.py:296-303 | a context with its frame and transcript files |
| ContextDelete.ContextHome.IterFrames | fisherman/context_home.py:59-85 | the first in-window frames up to the limit |
| ContextDelete.ContextHome.IterAudio | fisherman/context_home.py:88-119 | the first in-window records up to the limit, stopping inside a file |
| ContextDelete.ContextHome.ScanFile | fisherman/context_home.py:104-118 | the records of one file, last line first, up to the room left |
| ContextDelete.ContextHome.Delete | fisherman/context_home.py:296-372 | a dry run changes nothing; a real run deletes selected frames and rewrites every file with a selected record |
| ContextDelete.ContextHome.RewriteFiles | fisherman/context_home.py:335-358 | exactly the affected files are rewritten, empty ones go, and deletions are counted |
| ContextDelete.ContextHome.RewriteFile | fisherman/context_home.py:340-351 | in-window records go, every other line stays in order |
| ContextDelete.FramesDeleted | fisherman/context_home.py:304-318 | every frame outside the window or unparsable survives in order; within the limit the window is empty afterwards |
| ContextDelete.TranscriptsDeleted | fisherman/context_home.py:326-358 | the same for transcript lines |
| ContextDelete.DryRunPredictsExactly | fisherman/context_home.py:366-372 | the dry run reports the real frame count always, and the real transcript count if and only if the records fit the limit or the limit falls on the end of a file |
| ContextDelete.RewriteKeepsRest | fisherman/context_home.py:340-353 | rewriting any set of files loses no other line |
| WindowDelete.FramesExactly | fisherman/context_home.py:296-324 | deleted are exactly the first frames dated in the window, bounds included, up to the limit, which is at least one; dry and real run report their number, and a real run their files, two for a frame with an image |
| WindowDelete.TranscriptsExactly | fisherman/context_home.py:326-372 | rewritten are exactly the files, newest first, that hold a record of the window, up to and with the one where the records reach the limit; each keeps its other lines or goes when it has none; a real run reports all records of those files, a dry run as many as the limit allows |
| WindowDelete.KeptExactly | fisherman/context_home.py:340-351 | a rewritten file keeps exactly its lines that are no record dated in the window, each at its place among them |
| WindowDelete.HitAt | fisherman/context_home.py:59-85 | a frame of the window stands in the selection at the place that the number of such frames before it says |
| WindowDelete.RewrittenIs | fisherman/context_home.py:326-338 | a file is rewritten if and only if it holds a record of the window and the files before it do not reach the limit |

## Left out

- Cryptography, base64, JSON and HTTP: encryption and parsing are symbolic or parameters; a failing decoder is an error value.
- Floating point: times are integers (seconds, milliseconds or microseconds), byte sizes and areas are integers; rounding of reported minutes and durations is not modelled.
- The minimum-area product in `fisherman/ocr.py:112`: the search is proved for every minimum area of at least one.
- Thumbnails and image decoding: the pixel grid is the input; the scaled box assumes, as the thumbnail call guarantees, a sample no larger than the image.
- ImportChunks.EveryChunkWithinLimits: the archive's other fields are one opaque prefix of the JSON text, and text is counted in UTF-8 bytes, one character each.
- Audio rows in the paged export: their paging follows the frame cursor and is incomplete by design, so only frames are covered.
- PagedExport.ExportExact: rows with equal timestamps keep one fixed order between requests, which SQL does not promise.
- Client-key mode of `_ensure_tenant`, revocation of devices beyond the row it reads, rate-limit defaults and access logging.
- Stored images during migration: an image either can be moved or not; object keys, uploads and `thumb_jpeg` (which the row update does not touch) are not followed.
- KeyMigration.RunSafe: batches run one at a time and the ingest path does not write between the statements of one batch.
- Signature checks, hello drift and HTTP limits of the relay; `served_by` is not added to a response.
- RpcRouter.ReturnsOwnResponse: rpc ids are fresh, where the code draws 64 random bits.
- Negative SQL limits: the routes clamp limits to at least one before they reach a store.
- The in-memory send loop of the streamer, reconnection and counters of dropped frames: only the durable path is modelled.
- MirrorSync.OrderlyRunsRestore: a scan sees one snapshot of the disk, and a put is stored wholly or not at all; `sync_state.json` itself is not modelled.
- FrameQuery.FrameStore.Save: the removal of the oldest frames with a picture beyond `max_frames`, which ends a save, and the pictures themselves are not modelled.
- `_day`, `has_image` and `_jpeg_key` in answers, and the transcript query of the mirror.
- FrameAnswers.QueriesAgreeExactly: day folders are numbered by UTC day, whose names sort as their numbers; calendar formatting is not part of this model.
- MirrorAnswers.MirroredQueriesAgree: folder names, the listing of the store and the JSON decoding of a file are parameters; removals of local files, after which the mirror still holds the blob, are left out.
- Lower-casing is an arbitrary function applied alike by both queries.
- Replay: ISO texts stand for the times they denote, absent and empty texts are one, redaction is an arbitrary function, and blank means spaces, tabs and line ends.
- DotEnv: temporary files, permissions and failures to read are not modelled; blanks and line breaks are the Unicode ones Python strips and splits at.
- ContextDelete.ContextHome.Delete: the removal of empty day folders and of missing files, and files changing between the two passes, are not modelled.
- Capture, power and meeting detection, rendering, prompts, upgrades and other subprocess work.
