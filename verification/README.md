# Desktop Commander: a verified model of its stateful cores

This project models the parts of the server where the behaviour depends on state kept over many calls, and proves what
those parts are for:

- the lease, fencing and quota protocol between the context registry and the repository databases: single transactions
  and recovery (`Leases.dfy`), then many processes (`LeaseWorld.dfy` is the state machine and its invariant,
  `LeaseSteps.dfy` the steps one by one, `LeaseProtocol.dfy` what holds in every run, `LeaseWrites.dfy` how whole writes go);
- the evidence index, ranked pagination, bounded reads and bounded graph search over it (`EvidenceIndex.dfy`,
  `RankedSearch.dfy`, `ReadPages.dfy` with `Utf8.dfy`, `ActivityGraph.dfy`);
- the capped line buffer of a terminal session (`LineBuffer.dfy`);
- the frame codec of the device connection (`FrameCodec.dfy`) and the shell-command scanner (`CommandScanner.dfy`);
- fuzzy matching, exact editing, line endings and the per-file edit lock (`FuzzySearch.dfy` with `Levenshtein.dfy`,
  `ExactEdit.dfy`, `LineEndings.dfy`, `EditLock.dfy`).

Five of them are split: the specification is in `GraphModel.dfy`, `PageModel.dfy`, `LineModel.dfy`, `CommandModel.dfy` and
`ExactModel.dfy`, the lemmas on the way are in `GraphLemmas.dfy`, `PageLemmas.dfy`, `LineLemmas.dfy`, `CommandLemmas.dfy` and
`ExactLemmas.dfy`, and the methods and the results in the file named above. `Prelude.dfy` holds shared datatypes.
`dafny verify dfyconfig.toml` checks everything.

## How the model is built

Code that changes state step by step is a class or a method with loops, proved equal to a specification function of the
old state; the properties are then lemmas about those functions. Two components run concurrently and are state machines
whose theorems quantify over all runs:

- The lease protocol has any number of processes. Every step is one commit or one row of one reconcile, so a crash, a failure
  with rollback, a restart or a change of the active owner can fall between any two commits. A step may read any clock,
  and may get any answer about a process id, so safety depends on neither. The registry and the repositories are separate:
  a crash undoes the registry transaction and keeps the repository commits. The single transactions and the commit gate
  are those of `Leases`, where the store object is a class; `SweepIsReconcile` connects the steps with its reconcile.
- `EditLock` has the operations of the event loop: arrive, start, read, write, release.

Response sizes are an arbitrary function of the response, which may be another one at every call; the wall clock may stop
the graph search at any row; and full-text matching is an arbitrary predicate on folded text and query.

## Where the code does less than its comments say

- Line breaks are forced in the last line only, so a completed line can stay longer than `MAX_LINE_CHARS`
  (`LineBuffer.ForceSplitShortens`, `LineBuffer.LongLineSurvives`).
- `outputSinceSnapshot` writes each separator before its line (`LineBuffer.SeparatorsAreMisplaced`). The length is right;
  the text is right exactly in the case given by `LineBuffer.SinceSnapshot`; `LineBuffer.SinceSnapshotIs` gives it in all.
- A read whose current line was already consumed leaves the cursor one line short (`LineBuffer.ReadSkipsNothing`); the next
  read repeats its last line (`LineBuffer.LastLineIsRepeated`, `LineBuffer.SameLineForEver`).
- When eviction drops the line under the cursor, the old offset is applied to another line
  (`LineBuffer.EvictionMovesCursor`); `LineBuffer.AppendKeepsCursor` gives the exact condition on the text to be appended.
- An event indexed while its outcome is pending is not visited again: evidence that arrives later is missing until a
  rebuild or another event carries it (`EvidenceIndex.LateOutcomeIsMissed`; `EvidenceIndex.MissedExactly` says which refs).
- A cleanup advances the cursor epoch before it deletes. A cursor issued in between is accepted afterwards
  (`RankedSearch.CleanupLosesRows`). `RankedSearch.PagesAreExact` says exactly when such a search is still complete, and
  `RankedSearch.PagesUnderPurges` what it guarantees anyway.
- A dead lease of an owner that has been sealed makes every later reconcile throw, because the reconcile opens the
  repository through the owner check (`Leases.Recovery`, `LeaseProtocol.SealedLeaseIsReached`).
- The single-file edit counts overlapping occurrences and replaces disjoint ones (`ExactEdit.ReplacesAsManyAsExpected`,
  `ExactEdit.OverlapIsMiscounted`).
- A batched edit that expects one occurrence expands `$` patterns in its replacement (`ExactEdit.LiteralReplacement`,
  `ExactEdit.DollarIsExpanded`).
- On an empty window the fuzzy reduction can return a start after its end (`FuzzySearch.EmptyWindow`,
  `FuzzySearch.EmptyWindowCanInvert`). That takes a caller of the exported function with its own start and end:
  `runFuzzySearch` passes neither (`FuzzySearch.WholeTextIsProper`).

## Model

| member | source | states |
|---|---|---|
| LeaseProtocol.NoStaleCommit | src/context/store.ts:44-65 | In every run, with crashes between any two commits, a repository commit is never preceded by a revocation or a commit of the same reservation, nor by an admission to the repository later than its own; and its admission did precede it. |
| LeaseProtocol.GateIsExact | src/context/store.ts:44-65 | In every reachable world the commit gate opens for a lease exactly when its row is unexpired, its owner active, the repository its own, the last admission or revocation there is its own admission, and it has not committed. |
| LeaseProtocol.GateStaysClosed | src/context/store.ts:410-433 | Once a reservation is revoked, superseded or committed, no commit is accepted under its id, with any cached epoch, at any time. |
| LeaseProtocol.QuotaAlways | src/context/store.ts:483-495 | In every run with fixed caps, committed bytes plus the allocations of uncommitted holders stay within the device cap, each owner's cap, and each repository's cap less the reserve, whatever crashes and whatever the files take beyond their retained bytes. |
| LeaseProtocol.InsertKeepsQuota | src/context/store.ts:483-507 | The admission test against recorded bytes and pending rows is enough, although rows just reaped are dropped from it: they hold nothing that could still be committed. |
| LeaseProtocol.CommitKeepsQuota | src/context/store.ts:57-65 | A commit that grows by at most its allocation moves charge from the open allocation to the bytes and raises none. |
| LeaseProtocol.SingleWriterAlways | src/context/store.ts:476-482 | In every run the registry, committed or in the open transaction, has at most one lease per repository, and no watermark exceeds its epoch. |
| LeaseProtocol.StepRaises | src/context/store.ts:498-510 | No step lowers an epoch or a watermark, and none raises an epoch by more than one; a commit gives its repository exactly the new bytes, the epoch as watermark and the holder as receipt, a purge only new bytes, and any other step at most a new holder with a new epoch. |
| LeaseProtocol.EpochsRise | src/context/store.ts:498-510 | Over any run, crashes between the epoch bump and the registry commit included, no epoch and no watermark falls. |
| LeaseProtocol.EpochNamesTheLease | src/context/store.ts:498-507 | Two reservations of one repository never have the same epoch. |
| LeaseProtocol.HolderIsKept | src/context/store.ts:410-433 | While an admission is being decided, a repository's holder that has a row anywhere has it among the rows that survived the reconcile. |
| LeaseProtocol.InvKept | src/context/store.ts:471-524 | Every step of every process, failures and crashes included, keeps the invariant behind the results above. |
| LeaseProtocol.SweepIsReconcile | src/context/store.ts:400-448 | The steps of an uninterrupted sweep are possible and together are one reconcile. |
| LeaseProtocol.AnyIdleProcessRecovers | src/context/store.ts:400-448 | From any reachable world with the lock free, after a crash at any step, one sweep leaves usage equal to the bytes, exactly the live leases, and no epoch lower, unless a dead lease's owner is sealed. |
| LeaseWrites.GuardedWrite | src/context/store.ts:471-518 | From every reachable world with the lock free, a write that nothing hinders (no sealed dead lease, no writer left, room under the caps, a commit within the lease) is a possible run, and at its end the repository holds the new bytes under a new epoch, committed and receipted, the other repositories have at most been revoked, usage is exact, and just the live rows are left. |
| LeaseWrites.RefusedWrite | src/context/store.ts:477-491 | A write refused for quota is a possible run that has still reconciled: only live rows, exact usage, nothing granted. |
| LeaseWrites.FailedWrite | src/context/store.ts:519-522 | A write that fails while it holds its lease ends with its own row gone, every other row and every repository as it was, and the process idle. |
| LeaseWrites.RollsBack | src/context/store.ts:519-522 | A failure, or a crash of the process with the lock, undoes the registry transaction and nothing else; a crash of another process leaves the lock alone. |
| LeaseWrites.PurgeReconciles | src/context/store.ts:558-597 | A purge that deletes down to any number of bytes ends with a reconcile: usage counts what is left, and only live rows remain. |
| LeaseProtocol.SealedLeaseIsReached | src/context/store.ts:424-425 | A run in which a process is admitted and crashes and another owner is then activated: once the lease has expired, no reconcile completes. |
| Leases.Recovery | src/context/store.ts:410-448 | A reconcile completes exactly when no dead lease belongs to a sealed owner. It touches nothing in a repository but epoch and holder; when complete, usage equals the bytes, exactly the live rows remain in order, and repeating it changes nothing. |
| Leases.KeptExactly | src/context/store.ts:410-433 | In the fields of a row: a complete reconcile keeps a row exactly when it is unexpired and its process is on another host or alive; it completes exactly when every other row is of the active owner; and a repository keeps its epoch exactly when all its rows are kept. |
| Leases.LivingWriterIsSafe | src/context/store.ts:412-419 | No reconcile, complete or not, touches the repository of an unexpired row whose process is on another host or alive, and a complete one keeps the row. |
| Leases.FitsExactly | src/context/store.ts:483-488 | The admission test in terms of the three caps: measured bytes with overhead, pending allocations and the new allocation, against device, owner, and repository less the reserve. |
| Leases.UsedAdds | src/context/store.ts:484-486 | A repository counts for the device, for its owner and for itself, and for nothing else. |
| Leases.PendingAdds | src/context/store.ts:488 | A lease is pending for the device, for its owner and for its repository, and for nothing else. |
| Leases.CrashThenReconcile | src/context/store.ts:418-433 | After a crash that kept some revocations and rolled the registry back, the next reconcile gives the same rows and usage as an uninterrupted one. |
| Leases.SweepKeepsTheLive | src/context/store.ts:411-434 | A sweep that is not stopped keeps exactly the live rows, in order. |
| Leases.SweepOnlyBumps | src/context/store.ts:418-433 | A sweep raises an epoch exactly where it reaps a row, clears the holder there, caches the new epoch there and only there, and leaves evidence and watermark alone. |
| Leases.SweepCompletes | src/context/store.ts:424-425 | A sweep is stopped exactly by a row that must go and whose repository may not be opened. |
| Leases.SealedLeaseBlocks | src/context/store.ts:424-425 | In the state that run reaches, an expired lease of a sealed owner fails every reconcile. |
| Leases.ContextStore.constructor | src/context/store.ts:33-34 | A new store holds no reservation. |
| Leases.ContextStore.AssertReservationLive | src/context/store.ts:37-41 | Succeeds exactly when the store's reservation has a row that has not expired. |
| Leases.ContextStore.CommitRepository | src/context/store.ts:44-65 | Succeeds exactly when the token is the store's own, both transactions are open and its row is unexpired, of the active owner, of this repository, at its epoch and above its watermark; then bytes, watermark and receipt change together in that repository, otherwise nothing changes. |
| Leases.ContextStore.ReconcileQuotaLocked | src/context/store.ts:410-448 | The two loops compute the reconcile of the old state, reading the clock for each row and stopping early where it does. |
| Leases.ContextStore.InsertLease | src/context/store.ts:494-506 | The row, with its five minutes, and the raised epoch with the new holder appear together, and the token cached is the new epoch. |
| Leases.ContextStore.Admit | src/context/store.ts:471-511 | For an active owner and no write in progress, admits exactly when the reconcile completes, the repository has no writer and the allocation fits all three caps beside the measured sizes. An unexpired row of a living or foreign process in the repository makes it busy, with that repository untouched. Every refusal is told apart and leaves the rows it must: untouched, rolled back, or swept when the quota is exceeded. One writer per repository is kept. |
| Leases.ContextStore.Finalize | src/context/store.ts:513-524 | The own row is gone either way; on success the registry is the reconcile of the rest, on failure it is rolled back but for that row, while revocations stay. |
| EvidenceIndex.IndexAgreesWithLog | src/context/indexer.ts:17-45 | Over any run of appends, outcomes, syncs with any caps, rebuilds and purges that has no late outcome, the full-text rows are exactly one folded row per available ref among the indexed events. |
| EvidenceIndex.AgreesExactly | src/context/indexer.ts:22-38 | After any run the index agrees with the log exactly when every ref that a late outcome brought has since been indexed again or purged. |
| EvidenceIndex.MissedExactly | src/context/indexer.ts:22-38 | After any run the due refs without a row are exactly those that a late outcome brought and that no later rebuild, later indexed event or purge has settled. |
| EvidenceIndex.AgreementIsKept | src/context/indexer.ts:22-38 | An operation keeps the index in agreement with the log exactly when it is not an outcome for an event already passed. |
| EvidenceIndex.LateOutcomeIsMissed | src/context/capture.ts:115-125 | A concrete run in which an outcome recorded after its event was indexed is never indexed. |
| EvidenceIndex.RebuildRestoresAgreement | src/context/indexer.ts:21-38 | A rebuild restores agreement whatever was missed. |
| EvidenceIndex.AgreementMeansOneRowEach | src/context/indexer.ts:34-37 | Agreement means: one row per ref, a row exactly for each due ref, holding its folded text. |
| EvidenceIndex.StepSound | src/context/indexer.ts:17-45 | Every operation keeps the index sound, and in agreement exactly unless it is late. |
| EvidenceIndex.StepMisses | src/context/indexer.ts:22-38 | One operation adds a missed ref exactly when it is a late outcome with that ref, and removes one exactly when its batch carries it or it is purged. |
| EvidenceIndex.RunsStaySound | src/context/indexer.ts:17-45 | Soundness over any run, and agreement over any run without late outcomes. |
| EvidenceIndex.SyncSpec | src/context/indexer.ts:22-43 | A sync publishes the next generation, moves the position on by the number of events the cap allows, keeps every document's first generation and time, and gives new documents the new generation. |
| EvidenceIndex.NewDocument | src/context/indexer.ts:28-33 | A document that a sync makes has the kind of its evidence and the acceptance time of the first event with its ref from the indexed position, or from the start in a rebuild. |
| EvidenceIndex.KnownDocument | src/context/indexer.ts:30-33 | A document there before changes in its last generation only, and exactly when the sync passes an event with its ref. |
| EvidenceIndex.PurgeMeans | src/context/store.ts:567-572 | Evidence is available after a purge exactly when it was before and no event with its ref was accepted before the limit; otherwise its text and its document are gone. |
| EvidenceIndex.ManifestNeverGoesBack | src/context/indexer.ts:39-42 | Over any run neither the generation nor the indexed position goes back. |
| EvidenceIndex.DocumentsAreStable | src/context/indexer.ts:30-33 | No operation but a purge takes a document away or changes what a reader of a published generation sees, and none adds to a published generation. |
| EvidenceIndex.RepositoryTables.constructor | src/context/indexer.ts:22-24 | The tables start empty. |
| EvidenceIndex.RepositoryTables.IndexOne | src/context/indexer.ts:28-38 | One round of the loop is the index step of the specification. |
| EvidenceIndex.RepositoryTables.SyncEvents | src/context/indexer.ts:7-45 | The transaction computes the sync of the old tables and refuses exactly bad caps and rebuilds over the cap. |
| RankedSearch.PagesAreTheRanking | src/context/search.ts:83-112 | When no cleanup is pending at the first page, following accepted cursors to the end gives every row of the ranking at the pinned generation exactly once and in order, for any limit, byte cap and response sizes, with any syncs, rebuilds and cleanups in between: a cleanup would have made the next cursor stale. |
| RankedSearch.PagesAreExact | src/context/search.ts:73-112 | For any chain of pages, the items are the pinned ranking exactly when no purge between two pages takes a row after the last one served, which each purge can tell before it deletes. |
| RankedSearch.CleanupLosesRows | src/context/store.ts:551-571 | A concrete search of two rows whose first page is read after a cleanup has begun: its cursor is accepted after the deletion, and the second row is lost. |
| RankedSearch.MidCleanupIsReached | src/context/store.ts:551-571 | Two appends, a sync and the begin of a cleanup lead to the state of that search. |
| RankedSearch.PagesUnderPurges | src/context/search.ts:73-112 | With purges in between too: in order, no row twice, none that was not in the ranking, and every row that survives. |
| RankedSearch.RowsMean | src/context/search.ts:83-91 | A row of the ranking is an available document of an asked kind and time first indexed by the generation, of score 0 if its text holds the substring and else of score 1 if its folded text matches the terms. |
| RankedSearch.PageRowsMean | src/context/search.ts:83-104 | Every row of a page is such a row and comes after the cursor's row by score, then time, then ref. |
| RankedSearch.CleanupMakesCursorsStale | src/context/store.ts:303 | A cleanup that begins after a cursor was issued makes it stale for good, whatever else happens. |
| RankedSearch.HitsOverRun | src/context/search.ts:86-91 | The rows visible at a published generation can only lose members over a run, and only to purges. |
| RankedSearch.HitsOnlyShrink | src/context/search.ts:89 | The same for one operation. |
| RankedSearch.PurgeHits | src/context/search.ts:73-89 | A purge takes away exactly the rows whose refs it purges. |
| RankedSearch.SparingRun | src/context/search.ts:73-89 | The rows after a key all survive a run exactly when none of its purges takes one of them. |
| RankedSearch.KeysetResumes | src/context/search.ts:93-94 | The keyset predicate resumes exactly where its key stands in the ranking. |
| RankedSearch.RankingIsUnique | src/context/search.ts:94 | Match class, then newest, then ref determine one order. |
| RankedSearch.PageCovers | src/context/search.ts:98-112 | A page is in order, holds only rows after its key, misses none before its last item, and without a cursor misses none at all. |
| RankedSearch.ChainCovers | src/context/search.ts:98-112 | A chain of pages from any key is in order, within the first state's rows and complete for the last state's. |
| RankedSearch.ChainIsComplete | src/context/search.ts:98-112 | A chain from any key finds all the rows after it exactly when no purge takes one that is still to come. |
| RankedSearch.QueryRows | src/context/search.ts:83-97 | The query returns the first rows of the ranking after the key. |
| RankedSearch.TakeRows | src/context/search.ts:98-112 | The loop stops at the limit, at the end, or before the first row with which the page no longer fits. |
| RankedSearch.TakesExactly | src/context/search.ts:98-113 | That determines the number of rows, which is positive exactly when the first row fits. |
| RankedSearch.Search | src/context/search.ts:44-118 | A page is answered exactly when the request is in bounds, the index exists, the cursor is accepted, and the rows taken are some and fit with and without the warning; it then holds those rows and is a correct page, whose cursor expires ten minutes after the first page. The two other refusals are given exactly without an index, and for a cursor of another epoch, expired, or of a generation not published. |
| ReadPages.PagesPartitionTheText | src/context/search.ts:131-171 | Reading from the start to the last page, with response sizes that change from call to call, gives every ref that is still readable at the end exactly its requested byte range, every ref purged meanwhile the front of its range and one error unless it was finished, and every other ref one error. |
| ReadPages.PiecesAreText | src/context/search.ts:143-146 | Every piece is valid UTF-8 by itself. |
| ReadPages.CursorAdvances | src/context/search.ts:155-167 | Each page ends at a later ref, or further on in the same one at an acceptable offset. |
| ReadPages.PageConserves | src/context/search.ts:131-168 | A page takes from each ref exactly what is then no longer to be read. |
| ReadPages.PageErrors | src/context/search.ts:135-140 | A page reports an error exactly once for each unreadable ref it passes, and never for a readable one. |
| ReadPages.ChainConserves | src/context/search.ts:131-168 | The same for a chain of pages from any position. |
| ReadPages.PageThenRest | src/context/search.ts:131-168 | What one page holds of a ref, followed by what later pages hold after a possible purge, is accounted for. |
| ReadPages.SearchLength | src/context/search.ts:161-162 | The length found fits if it is positive, and is the largest where the test is monotone; the test need not be. |
| ReadPages.NoPieceFits | src/context/search.ts:161-166 | If the piece found will not do, none will, where a shorter piece never fits worse. |
| ReadPages.ReadRef | src/context/search.ts:132-167 | One ref is added whole, added in part, or left with the cursor at its place; it is left only if no piece of it fits, where a shorter piece never fits worse. |
| ReadPages.ReadText | src/context/search.ts:141-167 | A readable ref is added with the longest piece that the search finds. |
| ReadPages.ReadMissing | src/context/search.ts:135-140 | A ref without readable text gives one error item, or is left. |
| ReadPages.ReadEvidence | src/context/search.ts:120-172 | A page that is returned is correct, within budget, holds something of its first ref, and is full: it ends at the last ref, or inside a ref with the longest piece that fits, or before a ref of which nothing fits any more, where a shorter piece never fits worse. The budget is refused only if nothing of the first ref fits, where cursors do not matter; a refusal for a bad offset names a ref with an unacceptable range or cursor. |
| ReadPages.FittingRefsComeTogether | src/context/search.ts:131-168 | Refs that all fit together come on one page without a cursor, where a shorter piece never fits worse. |
| ReadPages.ItemsMean | src/context/search.ts:135-160 | A page holds one item for each ref from the cursor on: an error exactly for a ref without readable text, expired exactly if it has a row, and otherwise text of the ref within its range. |
| ReadPages.AcceptableMeans | src/context/search.ts:141-146 | The offsets accepted are exactly those that cut the text into valid texts within the range, whose end is the text's where it lies beyond it. |
| Utf8.Utf8Prefix | src/context/text.ts:7-13 | The loop finds the longest prefix within the cap that ends on a boundary. |
| Utf8.PrefixIsLongest | src/context/text.ts:7-13 | No boundary lies between that length and the cap. |
| Utf8.PrefixGrows | src/context/text.ts:7-13 | A larger cap gives no shorter prefix. |
| Utf8.BoundaryIsCharacterBoundary | src/context/search.ts:144 | In valid UTF-8 the byte test holds exactly where both sides are valid UTF-8. |
| Utf8.PieceIsValid | src/context/search.ts:143-146 | The text between two such boundaries is valid. |
| ActivityGraph.SearchIsExact | src/context/graph.ts:102-142 | An uncut search that was not ended by a target returns exactly the visible nodes within max_hops of a seed. |
| ActivityGraph.EdgesAreExact | src/context/graph.ts:125-140 | An uncut search without a target returns exactly the edges that lead from a node within max_hops less one to a visible node. |
| ActivityGraph.HopMeans | src/context/graph.ts:113-132 | A hop is a visible edge of an asked relation, followed in an asked direction to a visible node. |
| GraphLemmas.BoundsMean | src/context/graph.ts:71-98 | The bounds of a query, and what a ref resolves to: the visible node with this id, or else the visible event node of it. |
| ActivityGraph.DepthsAreDistances | src/context/graph.ts:119-135 | Every returned depth is the true shortest distance, at most max_hops, even when the search was cut off. |
| ActivityGraph.CutOffIsSound | src/context/graph.ts:104-142 | Even a cut-off response keeps its caps, has no node and no edge twice, hangs every other node below a returned node one level up, and has both ends of every edge; and each reason it gives for a cut is true. |
| ActivityGraph.PathIsShortest | src/context/graph.ts:143-146 | No walk from a seed to the target is shorter than a reported path. |
| ActivityGraph.DistanceIsLeast | src/context/graph.ts:116-119 | A distance is the least number of hops. |
| ActivityGraph.Add | src/context/graph.ts:104-111 | A node joins once, unless a cap forbids it, and then only the reason is recorded. |
| ActivityGraph.AddSeeds | src/context/graph.ts:112 | The seeds join at depth zero; an unresolved ref refuses the query. |
| ActivityGraph.AddEnd | src/context/graph.ts:130-135 | The far end joins one level down with a parent link to the current node, if it is new. |
| ActivityGraph.AddEdge | src/context/graph.ts:136-139 | The edge is returned and the rest stays, if the response then leaves 256 bytes; otherwise the search stops as partial. |
| ActivityGraph.ExamineRow | src/context/graph.ts:125-140 | A row within budget is counted once and handled, or the search stops as partial. |
| ActivityGraph.ExamineColumn | src/context/graph.ts:120-141 | Every row of the column is handled, or the search stops as partial. |
| ActivityGraph.ExpandColumn | src/context/graph.ts:120-142 | A round over the columns keeps what earlier columns have found, or the search stops as partial. |
| ActivityGraph.ExpandNode | src/context/graph.ts:119-142 | All allowed neighbours of the node are in the queue, or the search stops as partial. |
| ActivityGraph.Traverse | src/context/graph.ts:116-142 | The loop keeps the invariant behind the results above and, when uncut and not ended by the target, expands the whole queue. |
| ActivityGraph.PathTo | src/context/graph.ts:143-146 | Following the parent links gives a path from a seed whose length is the target's depth. |
| ActivityGraph.ShortestPath | src/context/graph.ts:143-146 | The path reported is one of least length to the target. |
| ActivityGraph.Respond | src/context/graph.ts:143-146 | A path is reported exactly when one was asked for and the target was found, and it is shortest. |
| ActivityGraph.SearchFrom | src/context/graph.ts:116-146 | The search and its response from any seeds: complete unless it was cut or ended by the target, and with a path exactly when one was asked for and exists within max_hops. |
| ActivityGraph.QueryActivityGraph | src/context/graph.ts:71-154 | An answer is sound, within its bytes, and complete unless partial or ended by the target. It is refused only out of bounds, for a ref that does not resolve, or because the final response is over its bytes. |
| LineBuffer.AppendExtendsStream | src/terminal-manager.ts:564-614 | Evicted text plus the joined lines only grows at its end, by the appended text with the forced breaks. |
| LineBuffer.RenderedPieces | src/terminal-manager.ts:593-600 | Without the inserted breaks it is the appended text, and every break follows a line of exactly MAX_LINE_CHARS characters. |
| LineBuffer.SnapshotsStayValid | src/terminal-manager.ts:791-798 | Over any appends an earlier stream stays a prefix of the later one, so offsets stay valid. |
| LineBuffer.AppendCaps | src/terminal-manager.ts:593-612 | After every append the buffer is within 50 MiB and the last line within 1 MiB of characters. |
| LineBuffer.AppendDropsFewest | src/terminal-manager.ts:605-612 | An append drops the fewest oldest lines that bring the buffer within its cap, never the last one; the count of evicted lines and the cursor's line follow. |
| LineBuffer.ForceSplitShortens | src/terminal-manager.ts:590-600 | After a forced split no line exceeds the cap exactly when none but the last did before. |
| LineBuffer.LongLineSurvives | src/terminal-manager.ts:590-600 | A concrete text after which a line exceeds the cap. |
| LineBuffer.SinceSnapshot | src/terminal-manager.ts:826-846 | Output since a snapshot has exactly as many characters as are new and buffered; it is the true text exactly when what precedes the last line is newlines. |
| LineBuffer.SinceSnapshotIs | src/terminal-manager.ts:826-846 | What it gives exactly: the true text with every newline moved before the part it ends. |
| LineBuffer.ReadSkipsNothing | src/terminal-manager.ts:638-649 | What a read shows is the stream text from the cursor on; the cursor never passes it, and stops short of it exactly when the consumed current line is left out. |
| LineBuffer.AppendKeepsCursor | src/terminal-manager.ts:602-612 | An append leaves the cursor at its place in the stream exactly when the cap has room for the new text, forced breaks included, beside everything from the cursor's line on; otherwise the cursor ends past its place, with its old offset on the oldest line. |
| LineBuffer.MarkedIsAllRead | src/terminal-manager.ts:623-629 | Marking with the end of the last line moves the cursor to the end of the stream. |
| LineBuffer.MarkIsAtCapture | src/terminal-manager.ts:353-358 | A mark with a cursor captured earlier declares delivered exactly what was shown by then, provided that nothing has been evicted since. |
| LineBuffer.ReadsNeverSkip | src/terminal-manager.ts:623-649 | Over any run of appends, reads and marks that leaves the cursor on retained text, every character the cursor has passed was handed over by a read or declared delivered by a mark. |
| LineBuffer.SeparatorsAreMisplaced | src/terminal-manager.ts:837-841 | A concrete buffer whose output since a snapshot has its separator before the first line. |
| LineBuffer.LastLineIsRepeated | src/terminal-manager.ts:645-647 | When a read passes over a used-up line, the next read begins with the last line of this one. |
| LineBuffer.SameLineForEver | src/terminal-manager.ts:645-647 | With one line after the used-up one, every read returns that line and moves nothing. |
| LineBuffer.EvictionMovesCursor | src/terminal-manager.ts:605-612 | A concrete append whose eviction moves the cursor past text that no read has shown. |
| LineBuffer.Session.constructor | src/terminal-manager.ts:564-578 | A session starts empty and well formed. |
| LineBuffer.Session.AppendToLineBuffer | src/terminal-manager.ts:564-614 | The loops compute the specified append and keep the character counters exact. |
| LineBuffer.Session.AddFragments | src/terminal-manager.ts:567-588 | The first fragment extends the last line and the others become new lines. |
| LineBuffer.Session.SplitLastLine | src/terminal-manager.ts:593-600 | The overlong last line is cut into pieces of the cap. |
| LineBuffer.Session.EvictOldest | src/terminal-manager.ts:605-612 | The oldest lines move to the evicted text until the cap holds. |
| LineBuffer.Session.CaptureOutputSnapshot | src/terminal-manager.ts:791-798 | A snapshot is the length of the stream. |
| LineBuffer.Session.GetOutputSinceSnapshot | src/terminal-manager.ts:805-810 | The output is that of the specification for the stream's length less the snapshot. |
| LineBuffer.Session.ReadOutput | src/terminal-manager.ts:638-662 | A read at offset 0 returns the specified lines and moves the cursor as specified; a read at any other offset returns the lines there and moves nothing. |
| LineBuffer.Session.ReadFromCursor | src/terminal-manager.ts:641-648 | The lines from the cursor on, and the moved cursor. |
| LineBuffer.Session.ReadFromLineBuffer | src/terminal-manager.ts:688-736 | The lines at an absolute offset or counted from the end. |
| LineBuffer.PagesJoinUp | src/terminal-manager.ts:702-720 | Reads at consecutive offsets join up, and a read of the last n lines gives them. |
| LineBuffer.ReadsByIndex | src/terminal-manager.ts:638-720 | The lines of every read by index: from the given line, from the given number of lines before the end, or from the cursor's line, with what is left of it, and how many. |
| LineBuffer.Session.MarkOutputConsumed | src/terminal-manager.ts:623-629 | Marking sets the cursor, clamped to the buffer. |
| LineBuffer.OutputSinceSnapshot | src/terminal-manager.ts:826-846 | The backward loop computes the specified output. |
| FrameCodec.RoundTrip | src/device/gateway-secure-transport.ts:64-121 | For any payloads of 1 to max bytes and any cutting of their frames into chunks, the parser delivers exactly those payloads in order and ends idle. |
| FrameCodec.WireFormat | src/device/gateway-secure-transport.ts:64-73 | On the wire: four bytes of length, the most significant first, then the payload; refused exactly when empty, over the limit or too long for four bytes. |
| FrameCodec.BadFrame | src/device/gateway-secure-transport.ts:96-117 | After whole frames, a header with a length out of bounds or a frame whose text is not accepted is an error: the payloads before it are delivered, what follows is dropped, and the parser is idle. |
| FrameCodec.PushIsCompositional | src/device/gateway-secure-transport.ts:85-119 | Pushing a and then b is pushing a + b, errors included. |
| FrameCodec.ChunkingIsIrrelevant | src/device/gateway-secure-transport.ts:85-119 | The outcome depends on the bytes only, not on the chunks. |
| FrameCodec.DeliveredAccountsForInput | src/device/gateway-secure-transport.ts:85-119 | An error-free stream is the frames of what was delivered plus one unfinished frame: nothing is invented or lost. |
| FrameCodec.HeaderIsItsLength | src/device/gateway-secure-transport.ts:69-70 | Reading and writing the big-endian length are inverse. |
| FrameCodec.EncodeJsonFrame | src/device/gateway-secure-transport.ts:64-73 | The filled buffer is the frame, or the payload's size is refused. |
| FrameCodec.JsonFrameParser.constructor | src/device/gateway-secure-transport.ts:75-83 | A new parser is idle. |
| FrameCodec.JsonFrameParser.TakeHeader | src/device/gateway-secure-transport.ts:89-102 | The header branch consumes at least one byte and does what feeding those bytes singly does. |
| FrameCodec.JsonFrameParser.TakeBody | src/device/gateway-secure-transport.ts:104-117 | The body branch consumes at least one byte, never buffers more than the frame's length, and does what feeding those bytes singly does. |
| FrameCodec.JsonFrameParser.Push | src/device/gateway-secure-transport.ts:85-119 | Pushing a chunk is feeding its bytes one by one, up to the first error. |
| CommandScanner.SequenceIsCompositional | src/command-manager.ts:22-163 | If everything opened in a closes in a, scanning a, a separator and b gives the commands of a followed by those of b, without duplicates, for each of the five separators. |
| CommandScanner.TokensExact | src/command-manager.ts:28-163 | The commands of a line told from its tokens alone: those of each nested line where it stands, and at every operator and at the end the one written since, nested lines left out unless quoted; each once. |
| CommandScanner.EveryLineIsTokens | src/command-manager.ts:28-163 | Every text whatever is made of such tokens, so this holds of every command line: unclosed quotes and openers and a last backslash included. |
| CommandScanner.PlainCommands | src/command-manager.ts:31-56 | Commands that quote and escape as they like, joined by a separator, give the base command of each of them that has one, in order, once: separators, parentheses and the other quote are text within quotes. |
| CommandScanner.SubstitutionContributes | src/command-manager.ts:58-80 | A closed $(...) contributes all its commands, in quotes or not. |
| CommandScanner.BacktickContributes | src/command-manager.ts:82-101 | A closed backtick substitution contributes all its commands, in quotes or not. |
| CommandScanner.SubshellContributes | src/command-manager.ts:109-131 | A closed subshell outside quotes contributes all its commands. |
| CommandScanner.NestedContributes | src/command-manager.ts:58-131 | Whatever nested command line the scanner meets contributes all its commands. |
| CommandScanner.TrimIsInvisible | src/command-manager.ts:13-14 | Blanks around a command line change nothing, although the recursion trims at every level. |
| CommandScanner.DedupConcat | src/command-manager.ts:163 | Removing duplicates part by part and then overall is removing them once. |
| CommandScanner.SkipParens | src/command-manager.ts:60-68 | The counting loop finds the matching parenthesis exactly when there is one. |
| CommandScanner.SkipToTick | src/command-manager.ts:84-89 | The loop finds the next backtick exactly when there is one. |
| CommandScanner.FindSeparator | src/command-manager.ts:133-149 | Trying the separators in order finds the longest one of the five at this place. |
| CommandScanner.FindNested | src/command-manager.ts:58-131 | The three nested forms are tried in order, subshells outside quotes only. |
| CommandScanner.ReadQuoting | src/command-manager.ts:31-56 | The escape and quote branches move the flags as the scanner state does. |
| CommandScanner.ScanOne | src/command-manager.ts:28-154 | One round of the loop scans the lexeme at its position, recursing into nested command lines. |
| CommandScanner.ExtractCommands | src/command-manager.ts:11-163 | The index loop with its recursion computes the specified extraction and terminates. |
| Levenshtein.NoScriptIsCheaper | src/tools/fuzzySearchCore.ts:82-83 | No edit script turns one string into the other at less cost than the distance. |
| Levenshtein.CheapestScript | src/tools/fuzzySearchCore.ts:82-83 | Some edit script has exactly that cost. |
| Levenshtein.ZeroMeansEqual | src/tools/fuzzySearchCore.ts:164-170 | The distance is zero exactly for equal strings. |
| Levenshtein.Bounds | src/tools/fuzzySearchCore.ts:164-170 | The distance is at least the difference of the lengths and at most the longer one. |
| Levenshtein.SimilarityRange | src/tools/fuzzySearchCore.ts:164-170 | The similarity lies between 0 and 1 and is 1 exactly for equal strings. |
| Levenshtein.SimilarityShare | src/tools/fuzzySearchCore.ts:164-170 | The ratio is the share of the longer length that the distance leaves. |
| Levenshtein.DropLast | src/tools/fuzzySearchCore.ts:131-140 | Dropping a character changes the distance by at most one. |
| Levenshtein.OneCharacter | src/tools/fuzzySearchCore.ts:120-140 | A single character is nearer to a string than nothing is exactly when it occurs in it. |
| FuzzySearch.FuzzyIndexOfIsSound | src/tools/fuzzySearchCore.ts:69-97 | The recursion, on falling parent distance, returns a slice of its window with its true distance, never worse than any distance passed down, and empty exactly for the empty query. |
| FuzzySearch.WholeTextIsProper | src/tools/fuzzySearchCore.ts:42-50 | A search of a whole text, empty texts and queries included, reports a slice of it at its true distance. |
| FuzzySearch.NoWorseThanItsWindows | src/tools/fuzzySearchCore.ts:82-96 | A top-level search is no worse than either of its two overlapping windows. |
| FuzzySearch.WindowsCover | src/tools/fuzzySearchCore.ts:77-79 | The two windows overlap so far that no slice of at most the query's length falls between them. |
| FuzzySearch.WindowMayNotShrink | src/tools/fuzzySearchCore.ts:77-79 | The right window of a window of length 2q + 1 is that whole window, so its size is no measure. |
| FuzzySearch.EachDropGainsOne | src/tools/fuzzySearchCore.ts:116-140 | Iterations plus final distance is the distance of the slice it began with, and a slice that holds text is never emptied. |
| FuzzySearch.ReduceMeasures | src/tools/fuzzySearchCore.ts:150-155 | The reported distance is that of the reported value and no worse than at the start, whatever the window. |
| FuzzySearch.ReduceStops | src/tools/fuzzySearchCore.ts:116-140 | Characters are dropped at the start, and then at the end, as long as each brings the slice nearer and until one more would not. |
| FuzzySearch.EmptyWindow | src/tools/fuzzySearchCore.ts:116-140 | An empty window gives a proper slice exactly when neither neighbouring character occurs in the query. |
| FuzzySearch.EmptyWindowCanInvert | src/tools/fuzzySearchCore.ts:116-140 | A concrete window that ends with start after end. |
| FuzzySearch.IterativeReduction | src/tools/fuzzySearchCore.ts:108-156 | The two loops compute the specified reduction and terminate. |
| ExactEdit.PerformSearchReplace | src/tools/edit.ts:149-273 | The branches compute the specified edit, whose meaning is EditMeans. |
| ExactEdit.EditMeans | src/tools/edit.ts:149-208 | With the file's line endings: empty search text, none, or another number of occurrences than expected, each with that number, is refused; otherwise the parts of the file between disjoint occurrences, free of the search text, are joined by the replacement, one part more than expected if nothing overlaps. |
| ExactEdit.SplitIsParts | src/tools/edit.ts:206-208 | Splitting gives the parts between disjoint occurrences, none of which holds the search text. |
| ExactEdit.ReplacesAsManyAsExpected | src/tools/edit.ts:186-208 | An accepted edit replaces as many occurrences as were expected exactly when none overlap. |
| ExactEdit.OverlapIsMiscounted | src/tools/edit.ts:188-191 | A concrete text in which two overlapping occurrences are accepted and one is replaced. |
| ExactEdit.CountsAgree | src/tools/edit.ts:188-191 | The overlapping and the disjoint count agree exactly when no occurrences overlap. |
| ExactEdit.SingleOccurrence | src/tools/edit.ts:199-204 | With one occurrence, cutting at the index and splitting and joining give the same text. |
| ExactEdit.CountOverlapping | src/tools/edit.ts:184-191 | The loop counts all occurrences, overlapping ones included. |
| ExactEdit.PerformExactBatch | src/tools/edit.ts:377-409 | The file becomes the outcome of all edits, or stays as it was. |
| ExactEdit.BatchIsSequentialComposition | src/tools/edit.ts:388-407 | If no edit that expects one occurrence has a $ pattern in its replacement, the batch is the sequential composition of literal replacements, or nothing. The converse does not hold. |
| ExactEdit.LiteralReplacement | src/tools/edit.ts:404-405 | A replacement is taken literally in every context exactly when it holds no $ pattern. |
| ExactEdit.FirstIsReplaced | src/tools/edit.ts:404-405 | A batched edit that expects one occurrence puts its expanded replacement in the place of that occurrence. |
| ExactEdit.PatternsExpand | src/tools/edit.ts:404-405 | What each of the four $ patterns stands for, wherever it is in the replacement. |
| ExactEdit.DollarIsExpanded | src/tools/edit.ts:404-405 | A concrete batch whose result is not the literal one. |
| ExactEdit.PatternCanBeLiteral | src/tools/edit.ts:404-405 | A $ pattern that expands to itself wherever it is used. |
| ExactEdit.CountScan | src/tools/edit.ts:391-396 | The loop counts disjoint occurrences. |
| ExactEdit.ScanCountIsPieces | src/tools/edit.ts:391-406 | That count is the number of split pieces less one. |
| ExactEdit.SplitJoin | src/tools/edit.ts:406 | Splitting and joining with the same text changes nothing. |
| ExactEdit.EditKeepsLineEndings | src/tools/edit.ts:177-208 | An accepted edit of a file with uniform line endings leaves it uniform in that style. |
| ExactEdit.BatchKeepsLineEndings | src/tools/edit.ts:385-407 | So does an accepted batch, $ patterns included. |
| LineEndings.DetectLineEnding | src/utils/lineEndingHandler.ts:10-25 | The loop finds the style of the first line break, or the platform's. |
| LineEndings.DetectFirst | src/utils/lineEndingHandler.ts:10-25 | The line break with the least index gives the style, whatever follows it. |
| LineEndings.DetectUniform | src/utils/lineEndingHandler.ts:10-25 | A file with some line break, all of one style, is recognised. |
| LineEndings.DetectWithoutBreaks | src/utils/lineEndingHandler.ts:23-24 | Without a line break the platform's style is taken. |
| LineEndings.NormalizeJoinsLines | src/utils/lineEndingHandler.ts:30-42 | Normalising keeps the lines and joins them with the target's ending. |
| LineEndings.NormalizeIsUniform | src/utils/lineEndingHandler.ts:30-42 | The result is uniform in the target's style. |
| LineEndings.NormalizeKeepsLines | src/utils/lineEndingHandler.ts:30-42 | The lines survive, and of two normalisations only the last matters. |
| LineEndings.NormalizeIdentity | src/utils/lineEndingHandler.ts:30-42 | A text is left alone exactly when it is already uniform in the target's style. |
| EditLock.OneAtATimeInOrder | src/tools/edit.ts:118-134 | In every run, an operation that has started finds all earlier ones on its file released. |
| EditLock.EditsAreSerial | src/tools/edit.ts:118-134 | In every run each file holds the outcome of its written edits applied one after the other in arrival order: no update is lost. |
| EditLock.ChainsAreBusyFiles | src/tools/edit.ts:119-132 | In every run the map holds a chain for exactly the files that some operation is not done with, and it is the last one that came. |
| EditLock.FirstMayRun | src/tools/edit.ts:126-132 | The first operation of a file that is not released is running or may start. |
| EditLock.TailMeansAllReleased | src/tools/edit.ts:121-124 | A resolved tail means that every operation up to it on the file is released, although the map entry may have been deleted in between. |
| EditLock.StepKeepsOrder | src/tools/edit.ts:118-134 | Every step, failures included, keeps the order and the serial file contents. |
| EditLock.RunsAreOrdered | src/tools/edit.ts:116-134 | The same along any run. |
| EditLock.Alone | src/tools/edit.ts:126-132 | While an operation runs, no other of its file runs and the later ones still wait. |
| EditLock.EditChains.constructor | src/tools/edit.ts:116 | No chains at first. |
| EditLock.EditChains.Enter | src/tools/edit.ts:119-124 | The operation takes the place after the current tail and becomes the tail. |
| EditLock.EditChains.Wake | src/tools/edit.ts:126 | Once the awaited tail is resolved the operation runs, and no other of its file does. |
| EditLock.EditChains.ReadFile | src/tools/edit.ts:382-386 | The text read is the serial outcome of all earlier edits of the file. |
| EditLock.EditChains.WriteFile | src/tools/edit.ts:409 | The file becomes the edit of that text. |
| EditLock.EditChains.Leave | src/tools/edit.ts:129-132 | The chain is dropped exactly when nobody came after. |

## Left out

- SQLite, full-text tokenisation and SQL text: tables are sequences and maps, a transaction is an atomic step, matching is an arbitrary predicate.
- Signing, hashing, redaction and key files: ids are fresh, and a cursor is one the store has issued.
- File-size accounting, vacuum and checkpointing: the measured sizes are the retained bytes plus an arbitrary overhead for the device, the owner and the repository; that overhead may differ at every admission, so the quota results bound retained bytes.
- JSON: frame payloads are bytes that an arbitrary predicate accepts; response sizes are an arbitrary function.
- Creating repositories and lowering caps while processes run: the protocol has fixed repositories and caps.
- The growth of a commit: that it is at most the allocation is a condition of the commit step, since the writers, not the store, see to it.
- Leases.ContextStore.Admit: the action between admission and finalisation is a callback, so the write is two methods; the protocol covers what other processes do in between.
- Fairness in the lease protocol: busy timeouts are failures that may happen at any time; LeaseWrites.GuardedWrite says that a write gets through when nothing hinders it.
- The purge retry table, the administration audit, and the cursors table that can refuse a cleanup.
- ActivityGraph.QueryActivityGraph: the timeline order of the nodes, the format of refs and the generation check are not modelled.
- RankedSearch.Search: related refs of an item are part of its arbitrary size; deleted generations are absent because no code sets them.
- ReadPages.PagesPartitionTheText: between two pages rows may only be purged; a ref the repository does not have stays unknown, since refs are random.
- EvidenceIndex.RepositoryTables.SyncEvents: graph nodes and edges and the manifest hash are not part of these tables.
- LineBuffer.Session.ReadOutput: the line counts of the reply, and completed sessions, whose reads move nothing.
- LineBuffer.Session.MarkOutputConsumed: completed sessions are left out.
- CommandScanner.ExtractCommands: the base command is an arbitrary function of the trimmed command; the catch branch is unreachable unless that function throws.
- ExactEdit.PerformSearchReplace: the fuzzy fallback only reports, and the warnings and previews are text of the reply.
- ExactEdit.PerformExactBatch: search texts are not empty, which the request schema demands (src/tools/schemas.ts:153).
- FuzzySearch.FuzzyIndexOfIsSound: an empty window with a query is treated by EmptyWindow, and a distance that is passed in from outside is that of the window.
- ExactEdit.BatchIsSequentialComposition: with a $ pattern, a batch may or may not be literal; PatternCanBeLiteral and DollarIsExpanded show both.
- EditLock.EditChains.Enter: two paths that name one file through links are two keys; keys are compared as they are, without lowering their case.
- Terminal prompts, process spawning, the gateway's connection lifecycle, tool dispatch and the user interface.
