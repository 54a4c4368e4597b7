# Panda, modelled and proved in Dafny

Panda is a notes server: several devices edit memos, todos and notebooks and stay in step through a change log. This
project models the parts of it in which a mistake would lose or corrupt somebody's notes, and proves what they promise
for every input, every run and every reachable state.

- **Sync log** (`SyncLog`, `SyncRepos`, `SyncRuns`, `SyncLosses`, `SyncDevices`): the append-only log with paged, folded
  pulls, device cursors and compaction; the repository as a class; a step machine of one pulling client among writers,
  other workspaces, other devices and compaction, in which a pull reads rows, then the epoch, then records its cursor, as
  separate steps; exactly when rows a client has not read are lost, and how long a device is remembered.
- **Memo store** (`Utf8`, `BlobStores`, `Markdown`, `ETag`, `Memos`, `MemoRepos`, `MemoRuns`, `MemoNews`,
  `MemoHistory`, `MemoLaws`): memos, content rows, snapshots, idempotency rows, leases and content-addressed blobs.
  `MemoRuns` observes one memo through any run: the body after each change of its revision, and the saves that made them,
  each with the row it replaced.
- **Todos** (`Todos`, `TodoRuns`, `TodoSync`, `TodoLaws`): the repository, its lifecycle, and the convergence of replicas
  to its table, alone and in one machine with a pulling client.
- **Push** (`Push`, `PushRuns`, `PushLaws`): the offline queue over the memo and todo operations, with its table of
  results.
- **ZIP export** (`Words`, `Gf2`, `Crc32`, `Zip`, `Unzip`): the byte-exact writer, CRC-32 against polynomial division over
  GF(2), and an independent reader. Constants follow PKWARE APPNOTE sections 4.3.7, 4.3.12, 4.3.16, 4.4.3,
  4.4.4 and 4.4.7.
- **Markdown formatter** (`Text`, `Formatter`, `FormatterLaws`): the loop, what becomes of every line, and stability.
- **Notebooks and paging** (`Notebooks`, `NotebookRuns`, `NotebookLaws`, `Ordering`, `Paging`): materialized paths,
  sibling order, and keyset pages.

Code that updates rows, buffers or registers step by step is a class or a method with loops, proved equal to a
specification function; the laws are lemmas about those functions and about runs of them. The modules whose names end in
`Laws` say what each operation does without its own helpers. `Domain` and `Records` hold the shared vocabulary. All files
are checked together: `dafny verify dfyconfig.toml`.

## What the proofs found

Where the code does less than its documentation or comments suggest, the exact condition is proved.

- A ZIP archive reads back exactly when there are fewer than 2^16 files, every name is shorter than 2^16 bytes and both the
  local part and the central directory are smaller than 2^32 bytes; beyond that a field is silently truncated
  (`Unzip.ZipRoundTrip`).
- An idempotency row is never replaced, because a conflicting insert is discarded. Once it has expired its key is no longer
  recognized, and stays so: saves that reuse it are carried out every time (`MemoHistory.RetryAtMostOnce`).
- A snapshot can be restored exactly when its body is in the blob store or is still the memo's inline body. Saves do not
  store bodies up to the inline threshold, so only larger ones are sure to be restorable. A version without a title comes
  back under the memo's present one (`MemoHistory.RestoreSnapshotIff`).
- A body named by its hash is refused whenever no memo's present content and no resource names the hash, even if a
  snapshot does and the blob is in the store (`MemoLaws.HashStoredIff`).
- Compaction hides a row from a client exactly when a row above the client's cursor is below the lowest cursor that
  remains after expiry. That holds in every run, with lost responses and expiring devices
  (`SyncLosses.NeverHiddenIff`). It does happen: the server records a device's cursor before the client has the response,
  and if the response is lost, the rows in between may go (`SyncLosses.LostResponseHidesIff`; a run of five steps is
  `SyncRuns.LostResponseHides`). The changed epoch is what tells the client.
- An inventory reads its cursor and records it in two unlocked steps. The device is protected afterwards exactly when no
  compaction in the gap deletes a row above that cursor; an unchanged epoch is enough (`SyncLosses.InventoryRegistersIff`).
- The order of reads in a pull matters. With the epoch read before the rows the response would be trusted although a row
  is gone, exactly when a compaction between the reads deletes an unread row (`SyncLosses.EpochFirstHidesIff`); in the
  order the code uses that never happens (`SyncRuns.EpochGuard`).
- Compaction lowers the newest id exactly when every remaining device has recorded a cursor beyond it, which
  server-issued cursors never are (`SyncRuns.CompactionLowersMaxIff`, `SyncRuns.MaxCursorRun`).
- A blob path determines its hash except that a four-character hash shares its file with its own doubling; the hashes in
  use are longer (`BlobStores.SamePathIff`).

## Model

| member | source | states |
|---|---|---|
| SyncRepos.SyncRepo.Append | crates/store/src/sync_repo.rs:36-64 | the row is stored behind all others under the next id, one above the last one given out, which is returned |
| SyncRepos.SyncRepo.Epoch | crates/store/src/sync_repo.rs:66-74 | the stored epoch, 1 without a row |
| SyncRepos.SyncRepo.MaxCursor | crates/store/src/sync_repo.rs:76-84 | the largest id, an upper bound of all rows |
| SyncRepos.FoldPage | crates/store/src/sync_repo.rs:111-119 | whatever order the hash map yields its values in, the page is the newest row of every key in id order |
| SyncRepos.SyncRepo.Pull | crates/store/src/sync_repo.rs:86-133 | the folded page of at most 1 to 500 log rows as asked, and of exactly as many as asked when more are left; ids strictly increase and no key occurs twice |
| SyncRepos.SyncRepo.UpsertDeviceCursor | crates/store/src/sync_repo.rs:169-198 | the device's row, with the cursor cast to a signed number, and no other |
| SyncRepos.SyncRepo.Compact | crates/store/src/sync_repo.rs:200-244 | expired devices go, rows below the lowest remaining cursor go, the epoch rises if a row went; the count is right and order survives |
| SyncLog.FoldMembers | crates/store/src/sync_repo.rs:111-117 | a row is in the folded page if and only if its key does not occur after it |
| SyncLog.FoldIsOrdered | crates/store/src/sync_repo.rs:118-119 | the folded page increases by id and has distinct keys |
| SyncLog.FoldRefinesReplay | crates/store/src/sync_repo.rs:111-119 | applying a folded page gives the same replica as applying every row of it |
| SyncLog.PageSplits | crates/store/src/sync_repo.rs:92-110 | a page takes a prefix of the unread rows and leaves exactly those above its cursor; it has more if and only if some are left |
| SyncLog.PullTakes | crates/store/src/sync_repo.rs:92-110 | between the signed cursor asked from and the one returned lie as many rows as asked for, 1 to 500, if more are left, and no more than that otherwise; more are left if and only if a row is above both |
| SyncLog.PagingRefinesReplay | crates/store/src/sync_repo.rs:86-133 | pulling to the end in folded pages of any size terminates and equals one replay of all unread rows in order |
| SyncRuns.EpochGuard | crates/server/src/routes/sync_routes.rs:65-71 | over every run: while all responses carry the inventory's epoch, the replica is the replay of all rows appended since, up to the cursor |
| SyncRuns.LatestChangeReceived | crates/server/src/routes/sync_routes.rs:65-71 | under the same condition the replica holds every key's latest change |
| SyncLosses.EpochFirstHidesIff | crates/server/src/routes/sync_routes.rs:66-71 | with the two reads swapped and any run between them, the response stays trusted, but a row is hidden if and only if a compaction of that run deletes an unread one; the cursor then passes it with the next row |
| SyncRuns.CompactionSparesIff | crates/store/src/sync_repo.rs:205-229 | compaction leaves every row above a cursor if and only if none of them is below the lowest cursor of the devices it keeps |
| SyncLosses.NeverHiddenIff | crates/store/src/sync_repo.rs:200-244 | over any run at all, no row above the client's cursor ever goes missing if and only if every compaction finds those rows at or above the lowest remaining cursor; the replica then has every change up to its cursor |
| SyncRuns.NothingHidden | crates/store/src/sync_repo.rs:169-231 | while the device does not expire and no recorded response is lost, that holds without looking at the compactions, also with a page in flight whose rows are deleted behind it |
| SyncLosses.InventoryRegistersIff | crates/server/src/routes/sync_routes.rs:34-57 | with any run between reading the inventory's cursor and recording it, the device ends up under that protection if and only if no compaction in between deletes a row above the cursor, which an unchanged epoch implies |
| SyncLosses.LostResponseHidesIff | crates/server/src/routes/sync_routes.rs:72-78 | after a response is lost whose cursor was recorded, compaction hides a row if and only if one above the client's own cursor is below the lowest remaining one |
| SyncRuns.CompactionLowersMaxIff | crates/store/src/sync_repo.rs:212-229 | the newest id falls if and only if the lowest recorded cursor is beyond every row of a non-empty log |
| SyncRuns.MaxCursorRun | crates/store/src/sync_repo.rs:76-84 | with server-issued cursors the newest id never falls in any run |
| SyncRuns.NewestRowRun | crates/store/src/sync_repo.rs:212-229 | with server-issued cursors the newest row ever written is never deleted |
| SyncDevices.SurvivesIff | crates/store/src/sync_repo.rs:169-210 | over any run that does not record the device again, it is still there if and only if no compaction had a cutoff after it was last seen; it then has the recorded user, time, epoch and signed cursor |
| ETag.PrintRoundTrip | crates/domain/src/etag.rs:7-10 | decimal digits determine the number they print |
| ETag.FormatThenParse | crates/domain/src/etag.rs:7-22 | parsing a printed etag gives back the revision and the first 16 characters of the hash, for 64-bit revisions and non-empty hashes, and fails otherwise |
| ETag.ParseIff | crates/domain/src/etag.rs:12-22 | a text is an etag if and only if it is a 64-bit number without a colon, a colon, and a prefix that is not empty |
| ETag.FormattedMatchesIff | crates/domain/src/etag.rs:24-33 | a printed etag matches a row if and only if the revisions are equal and its prefix starts the row's hash |
| ETag.FormatInjective | crates/domain/src/etag.rs:7-10 | equal etags have equal revisions and prefixes |
| Markdown.NormalizeFixedPoints | crates/domain/src/markdown.rs:2-8 | normalization changes a text if and only if it has a CR or NUL, and is idempotent |
| Markdown.NormalizeHead | crates/domain/src/markdown.rs:2-8 | piece by piece: CR LF and a lone CR become one LF, NUL goes, anything else stays |
| Utf8.DecodeIff | crates/store/src/memos.rs:267-272 | bytes decode to a text if and only if they are its encoding |
| BlobStores.SamePathIff | crates/blob/src/lib.rs:27-34 | two hashes share a path if and only if they are equal or one is the four-character half of the other |
| BlobStores.LoadIsExact | crates/blob/src/lib.rs:52-57 | a hash never loads bytes other than its own |
| BlobStores.StoreThenLoad | crates/blob/src/lib.rs:36-57 | what was put can be got, and no put changes what any other hash gets |
| BlobStores.BlobStore.Put | crates/blob/src/lib.rs:36-50 | writes only an absent file, and returns hash and length |
| BlobStores.BlobStore.Get | crates/blob/src/lib.rs:52-57 | the file at the hash's path, whose own hash has the same path, or not found |
| MemoRepos.MemoRepo.CreateMemo | crates/store/src/memos.rs:415-541 | memo, content row, blob and change, or nothing for a missing notebook |
| MemoRepos.MemoRepo.StoreBody | crates/store/src/memos.rs:436-443 | bodies up to the threshold inline, larger ones in the blob store |
| MemoRepos.MemoRepo.GetIdempotency | crates/store/src/memos.rs:883-898 | the stored answer, if its row has not expired |
| MemoRepos.MemoRepo.ReadBody | crates/store/src/memos.rs:256-276 | the inline body, or the decoded blob, with each error case |
| MemoRepos.MemoRepo.CheckPrecondition | crates/store/src/memos.rs:615-635 | etag, then revision with hash, then the demand for one of them, each with its own error |
| MemoRepos.MemoRepo.CheckSave | crates/store/src/memos.rs:609-666 | every refusal before the body, in order, and that nothing else refuses |
| MemoRepos.MemoRepo.RequestedBody | crates/store/src/memos.rs:670-699 | the full, patched or re-used body, and its errors |
| MemoRepos.MemoRepo.TakeSnapshot | crates/store/src/memos.rs:900-948 | the old version is kept unless the snapshot of the highest revision is younger than five minutes |
| MemoRepos.MemoRepo.NextRow | crates/store/src/memos.rs:739-745 | the row a save writes: named values, or the old ones |
| MemoRepos.MemoRepo.SaveMemo | crates/store/src/memos.rs:567-881 | the whole new state of all tables, blobs and log, and the answer, in every branch |
| MemoRepos.MemoRepo.SoftDelete | crates/store/src/memos.rs:950-1002 | trash, or removal with its cascades; both are logged even for a missing memo |
| MemoRepos.MemoRepo.RestoreMemo | crates/store/src/memos.rs:1004-1029 | out of the trash, logged |
| MemoRepos.MemoRepo.MoveMemos | crates/store/src/memos.rs:1031-1069 | existing memos move and are logged and counted, others are skipped |
| MemoRepos.MemoRepo.RestoreRevisionOf | crates/store/src/memos.rs:1153-1224 | the lookup, the fallback to the inline body and the save, with every error |
| MemoRuns.StepInv | crates/store/src/memos.rs:415-1069 | every operation keeps the joint invariant of memo, content, blobs, snapshots, bodies and saves |
| MemoHistory.ContentInvariant | crates/store/src/memos.rs:709-822 | in every reachable state etag, revision, hash and size of memo and content row fit the normalized body that is read; exactly one of inline and blob is set, inline up to the threshold |
| MemoLaws.RefusedIff | crates/store/src/memos.rs:609-666 | a save that is no retry is refused before its body is looked at if and only if the version it names, its lease or its notebook is wrong; the first of these names the error |
| MemoLaws.FullBodyStored | crates/store/src/memos.rs:668-822 | in every reachable state a full body is stored as its normal form, one revision up, and the answer says so |
| MemoLaws.PatchStoredIff | crates/store/src/memos.rs:671-682 | in every reachable state a patch is applied to the body the memo reads, inline or blob, and the result is stored if and only if it applies |
| MemoLaws.HashStoredIff | crates/store/src/memos.rs:683-694 | in every reachable state a body named by hash is stored, as the text with that hash, if and only if a memo or a resource names the hash and there is such a text |
| MemoLaws.SnapshotTakenIff | crates/store/src/memos.rs:900-948 | a stored body keeps revision, title, tags and hash of the row it replaces as one more snapshot, unless the one of the highest revision is younger than 300 seconds |
| MemoLaws.LeaseFollows | crates/store/src/memos.rs:824-836 | a save under a lease brings that lease to the new version and touches no other |
| MemoLaws.CreateStores | crates/store/src/memos.rs:415-541 | a new memo has the fields asked for, revision 1 and the normalized body, is logged once, and every other memo is as before |
| MemoLaws.TrashAndRestore | crates/store/src/memos.rs:976-1029 | trashing marks and restoring unmarks the row; both keep everything else of every memo and are logged even for a missing one |
| MemoLaws.PurgeRemoves | crates/store/src/memos.rs:956-975 | purging takes the memo with its content, snapshots and leases, and no blob, idempotency row or other memo |
| MemoLaws.MoveSets | crates/store/src/memos.rs:1031-1051 | exactly the listed memos are in the notebook afterwards, with nothing else of their rows changed |
| MemoLaws.MoveTells | crates/store/src/memos.rs:1052-1069 | a move logs one change for every hit, and changes of nothing but listed memos |
| MemoHistory.SaveTouchesOnly | crates/store/src/memos.rs:739-822 | a successful save sets the fields it names and no others, leaves version, content and snapshots alone without a body, and touches no other memo |
| MemoHistory.NoLostUpdate | crates/store/src/memos.rs:615-713 | in every run the content saves of a memo carry revisions 2, 3, 4, … and each named the revision and hash it replaced |
| MemoHistory.SupersededEtagRefused | crates/store/src/memos.rs:615-621 | an etag of an earlier revision is refused and changes nothing, even if the content has returned to the same hash |
| MemoHistory.OneWriterWins | crates/store/src/memos.rs:615-713 | no two successful saves of a memo used the same etag, and their answers differ |
| MemoHistory.RetryAtMostOnce | crates/store/src/memos.rs:594-607 | after any run a save under a used key gives the first answer and changes nothing for a day, and is a fresh save after that; the row never changes |
| MemoHistory.HistoryFaithful | crates/store/src/memos.rs:900-948 | snapshots are of past revisions in order, with the hash the memo had then and the title and tags of the row that was replaced, five minutes apart; large bodies stay in the store |
| MemoHistory.RestoreSnapshotIff | crates/store/src/memos.rs:1153-1224 | restoring succeeds if and only if the body is stored or still current and inline; then it gives back the body and tags, and the title if there was one, that the memo had when that revision was replaced, one revision up; large bodies always restore |
| MemoHistory.RestoreNeedsSnapshot | crates/store/src/memos.rs:1172-1183 | without the memo or a snapshot with that id nothing is restored |
| MemoNews.NewestRowCarriesEtag | crates/store/src/memos.rs:866-878 | in every reachable state before compaction a client that pulls everything holds each memo's current etag |
| MemoNews.InterleavedNewestRow | crates/store/src/memos.rs:866-878 | the same for a registered device whose pulls interleave with writes and compaction, once its cursor has reached the newest row |
| Todos.TodoRepo.Append | crates/store/src/todos.rs:150-170 | the logged row carries the todo under its own key |
| Todos.TodoRepo.CreateTodo | crates/store/src/todos.rs:234-270 | checks in order, an existing id answered with its row, otherwise the new row and its change |
| Todos.TodoRepo.UpdateTodo | crates/store/src/todos.rs:271-320 | checks in order, then the edited row one revision up and its change |
| Todos.TodoRepo.DeleteTodo | crates/store/src/todos.rs:321-389 | trash, or purge from the trash only, with its change |
| Todos.TodoRepo.RestoreTodo | crates/store/src/todos.rs:390-441 | out of the trash, one revision up, with its change |
| TodoRuns.LifecycleStep | crates/store/src/todos.rs:234-441 | rows stay well formed and start at revision 1; an update, trash or restore that does anything raises its row's revision by exactly one, and a purge takes a trashed row |
| TodoRuns.LifecycleRun | crates/store/src/todos.rs:234-441 | in every reachable table: etag from revision and id, completed_at if and only if completed, deleted_at if and only if trashed, valid fields, trimmed title |
| TodoLaws.CreateIff | crates/store/src/todos.rs:234-270 | a todo is created if and only if title, status and priority are valid and its link exists; each error has its code |
| TodoLaws.CreateStores | crates/store/src/todos.rs:234-270 | the new row has the fields asked for, the title without the space around it, and revision 1; a taken id changes nothing |
| TodoLaws.UpdateIff | crates/store/src/todos.rs:271-320 | an update goes through if and only if the row is live, neither the revision nor the etag given is stale, and the resulting fields are valid |
| TodoLaws.UpdateSets | crates/store/src/todos.rs:271-320 | it sets the fields it names and keeps the others, one revision up |
| TodoLaws.DeleteIff | crates/store/src/todos.rs:321-389 | a todo is trashed if and only if it is live, and purged if and only if it is in the trash, and the version named is its own; what is left and what is logged |
| TodoLaws.RestoreIff | crates/store/src/todos.rs:390-441 | a todo comes back if and only if it is in the trash and the version named is its own, with all its other fields |
| TodoRuns.StaleEtagRefused | crates/store/src/todos.rs:271-441 | an etag of an earlier revision is refused by update, delete and restore, which then change nothing |
| TodoRuns.ReplicaConverges | crates/store/src/todos.rs:150-441 | in every reachable state before compaction a client that pulls everything in any page size has exactly the live rows, in every field but the memo link |
| TodoRuns.InterleavedReplicaConverges | crates/server/src/routes/sync_routes.rs:59-90 | the same for a registered device whose pulls interleave with writes and compaction, once its cursor has reached the newest row |
| TodoSync.ClientConverges | crates/store/src/todos.rs:150-441 | in one machine of todo operations, other writers and workspaces, pulls, other devices and compaction in any order, a client that has reached the newest row holds exactly the live todos |
| Push.PushServer.StorePushResult | crates/server/src/routes/sync_routes.rs:491-513 | a result already stored is never replaced |
| Push.PushServer.PushItems | crates/server/src/routes/sync_routes.rs:92-466 | items in order, remembered ones answered from the table, an error ends the batch with the earlier items done |
| PushLaws.DeviceIs | crates/server/src/routes/sync_routes.rs:102-106 | a request is filed under the device it names, unless that is blank, or under the session device or "legacy" |
| PushLaws.BatchLimit | crates/server/src/routes/sync_routes.rs:99-107 | a batch is refused as a whole if and only if it is too long; otherwise there is one answer for each item, in order |
| PushLaws.MemoCreateItem | crates/server/src/routes/sync_routes.rs:118-166 | a created memo goes to the notebook named or the inbox, with title and body and without tags |
| PushLaws.MemoUpdateItem | crates/server/src/routes/sync_routes.rs:167-244 | an update is a save by the pushing user of the fields the item gives, with empty tags meaning the old ones |
| PushLaws.MemoDeleteItem | crates/server/src/routes/sync_routes.rs:245-280 | a delete trashes the memo and never purges it |
| PushLaws.TodoItem | crates/server/src/routes/sync_routes.rs:281-440 | each todo operation reaches its own repository operation with the fields of the payload; a delete never purges |
| PushLaws.RejectedItem | crates/server/src/routes/sync_routes.rs:281-449 | a todo item without payload ends the push, an unknown operation fails alone |
| PushRuns.LoadedIffSucceeded | crates/server/src/routes/sync_routes.rs:468-513 | after any pushes a result is loaded for a device's operation if and only if that operation has an id and succeeded with that result |
| PushRuns.PushAtMostOnce | crates/server/src/routes/sync_routes.rs:107-466 | over any batches, repeated, resent or cut short, each operation of a device succeeds at most once and is answered alike ever after, whatever the operations do |
| PushRuns.ResentBatch | crates/server/src/routes/sync_routes.rs:107-466 | a batch that succeeded can be resent after any other pushes: same answer, no effect |
| PushRuns.ErasedSuffices | crates/server/src/routes/sync_routes.rs:107-466 | dropping from the batches every item whose operation has already succeeded leaves the same tables and the same answers to all that ran |
| PushRuns.ServerPushAtMostOnce | crates/server/src/routes/sync_routes.rs:117-451 | both hold of the server's own memo and todo operations |
| Crc32.ComputeCrc | crates/server/src/export.rs:74-84 | the shift-and-mask loops compute the specified register |
| Crc32.CrcIsRemainder | crates/server/src/export.rs:74-84 | a polynomial is the remainder of the inverted, shifted message by the APPNOTE generator if and only if it is the inverted CRC |
| Crc32.CrcAffine | crates/server/src/export.rs:74-84 | for equal lengths crc(a^b^c) = crc(a)^crc(b)^crc(c) |
| Crc32.BurstsDetected | crates/server/src/export.rs:74-84 | inputs that differ only within four adjacent bytes never collide |
| Zip.AppendLocal | crates/server/src/export.rs:20-35 | the local header, name and data |
| Zip.CentralEntry | crates/server/src/export.rs:37-51 | the central directory record |
| Zip.EndEntry | crates/server/src/export.rs:59-70 | the end record, including the wrapped size computation |
| Zip.WriteStoreZip | crates/server/src/export.rs:12-72 | the whole archive, each central record naming the true start of its local record |
| Unzip.RecordsArePlain | crates/server/src/export.rs:20-51 | in every archive, byte by byte: flags, method, time, date, extra and comment lengths, disk and attributes of every record are zero |
| Unzip.ZipRoundTrip | crates/server/src/export.rs:12-72 | a reader that finds the end record, walks the directory, follows the offsets, and accepts only version 2.0 without flags and headers that agree, recovers all names, data and CRCs in order if and only if no field is truncated |
| Formatter.FormatMarkdown | crates/mcp/src/lib.rs:593-642 | the loop with its fence flag and blank counter computes the specified text |
| Formatter.FormatIsStable | crates/mcp/src/lib.rs:593-642 | formatting twice is formatting once, for every string |
| Formatter.FormatConserves | crates/mcp/src/lib.rs:593-642 | the visible characters are those of the normalized input, in order |
| FormatterLaws.FencesToggle | crates/mcp/src/lib.rs:598-613 | a text starts outside fences, and each line of white space and three backticks or tildes opens or closes one |
| FormatterLaws.VisibleLine | crates/mcp/src/lib.rs:608-637 | a visible line outside fences comes out with its indentation and without trailing white space, with one space behind one to six hashes that touch a visible character; the next line comes right behind it |
| FormatterLaws.BlankRunIsOneLine | crates/mcp/src/lib.rs:627-633 | a run of blank lines before a visible line comes out as exactly one empty line |
| Formatter.ClosedFenceVerbatim | crates/mcp/src/lib.rs:598-606 | lines inside a fence that is closed come out unchanged, in order, inside a fence; the lines of one fence come out as one unbroken block |
| Formatter.OutsideFencesClean | crates/mcp/src/lib.rs:608-637 | outside fences no line ends in white space, no heading lacks its space and no two blank lines are adjacent |
| Formatter.FormatEnding | crates/mcp/src/lib.rs:638-641 | a final line feed after a non-empty line, unless nothing is visible, when the output is one line feed |
| Notebooks.NotebookRepo.NextOrder | crates/store/src/notebooks.rs:89-98 | one more than the largest position of a live sibling, 0 without siblings |
| Notebooks.NotebookRepo.CreateNotebook | crates/store/src/notebooks.rs:69-146 | path and depth from the parent, the given or the next position, the change; not found for a missing parent |
| Notebooks.NotebookRepo.RenameNotebook | crates/store/src/notebooks.rs:148-208 | the trimmed name, or the error for a missing, inbox or blank case |
| Notebooks.NotebookRepo.ReorderNotebooks | crates/store/src/notebooks.rs:212-286 | all rows and changes of an accepted order, nothing otherwise |
| Notebooks.NotebookRepo.SoftDeleteNotebook | crates/store/src/notebooks.rs:288-344 | trashed and logged, or refused for a missing, inbox or non-empty notebook |
| NotebookRuns.PathsMirrorForest | crates/store/src/notebooks.rs:79-88 | in every reachable table: no cycles, depth counts the ancestors, the path lists them from the root, and path prefixes are exactly ancestry |
| NotebookRuns.PrefixIsAncestry | crates/store/src/notebooks.rs:79-88 | `path(a)/` starts `path(b)` if and only if a is a proper ancestor of b |
| NotebookRuns.NeverMoves | crates/store/src/notebooks.rs:148-344 | no later operation changes a notebook's parent, path or depth |
| NotebookRuns.AcceptedIff | crates/store/src/notebooks.rs:220-238 | an order is accepted if and only if it lists every live sibling once and nothing else |
| NotebookRuns.ReorderSorts | crates/store/src/notebooks.rs:248-262 | afterwards each sibling carries its place in the list and no other row has changed |
| NotebookLaws.CreateStores | crates/store/src/notebooks.rs:69-146 | a notebook is created if and only if its parent has a row, with the name, parent and position given, and its change carries name and parent |
| NotebookLaws.RenameIff | crates/store/src/notebooks.rs:148-208 | a rename goes through if and only if the notebook is live and not the inbox and the name is not blank; it sets only the trimmed name |
| NotebookLaws.DeleteIff | crates/store/src/notebooks.rs:288-344 | a delete goes through if and only if the notebook is not the inbox and has no live memo; it marks only that row |
| NotebookLaws.ReorderIff | crates/store/src/notebooks.rs:212-262 | an order is accepted if and only if it lists each live child once; each child then has its place, and every other row is as before |
| NotebookLaws.ReorderTells | crates/store/src/notebooks.rs:262-286 | one change for each position, in order |
| NotebookLaws.NextOrderIs | crates/store/src/notebooks.rs:89-98 | a position that is not given lies behind every live sibling, directly behind the last, and is 0 without one |
| Paging.List | crates/store/src/memos.rs:149-188 | the page and its cursor, with and without a text search; at most 1 to 200 rows as asked, and exactly as many as asked when there is a next page |
| Paging.CursorRoundTrip | crates/store/src/memos.rs:166-184 | a printed cursor parses to the time and id of the row it names |
| Paging.ListIsComplete | crates/store/src/memos.rs:149-188 | on a fixed table, pages of any sizes give exactly the rows in or out of the trash, of the notebook if one is named, that match, each once, by falling time and then falling id |
| Paging.Inventory | crates/store/src/memos.rs:1071-1118 | the page by id and where to go on; at most 1 to 1000 ids as asked, and exactly as many as asked when there are more |
| Ordering.TextLessIff | crates/store/src/memos.rs:1079-1087 | texts are ordered by the first place where they differ, a proper prefix first |
| Paging.InventoryIsComplete | crates/store/src/memos.rs:1077-1118 | while memos come and go between pages, a finished walk has every memo that stayed, once, in id order, and none that never was |

## Left out

- One workspace is modelled. Other workspaces only use up log ids; a todo or blob id shared between workspaces, and the
  tenant checks around every query, are not modelled.
- SQLite: tables are maps and sequences with the constraints of the schema, and each write-locked method is one step that
  does not fail midway. Statements whose errors are discarded are taken to succeed, except the idempotency insert, whose
  conflict is modelled.
- Row ids stay below 2^63 and revisions are unbounded numbers; the ZIP sizes, cursors and etags have their machine widths.
- The clock is one reading in seconds per operation, new ids come in as parameters, and hashing is a parameter: the proofs
  that need it ask for freedom from collisions and at least 64 characters.
- `apply_markdown_patch`: the patch library is an arbitrary function of base and patch.
- Excerpts, plain text, full-text search, tags and `created_by` columns of memos: derived or copied columns that no
  modelled check reads. `Paging.List` takes the text search as a predicate.
- Blob reference counts and `delete_if_unreferenced`, which nothing calls; with a caller the blob store would no longer be
  append-only.
- BlobStores.SamePathIff: does not model how a path library joins empty or absolute components, which hex hashes never have.
- `merge` as one operation: it is a create and then trashing without log rows, both of which are steps of `MemoRuns`.
- `MemoRepo::open` and the exclusive lease mode, which excludes nobody; leases enter as rows that a save checks and updates.
- `SyncRepo::inventory` is modelled in `SyncRuns` by the epoch and cursor it reads; its entity lists are not tied to that
  cursor, because they are read before it without the write lock.
- SyncRuns.NothingHidden: does not cover devices that expire, lose a recorded response or jump to the head through the
  websocket greeting; `SyncLosses.NeverHiddenIff` covers every run, and the epoch property tells such a client.
- The response of a pull omits the fold key, which a client rebuilds from the entity; replicas here keep it.
- TodoRuns.ReplicaConverges: does not compare the memo link, because deleting a memo for good clears it without a change.
- `TodoRepo::list`, whose cursor does not fit its order, and `TodoRepo::inventory`.
- Push.PushServer.PushItems: does not model two pushes at once or a failing write of a stored result.
- The blank-line counter of the formatter has no width, and the `u32` subtraction of the ZIP writer wraps as in a release
  build.
- `export_workspace_markdown_zip`: how names are chosen and made unique.
- HTTP, JSON and protobuf encodings, authentication, websockets, metrics and configuration.
