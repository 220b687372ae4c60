# A verified model of the pragmaticDB storage engine

pragmaticDB keeps each table in its own page file. From the bottom up the engine is:

- slotted pages: 4096 bytes, an 8-byte header, 4-byte slots growing up and tuple bytes growing down,
  compacted in place;
- a buffer pool of ten frames per table: a write-back LRU cache with pins and dirty bits over the page file;
- a record manager that inserts first-fit, then compacts and retries, then allocates a page;
- tables with a scanning iterator, and rows laid out by a schema;
- a catalog with a binary file of its own;
- an executor for CREATE TABLE, INSERT, SELECT, DELETE and COMMIT.

The model follows the C++ classes with Dafny classes whose methods change arrays, sequences and maps where
the source does. Under each class lies a value-level specification (`PageLayout` and `Compaction` for pages,
`BufferPool` for the cache, `PagedRecords` for the bytes of a table's pages and `RecordStore` for the records
in them, `CatalogLayout` for the catalog file, `ValueText` for what texts mean, `Sessions` for what users see),
every method is proved to do to the abstract state what that specification says, and the properties of the
system are theorems about the specification.

The main results, hardest first:

1. **Statements mean what they say** (`Sessions.ViewRefines`). Through every layer below, whatever is
   evicted, reloaded or compacted meanwhile, each statement acts on lists of rows of values under table names:
   INSERT adds exactly the row that its literals mean, each for its own column, or fails as the first literal
   without a value does; DELETE leaves exactly the rows that do not meet its condition, in their order, and
   reports how many went; SELECT prints the list. What a literal means and how a value is printed is said
   character by character (`ValueText.FromStringMeans`, `ValueText.ToStringPrints`), and so is which literals in
   a WHERE select a row: those of the same value that are written as values are printed
   (`Sessions.WhereSelects`). A row inserted as 007 is not deleted by WHERE id = 007
   (`Sessions.WhereSelectsInserted`).
2. **Rows are conserved** (`Sessions.RowsAreConserved`). Over any session of legal statements a table's rows, as
   a bag of rows of values, are those it had plus those inserted minus those deleted; so a SELECT from a table
   created in the session shows exactly the inserted rows minus the deleted ones
   (`Sessions.SelectShowsInsertedMinusDeleted`).
3. **Restart** (`Execution.Restart`, `ServerSessions.RestartedSession`). After COMMIT, with nothing but SELECT
   since, a new catalog loaded from the directory is the same database: names, oids, columns, page lists,
   records, and so every scan. A session that a restart interrupts there is executed as one session: the
   server's methods go through the very databases that the session theorems speak of (`ServerSessions.RunSession`).
4. **The record manager, on bytes** (`RecordManagement.RecordManager.Insert`, `Delete`, `Update`). For all
   well-formed pages, whether or not compaction loses bytes on them, each method does to the pages what
   `PagedRecords` says. In every legal run ids are never reused, deleted records stay dead and records keep
   their lengths (`StoreRuns.NeverReused`, `StoreRuns.DeadForever`, `StoreRuns.LengthsRefineMap`).
5. **The record store is a map** from ids to bytes in every legal run in which no insertion compacts an unsafe
   page (`StoreRuns.StoreRefinesMap`). For one insertion that condition is exact: with given directories it keeps
   all records, whatever the tuple bytes, if and only if the pages it compacts are safe
   (`InsertionLoss.InsertionExact`). Pages stay safe if and only if growing updates are careful
   (`StoreRuns.CarefulExactly`); `CarelessRuns.CarelessRunLoses` is a legal run of four calls after which a record
   that nobody touched reads [3] instead of [2]. Insertion is space-optimal (`RecordStore.InsertSpaceOptimal`),
   and no method ever fails for want of a frame.
6. **Compaction** keeps every record if and only if no live tuple reaches above the new place of an earlier
   one (`Compaction.CompactionExact`). Insertions, deletions, compaction and updates in place keep that so; for
   an update that outgrows its room, `CompactionSafety.RegrownSafe` says exactly when, in terms of the directory
   before the call.
7. **The cache is transparent** over every run of clients with one pin per page (`CacheRuns.ReadYourWrites`).
   It evicts nothing while a frame is free (`CacheRuns.NothingGivesWay`), and then the least recently unpinned
   page (`LruRuns.EvictsLeastRecentlyUsed`). `BufferPool.UnpinExact`
   says exactly when an unpin keeps the LRU list right. With two pins it does not, and when every other frame is
   pinned, the next victim is the page still held (`BufferPool.PinnedPageEvicted`, `BufferPool.TwoPinsRun`).
8. **The catalog file** is laid out field by field as the source writes it (`CatalogLayout.FileIs`): the bytes
   written are the only ones of that layout (`CatalogFormat.FileIsEncoded`), and any file of it is loaded for what
   it says (`CatalogFormat.FileReads`). Pages and rows have their bytes in `DiskLayout`.
9. **Scans** visit every live record once, in page and then slot order; **rows** read back as they were written.

Where the documentation and the code differ, the model follows the code:

- `docs/limitations.md` lists no DELETE and no WHERE; the executor has both.
- The layout comment at `src/catalog/catalog.cpp:72-84` ends a table with its page ids; the code writes the
  next page id after them.
- `docs/persistance.md` has inserted rows stay in memory until COMMIT; eviction writes dirty pages earlier.

One behaviour that the statements' messages hide, and the model keeps: an INSERT whose row is too long for a
page, or has no bytes, reports success although nothing is stored. `Sessions.LongRowIsLost` is such a session,
with a table of 1022 INTEGER columns.

Sizes and ids follow the source's types: page header and slot fields are 16-bit and wrap where the source
casts, file fields are 32-bit, page ids are `int32_t`. Objects that are copied by value in the source
(values, columns, schemas, record ids) are datatypes. An unordered map is walked in an arbitrary order.

## Model

| member | source | states |
|---|---|---|
| PageLayout.InitializedPage | src/manager/page_data_manager.cpp:15-21 | an initialized page is well-formed, empty, labelled with its id, and has 4088 bytes free |
| PageLayout.InsertedPage | src/manager/page_data_manager.cpp:29-44 | an insertion that fits appends one slot, keeps the others' bytes, the disjointness of directory and tuples and the descending order, and uses the size plus 4 bytes of free space |
| PageLayout.DeletedPage | src/manager/page_data_manager.cpp:63-76 | a deletion empties one slot and changes nothing else, not even the free space |
| PageLayout.OverwrittenPage | src/manager/record_manager.cpp:137-142 | an update within the old length replaces one record and keeps the page well-formed and in order |
| PageLayout.RegrownPage | src/manager/record_manager.cpp:144-157 | a growing update replaces one record; the tuples stay in descending order if and only if no later slot is live |
| DiskLayout.NewPageBytes | src/manager/page_data_manager.cpp:15-21 | the bytes of a new page: id at 0, 4095 at 4, 0 at 6, little-endian, the rest untouched |
| DiskLayout.InsertedBytes | src/manager/page_data_manager.cpp:29-44 | an insertion by position: free offset at 4, slot count at 6, the tuple's offset and length in the four bytes after the directory, the tuple right below the others; no other byte changes |
| DiskLayout.DeletedBytes | src/manager/page_data_manager.cpp:63-76 | a deletion clears the two length bytes of the slot and no other byte |
| DiskLayout.OverwrittenBytes | src/manager/record_manager.cpp:137-142 | an update within the old length writes its bytes at the old offset and the slot's length, and no other byte |
| DiskLayout.RegrownBytes | src/manager/record_manager.cpp:144-157 | an update that outgrows the old length writes the tuple right below the others, its slot and the free offset, and no other byte |
| Compaction.LiveBytesFit | src/manager/page_data_manager.cpp:78-94 | on every well-formed page the live tuples together fit between the free area and the page end |
| Compaction.CompactedShape | src/manager/page_data_manager.cpp:78-94 | compaction leaves the page well-formed with descending tuples, the same slot ids and lengths, and exactly 4096 - 8 - 4 * slots - live bytes free |
| Compaction.CompactedSlots | src/manager/page_data_manager.cpp:78-94 | on a safe page the in-place moves change no record |
| Compaction.DescendingIsSafe | src/manager/page_data_manager.cpp:81-92 | descending live offsets make every move safe |
| Compaction.CompactionExact | src/manager/page_data_manager.cpp:78-94 | with a given directory compaction keeps all records, for all tuple bytes, if and only if no live tuple reaches above the new place of an earlier one |
| Compaction.UnsafeLosesData | src/manager/page_data_manager.cpp:81-92 | for every unsafe directory there are tuple bytes that compaction changes |
| Compaction.GrowThenCompactLoses | src/manager/record_manager.cpp:144-157 | a concrete page: insert [1], insert [2], update the first to [3, 4], compact, and the second record has become [3] |
| CompactionSafety.InsertedSafe | src/manager/page_data_manager.cpp:29-44 | after an insertion compaction is safe if and only if it was before |
| CompactionSafety.DeletedSafe | src/manager/page_data_manager.cpp:63-76 | a deletion keeps compaction safe |
| CompactionSafety.OverwrittenSafe | src/manager/record_manager.cpp:137-142 | an update within the old length keeps compaction safe |
| CompactionSafety.CompactedSafe | src/manager/page_data_manager.cpp:78-94 | compaction itself leaves the page safe for the next one |
| CompactionSafety.RegrownSafe | src/manager/record_manager.cpp:144-157 | after a growing update compaction is safe if and only if, in the directory before it, every later live tuple stays below the new places pushed down by the growth |
| CompactionSafety.LastGrowsSafely | src/manager/record_manager.cpp:144-157 | the last live record of a safe page can always grow |
| PageManagement.SpaceCheckExact | src/manager/page_data_manager.cpp:22-28 | the 16-bit space check equals the unbounded inequality if and only if the size is at most 65531 or the page has too little room for the wrapped sum; never more than 1022 slots |
| PageManagement.WrappedCheckAdmits | src/manager/page_data_manager.cpp:22-28 | sizes 65532 to 65535 pass the check on an initialized page, which has 4088 bytes |
| PageManagement.CompactedView | src/manager/page_data_manager.cpp:78-94 | seen as slots and free bytes, compaction of a safe page only gives the wasted bytes back |
| PageManagement.RoomyInserted | src/manager/page_data_manager.cpp:29-44 | insertion keeps header, slots, live and free bytes within the page, and uses exactly the record and its slot |
| PageManagement.PageDataManager.InitializePage | src/manager/page_data_manager.cpp:15-21 | whatever bytes were in the page, three header fields are written, and it is now empty, sound and labelled |
| PageManagement.PageDataManager.HasEnoughSpace | src/manager/page_data_manager.cpp:22-28 | the answer as computed in 16 bits; for sizes up to 65531, whether the record and its slot fit |
| PageManagement.PageDataManager.InsertTuple | src/manager/page_data_manager.cpp:29-44 | succeeds if and only if the record and its slot fit; then exactly the specified bytes are written, the record is in a new last slot and the page stays in order; else no byte changes; defined for every size on which the wrapped check is right |
| PageManagement.PageDataManager.GetTuple | src/manager/page_data_manager.cpp:45-61 | returns the slot's bytes, for every slot id below the count |
| PageManagement.PageDataManager.DeleteTuple | src/manager/page_data_manager.cpp:63-76 | zeroes the slot's length if its id is below the count, and otherwise changes no byte |
| PageManagement.PageDataManager.CompactOnePage | src/manager/page_data_manager.cpp:78-94 | the loop over the page array does exactly the specified moves, on every well-formed page; on a safe one all records survive |
| PageManagement.PageDataManager.MoveSlot | src/manager/page_data_manager.cpp:86-91 | one iteration: an overlapping move down from the write pointer, and the slot's new offset |
| BufferPool.FetchKeeps | src/manager/buffer_pool_manager.cpp:46-71 | a fetch keeps the invariant and every stored page's bytes, whatever it evicts, and hands out a frame with the page pinned |
| BufferPool.NewKeeps | src/manager/buffer_pool_manager.cpp:73-92 | an allocation keeps the invariant and every stored page, and hands out a zeroed pinned frame for a fresh id |
| BufferPool.FetchTakesFree | src/manager/buffer_pool_manager.cpp:17-71 | while a frame is free, a fetch of a page that is not resident takes the head of the free list: the table gains exactly that page, every other page stays in its frame, the disk is unchanged |
| BufferPool.NewTakesFree | src/manager/buffer_pool_manager.cpp:17-92 | and so does an allocation |
| BufferPool.UnpinKeeps | src/manager/buffer_pool_manager.cpp:94-108 | an unpin succeeds if and only if the page is resident and pinned, and changes one frame's pins and dirty bit |
| BufferPool.UnpinExact | src/manager/buffer_pool_manager.cpp:102-107 | the LRU list stays exact if and only if this was the only pin; the cache stays coherent if and only if changed bytes are marked dirty |
| BufferPool.PinnedPageEvicted | src/manager/buffer_pool_manager.cpp:94-108 | with two pins, one unpin and all other frames pinned, the next fetch of another page evicts the page that is still pinned, and its last unpin fails |
| BufferPool.TwoPinsRun | src/manager/buffer_pool_manager.cpp:46-108 | in full on a pool of one frame: fetch page 0 twice, unpin it once, fetch page 1 |
| BufferPool.UnpinStore | src/manager/buffer_pool_manager.cpp:94-108 | unpinning as dirty stores the page, with its frame's bytes; a page only ever unpinned clean is not stored |
| BufferPool.FlushKeeps | src/manager/buffer_pool_manager.cpp:110-120 | a flush leaves every stored page's bytes and the page clean |
| BufferPool.FlushSetKeeps | src/manager/buffer_pool_manager.cpp:122-126 | flushing all pages puts every stored page on the disk as it is |
| BufferPool.DeleteKeeps | src/manager/buffer_pool_manager.cpp:128-145 | a deletion succeeds if and only if the page is resident and unpinned, writes back what is dirty, forgets the page, appends its frame to the free list, and keeps stored bytes |
| BufferPool.FetchWritesContent | src/manager/buffer_pool_manager.cpp:46-71 | whatever a fetch writes to the disk are bytes the page has anyway |
| BufferPool.RemoveNodeAt | src/manager/buffer_pool_manager.cpp:32-37 | erasing through the stored iterator removes exactly that node of the LRU list |
| BufferManagement.DiskManager.WritePage | src/manager/disk_manager.cpp:11-21 | the page's bytes are in the file, the other pages as before |
| BufferManagement.DiskManager.ReadPage | src/manager/disk_manager.cpp:23-32 | delivers what was last written to the page, and promises nothing for a page never written |
| BufferManagement.BufferPoolManager.constructor | src/manager/buffer_pool_manager.cpp:4-15 | a new pool satisfies the invariant with nothing mapped or pinned, and every frame free, in order |
| BufferManagement.BufferPoolManager.GetFreeFrameOrVictim | src/manager/buffer_pool_manager.cpp:17-30 | the first free frame; only when none is free, the front of the LRU list; fails if and only if both are empty |
| BufferManagement.BufferPoolManager.PinFrame | src/manager/buffer_pool_manager.cpp:32-37 | the frame leaves the LRU list and the position index, if it is there |
| BufferManagement.BufferPoolManager.UnpinFrame | src/manager/buffer_pool_manager.cpp:39-44 | the frame goes to the end of the LRU list, unless it is already there |
| BufferManagement.BufferPoolManager.FetchPage | src/manager/buffer_pool_manager.cpp:46-71 | the objects change as the specification of a fetch says, for whatever the disk reads |
| BufferManagement.BufferPoolManager.NewPage | src/manager/buffer_pool_manager.cpp:73-92 | the objects change as the specification of an allocation says |
| BufferManagement.BufferPoolManager.UnpinPage | src/manager/buffer_pool_manager.cpp:94-108 | the objects change as the specification of an unpin says |
| BufferManagement.BufferPoolManager.FlushPage | src/manager/buffer_pool_manager.cpp:110-120 | the objects change as the specification of a flush says |
| BufferManagement.BufferPoolManager.FlushAllPages | src/manager/buffer_pool_manager.cpp:122-126 | flushing page by page, in any order of the page table, flushes the whole set |
| BufferManagement.BufferPoolManager.DeletePage | src/manager/buffer_pool_manager.cpp:128-145 | the objects change as the specification of a deletion says |
| CacheRuns.StepKeeps | src/manager/buffer_pool_manager.cpp:17-145 | every operation of a client with one pin per page keeps the invariant, pinned pages in their frames, and stored bytes |
| CacheRuns.ReadYourWrites | src/manager/buffer_pool_manager.cpp:46-145 | after any run a stored page holds the bytes last written to it |
| CacheRuns.FetchAfterRun | src/manager/buffer_pool_manager.cpp:46-71 | a fetch after any run returns those bytes, or null only when every frame is pinned |
| CacheRuns.FreeFrameFirst | src/manager/buffer_pool_manager.cpp:17-92 | in every state of a run with a free frame, bringing a page in evicts nothing and writes nothing |
| CacheRuns.NothingGivesWay | src/manager/buffer_pool_manager.cpp:17-145 | a run that asks for no more frames than are free leaves every resident page that it does not delete in its frame, and without flush or deletion the disk as it was |
| LruRuns.EvictsLeastRecentlyUsed | src/manager/buffer_pool_manager.cpp:17-44 | after any run, when no frame is free, a fetch of a page that is not resident evicts the page that nobody holds and whose last unpin is the longest ago |
| LruRuns.NewEvictsLeastRecentlyUsed | src/manager/buffer_pool_manager.cpp:17-92 | and so does an allocation |
| PageSessions.NeverNull | src/manager/record_manager.cpp:24-27 | with nothing pinned FetchPage and NewPage never return null |
| PageSessions.SessionStarts | src/manager/record_manager.cpp:24-41 | fetching one page pins exactly that one, with its stored bytes in its frame |
| PageSessions.NewSessionStarts | src/manager/record_manager.cpp:83-88 | allocating a page pins exactly that one, under an id that is neither resident nor on the disk |
| PageSessions.SessionWrites | src/manager/record_manager.cpp:54-60 | writing the pinned page changes no other page's bytes |
| PageSessions.SessionEnds | src/manager/record_manager.cpp:35-41 | unpinning it ends with nothing pinned, and only that page's bytes changed |
| RecordStore.InsertIsMapInsert | src/manager/record_manager.cpp:44-97 | sizes 1 to 4084 get an id never issued before, and all other records keep their bytes; any other size outside 65532 to 65535 changes no record |
| RecordStore.InsertSpaceOptimal | src/manager/record_manager.cpp:50-96 | a page is allocated if and only if header, slots, live bytes and the new record exceed 4096 bytes on every existing page |
| RecordStore.DeleteIsMapRemove | src/manager/record_manager.cpp:99-110 | deletion succeeds if and only if the id was ever issued, empties it, and changes no other record |
| RecordStore.UpdateIsMapUpdate | src/manager/record_manager.cpp:112-158 | an update replaces one live record or changes nothing, and always succeeds within the old length |
| PagedRecords.CompactedLengths | src/manager/page_data_manager.cpp:78-94 | whether or not it loses bytes, compaction keeps every length and slot and frees all the slack |
| PagedRecords.InsertFacts | src/manager/record_manager.cpp:44-97 | an insertion on the bytes chooses the id and the pages of the record store's insertion even where compaction is unsafe, and changes no other record's length; unless it compacts an unsafe page, the records are the same too |
| PagedRecords.InsertRefines | src/manager/record_manager.cpp:44-97 | unless one of the pages it compacts is unsafe, an insertion on the bytes is the record store's insertion |
| InsertionLoss.CompactsAlike | src/manager/record_manager.cpp:50-82 | the directories alone decide which pages an insertion compacts |
| InsertionLoss.InsertionExact | src/manager/record_manager.cpp:44-97 | with given directories an insertion keeps all records, for all tuple bytes, if and only if every page it compacts on its way can be compacted safely |
| PagedRecords.DeleteRefines | src/manager/record_manager.cpp:99-110 | a deletion on the bytes is the record store's deletion, and keeps compaction safe |
| PagedRecords.UpdateRefines | src/manager/record_manager.cpp:112-158 | an update on the bytes is the record store's update, and keeps compaction safe if and only if it is in place or the directory has room for the growth |
| RecordManagement.RecordManager.Get | src/manager/record_manager.cpp:20-42 | returns the record if it is live; the pages stay as they are, and stay on the disk if they were |
| RecordManagement.RecordManager.HasEnoughSpaceForInsert | src/manager/record_manager.cpp:8-14 | computes in 16 bits what the page manager's check does, for every size; up to 65531 it is whether the record and its slot fit |
| RecordManagement.RecordManager.Insert | src/manager/record_manager.cpp:44-97 | first fit, then compact and retry, then a new page: the pages' bytes and the id are those of the specified insertion, whatever the cache does, for all well-formed pages; unless it compacts an unsafe page, the records are those of the record store's insertion |
| RecordManagement.RecordManager.FirstPass | src/manager/record_manager.cpp:50-65 | the record goes to the first page it fits, or no byte changes and it fits none |
| RecordManagement.RecordManager.SecondPass | src/manager/record_manager.cpp:66-82 | the record goes to the first page it fits after compaction, or all pages are compacted and it fits none |
| RecordManagement.RecordManager.TryInsert | src/manager/record_manager.cpp:50-65 | one page of the first pass: the record goes there if and only if it fits |
| RecordManagement.RecordManager.CompactAndTryInsert | src/manager/record_manager.cpp:66-82 | one page of the second pass: compacted, and the record goes there if and only if it then fits |
| RecordManagement.RecordManager.InsertOnNewPage | src/manager/record_manager.cpp:83-96 | a fresh page with the record, or a used-up id and the invalid record id if it is too long |
| RecordManagement.RecordManager.Delete | src/manager/record_manager.cpp:99-110 | the specified deletion, on the bytes and in the store; compaction stays safe |
| RecordManagement.RecordManager.Update | src/manager/record_manager.cpp:112-158 | the specified update, on the bytes and in the store; compaction stays safe if and only if the directory before the call had room below it for the longer record |
| RecordManagement.RecordManager.UpdateOnPage | src/manager/record_manager.cpp:123-157 | both branches, byte for byte; refused if and only if the slot is missing or empty or the new bytes find no room |
| RecordManagement.RecordManager.GetSlotCount | src/manager/record_manager.cpp:161-168 | the number of slots of the page in the store |
| RecordManagement.RecordManager.Flush | include/manager/record_manager.h:16 | afterwards the disk has every page of the table as it is |
| RecordManagement.RecordManager.RestoredLike | src/catalog/catalog.cpp:170-172 | a record manager just started over flushed pages, given the page list and next id, holds the same records |
| StoreRuns.StoreRefinesMap | src/manager/record_manager.cpp:20-158 | after any legal run, from any pages, in which no insertion compacts an unsafe page, an id holds exactly what the calls' results say |
| StoreRuns.StepCounts | src/manager/record_manager.cpp:20-158 | what each legal call does: ids and lengths always as reported, the records too unless it compacts an unsafe page, and safety stays if and only if the call is careful |
| StoreRuns.CarefulIsFaithful | src/manager/record_manager.cpp:112-158 | in a run from safe pages whose growing updates are careful no insertion compacts an unsafe page |
| StoreRuns.CarefulExactly | src/manager/record_manager.cpp:112-158 | a legal run from a safe state is careful if and only if compaction is safe in all its states |
| StoreRuns.LengthsRefineMap | src/manager/record_manager.cpp:20-158 | after any legal run, careful or not, each record has the length that the calls' results say |
| CarelessRuns.CarelessRunLoses | src/manager/record_manager.cpp:44-158 | insert [1], insert [2], update the first to [3, 4], insert 4084 bytes: legal, reported as such, not faithful, and the second record reads [3] |
| CarelessRuns.HarmlessRun | src/manager/record_manager.cpp:20-158 | the same but for a read in place of the last insertion: not careful, yet faithful, and the second record reads [2] |
| StoreRuns.NeverReused | src/manager/record_manager.cpp:44-97 | no two insertions of a legal run return the same id, careful or not |
| StoreRuns.NewIdsAreNew | src/manager/record_manager.cpp:44-97 | no insertion of a legal run returns an id issued before the run |
| StoreRuns.DeadForever | src/manager/record_manager.cpp:99-142 | once an id is deleted, it stays without a record and updating it fails, whatever is legally called |
| StoreScan.ScanExact | src/utils/table_iterator.cpp:17-46 | the scan contains an id if and only if its record is live |
| StoreScan.ScanOrdered | src/utils/table_iterator.cpp:17-46 | the scan is in page order, then slot order, without repeats |
| StoreScan.EmptiedScan | src/query/executor.cpp:123-125 | deleting a set of records takes exactly those out of the scan and keeps the order of the rest |
| StoreScan.InsertScan | src/manager/record_manager.cpp:44-97 | an insertion puts one id into the scan and keeps the order of the others |
| StoreScan.InsertRows | src/manager/record_manager.cpp:44-97 | the scanned rows, as a multiset, gain exactly the inserted one |
| StoreScan.InsertionOrder | src/manager/record_manager.cpp:50-96 | with rows of one length and nothing deleted, the scan returns them in insertion order |
| TableManagement.FindOnPage | src/utils/table_iterator.cpp:23-34 | the inner loop stops at the page's next live record or passes the page, skipping nothing |
| TableManagement.FindLive | src/utils/table_iterator.cpp:17-46 | the outer loop ends at the next live record of the table or at the end, and terminates |
| TableManagement.TableIterator.Next | src/utils/table_iterator.cpp:17-46 | what is ahead of the iterator is what was ahead less its own record; the pages are unchanged |
| TableManagement.TableIterator.Current | src/utils/table_iterator.cpp:9-14 | the row under the iterator is its record's bytes |
| TableManagement.TableIterator.Equals | src/utils/table_iterator.cpp:48-50 | equal if and only if on the same record id |
| TableManagement.TableManager.Begin | src/manager/table_manager.cpp:23-37 | everything is ahead: the whole scan |
| TableManagement.TableManager.InsertTuple | src/manager/table_manager.cpp:6-8 | inserts the tuple's bytes into the pages, and where they are safe to compact into the store |
| TableManagement.TableManager.DeleteTuple | src/manager/table_manager.cpp:10-12 | the specified deletion in the table's store |
| TableManagement.TableManager.GetTuple | src/manager/table_manager.cpp:14-21 | the record's bytes, or an empty row |
| Rows.MakeSchema | src/catalog/schema.cpp:3-9 | offsets are the lengths of the columns before, and the length their sum |
| Rows.SerializeToChar | src/type/value.cpp:14-23 | writes exactly the value's bytes at their place, nothing for a value without type |
| Rows.Tuple.constructor | src/type/tuple.cpp:3-9 | the buffer holds the values' bytes, column after column, and zeros where no value was given |
| Rows.Tuple.GetValue | src/type/tuple.cpp:11-18 | decodes exactly the column's bytes |
| Rows.RowRoundTrip | src/type/tuple.cpp:3-18 | reading column i of a built row gives value i, for every schema |
| Rows.ValueRoundTrip | src/type/value.cpp:14-37 | a value deserializes from its own bytes |
| DiskLayout.ValueBytes | src/type/value.cpp:14-23 | a row by position: right after the values before it, an INTEGER is four little-endian bytes, a BOOLEAN one, both two's complement |
| ValueText.PrintParse | src/factory/value_factory.cpp:4-43 | what is printed parses back: an integer to itself, a truth value to 1 or 0 |
| ValueText.FromStringMeans | src/factory/value_factory.cpp:4-31 | for every text: a BOOLEAN is 1 or 0 if and only if the text spells true or false up to case, and else refused; an INTEGER is the signed positional value of the digits after white space and at most one sign, if there are digits and it fits 32 bits, and else an exception that escapes |
| ValueText.ToStringPrints | src/factory/value_factory.cpp:33-43 | exactly one text is printed for a value: true or false; or a minus sign if and only if the integer is negative and the numeral of its absolute value without leading zeros |
| ValueText.PrintsExactly | src/factory/value_factory.cpp:4-43 | a text is what a value prints as if and only if it means that value and is in the printed form |
| CatalogFormat.CatalogRoundTrip | src/catalog/catalog.cpp:86-178 | reading what was written gives the same next oid and tables in their order, and consumes exactly those bytes |
| CatalogFormat.FileIsEncoded | src/catalog/catalog.cpp:86-125 | the bytes written have every field at its offset: next oid, table count, and per table oid, name, columns with type codes 0, 1 and 2, page ids, next page id, lengths and numbers little-endian; and no other bytes have |
| CatalogFormat.FileReads | src/catalog/catalog.cpp:127-178 | any bytes of that layout are read as what they say, to the last one |
| CatalogFormat.TableHolds | src/catalog/catalog.cpp:98-124 | the layout of one table, at any offset of a file |
| CatalogFormat.ByOidIs | src/catalog/catalog.cpp:175 | of the entries with one oid the last one counts |
| CatalogFormat.ByNameIs | src/catalog/catalog.cpp:176 | and so it does of those with one name |
| CatalogFormat.TextReads | src/catalog/catalog.cpp:10-22 | a length-prefixed string reads back and leaves the rest of the file |
| CatalogFormat.WriteTable | src/catalog/catalog.cpp:98-124 | the loops over columns and pages append the table's fields, each at its offset in the layout, behind what was written |
| CatalogFormat.LoadTable | src/catalog/catalog.cpp:136-166 | the loops read, from any bytes, the table that the format describes: of bytes in the layout of a table exactly this one, and no byte more |
| CatalogManagement.Catalog.CreateTable | src/catalog/catalog.cpp:26-44 | refused without a change if the name is taken; else a table without rows under a fresh oid, and the catalog saved; the catalog consists of what it did, and new objects |
| CatalogManagement.Catalog.FindsTable | src/catalog/catalog.cpp:46-60 | a lookup finds the table of that name, and fails only for an unknown name |
| CatalogManagement.Catalog.GetAllTables | src/catalog/catalog.cpp:62-68 | every table once |
| CatalogManagement.Catalog.SaveCatalog | src/catalog/catalog.cpp:86-125 | the file says of this catalog, field by field, what it is, whatever order the tables are walked in, and nothing else changes |
| CatalogManagement.Catalog.WriteFile | src/catalog/catalog.cpp:90-124 | the bytes written are a file of the layout, with the next oid and a list that names each table once |
| CatalogManagement.Catalog.LoadCatalog | src/catalog/catalog.cpp:127-178 | from any file, the catalog becomes what the file describes, and a file of the layout describes what it says; each table over its own page file; later entries replace earlier ones; it consists of new objects and page files |
| CatalogManagement.Catalog.RestoreTable | src/catalog/catalog.cpp:168-173 | a table from its entry, over the page file of its oid |
| CatalogManagement.Restarted | src/catalog/catalog.cpp:127-178 | a catalog loaded over the directory of a committed one has the same oids, names, columns and records |
| TableStatements.InsertRow | src/query/executor.cpp:54-55 | the store gains the row's bytes, and all rows stay rows of the schema |
| TableStatements.SelectRows | src/query/executor.cpp:67-75 | every live row printed, in scan order, or an error if a column cannot be printed; nothing changes |
| TableStatements.PrintCurrent | src/query/executor.cpp:69-74 | the cells of the row under the iterator, printed in column order, or an error for an unprintable column |
| TableStatements.FindColumn | src/query/executor.cpp:94-105 | the first column of the name, if there is one |
| TableStatements.ConditionFor | src/query/executor.cpp:94-121 | no WHERE means every row, a WHERE on a name that no column has an error, and else the text is compared in the first column of the name |
| TableStatements.CollectIds | src/query/executor.cpp:108-121 | exactly the ids of the rows that meet the condition, each once |
| TableStatements.DeleteIds | src/query/executor.cpp:123-125 | all collected ids are still valid when their turn comes, and exactly they are deleted |
| TableStatements.DeleteRows | src/query/executor.cpp:86-127 | fails on an unknown column; else exactly the rows whose printed cell equals the text go, the others keep their order, and the count is theirs |
| Execution.Executor.ExecuteCommit | src/query/executor.cpp:25-33 | afterwards the catalog file and the page files hold the whole database, which is unchanged |
| Execution.Executor.ExecuteCreate | src/query/executor.cpp:35-42 | a new table without rows, made of new objects, or a failure if the name is taken |
| Execution.Executor.ParseValues | src/query/executor.cpp:49-53 | the values that the literals mean, each for its own column, or the outcome of the first that has none |
| Execution.ReadsOnce | src/query/executor.cpp:49-53 | literals are a row if and only if each means a value of its own column, value i from literal i; else they are refused or escape as the first one without a value does; there is one such outcome |
| Execution.Executor.ExecuteInsert | src/query/executor.cpp:45-60 | one record more in that table's store only; a refused value is a failure, any other parse exception escapes, and neither changes anything |
| Execution.Executor.ExecuteSelect | src/query/executor.cpp:62-84 | the printed rows and their number; the database, and being committed, stay |
| Execution.Executor.ExecuteDelete | src/query/executor.cpp:86-132 | in that table only, exactly the rows of the condition go, and their number is reported |
| Execution.Executor.Execute | src/query/executor.cpp:9-23 | every statement has its effect and leaves a valid database; only CREATE TABLE adds to what the catalog consists of, and that is new |
| CatalogManagement.Catalog.NothingIsValid | main.cpp:11-12 | a new catalog over an empty directory is valid, and is the empty database |
| Execution.StartServer | main.cpp:11-12 | a new catalog filled from the catalog file, or empty without one, made of new objects and page files |
| Execution.Restart | src/query/executor.cpp:25-33 | loading after COMMIT, with only SELECT in between, gives the same database, committed again, made of new objects and of the old page files |
| Sessions.ViewRefines | src/query/executor.cpp:9-132 | every statement does to the relations of values under table names what its meaning says, and reports the same |
| Sessions.RowAdded | src/query/executor.cpp:45-60 | an inserted row reads back as the values given, zeros in columns without one, with the others in their order |
| Sessions.RowNotAdded | src/manager/record_manager.cpp:44-97 | a row of no bytes, or of more than 4084 outside 65532 to 65535, leaves the table as it was |
| Sessions.RowsDeletedFromView | src/query/executor.cpp:108-127 | a deletion leaves the rows that do not meet the condition, in order, and counts the others |
| Sessions.WhereSelects | src/query/executor.cpp:112-120 | a WHERE text selects a row with a given value if and only if it means that value and is in the printed form |
| Sessions.WhereSelectsInserted | src/query/executor.cpp:45-121 | a row inserted with a literal is selected by the same literal if and only if that is in the printed form, and by another one if and only if that is and means the same |
| Sessions.SelectShows | src/query/executor.cpp:62-84 | the result has the table's rows in their order, with each value printed in its place, and their number; or an error for a column that cannot be printed |
| Sessions.RowsAreConserved | src/query/executor.cpp:45-132 | over any session of legal statements, the bag of rows of a table plus those deleted is the bag it had plus those inserted |
| Sessions.StepConserves | src/query/executor.cpp:45-132 | each statement conserves a table's rows as a bag: only the row given comes, only the rows that meet the condition go |
| Sessions.RemainingAndMeeting | src/query/executor.cpp:108-127 | the rows a DELETE leaves and the rows it takes are together the rows there were |
| Sessions.RowsAreCounted | src/query/executor.cpp:45-132 | in numbers: the rows at the end are those at the start, plus the successful insertions, minus the reported deletions |
| Sessions.SelectShowsInsertedMinusDeleted | src/query/executor.cpp:62-84 | of a table created in the session, SELECT shows the inserted rows minus the deleted ones, as a bag |
| Sessions.LongRowIsLost | src/query/executor.cpp:45-60 | a session with a table of 1022 INTEGER columns: the INSERT reports one row, the SELECT after it shows none |
| Sessions.ShownInInsertionOrder | src/query/executor.cpp:45-84 | a table created in a session and never deleted from shows its rows in the order they were inserted |
| ServerSessions.RunSession | src/query/executor.cpp:9-23 | executing statements one after the other goes through the databases of a session, reports its results, and leaves a valid catalog, committed if the statements end with COMMIT and SELECTs |
| ServerSessions.Serve | main.cpp:11-13 | a server started over an empty directory executes a session on the empty database |
| ServerSessions.Resume | main.cpp:11-13 | a server started again over a committed catalog's files executes a session on the database that was committed |
| ServerSessions.RestartedSession | main.cpp:11-13 | statements that end committed, a restart, and more statements are together one session |
| ServerSessions.SaneIsLegalThroughout | src/query/executor.cpp:35-60 | a check of the statements made before any of them is executed, against the tables there are, suffices for all of them to be legal when their turn comes |
| ServerSessions.EffectGrows | src/query/executor.cpp:25-132 | a statement leaves names and columns of the tables there are, adds a page id at most to each, and only CREATE TABLE adds a table |

## Left out

- The network server, the parser, `main.cpp` and the benchmark: statements start as values.
- File streams: a page file is a map from page ids to 4096 bytes, the catalog file a byte sequence; a read of a page never written gives arbitrary bytes. A file that cannot be opened or written is not modelled.
- Wording of result messages; results keep success, the number in the message, and the rows.
- Null pointers given for data, sizes or out-parameters.
- Crashes: a catalog save is atomic here, and nothing is said about a restart without a preceding COMMIT, when CREATE TABLE may have saved page lists of pages that were not flushed.
- RecordManagement.RecordManager.Insert: excludes sizes 65532 to 65535, for which the space check wraps (`PageManagement.SpaceCheckExact`, `PageManagement.WrappedCheckAdmits`) and the source writes outside the page, and page files of 2^31 bytes, where the file offset, an `int`, would overflow. `TableManager.InsertTuple` and `Executor.ExecuteInsert` inherit both, and `Sessions.RowNotAdded` the sizes.
- RecordManagement.RecordManager.Get: record ids are invalid or on a page of the table, likewise for `Delete` and `Update`; other ids would read pages the table does not own.
- CacheRuns.StepKeeps: clients hold at most one pin per page and mark what they changed dirty, as the record manager does; what happens otherwise is in `BufferPool.UnpinExact` and `BufferPool.PinnedPageEvicted`.
- ServerSessions.RunSession: goes on after an exception that leaves `Execute`, as a caller that catches it would; the source's server has no such handler and would end.
- Execution.Executor.ExecuteInsert: not more values than columns, since the source then reads past the column list.
- CatalogManagement.Catalog.CreateTable: requires names and column lists shorter than 2^32, and an oid counter that does not wrap; a leftover page file of an oid not yet given out cannot occur, because every CREATE TABLE saves the counter.
- CatalogManagement.Catalog.LoadCatalog: is called on an empty catalog, as at startup; a type code that is no type is read as the invalid type, which behaves the same.
- Values whose stored `std::any` does not match their type: a value's type is that of its content.
- `std::string` is a sequence of single-byte characters; `toupper` is that of the C locale.
