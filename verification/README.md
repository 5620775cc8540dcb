# Slotted pages, the heap file on them, and a poll server

A Dafny model of two programs of the repository, with proofs.

**The heap file** (`mini-db/04-heap-file`) stores variable-length records in
4096-byte pages. A page has a 6-byte header, records that grow up from it, and a
directory of 4-byte slots that grows down from the end. `page_insert` reuses the
lowest dead slot and compacts the page when contiguous space runs out;
`heap_insert` is first fit over the pages of a file.

**The poll server** (`linux-process-lab/06-network/05-poll/server.c`) keeps up to
100 client descriptors in a table that `poll`, an accept pass and a client pass
share.

## How the model is built

- `Bytes`, `SlotTable`, `TableOps`: bytes, 16-bit little-endian fields, C integer
  conversions; the slot table as a value, its layout invariant, and what
  compaction, insertion and deletion do to it.
- `PageValue`, `PageImage`, `PageWrites`: a page as a value (its table and the
  bytes between header and directory) and the 4096 bytes that encode it. Decoding
  is injective, so a claim about the value is a claim about every byte.
- `Compaction`, `PageOps`: the page operations on page values and their theorems.
- `SlottedPage`: `page.c` on a byte array changed in place, loops and `memmove`
  included; each method is proved to do to the encoded page what `PageOps` says.
- `ByteFile`, `PageFile`: a file as bytes with a cursor and system calls that
  may fail, and whole-page reads, writes and allocation on it.
- `HeapOps`, `HeapRuns`, `HeapExact`, `HeapBounds`, `LostRecord`: the heap file
  on sequences of pages, and its runs from an empty file.
- `HeapFile`: `heap_file.c` as a class on such a file, tied to `HeapOps`.
- `HeapSessions`: what the file stores, in terms of the answers callers got, when
  system calls may fail; `Session` carries what is said of traces and runs over to
  the bytes on disk.
- `PollServer`, `PollRounds`, `PollLoop`: the event loop as a state machine over
  any legal answers of the kernel, what one round and a whole run do in terms of
  these answers alone, and the same loop on an array.

## What is proved of compaction

`page_compact` moves the live records in slot order, but slot reuse can put a
record at the end of the record area under a low slot id. Compaction can then
overwrite a live record that it has not moved yet. The model keeps the code as it
is. So "compaction keeps the records", which the tests take for granted, does not
hold in general, and the project proves what does:

- where every byte of every record after a compaction comes from, on every page
  (`CompactedByte`);
- the exact condition, per record, per page, per insert and per run: the contents
  are kept for all possible bytes if and only if no lower live slot is moved onto a
  record that is still to be moved (`SurvivesIff`, `KeepsContentsIff`,
  `InsertKeepsOldIff`, `FaithfulIffClean`). The condition reads the slot table
  only, before the call, and takes one comparison per slot: no live record lies
  below its own destination (`NoClobberIff`);
- an insert that fits as the page stands never compacts and loses nothing, wherever
  the records lie (`InsertInPlace`), and any other one compacts first
  (`InsertNotInPlace`);
- a five-operation run that loses a record whatever the records contain
  (`SecondRecordOverwritten`);
- what holds in every run, clobbering or not: layout, record lengths, record ids,
  answers, placement (`ReachableLayout`, `RunKeepsLengths`, `RunAnswers`,
  `HeapInsertFirstFit`), and with failing system calls as well
  (`TraceKeepsLengths`, `TraceAnswers`);
- exactly which runs never reach a page with a clobbered slot (`CarefulIff`), and a
  discipline that keeps to them (`LastInFirstOutIsClean`).

## File size

The page count is a `uint32_t`, and the id of a new page passes through an `int`.
Runs may be of any length. What is said of them holds while the file has fewer
than 2^32 pages; from 2^31 pages on an insert that finds no room is refused. With
2^32 pages the count wraps, and an insert that finds no room among the pages it
still sees replaces an old page. `KeepsOthersIff` gives the exact condition under
which an insert keeps the other records, for files of every size, and
`WrappedInsert` what it does otherwise.

## Model

| member | source | states |
|---|---|---|
| Bytes.MemMove | mini-db/04-heap-file/page.c:139 | an overlapping move writes the source bytes as they were before it, and nothing else |
| SlotTable.LiveFits | mini-db/04-heap-file/page.c:123-146 | records that do not overlap have a total length of at most freeStart - 6, in whatever order they lie; so compaction has room for all of them |
| TableOps.OrderedNoClobber | mini-db/04-heap-file/page.c:129-144 | with the records in slot order, no move of a compaction reaches a record that is still to be moved |
| TableOps.CompactTableLayout | mini-db/04-heap-file/page.c:127-145 | compaction keeps the layout invariant and every slot's length, orders the records by slot, and leaves freeStart at 6 plus their total length |
| TableOps.NoClobberIff | mini-db/04-heap-file/page.c:129-144 | no move overwrites a record still to be moved if and only if no live record lies below its own destination |
| TableOps.PlaceTableNoClobber | mini-db/04-heap-file/page.c:50-68 | where nothing is clobbered, a placed record leaves it so if and only if every live record above its slot has that much room below it |
| TableOps.PlaceTableLayout | mini-db/04-heap-file/page.c:48-68 | placing a record keeps the layout, changes one slot, which was not live, and takes exactly the record and its directory entry from the reclaimable space |
| TableOps.PlaceTableOrdered | mini-db/04-heap-file/page.c:50-68 | a record placed in an ordered page leaves it ordered if and only if no live slot lies above its own |
| TableOps.KillSlotLayout | mini-db/04-heap-file/page.c:118 | a delete keeps layout and order, clobbers nothing that was not clobbered, and frees exactly the record's length |
| PageImage.Encode | mini-db/04-heap-file/page.h:11-20 | every page value has an image, which decodes to it: header, records and directory do not disturb each other |
| PageImage.DecodeInjective | mini-db/04-heap-file/page.h:11-20 | two images that decode to the same page agree in all 4096 bytes |
| PageImage.DecodeEncodes | mini-db/04-heap-file/page.h:11-20 | encoding undoes decoding on every image with a consistent header |
| PageWrites.AreaWrite | mini-db/04-heap-file/page.c:48 | a write between header and directory changes no slot and no header field |
| PageWrites.GrowDirectory | mini-db/04-heap-file/page.c:57-63 | a new slot takes the last four bytes of the record area and leaves every other slot as it was |
| Compaction.CompactedValid | mini-db/04-heap-file/page.c:123-146 | compaction keeps the layout invariant on every valid page, also when it destroys records, and makes all reclaimable space contiguous |
| Compaction.OriginInside | mini-db/04-heap-file/page.c:129-144 | when a record's turn comes, each of its bytes is still its own, or, if and only if a lower slot was moved onto it, a byte of a lower slot's record |
| Compaction.CompactedByte | mini-db/04-heap-file/page.c:129-144 | which byte of the original page each byte of each record is after compaction, on every valid page |
| Compaction.UnclobberedSurvives | mini-db/04-heap-file/page.c:129-144 | a record that no lower slot is moved onto keeps its bytes |
| Compaction.ClobberedWitness | mini-db/04-heap-file/page.c:129-144 | for a clobbered slot, one changed byte of its record gives a page on which the record is lost |
| Compaction.SurvivesIff | mini-db/04-heap-file/page.c:123-146 | a record is kept for all bytes the page may hold if and only if its slot is not clobbered |
| Compaction.KeepsContentsIff | mini-db/04-heap-file/page.c:123-146 | compaction keeps the map from slots to records for all bytes if and only if no slot is clobbered |
| Compaction.CompactedRest | mini-db/04-heap-file/page.c:129-145 | compaction leaves the dead slots, and every byte from the new freeStart up, as they were |
| Compaction.OrderedCompactionKeeps | mini-db/04-heap-file/page.c:123-146 | on an ordered page compaction loses nothing, leaves freeStart at 6 plus the total length, and the page ordered |
| Compaction.CompactionIdempotent | mini-db/04-heap-file/page.c:127-145 | a second compaction changes no byte of any valid page |
| PageOps.InsertSucceedsIff | mini-db/04-heap-file/page.c:17-46 | an insert succeeds if and only if the record is not empty and it, and a slot if none is dead, fit in the space no live record takes |
| PageOps.PlacedValid | mini-db/04-heap-file/page.c:48-70 | the placed record is read back exactly, and every other slot keeps its record |
| PageOps.InsertedLengths | mini-db/04-heap-file/page.c:17-71 | every insert leaves a valid page; a successful one adds one slot of the record's length that was not live, a refused one changes no length |
| PageOps.InsertInPlace | mini-db/04-heap-file/page.c:33-70 | an insert that fits between freeStart and the directory as they stand succeeds without compacting: record at freeStart, lowest dead slot or a new one, every other slot with its offset, every other byte as it was, every other record kept |
| PageOps.InsertNotInPlace | mini-db/04-heap-file/page.c:17-46 | any other insert compacts first: it then does what an insert into the compacted page does, or is refused and leaves the page compacted; an empty record changes nothing |
| PageOps.InsertedContents | mini-db/04-heap-file/page.c:17-71 | round trip and frame: with room as the page stands, or when nothing is clobbered, the new slot holds the record and every other slot what it held |
| PageOps.InsertKeepsOldIff | mini-db/04-heap-file/page.c:38-46 | an insert, refused or not, keeps all old records for all bytes if and only if it is empty, or freeStart, its length and four bytes if no slot is dead add up to at most 4096 less the directory, or nothing is clobbered |
| PageOps.InsertedOrdered | mini-db/04-heap-file/page.c:22-31 | a successful insert into an ordered page leaves it ordered if and only if no live slot lies above the returned one |
| PageOps.InsertedNoClobber | mini-db/04-heap-file/page.c:17-71 | after a successful insert into a page where nothing is clobbered nothing is clobbered either, if and only if the live records above the slot have room for it below them |
| PageOps.DeletedContents | mini-db/04-heap-file/page.c:102-121 | a delete removes exactly the named record and keeps layout and order |
| PageOps.DeletedFrame | mini-db/04-heap-file/page.c:118 | a delete keeps freeStart, the number of slots, the offset of the slot, all other slots and all bytes between header and directory |
| PageOps.PageStepBounds | mini-db/04-heap-file/page.c:17-146 | every operation keeps the layout and the bound of 818 slots, and no operation drops a slot from the directory |
| PageOps.PageRun | mini-db/04-heap-file/page.c:5-146 | every page reachable from page_init satisfies the layout invariant and has at most 818 slots |
| PageOps.ReachableLayout | mini-db/04-heap-file/page.c:5-146 | the layout of every reachable page spelled out: bounds, records inside, pairwise disjoint, total length at most freeStart - 6 |
| PageOps.DirectoryGrows | mini-db/04-heap-file/page.c:57-63 | over every run the number of slots never decreases |
| PageOps.MaxSlotsReached | mini-db/04-heap-file/page.c:57-63 | the bound is tight: each of up to 818 one-byte inserts into an empty page gets a slot of its own |
| SlottedPage.PageInit | mini-db/04-heap-file/page.c:5-15 | the array encodes the empty page: no slots, freeStart 6, and zeros after the header |
| SlottedPage.PageCompact | mini-db/04-heap-file/page.c:123-146 | the loop of overlapping moves and slot updates turns the encoded page into its compaction, byte for byte; no uint16_t value wraps |
| SlottedPage.FindDeadSlot | mini-db/04-heap-file/page.c:23-31 | the scan finds the lowest dead slot, or -1 when all are live |
| SlottedPage.PlaceRecord | mini-db/04-heap-file/page.c:48-70 | the stores that end an insert place the record in the encoded page, reusing a dead slot or growing the directory |
| SlottedPage.PageInsert | mini-db/04-heap-file/page.c:17-71 | the page and the returned slot are those of the insert on page values, which InsertInPlace and InsertNotInPlace determine; the unsigned free-space computation does not wrap |
| SlottedPage.PageGet | mini-db/04-heap-file/page.c:73-100 | the length of the record and its bytes in the buffer, or -1 and an untouched buffer; the page is only read |
| SlottedPage.PageDelete | mini-db/04-heap-file/page.c:102-121 | the two bytes of the length of the slot become 0 and no other byte changes, or -1 and no byte changes |
| ByteFile.File.Read | mini-db/04-heap-file/page.c:155 | read returns at most what is left after the cursor and advances it |
| ByteFile.File.Write | mini-db/04-heap-file/page.c:167 | write replaces the bytes at the cursor, extends the file if needed, and advances the cursor |
| ByteFile.WriteIsUpdate | mini-db/04-heap-file/page.c:161-171 | on an aligned file a page write replaces or appends exactly one page |
| PageFile.PageRead | mini-db/04-heap-file/page.c:148-159 | a read returns the page with that id, fails beyond the end, and does not depend on the cursor |
| PageFile.PageWrite | mini-db/04-heap-file/page.c:161-171 | a write changes exactly the page with that id, wherever the cursor was |
| PageFile.PageAllocate | mini-db/04-heap-file/page.c:173-190 | an empty page is appended and its number returned through uint32_t and int |
| PageFile.SamePageSameBytes | mini-db/04-heap-file/page.h:9-20 | pages of two files with the same value are the same bytes on disk |
| HeapOps.FitsIffInserted | mini-db/04-heap-file/heap_file.c:86-90 | the scan skips a page exactly when its reclaimable space does not suffice |
| HeapOps.HeapInsertSucceedsIff | mini-db/04-heap-file/heap_file.c:42-132 | success boundary for files of every size: length 1 to 4086, and an int left to number a new page or a page with room; length 0 appends an empty page, longer records change nothing |
| HeapOps.HeapInsertFirstFit | mini-db/04-heap-file/heap_file.c:80-131 | unless the page count wraps, a successful insert goes to the lowest page with room, or to a new one when none has room; no other page changes, although earlier ones were compacted in memory |
| HeapOps.AddedLengths | mini-db/04-heap-file/heap_file.c:89-98 | a record inserted in one page, old or new, adds one unused record id with its length and changes no other length |
| HeapOps.AddedRecords | mini-db/04-heap-file/heap_file.c:89-98 | and it changes no other record, if the page did not clobber |
| HeapOps.HeapInsertLengths | mini-db/04-heap-file/heap_file.c:42-132 | unless the page count wraps, an insert adds one unused record id with the record's length, or is refused and changes no record |
| HeapOps.KeepsOthersIff | mini-db/04-heap-file/heap_file.c:62-131 | for files of every size: a successful insert gives an unused id and keeps all other ids and lengths if and only if the count does not wrap or the page it then replaces is empty |
| HeapOps.WrappedInsert | mini-db/04-heap-file/heap_file.c:113-131 | an insert that wraps replaces the old page with the wrapped number by one with just the record, and appends an empty page |
| HeapOps.HeapInsertRecords | mini-db/04-heap-file/heap_file.c:42-132 | unless the page count wraps, and when the page that is kept was not clobbered, the map from record ids to bytes gains exactly the record |
| HeapOps.HeapDeletedRecords | mini-db/04-heap-file/heap_file.c:166-194 | for files of every size: a delete removes exactly the named record from the map, or nothing when the page lies beyond the count |
| HeapOps.HeapDeletedFrame | mini-db/04-heap-file/heap_file.c:166-194 | a delete changes the length of the named slot to 0 and nothing else: not the number of pages, the other pages, the directory, freeStart or the record bytes |
| HeapRuns.RunKeepsLengths | mini-db/04-heap-file/heap_file.c:42-194 | on runs of any length, clobbering or not, the file holds a record under exactly the expected ids, of the expected length, while it has fewer than 2^32 pages |
| HeapRuns.RunAnswers | mini-db/04-heap-file/heap_file.c:42-194 | what insert, delete and get answer after any run, in terms of what callers put in |
| HeapRuns.StepAllowed | mini-db/04-heap-file/heap_file.c:42-194 | what an operation does when no system call fails is among what it may do when they can |
| HeapRuns.AllowedKeepsLengths | mini-db/04-heap-file/heap_file.c:42-194 | one operation with failing system calls: ids and lengths follow its answer |
| HeapRuns.AllowedKeepsRecords | mini-db/04-heap-file/heap_file.c:42-194 | one operation with failing system calls: the records follow its answer, if no kept compaction clobbers |
| HeapRuns.CleanRunKeepsRecords | mini-db/04-heap-file/heap_file.c:42-194 | on runs whose kept compactions clobber nothing the file is the map from ids to the records put in |
| HeapExact.RunSameTables | mini-db/04-heap-file/heap_file.c:42-194 | runs that differ only in record bytes go through the same tables, and their inserts and deletes get the same answers |
| HeapExact.UnsafePlaces | mini-db/04-heap-file/heap_file.c:80-99 | an unsafe insert overwrites a certain byte of one record with a certain byte of another, on all files with these tables |
| HeapExact.FaithfulIffClean | mini-db/04-heap-file/heap_file.c:42-194 | while the file has fewer than 2^32 pages it holds at every point of a run what callers put in, for all record bytes, if and only if no insert of the run keeps a clobbering compaction |
| LostRecord.SecondRecordOverwritten | mini-db/04-heap-file/page.c:53-56 | a run of five operations after which the id of a record that was never deleted names ten bytes of another record |
| HeapBounds.StepAllSafeIff | mini-db/04-heap-file/heap_file.c:42-194 | where nothing is clobbered in any page, an operation is safe, and leaves it so exactly if it is careful |
| HeapBounds.CarefulIff | mini-db/04-heap-file/heap_file.c:42-194 | the careful runs are exactly those on which no slot is ever clobbered, and they lose nothing |
| HeapBounds.LastInFirstOutIsClean | mini-db/04-heap-file/heap_file.c:42-194 | runs that delete only the highest live slot of a page are careful and never lose a byte |
| HeapBounds.NoDeletesIsLastInFirstOut | mini-db/04-heap-file/heap_file.c:42-132 | runs without deletes are among them |
| HeapBounds.PackedInsert | mini-db/04-heap-file/heap_file.c:80-131 | first fit keeps the property that no record of a later page would fit in an earlier one |
| HeapBounds.FirstFitPairBound | mini-db/04-heap-file/heap_file.c:80-131 | after any number of inserts, while an int can number the pages, any two pages together use more than 4090 bytes for records and slots |
| HeapBounds.FirstFitSpaceBound | mini-db/04-heap-file/heap_file.c:80-131 | under the same condition the file has at most one page, or fewer than 2 * demand / 4090, where demand is the sum of length + 4 over the records |
| HeapFile.Heap.PageCount | mini-db/04-heap-file/heap_file.c:33-40 | the number of pages as a uint32_t, 0 when it cannot be found out |
| HeapFile.Heap.Insert | mini-db/04-heap-file/heap_file.c:42-132 | on a reliable file, exactly HeapInserted on the pages of the file; with failing system calls, success still stores the record, and failure changes nothing but perhaps an appended empty page |
| HeapFile.Heap.InsertInPage | mini-db/04-heap-file/heap_file.c:80-99 | one round of the scan: the page is stored, or left as it was on disk |
| HeapFile.Heap.InsertInNewPage | mini-db/04-heap-file/heap_file.c:113-131 | allocation, initialisation, insert and write of a new page |
| HeapFile.Heap.Get | mini-db/04-heap-file/heap_file.c:134-164 | the record's length and bytes, or -1 and an untouched buffer; the file is not changed |
| HeapFile.Heap.Delete | mini-db/04-heap-file/heap_file.c:166-194 | the named record is removed, and on disk the two bytes of its slot length become 0 and no other byte changes; or no byte changes |
| HeapFile.OtherPagesKeepBytes | mini-db/04-heap-file/heap_file.c:86-93 | after a successful insert every page but the record's is bit for bit as it was on disk |
| HeapSessions.TraceKeepsLengths | mini-db/04-heap-file/heap_file.c:42-194 | whatever system calls fail, on any file of well-formed pages: ids in use and lengths are those that the answers say |
| HeapSessions.TraceKeepsRecords | mini-db/04-heap-file/heap_file.c:42-194 | and the records are those that the answers say, if no kept compaction clobbered |
| HeapSessions.TraceAnswers | mini-db/04-heap-file/heap_file.c:42-194 | every answer agrees with the earlier ones: unused ids given, used ones removed, and records found under used ids with the right length, and with the right bytes if no kept compaction clobbered |
| HeapSessions.Perform | mini-db/04-heap-file/heap_file.c:42-194 | an operation on disk does and answers what the model allows, and exactly what it says when no system call fails |
| HeapSessions.Session | mini-db/04-heap-file/heap_file.c:42-194 | the states on disk and the answers of a session make a trace, an exact one when no system call fails |
| HeapSessions.ExactIsRun | mini-db/04-heap-file/heap_file.c:42-194 | an exact session on an empty file has the states and the answers of the run |
| PollServer.AcceptOneEffect | linux-process-lab/06-network/05-poll/server.c:147-167 | with fewer than 100 clients open a new connection goes into the lowest free slot, whose revents stay, is open, and is logged as accepted; with 100 the table and the open descriptors stay and it is logged as turned away |
| PollServer.AcceptOwned | linux-process-lab/06-network/05-poll/server.c:122-168 | storing or closing an accepted connection keeps every open descriptor in exactly one slot |
| PollServer.ClientStepEffect | linux-process-lab/06-network/05-poll/server.c:173-249 | a slot of the client pass frees its slot and closes its own descriptor exactly when the connection ended, failed or is broken, and no other, even when both branches close it |
| PollServer.FullIff | linux-process-lab/06-network/05-poll/server.c:150-167 | the search for a free slot fails exactly when 100 client connections are open |
| PollServer.PollInv | linux-process-lab/06-network/05-poll/server.c:101-115 | after a poll every slot holds its descriptor and the revents that poll answered for it, the log names the descriptors in use for which it answered POLLIN, and the invariant is kept |
| PollServer.AcceptInv | linux-process-lab/06-network/05-poll/server.c:122-168 | handling a new connection as AcceptOneEffect says keeps the invariant and what was reported of older ones |
| PollServer.CloseAgainInv | linux-process-lab/06-network/05-poll/server.c:238-248 | the second close of a round finds the descriptor closed and changes no connection |
| PollServer.ClientInv | linux-process-lab/06-network/05-poll/server.c:173-249 | a slot of the client pass keeps ownership and order, whatever recv returns |
| PollServer.RunInv | linux-process-lab/06-network/05-poll/server.c:98-250 | in every run, at every loop head, the connections accepted and not closed are exactly the pairwise distinct entries of slots 1 to 100; connections are read only after the last poll reported on them; clients are turned away only when 100 are open; a close that finds nothing follows the close of the same descriptor |
| PollRounds.RoundLog | linux-process-lab/06-network/05-poll/server.c:98-250 | the whole log of a round from the answers of the kernel: what poll reports; if and only if it reports the listening socket, one event per new connection in order, kept as long as there are fewer than 100 clients; then for each slot in use the read and the one or two closes that its answers call for |
| PollRounds.RoundOpen | linux-process-lab/06-network/05-poll/server.c:98-250 | after a round exactly these descriptors are open: the new connections that were kept, and the old ones except those whose slot poll reports broken or recv finds ended or failed |
| PollRounds.RoundCloses | linux-process-lab/06-network/05-poll/server.c:173-249 | the connection of a slot is closed and its slot freed in a round if and only if poll reports it broken, or reports POLLIN and recv finds it ended or failed |
| PollRounds.RoundReads | linux-process-lab/06-network/05-poll/server.c:98-250 | progress: a connection is read in a round once if poll answers POLLIN for its slot, and not at all otherwise |
| PollRounds.RunningIff | linux-process-lab/06-network/05-poll/server.c:98-115 | the loop goes on if and only if no poll has failed other than by a signal |
| PollRounds.FailedPollEndsRun | linux-process-lab/06-network/05-poll/server.c:107-115 | a poll that fails otherwise ends the run in the state before it, whatever the kernel would answer later |
| PollRounds.InterruptsLeaveNoTrace | linux-process-lab/06-network/05-poll/server.c:109-111 | rounds whose poll is interrupted by a signal can be left out of a run without any effect |
| PollServer.CleanupClosesAll | linux-process-lab/06-network/05-poll/server.c:252-260 | after the loop and the cleanup no descriptor is open, and the cleanup has closed none that was not open |
| PollLoop.Server.StoreClient | linux-process-lab/06-network/05-poll/server.c:147-167 | the scan on the array does what AcceptOneEffect determines |
| PollLoop.Server.HandleClient | linux-process-lab/06-network/05-poll/server.c:175-248 | the body of the client loop, with both closes, on the array |
| PollLoop.Server.ServeRound | linux-process-lab/06-network/05-poll/server.c:98-250 | the body of the event loop does the step of the state machine on the array |
| PollLoop.Server.Serve | linux-process-lab/06-network/05-poll/server.c:98-250 | the event loop, on any legal answers of the kernel, goes through the states of the run, keeps the invariant, and stops early exactly after the first poll that fails other than by a signal |
| PollLoop.Server.CleanUp | linux-process-lab/06-network/05-poll/server.c:252-260 | the final loop closes what the state machine closes |

## Left out

- Null pointers, messages, file modes, `heap_open` and `heap_close`: a closed heap file is modelled as one without a file.
- Partial reads and writes: a system call does all of its work or fails without effect.
- Files that are not a whole number of well-formed pages: `heap_open` accepts them, the page functions then read arbitrary headers.
- Crash consistency and concurrent access: the code has no log, no `fsync` and no locks.
- Aliasing between the record passed to an insert and the page: records are values.
- Byte order: the 16-bit fields are little-endian, as on the machines the code is built for; no claim depends on the order.
- `mini-db/03-slotted-page`, `mini-db/01-file-io`, `mini-db/02-disk-manager`: the same page code, and a simpler form of page I/O.
- The `events` field of the poll table: every slot in use asks for POLLIN.
- The poll server's message contents, socket setup, and runs ended by `exit(1)` in `set_nonblocking`.
- The other servers and labs of `linux-process-lab`: socket plumbing or near copies of the poll server.
- Rounds of the poll server whose accept loop never ends: a round is a finite list of accepted connections.
