# LuaDB verification

LuaDB is a small database and scripting host: the LMDB storage engine, a Lua binding with
multi-segment keys, a JSON library and a FastCGI stream layer. This project models the parts
of it whose correctness is least obvious and proves what those parts are for. `dafny verify
dfyconfig.toml` checks everything.

Code that changes state in place is modelled as such: page-number lists are arrays, a page is
a class over its byte array, a transaction, a cursor, a stream, a text buffer and a JSON node
are classes, and every loop has its invariants. Each of these methods is proved against a
specification on values, and the properties are proved about that specification.

## What is modelled

**Page-number lists** (`midl.dfy`, `midl_sort.dfy`, `freelist.dfy`, `dirty_list.dfy`,
`nested_commit.dfy`, `dirty_room.dfy`). The quicksort with its fixed stack, the in-place merge with its sentinel,
the two binary searches, finding, taking and putting back a run of pages, returning loose pages
through the tail of the same array, filling the free-page records, the merge of a nested
transaction's dirty and spill lists into its parent's, and the room counter that gives the
length of that merge.

**Pages and transactions** (`pages.dfy`, `mvcc.dfy`, `mvcc_content.dfy`, `mvcc_runs.dfy`, `page_txn.dfy`). `Pages` says where every
page of the file is from the writer's point of view; `Mvcc` is a state machine of one writer,
any number of readers that take no lock, and crashes; `MvccContent` says what each committed version
holds, in terms of the version before and the writes of its transaction; `PageTxn.Txn` is the code of page
allocation, touch, loosening, overflow free and free-list saving over the arrays above, and
each of its methods is proved to take one of the steps of `Pages`, which `Mvcc` is built on.

**Slotted pages** (`slotted_page.dfy`, `page_split.dfy`). A page of bytes refines a sequence of
nodes; the split of a page refines the insertion of one node into that sequence.

**Search** (`btree.dfy`, `cursor.dfy`). A cursor with its stack of pages over any well-formed
tree: set, first, last, next, previous and the move to a sibling.

**FastCGI streams** (`fastcgi.dfy`, `fcgi_wire.dfy`, `fcgi_reader.dfy`, `fcgi_writer.dfy`, `fcgi_stream.dfy`).
Records as section 3.3 of the FastCGI Specification 1.0 frames them, byte by byte, a reader and a writer with
buffers of any length over a system that reads and writes in pieces of its own choosing.

**JSON** (`json_*.dfy`). Text, parser, printer in both layouts, buffer and child lists. The grammar
of RFC 8259 and UTF-8 as in section 4 of RFC 3629 are stated as relations, `JsonGrammar.IsDocument`
and `JsonGrammar.IsUtf8`, that name nothing of the parser or the printer: the parser is proved to
accept exactly the texts of the grammar for the values they stand for, and the printer to write such
texts.

**LuaDB keys** (`luadb_keys.dfy`, `luadb_store.dfy`, `luadb_order.dfy`, `luadb_data.dfy`). Keys of
segments, their order as one the B-tree can be searched in, and two clients of the cursor: the
ordered walk over the children of a node, and the query whether a node has data and children.

**Lua values to JSON** (`lua_json.dfy`). Encoding a graph of tables, with the reference table
that detects cycles.

## What the code does that its comments or callers would not expect

- The list search is documented (`src/deps/lmdb/midl.h:83`) as giving the first ID at or above
  the target. The lists are descending, and it gives the first position with an ID at or below
  it. That is the least ID at or above the target if and only if the list is empty or holds the
  target at the position found (`Midl.LeastAboveOnlyIfFound`).
- A reader that published and rechecked ID t may then copy the meta page of version t + 2, if two
  commits finish in between (`MvccRuns.NewerVersionIsPossible`). `Mvcc.ReaderVersion` says exactly
  when it gets t. Either way it sees one version unchanged (`Mvcc.ReaderSeesOneVersion`).
- Pages left over when the free list is saved may be stored under smaller transaction IDs than
  they came from: in the run of `MvccRuns.LeftoverUnderOldKey` a value of 600 pages is deleted and
  89 of its pages, which version 1 had, end up under key 1. What protects readers is a statement
  about live readers' versions only (`Mvcc.SavedFreedLater`).
- A child of a top-level transaction gets the length of the merged dirty list from the room
  counter instead of counting. `DirtyRoom.ShortcutLength` says, over every run, by how much that
  length differs from the union's, as a count over the operations of the run: a run of overflow pages that is given back stays charged
  (`DirtyRoom.GivenBackIsCharged`), and spilling a page that is also in the parent's list is
  credited although the page stays (`DirtyRoom.SpilledCopyIsCredited`). With a length that is too
  large the assertion that ends the merge fails (`DirtyRoom.MergeTooLong`).
- A page with 20 or more keys and a small new node is cut in the middle without looking at
  sizes. `PageSplit.FixedHalfFits` says exactly when both halves fit, on branch pages with the
  keys the halves drop; `PageSplit.Split` fails exactly then, and `PageSplit.SplitLopsided` is a
  page and a node for which it does.
- A client that sets a cursor to a key that is not there and then moves on skips the least key
  above it, unless the search ended past the last key of a leaf. If the end of the data had been
  met before and the cursor's own page told that the key is not there, it is told that there are
  no more keys. `Cursors.Cursor.SetThenNext` says exactly when, `Cursors.SkipsNext` and
  `Cursors.SkipsAll` are trees and keys for the two.
- The query of a node's data and children does just that. A node without a value and with exactly
  one descendant is reported to have none, unless the search ended past a leaf
  (`LuaDbData.ChildrenTold`, `LuaDbData.OnlyChildIsMissed`).
- A skipped FastCGI record without content leaves the skip flag set, and the content that follows
  is lost. `FastCgi.AllReceived` says exactly which record sequences suffer,
  `FastCgi.ContentIsLost` is one.
- JSON strings with byte 0x1F are written as they are and refused by the parser.
  `JsonValues.DecodeEncode` has this as an if and only if; `JsonValues.EscapedUnit` is a text that
  decodes to such a string.
- The escape `\u0000` and half a surrogate pair, which the syntax of RFC 8259 allows, are refused by
  the parser; `JsonGrammar.IsEscaped` and `JsonGrammar.IsPair` leave them out.
- The ordered walk passes over a child that extends another child by further bytes, and ends early
  when a child's first key has other segment types than the prefix. `LuaDbOrder.WalkIsComplete`
  says exactly when it gives all the others; `LuaDbOrder.WalkPassesOver` and
  `LuaDbOrder.WalkEndsEarly` are databases for the two.

## Model

| member | source | states |
|---|---|---|
| Midl.Search | src/deps/lmdb/midl.c:32-66 | in a descending list, the position before which every ID is at least the target and from which every ID is at most it; it holds the target exactly if the list does |
| Midl.LeastAboveOnlyIfFound | src/deps/lmdb/midl.h:80-85 | the documented position, that of the least ID at or above the target, is the one found if and only if the list is empty or holds the target there |
| Midl.Need | src/deps/lmdb/midl.c:144-156 | the list is unchanged and has room for the IDs asked for |
| Midl.AppendRange | src/deps/lmdb/midl.c:186-200 | the list is the old one followed by the range, largest first |
| Midl.AppendList | src/deps/lmdb/midl.c:172-184 | the list is the old one followed by the other |
| Midl.XMerge | src/deps/lmdb/midl.c:202-214 | the in-place merge from the large end, with the sentinel in slot 0, computes the descending merge and writes nothing beyond it, also when the second list is in the tail of the same array |
| Midl.ShiftSmaller | src/deps/lmdb/midl.c:209-210 | the unbounded inner scan stops in the array and moves exactly the smaller IDs |
| Midl.MergeKeepsAll | src/deps/lmdb/midl.c:202-214 | the merge is the multiset union |
| Midl.MergeSorted | src/deps/lmdb/midl.c:202-214 | the merge of descending lists is descending |
| MidlSort.Sort | src/deps/lmdb/midl.c:221-280 | the list ends up descending and a permutation of itself, nothing outside it changes, and the fixed stack is never overrun |
| MidlSort.SortedIsUnique | src/deps/lmdb/midl.c:221-280 | that determines the result |
| MidlSort.MedianOfThree | src/deps/lmdb/midl.c:246-256 | afterwards the first, second and last of the segment descend, so that the scans have stops |
| MidlSort.ScanUp | src/deps/lmdb/midl.c:261 | the scan without a bound test stops at or before an element known to end it |
| MidlSort.ScanDown | src/deps/lmdb/midl.c:262 | likewise downwards |
| MidlSort.Partition | src/deps/lmdb/midl.c:246-267 | permutes the segment into values at least the pivot, the pivot, and values at most the pivot |
| MidlSort.InsertOne | src/deps/lmdb/midl.c:235-240 | the insertion scan, bounded only by the start of the list, does not leave its segment |
| MidlSort.InsertionPass | src/deps/lmdb/midl.c:233-241 | sorts its segment within itself |
| MidlSort.InsertionKeepsOrder | src/deps/lmdb/midl.c:233-241 | one insertion keeps the sorted part sorted |
| MidlSort.CutSurvives | src/deps/lmdb/midl.c:221-280 | reordering a segment keeps every boundary that does not lie inside it |
| MidlSort.SplitCuts | src/deps/lmdb/midl.c:257-267 | a partition makes boundaries on both sides of the pivot |
| MidlSort.OlderSegmentsKeepCuts | src/deps/lmdb/midl.c:268-277 | work on the newest segment undoes nothing the waiting ones rely on |
| MidlSort.SegmentSplit | src/deps/lmdb/midl.c:268-277 | pushing the larger part and going on with the smaller one keeps the invariant that each level of the stack holds at most half of the level below |
| MidlSort.StackNeverOverflows | src/deps/lmdb/midl.c:224-277 | whenever a segment is split, its two parts still fit on the stack |
| FreeList.FindRun | src/deps/lmdb/mdb.c:2075-2084 | finds the lowest run of that many consecutive pages, and fails exactly when the list has none |
| FreeList.RunIsConsecutive | src/deps/lmdb/mdb.c:2082-2083 | in a strictly descending list the single comparison of the ends implies that all pages between are there |
| FreeList.ConsecutiveIsRun | src/deps/lmdb/mdb.c:2082-2083 | and every run passes it |
| FreeList.TakeRun | src/deps/lmdb/mdb.c:2179-2184 | the list without the entries of the run |
| FreeList.TakeRemovesExactlyRun | src/deps/lmdb/mdb.c:2179-2184 | exactly the pages of the run are gone and the rest is in order |
| FreeList.PutRun | src/deps/lmdb/mdb.c:5414-5422 | the list with the freed range at the place the order demands |
| FreeList.PutUndoesTake | src/deps/lmdb/mdb.c:5414-5422 | taking a run and putting it back restores the list |
| FreeList.TakeUndoesPut | src/deps/lmdb/mdb.c:5414-5422 | putting a range that was not there adds exactly it, in order, and taking it again restores the list |
| FreeList.ReturnLoose | src/deps/lmdb/mdb.c:3104-3121 | the temporary list in the array's tail never overlaps the merge; the result is the descending multiset union |
| FreeList.PutRecord | src/deps/lmdb/mdb.c:3140-3145 | the record holds the IDs after its slot, and the overwritten slot is restored |
| FreeList.FillRecords | src/deps/lmdb/mdb.c:3123-3149 | the records together hold the list, and each at most its room, exactly if the rooms suffice in total; the array is as before |
| FreeList.GatheredParts | src/deps/lmdb/mdb.c:3123-3149 | each record is descending and no page is in two |
| DirtyList.Search | src/deps/lmdb/midl.c:282-315 | the first entry at or above the page; it is the page's exactly if the page is listed |
| DirtyList.Insert | src/deps/lmdb/midl.c:317-346 | -1 exactly for a listed page, -2 exactly for a full list, otherwise the entry is added and the list still ascends; on failure nothing changes |
| DirtyList.InsertKeepsOrder | src/deps/lmdb/midl.c:338-342 | an entry put where the search says keeps the list strictly ascending |
| DirtyList.PageMapKeys | src/deps/lmdb/midl.c:282-315 | the pages of a list read as a map are those it lists |
| NestedCommit.CountMerged | src/deps/lmdb/mdb.c:3389-3403 | the counting pass gives the size of the union of the two lists |
| NestedCommit.MergeInPlace | src/deps/lmdb/mdb.c:3407-3417 | from any length at or above the union's, the merge frees the parent's copies of shared pages; the two indexes meet exactly if that length is the union's, and then the list is the merge |
| NestedCommit.CommitDirty | src/deps/lmdb/mdb.c:3389-3417 | counting and merging leave the parent's list strictly ascending and, as a map, the parent's overridden by the child's |
| NestedCommit.MergeOverrides | src/deps/lmdb/mdb.c:3407-3417 | the merge as a map is the parent's map overridden by the child's |
| NestedCommit.MergeAscending | src/deps/lmdb/mdb.c:3407-3417 | the merge is strictly ascending |
| NestedCommit.MergeLength | src/deps/lmdb/mdb.c:3389-3406 | merged and freed entries together are as many as both lists had |
| NestedCommit.MergeKeepsOrFreesEachPage | src/deps/lmdb/mdb.c:3413-3414 | each page buffer is kept or freed, once |
| NestedCommit.SquashSpilled | src/deps/lmdb/mdb.c:3366-3387 | a page is spilled afterwards exactly if it was and is not in the child's dirty list; the list still descends |
| NestedCommit.StrikeOne | src/deps/lmdb/mdb.c:3374-3380 | one page of the child strikes out its own slot and no other |
| NestedCommit.SquashResult | src/deps/lmdb/mdb.c:3382-3386 | closing the gaps after the last struck slot is enough |
| DirtyRoom.StepKeepsTally | src/deps/lmdb/mdb.c:3404-3406 | every step that changes a dirty list or the counter moves the difference of counter and union by what its own kind charges |
| DirtyRoom.SpillCounts | src/deps/lmdb/mdb.c:3293-3295 | spilling credits every page, though those the parent lists too stay in the union |
| DirtyRoom.FreeCounts | src/deps/lmdb/mdb.c:5387-5413 | giving back a dirty run takes it from the list and credits nothing |
| DirtyRoom.ParentIsKept | src/deps/lmdb/mdb.c:2785-2800 | while a child runs, its parent's list and counter are as they were |
| DirtyRoom.RunKeepsTally | src/deps/lmdb/mdb.c:3404-3406 | so in every state of every run the counter has charged the pages of the lists and what the operations so far charged in excess |
| DirtyRoom.ShortcutLength | src/deps/lmdb/mdb.c:3404-3406 | in every run the length taken from the counter is that of the union if and only if the runs given back and the parent's pages made dirty anew, counted over the operations, balance the parent's pages spilled |
| DirtyRoom.GivenBackIsCharged | src/deps/lmdb/mdb.c:5396-5413 | a run, with me_pghead there and the root page dirty, after which it is one too large |
| DirtyRoom.SpilledCopyIsCredited | src/deps/lmdb/mdb.c:3293-3295 | a run, in which the room left makes the child spill a leaf, after which it is one too small |
| DirtyRoom.MergeTooLong | src/deps/lmdb/mdb.c:3407-3416 | the merge of the first run's lists with its length fails the final assertion |
| Pages.NewPagesKeepsPartition | src/deps/lmdb/mdb.c:2026-2196 | allocation from loose pages, me_pghead or the end of the file keeps each page in exactly one place |
| Pages.TouchKeepsPartition | src/deps/lmdb/mdb.c:2288-2355 | so does copying a page on write |
| Pages.LeavingTreeKeepsPartition | src/deps/lmdb/mdb.c:1728-1773 | so do loosening, freeing and giving back pages |
| Pages.FreeLooseKeepsPartition | src/deps/lmdb/mdb.c:2987-2998 | so does freeing the loose pages when there is no me_pghead |
| Pages.ReadKeepsPartition | src/deps/lmdb/mdb.c:2105-2158 | so does moving a free-page record to me_pghead |
| Pages.SavedRecords | src/deps/lmdb/mdb.c:2965-3151 | saving leaves in the records exactly the unread, freed, loose and leftover pages |
| Pages.SaveKeepsPartition | src/deps/lmdb/mdb.c:2965-3151 | after saving, each page is in the trees or in one record |
| Pages.FreeCountIsUnion | src/deps/lmdb/mdb.c:1580-1628 | the sum of the record lengths is the number of free pages |
| Pages.AuditBalances | src/deps/lmdb/mdb.c:1580-1628 | free pages, tree pages and the two meta pages make up the whole file |
| Mvcc.ReaderStep | src/deps/lmdb/mdb.c:2630-2635 | a reader keeps the invariant as long as an ID it newly relies on is the last committed one |
| Mvcc.MetaForReader | src/deps/lmdb/mdb.c:2635 | the meta page of an ID's parity holds that version or a later one, which is the last or next to last |
| Mvcc.BeginStep | src/deps/lmdb/mdb.c:2637-2664 | a write transaction starts from the last committed version |
| Mvcc.ScanStep | src/deps/lmdb/mdb.c:1974-1990 | looking at the reader slots one by one, while readers come and go, gives a bound no validated reader is below |
| Mvcc.ReadRecordStep | src/deps/lmdb/mdb.c:2105-2158 | records below the cached oldest reader hold no page of a version still needed |
| Mvcc.AllocateStep | src/deps/lmdb/mdb.c:2026-2196 | allocating keeps the invariant |
| Mvcc.TouchStep | src/deps/lmdb/mdb.c:2288-2355 | touching keeps the invariant; what the copy holds is MvccContent.TouchContent |
| Mvcc.OwnPagesStep | src/deps/lmdb/mdb.c:5357-5430 | so does whatever frees, gives back or edits only pages of the transaction's own |
| Mvcc.OwnPagesActionStep | src/deps/lmdb/mdb.c:2987-2998 | among them freeing the loose pages while the transaction still works |
| Mvcc.FlushStep | src/deps/lmdb/mdb.c:3158-3297 | writing a dirty page to the file, early or at commit, leaves every needed version intact |
| Mvcc.WriteBackStep | src/deps/lmdb/mdb.c:3495-3499 | so does the system writing any page back in any order |
| Mvcc.SyncStep | src/deps/lmdb/mdb.c:3497-3499 | after the sync the whole new version is durable |
| Mvcc.SaveStep | src/deps/lmdb/mdb.c:3482-3487 | saving the free list keeps the invariant |
| Mvcc.SavedFreedLater | src/deps/lmdb/mdb.c:3104-3149 | records written for leftover pages, under whatever smaller keys, have no page of a needed version |
| Mvcc.WriteMetaStep | src/deps/lmdb/mdb.c:3657-3768 | the meta page written is the one no needed version depends on, and makes the new version the newest |
| Mvcc.PublishStep | src/deps/lmdb/mdb.c:3769-3778 | publishing the ID keeps the invariant |
| Mvcc.AbortStep | src/deps/lmdb/mdb.c:2880-2928 | so does giving the transaction up at any point before the meta page |
| Mvcc.CrashStep | src/deps/lmdb/mdb.c:3785-3789 | so does losing all memory and opening again on the newer meta page |
| Mvcc.StepKeepsInvariant | src/deps/lmdb/mdb.c:3482-3505 | every step of every reader, the writer, the system and a crash keeps the invariant |
| Mvcc.RunKeepsInvariant | src/deps/lmdb/mdb.c:3482-3505 | it holds in every state of every run |
| Mvcc.AllocationAvoidsReaders | src/deps/lmdb/mdb.c:2105-2131 | no page handed out belongs to the last committed version or to a version a validated reader may be reading, even when the cached oldest reader decides |
| Mvcc.SnapshotsPersist | src/deps/lmdb/mdb.c:3482-3505 | over a run a committed version is never redefined |
| Mvcc.ReaderSeesOneVersion | src/deps/lmdb/mdb.c:2630-2646 | in every run a reader on version u sees, at any later moment, exactly the pages u was committed with |
| Mvcc.CrashYieldsOldOrNew | src/deps/lmdb/mdb.c:3482-3505 | stopping anywhere and recovering gives the old version complete, or the new one complete once its meta page is written |
| Mvcc.WritingOutKeepsContent | src/deps/lmdb/mdb.c:3158-3297 | spilling, flushing, reading back and saving do not change what the transaction will commit |
| Mvcc.ReaderVersion | src/deps/lmdb/mdb.c:2630-2635 | a reader gets the version of its ID if and only if no two commits came between its recheck and its copy of the meta page, and otherwise a later one |
| MvccRuns.NewerVersionIsPossible | src/deps/lmdb/mdb.c:2630-2635 | a run in which a reader with ID 0 reads version 2 |
| MvccRuns.LeftoverUnderOldKey | src/deps/lmdb/mdb.c:3059-3149 | a run of four transactions in which pages of version 1 are stored under key 1, with the keys stepping down as the code has them |
| MvccContent.BeginContent | src/deps/lmdb/mdb.c:2637-2664 | a write transaction first sees exactly the pages of the last committed version |
| MvccContent.AllocateContent | src/deps/lmdb/mdb.c:2026-2196 | allocating adds the pages handed out and changes no other |
| MvccContent.TouchContent | src/deps/lmdb/mdb.c:2288-2355 | touching gives the new page the content of the old one, which goes, and changes no other |
| MvccContent.OtherContent | src/deps/lmdb/mdb.c:5357-5430 | editing changes one page; loosening, freeing and giving back drop pages and change none |
| MvccContent.NoContent | src/deps/lmdb/mdb.c:3158-3297 | no other step of a reader, the system or the writer changes what the transaction sees |
| MvccContent.SeesAfterAll | src/deps/lmdb/mdb.c:3482-3505 | in every run, at any moment, a transaction sees the last committed version as changed by its own steps in order |
| MvccContent.VersionContent | src/deps/lmdb/mdb.c:3657-3778 | in every run that is what it commits |
| MvccContent.EveryPageHasItsOrigin | src/deps/lmdb/mdb.c:2288-2355 | after any steps a page holds what the steps last wrote to it, or what the page it was renamed from held before |
| MvccContent.PagesStay | src/deps/lmdb/mdb.c:2288-2355 | a page that no step dropped is there under the name the touches gave it |
| MvccContent.RenamingIsOneToOne | src/deps/lmdb/mdb.c:2288-2355 | no two pages have the content of one page of the version before |
| MvccContent.VersionsDifferByWrites | src/deps/lmdb/mdb.c:3482-3505 | in every run a committed version has the pages of the version before under the renaming its touches make, but for what its transaction dropped, allocated and wrote |
| PageTxn.Txn.constructor | src/deps/lmdb/mdb.c:2637-2664 | a fresh write transaction has all pages where the last commit left them |
| PageTxn.Txn.TooRecent | src/deps/lmdb/mdb.c:2105-2131 | the reader slots are looked at only when the cached value is in the way, at most once, and the record is refused exactly if the oldest reader is not above it |
| PageTxn.Txn.NextRecord | src/deps/lmdb/mdb.c:2089-2122 | the next record to fetch is the least unread one |
| PageTxn.Txn.FetchRecord | src/deps/lmdb/mdb.c:2132-2158 | me_pghead takes over the record's pages, strictly descending |
| PageTxn.Txn.FetchNext | src/deps/lmdb/mdb.c:2089-2158 | fetches the least unread record older than every reader, or says that there is none |
| PageTxn.Txn.FindPages | src/deps/lmdb/mdb.c:2070-2159 | reads records oldest first, each below the oldest reader and none that is not needed, until there is a run, and then gives the lowest one; it gives up only after 60 records a page or when every record left is too recent |
| PageTxn.Txn.TakeFromHead | src/deps/lmdb/mdb.c:2179-2184 | exactly the run leaves me_pghead |
| PageTxn.Txn.TakeFromMap | src/deps/lmdb/mdb.c:2161-2186 | new pages from the end of the file, refused exactly if the map is full |
| PageTxn.Txn.TakeFound | src/deps/lmdb/mdb.c:2161-2191 | the run found, or new pages if there is none, with the dirty room and the error flag as in PageAlloc |
| PageTxn.LowestRunIsLowestFree | src/deps/lmdb/mdb.c:2070-2082 | the run that the search of me_pghead meets first is the lowest of all its runs |
| PageTxn.Txn.PageAlloc | src/deps/lmdb/mdb.c:2026-2196 | refines reading some records and then one allocation step; takes a loose page for one page, otherwise the lowest run of me_pghead, and new pages only when there is no run after 60 records a page or all records old enough; fails exactly for lack of dirty room or a full map; takes one of the dirty room except for a loose page, and the transaction is in error exactly after a failure |
| PageTxn.Txn.PageNew | src/deps/lmdb/mdb.c:6793-6818 | the allocated pages join a tree and the partition holds again; the search, the dirty room and the error flag are as in PageAlloc |
| PageTxn.Txn.PageTouch | src/deps/lmdb/mdb.c:2288-2355 | a different page replaces the touched one in its tree and the old one waits in mt_free_pgs; the search, the dirty room and the error flag are as in PageAlloc |
| PageTxn.Txn.PageLoose | src/deps/lmdb/mdb.c:1728-1773 | an own page becomes the first loose one unless it is of the free-page database; any other is freed |
| PageTxn.Txn.OvpageFree | src/deps/lmdb/mdb.c:5357-5430 | an own run goes back into me_pghead if there is one, any other is freed |
| PageTxn.Txn.MergeLoose | src/deps/lmdb/mdb.c:3104-3121 | loose pages join me_pghead, none lost |
| PageTxn.Txn.FreeLoosePages | src/deps/lmdb/mdb.c:2987-2998 | without me_pghead loose pages join mt_free_pgs, while the transaction still works |
| PageTxn.Txn.SettleLoose | src/deps/lmdb/mdb.c:2987-3121 | they are returned to me_pghead, or freed if there is none |
| PageTxn.Txn.FreelistSave | src/deps/lmdb/mdb.c:2965-3151 | succeeds exactly if the reserved records have room, and then is a save step: no page lost or stored twice |
| SlottedPage.EncodeDecode | src/deps/lmdb/mdb.c:865-914 | a stored node is read back with its key, data, flags, page number and sizes |
| SlottedPage.EncodeIsLaidOut | src/deps/lmdb/mdb.c:865-914 | in the node's bytes numbers have their least byte first: data size or page number in bytes 0 to 3, flags or the page number's top word in 4 and 5, key size in 6 and 7, then the key and the payload |
| SlottedPage.NodeMaxIs | src/deps/lmdb/mdb.c:4110-4111 | the node limit is the largest even size of which two nodes with their pointers fit the page |
| SlottedPage.RoomIsEnough | src/deps/lmdb/mdb.c:6831-6868 | the size callers compare with the free space is at most it if and only if the node fits |
| SlottedPage.OddRoomIsNotEnough | src/deps/lmdb/mdb.c:6855-6868 | for odd branch keys that relies on the free space being even |
| SlottedPage.PlacedOk | src/deps/lmdb/mdb.c:6922-6947 | what node add stores, data or an overflow page number, is never above the node limit |
| SlottedPage.TilesInsert | src/deps/lmdb/mdb.c:6957-6962 | a node put just below mp_upper keeps the nodes tiling the page without gap or overlap |
| SlottedPage.TilesRemove | src/deps/lmdb/mdb.c:7048-7062 | so does sliding the nodes below a deleted one up over it |
| SlottedPage.TilesResize | src/deps/lmdb/mdb.c:7369-7404 | so does shifting the nodes below a resized one |
| SlottedPage.StoredRemove | src/deps/lmdb/mdb.c:7048-7062 | every other node's bytes survive a delete |
| SlottedPage.StoredResize | src/deps/lmdb/mdb.c:7369-7404 | and a resize |
| SlottedPage.Page.NodeAdd | src/deps/lmdb/mdb.c:6885-7006 | inserts the node at its index, or fails exactly if node and pointer exceed the free space, changing nothing |
| SlottedPage.Page.AddOrSplit | src/deps/lmdb/mdb.c:6577-6586 | the caller's check decides right on leaves, and on branch pages for a separator: the add never fails, and a split is asked for only if the node does not fit |
| SlottedPage.Page.NodeDel | src/deps/lmdb/mdb.c:7013-7063 | removes the node at the index and gives its room back |
| SlottedPage.Page.UpdateKey | src/deps/lmdb/mdb.c:7340-7407 | replaces the key, page number kept, if the growth fits; otherwise the node is deleted, and it would indeed not fit again |
| SlottedPage.Page.ReadNode | src/deps/lmdb/mdb.c:890-914 | reads the node of the sequence from the bytes |
| SlottedPage.Page.CopyFrom | src/deps/lmdb/mdb.c:8360-8366 | copying from the last node's offset on copies the whole page |
| SlottedPage.Page.CloseSlot | src/deps/lmdb/mdb.c:7048-7056 | closes the pointer gap and moves the pointers below by the size |
| SlottedPage.Page.ShiftPointers | src/deps/lmdb/mdb.c:7386-7389 | moves the pointers at or below the node by the growth |
| SlottedPage.Page.Accounted | src/deps/lmdb/mdb.c:6948-6995 | header, pointers, nodes and free space make up the page, and the free space is even |
| PageSplit.HalfPageAtMost | src/deps/lmdb/mdb.c:4110-4111 | every node with its pointer takes at most half a page |
| PageSplit.ScanRight | src/deps/lmdb/mdb.c:8216-8243 | the scan from the left stops at the first node that does not fit, or at its limit |
| PageSplit.ScanLeft | src/deps/lmdb/mdb.c:8220-8243 | the scan from the right likewise |
| PageSplit.SplitPoint | src/deps/lmdb/mdb.c:8171-8244 | which of the scans or the fixed half gives the split point |
| PageSplit.ScanFits | src/deps/lmdb/mdb.c:8214-8244 | with a scanned split point both sides fit a page |
| PageSplit.AtLeastTwo | src/deps/lmdb/mdb.c:8129-8244 | a page that cannot take a node holds two at least, so there is a point to split at |
| PageSplit.FixedHalfFits | src/deps/lmdb/mdb.c:8129 | without a scan both halves fit if and only if the new node needs no more than the free room, that of the nodes that part from it and that of the key its half drops |
| PageSplit.FixedHalfCanFail | src/deps/lmdb/mdb.c:8129 | a page of 20 valid nodes and a node for which that does not hold |
| PageSplit.SplitLopsided | src/deps/lmdb/mdb.c:8129-8358 | building that page and splitting it for that node fails |
| PageSplit.FillHalf | src/deps/lmdb/mdb.c:8313-8358 | a half of the merged list goes to an empty page, and fails exactly if it is too large |
| PageSplit.MoveNodes | src/deps/lmdb/mdb.c:8313-8366 | both halves end up on their pages |
| PageSplit.Split | src/deps/lmdb/mdb.c:8129-8388 | the two pages hold the halves of the old nodes with the new one inserted, the separator is the right half's first key, the cursor's place is that of the new node; a scanned or appending split never fails, and an unscanned one exactly if the condition on the old page and the new node says so; it never fails with less than 20 keys, at the end of the page or with a node above a sixteenth of the room |
| PageSplit.SplitKeepsSequence | src/deps/lmdb/mdb.c:8313-8366 | left followed by right is the old sequence with the new node, on a branch page with the first key of each half blanked |
| BTree.NodeSearch | src/deps/lmdb/mdb.c:4980-5069 | binary search from index 0 or 1: the least entry not below the key, and whether it is the key |
| BTree.LowerBoundIs | src/deps/lmdb/mdb.c:5702-5841 | the specified answer: smaller keys before it, none from it on |
| BTree.KidSurrounds | src/deps/lmdb/mdb.c:5203-5219 | following the last separator not above the key leaves no equal key elsewhere in the tree |
| BTree.FollowsIsUnique | src/deps/lmdb/mdb.c:5203-5219 | there is one kid to follow |
| BTree.AllBelowPast | src/deps/lmdb/mdb.c:4980-5069 | a search for a key above all others ends past the last leaf's keys |
| Cursors.PathPage | src/deps/lmdb/mdb.c:5184-5248 | the page a path leads to is well formed and its keys are a segment of the tree's |
| Cursors.LastPage | src/deps/lmdb/mdb.c:5784-5795 | the check for a right sibling at any level is exact |
| Cursors.BeforeNext | src/deps/lmdb/mdb.c:5784-5795 | and if there is one, there are keys beyond the page |
| Cursors.InsidePath | src/deps/lmdb/mdb.c:5748-5783 | a key between the first and last of the cursor's page is one a search from the root would look for there |
| Cursors.FollowsFound | src/deps/lmdb/mdb.c:5204-5213 | the index chosen on a branch page is the one the key belongs under |
| Cursors.Cursor.constructor | src/deps/lmdb/mdb.c:7196-7221 | a new cursor is on no page and has not met the end |
| Cursors.Cursor.PushKid | src/deps/lmdb/mdb.c:5103-5119 | the stack is still a path |
| Cursors.Cursor.Pop | src/deps/lmdb/mdb.c:5086-5100 | likewise |
| Cursors.Cursor.Sibling | src/deps/lmdb/mdb.c:5493-5540 | moves to the leaf whose keys come next or before, and fails exactly if there is none, with the stack as it was |
| Cursors.Cursor.Choose | src/deps/lmdb/mdb.c:5194-5217 | the kid to follow for the first, the last or a key |
| Cursors.Cursor.PageSearch | src/deps/lmdb/mdb.c:5284-5355 | ends on a leaf that the target can only be on |
| Cursors.Cursor.LookHere | src/deps/lmdb/mdb.c:5712-5808 | what the page the cursor is on says: the answer and the position, that there is none, that it can only be here, or nothing; and when C_EOF survives |
| Cursors.Cursor.SetOnLeaf | src/deps/lmdb/mdb.c:5817-5833 | searching that leaf, and its right sibling, gives the answer of the whole tree |
| Cursors.Cursor.Set | src/deps/lmdb/mdb.c:5702-5841 | from any position, the answer a search from the root would give: the least key at or above the target, or not found exactly if there is none; and if not found, where the cursor is and whether C_EOF is still set |
| Cursors.Cursor.GoFirst | src/deps/lmdb/mdb.c:5891-5932 | the first key, or not found for an empty tree |
| Cursors.Cursor.GoLast | src/deps/lmdb/mdb.c:5935-5978 | the last key, likewise |
| Cursors.Cursor.Next | src/deps/lmdb/mdb.c:5543-5621 | the key after the current one, or not found at the end with the position kept |
| Cursors.Cursor.Prev | src/deps/lmdb/mdb.c:5624-5699 | the key before, likewise |
| Cursors.Cursor.NextOrFirst | src/deps/lmdb/mdb.c:6087-6094 | the key after the position, or the first |
| Cursors.Cursor.SetThenNext | src/deps/lmdb/mdb.c:5702-5841 | after a set that finds nothing, the next key is the least above the target if and only if the search ended past a leaf's keys and C_EOF is not left over; otherwise the one after that, or none |
| Cursors.SkipsNext | src/deps/lmdb/mdb.c:5817-5823 | a tree and a key for which the least key above is skipped |
| Cursors.SkipsAll | src/deps/lmdb/mdb.c:5748-5783 | the same tree with the end met before: no key follows |
| Cursors.Cursor.VisitAll | src/deps/lmdb/mdb.c:5891-5932 | first and then next until not found gives every key once, in order |
| FastCgi.BufferLength | src/deps/fcgi/fcgiapp.c:1768-1779 | the usable length is a multiple of 8 and at most one record with its header |
| FastCgi.HeaderReads | src/deps/fcgi/fcgiapp.c:1201-1219 | a header made is read with the type, ID and lengths it was made from |
| FastCgi.DeliverTake | src/deps/fcgi/fcgiapp.c:1649-1655 | handing over any part of the content first does not change what is delivered |
| FastCgi.DeliverSkip | src/deps/fcgi/fcgiapp.c:1655-1663 | nor does skipping in parts, as the skip flag falls only with the last of them |
| FastCgi.DeliverPad | src/deps/fcgi/fcgiapp.c:1664-1675 | nor does passing padding in parts |
| FastCgi.StreamReceived | src/deps/fcgi/fcgiapp.c:1624-1742 | what a sequence of records delivers, followed by the end of the stream |
| FastCgi.AllReceived | src/deps/fcgi/fcgiapp.c:1723-1725 | that is all content meant for the reader if and only if no empty record of another request stands directly before one of its own |
| FastCgi.ContentIsLost | src/deps/fcgi/fcgiapp.c:1723-1725 | two records of which the reader gets nothing, though one byte was meant for it |
| FcgiWire.ReadsContent | src/deps/fcgi/fcgiapp.c:1588-1613 | given bytes 1, type, ID and content length with the high byte first, and padding length, the reader delivers the content and goes on after the padding |
| FcgiWire.ReadsEnd | src/deps/fcgi/fcgiapp.c:1707-1720 | bytes of a record of its own without content end the stream |
| FcgiWire.ReadsOver | src/deps/fcgi/fcgiapp.c:1697-1729 | bytes of another request's record are passed over |
| FcgiWire.ReadsError | src/deps/fcgi/fcgiapp.c:1588-1613 | which header bytes are refused, and how |
| FcgiWire.ReadsTorn | src/deps/fcgi/fcgiapp.c:1631-1644 | what is delivered of input that ends within a record |
| FcgiWire.RecordBytes | src/deps/fcgi/fcgiapp.c:1201-1219 | the bytes of a record sent: version 1, type, ID and length with the high byte first, padding length, reserved byte 0, content, zero padding |
| FcgiReader.Reader.constructor | src/deps/fcgi/fcgiapp.c:1754-1809 | nothing is consumed yet |
| FcgiReader.Reader.Refill | src/deps/fcgi/fcgiapp.c:1631-1644 | a read of any size keeps what will be delivered; the end of input is a protocol error |
| FcgiReader.Reader.Interpret | src/deps/fcgi/fcgiapp.c:1697-1740 | a complete header is acted on as its meaning demands |
| FcgiReader.Reader.FillBuff | src/deps/fcgi/fcgiapp.c:1624-1742 | there is content to give or the stream is over, and what is still to be delivered is unchanged |
| FcgiReader.Reader.GetStr | src/deps/fcgi/fcgiapp.c:143-181 | the next n bytes of the stream, fewer exactly if it ends before |
| FcgiWriter.Writer.constructor | src/deps/fcgi/fcgiapp.c:1754-1809 | nothing is accepted yet |
| FcgiWriter.Writer.Seal | src/deps/fcgi/fcgiapp.c:1397-1411 | the buffered content becomes one record, padded to a multiple of 8 within the buffer, at most 65535 bytes |
| FcgiWriter.Writer.EmptyBuff | src/deps/fcgi/fcgiapp.c:1386-1430 | nothing accepted is lost, there is room again, and closing appends the ending records |
| FcgiWriter.Writer.WriteCloseRecords | src/deps/fcgi/fcgiapp.c:1326-1358 | the end of the stream, unless it is an unused error stream, and the end of the request with its last writer |
| FcgiWriter.Writer.WriteItAll | src/deps/fcgi/fcgiapp.c:1362-1374 | partial writes add up to the whole buffer |
| FcgiWriter.Writer.PutStr | src/deps/fcgi/fcgiapp.c:310-341 | the stream has accepted exactly these further bytes |
| FcgiWriter.Writer.FClose | src/deps/fcgi/fcgiapp.c:912-929 | the bytes that went out are well-made records of all accepted bytes, the record that ends the stream unless nothing was written to an error stream, and with the last writer the one that ends the request with its status; a second close does nothing |
| FcgiWriter.WriterToReader | src/deps/fcgi/fcgiapp.c:1386-1430 | a reader of the same type and ID gets the contents of a writer's records and then the end |
| FcgiWriter.EndRequestBytes | src/deps/fcgi/fcgiapp.c:1230-1243 | the record that ends a request: type 3, the status with its high byte first, then byte 0 for complete |
| FcgiWriter.StreamBytes | src/deps/fcgi/fcgiapp.c:1386-1430 | a writer's records and its end, as bytes, are a stream of their contents |
| FcgiWriter.ClosedBytes | src/deps/fcgi/fcgiapp.c:1326-1358 | with its ending, what went out is as FClose says |
| FcgiStream.EndToEnd | src/deps/fcgi/fcgiapp.c:1386-1742 | for all pieces written, buffer lengths, system read and write sizes and client read lengths, the bytes read are the bytes written |
| FcgiStream.SentOut | src/deps/fcgi/fcgiapp.c:1386-1430 | the writer's bytes on the wire, for all pieces and buffer lengths |
| FcgiStream.ReadToEnd | src/deps/fcgi/fcgiapp.c:143-181 | reading in steps of any length gives all the stream delivers |
| FcgiStream.WritePieces | src/deps/fcgi/fcgiapp.c:310-341 | pieces of any length are accepted as their concatenation |
| JsonRoundTrip.WriteRead | src/deps/json/json.c:226-294 | a code point written is valid UTF-8 and read back |
| JsonRoundTrip.ReadWrite | src/deps/json/json.c:151-294 | whatever is valid UTF-8 reads as a scalar value and is written back byte for byte |
| JsonRoundTrip.PairRoundTrip | src/deps/json/json.c:302-326 | a surrogate pair stands for its code point |
| JsonRoundTrip.HexRoundTrip | src/deps/json/json.c:1268-1311 | four hexadecimal digits written are read back |
| JsonRoundTrip.CharRoundTrip | src/deps/json/json.c:1106-1223 | each character of a string comes back from its text, byte 0x1F excepted |
| JsonRoundTrip.StringRoundTrip | src/deps/json/json.c:793-906 | a string comes back, or is refused exactly if byte 0x1F is in it |
| JsonRoundTrip.NumberRoundTrip | src/deps/json/json.c:918-964 | a grammatical number is cut out whole wherever something that cannot continue it follows |
| JsonValues.ValueRoundTrip | src/deps/json/json.c:623-691 | a value in either layout comes back from the middle of any text, or is refused exactly if it holds byte 0x1F |
| JsonValues.ArrayRoundTrip | src/deps/json/json.c:693-735 | so does an array |
| JsonValues.ObjectRoundTrip | src/deps/json/json.c:737-791 | so does an object |
| JsonValues.DecodeEncode | src/deps/json/json.c:361-377 | for every tree, compact or with any white-space indent, with any white space around it, decoding the text gives the tree if byte 0x1F is in none of its strings, and fails otherwise |
| JsonValues.DecodedIsJson | src/deps/json/json.c:361-377 | all strings decoded are valid UTF-8 and all numbers grammatical |
| JsonValues.DecodeAgain | src/deps/json/json.c:361-405 | so a decoded value survives being written and decoded, with the same exception |
| JsonValues.EscapedUnit | src/deps/json/json.c:1180 | a text that decodes to a value whose own text does not |
| JsonStrings.WriteCharIs | src/deps/json/json.c:265-294 | a code point is written as the UTF-8 of the standard's table |
| JsonStrings.ValidIsUtf8 | src/deps/json/json.c:151-211 | whatever the validator lets pass is the UTF-8 of one code point, the one read from it |
| JsonStrings.Utf8IsValid | src/deps/json/json.c:151-211 | and it lets all of it pass |
| JsonStrings.TextIsUtf8 | src/deps/json/json.c:205-217 | a string is valid if and only if it is the UTF-8 of code points one after the other |
| JsonStrings.SpellingIsParsed | src/deps/json/json.c:793-906 | every spelling of a character is taken for it: itself, the eight two-character escapes, four hexadecimal digits in either case, a surrogate pair |
| JsonStrings.ParsedIsSpelling | src/deps/json/json.c:793-906 | and nothing else is taken for it |
| JsonStrings.StringIsParsed | src/deps/json/json.c:793-906 | what is taken for a string, and for which, is what the grammar says, for all texts |
| JsonStrings.WrittenIsSpelling | src/deps/json/json.c:1106-1223 | what is written for a character is a spelling of it, byte 0x1F excepted, for which it is none |
| JsonStrings.WrittenForm | src/deps/json/json.c:1122-1218 | it is the short escape for seven characters, four digits in upper case for the other control characters, and the character itself otherwise |
| JsonStrings.WrittenIsString | src/deps/json/json.c:1106-1223 | what is written for a string stands for it and for no other, or for none exactly if byte 0x1F is in it |
| JsonDocuments.NumberIs | src/deps/json/json.c:918-964 | the numbers scanned whole are those of the grammar |
| JsonDocuments.ParsedIsValue | src/deps/json/json.c:623-691 | what is parsed is, in the grammar, a text of the value returned |
| JsonDocuments.ValueIsParsed | src/deps/json/json.c:623-691 | and each such text is parsed wherever no byte that continues a number follows |
| JsonDocuments.DecodeIff | src/deps/json/json.c:361-377 | a text decodes to a value if and only if it stands for it in the grammar |
| JsonDocuments.DocumentIsUnique | src/deps/json/json.c:361-377 | no text of the grammar stands for two values |
| JsonDocuments.TextIsDocument | src/deps/json/json.c:394-405 | the text written for a value, in either layout, stands for it and for no other, or for none exactly if byte 0x1F is in it |
| JsonLayout.ArrayLayout | src/deps/json/json.c:1028-1063 | an array's text, compact or indented: the brackets, the items' texts, and the commas, line breaks and indents between them |
| JsonLayout.ObjectLayout | src/deps/json/json.c:1065-1104 | an object's, with a colon, or a colon and a blank, after each key |
| JsonLayout.RepeatIs | src/deps/json/json.c:1060-1061 | an indent is one copy of the given text for each level |
| JsonBuffer.SB.Need | src/deps/json/json.c:65-69 | that much room, contents kept |
| JsonBuffer.SB.Grow | src/deps/json/json.c:71-85 | doubling ends with enough room |
| JsonBuffer.SB.Put | src/deps/json/json.c:87-92 | contents followed by the bytes |
| JsonBuffer.SB.Putc | src/deps/json/json.c:94-98 | contents followed by the byte |
| JsonBuffer.SB.Finish | src/deps/json/json.c:105-110 | the contents, and a NUL after them within the allocation |
| JsonEmit.EmitChar | src/deps/json/json.c:1122-1218 | one character takes at most 12 bytes of those kept ready |
| JsonEmit.EmitString | src/deps/json/json.c:1106-1223 | the text of the string is appended and the 14 reserved bytes are never exceeded |
| JsonEmit.EmitValue | src/deps/json/json.c:974-999 | the compact text of the value is appended |
| JsonEmit.EmitArray | src/deps/json/json.c:1028-1039 | that of the array |
| JsonEmit.EmitObject | src/deps/json/json.c:1065-1078 | that of the object |
| JsonEmit.EmitValueIndented | src/deps/json/json.c:1001-1026 | the indented text of the value is appended |
| JsonEmit.EmitArrayIndented | src/deps/json/json.c:1041-1063 | that of the array |
| JsonEmit.EmitObjectIndented | src/deps/json/json.c:1080-1104 | that of the object |
| JsonEmit.Stringify | src/deps/json/json.c:394-405 | the text in the layout asked for; in the grammar it stands for this value and no other, or for none exactly if byte 0x1F is in a string |
| JsonParse.Number | src/deps/json/json.c:918-964 | the number scanner accepts the grammar |
| JsonParse.Hex16 | src/deps/json/json.c:1268-1295 | the digit loop computes the value of four digits |
| JsonParse.Character | src/deps/json/json.c:812-881 | one character or escape, never more than the four bytes reserved |
| JsonParse.String | src/deps/json/json.c:793-906 | the string loop against its specification |
| JsonParse.Value | src/deps/json/json.c:623-691 | the value parser against its specification |
| JsonParse.Items | src/deps/json/json.c:693-735 | the array loop against its specification |
| JsonParse.KeyAndValue | src/deps/json/json.c:754-763 | a member against its specification |
| JsonParse.Members | src/deps/json/json.c:737-791 | the object loop against its specification |
| JsonParse.JsonDecode | src/deps/json/json.c:361-377 | gives a value if and only if the text stands for it in the grammar |
| JsonCodec.TextHasNoNul | src/deps/json/json.c:105-110 | text written has no NUL, so that as a C string it is whole |
| JsonCodec.EncodeDecode | src/deps/json/json.c:361-405 | the printer's and the parser's code run in a row return the tree, or nothing exactly if byte 0x1F is in it |
| JsonNodes.AppendNode | src/deps/json/json.c:536-547 | the links in both directions are those of the list with the child at the end |
| JsonNodes.PrependNode | src/deps/json/json.c:549-560 | at the start |
| JsonNodes.RemoveFromParent | src/deps/json/json.c:601-621 | without the child, which keeps no link |
| LuaDbKeys.SegmentAt | src/lmdb.c:1698-1723 | each segment is read back from where the key has it |
| LuaDbKeys.ParseBytes | src/lmdb.c:1698-1723 | a key's bytes are read back as the key |
| LuaDbKeys.KeyOrderIs | src/lmdb.c:1461-1482 | the order on bytes is that of the keys they are read as |
| LuaDbKeys.CompareKeys | src/lmdb.c:1461-1482 | the byte loop with its two offsets compares the lists of segment data lexicographically, types ignored, and so orders the keys' bytes as the order given to the tree |
| LuaDbKeys.CompareLess | src/lmdb.c:1461-1482 | a key is below another exactly if the first segment that differs in its data decides so by its first different byte, or ends first, or the key with fewer segments ends |
| LuaDbKeys.CompareEqual | src/lmdb.c:1461-1482 | equal to the order exactly if all segment data are |
| LuaDbKeys.CompareOpposite | src/lmdb.c:1461-1482 | exchanging the keys turns the sign |
| LuaDbKeys.CompareTransitive | src/lmdb.c:1461-1482 | transitive, strictly if one side is strict |
| LuaDbKeys.GenerateLuaDbKey | src/lmdb.c:1496-1516 | the key of the segments |
| LuaDbKeys.FindFirstDifferentKeyNode | src/lmdb.c:1589-1624 | the first segment of the key past what it shares with the prefix, if any |
| LuaDbKeys.ComputeNextLexicalValue | src/lmdb.c:1627-1633 | the bytes are those of the key whose last segment has the next data |
| LuaDbKeys.ReplaceLastKeySegment | src/lmdb.c:1636-1668 | the key with another last segment |
| LuaDbKeys.FindLastKeySegment | src/lmdb.c:1673-1681 | where the last segment starts |
| LuaDbKeys.GetKeyPrefix | src/lmdb.c:1684-1695 | the key of all segments but the last |
| LuaDbStore.KeyOrderIsOrder | src/lmdb.c:1461-1482 | the order is a total preorder on all byte strings, as the tree needs |
| LuaDbStore.SameBound | src/lmdb.c:1347-1360 | the least key not below another is the same in the store and in the tree |
| LuaDbStore.SetRangeIsAnswer | src/lmdb.c:1347-1360 | what the cursor answers to MDB_SET_RANGE is that key |
| LuaDbStore.Open | src/lmdb.c:1297-1302 | a new cursor over a tree of the store's keys |
| LuaDbStore.Seek | src/lmdb.c:1347-1360 | positioning the cursor gives the least key not below the given one, or the first |
| LuaDbOrder.BetweenExtends | src/lmdb.c:1627-1633 | data lies between a segment's and the next value exactly if it extends the segment's |
| LuaDbOrder.StartsWith | src/lmdb.c:1362-1366 | the comparison finds out whether the bytes start with the prefix |
| LuaDbOrder.BytesPrefix | src/lmdb.c:1362-1366 | which they do exactly if the segments do |
| LuaDbOrder.OrderCursor.constructor | src/lmdb.c:1294-1330 | where the walk starts |
| LuaDbOrder.OrderCursor.Next | src/lmdb.c:1335-1394 | one call, through the cursor over the tree, gives the next child, or ends, and stands just past the child |
| LuaDbOrder.OrderCursor.VisitAll | src/lmdb.c:1335-1394 | calls until the end terminate and give the walk |
| LuaDbOrder.WalkAscends | src/lmdb.c:1335-1394 | each child given really occurs under the prefix, is from the start on, and is strictly above the one before |
| LuaDbOrder.VisitedIsWanted | src/lmdb.c:1335-1394 | none given extends another such child |
| LuaDbOrder.WantedIsVisited | src/lmdb.c:1335-1394 | every other child is given when the first keys agree in type |
| LuaDbOrder.WalkIsComplete | src/lmdb.c:1335-1394 | and all of them are given only then |
| LuaDbOrder.WalkPassesOver | src/lmdb.c:1335-1394 | a database with two children of which one is given |
| LuaDbOrder.WalkEndsEarly | src/lmdb.c:1359-1366 | a database with the integer 1 and the string of that digit as nodes, where a child of the integer is not given |
| LuaDbData.SetFinds | src/lmdb.c:647-652 | MDB_SET finds the node's own key exactly if it is stored |
| LuaDbData.Search | src/lmdb.c:647-655 | which key the cursor is at after MDB_SET and MDB_NEXT |
| LuaDbData.Data | src/lmdb.c:631-669 | the node is said to have data exactly if its key is stored, and children exactly if that key starts with the node's |
| LuaDbData.DescendantsFollow | src/lmdb.c:654-662 | the keys below a node follow it directly, when their types agree with its own |
| LuaDbData.ChildrenTold | src/lmdb.c:647-662 | the answer about children is then right if and only if the node has a value, the search for it ends past a leaf, or it has not exactly one descendant |
| LuaDbData.OnlyChildIsMissed | src/lmdb.c:647-662 | a node with one child that is said to have none |
| LuaJson.Encoder.ValueToJson | src/json.c:146-193 | the code with its shared reference table computes the conversion; the table holds exactly the tables on the path, before and after |
| LuaJson.Encoder.TableToJson | src/json.c:272-335 | likewise for a table's fields |
| LuaJson.JsonEncode | src/json.c:122-135 | succeeds exactly if neither a cycle nor a bad key is reachable, and then gives the unfolding; without bad keys the cycle error is raised exactly for a reachable cycle |
| LuaJson.ConvertIsCorrect | src/json.c:272-335 | the same of the conversion, with what each error implies |
| LuaJson.ConvertedIsUnfolding | src/json.c:272-335 | what is returned is the tree the graph unfolds to, shared tables written out each time |
| LuaJson.RaisedHasReason | src/json.c:345-369 | an error is raised only for a cycle or a key that can be reached |
| LuaJson.UnfoldingIsFinite | src/json.c:272-335 | a value with an unfolding reaches neither |
| LuaJson.UnfoldingIsUnique | src/json.c:272-335 | there is one unfolding at most |
| LuaJson.CStringIsUnique | src/json.c:163-166 | a Lua string becomes its part before the first NUL, the whole if there is none |
| LuaJson.KeyTextIsUnique | src/json.c:295-314 | likewise a string key; a number key becomes its printed text |

## Left out

- Failing memory allocation, and failing reads, writes and syncs of files and streams.
- Memory mapping, locks, mutexes, semaphores, process IDs and environment set-up; locks are guards of steps, the meta page is written and copied in one step each.
- Recovery from a writer or reader that dies holding a lock or slot; a crash here ends all of them.
- A failed write of the meta page, which LMDB answers by disabling the environment.
- MDB_WRITEMAP, MDB_DUPSORT, fixed-size duplicate pages, named databases and MDB_RESERVE: LuaDB opens the plain main database.
- The loop that sizes the free-page records (`src/deps/lmdb/mdb.c:3004-3099`): its tree operations change what it counts. The records it ends with are a parameter.
- PageTxn.Txn.FreelistSave: takes the reserved records as given, for the reason above.
- PageTxn.Txn.PageTouch: has one set of own pages where the code has a dirty and a spill list, and models no nested transaction.
- Merging a child's loose pages into the parent's (`src/deps/lmdb/mdb.c:3433-3437`).
- Rebalancing, moving nodes and merging pages.
- Adjusting other cursors of the same database after an add, delete or split.
- SlottedPage.Page: keeps the pointer array beside the page's bytes, not in them.
- PageSplit.Split: covers the two pages and the separator; inserting the separator into the parent, which may split in turn, and allocating the sibling are not modelled.
- PageSplit.MoveNodes: makes two passes where the code makes one that wraps around.
- Cursors.Cursor: pages are immutable trees, so page numbers, writing and the deleted flag are not modelled; the data of a key is left out.
- MidlSort.Sort: lists of at most 2^30 IDs, as segment bounds and their sum are C ints.
- FcgiReader.Reader.GetStr: input with a management record before the stream's end is excluded; answering such records, with variable lists or an unknown-type reply, is not modelled.
- FcgiReader.Reader.FillBuff: likewise; and the request has begun, so that a begin record is refused, whose reply is not modelled.
- FcgiReader.Reader.Interpret: likewise.
- Accepting a request's first record, and reading and ungetting single bytes of a stream.
- FcgiStream.EndToEnd: leaves out the error stream to which nothing was written, which sends no end record.
- The formatted output of FastCGI streams.
- Numbers of JSON are lexemes; formatting and parsing of floating point is not modelled.
- Invalid UTF-8 handed to the JSON printer, which its assertions exclude.
- JsonParse.JsonDecode: builds values; the linked child lists are modelled by themselves in JsonNodes.
- LuaDbKeys.CompareKeys: segments of 1 to 127 bytes without NUL, because the code reads lengths through plain char and compares with strncmp.
- LuaDbOrder.OrderCursor.Next: no segment of the database ends with byte 0xFF, which the increment would turn into 0.
- Deleting the iterator's cursor, conversion of segment values to Lua types, the linear traversal `tx:next`, and key dumps.
- LuaDbData.Data: keys as for CompareKeys; a nil as the last argument and the number returned to Lua are not modelled.
- LuaJson.JsonEncode: texts of numbers are given, only values that JSON can hold occur, and the limits of the Lua stack are not modelled; neither is decoding JSON to Lua.
- The query string scanner, line editing, configuration, UUIDs, logging and the command line.
