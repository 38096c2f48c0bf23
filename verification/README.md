# SQL-Mini: a verified model of the storage engine

This project models the storage stack of SQL-Mini, a small relational engine over paged files, and proves
that the layers do together what each of them promises. From the bottom up:

- **Bytes, pager, buffer pool** (`Bytes.dfy`, `BufferPool.dfy`): pages of 4096 bytes, an abstract disk that
  reads as zeros where nothing was written, and the LRU cache above it. A pool stands for a plain page map
  (`View`); page buffers are arrays, and a buffer the pool may have evicted cannot be used as a page any more.
- **B-tree** (`NodePage.dfy`, `Cells.dfy`, `Tree.dfy`, `TreeEdits.dfy`, `Index.dfy`, `BTreePages.dfy`,
  `Storage.dfy`, `PageWrites.dfy`, `BTree.dfy`, `BTreeRuns.dfy`, `LeafScan.dfy`): the byte layout of a node;
  the tree as a value, with the edit that one insertion makes of it; the page loops, each proved against that
  edit; and the class `BTree.BTree`, whose methods run on the LRU pool, hold raw buffers across later fetches
  as the original does, and keep a ghost tree that the pages hold.
- **Heap and table** (`SlottedPage.dfy`, `Schema.dfy`, `HeapFile.dfy`, `TableState.dfy`, `Meta.dfy`,
  `Scans.dfy`, `Table.dfy`, `TableRuns.dfy`, `Persistence.dfy`): slotted pages, the row and schema encodings,
  and the class `Table.Table`, which keeps index and heap in agreement and stands for a map from rowids to rows.
- **Queries** (`Decimal.dfy`, `Query.dfy`, `Join.dfy`, `Answers.dfy`, `SqlEngine.dfy`): filter, projection and limit, the
  point-lookup fast path, the nested-loop join, name resolution and filter pushdown, on parsed clauses.

The main results hold for every state and every run:

- After every run of allowed B-tree operations the pages hold an ordered, balanced, half-full tree in which no
  page is shared and whose leaves are chained; along the run every find and removal answers as a finite map would;
  the root is at most three levels above the leaves, so a find fetches at most four pages; and the outcome does not
  depend on the capacity of the pool, from three pages on.
- Along every run of insertions, lookups, scans, deletions and reopenings a table answers as a map from rowids to rows
  does, and a few counters about the current heap page determine which insertions move on to the next page or fail: the
  whole run is a function of the operations, whatever the capacities of the pools (`TableRuns.ReplayTwice`). Live
  rowids point at distinct slots holding exactly their bytes, no slot is lost, and B-tree pages, heap pages and the meta
  page never meet. Fed with rows of full width, or numbered by their rowids, or within their declared widths, a table
  ends with such rows only.
- A select answers the first matching rows in rowid order; a join meets every pair of live rows once, by left and then
  right rowid (`Join.CrossExact`), and answers those that match. Both look at rows, or pairs, until the one that fills
  the answer and no further, and at all of them if none does; only one number of rows or pairs looked at is possible
  (`Query.SeenExactly`, `Join.PairsSeenExactly`). `Answers.dfy` says what the answers mean in terms of the rows alone: which
  rows a comparison lets through, what a cell says, which columns are joined, which error is reported.
- A new table takes as many rows of a given length as its 511 heap pages have room for, whatever is deleted, looked up or
  reopened in between (`TableRuns.RunsFill`).

Where the original does not keep a promise of its own, the model keeps the code as it is and says exactly when
the promise holds:

- Splitting a full leaf does not look for the key, so the two leaves hold it twice exactly when it was there
  (`Cells.DuplicateOnSplit`, `BTreePages.SplitLeafPages`); 510 insertions are enough to get there
  (`Index.DuplicateReached`). `Index.Allowed` is the condition callers have to respect, and tables do.
- The fast path for `WHERE col0 = k` looks up rowid `k`, so it agrees with the scan exactly when every row has its
  rowid in column 0 (`Query.FastPathExactly`, on tables `SqlEngine.FastPathOnTable`).
- `LIMIT n` is documented as a cap on the number of rows, but only a positive limit caps anything; without LIMIT the limit
  is -1, and 0 and every other negative number mean the same. So an answer exceeds its limit exactly when that is
  negative, or 0 and some row is there to be shown: on the fast path, which does not look at the limit, the row under the
  rowid asked for, and otherwise a matching row (`Query.LimitCaps`, `SqlEngine.ExecSelect`); for a join, a matching pair
  (`Join.JoinLimitCaps`, `SqlEngine.ExecJoin`).
- A joined row is compared numerically whenever both sides read as numbers, so on a TEXT column the join's WHERE
  means what the single-table WHERE means exactly when the literal is no number (`Join.TextComparisonsAgree`).
- A failed relocating `update` of a record drops the record all the same. That happens exactly when the new record is
  longer than the old one and than the free space (`SlottedPage.UpdateLosesRecord`; `SlottedPage.UpdateFails` covers dead
  and unused slots too), and can after a single insertion (`SlottedPage.LossReached`).
- The schema encoding counts columns and name bytes in one byte each, so it round-trips exactly for at most 255 of
  both (`Schema.SchemaRoundTrip`).
- A comment in `src/table.cpp:96` says that the row counter is current on disk after every insertion. It is current on
  the meta page in the pool, and the disk is behind after every insertion (`Table.Table.InsertRow`); at any time the disk
  has the current counter exactly when the meta page has been written back, by an eviction or a flush, since it was
  last marked dirty (`Table.Table.CounterOnDisk`).
- `TEXT(n)` stores `n` with the column and nothing enforces it: encoding and decoding do not look at it
  (`Schema.WidthsIgnored`), a stored row keeps to the widths exactly when the row given did (`Schema.WidthsUnchecked`), and
  a new table takes texts of up to 4082 bytes whatever the width (`Table.OverlongStored`).
- Record lengths are cut to 16 bits, so a row reads back as stored exactly when its encoding has at most 65535 bytes
  (`Schema.RecordReadsBack`); a text of 65536 bytes becomes the empty text (`Schema.LongTextLost`).
- When the heap pages run out, the meta page becomes the current heap page. A further insertion would lay it out anew,
  losing the counter, exactly when fewer than 65536 rowids have been reached (`Table.Table.MetaTakenForHeap`). In a new
  table 511 insertions of rows of 4085 to 4088 bytes get there (`TableRuns.PagesRunOut`, `TableRuns.FillUp`).

`dafny verify dfyconfig.toml` checks the whole project. Many bodies start with a `hide` statement: it only keeps
definitions that are not needed out of the solver's sight.

## Model

| member | source | states |
|---|---|---|
| Bytes.StoredU32 | src/node.cpp:48-65 | a 32-bit field stored little-endian reads back as stored, and the store touches no other byte |
| Bytes.LowByteFirst | src/node.cpp:21-46 | fields are little-endian: the low byte comes first |
| NodePage.KeyStored | src/node.cpp:55-57 | setting the key of one cell changes that key and no other field of the node |
| NodePage.ValueStored | src/node.cpp:63-68 | the same for values, which are also left children |
| NodePage.HeaderStored | src/node.cpp:21-46 | the cell count and the link shared by rightmost child and next leaf do not interfere with each other or with cells |
| NodePage.FlagsStored | src/node.cpp:15-19 | neither do node type and root flag |
| NodePage.SetKey | src/node.cpp:55-57 | on the buffer: the whole node is as before except for that key |
| NodePage.SetValue | src/node.cpp:63-68 | on the buffer: the whole node is as before except for that value |
| NodePage.InitializeAsLeaf | src/node.cpp:70-75 | an empty leaf that ends the chain, all cells kept |
| BufferPool.Pager.ReadPage | src/pager.cpp:24-31 | zeros where nothing was written |
| BufferPool.Pager.WritePage | src/pager.cpp:33-38 | replaces one page and keeps the page count beyond it |
| BufferPool.BufferPool.GetPage | src/buffer_pool.cpp:3-25 | never changes what any page reads as; returns the buffer the page is cached in and moves it to the front, the others keep their order, and the last one of a full pool goes if the page was not cached; keeps cached buffers in place and the allocator beyond the page; each page of the disk afterwards is its old disk page or its old cached page, and the disk grows only by a dirty page evicted; nothing that is to reach the disk is forgotten |
| BufferPool.BufferPool.FetchMissing | src/buffer_pool.cpp:14-24 | the miss path does so even when it evicts, provided the pages with unmarked writes are not last |
| BufferPool.BufferPool.MarkDirty | src/buffer_pool.cpp:26 | only cached pages are marked; the page will reach the disk |
| BufferPool.BufferPool.GetUnusedPageNum | src/buffer_pool.h:21 | the page handed out was never asked for before, is not cached and not on disk |
| BufferPool.BufferPool.FlushAll | src/buffer_pool.cpp:27-32 | afterwards the disk reads as the pool for every page, reaches past every page that was dirty and no further than one of them, and no page is left unwritten |
| BufferPool.BuffersWritten | src/buffer_pool.cpp:3-26 | writing through raw buffers of cached pages is writing exactly those pages of the page map |
| Cells.LookupPut | src/btree.cpp:105-116 | storing a key changes what is found under it and under no other key |
| Cells.MiddleDecides | src/btree.cpp:86-100 | lookups and stores in ordered cells are decided by the part that covers the key |
| Cells.DuplicateOnSplit | src/btree.cpp:57-65 | the cells a full leaf is split into have distinct keys if and only if the new key was absent |
| TreeEdits.EditFormed | src/btree.cpp:48-67 | an insertion below a node yields one or two nodes of the same height, ordered within the old bounds and at least half full, with a separator between them |
| TreeEdits.EditCells | src/btree.cpp:153-211 | splits and merges lose nothing: the leaves hold the old cells with the one key stored, in order |
| TreeEdits.EditPages | src/btree.cpp:50-54 | an insertion keeps every page of the tree and adds exactly the freshly allocated ones, none of them twice |
| TreeEdits.EditChained | src/btree.cpp:48-54 | the leaves stay chained left to right across splits |
| TreeEdits.LeafSplits | src/btree.cpp:48-67 | a leaf splits if and only if it has 510 cells and the key is new: 255 stay, 256 go to the fresh page, whose first key is the separator, and which is linked in after it |
| TreeEdits.InnerSplits | src/btree.cpp:166-211 | a full inner node keeps 255 of the 511 separators, passes the next one up and hands 255 to the fresh page |
| Index.EditTreeKeeps | src/btree.cpp:31-78 | one insertion, root splits included, keeps the root on page 0 and the whole tree invariant, and is a store in the ordered cells |
| Index.RootSplits | src/btree.cpp:31-46 | a root that splits stays on its page above its two halves, the left one on a page allocated last |
| Index.DescentFinds | src/btree.cpp:86-100 | the leaf a descent ends in decides whether the tree holds the key |
| Index.StepImplements | src/btree.cpp:81-253 | one allowed operation keeps tree and finite map in agreement |
| Index.RunImplements | src/btree.cpp:48-270 | after every allowed run: a well-formed balanced tree that uses exactly the allocated pages and finds what the finite map with deletions holds |
| Index.DuplicateReached | src/btree.cpp:102-116 | after n insertions of different keys inserting one of them again is allowed if and only if n < 510; at 510 the split would leave it twice, next to each other |
| Index.FillBound | src/btree.cpp:56-67 | a node of height h that is not the root is above at least 255 * 256^h cells |
| Index.HeightBound | src/node.h:15-17 | a tree of height h >= 1 has at least 2 * 255 * 256^(h-1) cells; with 32-bit keys h <= 3 |
| Index.SizeBound | src/btree.cpp:187-210 | pages are at most two per 255 cells, besides the root |
| Index.LeafChain | src/btree.cpp:48-54 | the chain from the leftmost leaf has every leaf once, in key order, and ends at the end mark |
| LeafScan.LeafWalk | src/node.cpp:39-46 | read off the pages: following links from the leftmost leaf meets each leaf page once, yields all cells in ascending order and ends at the invalid page id |
| BTreePages.LeafNodeFind | src/btree.cpp:20-29 | binary search finds the key's position, or where it belongs |
| BTreePages.LeafPut | src/btree.cpp:105-116 | a leaf with room holds its cells with the key stored |
| BTreePages.SplitLeafPages | src/btree.cpp:50-67 | the two leaf pages hold the two halves of the old cells with the new one, though the old page is overwritten while it is read; together they are sorted if and only if the key was absent |
| BTreePages.AbsorbPage | src/btree.cpp:130-146 | a node with room gets the separator at its slot and the right child just after the split one |
| BTreePages.ChildFor | src/btree.cpp:87-96 | the descent loop takes the child whose key range covers the key |
| BTreePages.MergeBranches | src/btree.cpp:166-184 | the merged arrays are the old ones with the separator and the right child inserted |
| Storage.SeparatorRoute | src/btree.cpp:167-170 | the slot found again from the separator is the one the descent recorded |
| Storage.AbsorbedUp | src/btree.cpp:129-147 | when the parent has room, the file holds the edited tree |
| Storage.SplitUp | src/btree.cpp:229-233 | when it has none, its halves hold the merged keys and children and the climb goes on one level up |
| Storage.SplitRoot | src/btree.cpp:213-228 | a full root becomes a one-key root on page 0 above its two halves |
| Storage.SplitRootLeaf | src/btree.cpp:31-46 | so does a root leaf |
| BTree.BTree.constructor | src/btree.cpp:10-18 | a new file gets an empty root leaf on page 0; an existing one keeps its tree |
| BTree.BTree.Descend | src/btree.cpp:86-100 | ends on the page of the key's leaf, with the inner nodes passed and the slots taken recorded |
| BTree.BTree.InsertIntoParent | src/btree.cpp:121-151 | finishes the insertion from the split child upward, on any pool of at least three pages |
| BTree.BTree.InternalNodeSplitAndInsert | src/btree.cpp:153-234 | the same for a full parent; every buffer held is still cached when it is used |
| BTree.BTree.CutNode | src/btree.cpp:155-211 | left half in place, right half on a fresh page, middle key pushed up |
| BTree.BTree.RaiseRoot | src/btree.cpp:213-228 | page 0 stays the root |
| BTree.BTree.LeafNodeSplitAndInsert | src/btree.cpp:48-78 | a full leaf splits and the whole tree takes in the new half |
| BTree.BTree.CreateNewRoot | src/btree.cpp:31-46 | the old root page becomes the root above a copy of itself and the new leaf |
| BTree.BTree.Insert | src/btree.cpp:81-119 | the file holds the edited tree, the allocator has moved by exactly the pages it took, no page outside the tree has changed |
| BTree.BTree.Find | src/btree.cpp:255-270 | the stored value as a signed number, or -1 if absent or tombstoned; it fetches one page per level, at most four |
| BTree.BTree.Remove | src/btree.cpp:236-253 | buries a live key and says whether there was one; nothing else changes |
| BTreeRuns.Replay | src/btree.cpp:81-270 | every allowed run of insertions, removals and finds on a new file, on a pool of any capacity, leaves the tree its changes prescribe, and each call is answered as the map would at that point |
| BTreeRuns.ReplayTwice | src/buffer_pool.cpp:3-25 | two pools of different capacities give the same answers, tree and page ids |
| SlottedPage.InsertAddsRecord | src/slotted_page.cpp:53-90 | a record that fits takes the first slot that holds none, and every other record keeps its slot and bytes |
| SlottedPage.RefusedUnchanged | src/slotted_page.cpp:59-71 | an insertion fails exactly when the record and a directory that grows unless some slot is dead overrun the free space, and then changes nothing |
| SlottedPage.DeleteRemovesRecord | src/slotted_page.cpp:100-104 | exactly one record goes, and its directory entry is zero |
| SlottedPage.UpdateReplacesRecord | src/slotted_page.cpp:106-119 | exactly one record is replaced, in place if it fits there; a failed relocation drops it |
| SlottedPage.UpdateFails | src/slotted_page.cpp:106-119 | for which slot and length an update fails, said of the page before it |
| SlottedPage.UpdateLosesRecord | src/slotted_page.cpp:106-119 | an update loses a live record if and only if the new one is longer and does not fit beside the directory |
| SlottedPage.LossReached | src/slotted_page.cpp:106-119 | after one insertion of one byte an update loses the record if and only if it has more than 4087 bytes |
| SlottedPage.RunIsSafe | src/slotted_page.cpp:53-119 | along every sequence of operations the directory stays below the records, live records stay inside the page and disjoint, and each step has exactly its effect |
| SlottedPage.Init | src/slotted_page.cpp:10-15 | an empty page |
| SlottedPage.Insert | src/slotted_page.cpp:53-90 | the method on a page buffer is the specified insertion, into the first dead slot if there is one |
| SlottedPage.Get | src/slotted_page.cpp:92-98 | the bytes of a live slot, nothing for any other |
| SlottedPage.DeleteSlot | src/slotted_page.cpp:100-104 | the method is the specified deletion |
| SlottedPage.Update | src/slotted_page.cpp:106-119 | the method is the specified update |
| Schema.RowRoundTrip | src/schema.cpp:50-88 | decoding a stored row of at most 65535 bytes gives back its values, coerced to the column types, and reads nothing beyond them |
| Schema.NothingBeyond | src/schema.cpp:70-88 | what follows a row with a value for every column is not read |
| Schema.CoercedAt | src/schema.cpp:50-67 | a stored row has the number of each INT column and the text of each TEXT column, in the order of the columns |
| Schema.TypedIsCoerced | src/schema.cpp:50-67 | a stored row is of full width and the right types exactly when it had a value for every column; a typed row is stored unchanged |
| Schema.WidthsIgnored | src/schema.cpp:50-88 | encoding and decoding depend on the types of the columns only |
| Schema.WidthsUnchecked | src/schema.cpp:50-67 | a row read back keeps to the declared widths if and only if the row stored did |
| Schema.RecordReadsBack | src/table.cpp:73-75 | the bytes stored for a row read back as its coerced values if and only if the encoding has at most 65535 bytes; then they are the encoding |
| Schema.StoredPart | src/table.cpp:73-75 | of a longer encoding the front is stored, shorter by a multiple of 65536 |
| Schema.LongTextLost | src/table.cpp:73-75 | a text of 65536 bytes is stored as two zero bytes, the empty text |
| Schema.SerializeRow | src/schema.cpp:50-68 | the loop is the encoding |
| Schema.DeserializeRow | src/schema.cpp:70-88 | the loop is the decoding |
| Schema.SchemaRoundTrip | src/schema.cpp:11-41 | decoding an encoded schema gives its columns if and only if there are at most 255 and no name is longer than 255 bytes |
| Schema.TypeByte | src/schema.cpp:26-41 | any type byte but 0 is read as TEXT |
| Schema.FewerColumns | src/schema.cpp:26-41 | a column count beyond the columns there are does no harm |
| Schema.SerializeSchema | src/schema.cpp:11-24 | the loop is the encoding |
| Schema.DeserializeSchema | src/schema.cpp:26-41 | the loop is the decoding |
| Schema.FindCol | src/schema.cpp:5-9 | the first column of that name, or -1 |
| HeapFile.PtrRoundTrip | src/table.h:13-17 | page and slot come back from a packed pointer, and heap pointers stay non-negative as signed numbers |
| HeapFile.RecordPlaced | src/table.cpp:87-94 | a record placed and entered in the index keeps index and heap in agreement |
| HeapFile.RecordDeleted | src/table.cpp:129-137 | so does a slot freed and its entry buried; no other row's pointer or bytes change |
| HeapFile.PlacedOwned | src/table.cpp:87-94 | every live slot still belongs to a live row |
| HeapFile.DeletedOwned | src/table.cpp:129-137 | and after a deletion too |
| HeapFile.DeadSlots | src/slotted_page.cpp:58-64 | a heap page has a slot to reuse if and only if it has more slots than live rows |
| HeapFile.RoomOnEmptyPage | src/table.cpp:80-89 | a fresh heap page takes a record if and only if it has at most 4088 bytes |
| HeapFile.RoomIsFreeBytes | src/slotted_page.cpp:42-51 | the free space of a page is what its header says lies between slot directory and records |
| TableState.MetaApart | src/table.cpp:14-24 | writing the meta page disturbs neither index nor heap |
| TableState.AllocatorBound | src/buffer_pool.h:21 | page ids never run out of 32 bits |
| TableState.RowidsBounded | src/table.cpp:73-99 | when every row takes bytes, at most 1045506 rowids are ever handed out, however many rows are deleted in between |
| TableState.RowLookup | src/table.cpp:155-166 | a live rowid leads through the index to exactly its bytes; any other is absent or tombstoned |
| TableState.RowAdded | src/table.cpp:87-97 | the whole-table invariant over an insertion |
| TableState.RowRemoved | src/table.cpp:123-139 | the whole-table invariant over a deletion |
| Meta.WriteMeta | src/table.cpp:14-24 | the meta page says exactly the counters and columns, and no other page changes |
| Meta.ReadMeta | src/table.cpp:26-35 | what the meta page says |
| Table.OverlongStored | src/table.cpp:73-89 | a new table takes a text of up to 4082 bytes into a column of any declared width |
| Table.Table.constructor | src/table.cpp:39-54 | creates an empty table on disk in an empty file, or opens the table a file holds |
| Table.Table.PageFor | src/table.cpp:77-85 | the current page if the record leaves the required room, else the next one, laid out now |
| Table.Table.RoomBytes | src/table.cpp:77-80 | so is the free space the table goes by |
| Table.Table.EnterRow | src/table.cpp:90-94 | the rowid is entered in the index, which still lives exactly on page 0 and the pages from 1024 to the allocator; meta page and current heap page are as before |
| Table.Table.CounterOnDisk | src/table.cpp:96-97 | the row counter on disk is never ahead, and current if and only if the meta page has been written back since it was last marked |
| Table.Table.MetaTakenForHeap | src/table.cpp:80-85 | when the heap pages have run out, the next insertion would lay out the meta page as a heap page, losing the counter, if and only if the counter is below 65536 |
| Table.Table.InsertRow | src/table.cpp:73-100 | which of three outcomes occurs, decided by free space and length, and exactly what is left of the free space and slots; the current page stays if and only if at least 8 bytes more than the record takes are free; on success the next rowid maps to the stored row, nothing else changes, the counter is current on the meta page and behind on disk; on failure no row changes |
| Table.Table.FindByRowid | src/table.cpp:155-166 | the row under that rowid, if live |
| Table.Table.Scan | src/table.cpp:102-121 | the callback sees the live rows in rowid order until it asks to stop, and the count is of those it saw |
| Table.Table.DeleteRow | src/table.cpp:123-139 | removes exactly that row, and says whether it was live; every other index entry, the meta page and the free space are kept |
| Table.Table.DeleteWhere | src/table.cpp:141-153 | removes exactly the rows satisfying the predicate and returns their number; the others keep bytes and index entry |
| Table.Table.Close | src/table.cpp:56-61 | everything is on disk, the counter included, and the file ends where the allocator stands |
| Scans.ListingExact | src/table.cpp:104-119 | the scan order lists each live row once, by ascending rowid |
| Scans.MatchingExact | src/table.cpp:144-148 | the rowids collected for deletion are those of the matching rows, each once |
| TableRuns.Perform | src/table.cpp:39-166 | outcome and new state of one operation, reopening included, are a function of rows, next rowid, and the number, free space, slots and live rows of the current heap page |
| TableRuns.Replay | src/table.cpp:39-166 | so are those of every run of operations, up to one that exhausts the heap pages; full width, numbering and declared widths are kept if the rows inserted have them |
| TableRuns.ReplayTwice | src/buffer_pool.cpp:3-25 | two tables in the same state, on pools of any capacities, give the same outcomes and end in the same state, also when they are reopened with different capacities |
| TableRuns.DeletedForGood | src/table.cpp:141-153 | after a deletion by predicate, and until something is inserted, the same deletion removes nothing and reports 0 |
| TableRuns.PagesRunOut | src/table.cpp:80-85 | in a new table 510 rows of 4085 to 4088 bytes fill all heap pages, and the 511th insertion stops with the meta page as the current page |
| TableRuns.RunsFill | src/table.cpp:77-85 | a new table fed with rows of at most L <= 4084 bytes is not stopped before 511 * ((4092 - (L + 8)) / (L + 4) + 1) of them are in, and no insertion fails before, whatever else the run does |
| TableRuns.FillUp | src/table.cpp:63-85 | the same on the table itself, which then has a meta page that the next insertion would lay out anew |
| TableRuns.RunKeepsFullWidth | src/schema.cpp:50-67 | a table fed with rows of full width has only such rows |
| TableRuns.RunKeepsNumbering | src/sql_engine.cpp:302-318 | a table whose insertions carry the next rowid in column 0 has only rows numbered by their rowids |
| TableRuns.WidthsKept | src/schema.cpp:50-67 | rows within their widths stay so under deletions, and under an insertion if and only if the new row is |
| TableRuns.RunKeepsWidths | src/schema.cpp:50-67 | a table fed with rows within their widths has only such rows |
| Persistence.CloseAndReopen | src/table.cpp:39-61 | a new pool of any capacity over the closed file opens the same table, with the same free space, and allocates beyond every page of its index |
| Decimal.RenderRoundTrip | src/schema.cpp:43-46 | reading a rendered 32-bit integer gives it back |
| Decimal.RenderInjective | src/schema.cpp:43-46 | different integers are rendered differently |
| Decimal.RenderIsDecimal | src/schema.cpp:43-46 | an integer is rendered as its decimal: sign, then digits by their place, no padding |
| Decimal.StoiExact | src/sql_engine.cpp:223 | a text is read as n if and only if it consists of spaces, an optional sign, digits that say n, and anything not starting with a digit, and n is a 32-bit integer |
| Decimal.TextLessPrecedes | src/sql_engine.cpp:233-238 | texts are compared by the first byte in which they differ, a proper prefix before the longer text |
| Query.ScanSelects | src/sql_engine.cpp:320-332 | the scan answers the first `limit` projected matching rows; it has looked at all rows, or up to the one that filled the answer |
| Query.SeenExactly | src/sql_engine.cpp:320-332 | that fixes the number of rows looked at |
| Query.LimitCaps | src/sql_engine.cpp:302-332 | a select exceeds its limit if and only if that is negative, or 0 and some row is there to be shown; a limit that is not positive, and any limit on the fast path, changes nothing |
| Query.FastPathRefinesScan | src/sql_engine.cpp:302-318 | when rows are numbered by their rowids, point lookup and scan answer alike for every literal, projection and limit |
| Query.FastPathNeedsNumbering | src/sql_engine.cpp:302-318 | when some row is not, `SELECT *` for its rowid answers differently |
| Query.FastPathExactly | src/sql_engine.cpp:302-318 | so they agree for every literal and limit if and only if all rows are numbered by their rowids |
| Query.NumberingKept | src/sql_engine.cpp:302-318 | deletions keep the numbering, and so do insertions that carry the next rowid in column 0 |
| Query.SelectOutputs | src/sql_engine.cpp:286-298 | the columns shown and their names, or the first name that is no column |
| Answers.IntegerWhere | src/sql_engine.cpp:216-229 | on an INT column each of the six comparisons means the relation between the value and the number the literal says |
| Answers.TextWhere | src/sql_engine.cpp:230-240 | on a TEXT column each of them means the relation between the texts |
| Answers.NothingCompared | src/sql_engine.cpp:217-219 | a column that does not exist or that the row is too short for matches nothing, and no clause matches everything |
| Answers.ProjectShows | src/sql_engine.cpp:286-329 | the cells shown are the values of the columns asked for, in that order: a text as it is, an integer as its decimal, NULL where the row has none |
| Answers.ScanAnswers | src/sql_engine.cpp:320-332 | the answer shows matching rows by ascending rowid, and every matching row that a positive limit does not cut off behind them |
| Answers.LookupAnswers | src/sql_engine.cpp:302-318 | the fast path shows the row whose rowid is the literal modulo 2^32, or nothing |
| Answers.SelectReports | src/sql_engine.cpp:286-298 | the error is the first name that is no column; without one the names shown are those asked for |
| Answers.SurvivesUnmatched | src/sql_engine.cpp:216-242 | a row survives a DELETE if and only if its value stands in the opposite relation to the literal, or there is nothing to compare |
| SqlEngine.ExecSelect | src/sql_engine.cpp:286-334 | the answer of a select on the open table: which rows and what their cells say, column names, error, exactly how many rows were looked at, and when there are more than the limit |
| SqlEngine.FastPathOnTable | src/sql_engine.cpp:302-318 | on every table whose first column is an INT, fast path and scan agree for every literal and limit if and only if all rows are numbered by their rowids |
| SqlEngine.ExecDelete | src/sql_engine.cpp:356-371 | removes exactly the rows that match and counts them; a row survives `<` if and only if its value is at least the literal, and so on for every comparison and both column types |
| Join.FindCombined | src/sql_engine.cpp:379-400 | the loops resolve a reference as specified |
| Join.ResolveCol | src/sql_engine.cpp:379-400 | a qualified reference means the first column of that name, a bare one the only such column; ambiguity and absence are told apart |
| Join.QualifiedLeft | src/sql_engine.cpp:379-400 | `left.col` finds that column of the left table |
| Join.QualifiedRight | src/sql_engine.cpp:379-400 | `right.col` finds that column of the right table if and only if the tables have different names or the left one has no such column |
| Join.BareResolves | src/sql_engine.cpp:379-400 | `col` finds the only column of that name in both tables, if and only if there is exactly one |
| Join.TextComparisonsAgree | src/sql_engine.cpp:404-430 | on TEXT the two WHERE evaluators agree on every text if and only if the literal is no number |
| Answers.CombinedNumbers | src/sql_engine.cpp:404-421 | after a join each comparison means the relation between the numbers if both sides read as numbers |
| Answers.CombinedTexts | src/sql_engine.cpp:422-430 | and between the texts if not |
| Answers.NothingCombined | src/sql_engine.cpp:407-409 | a reference that does not resolve, or beyond the row, matches nothing |
| Join.JoinOutputs | src/sql_engine.cpp:536-551 | the combined columns shown, or the first reference that is unknown or ambiguous |
| Join.RowJoins | src/sql_engine.cpp:573-593 | the inner loop goes through one left row's pairs and stops only at a full answer |
| Join.CrossExact | src/sql_engine.cpp:553-576 | the nested loop meets each live left row with each live right row, once, in ascending order of left and then right rowid |
| Join.JoinIsCorrect | src/sql_engine.cpp:553-595 | the join answers exactly the matching pairs, projected, by left and then right rowid, cut to the limit; it has looked at all pairs, or up to the one that filled the answer |
| Join.PairsSeenExactly | src/sql_engine.cpp:573-593 | that fixes the number of pairs looked at |
| Join.JoinLimitCaps | src/sql_engine.cpp:592 | a join exceeds its limit if and only if that is negative, or 0 and some pair matches; a limit that is not positive changes nothing |
| Join.IntegerKeys | src/sql_engine.cpp:570-574 | on a pair of INT columns comparing rendered keys is comparing integers |
| Join.IntegerJoin | src/sql_engine.cpp:553-595 | so on rows of full width and INT columns the whole answer is that of the join by integer equality |
| Answers.KeysSame | src/sql_engine.cpp:557-576 | two rows are joined if and only if their ON columns hold the same integer, the same text, or an integer and its decimal; a missing value is the empty text |
| Answers.OnMeansNames | src/sql_engine.cpp:489-529 | an ON clause joins the columns it names, turned round if and only if its first reference is to the right table by name |
| Answers.OnEitherWay | src/sql_engine.cpp:489-529 | either order of the two references, qualified or bare, means the same columns; when both tables have one name, the first qualified reference counts as the right one |
| Answers.ProjectedRefs | src/sql_engine.cpp:579-590 | the cells shown are the values of the combined columns asked for, in that order |
| Answers.JoinAnswers | src/sql_engine.cpp:553-595 | the answer shows joining pairs of live rows by left and then right rowid, and every such pair that a positive limit does not cut off behind them |
| Answers.JoinReports | src/sql_engine.cpp:530-551 | the error is the ON column missing on the left, then on the right, then the first reference that is ambiguous or unknown; without one the names shown are the combined ones |
| Join.EvaluatorsAgree | src/sql_engine.cpp:404-430 | on an INT column both WHERE evaluators agree for every operator |
| Join.PushdownLeft | src/sql_engine.cpp:567-595 | filtering the left table first gives the same answer as filtering the join |
| Join.PushdownRight | src/sql_engine.cpp:567-595 | and so does filtering the right table first, the left rows being of full width |
| Join.FullWidthKept | src/schema.cpp:50-67 | rows stay of full width while rows of full width are inserted |
| SqlEngine.ExecJoin | src/sql_engine.cpp:517-597 | the result of a join, on two open tables or one table joined with itself, for the columns the ON clause means: rows and what their cells say, column names, exactly how many pairs were looked at, when there are more rows than the limit, or the first error |
| SqlEngine.JoinBothWays | src/sql_engine.cpp:489-529 | `a JOIN b ON a.x = b.y` and `a JOIN b ON b.y = a.x` return the same result, joined on those columns |
| SqlEngine.PushdownLeftTable | src/sql_engine.cpp:567-595 | on two tables whose left one has rows of full width, an integer filter on a left column, named with its table or alone, may be applied before the join |
| SqlEngine.PushdownRightTable | src/sql_engine.cpp:567-595 | and one on a right column, both tables having rows of full width |
| SqlEngine.IntegerJoinTable | src/sql_engine.cpp:553-595 | on two tables with rows of full width, joined on INT columns, the answer is that of the join by integer equality |

## Left out

- Opening files, operating-system errors and crashes: the pager is an abstract disk, and only orderly closing and
  reopening is modelled. The bytes of a file that is no multiple of 4096 long are not.
- Tokenizing and parsing SQL, CREATE and INSERT statements, and printing: queries start from parsed clauses. INSERT
  always builds rows of full width, which is the hypothesis of `SqlEngine.PushdownRightTable`.
- The engine's map of open tables, the REPL, the demo and the benchmarks.
- Byte order: integers are little-endian on disk, as on the machines the original is built for.
- Query.MatchWhere: `std::stoi` throws on a literal that is no 32-bit integer, which ends the statement.
- SqlEngine.ExecSelect: requires that no row is compared with such a literal and the fast path does not read one; the
  original ends all other statements by that exception.
- SqlEngine.ExecDelete: requires that no row is compared with such a literal, for the same reason.
- Query.SelectRow: callbacks are pure functions from state to state, the vectors they grow are sequences, and the inner
  loop of a join is a recursive function, because a callback cannot be a method.
- BTree.BTree.Insert: requires the key to be absent or its leaf not full; `BTreePages.SplitLeafPages` says what the leaf
  pages hold otherwise. Its descent, and those of `Find` and `Remove`, are one method that records ancestors, which the latter two ignore.
- BTree.BTree.Find: rows up to 2^31 - 1 are returned as stored; `Index.Allowed` requires such values, which also keeps the
  tombstone out.
- Table.Table.InsertRow: requires the current heap page to be one, so a table is not used again after the out-of-pages
  exception (`Table.Table.MetaTakenForHeap`); and of a row longer than 65535 bytes that the part stored decodes.
- TableRuns.Replay: runs on a table with columns, into which rows of at least one value and at most 65535 stored bytes are
  inserted, as INSERT statements do; rows that take no bytes are counted by `TableState.RowidsBounded` but could use up
  32-bit rowids.
- Table.Table.constructor: requires that the encoded schema fits the meta page, which the original does not check.
- BufferPool.BufferPool.GetPage: the list of entries and the hash map of iterators into it are a sequence of page numbers and a map
  from page numbers to entries; an entry's buffer is an array that stays the same while the page is cached.
- Schema.DecodeColumn: a type byte above 1 is read as TEXT, which is how the original treats it.
- BTree.BTree.LeafNodeSplitAndInsert: requires an absent key, as `Insert` does.
- Schema.DeserializeSchema: requires bytes that decode; the original reads past the end of others.
- Schema.DeserializeRow: requires bytes that decode; the original reads past the end of others.
- Table.Table.Scan: reports whole rows; that the row count of a 32-bit counter could wrap is excluded by `TableState.RowidsBounded`.
