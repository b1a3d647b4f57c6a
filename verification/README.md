# CurioDB: a verified model of its storage engine, planner and SQL parser

CurioDB keeps relational tables in one file of 4096-byte pages. This project models how it does that, from the bytes of
a page up to SQL statements, and proves that each layer means what the layer above takes it to mean. The methods follow
the C++ code branch by branch, on mutable objects where the code mutates objects; each is proved against a
specification on values, and the laws are proved about those specifications.

| layer | files | what is shown |
|---|---|---|
| bytes | `Bytes`, `Seqs`, `Views`, `Results` | little-endian integers, pages, framing |
| buffer pool | `PoolSpec`, `PoolLru`, `BufferPool` | a write-back LRU cache with pins that cannot be told from an uncached array of pages |
| B+ tree | `TreeSpec`, `TreePages`, `TreeLaws` | the tree as a value: insert with splits and erase without merges, as maps; bounds, depth, leaf chain, pages, fill |
| | `NodePage`, `TreeStore`, `TreeWalk`, `BPlusTree` | the node format, a tree stored in pages, and the code that walks and changes it page by page |
| rows | `Values`, `Serialization` | values and the row format |
| formats | `Formats`, `CatalogVersions` | every format byte by byte, and which bytes are a row, a node, a page or a catalog at all |
| heap | `SlottedPage`, `TableLog`, `TableHeap`, `Packing` | slotted pages, the heap as a log of rows in append order, and how moved rows fill it up |
| one table | `Schema`, `Agreement`, `TableState`, `IndexUpkeep`, `Updates`, `TableWork`, `Meaning` | heap and indexes kept in agreement by INSERT, DELETE, UPDATE and CREATE INDEX |
| | `LostRows`, `LostRowExample` | what a refused UPDATE leaves behind |
| one database | `CatalogFormat`, `CatalogStorage`, `DatabaseState`, `DiskStorage` | the catalog in page 0, all tables together, closing and reopening |
| SELECT | `Ast`, `Planner` | index plans answer as full scans do |
| SQL text | `Lexer`, `LexerLaws` | the tokens of a text, and what a token is letter by letter |
| | `Grammar`, `Parser`, `Sentences` | recursive descent, and the grammar whose sentences it accepts exactly |
| | `Printer`, `StatementPrinter` | lexing and parsing undo printing, for conditions and for whole statements |

What the definitions mean. A definition that code and specification share is tied down by a law in simpler terms: the
tests of INSERT, UPDATE and DELETE in the fields of a schema and the rows of a scan (`Meaning`, `Schema.RowOkIs`), the
comparisons on values (`Planner.MatchesIntegers` and its neighbours), names letter by letter (`Schema.SameNameIs`),
tokens by their characters (`LexerLaws`), statements by a grammar (`Sentences`), and bytes by their positions (`Formats`).

How the layers meet. The pool's meaning is `View`: the pages a reader would see. Every layer above speaks of the view
only, so eviction and write-back never appear there. A tree object carries the tree it stands for (`shape`), a heap its
list of pages; `Valid` says that the bytes in the view are exactly that tree or those rows. `DiskStorage.Valid` adds
that no page has two owners and that every index holds exactly the non-null values of its column with the ids of their
rows. Every operation requires and ensures `Valid`, so it holds after every run of operations; `IndexesAgree` spells
out what it says. The exception is an UPDATE that fails half-way, whose exact outcome is stated (`UpdateWhere`).

What a caller must grant. Page ids stay below 2^32 - 1, because the code uses that number both as an id and as "no
page" (`src/storage/b_plus_tree.cpp:23`, `src/catalog/catalog_storage.cpp:256`). Operations that add pages therefore
ask for room: one page for a heap insert and 34 for a tree insert, which is enough for a tree of any size because its
depth is at most 32 (`DepthBound`). Disk calls succeed. Rows in a table suit its schema, as `insert` checks.

Where the code does less than one might expect, the model keeps it and says exactly when:

- UPDATE is not all-or-nothing. It stops at the first row that is refused, which the scan tells (`FirstRefused`), and
  leaves the rows before it changed; the table is what it was exactly when those had nothing to change (`HalfDone` is a
  case where they had).
- Such an UPDATE does not store the new list of heap pages. Rows are lost exactly when those that had to move before it
  stopped take more room than the last heap page has, and exactly those that no longer fitted (`StoppedHeap`,
  `Packing.KeptIs`). The database is still valid exactly when no index mentions a lost row (`UpdateWhere`).
  `LostRowExample.LoseRow` loses a row in this way.
- Nor does it store the catalog. When an index has got a new root by then, page 0 still names the old one, so that
  closing and reopening does not give the same database even when no row is lost and `Valid` holds. A catalog that was
  up to date before stays so exactly when the update left the tables, roots included, as they were (`UpdateWhere`).
  What reopening gives from whatever catalog was stored last is said by `ReopenAs`. Every other operation leaves a
  stored catalog that was up to date so, a refused CREATE INDEX included, unless the new catalog does not fit its page.
- UPDATE of a key column that matches no row is still refused when some row holds the value (`NoMatchClash`).
- INSERT can report a catalog that no longer fits its page after the row has gone in: when the
  catalog did fit before, exactly when the last heap page has no room and the catalog page no four bytes for one page
  more (`Insert`, `PagesFit`). `FullCatalog` is such a catalog. Opened with the tables from before, the database then
  lacks the row, and is sound exactly when no index mentions it (`InsertedBehind`).
- A record of length zero cannot be told from a deleted one (`Kept`); encoded rows are never empty.

## Model

| member | source | states |
|---|---|---|
| `PoolSpec.Transparent` | src/storage/buffer_pool.cpp:77-172 | in any legal run of fetches, writes, releases, allocations and flushes, whatever is evicted on the way, every fetch that succeeds sees exactly what an uncached array of pages would hold |
| `PoolSpec.EvictKeeps` | src/storage/buffer_pool.cpp:129-149 | eviction takes out exactly the victim, frees one frame, and changes no page a reader can see |
| `PoolSpec.ModifyKeeps` | src/storage/buffer_pool.cpp:49-57 | writing through a guard changes that page in the view and no other, and the pool stays coherent as long as the guard is marked dirty in time |
| `PoolSpec.UnpinKeeps` | src/storage/buffer_pool.cpp:162-172 | releasing a guard that is dirty if it wrote loses nothing: the view stays, and a frame that is clean with no writer outstanding equals its disk page |
| `PoolSpec.VictimUnique` | src/storage/buffer_pool.cpp:129-143 | stamps of resident pages differ, so the least recently used unpinned page is one page whatever order the frames are looked at |
| `PoolSpec.VictimExists` | src/storage/buffer_pool.cpp:129-143 | there is a victim exactly when some resident page is unpinned |
| `PoolSpec.FetchFails` | src/storage/buffer_pool.cpp:120-160 | exactly when a fetch fails: no frame can be freed (full, every page pinned, page not resident), or the page does not exist |
| `PoolSpec.IdleFetchSucceeds` | src/storage/buffer_pool.cpp:120-160 | with nothing pinned and room for one page, fetching an existing page never fails |
| `PoolSpec.FlushAllKeeps` | src/storage/buffer_pool.cpp:109-118 | flushing everything leaves the view and the resident set as they are and, with no unreleased writer, makes the disk equal to the view |
| `PoolSpec.WriteAroundKeeps` | src/catalog/catalog_storage.cpp:294-328 | writing a page that is not resident past the pool changes the view at that page only, and keeps the pool coherent |
| `PoolLru.ResidentSet` | src/storage/buffer_pool.cpp:77-86 | after any run of accesses from an empty pool the resident pages are exactly the last `capacity` distinct pages used, ranked by recency |
| `PoolLru.LargerHoldsMore` | src/storage/buffer_pool.cpp:129-149 | a larger pool holds everything a smaller one holds after the same run |
| `BufferPool.DiskManager.AllocatePage` | src/storage/disk_manager.cpp:39-56 | a fresh zeroed page at the end, refused exactly when page ids run out |
| `BufferPool.DiskManager.ReadPage` | src/storage/disk_manager.cpp:58-72 | the page if it exists, else an error |
| `BufferPool.DiskManager.WritePage` | src/storage/disk_manager.cpp:74-88 | that page and no other changes, and only if it exists |
| `BufferPool.BufferPool.FetchPage` | src/storage/buffer_pool.cpp:77-86 | does the specified step of the pool; the view is unchanged, and success gives a pinned guard showing that page of the view |
| `BufferPool.BufferPool.Load` | src/storage/buffer_pool.cpp:120-160 | frames, disk and error are those of the specified load: evict first, then read |
| `BufferPool.BufferPool.ChooseVictim` | src/storage/buffer_pool.cpp:129-143 | the loop over the frames finds the specified victim, or that there is none |
| `BufferPool.BufferPool.AllocatePage` | src/storage/buffer_pool.cpp:88-94 | the view gains one zeroed page, and the guard pins it; with nothing pinned it cannot fail while ids last |
| `BufferPool.BufferPool.FlushPage` | src/storage/buffer_pool.cpp:96-107 | one dirty page is written and marked clean; nothing else moves |
| `BufferPool.BufferPool.FlushAll` | src/storage/buffer_pool.cpp:109-118 | all pages are flushed, in whatever order; with no guard outstanding the disk equals the view |
| `BufferPool.BufferPool.Unpin` | src/storage/buffer_pool.cpp:162-172 | one pin fewer, a new stamp, dirty if it was or is said to be |
| `BufferPool.PageGuard.Put` | src/storage/buffer_pool.cpp:49-57 | bytes written through a guard change exactly that stretch of that page of the view |
| `BufferPool.PageGuard.Release` | src/storage/buffer_pool.cpp:59-66 | gives the pin back once, passes the dirty mark on, and leaves the view alone; a guard already released does nothing |
| `BufferPool.PageGuard.MoveFrom` | src/storage/buffer_pool.cpp:34-43 | moving a guard releases what the target held, transfers the pin and the dirty mark, and empties the source; moving onto itself changes nothing |
| `TreeSpec.InsertOk` | src/storage/b_plus_tree.cpp:341-449 | insert keeps a subtree well formed within its bounds and at its depth, or splits it into two such halves around a separator |
| `TreeSpec.InsertEntries` | src/storage/b_plus_tree.cpp:341-449 | insert reports a duplicate exactly when the key is there, and otherwise the entries in order are the old ones with the new one in its place |
| `TreePages.InsertIds` | src/storage/b_plus_tree.cpp:366-449 | insert keeps every page it had and takes consecutive fresh ones; no page is used twice |
| `TreePages.InsertLinked` | src/storage/b_plus_tree.cpp:366-394 | insert keeps the leaves linked in order, from the same first leaf to the same tail |
| `TreePages.InsertFilled` | src/storage/b_plus_tree.cpp:408-449 | insert keeps every non-root branch at floor(max/2) keys or more |
| `TreePages.HeightBound` | src/storage/b_plus_tree.cpp:408-449 | a tree of k >= 1 branch levels has at least 2 * (floor(max/2) + 1)^(k - 1) leaves |
| `TreePages.DepthBound` | src/storage/b_plus_tree.cpp:158-181 | while page ids fit 32 bits no tree is deeper than 32 levels |
| `TreeLaws.InsertRootOk` | src/storage/b_plus_tree.cpp:110-156 | the whole insert, a new root included: the tree stays well formed, its map gains exactly the key, and its pages are the old ones and the new span |
| `TreeLaws.EraseOk` | src/storage/b_plus_tree.cpp:183-209 | erase without merging keeps separators valid and drops exactly the key, also when a leaf becomes empty |
| `TreeLaws.EraseRootOk` | src/storage/b_plus_tree.cpp:183-209 | erase keeps the tree well formed with the same pages and root, its leaf chain and its fill |
| `NodePage.ParseWritten` | src/storage/b_plus_tree.cpp:261-339 | reading back a written node gives the node, for leaf and branch, every allowed number of keys, signed keys, 32-bit pages and 16-bit slots |
| `NodePage.WrittenInjective` | src/storage/b_plus_tree.cpp:310-339 | two nodes never have the same page image |
| `Formats.NodeBytes` | src/storage/b_plus_tree.cpp:310-323 | where signature, version, leaf mark, number of keys and link stand in a node, as numbers |
| `Formats.EntryBytes` | src/storage/b_plus_tree.cpp:324-336 | where key, row id and child of every entry stand |
| `Formats.NodePageIs` | src/storage/b_plus_tree.cpp:261-308 | which pages hold a node: signature, version, a count within bounds, and keys that do not decrease |
| `TreePages.RootLeavesFilled` | src/storage/b_plus_tree.cpp:366-394 | in a tree grown from nothing no leaf but a sole one holds fewer than half of the keys it can |
| `BPlusTree.BPlusTree.constructor` | src/storage/b_plus_tree.cpp:99-108 | over an idle pool the tree is intact exactly when its pages hold it; without a root it is intact, holds nothing and owns no page |
| `BPlusTree.BPlusTree.Find` | src/storage/b_plus_tree.cpp:158-181 | the descent answers as the map does, leaves the view alone, and reads exactly depth + 1 pages |
| `BPlusTree.BPlusTree.Erase` | src/storage/b_plus_tree.cpp:183-209 | removes exactly the key from the map, never fails, touches only the tree's own pages and keeps root and page set |
| `BPlusTree.BPlusTree.Range` | src/storage/b_plus_tree.cpp:211-257 | the walk along the leaf chain ends and gives the row ids of exactly the entries within the bounds, across empty leaves |
| `TreeLaws.RangeIsMap` | src/storage/b_plus_tree.cpp:211-257 | that is what the map holds at the keys within the bounds, in ascending order of the keys |
| `BPlusTree.BPlusTree.Insert` | src/storage/b_plus_tree.cpp:110-156 | DuplicateKey exactly when the key is present, and then nothing changes; otherwise the map gains the key, at most 34 pages are added, and no other page of the view changes |
| `BPlusTree.BPlusTree.InsertRecursive` | src/storage/b_plus_tree.cpp:341-449 | the recursion over pages does what insert on the tree value does, splits and fresh pages included |
| `BPlusTree.BPlusTree.ReadNode` | src/storage/b_plus_tree.cpp:261-308 | the node in a page, or CorruptNode exactly when the bytes are no node; one pin, given back |
| `BPlusTree.BPlusTree.WriteNode` | src/storage/b_plus_tree.cpp:310-339 | the page becomes the image of the node and nothing else changes |
| `Serialization.RowRoundTrip` | src/storage/serialization.cpp:211-248 | decoding an encoded row gives the row |
| `Serialization.RowCanonical` | src/storage/serialization.cpp:225-248 | whatever bytes decode, encode to the same bytes again |
| `Serialization.RowCut` | src/storage/serialization.cpp:79-138 | every proper prefix of an encoded row fails with UnexpectedEnd and no other error |
| `Serialization.AppendValue` | src/storage/serialization.cpp:48-77 | appends the encoding of a value, or refuses it when its length does not fit |
| `Serialization.SerializeRow` | src/storage/serialization.cpp:211-223 | the encoding of the row, or InputTooLarge exactly when it has none |
| `Serialization.Reader.ReadValue` | src/storage/serialization.cpp:145-181 | reads the value at the front, with the error the format defines, and leaves the rest |
| `Serialization.DeserializeRow` | src/storage/serialization.cpp:225-248 | decodes the whole input or gives the first error, trailing bytes included |
| `Formats.RowErrors` | src/storage/serialization.cpp:225-248 | which bytes are a row, and which error the others give: data behind a row, a tag above 3 after complete values, or an end too early |
| `Formats.ValueBytes` | src/storage/serialization.cpp:48-77 | tag 0, 1, 2 or 3, then eight bytes, or four for a length and the text; least significant byte first, integers in two's complement |
| `Formats.RowBytes` | src/storage/serialization.cpp:211-223 | four bytes for the number of values, and the values one after the other |
| `Formats.EncodeIs` | src/storage/b_plus_tree.cpp:43-58 | byte k of a written integer is its k-th digit to the base 256 |
| `SlottedPage.Validate` | src/storage/slotted_page.cpp:65-111 | finds the first fault of a page: header, bounds, or overlap |
| `SlottedPage.SortByBegin` | src/storage/slotted_page.cpp:101-103 | the ranges sorted by start are the same ranges, and are pairwise apart exactly when they were |
| `SlottedPage.NeighboursSuffice` | src/storage/slotted_page.cpp:101-109 | in ranges sorted by start, comparing neighbours finds every overlap |
| `SlottedPage.RangesApart` | src/storage/slotted_page.cpp:80-109 | the ranges collected are pairwise apart exactly when the live records are |
| `SlottedPage.InsertKeeps` | src/storage/slotted_page.cpp:140-170 | adding a record keeps the layout, keeps every other record, and uses exactly its length and one slot |
| `SlottedPage.ReplaceKeeps` | src/storage/slotted_page.cpp:185-215 | deleting or overwriting a record keeps the layout and every other record |
| `SlottedPage.SlottedPage.InsertRecord` | src/storage/slotted_page.cpp:140-170 | a new last record, or RecordTooLarge or PageFull exactly when it cannot be, and then nothing changes |
| `SlottedPage.SlottedPage.ReadRecord` | src/storage/slotted_page.cpp:172-183 | the record in the slot, or InvalidSlot or DeletedRecord |
| `SlottedPage.SlottedPage.DeleteRecord` | src/storage/slotted_page.cpp:185-195 | empties exactly that slot, or says why not and changes nothing |
| `SlottedPage.SlottedPage.UpdateRecord` | src/storage/slotted_page.cpp:197-215 | replaces exactly that record when the new one is no longer, else changes nothing |
| `SlottedPage.Load` | src/storage/slotted_page.cpp:217-224 | a page loads exactly when its header and bounds are right and its live records are pairwise disjoint, so every page the other operations leave loads |
| `Formats.FaultIs` | src/storage/slotted_page.cpp:65-111 | which pages load, and which error the others give, in the numbers at their offsets |
| `Formats.RecordBytes` | src/storage/slotted_page.cpp:172-183 | where the slots of a page stand and which bytes are the record of each |
| `TableLog.RowsLookup` | src/storage/table_heap.cpp:129-150 | looking an id up in the log of rows is reading that slot of that page |
| `TableLog.RowsAppend` | src/storage/table_heap.cpp:62-93 | a record added to the last page is a row added at the end of the log |
| `TableLog.RowsDelete` | src/storage/table_heap.cpp:182-214 | a slot emptied is one row taken out of the log |
| `TableLog.RowsUpdate` | src/storage/table_heap.cpp:216-250 | a record replaced is one row replaced, in place |
| `TableLog.RowsUnique` | src/storage/table_heap.cpp:152-180 | no two rows of a heap have the same id |
| `TableHeap.TableHeap.Insert` | src/storage/table_heap.cpp:51-127 | appends the row to the log under an id never given before, or refuses it exactly when it cannot be stored, and then nothing changes |
| `TableHeap.TableHeap.Fetch` | src/storage/table_heap.cpp:129-150 | the row with that id, or InvalidRowId |
| `TableHeap.TableHeap.Scan` | src/storage/table_heap.cpp:152-180 | all rows in the order they were appended |
| `TableHeap.TableHeap.DeleteRow` | src/storage/table_heap.cpp:182-214 | takes out exactly the row with that id; ids are never given again |
| `TableHeap.TableHeap.Update` | src/storage/table_heap.cpp:216-267 | a row that still fits keeps id and position, a longer one moves to the end under a new id, and every other row stays; each error exactly in its case, and then nothing changes |
| `TableHeap.TableHeap.LoadPage` | src/storage/table_heap.cpp:274-296 | the slotted page, or CorruptPage exactly when its bytes are not one; the pin is given back |
| `Schema.ValidateRow` | src/storage/row_validation.cpp:39-82 | accepts exactly the rows with one value for every column, NULL only where neither NOT NULL nor PRIMARY KEY forbids it, values of the column's kind and texts within its length; else names the first fault |
| `Schema.RowOkIs` | src/storage/row_validation.cpp:39-82 | for columns with proper types, a row suits the schema exactly when that holds of every column |
| `Schema.ColumnFaultIs` | src/storage/row_validation.cpp:53-79 | which of the four errors a value gets in a column, case by case |
| `Schema.SameNameIs` | src/storage/disk_storage.cpp:21-29 | two names are the same exactly when they agree letter by letter but for the case |
| `Values.EqualIs` | include/curiodb/types/value.hpp:27 | when two values are equal, kind by kind: zeros of both signs are, and what is no number is not |
| `Agreement.AgreementIsUnique` | src/storage/disk_storage.cpp:233-272 | a column whose index agrees with the rows has no value twice |
| `Agreement.IndexKnowsTaken` | src/storage/disk_storage.cpp:250-272 | a key is in an agreeing index exactly when some row holds it |
| `Agreement.AddKeeps` | src/storage/disk_storage.cpp:280-297 | adding a row and its value keeps an index in agreement |
| `Agreement.RemoveKeeps` | src/storage/disk_storage.cpp:395-418 | removing a row and its value keeps an index in agreement, and the value was there |
| `TableState.CollisionsFound` | src/storage/disk_storage.cpp:229-272 | the checks of INSERT, a scan for some keys and an index lookup for the rest, find a collision exactly when there is one in a guarded column |
| `TableState.SoundIsUnique` | src/storage/disk_storage.cpp:229-272 | in a sound table no guarded column repeats a non-null value |
| `TableState.SoundAdded` | src/storage/disk_storage.cpp:273-297 | a row that collides with none can be added to rows and indexes |
| `TableState.SoundRemoved` | src/storage/disk_storage.cpp:395-418 | a row can be taken out of rows and indexes |
| `TableState.SoundMoved` | src/storage/disk_storage.cpp:500-546 | a row can be replaced, under its id or a new one, with its index entries |
| `TableState.BlockedIsCollision` | src/storage/disk_storage.cpp:483-499 | the index check of UPDATE finds an obstacle exactly when the new version collides with another row |
| `TableState.TreeStep` | src/storage/b_plus_tree.cpp:110-156 | work on one tree leaves heap and other trees of the table as they were |
| `TableState.HeapStep` | src/storage/table_heap.cpp:51-127 | work on the heap leaves the trees of the table as they were |
| `IndexUpkeep.AnyOccupied` | src/storage/disk_storage.cpp:250-272 | looks the row's values up in every index |
| `IndexUpkeep.AddToIndexes` | src/storage/disk_storage.cpp:280-297 | after the checks no tree insert can meet a duplicate, with any number of indexes on a column, and every index gains the row |
| `IndexUpkeep.RemoveFromIndexes` | src/storage/disk_storage.cpp:395-418 | every index loses exactly the row's value |
| `IndexUpkeep.AnyBlocked` | src/storage/disk_storage.cpp:475-499 | looks up the values that change |
| `IndexUpkeep.MoveInIndexes` | src/storage/disk_storage.cpp:512-546 | every index goes from the old value to the new one with the row's new id, without an error |
| `Updates.UpdateMapsRows` | src/storage/disk_storage.cpp:474-547 | the rows after an update are, as a multiset, the old rows mapped one for one |
| `Updates.NothingChanged` | src/storage/disk_storage.cpp:474-511 | rows seen to by an update that stopped are as before exactly when none had anything to change |
| `TableWork.CheckInsert` | src/storage/disk_storage.cpp:229-272 | INSERT is let through exactly when the row suits the schema and collides with no row |
| `TableWork.InsertRow` | src/storage/disk_storage.cpp:214-305 | the row goes in at the end under a new id, and into every index, exactly when it suits the schema, collides with none and can be stored; else nothing changes |
| `TableWork.DeleteRows` | src/storage/disk_storage.cpp:379-429 | exactly the matching rows go, the others keep order and id, the count is right, and everything is written out |
| `TableWork.CheckKeys` | src/storage/disk_storage.cpp:448-473 | the check before the loop finds more than one match, or another row that holds the value |
| `TableWork.CollisionInScan` | src/storage/disk_storage.cpp:475-499 | what a row of the loop collides with, read off the scan made before the loop |
| `TableWork.NoKeyCollision` | src/storage/disk_storage.cpp:448-499 | once the check before the loop has passed, no row of the loop repeats a key value |
| `TableWork.UpdateOne` | src/storage/disk_storage.cpp:475-546 | one row takes its new version, in heap and indexes together, or is refused with nothing changed, exactly when it collides or cannot be stored |
| `TableWork.UpdateEach` | src/storage/disk_storage.cpp:474-548 | the loop succeeds exactly when the update leaves no clash and every new version can be stored, and otherwise stops at the first refused row |
| `TableWork.UpdateRows` | src/storage/disk_storage.cpp:431-556 | accepted exactly when no clash arises and every new version can be stored, and then every row matching in the first scan has changed once; else nothing has changed, or the update has stopped at the first refused row with the rows before it done |
| `TableWork.StoppedHeap` | src/storage/disk_storage.cpp:500-511 | a heap part of the way through: unchanged exactly when the rows seen to had nothing to change, and over the old list of pages lacking exactly the moved rows that the last page had no room for |
| `Packing.KeptIs` | src/storage/table_heap.cpp:62-127 | rows moved one after the other stay in the last page as long as they fit into its room together |
| `TableWork.HalfDone` | src/storage/disk_storage.cpp:500-511 | a concrete update of an indexed column that is no key: it passes the first check, is refused at the second row, and leaves the first row changed |
| `TableWork.NoMatchClash` | src/storage/disk_storage.cpp:459-472 | an update that matches nothing is refused exactly when some row holds the key value |
| `LostRows.ShortListOk` | src/storage/disk_storage.cpp:548 | over the old list of pages a table is sound exactly when no index mentions a row of the other pages |
| `LostRowExample.RowIsLost` | src/storage/disk_storage.cpp:483-511 | a sound table with a full page whose UPDATE must move its first row to a new page and then refuses the second |
| `LostRowExample.LoseRow` | src/storage/disk_storage.cpp:431-556 | opened from a disk with that table, the database reports an error for the update; then its first row is gone, the index still holds the value of that row, the database is not valid, and the catalog on disk is out of date |
| `Meaning.CollidesIs` | src/storage/disk_storage.cpp:229-272 | a new row collides exactly when some row of the scan has its non-null value in a column that is PRIMARY KEY or UNIQUE or has an index |
| `Meaning.StorableIs` | src/storage/table_heap.cpp:51-93 | a row can be stored exactly when its lengths fit their fields and its record with a slot an empty page |
| `Meaning.RefusalIs` | src/storage/table_heap.cpp:51-93 | which error a row that cannot be stored gives |
| `Meaning.RejectedIs` | src/storage/disk_storage.cpp:379-429 | DELETE leaves exactly the rows that do not match |
| `Meaning.PickedIs` | src/storage/disk_storage.cpp:379-429 | the count of DELETE and UPDATE is the number of places in the scan with a matching row |
| `Meaning.AcceptedIs` | src/storage/disk_storage.cpp:431-556 | when an UPDATE is accepted, in the rows of the scan and the fields of the schema |
| `Meaning.RefusedAtOnceIs` | src/storage/disk_storage.cpp:448-473 | when the check before the loop refuses it: a key, a value, and two matches or another row that has it |
| `Meaning.RefusedIs` | src/storage/disk_storage.cpp:475-511 | when the loop refuses the row at a place of the scan |
| `TableWork.FillIndex` | src/storage/disk_storage.cpp:185-203 | the new index is filled without a duplicate exactly when the column repeats no value, and then agrees with the rows |
| `TableWork.BuildIndex` | src/storage/disk_storage.cpp:152-205 | exactly which error CREATE INDEX gives; on success the table has one more index that agrees, on failure it is as before |
| `CatalogFormat.CatalogBack` | src/catalog/catalog_storage.cpp:170-269 | decoding an encoded catalog gives the catalog |
| `CatalogFormat.PageBack` | src/catalog/catalog_storage.cpp:294-359 | so does reading the catalog page, header and length included |
| `CatalogVersions.DecodeIs` | src/catalog/catalog_storage.cpp:170-269 | for each of the three versions of the format: bytes are read as a catalog exactly when they are the bytes of that version for it and it can be said in that version |
| `CatalogVersions.PageIs` | src/catalog/catalog_storage.cpp:330-359 | what every possible page 0 gives: a catalog, InvalidMagic, UnsupportedVersion or CorruptMetadata |
| `CatalogVersions.NowWritten` | src/catalog/catalog_storage.cpp:56-124 | catalogs are written in version 3 |
| `Formats.CatalogBytes` | src/catalog/catalog_storage.cpp:294-318 | the bytes of page 0: the eight letters, version, size, catalog, zeros |
| `Formats.ColumnBytes` | src/catalog/catalog_storage.cpp:78-96 | the bytes of a column: name, kind, length, and one bit for each constraint |
| `Formats.IndexBytes` | src/catalog/catalog_storage.cpp:107-117 | the bytes of an index: its name, the name of its column, and its root |
| `CatalogStorage.Serialize` | src/catalog/catalog_storage.cpp:56-124 | the encoding, or MetadataTooLarge exactly when a length does not fit its field or the whole does not fit the page |
| `CatalogStorage.Deserialize` | src/catalog/catalog_storage.cpp:170-269 | the catalog in the bytes, or CorruptMetadata |
| `CatalogStorage.StoreCatalog` | src/catalog/catalog_storage.cpp:294-328 | page 0 becomes the catalog page and nothing else changes, or nothing changes at all |
| `CatalogStorage.LoadCatalog` | src/catalog/catalog_storage.cpp:330-359 | what page 0 says |
| `CatalogStorage.InitializeCatalog` | src/catalog/catalog_storage.cpp:273-292 | a catalog goes onto an empty disk only |
| `DatabaseState.StateStep` | src/storage/disk_storage.cpp:214-305 | work on one table keeps the whole database sound and every other heap as it was |
| `DatabaseState.StateStored` | src/catalog/catalog_storage.cpp:294-328 | storing the catalog disturbs no table |
| `DatabaseState.NewTableOk` | src/storage/disk_storage.cpp:123-150 | a new table, with its automatic key indexes, is sound |
| `DatabaseState.NewTableIs` | src/storage/disk_storage.cpp:131-142 | the indexes of a new table: exactly one for every PRIMARY KEY or UNIQUE column of integers, without a root, named after table and column, and no others |
| `DatabaseState.IndexIsScan` | src/storage/disk_storage.cpp:331-366 | a lookup in an agreeing index gives what a scan for the key gives |
| `DatabaseState.StateSensible` | src/catalog/catalog_storage.cpp:249-260 | a sound database never stores a page id that its catalog format takes for "none" |
| `DiskStorage.DiskStorage.IndexesAgree` | src/storage/disk_storage.cpp:123-556 | in every valid database every index is exactly the non-null values of its column with their row ids, and no column that is PRIMARY KEY or UNIQUE or has an index repeats one |
| `DiskStorage.DiskStorage.NoValueTwice` | src/storage/disk_storage.cpp:123-556 | in a valid database no two places of the scan of a table hold the same non-null value in a PRIMARY KEY or UNIQUE column |
| `DiskStorage.DiskStorage.IndexesHold` | src/storage/disk_storage.cpp:123-556 | in a valid database an index holds, for every row of the scan, the row's integer with its id, and nothing else |
| `DiskStorage.DiskStorage.StoreTables` | src/storage/disk_storage.cpp:298-302 | the catalog on disk is the one in memory, or it does not fit and nothing changes |
| `DiskStorage.DiskStorage.CreateTable` | src/storage/disk_storage.cpp:123-150 | adds an empty table with one index for each PRIMARY KEY or UNIQUE column of integers and no other, or says exactly why not, AlreadyExists when a table has the name in whatever case, and changes nothing |
| `DiskStorage.DiskStorage.CreateIndex` | src/storage/disk_storage.cpp:152-212 | exactly which error it gives, AlreadyExists when an index of any table has the name in whatever case, a catalog without room for the index included; rows and other tables stay; a failure leaves the tables and the catalog on disk as they were, and a catalog that was up to date is so afterwards |
| `DiskStorage.DiskStorage.Insert` | src/storage/disk_storage.cpp:214-305 | accepted exactly when the row suits the schema, collides with none and fits; then it is the last row of the table, and the only error left is a catalog without room for the heap page it may need, and what the tables from before then show is told as well; else nothing changes and the error is the first fault, DuplicateValue, or that of the heap; afterwards no PRIMARY KEY or UNIQUE column repeats a value |
| `CatalogFormat.PagesFit` | src/catalog/catalog_storage.cpp:56-124 | a catalog that fits still fits with so many heap pages more exactly when four bytes are left for each |
| `CatalogFormat.FullCatalog` | src/catalog/catalog_storage.cpp:294-328 | a catalog that fits and no longer does with one page more |
| `DiskStorage.DiskStorage.Scan` | src/storage/disk_storage.cpp:307-329 | the rows in order |
| `DiskStorage.DiskStorage.IndexScan` | src/storage/disk_storage.cpp:331-366 | the rows a scan for that key would give, missing keys and NULLs included |
| `DiskStorage.DiskStorage.DeleteWhere` | src/storage/disk_storage.cpp:379-429 | exactly the matching rows go, all other tables stay, and the disk holds everything |
| `DiskStorage.DiskStorage.UpdateWhere` | src/storage/disk_storage.cpp:431-556 | accepted exactly when there is no clash and every new version fits, and then the rows are the old ones mapped and only a catalog short of room for the new pages is an error; refused at once, nothing has changed; stopped later, exactly which rows are kept, whether any is lost, whether the database is still valid, and whether the catalog on disk is still the current one; when the database is valid afterwards no PRIMARY KEY or UNIQUE column repeats a value |
| `DiskStorage.CreateDatabase` | src/storage/disk_storage.cpp:91-121 | an empty disk becomes a valid database without tables |
| `DiskStorage.OpenDatabase` | src/storage/disk_storage.cpp:43-85 | the catalog in page 0, and the database it describes; errors exactly when it cannot be read |
| `DiskStorage.ReopenAs` | src/storage/buffer_pool.cpp:71 | closing and reopening gives the tables of the catalog stored last over the pages as they are now; valid exactly when those tables are sound there |
| `DiskStorage.Reopen` | src/storage/buffer_pool.cpp:71 | when the catalog on disk is the current one, closing and reopening gives a valid database with the same catalog, pages and rows |
| `DiskStorage.DiskStorage.InsertedBehind` | src/storage/disk_storage.cpp:298-302 | what the tables from before an INSERT show after it, as they do when the catalog could not be stored: the row, or, if it went to a page of its own, all but the row, sound exactly when no index mentions it |
| `DiskStorage.DiskStorage.ShortState` | src/storage/disk_storage.cpp:474-548 | with the old list of heap pages of one table the whole database is sound exactly when no index mentions a row of the other pages |
| `DiskStorage.DiskStorage.SameRoots` | src/storage/disk_storage.cpp:544 | the same trees cannot be found from two different lists of roots |
| `DiskStorage.DiskStorage.SavedTells` | src/catalog/catalog_storage.cpp:294-318 | the catalog page before and after an update is the same only for the same tables |
| `Planner.OrderIsEquality` | src/execution/planner.cpp:62-91 | the comparisons agree with equality and with each other, on 64-bit doubles as on integers and text |
| `Planner.MatchesIntegers` | src/execution/planner.cpp:62-91 | what the six comparisons say of two integers |
| `Planner.MatchesTexts` | src/execution/planner.cpp:62-91 | of two texts: a proper beginning comes before, and else the smaller first byte that differs |
| `Planner.MatchesDoubles` | src/execution/planner.cpp:62-91 | of two doubles, by their bits: zeros are equal, and what is no number only differs |
| `Planner.MatchesNull` | src/execution/planner.cpp:62-91 | of NULL, IS NULL, IS NOT NULL, and values of two kinds |
| `Planner.SaysIs` | src/execution/planner.cpp:120-179 | what a condition says of a row, column by column, AND and OR |
| `Planner.KeepIs` | src/execution/operators.cpp:27-36 | the rows kept are those of which the condition says so, in order |
| `Planner.BindIs` | src/execution/planner.cpp:120-179 | exactly when a comparison is turned down, and with which error |
| `Planner.BindMeans` | src/execution/planner.cpp:120-179 | a bound condition holds of a row exactly when the condition says so by column name, NULLs included |
| `Planner.ChooseColumns` | src/execution/planner.cpp:256-292 | the columns asked for, or the first that does not exist |
| `Planner.ColumnsSelectedIs` | src/execution/planner.cpp:256-292 | which columns a SELECT gives, and exactly when it is turned down: a name without a column, or two for one |
| `Planner.PlanIs` | src/execution/planner.cpp:220-298 | a plan reads through an index exactly when the whole condition asks an indexed column to equal an integer, and then through the first such index |
| `Planner.PlanSelect` | src/execution/planner.cpp:220-298 | the plan has the right filter and columns, uses an index only for an equality on a column that has one, and is refused exactly for the first fault |
| `Planner.RunFilter` | src/execution/operators.cpp:27-36 | the rows that satisfy the condition, in order |
| `Planner.RunProjection` | src/execution/operators.cpp:42-54 | the chosen columns of every row, in order |
| `Planner.LookupIsFilter` | src/execution/planner.cpp:226-252 | filtering an index lookup gives what filtering the scan gives |
| `Planner.PlanMeans` | src/execution/planner.cpp:208-298 | any plan made for a statement answers the statement |
| `Planner.PlansAgree` | src/execution/planner.cpp:220-319 | the plan with indexes and the plan without give the same rows in the same order |
| `Planner.ExecuteSelect` | src/execution/statement_executor.cpp:298-358 | SELECT answers by its meaning on the rows of the table, whichever indexes the planner is offered |
| `Lexer.Lexer.Advance` | src/sql/lexer.cpp:97-106 | the line and column kept are always those of the next character |
| `Lexer.Lexer.ScanToken` | src/sql/lexer.cpp:122-167 | the next token as the lexical grammar has it, with its text and place |
| `Lexer.Lexer.ScanNumber` | src/sql/lexer.cpp:178-192 | digits, with a fraction only if a digit follows the point |
| `Lexer.Lexer.ScanString` | src/sql/lexer.cpp:194-206 | a string up to the quote that is not doubled, or Invalid to the end of the text |
| `Lexer.Lexer.Tokenize` | src/sql/lexer.cpp:74-88 | all tokens of the text in order, each where its text is, with nothing but white space between them and none left out, the end mark last |
| `LexerLaws.WordIs` | src/sql/lexer.cpp:26-68 | a word is a keyword exactly when it reads like one of the 27 in letters of any case, and else a name |
| `LexerLaws.WordTokenIs` | src/sql/lexer.cpp:169-176 | a word goes on while letters, digits and underscores do |
| `LexerLaws.NumberTokenIs` | src/sql/lexer.cpp:178-192 | a number goes on while digits do, and over a point only if a digit follows it |
| `LexerLaws.StringTokenIs` | src/sql/lexer.cpp:194-206 | a string is a text with its quotes doubled, between quotes; without an end the rest of the input is Invalid |
| `LexerLaws.MarkTokenIs` | src/sql/lexer.cpp:135-166 | anything else is the longest of the marks that the text starts with, or one Invalid character |
| `LexerLaws.LocationIs` | src/sql/lexer.cpp:97-106 | a line is one more than the line ends before, a column counts from the last of them |
| `Parser.DecodeSqlString` | src/sql/parser.cpp:22-33 | the text between the quotes with doubled quotes made single |
| `Parser.Parser.Consume` | src/sql/parser.cpp:104-117 | a token of the kind asked for, or an error recorded, the first one kept |
| `Parser.Parser.ParseLiteral` | src/sql/parser.cpp:449-492 | the literal of the grammar, sign and range included, or an error recorded |
| `Parser.Parser.ParseComparison` | src/sql/parser.cpp:494-543 | the comparison of the grammar, or an error recorded |
| `Parser.Parser.ParsePrimary` | src/sql/parser.cpp:585-600 | a parenthesised condition or a comparison, or an error recorded |
| `Parser.Parser.ParseAnd` | src/sql/parser.cpp:565-583 | comparisons joined by AND, grouped to the left; ends on every input |
| `Parser.Parser.ParseOr` | src/sql/parser.cpp:545-563 | ANDs joined by OR, grouped to the left; ends on every input, and a failure always has an error recorded |
| `Sentences.ConditionIs` | src/sql/parser.cpp:545-600 | tokens are read as a condition exactly when the grammar says that they are that condition |
| `Sentences.SentenceIs` | src/sql/parser.cpp:43-82 | tokens are read as a statement exactly when the grammar says that they are that statement: every statement, constraint and literal it allows is accepted and nothing else, and no tokens mean two statements |
| `Printer.DoubleIs` | src/sql/parser.cpp:467-482 | a floating-point literal is converted with the minus sign in front of it, and without one as it stands |
| `Printer.PrimaryBack` | src/sql/parser.cpp:585-600 | parsing undoes printing of an operand in parentheses or not, whatever follows |
| `Printer.OrBack` | src/sql/parser.cpp:545-583 | parsing undoes printing of a condition with no more parentheses than needed, before anything that does not continue it |
| `Printer.UndoubleDoubled` | src/sql/parser.cpp:22-33 | decoding undoes doubling the quotes of any text |
| `Printer.TextLexes` | src/sql/lexer.cpp:74-88 | lexing undoes writing tokens out |
| `Printer.PrintLexParse` | src/sql/parser.cpp:449-600 | print, lex, parse gives back any condition, the least integer, quotes in strings, and doubles that are written as a sign, digits, a point and digits and read back from that |
| `Printer.ParseText` | src/sql/parser.cpp:545-583 | lexing a text and parsing a condition at its start gives the condition the grammar gives, or nothing and a recorded error |
| `Parser.Parser.ParseStatement` | src/sql/parser.cpp:43-82 | the statement of the grammar followed by one semicolon and the end of the input, or the error recorded, which is always there when it is read and lies where reading stopped: at the current token or the one before |
| `Parser.Parser.ParseAnyStatement` | src/sql/parser.cpp:43-64 | the statement that the first word announces, or a recorded error |
| `StatementPrinter.ListBack` | src/sql/parser.cpp:190-196 | parsing undoes printing of a list with commas, whatever its items are |
| `StatementPrinter.ColumnBack` | src/sql/parser.cpp:360-447 | parsing undoes printing of a column with its type and constraints |
| `StatementPrinter.StatementBack` | src/sql/parser.cpp:43-447 | parsing undoes printing of any of the nine statements in front of a semicolon |
| `StatementPrinter.PrintLexParseStatement` | src/sql/parser.cpp:43-82 | print, lex, parse gives back any statement, doubles as in conditions |
| `StatementPrinter.ParseSql` | src/sql/parser.cpp:43-82 | a text gives the statement the grammar gives, or the place of a token in the text as that of the first error |

## Left out

- Files and directories: opening, naming, alignment and listing of files; the disk is an array of pages that grows.
- Disk faults: the code has no rollback, so results are about runs whose reads and writes succeed.
- Page id 2^32 - 1: it can be allocated but also means "none"; operations ask for room so that it is never reached.
- A heap directly on the disk, without a pool: the database always gives it one.
- Several databases in one storage, the storage in memory, and the sorted copy of the catalog for display.
- Error texts and the offsets in serialization errors: errors are their codes. Of a syntax error the place is kept, and proved to be where reading stopped.
- Wrap-around of the pool's 64-bit clock: it is a natural number.
- Locales: letters, digits and case are those of ASCII.
- Doubles: 64-bit patterns with their order; turning decimal text into a double, and back, are parameters; round trips are proved for every pair in which the one undoes the other.
- Text of values in a projection: the values themselves are kept.
- Bound conditions are data with a meaning, not closures.
- Formatting of plans for EXPLAIN, the shell and printing of tables.
- The executor's INSERT, UPDATE and DELETE branches: that rows suit the schema is checked by the model of `insert`, and required of an UPDATE's value.
