// What one statement does to one table: its heap and its indexes change together.
module TableWork {
  import opened Bytes
  import opened Results
  import opened Values
  import opened Views
  import opened TreeSpec
  import opened TreeLaws
  import opened TreeStore
  import opened TableLog
  import opened Agreement
  import opened Schema
  import opened TableState
  import opened IndexUpkeep
  import opened Updates
  import opened Packing
  import PoolSpec
  import BufferPool
  import BPlusTree
  import TableHeap
  import Serialization
  import Seqs

  datatype StorageError =
    | Unavailable
    | AlreadyExists
    | NoSuchColumn
    | NotInteger
    | InvalidRow(fault: RowError)
    | DuplicateValue
    | HeapFailure(heap: TableHeap.HeapError)
    | TreeFailure(tree: BPlusTree.TreeError)
    | PoolFailure
    | CatalogFailure

  // ---------- Facts about a sound table ----------

  lemma TableFacts(view: seq<Page>, table: StoredTable, shapes: seq<Option<Tree>>)
    requires TableOk(view, table, shapes)
    ensures HeapOk(view, table.pageIds) && |view| <= MAX_PAGES && |shapes| == |table.indexes|
    ensures 0 !in PageSet(table.pageIds)
    ensures Unique(Rows(view, table.pageIds))
    ensures forall i :: 0 <= i < |Rows(view, table.pageIds)| ==> RowOk(table.schema, Rows(view, table.pageIds)[i].row)
  {
    hide Stored, PageSet, PagesOf, PageOk, Rows, TableHeap.Room, RowMap, RowOk, KeysIndexed, KeysUnique, IndexHolds;
    var log := Rows(view, table.pageIds);
    assert Regions(table.pageIds, shapes)[0] == PageSet(table.pageIds);
    RowsUnique(view, table.pageIds);
    forall i | 0 <= i < |log|
      ensures RowOk(table.schema, log[i].row)
    {
      RowMapHolds(log, i);
    }
  }

  // A row that suits the schema gives every index NULL or an integer.
  lemma CellsFit(schema: TableSchema, indexes: seq<StoredIndex>, maps: seq<Index>, rows: map<RowId, Row>, row: Row)
    requires Sound(schema, indexes, maps, rows) && RowOk(schema, row)
    ensures IntegerCells(schema, indexes, row)
  {
    hide RowOk, Agrees, KeysIndexed, KeysUnique, RowsOk;
    forall i | 0 <= i < |indexes|
      ensures IntegerCell(schema, indexes[i], row)
    {
      assert IndexHolds(schema, indexes[i], maps[i], rows);
      IntegerAt(schema, row, ColumnOf(schema, indexes[i]), indexes[i], maps[i], rows);
    }
  }

  lemma TakenInLog(log: Log, c: nat, v: Value)
    requires Unique(log)
    ensures Taken(RowMap(log), c, v) <==> exists i :: 0 <= i < |log| && Equal(Cell(log[i].row, c), v)
  {
    hide Equal, RowMap;
    if Taken(RowMap(log), c, v) {
      var id :| id in RowMap(log) && Equal(Cell(RowMap(log)[id], c), v);
      var i := RowMapFrom(log, id);
    }
    if i :| 0 <= i < |log| && Equal(Cell(log[i].row, c), v) {
      RowMapHolds(log, i);
      assert Equal(Cell(RowMap(log)[log[i].id], c), v);
    }
  }

  // A new id is not among the rows.
  lemma NotLive(view: seq<Page>, pages: seq<PoolSpec.PageId>, id: RowId)
    requires HeapOk(view, pages) && !Given(view, pages, id)
    ensures id !in RowMap(Rows(view, pages))
  {
    hide Rows, TableHeap.Room, RowMap, PageOk, Given;
    RowsUnique(view, pages);
    RowMapLookup(Rows(view, pages), id);
    if Lookup(Rows(view, pages), id).Some? {
      TableHeap.GivenLives(view, pages, id);
    }
  }

  // ---------- INSERT ----------

  // Does any row of the scan hold the value?
  method ColumnTaken(scanned: seq<HeapRow>, c: nat, v: Value) returns (taken: bool)
    requires forall i :: 0 <= i < |scanned| ==> c < |scanned[i].row|
    ensures taken <==> exists i :: 0 <= i < |scanned| && Equal(Cell(scanned[i].row, c), v)
  {
    for i := 0 to |scanned|
      invariant forall j :: 0 <= j < i ==> !Equal(Cell(scanned[j].row, c), v)
    {
      if Equal(scanned[i].row[c], v) {
        assert Equal(Cell(scanned[i].row, c), v);
        return true;
      }
    }
    return false;
  }

  // The key columns that no index can check.
  method KeyTaken(schema: TableSchema, scanned: seq<HeapRow>, row: Row) returns (taken: bool)
    requires Unique(scanned) && RowOk(schema, row)
    requires forall i :: 0 <= i < |scanned| ==> RowOk(schema, scanned[i].row)
    ensures taken <==> AnyKeyCollides(schema, RowMap(scanned), row)
  {
    hide RowMap, Unique, Equal, Taken;
    for c := 0 to |schema.columns|
      invariant forall d :: 0 <= d < c ==> !KeyCollides(schema, RowMap(scanned), row, d)
    {
      var column := schema.columns[c];
      if !(column.primaryKey || column.unique) || column.dataType.kind == IntegerKind || row[c].Null? {
        continue;
      }
      var found := ColumnTaken(scanned, c, row[c]);
      TakenInLog(scanned, c, row[c]);
      if found {
        assert KeyCollides(schema, RowMap(scanned), row, c);
        return true;
      }
    }
    return false;
  }

  // The row is refused exactly when it does not suit the schema, when it would repeat a value that its column
  // may have only once, or when it fits no page; a refusal changes nothing. The checks are all that is needed:
  // once they pass, no index turns the row down.
  method InsertRow(pool: BufferPool.BufferPool, table: StoredTable, row: Row, ghost shapes: seq<Option<Tree>>)
    returns (error: Option<StorageError>, now: StoredTable, ghost grown: seq<Option<Tree>>, ghost id: RowId)
    requires Ready(pool) && TableOk(pool.View(), table, shapes)
    requires |pool.View()| + 1 + |table.indexes| * BUDGET <= MAX_PAGES
    modifies pool, pool.disk
    ensures Ready(pool) && TableOk(pool.View(), now, grown)
    ensures now.schema == table.schema && SameIndexes(table.indexes, now.indexes)
    ensures RowOk(table.schema, row) <==> RowFault(table.schema, row).None?
    ensures !RowOk(table.schema, row) ==> error == Some(InvalidRow(RowFault(table.schema, row).value))
    ensures RowOk(table.schema, row) ==>
      error == if Collides(table.schema, table.indexes, old(LiveRows(pool.View(), table)), row) then Some(DuplicateValue)
               else if !TableHeap.Storable(row) then Some(HeapFailure(TableHeap.Refusal(row)))
               else None
    ensures error.Some? ==> now == table && grown == shapes && pool.View() == old(pool.View())
    ensures error.None? ==>
      && Rows(pool.View(), now.pageIds) == old(Rows(pool.View(), table.pageIds)) + [HeapRow(id, row)]
      && TableHeap.AtEnd(old(pool.View()), table.pageIds, pool.View(), now.pageIds, row, id)
      && (Unindexed(table.schema, table.indexes, row) ==> now.indexes == table.indexes)
    ensures Progress(old(pool.View()), pool.View(), OwnedPages(table.pageIds, shapes), OwnedPages(now.pageIds, grown))
    ensures |old(pool.View())| <= |pool.View()| <= |old(pool.View())| + 1 + |table.indexes| * BUDGET
  {
    hide PoolSpec.Coherent, PoolSpec.View, HeapOk, Rows, TableHeap.Room, RowMap, RowOk, Collides, AnyKeyCollides, AnyIndexCollides, Regions,
         Stored, Given, OwnedPages, Progress, Sound, PagesOk, SameIndexes, TableHeap.Storable, PageSet, BufferPool.BufferPool.Idle, RowFault;
    ghost var view := pool.View();
    now, grown, id := table, shapes, RowId(0, 0);
    TableFacts(view, table, shapes);
    NoProgress(view, OwnedPages(table.pageIds, shapes));
    SameIndexesRefl(table.indexes);
    error := CheckInsert(pool, table, row, shapes);
    if error.Some? {
      return;
    }
    var heap := new TableHeap.TableHeap(pool, table.pageIds);
    var inserted := heap.Insert(row);
    match inserted {
      case Err(failure) => error := Some(HeapFailure(failure)); return;
      case Ok(_) =>
    }
    id := inserted.value;
    HeapWorked(view, pool.View(), table, heap.pageIds, shapes);
    ghost var mid := pool.View();
    error, now, grown := IndexInserted(pool, table, row, inserted.value, heap.pageIds, shapes, view);
    HeapStays(view, table.pageIds, mid, pool.View(), heap.pageIds, row, id);
  }

  // The first half of INSERT: everything that is checked before anything is written.
  method CheckInsert(pool: BufferPool.BufferPool, table: StoredTable, row: Row, ghost shapes: seq<Option<Tree>>)
    returns (error: Option<StorageError>)
    requires Ready(pool) && TableOk(pool.View(), table, shapes)
    modifies pool, pool.disk
    ensures Ready(pool) && pool.View() == old(pool.View())
    ensures RowOk(table.schema, row) <==> RowFault(table.schema, row).None?
    ensures !RowOk(table.schema, row) ==> error == Some(InvalidRow(RowFault(table.schema, row).value))
    ensures RowOk(table.schema, row) ==>
      error == if Collides(table.schema, table.indexes, LiveRows(pool.View(), table), row) then Some(DuplicateValue) else None
  {
    hide PoolSpec.Coherent, PoolSpec.View, HeapOk, Rows, TableHeap.Room, RowMap, RowOk, Collides, AnyKeyCollides, AnyIndexCollides, Regions,
         Stored, Sound, PagesOk, PageSet, BufferPool.BufferPool.Idle, RowFault;
    ghost var view := pool.View();
    ghost var rows := LiveRows(view, table);
    TableFacts(view, table, shapes);
    var fault := ValidateRow(table.schema, row);
    if fault.Some? {
      return Some(InvalidRow(fault.value));
    }
    var heap := new TableHeap.TableHeap(pool, table.pageIds);
    var scanned := heap.Scan();
    match scanned {
      case Err(failure) => return Some(HeapFailure(failure));
      case Ok(_) =>
    }
    CollisionsFound(table.schema, table.indexes, Maps(shapes), rows, row);
    CellsFit(table.schema, table.indexes, Maps(shapes), rows, row);
    var taken := KeyTaken(table.schema, scanned.value, row);
    if taken {
      return Some(DuplicateValue);
    }
    var occupied := AnyOccupied(pool, table.schema, table.indexes, row, table.pageIds, shapes);
    match occupied {
      case Err(failure) => return Some(TreeFailure(failure));
      case Ok(_) =>
    }
    return if occupied.value then Some(DuplicateValue) else None;
  }

  // The heap has been changed, and has at most one page more.
  lemma HeapWorked(view: seq<Page>, w: seq<Page>, table: StoredTable, pages: seq<PoolSpec.PageId>, shapes: seq<Option<Tree>>)
    requires PagesOk(view, table.pageIds, table.indexes, shapes) && HeapOk(w, pages)
    requires Untouched(view, w, PageSet(table.pageIds))
    requires pages == table.pageIds || (|view| <= 0xFFFF_FFFF && pages == table.pageIds + [|view|])
    requires |view| <= |w| <= MAX_PAGES
    ensures PagesOk(w, pages, table.indexes, shapes) && 0 !in PageSet(pages)
    ensures Progress(view, w, OwnedPages(table.pageIds, shapes), OwnedPages(pages, shapes))
  {
    hide HeapOk, Stored, Untouched, PageSet, OwnedPages, Progress, Regions;
    if |view| <= 0xFFFF_FFFF {
      TableHeap.PageSetSnoc(table.pageIds, |view|);
    }
    HeapStep(view, w, table.pageIds, pages, table.indexes, shapes);
  }

  // The second half of INSERT: the row is in the heap, and now goes into the indexes.
  method IndexInserted(pool: BufferPool.BufferPool, table: StoredTable, row: Row, id: RowId, pages: seq<PoolSpec.PageId>,
                       ghost shapes: seq<Option<Tree>>, ghost view: seq<Page>)
    returns (error: Option<StorageError>, now: StoredTable, ghost grown: seq<Option<Tree>>)
    requires Ready(pool) && TableOk(view, table, shapes) && RowOk(table.schema, row)
    requires !Collides(table.schema, table.indexes, LiveRows(view, table), row)
    requires PagesOk(pool.View(), pages, table.indexes, shapes) && !Given(view, table.pageIds, id)
    requires Rows(pool.View(), pages) == Rows(view, table.pageIds) + [HeapRow(id, row)]
    requires Progress(view, pool.View(), OwnedPages(table.pageIds, shapes), OwnedPages(pages, shapes))
    requires id.page < 0x1_0000_0000 && |pool.View()| + |table.indexes| * BUDGET <= MAX_PAGES
    modifies pool, pool.disk
    ensures Ready(pool) && error.None? && TableOk(pool.View(), now, grown)
    ensures now.schema == table.schema && now.pageIds == pages && SameIndexes(table.indexes, now.indexes)
    ensures SameHeap(old(pool.View()), pool.View(), pages)
    ensures Unindexed(table.schema, table.indexes, row) ==> now.indexes == table.indexes
    ensures Progress(view, pool.View(), OwnedPages(table.pageIds, shapes), OwnedPages(pages, grown))
    ensures |old(pool.View())| <= |pool.View()| <= |old(pool.View())| + |table.indexes| * BUDGET
  {
    hide PoolSpec.Coherent, PoolSpec.View, HeapOk, Rows, TableHeap.Room, RowMap, RowOk, Collides, AnyKeyCollides, AnyIndexCollides, Regions,
         Stored, Given, OwnedPages, Progress, Sound, PagesOk, SameIndexes, PageSet, BufferPool.BufferPool.Idle;
    ghost var rows, before := LiveRows(view, table), pool.View();
    TableFacts(view, table, shapes);
    CellsFit(table.schema, table.indexes, Maps(shapes), rows, row);
    CollisionsFound(table.schema, table.indexes, Maps(shapes), rows, row);
    var failed, indexes;
    failed, indexes, grown := AddToIndexes(pool, table.schema, table.indexes, row, id, pages, shapes);
    now := StoredTable(table.schema, pages, indexes);
    match failed {
      case Some(failure) => error := Some(TreeFailure(failure)); return;
      case None =>
    }
    NotLive(view, table.pageIds, id);
    SoundAdded(table.schema, table.indexes, Maps(shapes), rows, indexes, Maps(grown), id, row);
    RowMapSnoc(Rows(view, table.pageIds), HeapRow(id, row));
    RootsStay(table.schema, table.indexes, row, indexes);
    ProgressTwice(view, before, pool.View(), OwnedPages(table.pageIds, shapes), OwnedPages(pages, shapes), OwnedPages(pages, grown));
    error := None;
  }

  // Indexes that do not take the row keep their roots.
  lemma RootsStay(schema: TableSchema, indexes: seq<StoredIndex>, row: Row, now: seq<StoredIndex>)
    requires SameIndexes(indexes, now) && RowOk(schema, row)
    requires forall i :: 0 <= i < |indexes| && CellOf(schema, indexes[i], row).Null? ==> now[i] == indexes[i]
    ensures Unindexed(schema, indexes, row) ==> now == indexes
  {
    hide RowOk, ColumnOf;
  }

  lemma SameIndexesRefl(a: seq<StoredIndex>)
    ensures SameIndexes(a, a)
  {}

  // ---------- DELETE ----------

  // One row leaves the indexes, then the heap.
  method DeleteOne(pool: BufferPool.BufferPool, heap: TableHeap.TableHeap, table: StoredTable, h: HeapRow,
                   ghost shapes: seq<Option<Tree>>, ghost a: Log, ghost b: Log)
    returns (error: Option<StorageError>, ghost left: seq<Option<Tree>>)
    requires Ready(pool) && TableOk(pool.View(), table, shapes) && heap.pool == pool && heap.pageIds == table.pageIds
    requires Rows(pool.View(), table.pageIds) == a + [h] + b
    modifies pool, pool.disk
    ensures Ready(pool) && error.None? && TableOk(pool.View(), table, left)
    ensures Rows(pool.View(), table.pageIds) == a + b
    ensures Progress(old(pool.View()), pool.View(), OwnedPages(table.pageIds, shapes), OwnedPages(table.pageIds, left))
    ensures |pool.View()| == |old(pool.View())|
  {
    hide PoolSpec.Coherent, PoolSpec.View, HeapOk, Rows, TableHeap.Room, RowMap, RowOk, Regions, Stored, Given, OwnedPages, Progress, Sound,
         PagesOk, PageSet, BufferPool.BufferPool.Idle, Unique, Lookup, Without;
    ghost var view, rows := pool.View(), LiveRows(pool.View(), table);
    TableFacts(view, table, shapes);
    Middle(a, h, b, []);
    RowMapLookup(a + [h] + b, h.id);
    RowMapWithout(a + [h] + b, h.id);
    MiddleOk(table.schema, a, h, b);
    CellsFit(table.schema, table.indexes, Maps(shapes), rows, h.row);
    var failed;
    failed, left := RemoveFromIndexes(pool, table.schema, table.indexes, h.row, table.pageIds, shapes);
    match failed {
      case Some(failure) => error := Some(TreeFailure(failure)); return;
      case None =>
    }
    ghost var mid := pool.View();
    PagesHeap(mid, table.pageIds, table.indexes, left);
    var deleted := heap.DeleteRow(h.id);
    match deleted {
      case Some(failure) => error := Some(HeapFailure(failure)); return;
      case None =>
    }
    HeapWorked(mid, pool.View(), table, table.pageIds, left);
    ProgressTwice(view, mid, pool.View(), OwnedPages(table.pageIds, shapes), OwnedPages(table.pageIds, left), OwnedPages(table.pageIds, left));
    SoundRemoved(table.schema, table.indexes, Maps(shapes), rows, Maps(left), h.id);
    error := None;
  }

  lemma MiddleOk(schema: TableSchema, a: Log, h: HeapRow, b: Log)
    requires forall i :: 0 <= i < |a + [h] + b| ==> RowOk(schema, (a + [h] + b)[i].row)
    ensures RowOk(schema, h.row)
  {
    hide RowOk;
    assert (a + [h] + b)[|a|] == h;
  }

  lemma PagesHeap(view: seq<Page>, pages: seq<PoolSpec.PageId>, indexes: seq<StoredIndex>, shapes: seq<Option<Tree>>)
    requires PagesOk(view, pages, indexes, shapes)
    ensures HeapOk(view, pages) && |shapes| == |indexes| && 0 !in PageSet(pages) && |view| <= MAX_PAGES
  {
    hide HeapOk, Stored, PageSet, PagesOf;
    assert Regions(pages, shapes)[0] == PageSet(pages);
  }

  // The first k rows of the scan have been seen to.
  ghost predicate Deleting(view: seq<Page>, table: StoredTable, shapes: seq<Option<Tree>>, log: Log, k: nat, p: Row -> bool)
    requires k <= |log|
  {
    TableOk(view, table, shapes) && Rows(view, table.pageIds) == Rejected(log[..k], p) + log[k..]
  }

  lemma DeletingAt(view: seq<Page>, table: StoredTable, shapes: seq<Option<Tree>>, log: Log, k: nat, p: Row -> bool)
    requires k < |log| && Deleting(view, table, shapes, log, k, p)
    ensures TableOk(view, table, shapes)
    ensures Rows(view, table.pageIds) == Rejected(log[..k], p) + [log[k]] + log[k + 1..]
    ensures !p(log[k].row) ==> Deleting(view, table, shapes, log, k + 1, p)
  {
    hide TableOk, Rows, TableHeap.Room, Rejected;
    OneMorePicked(log, k, p);
    Regroup(Rejected(log[..k], p), log[k], log[k + 1..]);
  }

  lemma DeletingStep(view: seq<Page>, table: StoredTable, shapes: seq<Option<Tree>>, log: Log, k: nat, p: Row -> bool)
    requires k < |log| && p(log[k].row) && TableOk(view, table, shapes)
    requires Rows(view, table.pageIds) == Rejected(log[..k], p) + log[k + 1..]
    ensures Deleting(view, table, shapes, log, k + 1, p)
  {
    hide TableOk, Rows, TableHeap.Room, Rejected;
    OneMorePicked(log, k, p);
    assert Rejected(log[..k], p) + [] == Rejected(log[..k], p);
  }

  lemma DeletingEnds(view: seq<Page>, table: StoredTable, shapes: seq<Option<Tree>>, log: Log, p: Row -> bool)
    ensures Deleting(view, table, shapes, log, |log|, p) ==>
      TableOk(view, table, shapes) && Rows(view, table.pageIds) == Rejected(log, p)
    ensures TableOk(view, table, shapes) && log == Rows(view, table.pageIds) ==> Deleting(view, table, shapes, log, 0, p)
    ensures Picked(log[..0], p) == 0 && log[..|log|] == log
  {
    hide TableOk, Rows, TableHeap.Room;
    WholeLog(log);
    WholeLog(Rejected(log, p));
  }

  lemma WholeLog(log: Log)
    ensures log[..|log|] == log && log[|log|..] == [] && log[..0] == [] && log[0..] == log
    ensures log + [] == log && [] + log == log
  {}

  // The rows that match go, the others stay as and where they are, and the pool is written out.
  method DeleteRows(pool: BufferPool.BufferPool, table: StoredTable, p: Row -> bool, ghost shapes: seq<Option<Tree>>)
    returns (r: Result<nat, StorageError>, ghost left: seq<Option<Tree>>)
    requires Ready(pool) && TableOk(pool.View(), table, shapes)
    modifies pool, pool.disk
    ensures Ready(pool) && TableOk(pool.View(), table, left)
    ensures r == Ok(Picked(old(Rows(pool.View(), table.pageIds)), p))
    ensures Rows(pool.View(), table.pageIds) == Rejected(old(Rows(pool.View(), table.pageIds)), p)
    ensures Progress(old(pool.View()), pool.View(), OwnedPages(table.pageIds, shapes), OwnedPages(table.pageIds, left))
    ensures |pool.View()| == |old(pool.View())| && pool.disk.pages == pool.View()
  {
    hide PoolSpec.Coherent, PoolSpec.View, PoolSpec.FlushAll, HeapOk, Rows, TableHeap.Room, OwnedPages, Progress, PageSet, TableOk,
         Rejected, Picked, Deleting;
    ghost var view := pool.View();
    ghost var log := Rows(view, table.pageIds);
    TableFacts(view, table, shapes);
    NoProgress(view, OwnedPages(table.pageIds, shapes));
    DeletingEnds(view, table, shapes, log, p);
    left := shapes;
    var heap := new TableHeap.TableHeap(pool, table.pageIds);
    var scanned := heap.Scan();
    match scanned {
      case Err(failure) => r := Err(HeapFailure(failure)); return;
      case Ok(_) =>
    }
    var count := 0;
    for k := 0 to |scanned.value|
      invariant Ready(pool) && heap.pageIds == table.pageIds
      invariant Deleting(pool.View(), table, left, log, k, p)
      invariant count == Picked(log[..k], p)
      invariant Progress(view, pool.View(), OwnedPages(table.pageIds, shapes), OwnedPages(table.pageIds, left))
      invariant |pool.View()| == |view|
    {
      var h := scanned.value[k];
      OneMorePicked(log, k, p);
      DeletingAt(pool.View(), table, left, log, k, p);
      if !p(h.row) {
        continue;
      }
      ghost var before, owned := pool.View(), OwnedPages(table.pageIds, left);
      var failed;
      failed, left := DeleteOne(pool, heap, table, h, left, Rejected(log[..k], p), log[k + 1..]);
      match failed {
        case Some(failure) => r := Err(failure); return;
        case None =>
      }
      DeletingStep(pool.View(), table, left, log, k, p);
      ProgressTwice(view, before, pool.View(), OwnedPages(table.pageIds, shapes), owned, OwnedPages(table.pageIds, left));
      count := count + 1;
    }
    DeletingEnds(pool.View(), table, left, log, p);
    var flushed := pool.FlushAll();
    match flushed {
      case Some(_) => r := Err(PoolFailure); return;
      case None =>
    }
    r := Ok(count);
  }

  lemma Regroup(a: Log, h: HeapRow, b: Log)
    ensures a + ([h] + b) == a + [h] + b
  {}

  // ---------- UPDATE ----------

  // The row h in the middle of a table's log, for one step of an update.
  lemma MiddleRow(view: seq<Page>, table: StoredTable, shapes: seq<Option<Tree>>, a: Log, h: HeapRow, b: Log, row: Row)
    requires TableOk(view, table, shapes) && Rows(view, table.pageIds) == a + [h] + b
    ensures var rows := LiveRows(view, table);
      && h.id in rows && rows[h.id] == h.row && RowOk(table.schema, h.row)
      && RowMap(a + b) == rows - {h.id}
      && RowMap(a + [HeapRow(h.id, row)] + b) == (rows - {h.id})[h.id := row]
      && Lookup(a + [h] + b, h.id) == Some(h.row)
      && Without(a + [h] + b, h.id) == a + b
      && Replace(a + [h] + b, h.id, row) == a + [HeapRow(h.id, row)] + b
    ensures h.id.page in table.pageIds && h.id.page <= 0xFFFF_FFFF
  {
    hide PoolSpec.View, HeapOk, Rows, TableHeap.Room, RowMap, RowOk, Regions, Stored, Sound, RecordsOf, PagesOk, Unique, Lookup, Without,
         Replace;
    TableFacts(view, table, shapes);
    Middle(a, h, b, row);
    RowMapLookup(a + [h] + b, h.id);
    RowMapWithout(a + [h] + b, h.id);
    RowMapReplace(a + [h] + b, h.id, row);
    MiddleOk(table.schema, a, h, b);
    TableHeap.GivenLives(view, table.pageIds, h.id);
    PutBack(LiveRows(view, table), h.id, row);
  }

  lemma TooLarge(row: Row)
    ensures !Serialization.RowFits(row) ==>
      !TableHeap.Storable(row) && TableHeap.Refusal(row) == TableHeap.SerializationFailure(Serialization.InputTooLarge)
  {}

  lemma PutBack(rows: map<RowId, Row>, id: RowId, row: Row)
    ensures rows[id := row] == (rows - {id})[id := row]
  {}

  lemma HeapStays(v: seq<Page>, pages: seq<PoolSpec.PageId>, mid: seq<Page>, w: seq<Page>, next: seq<PoolSpec.PageId>, row: Row, id: RowId)
    requires SameHeap(mid, w, next)
    ensures TableHeap.AtEnd(v, pages, mid, next, row, id) ==> TableHeap.AtEnd(v, pages, w, next, row, id)
    ensures TableHeap.InPlace(v, pages, mid, next) ==> TableHeap.InPlace(v, pages, w, next)
  {
    hide Given, Rows, TableHeap.Room, TableHeap.SpaceFor;
  }

  // One row takes its new version: refused when that collides with another row or cannot be stored, and then
  // nothing has changed; else heap and indexes change together.
  method UpdateOne(pool: BufferPool.BufferPool, heap: TableHeap.TableHeap, schema: TableSchema, indexes: seq<StoredIndex>,
                   h: HeapRow, newRow: Row, ghost shapes: seq<Option<Tree>>, ghost a: Log, ghost b: Log)
    returns (r: Result<RowId, StorageError>, now: seq<StoredIndex>, ghost moved: seq<Option<Tree>>)
    requires Ready(pool) && heap.pool == pool && TableOk(pool.View(), StoredTable(schema, heap.pageIds, indexes), shapes)
    requires Rows(pool.View(), heap.pageIds) == a + [h] + b
    requires RowOk(schema, newRow) && !AnyKeyCollides(schema, RowMap(a + b), newRow)
    requires |pool.View()| + 1 + |indexes| * BUDGET <= MAX_PAGES
    modifies heap, pool, pool.disk
    ensures Ready(pool) && TableOk(pool.View(), StoredTable(schema, heap.pageIds, now), moved) && SameIndexes(indexes, now)
    ensures r.Ok? <==> !Collides(schema, indexes, RowMap(a + b), newRow) && Acceptable(newRow, h.row)
    ensures r.Err? ==>
      && r.error == (if Collides(schema, indexes, RowMap(a + b), newRow) then DuplicateValue else HeapFailure(TableHeap.Refusal(newRow)))
      && pool.View() == old(pool.View()) && heap.pageIds == old(heap.pageIds) && now == indexes && moved == shapes
    ensures r.Ok? && TableHeap.Fits(newRow, h.row) ==>
      && Rows(pool.View(), heap.pageIds) == a + [HeapRow(h.id, newRow)] + b
      && TableHeap.InPlace(old(pool.View()), old(heap.pageIds), pool.View(), heap.pageIds)
    ensures r.Ok? && !TableHeap.Fits(newRow, h.row) ==>
      && Rows(pool.View(), heap.pageIds) == a + b + [HeapRow(r.value, newRow)]
      && TableHeap.AtEnd(old(pool.View()), old(heap.pageIds), pool.View(), heap.pageIds, newRow, r.value)
    ensures Progress(old(pool.View()), pool.View(), old(OwnedPages(heap.pageIds, shapes)), OwnedPages(heap.pageIds, moved))
    ensures |old(pool.View())| <= |pool.View()| <= |old(pool.View())| + 1 + |indexes| * BUDGET
  {
    hide PoolSpec.Coherent, PoolSpec.View, HeapOk, Rows, TableHeap.Room, RowMap, RowOk, Collides, AnyKeyCollides, AnyIndexBlocked, Regions,
         Stored, Given, OwnedPages, Progress, Sound, PagesOk, SameIndexes, PageSet, BufferPool.BufferPool.Idle, Lookup, Without, Replace,
         TableHeap.NeedsPage, TableHeap.SpaceFor, TableHeap.Fits, TableHeap.Storable, TableHeap.Refusal, Serialization.RowFits;
    ghost var view, pages, table := pool.View(), heap.pageIds, StoredTable(schema, heap.pageIds, indexes);
    ghost var rows := LiveRows(view, table);
    TableFacts(view, table, shapes);
    MiddleRow(view, table, shapes, a, h, b, newRow);
    NoProgress(view, OwnedPages(pages, shapes));
    SameIndexesRefl(indexes);
    CellsFit(schema, indexes, Maps(shapes), rows, h.row);
    CellsFit(schema, indexes, Maps(shapes), rows, newRow);
    TooLarge(newRow);
    BlockedIsCollision(schema, indexes, Maps(shapes), rows, h.id, newRow);
    now, moved := indexes, shapes;
    var blocked := AnyBlocked(pool, schema, indexes, h.row, newRow, pages, shapes);
    match blocked {
      case Err(failure) => r := Err(TreeFailure(failure)); return;
      case Ok(_) =>
    }
    if blocked.value {
      r := Err(DuplicateValue);
      return;
    }
    var updated := heap.Update(h.id, newRow);
    match updated {
      case Err(failure) => r := Err(HeapFailure(failure)); return;
      case Ok(_) =>
    }
    ghost var mid := pool.View();
    HeapWorked(view, mid, table, heap.pageIds, shapes);
    var failed;
    failed, now, moved := MoveInIndexes(pool, schema, indexes, h.row, newRow, updated.value, heap.pageIds, shapes);
    match failed {
      case Some(failure) => r := Err(TreeFailure(failure)); return;
      case None =>
    }
    HeapStays(view, pages, mid, pool.View(), heap.pageIds, newRow, updated.value);
    if updated.value != h.id {
      NotLive(view, pages, updated.value);
    }
    RowMapSnoc(a + b, HeapRow(updated.value, newRow));
    SoundMoved(schema, indexes, Maps(shapes), rows, now, Maps(moved), h.id, updated.value, newRow);
    ProgressTwice(view, mid, pool.View(), OwnedPages(pages, shapes), OwnedPages(heap.pageIds, shapes), OwnedPages(heap.pageIds, moved));
    r := Ok(updated.value);
  }

  // UPDATE would leave two rows with the same value where only one may have it. When nothing matches, only a key
  // column is looked at, and then a row that already has the value is enough.
  ghost predicate Clash(schema: TableSchema, indexes: seq<StoredIndex>, log: Log, u: Change)
    requires u.col < |schema.columns|
  {
    && !u.v.Null? && Guarded(schema, indexes, u.col)
    && (Picked(log, u.p) > 1 || (OthersHold(log, u) && (Picked(log, u.p) == 1 || Keyed(schema.columns[u.col]))))
  }

  // What the check before the loop looks for.
  ghost predicate KeyClash(log: Log, u: Change) {
    Picked(log, u.p) > 1 || OthersHold(log, u)
  }

  // An UPDATE of a key column that matches no row at all is still refused when some row holds the value.
  lemma NoMatchClash(schema: TableSchema, indexes: seq<StoredIndex>, log: Log, u: Change)
    requires u.col < |schema.columns| && Keyed(schema.columns[u.col]) && !u.v.Null? && Picked(log, u.p) == 0
    ensures Clash(schema, indexes, log, u) <==> Holds(log, u.col, u.v)
  {
    hide Picked, Equal, Cell, Indexed;
    NonePickedStay(log, u);
  }

  method CheckKeys(scanned: seq<HeapRow>, u: Change) returns (clash: bool)
    requires Unique(scanned) && forall i :: 0 <= i < |scanned| ==> u.col < |scanned[i].row|
    ensures clash <==> KeyClash(scanned, u)
  {
    hide Equal, Picked, Unique;
    var count, matching, at := CountMatching(scanned, u);
    if count > 1 {
      return true;
    }
    for k := 0 to |scanned|
      invariant forall j :: 0 <= j < k && !u.p(scanned[j].row) ==> !Equal(Cell(scanned[j].row, u.col), u.v)
    {
      NotThatOne(scanned, u, at, k);
      if (matching.None? || scanned[k].id != matching.value) && Equal(scanned[k].row[u.col], u.v) {
        assert Equal(Cell(scanned[k].row, u.col), u.v);
        return true;
      }
    }
    return false;
  }

  // The rows the update picks, counted, and the last of them.
  method CountMatching(scanned: seq<HeapRow>, u: Change) returns (count: nat, matching: Option<RowId>, ghost at: nat)
    ensures count == Picked(scanned, u.p) && (count == 0 <==> matching.None?)
    ensures matching.Some? ==> at < |scanned| && scanned[at].id == matching.value && u.p(scanned[at].row)
  {
    hide Picked, Rejected;
    count, matching, at := 0, None, 0;
    WholeLog(scanned);
    NonePickedYet(u.p);
    for k := 0 to |scanned|
      invariant count == Picked(scanned[..k], u.p)
      invariant count == 0 <==> matching.None?
      invariant matching.Some? ==> at < |scanned| && scanned[at].id == matching.value && u.p(scanned[at].row)
    {
      OneMorePicked(scanned, k, u.p);
      if u.p(scanned[k].row) {
        count, matching, at := count + 1, Some(scanned[k].id), k;
      }
    }
  }

  lemma NonePickedYet(p: Row -> bool)
    ensures Picked([], p) == 0
  {}

  lemma NotThatOne(log: Log, u: Change, at: nat, k: nat)
    requires Unique(log) && Picked(log, u.p) <= 1 && k < |log|
    ensures Picked(log, u.p) == 0 ==> !u.p(log[k].row)
    ensures at < |log| && u.p(log[at].row) ==> (u.p(log[k].row) <==> log[k].id == log[at].id)
  {
    hide Picked;
    if Picked(log, u.p) == 0 {
      NonePickedStay(log, u);
    } else if at < |log| && u.p(log[at].row) && k != at {
      OnlyPicked(log, at, u.p, k);
    }
  }

  // Part of the way through an update: the first k rows of the scan have been seen to, `tail` has been moved to the end.
  ghost predicate Updating(view: seq<Page>, table: StoredTable, shapes: seq<Option<Tree>>, log: Log, k: nat, u: Change, tail: Log)
    requires k <= |log|
  {
    && TableOk(view, table, shapes)
    && Rows(view, table.pageIds) == Staying(log[..k], u) + log[k..] + tail
    && RowsIn(tail) == Moving(log[..k], u)
  }

  lemma UpdatingEnds(view: seq<Page>, table: StoredTable, shapes: seq<Option<Tree>>, log: Log, u: Change, tail: Log)
    ensures Updating(view, table, shapes, log, |log|, u, tail) ==>
      && TableOk(view, table, shapes) && Rows(view, table.pageIds) == Staying(log, u) + tail && RowsIn(tail) == Moving(log, u)
    ensures TableOk(view, table, shapes) && log == Rows(view, table.pageIds) ==> Updating(view, table, shapes, log, 0, u, [])
    ensures Picked(log[..0], u.p) == 0 && log[..|log|] == log
  {
    hide TableOk, Rows, TableHeap.Room;
    WholeLog(log);
    WholeLog(Staying(log, u));
  }

  lemma UpdatingAt(view: seq<Page>, table: StoredTable, shapes: seq<Option<Tree>>, log: Log, k: nat, u: Change, tail: Log)
    requires k < |log| && Updating(view, table, shapes, log, k, u, tail)
    ensures TableOk(view, table, shapes)
    ensures Rows(view, table.pageIds) == Staying(log[..k], u) + [log[k]] + (log[k + 1..] + tail)
    ensures !u.p(log[k].row) ==> Updating(view, table, shapes, log, k + 1, u, tail)
  {
    hide TableOk, Rows, TableHeap.Room, Staying, Moving, RowsIn;
    OneMoreStaying(log, k, u);
    OneMorePicked(log, k, u.p);
    Regrouped(Staying(log[..k], u), log[k], log[k + 1..], tail);
  }

  lemma Regrouped(a: Log, h: HeapRow, b: Log, c: Log)
    ensures a + ([h] + b) + c == a + [h] + (b + c)
    ensures a + [h] + b + c == a + [h] + (b + c)
    ensures a + (b + c) + [h] == a + b + (c + [h])
  {}

  lemma UpdatingStep(view: seq<Page>, table: StoredTable, shapes: seq<Option<Tree>>, log: Log, k: nat, u: Change, tail: Log, id: RowId)
    requires k < |log| && u.p(log[k].row) && TableOk(view, table, shapes) && RowsIn(tail) == Moving(log[..k], u)
    requires var after := Changed(log[k].row, u.col, u.v);
      Rows(view, table.pageIds) ==
        if TableHeap.Fits(after, log[k].row) then Staying(log[..k], u) + [HeapRow(log[k].id, after)] + (log[k + 1..] + tail)
        else Staying(log[..k], u) + (log[k + 1..] + tail) + [HeapRow(id, after)]
    ensures Updating(view, table, shapes, log, k + 1, u,
                     if Moves(log[k].row, u) then tail + [HeapRow(id, Changed(log[k].row, u.col, u.v))] else tail)
  {
    hide TableOk, Rows, TableHeap.Room, Staying, Moving, RowsIn, TableHeap.Fits;
    OneMoreStaying(log, k, u);
    var a, b, after := Staying(log[..k], u), log[k + 1..], Changed(log[k].row, u.col, u.v);
    var arrived := HeapRow(id, after);
    RowsInConcat(tail, [arrived]);
    OneRow(arrived);
    Regrouped(a, HeapRow(log[k].id, after), b, tail);
    Regrouped(a, arrived, b, tail);
    WholeLog(a);
  }

  lemma OneRow(h: HeapRow)
    ensures RowsIn([h]) == [h.row]
  {}

  lemma UniqueRest(a: Log, h: HeapRow, b: Log)
    requires Unique(a + [h] + b)
    ensures Unique(a + b)
  {
    var log, rest := a + [h] + b, a + b;
    forall i, j | 0 <= i < j < |rest|
      ensures rest[i].id != rest[j].id
    {
      assert rest[i] == log[if i < |a| then i else i + 1] && rest[j] == log[if j < |a| then j else j + 1];
    }
  }

  // What the row being updated is compared with: the rest of the table as it is at that moment.
  ghost function Before(log: Log, k: nat, u: Change): Log
    requires k < |log|
  {
    Staying(log[..k], u)
  }

  ghost function Behind(log: Log, k: nat, tail: Log): Log
    requires k < |log|
  {
    log[k + 1..] + tail
  }

  // Nothing has been picked before row k: the rest of the table is the rest of the scan.
  lemma RestOfScan(log: Log, k: nat, u: Change, tail: Log)
    requires k < |log| && Picked(log[..k], u.p) == 0 && RowsIn(tail) == Moving(log[..k], u)
    ensures tail == [] && Before(log, k, u) + Behind(log, k, tail) == log[..k] + log[k + 1..]
  {
    hide Staying, Moving;
    NonePickedStay(log[..k], u);
    assert |tail| == |RowsIn(tail)|;
    WholeLog(log[k + 1..]);
  }

  lemma RestTaken(view: seq<Page>, table: StoredTable, shapes: seq<Option<Tree>>, log: Log, k: nat, u: Change, tail: Log, c: nat, v: Value)
    requires k < |log| && Updating(view, table, shapes, log, k, u, tail)
    ensures Taken(RowMap(Before(log, k, u) + Behind(log, k, tail)), c, v) <==> Holds(Before(log, k, u) + Behind(log, k, tail), c, v)
  {
    hide TableOk, Rows, TableHeap.Room, RowMap, Staying, Moving, RowsIn, Unique, Taken, Equal, Cell;
    UpdatingAt(view, table, shapes, log, k, u, tail);
    TableFacts(view, table, shapes);
    UniqueRest(Before(log, k, u), log[k], Behind(log, k, tail));
    TakenInLog(Before(log, k, u) + Behind(log, k, tail), c, v);
  }

  // A column that the update does not touch cannot come to collide.
  lemma OtherColumns(view: seq<Page>, table: StoredTable, shapes: seq<Option<Tree>>, log: Log, k: nat, u: Change, tail: Log, c: nat)
    requires k < |log| && Updating(view, table, shapes, log, k, u, tail)
    requires c < |table.schema.columns| && c != u.col && Guarded(table.schema, table.indexes, c)
    ensures var after := Changed(log[k].row, u.col, u.v);
      Cell(after, c).Null? || !Taken(RowMap(Before(log, k, u) + Behind(log, k, tail)), c, Cell(after, c))
  {
    hide RowMap, Rows, TableHeap.Room, Staying, Moving, RowsIn, PagesOk, Taken, UniqueOn, Sound, RowOk, Guarded;
    UpdatingAt(view, table, shapes, log, k, u, tail);
    MiddleRow(view, table, shapes, Before(log, k, u), log[k], Behind(log, k, tail), []);
    var rows := LiveRows(view, table);
    SoundIsUnique(table.schema, table.indexes, Maps(shapes), rows, c);
    UniqueWithout(rows, c, log[k].id);
  }

  // In the column that is updated, the rest of the table holds the new value only if the update clashes.
  lemma RestClashes(view: seq<Page>, table: StoredTable, shapes: seq<Option<Tree>>, log: Log, k: nat, u: Change, tail: Log)
    requires k < |log| && Updating(view, table, shapes, log, k, u, tail) && u.p(log[k].row)
    requires Taken(RowMap(Before(log, k, u) + Behind(log, k, tail)), u.col, u.v)
    ensures Picked(log, u.p) > 1 || (OthersHold(log, u) && Picked(log, u.p) == 1)
  {
    hide TableOk, RowMap, Rows, TableHeap.Room, Staying, Moving, RowsIn, Taken, Picked, Holds, OthersHold, Rejected;
    RestTaken(view, table, shapes, log, k, u, tail, u.col, u.v);
    PickedAt(log, k, u.p);
    if Picked(log, u.p) == 1 {
      RestOfScan(log, k, u, tail);
      OthersInRest(log, k, u);
    }
  }

  lemma NewCell(row: Row, u: Change)
    requires u.col < |row|
    ensures Cell(Changed(row, u.col, u.v), u.col) == u.v
  {}

  // Once the check before the loop has passed, key columns stay unique.
  lemma NoKeyCollision(view: seq<Page>, table: StoredTable, shapes: seq<Option<Tree>>, log: Log, k: nat, u: Change, tail: Log)
    requires k < |log| && Updating(view, table, shapes, log, k, u, tail) && u.p(log[k].row)
    requires u.col < |table.schema.columns| && |log[k].row| == |table.schema.columns|
    requires Keyed(table.schema.columns[u.col]) && !u.v.Null? ==> !KeyClash(log, u)
    ensures !AnyKeyCollides(table.schema, RowMap(Before(log, k, u) + Behind(log, k, tail)), Changed(log[k].row, u.col, u.v))
  {
    hide Updating, RowMap, Taken, Picked, OthersHold, Before, Behind, Cell, Changed;
    var rest, after := RowMap(Before(log, k, u) + Behind(log, k, tail)), Changed(log[k].row, u.col, u.v);
    NewCell(log[k].row, u);
    forall c | 0 <= c < |table.schema.columns|
      ensures !KeyCollides(table.schema, rest, after, c)
    {
      if Keyed(table.schema.columns[c]) {
        if c != u.col {
          OtherColumns(view, table, shapes, log, k, u, tail, c);
        } else if Taken(rest, u.col, u.v) {
          RestClashes(view, table, shapes, log, k, u, tail);
        }
      }
    }
  }

  // Row k of the scan cannot get the new value: it cannot be stored, or its column allows no value twice, and a row
  // before it has been given the value or another row holds it.
  ghost predicate Refused(schema: TableSchema, indexes: seq<StoredIndex>, log: Log, k: nat, u: Change)
    requires k < |log| && u.col < |schema.columns|
  {
    && u.p(log[k].row)
    && (|| !Replaceable(log[k].row, u)
        || (!u.v.Null? && Guarded(schema, indexes, u.col)
            && (Picked(log[..k], u.p) > 0 || Holds(log[..k] + log[k + 1..], u.col, u.v))))
  }

  // The loop stops at row k.
  ghost predicate FirstRefused(schema: TableSchema, indexes: seq<StoredIndex>, log: Log, k: nat, u: Change)
    requires u.col < |schema.columns|
  {
    k < |log| && Refused(schema, indexes, log, k, u) && forall i :: 0 <= i < k ==> !Refused(schema, indexes, log, i, u)
  }

  // An update that fails can have changed rows already: two rows that hold 1 and 2 under an index, both set to 5. The
  // column is no key, so nothing is checked beforehand.
  lemma HalfDone(schema: TableSchema, indexes: seq<StoredIndex>, log: Log, u: Change)
    requires |schema.columns| == 1 && Indexed(schema, indexes, 0) && !Keyed(schema.columns[0])
    requires log == [HeapRow(RowId(1, 0), [Integer(1)]), HeapRow(RowId(1, 1), [Integer(2)])]
    requires u.col == 0 && u.v == Integer(5) && u.p([Integer(1)]) && u.p([Integer(2)])
    ensures !RefusedAtOnce(schema, log, u) && FirstRefused(schema, indexes, log, 1, u)
    ensures Moving(log[..1], u) == []
    ensures Staying(log[..1], u) + log[1..] == [HeapRow(RowId(1, 0), [Integer(5)]), HeapRow(RowId(1, 1), [Integer(2)])]
  {
    hide Indexed, Acceptable, TableHeap.Fits, Rejected, Picked;
    OneInteger(log[0].row, u);
    assert log[..0] == [] && log[..0] + log[1..] == [log[1]];
    NonePickedYet(u.p);
    OneMorePicked(log, 0, u.p);
    assert Picked(log[..1], u.p) == 1 && Guarded(schema, indexes, 0);
    assert Refused(schema, indexes, log, 1, u);
    assert !Holds([log[1]], 0, u.v);
    assert !Refused(schema, indexes, log, 0, u);
    assert Changed(log[0].row, 0, Integer(5)) == [Integer(5)];
    OneMoreStaying(log, 0, u);
    StayingNone(log, u);
  }

  lemma OneInteger(row: Row, u: Change)
    requires row == [Integer(1)] && u.col == 0 && u.v == Integer(5)
    ensures Replaceable(row, u) && TableHeap.Fits(Changed(row, u.col, u.v), row)
  {
    Serialization.ValuesSize([Integer(1)]);
    Serialization.ValuesSize([Integer(5)]);
  }

  // What a row of the loop collides with, read off the scan.
  lemma CollisionInScan(view: seq<Page>, table: StoredTable, shapes: seq<Option<Tree>>, log: Log, k: nat, u: Change, tail: Log)
    requires k < |log| && Updating(view, table, shapes, log, k, u, tail) && u.p(log[k].row)
    requires u.col < |table.schema.columns| && |log[k].row| == |table.schema.columns|
    requires Quiet(table.schema, table.indexes, log, k, u, tail)
    requires Keyed(table.schema.columns[u.col]) && !u.v.Null? ==> !KeyClash(log, u)
    ensures Collides(table.schema, table.indexes, RowMap(Before(log, k, u) + Behind(log, k, tail)), Changed(log[k].row, u.col, u.v)) <==>
      && !u.v.Null? && Guarded(table.schema, table.indexes, u.col)
      && (Picked(log[..k], u.p) > 0 || Holds(log[..k] + log[k + 1..], u.col, u.v))
  {
    hide Updating, RowMap, Taken, Picked, OthersHold, Before, Behind, Cell, Changed, Indexed, Quiet, Holds;
    var rest, after := RowMap(Before(log, k, u) + Behind(log, k, tail)), Changed(log[k].row, u.col, u.v);
    NewCell(log[k].row, u);
    forall c | 0 <= c < |table.schema.columns| && c != u.col && Guarded(table.schema, table.indexes, c)
      ensures Cell(after, c).Null? || !Taken(rest, c, Cell(after, c))
    {
      OtherColumns(view, table, shapes, log, k, u, tail, c);
    }
    RestTaken(view, table, shapes, log, k, u, tail, u.col, u.v);
    if !u.v.Null? && Guarded(table.schema, table.indexes, u.col) {
      HeldInScan(view, table, shapes, log, k, u, tail);
    }
  }

  lemma HeldInScan(view: seq<Page>, table: StoredTable, shapes: seq<Option<Tree>>, log: Log, k: nat, u: Change, tail: Log)
    requires k < |log| && Updating(view, table, shapes, log, k, u, tail) && u.p(log[k].row)
    requires u.col < |table.schema.columns| && !u.v.Null? && Guarded(table.schema, table.indexes, u.col)
    requires Quiet(table.schema, table.indexes, log, k, u, tail)
    requires Keyed(table.schema.columns[u.col]) ==> !KeyClash(log, u)
    ensures Holds(Before(log, k, u) + Behind(log, k, tail), u.col, u.v) <==>
      Picked(log[..k], u.p) > 0 || Holds(log[..k] + log[k + 1..], u.col, u.v)
  {
    hide TableOk, Rows, TableHeap.Room, Staying, Moving, RowsIn, Picked, Holds, OthersHold, Rejected, Refused, Indexed;
    PickedAt(log, k, u.p);
    if Picked(log[..k], u.p) == 0 {
      RestOfScan(log, k, u, tail);
    } else {
      HoldsConcat(Staying(log[..k], u), tail, u.col, u.v);
      HoldsConcat(Staying(log[..k], u), Behind(log, k, tail), u.col, u.v);
      HoldsConcat(log[k + 1..], tail, u.col, u.v);
    }
  }

  // No clash has shown so far: at most one row has been given a value that must be unique, and no other row has it.
  ghost predicate Quiet(schema: TableSchema, indexes: seq<StoredIndex>, log: Log, k: nat, u: Change, tail: Log)
    requires k <= |log| && u.col < |schema.columns|
  {
    && (forall i :: 0 <= i < k ==> !Refused(schema, indexes, log, i, u))
    && (Indexed(schema, indexes, u.col) && !u.v.Null? ==>
      || Picked(log[..k], u.p) == 0
      || (Picked(log[..k], u.p) == 1 && !OthersHold(log, u) && Holds(Staying(log[..k], u) + tail, u.col, u.v)))
  }

  lemma QuietStep(view: seq<Page>, table: StoredTable, shapes: seq<Option<Tree>>, log: Log, k: nat, u: Change, tail: Log, id: RowId)
    requires k < |log| && Updating(view, table, shapes, log, k, u, tail) && u.p(log[k].row)
    requires u.col < |table.schema.columns| && |log[k].row| == |table.schema.columns|
    requires Quiet(table.schema, table.indexes, log, k, u, tail) && !Refused(table.schema, table.indexes, log, k, u)
    requires Indexed(table.schema, table.indexes, u.col) && !u.v.Null? ==> u.v.Integer?
    requires !Collides(table.schema, table.indexes, RowMap(Before(log, k, u) + Behind(log, k, tail)), Changed(log[k].row, u.col, u.v))
    ensures Quiet(table.schema, table.indexes, log, k + 1, u,
                  if Moves(log[k].row, u) then tail + [HeapRow(id, Changed(log[k].row, u.col, u.v))] else tail)
  {
    hide TableOk, Rows, TableHeap.Room, RowMap, Taken, Picked, Rejected, OthersHold, Holds, Cell, Changed, Refused, Equal, Staying, Moving,
         RowsIn, TableHeap.Fits;
    OneMorePicked(log, k, u.p);
    if Indexed(table.schema, table.indexes, u.col) && !u.v.Null? {
      NewCell(log[k].row, u);
      var after, rest := Changed(log[k].row, u.col, u.v), Before(log, k, u) + Behind(log, k, tail);
      assert Guarded(table.schema, table.indexes, u.col);
      assert !Taken(RowMap(rest), u.col, u.v);
      RestTaken(view, table, shapes, log, k, u, tail, u.col, u.v);
      HoldsConcat(Staying(log[..k], u), Behind(log, k, tail), u.col, u.v);
      HoldsConcat(Staying(log[..k], u), tail, u.col, u.v);
      HoldsConcat(log[k + 1..], tail, u.col, u.v);
      RestOfScan(log, k, u, tail);
      OthersInRest(log, k, u);
      OneMoreStaying(log, k, u);
      NowHeld(Staying(log[..k], u), HeapRow(log[k].id, after), tail, u.col, u.v);
      NowHeld(Staying(log[..k], u) + tail, HeapRow(id, after), [], u.col, u.v);
      Regrouped(Staying(log[..k], u), HeapRow(id, after), [], tail);
      WholeLog(Staying(log[..k], u));
      WholeLog(Staying(log[..k], u) + tail + [HeapRow(id, after)]);
      Seqs.Assoc(Staying(log[..k], u), tail, [HeapRow(id, after)]);
    }
  }

  lemma NowHeld(a: Log, h: HeapRow, b: Log, col: nat, v: Value)
    requires Cell(h.row, col) == v && v.Integer?
    ensures Holds(a + [h] + b, col, v)
  {
    hide Cell;
    assert (a + [h] + b)[|a|] == h;
    EqualInteger(v, v);
  }

  lemma SameGuards(schema: TableSchema, a: seq<StoredIndex>, b: seq<StoredIndex>)
    requires SameIndexes(a, b)
    ensures forall c :: Indexed(schema, b, c) <==> Indexed(schema, a, c)
    ensures forall c :: 0 <= c < |schema.columns| ==> (Guarded(schema, a, c) <==> Guarded(schema, b, c))
  {
    hide Indexed;
    SameColumns(schema, a, b);
  }

  lemma SameClash(schema: TableSchema, a: seq<StoredIndex>, b: seq<StoredIndex>, log: Log, k: nat, u: Change, tail: Log)
    requires SameIndexes(a, b) && k <= |log| && u.col < |schema.columns|
    ensures Clash(schema, a, log, u) <==> Clash(schema, b, log, u)
    ensures Quiet(schema, a, log, k, u, tail) <==> Quiet(schema, b, log, k, u, tail)
    ensures forall i :: 0 <= i < |log| ==> (Refused(schema, a, log, i, u) <==> Refused(schema, b, log, i, u))
  {
    hide SameIndexes, Picked, OthersHold, Holds, Guarded, Indexed, Replaceable;
    SameGuards(schema, a, b);
    forall i | 0 <= i < |log|
      ensures Refused(schema, a, log, i, u) <==> Refused(schema, b, log, i, u)
    {
      assert Guarded(schema, a, u.col) <==> Guarded(schema, b, u.col);
    }
  }

  lemma SameIndexesTwice(a: seq<StoredIndex>, b: seq<StoredIndex>, c: seq<StoredIndex>)
    requires SameIndexes(a, b) && SameIndexes(b, c)
    ensures SameIndexes(a, c)
  {}

  // A changed row still suits the schema.
  lemma ChangedOk(schema: TableSchema, row: Row, u: Change)
    requires RowOk(schema, row) && u.col < |schema.columns| && ColumnFault(schema.columns[u.col], u.v).None?
    ensures RowOk(schema, Changed(row, u.col, u.v))
  {
    hide ColumnFault;
  }

  lemma IndexedInteger(schema: TableSchema, indexes: seq<StoredIndex>, maps: seq<Index>, rows: map<RowId, Row>, u: Change)
    requires Sound(schema, indexes, maps, rows) && u.col < |schema.columns| && ColumnFault(schema.columns[u.col], u.v).None?
    ensures Indexed(schema, indexes, u.col) && !u.v.Null? ==> u.v.Integer?
  {
    hide RowsOk, KeysIndexed, KeysUnique, Agrees;
    if Indexed(schema, indexes, u.col) {
      var i :| 0 <= i < |indexes| && ColumnOf(schema, indexes[i]) == u.col;
      assert IndexHolds(schema, indexes[i], maps[i], rows);
    }
  }

  // At the end, or at the row that failed, it is clear whether the update as a whole clashes.
  lemma QuietEnds(schema: TableSchema, indexes: seq<StoredIndex>, log: Log, u: Change, tail: Log)
    requires u.col < |schema.columns| && Quiet(schema, indexes, log, |log|, u, tail)
    requires Keyed(schema.columns[u.col]) && !u.v.Null? ==> !KeyClash(log, u)
    ensures !Clash(schema, indexes, log, u)
    ensures forall i :: 0 <= i < |log| && u.p(log[i].row) ==> Replaceable(log[i].row, u)
    ensures forall i :: 0 <= i < |log| ==> !Refused(schema, indexes, log, i, u)
  {
    hide Picked, OthersHold, Holds, Replaceable, Staying;
    WholeLog(log);
    forall i | 0 <= i < |log| && u.p(log[i].row)
      ensures Replaceable(log[i].row, u)
    {
      assert !Refused(schema, indexes, log, i, u);
    }
  }

  lemma KeyClashIsClash(schema: TableSchema, indexes: seq<StoredIndex>, log: Log, u: Change)
    requires u.col < |schema.columns| && Keyed(schema.columns[u.col]) && !u.v.Null?
    ensures KeyClash(log, u) <==> Clash(schema, indexes, log, u)
  {
    hide Picked, OthersHold;
  }

  lemma QuietStart(schema: TableSchema, indexes: seq<StoredIndex>, log: Log, u: Change)
    requires u.col < |schema.columns|
    ensures Quiet(schema, indexes, log, 0, u, [])
  {}

  lemma QuietNone(schema: TableSchema, indexes: seq<StoredIndex>, log: Log, k: nat, u: Change, tail: Log)
    requires k < |log| && u.col < |schema.columns| && Quiet(schema, indexes, log, k, u, tail)
    requires Refused(schema, indexes, log, k, u)
    ensures FirstRefused(schema, indexes, log, k, u)
    ensures Clash(schema, indexes, log, u) || exists i :: 0 <= i < |log| && u.p(log[i].row) && !Replaceable(log[i].row, u)
  {
    hide Holds, OthersHold, Staying, Picked, Guarded, Rejected, Replaceable;
    if Replaceable(log[k].row, u) {
      PickedAt(log, k, u.p);
      OthersInRest(log, k, u);
    }
  }

  lemma QuietSkip(schema: TableSchema, indexes: seq<StoredIndex>, log: Log, k: nat, u: Change, tail: Log)
    requires k < |log| && u.col < |schema.columns| && Quiet(schema, indexes, log, k, u, tail) && !u.p(log[k].row)
    ensures Quiet(schema, indexes, log, k + 1, u, tail)
  {
    hide Picked, Rejected, Staying, Moving, Equal, Cell, OthersHold, Replaceable, Guarded;
    OneMorePicked(log, k, u.p);
    OneMoreStaying(log, k, u);
    HoldsConcat(Staying(log[..k], u), tail, u.col, u.v);
    HoldsConcat(Staying(log[..k + 1], u), tail, u.col, u.v);
    HoldsConcat(Staying(log[..k], u), [log[k]], u.col, u.v);
  }

  // How many pages there can be after so many steps at this cost each.
  ghost function Spent(start: nat, steps: nat, cost: nat): nat {
    start + steps * cost
  }

  lemma SpentMore(start: nat, steps: nat, cost: nat)
    ensures Spent(start, 0, cost) == start
    ensures Spent(start, steps + 1, cost) == Spent(start, steps, cost) + cost
  {
    assert (steps + 1) * cost == steps * cost + cost;
  }

  lemma SpentGrows(start: nat, i: nat, n: nat, cost: nat)
    requires i <= n
    ensures Spent(start, i, cost) <= Spent(start, n, cost)
  {
    assert i * cost <= n * cost;
  }

  lemma Budgeted(log: Log, k: nat, p: Row -> bool, start: nat, cost: nat)
    requires k < |log| && p(log[k].row)
    ensures Spent(start, Picked(log[..k], p), cost) + cost <= Spent(start, Picked(log, p), cost)
  {
    hide Picked, Spent;
    PickedAt(log, k, p);
    var i := Picked(log[..k], p);
    SpentMore(start, i, cost);
    SpentGrows(start, i + 1, Picked(log, p), cost);
  }

  lemma WithinBudget(log: Log, p: Row -> bool, start: nat, cost: nat, limit: nat)
    requires start + Picked(log, p) * cost <= limit
    ensures Spent(start, Picked(log, p), cost) <= limit
    ensures forall k :: 0 <= k <= |log| ==> Spent(start, Picked(log[..k], p), cost) <= limit
  {
    hide Picked, Spent;
    SpentIs(start, Picked(log, p), cost);
    forall k | 0 <= k <= |log|
      ensures Spent(start, Picked(log[..k], p), cost) <= limit
    {
      PickedGrows(log, k, p);
      SpentGrows(start, Picked(log[..k], p), Picked(log, p), cost);
    }
  }

  lemma SpentIs(start: nat, steps: nat, cost: nat)
    ensures Spent(start, steps, cost) == start + steps * cost
  {}

  // The next row is ready to be updated.
  lemma StepReady(view: seq<Page>, table: StoredTable, shapes: seq<Option<Tree>>, log: Log, k: nat, u: Change, tail: Log)
    requires k < |log| && Updating(view, table, shapes, log, k, u, tail) && u.p(log[k].row)
    requires u.col < |table.schema.columns| && ColumnFault(table.schema.columns[u.col], u.v).None?
    requires Keyed(table.schema.columns[u.col]) && !u.v.Null? ==> !KeyClash(log, u)
    ensures Rows(view, table.pageIds) == Before(log, k, u) + [log[k]] + Behind(log, k, tail)
    ensures |log[k].row| == |table.schema.columns| && RowOk(table.schema, Changed(log[k].row, u.col, u.v))
    ensures !AnyKeyCollides(table.schema, RowMap(Before(log, k, u) + Behind(log, k, tail)), Changed(log[k].row, u.col, u.v))
    ensures Indexed(table.schema, table.indexes, u.col) && !u.v.Null? ==> u.v.Integer?
  {
    hide Rows, TableHeap.Room, RowMap, Staying, Moving, RowsIn, PagesOk, KeyClash, AnyKeyCollides, Sound, Indexed, Changed, ColumnFault;
    UpdatingAt(view, table, shapes, log, k, u, tail);
    MiddleRow(view, table, shapes, Before(log, k, u), log[k], Behind(log, k, tail), []);
    ChangedOk(table.schema, log[k].row, u);
    NoKeyCollision(view, table, shapes, log, k, u, tail);
    IndexedInteger(table.schema, table.indexes, Maps(shapes), LiveRows(view, table), u);
  }

  // The row can be updated or not, as the scan says; and if not, the update as a whole cannot be made.
  lemma StepDecided(view: seq<Page>, table: StoredTable, shapes: seq<Option<Tree>>, log: Log, k: nat, u: Change, tail: Log)
    requires k < |log| && Updating(view, table, shapes, log, k, u, tail) && u.p(log[k].row)
    requires u.col < |table.schema.columns| && |log[k].row| == |table.schema.columns|
    requires Quiet(table.schema, table.indexes, log, k, u, tail)
    requires Keyed(table.schema.columns[u.col]) && !u.v.Null? ==> !KeyClash(log, u)
    ensures var after, rest := Changed(log[k].row, u.col, u.v), RowMap(Before(log, k, u) + Behind(log, k, tail));
      && (Refused(table.schema, table.indexes, log, k, u) <==>
          Collides(table.schema, table.indexes, rest, after) || !Acceptable(after, log[k].row))
      && (Collides(table.schema, table.indexes, rest, after) ==> Clash(table.schema, table.indexes, log, u))
      && (Keyed(table.schema.columns[u.col]) && !u.v.Null? ==> !Collides(table.schema, table.indexes, rest, after))
  {
    hide Updating, RowMap, Collides, Picked, Holds, OthersHold, KeyClash, Acceptable, Changed, Before, Behind, Guarded, Quiet;
    CollisionInScan(view, table, shapes, log, k, u, tail);
    PickedAt(log, k, u.p);
    OthersInRest(log, k, u);
    if Keyed(table.schema.columns[u.col]) && !u.v.Null? {
      KeyClashIsClash(table.schema, table.indexes, log, u);
    }
  }

  // The row has been updated: the update has got one row further.
  lemma StepDone(v: seq<Page>, table: StoredTable, log: Log, k: nat, u: Change, tail: Log, id: RowId,
                 w: seq<Page>, now: StoredTable, moved: seq<Option<Tree>>)
    requires k < |log| && (exists shapes :: Updating(v, table, shapes, log, k, u, tail)) && u.p(log[k].row)
    requires u.col < |table.schema.columns| && |log[k].row| == |table.schema.columns|
    requires Quiet(table.schema, table.indexes, log, k, u, tail) && !Refused(table.schema, table.indexes, log, k, u)
    requires Indexed(table.schema, table.indexes, u.col) && !u.v.Null? ==> u.v.Integer?
    requires var after := Changed(log[k].row, u.col, u.v);
      && !Collides(table.schema, table.indexes, RowMap(Before(log, k, u) + Behind(log, k, tail)), after)
      && Acceptable(after, log[k].row)
      && Rows(w, now.pageIds) ==
        (if TableHeap.Fits(after, log[k].row) then Before(log, k, u) + [HeapRow(log[k].id, after)] + Behind(log, k, tail)
         else Before(log, k, u) + Behind(log, k, tail) + [HeapRow(id, after)])
    requires TableOk(w, now, moved) && now.schema == table.schema && SameIndexes(table.indexes, now.indexes)
    ensures var more := if Moves(log[k].row, u) then tail + [HeapRow(id, Changed(log[k].row, u.col, u.v))] else tail;
      Updating(w, now, moved, log, k + 1, u, more) && Quiet(now.schema, now.indexes, log, k + 1, u, more)
  {
    hide TableOk, Rows, TableHeap.Room, RowMap, Collides, Quiet, Refused, Acceptable, Changed, Staying, Moving, RowsIn, SameIndexes,
         TableHeap.Fits, Indexed;
    var shapes :| Updating(v, table, shapes, log, k, u, tail);
    UpdatingStep(w, now, moved, log, k, u, tail, id);
    QuietStep(v, table, shapes, log, k, u, tail, id);
    var more := if Moves(log[k].row, u) then tail + [HeapRow(id, Changed(log[k].row, u.col, u.v))] else tail;
    SameClash(table.schema, table.indexes, now.indexes, log, k + 1, u, more);
  }

  // The update leaves no value twice where only one may be, and every new version can be stored.
  ghost predicate Accepted(schema: TableSchema, indexes: seq<StoredIndex>, log: Log, u: Change)
    requires u.col < |schema.columns|
  {
    !Clash(schema, indexes, log, u) && forall i :: 0 <= i < |log| && u.p(log[i].row) ==> Replaceable(log[i].row, u)
  }

  // The check of a key column, before anything is written, finds a value twice.
  ghost predicate RefusedAtOnce(schema: TableSchema, log: Log, u: Change)
    requires u.col < |schema.columns|
  {
    Keyed(schema.columns[u.col]) && !u.v.Null? && KeyClash(log, u)
  }

  // The heap after the first `done` rows of the scan `log` have been seen to: `tail` has been moved to its end, and
  // `reached` are its pages now.
  ghost predicate PartDone(view: seq<Page>, pages: seq<PoolSpec.PageId>, w: seq<Page>, reached: seq<PoolSpec.PageId>,
                           log: Log, done: nat, u: Change, tail: Log) {
    && HeapOk(view, pages) && HeapOk(w, reached) && log == Rows(view, pages) && done <= |log|
    && Rows(w, reached) == Staying(log[..done], u) + log[done..] + tail
    && RowsIn(tail) == Moving(log[..done], u)
    && Spread(view, pages, w, reached, tail)
  }

  // How many of the rows moved are still in the pages there were before.
  ghost function StillStored(view: seq<Page>, pages: seq<PoolSpec.PageId>, log: Log, done: nat, u: Change): (kept: nat)
    requires done <= |log|
    ensures kept <= |Moving(log[..done], u)|
  {
    Pack(Moving(log[..done], u), TableHeap.Room(view, pages)).kept
  }

  // A heap part of the way through an update, seen from before it. The table is what it was exactly when the rows
  // seen to had nothing to change. Read through the old list of pages, it lacks the rows that have gone to new ones;
  // and no row has exactly when those that had to move fitted into the last page.
  lemma StoppedHeap(view: seq<Page>, pages: seq<PoolSpec.PageId>, w: seq<Page>, reached: seq<PoolSpec.PageId>,
                    log: Log, done: nat, u: Change, tail: Log)
    requires PartDone(view, pages, w, reached, log, done, u, tail)
    ensures Rows(w, reached) == log <==> forall i :: 0 <= i < done ==> After(log[i].row, u) == log[i].row
    ensures |tail| == |Moving(log[..done], u)|
    ensures Rows(w, pages) == Staying(log[..done], u) + log[done..] + tail[..StillStored(view, pages, log, done, u)]
    ensures Rows(w, pages) == Rows(w, reached) <==> Space(Moving(log[..done], u)) <= TableHeap.Room(view, pages)
    ensures Rows(w, pages) == Rows(w, reached) <==> reached == pages
  {
    hide HeapOk, Rows, TableHeap.Room, Staying, Moving, After, Given, Pack, Space;
    NewIds(view, pages, tail);
    NothingChanged(log, done, u, tail);
    var a := Staying(log[..done], u) + log[done..];
    RowsUniqueIn(view, pages);
    StayingWithin(log[..done], u, pages);
    StillRead(view, pages, w, reached, a, tail);
    RoomNatural(view, pages);
    NoneAdded(RowsIn(tail), TableHeap.Room(view, pages));
    assert |tail| == |RowsIn(tail)|;
    Shorter(a, tail, StillStored(view, pages, log, done, u));
  }

  lemma Shorter(a: Log, tail: Log, kept: nat)
    requires kept <= |tail|
    ensures a + tail[..kept] == a + tail <==> kept == |tail|
  {
    assert kept == |tail| ==> tail[..kept] == tail;
    assert |a + tail[..kept]| == |a| + kept;
  }

  lemma RoomNatural(view: seq<Page>, pages: seq<PoolSpec.PageId>)
    requires HeapOk(view, pages)
    ensures TableHeap.Room(view, pages) >= 0
  {
    hide Decodable;
    if pages != [] {
      assert PageOk(view, pages[|pages| - 1]);
    }
  }

  lemma RowsUniqueIn(view: seq<Page>, pages: seq<PoolSpec.PageId>)
    requires HeapOk(view, pages)
    ensures forall i :: 0 <= i < |Rows(view, pages)| ==> Rows(view, pages)[i].id.page in pages
  {
    hide Rows, PageOk;
    RowsUnique(view, pages);
  }

  lemma {:induction false} StayingWithin(log: Log, u: Change, pages: seq<PoolSpec.PageId>)
    requires forall i :: 0 <= i < |log| ==> log[i].id.page in pages
    ensures forall i :: 0 <= i < |Staying(log, u)| ==> Staying(log, u)[i].id.page in pages
  {
    hide After, Moves;
    if log != [] {
      StayingWithin(log[..|log| - 1], u, pages);
    }
  }

  // Every row that matches in the scan gets the new value exactly once, wherever its new version goes. A key column
  // is checked before anything is written. A later failure stops at the first row refused, leaves the rows before it
  // changed and the table sound over the pages in `reached`, of which only the old ones are kept.
  method UpdateRows(pool: BufferPool.BufferPool, table: StoredTable, u: Change, ghost shapes: seq<Option<Tree>>)
    returns (r: Result<nat, StorageError>, now: StoredTable, ghost moved: seq<Option<Tree>>,
             ghost reached: seq<PoolSpec.PageId>, ghost done: nat, ghost tail: Log)
    requires Ready(pool) && TableOk(pool.View(), table, shapes)
    requires u.col < |table.schema.columns| && ColumnFault(table.schema.columns[u.col], u.v).None?
    requires |pool.View()| + Picked(Rows(pool.View(), table.pageIds), u.p) * (1 + |table.indexes| * BUDGET) <= MAX_PAGES
    modifies pool, pool.disk
    ensures Ready(pool) && now.schema == table.schema && SameIndexes(table.indexes, now.indexes)
    ensures TableOk(pool.View(), StoredTable(table.schema, reached, now.indexes), moved)
    ensures PartDone(old(pool.View()), table.pageIds, pool.View(), reached, old(Rows(pool.View(), table.pageIds)), done, u, tail)
    ensures var log := old(Rows(pool.View(), table.pageIds));
      && (r.Ok? <==> Accepted(table.schema, table.indexes, log, u))
      && (r.Ok? ==> r.value == Picked(log, u.p) && done == |log| && now.pageIds == reached)
      && (r.Err? ==> now.pageIds == table.pageIds)
      && (r.Err? && !RefusedAtOnce(table.schema, log, u) ==> FirstRefused(table.schema, table.indexes, log, done, u))
      && (RefusedAtOnce(table.schema, log, u) ==>
        r == Err(DuplicateValue) && now == table && reached == table.pageIds && moved == shapes && done == 0 && pool.View() == old(pool.View()))
      && (Keyed(table.schema.columns[u.col]) && !u.v.Null? && !RefusedAtOnce(table.schema, log, u) ==> r != Err(DuplicateValue))
    ensures Progress(old(pool.View()), pool.View(), OwnedPages(table.pageIds, shapes), OwnedPages(reached, moved))
    ensures |old(pool.View())| <= |pool.View()| <= MAX_PAGES
  {
    hide PoolSpec.Coherent, PoolSpec.View, HeapOk, Rows, TableHeap.Room, OwnedPages, Progress, PageSet, TableOk, Picked, Spread,
         FirstRefused, Refused, Clash, KeyClash, Replaceable, RowOk, SameIndexes, ColumnFault, Staying, Moving, Updating;
    ghost var view := pool.View();
    ghost var log := Rows(view, table.pageIds);
    r, now, moved, reached, done, tail := Ok(0), table, shapes, table.pageIds, 0, [];
    TableFacts(view, table, shapes);
    NoProgress(view, OwnedPages(table.pageIds, shapes));
    SameIndexesRefl(table.indexes);
    StayingNone(log, u);
    SpreadStart(view, table.pageIds);
    var heap := new TableHeap.TableHeap(pool, table.pageIds);
    var scanned := heap.Scan();
    match scanned {
      case Err(failure) => r := Err(HeapFailure(failure)); return;
      case Ok(_) =>
    }
    var column := table.schema.columns[u.col];
    if (column.primaryKey || column.unique) && !u.v.Null? {
      KeyClashIsClash(table.schema, table.indexes, log, u);
      WideRows(table.schema, log, u.col);
      var clash := CheckKeys(scanned.value, u);
      if clash {
        r := Err(DuplicateValue);
        return;
      }
    }
    r, now, moved, reached, done, tail := UpdateEach(pool, heap, table, u, scanned.value, shapes);
    UpdatingFacts(pool.View(), StoredTable(table.schema, reached, now.indexes), moved, log, done, u, tail);
  }

  lemma UpdatingFacts(view: seq<Page>, table: StoredTable, shapes: seq<Option<Tree>>, log: Log, k: nat, u: Change, tail: Log)
    requires k <= |log| && Updating(view, table, shapes, log, k, u, tail)
    ensures TableOk(view, table, shapes) && HeapOk(view, table.pageIds)
    ensures Rows(view, table.pageIds) == Staying(log[..k], u) + log[k..] + tail && RowsIn(tail) == Moving(log[..k], u)
  {
    hide Rows, Sound, HeapOk, Regions, Stored, Staying, Moving, RowsIn;
    TableFacts(view, table, shapes);
  }

  lemma WideRows(schema: TableSchema, log: Log, col: nat)
    requires (forall i :: 0 <= i < |log| ==> RowOk(schema, log[i].row)) && col < |schema.columns|
    ensures forall i :: 0 <= i < |log| ==> |log[i].row| == |schema.columns| && col < |log[i].row|
  {}

  lemma StayingNone(log: Log, u: Change)
    ensures Staying(log[..0], u) == [] && Moving(log[..0], u) == [] && RowsIn([]) == []
    ensures [] + log[0..] + [] == log
  {}

  // Ids never given before are those of no row.
  lemma NewIds(view: seq<Page>, pages: seq<PoolSpec.PageId>, tail: Log)
    requires HeapOk(view, pages) && forall i :: 0 <= i < |tail| ==> !Given(view, pages, tail[i].id)
    ensures forall i, j :: 0 <= i < |tail| && 0 <= j < |Rows(view, pages)| ==> tail[i].id != Rows(view, pages)[j].id
  {
    hide Rows, TableHeap.Room, RowMap, PageOk, Given;
    var log := Rows(view, pages);
    RowsUnique(view, pages);
    forall i, j | 0 <= i < |tail| && 0 <= j < |log|
      ensures tail[i].id != log[j].id
    {
      NotLive(view, pages, tail[i].id);
      RowMapHolds(log, j);
    }
  }

  // The loop of update_where.
  method UpdateEach(pool: BufferPool.BufferPool, heap: TableHeap.TableHeap, table: StoredTable, u: Change, scanned: seq<HeapRow>,
                    ghost shapes: seq<Option<Tree>>)
    returns (r: Result<nat, StorageError>, now: StoredTable, ghost moved: seq<Option<Tree>>,
             ghost reached: seq<PoolSpec.PageId>, ghost done: nat, ghost tail: Log)
    requires Ready(pool) && heap.pool == pool && heap.pageIds == table.pageIds && TableOk(pool.View(), table, shapes)
    requires scanned == Rows(pool.View(), table.pageIds)
    requires u.col < |table.schema.columns| && ColumnFault(table.schema.columns[u.col], u.v).None?
    requires Keyed(table.schema.columns[u.col]) && !u.v.Null? ==> !KeyClash(scanned, u)
    requires |pool.View()| + Picked(scanned, u.p) * (1 + |table.indexes| * BUDGET) <= MAX_PAGES
    modifies heap, pool, pool.disk
    ensures Ready(pool) && now.schema == table.schema && SameIndexes(table.indexes, now.indexes)
    ensures done <= |scanned| && Updating(pool.View(), StoredTable(table.schema, reached, now.indexes), moved, scanned, done, u, tail)
    ensures Spread(old(pool.View()), table.pageIds, pool.View(), reached, tail)
    ensures r.Ok? <==> Accepted(table.schema, table.indexes, scanned, u)
    ensures r.Ok? ==> r.value == Picked(scanned, u.p) && done == |scanned| && now.pageIds == reached
    ensures r.Err? ==> now.pageIds == table.pageIds
    ensures r.Err? ==> FirstRefused(table.schema, table.indexes, scanned, done, u)
    ensures r.Ok? ==> forall i :: 0 <= i < |scanned| ==> !Refused(table.schema, table.indexes, scanned, i, u)
    ensures Keyed(table.schema.columns[u.col]) && !u.v.Null? ==> r != Err(DuplicateValue)
    ensures Progress(old(pool.View()), pool.View(), OwnedPages(table.pageIds, shapes), OwnedPages(reached, moved))
    ensures |old(pool.View())| <= |pool.View()| <= MAX_PAGES
  {
    hide PoolSpec.Coherent, PoolSpec.View, HeapOk, Rows, TableHeap.Room, OwnedPages, Progress, PageSet, TableOk, Picked, Updating, Quiet,
         Refused, FirstRefused, Clash, KeyClash, Replaceable, Acceptable, RowOk, SameIndexes, ColumnFault, Staying, Moving, Given, Spread,
         TableHeap.AtEnd, TableHeap.InPlace, Spent, Changed, TableHeap.Fits, Collides, AnyKeyCollides, Before, Behind, RowMap,
         TableHeap.Refusal;
    ghost var view, log, cost := pool.View(), scanned, 1 + |table.indexes| * BUDGET;
    var schema := table.schema;
    var count := 0;
    var indexes := table.indexes;
    moved, tail := shapes, [];
    TableFacts(view, table, shapes);
    NoProgress(view, OwnedPages(table.pageIds, shapes));
    SameIndexesRefl(indexes);
    UpdatingEnds(view, table, shapes, log, u, []);
    QuietStart(schema, indexes, log, u);
    SpreadStart(view, table.pageIds);
    SpentMore(|view|, 0, cost);
    WithinBudget(log, u.p, |view|, cost, MAX_PAGES);
    for k := 0 to |scanned|
      invariant Ready(pool) && SameIndexes(table.indexes, indexes) && |indexes| == |table.indexes|
      invariant Updating(pool.View(), StoredTable(schema, heap.pageIds, indexes), moved, log, k, u, tail)
      invariant Quiet(schema, indexes, log, k, u, tail)
      invariant count == Picked(log[..k], u.p)
      invariant Spread(view, table.pageIds, pool.View(), heap.pageIds, tail)
      invariant Progress(view, pool.View(), OwnedPages(table.pageIds, shapes), OwnedPages(heap.pageIds, moved))
      invariant |view| <= |pool.View()| <= Spent(|view|, count, cost)
    {
      var h := scanned[k];
      ghost var mid := StoredTable(schema, heap.pageIds, indexes);
      OneMorePicked(log, k, u.p);
      UpdatingAt(pool.View(), mid, moved, log, k, u, tail);
      if !u.p(h.row) {
        QuietSkip(schema, indexes, log, k, u, tail);
        continue;
      }
      ghost var before, owned, oldTail := pool.View(), OwnedPages(heap.pageIds, moved), tail;
      var newRow := Changed(h.row, u.col, u.v);
      StepReady(before, mid, moved, log, k, u, tail);
      StepDecided(before, mid, moved, log, k, u, tail);
      SameClash(schema, table.indexes, indexes, log, k, u, tail);
      Budgeted(log, k, u.p, |view|, cost);
      SpentMore(|view|, count, cost);
      var updated;
      updated, indexes, moved := UpdateOne(pool, heap, schema, indexes, h, newRow, moved, Before(log, k, u), Behind(log, k, tail));
      if updated.Err? {
        QuietNone(schema, table.indexes, log, k, u, tail);
        return Err(updated.error), StoredTable(schema, table.pageIds, indexes), moved, heap.pageIds, k, tail;
      }
      StepDone(before, mid, log, k, u, tail, updated.value, pool.View(), StoredTable(schema, heap.pageIds, indexes), moved);
      ghost var arrived := HeapRow(updated.value, newRow);
      if Moves(h.row, u) {
        SpreadMore(view, table.pageIds, before, mid.pageIds, tail, pool.View(), heap.pageIds, arrived);
      } else {
        SpreadInPlace(view, table.pageIds, before, mid.pageIds, tail, pool.View(), heap.pageIds);
      }
      ProgressTwice(view, before, pool.View(), OwnedPages(table.pageIds, shapes), owned, OwnedPages(heap.pageIds, moved));
      SameIndexesTwice(table.indexes, mid.indexes, indexes);
      tail := if Moves(h.row, u) then tail + [HeapRow(updated.value, newRow)] else tail;
      count := count + 1;
    }
    QuietEnds(schema, indexes, log, u, tail);
    SameClash(schema, table.indexes, indexes, log, 0, u, []);
    WholeLog(log);
    return Ok(count), StoredTable(schema, heap.pageIds, indexes), moved, heap.pageIds, |scanned|, tail;
  }

  // ---------- CREATE INDEX ----------

  // A further index that owns nothing yet.
  lemma IndexAppended(view: seq<Page>, pages: seq<PoolSpec.PageId>, indexes: seq<StoredIndex>, shapes: seq<Option<Tree>>, index: StoredIndex)
    requires PagesOk(view, pages, indexes, shapes) && index.root.None?
    ensures PagesOk(view, pages, indexes + [index], shapes + [None])
    ensures OwnedPages(pages, shapes + [None]) == OwnedPages(pages, shapes)
  {
    hide HeapOk, PageSet, Stored;
    var regions := Regions(pages, shapes);
    assert Regions(pages, shapes + [None]) == regions + [{}];
    assert (regions + [{}])[..|regions|] == regions;
    assert Stored(view, index.root, None, MAX_KEYS) by {
      NothingStored(view);
    }
  }

  lemma NothingStored(view: seq<Page>)
    ensures Stored(view, None, None, MAX_KEYS)
  {}

  lemma IndexDropped(view: seq<Page>, pages: seq<PoolSpec.PageId>, indexes: seq<StoredIndex>, shapes: seq<Option<Tree>>, index: StoredIndex, shape: Option<Tree>)
    requires PagesOk(view, pages, indexes + [index], shapes + [shape]) && |indexes| == |shapes|
    ensures PagesOk(view, pages, indexes, shapes)
    ensures OwnedPages(pages, shapes) <= OwnedPages(pages, shapes + [shape])
  {
    hide HeapOk, PageSet, Stored, PagesOf;
    var all, some := Regions(pages, shapes + [shape]), Regions(pages, shapes);
    assert all == some + [PagesOf(shape)];
    assert all[..|some|] == some;
    forall i | 0 <= i < |indexes|
      ensures Stored(view, indexes[i].root, shapes[i], MAX_KEYS)
    {
      assert (indexes + [index])[i] == indexes[i] && (shapes + [shape])[i] == shapes[i];
    }
    forall i, id | 0 <= i < |some| && id in some[i]
      ensures 0 < id < |view|
    {
      assert all[i] == some[i];
    }
    forall i, j | 0 <= i < j < |some|
      ensures some[i] !! some[j]
    {
      assert all[i] == some[i] && all[j] == some[j];
    }
  }

  // Puts every row of the scan into a tree of its own; two rows with one value stop it.
  method FillIndex(pool: BufferPool.BufferPool, scanned: seq<HeapRow>, c: nat, index: StoredIndex,
                   ghost pages: seq<PoolSpec.PageId>, ghost indexes: seq<StoredIndex>, ghost shapes: seq<Option<Tree>>)
    returns (error: Option<BPlusTree.TreeError>, filled: StoredIndex, ghost shape: Option<Tree>)
    requires Ready(pool) && PagesOk(pool.View(), pages, indexes, shapes) && |shapes| == |indexes| && index.root.None?
    requires Unique(scanned) && forall i :: 0 <= i < |scanned| ==> CellFits(scanned[i], c)
    requires |pool.View()| + |scanned| * BUDGET <= MAX_PAGES
    modifies pool, pool.disk
    ensures Ready(pool) && filled == index.(root := filled.root)
    ensures PagesOk(pool.View(), pages, indexes + [filled], shapes + [shape]) && SameHeap(old(pool.View()), pool.View(), pages)
    ensures Progress(old(pool.View()), pool.View(), OwnedPages(pages, shapes), OwnedPages(pages, shapes + [shape]))
    ensures error == None || error == Some(BPlusTree.DuplicateKey)
    ensures error.None? <==> UniqueOn(RowMap(scanned), c)
    ensures error.None? ==> Agrees(RowMap(scanned), c, Contents(shape))
    ensures |old(pool.View())| <= |pool.View()| <= |old(pool.View())| + |scanned| * BUDGET
  {
    hide PoolSpec.Coherent, PoolSpec.View, PagesOk, Contents, SameHeap, Progress, OwnedPages, Ready, RowMap, UniqueOn, Unique, Agrees;
    ghost var view, n := pool.View(), |indexes|;
    error, filled, shape := None, index, None;
    IndexAppended(view, pages, indexes, shapes, index);
    NoProgress(view, OwnedPages(pages, shapes));
    NothingMoved(view, pages);
    NoRowsYet(scanned, c);
    for k := 0 to |scanned|
      invariant Ready(pool) && error.None? && filled == index.(root := filled.root)
      invariant PagesOk(pool.View(), pages, indexes + [filled], shapes + [shape])
      invariant Agrees(RowMap(scanned[..k]), c, Contents(shape))
      invariant SameHeap(view, pool.View(), pages)
      invariant Progress(view, pool.View(), OwnedPages(pages, shapes), OwnedPages(pages, shapes + [shape]))
      invariant |view| <= |pool.View()| <= |view| + k * BUDGET
    {
      var h := scanned[k];
      RowMapMore(scanned, k);
      assert CellFits(h, c);
      if h.row[c].Null? {
        AddKeeps(RowMap(scanned[..k]), c, Contents(shape), h.id, h.row);
        continue;
      }
      ghost var before, owned, older := pool.View(), OwnedPages(pages, shapes + [shape]), shape;
      ghost var these, those := indexes + [filled], shapes + [shape];
      error, filled, shape := AddToIndex(pool, filled, h.row[c].i, h.id, pages, these, those, n);
      assert these[n := filled] == indexes + [filled] && those[n := shape] == shapes + [shape];
      ProgressTwice(view, before, pool.View(), OwnedPages(pages, shapes), owned, OwnedPages(pages, shapes + [shape]));
      SameHeapTwice(view, before, pool.View(), pages);
      if error.Some? {
        TwoRows(scanned, k, c, Contents(shape), h.row[c].i);
        return;
      }
      AddKeeps(RowMap(scanned[..k]), c, Contents(older), h.id, h.row);
    }
    WholeLog(scanned);
    AllInteger(scanned, c);
    AgreementIsUnique(RowMap(scanned), c, Contents(shape));
  }

  // What create_index takes from the heap: rows wide enough, and NULL or an integer in the column.
  ghost predicate CellFits(h: HeapRow, c: nat) {
    c < |h.row| && (h.row[c].Null? || h.row[c].Integer?) && h.id.page < 0x1_0000_0000
  }

  lemma NoRowsYet(log: Log, c: nat)
    ensures Agrees(RowMap(log[..0]), c, Contents(None))
  {}

  lemma RowMapMore(log: Log, k: nat)
    requires Unique(log) && k < |log|
    ensures RowMap(log[..k + 1]) == RowMap(log[..k])[log[k].id := log[k].row] && log[k].id !in RowMap(log[..k])
  {
    hide RowMap, Lookup;
    assert log[..k + 1] == log[..k] + [log[k]];
    RowMapSnoc(log[..k], log[k]);
    UniqueFront(log[..k + 1], log[..k], log[k]);
    RowMapLookup(log[..k], log[k].id);
  }

  lemma TwoRows(log: Log, k: nat, c: nat, index: Index, key: I64)
    requires Unique(log) && k < |log| && c < |log[k].row| && log[k].row[c] == Integer(key)
    requires Agrees(RowMap(log[..k]), c, index) && key in index
    ensures !UniqueOn(RowMap(log), c)
  {
    hide RowMap;
    var rows := RowMap(log[..k]);
    var i := RowMapFrom(log[..k], index[key]);
    RowMapHolds(log, i);
    RowMapHolds(log, k);
    var all := RowMap(log);
    assert log[i].id != log[k].id && Cell(all[log[i].id], c) == Integer(key) == Cell(all[log[k].id], c);
    EqualInteger(Integer(key), Integer(key));
  }

  lemma AllInteger(log: Log, c: nat)
    requires Unique(log) && forall i :: 0 <= i < |log| ==> CellFits(log[i], c)
    ensures IntegerColumn(RowMap(log), c)
  {
    hide RowMap;
    forall id | id in RowMap(log)
      ensures Cell(RowMap(log)[id], c).Null? || Cell(RowMap(log)[id], c).Integer?
    {
      var i := RowMapFrom(log, id);
      assert CellFits(log[i], c);
    }
  }

  // An index can be built exactly when its column holds integers, no two of them equal. A failed attempt leaves
  // the table as it was.
  method BuildIndex(pool: BufferPool.BufferPool, table: StoredTable, name: Name, column: Name, ghost shapes: seq<Option<Tree>>)
    returns (error: Option<StorageError>, now: StoredTable, ghost more: seq<Option<Tree>>)
    requires Ready(pool) && TableOk(pool.View(), table, shapes)
    requires |pool.View()| + |Rows(pool.View(), table.pageIds)| * BUDGET <= MAX_PAGES
    modifies pool, pool.disk
    ensures Ready(pool) && TableOk(pool.View(), now, more)
    ensures Rows(pool.View(), table.pageIds) == old(Rows(pool.View(), table.pageIds))
    ensures var c := FindColumn(table.schema.columns, column);
      error == if c == |table.schema.columns| then Some(NoSuchColumn)
               else if table.schema.columns[c].dataType.kind != IntegerKind then Some(NotInteger)
               else if !UniqueOn(old(LiveRows(pool.View(), table)), c) then Some(TreeFailure(BPlusTree.DuplicateKey))
               else None
    ensures error.Some? ==> now == table && more == shapes
    ensures error.None? ==>
      && |now.indexes| > 0 && |more| > 0 && FindColumn(table.schema.columns, column) < |table.schema.columns|
      && var c, index := FindColumn(table.schema.columns, column), now.indexes[|now.indexes| - 1];
      && now == table.(indexes := table.indexes + [index]) && more[..|more| - 1] == shapes
      && index == StoredIndex(name, table.schema.columns[c].name, index.root) && ColumnOf(table.schema, index) == c
    ensures Progress(old(pool.View()), pool.View(), OwnedPages(table.pageIds, shapes), OwnedPages(table.pageIds, more))
    ensures |old(pool.View())| <= |pool.View()| <= MAX_PAGES
  {
    hide PoolSpec.Coherent, PoolSpec.View, HeapOk, Rows, TableHeap.Room, RowMap, RowOk, OwnedPages, Progress, Stored, PageSet, PagesOk,
         Sound, UniqueOn, Contents, SameHeap, Unique, BufferPool.BufferPool.Idle, Agrees;
    ghost var view, log, rows := pool.View(), Rows(pool.View(), table.pageIds), LiveRows(pool.View(), table);
    error, now, more := None, table, shapes;
    TableFacts(view, table, shapes);
    NoProgress(view, OwnedPages(table.pageIds, shapes));
    var c := FindColumn(table.schema.columns, column);
    if c == |table.schema.columns| {
      error := Some(NoSuchColumn);
      return;
    }
    if table.schema.columns[c].dataType.kind != IntegerKind {
      error := Some(NotInteger);
      return;
    }
    var heap := new TableHeap.TableHeap(pool, table.pageIds);
    var scanned := heap.Scan();
    match scanned {
      case Err(failure) => error := Some(HeapFailure(failure)); return;
      case Ok(_) =>
    }
    FitIndex(view, table, shapes, c);
    var index := StoredIndex(name, table.schema.columns[c].name, None);
    var failed, filled;
    ghost var shape;
    failed, filled, shape := FillIndex(pool, scanned.value, c, index, table.pageIds, table.indexes, shapes);
    SameHeapRows(view, pool.View(), table.pageIds);
    match failed {
      case Some(failure) =>
        IndexDropped(pool.View(), table.pageIds, table.indexes, shapes, filled, shape);
        GrownLess(view, pool.View(), OwnedPages(table.pageIds, shapes), OwnedPages(table.pageIds, shapes + [shape]));
        error := Some(TreeFailure(failure));
        return;
      case None =>
    }
    now, more := table.(indexes := table.indexes + [filled]), shapes + [shape];
    SameName(table.schema.columns, column, filled.columnName);
    IndexJoins(table.schema, table.indexes, Maps(shapes), rows, filled, Contents(shape));
    assert Maps(more) == Maps(shapes) + [Contents(shape)];
    assert more[..|shapes|] == shapes;
  }

  lemma SameHeapRows(v: seq<Page>, w: seq<Page>, pages: seq<PoolSpec.PageId>)
    requires SameHeap(v, w, pages)
    ensures Rows(w, pages) == Rows(v, pages)
  {}

  lemma GrownLess(v: seq<Page>, w: seq<Page>, before: set<nat>, after: set<nat>)
    requires Progress(v, w, before, after)
    ensures Progress(v, w, before, before)
  {}

  // The table's rows, as material for an index on column c.
  lemma FitIndex(view: seq<Page>, table: StoredTable, shapes: seq<Option<Tree>>, c: nat)
    requires TableOk(view, table, shapes) && c < |table.schema.columns| && table.schema.columns[c].dataType.kind == IntegerKind
    ensures forall i :: 0 <= i < |Rows(view, table.pageIds)| ==> CellFits(Rows(view, table.pageIds)[i], c)
  {
    hide Rows, TableHeap.Room, RowMap, PagesOk, Sound, HeapOk, ColumnFault;
    TableFacts(view, table, shapes);
    var log := Rows(view, table.pageIds);
    HeapDistinctPages(view, table.pageIds);
    RowsUnique(view, table.pageIds);
    forall i | 0 <= i < |log|
      ensures CellFits(log[i], c)
    {
      IntegerOrNull(table.schema.columns[c], log[i].row[c]);
      assert log[i].id.page in table.pageIds;
    }
  }

  lemma HeapDistinctPages(view: seq<Page>, pages: seq<PoolSpec.PageId>)
    requires HeapOk(view, pages)
    ensures Distinct(pages)
  {}

  lemma IntegerOrNull(column: ColumnSchema, v: Value)
    requires ColumnFault(column, v).None? && column.dataType.kind == IntegerKind
    ensures v.Null? || v.Integer?
  {}

  lemma IndexJoins(schema: TableSchema, indexes: seq<StoredIndex>, maps: seq<Index>, rows: map<RowId, Row>, index: StoredIndex, contents: Index)
    requires Sound(schema, indexes, maps, rows) && IndexHolds(schema, index, contents, rows)
    ensures Sound(schema, indexes + [index], maps + [contents], rows)
  {
    hide RowsOk, KeysUnique, Agrees;
    var more := indexes + [index];
    forall c | Indexed(schema, indexes, c)
      ensures Indexed(schema, more, c)
    {
      var i :| 0 <= i < |indexes| && ColumnOf(schema, indexes[i]) == c;
      assert more[i] == indexes[i];
    }
  }
}
