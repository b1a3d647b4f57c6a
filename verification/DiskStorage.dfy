// One database: its tables and indexes on disk behind a pool, and its catalog in page 0.
module DiskStorage {
  import opened Bytes
  import opened Results
  import opened Values
  import opened Views
  import opened TreeSpec
  import opened TreeLaws
  import opened TreeStore
  import TreePages
  import opened TableLog
  import opened Agreement
  import opened Schema
  import opened TableState
  import opened IndexUpkeep
  import opened Updates
  import opened TableWork
  import opened Packing
  import opened LostRows
  import opened Meaning
  import opened DatabaseState
  import opened CatalogFormat
  import CatalogStorage
  import PoolSpec
  import BufferPool
  import BPlusTree
  import TableHeap

  const POOL_CAPACITY: nat := 16

  class DiskStorage {
    const pool: BufferPool.BufferPool
    var databaseName: Name
    var tables: seq<StoredTable>
    // The trees behind the indexes of each table.
    ghost var shapes: seq<Shapes>

    constructor (pool: BufferPool.BufferPool, catalog: StoredCatalog, ghost shapes: seq<Shapes>)
      ensures this.pool == pool && databaseName == catalog.databaseName && tables == catalog.tables && this.shapes == shapes
    {
      this.pool := pool;
      databaseName := catalog.databaseName;
      tables := catalog.tables;
      this.shapes := shapes;
    }

    // Every table is sound: in every index exactly the rows, no value twice where only one may be, no page shared.
    ghost predicate Valid()
      reads this, pool, pool.disk
    {
      Ready(pool) && StateOk(pool.View(), tables, shapes)
    }

    ghost function Catalog(): StoredCatalog
      reads this
    {
      StoredCatalog(databaseName, tables)
    }

    // The page that opening the database reads its catalog from.
    ghost function CatalogOnDisk(): Option<Page>
      reads this, pool, pool.disk
    {
      if |pool.disk.pages| == 0 then None else Some(pool.disk.pages[CATALOG_PAGE])
    }

    ghost predicate SavedAs(c: StoredCatalog)
      reads this, pool, pool.disk
    {
      CatalogFits(c) && CatalogOnDisk() == Some(CatalogPage(c))
    }

    // Page 0 holds the catalog as it is now.
    ghost predicate Saved()
      reads this, pool, pool.disk
    {
      SavedAs(Catalog())
    }

    // The rows of a table in scan order.
    ghost function RowsOf(t: nat): Log
      requires t < |tables|
      reads this, pool, pool.disk
    {
      Rows(pool.View(), tables[t].pageIds)
    }

    static lemma StateFacts(view: seq<Page>, tables: seq<StoredTable>, shapes: seq<Shapes>, t: nat)
      requires StateOk(view, tables, shapes) && t < |tables|
      ensures |shapes| == |tables| && TableOk(view, tables[t], shapes[t]) && SchemaOk(tables[t].schema) && 0 < |view| <= MAX_PAGES
    {
      hide TableOk, SchemaOk, Owned;
    }

    static lemma RowsKept(v: seq<Page>, before: seq<StoredTable>, w: seq<Page>, after: seq<StoredTable>, worked: nat)
      requires |before| == |after| && forall t :: 0 <= t < |before| && t != worked ==> after[t] == before[t] && SameHeap(v, w, before[t].pageIds)
      ensures OthersSame(v, before, w, after, worked)
    {
      hide Rows, TableHeap.Room, Given;
    }

    // What every operation keeps: each index holds exactly the non-null values of its column with the ids of their
    // rows, and no UNIQUE, PRIMARY KEY or indexed column repeats a value.
    lemma IndexesAgree(t: nat)
      requires Valid() && t < |tables|
      ensures |shapes| == |tables| && |shapes[t]| == |tables[t].indexes|
      ensures forall i :: 0 <= i < |tables[t].indexes| ==>
        Agrees(RowMap(RowsOf(t)), ColumnOf(tables[t].schema, tables[t].indexes[i]), Contents(shapes[t][i]))
      ensures forall c :: 0 <= c < |tables[t].schema.columns| && Guarded(tables[t].schema, tables[t].indexes, c) ==>
        UniqueOn(RowMap(RowsOf(t)), c)
      ensures forall c :: 0 <= c < |tables[t].schema.columns| ==>
        tables[t].schema.columns[c].primaryKey || tables[t].schema.columns[c].unique ==> UniqueOn(RowMap(RowsOf(t)), c)
    {
      hide PoolSpec.Coherent, PoolSpec.View, StateOk, SchemaOk, PagesOk, Rows, TableHeap.Room, RowMap, Agrees, UniqueOn, RowsOk,
           KeysIndexed, KeysUnique, Guarded;
      StateFacts(pool.View(), tables, shapes, t);
      forall i | 0 <= i < |tables[t].indexes|
        ensures Agrees(RowMap(RowsOf(t)), ColumnOf(tables[t].schema, tables[t].indexes[i]), Contents(shapes[t][i]))
      {
        assert IndexHolds(tables[t].schema, tables[t].indexes[i], Maps(shapes[t])[i], LiveRows(pool.View(), tables[t]));
      }
      forall c | 0 <= c < |tables[t].schema.columns| && Guarded(tables[t].schema, tables[t].indexes, c)
        ensures UniqueOn(RowMap(RowsOf(t)), c)
      {
        SoundIsUnique(tables[t].schema, tables[t].indexes, Maps(shapes[t]), LiveRows(pool.View(), tables[t]), c);
      }
      KeysAreUnique(pool.View(), tables, shapes);
    }

    static lemma KeysAreUnique(view: seq<Page>, tables: seq<StoredTable>, shapes: seq<Shapes>)
      requires StateOk(view, tables, shapes)
      ensures forall t, c :: 0 <= t < |tables| && 0 <= c < |tables[t].schema.columns| ==>
        tables[t].schema.columns[c].primaryKey || tables[t].schema.columns[c].unique ==>
          UniqueOn(RowMap(Rows(view, tables[t].pageIds)), c)
    {
      hide StateOk, SchemaOk, TableOk, Rows, RowMap, UniqueOn, Indexed;
      forall t, c | 0 <= t < |tables| && 0 <= c < |tables[t].schema.columns|
          && (tables[t].schema.columns[c].primaryKey || tables[t].schema.columns[c].unique)
        ensures UniqueOn(RowMap(Rows(view, tables[t].pageIds)), c)
      {
        StateFacts(view, tables, shapes, t);
        KeyIsUnique(view, tables[t], shapes[t], c);
      }
    }

    lemma KeysIfValid()
      ensures Valid() ==> forall s, c :: 0 <= s < |tables| && 0 <= c < |tables[s].schema.columns| ==>
        tables[s].schema.columns[c].primaryKey || tables[s].schema.columns[c].unique ==> UniqueOn(RowMap(RowsOf(s)), c)
    {
      hide PoolSpec.Coherent, PoolSpec.View, StateOk, Rows, RowMap, UniqueOn;
      if Valid() {
        KeysAreUnique(pool.View(), tables, shapes);
      }
    }

    static lemma KeyIsUnique(view: seq<Page>, table: StoredTable, shapes: Shapes, c: nat)
      requires TableOk(view, table, shapes) && c < |table.schema.columns| && Guarded(table.schema, table.indexes, c)
      ensures UniqueOn(RowMap(Rows(view, table.pageIds)), c)
    {
      hide PagesOk, Sound, Rows, RowMap, UniqueOn, Guarded;
      SoundIsUnique(table.schema, table.indexes, Maps(shapes), LiveRows(view, table), c);
    }

    // In the values of a scan: every row has a value for every column, and no value but NULL stands twice in a column that
    // is PRIMARY KEY or UNIQUE or has an index.
    lemma NoValueTwice(t: nat)
      requires Valid() && t < |tables|
      ensures var columns, indexes, log := tables[t].schema.columns, tables[t].indexes, RowsOf(t);
        && (forall i :: 0 <= i < |log| ==> |log[i].row| == |columns|)
        && forall c :: 0 <= c < |columns| ==>
          (|| columns[c].primaryKey || columns[c].unique
           || exists x :: 0 <= x < |indexes| && Normalize(indexes[x].columnName) == Normalize(columns[c].name)) ==>
            forall i, j :: 0 <= i < j < |log| ==> log[i].row[c].Null? || !Equal(log[i].row[c], log[j].row[c])
    {
      hide PoolSpec.Coherent, PoolSpec.View, StateOk, SchemaOk, TableOk, Rows, RowMap, UniqueOn, Guarded, Equal, Normalize, Unique, RowOk;
      StateFacts(pool.View(), tables, shapes, t);
      TableFacts(pool.View(), tables[t], shapes[t]);
      NamesDistinct(tables[t].schema);
      var schema, indexes, log := tables[t].schema, tables[t].indexes, RowsOf(t);
      forall i | 0 <= i < |log|
        ensures |log[i].row| == |schema.columns|
      {
        RowOkIs(schema, log[i].row);
      }
      forall c | 0 <= c < |schema.columns|
        ensures Guarded(schema, indexes, c) <==>
          || schema.columns[c].primaryKey || schema.columns[c].unique
          || exists x :: 0 <= x < |indexes| && Normalize(indexes[x].columnName) == Normalize(schema.columns[c].name)
        ensures Guarded(schema, indexes, c) ==>
          forall i, j :: 0 <= i < j < |log| ==> log[i].row[c].Null? || !Equal(log[i].row[c], log[j].row[c])
      {
        GuardedIs(schema, indexes, c);
        if Guarded(schema, indexes, c) {
          KeyIsUnique(pool.View(), tables[t], shapes[t], c);
          UniqueOnIs(log, c);
        }
      }
    }

    static lemma NamesDistinct(schema: TableSchema)
      requires SchemaOk(schema)
      ensures ColumnsDistinct(schema.columns)
    {}

    // Every index is on a column of integers, and holds each value of that column with the id of its row, and nothing else.
    lemma IndexesHold(t: nat, x: nat)
      requires Valid() && t < |tables| && x < |tables[t].indexes|
      ensures |shapes| == |tables| && |shapes[t]| == |tables[t].indexes|
      ensures var columns, name, log, found := tables[t].schema.columns, tables[t].indexes[x].columnName, RowsOf(t), Contents(shapes[t][x]);
        exists c ::
          && 0 <= c < |columns| && Normalize(columns[c].name) == Normalize(name) && columns[c].dataType.kind == IntegerKind
          && (forall i :: 0 <= i < |log| ==> |log[i].row| == |columns|)
          && (forall i :: 0 <= i < |log| ==> log[i].row[c].Null? || log[i].row[c].Integer?)
          && (forall i :: 0 <= i < |log| && log[i].row[c].Integer? ==> log[i].row[c].i in found && found[log[i].row[c].i] == log[i].id)
          && (forall k :: k in found ==> exists i :: 0 <= i < |log| && log[i].row[c] == Integer(k))
    {
      hide PoolSpec.Coherent, PoolSpec.View, StateOk, SchemaOk, PagesOk, Rows, RowMap, UniqueOn, Normalize, RowOk, RowsOk, KeysIndexed,
           KeysUnique, Unique, FindColumn, Contents;
      StateFacts(pool.View(), tables, shapes, t);
      TableFacts(pool.View(), tables[t], shapes[t]);
      var schema, log, found := tables[t].schema, RowsOf(t), Contents(shapes[t][x]);
      assert IndexHolds(schema, tables[t].indexes[x], Maps(shapes[t])[x], LiveRows(pool.View(), tables[t]));
      var c := ColumnOf(schema, tables[t].indexes[x]);
      forall i | 0 <= i < |log|
        ensures |log[i].row| == |schema.columns| && (log[i].row[c].Null? || log[i].row[c].Integer?)
        ensures log[i].row[c].Integer? ==> log[i].row[c].i in found && found[log[i].row[c].i] == log[i].id
      {
        RowOkIs(schema, log[i].row);
        RowMapHolds(log, i);
      }
      forall k | k in found
        ensures exists i :: 0 <= i < |log| && log[i].row[c] == Integer(k)
      {
        var i := RowMapFrom(log, found[k]);
        assert log[i].row[c] == Integer(k);
      }
    }

    // Writes the catalog to page 0, behind the pool's back.
    method StoreTables() returns (error: Option<StorageError>)
      requires Valid()
      modifies pool.disk
      ensures Valid() && error == if CatalogFits(Catalog()) then None else Some(CatalogFailure)
      ensures error.None? ==> Saved()
      ensures error.Some? ==> pool.View() == old(pool.View()) && pool.disk.pages == old(pool.disk.pages)
      ensures |pool.View()| == |old(pool.View())|
      ensures forall t :: 0 <= t < |tables| ==> SameHeap(old(pool.View()), pool.View(), tables[t].pageIds)
    {
      hide PoolSpec.Coherent, PoolSpec.View, StateOk, CatalogFits, CatalogPage, EncodeCatalog, SameHeap;
      ghost var view, before := pool.View(), pool.State();
      NothingMovedAnywhere(view, tables);
      HasPages(view, tables, shapes);
      CatalogStorage.FitsAPage(Catalog());
      var failed := CatalogStorage.StoreCatalog(pool.disk, StoredCatalog(databaseName, tables));
      if failed.Some? {
        return Some(CatalogFailure);
      }
      ghost var page := CatalogPage(Catalog());
      assert pool.State() == PoolSpec.WriteAround(before, CATALOG_PAGE, page);
      PoolSpec.WriteAroundKeeps(before, pool.held, CATALOG_PAGE, page);
      StateStored(view, tables, shapes, page);
      return None;
    }

    static lemma HasPages(view: seq<Page>, tables: seq<StoredTable>, shapes: seq<Shapes>)
      requires StateOk(view, tables, shapes)
      ensures 0 < |view| <= MAX_PAGES && |shapes| == |tables|
    {}

    static lemma NothingMovedAnywhere(view: seq<Page>, tables: seq<StoredTable>)
      ensures forall t :: 0 <= t < |tables| ==> SameHeap(view, view, tables[t].pageIds)
    {}

    method CreateTable(schema: TableSchema) returns (error: Option<StorageError>)
      requires Valid() && SchemaOk(schema)
      modifies this, pool.disk
      ensures Valid()
      ensures error == if FindTable(old(tables), schema.name) < |old(tables)| then Some(AlreadyExists)
                       else if !CatalogFits(StoredCatalog(old(databaseName), old(tables) + [NewTable(schema)])) then Some(CatalogFailure)
                       else None
      ensures error == Some(AlreadyExists) <==>
        exists s :: 0 <= s < |old(tables)| && Normalize(old(tables)[s].schema.name) == Normalize(schema.name)
      ensures error.Some? ==> tables == old(tables) && pool.View() == old(pool.View()) && CatalogOnDisk() == old(CatalogOnDisk())
      ensures error.None? ==> tables == old(tables) + [NewTable(schema)] && RowsOf(|old(tables)|) == [] && Saved()
      ensures var indexes := NewTable(schema).indexes;
        && (forall c :: 0 <= c < |schema.columns| ==>
          ((schema.columns[c].primaryKey || schema.columns[c].unique) && schema.columns[c].dataType.kind == IntegerKind <==>
            exists i :: 0 <= i < |indexes| && indexes[i].columnName == schema.columns[c].name))
        && (forall i, j :: 0 <= i < j < |indexes| ==> indexes[i].columnName != indexes[j].columnName)
        && (forall i :: 0 <= i < |indexes| ==> indexes[i].root.None?)
        && (forall i :: 0 <= i < |indexes| ==> indexes[i].columnName in ColumnNames(schema.columns))
      ensures databaseName == old(databaseName)
      ensures OthersSame(old(pool.View()), old(tables), pool.View(), tables, |old(tables)|)
    {
      hide PoolSpec.Coherent, PoolSpec.View, StateOk, CatalogFits, CatalogPage, SchemaOk, SameHeap, Rows, TableHeap.Room, TableOk, Owned,
           Ready, Normalize, FindTable, NewTable;
      ghost var view := pool.View();
      NamesDistinct(schema);
      NewTableIs(schema);
      if FindTable(tables, schema.name) < |tables| {
        return Some(AlreadyExists);
      }
      var indexes := KeyIndexes(schema);
      ghost var before, trees := tables, NoTrees(|indexes|);
      HasPages(view, tables, shapes);
      NewTableOk(view, schema);
      StateExtended(view, tables, shapes, NewTable(schema), trees);
      tables := tables + [StoredTable(schema, [], indexes)];
      shapes := shapes + [trees];
      error := StoreTables();
      AppendedRows(view, before, pool.View(), tables);
      if error.Some? {
        tables := tables[..|tables| - 1];
        shapes := shapes[..|shapes| - 1];
        assert tables == before && shapes == old(shapes);
      }
    }

    // The indexes a new table starts with.
    static method KeyIndexes(schema: TableSchema) returns (indexes: seq<StoredIndex>)
      ensures NewTable(schema) == StoredTable(schema, [], indexes)
    {
      indexes := [];
      for c := 0 to |schema.columns|
        invariant indexes == AutoIndexes(schema, c)
      {
        if KeyedInteger(schema.columns[c]) {
          indexes := indexes + [AutoIndex(schema, schema.columns[c])];
        }
      }
    }

    static lemma AppendedRows(v: seq<Page>, before: seq<StoredTable>, w: seq<Page>, after: seq<StoredTable>)
      requires |after| == |before| + 1 && after[..|before|] == before
      requires forall t :: 0 <= t < |after| ==> SameHeap(v, w, after[t].pageIds)
      ensures OthersSame(v, before, w, after, |before|)
      ensures Rows(w, after[|before|].pageIds) == Rows(v, after[|before|].pageIds)
    {
      hide Rows, TableHeap.Room, Given;
      assert forall t :: 0 <= t < |before| ==> after[t] == before[t];
    }

    // A step of one table, seen from the whole database.
    static lemma TableStep(v: seq<Page>, w: seq<Page>, tables: seq<StoredTable>, shapes: seq<Shapes>, t: nat, now: StoredTable, grown: Shapes)
      requires StateOk(v, tables, shapes) && t < |tables| && |v| <= |w| <= MAX_PAGES
      requires TableOk(w, now, grown) && now.schema == tables[t].schema
      requires Progress(v, w, OwnedPages(tables[t].pageIds, shapes[t]), OwnedPages(now.pageIds, grown))
      ensures StateOk(w, tables[t := now], shapes[t := grown])
      ensures OthersSame(v, tables, w, tables[t := now], t)
    {
      hide StateOk, TableOk, SchemaOk, SameHeap, Progress, OwnedPages, Rows, TableHeap.Room, Given;
      StateFacts(v, tables, shapes, t);
      StateStep(v, w, tables, shapes, t, now, grown);
      RowsKept(v, tables, w, tables[t := now], t);
    }

    // The catalog has been stored after such a step.
    static lemma StoredAfter(u: seq<Page>, before: seq<StoredTable>, v: seq<Page>, w: seq<Page>, after: seq<StoredTable>, worked: nat)
      requires OthersSame(u, before, v, after, worked)
      requires forall t :: 0 <= t < |after| ==> SameHeap(v, w, after[t].pageIds)
      ensures OthersSame(u, before, w, after, worked)
      ensures forall t :: 0 <= t < |after| ==> Rows(w, after[t].pageIds) == Rows(v, after[t].pageIds)
    {
      hide Rows, TableHeap.Room, Given;
    }

    static lemma UnchangedTables(v: seq<Page>, tables: seq<StoredTable>, worked: nat)
      ensures OthersSame(v, tables, v, tables, worked)
    {}

    // The row goes in exactly when it suits the schema, repeats no value that must be unique, and fits a page. It
    // stays in when only the catalog, written last, turns out not to fit its page, as it may when the heap has to
    // take a new page.
    method Insert(name: Name, row: Row) returns (error: Option<StorageError>, ghost id: RowId)
      requires Valid()
      requires var t := FindTable(tables, name); t < |tables| ==> |pool.View()| + 1 + |tables[t].indexes| * BUDGET <= MAX_PAGES
      modifies this, pool, pool.disk
      ensures Valid() && |tables| == |old(tables)| && databaseName == old(databaseName)
      ensures var t := FindTable(old(tables), name);
        && OthersSame(old(pool.View()), old(tables), pool.View(), tables, t)
        && (t == |tables| ==> error == Some(Unavailable))
        && (t < |tables| ==>
          var accepted := RowOk(old(tables)[t].schema, row) && TableHeap.Storable(row)
            && !Collides(old(tables)[t].schema, old(tables)[t].indexes, old(LiveRows(pool.View(), tables[t])), row);
          var more := if TableHeap.NeedsPage(old(pool.View()), old(tables)[t].pageIds, row) then 1 else 0;
          && (error.None? <==> accepted && CatalogFits(WithPages(old(Catalog()), t, more)))
          && (error == Some(CatalogFailure) <==> accepted && !CatalogFits(WithPages(old(Catalog()), t, more)))
          && (accepted ==>
            && RowsOf(t) == Rows(old(pool.View()), old(tables)[t].pageIds) + [HeapRow(id, row)]
            && !Given(old(pool.View()), old(tables)[t].pageIds, id))
          && (accepted ==> BehindInsert(old(pool.View()), old(tables), t, pool.View(), shapes, row, id))
          && (!accepted ==>
            && tables == old(tables) && pool.View() == old(pool.View())
            && error == Some(match RowFault(tables[t].schema, row)
                             case Some(fault) => InvalidRow(fault)
                             case None =>
                               if Collides(tables[t].schema, tables[t].indexes, LiveRows(pool.View(), tables[t]), row) then DuplicateValue
                               else HeapFailure(TableHeap.Refusal(row)))))
      ensures forall s, c :: 0 <= s < |tables| && 0 <= c < |tables[s].schema.columns| ==>
        tables[s].schema.columns[c].primaryKey || tables[s].schema.columns[c].unique ==> UniqueOn(RowMap(RowsOf(s)), c)
      ensures error.None? ==> Saved()
      ensures error.Some? ==> CatalogOnDisk() == old(CatalogOnDisk())
    {
      hide HeapOk, PageSet, PoolSpec.Coherent, PoolSpec.View, StateOk, CatalogFits, CatalogPage, SchemaOk, SameHeap, Rows, TableHeap.Room,
           RowMap, TableOk, Ready, Progress, OwnedPages, Collides, RowOk, TableHeap.Storable, TableHeap.NeedsPage, TableHeap.AtEnd,
           BehindInsert, Unindexed, Given, OthersSame, SameIndexes, SameOutline, WithPages, RowFault, UniqueOn;
      ghost var view := pool.View();
      id := RowId(0, 0);
      var t := FindTable(tables, name);
      UnchangedTables(view, tables, t);
      KeysAreUnique(view, tables, shapes);
      if t == |tables| {
        error := Some(Unavailable);
        return;
      }
      StateFacts(view, tables, shapes, t);
      ghost var before := tables;
      var now;
      ghost var grown;
      PageZeroShown(pool);
      TableFacts(view, tables[t], shapes[t]);
      error, now, grown, id := InsertRow(pool, tables[t], row, shapes[t]);
      ghost var mid := pool.View();
      PageZeroShown(pool);
      CatalogUntouched(view, mid, tables[t], shapes[t], OwnedPages(now.pageIds, grown));
      TableStep(view, mid, tables, shapes, t, now, grown);
      tables, shapes := tables[t := now], shapes[t := grown];
      if error.Some? {
        assert tables == before;
        return;
      }
      EndFacts(view, before[t].pageIds, mid, now.pageIds, row, id);
      OutlineGrown(before[t], now, if TableHeap.NeedsPage(view, before[t].pageIds, row) then 1 else 0);
      AnyPages(StoredCatalog(databaseName, before), t, if TableHeap.NeedsPage(view, before[t].pageIds, row) then 1 else 0, now);
      error := StoreTables();
      StoredAfter(view, before, mid, pool.View(), tables, t);
      KeysAreUnique(pool.View(), tables, shapes);
      InsertedBehind(view, before, t, mid, pool.View(), tables, shapes, row, id);
    }

    // What the list of tables from before an INSERT shows of the heap after it: the row is missing if it has gone to a
    // page of its own, and then the tables are sound exactly when no index mentions it.
    static ghost predicate BehindInsert(view: seq<Page>, before: seq<StoredTable>, t: nat, w: seq<Page>, shapes: seq<Shapes>, row: Row, id: RowId)
      requires t < |before|
    {
      var table, alone := before[t], TableHeap.NeedsPage(view, before[t].pageIds, row);
      && Rows(w, table.pageIds) == Rows(view, table.pageIds) + (if alone then [] else [HeapRow(id, row)])
      && (alone ==> (StateOk(w, before, shapes) <==> Unindexed(table.schema, table.indexes, row)))
    }

    static lemma InsertedBehind(view: seq<Page>, before: seq<StoredTable>, t: nat, mid: seq<Page>, w: seq<Page>, after: seq<StoredTable>,
                                shapes: seq<Shapes>, row: Row, id: RowId)
      requires t < |before| && HeapOk(view, before[t].pageIds) && StateOk(w, after, shapes) && |after| == |before| && after == before[t := after[t]]
      requires after[t].schema == before[t].schema && SameIndexes(before[t].indexes, after[t].indexes)
      requires Rows(mid, after[t].pageIds) == Rows(view, before[t].pageIds) + [HeapRow(id, row)] && |view| <= |w|
      requires TableHeap.AtEnd(view, before[t].pageIds, mid, after[t].pageIds, row, id) && SameHeap(mid, w, after[t].pageIds)
      requires Unindexed(before[t].schema, before[t].indexes, row) ==> after[t].indexes == before[t].indexes
      ensures BehindInsert(view, before, t, w, shapes, row, id)
    {
      hide StateOk, TableOk, SchemaOk, Rows, TableHeap.Room, TableHeap.NeedsPage, TableHeap.AtEnd, Given, HeapOk, SameIndexes, Unindexed,
           OwnedPages, Spread, Pack;
      var table, now, h := before[t], after[t], HeapRow(id, row);
      StateFacts(w, after, shapes, t);
      TableFacts(w, now, shapes[t]);
      HeapStays(view, table.pageIds, mid, w, now.pageIds, row, id);
      var kept := OneMoved(view, table.pageIds, w, now.pageIds, h);
      if TableHeap.NeedsPage(view, table.pageIds, row) {
        OneLost(w, before, t, now, shapes, h);
      }
    }

    // One row at the end of a heap, read through the list of pages from before.
    static lemma OneMoved(view: seq<Page>, pages: seq<PoolSpec.PageId>, w: seq<Page>, more: seq<PoolSpec.PageId>, h: HeapRow) returns (kept: Log)
      requires HeapOk(view, pages) && HeapOk(w, more) && |view| <= |w| && Rows(w, more) == Rows(view, pages) + [h]
      requires TableHeap.AtEnd(view, pages, w, more, h.row, h.id)
      ensures kept == (if TableHeap.NeedsPage(view, pages, h.row) then [] else [h])
      ensures Rows(w, pages) == Rows(view, pages) + kept && pages <= more
    {
      hide Rows, TableHeap.Room, TableHeap.SpaceFor, Given, HeapOk;
      SpreadStart(view, pages);
      SpreadMore(view, pages, view, pages, [], w, more, h);
      assert [] + [h] == [h];
      RowsUniqueIn(view, pages);
      StillRead(view, pages, w, more, Rows(view, pages), [h]);
      PackMore([], h.row, TableHeap.Room(view, pages));
      assert RowsIn([h]) == [] + [h.row];
      kept := [h][..Pack(RowsIn([h]), TableHeap.Room(view, pages)).kept];
    }

    static lemma OneLost(w: seq<Page>, before: seq<StoredTable>, t: nat, now: StoredTable, shapes: seq<Shapes>, h: HeapRow)
      requires t < |before| && StateOk(w, before[t := now], shapes) && before[t].pageIds <= now.pageIds
      requires now.schema == before[t].schema && SameIndexes(before[t].indexes, now.indexes)
      requires Rows(w, now.pageIds) == Rows(w, before[t].pageIds) + [h]
      requires Unindexed(before[t].schema, before[t].indexes, h.row) ==> now.indexes == before[t].indexes
      ensures StateOk(w, before, shapes) <==> Unindexed(before[t].schema, before[t].indexes, h.row)
    {
      hide StateOk, TableOk, SchemaOk, Rows, TableHeap.Room, SameIndexes, Unindexed, OwnedPages;
      ShortState(w, before, t, now, shapes, Rows(w, before[t].pageIds), [h]);
      if StateOk(w, before, shapes) {
        SameRoots(w, before, t, now, shapes);
      }
      assert [h][0] == h && (forall i :: 0 <= i < |[h]| ==> [h][i] == h);
      assert before[t := before[t]] == before;
      assert now.indexes == before[t].indexes ==> before[t].(indexes := now.indexes) == before[t];
    }

    // The database with the old list of pages of one table: sound exactly when no index mentions a row of the other pages.
    static lemma ShortState(w: seq<Page>, before: seq<StoredTable>, t: nat, now: StoredTable, shapes: seq<Shapes>, kept: Log, lost: Log)
      requires t < |before| && StateOk(w, before[t := now], shapes) && before[t].pageIds <= now.pageIds && now.schema == before[t].schema
      requires SameIndexes(before[t].indexes, now.indexes)
      requires Rows(w, now.pageIds) == kept + lost && Rows(w, before[t].pageIds) == kept
      ensures StateOk(w, before[t := before[t].(indexes := now.indexes)], shapes) <==>
        forall i :: 0 <= i < |lost| ==> Unindexed(before[t].schema, before[t].indexes, lost[i].row)
    {
      hide StateOk, TableOk, SchemaOk, Rows, TableHeap.Room, SameIndexes, Unindexed, OwnedPages;
      var all, short := before[t := now], before[t].(indexes := now.indexes);
      StateFacts(w, all, shapes, t);
      ShortListOk(w, now.schema, now.indexes, shapes[t], before[t].pageIds, now.pageIds, kept, lost);
      UnindexedSame(now.schema, before[t].indexes, now.indexes);
      assert all[t := short] == before[t := short] && now == StoredTable(now.schema, now.pageIds, now.indexes);
      if TableOk(w, short, shapes[t]) {
        StateShrinks(w, all, shapes, t, short, shapes[t]);
        assert shapes[t := shapes[t]] == shapes;
      }
      if StateOk(w, before[t := short], shapes) {
        StateFacts(w, before[t := short], shapes, t);
      }
    }

    // Trees stand at their roots: a database cannot be sound with two lists of roots for the same trees.
    static lemma SameRoots(w: seq<Page>, before: seq<StoredTable>, t: nat, now: StoredTable, shapes: seq<Shapes>)
      requires t < |before| && StateOk(w, before, shapes) && StateOk(w, before[t := now], shapes) && SameIndexes(before[t].indexes, now.indexes)
      ensures now.indexes == before[t].indexes
    {
      hide StateOk, SchemaOk, Rows, TableHeap.Room, HeapOk, Sound, TreePages.TreeOk, TreeAt, Regions;
      StateFacts(w, before, shapes, t);
      StateFacts(w, before[t := now], shapes, t);
      forall i | 0 <= i < |now.indexes|
        ensures now.indexes[i] == before[t].indexes[i]
      {
        assert Stored(w, before[t].indexes[i].root, shapes[t][i], MAX_KEYS) && Stored(w, now.indexes[i].root, shapes[t][i], MAX_KEYS);
      }
    }

    static lemma EndFacts(v: seq<Page>, pages: seq<PoolSpec.PageId>, w: seq<Page>, next: seq<PoolSpec.PageId>, row: Row, id: RowId)
      requires TableHeap.AtEnd(v, pages, w, next, row, id)
      ensures !Given(v, pages, id) && |next| == |pages| + if TableHeap.NeedsPage(v, pages, row) then 1 else 0
    {
      hide Given, TableHeap.NeedsPage;
    }

    static lemma OutlineGrown(table: StoredTable, now: StoredTable, more: nat)
      requires now.schema == table.schema && SameIndexes(table.indexes, now.indexes) && |now.pageIds| == |table.pageIds| + more
      ensures SameOutline(table.(pageIds := Lengthened(table.pageIds, more)), now)
    {}

    method Scan(name: Name) returns (r: Result<seq<Row>, StorageError>)
      requires Valid()
      modifies pool, pool.disk
      ensures Valid() && pool.View() == old(pool.View())
      ensures var t := FindTable(tables, name); r == if t == |tables| then Err(Unavailable) else Ok(RowsIn(RowsOf(t)))
      ensures var t := FindTable(tables, name); r.Ok? ==>
        t < |tables| && |r.value| == |RowsOf(t)| && forall i :: 0 <= i < |r.value| ==> r.value[i] == RowsOf(t)[i].row
    {
      hide PoolSpec.Coherent, PoolSpec.View, StateOk, SchemaOk, Rows, TableHeap.Room, TableOk, HeapOk, PageSet;
      var t := FindTable(tables, name);
      if t == |tables| {
        return Err(Unavailable);
      }
      StateFacts(pool.View(), tables, shapes, t);
      TableFacts(pool.View(), tables[t], shapes[t]);
      var heap := new TableHeap.TableHeap(pool, tables[t].pageIds);
      var scanned := heap.Scan();
      match scanned {
        case Err(failure) => return Err(HeapFailure(failure));
        case Ok(_) =>
      }
      var rows: seq<Row> := [];
      for i := 0 to |scanned.value|
        invariant rows == RowsIn(scanned.value)[..i]
      {
        rows := rows + [scanned.value[i].row];
      }
      assert RowsIn(scanned.value)[..|scanned.value|] == RowsIn(scanned.value);
      return Ok(rows);
    }

    // A lookup through the index gives what a scan would give for that key.
    method IndexScan(name: Name, column: Name, key: I64) returns (r: Result<seq<Row>, StorageError>)
      requires Valid()
      modifies pool, pool.disk
      ensures Valid() && pool.View() == old(pool.View())
      ensures var t := FindTable(tables, name);
        if t == |tables| then r == Err(Unavailable)
        else
          var i := FindIndex(tables[t].indexes, column);
          if i == |tables[t].indexes| then r == Err(Unavailable)
          else r == Ok(WithKey(RowsOf(t), ColumnOf(tables[t].schema, tables[t].indexes[i]), key))
    {
      hide PoolSpec.Coherent, PoolSpec.View, StateOk, SchemaOk, Rows, TableHeap.Room, RowMap, HeapOk, PageSet, PagesOk, Unique, Agrees,
           Lookup, WithKey, Contents, RowsOk, KeysIndexed, KeysUnique;
      var t := FindTable(tables, name);
      if t == |tables| {
        return Err(Unavailable);
      }
      StateFacts(pool.View(), tables, shapes, t);
      TableFacts(pool.View(), tables[t], shapes[t]);
      var i := FindIndex(tables[t].indexes, column);
      if i == |tables[t].indexes| {
        return Err(Unavailable);
      }
      assert IndexHolds(tables[t].schema, tables[t].indexes[i], Maps(shapes[t])[i], LiveRows(pool.View(), tables[t]));
      IndexIsScan(RowsOf(t), ColumnOf(tables[t].schema, tables[t].indexes[i]), Contents(shapes[t][i]), key);
      var found := FindInIndex(pool, tables[t].indexes[i], key, tables[t].pageIds, tables[t].indexes, shapes[t], i);
      match found {
        case Err(failure) => return Err(TreeFailure(failure));
        case Ok(_) =>
      }
      if found.value.None? {
        return Ok([]);
      }
      var heap := new TableHeap.TableHeap(pool, tables[t].pageIds);
      var fetched := heap.Fetch(found.value.value);
      match fetched {
        case Err(failure) => return Err(HeapFailure(failure));
        case Ok(row) => return Ok([row]);
      }
    }

    // Exactly the matching rows go; the catalog stays as it is, and everything is written out.
    method DeleteWhere(name: Name, p: Row -> bool) returns (r: Result<nat, StorageError>)
      requires Valid()
      modifies this`shapes, pool, pool.disk
      ensures Valid()
      ensures var t := FindTable(tables, name);
        && OthersSame(old(pool.View()), tables, pool.View(), tables, t)
        && r == (if t == |tables| then Err(Unavailable) else Ok(Picked(old(RowsOf(FindTable(tables, name))), p)))
        && (t < |tables| ==> RowsOf(t) == Rejected(old(RowsOf(FindTable(tables, name))), p) && pool.disk.pages == pool.View())
      ensures CatalogOnDisk() == old(CatalogOnDisk()) && (old(Saved()) ==> Saved())
    {
      hide PoolSpec.Coherent, PoolSpec.View, StateOk, CatalogFits, CatalogPage, SchemaOk, Rows, TableHeap.Room, TableOk, Progress,
           OwnedPages, Rejected, Picked, OthersSame;
      ghost var view := pool.View();
      var t := FindTable(tables, name);
      UnchangedTables(view, tables, t);
      if t == |tables| {
        return Err(Unavailable);
      }
      StateFacts(view, tables, shapes, t);
      PageZeroShown(pool);
      ghost var left;
      r, left := DeleteRows(pool, tables[t], p, shapes[t]);
      PageZeroShown(pool);
      CatalogUntouched(view, pool.View(), tables[t], shapes[t], OwnedPages(tables[t].pageIds, left));
      TableStep(view, pool.View(), tables, shapes, t, tables[t], left);
      assert tables[t := tables[t]] == tables;
      shapes := shapes[t := left];
    }

    // Page 0 is never in the pool, so the pool shows it as it is on disk.
    static lemma PageZeroShown(pool: BufferPool.BufferPool)
      requires Ready(pool)
      ensures |pool.disk.pages| > 0 ==> pool.View()[0] == pool.disk.pages[0]
    {
      hide PoolSpec.Coherent;
    }

    static lemma CatalogUntouched(v: seq<Page>, w: seq<Page>, table: StoredTable, shapes: Shapes, after: set<nat>)
      requires TableOk(v, table, shapes) && Progress(v, w, OwnedPages(table.pageIds, shapes), after) && 0 < |v|
      ensures |w| > 0 && w[0] == v[0]
    {
      hide TableOk, OwnedPages;
      OwnedBound(v, table, shapes);
      assert 0 !in Owned(table, shapes);
    }

    // Every matching row gets the value once, or nothing happens, or the update stops at the first row that is refused.
    method UpdateWhere(name: Name, u: Change)
      returns (r: Result<nat, StorageError>, ghost reached: seq<PoolSpec.PageId>, ghost done: nat, ghost tail: Log)
      requires Valid()
      requires var t := FindTable(tables, name); t < |tables| ==>
        && u.col < |tables[t].schema.columns| && ColumnFault(tables[t].schema.columns[u.col], u.v).None?
        && |pool.View()| + Picked(RowsOf(t), u.p) * (1 + |tables[t].indexes| * BUDGET) <= MAX_PAGES
      modifies this, pool, pool.disk
      ensures Ready(pool) && |tables| == |old(tables)| && databaseName == old(databaseName)
      ensures var t := FindTable(old(tables), name);
        && OthersSame(old(pool.View()), old(tables), pool.View(), tables, t)
        && (t == |tables| ==> r == Err(Unavailable) && Valid() && tables == old(tables))
        && (t < |tables| ==>
          var log, table := Rows(old(pool.View()), old(tables)[t].pageIds), old(tables)[t];
          && PartDone(old(pool.View()), table.pageIds, pool.View(), reached, log, done, u, tail)
          && StateOk(pool.View(), tables[t := tables[t].(pageIds := reached)], shapes)
          && (if Accepted(table.schema, table.indexes, log, u) then
                var added := Pack(Moving(log, u), TableHeap.Room(old(pool.View()), table.pageIds)).added;
                && r == (if CatalogFits(WithPages(old(Catalog()), t, added)) then Ok(Picked(log, u.p)) else Err(CatalogFailure))
                && Valid() && done == |log| && tables[t].pageIds == reached
                && multiset(RowsIn(RowsOf(t))) == multiset(Updated(log, u))
              else if RefusedAtOnce(table.schema, log, u) then
                r == Err(DuplicateValue) && Valid() && tables == old(tables) && pool.View() == old(pool.View())
              else
                r.Err? && Stopped(old(pool.View()), old(tables), t, pool.View(), tables, shapes, reached, done, u, tail))
          && (!Accepted(table.schema, table.indexes, log, u) && old(Saved()) ==> (Saved() <==> tables == old(tables))))
      ensures r.Ok? ==> Valid() && Saved()
      ensures Valid() ==> forall s, c :: 0 <= s < |tables| && 0 <= c < |tables[s].schema.columns| ==>
        tables[s].schema.columns[c].primaryKey || tables[s].schema.columns[c].unique ==> UniqueOn(RowMap(RowsOf(s)), c)
      ensures r.Err? ==> CatalogOnDisk() == old(CatalogOnDisk())
    {
      hide PoolSpec.Coherent, PoolSpec.View, StateOk, CatalogFits, CatalogPage, SchemaOk, SameHeap, Rows, TableHeap.Room, TableOk, Ready, Progress,
           OwnedPages, OthersSame, Accepted, RefusedAtOnce, FirstRefused, PartDone, Staying, Moving, Updated, RowsIn, Picked, ColumnFault,
           SameIndexes, Pack, Stopped, WithPages, SameOutline, RowMap, UniqueOn;
      ghost var view := pool.View();
      reached, done, tail := [], 0, [];
      var t := FindTable(tables, name);
      UnchangedTables(view, tables, t);
      if t == |tables| {
        r := Err(Unavailable);
        KeysAreUnique(view, tables, shapes);
        return;
      }
      StateFacts(view, tables, shapes, t);
      PageZeroShown(pool);
      ghost var before, trees, log := tables, shapes, Rows(view, tables[t].pageIds);
      var now;
      ghost var moved;
      r, now, moved, reached, done, tail := UpdateRows(pool, tables[t], u, shapes[t]);
      ghost var mid, whole := pool.View(), now.(pageIds := reached);
      PageZeroShown(pool);
      CatalogUntouched(view, mid, tables[t], shapes[t], OwnedPages(reached, moved));
      TableStep(view, mid, tables, shapes, t, whole, moved);
      tables, shapes := tables[t := now], shapes[t := moved];
      assert tables[t := whole] == before[t := whole];
      if r.Err? {
        PageListKept(view, before, mid, t, whole, now);
        assert now.(pageIds := reached) == whole;
        assert RefusedAtOnce(before[t].schema, log, u) ==> now == before[t] && reached == before[t].pageIds && tables == before;
        StoppedTable(view, before, t, mid, tables, shapes, reached, log, done, u, tail);
        KeysIfValid();
        SavedTells(databaseName, view, before, trees, mid, tables, t, reached, shapes);
        return;
      }
      AllMoved(view, before[t], mid, now, log, done, u, tail);
      AnyPages(StoredCatalog(databaseName, before), t, Pack(Moving(log, u), TableHeap.Room(view, before[t].pageIds)).added, now);
      var failed := StoreTables();
      StoredAfter(view, before, mid, pool.View(), tables, t);
      StateFacts(pool.View(), tables, shapes, t);
      PartStored(view, before[t].pageIds, mid, pool.View(), tables[t], shapes[t], log, done, u, tail);
      KeysIfValid();
      assert tables[t := tables[t].(pageIds := reached)] == tables;
      if failed.Some? {
        r := Err(failed.value);
      }
    }

    // What is left by an update that stopped at its first refused row. The rows before it keep their new version. Only
    // the old list of pages is kept, and so the rows are lost that have moved to new pages, for which the last page had
    // no room. The database is sound exactly when no index mentions a lost row; what opening it from the disk gives, with
    // the catalog from before, is sound exactly when besides no index has got a new root.
    static ghost predicate Stopped(view: seq<Page>, before: seq<StoredTable>, t: nat, w: seq<Page>, after: seq<StoredTable>, shapes: seq<Shapes>,
                                   reached: seq<PoolSpec.PageId>, done: nat, u: Change, tail: Log)
      requires t < |before| == |after| && u.col < |before[t].schema.columns|
    {
      var log, table := Rows(view, before[t].pageIds), before[t];
      && FirstRefused(table.schema, table.indexes, log, done, u)
      && after[t] == table.(indexes := after[t].indexes) && SameIndexes(table.indexes, after[t].indexes)
      && |tail| == |Moving(log[..done], u)|
      && Rows(w, table.pageIds) == Staying(log[..done], u) + log[done..] + tail[..StillStored(view, table.pageIds, log, done, u)]
      && (Rows(w, table.pageIds) == Rows(w, reached) <==> Space(Moving(log[..done], u)) <= TableHeap.Room(view, table.pageIds))
      && (StateOk(w, after, shapes) <==> NoneIndexed(table, Lost(view, table, log, done, u)))
      && (StateOk(w, before, shapes) <==> after == before && NoneIndexed(table, Lost(view, table, log, done, u)))
    }

    // The rows that a stopped update has moved to new pages.
    static ghost function Lost(view: seq<Page>, table: StoredTable, log: Log, done: nat, u: Change): seq<Row>
      requires done <= |log|
    {
      Moving(log[..done], u)[StillStored(view, table.pageIds, log, done, u)..]
    }

    static ghost predicate NoneIndexed(table: StoredTable, rows: seq<Row>) {
      forall i :: 0 <= i < |rows| ==> Unindexed(table.schema, table.indexes, rows[i])
    }

    static lemma StoppedTable(view: seq<Page>, before: seq<StoredTable>, t: nat, w: seq<Page>, after: seq<StoredTable>, shapes: seq<Shapes>,
                              reached: seq<PoolSpec.PageId>, log: Log, done: nat, u: Change, tail: Log)
      requires t < |before| == |after| && u.col < |before[t].schema.columns| && after == before[t := after[t]]
      requires after[t] == before[t].(indexes := after[t].indexes) && SameIndexes(before[t].indexes, after[t].indexes)
      requires PartDone(view, before[t].pageIds, w, reached, log, done, u, tail)
      requires StateOk(w, before[t := after[t].(pageIds := reached)], shapes)
      ensures FirstRefused(before[t].schema, before[t].indexes, log, done, u) ==> Stopped(view, before, t, w, after, shapes, reached, done, u, tail)
      ensures before[t].pageIds <= reached
    {
      hide StateOk, TableOk, SchemaOk, Rows, TableHeap.Room, Spread, Staying, Moving, RowsIn, HeapOk, Pack, Space, StillStored, SameIndexes, Unindexed,
           OwnedPages, FirstRefused;
      var now := after[t].(pageIds := reached);
      var kept, a := StillStored(view, before[t].pageIds, log, done, u), Staying(log[..done], u) + log[done..];
      StoppedHeap(view, before[t].pageIds, w, reached, log, done, u, tail);
      PagesLonger(view, before[t].pageIds, w, reached, tail);
      Apart(a, tail, kept);
      ShortState(w, before, t, now, shapes, a + tail[..kept], tail[kept..]);
      LostAre(tail, Moving(log[..done], u), kept);
      if StateOk(w, before, shapes) {
        SameRoots(w, before, t, now, shapes);
        assert after == before;
      }
    }

    // The page of a catalog tells which catalog it is.
    static lemma SavedTells(name: Name, v: seq<Page>, before: seq<StoredTable>, trees: seq<Shapes>, w: seq<Page>, after: seq<StoredTable>, t: nat,
                            reached: seq<PoolSpec.PageId>, shapes: seq<Shapes>)
      requires StateOk(v, before, trees) && t < |after| && after[t].pageIds <= reached
      requires StateOk(w, after[t := after[t].(pageIds := reached)], shapes)
      ensures var a, b := StoredCatalog(name, before), StoredCatalog(name, after);
        CatalogFits(a) && CatalogFits(b) && CatalogPage(a) == CatalogPage(b) ==> a == b
    {
      hide StateOk, CatalogFits, CatalogPage, DecodePage;
      var all := after[t := after[t].(pageIds := reached)];
      StateSensible(v, name, before, trees);
      StateSensible(w, name, all, shapes);
      ShortSensible(name, after, t, reached);
      if CatalogFits(StoredCatalog(name, before)) && CatalogFits(StoredCatalog(name, after)) {
        PageBack(StoredCatalog(name, before));
        PageBack(StoredCatalog(name, after));
      }
    }

    static lemma ShortSensible(name: Name, after: seq<StoredTable>, t: nat, reached: seq<PoolSpec.PageId>)
      requires t < |after| && after[t].pageIds <= reached
      requires CatalogSensible(StoredCatalog(name, after[t := after[t].(pageIds := reached)]))
      ensures CatalogSensible(StoredCatalog(name, after))
    {
      var all := after[t := after[t].(pageIds := reached)];
      forall i | 0 <= i < |after|
        ensures TableSensible(after[i])
      {
        assert TableSensible(all[i]);
        assert i == t ==> forall k :: 0 <= k < |after[t].pageIds| ==> after[t].pageIds[k] == reached[k];
      }
    }

    static lemma PagesLonger(view: seq<Page>, pages: seq<PoolSpec.PageId>, w: seq<Page>, reached: seq<PoolSpec.PageId>, tail: Log)
      requires Spread(view, pages, w, reached, tail)
      ensures pages <= reached && |reached| == |pages| + Pack(RowsIn(tail), TableHeap.Room(view, pages)).added
    {}

    static lemma Apart(a: Log, tail: Log, kept: nat)
      requires kept <= |tail|
      ensures a + tail == a + tail[..kept] + tail[kept..]
    {}

    static lemma LostAre(tail: Log, rows: seq<Row>, kept: nat)
      requires RowsIn(tail) == rows && kept <= |rows|
      ensures |tail| == |rows| && forall i :: 0 <= i < |tail[kept..]| ==> tail[kept..][i].row == rows[kept..][i]
    {
      assert |tail| == |RowsIn(tail)|;
    }

    static lemma UnindexedSame(schema: TableSchema, a: seq<StoredIndex>, b: seq<StoredIndex>)
      requires SameIndexes(a, b)
      ensures forall row :: Unindexed(schema, a, row) <==> Unindexed(schema, b, row)
    {
      hide Cell, ColumnOf, Indexed, KeysIndexed;
      SameColumns(schema, a, b);
    }

    static lemma AllMoved(view: seq<Page>, table: StoredTable, w: seq<Page>, now: StoredTable, log: Log, done: nat, u: Change, tail: Log)
      requires PartDone(view, table.pageIds, w, now.pageIds, log, done, u, tail) && done == |log|
      requires now.schema == table.schema && SameIndexes(table.indexes, now.indexes)
      ensures var added := Pack(Moving(log, u), TableHeap.Room(view, table.pageIds)).added;
        SameOutline(table.(pageIds := Lengthened(table.pageIds, added)), now)
      ensures multiset(RowsIn(Rows(w, now.pageIds))) == multiset(Updated(log, u))
    {
      hide Updated, Spread, Rows, HeapOk, Pack, Moving, RowsIn, TableHeap.Room, Staying;
      WholeLog(log);
      AllUpdated(Rows(w, now.pageIds), log, done, u, tail);
      PagesLonger(view, table.pageIds, w, now.pageIds, tail);
    }

    // Storing the catalog leaves the heap as the update left it.
    static lemma PartStored(view: seq<Page>, pages: seq<PoolSpec.PageId>, v: seq<Page>, w: seq<Page>, table: StoredTable, shapes: Shapes,
                            log: Log, done: nat, u: Change, tail: Log)
      requires PartDone(view, pages, v, table.pageIds, log, done, u, tail) && |w| == |v|
      requires SameHeap(v, w, table.pageIds) && TableOk(w, table, shapes)
      ensures PartDone(view, pages, w, table.pageIds, log, done, u, tail)
    {
      hide Rows, TableHeap.Room, TableOk, HeapOk, Pack, Moving, RowsIn, Staying, Given;
      TableFacts(w, table, shapes);
    }

    static lemma PageListKept(v: seq<Page>, before: seq<StoredTable>, w: seq<Page>, t: nat, whole: StoredTable, now: StoredTable)
      requires t < |before| && OthersSame(v, before, w, before[t := whole], t)
      ensures OthersSame(v, before, w, before[t := now], t)
    {
      hide Rows, TableHeap.Room;
    }

    // An index can be made exactly when its name is new and its column exists, holds integers, and repeats none.
    method CreateIndex(indexName: Name, tableName: Name, column: Name) returns (error: Option<StorageError>)
      requires Valid()
      requires var t := FindTable(tables, tableName); t < |tables| ==> |pool.View()| + |RowsOf(t)| * BUDGET <= MAX_PAGES
      modifies this, pool, pool.disk
      ensures Valid() && |tables| == |old(tables)| && databaseName == old(databaseName)
      ensures error == Some(AlreadyExists) <==>
        exists s, i :: 0 <= s < |old(tables)| && 0 <= i < |old(tables)[s].indexes|
          && Normalize(old(tables)[s].indexes[i].name) == Normalize(indexName)
      ensures var t := FindTable(old(tables), tableName);
        && OthersSame(old(pool.View()), old(tables), pool.View(), tables, t)
        && (IndexNamed(old(tables), indexName) ==> error == Some(AlreadyExists))
        && (!IndexNamed(old(tables), indexName) && t == |tables| ==> error == Some(Unavailable))
        && (!IndexNamed(old(tables), indexName) && t < |tables| ==>
          var columns, c := old(tables)[t].schema.columns, FindColumn(old(tables)[t].schema.columns, column);
          && error == (if c == |columns| then Some(NoSuchColumn)
                       else if columns[c].dataType.kind != IntegerKind then Some(NotInteger)
                       else if !UniqueOn(RowMap(Rows(old(pool.View()), old(tables)[t].pageIds)), c) then Some(TreeFailure(BPlusTree.DuplicateKey))
                       else if !CatalogFits(WithIndex(old(Catalog()), t, StoredIndex(indexName, columns[c].name, None))) then Some(CatalogFailure)
                       else None)
          && RowsOf(t) == Rows(old(pool.View()), old(tables)[t].pageIds)
          && (error.None? ==>
            && |tables[t].indexes| == |old(tables)[t].indexes| + 1
            && var index := tables[t].indexes[|old(tables)[t].indexes|];
            && tables[t] == old(tables)[t].(indexes := old(tables)[t].indexes + [index])
            && index.name == indexName && ColumnOf(tables[t].schema, index) == c))
      ensures error.Some? ==> tables == old(tables) && CatalogOnDisk() == old(CatalogOnDisk())
      ensures error.None? ==> Saved()
      ensures old(Saved()) ==> Saved()
    {
      hide PoolSpec.Coherent, PoolSpec.View, StateOk, CatalogFits, CatalogPage, SchemaOk, SameHeap, Rows, TableHeap.Room, RowMap, TableOk, Ready, Progress, OwnedPages, Given, OthersSame, UniqueOn,
           FindTable, FindColumn, IndexNamed, WithIndex, Normalize;
      ghost var view := pool.View();
      var t := FindTable(tables, tableName);
      UnchangedTables(view, tables, t);
      IndexNamedIs(tables, indexName);
      if IndexNamed(tables, indexName) {
        return Some(AlreadyExists);
      }
      if t == |tables| {
        return Some(Unavailable);
      }
      StateFacts(view, tables, shapes, t);
      ghost var before := tables;
      var now;
      ghost var more;
      PageZeroShown(pool);
      error, now, more := BuildIndex(pool, tables[t], indexName, column, shapes[t]);
      ghost var mid := pool.View();
      PageZeroShown(pool);
      CatalogUntouched(view, mid, tables[t], shapes[t], OwnedPages(now.pageIds, more));
      TableStep(view, mid, tables, shapes, t, now, more);
      tables, shapes := tables[t := now], shapes[t := more];
      if error.Some? {
        assert tables == before;
        return;
      }
      AnyRoot(StoredCatalog(databaseName, before), t, now);
      error := StoreTables();
      StoredAfter(view, before, mid, pool.View(), tables, t);
      if error.Some? {
        PageListKept(view, before, pool.View(), t, now, before[t]);
        assert before[t := before[t]] == before;
        ForgetIndex(t, before, old(shapes), view);
      }
    }

    // The catalog once one of its tables has an index more.
    static ghost function WithIndex(c: StoredCatalog, t: nat, index: StoredIndex): StoredCatalog
      requires t < |c.tables|
    {
      StoredCatalog(c.databaseName, c.tables[t := c.tables[t].(indexes := c.tables[t].indexes + [index])])
    }

    static lemma AnyRoot(c: StoredCatalog, t: nat, now: StoredTable)
      requires t < |c.tables| && |now.indexes| == |c.tables[t].indexes| + 1
      requires now == c.tables[t].(indexes := c.tables[t].indexes + [now.indexes[|now.indexes| - 1]])
      ensures CatalogFits(WithIndex(c, t, now.indexes[|now.indexes| - 1].(root := None))) <==>
        CatalogFits(StoredCatalog(c.databaseName, c.tables[t := now]))
    {
      hide CatalogFits;
      var index := now.indexes[|now.indexes| - 1];
      CatalogSize(c.databaseName, c.tables, t, c.tables[t].(indexes := c.tables[t].indexes + [index.(root := None)]), now);
    }

    // Takes the index added last off a table again.
    method ForgetIndex(t: nat, ghost before: seq<StoredTable>, ghost trees: seq<Shapes>, ghost view: seq<Page>)
      requires Ready(pool) && StateOk(view, before, trees) && StateOk(pool.View(), tables, shapes)
      requires t < |before| == |tables| && |tables[t].indexes| > 0 && |shapes[t]| > 0
      requires tables == before[t := tables[t]] && shapes == trees[t := shapes[t]]
      requires tables[t] == before[t].(indexes := tables[t].indexes) && trees[t] == shapes[t][..|shapes[t]| - 1]
      requires before[t].indexes == tables[t].indexes[..|tables[t].indexes| - 1]
      modifies this`tables, this`shapes
      ensures Valid() && tables == before && shapes == trees
    {
      hide PoolSpec.Coherent, PoolSpec.View, StateOk, SchemaOk, Rows, TableHeap.Room, RowMap, PagesOk, Ready, RowsOk, KeysIndexed,
           KeysUnique, IndexHolds;
      StateFacts(view, before, trees, t);
      StateFacts(pool.View(), tables, shapes, t);
      var kept := tables[t].indexes;
      ghost var last := kept[|kept| - 1];
      ghost var tree := shapes[t][|shapes[t]| - 1];
      assert kept == before[t].indexes + [last] && shapes[t] == trees[t] + [tree];
      LastIndexDropped(pool.View(), before[t], trees[t], last, tree);
      StateShrinks(pool.View(), tables, shapes, t, before[t], trees[t]);
      tables := tables[t := tables[t].(indexes := kept[..|kept| - 1])];
      shapes := shapes[t := trees[t]];
      assert tables == before && shapes == trees;
    }
  }

  // A new database: nothing but a catalog without tables.
  method CreateDatabase(disk: BufferPool.DiskManager, name: Name) returns (r: Result<DiskStorage, CatalogError>)
    modifies disk
    ensures r.Ok? <==> old(disk.pages) == [] && CatalogFits(StoredCatalog(name, []))
    ensures r.Err? ==> disk.pages == old(disk.pages)
    ensures r.Ok? ==>
      && fresh(r.value) && fresh(r.value.pool) && r.value.pool.disk == disk
      && r.value.Valid() && r.value.Saved() && r.value.tables == [] && r.value.databaseName == name
  {
    hide PoolSpec.Coherent, PoolSpec.View, CatalogFits, CatalogPage;
    var catalog := StoredCatalog(name, []);
    var failed := CatalogStorage.InitializeCatalog(disk, catalog);
    if failed.Some? {
      return Err(failed.value);
    }
    var pool := new BufferPool.BufferPool(disk, POOL_CAPACITY);
    var storage := new DiskStorage(pool, catalog, []);
    return Ok(storage);
  }

  // Opens the database on a disk: its catalog is read from page 0, and the pool starts empty.
  method OpenDatabase(disk: BufferPool.DiskManager, ghost shapes: seq<Shapes>) returns (r: Result<DiskStorage, CatalogError>)
    ensures r.Err? ==> if |disk.pages| == 0 then r.error == CatalogError.DiskFailure else DecodePage(disk.pages[CATALOG_PAGE]) == Err(r.error)
    ensures r.Ok? <==> |disk.pages| > 0 && DecodePage(disk.pages[CATALOG_PAGE]).Ok?
    ensures r.Ok? ==>
      && fresh(r.value) && fresh(r.value.pool) && r.value.pool.disk == disk && r.value.pool.View() == disk.pages
      && r.value.Catalog() == DecodePage(disk.pages[CATALOG_PAGE]).value
      && r.value.shapes == shapes && Ready(r.value.pool) && (r.value.Valid() <==> StateOk(disk.pages, r.value.tables, shapes))
  {
    hide PoolSpec.Coherent, PoolSpec.View, StateOk, DecodePage;
    var loaded := CatalogStorage.LoadCatalog(disk);
    match loaded {
      case Err(error) => return Err(error);
      case Ok(_) =>
    }
    var pool := new BufferPool.BufferPool(disk, POOL_CAPACITY);
    var storage := new DiskStorage(pool, loaded.value, shapes);
    return Ok(storage);
  }

  // Closing a database and opening it again gives the catalog that was stored last, over the pages as they are now.
  method ReopenAs(storage: DiskStorage, ghost saved: StoredCatalog) returns (r: Result<DiskStorage, CatalogError>)
    requires Ready(storage.pool) && storage.SavedAs(saved) && CatalogSensible(saved)
    modifies storage.pool, storage.pool.disk
    ensures r.Ok? && fresh(r.value) && r.value.Catalog() == saved && r.value.SavedAs(saved)
    ensures r.value.pool.View() == old(storage.pool.View())
    ensures forall t :: 0 <= t < |saved.tables| ==> r.value.RowsOf(t) == Rows(old(storage.pool.View()), saved.tables[t].pageIds)
    ensures r.value.shapes == storage.shapes && (r.value.Valid() <==> StateOk(old(storage.pool.View()), saved.tables, storage.shapes))
  {
    hide PoolSpec.Coherent, PoolSpec.View, PoolSpec.FlushAll, StateOk, CatalogPage, DecodePage, CatalogFits, Rows, TableHeap.Room;
    DiskStorage.PageZeroShown(storage.pool);
    CatalogStorage.FitsAPage(saved);
    PageBack(saved);
    // The pool is flushed when it is destroyed.
    var flushed := storage.pool.FlushAll();
    r := OpenDatabase(storage.pool.disk, storage.shapes);
  }

  // When the catalog is up to date this changes nothing: the same tables, the same pages, hence the same answers to
  // every scan and every index lookup.
  method Reopen(storage: DiskStorage) returns (r: Result<DiskStorage, CatalogError>)
    requires storage.Valid() && storage.Saved()
    modifies storage.pool, storage.pool.disk
    ensures r.Ok? && fresh(r.value) && r.value.Valid() && r.value.Saved()
    ensures r.value.Catalog() == storage.Catalog() && r.value.shapes == storage.shapes
    ensures r.value.pool.View() == old(storage.pool.View())
    ensures forall t :: 0 <= t < |storage.tables| ==> r.value.RowsOf(t) == old(storage.RowsOf(t))
  {
    hide PoolSpec.Coherent, PoolSpec.View, StateOk, CatalogPage, CatalogFits, Rows, TableHeap.Room;
    StateSensible(storage.pool.View(), storage.databaseName, storage.tables, storage.shapes);
    r := ReopenAs(storage, storage.Catalog());
  }
}
