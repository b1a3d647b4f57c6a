// All the tables of a database in one set of pages.
module DatabaseState {
  import opened Bytes
  import opened Results
  import opened Values
  import opened Views
  import opened TreeSpec
  import opened TreePages
  import opened TreeLaws
  import opened TreeStore
  import opened TableLog
  import opened Agreement
  import opened Schema
  import opened TableState
  import opened Updates
  import CatalogFormat
  import PoolSpec
  import TableWork

  type Shapes = seq<Option<Tree>>

  // What the catalog of schemas and the parser see to before a table is created.
  ghost predicate SchemaOk(schema: TableSchema) {
    && ColumnsDistinct(schema.columns)
    && forall c :: 0 <= c < |schema.columns| ==> CatalogFormat.ColumnSensible(schema.columns[c])
  }

  ghost function Owned(table: StoredTable, shapes: Shapes): set<nat> {
    OwnedPages(table.pageIds, shapes)
  }

  // Every table is sound, and no page has two owners.
  ghost predicate StateOk(view: seq<Page>, tables: seq<StoredTable>, shapes: seq<Shapes>) {
    && 0 < |view| <= MAX_PAGES && |shapes| == |tables|
    && (forall t :: 0 <= t < |tables| ==> SchemaOk(tables[t].schema) && TableOk(view, tables[t], shapes[t]))
    && (forall s, t :: 0 <= s < t < |tables| ==> Owned(tables[s], shapes[s]) !! Owned(tables[t], shapes[t]))
  }

  lemma OwnedBound(view: seq<Page>, table: StoredTable, shapes: Shapes)
    requires TableOk(view, table, shapes)
    ensures forall id :: id in Owned(table, shapes) ==> 0 < id < |view|
  {
    hide HeapOk, Stored, Sound, Regions;
    forall id | id in Owned(table, shapes)
      ensures 0 < id < |view|
    {
      UnionHolds(Regions(table.pageIds, shapes), id);
    }
  }

  lemma OtherTable(v: seq<Page>, w: seq<Page>, table: StoredTable, shapes: Shapes, changed: set<nat>)
    requires TableOk(v, table, shapes) && |v| <= |w| <= MAX_PAGES
    requires Untouched(v, w, changed) && Owned(table, shapes) !! changed
    ensures TableOk(w, table, shapes) && SameHeap(v, w, table.pageIds)
  {
    hide HeapOk, Stored, Sound, Regions, Rows, TableHeap.Room, Given, PagesOk, Union;
    TableFrame(v, w, table.pageIds, table.indexes, shapes, changed);
  }

  // Work on one table leaves the others alone.
  lemma StateStep(v: seq<Page>, w: seq<Page>, tables: seq<StoredTable>, shapes: seq<Shapes>, t: nat, table: StoredTable, now: Shapes)
    requires StateOk(v, tables, shapes) && t < |tables| && |v| <= |w| <= MAX_PAGES
    requires TableOk(w, table, now) && SchemaOk(table.schema)
    requires Progress(v, w, Owned(tables[t], shapes[t]), Owned(table, now))
    ensures StateOk(w, tables[t := table], shapes[t := now])
    ensures forall s :: 0 <= s < |tables| && s != t ==> SameHeap(v, w, tables[s].pageIds)
  {
    hide TableOk, SchemaOk, Owned, SameHeap, Untouched;
    forall s | 0 <= s < |tables| && s != t
      ensures TableOk(w, tables[s], shapes[s]) && SameHeap(v, w, tables[s].pageIds)
      ensures Owned(tables[s], shapes[s]) !! Owned(table, now)
    {
      assert if s < t then Owned(tables[s], shapes[s]) !! Owned(tables[t], shapes[t])
             else Owned(tables[t], shapes[t]) !! Owned(tables[s], shapes[s]);
      OtherTable(v, w, tables[s], shapes[s], Owned(tables[t], shapes[t]));
      OwnedBound(v, tables[s], shapes[s]);
    }
  }

  // Writing page 0 touches no table.
  lemma StateStored(v: seq<Page>, tables: seq<StoredTable>, shapes: seq<Shapes>, page: Page)
    requires StateOk(v, tables, shapes)
    ensures StateOk(v[0 := page], tables, shapes)
    ensures forall t :: 0 <= t < |tables| ==> SameHeap(v, v[0 := page], tables[t].pageIds)
  {
    hide TableOk, SchemaOk, Owned, SameHeap;
    forall t | 0 <= t < |tables|
      ensures TableOk(v[0 := page], tables[t], shapes[t]) && SameHeap(v, v[0 := page], tables[t].pageIds)
    {
      OwnedBound(v, tables[t], shapes[t]);
      OtherTable(v, v[0 := page], tables[t], shapes[t], {0});
    }
  }

  // Tables other than the one being worked on keep their definitions and their rows.
  ghost predicate OthersSame(v: seq<Page>, before: seq<StoredTable>, w: seq<Page>, after: seq<StoredTable>, worked: nat) {
    && |before| <= |after|
    && forall t :: 0 <= t < |before| && t != worked ==>
      after[t] == before[t] && Rows(w, after[t].pageIds) == Rows(v, before[t].pageIds)
  }

  // ---------- A new table ----------

  predicate KeyedInteger(column: ColumnSchema) {
    (column.primaryKey || column.unique) && column.dataType.kind == IntegerKind
  }

  // "__curiodb_" and "_key"
  const INDEX_PREFIX: Name := [95, 95, 99, 117, 114, 105, 111, 100, 98, 95]
  const INDEX_SUFFIX: Name := [95, 107, 101, 121]

  function AutoIndex(schema: TableSchema, column: ColumnSchema): StoredIndex {
    StoredIndex(INDEX_PREFIX + schema.name + [95] + column.name + INDEX_SUFFIX, column.name, None)
  }

  // The indexes the key columns of integers among the first n columns get.
  ghost function AutoIndexes(schema: TableSchema, n: nat): seq<StoredIndex>
    requires n <= |schema.columns|
  {
    if n == 0 then []
    else AutoIndexes(schema, n - 1) + if KeyedInteger(schema.columns[n - 1]) then [AutoIndex(schema, schema.columns[n - 1])] else []
  }

  ghost function NewTable(schema: TableSchema): StoredTable {
    StoredTable(schema, [], AutoIndexes(schema, |schema.columns|))
  }

  ghost predicate AutoIndexed(schema: TableSchema, index: StoredIndex) {
    exists c :: 0 <= c < |schema.columns| && KeyedInteger(schema.columns[c]) && schema.columns[c].name == index.columnName
  }

  lemma {:induction false} AutoIndexesHold(schema: TableSchema, n: nat)
    requires n <= |schema.columns|
    ensures forall i :: 0 <= i < |AutoIndexes(schema, n)| ==>
      AutoIndexes(schema, n)[i].root.None? && AutoIndexed(schema, AutoIndexes(schema, n)[i])
  {
    hide AutoIndexed, KeyedInteger;
    if n > 0 {
      AutoIndexesHold(schema, n - 1);
      if KeyedInteger(schema.columns[n - 1]) {
        AutoIndexIs(schema, n - 1);
      }
    }
  }

  lemma AutoIndexIs(schema: TableSchema, c: nat)
    requires c < |schema.columns| && KeyedInteger(schema.columns[c])
    ensures AutoIndexed(schema, AutoIndex(schema, schema.columns[c]))
  {}

  lemma {:induction false} AutoIndexesCover(schema: TableSchema, n: nat, c: nat) returns (i: nat)
    requires c < n <= |schema.columns| && KeyedInteger(schema.columns[c])
    ensures i < |AutoIndexes(schema, n)| && AutoIndexes(schema, n)[i].columnName == schema.columns[c].name
  {
    hide KeyedInteger;
    if c == n - 1 {
      i := |AutoIndexes(schema, n - 1)|;
    } else {
      i := AutoIndexesCover(schema, n - 1, c);
    }
  }

  lemma {:induction false} AutoIndexFor(schema: TableSchema, n: nat, i: nat) returns (c: nat)
    requires n <= |schema.columns| && i < |AutoIndexes(schema, n)|
    ensures c < n && KeyedInteger(schema.columns[c]) && AutoIndexes(schema, n)[i] == AutoIndex(schema, schema.columns[c])
  {
    hide KeyedInteger, AutoIndex;
    if i < |AutoIndexes(schema, n - 1)| {
      c := AutoIndexFor(schema, n - 1, i);
    } else {
      c := n - 1;
    }
  }

  lemma {:induction false} OneIndexEach(schema: TableSchema, n: nat)
    requires n <= |schema.columns| && ColumnsDistinct(schema.columns)
    ensures forall i, j :: 0 <= i < j < |AutoIndexes(schema, n)| ==>
      AutoIndexes(schema, n)[i].columnName != AutoIndexes(schema, n)[j].columnName
  {
    hide KeyedInteger, Normalize;
    if n > 0 {
      OneIndexEach(schema, n - 1);
      var before := AutoIndexes(schema, n - 1);
      forall i | 0 <= i < |before|
        ensures before[i].columnName != schema.columns[n - 1].name
      {
        var c := AutoIndexFor(schema, n - 1, i);
      }
    }
  }

  ghost function ColumnNames(columns: seq<ColumnSchema>): set<Name> {
    set c | 0 <= c < |columns| :: columns[c].name
  }

  // The indexes of a new table: one for every PRIMARY KEY or UNIQUE column of integers, with no root yet, under a name made
  // of the names of table and column, and no others.
  lemma NewTableIs(schema: TableSchema)
    requires ColumnsDistinct(schema.columns)
    ensures var table := NewTable(schema);
      && table.schema == schema && table.pageIds == []
      && (forall c :: 0 <= c < |schema.columns| ==>
        ((schema.columns[c].primaryKey || schema.columns[c].unique) && schema.columns[c].dataType.kind == IntegerKind <==>
          exists i :: 0 <= i < |table.indexes| && table.indexes[i].columnName == schema.columns[c].name))
      && (forall i, j :: 0 <= i < j < |table.indexes| ==> table.indexes[i].columnName != table.indexes[j].columnName)
      && (forall i :: 0 <= i < |table.indexes| ==> table.indexes[i].root.None?)
      && (forall i :: 0 <= i < |table.indexes| ==> table.indexes[i].columnName in ColumnNames(schema.columns))
      && (forall i :: 0 <= i < |table.indexes| ==>
        table.indexes[i].name ==
          [95, 95, 99, 117, 114, 105, 111, 100, 98, 95] + schema.name + [95] + table.indexes[i].columnName + [95, 107, 101, 121])
  {
    hide AutoIndexes, Normalize;
    var n, indexes := |schema.columns|, AutoIndexes(schema, |schema.columns|);
    OneIndexEach(schema, n);
    forall i | 0 <= i < |indexes|
      ensures indexes[i].root.None?
      ensures indexes[i].columnName in ColumnNames(schema.columns)
      ensures indexes[i].name ==
        [95, 95, 99, 117, 114, 105, 111, 100, 98, 95] + schema.name + [95] + indexes[i].columnName + [95, 107, 101, 121]
    {
      var c := AutoIndexFor(schema, n, i);
      assert indexes[i] == AutoIndex(schema, schema.columns[c]) && schema.columns[c].name == indexes[i].columnName;
    }
    forall c | 0 <= c < n
      ensures KeyedInteger(schema.columns[c]) <==> exists i :: 0 <= i < |indexes| && indexes[i].columnName == schema.columns[c].name
    {
      if KeyedInteger(schema.columns[c]) {
        var i := AutoIndexesCover(schema, n, c);
      }
      if i :| 0 <= i < |indexes| && indexes[i].columnName == schema.columns[c].name {
        var d := AutoIndexFor(schema, n, i);
        OneColumn(schema.columns, c, d);
      }
    }
  }

  lemma OneColumn(columns: seq<ColumnSchema>, c: nat, d: nat)
    requires ColumnsDistinct(columns) && c < |columns| && d < |columns| && columns[c].name == columns[d].name
    ensures c == d
  {
    hide Normalize;
    assert !(c < d) && !(d < c);
  }

  ghost function NoTrees(n: nat): (shapes: Shapes)
    ensures |shapes| == n && forall i :: 0 <= i < n ==> shapes[i] == None
  {
    seq(n, _ => None)
  }

  // A new table is sound and owns nothing.
  lemma NewTableOk(view: seq<Page>, schema: TableSchema)
    requires 0 < |view| <= MAX_PAGES && SchemaOk(schema)
    ensures TableOk(view, NewTable(schema), NoTrees(|NewTable(schema).indexes|))
    ensures Owned(NewTable(schema), NoTrees(|NewTable(schema).indexes|)) == {}
    ensures Rows(view, NewTable(schema).pageIds) == []
  {
    hide PagesOk, Sound, AutoIndexes, SchemaOk, OwnedPages, RowMap, AutoIndexed;
    var indexes := NewTable(schema).indexes;
    AutoIndexesHold(schema, |schema.columns|);
    EmptyPagesOk(view, indexes);
    EmptySound(schema, Maps(NoTrees(|indexes|)));
    NoRowsAtAll(view);
  }

  lemma NoRowsAtAll(view: seq<Page>)
    ensures Rows(view, []) == [] && RowMap([]) == map[]
  {}

  lemma EmptySound(schema: TableSchema, maps: seq<Index>)
    requires SchemaOk(schema) && |maps| == |NewTable(schema).indexes|
    requires forall i :: 0 <= i < |maps| ==> maps[i] == map[]
    ensures Sound(schema, NewTable(schema).indexes, maps, map[])
  {
    hide RowOk, FindColumn, SchemaOk, AutoIndexes, IndexHolds, Indexed, AutoIndexed;
    var indexes := NewTable(schema).indexes;
    AutoIndexesHold(schema, |schema.columns|);
    forall i | 0 <= i < |indexes|
      ensures IndexHolds(schema, indexes[i], maps[i], map[])
    {
      EmptyIndexHolds(schema, indexes[i]);
    }
    forall c | 0 <= c < |schema.columns| && Keyed(schema.columns[c]) && schema.columns[c].dataType.kind == IntegerKind
      ensures Indexed(schema, indexes, c)
    {
      KeyHasIndex(schema, c);
    }
  }

  lemma EmptyIndexHolds(schema: TableSchema, index: StoredIndex)
    requires SchemaOk(schema) && AutoIndexed(schema, index)
    ensures IndexHolds(schema, index, map[], map[])
  {
    hide CatalogFormat.ColumnSensible, FindColumn, Normalize;
    var c :| 0 <= c < |schema.columns| && KeyedInteger(schema.columns[c]) && schema.columns[c].name == index.columnName;
    FindsItself(schema.columns, c);
  }

  lemma KeyHasIndex(schema: TableSchema, c: nat)
    requires SchemaOk(schema) && c < |schema.columns| && KeyedInteger(schema.columns[c])
    ensures Indexed(schema, NewTable(schema).indexes, c)
  {
    hide CatalogFormat.ColumnSensible, FindColumn, Normalize, AutoIndexes, KeyedInteger;
    var i := AutoIndexesCover(schema, |schema.columns|, c);
    FindsItself(schema.columns, c);
    assert ColumnOf(schema, NewTable(schema).indexes[i]) == c;
  }

  lemma EmptyPagesOk(view: seq<Page>, indexes: seq<StoredIndex>)
    requires 0 < |view| <= MAX_PAGES && forall i :: 0 <= i < |indexes| ==> indexes[i].root.None?
    ensures PagesOk(view, [], indexes, NoTrees(|indexes|)) && OwnedPages([], NoTrees(|indexes|)) == {}
  {
    var regions := Regions([], NoTrees(|indexes|));
    assert forall i :: 0 <= i < |regions| ==> regions[i] == {};
    NoOwners(regions);
  }

  lemma {:induction false} NoOwners(regions: seq<set<nat>>)
    requires forall i :: 0 <= i < |regions| ==> regions[i] == {}
    ensures Union(regions) == {}
  {
    if regions != [] {
      NoOwners(regions[..|regions| - 1]);
    }
  }

  lemma StateExtended(view: seq<Page>, tables: seq<StoredTable>, shapes: seq<Shapes>, table: StoredTable, more: Shapes)
    requires StateOk(view, tables, shapes) && SchemaOk(table.schema) && TableOk(view, table, more) && Owned(table, more) == {}
    ensures StateOk(view, tables + [table], shapes + [more])
  {
    hide SchemaOk, TableOk, Owned;
  }

  // A table without its last index: still sound, and owning no more than before.
  lemma LastIndexDropped(view: seq<Page>, table: StoredTable, shapes: Shapes, index: StoredIndex, shape: Option<Tree>)
    requires TableOk(view, table.(indexes := table.indexes + [index]), shapes + [shape]) && |shapes| == |table.indexes|
    requires KeysIndexed(table.schema, table.indexes)
    ensures TableOk(view, table, shapes) && Owned(table, shapes) <= Owned(table, shapes + [shape])
  {
    hide PagesOk, RowsOk, KeysIndexed, KeysUnique, RowMap, Rows, TableHeap.Room, OwnedPages, Agrees;
    TableWork.IndexDropped(view, table.pageIds, table.indexes, shapes, index, shape);
    var maps, more, rows := Maps(shapes), Maps(shapes + [shape]), LiveRows(view, table);
    forall i | 0 <= i < |table.indexes|
      ensures IndexHolds(table.schema, table.indexes[i], maps[i], rows)
    {
      assert (table.indexes + [index])[i] == table.indexes[i] && (shapes + [shape])[i] == shapes[i];
      assert IndexHolds(table.schema, (table.indexes + [index])[i], more[i], rows);
    }
  }

  lemma StateShrinks(view: seq<Page>, tables: seq<StoredTable>, shapes: seq<Shapes>, t: nat, table: StoredTable, less: Shapes)
    requires StateOk(view, tables, shapes) && t < |tables| && TableOk(view, table, less) && SchemaOk(table.schema)
    requires Owned(table, less) <= Owned(tables[t], shapes[t])
    ensures StateOk(view, tables[t := table], shapes[t := less])
  {
    hide TableOk, SchemaOk, Owned;
  }

  // ---------- Looking rows up by key ----------

  // The rows of a scan whose column has the value.
  ghost function WithKey(log: Log, c: nat, key: I64): seq<Row> {
    if log == [] then []
    else
      var h := log[|log| - 1];
      WithKey(log[..|log| - 1], c, key) + if Cell(h.row, c) == Integer(key) then [h.row] else []
  }

  lemma {:induction false} NoneWithKey(log: Log, c: nat, key: I64)
    requires forall i :: 0 <= i < |log| ==> Cell(log[i].row, c) != Integer(key)
    ensures WithKey(log, c, key) == []
  {
    if log != [] {
      NoneWithKey(log[..|log| - 1], c, key);
    }
  }

  lemma {:induction false} OneWithKey(log: Log, c: nat, key: I64, k: nat)
    requires k < |log| && Cell(log[k].row, c) == Integer(key)
    requires forall i :: 0 <= i < |log| && i != k ==> Cell(log[i].row, c) != Integer(key)
    ensures WithKey(log, c, key) == [log[k].row]
  {
    var front := log[..|log| - 1];
    if k == |log| - 1 {
      NoneWithKey(front, c, key);
    } else {
      OneWithKey(front, c, key, k);
      assert [log[k].row] + [] == [log[k].row];
    }
  }

  // What the index finds is what a scan would find.
  lemma IndexIsScan(log: Log, c: nat, index: Index, key: I64)
    requires Unique(log) && Agrees(RowMap(log), c, index)
    ensures key in index ==> Lookup(log, index[key]).Some?
    ensures WithKey(log, c, key) == if key in index then [Lookup(log, index[key]).value] else []
  {
    hide RowMap, WithKey, Lookup;
    var rows := RowMap(log);
    if key in index {
      var k := RowMapFrom(log, index[key]);
      RowMapLookup(log, index[key]);
      forall i | 0 <= i < |log| && i != k
        ensures Cell(log[i].row, c) != Integer(key)
      {
        RowMapHolds(log, i);
        IndexFinds(rows, c, index, key, log[i].id);
        assert if i < k then log[i].id != log[k].id else log[k].id != log[i].id;
      }
      OneWithKey(log, c, key, k);
    } else {
      forall i | 0 <= i < |log|
        ensures Cell(log[i].row, c) != Integer(key)
      {
        RowMapHolds(log, i);
      }
      NoneWithKey(log, c, key);
    }
  }

  // ---------- A catalog that can be read back ----------

  lemma StateSensible(view: seq<Page>, name: Name, tables: seq<StoredTable>, shapes: seq<Shapes>)
    requires StateOk(view, tables, shapes)
    ensures CatalogFormat.CatalogSensible(StoredCatalog(name, tables))
  {
    hide TableOk, CatalogFormat.TableSensible;
    forall t | 0 <= t < |tables|
      ensures CatalogFormat.TableSensible(tables[t])
    {
      TableIsSensible(view, tables[t], shapes[t]);
    }
  }

  lemma TableIsSensible(view: seq<Page>, table: StoredTable, shapes: Shapes)
    requires TableOk(view, table, shapes) && SchemaOk(table.schema)
    ensures CatalogFormat.TableSensible(table)
  {
    hide HeapOk, Sound, CatalogFormat.ColumnSensible, CatalogFormat.IndexSensible, Stored, PageSet, PagesOf, Regions;
    forall i | 0 <= i < |table.pageIds|
      ensures table.pageIds[i] != 0
    {
      PageInSet(table.pageIds, i);
      TableWork.PagesHeap(view, table.pageIds, table.indexes, shapes);
    }
    forall i | 0 <= i < |table.indexes|
      ensures CatalogFormat.IndexSensible(table.indexes[i])
    {
      IndexPages(view, table, shapes, i);
      RootSensible(view, table.indexes[i], shapes[i]);
    }
  }

  lemma IndexPages(view: seq<Page>, table: StoredTable, shapes: Shapes, i: nat)
    requires PagesOk(view, table.pageIds, table.indexes, shapes) && i < |shapes|
    ensures forall id :: id in PagesOf(shapes[i]) ==> 0 < id < |view|
  {
    hide HeapOk, Stored, PageSet, PagesOf;
    assert Regions(table.pageIds, shapes)[i + 1] == PagesOf(shapes[i]);
  }

  lemma PageInSet(pages: seq<PoolSpec.PageId>, i: nat)
    requires i < |pages|
    ensures pages[i] in PageSet(pages)
  {}

  lemma RootSensible(view: seq<Page>, index: StoredIndex, shape: Option<Tree>)
    requires Stored(view, index.root, shape, MAX_KEYS)
    requires forall id :: id in PagesOf(shape) ==> 0 < id < |view|
    requires |view| <= MAX_PAGES
    ensures CatalogFormat.IndexSensible(index)
  {
    hide TreeAt, TreeOk, TreePages.Ids;
    if shape.Some? {
      RootIn(shape.value);
      assert shape.value.id in PagesOf(shape);
    }
  }

  lemma RootIn(t: Tree)
    ensures t.id in TreePages.Ids(t)
  {}
}
