// A table on which a refused UPDATE loses a row: a full page, two rows with NULL in an indexed column, and 5 for both.
module LostRowExample {
  import opened Bytes
  import opened Results
  import opened Values
  import opened Serialization
  import opened TreeSpec
  import opened TreeLaws
  import opened TreePages
  import opened TreeStore
  import opened TableLog
  import opened Agreement
  import opened Schema
  import opened TableState
  import opened IndexUpkeep
  import opened Updates
  import opened Packing
  import opened TableWork
  import opened LostRows
  import opened DatabaseState
  import opened CatalogFormat
  import DiskStorage
  import PoolSpec
  import BufferPool
  import SlottedPage
  import TableHeap

  const NUMBER: ColumnSchema := ColumnSchema([97], DataType(IntegerKind, None), false, false, false)
  const TEXT: ColumnSchema := ColumnSchema([98], DataType(VarcharKind, Some(PAGE_SIZE)), false, false, false)
  const SCHEMA: TableSchema := TableSchema([116], [NUMBER, TEXT])
  const INDEX: StoredIndex := StoredIndex([105], [97], None)
  const TABLE: StoredTable := StoredTable(SCHEMA, [1], [INDEX])
  const EMPTY_ROW: Row := [Null, Null]
  const FIVE_ROW: Row := [Integer(5), Null]
  const FILLER_SIZE: nat := 4046

  ghost function BigRow(filler: seq<Byte>): Row {
    [Null, Varchar(filler)]
  }

  // Two small rows and one that takes the rest of the page.
  ghost function FullPage(filler: seq<Byte>): Page
    requires |filler| == FILLER_SIZE
  {
    Sizes(filler);
    SlottedPage.BlankOk();
    var one := SlottedPage.Inserted(SlottedPage.Blank(), EncodeRow(EMPTY_ROW));
    SlottedPage.InsertKeeps(SlottedPage.Blank(), EncodeRow(EMPTY_ROW));
    SlottedPage.InsertKeeps(one, EncodeRow(EMPTY_ROW));
    SlottedPage.Inserted(SlottedPage.Inserted(one, EncodeRow(EMPTY_ROW)), EncodeRow(BigRow(filler)))
  }

  const CATALOG: StoredCatalog := StoredCatalog([100], [TABLE])

  lemma CatalogIsSmall()
    ensures CatalogFits(CATALOG) && CatalogSensible(CATALOG)
  {
    assert Concat(SCHEMA.columns, EncodeColumn) == EncodeColumn(NUMBER) + Concat([TEXT], EncodeColumn);
    assert Concat([TEXT], EncodeColumn) == EncodeColumn(TEXT) + Concat([], EncodeColumn);
    var none: seq<PoolSpec.PageId> := [];
    assert TABLE.pageIds == [1] + none;
    assert Concat(TABLE.pageIds, EncodePageId) == EncodePageId(1) + Concat(none, EncodePageId);
    assert Concat([INDEX], EncodeIndex) == EncodeIndex(INDEX) + Concat([], EncodeIndex);
    assert Concat([TABLE], EncodeTable) == EncodeTable(TABLE) + Concat([], EncodeTable);
    assert |EncodeTable(TABLE)| <= 100;
  }

  // A database file: the catalog in page 0 and the full page behind it.
  ghost function View(filler: seq<Byte>): seq<Page>
    requires |filler| == FILLER_SIZE
  {
    CatalogIsSmall();
    [CatalogPage(CATALOG), FullPage(filler)]
  }

  ghost function Scanned(filler: seq<Byte>): Log {
    [HeapRow(RowId(1, 0), EMPTY_ROW), HeapRow(RowId(1, 1), EMPTY_ROW), HeapRow(RowId(1, 2), BigRow(filler))]
  }

  // 5 for the rows without a text.
  ghost predicate SetsFive(u: Change, filler: seq<Byte>) {
    u.col == 0 && u.v == Integer(5) && u.p(EMPTY_ROW) && !u.p(BigRow(filler))
  }

  lemma Sizes(filler: seq<Byte>)
    requires |filler| == FILLER_SIZE
    ensures |EncodeRow(EMPTY_ROW)| == 6 && |EncodeRow(FIVE_ROW)| == 14 && |EncodeRow(BigRow(filler))| == 4056
    ensures RowFits(EMPTY_ROW) && RowFits(FIVE_ROW) && RowFits(BigRow(filler))
  {
    TwoValues(Null, Null);
    TwoValues(Integer(5), Null);
    TwoValues(Null, Varchar(filler));
  }

  lemma TwoValues(a: Value, b: Value)
    ensures |EncodeRow([a, b])| == 4 + |EncodeValue(a)| + |EncodeValue(b)|
  {
    hide EncodeValue;
    assert [a, b][1..] == [b] && [b][1..] == [];
    assert EncodeValues([a, b]) == EncodeValue(a) + (EncodeValue(b) + EncodeValues([]));
  }

  lemma PageIsFull(filler: seq<Byte>)
    requires |filler| == FILLER_SIZE
    ensures var p := FullPage(filler);
      && SlottedPage.ValidPage(p) && SlottedPage.FreeSpace(p) == 0
      && SlottedPage.Records(p) == [Some(EncodeRow(EMPTY_ROW)), Some(EncodeRow(EMPTY_ROW)), Some(EncodeRow(BigRow(filler)))]
  {
    hide SlottedPage.ValidPage, SlottedPage.Records, SlottedPage.Inserted, SlottedPage.FreeSpace, EncodeRow, SlottedPage.Blank;
    Sizes(filler);
    SlottedPage.BlankOk();
    var small, big := EncodeRow(EMPTY_ROW), EncodeRow(BigRow(filler));
    var one := SlottedPage.Inserted(SlottedPage.Blank(), small);
    SlottedPage.InsertKeeps(SlottedPage.Blank(), small);
    InBounds(one);
    var two := SlottedPage.Inserted(one, small);
    SlottedPage.InsertKeeps(one, small);
    SlottedPage.InsertKeeps(two, big);
  }

  lemma InBounds(p: Page)
    requires SlottedPage.ValidPage(p)
    ensures SlottedPage.Bounded(p)
  {}

  lemma HeapIsOk(filler: seq<Byte>)
    requires |filler| == FILLER_SIZE
    ensures HeapOk(View(filler), [1]) && TableHeap.Room(View(filler), [1]) == 0
    ensures Rows(View(filler), [1]) == Scanned(filler)
  {
    hide CatalogPage, FullPage, SlottedPage.ValidPage, SlottedPage.Records, EncodeRow, DecodeRow, SlottedPage.FreeSpace, RowFits;
    PageIsFull(filler);
    Sizes(filler);
    TableHeap.RecordOfRow(EMPTY_ROW);
    TableHeap.RecordOfRow(BigRow(filler));
    var small, big := EncodeRow(EMPTY_ROW), EncodeRow(BigRow(filler));
    ThreeRecords(1, small, big);
    var view: seq<Page>, pages: seq<PoolSpec.PageId> := View(filler), [1];
    assert PageOk(view, 1);
    assert pages[..0] == [] && Rows(view, pages[..0]) == [];
    assert Rows(view, pages) == Rows(view, pages[..0]) + PageRows(1, RecordsOf(view, 1));
  }

  lemma ThreeRecords(page: PoolSpec.PageId, a: seq<Byte>, b: seq<Byte>)
    ensures PageRows(page, [Some(a), Some(a), Some(b)]) ==
      [HeapRow(RowId(page, 0), RowOf(a)), HeapRow(RowId(page, 1), RowOf(a)), HeapRow(RowId(page, 2), RowOf(b))]
  {
    hide RowOf;
    var three := [Some(a), Some(a), Some(b)];
    assert three[..0] == [] && three[..1] == three[..0] + [Some(a)] && three[..2] == three[..1] + [Some(a)] && three[..3] == three;
    PageRowsSnoc(page, three[..0], Some(a));
    PageRowsSnoc(page, three[..1], Some(a));
    PageRowsSnoc(page, three[..2], Some(b));
  }

  lemma TableIsOk(filler: seq<Byte>)
    requires |filler| == FILLER_SIZE
    ensures TableOk(View(filler), TABLE, [None])
  {
    hide View, HeapOk, Rows, TableHeap.Room, Normalize;
    HeapIsOk(filler);
    var view, shapes: seq<Option<Tree>> := View(filler), [None];
    assert Regions([1], shapes) == [{1}, {}] by {
      OnePage();
    }
    ViewSize(filler);
    ColumnIs();
    RowsAre(filler);
    assert KeysIndexed(SCHEMA, [INDEX]);
  }

  lemma OnePage()
    ensures Regions([1], [None]) == [{1}, {}]
  {
    var pages: seq<PoolSpec.PageId> := [1];
    assert pages[0] in PageSet(pages);
    assert PageSet(pages) == {1};
  }

  lemma ViewSize(filler: seq<Byte>)
    requires |filler| == FILLER_SIZE
    ensures |View(filler)| == 2
  {}

  lemma ColumnIs()
    ensures ColumnOf(SCHEMA, INDEX) == 0
  {
    hide Normalize;
  }

  lemma RowsAre(filler: seq<Byte>)
    requires |filler| == FILLER_SIZE
    ensures RowsOk(SCHEMA, RowMap(Scanned(filler))) && Agrees(RowMap(Scanned(filler)), 0, map[])
  {
    var log := Scanned(filler);
    forall id | id in RowMap(log)
      ensures RowOk(SCHEMA, RowMap(log)[id]) && RowMap(log)[id][0] == Null
    {
      var i := RowMapFrom(log, id);
    }
  }

  // The first row must move and finds no room; the second is refused because the first holds 5 by then.
  lemma RowIsLost(filler: seq<Byte>, u: Change)
    requires |filler| == FILLER_SIZE && SetsFive(u, filler)
    ensures var view, log := View(filler), Scanned(filler);
      && TableOk(view, TABLE, [None]) && Rows(view, TABLE.pageIds) == log && Picked(log, u.p) == 2
      && !RefusedAtOnce(SCHEMA, log, u) && FirstRefused(SCHEMA, TABLE.indexes, log, 1, u)
      && Staying(log[..1], u) == [] && Moving(log[..1], u) == [FIVE_ROW]
      && Space(Moving(log[..1], u)) > TableHeap.Room(view, TABLE.pageIds) && StillStored(view, TABLE.pageIds, log, 1, u) == 0
  {
    hide View, HeapOk, Rows, TableOk, EncodeRow, RowFits, TableHeap.Room, Indexed, Rejected;
    var view, log := View(filler), Scanned(filler);
    HeapIsOk(filler);
    TableIsOk(filler);
    Sizes(filler);
    Counted(filler, u);
    Stops(filler, u);
    Moved(filler, u);
    assert [FIVE_ROW][..0] == [];
    NoneAdded([FIVE_ROW], 0);
    assert Space([FIVE_ROW]) == Space([]) + TableHeap.SpaceFor(FIVE_ROW);
  }

  lemma Counted(filler: seq<Byte>, u: Change)
    requires SetsFive(u, filler)
    ensures var log := Scanned(filler); Picked(log, u.p) == 2 && Picked(log[..0], u.p) == 0 && Picked(log[..1], u.p) == 1
  {
    hide Picked, Rejected;
    var log := Scanned(filler);
    WholeLog(log);
    NonePickedYet(u.p);
    OneMorePicked(log, 0, u.p);
    OneMorePicked(log, 1, u.p);
    OneMorePicked(log, 2, u.p);
    assert log[..3] == log;
  }

  lemma Moved(filler: seq<Byte>, u: Change)
    requires |filler| == FILLER_SIZE && SetsFive(u, filler)
    ensures var log := Scanned(filler); Staying(log[..1], u) == [] && Moving(log[..1], u) == [FIVE_ROW] && Moves(log[0].row, u)
  {
    hide EncodeRow, RowFits;
    Sizes(filler);
    var log := Scanned(filler);
    assert log[..1][..0] == [];
    assert Changed(EMPTY_ROW, 0, Integer(5)) == FIVE_ROW;
  }

  lemma Stops(filler: seq<Byte>, u: Change)
    requires |filler| == FILLER_SIZE && SetsFive(u, filler)
    ensures FirstRefused(SCHEMA, TABLE.indexes, Scanned(filler), 1, u)
  {
    hide EncodeRow, RowFits, Picked, Equal, ColumnOf;
    var log := Scanned(filler);
    Sizes(filler);
    Counted(filler, u);
    ColumnIs();
    assert Changed(EMPTY_ROW, 0, Integer(5)) == FIVE_ROW;
    assert TABLE.indexes[0] == INDEX && Indexed(SCHEMA, TABLE.indexes, 0);
    assert Guarded(SCHEMA, TABLE.indexes, 0);
    assert Replaceable(EMPTY_ROW, u);
    NoFive(filler);
    assert !Refused(SCHEMA, TABLE.indexes, log, 0, u);
    assert Refused(SCHEMA, TABLE.indexes, log, 1, u);
  }

  lemma NoFive(filler: seq<Byte>)
    ensures var log := Scanned(filler); !Holds(log[..0] + log[1..], 0, Integer(5))
  {
    var log := Scanned(filler);
    assert log[..0] + log[1..] == [log[1], log[2]];
  }

  lemma StateIsOk(filler: seq<Byte>)
    requires |filler| == FILLER_SIZE
    ensures StateOk(View(filler), CATALOG.tables, [[None]])
  {
    hide View, TableOk, Normalize, Owned;
    TableIsOk(filler);
    ViewSize(filler);
    NamesDiffer();
    assert SchemaOk(SCHEMA);
  }

  lemma NamesDiffer()
    ensures Normalize(NUMBER.name) != Normalize(TEXT.name)
  {
    assert Normalize(NUMBER.name)[0] != Normalize(TEXT.name)[0];
  }

  lemma Found(filler: seq<Byte>)
    requires |filler| == FILLER_SIZE
    ensures FindTable(CATALOG.tables, [116]) == 0
    ensures View(filler)[0] == CatalogPage(CATALOG) && DecodePage(CatalogPage(CATALOG)) == Ok(CATALOG)
  {
    hide CatalogPage, DecodePage, FullPage, CatalogFits;
    CatalogIsSmall();
    PageBack(CATALOG);
  }

  // Opening the file and running the update: it reports a duplicate, and afterwards the first row is gone, the index
  // still holds its new value, so that the database is sound no longer, and the catalog on disk is out of date.
  method LoseRow(disk: BufferPool.DiskManager, u: Change, ghost filler: seq<Byte>)
    returns (r: Result<nat, StorageError>, storage: DiskStorage.DiskStorage)
    requires |filler| == FILLER_SIZE && disk.pages == View(filler) && SetsFive(u, filler)
    modifies disk
    ensures fresh(storage) && |storage.tables| == |storage.shapes| == 1 && |storage.shapes[0]| == 1
    ensures r.Err? && storage.RowsOf(0) == Scanned(filler)[1..] && 5 in Contents(storage.shapes[0][0])
    ensures !storage.Valid() && !storage.Saved()
  {
    hide View, HeapOk, Rows, TableOk, Ready, PoolSpec.Coherent, PoolSpec.View, TableHeap.Room, PartDone, Accepted, RefusedAtOnce, FirstRefused,
         Staying, Moving, Space, SetsFive, Picked, Spread, StateOk, CatalogPage, DecodePage, CatalogFits, OthersSame, Scanned,
         DiskStorage.DiskStorage.Stopped;
    RowIsLost(filler, u);
    FiveSuits(filler, u);
    StateIsOk(filler);
    Found(filler);
    CatalogIsSmall();
    ViewSize(filler);
    var loaded := DiskStorage.OpenDatabase(disk, [[None]]);
    storage := loaded.value;
    ghost var reached, done, tail;
    r, reached, done, tail := storage.UpdateWhere([116], u);
    NotAccepted(SCHEMA, TABLE.indexes, Scanned(filler), 1, u);
    LostForGood(filler, storage.pool.View(), storage.tables, storage.shapes, reached, done, u, tail);
  }

  lemma FiveSuits(filler: seq<Byte>, u: Change)
    requires |filler| == FILLER_SIZE && SetsFive(u, filler)
    ensures u.col < |SCHEMA.columns| && ColumnFault(SCHEMA.columns[u.col], u.v).None?
    ensures |View(filler)| + 2 * (1 + BUDGET) <= MAX_PAGES
  {}

  lemma NotAccepted(schema: TableSchema, indexes: seq<StoredIndex>, log: Log, k: nat, u: Change)
    requires u.col < |schema.columns| && FirstRefused(schema, indexes, log, k, u)
    ensures !Accepted(schema, indexes, log, u)
  {
    hide Picked, Holds, OthersHold, Guarded, Rejected, Replaceable;
    PickedAt(log, k, u.p);
    OthersInRest(log, k, u);
  }

  lemma LostForGood(filler: seq<Byte>, w: seq<Page>, after: seq<StoredTable>, shapes: seq<Shapes>, reached: seq<PoolSpec.PageId>, done: nat,
                    u: Change, tail: Log)
    requires |filler| == FILLER_SIZE && SetsFive(u, filler) && |after| == 1 && u.col < |SCHEMA.columns|
    requires DiskStorage.DiskStorage.Stopped(View(filler), [TABLE], 0, w, after, shapes, reached, done, u, tail)
    requires PartDone(View(filler), TABLE.pageIds, w, reached, Scanned(filler), done, u, tail)
    requires StateOk(w, after[0 := after[0].(pageIds := reached)], shapes)
    ensures Rows(w, after[0].pageIds) == Scanned(filler)[1..] && |shapes| == 1 && |shapes[0]| == 1
    ensures 5 in Contents(shapes[0][0]) && after != [TABLE] && !StateOk(w, after, shapes)
  {
    hide View, Rows, TableOk, PartDone, StateOk, FirstRefused, Staying, Moving, Space, SetsFive, StillStored, TableHeap.Room, SameIndexes,
         Scanned, Unindexed;
    var log, now := Scanned(filler), after[0].(pageIds := reached);
    RowIsLost(filler, u);
    OneStop(SCHEMA, TABLE.indexes, log, 1, done, u);
    Rest(log, tail);
    FiveIndexed();
    assert DiskStorage.DiskStorage.Lost(View(filler), TABLE, log, 1, u) == [FIVE_ROW];
    assert [FIVE_ROW][0] == FIVE_ROW;
    DiskStorage.DiskStorage.StateFacts(w, after[0 := now], shapes, 0);
    TailIndexed(w, now, shapes[0], View(filler), log, u, tail);
  }

  lemma OneStop(schema: TableSchema, indexes: seq<StoredIndex>, log: Log, k: nat, done: nat, u: Change)
    requires u.col < |schema.columns| && FirstRefused(schema, indexes, log, k, u) && FirstRefused(schema, indexes, log, done, u)
    ensures done == k
  {
    hide Refused;
  }

  lemma Rest(log: Log, tail: Log)
    requires |log| >= 1
    ensures [] + log[1..] + tail[..0] == log[1..]
  {}

  lemma FiveIndexed()
    ensures !Unindexed(SCHEMA, [INDEX], FIVE_ROW)
  {
    ColumnIs();
    assert ColumnOf(SCHEMA, [INDEX][0]) == 0;
  }

  // The row moved is in the index.
  lemma TailIndexed(w: seq<Page>, table: StoredTable, moved: seq<Option<Tree>>, view: seq<Page>, log: Log, u: Change, tail: Log)
    requires TableOk(w, table, moved) && table.schema == SCHEMA && SameIndexes(TABLE.indexes, table.indexes)
    requires PartDone(view, TABLE.pageIds, w, table.pageIds, log, 1, u, tail) && Moving(log[..1], u) == [FIVE_ROW]
    ensures |moved| == 1 && 5 in Contents(moved[0]) && table.indexes != TABLE.indexes
  {
    hide HeapOk, Rows, RowMap, TableHeap.Room, PagesOk, Spread, Staying, Moving, RowsOk, KeysIndexed, KeysUnique, ColumnOf, Normalize, Agrees,
         TreePages.TreeOk, TreeAt;
    TableFacts(w, table, moved);
    var rows, at := Rows(w, table.pageIds), |Staying(log[..1], u) + log[1..]|;
    assert |tail| == |RowsIn(tail)| && RowsIn(tail)[0] == tail[0].row;
    assert rows[at] == tail[0] && rows[at].row == FIVE_ROW;
    RowMapHolds(rows, at);
    ColumnIs();
    SameColumns(SCHEMA, TABLE.indexes, table.indexes);
    assert ColumnOf(SCHEMA, TABLE.indexes[0]) == 0;
    assert IndexHolds(SCHEMA, table.indexes[0], Maps(moved)[0], RowMap(rows));
    HoldsFive(RowMap(rows), rows[at].id, Contents(moved[0]));
    if table.indexes[0].root.None? {
      NoRoot(w, table, moved);
    }
  }

  lemma HoldsFive(rows: map<RowId, Row>, id: RowId, index: Index)
    requires Agrees(rows, 0, index) && id in rows && rows[id] == FIVE_ROW
    ensures 5 in index
  {
    assert Cell(rows[id], 0) == Integer(5);
  }

  lemma NoRoot(w: seq<Page>, table: StoredTable, moved: seq<Option<Tree>>)
    requires PagesOk(w, table.pageIds, table.indexes, moved) && |table.indexes| == 1 && table.indexes[0].root.None?
    ensures |moved| == 1 && Contents(moved[0]) == map[]
  {}
}
