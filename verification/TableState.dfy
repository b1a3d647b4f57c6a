// A table in the pages of a database: its heap, its indexes, who owns which page, and when all of it is sound.
module TableState {
  import opened Bytes
  import opened Results
  import opened Values
  import opened Views
  import opened TreeSpec
  import opened TreePages
  import opened TreeLaws
  import opened TreeStore
  import opened TableLog
  import opened Agreement
  import opened Schema
  import PoolSpec
  import TableHeap

  const MAX_KEYS: nat := 200

  // ---------- Page ownership ----------

  // The heap's pages, then the pages of each index.
  ghost function Regions(pages: seq<PoolSpec.PageId>, shapes: seq<Option<Tree>>): (r: seq<set<nat>>)
    ensures |r| == |shapes| + 1
  {
    [PageSet(pages)] + seq(|shapes|, i requires 0 <= i < |shapes| => PagesOf(shapes[i]))
  }

  // No page has two owners, and nobody owns page 0, which is the catalog's.
  ghost predicate RegionsOk(regions: seq<set<nat>>, limit: nat) {
    && (forall i, j :: 0 <= i < j < |regions| ==> regions[i] !! regions[j])
    && (forall i, id :: 0 <= i < |regions| && id in regions[i] ==> 0 < id < limit)
  }

  ghost function Union(regions: seq<set<nat>>): set<nat> {
    if regions == [] then {} else Union(regions[..|regions| - 1]) + regions[|regions| - 1]
  }

  ghost function OwnedPages(pages: seq<PoolSpec.PageId>, shapes: seq<Option<Tree>>): set<nat> {
    Union(Regions(pages, shapes))
  }

  // All of `w` beyond `v`, or owned before.
  ghost predicate GrownFrom(before: set<nat>, after: set<nat>, count: nat) {
    forall id :: id in after ==> id in before || id >= count
  }

  // Work on a table that owned the pages `before` and now owns `after`: what changed was its own or new.
  ghost predicate Progress(v: seq<Page>, w: seq<Page>, before: set<nat>, after: set<nat>) {
    Untouched(v, w, before) && GrownFrom(before, after, |v|)
  }

  lemma ProgressTwice(u: seq<Page>, v: seq<Page>, w: seq<Page>, a: set<nat>, b: set<nat>, c: set<nat>)
    requires Progress(u, v, a, b) && Progress(v, w, b, c)
    ensures Progress(u, w, a, c)
  {
    forall id: nat | id < |u| && id !in a
      ensures w[id] == u[id]
    {
      assert v[id] == u[id];
    }
  }

  lemma NoProgress(v: seq<Page>, a: set<nat>)
    ensures Progress(v, v, a, a)
  {}

  // The heap is as it was.
  ghost predicate SameHeap(v: seq<Page>, w: seq<Page>, pages: seq<PoolSpec.PageId>) {
    && Rows(w, pages) == Rows(v, pages) && TableHeap.Room(w, pages) == TableHeap.Room(v, pages)
    && forall id :: Given(w, pages, id) <==> Given(v, pages, id)
  }

  lemma {:induction false} InUnion(regions: seq<set<nat>>, i: nat)
    requires i < |regions|
    ensures regions[i] <= Union(regions)
  {
    if i < |regions| - 1 {
      InUnion(regions[..|regions| - 1], i);
    }
  }

  lemma {:induction false} UnionHolds(regions: seq<set<nat>>, id: nat)
    requires id in Union(regions)
    ensures exists i :: 0 <= i < |regions| && id in regions[i]
  {
    var last := |regions| - 1;
    if id in regions[last] {
    } else {
      UnionHolds(regions[..last], id);
      var i :| 0 <= i < last && id in regions[..last][i];
      assert id in regions[i];
    }
  }

  // One owner takes pages nobody had.
  lemma RegionGrows(regions: seq<set<nat>>, i: nat, region: set<nat>, before: nat, after: nat)
    requires RegionsOk(regions, before) && i < |regions| && 0 < before <= after
    requires GrownFrom(regions[i], region, before) && forall id :: id in region ==> id < after
    ensures RegionsOk(regions[i := region], after)
    ensures GrownFrom(Union(regions), Union(regions[i := region]), before)
  {
    var more := regions[i := region];
    forall a, b | 0 <= a < b < |more|
      ensures more[a] !! more[b]
    {
      assert regions[a] !! regions[b];
      assert forall id :: id in regions[a] ==> id < before;
      assert forall id :: id in regions[b] ==> id < before;
    }
    forall id | id in Union(more) && id < before
      ensures id in Union(regions)
    {
      UnionHolds(more, id);
      var j :| 0 <= j < |more| && id in more[j];
      assert id in regions[j];
      InUnion(regions, j);
    }
  }

  // ---------- Frames ----------

  lemma StoredFrame(v: seq<Page>, w: seq<Page>, root: Option<PageId>, shape: Option<Tree>, max: nat, changed: set<nat>)
    requires Stored(v, root, shape, max) && Untouched(v, w, changed) && PagesOf(shape) !! changed
    ensures Stored(w, root, shape, max)
  {
    hide TreeAt, TreeOk, Ids;
    if shape.Some? {
      TreeAtIds(v, shape.value, max);
      forall id | id in Ids(shape.value)
        ensures SamePage(v, w, id)
      {
      }
      TreeAtFrame(v, w, shape.value, max);
    }
  }

  lemma HeapFrame(v: seq<Page>, w: seq<Page>, pages: seq<PoolSpec.PageId>, changed: set<nat>)
    requires HeapOk(v, pages) && Untouched(v, w, changed) && PageSet(pages) !! changed
    ensures HeapOk(w, pages) && Rows(w, pages) == Rows(v, pages)
    ensures forall id :: Given(w, pages, id) <==> Given(v, pages, id)
    ensures TableHeap.Room(w, pages) == TableHeap.Room(v, pages)
  {
    forall i | 0 <= i < |pages|
      ensures PageOk(w, pages[i]) && RecordsOf(w, pages[i]) == RecordsOf(v, pages[i]) && w[pages[i]] == v[pages[i]]
    {
      assert PageOk(v, pages[i]) && pages[i] in PageSet(pages);
    }
    RowsFrame(v, w, pages);
    forall id
      ensures Given(w, pages, id) <==> Given(v, pages, id)
    {
      if id.page in pages {
        var i :| 0 <= i < |pages| && pages[i] == id.page;
      }
    }
  }

  // ---------- A table's pages ----------

  ghost predicate PagesOk(view: seq<Page>, pages: seq<PoolSpec.PageId>, indexes: seq<StoredIndex>, shapes: seq<Option<Tree>>) {
    && 0 < |view| <= MAX_PAGES
    && HeapOk(view, pages)
    && |shapes| == |indexes|
    && (forall i :: 0 <= i < |indexes| ==> Stored(view, indexes[i].root, shapes[i], MAX_KEYS))
    && RegionsOk(Regions(pages, shapes), |view|)
  }

  // An index operation: its tree changed, in its own pages and in pages allocated since.
  lemma TreeStep(v: seq<Page>, w: seq<Page>, pages: seq<PoolSpec.PageId>, indexes: seq<StoredIndex>, shapes: seq<Option<Tree>>,
                 i: nat, index: StoredIndex, shape: Option<Tree>)
    requires PagesOk(v, pages, indexes, shapes) && i < |indexes| && |v| <= |w| <= MAX_PAGES
    requires Untouched(v, w, PagesOf(shapes[i])) && Stored(w, index.root, shape, MAX_KEYS)
    requires GrownFrom(PagesOf(shapes[i]), PagesOf(shape), |v|)
    ensures PagesOk(w, pages, indexes[i := index], shapes[i := shape])
    ensures SameHeap(v, w, pages)
    ensures Progress(v, w, OwnedPages(pages, shapes), OwnedPages(pages, shapes[i := shape]))
    ensures 0 !in PagesOf(shape)
  {
    hide HeapOk, Stored, Given, Rows, Untouched, PageSet, PagesOf, TableHeap.Room;
    var regions := Regions(pages, shapes);
    StoredIds(w, index.root, shape);
    RegionGrows(regions, i + 1, PagesOf(shape), |v|, |w|);
    assert Regions(pages, shapes[i := shape]) == regions[i + 1 := PagesOf(shape)];
    assert regions[0] !! regions[i + 1];
    HeapFrame(v, w, pages, PagesOf(shapes[i]));
    forall j | 0 <= j < |indexes| && j != i
      ensures Stored(w, indexes[j].root, shapes[j], MAX_KEYS)
    {
      assert if j < i then regions[j + 1] !! regions[i + 1] else regions[i + 1] !! regions[j + 1];
      StoredFrame(v, w, indexes[j].root, shapes[j], MAX_KEYS, PagesOf(shapes[i]));
    }
    InUnion(regions, i + 1);
    UntouchedTwice(v, w, w, PagesOf(shapes[i]), {}, OwnedPages(pages, shapes)) by {
      UntouchedSame(w, {});
    }
  }

  lemma StoredIds(view: seq<Page>, root: Option<PageId>, shape: Option<Tree>)
    requires Stored(view, root, shape, MAX_KEYS)
    ensures forall id :: id in PagesOf(shape) ==> id < |view|
  {
    hide TreeAt, Ids, TreeOk;
    if shape.Some? {
      TreeAtIds(view, shape.value, MAX_KEYS);
    }
  }

  // A heap operation: the heap changed, in its own pages and in pages allocated since.
  lemma HeapStep(v: seq<Page>, w: seq<Page>, pages: seq<PoolSpec.PageId>, more: seq<PoolSpec.PageId>,
                 indexes: seq<StoredIndex>, shapes: seq<Option<Tree>>)
    requires PagesOk(v, pages, indexes, shapes) && |v| <= |w| <= MAX_PAGES
    requires Untouched(v, w, PageSet(pages)) && HeapOk(w, more) && GrownFrom(PageSet(pages), PageSet(more), |v|)
    ensures PagesOk(w, more, indexes, shapes)
    ensures Progress(v, w, OwnedPages(pages, shapes), OwnedPages(more, shapes))
    ensures 0 !in PageSet(more)
  {
    hide HeapOk, Stored, Untouched, PageSet, PagesOf;
    var regions := Regions(pages, shapes);
    HeapIds(w, more);
    RegionGrows(regions, 0, PageSet(more), |v|, |w|);
    assert Regions(more, shapes) == regions[0 := PageSet(more)];
    forall j | 0 <= j < |indexes|
      ensures Stored(w, indexes[j].root, shapes[j], MAX_KEYS)
    {
      assert regions[0] !! regions[j + 1];
      StoredFrame(v, w, indexes[j].root, shapes[j], MAX_KEYS, PageSet(pages));
    }
    InUnion(regions, 0);
    UntouchedTwice(v, w, w, PageSet(pages), {}, OwnedPages(pages, shapes)) by {
      UntouchedSame(w, {});
    }
  }

  lemma HeapIds(view: seq<Page>, pages: seq<PoolSpec.PageId>)
    requires HeapOk(view, pages)
    ensures forall id :: id in PageSet(pages) ==> id < |view|
  {
    forall id | id in PageSet(pages)
      ensures id < |view|
    {
      var i :| 0 <= i < |pages| && pages[i] == id;
      assert PageOk(view, pages[i]);
    }
  }

  // Other tables' work passes a table by.
  lemma TableFrame(v: seq<Page>, w: seq<Page>, pages: seq<PoolSpec.PageId>, indexes: seq<StoredIndex>, shapes: seq<Option<Tree>>, changed: set<nat>)
    requires PagesOk(v, pages, indexes, shapes) && |v| <= |w| <= MAX_PAGES
    requires Untouched(v, w, changed) && OwnedPages(pages, shapes) !! changed
    ensures PagesOk(w, pages, indexes, shapes) && SameHeap(v, w, pages)
  {
    hide HeapOk, Stored, Given, Rows, Untouched, PageSet, PagesOf, TableHeap.Room;
    var regions := Regions(pages, shapes);
    InUnion(regions, 0);
    HeapFrame(v, w, pages, changed);
    forall j | 0 <= j < |indexes|
      ensures Stored(w, indexes[j].root, shapes[j], MAX_KEYS)
    {
      InUnion(regions, j + 1);
      StoredFrame(v, w, indexes[j].root, shapes[j], MAX_KEYS, changed);
    }
  }

  // ---------- A table's meaning ----------

  ghost predicate Keyed(column: ColumnSchema) {
    column.primaryKey || column.unique
  }

  function ColumnOf(schema: TableSchema, index: StoredIndex): nat {
    FindColumn(schema.columns, index.columnName)
  }

  ghost predicate IndexHolds(schema: TableSchema, index: StoredIndex, contents: Index, rows: map<RowId, Row>) {
    && ColumnOf(schema, index) < |schema.columns|
    && schema.columns[ColumnOf(schema, index)].dataType.kind == IntegerKind
    && Agrees(rows, ColumnOf(schema, index), contents)
  }

  ghost predicate RowsOk(schema: TableSchema, rows: map<RowId, Row>) {
    forall id :: id in rows ==> RowOk(schema, rows[id])
  }

  // No index mentions the row.
  ghost predicate Unindexed(schema: TableSchema, indexes: seq<StoredIndex>, row: Row) {
    forall i :: 0 <= i < |indexes| ==> Cell(row, ColumnOf(schema, indexes[i])).Null?
  }

  // Every key column of integers has an index.
  ghost predicate KeysIndexed(schema: TableSchema, indexes: seq<StoredIndex>) {
    forall c :: 0 <= c < |schema.columns| && Keyed(schema.columns[c]) && schema.columns[c].dataType.kind == IntegerKind ==>
      Indexed(schema, indexes, c)
  }

  ghost predicate Indexed(schema: TableSchema, indexes: seq<StoredIndex>, c: nat) {
    exists i :: 0 <= i < |indexes| && ColumnOf(schema, indexes[i]) == c
  }

  ghost predicate KeysUnique(schema: TableSchema, rows: map<RowId, Row>) {
    forall c :: 0 <= c < |schema.columns| && Keyed(schema.columns[c]) && schema.columns[c].dataType.kind != IntegerKind ==>
      UniqueOn(rows, c)
  }

  // Rows suit the schema, every index holds exactly the rows, and the key columns are unique.
  ghost predicate Sound(schema: TableSchema, indexes: seq<StoredIndex>, maps: seq<Index>, rows: map<RowId, Row>) {
    && |maps| == |indexes|
    && RowsOk(schema, rows)
    && (forall i :: 0 <= i < |indexes| ==> IndexHolds(schema, indexes[i], maps[i], rows))
    && KeysIndexed(schema, indexes)
    && KeysUnique(schema, rows)
  }

  // What the trees of a table's indexes stand for.
  ghost function Maps(shapes: seq<Option<Tree>>): (maps: seq<Index>)
    ensures |maps| == |shapes|
    ensures forall i :: 0 <= i < |shapes| ==> maps[i] == Contents(shapes[i])
  {
    seq(|shapes|, i requires 0 <= i < |shapes| => Contents(shapes[i]))
  }

  ghost function LiveRows(view: seq<Page>, table: StoredTable): map<RowId, Row> {
    RowMap(Rows(view, table.pageIds))
  }

  ghost predicate TableOk(view: seq<Page>, table: StoredTable, shapes: seq<Option<Tree>>) {
    && PagesOk(view, table.pageIds, table.indexes, shapes)
    && Sound(table.schema, table.indexes, Maps(shapes), LiveRows(view, table))
  }

  lemma IntegerOnly(schema: TableSchema, rows: map<RowId, Row>, c: nat)
    requires RowsOk(schema, rows) && c < |schema.columns| && schema.columns[c].dataType.kind == IntegerKind
    ensures IntegerColumn(rows, c)
  {
    forall id | id in rows
      ensures Cell(rows[id], c).Null? || Cell(rows[id], c).Integer?
    {
      assert RowOk(schema, rows[id]);
      assert ColumnFault(schema.columns[c], rows[id][c]).None?;
    }
  }

  // A column no two rows may agree on: a key, or the column of an index.
  ghost predicate Guarded(schema: TableSchema, indexes: seq<StoredIndex>, c: nat)
    requires c < |schema.columns|
  {
    Keyed(schema.columns[c]) || Indexed(schema, indexes, c)
  }

  // In a sound table no two live rows share a non-null value in a UNIQUE, PRIMARY KEY or indexed column.
  lemma SoundIsUnique(schema: TableSchema, indexes: seq<StoredIndex>, maps: seq<Index>, rows: map<RowId, Row>, c: nat)
    requires Sound(schema, indexes, maps, rows) && c < |schema.columns| && Guarded(schema, indexes, c)
    ensures UniqueOn(rows, c)
  {
    hide RowsOk, UniqueOn, Agrees;
    if Indexed(schema, indexes, c) {
      var i :| 0 <= i < |indexes| && ColumnOf(schema, indexes[i]) == c;
      assert IndexHolds(schema, indexes[i], maps[i], rows);
      IntegerOnly(schema, rows, c);
      AgreementIsUnique(rows, c, maps[i]);
    }
  }

  // ---------- Soundness under change ----------

  lemma EqualBoth(a: Value, b: Value)
    ensures Equal(a, b) <==> Equal(b, a)
  {}

  lemma UniqueAdd(rows: map<RowId, Row>, col: nat, id: RowId, row: Row)
    requires UniqueOn(rows, col) && id !in rows
    requires Cell(row, col).Null? || !Taken(rows, col, Cell(row, col))
    ensures UniqueOn(rows[id := row], col)
  {
    hide Equal;
    var more := rows[id := row];
    forall a, b | a in more && b in more && a != b && !Cell(more[a], col).Null?
      ensures !Equal(Cell(more[a], col), Cell(more[b], col))
    {
      EqualBoth(Cell(more[a], col), Cell(more[b], col));
      assert a == id ==> !Equal(Cell(rows[b], col), Cell(row, col));
      assert b == id && !Cell(row, col).Null? ==> !Equal(Cell(rows[a], col), Cell(row, col));
      if b == id && Cell(row, col).Null? {
        NullEqualsNull(Cell(rows[a], col), Cell(row, col));
      }
    }
  }

  lemma NullEqualsNull(a: Value, b: Value)
    requires b.Null?
    ensures Equal(a, b) <==> a.Null?
  {}

  lemma UniqueWithout(rows: map<RowId, Row>, col: nat, id: RowId)
    requires UniqueOn(rows, col)
    ensures UniqueOn(rows - {id}, col)
    ensures id in rows && !Cell(rows[id], col).Null? ==> !Taken(rows - {id}, col, Cell(rows[id], col))
  {
    hide Equal;
    var rest := rows - {id};
    if id in rows && !Cell(rows[id], col).Null? {
      forall other | other in rest
        ensures !Equal(Cell(rest[other], col), Cell(rows[id], col))
      {
        EqualBoth(Cell(rows[other], col), Cell(rows[id], col));
      }
    }
  }

  // The row would bring a value that its column already has and may have only once.
  ghost predicate Collides(schema: TableSchema, indexes: seq<StoredIndex>, rows: map<RowId, Row>, row: Row) {
    exists c :: 0 <= c < |schema.columns| && Guarded(schema, indexes, c) && !Cell(row, c).Null? && Taken(rows, c, Cell(row, c))
  }

  ghost predicate KeyCollides(schema: TableSchema, rows: map<RowId, Row>, row: Row, c: nat)
    requires c < |schema.columns|
  {
    && Keyed(schema.columns[c]) && schema.columns[c].dataType.kind != IntegerKind
    && !Cell(row, c).Null? && Taken(rows, c, Cell(row, c))
  }

  // Some key column that no index can check would repeat a value.
  ghost predicate AnyKeyCollides(schema: TableSchema, rows: map<RowId, Row>, row: Row) {
    exists c :: 0 <= c < |schema.columns| && KeyCollides(schema, rows, row, c)
  }

  // Some index has one of the row's values already.
  ghost predicate AnyIndexCollides(schema: TableSchema, indexes: seq<StoredIndex>, maps: seq<Index>, row: Row)
    requires |maps| == |indexes|
  {
    exists i :: 0 <= i < |indexes| && Occupied(Cell(row, ColumnOf(schema, indexes[i])), maps[i])
  }

  // The key columns that have no index are checked against the rows, the others against their indexes:
  // together the two checks find every collision.
  lemma CollisionsFound(schema: TableSchema, indexes: seq<StoredIndex>, maps: seq<Index>, rows: map<RowId, Row>, row: Row)
    requires Sound(schema, indexes, maps, rows) && RowOk(schema, row)
    ensures Collides(schema, indexes, rows, row) <==>
      AnyKeyCollides(schema, rows, row) || AnyIndexCollides(schema, indexes, maps, row)
  {
    hide RowsOk, KeysUnique, Agrees, Taken;
    if Collides(schema, indexes, rows, row) {
      var c :| 0 <= c < |schema.columns| && Guarded(schema, indexes, c) && !Cell(row, c).Null? && Taken(rows, c, Cell(row, c));
      if !KeyCollides(schema, rows, row, c) {
        var i :| 0 <= i < |indexes| && ColumnOf(schema, indexes[i]) == c;
        IntegerAt(schema, row, c, indexes[i], maps[i], rows);
        IndexKnowsTaken(rows, c, maps[i], Cell(row, c).i);
        assert Occupied(Cell(row, ColumnOf(schema, indexes[i])), maps[i]);
      }
    }
    if i :| 0 <= i < |indexes| && Occupied(Cell(row, ColumnOf(schema, indexes[i])), maps[i]) {
      var c := ColumnOf(schema, indexes[i]);
      IntegerAt(schema, row, c, indexes[i], maps[i], rows);
      IndexKnowsTaken(rows, c, maps[i], Cell(row, c).i);
      assert Guarded(schema, indexes, c);
    }
    if c :| 0 <= c < |schema.columns| && KeyCollides(schema, rows, row, c) {
      assert Guarded(schema, indexes, c);
    }
  }

  lemma IntegerAt(schema: TableSchema, row: Row, c: nat, index: StoredIndex, contents: Index, rows: map<RowId, Row>)
    requires RowOk(schema, row) && IndexHolds(schema, index, contents, rows) && ColumnOf(schema, index) == c
    ensures c < |row| == |schema.columns| && (Cell(row, c).Null? || Cell(row, c).Integer?) && Agrees(rows, c, contents)
  {
    assert ColumnFault(schema.columns[c], row[c]).None?;
  }

  // The value is there already.
  ghost predicate Occupied(v: Value, contents: Index) {
    v.Integer? && v.i in contents
  }

  // The same indexes, but for where their roots are.
  ghost predicate SameIndexes(a: seq<StoredIndex>, b: seq<StoredIndex>) {
    |a| == |b| && forall i :: 0 <= i < |a| ==> b[i] == a[i].(root := b[i].root)
  }

  lemma SameColumns(schema: TableSchema, a: seq<StoredIndex>, b: seq<StoredIndex>)
    requires SameIndexes(a, b)
    ensures forall i :: 0 <= i < |a| ==> ColumnOf(schema, b[i]) == ColumnOf(schema, a[i])
    ensures forall c :: Indexed(schema, b, c) <==> Indexed(schema, a, c)
    ensures KeysIndexed(schema, a) <==> KeysIndexed(schema, b)
  {
    forall i | 0 <= i < |a|
      ensures ColumnOf(schema, b[i]) == ColumnOf(schema, a[i])
    {
      assert b[i] == a[i].(root := b[i].root);
    }
    forall c
      ensures Indexed(schema, b, c) <==> Indexed(schema, a, c)
    {
      if i :| 0 <= i < |a| && ColumnOf(schema, a[i]) == c {
        assert ColumnOf(schema, b[i]) == c;
      }
    }
  }

  // A row that collides with nothing can be added, given that the indexes take it in.
  lemma SoundAdded(schema: TableSchema, indexes: seq<StoredIndex>, maps: seq<Index>, rows: map<RowId, Row>,
                   now: seq<StoredIndex>, grown: seq<Index>, id: RowId, row: Row)
    requires Sound(schema, indexes, maps, rows) && RowOk(schema, row) && id !in rows
    requires !Collides(schema, indexes, rows, row)
    requires SameIndexes(indexes, now) && |grown| == |maps|
    requires forall i :: 0 <= i < |maps| ==> grown[i] == Added(maps[i], Cell(row, ColumnOf(schema, indexes[i])), id)
    ensures Sound(schema, now, grown, rows[id := row])
  {
    hide Agrees, UniqueOn, Taken, KeysIndexed, RowOk;
    SameColumns(schema, indexes, now);
    CollisionsFound(schema, indexes, maps, rows, row);
    forall i | 0 <= i < |indexes|
      ensures IndexHolds(schema, now[i], grown[i], rows[id := row])
    {
      var c := ColumnOf(schema, indexes[i]);
      assert IndexHolds(schema, indexes[i], maps[i], rows);
      assert !Occupied(Cell(row, c), maps[i]);
      AddKeeps(rows, c, maps[i], id, row);
    }
    forall c | 0 <= c < |schema.columns| && Keyed(schema.columns[c]) && schema.columns[c].dataType.kind != IntegerKind
      ensures UniqueOn(rows[id := row], c)
    {
      assert !KeyCollides(schema, rows, row, c);
      UniqueAdd(rows, c, id, row);
    }
  }

  // A row can be taken out, given that the indexes let go of it.
  lemma SoundRemoved(schema: TableSchema, indexes: seq<StoredIndex>, maps: seq<Index>, rows: map<RowId, Row>, left: seq<Index>, id: RowId)
    requires Sound(schema, indexes, maps, rows) && id in rows && |left| == |maps|
    requires forall i :: 0 <= i < |maps| ==> left[i] == Removed(maps[i], Cell(rows[id], ColumnOf(schema, indexes[i])))
    ensures Sound(schema, indexes, left, rows - {id})
  {
    hide Agrees, UniqueOn, KeysIndexed, RowOk, ColumnOf;
    forall i | 0 <= i < |indexes|
      ensures IndexHolds(schema, indexes[i], left[i], rows - {id})
    {
      assert IndexHolds(schema, indexes[i], maps[i], rows);
      RemoveKeeps(rows, ColumnOf(schema, indexes[i]), maps[i], id);
    }
    forall c | 0 <= c < |schema.columns| && Keyed(schema.columns[c]) && schema.columns[c].dataType.kind != IntegerKind
      ensures UniqueOn(rows - {id}, c)
    {
      UniqueWithout(rows, c, id);
    }
  }

  // A changed row's new value is in the index already, under another row.
  ghost predicate Blocked(before: Value, after: Value, contents: Index) {
    after.Integer? && before != after && after.i in contents
  }

  ghost predicate AnyIndexBlocked(schema: TableSchema, indexes: seq<StoredIndex>, maps: seq<Index>, oldRow: Row, newRow: Row)
    requires |maps| == |indexes|
  {
    exists i :: 0 <= i < |indexes| &&
      Blocked(Cell(oldRow, ColumnOf(schema, indexes[i])), Cell(newRow, ColumnOf(schema, indexes[i])), maps[i])
  }

  ghost function RemovedMaps(schema: TableSchema, indexes: seq<StoredIndex>, maps: seq<Index>, row: Row): (left: seq<Index>)
    requires |maps| == |indexes|
    ensures |left| == |maps|
    ensures forall i :: 0 <= i < |maps| ==> left[i] == Removed(maps[i], Cell(row, ColumnOf(schema, indexes[i])))
  {
    seq(|maps|, i requires 0 <= i < |maps| => Removed(maps[i], Cell(row, ColumnOf(schema, indexes[i]))))
  }

  lemma BlockedOccupied(before: Value, after: Value, contents: Index)
    ensures Blocked(before, after, contents) <==> Occupied(after, Removed(contents, before))
  {}

  // The indexes, asked one by one, know whether the changed row would collide with the other rows.
  lemma BlockedIsCollision(schema: TableSchema, indexes: seq<StoredIndex>, maps: seq<Index>, rows: map<RowId, Row>, id: RowId, newRow: Row)
    requires Sound(schema, indexes, maps, rows) && id in rows && RowOk(schema, newRow)
    requires !AnyKeyCollides(schema, rows - {id}, newRow)
    ensures Sound(schema, indexes, RemovedMaps(schema, indexes, maps, rows[id]), rows - {id})
    ensures AnyIndexBlocked(schema, indexes, maps, rows[id], newRow) <==> Collides(schema, indexes, rows - {id}, newRow)
  {
    hide IndexHolds, RowsOk, KeysIndexed, KeysUnique, RowOk, Collides, AnyKeyCollides, Blocked, Occupied, Removed, ColumnOf, Cell;
    var left := RemovedMaps(schema, indexes, maps, rows[id]);
    SoundRemoved(schema, indexes, maps, rows, left, id);
    CollisionsFound(schema, indexes, left, rows - {id}, newRow);
    forall i | 0 <= i < |indexes|
      ensures Blocked(Cell(rows[id], ColumnOf(schema, indexes[i])), Cell(newRow, ColumnOf(schema, indexes[i])), maps[i]) <==>
              Occupied(Cell(newRow, ColumnOf(schema, indexes[i])), left[i])
    {
      BlockedOccupied(Cell(rows[id], ColumnOf(schema, indexes[i])), Cell(newRow, ColumnOf(schema, indexes[i])), maps[i]);
    }
  }

  // A row can change its value, and its id, when the new version collides with no other row.
  lemma SoundMoved(schema: TableSchema, indexes: seq<StoredIndex>, maps: seq<Index>, rows: map<RowId, Row>,
                   now: seq<StoredIndex>, moved: seq<Index>, id: RowId, newId: RowId, newRow: Row)
    requires Sound(schema, indexes, maps, rows) && id in rows && RowOk(schema, newRow)
    requires !Collides(schema, indexes, rows - {id}, newRow) && (newId == id || newId !in rows)
    requires SameIndexes(indexes, now) && |moved| == |maps|
    requires forall i :: 0 <= i < |maps| ==>
      moved[i] == Added(Removed(maps[i], Cell(rows[id], ColumnOf(schema, indexes[i]))), Cell(newRow, ColumnOf(schema, indexes[i])), newId)
    ensures Sound(schema, now, moved, (rows - {id})[newId := newRow])
  {
    hide RowOk, Collides, SameIndexes, Removed, Added, ColumnOf, Cell, IndexHolds, RowsOk, KeysIndexed, KeysUnique;
    var left := RemovedMaps(schema, indexes, maps, rows[id]);
    SoundRemoved(schema, indexes, maps, rows, left, id);
    SoundAdded(schema, indexes, left, rows - {id}, now, moved, newId, newRow);
  }
}
