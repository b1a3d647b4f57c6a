// The loops that keep a table's indexes in agreement with its heap.
module IndexUpkeep {
  import opened Bytes
  import opened Results
  import opened Values
  import opened Views
  import opened TreeSpec
  import opened TreePages
  import opened TreeLaws
  import opened TreeStore
  import opened TableLog
  import opened Agreement
  import opened Schema
  import opened TableState
  import PoolSpec
  import BufferPool
  import BPlusTree

  // No guard is out, and page 0, which is written behind the pool's back, is not in the pool.
  ghost predicate Ready(pool: BufferPool.BufferPool)
    reads pool, pool.disk
  {
    pool.Idle() && 0 !in pool.frames.Keys
  }

  // The page budget of one index operation.
  const BUDGET: nat := BPlusTree.NEW_PAGES

  lemma SpanIsNew(before: set<nat>, count: nat, n: nat)
    ensures GrownFrom(before, before + Span(count, n), count)
  {
    SpanFrom(count, n);
  }

  lemma {:induction false} SpanFrom(count: nat, n: nat)
    ensures forall id :: id in Span(count, n) ==> id >= count
    decreases n
  {
    if n > 0 {
      SpanFrom(count + 1, n - 1);
    }
  }

  // ---------- One index ----------

  method FindInIndex(pool: BufferPool.BufferPool, index: StoredIndex, key: I64, ghost pages: seq<PoolSpec.PageId>,
                     ghost indexes: seq<StoredIndex>, ghost shapes: seq<Option<Tree>>, ghost i: nat)
    returns (r: Result<Option<RowId>, BPlusTree.TreeError>)
    requires Ready(pool) && PagesOk(pool.View(), pages, indexes, shapes) && i < |indexes| && indexes[i] == index
    modifies pool, pool.disk
    ensures Ready(pool) && pool.View() == old(pool.View())
    ensures r == Ok(if key in Contents(shapes[i]) then Some(Contents(shapes[i])[key]) else None)
  {
    hide PoolSpec.Coherent, PoolSpec.View, HeapOk, Stored, Regions, Contents, PagesOf;
    IndexFacts(pool.View(), pages, indexes, shapes, i);
    var tree := new BPlusTree.BPlusTree(pool, index.root, MAX_KEYS, shapes[i]);
    r := tree.Find(key);
  }

  lemma IndexFacts(view: seq<Page>, pages: seq<PoolSpec.PageId>, indexes: seq<StoredIndex>, shapes: seq<Option<Tree>>, i: nat)
    requires PagesOk(view, pages, indexes, shapes) && i < |indexes|
    ensures |shapes| == |indexes| && Stored(view, indexes[i].root, shapes[i], MAX_KEYS) && 0 !in PagesOf(shapes[i]) && |view| <= MAX_PAGES
  {
    hide HeapOk, Stored, PagesOf;
    assert Regions(pages, shapes)[i + 1] == PagesOf(shapes[i]);
  }

  method AddToIndex(pool: BufferPool.BufferPool, index: StoredIndex, key: I64, id: RowId, ghost pages: seq<PoolSpec.PageId>,
                    ghost indexes: seq<StoredIndex>, ghost shapes: seq<Option<Tree>>, ghost i: nat)
    returns (error: Option<BPlusTree.TreeError>, after: StoredIndex, ghost shape: Option<Tree>)
    requires Ready(pool) && PagesOk(pool.View(), pages, indexes, shapes) && i < |indexes| && indexes[i] == index
    requires id.page < 0x1_0000_0000 && |pool.View()| + BUDGET <= MAX_PAGES
    modifies pool, pool.disk
    ensures Ready(pool)
    ensures error == if key in Contents(shapes[i]) then Some(BPlusTree.DuplicateKey) else None
    ensures error.Some? ==> after == index && shape == shapes[i] && pool.View() == old(pool.View())
    ensures error.None? ==> Contents(shape) == Contents(shapes[i])[key := id]
    ensures after == index.(root := after.root)
    ensures PagesOk(pool.View(), pages, indexes[i := after], shapes[i := shape]) && SameHeap(old(pool.View()), pool.View(), pages)
    ensures Progress(old(pool.View()), pool.View(), OwnedPages(pages, shapes), OwnedPages(pages, shapes[i := shape]))
    ensures |old(pool.View())| <= |pool.View()| <= |old(pool.View())| + BUDGET
  {
    hide PoolSpec.Coherent, PoolSpec.View, HeapOk, Stored, Regions, Contents, PagesOf, PagesOk, SameHeap, Progress, OwnedPages, Untouched,
         Span;
    ghost var view := pool.View();
    IndexFacts(view, pages, indexes, shapes, i);
    var tree := new BPlusTree.BPlusTree(pool, index.root, MAX_KEYS, shapes[i]);
    error := tree.Insert(key, id);
    SpanIsNew(PagesOf(shapes[i]), |view|, |pool.View()| - |view|);
    after := StoredIndex(index.name, index.columnName, tree.root);
    shape := tree.shape;
    TreeStep(view, pool.View(), pages, indexes, shapes, i, after, shape);
  }

  method EraseFromIndex(pool: BufferPool.BufferPool, index: StoredIndex, key: I64, ghost pages: seq<PoolSpec.PageId>,
                        ghost indexes: seq<StoredIndex>, ghost shapes: seq<Option<Tree>>, ghost i: nat)
    returns (error: Option<BPlusTree.TreeError>, ghost shape: Option<Tree>)
    requires Ready(pool) && PagesOk(pool.View(), pages, indexes, shapes) && i < |indexes| && indexes[i] == index
    modifies pool, pool.disk
    ensures Ready(pool) && error.None?
    ensures Contents(shape) == Contents(shapes[i]) - {key}
    ensures PagesOk(pool.View(), pages, indexes, shapes[i := shape]) && SameHeap(old(pool.View()), pool.View(), pages)
    ensures Progress(old(pool.View()), pool.View(), OwnedPages(pages, shapes), OwnedPages(pages, shapes[i := shape]))
    ensures |pool.View()| == |old(pool.View())|
  {
    hide PoolSpec.Coherent, PoolSpec.View, HeapOk, Stored, Regions, Contents, PagesOf, PagesOk, SameHeap, Progress, OwnedPages, Untouched;
    ghost var view := pool.View();
    IndexFacts(view, pages, indexes, shapes, i);
    var tree := new BPlusTree.BPlusTree(pool, index.root, MAX_KEYS, shapes[i]);
    error := tree.Erase(key);
    shape := tree.shape;
    assert indexes[i := index] == indexes;
    TreeStep(view, pool.View(), pages, indexes, shapes, i, index, shape);
  }

  // ---------- All the indexes of a table ----------

  ghost function CellOf(schema: TableSchema, index: StoredIndex, row: Row): Value {
    Cell(row, ColumnOf(schema, index))
  }

  // What the loops rely on: each index is on a column of integers, and the row suits it.
  ghost predicate IntegerCell(schema: TableSchema, index: StoredIndex, row: Row) {
    && ColumnOf(schema, index) < |row|
    && (CellOf(schema, index, row).Null? || CellOf(schema, index, row).Integer?)
  }

  ghost predicate IntegerCells(schema: TableSchema, indexes: seq<StoredIndex>, row: Row) {
    forall i :: 0 <= i < |indexes| ==> IntegerCell(schema, indexes[i], row)
  }

  // insert's check: does some index know one of the row's values?
  method AnyOccupied(pool: BufferPool.BufferPool, schema: TableSchema, indexes: seq<StoredIndex>, row: Row,
                     ghost pages: seq<PoolSpec.PageId>, ghost shapes: seq<Option<Tree>>)
    returns (r: Result<bool, BPlusTree.TreeError>)
    requires Ready(pool) && PagesOk(pool.View(), pages, indexes, shapes) && IntegerCells(schema, indexes, row)
    modifies pool, pool.disk
    ensures Ready(pool) && pool.View() == old(pool.View())
    ensures r.Ok? && |shapes| == |indexes| && (r.value <==> AnyIndexCollides(schema, indexes, Maps(shapes), row))
  {
    hide PoolSpec.Coherent, PoolSpec.View, PagesOk, Contents, Ready;
    ghost var view := pool.View();
    SameLength(view, pages, indexes, shapes);
    for i := 0 to |indexes|
      invariant Ready(pool) && pool.View() == view
      invariant forall j :: 0 <= j < i ==> !Occupied(CellOf(schema, indexes[j], row), Maps(shapes)[j])
    {
      assert IntegerCell(schema, indexes[i], row);
      var column := ColumnOf(schema, indexes[i]);
      if row[column].Null? {
        continue;
      }
      var existing := FindInIndex(pool, indexes[i], row[column].i, pages, indexes, shapes, i);
      match existing {
        case Err(error) => return Err(error);
        case Ok(_) =>
      }
      if existing.value.Some? {
        assert Occupied(CellOf(schema, indexes[i], row), Maps(shapes)[i]);
        return Ok(true);
      }
    }
    return Ok(false);
  }

  lemma SameLength(view: seq<Page>, pages: seq<PoolSpec.PageId>, indexes: seq<StoredIndex>, shapes: seq<Option<Tree>>)
    requires PagesOk(view, pages, indexes, shapes)
    ensures |shapes| == |indexes|
  {}

  // The first i indexes have taken the change, the others have not.
  ghost predicate Halfway(schema: TableSchema, indexes: seq<StoredIndex>, now: seq<StoredIndex>, shapes: seq<Option<Tree>>,
                          grown: seq<Option<Tree>>, i: nat)
    requires i <= |indexes| && |shapes| == |indexes|
  {
    && SameIndexes(indexes, now) && |grown| == |shapes|
    && forall j :: i <= j < |indexes| ==> now[j] == indexes[j] && grown[j] == shapes[j]
  }

  // A row that is new to the table goes into every index that wants it.
  method AddToIndexes(pool: BufferPool.BufferPool, schema: TableSchema, indexes: seq<StoredIndex>, row: Row, id: RowId,
                      ghost pages: seq<PoolSpec.PageId>, ghost shapes: seq<Option<Tree>>)
    returns (error: Option<BPlusTree.TreeError>, now: seq<StoredIndex>, ghost grown: seq<Option<Tree>>)
    requires Ready(pool) && PagesOk(pool.View(), pages, indexes, shapes) && IntegerCells(schema, indexes, row)
    requires !AnyIndexCollides(schema, indexes, Maps(shapes), row)
    requires id.page < 0x1_0000_0000 && |pool.View()| + |indexes| * BUDGET <= MAX_PAGES
    modifies pool, pool.disk
    ensures Ready(pool) && error.None? && SameIndexes(indexes, now) && |grown| == |shapes| == |indexes|
    ensures forall i :: 0 <= i < |indexes| ==> Contents(grown[i]) == Added(Contents(shapes[i]), CellOf(schema, indexes[i], row), id)
    ensures forall i :: 0 <= i < |indexes| && CellOf(schema, indexes[i], row).Null? ==> now[i] == indexes[i]
    ensures PagesOk(pool.View(), pages, now, grown) && SameHeap(old(pool.View()), pool.View(), pages)
    ensures Progress(old(pool.View()), pool.View(), OwnedPages(pages, shapes), OwnedPages(pages, grown))
    ensures |old(pool.View())| <= |pool.View()| <= |old(pool.View())| + |indexes| * BUDGET
  {
    hide PoolSpec.Coherent, PoolSpec.View, PagesOk, Contents, SameHeap, Progress, OwnedPages, Ready, ColumnOf;
    ghost var view := pool.View();
    SameLength(view, pages, indexes, shapes);
    NoProgress(view, OwnedPages(pages, shapes));
    NothingMoved(view, pages);
    now, grown := indexes, shapes;
    for i := 0 to |indexes|
      invariant Ready(pool) && PagesOk(pool.View(), pages, now, grown) && Halfway(schema, indexes, now, shapes, grown, i)
      invariant forall j :: 0 <= j < i ==> Contents(grown[j]) == Added(Contents(shapes[j]), CellOf(schema, indexes[j], row), id)
      invariant forall j :: 0 <= j < i && CellOf(schema, indexes[j], row).Null? ==> now[j] == indexes[j]
      invariant SameHeap(view, pool.View(), pages)
      invariant Progress(view, pool.View(), OwnedPages(pages, shapes), OwnedPages(pages, grown))
      invariant |view| <= |pool.View()| <= |view| + i * BUDGET
    {
      assert IntegerCell(schema, indexes[i], row) && !Occupied(CellOf(schema, indexes[i], row), Maps(shapes)[i]);
      var column := ColumnOf(schema, now[i]);
      if row[column].Null? {
        continue;
      }
      ghost var before, owned := pool.View(), OwnedPages(pages, grown);
      var after: StoredIndex;
      ghost var shape;
      error, after, shape := AddToIndex(pool, now[i], row[column].i, id, pages, now, grown, i);
      match error {
        case Some(failure) => return;
        case None =>
      }
      now, grown := now[i := after], grown[i := shape];
      ProgressTwice(view, before, pool.View(), OwnedPages(pages, shapes), owned, OwnedPages(pages, grown));
      SameHeapTwice(view, before, pool.View(), pages);
    }
    error := None;
  }

  lemma NothingMoved(view: seq<Page>, pages: seq<PoolSpec.PageId>)
    ensures SameHeap(view, view, pages)
  {}

  lemma SameHeapTwice(u: seq<Page>, v: seq<Page>, w: seq<Page>, pages: seq<PoolSpec.PageId>)
    requires SameHeap(u, v, pages) && SameHeap(v, w, pages)
    ensures SameHeap(u, w, pages)
  {}

  // A row that leaves the table leaves every index.
  method RemoveFromIndexes(pool: BufferPool.BufferPool, schema: TableSchema, indexes: seq<StoredIndex>, row: Row,
                           ghost pages: seq<PoolSpec.PageId>, ghost shapes: seq<Option<Tree>>)
    returns (error: Option<BPlusTree.TreeError>, ghost left: seq<Option<Tree>>)
    requires Ready(pool) && PagesOk(pool.View(), pages, indexes, shapes) && IntegerCells(schema, indexes, row)
    modifies pool, pool.disk
    ensures Ready(pool) && error.None? && |left| == |shapes| == |indexes|
    ensures forall i :: 0 <= i < |indexes| ==> Contents(left[i]) == Removed(Contents(shapes[i]), CellOf(schema, indexes[i], row))
    ensures PagesOk(pool.View(), pages, indexes, left) && SameHeap(old(pool.View()), pool.View(), pages)
    ensures Progress(old(pool.View()), pool.View(), OwnedPages(pages, shapes), OwnedPages(pages, left))
    ensures |pool.View()| == |old(pool.View())|
  {
    hide PoolSpec.Coherent, PoolSpec.View, PagesOk, Contents, SameHeap, Progress, OwnedPages, Ready, ColumnOf;
    ghost var view := pool.View();
    SameLength(view, pages, indexes, shapes);
    NoProgress(view, OwnedPages(pages, shapes));
    NothingMoved(view, pages);
    left := shapes;
    for i := 0 to |indexes|
      invariant Ready(pool) && PagesOk(pool.View(), pages, indexes, left) && |left| == |shapes|
      invariant forall j :: 0 <= j < i ==> Contents(left[j]) == Removed(Contents(shapes[j]), CellOf(schema, indexes[j], row))
      invariant forall j :: i <= j < |indexes| ==> left[j] == shapes[j]
      invariant SameHeap(view, pool.View(), pages)
      invariant Progress(view, pool.View(), OwnedPages(pages, shapes), OwnedPages(pages, left))
      invariant |pool.View()| == |view|
    {
      assert IntegerCell(schema, indexes[i], row);
      var column := ColumnOf(schema, indexes[i]);
      if row[column].Null? {
        continue;
      }
      ghost var before, owned := pool.View(), OwnedPages(pages, left);
      ghost var shape;
      error, shape := EraseFromIndex(pool, indexes[i], row[column].i, pages, indexes, left, i);
      match error {
        case Some(failure) => return;
        case None =>
      }
      left := left[i := shape];
      ProgressTwice(view, before, pool.View(), OwnedPages(pages, shapes), owned, OwnedPages(pages, left));
      SameHeapTwice(view, before, pool.View(), pages);
    }
    error := None;
  }

  // update_where's check of one row: would its new value collide in some index?
  method AnyBlocked(pool: BufferPool.BufferPool, schema: TableSchema, indexes: seq<StoredIndex>, oldRow: Row, newRow: Row,
                    ghost pages: seq<PoolSpec.PageId>, ghost shapes: seq<Option<Tree>>)
    returns (r: Result<bool, BPlusTree.TreeError>)
    requires Ready(pool) && PagesOk(pool.View(), pages, indexes, shapes)
    requires IntegerCells(schema, indexes, oldRow) && IntegerCells(schema, indexes, newRow)
    modifies pool, pool.disk
    ensures Ready(pool) && pool.View() == old(pool.View())
    ensures r.Ok? && |shapes| == |indexes| && (r.value <==> AnyIndexBlocked(schema, indexes, Maps(shapes), oldRow, newRow))
  {
    hide PoolSpec.Coherent, PoolSpec.View, PagesOk, Contents, Ready;
    ghost var view := pool.View();
    SameLength(view, pages, indexes, shapes);
    for i := 0 to |indexes|
      invariant Ready(pool) && pool.View() == view
      invariant forall j :: 0 <= j < i ==>
        !Blocked(CellOf(schema, indexes[j], oldRow), CellOf(schema, indexes[j], newRow), Maps(shapes)[j])
    {
      assert IntegerCell(schema, indexes[i], oldRow) && IntegerCell(schema, indexes[i], newRow);
      var column := ColumnOf(schema, indexes[i]);
      if !newRow[column].Null? && (oldRow[column].Null? || oldRow[column] != newRow[column]) {
        var existing := FindInIndex(pool, indexes[i], newRow[column].i, pages, indexes, shapes, i);
        match existing {
          case Err(error) => return Err(error);
          case Ok(_) =>
        }
        if existing.value.Some? {
          assert Blocked(CellOf(schema, indexes[i], oldRow), CellOf(schema, indexes[i], newRow), Maps(shapes)[i]);
          return Ok(true);
        }
      }
    }
    return Ok(false);
  }

  // A changed row is taken out of every index under its old value and put back under the new one.
  method MoveInIndexes(pool: BufferPool.BufferPool, schema: TableSchema, indexes: seq<StoredIndex>, oldRow: Row, newRow: Row, id: RowId,
                       ghost pages: seq<PoolSpec.PageId>, ghost shapes: seq<Option<Tree>>)
    returns (error: Option<BPlusTree.TreeError>, now: seq<StoredIndex>, ghost moved: seq<Option<Tree>>)
    requires Ready(pool) && PagesOk(pool.View(), pages, indexes, shapes)
    requires IntegerCells(schema, indexes, oldRow) && IntegerCells(schema, indexes, newRow)
    requires !AnyIndexBlocked(schema, indexes, Maps(shapes), oldRow, newRow)
    requires id.page < 0x1_0000_0000 && |pool.View()| + |indexes| * BUDGET <= MAX_PAGES
    modifies pool, pool.disk
    ensures Ready(pool) && error.None? && SameIndexes(indexes, now) && |moved| == |shapes| == |indexes|
    ensures forall i :: 0 <= i < |indexes| ==>
      Contents(moved[i]) == Added(Removed(Contents(shapes[i]), CellOf(schema, indexes[i], oldRow)), CellOf(schema, indexes[i], newRow), id)
    ensures PagesOk(pool.View(), pages, now, moved) && SameHeap(old(pool.View()), pool.View(), pages)
    ensures Progress(old(pool.View()), pool.View(), OwnedPages(pages, shapes), OwnedPages(pages, moved))
    ensures |old(pool.View())| <= |pool.View()| <= |old(pool.View())| + |indexes| * BUDGET
  {
    hide PoolSpec.Coherent, PoolSpec.View, PagesOk, Contents, SameHeap, Progress, OwnedPages, Ready, ColumnOf, IntegerCell, Blocked;
    ghost var view := pool.View();
    SameLength(view, pages, indexes, shapes);
    NoProgress(view, OwnedPages(pages, shapes));
    NothingMoved(view, pages);
    now, moved := indexes, shapes;
    for i := 0 to |indexes|
      invariant Ready(pool) && PagesOk(pool.View(), pages, now, moved) && Halfway(schema, indexes, now, shapes, moved, i)
      invariant forall j :: 0 <= j < i ==>
        Contents(moved[j]) == Added(Removed(Contents(shapes[j]), CellOf(schema, indexes[j], oldRow)), CellOf(schema, indexes[j], newRow), id)
      invariant SameHeap(view, pool.View(), pages)
      invariant Progress(view, pool.View(), OwnedPages(pages, shapes), OwnedPages(pages, moved))
      invariant |view| <= |pool.View()| <= |view| + i * BUDGET
    {
      assert IntegerCell(schema, indexes[i], oldRow) && IntegerCell(schema, indexes[i], newRow);
      assert !Blocked(CellOf(schema, indexes[i], oldRow), CellOf(schema, indexes[i], newRow), Maps(shapes)[i]);
      ghost var before, owned := pool.View(), OwnedPages(pages, moved);
      var after: StoredIndex;
      ghost var shape;
      error, after, shape := MoveInIndex(pool, schema, now[i], oldRow, newRow, id, pages, now, moved, i);
      match error {
        case Some(failure) => return;
        case None =>
      }
      now, moved := now[i := after], moved[i := shape];
      ProgressTwice(view, before, pool.View(), OwnedPages(pages, shapes), owned, OwnedPages(pages, moved));
      SameHeapTwice(view, before, pool.View(), pages);
    }
    error := None;
  }

  method MoveInIndex(pool: BufferPool.BufferPool, schema: TableSchema, index: StoredIndex, oldRow: Row, newRow: Row, id: RowId,
                     ghost pages: seq<PoolSpec.PageId>, ghost indexes: seq<StoredIndex>, ghost shapes: seq<Option<Tree>>, ghost i: nat)
    returns (error: Option<BPlusTree.TreeError>, after: StoredIndex, ghost shape: Option<Tree>)
    requires Ready(pool) && PagesOk(pool.View(), pages, indexes, shapes) && i < |indexes| && indexes[i] == index
    requires IntegerCell(schema, index, oldRow) && IntegerCell(schema, index, newRow)
    requires !Blocked(CellOf(schema, index, oldRow), CellOf(schema, index, newRow), Contents(shapes[i]))
    requires id.page < 0x1_0000_0000 && |pool.View()| + BUDGET <= MAX_PAGES
    modifies pool, pool.disk
    ensures Ready(pool) && error.None? && after == index.(root := after.root)
    ensures Contents(shape) == Added(Removed(Contents(shapes[i]), CellOf(schema, index, oldRow)), CellOf(schema, index, newRow), id)
    ensures PagesOk(pool.View(), pages, indexes[i := after], shapes[i := shape]) && SameHeap(old(pool.View()), pool.View(), pages)
    ensures Progress(old(pool.View()), pool.View(), OwnedPages(pages, shapes), OwnedPages(pages, shapes[i := shape]))
    ensures |old(pool.View())| <= |pool.View()| <= |old(pool.View())| + BUDGET
  {
    hide PoolSpec.Coherent, PoolSpec.View, PagesOk, Contents, SameHeap, Progress, OwnedPages, Ready, ColumnOf;
    ghost var view := pool.View();
    SameLength(view, pages, indexes, shapes);
    NoProgress(view, OwnedPages(pages, shapes));
    NothingMoved(view, pages);
    var column := ColumnOf(schema, index);
    after, shape := index, shapes[i];
    assert indexes[i := index] == indexes && shapes[i := shape] == shapes;
    if !oldRow[column].Null? {
      error, shape := EraseFromIndex(pool, index, oldRow[column].i, pages, indexes, shapes, i);
      match error {
        case Some(failure) => return;
        case None =>
      }
    }
    ghost var mid, less := pool.View(), shapes[i := shape];
    assert indexes[i := index] == indexes;
    if !newRow[column].Null? {
      error, after, shape := AddToIndex(pool, index, newRow[column].i, id, pages, indexes, less, i);
      match error {
        case Some(failure) => return;
        case None =>
      }
      assert less[i := shape] == shapes[i := shape];
      ProgressTwice(view, mid, pool.View(), OwnedPages(pages, shapes), OwnedPages(pages, less), OwnedPages(pages, shapes[i := shape]));
      SameHeapTwice(view, mid, pool.View(), pages);
    }
    error := None;
  }
}
