// What is left of a table when only part of its heap pages is still listed.
module LostRows {
  import opened Bytes
  import opened Results
  import opened Values
  import opened TreeLaws
  import opened TreeSpec
  import opened TreeStore
  import opened TableLog
  import opened Agreement
  import opened Schema
  import opened TableState
  import opened Updates
  import opened TableWork
  import PoolSpec
  import TableHeap

  ghost predicate Submap(less: map<RowId, Row>, rows: map<RowId, Row>) {
    forall id :: id in less ==> id in rows && less[id] == rows[id]
  }

  // An index that agrees with all rows agrees with some of them exactly when it mentions none of the others.
  lemma SomeAgree(rows: map<RowId, Row>, less: map<RowId, Row>, c: nat, index: Index)
    requires Agrees(rows, c, index) && Submap(less, rows)
    ensures Agrees(less, c, index) <==> forall id :: id in rows && id !in less ==> !Cell(rows[id], c).Integer?
  {
    hide Cell;
    if forall id :: id in rows && id !in less ==> !Cell(rows[id], c).Integer? {
      forall k | k in index
        ensures index[k] in less && Cell(less[index[k]], c) == Integer(k)
      {
        assert index[k] in rows && Cell(rows[index[k]], c) == Integer(k);
      }
    }
  }

  lemma PartOfLog(kept: Log, lost: Log)
    requires Unique(kept + lost)
    ensures Unique(kept) && Submap(RowMap(kept), RowMap(kept + lost))
    ensures forall i :: 0 <= i < |lost| ==> lost[i].id in RowMap(kept + lost) && lost[i].id !in RowMap(kept)
    ensures forall i :: 0 <= i < |lost| ==> RowMap(kept + lost)[lost[i].id] == lost[i].row
    ensures forall id :: id in RowMap(kept + lost) && id !in RowMap(kept) ==>
      exists i :: 0 <= i < |lost| && lost[i].id == id
  {
    hide RowMap;
    var log := kept + lost;
    assert forall i :: 0 <= i < |kept| ==> log[i] == kept[i];
    assert forall i :: 0 <= i < |lost| ==> log[|kept| + i] == lost[i];
    forall id | id in RowMap(kept)
      ensures id in RowMap(log) && RowMap(kept)[id] == RowMap(log)[id]
    {
      var i := RowMapFrom(kept, id);
      RowMapHolds(log, i);
    }
    forall i | 0 <= i < |lost|
      ensures lost[i].id in RowMap(log) && RowMap(log)[lost[i].id] == lost[i].row && lost[i].id !in RowMap(kept)
    {
      RowMapHolds(log, |kept| + i);
      NotInFront(kept, lost, i);
    }
    forall id | id in RowMap(log) && id !in RowMap(kept)
      ensures exists i :: 0 <= i < |lost| && lost[i].id == id
    {
      var i := RowMapFrom(log, id);
      InBack(kept, lost, i, id);
    }
  }

  lemma NotInFront(kept: Log, lost: Log, i: nat)
    requires Unique(kept + lost) && i < |lost|
    ensures lost[i].id !in RowMap(kept)
  {
    assert (kept + lost)[|kept| + i] == lost[i];
    assert forall j :: 0 <= j < |kept| ==> (kept + lost)[j] == kept[j];
    OnlyRows(kept);
  }

  lemma {:induction false} OnlyRows(log: Log)
    ensures forall id :: id in RowMap(log) ==> exists i :: 0 <= i < |log| && log[i].id == id
  {
    forall id | id in RowMap(log)
      ensures exists i :: 0 <= i < |log| && log[i].id == id
    {
      var i := RowMapFrom(log, id);
    }
  }

  lemma InBack(kept: Log, lost: Log, i: nat, id: RowId)
    requires Unique(kept) && i < |kept + lost| && (kept + lost)[i].id == id && id !in RowMap(kept)
    ensures exists j :: 0 <= j < |lost| && lost[j].id == id
  {
    hide RowMap;
    if i < |kept| {
      RowMapHolds(kept, i);
      assert false;
    } else {
      assert lost[i - |kept|].id == id;
    }
  }

  // ---------- Sound over the shorter list of pages ----------

  lemma FewerRowsSound(schema: TableSchema, indexes: seq<StoredIndex>, maps: seq<Index>, kept: Log, lost: Log)
    requires Unique(kept + lost) && Sound(schema, indexes, maps, RowMap(kept + lost))
    ensures Sound(schema, indexes, maps, RowMap(kept)) <==> forall i :: 0 <= i < |lost| ==> Unindexed(schema, indexes, lost[i].row)
  {
    hide RowMap, KeysIndexed, Agrees, RowOk, Unique, Cell, ColumnOf;
    PartOfLog(kept, lost);
    FewerKeys(schema, RowMap(kept + lost), RowMap(kept));
    forall j | 0 <= j < |indexes|
      ensures IndexHolds(schema, indexes[j], maps[j], RowMap(kept)) <==>
        forall i :: 0 <= i < |lost| ==> Cell(lost[i].row, ColumnOf(schema, indexes[j])).Null?
    {
      OneIndex(schema, indexes[j], maps[j], kept, lost);
    }
  }

  lemma FewerKeys(schema: TableSchema, rows: map<RowId, Row>, less: map<RowId, Row>)
    requires KeysUnique(schema, rows) && RowsOk(schema, rows) && Submap(less, rows)
    ensures KeysUnique(schema, less) && RowsOk(schema, less)
  {
    hide Cell, Equal, RowOk;
    forall c | 0 <= c < |schema.columns| && Keyed(schema.columns[c]) && schema.columns[c].dataType.kind != IntegerKind
      ensures UniqueOn(less, c)
    {
      assert UniqueOn(rows, c);
    }
  }

  lemma OneIndex(schema: TableSchema, index: StoredIndex, contents: Index, kept: Log, lost: Log)
    requires Unique(kept + lost) && RowsOk(schema, RowMap(kept + lost)) && IndexHolds(schema, index, contents, RowMap(kept + lost))
    ensures IndexHolds(schema, index, contents, RowMap(kept)) <==>
      forall i :: 0 <= i < |lost| ==> Cell(lost[i].row, ColumnOf(schema, index)).Null?
  {
    hide RowMap, Agrees, Unique, Cell, ColumnOf, RowsOk;
    var rows, less, c := RowMap(kept + lost), RowMap(kept), ColumnOf(schema, index);
    PartOfLog(kept, lost);
    IntegerOnly(schema, rows, c);
    SomeAgree(rows, less, c, contents);
  }

  lemma FewerPages(view: seq<Page>, pages: seq<PoolSpec.PageId>, more: seq<PoolSpec.PageId>, indexes: seq<StoredIndex>, shapes: seq<Option<Tree>>)
    requires PagesOk(view, more, indexes, shapes) && pages <= more
    ensures PagesOk(view, pages, indexes, shapes)
    ensures OwnedPages(pages, shapes) <= OwnedPages(more, shapes)
  {
    hide PageOk, Stored, PagesOf;
    var all, some := Regions(more, shapes), Regions(pages, shapes);
    FewerIn(pages, more);
    assert forall i :: 0 < i < |some| ==> some[i] == all[i];
    assert some[0] <= all[0];
    forall i | 0 <= i < |pages|
      ensures PageOk(view, pages[i])
    {
      assert pages[i] == more[i];
    }
    forall i, j | 0 <= i < j < |some|
      ensures some[i] !! some[j]
    {
      assert all[i] !! all[j];
    }
    UnionFewer(some, all);
  }

  lemma FewerIn(pages: seq<PoolSpec.PageId>, more: seq<PoolSpec.PageId>)
    requires pages <= more
    ensures PageSet(pages) <= PageSet(more)
    ensures Distinct(more) ==> Distinct(pages)
  {
    forall id | id in PageSet(pages)
      ensures id in PageSet(more)
    {
      var i :| 0 <= i < |pages| && pages[i] == id;
      assert more[i] == id;
    }
  }

  lemma {:induction false} UnionFewer(some: seq<set<nat>>, all: seq<set<nat>>)
    requires |some| == |all| && forall i :: 0 <= i < |some| ==> some[i] <= all[i]
    ensures Union(some) <= Union(all)
  {
    if some != [] {
      UnionFewer(some[..|some| - 1], all[..|all| - 1]);
    }
  }

  // The table is sound over the shorter list exactly when no index mentions a row of the other pages.
  lemma ShortListOk(view: seq<Page>, schema: TableSchema, indexes: seq<StoredIndex>, shapes: seq<Option<Tree>>,
                    pages: seq<PoolSpec.PageId>, more: seq<PoolSpec.PageId>, kept: Log, lost: Log)
    requires TableOk(view, StoredTable(schema, more, indexes), shapes) && pages <= more
    requires Rows(view, more) == kept + lost && Rows(view, pages) == kept
    ensures TableOk(view, StoredTable(schema, pages, indexes), shapes) <==>
      forall i :: 0 <= i < |lost| ==> Unindexed(schema, indexes, lost[i].row)
    ensures OwnedPages(pages, shapes) <= OwnedPages(more, shapes)
  {
    hide Rows, TableHeap.Room, PagesOk, OwnedPages, Sound, RowMap, Unindexed, Unique;
    TableFacts(view, StoredTable(schema, more, indexes), shapes);
    FewerPages(view, pages, more, indexes, shapes);
    FewerRowsSound(schema, indexes, Maps(shapes), kept, lost);
  }
}
