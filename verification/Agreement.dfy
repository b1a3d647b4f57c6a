// When an index agrees with the rows of its table, and what keeps it in agreement.
module Agreement {
  import opened Bytes
  import opened Results
  import opened Values
  import opened TableLog
  import TreeSpec

  type RowId = TreeSpec.RowId

  type Index = map<I64, RowId>

  // The rows of a log under their ids.
  ghost function RowMap(log: Log): (rows: map<RowId, Row>) {
    if log == [] then map[]
    else
      var last := log[|log| - 1];
      RowMap(log[..|log| - 1])[last.id := last.row]
  }

  function Cell(row: Row, col: nat): Value {
    if col < |row| then row[col] else Null
  }

  // The index holds exactly the non-null values of the column, each with the id of its row.
  ghost predicate Agrees(rows: map<RowId, Row>, col: nat, index: Index) {
    && (forall id :: id in rows && Cell(rows[id], col).Integer? ==>
      Cell(rows[id], col).i in index && index[Cell(rows[id], col).i] == id)
    && (forall k :: k in index ==> index[k] in rows && Cell(rows[index[k]], col) == Integer(k))
  }

  // No two rows share a non-null value in the column.
  ghost predicate UniqueOn(rows: map<RowId, Row>, col: nat) {
    forall a, b :: a in rows && b in rows && a != b && !Cell(rows[a], col).Null? ==>
      !Equal(Cell(rows[a], col), Cell(rows[b], col))
  }

  ghost predicate IntegerColumn(rows: map<RowId, Row>, col: nat) {
    forall id :: id in rows ==> Cell(rows[id], col).Null? || Cell(rows[id], col).Integer?
  }

  // Some row holds the value.
  ghost predicate Taken(rows: map<RowId, Row>, col: nat, v: Value) {
    exists id :: id in rows && Equal(Cell(rows[id], col), v)
  }

  // An index in agreement is what makes its column unique.
  lemma AgreementIsUnique(rows: map<RowId, Row>, col: nat, index: Index)
    requires Agrees(rows, col, index) && IntegerColumn(rows, col)
    ensures UniqueOn(rows, col)
  {
    forall a, b | a in rows && b in rows && a != b && !Cell(rows[a], col).Null?
      ensures !Equal(Cell(rows[a], col), Cell(rows[b], col))
    {
      EqualInteger(Cell(rows[a], col), Cell(rows[b], col));
    }
  }

  // The index can be asked whether a value is taken.
  lemma IndexKnowsTaken(rows: map<RowId, Row>, col: nat, index: Index, k: I64)
    requires Agrees(rows, col, index)
    ensures k in index <==> Taken(rows, col, Integer(k))
  {
    if k in index {
      assert Equal(Cell(rows[index[k]], col), Integer(k));
    }
    if Taken(rows, col, Integer(k)) {
      var id :| id in rows && Equal(Cell(rows[id], col), Integer(k));
      EqualInteger(Cell(rows[id], col), Integer(k));
    }
  }

  // What a lookup by key finds: the one row that has it, if any.
  lemma IndexFinds(rows: map<RowId, Row>, col: nat, index: Index, k: I64, id: RowId)
    requires Agrees(rows, col, index) && id in rows
    ensures Cell(rows[id], col) == Integer(k) <==> k in index && index[k] == id
  {}

  // ---------- What inserting, deleting and changing a row asks of the index ----------

  ghost function Added(index: Index, v: Value, id: RowId): Index {
    if v.Integer? then index[v.i := id] else index
  }

  ghost function Removed(index: Index, v: Value): Index {
    if v.Integer? then index - {v.i} else index
  }

  lemma AddKeeps(rows: map<RowId, Row>, col: nat, index: Index, id: RowId, row: Row)
    requires Agrees(rows, col, index) && id !in rows
    requires Cell(row, col).Integer? ==> Cell(row, col).i !in index
    ensures Agrees(rows[id := row], col, Added(index, Cell(row, col), id))
  {}

  lemma RemoveKeeps(rows: map<RowId, Row>, col: nat, index: Index, id: RowId)
    requires Agrees(rows, col, index) && id in rows
    ensures Agrees(rows - {id}, col, Removed(index, Cell(rows[id], col)))
    ensures Cell(rows[id], col).Integer? ==> Cell(rows[id], col).i in index
  {}

  // ---------- Logs as maps ----------

  lemma RowMapSnoc(log: Log, h: HeapRow)
    ensures RowMap(log + [h]) == RowMap(log)[h.id := h.row]
  {
    assert (log + [h])[..|log|] == log;
  }

  lemma {:induction false} RowMapLookup(log: Log, id: RowId)
    requires Unique(log)
    ensures id in RowMap(log) <==> Lookup(log, id).Some?
    ensures id in RowMap(log) ==> RowMap(log)[id] == Lookup(log, id).value
  {
    if log != [] {
      var front, last := log[..|log| - 1], log[|log| - 1];
      assert log == front + [last];
      RowMapLookup(front, id);
      LookupConcat(front, [last], id);
      LookupIn(front, id);
    }
  }

  lemma {:induction false} RowMapHolds(log: Log, i: nat)
    requires Unique(log) && i < |log|
    ensures log[i].id in RowMap(log) && RowMap(log)[log[i].id] == log[i].row
  {
    var front, last := log[..|log| - 1], log[|log| - 1];
    if i < |log| - 1 {
      RowMapHolds(front, i);
      assert front[i] == log[i];
    }
  }

  lemma {:induction false} RowMapFrom(log: Log, id: RowId) returns (i: nat)
    requires id in RowMap(log)
    ensures i < |log| && log[i].id == id && RowMap(log)[id] == log[i].row
  {
    var last := |log| - 1;
    if log[last].id == id {
      i := last;
    } else {
      i := RowMapFrom(log[..last], id);
    }
  }

  lemma UniqueFront(log: Log, front: Log, last: HeapRow)
    requires Unique(log) && log == front + [last]
    ensures Unique(front) && Lookup(front, last.id).None?
    ensures Without([last], last.id) == [] && forall id :: id != last.id ==> Without([last], id) == [last]
    ensures Lookup([last], last.id).Some? && forall id :: id != last.id ==> Lookup([last], id).None?
    ensures forall row :: Replace([last], last.id, row) == [HeapRow(last.id, row)]
    ensures forall id, row :: id != last.id ==> Replace([last], id, row) == [last]
  {
    assert forall i :: 0 <= i < |front| ==> front[i] == log[i];
    LookupIn(front, last.id);
    assert log[|front|] == last;
    assert forall i :: 0 <= i < |front| ==> log[i].id != log[|front|].id;
  }

  lemma PutThenRemove(m: map<RowId, Row>, a: RowId, row: Row, b: RowId)
    ensures m[a := row] - {b} == if a == b then m - {b} else (m - {b})[a := row]
  {}

  lemma NothingToRemove(m: map<RowId, Row>, id: RowId)
    requires id !in m
    ensures m - {id} == m
  {}

  lemma {:induction false} RowMapWithout(log: Log, id: RowId)
    requires Unique(log)
    ensures RowMap(Without(log, id)) == RowMap(log) - {id}
  {
    if log != [] {
      hide Unique, Lookup, Without, RowMap;
      var front, last := log[..|log| - 1], log[|log| - 1];
      assert log == front + [last];
      UniqueFront(log, front, last);
      RowMapSnoc(front, last);
      RowMapWithout(front, id);
      WithoutConcat(front, [last], id);
      PutThenRemove(RowMap(front), last.id, last.row, id);
      if last.id == id {
        RowMapLookup(front, id);
        NotThere(front, id, []);
        NothingToRemove(RowMap(front), id);
        assert Without(front, id) + [] == Without(front, id);
      } else {
        RowMapSnoc(Without(front, id), last);
      }
    }
  }

  lemma {:induction false} RowMapReplace(log: Log, id: RowId, row: Row)
    requires Unique(log) && Lookup(log, id).Some?
    ensures RowMap(Replace(log, id, row)) == RowMap(log)[id := row]
  {
    hide Unique, Replace, RowMap;
    var front, last := log[..|log| - 1], log[|log| - 1];
    assert log == front + [last];
    UniqueFront(log, front, last);
    RowMapSnoc(front, last);
    ReplaceConcat(front, [last], id, row);
    LookupConcat(front, [last], id);
    if last.id == id {
      NotThere(front, id, row);
      RowMapSnoc(front, HeapRow(id, row));
    } else {
      RowMapReplace(front, id, row);
      RowMapSnoc(Replace(front, id, row), last);
    }
  }
}
