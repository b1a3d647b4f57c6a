// What the conditions of INSERT, UPDATE and DELETE come to, in the fields of a schema and the values of a scan.
module Meaning {
  import opened Bytes
  import opened Results
  import opened Values
  import opened TableLog
  import opened Agreement
  import opened Schema
  import opened TableState
  import opened Updates
  import opened TableWork
  import Serialization
  import TableHeap

  // Every row of the scan has a value for every column.
  ghost predicate Full(schema: TableSchema, log: Log) {
    forall i :: 0 <= i < |log| ==> |log[i].row| == |schema.columns|
  }

  // ---------- Uniqueness ----------

  lemma UniqueOnIs(log: Log, c: nat)
    requires Unique(log) && forall i :: 0 <= i < |log| ==> c < |log[i].row|
    ensures UniqueOn(RowMap(log), c) <==>
      forall i, j :: 0 <= i < j < |log| ==> log[i].row[c].Null? || !Equal(log[i].row[c], log[j].row[c])
  {
    hide RowMap, Equal;
    var rows := RowMap(log);
    if UniqueOn(rows, c) {
      forall i, j | 0 <= i < j < |log|
        ensures log[i].row[c].Null? || !Equal(log[i].row[c], log[j].row[c])
      {
        RowMapHolds(log, i);
        RowMapHolds(log, j);
        assert log[i].id != log[j].id;
        assert rows[log[i].id] == log[i].row && rows[log[j].id] == log[j].row;
      }
    } else {
      var a, b :| a in rows && b in rows && a != b && !Cell(rows[a], c).Null? && Equal(Cell(rows[a], c), Cell(rows[b], c));
      var i := RowMapFrom(log, a);
      var j := RowMapFrom(log, b);
      EqualBoth(log[i].row[c], log[j].row[c]);
      NotNullEither(log[i].row[c], log[j].row[c]);
      assert i < j || j < i;
    }
  }

  lemma NotNullEither(a: Value, b: Value)
    requires Equal(a, b)
    ensures a.Null? <==> b.Null?
  {}

  // A column is guarded when it is a key or has an index.
  lemma GuardedIs(schema: TableSchema, indexes: seq<StoredIndex>, c: nat)
    requires c < |schema.columns| && ColumnsDistinct(schema.columns)
    ensures Guarded(schema, indexes, c) <==>
      || schema.columns[c].primaryKey || schema.columns[c].unique
      || exists x :: 0 <= x < |indexes| && Normalize(indexes[x].columnName) == Normalize(schema.columns[c].name)
  {
    hide Normalize, FindColumn;
    forall x | 0 <= x < |indexes|
      ensures ColumnOf(schema, indexes[x]) == c <==> Normalize(indexes[x].columnName) == Normalize(schema.columns[c].name)
    {
      NamedColumn(schema.columns, indexes[x].columnName, c);
    }
  }

  lemma NamedColumn(columns: seq<ColumnSchema>, name: Name, c: nat)
    requires ColumnsDistinct(columns) && c < |columns|
    ensures FindColumn(columns, name) == c <==> Normalize(name) == Normalize(columns[c].name)
  {
    hide Normalize;
    if Normalize(name) == Normalize(columns[c].name) {
      SameName(columns, name, columns[c].name);
      FindsItself(columns, c);
    }
  }

  // ---------- INSERT ----------

  // A new row collides exactly when some row has its value in a column that is a key or has an index.
  lemma CollidesIs(schema: TableSchema, indexes: seq<StoredIndex>, log: Log, row: Row)
    requires ColumnsDistinct(schema.columns) && Unique(log) && Full(schema, log) && |row| == |schema.columns|
    ensures Collides(schema, indexes, RowMap(log), row) <==>
      exists i, c ::
        && 0 <= i < |log| && 0 <= c < |row|
        && !row[c].Null? && Equal(log[i].row[c], row[c])
        && (|| schema.columns[c].primaryKey || schema.columns[c].unique
            || exists x :: 0 <= x < |indexes| && Normalize(indexes[x].columnName) == Normalize(schema.columns[c].name))
  {
    hide Guarded, Taken, Equal, RowMap, Normalize, Unique;
    forall c | 0 <= c < |row|
      ensures Guarded(schema, indexes, c) <==>
        || schema.columns[c].primaryKey || schema.columns[c].unique
        || exists x :: 0 <= x < |indexes| && Normalize(indexes[x].columnName) == Normalize(schema.columns[c].name)
      ensures Taken(RowMap(log), c, row[c]) <==> exists i :: 0 <= i < |log| && Equal(log[i].row[c], row[c])
    {
      GuardedIs(schema, indexes, c);
      TakenInLog(log, c, row[c]);
      CellsAre(schema, log, c, row[c]);
    }
  }

  lemma CellsAre(schema: TableSchema, log: Log, c: nat, v: Value)
    requires Full(schema, log) && c < |schema.columns|
    ensures (exists i :: 0 <= i < |log| && Equal(Cell(log[i].row, c), v)) <==> (exists i :: 0 <= i < |log| && Equal(log[i].row[c], v))
  {
    hide Equal;
  }

  // A row can be stored exactly when the lengths of the format hold it and it fits an empty page with its slot.
  lemma StorableIs(row: Row)
    ensures TableHeap.Storable(row) <==>
      && |row| <= 0xFFFF_FFFF
      && (forall i :: 0 <= i < |row| && row[i].Varchar? ==> |row[i].text| <= 0xFFFF_FFFF)
      && |Serialization.EncodeRow(row)| <= 4096 - 16 - 4
  {
    hide Serialization.EncodeRow;
  }

  // Why the heap refuses a row: a length that has no room in its field comes before a record that has none in a page.
  lemma RefusalIs(row: Row)
    ensures TableHeap.Refusal(row) == TableHeap.SerializationFailure(Serialization.InputTooLarge) <==>
      |row| > 0xFFFF_FFFF || exists i :: 0 <= i < |row| && row[i].Varchar? && |row[i].text| > 0xFFFF_FFFF
    ensures TableHeap.Refusal(row) == TableHeap.RowTooLarge <==> Serialization.RowFits(row) && |Serialization.EncodeRow(row)| > 4096 - 16 - 4
  {
    hide Serialization.EncodeRow;
    if !Serialization.RowFits(row) && |row| <= 0xFFFF_FFFF {
      var i :| 0 <= i < |row| && !Serialization.ValueFits(row[i]);
      assert row[i].Varchar? && |row[i].text| > 0xFFFF_FFFF;
    }
  }

  // Four bytes for a row, and for each value one byte, with eight more for a number, four more and its text for a text.
  lemma RowSize(row: Row, v: Value)
    ensures |Serialization.EncodeRow([])| == 4
    ensures |Serialization.EncodeRow(row + [v])| == |Serialization.EncodeRow(row)| +
      match v
      case Null => 1
      case Integer(_) => 9
      case Double(_) => 9
      case Varchar(text) => 5 + |text|
  {
    hide Serialization.EncodeValue;
    var more := row + [v];
    assert more[..|row|] == row && more[..|more|] == more;
    Serialization.EncodeValuesSnoc(more, |row|);
    ValueSize(v);
  }

  lemma ValueSize(v: Value)
    ensures |Serialization.EncodeValue(v)| ==
      match v
      case Null => 1
      case Integer(_) => 9
      case Double(_) => 9
      case Varchar(text) => 5 + |text|
  {}

  // ---------- DELETE ----------

  // What is left are the rows that the predicate does not pick.
  lemma {:induction false} RejectedIs(log: Log, p: Row -> bool, h: HeapRow)
    ensures |Rejected(log, p)| + Picked(log, p) == |log|
    ensures h in Rejected(log, p) <==> h in log && !p(h.row)
  {
    if log != [] {
      var front, last := log[..|log| - 1], log[|log| - 1];
      RejectedIs(front, p, h);
      assert log == front + [last];
    }
  }

  // ---------- UPDATE ----------

  // So many rows are picked as there are places in the scan with a row that the predicate picks.
  lemma {:induction false} PickedIs(log: Log, p: Row -> bool)
    ensures Picked(log, p) == |set i | 0 <= i < |log| && p(log[i].row)|
  {
    if log != [] {
      var n := |log| - 1;
      PickedIs(log[..n], p);
      PlacesMore(log, n, p);
      assert (set i | 0 <= i < |log[..n]| && p(log[..n][i].row)) == (set i | 0 <= i < n && p(log[..n][i].row));
    }
  }

  lemma PlacesMore(log: Log, n: nat, p: Row -> bool)
    requires n + 1 == |log|
    ensures |set i | 0 <= i < |log| && p(log[i].row)| == |set i | 0 <= i < n && p(log[..n][i].row)| + if p(log[n].row) then 1 else 0
  {
    var before := set i | 0 <= i < n && p(log[..n][i].row);
    assert (set i | 0 <= i < |log| && p(log[i].row)) == before + (if p(log[n].row) then {n} else {});
    assert n !in before;
  }

  lemma {:induction false} TwoOfThem(log: Log, p: Row -> bool)
    ensures Picked(log, p) > 0 <==> exists i :: 0 <= i < |log| && p(log[i].row)
    ensures Picked(log, p) > 1 <==> exists i, j :: 0 <= i < j < |log| && p(log[i].row) && p(log[j].row)
  {
    if log != [] {
      var n := |log| - 1;
      var front := log[..n];
      TwoOfThem(front, p);
      assert log[n].row == log[n].row;
      if Picked(front, p) > 0 {
        var i :| 0 <= i < |front| && p(front[i].row);
        assert log[i] == front[i];
      }
      if Picked(front, p) > 1 {
        var i, j :| 0 <= i < j < |front| && p(front[i].row) && p(front[j].row);
        assert log[i] == front[i] && log[j] == front[j];
      }
      if i :| 0 <= i < |log| && p(log[i].row) {
        assert i < n ==> front[i] == log[i];
      }
      if i, j :| 0 <= i < j < |log| && p(log[i].row) && p(log[j].row) {
        assert front[i] == log[i] && (j < n ==> front[j] == log[j]);
      }
    }
  }

  // The new versions, one for one.
  lemma UpdatedIs(log: Log, u: Change)
    requires forall i :: 0 <= i < |log| ==> u.col < |log[i].row|
    ensures |Updated(log, u)| == |log|
    ensures forall i :: 0 <= i < |log| ==> Updated(log, u)[i] == if u.p(log[i].row) then log[i].row[u.col := u.v] else log[i].row
  {}

  lemma ReplaceableIs(row: Row, u: Change)
    requires u.col < |row|
    ensures var after := row[u.col := u.v];
      Replaceable(row, u) <==>
        && Serialization.RowFits(after)
        && (|| |Serialization.EncodeRow(after)| <= |Serialization.EncodeRow(row)|
            || |Serialization.EncodeRow(after)| <= 4096 - 16 - 4)
  {
    hide Serialization.EncodeRow, Serialization.RowFits;
  }

  // The check before the loop: the column is a key, the value is not NULL, and two rows would get it or another has it.
  lemma RefusedAtOnceIs(schema: TableSchema, log: Log, u: Change)
    requires u.col < |schema.columns| && Full(schema, log)
    ensures RefusedAtOnce(schema, log, u) <==>
      && (schema.columns[u.col].primaryKey || schema.columns[u.col].unique) && !u.v.Null?
      && (|| (exists i, j :: 0 <= i < j < |log| && u.p(log[i].row) && u.p(log[j].row))
          || (exists i :: 0 <= i < |log| && !u.p(log[i].row) && Equal(log[i].row[u.col], u.v)))
  {
    hide Equal, Picked;
    TwoOfThem(log, u.p);
    OthersAre(schema, log, u);
  }

  lemma OthersAre(schema: TableSchema, log: Log, u: Change)
    requires u.col < |schema.columns| && Full(schema, log)
    ensures OthersHold(log, u) <==> exists i :: 0 <= i < |log| && !u.p(log[i].row) && Equal(log[i].row[u.col], u.v)
  {
    hide Equal;
  }

  // An update is accepted exactly when every row it picks can be stored with the new value, and the value is NULL, or its
  // column neither a key nor indexed, or at most one row is picked and no other row has the value; for a column that is
  // indexed and no key, rows that have the value matter only if some row is picked.
  lemma AcceptedIs(schema: TableSchema, indexes: seq<StoredIndex>, log: Log, u: Change)
    requires u.col < |schema.columns| && ColumnsDistinct(schema.columns) && Full(schema, log)
    ensures var column := schema.columns[u.col];
      var key := column.primaryKey || column.unique;
      var indexed := exists x :: 0 <= x < |indexes| && Normalize(indexes[x].columnName) == Normalize(column.name);
      var twice := exists i, j :: 0 <= i < j < |log| && u.p(log[i].row) && u.p(log[j].row);
      var held := exists i :: 0 <= i < |log| && !u.p(log[i].row) && Equal(log[i].row[u.col], u.v);
      var any := exists i :: 0 <= i < |log| && u.p(log[i].row);
      Accepted(schema, indexes, log, u) <==>
        && (forall i :: 0 <= i < |log| && u.p(log[i].row) ==> Replaceable(log[i].row, u))
        && (u.v.Null? || !(key || indexed) || (!twice && !(held && (key || any))))
  {
    hide Equal, Picked, Guarded, Replaceable, Normalize;
    TwoOfThem(log, u.p);
    OthersAre(schema, log, u);
    GuardedIs(schema, indexes, u.col);
  }

  // The loop refuses row k exactly when it is picked and its new version cannot be stored, or the value is not NULL, the
  // column a key or indexed, and a row before k is picked or any other row has the value.
  lemma RefusedIs(schema: TableSchema, indexes: seq<StoredIndex>, log: Log, k: nat, u: Change)
    requires k < |log| && u.col < |schema.columns| && ColumnsDistinct(schema.columns) && Full(schema, log)
    ensures var column := schema.columns[u.col];
      var indexed := exists x :: 0 <= x < |indexes| && Normalize(indexes[x].columnName) == Normalize(column.name);
      TableWork.Refused(schema, indexes, log, k, u) <==>
        && u.p(log[k].row)
        && (|| !Replaceable(log[k].row, u)
            || (&& !u.v.Null? && (column.primaryKey || column.unique || indexed)
                && (|| (exists i :: 0 <= i < k && u.p(log[i].row))
                    || (exists i :: 0 <= i < |log| && i != k && Equal(log[i].row[u.col], u.v)))))
  {
    hide Equal, Picked, Guarded, Replaceable, Normalize, Holds;
    TwoOfThem(log[..k], u.p);
    assert forall i :: 0 <= i < k ==> log[..k][i] == log[i];
    GuardedIs(schema, indexes, u.col);
    HoldsElsewhere(schema, log, k, u);
  }

  lemma HoldsElsewhere(schema: TableSchema, log: Log, k: nat, u: Change)
    requires k < |log| && u.col < |schema.columns| && Full(schema, log)
    ensures Holds(log[..k] + log[k + 1..], u.col, u.v) <==> exists i :: 0 <= i < |log| && i != k && Equal(log[i].row[u.col], u.v)
  {
    hide Equal;
    var rest := log[..k] + log[k + 1..];
    if j :| 0 <= j < |rest| && Equal(Cell(rest[j].row, u.col), u.v) {
      RestAt(log, k, j);
      var i := if j < k then j else j + 1;
      assert log[i].row[u.col] == Cell(rest[j].row, u.col);
    }
    if i :| 0 <= i < |log| && i != k && Equal(log[i].row[u.col], u.v) {
      RestAt(log, k, if i < k then i else i - 1);
      assert Cell(rest[if i < k then i else i - 1].row, u.col) == log[i].row[u.col];
    }
  }
}
