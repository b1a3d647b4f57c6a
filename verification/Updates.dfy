// What UPDATE does to a log of rows: some stay where they are, some move to the end.
module Updates {
  import opened Bytes
  import opened Results
  import opened Values
  import opened TableLog
  import opened Agreement
  import TableHeap
  import Serialization

  // What to change: the rows p picks get the value v in a column.
  datatype Change = Change(p: Row -> bool, col: nat, v: Value)

  function Changed(row: Row, col: nat, v: Value): (r: Row)
    ensures |r| == |row|
  {
    if col < |row| then row[col := v] else row
  }

  ghost function After(row: Row, u: Change): Row {
    if u.p(row) then Changed(row, u.col, u.v) else row
  }

  // The new version can be stored: over the old one, or in a page of its own.
  ghost predicate Acceptable(after: Row, before: Row) {
    Serialization.RowFits(after) && (TableHeap.Fits(after, before) || TableHeap.Storable(after))
  }

  ghost predicate Replaceable(row: Row, u: Change) {
    Acceptable(Changed(row, u.col, u.v), row)
  }

  ghost predicate Moves(row: Row, u: Change) {
    u.p(row) && !TableHeap.Fits(Changed(row, u.col, u.v), row)
  }

  // What is left where it was: rows not picked, and rows whose new version fits over the old one.
  ghost function Staying(log: Log, u: Change): Log {
    if log == [] then []
    else
      var h := log[|log| - 1];
      Staying(log[..|log| - 1], u) + if Moves(h.row, u) then [] else [HeapRow(h.id, After(h.row, u))]
  }

  // The new versions of the rows that had to move, in scan order.
  ghost function Moving(log: Log, u: Change): seq<Row> {
    if log == [] then []
    else
      var h := log[|log| - 1];
      Moving(log[..|log| - 1], u) + if Moves(h.row, u) then [After(h.row, u)] else []
  }

  ghost function RowsIn(log: Log): (rows: seq<Row>)
    ensures |rows| == |log|
  {
    seq(|log|, i requires 0 <= i < |log| => log[i].row)
  }

  // Every row after the update, one for one.
  ghost function Updated(log: Log, u: Change): (rows: seq<Row>)
    ensures |rows| == |log|
  {
    seq(|log|, i requires 0 <= i < |log| => After(log[i].row, u))
  }

  lemma OneMoreStaying(log: Log, k: nat, u: Change)
    requires k < |log|
    ensures Staying(log[..k + 1], u) ==
      Staying(log[..k], u) + if Moves(log[k].row, u) then [] else [HeapRow(log[k].id, After(log[k].row, u))]
    ensures Moving(log[..k + 1], u) == Moving(log[..k], u) + if Moves(log[k].row, u) then [After(log[k].row, u)] else []
  {
    assert log[..k + 1][..k] == log[..k];
  }

  // Nothing is lost, doubled or changed twice: the rows after an update are the old rows, each mapped once.
  lemma {:induction false} UpdateMapsRows(log: Log, u: Change, tail: Log)
    requires RowsIn(tail) == Moving(log, u)
    ensures multiset(RowsIn(Staying(log, u) + tail)) == multiset(Updated(log, u))
  {
    RowsInConcat(Staying(log, u), tail);
    StayOrMove(log, u);
    assert multiset(RowsIn(Staying(log, u)) + RowsIn(tail)) == multiset(RowsIn(Staying(log, u))) + multiset(RowsIn(tail));
  }

  // The same once every row of the scan has been seen to.
  lemma AllUpdated(rows: Log, log: Log, done: nat, u: Change, tail: Log)
    requires done == |log| && rows == Staying(log[..done], u) + log[done..] + tail && RowsIn(tail) == Moving(log[..done], u)
    ensures multiset(RowsIn(rows)) == multiset(Updated(log, u))
  {
    hide Staying, Moving, RowsIn, Updated;
    assert log[..done] == log && log[done..] == [];
    assert Staying(log, u) + [] == Staying(log, u);
    UpdateMapsRows(log, u, tail);
  }

  lemma {:induction false} StayAll(log: Log, u: Change)
    requires forall i :: 0 <= i < |log| ==> After(log[i].row, u) == log[i].row
    ensures Staying(log, u) == log && Moving(log, u) == []
  {
    hide After, Serialization.EncodeRow;
    if log != [] {
      var front, h := log[..|log| - 1], log[|log| - 1];
      assert log == front + [h];
      assert forall i :: 0 <= i < |front| ==> log[i] == front[i];
      StayAll(front, u);
      SameFits(h.row, u);
    }
  }

  lemma SameFits(row: Row, u: Change)
    requires After(row, u) == row
    ensures !Moves(row, u)
  {}

  lemma {:induction false} NoneMoved(log: Log, u: Change)
    requires Moving(log, u) == []
    ensures |Staying(log, u)| == |log|
    ensures forall i :: 0 <= i < |log| ==> Staying(log, u)[i] == HeapRow(log[i].id, After(log[i].row, u))
  {
    hide After, Moves, Staying, Moving;
    if log == [] {
      assert Staying(log, u) == [] by {
        StayAll(log, u);
      }
    } else {
      var front, h := log[..|log| - 1], log[|log| - 1];
      LastStays(front, h, log, u);
      NoneMoved(front, u);
    }
  }

  lemma LastStays(front: Log, h: HeapRow, log: Log, u: Change)
    requires log == front + [h] && Moving(log, u) == []
    ensures Moving(front, u) == [] && Staying(log, u) == Staying(front, u) + [HeapRow(h.id, After(h.row, u))]
  {
    hide After, Moves;
    assert log[..|log| - 1] == front;
  }

  lemma EndsElsewhere(a: Log, tail: Log, log: Log)
    requires tail != [] && log != [] && tail[|tail| - 1].id != log[|log| - 1].id
    ensures a + tail != log
  {
    var now := a + tail;
    if |now| == |log| {
      assert now[|now| - 1] == tail[|tail| - 1];
    }
  }

  // After the first rows have been seen to, the table is what it was exactly when none of them had anything to change.
  lemma NothingChanged(log: Log, done: nat, u: Change, tail: Log)
    requires done <= |log| && RowsIn(tail) == Moving(log[..done], u)
    requires forall i, j :: 0 <= i < |tail| && 0 <= j < |log| ==> tail[i].id != log[j].id
    ensures Staying(log[..done], u) + log[done..] + tail == log <==> forall i :: 0 <= i < done ==> After(log[i].row, u) == log[i].row
  {
    hide After, Moves;
    var front, now := log[..done], Staying(log[..done], u) + log[done..] + tail;
    assert log == front + log[done..];
    assert |tail| == |RowsIn(tail)|;
    if tail != [] && log != [] {
      EndsElsewhere(Staying(log[..done], u) + log[done..], tail, log);
    }
    if now == log {
      NoneMoved(front, u);
      forall i | 0 <= i < done
        ensures After(log[i].row, u) == log[i].row
      {
        assert now[i] == Staying(front, u)[i] && front[i] == log[i];
      }
    }
    if forall i :: 0 <= i < done ==> After(log[i].row, u) == log[i].row {
      assert forall i :: 0 <= i < done ==> front[i] == log[i];
      StayAll(front, u);
    }
  }

  lemma RowsInConcat(a: Log, b: Log)
    ensures RowsIn(a + b) == RowsIn(a) + RowsIn(b)
  {}

  lemma {:induction false} StayOrMove(log: Log, u: Change)
    ensures multiset(RowsIn(Staying(log, u))) + multiset(Moving(log, u)) == multiset(Updated(log, u))
  {
    hide After, Moves, RowsIn, Updated;
    if log == [] {
      NoRows(u);
    } else {
      var front, h := log[..|log| - 1], log[|log| - 1];
      StayOrMove(front, u);
      var after, stay, move := After(h.row, u), RowsIn(Staying(front, u)), Moving(front, u);
      LastRow(front, h, log, u);
      assert multiset(stay + [after]) == multiset(stay) + multiset{after};
      assert multiset(move + [after]) == multiset(move) + multiset{after};
      assert multiset(Updated(front, u) + [after]) == multiset(Updated(front, u)) + multiset{after};
    }
  }

  lemma NoRows(u: Change)
    ensures RowsIn([]) == [] && Updated([], u) == []
  {}

  lemma LastRow(front: Log, h: HeapRow, log: Log, u: Change)
    requires log == front + [h]
    ensures Updated(log, u) == Updated(front, u) + [After(h.row, u)]
    ensures RowsIn(Staying(log, u)) == RowsIn(Staying(front, u)) + if Moves(h.row, u) then [] else [After(h.row, u)]
    ensures Moving(log, u) == Moving(front, u) + if Moves(h.row, u) then [After(h.row, u)] else []
  {
    hide After, Moves;
    assert log[..|log| - 1] == front;
    RowsInConcat(Staying(front, u), [HeapRow(h.id, After(h.row, u))]);
    assert RowsIn([HeapRow(h.id, After(h.row, u))]) == [After(h.row, u)];
    assert RowsIn(Staying(front, u)) + [] == RowsIn(Staying(front, u));
  }

  // ---------- Counting the rows picked ----------

  lemma {:induction false} NonePickedStay(log: Log, u: Change)
    requires Picked(log, u.p) == 0
    ensures forall i :: 0 <= i < |log| ==> !u.p(log[i].row)
    ensures Staying(log, u) == log && Moving(log, u) == []
  {
    hide Picked, Staying, Moving, After, Moves;
    if log == [] {
      NoneStays(u);
    } else {
      var n := |log| - 1;
      assert log[..n + 1] == log && log[..n] + [log[n]] == log;
      OneMorePicked(log, n, u.p);
      OneMoreStaying(log, n, u);
      NonePickedStay(log[..n], u);
      LeftAlone(log[n], u);
    }
  }

  lemma NoneStays(u: Change)
    ensures Staying([], u) == [] && Moving([], u) == []
  {}

  lemma LeftAlone(h: HeapRow, u: Change)
    requires !u.p(h.row)
    ensures !Moves(h.row, u) && HeapRow(h.id, After(h.row, u)) == h
  {
    hide Changed, TableHeap.Fits;
  }

  lemma {:induction false} PickedGrows(log: Log, k: nat, p: Row -> bool)
    requires k <= |log|
    ensures Picked(log[..k], p) <= Picked(log, p)
    decreases |log|
  {
    if k < |log| {
      PickedGrows(log[..|log| - 1], k, p);
      assert log[..|log| - 1][..k] == log[..k];
    } else {
      assert log[..k] == log;
    }
  }

  lemma PickedAt(log: Log, k: nat, p: Row -> bool)
    requires k < |log| && p(log[k].row)
    ensures Picked(log[..k], p) + 1 <= Picked(log, p)
  {
    OneMorePicked(log, k, p);
    PickedGrows(log, k + 1, p);
  }

  // If only one row is picked, it is this one.
  lemma OnlyPicked(log: Log, k: nat, p: Row -> bool, i: nat)
    requires k < |log| && p(log[k].row) && Picked(log, p) == 1
    requires i < |log| && i != k
    ensures !p(log[i].row)
  {
    if i < k {
      TwoPicked(log, i, k, p);
    } else {
      TwoPicked(log, k, i, p);
    }
  }

  lemma TwoPicked(log: Log, i: nat, k: nat, p: Row -> bool)
    requires i < k < |log|
    ensures p(log[i].row) && p(log[k].row) ==> Picked(log, p) >= 2
  {
    hide Picked, Rejected;
    if p(log[i].row) && p(log[k].row) {
      var front := log[..k];
      assert front[i] == log[i];
      PickedAt(front, i, p);
      PickedAt(log, k, p);
    }
  }

  // A row that is not picked holds the new value already.
  ghost predicate OthersHold(log: Log, u: Change) {
    exists i :: 0 <= i < |log| && !u.p(log[i].row) && Equal(Cell(log[i].row, u.col), u.v)
  }

  ghost predicate Holds(log: Log, col: nat, v: Value) {
    exists i :: 0 <= i < |log| && Equal(Cell(log[i].row, col), v)
  }

  lemma RestAt(log: Log, k: nat, j: nat)
    requires k < |log| && j < |log| - 1
    ensures (log[..k] + log[k + 1..])[j] == log[if j < k then j else j + 1]
  {}

  lemma OthersThere(log: Log, k: nat, u: Change)
    requires k < |log| && u.p(log[k].row) && OthersHold(log, u)
    ensures Holds(log[..k] + log[k + 1..], u.col, u.v)
  {
    hide Equal, Cell;
    var i :| 0 <= i < |log| && !u.p(log[i].row) && Equal(Cell(log[i].row, u.col), u.v);
    RestAt(log, k, if i < k then i else i - 1);
  }

  lemma OthersBack(log: Log, k: nat, u: Change)
    requires k < |log| && u.p(log[k].row) && Picked(log, u.p) == 1 && Holds(log[..k] + log[k + 1..], u.col, u.v)
    ensures OthersHold(log, u)
  {
    hide Picked, Equal, Cell;
    var rest := log[..k] + log[k + 1..];
    var j :| 0 <= j < |rest| && Equal(Cell(rest[j].row, u.col), u.v);
    RestAt(log, k, j);
    OnlyPicked(log, k, u.p, if j < k then j else j + 1);
  }

  // The rows other than the k-th, when it is the first to be picked.
  lemma OthersInRest(log: Log, k: nat, u: Change)
    requires k < |log| && u.p(log[k].row)
    ensures OthersHold(log, u) ==> Holds(log[..k] + log[k + 1..], u.col, u.v)
    ensures Picked(log, u.p) == 1 && Holds(log[..k] + log[k + 1..], u.col, u.v) ==> OthersHold(log, u)
  {
    hide Picked, OthersHold, Holds;
    if OthersHold(log, u) {
      OthersThere(log, k, u);
    }
    if Picked(log, u.p) == 1 && Holds(log[..k] + log[k + 1..], u.col, u.v) {
      OthersBack(log, k, u);
    }
  }

  lemma HoldsConcat(a: Log, b: Log, col: nat, v: Value)
    ensures Holds(a + b, col, v) <==> Holds(a, col, v) || Holds(b, col, v)
  {
    hide Equal, Cell;
    if i :| 0 <= i < |a| && Equal(Cell(a[i].row, col), v) {
      assert (a + b)[i] == a[i];
    }
    if i :| 0 <= i < |b| && Equal(Cell(b[i].row, col), v) {
      assert (a + b)[|a| + i] == b[i];
    }
    if i :| 0 <= i < |a + b| && Equal(Cell((a + b)[i].row, col), v) {
      assert (a + b)[i] == if i < |a| then a[i] else b[i - |a|];
    }
  }
}
