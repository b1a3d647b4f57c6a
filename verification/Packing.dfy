// How rows that are added to a heap one after the other fill its last page and then new ones.
module Packing {
  import opened Values
  import opened TableLog
  import opened Updates
  import TableHeap
  import PoolSpec
  import Bytes
  import Seqs
  import SlottedPage

  // So many pages added, so many of the rows still in the old last page, so much room left in the page in use.
  datatype Packing = Packing(added: nat, kept: nat, room: int)

  ghost function Packed(p: Packing, row: Row): Packing {
    var size := TableHeap.SpaceFor(row);
    if size > p.room then Packing(p.added + 1, p.kept, TableHeap.EMPTY_SPACE - size)
    else Packing(p.added, if p.added == 0 then p.kept + 1 else p.kept, p.room - size)
  }

  ghost function Pack(rows: seq<Row>, room: int): (p: Packing)
    ensures p.kept <= |rows| && (p.added == 0 <==> p.kept == |rows|)
  {
    if rows == [] then Packing(0, 0, room) else Packed(Pack(rows[..|rows| - 1], room), rows[|rows| - 1])
  }

  ghost function Space(rows: seq<Row>): nat {
    if rows == [] then 0 else Space(rows[..|rows| - 1]) + TableHeap.SpaceFor(rows[|rows| - 1])
  }

  lemma PackMore(rows: seq<Row>, row: Row, room: int)
    ensures Pack(rows + [row], room) == Packed(Pack(rows, room), row)
  {
    assert (rows + [row])[..|rows|] == rows;
  }

  // The rows that stay in the old pages are the longest start of them that its room holds; while all do, they use it up.
  lemma {:induction false} KeptIs(rows: seq<Row>, room: int, m: nat)
    requires room >= 0 && m <= |rows|
    ensures m <= Pack(rows, room).kept <==> Space(rows[..m]) <= room
    ensures Pack(rows, room).added == 0 ==> Pack(rows, room).room == room - Space(rows)
    decreases |rows|
  {
    if rows == [] {
      assert rows[..m] == [];
    } else {
      var front := rows[..|rows| - 1];
      KeptIs(front, room, if m < |rows| then m else |front|);
      assert front[..|front|] == front && rows[..|rows|] == rows;
      if m < |rows| {
        assert rows[..m] == front[..m];
        KeptIs(front, room, |front|);
      }
    }
  }

  // No page is added exactly when the rows fit into the room there is.
  lemma NoneAdded(rows: seq<Row>, room: int)
    requires room >= 0
    ensures Pack(rows, room).added == 0 <==> Space(rows) <= room
  {
    KeptIs(rows, room, |rows|);
    assert rows[..|rows|] == rows;
  }

  // ---------- What an update has moved so far ----------

  // Rows under ids never given before: the first of them in the old pages, the others in new ones.
  ghost predicate Spread(view: seq<Bytes.Page>, pages: seq<PoolSpec.PageId>, v: seq<Bytes.Page>, more: seq<PoolSpec.PageId>, tail: Log) {
    var p := Pack(RowsIn(tail), TableHeap.Room(view, pages));
    && |view| <= |v| && pages <= more && |more| == |pages| + p.added && TableHeap.Room(v, more) == p.room
    && (forall id :: Given(view, pages, id) ==> Given(v, more, id))
    && (forall i :: 0 <= i < |tail| ==> !Given(view, pages, tail[i].id))
    && (forall i :: 0 <= i < p.kept ==> tail[i].id.page in pages)
    && (forall i :: p.kept <= i < |tail| ==> tail[i].id.page >= |view|)
    && (forall i :: |pages| <= i < |more| ==> more[i] >= |view|)
  }

  lemma SpreadStart(view: seq<Bytes.Page>, pages: seq<PoolSpec.PageId>)
    ensures Spread(view, pages, view, pages, [])
  {
    hide Given, TableHeap.Room;
    assert RowsIn([]) == [];
  }

  lemma SpreadInPlace(view: seq<Bytes.Page>, pages: seq<PoolSpec.PageId>, v: seq<Bytes.Page>, more: seq<PoolSpec.PageId>, tail: Log,
                      w: seq<Bytes.Page>, next: seq<PoolSpec.PageId>)
    requires Spread(view, pages, v, more, tail) && TableHeap.InPlace(v, more, w, next) && |v| <= |w|
    ensures Spread(view, pages, w, next, tail)
  {
    hide Given, TableHeap.Room, Pack;
  }

  lemma SpreadMore(view: seq<Bytes.Page>, pages: seq<PoolSpec.PageId>, v: seq<Bytes.Page>, more: seq<PoolSpec.PageId>, tail: Log,
                   w: seq<Bytes.Page>, next: seq<PoolSpec.PageId>, h: HeapRow)
    requires Spread(view, pages, v, more, tail) && TableHeap.AtEnd(v, more, w, next, h.row, h.id) && |v| <= |w|
    ensures Spread(view, pages, w, next, tail + [h])
  {
    hide Given, TableHeap.Room, TableHeap.SpaceFor, Pack;
    var room := TableHeap.Room(view, pages);
    RowsInConcat(tail, [h]);
    assert RowsIn([h]) == [h.row];
    PackMore(RowsIn(tail), h.row, room);
    var p, q := Pack(RowsIn(tail), room), Pack(RowsIn(tail + [h]), room);
    if q.added == 0 {
      assert more == pages;
    }
    forall i | 0 <= i < q.kept
      ensures (tail + [h])[i].id.page in pages
    {
      assert (tail + [h])[i] == if i < |tail| then tail[i] else h;
    }
    forall i | q.kept <= i < |tail + [h]|
      ensures (tail + [h])[i].id.page >= |view|
    {
      assert (tail + [h])[i] == if i < |tail| then tail[i] else h;
    }
  }

  // ---------- What the old list of pages still shows ----------

  // The rows in front of the first one beyond the limit.
  ghost function Leading(log: Log, limit: nat): Log {
    if log == [] || log[0].id.page >= limit then [] else [log[0]] + Leading(log[1..], limit)
  }

  lemma {:induction false} LeadingIs(a: Log, b: Log, limit: nat)
    requires forall i :: 0 <= i < |a| ==> a[i].id.page < limit
    requires forall i :: 0 <= i < |b| ==> b[i].id.page >= limit
    ensures Leading(a + b, limit) == a
  {
    if a == [] {
      assert a + b == b;
    } else {
      LeadingIs(a[1..], b, limit);
      assert (a + b)[1..] == a[1..] + b && a == [a[0]] + a[1..];
    }
  }

  lemma PagesBelow(view: seq<Bytes.Page>, pages: seq<PoolSpec.PageId>)
    requires HeapOk(view, pages)
    ensures forall id :: id in pages ==> id < |view|
  {
    hide SlottedPage.ValidPage, Decodable;
    forall id | id in pages
      ensures id < |view|
    {
      var i :| 0 <= i < |pages| && pages[i] == id;
      assert PageOk(view, pages[i]);
    }
  }

  // Read through the old list of pages, the heap shows the rows that were not moved and those moved within it; the
  // rows moved to new pages are lost to it.
  lemma StillRead(view: seq<Bytes.Page>, pages: seq<PoolSpec.PageId>, w: seq<Bytes.Page>, more: seq<PoolSpec.PageId>, a: Log, tail: Log)
    requires HeapOk(view, pages) && HeapOk(w, more) && Spread(view, pages, w, more, tail) && Rows(w, more) == a + tail
    requires forall i :: 0 <= i < |a| ==> a[i].id.page in pages
    ensures Rows(w, pages) == a + tail[..Pack(RowsIn(tail), TableHeap.Room(view, pages)).kept]
  {
    hide RecordsOf, PageOk, Rows, Pack, TableHeap.Room, Given;
    var kept, added := Pack(RowsIn(tail), TableHeap.Room(view, pages)).kept, more[|pages|..];
    PagesBelow(view, pages);
    assert more == pages + added;
    RowsConcat(w, pages, added);
    RowsUnique(w, pages);
    RowsUnique(w, added);
    LeadingIs(Rows(w, pages), Rows(w, added), |view|);
    assert tail == tail[..kept] + tail[kept..];
    Seqs.Assoc(a, tail[..kept], tail[kept..]);
    LeadingIs(a + tail[..kept], tail[kept..], |view|);
  }
}
