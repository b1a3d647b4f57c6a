// What a table heap stands for: the log of its live rows, page after page and slot after slot.
module TableLog {
  import opened Bytes
  import opened Results
  import opened Values
  import opened Serialization
  import opened SlottedPage
  import opened TreeSpec
  import PoolSpec

  datatype HeapRow = HeapRow(id: RowId, row: Row)

  type Log = seq<HeapRow>

  // ---------- Logs ----------

  ghost function Lookup(log: Log, id: RowId): Option<Row> {
    if log == [] then None
    else if log[0].id == id then Some(log[0].row)
    else Lookup(log[1..], id)
  }

  ghost function Without(log: Log, id: RowId): Log {
    if log == [] then []
    else if log[0].id == id then Without(log[1..], id)
    else [log[0]] + Without(log[1..], id)
  }

  // The row under id is replaced, where it stands.
  ghost function Replace(log: Log, id: RowId, row: Row): Log {
    if log == [] then []
    else [if log[0].id == id then HeapRow(id, row) else log[0]] + Replace(log[1..], id, row)
  }

  // No two entries of a log share an id.
  ghost predicate Unique(log: Log) {
    forall i, j :: 0 <= i < j < |log| ==> log[i].id != log[j].id
  }

  lemma {:induction false} LookupConcat(a: Log, b: Log, id: RowId)
    ensures Lookup(a + b, id) == if Lookup(a, id).Some? then Lookup(a, id) else Lookup(b, id)
  {
    if a == [] {
      assert a + b == b;
    } else {
      assert (a + b)[1..] == a[1..] + b;
      LookupConcat(a[1..], b, id);
    }
  }

  lemma {:induction false} WithoutConcat(a: Log, b: Log, id: RowId)
    ensures Without(a + b, id) == Without(a, id) + Without(b, id)
  {
    if a == [] {
      assert a + b == b;
    } else {
      assert (a + b)[1..] == a[1..] + b;
      WithoutConcat(a[1..], b, id);
    }
  }

  lemma {:induction false} ReplaceConcat(a: Log, b: Log, id: RowId, row: Row)
    ensures Replace(a + b, id, row) == Replace(a, id, row) + Replace(b, id, row)
  {
    if a == [] {
      assert a + b == b;
    } else {
      assert (a + b)[1..] == a[1..] + b;
      ReplaceConcat(a[1..], b, id, row);
    }
  }

  lemma {:induction false} LookupIn(log: Log, id: RowId)
    ensures Lookup(log, id).Some? ==> HeapRow(id, Lookup(log, id).value) in log
    ensures Lookup(log, id).None? ==> forall i :: 0 <= i < |log| ==> log[i].id != id
  {
    if log != [] && log[0].id != id {
      LookupIn(log[1..], id);
    }
  }

  lemma {:induction false} NotThere(log: Log, id: RowId, row: Row)
    requires Lookup(log, id) == None
    ensures Without(log, id) == log && Replace(log, id, row) == log
  {
    if log != [] {
      NotThere(log[1..], id, row);
    }
  }

  // An entry in the middle of a log, found by its id.
  lemma Middle(a: Log, h: HeapRow, b: Log, row: Row)
    requires Unique(a + [h] + b)
    ensures Lookup(a + [h] + b, h.id) == Some(h.row)
    ensures Without(a + [h] + b, h.id) == a + b
    ensures Replace(a + [h] + b, h.id, row) == a + [HeapRow(h.id, row)] + b
  {
    hide Unique, Lookup, Without, Replace;
    var rest := [h] + b;
    assert a + [h] + b == a + rest;
    OnlyThere(a, h, b);
    NotThere(a, h.id, row);
    NotThere(b, h.id, row);
    LookupConcat(a, rest, h.id);
    WithoutConcat(a, rest, h.id);
    ReplaceConcat(a, rest, h.id, row);
    AtHead(h, b, row);
    assert a + [HeapRow(h.id, row)] + b == a + ([HeapRow(h.id, row)] + b);
  }

  lemma OnlyThere(a: Log, h: HeapRow, b: Log)
    requires Unique(a + [h] + b)
    ensures Lookup(a, h.id) == None && Lookup(b, h.id) == None
  {
    hide Lookup;
    var log := a + [h] + b;
    assert log[|a|] == h;
    assert forall i :: 0 <= i < |a| ==> a[i] == log[i];
    assert forall i :: 0 <= i < |b| ==> b[i] == log[|a| + 1 + i];
    LookupIn(a, h.id);
    LookupIn(b, h.id);
  }

  lemma AtHead(h: HeapRow, b: Log, row: Row)
    ensures Lookup([h] + b, h.id) == Some(h.row)
    ensures Without([h] + b, h.id) == Without(b, h.id)
    ensures Replace([h] + b, h.id, row) == [HeapRow(h.id, row)] + Replace(b, h.id, row)
  {
    assert ([h] + b)[1..] == b;
  }

  // ---------- Choosing rows ----------

  // How many rows a predicate picks, and the rows it leaves.
  ghost function Picked(log: Log, p: Row -> bool): nat {
    if log == [] then 0
    else Picked(log[..|log| - 1], p) + if p(log[|log| - 1].row) then 1 else 0
  }

  ghost function Rejected(log: Log, p: Row -> bool): Log {
    if log == [] then []
    else Rejected(log[..|log| - 1], p) + if p(log[|log| - 1].row) then [] else [log[|log| - 1]]
  }

  lemma OneMorePicked(log: Log, k: nat, p: Row -> bool)
    requires k < |log|
    ensures Picked(log[..k + 1], p) == Picked(log[..k], p) + if p(log[k].row) then 1 else 0
    ensures Rejected(log[..k + 1], p) == Rejected(log[..k], p) + if p(log[k].row) then [] else [log[k]]
    ensures log[k..] == [log[k]] + log[k + 1..]
  {
    assert log[..k + 1][..k] == log[..k];
  }

  // ---------- The rows of a page ----------

  ghost function RowOf(record: seq<Byte>): Row {
    if DecodeRow(record).Ok? then DecodeRow(record).value else []
  }

  ghost function SlotRow(page: PageId, slot: U16, record: Option<seq<Byte>>): Log {
    if record.None? then [] else [HeapRow(RowId(page, slot), RowOf(record.value))]
  }

  ghost function PageRows(page: PageId, records: seq<Option<seq<Byte>>>): Log
    requires |records| <= MAX_U16 + 1
  {
    if records == [] then []
    else
      var last := |records| - 1;
      PageRows(page, records[..last]) + SlotRow(page, last, records[last])
  }

  ghost function RecordAt(records: seq<Option<seq<Byte>>>, slot: nat): Option<Row> {
    if slot < |records| && records[slot].Some? then Some(RowOf(records[slot].value)) else None
  }

  lemma {:induction false} PageLookup(page: PageId, records: seq<Option<seq<Byte>>>, id: RowId)
    requires |records| <= MAX_U16 + 1
    ensures Lookup(PageRows(page, records), id) == if id.page == page then RecordAt(records, id.slot) else None
  {
    hide RowOf;
    if records != [] {
      var last := |records| - 1;
      PageLookup(page, records[..last], id);
      LookupConcat(PageRows(page, records[..last]), SlotRow(page, last, records[last]), id);
    }
  }

  lemma SlotChanged(page: PageId, slot: U16, record: Option<seq<Byte>>, id: RowId, row: Row)
    ensures id == RowId(page, slot) ==>
      && Without(SlotRow(page, slot, record), id) == []
      && (record.Some? ==> Replace(SlotRow(page, slot, record), id, row) == [HeapRow(id, row)])
    ensures id != RowId(page, slot) ==>
      && Without(SlotRow(page, slot, record), id) == SlotRow(page, slot, record)
      && Replace(SlotRow(page, slot, record), id, row) == SlotRow(page, slot, record)
  {
    hide RowOf;
  }

  lemma SlotNow(page: PageId, slot: U16, record: Option<seq<Byte>>)
    ensures SlotRow(page, slot, record) == if record.None? then [] else [HeapRow(RowId(page, slot), RowOf(record.value))]
  {}

  lemma PageRowsSnoc(page: PageId, front: seq<Option<seq<Byte>>>, last: Option<seq<Byte>>)
    requires |front| <= MAX_U16
    ensures PageRows(page, front + [last]) == PageRows(page, front) + SlotRow(page, |front|, last)
  {
    hide SlotRow;
    assert (front + [last])[..|front|] == front;
  }

  lemma {:induction false} PageDelete(page: PageId, records: seq<Option<seq<Byte>>>, slot: U16)
    requires slot < |records| <= MAX_U16 + 1
    ensures PageRows(page, records[slot := None]) == Without(PageRows(page, records), RowId(page, slot))
  {
    hide RowOf, SlotRow, PageRows, Without, Replace;
    var last, id := |records| - 1, RowId(page, slot);
    var front := records[..last];
    var s := SlotRow(page, last, records[last]);
    assert records == front + [records[last]];
    PageRowsSnoc(page, front, records[last]);
    WithoutConcat(PageRows(page, front), s, id);
    SlotChanged(page, last, records[last], id, []);
    if slot == last {
      assert records[slot := None] == front + [None];
      PageRowsSnoc(page, front, None);
      PageLookup(page, front, id);
      NotThere(PageRows(page, front), id, []);
      SlotNow(page, last, None);
    } else {
      assert records[slot := None] == front[slot := None] + [records[last]];
      PageRowsSnoc(page, front[slot := None], records[last]);
      PageDelete(page, front, slot);
    }
  }

  lemma {:induction false} PageUpdate(page: PageId, records: seq<Option<seq<Byte>>>, slot: U16, record: seq<Byte>)
    requires slot < |records| <= MAX_U16 + 1 && records[slot].Some?
    ensures PageRows(page, records[slot := Some(record)]) == Replace(PageRows(page, records), RowId(page, slot), RowOf(record))
  {
    hide RowOf, SlotRow, PageRows, Without, Replace;
    var last, id := |records| - 1, RowId(page, slot);
    var front := records[..last];
    var s := SlotRow(page, last, records[last]);
    assert records == front + [records[last]];
    PageRowsSnoc(page, front, records[last]);
    ReplaceConcat(PageRows(page, front), s, id, RowOf(record));
    SlotChanged(page, last, records[last], id, RowOf(record));
    if slot == last {
      assert records[slot := Some(record)] == front + [Some(record)];
      PageRowsSnoc(page, front, Some(record));
      PageLookup(page, front, id);
      NotThere(PageRows(page, front), id, RowOf(record));
      SlotNow(page, last, Some(record));
    } else {
      assert records[slot := Some(record)] == front[slot := Some(record)] + [records[last]];
      PageRowsSnoc(page, front[slot := Some(record)], records[last]);
      PageUpdate(page, front, slot, record);
    }
  }

  // ---------- The rows of a heap ----------

  // The records of a page of the view; none when it is not a page of records.
  ghost function RecordsOf(view: seq<Page>, page: PageId): (r: seq<Option<seq<Byte>>>)
    ensures |r| <= MAX_U16
  {
    if page < |view| && ValidPage(view[page]) then Records(view[page]) else []
  }

  ghost predicate Decodable(records: seq<Option<seq<Byte>>>) {
    forall i :: 0 <= i < |records| && records[i].Some? ==> DecodeRow(records[i].value).Ok?
  }

  ghost predicate PageOk(view: seq<Page>, page: PageId) {
    page < |view| && ValidPage(view[page]) && Decodable(Records(view[page]))
  }

  ghost predicate Distinct(pages: seq<PoolSpec.PageId>) {
    forall i, j :: 0 <= i < j < |pages| ==> pages[i] != pages[j]
  }

  ghost predicate HeapOk(view: seq<Page>, pages: seq<PoolSpec.PageId>) {
    Distinct(pages) && forall i :: 0 <= i < |pages| ==> PageOk(view, pages[i])
  }

  // The live rows in scan order.
  ghost function Rows(view: seq<Page>, pages: seq<PoolSpec.PageId>): Log {
    if pages == [] then []
    else
      var last := |pages| - 1;
      Rows(view, pages[..last]) + PageRows(pages[last], RecordsOf(view, pages[last]))
  }

  lemma {:induction false} RowsConcat(view: seq<Page>, a: seq<PoolSpec.PageId>, b: seq<PoolSpec.PageId>)
    ensures Rows(view, a + b) == Rows(view, a) + Rows(view, b)
  {
    hide PageRows, RecordsOf;
    if b == [] {
      assert a + b == a;
    } else {
      var last := |b| - 1;
      RowsConcat(view, a, b[..last]);
      assert (a + b)[..|a + b| - 1] == a + b[..last];
      Seqs.Assoc(Rows(view, a), Rows(view, b[..last]), PageRows(b[last], RecordsOf(view, b[last])));
    }
  }

  // Ids that have been given out, whether or not their row still lives.
  ghost predicate Given(view: seq<Page>, pages: seq<PoolSpec.PageId>, id: RowId) {
    id.page in pages && id.slot < |RecordsOf(view, id.page)|
  }

  ghost function PageSet(pages: seq<PoolSpec.PageId>): set<PageId> {
    set i {:trigger pages[i]} | 0 <= i < |pages| :: pages[i]
  }

  lemma {:induction false} RowsLookup(view: seq<Page>, pages: seq<PoolSpec.PageId>, id: RowId)
    ensures Lookup(Rows(view, pages), id) == if id.page in pages then RecordAt(RecordsOf(view, id.page), id.slot) else None
  {
    hide RecordsOf, PageRows, RecordAt;
    if pages != [] {
      var last := |pages| - 1;
      RowsLookup(view, pages[..last], id);
      PageLookup(pages[last], RecordsOf(view, pages[last]), id);
      LookupConcat(Rows(view, pages[..last]), PageRows(pages[last], RecordsOf(view, pages[last])), id);
      assert pages == pages[..last] + [pages[last]];
    }
  }

  lemma {:induction false} RowsFrame(v: seq<Page>, w: seq<Page>, pages: seq<PoolSpec.PageId>)
    requires forall i :: 0 <= i < |pages| ==> RecordsOf(v, pages[i]) == RecordsOf(w, pages[i])
    ensures Rows(v, pages) == Rows(w, pages)
  {
    hide RecordsOf, PageRows;
    if pages != [] {
      RowsFrame(v, w, pages[..|pages| - 1]);
    }
  }

  // Page `page` of the heap now holds `records`, and no other page of the heap has changed.
  ghost predicate PageChanged(v: seq<Page>, w: seq<Page>, pages: seq<PoolSpec.PageId>, page: PageId, records: seq<Option<seq<Byte>>>) {
    && page in pages && RecordsOf(w, page) == records
    && forall i :: 0 <= i < |pages| && pages[i] != page ==> RecordsOf(w, pages[i]) == RecordsOf(v, pages[i])
  }

  lemma {:induction false} RowsDelete(v: seq<Page>, w: seq<Page>, pages: seq<PoolSpec.PageId>, id: RowId)
    requires Distinct(pages) && id.page in pages && id.slot < |RecordsOf(v, id.page)|
    requires PageChanged(v, w, pages, id.page, RecordsOf(v, id.page)[id.slot := None])
    ensures Rows(w, pages) == Without(Rows(v, pages), id)
  {
    hide RecordsOf, PageRows, RecordAt;
    var last := |pages| - 1;
    var front, page := pages[..last], pages[last];
    assert pages == front + [page];
    WithoutConcat(Rows(v, front), PageRows(page, RecordsOf(v, page)), id);
    if page == id.page {
      RowsFrame(v, w, front);
      RowsLookup(v, front, id);
      NotThere(Rows(v, front), id, []);
      PageDelete(page, RecordsOf(v, page), id.slot);
    } else {
      RowsDelete(v, w, front, id);
      PageLookup(page, RecordsOf(v, page), id);
      NotThere(PageRows(page, RecordsOf(v, page)), id, []);
    }
  }

  lemma {:induction false} RowsUpdate(v: seq<Page>, w: seq<Page>, pages: seq<PoolSpec.PageId>, id: RowId, record: seq<Byte>)
    requires Distinct(pages) && id.page in pages && id.slot < |RecordsOf(v, id.page)| && RecordsOf(v, id.page)[id.slot].Some?
    requires PageChanged(v, w, pages, id.page, RecordsOf(v, id.page)[id.slot := Some(record)])
    ensures Rows(w, pages) == Replace(Rows(v, pages), id, RowOf(record))
  {
    hide RecordsOf, PageRows, RecordAt, RowOf;
    var last := |pages| - 1;
    var front, page := pages[..last], pages[last];
    assert pages == front + [page];
    ReplaceConcat(Rows(v, front), PageRows(page, RecordsOf(v, page)), id, RowOf(record));
    if page == id.page {
      RowsFrame(v, w, front);
      RowsLookup(v, front, id);
      NotThere(Rows(v, front), id, RowOf(record));
      PageUpdate(page, RecordsOf(v, page), id.slot, record);
    } else {
      RowsUpdate(v, w, front, id, record);
      PageLookup(page, RecordsOf(v, page), id);
      NotThere(PageRows(page, RecordsOf(v, page)), id, RowOf(record));
    }
  }

  lemma RowsAppend(v: seq<Page>, w: seq<Page>, pages: seq<PoolSpec.PageId>, record: seq<Byte>)
    requires Distinct(pages) && pages != []
    requires var last := pages[|pages| - 1];
      PageChanged(v, w, pages, last, RecordsOf(v, last) + [Some(record)])
    ensures var last := pages[|pages| - 1];
      && |RecordsOf(v, last)| < MAX_U16
      && Rows(w, pages) == Rows(v, pages) + [HeapRow(RowId(last, |RecordsOf(v, last)|), RowOf(record))]
  {
    hide RecordsOf, RowOf;
    var n := |pages| - 1;
    var front, last := pages[..n], pages[n];
    RowsFrame(v, w, front);
    var records := RecordsOf(v, last);
    assert |RecordsOf(w, last)| == |records| + 1;
    assert (records + [Some(record)])[..|records|] == records;
    assert PageRows(last, records + [Some(record)]) == PageRows(last, records) + SlotRow(last, |records|, Some(record));
  }

  lemma RowsGrow(v: seq<Page>, w: seq<Page>, pages: seq<PoolSpec.PageId>, page: PoolSpec.PageId, record: seq<Byte>)
    requires forall i :: 0 <= i < |pages| ==> RecordsOf(v, pages[i]) == RecordsOf(w, pages[i])
    requires RecordsOf(w, page) == [Some(record)]
    ensures Rows(w, pages + [page]) == Rows(v, pages) + [HeapRow(RowId(page, 0), RowOf(record))]
  {
    hide RecordsOf, RowOf;
    RowsFrame(v, w, pages);
    assert (pages + [page])[..|pages|] == pages;
    assert [Some(record)][..0] == [];
    assert PageRows(page, [Some(record)]) == PageRows(page, []) + SlotRow(page, 0, Some(record));
  }

  lemma {:induction false} PageRowsUnique(page: PageId, records: seq<Option<seq<Byte>>>)
    requires |records| <= MAX_U16 + 1
    ensures Unique(PageRows(page, records))
    ensures forall i :: 0 <= i < |PageRows(page, records)| ==>
      PageRows(page, records)[i].id.page == page && PageRows(page, records)[i].id.slot < |records|
  {
    hide RowOf;
    if records != [] {
      PageRowsUnique(page, records[..|records| - 1]);
    }
  }

  lemma {:induction false} RowsUnique(view: seq<Page>, pages: seq<PoolSpec.PageId>)
    requires Distinct(pages)
    ensures Unique(Rows(view, pages))
    ensures forall i :: 0 <= i < |Rows(view, pages)| ==> Rows(view, pages)[i].id.page in pages
  {
    hide RecordsOf, PageRows, Unique;
    if pages == [] {
      NoneTwice();
    } else {
      var last := |pages| - 1;
      RowsUnique(view, pages[..last]);
      PageRowsUnique(pages[last], RecordsOf(view, pages[last]));
      OtherPages(pages);
      UniqueTwo(Rows(view, pages[..last]), PageRows(pages[last], RecordsOf(view, pages[last])), pages[last]);
    }
  }

  lemma NoneTwice()
    ensures Unique([])
  {}

  lemma OtherPages(pages: seq<PoolSpec.PageId>)
    requires Distinct(pages) && pages != []
    ensures pages[|pages| - 1] !in pages[..|pages| - 1] && Distinct(pages[..|pages| - 1])
    ensures forall p: PageId :: p in pages[..|pages| - 1] ==> p in pages
  {}

  // Rows of other pages, and rows of one page behind them.
  lemma UniqueTwo(a: Log, b: Log, page: PageId)
    requires Unique(a) && Unique(b)
    requires forall i :: 0 <= i < |a| ==> a[i].id.page != page
    requires forall i :: 0 <= i < |b| ==> b[i].id.page == page
    ensures Unique(a + b)
  {}
}
