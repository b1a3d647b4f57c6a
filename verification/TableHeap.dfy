// A table's rows in slotted pages, reached through the buffer pool.
module TableHeap {
  import opened Bytes
  import opened Results
  import opened Values
  import opened Serialization
  import opened Views
  import opened TableLog
  import SlottedPage
  import TreeSpec
  import PoolSpec
  import BufferPool

  type PageId = PoolSpec.PageId
  type RowId = TreeSpec.RowId

  datatype HeapError = DiskFailure | CorruptPage | SerializationFailure(error: SerializationError) | RowTooLarge | InvalidRowId

  const EMPTY_SPACE: nat := PAGE_SIZE - SlottedPage.HEADER_SIZE

  // The row fits in an empty page.
  predicate Storable(row: Row) {
    RowFits(row) && |EncodeRow(row)| + SlottedPage.SLOT_SIZE <= EMPTY_SPACE
  }

  // Why an insertion of the row can fail; only the disk can refuse a row that is storable.
  function Refusal(row: Row): HeapError {
    if !RowFits(row) then SerializationFailure(InputTooLarge) else if !Storable(row) then RowTooLarge else DiskFailure
  }

  // The free space of the last page of the heap, the only page that an insertion tries.
  ghost function Room(view: seq<Page>, pages: seq<PageId>): int {
    if pages == [] || pages[|pages| - 1] >= |view| then 0 else SlottedPage.FreeSpace(view[pages[|pages| - 1]])
  }

  // What a row takes up: its record and a slot.
  function SpaceFor(row: Row): nat {
    |EncodeRow(row)| + SlottedPage.SLOT_SIZE
  }

  // The last page of the heap has no room for the row.
  ghost predicate NeedsPage(view: seq<Page>, pages: seq<PageId>, row: Row) {
    SpaceFor(row) > Room(view, pages)
  }

  // The row has gone to the end of the heap, under a new id: into the last page if that has room, else into a page
  // of its own.
  ghost predicate AtEnd(v: seq<Page>, pages: seq<PageId>, w: seq<Page>, next: seq<PageId>, row: Row, id: RowId) {
    && !Given(v, pages, id) && id.page <= 0xFFFF_FFFF
    && (forall other :: Given(w, next, other) <==> Given(v, pages, other) || other == id)
    && next == pages + (if NeedsPage(v, pages, row) then [|v|] else [])
    && next != [] && id.page == next[|next| - 1]
    && Room(w, next) == (if NeedsPage(v, pages, row) then EMPTY_SPACE else Room(v, pages)) - SpaceFor(row)
  }

  // The heap holds the row behind those it held, and no page outside the heap has been touched.
  ghost predicate RowAdded(v: seq<Page>, pages: seq<PageId>, w: seq<Page>, next: seq<PageId>, row: Row, id: RowId) {
    && HeapOk(w, next) && Rows(w, next) == Rows(v, pages) + [HeapRow(id, row)]
    && AtEnd(v, pages, w, next, row, id)
    && |w| == |v| + |next| - |pages| && Untouched(v, w, PageSet(pages))
  }

  // Nothing has been added to the heap and no id has been given out.
  ghost predicate InPlace(v: seq<Page>, pages: seq<PageId>, w: seq<Page>, next: seq<PageId>) {
    && next == pages && Room(w, next) == Room(v, pages)
    && forall id :: Given(w, next, id) <==> Given(v, pages, id)
  }

  lemma RoomKept(view: seq<Page>, pages: seq<PageId>, page: TreeSpec.PageId, image: Page)
    requires page < |view| && SlottedPage.FreeSpace(image) == SlottedPage.FreeSpace(view[page])
    ensures Room(view[page := image], pages) == Room(view, pages)
  {}

  // ---------- One page of the heap rewritten, or one page added ----------

  lemma PageFacts(view: seq<Page>, pages: seq<PageId>, page: TreeSpec.PageId)
    requires HeapOk(view, pages) && page in pages
    ensures page < |view| && page <= 0xFFFF_FFFF && SlottedPage.ValidPage(view[page])
    ensures RecordsOf(view, page) == SlottedPage.Records(view[page]) && Decodable(RecordsOf(view, page))
  {
    hide Decodable, SlottedPage.ValidPage;
    var i :| 0 <= i < |pages| && pages[i] == page;
    assert PageOk(view, pages[i]);
  }

  lemma Rewritten(v: seq<Page>, pages: seq<PageId>, page: TreeSpec.PageId, image: Page)
    requires HeapOk(v, pages) && page in pages && page < |v|
    requires SlottedPage.ValidPage(image) && Decodable(SlottedPage.Records(image))
    ensures var w := v[page := image];
      && HeapOk(w, pages) && PageChanged(v, w, pages, page, SlottedPage.Records(image))
      && Untouched(v, w, PageSet(pages))
  {
    hide SlottedPage.ValidPage, SlottedPage.Records, Decodable;
    var w := v[page := image];
    forall i | 0 <= i < |pages|
      ensures PageOk(w, pages[i])
      ensures pages[i] != page ==> RecordsOf(w, pages[i]) == RecordsOf(v, pages[i])
    {
      assert PageOk(v, pages[i]);
    }
    assert page in PageSet(pages);
  }

  lemma Grown(v: seq<Page>, pages: seq<PageId>, page: PageId, image: Page)
    requires HeapOk(v, pages) && page == |v|
    requires SlottedPage.ValidPage(image) && Decodable(SlottedPage.Records(image))
    ensures var w := v + [image];
      && HeapOk(w, pages + [page]) && Untouched(v, w, PageSet(pages))
      && RecordsOf(w, page) == SlottedPage.Records(image)
      && forall i :: 0 <= i < |pages| ==> RecordsOf(w, pages[i]) == RecordsOf(v, pages[i])
  {
    hide SlottedPage.ValidPage, SlottedPage.Records, Decodable;
    var w, all := v + [image], pages + [page];
    forall i | 0 <= i < |pages|
      ensures pages[i] != page && PageOk(w, pages[i]) && RecordsOf(w, pages[i]) == RecordsOf(v, pages[i])
    {
      assert PageOk(v, pages[i]);
    }
    assert PageOk(w, page);
  }

  // The encoding of a row is a live record, and the row can be had back from it.
  lemma RecordOfRow(row: Row)
    requires RowFits(row)
    ensures SlottedPage.Kept(EncodeRow(row)) == Some(EncodeRow(row)) && RowOf(EncodeRow(row)) == row
    ensures DecodeRow(EncodeRow(row)) == Ok(row)
  {
    RowRoundTrip(row);
  }

  // A stored record is the encoding of the row read from it.
  lemma RowOfRecord(record: seq<Byte>)
    requires DecodeRow(record).Ok?
    ensures RowFits(RowOf(record)) && EncodeRow(RowOf(record)) == record
  {
    RowCanonical(record);
  }

  lemma Appended(v: seq<Page>, pages: seq<PageId>, image: Page, row: Row)
    requires HeapOk(v, pages) && pages != [] && RowFits(row) && SlottedPage.ValidPage(image)
    requires SlottedPage.Records(image) == RecordsOf(v, pages[|pages| - 1]) + [Some(EncodeRow(row))]
    ensures pages[|pages| - 1] < |v| && |RecordsOf(v, pages[|pages| - 1])| < MAX_U16
    ensures var last := pages[|pages| - 1];
      var w, id := v[last := image], TreeSpec.RowId(last, |RecordsOf(v, last)|);
      && HeapOk(w, pages) && Untouched(v, w, PageSet(pages))
      && Rows(w, pages) == Rows(v, pages) + [HeapRow(id, row)]
      && !Given(v, pages, id)
      && forall other :: Given(w, pages, other) <==> Given(v, pages, other) || other == id
  {
    hide SlottedPage.ValidPage, SlottedPage.Records, RecordsOf, EncodeRow, HeapOk, Untouched, Rows, Decodable, PageSet;
    var last := pages[|pages| - 1];
    PageFacts(v, pages, last);
    RecordOfRow(row);
    DecodableMore(RecordsOf(v, last), EncodeRow(row));
    Rewritten(v, pages, last, image);
    HeapDistinct(v, pages);
    RowsAppend(v, v[last := image], pages, EncodeRow(row));
  }

  lemma AddedInLast(v: seq<Page>, pages: seq<PageId>, image: Page, row: Row)
    requires HeapOk(v, pages) && pages != [] && RowFits(row) && SlottedPage.ValidPage(image) && pages[|pages| - 1] < |v|
    requires SlottedPage.Records(image) == RecordsOf(v, pages[|pages| - 1]) + [Some(EncodeRow(row))]
    requires SlottedPage.FreeSpace(image) == Room(v, pages) - SpaceFor(row) && !NeedsPage(v, pages, row)
    ensures var last := pages[|pages| - 1];
      RowAdded(v, pages, v[last := image], pages, row, TreeSpec.RowId(last, |RecordsOf(v, last)|))
  {
    hide SlottedPage.ValidPage, SlottedPage.Records, SlottedPage.FreeSpace, RecordsOf, EncodeRow, HeapOk, Untouched, Rows, PageSet, Given;
    Appended(v, pages, image, row);
    PageFacts(v, pages, pages[|pages| - 1]);
  }

  lemma HeapDistinct(v: seq<Page>, pages: seq<PageId>)
    requires HeapOk(v, pages)
    ensures Distinct(pages)
  {}

  lemma DecodableMore(records: seq<Option<seq<Byte>>>, record: seq<Byte>)
    requires Decodable(records) && DecodeRow(record).Ok?
    ensures Decodable(records + [Some(record)]) && Decodable([Some(record)])
  {
    hide DecodeRow;
  }

  lemma AppendedInNew(v: seq<Page>, pages: seq<PageId>, page: PageId, image: Page, row: Row)
    requires HeapOk(v, pages) && page == |v| && RowFits(row) && SlottedPage.ValidPage(image)
    requires SlottedPage.Records(image) == [Some(EncodeRow(row))]
    ensures var w, id := v + [image], TreeSpec.RowId(page, 0);
      && HeapOk(w, pages + [page]) && Untouched(v, w, PageSet(pages))
      && Rows(w, pages + [page]) == Rows(v, pages) + [HeapRow(id, row)]
      && !Given(v, pages, id)
      && forall other :: Given(w, pages + [page], other) <==> Given(v, pages, other) || other == id
  {
    hide SlottedPage.ValidPage, SlottedPage.Records, RecordsOf, EncodeRow, HeapOk, Untouched, Rows, Decodable, PageSet;
    RecordOfRow(row);
    NotYet(v, pages, page);
    DecodableMore([], EncodeRow(row));
    assert [] + [Some(EncodeRow(row))] == [Some(EncodeRow(row))];
    Grown(v, pages, page, image);
    RowsGrow(v, v + [image], pages, page, EncodeRow(row));
    forall other
      ensures Given(v + [image], pages + [page], other) <==> Given(v, pages, other) || other == TreeSpec.RowId(page, 0)
    {
      if other.page in pages {
        var i :| 0 <= i < |pages| && pages[i] == other.page;
      }
    }
  }

  lemma AddedInNew(v: seq<Page>, pages: seq<PageId>, page: PageId, image: Page, row: Row)
    requires HeapOk(v, pages) && page == |v| && RowFits(row) && SlottedPage.ValidPage(image)
    requires SlottedPage.Records(image) == [Some(EncodeRow(row))]
    requires SlottedPage.FreeSpace(image) == EMPTY_SPACE - SpaceFor(row) && NeedsPage(v, pages, row)
    ensures RowAdded(v, pages, v + [image], pages + [page], row, TreeSpec.RowId(page, 0))
    ensures HeapOk(v + [image], pages + [page]) && Untouched(v, v + [image], PageSet(pages))
  {
    hide SlottedPage.ValidPage, SlottedPage.Records, SlottedPage.FreeSpace, EncodeRow, HeapOk, Untouched, Rows, PageSet, Given;
    AppendedInNew(v, pages, page, image, row);
  }

  lemma NotYet(v: seq<Page>, pages: seq<PageId>, page: PageId)
    requires HeapOk(v, pages) && page == |v|
    ensures page !in pages && Decodable([])
  {
    forall i | 0 <= i < |pages|
      ensures pages[i] != page
    {
      assert PageOk(v, pages[i]);
    }
  }

  // One slot of a page of the heap emptied or filled anew.
  lemma SlotRewritten(v: seq<Page>, pages: seq<PageId>, id: RowId, image: Page, record: Option<seq<Byte>>)
    requires HeapOk(v, pages) && id.page in pages && SlottedPage.ValidPage(image)
    requires id.slot < |RecordsOf(v, id.page)| && RecordsOf(v, id.page)[id.slot].Some?
    requires SlottedPage.Records(image) == RecordsOf(v, id.page)[id.slot := record]
    requires record.Some? ==> DecodeRow(record.value).Ok?
    ensures id.page < |v|
    ensures var w := v[id.page := image];
      && HeapOk(w, pages) && Untouched(v, w, PageSet(pages))
      && Rows(w, pages) ==
        (if record.None? then Without(Rows(v, pages), id) else Replace(Rows(v, pages), id, RowOf(record.value)))
      && forall other :: Given(w, pages, other) <==> Given(v, pages, other)
  {
    hide SlottedPage.ValidPage, SlottedPage.Records, RecordsOf, HeapOk, Untouched, Rows, PageSet, DecodeRow, RowOf;
    PageFacts(v, pages, id.page);
    HeapDistinct(v, pages);
    Rewritten(v, pages, id.page, image);
    var w := v[id.page := image];
    if record.None? {
      RowsDelete(v, w, pages, id);
    } else {
      RowsUpdate(v, w, pages, id, record.value);
    }
    forall other
      ensures Given(w, pages, other) <==> Given(v, pages, other)
    {
      if other.page in pages && other.page != id.page {
        var i :| 0 <= i < |pages| && pages[i] == other.page;
        assert RecordsOf(w, pages[i]) == RecordsOf(v, pages[i]);
      }
    }
  }

  // The length kept in a slot is the length of its row's encoding.
  lemma RecordFits(v: seq<Page>, pages: seq<PageId>, id: RowId, row: Row)
    requires HeapOk(v, pages) && id.page in pages
    requires id.slot < |RecordsOf(v, id.page)| && RecordsOf(v, id.page)[id.slot].Some?
    ensures Lookup(Rows(v, pages), id).Some?
    ensures Fits(row, Lookup(Rows(v, pages), id).value) <==> |EncodeRow(row)| <= |RecordsOf(v, id.page)[id.slot].value|
  {
    hide SlottedPage.ValidPage, RecordsOf, HeapOk, Rows, DecodeRow, EncodeRow;
    PageFacts(v, pages, id.page);
    RowsLookup(v, pages, id);
    RowOfRecord(RecordsOf(v, id.page)[id.slot].value);
  }

  lemma GivenLives(v: seq<Page>, pages: seq<PageId>, id: RowId)
    requires Lookup(Rows(v, pages), id).Some?
    ensures Given(v, pages, id)
  {
    hide RecordsOf, Rows;
    RowsLookup(v, pages, id);
  }

  lemma MovedAway(log: Log, id: RowId, newId: RowId, row: Row)
    requires Lookup(log, id).Some? && newId != id
    ensures Lookup(log + [HeapRow(newId, row)], id).Some?
    ensures Without(log + [HeapRow(newId, row)], id) == Without(log, id) + [HeapRow(newId, row)]
  {
    LookupConcat(log, [HeapRow(newId, row)], id);
    WithoutConcat(log, [HeapRow(newId, row)], id);
  }

  lemma PageSetSnoc(pages: seq<PageId>, id: PageId)
    ensures PageSet(pages + [id]) == PageSet(pages) + {id}
  {
    var more := pages + [id];
    assert forall i :: 0 <= i < |pages| ==> more[i] == pages[i];
    assert more[|pages|] == id;
    forall x | x in PageSet(pages)
      ensures x in PageSet(more)
    {
      var i :| 0 <= i < |pages| && pages[i] == x;
      assert more[i] == x;
    }
  }

  // Rewriting a page that was added in between does not count as touching an old one.
  lemma UntouchedBeyond(u: seq<Page>, v: seq<Page>, w: seq<Page>, pages: seq<PageId>, more: seq<PageId>)
    requires Untouched(u, v, PageSet(pages)) && Untouched(v, w, PageSet(more))
    requires more == pages || (|u| <= 0xFFFF_FFFF && more == pages + [|u|])
    ensures Untouched(u, w, PageSet(pages))
  {
    hide PageSet;
    if |u| <= 0xFFFF_FFFF {
      PageSetSnoc(pages, |u|);
    }
    forall id: nat | id < |u| && id !in PageSet(pages)
      ensures w[id] == u[id]
    {
      assert v[id] == u[id];
    }
  }

  class TableHeap {
    const pool: BufferPool.BufferPool
    var pageIds: seq<PageId>

    constructor (pool: BufferPool.BufferPool, pageIds: seq<PageId>)
      ensures this.pool == pool && this.pageIds == pageIds
    {
      this.pool := pool;
      this.pageIds := pageIds;
    }

    ghost predicate Valid()
      reads this, pool, pool.disk
    {
      pool.Idle() && HeapOk(pool.View(), pageIds)
    }

    // The live rows, oldest insertion first.
    ghost function Contents(): Log
      reads this, pool, pool.disk
    {
      Rows(pool.View(), pageIds)
    }

    method LoadPage(id: PageId) returns (r: Result<SlottedPage.SlottedPage, HeapError>)
      requires pool.Idle()
      modifies pool, pool.disk
      ensures pool.Idle() && pool.View() == old(pool.View())
      ensures pool.frames.Keys <= old(pool.frames.Keys) + {id}
      ensures r.Err? ==> r.error == if id < |pool.View()| then CorruptPage else DiskFailure
      ensures r.Ok? <==> id < |pool.View()| && SlottedPage.ValidPage(pool.View()[id])
      ensures r.Ok? ==> fresh(r.value) && fresh(r.value.bytes) && r.value.Valid() && r.value.Image() == pool.View()[id]
    {
      hide PoolSpec.Coherent, PoolSpec.View, PoolSpec.Fetch, SlottedPage.ValidPage, SlottedPage.Fault;
      var fetched := pool.FetchPage(id);
      if fetched.Err? {
        return Err(DiskFailure);
      }
      var guard := fetched.value;
      var bytes := guard.Content();
      guard.Release();
      assert multiset{} + multiset{(id, false)} - multiset{(id, false)} == multiset{};
      var loaded := SlottedPage.Load(bytes);
      match loaded {
        case Err(_) => return Err(CorruptPage);
        case Ok(page) => return Ok(page);
      }
    }

    // Copies a page of records back over page `id`.
    method StorePage(id: PageId, page: SlottedPage.SlottedPage) returns (error: Option<HeapError>)
      requires pool.Idle() && page.bytes.Length == PAGE_SIZE
      modifies pool, pool.disk
      ensures pool.Idle()
      ensures error == if id < |old(pool.View())| then None else Some(DiskFailure)
      ensures pool.View() == if id < |old(pool.View())| then old(pool.View())[id := page.Image()] else old(pool.View())
      ensures pool.frames.Keys <= old(pool.frames.Keys) + {id}
    {
      hide PoolSpec.Coherent, PoolSpec.View, PoolSpec.Fetch, BufferPool.PageGuard.Content, SlottedPage.ValidPage;
      var fetched := pool.FetchPage(id);
      if fetched.Err? {
        return Some(DiskFailure);
      }
      Handed(id);
      Overwrite(fetched.value, page.bytes[..]);
      return None;
    }

    // Overwrites the page behind the only guard that is out, and gives the guard back.
    method Overwrite(guard: BufferPool.PageGuard, image: Page)
      requires guard.pool == pool && guard.Live() && !guard.wrote
      requires pool.held == multiset{(guard.pageId, false)} && pool.capacity > 0
      modifies guard, pool
      ensures pool.Idle() && old(guard.pageId) < |old(pool.View())|
      ensures pool.View() == old(pool.View())[old(guard.pageId) := image]
      ensures pool.frames.Keys == old(pool.frames.Keys)
    {
      hide PoolSpec.Coherent, PoolSpec.View, Splice, BufferPool.PageGuard.Content;
      ghost var before := guard.Content();
      Handed(guard.pageId);
      guard.Put(0, image);
      WholePage(before, image);
      guard.MarkDirty();
      guard.Release();
    }

    static lemma Handed(id: PageId)
      ensures multiset{} + multiset{(id, false)} == multiset{(id, false)}
      ensures multiset{(id, false)} - multiset{(id, false)} + multiset{(id, true)} == multiset{(id, true)}
      ensures multiset{(id, true)} - multiset{(id, true)} == multiset{}
    {}

    static lemma WholePage(p: Page, image: Page)
      ensures Splice(p, 0, image) == image
    {}

    // A new row goes to the end of the log, under an id that was never given out before.
    method Insert(row: Row) returns (r: Result<RowId, HeapError>)
      requires Valid()
      modifies this, pool, pool.disk
      ensures Valid()
      ensures r.Err? ==> pool.View() == old(pool.View()) && pageIds == old(pageIds)
      ensures r.Err? ==> r.error == Refusal(row)
      ensures r.Ok? <==>
        && Storable(row)
        && (old(NeedsPage(pool.View(), pageIds, row)) ==> |old(pool.View())| <= 0xFFFF_FFFF)
      ensures r.Ok? ==> RowAdded(old(pool.View()), old(pageIds), pool.View(), pageIds, row, r.value)
      ensures Untouched(old(pool.View()), pool.View(), PageSet(old(pageIds)))
      ensures pool.frames.Keys <= old(pool.frames.Keys) + PageSet(pageIds) && PageSet(old(pageIds)) <= PageSet(pageIds)
    {
      hide PoolSpec.Coherent, PoolSpec.View, HeapOk, EncodeRow, RowFits, Untouched, BufferPool.BufferPool.Idle, PageSet, SlottedPage.ValidPage,
           SlottedPage.Records, SlottedPage.FreeSpace, RowAdded;
      UntouchedSame(pool.View(), PageSet(pageIds));
      var serialization := SerializeRow(row);
      if serialization.Err? {
        return Err(SerializationFailure(serialization.error));
      }
      var record := serialization.value;
      var emptyPage := new SlottedPage.SlottedPage();
      if |record| + 4 > EMPTY_SPACE {
        return Err(RowTooLarge);
      }
      if pageIds != [] {
        var tried := InsertInLastPage(row, record);
        match tried {
          case Err(error) => return Err(error);
          case Ok(None) =>
          case Ok(Some(id)) => return Ok(id);
        }
      }
      r := InsertInNewPage(row, record, emptyPage);
    }

    // A row the last page has room for goes there.
    method InsertInLastPage(row: Row, record: seq<Byte>) returns (r: Result<Option<RowId>, HeapError>)
      requires Valid() && pageIds != [] && Storable(row) && record == EncodeRow(row)
      modifies pool, pool.disk
      ensures r.Ok? && (r.value.None? <==> old(NeedsPage(pool.View(), pageIds, row)))
      ensures if r.value.None? then pool.View() == old(pool.View())
              else RowAdded(old(pool.View()), pageIds, pool.View(), pageIds, row, r.value.value)
      ensures Valid() && Untouched(old(pool.View()), pool.View(), PageSet(pageIds))
      ensures pool.frames.Keys <= old(pool.frames.Keys) + PageSet(pageIds)
    {
      hide PoolSpec.Coherent, PoolSpec.View, HeapOk, Rows, RecordsOf, EncodeRow, RowFits, Untouched, Given, BufferPool.BufferPool.Idle, PageSet,
           SlottedPage.ValidPage, SlottedPage.Records, SlottedPage.FreeSpace, AtEnd;
      ghost var view := pool.View();
      UntouchedSame(view, PageSet(pageIds));
      var id := pageIds[|pageIds| - 1];
      PageFacts(view, pageIds, id);
      NewInSet(pageIds, id);
      var loaded := LoadPage(id);
      match loaded {
        case Err(error) => return Err(error);
        case Ok(_) =>
      }
      var page := loaded.value;
      var inserted := page.InsertRecord(record);
      if inserted.Err? {
        return Ok(None);
      }
      RecordOfRow(row);
      AddedInLast(view, pageIds, page.Image(), row);
      var failed := StorePage(id, page);
      match failed {
        case Some(error) => return Err(error);
        case None => return Ok(Some(TreeSpec.RowId(id, inserted.value)));
      }
    }

    // A row the last page has no room for goes alone into a page of its own.
    method InsertInNewPage(row: Row, record: seq<Byte>, page: SlottedPage.SlottedPage) returns (r: Result<RowId, HeapError>)
      requires Valid() && Storable(row) && record == EncodeRow(row) && NeedsPage(pool.View(), pageIds, row) && page.Valid()
      requires SlottedPage.Records(page.Image()) == [] && SlottedPage.FreeSpace(page.Image()) == EMPTY_SPACE
      modifies this, pool, pool.disk, page.bytes
      ensures Valid()
      ensures r.Err? ==> r.error == DiskFailure && pool.View() == old(pool.View()) && pageIds == old(pageIds)
      ensures r.Ok? <==> |old(pool.View())| <= 0xFFFF_FFFF
      ensures r.Ok? ==> RowAdded(old(pool.View()), old(pageIds), pool.View(), pageIds, row, r.value)
      ensures Untouched(old(pool.View()), pool.View(), PageSet(old(pageIds)))
      ensures pool.frames.Keys <= old(pool.frames.Keys) + PageSet(pageIds) && PageSet(old(pageIds)) <= PageSet(pageIds)
    {
      hide PoolSpec.Coherent, PoolSpec.View, HeapOk, Rows, RecordsOf, EncodeRow, RowFits, Untouched, Given, PageSet, BufferPool.BufferPool.Idle,
           SlottedPage.ValidPage, SlottedPage.Records, SlottedPage.FreeSpace, RowAdded, NeedsPage;
      ghost var view, pages := pool.View(), pageIds;
      UntouchedSame(view, PageSet(pageIds));
      var allocation := AllocatePage();
      match allocation {
        case Err(error) => return Err(error);
        case Ok(_) =>
      }
      var id := allocation.value;
      RecordOfRow(row);
      var inserted := page.InsertRecord(record);
      AddedInNew(view, pageIds, id, page.Image(), row);
      var failed := StorePage(id, page);
      match failed {
        case Some(error) => return Err(error);
        case None =>
      }
      ZerosReplaced(view, page.Image());
      pageIds := pageIds + [id];
      assert pageIds[..|pages|] == pages;
      NewInSet(pageIds, id);
      return Ok(TreeSpec.RowId(id, inserted.value));
    }

    // A page on disk that no frame holds yet.
    method AllocatePage() returns (r: Result<PageId, HeapError>)
      requires pool.Idle()
      modifies pool.disk
      ensures pool.Idle()
      ensures r.Err? ==> r.error == DiskFailure && pool.View() == old(pool.View())
      ensures r.Ok? <==> |old(pool.View())| <= 0xFFFF_FFFF
      ensures r.Ok? ==> r.value == |old(pool.View())| && pool.View() == old(pool.View()) + [Zeros(PAGE_SIZE)]
    {
      hide PoolSpec.Coherent, PoolSpec.View;
      PoolSpec.AllocateKeeps(pool.State(), pool.held);
      var allocation := pool.disk.AllocatePage();
      if allocation.Err? {
        return Err(DiskFailure);
      }
      assert pool.State() == PoolSpec.Allocate(old(pool.State()));
      return Ok(allocation.value);
    }

    static lemma ZerosReplaced(view: seq<Page>, image: Page)
      ensures (view + [Zeros(PAGE_SIZE)])[|view| := image] == view + [image]
    {}

    static lemma NewInSet(pages: seq<PageId>, id: PageId)
      requires pages != [] && pages[|pages| - 1] == id
      ensures id in PageSet(pages) && PageSet(pages[..|pages| - 1]) <= PageSet(pages)
    {
      assert pages == pages[..|pages| - 1] + [id];
      PageSetSnoc(pages[..|pages| - 1], id);
    }

    method Fetch(id: RowId) returns (r: Result<Row, HeapError>)
      requires Valid()
      modifies pool, pool.disk
      ensures Valid() && pool.View() == old(pool.View())
      ensures r == match Lookup(Contents(), id) case None => Err(InvalidRowId) case Some(row) => Ok(row)
      ensures pool.frames.Keys <= old(pool.frames.Keys) + PageSet(pageIds)
    {
      hide PoolSpec.Coherent, PoolSpec.View, HeapOk, Rows, RecordsOf, PageSet, DecodeRow, SlottedPage.ValidPage, SlottedPage.Records,
           BufferPool.BufferPool.Idle;
      RowsLookup(pool.View(), pageIds, id);
      if id.page !in pageIds {
        return Err(InvalidRowId);
      }
      PageFacts(pool.View(), pageIds, id.page);
      InSet(pageIds, id.page);
      var loaded := LoadPage(id.page);
      match loaded {
        case Err(error) => return Err(error);
        case Ok(_) =>
      }
      var record := loaded.value.ReadRecord(id.slot);
      if record.Err? {
        return Err(InvalidRowId);
      }
      var row := DeserializeRow(record.value);
      match row {
        case Err(error) => return Err(SerializationFailure(error));
        case Ok(values) => return Ok(values);
      }
    }

    static lemma InSet(pages: seq<PageId>, id: TreeSpec.PageId)
      requires id in pages
      ensures id in PageSet(pages)
    {}

    method Scan() returns (r: Result<seq<HeapRow>, HeapError>)
      requires Valid()
      modifies pool, pool.disk
      ensures Valid() && pool.View() == old(pool.View())
      ensures r == Ok(Contents())
      ensures pool.frames.Keys <= old(pool.frames.Keys) + PageSet(pageIds)
    {
      hide PoolSpec.Coherent, PoolSpec.View, HeapOk, RecordsOf, PageSet, PageRows, SlottedPage.ValidPage, SlottedPage.Records,
           BufferPool.BufferPool.Idle;
      ghost var view := pool.View();
      var rows: seq<HeapRow> := [];
      for k := 0 to |pageIds|
        invariant Valid() && pool.View() == view
        invariant rows == Rows(view, pageIds[..k])
        invariant pool.frames.Keys <= old(pool.frames.Keys) + PageSet(pageIds)
      {
        var id := pageIds[k];
        PageFacts(view, pageIds, id);
        InSet(pageIds, id);
        var loaded := LoadPage(id);
        match loaded {
          case Err(error) => return Err(error);
          case Ok(_) =>
        }
        var more := ScanPage(rows, id, loaded.value);
        match more {
          case Err(error) => return Err(error);
          case Ok(found) => rows := found;
        }
        assert pageIds[..k + 1][..k] == pageIds[..k];
      }
      assert pageIds[..|pageIds|] == pageIds;
      return Ok(rows);
    }

    // The rows of one page after the rows found so far; deleted slots are passed over.
    method ScanPage(rows: seq<HeapRow>, id: PageId, page: SlottedPage.SlottedPage) returns (r: Result<seq<HeapRow>, HeapError>)
      requires page.Valid() && Decodable(SlottedPage.Records(page.Image()))
      ensures r == Ok(rows + PageRows(id, SlottedPage.Records(page.Image())))
    {
      hide SlottedPage.ValidPage, SlottedPage.Records, DecodeRow, PageRows;
      ghost var records := SlottedPage.Records(page.Image());
      var result := rows;
      var count := page.SlotCount();
      NoRows(id, records);
      for index := 0 to count
        invariant result == rows + PageRows(id, records[..index])
      {
        var record := page.ReadRecord(index);
        assert records[..index + 1] == records[..index] + [records[index]];
        PageRowsSnoc(id, records[..index], records[index]);
        if record.Err? {
          if record.error == SlottedPage.DeletedRecord {
            continue;
          }
          return Err(CorruptPage);
        }
        var row := DeserializeRow(record.value);
        match row {
          case Err(error) => return Err(SerializationFailure(error));
          case Ok(_) =>
        }
        result := result + [HeapRow(TreeSpec.RowId(id, index), row.value)];
      }
      assert records[..|records|] == records;
      return Ok(result);
    }

    static lemma NoRows(id: PageId, records: seq<Option<seq<Byte>>>)
      ensures PageRows(id, records[..0]) == []
    {}

    // Only the row under the id goes; its slot stays behind, so the id is not given out again.
    method DeleteRow(id: RowId) returns (error: Option<HeapError>)
      requires Valid()
      modifies pool, pool.disk
      ensures Valid()
      ensures error == if Lookup(old(Contents()), id).None? then Some(InvalidRowId) else None
      ensures error.Some? ==> pool.View() == old(pool.View())
      ensures error.None? ==> Contents() == Without(old(Contents()), id)
      ensures Room(pool.View(), pageIds) == old(Room(pool.View(), pageIds))
      ensures forall other :: Given(pool.View(), pageIds, other) <==> Given(old(pool.View()), pageIds, other)
      ensures |pool.View()| == |old(pool.View())| && Untouched(old(pool.View()), pool.View(), PageSet(pageIds))
      ensures pool.frames.Keys <= old(pool.frames.Keys) + PageSet(pageIds)
    {
      hide PoolSpec.Coherent, PoolSpec.View, HeapOk, Rows, RecordsOf, PageSet, DecodeRow, Untouched, SlottedPage.ValidPage,
           SlottedPage.Records, BufferPool.BufferPool.Idle;
      ghost var view := pool.View();
      UntouchedSame(view, PageSet(pageIds));
      RowsLookup(view, pageIds, id);
      if id.page !in pageIds {
        return Some(InvalidRowId);
      }
      PageFacts(view, pageIds, id.page);
      InSet(pageIds, id.page);
      var loaded := LoadPage(id.page);
      match loaded {
        case Err(failure) => return Some(failure);
        case Ok(_) =>
      }
      var page := loaded.value;
      var deleted := page.DeleteRecord(id.slot);
      if deleted.Some? {
        return Some(InvalidRowId);
      }
      SlotRewritten(view, pageIds, id, page.Image(), None);
      RoomKept(view, pageIds, id.page, page.Image());
      error := StorePage(id.page, page);
    }

    // A row that fits where the old one was keeps its id and its place; a longer one moves to the end
    // under a new id.
    method Update(id: RowId, row: Row) returns (r: Result<RowId, HeapError>)
      requires Valid()
      modifies this, pool, pool.disk
      ensures Valid()
      ensures r.Err? ==> pool.View() == old(pool.View()) && pageIds == old(pageIds)
      ensures r.Err? ==>
        r.error == if id.page !in old(pageIds) then InvalidRowId
                   else if !RowFits(row) then SerializationFailure(InputTooLarge)
                   else if Lookup(old(Contents()), id).None? then InvalidRowId
                   else Refusal(row)
      ensures r.Ok? <==>
        && Lookup(old(Contents()), id).Some? && RowFits(row)
        && (Fits(row, Lookup(old(Contents()), id).value) ||
            (Storable(row)
             && (old(NeedsPage(pool.View(), pageIds, row)) ==> |old(pool.View())| <= 0xFFFF_FFFF)))
      ensures r.Ok? && Fits(row, Lookup(old(Contents()), id).value) ==>
        && r.value == id && Contents() == Replace(old(Contents()), id, row)
        && InPlace(old(pool.View()), old(pageIds), pool.View(), pageIds) && |pool.View()| == |old(pool.View())|
      ensures r.Ok? && !Fits(row, Lookup(old(Contents()), id).value) ==>
        && Contents() == Without(old(Contents()), id) + [HeapRow(r.value, row)]
        && AtEnd(old(pool.View()), old(pageIds), pool.View(), pageIds, row, r.value)
        && |pool.View()| == |old(pool.View())| + |pageIds| - |old(pageIds)|
      ensures Untouched(old(pool.View()), pool.View(), PageSet(old(pageIds)))
      ensures pool.frames.Keys <= old(pool.frames.Keys) + PageSet(pageIds) && PageSet(old(pageIds)) <= PageSet(pageIds)
    {
      hide PoolSpec.Coherent, PoolSpec.View, HeapOk, Rows, RecordsOf, PageSet, DecodeRow, EncodeRow, RowFits, Untouched, Given, AtEnd, NeedsPage, Room, Fits,
           SlottedPage.ValidPage, SlottedPage.Records, SlottedPage.FreeSpace, BufferPool.BufferPool.Idle;
      ghost var view := pool.View();
      UntouchedSame(view, PageSet(pageIds));
      RowsLookup(view, pageIds, id);
      if id.page !in pageIds {
        return Err(InvalidRowId);
      }
      var serialization := SerializeRow(row);
      if serialization.Err? {
        return Err(SerializationFailure(serialization.error));
      }
      PageFacts(view, pageIds, id.page);
      InSet(pageIds, id.page);
      var loaded := LoadPage(id.page);
      match loaded {
        case Err(failure) => return Err(failure);
        case Ok(_) =>
      }
      var page := loaded.value;
      var replaced := page.UpdateRecord(id.slot, serialization.value);
      if replaced.None? {
        RecordOfRow(row);
        RecordFits(view, pageIds, id, row);
        SlotRewritten(view, pageIds, id, page.Image(), Some(serialization.value));
        RoomKept(view, pageIds, id.page, page.Image());
        var failed := StorePage(id.page, page);
        match failed {
          case Some(error) => return Err(error);
          case None => return Ok(id);
        }
      }
      if replaced.value != SlottedPage.PageFull {
        return Err(InvalidRowId);
      }
      RecordFits(view, pageIds, id, row);
      r := Relocate(id, row);
    }

    // The second half of an update that does not fit: insert, then delete.
    method Relocate(id: RowId, row: Row) returns (r: Result<RowId, HeapError>)
      requires Valid() && RowFits(row) && Lookup(Contents(), id).Some?
      modifies this, pool, pool.disk
      ensures Valid()
      ensures r.Err? ==> pool.View() == old(pool.View()) && pageIds == old(pageIds) && r.error == Refusal(row)
      ensures r.Ok? <==>
        && Storable(row)
        && (old(NeedsPage(pool.View(), pageIds, row)) ==> |old(pool.View())| <= 0xFFFF_FFFF)
      ensures r.Ok? ==>
        && Contents() == Without(old(Contents()), id) + [HeapRow(r.value, row)]
        && AtEnd(old(pool.View()), old(pageIds), pool.View(), pageIds, row, r.value)
        && |pool.View()| == |old(pool.View())| + |pageIds| - |old(pageIds)|
      ensures Untouched(old(pool.View()), pool.View(), PageSet(old(pageIds)))
      ensures pool.frames.Keys <= old(pool.frames.Keys) + PageSet(pageIds) && PageSet(old(pageIds)) <= PageSet(pageIds)
    {
      hide PoolSpec.Coherent, PoolSpec.View, HeapOk, Rows, RecordsOf, PageSet, EncodeRow, RowFits, Untouched, Given, SlottedPage.ValidPage,
           BufferPool.BufferPool.Idle;
      ghost var view, log, pages := pool.View(), Contents(), pageIds;
      var inserted := Insert(row);
      match inserted {
        case Err(error) => return Err(error);
        case Ok(_) =>
      }
      ghost var after := pool.View();
      GivenLives(view, pages, id);
      MovedAway(log, id, inserted.value, row);
      var deleted := DeleteRow(id);
      match deleted {
        case Some(error) => return Err(error);
        case None =>
      }
      UntouchedBeyond(view, after, pool.View(), pages, pageIds);
      return Ok(inserted.value);
    }
  }

  // The encoding of `row` is no longer than that of `before`.
  predicate Fits(row: Row, before: Row) {
    |EncodeRow(row)| <= |EncodeRow(before)|
  }
}
