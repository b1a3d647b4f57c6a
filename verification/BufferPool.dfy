// The disk as a growing array of pages, and the pool of frames in front of it.
module BufferPool {
  import opened Bytes
  import opened Results
  import opened PoolSpec

  class DiskManager {
    var pages: seq<Page>

    constructor ()
      ensures pages == []
    {
      pages := [];
    }

    method AllocatePage() returns (r: Result<PageId, PoolError>)
      modifies this
      ensures r.Ok? <==> old(|pages|) <= 0xFFFF_FFFF
      ensures r.Ok? ==> r.value == old(|pages|) && pages == old(pages) + [Zeros(PAGE_SIZE)]
      ensures r.Err? ==> r.error == PageIdExhausted && pages == old(pages)
    {
      if |pages| > 0xFFFF_FFFF {
        return Err(PageIdExhausted);
      }
      var id := |pages|;
      pages := pages + [Zeros(PAGE_SIZE)];
      return Ok(id);
    }

    method ReadPage(id: PageId) returns (r: Result<Page, PoolError>)
      ensures r == if id < |pages| then Ok(pages[id]) else Err(InvalidPageId)
    {
      if id >= |pages| {
        return Err(InvalidPageId);
      }
      return Ok(pages[id]);
    }

    method WritePage(id: PageId, bytes: Page) returns (r: Option<PoolError>)
      modifies this
      ensures if id < old(|pages|) then r == None && pages == old(pages)[id := bytes]
              else r == Some(InvalidPageId) && pages == old(pages)
    {
      if id >= |pages| {
        return Some(InvalidPageId);
      }
      pages := pages[id := bytes];
      return None;
    }
  }

  class BufferPool {
    const disk: DiskManager
    const capacity: nat
    var clock: nat
    var frames: map<PageId, Frame>
    // The guards that are out, and which of them wrote.
    ghost var held: Held

    ghost function State(): Pool
      reads this, disk
    {
      Pool(disk.pages, capacity, clock, frames)
    }

    ghost predicate Valid()
      reads this, disk
    {
      Coherent(State(), held)
    }

    // What readers of the pool see.
    ghost function View(): (v: seq<Page>)
      reads this, disk
      ensures |v| == |disk.pages|
    {
      PoolSpec.View(State())
    }

    // Between operations: no guard is out, and there is a frame to fetch into.
    ghost predicate Idle()
      reads this, disk
    {
      Valid() && held == multiset{} && capacity > 0
    }

    constructor (disk: DiskManager, capacity: nat)
      ensures this.disk == disk && this.capacity == capacity && clock == 0
      ensures frames == map[] && held == multiset{}
      ensures Valid() && View() == disk.pages
    {
      this.disk := disk;
      this.capacity := capacity;
      clock := 0;
      frames := map[];
      held := multiset{};
    }

    method FetchPage(id: PageId) returns (r: Result<PageGuard, PoolError>)
      requires Valid()
      modifies this, disk
      ensures Valid() && View() == old(View())
      ensures State() == Fetch(old(State()), id).0
      ensures Fetch(old(State()), id).1 == if r.Ok? then None else Some(r.error)
      ensures r.Err? ==> held == old(held)
      ensures r.Ok? ==>
        && fresh(r.value) && r.value.pool == this && r.value.pageId == id && !r.value.dirty && !r.value.wrote
        && held == old(held) + multiset{(id, false)}
        && id < |View()| && id in frames && r.value.Content() == View()[id]
        && clock == old(clock) + 1
      ensures old(Idle()) && id < old(|View()|) ==> r.Ok?
      ensures frames.Keys <= old(frames.Keys) + {id}
    {
      hide Coherent, PoolSpec.View, Fetch, PoolSpec.Load;
      ghost var before := State();
      CoherentFacts(before, held);
      FetchKeeps(before, held, id);
      if held == multiset{} && capacity > 0 && id < |disk.pages| {
        IdleFetchSucceeds(before, id);
      }
      FetchIsTouch(before, id);
      var error := Load(id);
      if error.Some? {
        return Err(error.value);
      }
      var f := frames[id];
      clock := clock + 1;
      frames := frames[id := Frame(f.bytes, f.pins + 1, clock, f.dirty)];
      held := held + multiset{(id, false)};
      var guard := new PageGuard(this, id);
      return Ok(guard);
    }

    static lemma FetchIsTouch(s: Pool, id: PageId)
      requires Resident(s)
      ensures PoolSpec.Load(s, id).1.Some? ==> Fetch(s, id) == PoolSpec.Load(s, id)
      ensures PoolSpec.Load(s, id).1.None? ==>
        && id in PoolSpec.Load(s, id).0.frames
        && Fetch(s, id) == (Touch(PoolSpec.Load(s, id).0, id), None)
      ensures PoolSpec.Load(s, id).0.clock == s.clock && PoolSpec.Load(s, id).0.capacity == s.capacity
    {}

    method Load(id: PageId) returns (error: Option<PoolError>)
      requires Valid()
      modifies this`frames, disk
      ensures (State(), error) == PoolSpec.Load(old(State()), id)
    {
      if id in frames {
        return None;
      }
      if capacity == 0 {
        return Some(NoEvictableFrame);
      }
      ghost var before := State();
      if |frames| >= capacity {
        var victim := ChooseVictim();
        if victim.None? {
          return Some(NoEvictableFrame);
        }
        FlushKeeps(before, held, victim.value);
        var failed := FlushPage(victim.value);
        frames := frames - {victim.value};
        assert State() == Evict(before);
      }
      assert State() == MakeRoom(before);
      var read := disk.ReadPage(id);
      if read.Err? {
        return Some(read.error);
      }
      frames := frames[id := Frame(read.value, 0, 0, false)];
      return None;
    }

    // The frames are visited in no particular order; the outcome does not depend on it.
    method ChooseVictim() returns (victim: Option<PageId>)
      requires Valid()
      ensures victim == if HasVictim(State()) then Some(Victim(State())) else None
    {
      victim := None;
      var rest := frames.Keys;
      while rest != {}
        invariant rest <= frames.Keys
        invariant victim.Some? ==> Unpinned(State(), victim.value)
        invariant forall id :: Unpinned(State(), id) && id !in rest ==>
          victim.Some? && frames[victim.value].lastUsed <= frames[id].lastUsed
      {
        var candidate :| candidate in rest;
        rest := rest - {candidate};
        if frames[candidate].pins == 0
           && (victim.None? || frames[candidate].lastUsed < frames[victim.value].lastUsed) {
          victim := Some(candidate);
        }
      }
      VictimExists(State());
      if victim.Some? {
        assert IsVictim(State(), victim.value);
        VictimUnique(State(), victim.value, Victim(State()));
      }
    }

    method AllocatePage() returns (r: Result<PageGuard, PoolError>)
      requires Valid()
      modifies this, disk
      ensures Valid()
      ensures r.Ok? ==>
        && View() == old(View()) + [Zeros(PAGE_SIZE)]
        && fresh(r.value) && r.value.pool == this && r.value.pageId == |old(View())|
        && !r.value.dirty && !r.value.wrote
        && held == old(held) + multiset{(r.value.pageId, false)}
        && clock == old(clock) + 1
      ensures r.Err? ==> held == old(held) && old(View()) <= View()
      ensures forall id :: id in frames.Keys ==> id in old(frames.Keys) || id == |old(View())|
      ensures old(Idle()) && |old(View())| <= 0xFFFF_FFFF ==> r.Ok?
    {
      hide Coherent, PoolSpec.View, Fetch;
      AllocateKeeps(State(), held);
      var allocation := disk.AllocatePage();
      if allocation.Err? {
        return Err(allocation.error);
      }
      assert State() == Allocate(old(State()));
      r := FetchPage(allocation.value);
    }

    method FlushPage(id: PageId) returns (error: Option<PoolError>)
      requires Valid()
      modifies this`frames, disk
      ensures error == None
      ensures State() == PoolSpec.FlushPage(old(State()), id)
    {
      if id !in frames || !frames[id].dirty {
        return None;
      }
      error := disk.WritePage(id, frames[id].bytes);
      if error.Some? {
        return;
      }
      var f := frames[id];
      frames := frames[id := Frame(f.bytes, f.pins, f.lastUsed, false)];
    }

    method FlushAll() returns (error: Option<PoolError>)
      requires Valid()
      modifies this`frames, disk
      ensures error == None
      ensures Valid() && View() == old(View()) && held == old(held)
      ensures State() == PoolSpec.FlushAll(old(State()))
      ensures held == multiset{} ==> disk.pages == View()
      ensures frames.Keys == old(frames.Keys)
    {
      hide Coherent, PoolSpec.View, FlushAmong, PoolSpec.FlushPage, PoolSpec.FlushAll, Split;
      ghost var before := State();
      CoherentFacts(before, held);
      FlushAllKeeps(before, held);
      FlushNone(before);
      FlushEach(before);
      NoneDone(before.frames.Keys);
      ghost var done: set<PageId> := {};
      var rest := frames.Keys;
      while rest != {}
        invariant Split(before.frames.Keys, rest, done)
        invariant State() == FlushAmong(before, done)
      {
        var id :| id in rest;
        OneDone(before.frames.Keys, rest, done, id);
        rest := rest - {id};
        FlushAmongKeeps(before, held, done);
        FlushOneMore(before, done, id);
        error := FlushPage(id);
        done := done + {id};
      }
      return None;
    }

    // The frames still to be visited and those already visited.
    static ghost predicate Split(all: set<PageId>, rest: set<PageId>, done: set<PageId>) {
      rest == all - done && done <= all
    }

    static lemma NoneDone(all: set<PageId>)
      ensures Split(all, all, {})
      ensures forall done :: Split(all, {}, done) ==> done == all
    {}

    static lemma OneDone(all: set<PageId>, rest: set<PageId>, done: set<PageId>, id: PageId)
      requires Split(all, rest, done) && id in rest
      ensures Split(all, rest - {id}, done + {id}) && id in all && id !in done
    {}

    method Unpin(id: PageId, dirty: bool)
      modifies this`frames, this`clock
      ensures State() == PoolSpec.Unpin(old(State()), id, dirty)
    {
      if id !in frames {
        return;
      }
      var f := frames[id];
      clock := clock + 1;
      frames := frames[id := Frame(f.bytes, if f.pins > 0 then f.pins - 1 else 0, clock, f.dirty || dirty)];
    }
  }

  class PageGuard {
    var pool: BufferPool?
    var pageId: PageId
    var dirty: bool
    ghost var wrote: bool

    constructor (pool: BufferPool?, pageId: PageId)
      ensures this.pool == pool && this.pageId == pageId && !dirty && !wrote
    {
      this.pool := pool;
      this.pageId := pageId;
      dirty := false;
      wrote := false;
    }

    // The guard is out: its pool counts it among the holders of its page.
    ghost predicate Live()
      reads this, pool, if pool != null then {pool.disk} else {}
    {
      pool != null && pool.Valid() && (pageId, wrote) in pool.held
    }

    // The bytes the guard gives access to.
    function Content(): Page
      reads this, pool
    {
      if pool != null && pageId in pool.frames then pool.frames[pageId].bytes else Zeros(PAGE_SIZE)
    }

    static lemma HolderResident(s: Pool, held: Held, id: PageId, wrote: bool)
      requires Coherent(s, held) && (id, wrote) in held
      ensures id in s.frames && id < |s.disk|
    {}

    // Overwrites the bytes at offset.. of the page, in the frame itself.
    method Put(offset: nat, bytes: seq<Byte>)
      requires Live() && offset + |bytes| <= PAGE_SIZE
      modifies this`wrote, pool`frames, pool`held
      ensures Live() && wrote && pageId in old(pool.frames) && pageId in pool.frames
      ensures Content() == Splice(old(Content()), offset, bytes)
      ensures pageId < |old(pool.View())| && pool.View() == old(pool.View())[pageId := Content()]
      ensures pool.held == old(pool.held) - multiset{(pageId, old(wrote))} + multiset{(pageId, true)}
      ensures pool.frames.Keys == old(pool.frames.Keys)
    {
      hide Coherent, PoolSpec.View, Splice;
      ghost var before := pool.State();
      HolderResident(before, pool.held, pageId, wrote);
      var f := pool.frames[pageId];
      var changed: Page := Splice(f.bytes, offset, bytes);
      ModifyKeeps(before, pool.held, pageId, wrote, changed);
      pool.frames := pool.frames[pageId := Frame(changed, f.pins, f.lastUsed, f.dirty)];
      pool.held := pool.held - multiset{(pageId, wrote)} + multiset{(pageId, true)};
      wrote := true;
      assert pool.State() == Modify(before, pageId, changed);
      HandedOver(old(pool.held), pageId, old(wrote));
    }

    static lemma HandedOver(held: Held, id: PageId, wrote: bool)
      ensures (id, true) in held - multiset{(id, wrote)} + multiset{(id, true)}
    {}

    method MarkDirty()
      modifies this`dirty
      ensures dirty
    {
      dirty := true;
    }

    static lemma UnpinFacts(s: Pool, id: PageId, dirty: bool)
      requires id in s.frames
      ensures PoolSpec.Unpin(s, id, dirty).frames.Keys == s.frames.Keys
      ensures PoolSpec.Unpin(s, id, dirty).clock == s.clock + 1
      ensures PoolSpec.Unpin(s, id, dirty).disk == s.disk
    {}

    // A guard that wrote must have been marked dirty, or the write may be lost.
    method Release()
      requires pool != null ==> Live() && (wrote ==> dirty)
      modifies this, pool
      ensures pool == null
      ensures old(pool) != null ==>
        && !dirty
        && old(pool).Valid() && old(pool).View() == old(pool.View())
        && old(pool).held == old(pool.held) - multiset{(old(pageId), old(wrote))}
        && old(pool).frames.Keys == old(pool.frames.Keys)
        && old(pool).clock == old(pool.clock) + 1
        && old(pool).disk.pages == old(pool.disk.pages)
    {
      hide Coherent, PoolSpec.View, PoolSpec.Unpin;
      if pool != null {
        UnpinKeeps(pool.State(), pool.held, pageId, wrote, dirty);
        UnpinFacts(pool.State(), pageId, dirty);
        pool.Unpin(pageId, dirty);
        pool.held := pool.held - multiset{(pageId, wrote)};
        pool := null;
        dirty := false;
      }
    }

    // Move assignment: drop what this guard holds, take over what the other one holds.
    method MoveFrom(other: PageGuard)
      requires pool != null ==> Live() && (wrote ==> dirty)
      requires other.pool != null ==> other.Live()
      requires other != this && pool != null && other.pool == pool ==>
        multiset{(pageId, wrote), (other.pageId, other.wrote)} <= pool.held
      requires pool != null && other.pool != null && other.pool != pool ==> pool.disk != other.pool.disk
      modifies this, other, pool
      ensures other != this ==>
        && pool == old(other.pool) && pageId == old(other.pageId) && dirty == old(other.dirty)
        && wrote == old(other.wrote) && other.pool == null
        && (pool != null ==> Live())
      ensures other == this ==> pool == old(pool) && dirty == old(dirty) && wrote == old(wrote) && pageId == old(pageId)
      ensures old(pool) != null ==> old(pool).Valid() && old(pool).View() == old(pool.View())
      ensures old(pool) != null && other != this ==>
        old(pool).held == old(pool.held) - multiset{(old(pageId), old(wrote))}
    {
      hide Coherent, PoolSpec.View;
      if this != other {
        Release();
        pool := other.pool;
        pageId := other.pageId;
        dirty := other.dirty;
        wrote := other.wrote;
        other.pool := null;
        other.dirty := false;
      }
    }
  }
}
