// The buffer pool as a state machine on values: what one call of the pool does to its frames and to
// the disk, and the laws of that machine (the cache is invisible; the victim is the true LRU page).
module PoolSpec {
  import opened Bytes
  import opened Results

  type PageId = U32

  datatype Frame = Frame(bytes: Page, pins: nat, lastUsed: nat, dirty: bool)

  datatype PoolError = NoEvictableFrame | InvalidPageId | PageIdExhausted

  datatype Pool = Pool(disk: seq<Page>, capacity: nat, clock: nat, frames: map<PageId, Frame>)

  // What a reader of the pool sees: the frame when the page is resident, else the page on disk.
  ghost function View(s: Pool): (v: seq<Page>)
    ensures |v| == |s.disk|
  {
    seq(|s.disk|, i requires 0 <= i < |s.disk| => PageSeen(s, i))
  }

  ghost function PageSeen(s: Pool, i: nat): Page
    requires i < |s.disk|
  {
    if i in s.frames then s.frames[i].bytes else s.disk[i]
  }

  // ---------- The operations ----------

  ghost predicate Unpinned(s: Pool, id: PageId) {
    id in s.frames && s.frames[id].pins == 0
  }

  // The least recently used of the unpinned frames.
  ghost predicate IsVictim(s: Pool, id: PageId) {
    && Unpinned(s, id)
    && forall other :: Unpinned(s, other) ==> s.frames[id].lastUsed <= s.frames[other].lastUsed
  }

  ghost function Victims(s: Pool): set<PageId> {
    set id | id in s.frames && IsVictim(s, id)
  }

  ghost predicate HasVictim(s: Pool) {
    Victims(s) != {}
  }

  ghost function Victim(s: Pool): (id: PageId)
    requires HasVictim(s)
    ensures IsVictim(s, id)
  {
    var id :| id in Victims(s);
    id
  }

  ghost function FlushPage(s: Pool, id: PageId): Pool
    requires id in s.frames ==> id < |s.disk|
  {
    if id in s.frames && s.frames[id].dirty then
      Pool(s.disk[id := s.frames[id].bytes], s.capacity, s.clock, s.frames[id := Clean(s.frames[id])])
    else s
  }

  ghost function Clean(f: Frame): Frame {
    Frame(f.bytes, f.pins, f.lastUsed, false)
  }

  ghost function Evict(s: Pool): Pool
    requires HasVictim(s) && Resident(s)
  {
    Drop(FlushPage(s, Victim(s)), Victim(s))
  }

  ghost function Drop(s: Pool, id: PageId): Pool {
    Pool(s.disk, s.capacity, s.clock, s.frames - {id})
  }

  ghost function MakeRoom(s: Pool): Pool
    requires Resident(s)
  {
    if |s.frames| >= s.capacity && HasVictim(s) then Evict(s) else s
  }

  ghost function ReadIn(s: Pool, id: PageId): Pool
    requires id < |s.disk|
  {
    Pool(s.disk, s.capacity, s.clock, s.frames[id := Frame(s.disk[id], 0, 0, false)])
  }

  // The frame of page `id`, read from disk on a miss. A failed read has already evicted.
  ghost function Load(s: Pool, id: PageId): (Pool, Option<PoolError>)
    requires Resident(s)
  {
    if id in s.frames then (s, None)
    else if s.capacity == 0 || (|s.frames| >= s.capacity && !HasVictim(s)) then (s, Some(NoEvictableFrame))
    else if id >= |s.disk| then (MakeRoom(s), Some(InvalidPageId))
    else (ReadIn(MakeRoom(s), id), None)
  }

  ghost function Touch(s: Pool, id: PageId): Pool
    requires id in s.frames
  {
    Pool(s.disk, s.capacity, s.clock + 1, s.frames[id := Pin(s.frames[id], s.clock + 1)])
  }

  ghost function Pin(f: Frame, now: nat): Frame {
    Frame(f.bytes, f.pins + 1, now, f.dirty)
  }

  ghost function Fetch(s: Pool, id: PageId): (Pool, Option<PoolError>)
    requires Resident(s)
  {
    if Load(s, id).1.Some? then Load(s, id) else (Touch(Load(s, id).0, id), None)
  }

  ghost function Unpin(s: Pool, id: PageId, dirty: bool): Pool {
    if id !in s.frames then s
    else Pool(s.disk, s.capacity, s.clock + 1, s.frames[id := Released(s.frames[id], s.clock + 1, dirty)])
  }

  ghost function Released(f: Frame, now: nat, dirty: bool): Frame {
    Frame(f.bytes, if f.pins > 0 then f.pins - 1 else 0, now, f.dirty || dirty)
  }

  // The holder of a guard overwrites the bytes of the frame the guard points at.
  ghost function Modify(s: Pool, id: PageId, bytes: Page): Pool
    requires id in s.frames
  {
    Pool(s.disk, s.capacity, s.clock, s.frames[id := Frame(bytes, s.frames[id].pins, s.frames[id].lastUsed, s.frames[id].dirty)])
  }

  ghost function Allocate(s: Pool): Pool {
    Pool(s.disk + [Zeros(PAGE_SIZE)], s.capacity, s.clock, s.frames)
  }

  // Every resident page exists on disk, with the most uses recorded so far bounded by the clock.
  ghost predicate Resident(s: Pool) {
    forall id :: id in s.frames ==> id < |s.disk|
  }

  // ---------- The victim ----------

  // Between public calls no two frames carry the same time stamp.
  ghost predicate Stamped(s: Pool) {
    && (forall a :: a in s.frames ==> s.frames[a].lastUsed <= s.clock)
    && (forall a, b :: a in s.frames && b in s.frames && a != b ==> s.frames[a].lastUsed != s.frames[b].lastUsed)
  }

  lemma {:induction false} LeastOf(s: Pool, ids: set<PageId>) returns (least: PageId)
    requires ids != {} && forall id :: id in ids ==> id in s.frames
    ensures least in ids
    ensures forall id :: id in ids ==> s.frames[least].lastUsed <= s.frames[id].lastUsed
  {
    var one :| one in ids;
    if ids == {one} {
      least := one;
    } else {
      assert ids - {one} < ids;
      var rest := LeastOf(s, ids - {one});
      least := if s.frames[rest].lastUsed < s.frames[one].lastUsed then rest else one;
    }
  }

  lemma VictimExists(s: Pool)
    ensures HasVictim(s) <==> exists id :: Unpinned(s, id)
  {
    if some :| Unpinned(s, some) {
      var unpinned := set id | id in s.frames && Unpinned(s, id);
      assert some in unpinned;
      var least := LeastOf(s, unpinned);
      assert least in Victims(s);
    }
    if HasVictim(s) {
      assert Unpinned(s, Victim(s));
    }
  }

  // Whatever order the frames are visited in, the victim is the same page.
  lemma VictimUnique(s: Pool, a: PageId, b: PageId)
    requires Stamped(s) && IsVictim(s, a) && IsVictim(s, b)
    ensures a == b
  {}

  // ---------- Transparency ----------

  // The outstanding guards: for each, its page and whether bytes were written through it.
  type Held = multiset<(PageId, bool)>

  // A clean frame nobody has written through equals its page on disk; pins count the guards.
  ghost predicate Coherent(s: Pool, held: Held) {
    && Resident(s) && Stamped(s) && |s.frames| <= s.capacity
    && (forall id :: id in s.frames ==> FrameCoherent(s, held, id))
    && (forall id, wrote :: (id, wrote) in held ==> id in s.frames)
  }

  ghost predicate FrameCoherent(s: Pool, held: Held, id: PageId)
    requires id in s.frames && id < |s.disk|
  {
    && s.frames[id].pins == held[(id, false)] + held[(id, true)]
    && (!s.frames[id].dirty && held[(id, true)] == 0 ==> s.frames[id].bytes == s.disk[id])
  }

  lemma CoherentFacts(s: Pool, held: Held)
    requires Coherent(s, held)
    ensures Resident(s) && Stamped(s) && |View(s)| == |s.disk|
  {}

  lemma FlushShows(s: Pool, id: PageId)
    requires Resident(s)
    ensures View(FlushPage(s, id)) == View(s)
  {
    forall i: nat | i < |s.disk|
      ensures PageSeen(FlushPage(s, id), i) == PageSeen(s, i)
    {}
  }

  lemma FlushKeepsFrame(s: Pool, held: Held, id: PageId, a: PageId)
    requires Coherent(s, held) && a in s.frames
    ensures FrameCoherent(FlushPage(s, id), held, a)
  {
    assert FrameCoherent(s, held, a);
  }

  // The same residents with the same uses recorded.
  lemma StampsKept(s: Pool, t: Pool)
    requires Stamped(s) && t.frames.Keys == s.frames.Keys && t.clock == s.clock
    requires forall a :: a in s.frames ==> t.frames[a].lastUsed == s.frames[a].lastUsed
    ensures Stamped(t)
  {}

  lemma FlushKeeps(s: Pool, held: Held, id: PageId)
    requires Coherent(s, held)
    ensures Coherent(FlushPage(s, id), held)
    ensures View(FlushPage(s, id)) == View(s)
    ensures id in s.frames && held[(id, true)] == 0 ==>
      FlushPage(s, id).disk[id] == s.frames[id].bytes
  {
    hide View, Stamped, FrameCoherent;
    var t := FlushPage(s, id);
    FlushShows(s, id);
    assert t.frames.Keys == s.frames.Keys;
    StampsKept(s, t);
    forall a | a in s.frames
      ensures FrameCoherent(t, held, a)
    {
      FlushKeepsFrame(s, held, id, a);
    }
    Rebuilt(s, held, t, held);
    if id in s.frames && !s.frames[id].dirty && held[(id, true)] == 0 {
      CleanIsDisk(s, held, id);
    }
  }

  lemma CleanIsDisk(s: Pool, held: Held, id: PageId)
    requires Coherent(s, held) && id in s.frames && !s.frames[id].dirty && held[(id, true)] == 0
    ensures s.frames[id].bytes == s.disk[id]
  {
    assert FrameCoherent(s, held, id);
  }

  lemma DropKeeps(s: Pool, held: Held, id: PageId)
    requires Coherent(s, held) && Unpinned(s, id) && !s.frames[id].dirty
    ensures Coherent(Drop(s, id), held)
    ensures View(Drop(s, id)) == View(s)
    ensures |Drop(s, id).frames| == |s.frames| - 1
  {
    var t := Drop(s, id);
    assert FrameCoherent(s, held, id);
    assert t.frames.Keys == s.frames.Keys - {id};
    assert |t.frames| == |t.frames.Keys| && |s.frames| == |s.frames.Keys|;
    forall other | other in t.frames
      ensures FrameCoherent(t, held, other)
    {
      assert FrameCoherent(s, held, other);
    }
    forall other, wrote | (other, wrote) in held
      ensures other in t.frames
    {
      assert held[(other, wrote)] > 0;
    }
    forall i: nat | i < |s.disk|
      ensures PageSeen(t, i) == PageSeen(s, i)
    {
    }
  }

  lemma EvictKeeps(s: Pool, held: Held)
    requires Coherent(s, held) && HasVictim(s)
    ensures Coherent(Evict(s), held)
    ensures View(Evict(s)) == View(s)
    ensures |Evict(s).frames| == |s.frames| - 1
    ensures Evict(s).frames.Keys == s.frames.Keys - {Victim(s)}
  {
    var v := Victim(s);
    FlushKeeps(s, held, v);
    var f := FlushPage(s, v);
    assert f.frames.Keys == s.frames.Keys;
    assert |f.frames| == |f.frames.Keys| && |s.frames| == |s.frames.Keys|;
    DropKeeps(f, held, v);
  }

  lemma MakeRoomKeeps(s: Pool, held: Held)
    requires Coherent(s, held)
    ensures Coherent(MakeRoom(s), held) && View(MakeRoom(s)) == View(s)
    ensures MakeRoom(s).frames.Keys <= s.frames.Keys
    ensures s.capacity > 0 && (|s.frames| >= s.capacity ==> HasVictim(s)) ==> |MakeRoom(s).frames| < s.capacity
  {
    if |s.frames| >= s.capacity && HasVictim(s) {
      EvictKeeps(s, held);
    }
  }

  // The guard returned by a fetch shows the page's current bytes, and nothing else is changed by it.
  lemma FetchKeeps(s: Pool, held: Held, id: PageId)
    requires Coherent(s, held)
    ensures View(Fetch(s, id).0) == View(s)
    ensures Fetch(s, id).1.Some? ==> Coherent(Fetch(s, id).0, held)
    ensures Fetch(s, id).1.None? ==>
      && id < |s.disk| && id in Fetch(s, id).0.frames
      && Fetch(s, id).0.frames[id].bytes == View(s)[id]
      && Coherent(Fetch(s, id).0, held + multiset{(id, false)})
    ensures Fetch(s, id).0.frames.Keys <= s.frames.Keys + {id}
  {
    hide View, Stamped, Evict, HasVictim;
    var r := Load(s, id).0;
    MakeRoomKeeps(s, held);
    if Load(s, id).1.None? {
      if id in s.frames {
        CoherentArrives(s, held, id);
      } else {
        LoadKeeps(s, held, id);
      }
      TouchKeeps(r, held, id);
    }
  }

  lemma LoadKeeps(s: Pool, held: Held, id: PageId)
    requires Coherent(s, held) && Load(s, id).1.None? && id !in s.frames
    ensures View(Load(s, id).0) == View(s)
    ensures Arriving(Load(s, id).0, held, id)
  {
    MakeRoomKeeps(s, held);
    ReadInKeeps(MakeRoom(s), held, id);
  }

  lemma ReadInShows(s: Pool, id: PageId)
    requires id !in s.frames && id < |s.disk|
    ensures View(ReadIn(s, id)) == View(s)
  {
    forall i: nat | i < |s.disk|
      ensures PageSeen(ReadIn(s, id), i) == PageSeen(s, i)
    {}
  }

  lemma ReadInKeepsFrame(s: Pool, held: Held, id: PageId, a: PageId)
    requires Coherent(s, held) && id !in s.frames && id < |s.disk| && (a in s.frames || a == id)
    ensures FrameCoherent(ReadIn(s, id), held, a)
  {
    if a != id {
      assert FrameCoherent(s, held, a);
    } else {
      assert held[(id, false)] == 0 && held[(id, true)] == 0;
    }
  }

  lemma ReadInStamps(s: Pool, id: PageId)
    requires Stamped(s) && id < |s.disk|
    ensures StampedBut(ReadIn(s, id), id)
  {}

  lemma ReadInOne(s: Pool, id: PageId)
    requires id !in s.frames && id < |s.disk|
    ensures |ReadIn(s, id).frames| == |s.frames| + 1
  {
    var t := ReadIn(s, id);
    assert t.frames.Keys == s.frames.Keys + {id};
    assert |t.frames| == |t.frames.Keys| && |s.frames| == |s.frames.Keys|;
  }

  lemma ReadInKeeps(s: Pool, held: Held, id: PageId)
    requires Coherent(s, held) && |s.frames| < s.capacity && id !in s.frames && id < |s.disk|
    ensures View(ReadIn(s, id)) == View(s)
    ensures Arriving(ReadIn(s, id), held, id)
  {
    hide View, Stamped, StampedBut, FrameCoherent;
    ReadInShows(s, id);
    ReadInStamps(s, id);
    var t := ReadIn(s, id);
    ReadInOne(s, id);
    forall a | a in t.frames
      ensures FrameCoherent(t, held, a)
    {
      ReadInKeepsFrame(s, held, id, a);
    }
  }

  // Coherent, but for the time stamp of the frame that is about to be touched.
  ghost predicate Arriving(s: Pool, held: Held, id: PageId) {
    && id in s.frames && Resident(s) && |s.frames| <= s.capacity
    && StampedBut(s, id)
    && (forall a :: a in s.frames ==> FrameCoherent(s, held, a))
    && (forall a, wrote :: (a, wrote) in held ==> a in s.frames)
  }

  ghost predicate StampedBut(s: Pool, id: PageId) {
    && (forall a :: a in s.frames ==> s.frames[a].lastUsed <= s.clock)
    && (forall a, b :: a in s.frames && b in s.frames && a != b && a != id && b != id ==>
          s.frames[a].lastUsed != s.frames[b].lastUsed)
  }

  lemma CoherentArrives(s: Pool, held: Held, id: PageId)
    requires Coherent(s, held) && id in s.frames
    ensures Arriving(s, held, id)
  {}

  lemma TouchKeeps(s: Pool, held: Held, id: PageId)
    requires Arriving(s, held, id)
    ensures View(Touch(s, id)) == View(s)
    ensures Coherent(Touch(s, id), held + multiset{(id, false)})
    ensures Touch(s, id).frames[id].bytes == View(s)[id]
  {
    var t := Touch(s, id);
    SameView(s, t);
    assert View(s)[id] == PageSeen(s, id);
    hide View;
    TouchStamps(s, held, id);
    hide Stamped;
    assert t.frames.Keys == s.frames.Keys;
    assert |t.frames| == |t.frames.Keys| && |s.frames| == |s.frames.Keys|;
    forall a | a in t.frames
      ensures FrameCoherent(t, held + multiset{(id, false)}, a)
    {
      TouchKeepsFrame(s, held, id, a);
    }
    hide FrameCoherent;
    forall a, w | (a, w) in held + multiset{(id, false)}
      ensures a in t.frames
    {
      assert (a, w) == (id, false) || (a, w) in held;
    }
  }

  lemma TouchStamps(s: Pool, held: Held, id: PageId)
    requires Arriving(s, held, id)
    ensures Stamped(Touch(s, id))
  {}

  lemma TouchKeepsFrame(s: Pool, held: Held, id: PageId, a: PageId)
    requires Arriving(s, held, id) && a in s.frames
    ensures FrameCoherent(Touch(s, id), held + multiset{(id, false)}, a)
  {
    assert FrameCoherent(s, held, a);
  }

  // A step that keeps the resident set keeps coherence once frames, stamps and guards are right.
  lemma Rebuilt(s: Pool, held: Held, t: Pool, after: Held)
    requires Coherent(s, held)
    requires t.frames.Keys == s.frames.Keys && t.capacity == s.capacity && |t.disk| == |s.disk|
    requires Stamped(t)
    requires forall a :: a in s.frames ==> FrameCoherent(t, after, a)
    requires forall a, w :: (a, w) in after ==> a in s.frames
    ensures Coherent(t, after)
  {
    assert |t.frames| == |t.frames.Keys| && |s.frames| == |s.frames.Keys|;
  }

  lemma SameView(s: Pool, t: Pool)
    requires |s.disk| == |t.disk|
    requires forall i: nat :: i < |s.disk| ==> PageSeen(t, i) == PageSeen(s, i)
    ensures View(t) == View(s)
  {}

  lemma UnpinShows(s: Pool, id: PageId, dirty: bool)
    requires id in s.frames
    ensures View(Unpin(s, id, dirty)) == View(s)
  {
    forall i: nat | i < |s.disk|
      ensures PageSeen(Unpin(s, id, dirty), i) == PageSeen(s, i)
    {}
  }

  lemma UnpinStamps(s: Pool, id: PageId, dirty: bool)
    requires Stamped(s) && id in s.frames
    ensures Stamped(Unpin(s, id, dirty))
  {}

  lemma UnpinKeepsFrame(s: Pool, held: Held, id: PageId, wrote: bool, dirty: bool, a: PageId)
    requires Coherent(s, held) && (id, wrote) in held && (wrote ==> dirty) && a in s.frames
    ensures FrameCoherent(Unpin(s, id, dirty), held - multiset{(id, wrote)}, a)
  {
    assert FrameCoherent(s, held, a);
  }

  lemma UnpinKeeps(s: Pool, held: Held, id: PageId, wrote: bool, dirty: bool)
    requires Coherent(s, held) && (id, wrote) in held && (wrote ==> dirty)
    ensures id in s.frames
    ensures View(Unpin(s, id, dirty)) == View(s)
    ensures Coherent(Unpin(s, id, dirty), held - multiset{(id, wrote)})
  {
    hide View, Stamped, FrameCoherent;
    var t, fewer := Unpin(s, id, dirty), held - multiset{(id, wrote)};
    UnpinShows(s, id, dirty);
    UnpinStamps(s, id, dirty);
    assert t.frames.Keys == s.frames.Keys;
    forall a | a in s.frames
      ensures FrameCoherent(t, fewer, a)
    {
      UnpinKeepsFrame(s, held, id, wrote, dirty, a);
    }
    forall a, w | (a, w) in fewer
      ensures a in s.frames
    {
      assert (a, w) in held;
    }
    Rebuilt(s, held, t, fewer);
  }

  lemma ModifyKeeps(s: Pool, held: Held, id: PageId, wrote: bool, bytes: Page)
    requires Coherent(s, held) && (id, wrote) in held
    ensures id in s.frames && id < |s.disk|
    ensures View(Modify(s, id, bytes)) == View(s)[id := bytes]
    ensures Coherent(Modify(s, id, bytes), held - multiset{(id, wrote)} + multiset{(id, true)})
  {
    hide View, Stamped, FrameCoherent;
    ModifyShows(s, id, bytes);
    var t := Modify(s, id, bytes);
    var after := held - multiset{(id, wrote)} + multiset{(id, true)};
    assert t.frames.Keys == s.frames.Keys;
    StampsKept(s, t);
    forall a | a in s.frames
      ensures FrameCoherent(t, after, a)
    {
      ModifyKeepsFrame(s, held, id, wrote, bytes, a);
    }
    forall a, w | (a, w) in after
      ensures a in s.frames
    {
      assert (a, w) == (id, true) || (a, w) in held;
    }
    Rebuilt(s, held, t, after);
  }

  lemma ModifyShows(s: Pool, id: PageId, bytes: Page)
    requires id in s.frames && id < |s.disk|
    ensures View(Modify(s, id, bytes)) == View(s)[id := bytes]
  {
    forall i: nat | i < |s.disk|
      ensures PageSeen(Modify(s, id, bytes), i) == if i == id then bytes else PageSeen(s, i)
    {
    }
  }

  lemma ModifyKeepsFrame(s: Pool, held: Held, id: PageId, wrote: bool, bytes: Page, a: PageId)
    requires Coherent(s, held) && (id, wrote) in held && a in s.frames
    ensures FrameCoherent(Modify(s, id, bytes), held - multiset{(id, wrote)} + multiset{(id, true)}, a)
  {
    assert FrameCoherent(s, held, a);
  }

  lemma AllocateKeeps(s: Pool, held: Held)
    requires Coherent(s, held)
    ensures Coherent(Allocate(s), held)
    ensures View(Allocate(s)) == View(s) + [Zeros(PAGE_SIZE)]
  {
    var t := Allocate(s);
    forall i: nat | i < |s.disk|
      ensures PageSeen(t, i) == PageSeen(s, i)
    {
    }
    forall a | a in t.frames
      ensures FrameCoherent(t, held, a)
    {
      assert FrameCoherent(s, held, a);
    }
  }

  // Page `id` is written on disk without the pool's knowledge.
  ghost function WriteAround(s: Pool, id: PageId, page: Page): Pool
    requires id < |s.disk|
  {
    Pool(s.disk[id := page], s.capacity, s.clock, s.frames)
  }

  // That is safe as long as the page is not resident.
  lemma WriteAroundKeeps(s: Pool, held: Held, id: PageId, page: Page)
    requires Coherent(s, held) && id < |s.disk| && id !in s.frames
    ensures Coherent(WriteAround(s, id, page), held)
    ensures View(WriteAround(s, id, page)) == View(s)[id := page]
  {
    var t := WriteAround(s, id, page);
    forall i: nat | i < |s.disk|
      ensures PageSeen(t, i) == if i == id then page else PageSeen(s, i)
    {
    }
    forall a | a in t.frames
      ensures FrameCoherent(t, held, a)
    {
      assert FrameCoherent(s, held, a);
    }
  }

  // ---------- Flushing every frame ----------

  ghost function FlushAmong(s: Pool, ids: set<PageId>): Pool {
    Pool(seq(|s.disk|, i requires 0 <= i < |s.disk| =>
           if i in s.frames && i in ids && s.frames[i].dirty then s.frames[i].bytes else s.disk[i]),
         s.capacity, s.clock,
         map id | id in s.frames :: if id in ids then Clean(s.frames[id]) else s.frames[id])
  }

  ghost function FlushAll(s: Pool): Pool {
    FlushAmong(s, s.frames.Keys)
  }

  // One more frame of the flush_all loop; the frames may be visited in any order.
  lemma FlushOneMore(s: Pool, ids: set<PageId>, id: PageId)
    requires Resident(s) && id in s.frames && id !in ids
    ensures FlushPage(FlushAmong(s, ids), id) == FlushAmong(s, ids + {id})
  {
    var a := FlushPage(FlushAmong(s, ids), id);
    var b := FlushAmong(s, ids + {id});
    assert a.disk == b.disk;
    assert a.frames == b.frames;
  }

  lemma FlushEach(s: Pool)
    ensures FlushAll(s) == FlushAmong(s, s.frames.Keys)
  {}

  lemma FlushNone(s: Pool)
    ensures FlushAmong(s, {}) == s
  {
    assert FlushAmong(s, {}).disk == s.disk;
    assert FlushAmong(s, {}).frames == s.frames;
  }

  lemma FlushAmongShows(s: Pool, ids: set<PageId>)
    requires Resident(s)
    ensures View(FlushAmong(s, ids)) == View(s)
  {
    forall i: nat | i < |s.disk|
      ensures PageSeen(FlushAmong(s, ids), i) == PageSeen(s, i)
    {}
  }

  lemma FlushAmongKeepsFrame(s: Pool, held: Held, ids: set<PageId>, a: PageId)
    requires Coherent(s, held) && a in s.frames
    ensures FrameCoherent(FlushAmong(s, ids), held, a)
  {
    assert FrameCoherent(s, held, a);
  }

  lemma FlushAmongKeeps(s: Pool, held: Held, ids: set<PageId>)
    requires Coherent(s, held)
    ensures Coherent(FlushAmong(s, ids), held)
    ensures View(FlushAmong(s, ids)) == View(s)
  {
    hide View, Stamped, FrameCoherent;
    var t := FlushAmong(s, ids);
    FlushAmongShows(s, ids);
    assert t.frames.Keys == s.frames.Keys;
    StampsKept(s, t);
    forall a | a in s.frames
      ensures FrameCoherent(t, held, a)
    {
      FlushAmongKeepsFrame(s, held, ids, a);
    }
    Rebuilt(s, held, t, held);
  }

  // With no write outstanding, flushing makes the disk equal to what the pool shows.
  lemma FlushAllKeeps(s: Pool, held: Held)
    requires Coherent(s, held)
    ensures Coherent(FlushAll(s), held)
    ensures View(FlushAll(s)) == View(s)
    ensures (forall id :: held[(id, true)] == 0) ==> FlushAll(s).disk == View(s)
    ensures FlushAll(s).frames.Keys == s.frames.Keys
  {
    FlushAmongKeeps(s, held, s.frames.Keys);
    forall i: nat | i < |s.disk|
      ensures held[(i, true)] == 0 ==> FlushAll(s).disk[i] == PageSeen(s, i)
    {
      if i in s.frames {
        assert FrameCoherent(s, held, i);
      }
    }
  }

  // ---------- When a fetch fails ----------

  // A fetch of a page on disk fails only when the page is not resident and every frame is pinned.
  lemma FetchFails(s: Pool, held: Held, id: PageId)
    requires Coherent(s, held)
    ensures Fetch(s, id).1 == Some(NoEvictableFrame) <==>
      id !in s.frames && |s.frames| == s.capacity && forall a :: a in s.frames ==> s.frames[a].pins > 0
    ensures Fetch(s, id).1 == Some(InvalidPageId) <==>
      id >= |s.disk| && Fetch(s, id).1 != Some(NoEvictableFrame)
  {
    VictimExists(s);
    if a :| a in s.frames && s.frames[a].pins == 0 {
      assert Unpinned(s, a);
    }
  }

  // Pin discipline pays: while no guard is out, a pool of any positive capacity can always fetch.
  lemma IdleFetchSucceeds(s: Pool, id: PageId)
    requires Coherent(s, multiset{}) && s.capacity > 0 && id < |s.disk|
    ensures Fetch(s, id).1.None?
  {
    FetchFails(s, multiset{}, id);
    if a :| a in s.frames {
      assert FrameCoherent(s, multiset{}, a);
    }
  }

  // ---------- Whole runs against an uncached array of pages ----------

  datatype Step =
    | Fetching(id: PageId)
    | Modifying(id: PageId, wrote: bool, bytes: Page)
    | Releasing(id: PageId, wrote: bool, dirty: bool)
    | Flushing(id: PageId)
    | FlushingAll
    | Allocating

  datatype Session = Session(pool: Pool, held: Held)

  // Guards are used while held, and one that wrote is marked dirty before it is released.
  ghost predicate Legal(x: Session, step: Step) {
    match step
    case Modifying(id, wrote, _) => (id, wrote) in x.held
    case Releasing(id, wrote, dirty) => (id, wrote) in x.held && (wrote ==> dirty)
    case _ => true
  }

  ghost function Next(x: Session, step: Step): Session
    requires Coherent(x.pool, x.held) && Legal(x, step)
  {
    match step
    case Fetching(id) =>
      Session(Fetch(x.pool, id).0,
              if Fetch(x.pool, id).1.None? then x.held + multiset{(id, false)} else x.held)
    case Modifying(id, wrote, bytes) =>
      Session(Modify(x.pool, id, bytes), x.held - multiset{(id, wrote)} + multiset{(id, true)})
    case Releasing(id, wrote, dirty) =>
      Session(Unpin(x.pool, id, dirty), x.held - multiset{(id, wrote)})
    case Flushing(id) => Session(FlushPage(x.pool, id), x.held)
    case FlushingAll => Session(FlushAll(x.pool), x.held)
    case Allocating => Session(Allocate(x.pool), x.held)
  }

  // The same step on a plain array of pages.
  ghost function Uncached(v: seq<Page>, step: Step): seq<Page> {
    match step
    case Modifying(id, _, bytes) => if id < |v| then v[id := bytes] else v
    case Allocating => v + [Zeros(PAGE_SIZE)]
    case _ => v
  }

  lemma StepKeeps(x: Session, step: Step)
    requires Coherent(x.pool, x.held) && Legal(x, step)
    ensures Coherent(Next(x, step).pool, Next(x, step).held)
    ensures View(Next(x, step).pool) == Uncached(View(x.pool), step)
  {
    hide Coherent, View, Fetch, Modify, Unpin, FlushPage, FlushAll, Allocate;
    CoherentFacts(x.pool, x.held);
    match step
    case Fetching(id) => FetchKeeps(x.pool, x.held, id);
    case Modifying(id, wrote, bytes) => ModifyKeeps(x.pool, x.held, id, wrote, bytes);
    case Releasing(id, wrote, dirty) => UnpinKeeps(x.pool, x.held, id, wrote, dirty);
    case Flushing(id) => FlushKeeps(x.pool, x.held, id);
    case FlushingAll => FlushAllKeeps(x.pool, x.held);
    case Allocating => AllocateKeeps(x.pool, x.held);
  }

  ghost predicate LegalRun(x: Session, steps: seq<Step>)
    requires Coherent(x.pool, x.held)
    decreases |steps|
  {
    steps == [] ||
    (Legal(x, steps[0]) && (StepKeeps(x, steps[0]); LegalRun(Next(x, steps[0]), steps[1..])))
  }

  // Along the run, the bytes behind every guard handed out are those of the plain array v.
  ghost predicate FetchesSee(x: Session, v: seq<Page>, steps: seq<Step>)
    requires Coherent(x.pool, x.held) && LegalRun(x, steps)
    decreases |steps|
  {
    steps == [] ||
    (&& (steps[0].Fetching? && Fetch(x.pool, steps[0].id).1.None? ==>
           && steps[0].id < |v|
           && steps[0].id in Fetch(x.pool, steps[0].id).0.frames
           && Fetch(x.pool, steps[0].id).0.frames[steps[0].id].bytes == v[steps[0].id])
     && (StepKeeps(x, steps[0]); FetchesSee(Next(x, steps[0]), Uncached(v, steps[0]), steps[1..])))
  }

  // The cache is invisible: under any legal interleaving every fetch sees the last bytes written.
  lemma {:induction false} Transparent(x: Session, steps: seq<Step>)
    requires Coherent(x.pool, x.held) && LegalRun(x, steps)
    ensures FetchesSee(x, View(x.pool), steps)
    decreases |steps|
  {
    if steps != [] {
      StepKeeps(x, steps[0]);
      if steps[0].Fetching? {
        FetchKeeps(x.pool, x.held, steps[0].id);
      }
      Transparent(Next(x, steps[0]), steps[1..]);
    }
  }
}
