// Which pages a pool keeps: over any run of accesses, exactly the most recently used ones.
module PoolLru {
  import opened Bytes
  import opened Results
  import opened PoolSpec

  // One access: fetch the page, perhaps overwrite it, release the guard.
  datatype Use = Use(id: PageId, write: Option<Page>)

  ghost function Access(s: Pool, use: Use): Pool
    requires Usable(s) && use.id < |s.disk|
  {
    IdleFetchSucceeds(s, use.id);
    FetchKeeps(s, multiset{}, use.id);
    var fetched := Fetch(s, use.id).0;
    var written := if use.write.Some? then Modify(fetched, use.id, use.write.value) else fetched;
    Unpin(written, use.id, use.write.Some?)
  }

  // A pool between operations: coherent and with no guard out.
  ghost predicate Usable(s: Pool) {
    Coherent(s, multiset{}) && s.capacity > 0
  }

  ghost predicate AllOnDisk(uses: seq<Use>, count: nat) {
    forall i :: 0 <= i < |uses| ==> uses[i].id < count
  }

  lemma AccessKeeps(s: Pool, use: Use)
    requires Usable(s) && use.id < |s.disk|
    ensures Usable(Access(s, use)) && Access(s, use).capacity == s.capacity
    ensures View(Access(s, use)) == if use.write.Some? then View(s)[use.id := use.write.value] else View(s)
  {
    hide FrameCoherent, View, Fetch, Unpin, Modify;
    IdleFetchSucceeds(s, use.id);
    FetchKeeps(s, multiset{}, use.id);
    var fetched := Fetch(s, use.id).0;
    var held := multiset{(use.id, false)};
    assert multiset{} + held == held;
    if use.write.Some? {
      ModifyKeeps(fetched, held, use.id, false, use.write.value);
      var written := Modify(fetched, use.id, use.write.value);
      var wrote := multiset{(use.id, true)};
      assert held - multiset{(use.id, false)} + wrote == wrote;
      UnpinKeeps(written, wrote, use.id, true, true);
      assert wrote - wrote == multiset{};
    } else {
      UnpinKeeps(fetched, held, use.id, false, false);
      assert held - held == multiset{};
    }
    AccessCapacity(s, use);
  }

  lemma AccessCapacity(s: Pool, use: Use)
    requires Usable(s) && use.id < |s.disk|
    ensures Access(s, use).capacity == s.capacity
  {
    hide Coherent, FrameCoherent, View;
    FetchKeeps(s, multiset{}, use.id);
    MakeRoomKeeps(s, multiset{});
  }

  ghost function Run(s: Pool, uses: seq<Use>): (t: Pool)
    requires Usable(s) && AllOnDisk(uses, |s.disk|)
    ensures Usable(t) && |t.disk| == |s.disk| && t.capacity == s.capacity
  {
    if uses == [] then s
    else
      var before := Run(s, uses[..|uses| - 1]);
      AccessKeeps(before, uses[|uses| - 1]);
      assert |View(before)| == |before.disk|;
      Access(before, uses[|uses| - 1])
  }

  // ---------- The most recently used pages of a run ----------

  ghost function Without(ids: seq<PageId>, x: PageId): (r: seq<PageId>)
    ensures forall id :: id in r <==> id in ids && id != x
    ensures |r| <= |ids|
  {
    if ids == [] then []
    else if ids[0] == x then Without(ids[1..], x)
    else [ids[0]] + Without(ids[1..], x)
  }

  // The distinct pages of the run, latest use first.
  ghost function LatestFirst(uses: seq<Use>): seq<PageId> {
    if uses == [] then []
    else
      var last := uses[|uses| - 1].id;
      [last] + Without(LatestFirst(uses[..|uses| - 1]), last)
  }

  ghost predicate Distinct(ids: seq<PageId>) {
    ids == [] || (ids[0] !in ids[1..] && Distinct(ids[1..]))
  }

  ghost function Take(ids: seq<PageId>, n: nat): seq<PageId> {
    if n < |ids| then ids[..n] else ids
  }

  ghost function Elements(ids: seq<PageId>): set<PageId> {
    set id | id in ids
  }

  lemma {:induction false} WithoutDistinct(ids: seq<PageId>, x: PageId)
    requires Distinct(ids)
    ensures Distinct([x] + Without(ids, x))
  {
    var rest := Without(ids, x);
    assert ([x] + rest)[1..] == rest;
    if ids != [] {
      WithoutDistinct(ids[1..], x);
      var tail := Without(ids[1..], x);
      assert ([x] + tail)[1..] == tail;
      if ids[0] != x {
        assert rest[1..] == tail;
      }
    }
  }

  lemma {:induction false} WithoutAbsent(ids: seq<PageId>, x: PageId)
    requires x !in ids
    ensures Without(ids, x) == ids
  {
    if ids != [] {
      WithoutAbsent(ids[1..], x);
    }
  }

  lemma TakeTake(ids: seq<PageId>, n: nat)
    ensures Take(Take(ids, n + 1), n) == Take(ids, n)
  {}

  lemma TakeFront(id: PageId, ids: seq<PageId>, n: nat)
    ensures Take([id] + ids, n + 1) == [id] + Take(ids, n)
  {}

  // Moving x to the front keeps the others among the first n in place.
  lemma {:induction false} TakeWithout(ids: seq<PageId>, x: PageId, n: nat)
    requires Distinct(ids)
    ensures x !in Take(ids, n) ==> Take(Without(ids, x), n) == Take(ids, n)
    ensures n > 0 && x in Take(ids, n) ==> Take(Without(ids, x), n - 1) == Without(Take(ids, n), x)
  {
    if ids != [] && n > 0 {
      var tail := Take(ids[1..], n - 1);
      TakeFront(ids[0], ids[1..], n - 1);
      assert [ids[0]] + ids[1..] == ids;
      assert Take(ids, n) == [ids[0]] + tail && Take(ids, n)[1..] == tail;
      TakeWithout(ids[1..], x, n - 1);
      if ids[0] == x {
        WithoutAbsent(ids[1..], x);
        assert forall y :: y in tail ==> y in ids[1..];
        WithoutAbsent(tail, x);
      } else {
        TakeFront(ids[0], Without(ids[1..], x), n - 1);
        if n > 1 {
          TakeFront(ids[0], Without(ids[1..], x), n - 2);
        }
      }
    }
  }

  lemma {:induction false} DistinctSize(ids: seq<PageId>)
    requires Distinct(ids)
    ensures |Elements(ids)| == |ids|
  {
    if ids != [] {
      DistinctSize(ids[1..]);
      assert Elements(ids) == {ids[0]} + Elements(ids[1..]);
    }
  }

  lemma {:induction false} DistinctTake(ids: seq<PageId>, n: nat)
    requires Distinct(ids)
    ensures Distinct(Take(ids, n))
  {
    if ids != [] && n > 0 {
      DistinctTake(ids[1..], n - 1);
      assert Take(ids, n) == [ids[0]] + Take(ids[1..], n - 1);
      assert Take(ids, n)[1..] == Take(ids[1..], n - 1);
    }
  }

  // ---------- Time stamps along that list ----------

  // Each page of the list was last used before `bound`, and before the page ahead of it.
  ghost predicate Descending(frames: map<PageId, Frame>, ids: seq<PageId>, bound: nat) {
    ids == [] ||
    (&& ids[0] in frames && frames[ids[0]].lastUsed < bound
     && Descending(frames, ids[1..], frames[ids[0]].lastUsed))
  }

  lemma {:induction false} DescendingBound(frames: map<PageId, Frame>, ids: seq<PageId>, bound: nat, other: nat)
    requires Descending(frames, ids, bound)
    requires bound <= other
    ensures Descending(frames, ids, other)
  {}

  lemma {:induction false} DescendingWithout(frames: map<PageId, Frame>, ids: seq<PageId>, x: PageId, bound: nat)
    requires Descending(frames, ids, bound)
    ensures Descending(frames, Without(ids, x), bound)
  {
    if ids != [] {
      DescendingWithout(frames, ids[1..], x, frames[ids[0]].lastUsed);
      if ids[0] == x {
        DescendingBound(frames, Without(ids[1..], x), frames[ids[0]].lastUsed, bound);
      } else {
        assert Without(ids, x)[1..] == Without(ids[1..], x);
      }
    }
  }

  lemma {:induction false} DescendingPrefix(frames: map<PageId, Frame>, ids: seq<PageId>, n: nat, bound: nat)
    requires Descending(frames, ids, bound)
    ensures Descending(frames, Take(ids, n), bound)
  {
    if ids != [] && n > 0 {
      DescendingPrefix(frames, ids[1..], n - 1, frames[ids[0]].lastUsed);
      assert Take(ids, n) == [ids[0]] + Take(ids[1..], n - 1);
      assert Take(ids, n)[1..] == Take(ids[1..], n - 1);
    }
  }

  // The last page of the list is the one used longest ago.
  lemma {:induction false} DescendingLast(frames: map<PageId, Frame>, ids: seq<PageId>, bound: nat, id: PageId)
    requires Descending(frames, ids, bound) && id in ids
    ensures id in frames && ids[|ids| - 1] in frames
    ensures frames[ids[|ids| - 1]].lastUsed <= frames[id].lastUsed < bound
  {
    if |ids| > 1 {
      var next := if id == ids[0] then ids[1] else id;
      DescendingLast(frames, ids[1..], frames[ids[0]].lastUsed, next);
    }
  }

  lemma {:induction false} DescendingSame(before: map<PageId, Frame>, after: map<PageId, Frame>, ids: seq<PageId>, bound: nat)
    requires Descending(before, ids, bound)
    requires forall id :: id in ids ==> id in before && id in after && after[id].lastUsed == before[id].lastUsed
    ensures Descending(after, ids, bound)
  {
    if ids != [] {
      DescendingSame(before, after, ids[1..], before[ids[0]].lastUsed);
    }
  }

  // ---------- One access ----------

  // The resident pages are the first `capacity` of m, in decreasing order of last use.
  ghost predicate Ranked(s: Pool, m: seq<PageId>) {
    && Distinct(m)
    && s.frames.Keys == Elements(Take(m, s.capacity))
    && Descending(s.frames, Take(m, s.capacity), s.clock + 1)
  }

  // Who is resident after an access, and in what order.
  ghost predicate Accessed(s: Pool, id: PageId, t: Pool) {
    && t.frames.Keys == Kept(s, id) + {id}
    && (forall other :: other in Kept(s, id) && other != id ==>
          other in s.frames && t.frames[other].lastUsed == s.frames[other].lastUsed)
    && s.clock < t.frames[id].lastUsed == t.clock
    && t.capacity == s.capacity
  }

  ghost function Kept(s: Pool, id: PageId): set<PageId> {
    if id !in s.frames && |s.frames| >= s.capacity && HasVictim(s) then s.frames.Keys - {Victim(s)} else s.frames.Keys
  }

  lemma LoadedFrames(s: Pool, id: PageId)
    requires Usable(s) && id < |s.disk|
    ensures Fetch(s, id).1.None?
    ensures Fetch(s, id).0.frames.Keys == Kept(s, id) + {id}
    ensures Fetch(s, id).0.capacity == s.capacity && Fetch(s, id).0.clock == s.clock + 1
    ensures forall other :: other in Kept(s, id) && other != id ==>
      other in s.frames && Fetch(s, id).0.frames[other].lastUsed == s.frames[other].lastUsed
  {
    hide Coherent, View, MakeRoom, HasVictim, Kept, ReadIn, Touch;
    CoherentFacts(s, multiset{});
    IdleFetchSucceeds(s, id);
    RoomFrames(s, id);
    if id in s.frames {
      TouchedFrames(s, id);
    } else {
      ReadInFrames(MakeRoom(s), id);
      TouchedFrames(ReadIn(MakeRoom(s), id), id);
    }
  }

  lemma TouchedFrames(s: Pool, id: PageId)
    requires id in s.frames
    ensures var t := Touch(s, id);
      && t.frames.Keys == s.frames.Keys && t.capacity == s.capacity && t.clock == s.clock + 1
      && forall other :: other in s.frames && other != id ==> t.frames[other].lastUsed == s.frames[other].lastUsed
  {}

  lemma ReadInFrames(s: Pool, id: PageId)
    requires id < |s.disk|
    ensures var t := ReadIn(s, id);
      && t.frames.Keys == s.frames.Keys + {id} && t.capacity == s.capacity && t.clock == s.clock
      && forall other :: other in s.frames && other != id ==> t.frames[other].lastUsed == s.frames[other].lastUsed
  {}

  lemma RoomFrames(s: Pool, id: PageId)
    requires Usable(s)
    ensures Resident(s) && MakeRoom(s).capacity == s.capacity && MakeRoom(s).clock == s.clock && |MakeRoom(s).disk| == |s.disk|
    ensures Kept(s, id) == if id in s.frames then s.frames.Keys else MakeRoom(s).frames.Keys
    ensures forall other :: other in MakeRoom(s).frames ==>
      other in s.frames && MakeRoom(s).frames[other].lastUsed == s.frames[other].lastUsed
  {
    hide FrameCoherent, View, Stamped;
    if |s.frames| >= s.capacity && HasVictim(s) {
      EvictKeeps(s, multiset{});
    }
  }

  lemma AccessFrames(s: Pool, use: Use)
    requires Usable(s) && use.id < |s.disk|
    ensures Accessed(s, use.id, Access(s, use))
  {
    hide FrameCoherent, View, Fetch, HasVictim, Kept, Stamped;
    LoadedFrames(s, use.id);
    var f := Fetch(s, use.id).0;
    assert Access(s, use).frames.Keys == f.frames.Keys;
  }

  lemma {:induction false} RankedKeeps(s: Pool, m: seq<PageId>, use: Use)
    requires Usable(s) && use.id < |s.disk| && Ranked(s, m)
    ensures Ranked(Access(s, use), [use.id] + Without(m, use.id))
  {
    var t := Access(s, use);
    AccessFrames(s, use);
    WithoutDistinct(m, use.id);
    TakeWithout(m, use.id, s.capacity);
    if use.id in Take(m, s.capacity) {
      HitRanked(s, t, m, use.id);
    } else {
      MissRanked(s, t, m, use.id);
    }
  }

  // A hit moves the page to the front.
  lemma HitRanked(s: Pool, t: Pool, m: seq<PageId>, id: PageId)
    requires Ranked(s, m) && Accessed(s, id, t) && s.capacity > 0
    requires id in Take(m, s.capacity)
    requires Take(Without(m, id), s.capacity - 1) == Without(Take(m, s.capacity), id)
    ensures t.frames.Keys == Elements(Take([id] + Without(m, id), t.capacity))
    ensures Descending(t.frames, Take([id] + Without(m, id), t.capacity), t.clock + 1)
  {
    var top := Take(m, s.capacity);
    var rest := Without(top, id);
    assert id in Elements(top);
    assert Take([id] + Without(m, id), t.capacity) == [id] + rest;
    assert Elements([id] + rest) == Elements(top);
    DescendingWithout(s.frames, top, id, s.clock + 1);
    FrontDescending(s, t, id, rest);
  }

  // A miss puts the page in front and, in a full pool, pushes the last one out.
  lemma MissRanked(s: Pool, t: Pool, m: seq<PageId>, id: PageId)
    requires Usable(s) && Ranked(s, m) && Accessed(s, id, t)
    requires id !in Take(m, s.capacity)
    requires Take(Without(m, id), s.capacity) == Take(m, s.capacity)
    ensures t.frames.Keys == Elements(Take([id] + Without(m, id), t.capacity))
    ensures Descending(t.frames, Take([id] + Without(m, id), t.capacity), t.clock + 1)
  {
    hide Coherent, Kept, Distinct, Without, Descending, Elements, HasVictim;
    MissKept(s, m, id);
    var rest := Take(m, s.capacity - 1);
    MissFront(m, Without(m, id), id, s.capacity - 1);
    TakeTake(m, s.capacity - 1);
    DescendingPrefix(s.frames, Take(m, s.capacity), s.capacity - 1, s.clock + 1);
    ElementsFront(id, rest);
    FrontDescending(s, t, id, rest);
  }

  lemma MissFront(m: seq<PageId>, w: seq<PageId>, id: PageId, n: nat)
    requires Take(w, n + 1) == Take(m, n + 1) && id !in Take(m, n + 1)
    ensures Take([id] + w, n + 1) == [id] + Take(m, n)
    ensures id !in Take(m, n)
  {
    TakeTake(m, n);
    TakeTake(w, n);
    TakeFront(id, w, n);
    assert forall y :: y in Take(m, n) ==> y in Take(m, n + 1);
  }

  lemma ElementsFront(id: PageId, rest: seq<PageId>)
    ensures Elements([id] + rest) == {id} + Elements(rest)
  {}

  lemma MissKept(s: Pool, m: seq<PageId>, id: PageId)
    requires Usable(s) && Ranked(s, m) && id !in Take(m, s.capacity)
    ensures Kept(s, id) == Elements(Take(m, s.capacity - 1))
    ensures id !in s.frames
  {
    hide FrameCoherent, View, Stamped;
    var c := s.capacity;
    var top := Take(m, c);
    assert id !in Elements(top);
    DistinctTake(m, c);
    DistinctSize(top);
    assert |s.frames| == |s.frames.Keys| == |top|;
    if |m| < c {
      assert Take(m, c - 1) == top;
    } else {
      var rest := Take(m, c - 1);
      LastIsVictim(s, m);
      assert top == rest + [m[c - 1]];
      assert Elements(top) == Elements(rest) + {m[c - 1]};
      DistinctTake(m, c - 1);
      DistinctSize(rest);
    }
  }

  lemma FrontDescending(s: Pool, t: Pool, id: PageId, rest: seq<PageId>)
    requires Accessed(s, id, t) && Descending(s.frames, rest, s.clock + 1)
    requires id !in rest && Elements(rest) <= Kept(s, id)
    ensures Descending(t.frames, [id] + rest, t.clock + 1)
  {
    assert ([id] + rest)[1..] == rest;
    forall other | other in rest
      ensures other in s.frames && other in t.frames && t.frames[other].lastUsed == s.frames[other].lastUsed
    {
      assert other in Elements(rest);
    }
    DescendingSame(s.frames, t.frames, rest, s.clock + 1);
    DescendingBound(t.frames, rest, s.clock + 1, t.clock);
  }

  lemma LastIsVictim(s: Pool, m: seq<PageId>)
    requires Usable(s) && Ranked(s, m) && |m| >= s.capacity
    ensures HasVictim(s) && Victim(s) == m[s.capacity - 1]
  {
    hide View, Coherent, Descending, Distinct;
    var top := Take(m, s.capacity);
    var last := m[s.capacity - 1];
    assert top[s.capacity - 1] == last && last in top && last in Elements(top);
    forall id | id in s.frames
      ensures s.frames[id].pins == 0 && s.frames[last].lastUsed <= s.frames[id].lastUsed
    {
      NoPins(s, id);
      assert id in Elements(top);
      DescendingLast(s.frames, top, s.clock + 1, id);
    }
    assert IsVictim(s, last);
    assert last in Victims(s);
    CoherentFacts(s, multiset{});
    VictimUnique(s, last, Victim(s));
  }

  lemma NoPins(s: Pool, id: PageId)
    requires Usable(s) && id in s.frames
    ensures s.frames[id].pins == 0
  {
    assert FrameCoherent(s, multiset{}, id);
  }

  // After any run from an empty pool the resident pages are exactly the most recently used ones:
  // the first `capacity` of the run's pages listed latest use first.
  lemma {:induction false} ResidentSet(s: Pool, uses: seq<Use>)
    requires Usable(s) && s.frames == map[] && AllOnDisk(uses, |s.disk|)
    ensures Ranked(Run(s, uses), LatestFirst(uses))
    ensures Run(s, uses).frames.Keys == Elements(Take(LatestFirst(uses), s.capacity))
  {
    if uses != [] {
      var earlier := uses[..|uses| - 1];
      ResidentSet(s, earlier);
      RankedKeeps(Run(s, earlier), LatestFirst(earlier), uses[|uses| - 1]);
    }
  }

  // So a larger pool always holds everything a smaller one holds.
  lemma LargerHoldsMore(small: Pool, large: Pool, uses: seq<Use>)
    requires Usable(small) && Usable(large) && small.frames == map[] && large.frames == map[]
    requires small.capacity <= large.capacity
    requires AllOnDisk(uses, |small.disk|) && AllOnDisk(uses, |large.disk|)
    ensures Run(small, uses).frames.Keys <= Run(large, uses).frames.Keys
  {
    ResidentSet(small, uses);
    ResidentSet(large, uses);
    TakeMore(LatestFirst(uses), small.capacity, large.capacity);
  }

  lemma TakeMore(ids: seq<PageId>, n: nat, more: nat)
    requires n <= more
    ensures Elements(Take(ids, n)) <= Elements(Take(ids, more))
  {
    assert Take(ids, n) <= Take(ids, more);
  }
}
