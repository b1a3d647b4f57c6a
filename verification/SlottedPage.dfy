// One page of variable-length records: a header, a slot directory growing up, records growing down.
module SlottedPage {
  import opened Bytes
  import opened Results

  datatype PageError = PageFull | RecordTooLarge | InvalidSlot | DeletedRecord | CorruptPage | UnsupportedVersion

  const MAGIC: nat := 0x4952_5543
  const FORMAT_VERSION: nat := 1
  const HEADER_SIZE: nat := 16
  const SLOT_SIZE: nat := 4
  const VERSION_OFFSET: nat := 4
  const SLOT_COUNT_OFFSET: nat := 6
  const FREE_START_OFFSET: nat := 8
  const FREE_END_OFFSET: nat := 10

  // ---------- What the bytes of a page mean ----------

  function Count(p: Page): nat { U16At(p, SLOT_COUNT_OFFSET) }

  function FreeStart(p: Page): nat { U16At(p, FREE_START_OFFSET) }

  function FreeEnd(p: Page): nat { U16At(p, FREE_END_OFFSET) }

  function FreeSpace(p: Page): int { FreeEnd(p) - FreeStart(p) }

  function SlotAt(slot: nat): nat { HEADER_SIZE + slot * SLOT_SIZE }

  function Offset(p: Page, slot: nat): nat
    requires SlotAt(slot + 1) <= PAGE_SIZE
  {
    U16At(p, SlotAt(slot))
  }

  function Length(p: Page, slot: nat): nat
    requires SlotAt(slot + 1) <= PAGE_SIZE
  {
    U16At(p, SlotAt(slot) + 2)
  }

  predicate Signed(p: Page) {
    U32At(p, 0) == MAGIC && U16At(p, VERSION_OFFSET) == FORMAT_VERSION
  }

  predicate Bounded(p: Page) {
    FreeStart(p) == SlotAt(Count(p)) && FreeStart(p) <= FreeEnd(p) <= PAGE_SIZE
  }

  // The slot's record lies in the record area.
  predicate SlotOk(p: Page, slot: nat)
    requires Bounded(p) && slot < Count(p)
  {
    FreeEnd(p) <= Offset(p, slot) && Offset(p, slot) + Length(p, slot) <= PAGE_SIZE
  }

  // Two live records share no byte.
  predicate Apart(p: Page, a: nat, b: nat)
    requires Bounded(p) && a < Count(p) && b < Count(p)
  {
    || Length(p, a) == 0 || Length(p, b) == 0
    || Offset(p, a) + Length(p, a) <= Offset(p, b) || Offset(p, b) + Length(p, b) <= Offset(p, a)
  }

  ghost predicate SlotsOk(p: Page)
    requires Bounded(p)
  {
    forall i :: 0 <= i < Count(p) ==> SlotOk(p, i)
  }

  ghost predicate AllApart(p: Page)
    requires Bounded(p)
  {
    forall a, b :: 0 <= a < b < Count(p) ==> Apart(p, a, b)
  }

  ghost predicate ValidPage(p: Page) {
    Signed(p) && Bounded(p) && SlotsOk(p) && AllApart(p)
  }

  // What load_slotted_page makes of a page: nothing wrong, or which error.
  ghost function Fault(p: Page): Option<PageError> {
    if U32At(p, 0) != MAGIC then Some(CorruptPage)
    else if U16At(p, VERSION_OFFSET) != FORMAT_VERSION then Some(UnsupportedVersion)
    else if !ValidPage(p) then Some(CorruptPage)
    else None
  }

  // The record in a slot; a length of zero marks a deleted one.
  ghost function Record(p: Page, slot: nat): Option<seq<Byte>>
    requires Bounded(p) && slot < Count(p) && SlotOk(p, slot)
  {
    if Length(p, slot) == 0 then None else Some(p[Offset(p, slot)..Offset(p, slot) + Length(p, slot)])
  }

  // The page as a sequence of records.
  ghost function Records(p: Page): (r: seq<Option<seq<Byte>>>)
    requires ValidPage(p)
    ensures |r| == Count(p)
  {
    seq(Count(p), i requires 0 <= i < Count(p) => Record(p, i))
  }

  // A record of length zero cannot be told from a deleted one.
  function Kept(record: seq<Byte>): Option<seq<Byte>> {
    if record == [] then None else Some(record)
  }

  // ---------- Writing fields ----------

  function Put16(p: Page, offset: nat, v: U16): Page
    requires offset + 2 <= PAGE_SIZE
  {
    Splice(p, offset, [v % 256, v / 256])
  }

  lemma SpliceAway(p: Page, offset: nat, s: seq<Byte>, at: nat)
    requires offset + |s| <= PAGE_SIZE && at + 2 <= PAGE_SIZE
    requires at + 2 <= offset || offset + |s| <= at
    ensures U16At(Splice(p, offset, s), at) == U16At(p, at)
  {}

  lemma Put16At(p: Page, offset: nat, v: U16, at: nat)
    requires offset + 2 <= PAGE_SIZE && at + 2 <= PAGE_SIZE
    requires at == offset || at + 2 <= offset || offset + 2 <= at
    ensures U16At(Put16(p, offset, v), at) == if at == offset then v else U16At(p, at)
  {
    if at == offset {
      var q := Put16(p, offset, v);
      assert q[offset..offset + 2] == [v % 256, v / 256];
      assert q[offset] == q[offset..offset + 2][0] && q[offset + 1] == q[offset..offset + 2][1];
    }
  }

  // ---------- Inserting ----------

  function WithRecord(p: Page, record: seq<Byte>): Page
    requires Bounded(p) && |record| + SLOT_SIZE <= FreeSpace(p)
  {
    var offset := FreeEnd(p) - |record|;
    var entry := SlotAt(Count(p));
    Put16(Put16(Splice(p, offset, record), entry, offset), entry + 2, |record|)
  }

  function Inserted(p: Page, record: seq<Byte>): Page
    requires Bounded(p) && |record| + SLOT_SIZE <= FreeSpace(p)
  {
    var offset := FreeEnd(p) - |record|;
    var q := Put16(WithRecord(p, record), SLOT_COUNT_OFFSET, Count(p) + 1);
    var q := Put16(q, FREE_START_OFFSET, SlotAt(Count(p)) + SLOT_SIZE);
    Put16(q, FREE_END_OFFSET, offset)
  }

  lemma InsertedHeader(p: Page, record: seq<Byte>)
    requires Bounded(p) && |record| + SLOT_SIZE <= FreeSpace(p)
    ensures var q := Inserted(p, record);
      && (Signed(p) ==> Signed(q))
      && Count(q) == Count(p) + 1 && FreeStart(q) == SlotAt(Count(p) + 1) && FreeEnd(q) == FreeEnd(p) - |record|
  {
    hide Put16, Splice, U16At, Field;
    var offset, entry := FreeEnd(p) - |record|, SlotAt(Count(p));
    var p1 := Splice(p, offset, record);
    var p2 := Put16(p1, entry, offset);
    var p3 := Put16(p2, entry + 2, |record|);
    var p4 := Put16(p3, SLOT_COUNT_OFFSET, Count(p) + 1);
    var p5 := Put16(p4, FREE_START_OFFSET, entry + SLOT_SIZE);
    HeaderSteps(p, record, p1, p2, p3, 0);
    HeaderSteps(p, record, p1, p2, p3, 2);
    HeaderSteps(p, record, p1, p2, p3, VERSION_OFFSET);
    Put16At(p3, SLOT_COUNT_OFFSET, Count(p) + 1, 0);
    Put16At(p3, SLOT_COUNT_OFFSET, Count(p) + 1, 2);
    Put16At(p3, SLOT_COUNT_OFFSET, Count(p) + 1, VERSION_OFFSET);
    Put16At(p3, SLOT_COUNT_OFFSET, Count(p) + 1, SLOT_COUNT_OFFSET);
    Put16At(p4, FREE_START_OFFSET, entry + SLOT_SIZE, 0);
    Put16At(p4, FREE_START_OFFSET, entry + SLOT_SIZE, 2);
    Put16At(p4, FREE_START_OFFSET, entry + SLOT_SIZE, VERSION_OFFSET);
    Put16At(p4, FREE_START_OFFSET, entry + SLOT_SIZE, SLOT_COUNT_OFFSET);
    Put16At(p4, FREE_START_OFFSET, entry + SLOT_SIZE, FREE_START_OFFSET);
    Put16At(p5, FREE_END_OFFSET, offset, 0);
    Put16At(p5, FREE_END_OFFSET, offset, 2);
    Put16At(p5, FREE_END_OFFSET, offset, VERSION_OFFSET);
    Put16At(p5, FREE_END_OFFSET, offset, SLOT_COUNT_OFFSET);
    Put16At(p5, FREE_END_OFFSET, offset, FREE_START_OFFSET);
    Put16At(p5, FREE_END_OFFSET, offset, FREE_END_OFFSET);
  }

  lemma HeaderSteps(p: Page, record: seq<Byte>, p1: Page, p2: Page, p3: Page, at: nat)
    requires Bounded(p) && |record| + SLOT_SIZE <= FreeSpace(p) && at + 2 <= HEADER_SIZE
    requires p1 == Splice(p, FreeEnd(p) - |record|, record)
    requires p2 == Put16(p1, SlotAt(Count(p)), FreeEnd(p) - |record|)
    requires p3 == Put16(p2, SlotAt(Count(p)) + 2, |record|)
    ensures U16At(p3, at) == U16At(p, at)
  {
    hide Put16, Splice;
    SpliceAway(p, FreeEnd(p) - |record|, record, at);
    Put16At(p1, SlotAt(Count(p)), FreeEnd(p) - |record|, at);
    Put16At(p2, SlotAt(Count(p)) + 2, |record|, at);
  }

  // The header is written last and alone.
  lemma BehindHeader(p: Page, record: seq<Byte>)
    requires Bounded(p) && |record| + SLOT_SIZE <= FreeSpace(p)
    ensures forall k :: HEADER_SIZE <= k < PAGE_SIZE ==> Inserted(p, record)[k] == WithRecord(p, record)[k]
  {
    hide Field, Decode, WithRecord;
  }

  lemma NewEntry(p: Page, record: seq<Byte>)
    requires Bounded(p) && |record| + SLOT_SIZE <= FreeSpace(p)
    ensures var w, entry := WithRecord(p, record), SlotAt(Count(p));
      U16At(w, entry) == FreeEnd(p) - |record| && U16At(w, entry + 2) == |record|
  {
    hide Field, Decode, Splice, Put16, U16At;
    var offset, entry := FreeEnd(p) - |record|, SlotAt(Count(p));
    Put16At(Splice(p, offset, record), entry, offset, entry);
    Put16At(Put16(Splice(p, offset, record), entry, offset), entry + 2, |record|, entry);
    Put16At(Put16(Splice(p, offset, record), entry, offset), entry + 2, |record|, entry + 2);
  }

  lemma NewRecord(p: Page, record: seq<Byte>)
    requires Bounded(p) && |record| + SLOT_SIZE <= FreeSpace(p)
    ensures var w := WithRecord(p, record);
      && (forall k {:trigger w[k]} :: HEADER_SIZE <= k < SlotAt(Count(p)) || FreeEnd(p) <= k < PAGE_SIZE ==> w[k] == p[k])
      && w[FreeEnd(p) - |record|..FreeEnd(p)] == record
  {
    hide Field, Decode;
    var w, offset := WithRecord(p, record), FreeEnd(p) - |record|;
    assert w[offset..FreeEnd(p)] == Splice(p, offset, record)[offset..offset + |record|];
  }

  // The bytes of the directory so far and of the records so far stay where they are.
  lemma InsertedBytes(p: Page, record: seq<Byte>)
    requires Bounded(p) && |record| + SLOT_SIZE <= FreeSpace(p)
    ensures var q := Inserted(p, record);
      && (forall k {:trigger q[k]} :: HEADER_SIZE <= k < SlotAt(Count(p)) || FreeEnd(p) <= k < PAGE_SIZE ==> q[k] == p[k])
      && q[FreeEnd(p) - |record|..FreeEnd(p)] == record
      && U16At(q, SlotAt(Count(p))) == FreeEnd(p) - |record|
      && U16At(q, SlotAt(Count(p)) + 2) == |record|
  {
    hide U16At, Inserted, WithRecord;
    BehindHeader(p, record);
    NewEntry(p, record);
    NewRecord(p, record);
    assert Inserted(p, record)[FreeEnd(p) - |record|..FreeEnd(p)] == WithRecord(p, record)[FreeEnd(p) - |record|..FreeEnd(p)];
  }

  lemma InsertedSlots(p: Page, record: seq<Byte>)
    requires ValidPage(p) && |record| + SLOT_SIZE <= FreeSpace(p)
    ensures var q := Inserted(p, record);
      && (forall i :: 0 <= i < Count(p) ==>
        SlotOk(p, i) && Offset(q, i) == Offset(p, i) && Length(q, i) == Length(p, i)
        && q[Offset(q, i)..Offset(q, i) + Length(q, i)] == p[Offset(p, i)..Offset(p, i) + Length(p, i)])
      && Offset(q, Count(p)) == FreeEnd(p) - |record| && Length(q, Count(p)) == |record|
      && q[Offset(q, Count(p))..Offset(q, Count(p)) + |record|] == record
  {
    hide Inserted;
    var q := Inserted(p, record);
    InsertedBytes(p, record);
    forall i | 0 <= i < Count(p)
      ensures SlotOk(p, i) && Offset(q, i) == Offset(p, i) && Length(q, i) == Length(p, i)
      ensures q[Offset(q, i)..Offset(q, i) + Length(q, i)] == p[Offset(p, i)..Offset(p, i) + Length(p, i)]
    {
      assert SlotOk(p, i);
    }
  }

  lemma InsertKeeps(p: Page, record: seq<Byte>)
    requires ValidPage(p) && |record| + SLOT_SIZE <= FreeSpace(p)
    ensures ValidPage(Inserted(p, record))
    ensures Records(Inserted(p, record)) == Records(p) + [Kept(record)]
    ensures FreeSpace(Inserted(p, record)) == FreeSpace(p) - |record| - SLOT_SIZE
  {
    hide Inserted, Offset, Length, Signed;
    var q, n := Inserted(p, record), Count(p);
    InsertedHeader(p, record);
    InsertedSlots(p, record);
    forall i | 0 <= i < n + 1
      ensures SlotOk(q, i)
      ensures Record(q, i) == (Records(p) + [Kept(record)])[i]
    {
      if i < n {
        assert SlotOk(p, i);
      }
    }
    forall a, b | 0 <= a < b < n + 1
      ensures Apart(q, a, b)
    {
      if b < n {
        assert Apart(p, a, b);
      } else {
        assert SlotOk(p, a);
      }
    }
  }

  // ---------- Changing the length of one record ----------

  // The slot's record is replaced by one no longer; deleting sets the length to zero.
  function Replaced(p: Page, slot: nat, record: seq<Byte>): Page
    requires Bounded(p) && slot < Count(p) && SlotOk(p, slot) && |record| <= Length(p, slot)
  {
    Put16(Splice(p, Offset(p, slot), record), SlotAt(slot) + 2, |record|)
  }

  lemma ReplacedHeader(p: Page, slot: nat, record: seq<Byte>)
    requires Bounded(p) && slot < Count(p) && SlotOk(p, slot) && |record| <= Length(p, slot)
    ensures var q := Replaced(p, slot, record);
      && (Signed(p) ==> Signed(q)) && Bounded(q) && Count(q) == Count(p) && FreeEnd(q) == FreeEnd(p)
  {
    hide Put16, Splice;
    var s := Splice(p, Offset(p, slot), record);
    forall at | 0 <= at <= HEADER_SIZE - 2
      ensures U16At(Replaced(p, slot, record), at) == U16At(p, at)
    {
      SpliceAway(p, Offset(p, slot), record, at);
      Put16At(s, SlotAt(slot) + 2, |record|, at);
    }
  }

  lemma ReplacedSlots(p: Page, slot: nat, record: seq<Byte>)
    requires Bounded(p) && slot < Count(p) && SlotOk(p, slot) && |record| <= Length(p, slot)
    ensures var q := Replaced(p, slot, record);
      && (forall i {:trigger Offset(q, i)} :: 0 <= i < Count(p) ==> Offset(q, i) == Offset(p, i))
      && (forall i {:trigger Length(q, i)} :: 0 <= i < Count(p) ==>
        Length(q, i) == if i == slot then |record| else Length(p, i))
  {
    hide Put16, Splice, Field, Decode, U16At;
    var s := Splice(p, Offset(p, slot), record);
    forall i | 0 <= i < Count(p)
      ensures Offset(Replaced(p, slot, record), i) == Offset(p, i)
      ensures Length(Replaced(p, slot, record), i) == if i == slot then |record| else Length(p, i)
    {
      SpliceAway(p, Offset(p, slot), record, SlotAt(i));
      SpliceAway(p, Offset(p, slot), record, SlotAt(i) + 2);
      Put16At(s, SlotAt(slot) + 2, |record|, SlotAt(i));
      Put16At(s, SlotAt(slot) + 2, |record|, SlotAt(i) + 2);
    }
  }

  lemma ReplacedBytes(p: Page, slot: nat, record: seq<Byte>)
    requires Bounded(p) && slot < Count(p) && SlotOk(p, slot) && |record| <= Length(p, slot)
    ensures var q := Replaced(p, slot, record);
      && q[Offset(p, slot)..Offset(p, slot) + |record|] == record
      && (forall k {:trigger q[k]} :: FreeEnd(p) <= k < PAGE_SIZE && !(Offset(p, slot) <= k < Offset(p, slot) + |record|) ==> q[k] == p[k])
  {
    var s := Splice(p, Offset(p, slot), record);
    var q := Put16(s, SlotAt(slot) + 2, |record|);
    assert q[Offset(p, slot)..Offset(p, slot) + |record|] == s[Offset(p, slot)..Offset(p, slot) + |record|];
  }

  lemma OtherRecord(p: Page, q: Page, slot: nat, record: seq<Byte>, i: nat)
    requires ValidPage(p) && slot < Count(p) && SlotOk(p, slot) && 0 < Length(p, slot) && |record| <= Length(p, slot)
    requires i < Count(p) && i != slot && Bounded(q) && Count(q) == Count(p) && FreeEnd(q) == FreeEnd(p)
    requires Offset(q, i) == Offset(p, i) && Length(q, i) == Length(p, i)
    requires forall k {:trigger q[k]} :: FreeEnd(p) <= k < PAGE_SIZE && !(Offset(p, slot) <= k < Offset(p, slot) + |record|) ==> q[k] == p[k]
    ensures SlotOk(p, i) && SlotOk(q, i) && Record(q, i) == Record(p, i)
  {
    hide Offset, Length, Count, FreeEnd, FreeStart, Signed;
    assert SlotOk(p, i) && SlotOk(p, slot);
    assert Apart(p, if i < slot then i else slot, if i < slot then slot else i);
    if Length(p, i) > 0 {
      assert p[Offset(p, i)..Offset(p, i) + Length(p, i)] == q[Offset(p, i)..Offset(p, i) + Length(p, i)];
    }
  }

  lemma ReplaceKeeps(p: Page, slot: nat, record: seq<Byte>)
    requires ValidPage(p) && slot < Count(p) && SlotOk(p, slot)
    requires Length(p, slot) > 0 && |record| <= Length(p, slot)
    ensures ValidPage(Replaced(p, slot, record))
    ensures Records(Replaced(p, slot, record)) == Records(p)[slot := Kept(record)]
    ensures FreeSpace(Replaced(p, slot, record)) == FreeSpace(p)
  {
    hide Replaced, Offset, Length, Signed, U16At, Field;
    var q := Replaced(p, slot, record);
    ReplacedHeader(p, slot, record);
    ReplacedSlots(p, slot, record);
    ReplacedBytes(p, slot, record);
    forall i | 0 <= i < Count(p)
      ensures SlotOk(p, i) && SlotOk(q, i)
      ensures Record(q, i) == if i == slot then Kept(record) else Record(p, i)
    {
      assert SlotOk(p, i);
      if i != slot {
        OtherRecord(p, q, slot, record, i);
      }
    }
    forall a, b | 0 <= a < b < Count(p)
      ensures Apart(q, a, b)
    {
      assert Apart(p, a, b);
    }
  }

  // ---------- Checking a page: sort the records by start, compare neighbours ----------

  datatype Range = Range(begin: nat, end: nat)

  predicate Disjoint(a: Range, b: Range) {
    a.end <= b.begin || b.end <= a.begin
  }

  ghost predicate Pairwise(s: seq<Range>) {
    forall i, j :: 0 <= i < j < |s| ==> Disjoint(s[i], s[j])
  }

  ghost predicate ByBegin(s: seq<Range>) {
    forall i, j :: 0 <= i < j < |s| ==> s[i].begin <= s[j].begin
  }

  ghost predicate NonEmpty(s: seq<Range>) {
    forall i :: 0 <= i < |s| ==> s[i].begin < s[i].end
  }

  ghost predicate Neighbours(s: seq<Range>, n: nat)
    requires n <= |s|
  {
    forall i :: 1 <= i < n ==> s[i - 1].end <= s[i].begin
  }

  ghost predicate AllAway(s: seq<Range>, x: Range) {
    forall i :: 0 <= i < |s| ==> Disjoint(s[i], x)
  }

  lemma PairwiseWithout(a: seq<Range>, x: Range, b: seq<Range>)
    requires Pairwise(a + [x] + b)
    ensures Pairwise(a + b) && AllAway(a + b, x)
  {
    hide Disjoint;
    var s, t := a + [x] + b, a + b;
    forall i, j | 0 <= i < j < |t|
      ensures Disjoint(t[i], t[j])
    {
      assert t[i] == s[if i < |a| then i else i + 1] && t[j] == s[if j < |a| then j else j + 1];
    }
    forall i | 0 <= i < |t|
      ensures Disjoint(t[i], x)
    {
      assert s[|a|] == x && s[if i < |a| then i else i + 1] == t[i];
      DisjointBoth(t[i], x);
    }
  }

  lemma DisjointBoth(r: Range, x: Range)
    ensures Disjoint(r, x) <==> Disjoint(x, r)
  {}

  lemma PairwiseWith(a: seq<Range>, x: Range, b: seq<Range>)
    requires Pairwise(a + b) && AllAway(a + b, x)
    ensures Pairwise(a + [x] + b)
  {
    hide Disjoint;
    var s, t := a + [x] + b, a + b;
    forall i, j | 0 <= i < j < |s|
      ensures Disjoint(s[i], s[j])
    {
      if i == |a| {
        assert s[j] == t[j - 1];
        DisjointBoth(s[j], x);
      } else if j == |a| {
        assert s[i] == t[i];
      } else {
        assert s[i] == t[if i < |a| then i else i - 1] && s[j] == t[if j < |a| then j else j - 1];
      }
    }
  }

  lemma PairwiseAround(a: seq<Range>, x: Range, b: seq<Range>)
    ensures Pairwise(a + [x] + b) <==> Pairwise(a + b) && AllAway(a + b, x)
  {
    hide Pairwise, AllAway;
    if Pairwise(a + [x] + b) {
      PairwiseWithout(a, x, b);
    }
    if Pairwise(a + b) && AllAway(a + b, x) {
      PairwiseWith(a, x, b);
    }
  }

  lemma AwayReordered(s: seq<Range>, t: seq<Range>, x: Range)
    requires multiset(s) == multiset(t) && AllAway(s, x)
    ensures AllAway(t, x)
  {
    forall i | 0 <= i < |t|
      ensures Disjoint(t[i], x)
    {
      assert t[i] in multiset(s);
    }
  }

  // Putting x anywhere into a reordering of a list disturbs disjointness as much as appending it to the list.
  lemma PairwisePlaced(a: seq<Range>, x: Range, b: seq<Range>, before: seq<Range>)
    requires multiset(a + b) == multiset(before) && (Pairwise(a + b) <==> Pairwise(before))
    ensures Pairwise(a + [x] + b) <==> Pairwise(before + [x])
    ensures multiset(a + [x] + b) == multiset(before + [x])
  {
    hide Pairwise, AllAway;
    PairwiseAround(a, x, b);
    PairwiseAround(before, x, []);
    assert before + [] == before && before + [x] + [] == before + [x];
    if AllAway(a + b, x) {
      AwayReordered(a + b, before, x);
    }
    if AllAway(before, x) {
      AwayReordered(before, a + b, x);
    }
  }

  // Sorting moves ranges around and nothing else, so it does not change whether they are disjoint.
  method SortByBegin(ranges: seq<Range>) returns (sorted: seq<Range>)
    ensures ByBegin(sorted) && multiset(sorted) == multiset(ranges)
    ensures Pairwise(sorted) <==> Pairwise(ranges)
  {
    hide Pairwise, ByBegin;
    sorted := [];
    NothingSorted(ranges);
    for i := 0 to |ranges|
      invariant ByBegin(sorted) && multiset(sorted) == multiset(ranges[..i])
      invariant Pairwise(sorted) <==> Pairwise(ranges[..i])
    {
      OneMore(ranges, i);
      sorted := PlaceByBegin(sorted, ranges[i], ranges[..i]);
    }
    assert ranges[..|ranges|] == ranges;
  }

  lemma NothingSorted(ranges: seq<Range>)
    ensures ByBegin([]) && Pairwise([]) && ranges[..0] == []
  {}

  lemma OneMore(ranges: seq<Range>, i: nat)
    requires i < |ranges|
    ensures ranges[..i + 1] == ranges[..i] + [ranges[i]]
  {}

  lemma OrderPlaced(s: seq<Range>, at: nat, x: Range)
    requires ByBegin(s) && at <= |s|
    requires at > 0 ==> s[at - 1].begin <= x.begin
    requires at < |s| ==> x.begin <= s[at].begin
    ensures ByBegin(s[..at] + [x] + s[at..])
  {
    var t := s[..at] + [x] + s[at..];
    forall i, j | 0 <= i < j < |t|
      ensures t[i].begin <= t[j].begin
    {
      assert i < at ==> t[i] == s[i] && s[i].begin <= s[at - 1].begin;
      assert j > at ==> t[j] == s[j - 1] && s[at].begin <= s[j - 1].begin;
    }
  }

  method PlaceByBegin(sorted: seq<Range>, x: Range, ghost before: seq<Range>) returns (r: seq<Range>)
    requires ByBegin(sorted) && multiset(sorted) == multiset(before)
    requires Pairwise(sorted) <==> Pairwise(before)
    ensures ByBegin(r) && multiset(r) == multiset(before + [x])
    ensures Pairwise(r) <==> Pairwise(before + [x])
  {
    hide Pairwise, ByBegin;
    var at: nat := |sorted|;
    while at > 0 && x.begin < sorted[at - 1].begin
      invariant at <= |sorted|
      invariant at < |sorted| ==> x.begin <= sorted[at].begin
    {
      at := at - 1;
    }
    OrderPlaced(sorted, at, x);
    assert sorted[..at] + sorted[at..] == sorted;
    PairwisePlaced(sorted[..at], x, sorted[at..], before);
    return sorted[..at] + [x] + sorted[at..];
  }

  lemma {:induction false} Ascending(s: seq<Range>, i: nat, j: nat)
    requires NonEmpty(s) && Neighbours(s, |s|) && i < j < |s|
    ensures s[i].end <= s[j].begin
  {
    if i + 1 < j {
      Ascending(s, i, j - 1);
    }
  }

  lemma NeighboursSuffice(s: seq<Range>)
    requires ByBegin(s) && NonEmpty(s)
    ensures Neighbours(s, |s|) <==> Pairwise(s)
  {
    if Neighbours(s, |s|) {
      forall i, j | 0 <= i < j < |s|
        ensures Disjoint(s[i], s[j])
      {
        Ascending(s, i, j);
      }
    }
    if Pairwise(s) {
      forall i | 1 <= i < |s|
        ensures s[i - 1].end <= s[i].begin
      {
        assert Disjoint(s[i - 1], s[i]);
      }
    }
  }

  // The live records of the first n slots.
  ghost function LiveRanges(p: Page, n: nat): (s: seq<Range>)
    requires Bounded(p) && n <= Count(p)
  {
    if n == 0 then []
    else if Length(p, n - 1) == 0 then LiveRanges(p, n - 1)
    else LiveRanges(p, n - 1) + [RangeOf(p, n - 1)]
  }

  function RangeOf(p: Page, slot: nat): Range
    requires Bounded(p) && slot < Count(p)
  {
    Range(Offset(p, slot), Offset(p, slot) + Length(p, slot))
  }

  lemma {:induction false} LiveRangesHold(p: Page, n: nat)
    requires Bounded(p) && n <= Count(p)
    ensures NonEmpty(LiveRanges(p, n))
    ensures forall r :: r in LiveRanges(p, n) <==> exists i :: 0 <= i < n && Length(p, i) > 0 && RangeOf(p, i) == r
  {
    if n > 0 {
      LiveRangesHold(p, n - 1);
    }
  }

  lemma {:induction false} RangesApart(p: Page, n: nat)
    requires Bounded(p) && n <= Count(p)
    ensures Pairwise(LiveRanges(p, n)) <==> ApartBelow(p, n)
  {
    hide Pairwise, Apart, RangeOf, AllAway, Length;
    if n == 0 {
      NothingSorted([]);
    } else {
      RangesApart(p, n - 1);
      var s := LiveRanges(p, n - 1);
      LastApart(p, n);
      if Length(p, n - 1) > 0 {
        PairwiseAround(s, RangeOf(p, n - 1), []);
        assert s + [] == s && s + [RangeOf(p, n - 1)] + [] == LiveRanges(p, n);
      }
    }
  }

  ghost predicate ApartBelow(p: Page, n: nat)
    requires Bounded(p) && n <= Count(p)
  {
    forall a, b :: 0 <= a < b < n ==> Apart(p, a, b)
  }

  lemma LastApart(p: Page, n: nat)
    requires Bounded(p) && 0 < n <= Count(p)
    ensures Length(p, n - 1) == 0 ==> (ApartBelow(p, n) <==> ApartBelow(p, n - 1))
    ensures Length(p, n - 1) > 0 ==>
      (ApartBelow(p, n) <==>
         ApartBelow(p, n - 1) && AllAway(LiveRanges(p, n - 1), RangeOf(p, n - 1)))
  {
    hide LiveRanges, Offset, Length;
    LiveRangesHold(p, n - 1);
    var s, last := LiveRanges(p, n - 1), RangeOf(p, n - 1);
    if Length(p, n - 1) > 0 && ApartBelow(p, n) {
      forall i | 0 <= i < |s|
        ensures Disjoint(s[i], last)
      {
        assert s[i] in s;
        var a :| 0 <= a < n - 1 && Length(p, a) > 0 && RangeOf(p, a) == s[i];
        assert Apart(p, a, n - 1);
      }
    }
    if ApartBelow(p, n - 1) && (Length(p, n - 1) > 0 ==> AllAway(s, last)) {
      forall a, b | 0 <= a < b < n
        ensures Apart(p, a, b)
      {
        if b == n - 1 && Length(p, a) > 0 && Length(p, b) > 0 {
          assert RangeOf(p, a) in s;
        }
      }
    }
  }

  method Validate(p: Page) returns (fault: Option<PageError>)
    ensures fault == Fault(p)
  {
    hide Pairwise, Neighbours, ByBegin, Apart, U16At, U32At, Field;
    if U32At(p, 0) != MAGIC {
      return Some(CorruptPage);
    }
    if U16At(p, VERSION_OFFSET) != FORMAT_VERSION {
      return Some(UnsupportedVersion);
    }
    var count, freeStart, freeEnd := Count(p), FreeStart(p), FreeEnd(p);
    if freeStart != HEADER_SIZE + count * SLOT_SIZE || freeStart > freeEnd || freeEnd > PAGE_SIZE {
      return Some(CorruptPage);
    }
    var ranges: seq<Range> := [];
    for index := 0 to count
      invariant Bounded(p)
      invariant forall i :: 0 <= i < index ==> SlotOk(p, i)
      invariant ranges == LiveRanges(p, index)
    {
      var offset, length := Offset(p, index), Length(p, index);
      if offset < freeEnd || offset > PAGE_SIZE || length > PAGE_SIZE - offset {
        assert !SlotOk(p, index);
        return Some(CorruptPage);
      }
      if length != 0 {
        ranges := ranges + [Range(offset, offset + length)];
      }
    }
    LiveRangesHold(p, count);
    RangesApart(p, count);
    var sorted := SortByBegin(ranges);
    SortedNonEmpty(ranges, sorted);
    NeighboursSuffice(sorted);
    var found := CompareNeighbours(sorted);
    return if found then Some(CorruptPage) else None;
  }

  lemma SortedNonEmpty(s: seq<Range>, t: seq<Range>)
    requires NonEmpty(s) && multiset(s) == multiset(t)
    ensures NonEmpty(t)
  {
    forall i | 0 <= i < |t|
      ensures t[i].begin < t[i].end
    {
      assert t[i] in multiset(s);
    }
  }

  // Whether some range reaches into the next.
  method CompareNeighbours(sorted: seq<Range>) returns (overlap: bool)
    ensures overlap <==> !Neighbours(sorted, |sorted|)
  {
    var index := 1;
    while index < |sorted|
      invariant index >= 1 && Neighbours(sorted, if index <= |sorted| then index else |sorted|)
    {
      if sorted[index - 1].end > sorted[index].begin {
        return true;
      }
      index := index + 1;
    }
    return false;
  }

  // ---------- The page in memory ----------

  function Blank(): Page {
    var p := Put16(Zeros(PAGE_SIZE), 0, MAGIC % 0x1_0000);
    var p := Put16(p, 2, MAGIC / 0x1_0000);
    var p := Put16(p, VERSION_OFFSET, FORMAT_VERSION);
    var p := Put16(p, SLOT_COUNT_OFFSET, 0);
    var p := Put16(p, FREE_START_OFFSET, HEADER_SIZE);
    Put16(p, FREE_END_OFFSET, PAGE_SIZE)
  }

  lemma BlankOk()
    ensures ValidPage(Blank()) && Records(Blank()) == [] && FreeSpace(Blank()) == PAGE_SIZE - HEADER_SIZE
  {
    var p := Blank();
    assert p[0] == MAGIC % 0x100 && p[1] == MAGIC / 0x100 % 0x100;
    assert p[2] == MAGIC / 0x1_0000 % 0x100 && p[3] == MAGIC / 0x100_0000;
    assert U16At(p, VERSION_OFFSET) == FORMAT_VERSION;
    assert U16At(p, SLOT_COUNT_OFFSET) == 0;
    assert U16At(p, FREE_START_OFFSET) == HEADER_SIZE;
    assert U16At(p, FREE_END_OFFSET) == PAGE_SIZE;
  }

  class SlottedPage {
    const bytes: array<Byte>

    ghost function Image(): Page
      reads bytes
      requires bytes.Length == PAGE_SIZE
    {
      bytes[..]
    }

    ghost predicate Valid()
      reads bytes
    {
      bytes.Length == PAGE_SIZE && ValidPage(Image())
    }

    constructor ()
      ensures Valid() && fresh(bytes) && Records(Image()) == [] && FreeSpace(Image()) == PAGE_SIZE - HEADER_SIZE
    {
      bytes := new Byte[PAGE_SIZE](_ => 0);
      new;
      hide ValidPage, Records, Put16;
      assert bytes[..] == Zeros(PAGE_SIZE);
      Write16(0, MAGIC % 0x1_0000);
      Write16(2, MAGIC / 0x1_0000);
      Write16(VERSION_OFFSET, FORMAT_VERSION);
      Write16(SLOT_COUNT_OFFSET, 0);
      Write16(FREE_START_OFFSET, HEADER_SIZE);
      Write16(FREE_END_OFFSET, PAGE_SIZE);
      BlankOk();
    }

    // A page taken over from elsewhere; only Load makes one, after checking it.
    constructor Loaded(page: Page)
      ensures bytes.Length == PAGE_SIZE && fresh(bytes) && Image() == page
    {
      bytes := new Byte[PAGE_SIZE](i requires 0 <= i < PAGE_SIZE => page[i]);
      new;
      assert bytes[..] == page;
    }

    function Read16(offset: nat): (v: U16)
      reads bytes
      requires offset + 2 <= bytes.Length
      ensures v == U16At(bytes[..], offset)
    {
      var low: int, high: int := bytes[offset], bytes[offset + 1];
      low + 256 * high
    }

    method Write16(offset: nat, v: U16)
      requires bytes.Length == PAGE_SIZE && offset + 2 <= PAGE_SIZE
      modifies bytes
      ensures Image() == Put16(old(Image()), offset, v)
    {
      bytes[offset] := v % 256;
      bytes[offset + 1] := v / 256;
      assert bytes[..] == Put16(old(bytes[..]), offset, v);
    }

    method CopyIn(offset: nat, record: seq<Byte>)
      requires bytes.Length == PAGE_SIZE && offset + |record| <= PAGE_SIZE
      modifies bytes
      ensures Image() == Splice(old(Image()), offset, record)
    {
      for i := 0 to |record|
        invariant forall k :: 0 <= k < PAGE_SIZE ==>
          bytes[k] == if offset <= k < offset + i then record[k - offset] else old(bytes[k])
      {
        bytes[offset + i] := record[i];
      }
      assert bytes[..] == Splice(old(bytes[..]), offset, record);
    }

    method InsertRecord(record: seq<Byte>) returns (r: Result<nat, PageError>)
      requires Valid()
      modifies bytes
      ensures Valid()
      ensures r == if |record| > MAX_U16 then Err(RecordTooLarge)
                   else if |record| + SLOT_SIZE > old(FreeSpace(Image())) then Err(PageFull)
                   else Ok(|old(Records(Image()))|)
      ensures r.Err? ==> Image() == old(Image())
      ensures r.Ok? ==>
        && Records(Image()) == old(Records(Image())) + [Kept(record)]
        && FreeSpace(Image()) == old(FreeSpace(Image())) - |record| - SLOT_SIZE
    {
      hide ValidPage, Records, Put16, Splice, Kept;
      ghost var page := Image();
      ValidCounts(page);
      if |record| > MAX_U16 {
        return Err(RecordTooLarge);
      }
      if |record| + SLOT_SIZE > Read16(FREE_END_OFFSET) - Read16(FREE_START_OFFSET) {
        return Err(PageFull);
      }
      var count := Read16(SLOT_COUNT_OFFSET);
      // A page has room for far fewer slots than this.
      if count == MAX_U16 {
        return Err(PageFull);
      }
      var offset := Read16(FREE_END_OFFSET) - |record|;
      var entry := SlotAt(count);
      CopyIn(offset, record);
      Write16(entry, offset);
      Write16(entry + 2, |record|);
      Write16(SLOT_COUNT_OFFSET, count + 1);
      Write16(FREE_START_OFFSET, entry + SLOT_SIZE);
      Write16(FREE_END_OFFSET, offset);
      assert Image() == Inserted(page, record);
      InsertKeeps(page, record);
      return Ok(count);
    }

    static lemma ValidCounts(p: Page)
      requires ValidPage(p)
      ensures Bounded(p) && |Records(p)| == Count(p) && SlotAt(Count(p)) <= PAGE_SIZE
      ensures forall i :: 0 <= i < Count(p) ==>
        && SlotOk(p, i)
        && (Records(p)[i] == if Length(p, i) == 0 then None else Some(p[Offset(p, i)..Offset(p, i) + Length(p, i)]))
    {}

    method SlotCount() returns (n: nat)
      requires Valid()
      ensures n == |Records(Image())|
    {
      return Read16(SLOT_COUNT_OFFSET);
    }

    method ReadRecord(slot: nat) returns (r: Result<seq<Byte>, PageError>)
      requires Valid()
      ensures r == if slot >= |Records(Image())| then Err(InvalidSlot)
                   else match Records(Image())[slot] case None => Err(DeletedRecord) case Some(b) => Ok(b)
    {
      hide ValidPage, Records;
      ValidCounts(Image());
      if slot >= Read16(SLOT_COUNT_OFFSET) {
        return Err(InvalidSlot);
      }
      var offset, length := Read16(SlotAt(slot)), Read16(SlotAt(slot) + 2);
      if length == 0 {
        return Err(DeletedRecord);
      }
      assert SlotOk(Image(), slot);
      return Ok(bytes[offset..offset + length]);
    }

    method DeleteRecord(slot: nat) returns (error: Option<PageError>)
      requires Valid()
      modifies bytes
      ensures Valid()
      ensures error == if slot >= |old(Records(Image()))| then Some(InvalidSlot)
                       else if old(Records(Image()))[slot].None? then Some(DeletedRecord) else None
      ensures error.Some? ==> Image() == old(Image())
      ensures error.None? ==>
        && Records(Image()) == old(Records(Image()))[slot := None]
        && FreeSpace(Image()) == old(FreeSpace(Image()))
    {
      hide ValidPage, Records, Put16, Splice;
      ghost var page := Image();
      ValidCounts(page);
      if slot >= Read16(SLOT_COUNT_OFFSET) {
        return Some(InvalidSlot);
      }
      assert SlotOk(page, slot);
      if Read16(SlotAt(slot) + 2) == 0 {
        return Some(DeletedRecord);
      }
      Write16(SlotAt(slot) + 2, 0);
      NothingSpliced(page, Offset(page, slot));
      ReplaceKeeps(page, slot, []);
      return None;
    }

    static lemma NothingSpliced(p: Page, offset: nat)
      requires offset <= PAGE_SIZE
      ensures Splice(p, offset, []) == p
    {}

    method UpdateRecord(slot: nat, record: seq<Byte>) returns (error: Option<PageError>)
      requires Valid()
      modifies bytes
      ensures Valid()
      ensures error == if slot >= |old(Records(Image()))| then Some(InvalidSlot)
                       else match old(Records(Image()))[slot]
                            case None => Some(DeletedRecord)
                            case Some(b) => if |record| > |b| then Some(PageFull) else None
      ensures error.Some? ==> Image() == old(Image())
      ensures error.None? ==>
        && Records(Image()) == old(Records(Image()))[slot := Kept(record)]
        && FreeSpace(Image()) == old(FreeSpace(Image()))
    {
      hide ValidPage, Records, Put16, Splice, Kept;
      ghost var page := Image();
      ValidCounts(page);
      if slot >= Read16(SLOT_COUNT_OFFSET) {
        return Some(InvalidSlot);
      }
      assert SlotOk(page, slot);
      var offset, oldLength := Read16(SlotAt(slot)), Read16(SlotAt(slot) + 2);
      if oldLength == 0 {
        return Some(DeletedRecord);
      }
      if |record| > oldLength {
        return Some(PageFull);
      }
      CopyIn(offset, record);
      Write16(SlotAt(slot) + 2, |record|);
      assert Image() == Replaced(page, slot, record);
      ReplaceKeeps(page, slot, record);
      return None;
    }
  }

  // Takes over a page that passes the check; by the contracts above, every page the operations leave does.
  method Load(page: Page) returns (r: Result<SlottedPage, PageError>)
    ensures Fault(page).None? <==> ValidPage(page)
    ensures r.Err? ==> Fault(page) == Some(r.error)
    ensures r.Ok? ==> ValidPage(page) && fresh(r.value) && fresh(r.value.bytes) && r.value.Valid() && r.value.Image() == page
  {
    hide ValidPage;
    var fault := Validate(page);
    FaultFree(page);
    if fault.Some? {
      return Err(fault.value);
    }
    var loaded := new SlottedPage.Loaded(page);
    return Ok(loaded);
  }

  lemma FaultFree(p: Page)
    ensures Fault(p).None? <==> ValidPage(p)
  {}
}
