// One tree node in one page: the bytes write_node lays down and the node read_node takes back.
module NodePage {
  import opened Bytes
  import opened Results
  import opened TreeSpec

  const MAGIC: nat := 0x54504243
  const VERSION: nat := 1
  const HEADER_SIZE: nat := 16
  const LEAF_ENTRY_SIZE: nat := 16
  const BRANCH_ENTRY_SIZE: nat := 12
  const NO_PAGE: nat := 0xFFFF_FFFF

  datatype Node =
    | LeafNode(keys: seq<I64>, values: seq<RowId>, next: Option<PageId>)
    | BranchNode(keys: seq<I64>, children: seq<PageId>)

  function EntrySize(leaf: bool): nat {
    if leaf then LEAF_ENTRY_SIZE else BRANCH_ENTRY_SIZE
  }

  function EntryAt(leaf: bool, i: nat): nat {
    HEADER_SIZE + i * EntrySize(leaf)
  }

  // ---------- What a page holds ----------

  function Key(p: Page, leaf: bool, i: nat): I64
    requires EntryAt(leaf, i + 1) <= PAGE_SIZE
  {
    Fits(p, EntryAt(leaf, i), 8);
    FromBits(Field(p, EntryAt(leaf, i), 8))
  }

  function Value(p: Page, i: nat): RowId
    requires EntryAt(true, i + 1) <= PAGE_SIZE
  {
    Fits(p, EntryAt(true, i) + 8, 4);
    Fits(p, EntryAt(true, i) + 12, 2);
    RowId(Field(p, EntryAt(true, i) + 8, 4), Field(p, EntryAt(true, i) + 12, 2))
  }

  // Child 0 is kept in the header, the others beside their separators.
  function Child(p: Page, i: nat): PageId
    requires EntryAt(false, i) <= PAGE_SIZE
  {
    if i == 0 then Field(p, 12, 4) else Field(p, EntryAt(false, i - 1) + 8, 4)
  }

  lemma Fits(p: Page, offset: nat, width: nat)
    requires offset + width <= PAGE_SIZE && (width == 2 || width == 4 || width == 8)
    ensures Field(p, offset, width) < Pow256(width)
    ensures width == 2 ==> Field(p, offset, width) < 0x1_0000
    ensures width == 4 ==> Field(p, offset, width) < 0x1_0000_0000
    ensures width == 8 ==> Field(p, offset, width) < 0x1_0000_0000_0000_0000
  {
    EncodeDecode(p[offset..offset + width]);
    Widths();
  }

  predicate NonDecreasing(keys: seq<I64>) {
    forall i, j :: 0 <= i < j < |keys| ==> keys[i] <= keys[j]
  }

  function NextOf(link: nat): Option<PageId> {
    if link == NO_PAGE then None else Some(link)
  }

  predicate CountOk(p: Page, max: nat) {
    && Field(p, 0, 4) == MAGIC && Field(p, 4, 2) == VERSION
    && Field(p, 8, 2) <= max && EntryAt(p[6] == 1, Field(p, 8, 2)) <= PAGE_SIZE
  }

  function KeysOf(p: Page): seq<I64>
    requires EntryAt(p[6] == 1, Field(p, 8, 2)) <= PAGE_SIZE
  {
    seq(Field(p, 8, 2), i requires 0 <= i < Field(p, 8, 2) => Key(p, p[6] == 1, i))
  }

  function ValuesOf(p: Page): seq<RowId>
    requires EntryAt(true, Field(p, 8, 2)) <= PAGE_SIZE
  {
    seq(Field(p, 8, 2), i requires 0 <= i < Field(p, 8, 2) => Value(p, i))
  }

  function ChildrenOf(p: Page): seq<PageId>
    requires EntryAt(false, Field(p, 8, 2)) <= PAGE_SIZE
  {
    seq(Field(p, 8, 2) + 1, i requires 0 <= i < Field(p, 8, 2) + 1 => Child(p, i))
  }

  // The node a page holds; None for a page read_node reports as corrupt.
  function Parse(p: Page, max: nat): Option<Node> {
    if !CountOk(p, max) || !NonDecreasing(KeysOf(p)) then None
    else if p[6] == 1 then Some(LeafNode(KeysOf(p), ValuesOf(p), NextOf(Field(p, 12, 4))))
    else Some(BranchNode(KeysOf(p), ChildrenOf(p)))
  }

  // ---------- The bytes of a node ----------

  // What the code relies on when it writes a node: it fits, and its links are real page ids.
  predicate Encodable(n: Node, max: nat) {
    && |n.keys| <= max <= 255 && NonDecreasing(n.keys)
    && match n
       case LeafNode(keys, values, next) =>
         && |values| == |keys| && (next.Some? ==> next.value < NO_PAGE)
         && (forall i :: 0 <= i < |values| ==> values[i].page < 0x1_0000_0000)
       case BranchNode(keys, children) =>
         |children| == |keys| + 1 && forall i :: 0 <= i < |children| ==> children[i] < NO_PAGE
  }

  function Link(n: Node): nat
    requires n.BranchNode? ==> |n.children| > 0
  {
    match n
    case LeafNode(_, _, next) => if next.Some? then next.value else NO_PAGE
    case BranchNode(_, children) => children[0]
  }

  function WithHeader(n: Node): (p: Page)
    requires n.BranchNode? ==> |n.children| > 0
  {
    var p := Splice(Zeros(PAGE_SIZE), 0, Encode(MAGIC, 4));
    var p := Splice(p, 4, Encode(VERSION, 2));
    var p := Splice(p, 6, [if n.LeafNode? then 1 else 0]);
    var p := Splice(p, 8, Encode(|n.keys|, 2));
    Splice(p, 12, Encode(Link(n), 4))
  }

  function WithEntry(p: Page, n: Node, i: nat): Page
    requires i < |n.keys| && EntryAt(n.LeafNode?, i + 1) <= PAGE_SIZE
    requires Shapely(n)
  {
    var o := EntryAt(n.LeafNode?, i);
    var q := Splice(p, o, Encode(ToBits(n.keys[i]), 8));
    if n.LeafNode? then
      Splice(Splice(q, o + 8, Encode(n.values[i].page, 4)), o + 12, Encode(n.values[i].slot, 2))
    else Splice(q, o + 8, Encode(n.children[i + 1], 4))
  }

  // The page after the header and the first i entries have been written over zeros.
  function Written(n: Node, i: nat): Page
    requires i <= |n.keys| <= 255
    requires Shapely(n)
  {
    if i == 0 then WithHeader(n) else WithEntry(Written(n, i - 1), n, i - 1)
  }

  // ---------- The round trip ----------

  lemma PutField(p: seq<Byte>, offset: nat, n: nat, width: nat)
    requires offset + width <= |p| && n < Pow256(width)
    ensures Field(Splice(p, offset, Encode(n, width)), offset, width) == n
  {
    DecodeEncode(n, width);
  }

  lemma PutOther(p: seq<Byte>, offset: nat, s: seq<Byte>, other: nat, width: nat)
    requires offset + |s| <= |p| && other + width <= |p|
    requires other + width <= offset || offset + |s| <= other
    ensures Field(Splice(p, offset, s), other, width) == Field(p, other, width)
  {
    var q := Splice(p, offset, s);
    assert q[other..other + width] == p[other..other + width];
  }

  ghost predicate HeaderOk(p: Page, n: Node)
    requires n.BranchNode? ==> |n.children| > 0
  {
    && Field(p, 0, 4) == MAGIC && Field(p, 4, 2) == VERSION
    && p[6] == (if n.LeafNode? then 1 else 0)
    && Field(p, 8, 2) == |n.keys| && Field(p, 12, 4) == Link(n)
  }

  lemma WithHeaderOk(n: Node)
    requires n.BranchNode? ==> |n.children| > 0
    requires |n.keys| <= 255 && Link(n) < 0x1_0000_0000
    ensures HeaderOk(WithHeader(n), n)
  {
    hide Splice, Field, Encode, Link;
    Widths();
    var leaf := [if n.LeafNode? then 1 else 0];
    var p1: Page := Splice(Zeros(PAGE_SIZE), 0, Encode(MAGIC, 4));
    var p2: Page := Splice(p1, 4, Encode(VERSION, 2));
    var p3: Page := Splice(p2, 6, leaf);
    var p4: Page := Splice(p3, 8, Encode(|n.keys|, 2));
    PutField(Zeros(PAGE_SIZE), 0, MAGIC, 4);
    PutOther(p1, 4, Encode(VERSION, 2), 0, 4);
    PutOther(p2, 6, leaf, 0, 4);
    PutOther(p3, 8, Encode(|n.keys|, 2), 0, 4);
    PutOther(p4, 12, Encode(Link(n), 4), 0, 4);
    PutField(p1, 4, VERSION, 2);
    PutOther(p2, 6, leaf, 4, 2);
    PutOther(p3, 8, Encode(|n.keys|, 2), 4, 2);
    PutOther(p4, 12, Encode(Link(n), 4), 4, 2);
    PutField(p3, 8, |n.keys|, 2);
    PutOther(p4, 12, Encode(Link(n), 4), 8, 2);
    PutField(p4, 12, Link(n), 4);
    assert p3[6..7] == leaf;
  }

  predicate Shapely(n: Node) {
    match n
    case LeafNode(keys, values, _) => |values| == |keys|
    case BranchNode(keys, children) => |children| == |keys| + 1
  }

  ghost predicate EntryOk(p: Page, n: Node, i: nat)
    requires Shapely(n) && i < |n.keys| <= 255
  {
    var o := EntryAt(n.LeafNode?, i);
    && Field(p, o, 8) == ToBits(n.keys[i])
    && if n.LeafNode? then Field(p, o + 8, 4) == n.values[i].page && Field(p, o + 12, 2) == n.values[i].slot
       else Field(p, o + 8, 4) == n.children[i + 1]
  }

  lemma WithEntryOk(p: Page, n: Node, i: nat, max: nat)
    requires Encodable(n, max) && i < |n.keys|
    ensures EntryOk(WithEntry(p, n, i), n, i)
  {
    hide Splice, Field, Encode, NonDecreasing;
    Widths();
    var o := EntryAt(n.LeafNode?, i);
    var key := Encode(ToBits(n.keys[i]), 8);
    var q: Page := Splice(p, o, key);
    PutField(p, o, ToBits(n.keys[i]), 8);
    if n.LeafNode? {
      assert n.values[i].page < 0x1_0000_0000;
      var page, slot := Encode(n.values[i].page, 4), Encode(n.values[i].slot, 2);
      var r: Page := Splice(q, o + 8, page);
      PutOther(q, o + 8, page, o, 8);
      PutField(q, o + 8, n.values[i].page, 4);
      PutOther(r, o + 12, slot, o, 8);
      PutOther(r, o + 12, slot, o + 8, 4);
      PutField(r, o + 12, n.values[i].slot, 2);
    } else {
      PutOther(q, o + 8, Encode(n.children[i + 1], 4), o, 8);
      PutField(q, o + 8, n.children[i + 1], 4);
    }
  }

  // Writing entry i leaves the bytes before it alone.
  lemma WithEntryKeeps(p: Page, n: Node, i: nat, offset: nat, width: nat)
    requires Shapely(n) && i < |n.keys| <= 255 && offset + width <= EntryAt(n.LeafNode?, i)
    ensures Field(WithEntry(p, n, i), offset, width) == Field(p, offset, width)
    ensures WithEntry(p, n, i)[6] == p[6]
  {
    hide Splice, Field, Encode;
    var o := EntryAt(n.LeafNode?, i);
    var key := Encode(ToBits(n.keys[i]), 8);
    var q: Page := Splice(p, o, key);
    PutOther(p, o, key, offset, width);
    if n.LeafNode? {
      var page, slot := Encode(n.values[i].page, 4), Encode(n.values[i].slot, 2);
      var r: Page := Splice(q, o + 8, page);
      PutOther(q, o + 8, page, offset, width);
      PutOther(r, o + 12, slot, offset, width);
    } else {
      PutOther(q, o + 8, Encode(n.children[i + 1], 4), offset, width);
    }
  }

  lemma WithEntryKeepsHeader(p: Page, n: Node, i: nat)
    requires Shapely(n) && i < |n.keys| <= 255 && HeaderOk(p, n)
    ensures HeaderOk(WithEntry(p, n, i), n)
  {
    hide WithEntry, Field;
    WithEntryKeeps(p, n, i, 0, 4);
    WithEntryKeeps(p, n, i, 4, 2);
    WithEntryKeeps(p, n, i, 8, 2);
    WithEntryKeeps(p, n, i, 12, 4);
  }

  lemma WithEntryKeepsEntry(p: Page, n: Node, i: nat, j: nat)
    requires Shapely(n) && j < i < |n.keys| <= 255 && EntryOk(p, n, j)
    ensures EntryOk(WithEntry(p, n, i), n, j)
  {
    hide WithEntry, Field;
    var o := EntryAt(n.LeafNode?, j);
    WithEntryKeeps(p, n, i, o, 8);
    WithEntryKeeps(p, n, i, o + 8, 4);
    if n.LeafNode? {
      WithEntryKeeps(p, n, i, o + 12, 2);
    }
  }

  lemma LinkFits(n: Node, max: nat)
    requires Encodable(n, max)
    ensures Link(n) < 0x1_0000_0000
    ensures n.LeafNode? ==> NextOf(Link(n)) == n.next
  {}

  lemma {:induction false} WrittenOk(n: Node, i: nat, max: nat)
    requires Encodable(n, max) && i <= |n.keys|
    ensures HeaderOk(Written(n, i), n)
    ensures forall j :: 0 <= j < i ==> EntryOk(Written(n, i), n, j)
  {
    hide WithHeader, WithEntry, HeaderOk, EntryOk, NonDecreasing;
    LinkFits(n, max);
    if i == 0 {
      WithHeaderOk(n);
    } else {
      var p := Written(n, i - 1);
      WrittenOk(n, i - 1, max);
      WithEntryKeepsHeader(p, n, i - 1);
      WithEntryOk(p, n, i - 1, max);
      forall j | 0 <= j < i
        ensures EntryOk(Written(n, i), n, j)
      {
        if j < i - 1 {
          WithEntryKeepsEntry(p, n, i - 1, j);
        }
      }
    }
  }

  lemma EntryReads(p: Page, n: Node, i: nat, max: nat)
    requires Encodable(n, max) && i < |n.keys| && EntryOk(p, n, i)
    ensures Key(p, n.LeafNode?, i) == n.keys[i]
    ensures n.LeafNode? ==> Value(p, i) == n.values[i]
    ensures n.BranchNode? ==> Child(p, i + 1) == n.children[i + 1]
  {
    hide Field, NonDecreasing;
    BitsRoundTrip(n.keys[i], 0);
  }

  // read_node after write_node gives back the node, for every node that fits and max_keys up to 255.
  lemma ParseWritten(n: Node, max: nat)
    requires Encodable(n, max)
    ensures Parse(Written(n, |n.keys|), max) == Some(n)
  {
    hide Written, EntryOk, Key, Value, Child;
    var p := Written(n, |n.keys|);
    WrittenOk(n, |n.keys|, max);
    LinkFits(n, max);
    assert CountOk(p, max);
    forall i | 0 <= i < |n.keys|
      ensures Key(p, n.LeafNode?, i) == n.keys[i]
      ensures n.LeafNode? ==> Value(p, i) == n.values[i]
      ensures n.BranchNode? ==> Child(p, i + 1) == n.children[i + 1]
    {
      EntryReads(p, n, i, max);
    }
    assert KeysOf(p) == n.keys;
    if n.LeafNode? {
      assert ValuesOf(p) == n.values;
    } else {
      ChildZero(p, n);
      forall i | 0 <= i < |n.children|
        ensures Child(p, i) == n.children[i]
      {
        if i > 0 {
          EntryReads(p, n, i - 1, max);
        }
      }
      assert ChildrenOf(p) == n.children;
    }
  }

  lemma ChildZero(p: Page, n: Node)
    requires n.BranchNode? && |n.children| > 0 && HeaderOk(p, n)
    ensures Child(p, 0) == n.children[0]
  {}

  // Two different nodes never have the same bytes.
  lemma WrittenInjective(a: Node, b: Node, max: nat)
    requires Encodable(a, max) && Encodable(b, max)
    requires Written(a, |a.keys|) == Written(b, |b.keys|)
    ensures a == b
  {
    ParseWritten(a, max);
    ParseWritten(b, max);
  }
}
