// The B+ tree over the buffer pool: nodes read from and written to pages, one guard at a time.
module BPlusTree {
  import opened Bytes
  import opened Results
  import opened Seqs
  import opened TreeSpec
  import opened TreePages
  import opened TreeLaws
  import opened NodePage
  import opened TreeStore
  import opened Views
  import opened TreeWalk
  import PoolSpec
  import BufferPool

  datatype TreeError = PoolFailure(error: PoolSpec.PoolError) | CorruptNode | DuplicateKey | InvalidConfiguration

  // One page on each of at most 33 levels, and a new root.
  const NEW_PAGES: nat := 34

  // A new right sibling, to be linked into the parent.
  datatype SplitNode = SplitNode(separator: I64, rightId: PageId)

  class BPlusTree {
    const pool: BufferPool.BufferPool
    const maxKeys: nat
    var root: Option<PageId>
    // The tree the pages stand for.
    ghost var shape: Option<Tree>

    constructor (pool: BufferPool.BufferPool, root: Option<PageId>, maxKeys: nat, ghost shape: Option<Tree>)
      ensures this.pool == pool && this.maxKeys == maxKeys && this.root == root && this.shape == shape
      ensures pool.Idle() && |pool.View()| <= MAX_PAGES ==> (Valid() <==> Stored(pool.View(), root, shape, maxKeys))
      ensures pool.Idle() && |pool.View()| <= MAX_PAGES && root.None? && shape.None? ==>
        Valid() && PagesOf(this.shape) == {} && Contents(this.shape) == map[]
    {
      this.pool := pool;
      this.maxKeys := maxKeys;
      this.root := root;
      this.shape := shape;
    }

    // The tree is intact in the pages the pool shows, and no guard is out.
    ghost predicate Valid()
      reads this, pool, pool.disk
    {
      pool.Idle() && |pool.View()| <= MAX_PAGES && Stored(pool.View(), root, shape, maxKeys)
    }

    method Find(key: I64) returns (r: Result<Option<RowId>, TreeError>)
      requires Valid()
      modifies pool, pool.disk
      ensures Valid() && pool.View() == old(pool.View())
      ensures r == Ok(if key in Contents(shape) then Some(Contents(shape)[key]) else None)
      ensures shape.Some? ==> pool.clock == old(pool.clock) + 2 * (Depth(shape.value) + 1)
      ensures pool.frames.Keys <= old(pool.frames.Keys) + PagesOf(shape)
    {
      hide PoolSpec.Coherent, PoolSpec.View, Stored, WellFormed, TreeAt, Ids, Entries, Reached, Parse, Get, UpperBound, LowerBound, Shaped;
      hide BufferPool.BufferPool.Idle;
      if root.None? {
        NoRoot(pool.View(), root, shape, maxKeys);
        return Ok(None);
      }
      ghost var view := pool.View();
      HasRoot(view, root, shape, maxKeys);
      RootReached(view, root, shape, maxKeys, key);
      GetIsMapOf(Entries(shape.value), key);
      ghost var t, lo, hi, depth := shape.value, MIN_KEY, KEY_LIMIT, Depth(shape.value);
      var current := root.value;
      while true
        invariant pool.Idle() && pool.View() == view && current == t.id
        invariant Reached(view, t, key, lo, hi, depth, maxKeys)
        invariant Get(Entries(t), key) == Get(Entries(shape.value), key)
        invariant Ids(t) <= Ids(shape.value) && pool.frames.Keys <= old(pool.frames.Keys) + Ids(shape.value)
        invariant pool.clock == old(pool.clock) + 2 * (Depth(shape.value) - depth)
        decreases depth
      {
        ReachedFacts(view, t, key, lo, hi, depth, maxKeys);
        NodeRead(view, t, maxKeys);
        var loaded := ReadNode(current);
        match loaded {
          case Err(error) => return Err(error);
          case Ok(_) =>
        }
        var node := loaded.value;
        if node.LeafNode? {
          LeafAnswer(t, key);
          var found := LowerBound(node.keys, key);
          if found == |node.keys| || node.keys[found] != key {
            return Ok(None);
          }
          return Ok(Some(node.values[found]));
        }
        StepDown(view, t, key, lo, hi, depth, maxKeys);
        GetBelow(view, t, key, lo, hi, depth, maxKeys);
        var child := UpperBound(node.keys, key);
        current := node.children[child];
        t, lo, hi, depth := t.kids[child], Lo(t.keys, lo, child), Hi(t.keys, hi, child), depth - 1;
      }
    }

    method Erase(key: I64) returns (error: Option<TreeError>)
      requires Valid()
      modifies this`shape, pool, pool.disk
      ensures Valid() && error.None? && root == old(root)
      ensures Contents(shape) == old(Contents(shape)) - {key}
      ensures PagesOf(shape) == old(PagesOf(shape)) && |pool.View()| == |old(pool.View())|
      ensures Untouched(old(pool.View()), pool.View(), PagesOf(shape))
      ensures pool.frames.Keys <= old(pool.frames.Keys) + PagesOf(shape)
    {
      hide PoolSpec.Coherent, PoolSpec.View, Stored, WellFormed, TreeAt, Ids, Entries, Reached, Parse, Get, UpperBound, LowerBound, Shaped,
           NodeOf, MapOf;
      hide BufferPool.BufferPool.Idle;
      if root.None? {
        NoRoot(pool.View(), root, shape, maxKeys);
        return None;
      }
      ghost var view := pool.View();
      HasRoot(view, root, shape, maxKeys);
      RootReached(view, root, shape, maxKeys, key);
      ghost var whole := shape.value;
      ReachedFacts(view, whole, key, MIN_KEY, KEY_LIMIT, Depth(whole), maxKeys);
      ghost var t, lo, hi, depth := whole, MIN_KEY, KEY_LIMIT, Depth(whole);
      var current := root.value;
      while true
        invariant pool.Idle() && pool.View() == view && current == t.id
        invariant Reached(view, t, key, lo, hi, depth, maxKeys)
        invariant shape == Some(whole) && Shaped(t) && Shaped(whole) && Target(whole, key) == Target(t, key)
        invariant Ids(t) <= Ids(whole) && pool.frames.Keys <= old(pool.frames.Keys) + Ids(whole)
        decreases depth
      {
        ReachedFacts(view, t, key, lo, hi, depth, maxKeys);
        NodeRead(view, t, maxKeys);
        var loaded := ReadNode(current);
        match loaded {
          case Err(failure) => return Some(failure);
          case Ok(_) =>
        }
        var node := loaded.value;
        NodeShape(t);
        if node.LeafNode? {
          error := EraseFromLeaf(current, node, key, view, whole, t);
          return;
        }
        StepDown(view, t, key, lo, hi, depth, maxKeys);
        TargetBelow(t, key);
        var child := UpperBound(node.keys, key);
        current := node.children[child];
        t, lo, hi, depth := t.kids[child], Lo(t.keys, lo, child), Hi(t.keys, hi, child), depth - 1;
      }
    }

    // The end of erase: the leaf that would hold the key is in hand.
    method EraseFromLeaf(id: PageId, leaf: Node, key: I64, ghost view: seq<Page>, ghost whole: Tree, ghost t: Tree)
      returns (error: Option<TreeError>)
      requires Valid() && pool.View() == view && shape == Some(whole) && Shaped(whole)
      requires t.Leaf? && id == t.id && leaf == LeafNode(t.keys, t.vals, t.next) && TreeAt(view, t, maxKeys)
      requires Sorted(t.keys) && Shaped(t) && Target(whole, key) == t
      modifies this`shape, pool, pool.disk
      ensures Valid() && error.None?
      ensures Contents(shape) == MapOf(Entries(whole)) - {key}
      ensures PagesOf(shape) == Ids(whole) && |pool.View()| == |view|
      ensures Untouched(view, pool.View(), Ids(whole))
      ensures pool.frames.Keys <= old(pool.frames.Keys) + Ids(whole)
    {
      hide PoolSpec.Coherent, PoolSpec.View, WellFormed, TreeAt, Ids, Entries, Parse, LowerBound, MapOf, Encodable, Written, TreeOk,
           Untouched;
      hide BufferPool.BufferPool.Idle;
      TargetFacts(whole, key);
      StoredParts(view, root, whole, maxKeys);
      EraseRootOk(whole, key, maxKeys);
      NodeRead(view, t, maxKeys);
      var found := LowerBound(leaf.keys, key);
      if found == |leaf.keys| || leaf.keys[found] != key {
        NothingErased(t, whole, key);
        UntouchedSame(view, Ids(whole));
        return None;
      }
      var node := leaf.(keys := leaf.keys[..found] + leaf.keys[found + 1..],
                        values := leaf.values[..found] + leaf.values[found + 1..]);
      ErasedLeafEncodable(view, t, found, maxKeys);
      error := WriteNode(id, node);
      LeafRewritten(view, whole, key, node, maxKeys);
      shape := Some(TreeLaws.Erase(whole, key));
    }

    method Range(lower: Option<I64>, upper: Option<I64>) returns (r: Result<seq<RowId>, TreeError>)
      requires Valid()
      modifies pool, pool.disk
      ensures Valid() && pool.View() == old(pool.View())
      ensures r == Ok(if shape.None? then [] else RangeOf(Entries(shape.value), lower, upper))
      ensures pool.frames.Keys <= old(pool.frames.Keys) + PagesOf(shape)
    {
      hide PoolSpec.Coherent, PoolSpec.View, Stored, TreeAt, Ids, Entries, Parse, UpperBound, Leaves, RangeOf, Heading, StartOf, TreeOk;
      hide BufferPool.BufferPool.Idle;
      if lower.Some? && upper.Some? && lower.value > upper.value {
        if shape.Some? {
          RangeEmpty(Entries(shape.value), lower, upper);
        }
        return Ok([]);
      }
      ghost var view := pool.View();
      NoRoot(view, root, shape, maxKeys);
      if root.None? {
        return Ok([]);
      }
      ghost var whole := shape.value;
      HasRoot(view, root, shape, maxKeys);
      StoredParts(view, root, whole, maxKeys);
      HeadingBegin(view, whole, lower, maxKeys);
      ghost var t := whole;
      var current := root.value;
      while true
        invariant pool.Idle() && pool.View() == view && current == t.id && current < 0x1_0000_0000
        invariant Heading(view, whole, t, lower, maxKeys)
        invariant pool.frames.Keys <= old(pool.frames.Keys) + Ids(whole)
        decreases t
      {
        HeadingAt(view, whole, t, lower, maxKeys);
        NodeRead(view, t, maxKeys);
        HeadingIds(view, whole, t, lower, maxKeys);
        var loaded := ReadNode(current);
        match loaded {
          case Err(failure) => return Err(failure);
          case Ok(_) =>
        }
        var node := loaded.value;
        NodeShape(t);
        if node.LeafNode? {
          break;
        }
        HeadingStep(view, whole, t, lower, maxKeys);
        var child := Toward(node.keys, lower);
        current := node.children[child];
        t := t.kids[child];
        HeadingAt(view, whole, t, lower, maxKeys);
        NodeRead(view, t, maxKeys);
      }
      HeadingEnd(view, whole, t, lower, maxKeys);
      r := Collect(current, lower, upper, view, whole);
    }

    // Follows the chain of leaves from the start of the range.
    method Collect(start: PageId, lower: Option<I64>, upper: Option<I64>, ghost view: seq<Page>, ghost whole: Tree)
      returns (r: Result<seq<RowId>, TreeError>)
      requires pool.Idle() && pool.View() == view && |view| <= MAX_PAGES
      requires TreeOk(whole, maxKeys) && TreeAt(view, whole, maxKeys) && Shaped(whole)
      requires StartOf(whole, lower) < |Leaves(whole)| && start == Leaves(whole)[StartOf(whole, lower)].id
      modifies pool, pool.disk
      ensures pool.Idle() && pool.View() == view
      ensures r == Ok(RangeOf(Entries(whole), lower, upper))
      ensures pool.frames.Keys <= old(pool.frames.Keys) + Ids(whole)
    {
      hide PoolSpec.Coherent, PoolSpec.View, Stored, TreeAt, Ids, Entries, Parse, Leaves, RangeOf, StartOf, TreeOk, ForestEntries, Zip;
      hide BufferPool.BufferPool.Idle;
      var result: seq<RowId> := [];
      var current := start;
      ghost var ls := Leaves(whole);
      ghost var i := StartOf(whole, lower);
      RangeStarts(whole, lower, upper, maxKeys);
      while true
        invariant pool.Idle() && pool.View() == view
        invariant i < |ls| && current == ls[i].id
        invariant result == RangeOf(ForestEntries(ls[..i]), lower, upper)
        invariant pool.frames.Keys <= old(pool.frames.Keys) + Ids(whole)
        decreases |ls| - i
      {
        ChainStep(view, whole, i, maxKeys);
        var loaded := ReadNode(current);
        match loaded {
          case Err(failure) => return Err(failure);
          case Ok(_) =>
        }
        var leaf := loaded.value;
        var found, done, stop := TakeFrom(leaf, lower, upper, ls[i]);
        result := result + found;
        if done {
          RangeEnds(whole, i, stop, lower, upper, maxKeys);
          return Ok(result);
        }
        OneLeafMore(ls, i);
        RangeConcat(ForestEntries(ls[..i]), Entries(ls[i]), lower, upper);
        if leaf.next.None? {
          LeavesHold(whole);
          assert ls[..i + 1] == ls;
          return Ok(result);
        }
        current := leaf.next.value;
        i := i + 1;
      }
    }

    // The rows of one leaf that belong to the range; `done` when a key beyond the upper bound is met.
    method TakeFrom(leaf: Node, lower: Option<I64>, upper: Option<I64>, ghost t: Tree)
      returns (result: seq<RowId>, done: bool, ghost stop: nat)
      requires t.Leaf? && Shaped(t) && leaf == LeafNode(t.keys, t.vals, t.next)
      ensures !done ==> result == RangeOf(Entries(t), lower, upper)
      ensures done ==>
        && stop < |t.keys| == |Entries(t)| && upper.Some? && upper.value < t.keys[stop]
        && result == RangeOf(Entries(t)[..stop], lower, upper)
    {
      hide RangeOf, Zip;
      result, stop := [], 0;
      ghost var es := Entries(t);
      LeafEntries(t);
      for j := 0 to |leaf.keys|
        invariant result == RangeOf(es[..j], lower, upper)
      {
        RangeOne(es, j, lower, upper);
        if lower.Some? && leaf.keys[j] < lower.value {
          continue;
        }
        if upper.Some? && leaf.keys[j] > upper.value {
          return result, true, j;
        }
        result := result + [leaf.values[j]];
      }
      assert es[..|es|] == es;
      return result, false, 0;
    }

    lemma LeafEntries(t: Tree)
      requires t.Leaf? && Shaped(t)
      ensures |Entries(t)| == |t.keys| && RangeOf([], None, None) == []
      ensures forall j :: 0 <= j < |t.keys| ==> Entries(t)[j] == (t.keys[j], t.vals[j])
      ensures forall lower, upper :: RangeOf(Entries(t)[..0], lower, upper) == []
    {}

    // Takes a fresh page for a node; the guard it comes with is dropped at once.
    method AllocateNode() returns (r: Result<PageId, TreeError>)
      requires pool.Idle()
      modifies pool, pool.disk
      ensures pool.Idle()
      ensures r.Ok? <==> |old(pool.View())| <= 0xFFFF_FFFF
      ensures r.Ok? ==> r.value == |old(pool.View())| && pool.View() == old(pool.View()) + [Zeros(PAGE_SIZE)]
      ensures pool.frames.Keys <= old(pool.frames.Keys) + {|old(pool.View())|}
    {
      hide PoolSpec.Coherent, PoolSpec.View, PoolSpec.Fetch, PoolSpec.Allocate;
      var taken := pool.AllocatePage();
      match taken {
        case Err(failure) => return Err(PoolFailure(failure));
        case Ok(_) =>
      }
      var guard := taken.value;
      var id := guard.pageId;
      guard.Release();
      assert multiset{} + multiset{(id, false)} - multiset{(id, false)} == multiset{};
      return Ok(id);
    }

    // A leaf that has just taken the new key, written back whole or in two halves.
    method StoreLeaf(id: PageId, keys: seq<I64>, values: seq<RowId>, next: Option<PageId>, ghost t: Tree)
      returns (r: Result<Option<SplitNode>, TreeError>)
      requires pool.Idle() && id == t.id && LeafReady(pool.View(), t, keys, values, maxKeys) && next == t.next
      requires |pool.View()| < MAX_PAGES
      modifies pool, pool.disk
      ensures pool.Idle()
      ensures var g := GrowLeaf(id, keys, values, next, |old(pool.View())|, maxKeys);
        && !g.Duplicate?
        && Inserted(old(pool.View()), pool.View(), t, g, maxKeys)
        && r == Ok(SplitOf(g))
        && pool.frames.Keys <= old(pool.frames.Keys) + {id} + Span(|old(pool.View())|, g.used)
    {
      hide PoolSpec.Coherent, PoolSpec.View, Encodable, Written, Inserted, LeafReady, Sorted;
      hide BufferPool.BufferPool.Idle;
      ghost var view := pool.View();
      LeafReadyFacts(view, t, keys, values, maxKeys);
      if |keys| <= maxKeys {
        LeafWritten(view, t, keys, values, maxKeys);
        var error := WriteNode(id, LeafNode(keys, values, next));
        match error {
          case Some(failure) => return Err(failure);
          case None => return Ok(None);
        }
      }
      LeafSplitWritten(view, t, keys, values, maxKeys);
      var taken := AllocateNode();
      match taken {
        case Err(failure) => return Err(failure);
        case Ok(_) =>
      }
      var rightId := taken.value;
      var middle := |keys| / 2;
      var right := LeafNode(keys[middle..], values[middle..], next);
      var left := LeafNode(keys[..middle], values[..middle], Some(rightId));
      var failed := WriteNode(id, left);
      if failed.None? {
        failed := WriteNode(rightId, right);
      }
      match failed {
        case Some(failure) => return Err(failure);
        case None => return Ok(Some(SplitNode(right.keys[0], rightId)));
      }
    }

    // A branch whose child has split takes the new separator and child, and is written back whole or in two.
    method StoreBranch(id: PageId, node: Node, c: nat, split: SplitNode, ghost v: seq<Page>, ghost t: Tree, ghost grown: Grown)
      returns (r: Result<Option<SplitNode>, TreeError>)
      requires pool.Idle() && BranchReady(v, pool.View(), t, c, grown, maxKeys)
      requires id == t.id && node == BranchNode(t.keys, KidIds(t.kids)) && Some(split) == SplitOf(grown)
      requires |pool.View()| < MAX_PAGES
      modifies pool, pool.disk
      ensures pool.Idle() && t.Branch? && c <= |t.keys| && |t.kids| == |t.keys| + 1
      ensures var g := GrowAt(t, c, grown, |v|, maxKeys);
        && Inserted(v, pool.View(), t, g, maxKeys)
        && r == Ok(SplitOf(g))
        && pool.frames.Keys <= old(pool.frames.Keys) + {id} + (if g.Split? then {|old(pool.View())|} else {})
    {
      hide PoolSpec.Coherent, PoolSpec.View, Encodable, Written, Inserted, BranchReady, Sorted, ForestIds, ForestAt, TwoPages;
      hide BufferPool.BufferPool.Idle;
      ghost var view := pool.View();
      BranchReadySizes(v, view, t, c, grown, maxKeys);
      BranchReadyFacts(v, view, t, c, grown, maxKeys);
      var keys := node.keys[..c] + [split.separator] + node.keys[c..];
      var children := node.children[..c + 1] + [split.rightId] + node.children[c + 1..];
      if |keys| <= maxKeys {
        BranchWritten(v, view, t, c, grown, maxKeys);
        var error := WriteNode(id, BranchNode(keys, children));
        match error {
          case Some(failure) => return Err(failure);
          case None => return Ok(None);
        }
      }
      BranchSplitWritten(v, view, t, c, grown, maxKeys, LeftHalf(GrownNode(t, c, grown)), RightHalf(GrownNode(t, c, grown)));
      var halves := StoreHalves(id, BranchNode(keys, children));
      match halves {
        case Err(failure) => return Err(failure);
        case Ok(right) => return Ok(Some(right));
      }
    }

    // A branch too large for its page, written back in two; the middle key goes up.
    method StoreHalves(id: PageId, node: Node) returns (r: Result<SplitNode, TreeError>)
      requires pool.Idle() && node.BranchNode? && |node.children| == |node.keys| + 1 && |node.keys| > 0
      requires id < |pool.View()| < MAX_PAGES && Encodable(LeftHalf(node), maxKeys) && Encodable(RightHalf(node), maxKeys)
      modifies pool, pool.disk
      ensures pool.Idle() && r == Ok(SplitNode(node.keys[|node.keys| / 2], |old(pool.View())|))
      ensures pool.View() == TwoPages(old(pool.View()), id, LeftHalf(node), RightHalf(node), maxKeys)
      ensures pool.frames.Keys <= old(pool.frames.Keys) + {id, |old(pool.View())|}
    {
      hide PoolSpec.Coherent, PoolSpec.View, BufferPool.BufferPool.Idle, Encodable, Written;
      var taken := AllocateNode();
      match taken {
        case Err(failure) => return Err(failure);
        case Ok(_) =>
      }
      var rightId := taken.value;
      var middle := |node.keys| / 2;
      var separator := node.keys[middle];
      var right := BranchNode(node.keys[middle + 1..], node.children[middle + 1..]);
      var left := BranchNode(node.keys[..middle], node.children[..middle + 1]);
      var failed := WriteNode(id, left);
      if failed.None? {
        failed := WriteNode(rightId, right);
      }
      match failed {
        case Some(failure) => return Err(failure);
        case None => return Ok(SplitNode(separator, rightId));
      }
    }

    // A key that is absent is added and nothing else about the map changes; a key that is present is
    // refused and nothing at all changes. The pool must have room for a node on every level and a new root.
    method Insert(key: I64, row: RowId) returns (error: Option<TreeError>)
      requires Valid() && row.page < 0x1_0000_0000 && |pool.View()| + NEW_PAGES <= MAX_PAGES
      modifies this`root, this`shape, pool, pool.disk
      ensures Valid()
      ensures error == (if !(2 <= maxKeys <= 255) then Some(InvalidConfiguration)
                        else if key in old(Contents(shape)) then Some(DuplicateKey) else None)
      ensures error.Some? ==> pool.View() == old(pool.View()) && root == old(root) && shape == old(shape)
      ensures error.None? ==> Contents(shape) == old(Contents(shape))[key := row]
      ensures |old(pool.View())| <= |pool.View()| <= |old(pool.View())| + NEW_PAGES
      ensures PagesOf(shape) == old(PagesOf(shape)) + Span(|old(pool.View())|, |pool.View()| - |old(pool.View())|)
      ensures Untouched(old(pool.View()), pool.View(), old(PagesOf(shape)))
      ensures pool.frames.Keys <= old(pool.frames.Keys) + PagesOf(shape)
    {
      hide PoolSpec.Coherent, PoolSpec.View, BufferPool.BufferPool.Idle, Stored, Contents, Ids, TreeSpec.Insert, Untouched, Inserted,
           TreeOk, Reached, Shaped;
      ghost var view := pool.View();
      UntouchedSame(view, PagesOf(shape));
      if maxKeys < 2 || maxKeys > (PAGE_SIZE - HEADER_SIZE) / LEAF_ENTRY_SIZE {
        return Some(InvalidConfiguration);
      }
      NoRoot(view, root, shape, maxKeys);
      if root.None? {
        EmptyMap();
        error := InsertFirst(key, row);
        return;
      }
      ghost var t := shape.value;
      ReadyToInsert(view, root, shape, key, row, maxKeys);
      ghost var g := TreeSpec.Insert(t, key, row, |view|, maxKeys);
      var inserted := InsertRecursive(root.value, key, row, t, MIN_KEY, KEY_LIMIT, Depth(t));
      InsertedFacts(view, pool.View(), t, g, maxKeys);
      match inserted {
        case Err(failure) => return Some(failure);
        case Ok(_) =>
      }
      if inserted.value.None? {
        SameStored(view, pool.View(), t, g, maxKeys);
        shape := Some(g.tree);
        return None;
      }
      error := GrowRoot(inserted.value.value, view, t, g, key, row);
    }

    static lemma EmptyMap()
      ensures Contents(None) == map[]
    {}

    // The first key of an empty tree.
    method InsertFirst(key: I64, row: RowId) returns (error: Option<TreeError>)
      requires Valid() && row.page < 0x1_0000_0000 && |pool.View()| < MAX_PAGES && 2 <= maxKeys <= 255
      requires root.None? && shape.None?
      modifies this`root, this`shape, pool, pool.disk
      ensures Valid() && error.None?
      ensures Contents(shape) == map[key := row]
      ensures |pool.View()| == |old(pool.View())| + 1
      ensures PagesOf(shape) == {|old(pool.View())|} && Untouched(old(pool.View()), pool.View(), {})
      ensures pool.frames.Keys <= old(pool.frames.Keys) + PagesOf(shape)
    {
      hide PoolSpec.Coherent, PoolSpec.View, TreeAt, TreeOk, Untouched, Encodable, Written, Entries, MapOf;
      hide BufferPool.BufferPool.Idle;
      ghost var view := pool.View();
      var taken := AllocateNode();
      match taken {
        case Err(failure) => return Some(failure);
        case Ok(_) =>
      }
      var id := taken.value;
      var node := LeafNode([key], [row], None);
      FirstLeaf(view, key, row, maxKeys);
      root := Some(id);
      error := WriteNode(id, node);
      shape := Some(Leaf(id, [key], [row], None));
    }

    // The root split: a new root above the two halves.
    method GrowRoot(split: SplitNode, ghost view: seq<Page>, ghost t: Tree, ghost g: Grown, ghost key: I64, ghost row: RowId)
      returns (error: Option<TreeError>)
      requires pool.Idle() && |pool.View()| < MAX_PAGES && 2 <= maxKeys <= 255
      requires g.Split? && Some(split) == SplitOf(g) && Inserted(view, pool.View(), t, g, maxKeys)
      requires root == Some(t.id)
      requires TreeOk(Branch(|pool.View()|, [g.separator], [g.left, g.right]), maxKeys)
      modifies this`root, this`shape, pool, pool.disk
      ensures Valid() && error.None?
      ensures shape == Some(Branch(|old(pool.View())|, [g.separator], [g.left, g.right]))
      ensures |pool.View()| == |old(pool.View())| + 1 && Untouched(view, pool.View(), Ids(t))
      ensures pool.frames.Keys <= old(pool.frames.Keys) + {|old(pool.View())|}
    {
      hide PoolSpec.Coherent, PoolSpec.View, TreeAt, TreeOk, Untouched, Encodable, Written, Entries, Inserted, Ids;
      hide BufferPool.BufferPool.Idle;
      ghost var w := pool.View();
      var taken := AllocateNode();
      match taken {
        case Err(failure) => return Some(failure);
        case Ok(_) =>
      }
      var id := taken.value;
      var node := BranchNode([split.separator], [root.value, split.rightId]);
      RootWritten(view, w, t, g, maxKeys);
      error := WriteNode(id, node);
      match error {
        case Some(failure) => return Some(failure);
        case None =>
      }
      root := Some(id);
      shape := Some(Branch(id, [g.separator], [g.left, g.right]));
    }

    method InsertRecursive(id: PageId, key: I64, row: RowId, ghost t: Tree, ghost lo: int, ghost hi: int, ghost depth: nat)
      returns (r: Result<Option<SplitNode>, TreeError>)
      requires pool.Idle() && id == t.id && 2 <= maxKeys <= 255 && row.page < 0x1_0000_0000
      requires Reached(pool.View(), t, key, lo, hi, depth, maxKeys) && Shaped(t)
      requires |pool.View()| + depth < MAX_PAGES
      modifies pool, pool.disk
      ensures pool.Idle()
      ensures var g := TreeSpec.Insert(t, key, row, |old(pool.View())|, maxKeys);
        && Inserted(old(pool.View()), pool.View(), t, g, maxKeys)
        && r == (if g.Duplicate? then Err(DuplicateKey) else Ok(SplitOf(g)))
        && pool.frames.Keys <= old(pool.frames.Keys) + Ids(t) + Span(|old(pool.View())|, Used(g))
      decreases depth, 1
    {
      hide PoolSpec.Coherent, PoolSpec.View, Inserted, Reached, TreeAt, Parse, Sorted, UpperBound, LowerBound, GrowLeaf, GrowAt,
           BranchReady, LeafReady, KidIds, Ids, WellFormed, Shaped;
      hide BufferPool.BufferPool.Idle;
      ghost var view := pool.View();
      ReachedFacts(view, t, key, lo, hi, depth, maxKeys);
      NodeRead(view, t, maxKeys);
      NodeShape(t);
      ShapedSizes(t);
      var loaded := ReadNode(id);
      match loaded {
        case Err(failure) => return Err(failure);
        case Ok(_) =>
      }
      var node := loaded.value;
      if node.LeafNode? {
        LeafInsert(t, key, row, |view|, maxKeys);
        var position := LowerBound(node.keys, key);
        if position < |node.keys| && node.keys[position] == key {
          NotInserted(view, t, maxKeys);
          return Err(DuplicateKey);
        }
        LeafReadyAfter(view, t, key, row, lo, hi, maxKeys);
        r := StoreLeaf(id, node.keys[..position] + [key] + node.keys[position..],
                       node.values[..position] + [row] + node.values[position..], node.next, t);
        return;
      }
      r := InsertBelow(id, node, key, row, view, t, lo, hi, depth);
    }

    // The rest of insert_recursive at a branch that has been read.
    method InsertBelow(id: PageId, node: Node, key: I64, row: RowId, ghost view: seq<Page>, ghost t: Tree, ghost lo: int, ghost hi: int, ghost depth: nat)
      returns (r: Result<Option<SplitNode>, TreeError>)
      requires pool.Idle() && pool.View() == view && id == t.id && 2 <= maxKeys <= 255 && row.page < 0x1_0000_0000
      requires Reached(view, t, key, lo, hi, depth, maxKeys) && Shaped(t) && t.Branch?
      requires node == BranchNode(t.keys, KidIds(t.kids)) && |view| + depth < MAX_PAGES
      modifies pool, pool.disk
      ensures pool.Idle()
      ensures var g := TreeSpec.Insert(t, key, row, |view|, maxKeys);
        && Inserted(view, pool.View(), t, g, maxKeys)
        && r == (if g.Duplicate? then Err(DuplicateKey) else Ok(SplitOf(g)))
        && pool.frames.Keys <= old(pool.frames.Keys) + Ids(t) + Span(|view|, Used(g))
      decreases depth, 0
    {
      hide PoolSpec.Coherent, PoolSpec.View, Inserted, Reached, TreeAt, Parse, Sorted, UpperBound, GrowAt, BranchReady, KidIds, Ids,
           WellFormed, Shaped, TreeSpec.Insert;
      hide BufferPool.BufferPool.Idle;
      var c := UpperBound(node.keys, key);
      StepDown(view, t, key, lo, hi, depth, maxKeys);
      ReachedFacts(view, t, key, lo, hi, depth, maxKeys);
      ShapedSizes(t);
      BranchGrown(t, key, row, |view|, maxKeys);
      ghost var kid := t.kids[c];
      ghost var grown := TreeSpec.Insert(kid, key, row, |view|, maxKeys);
      InsertUsesBelow(view, kid, key, row, Lo(t.keys, lo, c), Hi(t.keys, hi, c), depth - 1, maxKeys);
      var child := InsertRecursive(node.children[c], key, row, kid, Lo(t.keys, lo, c), Hi(t.keys, hi, c), depth - 1);
      InsertedFacts(view, pool.View(), kid, grown, maxKeys);
      GrowAtUses(t, c, grown, |view|, maxKeys);
      match child {
        case Err(failure) =>
          NotInserted(view, t, maxKeys);
          return Err(failure);
        case Ok(_) =>
      }
      if child.value.None? {
        ReachedShare(view, t, key, lo, hi, depth, maxKeys);
        BranchSame(view, pool.View(), t, c, grown, |view|, maxKeys);
        return Ok(None);
      }
      BranchReadyAfter(view, pool.View(), t, key, row, lo, hi, depth, maxKeys);
      r := StoreBranch(id, node, c, child.value.value, view, t, grown);
      IdIn(t);
    }

    lemma LeafReadyFacts(view: seq<Page>, t: Tree, keys: seq<I64>, values: seq<RowId>, max: nat)
      requires LeafReady(view, t, keys, values, max)
      ensures t.id < |view| && 0 < |keys| == |values| && 2 <= max <= 255
    {}

    ghost function SplitOf(g: Grown): Option<SplitNode> {
      match g
      case Split(_, separator, right, _) => Some(SplitNode(separator, right.id))
      case _ => None
    }

    method ReadNode(id: PageId) returns (r: Result<Node, TreeError>)
      requires pool.Idle() && id < 0x1_0000_0000
      modifies pool, pool.disk
      ensures pool.Idle() && pool.View() == old(pool.View())
      ensures pool.frames.Keys <= old(pool.frames.Keys) + {id}
      ensures id >= |pool.View()| ==> r.Err? && r.error.PoolFailure?
      ensures id < |pool.View()| ==>
        r == (match Parse(pool.View()[id], maxKeys) case None => Err(CorruptNode) case Some(n) => Ok(n))
      ensures id < |pool.View()| ==> pool.clock == old(pool.clock) + 2
    {
      hide PoolSpec.Coherent, PoolSpec.View, PoolSpec.Fetch, Parse;
      var fetched := pool.FetchPage(id);
      if fetched.Err? {
        return Err(PoolFailure(fetched.error));
      }
      var guard := fetched.value;
      var bytes := guard.Content();
      r := ParseNode(bytes);
      guard.Release();
      assert multiset{} + multiset{(id, false)} - multiset{(id, false)} == multiset{};
    }

    // The part of read_node that looks at the bytes.
    method ParseNode(bytes: Page) returns (r: Result<Node, TreeError>)
      ensures r == match Parse(bytes, maxKeys) case None => Err(CorruptNode) case Some(n) => Ok(n)
    {
      hide Key, Value, Child, Field;
      if Field(bytes, 0, 4) != MAGIC || Field(bytes, 4, 2) != VERSION {
        return Err(CorruptNode);
      }
      var leaf := bytes[6] == 1;
      var count := Field(bytes, 8, 2);
      if count > maxKeys || HEADER_SIZE + count * EntrySize(leaf) > PAGE_SIZE {
        return Err(CorruptNode);
      }
      var link := Field(bytes, 12, 4);
      var node: Node;
      if leaf {
        var keys, values := ParseEntries(bytes);
        node := LeafNode(keys, values, if link != NO_PAGE then Some(link) else None);
      } else {
        var keys, children := ParseChildren(bytes);
        node := BranchNode(keys, children);
      }
      if !NonDecreasing(node.keys) {
        return Err(CorruptNode);
      }
      return Ok(node);
    }

    // The entries of a leaf.
    method ParseEntries(bytes: Page) returns (keys: seq<I64>, values: seq<RowId>)
      requires bytes[6] == 1 && EntryAt(true, Field(bytes, 8, 2)) <= PAGE_SIZE
      ensures keys == KeysOf(bytes) && values == ValuesOf(bytes)
    {
      hide Key, Value, Field;
      var count := Field(bytes, 8, 2);
      keys, values := [], [];
      for i := 0 to count
        invariant keys == KeysOf(bytes)[..i] && values == ValuesOf(bytes)[..i]
      {
        keys := keys + [Key(bytes, true, i)];
        values := values + [Value(bytes, i)];
      }
      assert KeysOf(bytes)[..count] == KeysOf(bytes) && ValuesOf(bytes)[..count] == ValuesOf(bytes);
    }

    // The entries of a branch; the first child stands in the header.
    method ParseChildren(bytes: Page) returns (keys: seq<I64>, children: seq<PageId>)
      requires bytes[6] != 1 && EntryAt(false, Field(bytes, 8, 2)) <= PAGE_SIZE
      ensures keys == KeysOf(bytes) && children == ChildrenOf(bytes)
    {
      hide Key, Child, Field;
      var count := Field(bytes, 8, 2);
      ChildLink(bytes);
      keys, children := [], [Field(bytes, 12, 4)];
      for i := 0 to count
        invariant keys == KeysOf(bytes)[..i] && children == ChildrenOf(bytes)[..i + 1]
      {
        keys := keys + [Key(bytes, false, i)];
        children := children + [Child(bytes, i + 1)];
      }
      assert KeysOf(bytes)[..count] == KeysOf(bytes) && ChildrenOf(bytes)[..count + 1] == ChildrenOf(bytes);
    }

    lemma ChildLink(bytes: Page)
      ensures Child(bytes, 0) == Field(bytes, 12, 4)
    {}

    method WriteNode(id: PageId, node: Node) returns (error: Option<TreeError>)
      requires pool.Idle() && id < 0x1_0000_0000 && Encodable(node, maxKeys)
      modifies pool, pool.disk
      ensures pool.Idle()
      ensures error.None? <==> id < |old(pool.View())|
      ensures pool.View() ==
        if id < |old(pool.View())| then old(pool.View())[id := Written(node, |node.keys|)] else old(pool.View())
      ensures pool.frames.Keys <= old(pool.frames.Keys) + {id}
    {
      hide PoolSpec.Coherent, PoolSpec.View, PoolSpec.Fetch, Encodable, Written;
      var fetched := pool.FetchPage(id);
      if fetched.Err? {
        return Some(PoolFailure(fetched.error));
      }
      var guard := fetched.value;
      FillPage(guard, node);
      guard.MarkDirty();
      guard.Release();
      assert multiset{(id, true)} - multiset{(id, true)} == multiset{};
      return None;
    }

    // `guard` is the only one out, it has written, and only its page differs from `before`.
    ghost predicate Filling(guard: BufferPool.PageGuard, before: seq<Page>, keys: set<PoolSpec.PageId>)
      reads guard, pool, pool.disk
    {
      && guard.pool == pool && guard.Live() && guard.wrote && pool.held == multiset{(guard.pageId, true)}
      && guard.pageId in pool.frames && pool.frames.Keys == keys
      && guard.pageId < |before| && pool.View() == before[guard.pageId := guard.Content()]
    }

    method Put(guard: BufferPool.PageGuard, offset: nat, bytes: seq<Byte>, ghost before: seq<Page>, ghost keys: set<PoolSpec.PageId>)
      requires Filling(guard, before, keys) && offset + |bytes| <= PAGE_SIZE
      modifies guard`wrote, pool`frames, pool`held
      ensures Filling(guard, before, keys)
      ensures guard.Content() == Splice(old(guard.Content()), offset, bytes)
    {
      hide PoolSpec.Coherent, PoolSpec.View, Splice;
      guard.Put(offset, bytes);
      assert multiset{(guard.pageId, true)} - multiset{(guard.pageId, true)} + multiset{(guard.pageId, true)} == multiset{(guard.pageId, true)};
    }

    // Writes the bytes of a node through a guard, in place.
    method FillPage(guard: BufferPool.PageGuard, node: Node)
      requires guard.pool == pool && guard.Live() && !guard.wrote && guard.pageId in pool.frames
      requires pool.held == multiset{(guard.pageId, false)} && Encodable(node, maxKeys)
      modifies guard`wrote, pool`frames, pool`held
      ensures guard.pageId < |old(pool.View())|
      ensures Filling(guard, old(pool.View()), old(pool.frames.Keys))
      ensures guard.Content() == Written(node, |node.keys|)
    {
      hide PoolSpec.Coherent, PoolSpec.View, WithEntry, WithHeader, Splice, Encodable;
      EncodableShapely(node);
      ghost var before, keys := pool.View(), pool.frames.Keys;
      guard.Put(0, Zeros(PAGE_SIZE));
      ZerosAll(old(guard.Content()));
      assert multiset{(guard.pageId, false)} - multiset{(guard.pageId, false)} + multiset{(guard.pageId, true)} == multiset{(guard.pageId, true)};
      FillHeader(guard, node, before, keys);
      for i := 0 to |node.keys|
        invariant Filling(guard, before, keys)
        invariant guard.Content() == Written(node, i)
      {
        FillEntry(guard, node, i, before, keys);
      }
    }

    method FillHeader(guard: BufferPool.PageGuard, node: Node, ghost before: seq<Page>, ghost keys: set<PoolSpec.PageId>)
      requires Filling(guard, before, keys) && guard.Content() == Zeros(PAGE_SIZE)
      requires node.BranchNode? ==> |node.children| > 0
      modifies guard`wrote, pool`frames, pool`held
      ensures Filling(guard, before, keys)
      ensures guard.Content() == WithHeader(node)
    {
      hide Filling, Splice, Encode, BufferPool.PageGuard.Content;
      Put(guard, 0, Encode(MAGIC, 4), before, keys);
      Put(guard, 4, Encode(VERSION, 2), before, keys);
      Put(guard, 6, [if node.LeafNode? then 1 else 0], before, keys);
      Put(guard, 8, Encode(|node.keys|, 2), before, keys);
      Put(guard, 12, Encode(Link(node), 4), before, keys);
    }

    method FillEntry(guard: BufferPool.PageGuard, node: Node, i: nat, ghost before: seq<Page>, ghost keys: set<PoolSpec.PageId>)
      requires Filling(guard, before, keys)
      requires Shapely(node) && i < |node.keys| <= 255
      modifies guard`wrote, pool`frames, pool`held
      ensures Filling(guard, before, keys)
      ensures guard.Content() == WithEntry(old(guard.Content()), node, i)
    {
      hide Filling, Splice, Encode, BufferPool.PageGuard.Content;
      var offset := EntryAt(node.LeafNode?, i);
      Put(guard, offset, Encode(ToBits(node.keys[i]), 8), before, keys);
      if node.LeafNode? {
        Put(guard, offset + 8, Encode(node.values[i].page, 4), before, keys);
        Put(guard, offset + 12, Encode(node.values[i].slot, 2), before, keys);
      } else {
        Put(guard, offset + 8, Encode(node.children[i + 1], 4), before, keys);
      }
    }

    lemma EncodableShapely(node: Node)
      requires Encodable(node, maxKeys)
      ensures Shapely(node) && |node.keys| <= 255
      ensures node.BranchNode? ==> |node.children| > 0
      ensures Link(node) < 0x1_0000_0000
    {
      LinkFits(node, maxKeys);
    }

    lemma ZerosAll(p: Page)
      ensures Splice(p, 0, Zeros(PAGE_SIZE)) == Zeros(PAGE_SIZE)
    {}
  }
}
