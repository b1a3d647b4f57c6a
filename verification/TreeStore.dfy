// Where a tree lives: each node encoded in its own page of the pool's view.
module TreeStore {
  import opened Bytes
  import opened Results
  import opened Seqs
  import opened TreeSpec
  import opened TreePages
  import opened NodePage
  import opened Views

  ghost function NodeOf(t: Tree): Node {
    match t
    case Leaf(_, keys, vals, next) => LeafNode(keys, vals, next)
    case Branch(_, keys, kids) => BranchNode(keys, KidIds(kids))
  }

  ghost function KidIds(kids: seq<Tree>): (ids: seq<PageId>)
    ensures |ids| == |kids|
    ensures forall i :: 0 <= i < |kids| ==> ids[i] == kids[i].id
  {
    seq(|kids|, i requires 0 <= i < |kids| => kids[i].id)
  }

  ghost predicate NodeAt(view: seq<Page>, id: PageId, n: Node, max: nat) {
    id < |view| && Parse(view[id], max) == Some(n)
  }

  ghost predicate TreeAt(view: seq<Page>, t: Tree, max: nat)
    decreases t
  {
    && NodeAt(view, t.id, NodeOf(t), max)
    && (t.Branch? ==> forall i :: 0 <= i < |t.kids| ==> TreeAt(view, t.kids[i], max))
  }

  ghost predicate ForestAt(view: seq<Page>, kids: seq<Tree>, max: nat) {
    forall i :: 0 <= i < |kids| ==> TreeAt(view, kids[i], max)
  }

  lemma {:induction false} TreeAtFrame(v: seq<Page>, w: seq<Page>, t: Tree, max: nat)
    requires TreeAt(v, t, max) && SameOn(v, w, Ids(t))
    ensures TreeAt(w, t, max)
    decreases t
  {
    hide Parse;
    assert t.id in Ids(t) && SamePage(v, w, t.id);
    if t.Branch? {
      forall i | 0 <= i < |t.kids|
        ensures TreeAt(w, t.kids[i], max)
      {
        KidIdsWithin(t.kids, i);
        assert forall id :: id in Ids(t.kids[i]) ==> id in Ids(t);
        TreeAtFrame(v, w, t.kids[i], max);
      }
    }
  }

  lemma {:induction false} KidIdsWithin(kids: seq<Tree>, i: nat)
    requires i < |kids|
    ensures Ids(kids[i]) <= ForestIds(kids)
    ensures kids[i].id in Ids(kids[i])
  {
    if i > 0 {
      KidIdsWithin(kids[1..], i - 1);
    }
  }

  lemma ForestAtFrame(v: seq<Page>, w: seq<Page>, kids: seq<Tree>, max: nat)
    requires ForestAt(v, kids, max) && SameOn(v, w, ForestIds(kids))
    ensures ForestAt(w, kids, max)
  {
    hide TreeAt;
    forall i | 0 <= i < |kids|
      ensures TreeAt(w, kids[i], max)
    {
      KidIdsWithin(kids, i);
      TreeAtFrame(v, w, kids[i], max);
    }
  }

  lemma {:induction false} TreeAtIds(view: seq<Page>, t: Tree, max: nat)
    requires TreeAt(view, t, max)
    ensures forall id :: id in Ids(t) ==> id < |view|
    decreases t, 0
  {
    hide Parse;
    if t.Branch? {
      ForestAtIds(view, t.kids, max);
    }
  }

  lemma {:induction false} ForestAtIds(view: seq<Page>, kids: seq<Tree>, max: nat)
    requires ForestAt(view, kids, max)
    ensures forall id :: id in ForestIds(kids) ==> id < |view|
    decreases kids, 0
  {
    hide Parse, TreeAt;
    if kids != [] {
      TreeAtIds(view, kids[0], max);
      ForestAtIds(view, kids[1..], max);
    }
  }

  // The largest number of pages for which every page id is distinct from the "no page" mark.
  const MAX_PAGES: nat := NO_PAGE

  lemma BranchEncodable(keys: seq<I64>, kids: seq<Tree>, max: nat, count: nat)
    requires |kids| == |keys| + 1 && |keys| <= max <= 255 && Sorted(keys)
    requires count <= MAX_PAGES && forall id :: id in ForestIds(kids) ==> id < count
    ensures Encodable(BranchNode(keys, KidIds(kids)), max)
  {
    forall i | 0 <= i < |kids|
      ensures KidIds(kids)[i] < NO_PAGE
    {
      KidIdsWithin(kids, i);
    }
  }

  // A tree kept in the pages of `view`, with the root page id its owner remembers.
  ghost predicate Stored(view: seq<Page>, root: Option<PageId>, shape: Option<Tree>, max: nat) {
    && root == (if shape.None? then None else Some(shape.value.id))
    && (shape.Some? ==> 2 <= max <= 255 && TreeOk(shape.value, max) && TreeAt(view, shape.value, max))
  }

  // Row ids carry 32-bit page numbers.
  ghost predicate RowsFit(vals: seq<RowId>) {
    forall i :: 0 <= i < |vals| ==> vals[i].page < 0x1_0000_0000
  }

  // A parsed page only ever holds row ids and links of the on-disk width.
  lemma ParsedFits(p: Page, max: nat)
    requires Parse(p, max).Some?
    ensures var n := Parse(p, max).value;
      && |n.keys| <= max && Shapely(n)
      && (n.LeafNode? ==> RowsFit(n.values) && (n.next.Some? ==> n.next.value < NO_PAGE))
      && (n.BranchNode? ==> forall i :: 0 <= i < |n.children| ==> n.children[i] < 0x1_0000_0000)
  {
    if p[6] == 1 {
      Fits(p, 12, 4);
      forall i | 0 <= i < Field(p, 8, 2)
        ensures Value(p, i).page < 0x1_0000_0000
      {
        Fits(p, EntryAt(true, i) + 8, 4);
      }
      assert |Parse(p, max).value.values| == Field(p, 8, 2);
    } else {
      forall i | 0 <= i < Field(p, 8, 2) + 1
        ensures Child(p, i) < 0x1_0000_0000
      {
        Fits(p, if i == 0 then 12 else EntryAt(false, i - 1) + 8, 4);
      }
    }
  }
}
