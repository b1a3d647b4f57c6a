// The way down a tree and along its leaves.
module TreeWalk {
  import opened Bytes
  import opened Results
  import opened Seqs
  import opened TreeSpec
  import opened TreePages
  import opened TreeLaws
  import opened NodePage
  import opened TreeStore
  import opened Views

  // What a walk towards k knows about the subtree it has reached.
  ghost predicate Reached(view: seq<Page>, t: Tree, k: I64, lo: int, hi: int, depth: nat, max: nat) {
    && WellFormed(t, lo, hi, depth, max) && Shaped(t) && NoShare(t)
    && lo <= k < hi && TreeAt(view, t, max)
  }

  lemma RootReached(view: seq<Page>, root: Option<PageId>, shape: Option<Tree>, max: nat, k: I64)
    requires Stored(view, root, shape, max) && shape.Some?
    ensures Reached(view, shape.value, k, MIN_KEY, KEY_LIMIT, Depth(shape.value), max)
    ensures root == Some(shape.value.id) && 2 <= max <= 255
  {
    hide WellFormed, TreeAt;
  }

  lemma NoRoot(view: seq<Page>, root: Option<PageId>, shape: Option<Tree>, max: nat)
    requires Stored(view, root, shape, max)
    ensures root.None? <==> shape.None?
  {}

  lemma HasRoot(view: seq<Page>, root: Option<PageId>, shape: Option<Tree>, max: nat)
    requires Stored(view, root, shape, max) && root.Some?
    ensures shape.Some? && root.value == shape.value.id && root.value < |view|
  {}

  lemma ReachedFacts(view: seq<Page>, t: Tree, k: I64, lo: int, hi: int, depth: nat, max: nat)
    requires Reached(view, t, k, lo, hi, depth, max)
    ensures TreeAt(view, t, max) && Sorted(t.keys) && Shaped(t) && (t.Leaf? <==> depth == 0)
  {}

  // One step down, to the child upper_bound picks.
  lemma StepDown(view: seq<Page>, t: Tree, k: I64, lo: int, hi: int, depth: nat, max: nat)
    requires Reached(view, t, k, lo, hi, depth, max) && t.Branch?
    ensures UpperBound(t.keys, k) < |t.kids| && depth > 0
    ensures var c := UpperBound(t.keys, k);
      && Reached(view, t.kids[c], k, Lo(t.keys, lo, c), Hi(t.keys, hi, c), depth - 1, max)
      && Ids(t.kids[c]) <= Ids(t) && t.kids[c].id in Ids(t)
  {
    hide NodeAt, ForestEntries, Below, Above;
    var c := UpperBound(t.keys, k);
    AroundKid(t.keys, t.kids, lo, hi, depth - 1, max, k);
    IdsAround(t.kids, c);
    KidIdsWithin(t.kids, c);
  }

  lemma GetBelow(view: seq<Page>, t: Tree, k: I64, lo: int, hi: int, depth: nat, max: nat)
    requires Reached(view, t, k, lo, hi, depth, max) && t.Branch?
    ensures UpperBound(t.keys, k) < |t.kids|
    ensures Get(Entries(t), k) == Get(Entries(t.kids[UpperBound(t.keys, k)]), k)
  {
    GetInKid(t.keys, t.kids, lo, hi, depth - 1, max, k);
  }

  lemma NodeRead(view: seq<Page>, t: Tree, max: nat)
    requires TreeAt(view, t, max)
    ensures t.id < |view| && Parse(view[t.id], max) == Some(NodeOf(t))
    ensures t.id in Ids(t)
  {
    hide Parse;
  }

  lemma LeafAnswer(t: Tree, k: I64)
    requires t.Leaf? && Shaped(t) && Sorted(t.keys)
    ensures var i := LowerBound(t.keys, k);
      Get(Entries(t), k) == if i < |t.keys| && t.keys[i] == k then Some(t.vals[i]) else None
  {
    LeafGet(t.keys, t.vals, k);
  }

  // ---------- Erasing at the end of the walk ----------

  // The leaf a walk towards k ends in.
  ghost function Target(t: Tree, k: I64): (leaf: Tree)
    requires Shaped(t)
    ensures leaf.Leaf? && Shaped(leaf)
    decreases t
  {
    if t.Leaf? then t else Target(t.kids[UpperBound(t.keys, k)], k)
  }

  lemma {:induction false} TargetFacts(t: Tree, k: I64)
    requires Shaped(t)
    ensures Target(t, k).id in Ids(t)
    ensures Erase(Target(t, k), k) == Target(t, k) ==> Erase(t, k) == t
    decreases t
  {
    if t.Branch? {
      var c := UpperBound(t.keys, k);
      TargetFacts(t.kids[c], k);
      KidIdsWithin(t.kids, c);
    }
  }

  lemma {:induction false} EraseKeepsId(t: Tree, k: I64)
    requires Shaped(t)
    ensures Erase(t, k).id == t.id
  {}

  // A stored branch once one child is another stored tree under the same id, and of the other pages only a leaf of the
  // child before has changed.
  lemma KidReplaced(v: seq<Page>, w: seq<Page>, t: Tree, c: nat, kid: Tree, leaf: PageId, max: nat)
    requires t.Branch? && NoShare(t) && TreeAt(v, t, max) && c < |t.kids| && leaf in Ids(t.kids[c])
    requires SameOn(v, w, Ids(t) - {leaf}) && kid.id == t.kids[c].id && TreeAt(w, kid, max)
    ensures TreeAt(w, Branch(t.id, t.keys, t.kids[c := kid]), max)
  {
    hide Parse, Ids, NoShare;
    EraseStoredKid(v, w, t, c, leaf);
    var kids := t.kids[c := kid];
    assert KidIds(kids) == KidIds(t.kids);
    assert SamePage(v, w, t.id);
    forall i | 0 <= i < |kids|
      ensures TreeAt(w, kids[i], max)
    {
      if i != c {
        TreeAtFrame(v, w, t.kids[i], max);
      }
    }
  }

  // Rewriting the one leaf that holds k turns the stored tree into the erased tree.
  lemma {:induction false} EraseStored(v: seq<Page>, w: seq<Page>, t: Tree, k: I64, max: nat)
    requires Shaped(t) && NoShare(t) && TreeAt(v, t, max)
    requires SameOn(v, w, Ids(t) - {Target(t, k).id})
    requires NodeAt(w, Target(t, k).id, NodeOf(Erase(Target(t, k), k)), max)
    ensures TreeAt(w, Erase(t, k), max)
    decreases t
  {
    hide Parse, UpperBound, SameOn, NodeAt;
    if t.Branch? {
      var c := UpperBound(t.keys, k);
      IdsAround(t.kids, c);
      TargetFacts(t.kids[c], k);
      EraseStoredKid(v, w, t, c, Target(t, k).id);
      EraseStored(v, w, t.kids[c], k, max);
      EraseKeepsId(t.kids[c], k);
      KidReplaced(v, w, t, c, Erase(t.kids[c], k), Target(t, k).id, max);
    }
  }

  lemma TargetBelow(t: Tree, k: I64)
    requires Shaped(t) && t.Branch?
    ensures UpperBound(t.keys, k) < |t.kids| && Shaped(t.kids[UpperBound(t.keys, k)])
    ensures Target(t, k) == Target(t.kids[UpperBound(t.keys, k)], k)
  {}

  lemma StoredParts(view: seq<Page>, root: Option<PageId>, t: Tree, max: nat)
    requires Stored(view, root, Some(t), max)
    ensures TreeOk(t, max) && TreeAt(view, t, max) && root == Some(t.id) && 2 <= max <= 255
    ensures NoShare(t)
  {}

  lemma NothingErased(leaf: Tree, whole: Tree, k: I64)
    requires Shaped(whole) && Target(whole, k) == leaf
    requires LowerBound(leaf.keys, k) == |leaf.keys| || leaf.keys[LowerBound(leaf.keys, k)] != k
    ensures Erase(whole, k) == whole
  {
    TargetFacts(whole, k);
  }

  // The pool after the shortened leaf has been written shows the erased tree.
  lemma LeafRewritten(view: seq<Page>, whole: Tree, k: I64, node: Node, max: nat)
    requires Shaped(whole) && NoShare(whole) && TreeAt(view, whole, max) && Encodable(node, max)
    requires Target(whole, k).id < |view| && node == NodeOf(Erase(Target(whole, k), k))
    ensures var w := view[Target(whole, k).id := Written(node, |node.keys|)];
      TreeAt(w, Erase(whole, k), max) && Untouched(view, w, Ids(whole))
  {
    hide Written, Parse, TreeAt, Ids;
    var id := Target(whole, k).id;
    var w := view[id := Written(node, |node.keys|)];
    TargetFacts(whole, k);
    TreeAtIds(view, whole, max);
    ParseWritten(node, max);
    forall other | other in Ids(whole) - {id}
      ensures SamePage(view, w, other)
    {
    }
    EraseStored(view, w, whole, k, max);
  }

  lemma NodeShape(t: Tree)
    ensures t.Leaf? ==> NodeOf(t) == LeafNode(t.keys, t.vals, t.next)
    ensures t.Branch? ==> NodeOf(t) == BranchNode(t.keys, KidIds(t.kids))
  {}

  lemma ErasedLeafEncodable(view: seq<Page>, t: Tree, i: nat, max: nat)
    requires TreeAt(view, t, max) && t.Leaf? && Shaped(t) && Sorted(t.keys) && i < |t.keys| && max <= 255
    ensures Encodable(LeafNode(t.keys[..i] + t.keys[i + 1..], t.vals[..i] + t.vals[i + 1..], t.next), max)
  {
    hide Parse;
    ParsedFits(view[t.id], max);
  }

  lemma EraseStoredKid(v: seq<Page>, w: seq<Page>, t: Tree, c: nat, leaf: PageId)
    requires t.Branch? && NoShare(t) && c < |t.kids|
    requires leaf in Ids(t.kids[c]) && SameOn(v, w, Ids(t) - {leaf})
    ensures SameOn(v, w, Ids(t.kids[c]) - {leaf})
    ensures SamePage(v, w, t.id)
    ensures forall i :: 0 <= i < |t.kids| && i != c ==> SameOn(v, w, Ids(t.kids[i]))
  {
    KidIdsWithin(t.kids, c);
    assert leaf in ForestIds(t.kids);
    assert t.id in Ids(t) - {leaf};
    forall i | 0 <= i < |t.kids| && i != c
      ensures SameOn(v, w, Ids(t.kids[i]))
    {
      OtherKid(t, c, i, leaf);
      KidIdsWithin(t.kids, i);
      assert forall id :: id in Ids(t.kids[i]) ==> id in Ids(t) - {leaf};
    }
  }

  // Different children share no page.
  lemma OtherKid(t: Tree, c: nat, i: nat, leaf: PageId)
    requires t.Branch? && NoShare(t) && c < |t.kids| && i < |t.kids| && i != c && leaf in Ids(t.kids[c])
    ensures leaf !in Ids(t.kids[i])
  {
    hide ForestIds, ForestNoShare, NoShare, Ids;
    assert ForestNoShare(t.kids) by { NoShareForest(t); }
    IdsAround(t.kids, c);
    if i < c {
      KidIdsWithin(t.kids[..c], i);
    } else {
      KidIdsWithin(t.kids[c + 1..], i - c - 1);
    }
  }

  lemma NoShareForest(t: Tree)
    requires t.Branch? && NoShare(t)
    ensures ForestNoShare(t.kids) && t.id !in ForestIds(t.kids)
  {}

  // ---------- Where a range starts ----------

  // range descends to the child upper_bound picks, or to the first child without a lower bound.
  function Toward(keys: seq<I64>, lower: Option<I64>): (c: nat)
    ensures c <= |keys|
  {
    if lower.None? then 0 else UpperBound(keys, lower.value)
  }

  // The place, among all leaves, of the leaf where a range with this lower bound starts.
  ghost function StartOf(t: Tree, lower: Option<I64>): nat
    requires Shaped(t)
    decreases t
  {
    match t
    case Leaf(_, _, _, _) => 0
    case Branch(_, keys, kids) =>
      var c := Toward(keys, lower);
      |ForestLeaves(kids[..c])| + StartOf(kids[c], lower)
  }

  lemma {:induction false} LeavesHold(t: Tree)
    ensures ForestEntries(Leaves(t)) == Entries(t)
    decreases t, 0
  {
    if t.Leaf? {
      ForestEntriesOne(t);
    } else {
      ForestLeavesHold(t.kids);
    }
  }

  lemma {:induction false} ForestLeavesHold(kids: seq<Tree>)
    ensures ForestEntries(ForestLeaves(kids)) == ForestEntries(kids)
    decreases kids, 0
  {
    hide Leaves, Entries;
    if kids != [] {
      LeavesHold(kids[0]);
      ForestLeavesHold(kids[1..]);
      ForestEntriesConcat(Leaves(kids[0]), ForestLeaves(kids[1..]));
    }
  }

  lemma {:induction false} StartExists(t: Tree, lower: Option<I64>)
    requires Shaped(t)
    ensures StartOf(t, lower) < |Leaves(t)|
    decreases t
  {
    hide Toward;
    if t.Branch? {
      var c := Toward(t.keys, lower);
      StartExists(t.kids[c], lower);
      LeavesAround(t.kids, c);
    }
  }

  // One step down towards the start of a range.
  lemma StartBelow(t: Tree, lower: Option<I64>)
    requires Shaped(t) && t.Branch?
    ensures Toward(t.keys, lower) < |t.kids|
    ensures var kid := t.kids[Toward(t.keys, lower)];
      && Shaped(kid)
      && StartOf(t, lower) < |Leaves(t)| && StartOf(kid, lower) < |Leaves(kid)|
      && Leaves(t)[StartOf(t, lower)] == Leaves(kid)[StartOf(kid, lower)]
  {
    hide Toward, StartOf;
    var c := Toward(t.keys, lower);
    StartExists(t, lower);
    StartExists(t.kids[c], lower);
    LeavesAround(t.kids, c);
    hide Leaves, ForestLeaves;
    MiddleAt(ForestLeaves(t.kids[..c]), Leaves(t.kids[c]), ForestLeaves(t.kids[c + 1..]), StartOf(t.kids[c], lower));
    StartUnfold(t, lower);
  }

  lemma StartUnfold(t: Tree, lower: Option<I64>)
    requires Shaped(t) && t.Branch?
    ensures var c := Toward(t.keys, lower);
      StartOf(t, lower) == |ForestLeaves(t.kids[..c])| + StartOf(t.kids[c], lower)
    ensures Leaves(t) == ForestLeaves(t.kids)
  {}

  // The leaves before the start hold only keys below the lower bound.
  lemma {:induction false} BeforeStart(t: Tree, lower: Option<I64>, lo: int, hi: int, depth: nat, max: nat)
    requires WellFormed(t, lo, hi, depth, max) && Shaped(t)
    ensures StartOf(t, lower) < |Leaves(t)|
    ensures lower.None? ==> StartOf(t, lower) == 0
    ensures lower.Some? ==> Below(ForestEntries(Leaves(t)[..StartOf(t, lower)]), lower.value)
    decreases depth
  {
    hide Leaves, ForestLeaves, ForestEntries, Below, Above, StartOf, Sorted, KeysWithin, Zip;
    StartExists(t, lower);
    if t.Leaf? {
      LeafStart(t, lower);
    } else {
      StartUnfold(t, lower);
      var c := Toward(t.keys, lower);
      var kid := t.kids[c];
      BeforeStart(kid, lower, Lo(t.keys, lo, c), Hi(t.keys, hi, c), depth - 1, max);
      if lower.None? {
        NoLeaves(t.kids[..c]);
      } else {
        AroundKid(t.keys, t.kids, lo, hi, depth - 1, max, lower.value);
        BeforeStartKid(t, c, StartOf(kid, lower), lower.value);
      }
    }
  }

  lemma LeafStart(t: Tree, lower: Option<I64>)
    requires t.Leaf? && Shaped(t)
    ensures StartOf(t, lower) == 0
    ensures lower.Some? ==> Below(ForestEntries(Leaves(t)[..0]), lower.value)
  {
    assert ForestEntries([]) == [];
  }

  lemma NoLeaves(kids: seq<Tree>)
    requires kids == []
    ensures ForestLeaves(kids) == []
  {}

  lemma BeforeStartKid(t: Tree, c: nat, s: nat, k: I64)
    requires t.Branch? && c < |t.kids| && s < |Leaves(t.kids[c])|
    requires Below(ForestEntries(t.kids[..c]), k) && Below(ForestEntries(Leaves(t.kids[c])[..s]), k)
    ensures |ForestLeaves(t.kids[..c])| + s < |Leaves(t)|
    ensures Below(ForestEntries(Leaves(t)[..|ForestLeaves(t.kids[..c])| + s]), k)
  {
    hide ForestEntries, ForestLeaves;
    LeavesAround(t.kids, c);
    ForestLeavesHold(t.kids[..c]);
    var a := ForestLeaves(t.kids[..c]);
    assert Leaves(t)[..|a| + s] == a + Leaves(t.kids[c])[..s];
    ForestEntriesConcat(a, Leaves(t.kids[c])[..s]);
  }

  // Every leaf is stored in its page, and is ordered like the whole.
  lemma {:induction false} LeafStored(view: seq<Page>, t: Tree, max: nat, lo: int, hi: int, depth: nat, i: nat)
    requires TreeAt(view, t, max) && WellFormed(t, lo, hi, depth, max) && i < |Leaves(t)|
    ensures TreeAt(view, Leaves(t)[i], max) && Leaves(t)[i].Leaf? && Shaped(Leaves(t)[i])
    ensures Leaves(t)[i].id in Ids(t)
    decreases t, 0
  {
    hide Parse;
    if t.Branch? {
      ForestLeafStored(view, t.keys, t.kids, max, lo, hi, depth - 1, i);
    }
  }

  lemma {:induction false} ForestLeafStored(view: seq<Page>, keys: seq<I64>, kids: seq<Tree>, max: nat, lo: int, hi: int, depth: nat, i: nat)
    requires ForestAt(view, kids, max) && KidsOk(keys, kids, lo, hi, depth, max) && i < |ForestLeaves(kids)|
    ensures TreeAt(view, ForestLeaves(kids)[i], max) && ForestLeaves(kids)[i].Leaf? && Shaped(ForestLeaves(kids)[i])
    ensures ForestLeaves(kids)[i].id in ForestIds(kids)
    decreases kids, 0
  {
    hide TreeAt, WellFormed, Leaves, Shaped;
    assert WellFormed(kids[0], Lo(keys, lo, 0), Hi(keys, hi, 0), depth, max);
    if i < |Leaves(kids[0])| {
      LeafStored(view, kids[0], max, lo, Hi(keys, hi, 0), depth, i);
    } else if keys != [] {
      CutKids(keys, kids, lo, hi, depth, max, 0);
      ForestLeafStored(view, keys[1..], kids[1..], max, keys[0], hi, depth, i - |Leaves(kids[0])|);
    }
  }

  // ---------- Walking the chain ----------

  // Leaf i of the whole tree, as its page shows it, and where the chain goes from there.
  lemma ChainStep(view: seq<Page>, whole: Tree, i: nat, max: nat)
    requires TreeOk(whole, max) && TreeAt(view, whole, max) && i < |Leaves(whole)|
    ensures var leaf := Leaves(whole)[i];
      && leaf.Leaf? && Shaped(leaf) && leaf.id in Ids(whole) && leaf.id < |view|
      && Parse(view[leaf.id], max) == Some(LeafNode(leaf.keys, leaf.vals, leaf.next))
      && (if i + 1 < |Leaves(whole)| then leaf.next == Some(Leaves(whole)[i + 1].id) else leaf.next == None)
  {
    hide Parse, Leaves;
    LeafStored(view, whole, max, MIN_KEY, KEY_LIMIT, Depth(whole), i);
    NodeRead(view, Leaves(whole)[i], max);
  }

  // The entries of the first i + 1 leaves.
  lemma OneLeafMore(ls: seq<Tree>, i: nat)
    requires i < |ls|
    ensures ForestEntries(ls[..i + 1]) == ForestEntries(ls[..i]) + Entries(ls[i])
  {
    hide Entries;
    assert ls[..i + 1] == ls[..i] + [ls[i]];
    ForestEntriesConcat(ls[..i], [ls[i]]);
    ForestEntriesOne(ls[i]);
  }

  lemma RangeOne(es: seq<Entry>, j: nat, lower: Option<I64>, upper: Option<I64>)
    requires j < |es|
    ensures RangeOf(es[..j + 1], lower, upper) ==
      RangeOf(es[..j], lower, upper) + if InRange(es[j].0, lower, upper) then [es[j].1] else []
  {
    var one := [es[j]];
    assert es[..j + 1] == es[..j] + one;
    RangeConcat(es[..j], one, lower, upper);
    assert RangeOf(one[1..], lower, upper) == [];
  }

  // Once a key beyond the upper bound is met, nothing later belongs to the range.
  lemma RangeEnds(whole: Tree, i: nat, j: nat, lower: Option<I64>, upper: Option<I64>, max: nat)
    requires TreeOk(whole, max) && i < |Leaves(whole)|
    requires Leaves(whole)[i].Leaf? && Shaped(Leaves(whole)[i]) && j < |Leaves(whole)[i].keys|
    requires upper.Some? && upper.value < Leaves(whole)[i].keys[j]
    ensures RangeOf(Entries(whole), lower, upper) ==
      RangeOf(ForestEntries(Leaves(whole)[..i]), lower, upper) + RangeOf(Entries(Leaves(whole)[i])[..j], lower, upper)
  {
    hide Leaves, ForestEntries;
    var ls := Leaves(whole);
    var es := Entries(whole);
    EntriesOrdered(whole, MIN_KEY, KEY_LIMIT, Depth(whole), max);
    LeavesHold(whole);
    EntriesAround(ls, i);
    var a, e, b := ForestEntries(ls[..i]), Entries(ls[i]), ForestEntries(ls[i + 1..]);
    assert es == a + e + b;
    LeafEntry(ls[i], j);
    hide Entries, SortedEntries;
    SplitRange(a, e, b, j, lower, upper);
    Beyond(es, |a| + j, upper.value);
    assert es[|a| + j] == e[j] && es[|a| + j..] == e[j..] + b;
    RangeOutside(e[j..] + b, lower, upper);
  }

  lemma LeafEntry(leaf: Tree, j: nat)
    requires leaf.Leaf? && Shaped(leaf) && j < |leaf.keys|
    ensures j < |Entries(leaf)| && Entries(leaf)[j] == (leaf.keys[j], leaf.vals[j])
  {}

  lemma Beyond(es: seq<Entry>, n: nat, k: I64)
    requires SortedEntries(es) && n < |es| && k < es[n].0
    ensures Above(es[n..], k)
  {}

  lemma SplitRange(a: seq<Entry>, e: seq<Entry>, b: seq<Entry>, j: nat, lower: Option<I64>, upper: Option<I64>)
    requires j <= |e|
    ensures RangeOf(a + e + b, lower, upper) ==
      RangeOf(a, lower, upper) + RangeOf(e[..j], lower, upper) + RangeOf(e[j..] + b, lower, upper)
  {
    assert a + e + b == (a + e[..j]) + (e[j..] + b);
    RangeConcat(a + e[..j], e[j..] + b, lower, upper);
    RangeConcat(a, e[..j], lower, upper);
  }

  // The leaves before the start contribute nothing.
  lemma RangeStarts(whole: Tree, lower: Option<I64>, upper: Option<I64>, max: nat)
    requires TreeOk(whole, max)
    ensures StartOf(whole, lower) < |Leaves(whole)|
    ensures RangeOf(ForestEntries(Leaves(whole)[..StartOf(whole, lower)]), lower, upper) == []
  {
    hide Leaves;
    BeforeStart(whole, lower, MIN_KEY, KEY_LIMIT, Depth(whole), max);
    var before := ForestEntries(Leaves(whole)[..StartOf(whole, lower)]);
    if lower.Some? {
      RangeOutside(before, lower, upper);
    }
  }

  lemma RangeEmpty(es: seq<Entry>, lower: Option<I64>, upper: Option<I64>)
    requires lower.Some? && upper.Some? && lower.value > upper.value
    ensures RangeOf(es, lower, upper) == []
  {
    RangeOutside(es, lower, upper);
  }

  // What a walk towards the start of a range knows.
  ghost predicate Heading(view: seq<Page>, whole: Tree, t: Tree, lower: Option<I64>, max: nat) {
    && Shaped(whole) && Shaped(t) && TreeAt(view, t, max) && Ids(t) <= Ids(whole)
    && StartOf(whole, lower) < |Leaves(whole)| && StartOf(t, lower) < |Leaves(t)|
    && Leaves(whole)[StartOf(whole, lower)] == Leaves(t)[StartOf(t, lower)]
  }

  lemma HeadingStep(view: seq<Page>, whole: Tree, t: Tree, lower: Option<I64>, max: nat)
    requires Heading(view, whole, t, lower, max) && t.Branch?
    ensures Toward(t.keys, lower) < |t.kids|
    ensures Heading(view, whole, t.kids[Toward(t.keys, lower)], lower, max)
    ensures t.kids[Toward(t.keys, lower)] < t
  {
    hide Parse, Leaves, ForestLeaves;
    StartBelow(t, lower);
    KidIdsWithin(t.kids, Toward(t.keys, lower));
  }

  lemma HeadingEnd(view: seq<Page>, whole: Tree, t: Tree, lower: Option<I64>, max: nat)
    requires Heading(view, whole, t, lower, max) && t.Leaf?
    ensures StartOf(whole, lower) < |Leaves(whole)| && Leaves(whole)[StartOf(whole, lower)] == t
  {}

  lemma HeadingBegin(view: seq<Page>, whole: Tree, lower: Option<I64>, max: nat)
    requires TreeOk(whole, max) && TreeAt(view, whole, max)
    ensures Heading(view, whole, whole, lower, max)
  {
    StartExists(whole, lower);
  }

  lemma HeadingAt(view: seq<Page>, whole: Tree, t: Tree, lower: Option<I64>, max: nat)
    requires Heading(view, whole, t, lower, max)
    ensures TreeAt(view, t, max)
  {}

  lemma HeadingIds(view: seq<Page>, whole: Tree, t: Tree, lower: Option<I64>, max: nat)
    requires Heading(view, whole, t, lower, max)
    ensures t.id in Ids(whole)
  {
    assert t.id in Ids(t);
  }

  // ---------- Storing what an insertion made ----------

  lemma OneWritten(v: seq<Page>, id: PageId, node: Node, max: nat)
    requires id < |v| && Encodable(node, max)
    ensures var w := v[id := Written(node, |node.keys|)];
      NodeAt(w, id, node, max) && |w| == |v| && Untouched(v, w, {id})
  {
    hide Written, Parse;
    ParseWritten(node, max);
  }

  // A node split over its old page and one newly allocated.
  // Two nodes, one over a page and one in a new page behind the others.
  ghost function TwoPages(v: seq<Page>, id: PageId, left: Node, right: Node, max: nat): seq<Page>
    requires id < |v| && Encodable(left, max) && Encodable(right, max)
  {
    (v + [Zeros(PAGE_SIZE)])[id := Written(left, |left.keys|)][|v| := Written(right, |right.keys|)]
  }

  lemma TwoWritten(v: seq<Page>, id: PageId, left: Node, right: Node, max: nat)
    requires id < |v| && Encodable(left, max) && Encodable(right, max)
    ensures var w := TwoPages(v, id, left, right, max);
      NodeAt(w, id, left, max) && NodeAt(w, |v|, right, max) && |w| == |v| + 1 && Untouched(v, w, {id})
  {
    hide Written, Parse;
    ParseWritten(left, max);
    ParseWritten(right, max);
  }

  lemma LeafAt(w: seq<Page>, t: Tree, max: nat)
    requires t.Leaf? && NodeAt(w, t.id, LeafNode(t.keys, t.vals, t.next), max)
    ensures TreeAt(w, t, max)
  {
    hide Parse;
  }

  lemma BranchAt(w: seq<Page>, t: Tree, max: nat)
    requires t.Branch? && NodeAt(w, t.id, BranchNode(t.keys, KidIds(t.kids)), max) && ForestAt(w, t.kids, max)
    ensures TreeAt(w, t, max)
  {
    hide Parse;
  }

  lemma ForestUntouched(v: seq<Page>, w: seq<Page>, kids: seq<Tree>, changed: set<PageId>, max: nat)
    requires ForestAt(v, kids, max) && Untouched(v, w, changed) && changed !! ForestIds(kids)
    ensures ForestAt(w, kids, max)
  {
    hide TreeAt;
    ForestAtIds(v, kids, max);
    assert SameOn(v, w, ForestIds(kids));
    ForestAtFrame(v, w, kids, max);
  }

  // After child c has been replaced, all children of the branch are stored.
  lemma GrownKidsAt(v: seq<Page>, w: seq<Page>, t: Tree, c: nat, grown: Grown, max: nat)
    requires t.Branch? && NoShare(t) && c < |t.kids| && TreeAt(v, t, max)
    requires Untouched(v, w, Ids(t.kids[c])) && ForestAt(w, GrownTrees(grown), max)
    ensures ForestAt(w, GrownKids(t.kids, c, grown), max)
  {
    hide TreeAt, GrownTrees;
    IdsAround(t.kids, c);
    KidsAt(v, t, max);
    ForestUntouched(v, w, t.kids[..c], Ids(t.kids[c]), max);
    ForestUntouched(v, w, t.kids[c + 1..], Ids(t.kids[c]), max);
  }

  lemma KidsAt(v: seq<Page>, t: Tree, max: nat)
    requires t.Branch? && TreeAt(v, t, max)
    ensures ForestAt(v, t.kids, max)
  {}

  // The child page ids of the branch after child c split.
  lemma GrownKidIds(kids: seq<Tree>, c: nat, grown: Grown)
    requires c < |kids|
    requires match grown case Duplicate => false case Same(tree, _) => tree.id == kids[c].id case Split(l, _, _, _) => l.id == kids[c].id
    ensures grown.Same? ==> KidIds(GrownKids(kids, c, grown)) == KidIds(kids)
    ensures grown.Split? ==>
      KidIds(GrownKids(kids, c, grown)) == KidIds(kids)[..c + 1] + [grown.right.id] + KidIds(kids)[c + 1..]
  {}

  // ---------- What insert_recursive leaves behind ----------

  // The pages hold what the subtree grew into; only its own pages and new ones were touched.
  ghost predicate Inserted(v: seq<Page>, w: seq<Page>, t: Tree, g: Grown, max: nat) {
    match g
    case Duplicate => w == v
    case Same(tree, used) =>
      TreeAt(w, tree, max) && |w| == |v| + used && Untouched(v, w, Ids(t)) && tree.id == t.id
    case Split(left, _, right, used) =>
      && TreeAt(w, left, max) && TreeAt(w, right, max) && |w| == |v| + used
      && Untouched(v, w, Ids(t)) && left.id == t.id
  }

  // A leaf with its keys and values after the insertion.
  ghost predicate LeafReady(view: seq<Page>, t: Tree, keys: seq<I64>, vals: seq<RowId>, max: nat) {
    && t.Leaf? && TreeAt(view, t, max) && 0 < |keys| == |vals| && Sorted(keys) && RowsFit(vals)
    && |keys| <= max + 1 && 2 <= max <= 255
  }

  lemma LeafReadyAfter(view: seq<Page>, t: Tree, k: I64, row: RowId, lo: int, hi: int, max: nat)
    requires Reached(view, t, k, lo, hi, 0, max) && 2 <= max <= 255 && row.page < 0x1_0000_0000
    requires LowerBound(t.keys, k) == |t.keys| || t.keys[LowerBound(t.keys, k)] != k
    ensures t.Leaf?
    ensures var i := LowerBound(t.keys, k);
      LeafReady(view, t, t.keys[..i] + [k] + t.keys[i..], t.vals[..i] + [row] + t.vals[i..], max)
  {
    hide Parse;
    LeafInserted(t.keys, t.vals, k, row, lo, hi);
    ParsedFits(view[t.id], max);
  }

  lemma LeafWritten(v: seq<Page>, t: Tree, keys: seq<I64>, vals: seq<RowId>, max: nat)
    requires LeafReady(v, t, keys, vals, max) && |keys| <= max
    ensures var n := LeafNode(keys, vals, t.next);
      && Encodable(n, max) && t.id < |v|
      && Inserted(v, v[t.id := Written(n, |keys|)], t, GrowLeaf(t.id, keys, vals, t.next, |v|, max), max)
  {
    hide Parse, Written;
    ParsedFits(v[t.id], max);
    OneWritten(v, t.id, LeafNode(keys, vals, t.next), max);
    LeafAt(v[t.id := Written(LeafNode(keys, vals, t.next), |keys|)], Leaf(t.id, keys, vals, t.next), max);
  }

  lemma LeafSplitWritten(v: seq<Page>, t: Tree, keys: seq<I64>, vals: seq<RowId>, max: nat)
    requires LeafReady(v, t, keys, vals, max) && |keys| > max && |v| < MAX_PAGES
    ensures var m := |keys| / 2;
      var l, r := LeafNode(keys[..m], vals[..m], Some(|v|)), LeafNode(keys[m..], vals[m..], t.next);
      && Encodable(l, max) && Encodable(r, max) && t.id < |v|
      && Inserted(v, TwoPages(v, t.id, l, r, max), t, GrowLeaf(t.id, keys, vals, t.next, |v|, max), max)
  {
    hide Parse, Written;
    ParsedFits(v[t.id], max);
    var m := |keys| / 2;
    var l, r := LeafNode(keys[..m], vals[..m], Some(|v|)), LeafNode(keys[m..], vals[m..], t.next);
    TwoWritten(v, t.id, l, r, max);
    var w := TwoPages(v, t.id, l, r, max);
    LeafAt(w, Leaf(t.id, keys[..m], vals[..m], Some(|v|)), max);
    LeafAt(w, Leaf(|v|, keys[m..], vals[m..], t.next), max);
  }

  // A branch whose child c has split, before it is written back.
  ghost predicate BranchReady(v: seq<Page>, w: seq<Page>, t: Tree, c: nat, grown: Grown, max: nat) {
    && t.Branch? && Shaped(t) && NoShare(t) && TreeAt(v, t, max) && c < |t.kids|
    && grown.Split? && Inserted(v, w, t.kids[c], grown, max)
    && ForestNoShare(GrownTrees(grown)) && ForestIds(GrownTrees(grown)) == Ids(t.kids[c]) + Span(|v|, grown.used)
    && Sorted(GrownKeys(t, c, grown)) && |t.keys| <= max && 2 <= max <= 255 && |w| <= MAX_PAGES
  }

  ghost function GrownKeys(t: Tree, c: nat, grown: Grown): seq<I64>
    requires grown.Split? && c <= |t.keys|
  {
    t.keys[..c] + [grown.separator] + t.keys[c..]
  }

  lemma BranchReadyAfter(v: seq<Page>, w: seq<Page>, t: Tree, k: I64, row: RowId, lo: int, hi: int, depth: nat, max: nat)
    requires Reached(v, t, k, lo, hi, depth, max) && t.Branch? && 2 <= max <= 255 && |w| <= MAX_PAGES
    requires UpperBound(t.keys, k) < |t.kids| && Shaped(t.kids[UpperBound(t.keys, k)])
    requires var g := Insert(t.kids[UpperBound(t.keys, k)], k, row, |v|, max);
      g.Split? && Inserted(v, w, t.kids[UpperBound(t.keys, k)], g, max)
    ensures var c := UpperBound(t.keys, k);
      BranchReady(v, w, t, c, Insert(t.kids[c], k, row, |v|, max), max)
  {
    hide TreeAt, Inserted, Ids, ForestIds, ForestNoShare, Insert, Below, Above, UpperBound;
    var c := UpperBound(t.keys, k);
    AroundKid(t.keys, t.kids, lo, hi, depth - 1, max, k);
    var g := Insert(t.kids[c], k, row, |v|, max);
    StepDown(v, t, k, lo, hi, depth, max);
    TreeAtIds(v, t, max);
    assert forall id :: id in Ids(t.kids[c]) ==> id in Ids(t);
    InsertIds(t.kids[c], k, row, |v|, max);
    InsertOk(t.kids[c], k, row, |v|, Lo(t.keys, lo, c), Hi(t.keys, hi, c), depth - 1, max);
    SplitKid(t.keys, t.kids, lo, hi, depth - 1, max, c, g.left, g.separator, g.right);
  }

  // The pages around the branch once its child has split, and the branch's new key and child lists.
  lemma BranchReadyFacts(v: seq<Page>, w: seq<Page>, t: Tree, c: nat, grown: Grown, max: nat)
    requires BranchReady(v, w, t, c, grown, max)
    ensures t.id < |v| <= |w| && |w| == |v| + grown.used && Untouched(v, w, Ids(t))
    ensures ForestAt(w, GrownKids(t.kids, c, grown), max) && t.id !in ForestIds(GrownKids(t.kids, c, grown))
    ensures forall id :: id in ForestIds(GrownKids(t.kids, c, grown)) ==> id < |w|
    ensures |GrownKids(t.kids, c, grown)| == |GrownKeys(t, c, grown)| + 1
    ensures KidIds(GrownKids(t.kids, c, grown)) == KidIds(t.kids)[..c + 1] + [grown.right.id] + KidIds(t.kids)[c + 1..]
  {
    hide TreeAt, ForestIds, ForestNoShare;
    var kids := GrownKids(t.kids, c, grown);
    NodeRead(v, t, max);
    IdsAround(t.kids, c);
    IdsReplaced(t.kids, c, GrownTrees(grown));
    GrownKidsAt(v, w, t, c, grown, max);
    GrownKidIds(t.kids, c, grown);
    ForestAtIds(w, kids, max);
    assert Ids(t.kids[c]) <= Ids(t);
    UntouchedTwice(v, w, w, Ids(t.kids[c]), {}, Ids(t));
  }

  lemma BranchWritten(v: seq<Page>, w: seq<Page>, t: Tree, c: nat, grown: Grown, max: nat)
    requires BranchReady(v, w, t, c, grown, max) && |GrownKeys(t, c, grown)| <= max
    ensures var n := BranchNode(GrownKeys(t, c, grown), KidIds(GrownKids(t.kids, c, grown)));
      && Encodable(n, max) && t.id < |w|
      && Inserted(v, w[t.id := Written(n, |n.keys|)], t, GrowAt(t, c, grown, |v|, max), max)
  {
    hide Parse, Written, TreeAt, ForestIds, BranchReady, Encodable;
    BranchReadySizes(v, w, t, c, grown, max);
    var keys, kids := GrownKeys(t, c, grown), GrownKids(t.kids, c, grown);
    BranchReadyFacts(v, w, t, c, grown, max);
    BranchEncodable(keys, kids, max, |w|);
    var n := BranchNode(keys, KidIds(kids));
    OneWritten(w, t.id, n, max);
    var x := w[t.id := Written(n, |n.keys|)];
    ForestUntouched(w, x, kids, {t.id}, max);
    BranchAt(x, Branch(t.id, keys, kids), max);
    IdIn(t);
    UntouchedTwice(v, w, x, Ids(t), {t.id}, Ids(t));
  }

  lemma IdIn(t: Tree)
    ensures t.id in Ids(t)
  {}

  lemma BranchReadySizes(v: seq<Page>, w: seq<Page>, t: Tree, c: nat, grown: Grown, max: nat)
    requires BranchReady(v, w, t, c, grown, max)
    ensures t.Branch? && grown.Split? && c <= |t.keys| && c < |t.kids|
    ensures Sorted(GrownKeys(t, c, grown)) && |GrownKeys(t, c, grown)| <= max + 1
    ensures 2 <= max <= 255 && |w| <= MAX_PAGES
  {}

  // The branch with its new key and child, as a node too large for one page.
  ghost function GrownNode(t: Tree, c: nat, grown: Grown): (n: Node)
    requires t.Branch? && grown.Split? && c <= |t.keys| && |t.kids| == |t.keys| + 1
    ensures n.BranchNode? && |n.children| == |n.keys| + 1 && |n.keys| == |t.keys| + 1
  {
    BranchNode(GrownKeys(t, c, grown), KidIds(GrownKids(t.kids, c, grown)))
  }

  // What its two halves keep; the middle key goes up.
  ghost function LeftHalf(n: Node): Node
    requires n.BranchNode? && |n.children| == |n.keys| + 1 && |n.keys| > 0
  {
    BranchNode(n.keys[..|n.keys| / 2], n.children[..|n.keys| / 2 + 1])
  }

  ghost function RightHalf(n: Node): Node
    requires n.BranchNode? && |n.children| == |n.keys| + 1 && |n.keys| > 0
  {
    BranchNode(n.keys[|n.keys| / 2 + 1..], n.children[|n.keys| / 2 + 1..])
  }

  // Two halves written to their pages make two branches there.
  lemma TwoBranches(w: seq<Page>, left: Tree, right: Tree, max: nat)
    requires left.Branch? && right.Branch? && left.id < |w| && right.id == |w|
    requires ForestAt(w, left.kids, max) && ForestAt(w, right.kids, max)
    requires left.id !in ForestIds(left.kids) && left.id !in ForestIds(right.kids)
    requires Encodable(NodeOf(left), max) && Encodable(NodeOf(right), max)
    ensures var x := TwoPages(w, left.id, NodeOf(left), NodeOf(right), max);
      TreeAt(x, left, max) && TreeAt(x, right, max) && Untouched(w, x, {left.id}) && |x| == |w| + 1
  {
    hide Parse, TwoPages, TreeAt, ForestIds, ForestAt, KidIds;
    TwoWritten(w, left.id, NodeOf(left), NodeOf(right), max);
    var x := TwoPages(w, left.id, NodeOf(left), NodeOf(right), max);
    ForestUntouched(w, x, left.kids, {left.id}, max);
    ForestUntouched(w, x, right.kids, {left.id}, max);
    BranchAt(x, left, max);
    BranchAt(x, right, max);
  }

  lemma HalvesReady(w: seq<Page>, keys: seq<I64>, kids: seq<Tree>, m: nat, max: nat)
    requires Sorted(keys) && m < |keys| && |kids| == |keys| + 1 && |keys| <= max + 1 <= 256 && m == |keys| / 2
    requires ForestAt(w, kids, max) && |w| <= MAX_PAGES
    ensures Encodable(BranchNode(keys[..m], KidIds(kids)[..m + 1]), max)
    ensures Encodable(BranchNode(keys[m + 1..], KidIds(kids)[m + 1..]), max)
    ensures KidIds(kids[..m + 1]) == KidIds(kids)[..m + 1] && KidIds(kids[m + 1..]) == KidIds(kids)[m + 1..]
    ensures ForestAt(w, kids[..m + 1], max) && ForestAt(w, kids[m + 1..], max)
    ensures ForestIds(kids[..m + 1]) <= ForestIds(kids) && ForestIds(kids[m + 1..]) <= ForestIds(kids)
  {
    hide ForestIds, ForestAt, Encodable, Sorted, KidIds;
    HalvesSorted(keys, m);
    HalvesIds(kids, m + 1);
    HalvesAt(w, kids, m + 1, max);
    ForestAtIds(w, kids, max);
    BranchEncodable(keys[..m], kids[..m + 1], max, |w|);
    BranchEncodable(keys[m + 1..], kids[m + 1..], max, |w|);
  }

  lemma BranchSplitWritten(v: seq<Page>, w: seq<Page>, t: Tree, c: nat, grown: Grown, max: nat, l: Node, r: Node)
    requires t.Branch? && grown.Split? && c <= |t.keys| && |t.kids| == |t.keys| + 1
    requires BranchReady(v, w, t, c, grown, max) && |t.keys| + 1 > max && |w| < MAX_PAGES
    requires l == LeftHalf(GrownNode(t, c, grown)) && r == RightHalf(GrownNode(t, c, grown))
    ensures Encodable(l, max) && Encodable(r, max) && t.id < |w|
    ensures Inserted(v, TwoPages(w, t.id, l, r, max), t, GrowAt(t, c, grown, |v|, max), max)
  {
    hide Parse, TwoPages, TreeAt, ForestIds, BranchReady, Encodable, Sorted, ForestAt, KidIds, Untouched;
    BranchReadySizes(v, w, t, c, grown, max);
    var keys, kids := GrownKeys(t, c, grown), GrownKids(t.kids, c, grown);
    BranchReadyFacts(v, w, t, c, grown, max);
    var m := |keys| / 2;
    HalvesReady(w, keys, kids, m, max);
    var left, right := Branch(t.id, keys[..m], kids[..m + 1]), Branch(|w|, keys[m + 1..], kids[m + 1..]);
    assert l == NodeOf(left) && r == NodeOf(right);
    TwoBranches(w, left, right, max);
    var x := TwoPages(w, t.id, l, r, max);
    IdIn(t);
    UntouchedTwice(v, w, x, Ids(t), {t.id}, Ids(t));
  }

  lemma HalvesSorted(keys: seq<I64>, m: nat)
    requires Sorted(keys) && m < |keys|
    ensures Sorted(keys[..m]) && Sorted(keys[m + 1..])
  {}

  lemma HalvesIds(kids: seq<Tree>, n: nat)
    requires n <= |kids|
    ensures ForestIds(kids[..n]) <= ForestIds(kids) && ForestIds(kids[n..]) <= ForestIds(kids)
    ensures KidIds(kids[..n]) == KidIds(kids)[..n] && KidIds(kids[n..]) == KidIds(kids)[n..]
  {
    hide ForestIds;
    assert kids == kids[..n] + kids[n..];
    ForestIdsConcat(kids[..n], kids[n..]);
  }

  lemma HalvesAt(w: seq<Page>, kids: seq<Tree>, n: nat, max: nat)
    requires ForestAt(w, kids, max) && n <= |kids|
    ensures ForestAt(w, kids[..n], max) && ForestAt(w, kids[n..], max)
  {
    hide TreeAt;
  }

  lemma ShapedSizes(t: Tree)
    requires Shaped(t)
    ensures t.Leaf? ==> |t.vals| == |t.keys|
    ensures t.Branch? ==> |t.kids| == |t.keys| + 1 && |KidIds(t.kids)| == |t.kids|
    ensures t.Branch? ==> forall i :: 0 <= i < |t.kids| ==> Shaped(t.kids[i]) && KidIds(t.kids)[i] == t.kids[i].id
  {}

  lemma LeafInsert(t: Tree, k: I64, row: RowId, newId: PageId, max: nat)
    requires Shaped(t) && t.Leaf?
    ensures var i := LowerBound(t.keys, k);
      Insert(t, k, row, newId, max) ==
        if i < |t.keys| && t.keys[i] == k then Duplicate
        else GrowLeaf(t.id, t.keys[..i] + [k] + t.keys[i..], t.vals[..i] + [row] + t.vals[i..], t.next, newId, max)
  {}

  lemma NotInserted(v: seq<Page>, t: Tree, max: nat)
    ensures Inserted(v, v, t, Duplicate, max)
  {}

  // The child absorbed the key, so the branch above it needs no rewriting.
  lemma BranchSame(v: seq<Page>, w: seq<Page>, t: Tree, c: nat, grown: Grown, newId: PageId, max: nat)
    requires t.Branch? && Shaped(t) && NoShare(t) && TreeAt(v, t, max) && c < |t.kids|
    requires grown.Same? && Inserted(v, w, t.kids[c], grown, max)
    ensures GrowAt(t, c, grown, newId, max).Same? && GrowAt(t, c, grown, newId, max).used == grown.used
    ensures Inserted(v, w, t, GrowAt(t, c, grown, newId, max), max)
  {
    hide TreeAt, ForestIds, ForestNoShare, ForestAt, Parse;
    NodeRead(v, t, max);
    GrownKidsAt(v, w, t, c, grown, max) by { assert GrownTrees(grown) == [grown.tree]; OneAt(w, grown.tree, max); }
    GrownKidIds(t.kids, c, grown);
    IdsAround(t.kids, c);
    assert t.id !in Ids(t.kids[c]);
    BranchAt(w, Branch(t.id, t.keys, GrownKids(t.kids, c, grown)), max);
    UntouchedTwice(v, w, w, Ids(t.kids[c]), {}, Ids(t));
  }

  lemma OneAt(w: seq<Page>, t: Tree, max: nat)
    requires TreeAt(w, t, max)
    ensures ForestAt(w, [t], max)
  {}

  lemma InsertUsesBelow(view: seq<Page>, t: Tree, k: I64, row: RowId, lo: int, hi: int, depth: nat, max: nat)
    requires Reached(view, t, k, lo, hi, depth, max) && Shaped(t)
    ensures Used(Insert(t, k, row, |view|, max)) <= depth + 1
  {
    InsertUses(t, k, row, |view|, lo, hi, depth, max);
  }

  lemma InsertedFacts(v: seq<Page>, w: seq<Page>, t: Tree, g: Grown, max: nat)
    requires Inserted(v, w, t, g, max)
    ensures |w| == |v| + Used(g)
    ensures g.Duplicate? ==> w == v
  {}

  lemma GrowAtUses(t: Tree, c: nat, grown: Grown, newId: PageId, max: nat)
    requires t.Branch? && |t.kids| == |t.keys| + 1 && c <= |t.keys|
    ensures var g := GrowAt(t, c, grown, newId, max);
      && (g.Duplicate? <==> grown.Duplicate?)
      && Used(g) == Used(grown) + (if g.Split? then 1 else 0)
      && (grown.Same? ==> g.Same?)
  {}

  lemma ReachedShare(view: seq<Page>, t: Tree, k: I64, lo: int, hi: int, depth: nat, max: nat)
    requires Reached(view, t, k, lo, hi, depth, max)
    ensures NoShare(t)
  {}

  // ---------- The root ----------

  lemma InsertIffAbsent(t: Tree, k: I64, row: RowId, newId: PageId, max: nat)
    requires TreeOk(t, max)
    ensures Shaped(t) && (Insert(t, k, row, newId, max).Duplicate? <==> k in MapOf(Entries(t)))
  {
    InsertEntries(t, k, row, newId, MIN_KEY, KEY_LIMIT, Depth(t), max);
    GetIsMapOf(Entries(t), k);
  }

  lemma InsertRootTrees(t: Tree, k: I64, row: RowId, newId: PageId, max: nat)
    requires Shaped(t)
    ensures var g := Insert(t, k, row, newId, max);
      && (g.Same? ==> InsertRoot(Some(t), k, row, newId, max) == Some(g.tree))
      && (g.Split? ==> InsertRoot(Some(t), k, row, newId, max) == Some(Branch(newId + g.used, [g.separator], [g.left, g.right])))
      && PagesTaken(Some(t), k, row, newId, max) == Used(g) + if g.Split? then 1 else 0
  {}

  // A stored tree is ready for an insertion, and what the insertion makes of it is known beforehand.
  lemma ReadyToInsert(view: seq<Page>, root: Option<PageId>, shape: Option<Tree>, k: I64, row: RowId, max: nat)
    requires Stored(view, root, shape, max) && root.Some? && |view| <= MAX_PAGES
    ensures shape.Some? && root == Some(shape.value.id) && 2 <= max <= 255 && Shaped(shape.value) && Depth(shape.value) <= 32
    ensures Reached(view, shape.value, k, MIN_KEY, KEY_LIMIT, Depth(shape.value), max)
    ensures var t, taken := shape.value, PagesTaken(shape, k, row, |view|, max);
      var g := Insert(t, k, row, |view|, max);
      && (g.Duplicate? <==> k in Contents(shape))
      && taken == Used(g) + (if g.Split? then 1 else 0)
      && (k !in Contents(shape) ==> taken <= 34 && Grows(shape, k, row, GrownRoot(g, |view|), |view|, taken, max))
  {
    hide Stored, TreeAt, Entries, MapOf, Insert, TreeOk, Reached, Ids, InsertRoot, PagesTaken;
    HasRoot(view, root, shape, max);
    var t := shape.value;
    StoredParts(view, root, t, max);
    RootReached(view, root, shape, max, k);
    ReachedFacts(view, t, k, MIN_KEY, KEY_LIMIT, Depth(t), max);
    TreeAtIds(view, t, max);
    DepthBound(t, max, |view|);
    InsertIffAbsent(t, k, row, |view|, max);
    InsertRootTrees(t, k, row, |view|, max);
    if k !in Contents(shape) {
      InsertRootOk(shape, k, row, |view|, max);
    }
  }

  // The root after an insertion: the tree itself, or a new node above its two halves.
  ghost function GrownRoot(g: Grown, newId: PageId): Option<Tree> {
    match g
    case Duplicate => None
    case Same(tree, _) => Some(tree)
    case Split(left, separator, right, used) => Some(Branch(newId + used, [separator], [left, right]))
  }

  ghost predicate Grows(t: Option<Tree>, k: I64, row: RowId, u: Option<Tree>, newId: PageId, taken: nat, max: nat) {
    && u.Some? && TreeOk(u.value, max) && Contents(u) == Contents(t)[k := row]
    && PagesOf(u) == PagesOf(t) + Span(newId, taken)
  }

  lemma SameStored(v: seq<Page>, w: seq<Page>, t: Tree, g: Grown, max: nat)
    requires Inserted(v, w, t, g, max) && g.Same? && TreeOk(g.tree, max) && 2 <= max <= 255
    ensures Stored(w, Some(t.id), Some(g.tree), max) && Untouched(v, w, Ids(t))
  {}

  lemma FirstLeaf(view: seq<Page>, k: I64, row: RowId, max: nat)
    requires row.page < 0x1_0000_0000 && 2 <= max <= 255
    ensures var n := LeafNode([k], [row], None);
      var t := Leaf(|view|, [k], [row], None);
      var w := (view + [Zeros(PAGE_SIZE)])[|view| := Written(n, 1)];
      && Encodable(n, max) && TreeOk(t, max) && TreeAt(w, t, max) && Untouched(view, w, {})
      && Contents(Some(t)) == map[k := row] && Ids(t) == {|view|}
  {
    hide Written, Parse;
    var n := LeafNode([k], [row], None);
    var t := Leaf(|view|, [k], [row], None);
    EmptyInsertOk(k, row, |view|, max);
    SingleEntry(k, row);
    OneWritten(view + [Zeros(PAGE_SIZE)], |view|, n, max);
    LeafAt((view + [Zeros(PAGE_SIZE)])[|view| := Written(n, 1)], t, max);
  }

  lemma RootWritten(v: seq<Page>, w: seq<Page>, t: Tree, g: Grown, max: nat)
    requires Inserted(v, w, t, g, max) && g.Split? && 2 <= max <= 255 && |w| < MAX_PAGES
    ensures var n := BranchNode([g.separator], [t.id, g.right.id]);
      var x := (w + [Zeros(PAGE_SIZE)])[|w| := Written(n, 1)];
      && Encodable(n, max) && TreeAt(x, Branch(|w|, [g.separator], [g.left, g.right]), max)
      && Untouched(v, x, Ids(t))
  {
    hide Written, Parse, TreeAt;
    var n := BranchNode([g.separator], [t.id, g.right.id]);
    var kids := [g.left, g.right];
    NodeRead(w, g.left, max);
    NodeRead(w, g.right, max);
    assert n.children == KidIds(kids);
    var y := w + [Zeros(PAGE_SIZE)];
    OneWritten(y, |w|, n, max);
    var x := y[|w| := Written(n, 1)];
    assert Untouched(w, x, {});
    ForestUntouched(w, x, kids, {}, max);
    BranchAt(x, Branch(|w|, [g.separator], kids), max);
    UntouchedTwice(v, w, x, Ids(t), {}, Ids(t));
  }
}
