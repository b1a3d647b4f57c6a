// The pages a tree occupies, the chain through its leaves, and how full its nodes are.
module TreePages {
  import opened Bytes
  import opened Results
  import opened Seqs
  import opened TreeSpec

  // ---------- Pages ----------

  ghost function Ids(t: Tree): set<PageId> {
    match t
    case Leaf(id, _, _, _) => {id}
    case Branch(id, _, kids) => {id} + ForestIds(kids)
  }

  ghost function ForestIds(kids: seq<Tree>): set<PageId> {
    if kids == [] then {} else Ids(kids[0]) + ForestIds(kids[1..])
  }

  // No page is used twice.
  ghost predicate NoShare(t: Tree) {
    match t
    case Leaf(_, _, _, _) => true
    case Branch(id, _, kids) => id !in ForestIds(kids) && ForestNoShare(kids)
  }

  ghost predicate ForestNoShare(kids: seq<Tree>) {
    kids == [] || (NoShare(kids[0]) && Ids(kids[0]) !! ForestIds(kids[1..]) && ForestNoShare(kids[1..]))
  }

  ghost function Span(newId: PageId, n: nat): (s: set<PageId>)
    ensures forall id :: id in s <==> newId <= id < newId + n
  {
    if n == 0 then {} else Span(newId, n - 1) + {newId + n - 1}
  }

  ghost function Used(g: Grown): nat {
    if g.Duplicate? then 0 else g.used
  }

  lemma {:induction false} ForestIdsConcat(a: seq<Tree>, b: seq<Tree>)
    ensures ForestIds(a + b) == ForestIds(a) + ForestIds(b)
    ensures ForestNoShare(a + b) <==> ForestNoShare(a) && ForestNoShare(b) && ForestIds(a) !! ForestIds(b)
  {
    hide Ids, NoShare;
    if a == [] {
      assert a + b == b;
    } else {
      assert (a + b)[0] == a[0] && (a + b)[1..] == a[1..] + b;
      ForestIdsConcat(a[1..], b);
    }
  }

  lemma ForestIdsOne(t: Tree)
    ensures ForestIds([t]) == Ids(t)
    ensures ForestNoShare([t]) <==> NoShare(t)
  {
    assert [t][1..] == [];
    assert ForestIds([t]) == Ids(t) + ForestIds([]);
  }

  lemma IdsReplaced(kids: seq<Tree>, c: nat, ts: seq<Tree>)
    requires c < |kids|
    ensures ForestIds(kids[..c] + ts + kids[c + 1..]) == ForestIds(kids[..c]) + ForestIds(ts) + ForestIds(kids[c + 1..])
    ensures ForestNoShare(kids[..c] + ts + kids[c + 1..]) <==>
      && ForestNoShare(kids[..c]) && ForestNoShare(ts) && ForestNoShare(kids[c + 1..])
      && ForestIds(kids[..c]) !! ForestIds(ts) !! ForestIds(kids[c + 1..])
  {
    hide ForestIds, ForestNoShare;
    ForestIdsConcat(kids[..c], ts);
    ForestIdsConcat(kids[..c] + ts, kids[c + 1..]);
  }

  lemma IdsAround(kids: seq<Tree>, c: nat)
    requires c < |kids|
    ensures ForestIds(kids) == ForestIds(kids[..c]) + Ids(kids[c]) + ForestIds(kids[c + 1..])
    ensures ForestNoShare(kids) <==>
      && ForestNoShare(kids[..c]) && NoShare(kids[c]) && ForestNoShare(kids[c + 1..])
      && ForestIds(kids[..c]) !! Ids(kids[c]) !! ForestIds(kids[c + 1..])
  {
    hide ForestIds, ForestNoShare;
    SplitAt(kids, c);
    IdsReplaced(kids, c, [kids[c]]);
    ForestIdsOne(kids[c]);
  }

  lemma GrowBranchIds(id: PageId, keys: seq<I64>, kids: seq<Tree>, newId: PageId, used: nat, max: nat)
    requires |kids| == |keys| + 1 && |keys| > 0
    requires id !in ForestIds(kids) && ForestNoShare(kids) && newId !in ForestIds(kids) && id != newId
    ensures var g := GrowBranch(id, keys, kids, newId, used, max);
      && !g.Duplicate?
      && ForestIds(GrownTrees(g)) == {id} + ForestIds(kids) + (if g.Split? then {newId} else {})
      && ForestNoShare(GrownTrees(g))
      && g.used == if g.Split? then used + 1 else used
  {
    hide ForestIds, ForestNoShare;
    if |keys| <= max {
      ForestIdsOne(Branch(id, keys, kids));
    } else {
      var m := |keys| / 2;
      assert kids == kids[..m + 1] + kids[m + 1..];
      ForestIdsConcat(kids[..m + 1], kids[m + 1..]);
      TwoIds(Branch(id, keys[..m], kids[..m + 1]), Branch(newId, keys[m + 1..], kids[m + 1..]));
    }
  }

  lemma TwoIds(l: Tree, r: Tree)
    ensures ForestIds([l, r]) == Ids(l) + Ids(r)
    ensures ForestNoShare([l, r]) <==> NoShare(l) && NoShare(r) && Ids(l) !! Ids(r)
  {
    hide ForestIds, ForestNoShare;
    assert [l, r] == [l] + [r];
    ForestIdsConcat([l], [r]);
    ForestIdsOne(l);
    ForestIdsOne(r);
  }

  lemma GrowLeafIds(id: PageId, keys: seq<I64>, vals: seq<RowId>, next: Option<PageId>, newId: PageId, max: nat)
    requires 0 < |keys| == |vals| && id != newId
    ensures var g := GrowLeaf(id, keys, vals, next, newId, max);
      && !g.Duplicate?
      && ForestIds(GrownTrees(g)) == {id} + Span(newId, g.used) && ForestNoShare(GrownTrees(g))
  {
    if |keys| <= max {
      ForestIdsOne(Leaf(id, keys, vals, next));
      assert Span(newId, 0) == {};
    } else {
      var m := |keys| / 2;
      TwoIds(Leaf(id, keys[..m], vals[..m], Some(newId)), Leaf(newId, keys[m..], vals[m..], next));
      assert Span(newId, 1) == {newId};
    }
  }

  lemma GrowAtIds(t: Tree, c: nat, grown: Grown, newId: PageId, max: nat)
    requires t.Branch? && |t.kids| == |t.keys| + 1 && c <= |t.keys| && !grown.Duplicate?
    requires NoShare(t) && (forall id :: id in Ids(t) ==> id < newId)
    requires ForestNoShare(GrownTrees(grown))
    requires ForestIds(GrownTrees(grown)) == Ids(t.kids[c]) + Span(newId, grown.used)
    ensures var g := GrowAt(t, c, grown, newId, max);
      && !g.Duplicate?
      && ForestIds(GrownTrees(g)) == Ids(t) + Span(newId, g.used) && ForestNoShare(GrownTrees(g))
  {
    hide ForestIds, ForestNoShare, GrowBranch;
    IdsAround(t.kids, c);
    IdsReplaced(t.kids, c, GrownTrees(grown));
    assert t.id in Ids(t) && forall id :: id in ForestIds(t.kids) ==> id in Ids(t);
    assert ForestIds(GrownKids(t.kids, c, grown)) == ForestIds(t.kids) + Span(newId, grown.used);
    if grown.Same? {
      ForestIdsOne(Branch(t.id, t.keys, GrownKids(t.kids, c, grown)));
    } else {
      GrowBranchIds(t.id, t.keys[..c] + [grown.separator] + t.keys[c..], GrownKids(t.kids, c, grown),
                    newId + grown.used, grown.used, max);
      assert Span(newId, grown.used + 1) == Span(newId, grown.used) + {newId + grown.used};
    }
  }

  // An insertion takes exactly the next free pages, and still no page is shared.
  lemma {:induction false} InsertIds(t: Tree, k: I64, v: RowId, newId: PageId, max: nat)
    requires Shaped(t) && NoShare(t) && (forall id :: id in Ids(t) ==> id < newId)
    ensures !Insert(t, k, v, newId, max).Duplicate? ==>
      && ForestIds(GrownTrees(Insert(t, k, v, newId, max))) == Ids(t) + Span(newId, Insert(t, k, v, newId, max).used)
      && ForestNoShare(GrownTrees(Insert(t, k, v, newId, max)))
    decreases t
  {
    hide GrowAt, GrowLeaf, GrownTrees, ForestIds, ForestNoShare, Span;
    assert t.id in Ids(t);
    if t.Leaf? {
      var i := LowerBound(t.keys, k);
      GrowLeafIds(t.id, t.keys[..i] + [k] + t.keys[i..], t.vals[..i] + [v] + t.vals[i..], t.next, newId, max);
    } else {
      var c := UpperBound(t.keys, k);
      var grown := Insert(t.kids[c], k, v, newId, max);
      IdsAround(t.kids, c);
      assert forall id :: id in Ids(t.kids[c]) ==> id in Ids(t);
      InsertIds(t.kids[c], k, v, newId, max);
      BranchGrown(t, k, v, newId, max);
      GrowAtDuplicate(t, c, grown, newId, max);
      if !grown.Duplicate? {
        GrowAtIds(t, c, grown, newId, max);
      }
    }
  }

  // ---------- The chain of leaves ----------

  ghost function Leaves(t: Tree): seq<Tree> {
    match t
    case Leaf(_, _, _, _) => [t]
    case Branch(_, _, kids) => ForestLeaves(kids)
  }

  ghost function ForestLeaves(kids: seq<Tree>): seq<Tree> {
    if kids == [] then [] else Leaves(kids[0]) + ForestLeaves(kids[1..])
  }

  // Each leaf names the next one; the last names `tail`.
  ghost predicate Linked(ls: seq<Tree>, tail: Option<PageId>) {
    forall i :: 0 <= i < |ls| ==> ls[i].Leaf? && ls[i].next == LinkAfter(ls, i, tail)
  }

  ghost function LinkAfter(ls: seq<Tree>, i: nat, tail: Option<PageId>): Option<PageId>
    requires i < |ls|
  {
    if i + 1 < |ls| then Some(ls[i + 1].id) else tail
  }

  ghost function FirstId(ls: seq<Tree>, tail: Option<PageId>): Option<PageId> {
    if ls == [] then tail else Some(ls[0].id)
  }

  lemma LinkedConcat(a: seq<Tree>, b: seq<Tree>, tail: Option<PageId>)
    ensures Linked(a + b, tail) <==> Linked(a, FirstId(b, tail)) && Linked(b, tail)
  {
    if Linked(a + b, tail) {
      forall i | 0 <= i < |a|
        ensures a[i].Leaf? && a[i].next == LinkAfter(a, i, FirstId(b, tail))
      {
        assert (a + b)[i] == a[i];
      }
      forall i | 0 <= i < |b|
        ensures b[i].Leaf? && b[i].next == LinkAfter(b, i, tail)
      {
        assert (a + b)[|a| + i] == b[i];
      }
    }
  }

  lemma {:induction false} ForestLeavesConcat(a: seq<Tree>, b: seq<Tree>)
    ensures ForestLeaves(a + b) == ForestLeaves(a) + ForestLeaves(b)
  {
    hide Leaves;
    if a == [] {
      assert a + b == b;
    } else {
      assert (a + b)[0] == a[0] && (a + b)[1..] == a[1..] + b;
      ForestLeavesConcat(a[1..], b);
    }
  }

  lemma ForestLeavesOne(t: Tree)
    ensures ForestLeaves([t]) == Leaves(t)
  {
    assert [t][1..] == [];
    assert ForestLeaves([t]) == Leaves(t) + ForestLeaves([]);
  }

  lemma LeavesReplaced(kids: seq<Tree>, c: nat, ts: seq<Tree>)
    requires c < |kids|
    ensures ForestLeaves(kids[..c] + ts + kids[c + 1..]) ==
      ForestLeaves(kids[..c]) + ForestLeaves(ts) + ForestLeaves(kids[c + 1..])
  {
    hide ForestLeaves;
    ForestLeavesConcat(kids[..c], ts);
    ForestLeavesConcat(kids[..c] + ts, kids[c + 1..]);
  }

  lemma LeavesAround(kids: seq<Tree>, c: nat)
    requires c < |kids|
    ensures ForestLeaves(kids) == ForestLeaves(kids[..c]) + Leaves(kids[c]) + ForestLeaves(kids[c + 1..])
  {
    hide ForestLeaves;
    SplitAt(kids, c);
    LeavesReplaced(kids, c, [kids[c]]);
    ForestLeavesOne(kids[c]);
  }

  // Replacing a stretch of the chain by one that starts and ends in the same place.
  lemma LinkReplaced(a: seq<Tree>, was: seq<Tree>, now: seq<Tree>, b: seq<Tree>, tail: Option<PageId>)
    requires was != [] && now != [] && now[0].id == was[0].id
    requires Linked(a + was + b, tail)
    requires Linked(was, FirstId(b, tail)) ==> Linked(now, FirstId(b, tail))
    ensures Linked(a + now + b, tail)
    ensures (a + now + b)[0].id == (a + was + b)[0].id
  {
    hide Linked;
    LinkedConcat(a + was, b, tail);
    LinkedConcat(a, was, FirstId(b, tail));
    LinkedConcat(a + now, b, tail);
    LinkedConcat(a, now, FirstId(b, tail));
  }

  lemma {:induction false} LeavesExist(t: Tree)
    requires Shaped(t)
    ensures Leaves(t) != []
    decreases t
  {
    if t.Branch? {
      LeavesExist(t.kids[0]);
    }
  }

  lemma GrowLeafLinked(id: PageId, keys: seq<I64>, vals: seq<RowId>, next: Option<PageId>, newId: PageId, max: nat)
    requires 0 < |keys| == |vals|
    ensures var ls := ForestLeaves(GrownTrees(GrowLeaf(id, keys, vals, next, newId, max)));
      ls != [] && ls[0].id == id && Linked(ls, next)
  {
    if |keys| <= max {
      ForestLeavesOne(Leaf(id, keys, vals, next));
    } else {
      var m := |keys| / 2;
      var l, r := Leaf(id, keys[..m], vals[..m], Some(newId)), Leaf(newId, keys[m..], vals[m..], next);
      TwoLeaves(l, r);
      assert Leaves(l) + Leaves(r) == [l, r];
    }
  }

  lemma TwoLeaves(l: Tree, r: Tree)
    ensures ForestLeaves([l, r]) == Leaves(l) + Leaves(r)
  {
    hide ForestLeaves;
    assert [l, r] == [l] + [r];
    ForestLeavesConcat([l], [r]);
    ForestLeavesOne(l);
    ForestLeavesOne(r);
  }

  lemma GrowBranchLeaves(id: PageId, keys: seq<I64>, kids: seq<Tree>, newId: PageId, used: nat, max: nat)
    requires |kids| == |keys| + 1 && |keys| > 0
    ensures ForestLeaves(GrownTrees(GrowBranch(id, keys, kids, newId, used, max))) == ForestLeaves(kids)
  {
    hide ForestLeaves;
    if |keys| <= max {
      ForestLeavesOne(Branch(id, keys, kids));
    } else {
      var m := |keys| / 2;
      assert kids == kids[..m + 1] + kids[m + 1..];
      ForestLeavesConcat(kids[..m + 1], kids[m + 1..]);
      TwoLeaves(Branch(id, keys[..m], kids[..m + 1]), Branch(newId, keys[m + 1..], kids[m + 1..]));
    }
  }

  lemma GrowAtLeaves(t: Tree, c: nat, grown: Grown, newId: PageId, max: nat)
    requires t.Branch? && |t.kids| == |t.keys| + 1 && c <= |t.keys| && !grown.Duplicate?
    ensures ForestLeaves(GrownTrees(GrowAt(t, c, grown, newId, max))) ==
      ForestLeaves(t.kids[..c]) + ForestLeaves(GrownTrees(grown)) + ForestLeaves(t.kids[c + 1..])
  {
    hide ForestLeaves, GrowBranch;
    LeavesReplaced(t.kids, c, GrownTrees(grown));
    if grown.Same? {
      ForestLeavesOne(Branch(t.id, t.keys, GrownKids(t.kids, c, grown)));
    } else {
      GrowBranchLeaves(t.id, t.keys[..c] + [grown.separator] + t.keys[c..], GrownKids(t.kids, c, grown),
                       newId + grown.used, grown.used, max);
    }
  }

  // An insertion splices a split leaf into the chain: same first leaf, same successor at the end.
  lemma {:induction false} InsertLinked(t: Tree, k: I64, v: RowId, newId: PageId, max: nat, tail: Option<PageId>)
    requires Shaped(t) && Linked(Leaves(t), tail) && !Insert(t, k, v, newId, max).Duplicate?
    ensures Leaves(t) != []
    ensures var ls := ForestLeaves(GrownTrees(Insert(t, k, v, newId, max)));
      ls != [] && ls[0].id == Leaves(t)[0].id && Linked(ls, tail)
    decreases t
  {
    hide GrowAt, GrowLeaf, GrownTrees, ForestLeaves, Linked;
    LeavesExist(t);
    if t.Leaf? {
      var i := LowerBound(t.keys, k);
      SoleLink(t, tail);
      GrowLeafLinked(t.id, t.keys[..i] + [k] + t.keys[i..], t.vals[..i] + [v] + t.vals[i..], t.next, newId, max);
    } else {
      var c := UpperBound(t.keys, k);
      var grown := Insert(t.kids[c], k, v, newId, max);
      BranchGrown(t, k, v, newId, max);
      GrowAtDuplicate(t, c, grown, newId, max);
      LeavesAround(t.kids, c);
      var a, b := ForestLeaves(t.kids[..c]), ForestLeaves(t.kids[c + 1..]);
      LinkedConcat(a + Leaves(t.kids[c]), b, tail);
      LinkedConcat(a, Leaves(t.kids[c]), FirstId(b, tail));
      InsertLinked(t.kids[c], k, v, newId, max, FirstId(b, tail));
      LinkReplaced(a, Leaves(t.kids[c]), ForestLeaves(GrownTrees(grown)), b, tail);
      GrowAtLeaves(t, c, grown, newId, max);
    }
  }

  lemma SoleLink(t: Tree, tail: Option<PageId>)
    requires t.Leaf? && Linked(Leaves(t), tail)
    ensures t.next == tail
  {
    assert Leaves(t)[0] == t;
  }

  // ---------- How full the nodes are ----------

  // Every branch strictly below t has at least f keys.
  ghost predicate KidsFilled(t: Tree, f: nat) {
    match t
    case Leaf(_, _, _, _) => true
    case Branch(_, _, kids) => ForestFilled(kids, f)
  }

  ghost predicate ForestFilled(kids: seq<Tree>, f: nat) {
    forall i :: 0 <= i < |kids| ==> (kids[i].Branch? ==> |kids[i].keys| >= f) && KidsFilled(kids[i], f)
  }

  ghost predicate Filled(t: Tree, f: nat) {
    (t.Branch? ==> |t.keys| >= f) && KidsFilled(t, f)
  }

  ghost predicate GrownFilled(t: Tree, g: Grown, f: nat) {
    match g
    case Duplicate => true
    case Same(tree, _) => |tree.keys| >= |t.keys| && KidsFilled(tree, f) && (tree.Branch? <==> t.Branch?)
    case Split(left, _, right, _) => Filled(left, f) && Filled(right, f)
  }

  lemma GrowAtFilled(t: Tree, c: nat, grown: Grown, newId: PageId, max: nat)
    requires t.Branch? && |t.kids| == |t.keys| + 1 && c <= |t.keys| && max >= 2
    requires KidsFilled(t, max / 2) && GrownFilled(t.kids[c], grown, max / 2)
    ensures GrownFilled(t, GrowAt(t, c, grown, newId, max), max / 2)
  {
    var kids := t.kids;
    if !grown.Duplicate? {
      var after := GrownKids(kids, c, grown);
      var extra := |GrownTrees(grown)|;
      forall i | 0 <= i < |after|
        ensures Filled(after[i], max / 2)
      {
        if i < c {
          assert after[i] == kids[i];
        } else if i >= c + extra {
          assert after[i] == kids[i - extra + 1];
        }
      }
      assert ForestFilled(after, max / 2);
    }
  }

  // A split leaves both halves at least half full.
  lemma {:induction false} InsertFilled(t: Tree, k: I64, v: RowId, newId: PageId, max: nat)
    requires Shaped(t) && KidsFilled(t, max / 2) && max >= 2
    ensures GrownFilled(t, Insert(t, k, v, newId, max), max / 2)
    decreases t
  {
    if t.Branch? {
      hide GrowAt, GrownFilled, Filled, UpperBound;
      var c := UpperBound(t.keys, k);
      assert KidsFilled(t.kids[c], max / 2);
      InsertFilled(t.kids[c], k, v, newId, max);
      BranchGrown(t, k, v, newId, max);
      GrowAtFilled(t, c, Insert(t.kids[c], k, v, newId, max), newId, max);
    }
  }

  ghost predicate LeavesFilled(leaves: seq<Tree>, f: nat) {
    forall i :: 0 <= i < |leaves| ==> |leaves[i].keys| >= f
  }

  lemma GrowLeafFilled(id: PageId, keys: seq<I64>, vals: seq<RowId>, next: Option<PageId>, newId: PageId, max: nat)
    requires 0 < |keys| == |vals|
    ensures var g := GrowLeaf(id, keys, vals, next, newId, max);
      if |keys| <= max then g.Same? && g.tree.Leaf? && |g.tree.keys| == |keys| && ForestLeaves(GrownTrees(g)) == [g.tree]
      else g.Split? && LeavesFilled(ForestLeaves(GrownTrees(g)), (max + 1) / 2)
  {
    if |keys| <= max {
      ForestLeavesOne(Leaf(id, keys, vals, next));
    } else {
      var m := |keys| / 2;
      var l, r := Leaf(id, keys[..m], vals[..m], Some(newId)), Leaf(newId, keys[m..], vals[m..], next);
      TwoLeaves(l, r);
      assert Leaves(l) + Leaves(r) == [l, r];
    }
  }

  // As long as leaves hold half of what they can, an insertion leaves them so.
  lemma {:induction false} InsertLeavesFilled(t: Tree, k: I64, v: RowId, newId: PageId, max: nat, f: nat)
    requires Shaped(t) && !Insert(t, k, v, newId, max).Duplicate? && f <= (max + 1) / 2 && LeavesFilled(Leaves(t), f)
    ensures LeavesFilled(ForestLeaves(GrownTrees(Insert(t, k, v, newId, max))), f)
    decreases t
  {
    hide GrowAt, GrowLeaf, GrownTrees, ForestLeaves;
    if t.Leaf? {
      var i := LowerBound(t.keys, k);
      assert Leaves(t)[0] == t;
      GrowLeafFilled(t.id, t.keys[..i] + [k] + t.keys[i..], t.vals[..i] + [v] + t.vals[i..], t.next, newId, max);
    } else {
      var c := UpperBound(t.keys, k);
      var grown := Insert(t.kids[c], k, v, newId, max);
      BranchGrown(t, k, v, newId, max);
      GrowAtDuplicate(t, c, grown, newId, max);
      LeavesAround(t.kids, c);
      var a, mid, b := ForestLeaves(t.kids[..c]), Leaves(t.kids[c]), ForestLeaves(t.kids[c + 1..]);
      PartsFilled(a, mid, b, f);
      InsertLeavesFilled(t.kids[c], k, v, newId, max, f);
      GrowAtLeaves(t, c, grown, newId, max);
      PartsFilled(a, ForestLeaves(GrownTrees(grown)), b, f);
    }
  }

  lemma PartsFilled(a: seq<Tree>, b: seq<Tree>, c: seq<Tree>, f: nat)
    ensures LeavesFilled(a + b + c, f) <==> LeavesFilled(a, f) && LeavesFilled(b, f) && LeavesFilled(c, f)
  {
    var all := a + b + c;
    assert forall i :: 0 <= i < |a| ==> all[i] == a[i];
    assert forall i :: 0 <= i < |b| ==> all[|a| + i] == b[i];
    assert forall i :: 0 <= i < |c| ==> all[|a| + |b| + i] == c[i];
  }

  // So in a tree grown from nothing no leaf but a sole one holds fewer than half of the keys it can.
  lemma RootLeavesFilled(t: Option<Tree>, k: I64, v: RowId, newId: PageId, max: nat)
    requires t.Some? ==> Shaped(t.value) && (t.value.Branch? ==> LeavesFilled(Leaves(t.value), (max + 1) / 2))
    ensures InsertRoot(t, k, v, newId, max).Some?
    ensures var tree := InsertRoot(t, k, v, newId, max).value; tree.Branch? ==> LeavesFilled(Leaves(tree), (max + 1) / 2)
  {
    hide GrowLeaf, ForestLeaves, UpperBound;
    if t.Some? && !Insert(t.value, k, v, newId, max).Duplicate? {
      var grown := Insert(t.value, k, v, newId, max);
      if t.value.Branch? {
        InsertLeavesFilled(t.value, k, v, newId, max, (max + 1) / 2);
      } else {
        var i, l := LowerBound(t.value.keys, k), t.value;
        GrowLeafFilled(l.id, l.keys[..i] + [k] + l.keys[i..], l.vals[..i] + [v] + l.vals[i..], l.next, newId, max);
      }
      if grown.Same? {
        ForestLeavesOne(grown.tree);
      }
    }
  }

  ghost function Pow(b: nat, e: nat): nat {
    if e == 0 then 1 else b * Pow(b, e - 1)
  }

  lemma {:induction false} ManyLeaves(t: Tree, lo: int, hi: int, depth: nat, max: nat, f: nat)
    requires WellFormed(t, lo, hi, depth, max) && Filled(t, f)
    ensures |Leaves(t)| >= Pow(f + 1, depth)
    decreases depth, 0
  {
    if t.Branch? {
      forall i | 0 <= i < |t.kids|
        ensures |Leaves(t.kids[i])| >= Pow(f + 1, depth - 1)
      {
        assert ForestFilled(t.kids, f);
        assert Filled(t.kids[i], f);
        ManyLeaves(t.kids[i], Lo(t.keys, lo, i), Hi(t.keys, hi, i), depth - 1, max, f);
      }
      LeavesAdd(t.kids, Pow(f + 1, depth - 1));
      Multiply(f + 1, |t.kids|, Pow(f + 1, depth - 1));
    }
  }

  lemma {:induction false} LeavesAdd(kids: seq<Tree>, n: nat)
    requires forall i :: 0 <= i < |kids| ==> |Leaves(kids[i])| >= n
    ensures |ForestLeaves(kids)| >= |kids| * n
  {
    hide Leaves;
    if kids == [] {
      Multiply(0, 0, n);
    } else {
      LeavesAdd(kids[1..], n);
      OneMore(|kids|, n);
    }
  }

  lemma OneMore(k: nat, n: nat)
    requires k > 0
    ensures k * n == n + (k - 1) * n
  {}

  lemma Multiply(a: nat, b: nat, n: nat)
    requires a <= b
    ensures a * n <= b * n
  {}

  lemma {:induction false} LeavesUsePages(t: Tree)
    requires NoShare(t)
    ensures |Ids(t)| >= |Leaves(t)|
    decreases t, 0
  {
    if t.Branch? {
      ForestLeavesUsePages(t.kids);
    }
  }

  lemma {:induction false} ForestLeavesUsePages(kids: seq<Tree>)
    requires ForestNoShare(kids)
    ensures |ForestIds(kids)| >= |ForestLeaves(kids)|
    decreases kids, 0
  {
    if kids != [] {
      LeavesUsePages(kids[0]);
      ForestLeavesUsePages(kids[1..]);
    }
  }

  lemma {:induction false} SpanSize(n: nat, m: nat)
    ensures |Span(n, m)| == m
  {
    if m > 0 {
      SpanSize(n, m - 1);
    }
  }

  lemma {:induction false} PowOrder(b: nat, e: nat, g: nat)
    requires b >= 1 && e <= g
    ensures 1 <= Pow(b, e) <= Pow(b, g)
    decreases g
  {
    if e < g {
      PowOrder(b, e, g - 1);
      assert Pow(b, g - 1) <= b * Pow(b, g - 1);
    } else if e > 0 {
      PowOrder(b, e - 1, g - 1);
      assert b * Pow(b, e - 1) >= 1;
    }
  }

  lemma {:induction false} PowBase(a: nat, b: nat, e: nat)
    requires a <= b
    ensures Pow(a, e) <= Pow(b, e)
  {
    if e > 0 {
      PowBase(a, b, e - 1);
      Multiply(Pow(a, e - 1), Pow(b, e - 1), a);
      Multiply(a, b, Pow(b, e - 1));
    }
  }

  // ---------- Whole trees ----------

  const MIN_KEY := -0x8000_0000_0000_0000
  const KEY_LIMIT := 0x8000_0000_0000_0000

  ghost function Depth(t: Tree): nat {
    match t
    case Leaf(_, _, _, _) => 0
    case Branch(_, _, kids) => if kids == [] then 1 else 1 + Depth(kids[0])
  }

  // Everything that holds of a tree between operations.
  ghost predicate TreeOk(t: Tree, max: nat) {
    && WellFormed(t, MIN_KEY, KEY_LIMIT, Depth(t), max)
    && Shaped(t) && NoShare(t) && Linked(Leaves(t), None)
    && KidsFilled(t, max / 2) && (t.Branch? ==> |t.keys| >= 1)
  }

  lemma {:induction false} DepthIsUnique(t: Tree, lo: int, hi: int, depth: nat, max: nat)
    requires WellFormed(t, lo, hi, depth, max)
    ensures depth == Depth(t)
    decreases depth
  {
    if t.Branch? {
      DepthIsUnique(t.kids[0], Lo(t.keys, lo, 0), Hi(t.keys, hi, 0), depth - 1, max);
    }
  }

  // A tree with k >= 1 levels of branches has at least 2 * (max/2 + 1)^(k-1) leaves.
  lemma HeightBound(t: Tree, max: nat)
    requires TreeOk(t, max) && t.Branch?
    ensures |Leaves(t)| >= 2 * Pow(max / 2 + 1, Depth(t) - 1)
  {
    var n := Pow(max / 2 + 1, Depth(t) - 1);
    forall i | 0 <= i < |t.kids|
      ensures |Leaves(t.kids[i])| >= n
    {
      assert ForestFilled(t.kids, max / 2);
      assert Filled(t.kids[i], max / 2);
      ManyLeaves(t.kids[i], Lo(t.keys, MIN_KEY, i), Hi(t.keys, KEY_LIMIT, i), Depth(t) - 1, max, max / 2);
    }
    LeavesAdd(t.kids, n);
    Multiply(2, |t.kids|, n);
  }

  // So a tree whose pages are numbered below 2^32 has at most 32 levels of branches.
  lemma DepthBound(t: Tree, max: nat, count: nat)
    requires TreeOk(t, max) && max >= 2 && (forall id :: id in Ids(t) ==> id < count) && count <= 0x1_0000_0000
    ensures Depth(t) <= 32
  {
    if t.Branch? {
      HeightBound(t, max);
      hide TreeOk;
      LeavesAtMost(t, max, count);
      PowBase(2, max / 2 + 1, Depth(t) - 1);
      assert 2 * Pow(2, Depth(t) - 1) == Pow(2, Depth(t));
      if Depth(t) > 32 {
        PowOrder(2, 33, Depth(t));
        Power33();
      }
    }
  }

  lemma LeavesAtMost(t: Tree, max: nat, count: nat)
    requires TreeOk(t, max) && (forall id :: id in Ids(t) ==> id < count)
    ensures |Leaves(t)| <= count
  {
    LeavesUsePages(t);
    SpanSize(0, count);
    assert Ids(t) <= Span(0, count);
    Cardinality(Ids(t), Span(0, count));
  }

  lemma {:induction false} Cardinality(a: set<PageId>, b: set<PageId>)
    requires a <= b
    ensures |a| <= |b|
  {
    if a != {} {
      var x :| x in a;
      Cardinality(a - {x}, b - {x});
    }
  }

  lemma Power33()
    ensures Pow(2, 33) == 0x2_0000_0000
  {
    assert Pow(2, 8) == 256;
    PowAdd(2, 8, 8);
    PowAdd(2, 16, 16);
    assert Pow(2, 33) == 2 * Pow(2, 32);
  }

  lemma {:induction false} PowAdd(b: nat, e: nat, g: nat)
    ensures Pow(b, e + g) == Pow(b, e) * Pow(b, g)
  {
    if e > 0 {
      PowAdd(b, e - 1, g);
      Assoc3(b, Pow(b, e - 1), Pow(b, g));
    }
  }

  lemma Assoc3(a: nat, b: nat, c: nat)
    ensures a * (b * c) == (a * b) * c
  {}
}
