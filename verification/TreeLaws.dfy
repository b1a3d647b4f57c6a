// Insert, erase and range on whole trees, against the map they stand for.
module TreeLaws {
  import opened Bytes
  import opened Results
  import opened Seqs
  import opened TreeSpec
  import opened TreePages

  // ---------- Insertion at the root ----------

  ghost predicate ShapeOk(t: Option<Tree>, max: nat) {
    t.Some? ==> TreeOk(t.value, max)
  }

  // The map from keys to row ids that a tree stands for.
  ghost function Contents(t: Option<Tree>): map<I64, RowId> {
    if t.None? then map[] else MapOf(Entries(t.value))
  }

  ghost function PagesOf(t: Option<Tree>): set<PageId> {
    if t.None? then {} else Ids(t.value)
  }

  // How many pages an insertion allocates.
  ghost function PagesTaken(t: Option<Tree>, k: I64, v: RowId, newId: PageId, max: nat): nat
    requires t.Some? ==> Shaped(t.value)
  {
    if t.None? then 1
    else
      var g := Insert(t.value, k, v, newId, max);
      Used(g) + if g.Split? then 1 else 0
  }

  lemma {:induction false} InsertUses(t: Tree, k: I64, v: RowId, newId: PageId, lo: int, hi: int, depth: nat, max: nat)
    requires WellFormed(t, lo, hi, depth, max) && Shaped(t)
    ensures Used(Insert(t, k, v, newId, max)) <= depth + 1
    decreases depth
  {
    hide Zip, Sorted, Within;
    if t.Branch? {
      var c := UpperBound(t.keys, k);
      InsertUses(t.kids[c], k, v, newId, Lo(t.keys, lo, c), Hi(t.keys, hi, c), depth - 1, max);
    }
  }

  lemma EmptyInsertOk(k: I64, v: RowId, newId: PageId, max: nat)
    requires max >= 2
    ensures TreeOk(Leaf(newId, [k], [v], None), max)
    ensures Entries(Leaf(newId, [k], [v], None)) == [(k, v)]
  {
    var t := Leaf(newId, [k], [v], None);
    assert Leaves(t) == [t];
  }

  lemma NewRootOk(left: Tree, sep: I64, right: Tree, newId: PageId, depth: nat, max: nat)
    requires max >= 2 && MIN_KEY < sep < KEY_LIMIT
    requires WellFormed(left, MIN_KEY, sep, depth, max) && WellFormed(right, sep, KEY_LIMIT, depth, max)
    requires Filled(left, max / 2) && Filled(right, max / 2)
    requires ForestNoShare([left, right]) && newId !in ForestIds([left, right])
    requires Linked(ForestLeaves([left, right]), None)
    ensures TreeOk(Branch(newId, [sep], [left, right]), max)
    ensures Entries(Branch(newId, [sep], [left, right])) == ForestEntries([left, right])
    ensures Ids(Branch(newId, [sep], [left, right])) == ForestIds([left, right]) + {newId}
    ensures Depth(Branch(newId, [sep], [left, right])) == depth + 1
  {
    hide Filled, Leaves, Linked, ForestLeaves, ForestIds, Ids, ForestNoShare, NoShare;
    var t := Branch(newId, [sep], [left, right]);
    DepthIsUnique(left, MIN_KEY, sep, depth, max);
    assert WellFormed(t, MIN_KEY, KEY_LIMIT, depth + 1, max);
    WellFormedShaped(t, MIN_KEY, KEY_LIMIT, depth + 1, max);
    NewRootFacts(left, sep, right, newId, max / 2);
  }

  lemma NewRootFacts(left: Tree, sep: I64, right: Tree, newId: PageId, f: nat)
    requires Filled(left, f) && Filled(right, f)
    ensures var t := Branch(newId, [sep], [left, right]);
      && KidsFilled(t, f) && Leaves(t) == ForestLeaves([left, right])
      && (NoShare(t) <==> newId !in ForestIds([left, right]) && ForestNoShare([left, right]))
      && Ids(t) == ForestIds([left, right]) + {newId}
  {}

  // insert refines map insert: a fresh key is added, and nothing else about the map changes.
  lemma InsertRootOk(t: Option<Tree>, k: I64, v: RowId, newId: PageId, max: nat)
    requires ShapeOk(t, max) && max >= 2 && (forall id :: id in PagesOf(t) ==> id < newId)
    requires k !in Contents(t)
    ensures t.Some? ==> Shaped(t.value) && !Insert(t.value, k, v, newId, max).Duplicate?
    ensures ShapeOk(InsertRoot(t, k, v, newId, max), max)
    ensures Contents(InsertRoot(t, k, v, newId, max)) == Contents(t)[k := v]
    ensures PagesOf(InsertRoot(t, k, v, newId, max)) == PagesOf(t) + Span(newId, PagesTaken(t, k, v, newId, max))
    ensures PagesTaken(t, k, v, newId, max) <= (if t.None? then 0 else Depth(t.value)) + 2
  {
    hide TreeOk;
    if t.None? {
      EmptyInsertOk(k, v, newId, max);
      SingleEntry(k, v);
      assert Span(newId, 1) == {newId};
    } else {
      TreeOkShaped(t.value, max);
      GetIsMapOf(Entries(t.value), k);
      assert forall id :: id in Ids(t.value) ==> id in PagesOf(t);
      InsertTreeOk(t.value, k, v, newId, max);
      InsertMap(t.value, k, v, newId, max);
    }
  }

  lemma SingleEntry(k: I64, v: RowId)
    ensures MapOf([(k, v)]) == map[k := v]
  {
    assert [(k, v)][1..] == [];
  }

  lemma TreeOkShaped(t: Tree, max: nat)
    requires TreeOk(t, max)
    ensures Shaped(t) && NoShare(t) && Linked(Leaves(t), None) && KidsFilled(t, max / 2)
    ensures WellFormed(t, MIN_KEY, KEY_LIMIT, Depth(t), max)
  {}

  lemma InsertMap(t: Tree, k: I64, v: RowId, newId: PageId, max: nat)
    requires TreeOk(t, max) && Shaped(t) && Get(Entries(t), k) == None
    ensures MapOf(Entries(InsertRoot(Some(t), k, v, newId, max).value)) == MapOf(Entries(t))[k := v]
  {
    hide TreeOk, Insert, WellFormed;
    var g := Insert(t, k, v, newId, max);
    TreeOkShaped(t, max);
    InsertEntries(t, k, v, newId, MIN_KEY, KEY_LIMIT, Depth(t), max);
    EntriesOrdered(t, MIN_KEY, KEY_LIMIT, Depth(t), max);
    MapOfPut(Entries(t), k, v);
    if g.Same? {
      ForestEntriesOne(g.tree);
    }
  }

  lemma InsertTreeOk(t: Tree, k: I64, v: RowId, newId: PageId, max: nat)
    requires TreeOk(t, max) && Shaped(t) && max >= 2 && (forall id :: id in Ids(t) ==> id < newId)
    requires Get(Entries(t), k) == None
    ensures !Insert(t, k, v, newId, max).Duplicate?
    ensures TreeOk(InsertRoot(Some(t), k, v, newId, max).value, max)
    ensures Ids(InsertRoot(Some(t), k, v, newId, max).value) == Ids(t) + Span(newId, PagesTaken(Some(t), k, v, newId, max))
    ensures PagesTaken(Some(t), k, v, newId, max) <= Depth(t) + 2
  {
    hide TreeOk, Insert, WellFormed, Linked, ForestLeaves, Leaves, ForestIds, Ids, NoShare, ForestNoShare, KidsFilled, Filled, Entries,
         ForestEntries;
    var g := Insert(t, k, v, newId, max);
    TreeOkShaped(t, max);
    InsertEntries(t, k, v, newId, MIN_KEY, KEY_LIMIT, Depth(t), max);
    InsertOk(t, k, v, newId, MIN_KEY, KEY_LIMIT, Depth(t), max);
    InsertIds(t, k, v, newId, max);
    InsertLinked(t, k, v, newId, max, None);
    InsertFilled(t, k, v, newId, max);
    InsertUses(t, k, v, newId, MIN_KEY, KEY_LIMIT, Depth(t), max);
    if g.Same? {
      SameRootOk(t, g.tree, g.used, newId, max);
    } else {
      assert newId + g.used !in ForestIds([g.left, g.right]);
      NewRootOk(g.left, g.separator, g.right, newId + g.used, Depth(t), max);
      assert Span(newId, g.used + 1) == Span(newId, g.used) + {newId + g.used};
    }
  }

  lemma SameRootOk(t: Tree, tree: Tree, used: nat, newId: PageId, max: nat)
    requires TreeOk(t, max) && GrownFilled(t, Same(tree, used), max / 2)
    requires WellFormed(tree, MIN_KEY, KEY_LIMIT, Depth(t), max)
    requires ForestNoShare([tree]) && ForestIds([tree]) == Ids(t) + Span(newId, used)
    requires Linked(ForestLeaves([tree]), None)
    ensures TreeOk(tree, max) && Ids(tree) == Ids(t) + Span(newId, used)
  {
    hide WellFormed, Linked, ForestLeaves, Leaves, ForestIds, Ids, NoShare, ForestNoShare, KidsFilled;
    DepthIsUnique(tree, MIN_KEY, KEY_LIMIT, Depth(t), max);
    WellFormedShaped(tree, MIN_KEY, KEY_LIMIT, Depth(t), max);
    ForestLeavesOne(tree);
    ForestIdsOne(tree);
  }

  // ---------- Erasure ----------

  // Takes k out of its leaf; no node is merged or moved.
  ghost function Erase(t: Tree, k: I64): Tree
    requires Shaped(t)
    decreases t
  {
    match t
    case Leaf(id, keys, vals, next) =>
      var i := LowerBound(keys, k);
      if i < |keys| && keys[i] == k then Leaf(id, keys[..i] + keys[i + 1..], vals[..i] + vals[i + 1..], next) else t
    case Branch(id, keys, kids) =>
      var c := UpperBound(keys, k);
      Branch(id, keys, kids[c := Erase(kids[c], k)])
  }

  lemma DropAt(es: seq<Entry>, i: nat, k: I64)
    requires i < |es| && es[i].0 == k && Below(es[..i], k) && Above(es[i + 1..], k)
    ensures Drop(es, k) == es[..i] + es[i + 1..]
  {
    hide Below, Above, Drop;
    OneSided(es[..i], k);
    OneSided(es[i + 1..], k);
    SplitAt(es, i);
    var one := [es[i]];
    DropConcat(es[..i], one, k);
    DropConcat(es[..i] + one, es[i + 1..], k);
    DropOne(es[i]);
    assert es[..i] + [] == es[..i];
  }

  lemma DropOne(e: Entry)
    ensures Drop([e], e.0) == []
  {
    assert [e][1..] == [];
  }

  lemma ZipErased(keys: seq<I64>, vals: seq<RowId>, i: nat)
    requires |keys| == |vals| && i < |keys|
    ensures Zip(keys[..i] + keys[i + 1..], vals[..i] + vals[i + 1..]) == Zip(keys, vals)[..i] + Zip(keys, vals)[i + 1..]
  {}

  lemma ZipSides(keys: seq<I64>, vals: seq<RowId>, i: nat)
    requires |keys| == |vals| && i < |keys| && Sorted(keys)
    ensures Below(Zip(keys, vals)[..i], keys[i]) && Above(Zip(keys, vals)[i + 1..], keys[i])
    ensures Zip(keys, vals)[i].0 == keys[i]
  {}

  lemma LeafErased(keys: seq<I64>, vals: seq<RowId>, i: nat)
    requires |keys| == |vals| && Sorted(keys) && i < |keys|
    ensures Zip(keys[..i] + keys[i + 1..], vals[..i] + vals[i + 1..]) == Drop(Zip(keys, vals), keys[i])
  {
    hide Zip, Below, Above, Drop;
    ZipErased(keys, vals, i);
    ZipSides(keys, vals, i);
    DropAt(Zip(keys, vals), i, keys[i]);
  }

  lemma ErasedOrder(keys: seq<I64>, vals: seq<RowId>, i: nat, lo: int, hi: int)
    requires |keys| == |vals| && Sorted(keys) && i < |keys| && Within(Zip(keys, vals), lo, hi)
    ensures Sorted(keys[..i] + keys[i + 1..])
    ensures Within(Zip(keys[..i] + keys[i + 1..], vals[..i] + vals[i + 1..]), lo, hi)
  {
    ZipErased(keys, vals, i);
    hide Zip;
  }

  lemma LeafNotThere(keys: seq<I64>, vals: seq<RowId>, k: I64)
    requires |keys| == |vals| && Sorted(keys)
    requires LowerBound(keys, k) == |keys| || keys[LowerBound(keys, k)] != k
    ensures Drop(Zip(keys, vals), k) == Zip(keys, vals)
  {
    DropAbsent(Zip(keys, vals), k);
  }

  lemma LeafEraseOk(t: Tree, k: I64, lo: int, hi: int, max: nat)
    requires t.Leaf? && WellFormed(t, lo, hi, 0, max) && Shaped(t)
    ensures WellFormed(Erase(t, k), lo, hi, 0, max) && Shaped(Erase(t, k))
    ensures Entries(Erase(t, k)) == Drop(Entries(t), k)
  {
    hide Zip, Sorted, Within, LowerBound, Drop;
    var i := LowerBound(t.keys, k);
    if i < |t.keys| && t.keys[i] == k {
      LeafErased(t.keys, t.vals, i);
      ErasedOrder(t.keys, t.vals, i, lo, hi);
    } else {
      LeafNotThere(t.keys, t.vals, k);
    }
  }

  // erase removes just its key and keeps every separator valid, even when a leaf becomes empty.
  lemma {:induction false} EraseOk(t: Tree, k: I64, lo: int, hi: int, depth: nat, max: nat)
    requires WellFormed(t, lo, hi, depth, max) && Shaped(t)
    ensures WellFormed(Erase(t, k), lo, hi, depth, max)
    ensures Entries(Erase(t, k)) == Drop(Entries(t), k)
    decreases depth
  {
    hide Zip, Sorted, Within, Drop, Below, Above, KeysWithin, ForestEntries;
    if t.Leaf? {
      LeafEraseOk(t, k, lo, hi, max);
    } else {
      var keys, kids := t.keys, t.kids;
      var c := UpperBound(keys, k);
      AroundKid(keys, kids, lo, hi, depth - 1, max, k);
      EraseOk(kids[c], k, Lo(keys, lo, c), Hi(keys, hi, c), depth - 1, max);
      var kid := Erase(kids[c], k);
      ReplaceKid(keys, kids, lo, hi, depth - 1, max, c, kid);
      EraseEntries(kids, c, kid, k);
    }
  }

  lemma EraseEntries(kids: seq<Tree>, c: nat, kid: Tree, k: I64)
    requires c < |kids| && Entries(kid) == Drop(Entries(kids[c]), k)
    requires Below(ForestEntries(kids[..c]), k) && Above(ForestEntries(kids[c + 1..]), k)
    ensures ForestEntries(kids[c := kid]) == Drop(ForestEntries(kids), k)
  {
    hide ForestEntries, Entries, Drop, Below, Above;
    SetAt(kids, c, kid);
    EntriesReplaced(kids, c, [kid]);
    ForestEntriesOne(kid);
    EntriesAround(kids, c);
    var a, b := ForestEntries(kids[..c]), ForestEntries(kids[c + 1..]);
    OneSided(a, k);
    OneSided(b, k);
    DropConcat(a, Entries(kids[c]), k);
    DropConcat(a + Entries(kids[c]), b, k);
  }

  // The pages, the leaf chain and the branches are as before.
  lemma {:induction false} EraseFrame(t: Tree, k: I64, f: nat, tail: Option<PageId>)
    requires Shaped(t) && NoShare(t) && KidsFilled(t, f) && Linked(Leaves(t), tail)
    ensures Shaped(Erase(t, k)) && NoShare(Erase(t, k)) && KidsFilled(Erase(t, k), f)
    ensures Ids(Erase(t, k)) == Ids(t) && Erase(t, k).id == t.id && Erase(t, k).Branch? == t.Branch?
    ensures t.Branch? ==> Erase(t, k).keys == t.keys
    ensures Depth(Erase(t, k)) == Depth(t)
    ensures Linked(Leaves(Erase(t, k)), tail) && Leaves(Erase(t, k)) != [] && Leaves(t) != []
    ensures Leaves(Erase(t, k))[0].id == Leaves(t)[0].id
    decreases t
  {
    LeavesExist(t);
    if t.Leaf? {
      SoleLink(t, tail);
    } else {
      hide Linked, ForestLeaves, ForestNoShare, ForestIds, ForestFilled, UpperBound, Ids, NoShare, Leaves, KidsFilled;
      var kids := t.kids;
      var c := UpperBound(t.keys, k);
      var kid := Erase(kids[c], k);
      BranchParts(t, f, tail, c);
      var a, b := ForestLeaves(kids[..c]), ForestLeaves(kids[c + 1..]);
      EraseFrame(kids[c], k, f, FirstId(b, tail));
      EraseKid(t, c, kid, f, tail);
      EraseKidDepth(t, c, kid);
    }
  }

  lemma EraseKidDepth(t: Tree, c: nat, kid: Tree)
    requires t.Branch? && c < |t.kids| && Depth(kid) == Depth(t.kids[c])
    ensures Depth(Branch(t.id, t.keys, t.kids[c := kid])) == Depth(t)
  {}

  lemma BranchParts(t: Tree, f: nat, tail: Option<PageId>, c: nat)
    requires t.Branch? && Shaped(t) && c < |t.kids|
    requires NoShare(t) && KidsFilled(t, f) && Linked(Leaves(t), tail)
    ensures NoShare(t.kids[c]) && KidsFilled(t.kids[c], f) && Shaped(t.kids[c])
    ensures Linked(Leaves(t.kids[c]), FirstId(ForestLeaves(t.kids[c + 1..]), tail))
  {
    hide Linked, ForestLeaves, ForestNoShare, ForestIds;
    IdsAround(t.kids, c);
    LeavesAround(t.kids, c);
    var a, b := ForestLeaves(t.kids[..c]), ForestLeaves(t.kids[c + 1..]);
    LinkedConcat(a + Leaves(t.kids[c]), b, tail);
    LinkedConcat(a, Leaves(t.kids[c]), FirstId(b, tail));
  }

  // A branch whose child c is replaced by one with the same pages and the same place in the chain.
  lemma EraseKid(t: Tree, c: nat, kid: Tree, f: nat, tail: Option<PageId>)
    requires t.Branch? && Shaped(t) && c < |t.kids|
    requires NoShare(t) && KidsFilled(t, f) && Linked(Leaves(t), tail)
    requires Shaped(kid) && NoShare(kid) && KidsFilled(kid, f) && Ids(kid) == Ids(t.kids[c])
    requires kid.Branch? == t.kids[c].Branch? && (kid.Branch? ==> kid.keys == t.kids[c].keys)
    requires Leaves(kid) != [] && Leaves(t.kids[c]) != [] && Leaves(kid)[0].id == Leaves(t.kids[c])[0].id
    requires Linked(Leaves(kid), FirstId(ForestLeaves(t.kids[c + 1..]), tail))
    ensures var u := Branch(t.id, t.keys, t.kids[c := kid]);
      && Shaped(u) && NoShare(u) && KidsFilled(u, f) && Ids(u) == Ids(t)
      && Linked(Leaves(u), tail) && Leaves(u) != [] && Leaves(t) != [] && Leaves(u)[0].id == Leaves(t)[0].id
  {
    SetAt(t.kids, c, kid);
    hide Linked, ForestLeaves, ForestNoShare, ForestIds;
    IdsAround(t.kids, c);
    IdsReplaced(t.kids, c, [kid]);
    ForestIdsOne(kid);
    LeavesAround(t.kids, c);
    LeavesReplaced(t.kids, c, [kid]);
    ForestLeavesOne(kid);
    LinkReplaced(ForestLeaves(t.kids[..c]), Leaves(t.kids[c]), Leaves(kid), ForestLeaves(t.kids[c + 1..]), tail);
  }

  lemma EraseRootOk(t: Tree, k: I64, max: nat)
    requires TreeOk(t, max)
    ensures Shaped(t) && TreeOk(Erase(t, k), max)
    ensures Ids(Erase(t, k)) == Ids(t) && Erase(t, k).id == t.id
    ensures MapOf(Entries(Erase(t, k))) == MapOf(Entries(t)) - {k}
  {
    EraseFrame(t, k, max / 2, None);
    EraseOk(t, k, MIN_KEY, KEY_LIMIT, Depth(t), max);
    MapOfDrop(Entries(t), k);
  }

  // ---------- A range as a restriction of the map ----------

  // The keys between the bounds, each once, in ascending order.
  ghost predicate ListsRange(keys: seq<I64>, m: map<I64, RowId>, lower: Option<I64>, upper: Option<I64>) {
    Sorted(keys) && forall k :: k in keys <==> k in m && InRange(k, lower, upper)
  }

  ghost function At(m: map<I64, RowId>, keys: seq<I64>): (rows: seq<RowId>)
    requires forall k :: k in keys ==> k in m
  {
    seq(|keys|, i requires 0 <= i < |keys| => m[keys[i]])
  }

  ghost function KeysIn(es: seq<Entry>, lower: Option<I64>, upper: Option<I64>): seq<I64> {
    if es == [] then []
    else if InRange(es[0].0, lower, upper) then [es[0].0] + KeysIn(es[1..], lower, upper)
    else KeysIn(es[1..], lower, upper)
  }

  lemma {:induction false} KeysFrom(es: seq<Entry>)
    requires SortedEntries(es)
    ensures forall k :: k in MapOf(es) ==> es != [] && k >= es[0].0
  {
    if es != [] {
      KeysFrom(es[1..]);
    }
  }

  // A smaller key comes first, if it is between the bounds.
  lemma OneMoreListed(keys: seq<I64>, m: map<I64, RowId>, lower: Option<I64>, upper: Option<I64>, k: I64, row: RowId)
    requires ListsRange(keys, m, lower, upper) && forall j :: j in m ==> k < j
    ensures ListsRange(if InRange(k, lower, upper) then [k] + keys else keys, m[k := row], lower, upper)
  {
    hide InRange;
    assert forall j :: j in [k] + keys <==> j == k || j in keys;
    forall j | 0 <= j < |keys|
      ensures k < keys[j]
    {
      assert keys[j] in keys;
    }
  }

  lemma {:induction false} KeysListed(es: seq<Entry>, lower: Option<I64>, upper: Option<I64>)
    requires SortedEntries(es)
    ensures ListsRange(KeysIn(es, lower, upper), MapOf(es), lower, upper)
  {
    hide InRange, ListsRange;
    if es == [] {
      NoneListed(lower, upper);
    } else {
      KeysListed(es[1..], lower, upper);
      KeysFrom(es[1..]);
      OneMoreListed(KeysIn(es[1..], lower, upper), MapOf(es[1..]), lower, upper, es[0].0, es[0].1);
    }
  }

  lemma NoneListed(lower: Option<I64>, upper: Option<I64>)
    ensures ListsRange([], map[], lower, upper)
  {}

  lemma OneMoreAt(m: map<I64, RowId>, keys: seq<I64>, k: I64, row: RowId)
    requires k !in m && forall j :: j in keys ==> j in m
    ensures At(m[k := row], keys) == At(m, keys)
    ensures At(m[k := row], [k] + keys) == [row] + At(m, keys)
  {
    assert forall j :: j in [k] + keys <==> j == k || j in keys;
    assert forall i :: 0 <= i < |keys| ==> keys[i] in keys;
  }

  lemma {:induction false} RowsListed(es: seq<Entry>, lower: Option<I64>, upper: Option<I64>)
    requires SortedEntries(es)
    ensures ListsRange(KeysIn(es, lower, upper), MapOf(es), lower, upper)
    ensures RangeOf(es, lower, upper) == At(MapOf(es), KeysIn(es, lower, upper))
  {
    hide InRange, At;
    KeysListed(es, lower, upper);
    if es == [] {
      NothingAt(MapOf(es));
    } else {
      RowsListed(es[1..], lower, upper);
      KeysFrom(es[1..]);
      OneMoreAt(MapOf(es[1..]), KeysIn(es[1..], lower, upper), es[0].0, es[0].1);
    }
  }

  lemma NothingAt(m: map<I64, RowId>)
    ensures At(m, []) == []
  {}

  // What a range gives is what the map holds at the keys between the bounds, in ascending order of the keys.
  lemma RangeIsMap(t: Tree, max: nat, lower: Option<I64>, upper: Option<I64>, keys: seq<I64>)
    requires TreeOk(t, max) && Sorted(keys)
    requires forall k :: k in keys <==>
      k in Contents(Some(t)) && (lower.Some? ==> lower.value <= k) && (upper.Some? ==> k <= upper.value)
    ensures (forall k :: k in keys ==> k in Contents(Some(t)))
    ensures var rows := RangeOf(Entries(t), lower, upper);
      |rows| == |keys| && forall i :: 0 <= i < |keys| ==> rows[i] == Contents(Some(t))[keys[i]]
  {
    hide WellFormed;
    EntriesOrdered(t, MIN_KEY, KEY_LIMIT, Depth(t), max);
    RowsListed(Entries(t), lower, upper);
    SameKeys(KeysIn(Entries(t), lower, upper), keys);
  }

  lemma FirstIn(keys: seq<I64>)
    ensures keys != [] ==> keys[0] in keys
  {}

  // There is only one ascending list of a set of keys.
  lemma {:induction false} SameKeys(a: seq<I64>, b: seq<I64>)
    requires Sorted(a) && Sorted(b) && forall k :: k in a <==> k in b
    ensures a == b
  {
    FirstIn(a);
    FirstIn(b);
    if a != [] {
      assert a[0] == b[0];
      forall k
        ensures k in a[1..] <==> k in b[1..]
      {
        assert k in a <==> k == a[0] || k in a[1..];
        assert k in b <==> k == b[0] || k in b[1..];
      }
      SameKeys(a[1..], b[1..]);
    }
  }
}
