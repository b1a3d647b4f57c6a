// B+ trees as values: shape, ordering, and what insert and erase do to them.
module TreeSpec {
  import opened Bytes
  import opened Results
  import opened Seqs

  type PageId = nat

  datatype RowId = RowId(page: PageId, slot: U16)

  // A node with everything below it. A leaf also knows the page of the next leaf.
  datatype Tree =
    | Leaf(id: PageId, keys: seq<I64>, vals: seq<RowId>, next: Option<PageId>)
    | Branch(id: PageId, keys: seq<I64>, kids: seq<Tree>)

  type Entry = (I64, RowId)

  // ---------- Searching a node ----------

  // std::lower_bound: how many keys come before k.
  function LowerBound(keys: seq<I64>, k: I64): (i: nat)
    ensures i <= |keys|
    ensures forall j :: 0 <= j < i ==> keys[j] < k
    ensures i < |keys| ==> keys[i] >= k
  {
    if keys == [] || keys[0] >= k then 0 else 1 + LowerBound(keys[1..], k)
  }

  // std::upper_bound: how many keys are at most k.
  function UpperBound(keys: seq<I64>, k: I64): (i: nat)
    ensures i <= |keys|
    ensures forall j :: 0 <= j < i ==> keys[j] <= k
    ensures i < |keys| ==> keys[i] > k
  {
    if keys == [] || keys[0] > k then 0 else 1 + UpperBound(keys[1..], k)
  }

  predicate Sorted(keys: seq<I64>) {
    forall i, j :: 0 <= i < j < |keys| ==> keys[i] < keys[j]
  }

  // ---------- The entries of a tree, in key order ----------

  ghost function Zip(keys: seq<I64>, vals: seq<RowId>): (es: seq<Entry>)
    ensures |keys| == |vals| ==> |es| == |keys|
    ensures |keys| == |vals| ==> forall i :: 0 <= i < |keys| ==> es[i] == (keys[i], vals[i])
  {
    if |keys| == |vals| then seq(|keys|, i requires 0 <= i < |keys| => (keys[i], vals[i])) else []
  }

  ghost function Entries(t: Tree): seq<Entry> {
    match t
    case Leaf(_, keys, vals, _) => Zip(keys, vals)
    case Branch(_, _, kids) => ForestEntries(kids)
  }

  ghost function ForestEntries(kids: seq<Tree>): seq<Entry> {
    if kids == [] then [] else Entries(kids[0]) + ForestEntries(kids[1..])
  }

  ghost predicate SortedEntries(es: seq<Entry>) {
    forall i, j :: 0 <= i < j < |es| ==> es[i].0 < es[j].0
  }

  ghost predicate Within(es: seq<Entry>, lo: int, hi: int) {
    forall i :: 0 <= i < |es| ==> lo <= es[i].0 < hi
  }

  // ---------- Well-formed trees ----------

  ghost function Lo(keys: seq<I64>, lo: int, i: nat): int
    requires i <= |keys|
  {
    if i == 0 then lo else keys[i - 1]
  }

  ghost function Hi(keys: seq<I64>, hi: int, i: nat): int
    requires i <= |keys|
  {
    if i == |keys| then hi else keys[i]
  }

  ghost predicate KeysWithin(keys: seq<I64>, lo: int, hi: int) {
    forall i :: 0 <= i < |keys| ==> lo < keys[i] < hi
  }

  // Keys in [lo, hi), child i between separators i-1 and i, every leaf `depth` levels down.
  ghost predicate WellFormed(t: Tree, lo: int, hi: int, depth: nat, max: nat)
    decreases t
  {
    && |t.keys| <= max && Sorted(t.keys)
    && match t
       case Leaf(_, keys, vals, _) =>
         depth == 0 && |vals| == |keys| && Within(Zip(keys, vals), lo, hi)
       case Branch(_, keys, kids) =>
         && depth > 0 && |kids| == |keys| + 1 && KeysWithin(keys, lo, hi)
         && forall i :: 0 <= i < |kids| ==>
              WellFormed(kids[i], Lo(keys, lo, i), Hi(keys, hi, i), depth - 1, max)
  }

  // The children of one node, as a unit.
  ghost predicate KidsOk(keys: seq<I64>, kids: seq<Tree>, lo: int, hi: int, depth: nat, max: nat) {
    && |kids| == |keys| + 1 && Sorted(keys) && KeysWithin(keys, lo, hi)
    && forall i :: 0 <= i < |kids| ==> WellFormed(kids[i], Lo(keys, lo, i), Hi(keys, hi, i), depth, max)
  }

  // Cutting a row of children at separator m gives two rows of children.
  lemma CutKids(keys: seq<I64>, kids: seq<Tree>, lo: int, hi: int, depth: nat, max: nat, m: nat)
    requires KidsOk(keys, kids, lo, hi, depth, max) && m < |keys|
    ensures KidsOk(keys[..m], kids[..m + 1], lo, keys[m], depth, max)
    ensures KidsOk(keys[m + 1..], kids[m + 1..], keys[m], hi, depth, max)
    ensures lo < keys[m] < hi
  {
    hide WellFormed;
    var a := kids[..m + 1];
    forall i | 0 <= i < |a|
      ensures WellFormed(a[i], Lo(keys[..m], lo, i), Hi(keys[..m], keys[m], i), depth, max)
    {
      assert WellFormed(kids[i], Lo(keys, lo, i), Hi(keys, hi, i), depth, max);
    }
    var b := kids[m + 1..];
    forall i | 0 <= i < |b|
      ensures WellFormed(b[i], Lo(keys[m + 1..], keys[m], i), Hi(keys[m + 1..], hi, i), depth, max)
    {
      assert WellFormed(kids[m + 1 + i], Lo(keys, lo, m + 1 + i), Hi(keys, hi, m + 1 + i), depth, max);
    }
  }

  lemma SortedInsert(keys: seq<I64>, c: nat, k: I64)
    requires Sorted(keys) && c <= |keys|
    requires (c > 0 ==> keys[c - 1] < k) && (c < |keys| ==> k < keys[c])
    ensures Sorted(keys[..c] + [k] + keys[c..])
  {}

  // The children and their bounds after a split of child c, one by one.
  lemma SplitParts(keys: seq<I64>, kids: seq<Tree>, lo: int, hi: int, c: nat, l: Tree, sep: I64, r: Tree, i: nat)
    requires |kids| == |keys| + 1 && c < |kids| && i <= |kids|
    ensures var ks, ts := keys[..c] + [sep] + keys[c..], kids[..c] + [l, r] + kids[c + 1..];
      if i < c then ts[i] == kids[i] && Lo(ks, lo, i) == Lo(keys, lo, i) && Hi(ks, hi, i) == Hi(keys, hi, i)
      else if i == c then ts[i] == l && Lo(ks, lo, i) == Lo(keys, lo, c) && Hi(ks, hi, i) == sep
      else if i == c + 1 then ts[i] == r && Lo(ks, lo, i) == sep && Hi(ks, hi, i) == Hi(keys, hi, c)
      else ts[i] == kids[i - 1] && Lo(ks, lo, i) == Lo(keys, lo, i - 1) && Hi(ks, hi, i) == Hi(keys, hi, i - 1)
  {}

  // Replacing child c by two children with a separator between them.
  lemma SplitKid(keys: seq<I64>, kids: seq<Tree>, lo: int, hi: int, depth: nat, max: nat,
                 c: nat, l: Tree, sep: I64, r: Tree)
    requires KidsOk(keys, kids, lo, hi, depth, max) && c < |kids|
    requires WellFormed(l, Lo(keys, lo, c), sep, depth, max)
    requires WellFormed(r, sep, Hi(keys, hi, c), depth, max)
    requires Lo(keys, lo, c) < sep < Hi(keys, hi, c)
    ensures KidsOk(keys[..c] + [sep] + keys[c..], kids[..c] + [l, r] + kids[c + 1..], lo, hi, depth, max)
  {
    hide WellFormed, Sorted;
    var ks := keys[..c] + [sep] + keys[c..];
    var ts := kids[..c] + [l, r] + kids[c + 1..];
    SortedInsert(keys, c, sep);
    SeparatorWithin(keys, lo, hi, c, sep);
    forall i | 0 <= i < |ts|
      ensures WellFormed(ts[i], Lo(ks, lo, i), Hi(ks, hi, i), depth, max)
    {
      hide Lo, Hi;
      SplitParts(keys, kids, lo, hi, c, l, sep, r, i);
      if i < c {
        assert WellFormed(kids[i], Lo(keys, lo, i), Hi(keys, hi, i), depth, max);
      } else if i > c + 1 {
        assert WellFormed(kids[i - 1], Lo(keys, lo, i - 1), Hi(keys, hi, i - 1), depth, max);
      }
    }
  }

  lemma SeparatorWithin(keys: seq<I64>, lo: int, hi: int, c: nat, sep: I64)
    requires KeysWithin(keys, lo, hi) && c <= |keys| && Lo(keys, lo, c) < sep < Hi(keys, hi, c)
    ensures KeysWithin(keys[..c] + [sep] + keys[c..], lo, hi)
  {
    assert lo < sep < hi;
  }

  lemma ReplaceKid(keys: seq<I64>, kids: seq<Tree>, lo: int, hi: int, depth: nat, max: nat, c: nat, t: Tree)
    requires KidsOk(keys, kids, lo, hi, depth, max) && c < |kids|
    requires WellFormed(t, Lo(keys, lo, c), Hi(keys, hi, c), depth, max)
    ensures KidsOk(keys, kids[c := t], lo, hi, depth, max)
  {
    hide WellFormed;
  }

  // ---------- Rows of children ----------

  lemma {:induction false} ForestEntriesConcat(a: seq<Tree>, b: seq<Tree>)
    ensures ForestEntries(a + b) == ForestEntries(a) + ForestEntries(b)
  {
    hide Entries;
    if a == [] {
      assert a + b == b;
    } else {
      ForestEntriesConcat(a[1..], b);
      assert (a + b)[1..] == a[1..] + b && (a + b)[0] == a[0];
    }
  }

  lemma ForestEntriesOne(t: Tree)
    ensures ForestEntries([t]) == Entries(t)
  {
    assert [t][1..] == [];
    assert ForestEntries([t]) == Entries(t) + [];
  }

  lemma EntriesReplaced(kids: seq<Tree>, c: nat, ts: seq<Tree>)
    requires c < |kids|
    ensures ForestEntries(kids[..c] + ts + kids[c + 1..]) ==
      ForestEntries(kids[..c]) + ForestEntries(ts) + ForestEntries(kids[c + 1..])
  {
    assert kids[..c] + ts + kids[c + 1..] == kids[..c] + (ts + kids[c + 1..]);
    ForestEntriesConcat(kids[..c], ts + kids[c + 1..]);
    ForestEntriesConcat(ts, kids[c + 1..]);
  }

  // The entries of a row of children, split around child c.
  lemma EntriesAround(kids: seq<Tree>, c: nat)
    requires c < |kids|
    ensures ForestEntries(kids) == ForestEntries(kids[..c]) + Entries(kids[c]) + ForestEntries(kids[c + 1..])
  {
    SplitAt(kids, c);
    EntriesReplaced(kids, c, [kids[c]]);
    ForestEntriesOne(kids[c]);
  }

  lemma {:induction false} EntriesOrdered(t: Tree, lo: int, hi: int, depth: nat, max: nat)
    requires WellFormed(t, lo, hi, depth, max)
    ensures SortedEntries(Entries(t)) && Within(Entries(t), lo, hi)
    decreases depth, 0
  {
    if t.Branch? {
      ForestOrdered(t.keys, t.kids, lo, hi, depth - 1, max);
    }
  }

  lemma {:induction false} ForestOrdered(keys: seq<I64>, kids: seq<Tree>, lo: int, hi: int, depth: nat, max: nat)
    requires KidsOk(keys, kids, lo, hi, depth, max)
    ensures SortedEntries(ForestEntries(kids)) && Within(ForestEntries(kids), lo, hi)
    decreases depth, |kids|
  {
    hide WellFormed;
    assert WellFormed(kids[0], Lo(keys, lo, 0), Hi(keys, hi, 0), depth, max);
    EntriesOrdered(kids[0], Lo(keys, lo, 0), Hi(keys, hi, 0), depth, max);
    if keys == [] {
      assert kids == [kids[0]];
      ForestEntriesOne(kids[0]);
    } else {
      CutKids(keys, kids, lo, hi, depth, max, 0);
      ForestOrdered(keys[1..], kids[1..], keys[0], hi, depth, max);
      JoinOrdered(Entries(kids[0]), ForestEntries(kids[1..]), lo, keys[0], hi);
    }
  }

  lemma JoinOrdered(a: seq<Entry>, b: seq<Entry>, lo: int, mid: int, hi: int)
    requires SortedEntries(a) && Within(a, lo, mid) && SortedEntries(b) && Within(b, mid, hi)
    requires lo < mid < hi
    ensures SortedEntries(a + b) && Within(a + b, lo, hi)
  {}

  // ---------- Ordered entries as a map ----------

  ghost function Get(es: seq<Entry>, k: I64): Option<RowId> {
    if es == [] then None else if es[0].0 == k then Some(es[0].1) else Get(es[1..], k)
  }

  ghost function Put(es: seq<Entry>, k: I64, v: RowId): seq<Entry> {
    if es == [] || k < es[0].0 then [(k, v)] + es else [es[0]] + Put(es[1..], k, v)
  }

  ghost function Drop(es: seq<Entry>, k: I64): seq<Entry> {
    if es == [] then [] else if es[0].0 == k then Drop(es[1..], k) else [es[0]] + Drop(es[1..], k)
  }

  ghost function MapOf(es: seq<Entry>): map<I64, RowId> {
    if es == [] then map[] else MapOf(es[1..])[es[0].0 := es[0].1]
  }

  // The row ids of the entries between the bounds, in key order.
  ghost function RangeOf(es: seq<Entry>, lower: Option<I64>, upper: Option<I64>): seq<RowId> {
    if es == [] then []
    else if InRange(es[0].0, lower, upper) then [es[0].1] + RangeOf(es[1..], lower, upper)
    else RangeOf(es[1..], lower, upper)
  }

  ghost predicate Below(es: seq<Entry>, k: int) {
    forall i :: 0 <= i < |es| ==> es[i].0 < k
  }

  ghost predicate Above(es: seq<Entry>, k: int) {
    forall i :: 0 <= i < |es| ==> k < es[i].0
  }

  ghost predicate InRange(k: I64, lower: Option<I64>, upper: Option<I64>) {
    (lower.Some? ==> lower.value <= k) && (upper.Some? ==> k <= upper.value)
  }

  lemma {:induction false} GetIsMapOf(es: seq<Entry>, k: I64)
    ensures Get(es, k) == if k in MapOf(es) then Some(MapOf(es)[k]) else None
  {
    if es != [] {
      GetIsMapOf(es[1..], k);
    }
  }

  lemma {:induction false} PutHolds(es: seq<Entry>, k: I64, v: RowId)
    ensures forall e :: e in Put(es, k, v) <==> e == (k, v) || e in es
  {
    if es != [] && k >= es[0].0 {
      PutHolds(es[1..], k, v);
    }
  }

  lemma {:induction false} MapOfPut(es: seq<Entry>, k: I64, v: RowId)
    requires SortedEntries(es) && Get(es, k) == None
    ensures MapOf(Put(es, k, v)) == MapOf(es)[k := v]
    ensures SortedEntries(Put(es, k, v))
  {
    if es == [] || k < es[0].0 {
      assert ([(k, v)] + es)[1..] == es;
    } else {
      MapOfPut(es[1..], k, v);
      PutHolds(es[1..], k, v);
      var rest := Put(es[1..], k, v);
      assert ([es[0]] + rest)[1..] == rest;
      forall j | 0 <= j < |rest|
        ensures es[0].0 < rest[j].0
      {
        assert rest[j] in rest;
      }
    }
  }

  lemma {:induction false} MapOfDrop(es: seq<Entry>, k: I64)
    ensures MapOf(Drop(es, k)) == MapOf(es) - {k}
  {
    if es != [] {
      MapOfDrop(es[1..], k);
      var rest := Drop(es[1..], k);
      assert ([es[0]] + rest)[1..] == rest;
    }
  }

  lemma {:induction false} GetConcat(a: seq<Entry>, b: seq<Entry>, k: I64)
    ensures Get(a + b, k) == if Get(a, k).Some? then Get(a, k) else Get(b, k)
  {
    if a == [] {
      assert a + b == b;
    } else {
      assert (a + b)[1..] == a[1..] + b;
      GetConcat(a[1..], b, k);
    }
  }

  lemma {:induction false} PutAfter(a: seq<Entry>, b: seq<Entry>, k: I64, v: RowId)
    requires Below(a, k)
    ensures Put(a + b, k, v) == a + Put(b, k, v)
  {
    if a == [] {
      assert a + b == b;
    } else {
      assert (a + b)[0] == a[0] && (a + b)[1..] == a[1..] + b;
      PutAfter(a[1..], b, k, v);
    }
  }

  lemma {:induction false} PutBefore(a: seq<Entry>, b: seq<Entry>, k: I64, v: RowId)
    requires Above(b, k)
    ensures Put(a + b, k, v) == Put(a, k, v) + b
  {
    if a == [] {
      assert a + b == b;
    } else {
      assert (a + b)[0] == a[0] && (a + b)[1..] == a[1..] + b;
      PutBefore(a[1..], b, k, v);
      if k < a[0].0 {
        assert [(k, v)] + (a + b) == ([(k, v)] + a) + b;
      }
    }
  }

  lemma {:induction false} DropConcat(a: seq<Entry>, b: seq<Entry>, k: I64)
    ensures Drop(a + b, k) == Drop(a, k) + Drop(b, k)
  {
    if a == [] {
      assert a + b == b;
    } else {
      assert (a + b)[1..] == a[1..] + b;
      DropConcat(a[1..], b, k);
    }
  }

  lemma {:induction false} DropAbsent(es: seq<Entry>, k: I64)
    requires forall i :: 0 <= i < |es| ==> es[i].0 != k
    ensures Drop(es, k) == es
  {
    if es != [] {
      DropAbsent(es[1..], k);
    }
  }

  lemma {:induction false} GetAbsent(es: seq<Entry>, k: I64)
    requires forall i :: 0 <= i < |es| ==> es[i].0 != k
    ensures Get(es, k) == None
  {
    if es != [] {
      GetAbsent(es[1..], k);
    }
  }

  lemma {:induction false} RangeConcat(a: seq<Entry>, b: seq<Entry>, lower: Option<I64>, upper: Option<I64>)
    ensures RangeOf(a + b, lower, upper) == RangeOf(a, lower, upper) + RangeOf(b, lower, upper)
  {
    if a == [] {
      assert a + b == b;
    } else {
      assert (a + b)[1..] == a[1..] + b;
      RangeConcat(a[1..], b, lower, upper);
    }
  }

  lemma {:induction false} RangeOutside(es: seq<Entry>, lower: Option<I64>, upper: Option<I64>)
    requires forall i :: 0 <= i < |es| ==> !InRange(es[i].0, lower, upper)
    ensures RangeOf(es, lower, upper) == []
  {
    if es != [] {
      RangeOutside(es[1..], lower, upper);
    }
  }

  lemma OneSided(es: seq<Entry>, k: I64)
    requires Below(es, k) || Above(es, k)
    ensures Get(es, k) == None && Drop(es, k) == es
  {
    GetAbsent(es, k);
    DropAbsent(es, k);
  }

  // Only the child that upper_bound picks can hold k: the ones before hold less, the ones after more.
  lemma AroundKid(keys: seq<I64>, kids: seq<Tree>, lo: int, hi: int, depth: nat, max: nat, k: I64)
    requires KidsOk(keys, kids, lo, hi, depth, max)
    ensures UpperBound(keys, k) < |kids|
    ensures Below(ForestEntries(kids[..UpperBound(keys, k)]), k)
    ensures Above(ForestEntries(kids[UpperBound(keys, k) + 1..]), k)
    ensures lo <= k < hi ==> Lo(keys, lo, UpperBound(keys, k)) <= k < Hi(keys, hi, UpperBound(keys, k))
  {
    hide WellFormed;
    var c := UpperBound(keys, k);
    if c > 0 {
      CutKids(keys, kids, lo, hi, depth, max, c - 1);
      ForestOrdered(keys[..c - 1], kids[..c], lo, keys[c - 1], depth, max);
    }
    if c < |keys| {
      CutKids(keys, kids, lo, hi, depth, max, c);
      ForestOrdered(keys[c + 1..], kids[c + 1..], keys[c], hi, depth, max);
    } else {
      assert kids[c + 1..] == [];
    }
  }

  lemma GetInKid(keys: seq<I64>, kids: seq<Tree>, lo: int, hi: int, depth: nat, max: nat, k: I64)
    requires KidsOk(keys, kids, lo, hi, depth, max)
    ensures UpperBound(keys, k) < |kids|
    ensures Get(ForestEntries(kids), k) == Get(Entries(kids[UpperBound(keys, k)]), k)
  {
    hide WellFormed, ForestEntries, Entries;
    var c := UpperBound(keys, k);
    AroundKid(keys, kids, lo, hi, depth, max, k);
    EntriesAround(kids, c);
    var a, b := ForestEntries(kids[..c]), ForestEntries(kids[c + 1..]);
    OneSided(a, k);
    OneSided(b, k);
    GetConcat(a + Entries(kids[c]), b, k);
    GetConcat(a, Entries(kids[c]), k);
  }

  // ---------- Insertion ----------

  // Every node has as many values as keys, or one more child than keys.
  ghost predicate Shaped(t: Tree)
    decreases t
  {
    match t
    case Leaf(_, keys, vals, _) => |vals| == |keys|
    case Branch(_, keys, kids) => |kids| == |keys| + 1 && forall i :: 0 <= i < |kids| ==> Shaped(kids[i])
  }

  lemma {:induction false} WellFormedShaped(t: Tree, lo: int, hi: int, depth: nat, max: nat)
    requires WellFormed(t, lo, hi, depth, max)
    ensures Shaped(t)
    decreases depth
  {
    if t.Branch? {
      forall i | 0 <= i < |t.kids|
        ensures Shaped(t.kids[i])
      {
        WellFormedShaped(t.kids[i], Lo(t.keys, lo, i), Hi(t.keys, hi, i), depth - 1, max);
      }
    }
  }

  // What inserting into a subtree puts in its place, and how many pages it has allocated.
  datatype Grown =
    | Duplicate
    | Same(tree: Tree, used: nat)
    | Split(left: Tree, separator: I64, right: Tree, used: nat)

  // The node after the insertion, cut in two at the middle key when it holds too many.
  ghost function GrowLeaf(id: PageId, keys: seq<I64>, vals: seq<RowId>, next: Option<PageId>, newId: PageId, max: nat): Grown
    requires |keys| == |vals| && |keys| > 0
  {
    if |keys| <= max then Same(Leaf(id, keys, vals, next), 0)
    else
      var m := |keys| / 2;
      Split(Leaf(id, keys[..m], vals[..m], Some(newId)), keys[m], Leaf(newId, keys[m..], vals[m..], next), 1)
  }

  ghost function GrowBranch(id: PageId, keys: seq<I64>, kids: seq<Tree>, newId: PageId, used: nat, max: nat): Grown
    requires |kids| == |keys| + 1 && |keys| > 0
  {
    if |keys| <= max then Same(Branch(id, keys, kids), used)
    else
      var m := |keys| / 2;
      Split(Branch(id, keys[..m], kids[..m + 1]), keys[m], Branch(newId, keys[m + 1..], kids[m + 1..]), used + 1)
  }

  // New pages are numbered upward from `newId`, children before parents.
  ghost function Insert(t: Tree, k: I64, v: RowId, newId: PageId, max: nat): Grown
    requires Shaped(t)
    decreases t
  {
    match t
    case Leaf(id, keys, vals, next) =>
      var i := LowerBound(keys, k);
      if i < |keys| && keys[i] == k then Duplicate
      else GrowLeaf(id, keys[..i] + [k] + keys[i..], vals[..i] + [v] + vals[i..], next, newId, max)
    case Branch(id, keys, kids) =>
      var c := UpperBound(keys, k);
      match Insert(kids[c], k, v, newId, max)
      case Duplicate => Duplicate
      case Same(kid, used) => Same(Branch(id, keys, kids[c := kid]), used)
      case Split(left, separator, right, used) =>
        GrowBranch(id, keys[..c] + [separator] + keys[c..], kids[..c] + [left, right] + kids[c + 1..],
                   newId + used, used, max)
  }

  // The whole tree: a split of the root makes a new root above the two halves.
  ghost function InsertRoot(t: Option<Tree>, k: I64, v: RowId, newId: PageId, max: nat): Option<Tree>
    requires t.Some? ==> Shaped(t.value)
  {
    if t.None? then Some(Leaf(newId, [k], [v], None))
    else
      match Insert(t.value, k, v, newId, max)
      case Duplicate => t
      case Same(tree, _) => Some(tree)
      case Split(left, separator, right, used) => Some(Branch(newId + used, [separator], [left, right]))
  }

  // ---------- What an insertion keeps ----------

  ghost predicate GrownOk(g: Grown, lo: int, hi: int, depth: nat, max: nat) {
    match g
    case Duplicate => true
    case Same(tree, _) => WellFormed(tree, lo, hi, depth, max)
    case Split(left, separator, right, _) =>
      lo < separator < hi && WellFormed(left, lo, separator, depth, max) && WellFormed(right, separator, hi, depth, max)
  }

  lemma ZipInserted(keys: seq<I64>, vals: seq<RowId>, k: I64, v: RowId, i: nat)
    requires |keys| == |vals| && i <= |keys|
    ensures var ks, vs := keys[..i] + [k] + keys[i..], vals[..i] + [v] + vals[i..];
      Zip(ks, vs) == Zip(keys, vals)[..i] + [(k, v)] + Zip(keys, vals)[i..]
  {}

  lemma LeafInserted(keys: seq<I64>, vals: seq<RowId>, k: I64, v: RowId, lo: int, hi: int)
    requires |keys| == |vals| && Sorted(keys) && Within(Zip(keys, vals), lo, hi) && lo <= k < hi
    requires LowerBound(keys, k) == |keys| || keys[LowerBound(keys, k)] != k
    ensures var i := LowerBound(keys, k);
      var ks, vs := keys[..i] + [k] + keys[i..], vals[..i] + [v] + vals[i..];
      && |ks| == |vs| == |keys| + 1 && Sorted(ks) && Within(Zip(ks, vs), lo, hi)
      && Zip(ks, vs) == Zip(keys, vals)[..i] + [(k, v)] + Zip(keys, vals)[i..]
  {
    hide LowerBound, Zip, Sorted;
    var i := LowerBound(keys, k);
    ZipInserted(keys, vals, k, v, i);
    SortedInsert(keys, i, k);
    WithinInserted(Zip(keys, vals), i, (k, v), lo, hi);
  }

  lemma WithinInserted(es: seq<Entry>, i: nat, e: Entry, lo: int, hi: int)
    requires Within(es, lo, hi) && i <= |es| && lo <= e.0 < hi
    ensures Within(es[..i] + [e] + es[i..], lo, hi)
  {}

  lemma GrowLeafOk(id: PageId, keys: seq<I64>, vals: seq<RowId>, next: Option<PageId>, newId: PageId,
                   lo: int, hi: int, max: nat)
    requires 0 < |keys| == |vals| <= max + 1 && max >= 2 && Sorted(keys) && Within(Zip(keys, vals), lo, hi)
    ensures GrownOk(GrowLeaf(id, keys, vals, next, newId, max), lo, hi, 0, max)
  {
    if |keys| > max {
      var m := |keys| / 2;
      assert Zip(keys, vals)[0].0 == keys[0] && Zip(keys, vals)[m].0 == keys[m];
      assert Zip(keys[..m], vals[..m]) == Zip(keys, vals)[..m];
      assert Zip(keys[m..], vals[m..]) == Zip(keys, vals)[m..];
    }
  }

  lemma GrowBranchOk(id: PageId, keys: seq<I64>, kids: seq<Tree>, newId: PageId, used: nat,
                     lo: int, hi: int, depth: nat, max: nat)
    requires 0 < |keys| <= max + 1 && max >= 2 && KidsOk(keys, kids, lo, hi, depth, max)
    ensures GrownOk(GrowBranch(id, keys, kids, newId, used, max), lo, hi, depth + 1, max)
  {
    if |keys| > max {
      CutKids(keys, kids, lo, hi, depth, max, |keys| / 2);
    }
  }

  ghost function GrownTrees(g: Grown): seq<Tree> {
    match g
    case Duplicate => []
    case Same(tree, _) => [tree]
    case Split(left, _, right, _) => [left, right]
  }

  // A branch that had child c replaced by what it grew into, as a row of children.
  ghost function GrownKids(kids: seq<Tree>, c: nat, g: Grown): seq<Tree>
    requires c < |kids|
  {
    kids[..c] + GrownTrees(g) + kids[c + 1..]
  }

  // Insert at a branch, in terms of the row of children it ends up with.
  lemma BranchGrown(t: Tree, k: I64, v: RowId, newId: PageId, max: nat)
    requires t.Branch? && Shaped(t)
    ensures Insert(t, k, v, newId, max) == GrowAt(t, UpperBound(t.keys, k), Insert(t.kids[UpperBound(t.keys, k)], k, v, newId, max), newId, max)
  {
    hide GrowBranch, UpperBound;
    var c := UpperBound(t.keys, k);
    var grown := Insert(t.kids[c], k, v, newId, max);
    if grown.Same? {
      SetAt(t.kids, c, grown.tree);
    }
  }

  // What a branch becomes once child c has grown.
  ghost function GrowAt(t: Tree, c: nat, grown: Grown, newId: PageId, max: nat): Grown
    requires t.Branch? && |t.kids| == |t.keys| + 1 && c <= |t.keys|
  {
    match grown
    case Duplicate => Duplicate
    case Same(_, used) => Same(Branch(t.id, t.keys, GrownKids(t.kids, c, grown)), used)
    case Split(_, separator, _, used) =>
      GrowBranch(t.id, t.keys[..c] + [separator] + t.keys[c..], GrownKids(t.kids, c, grown), newId + used, used, max)
  }

  lemma LeafInsertOk(t: Tree, k: I64, v: RowId, newId: PageId, lo: int, hi: int, max: nat)
    requires t.Leaf? && WellFormed(t, lo, hi, 0, max) && Shaped(t) && lo <= k < hi && max >= 2
    ensures GrownOk(Insert(t, k, v, newId, max), lo, hi, 0, max)
  {
    hide Zip, Sorted, LowerBound, GrownOk, GrowLeaf;
    var i := LowerBound(t.keys, k);
    if i == |t.keys| || t.keys[i] != k {
      LeafInserted(t.keys, t.vals, k, v, lo, hi);
      GrowLeafOk(t.id, t.keys[..i] + [k] + t.keys[i..], t.vals[..i] + [v] + t.vals[i..], t.next, newId, lo, hi, max);
    } else {
      assert Insert(t, k, v, newId, max) == Duplicate;
      DuplicateOk(lo, hi, max);
    }
  }

  lemma DuplicateOk(lo: int, hi: int, max: nat)
    ensures forall depth: nat :: GrownOk(Duplicate, lo, hi, depth, max)
  {}

  lemma GrowAtOk(t: Tree, c: nat, grown: Grown, newId: PageId, lo: int, hi: int, depth: nat, max: nat)
    requires t.Branch? && WellFormed(t, lo, hi, depth + 1, max) && c <= |t.keys| && max >= 2
    requires GrownOk(grown, Lo(t.keys, lo, c), Hi(t.keys, hi, c), depth, max)
    ensures GrownOk(GrowAt(t, c, grown, newId, max), lo, hi, depth + 1, max)
  {
    var keys, kids := t.keys, t.kids;
    if grown.Same? {
      ReplaceKid(keys, kids, lo, hi, depth, max, c, grown.tree);
      SetAt(kids, c, grown.tree);
    } else if grown.Split? {
      SplitKid(keys, kids, lo, hi, depth, max, c, grown.left, grown.separator, grown.right);
      hide WellFormed, GrowBranch, KidsOk;
      GrowBranchOk(t.id, keys[..c] + [grown.separator] + keys[c..], GrownKids(kids, c, grown),
                   newId + grown.used, grown.used, lo, hi, depth, max);
    }
  }

  // An insertion keeps the tree well-formed: a split leaves two halves around the separator.
  lemma {:induction false} InsertOk(t: Tree, k: I64, v: RowId, newId: PageId, lo: int, hi: int, depth: nat, max: nat)
    requires WellFormed(t, lo, hi, depth, max) && Shaped(t) && lo <= k < hi && max >= 2
    ensures GrownOk(Insert(t, k, v, newId, max), lo, hi, depth, max)
    decreases depth
  {
    hide Insert, GrowAt, GrownOk, Zip, Sorted, Within;
    if t.Leaf? {
      LeafInsertOk(t, k, v, newId, lo, hi, max);
    } else {
      var c := UpperBound(t.keys, k);
      BranchGrown(t, k, v, newId, max);
      AroundKid(t.keys, t.kids, lo, hi, depth - 1, max, k);
      InsertOk(t.kids[c], k, v, newId, Lo(t.keys, lo, c), Hi(t.keys, hi, c), depth - 1, max);
      GrowAtOk(t, c, Insert(t.kids[c], k, v, newId, max), newId, lo, hi, depth - 1, max);
    }
  }

  // ---------- Entries after an insertion ----------

  lemma TwoEntries(l: Tree, r: Tree)
    ensures ForestEntries([l, r]) == Entries(l) + Entries(r)
  {
    assert [l, r] == [l] + [r];
    ForestEntriesConcat([l], [r]);
    ForestEntriesOne(l);
    ForestEntriesOne(r);
  }

  lemma GrowBranchEntries(id: PageId, keys: seq<I64>, kids: seq<Tree>, newId: PageId, used: nat, max: nat)
    requires |kids| == |keys| + 1 && |keys| > 0
    ensures ForestEntries(GrownTrees(GrowBranch(id, keys, kids, newId, used, max))) == ForestEntries(kids)
  {
    if |keys| <= max {
      ForestEntriesOne(Branch(id, keys, kids));
    } else {
      var m := |keys| / 2;
      assert kids == kids[..m + 1] + kids[m + 1..];
      ForestEntriesConcat(kids[..m + 1], kids[m + 1..]);
      TwoEntries(Branch(id, keys[..m], kids[..m + 1]), Branch(newId, keys[m + 1..], kids[m + 1..]));
    }
  }

  lemma GrowLeafEntries(id: PageId, keys: seq<I64>, vals: seq<RowId>, next: Option<PageId>, newId: PageId, max: nat)
    requires 0 < |keys| == |vals|
    ensures ForestEntries(GrownTrees(GrowLeaf(id, keys, vals, next, newId, max))) == Zip(keys, vals)
    ensures !GrowLeaf(id, keys, vals, next, newId, max).Duplicate?
  {
    if |keys| <= max {
      ForestEntriesOne(Leaf(id, keys, vals, next));
    } else {
      var m := |keys| / 2;
      TwoEntries(Leaf(id, keys[..m], vals[..m], Some(newId)), Leaf(newId, keys[m..], vals[m..], next));
      assert Zip(keys, vals) == Zip(keys[..m], vals[..m]) + Zip(keys[m..], vals[m..]);
    }
  }

  lemma ZipSplit(keys: seq<I64>, vals: seq<RowId>, i: nat, k: I64)
    requires |keys| == |vals| && i <= |keys|
    requires forall j :: 0 <= j < i ==> keys[j] < k
    ensures Zip(keys, vals) == Zip(keys, vals)[..i] + Zip(keys, vals)[i..]
    ensures Below(Zip(keys, vals)[..i], k)
    ensures (forall j :: i <= j < |keys| ==> k < keys[j]) ==> Above(Zip(keys, vals)[i..], k)
  {}

  lemma LeafGet(keys: seq<I64>, vals: seq<RowId>, k: I64)
    requires |keys| == |vals| && Sorted(keys)
    ensures var i := LowerBound(keys, k);
      Get(Zip(keys, vals), k) == if i < |keys| && keys[i] == k then Some(vals[i]) else None
  {
    var i := LowerBound(keys, k);
    var es := Zip(keys, vals);
    ZipSplit(keys, vals, i, k);
    GetConcat(es[..i], es[i..], k);
    OneSided(es[..i], k);
    if i < |keys| && keys[i] == k {
      assert es[i..][0] == (k, vals[i]);
    } else {
      OneSided(es[i..], k);
    }
  }

  lemma LeafPut(keys: seq<I64>, vals: seq<RowId>, k: I64, v: RowId)
    requires |keys| == |vals| && Sorted(keys)
    requires LowerBound(keys, k) == |keys| || keys[LowerBound(keys, k)] != k
    ensures var i := LowerBound(keys, k);
      Zip(keys[..i] + [k] + keys[i..], vals[..i] + [v] + vals[i..]) == Put(Zip(keys, vals), k, v)
  {
    hide Zip, Below, Above, Put;
    var i := LowerBound(keys, k);
    var es := Zip(keys, vals);
    ZipSplit(keys, vals, i, k);
    PutAfter(es[..i], es[i..], k, v);
    PutFront(es[i..], k, v);
    ZipInserted(keys, vals, k, v, i);
    Assoc(es[..i], [(k, v)], es[i..]);
  }

  lemma PutFront(es: seq<Entry>, k: I64, v: RowId)
    requires Above(es, k)
    ensures Put(es, k, v) == [(k, v)] + es
  {}

  lemma LeafInsertEntries(t: Tree, k: I64, v: RowId, newId: PageId, lo: int, hi: int, max: nat)
    requires t.Leaf? && WellFormed(t, lo, hi, 0, max) && Shaped(t) && lo <= k < hi
    ensures Insert(t, k, v, newId, max).Duplicate? <==> Get(Entries(t), k).Some?
    ensures !Insert(t, k, v, newId, max).Duplicate? ==>
      ForestEntries(GrownTrees(Insert(t, k, v, newId, max))) == Put(Entries(t), k, v)
  {
    hide Get, Put, Zip, ForestEntries, LowerBound, GrowLeaf;
    var i := LowerBound(t.keys, k);
    LeafGet(t.keys, t.vals, k);
    if !(i < |t.keys| && t.keys[i] == k) {
      LeafPut(t.keys, t.vals, k, v);
      GrowLeafEntries(t.id, t.keys[..i] + [k] + t.keys[i..], t.vals[..i] + [v] + t.vals[i..], t.next, newId, max);
    }
  }

  // The same for a branch once it holds for the child the key belongs to.
  lemma BranchInsertEntries(t: Tree, k: I64, v: RowId, newId: PageId, lo: int, hi: int, depth: nat, max: nat, c: nat, grown: Grown)
    requires t.Branch? && WellFormed(t, lo, hi, depth, max) && lo <= k < hi && c == UpperBound(t.keys, k)
    requires grown.Duplicate? <==> Get(Entries(t.kids[c]), k).Some?
    requires !grown.Duplicate? ==> ForestEntries(GrownTrees(grown)) == Put(Entries(t.kids[c]), k, v)
    ensures GrowAt(t, c, grown, newId, max).Duplicate? <==> Get(Entries(t), k).Some?
    ensures !grown.Duplicate? ==> ForestEntries(GrownTrees(GrowAt(t, c, grown, newId, max))) == Put(Entries(t), k, v)
  {
    hide Get, Put, ForestEntries, GrowAt, GrownKids, GrownTrees, UpperBound;
    AroundKid(t.keys, t.kids, lo, hi, depth - 1, max, k);
    GetInKid(t.keys, t.kids, lo, hi, depth - 1, max, k);
    GrowAtDuplicate(t, c, grown, newId, max);
    if !grown.Duplicate? {
      KidInsertEntries(t.kids, k, v, c, grown);
      GrowAtEntries(t, c, grown, newId, max);
    }
  }

  // An insertion fails exactly when the key is present, and otherwise puts just the new entry in place.
  lemma {:induction false} InsertEntries(t: Tree, k: I64, v: RowId, newId: PageId, lo: int, hi: int, depth: nat, max: nat)
    requires WellFormed(t, lo, hi, depth, max) && Shaped(t) && lo <= k < hi
    ensures Insert(t, k, v, newId, max).Duplicate? <==> Get(Entries(t), k).Some?
    ensures !Insert(t, k, v, newId, max).Duplicate? ==>
      ForestEntries(GrownTrees(Insert(t, k, v, newId, max))) == Put(Entries(t), k, v)
    decreases depth
  {
    hide Get, Put, Insert, Entries, ForestEntries, GrowAt, GrownTrees, UpperBound;
    if t.Leaf? {
      LeafInsertEntries(t, k, v, newId, lo, hi, max);
    } else {
      var c := UpperBound(t.keys, k);
      AroundKid(t.keys, t.kids, lo, hi, depth - 1, max, k);
      InsertEntries(t.kids[c], k, v, newId, Lo(t.keys, lo, c), Hi(t.keys, hi, c), depth - 1, max);
      BranchGrown(t, k, v, newId, max);
      BranchInsertEntries(t, k, v, newId, lo, hi, depth, max, c, Insert(t.kids[c], k, v, newId, max));
      GrowAtDuplicate(t, c, Insert(t.kids[c], k, v, newId, max), newId, max);
    }
  }

  lemma GrowAtDuplicate(t: Tree, c: nat, grown: Grown, newId: PageId, max: nat)
    requires t.Branch? && |t.kids| == |t.keys| + 1 && c <= |t.keys|
    ensures GrowAt(t, c, grown, newId, max).Duplicate? <==> grown.Duplicate?
  {}

  lemma KidInsertEntries(kids: seq<Tree>, k: I64, v: RowId, c: nat, grown: Grown)
    requires c < |kids|
    requires Below(ForestEntries(kids[..c]), k)
    requires Above(ForestEntries(kids[c + 1..]), k)
    requires ForestEntries(GrownTrees(grown)) == Put(Entries(kids[c]), k, v)
    ensures ForestEntries(GrownKids(kids, c, grown)) == Put(ForestEntries(kids), k, v)
  {
    hide Put, Below, Above, ForestEntries;
    EntriesReplaced(kids, c, GrownTrees(grown));
    EntriesAround(kids, c);
    var a, b := ForestEntries(kids[..c]), ForestEntries(kids[c + 1..]);
    PutAfter(a, Entries(kids[c]), k, v);
    PutBefore(a + Entries(kids[c]), b, k, v);
  }

  lemma GrowAtEntries(t: Tree, c: nat, grown: Grown, newId: PageId, max: nat)
    requires t.Branch? && |t.kids| == |t.keys| + 1 && c <= |t.keys| && !grown.Duplicate?
    ensures ForestEntries(GrownTrees(GrowAt(t, c, grown, newId, max))) == ForestEntries(GrownKids(t.kids, c, grown))
  {
    hide ForestEntries, GrowBranch;
    if grown.Same? {
      ForestEntriesOne(Branch(t.id, t.keys, GrownKids(t.kids, c, grown)));
    } else {
      GrowBranchEntries(t.id, t.keys[..c] + [grown.separator] + t.keys[c..], GrownKids(t.kids, c, grown),
                        newId + grown.used, grown.used, max);
    }
  }
}
