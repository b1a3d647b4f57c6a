// Comparing two states of the pages a pool shows.
module Views {
  import opened Bytes

  // Page `id` reads the same in both views.
  ghost predicate SamePage(v: seq<Page>, w: seq<Page>, id: nat) {
    id < |v| && id < |w| && v[id] == w[id]
  }

  ghost predicate SameOn(v: seq<Page>, w: seq<Page>, ids: set<nat>) {
    forall id :: id in ids ==> SamePage(v, w, id)
  }

  // Only pages among `ids`, and pages allocated since, may differ.
  ghost predicate Untouched(v: seq<Page>, w: seq<Page>, ids: set<nat>) {
    |v| <= |w| && forall id: nat {:trigger w[id]} :: id < |v| && id !in ids ==> w[id] == v[id]
  }

  lemma UntouchedSame(v: seq<Page>, ids: set<nat>)
    ensures Untouched(v, v, ids)
  {}

  lemma UntouchedTwice(u: seq<Page>, v: seq<Page>, w: seq<Page>, a: set<nat>, b: set<nat>, all: set<nat>)
    requires Untouched(u, v, a) && Untouched(v, w, b) && a <= all && b <= all
    ensures Untouched(u, w, all)
  {
    forall id: nat | id < |u| && id !in all
      ensures w[id] == u[id]
    {
      assert v[id] == u[id];
    }
  }
}
