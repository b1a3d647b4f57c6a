// Facts about cutting and joining sequences.
module Seqs {
  lemma SplitAt<T>(s: seq<T>, c: nat)
    requires c < |s|
    ensures s == s[..c] + [s[c]] + s[c + 1..]
  {}

  lemma SetAt<T>(s: seq<T>, c: nat, x: T)
    requires c < |s|
    ensures s[c := x] == s[..c] + [x] + s[c + 1..]
  {}

  lemma Assoc<T>(a: seq<T>, b: seq<T>, c: seq<T>)
    ensures (a + b) + c == a + (b + c)
  {}

  lemma CutFront<T>(s: seq<T>, a: nat, b: nat)
    requires a <= b <= |s|
    ensures s[a..][..b - a] == s[a..b]
  {}

  lemma CutBack<T>(s: seq<T>, a: nat, b: nat)
    requires a <= b <= |s|
    ensures s[a..][b - a..] == s[b..]
  {}

  lemma MiddleAt<T>(a: seq<T>, b: seq<T>, c: seq<T>, i: nat)
    requires i < |b|
    ensures (a + b + c)[|a| + i] == b[i]
  {}
}
