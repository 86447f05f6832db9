/** Exchanges, pairs and order in sequences. */
module Sequences {

  function Swapped<T>(s: seq<T>, i: nat, k: nat): (t: seq<T>)
    requires i < |s| && k < |s|
    ensures |t| == |s|
  {
    s[i := s[k]][k := s[i]]
  }

  function Zip<A, B>(a: seq<A>, b: seq<B>): (z: seq<(A, B)>)
    requires |a| == |b|
    ensures |z| == |a| && forall j :: 0 <= j < |a| ==> z[j] == (a[j], b[j])
  {
    seq(|a|, j requires 0 <= j < |a| => (a[j], b[j]))
  }

  lemma SwappedMultiset<T>(s: seq<T>, i: nat, k: nat)
    requires i < |s| && k < |s|
    ensures multiset(Swapped(s, i, k)) == multiset(s)
  {
  }

  lemma ZipSwapped<A, B>(a: seq<A>, b: seq<B>, i: nat, k: nat)
    requires |a| == |b| && i < |a| && k < |a|
    ensures multiset(Zip(Swapped(a, i, k), Swapped(b, i, k))) == multiset(Zip(a, b))
  {
    assert Zip(Swapped(a, i, k), Swapped(b, i, k)) == Swapped(Zip(a, b), i, k);
    SwappedMultiset(Zip(a, b), i, k);
  }

  ghost predicate Ascending(d: seq<real>) {
    forall i, j :: 0 <= i < j < |d| ==> d[i] <= d[j]
  }
}
