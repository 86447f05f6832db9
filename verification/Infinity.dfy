/**
 The infinite lists of infinity.js: a first element and a way to the next one.
 For the primes the way is a search with no bound in sight.
 */
module Infinity {
  import opened Primes

  datatype Generator = Successor | PrimeSearch

  datatype InfList = InfList(head: int, gen: Generator)

  /** The generators are only ever given positive numbers. */
  ghost predicate Usable(l: InfList) {
    l.head >= 1
  }

  const NAT: InfList := InfList(1, Successor)
  const PRIME: InfList := InfList(2, PrimeSearch)

  /** l' is what follows l. */
  ghost predicate Follows(l: InfList, l': InfList) {
    l'.gen == l.gen && match l.gen
      case Successor => l'.head == l.head + 1
      case PrimeSearch => NextPrime(l.head, l'.head)
  }

  /** The generator function of `prime`: trial division up to the square root, from prime + 1 on. */
  method SearchPrime(x: int) returns (prime: int)
    requires x >= 1
    ensures NextPrime(x, prime)
  {
    ghost var goal := NextPrimeExists(x);
    prime := x + 1;
    while true
      invariant x < prime <= goal && forall k :: x < k < prime ==> !IsPrime(k)
      decreases goal - prime
    {
      var i := 2;
      var composite := false;
      while i * i <= prime
        invariant 2 <= i && (forall d :: 2 <= d < i ==> !Divides(d, prime))
        decreases prime - i
      {
        RemainderZero(prime, i);
        if prime % i == 0 {
          composite := true;
          break;
        }
        SquareAbove(i);
        i := i + 1;
      }
      if !composite {
        TrialDivision(prime, i);
        return;
      }
      NotPrime(prime, i);
      prime := prime + 1;
    }
  }

  lemma SquareAbove(i: int)
    requires i >= 2
    ensures i * i >= 2 * i
  {
  }

  lemma NotPrime(n: int, d: int)
    requires 2 <= d && d * d <= n && Divides(d, n)
    ensures !IsPrime(n)
  {
    SquareAbove(d);
  }

  method Next(n: InfList) returns (l: InfList)
    requires Usable(n)
    ensures Usable(l) && Follows(n, l)
  {
    match n.gen
    case Successor => l := InfList(n.head + 1, Successor);
    case PrimeSearch =>
      var q := SearchPrime(n.head);
      l := InfList(q, PrimeSearch);
  }

  /** The elements of the list, by index. */
  ghost function Nth(l: InfList, k: nat): (m: InfList)
    requires Usable(l)
    ensures Usable(m) && m.gen == l.gen
  {
    if k == 0 then l else Following(Nth(l, k - 1))
  }

  ghost function Following(l: InfList): (m: InfList)
    requires Usable(l)
    ensures Usable(m) && Follows(l, m)
  {
    FollowingExists(l);
    var m :| Follows(l, m);
    m
  }

  lemma FollowingExists(l: InfList)
    requires Usable(l)
    ensures exists m :: Follows(l, m)
  {
    match l.gen
    case Successor =>
      assert Follows(l, InfList(l.head + 1, Successor));
    case PrimeSearch =>
      var q := NextPrimeExists(l.head);
      assert Follows(l, InfList(q, PrimeSearch));
  }

  lemma FollowsUnique(l: InfList, m: InfList)
    requires Usable(l) && Follows(l, m)
    ensures m == Following(l)
  {
    if l.gen == PrimeSearch {
      NextPrimeUnique(l.head, m.head, Following(l).head);
    }
  }

  method Pos(ix: nat, l: InfList) returns (x: int)
    requires Usable(l)
    ensures x == Nth(l, ix).head
  {
    var n := l;
    var i := 0;
    while i < ix
      invariant i <= ix && n == Nth(l, i)
    {
      var n' := Next(n);
      FollowsUnique(n, n');
      n := n';
      i := i + 1;
    }
    return n.head;
  }

  method Take(n: nat, l: InfList) returns (ary: seq<int>)
    requires Usable(l)
    ensures |ary| == n && forall k :: 0 <= k < n ==> ary[k] == Nth(l, k).head
  {
    hide Following, NextPrime;
    ary := [];
    var inflist := l;
    var i := 0;
    while i < n
      invariant i <= n && |ary| == i && inflist == Nth(l, i)
      invariant forall k :: 0 <= k < i ==> ary[k] == Nth(l, k).head
    {
      ary := ary + [inflist.head];
      var rest := Next(inflist);
      FollowsUnique(inflist, rest);
      inflist := rest;
      i := i + 1;
    }
  }

  /** The stream nat counts from one. */
  lemma {:induction false} Naturals(k: nat)
    ensures Nth(NAT, k).head == k + 1
  {
    if k > 0 {
      Naturals(k - 1);
      assert Follows(Nth(NAT, k - 1), Nth(NAT, k));
    }
  }

  /** The k-th prime, as the stream has it. */
  ghost function PrimeAt(k: nat): int {
    Nth(PRIME, k).head
  }

  lemma {:induction false} PrimesAscend(j: nat, k: nat)
    requires j < k
    ensures PrimeAt(j) < PrimeAt(k)
  {
    assert Follows(Nth(PRIME, k - 1), Nth(PRIME, k));
    if j < k - 1 {
      PrimesAscend(j, k - 1);
    }
  }

  /** Every element is prime, and every prime up to one of them came no later. */
  lemma {:induction false} PrimesComplete(k: nat)
    ensures IsPrime(PrimeAt(k)) && PrimeAt(k) >= k + 2
    ensures forall p :: IsPrime(p) && p <= PrimeAt(k) ==> exists j :: 0 <= j <= k && p == PrimeAt(j)
  {
    if k == 0 {
      TwoIsPrime();
      assert PrimeAt(0) == 2;
    } else {
      PrimesComplete(k - 1);
      var a, b := Nth(PRIME, k - 1), Nth(PRIME, k);
      assert Follows(a, b);
      assert NextPrime(a.head, b.head);
      assert a.head == PrimeAt(k - 1) && b.head == PrimeAt(k);
      forall p | IsPrime(p) && p <= PrimeAt(k) ensures exists j :: 0 <= j <= k && p == PrimeAt(j) {
        if p <= PrimeAt(k - 1) {
          var j :| 0 <= j <= k - 1 && p == PrimeAt(j);
        } else {
          assert p == PrimeAt(k);
        }
      }
    }
  }

  lemma TwoIsPrime()
    ensures IsPrime(2)
  {
  }

  /** The stream is the primes, all of them, in order. */
  lemma PrimeStream(p: int)
    ensures IsPrime(p) <==> exists k: nat :: p == PrimeAt(k)
  {
    if IsPrime(p) {
      PrimesComplete(p);
    }
    if exists k: nat :: p == PrimeAt(k) {
      var k: nat :| p == PrimeAt(k);
      PrimesComplete(k);
    }
  }
}
