/**
 svd_dsort2: Shell sort of the first array with the second carried along, the gap halved by
 recursion. Every pass leaves the first sorted at distance gap; the last has gap 1.
 */
module ShellSort {
  import opened Sequences

  /** Sorted at distance gap, up to (not including) index b. */
  ghost predicate GapSorted(v: seq<real>, gap: nat, b: int) {
    forall k :: 0 <= k && k + gap < b && k + gap < |v| ==> v[k] <= v[k + gap]
  }

  /** As above up to and including i, but for the entry at index, still on its way down. */
  ghost predicate Sinking(v: seq<real>, gap: nat, i: int, index: int) {
    && 0 <= index <= i < |v| && gap >= 1
    && (forall k :: 0 <= k && k + gap <= i && k + gap != index ==> v[k] <= v[k + gap])
    && (index - gap >= 0 && index + gap <= i ==> v[index - gap] <= v[index + gap])
  }

  lemma SinkStep(v: seq<real>, gap: nat, i: int, index: int)
    requires Sinking(v, gap, i, index) && index - gap >= 0 && v[index - gap] > v[index]
    ensures Sinking(Swapped(v, index - gap, index), gap, i, index - gap)
  {
    var w := Swapped(v, index - gap, index);
    forall k | 0 <= k && k + gap <= i && k + gap != index - gap ensures w[k] <= w[k + gap] {
      if k == index - gap {
      } else if k == index {
      } else {
        assert v[k] <= v[k + gap];
      }
    }
    if index - gap - gap >= 0 {
      assert v[index - gap - gap] <= v[index - gap - gap + gap];
    }
  }

  lemma SinkEnd(v: seq<real>, gap: nat, i: int, index: int)
    requires Sinking(v, gap, i, index) && (index - gap >= 0 ==> v[index - gap] <= v[index])
    ensures GapSorted(v, gap, i + 1)
  {
    forall k | 0 <= k && k + gap < i + 1 && k + gap < |v| ensures v[k] <= v[k + gap] {
      if k + gap == index {
      }
    }
  }

  lemma SinkStart(v: seq<real>, gap: nat, i: int)
    requires GapSorted(v, gap, i) && 1 <= gap <= i < |v|
    ensures Sinking(v, gap, i, i)
  {
  }

  lemma {:induction false} GapOneAscends(v: seq<real>, i: int, j: int)
    requires GapSorted(v, 1, |v|) && 0 <= i <= j < |v|
    ensures v[i] <= v[j]
    decreases j - i
  {
    if i < j {
      GapOneAscends(v, i, j - 1);
      assert v[j - 1] <= v[j - 1 + 1];
    }
  }

  lemma NothingYet(v: seq<real>, gap: nat)
    ensures GapSorted(v, gap, gap)
  {
  }

  lemma AllOfIt(v: seq<real>, gap: nat, i: int)
    requires GapSorted(v, gap, i) && i >= |v|
    ensures GapSorted(v, gap, |v|)
  {
  }

  /** The exchange in the innermost loop: entries j and index of both arrays. */
  method Exchange(n: nat, first: array<real>, second: array<real>, j: nat, index: nat)
    requires n <= first.Length && n <= second.Length && first != second && j < n && index < n
    modifies first, second
    ensures first[..n] == Swapped(old(first[..n]), j, index) && second[..n] == Swapped(old(second[..n]), j, index)
    ensures first[n..] == old(first[n..]) && second[n..] == old(second[n..])
  {
    var temp := first[j];
    first[j] := first[index];
    first[index] := temp;
    temp := second[j];
    second[j] := second[index];
    second[index] := temp;
  }

  /** One pass over the first n entries: the loops of svd_dsort2 for one gap. */
  method GapPass(igap: nat, n: nat, first: array<real>, second: array<real>)
    requires igap >= 1 && n <= first.Length && n <= second.Length && first != second
    modifies first, second
    ensures GapSorted(first[..n], igap, n)
    ensures multiset(Zip(first[..n], second[..n])) == multiset(old(Zip(first[..n], second[..n])))
    ensures first[n..] == old(first[n..]) && second[n..] == old(second[n..])
  {
    hide GapSorted, Sinking, Swapped, Zip;
    ghost var pairs := multiset(Zip(first[..n], second[..n]));
    NothingYet(first[..n], igap);
    var i := igap;
    while i < n
      invariant igap <= i && GapSorted(first[..n], igap, i)
      invariant multiset(Zip(first[..n], second[..n])) == pairs
      invariant first[n..] == old(first[n..]) && second[n..] == old(second[n..])
    {
      var j := i - igap;
      var index := i;
      SinkStart(first[..n], igap, i);
      while j >= 0 && first[j] > first[index]
        invariant index == j + igap && 0 <= index <= i && Sinking(first[..n], igap, i, index)
        invariant multiset(Zip(first[..n], second[..n])) == pairs
        invariant first[n..] == old(first[n..]) && second[n..] == old(second[n..])
        decreases index
      {
        SinkStep(first[..n], igap, i, index);
        ZipSwapped(first[..n], second[..n], j, index);
        Exchange(n, first, second, j, index);
        j := j - igap;
        index := j + igap;
      }
      SinkEnd(first[..n], igap, i, index);
      i := i + 1;
    }
    AllOfIt(first[..n], igap, i);
  }

  /** svd_dsort2 on the first n entries of both arrays. */
  method SvdDsort2(igap: nat, n: nat, first: array<real>, second: array<real>)
    requires n <= first.Length && n <= second.Length && first != second
    modifies first, second
    ensures igap >= 1 ==> Ascending(first[..n])
    ensures igap == 0 ==> first[..] == old(first[..]) && second[..] == old(second[..])
    ensures multiset(Zip(first[..n], second[..n])) == multiset(old(Zip(first[..n], second[..n])))
    ensures first[n..] == old(first[n..]) && second[n..] == old(second[n..])
    decreases igap
  {
    if igap == 0 {
      return;
    }
    GapPass(igap, n, first, second);
    if igap == 1 {
      GapOneSorts(first[..n]);
    }
    SvdDsort2(igap / 2, n, first, second);
  }

  lemma GapOneSorts(v: seq<real>)
    requires GapSorted(v, 1, |v|)
    ensures Ascending(v)
  {
    forall i, j | 0 <= i < j < |v| ensures v[i] <= v[j] {
      GapOneAscends(v, i, j);
    }
  }
}
