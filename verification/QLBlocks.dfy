/**
 When the iteration completes, from the off-diagonal alone: with an exact
 hypotenuse, exactly when no two neighbouring off-diagonal entries are nonzero.
 A block of two takes one sweep. A longer block loses at most its first row at
 a time and stays unreduced otherwise, so it comes down to a block of three,
 and that one never splits.
 */
module QLBlocks {
  import opened Reals
  import opened QLSweep
  import opened QLSimilarity
  import opened QLRuns
  import opened QLShift

  // ---------- sweeps, unfolded ----------

  lemma PassesStep(ar: Arith, st: State, k: Cursor, l: nat, i: nat)
    requires l <= i < |st.d| - 1 && Shaped(st, |st.d|) && PassRadius(ar, st.e, i, k) != 0.0
    ensures Passes(ar, st, k, l, i) == Passes(ar, PassState(ar, st, i, k), PassCursor(ar, st.d, st.e, i, k), l, i - 1)
  {
  }

  lemma PassesDone(ar: Arith, st: State, k: Cursor, l: nat)
    requires l <= |st.d| - 1 && Shaped(st, |st.d|)
    ensures Passes(ar, st, k, l, l - 1) == SweepEnd(st, k, l - 1, false)
  {
  }

  /** Passes without underflow leave positive radii behind. */
  lemma {:induction false} PassesPositive(ar: Arith, st: State, k: Cursor, l: nat, i: int, m: nat)
    requires Exact(ar) && l - 1 <= i < m < |st.d| && Shaped(st, |st.d|) && !Passes(ar, st, k, l, i).underflow
    ensures forall j :: i + 1 < j <= m ==> Passes(ar, st, k, l, i).st.e[j] == st.e[j]
    ensures forall j :: l < j <= i + 1 ==> Passes(ar, st, k, l, i).st.e[j] > 0.0
    decreases i - l + 1
  {
    hide PassCursor;
    if i >= l {
      RadiusIsHypotenuse(ar, st.e, i, k, Times(k.s, st.e[i]));
      PassesPositive(ar, PassState(ar, st, i, k), PassCursor(ar, st.d, st.e, i, k), l, i - 1, m);
    }
  }

  /** The block l..m is unreduced inside. */
  ghost predicate Unreduced(e: seq<real>, l: nat, m: nat) {
    l <= m < |e| && e[m] == 0.0 && forall j :: l <= j < m ==> e[j] != 0.0
  }

  lemma {:induction false} SplitUnreduced(d: seq<real>, e: seq<real>, l: nat, m: nat)
    requires |d| == |e| && Unreduced(e, l, m)
    ensures Split(d, e, l) == m
    decreases m - l
  {
    if l < m {
      SplitUnreduced(d, e, l + 1, m);
    }
  }

  lemma SplitIsUnreduced(d: seq<real>, e: seq<real>, l: nat)
    requires l < |d| == |e| && e[|e| - 1] == 0.0
    ensures Unreduced(e, l, Split(d, e, l))
  {
  }

  lemma NoUnderflow(ar: Arith, st: State, n: nat, l: nat, m: nat)
    requires Exact(ar) && Shaped(st, n) && l < m && Unreduced(st.e, l, m)
    ensures !Passes(ar, st, StartCursor(ar, st.d, st.e, l, m), l, m - 1).underflow
  {
    hide Shift;
    PassesNeverUnderflow(ar, st, StartCursor(ar, st.d, st.e, l, m), l, m - 1);
  }

  lemma {:induction false} PassesNeverUnderflow(ar: Arith, st: State, k: Cursor, l: nat, i: int)
    requires Exact(ar) && l - 1 <= i < |st.d| - 1 && Shaped(st, |st.d|)
    requires k.s != 0.0 && forall j :: l <= j <= i ==> st.e[j] != 0.0
    ensures !Passes(ar, st, k, l, i).underflow
    decreases i - l + 1
  {
    if i >= l {
      var f, r := Times(k.s, st.e[i]), PassRadius(ar, st.e, i, k);
      NonzeroProduct(k.s, st.e[i], f);
      RadiusIsHypotenuse(ar, st.e, i, k, f);
      RadiusNonzero(f, k.g, r);
      var k' := PassCursor(ar, st.d, st.e, i, k);
      RotationScalars(f, k.g, r, k'.s, k'.c);
      PassesNeverUnderflow(ar, PassState(ar, st, i, k), k', l, i - 1);
    }
  }

  /** A sweep leaves the inside of its block positive, but for the entry at l. */
  lemma SweepKeepsInside(ar: Arith, st: State, n: nat, l: nat, m: nat)
    requires Exact(ar) && Shaped(st, n) && l < m && Unreduced(st.e, l, m)
    ensures var st' := Sweep(ar, st, l, m);
            && Unreduced(st'.e, l + 1, m) && (forall j :: l < j < m ==> st'.e[j] > 0.0)
            && (forall j :: 0 <= j < n && (j < l || j > m) ==> st'.e[j] == st.e[j])
  {
    var k := StartCursor(ar, st.d, st.e, l, m);
    NoUnderflow(ar, st, n, l, m);
    PassesPositive(ar, st, k, l, m - 1, m);
    PassesFrame(ar, st, k, l, m, m - 1);
  }

  /** A block of two is finished in one sweep. */
  lemma SweepPair(ar: Arith, st: State, n: nat, l: nat)
    requires Exact(ar) && Shaped(st, n) && l + 1 < n && st.e[l] != 0.0
    ensures Sweep(ar, st, l, l + 1).e[l] == 0.0
  {
    hide Shift, NextCursor, Passes;
    var k := StartCursor(ar, st.d, st.e, l, l + 1);
    ShiftIsEigenvalue(ar, st.d, st.e, l, l + 1);
    var r := PassRadius(ar, st.e, l, k);
    RadiusIsHypotenuse(ar, st.e, l, k, st.e[l]);
    RadiusNonzero(st.e[l], k.g, r);
    var k' := PassCursor(ar, st.d, st.e, l, k);
    PassesStep(ar, st, k, l, l);
    PassesDone(ar, PassState(ar, st, l, k), k', l);
    PairConverges(ar, st.d[l], st.e[l], st.d[l + 1], k.g, r, k', ShiftValue(ar, st.d, st.e, l, l + 1));
  }

  /** A sweep of a block of three is two passes. */
  lemma SweepTriple(ar: Arith, st: State, n: nat, l: nat) returns (r1: real, k1: Cursor, r2: real, k2: Cursor)
    requires Exact(ar) && Shaped(st, n) && l + 2 < n && st.e[l] != 0.0 && st.e[l + 1] != 0.0
    ensures TwoPasses(ar, st.d[l], st.d[l + 1], st.d[l + 2], st.e[l], st.e[l + 1],
                      ShiftValue(ar, st.d, st.e, l, l + 2), r1, k1, r2, k2)
    ensures r1 == ar.hyp(Times(1.0, st.e[l + 1]), Shift(ar, st.d, st.e, l, l + 2))
    ensures r2 == ar.hyp(Times(k1.s, st.e[l]), k1.g)
    ensures var st' := Sweep(ar, st, l, l + 2);
            && st'.e == st.e[l := k2.g][l + 1 := r2][l + 2 := 0.0]
            && st'.d == st.d[l := st.d[l] - k2.p][l + 1 := st.d[l + 1] - k1.p + k2.p][l + 2 := st.d[l + 2] + k1.p]
  {
    hide Shift, NextCursor, Passes;
    var k := StartCursor(ar, st.d, st.e, l, l + 2);
    ShiftIsEigenvalue(ar, st.d, st.e, l, l + 2);
    r1 := PassRadius(ar, st.e, l + 1, k);
    k1 := PassCursor(ar, st.d, st.e, l + 1, k);
    RadiusIsHypotenuse(ar, st.e, l + 1, k, st.e[l + 1]);
    RadiusNonzero(st.e[l + 1], k.g, r1);
    var st1 := PassState(ar, st, l + 1, k);
    r2 := PassRadius(ar, st1.e, l, k1);
    k2 := PassCursor(ar, st1.d, st1.e, l, k1);
    var f := Times(k1.s, st.e[l]);
    CursorScalars(ar, st.d[l + 1], st.e[l + 1], st.d[l + 2], st.e[l + 1], k.g, r1, k1);
    NonzeroProduct(k1.s, st.e[l], f);
    RadiusIsHypotenuse(ar, st1.e, l, k1, f);
    RadiusNonzero(f, k1.g, r2);
    PassesStep(ar, st, k, l, l + 1);
    PassesStep(ar, st1, k1, l, l);
    PassesDone(ar, PassState(ar, st1, l, k1), k2, l);
    var st2, st' := PassState(ar, st1, l, k1), Sweep(ar, st, l, l + 2);
    assert st' == Settle(SweepEnd(st2, k2, l - 1, false), l, l + 2);
  }

  // ---------- the iteration for one eigenvalue ----------

  /** A block of three is given up. */
  lemma {:induction false} TripleStops(ar: Arith, st: State, n: nat, l: nat, iteration: nat)
    requires Exact(ar) && Shaped(st, n) && iteration <= 30 && l + 2 < n && Unreduced(st.e, l, l + 2)
    ensures Iterate(ar, st, l, iteration).Stopped?
    decreases 30 - iteration
  {
    hide Sweep;
    SplitUnreduced(st.d, st.e, l, l + 2);
    if iteration < 30 {
      SweepKeepsInside(ar, st, n, l, l + 2);
      var r1, k1, r2, k2 := SweepTriple(ar, st, n, l);
      TripleStays(ar, st.d[l], st.d[l + 1], st.d[l + 2], st.e[l], st.e[l + 1],
                  ShiftValue(ar, st.d, st.e, l, l + 2), r1, k1, r2, k2);
      TripleStops(ar, Sweep(ar, st, l, l + 2), n, l, iteration + 1);
    }
  }

  /** A block of two is not. */
  lemma PairCompletes(ar: Arith, st: State, n: nat, l: nat)
    requires Exact(ar) && Shaped(st, n) && l + 1 < n && Unreduced(st.e, l, l + 1)
    ensures var o := Iterate(ar, st, l, 0);
            && o.Completed? && o.st == Sweep(ar, st, l, l + 1)
            && o.st.e[l] == o.st.e[l + 1] == 0.0
            && (forall j :: l + 1 < j < n ==> o.st.e[j] == st.e[j])
  {
    hide Sweep;
    var st' := Sweep(ar, st, l, l + 1);
    SplitUnreduced(st.d, st.e, l, l + 1);
    SweepPair(ar, st, n, l);
    SweepKeepsInside(ar, st, n, l, l + 1);
    SplitUnreduced(st'.d, st'.e, l, l);
  }

  /** Any longer block: if its first entry goes, the rest of it is still unreduced. */
  lemma {:induction false} BlockShrinks(ar: Arith, st: State, n: nat, l: nat, m: nat, iteration: nat)
    requires Exact(ar) && Shaped(st, n) && iteration <= 30 && l < m && Unreduced(st.e, l + 1, m)
    ensures var o := Iterate(ar, st, l, iteration);
            && o.st.e[m] == 0.0 && (forall j :: l < j < m ==> o.st.e[j] != 0.0)
            && (forall j :: m < j < n ==> o.st.e[j] == st.e[j])
    decreases 30 - iteration
  {
    hide Sweep;
    if st.e[l] == 0.0 {
      SplitUnreduced(st.d, st.e, l, l);
    } else {
      SplitUnreduced(st.d, st.e, l, m);
      if iteration < 30 {
        SweepKeepsInside(ar, st, n, l, m);
        BlockShrinks(ar, Sweep(ar, st, l, m), n, l, m, iteration + 1);
      }
    }
  }

  // ---------- the whole iteration ----------

  /** Two neighbouring nonzero entries of e, from l on. */
  ghost predicate Joined(e: seq<real>, l: nat, j: nat) {
    l <= j && j + 1 < |e| && e[j] != 0.0 && e[j + 1] != 0.0
  }

  ghost predicate HasJoined(e: seq<real>, l: nat) {
    exists j :: Joined(e, l, j)
  }

  lemma JoinedStep(ar: Arith, st: State, n: nat, l: nat)
    requires Exact(ar) && Shaped(st, n) && l < n && st.e[n - 1] == 0.0
    ensures var o := Iterate(ar, st, l, 0);
            && o.st.e[n - 1] == 0.0
            && (HasJoined(st.e, l) ==> o.Stopped? || HasJoined(o.st.e, l + 1))
            && (!HasJoined(st.e, l) ==> o.Completed? && !HasJoined(o.st.e, l + 1))
  {
    hide Iterate, Sweep;
    var m := Split(st.d, st.e, l);
    SplitIsUnreduced(st.d, st.e, l);
    var o := Iterate(ar, st, l, 0);
    if m == l {
      IterateNothing(ar, st, n, l);
      ShorterTail(st.e, o.st.e, l, l);
    } else if m == l + 1 {
      PairCompletes(ar, st, n, l);
      ShorterTail(st.e, o.st.e, l, m);
    } else {
      assert Joined(st.e, l, l);
      if m == l + 2 {
        TripleStops(ar, st, n, l, 0);
      }
      BlockShrinks(ar, st, n, l, m, 0);
      if m > l + 2 {
        assert Joined(o.st.e, l + 1, l + 1);
      }
    }
  }

  lemma IterateNothing(ar: Arith, st: State, n: nat, l: nat)
    requires Shaped(st, n) && l < n && Split(st.d, st.e, l) == l
    ensures Iterate(ar, st, l, 0) == Completed(st)
  {
  }

  /** With e zero at m, and after the step at l as well, only what lies above m counts. */
  lemma ShorterTail(e: seq<real>, e': seq<real>, l: nat, m: nat)
    requires |e| == |e'| && l <= m <= l + 1 && m < |e| && e[m] == 0.0 && e'[m] == 0.0
    requires forall j :: m < j < |e| ==> e'[j] == e[j]
    ensures HasJoined(e, l) <==> HasJoined(e', l + 1)
  {
    if HasJoined(e, l) {
      var j :| Joined(e, l, j);
      assert Joined(e', l + 1, j);
    }
    if HasJoined(e', l + 1) {
      var j :| Joined(e', l + 1, j);
      assert Joined(e, l, j);
    }
  }

  lemma NoneJoined(e: seq<real>, l: nat)
    requires |e| <= l
    ensures !HasJoined(e, l)
  {
  }

  /**
   With an exact hypotenuse the outer loop completes exactly when no two
   neighbouring off-diagonal entries are nonzero.
   */
  lemma {:induction false} CompletesIff(ar: Arith, st: State, n: nat, l: nat)
    requires Exact(ar) && Shaped(st, n) && n >= 1 && l <= n && st.e[n - 1] == 0.0
    ensures Solve(ar, st, l).Completed? <==> !HasJoined(st.e, l)
    decreases n - l
  {
    hide Iterate;
    if l < n {
      JoinedStep(ar, st, n, l);
      var o := Iterate(ar, st, l, 0);
      if o.Completed? {
        CompletesIff(ar, o.st, n, l + 1);
      }
    } else {
      NoneJoined(st.e, l);
    }
  }
}
