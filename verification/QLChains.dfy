/**
 Runs of the QL iteration as chains of states, with neither of the recursive
 loops in their definition: which sweeps were made for each eigenvalue, how
 many there can be, and how many there were when the iteration gives up.
 */
module QLChains {
  import opened QLSweep
  import opened QLOrder
  import opened QLRefinement

  /** Nothing is left to do for eigenvalue l: its block is one row. */
  ghost predicate Settled(st: State, l: nat)
    requires l < |st.d| == |st.e|
  {
    l + 1 == |st.d| || st.e[l] == 0.0
  }

  /** st' is the sweep of st over a block that is longer than one row. */
  ghost predicate SweepStep(ar: Arith, st: State, st': State, l: nat)
    requires Shaped(st, |st.d|) && l < |st.d|
  {
    !Settled(st, l) && st' == Sweep(ar, st, l, Split(st.d, st.e, l))
  }

  /** Each state is the sweep of the one before, over a block still longer than one row. */
  ghost predicate Chain(ar: Arith, c: seq<State>, n: nat, l: nat) {
    && |c| >= 1 && l < n && (forall t :: 0 <= t < |c| ==> Shaped(c[t], n))
    && forall t :: 0 < t < |c| ==> SweepStep(ar, c[t - 1], c[t], l)
  }

  ghost function Last<T>(c: seq<T>): T
    requires |c| >= 1
  {
    c[|c| - 1]
  }

  /** All sweeps for eigenvalue l: at most 30 that settle it, or 30 that do not. */
  ghost predicate Sweeps(ar: Arith, c: seq<State>, n: nat, l: nat, stopped: bool) {
    && Chain(ar, c, n, l) && |c| <= 31
    && (if stopped then |c| == 31 && !Settled(Last(c), l) else Settled(Last(c), l))
  }

  lemma SettledIffSplit(st: State, l: nat)
    requires l < |st.d| == |st.e|
    ensures Settled(st, l) <==> Split(st.d, st.e, l) == l
  {
  }

  /** The sweeps that lead from st to st'. */
  ghost predicate SweptTo(ar: Arith, st: State, st': State, n: nat, l: nat, stopped: bool) {
    exists c :: Sweeps(ar, c, n, l, stopped) && c[0] == st && Last(c) == st'
  }

  lemma {:induction false} IterateChain(ar: Arith, st: State, n: nat, l: nat, iteration: nat) returns (c: seq<State>)
    requires Shaped(st, n) && l < n && iteration <= 30
    ensures var o := Iterate(ar, st, l, iteration);
            && Chain(ar, c, n, l) && |c| <= 31 - iteration && c[0] == st && Last(c) == o.st
            && (o.Stopped? ==> |c| == 31 - iteration)
            && (o.Stopped? <==> !Settled(o.st, l))
    decreases 30 - iteration
  {
    hide Sweep;
    SettledIffSplit(st, l);
    var m := Split(st.d, st.e, l);
    c := [st];
    if m != l && iteration < 30 {
      var next := IterateChain(ar, Sweep(ar, st, l, m), n, l, iteration + 1);
      c := c + next;
    }
  }

  /** The iteration for one eigenvalue makes exactly 30 sweeps before it gives up, and no more than 30 otherwise. */
  lemma IterateSweeps(ar: Arith, st: State, n: nat, l: nat)
    requires Shaped(st, n) && l < n
    ensures SweptTo(ar, st, Iterate(ar, st, l, 0).st, n, l, Iterate(ar, st, l, 0).Stopped?)
  {
    var c := IterateChain(ar, st, n, l, 0);
  }

  // ---------- whole runs ----------

  /** What is done once eigenvalue l has settled: imtqlb puts it in its place, imtql2 nothing. */
  ghost function Placed(st: State, l: nat, insert: bool): State {
    if insert && Shaped(st, |st.d|) && |st.rows| == 1 && l < |st.d| then Inserted(st, l) else st
  }

  /** The state before the sweeps for eigenvalue l + k, or after all of them; cs[j] are the sweeps for l + j. */
  ghost function Before(st: State, cs: seq<seq<State>>, l: nat, k: nat, insert: bool): State
    requires k <= |cs|
  {
    if k == 0 || cs[k - 1] == [] then st else Placed(Last(cs[k - 1]), l + k - 1, insert)
  }

  /** The sweeps for eigenvalue l + k start where those before have led. */
  ghost predicate Follows(ar: Arith, st: State, n: nat, l: nat, insert: bool, cs: seq<seq<State>>, stopped: bool,
                          k: nat)
    requires k < |cs|
  {
    Sweeps(ar, cs[k], n, l + k, stopped && k + 1 == |cs|) && cs[k][0] == Before(st, cs, l, k, insert)
  }

  /**
   cs is a run from l on that leads from st to fin: the sweeps for one eigenvalue after another, all
   of them settled, or all but the last one, which was given up.
   */
  ghost predicate IsRun(ar: Arith, st: State, fin: State, n: nat, l: nat, insert: bool,
                        cs: seq<seq<State>>, stopped: bool) {
    && (if stopped then 1 <= |cs| <= n - l else |cs| == n - l)
    && (forall k :: 0 <= k < |cs| ==> Follows(ar, st, n, l, insert, cs, stopped, k))
    && (if stopped then Last(cs) != [] && fin == Last(Last(cs)) else fin == Before(st, cs, l, |cs|, insert))
  }

  /** A run goes on with the run from the next eigenvalue. */
  lemma RunStep(ar: Arith, st: State, fin: State, n: nat, l: nat, insert: bool, c: seq<State>,
                cs: seq<seq<State>>, stopped: bool)
    requires Sweeps(ar, c, n, l, false) && c[0] == st
    requires IsRun(ar, Placed(Last(c), l, insert), fin, n, l + 1, insert, cs, stopped)
    ensures IsRun(ar, st, fin, n, l, insert, [c] + cs, stopped)
  {
    SweepsNonempty(ar, c, n, l, false);
    hide Sweeps, Placed, Follows, Before;
    var st' := Placed(Last(c), l, insert);
    AllFollow(ar, st, st', n, l, insert, c, cs, stopped);
    if !stopped {
      if cs != [] {
        FollowsNonempty(ar, st', n, l + 1, insert, cs, stopped, |cs| - 1);
      }
      BeforeNext(st, st', c, cs, l, |cs| + 1, insert);
    }
  }

  lemma AllFollow(ar: Arith, st: State, st': State, n: nat, l: nat, insert: bool, c: seq<State>,
                  cs: seq<seq<State>>, stopped: bool)
    requires |c| >= 1 && Sweeps(ar, c, n, l, false) && c[0] == st && st' == Placed(Last(c), l, insert)
    requires stopped ==> cs != []
    requires var first := l + 1; forall k :: 0 <= k < |cs| ==> Follows(ar, st', n, first, insert, cs, stopped, k)
    ensures forall k :: 0 <= k < |[c] + cs| ==> Follows(ar, st, n, l, insert, [c] + cs, stopped, k)
  {
    hide Sweeps, Placed, Follows, Before;
    forall k | 0 <= k < |[c] + cs| ensures Follows(ar, st, n, l, insert, [c] + cs, stopped, k) {
      if k > 0 {
        if k > 1 {
          FollowsNonempty(ar, st', n, l + 1, insert, cs, stopped, k - 2);
        }
        FollowsNext(ar, st, st', n, l, insert, c, cs, stopped, k);
      } else {
        FollowsFirst(ar, st, n, l, insert, c, cs, stopped);
      }
    }
  }

  lemma FollowsFirst(ar: Arith, st: State, n: nat, l: nat, insert: bool, c: seq<State>, cs: seq<seq<State>>,
                     stopped: bool)
    requires Sweeps(ar, c, n, l, false) && c[0] == st && (stopped ==> cs != [])
    ensures Follows(ar, st, n, l, insert, [c] + cs, stopped, 0)
  {
    hide Sweeps, Placed;
  }

  lemma FollowsNonempty(ar: Arith, st: State, n: nat, l: nat, insert: bool, cs: seq<seq<State>>, stopped: bool, k: nat)
    requires k < |cs| && Follows(ar, st, n, l, insert, cs, stopped, k)
    ensures cs[k] != []
  {
  }

  lemma FollowsNext(ar: Arith, st: State, st': State, n: nat, l: nat, insert: bool, c: seq<State>,
                    cs: seq<seq<State>>, stopped: bool, k: nat)
    requires 0 < k <= |cs| && |c| >= 1 && st' == Placed(Last(c), l, insert)
    requires Follows(ar, st', n, l + 1, insert, cs, stopped, k - 1) && (k > 1 ==> cs[k - 2] != [])
    ensures Follows(ar, st, n, l, insert, [c] + cs, stopped, k)
  {
    BeforeNext(st, st', c, cs, l, k, insert);
    assert ([c] + cs)[k] == cs[k - 1] && l + 1 + (k - 1) == l + k;
    hide Sweeps, Placed, Before;
  }

  lemma BeforeNext(st: State, st': State, c: seq<State>, cs: seq<seq<State>>, l: nat, k: nat, insert: bool)
    requires 0 < k <= |cs| + 1 && |c| >= 1 && st' == Placed(Last(c), l, insert) && (k > 1 ==> cs[k - 2] != [])
    ensures Before(st, [c] + cs, l, k, insert) == Before(st', cs, l + 1, k - 1, insert)
  {
    if k > 1 {
      assert ([c] + cs)[k - 1] == cs[k - 2];
    }
  }

  lemma SweepsNonempty(ar: Arith, c: seq<State>, n: nat, l: nat, stopped: bool)
    requires Sweeps(ar, c, n, l, stopped)
    ensures |c| >= 1
  {
  }

  lemma {:induction false} SolveRun(ar: Arith, st: State, n: nat, l: nat) returns (cs: seq<seq<State>>)
    requires Shaped(st, n) && l <= n
    ensures var o := Solve(ar, st, l);
            && IsRun(ar, st, o.st, n, l, false, cs, o.Stopped?)
            && (o.Stopped? ==> o.l == l + |cs| - 1)
    decreases n - l
  {
    hide Iterate, Sweeps;
    cs := [];
    if l < n {
      var c := IterateChain(ar, st, n, l, 0);
      var o := Iterate(ar, st, l, 0);
      assert Sweeps(ar, c, n, l, o.Stopped?) by { SweepsIntro(ar, c, n, l, o.Stopped?); }
      if o.Stopped? {
        cs := [c];
      } else {
        cs := SolveRun(ar, o.st, n, l + 1);
        RunStep(ar, st, Solve(ar, st, l).st, n, l, false, c, cs, Solve(ar, st, l).Stopped?);
        cs := [c] + cs;
      }
    }
  }

  lemma SweepsIntro(ar: Arith, c: seq<State>, n: nat, l: nat, stopped: bool)
    requires Chain(ar, c, n, l) && |c| <= 31
    requires if stopped then |c| == 31 && !Settled(Last(c), l) else Settled(Last(c), l)
    ensures Sweeps(ar, c, n, l, stopped)
  {
  }

  lemma {:induction false} SolveBoundsRun(ar: Arith, st: State, n: nat, l: nat) returns (cs: seq<seq<State>>)
    requires SingleRow(st, n) && l <= n
    ensures var o := SolveBounds(ar, st, l);
            && IsRun(ar, st, o.st, n, l, true, cs, o.Stopped?)
            && (o.Stopped? ==> o.l == l + |cs| - 1)
    decreases n - l
  {
    hide Iterate, Sweeps, Inserted;
    cs := [];
    if l < n {
      var c := IterateChain(ar, st, n, l, 0);
      var o := Iterate(ar, st, l, 0);
      assert Sweeps(ar, c, n, l, o.Stopped?) by { SweepsIntro(ar, c, n, l, o.Stopped?); }
      if o.Stopped? {
        cs := [c];
      } else {
        cs := SolveBoundsRun(ar, Inserted(o.st, l), n, l + 1);
        RunStep(ar, st, SolveBounds(ar, st, l).st, n, l, true, c, cs, SolveBounds(ar, st, l).Stopped?);
        cs := [c] + cs;
      }
    }
  }

  // ---------- what the two routines deliver ----------

  /** A run of imtql2 from st: given up at eigenvalue ierr, or complete and then ordered. */
  ghost predicate RanVectors(ar: Arith, st: State, fin: State, n: nat, ierr: int) {
    exists cs, mid, stopped :: IsRun(ar, st, mid, n, 0, false, cs, stopped)
      && ierr == (if stopped then |cs| - 1 else 0)
      && Shaped(mid, |mid.d|) && fin == if stopped then mid else Order(mid, 1)
  }

  /** A run of imtqlb from st: given up at eigenvalue ierr, or complete, every eigenvalue put in its place. */
  ghost predicate RanBounds(ar: Arith, st: State, fin: State, n: nat, ierr: int) {
    exists cs, stopped :: IsRun(ar, st, fin, n, 0, true, cs, stopped) && ierr == if stopped then |cs| - 1 else 0
  }

  lemma SolveRuns(ar: Arith, st: State, n: nat)
    requires Shaped(st, n)
    ensures var o := Solve(ar, st, 0);
            RanVectors(ar, st, if o.Stopped? then o.st else Order(o.st, 1), n, if o.Stopped? then o.l else 0)
  {
    hide IsRun, Solve, Order;
    var cs := SolveRun(ar, st, n, 0);
  }

  lemma SolveBoundsRuns(ar: Arith, st: State, n: nat)
    requires SingleRow(st, n)
    ensures var o := SolveBounds(ar, st, 0);
            RanBounds(ar, st, o.st, n, if o.Stopped? then o.l else 0)
  {
    hide IsRun, SolveBounds;
    var cs := SolveBoundsRun(ar, st, n, 0);
  }

  // ---------- there is one run ----------

  lemma {:induction false} ChainsAgree(ar: Arith, c: seq<State>, c': seq<State>, n: nat, l: nat, t: nat)
    requires Chain(ar, c, n, l) && Chain(ar, c', n, l) && c[0] == c'[0] && t < |c| && t < |c'|
    ensures c[t] == c'[t]
  {
    if t > 0 {
      ChainsAgree(ar, c, c', n, l, t - 1);
    }
  }

  lemma NotYetSettled(ar: Arith, c: seq<State>, n: nat, l: nat, t: nat)
    requires Chain(ar, c, n, l) && t + 1 < |c|
    ensures !Settled(c[t], l)
  {
    assert SweepStep(ar, c[t + 1 - 1], c[t + 1], l);
  }

  lemma SweepsNoLonger(ar: Arith, c: seq<State>, c': seq<State>, n: nat, l: nat, stopped: bool, stopped': bool)
    requires Sweeps(ar, c, n, l, stopped) && Sweeps(ar, c', n, l, stopped') && c[0] == c'[0]
    ensures |c'| <= |c|
  {
    hide Sweep, Settled;
    if |c| < |c'| {
      NotYetSettled(ar, c', n, l, |c| - 1);
      ChainsAgree(ar, c, c', n, l, |c| - 1);
    }
  }

  lemma SweepsAgree(ar: Arith, c: seq<State>, c': seq<State>, n: nat, l: nat, stopped: bool, stopped': bool)
    requires Sweeps(ar, c, n, l, stopped) && Sweeps(ar, c', n, l, stopped') && c[0] == c'[0]
    ensures c == c' && stopped == stopped'
  {
    hide Sweep, Settled;
    SweepsNoLonger(ar, c, c', n, l, stopped, stopped');
    SweepsNoLonger(ar, c', c, n, l, stopped', stopped);
    forall t | 0 <= t < |c| ensures c[t] == c'[t] {
      ChainsAgree(ar, c, c', n, l, t);
    }
  }

  lemma {:induction false} RunsAgreeAt(ar: Arith, st: State, fin: State, fin': State, n: nat, l: nat, insert: bool,
                                       cs: seq<seq<State>>, cs': seq<seq<State>>, stopped: bool, stopped': bool, k: nat)
    requires IsRun(ar, st, fin, n, l, insert, cs, stopped) && IsRun(ar, st, fin', n, l, insert, cs', stopped')
    requires k < |cs| && k < |cs'|
    ensures cs[k] == cs'[k] && (stopped && k + 1 == |cs|) == (stopped' && k + 1 == |cs'|)
  {
    hide Sweeps, Placed;
    if k > 0 {
      RunsAgreeAt(ar, st, fin, fin', n, l, insert, cs, cs', stopped, stopped', k - 1);
    }
    assert Follows(ar, st, n, l, insert, cs, stopped, k) && Follows(ar, st, n, l, insert, cs', stopped', k);
    SweepsAgree(ar, cs[k], cs'[k], n, l + k, stopped && k + 1 == |cs|, stopped' && k + 1 == |cs'|);
  }

  lemma RunsAgree(ar: Arith, st: State, fin: State, fin': State, n: nat, l: nat, insert: bool,
                  cs: seq<seq<State>>, cs': seq<seq<State>>, stopped: bool, stopped': bool)
    requires IsRun(ar, st, fin, n, l, insert, cs, stopped) && IsRun(ar, st, fin', n, l, insert, cs', stopped')
    ensures cs == cs' && stopped == stopped' && fin == fin'
  {
    hide Placed, Sweeps;
    forall k | 0 <= k < |cs| && k < |cs'| ensures cs[k] == cs'[k]
      ensures (stopped && k + 1 == |cs|) == (stopped' && k + 1 == |cs'|)
    {
      RunsAgreeAt(ar, st, fin, fin', n, l, insert, cs, cs', stopped, stopped', k);
    }
    assert cs == cs';
  }

  /** The description of a run leaves nothing open: from one state there is one result and one exit. */
  lemma RanVectorsUnique(ar: Arith, st: State, fin: State, fin': State, n: nat, ierr: int, ierr': int)
    requires RanVectors(ar, st, fin, n, ierr) && RanVectors(ar, st, fin', n, ierr')
    ensures fin == fin' && ierr == ierr'
  {
    hide IsRun, Order, Shaped;
    var cs, mid, stopped :| IsRun(ar, st, mid, n, 0, false, cs, stopped)
      && ierr == (if stopped then |cs| - 1 else 0)
      && Shaped(mid, |mid.d|) && fin == if stopped then mid else Order(mid, 1);
    var cs', mid', stopped' :| IsRun(ar, st, mid', n, 0, false, cs', stopped')
      && ierr' == (if stopped' then |cs'| - 1 else 0)
      && Shaped(mid', |mid'.d|) && fin' == if stopped' then mid' else Order(mid', 1);
    RunsAgree(ar, st, mid, mid', n, 0, false, cs, cs', stopped, stopped');
  }

  lemma RanBoundsUnique(ar: Arith, st: State, fin: State, fin': State, n: nat, ierr: int, ierr': int)
    requires RanBounds(ar, st, fin, n, ierr) && RanBounds(ar, st, fin', n, ierr')
    ensures fin == fin' && ierr == ierr'
  {
    hide IsRun;
    var cs, stopped :| IsRun(ar, st, fin, n, 0, true, cs, stopped) && ierr == if stopped then |cs| - 1 else 0;
    var cs', stopped' :| IsRun(ar, st, fin', n, 0, true, cs', stopped') && ierr' == if stopped' then |cs'| - 1 else 0;
    RunsAgree(ar, st, fin, fin', n, 0, true, cs, cs', stopped, stopped');
  }
}
