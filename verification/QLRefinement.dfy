/**
 imtqlb against imtql2. The rotations treat the rows one by one, and a sweep of
 l..m neither reads nor writes anything below l; so imtqlb, which keeps one row
 and reorders the settled part as it goes, computes the same pairs.
 */
module QLRefinement {
  import opened Sequences
  import opened LinearAlgebra
  import opened QLSweep
  import opened QLOrder
  import opened QLRuns
  import opened QLTheorems

  // ---------- one row at a time ----------

  /** The state that keeps only row r. */
  function Only(st: State, r: nat): State
    requires r < |st.rows|
  {
    State(st.d, st.e, [st.rows[r]])
  }

  lemma {:induction false} PassesRowwise(ar: Arith, st: State, r: nat, k: Cursor, l: nat, i: int)
    requires l - 1 <= i < |st.d| - 1 && Shaped(st, |st.d|) && r < |st.rows|
    ensures var end := Passes(ar, st, k, l, i);
            Passes(ar, Only(st, r), k, l, i) == end.(st := Only(end.st, r))
    decreases i - l + 1
  {
    hide PassRadius, PassCursor;
    if i >= l && PassRadius(ar, st.e, i, k) != 0.0 {
      assert PassState(ar, Only(st, r), i, k) == Only(PassState(ar, st, i, k), r);
      PassesRowwise(ar, PassState(ar, st, i, k), r, PassCursor(ar, st.d, st.e, i, k), l, i - 1);
    }
  }

  lemma {:induction false} IterateRowwise(ar: Arith, st: State, r: nat, l: nat, iteration: nat)
    requires Shaped(st, |st.d|) && l < |st.d| && iteration <= 30 && r < |st.rows|
    ensures var o := Iterate(ar, st, l, iteration);
            Iterate(ar, Only(st, r), l, iteration) == o.(st := Only(o.st, r))
    decreases 30 - iteration
  {
    hide Passes, Shift;
    var m := Split(st.d, st.e, l);
    if m != l && iteration < 30 {
      PassesRowwise(ar, st, r, StartCursor(ar, st.d, st.e, l, m), l, m - 1);
      assert Sweep(ar, Only(st, r), l, m) == Only(Sweep(ar, st, l, m), r);
      IterateRowwise(ar, Sweep(ar, st, l, m), r, l, iteration + 1);
    }
  }

  /** Running on one row gives that row of the full run, with the same diagonal and the same exit. */
  lemma {:induction false} SolveRowwise(ar: Arith, st: State, r: nat, l: nat)
    requires Shaped(st, |st.d|) && l <= |st.d| && r < |st.rows|
    ensures var o := Solve(ar, st, l);
            Solve(ar, Only(st, r), l) == o.(st := Only(o.st, r))
    decreases |st.d| - l
  {
    hide Iterate;
    if l < |st.d| {
      IterateRowwise(ar, st, r, l, 0);
      var o := Iterate(ar, st, l, 0);
      if o.Completed? {
        SolveRowwise(ar, o.st, r, l + 1);
      }
    }
  }

  // ---------- nothing below l matters ----------

  ghost predicate SingleRow(st: State, n: nat) {
    Shaped(st, n) && |st.rows| == 1
  }

  /** Two one-row states that differ at most below l. */
  ghost predicate AgreeFrom(st: State, st': State, n: nat, l: nat) {
    && SingleRow(st, n) && SingleRow(st', n)
    && st.e == st'.e
    && forall j :: l <= j < n ==> st.d[j] == st'.d[j] && st.rows[0][j] == st'.rows[0][j]
  }

  ghost predicate SameBelow(st: State, st': State, n: nat, l: nat) {
    && SingleRow(st, n) && SingleRow(st', n)
    && forall j :: 0 <= j < n && j < l ==> st.d[j] == st'.d[j] && st.rows[0][j] == st'.rows[0][j]
  }

  lemma {:induction false} PassesAgree(ar: Arith, st: State, st': State, n: nat, k: Cursor, l: nat, i: int)
    requires AgreeFrom(st, st', n, l) && l - 1 <= i < n - 1
    ensures var end, end' := Passes(ar, st, k, l, i), Passes(ar, st', k, l, i);
            && AgreeFrom(end.st, end'.st, n, l) && end.k == end'.k && end.i == end'.i
            && end.underflow == end'.underflow && SameBelow(st, end.st, n, l)
    decreases i - l + 1
  {
    hide PassRadius, NextCursor, Low, High;
    if i >= l && PassRadius(ar, st.e, i, k) != 0.0 {
      PassesAgree(ar, PassState(ar, st, i, k), PassState(ar, st', i, k), n, PassCursor(ar, st.d, st.e, i, k), l, i - 1);
    }
  }

  lemma {:induction false} SplitAgree(st: State, st': State, n: nat, l: nat)
    requires AgreeFrom(st, st', n, l) && l < n
    ensures Split(st.d, st.e, l) == Split(st'.d, st'.e, l)
    decreases n - l
  {
    if l + 1 < n {
      SplitAgree(st, st', n, l + 1);
    }
  }

  lemma SweepAgree(ar: Arith, st: State, st': State, n: nat, l: nat, m: nat)
    requires AgreeFrom(st, st', n, l) && l < m < n
    ensures AgreeFrom(Sweep(ar, st, l, m), Sweep(ar, st', l, m), n, l)
    ensures SameBelow(st, Sweep(ar, st, l, m), n, l)
  {
    hide Passes, Shift;
    assert Shift(ar, st.d, st.e, l, m) == Shift(ar, st'.d, st'.e, l, m) by {
      ShiftAgree(ar, st, st', n, l, m);
    }
    PassesAgree(ar, st, st', n, StartCursor(ar, st.d, st.e, l, m), l, m - 1);
  }

  lemma ShiftAgree(ar: Arith, st: State, st': State, n: nat, l: nat, m: nat)
    requires AgreeFrom(st, st', n, l) && l < m < n
    ensures Shift(ar, st.d, st.e, l, m) == Shift(ar, st'.d, st'.e, l, m)
  {
  }

  lemma {:induction false} IterateAgree(ar: Arith, st: State, st': State, n: nat, l: nat, iteration: nat)
    requires AgreeFrom(st, st', n, l) && l < n && iteration <= 30
    ensures var o, o' := Iterate(ar, st, l, iteration), Iterate(ar, st', l, iteration);
            && o.Stopped? == o'.Stopped? && AgreeFrom(o.st, o'.st, n, l)
            && SameBelow(st, o.st, n, l) && SameBelow(st', o'.st, n, l)
    decreases 30 - iteration
  {
    hide Sweep;
    SplitAgree(st, st', n, l);
    var m := Split(st.d, st.e, l);
    if m != l && iteration < 30 {
      SweepAgree(ar, st, st', n, l, m);
      SweepAgree(ar, st', st, n, l, m);
      IterateAgree(ar, Sweep(ar, st, l, m), Sweep(ar, st', l, m), n, l, iteration + 1);
    }
  }

  // ---------- putting eigenvalue l among those already ordered ----------

  /** The slot for p above position i, looking downwards. */
  function Slot(d: seq<real>, p: real, i: nat): (s: nat)
    requires i <= |d|
    ensures s <= i && (forall j :: s <= j < i ==> p < d[j]) && (s > 0 ==> d[s - 1] <= p)
  {
    if i >= 1 && p < d[i - 1] then Slot(d, p, i - 1) else i
  }

  /** x taken from position l to position s <= l, those between moved up by one. */
  function Moved<T>(v: seq<T>, l: nat, s: nat): (w: seq<T>)
    requires s <= l < |v|
    ensures |w| == |v|
  {
    v[..s] + [v[l]] + v[s..l] + v[l + 1..]
  }

  function Inserted(st: State, l: nat): (st': State)
    requires Shaped(st, |st.d|) && |st.rows| == 1 && l < |st.d|
    ensures Shaped(st', |st.d|) && |st'.rows| == 1
  {
    var s := Slot(st.d, st.d[l], l);
    State(Moved(st.d, l, s), st.e, [Moved(st.rows[0], l, s)])
  }

  lemma MovedPrefix<T>(v: seq<T>, l: nat, s: nat)
    requires s <= l < |v|
    ensures multiset(Moved(v, l, s)[..l + 1]) == multiset(v[..l]) + multiset{v[l]}
  {
    assert Moved(v, l, s)[..l + 1] == v[..s] + [v[l]] + v[s..l];
    assert v[..l] == v[..s] + v[s..l];
  }

  ghost predicate AscendingTo(d: seq<real>, b: nat) {
    b <= |d| && forall i, j :: 0 <= i < j < b ==> d[i] <= d[j]
  }

  lemma InsertedAscending(d: seq<real>, l: nat)
    requires l < |d| && AscendingTo(d, l)
    ensures AscendingTo(Moved(d, l, Slot(d, d[l], l)), l + 1)
  {
    hide Moved, Slot;
    var s := Slot(d, d[l], l);
    var w := Moved(d, l, s);
    forall i, j | 0 <= i < j < l + 1 ensures w[i] <= w[j] {
      MovedAt(d, l, s, i);
      MovedAt(d, l, s, j);
      if j == s {
        assert d[i] <= d[s - 1];
      }
    }
  }

  lemma MovedAt<T>(v: seq<T>, l: nat, s: nat, j: nat)
    requires s <= l < |v| && j <= l
    ensures Moved(v, l, s)[j] == if j < s then v[j] else if j == s then v[l] else v[j - 1]
  {
  }

  lemma InsertedKeeps(st: State, n: nat, l: nat)
    requires SingleRow(st, n) && l < n && AscendingTo(st.d, l)
    ensures var st' := Inserted(st, l);
            && AgreeFrom(st, st', n, l + 1)
            && AscendingTo(st'.d, l + 1)
            && multiset(Zip(st'.d, st'.rows[0])[..l + 1])
               == multiset(Zip(st.d, st.rows[0])[..l]) + multiset{(st.d[l], st.rows[0][l])}
            && multiset(st'.d[..l + 1]) == multiset(st.d[..l]) + multiset{st.d[l]}
  {
    var s, st' := Slot(st.d, st.d[l], l), Inserted(st, l);
    var z, z' := Zip(st.d, st.rows[0]), Zip(st'.d, st'.rows[0]);
    InsertedAscending(st.d, l);
    ZipMoved(st.d, st.rows[0], l, s);
    MovedPrefix(z, l, s);
    MovedPrefix(st.d, l, s);
  }

  lemma ZipMoved<A, B>(a: seq<A>, b: seq<B>, l: nat, s: nat)
    requires |a| == |b| && s <= l < |a|
    ensures Zip(Moved(a, l, s), Moved(b, l, s)) == Moved(Zip(a, b), l, s)
  {
    var x, y := Zip(Moved(a, l, s), Moved(b, l, s)), Moved(Zip(a, b), l, s);
    forall j | 0 <= j < |a| ensures x[j] == y[j] {
      if j < s {
      } else if j == s {
      } else if j <= l {
      } else {
      }
    }
  }

  /** The outer loop of imtqlb from l on: iterate, then put eigenvalue l in its place. */
  function SolveBounds(ar: Arith, st: State, l: nat): (o: Outcome)
    requires SingleRow(st, |st.d|) && l <= |st.d|
    ensures SingleRow(o.st, |st.d|)
    decreases |st.d| - l
  {
    if l == |st.d| then Completed(st)
    else
      var o := Iterate(ar, st, l, 0);
      if o.Stopped? then o else SolveBounds(ar, Inserted(o.st, l), l + 1)
  }

  ghost function PairsOf(st: State): seq<(real, real)>
    requires SingleRow(st, |st.d|)
  {
    Zip(st.d, st.rows[0])
  }

  /** imtqlb's state against the undisturbed one: equal from l on, below it the same pairs in order. */
  ghost predicate Mirrors(st: State, g: State, n: nat, l: nat) {
    && l <= n && AgreeFrom(st, g, n, l) && AscendingTo(st.d, l)
    && multiset(PairsOf(st)[..l]) == multiset(PairsOf(g)[..l])
    && multiset(st.d[..l]) == multiset(g.d[..l])
  }

  lemma MirrorsStep(ar: Arith, st: State, g: State, n: nat, l: nat)
    requires Mirrors(st, g, n, l) && l < n
    ensures var o, o' := Iterate(ar, st, l, 0), Iterate(ar, g, l, 0);
            && o.Stopped? == o'.Stopped?
            && (o.Stopped? ==> Mirrors(o.st, o'.st, n, l))
            && (o.Completed? ==> Mirrors(Inserted(o.st, l), o'.st, n, l + 1))
  {
    hide Iterate;
    IterateAgree(ar, st, g, n, l, 0);
    var o, o' := Iterate(ar, st, l, 0), Iterate(ar, g, l, 0);
    PairsBelow(st, o.st, n, l);
    PairsBelow(g, o'.st, n, l);
    if o.Completed? {
      InsertedMirrors(o.st, o'.st, n, l);
    }
  }

  lemma PairsBelow(st: State, st': State, n: nat, l: nat)
    requires SameBelow(st, st', n, l) && l <= n
    ensures PairsOf(st)[..l] == PairsOf(st')[..l] && st.d[..l] == st'.d[..l]
    ensures AscendingTo(st.d, l) ==> AscendingTo(st'.d, l)
  {
  }

  lemma InsertedMirrors(st: State, g: State, n: nat, l: nat)
    requires Mirrors(st, g, n, l) && l < n
    ensures Mirrors(Inserted(st, l), g, n, l + 1)
  {
    hide Inserted;
    InsertedKeeps(st, n, l);
    assert PairsOf(g)[..l + 1] == PairsOf(g)[..l] + [PairsOf(g)[l]];
    assert g.d[..l + 1] == g.d[..l] + [g.d[l]];
  }

  lemma {:induction false} SolveBoundsMirrors(ar: Arith, st: State, g: State, n: nat, l: nat)
    requires Mirrors(st, g, n, l)
    ensures var o, o' := SolveBounds(ar, st, l), Solve(ar, g, l);
            && o.Stopped? == o'.Stopped?
            && (o.Stopped? ==> o.l == o'.l < n && Mirrors(o.st, o'.st, n, o.l))
            && (o.Completed? ==> Mirrors(o.st, o'.st, n, n))
    decreases n - l
  {
    hide Iterate;
    if l < n {
      MirrorsStep(ar, st, g, n, l);
      var o, o' := Iterate(ar, st, l, 0), Iterate(ar, g, l, 0);
      if o.Completed? {
        SolveBoundsMirrors(ar, Inserted(o.st, l), o'.st, n, l + 1);
      }
    }
  }

  lemma MirrorsPermutes(st: State, g: State, n: nat, l: nat)
    requires Mirrors(st, g, n, l)
    ensures multiset(PairsOf(st)) == multiset(PairsOf(g))
  {
    var z, z' := PairsOf(st), PairsOf(g);
    assert z == z[..l] + z[l..] && z' == z'[..l] + z'[l..];
    assert z[l..] == z'[l..];
  }

  // ---------- sorted sequences with the same elements ----------

  lemma RemovedAt<T>(t: seq<T>, i: nat)
    requires i < |t|
    ensures multiset(t[..i] + t[i + 1..]) == multiset(t) - multiset{t[i]}
  {
    assert t == t[..i] + [t[i]] + t[i + 1..];
  }

  lemma WithoutLast<T>(t: seq<T>)
    requires t != []
    ensures multiset(t[..|t| - 1]) == multiset(t) - multiset{t[|t| - 1]}
  {
    RemovedAt(t, |t| - 1);
    assert t[..|t| - 1] + t[|t|..] == t[..|t| - 1];
  }

  lemma SameLast(a: seq<real>, b: seq<real>)
    requires Ascending(a) && Ascending(b) && multiset(a) == multiset(b) && a != []
    ensures |b| == |a| && a[|a| - 1] == b[|b| - 1]
  {
    assert |a| == |multiset(a)| == |multiset(b)| == |b|;
    var x, y := a[|a| - 1], b[|b| - 1];
    assert x in multiset(b) && y in multiset(a);
    var i :| 0 <= i < |b| && b[i] == x;
    var j :| 0 <= j < |a| && a[j] == y;
  }

  lemma AscendingPrefix(a: seq<real>, n: nat)
    requires Ascending(a) && n <= |a|
    ensures Ascending(a[..n])
  {
  }

  lemma {:induction false} SortedUnique(a: seq<real>, b: seq<real>)
    requires Ascending(a) && Ascending(b) && multiset(a) == multiset(b)
    ensures a == b
  {
    if a == [] {
      assert |multiset(b)| == |multiset(a)| == 0;
    } else {
      SameLast(a, b);
      var n := |a| - 1;
      assert Ascending(a[..n]) && Ascending(b[..n]) by {
        AscendingPrefix(a, n);
        AscendingPrefix(b, n);
      }
      assert multiset(a[..n]) == multiset(b[..n]) by {
        WithoutLast(a);
        WithoutLast(b);
      }
      hide Ascending;
      SortedUnique(a[..n], b[..n]);
      assert a == a[..n] + [a[n]] && b == b[..n] + [b[n]];
    }
  }

  // ---------- sums that only depend on the pairs ----------

  /** Either sum of a sequence of pairs: of the squared second parts, or of the first parts. */
  ghost function Weight(squares: bool, p: (real, real)): real {
    if squares then p.1 * p.1 else p.0
  }

  ghost function Total(f: bool, s: seq<(real, real)>): real {
    if s == [] then 0.0 else Total(f, s[..|s| - 1]) + Weight(f, s[|s| - 1])
  }

  lemma {:induction false} TotalConcat(f: bool, s: seq<(real, real)>, t: seq<(real, real)>)
    ensures Total(f, s + t) == Total(f, s) + Total(f, t)
  {
    if t == [] {
      assert s + t == s;
    } else {
      assert (s + t)[..|s + t| - 1] == s + t[..|t| - 1];
      TotalConcat(f, s, t[..|t| - 1]);
    }
  }

  lemma {:induction false} TotalPermutation(f: bool, s: seq<(real, real)>, t: seq<(real, real)>)
    requires multiset(s) == multiset(t)
    ensures Total(f, s) == Total(f, t)
  {
    if s == [] {
      assert |multiset(t)| == 0;
    } else {
      var x := s[|s| - 1];
      assert x in multiset(t);
      var i :| 0 <= i < |t| && t[i] == x;
      var t' := t[..i] + t[i + 1..];
      WithoutLast(s);
      RemovedAt(t, i);
      TotalPermutation(f, s[..|s| - 1], t');
      TotalAround(f, t, i);
    }
  }

  lemma TotalAround(f: bool, t: seq<(real, real)>, i: nat)
    requires i < |t|
    ensures Total(f, t) == Total(f, t[..i] + t[i + 1..]) + Weight(f, t[i])
  {
    hide Total, Weight;
    var x, a, b := t[i], t[..i], t[i + 1..];
    TotalConcat(f, a, b);
    TotalConcat(f, a + [x], b);
    TotalConcat(f, a, [x]);
    TotalOne(f, x);
    assert t == a + [x] + b;
  }

  lemma TotalOne(f: bool, x: (real, real))
    ensures Total(f, [x]) == Weight(f, x)
  {
    assert [x][..0] == [];
  }

  lemma {:induction false} TotalOfSums(d: seq<real>, v: seq<real>, n: nat)
    requires |d| == |v| && n <= |d|
    ensures Total(false, Zip(d, v)[..n]) == Sum(d, n)
    ensures Total(true, Zip(d, v)[..n]) == DotTo(v, v, n)
  {
    if n > 0 {
      TotalOfSums(d, v, n - 1);
      assert Zip(d, v)[..n][..n - 1] == Zip(d, v)[..n - 1];
    }
  }

  lemma PairSums(d: seq<real>, v: seq<real>, d': seq<real>, v': seq<real>)
    requires |d| == |v| && |d'| == |v'| && multiset(Zip(d, v)) == multiset(Zip(d', v'))
    ensures Trace(d) == Trace(d') && Dot(v, v) == Dot(v', v')
  {
    TotalPermutation(false, Zip(d, v), Zip(d', v'));
    TotalPermutation(true, Zip(d, v), Zip(d', v'));
    TotalOfSums(d, v, |d|);
    TotalOfSums(d', v', |d'|);
    assert Zip(d, v)[..|d|] == Zip(d, v) && Zip(d', v')[..|d'|] == Zip(d', v');
  }

  // ---------- the two results ----------

  /**
   imtqlb's outcome ob against imtql2's outcome o and row r of its z: same exit, same pairs,
   same order on completion.
   */
  ghost predicate BoundsMatchVectors(ob: Outcome, o: Outcome, n: nat, r: nat) {
    && SingleRow(ob.st, n) && Shaped(o.st, n) && r < |o.st.rows|
    && ob.Stopped? == o.Stopped?
    && (ob.Stopped? ==> ob.l == o.l)
    && multiset(PairsOf(ob.st)) == multiset(Zip(Delivered(o).d, Delivered(o).rows[r]))
    && (ob.Completed? ==> Ascending(ob.st.d) && ob.st.d == Delivered(o).d)
    && (ob.Stopped? ==> AscendingTo(ob.st.d, ob.l))
  }

  /**
   imtqlb refines imtql2, whatever the arithmetic: from the same d and e, with
   bnd starting as row r of z, both give up at the same eigenvalue or both
   finish, with the same diagonal, and the pairs (d[j], bnd[j]) are the pairs
   (d[j], row r of z at j).
   */
  lemma ImtqlbRefinesImtql2(ar: Arith, st: State, n: nat, r: nat)
    requires Shaped(st, n) && r < |st.rows|
    ensures BoundsMatchVectors(SolveBounds(ar, Only(st, r), 0), Solve(ar, st, 0), n, r)
  {
    hide Solve, SolveBounds;
    var g := Only(st, r);
    var ob, og, o := SolveBounds(ar, g, 0), Solve(ar, g, 0), Solve(ar, st, 0);
    SolveRowwise(ar, st, r, 0);
    SolveBoundsMirrors(ar, g, g, n, 0);
    MirrorsPermutes(ob.st, og.st, n, if ob.Stopped? then ob.l else n);
    if o.Completed? {
      OrderPermutes(o.st, 1, r);
      OrderSorts(o.st, 1);
      assert ob.st.d[..n] == ob.st.d && og.st.d[..n] == og.st.d;
      SortedUnique(ob.st.d, Delivered(o).d);
    }
  }

  /**
   Every run of imtqlb conserves the trace, whatever the arithmetic, through
   underflow recoveries and the give-up exit; with an exact hypotenuse it also
   keeps bnd at unit length.
   */
  lemma ImtqlbConserves(ar: Arith, d: seq<real>, e: seq<real>, n: nat)
    requires |d| == |e| == n && n >= 1 && Reduced(e, 0)
    ensures var ob := SolveBounds(ar, State(d, e, [Unit(n, 0)]), 0);
            && Trace(ob.st.d) == Trace(d)
            && (Exact(ar) ==> Dot(ob.st.rows[0], ob.st.rows[0]) == 1.0)
  {
    hide Solve, SolveBounds;
    var st := State(d, e, Identity(n));
    assert Only(st, 0) == State(d, e, [Unit(n, 0)]);
    var ob, o := SolveBounds(ar, Only(st, 0), 0), Solve(ar, st, 0);
    ImtqlbRefinesImtql2(ar, st, n, 0);
    var fin := Delivered(o);
    PairSums(ob.st.d, ob.st.rows[0], fin.d, fin.rows[0]);
    SolveFrame(ar, st, 0);
    if o.Completed? {
      OrderKeepsTrace(o.st, 1);
    }
    if Exact(ar) {
      Imtql2Decomposes(ar, d, e, n);
      assert RowGram(fin.rows, n)[0][0] == Identity(n)[0][0];
    }
  }
}
