/**
 rotateArray of las2.c: rotation in place by following the cycles of the map
 k -> k - x (mod size), one slot per step, in exactly `size` steps. Each write
 goes to a slot not written before: inside a cycle because the map is
 injective, and at the start of a new cycle because a start already covered
 would mean that everything is.
 */
module RotateArray {
  import opened Integers

  /** The slot written after slot j, and its inverse. */
  function Back(size: nat, x: nat, j: nat): (n: nat)
    requires 0 < x < size && j < size
    ensures n < size && n != j
  {
    if j >= x then j - x else j + size - x
  }

  function Forth(size: nat, x: nat, k: nat): (n: nat)
    requires 0 < x < size && k < size
    ensures n < size && Back(size, x, n) == k
  {
    if k + x < size then k + x else k + x - size
  }

  lemma ForthIsMod(size: nat, x: nat, k: nat)
    requires 0 < x < size && k < size
    ensures Forth(size, x, k) == (k + x) % size
  {
    if k + x >= size {
      ModOnce(k + x, size);
    }
  }

  lemma ModOnce(a: int, b: int)
    requires 0 < b <= a < 2 * b
    ensures a % b == a - b
  {
    var q := a / b;
    assert a == b * q + a % b;
    MulMonotone(b, if q >= 2 then 2 else q, if q >= 2 then q else 1);
    MulMonotone(b, if q <= 0 then q else 0, 0);
    assert q == 1;
  }

  /** The slot reached from s in t steps. */
  ghost function Reach(size: nat, x: nat, s: nat, t: nat): (n: nat)
    requires 0 < x < size && s < size
    ensures n < size
  {
    if t == 0 then s else Back(size, x, Reach(size, x, s, t - 1))
  }

  lemma {:induction false} ReachShift(size: nat, x: nat, s: nat, d: nat, t: nat)
    requires 0 < x < size && s + d < size
    ensures var r := Reach(size, x, s, t) + d;
            Reach(size, x, s + d, t) == if r < size then r else r - size
  {
    if t > 0 {
      ReachShift(size, x, s, d, t - 1);
    }
  }

  ghost predicate Within(w: set<nat>, size: nat) {
    forall k :: k in w ==> k < size
  }

  /** A union of whole cycles. */
  ghost predicate Whole(w: set<nat>, size: nat, x: nat)
    requires 0 < x < size
  {
    Within(w, size) && forall k :: k in w ==> Back(size, x, k) in w && Forth(size, x, k) in w
  }

  lemma {:induction false} ReachStays(w: set<nat>, size: nat, x: nat, s: nat, t: nat)
    requires 0 < x < size && s < size && Whole(w, size, x) && s in w
    ensures Reach(size, x, s, t) in w
  {
    if t > 0 {
      ReachStays(w, size, x, s, t - 1);
    }
  }

  /** If whole cycles cover 0..c-1, and c as well by way of c', they cover every slot. */
  lemma {:induction false} Covers(w: set<nat>, size: nat, x: nat, c: nat, c': nat, t: nat, k: nat)
    requires 0 < x < size && c' < c < size && Whole(w, size, x)
    requires forall s :: 0 <= s < c ==> s in w
    requires Reach(size, x, c', t) == c
    requires k < size
    ensures k in w
  {
    if k >= c {
      var s := k - (c - c');
      Covers(w, size, x, c, c', t, s);
      ReachShift(size, x, c', s - c', t);
      assert Reach(size, x, s, t) == k;
      ReachStays(w, size, x, s, t);
    }
  }

  lemma {:induction false} Cardinality(w: set<nat>, n: nat)
    requires Within(w, n)
    ensures |w| <= n
    ensures |w| == n <==> forall k :: 0 <= k < n ==> k in w
  {
    if n > 0 {
      var w' := w - {n - 1};
      Cardinality(w', n - 1);
      if n - 1 in w {
        assert w == w' + {n - 1};
      } else {
        assert w == w';
      }
    }
  }

  /** Slot k is reached from slot s. */
  ghost predicate FromSlot(size: nat, x: nat, s: nat, k: nat)
    requires 0 < x < size && s < size
  {
    exists u :: k == Reach(size, x, s, u)
  }

  /** The slots of the cycle begun at start: written ones in p, the latest of them j (or none yet). */
  ghost predicate Walking(p: set<nat>, size: nat, x: nat, start: nat, j: nat, t: nat)
    requires 0 < x < size
  {
    && start < size && Within(p, size) && start !in p
    && j == Reach(size, x, start, t) && (if t == 0 then p == {} else j in p)
    && Back(size, x, j) !in p
    && (forall k :: k in p ==> Forth(size, x, k) == start || Forth(size, x, k) in p)
    && (forall k :: (k in p || k == start) && k != j ==> Back(size, x, k) in p)
    && (forall k :: k in p ==> FromSlot(size, x, start, k))
  }

  /** Slot k is reached from a start before `start`. */
  ghost predicate FromStart(size: nat, x: nat, start: nat, k: nat)
    requires 0 < x < size
  {
    exists s :: 0 <= s < start && s < size && FromSlot(size, x, s, k)
  }

  /** The cycles finished before start. */
  ghost predicate Finished(c: set<nat>, size: nat, x: nat, start: nat)
    requires 0 < x < size
  {
    && Whole(c, size, x)
    && (forall s :: 0 <= s < start ==> s in c)
    && (forall k :: k in c ==> FromStart(size, x, start, k))
  }

  lemma StepTarget(c: set<nat>, p: set<nat>, size: nat, x: nat, start: nat, j: nat, t: nat)
    requires 0 < x < size && Walking(p, size, x, start, j, t) && Finished(c, size, x, start)
    requires start !in c && c !! p
    ensures var n := Back(size, x, j);
            n !in c && n !in p && Forth(size, x, n) == j && n == Reach(size, x, start, t + 1)
  {
    var n := Back(size, x, j);
    assert n == Reach(size, x, start, t + 1);
    assert Forth(size, x, n) == j;
  }

  lemma StepOn(p: set<nat>, size: nat, x: nat, start: nat, j: nat, t: nat)
    requires 0 < x < size && Walking(p, size, x, start, j, t)
    requires var n := Back(size, x, j);
             n !in p && n != start && Forth(size, x, n) == j && n == Reach(size, x, start, t + 1)
    ensures var n := Back(size, x, j);
            Walking(p + {n}, size, x, start, n, t + 1)
  {
    var n := Back(size, x, j);
    assert Forth(size, x, Back(size, x, n)) == n;
  }

  lemma StepHome(c: set<nat>, p: set<nat>, size: nat, x: nat, start: nat, j: nat, t: nat)
    requires 0 < x < size && Walking(p, size, x, start, j, t) && Finished(c, size, x, start)
    requires start == Back(size, x, j) == Reach(size, x, start, t + 1) && Forth(size, x, start) == j
    ensures Finished(c + p + {start}, size, x, start + 1)
  {
    var c' := c + p + {start};
    hide Walking, Whole, FromStart;
    forall k | k in c' ensures FromStart(size, x, start + 1, k) {
      HomeReached(c, p, size, x, start, j, t, k);
    }
    HomeWhole(c, p, size, x, start, j, t);
  }

  /** Every slot of the finished cycles is reached from one of their starts. */
  lemma HomeReached(c: set<nat>, p: set<nat>, size: nat, x: nat, start: nat, j: nat, t: nat, k: nat)
    requires 0 < x < size && Walking(p, size, x, start, j, t) && Finished(c, size, x, start)
    requires start == Reach(size, x, start, t + 1) && k in c + p + {start}
    ensures FromStart(size, x, start + 1, k)
  {
    hide Whole, Reach;
    if k !in c {
      assert FromSlot(size, x, start, k);
    }
  }

  lemma StartOf(c: set<nat>, size: nat, x: nat, start: nat, k: nat) returns (s: nat, u: nat)
    requires 0 < x < size && Finished(c, size, x, start) && k in c
    ensures s < start && s < size && k == Reach(size, x, s, u)
  {
    assert FromStart(size, x, start, k);
    s :| 0 <= s < start && s < size && FromSlot(size, x, s, k);
    u :| k == Reach(size, x, s, u);
  }

  lemma HomeWhole(c: set<nat>, p: set<nat>, size: nat, x: nat, start: nat, j: nat, t: nat)
    requires 0 < x < size && Walking(p, size, x, start, j, t) && Finished(c, size, x, start)
    requires start == Back(size, x, j) && Forth(size, x, start) == j
    ensures Whole(c + p + {start}, size, x)
  {
  }

  lemma Step(c: set<nat>, p: set<nat>, size: nat, x: nat, start: nat, j: nat, t: nat)
    requires 0 < x < size && Walking(p, size, x, start, j, t) && Finished(c, size, x, start)
    requires start !in c && c !! p
    ensures var n := Back(size, x, j);
            && n !in c && n !in p
            && (n != start ==> Walking(p + {n}, size, x, start, n, t + 1))
            && (n == start ==> Finished(c + p + {n}, size, x, start + 1))
  {
    StepTarget(c, p, size, x, start, j, t);
    if Back(size, x, j) == start {
      StepHome(c, p, size, x, start, j, t);
    } else {
      StepOn(p, size, x, start, j, t);
    }
  }

  /** A start already covered would mean that every slot is. */
  lemma NextStartIsFresh(c: set<nat>, size: nat, x: nat, start: nat)
    requires 0 < x < size && Finished(c, size, x, start) && start < size && |c| < size
    ensures start !in c
  {
    if start in c {
      var s, u :| 0 <= s < start && s < size && start == Reach(size, x, s, u);
      forall k | 0 <= k < size ensures k in c {
        Covers(c, size, x, start, s, u, k);
      }
      Cardinality(c, size);
    }
  }

  /** After a whole cycle: the next start is a slot, and fresh unless all is done. */
  lemma NextStart(c: set<nat>, w: set<nat>, size: nat, x: nat, start: nat)
    requires 0 < x < size && Finished(c, size, x, start) && Finished(w, size, x, start + 1)
    requires start <= size - x && start !in c
    ensures start + 1 <= size - x && start + 1 < size
    ensures |w| < size ==> start + 1 !in w
    ensures Walking({}, size, x, start + 1, start + 1, 0)
  {
    if start > 0 {
      assert 0 in c && Back(size, x, 0) in c;
    }
    if |w| < size {
      NextStartIsFresh(w, size, x, start + 1);
    }
  }

  // ---------- the number of cycles ----------

  /** No smaller start shares a cycle with s: some whole cycles hold them and leave s out. */
  ghost predicate Separates(w: set<nat>, size: nat, x: nat, s: nat)
    requires 0 < x < size
  {
    Whole(w, size, x) && s !in w && forall k :: 0 <= k < s ==> k in w
  }

  ghost predicate Alone(size: nat, x: nat, s: nat)
    requires 0 < x < size
  {
    exists w :: Separates(w, size, x, s)
  }

  ghost predicate Separate(size: nat, x: nat, start: nat)
    requires 0 < x < size
  {
    forall s :: 0 <= s < start ==> Alone(size, x, s)
  }

  ghost predicate IsGcd(g: nat, a: nat, b: nat) {
    g > 0 && a % g == 0 && b % g == 0 && forall k: nat :: k > 0 && a % k == 0 && b % k == 0 ==> k <= g
  }

  lemma {:induction false} ReachBack(w: set<nat>, size: nat, x: nat, s: nat, t: nat)
    requires 0 < x < size && s < size && Whole(w, size, x) && Reach(size, x, s, t) in w
    ensures s in w
  {
    if t > 0 {
      var k := Reach(size, x, s, t - 1);
      assert Forth(size, x, Back(size, x, k)) == k;
      ReachBack(w, size, x, s, t - 1);
    }
  }

  /** When all is covered, the next start lies in the cycle of slot 0. */
  lemma NextStartFromZero(c: set<nat>, size: nat, x: nat, start: nat) returns (u: nat)
    requires 0 < x < size && Finished(c, size, x, start) && Separate(size, x, start) && start < size && start in c
    ensures start > 0 && Reach(size, x, 0, u) == start
  {
    hide Finished, Whole, Reach;
    var s, t := StartOf(c, size, x, start, start);
    ReachShift(size, x, 0, s, t);
    u := t;
    if s > 0 {
      assert Alone(size, x, start - s);
      var w :| Separates(w, size, x, start - s);
      assert 0 in w && Reach(size, x, 0, t) == start - s;
      ReachStays(w, size, x, 0, t);
      assert false;
    }
  }

  /** Whole cycles are closed under steps of g down, when slot 0 reaches slot g. */
  lemma {:induction false} Residue(w: set<nat>, size: nat, x: nat, g: nat, u: nat, k: nat)
    requires 0 < x < size && Whole(w, size, x) && 0 < g < size && Reach(size, x, 0, u) == g && k in w
    ensures k % g in w
  {
    if k >= g {
      ReachShift(size, x, 0, k - g, u);
      ReachBack(w, size, x, k - g, u);
      Residue(w, size, x, g, u, k - g);
      AddMultiple(k - g, g, g);
    } else {
      AddMultiple(k, 0, g);
      Remainder(k, g, 0, k);
    }
  }

  lemma Remainder(a: int, g: nat, q: int, r: nat)
    requires a == g * q + r && r < g
    ensures a % g == r
  {
    var q' := a / g;
    if q' < q {
      MulMonotone(g, q' + 1, q);
    } else if q < q' {
      MulMonotone(g, q + 1, q');
    }
  }

  lemma AddMultiple(a: int, m: int, g: nat)
    requires g > 0 && m % g == 0
    ensures (a + m) % g == a % g
  {
    var q, q' := a / g, m / g;
    assert g * (q + q') == g * q + g * q';
    Remainder(a + m, g, q + q', a % g);
  }

  lemma {:induction false} ReachKeepsResidue(size: nat, x: nat, s: nat, t: nat, g: nat)
    requires 0 < x < size && s < size && g > 0 && size % g == 0 && x % g == 0
    ensures Reach(size, x, s, t) % g == s % g
  {
    if t > 0 {
      ReachKeepsResidue(size, x, s, t - 1, g);
      var j := Reach(size, x, s, t - 1);
      AddMultiple(Back(size, x, j), x, g);
      AddMultiple(j, size, g);
    }
  }

  lemma LastResidue(s: nat, g: nat)
    requires g > 0 && s % g == (g - 1) % g
    ensures s >= g - 1
  {
    Remainder(g - 1, g, 0, g - 1);
    if s < g - 1 {
      Remainder(s, g, 0, s);
    }
  }

  /** A common divisor never exceeds the number of starts that cover every slot. */
  lemma DivisorWithin(c: set<nat>, size: nat, x: nat, start: nat, g: nat)
    requires 0 < x < size && Finished(c, size, x, start) && forall k :: 0 <= k < size ==> k in c
    requires g > 0 && size % g == 0 && x % g == 0
    ensures g <= start
  {
    if g <= size {
      hide Finished, Reach;
      var s, t := StartOf(c, size, x, start, g - 1);
      ReachKeepsResidue(size, x, s, t, g);
      LastResidue(s, g);
    } else {
      Remainder(size, g, 0, size);
    }
  }

  /** The neighbours of slot 0 in its cycle are multiples of the number of starts. */
  lemma Multiple(size: nat, x: nat, start: nat, u: nat, k: nat)
    requires 0 < x < size && Separate(size, x, start) && 0 < start < size && Reach(size, x, 0, u) == start
    requires k == Back(size, x, 0) || k == Forth(size, x, 0)
    ensures k % start == 0
  {
    if k % start != 0 {
      assert 0 < k % start < start && Alone(size, x, k % start);
      var w :| Separates(w, size, x, k % start);
      assert 0 in w && k in w;
      Residue(w, size, x, start, u, k);
      assert false;
    }
  }

  /** The rotation takes gcd(size, x) cycles. */
  lemma CyclesAreGcd(c: set<nat>, size: nat, x: nat, start: nat)
    requires 0 < x < size && Finished(c, size, x, start) && Separate(size, x, start) && start < size
    requires forall k :: 0 <= k < size ==> k in c
    ensures IsGcd(start, size, x)
  {
    var u := NextStartFromZero(c, size, x, start);
    Multiple(size, x, start, u, Back(size, x, 0));
    Multiple(size, x, start, u, Forth(size, x, 0));
    AddMultiple(size - x, x, start);
    forall g: nat | g > 0 && size % g == 0 && x % g == 0 ensures g <= start {
      DivisorWithin(c, size, x, start, g);
    }
  }

  /** When everything is written no cycle is under way. */
  lemma AllFinished(c: set<nat>, p: set<nat>, size: nat, x: nat, start: nat, j: nat, t: nat)
    requires 0 < x < size && Walking(p, size, x, start, j, t) && Finished(c, size, x, start) && c !! p
    requires forall k :: 0 <= k < size ==> k in c + p
    ensures forall k :: 0 <= k < size ==> k in c
  {
    assert start in c + p;
    if p != {} {
      var k :| k in p;
      assert FromSlot(size, x, start, k);
      var u :| k == Reach(size, x, start, u);
      ReachStays(c, size, x, start, u);
      assert false;
    }
  }

  /** The slots in w hold their final value, the others their first. */
  ghost predicate Partly<T>(v0: seq<T>, v: seq<T>, w: set<nat>, x: nat) {
    && |v| == |v0| && 0 < x < |v|
    && forall k :: 0 <= k < |v| ==> v[k] == if k in w then v0[Forth(|v|, x, k)] else v0[k]
  }

  ghost predicate Distinct(s: seq<nat>) {
    forall u, v :: 0 <= u < v < |s| ==> s[u] != s[v]
  }

  lemma NoneDistinct()
    ensures Distinct([])
  {
  }

  lemma DistinctAppend(s: seq<nat>, x: nat)
    requires Distinct(s) && x !in s
    ensures Distinct(s + [x])
  {
  }

  /** The sequence turned left by x. */
  function Turned<T>(v: seq<T>, x: nat): (w: seq<T>)
    requires x <= |v|
    ensures |w| == |v|
  {
    v[x..] + v[..x]
  }

  lemma TurnedAt<T>(v: seq<T>, x: nat, k: nat)
    requires x < |v| && k < |v|
    ensures Turned(v, x)[k] == v[(k + x) % |v|]
  {
    if x > 0 {
      ForthIsMod(|v|, x, k);
    }
  }

  lemma Rotated<T>(v0: seq<T>, v: seq<T>, w: set<nat>, x: nat)
    requires Partly(v0, v, w, x) && Within(w, |v|) && |w| == |v|
    ensures v == Turned(v0, x)
  {
    Cardinality(w, |v|);
    forall k | 0 <= k < |v| ensures v[k] == Turned(v0, x)[k] {
    }
  }

  lemma PartlyWrite<T>(v0: seq<T>, v: seq<T>, w: set<nat>, x: nat, n: nat)
    requires Partly(v0, v, w, x) && n < |v|
    ensures Partly(v0, v[n := v0[Forth(|v|, x, n)]], w + {n}, x)
    ensures n !in w ==> v[n] == v0[n]
  {
  }

  lemma Beginning<T>(v: seq<T>, x: nat)
    requires 0 < x < |v|
    ensures Walking({}, |v|, x, 0, 0, 0) && Finished({}, |v|, x, 0) && Partly(v, v, {}, x)
  {
  }

  lemma Slots(c: set<nat>, p: set<nat>, size: nat, x: nat, start: nat, j: nat, t: nat)
    requires 0 < x < size && Walking(p, size, x, start, j, t) && Finished(c, size, x, start)
    ensures j < size && start < size && Within(c + p, size) && start !in p
    ensures Forth(size, x, Back(size, x, j)) == j
  {
  }

  /**
   How far the rotation is: t steps into the current cycle, c the slots of the
   cycles finished before it, p those written in it, and all writes in order.
   */
  datatype Trail = Trail(t: nat, c: set<nat>, p: set<nat>, writes: seq<nat>)

  /** Slot n written: the last of its cycle, or one more. */
  ghost function Extended(h: Trail, n: nat, last: bool): Trail {
    if last then Trail(0, h.c + h.p + {n}, {}, h.writes + [n])
    else Trail(h.t + 1, h.c, h.p + {n}, h.writes + [n])
  }

  /** The loop invariant: i slots written, all different, t1 the first value of slot j. */
  ghost predicate Rotating<T>(v0: seq<T>, v: seq<T>, x: nat, i: nat, start: nat, j: nat, t1: T, h: Trail) {
    && 0 < x < |v0| == |v| && i <= |v|
    && |h.writes| == i && |h.c + h.p| == i && h.c !! h.p
    && (forall n :: n in h.writes ==> n in h.c + h.p) && Distinct(h.writes)
    && Walking(h.p, |v|, x, start, j, h.t) && Finished(h.c, |v|, x, start)
    && start <= |v| - x && j < |v| && Separate(|v|, x, start)
    && (i < |v| ==> start !in h.c && t1 == v0[j])
    && Partly(v0, v, h.c + h.p, x)
  }

  lemma OneMoreStart(c: set<nat>, size: nat, x: nat, start: nat)
    requires 0 < x < size && Finished(c, size, x, start) && start !in c && Separate(size, x, start)
    ensures Separate(size, x, start + 1)
  {
    assert Separates(c, size, x, start);
    assert Alone(size, x, start);
  }

  /** The slot written is new, and what is written is its final value. */
  lemma RotatingWrite<T>(v0: seq<T>, v: seq<T>, x: nat, i: nat, start: nat, j: nat, t1: T, h: Trail, n: nat, v': seq<T>)
    requires Rotating(v0, v, x, i, start, j, t1, h) && i < |v|
    requires n == Back(|v|, x, j) && v' == v[n := t1]
    ensures var w := h.c + h.p + {n};
            && n !in h.c && n !in h.p && |w| == i + 1 && n < |v|
            && (forall k :: k in h.writes + [n] ==> k in w) && Distinct(h.writes + [n])
            && Partly(v0, v', w, x) && v[n] == v0[n]
    ensures n != start ==> Walking(h.p + {n}, |v|, x, start, n, h.t + 1)
    ensures n == start ==> Finished(h.c + h.p + {n}, |v|, x, start + 1)
  {
    hide Walking, Finished, Distinct, Partly, Separate;
    Slots(h.c, h.p, |v|, x, start, j, h.t);
    Step(h.c, h.p, |v|, x, start, j, h.t);
    DistinctAppend(h.writes, n);
    PartlyWrite(v0, v, h.c + h.p, x, n);
  }

  lemma RotatingHome<T>(v0: seq<T>, v: seq<T>, x: nat, i: nat, start: nat, j: nat, t1: T, h: Trail, v': seq<T>)
    requires Rotating(v0, v, x, i, start, j, t1, h) && i < |v| && start == Back(|v|, x, j) && v' == v[start := t1]
    ensures start + 1 < |v|
    ensures Rotating(v0, v', x, i + 1, start + 1, start + 1, v'[start + 1], Extended(h, start, true))
  {
    hide Walking, Finished, Distinct, Partly, Separate;
    var w := h.c + h.p + {start};
    RotatingWrite(v0, v, x, i, start, j, t1, h, start, v');
    NextStart(h.c, w, |v|, x, start);
    OneMoreStart(h.c, |v|, x, start);
    PartlyWrite(v0, v', w, x, start + 1);
    assert w + {} == w;
  }

  lemma RotatingOn<T>(v0: seq<T>, v: seq<T>, x: nat, i: nat, start: nat, j: nat, t1: T, h: Trail, n: nat, v': seq<T>)
    requires Rotating(v0, v, x, i, start, j, t1, h) && i < |v|
    requires n == Back(|v|, x, j) && n != start && v' == v[n := t1]
    ensures Rotating(v0, v', x, i + 1, start, n, v[n], Extended(h, n, false))
  {
    hide Walking, Finished, Distinct, Partly, Separate;
    RotatingWrite(v0, v, x, i, start, j, t1, h, n, v');
    assert h.c + (h.p + {n}) == h.c + h.p + {n};
    Slots(h.c, h.p + {n}, |v|, x, start, n, h.t + 1);
  }

  lemma RotatingStep<T>(v0: seq<T>, v: seq<T>, x: nat, i: nat, start: nat, j: nat, t1: T, h: Trail, n: nat, v': seq<T>)
    requires Rotating(v0, v, x, i, start, j, t1, h) && i < |v|
    requires n == (if j >= x then j - x else j + |v| - x) < |v| && v' == v[n := t1]
    ensures n == start ==> start + 1 < |v|
    ensures n == start ==> Rotating(v0, v', x, i + 1, start + 1, start + 1, v'[start + 1], Extended(h, n, true))
    ensures n != start ==> Rotating(v0, v', x, i + 1, start, n, v[n], Extended(h, n, false))
  {
    BackIs(v0, v, x, i, start, j, t1, h, n);
    hide *;
    if n == start {
      RotatingHome(v0, v, x, i, start, j, t1, h, v');
    } else {
      RotatingOn(v0, v, x, i, start, j, t1, h, n, v');
    }
  }

  lemma BackIs<T>(v0: seq<T>, v: seq<T>, x: nat, i: nat, start: nat, j: nat, t1: T, h: Trail, n: nat)
    requires Rotating(v0, v, x, i, start, j, t1, h) && n == (if j >= x then j - x else j + |v| - x)
    ensures 0 < x < |v| && j < |v| && n == Back(|v|, x, j)
  {
  }

  lemma RotatingStart<T>(v: seq<T>, x: nat)
    requires 0 < x < |v|
    ensures Rotating(v, v, x, 0, 0, 0, v[0], Trail(0, {}, {}, []))
  {
    Beginning(v, x);
    NoneDistinct();
  }

  lemma RotatingEnd<T>(v0: seq<T>, v: seq<T>, x: nat, start: nat, j: nat, t1: T, h: Trail)
    requires Rotating(v0, v, x, |v|, start, j, t1, h)
    ensures |v0| == |v| == |h.writes| && Distinct(h.writes)
    ensures v == Turned(v0, x)
    ensures IsGcd(start, |v|, x)
  {
    Cardinality(h.c + h.p, |v|);
    AllFinished(h.c, h.p, |v|, x, start, j, h.t);
    CyclesAreGcd(h.c, |v|, x, start);
    Slots(h.c, h.p, |v|, x, start, j, h.t);
    Rotated(v0, v, h.c + h.p, x);
  }

  /** The loop body of rotateArray: slot n gets t1, and at the end of a cycle the next one begins. */
  method RotateSlot<T>(a: array<T>, size: nat, x: nat, i: nat, start0: nat, j0: nat, t0: T,
                       ghost v0: seq<T>, ghost h0: Trail)
    returns (start: nat, j: nat, t1: T, ghost h: Trail)
    requires a.Length == size && i < size && Rotating(v0, a[..], x, i, start0, j0, t0, h0)
    requires 0 < x < size && j0 < size
    modifies a
    ensures j < size && Rotating(v0, a[..], x, i + 1, start, j, t1, h)
  {
    hide *;
    ghost var v := a[..];
    var n := if j0 >= x then j0 - x else j0 + size - x;
    var t2 := a[n];
    a[n] := t0;
    RotatingStep(v0, v, x, i, start0, j0, t0, h0, n, a[..]);
    start, j, t1 := start0, n, t2;
    h := Extended(h0, n, j == start);
    if j == start {
      j := j + 1;
      start := j;
      t1 := a[j];
    }
  }

  /** rotateArray: the slots written, in order, and the number of cycles. */
  method RotateArray<T>(a: array<T>, size: nat, x: nat) returns (ghost writes: seq<nat>, ghost cycles: nat)
    requires a.Length == size && (x == 0 || x < size)
    modifies a
    ensures a[..] == Turned(old(a[..]), x)
    ensures x == 0 ==> writes == []
    ensures x != 0 ==> |writes| == size && Distinct(writes) && IsGcd(cycles, size, x)
  {
    writes, cycles := [], 0;
    if x == 0 {
      return;
    }
    hide *;
    ghost var v0 := a[..];
    RotatingStart(v0, x);
    var start: nat := 0;
    var j: nat := start;
    var t1 := a[0];
    ghost var h := Trail(0, {}, {}, []);
    var i := 0;
    while i < size
      invariant i <= size && j < size && Rotating(v0, a[..], x, i, start, j, t1, h)
    {
      start, j, t1, h := RotateSlot(a, size, x, i, start, j, t1, v0, h);
      i := i + 1;
    }
    ghost var v := a[..];
    assert |v| == size;
    RotatingEnd(v0, v, x, start, j, t1, h);
    writes, cycles := h.writes, start;
  }
}
