/**
 The fast-import stream as a graph of patches. A patch's commit has the mark
 one above its number; `from` and `merge` lines are edges to earlier commits.
 */
module GitHistory {

  datatype Event =
    | Commit(mark: nat, parents: seq<nat>)
    | Reset(branch: Branch, target: nat)
    | TieTogether(parents: seq<nat>)

  /** refs/heads/master, or refs/heads/master followed by a patch number. */
  datatype Branch = Master | MasterOf(number: nat)

  function MarkOf(n: nat): nat {
    n + 1
  }

  /** The marks of a sequence of patch numbers. */
  function MarksOf(ns: seq<nat>): (ms: seq<nat>)
    ensures |ms| == |ns| && forall k :: 0 <= k < |ns| ==> ms[k] == MarkOf(ns[k])
  {
    seq(|ns|, k requires 0 <= k < |ns| => MarkOf(ns[k]))
  }

  /** The commit of patch n is among the first upTo events. */
  ghost predicate Emitted(out: seq<Event>, n: nat, upTo: nat) {
    exists i :: 0 <= i < upTo && i < |out| && out[i].Commit? && out[i].mark == MarkOf(n)
  }

  /** The marks an event refers to. */
  function References(e: Event): seq<nat> {
    match e
    case Commit(_, ps) => ps
    case Reset(_, t) => [t]
    case TieTogether(ps) => ps
  }

  /** No event refers to a mark that has not been emitted before it. */
  ghost predicate WellReferenced(out: seq<Event>) {
    forall i :: 0 <= i < |out| ==> RefersBack(out, References(out[i]), i)
  }

  ghost predicate RefersBack(out: seq<Event>, ms: seq<nat>, upTo: nat) {
    forall k :: 0 <= k < |ms| ==> ms[k] >= 1 && Emitted(out, ms[k] - 1, upTo)
  }

  ghost predicate Edge(out: seq<Event>, a: nat, b: nat) {
    exists i :: 0 <= i < |out| && out[i].Commit? && out[i].mark == MarkOf(a) && MarkOf(b) in out[i].parents
  }

  ghost predicate Path(out: seq<Event>, p: seq<nat>) {
    p != [] && forall k :: 0 <= k < |p| - 1 ==> Edge(out, p[k], p[k + 1])
  }

  /** b can be reached from a by from and merge edges. */
  ghost predicate Reachable(out: seq<Event>, a: nat, b: nat) {
    exists p :: Path(out, p) && p[0] == a && p[|p| - 1] == b
  }

  lemma ReachItself(out: seq<Event>, a: nat)
    ensures Reachable(out, a, a)
  {
    assert Path(out, [a]);
  }

  lemma EmittedLater(out: seq<Event>, e: Event, m: nat, n: nat)
    requires Emitted(out, m, n)
    ensures Emitted(out + [e], m, n)
    ensures Emitted(out, m, |out|)
  {
    var i :| 0 <= i < n && i < |out| && out[i].Commit? && out[i].mark == MarkOf(m);
    assert (out + [e])[i] == out[i];
  }

  lemma EdgeLater(out: seq<Event>, e: Event, a: nat, b: nat)
    requires Edge(out, a, b)
    ensures Edge(out + [e], a, b)
  {
    var i :| 0 <= i < |out| && out[i].Commit? && out[i].mark == MarkOf(a) && MarkOf(b) in out[i].parents;
    assert (out + [e])[i] == out[i];
  }

  /** Edges are never taken back. */
  lemma ReachLater(out: seq<Event>, e: Event, a: nat, b: nat)
    requires Reachable(out, a, b)
    ensures Reachable(out + [e], a, b)
  {
    var p :| Path(out, p) && p[0] == a && p[|p| - 1] == b;
    forall k | 0 <= k < |p| - 1 ensures Edge(out + [e], p[k], p[k + 1]) {
      EdgeLater(out, e, p[k], p[k + 1]);
    }
    assert Path(out + [e], p);
  }

  lemma ReachAcross(out: seq<Event>, a: nat, b: nat, c: nat)
    requires Edge(out, a, b) && Reachable(out, b, c)
    ensures Reachable(out, a, c)
  {
    var p :| Path(out, p) && p[0] == b && p[|p| - 1] == c;
    var q := [a] + p;
    forall k | 0 <= k < |q| - 1 ensures Edge(out, q[k], q[k + 1]) {
      if k > 0 {
        assert q[k] == p[k - 1] && q[k + 1] == p[k];
      }
    }
    assert Path(out, q);
  }

  lemma RefersBackLater(out: seq<Event>, e: Event, ms: seq<nat>, n: nat)
    requires RefersBack(out, ms, n)
    ensures RefersBack(out + [e], ms, n)
  {
    forall k | 0 <= k < |ms| ensures Emitted(out + [e], ms[k] - 1, n) {
      EmittedLater(out, e, ms[k] - 1, n);
    }
  }

  lemma ReferencesAppend(out: seq<Event>, e: Event)
    requires WellReferenced(out) && RefersBack(out, References(e), |out|)
    ensures WellReferenced(out + [e])
  {
    var out' := out + [e];
    forall i | 0 <= i < |out'| ensures RefersBack(out', References(out'[i]), i) {
      RefersBackLater(out, e, References(out'[i]), i);
    }
  }

  // ---------- heads ----------

  /** Every commit in c can be reached from some head in h. */
  ghost predicate Covered(out: seq<Event>, c: set<nat>, h: set<nat>) {
    forall m :: m in c ==> exists a :: a in h && Reachable(out, a, m)
  }

  /** A new commit n on top of some of the heads, which may then be given up. */
  lemma CoveredByCommit(out: seq<Event>, c: set<nat>, h: set<nat>, n: nat, ps: seq<nat>, h': set<nat>)
    requires Covered(out, c, h) && n in h'
    requires forall a :: a in h ==> a in h' || a in ps
    ensures Covered(out + [Commit(MarkOf(n), MarksOf(ps))], c + {n}, h')
  {
    var e := Commit(MarkOf(n), MarksOf(ps));
    var out' := out + [e];
    forall k | k in c + {n} ensures exists a :: a in h' && Reachable(out', a, k) {
      if k == n {
        ReachItself(out', n);
      } else {
        var a :| a in h && Reachable(out, a, k);
        ReachLater(out, e, a, k);
        if a !in h' {
          var j :| 0 <= j < |ps| && ps[j] == a;
          assert out'[|out|] == e && MarksOf(ps)[j] == MarkOf(a);
          assert Edge(out', n, a);
          ReachAcross(out', n, a, k);
        }
      }
    }
  }

  /** The heads master ends up on: the target of its reset, or the parents of the commit that ties them together. */
  ghost predicate OnMaster(out: seq<Event>, a: nat) {
    exists i :: 0 <= i < |out| && PutsOnMaster(out[i], a)
  }

  ghost predicate PutsOnMaster(e: Event, a: nat) {
    (e.Reset? && e.branch == Master && e.target == MarkOf(a)) || (e.TieTogether? && MarkOf(a) in e.parents)
  }

  ghost predicate AllEmitted(out: seq<Event>, c: set<nat>) {
    forall n :: n in c ==> Emitted(out, n, |out|)
  }

  lemma EmittedSooner(out: seq<Event>, m: nat, n: nat, n': nat)
    requires Emitted(out, m, n) && n <= n'
    ensures Emitted(out, m, n')
  {
    var i :| 0 <= i < n && i < |out| && out[i].Commit? && out[i].mark == MarkOf(m);
  }

  lemma AllEmittedLater(out: seq<Event>, e: Event, c: set<nat>)
    requires AllEmitted(out, c)
    ensures AllEmitted(out + [e], c)
  {
    forall m | m in c ensures Emitted(out + [e], m, |out + [e]|) {
      EmittedLater(out, e, m, |out|);
      EmittedSooner(out + [e], m, |out|, |out| + 1);
    }
  }

  lemma MarksReferBack(out: seq<Event>, c: set<nat>, ps: seq<nat>)
    requires AllEmitted(out, c) && forall p :: p in ps ==> p in c
    ensures RefersBack(out, MarksOf(ps), |out|)
  {
    var ms := MarksOf(ps);
    forall k | 0 <= k < |ms| ensures ms[k] >= 1 && Emitted(out, ms[k] - 1, |out|) {
      assert ps[k] in c;
    }
  }

  /** The mark of event i, if it is a commit, is that of a patch in c. */
  ghost predicate MarkKnown(out: seq<Event>, c: set<nat>, i: nat)
    requires i < |out|
  {
    out[i].Commit? ==> out[i].mark >= 1 && out[i].mark - 1 in c
  }

  ghost predicate MarksDiffer(out: seq<Event>, i: nat, j: nat)
    requires i < |out| && j < |out|
  {
    out[i].Commit? && out[j].Commit? ==> out[i].mark != out[j].mark
  }

  /** Only patches in c have commits, each one commit. */
  ghost predicate OwnMarks(out: seq<Event>, c: set<nat>) {
    && (forall i :: 0 <= i < |out| ==> MarkKnown(out, c, i))
    && forall i, j :: 0 <= i < j < |out| ==> MarksDiffer(out, i, j)
  }

  /** What is known of the stream: c is exported, references point back, and c hangs below the heads h. */
  ghost predicate Sound(out: seq<Event>, c: set<nat>, h: set<nat>) {
    WellReferenced(out) && Covered(out, c, h) && AllEmitted(out, c) && OwnMarks(out, c)
  }

  lemma OwnMarksLater(out: seq<Event>, e: Event, c: set<nat>, c': set<nat>)
    requires OwnMarks(out, c) && c <= c' && (e.Commit? ==> e.mark >= 1 && e.mark - 1 !in c && e.mark - 1 in c')
    ensures OwnMarks(out + [e], c')
  {
    var out' := out + [e];
    forall i | 0 <= i < |out'| ensures MarkKnown(out', c', i) {
      assert i < |out| ==> MarkKnown(out, c, i);
    }
    forall i, j | 0 <= i < j < |out'| ensures MarksDiffer(out', i, j) {
      assert MarkKnown(out, c, i);
      assert j < |out| ==> MarksDiffer(out, i, j);
    }
  }

  /** The edges after a new commit n: those of n are its parents, all others are as before. */
  lemma EdgesByCommit(out: seq<Event>, c: set<nat>, n: nat, ps: seq<nat>)
    requires OwnMarks(out, c) && n !in c
    ensures var out' := out + [Commit(MarkOf(n), MarksOf(ps))];
            forall a: nat, b: nat :: Edge(out', a, b) <==> if a == n then b in ps else Edge(out, a, b)
  {
    var out' := out + [Commit(MarkOf(n), MarksOf(ps))];
    forall a: nat, b: nat ensures Edge(out', a, b) <==> if a == n then b in ps else Edge(out, a, b) {
      if a == n {
        OwnEdge(out, c, n, ps, b);
      } else {
        OtherEdge(out, n, ps, a, b);
      }
    }
  }

  lemma MarksMember(ps: seq<nat>, b: nat)
    ensures MarkOf(b) in MarksOf(ps) <==> b in ps
  {
    if b in ps {
      var k :| 0 <= k < |ps| && ps[k] == b;
      assert MarksOf(ps)[k] == MarkOf(b);
    }
  }

  lemma OwnEdge(out: seq<Event>, c: set<nat>, n: nat, ps: seq<nat>, b: nat)
    requires OwnMarks(out, c) && n !in c
    ensures Edge(out + [Commit(MarkOf(n), MarksOf(ps))], n, b) <==> b in ps
  {
    var e := Commit(MarkOf(n), MarksOf(ps));
    var out' := out + [e];
    MarksMember(ps, b);
    assert out'[|out|] == e;
    if Edge(out', n, b) {
      var i :| 0 <= i < |out'| && out'[i].Commit? && out'[i].mark == MarkOf(n) && MarkOf(b) in out'[i].parents;
      assert i < |out| ==> MarkKnown(out, c, i);
    }
  }

  lemma OtherEdge(out: seq<Event>, n: nat, ps: seq<nat>, a: nat, b: nat)
    requires a != n
    ensures Edge(out + [Commit(MarkOf(n), MarksOf(ps))], a, b) <==> Edge(out, a, b)
  {
    var e := Commit(MarkOf(n), MarksOf(ps));
    if Edge(out, a, b) {
      EdgeLater(out, e, a, b);
    }
  }

  /** An event that only refers to commits in c keeps all that is known of the stream. */
  lemma KeptByReference(out: seq<Event>, e: Event, c: set<nat>, h: set<nat>, ps: seq<nat>)
    requires Sound(out, c, h)
    requires !e.Commit? && References(e) == MarksOf(ps) && forall p :: p in ps ==> p in c
    ensures Sound(out + [e], c, h)
  {
    OwnMarksLater(out, e, c, c);
    hide OwnMarks;
    MarksReferBack(out, c, ps);
    ReferencesAppend(out, e);
    AllEmittedLater(out, e, c);
    forall m | m in c ensures exists a :: a in h && Reachable(out + [e], a, m) {
      var a :| a in h && Reachable(out, a, m);
      ReachLater(out, e, a, m);
    }
  }

  /** A new commit n on exported patches, some of them heads that are given up for it. */
  lemma KeptByCommit(out: seq<Event>, c: set<nat>, h: set<nat>, n: nat, ps: seq<nat>, h': set<nat>)
    requires Sound(out, c, h) && n !in c
    requires (forall p :: p in ps ==> p in c) && n in h' && forall a :: a in h ==> a in h' || a in ps
    ensures Sound(out + [Commit(MarkOf(n), MarksOf(ps))], c + {n}, h')
  {
    var e := Commit(MarkOf(n), MarksOf(ps));
    OwnMarksLater(out, e, c, c + {n});
    hide OwnMarks;
    MarksReferBack(out, c, ps);
    ReferencesAppend(out, e);
    CoveredByCommit(out, c, h, n, ps, h');
    AllEmittedLater(out, e, c);
    assert (out + [e])[|out|] == e;
  }

  /** Every commit in c can be reached from master. */
  ghost predicate MasterHolds(out: seq<Event>, c: set<nat>) {
    forall m :: m in c ==> exists a :: OnMaster(out, a) && Reachable(out, a, m)
  }

  /** When every head is on master, so is everything below it. */
  lemma AllOnMaster(out: seq<Event>, c: set<nat>, h: set<nat>)
    requires Sound(out, c, h) && forall a :: a in h ==> OnMaster(out, a)
    ensures MasterHolds(out, c)
  {
    forall m | m in c ensures exists a :: OnMaster(out, a) && Reachable(out, a, m) {
      var a :| a in h && Reachable(out, a, m);
    }
  }

  /** There is a head as soon as there is a commit. */
  lemma SomeHead(out: seq<Event>, c: set<nat>, h: set<nat>)
    requires Sound(out, c, h) && h <= c
    ensures c == {} <==> h == {}
  {
    hide Reachable, OwnMarks, WellReferenced, AllEmitted;
    if c != {} {
      var n :| n in c;
      var a :| a in h && Reachable(out, a, n);
    }
  }

  lemma ResetRefers(b: Branch, n: nat)
    ensures References(Reset(b, MarkOf(n))) == MarksOf([n])
  {
  }

  lemma TieRefers(ns: seq<nat>)
    ensures References(TieTogether(MarksOf(ns))) == MarksOf(ns)
  {
  }

  /** The last event puts every head of a list on master. */
  lemma HeadsOnMaster(out: seq<Event>, e: Event, ns: seq<nat>, h: set<nat>)
    requires forall n :: n in h ==> n in ns
    requires (|ns| == 1 && e == Reset(Master, MarkOf(ns[0]))) || e == TieTogether(MarksOf(ns))
    ensures forall a :: a in h ==> OnMaster(out + [e], a)
  {
    forall a | a in h ensures OnMaster(out + [e], a) {
      var k :| 0 <= k < |ns| && ns[k] == a;
      assert MarksOf(ns)[k] == MarkOf(a);
      assert PutsOnMaster((out + [e])[|out|], a);
    }
  }
}
