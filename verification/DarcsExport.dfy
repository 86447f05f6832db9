/**
 The export state of darcs2git.py: which patches are still heads
 (pending_patches), the commit made for every patch (git_commits), and the
 stream written so far.
 */
module DarcsExport {
  import opened GitCommits
  import opened GitHistory

  datatype Option<T> = None | Some(value: T)

  /** Python's items(): the keys of a dictionary, each once, in an order of its own. */
  ghost predicate Enumerates(order: seq<nat>, keys: set<nat>) {
    (forall n :: n in order <==> n in keys) && forall i, j :: 0 <= i < j < |order| ==> order[i] != order[j]
  }

  /** The heads the repository holds, in that order. */
  function Mergers(order: seq<nat>, pending: map<nat, Patch>, hasPatch: Patch -> bool): (ms: seq<nat>)
    requires forall n :: n in order ==> n in pending
    ensures forall n :: n in ms <==> n in order && hasPatch(pending[n])
  {
    if order == [] then []
    else
      var n := order[|order| - 1];
      Mergers(order[..|order| - 1], pending, hasPatch) + if hasPatch(pending[n]) then [n] else []
  }

  /** The heads, each an exported patch under its own number. */
  ghost predicate Heads(pending: map<nat, Patch>, exported: set<nat>) {
    forall n :: n in pending ==> n in exported && pending[n].number == n
  }

  /** The commit objects, each under the number of its patch. */
  ghost predicate Forest(commits: map<nat, GitCommit>) {
    forall n :: n in commits ==> commits[n].Valid() && commits[n].patch.number == n
  }

  /** A numbered master branch for every head. */
  function Resets(order: seq<nat>): seq<Event> {
    seq(|order|, k requires 0 <= k < |order| => Reset(MasterOf(order[k]), MarkOf(order[k])))
  }

  /** What export_pending writes for the heads, in the order they come. */
  function PendingEvents(order: seq<nat>): seq<Event> {
    if |order| == 1 then [Reset(Master, MarkOf(order[0]))]
    else Resets(order) + if order == [] then [] else [TieTogether(MarksOf(order))]
  }

  /** The commit of patch n, under the mark one above its number, is in the stream. */
  ghost predicate HasCommit(out: seq<Event>, n: nat) {
    exists i :: 0 <= i < |out| && out[i].Commit? && out[i].mark == n + 1
  }

  /** The numbered master branch of head n is set to the mark of its own commit. */
  ghost predicate Branched(out: seq<Event>, e: Event, n: nat) {
    e == Reset(MasterOf(n), n + 1) && HasCommit(out, n)
  }

  /** After out: one numbered master branch for each of several heads, then the commit that ties them all together. */
  ghost predicate HeadsTied(out: seq<Event>, out': seq<Event>, order: seq<nat>) {
    && |out'| == |out| + |order| + 1 && out'[..|out|] == out
    && (forall k :: 0 <= k < |order| ==> Branched(out, out'[|out| + k], order[k]))
    && out'[|out| + |order|].TieTogether? && |out'[|out| + |order|].parents| == |order|
    && forall k :: 0 <= k < |order| ==> out'[|out| + |order|].parents[k] == order[k] + 1
  }

  lemma HeadEmitted(out: seq<Event>, n: nat, cs: set<nat>, hs: set<nat>)
    requires Sound(out, cs, hs) && n in cs
    ensures HasCommit(out, n)
  {
    hide Covered, OwnMarks, WellReferenced;
    var i :| 0 <= i < |out| && out[i].Commit? && out[i].mark == MarkOf(n);
  }

  lemma HeadsAreTied(out: seq<Event>, order: seq<nat>, cs: set<nat>, hs: set<nat>)
    requires Sound(out, cs, hs) && (forall n :: n in order ==> n in cs) && |order| >= 2
    ensures HeadsTied(out, out + PendingEvents(order), order)
  {
    hide Sound, HasCommit;
    forall k | 0 <= k < |order| ensures HasCommit(out, order[k]) {
      HeadEmitted(out, order[k], cs, hs);
    }
  }

  lemma NothingSound()
    ensures Sound([], {}, {})
  {
  }

  lemma MergersNone(pending: map<nat, Patch>, hasPatch: Patch -> bool)
    ensures Mergers([], pending, hasPatch) == []
  {
  }

  /** One more key looked at. */
  lemma MergersStep(order: seq<nat>, i: nat, pending: map<nat, Patch>, hasPatch: Patch -> bool)
    requires i < |order| && forall n :: n in order ==> n in pending
    ensures Mergers(order[..i + 1], pending, hasPatch) ==
      Mergers(order[..i], pending, hasPatch) + if hasPatch(pending[order[i]]) then [order[i]] else []
  {
    assert order[..i + 1][..i] == order[..i];
  }

  /** The repository holds some head. */
  ghost predicate SomeHeld(pending: map<nat, Patch>, hasPatch: Patch -> bool) {
    exists n :: n in pending && hasPatch(pending[n])
  }

  /** ps are the marks of the heads the repository holds, one each, in the order they come; at tells where. */
  ghost predicate HeldAt(ps: seq<nat>, at: seq<nat>, order: seq<nat>, pending: map<nat, Patch>,
                         hasPatch: Patch -> bool) {
    && |at| == |ps| && (forall j, k :: 0 <= j < k < |at| ==> at[j] < at[k])
    && (forall k :: 0 <= k < |at| ==> at[k] < |order| && ps[k] == order[at[k]] + 1)
    && forall i :: 0 <= i < |order| ==> (i in at <==> order[i] in pending && hasPatch(pending[order[i]]))
  }

  ghost predicate HeldInOrder(ps: seq<nat>, order: seq<nat>, pending: map<nat, Patch>, hasPatch: Patch -> bool) {
    exists at :: HeldAt(ps, at, order, pending, hasPatch)
  }

  lemma {:induction false} MergersInOrder(order: seq<nat>, pending: map<nat, Patch>, hasPatch: Patch -> bool)
    requires forall n :: n in order ==> n in pending
    ensures HeldInOrder(MarksOf(Mergers(order, pending, hasPatch)), order, pending, hasPatch)
  {
    hide HeldAt;
    if order == [] {
      assert HeldAt([], [], [], pending, hasPatch) by { NoneHeld(pending, hasPatch); }
      assert MarksOf(Mergers(order, pending, hasPatch)) == [];
    } else {
      var before, n := order[..|order| - 1], order[|order| - 1];
      MergersInOrder(before, pending, hasPatch);
      var ms := Mergers(before, pending, hasPatch);
      var at :| HeldAt(MarksOf(ms), at, before, pending, hasPatch);
      assert order == before + [n];
      if hasPatch(pending[n]) {
        OneHeld(MarksOf(ms), at, before, n, pending, hasPatch);
        assert MarksOf(ms + [n]) == MarksOf(ms) + [n + 1];
      } else {
        OneNotHeld(MarksOf(ms), at, before, n, pending, hasPatch);
        assert ms + [] == ms;
      }
    }
  }

  lemma NoneHeld(pending: map<nat, Patch>, hasPatch: Patch -> bool)
    ensures HeldAt([], [], [], pending, hasPatch)
  {
  }

  lemma OneHeld(ps: seq<nat>, at: seq<nat>, order: seq<nat>, n: nat, pending: map<nat, Patch>, hasPatch: Patch -> bool)
    requires HeldAt(ps, at, order, pending, hasPatch) && n in pending && hasPatch(pending[n])
    ensures HeldAt(ps + [n + 1], at + [|order|], order + [n], pending, hasPatch)
  {
    forall k | 0 <= k < |at| ensures at[k] < |order| {
    }
  }

  lemma OneNotHeld(ps: seq<nat>, at: seq<nat>, order: seq<nat>, n: nat, pending: map<nat, Patch>,
                   hasPatch: Patch -> bool)
    requires HeldAt(ps, at, order, pending, hasPatch) && n in pending && !hasPatch(pending[n])
    ensures HeldAt(ps, at, order + [n], pending, hasPatch)
  {
  }

  /**
   The stream out, heads and exported patches cs before, with the commit of patch n added: its own mark, the heads
   that the repository holds as parents, or else the last patch if that was exported.
   */
  ghost predicate CommitAdded(out: seq<Event>, out': seq<Event>, n: nat, last: Option<Patch>, order: seq<nat>,
                              heads: map<nat, Patch>, cs: set<nat>, hasPatch: Patch -> bool) {
    && |out'| == |out| + 1 && out'[..|out|] == out && out'[|out|].Commit? && out'[|out|].mark == n + 1
    && if SomeHeld(heads, hasPatch) then HeldInOrder(out'[|out|].parents, order, heads, hasPatch)
       else out'[|out|].parents == if last.Some? && last.value.number in cs then [last.value.number + 1] else []
  }

  /** b is what the new commit is put on. */
  ghost predicate PutOn(b: nat, last: Option<Patch>, heads: map<nat, Patch>, cs: set<nat>, hasPatch: Patch -> bool) {
    if SomeHeld(heads, hasPatch) then b in heads && hasPatch(heads[b])
    else last.Some? && b == last.value.number && b in cs
  }

  /** The edges of the new commit, all of them; those of the others are as they were. */
  ghost predicate EdgesAdded(out: seq<Event>, out': seq<Event>, n: nat, last: Option<Patch>,
                             heads: map<nat, Patch>, cs: set<nat>, hasPatch: Patch -> bool) {
    forall a: nat, b: nat ::
      Edge(out', a, b) <==> if a == n then PutOn(b, last, heads, cs, hasPatch) else Edge(out, a, b)
  }

  lemma ParentsPutOn(ps: seq<nat>, last: Option<Patch>, order: seq<nat>, heads: map<nat, Patch>, cs: set<nat>,
                     hasPatch: Patch -> bool)
    requires AreParents(ps, last, order, heads, cs, hasPatch)
    ensures Mergers(order, heads, hasPatch) == [] <==> !SomeHeld(heads, hasPatch)
    ensures forall b :: b in ps <==> PutOn(b, last, heads, cs, hasPatch)
  {
    var ms := Mergers(order, heads, hasPatch);
    if ms != [] {
      assert ms[0] in ms;
    }
    if SomeHeld(heads, hasPatch) {
      var n :| n in heads && hasPatch(heads[n]);
      assert n in ms;
    }
  }

  /** A commit that was put on no head has the last patch below it, if that was exported. */
  ghost predicate LastBelow(out: seq<Event>, n: nat, last: Option<Patch>, heads: map<nat, Patch>, cs: set<nat>,
                            hasPatch: Patch -> bool) {
    !SomeHeld(heads, hasPatch) && last.Some? && last.value.number in cs ==> Reachable(out, n, last.value.number)
  }

  lemma OnLast(out: seq<Event>, out': seq<Event>, n: nat, last: Option<Patch>, heads: map<nat, Patch>, cs: set<nat>,
               hasPatch: Patch -> bool)
    requires EdgesAdded(out, out', n, last, heads, cs, hasPatch)
    ensures LastBelow(out', n, last, heads, cs, hasPatch)
  {
    hide SomeHeld;
    if !SomeHeld(heads, hasPatch) && last.Some? && last.value.number in cs {
      var b := last.value.number;
      assert PutOn(b, last, heads, cs, hasPatch);
      assert Edge(out', n, b);
      ReachItself(out', b);
      ReachAcross(out', n, b, b);
    }
  }

  /** The parents of the next commit, as export_commit forms them. */
  ghost predicate AreParents(ps: seq<nat>, last: Option<Patch>, order: seq<nat>, heads: map<nat, Patch>, cs: set<nat>,
                             hasPatch: Patch -> bool) {
    Enumerates(order, heads.Keys) &&
    var ms := Mergers(order, heads, hasPatch);
    ps == if ms == [] && last.Some? && last.value.number in cs then [last.value.number] else ms
  }

  lemma MarksAre(out: seq<Event>, n: nat, ps: seq<nat>)
    ensures var out', e := out + [Commit(MarkOf(n), MarksOf(ps))], Commit(n + 1, MarksOf(ps));
            |out'| == |out| + 1 && out'[..|out|] == out && out'[|out|] == e
    ensures ps == [] ==> MarksOf(ps) == []
    ensures |ps| == 1 ==> MarksOf(ps) == [ps[0] + 1]
  {
  }

  lemma NewCommit(out: seq<Event>, n: nat, ps: seq<nat>, last: Option<Patch>, order: seq<nat>, heads: map<nat, Patch>,
                  cs: set<nat>, hasPatch: Patch -> bool)
    requires AreParents(ps, last, order, heads, cs, hasPatch)
    ensures CommitAdded(out, out + [Commit(MarkOf(n), MarksOf(ps))], n, last, order, heads, cs, hasPatch)
  {
    ParentsPutOn(ps, last, order, heads, cs, hasPatch);
    MergersInOrder(order, heads, hasPatch);
    MarksAre(out, n, ps);
    hide Mergers, SomeHeld, HeldInOrder, PutOn, Enumerates, MarksOf, MarkOf;
  }

  lemma NewEdges(out: seq<Event>, n: nat, ps: seq<nat>, last: Option<Patch>, order: seq<nat>, heads: map<nat, Patch>,
                 cs: set<nat>, hs: set<nat>, hasPatch: Patch -> bool)
    requires Sound(out, cs, hs) && n !in cs && AreParents(ps, last, order, heads, cs, hasPatch)
    ensures EdgesAdded(out, out + [Commit(MarkOf(n), MarksOf(ps))], n, last, heads, cs, hasPatch)
  {
    hide OwnMarks, AllEmitted, Covered, WellReferenced, Edge, PutOn, SomeHeld, Mergers, Enumerates;
    ParentsPutOn(ps, last, order, heads, cs, hasPatch);
    EdgesByCommit(out, cs, n, ps);
  }

  class Exporter {
    var pending: map<nat, Patch>
    var commits: map<nat, GitCommit>
    var out: seq<Event>

    constructor ()
      ensures Valid() && pending == map[] && commits == map[] && out == []
    {
      hide Sound;
      pending, commits, out := map[], map[], [];
      new;
      NothingSound();
      assert commits.Keys == {} && pending.Keys == {};
    }

    /** Heads are exported, references point back, and every exported commit hangs below a head. */
    ghost predicate Valid()
      reads this
    {
      && Heads(pending, commits.Keys) && Forest(commits)
      && Sound(out, commits.Keys, pending.Keys)
    }

    /** The parents of the next commit: the heads the repository holds, else the last patch if it was exported. */
    ghost function Parents(last: Option<Patch>, order: seq<nat>, hasPatch: Patch -> bool): seq<nat>
      reads this
      requires Enumerates(order, pending.Keys)
    {
      var ms := Mergers(order, pending, hasPatch);
      if ms == [] && last.Some? && last.value.number in commits then [last.value.number] else ms
    }

    /** The loop of export_commit over the heads: those the repository holds are taken off. */
    method TakeMergers(order: seq<nat>, hasPatch: Patch -> bool) returns (mergers: seq<nat>)
      requires Enumerates(order, pending.Keys)
      modifies this`pending
      ensures mergers == Mergers(order, old(pending), hasPatch)
      ensures forall n :: n in pending <==> n in old(pending) && n !in mergers
      ensures forall n :: n in pending ==> pending[n] == old(pending)[n]
    {
      ghost var heads := pending;
      MergersNone(heads, hasPatch);
      hide Mergers;
      mergers := [];
      var i := 0;
      while i < |order|
        invariant i <= |order| && mergers == Mergers(order[..i], heads, hasPatch)
        invariant forall n :: n in pending <==> n in heads && n !in mergers
        invariant forall n :: n in pending ==> pending[n] == heads[n]
      {
        var n := order[i];
        MergersStep(order, i, heads, hasPatch);
        assert n !in mergers;
        if hasPatch(pending[n]) {
          mergers := mergers + [n];
          pending := pending - {n};
        }
        i := i + 1;
      }
      assert order[..i] == order;
    }

    /**
     export_commit. `order` is the order the dictionary of heads yields its
     keys in, `hasPatch` which patches the repository holds by now.
     */
    method ExportCommit(patch: Patch, last: Option<Patch>, order: seq<nat>, hasPatch: Patch -> bool)
      requires Valid() && patch.number !in commits && Enumerates(order, pending.Keys)
      modifies this
      ensures Valid()
      ensures out == old(out) + [Commit(MarkOf(patch.number), MarksOf(old(Parents(last, order, hasPatch))))]
      ensures forall n :: n in pending <==> n == patch.number || (n in old(pending) && !hasPatch(old(pending)[n]))
      ensures CommitAdded(old(out), out, patch.number, last, order, old(pending), old(commits.Keys), hasPatch)
      ensures EdgesAdded(old(out), out, patch.number, last, old(pending), old(commits.Keys), hasPatch)
      ensures LastBelow(out, patch.number, last, old(pending), old(commits.Keys), hasPatch)
      ensures pending[patch.number] == patch
      ensures forall n :: n in pending && n != patch.number ==> pending[n] == old(pending)[n]
      ensures commits.Keys == old(commits.Keys) + {patch.number}
      ensures forall n :: n in old(commits) ==> commits[n] == old(commits)[n]
      ensures commits[patch.number].patch == patch
      ensures commits[patch.number].parent ==
        if last.Some? && last.value.number in old(commits) then old(commits)[last.value.number] else null
    {
      hide Sound, Mergers, Forest, CommitAdded, EdgesAdded, LastBelow;
      ghost var heads := pending;
      var mergers := TakeMergers(order, hasPatch);
      if last.Some? && mergers == [] && last.value.number in commits {
        mergers := [last.value.number];
      }
      out := out + [Commit(MarkOf(patch.number), MarksOf(mergers))];
      NewCommit(old(out), patch.number, mergers, last, order, heads, commits.Keys, hasPatch);
      NewEdges(old(out), patch.number, mergers, last, order, heads, commits.Keys, heads.Keys, hasPatch);
      OnLast(old(out), out, patch.number, last, heads, commits.Keys, hasPatch);
      pending := pending[patch.number := patch];
      RecordCommit(patch, last);
      KeptByCommit(old(out), old(commits.Keys), heads.Keys, patch.number, mergers, pending.Keys);
    }

    /** The end of export_commit: the commit object of the patch, below that of the last one. */
    method RecordCommit(patch: Patch, last: Option<Patch>)
      requires patch.number !in commits && Forest(commits)
      modifies this`commits
      ensures Forest(commits) && commits.Keys == old(commits.Keys) + {patch.number}
      ensures commits[patch.number].patch == patch
      ensures forall n :: n in old(commits) ==> commits[n] == old(commits)[n]
      ensures commits[patch.number].parent ==
        if last.Some? && last.value.number in old(commits) then old(commits)[last.value.number] else null
    {
      var parent: GitCommit? := null;
      if last.Some? && last.value.number in commits {
        parent := commits[last.value.number];
      }
      var commit := new GitCommit(parent, patch);
      commits := commits[patch.number := commit];
    }

    /** The loop of export_pending: a numbered master branch for every head. */
    method ResetAll(order: seq<nat>)
      requires Sound(out, commits.Keys, pending.Keys)
      requires forall n :: n in order ==> n in commits.Keys
      modifies this`out
      ensures Sound(out, commits.Keys, pending.Keys)
      ensures out == old(out) + Resets(order)
    {
      hide Sound, References;
      var i := 0;
      while i < |order|
        invariant i <= |order| && out == old(out) + Resets(order[..i])
        invariant Sound(out, commits.Keys, pending.Keys)
      {
        var e := Reset(MasterOf(order[i]), MarkOf(order[i]));
        assert order[i] in order;
        ResetRefers(MasterOf(order[i]), order[i]);
        KeptByReference(out, e, commits.Keys, pending.Keys, [order[i]]);
        out := out + [e];
        i := i + 1;
        assert Resets(order[..i]) == Resets(order[..i - 1]) + [e];
      }
      assert order[..i] == order;
    }

    /**
     export_pending: master is set to the only head, or to a commit that ties
     all heads together. Without any head the code fails on the empty list.
     */
    method ExportPending(order: seq<nat>) returns (ok: bool)
      requires Valid() && Enumerates(order, pending.Keys)
      modifies this`out
      ensures ok <==> commits.Keys != {}
      ensures out == old(out) + PendingEvents(order)
      ensures |order| == 1 ==> out == old(out) + [Reset(Master, order[0] + 1)] && HasCommit(old(out), order[0])
      ensures |order| >= 2 ==> HeadsTied(old(out), out, order)
      ensures WellReferenced(out)
      ensures ok ==> MasterHolds(out, commits.Keys)
    {
      hide Sound, MasterHolds, Enumerates, HeadsTied, HasCommit;
      ghost var cs, hs := commits.Keys, pending.Keys;
      NoHeads(out, order, cs, hs);
      if |order| == 1 {
        var e := Reset(Master, MarkOf(order[0]));
        ResetRefers(Master, order[0]);
        assert [order[0]] == order;
        HeadEmitted(out, order[0], cs, hs);
        MasterDone(out, e, order, cs, hs);
        out := out + [e];
        return true;
      }
      ResetAll(order);
      if order == [] {
        assert out == old(out);
        return false;
      }
      var e := TieTogether(MarksOf(order));
      TieRefers(order);
      HeadsAreTied(old(out), order, cs, hs);
      MasterDone(out, e, order, cs, hs);
      out := out + [e];
      return true;
    }
  }

  lemma NoHeads(out: seq<Event>, order: seq<nat>, cs: set<nat>, hs: set<nat>)
    requires Sound(out, cs, hs) && hs <= cs && Enumerates(order, hs)
    ensures order == [] <==> cs == {}
    ensures forall n :: n in order ==> n in cs
    ensures WellReferenced(out)
  {
    hide Covered;
    SomeHead(out, cs, hs);
    if order != [] {
      assert order[0] in hs;
    }
  }

  /** The last event of export_pending, on all the heads. */
  lemma MasterDone(out: seq<Event>, e: Event, order: seq<nat>, cs: set<nat>, hs: set<nat>)
    requires Sound(out, cs, hs) && hs <= cs && Enumerates(order, hs) && References(e) == MarksOf(order)
    requires (|order| == 1 && e == Reset(Master, MarkOf(order[0]))) || e == TieTogether(MarksOf(order))
    ensures WellReferenced(out + [e]) && MasterHolds(out + [e], cs)
  {
    KeptByReference(out, e, cs, hs, order);
    HeadsOnMaster(out, e, order, hs);
    AllOnMaster(out + [e], cs, hs);
  }
}
