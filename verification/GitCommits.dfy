/** The commit forest of darcs2git.py and the search for a common ancestor. */
module GitCommits {

  datatype Patch = Patch(number: nat)

  class GitCommit {
    const parent: GitCommit?
    const patch: Patch
    const depth: nat

    constructor (parent: GitCommit?, patch: Patch)
      requires parent != null ==> parent.Valid()
      ensures this.parent == parent && this.patch == patch && Valid()
    {
      this.parent := parent;
      this.patch := patch;
      this.depth := if parent != null then parent.depth + 1 else 0;
    }

    /** depth is the distance to the root. */
    ghost predicate Valid()
      decreases depth
    {
      if parent == null then depth == 0 else depth == parent.depth + 1 && parent.Valid()
    }

    /** The ancestor, or this commit itself, k steps up. */
    ghost function Up(k: nat): (c: GitCommit)
      requires Valid() && k <= depth
      ensures c.Valid() && c.depth == depth - k
      decreases k
    {
      if k == 0 then this else parent.Up(k - 1)
    }

    ghost predicate HasAncestor(c: GitCommit)
      requires Valid()
    {
      c.depth <= depth && Up(depth - c.depth) == c
    }

    ghost function Root(): GitCommit
      requires Valid()
    {
      Up(depth)
    }
  }

  lemma {:induction false} UpUp(a: GitCommit, j: nat, k: nat)
    requires a.Valid() && j + k <= a.depth
    ensures a.Up(j).Up(k) == a.Up(j + k)
    decreases j
  {
    if j > 0 {
      UpUp(a.parent, j - 1, k);
    }
  }

  /** The ancestors of a commit are itself and its parent's. */
  lemma AncestorStep(a: GitCommit, c: GitCommit)
    requires a.Valid()
    ensures a.HasAncestor(c) <==> c == a || (a.parent != null && a.parent.HasAncestor(c))
  {
    if c.depth < a.depth {
      UpUp(a, 1, a.depth - c.depth - 1);
    }
  }

  lemma SameRoot(a: GitCommit, c: GitCommit)
    requires a.Valid() && a.HasAncestor(c)
    ensures c.Valid() && c.Root() == a.Root()
  {
    UpUp(a, a.depth - c.depth, c.depth);
  }

  /** c is above both, or is one of them. */
  ghost predicate Common(c: GitCommit, a: GitCommit?, b: GitCommit?)
    requires (a != null ==> a.Valid()) && (b != null ==> b.Valid())
  {
    a != null && b != null && a.HasAncestor(c) && b.HasAncestor(c)
  }

  /** Dropping a from the deeper side, or from both sides of a level where they differ, loses no common ancestor. */
  lemma CommonStep(c: GitCommit, a: GitCommit, b: GitCommit)
    requires a.Valid() && b.Valid()
    ensures a.depth > b.depth ==> (Common(c, a, b) <==> Common(c, a.parent, b))
    ensures a.depth < b.depth ==> (Common(c, a, b) <==> Common(c, a, b.parent))
    ensures a.depth == b.depth && a != b ==> (Common(c, a, b) <==> Common(c, a.parent, b.parent))
  {
    AncestorStep(a, c);
    AncestorStep(b, c);
  }

  /** common_ancestor: the deepest common ancestor, or None exactly when the roots differ. */
  method CommonAncestor(a0: GitCommit, b0: GitCommit) returns (r: GitCommit?)
    requires a0.Valid() && b0.Valid()
    ensures r == null <==> a0.Root() != b0.Root()
    ensures r != null ==> Common(r, a0, b0) && forall c: GitCommit :: Common(c, a0, b0) ==> c.depth <= r.depth
  {
    hide *;
    var a: GitCommit?, b: GitCommit? := a0, b0;
    while true
      invariant a != null && b != null && a.Valid() && b.Valid()
      invariant forall c: GitCommit :: Common(c, a0, b0) <==> Common(c, a, b)
      decreases a.depth + b.depth
    {
      ParentDepth(a);
      ParentDepth(b);
      forall c: GitCommit
        ensures a.depth > b.depth ==> (Common(c, a, b) <==> Common(c, a.parent, b))
        ensures a.depth < b.depth ==> (Common(c, a, b) <==> Common(c, a, b.parent))
      {
        CommonStep(c, a, b);
      }
      if a.depth < b.depth {
        b := b.parent;
      } else if a.depth > b.depth {
        a := a.parent;
      } else {
        break;
      }
    }
    while a != null && b != null
      invariant (a != null ==> a.Valid()) && (b != null ==> b.Valid())
      invariant (a == null) == (b == null) && (a != null && b != null ==> a.depth == b.depth)
      invariant forall c: GitCommit :: Common(c, a0, b0) <==> Common(c, a, b)
      decreases if a == null then 0 else a.depth + 1
    {
      ParentDepth(a);
      ParentDepth(b);
      if a == b {
        Found(a0, b0, a);
        return a;
      }
      forall c: GitCommit ensures Common(c, a, b) <==> Common(c, a.parent, b.parent) {
        CommonStep(c, a, b);
      }
      a := a.parent;
      b := b.parent;
    }
    NotFound(a0, b0, a, b);
    return null;
  }

  lemma ParentDepth(a: GitCommit)
    requires a.Valid()
    ensures if a.parent == null then a.depth == 0 else a.depth == a.parent.depth + 1 && a.parent.Valid()
  {
  }

  lemma Found(a0: GitCommit, b0: GitCommit, a: GitCommit)
    requires a0.Valid() && b0.Valid() && a.Valid()
    requires forall c: GitCommit :: Common(c, a0, b0) <==> Common(c, a, a)
    ensures Common(a, a0, b0) && a0.Root() == b0.Root()
    ensures forall c: GitCommit :: Common(c, a0, b0) ==> c.depth <= a.depth
  {
    assert Common(a, a, a);
    SameRoot(a0, a);
    SameRoot(b0, a);
  }

  lemma NotFound(a0: GitCommit, b0: GitCommit, a: GitCommit?, b: GitCommit?)
    requires a0.Valid() && b0.Valid() && a == null && b == null
    requires forall c: GitCommit :: Common(c, a0, b0) <==> Common(c, a, b)
    ensures a0.Root() != b0.Root()
  {
    if a0.Root() == b0.Root() {
      assert Common(a0.Root(), a0, b0);
    }
  }
}
