/**
 The counting transpose on values: one pointer array serves as counter, start
 table and fill cursor in turn. Each phase is a predicate on that array.
 */
module SparseTranspose {
  import opened SparseValues

  /** Entries before place i in rows below r: where row r's block starts, when i is the end. */
  ghost function Below(s: Sparse, r: int, i: nat): nat
    requires WellFormed(s) && i <= |s.value|
  {
    if i == 0 then 0 else Below(s, r, i - 1) + if s.rowind[i - 1] < r then 1 else 0
  }

  ghost function Start(s: Sparse, r: int): nat
    requires WellFormed(s)
  {
    Below(s, r, |s.value|)
  }

  lemma {:induction false} BelowNext(s: Sparse, r: int, i: nat)
    requires WellFormed(s) && i <= |s.value|
    ensures Below(s, r + 1, i) == Below(s, r, i) + |RowTo(s, r, i)|
    ensures Below(s, 0, i) == 0 && Below(s, s.rows, i) == i
  {
    if i > 0 {
      BelowNext(s, r, i - 1);
    }
  }

  lemma {:induction false} BelowMonotone(s: Sparse, r: int, r': int, i: nat)
    requires WellFormed(s) && i <= |s.value| && r <= r'
    ensures Below(s, r, i) <= Below(s, r', i)
  {
    if i > 0 {
      BelowMonotone(s, r, r', i - 1);
    }
  }

  lemma {:induction false} RowGrows(s: Sparse, r: int, i: nat, i': nat)
    requires WellFormed(s) && i <= i' <= |s.value|
    ensures |RowTo(s, r, i)| <= |RowTo(s, r, i')|
  {
    if i < i' {
      RowGrows(s, r, i, i' - 1);
    }
  }

  /** Phase 1: p[r] counts row r's entries before place i. */
  ghost predicate Counted(s: Sparse, p: seq<int>, i: nat) {
    && WellFormed(s) && |p| == s.rows + 1 && i <= |s.value| && p[s.rows] == 0
    && forall r :: 0 <= r < s.rows ==> p[r] == |RowTo(s, r, i)|
  }

  /** Phase 2: from index r + 1 up the array already holds the starts of the preceding rows. */
  ghost predicate Shifting(s: Sparse, p: seq<int>, r: nat) {
    && WellFormed(s) && |p| == s.rows + 1 && r < s.rows
    && (forall q :: 0 <= q <= r ==> p[q] == |Row(s, q)|)
    && (forall q :: r < q <= s.rows ==> p[q] == Start(s, q - 1))
  }

  /** Phase 3: p[r+1] is where row r's next entry goes; the entries before place i are in. */
  ghost predicate Filled(s: Sparse, p: seq<int>, ri: seq<int>, va: seq<real>, i: nat) {
    && WellFormed(s) && |p| == s.rows + 1 && |ri| == |va| == |s.value| && i <= |s.value| && p[0] == 0
    && (forall r :: 0 <= r < s.rows ==> p[r + 1] == Start(s, r) + |RowTo(s, r, i)|)
    && (forall r :: 0 <= r < s.rows ==> Block(s, ri, va, r, i))
  }

  ghost predicate Block(s: Sparse, ri: seq<int>, va: seq<real>, r: nat, i: nat) {
    && WellFormed(s) && |ri| == |va| == |s.value| && i <= |s.value|
    && Start(s, r) + |RowTo(s, r, i)| <= |s.value|
    && forall k :: 0 <= k < |RowTo(s, r, i)| ==>
         (ri[Start(s, r) + k], va[Start(s, r) + k]) == RowTo(s, r, i)[k]
  }

  lemma CountStart(s: Sparse, p: seq<int>)
    requires WellFormed(s) && |p| == s.rows + 1 && forall r :: 0 <= r <= s.rows ==> p[r] == 0
    ensures Counted(s, p, 0)
  {
  }

  lemma ColumnBounds(s: Sparse, c: nat)
    requires WellFormed(s) && c < s.cols
    ensures Begin(s, c) <= Begin(s, c + 1) <= |s.value|
  {
  }

  lemma CountStep(s: Sparse, p: seq<int>, i: nat)
    requires Counted(s, p, i) && i < |s.value|
    ensures var r := s.rowind[i];
            0 <= r < s.rows && Counted(s, p[r := p[r] + 1], i + 1)
  {
  }

  lemma ShiftStart(s: Sparse, p: seq<int>)
    requires Counted(s, p, |s.value|) && s.rows >= 1
    ensures Shifting(s, p[s.rows := |s.value| - p[s.rows - 1]], s.rows - 1)
  {
    BelowNext(s, s.rows - 1, |s.value|);
  }

  lemma ShiftStep(s: Sparse, p: seq<int>, r: nat)
    requires Shifting(s, p, r) && r > 0
    ensures Shifting(s, p[r := p[r + 1] - p[r - 1]], r - 1)
  {
    BelowNext(s, r - 1, |s.value|);
  }

  lemma FillStart(s: Sparse, p: seq<int>, ri: seq<int>, va: seq<real>)
    requires Shifting(s, p, 0) && |ri| == |va| == |s.value|
    ensures Filled(s, p[0 := 0], ri, va, 0)
  {
    forall r | 0 <= r < s.rows ensures Block(s, ri, va, r, 0) {
      BelowMonotone(s, r, s.rows, |s.value|);
      BelowNext(s, r, |s.value|);
    }
  }

  /** The slot for entry i is inside its row's block, so inside the arrays and outside other blocks. */
  lemma SlotInBlock(s: Sparse, r: nat, i: nat)
    requires WellFormed(s) && i < |s.value| && s.rowind[i] == r
    ensures Start(s, r) + |RowTo(s, r, i)| < Start(s, r + 1) <= |s.value|
  {
    RowGrows(s, r, i + 1, |s.value|);
    BelowNext(s, r, |s.value|);
    BelowMonotone(s, r + 1, s.rows, |s.value|);
  }

  lemma FillStep(s: Sparse, p: seq<int>, ri: seq<int>, va: seq<real>, i: nat, c: nat)
    requires Filled(s, p, ri, va, i) && i < |s.value| && InColumn(s, i, c)
    ensures var r := s.rowind[i];
            var j := p[r + 1];
            && 0 <= r < s.rows && 0 <= j < |s.value|
            && Filled(s, p[r + 1 := j + 1], ri[j := c], va[j := s.value[i]], i + 1)
  {
    var r := s.rowind[i];
    var j := p[r + 1];
    SlotInBlock(s, r, i);
    ColumnUnique(s, i, c, ColumnAt(s, i));
    var ri', va', i' := ri[j := c], va[j := s.value[i]], i + 1;
    forall q | 0 <= q < s.rows ensures Block(s, ri', va', q, i') {
      BlockKept(s, ri, va, q, i, r, j, c);
    }
  }

  /** Another row's block: it does not reach slot j, and gains nothing. */
  lemma BlockApart(s: Sparse, ri: seq<int>, va: seq<real>, q: nat, i: nat, j: nat, c: int)
    requires WellFormed(s) && i < |s.value| && q != s.rowind[i] && Block(s, ri, va, q, i)
    requires j < |s.value| && !(Start(s, q) <= j < Start(s, q) + |RowTo(s, q, i)|)
    ensures Block(s, ri[j := c], va[j := s.value[i]], q, i + 1)
  {
    hide Start;
  }

  /** The entry's own row: its block grows by slot j. */
  lemma BlockGrows(s: Sparse, ri: seq<int>, va: seq<real>, i: nat, r: nat, j: nat, c: nat)
    requires WellFormed(s) && i < |s.value| && r == s.rowind[i] && Block(s, ri, va, r, i)
    requires j == Start(s, r) + |RowTo(s, r, i)| < |s.value| && c == ColumnAt(s, i)
    ensures Block(s, ri[j := c], va[j := s.value[i]], r, i + 1)
  {
    hide Start;
  }

  lemma RowsApart(s: Sparse, q: nat, r: nat, i: nat)
    requires WellFormed(s) && q < r < s.rows && i <= |s.value|
    ensures Start(s, q) + |RowTo(s, q, i)| <= Start(s, r)
  {
    RowGrows(s, q, i, |s.value|);
    BelowNext(s, q, |s.value|);
    BelowMonotone(s, q + 1, r, |s.value|);
  }

  lemma BlockKept(s: Sparse, ri: seq<int>, va: seq<real>, q: nat, i: nat, r: nat, j: nat, c: nat)
    requires WellFormed(s) && i < |s.value| && r == s.rowind[i] && q < s.rows && Block(s, ri, va, q, i)
    requires j == Start(s, r) + |RowTo(s, r, i)| < Start(s, r + 1) <= |s.value| && c == ColumnAt(s, i)
    ensures Block(s, ri[j := c], va[j := s.value[i]], q, i + 1)
  {
    hide Block, Start;
    if q < r {
      RowsApart(s, q, r, i);
      BlockApart(s, ri, va, q, i, j, c);
    } else if q > r {
      StartMonotone(s, r + 1, q);
      BlockApart(s, ri, va, q, i, j, c);
    } else {
      BlockGrows(s, ri, va, i, r, j, c);
    }
  }

  lemma StartMonotone(s: Sparse, r: nat, q: nat)
    requires WellFormed(s) && r <= q
    ensures Start(s, r) <= Start(s, q)
  {
    BelowMonotone(s, r, q, |s.value|);
  }

  // ---------- the result ----------

  lemma {:induction false} ColumnIsSlice(t: Sparse, c: nat, i: nat)
    requires WellFormed(t) && c < t.cols && i <= |t.value|
    ensures var es := ColumnTo(t, c, i);
            && |es| == (if i <= Begin(t, c) then 0
                        else if i <= Begin(t, c + 1) then i - Begin(t, c)
                        else Begin(t, c + 1) - Begin(t, c))
            && forall k :: 0 <= k < |es| ==> es[k] == (t.rowind[Begin(t, c) + k], t.value[Begin(t, c) + k])
  {
    if i > 0 {
      ColumnIsSlice(t, c, i - 1);
    }
  }

  lemma FilledStarts(s: Sparse, p: seq<int>, ri: seq<int>, va: seq<real>)
    requires Filled(s, p, ri, va, |s.value|)
    ensures forall r :: 0 <= r <= s.rows ==> p[r] == Start(s, r)
    ensures p[s.rows] == |s.value|
  {
    forall r | 0 <= r <= s.rows ensures p[r] == Start(s, r) {
      BelowNext(s, if r > 0 then r - 1 else 0, |s.value|);
    }
    BelowNext(s, 0, |s.value|);
  }

  lemma FilledWellFormed(s: Sparse, p: seq<int>, ri: seq<int>, va: seq<real>)
    requires Filled(s, p, ri, va, |s.value|)
    ensures WellFormed(Sparse(s.cols, s.rows, p, ri, va))
  {
    FilledStarts(s, p, ri, va);
    hide Filled, Below;
    forall r, r' | 0 <= r <= r' <= s.rows ensures p[r] <= p[r'] {
      BelowMonotone(s, r, r', |s.value|);
    }
    forall i | 0 <= i < |ri| ensures 0 <= ri[i] < s.cols {
      PlaceInRow(s, p, ri, va, i, s.rows);
    }
  }

  lemma FilledIsTranspose(s: Sparse, p: seq<int>, ri: seq<int>, va: seq<real>)
    requires Filled(s, p, ri, va, |s.value|)
    ensures IsTranspose(s, Sparse(s.cols, s.rows, p, ri, va))
  {
    var t := Sparse(s.cols, s.rows, p, ri, va);
    FilledStarts(s, p, ri, va);
    FilledWellFormed(s, p, ri, va);
    forall r | 0 <= r < s.rows ensures Column(t, r) == Row(s, r) {
      assert Block(s, ri, va, r, |s.value|);
      BlockIsColumn(s, t, r);
    }
  }

  lemma BlockIsColumn(s: Sparse, t: Sparse, r: nat)
    requires WellFormed(s) && WellFormed(t) && r < s.rows == t.cols && |t.value| == |s.value|
    requires Block(s, t.rowind, t.value, r, |s.value|)
    requires t.pointr[r] == Start(s, r) && t.pointr[r + 1] == Start(s, r + 1)
    ensures Column(t, r) == Row(s, r)
  {
    ColumnIsSlice(t, r, |s.value|);
    BelowNext(s, r, |s.value|);
  }

  /** Every place below the start of row b lies in some row's block. */
  lemma {:induction false} PlaceInRow(s: Sparse, p: seq<int>, ri: seq<int>, va: seq<real>, i: nat, b: nat)
    requires Filled(s, p, ri, va, |s.value|) && b <= s.rows && i < Start(s, b) && i < |ri|
    ensures 0 <= ri[i] < s.cols
    decreases b
  {
    BelowNext(s, b - 1, |s.value|);
    if i < Start(s, b - 1) {
      PlaceInRow(s, p, ri, va, i, b - 1);
    } else {
      RowSorted(s, b - 1, |s.value|);
      assert Block(s, ri, va, b - 1, |s.value|);
      var k := i - Start(s, b - 1);
      assert (ri[Start(s, b - 1) + k], va[Start(s, b - 1) + k]) == Row(s, b - 1)[k];
    }
  }
}
