/**
 Two's-complement numbers in base 2^16, least significant word first, on
 values: what a sequence of words means, when it is canonical, and that the
 canonical form of a value is unique.
 */
module BignumValues {

  const BASE: int := 0x10000

  ghost predicate IsWords(ws: seq<int>) {
    forall k :: 0 <= k < |ws| ==> 0 <= ws[k] < BASE
  }

  /** Word k written, seen in the words from `from` to `to` - 1. */
  lemma SliceWritten(ws: seq<int>, k: nat, x: int, from: nat, to: nat)
    requires from <= k < to <= |ws|
    ensures ws[k := x][from..k + 1] == ws[from..k] + [x]
    ensures ws[k := x][k + 1..to] == ws[k..to][1..]
  {
  }

  lemma WordStored(ws: seq<int>, i: nat, w: int)
    requires IsWords(ws) && i < |ws| && 0 <= w < BASE
    ensures IsWords(ws[i := w])
  {
  }

  lemma WordAt(ws: seq<int>, i: nat)
    requires IsWords(ws) && i < |ws|
    ensures 0 <= ws[i] < BASE
  {
  }

  /** The value with every word taken as nonnegative. */
  ghost function Unsigned(ws: seq<int>): int {
    if ws == [] then 0 else ws[0] + BASE * Unsigned(ws[1..])
  }

  /** The two's-complement value. */
  ghost function Signed(ws: seq<int>): int
    requires ws != []
  {
    if |ws| == 1 then (if ws[0] >= 0x8000 then ws[0] - BASE else ws[0])
    else ws[0] + BASE * Signed(ws[1..])
  }

  ghost predicate Negative(ws: seq<int>)
    requires ws != []
  {
    ws[|ws| - 1] >= 0x8000
  }

  /** No top word that only repeats the sign of the word below it. */
  ghost predicate Canonical(ws: seq<int>) {
    && ws != []
    && (|ws| >= 2 && ws[|ws| - 1] == 0 ==> ws[|ws| - 2] >= 0x8000)
    && (|ws| >= 2 && ws[|ws| - 1] == 0xffff ==> ws[|ws| - 2] < 0x8000)
  }

  ghost function Power(n: nat): int {
    if n == 0 then 1 else BASE * Power(n - 1)
  }

  lemma {:induction false} UnsignedRange(ws: seq<int>)
    requires IsWords(ws)
    ensures 0 <= Unsigned(ws) < Power(|ws|)
  {
    if ws != [] {
      UnsignedRange(ws[1..]);
    }
  }

  lemma {:induction false} SignedUnsigned(ws: seq<int>)
    requires IsWords(ws) && ws != []
    ensures Signed(ws) == Unsigned(ws) - if Negative(ws) then Power(|ws|) else 0
    ensures Negative(ws) <==> 2 * Unsigned(ws) >= Power(|ws|)
    ensures Negative(ws) <==> Signed(ws) < 0
  {
    SignedIsUnsigned(ws);
    NegativeUpperHalf(ws);
    UnsignedRange(ws);
  }

  lemma {:induction false} SignedIsUnsigned(ws: seq<int>)
    requires ws != []
    ensures Signed(ws) == Unsigned(ws) - if Negative(ws) then Power(|ws|) else 0
  {
    if |ws| == 1 {
      assert ws[1..] == [] && Power(1) == BASE * Power(0);
    } else {
      SignedIsUnsigned(ws[1..]);
    }
  }

  lemma HalfStep(w: int, u: int, p: int, half: int)
    requires 0 <= w < BASE && p == 2 * half
    ensures 2 * (w + BASE * u) >= BASE * p <==> 2 * u >= p
  {
  }

  lemma {:induction false} NegativeUpperHalf(ws: seq<int>)
    requires IsWords(ws) && ws != []
    ensures Negative(ws) <==> 2 * Unsigned(ws) >= Power(|ws|)
  {
    if |ws| == 1 {
      assert ws[1..] == [] && Power(1) == BASE * Power(0);
    } else {
      NegativeUpperHalf(ws[1..]);
      assert Power(|ws| - 1) == 2 * (0x8000 * Power(|ws| - 2));
      HalfStep(ws[0], Unsigned(ws[1..]), Power(|ws| - 1), 0x8000 * Power(|ws| - 2));
    }
  }

  // ---------- words on top ----------

  lemma {:induction false} UnsignedAppendZero(ws: seq<int>)
    ensures Unsigned(ws + [0]) == Unsigned(ws)
  {
    if ws == [] {
      assert (ws + [0])[1..] == [];
    } else {
      assert (ws + [0])[1..] == ws[1..] + [0];
      UnsignedAppendZero(ws[1..]);
    }
  }

  /** A top word that repeats the sign changes nothing. */
  lemma {:induction false} SignExtension(ws: seq<int>, w: int)
    requires IsWords(ws) && ws != [] && w == if Negative(ws) then 0xffff else 0
    ensures Signed(ws + [w]) == Signed(ws)
  {
    if |ws| == 1 {
      assert (ws + [w])[1..] == [w];
    } else {
      assert (ws + [w])[1..] == ws[1..] + [w];
      SignExtension(ws[1..], w);
    }
  }

  /** Top words that all repeat the sign can be dropped. */
  lemma {:induction false} StripFill(ws: seq<int>, k: nat, w: int)
    requires IsWords(ws) && 1 <= k <= |ws|
    requires w == if ws[k - 1] >= 0x8000 then 0xffff else 0
    requires forall j :: k <= j < |ws| ==> ws[j] == w
    ensures Signed(ws[..k]) == Signed(ws)
  {
    if k == |ws| {
      assert ws[..k] == ws;
    } else {
      var t := ws[..|ws| - 1];
      assert ws == t + [w] && t[..k] == ws[..k];
      StripFill(t, k, w);
      SignExtension(t, w);
    }
  }

  /** What contract_bignum keeps of ws when the words from i on all equal w and word i - 1 does not. */
  lemma Contracted(ws: seq<int>, i: int, w: int, k: nat)
    requires IsWords(ws) && ws != [] && (w == 0 || w == 0xffff) && -1 <= i < |ws| - 1
    requires forall j :: i < j < |ws| ==> ws[j] == w
    requires i >= 0 ==> ws[i] != w && k == i + 1 + if ws[i] >= 0x8000 <==> w == 0 then 1 else 0
    requires i == -1 ==> k == 1
    ensures 1 <= k <= |ws| && Canonical(ws[..k]) && Signed(ws[..k]) == Signed(ws)
  {
    StripFill(ws, k, w);
  }

  // ---------- the canonical form is unique ----------

  lemma SplitUnique(w: int, u: int, w': int, u': int)
    requires 0 <= w < BASE && 0 <= w' < BASE && w + BASE * u == w' + BASE * u'
    ensures w == w' && u == u'
  {
  }

  lemma SignedStep(ws: seq<int>)
    requires |ws| >= 2
    ensures Signed(ws) == ws[0] + BASE * Signed(ws[1..])
  {
  }

  /** Equal numbers of two words or more have equal lowest words, and the rest is equal. */
  lemma SignedSplit(a: seq<int>, b: seq<int>)
    requires IsWords(a) && IsWords(b) && |a| >= 2 && |b| >= 2 && Signed(a) == Signed(b)
    ensures a[0] == b[0] && Signed(a[1..]) == Signed(b[1..])
  {
    hide Signed;
    SignedStep(a);
    SignedStep(b);
    SplitUnique(a[0], Signed(a[1..]), b[0], Signed(b[1..]));
  }

  /** Numbers of one word and of more: the longer one is not canonical. */
  lemma OneAgainstMore(a: seq<int>, b: seq<int>)
    requires IsWords(a) && IsWords(b) && |a| == 1 && |b| >= 2 && Canonical(b) && Signed(a) == Signed(b)
    ensures Signed(b[1..]) == if a[0] >= 0x8000 then -1 else 0
    ensures b[1..] != [if a[0] >= 0x8000 then 0xffff else 0]
  {
    SignedStep(b);
    assert Signed(a) == a[0] + BASE * if a[0] >= 0x8000 then -1 else 0;
    SplitUnique(a[0], if a[0] >= 0x8000 then -1 else 0, b[0], Signed(b[1..]));
  }

  lemma CanonicalTail(ws: seq<int>)
    requires IsWords(ws) && Canonical(ws) && |ws| >= 2
    ensures IsWords(ws[1..]) && Canonical(ws[1..])
  {
  }

  lemma OneWordCanonical(w: int)
    requires w == 0 || w == 0xffff
    ensures IsWords([w]) && Canonical([w]) && Signed([w]) == if w == 0 then 0 else -1
  {
  }

  lemma {:induction false} CanonicalUnique(a: seq<int>, b: seq<int>)
    requires IsWords(a) && IsWords(b) && Canonical(a) && Canonical(b)
    requires Signed(a) == Signed(b)
    ensures a == b
    decreases |a| + |b|, |a|
  {
    if |a| == 1 && |b| == 1 {
    } else if |b| == 1 {
      CanonicalUnique(b, a);
    } else if |a| == 1 {
      hide Canonical, Signed, IsWords;
      var w := if a[0] >= 0x8000 then 0xffff else 0;
      OneAgainstMore(a, b);
      CanonicalTail(b);
      OneWordCanonical(w);
      CanonicalUnique([w], b[1..]);
      assert false;
    } else {
      hide Canonical;
      SignedSplit(a, b);
      CanonicalTail(a);
      CanonicalTail(b);
      CanonicalUnique(a[1..], b[1..]);
      assert a == [a[0]] + a[1..] && b == [b[0]] + b[1..];
    }
  }
}
