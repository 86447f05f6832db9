/**
 The carry loops of bignum.c on values: one row of a schoolbook product, one
 digit of a decimal parse, and a two's-complement negation, each with the
 number it makes.
 */
module BignumRows {
  import opened Integers
  import opened BignumValues

  // ---------- 32-bit int arithmetic on unsigned words ----------

  /** An unsigned 32-bit value stored in an int. */
  function ToInt(t: int): int {
    var u := t % 0x1_0000_0000;
    if u >= 0x8000_0000 then u - 0x1_0000_0000 else u
  }

  /** x & 0xffff, and x >> 16 with the sign carried along. */
  function Low16(x: int): int {
    x % 0x10000
  }

  function Shift16(x: int): int {
    x / 0x10000
  }

  lemma WordStep(t: int)
    requires 0 <= t < 0x1_0000_0000
    ensures Low16(ToInt(t)) == t % BASE
    ensures Low16(Shift16(ToInt(t))) == t / BASE
    ensures 0 <= t % BASE < BASE && 0 <= t / BASE < BASE
  {
  }

  lemma ProductOfWords(a: int, b: int, c: int, d: int)
    requires 0 <= a < BASE && 0 <= b < BASE && 0 <= c < BASE && 0 <= d < BASE
    ensures 0 <= c + d + a * b < 0x1_0000_0000
  {
    MulMonotone(a, 0, b);
    MulMonotone(a, b, 0xffff);
    assert 0 <= a * b <= a * 0xffff;
  }

  /** A word moved from the front of the rest to the end of what is done. */
  lemma MoveWord(done: seq<int>, w: int, rest: seq<int>)
    ensures done + ([w] + rest) == (done + [w]) + rest
  {
  }

  // ---------- one row of a product ----------

  /** acc + m * big + c, one word longer than big. */
  ghost function AddMul(acc: seq<int>, big: seq<int>, m: int, c: int): (r: seq<int>)
    requires |acc| == |big|
    ensures |r| == |big| + 1
  {
    if big == [] then [c]
    else
      var t := acc[0] + c + big[0] * m;
      [t % BASE] + AddMul(acc[1..], big[1..], m, t / BASE)
  }

  lemma AddMulStep(acc: seq<int>, big: seq<int>, m: int, j: nat, c: int)
    requires |acc| == |big| && j < |big|
    ensures var t := acc[j] + c + big[j] * m;
            AddMul(acc[j..], big[j..], m, c) == [t % BASE] + AddMul(acc[j + 1..], big[j + 1..], m, t / BASE)
  {
    assert acc[j..][1..] == acc[j + 1..] && big[j..][1..] == big[j + 1..];
  }

  lemma AddMulEmpty(m: int, c: int)
    ensures AddMul([], [], m, c) == [c]
  {
  }

  /** The row is done up to word j of it, with the carry c left; the words after that are as they were. */
  ghost predicate RowTo(v: seq<int>, acc: seq<int>, big: seq<int>, m: int, i: nat, j: nat, c: int) {
    && i + |big| <= |v| && j <= |big| == |acc|
    && v[i..i + j] + AddMul(acc[j..], big[j..], m, c) == AddMul(acc, big, m, 0)
    && v[i + j..i + |big|] == acc[j..]
  }

  lemma RowStart(v: seq<int>, acc: seq<int>, big: seq<int>, m: int, i: nat)
    requires |acc| == |big| && i + |big| <= |v| && acc == v[i..i + |big|]
    ensures RowTo(v, acc, big, m, i, 0, 0)
  {
    assert acc[0..] == acc && big[0..] == big && v[i..i] == [];
  }

  lemma RowNext(v: seq<int>, acc: seq<int>, big: seq<int>, m: int, i: nat, j: nat, c: int)
    requires RowTo(v, acc, big, m, i, j, c) && j < |big|
    ensures var t := v[i + j] + c + big[j] * m;
            RowTo(v[i + j := t % BASE], acc, big, m, i, j + 1, t / BASE)
  {
    hide AddMul;
    var t := v[i + j] + c + big[j] * m;
    assert v[i + j] == v[i + j..i + |big|][0] == acc[j..][0] == acc[j];
    AddMulStep(acc, big, m, j, c);
    SliceWritten(v, i + j, t % BASE, i, i + |big|);
    MoveWord(v[i..i + j], t % BASE, AddMul(acc[j + 1..], big[j + 1..], m, t / BASE));
    assert acc[j..][1..] == acc[j + 1..];
  }

  lemma RowEnd(v: seq<int>, acc: seq<int>, big: seq<int>, m: int, i: nat, c: int)
    requires RowTo(v, acc, big, m, i, |big|, c)
    ensures v[i..i + |big|] + [c] == AddMul(acc, big, m, 0)
  {
    AddMulEmpty(m, c);
    assert acc[|big|..] == [] && big[|big|..] == [];
  }

  lemma {:induction false} AddMulValue(acc: seq<int>, big: seq<int>, m: int, c: int)
    requires |acc| == |big|
    ensures Unsigned(AddMul(acc, big, m, c)) == Unsigned(acc) + m * Unsigned(big) + c
  {
    if big == [] {
      assert [c][1..] == [];
    } else {
      var t := acc[0] + c + big[0] * m;
      var rest := AddMul(acc[1..], big[1..], m, t / BASE);
      AddMulValue(acc[1..], big[1..], m, t / BASE);
      assert AddMul(acc, big, m, c)[1..] == rest;
      var u := Unsigned(big[1..]);
      assert m * (big[0] + BASE * u) == big[0] * m + BASE * (m * u);
    }
  }

  // ---------- finished low words under an unfinished value ----------

  /** The number whose low words are `low` and whose rest is v. */
  ghost function Glue(low: seq<int>, v: int): int {
    if low == [] then v else low[0] + BASE * Glue(low[1..], v)
  }

  lemma {:induction false} GlueAppend(low: seq<int>, w: int, v: int)
    ensures Glue(low + [w], v) == Glue(low, w + BASE * v)
  {
    if low == [] {
      assert (low + [w])[1..] == [];
    } else {
      assert (low + [w])[1..] == low[1..] + [w];
      GlueAppend(low[1..], w, v);
    }
  }

  lemma {:induction false} GlueUnsigned(low: seq<int>, high: seq<int>)
    ensures Unsigned(low + high) == Glue(low, Unsigned(high))
  {
    if low == [] {
      assert low + high == high;
    } else {
      assert (low + high)[1..] == low[1..] + high;
      GlueUnsigned(low[1..], high);
    }
  }

  ghost predicate AllZero(ws: seq<int>) {
    forall k :: 0 <= k < |ws| ==> ws[k] == 0
  }

  lemma AllZeroAt(ws: seq<int>, from: nat, k: nat)
    requires from <= k < |ws| && AllZero(ws[from..])
    ensures ws[k] == 0
  {
    assert ws[k] == ws[from..][k - from];
  }

  lemma ZerosAllZero(ws: seq<int>, from: nat)
    requires ws == seq(|ws|, _ => 0) && from <= |ws|
    ensures AllZero(ws) && AllZero(ws[from..]) && IsWords(ws)
  {
  }

  lemma {:induction false} UnsignedZeros(ws: seq<int>, zeros: seq<int>)
    requires AllZero(zeros)
    ensures Unsigned(ws + zeros) == Unsigned(ws)
    decreases |zeros|
  {
    if zeros == [] {
      assert ws + zeros == ws;
    } else {
      var z := zeros[..|zeros| - 1];
      assert ws + zeros == (ws + z) + [0];
      UnsignedAppendZero(ws + z);
      UnsignedZeros(ws, z);
    }
  }

  /** What is still to come when rows below i are done: v from word i on plus big times the rest of small. */
  ghost function Remaining(v: seq<int>, big: seq<int>, small: seq<int>, i: nat): int
    requires i <= |v| && i <= |small|
  {
    Unsigned(v[i..]) + Times(Unsigned(big), Unsigned(small[i..]))
  }

  lemma UnsignedEmpty()
    ensures Unsigned([]) == 0
  {
  }

  lemma UnsignedTail(ws: seq<int>, i: nat)
    requires i < |ws|
    ensures Unsigned(ws[i..]) == ws[i] + BASE * Unsigned(ws[i + 1..])
  {
    assert ws[i..][1..] == ws[i + 1..];
  }

  /** A whole row: v holds the sum so far, zero from word i + |big| on. */
  lemma RowAdds(v: seq<int>, v': seq<int>, big: seq<int>, small: seq<int>, i: nat)
    requires i < |small| && big != [] && |v| == |v'| == |big| + |small|
    requires AllZero(v[i + |big|..])
    requires v'[..i] == v[..i]
    requires v'[i..i + |big| + 1] == AddMul(v[i..i + |big|], big, small[i], 0)
    requires v'[i + |big| + 1..] == v[i + |big| + 1..]
    ensures Glue(v'[..i + 1], Remaining(v', big, small, i + 1)) == Glue(v[..i], Remaining(v, big, small, i))
  {
    hide Unsigned, AddMul, Glue, Remaining, AllZero;
    RemainingStep(v, v', big, small, i);
    OneWordMore(v', i);
    GlueAppend(v[..i], v'[i], Remaining(v', big, small, i + 1));
  }

  lemma OneWordMore(v: seq<int>, i: nat)
    requires i < |v|
    ensures v[..i + 1] == v[..i] + [v[i]]
  {
  }

  lemma RemainingStep(v: seq<int>, v': seq<int>, big: seq<int>, small: seq<int>, i: nat)
    requires i < |small| && big != [] && |v| == |v'| == |big| + |small|
    requires AllZero(v[i + |big|..])
    requires v'[i..i + |big| + 1] == AddMul(v[i..i + |big|], big, small[i], 0)
    requires v'[i + |big| + 1..] == v[i + |big| + 1..]
    ensures Remaining(v, big, small, i) == v'[i] + BASE * Remaining(v', big, small, i + 1)
  {
    hide Unsigned, AddMul, Times;
    RowUnsigned(v, v', big, small[i], i);
    UnsignedTail(v', i);
    UnsignedTail(small, i);
    DistributeRow(Unsigned(big), small[i], Unsigned(small[i + 1..]));
  }

  lemma DistributeRow(u: int, m: int, y: int)
    ensures Times(u, m + BASE * y) == Times(m, u) + BASE * Times(u, y)
  {
  }

  lemma RowUnsigned(v: seq<int>, v': seq<int>, big: seq<int>, m: int, i: nat)
    requires |v| == |v'| && i + |big| < |v|
    requires AllZero(v[i + |big|..])
    requires v'[i..i + |big| + 1] == AddMul(v[i..i + |big|], big, m, 0)
    requires v'[i + |big| + 1..] == v[i + |big| + 1..]
    ensures Unsigned(v'[i..]) == Unsigned(v[i..]) + Times(m, Unsigned(big))
  {
    hide Unsigned, AddMul;
    var n := |big|;
    var row := AddMul(v[i..i + n], big, m, 0);
    assert AllZero(v'[i + n + 1..]) by {
      assert v[i + n..][1..] == v[i + n + 1..];
    }
    assert v[i..] == v[i..i + n] + v[i + n..];
    UnsignedZeros(v[i..i + n], v[i + n..]);
    assert v'[i..] == row + v'[i + n + 1..];
    UnsignedZeros(row, v'[i + n + 1..]);
    AddMulValue(v[i..i + n], big, m, 0);
  }

  // ---------- negation ----------

  /** Every word inverted, plus the carry rippling up. */
  ghost function Negated(ws: seq<int>, carry: int): (r: seq<int>)
    ensures |r| == |ws|
  {
    if ws == [] then []
    else
      var v := (0xffff - ws[0] + carry) % BASE;
      [v] + Negated(ws[1..], if v == 0 && carry == 1 then 1 else 0)
  }

  lemma NegatedEmpty(carry: int)
    ensures Negated([], carry) == []
  {
  }

  lemma NegatedStep(ws: seq<int>, i: nat, carry: int)
    requires i < |ws|
    ensures var v := (0xffff - ws[i] + carry) % BASE;
            Negated(ws[i..], carry) == [v] + Negated(ws[i + 1..], if v == 0 && carry == 1 then 1 else 0)
  {
    assert ws[i..][1..] == ws[i + 1..];
  }

  lemma InvertedWord(w: int, carry: int)
    requires 0 <= w < BASE && (carry == 0 || carry == 1)
    ensures var v := (0xffff - w + carry) % BASE;
            v == 0xffff - w + carry - BASE * if v == 0 && carry == 1 then 1 else 0
  {
  }

  /** Negating a nonnegative number. */
  lemma {:induction false} NegatedSigned(ws: seq<int>, carry: int)
    requires IsWords(ws) && ws != [] && (carry == 0 || (carry == 1 && !Negative(ws)))
    ensures Signed(Negated(ws, carry)) == carry - 1 - Signed(ws)
  {
    var v := (0xffff - ws[0] + carry) % BASE;
    var c := if v == 0 && carry == 1 then 1 else 0;
    InvertedWord(ws[0], carry);
    assert Negated(ws, carry) == [v] + Negated(ws[1..], c);
    if |ws| > 1 {
      NegatedSigned(ws[1..], c);
    }
  }

  /** Negating a negative number: its magnitude, read without a sign. */
  lemma {:induction false} NegatedMagnitude(ws: seq<int>, carry: int)
    requires IsWords(ws) && ws != [] && (carry == 0 || carry == 1) && Negative(ws)
    ensures Unsigned(Negated(ws, carry)) == carry - 1 - Signed(ws)
  {
    var v := (0xffff - ws[0] + carry) % BASE;
    var c := if v == 0 && carry == 1 then 1 else 0;
    assert Negated(ws, carry)[1..] == Negated(ws[1..], c);
    InvertedWord(ws[0], carry);
    if |ws| > 1 {
      NegatedMagnitude(ws[1..], c);
    } else {
      assert Negated(ws[1..], c) == [];
    }
  }

  // ---------- one decimal digit ----------

  ghost function Zeros(n: nat): (z: seq<int>)
    ensures |z| == n && AllZero(z)
  {
    seq(n, _ => 0)
  }

  /** 10 * ws + c. */
  ghost function TimesTen(ws: seq<int>, c: int): (r: seq<int>)
    ensures |r| == |ws| + 1
  {
    AddMul(Zeros(|ws|), ws, 10, c)
  }

  lemma TimesTenEmpty(c: int)
    ensures TimesTen([], c) == [c]
  {
  }

  lemma OneWord(w: int)
    requires 0 <= w < BASE
    ensures TimesTen([0], w) == [w, 0]
  {
    TimesTenStep([0], w);
    TimesTenEmpty(0);
    assert [0][1..] == [];
  }

  lemma TimesTenStep(ws: seq<int>, c: int)
    requires ws != []
    ensures var t := c + ws[0] * 10;
            TimesTen(ws, c) == [t % BASE] + TimesTen(ws[1..], t / BASE)
  {
    assert Zeros(|ws|)[1..] == Zeros(|ws| - 1);
  }

  lemma TimesTenValue(ws: seq<int>, c: int)
    ensures Unsigned(TimesTen(ws, c)) == 10 * Unsigned(ws) + c
  {
    AddMulValue(Zeros(|ws|), ws, 10, c);
    UnsignedZeros([], Zeros(|ws|));
    assert [] + Zeros(|ws|) == Zeros(|ws|);
  }

  // ---------- a whole product ----------

  /** One row done, its carry put into the word above, which was zero: nothing is lost there. */
  lemma RowDone(v: seq<int>, v': seq<int>, big: seq<int>, small: seq<int>, i: nat, carry: int)
    requires i < |small| && big != [] && |v| == |v'| == |big| + |small|
    requires AllZero(v[i + |big|..]) && 0 <= carry < BASE
    requires v'[i..i + |big|] + [carry] == AddMul(v[i..i + |big|], big, small[i], 0)
    requires v'[i + |big|] == carry
    requires forall k :: 0 <= k < |v| && (k < i || k > i + |big|) ==> v'[k] == v[k]
    ensures AllZero(v'[i + 1 + |big|..])
    ensures Glue(v'[..i + 1], Remaining(v', big, small, i + 1)) == Glue(v[..i], Remaining(v, big, small, i))
  {
    hide Unsigned, AddMul, Glue, Remaining;
    assert v'[i..i + |big| + 1] == v'[i..i + |big|] + [carry];
    assert v'[..i] == v[..i];
    assert v'[i + |big| + 1..] == v[i + |big| + 1..];
    RowAdds(v, v', big, small, i);
  }

  lemma StartGlue(v: seq<int>, big: seq<int>, small: seq<int>)
    requires AllZero(v)
    ensures Glue(v[..0], Remaining(v, big, small, 0)) == Times(Unsigned(big), Unsigned(small))
  {
    UnsignedZeros([], v);
    assert [] + v == v && v[0..] == v && small[0..] == small && v[..0] == [];
  }

  lemma RemainingDone(v: seq<int>, big: seq<int>, small: seq<int>)
    requires |small| <= |v|
    ensures Remaining(v, big, small, |small|) == Unsigned(v[|small|..])
  {
    assert small[|small|..] == [];
    TimesZero(Unsigned(big));
  }

  lemma TimesZero(u: int)
    ensures Times(u, 0) == 0
  {
  }

  lemma EndGlue(v: seq<int>, big: seq<int>, small: seq<int>)
    requires |small| <= |v|
    requires Glue(v[..|small|], Remaining(v, big, small, |small|)) == Times(Unsigned(big), Unsigned(small))
    ensures Unsigned(v) == Times(Unsigned(big), Unsigned(small))
  {
    hide Unsigned, Glue, Remaining, Times;
    var i := |small|;
    RemainingDone(v, big, small);
    assert v == v[..i] + v[i..];
    GlueUnsigned(v[..i], v[i..]);
  }

  /** The product of the unsigned readings, read as a signed number of all the words of both. */
  ghost function SignedProduct(a: seq<int>, b: seq<int>): int
    requires a != [] && b != []
  {
    var p, q := Unsigned(a) * Unsigned(b), Power(|a| + |b|);
    if 2 * p >= q then p - q else p
  }

  /** A digit appended to a number whose words from j on are zero; w is the word carried out at j. */
  lemma DigitDone(v: seq<int>, v': seq<int>, j: nat, c: int, w: int)
    requires |v| == |v'| && j < |v| && AllZero(v[j..])
    requires v'[..j] + [w] == TimesTen(v[..j], c)
    requires v'[j] == w && forall k :: j < k < |v| ==> v'[k] == 0
    ensures Unsigned(v') == 10 * Unsigned(v) + c
  {
    hide Unsigned, TimesTen;
    TimesTenValue(v[..j], c);
    assert v == v[..j] + v[j..];
    UnsignedZeros(v[..j], v[j..]);
    assert v' == (v'[..j] + [w]) + v'[j + 1..];
    UnsignedZeros(v'[..j] + [w], v'[j + 1..]);
  }
}
