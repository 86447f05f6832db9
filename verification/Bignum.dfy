/**
 bignum.c: limb arrays mutated in place by carry loops, negation and
 contraction. Words are unsigned 16-bit, `int` is 32-bit two's complement.
 */
module Bignum {
  import opened Integers
  import opened BignumValues
  import opened BignumRows
  import opened BignumText
  import opened BignumExact

  lemma NothingToStrip(ws: seq<int>)
    requires ws != [] && ws[|ws| - 1] != 0 && ws[|ws| - 1] != 0xffff
    ensures Canonical(ws)
  {
  }

  class Big {
    /** The allocated words; only the first len are in use. */
    var values: array<int>
    var len: nat

    ghost predicate Valid()
      reads this, values
    {
      1 <= len <= values.Length && IsWords(values[..])
    }

    ghost function Words(): (ws: seq<int>)
      reads this, values
      requires Valid()
      ensures IsWords(ws) && |ws| == len
    {
      values[..len]
    }

    /** alloc_bignum; the words are zeroed by both callers. */
    constructor (n: nat)
      requires n >= 1
      ensures Valid() && fresh(values) && values.Length == len == n
      ensures values[..] == seq(n, _ => 0)
    {
      values := new int[n](_ => 0);
      len := n;
    }

    /** The scan down from the top over words equal to w: the number passed and the index it stops at. */
    method Strip(w: int) returns (cnt: nat, i: int)
      requires Valid()
      ensures -1 <= i < len && cnt == len - 1 - i
      ensures (forall j :: i < j < len ==> values[j] == w) && (i >= 0 ==> values[i] != w)
    {
      cnt := 0;
      i := len;
      while true
        invariant 0 <= i <= len && cnt == len - i
        invariant forall j :: i <= j < len ==> values[j] == w
        decreases i
      {
        i := i - 1;
        if i == -1 {
          break;
        }
        if values[i] == w {
          cnt := cnt + 1;
        } else {
          break;
        }
      }
    }

    /**
     contract_bignum. When every word was stripped the index has run down to
     -1, and the word read there is outside the array: `outside`, anything.
     */
    method Contract(outside: int)
      requires Valid() && 0 <= outside < BASE
      modifies this`len
      ensures Valid() && Canonical(Words()) && Signed(Words()) == old(Signed(Words()))
      ensures len <= old(len)
    {
      hide Signed, Canonical;
      if values[len - 1] == 0 {
        Trim(0, outside);
      } else if values[len - 1] == 0xffff {
        Trim(0xffff, outside);
      } else {
        NothingToStrip(Words());
      }
    }

    /** Either branch of contract_bignum: the words equal to w on top go, but for one where the sign needs it. */
    method Trim(w: int, outside: int)
      requires Valid() && 0 <= outside < BASE && (w == 0 || w == 0xffff) && values[len - 1] == w
      modifies this`len
      ensures Valid() && Canonical(Words()) && Signed(Words()) == old(Signed(Words()))
      ensures len <= old(len)
    {
      hide Signed, Canonical;
      ghost var ws := Words();
      var cnt, i := Strip(w);
      var word := if i >= 0 then values[i] else outside;
      len := len - cnt;
      if (word >= 0x8000) == (w == 0) {
        len := len + 1;
      }
      if len == 0 {
        len := len + 1;
      }
      Contracted(ws, i, w, len);
      assert Words() == ws[..len];
    }

    /** The negation loop over all words in use. */
    method Negate()
      requires Valid()
      modifies values
      ensures Valid() && Words() == Negated(old(Words()), 1)
    {
      hide Negated, IsWords;
      ghost var ws := Words();
      var carry := 1;
      var i := 0;
      while i < len
        invariant i <= len && IsWords(values[..]) && (carry == 0 || carry == 1)
        invariant values[i..len] == ws[i..]
        invariant values[..i] + Negated(ws[i..], carry) == Negated(ws, 1)
      {
        ghost var before := values[..];
        NegatedStep(ws, i, carry);
        assert values[i] == values[i..len][0] == ws[i];
        values[i] := 0xffff - values[i];
        values[i] := (values[i] + carry) % 0x10000;
        carry := if values[i] == 0 && carry == 1 then 1 else 0;
        WordStored(before, i, values[i]);
        assert values[..] == before[i := values[i]];
        SliceWritten(before, i, values[i], 0, len);
        MoveWord(before[..i], values[i], Negated(ws[i + 1..], carry));
        assert ws[i + 1..] == ws[i..][1..];
        i := i + 1;
      }
      NegatedEmpty(carry);
      assert ws[len..] == [] && values[..len] + [] == values[..len];
    }

    /** completion_bignum: the words negated, then leading zero words dropped. */
    method Completion()
      requires Valid() && Negative(Words())
      modifies this`len, values
      ensures Valid() && Unsigned(Words()) == -old(Signed(Words())) && values[len - 1] != 0
    {
      hide Unsigned, Signed, Negated;
      ghost var ws := Words();
      SignedUnsigned(ws);
      NegatedMagnitude(ws, 1);
      Negate();
      ghost var full := Words();
      assert full[..len] == full;
      var i := len;
      while i != 0
        invariant 0 <= i == len <= |full| && values[..|full|] == full && IsWords(values[..])
        invariant Unsigned(full[..i]) == Unsigned(full)
        decreases i
      {
        i := i - 1;
        if values[i] == 0 {
          assert full[..i + 1] == full[..i] + [0];
          UnsignedAppendZero(full[..i]);
          len := len - 1;
        } else {
          break;
        }
      }
      UnsignedEmpty();
      assert len != 0;
      assert Words() == full[..len];
    }

    /** print_bignum: a minus sign and the magnitude in hexadecimal. */
    method Print() returns (out: string)
      requires Valid()
      modifies this`len, values
      ensures Valid()
      ensures old(Canonical(Words())) ==> out == HexLine(old(Signed(Words())))
      ensures old(Canonical(Words())) ==> IsHexLine(out, old(Signed(Words())))
      ensures !old(Negative(Words())) ==> Words() == old(Words())
      ensures old(Negative(Words())) ==> Unsigned(Words()) == -old(Signed(Words())) && values[len - 1] != 0
    {
      hide Unsigned, Signed, Hex, PaddedWord, IsHexLine;
      ghost var canonical, v := Canonical(Words()), Signed(Words());
      HexLineIs(HexLine(v), v);
      SignedUnsigned(Words());
      out := "";
      var i := len;
      if values[i - 1] == 0 {
        if len == 1 {
          ZeroLine(Words());
          out := "0\n";
          return;
        }
        i := i - 1;
        assert Words() == values[..i] + [0];
        UnsignedAppendZero(values[..i]);
      } else if values[i - 1] >= 0x8000 {
        out := "-";
        Completion();
        i := len;
      }
      ghost var ws := values[..i];
      assert canonical ==> ws[i - 1] != 0 && (i == len || ws[i - 1] >= 4096);
      assert canonical ==> HexLine(v) == out + Hex(Unsigned(ws)) + "\n";
      var digits := PrintWords(i);
      assert ws[0..] == ws;
      out := out + digits + "\n";
    }

    /** The printing loop, from word top - 1 down. */
    method PrintWords(top: nat) returns (out: string)
      requires Valid() && 1 <= top <= len
      ensures values[top - 1] != 0 && (top == len || values[top - 1] >= 4096) ==> out == Printed(values[..top], 0)
      ensures values[top - 1] != 0 && (top == len || values[top - 1] >= 4096) ==> IsHex(out, Unsigned(values[..top]))
    {
      hide Printed, PaddedWord, Hex, IsHex, Unsigned;
      ghost var ws := values[..top];
      ghost var proper := values[top - 1] != 0 && (top == len || values[top - 1] >= 4096);
      out := "";
      var i := top;
      PrintedNone(ws);
      PrintedAll(ws);
      while i != 0
        invariant 0 <= i <= top && (proper ==> out == Printed(ws, i))
      {
        i := i - 1;
        if proper {
          PrintedStep(ws, i, i != len - 1);
        }
        var word := WordText(values[i], i != len - 1);
        out := out + word;
      }
    }
  }

  /** The text of one word: padded to four digits unless it is the top one. */
  method WordText(w: int, padded: bool) returns (out: string)
    requires 0 <= w < 0x10000
    ensures out == if padded then PaddedWord(w) else Hex(w)
  {
    out := "";
    if padded {
      if w < 4096 {
        out := out + "0";
      }
      if w < 256 {
        out := out + "0";
      }
      if w < 16 {
        out := out + "0";
      }
    }
    out := out + Hex(w);
  }

  /** Words i to j-1 of v times ten plus num, the carry returned. */
  method TimesTenFrom(v: array<int>, i: nat, j: nat, num: int) returns (carry: int)
    requires i <= j <= v.Length && IsWords(v[..]) && 0 <= num < BASE
    modifies v
    ensures IsWords(v[..]) && 0 <= carry < BASE && (num <= 9 ==> carry <= 9)
    ensures v[i..j] + [carry] == TimesTen(old(v[i..j]), num)
    ensures forall k :: 0 <= k < v.Length && (k < i || k >= j) ==> v[k] == old(v[k])
  {
    hide TimesTen, IsWords;
    ghost var ws := v[i..j];
    carry := num;
    var q := i;
    assert ws[0..] == ws;
    while q < j
      invariant i <= q <= j && 0 <= carry < BASE && (num <= 9 ==> carry <= 9) && IsWords(v[..])
      invariant v[i..q] + TimesTen(ws[q - i..], carry) == TimesTen(ws, num)
      invariant v[q..j] == ws[q - i..]
      invariant forall k :: 0 <= k < v.Length && (k < i || k >= j) ==> v[k] == old(v[k])
    {
      ghost var before := v[..];
      TimesTenStep(ws[q - i..], carry);
      assert ws[q - i..][1..] == ws[q + 1 - i..];
      assert v[q] == v[q..j][0] == ws[q - i..][0];
      WordAt(before, q);
      var t := carry + v[q] * 10;
      assert 0 <= t < 0x1_0000_0000;
      v[q] := t % 0x10000;
      carry := t / 0x10000;
      WordStored(before, q, v[q]);
      assert v[..] == before[q := v[q]];
      assert v[i..q + 1] == before[i..q] + [v[q]];
      MoveWord(before[i..q], v[q], TimesTen(ws[q + 1 - i..], carry));
      assert v[q + 1..j] == before[q..j][1..];
      q := q + 1;
    }
    TimesTenEmpty(carry);
    assert ws[j - i..] == [];
  }

  /** One digit of parse_bignum: the number times ten plus c, in j words or j + 1. */
  method AddDigit(v: array<int>, j0: nat, c: int) returns (j: nat)
    requires 1 <= j0 < v.Length && IsWords(v[..]) && 0 <= c <= 9
    requires AllZero(v[j0..])
    modifies v
    ensures IsWords(v[..]) && Unsigned(v[..]) == 10 * old(Unsigned(v[..])) + c
    ensures j == (if v[j0] != 0 then j0 + 1 else j0) && AllZero(v[j..])
  {
    hide Unsigned, TimesTen;
    ghost var v0 := v[..];
    var i := 0;
    var num := c;
    j := j0;
    ghost var w := 0;
    while true
      invariant 0 <= num <= 9 && IsWords(v[..]) && 0 <= w < BASE
      invariant i == (if j == j0 then 0 else j0) && j0 <= j <= j0 + 1
      invariant j == j0 ==> num == c && v[..] == v0
      invariant j == j0 + 1 ==> num != 0 && w == num && v[..j0] + [w] == TimesTen(v0[..j0], c)
      invariant forall k :: j0 <= k < v.Length ==> v[k] == 0
      decreases j0 + 1 - j
    {
      ghost var before := v[..];
      num := TimesTenFrom(v, i, j, num);
      if j == j0 {
        assert v[..j0] == v[0..j0] && before[..j0] == before[0..j0];
        w := num;
      } else {
        assert v[..j0] == before[..j0];
        OneWord(w);
        assert before[j0..j] == [0];
        assert v[j0..j] + [num] == [w, 0];
        assert v[j0] == (v[j0..j] + [num])[0] && num == (v[j0..j] + [num])[1];
      }
      i := j;
      if num != 0 {
        j := j + 1;
      } else {
        break;
      }
    }
    DigitDone(v0, v[..], j0, c, w);
  }

  /** Digits start..q-1 are in the words v, of which j are live: no more than the digits need. */
  ghost predicate ParsedTo(numstr: string, start: nat, q: nat, v: seq<int>, j: nat) {
    && start <= q <= |numstr| && IsWords(v) && |v| == |numstr| / 4 + 2
    && 1 <= j <= |v| && (j == 1 || 4 * (j - 1) < q - start) && AllZero(v[j..])
    && 0 <= Unsigned(v) < Ten(q - start)
    && DecimalFrom(numstr[start..], 0) == DecimalFrom(numstr[q..], Unsigned(v))
  }

  lemma ParsedStart(numstr: string, start: nat, v: seq<int>)
    requires start <= |numstr| && |v| == |numstr| / 4 + 2 && AllZero(v)
    ensures ParsedTo(numstr, start, start, v, 1)
  {
    hide Unsigned, DecimalFrom, Ten;
    UnsignedZeros([], v);
    UnsignedEmpty();
    assert [] + v == v;
    TenMonotone(0, 0);
  }

  /** There is room for one more word. */
  lemma ParsedRoom(numstr: string, start: nat, q: nat, v: seq<int>, j: nat)
    requires ParsedTo(numstr, start, q, v, j)
    ensures 1 <= j < |v| && IsWords(v) && AllZero(v[j..])
  {
  }

  lemma ParsedStep(numstr: string, start: nat, q: nat, v: seq<int>, j: nat, v': seq<int>, j': nat)
    requires ParsedTo(numstr, start, q, v, j) && q < |numstr| && IsDigit(numstr[q]) && |v'| == |v|
    requires IsWords(v') && Unsigned(v') == 10 * Unsigned(v) + DigitOf(numstr[q])
    requires j < |v| && j' == (if v'[j] != 0 then j + 1 else j) && AllZero(v'[j'..])
    ensures ParsedTo(numstr, start, q + 1, v', j')
  {
    hide Unsigned, DecimalFrom, Ten, AllZero, IsWords, IsDigit, DigitOf;
    DecimalStep(numstr, q, Unsigned(v));
    TenStep(q - start);
    if j' != j {
      WordsNeedDigits(v', j, q + 1 - start);
    }
  }

  /** The digit loop of parse_bignum, from index q of the numeral; the live words never reach the last one. */
  method ParseDigits(numstr: string, start: nat, v: array<int>)
    requires start <= |numstr| && v.Length == |numstr| / 4 + 2 && AllZero(v[..])
    modifies v
    ensures IsWords(v[..]) && v[v.Length - 1] == 0
    ensures Unsigned(v[..]) == DecimalFrom(numstr[start..], 0) && Begins(numstr[start..], Unsigned(v[..]))
  {
    hide ParsedTo, Unsigned, DecimalFrom, AllZero, IsWords, IsDigit, DigitOf, Begins;
    BeginsIff(numstr[start..], DecimalFrom(numstr[start..], 0));
    ParsedStart(numstr, start, v[..]);
    var q := start;
    var j := 1;
    while q < |numstr| && IsDigit(numstr[q])
      invariant start <= q <= |numstr| && ParsedTo(numstr, start, q, v[..], j)
    {
      ghost var v0 := v[..];
      ParsedRoom(numstr, start, q, v0, j);
      var j' := AddDigit(v, j, DigitOf(numstr[q]));
      ParsedStep(numstr, start, q, v0, j, v[..], j');
      j := j';
      q := q + 1;
    }
    ParsedEnd(numstr, start, q, v[..], j);
  }

  lemma ParsedEnd(numstr: string, start: nat, q: nat, v: seq<int>, j: nat)
    requires ParsedTo(numstr, start, q, v, j) && (q < |numstr| ==> !IsDigit(numstr[q]))
    ensures IsWords(v) && |v| >= 1 && v[|v| - 1] == 0 && Unsigned(v) == DecimalFrom(numstr[start..], 0)
  {
    hide Unsigned, DecimalFrom, Ten, AllZero;
    DecimalEnd(numstr, q, Unsigned(v));
    AllZeroAt(v, j, |v| - 1);
  }

  /** parse_bignum. */
  method Parse(numstr: string, outside: int) returns (val: Big)
    requires 0 <= outside < BASE
    ensures fresh(val) && fresh(val.values) && val.Valid() && Canonical(val.Words())
    ensures Signed(val.Words()) == Decimal(numstr) && Spells(numstr, Signed(val.Words()))
  {
    hide Unsigned, Signed, DecimalFrom, Begins, Spells;
    DecimalSpells(numstr, Decimal(numstr));
    var len := |numstr| / 4 + 2;
    val := new Big(len);
    var start := 0;
    var sign := false;
    if |numstr| > 0 && numstr[0] == '-' {
      start := start + 1;
      sign := true;
    }
    assert numstr[0..] == numstr;
    ParseDigits(numstr, start, val.values);
    DecimalIs(numstr);
    assert val.Words() == val.values[..];
    SignedUnsigned(val.Words());
    if sign {
      NegatedSigned(val.Words(), 1);
      val.Negate();
    }
    val.Contract(outside);
  }

  /** ws are the words of the numeral s; CanonicalUnique says there is one such sequence. */
  ghost predicate Denotes(ws: seq<int>, s: string) {
    IsWords(ws) && Canonical(ws) && Spells(s, Signed(ws))
  }

  lemma PrintedExactly(v: int, v': int)
    ensures HexLine(v) == HexLine(v') <==> v == v'
  {
    if HexLine(v) == HexLine(v') {
      HexLineInjective(v, v');
    }
  }

  /** main: the product of two decimal arguments, printed, and exactly when that is the true product. */
  method Run(argv1: string, argv2: string, outside: int) returns (out: string)
    requires 0 <= outside < BASE
    ensures out == HexLine(Decimal(argv1) * Decimal(argv2)) <==> Exact(Decimal(argv1), Decimal(argv2))
    ensures forall x, y :: Spells(argv1, x) && Spells(argv2, y) ==> (IsHexLine(out, x * y) <==> Exact(x, y))
    ensures exists a, b :: Denotes(a, argv1) && Denotes(b, argv2) && out == HexLine(SignedProduct(a, b))
  {
    hide Decimal, SignedProduct, HexLine, Signed, Canonical, Exact, Spells, IsHexLine;
    var big1 := Parse(argv1, outside);
    var big2 := Parse(argv2, outside);
    var big3 := Multiply(big1, big2, outside);
    ghost var a, b := big1.Words(), big2.Words();
    CanonicalExact(a, b);
    PrintedExactly(SignedProduct(a, b), Signed(a) * Signed(b));
    assert Denotes(a, argv1) && Denotes(b, argv2);
    out := big3.Print();
    forall x, y | Spells(argv1, x) && Spells(argv2, y) ensures IsHexLine(out, x * y) <==> Exact(x, y) {
      DecimalSpells(argv1, x);
      DecimalSpells(argv2, y);
      HexLineIs(out, x * y);
    }
  }

  /** One row of the product: m times b added to v from word i on; the carry is left to the caller. */
  method MulRow(v: array<int>, i: nat, b: array<int>, n: nat, m: int) returns (carry: int)
    requires v != b && 1 <= n <= b.Length && i + n <= v.Length && 0 <= m < BASE
    requires IsWords(v[..]) && IsWords(b[..])
    modifies v
    ensures IsWords(v[..]) && 0 <= carry < BASE
    ensures v[i..i + n] + [carry] == AddMul(old(v[i..i + n]), b[..n], m, 0)
    ensures forall k :: 0 <= k < v.Length && (k < i || k >= i + n) ==> v[k] == old(v[k])
  {
    hide AddMul, ToInt, Low16, Shift16, IsWords, RowTo;
    ghost var acc, big := v[i..i + n], b[..n];
    carry := 0;
    var j := 0;
    RowStart(v[..], acc, big, m, i);
    while j < n
      invariant j <= n && 0 <= carry < BASE && IsWords(v[..]) && RowTo(v[..], acc, big, m, i, j, carry)
      invariant forall k :: 0 <= k < v.Length && (k < i || k >= i + n) ==> v[k] == old(v[k])
    {
      ghost var before, t := v[..], v[i + j] + carry + b[j] * m;
      WordAt(before, i + j);
      WordAt(b[..], j);
      ProductOfWords(b[j], m, v[i + j], carry);
      WordStep(t);
      RowNext(before, acc, big, m, i, j, carry);
      carry := ToInt(v[i + j] + carry + b[j] * m);
      v[i + j] := Low16(carry);
      carry := Low16(Shift16(carry));
      WordStored(before, i + j, v[i + j]);
      assert v[..] == before[i + j := v[i + j]];
      j := j + 1;
    }
    RowEnd(v[..], acc, big, m, i, carry);
  }

  /** One row and its carry, which goes into word `top`. */
  method AddRow(v: array<int>, i: nat, b: array<int>, n: nat, m: int, top: nat,
                ghost bw: seq<int>, ghost sw: seq<int>)
    requires v != b && 1 <= n <= b.Length && IsWords(v[..]) && IsWords(b[..])
    requires bw == b[..n] && i < |sw| && sw[i] == m && 0 <= m < BASE
    requires v.Length == |bw| + |sw| && top == i + n && AllZero(v[i + n..])
    modifies v
    ensures IsWords(v[..]) && AllZero(v[i + 1 + n..])
    ensures Glue(v[..i + 1], Remaining(v[..], bw, sw, i + 1)) == old(Glue(v[..i], Remaining(v[..], bw, sw, i)))
  {
    hide Unsigned, AddMul, Glue, Remaining;
    ghost var v0 := v[..];
    var carry := MulRow(v, i, b, n, m);
    assert v[top] == 0;
    if carry != 0 {
      v[top] := (v[top] + carry) % 0x10000;
    }
    RowDone(v0, v[..], bw, sw, i, carry);
  }

  lemma TimesIs(x: int, y: int)
    ensures Times(x, y) == x * y == y * x
  {
  }

  /** The loops of mul_bignum. */
  method MultiplyWords(lhs: Big, rhs: Big) returns (val: Big)
    requires lhs.Valid() && rhs.Valid()
    ensures fresh(val) && fresh(val.values) && val.Valid() && val.len == lhs.len + rhs.len
    ensures Unsigned(val.Words()) == Unsigned(lhs.Words()) * Unsigned(rhs.Words())
  {
    hide Unsigned, AddMul, Glue, Remaining, AllZero, Times;
    val := new Big(lhs.len + rhs.len);
    var big, small := rhs, lhs;
    if lhs.len > rhs.len {
      big, small := lhs, rhs;
    }
    ghost var bw, sw := big.Words(), small.Words();
    var v := val.values;
    ZerosAllZero(v[..], big.len);
    StartGlue(v[..], bw, sw);
    var i := 0;
    while i < small.len - 1
      invariant i <= small.len - 1 && val.values == v && val.len == v.Length && IsWords(v[..])
      invariant bw == big.Words() && sw == small.Words() && AllZero(v[i + big.len..])
      invariant Glue(v[..i], Remaining(v[..], bw, sw, i)) == Times(Unsigned(bw), Unsigned(sw))
    {
      var j := big.len - 1;
      AddRow(v, i, big.values, big.len, small.values[i], i + j + 1, bw, sw);
      i := i + 1;
    }
    AddRow(v, i, big.values, big.len, small.values[i], val.len - 1, bw, sw);
    EndGlue(v[..], bw, sw);
    assert val.Words() == v[..];
    TimesIs(Unsigned(bw), Unsigned(sw));
  }

  /** mul_bignum: schoolbook multiplication of the words as they stand, then contraction. */
  method Multiply(lhs: Big, rhs: Big, outside: int) returns (val: Big)
    requires lhs.Valid() && rhs.Valid() && 0 <= outside < BASE
    ensures fresh(val) && fresh(val.values) && val.Valid() && Canonical(val.Words())
    ensures Signed(val.Words()) == SignedProduct(lhs.Words(), rhs.Words())
  {
    val := MultiplyWords(lhs, rhs);
    SignedUnsigned(val.Words());
    val.Contract(outside);
  }
}
