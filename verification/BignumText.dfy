/**
 The two texts of bignum.c: the decimal numeral that is read and the
 hexadecimal numeral that is printed.
 */
module BignumText {
  import opened Integers
  import opened BignumValues
  import opened BignumRows

  // ---------- decimal ----------

  predicate IsDigit(c: char) {
    '0' <= c <= '9'
  }

  function DigitOf(c: char): (v: int)
    requires IsDigit(c)
    ensures 0 <= v <= 9
  {
    (c as int) - ('0' as int)
  }

  /** The value of acc followed by the leading digits of s. */
  function DecimalFrom(s: string, acc: nat): nat {
    if s == [] || !IsDigit(s[0]) then acc else DecimalFrom(s[1..], 10 * acc + DigitOf(s[0]))
  }

  /** The number a string stands for: an optional minus sign and the digits up to the first other character. */
  function Decimal(s: string): int {
    if s != [] && s[0] == '-' then 0 - DecimalFrom(s[1..], 0) else DecimalFrom(s, 0)
  }

  lemma DecimalIs(s: string)
    ensures Decimal(s) == if s != [] && s[0] == '-' then 0 - DecimalFrom(s[1..], 0) else DecimalFrom(s, 0)
  {
  }

  lemma DecimalStep(s: string, q: nat, acc: nat)
    requires q < |s| && IsDigit(s[q])
    ensures DecimalFrom(s[q..], acc) == DecimalFrom(s[q + 1..], 10 * acc + DigitOf(s[q]))
  {
    assert s[q..][1..] == s[q + 1..];
  }

  lemma DecimalEnd(s: string, q: nat, acc: nat)
    requires q <= |s| && (q < |s| ==> !IsDigit(s[q]))
    ensures DecimalFrom(s[q..], acc) == acc
  {
  }

  // ---------- decimal numerals ----------

  /** The decimal numeral of n. */
  function Numeral(n: nat): (s: string)
    ensures s != []
  {
    if n < 10 then ["0123456789"[n]] else Numeral(n / 10) + ["0123456789"[n % 10]]
  }

  function Zeros(k: nat): (s: string)
    ensures |s| == k && forall j :: 0 <= j < k ==> s[j] == '0'
  {
    seq(k, _ => '0')
  }

  /** No digit comes first. */
  ghost predicate Ends(s: string) {
    s == "" || s[0] !in "0123456789"
  }

  /** s begins with the numeral of n, zeros before and other text after it allowed; or with no digit, and n is 0. */
  ghost predicate Begins(s: string, n: nat) {
    (n == 0 && Ends(s)) || exists k: nat, rest :: s == Zeros(k) + Numeral(n) + rest && Ends(rest)
  }

  /** s is a numeral of v: a minus sign and the numeral of -v, or the numeral of v. */
  ghost predicate Spells(s: string, v: int) {
    if s != "" && s[0] == '-' then v <= 0 && Begins(s[1..], -v) else v >= 0 && Begins(s, v)
  }

  lemma DigitIndex(c: char)
    ensures c in "0123456789" <==> IsDigit(c)
    ensures IsDigit(c) ==> "0123456789"[DigitOf(c)] == c
  {
    if IsDigit(c) {
      assert "0123456789"[DigitOf(c)] == c;
    }
  }

  lemma IndexDigit(d: nat)
    requires d < 10
    ensures IsDigit("0123456789"[d]) && DigitOf("0123456789"[d]) == d
  {
  }

  /** Digits at the front are taken first. */
  lemma {:induction false} DecimalConcat(s: string, t: string, acc: nat)
    requires forall k :: 0 <= k < |s| ==> IsDigit(s[k])
    ensures DecimalFrom(s + t, acc) == DecimalFrom(t, DecimalFrom(s, acc))
  {
    hide IsDigit, DigitOf;
    if s == [] {
      assert s + t == t;
    } else {
      assert (s + t)[1..] == s[1..] + t;
      DecimalConcat(s[1..], t, 10 * acc + DigitOf(s[0]));
    }
  }

  lemma DecimalOne(c: char, acc: nat)
    requires IsDigit(c)
    ensures DecimalFrom([c], acc) == 10 * acc + DigitOf(c)
  {
    assert [c][1..] == [];
  }

  lemma {:induction false} NumeralReads(n: nat)
    ensures forall k :: 0 <= k < |Numeral(n)| ==> IsDigit(Numeral(n)[k])
    ensures DecimalFrom(Numeral(n), 0) == n
  {
    IndexDigit(n % 10);
    hide IsDigit, DigitOf, DecimalFrom;
    var c := "0123456789"[n % 10];
    if n < 10 {
      DecimalOne(c, 0);
    } else {
      NumeralReads(n / 10);
      DecimalConcat(Numeral(n / 10), [c], 0);
      DecimalOne(c, n / 10);
    }
  }

  lemma {:induction false} ZerosRead(k: nat)
    ensures DecimalFrom(Zeros(k), 0) == 0
  {
    if k > 0 {
      assert Zeros(k)[1..] == Zeros(k - 1);
      ZerosRead(k - 1);
    }
  }

  lemma EndsReads(s: string, acc: nat)
    requires Ends(s)
    ensures DecimalFrom(s, acc) == acc
  {
    if s != "" {
      DigitIndex(s[0]);
    }
  }

  /** Zeros, a numeral and whatever text follows read as the number. */
  lemma NumeralInText(k: nat, n: nat, rest: string)
    requires Ends(rest)
    ensures DecimalFrom(Zeros(k) + Numeral(n) + rest, 0) == n
  {
    NumeralReads(n);
    ZerosRead(k);
    EndsReads(rest, n);
    hide Numeral, DecimalFrom;
    DecimalConcat(Zeros(k), Numeral(n), 0);
    DecimalConcat(Zeros(k) + Numeral(n), rest, 0);
  }

  /** One more digit after a numeral; after the numeral of zero that zero stays in front. */
  lemma NumeralExtends(t: string, k: nat, n: nat, d: nat)
    requires t == Zeros(k) + Numeral(n) && d < 10
    ensures t + ["0123456789"[d]] == Zeros(if n == 0 then k + 1 else k) + Numeral(10 * n + d)
  {
    if n == 0 {
      assert Zeros(k) + "0" == Zeros(k + 1);
    } else {
      assert (10 * n + d) / 10 == n && (10 * n + d) % 10 == d;
    }
  }

  /** Any digits are the numeral of their value after some zeros. */
  lemma {:induction false} DigitsAreNumeral(s: string) returns (k: nat)
    requires s != "" && forall j :: 0 <= j < |s| ==> IsDigit(s[j])
    ensures s == Zeros(k) + Numeral(DecimalFrom(s, 0))
  {
    hide IsDigit, DigitOf, DecimalFrom, Zeros;
    var c, t := s[|s| - 1], s[..|s| - 1];
    assert s == t + [c];
    DigitIndex(c);
    DecimalConcat(t, [c], 0);
    DecimalOne(c, DecimalFrom(t, 0));
    if t == "" {
      DecimalNone();
      k := 0;
      assert s == Zeros(0) + Numeral(DigitOf(c)) by { NumeralOne(c); }
    } else {
      k := DigitsAreNumeral(t);
      NumeralExtends(t, k, DecimalFrom(t, 0), DigitOf(c));
      if DecimalFrom(t, 0) == 0 {
        k := k + 1;
      }
    }
  }

  lemma NumeralOne(c: char)
    requires IsDigit(c)
    ensures [c] == Zeros(0) + Numeral(DigitOf(c))
  {
    DigitIndex(c);
  }

  lemma DecimalNone()
    ensures DecimalFrom("", 0) == 0
  {
  }

  /** The digits at the front, and the rest. */
  lemma {:induction false} FrontDigits(s: string) returns (q: nat)
    ensures q <= |s| && (forall j :: 0 <= j < q ==> IsDigit(s[j])) && Ends(s[q..])
  {
    q := 0;
    if s != "" {
      DigitIndex(s[0]);
      if IsDigit(s[0]) {
        q := FrontDigits(s[1..]);
        q := q + 1;
        assert s[q..] == s[1..][q - 1..];
      }
    }
  }

  /** A string begins with the numeral of its value and of no other number. */
  lemma BeginsIff(s: string, n: nat)
    ensures Begins(s, n) <==> DecimalFrom(s, 0) == n
  {
    hide DecimalFrom, Numeral, IsDigit, Ends;
    if Begins(s, n) {
      if n == 0 && Ends(s) {
        EndsReads(s, 0);
      } else {
        var k: nat, rest :| s == Zeros(k) + Numeral(n) + rest && Ends(rest);
        NumeralInText(k, n, rest);
      }
    }
    if DecimalFrom(s, 0) == n {
      var q := FrontDigits(s);
      assert s == s[..q] + s[q..];
      DecimalConcat(s[..q], s[q..], 0);
      EndsReads(s[q..], DecimalFrom(s[..q], 0));
      if q == 0 {
        DecimalNone();
        assert s[q..] == s;
      } else {
        var k := DigitsAreNumeral(s[..q]);
      }
    }
  }

  /** The value of every string, in terms of numerals alone. */
  lemma DecimalSpells(s: string, v: int)
    ensures Spells(s, v) <==> Decimal(s) == v
  {
    hide Begins, DecimalFrom;
    if s != "" && s[0] == '-' {
      if v <= 0 {
        BeginsIff(s[1..], -v);
      }
    } else if v >= 0 {
      BeginsIff(s, v);
    }
  }

  lemma TenStep(k: nat)
    ensures Ten(k + 1) == 10 * Ten(k)
  {
  }

  ghost function Ten(k: nat): nat {
    if k == 0 then 1 else 10 * Ten(k - 1)
  }

  lemma {:induction false} TenMonotone(a: nat, b: nat)
    requires a <= b
    ensures 1 <= Ten(a) <= Ten(b)
  {
    if a < b {
      TenMonotone(a, b - 1);
    } else if b > 0 {
      TenMonotone(a - 1, b - 1);
    }
  }

  lemma {:induction false} FourDigitsPerWord(n: nat)
    ensures Ten(4 * n) <= Power(n)
  {
    if n > 0 {
      FourDigitsPerWord(n - 1);
      var k := 4 * (n - 1);
      assert Ten(k + 1) == 10 * Ten(k) && Ten(k + 2) == 10 * Ten(k + 1);
      assert Ten(k + 3) == 10 * Ten(k + 2) && Ten(k + 4) == 10 * Ten(k + 3);
    }
  }

  lemma {:induction false} PowerBelow(ws: seq<int>, j: nat)
    requires IsWords(ws) && j < |ws| && ws[j] != 0
    ensures Unsigned(ws) >= Power(j)
  {
    if j == 0 {
      UnsignedRange(ws[1..]);
    } else {
      PowerBelow(ws[1..], j - 1);
    }
  }

  /** A number below 10^k with a nonzero word j has more than 4j digits. */
  lemma WordsNeedDigits(ws: seq<int>, j: nat, k: nat)
    requires IsWords(ws) && j < |ws| && ws[j] != 0 && Unsigned(ws) < Ten(k)
    ensures 4 * j < k
  {
    PowerBelow(ws, j);
    FourDigitsPerWord(j);
    if k <= 4 * j {
      TenMonotone(k, 4 * j);
    }
  }

  // ---------- hexadecimal ----------

  function HexDigit(v: int): char
    requires 0 <= v < 16
  {
    if v < 10 then (('0' as int) + v) as char else (('a' as int) + (v - 10)) as char
  }

  predicate IsHexDigit(c: char) {
    '0' <= c <= '9' || 'a' <= c <= 'f'
  }

  function HexDigitValue(c: char): (v: nat)
    requires IsHexDigit(c)
    ensures v < 16 && HexDigit(v) == c
  {
    if '0' <= c <= '9' then (c as int) - ('0' as int) else (c as int) - ('a' as int) + 10
  }

  /** %x: the hexadecimal numeral without leading zeros. */
  function Hex(v: nat): (s: string)
    ensures s != []
  {
    if v < 16 then [HexDigit(v)] else Hex(v / 16) + [HexDigit(v % 16)]
  }

  /** The number a hexadecimal numeral stands for. */
  function HexValue(s: string): nat
    requires forall k :: 0 <= k < |s| ==> IsHexDigit(s[k])
  {
    if s == [] then 0 else 16 * HexValue(s[..|s| - 1]) + HexDigitValue(s[|s| - 1])
  }

  /** A numeral reads back as its number and has no leading zero. */
  lemma {:induction false} HexReads(v: nat)
    ensures forall k :: 0 <= k < |Hex(v)| ==> IsHexDigit(Hex(v)[k])
    ensures HexValue(Hex(v)) == v
    ensures v > 0 ==> Hex(v)[0] != '0'
  {
    var s := Hex(v);
    if v < 16 {
      assert s[..0] == [];
    } else {
      HexReads(v / 16);
      assert s[..|s| - 1] == Hex(v / 16);
      assert s[|s| - 1] == HexDigit(v % 16);
    }
  }

  /** One word after the first: four digits. */
  function HexWord(w: int): string
    requires 0 <= w < 0x10000
  {
    [HexDigit(w / 4096), HexDigit(w / 256 % 16), HexDigit(w / 16 % 16), HexDigit(w % 16)]
  }

  /** What the printing loop writes for such a word: zeros to four places, then %x. */
  function PaddedWord(w: int): string
    requires 0 <= w < 0x10000
  {
    (if w < 4096 then "0" else "") + (if w < 256 then "0" else "") + (if w < 16 then "0" else "") + Hex(w)
  }

  lemma HexStep(v: nat, q: nat, r: nat)
    requires v == 16 * q + r && r < 16 && q > 0
    ensures Hex(v) == Hex(q) + [HexDigit(r)]
  {
    assert v >= 16 && v / 16 == q && v % 16 == r;
  }

  lemma Nibbles(w: int)
    requires 0 <= w < 0x10000
    ensures w == 16 * (w / 16) + w % 16 && w / 16 == 16 * (w / 256) + w / 16 % 16
    ensures w / 256 == 16 * (w / 4096) + w / 256 % 16
    ensures 0 <= w / 4096 < 16 && 0 <= w % 16 < 16 && 0 <= w / 16 % 16 < 16 && 0 <= w / 256 % 16 < 16
  {
  }

  lemma PaddedTop(w: int)
    requires 4096 <= w < 0x10000
    ensures PaddedWord(w) == Hex(w)
  {
    assert "" + Hex(w) == Hex(w);
  }

  lemma PaddedIsHexWord(w: int)
    requires 0 <= w < 0x10000
    ensures PaddedWord(w) == HexWord(w)
  {
    Nibbles(w);
    hide HexDigit;
    if w >= 16 {
      HexStep(w, w / 16, w % 16);
    }
    if w >= 256 {
      HexStep(w / 16, w / 256, w / 16 % 16);
    }
    if w >= 4096 {
      HexStep(w / 256, w / 4096, w / 256 % 16);
    }
    ZeroDigit();
  }

  lemma ZeroDigit()
    ensures HexDigit(0) == '0'
  {
  }

  lemma NibbleSum(w: int)
    requires 0 <= w < 0x10000
    ensures w == 16 * (16 * (16 * (w / 4096) + w / 256 % 16) + w / 16 % 16) + w % 16
  {
    Nibbles(w);
  }

  /** Four digits appended to a nonzero number. */
  lemma HexFour(v: nat, a: nat, b: nat, c: nat, d: nat)
    requires v > 0 && a < 16 && b < 16 && c < 16 && d < 16
    ensures Hex(16 * (16 * (16 * (16 * v + a) + b) + c) + d)
         == Hex(v) + [HexDigit(a), HexDigit(b), HexDigit(c), HexDigit(d)]
  {
    hide HexDigit, Hex;
    HexStep(16 * v + a, v, a);
    HexStep(16 * (16 * v + a) + b, 16 * v + a, b);
    HexStep(16 * (16 * (16 * v + a) + b) + c, 16 * (16 * v + a) + b, c);
    HexStep(16 * (16 * (16 * (16 * v + a) + b) + c) + d, 16 * (16 * (16 * v + a) + b) + c, d);
    FourAppended(Hex(v), HexDigit(a), HexDigit(b), HexDigit(c), HexDigit(d));
  }

  lemma FourAppended(s: string, a: char, b: char, c: char, d: char)
    ensures s + [a] + [b] + [c] + [d] == s + [a, b, c, d]
  {
  }

  lemma HexAppendWord(v: nat, w: int)
    requires v > 0 && 0 <= w < 0x10000
    ensures Hex(w + BASE * v) == Hex(v) + HexWord(w)
  {
    hide HexDigit, Hex;
    NibbleSum(w);
    var a, b, c, d := w / 4096, w / 256 % 16, w / 16 % 16, w % 16;
    HexFour(v, a, b, c, d);
    assert w + BASE * v == 16 * (16 * (16 * (16 * v + a) + b) + c) + d;
  }

  /** A signed number as print_bignum writes it. */
  function HexLine(v: int): string {
    (if v < 0 then "-" + Hex(-v) else Hex(v)) + "\n"
  }

  lemma HexInjective(v: nat, v': nat)
    requires Hex(v) == Hex(v')
    ensures v == v'
  {
    HexReads(v);
    HexReads(v');
  }

  /** Different numbers are printed differently. */
  lemma HexLineInjective(v: int, v': int)
    requires HexLine(v) == HexLine(v')
    ensures v == v'
  {
    hide Hex;
    var s, s' := HexLine(v), HexLine(v');
    HexReads(if v < 0 then -v else v);
    HexReads(if v' < 0 then -v' else v');
    assert s[0] == '-' <==> v < 0;
    assert s'[0] == '-' <==> v' < 0;
    if v < 0 {
      assert Hex(-v) == s[1..|s| - 1] == Hex(-v');
      HexInjective(-v, -v');
    } else {
      assert Hex(v) == s[..|s| - 1] == Hex(v');
      HexInjective(v, v');
    }
  }

  // ---------- hexadecimal numerals, digit by digit ----------

  ghost function Sixteens(k: nat): (p: nat)
    ensures p >= 1
  {
    if k == 0 then 1 else 16 * Sixteens(k - 1)
  }

  lemma QuotientUnique(v: nat, d: nat, q: nat, r: nat)
    requires v == d * q + r && r < d
    ensures v / d == q
  {
    if v / d > q {
      MulMonotone(d, q + 1, v / d);
    } else if v / d < q {
      MulMonotone(d, v / d + 1, q);
    }
  }

  lemma QuotientTwice(v: nat, p: nat)
    requires p >= 1
    ensures v / (16 * p) == v / 16 / p
  {
    var q, r := v / 16 / p, v / 16 % p;
    assert v / 16 == p * q + r;
    assert v == (16 * p) * q + (16 * r + v % 16);
    QuotientUnique(v, 16 * p, q, 16 * r + v % 16);
  }

  /** The digit of v at place k, counted from the right. */
  ghost function Place(v: nat, k: nat): char {
    "0123456789abcdef"[v / Sixteens(k) % 16]
  }

  lemma PlaceStep(v: nat, k: nat)
    ensures Place(v, k + 1) == Place(v / 16, k)
  {
    QuotientTwice(v, Sixteens(k));
  }

  lemma LastPlace(v: nat)
    ensures Place(v, 0) == HexDigit(v % 16)
  {
    assert v / Sixteens(0) == v;
    HexDigitIs(v % 16);
  }

  lemma HexDigitIs(v: nat)
    requires v < 16
    ensures HexDigit(v) == "0123456789abcdef"[v]
  {
  }

  /** ds is the hexadecimal numeral of v, place by place and no longer than need be. */
  ghost predicate IsHex(ds: string, v: int) {
    && ds != "" && 0 <= v < Sixteens(|ds|) && (|ds| > 1 ==> Sixteens(|ds| - 1) <= v)
    && forall k :: 0 <= k < |ds| ==> ds[|ds| - 1 - k] == Place(v, k)
  }

  lemma {:induction false} HexIsHex(v: nat)
    ensures IsHex(Hex(v), v)
  {
    hide HexDigit, Place;
    var ds := Hex(v);
    LastPlace(v);
    if v >= 16 {
      HexIsHex(v / 16);
      var t := Hex(v / 16);
      assert Sixteens(|ds|) == 16 * Sixteens(|t|) && Sixteens(|ds| - 1) == 16 * Sixteens(|t| - 1);
      forall k | 0 <= k < |ds| ensures ds[|ds| - 1 - k] == Place(v, k) {
        if k > 0 {
          PlaceStep(v, k - 1);
          assert ds[|ds| - 1 - k] == t[|t| - 1 - (k - 1)];
        }
      }
    } else {
      assert Sixteens(1) == 16 * Sixteens(0);
    }
  }

  lemma {:induction false} SixteensMonotone(a: nat, b: nat)
    requires a <= b
    ensures Sixteens(a) <= Sixteens(b)
  {
    if a < b {
      SixteensMonotone(a, b - 1);
    }
  }

  lemma NoLonger(ds: string, ds': string, v: int)
    requires IsHex(ds, v) && IsHex(ds', v)
    ensures |ds| <= |ds'|
  {
    hide Sixteens, Place;
    if |ds'| < |ds| {
      SixteensMonotone(|ds'|, |ds| - 1);
    }
  }

  lemma IsHexUnique(ds: string, ds': string, v: int)
    requires IsHex(ds, v) && IsHex(ds', v)
    ensures ds == ds'
  {
    NoLonger(ds, ds', v);
    NoLonger(ds', ds, v);
    hide Sixteens, Place;
    forall j | 0 <= j < |ds| ensures ds[j] == ds'[j] {
      assert ds[|ds| - 1 - (|ds| - 1 - j)] == Place(v, |ds| - 1 - j) == ds'[|ds| - 1 - (|ds| - 1 - j)];
    }
  }

  /** out is the line for v: a minus sign if it is negative, the numeral of its magnitude, a newline. */
  ghost predicate IsHexLine(out: string, v: int) {
    var start := if v < 0 then 1 else 0;
    && |out| > start && (v < 0 ==> out[0] == '-') && out[|out| - 1] == '\n'
    && IsHex(out[start..|out| - 1], if v < 0 then -v else v)
  }

  /** The line is right digit by digit, and no other line is. */
  lemma HexLineIs(out: string, v: int)
    ensures IsHexLine(out, v) <==> out == HexLine(v)
  {
    hide IsHex, Hex;
    var m, start := if v < 0 then -v else v, if v < 0 then 1 else 0;
    HexIsHex(m);
    if IsHexLine(out, v) {
      IsHexUnique(out[start..|out| - 1], Hex(m), m);
      assert out == out[..start] + Hex(m) + [out[|out| - 1]];
    }
    if out == HexLine(v) {
      assert out[start..|out| - 1] == Hex(m);
    }
  }

  lemma ZeroLine(ws: seq<int>)
    requires |ws| == 1 && ws[0] == 0
    ensures HexLine(Signed(ws)) == "0\n"
  {
  }

  /** What has been printed of the words ws when those from i on are done. */
  ghost function Printed(ws: seq<int>, i: nat): string
    requires IsWords(ws) && i <= |ws|
  {
    UnsignedRange(ws[i..]);
    if i == |ws| then "" else Hex(Unsigned(ws[i..]))
  }

  lemma PrintedNone(ws: seq<int>)
    requires IsWords(ws)
    ensures Printed(ws, |ws|) == ""
  {
  }

  lemma PrintedAll(ws: seq<int>)
    requires IsWords(ws) && ws != []
    ensures IsHex(Printed(ws, 0), Unsigned(ws))
  {
    assert ws[0..] == ws;
    UnsignedRange(ws);
    HexIsHex(Unsigned(ws));
  }

  lemma PrintedStep(ws: seq<int>, i: nat, padded: bool)
    requires IsWords(ws) && i < |ws| && ws[|ws| - 1] != 0
    requires if i == |ws| - 1 then padded ==> ws[i] >= 4096 else padded
    ensures Printed(ws, i) == Printed(ws, i + 1) + if padded then PaddedWord(ws[i]) else Hex(ws[i])
  {
    hide Unsigned, Hex, PaddedWord, HexWord, Power;
    UnsignedTail(ws, i);
    UnsignedEmpty();
    if i < |ws| - 1 {
      var rest := ws[i + 1..];
      PowerBelow(rest, |rest| - 1);
      PowerPositive(|rest| - 1);
      HexAppendWord(Unsigned(rest), ws[i]);
      PaddedIsHexWord(ws[i]);
    } else {
      assert ws[i + 1..] == [];
      assert Unsigned(ws[i..]) == ws[i];
      if padded {
        PaddedTop(ws[i]);
      }
    }
  }

  lemma {:induction false} PowerPositive(n: nat)
    ensures Power(n) >= 1
  {
    if n > 0 {
      PowerPositive(n - 1);
    }
  }
}
