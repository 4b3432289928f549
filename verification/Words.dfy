/** Little-endian naturals in base 2^32, which are the contents of the word array of a Bigint of dtoa.c. */
module Words {
  import opened Arith

  const BASE: nat := 0x1_0000_0000

  // ULong and ULLong
  type Word = w: int | 0 <= w < 0x1_0000_0000
  type Dword = w: int | 0 <= w < 0x1_0000_0000_0000_0000

  /** The low and the high half of a 64-bit intermediate. */
  function Lo(y: Dword): Word {
    y % 0x1_0000_0000
  }

  function Hi(y: Dword): Word {
    y / 0x1_0000_0000
  }

  /** 64-bit unsigned subtraction, which wraps around. */
  function Sub64(a: int, b: int): Dword {
    (a - b) % 0x1_0000_0000_0000_0000
  }

  /** The weight of word number `i`. */
  ghost function W(i: nat): nat {
    Pow(BASE, i)
  }

  /** The natural number a word sequence stands for. */
  ghost function Value(s: seq<Word>): nat {
    if |s| == 0 then 0 else Value(s[..|s| - 1]) + s[|s| - 1] * W(|s| - 1)
  }

  lemma WStep(i: nat)
    ensures W(i + 1) == BASE * W(i)
    ensures 0 < W(i)
  {
    PowPos(BASE, i);
  }

  /** Reading one more word of a longer sequence. */
  lemma ValueStep(s: seq<Word>, i: nat)
    requires i < |s|
    ensures Value(s[..i + 1]) == Value(s[..i]) + s[i] * W(i)
  {
    assert s[..i + 1][..i] == s[..i];
  }

  lemma {:induction false} ValueBound(s: seq<Word>)
    ensures Value(s) < W(|s|)
  {
    if |s| > 0 {
      var n := |s| - 1;
      ValueBound(s[..n]);
      WStep(n);
      var top: int := s[n];
      MulLe(top + 1, BASE, W(n));
      assert (top + 1) * W(n) == top * W(n) + W(n);
    }
  }

  lemma {:induction false} ValueAppend(s: seq<Word>, t: seq<Word>)
    ensures Value(s + t) == Value(s) + W(|s|) * Value(t)
  {
    if |t| == 0 {
      assert s + t == s;
    } else {
      var n := |t| - 1;
      ValueAppend(s, t[..n]);
      assert (s + t)[..|s| + n] == s + t[..n];
      PowAdd(BASE, |s|, n);
      Regroup(W(|s|), Value(t[..n]), t[n], W(n));
    }
  }

  lemma Regroup(w: int, v: int, d: int, x: int)
    ensures w * v + d * (w * x) == w * (v + d * x)
  {
    assert d * (w * x) == w * (d * x);
  }

  lemma {:induction false} ValueZeros(s: seq<Word>)
    requires forall i :: 0 <= i < |s| ==> s[i] == 0
    ensures Value(s) == 0
  {
    if |s| > 0 {
      ValueZeros(s[..|s| - 1]);
    }
  }

  /** Zero words at the top do not count. */
  lemma ValueTrim(s: seq<Word>, n: nat)
    requires n <= |s| && forall i :: n <= i < |s| ==> s[i] == 0
    ensures Value(s) == Value(s[..n])
  {
    assert s == s[..n] + s[n..];
    ValueAppend(s[..n], s[n..]);
    ValueZeros(s[n..]);
  }

  lemma ValueTop(s: seq<Word>)
    requires |s| > 0
    ensures s[|s| - 1] * W(|s| - 1) <= Value(s) < s[|s| - 1] * W(|s| - 1) + W(|s| - 1)
  {
    ValueBound(s[..|s| - 1]);
  }

  /** The number with the larger word in the highest place where two numbers differ is larger. */
  lemma ValueLess(s: seq<Word>, t: seq<Word>, i: nat)
    requires |s| == |t| && i < |s| && s[i] < t[i] && s[i + 1..] == t[i + 1..]
    ensures Value(s) < Value(t)
  {
    var a, b, c := s[..i + 1], t[..i + 1], s[i + 1..];
    assert s == a + c && t == b + c;
    ValueAppend(a, c);
    ValueAppend(b, c);
    TopLess(a, b);
  }

  lemma TopLess(s: seq<Word>, t: seq<Word>)
    requires |s| == |t| > 0 && s[|s| - 1] < t[|s| - 1]
    ensures Value(s) < Value(t)
  {
    ValueTop(s);
    ValueTop(t);
    var d: int := s[|s| - 1];
    MulLe(d + 1, t[|s| - 1], W(|s| - 1));
    assert (d + 1) * W(|s| - 1) == d * W(|s| - 1) + W(|s| - 1);
  }

  /** A number with more words, the top one not zero, is larger. */
  lemma ValueLonger(s: seq<Word>, t: seq<Word>)
    requires |s| < |t| && t[|t| - 1] > 0
    ensures Value(s) < Value(t)
  {
    ValueBound(s);
    ValueTop(t);
    PowMono(BASE, |s|, |t| - 1);
    MulLe(1, t[|t| - 1], W(|t| - 1));
  }

  lemma PowWord()
    ensures Pow(2, 32) == 0x1_0000_0000
  {
    assert Pow(2, 8) == 0x100;
    PowAdd(2, 8, 8);
    PowAdd(2, 16, 16);
  }

  /** Moving up by whole words. */
  lemma WIsPow2(n: nat)
    ensures W(n) == Pow(2, 32 * n)
  {
    PowWord();
    PowMul(2, 32, n);
  }

  /** x << r | z for a word x and a z of r bits, against the 64-bit product. The two operands of `|` have no bit
      in common, the first being a multiple of 2^r, so `|` adds them. */
  lemma ShiftWord(x: Word, r: nat, z: nat)
    requires 0 < r < 32 && z < Pow(2, r)
    ensures 0 < Pow(2, r) && 0 < Pow(2, 32 - r)
    ensures 0 <= x * Pow(2, r) + z < 0x1_0000_0000_0000_0000
    ensures Lo(x * Pow(2, r) + z) == x * Pow(2, r) % 0x1_0000_0000 + z
    ensures Hi(x * Pow(2, r) + z) == x / Pow(2, 32 - r) < Pow(2, r)
    ensures x * Pow(2, r) % 0x1_0000_0000 % Pow(2, r) == 0
  {
    PowPos(2, r);
    PowPos(2, 32 - r);
    PowWord();
    PowAdd(2, r, 32 - r);
    ShiftHalves(x, Pow(2, r), Pow(2, 32 - r), z);
  }

  lemma ShiftHalves(x: Word, p: nat, h: nat, z: nat)
    requires 0 < p && 0 < h && p * h == 0x1_0000_0000 && z < p
    ensures 0 <= x * p + z < 0x1_0000_0000_0000_0000
    ensures Lo(x * p + z) == x * p % 0x1_0000_0000 + z
    ensures Hi(x * p + z) == x / h < p
    ensures x * p % 0x1_0000_0000 % p == 0
  {
    var hi, lo := x / h, x % h;
    assert x == hi * h + lo;
    ShiftAlgebra(x, p, h, hi, lo);
    DivModUnique(x * p, 0x1_0000_0000, hi, lo * p);
    DivModUnique(x * p + z, 0x1_0000_0000, hi, lo * p + z);
    DivModUnique(lo * p, p, lo, 0);
  }

  lemma ShiftAlgebra(x: nat, p: nat, h: nat, hi: nat, lo: nat)
    requires p * h == 0x1_0000_0000 && x < 0x1_0000_0000 && x == hi * h + lo && lo < h
    ensures x * p == hi * 0x1_0000_0000 + lo * p && 0 <= lo * p <= 0x1_0000_0000 - p
    ensures hi < p <= 0x1_0000_0000
  {
    MulAssoc(hi, h, p);
    assert (hi * h + lo) * p == (hi * h) * p + lo * p;
    assert hi * (p * h) == hi * (h * p);
    MulLe(lo + 1, h, p);
    assert (lo + 1) * p == lo * p + p;
    MulLe(1, h, p);
    if hi >= p {
      MulLe(p, hi, h);
    }
  }
}
