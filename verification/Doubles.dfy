/** IEEE doubles as two words, and `d2b`, which takes one apart. */
module Doubles {
  import opened Arith
  import opened Words
  import opened Bigints

  /** The high word without its sign bit, and the low word. */
  datatype Double = Double(w0: Word, w1: Word) {
    function Exponent(): nat {
      w0 / 0x10_0000 % 0x800
    }

    /** Not an infinity, not a NaN, not zero. */
    predicate Finite() {
      w0 < 0x8000_0000 && Exponent() < 0x7FF && (Exponent() > 0 || w0 % 0x10_0000 > 0 || w1 > 0)
    }

    function High(): nat {
      w0 % 0x10_0000 + if Exponent() > 0 then 0x10_0000 else 0
    }

    /** The significand as an integer, with its hidden bit. */
    function Significand(): nat {
      High() * 0x1_0000_0000 + w1
    }

    /** The exponent of its lowest bit: the value is Significand * 2^LowBit. */
    function LowBit(): int {
      if Exponent() > 0 then Exponent() - 1075 else -1074
    }

    predicate Denormal() {
      Exponent() == 0
    }

    /** A power of two whose lower neighbour is half as far away as the upper one. */
    predicate PowerOfTwo() {
      w1 == 0 && w0 % 0x10_0000 == 0 && Exponent() > 1
    }
  }

  /** One test of `lo0bits`: n zero bits at the low end, m = 2^n. */
  method LowStep(x: Word, k: nat, n: nat, m: nat) returns (x': Word, k': nat)
    requires m == Pow(2, n) > 0
    ensures x' * Pow(2, k') == x * Pow(2, k) && x' <= x
    ensures x == 0 ==> k' == k + n
    ensures k' == k || k' == k + n
    ensures x % (m * m) != 0 ==> x' % m != 0
  {
    hide Pow;
    x', k' := x, k;
    if x % m == 0 {
      PowAdd(2, k, n);
      MulAssoc(x / m, m, Pow(2, k));
      DivMul(x, m);
      x', k' := x / m, k + n;
    }
  }

  lemma DivMul(x: nat, m: nat)
    requires m > 0 && x % m == 0
    ensures x / m * m == x && x / m <= x
    ensures x % (m * m) != 0 ==> x / m % m != 0
  {
    DivBounds(x, m);
    var q := x / m;
    if q % m == 0 {
      assert q == q / m * m;
      MulAssoc(q / m, m, m);
      MulLe(1, m, m);
      DivModUnique(x, m * m, q / m, 0);
    }
  }

  /** `lo0bits`: shifts the zero bits at the low end out and counts them. */
  method Lo0bits(y: Word) returns (k: nat, x: Word)
    ensures y == 0 ==> k == 32 && x == 0
    ensures y > 0 ==> k < 32 && x % 2 == 1 && y == x * Pow(2, k)
  {
    SmallPowers();
    x := y;
    if x % 8 != 0 {
      if x % 2 == 1 {
        return 0, x;
      }
      if x / 2 % 2 == 1 {
        return 1, x / 2;
      }
      return 2, x / 4;
    }
    k := 0;
    x, k := LowStep(x, k, 16, 0x1_0000);
    x, k := LowStep(x, k, 8, 0x100);
    x, k := LowStep(x, k, 4, 0x10);
    x, k := LowStep(x, k, 2, 4);
    ghost var x4 := x;
    x, k := LowStep(x, k, 1, 2);
    if x == 0 {
      k := 32;
    }
  }

  lemma SmallPowers()
    ensures Pow(2, 0) == 1 && Pow(2, 1) == 2 && Pow(2, 2) == 4 && Pow(2, 4) == 0x10
    ensures Pow(2, 8) == 0x100 && Pow(2, 16) == 0x1_0000
  {
    PowAdd(2, 8, 8);
  }

  /** One test of `hi0bits`: n zero bits at the high end, m = 2^n. */
  method HighStep(x: Word, k: nat, n: nat, m: nat, top: nat, ghost y: Word) returns (x': Word, k': nat)
    requires m == Pow(2, n) > 0 && m * top == 0x1_0000_0000 && x == y * Pow(2, k)
    ensures x' == 0 <==> x == 0
    ensures x == 0 ==> k' == k + n
    ensures k' == k || k' == k + n
    ensures x' >= top || x' == x * m
    ensures x' == y * Pow(2, k')
  {
    x', k' := x, k;
    if x < top {
      MulLt(x, top, m);
      MulLe(0, x, m);
      PowAdd(2, k, n);
      MulAssoc(y, Pow(2, k), m);
      x', k' := x * m, k + n;
    }
  }

  /** `hi0bits`: the number of zero bits at the high end. */
  method Hi0bits(y: Word) returns (k: nat)
    ensures y == 0 ==> k == 32
    ensures y > 0 ==> k < 32 && 0x8000_0000 <= y * Pow(2, k) < 0x1_0000_0000
  {
    SmallPowers();
    k := 0;
    var x := y;
    x, k := HighStep(x, k, 16, 0x1_0000, 0x1_0000, y);
    x, k := HighStep(x, k, 8, 0x100, 0x100_0000, y);
    x, k := HighStep(x, k, 4, 0x10, 0x1000_0000, y);
    x, k := HighStep(x, k, 2, 4, 0x4000_0000, y);
    if x < 0x8000_0000 {
      PowAdd(2, k, 1);
      MulAssoc(y, Pow(2, k), 2);
      k := k + 1;
      if x < 0x4000_0000 {
        return 32;
      }
    }
  }

  /** The low part of `d2b`, for a low word that is not zero: the significand without its k zero bits at the end. */
  method ShiftOut(z: Word, y: Word) returns (k: nat, x0: Word, x1: Word)
    requires 0 < y && z < 0x20_0000
    ensures k < 32 && x0 % 2 == 1 && x1 <= z
    ensures (x0 + x1 * 0x1_0000_0000) * Pow(2, k) == z * 0x1_0000_0000 + y
  {
    var y';
    k, y' := Lo0bits(y);
    if k == 0 {
      assert Pow(2, 0) == 1;
      return 0, y', z;
    }
    x0, x1 := ShiftRight(z, y, y', k);
  }

  /** The two words after a shift by k bits, given the low word already shifted. */
  method ShiftRight(z: Word, ghost y: Word, y': Word, k: nat) returns (x0: Word, x1: Word)
    requires 0 < k < 32 && y' % 2 == 1 && y == y' * Pow(2, k)
    ensures x0 % 2 == 1 && x1 <= z
    ensures (x0 + x1 * 0x1_0000_0000) * Pow(2, k) == z * 0x1_0000_0000 + y
  {
    hide Pow;
    ShiftOutWords(z, y, y', k);
    x0 := z * Pow(2, 32 - k) % 0x1_0000_0000 + y';
    x1 := z / Pow(2, k);
  }

  lemma ShiftOutWords(z: Word, y: Word, y': Word, k: nat)
    requires 0 < k < 32 && y' % 2 == 1 && y == y' * Pow(2, k)
    ensures 0 < Pow(2, k)
    ensures var x0, x1 := z * Pow(2, 32 - k) % 0x1_0000_0000 + y', z / Pow(2, k);
      && 0 <= x0 < 0x1_0000_0000 && x0 % 2 == 1 && x1 <= z
      && (x0 + x1 * 0x1_0000_0000) * Pow(2, k) == z * 0x1_0000_0000 + y
  {
    var p := Pow(2, 32 - k);
    PowWord();
    PowAdd(2, 32 - k, k);
    PowPos(2, k);
    PowPos(2, 32 - k);
    if y' >= p {
      MulLe(p, y', Pow(2, k));
    }
    ShiftOutJoined(z, y', k);
    DivBounds(z, Pow(2, k));
    ShiftOutAlgebra(z, p, Pow(2, k), y');
  }

  lemma ShiftOutJoined(z: Word, y': Word, k: nat)
    requires 0 < k < 32 && y' % 2 == 1 && y' < Pow(2, 32 - k)
    ensures 0 < Pow(2, k)
    ensures var x0, x1 := z * Pow(2, 32 - k) % 0x1_0000_0000 + y', z / Pow(2, k);
      && 0 <= x0 < 0x1_0000_0000 && x0 % 2 == 1
      && x0 + x1 * 0x1_0000_0000 == z * Pow(2, 32 - k) + y'
  {
    ShiftWord(z, 32 - k, y');
    EvenPart(z * Pow(2, 32 - k), Pow(2, 32 - k), 31 - k);
    HalvesJoin(z * Pow(2, 32 - k), y', z / Pow(2, k));
  }

  lemma HalvesJoin(t: nat, y: Word, x1: Word)
    requires t + y < 0x1_0000_0000_0000_0000 && t % 0x1_0000_0000 % 2 == 0 && y % 2 == 1
    requires Lo(t + y) == t % 0x1_0000_0000 + y && Hi(t + y) == x1
    ensures 0 <= t % 0x1_0000_0000 + y < 0x1_0000_0000 && (t % 0x1_0000_0000 + y) % 2 == 1
    ensures t % 0x1_0000_0000 + y + x1 * 0x1_0000_0000 == t + y
  {
  }

  /** A multiple of 2^(j + 1) stays even without its high word. */
  lemma EvenPart(x: nat, p: nat, j: nat)
    requires p == Pow(2, j + 1) && p > 0 && x % 0x1_0000_0000 % p == 0
    ensures x % 0x1_0000_0000 % 2 == 0
  {
    PowPos(2, j + 1);
    var l := x % 0x1_0000_0000;
    var q := l / p;
    assert l == q * p;
    MulAssoc(q, 2, Pow(2, j));
    assert l == 2 * (q * Pow(2, j));
  }

  lemma ShiftOutAlgebra(z: nat, p: nat, h: nat, y: nat)
    requires p * h == 0x1_0000_0000
    ensures (z * p + y) * h == z * 0x1_0000_0000 + y * h
  {
    MulAssoc(z, p, h);
    assert (z * p + y) * h == (z * p) * h + y * h;
  }

  method OddPart(d: Double) returns (k: nat, x0: Word, x1: Word)
    requires d.Finite()
    ensures x0 % 2 == 1 && (x0 + x1 * 0x1_0000_0000) * Pow(2, k) == d.Significand()
  {
    var z: Word := d.High();
    if d.w1 != 0 {
      k, x0, x1 := ShiftOut(z, d.w1);
    } else {
      x1 := 0;
      k, x0 := Lo0bits(z);
      PowWord();
      PowAdd(2, k, 32);
      MulAssoc(x0, Pow(2, k), 0x1_0000_0000);
      k := k + 32;
    }
  }

  /** `d2b`: the odd part of the significand as a Bigint, its exponent and its length in bits. */
  method D2b(d: Double) returns (b: Bigint, e: int, bits: nat)
    requires d.Finite()
    ensures b.Valid() && fresh(b) && fresh(b.x) && b.sign == 0 && b.Val() % 2 == 1
    ensures d.LowBit() <= e && b.Val() * Pow(2, e - d.LowBit()) == d.Significand()
    ensures 0 < bits && Pow(2, bits - 1) <= b.Val() < Pow(2, bits)
    ensures d.Exponent() > 0 ==> bits == 53 - (e - d.LowBit())
  {
    b := new Bigint(1);
    assert Pow(2, 1) == 2;
    var de: int := d.Exponent();
    var k, x0, x1 := OddPart(d);
    b.x[0], b.x[1] := x0, x1;
    b.wds := if x1 != 0 then 2 else 1;
    TwoWords(b.x[..b.wds], x0, x1);
    if de != 0 {
      e := de - 1023 - 52 + k;
      bits := NormalBits(d, b.Val(), k);
    } else {
      e := de - 1023 - 52 + 1 + k;
      var h := Hi0bits(b.x[b.wds - 1]);
      TopBits(b.x[..b.wds], h);
      bits := 32 * b.wds - h;
    }
  }

  lemma TwoWords(s: seq<Word>, x0: Word, x1: Word)
    requires s == if x1 != 0 then [x0, x1] else [x0]
    ensures Value(s) == x0 + x1 * 0x1_0000_0000 && Value(s) % 2 == x0 % 2
  {
    WStep(0);
    assert Value([]) == 0 && W(0) == 1;
    ValueStep(s, 0);
    if x1 != 0 {
      ValueStep(s, 1);
      assert s[..2] == s;
    } else {
      assert s[..1] == s;
    }
  }

  /** A normalized significand has 53 bits. */
  method NormalBits(d: Double, ghost v: nat, k: nat) returns (bits: nat)
    requires d.Exponent() > 0 && v * Pow(2, k) == d.Significand()
    ensures bits == 53 - k && 0 < bits && Pow(2, bits - 1) <= v < Pow(2, bits)
  {
    PowWord();
    PowAdd(2, 32, 20);
    SmallPowers();
    PowAdd(2, 16, 4);
    NormalLength(v, k);
    bits := 53 - k;
  }

  lemma NormalLength(v: nat, k: nat)
    requires Pow(2, 52) <= v * Pow(2, k) < Pow(2, 53)
    ensures k <= 52 && Pow(2, 52 - k) <= v < Pow(2, 53 - k)
  {
    PowPos(2, k);
    if k > 52 {
      PowMono(2, 53, k);
      MulLe(if v > 0 then 1 else 0, v, Pow(2, k));
      assert false;
    }
    PowAdd(2, 52 - k, k);
    PowAdd(2, 53 - k, k);
    Between(Pow(2, 52 - k), v, Pow(2, 53 - k), Pow(2, k));
  }

  lemma Between(a: nat, v: nat, b: nat, p: nat)
    requires 0 < p && a * p <= v * p < b * p
    ensures a <= v < b
  {
    if v < a {
      MulLt(v, a, p);
    }
    if v >= b {
      MulLe(b, v, p);
    }
  }

  /** The length in bits of a number whose top word has h zero bits at the high end. */
  lemma TopBits(s: seq<Word>, h: nat)
    requires |s| > 0 && s[|s| - 1] > 0 && h < 32 && 0x8000_0000 <= s[|s| - 1] * Pow(2, h) < 0x1_0000_0000
    ensures Pow(2, 32 * |s| - h - 1) <= Value(s) < Pow(2, 32 * |s| - h)
  {
    var n := |s| - 1;
    var t: int := s[n];
    ValueTop(s);
    WIsPow2(n);
    PowWord();
    PowPos(2, h);
    PowAdd(2, 31 - h, h);
    assert Pow(2, 32 - h) == 2 * Pow(2, 31 - h) && Pow(2, 32) == 2 * Pow(2, 31);
    PowAdd(2, 31 - h, h + 1);
    BitBounds(t, Pow(2, h), Pow(2, 31 - h));
    PowAdd(2, 31 - h, 32 * n);
    PowAdd(2, 32 - h, 32 * n);
    TopBounds(Value(s), t, W(n), Pow(2, 31 - h));
  }

  lemma TopBounds(v: nat, t: nat, w: nat, half: nat)
    requires t * w <= v < t * w + w && half <= t < 2 * half
    ensures half * w <= v < 2 * half * w
  {
    MulLe(half, t, w);
    MulLe(t + 1, 2 * half, w);
    assert (t + 1) * w == t * w + w;
  }

  lemma BitBounds(t: int, p: nat, half: nat)
    requires 0x8000_0000 <= t * p < 0x1_0000_0000 && half * p == 0x8000_0000 && 0 < p
    ensures half <= t < 2 * half
  {
    assert 2 * half * p == 2 * (half * p);
    if t < half {
      MulLt(t, half, p);
    }
    if t >= 2 * half {
      MulLe(2 * half, t, p);
    }
  }
}
