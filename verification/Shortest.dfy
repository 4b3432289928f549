/** What `dtoa` promises, on doubles. */
module ShortestDecimals {
  import opened Arith
  import opened Digits
  import opened Doubles
  import opened Generate
  import opened Decimals

  /** 5^x5 * 2^x2 over 5^s5 * 2^s2, for exponents that differ by k and by k less e. */
  lemma PowersRatio(f: nat, x5: nat, x2: nat, s5: nat, s2: nat, k: int, e: int, x: nat, s: nat, y: real)
    requires x5 + k == s5 && x2 + k == e + s2 && y == (f as real) * P2(e)
    requires x == f * Pow(5, x5) * Pow(2, x2) && s == Pow(5, s5) * Pow(2, s2)
    ensures Ratio(x, s, k, y)
  {
    hide P2, P5, P10, Pow;
    P10Split(k);
    P5Add(x5, k);
    P2Add(x2, k);
    P2Add(e, s2);
    Product3(f, x5, x2, x);
    Product3(1, s5, s2, s);
    PowersAlgebra(f as real, P5(x5), P2(x2), P5(k), P2(k), P10(k), P5(s5), P2(s2), P2(e), P2(e + s2),
                  x as real, s as real, y);
  }

  lemma Product3(f: nat, x5: nat, x2: nat, x: nat)
    requires x == f * Pow(5, x5) * Pow(2, x2)
    ensures x as real == (f as real) * P5(x5) * P2(x2)
  {
    P5Nat(x5);
    P2Nat(x2);
    hide P2, P5, Pow;
    var fx := f * Pow(5, x5);
    Cast(f, Pow(5, x5));
    Cast(fx, Pow(2, x2));
  }

  lemma PowersAlgebra(f: real, a: real, b: real, a': real, b': real, t: real, A: real, B: real, e: real, eB: real,
                      x: real, s: real, y: real)
    requires t == b' * a' && A == a * a' && eB == b * b' && eB == e * B && x == f * a * b && s == A * B && y == f * e
    ensures x * t == y * s
  {
    hide *;
    assert x * t == f * ((a * a') * (b * b'));
    assert (f * e) * s == f * (A * (e * B));
  }

  /** Ten times as much, read with one place less. */
  lemma RatioTen(x: int, n: nat, k: int, y: real)
    requires Ratio(x, n, k, y)
    ensures Ratio(10 * x, n, k - 1, y)
  {
    P10Step(k - 1);
    hide P10;
    TenAlgebra(x as real, P10(k - 1), P10(k), (10 * x) as real);
  }

  lemma TenAlgebra(x: real, r: real, r10: real, x10: real)
    requires r10 == 10.0 * r && x10 == 10.0 * x
    ensures x10 * r == x * r10
  {
  }

  /** The value of a double from its odd part. */
  lemma ExactOdd(d: Double, f: nat, e: int)
    requires d.LowBit() <= e && f * Pow(2, e - d.LowBit()) == d.Significand()
    ensures Exact(d) == (f as real) * P2(e)
  {
    hide P2, Pow;
    var z := e - d.LowBit();
    P2Add(d.LowBit(), z);
    P2Nat(z);
    OddReal(f, Pow(2, z), d.Significand(), P2(d.LowBit()), P2(e));
  }

  lemma OddReal(f: nat, p: nat, sig: nat, l: real, e: real)
    requires e == l * (p as real) && sig == f * p
    ensures (sig as real) * l == (f as real) * e
  {
    Cast(f, p);
    OddAlgebra(f as real, p as real, l, e, sig as real);
  }

  lemma OddAlgebra(f: real, p: real, l: real, e: real, sig: real)
    requires e == l * p && sig == f * p
    ensures sig * l == f * e
  {
  }

  /** The estimate of k is right, or one too large, by comparing b with S. */
  lemma FirstDigitPlace(v: Scaled, value: real, k: int)
    requires v.s > 0 && Ratio(v.b, v.s, k, value)
    ensures v.s <= v.b <==> P10(k) <= value
    ensures v.b < 10 * v.s <==> value < P10(k + 1)
    ensures v.s <= 10 * v.b <==> P10(k - 1) <= value
  {
    P10Step(k);
    P10Step(k - 1);
    hide P10;
    UnitRatio(v.s, k);
    RatioLe(v.s, v.b, v.s, k, P10(k), value);
    TimesRatio(v.s, v.s, k, P10(k), 10);
    RatioLe(v.b, 10 * v.s, v.s, k, value, 10.0 * P10(k));
    TimesRatio(v.b, v.s, k, value, 10);
    RatioLe(v.s, 10 * v.b, v.s, k, P10(k), 10.0 * value);
  }

  lemma UnitRatio(s: nat, k: int)
    ensures Ratio(s, s, k, P10(k))
  {
  }

  lemma TimesRatio(x: int, n: nat, k: int, y: real, c: nat)
    requires Ratio(x, n, k, y)
    ensures Ratio(c * x, n, k, (c as real) * y)
  {
    Cast(c, x);
    CTimes(c as real, x as real, P10(k), y, n as real, (c * x) as real);
  }

  lemma CTimes(c: real, x: real, r: real, y: real, n: real, cx: real)
    requires x * r == y * n && cx == c * x
    ensures cx * r == (c * y) * n
  {
    assert (c * x) * r == c * (x * r);
    assert (c * y) * n == c * (y * n);
  }

  ghost function RAbs(x: real): real {
    if x < 0.0 then -x else x
  }

  /** N * 10^e */
  ghost function At(N: int, e: int): real {
    (N as real) * P10(e)
  }

  /** What `dtoa` promises in mode 0, and in mode 1 (`strict`): a decimal that is read back as d, of at most 17 digits,
      such that no decimal of fewer digits is read back as d and none of as many digits that is read back is nearer. */
  ghost predicate ShortestFor(d: Double, ds: seq<Digit>, decpt: int, strict: bool) {
    && Clean(ds) && |ds| <= 17
    && ReadsBack(d, Decimal(ds, decpt), strict)
    && (forall N: nat, n: nat, e: int :: 0 < N < Pow(10, n) && ReadsBack(d, At(N, e), strict) ==> |ds| <= n)
    && NearestOf(d, Decimal(ds, decpt), |ds|, strict)
  }

  /** Of the decimals of at most n digits that are read back as d, with any exponent, none is nearer than x. */
  ghost predicate NearestOf(d: Double, x: real, n: nat, strict: bool) {
    forall N: nat, e: int :: N < Pow(10, n) && ReadsBack(d, At(N, e), strict) ==>
      RAbs(x - Exact(d)) <= RAbs(At(N, e) - Exact(d))
  }

  lemma InsideAt(v: Scaled, d: Double, k: int, strict: bool, M: int, p: nat)
    requires Scales(v, d, k, strict)
    ensures Inside(v, M, p) <==> ReadsBack(d, At(M, k - p), strict)
  {
    hide Inside, ReadsBack, Scales;
    InsideReal(v, d, k, strict, M, p, At(M, k - p));
  }

  /** A decimal with its exponent is a decimal with places after the first digit. */
  lemma DecimalInside(v: Scaled, d: Double, k: int, strict: bool, N: nat, e: int)
    requires Scales(v, d, k, strict)
    ensures InsideDecimal(v, N, e - k) <==> ReadsBack(d, At(N, e), strict)
  {
    hide P10, Pow;
    if e >= k {
      ShownPlaces(N, e - k, N * Pow(10, e - k), k, e);
      InsideReal(v, d, k, strict, N * Pow(10, e - k), 0, At(N, e));
    } else {
      InsideReal(v, d, k, strict, N, k - e, At(N, e));
    }
  }

  lemma NearestReal(v: Scaled, value: real, k: int, M: int, M': int, p: nat)
    requires v.s > 0 && Ratio(v.b, v.s, k, value)
    requires Abs(Dist(v, M, p)) <= Abs(Dist(v, M', p))
    ensures RAbs(At(M, k - p) - value) <= RAbs(At(M', k - p) - value)
  {
    hide P10, Pow, Dist;
    var n := v.s * Pow(10, p);
    var x, x' := Dist(v, M, p), Dist(v, M', p);
    var y, y' := At(M, k - p) - value, At(M', k - p) - value;
    PowPos(10, p);
    MulLt(0, v.s, Pow(10, p));
    DistReal(v, value, k, M, p, At(M, k - p), n);
    DistReal(v, value, k, M', p, At(M', k - p), n);
    AbsRatio(x, n, k, y);
    AbsRatio(x', n, k, y');
    RatioLe(Abs(x), Abs(x'), n, k, RAbs(y), RAbs(y'));
  }

  lemma AbsRatio(x: int, n: nat, k: int, y: real)
    requires 0 < n && Ratio(x, n, k, y)
    ensures Ratio(Abs(x), n, k, RAbs(y))
  {
    hide P10;
    Negate(x, n, k, y);
    ZeroRatio(n, k);
    RatioLe(x, 0, n, k, y, 0.0);
    RatioLe(0, x, n, k, 0.0, y);
  }

  lemma ZeroRatio(n: nat, k: int)
    ensures Ratio(0, n, k, 0.0)
  {
  }

  /** An interval without a decimal of q places is narrow. */
  lemma Narrow(v: Scaled, q: nat)
    requires 0 < v.s && 0 < v.lo && 0 < v.hi && Blank(v, q)
    ensures (v.lo + v.hi) * Pow(10, q) <= v.s
  {
    var t := v.b * Pow(10, q);
    var M, r := t / v.s, t % v.s;
    assert t == M * v.s + r;
    Neighbours(v, M, q, r);
    assert !Inside(v, M, q) && !Inside(v, M + 1, q);
    assert (v.lo + v.hi) * Pow(10, q) == v.lo * Pow(10, q) + v.hi * Pow(10, q);
  }

  /** The scaled integers keep the shape of a double: b is an even multiple of hi, and lo is hi or half of it. */
  lemma Shape(v: Scaled, d: Double, k: int, strict: bool)
    requires Scales(v, d, k, strict)
    ensures v.b == 2 * d.Significand() * v.hi
    ensures if d.PowerOfTwo() then v.hi == 2 * v.lo else v.hi == v.lo
  {
    var f := d.Significand();
    P2Step(d.LowBit() - 1);
    P2Step(d.LowBit() - 2);
    hide P2, P10;
    TimesRatio(v.hi, v.s, k, HalfAbove(d), 2 * f);
    assert Exact(d) == ((2 * f) as real) * HalfAbove(d);
    SameRatio(v.b, 2 * f * v.hi, v.s, k, Exact(d));
    if d.PowerOfTwo() {
      TimesRatio(v.lo, v.s, k, HalfBelow(d), 2);
      SameRatio(v.hi, 2 * v.lo, v.s, k, HalfAbove(d));
    } else {
      SameRatio(v.hi, v.lo, v.s, k, HalfAbove(d));
    }
  }

  lemma SameRatio(x: int, x': int, n: nat, k: int, y: real)
    requires 0 < n && Ratio(x, n, k, y) && Ratio(x', n, k, y)
    ensures x == x'
  {
    hide Ratio;
    RatioLe(x, x', n, k, y, y);
    RatioLe(x', x, n, k, y, y);
  }

  /** At most 17 digits. */
  lemma Seventeen(v: Scaled, d: Double, k: int, strict: bool, p: nat)
    requires d.Finite() && Scales(v, d, k, strict) && v.s <= v.b && 0 < v.lo && 0 < v.hi
    requires p > 0 ==> Blank(v, p - 1)
    ensures p + 1 <= 17
  {
    if p > 0 {
      var q := p - 1;
      Narrow(v, q);
      Shape(v, d, k, strict);
      SignificandBound(d);
      hide Pow;
      if d.PowerOfTwo() {
        NarrowHalf(v.lo, v.hi, Pow(10, q), v.s, v.b, d.Significand());
      } else {
        NarrowSame(v.hi, Pow(10, q), v.s, v.b, d.Significand());
      }
      if q >= 16 {
        PowMono(10, 16, q);
        TenTo16();
      }
    }
  }

  lemma TenTo16()
    ensures Pow(10, 16) == 10_000_000_000_000_000
  {
    assert Pow(10, 8) == 100_000_000;
    PowAdd(10, 8, 8);
  }

  lemma SignificandBound(d: Double)
    requires d.Finite()
    ensures 0 < d.Significand() < 0x20_0000_0000_0000
    ensures d.PowerOfTwo() ==> d.Significand() == 0x10_0000_0000_0000
  {
  }

  lemma NarrowHalf(lo: nat, hi: nat, t: nat, s: nat, b: nat, f: nat)
    requires hi == 2 * lo && 0 < lo && (lo + hi) * t <= s <= b == 2 * f * hi
    ensures 3 * t <= 4 * f
  {
    assert (lo + hi) * t == lo * (3 * t);
    assert 2 * f * hi == lo * (4 * f);
    if 3 * t > 4 * f {
      MulLt(4 * f, 3 * t, lo);
    }
  }

  lemma NarrowSame(hi: nat, t: nat, s: nat, b: nat, f: nat)
    requires 0 < hi && (hi + hi) * t <= s <= b == 2 * f * hi
    ensures t <= f
  {
    assert (hi + hi) * t == hi * (2 * t);
    assert 2 * f * hi == hi * (2 * f);
    if t > f {
      MulLt(2 * f, 2 * t, hi);
    }
  }

  /** No power of two is a multiple of 13 or 17. */
  lemma {:induction false} PowerNotMultiple(n: nat)
    ensures Pow(2, n) % 13 != 0 && Pow(2, n) % 17 != 0
  {
    if n > 0 {
      PowerNotMultiple(n - 1);
      Doubled(Pow(2, n - 1));
    }
  }

  lemma Doubled(x: nat)
    requires x % 13 != 0 && x % 17 != 0
    ensures 2 * x % 13 != 0 && 2 * x % 17 != 0
  {
    DoubledMod(x, 13, 6);
    DoubledMod(x, 17, 8);
  }

  lemma DoubledMod(x: nat, c: nat, h: nat)
    requires c == 2 * h + 1 && x % c != 0
    ensures 2 * x % c != 0
  {
    var q := 2 * x / c;
    if 2 * x % c == 0 {
      assert 2 * x == q * c;
      HalfMultiple(x, q, c, h);
      DivModUnique(x, c, x - h * q, 0);
    }
  }

  lemma HalfMultiple(x: nat, q: nat, c: nat, h: nat)
    requires c == 2 * h + 1 && 2 * x == q * c
    ensures x == (x - h * q) * c
  {
    assert q * c == 2 * (h * q) + q;
    assert q == 2 * (x - h * q);
    assert 2 * x == 2 * ((x - h * q) * c);
  }

  /** A small odd multiple of the least half distance is no power of ten. */
  lemma NotPowerOfTen(c: nat, e: int)
    requires c == 13 || c == 17
    ensures (c as real) * P2(-1075) != P10(e)
  {
    hide P2, P10, Pow;
    PowerNotMultiple(1075);
    Multiple(c, Pow(10, Abs(e)));
    TooLarge(c, Abs(e));
    if (c as real) * P2(-1075) == P10(e) {
      WholeNumbers(c, e);
      assert false;
    }
  }

  /** The same equation between whole numbers. */
  lemma WholeNumbers(c: nat, e: int)
    requires (c as real) * P2(-1075) == P10(e)
    ensures e <= 0 ==> c * Pow(10, Abs(e)) == Pow(2, 1075)
    ensures e > 0 ==> Pow(2, 1075) * Pow(10, Abs(e)) == c
  {
    hide P2, P10, Pow;
    InversePowers(-1075, e);
    P2Nat(1075);
    P10Nat(Abs(e));
    CrossMultiply(c as real, P2(-1075), P2(1075), P10(e), P10(-e));
    if e <= 0 {
      CastEqual(c, Pow(10, -e), Pow(2, 1075));
    } else {
      CastBack(c, P10(-e), Pow(10, e), Pow(2, 1075));
    }
  }

  lemma InversePowers(m: int, e: int)
    ensures P2(m) * P2(-m) == 1.0 && P10(e) * P10(-e) == 1.0
  {
    hide P2, P10;
    P2Add(m, -m);
    P2Step(0);
    P10Step(0);
    P10Add(e, -e);
  }

  lemma CastBack(c: nat, t': real, t: nat, h: nat)
    requires (c as real) * t' == h as real && (t as real) * t' == 1.0
    ensures h * t == c
  {
    Inverse(c as real, t as real, t', h as real);
    CastEqual(h, t, c);
  }

  lemma CrossMultiply(c: real, h: real, h': real, t: real, t': real)
    requires c * h == t && h * h' == 1.0 && t * t' == 1.0
    ensures c * t' == h'
  {
    assert (c * h) * (t' * h') == (c * t') * (h * h');
    assert (t * t') * h' == (c * t') * (h * h');
  }

  lemma Inverse(c: real, t: real, t': real, h: real)
    requires c * t' == h && t * t' == 1.0
    ensures h * t == c
  {
    assert (c * t') * t == c * (t * t');
  }

  lemma CastEqual(a: nat, b: nat, c: nat)
    requires (a as real) * (b as real) == c as real
    ensures a * b == c
  {
    Cast(a, b);
  }

  lemma Multiple(c: nat, x: nat)
    requires c > 0
    ensures c * x % c == 0
  {
    DivModUnique(c * x, c, x, 0);
  }

  lemma TooLarge(c: nat, e: nat)
    requires c < 32
    ensures c < Pow(2, 1075) * Pow(10, e)
  {
    PowMono(2, 5, 1075);
    PowPos(10, e);
    MulLe(1, Pow(10, e), Pow(2, 1075));
    assert Pow(2, 5) == 32;
  }

  /** No double is so near to the half-way point below a power of ten that its shortest decimal is the power of ten
      and not the nearer digit nine. */
  lemma NeverTenAnyway(v: Scaled, d: Double, k: int, strict: bool)
    requires d.Finite() && Scales(v, d, k, strict)
    ensures !TenAnyway(v)
  {
    if TenAnyway(v) {
      var f := d.Significand();
      Shape(v, d, k, strict);
      SmallSignificand(v.b, v.hi, v.s, f);
      SignificandBound(d);
      assert f % 2 == 0 by {
        assert f == 2 * (d.High() * 0x8000_0000 + d.w1 / 2);
      }
      assert f == 6 || f == 8;
      hide P2, P10;
      RatioPlus(v.b, v.hi, v.s, k, Exact(d), HalfAbove(d));
      UnitRatio(v.s, k);
      TimesRatio(v.s, v.s, k, P10(k), 10);
      P10Step(k);
      SameValue(10 * v.s, v.s, k, Exact(d) + HalfAbove(d), P10(k + 1));
      HalfWay(d);
      NotPowerOfTen(2 * f + 1, k + 1);
      assert false;
    }
  }

  lemma HalfWay(d: Double)
    requires d.Denormal()
    ensures Exact(d) + HalfAbove(d) == ((2 * d.Significand() + 1) as real) * P2(-1075)
  {
    P2Step(-1075);
    hide P2;
  }

  lemma SmallSignificand(b: nat, hi: nat, s: nat, f: nat)
    requires 0 < s && b == 2 * f * hi && b + hi == 10 * s && 0 <= b - 9 * s && 2 * (b - 9 * s) < s
    ensures 5 <= f <= 9
  {
    assert (2 * f + 1) * hi == 2 * f * hi + hi;
    if f >= 10 {
      MulLe(21, 2 * f + 1, hi);
    }
    if f < 5 {
      MulLe(2 * f + 1, 9, hi);
    }
  }

  lemma RatioPlus(x: int, x': int, n: nat, k: int, y: real, y': real)
    requires Ratio(x, n, k, y) && Ratio(x', n, k, y')
    ensures Ratio(x + x', n, k, y + y')
  {
    hide P10;
    Negate(x', n, k, y');
    RatioMinus(x, -x', n, k, y, -y');
  }

  lemma SameValue(x: int, n: nat, k: int, y: real, y': real)
    requires 0 < n && Ratio(x, n, k, y) && Ratio(x, n, k, y')
    ensures y == y'
  {
    hide Ratio;
    RatioLe(x, x, n, k, y, y');
    RatioLe(x, x, n, k, y', y);
  }

  /** The shortest digits of the scaled integers are the shortest decimal of the double. */
  lemma ShortestOfDouble(v: Scaled, d: Double, k: int, strict: bool, ds: seq<Digit>, up: bool)
    requires d.Finite() && Scales(v, d, k, strict) && v.s <= v.b && 0 < v.lo && 0 < v.hi
    requires BestShort(v, ds, up) && (up ==> |ds| == 1)
    ensures ShortestFor(d, ds, k + 1 + if up then 1 else 0, strict)
  {
    var p := |ds| - 1;
    var M, decpt := Shown(ds, up, p), k + 1 + if up then 1 else 0;
    NeverTenAnyway(v, d, k, strict);
    Shape(v, d, k, strict);
    Seventeen(v, d, k, strict, p);
    DecimalAt(ds, up, p, k, M, decpt);
    hide Pow, Shown, Inside, ReadsBack, Exact, At, Decimal;
    InsideAt(v, d, k, strict, M, p);
    forall N: nat, n: nat, e: int | 0 < N < Pow(10, n) && ReadsBack(d, At(N, e), strict)
      ensures |ds| <= n
    {
      NoFewerReal(v, d, k, strict, M, p, N, n, e);
    }
    NearestOfReal(v, d, k, strict, M, p);
  }

  lemma DecimalAt(ds: seq<Digit>, up: bool, p: nat, k: int, N: nat, decpt: int)
    requires |ds| <= p + 1 && N == Shown(ds, up, p) && decpt == k + 1 + if up then 1 else 0
    ensures Decimal(ds, decpt) == At(N, k - p)
  {
    hide Num, P10, Decimal;
    DecimalShown(ds, up, p, k, N, decpt);
  }

  lemma NoFewerReal(v: Scaled, d: Double, k: int, strict: bool, M: nat, p: nat, N: nat, n: nat, e: int)
    requires Scales(v, d, k, strict) && v.s <= v.b && 0 < v.hi && Shortest(v, M, p)
    requires 0 < N < Pow(10, n) && ReadsBack(d, At(N, e), strict)
    ensures p + 1 <= n
  {
    hide P10, P2, Pow, Inside;
    DecimalInside(v, d, k, strict, N, e);
    NoFewerDigits(v, M, p, N, n, e - k);
  }

  lemma ScalesExact(v: Scaled, d: Double, k: int, strict: bool)
    requires Scales(v, d, k, strict)
    ensures v.s > 0 && Ratio(v.b, v.s, k, Exact(d))
  {
  }

  lemma NearestOfReal(v: Scaled, d: Double, k: int, strict: bool, M: nat, p: nat)
    requires Scales(v, d, k, strict) && Nearest(v, M, p) && v.s <= v.b
    ensures NearestOf(d, At(M, k - p), p + 1, strict)
  {
    hide P10, Pow, Inside, Dist, ReadsBack, Exact, At, Nearest, Scales, RAbs;
    forall N: nat, e: int | N < Pow(10, p + 1) && ReadsBack(d, At(N, e), strict)
      ensures RAbs(At(M, k - p) - Exact(d)) <= RAbs(At(N, e) - Exact(d))
    {
      if e >= k - p {
        Coarser(N, e, k - p);
        NearestAt(v, d, k, strict, M, p, N * Pow(10, e - (k - p)));
      } else {
        NearestFine(v, d, k, strict, M, p, N, e);
      }
    }
  }

  /** A multiple of 10^e is one of 10^u below. */
  lemma Coarser(N: nat, e: int, u: int)
    requires u <= e
    ensures At(N, e) == At(N * Pow(10, e - u), u)
  {
    hide P10, Pow;
    ShownPlaces(N, e - u, N * Pow(10, e - u), u, e);
  }

  lemma NearestAt(v: Scaled, d: Double, k: int, strict: bool, M: nat, p: nat, N: int)
    requires Scales(v, d, k, strict) && Nearest(v, M, p) && ReadsBack(d, At(N, k - p), strict)
    ensures RAbs(At(M, k - p) - Exact(d)) <= RAbs(At(N, k - p) - Exact(d))
  {
    hide P10, Pow, Inside, Dist, ReadsBack, Exact, At;
    ScalesExact(v, d, k, strict);
    InsideAt(v, d, k, strict, N, p);
    NearestReal(v, Exact(d), k, M, N, p);
  }

  /** A decimal of p + 1 digits with a smaller unit lies below the power of ten of the first digit, which is nearer. */
  lemma NearestFine(v: Scaled, d: Double, k: int, strict: bool, M: nat, p: nat, N: nat, e: int)
    requires Scales(v, d, k, strict) && Nearest(v, M, p) && v.s <= v.b
    requires e < k - p && N < Pow(10, p + 1) && ReadsBack(d, At(N, e), strict)
    ensures RAbs(At(M, k - p) - Exact(d)) <= RAbs(At(N, e) - Exact(d))
  {
    hide P10, Pow, Inside, Dist, ReadsBack, Exact, At, Nearest, Scales, RAbs;
    ScalesExact(v, d, k, strict);
    FirstDigitPlace(v, Exact(d), k);
    FineBelow(N, e, p, k);
    PowerAt(p, k);
    Between(d, At(N, e), At(Pow(10, p), k - p), strict);
    NearestAt(v, d, k, strict, M, p, Pow(10, p));
  }

  lemma PowerAt(p: nat, k: int)
    ensures At(Pow(10, p), k - p) == P10(k)
  {
    hide P10, Pow;
    PlaceSplit(k, p);
  }

  lemma FineBelow(N: nat, e: int, p: nat, k: int)
    requires e < k - p && N < Pow(10, p + 1)
    ensures At(N, e) <= P10(k)
  {
    hide P10, Pow;
    P10Mono(e + p + 1, k);
    P10Pos(e);
    P10Add(e, p + 1);
    P10Nat(p + 1);
    RMulLe(N as real, Pow(10, p + 1) as real, P10(e));
  }

  /** What lies between a number that is read back and the double is read back and is nearer. */
  lemma Between(d: Double, y: real, z: real, strict: bool)
    requires ReadsBack(d, y, strict) && y <= z <= Exact(d)
    ensures ReadsBack(d, z, strict) && RAbs(z - Exact(d)) <= RAbs(y - Exact(d))
  {
    HalvesPositive(d);
    hide Exact, HalfAbove, HalfBelow;
  }

  lemma HalvesPositive(d: Double)
    ensures HalfAbove(d) > 0.0 && HalfBelow(d) > 0.0
  {
    P2Pos(d.LowBit() - 1);
    P2Pos(d.LowBit() - 2);
    hide P2;
  }
}
