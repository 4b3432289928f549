/** Exact real values of doubles and decimals, and what the integer facts of digit generation say about them. */
module Decimals {
  import opened Arith
  import opened Digits
  import opened Doubles
  import opened Generate

  // Powers with exponents of either sign

  ghost function P2(e: int): real
    decreases Abs(e)
  {
    if e == 0 then 1.0 else if e > 0 then 2.0 * P2(e - 1) else P2(e + 1) / 2.0
  }

  lemma {:induction false} P2Pos(e: int)
    ensures P2(e) > 0.0
    decreases Abs(e)
  {
    if e != 0 {
      P2Pos(if e > 0 then e - 1 else e + 1);
    }
  }

  lemma {:induction false} P2Nat(e: nat)
    ensures P2(e) == Pow(2, e) as real
  {
    if e > 0 {
      P2Nat(e - 1);
    }
  }

  lemma P2Step(e: int)
    ensures P2(e + 1) == 2.0 * P2(e) && P2(0) == 1.0
  {
  }

  lemma {:induction false} P2Add(m: int, n: int)
    ensures P2(m + n) == P2(m) * P2(n)
    decreases Abs(n)
  {
    hide P2;
    if n > 0 {
      P2Add(m, n - 1);
      P2Step(m + n - 1);
      P2Step(n - 1);
      Linear(P2(m), P2(n - 1), P2(n), P2(m + n - 1), P2(m + n), 2.0);
    } else if n < 0 {
      P2Add(m, n + 1);
      P2Step(m + n);
      P2Step(n);
      Linear(P2(m), P2(n), P2(n + 1), P2(m + n), P2(m + n + 1), 2.0);
    } else {
      P2Step(0);
    }
  }

  ghost function P5(e: int): real
    decreases Abs(e)
  {
    if e == 0 then 1.0 else if e > 0 then 5.0 * P5(e - 1) else P5(e + 1) / 5.0
  }

  lemma {:induction false} P5Pos(e: int)
    ensures P5(e) > 0.0
    decreases Abs(e)
  {
    if e != 0 {
      P5Pos(if e > 0 then e - 1 else e + 1);
    }
  }

  lemma {:induction false} P5Nat(e: nat)
    ensures P5(e) == Pow(5, e) as real
  {
    if e > 0 {
      P5Nat(e - 1);
    }
  }

  lemma P5Step(e: int)
    ensures P5(e + 1) == 5.0 * P5(e) && P5(0) == 1.0
  {
  }

  lemma {:induction false} P5Add(m: int, n: int)
    ensures P5(m + n) == P5(m) * P5(n)
    decreases Abs(n)
  {
    hide P5;
    if n > 0 {
      P5Add(m, n - 1);
      P5Step(m + n - 1);
      P5Step(n - 1);
      Linear(P5(m), P5(n - 1), P5(n), P5(m + n - 1), P5(m + n), 5.0);
    } else if n < 0 {
      P5Add(m, n + 1);
      P5Step(m + n);
      P5Step(n);
      Linear(P5(m), P5(n), P5(n + 1), P5(m + n), P5(m + n + 1), 5.0);
    } else {
      P5Step(0);
    }
  }

  ghost function P10(e: int): real
    decreases Abs(e)
  {
    if e == 0 then 1.0 else if e > 0 then 10.0 * P10(e - 1) else P10(e + 1) / 10.0
  }

  lemma {:induction false} P10Pos(e: int)
    ensures P10(e) > 0.0
    decreases Abs(e)
  {
    if e != 0 {
      P10Pos(if e > 0 then e - 1 else e + 1);
    }
  }

  lemma {:induction false} P10Nat(e: nat)
    ensures P10(e) == Pow(10, e) as real
  {
    if e > 0 {
      P10Nat(e - 1);
    }
  }

  lemma P10Step(e: int)
    ensures P10(e + 1) == 10.0 * P10(e) && P10(0) == 1.0
  {
  }

  lemma {:induction false} P10Add(m: int, n: int)
    ensures P10(m + n) == P10(m) * P10(n)
    decreases Abs(n)
  {
    hide P10;
    if n > 0 {
      P10Add(m, n - 1);
      P10Step(m + n - 1);
      P10Step(n - 1);
      Linear(P10(m), P10(n - 1), P10(n), P10(m + n - 1), P10(m + n), 10.0);
    } else if n < 0 {
      P10Add(m, n + 1);
      P10Step(m + n);
      P10Step(n);
      Linear(P10(m), P10(n), P10(n + 1), P10(m + n), P10(m + n + 1), 10.0);
    } else {
      P10Step(0);
    }
  }

  lemma Linear(x: real, y: real, cy: real, xy: real, cxy: real, c: real)
    requires c > 0.0 && cy == c * y && cxy == c * xy
    ensures xy == x * y <==> cxy == x * cy
  {
    RAssoc(c, x, y);
    RMulLe(xy, x * y, c);
    RMulLe(x * y, xy, c);
  }

  lemma RAssoc(b: real, x: real, y: real)
    ensures b * (x * y) == x * (b * y)
  {
  }

  lemma Cast(a: int, b: int)
    ensures (a * b) as real == (a as real) * (b as real)
  {
  }

  lemma {:induction false} P10Mono(m: int, n: int)
    ensures m <= n ==> P10(m) <= P10(n)
    decreases n - m
  {
    if m < n {
      P10Mono(m, n - 1);
      P10Step(n - 1);
      P10Pos(n - 1);
    }
  }

  lemma {:induction false} P10Split(e: int)
    ensures P10(e) == P2(e) * P5(e)
    decreases Abs(e)
  {
    if e > 0 {
      P10Split(e - 1);
      TenUp(P2(e - 1), P5(e - 1), P10(e - 1));
    } else if e < 0 {
      P10Split(e + 1);
      TenUp(P2(e), P5(e), P10(e));
    }
  }

  lemma TenUp(x: real, y: real, z: real)
    ensures (2.0 * x) * (5.0 * y) == 10.0 * (x * y)
  {
  }

  /** The exact value of a double. */
  ghost function Exact(d: Double): real {
    (d.Significand() as real) * P2(d.LowBit())
  }

  /** Half the distance to the next double above. */
  ghost function HalfAbove(d: Double): real {
    P2(d.LowBit() - 1)
  }

  /** Half the distance to the next double below. */
  ghost function HalfBelow(d: Double): real {
    if d.PowerOfTwo() then P2(d.LowBit() - 2) else P2(d.LowBit() - 1)
  }

  /** The next double, as its two words. */
  function Above(d: Double): Double
    requires d.Finite()
  {
    if d.w1 < 0xFFFF_FFFF then Double(d.w0, d.w1 + 1) else Double(d.w0 + 1, 0)
  }

  /** The halves are those of the distances to the neighbours. */
  lemma HalfWayToNext(d: Double)
    requires d.Finite() && Above(d).Finite()
    ensures Exact(Above(d)) - Exact(d) == 2.0 * HalfAbove(d) == 2.0 * HalfBelow(Above(d))
  {
    hide P2, Above;
    var e, l := Above(d), d.LowBit();
    P2Step(l - 1);
    P2Step(l);
    NeighbourWords(d);
    assert HalfBelow(e) == P2(l - 1);
    hide HalfBelow, Exact;
    if e.LowBit() == l {
      OneMore(d, e);
    } else {
      TwiceAsFar(d, e);
    }
  }

  lemma NeighbourWords(d: Double)
    requires d.Finite() && Above(d).Finite()
    ensures var e := Above(d);
      || (e.LowBit() == d.LowBit() && e.Significand() == d.Significand() + 1 && !e.PowerOfTwo())
      || (e.LowBit() == d.LowBit() + 1 && 2 * e.Significand() == d.Significand() + 1 && e.PowerOfTwo())
  {
    var m, x := d.w0 % 0x10_0000, d.w0 / 0x10_0000;
    if d.w1 == 0xFFFF_FFFF {
      if m < 0xF_FFFF {
        DivModUnique(d.w0 + 1, 0x10_0000, x, m + 1);
      } else {
        DivModUnique(d.w0 + 1, 0x10_0000, x + 1, 0);
      }
    }
  }

  lemma OneMore(d: Double, e: Double)
    requires e.LowBit() == d.LowBit() && e.Significand() == d.Significand() + 1
    ensures Exact(e) - Exact(d) == P2(d.LowBit())
  {
    hide P2;
    MoreTimes(d.Significand() as real, P2(d.LowBit()));
  }

  lemma TwiceAsFar(d: Double, e: Double)
    requires e.LowBit() == d.LowBit() + 1 && 2 * e.Significand() == d.Significand() + 1
    ensures Exact(e) - Exact(d) == P2(d.LowBit())
  {
    P2Step(d.LowBit());
    hide P2;
    TwiceTimes(d.Significand() as real, e.Significand() as real, P2(d.LowBit()), P2(e.LowBit()));
  }

  lemma MoreTimes(f: real, u: real)
    ensures (f + 1.0) * u - f * u == u
  {
  }

  lemma TwiceTimes(f: real, g: real, u: real, v: real)
    requires 2.0 * g == f + 1.0 && v == 2.0 * u
    ensures g * v - f * u == u
  {
    assert g * v == (2.0 * g) * u;
  }

  /** x is read back as d under round-half-even; with `strict`, not if it is half-way to a neighbour. */
  ghost predicate ReadsBack(d: Double, x: real, strict: bool) {
    var y := x - Exact(d);
    if !strict && d.w1 % 2 == 0 then -HalfBelow(d) <= y <= HalfAbove(d) else -HalfBelow(d) < y < HalfAbove(d)
  }

  /** The decimal 0.d1 d2 ... * 10^decpt. */
  ghost function Decimal(ds: seq<Digit>, decpt: int): real {
    (Num(ds) as real) * P10(decpt - |ds|)
  }

  /** x / n times 10^k is y. */
  ghost predicate Ratio(x: int, n: nat, k: int, y: real) {
    (x as real) * P10(k) == y * (n as real)
  }

  /** v is the double d divided by 10^k, with the halves of its neighbour distances. */
  ghost predicate Scales(v: Scaled, d: Double, k: int, strict: bool) {
    && v.s > 0
    && Ratio(v.b, v.s, k, Exact(d))
    && Ratio(v.lo, v.s, k, HalfBelow(d))
    && Ratio(v.hi, v.s, k, HalfAbove(d))
    && v.closed == (!strict && d.w1 % 2 == 0)
  }

  lemma RMulLe(x: real, y: real, c: real)
    requires c > 0.0
    ensures x <= y <==> x * c <= y * c
    ensures x < y <==> x * c < y * c
  {
  }

  /** The distance of z = M * 10^(k - p) from a value, and the same distance measured in integers. */
  lemma DistReal(v: Scaled, value: real, k: int, M: int, p: nat, z: real, n: nat)
    requires v.s > 0 && Ratio(v.b, v.s, k, value)
    requires z == (M as real) * P10(k - p) && n == v.s * Pow(10, p)
    ensures Ratio(Dist(v, M, p), n, k, z - value)
  {
    RatioTimes(v.b, v.s, Pow(10, p), k, value);
    RatioPlaces(M, v.s, p, k, z);
    RatioMinus(M * v.s, v.b * Pow(10, p), n, k, z, value);
  }

  lemma RatioTimes(x: int, n: nat, t: nat, k: int, y: real)
    requires Ratio(x, n, k, y)
    ensures Ratio(x * t, n * t, k, y)
  {
    Cast(x, t);
    Cast(n, t);
    TimesAlgebra(x as real, n as real, t as real, P10(k), y);
  }

  lemma TimesAlgebra(x: real, n: real, t: real, r: real, y: real)
    requires x * r == y * n
    ensures (x * t) * r == y * (n * t)
  {
    assert (x * t) * r == (x * r) * t;
    assert (y * n) * t == y * (n * t);
  }

  lemma RatioPlaces(M: int, s: nat, p: nat, k: int, z: real)
    requires z == (M as real) * P10(k - p)
    ensures Ratio(M * s, s * Pow(10, p), k, z)
  {
    RatioPlace(M, p, k, z);
    RatioTimes(M, Pow(10, p), s, k, z);
  }

  lemma RatioPlace(M: int, p: nat, k: int, z: real)
    requires z == (M as real) * P10(k - p)
    ensures Ratio(M, Pow(10, p), k, z)
  {
    PlaceSplit(k, p);
    PlaceAlgebra(M as real, Pow(10, p) as real, P10(k - p), P10(k), z);
  }

  lemma PlaceAlgebra(M: real, t: real, rp: real, r: real, z: real)
    requires z == M * rp && r == rp * t
    ensures M * r == z * t
  {
  }

  lemma RatioMinus(x: int, x': int, n: nat, k: int, y: real, y': real)
    requires Ratio(x, n, k, y) && Ratio(x', n, k, y')
    ensures Ratio(x - x', n, k, y - y')
  {
    var r, m := P10(k), n as real;
    assert ((x - x') as real) * r == (x as real) * r - (x' as real) * r;
    assert (y - y') * m == y * m - y' * m;
  }

  lemma PlaceSplit(k: int, p: nat)
    ensures P10(k) == P10(k - p) * (Pow(10, p) as real)
  {
    P10Add(k - p, p);
    P10Nat(p);
  }

  /** Lying in the integer interval is being read back as the double. */
  lemma InsideReal(v: Scaled, d: Double, k: int, strict: bool, M: int, p: nat, z: real)
    requires Scales(v, d, k, strict) && z == (M as real) * P10(k - p)
    ensures Inside(v, M, p) <==> ReadsBack(d, z, strict)
  {
    var y, x := z - Exact(d), Dist(v, M, p);
    var n := v.s * Pow(10, p);
    DistReal(v, Exact(d), k, M, p, z, n);
    Negate(x, n, k, y);
    SideReal(y, HalfAbove(d), v.hi, x, p, v.s, n, k);
    SideReal(-y, HalfBelow(d), v.lo, -x, p, v.s, n, k);
  }

  lemma Negate(x: int, n: nat, k: int, y: real)
    requires Ratio(x, n, k, y)
    ensures Ratio(-x, n, k, -y)
  {
    var r, m := P10(k), n as real;
    assert (-y) * m == -(y * m);
    assert ((-x) as real) * r == -((x as real) * r);
  }

  lemma SideReal(y: real, half: real, h: nat, x: int, p: nat, s: nat, n: nat, k: int)
    requires 0 < s && n == s * Pow(10, p) && Ratio(x, n, k, y) && Ratio(h, s, k, half)
    ensures x <= h * Pow(10, p) <==> y <= half
    ensures x < h * Pow(10, p) <==> y < half
  {
    PowPos(10, p);
    MulLt(0, s, Pow(10, p));
    RatioTimes(h, s, Pow(10, p), k, half);
    RatioLe(x, h * Pow(10, p), n, k, y, half);
  }

  lemma RatioLe(x: int, x': int, n: nat, k: int, y: real, y': real)
    requires 0 < n && Ratio(x, n, k, y) && Ratio(x', n, k, y')
    ensures x <= x' <==> y <= y'
    ensures x < x' <==> y < y'
  {
    P10Pos(k);
    RMulLe(x as real, x' as real, P10(k));
    RMulLe(y, y', n as real);
  }

  /** M units of 10^e are the value rounded to such units, halves to the even multiple. */
  ghost predicate RoundedTo(value: real, M: int, e: int) {
    var unit := P10(e);
    var y := (M as real) * unit - value;
    -unit <= 2.0 * y <= unit && (2.0 * y == unit || 2.0 * y == -unit ==> M % 2 == 0)
  }

  /** Rounding in the integers is rounding of the real value. */
  lemma RoundedReal(v: Scaled, value: real, k: int, M: int, p: nat)
    requires v.s > 0 && Ratio(v.b, v.s, k, value) && HalfEven(v.b, v.s, M, p)
    ensures RoundedTo(value, M, k - p)
  {
    var z, x, unit := (M as real) * P10(k - p), Dist(v, M, p), P10(k - p);
    var n := v.s * Pow(10, p);
    var y := z - value;
    PowPos(10, p);
    MulLt(0, v.s, Pow(10, p));
    DistReal(v, value, k, M, p, z, n);
    RatioPlaces(1, v.s, p, k, unit);
    RatioMinus(x, -x, n, k, y, -y) by {
      Negate(x, n, k, y);
    }
    Negate(v.s, n, k, unit);
    RatioLe(2 * x, v.s, n, k, 2.0 * y, unit);
    RatioLe(-(v.s as int), 2 * x, n, k, -unit, 2.0 * y);
  }

  /** The digits, read with their decimal point, are the number they show at p places. */
  lemma DecimalShown(ds: seq<Digit>, up: bool, p: nat, k: int, N: nat, decpt: int)
    requires |ds| <= p + 1 && N == Shown(ds, up, p) && decpt == k + 1 + if up then 1 else 0
    ensures Decimal(ds, decpt) == (N as real) * P10(k - p)
  {
    hide Num, P10;
    ShownPlaces(Num(ds), p + 1 - |ds| + if up then 1 else 0, N, k - p, decpt - |ds|);
  }

  lemma ShownPlaces(n: nat, e: nat, N: nat, q: int, q': int)
    requires N == n * Pow(10, e) && q' == q + e
    ensures (n as real) * P10(q') == (N as real) * P10(q)
  {
    hide *;
    PlaceSplit(q', e);
    ShownReal(n, Pow(10, e), N, P10(q), P10(q'));
  }

  lemma ShownReal(n: nat, t: nat, N: nat, x: real, xt: real)
    requires N == n * t && xt == x * (t as real)
    ensures (n as real) * xt == (N as real) * x
  {
    Cast(n, t);
    ShownAlgebra(n as real, x, t as real, xt);
  }

  lemma ShownAlgebra(n: real, x: real, t: real, xt: real)
    requires xt == x * t
    ensures n * xt == (n * t) * x
  {
  }
}
