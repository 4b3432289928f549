/** Digit generation in integers: a value b/s and the decimals that stand for it. */
module Digits {
  import opened Arith

  /** The value b/s and the interval (b - lo)/s to (b + hi)/s around it, with its end points or without. */
  datatype Scaled = Scaled(b: nat, s: nat, lo: nat, hi: nat, closed: bool)

  /** How far M / 10^p lies above the value, in units of 1 / (s * 10^p). */
  ghost function Dist(v: Scaled, M: int, p: nat): int {
    M * v.s - v.b * Pow(10, p)
  }

  /** M / 10^p lies in the interval. */
  ghost predicate Inside(v: Scaled, M: int, p: nat) {
    var x, t := Dist(v, M, p), Pow(10, p);
    if v.closed then -(v.lo * t) <= x <= v.hi * t else -(v.lo * t) < x < v.hi * t
  }

  /** No decimal with p places lies in the interval. */
  ghost predicate Blank(v: Scaled, p: nat) {
    forall N: int :: !Inside(v, N, p)
  }

  /** M / 10^p lies in the interval, and nothing with fewer decimal places does. */
  ghost predicate Shortest(v: Scaled, M: int, p: nat) {
    Inside(v, M, p) && forall q: nat :: q < p ==> Blank(v, q)
  }

  /** Of all decimals with p places in the interval, M / 10^p is as near as any. */
  ghost predicate Nearest(v: Scaled, M: int, p: nat) {
    forall N: int :: Inside(v, N, p) ==> Abs(Dist(v, M, p)) <= Abs(Dist(v, N, p))
  }

  /** M / 10^p is the value rounded to p places, halves to the even neighbour. */
  ghost predicate HalfEven(b: nat, s: nat, M: int, p: nat) {
    var x := M * s - b * Pow(10, p);
    -(s as int) <= 2 * x <= s && (2 * x == s || 2 * x == -(s as int) ==> M % 2 == 0)
  }

  /** What the two neighbours of the value at p places say about the interval. */
  lemma Neighbours(v: Scaled, M: int, p: nat, r: nat)
    requires v.b * Pow(10, p) == M * v.s + r && r < v.s && 0 < v.lo && 0 < v.hi
    ensures 0 < v.lo * Pow(10, p) && 0 < v.hi * Pow(10, p)
    ensures Dist(v, M, p) == -(r as int) && Dist(v, M + 1, p) == v.s - r
    ensures Inside(v, M, p) <==> r < v.lo * Pow(10, p) || (v.closed && r == v.lo * Pow(10, p))
    ensures Inside(v, M + 1, p) <==> v.s - r < v.hi * Pow(10, p) || (v.closed && v.s - r == v.hi * Pow(10, p))
  {
    PowPos(10, p);
    MulLe(1, v.lo, Pow(10, p));
    MulLe(1, v.hi, Pow(10, p));
    assert (M + 1) * v.s == M * v.s + v.s;
  }

  /** No decimal with p places is nearer than the two neighbours of the value. */
  lemma Outsiders(v: Scaled, M: int, p: nat, r: nat, N: int)
    requires v.b * Pow(10, p) == M * v.s + r && r < v.s
    ensures N <= M ==> Dist(v, N, p) <= Dist(v, M, p) <= 0
    ensures N > M ==> Dist(v, N, p) >= Dist(v, M + 1, p) > 0
  {
    if N <= M {
      MulLe(N, M, v.s);
    } else {
      MulLe(M + 1, N, v.s);
      assert (M + 1) * v.s == M * v.s + v.s;
    }
  }

  /** When neither neighbour is inside, nothing with p places is. */
  lemma NoneInside(v: Scaled, M: int, p: nat, r: nat)
    requires v.b * Pow(10, p) == M * v.s + r && r < v.s && 0 < v.lo && 0 < v.hi
    requires !Inside(v, M, p) && !Inside(v, M + 1, p)
    ensures Blank(v, p)
  {
    Neighbours(v, M, p, r);
    forall N: int
      ensures !Inside(v, N, p)
    {
      Outsiders(v, M, p, r, N);
    }
  }

  lemma ScaleBounds(x: int, lo: nat, hi: nat, t: nat, d: nat)
    requires 0 < d
    ensures -(lo * t) <= x <= hi * t <==> -(lo * (t * d)) <= x * d <= hi * (t * d)
    ensures -(lo * t) < x < hi * t <==> -(lo * (t * d)) < x * d < hi * (t * d)
  {
    MulAssoc(lo, t, d);
    MulAssoc(hi, t, d);
    CompareScaled(x, hi * t, d);
    CompareScaled(-x, lo * t, d);
    assert (-x) * d == -(x * d);
  }

  lemma CompareScaled(x: int, y: int, d: nat)
    requires 0 < d
    ensures x <= y <==> x * d <= y * d
    ensures x < y <==> x * d < y * d
  {
    if x < y {
      MulLt(x, y, d);
    } else {
      MulLe(y, x, d);
      if y < x {
        MulLt(y, x, d);
      }
    }
  }

  /** Writing zeros at the end changes nothing. */
  lemma Finer(v: Scaled, N: int, q: nat, d: nat)
    ensures Dist(v, N * Pow(10, d), q + d) == Dist(v, N, q) * Pow(10, d)
    ensures Inside(v, N * Pow(10, d), q + d) <==> Inside(v, N, q)
  {
    PowAdd(10, q, d);
    PowPos(10, d);
    FinerAlgebra(N, v.s, v.b, Pow(10, q), Pow(10, d));
    ScaleBounds(Dist(v, N, q), v.lo, v.hi, Pow(10, q), Pow(10, d));
  }

  lemma FinerAlgebra(N: int, s: int, b: int, t: int, d: int)
    ensures (N * d) * s - b * (t * d) == (N * s - b * t) * d
  {
    MulAssoc(N, d, s);
    MulAssoc(N, s, d);
    MulAssoc(b, t, d);
    assert (N * s - b * t) * d == (N * s) * d - (b * t) * d;
  }

  /** When nothing with p places is inside, nothing with fewer places is. */
  lemma NoneCoarser(v: Scaled, p: nat)
    requires Blank(v, p)
    ensures forall q: nat :: q <= p ==> Blank(v, q)
  {
    forall q: nat, N: int | q <= p
      ensures !Inside(v, N, q)
    {
      Finer(v, N, q, p - q);
      assert !Inside(v, N * Pow(10, p - q), q + (p - q));
    }
  }

  /** N * 10^e lies in the interval, for an exponent of either sign. */
  ghost predicate InsideDecimal(v: Scaled, N: nat, e: int) {
    if e >= 0 then Inside(v, N * Pow(10, e), 0) else Inside(v, N, -e)
  }

  /** A shortest decimal of a value in [1, 10) has as few digits as any decimal in the interval, wherever that
      decimal has its point. */
  lemma NoFewerDigits(v: Scaled, M: int, p: nat, N: nat, n: nat, e: int)
    requires 0 < v.s <= v.b && 0 < v.hi && Shortest(v, M, p)
    requires 0 < N < Pow(10, n) && InsideDecimal(v, N, e)
    ensures p + 1 <= n
  {
    var q := FoundAt(v, N, n, e);
    assert !Blank(v, q);
  }

  /** A decimal of n digits in the interval means one with fewer than n places is there. */
  lemma FoundAt(v: Scaled, N: nat, n: nat, e: int) returns (q: nat)
    requires 0 < v.s <= v.b && 0 < v.hi
    requires 0 < N < Pow(10, n) && InsideDecimal(v, N, e)
    ensures q < n && !Blank(v, q)
  {
    assert n > 0 by {
      assert Pow(10, 0) == 1;
    }
    q := 0;
    if e < 0 {
      if -e >= n {
        BelowOne(v, N, n, -e);
      } else {
        q := -e;
      }
    }
  }

  /** A decimal below one in the interval of a value from one up: then one itself is in the interval. */
  lemma BelowOne(v: Scaled, N: nat, n: nat, q: nat)
    requires 0 < v.s <= v.b && 0 < v.hi && N < Pow(10, n) && n <= q && Inside(v, N, q)
    ensures Inside(v, 1, 0)
  {
    PowMono(10, n, q);
    Finer(v, 1, 0, q);
    MulLe(N, Pow(10, q), v.s);
    PowPos(10, q);
    MulLe(v.s, v.b, Pow(10, q));
    MulLe(1, v.hi, Pow(10, q));
    CompareScaled(v.s, v.b, Pow(10, q));
    assert Pow(10, 0) == 1;
    if !v.closed {
      MulLt(N, Pow(10, q), v.s);
    }
  }

  // Digit strings, most significant digit first

  type Digit = d: int | 0 <= d < 10

  ghost function Num(ds: seq<Digit>): nat {
    if ds == [] then 0 else 10 * Num(ds[..|ds| - 1]) + ds[|ds| - 1]
  }

  /** The number the digits show with p places after the first digit; `up` moves the point one place right. */
  ghost function Shown(ds: seq<Digit>, up: bool, p: nat): nat
    requires |ds| <= p + 1
  {
    Num(ds) * Pow(10, p + 1 - |ds| + if up then 1 else 0)
  }

  /** A digit string as `dtoa` returns it: some digits, the first and the last not zero. */
  ghost predicate Clean(ds: seq<Digit>) {
    |ds| > 0 && ds[0] != 0 && ds[|ds| - 1] != 0
  }

  lemma NumAppend(ds: seq<Digit>, d: Digit)
    ensures Num(ds + [d]) == 10 * Num(ds) + d
  {
    assert (ds + [d])[..|ds|] == ds;
  }

  lemma {:induction false} NumBounds(ds: seq<Digit>)
    ensures Num(ds) < Pow(10, |ds|)
    ensures |ds| > 0 && ds[0] != 0 ==> Num(ds) >= Pow(10, |ds| - 1)
  {
    if |ds| > 1 {
      var n := |ds| - 1;
      NumBounds(ds[..n]);
      assert ds[..n][0] == ds[0];
      assert Pow(10, n) == 10 * Pow(10, n - 1);
    } else if |ds| == 1 {
      assert Pow(10, 0) == 1 && Num(ds[..0]) == 0;
    }
  }

  /** A string with a zero or nothing in its last places. */
  lemma NumZero(ds: seq<Digit>, n: nat)
    requires 0 < n <= |ds| && ds[n - 1] == 0
    ensures Num(ds[..n]) == 10 * Num(ds[..n - 1])
  {
    assert ds[..n][..n - 1] == ds[..n - 1];
  }

  /** `roundoff`: adds one in the last place, dropping the nines it turns into zeros. */
  method Roundoff(ds: seq<Digit>) returns (r: seq<Digit>, up: bool)
    requires |ds| > 0 && ds[0] != 0
    ensures Clean(r) && |r| <= |ds|
    ensures Shown(r, up, |ds| - 1) == Num(ds) + 1
    ensures ds[|ds| - 1] != 9 ==> !up && |r| == |ds|
  {
    var n := |ds|;
    assert ds[..n] == ds && Pow(10, 0) == 1;
    while true
      invariant 0 < n <= |ds|
      invariant Num(ds) + 1 == (Num(ds[..n]) + 1) * Pow(10, |ds| - n)
      invariant n < |ds| ==> ds[|ds| - 1] == 9
      decreases n
    {
      n := n - 1;
      assert ds[..n + 1][..n] == ds[..n];
      MulAssoc(Num(ds[..n]) + 1, 10, Pow(10, |ds| - n - 1));
      if ds[n] != 9 {
        break;
      }
      if n == 0 {
        NumAppend([], 1);
        return [1], true;
      }
    }
    NumAppend(ds[..n], ds[n] + 1);
    return ds[..n] + [ds[n] + 1], false;
  }

  /** Drops the zeros at the end; the first digit stops it. */
  method Trim(ds: seq<Digit>) returns (r: seq<Digit>)
    requires |ds| > 0 && ds[0] != 0
    ensures Clean(r) && |r| <= |ds|
    ensures Shown(r, false, |ds| - 1) == Num(ds)
    ensures ds[|ds| - 1] != 0 ==> r == ds
  {
    var n := |ds| - 1;
    assert ds[..n + 1] == ds && Pow(10, 0) == 1;
    while ds[n] == 0
      invariant 0 <= n < |ds|
      invariant Num(ds) == Num(ds[..n + 1]) * Pow(10, |ds| - 1 - n)
      invariant n < |ds| - 1 ==> ds[|ds| - 1] == 0
      decreases n
    {
      assert n > 0;
      NumZero(ds, n + 1);
      MulAssoc(Num(ds[..n]), 10, Pow(10, |ds| - 1 - n));
      n := n - 1;
    }
    r := ds[..n + 1];
  }
}
