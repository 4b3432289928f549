/** The two digit-generation loops of `dtoa`, on big integers. */
module Generate {
  import opened Arith
  import opened Words
  import opened Bigints
  import opened Digits

  /** What one turn of the left-right loop decides: go on, or end with the digit or with one more than it. */
  datatype Verdict = More | Low | High

  ghost predicate LowInside(r: nat, lo: nat, closed: bool) {
    r < lo || (closed && r == lo)
  }

  ghost predicate HighInside(r: nat, s: nat, hi: nat, closed: bool) {
    s - r < hi || (closed && s - r == hi)
  }

  /** The one case in which the loop rounds up although the digit itself is nearer: the upper end point of the
      interval is 10 exactly. */
  ghost predicate CarriesAnyway(r: nat, s: nat, lo: nat, hi: nat, closed: bool, dig: nat) {
    closed && dig == 9 && r <= lo && s - r == hi && 2 * r < s
  }

  /** The loop ends when one of the two candidates stands for the value, on such a candidate, and on the nearer one
      if both do. */
  ghost predicate Decided(r: nat, s: nat, lo: nat, hi: nat, closed: bool, dig: nat, verdict: Verdict) {
    match verdict
    case More => !LowInside(r, lo, closed) && !HighInside(r, s, hi, closed)
    case Low => LowInside(r, lo, closed) && (HighInside(r, s, hi, closed) && lo <= hi ==> 2 * r <= s)
    case High => (
      HighInside(r, s, hi, closed) &&
      (LowInside(r, lo, closed) && !CarriesAnyway(r, s, lo, hi, closed, dig) ==> 2 * r >= s))
  }

  ghost predicate Separate(a: Bigint, b: Bigint) {
    a != b && a.x != b.x
  }

  /** The tests of one turn of the left-right loop, after `quorem` has left the remainder in b. */
  method Decide(b: Bigint, S: Bigint, mlo: Bigint, mhi: Bigint, dig: Digit, closed: bool) returns (verdict: Verdict)
    requires b.Valid() && S.Valid() && mlo.Valid() && mhi.Valid()
    requires mlo.Val() > 0 && mhi.Val() > 0 && b.Val() < S.Val() && Separate(b, S)
    ensures Decided(b.Val(), S.Val(), mlo.Val(), mhi.Val(), closed, dig, verdict)
  {
    hide Value, Pow;
    var j, j1 := CompareEnds(b, S, mlo, mhi);
    if j1 == 0 && closed {
      return if dig == 9 || j > 0 then High else Low;
    }
    if j < 0 || (j == 0 && closed) {
      var zero := IsZero(b);
      if zero {
        return Low;
      }
      if j1 > 0 {
        var round := RoundsUp(b, S, dig);
        return if round then High else Low;
      }
      return Low;
    }
    return if j1 > 0 then High else More;
  }

  /** The two comparisons of the loop: the remainder with mlo, and with S - mhi. A remainder of zero may compare below
      an equal S - mhi. */
  method CompareEnds(b: Bigint, S: Bigint, mlo: Bigint, mhi: Bigint) returns (j: int, j1: int)
    requires b.Valid() && S.Valid() && mlo.Valid() && mhi.Valid()
    requires mlo.Val() > 0 && mhi.Val() > 0 && b.Val() < S.Val()
    ensures j < 0 <==> b.Val() < mlo.Val()
    ensures j == 0 <==> b.Val() == mlo.Val()
    ensures j1 > 0 <==> b.Val() + mhi.Val() > S.Val()
    ensures j1 == 0 ==> b.Val() + mhi.Val() == S.Val()
    ensures b.Val() + mhi.Val() == S.Val() && j1 != 0 ==> b.Val() == 0
  {
    PositiveWords(mlo);
    j := Cmp(b, mlo);
    j1 := CompareHigh(b, S, mhi);
  }

  method CompareHigh(b: Bigint, S: Bigint, mhi: Bigint) returns (j1: int)
    requires b.Valid() && S.Valid() && mhi.Valid() && mhi.Val() > 0 && b.Val() < S.Val()
    ensures j1 > 0 <==> b.Val() + mhi.Val() > S.Val()
    ensures j1 == 0 ==> b.Val() + mhi.Val() == S.Val()
    ensures b.Val() + mhi.Val() == S.Val() && j1 != 0 ==> b.Val() == 0
  {
    PositiveWords(S);
    PositiveWords(mhi);
    if S.Val() == mhi.Val() {
      SameLength(S, mhi);
    }
    var delta := Diff(S, mhi);
    if delta.sign != 0 {
      return 1;
    }
    ZeroIsShort(b);
    j1 := Cmp(b, delta);
  }

  lemma SameLength(a: Bigint, b: Bigint)
    requires a.Valid() && b.Valid() && a.Val() == b.Val() > 0
    ensures a.wds == b.wds
  {
    Longer(a, b);
    Longer(b, a);
  }

  lemma ZeroIsShort(b: Bigint)
    requires b.Valid()
    ensures b.Val() == 0 ==> b.wds <= 1
  {
    if b.wds > 1 {
      TopNotZero(b);
    }
  }

  /** `!b->x[0] && b->wds <= 1` */
  method IsZero(b: Bigint) returns (zero: bool)
    requires b.Valid()
    ensures zero <==> b.Val() == 0
  {
    zero := b.x[0] == 0 && b.wds <= 1;
    if zero {
      ValueZeros(b.x[..b.wds]);
    } else {
      TopNotZero(b);
    }
  }

  /** Whether the rest is more than half, or half after an odd digit. */
  method RoundsUp(b: Bigint, S: Bigint, dig: Digit) returns (up: bool)
    requires b.Valid() && S.Valid() && 0 < b.Val() < S.Val()
    ensures up <==> 2 * b.Val() > S.Val() || (2 * b.Val() == S.Val() && dig % 2 == 1)
  {
    PositiveWords(b);
    PositiveWords(S);
    assert Pow(2, 1) == 2;
    var b' := Lshift(b, 1);
    var j := Cmp(b', S);
    up := j > 0 || (j == 0 && dig % 2 == 1);
  }

  lemma PositiveWords(b: Bigint)
    requires b.Valid() && b.Val() > 0
    ensures b.wds > 0
  {
    assert Value([]) == 0;
  }

  /** The test for zero of the loops is right. */
  lemma TopNotZero(b: Bigint)
    requires b.Valid() && !(b.wds <= 1 && b.x[0] == 0)
    ensures b.wds > 0 && b.Val() > 0
  {
    ValueTop(b.x[..b.wds]);
    WStep(b.wds - 1);
    MulLe(1, b.x[b.wds - 1], W(b.wds - 1));
  }

  /** The digits are the shortest decimal that stands for the value, and the nearest of that length. */
  ghost predicate BestShort(v: Scaled, ds: seq<Digit>, up: bool) {
    && Clean(ds) && (up ==> |ds| == 1)
    && Shortest(v, Shown(ds, up, |ds| - 1), |ds| - 1)
    && (v.lo <= v.hi && !TenAnyway(v) ==> Nearest(v, Shown(ds, up, |ds| - 1), |ds| - 1))
  }

  /** The value is nearer to 9 than to 10, but 10 is the end point of its interval and is what comes out. */
  ghost predicate TenAnyway(v: Scaled) {
    v.closed && v.b + v.hi == 10 * v.s && 0 <= v.b - 9 * v.s <= v.lo && 2 * (v.b - 9 * v.s) < v.s
  }

  /** The state of the left-right loop before the next digit: b/s is what the digits so far leave, times a power of
      ten, and no decimal of their length stands for the value. */
  ghost predicate Going(v: Scaled, ds: seq<Digit>, b: nat, lo: nat, hi: nat) {
    && Produced(v, ds, b)
    && 0 < v.lo && 0 < v.hi
    && lo == v.lo * Pow(10, |ds|) && hi == v.hi * Pow(10, |ds|)
    && (ds != [] ==> Blank(v, |ds| - 1))
  }

  /** The digits so far are the first ones of the value; b/s, times a power of ten, is left. */
  ghost predicate Produced(v: Scaled, ds: seq<Digit>, b: nat) {
    && v.b * Pow(10, |ds|) == 10 * Num(ds) * v.s + b && 0 < b < 10 * v.s
    && (ds == [] ==> v.s <= b)
    && (ds != [] ==> ds[0] != 0)
  }

  /** After the quotient digit. */
  lemma NextDigit(v: Scaled, ds: seq<Digit>, b: nat, dig: nat, r: nat)
    requires Produced(v, ds, b) && b == dig * v.s + r && r < v.s
    ensures dig < 10 && v.b * Pow(10, |ds|) == (10 * Num(ds) + dig) * v.s + r
    ensures ds == [] ==> dig > 0
  {
    if dig >= 10 {
      MulLe(10, dig, v.s);
    }
    assert (10 * Num(ds) + dig) * v.s == 10 * Num(ds) * v.s + dig * v.s;
  }

  lemma Onward(v: Scaled, ds: seq<Digit>, b: nat, lo: nat, hi: nat, dig: Digit, r: nat)
    requires Going(v, ds, b, lo, hi) && b == dig * v.s + r && r < v.s
    requires Decided(r, v.s, lo, hi, v.closed, dig, More)
    ensures Going(v, ds + [dig], 10 * r, 10 * lo, 10 * hi) && lo <= r
    ensures v.b * Pow(10, |ds|) == Num(ds + [dig]) * v.s + r
  {
    var p, M := |ds|, 10 * Num(ds) + dig;
    NextDigit(v, ds, b, dig, r);
    NumAppend(ds, dig);
    PowStep(10, p);
    hide Pow, Num, Dist;
    Neighbours(v, M, p, r);
    NoneInside(v, M, p, r);
    TimesTen(v.b, Pow(10, p), M, v.s, r, v.lo, v.hi);
    assert (ds + [dig])[0] == if ds == [] then dig else ds[0];
  }

  lemma TimesTen(b: nat, t: nat, M: nat, s: nat, r: nat, lo: nat, hi: nat)
    requires b * t == M * s + r
    ensures b * (10 * t) == 10 * M * s + 10 * r
    ensures 10 * (lo * t) == lo * (10 * t) && 10 * (hi * t) == hi * (10 * t)
  {
    assert b * (10 * t) == 10 * (b * t);
    assert 10 * M * s == 10 * (M * s);
  }

  /** A multiple of ten in the interval would have been found one place earlier. */
  lemma LastDigitNotZero(v: Scaled, ds: seq<Digit>, N: int)
    requires ds != [] && Blank(v, |ds| - 1)
    ensures !Inside(v, 10 * N, |ds|)
  {
    Finer(v, N, |ds| - 1, 1);
    assert Pow(10, 1) == 10;
  }

  lemma EndsOn(v: Scaled, ds: seq<Digit>, b: nat, lo: nat, hi: nat, dig: Digit, r: nat, M: nat)
    requires Going(v, ds, b, lo, hi) && b == dig * v.s + r && r < v.s
    requires M == 10 * Num(ds) + dig || M == 10 * Num(ds) + dig + 1
    requires Inside(v, M, |ds|)
    ensures Shortest(v, M, |ds|)
  {
    if ds != [] {
      NoneCoarser(v, |ds| - 1);
    }
  }

  lemma EndsNear(v: Scaled, M: nat, p: nat, r: nat, up: bool)
    requires v.b * Pow(10, p) == M * v.s + r && r < v.s && 0 < v.lo && 0 < v.hi
    requires up ==> 2 * r >= v.s || !Inside(v, M, p)
    requires !up ==> 2 * r <= v.s || !Inside(v, M + 1, p)
    ensures Nearest(v, if up then M + 1 else M, p)
  {
    Neighbours(v, M, p, r);
    forall N: int | Inside(v, N, p)
      ensures Abs(Dist(v, if up then M + 1 else M, p)) <= Abs(Dist(v, N, p))
    {
      Outsiders(v, M, p, r, N);
    }
  }

  lemma EndLow(v: Scaled, ds: seq<Digit>, b: nat, lo: nat, hi: nat, dig: Digit, r: nat)
    requires Going(v, ds, b, lo, hi) && b == dig * v.s + r && r < v.s
    requires Decided(r, v.s, lo, hi, v.closed, dig, Low)
    ensures BestShort(v, ds + [dig], false)
  {
    var p, M := |ds|, 10 * Num(ds) + dig;
    NextDigit(v, ds, b, dig, r);
    NumAppend(ds, dig);
    Neighbours(v, M, p, r);
    EndsOn(v, ds, b, lo, hi, dig, r, M);
    if v.lo <= v.hi {
      MulLe(v.lo, v.hi, Pow(10, p));
      EndsNear(v, M, p, r, false);
    }
    if ds != [] && dig == 0 {
      LastDigitNotZero(v, ds, Num(ds));
    }
    assert Pow(10, 0) == 1;
  }

  lemma EndHigh(v: Scaled, ds: seq<Digit>, b: nat, lo: nat, hi: nat, dig: Digit, r: nat)
    requires Going(v, ds, b, lo, hi) && b == dig * v.s + r && r < v.s
    requires Decided(r, v.s, lo, hi, v.closed, dig, High) && dig < 9
    ensures BestShort(v, ds + [dig + 1], false)
  {
    var p, M := |ds|, 10 * Num(ds) + dig;
    NextDigit(v, ds, b, dig, r);
    NumAppend(ds, dig + 1);
    Neighbours(v, M, p, r);
    EndsOn(v, ds, b, lo, hi, dig, r, M + 1);
    if v.lo <= v.hi {
      EndsNear(v, M, p, r, true);
    }
    assert Pow(10, 0) == 1;
  }

  /** Rounding a nine up happens at the first digit only, and gives ten. */
  lemma EndNine(v: Scaled, ds: seq<Digit>, b: nat, lo: nat, hi: nat, r: nat, rs: seq<Digit>, up: bool)
    requires Going(v, ds, b, lo, hi) && b == 9 * v.s + r && r < v.s
    requires Decided(r, v.s, lo, hi, v.closed, 9, High)
    requires Clean(rs) && |rs| <= |ds| + 1 && Shown(rs, up, |ds|) == Num(ds + [9]) + 1
    ensures ds == [] && BestShort(v, rs, up)
  {
    var p, M := |ds|, 10 * Num(ds) + 9;
    NextDigit(v, ds, b, 9, r);
    NumAppend(ds, 9);
    Neighbours(v, M, p, r);
    if ds != [] {
      LastDigitNotZero(v, ds, Num(ds) + 1);
    }
    EndsOn(v, ds, b, lo, hi, 9, r, M + 1);
    assert Pow(10, 0) == 1 && Num([]) == 0;
    if v.lo <= v.hi && !TenAnyway(v) {
      EndsNear(v, M, p, r, true);
    }
  }

  /** A divisor as `dshift` arranges it: the top word has exactly four leading zero bits. */
  ghost predicate Divisor(S: Bigint)
    reads S, S.x
  {
    S.Valid() && S.wds > 0 && 0x800_0000 <= S.x[S.wds - 1] < 0x1000_0000
  }

  /** Then ten times a remainder has no more words than the divisor. */
  lemma FitsTen(b: Bigint, S: Bigint)
    requires b.Valid() && Divisor(S) && b.Val() < 10 * S.Val()
    ensures b.wds <= S.wds && S.Val() > 0
  {
    var n := S.wds - 1;
    ValueTop(S.x[..S.wds]);
    WStep(n);
    MulLe(1, S.x[n], W(n));
    FitsAlgebra(S.Val(), S.x[n], W(n));
    if b.wds > S.wds {
      ValueTop(b.x[..b.wds]);
      PowMono(BASE, n + 1, b.wds - 1);
      MulLe(1, b.x[b.wds - 1], W(b.wds - 1));
    }
  }

  lemma FitsAlgebra(s: nat, top: nat, w: nat)
    requires s < top * w + w && top < 0x1000_0000
    ensures 10 * s < 0x1_0000_0000 * w
  {
    assert top * w + w == (top + 1) * w;
    MulLe(top + 1, 0x1000_0000, w);
  }

  /** `quorem` on a divisor prepared by `dshift` and a dividend below ten times it: exact division. */
  method DivideDigit(b: Bigint, S: Bigint) returns (dig: Digit)
    requires b.Valid() && Divisor(S) && Separate(b, S) && b.Val() < 10 * S.Val()
    modifies b`wds, b.x
    ensures b.Valid() && b.Val() < S.Val()
    ensures old(b.Val()) == dig * S.Val() + b.Val()
  {
    FitsTen(b, S);
    ghost var s := S.Val();
    var q := Quorem(b, S);
    if q >= 10 {
      MulLe(10, q, s);
      assert false;
    }
    dig := q;
  }

  /** `Round off last digit`: digits of which r = b/s of a unit is left. */
  method RoundLast(b: Bigint, S: Bigint, ds: seq<Digit>, ghost v: Scaled) returns (r: seq<Digit>, up: bool)
    requires b.Valid() && S.Valid() && 0 < b.Val() < S.Val() == v.s
    requires |ds| > 0 && ds[0] != 0 && v.b * Pow(10, |ds| - 1) == Num(ds) * v.s + b.Val()
    ensures Clean(r) && |r| <= |ds| && HalfEven(v.b, v.s, Shown(r, up, |ds| - 1), |ds| - 1)
  {
    var last := ds[|ds| - 1];
    NumAppend(ds[..|ds| - 1], last);
    assert ds == ds[..|ds| - 1] + [last];
    Parity(Num(ds[..|ds| - 1]), last);
    var round := RoundsUp(b, S, last);
    Rounds(v, Num(ds), |ds| - 1, b.Val(), round);
    r, up := RoundDigits(ds, round);
  }

  lemma Parity(x: nat, d: nat)
    ensures (10 * x + d) % 2 == d % 2
  {
    assert 10 * x + d == 2 * (5 * x) + d;
  }

  method RoundDigits(ds: seq<Digit>, round: bool) returns (r: seq<Digit>, up: bool)
    requires |ds| > 0 && ds[0] != 0
    ensures Clean(r) && |r| <= |ds|
    ensures Shown(r, up, |ds| - 1) == if round then Num(ds) + 1 else Num(ds)
  {
    if round {
      r, up := Roundoff(ds);
    } else {
      r := Trim(ds);
      up := false;
    }
  }

  lemma Rounds(v: Scaled, M: nat, p: nat, r: nat, round: bool)
    requires v.b * Pow(10, p) == M * v.s + r && r < v.s
    requires round <==> 2 * r > v.s || (2 * r == v.s && M % 2 == 1)
    ensures HalfEven(v.b, v.s, if round then M + 1 else M, p)
  {
    assert (M + 1) * v.s == M * v.s + v.s;
  }

  /** What the left-right loop returns: digits that are shortest, or, when it stops at `ilim` digits in modes 4 and
      5, digits rounded to that many places. */
  ghost predicate LeftRightResult(v: Scaled, ilim: int, ds: seq<Digit>, up: bool) {
    || (BestShort(v, ds, up) && (ilim > 0 ==> |ds| <= ilim))
    || (0 < ilim && Clean(ds) && |ds| <= ilim && HalfEven(v.b, v.s, Shown(ds, up, ilim - 1), ilim - 1)
        && Blank(v, ilim - 1))
  }

  /** The left-right loop of `dtoa` (modes 0, 1, 4, 5). */
  method LeftRight(b0: Bigint, S: Bigint, mlo0: Bigint, mhi0: Bigint, closed: bool, ilim: int, ghost v: Scaled)
      returns (ds: seq<Digit>, up: bool)
    requires b0.Valid() && Divisor(S) && mlo0.Valid() && mhi0.Valid()
    requires Operands(b0, S, mlo0, mhi0)
    requires v == Scaled(b0.Val(), S.Val(), mlo0.Val(), mhi0.Val(), closed)
    requires v.s <= v.b < 10 * v.s && 0 < v.lo && 0 < v.hi
    modifies b0`wds, b0.x, mlo0`wds, mlo0.x, mhi0`wds, mhi0.x
    ensures LeftRightResult(v, ilim, ds, up)
  {
    var b, mlo, mhi := b0, mlo0, mhi0;
    ds, up := [], false;
    assert Pow(10, 0) == 1 && Num([]) == 0;
    var done := false;
    while !done
      invariant b == b0 || (fresh(b) && fresh(b.x))
      invariant mlo == mlo0 || (fresh(mlo) && fresh(mlo.x))
      invariant mhi == mhi0 || (fresh(mhi) && fresh(mhi.x))
      invariant done ==> LeftRightResult(v, ilim, ds, up)
      invariant !done ==> !up && InLoop(v, ds, b, S, mlo, mhi, ilim)
      invariant mlo.wds <= mlo.x.Length
      decreases !done, v.s - mlo.Val()
    {
      done, ds, up, b, mlo, mhi := Step(b, S, mlo, mhi, ds, closed, ilim, v);
    }
  }

  ghost predicate InLoop(v: Scaled, ds: seq<Digit>, b: Bigint, S: Bigint, mlo: Bigint, mhi: Bigint, ilim: int)
    reads b, b.x, S, S.x, mlo, mlo.x, mhi, mhi.x
  {
    && b.Valid() && mlo.Valid() && mhi.Valid() && Operands(b, S, mlo, mhi)
    && Divisor(S) && S.Val() == v.s && (ilim > 0 ==> |ds| < ilim)
    && Going(v, ds, b.Val(), mlo.Val(), mhi.Val())
  }

  /** The body of the left-right loop. */
  method Step(b: Bigint, S: Bigint, mlo: Bigint, mhi: Bigint, ds: seq<Digit>, closed: bool, ilim: int, ghost v: Scaled)
      returns (done: bool, r: seq<Digit>, up: bool, b': Bigint, mlo': Bigint, mhi': Bigint)
    requires InLoop(v, ds, b, S, mlo, mhi, ilim) && closed == v.closed
    modifies b`wds, b.x, mlo`wds, mlo.x, mhi`wds, mhi.x
    ensures b' == b || (fresh(b') && fresh(b'.x))
    ensures mlo' == mlo || (fresh(mlo') && fresh(mlo'.x))
    ensures mhi' == mhi || (fresh(mhi') && fresh(mhi'.x))
    ensures done ==> LeftRightResult(v, ilim, r, up)
    ensures !done ==> !up && InLoop(v, r, b', S, mlo', mhi', ilim)
    ensures !done ==> old(mlo.Val()) < v.s && old(mlo.Val()) < mlo'.Val()
    ensures mlo'.wds <= mlo'.x.Length
  {
    hide Value, Pow, Num;
    b', mlo', mhi' := b, mlo, mhi;
    done, r, up := TurnOrStop(b, S, mlo, mhi, ds, closed, ilim, v);
    if !done {
      b', mlo', mhi' := NextPlace(b, S, mlo, mhi);
    }
  }

  /** One turn of the left-right loop, up to the multiplications by ten. */
  method TurnOrStop(b: Bigint, S: Bigint, mlo: Bigint, mhi: Bigint, ds: seq<Digit>, closed: bool, ilim: int,
                    ghost v: Scaled) returns (done: bool, r: seq<Digit>, up: bool)
    requires b.Valid() && mlo.Valid() && mhi.Valid() && Operands(b, S, mlo, mhi)
    requires Divisor(S) && S.Val() == v.s && closed == v.closed && (ilim > 0 ==> |ds| < ilim)
    requires Going(v, ds, b.Val(), mlo.Val(), mhi.Val())
    modifies b`wds, b.x
    ensures b.Valid()
    ensures done ==> LeftRightResult(v, ilim, r, up)
    ensures !done ==> !up && 0 < mlo.Val() <= b.Val() < v.s && 0 < mhi.Val() && (ilim > 0 ==> |r| < ilim)
    ensures !done ==> Going(v, r, 10 * b.Val(), 10 * mlo.Val(), 10 * mhi.Val())
  {
    hide Value, Pow, Num;
    done, r, up := Turn(b, S, mlo, mhi, ds, closed, v);
    if !done && |r| == ilim {
      GoingPositive(v, ds, old(b.Val()), mlo.Val(), mhi.Val());
      r, up := RoundLast(b, S, r, v);
      done := true;
    }
  }

  /** The tests of a turn. */
  method Turn(b: Bigint, S: Bigint, mlo: Bigint, mhi: Bigint, ds: seq<Digit>, closed: bool, ghost v: Scaled)
      returns (done: bool, r: seq<Digit>, up: bool)
    requires b.Valid() && mlo.Valid() && mhi.Valid() && Operands(b, S, mlo, mhi)
    requires Divisor(S) && S.Val() == v.s && closed == v.closed
    requires Going(v, ds, b.Val(), mlo.Val(), mhi.Val())
    modifies b`wds, b.x
    ensures b.Valid() && |r| <= |ds| + 1
    ensures done ==> BestShort(v, r, up)
    ensures !done ==> |r| == |ds| + 1 && !up && 0 < mlo.Val() <= b.Val() < v.s && 0 < mhi.Val()
    ensures !done ==> Going(v, r, 10 * b.Val(), 10 * mlo.Val(), 10 * mhi.Val())
    ensures !done ==> v.b * Pow(10, |ds|) == Num(r) * v.s + b.Val()
  {
    ghost var b0, lo, hi := b.Val(), mlo.Val(), mhi.Val();
    GoingPositive(v, ds, b0, lo, hi);
    hide Value, Pow, Num;
    var dig := DivideDigit(b, S);
    ghost var rest := b.Val();
    var verdict := Decide(b, S, mlo, mhi, dig, closed);
    done, r, up := Conclude(ds, dig, verdict, v, b0, lo, hi, rest);
  }

  /** The digit string after the decision of a turn. */
  method Conclude(ds: seq<Digit>, dig: Digit, verdict: Verdict, ghost v: Scaled, ghost b0: nat, ghost lo: nat,
                  ghost hi: nat, ghost rest: nat) returns (done: bool, r: seq<Digit>, up: bool)
    requires Going(v, ds, b0, lo, hi) && b0 == dig * v.s + rest && rest < v.s
    requires Decided(rest, v.s, lo, hi, v.closed, dig, verdict)
    ensures done <==> verdict != More
    ensures |r| <= |ds| + 1
    ensures done ==> BestShort(v, r, up)
    ensures !done ==> |r| == |ds| + 1 && !up && lo <= rest && Going(v, r, 10 * rest, 10 * lo, 10 * hi)
    ensures !done ==> v.b * Pow(10, |ds|) == Num(r) * v.s + rest
  {
    hide *;
    if verdict == Low {
      EndLow(v, ds, b0, lo, hi, dig, rest);
      return true, ds + [dig], false;
    }
    if verdict == High {
      r, up := ConcludeHigh(ds, dig, v, b0, lo, hi, rest);
      return true, r, up;
    }
    Onward(v, ds, b0, lo, hi, dig, rest);
    return false, ds + [dig], false;
  }

  method ConcludeHigh(ds: seq<Digit>, dig: Digit, ghost v: Scaled, ghost b0: nat, ghost lo: nat, ghost hi: nat,
                      ghost rest: nat) returns (r: seq<Digit>, up: bool)
    requires Going(v, ds, b0, lo, hi) && b0 == dig * v.s + rest && rest < v.s
    requires Decided(rest, v.s, lo, hi, v.closed, dig, High)
    ensures |r| <= |ds| + 1 && BestShort(v, r, up)
  {
    FirstDigit(v, ds, b0, lo, hi);
    hide *;
    if dig == 9 {
      r, up := Roundoff(ds + [9]);
      EndNine(v, ds, b0, lo, hi, rest, r, up);
    } else {
      EndHigh(v, ds, b0, lo, hi, dig, rest);
      r, up := ds + [dig + 1], false;
    }
  }

  lemma FirstDigit(v: Scaled, ds: seq<Digit>, b: nat, lo: nat, hi: nat)
    requires Going(v, ds, b, lo, hi)
    ensures ds != [] ==> ds[0] != 0
  {
  }

  lemma GoingPositive(v: Scaled, ds: seq<Digit>, b: nat, lo: nat, hi: nat)
    requires Going(v, ds, b, lo, hi)
    ensures 0 < lo && 0 < hi
  {
    PowPos(10, |ds|);
    MulLe(1, v.lo, Pow(10, |ds|));
    MulLe(1, v.hi, Pow(10, |ds|));
  }

  ghost predicate Operands(b: Bigint, S: Bigint, mlo: Bigint, mhi: Bigint) {
    && Separate(b, S) && Separate(b, mlo) && Separate(b, mhi) && Separate(S, mlo) && Separate(S, mhi)
    && (mlo == mhi || Separate(mlo, mhi))
  }

  /** The multiplications by ten at the end of a turn; mlo and mhi may be the same object. */
  method NextPlace(b: Bigint, S: Bigint, mlo: Bigint, mhi: Bigint) returns (b': Bigint, mlo': Bigint, mhi': Bigint)
    requires b.Valid() && mlo.Valid() && mhi.Valid() && Operands(b, S, mlo, mhi)
    requires b.Val() > 0 && mlo.Val() > 0 && mhi.Val() > 0
    modifies b`wds, b.x, mlo`wds, mlo.x, mhi`wds, mhi.x
    ensures b'.Valid() && mlo'.Valid() && mhi'.Valid() && Operands(b', S, mlo', mhi')
    ensures b' == b || (fresh(b') && fresh(b'.x))
    ensures mlo' == mlo || (fresh(mlo') && fresh(mlo'.x))
    ensures mhi' == mhi || (fresh(mhi') && fresh(mhi'.x))
    ensures b'.Val() == 10 * old(b.Val())
    ensures mlo'.Val() == 10 * old(mlo.Val()) && mhi'.Val() == 10 * old(mhi.Val())
  {
    PositiveWords(b);
    b' := Multadd(b, 10, 0);
    mlo', mhi' := NextMargins(mlo, mhi);
  }

  method NextMargins(mlo: Bigint, mhi: Bigint) returns (mlo': Bigint, mhi': Bigint)
    requires mlo.Valid() && mhi.Valid() && (mlo == mhi || Separate(mlo, mhi))
    requires mlo.Val() > 0 && mhi.Val() > 0
    modifies mlo`wds, mlo.x, mhi`wds, mhi.x
    ensures mlo'.Valid() && mhi'.Valid() && (mlo' == mhi' || Separate(mlo', mhi'))
    ensures mlo' == mlo || (fresh(mlo') && fresh(mlo'.x))
    ensures mhi' == mhi || (fresh(mhi') && fresh(mhi'.x))
    ensures mlo'.Val() == 10 * old(mlo.Val()) && mhi'.Val() == 10 * old(mhi.Val())
  {
    PositiveWords(mlo);
    PositiveWords(mhi);
    if mlo == mhi {
      mhi' := Multadd(mhi, 10, 0);
      mlo' := mhi';
    } else {
      mlo' := Multadd(mlo, 10, 0);
      mhi' := Multadd(mhi, 10, 0);
    }
  }

  /** The fixed-count loop of `dtoa` (modes 2 and 3) with the rounding after it. */
  method FixedCount(b0: Bigint, S: Bigint, ilim: int, ghost v: Scaled) returns (ds: seq<Digit>, up: bool)
    requires b0.Valid() && Divisor(S) && Separate(b0, S) && ilim > 0
    requires v.b == b0.Val() && v.s == S.Val() && v.s <= v.b < 10 * v.s
    modifies b0`wds, b0.x
    ensures Clean(ds) && |ds| <= ilim && HalfEven(v.b, v.s, Shown(ds, up, ilim - 1), ilim - 1)
  {
    var b := b0;
    ds, up := [], false;
    assert Pow(10, 0) == 1 && Num([]) == 0;
    var done := false;
    while !done
      invariant b == b0 || (fresh(b) && fresh(b.x))
      invariant done ==> FixedResult(v, ilim, ds, up)
      invariant !done ==> !up && InFixedLoop(v, ds, b, S, ilim)
      decreases !done, ilim - |ds|
    {
      done, ds, up, b := FixedStep(b, S, ds, ilim, v);
    }
  }

  ghost predicate FixedResult(v: Scaled, ilim: int, ds: seq<Digit>, up: bool) {
    0 < |ds| <= ilim && Clean(ds) && HalfEven(v.b, v.s, Shown(ds, up, ilim - 1), ilim - 1)
  }

  ghost predicate InFixedLoop(v: Scaled, ds: seq<Digit>, b: Bigint, S: Bigint, ilim: int)
    reads b, b.x, S, S.x
  {
    b.Valid() && Divisor(S) && Separate(b, S) && S.Val() == v.s && |ds| < ilim && Produced(v, ds, b.Val())
  }

  /** The body of the fixed-count loop. */
  method FixedStep(b: Bigint, S: Bigint, ds: seq<Digit>, ilim: int, ghost v: Scaled)
      returns (done: bool, r: seq<Digit>, up: bool, b': Bigint)
    requires InFixedLoop(v, ds, b, S, ilim)
    modifies b`wds, b.x
    ensures b' == b || (fresh(b') && fresh(b'.x))
    ensures done ==> FixedResult(v, ilim, r, up)
    ensures !done ==> !up && InFixedLoop(v, r, b', S, ilim) && |r| == |ds| + 1
  {
    ghost var v0 := b.Val();
    var dig := DivideDigit(b, S);
    NextDigit(v, ds, v0, dig, b.Val());
    NumAppend(ds, dig);
    r, up, b' := ds + [dig], false, b;
    assert r[0] == if ds == [] then dig else ds[0];
    var zero := IsZero(b);
    if zero {
      ExactEnd(v, ds, v0, dig, ilim);
      return true, r, false, b;
    }
    if |r| >= ilim {
      r, up := RoundLast(b, S, r, v);
      return true, r, up, b;
    }
    PositiveWords(b);
    TimesTen(v.b, Pow(10, |ds|), Num(r), v.s, b.Val(), 0, 0);
    b' := Multadd(b, 10, 0);
    done := false;
  }

  /** When nothing is left the digits are exact, and the last one is not zero. */
  lemma ExactEnd(v: Scaled, ds: seq<Digit>, b: nat, dig: Digit, ilim: int)
    requires Produced(v, ds, b) && b == dig * v.s && |ds| < ilim
    ensures dig != 0 && HalfEven(v.b, v.s, Shown(ds + [dig], false, ilim - 1), ilim - 1)
  {
    NextDigit(v, ds, b, dig, 0);
    NumAppend(ds, dig);
    Finer(v, Num(ds + [dig]), |ds|, ilim - 1 - |ds|);
  }
}
