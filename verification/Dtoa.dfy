/** The big-integer part of `dtoa`: scaling, choosing the loop, and the result by mode. */
module Dtoa {
  import opened Arith
  import opened Words
  import opened Bigints
  import opened Pow5s
  import opened Digits
  import opened Doubles
  import opened Generate
  import opened Decimals
  import opened ShortestDecimals

  /** The exponents of two and five in b, S and the margins mlo and mhi. */
  datatype Scale = Scale(b2: int, b5: int, s2: int, s5: int, m2: int, m5: int) {
    /** b / S is the double's odd part times 2^be / 10^k, and a margin is 2^half / 10^k. */
    predicate Fits(be: int, k: int, leftright: bool, half: int) {
      && 0 <= b2 && 0 <= b5 && 0 <= s2 && 0 <= s5 && 0 <= m2 && 0 <= m5
      && b5 + k == s5 && b2 + k == be + s2
      && (leftright ==> m5 + k == s5 && m2 + k == half + s2)
    }
  }

  /** The assignments to b2, b5, s2, s5, m2 and m5 before `dshift`, common factors of two removed. */
  method SetScale(d: Double, be: int, bbits: int, k: int, leftright: bool) returns (sc: Scale)
    requires d.LowBit() <= be && (d.Exponent() > 0 ==> be + bbits == d.Exponent() - 1022)
    ensures sc.Fits(be, k, leftright, HalfExponent(d, be, bbits) - if leftright && d.PowerOfTwo() then 1 else 0)
  {
    var i: int := if d.Exponent() != 0 then d.Exponent() - 1023 else bbits + be - 1;
    var j := bbits - i - 1;
    var b2, s2, b5, s5 := 0, j, 0, k;
    if j < 0 {
      b2, s2 := -j, 0;
    }
    if k >= 0 {
      s2 := s2 + k;
    } else {
      b2, b5, s5 := b2 - k, -k, 0;
    }
    var m2, m5 := b2, b5;
    if leftright {
      i := if d.Denormal() then be + 1075 else 1 + 53 - bbits;
      b2, s2 := b2 + i, s2 + i;
    }
    if m2 > 0 && s2 > 0 {
      i := Min(m2, s2);
      b2, m2, s2 := b2 - i, m2 - i, s2 - i;
    }
    if leftright && d.PowerOfTwo() {
      b2, s2 := b2 + 1, s2 + 1;
    }
    sc := Scale(b2, b5, s2, s5, m2, m5);
  }

  /** The exponent of two of half the distance to the next double. */
  function HalfExponent(d: Double, be: int, bbits: int): int {
    be - if d.Denormal() then be + 1075 else 54 - bbits
  }

  /** `dshift`: how far to shift S beyond p2 so that its top word has exactly four leading zero bits. */
  method Dshift(S: Bigint, p2: nat) returns (rv: nat, ghost bits: nat)
    requires S.Valid() && S.Val() > 0
    ensures rv < 32 && 0 < bits && Pow(2, bits - 1) <= S.Val() < Pow(2, bits)
    ensures (bits + p2 + rv) % 32 == 28
  {
    PositiveWords(S);
    TopWord(S.x[..S.wds]);
    var h := Hi0bits(S.x[S.wds - 1]);
    TopBits(S.x[..S.wds], h);
    bits := 32 * S.wds - h;
    var r := (h as int) - 4;
    if p2 > 0 {
      r := r - p2;
    }
    rv := r % 32;
    Residue(S.wds, h, p2, rv);
  }

  lemma Residue(w: nat, h: nat, p2: nat, rv: nat)
    requires rv == (h - 4 - p2) % 32
    ensures (32 * w - h + p2 + rv) % 32 == 28
  {
    var q := (h - 4 - p2) / 32;
    assert h - 4 - p2 == 32 * q + rv;
    assert 32 * w - h + p2 + rv == 32 * (w - q - 1) + 28;
  }

  /** A number with 28 bits above whole words is a divisor for `quorem`. */
  lemma DivisorTop(S: Bigint, m: nat)
    requires S.Valid() && 0x800_0000 * W(m) <= S.Val() < 0x1000_0000 * W(m)
    ensures Divisor(S)
  {
    WStep(m);
    PositiveWords(S);
    var s := S.x[..S.wds];
    TopWord(s);
    var n := |s| - 1;
    ValueTop(s);
    ValueBound(s);
    hide W, Value;
    if n < m {
      hide Pow;
      WMono(n + 1, m);
      assert false;
    }
    if n > m {
      hide Pow;
      WMono(m + 1, n);
      WStep(n);
      MulLe(1, s[n], W(n));
      assert false;
    }
    TopSize(S.Val(), s[n], W(m));
  }

  lemma WMono(m: nat, n: nat)
    requires m <= n
    ensures W(m) <= W(n)
  {
    PowMono(BASE, m, n);
  }

  lemma TopSize(v: nat, t: nat, w: nat)
    requires 0 < w && t * w <= v < t * w + w && 0x800_0000 * w <= v < 0x1000_0000 * w
    ensures 0x800_0000 <= t < 0x1000_0000
  {
    assert (t + 1) * w == t * w + w;
    if t < 0x800_0000 {
      MulLe(t + 1, 0x800_0000, w);
    }
    if t >= 0x1000_0000 {
      MulLe(0x1000_0000, t, w);
    }
  }

  /** The shift of S that `dshift` asks for, on top of s2 places. */
  method ShiftDivisor(S0: Bigint, s2: nat) returns (S: Bigint, i: nat)
    requires S0.Valid() && S0.Val() > 0
    ensures Divisor(S) && S.Val() == S0.Val() * Pow(2, s2 + i) && (S == S0 || (fresh(S) && fresh(S.x)))
  {
    ghost var bits;
    i, bits := Dshift(S0, s2);
    assert Pow(2, 0) == 1;
    S := S0;
    if s2 + i > 0 {
      PositiveWords(S0);
      S := Lshift(S0, s2 + i);
    }
    ShiftedBits(S0.Val(), bits, s2 + i);
    DivisorTop(S, (bits + s2 + i - 28) / 32);
  }

  lemma ShiftedBits(v: nat, bits: nat, n: nat)
    requires 0 < bits && Pow(2, bits - 1) <= v < Pow(2, bits) && (bits + n) % 32 == 28
    ensures bits + n >= 28
    ensures 0x800_0000 * W((bits + n - 28) / 32) <= v * Pow(2, n) < 0x1000_0000 * W((bits + n - 28) / 32)
  {
    var m := (bits + n - 28) / 32;
    assert bits + n == 32 * m + 28;
    WIsPow2(m);
    PowAdd(2, bits - 1, n);
    PowAdd(2, bits, n);
    PowAdd(2, 28, 32 * m);
    PowAdd(2, 27, 32 * m);
    TwentySeven();
    PowPos(2, n);
    MulLe(Pow(2, bits - 1), v, Pow(2, n));
    MulLt(v, Pow(2, bits), Pow(2, n));
  }

  lemma TwentySeven()
    ensures Pow(2, 27) == 0x800_0000 && Pow(2, 28) == 0x1000_0000
  {
    assert Pow(2, 9) == 512;
    PowAdd(2, 9, 9);
    PowAdd(2, 18, 9);
  }

  /** b := f * 5^b5, S := 5^s5 and, for the left-right loop, mhi := 5^m5. */
  method FivePowers(L: Pow5List, f: Bigint, sc: Scale, leftright: bool) returns (b: Bigint, S: Bigint, mhi: Bigint?)
    requires L.Valid() && f.Valid() && f.Val() > 0 && L.Apart(f) && 0 <= sc.b5 && 0 <= sc.s5
    requires leftright ==> sc.m5 == sc.b5
    modifies L, L.Cells`next, f`wds, f.x
    ensures L.Valid() && old(L.Nodes) <= L.Nodes
    ensures b.Valid() && b.Val() == old(f.Val()) * Pow(5, sc.b5) && (b == f || (fresh(b) && fresh(b.x)))
    ensures S.Valid() && S.Val() == Pow(5, sc.s5) && fresh(S) && fresh(S.x) && Separate(b, S)
    ensures leftright <==> mhi != null
    ensures mhi != null ==> mhi.Valid() && mhi.Val() == Pow(5, sc.m5) && fresh(mhi) && fresh(mhi.x)
    ensures mhi != null ==> Separate(b, mhi) && Separate(S, mhi) && L.Apart(mhi)
    ensures L.Apart(b) && L.Apart(S)
  {
    hide Value, Pow;
    b, mhi := Numerator(L, f, sc, leftright);
    S := FivePower(L, sc.s5);
  }

  method FivePower(L: Pow5List, s5: nat) returns (S: Bigint)
    requires L.Valid()
    modifies L, L.Cells`next
    ensures L.Valid() && old(L.Nodes) <= L.Nodes
    ensures S.Valid() && S.Val() == Pow(5, s5) && fresh(S) && fresh(S.x) && L.Apart(S)
    ensures old(L.Cells) <= L.Cells && fresh(L.Cells - old(L.Cells)) && fresh(L.Arrays - old(L.Arrays))
  {
    hide Value, Pow;
    PowStep(5, 0);
    S := I2b(1);
    if s5 > 0 {
      S := Pow5mult(L, S, s5);
    }
  }

  method Numerator(L: Pow5List, f: Bigint, sc: Scale, leftright: bool) returns (b: Bigint, mhi: Bigint?)
    requires L.Valid() && f.Valid() && f.Val() > 0 && L.Apart(f) && 0 <= sc.b5
    requires leftright ==> sc.m5 == sc.b5
    modifies L, L.Cells`next, f`wds, f.x
    ensures L.Valid() && old(L.Nodes) <= L.Nodes && L.Apart(b)
    ensures old(L.Cells) <= L.Cells && fresh(L.Cells - old(L.Cells)) && fresh(L.Arrays - old(L.Arrays))
    ensures b.Valid() && b.Val() == old(f.Val()) * Pow(5, sc.b5) && (b == f || (fresh(b) && fresh(b.x)))
    ensures leftright <==> mhi != null
    ensures mhi != null ==> mhi.Valid() && mhi.Val() == Pow(5, sc.m5) && fresh(mhi) && fresh(mhi.x) && Separate(b, mhi)
    ensures mhi != null ==> L.Apart(mhi)
  {
    hide Value, Pow;
    PowStep(5, 0);
    b, mhi := f, null;
    if leftright {
      b, mhi := FiveMargins(L, f, sc.m5);
    } else if sc.b5 > 0 {
      b := Pow5mult(L, b, sc.b5);
    }
  }

  /** The margin and, by it, b. */
  method FiveMargins(L: Pow5List, f: Bigint, m5: nat) returns (b: Bigint, mhi: Bigint)
    requires L.Valid() && f.Valid() && f.Val() > 0 && L.Apart(f)
    modifies L, L.Cells`next
    ensures L.Valid() && old(L.Nodes) <= L.Nodes
    ensures old(L.Cells) <= L.Cells && fresh(L.Cells - old(L.Cells)) && fresh(L.Arrays - old(L.Arrays))
    ensures b.Valid() && L.Apart(b) && b.Val() == old(f.Val()) * Pow(5, m5) && (b == f || (fresh(b) && fresh(b.x)))
    ensures mhi.Valid() && mhi.Val() == Pow(5, m5) && fresh(mhi) && fresh(mhi.x) && Separate(b, mhi) && L.Apart(mhi)
  {
    hide Value, Pow;
    PowStep(5, 0);
    b := f;
    mhi := FivePower(L, m5);
    if m5 > 0 {
      PositiveWords(f);
      b := Mult(mhi, f);
    }
  }

  /** The operands of the digit loops, with the margin still to be shifted by m2. */
  ghost predicate Ready(b: Bigint, S: Bigint, mhi: Bigint?, m2: nat, d: Double, k: int, leftright: bool)
    reads b, b.x, S, S.x, mhi, if mhi == null then {} else {mhi.x}
  {
    && b.Valid() && Divisor(S) && Separate(b, S) && Ratio(b.Val(), S.Val(), k, Exact(d)) && 0 < b.Val() && 0 < S.Val()
    && (leftright <==> mhi != null)
    && (mhi != null ==>
        mhi.Valid() && Separate(b, mhi) && Separate(S, mhi) && mhi.Val() > 0 &&
        Ratio(mhi.Val() * Pow(2, m2), S.Val(), k, HalfBelow(d)))
  }

  /** Everything before the first comparison of b with S: b / S is d / 10^k, and mhi * 2^m2 / S is half the distance
      to the next double below, over 10^k. */
  method Prepare(L: Pow5List, d: Double, k: int, leftright: bool) returns (b: Bigint, S: Bigint, mhi: Bigint?, m2: nat)
    requires L.Valid() && d.Finite()
    modifies L, L.Cells`next
    ensures L.Valid() && old(L.Nodes) <= L.Nodes
    ensures Ready(b, S, mhi, m2, d, k, leftright)
    ensures fresh(b) && fresh(b.x) && fresh(S) && fresh(S.x) && (mhi != null ==> fresh(mhi) && fresh(mhi.x))
    ensures L.Apart(b) && L.Apart(S) && (mhi != null ==> L.Apart(mhi))
  {
    hide Value, Pow, Exact, P2, P10, Ratio;
    var f, be, bbits := D2b(d);
    ghost var f0: nat := f.Val();
    var sc := SetScale(d, be, bbits, k, leftright);
    b, S, mhi := FivePowers(L, f, sc, leftright);
    FivePositive(f0, sc.b5, sc.s5);
    var i;
    b, S, i := ShiftOperands(b, S, sc);
    m2 := sc.m2 + i;
    ScaledRatios(d, f0, be, bbits, k, leftright, sc, i, b.Val(), S.Val(), if mhi == null then 0 else mhi.Val());
  }

  /** The shifts of b and S. */
  method ShiftOperands(b: Bigint, S: Bigint, sc: Scale) returns (b': Bigint, S': Bigint, i: nat)
    requires b.Valid() && b.Val() > 0 && S.Valid() && S.Val() > 0 && Separate(b, S) && 0 <= sc.b2 && 0 <= sc.s2
    ensures b'.Valid() && b'.Val() == b.Val() * Pow(2, sc.b2 + i) && b'.Val() > 0
    ensures Divisor(S') && S'.Val() == S.Val() * Pow(2, sc.s2 + i) && Separate(b', S')
    ensures b' == b || (fresh(b') && fresh(b'.x))
    ensures S' == S || (fresh(S') && fresh(S'.x))
  {
    hide Value, Pow;
    S', i := ShiftDivisor(S, sc.s2);
    b' := ShiftUp(b, sc.b2 + i);
  }

  method ShiftUp(b: Bigint, n: nat) returns (r: Bigint)
    requires b.Valid() && b.Val() > 0
    ensures r.Valid() && r.Val() == b.Val() * Pow(2, n) && r.Val() > 0
    ensures r == b || (fresh(r) && fresh(r.x))
  {
    PowStep(2, 0);
    PowPos(2, n);
    MulLt(0, b.Val(), Pow(2, n));
    hide Value, Pow;
    r := b;
    if n > 0 {
      PositiveWords(b);
      r := Lshift(b, n);
    }
  }

  lemma FivePositive(f: nat, b5: nat, s5: nat)
    requires 0 < f
    ensures 0 < f * Pow(5, b5) && 0 < Pow(5, s5)
  {
    PowPos(5, b5);
    PowPos(5, s5);
    MulLt(0, f, Pow(5, b5));
  }

  /** The exponents make the quotients what they should be. */
  lemma ScaledRatios(d: Double, f: nat, be: int, bbits: int, k: int, leftright: bool, sc: Scale, i: nat,
                     b: nat, s: nat, m: nat)
    requires d.Finite() && d.LowBit() <= be && f * Pow(2, be - d.LowBit()) == d.Significand()
    requires d.Exponent() > 0 ==> be + bbits == d.Exponent() - 1022
    requires sc.Fits(be, k, leftright, HalfExponent(d, be, bbits) - if leftright && d.PowerOfTwo() then 1 else 0)
    requires b == f * Pow(5, sc.b5) * Pow(2, sc.b2 + i) && s == Pow(5, sc.s5) * Pow(2, sc.s2 + i)
    requires leftright ==> m == Pow(5, sc.m5)
    ensures Ratio(b, s, k, Exact(d)) && 0 < s
    ensures leftright ==> Ratio(m * Pow(2, sc.m2 + i), s, k, HalfBelow(d)) && 0 < m
  {
    hide Pow, P2, P10, Ratio;
    ExactOdd(d, f, be);
    PowersRatio(f, sc.b5, sc.b2 + i, sc.s5, sc.s2 + i, k, be, b, s, Exact(d));
    PowPos(5, sc.s5);
    PowPos(2, sc.s2 + i);
    MulLt(0, Pow(5, sc.s5), Pow(2, sc.s2 + i));
    if leftright {
      var e := HalfExponent(d, be, bbits) - if d.PowerOfTwo() then 1 else 0;
      assert e == if d.PowerOfTwo() then d.LowBit() - 2 else d.LowBit() - 1;
      PowPos(5, sc.m5);
      PowersRatio(1, sc.m5, sc.m2 + i, sc.s5, sc.s2 + i, k, e, m * Pow(2, sc.m2 + i), s, HalfBelow(d));
    }
  }

  /** The double lies in [10^k, 10^(k + 1)). */
  ghost predicate FirstPlace(d: Double, k: int) {
    P10(k) <= Exact(d) < P10(k + 1)
  }

  /** `k_check`: an estimate of k that was one too large is put right. */
  method CheckEstimate(b: Bigint, S: Bigint, mhi: Bigint?, m2: nat, d: Double, k: int, kCheck: bool, leftright: bool)
      returns (b': Bigint, mhi': Bigint?, botched: bool)
    requires Ready(b, S, mhi, m2, d, k, leftright)
    requires FirstPlace(d, k) || (kCheck && FirstPlace(d, k - 1))
    modifies b`wds, b.x, if mhi == null then {} else {mhi}, if mhi == null then {} else {mhi.x}
    ensures b' == b || (fresh(b') && fresh(b'.x))
    ensures mhi' == mhi || (mhi' != null && fresh(mhi') && fresh(mhi'.x))
    ensures Ready(b', S, mhi', m2, d, if botched then k - 1 else k, leftright)
    ensures FirstPlace(d, if botched then k - 1 else k) && S.Val() <= b'.Val() < 10 * S.Val()
  {
    hide Value, Pow, Exact, P10, Ratio;
    FirstDigitPlace(Scaled(b.Val(), S.Val(), 0, 0, false), Exact(d), k);
    b', mhi', botched := b, mhi, false;
    PositiveWords(b);
    if kCheck {
      var c := Cmp(b, S);
      botched := c < 0;
    }
    if botched {
      b', mhi' := Rescale(b, S, mhi, m2, d, k, leftright);
    }
  }

  /** Ten times the numerators, for a k one smaller. */
  method Rescale(b: Bigint, S: Bigint, mhi: Bigint?, m2: nat, d: Double, k: int, leftright: bool)
      returns (b': Bigint, mhi': Bigint?)
    requires Ready(b, S, mhi, m2, d, k, leftright)
    modifies b`wds, b.x, if mhi == null then {} else {mhi}, if mhi == null then {} else {mhi.x}
    ensures b' == b || (fresh(b') && fresh(b'.x))
    ensures mhi' == mhi || (mhi' != null && fresh(mhi') && fresh(mhi'.x))
    ensures Ready(b', S, mhi', m2, d, k - 1, leftright) && b'.Val() == 10 * old(b.Val())
  {
    hide Value, Pow, Exact, P10, Ratio;
    RatioTen(b.Val(), S.Val(), k, Exact(d));
    PositiveWords(b);
    mhi' := mhi;
    if leftright {
      PositiveWords(mhi);
      RatioTen(mhi.Val() * Pow(2, m2), S.Val(), k, HalfBelow(d));
      MulAssoc(10, mhi.Val(), Pow(2, m2));
      mhi' := Multadd(mhi, 10, 0);
    }
    b' := Multadd(b, 10, 0);
  }

  /** Modes outside 0 to 9 count as 0; 6 to 9 are 2 to 5 without the floating-point shortcut. */
  function EffectiveMode(mode: int): int {
    if mode < 0 || mode > 9 then 0 else if mode > 5 then mode - 4 else mode
  }

  /** The number of digits asked for, when the first digit has place k; modes 0 and 1 ask for none. */
  function Limit(m: int, ndigits: int, k: int): int {
    if m == 2 || m == 4 then Max(ndigits, 1) else if m == 3 || m == 5 then ndigits + k + 1 else -1
  }

  /** x is a multiple of 10^u next to the value: the value rounded to such multiples, halves to the even one. */
  ghost predicate IsRounded(value: real, x: real, u: int) {
    exists M: int :: x == At(M, u) && RoundedTo(value, M, u)
  }

  /** What `dtoa` returns in each mode, for a double whose first digit has place k; modes 6 to 9 are 2 to 5 again, and all
      others mode 0. */
  ghost predicate Promise(d: Double, mode: int, ndigits: int, k: int, ds: seq<Digit>, decpt: int) {
    if mode == 1 then ShortestFor(d, ds, decpt, true)
    else if mode in {2, 6} then (
      && Clean(ds) && |ds| <= Max(ndigits, 1) && k + 1 <= decpt <= k + 2
      && IsRounded(Exact(d), Decimal(ds, decpt), k + 1 - Max(ndigits, 1)))
    else if mode in {3, 7} || (mode in {5, 9} && ndigits + k + 1 <= 0) then (
      (ds == [] || Clean(ds)) && IsRounded(Exact(d), Decimal(ds, decpt), -ndigits))
    else if mode in {4, 8} then Stopped(d, ds, decpt, k, Max(ndigits, 1), false)
    else if mode in {5, 9} then Stopped(d, ds, decpt, k, ndigits + k + 1, false)
    else ShortestFor(d, ds, decpt, false)
  }

  /** The shortest decimal, or, when it has more digits than the limit, the value rounded to the limit. */
  ghost predicate Stopped(d: Double, ds: seq<Digit>, decpt: int, k: int, ilim: int, strict: bool) {
    && Clean(ds) && (ilim > 0 ==> |ds| <= ilim)
    && (ShortestFor(d, ds, decpt, strict) ||
        (0 < ilim && IsRounded(Exact(d), Decimal(ds, decpt), k + 1 - ilim) && NoneReadsBack(d, k + 1 - ilim, strict)))
  }

  /** No multiple of 10^u is read back as d. */
  ghost predicate NoneReadsBack(d: Double, u: int, strict: bool) {
    forall N: int {:trigger At(N, u)} :: !ReadsBack(d, At(N, u), strict)
  }

  lemma BlankReal(v: Scaled, d: Double, k: int, strict: bool, p: nat)
    requires Scales(v, d, k, strict) && Blank(v, p)
    ensures NoneReadsBack(d, k - p, strict)
  {
    var u := k - p;
    forall N: int {:trigger At(N, u)}
      ensures !ReadsBack(d, At(N, u), strict)
    {
      InsideAt(v, d, k, strict, N, p);
    }
  }

  /** `no_digits` and `one_digit`: modes 3 and 5 when the last place asked for is the first digit's or above. */
  method FewPlaces(b: Bigint, S: Bigint, ilim: int, d: Double, k: int, ndigits: int)
      returns (ds: seq<Digit>, decpt: int)
    requires b.Valid() && Divisor(S) && Separate(b, S) && S.Val() <= b.Val() < 10 * S.Val()
    requires Ratio(b.Val(), S.Val(), k, Exact(d)) && FirstPlace(d, k)
    requires ilim == ndigits + k + 1 <= 0
    modifies S`wds, S.x
    ensures (ds == [] || Clean(ds)) && IsRounded(Exact(d), Decimal(ds, decpt), -ndigits)
  {
    hide Value, Pow, Exact, P10, Ratio;
    FivePlace(b.Val(), S.Val(), k, Exact(d));
    PositiveWords(b);
    if ilim < 0 {
      RoundsToNothing(d, k, -ndigits);
      return [], -ndigits;
    }
    var S' := Multadd(S, 5, 0);
    var c := Cmp(b, S');
    if c <= 0 {
      RoundsToNothing(d, k, -ndigits);
      return [], -ndigits;
    }
    RoundsToOne(d, k, [1]);
    return [1], k + 2;
  }

  /** b / S against five. */
  lemma FivePlace(b: nat, s: nat, k: int, value: real)
    requires 0 < s && Ratio(b, s, k, value)
    ensures b <= 5 * s <==> 2.0 * value <= P10(k + 1)
  {
    P10Step(k);
    hide P10;
    UnitRatio(s, k);
    TimesRatio(s, s, k, P10(k), 5);
    RatioLe(b, 5 * s, s, k, value, 5.0 * P10(k));
  }

  lemma RoundsToNothing(d: Double, k: int, u: int)
    requires FirstPlace(d, k) && k + 1 <= u && (u == k + 1 ==> 2.0 * Exact(d) <= P10(k + 1))
    ensures IsRounded(Exact(d), Decimal([], u), u)
  {
    P10Step(u - 1);
    P10Pos(k);
    P10Mono(k + 1, u - 1);
    hide P10, Exact;
    assert Decimal([], u) == At(0, u);
  }

  lemma RoundsToOne(d: Double, k: int, ds: seq<Digit>)
    requires FirstPlace(d, k) && 2.0 * Exact(d) > P10(k + 1) && ds == [1]
    ensures IsRounded(Exact(d), Decimal(ds, k + 2), k + 1)
  {
    NumAppend([], 1);
    assert ds == [] + [1];
    hide P10, Exact;
    assert Decimal(ds, k + 2) == At(1, k + 1);
  }

  /** The last preparation of the margins: mlo, and an mhi of twice the size for a power of two. */
  method Margins(mhi0: Bigint, m2: nat, spec: bool) returns (mlo: Bigint, mhi: Bigint)
    requires mhi0.Valid() && mhi0.Val() > 0
    ensures mlo.Valid() && mhi.Valid() && (mlo == mhi || Separate(mlo, mhi))
    ensures mlo == mhi0 || (fresh(mlo) && fresh(mlo.x))
    ensures mhi == mhi0 || (fresh(mhi) && fresh(mhi.x))
    ensures mlo.Val() == mhi0.Val() * Pow(2, m2) && mhi.Val() == (if spec then 2 else 1) * mlo.Val() && mlo.Val() > 0
  {
    hide Value, Pow;
    PowStep(2, 0);
    mlo := ShiftUp(mhi0, m2);
    mhi := mlo;
    if spec {
      PositiveWords(mlo);
      mhi := new Bigint(mlo.k);
      mhi.CopyFrom(mlo);
      mhi := Lshift(mhi, 1);
    }
  }

  /** From rounding in the integers to the printed decimal. */
  lemma RoundedDecimal(v: Scaled, value: real, k: int, ds: seq<Digit>, up: bool, ilim: int)
    requires v.s > 0 && Ratio(v.b, v.s, k, value) && 0 < ilim && |ds| <= ilim
    requires HalfEven(v.b, v.s, Shown(ds, up, ilim - 1), ilim - 1)
    ensures IsRounded(value, Decimal(ds, k + 1 + if up then 1 else 0), k + 1 - ilim)
  {
    var M := Shown(ds, up, ilim - 1);
    hide Shown, HalfEven, Ratio, Decimal, At, RoundedTo;
    RoundedReal(v, value, k, M, ilim - 1);
    DecimalAt(ds, up, ilim - 1, k, M, k + 1 + if up then 1 else 0);
    RoundedIs(value, Decimal(ds, k + 1 + if up then 1 else 0), M, k + 1 - ilim);
  }

  lemma RoundedIs(value: real, x: real, M: int, u: int)
    requires x == At(M, u) && RoundedTo(value, M, u)
    ensures IsRounded(value, x, u)
  {
  }

  lemma ScalesMargins(v: Scaled, d: Double, k: int, strict: bool, c: nat)
    requires v.s > 0 && Ratio(v.b, v.s, k, Exact(d)) && Ratio(v.lo, v.s, k, HalfBelow(d))
    requires c == (if d.PowerOfTwo() then 2 else 1) && v.hi == c * v.lo && v.closed == (!strict && d.w1 % 2 == 0)
    ensures Scales(v, d, k, strict)
  {
    P2Step(d.LowBit() - 2);
    hide P2, Ratio, Exact;
    if d.PowerOfTwo() {
      TimesRatio(v.lo, v.s, k, HalfBelow(d), 2);
      assert HalfAbove(d) == (2 as real) * HalfBelow(d);
    } else {
      assert HalfAbove(d) == HalfBelow(d) && v.hi == v.lo;
    }
  }

  /** The left-right loop on a double. */
  method GenerateLeftRight(b: Bigint, S: Bigint, mhi0: Bigint, m2: nat, d: Double, k: int, m: int, ilim: int)
      returns (ds: seq<Digit>, up: bool)
    requires d.Finite() && Ready(b, S, mhi0, m2, d, k, true) && S.Val() <= b.Val() < 10 * S.Val()
    modifies b`wds, b.x, mhi0`wds, mhi0.x
    ensures Stopped(d, ds, k + 1 + if up then 1 else 0, k, ilim, m == 1)
  {
    hide Value, Pow, Exact, P10, Ratio, HalfBelow, HalfAbove, ShortestFor, HalfEven, Decimal;
    var mlo, mhi := Margins(mhi0, m2, d.PowerOfTwo());
    var closed := m != 1 && d.w1 % 2 == 0;
    ghost var v := Scaled(b.Val(), S.Val(), mlo.Val(), mhi.Val(), closed);
    ScalesMargins(v, d, k, m == 1, if d.PowerOfTwo() then 2 else 1);
    ds, up := LeftRight(b, S, mlo, mhi, closed, ilim, v);
    if BestShort(v, ds, up) {
      ShortestOfDouble(v, d, k, m == 1, ds, up);
    } else {
      RoundedDecimal(v, Exact(d), k, ds, up, ilim);
      BlankReal(v, d, k, m == 1, ilim - 1);
    }
  }

  /** The big-integer part of `dtoa` on a finite double that is not zero, the estimate of k being right or, if it is
      still to be checked, one too large. */
  method Dtoa(L: Pow5List, d: Double, mode: int, ndigits: int, k0: int, kCheck: bool)
      returns (ds: seq<Digit>, decpt: int, ghost k: int)
    requires L.Valid() && d.Finite()
    requires FirstPlace(d, k0) || (kCheck && FirstPlace(d, k0 - 1))
    modifies L, L.Cells`next
    ensures L.Valid() && old(L.Nodes) <= L.Nodes
    ensures FirstPlace(d, k) && Promise(d, mode, ndigits, k, ds, decpt)
  {
    hide Value, Pow, Exact, P10, FirstPlace, Ready, Promise;
    var m := EffectiveMode(mode);
    var b, S, mhi, m2 := Prepare(L, d, k0, m != 2 && m != 3);
    ds, decpt, k := Convert(b, S, mhi, m2, d, m, ndigits, k0, kCheck);
    PromiseMode(d, mode, ndigits, k, ds, decpt);
  }

  lemma PromiseMode(d: Double, mode: int, ndigits: int, k: int, ds: seq<Digit>, decpt: int)
    ensures Promise(d, EffectiveMode(mode), ndigits, k, ds, decpt) <==> Promise(d, mode, ndigits, k, ds, decpt)
  {
    hide ShortestFor, Stopped, IsRounded, Exact, Decimal;
  }

  /** The part of `dtoa` after the scaling. */
  method Convert(b0: Bigint, S: Bigint, mhi0: Bigint?, m2: nat, d: Double, m: int, ndigits: int, k0: int, kCheck: bool)
      returns (ds: seq<Digit>, decpt: int, ghost k: int)
    requires d.Finite() && 0 <= m <= 5 && Ready(b0, S, mhi0, m2, d, k0, m != 2 && m != 3)
    requires FirstPlace(d, k0) || (kCheck && FirstPlace(d, k0 - 1))
    modifies b0`wds, b0.x, S`wds, S.x, if mhi0 == null then {} else {mhi0}, if mhi0 == null then {} else {mhi0.x}
    ensures FirstPlace(d, k) && Promise(d, m, ndigits, k, ds, decpt)
  {
    hide Value, Pow, Exact, P10, FirstPlace, Ready, Promise;
    var ilim := Limit(m, ndigits, k0);
    var ilim1 := if m == 3 || m == 5 then ilim - 1 else ilim;
    var place := k0;
    var b, mhi, botched := CheckEstimate(b0, S, mhi0, m2, d, k0, kCheck, m != 2 && m != 3);
    if botched {
      place, ilim := k0 - 1, ilim1;
    }
    k := place;
    ds, decpt := Finish(b, S, mhi, m2, d, place, m, ndigits, ilim);
  }

  /** The part of `dtoa` after the check of k. */
  method Finish(b: Bigint, S: Bigint, mhi: Bigint?, m2: nat, d: Double, k: int, m: int, ndigits: int, ilim: int)
      returns (ds: seq<Digit>, decpt: int)
    requires d.Finite() && 0 <= m <= 5 && ilim == Limit(m, ndigits, k) && FirstPlace(d, k)
    requires Ready(b, S, mhi, m2, d, k, m != 2 && m != 3) && S.Val() <= b.Val() < 10 * S.Val()
    modifies b`wds, b.x, S`wds, S.x, if mhi == null then {} else {mhi}, if mhi == null then {} else {mhi.x}
    ensures Promise(d, m, ndigits, k, ds, decpt)
  {
    hide Value, Pow, Exact, P10, Ratio, HalfBelow, HalfAbove, ShortestFor, HalfEven, Decimal, IsRounded, FirstPlace;
    if ilim <= 0 && (m == 3 || m == 5) {
      ds, decpt := FewPlaces(b, S, ilim, d, k, ndigits);
      return;
    }
    var up;
    if m == 2 || m == 3 {
      ghost var v := Scaled(b.Val(), S.Val(), 0, 0, false);
      ds, up := FixedCount(b, S, ilim, v);
      RoundedDecimal(v, Exact(d), k, ds, up, ilim);
    } else {
      ds, up := GenerateLeftRight(b, S, mhi, m2, d, k, m, ilim);
    }
    decpt := k + 1 + if up then 1 else 0;
  }
}
