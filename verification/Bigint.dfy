/** The arbitrary-precision integers of dtoa.c: word arrays rewritten in place. */
module Bigints {
  import opened Arith
  import opened Words

  class Bigint {
    const k: nat
    const x: array<Word>  // `maxwds` is its length
    var sign: int
    var wds: nat
    var next: Bigint?

    /** `Balloc`: room for 2^k words, their contents arbitrary. */
    constructor (k: nat)
      ensures this.k == k && x.Length == Pow(2, k) && fresh(x)
      ensures sign == 0 && wds == 0 && next == null
    {
      this.k := k;
      x := new Word[Pow(2, k)];
      sign, wds, next := 0, 0, null;
    }

    /** The words in use end in a non-zero one, except that zero may have one word or none. */
    ghost predicate Valid()
      reads this, x
    {
      && x.Length == Pow(2, k) && 0 < x.Length && wds <= x.Length
      && (sign == 0 || sign == 1)
      && (wds == 0 ==> x[0] == 0)
      && (wds > 1 ==> x[wds - 1] != 0)
    }

    /** `Bcopy` */
    method CopyFrom(y: Bigint)
      requires y.wds <= x.Length && y.wds <= y.x.Length && x != y.x && this != y
      modifies this`sign, this`wds, x
      ensures sign == y.sign && wds == y.wds && x[..wds] == y.x[..wds]
    {
      sign, wds := y.sign, y.wds;
      var j := 0;
      while j < wds
        invariant 0 <= j <= wds && x[..j] == y.x[..j]
        modifies x
      {
        x[j] := y.x[j];
        j := j + 1;
      }
    }

    ghost function Val(): nat
      reads this, x
      requires wds <= x.Length
    {
      Value(x[..wds])
    }
  }

  /** `i2b` */
  method I2b(i: Word) returns (b: Bigint)
    ensures b.Valid() && b.Val() == i && b.wds == 1 && fresh(b) && fresh(b.x)
    ensures b.sign == 0 && b.next == null
  {
    b := new Bigint(1);
    assert Pow(2, 1) == 2;
    b.x[0] := i;
    b.wds := 1;
    assert b.x[..1] == [i];
    ValueStep(b.x[..1], 0);
    assert Value([]) == 0 && W(0) == 1;
  }

  lemma ProductLe(a: nat, x: nat, b: nat, y: nat)
    requires a <= x && b <= y
    ensures a * b <= x * y
  {
    MulLe(a, x, b);
    MulLe(b, y, x);
  }

  lemma DwordFits(x: Word, m: nat, carry: nat)
    requires m < 0x1_0000_0000 && carry < 0x1_0000_0000
    ensures 0 <= x * m + carry < 0x1_0000_0000_0000_0000
  {
    var p: int := x * m;
    MulLe(x, 0xFFFF_FFFF, m);
    assert 0 <= p <= 0xFFFF_FFFF * m;
  }

  /** Splitting a 64-bit word between two places of weight w and 2^32 * w. */
  lemma SplitDword(y: Dword, w: nat)
    ensures Lo(y) * w + Hi(y) * (BASE * w) == y * w
  {
    var lo: int, hi: int := Lo(y), Hi(y);
    assert y == lo + hi * BASE;
    assert hi * (BASE * w) == (hi * BASE) * w;
    assert (lo + hi * BASE) * w == lo * w + (hi * BASE) * w;
  }

  ghost predicate MultaddDone(was: seq<Word>, now: seq<Word>, i: nat, m: nat, a: nat, carry: Dword)
    requires i <= |was| == |now|
  {
    Value(now[..i]) + carry * W(i) == Value(was[..i]) * m + a
  }

  lemma MultaddStep(was: seq<Word>, now: seq<Word>, i: nat, m: nat, a: nat, carry: Dword, y: Dword)
    requires i < |was| == |now| && MultaddDone(was, now, i, m, a, carry)
    requires y == was[i] * m + carry
    ensures MultaddDone(was, now[i := Lo(y)], i + 1, m, a, Hi(y))
  {
    var next := now[i := Lo(y)];
    ValueStep(next, i);
    assert next[..i] == now[..i];
    ValueStep(was, i);
    WStep(i);
    SplitDword(y, W(i));
    MultaddAlgebra(Value(was[..i]), was[i], m, carry, W(i));
  }

  lemma MultaddAlgebra(v: int, xi: int, m: int, carry: int, w: int)
    ensures (xi * m + carry) * w == xi * m * w + carry * w
    ensures (v + xi * w) * m == v * m + xi * m * w
  {
    assert (xi * w) * m == xi * m * w;
  }

  /** The loop of `multadd`. */
  method MultaddWords(x: array<Word>, wds: nat, m: int, a: int) returns (carry: Word)
    requires wds <= x.Length && 0 < x.Length && 0 < m < 0x8000_0000 && 0 <= a < 0x8000_0000
    modifies x
    ensures Value(x[..wds]) + carry * W(wds) == Value(old(x[..wds])) * m + a || wds == 0
    ensures wds > 0 && old(x[wds - 1]) > 0 && carry == 0 ==> x[wds - 1] > 0
    ensures wds == 0 && old(x[0]) == 0 && a == 0 ==> x[0] == 0 && carry == 0
  {
    ghost var was := x[..];
    var i := 0;
    carry := a;
    assert Value(x[..0]) == 0 && W(0) == 1;
    while i == 0 || i < wds
      invariant 0 <= i <= Max(wds, 1)
      invariant MultaddDone(was, x[..], i, m, a, carry)
      invariant forall j :: i <= j < x.Length ==> x[j] == was[j]
      invariant i > 0 && was[i - 1] > 0 && carry == 0 ==> x[i - 1] > 0
      invariant wds == 0 && was[0] == 0 && a == 0 ==> carry == 0 && (i > 0 ==> x[0] == 0)
      decreases Max(wds, 1) - i
    {
      DwordFits(x[i], m, carry);
      MulLe(if x[i] > 0 then 1 else 0, x[i], m);
      var y: Dword := x[i] * m + carry;
      MultaddStep(was, x[..], i, m, a, carry, y);
      carry := Hi(y);
      x[i] := Lo(y);
      i := i + 1;
    }
  }

  /** `multadd`: multiply by m and add a. */
  method Multadd(b: Bigint, m: int, a: int) returns (r: Bigint)
    requires b.Valid() && 0 < m < 0x8000_0000 && 0 <= a < 0x8000_0000
    requires b.wds > 0 || a == 0
    modifies b`wds, b.x
    ensures r.Valid() && r.Val() == old(b.Val()) * m + a
    ensures r == b || (fresh(r) && fresh(r.x))
    ensures r.sign == b.sign && old(b.wds) <= r.wds <= old(b.wds) + 1
  {
    var carry := MultaddWords(b.x, b.wds, m, a);
    r := b;
    if carry != 0 {
      r := PushWord(b, carry);
    }
  }

  /** One more word on top, in a larger Bigint when this one is full. */
  method PushWord(b: Bigint, top: Word) returns (r: Bigint)
    requires b.wds <= b.x.Length == Pow(2, b.k) && 0 < b.x.Length && 0 < top
    requires b.sign == 0 || b.sign == 1
    modifies b`wds, b.x
    ensures r == b || (fresh(r) && fresh(r.x))
    ensures r.Valid() && r.wds == old(b.wds) + 1 && r.sign == b.sign
    ensures r.Val() == old(b.Val()) + top * W(old(b.wds))
  {
    r := b;
    if b.wds >= b.x.Length {
      r := Grown(b);
    }
    ghost var words := r.x[..r.wds];
    r.x[r.wds] := top;
    ValueStep(r.x[..], r.wds);
    assert r.x[..r.wds] == words;
    r.wds := r.wds + 1;
  }

  /** A `Balloc` of twice the size and a `Bcopy` into it. */
  method Grown(b: Bigint) returns (r: Bigint)
    requires b.wds <= b.x.Length == Pow(2, b.k)
    ensures fresh(r) && fresh(r.x) && r.k == b.k + 1 && r.x.Length == 2 * b.x.Length
    ensures r.sign == b.sign && r.wds == b.wds && r.x[..b.wds] == b.x[..b.wds]
  {
    r := new Bigint(b.k + 1);
    r.CopyFrom(b);
  }

  /** Comparing values by comparing words from the top; what `Cmp` relies on. */
  lemma CompareFrom(s: seq<Word>, t: seq<Word>, i: nat)
    requires |s| == |t| && i < |s| && s[i + 1..] == t[i + 1..] && s[i] != t[i]
    ensures s[i] < t[i] <==> Value(s) < Value(t)
    ensures s[i] > t[i] <==> Value(s) > Value(t)
  {
    if s[i] < t[i] {
      ValueLess(s, t, i);
    } else {
      ValueLess(t, s, i);
    }
  }

  /** `cmp`: the sign of a - b. A zero without words counts as below a zero of one word; two zeros without
      words are never compared. */
  method Cmp(a: Bigint, b: Bigint) returns (c: int)
    requires a.Valid() && b.Valid() && (a.wds > 0 || b.wds > 0)
    ensures c < 0 <==> a.Val() < b.Val() || (a.Val() == b.Val() && a.wds < b.wds)
    ensures c > 0 <==> a.Val() > b.Val() || (a.Val() == b.Val() && a.wds > b.wds)
    ensures a.Val() == b.Val() > 0 ==> a.wds == b.wds
  {
    ghost var s, t := a.x[..a.wds], b.x[..b.wds];
    var j := b.wds;
    c := a.wds - j;
    if c != 0 {
      Longer(a, b);
      Longer(b, a);
      return;
    }
    var i := j;
    while true
      invariant 0 < i <= j && s[i..] == t[i..]
      decreases i
    {
      i := i - 1;
      if a.x[i] != b.x[i] {
        CompareFrom(s, t, i);
        return if a.x[i] < b.x[i] then -1 else 1;
      }
      assert s[i..] == [s[i]] + s[i + 1..] && t[i..] == [t[i]] + t[i + 1..];
      if i == 0 {
        break;
      }
    }
    assert s[0..] == s && t[0..] == t;
  }

  /** Of two numbers of different lengths the longer is larger, unless both are zero. */
  lemma Longer(a: Bigint, b: Bigint)
    requires a.Valid() && b.Valid()
    ensures a.wds < b.wds ==> a.Val() < b.Val() || a.Val() == b.Val() == 0
  {
    if a.wds < b.wds {
      if b.x[b.wds - 1] > 0 {
        ValueLonger(a.x[..a.wds], b.x[..b.wds]);
      } else {
        ValueZeros(a.x[..a.wds]);
      }
    }
  }

  /** One column of a subtraction: the digit stored and the borrow that bit 32 of the 64-bit result shows. */
  lemma BorrowStep(a: Word, b: Word, borrow: int)
    requires borrow == 0 || borrow == 1
    ensures var y := Sub64(a, b + borrow);
      && (Hi(y) % 2 == 0 || Hi(y) % 2 == 1)
      && Lo(y) - (Hi(y) % 2) * 0x1_0000_0000 == a - b - borrow
  {
    var d: int := a - b - borrow;
    if d < 0 {
      DivModUnique(d, 0x1_0000_0000_0000_0000, -1, d + 0x1_0000_0000_0000_0000);
    }
  }

  /** What remains after i columns of b - q * s, with `owed` still to come off the next column. */
  ghost predicate SubDone(was: seq<Word>, now: seq<Word>, s: seq<Word>, i: nat, q: nat, owed: nat)
    requires i <= |was| == |now| && i <= |s|
  {
    Value(now[..i]) + q * Value(s[..i]) == Value(was[..i]) + owed * W(i)
  }

  lemma SubStep(was: seq<Word>, now: seq<Word>, s: seq<Word>, i: nat, q: nat, carry: Word, borrow: nat, ys: Dword)
    requires i < |was| == |now| && i < |s| && (borrow == 0 || borrow == 1)
    requires SubDone(was, now, s, i, q, carry + borrow)
    requires ys == s[i] * q + carry
    ensures var y := Sub64(was[i], Lo(ys) + borrow);
      SubDone(was, now[i := Lo(y)], s, i + 1, q, Hi(ys) + Hi(y) % 2)
  {
    var y := Sub64(was[i], Lo(ys) + borrow);
    BorrowStep(was[i], Lo(ys), borrow);
    var next := now[i := Lo(y)];
    ValueStep(next, i);
    assert next[..i] == now[..i];
    ValueStep(was, i);
    ValueStep(s, i);
    WStep(i);
    SubAlgebra(Value(now[..i]), Value(s[..i]), Value(was[..i]), q, carry, borrow, W(i),
               Lo(y), Hi(y) % 2, was[i], Lo(ys), Hi(ys), s[i]);
  }

  lemma SubAlgebra(now: int, s: int, was: int, q: int, carry: int, borrow: int, w: int,
                   y: int, bit: int, b: int, lo: int, hi: int, si: int)
    requires now + q * s == was + (carry + borrow) * w
    requires y - bit * 0x1_0000_0000 == b - lo - borrow
    requires lo + hi * 0x1_0000_0000 == si * q + carry
    ensures (now + y * w) + q * (s + si * w) == (was + b * w) + (hi + bit) * (0x1_0000_0000 * w)
  {
    var up := hi + bit;
    assert y + si * q + carry + borrow == b + up * 0x1_0000_0000;
    var p := si * q;
    assert (y + p + (carry + borrow)) * w == y * w + p * w + (carry + borrow) * w;
    assert (b + up * 0x1_0000_0000) * w == b * w + (up * 0x1_0000_0000) * w;
    MulAssoc(up, 0x1_0000_0000, w);
    MulAssoc(q, si, w);
    assert q * (s + si * w) == q * s + q * (si * w);
  }

  /** The subtraction loops of `quorem`: b := b - q * s over n words. */
  method SubtractMultiple(bx: array<Word>, sx: array<Word>, n: nat, q: Word)
    requires 0 < n <= bx.Length && n <= sx.Length && bx != sx
    requires q * Value(sx[..n]) <= Value(bx[..n])
    modifies bx
    ensures Value(bx[..n]) == Value(old(bx[..n])) - q * Value(sx[..n])
  {
    ghost var was, s := bx[..], sx[..];
    var i := 0;
    var borrow: Word, carry: Word := 0, 0;
    SubStart(was, s, q);
    hide SubDone, Value, W;
    while i < n
      invariant 0 <= i <= n && (borrow == 0 || borrow == 1)
      invariant SubDone(was, bx[..], s, i, q, carry + borrow)
      invariant forall j :: i <= j < bx.Length ==> bx[j] == was[j]
      invariant sx[..] == s
    {
      DwordFits(sx[i], q, carry);
      var ys: Dword := sx[i] * q + carry;
      var y := Sub64(bx[i], Lo(ys) + borrow);
      SubStep(was, bx[..], s, i, q, carry, borrow, ys);
      carry := Hi(ys);
      borrow := Hi(y) % 2;
      bx[i] := Lo(y);
      i := i + 1;
    }
    SubEnd(was, bx[..], s, n, q, carry + borrow);
  }

  lemma SubBegin(was: seq<Word>, now: seq<Word>, s: seq<Word>)
    requires |was| == |now|
    ensures SubDone(was, now, s, 0, 1, 0)
  {
    assert Value([]) == 0;
  }

  lemma SubStart(was: seq<Word>, s: seq<Word>, q: nat)
    ensures SubDone(was, was, s, 0, q, 0)
  {
    assert Value([]) == 0;
  }

  /** Nothing can be owed in the end. */
  lemma SubEnd(was: seq<Word>, now: seq<Word>, s: seq<Word>, n: nat, q: nat, owed: nat)
    requires n <= |was| == |now| && n <= |s| && SubDone(was, now, s, n, q, owed)
    requires q * Value(s[..n]) <= Value(was[..n])
    ensures owed == 0 && Value(now[..n]) == Value(was[..n]) - q * Value(s[..n])
  {
    ValueBound(now[..n]);
    NothingOwed(Value(was[..n]), Value(now[..n]), q * Value(s[..n]), owed, W(n));
  }

  /** One turn of the subtraction loops of `diff`. */
  method SubtractColumn(xc: array<Word>, i: nat, a: Word, b: Word, borrow: Word, ghost was: seq<Word>,
                        ghost s: seq<Word>) returns (next: Word)
    requires i < |was| == |s| <= xc.Length && a == was[i] && b == s[i] && (borrow == 0 || borrow == 1)
    requires SubDone(was, xc[..|was|], s, i, 1, borrow)
    modifies xc
    ensures next == 0 || next == 1
    ensures SubDone(was, xc[..|was|], s, i + 1, 1, next)
  {
    var y := Sub64(a, b + borrow);
    SubStep(was, xc[..|was|], s, i, 1, 0, borrow, b);
    next := Hi(y) % 2;
    ghost var before := xc[..|was|];
    xc[i] := Lo(y);
    assert xc[..|was|] == before[i := Lo(y)];
  }

  /** The subtraction loops of `diff`: xc := xa - xb, where xb may be the shorter. */
  method SubtractWords(xa: array<Word>, wa: nat, xb: array<Word>, wb: nat, xc: array<Word>)
    requires 0 < wa <= xa.Length && wa <= xc.Length && wb <= wa && wb <= xb.Length && 0 < xb.Length
    requires xc != xa && xc != xb && (wb == 0 ==> xb[0] == 0)
    requires Value(xb[..wb]) <= Value(xa[..wa])
    modifies xc
    ensures Value(xc[..wa]) == Value(xa[..wa]) - Value(xb[..wb])
  {
    hide SubDone, Value;
    ghost var was := xa[..wa];
    ghost var s := Pad(xb[..wb], wa);
    var i := 0;
    var borrow: Word := 0;
    SubBegin(was, xc[..wa], s);
    while i == 0 || i < wb
      invariant 0 <= i <= Max(wb, 1) && (borrow == 0 || borrow == 1)
      invariant SubDone(was, xc[..wa], s, i, 1, borrow)
      decreases wa - i
    {
      borrow := SubtractColumn(xc, i, xa[i], xb[i], borrow, was, s);
      i := i + 1;
    }
    while i < wa
      invariant Max(wb, 1) <= i <= wa && (borrow == 0 || borrow == 1)
      invariant SubDone(was, xc[..wa], s, i, 1, borrow)
    {
      borrow := SubtractColumn(xc, i, xa[i], 0, borrow, was, s);
      i := i + 1;
    }
    assert was[..wa] == was && xc[..wa][..wa] == xc[..wa] && s[..wa] == s;
    SubEnd(was, xc[..wa], s, wa, 1, borrow);
  }

  lemma Pad(s: seq<Word>, n: nat) returns (t: seq<Word>)
    requires |s| <= n
    ensures |t| == n && (forall i :: 0 <= i < n ==> t[i] == if i < |s| then s[i] else 0) && Value(t) == Value(s)
  {
    t := s + seq(n - |s|, _ => 0);
    assert t[..|s|] == s;
    ValueTrim(t, |s|);
  }

  lemma NothingOwed(was: nat, now: nat, s: nat, owed: nat, w: nat)
    requires now + s == was + owed * w && s <= was && now < w
    ensures owed == 0 && now == was - s
  {
    if owed > 0 {
      MulLe(1, owed, w);
    }
  }

  lemma NonEmptyValue()
    ensures Value([]) == 0
  {
  }

  lemma NonEmpty(s: seq<Word>)
    requires Value(s) > 0
    ensures |s| > 0
  {
    assert Value([]) == 0;
  }

  /** Drops the zero words on top of a non-zero number. */
  method TrimWords(x: array<Word>, n: nat) returns (m: nat)
    requires n <= x.Length && 0 < Value(x[..n])
    ensures 0 < m <= n && x[m - 1] != 0 && Value(x[..m]) == Value(x[..n])
  {
    m := n;
    ValueTrim(x[..n], n);
    while x[m - 1] == 0
      invariant 0 < m <= n && Value(x[..m]) == Value(x[..n])
      decreases m
    {
      ValueStep(x[..], m - 1);
      NonEmpty(x[..m - 1]);
      m := m - 1;
    }
  }

  /** `diff`: |a - b|, with the sign of a - b. The two zeros of different lengths must not meet here. */
  method Diff(a: Bigint, b: Bigint) returns (c: Bigint)
    requires a.Valid() && b.Valid() && (a.wds > 0 || b.wds > 0)
    requires a.Val() == b.Val() ==> a.wds == b.wds
    ensures c.Valid() && fresh(c) && fresh(c.x) && c.wds > 0
    ensures c.Val() == Abs(a.Val() - b.Val())
    ensures c.sign == if a.Val() < b.Val() then 1 else 0
  {
    hide Value;
    var i := Cmp(a, b);
    if i == 0 {
      c := I2b(0);
      return;
    }
    if i < 0 {
      c := Subtract(b, a);
      c.sign := 1;
    } else {
      c := Subtract(a, b);
    }
  }

  method Subtract(p: Bigint, q: Bigint) returns (c: Bigint)
    requires p.Valid() && q.Valid() && p.Val() > q.Val()
    ensures c.Valid() && fresh(c) && fresh(c.x) && c.wds > 0 && c.sign == 0
    ensures c.Val() == p.Val() - q.Val()
  {
    Longer(p, q);
    assert p.wds > 0 by {
      assert Value([]) == 0;
    }
    c := new Bigint(p.k);
    SubtractWords(p.x, p.wds, q.x, q.wds, c.x);
    c.wds := TrimWords(c.x, p.wds);
  }

  /** The quotient digit `quorem` tries first, from the top words of b and S. */
  function Estimate(bTop: Word, sTop: Word): Word {
    DivBounds(bTop, (sTop as int) + 1);
    bTop / (sTop + 1)
  }

  lemma EstimateBounds(bTop: Word, sTop: Word)
    ensures var q: int, d: int := Estimate(bTop, sTop), (sTop as int) + 1;
      q * d <= bTop < (q + 1) * d && (sTop > 0 ==> q < 0x8000_0000)
  {
    DivBounds(bTop, (sTop as int) + 1);
    if sTop > 0 {
      MulLe(2, (sTop as int) + 1, Estimate(bTop, sTop));
    }
  }

  /** The estimate is never too large. */
  lemma EstimateLow(b: seq<Word>, s: seq<Word>, q: nat)
    requires |b| == |s| > 0 && q * (s[|s| - 1] as int + 1) <= b[|b| - 1]
    ensures q * Value(s) <= Value(b)
  {
    ValueTop(b);
    ValueTop(s);
    ScaledLow(Value(b), Value(s), b[|b| - 1], s[|s| - 1], q, W(|b| - 1));
  }

  lemma ScaledLow(b: nat, s: nat, bt: nat, st: nat, q: nat, w: nat)
    requires bt * w <= b && s <= st * w + w && q * (st + 1) <= bt
    ensures q * s <= b
  {
    assert st * w + w == (st + 1) * w;
    MulLe(s, (st + 1) * w, q);
    MulAssoc(q, st + 1, w);
    MulLe(q * (st + 1), bt, w);
  }

  /** One correction is enough once the divisor's top word has 17 bits, as it has after `dshift`. */
  lemma EstimateClose(b: seq<Word>, s: seq<Word>, q: nat)
    requires |b| == |s| > 0 && s[|s| - 1] >= 0x1_0000
    requires q * (s[|s| - 1] as int + 1) <= b[|b| - 1] < (q + 1) * (s[|s| - 1] as int + 1)
    ensures Value(b) < (q + 2) * Value(s)
  {
    var n := |b| - 1;
    var st: int := s[n];
    ValueTop(b);
    ValueTop(s);
    if q >= 0x1_0000 {
      ProductLe(0x1_0000, q, 0x1_0001, st + 1);
    }
    ScaledClose(Value(b), Value(s), b[n], st, q, W(n));
  }

  lemma EstimateGood(b: seq<Word>, s: seq<Word>, est: nat)
    requires |b| == |s| > 0 && est == Estimate(b[|b| - 1], s[|s| - 1])
    ensures est * Value(s) <= Value(b)
    ensures s[|s| - 1] > 0 ==> est < 0x8000_0000
    ensures s[|s| - 1] >= 0x1_0000 ==> Value(b) < (est + 2) * Value(s)
  {
    EstimateBounds(b[|b| - 1], s[|s| - 1]);
    EstimateLow(b, s, est);
    if s[|s| - 1] >= 0x1_0000 {
      EstimateClose(b, s, est);
    }
  }

  lemma ScaledClose(b: nat, s: nat, bt: nat, st: nat, q: nat, w: nat)
    requires b < bt * w + w && st * w <= s && bt < (q + 1) * (st + 1) && q + 1 <= st
    ensures b < (q + 2) * s
  {
    assert (q + 1) * (st + 1) == (q + 2) * st + (q + 1 - st);
    assert bt * w + w == (bt + 1) * w;
    MulLe(bt + 1, (q + 2) * st, w);
    MulAssoc(q + 2, st, w);
    MulLe(st * w, s, q + 2);
  }

  /** After a subtraction, when the top word number n became zero: the words still in use. */
  method Renormalize(b: Bigint, n: nat)
    requires n < b.x.Length == Pow(2, b.k) && b.x[n] == 0 && (b.sign == 0 || b.sign == 1)
    modifies b`wds
    ensures b.Valid() && b.wds <= n + 1 && b.Val() == Value(b.x[..n + 1])
  {
    var m := n;
    ValueStep(b.x[..], n);
    while m > 1 && b.x[m - 1] == 0
      invariant 0 <= m <= n && b.x[n] == 0 && Value(b.x[..m]) == Value(b.x[..n + 1])
      invariant n > 0 ==> m > 0
    {
      ValueStep(b.x[..], m - 1);
      m := m - 1;
    }
    b.wds := m;
  }

  /** b := b - q * S with the zero words dropped, as `quorem` does up to twice. */
  method TakeAway(b: Bigint, S: Bigint, q: Word)
    requires b.Valid() && S.Valid() && b != S && b.x != S.x && b.wds == S.wds > 0
    requires q * S.Val() <= b.Val()
    modifies b`wds, b.x
    ensures b.Valid() && b.wds <= S.wds && b.Val() == old(b.Val()) - q * S.Val()
  {
    var n := b.wds - 1;
    assert b.x.Length == Pow(2, b.k);
    SubtractMultiple(b.x, S.x, n + 1, q);
    if b.x[n] == 0 {
      Renormalize(b, n);
    }
  }

  /** The first half of `quorem`, which has nothing to do for an estimate of zero. */
  method TakeEstimate(b: Bigint, S: Bigint, est: Word)
    requires b.Valid() && S.Valid() && b != S && b.x != S.x && b.wds == S.wds > 0
    requires est * S.Val() <= b.Val()
    modifies b`wds, b.x
    ensures b.Valid() && b.wds <= S.wds && b.Val() == old(b.Val()) - est * S.Val()
  {
    if est != 0 {
      TakeAway(b, S, est);
    }
  }

  /** The second half of `quorem`: one more S comes off b when it is still not below S. */
  method CorrectOnce(b: Bigint, S: Bigint) returns (more: Word)
    requires b.Valid() && S.Valid() && b != S && b.x != S.x && b.wds <= S.wds && S.Val() > 0 && S.wds > 0
    modifies b`wds, b.x
    ensures b.Valid() && b.wds <= S.wds
    ensures more == if old(b.Val()) >= S.Val() then 1 else 0
    ensures b.Val() == old(b.Val()) - more * S.Val()
  {
    more := 0;
    var c := Cmp(b, S);
    if c >= 0 {
      Longer(b, S);
      more := 1;
      TakeAway(b, S, 1);
    }
  }

  /** `quorem`: subtracts a multiple of S from b and returns the multiple. */
  method Quorem(b: Bigint, S: Bigint) returns (q: Word)
    requires b.Valid() && S.Valid() && b != S && b.x != S.x && b.wds <= S.wds
    requires S.Val() > 0 && S.wds > 0 && S.x[S.wds - 1] < 0xFFFF_FFFF
    modifies b`wds, b.x
    ensures b.Valid() && b.wds <= S.wds
    ensures old(b.Val()) == q * S.Val() + b.Val()
    ensures old(b.wds) < S.wds ==> q == 0 && b.Val() < S.Val()
    ensures old(b.wds) == S.wds ==> OneCorrection(old(b.x[S.wds - 1]), S.x[S.wds - 1], q, b.Val() < S.Val())
    ensures S.x[S.wds - 1] >= 0x1_0000 ==> b.Val() < S.Val()
  {
    if b.wds < S.wds {
      Longer(b, S);
      return 0;
    }
    q := QuoremEqualLength(b, S);
  }

  method QuoremEqualLength(b: Bigint, S: Bigint) returns (q: Word)
    requires b.Valid() && S.Valid() && b != S && b.x != S.x && b.wds == S.wds > 0
    requires S.Val() > 0 && S.x[S.wds - 1] < 0xFFFF_FFFF
    modifies b`wds, b.x
    ensures b.Valid() && b.wds <= S.wds
    ensures old(b.Val()) == q * S.Val() + b.Val()
    ensures OneCorrection(old(b.x[S.wds - 1]), S.x[S.wds - 1], q, b.Val() < S.Val())
    ensures S.x[S.wds - 1] >= 0x1_0000 ==> b.Val() < S.Val()
  {
    var n := S.wds - 1;
    ghost var v := b.Val();
    var est := Estimate(b.x[n], S.x[n]);
    EstimateGood(b.x[..n + 1], S.x[..n + 1], est);
    hide Value, Estimate;
    TakeEstimate(b, S, est);
    var more := CorrectOnce(b, S);
    Corrected(v, S.Val(), b.Val(), est, more);
    q := est + more;
  }

  lemma Corrected(v: nat, s: nat, b: nat, est: nat, more: nat)
    requires 0 < s && b == v - est * s - more * s && (more == 1 || (more == 0 && b < s))
    ensures v == (est + more) * s + b
    ensures v < (est + 2) * s ==> b < s
  {
    assert (est + more) * s == est * s + more * s;
    assert (est + 2) * s == est * s + 2 * s;
  }

  /** `quorem` answers its estimate, which is then exact, or one more than that. */
  predicate OneCorrection(bTop: Word, sTop: Word, q: Word, below: bool) {
    var est: int := Estimate(bTop, sTop);
    q == est + 1 || (q == est && below)
  }

  /** So its answer is the quotient exactly when the dividend is less than estimate + 2 times the divisor. */
  lemma QuoremAlgebra(b0: nat, s: nat, b: nat, est: nat, q: nat)
    requires 0 < s && b0 == q * s + b && (q == est + 1 || (q == est && b < s))
    ensures b < s <==> b0 < (est + 2) * s
  {
    assert (est + 1) * s == est * s + s;
    assert (est + 2) * s == est * s + 2 * s;
  }

  /** After i columns of one row of a long multiplication. */
  ghost predicate RowDone(was: seq<Word>, now: seq<Word>, xa: seq<Word>, i: nat, y: nat, carry: nat)
    requires i <= |was| == |now| && i <= |xa|
  {
    Value(now[..i]) + carry * W(i) == Value(was[..i]) + Value(xa[..i]) * y
  }

  lemma RowStep(was: seq<Word>, now: seq<Word>, xa: seq<Word>, i: nat, y: Word, carry: Word, z: Dword)
    requires i < |was| == |now| && i < |xa| && RowDone(was, now, xa, i, y, carry)
    requires z == xa[i] * y + was[i] + carry
    ensures RowDone(was, now[i := Lo(z)], xa, i + 1, y, Hi(z))
  {
    var next := now[i := Lo(z)];
    ValueStep(next, i);
    assert next[..i] == now[..i];
    ValueStep(was, i);
    ValueStep(xa, i);
    WStep(i);
    SplitDword(z, W(i));
    RowAlgebra(Value(xa[..i]), xa[i], y, was[i], carry, W(i));
  }

  lemma RowAlgebra(v: int, xi: int, y: int, d: int, carry: int, w: int)
    ensures (xi * y + d + carry) * w + v * y == d * w + carry * w + (v + xi * w) * y
  {
    var p := xi * y;
    assert (p + d + carry) * w == p * w + d * w + carry * w;
    MultaddAlgebra(v, xi, y, 0, w);
  }

  lemma RowFits(x: Word, y: Word, c: Word, carry: Word)
    ensures 0 <= x * y + c + carry < 0x1_0000_0000_0000_0000
  {
    ProductLe(x, 0xFFFF_FFFF, y, 0xFFFF_FFFF);
  }

  /** The inner loop of `mult`: adds a * y to the words of c from number j on. */
  method MultiplyRow(xa: array<Word>, wa: nat, y: Word, xc: array<Word>, j: nat)
    requires 0 < wa <= xa.Length && j + wa < xc.Length && xa != xc
    modifies xc
    ensures xc[..j] == old(xc[..j]) && xc[j + wa + 1..] == old(xc[j + wa + 1..])
    ensures Value(xc[j..j + wa + 1]) == Value(old(xc[j..j + wa])) + Value(xa[..wa]) * y
  {
    ghost var was, head, rest := xc[j..j + wa], xc[..j], xc[j + wa..];
    var i := 0;
    var carry: Word := 0;
    assert Value(xa[..0]) == 0 && Value(was[..0]) == 0;
    while i < wa
      invariant 0 <= i <= wa
      invariant RowDone(was, xc[j..j + wa], xa[..wa], i, y, carry)
      invariant xc[..j] == head && xc[j + wa..] == rest
      invariant forall t :: i <= t < wa ==> xc[j + t] == was[t]
    {
      RowFits(xa[i], y, xc[j + i], carry);
      var z: Dword := xa[i] * y + xc[j + i] + carry;
      ghost var before := xc[j..j + wa];
      RowStep(was, before, xa[..wa], i, y, carry, z);
      carry := Hi(z);
      xc[j + i] := Lo(z);
      assert xc[j..j + wa] == before[i := Lo(z)];
      i := i + 1;
    }
    ghost var row := xc[j..j + wa];
    xc[j + wa] := carry;
    assert xc[j..j + wa + 1] == row + [carry];
    assert xc[j + wa + 1..] == rest[1..];
    RowEnds(was, row, xa[..wa], y, carry);
  }

  lemma RowEnds(was: seq<Word>, row: seq<Word>, xa: seq<Word>, y: Word, carry: Word)
    requires |was| == |row| == |xa| && RowDone(was, row, xa, |xa|, y, carry)
    ensures Value(row + [carry]) == Value(was) + Value(xa) * y
  {
    var w := |xa|;
    ValueStep(row + [carry], w);
    assert row[..w] == row && was[..w] == was && xa[..w] == xa;
    assert (row + [carry])[..w] == row && (row + [carry])[..w + 1] == row + [carry];
  }

  ghost predicate ProductDone(a: nat, xb: seq<Word>, c: seq<Word>, j: nat, wa: nat)
    requires j <= |xb| && j + wa <= |c|
  {
    Value(c[..j + wa]) == a * Value(xb[..j]) && forall t :: j + wa <= t < |c| ==> c[t] == 0
  }

  lemma ProductStep(a: nat, xb: seq<Word>, c: seq<Word>, c': seq<Word>, j: nat, wa: nat)
    requires j < |xb| && j + wa < |c| == |c'| && ProductDone(a, xb, c, j, wa)
    requires c'[..j] == c[..j] && c'[j + wa + 1..] == c[j + wa + 1..]
    requires Value(c'[j..j + wa + 1]) == Value(c[j..j + wa]) + a * xb[j]
    ensures ProductDone(a, xb, c', j + 1, wa)
  {
    assert c[..j + wa] == c[..j] + c[j..j + wa];
    assert c'[..j + wa + 1] == c'[..j] + c'[j..j + wa + 1];
    ValueAppend(c[..j], c[j..j + wa]);
    ValueAppend(c'[..j], c'[j..j + wa + 1]);
    ValueStep(xb, j);
    ProductAlgebra(W(j), Value(c[j..j + wa]), a, xb[j], Value(xb[..j]));
    forall t | j + wa + 1 <= t < |c'|
      ensures c'[t] == 0
    {
      assert c'[t] == c'[j + wa + 1..][t - (j + wa + 1)];
    }
  }

  lemma ProductAlgebra(w: int, v: int, a: int, y: int, b: int)
    ensures w * (v + a * y) == w * v + a * (y * w)
    ensures a * (b + y * w) == a * b + a * (y * w)
  {
    MulAssoc(a, y, w);
    assert w * (a * y) == (a * y) * w;
  }

  /** `mult` */
  method Mult(a0: Bigint, b0: Bigint) returns (c: Bigint)
    requires a0.Valid() && b0.Valid() && (a0.wds > 0 || b0.wds > 0)
    ensures c.Valid() && fresh(c) && fresh(c.x) && c.sign == 0 && c.next == null
    ensures c.Val() == a0.Val() * b0.Val()
    ensures c.Val() > 0 ==> c.wds > 0
  {
    if a0.wds < b0.wds {
      c := LongMult(b0, a0);
    } else {
      c := LongMult(a0, b0);
    }
  }

  /** `mult` once the longer number comes first. */
  method LongMult(a: Bigint, b: Bigint) returns (c: Bigint)
    requires a.Valid() && b.Valid() && 0 < a.wds && b.wds <= a.wds
    ensures c.Valid() && fresh(c) && fresh(c.x) && c.sign == 0 && c.next == null
    ensures c.Val() == a.Val() * b.Val()
    ensures c.Val() > 0 ==> c.wds > 0
  {
    PowStep(2, a.k);
    NonEmptyValue();
    hide Value, Pow;
    var wc := a.wds + b.wds;
    c := new Bigint(if wc > a.x.Length then a.k + 1 else a.k);
    Product(a, b, c.x);
    c.wds := TrimProduct(c.x, wc);
  }

  /** Drops the zero words on top of a number that may be zero. */
  method TrimProduct(x: array<Word>, n: nat) returns (m: nat)
    requires 0 < n <= x.Length
    ensures m <= n && Value(x[..m]) == Value(x[..n])
    ensures if m == 0 then x[0] == 0 else x[m - 1] != 0
  {
    m := n;
    while m > 0 && x[m - 1] == 0
      invariant 0 <= m <= n && Value(x[..m]) == Value(x[..n])
      invariant m == 0 ==> x[0] == 0
    {
      ValueStep(x[..], m - 1);
      m := m - 1;
    }
  }

  /** The outer loop of `mult`. */
  method Product(a: Bigint, b: Bigint, xc: array<Word>)
    requires a.Valid() && b.Valid() && 0 < a.wds && b.wds <= a.wds && a.wds + b.wds <= xc.Length
    requires xc != a.x && xc != b.x
    modifies xc
    ensures Value(xc[..a.wds + b.wds]) == a.Val() * b.Val()
  {
    var wb := b.wds;
    ghost var n := a.wds + wb;
    Zero(xc, a.wds + wb);
    ghost var xb := b.x[..wb];
    ProductStart(a.Val(), xb, xc[..n], a.wds);
    hide Value, ProductDone;
    var j := 0;
    while j < wb
      invariant 0 <= j <= wb && ProductDone(a.Val(), xb, xc[..n], j, a.wds)
    {
      ProductRow(a, b.x[j], xc, j, xb);
      j := j + 1;
    }
    assert xb[..wb] == xb && xc[..n][..n] == xc[..n];
    ProductEnd(a.Val(), xb, xc[..n], wb, a.wds);
  }

  lemma ProductStart(a: nat, xb: seq<Word>, c: seq<Word>, wa: nat)
    requires wa <= |c| && forall t :: 0 <= t < |c| ==> c[t] == 0
    ensures ProductDone(a, xb, c, 0, wa)
  {
    ValueZeros(c[..wa]);
    assert Value([]) == 0;
  }

  lemma ProductEnd(a: nat, xb: seq<Word>, c: seq<Word>, j: nat, wa: nat)
    requires j <= |xb| && j + wa <= |c| && ProductDone(a, xb, c, j, wa)
    ensures Value(c[..j + wa]) == a * Value(xb[..j])
  {
  }

  method Zero(x: array<Word>, n: nat)
    requires n <= x.Length
    modifies x
    ensures forall t :: 0 <= t < n ==> x[t] == 0
  {
    var i := 0;
    while i < n
      invariant 0 <= i <= n && forall t :: 0 <= t < i ==> x[t] == 0
    {
      x[i] := 0;
      i := i + 1;
    }
  }

  /** The row for one word of b; `mult` skips the zero words. */
  method AddRow(xa: array<Word>, wa: nat, y: Word, xc: array<Word>, j: nat)
    requires 0 < wa <= xa.Length && j + wa < xc.Length && xa != xc && xc[j + wa] == 0
    modifies xc
    ensures xc[..j] == old(xc[..j]) && xc[j + wa + 1..] == old(xc[j + wa + 1..])
    ensures Value(xc[j..j + wa + 1]) == Value(old(xc[j..j + wa])) + Value(xa[..wa]) * y
  {
    if y != 0 {
      MultiplyRow(xa, wa, y, xc, j);
    } else {
      ValueStep(xc[j..], wa);
      assert xc[j..][..wa] == xc[j..j + wa] && xc[j..][..wa + 1] == xc[j..j + wa + 1];
    }
  }

  /** One turn of the outer loop of `mult`. */
  method ProductRow(a: Bigint, y: Word, xc: array<Word>, j: nat, ghost xb: seq<Word>)
    requires a.Valid() && xc != a.x && 0 < a.wds && a.wds + |xb| <= xc.Length && j < |xb| && y == xb[j]
    requires ProductDone(a.Val(), xb, xc[..a.wds + |xb|], j, a.wds)
    modifies xc
    ensures ProductDone(a.Val(), xb, xc[..a.wds + |xb|], j + 1, a.wds)
  {
    var wa := a.wds;
    ghost var n, before := wa + |xb|, xc[..];
    ghost var c := xc[..n];
    assert c[j + wa] == 0 && xc[j + wa] == c[j + wa];
    AddRow(a.x, wa, y, xc, j);
    SameEnds(before, xc[..], j, j + wa + 1, n);
    assert before[..n][j..j + wa] == before[j..j + wa];
    assert xc[..n][j..j + wa + 1] == xc[j..j + wa + 1];
    ProductStep(a.Val(), xb, before[..n], xc[..n], j, wa);
  }

  lemma SameEnds(s: seq<Word>, t: seq<Word>, i: nat, j: nat, n: nat)
    requires i <= j <= n <= |s| == |t| && s[..i] == t[..i] && s[j..] == t[j..]
    ensures s[..n][..i] == t[..n][..i] && s[..n][j..] == t[..n][j..]
  {
    assert s[..n][j..] == s[j..][..n - j] && t[..n][j..] == t[j..][..n - j];
    assert s[..n][..i] == s[..i] && t[..n][..i] == t[..i];
  }

  /** One word of the shifting loop of `lshift`. */
  method ShiftOneWord(x: Word, r: nat, z: Word) returns (low: Word, high: Word)
    requires 0 < r < 32 && z < Pow(2, r)
    ensures var y := x * Pow(2, r) + z;
      0 <= y < 0x1_0000_0000_0000_0000 && low == Lo(y) && high == Hi(y) < Pow(2, r)
    ensures x > 0 && high == 0 ==> low > 0
  {
    ShiftWord(x, r, z);
    MulLe(if x > 0 then 1 else 0, x, Pow(2, r));
    low := x * Pow(2, r) % 0x1_0000_0000 + z;
    high := x / Pow(2, 32 - r);
  }

  /** The shifting loop of `lshift`, writing from word number n on. */
  method ShiftWords(xa: array<Word>, wa: nat, xc: array<Word>, n: nat, r: nat) returns (z: Word)
    requires 0 < wa <= xa.Length && n + wa <= xc.Length && xa != xc && 0 < r < 32
    modifies xc
    ensures xc[..n] == old(xc[..n])
    ensures Value(xc[n..n + wa]) + z * W(wa) == Value(xa[..wa]) * Pow(2, r)
    ensures xa[wa - 1] > 0 && z == 0 ==> xc[n + wa - 1] > 0
  {
    ghost var was, low := xa[..wa], xc[..n];
    PowPos(2, r);
    var i := 0;
    z := 0;
    assert Value(was[..0]) == 0;
    while i < wa
      invariant 0 <= i <= wa && z < Pow(2, r)
      invariant MultaddDone(was, xc[n..n + wa], i, Pow(2, r), 0, z)
      invariant xc[..n] == low
      invariant i > 0 && was[i - 1] > 0 && z == 0 ==> xc[n + i - 1] > 0
    {
      var d, z' := ShiftOneWord(xa[i], r, z);
      ghost var before := xc[n..n + wa];
      MultaddStep(was, before, i, Pow(2, r), 0, z, xa[i] * Pow(2, r) + z);
      z := z';
      xc[n + i] := d;
      assert xc[n..n + wa] == before[i := d];
      i := i + 1;
    }
    assert xc[n..n + wa][..wa] == xc[n..n + wa] && was[..wa] == was;
  }

  lemma Shifted(low: seq<Word>, c: seq<Word>, r: nat, v: nat)
    requires forall i :: 0 <= i < |low| ==> low[i] == 0
    requires Value(c) == v * Pow(2, r)
    ensures Value(low + c) == v * Pow(2, 32 * |low| + r)
  {
    var n := |low|;
    ValueAppend(low, c);
    ValueZeros(low);
    WIsPow2(n);
    PowAdd(2, 32 * n, r);
    ShiftedAlgebra(v, Pow(2, r), Pow(2, 32 * n));
  }

  lemma ShiftedAlgebra(v: nat, p: nat, w: nat)
    ensures w * (v * p) == v * (w * p)
  {
    MulAssoc(w, v, p);
    MulAssoc(v, w, p);
  }

  lemma TopWord(s: seq<Word>)
    requires |s| > 0 && Value(s) > 0 && (|s| > 1 ==> s[|s| - 1] != 0)
    ensures s[|s| - 1] != 0
  {
    if s[|s| - 1] == 0 {
      ValueZeros(s);
    }
  }

  /** `lshift` of a number that is not zero. */
  method Lshift(b: Bigint, k: nat) returns (b1: Bigint)
    requires b.Valid() && b.Val() > 0 && b.wds > 0
    ensures b1.Valid() && fresh(b1) && fresh(b1.x) && b1.wds > 0 && b1.sign == 0
    ensures b1.Val() == b.Val() * Pow(2, k)
  {
    var n, wds := k / 32, b.wds;
    var k1, i := b.k, b.x.Length;
    while n + wds + 1 > i
      invariant i == Pow(2, k1) && i > 0
      decreases n + wds + 1 - i
    {
      i, k1 := 2 * i, k1 + 1;
    }
    b1 := new Bigint(k1);
    TopWord(b.x[..wds]);
    b1.wds := ShiftInto(b.x, wds, b1.x, n, k % 32);
  }

  /** `lshift` without the allocation: xc := xa * 2^(32 * n + r). */
  method ShiftInto(xa: array<Word>, wa: nat, xc: array<Word>, n: nat, r: nat) returns (wc: nat)
    requires 0 < wa <= xa.Length && n + wa < xc.Length && xa != xc && r < 32 && xa[wa - 1] != 0
    modifies xc
    ensures 0 < wc <= xc.Length && xc[wc - 1] != 0
    ensures Value(xc[..wc]) == Value(xa[..wa]) * Pow(2, 32 * n + r)
  {
    Zero(xc, n);
    ghost var v := Value(xa[..wa]);
    wc := ShiftBits(xa, wa, xc, n, r);
    Shifted(xc[..n], xc[n..wc], r, v);
    assert xc[..wc] == xc[..n] + xc[n..wc];
  }

  /** The last part of `lshift`: the loop for the r odd bits, or the plain copy when there are none. */
  method ShiftBits(xa: array<Word>, wa: nat, xc: array<Word>, n: nat, r: nat) returns (wc: nat)
    requires 0 < wa <= xa.Length && n + wa < xc.Length && xa != xc && r < 32 && xa[wa - 1] != 0
    modifies xc
    ensures n < wc <= xc.Length && xc[wc - 1] != 0 && xc[..n] == old(xc[..n])
    ensures Value(xc[n..wc]) == Value(xa[..wa]) * Pow(2, r)
  {
    if r == 0 {
      CopyWords(xa, wa, xc, n);
      return n + wa;
    }
    var z := ShiftWords(xa, wa, xc, n, r);
    wc := n + wa;
    if z != 0 {
      ghost var c, low := xc[n..wc], xc[..n];
      xc[wc] := z;
      wc := wc + 1;
      assert xc[n..wc] == c + [z] && xc[..n] == low;
      ValueStep(c + [z], wa);
      assert (c + [z])[..wa] == c && (c + [z])[..wa + 1] == c + [z];
    }
  }

  method CopyWords(xa: array<Word>, wa: nat, xc: array<Word>, n: nat)
    requires wa <= xa.Length && n + wa <= xc.Length && xa != xc
    modifies xc
    ensures xc[..n] == old(xc[..n]) && xc[n..n + wa] == xa[..wa]
  {
    var i := 0;
    while i < wa
      invariant 0 <= i <= wa && xc[..n] == old(xc[..n]) && xc[n..n + i] == xa[..i]
    {
      xc[n + i] := xa[i];
      i := i + 1;
    }
  }
}
