/** `rshift`, `any_on` and `s2b` of dtoa.c. */
module RightShift {
  import opened Arith
  import opened Words
  import opened Bigints
  import opened Digits

  /** Words c, with y to come on top, are the first words of s shifted right by r bits; rem fell out. */
  ghost predicate ShiftedDown(c: seq<Word>, y: nat, s: seq<Word>, i: nat, r: nat, rem: nat)
    requires i < |s| && |c| == i
  {
    Pow(2, r) * (Value(c) + y * W(i)) + rem == Value(s[..i + 1])
  }

  lemma DownStart(s: seq<Word>, r: nat)
    requires 0 < |s|
    ensures Pow(2, r) > 0 && ShiftedDown([], s[0] / Pow(2, r), s, 0, r, s[0] % Pow(2, r))
  {
    PowPos(2, r);
    ValueStep(s, 0);
    assert Value(s[..0]) == 0 && W(0) == 1;
    DivModParts(s[0], Pow(2, r));
  }

  lemma DivModParts(x: nat, p: nat)
    requires p > 0
    ensures x == p * (x / p) + x % p && 0 <= x % p < p
  {
  }

  /** One word of the shifting loop: the low bits of the next word fill up the rest of this one. */
  lemma DownStep(c: seq<Word>, y: nat, s: seq<Word>, i: nat, r: nat, rem: nat, d: Word)
    requires i + 1 < |s| && |c| == i && 0 < r < 32 && ShiftedDown(c, y, s, i, r, rem)
    requires Pow(2, r) > 0 && d == y + s[i + 1] % Pow(2, r) * Pow(2, 32 - r)
    ensures ShiftedDown(c + [d], s[i + 1] / Pow(2, r), s, i + 1, r, rem)
  {
    hide Pow, Value, W;
    var p, x: nat := Pow(2, r), s[i + 1];
    ValueStep(s, i + 1);
    ValueStep(c + [d], i);
    assert (c + [d])[..i] == c && (c + [d])[..i + 1] == c + [d];
    WStep(i);
    PowAdd(2, r, 32 - r);
    PowWord();
    DivModParts(x, p);
    DownAlgebra(p, Pow(2, 32 - r), Value(c), y, x % p, x / p, W(i), W(i + 1), d);
  }

  lemma DownAlgebra(p: nat, h: nat, v: nat, y: nat, lo: nat, hi: nat, w: nat, w1: nat, d: nat)
    requires p * h == 0x1_0000_0000 && w1 == 0x1_0000_0000 * w && d == y + lo * h
    ensures p * (v + d * w + hi * w1) == p * (v + y * w) + (p * hi + lo) * w1
  {
    MulAssoc(p, lo, h);
    MulAssoc(lo, p, h);
    assert p * (lo * h) == lo * 0x1_0000_0000;
    assert p * ((lo * h) * w) == (p * (lo * h)) * w;
    assert (lo * 0x1_0000_0000) * w == lo * w1;
    assert d * w == y * w + (lo * h) * w;
    assert p * (hi * w1) == (p * hi) * w1;
    assert p * (v + d * w + hi * w1) == p * (v + y * w) + p * ((lo * h) * w) + p * (hi * w1);
    assert (p * hi + lo) * w1 == (p * hi) * w1 + lo * w1;
  }

  /** The two parts of a word do not overlap. */
  lemma DownFits(y: nat, x: Word, r: nat, w: Word)
    requires 0 < r < 32 && Pow(2, r) > 0 && y == w / Pow(2, r)
    ensures 0 <= y + x % Pow(2, r) * Pow(2, 32 - r) < 0x1_0000_0000
  {
    hide Pow;
    var p, h := Pow(2, r), Pow(2, 32 - r);
    PowPos(2, 32 - r);
    PowAdd(2, r, 32 - r);
    PowWord();
    DivBounds(w, p);
    DivModParts(x, p);
    PartsFit(p, h, y, x % p, w);
  }

  lemma PartsFit(p: nat, h: nat, y: nat, lo: nat, w: nat)
    requires 0 < p && p * h == 0x1_0000_0000 && y * p <= w < 0x1_0000_0000 && lo < p
    ensures 0 <= y + lo * h < 0x1_0000_0000
  {
    if y >= h {
      MulLe(h, y, p);
    }
    MulLe(lo, p - 1, h);
    assert (p - 1) * h == 0x1_0000_0000 - h;
  }

  /** The words from number n on are the value with 32 * n bits dropped; r more bits are dropped from them. */
  lemma DroppedBits(was: seq<Word>, n: nat, r: nat, q: nat, rem: nat)
    requires n <= |was| && rem < Pow(2, r) && Pow(2, r) * q + rem == Value(was[n..])
    ensures Pow(2, 32 * n + r) > 0 && q == Value(was) / Pow(2, 32 * n + r)
  {
    hide Pow, Value, W;
    ValueAppend(was[..n], was[n..]);
    assert was[..n] + was[n..] == was;
    ValueBound(was[..n]);
    WIsPow2(n);
    PowAdd(2, 32 * n, r);
    PowPos(2, 32 * n + r);
    DroppedAlgebra(Value(was[..n]), W(n), Pow(2, r), q, rem, Pow(2, 32 * n + r), Value(was));
  }

  lemma DroppedAlgebra(low: nat, w: nat, p: nat, q: nat, rem: nat, k: nat, v: nat)
    requires low < w && rem < p && k == w * p && k > 0 && v == low + w * (p * q + rem)
    ensures q == v / k
  {
    MulLe(rem, p - 1, w);
    assert w * (p * q + rem) == q * (w * p) + w * rem;
    assert (p - 1) * w == w * p - w;
    DivModUnique(v, k, q, low + w * rem);
  }

  /** `*x1++ = (y | (*x << n)) & 0xffffffff; y = *x++ >> k;` */
  method ShiftOneDown(y: Word, x: Word, r: nat, ghost w: Word) returns (d: Word, y': Word)
    requires 0 < r < 32 && Pow(2, r) > 0 && y == w / Pow(2, r)
    ensures d == y + x % Pow(2, r) * Pow(2, 32 - r) && y' == x / Pow(2, r)
    ensures x > 0 && y' == 0 ==> d > 0
  {
    hide Pow;
    DownFits(y, x, r, w);
    PowPos(2, 32 - r);
    DivBounds(x, Pow(2, r));
    d := y + x % Pow(2, r) * Pow(2, 32 - r);
    y' := x / Pow(2, r);
    TopStays(x, Pow(2, r), Pow(2, 32 - r));
  }

  lemma TopStays(x: nat, p: nat, h: nat)
    requires 0 < p && 0 < h
    ensures x > 0 && x / p == 0 ==> x % p * h > 0
  {
    DivModParts(x, p);
    if x > 0 && x / p == 0 {
      MulLe(1, x % p, h);
    }
  }

  /** The loop for r odd bits, in place: what is read lies ahead of what is written. */
  method ShiftWordsDown(x: array<Word>, n: nat, wds: nat, r: nat) returns (y: Word)
    requires n < wds <= x.Length && 0 < r < 32
    modifies x
    ensures Pow(2, r) > 0
    ensures ShiftedDown(x[..wds - n - 1], y, old(x[n..wds]), wds - n - 1, r, old(x[n]) % Pow(2, r))
    ensures wds - n > 1 && old(x[wds - 1]) > 0 && y == 0 ==> x[wds - n - 2] > 0
  {
    hide Pow, ShiftedDown;
    ghost var was, s := x[..], x[n..wds];
    DownStart(s, r);
    y := x[n] / Pow(2, r);
    DivBounds(x[n], Pow(2, r));
    var i := 0;
    assert x[..0] == [];
    while n + i + 1 < wds
      invariant 0 <= i && n + i < wds && |s| == wds - n && y == s[i] / Pow(2, r)
      invariant ShiftedDown(x[..i], y, s, i, r, was[n] % Pow(2, r))
      invariant forall j :: i <= j < x.Length ==> x[j] == was[j]
      invariant i > 0 && s[i] > 0 && y == 0 ==> x[i - 1] > 0
    {
      assert x[n + i + 1] == s[i + 1];
      var d, y' := ShiftOneDown(y, x[n + i + 1], r, s[i]);
      DownStep(x[..i], y, s, i, r, was[n] % Pow(2, r), d);
      ghost var c := x[..i];
      x[i], y := d, y';
      assert x[..i + 1] == c + [d];
      i := i + 1;
    }
  }

  /** `rshift`: the number without its k low bits, in place. */
  method Rshift(b: Bigint, k: nat)
    requires b.Valid()
    modifies b`wds, b.x
    ensures b.Valid() && Pow(2, k) > 0 && b.Val() == old(b.Val()) / Pow(2, k) && b.wds <= old(b.wds)
  {
    hide Pow, Value, W;
    PowPos(2, k);
    var n, r := k / 32, k % 32;
    ghost var was := b.x[..b.wds];
    if n >= b.wds {
      AllDropped(was, n, r);
      b.wds := 0;
      b.x[0] := 0;
      NoWords();
      assert b.x[..0] == [];
      return;
    }
    DropWords(b, n, r);
  }

  lemma NoWords()
    ensures Value([]) == 0
  {
  }

  /** A shift by as many bits as there are, or more, leaves nothing. */
  lemma AllDropped(was: seq<Word>, n: nat, r: nat)
    requires n >= |was|
    ensures Pow(2, 32 * n + r) > 0 && Value(was) / Pow(2, 32 * n + r) == 0
  {
    hide Pow, Value, W;
    PowPos(2, 32 * n + r);
    ValueBound(was);
    WIsPow2(|was|);
    PowMono(2, 32 * |was|, 32 * n + r);
    DivModUnique(Value(was), Pow(2, 32 * n + r), 0, Value(was));
  }

  /** The plain copy when the shift is by whole words. */
  method MoveWordsDown(x: array<Word>, n: nat, wds: nat)
    requires n < wds <= x.Length
    modifies x
    ensures x[..wds - n] == old(x[n..wds])
  {
    ghost var was := x[..];
    var i := 0;
    while n + i < wds
      invariant 0 <= i && n + i <= wds && x[..i] == was[n..n + i]
      invariant forall j :: i <= j < x.Length ==> x[j] == was[j]
    {
      x[i] := x[n + i];
      i := i + 1;
    }
  }

  /** The other case: some word remains to be looked at. */
  method DropWords(b: Bigint, n: nat, r: nat)
    requires b.Valid() && n < b.wds && r < 32
    modifies b`wds, b.x
    ensures b.Valid() && Pow(2, 32 * n + r) > 0
    ensures b.Val() == old(b.Val()) / Pow(2, 32 * n + r) && b.wds <= old(b.wds)
  {
    hide Pow, Value, W, ShiftedDown;
    ghost var was := b.x[..b.wds];
    assert was[n..] == b.x[n..b.wds];
    if r == 0 {
      DropWhole(b, n);
      PowStep(2, 0);
      DroppedBits(was, n, 0, Value(was[n..]), 0);
    } else {
      DropOdd(b, n, r);
      DivModParts(was[n], Pow(2, r));
      DroppedBits(was, n, r, b.Val(), was[n] % Pow(2, r));
    }
  }

  method DropWhole(b: Bigint, n: nat)
    requires b.Valid() && n < b.wds
    modifies b`wds, b.x
    ensures b.Valid() && b.Val() == Value(old(b.x[n..b.wds])) && b.wds <= old(b.wds)
  {
    hide Value;
    MoveWordsDown(b.x, n, b.wds);
    b.wds := b.wds - n;
    assert b.wds > 1 ==> b.x[..b.wds][b.wds - 1] == old(b.x[n..b.wds])[b.wds - 1];
  }

  method DropOdd(b: Bigint, n: nat, r: nat)
    requires b.Valid() && n < b.wds && 0 < r < 32
    modifies b`wds, b.x
    ensures b.Valid() && b.wds <= old(b.wds) && Pow(2, r) > 0
    ensures Pow(2, r) * b.Val() + old(b.x[n]) % Pow(2, r) == Value(old(b.x[n..b.wds]))
  {
    hide Pow, Value, W, ShiftedDown;
    ghost var s := b.x[n..b.wds];
    var m := b.wds - n;
    var y := ShiftWordsDown(b.x, n, b.wds, r);
    TopDown(b.x[..m - 1], y, s, m - 1, r, s[0] % Pow(2, r));
    ghost var c := b.x[..m - 1];
    b.x[m - 1] := y;
    b.wds := if y != 0 then m else m - 1;
    assert b.x[..m] == c + [y] && b.x[..m - 1] == c;
  }

  /** The last word comes on top, unless it is zero. */
  lemma TopDown(c: seq<Word>, y: Word, s: seq<Word>, i: nat, r: nat, rem: nat)
    requires i + 1 == |s| && |c| == i && ShiftedDown(c, y, s, i, r, rem)
    ensures Pow(2, r) * Value(if y != 0 then c + [y] else c) + rem == Value(s)
  {
    hide Pow, Value, W;
    ValueStep(c + [y], i);
    assert (c + [y])[..i] == c && (c + [y])[..i + 1] == c + [y] && s[..i + 1] == s;
  }

  // any_on

  /** `any_on`: whether one of the low k bits is set. */
  method AnyOn(b: Bigint, k: nat) returns (any: bool)
    requires b.Valid()
    ensures Pow(2, k) > 0 && (any <==> b.Val() % Pow(2, k) != 0)
  {
    hide Pow, Value, W;
    PowPos(2, k);
    var n, r := k / 32, k % 32;
    ghost var s := b.x[..b.wds];
    if n > b.wds {
      n := b.wds;
    } else if n < b.wds && r != 0 {
      PowPos(2, r);
      LowBits(s, n, r);
      if b.x[n] % Pow(2, r) != 0 {
        return true;
      }
    } else if n < b.wds {
      PowStep(2, 0);
      LowBits(s, n, 0);
    }
    if k / 32 >= b.wds {
      AllBits(s, k);
    }
    any := AnyWord(b.x, n);
    assert b.x[..n] == s[..n];
  }

  /** `while(x > x0) if (*--x) return 1;` */
  method AnyWord(x: array<Word>, n: nat) returns (any: bool)
    requires n <= x.Length
    ensures any <==> Value(x[..n]) != 0
  {
    var i := n;
    any := false;
    while i > 0 && !any
      invariant 0 <= i <= n
      invariant !any ==> forall j :: i <= j < n ==> x[j] == 0
      invariant any ==> i < n && x[i] != 0
      decreases i
    {
      i := i - 1;
      any := x[i] != 0;
    }
    if any {
      NotZero(x[..n], i);
    } else {
      ValueZeros(x[..n]);
    }
  }

  lemma NotZero(s: seq<Word>, i: nat)
    requires i < |s| && s[i] != 0
    ensures Value(s) > 0
  {
    hide Value, W;
    ValueStep(s, i);
    WStep(i);
    MulLt(0, s[i], W(i));
    ValueAppend(s[..i + 1], s[i + 1..]);
    assert s[..i + 1] + s[i + 1..] == s;
    MulLe(0, Value(s[i + 1..]), W(i + 1));
  }

  /** The low 32 * n + r bits: n words and r bits of the next. */
  lemma LowBits(s: seq<Word>, n: nat, r: nat)
    requires n < |s| && r < 32 && Pow(2, r) > 0
    ensures Pow(2, 32 * n + r) > 0
    ensures Value(s) % Pow(2, 32 * n + r) == Value(s[..n]) + W(n) * (s[n] % Pow(2, r))
    ensures Value(s) % Pow(2, 32 * n + r) != 0 <==> Value(s[..n]) != 0 || s[n] % Pow(2, r) != 0
  {
    hide Pow, Value, W;
    var low, x: nat, rest := s[..n], s[n], s[n + 1..];
    ValueStep(s, n);
    ValueAppend(s[..n + 1], rest);
    assert s[..n + 1] + rest == s;
    WStep(n);
    ValueBound(low);
    WIsPow2(n);
    PowAdd(2, 32 * n, r);
    PowPos(2, 32 * n + r);
    PowPos(2, 32 - r);
    PowAdd(2, r, 32 - r);
    PowWord();
    DivModParts(x, Pow(2, r));
    LowAlgebra(Value(low), W(n), W(n + 1), Pow(2, r), Pow(2, 32 - r), x, x / Pow(2, r), x % Pow(2, r), Value(rest),
      Pow(2, 32 * n + r), Value(s));
  }

  lemma LowAlgebra(low: nat, w: nat, w1: nat, p: nat, h: nat, x: nat, q: nat, rem: nat, rest: nat, k: nat, v: nat)
    requires low < w && w1 == 0x1_0000_0000 * w && p * h == 0x1_0000_0000 && k == w * p && k > 0
    requires x == p * q + rem && rem < p && v == low + x * w + w1 * rest
    ensures v % k == low + w * rem && (v % k != 0 <==> low != 0 || rem != 0)
  {
    HighPart(p, h, w, w1, rest);
    Sum(low, w, p, q, rem, h * rest, x, w1 * rest, v);
    Room(low, w, p, rem);
    DivModUnique(v, k, q + h * rest, low + w * rem);
  }

  lemma HighPart(p: nat, h: nat, w: nat, w1: nat, rest: nat)
    requires w1 == 0x1_0000_0000 * w && p * h == 0x1_0000_0000
    ensures w1 * rest == (h * rest) * (w * p)
  {
    MulSwap(h, rest, p, w);
    MulEq(h * p, 0x1_0000_0000, rest * w);
  }

  lemma MulEq(a: int, b: int, c: int)
    requires a == b
    ensures a * c == b * c
  {
  }

  lemma Sum(low: nat, w: nat, p: nat, q: nat, rem: nat, hr: nat, x: nat, high: nat, v: nat)
    requires x == p * q + rem && high == hr * (w * p) && v == low + x * w + high
    ensures v == (q + hr) * (w * p) + (low + w * rem)
  {
    MulEq(x, p * q + rem, w);
  }

  lemma Room(low: nat, w: nat, p: nat, rem: nat)
    requires low < w && rem < p
    ensures low + w * rem < w * p && (low + w * rem != 0 <==> low != 0 || rem != 0)
  {
    MulLe(rem, p - 1, w);
    assert (p - 1) * w == w * p - w;
    if rem > 0 {
      MulLe(1, rem, w);
    }
  }

  lemma AllBits(s: seq<Word>, k: nat)
    requires k / 32 >= |s|
    ensures Pow(2, k) > 0 && Value(s) % Pow(2, k) == Value(s)
  {
    hide Pow, Value, W;
    PowPos(2, k);
    ValueBound(s);
    WIsPow2(|s|);
    PowMono(2, 32 * |s|, k);
    DivModUnique(Value(s), Pow(2, k), 0, Value(s));
  }

  // s2b

  /** The value of a digit character. */
  function CharValue(c: char): Digit {
    if '0' <= c <= '9' then (c - '0') as int else 0
  }

  /** The first n digits of a text with the point behind the first nd0 of them, dplen characters long. */
  function DigitsOf(s: string, nd0: nat, dplen: nat, n: nat): (ds: seq<Digit>)
    requires n <= |s| && (n > nd0 ==> n + dplen <= |s|)
    ensures |ds| == n
  {
    seq<Digit>(n, i requires 0 <= i < n => CharValue(if i < nd0 then s[i] else s[i + dplen]))
  }

  lemma DigitsStep(s: string, nd0: nat, dplen: nat, n: nat)
    requires n < |s| && (n >= nd0 ==> n + 1 + dplen <= |s|)
    ensures DigitsOf(s, nd0, dplen, n + 1) ==
      DigitsOf(s, nd0, dplen, n) + [CharValue(if n < nd0 then s[n] else s[n + dplen])]
  {
  }

  /** `s2b`: the digits as a number, y9 being that of the first nine. */
  method S2b(s: string, nd0: nat, nd: nat, y9: Word, dplen: nat) returns (b: Bigint)
    requires nd0 <= nd && nd + dplen <= |s|
    requires y9 == Num(DigitsOf(s, nd0, dplen, Min(9, nd)))
    ensures b.Valid() && fresh(b) && fresh(b.x) && b.Val() == Num(DigitsOf(s, nd0, dplen, nd))
  {
    hide Value, Num, DigitsOf;
    b := I2b(y9);
    if nd < 9 {
      return;
    }
    var i, at := 9, 9;
    if 9 < nd0 {
      while i < nd0
        invariant 9 <= i <= nd0 && at == i && b.Valid() && b.wds > 0 && fresh(b) && fresh(b.x)
        invariant b.Val() == Num(DigitsOf(s, nd0, dplen, i))
      {
        DigitsStep(s, nd0, dplen, i);
        NumAppend(DigitsOf(s, nd0, dplen, i), CharValue(s[at]));
        b := Multadd(b, 10, CharValue(s[at]));
        i, at := i + 1, at + 1;
      }
      at := at + dplen;
    } else {
      at := at + dplen;
    }
    while i < nd
      invariant 9 <= i <= nd && i >= nd0 && at == i + dplen && b.Valid() && b.wds > 0 && fresh(b) && fresh(b.x)
      invariant b.Val() == Num(DigitsOf(s, nd0, dplen, i))
    {
      DigitsStep(s, nd0, dplen, i);
      NumAppend(DigitsOf(s, nd0, dplen, i), CharValue(s[at]));
      b := Multadd(b, 10, CharValue(s[at]));
      i, at := i + 1, at + 1;
    }
  }
}
