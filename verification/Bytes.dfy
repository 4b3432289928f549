/** The bytes of an image: little-endian words inside blocks, and the bits of the block bitmap. */
module Bytes {
  type Byte = x: int | 0 <= x < 256
  type Uint = x: int | 0 <= x < 0x1_0000_0000

  /** `((uint *)b)[k]` */
  function GetWord(b: seq<Byte>, k: nat): (w: Uint)
    requires 4 * k + 4 <= |b|
  {
    (b[4 * k] as int) + 0x100 * (b[4 * k + 1] as int) + 0x1_0000 * (b[4 * k + 2] as int) + 0x100_0000 * (b[4 * k + 3] as int)
  }

  function SetWord(b: seq<Byte>, k: nat, w: Uint): (r: seq<Byte>)
    requires 4 * k + 4 <= |b|
    ensures |r| == |b|
  {
    b[4 * k := w % 0x100][4 * k + 1 := w / 0x100 % 0x100][4 * k + 2 := w / 0x1_0000 % 0x100][
      4 * k + 3 := w / 0x100_0000]
  }

  lemma WordSet(b: seq<Byte>, k: nat, w: Uint, j: nat)
    requires 4 * k + 4 <= |b| && 4 * j + 4 <= |b|
    ensures GetWord(SetWord(b, k, w), j) == if j == k then w else GetWord(b, j)
  {
    var r := SetWord(b, k, w);
    if j < k {
      assert 4 * j + 3 < 4 * k;
    } else if j > k {
      assert 4 * k + 3 < 4 * j;
    } else {
      WordParts(w);
    }
  }

  /** A zero is stored where a zero is. */
  lemma ZeroStored(b: seq<Byte>, k: nat)
    requires 4 * k + 4 <= |b| && GetWord(b, k) == 0
    ensures SetWord(b, k, 0) == b
  {
  }

  lemma WordParts(w: Uint)
    ensures w % 0x100 + 0x100 * (w / 0x100 % 0x100) + 0x1_0000 * (w / 0x1_0000 % 0x100)
      + 0x100_0000 * (w / 0x100_0000) == w
  {
    var a, b := w / 0x100, w / 0x1_0000;
    assert b == a / 0x100 && w / 0x100_0000 == b / 0x100;
  }

  // Bits

  /** `1 << i` in a byte */
  function Mask(i: nat): bv8
    requires i < 8
  {
    match i case 0 => 1 case 1 => 2 case 2 => 4 case 3 => 8 case 4 => 16 case 5 => 32 case 6 => 64 case _ => 128
  }

  lemma MaskShifts(i: nat)
    requires i < 8
    ensures Mask(i) == 1 << i
  {
  }

  predicate Bit(m: seq<bv8>, b: nat)
    requires b < 8 * |m|
  {
    m[b / 8] & Mask(b % 8) != 0
  }

  function SetBit(m: seq<bv8>, b: nat): (r: seq<bv8>)
    requires b < 8 * |m|
    ensures |r| == |m|
  {
    m[b / 8 := m[b / 8] | Mask(b % 8)]
  }

  function ClearBit(m: seq<bv8>, b: nat): (r: seq<bv8>)
    requires b < 8 * |m|
    ensures |r| == |m|
  {
    m[b / 8 := m[b / 8] & !Mask(b % 8)]
  }

  ghost function UsedSet(m: seq<bv8>): set<nat> {
    set b: nat | b < 8 * |m| && Bit(m, b)
  }

  lemma OrMask(x: bv8, i: nat, j: nat)
    requires i < 8 && j < 8
    ensures (x | Mask(i)) & Mask(j) != 0 <==> i == j || x & Mask(j) != 0
  {
    OrBits(x, Mask(i), Mask(j));
    MaskMask(i, j);
  }

  lemma OrBits(x: bv8, p: bv8, q: bv8)
    ensures (x | p) & q == (x & q) | (p & q)
    ensures p & q == 0 ==> (x | p) & q == x & q
    ensures p == q ==> (x | p) & q == q
  {
  }

  lemma AndMask(x: bv8, i: nat, j: nat)
    requires i < 8 && j < 8
    ensures (x & !Mask(i)) & Mask(j) != 0 <==> i != j && x & Mask(j) != 0
  {
    AndBits(x, Mask(i), Mask(j));
    MaskMask(i, j);
  }

  lemma AndBits(x: bv8, p: bv8, q: bv8)
    ensures p & q == 0 ==> (x & !p) & q == x & q
    ensures p == q ==> (x & !p) & q == 0
  {
  }

  lemma MaskMask(i: nat, j: nat)
    requires i < 8 && j < 8
    ensures Mask(i) != 0 && (i != j ==> Mask(i) & Mask(j) == 0)
  {
  }

  lemma Place(b: nat, c: nat)
    ensures b / 8 == c / 8 && b % 8 == c % 8 ==> b == c
  {
  }

  lemma BitIs(m: seq<bv8>, b: nat)
    requires b < 8 * |m|
    ensures Bit(m, b) <==> m[b / 8] & Mask(b % 8) != 0
  {
  }

  lemma BytesChanged(m: seq<bv8>, b: nat)
    requires b < 8 * |m|
    ensures SetBit(m, b) == m[b / 8 := m[b / 8] | Mask(b % 8)]
    ensures ClearBit(m, b) == m[b / 8 := m[b / 8] & !Mask(b % 8)]
  {
  }

  lemma BitSet(m: seq<bv8>, b: nat, c: nat)
    requires b < 8 * |m| && c < 8 * |m|
    ensures Bit(SetBit(m, b), c) <==> c == b || Bit(m, c)
  {
    hide *;
    Place(b, c);
    OrMask(m[b / 8], b % 8, c % 8);
    BitIs(m, c);
    BitIs(SetBit(m, b), c);
    BytesChanged(m, b);
  }

  lemma BitCleared(m: seq<bv8>, b: nat, c: nat)
    requires b < 8 * |m| && c < 8 * |m|
    ensures Bit(ClearBit(m, b), c) <==> c != b && Bit(m, c)
  {
    hide *;
    Place(b, c);
    AndMask(m[b / 8], b % 8, c % 8);
    BitIs(m, c);
    BitIs(ClearBit(m, b), c);
    BytesChanged(m, b);
  }

  lemma SetBitUsed(m: seq<bv8>, b: nat)
    requires b < 8 * |m|
    ensures UsedSet(SetBit(m, b)) == UsedSet(m) + {b}
  {
    hide Bit, SetBit;
    var r := SetBit(m, b);
    forall c: nat | c < 8 * |m|
      ensures Bit(r, c) <==> c == b || Bit(m, c)
    {
      BitSet(m, b, c);
    }
  }

  lemma ClearBitUsed(m: seq<bv8>, b: nat)
    requires b < 8 * |m|
    ensures UsedSet(ClearBit(m, b)) == UsedSet(m) - {b}
  {
    hide Bit, ClearBit;
    var r := ClearBit(m, b);
    forall c: nat | c < 8 * |m|
      ensures Bit(r, c) <==> c != b && Bit(m, c)
    {
      BitCleared(m, b, c);
    }
  }
}
