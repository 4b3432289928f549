/** Files seen from outside, as bytes. */
module FsFiles {
  import opened Bytes
  import opened FsDisks

  // Free blocks and blocks needed

  ghost function FreeBlocks(d: Disk): set<nat> {
    set b: nat | b < d.g.first + d.g.nblocks && d.g.first <= b && b !in d.used
  }

  /** The number of blocks among [lo, hi) of file i that are holes. */
  ghost function Holes(d: Disk, i: nat, lo: nat, hi: nat): nat
    requires i < |d.inodes| && hi <= MAXFILE
    decreases hi - lo
  {
    if lo >= hi then 0 else (if Ref(d, i, lo) == 0 then 1 else 0) + Holes(d, i, lo + 1, hi)
  }

  /** What it takes from the free blocks to have none: the holes, and perhaps a table. */
  ghost function Need(d: Disk, i: nat, lo: nat, hi: nat): nat
    requires i < |d.inodes| && hi <= MAXFILE
  {
    Holes(d, i, lo, hi) + if lo < hi && hi > NDIRECT && Ref(d, i, TABLE) == 0 then 1 else 0
  }

  /** The addresses that may come up when blocks [lo, hi) are looked for. */
  predicate MayGrow(m: nat, lo: nat, hi: nat) {
    lo <= m < hi || (m == TABLE && lo < hi && hi > NDIRECT)
  }

  /** Addresses of file i among those were added, and nothing else happened to inodes and addresses. */
  ghost predicate GrownRefs(d: Disk, d': Disk, i: nat, lo: nat, hi: nat) {
    && SameShape(d, d') && SameMeta(d, d')
    && forall j: nat, m: nat :: InFile(d, j, m) ==>
         Ref(d', j, m) == Ref(d, j, m) || (Ref(d, j, m) == 0 && j == i && MayGrow(m, lo, hi))
  }

  ghost predicate Grown(d: Disk, d': Disk, i: nat, lo: nat, hi: nat) {
    GrownRefs(d, d', i, lo, hi) && SameData(d, d')
  }

  lemma GrownTrans(d: Disk, e: Disk, d': Disk, i: nat, lo: nat, mid: nat, hi: nat)
    requires GrownRefs(d, e, i, lo, mid) && GrownRefs(e, d', i, mid, hi) && lo <= mid <= hi
    ensures GrownRefs(d, d', i, lo, hi)
  {
    hide Ref;
    forall j: nat, m: nat | InFile(d, j, m)
      ensures Ref(d', j, m) == Ref(d, j, m) || (Ref(d, j, m) == 0 && j == i && MayGrow(m, lo, hi))
    {
      assert Ref(e, j, m) == Ref(d, j, m) || (Ref(d, j, m) == 0 && j == i && MayGrow(m, lo, mid));
    }
  }

  lemma {:induction false} HolesSame(d: Disk, d': Disk, i: nat, lo: nat, hi: nat)
    requires i < |d.inodes| && SameShape(d, d') && hi <= MAXFILE
    requires forall m: nat :: lo <= m < hi ==> Ref(d', i, m) == Ref(d, i, m)
    ensures Holes(d', i, lo, hi) == Holes(d, i, lo, hi)
    decreases hi - lo
  {
    hide Ref;
    if lo < hi {
      HolesSame(d, d', i, lo + 1, hi);
    }
  }

  /** Getting block n costs what it needs itself; the blocks behind it need as much as before. */
  lemma NeedStep(d: Disk, d': Disk, i: nat, n: nat, hi: nat)
    requires i < |d.inodes| && n < hi <= MAXFILE && GrownRefs(d, d', i, n, n + 1) && Ref(d', i, n) != 0
    ensures Need(d, i, n, hi) == Need(d, i, n, n + 1) + Need(d', i, n + 1, hi)
  {
    assert NDIRECT <= n ==> Ref(d', i, TABLE) != 0;
    assert InFile(d, i, TABLE);
    hide Ref;
    HolesSame(d, d', i, n + 1, hi);
    assert Holes(d, i, n + 1, n + 1) == 0;
  }

  // Bytes

  /** The number of blocks that n bytes touch. */
  function Ceil(n: nat): nat {
    (n + BSIZE - 1) / BSIZE
  }

  /** The byte at position p of file i. */
  function At(d: Disk, i: nat, p: nat): Byte
    requires i < |d.inodes| && p < MAXFILESIZE
  {
    Data(d, i, p / BSIZE)[p % BSIZE]
  }

  /** n bytes of file i from position off */
  function Slice(d: Disk, i: nat, off: nat, n: nat): (s: seq<Byte>)
    requires i < |d.inodes| && off + n <= MAXFILESIZE
    ensures |s| == n && forall k :: 0 <= k < n ==> s[k] == At(d, i, off + k)
  {
    seq<Byte>(n, k requires 0 <= k < n => At(d, i, off + k))
  }

  /** The contents of file i. */
  function Contents(d: Disk, i: nat): (s: seq<Byte>)
    requires i < |d.inodes| && d.inodes[i].size <= MAXFILESIZE
  {
    Slice(d, i, 0, d.inodes[i].size)
  }

  /** File i has no block behind its end. */
  ghost predicate Snug(d: Disk, i: nat)
    requires i < |d.inodes|
  {
    var k := Ceil(d.inodes[i].size);
    && d.inodes[i].size <= MAXFILESIZE
    && (forall m: nat :: k <= m < MAXFILE ==> Ref(d, i, m) == 0)
    && (k <= NDIRECT ==> Ref(d, i, TABLE) == 0)
  }

  lemma SameDataAt(d: Disk, d': Disk, i: nat)
    requires i < |d.inodes| && SameShape(d, d') && SameData(d, d')
    ensures forall p: nat :: p < MAXFILESIZE ==> At(d', i, p) == At(d, i, p)
  {
    forall p: nat | p < MAXFILESIZE
      ensures At(d', i, p) == At(d, i, p)
    {
      assert InFile(d, i, p / BSIZE);
    }
  }

  // Going through a range of bytes block by block

  /** The first block not yet reached when t bytes from position off on are done. */
  function Next(off: nat, t: nat): nat {
    if t == 0 then off / BSIZE else Ceil(off + t)
  }

  /** The bytes to handle in the next step. */
  function Chunk(off: nat, rest: nat): nat {
    var room := BSIZE - off % BSIZE;
    if rest < room then rest else room
  }

  /** t bytes from position off of file i were gone through: the blocks up to there exist now, and the free blocks
      went down by just what they needed. */
  ghost predicate Progress(d: Disk, d': Disk, i: nat, off: nat, t: nat, hi: nat)
    requires i < |d.inodes| && hi <= MAXFILE
  {
    var lo, k := off / BSIZE, Next(off, t);
    && k <= hi && GrownRefs(d, d', i, lo, k)
    && (forall m: nat :: lo <= m < k ==> Ref(d', i, m) != 0)
    && |FreeBlocks(d')| + Need(d, i, lo, hi) == |FreeBlocks(d)| + Need(d', i, k, hi)
  }

  lemma ProgressStart(d: Disk, i: nat, off: nat, hi: nat)
    requires i < |d.inodes| && off / BSIZE <= hi <= MAXFILE
    ensures Progress(d, d, i, off, 0, hi)
  {
  }

  /** One step of block n = (off + t) / BSIZE. */
  lemma ProgressStep(d: Disk, e: Disk, d': Disk, i: nat, off: nat, t: nat, total: nat, n: nat, hi: nat)
    requires i < |d.inodes| && t < total && off + total <= MAXFILESIZE && hi == Ceil(off + total) && hi <= MAXFILE
    requires Progress(d, e, i, off, t, hi)
    requires n == (off + t) / BSIZE && (t == 0 || (off + t) % BSIZE == 0)
    requires GrownRefs(e, d', i, n, n + 1) && Ref(d', i, n) != 0
    requires n < MAXFILE && |FreeBlocks(d')| + Need(e, i, n, n + 1) == |FreeBlocks(e)|
    ensures var c := Chunk(off + t, total - t);
      0 < c <= total - t && Progress(d, d', i, off, t + c, hi) && (t + c == total || (off + t + c) % BSIZE == 0)
  {
    ChunkBlock(off, t, total, n);
    hide Ref, FreeBlocks, Need;
    var lo := off / BSIZE;
    GrownTrans(d, e, d', i, lo, n, n + 1);
    NeedStep(e, d', i, n, hi);
    forall m: nat | lo <= m < n + 1
      ensures Ref(d', i, m) != 0
    {
      assert InFile(e, i, m);
    }
  }

  lemma ChunkBlock(off: nat, t: nat, total: nat, n: nat)
    requires t < total && n == (off + t) / BSIZE && (t == 0 || (off + t) % BSIZE == 0)
    ensures var c := Chunk(off + t, total - t);
      && 0 < c <= total - t && Next(off, t) == n && Next(off, t + c) == n + 1
      && n < Ceil(off + total) && (t + c == total || (off + t + c) % BSIZE == 0)
      && (t + c == total ==> n + 1 == Ceil(off + total))
      && (off + t) % BSIZE + c <= BSIZE && n * BSIZE + (off + t) % BSIZE == off + t
  {
  }

  /** A step that finds no free block: there were fewer than the whole range needs. */
  lemma ProgressStuck(d: Disk, e: Disk, d': Disk, i: nat, off: nat, t: nat, total: nat, n: nat, hi: nat)
    requires i < |d.inodes| && t < total && off + total <= MAXFILESIZE && hi == Ceil(off + total) && hi <= MAXFILE
    requires Progress(d, e, i, off, t, hi)
    requires n == (off + t) / BSIZE && (t == 0 || (off + t) % BSIZE == 0)
    requires GrownRefs(e, d', i, n, n + 1)
    requires n < MAXFILE && |FreeBlocks(e)| < Need(e, i, n, n + 1)
    ensures |FreeBlocks(d)| < Need(d, i, off / BSIZE, hi) && GrownRefs(d, d', i, off / BSIZE, hi)
  {
    ChunkBlock(off, t, total, n);
    NeedMore(e, i, n, hi);
    hide Ref, FreeBlocks, Need;
    GrownTrans(d, e, d', i, off / BSIZE, n, n + 1);
    Widen(d, d', i, off / BSIZE, n + 1, hi);
  }

  lemma NeedMore(d: Disk, i: nat, n: nat, hi: nat)
    requires i < |d.inodes| && n < hi <= MAXFILE
    ensures Need(d, i, n, n + 1) <= Need(d, i, n, hi)
  {
    assert Holes(d, i, n + 1, n + 1) == 0;
  }

  lemma Widen(d: Disk, d': Disk, i: nat, lo: nat, hi: nat, hi': nat)
    requires GrownRefs(d, d', i, lo, hi) && hi <= hi'
    ensures GrownRefs(d, d', i, lo, hi')
  {
  }

  /** File i reads as before except for the bytes s at position off; every other file has the data it had. */
  ghost predicate Patched(d: Disk, d': Disk, i: nat, off: nat, s: seq<Byte>) {
    && SameShape(d, d') && i < |d.inodes|
    && (forall p: nat :: p < MAXFILESIZE ==>
         At(d', i, p) == if off <= p < off + |s| then s[p - off] else At(d, i, p))
    && forall j: nat, m: nat :: InFile(d, j, m) && m < TABLE && j != i ==> Data(d', j, m) == Data(d, j, m)
  }

  function Splice(b: Block, o: nat, s: seq<Byte>): (r: Block)
    requires o + |s| <= BSIZE
  {
    b[..o] + s + b[o + |s|..]
  }

  lemma PatchedStill(d: Disk, e: Disk, d': Disk, i: nat, off: nat, s: seq<Byte>)
    requires Patched(d, e, i, off, s) && SameShape(e, d') && SameData(e, d')
    ensures Patched(d, d', i, off, s)
  {
    SameDataAt(e, d', i);
    hide At, Data;
  }

  lemma PatchStep(d: Disk, e: Disk, d': Disk, i: nat, off: nat, s: seq<Byte>, n: nat, o: nat, c: seq<Byte>)
    requires Patched(d, e, i, off, s) && SameShape(e, d') && n < TABLE
    requires n * BSIZE + o == off + |s| && o < BSIZE && o + |c| <= BSIZE
    requires Data(d', i, n) == Splice(Data(e, i, n), o, c)
    requires forall j: nat, m: nat :: InFile(e, j, m) && m < TABLE && (j != i || m != n) ==> Data(d', j, m) == Data(e, j, m)
    ensures Patched(d, d', i, off, s + c)
  {
    hide Data;
    forall p: nat | p < MAXFILESIZE
      ensures At(d', i, p) == if off <= p < off + |s + c| then (s + c)[p - off] else At(d, i, p)
    {
      assert InFile(e, i, p / BSIZE);
      assert At(e, i, p) == if off <= p < off + |s| then s[p - off] else At(d, i, p);
      if p / BSIZE == n {
        var q := p % BSIZE;
        assert p == n * BSIZE + q && p - off - |s| == q - o;
        assert At(d', i, p) == if o <= q < o + |c| then c[q - o] else At(e, i, p);
      } else {
        assert At(d', i, p) == At(e, i, p);
      }
    }
  }

  // Whole files

  /** File j is as it was: inode, addresses, data. */
  ghost predicate SameFile(d: Disk, d': Disk, j: nat)
    requires SameShape(d, d') && j < |d.inodes|
  {
    && Meta(d'.inodes[j]) == Meta(d.inodes[j])
    && (forall m: nat :: m <= TABLE ==> Ref(d', j, m) == Ref(d, j, m))
    && forall m: nat :: m < TABLE ==> Data(d', j, m) == Data(d, j, m)
  }

  ghost predicate OthersKept(d: Disk, d': Disk, i: nat) {
    SameShape(d, d') && forall j: nat :: j < |d.inodes| && j != i ==> SameFile(d, d', j)
  }

  /** A file that is as it was has the contents it had, and none of its blocks came or went. */
  lemma SameFileContents(d: Disk, d': Disk, j: nat)
    requires SameShape(d, d') && j < |d.inodes| && SameFile(d, d', j)
    ensures Snug(d', j) <==> Snug(d, j)
    ensures Full(d', j) <==> Full(d, j)
    ensures d.inodes[j].size <= MAXFILESIZE ==> Contents(d', j) == Contents(d, j)
  {
    hide Ref, Data;
    if d.inodes[j].size <= MAXFILESIZE {
      forall p: nat | p < d.inodes[j].size
        ensures At(d', j, p) == At(d, j, p)
      {
        assert Data(d', j, p / BSIZE) == Data(d, j, p / BSIZE);
      }
    }
  }

  /** File i has a block for every byte. */
  ghost predicate Full(d: Disk, i: nat)
    requires i < |d.inodes|
  {
    forall m: nat :: m < Ceil(d.inodes[i].size) && m < MAXFILE ==> Ref(d, i, m) != 0
  }

  /** `ip->size = size` */
  function Resize(d: Disk, i: nat, size: Uint): (d': Disk)
    requires i < |d.inodes|
    ensures SameShape(d, d')
  {
    d.(inodes := d.inodes[i := d.inodes[i].(size := size)])
  }

  lemma ResizedRefs(d: Disk, i: nat, size: Uint)
    requires i < |d.inodes|
    ensures FreeBlocks(Resize(d, i, size)) == FreeBlocks(d)
    ensures forall j: nat, m: nat :: InFile(d, j, m) ==>
      Ref(Resize(d, i, size), j, m) == Ref(d, j, m) && Data(Resize(d, i, size), j, m) == Data(d, j, m)
  {
  }

  lemma Resized(d: Disk, owner: map<nat, Place>, i: nat, size: Uint)
    requires i < |d.inodes|
    ensures Accounted(Resize(d, i, size), owner) <==> Accounted(d, owner)
  {
    var d' := Resize(d, i, size);
    ResizedRefs(d, i, size);
    hide Ref;
    if Accounted(d, owner) {
      SameRefs(d, d', owner);
    }
    if Accounted(d', owner) {
      SameRefs(d', d, owner);
    }
  }

  /** Contents c with s at position off, which may reach over the end. */
  function Overlay(c: seq<Byte>, off: nat, s: seq<Byte>): (r: seq<Byte>)
    requires off <= |c|
  {
    c[..off] + s + if off + |s| <= |c| then c[off + |s|..] else []
  }

  /** What patching means for the contents. */
  lemma PatchedContents(d: Disk, d': Disk, i: nat, off: nat, s: seq<Byte>)
    requires Patched(d, d', i, off, s) && off <= d.inodes[i].size <= MAXFILESIZE && off + |s| <= MAXFILESIZE
    requires d'.inodes[i].size as int == if off + |s| > d.inodes[i].size then off + |s| else d.inodes[i].size
    ensures Contents(d', i) == Overlay(Contents(d, i), off, s)
  {
    hide At;
    var c := Contents(d', i);
    forall p: nat | p < |c|
      ensures c[p] == Overlay(Contents(d, i), off, s)[p]
    {
      assert c[p] == At(d', i, 0 + p);
    }
  }

  /** The end of `iwrite`: blocks have come up, bytes were patched, and the size was set. */
  lemma WriteDone(d: Disk, e: Disk, d': Disk, i: nat, off: nat, s: seq<Byte>, hi: nat, size: Uint)
    requires GrownRefs(d, e, i, off / BSIZE, hi) && Patched(d, e, i, off, s) && d' == Resize(e, i, size)
    requires forall j: nat, m: nat :: InFile(d, j, m) ==> Ref(d', j, m) == Ref(e, j, m) && Data(d', j, m) == Data(e, j, m)
    ensures Patched(d, d', i, off, s) && OthersKept(d, d', i)
    ensures Meta(d'.inodes[i]) == Meta(d.inodes[i].(size := size))
  {
    hide Ref, Data;
    PatchedStill(d, e, d', i, off, s);
    assert Meta(e.inodes[i]) == Meta(d.inodes[i]);
    forall j: nat | j < |d.inodes| && j != i
      ensures SameFile(d, d', j)
    {
      assert forall m: nat :: m <= TABLE ==> InFile(d, j, m);
    }
  }

  /** Addresses of file i among those came up, and none of its went. */
  ghost predicate Grew(d: Disk, d': Disk, i: nat, lo: nat, hi: nat) {
    && i < |d.inodes| && i < |d'.inodes|
    && forall m: nat :: m <= TABLE ==> Ref(d', i, m) == Ref(d, i, m) || (Ref(d, i, m) == 0 && MayGrow(m, lo, hi))
  }

  lemma GrewResized(d: Disk, e: Disk, d': Disk, i: nat, lo: nat, hi: nat)
    requires GrownRefs(d, e, i, lo, hi) && i < |d.inodes| && |d'.inodes| == |e.inodes|
    requires forall j: nat, m: nat :: InFile(d, j, m) ==> Ref(d', j, m) == Ref(e, j, m)
    ensures Grew(d, d', i, lo, hi)
  {
    hide Ref;
    forall m: nat | m <= TABLE
      ensures Ref(d', i, m) == Ref(d, i, m) || (Ref(d, i, m) == 0 && MayGrow(m, lo, hi))
    {
      assert InFile(d, i, m);
    }
  }

  /** Files without blocks behind the end, or without holes, stay so when they are written to. */
  lemma WriteTidy(d: Disk, e: Disk, d': Disk, i: nat, off: nat, n: nat, size: Uint)
    requires i < |d.inodes| && off <= d.inodes[i].size <= MAXFILESIZE && off + n <= MAXFILESIZE
    requires size as int == if off + n > d.inodes[i].size then off + n else d.inodes[i].size
    requires GrownRefs(d, e, i, off / BSIZE, Next(off, n)) && d' == Resize(e, i, size)
    requires forall k: nat :: off / BSIZE <= k < Next(off, n) ==> Ref(e, i, k) != 0
    requires forall j: nat, m: nat :: InFile(d, j, m) ==> Ref(d', j, m) == Ref(e, j, m)
    ensures Snug(d, i) ==> Snug(d', i)
    ensures Full(d, i) ==> Full(d', i)
  {
    hide Ref;
    assert forall m: nat :: m <= TABLE ==> InFile(d, i, m);
  }

  // Cutting a file

  /** The blocks of file i among [lo, hi). */
  ghost function Blocks(d: Disk, i: nat, lo: nat, hi: nat): set<nat>
    requires i < |d.inodes| && hi <= MAXFILE
  {
    set m: nat | lo <= m < hi && Ref(d, i, m) != 0 :: Ref(d, i, m) as int
  }

  /** Blocks [lo, hi) of file i were given back and nothing else changed. */
  ghost predicate CutAway(d: Disk, d': Disk, i: nat, lo: nat, hi: nat)
    requires i < |d.inodes| && hi <= MAXFILE
  {
    && SameShape(d, d') && SameMeta(d, d') && d'.used == d.used - Blocks(d, i, lo, hi)
    && (forall j: nat, m: nat :: InFile(d, j, m) ==>
          Ref(d', j, m) == if j == i && lo <= m < hi then 0 else Ref(d, j, m))
    && forall j: nat, m: nat :: InFile(d, j, m) && m < TABLE && !(j == i && lo <= m < hi) ==>
         Data(d', j, m) == Data(d, j, m)
  }

  /** Clearing the address of a hole changes nothing. */
  lemma HoleCleared(d: Disk, i: nat, m: nat)
    requires Settable(d, i, m) && Ref(d, i, m) == 0
    ensures SetRef(d, i, m, 0) == d
  {
    var a := d.inodes[i].addrs;
    if m < NDIRECT {
      assert a[m := 0] == a;
    } else if m == TABLE {
      assert a[NDIRECT := 0] == a;
    } else {
      ZeroStored(d.blocks[a[NDIRECT]], m - NDIRECT);
    }
  }

  lemma CutNothing(d: Disk, i: nat, lo: nat)
    requires i < |d.inodes| && lo <= MAXFILE
    ensures CutAway(d, d, i, lo, lo)
  {
  }

  lemma CutStep(d: Disk, e: Disk, d': Disk, owner: map<nat, Place>, i: nat, lo: nat, m: nat)
    requires i < |d.inodes| && lo <= m < MAXFILE && CutAway(d, e, i, lo, m)
    requires Accounted(e, owner) && Settable(e, i, m)
    requires d' == if Ref(e, i, m) == 0 then e else Release(e, i, m)
    ensures Accounted(d', owner) && CutAway(d, d', i, lo, m + 1)
  {
    assert Ref(e, i, m) == Ref(d, i, m);
    if Ref(e, i, m) != 0 {
      Released(e, owner, i, m);
    }
    hide Ref, Data, Release, Accounted;
    assert Blocks(d, i, lo, m + 1) ==
      Blocks(d, i, lo, m) + if Ref(d, i, m) == 0 then {} else {Ref(d, i, m) as int};
  }

  lemma CutTwice(d: Disk, e: Disk, d': Disk, i: nat, k: nat, n: nat)
    requires i < |d.inodes| && k <= n <= MAXFILE
    requires CutAway(d, e, i, Low(k), Low(n)) && CutAway(e, d', i, High(k), High(n))
    ensures CutAway(d, d', i, k, n)
  {
    hide Ref, Data;
    assert Blocks(d, i, k, n) == Blocks(d, i, Low(k), Low(n)) + Blocks(e, i, High(k), High(n));
  }

  /** How far n blocks fill the direct ones, and where they end among the indirect ones. */
  function Low(n: nat): nat {
    if n < NDIRECT then n else NDIRECT
  }

  function High(n: nat): nat {
    if n < NDIRECT then NDIRECT else n
  }

  /** Cutting n blocks down to k gives up the table of indirect blocks. */
  predicate TableGoes(k: nat, n: nat) {
    k <= NDIRECT < n
  }

  /** The table of file i has no block at n or behind. */
  ghost predicate TailEmpty(d: Disk, i: nat, n: nat)
    requires i < |d.inodes|
  {
    forall m: nat :: High(n) <= m < MAXFILE ==> Ref(d, i, m) == 0
  }

  /** Of n blocks of file i those from k on were given back, and with them the table if only direct ones remain. */
  ghost predicate Shrunk(d: Disk, d': Disk, i: nat, k: nat, n: nat)
    requires i < |d.inodes| && n <= MAXFILE
  {
    && SameShape(d, d') && SameMeta(d, d') && OthersKept(d, d', i)
    && d'.used == d.used - Blocks(d, i, k, n) - (if TableGoes(k, n) then {Ref(d, i, TABLE) as int} else {})
    && (forall m: nat :: m < k ==> m < TABLE && Ref(d', i, m) == Ref(d, i, m) && Data(d', i, m) == Data(d, i, m))
    && (forall m: nat :: k <= m < n ==> Ref(d', i, m) == 0)
    && (forall m: nat :: n <= m < MAXFILE ==> Ref(d', i, m) == Ref(d, i, m) || (Ref(d', i, m) == 0 && m >= NDIRECT))
    && Ref(d', i, TABLE) == if TableGoes(k, n) then 0 else Ref(d, i, TABLE)
  }

  lemma ShrunkDirect(d: Disk, d': Disk, i: nat, k: nat, n: nat)
    requires i < |d.inodes| && k <= n <= MAXFILE && CutAway(d, d', i, k, n) && !TableGoes(k, n)
    ensures Shrunk(d, d', i, k, n)
  {
    hide Ref, Data;
    assert forall m: nat :: m <= TABLE ==> InFile(d, i, m);
    forall j: nat | j < |d.inodes| && j != i
      ensures SameFile(d, d', j)
    {
      assert forall m: nat :: m <= TABLE ==> InFile(d, j, m);
    }
  }

  lemma TableDropped(d: Disk, i: nat)
    requires i < |d.inodes|
    ensures var d' := Release(d, i, TABLE);
      && SameMeta(d, d') && OthersKept(d, d', i) && d'.used == d.used - {Ref(d, i, TABLE) as int}
      && (forall m: nat :: m < NDIRECT ==> Ref(d', i, m) == Ref(d, i, m) && Data(d', i, m) == Data(d, i, m))
      && (forall m: nat :: NDIRECT <= m <= TABLE ==> Ref(d', i, m) == 0)
  {
  }

  /** The table itself is given back. */
  lemma ShrunkTable(d: Disk, e: Disk, d': Disk, i: nat, k: nat, n: nat)
    requires i < |d.inodes| && k <= n <= MAXFILE && CutAway(d, e, i, k, n) && TableGoes(k, n)
    requires d' == Release(e, i, TABLE)
    ensures Shrunk(d, d', i, k, n)
  {
    TableDropped(e, i);
    hide Ref, Data, Release;
    assert forall m: nat :: m <= TABLE ==> InFile(d, i, m);
    forall j: nat | j < |d.inodes| && j != i
      ensures SameFile(d, d', j)
    {
      assert forall m: nat :: m <= TABLE ==> InFile(d, j, m);
    }
  }

  /** Giving the table back keeps the accounts exactly if nothing is left in it: what is left would have no owner. */
  lemma TableReleased(d: Disk, owner: map<nat, Place>, i: nat, n: nat)
    requires Accounted(d, owner) && i < |d.inodes| && Ref(d, i, TABLE) != 0 && n >= NDIRECT
    requires forall m: nat :: NDIRECT <= m < n && m < MAXFILE ==> Ref(d, i, m) == 0
    ensures TailEmpty(d, i, n) ==> Accounted(Release(d, i, TABLE), owner)
    ensures !TailEmpty(d, i, n) ==> forall o: map<nat, Place> :: !Accounted(Release(d, i, TABLE), o)
  {
    if TailEmpty(d, i, n) {
      Released(d, owner, i, TABLE);
    } else {
      var m: nat :| n <= m < MAXFILE && Ref(d, i, m) != 0;
      forall o: map<nat, Place>
        ensures !Accounted(Release(d, i, TABLE), o)
      {
        BlockLost(d, owner, i, m, o);
      }
    }
  }

  lemma BlockLost(d: Disk, owner: map<nat, Place>, i: nat, m: nat, o: map<nat, Place>)
    requires Accounted(d, owner) && i < |d.inodes| && Ref(d, i, TABLE) != 0
    requires NDIRECT <= m < MAXFILE && Ref(d, i, m) != 0
    ensures !Accounted(Release(d, i, TABLE), o)
  {
    var d' := Release(d, i, TABLE);
    var b := Ref(d, i, m) as int;
    assert Owned(d, owner, i, m) && Owned(d, owner, i, TABLE);
    if Held(d', o, b) {
      var (j, l) := o[b];
      assert Ref(d', j, l) == b;
      if j == i {
        assert l < NDIRECT;
        assert Ref(d, j, l) == b;
        NoneShared(d, owner, i, m, j, l);
      } else {
        assert Ref(d, j, l) == b;
        NoneShared(d, owner, i, m, j, l);
      }
      assert false;
    }
  }

  /** Contents c cut off or filled up with zeros. */
  function CutTo(c: seq<Byte>, n: nat): (r: seq<Byte>)
    ensures |r| == n
  {
    if n <= |c| then c[..n] else c + Nulls(n - |c|)
  }

  function Nulls(n: nat): (r: seq<Byte>)
    ensures |r| == n && forall k :: 0 <= k < n ==> r[k] == 0
  {
    seq<Byte>(n, _ => 0)
  }

  lemma ShrunkFile(d: Disk, e: Disk, d': Disk, i: nat, size: Uint)
    requires i < |d.inodes| && size < d.inodes[i].size <= MAXFILESIZE
    requires Shrunk(d, e, i, Ceil(size), Ceil(d.inodes[i].size)) && d' == Resize(e, i, size)
    ensures OthersKept(d, d', i) && Meta(d'.inodes[i]) == Meta(d.inodes[i].(size := size))
    ensures Contents(d', i) == CutTo(Contents(d, i), size)
    ensures Snug(d, i) ==> Snug(d', i)
    ensures Full(d, i) ==> Full(d', i)
  {
    hide Ref, Data, Contents, CutTo, Snug, Full, SameFile;
    ShrunkOthers(d, e, d', i, size);
    ShrunkBlocks(d, e, d', i, size);
    ShrunkContents(d, d', i, size);
  }

  lemma ShrunkOthers(d: Disk, e: Disk, d': Disk, i: nat, size: Uint)
    requires i < |d.inodes| && OthersKept(d, e, i) && SameMeta(d, e) && d' == Resize(e, i, size)
    ensures OthersKept(d, d', i) && Meta(d'.inodes[i]) == Meta(d.inodes[i].(size := size))
  {
    ResizedRefs(e, i, size);
    hide Ref, Data;
    assert Meta(e.inodes[i]) == Meta(d.inodes[i]);
    forall j: nat | j < |d.inodes| && j != i
      ensures SameFile(d, d', j)
    {
      assert SameFile(d, e, j);
      assert forall m: nat :: m <= TABLE ==> InFile(e, j, m);
    }
  }

  lemma ShrunkBlocks(d: Disk, e: Disk, d': Disk, i: nat, size: Uint)
    requires i < |d.inodes| && size < d.inodes[i].size <= MAXFILESIZE
    requires Shrunk(d, e, i, Ceil(size), Ceil(d.inodes[i].size)) && d' == Resize(e, i, size)
    ensures Snug(d, i) ==> Snug(d', i)
    ensures Full(d, i) ==> Full(d', i)
    ensures forall m: nat :: m < Ceil(size) ==> m < TABLE && Data(d', i, m) == Data(d, i, m)
  {
    ResizedRefs(e, i, size);
    hide Ref, Data, OthersKept;
    assert forall m: nat :: m <= TABLE ==> InFile(e, i, m);
  }

  lemma ShrunkContents(d: Disk, d': Disk, i: nat, size: Uint)
    requires i < |d.inodes| && i < |d'.inodes| && d'.inodes[i].size == size < d.inodes[i].size <= MAXFILESIZE
    requires forall m: nat :: m < Ceil(size) ==> m < TABLE && Data(d', i, m) == Data(d, i, m)
    ensures Contents(d', i) == CutTo(Contents(d, i), size)
  {
    hide Data;
    forall p: nat | p < size
      ensures At(d', i, p) == At(d, i, p)
    {
      assert p / BSIZE < Ceil(size);
    }
  }
}
