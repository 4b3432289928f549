/** `tools/mkfs.c`: building an image by appending to files, blocks being handed out one after the other. */
module Mkfs {
  import opened Bytes
  import opened FsDisks
  import opened FsFiles
  import opened FsImages

  /** The blocks a file of n bytes takes, with its table. */
  function Cost(n: nat): nat {
    Ceil(n) + if Ceil(n) > NDIRECT then 1 else 0
  }

  lemma {:induction false} HolesBehind(d: Disk, i: nat, lo: nat, hi: nat, c: nat)
    requires i < |d.inodes| && hi <= MAXFILE
    requires forall m: nat :: m < MAXFILE ==> (Ref(d, i, m) == 0 <==> c <= m)
    ensures Holes(d, i, lo, hi) == if hi <= lo || hi <= c then 0 else if lo < c then hi - c else hi - lo
    decreases hi - lo
  {
    hide Ref;
    if lo < hi {
      HolesBehind(d, i, lo + 1, hi, c);
    }
  }

  /** Appending to a file without holes and without spare blocks takes the blocks it is longer by. */
  lemma NeedOfAppend(d: Disk, i: nat, n: nat)
    requires i < |d.inodes| && d.inodes[i].size + n <= MAXFILESIZE && Snug(d, i) && Full(d, i)
    ensures Need(d, i, d.inodes[i].size / BSIZE, Next(d.inodes[i].size, n)) ==
      Cost(d.inodes[i].size + n) - Cost(d.inodes[i].size)
  {
    var s := d.inodes[i].size;
    assert Ceil(s) > NDIRECT ==> Ref(d, i, NDIRECT) != 0 && Ref(d, i, TABLE) != 0;
    hide Ref;
    HolesBehind(d, i, s / BSIZE, Next(s, n), Ceil(s));
  }

  /** Nothing but zeros behind the end of file i. */
  ghost predicate ZeroTail(d: Disk, i: nat)
    requires i < |d.inodes|
  {
    forall p: nat :: d.inodes[i].size <= p < MAXFILESIZE ==> At(d, i, p) == 0
  }

  ghost predicate Tidy(d: Disk, i: nat)
    requires i < |d.inodes|
  {
    Snug(d, i) && Full(d, i) && ZeroTail(d, i)
  }

  ghost predicate AllTidy(d: Disk) {
    forall j: nat :: j < |d.inodes| ==> Tidy(d, j)
  }

  ghost function Range(lo: nat, hi: nat): (s: set<nat>)
    ensures forall b: nat :: b in s <==> lo <= b < hi
    ensures |s| == if lo < hi then hi - lo else 0
    decreases hi
  {
    if lo >= hi then {} else Range(lo, hi - 1) + {hi - 1}
  }

  lemma FreeCount(d: Disk, fb: nat)
    requires d.g.first <= fb <= d.g.first + d.g.nblocks && d.used == Range(0, fb)
    ensures |FreeBlocks(d)| == d.g.first + d.g.nblocks - fb
  {
    assert FreeBlocks(d) == Range(fb, d.g.first + d.g.nblocks);
  }

  lemma FilledNext(d: Disk, owner: map<nat, Place>, i: nat, n: nat, b: nat)
    requires Accounted(d, owner) && Settable(d, i, n) && Ref(d, i, n) == 0
    requires d.used == Range(0, b) && d.g.first <= b < d.g.first + d.g.nblocks
    ensures Settable(Mark(d, b), i, n) && Filled(d, SetRef(Mark(d, b), i, n, b), i, n)
    ensures Accounted(SetRef(Mark(d, b), i, n, b), owner[b := (i, n)])
  {
    Allocate(d, owner, i, n, b);
    hide Ref, Data, SetRef, Accounted;
  }

  /** Storing the address leaves the blocks not yet handed out alone. */
  lemma BlankKept(d: Disk, owner: map<nat, Place>, i: nat, n: nat, b: nat)
    requires Accounted(d, owner) && Settable(d, i, n) && d.used == Range(0, b) && b < |d.blocks|
    requires forall c :: b <= c < |d.blocks| ==> d.blocks[c] == Zeros()
    ensures Settable(Mark(d, b), i, n)
    ensures forall c :: b < c < |d.blocks| ==> SetRef(Mark(d, b), i, n, b).blocks[c] == Zeros()
  {
    assert Ref(d, i, TABLE) != 0 ==> Owned(d, owner, i, TABLE);
  }

  lemma BitmapAside(d: Disk, e: Disk, i: nat, m: nat)
    requires InFile(d, i, m) && e == d.(used := e.used)
    ensures Ref(e, i, m) == Ref(d, i, m)
  {
  }

  /** There is room for the next block, if there was room for all of them. */
  lemma Enough(d: Disk, e: Disk, i: nat, off: nat, t: nat, n: nat)
    requires i < |d.inodes| && t < n && off + n <= MAXFILESIZE && SameShape(d, e) && Going(d, e, i, off, t, n)
    requires |FreeBlocks(d)| >= Need(d, i, off / BSIZE, Next(off, n))
    ensures var k := (off + t) / BSIZE; k < MAXFILE && |FreeBlocks(e)| >= Need(e, i, k, k + 1)
  {
    var k := (off + t) / BSIZE;
    ChunkBlock(off, t, n, k);
    NeedMore(e, i, k, Next(off, n));
  }

  lemma EnoughRoom(d: Disk, e: Disk, i: nat, off: nat, t: nat, n: nat, fb: nat)
    requires i < |d.inodes| && t < n && off + n <= MAXFILESIZE && SameShape(d, e) && Going(d, e, i, off, t, n)
    requires |FreeBlocks(d)| >= Need(d, i, off / BSIZE, Next(off, n))
    requires e.g.first <= fb <= e.g.first + e.g.nblocks && e.used == Range(0, fb)
    ensures var k := (off + t) / BSIZE; k < MAXFILE && fb + Need(e, i, k, k + 1) <= e.g.first + e.g.nblocks
  {
    hide Need, FreeBlocks, Going, Next;
    Enough(d, e, i, off, t, n);
    FreeCount(e, fb);
  }

  lemma RoomTaken(d: Disk, d': Disk, fb: nat, fb': nat)
    requires d'.g == d.g && d.g.first <= fb <= fb' <= d.g.first + d.g.nblocks
    requires d.used == Range(0, fb) && d'.used == Range(0, fb')
    ensures |FreeBlocks(d')| + (fb' - fb) == |FreeBlocks(d)|
  {
    FreeCount(d, fb);
    FreeCount(d', fb');
  }

  lemma RoomFor(d: Disk, i: nat, n: nat, fb: nat)
    requires i < |d.inodes| && d.inodes[i].size + n <= MAXFILESIZE && AllTidy(d)
    requires d.g.first <= fb <= d.g.first + d.g.nblocks && d.used == Range(0, fb)
    requires fb + Cost(d.inodes[i].size + n) - Cost(d.inodes[i].size) <= d.g.first + d.g.nblocks
    ensures var need := Need(d, i, d.inodes[i].size / BSIZE, Next(d.inodes[i].size, n));
      need <= |FreeBlocks(d)| && need == Cost(d.inodes[i].size + n) - Cost(d.inodes[i].size)
  {
    assert Tidy(d, i);
    hide Ref;
    NeedOfAppend(d, i, n);
    FreeCount(d, fb);
  }

  predicate SameButSize(a: Dinode, b: Dinode) {
    a.kind == b.kind && a.major == b.major && a.minor == b.minor && a.nlink == b.nlink
  }

  function Blank(): Dinode {
    Dinode(0, 0, 0, 0, 0, NoAddresses())
  }

  lemma BlankTidy(d: Disk, j: nat)
    requires j < |d.inodes| && d.inodes[j].addrs == NoAddresses() && d.inodes[j].size == 0
    ensures Tidy(d, j) && Contents(d, j) == []
  {
  }

  /** An inode that was never written is no one's, and can be filled in. */
  lemma NewInode(d: Disk, d': Disk, owner: map<nat, Place>, i: nat)
    requires Accounted(d, owner) && AllTidy(d) && i < |d.inodes| && d.inodes[i] == Blank()
    requires exists ino: Dinode :: d' == d.(inodes := d.inodes[i := ino]) && ino.addrs == NoAddresses() && ino.size == 0
    ensures Accounted(d', owner) && AllTidy(d') && OthersKept(d, d', i) && Contents(d', i) == []
  {
    forall j: nat, m: nat | InFile(d, j, m)
      ensures Ref(d', j, m) == Ref(d, j, m)
    {
    }
    SameRefs(d, d', owner);
    BlankTidy(d', i);
    hide Tidy;
    OthersTidy(d, d', i);
  }

  class Maker {
    const g: Geometry
    var inodes: seq<Dinode>
    var blocks: seq<Block>
    var freeinode: nat
    var freeblock: nat
    ghost var owner: map<nat, Place>

    /** The start of `main`: everything is zero, and the data blocks begin behind the bitmap. */
    constructor (size: nat, ninodes: nat, nlog: nat)
      requires FirstData(size, ninodes) + nlog <= size < 0x1_0000_0000
      ensures Valid() && g == Geometry(size, ninodes, FirstData(size, ninodes), size - nlog - FirstData(size, ninodes))
      ensures freeinode == 1 && freeblock == g.first && inodes == seq(ninodes, _ => Blank())
    {
      var nmeta := 2 + (ninodes / IPB + 1) + (size / (BSIZE * 8) + 1);
      g := Geometry(size, ninodes, nmeta, size - nlog - nmeta);
      inodes := seq(ninodes, _ => Blank());
      blocks := seq(size, _ => Zeros());
      freeinode := 1;
      freeblock := nmeta;
      owner := map[];
      new;
      forall j: nat | j < |inodes|
        ensures Tidy(D(), j)
      {
        BlankTidy(D(), j);
      }
    }

    /** The disk as it will be once the bitmap is written: all blocks in front of freeblock are used. */
    ghost function D(): Disk
      reads this
    {
      Disk(g, inodes, Range(0, freeblock), blocks)
    }

    ghost predicate Base()
      reads this
    {
      && Accounted(D(), owner) && g.first <= freeblock <= g.first + g.nblocks
      && forall b :: freeblock <= b < |blocks| ==> blocks[b] == Zeros()
    }

    ghost predicate Valid()
      reads this
    {
      Base() && 0 < freeinode && AllTidy(D())
    }

    method StoreRef(i: nat, n: nat, a: Uint)
      requires Settable(D(), i, n)
      modifies this`inodes, this`blocks
      ensures D() == SetRef(old(D()), i, n, a)
    {
      var ino := inodes[i];
      if n < NDIRECT {
        inodes := inodes[i := ino.(addrs := ino.addrs[n := a])];
      } else if n == TABLE {
        inodes := inodes[i := ino.(addrs := ino.addrs[NDIRECT := a])];
      } else {
        var t := ino.addrs[NDIRECT];
        blocks := blocks[t := SetWord(blocks[t], n - NDIRECT, a)];
      }
    }

    /** `freeblock++` as the address of block n of file i */
    method Fill(i: nat, n: nat)
      requires Base() && Settable(D(), i, n) && Ref(D(), i, n) == 0 && freeblock < g.first + g.nblocks
      modifies this`inodes, this`blocks, this`freeblock, this`owner
      ensures Base() && freeblock == old(freeblock) + 1 && Filled(old(D()), D(), i, n)
    {
      ghost var d := D();
      var b := freeblock;
      FilledNext(d, owner, i, n, b);
      BlankKept(d, owner, i, n, b);
      freeblock := b + 1;
      assert blocks[b := Zeros()] == blocks;
      assert D() == Mark(d, b);
      hide Ref, Data, SetRef, Accounted, Filled, FreeBlocks, Mark;
      StoreRef(i, n, b);
      owner := owner[b := (i, n)];
    }

    /** An address is looked up; a hole gets the next block first. */
    method Reach(i: nat, m: nat, ghost n: nat) returns (r: nat)
      requires Base() && Settable(D(), i, m) && n < MAXFILE && (m == n || (m == TABLE && n >= NDIRECT))
      requires Ref(D(), i, m) == 0 ==> freeblock < g.first + g.nblocks
      modifies this`inodes, this`blocks, this`freeblock, this`owner
      ensures Base() && Grown(old(D()), D(), i, n, n + 1) && SameRefsBut(old(D()), D(), i, m)
      ensures r == Ref(D(), i, m) && g.IsData(r)
      ensures freeblock == old(freeblock) + if old(Ref(D(), i, m)) == 0 then 1 else 0
    {
      ghost var d := D();
      r := Ref(Disk(g, inodes, {}, blocks), i, m);
      assert r == Ref(d, i, m);
      hide Data, Filled, FreeBlocks, Ref, Range;
      if r == 0 {
        Fill(i, m);
        FilledGrown(d, D(), i, m, n);
        r := Ref(Disk(g, inodes, {}, blocks), i, m);
        BitmapAside(D(), Disk(g, inodes, {}, blocks), i, m);
      }
      assert Owned(D(), owner, i, m);
    }

    /** The block with number k of file i, handed out if need be. */
    method BlockFor(i: nat, k: nat) returns (b: nat)
      requires Base() && i < |inodes| && k < MAXFILE && freeblock + Need(D(), i, k, k + 1) <= g.first + g.nblocks
      modifies this`inodes, this`blocks, this`freeblock, this`owner
      ensures Base() && Grown(old(D()), D(), i, k, k + 1) && b == Ref(D(), i, k) && g.IsData(b)
      ensures freeblock == old(freeblock) + old(Need(D(), i, k, k + 1))
    {
      ghost var d := D();
      assert InFile(d, i, k) && InFile(d, i, TABLE);
      NeedOne(d, i, k);
      hide Data, Need, FreeBlocks, Ref, Range;
      if k >= NDIRECT {
        b := Reach(i, TABLE, k);
      }
      ghost var e := D();
      b := Reach(i, k, k);
      GrownTwice(d, e, D(), i, k);
    }

    /** The block of the next chunk. */
    method NextBlock(i: nat, off: nat, t: nat, n: nat, ghost d: Disk) returns (b: nat)
      requires Base() && i < |inodes| && t < n && off + n <= MAXFILESIZE
      requires SameShape(d, D()) && Going(d, D(), i, off, t, n)
      requires |FreeBlocks(d)| >= Need(d, i, off / BSIZE, Next(off, n))
      modifies this`inodes, this`blocks, this`freeblock, this`owner
      ensures Base() && SameShape(old(D()), D()) && SameData(old(D()), D())
      ensures GrownRefs(d, D(), i, off / BSIZE, Next(off, n))
      ensures g.IsData(b) && b == Ref(D(), i, (off + t) / BSIZE)
      ensures var c := Chunk(off + t, n - t); 0 < c <= n - t && Going(d, D(), i, off, t + c, n)
    {
      hide Data, Need, FreeBlocks, Ref, Grown, Going, Accounted, SameData, SameMeta, Ceil, Chunk, Next, Range, GrownRefs;
      ghost var e := D();
      AccountedShape(e, owner, i, TABLE);
      EnoughRoom(d, e, i, off, t, n, freeblock);
      b := BlockFor(i, (off + t) / BSIZE);
      RoomTaken(e, D(), old(freeblock), freeblock);
      StepOn(d, e, D(), i, off, t, n);
    }

    /** One round of the loop of `iappend`. */
    method AppendStep(i: nat, p: seq<Byte>, off: nat, t: nat, ghost d: Disk) returns (t': nat)
      requires Base() && i < |inodes| == |d.inodes| && t < |p| && off + |p| <= MAXFILESIZE && SameShape(d, D())
      requires Going(d, D(), i, off, t, |p|) && Patched(d, D(), i, off, p[..t])
      requires |FreeBlocks(d)| >= Need(d, i, off / BSIZE, Next(off, |p|))
      modifies this`inodes, this`blocks, this`freeblock, this`owner
      ensures Base() && |inodes| == |d.inodes| && t < t' <= |p| && SameShape(d, D())
      ensures Going(d, D(), i, off, t', |p|) && GrownRefs(d, D(), i, off / BSIZE, Next(off, |p|))
      ensures Patched(d, D(), i, off, p[..t'])
    {
      ghost var e := D();
      hide Need, FreeBlocks, Ref, Going, Accounted, GrownRefs, Ceil, Next, Data, Patched, SameData, Splice, Range, Chunk;
      var b := NextBlock(i, off, t, |p|, d);
      PatchedStill(d, e, D(), i, off, p[..t]);
      AccountedShape(D(), owner, i, (off + t) / BSIZE);
      t' := t + Chunk(off + t, |p| - t);
      StoreChunk(i, b, off, t, t' - t, p, d);
    }

    /** `bcopy` into the block and `wsect` */
    method StoreChunk(ghost i: nat, b: nat, off: nat, t: nat, c: nat, p: seq<Byte>, ghost d: Disk)
      requires Base() && i < |inodes| && i < |d.inodes| && SameShape(d, D())
      requires t + c <= |p| && off + |p| <= MAXFILESIZE && t < |p| && c == Chunk(off + t, |p| - t)
      requires b == Ref(D(), i, (off + t) / BSIZE) && 0 < b < |blocks|
      requires Going(d, D(), i, off, t + c, |p|) && GrownRefs(d, D(), i, off / BSIZE, Next(off, |p|))
      requires Patched(d, D(), i, off, p[..t])
      modifies this`blocks
      ensures Base() && SameShape(d, D()) && Going(d, D(), i, off, t + c, |p|)
      ensures GrownRefs(d, D(), i, off / BSIZE, Next(off, |p|)) && Patched(d, D(), i, off, p[..t + c])
    {
      ghost var e := D();
      var o := (off + t) % BSIZE;
      ChunkFits(off + t, |p| - t);
      ghost var k := (off + t) / BSIZE;
      assert InFile(e, i, k) && Data(e, i, k) == blocks[b] && Owned(e, owner, i, k);
      hide Need, FreeBlocks, Ref, Going, GrownRefs, Chunk, Next, Data, Patched, Splice;
      ghost var data := Splice(blocks[b], o, p[t..t + c]);
      Overwritten(e, owner, i, k, data);
      blocks := blocks[b := Splice(blocks[b], o, p[t..t + c])];
      StoredStep(d, e, D(), owner, i, off, t, c, p);
    }

    /** `din.size = xint(off)` and `winode` */
    method SetSize(i: nat, p: seq<Byte>, ghost d: Disk)
      requires Base() && i < |inodes| == |d.inodes| && d.inodes[i].size + |p| <= MAXFILESIZE && AllTidy(d)
      requires GrownRefs(d, D(), i, d.inodes[i].size / BSIZE, Next(d.inodes[i].size, |p|))
      requires Patched(d, D(), i, d.inodes[i].size, p)
      requires forall k: nat :: d.inodes[i].size / BSIZE <= k < Next(d.inodes[i].size, |p|) ==> Ref(D(), i, k) != 0
      modifies this`inodes
      ensures Base() && |inodes| == |old(inodes)| && AllTidy(D()) && OthersKept(d, D(), i)
      ensures inodes[i].size == d.inodes[i].size + |p| && SameButSize(d.inodes[i], inodes[i])
      ensures Contents(D(), i) == Contents(d, i) + p
    {
      ghost var e := D();
      GrownMeta(d, e, i, d.inodes[i].size / BSIZE, Next(d.inodes[i].size, |p|));
      Appended(d, e, Resize(e, i, d.inodes[i].size + |p|), owner, i, p);
      hide Ref, GrownRefs, Accounted, AllTidy, OthersKept, Patched, Range, Next, Contents;
      inodes := inodes[i := inodes[i].(size := inodes[i].size + |p|)];
    }

    /** `iappend`: the file gets p behind its end, and takes just the blocks it is longer by. */
    method Iappend(i: nat, p: seq<Byte>)
      requires Valid() && i < |inodes| && inodes[i].size + |p| <= MAXFILESIZE
      requires freeblock + Cost(inodes[i].size + |p|) - Cost(inodes[i].size) <= g.first + g.nblocks
      modifies this`inodes, this`blocks, this`freeblock, this`owner
      ensures Valid() && |inodes| == |old(inodes)| && OthersKept(old(D()), D(), i)
      ensures inodes[i].size == old(inodes[i].size) + |p| && SameButSize(old(inodes[i]), inodes[i])
      ensures Contents(D(), i) == old(Contents(D(), i)) + p
      ensures freeblock == old(freeblock) + Cost(old(inodes[i].size) + |p|) - Cost(old(inodes[i].size))
    {
      hide Ref, GrownRefs, Accounted, AllTidy, OthersKept, Patched, Range, Next, Contents, Cost, FreeBlocks, Need;
      ghost var d := D();
      RoomFor(d, i, |p|, freeblock);
      AppendRange(i, p, inodes[i].size);
      SetSize(i, p, d);
    }

    /** `ialloc`: the next inode, with one link. */
    method Ialloc(kind: nat) returns (inum: nat)
      requires Valid() && freeinode < |inodes| && inodes[freeinode] == Blank()
      modifies this`inodes, this`freeinode
      ensures Valid() && inum == old(freeinode) && freeinode == inum + 1
      ensures inodes == old(inodes)[inum := Blank().(kind := kind, nlink := 1)]
      ensures OthersKept(old(D()), D(), inum) && Contents(D(), inum) == []
    {
      ghost var d := D();
      inum := freeinode;
      freeinode := freeinode + 1;
      inodes := inodes[inum := Dinode(kind, 0, 0, 1, 0, NoAddresses())];
      NewInode(d, D(), owner, inum);
    }

    /** The loop of `iappend`. */
    method AppendRange(i: nat, p: seq<Byte>, off: nat)
      requires Base() && i < |inodes| && off + |p| <= MAXFILESIZE
      requires |FreeBlocks(D())| >= Need(D(), i, off / BSIZE, Next(off, |p|))
      modifies this`inodes, this`blocks, this`freeblock, this`owner
      ensures Base() && |inodes| == |old(inodes)| && GrownRefs(old(D()), D(), i, off / BSIZE, Next(off, |p|))
      ensures Patched(old(D()), D(), i, off, p)
      ensures forall k: nat :: off / BSIZE <= k < Next(off, |p|) ==> Ref(D(), i, k) != 0
      ensures freeblock == old(freeblock) + old(Need(D(), i, off / BSIZE, Next(off, |p|)))
    {
      ghost var d := D();
      GoingStart(d, i, off, |p|);
      FreeCount(d, freeblock);
      hide Data, Need, FreeBlocks, Ref, Going, Accounted, SameData, GrownRefs, Ceil, Chunk, Next, Range;
      var t := 0;
      while t < |p|
        invariant 0 <= t <= |p| && |inodes| == |d.inodes| && Base() && SameShape(d, D())
        invariant GrownRefs(d, D(), i, off / BSIZE, Next(off, |p|)) && Patched(d, D(), i, off, p[..t])
        invariant Going(d, D(), i, off, t, |p|)
      {
        t := AppendStep(i, p, off, t, d);
      }
      assert p[..t] == p;
      GoingEnd(d, D(), i, off, |p|);
      GoingTook(d, D(), i, off, |p|);
      FreeCount(D(), freeblock);
    }

    /** `balloc`: the bitmap with the first bits set. */
    method WriteBitmap(used: nat, size: nat) returns (bitmap: seq<bv8>)
      requires used < BSIZE * 8
      ensures |bitmap| == BitmapBytes(size) && UsedSet(bitmap) == Range(0, used)
    {
      hide Bit, UsedSet, Mask, BitmapBytes, Range;
      bitmap := NullBits(BitmapBytes(size));
      var i := 0;
      while i < used
        invariant 0 <= i <= used && |bitmap| == BitmapBytes(size) && UsedSet(bitmap) == Range(0, i)
      {
        bitmap := MarkBit(bitmap, i);
        i := i + 1;
      }
    }

    /** `buf[i/8] = buf[i/8] | (0x1 << (i%8))` */
    static method MarkBit(bitmap: seq<bv8>, i: nat) returns (r: seq<bv8>)
      requires i < 8 * |bitmap|
      ensures |r| == |bitmap| && UsedSet(r) == UsedSet(bitmap) + {i}
    {
      hide Bit, UsedSet, Mask;
      SetBitUsed(bitmap, i);
      BytesChanged(bitmap, i);
      r := bitmap[i / 8 := bitmap[i / 8] | Mask(i % 8)];
    }

    /** The size of the root directory is rounded up, to a whole block more if it filled its blocks exactly. */
    method FixRoot(root: nat)
      requires Valid() && root < |inodes| && inodes[root].size < MAXFILESIZE
      modifies this`inodes
      ensures Base() && |inodes| == |old(inodes)| && OthersKept(old(D()), D(), root)
      ensures forall j: nat :: j < |inodes| && j != root ==> Tidy(D(), j)
      ensures Snug(D(), root) && (Full(D(), root) <==> old(inodes[root].size) % BSIZE != 0)
      ensures inodes == old(inodes)[root := old(inodes[root]).(size := (old(inodes[root].size) / BSIZE + 1) * BSIZE)]
      ensures Contents(D(), root) == CutTo(old(Contents(D(), root)), inodes[root].size)
    {
      ghost var d := D();
      var off := inodes[root].size;
      off := (off / BSIZE + 1) * BSIZE;
      RootFixed(d, owner, root, off);
      hide Accounted, Tidy, Snug, Full, Contents, OthersKept;
      inodes := inodes[root := inodes[root].(size := off)];
    }

    /** The end of `main`: the bitmap is written, and the image can be used. */
    method Finish() returns (img: Image)
      requires Base() && freeblock < BSIZE * 8
      ensures fresh(img) && img.Valid() && img.D() == D()
    {
      var bitmap := WriteBitmap(freeblock, g.size);
      img := new Image(g, inodes, bitmap, blocks, owner);
    }
  }

  lemma Appended(d: Disk, e: Disk, d': Disk, owner: map<nat, Place>, i: nat, p: seq<Byte>)
    requires i < |d.inodes| && d.inodes[i].size + |p| <= MAXFILESIZE && Accounted(e, owner)
    requires GrownRefs(d, e, i, d.inodes[i].size / BSIZE, Next(d.inodes[i].size, |p|))
    requires Patched(d, e, i, d.inodes[i].size, p) && d' == Resize(e, i, d.inodes[i].size + |p|)
    requires forall k: nat :: d.inodes[i].size / BSIZE <= k < Next(d.inodes[i].size, |p|) ==> Ref(e, i, k) != 0
    requires AllTidy(d)
    ensures Accounted(d', owner) && OthersKept(d, d', i) && AllTidy(d')
    ensures Meta(d'.inodes[i]) == Meta(d.inodes[i].(size := d.inodes[i].size + |p|))
    ensures Contents(d', i) == Contents(d, i) + p
  {
    hide Ref, Data, GrownRefs, Accounted, Snug, Full, OthersKept, At;
    var off := d.inodes[i].size;
    var size := off + |p|;
    assert Tidy(d, i);
    Resized(e, owner, i, size);
    ResizedRefs(e, i, size);
    GrownMeta(d, e, i, off / BSIZE, Next(off, |p|));
    WriteDone(d, e, d', i, off, p, Next(off, |p|), size);
    PatchedContents(d, d', i, off, p);
    assert Contents(d, i)[..off] == Contents(d, i);
    WriteTidy(d, e, d', i, off, |p|, size);
    OthersTidy(d, d', i);
  }

  lemma OthersTidy(d: Disk, d': Disk, i: nat)
    requires OthersKept(d, d', i)
    requires forall j: nat :: j < |d.inodes| ==> Tidy(d, j)
    ensures forall j: nat :: j < |d.inodes| && j != i ==> Tidy(d', j)
  {
    forall j: nat | j < |d.inodes| && j != i
      ensures Tidy(d', j)
    {
      assert Tidy(d, j);
      SameFileContents(d, d', j);
      SameTail(d, d', j);
    }
  }

  lemma SameTail(d: Disk, d': Disk, j: nat)
    requires SameShape(d, d') && j < |d.inodes| && SameFile(d, d', j) && ZeroTail(d, j)
    ensures ZeroTail(d', j)
  {
    hide Ref, Data;
    forall p: nat | d.inodes[j].size <= p < MAXFILESIZE
      ensures At(d', j, p) == 0
    {
      assert At(d, j, p) == 0 && Data(d', j, p / BSIZE) == Data(d, j, p / BSIZE);
    }
  }

  /** nbitmap blocks */
  function BitmapBytes(size: nat): (n: nat)
    ensures n >= BSIZE && 8 * n >= size
  {
    BSIZE * (size / (BSIZE * 8) + 1)
  }

  function NullBits(n: nat): (m: seq<bv8>)
    ensures |m| == n && UsedSet(m) == {}
  {
    seq(n, _ => 0)
  }

  lemma RootFixed(d: Disk, owner: map<nat, Place>, i: nat, size: Uint)
    requires i < |d.inodes| && d.inodes[i].size < MAXFILESIZE && size == (d.inodes[i].size / BSIZE + 1) * BSIZE
    requires Accounted(d, owner) && AllTidy(d)
    ensures var d' := Resize(d, i, size);
      && Accounted(d', owner) && OthersKept(d, d', i)
      && (forall j: nat :: j < |d.inodes| && j != i ==> Tidy(d', j))
      && Snug(d', i) && (Full(d', i) <==> d.inodes[i].size % BSIZE != 0)
      && Contents(d', i) == CutTo(Contents(d, i), size)
  {
    var d' := Resize(d, i, size);
    assert Tidy(d, i);
    Resized(d, owner, i, size);
    ResizedRefs(d, i, size);
    hide Ref, Data, Accounted;
    forall j: nat | j < |d.inodes| && j != i
      ensures SameFile(d, d', j)
    {
      assert forall m: nat :: m <= TABLE ==> InFile(d, j, m);
    }
    OthersTidy(d, d', i);
    assert forall m: nat :: m <= TABLE ==> InFile(d, i, m);
    if d.inodes[i].size % BSIZE == 0 {
      assert Ref(d', i, d.inodes[i].size / BSIZE) == 0;
    }
    hide Ceil, Snug, Full;
    RootContents(d, d', i, size);
  }

  lemma RootContents(d: Disk, d': Disk, i: nat, size: Uint)
    requires i < |d.inodes| && d.inodes[i].size <= size <= MAXFILESIZE && d' == Resize(d, i, size)
    requires ZeroTail(d, i) && forall m: nat :: m < TABLE ==> Data(d', i, m) == Data(d, i, m)
    ensures Contents(d', i) == CutTo(Contents(d, i), size)
  {
    hide Data;
    forall p: nat | p < size
      ensures Contents(d', i)[p] == CutTo(Contents(d, i), size)[p]
    {
      assert Contents(d', i)[p] == At(d', i, 0 + p);
      assert Data(d', i, p / BSIZE) == Data(d, i, p / BSIZE);
      if p < d.inodes[i].size {
        assert Contents(d, i)[p] == At(d, i, 0 + p);
      } else {
        assert At(d, i, p) == 0;
      }
    }
  }
}
