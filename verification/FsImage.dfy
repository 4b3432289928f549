/** `tools/libfs.c`: blocks and files. */
module FsImages {
  import opened Bytes
  import opened FsDisks
  import opened FsFiles

  /** `fatal` leaves the operation by a long jump. */
  datatype Result = Done(value: int) | Fatal

  lemma ByteOf(b: nat, bi: nat)
    requires b % 8 == 0
    ensures (b + bi) / 8 == b / 8 + bi / 8 && (b + bi) % 8 == bi % 8
  {
  }

  /** A bit outside the data does not count. */
  lemma OutsideData(d: Disk, d': Disk, owner: map<nat, Place>, c: nat)
    requires Accounted(d, owner) && d' == d.(used := d.used + {c}) && !d.g.IsData(c)
    ensures Accounted(d', owner) && FreeBlocks(d') == FreeBlocks(d)
  {
    hide GetWord;
    forall j: nat, m: nat | InFile(d', j, m) && Ref(d', j, m) != 0
      ensures Owned(d', owner, j, m)
    {
      assert Owned(d, owner, j, m);
    }
    forall b: nat | d'.g.IsData(b) && b in d'.used
      ensures Held(d', owner, b)
    {
      assert Held(d, owner, b);
    }
  }

  /** A full bitmap, or a bit set outside the data: nothing a file could tell. */
  lemma SameAll(d: Disk, d': Disk, owner: map<nat, Place>, i: nat, n: nat)
    requires Accounted(d, owner)
    requires d' == d || exists c: nat :: !d.g.IsData(c) && d' == d.(used := d.used + {c})
    ensures Accounted(d', owner) && Grown(d, d', i, n, n) && FreeBlocks(d') == FreeBlocks(d)
  {
    if d' != d {
      var c: nat :| !d.g.IsData(c) && d' == d.(used := d.used + {c});
      OutsideData(d, d', owner, c);
    }
  }

  ghost predicate Filled(d: Disk, d': Disk, i: nat, n: nat)
    requires InFile(d, i, n)
  {
    && SameShape(d, d') && SameMeta(d, d') && SameData(d, d') && SameRefsBut(d, d', i, n)
    && Ref(d', i, n) != 0 && d.g.IsData(Ref(d', i, n))
    && Ref(d', i, n) as int in FreeBlocks(d) && FreeBlocks(d') == FreeBlocks(d) - {Ref(d', i, n) as int}
  }

  lemma FilledGrown(d: Disk, d': Disk, i: nat, m: nat, n: nat)
    requires InFile(d, i, m) && n < MAXFILE && Filled(d, d', i, m) && Ref(d, i, m) == 0
    requires m == n || (m == TABLE && n >= NDIRECT)
    ensures Grown(d, d', i, n, n + 1) && |FreeBlocks(d')| + 1 == |FreeBlocks(d)|
    ensures Ref(d', i, m) != 0 && SameRefsBut(d, d', i, m)
  {
    hide Ref, Data, FreeBlocks;
    assert MayGrow(m, n, n + 1);
    var b := Ref(d', i, m) as int;
    assert FreeBlocks(d) == FreeBlocks(d') + {b};
  }

  lemma GrownNone(d: Disk, d': Disk, i: nat, n: nat, m: nat)
    requires InFile(d, i, m) && Grown(d, d', i, m, m)
    ensures Grown(d, d', i, n, n + 1) && SameRefsBut(d, d', i, m)
  {
  }

  lemma GrownTwice(d: Disk, e: Disk, d': Disk, i: nat, n: nat)
    requires Grown(d, e, i, n, n + 1) && Grown(e, d', i, n, n + 1)
    ensures Grown(d, d', i, n, n + 1)
  {
    hide Ref, Data;
    forall j: nat, m: nat | InFile(d, j, m)
      ensures Ref(d', j, m) == Ref(d, j, m) || (Ref(d, j, m) == 0 && j == i && MayGrow(m, n, n + 1))
    {
      assert Ref(e, j, m) == Ref(d, j, m) || (Ref(d, j, m) == 0 && j == i && MayGrow(m, n, n + 1));
    }
  }

  lemma NeedOne(d: Disk, i: nat, n: nat)
    requires i < |d.inodes| && n < MAXFILE
    ensures Need(d, i, n, n + 1) ==
      (if Ref(d, i, n) == 0 then 1 else 0) + (if n >= NDIRECT && Ref(d, i, TABLE) == 0 then 1 else 0)
  {
    assert Holes(d, i, n + 1, n + 1) == 0;
  }

  /** t of n bytes have been gone through. */
  ghost predicate Going(d: Disk, d': Disk, i: nat, off: nat, t: nat, n: nat)
    requires i < |d.inodes| && off + n <= MAXFILESIZE
  {
    t <= n && (t == 0 || t == n || (off + t) % BSIZE == 0) && Progress(d, d', i, off, t, Next(off, n))
  }

  lemma GoingStart(d: Disk, i: nat, off: nat, n: nat)
    requires i < |d.inodes| && off + n <= MAXFILESIZE
    ensures Going(d, d, i, off, 0, n) && GrownRefs(d, d, i, off / BSIZE, Next(off, n)) && SameData(d, d)
  {
    ProgressStart(d, i, off, Next(off, n));
  }

  lemma GoingEnd(d: Disk, d': Disk, i: nat, off: nat, n: nat)
    requires i < |d.inodes| && off + n <= MAXFILESIZE && Going(d, d', i, off, n, n)
    ensures |FreeBlocks(d)| >= Need(d, i, off / BSIZE, Next(off, n))
    ensures forall k: nat :: off / BSIZE <= k < Next(off, n) ==> Ref(d', i, k) != 0
    ensures GrownRefs(d, d', i, off / BSIZE, Next(off, n))
  {
    hide Ref, Data, FreeBlocks;
  }

  lemma GoingTook(d: Disk, d': Disk, i: nat, off: nat, n: nat)
    requires i < |d.inodes| && off + n <= MAXFILESIZE && SameShape(d, d') && Going(d, d', i, off, n, n)
    ensures |FreeBlocks(d')| + Need(d, i, off / BSIZE, Next(off, n)) == |FreeBlocks(d)|
  {
    hide Ref, FreeBlocks;
  }

  /** Of the free blocks just those that were needed have gone, or, on failure, all. */
  ghost predicate TookFree(d: Disk, d': Disk, need: nat, ok: bool) {
    if ok then |FreeBlocks(d')| + need == |FreeBlocks(d)| else FreeBlocks(d') == {}
  }

  lemma StepStuck(d: Disk, e: Disk, d': Disk, i: nat, off: nat, t: nat, n: nat)
    requires i < |d.inodes| && t < n && off + n <= MAXFILESIZE && Going(d, e, i, off, t, n)
    requires var k := (off + t) / BSIZE; Grown(e, d', i, k, k + 1) && |FreeBlocks(e)| < Need(e, i, k, k + 1)
    ensures GrownRefs(d, d', i, off / BSIZE, Next(off, n)) && SameShape(e, d') && SameData(e, d')
    ensures |FreeBlocks(d)| < Need(d, i, off / BSIZE, Next(off, n))
  {
    hide Data, Ref, Need, FreeBlocks;
    ProgressStuck(d, e, d', i, off, t, n, (off + t) / BSIZE, Next(off, n));
  }

  lemma StepOn(d: Disk, e: Disk, d': Disk, i: nat, off: nat, t: nat, n: nat)
    requires i < |d.inodes| && t < n && off + n <= MAXFILESIZE && Going(d, e, i, off, t, n)
    requires var k := (off + t) / BSIZE;
      && Grown(e, d', i, k, k + 1) && Ref(d', i, k) != 0
      && |FreeBlocks(d')| + Need(e, i, k, k + 1) == |FreeBlocks(e)|
    ensures var c := Chunk(off + t, n - t); 0 < c <= n - t && Going(d, d', i, off, t + c, n)
    ensures GrownRefs(d, d', i, off / BSIZE, Next(off, n)) && SameShape(e, d') && SameData(e, d')
  {
    hide Data, Ref, Need, FreeBlocks;
    ProgressStep(d, e, d', i, off, t, n, (off + t) / BSIZE, Next(off, n));
    var c := Chunk(off + t, n - t);
    Widen(d, d', i, off / BSIZE, Next(off, t + c), Next(off, n));
  }

  lemma AccountedShape(d: Disk, owner: map<nat, Place>, i: nat, n: nat)
    requires Accounted(d, owner) && InFile(d, i, n)
    ensures WellFormed(d) && (Ref(d, i, n) != 0 ==> d.g.IsData(Ref(d, i, n)) && Ref(d, i, n) < |d.blocks|)
  {
    assert Ref(d, i, n) != 0 ==> Owned(d, owner, i, n);
  }

  lemma DataNotZero(d: Disk, owner: map<nat, Place>, b: int)
    requires Accounted(d, owner) && d.g.IsData(b)
    ensures b > 0
  {
    hide Ref;
  }

  lemma ReadBytes(d: Disk, d': Disk, i: nat, off: nat, t: nat, n: nat, b: nat, s: seq<Byte>, s': seq<Byte>)
    requires i < |d.inodes| && t < n && off + n <= MAXFILESIZE && SameShape(d, d') && SameData(d, d')
    requires b == Ref(d', i, (off + t) / BSIZE) && 0 < b < |d.blocks| && s == Slice(d, i, off, t)
    requires var o, c := (off + t) % BSIZE, Chunk(off + t, n - t);
      s' == s + d'.blocks[b][o..o + c]
    ensures s' == Slice(d, i, off, t + Chunk(off + t, n - t))
  {
    var o, c, k := (off + t) % BSIZE, Chunk(off + t, n - t), (off + t) / BSIZE;
    assert InFile(d, i, k);
    assert d'.blocks[b] == Data(d, i, k);
    hide Ref, Data;
    forall q | t <= q < t + c
      ensures s'[q] == At(d, i, off + q)
    {
      assert (off + q) / BSIZE == k && (off + q) % BSIZE == o + (q - t);
    }
  }

  /** The sum of two words, which wraps if and only if it does not fit. */
  lemma SumWraps(a: Uint, b: Uint)
    ensures (a + b) % 0x1_0000_0000 == if a + b < 0x1_0000_0000 then a + b else a + b - 0x1_0000_0000
  {
  }

  lemma SliceContents(d: Disk, i: nat, off: nat, n: nat)
    requires i < |d.inodes| && off + n <= d.inodes[i].size <= MAXFILESIZE
    ensures Slice(d, i, off, n) == Contents(d, i)[off..off + n]
  {
    hide At;
  }

  lemma ChunkFits(off: nat, rest: nat)
    ensures Chunk(off, rest) <= rest && off % BSIZE + Chunk(off, rest) <= BSIZE && off == off / BSIZE * BSIZE + off % BSIZE
  {
  }

  /** A chunk stored in its block: the range is patched that much further. */
  lemma StoredStep(d: Disk, e: Disk, d': Disk, owner: map<nat, Place>, i: nat, off: nat, t: nat, c: nat, buf: seq<Byte>)
    requires i < |d.inodes| && SameShape(d, e) && Accounted(e, owner)
    requires t + c <= |buf| && off + |buf| <= MAXFILESIZE && (off + t) % BSIZE + c <= BSIZE && t < |buf|
    requires Going(d, e, i, off, t + c, |buf|) && GrownRefs(d, e, i, off / BSIZE, Next(off, |buf|))
    requires Patched(d, e, i, off, buf[..t])
    requires 0 < Ref(e, i, (off + t) / BSIZE) < |e.blocks|
    requires d' == Overwrite(e, i, (off + t) / BSIZE,
                     Splice(Data(e, i, (off + t) / BSIZE), (off + t) % BSIZE, buf[t..t + c]))
    ensures SameShape(d, d') && Going(d, d', i, off, t + c, |buf|)
    ensures GrownRefs(d, d', i, off / BSIZE, Next(off, |buf|)) && Patched(d, d', i, off, buf[..t + c])
  {
    hide Ref, Data, Accounted, Going, GrownRefs, Patched, Next, Splice;
    var k, o := (off + t) / BSIZE, (off + t) % BSIZE;
    Overwritten(e, owner, i, k, Splice(Data(e, i, k), o, buf[t..t + c]));
    GoingKept(d, e, d', i, off, t + c, |buf|);
    assert buf[..t + c] == buf[..t] + buf[t..t + c];
    PatchStep(d, e, d', i, off, buf[..t], k, o, buf[t..t + c]);
  }

  /** Progress is a matter of addresses only. */
  lemma GoingKept(d: Disk, e: Disk, d': Disk, i: nat, off: nat, t: nat, n: nat)
    requires i < |d.inodes| && off + n <= MAXFILESIZE && Going(d, e, i, off, t, n) && SameShape(e, d')
    requires GrownRefs(d, e, i, off / BSIZE, Next(off, n)) && SameMeta(e, d') && d'.used == e.used
    requires forall j: nat, m: nat :: InFile(e, j, m) ==> Ref(d', j, m) == Ref(e, j, m)
    ensures Going(d, d', i, off, t, n) && GrownRefs(d, d', i, off / BSIZE, Next(off, n))
  {
    hide Ref;
    assert FreeBlocks(d') == FreeBlocks(e);
    assert InFile(e, i, TABLE);
    HolesSame(e, d', i, Next(off, t), Next(off, n));
  }

  /** The contents of file i are overlaid with s at position off; it has no holes and no blocks to spare that it did
      not have before. */
  ghost predicate Overlaid(d: Disk, d': Disk, i: nat, off: nat, s: seq<Byte>) {
    && i < |d.inodes| && i < |d'.inodes| && off <= d.inodes[i].size <= MAXFILESIZE && d'.inodes[i].size <= MAXFILESIZE
    && Contents(d', i) == Overlay(Contents(d, i), off, s)
    && (Snug(d, i) ==> Snug(d', i)) && (Full(d, i) ==> Full(d', i))
  }

  /** What a write of s at position off of file i did: all of it, if the free blocks suffice; otherwise t bytes of it got
      into blocks, the size is the old one and no block is free any more. No other file changed. */
  ghost predicate Wrote(d: Disk, d': Disk, i: nat, off: nat, s: seq<Byte>, t: nat, ok: bool)
    requires i < |d.inodes| && off + |s| <= MAXFILESIZE
  {
    && (ok <==> |FreeBlocks(d)| >= Need(d, i, off / BSIZE, Next(off, |s|)))
    && OthersKept(d, d', i) && t <= |s| && Patched(d, d', i, off, s[..t])
    && Meta(d'.inodes[i]) == Meta(d.inodes[i].(size := d'.inodes[i].size))
    && (!ok ==> d'.inodes[i].size == d.inodes[i].size)
    && (ok ==> Overlaid(d, d', i, off, s) && t == |s| && Present(d', i, off, |s|))
    && Grew(d, d', i, off / BSIZE, Next(off, |s|))
    && TookFree(d, d', Need(d, i, off / BSIZE, Next(off, |s|)), ok)
  }

  /** There is a block for every byte of the range. */
  ghost predicate Present(d: Disk, i: nat, off: nat, n: nat)
    requires i < |d.inodes| && off + n <= MAXFILESIZE
  {
    forall k: nat :: off / BSIZE <= k < Next(off, n) ==> Ref(d, i, k) != 0
  }

  lemma PresentStays(d: Disk, i: nat, off: nat, n: nat, size: Uint)
    requires i < |d.inodes| && off + n <= MAXFILESIZE && Present(d, i, off, n)
    ensures Present(Resize(d, i, size), i, off, n)
  {
    ResizedRefs(d, i, size);
    hide Ref;
    assert forall k: nat :: off / BSIZE <= k < Next(off, n) ==> InFile(d, i, k);
  }

  lemma NothingNeeded(d: Disk, i: nat, off: nat, n: nat)
    requires i < |d.inodes| && off + n <= MAXFILESIZE && Present(d, i, off, n)
    ensures Need(d, i, off / BSIZE, Next(off, n)) == 0
  {
    NoHoles(d, i, off / BSIZE, Next(off, n));
  }

  lemma {:induction false} NoHoles(d: Disk, i: nat, lo: nat, hi: nat)
    requires i < |d.inodes| && hi <= MAXFILE && forall k: nat :: lo <= k < hi ==> Ref(d, i, k) != 0
    ensures Need(d, i, lo, hi) == 0
    decreases hi - lo
  {
    if lo < hi {
      NoHoles(d, i, lo + 1, hi);
      assert Ref(d, i, hi - 1) != 0;
    }
  }

  /** What was written is what a read of the same range gives, and the read needs no block. */
  lemma ReadsBack(d: Disk, d': Disk, i: nat, off: Uint, s: seq<Byte>)
    requires i < |d.inodes| && d.inodes[i].size <= MAXFILESIZE && |s| < 0x1_0000_0000
    requires off <= d.inodes[i].size && off + |s| <= MAXFILESIZE
    requires Patched(d, d', i, off, s) && Overlaid(d, d', i, off, s) && Present(d', i, off, |s|)
    ensures off + |s| <= d'.inodes[i].size && Need(d', i, off / BSIZE, Next(off, |s|)) == 0
    ensures Contents(d', i)[off..off + |s|] == s
  {
    NothingNeeded(d', i, off, |s|);
    hide Need, Present, Next;
    assert |Overlay(Contents(d, i), off, s)| >= off + |s|;
  }

  lemma GrownMeta(d: Disk, d': Disk, i: nat, lo: nat, hi: nat)
    requires GrownRefs(d, d', i, lo, hi) && i < |d.inodes|
    ensures SameShape(d, d') && d'.inodes[i].size == d.inodes[i].size
  {
    assert Meta(d'.inodes[i]) == Meta(d.inodes[i]);
  }

  /** The bitmap and the addresses do not meet. */
  lemma ClearedRef(d: Disk, e: Disk, i: nat, m: nat)
    requires Settable(d, i, m) && e == d.(used := e.used)
    ensures Settable(e, i, m) && SetRef(e, i, m, 0) == SetRef(d, i, m, 0).(used := e.used)
  {
  }

  lemma CutTable(d: Disk, d': Disk, i: nat, lo: nat, hi: nat)
    requires i < |d.inodes| && lo <= hi <= MAXFILE && CutAway(d, d', i, lo, hi)
    ensures SameShape(d, d') && Ref(d', i, TABLE) == Ref(d, i, TABLE)
    ensures lo <= NDIRECT <= hi ==> forall m: nat :: NDIRECT <= m < hi ==> Ref(d', i, m) == 0
    ensures hi >= NDIRECT ==> (TailEmpty(d', i, hi) <==> TailEmpty(d, i, hi))
  {
    hide Ref;
    assert forall m: nat :: m <= TABLE ==> InFile(d, i, m);
  }

  /** File i is cut off, or filled up with zeros, to the given size, and nothing else happens to any file. */
  ghost predicate Truncated(d: Disk, d': Disk, i: nat, size: nat) {
    && i < |d.inodes| && d.inodes[i].size <= MAXFILESIZE && size <= MAXFILESIZE && size < 0x1_0000_0000
    && OthersKept(d, d', i) && Meta(d'.inodes[i]) == Meta(d.inodes[i].(size := size))
    && Contents(d', i) == CutTo(Contents(d, i), size)
    && (Snug(d, i) ==> Snug(d', i)) && (Full(d, i) ==> Full(d', i))
  }

  /** What cutting file i to the given size frees: the blocks from there to its end, and the table with the last
      indirect one. */
  ghost function GivenUp(d: Disk, i: nat, size: Uint): set<nat>
    requires i < |d.inodes| && d.inodes[i].size <= MAXFILESIZE
  {
    Blocks(d, i, Ceil(size), Ceil(d.inodes[i].size)) +
    if TableGoes(Ceil(size), Ceil(d.inodes[i].size)) then {Ref(d, i, TABLE) as int} else {}
  }

  /** The table goes though a block behind the end is still in it. */
  ghost predicate Loses(d: Disk, i: nat, size: Uint)
    requires i < |d.inodes|
  {
    TableGoes(Ceil(size), Ceil(d.inodes[i].size)) && !TailEmpty(d, i, Ceil(d.inodes[i].size))
  }

  lemma CeilMono(m: nat, n: nat)
    requires m <= n <= MAXFILESIZE
    ensures Ceil(m) <= Ceil(n) <= MAXFILE
  {
  }

  lemma ShrunkShape(d: Disk, d': Disk, i: nat, k: nat, n: nat)
    requires i < |d.inodes| && n <= MAXFILE && Shrunk(d, d', i, k, n)
    ensures SameShape(d, d')
    ensures d'.used == d.used - (Blocks(d, i, k, n) + if TableGoes(k, n) then {Ref(d, i, TABLE) as int} else {})
  {
    hide Ref, Data;
  }

  lemma ExtendDone(d: Disk, e: Disk, d': Disk, owner: map<nat, Place>, i: nat, t: nat, ok: bool, size: Uint)
    requires i < |d.inodes| && d.inodes[i].size <= size <= MAXFILESIZE && Accounted(e, owner)
    requires GrownRefs(d, e, i, d.inodes[i].size / BSIZE, Next(d.inodes[i].size, size - d.inodes[i].size))
    requires t <= size - d.inodes[i].size && (ok ==> t == size - d.inodes[i].size)
    requires Patched(d, e, i, d.inodes[i].size, Nulls(size - d.inodes[i].size)[..t])
    requires d' == Resize(e, i, if ok then size else d.inodes[i].size)
    requires ok ==> forall k: nat ::
      d.inodes[i].size / BSIZE <= k < Next(d.inodes[i].size, size - d.inodes[i].size) ==> Ref(e, i, k) != 0
    ensures Accounted(d', owner)
    ensures ok ==> Truncated(d, d', i, size)
    ensures !ok ==>
      OthersKept(d, d', i) && Meta(d'.inodes[i]) == Meta(d.inodes[i]) && Contents(d', i) == Contents(d, i)
  {
    hide Ref, Data, GrownRefs, Accounted, Snug, Full, OthersKept;
    var off := d.inodes[i].size;
    var now := if ok then size else off;
    var s := Nulls(size - off)[..t];
    Resized(e, owner, i, now);
    ResizedRefs(e, i, now);
    GrownMeta(d, e, i, off / BSIZE, Next(off, size - off));
    WriteDone(d, e, d', i, off, s, Next(off, size - off), now);
    if ok {
      ExtendedContents(d, d', i, off, size - off, s);
      WriteTidy(d, e, d', i, off, size - off, size);
    } else {
      KeptContents(d, d', i, off, s);
    }
  }

  lemma ExtendedContents(d: Disk, d': Disk, i: nat, off: nat, n: nat, s: seq<Byte>)
    requires Patched(d, d', i, off, s) && off == d.inodes[i].size && s == Nulls(n) && off + n <= MAXFILESIZE
    requires d'.inodes[i].size == off + n
    ensures Contents(d', i) == CutTo(Contents(d, i), off + n)
  {
    PatchedContents(d, d', i, off, s);
    hide Contents;
    assert Contents(d, i)[..off] == Contents(d, i);
    assert n == 0 ==> s == [];
  }

  lemma KeptContents(d: Disk, d': Disk, i: nat, off: nat, s: seq<Byte>)
    requires Patched(d, d', i, off, s) && off == d.inodes[i].size <= MAXFILESIZE && d'.inodes[i].size == off
    ensures Contents(d', i) == Contents(d, i)
  {
    hide At;
    forall p: nat | p < off
      ensures Contents(d', i)[p] == Contents(d, i)[p]
    {
      assert Contents(d', i)[p] == At(d', i, 0 + p) && Contents(d, i)[p] == At(d, i, 0 + p);
    }
  }

  function NoAddresses(): (a: Addresses)
    ensures forall k :: 0 <= k <= NDIRECT ==> a[k] == 0
  {
    seq(NDIRECT + 1, _ => 0)
  }

  /** An inode without blocks can be cleared. */
  lemma EmptyInode(d: Disk, d': Disk, owner: map<nat, Place>, i: nat)
    requires i < |d.inodes| && Accounted(d, owner)
    requires exists kind: nat :: d' == d.(inodes := d.inodes[i := Dinode(kind, 0, 0, 0, 0, NoAddresses())])
    ensures Snug(d, i) && d.inodes[i].size == 0 ==> Accounted(d', owner)
  {
    if Snug(d, i) && d.inodes[i].size == 0 {
      forall j: nat, m: nat | InFile(d, j, m)
        ensures Ref(d', j, m) == Ref(d, j, m)
      {
      }
      SameRefs(d, d', owner);
    }
  }

  /** All blocks in front of number b are taken. */
  ghost predicate AllUsed(used: set<nat>, b: nat, size: nat) {
    forall c: nat :: c < b && c < size ==> c in used
  }

  lemma AllTaken(d: Disk, owner: map<nat, Place>)
    requires Accounted(d, owner) && AllUsed(d.used, d.g.size, d.g.size)
    ensures FreeBlocks(d) == {}
  {
  }

  /** When the first clear bit is not that of a data block, no data block is free. */
  lemma ClearOutside(d: Disk, owner: map<nat, Place>, c: nat)
    requires Accounted(d, owner) && AllUsed(d.used, c, d.g.size) && c !in d.used && c < d.g.size
    ensures if d.g.IsData(c) then c in FreeBlocks(d) else FreeBlocks(d) == {}
  {
  }

  class Image {
    const g: Geometry
    var inodes: seq<Dinode>
    /** The bitmap blocks one behind the other. */
    var bitmap: seq<bv8>
    var blocks: seq<Block>
    /** Which block of which file a data block is. */
    ghost var owner: map<nat, Place>

    constructor (g: Geometry, inodes: seq<Dinode>, bitmap: seq<bv8>, blocks: seq<Block>, ghost owner: map<nat, Place>)
      requires g.size <= 8 * |bitmap| && Accounted(Disk(g, inodes, UsedSet(bitmap), blocks), owner)
      ensures Valid() && D() == Disk(g, inodes, UsedSet(bitmap), blocks)
    {
      this.g, this.inodes, this.bitmap, this.blocks, this.owner := g, inodes, bitmap, blocks, owner;
    }

    ghost function D(): Disk
      reads this
    {
      Disk(g, inodes, UsedSet(bitmap), blocks)
    }

    ghost predicate Valid()
      reads this
    {
      g.size <= 8 * |bitmap| && Accounted(D(), owner)
    }

    /** `(bp[bi / 8] & m) == 0` for block b + bi */
    method IsFree(b: nat, bi: nat) returns (free: bool)
      requires b % 8 == 0 && b + bi < 8 * |bitmap|
      ensures free <==> b + bi !in UsedSet(bitmap)
    {
      hide Bit;
      ByteOf(b, bi);
      BitIs(bitmap, b + bi);
      free := bitmap[b / 8 + bi / 8] & Mask(bi % 8) == 0;
    }

    /** The bit of a free block is set; only a data block is cleared and handed out. */
    method Take(b: nat, bi: nat) returns (r: int)
      requires b % 8 == 0 && b + bi < g.size <= 8 * |bitmap| && |blocks| == g.size
      modifies this`bitmap, this`blocks
      ensures |bitmap| == old(|bitmap|)
      ensures g.IsData(b + bi) ==> r == b + bi && D() == Mark(old(D()), b + bi)
      ensures !g.IsData(b + bi) ==> r == -1 && D() == old(D()).(used := old(D().used) + {b + bi})
    {
      hide Bit, Mask, SetBit;
      ByteOf(b, bi);
      SetBitUsed(bitmap, b + bi);
      BytesChanged(bitmap, b + bi);
      bitmap := bitmap[b / 8 + bi / 8 := bitmap[b / 8 + bi / 8] | Mask(bi % 8)];
      if !g.IsData(b + bi) {
        return -1;
      }
      blocks := blocks[b + bi := Zeros()];
      return b + bi;
    }

    /** The first zero bit decides: a data block is taken and cleared; any other is set all the same, but nothing is
        handed out. */
    method Balloc() returns (r: int)
      requires Valid()
      modifies this`bitmap, this`blocks
      ensures |bitmap| == old(|bitmap|)
      ensures r >= 0 ==> r in FreeBlocks(old(D())) && D() == Mark(old(D()), r)
      ensures r >= 0 ==> forall c: nat :: c < r ==> c in old(D().used)
      ensures r < 0 ==> FreeBlocks(old(D())) == {}
      ensures r < 0 ==> D() == old(D()) || exists c: nat :: !g.IsData(c) && D() == old(D()).(used := old(D().used) + {c})
    {
      hide Ref, Owned, Held, UsedSet, Accounted;
      ValidShape();
      var b := 0;
      while b < g.size
        invariant 0 <= b && b % 8 == 0 && D() == old(D()) && |bitmap| == old(|bitmap|)
        invariant AllUsed(D().used, b, g.size)
      {
        var bi := FirstClear(b);
        if bi < 8 * BSIZE && b + bi < g.size {
          ClearOutside(D(), owner, b + bi);
          r := Take(b, bi);
          return;
        }
        b := b + 8 * BSIZE;
      }
      r := -1;
      AllTaken(D(), owner);
    }

    lemma ValidShape()
      requires Valid()
      ensures g.Valid() && g.size <= 8 * |bitmap| && |blocks| == g.size
    {
    }

    /** The inner loop of `balloc`, over the bits of the bitmap block for blocks from b on. */
    method FirstClear(b: nat) returns (bi: nat)
      requires b % 8 == 0 && g.size <= 8 * |bitmap| && AllUsed(D().used, b, g.size)
      ensures AllUsed(D().used, b + bi, g.size) && bi <= 8 * BSIZE
      ensures bi < 8 * BSIZE && b + bi < g.size ==> b + bi !in D().used
      ensures bi == 8 * BSIZE || b + bi >= g.size || b + bi !in D().used
    {
      hide UsedSet;
      bi := 0;
      while bi < 8 * BSIZE && b + bi < g.size
        invariant 0 <= bi <= 8 * BSIZE && AllUsed(D().used, b + bi, g.size)
      {
        var free := IsFree(b, bi);
        if free {
          return;
        }
        bi := bi + 1;
      }
    }

    /** `bfree`; anything but a data block is refused. */
    method Bfree(b: Uint) returns (r: int)
      requires g.Valid() && g.size <= 8 * |bitmap|
      modifies this`bitmap
      ensures |bitmap| == old(|bitmap|)
      ensures r == if g.IsData(b) then 0 else -1
      ensures D().used == if g.IsData(b) then old(D().used) - {b as int} else old(D().used)
    {
      if !g.IsData(b) {
        return -1;
      }
      ClearBitUsed(bitmap, b);
      BytesChanged(bitmap, b);
      bitmap := bitmap[b / 8 := bitmap[b / 8] & !Mask(b % 8)];
      r := 0;
    }

    /** Stores the address of block n of file i. */
    method StoreRef(i: nat, n: nat, a: Uint)
      requires |inodes| == g.ninodes && Settable(D(), i, n)
      modifies this`inodes, this`blocks
      ensures D() == SetRef(old(D()), i, n, a)
    {
      var ino := inodes[i];
      if n < NDIRECT {
        inodes := inodes[i := ino.(addrs := ino.addrs[n := a])];
      } else if n == TABLE {
        inodes := inodes[i := ino.(addrs := ino.addrs[NDIRECT := a])];
      } else {
        var t := ino.addrs[NDIRECT];
        blocks := blocks[t := SetWord(blocks[t], n - NDIRECT, a)];
      }
    }

    /** A hole gets a new block, if there is one. */
    method Fill(i: nat, n: nat) returns (ok: bool)
      requires Valid() && Settable(D(), i, n) && Ref(D(), i, n) == 0
      modifies this
      ensures Valid()
      ensures ok ==> Filled(old(D()), D(), i, n)
      ensures !ok ==> FreeBlocks(old(D())) == {} == FreeBlocks(D()) && Grown(old(D()), D(), i, n, n)
    {
      ghost var d := D();
      var b := Balloc();
      hide Ref, Data, UsedSet, SetRef;
      if b < 0 {
        SameAll(d, D(), owner, i, n);
        return false;
      }
      Allocate(d, owner, i, n, b);
      StoreRef(i, n, b);
      owner := owner[b := (i, n)];
      ok := true;
    }

    /** Reads the address of block n of file i. */
    method LoadRef(i: nat, n: nat) returns (a: Uint)
      requires Settable(D(), i, n)
      ensures a == Ref(D(), i, n)
    {
      var ino := inodes[i];
      if n < NDIRECT {
        a := ino.addrs[n];
      } else if n == TABLE {
        a := ino.addrs[NDIRECT];
      } else {
        a := GetWord(blocks[ino.addrs[NDIRECT]], n - NDIRECT);
      }
    }

    /** An address is looked up; a hole gets a block first. n is the block that is wanted in the end. */
    method Reach(i: nat, m: nat, n: nat) returns (r: int)
      requires Valid() && Settable(D(), i, m) && n < MAXFILE && (m == n || (m == TABLE && n >= NDIRECT))
      modifies this
      ensures Valid() && Grown(old(D()), D(), i, n, n + 1) && SameRefsBut(old(D()), D(), i, m)
      ensures r >= 0 ==> r == Ref(D(), i, m) && g.IsData(r)
      ensures r >= 0 ==> |FreeBlocks(D())| + (if Ref(old(D()), i, m) == 0 then 1 else 0) == |FreeBlocks(old(D()))|
      ensures r < 0 ==> FreeBlocks(old(D())) == {} == FreeBlocks(D()) && Ref(old(D()), i, m) == 0
    {
      ghost var d := D();
      hide Data, UsedSet, Filled, FreeBlocks, Ref;
      r := LoadRef(i, m);
      if r == 0 {
        var ok := Fill(i, m);
        if !ok {
          GrownNone(d, D(), i, n, m);
          return -1;
        }
        FilledGrown(d, D(), i, m, n);
        r := LoadRef(i, m);
      }
      assert Owned(D(), owner, i, m);
    }

    /** `bmap`: the block that holds block n of file i, which is allocated if it was a hole. Negative is fatal. */
    method Bmap(i: nat, n: nat) returns (r: int)
      requires Valid() && i < |inodes|
      modifies this
      ensures Valid()
      ensures n >= MAXFILE ==> r == 0 && D() == old(D())
      ensures n < MAXFILE ==> Grown(old(D()), D(), i, n, n + 1)
      ensures n < MAXFILE && r >= 0 ==> r == Ref(D(), i, n) && g.IsData(r)
      ensures n < MAXFILE && r >= 0 ==> |FreeBlocks(D())| + Need(old(D()), i, n, n + 1) == |FreeBlocks(old(D()))|
      ensures n < MAXFILE && r < 0 ==> |FreeBlocks(old(D()))| < Need(old(D()), i, n, n + 1) && FreeBlocks(D()) == {}
    {
      if n >= MAXFILE {
        return 0;
      }
      ghost var d := D();
      assert InFile(d, i, n) && InFile(d, i, TABLE);
      NeedOne(d, i, n);
      hide Data, UsedSet, Need, FreeBlocks, Ref;
      if n >= NDIRECT {
        r := Reach(i, TABLE, n);
        if r < 0 {
          return;
        }
      }
      ghost var e := D();
      r := Reach(i, n, n);
      GrownTwice(d, e, D(), i, n);
    }

    /** `memmove(buf, img[b] + o, m)` */
    method CopyOut(buf: array<Byte>, at: nat, b: nat, o: nat, m: nat)
      requires b < |blocks| && o + m <= BSIZE && at + m <= buf.Length
      modifies buf
      ensures buf[..] == old(buf[..at]) + blocks[b][o..o + m] + old(buf[at + m..])
    {
      forall k | at <= k < at + m {
        buf[k] := blocks[b][o + k - at];
      }
    }

    /** The chunk of block b that was asked for goes to the buffer. */
    method CopyChunk(buf: array<Byte>, t: nat, b: nat, m: nat, ghost i: nat, off0: nat, n: nat, ghost d: Disk)
      requires |d.inodes| == |inodes| && i < |inodes| && SameShape(d, D()) && SameData(d, D())
      requires t < n <= buf.Length && off0 + n <= MAXFILESIZE && m == Chunk(off0 + t, n - t) && t + m <= n
      requires b == Ref(D(), i, (off0 + t) / BSIZE) && 0 < b < |blocks| && buf[..t] == Slice(d, i, off0, t)
      modifies buf
      ensures buf[..t + m] == Slice(d, i, off0, t + m) && buf[n..] == old(buf[n..])
    {
      hide Data, UsedSet, Ref, SameData, Slice;
      CopyOut(buf, t, b, (off0 + t) % BSIZE, m);
      ReadBytes(d, D(), i, off0, t, n, b, buf[..t], buf[..t + m]);
    }

    /** The block of the next chunk, n bytes from position off0 on being gone through. */
    method NextBlock(i: nat, off0: nat, t: nat, n: nat, ghost d: Disk) returns (b: int)
      requires Valid() && i < |inodes| && t < n && off0 + n <= MAXFILESIZE
      requires SameShape(d, D()) && Going(d, D(), i, off0, t, n)
      modifies this
      ensures Valid() && SameShape(old(D()), D()) && SameData(old(D()), D())
      ensures GrownRefs(d, D(), i, off0 / BSIZE, Next(off0, n))
      ensures b >= 0 ==> g.IsData(b) && b == Ref(D(), i, (off0 + t) / BSIZE)
      ensures b >= 0 ==> var c := Chunk(off0 + t, n - t); 0 < c <= n - t && Going(d, D(), i, off0, t + c, n)
      ensures b < 0 ==> |FreeBlocks(d)| < Need(d, i, off0 / BSIZE, Next(off0, n)) && FreeBlocks(D()) == {}
    {
      ghost var e := D();
      var k := (off0 + t) / BSIZE;
      assert k < MAXFILE;
      hide Data, Need, FreeBlocks, UsedSet, Ref, Grown, Going, Accounted, SameData, SameMeta, Ceil, Chunk, Next;
      b := Bmap(i, k);
      assert Grown(e, D(), i, k, k + 1);
      if b < 0 {
        StepStuck(d, e, D(), i, off0, t, n);
      } else {
        DataNotZero(D(), owner, b);
        StepOn(d, e, D(), i, off0, t, n);
      }
    }

    /** The loop of `iread`. */
    method ReadRange(i: nat, buf: array<Byte>, off: nat, n: nat) returns (ok: bool)
      requires Valid() && i < |inodes| && off + n <= MAXFILESIZE && n <= buf.Length
      modifies this, buf
      ensures Valid() && buf[n..] == old(buf[n..]) && Grown(old(D()), D(), i, off / BSIZE, Next(off, n))
      ensures ok <==> |FreeBlocks(old(D()))| >= Need(old(D()), i, off / BSIZE, Next(off, n))
      ensures ok ==> buf[..n] == Slice(old(D()), i, off, n)
    {
      ghost var d := D();
      GoingStart(d, i, off, n);
      hide Data, Need, FreeBlocks, UsedSet, Ref, Going, Accounted, SameData, GrownRefs, Ceil, Chunk, Next;
      var t := 0;
      ok := true;
      while t < n && ok
        invariant 0 <= t <= n && |inodes| == |d.inodes| && Valid() && SameShape(d, D()) && SameData(d, D())
        invariant GrownRefs(d, D(), i, off / BSIZE, Next(off, n)) && buf[n..] == old(buf[n..])
        invariant ok ==> Going(d, D(), i, off, t, n) && buf[..t] == Slice(d, i, off, t)
        invariant !ok ==> |FreeBlocks(d)| < Need(d, i, off / BSIZE, Next(off, n))
        decreases n - t, ok
      {
        ok, t := ReadStep(i, buf, off, t, n, d);
      }
      if ok {
        GoingEnd(d, D(), i, off, n);
      }
    }

    method ReadStep(i: nat, buf: array<Byte>, off: nat, t: nat, n: nat, ghost d: Disk) returns (ok: bool, t': nat)
      requires Valid() && i < |inodes| && t < n <= buf.Length && off + n <= MAXFILESIZE && |inodes| == |d.inodes|
      requires SameShape(d, D()) && SameData(d, D()) && Going(d, D(), i, off, t, n) && buf[..t] == Slice(d, i, off, t)
      modifies this, buf
      ensures Valid() && SameShape(d, D()) && SameData(d, D()) && buf[n..] == old(buf[n..]) && |inodes| == |d.inodes|
      ensures GrownRefs(d, D(), i, off / BSIZE, Next(off, n))
      ensures ok ==> t < t' <= n && Going(d, D(), i, off, t', n) && buf[..t'] == Slice(d, i, off, t')
      ensures !ok ==> t' == t && |FreeBlocks(d)| < Need(d, i, off / BSIZE, Next(off, n))
    {
      ghost var e := D();
      hide Need, FreeBlocks, UsedSet, Ref, Going, Accounted, GrownRefs, Ceil, Chunk, Next, Slice, Data;
      var b := NextBlock(i, off, t, n, d);
      if b < 0 {
        return false, t;
      }
      AccountedShape(D(), owner, i, (off + t) / BSIZE);
      var c := Chunk(off + t, n - t);
      CopyChunk(buf, t, b, c, i, off, n, d);
      return true, t + c;
    }

    /** `iread`: -1 for a device or a position behind the end, otherwise the number of bytes put into the buffer. */
    method Iread(i: nat, buf: array<Byte>, n: Uint, off: Uint) returns (r: Result)
      requires Valid() && i < |inodes| && inodes[i].size <= MAXFILESIZE && n as int <= buf.Length
      modifies this, buf
      ensures Valid() && buf[n..] == old(buf[n..])
      ensures r == Done(-1) <==>
        old(inodes[i].kind) == T_DEV || off > old(inodes[i].size) || off + n >= 0x1_0000_0000
      ensures r == Done(-1) ==> D() == old(D())
      ensures r != Done(-1) ==>
        var m := if n <= old(inodes[i].size) - off then n else old(inodes[i].size) - off;
        && Grown(old(D()), D(), i, off / BSIZE, Next(off, m))
        && (r == Fatal <==> |FreeBlocks(old(D()))| < Need(old(D()), i, off / BSIZE, Next(off, m)))
        && (r != Fatal ==> r == Done(m) && buf[..m] == Contents(old(D()), i)[off..off + m])
    {
      SumWraps(off, n);
      if inodes[i].kind == T_DEV || off > inodes[i].size || (off + n) % 0x1_0000_0000 < off {
        return Done(-1);
      }
      var m: nat := n;
      if (off + n) % 0x1_0000_0000 > inodes[i].size {
        m := inodes[i].size - off;
      }
      SliceContents(D(), i, off, m);
      hide UsedSet, Accounted, Need, FreeBlocks, Grown, Slice, Next, Contents;
      ghost var tail := buf[m..];
      assert buf[n..] == tail[n - m..];
      var ok := ReadRange(i, buf, off, m);
      assert buf[m..] == tail && buf[n..] == tail[n - m..];
      r := if ok then Done(m) else Fatal;
    }

    /** `memmove(img[b] + o, s, m)`, b being block k of file i. */
    method Store(ghost i: nat, ghost k: nat, b: nat, o: nat, s: seq<Byte>)
      requires Valid() && i < |inodes| && k < TABLE && b == Ref(D(), i, k) && 0 < b < |blocks| && o + |s| <= BSIZE
      modifies this`blocks
      ensures Valid() && D() == Overwrite(old(D()), i, k, Splice(old(Data(D(), i, k)), o, s))
    {
      hide Ref, UsedSet, Accounted, GetWord;
      var data := Splice(blocks[b], o, s);
      Overwritten(D(), owner, i, k, data);
      blocks := blocks[b := data];
    }

    /** The chunk [t, t + c) of the buffer goes to its block. */
    method StoreChunk(ghost i: nat, b: nat, off: nat, t: nat, c: nat, buf: seq<Byte>, ghost d: Disk)
      requires Valid() && i < |inodes| && i < |d.inodes| && SameShape(d, D())
      requires t + c <= |buf| && off + |buf| <= MAXFILESIZE && t < |buf| && c == Chunk(off + t, |buf| - t)
      requires b == Ref(D(), i, (off + t) / BSIZE) && 0 < b < |blocks|
      requires Going(d, D(), i, off, t + c, |buf|) && GrownRefs(d, D(), i, off / BSIZE, Next(off, |buf|))
      requires Patched(d, D(), i, off, buf[..t])
      modifies this`blocks
      ensures Valid() && SameShape(d, D()) && Going(d, D(), i, off, t + c, |buf|)
      ensures GrownRefs(d, D(), i, off / BSIZE, Next(off, |buf|)) && Patched(d, D(), i, off, buf[..t + c])
    {
      ghost var e := D();
      ChunkFits(off + t, |buf| - t);
      hide Need, FreeBlocks, UsedSet, Ref, Going, Accounted, GrownRefs, Chunk, Next, Data, Patched, Splice;
      Store(i, (off + t) / BSIZE, b, (off + t) % BSIZE, buf[t..t + c]);
      StoredStep(d, e, D(), owner, i, off, t, c, buf);
    }

    method WriteStep(i: nat, buf: seq<Byte>, off: nat, t: nat, ghost d: Disk) returns (ok: bool, t': nat)
      requires Valid() && i < |inodes| && t < |buf| && off + |buf| <= MAXFILESIZE && |inodes| == |d.inodes|
      requires SameShape(d, D()) && Going(d, D(), i, off, t, |buf|) && Patched(d, D(), i, off, buf[..t])
      modifies this
      ensures Valid() && SameShape(d, D()) && |inodes| == |d.inodes|
      ensures GrownRefs(d, D(), i, off / BSIZE, Next(off, |buf|)) && t' <= |buf| && Patched(d, D(), i, off, buf[..t'])
      ensures ok ==> t < t' && Going(d, D(), i, off, t', |buf|)
      ensures !ok ==> t' == t && |FreeBlocks(d)| < Need(d, i, off / BSIZE, Next(off, |buf|)) && FreeBlocks(D()) == {}
    {
      ghost var e := D();
      hide Need, FreeBlocks, UsedSet, Ref, Going, Accounted, GrownRefs, Ceil, Chunk, Next, Data, Patched, SameData, Splice;
      var b := NextBlock(i, off, t, |buf|, d);
      PatchedStill(d, e, D(), i, off, buf[..t]);
      if b < 0 {
        return false, t;
      }
      AccountedShape(D(), owner, i, (off + t) / BSIZE);
      var c := Chunk(off + t, |buf| - t);
      StoreChunk(i, b, off, t, c, buf, d);
      return true, t + c;
    }

    /** The loop of `iwrite`, and with zeros for the buffer that of `itruncate`. */
    method WriteRange(i: nat, buf: seq<Byte>, off: nat) returns (ok: bool, ghost t: nat)
      requires Valid() && i < |inodes| && off + |buf| <= MAXFILESIZE
      modifies this
      ensures Valid() && |inodes| == |old(inodes)| && GrownRefs(old(D()), D(), i, off / BSIZE, Next(off, |buf|))
      ensures t <= |buf| && Patched(old(D()), D(), i, off, buf[..t])
      ensures ok <==> |FreeBlocks(old(D()))| >= Need(old(D()), i, off / BSIZE, Next(off, |buf|))
      ensures ok ==> t == |buf| && forall k: nat :: off / BSIZE <= k < Next(off, |buf|) ==> Ref(D(), i, k) != 0
      ensures TookFree(old(D()), D(), Need(old(D()), i, off / BSIZE, Next(off, |buf|)), ok)
    {
      ghost var d := D();
      GoingStart(d, i, off, |buf|);
      hide Data, Need, FreeBlocks, UsedSet, Ref, Going, Accounted, SameData, GrownRefs, Ceil, Chunk, Next;
      var done := 0;
      ok := true;
      while done < |buf| && ok
        invariant 0 <= done <= |buf| && |inodes| == |d.inodes| && Valid() && SameShape(d, D())
        invariant GrownRefs(d, D(), i, off / BSIZE, Next(off, |buf|)) && Patched(d, D(), i, off, buf[..done])
        invariant ok ==> Going(d, D(), i, off, done, |buf|)
        invariant !ok ==> |FreeBlocks(d)| < Need(d, i, off / BSIZE, Next(off, |buf|)) && FreeBlocks(D()) == {}
        decreases |buf| - done, ok
      {
        ok, done := WriteStep(i, buf, off, done, d);
      }
      t := done;
      if ok {
        GoingEnd(d, D(), i, off, |buf|);
        GoingTook(d, D(), i, off, |buf|);
      }
    }

    /** `iwrite`: -1 for a device, a position behind the end or a file that would get too long; otherwise all of it. */
    method Iwrite(i: nat, buf: seq<Byte>, off: Uint) returns (r: Result, ghost t: nat)
      requires Valid() && i < |inodes| && inodes[i].size <= MAXFILESIZE && |buf| < 0x1_0000_0000
      modifies this
      ensures Valid() && |inodes| == |old(inodes)|
      ensures r == Done(-1) <==>
        old(inodes[i].kind) == T_DEV || off > old(inodes[i].size) || off + |buf| > MAXFILESIZE
      ensures r == Done(-1) ==> D() == old(D())
      ensures r != Done(-1) ==> r == Fatal || r == Done(|buf|)
      ensures r != Done(-1) ==> Wrote(old(D()), D(), i, off, buf, t, r != Fatal)
    {
      SumWraps(off, |buf|);
      hide Accounted, UsedSet, Wrote;
      t := 0;
      if inodes[i].kind == T_DEV || off > inodes[i].size || (off + |buf|) % 0x1_0000_0000 < off {
        return Done(-1), 0;
      }
      if (off + |buf|) % 0x1_0000_0000 > MAXFILESIZE {
        return Done(-1), 0;
      }
      var ok;
      ok, t := WriteFile(i, buf, off);
      r := if ok then Done(|buf|) else Fatal;
    }

    /** The loop of `iwrite`, and the new size. */
    method WriteFile(i: nat, buf: seq<Byte>, off: Uint) returns (ok: bool, ghost t: nat)
      requires Valid() && i < |inodes| && off <= inodes[i].size <= MAXFILESIZE && off + |buf| <= MAXFILESIZE
      modifies this
      ensures Valid() && |inodes| == |old(inodes)| && Wrote(old(D()), D(), i, off, buf, t, ok)
    {
      ghost var d := D();
      hide Data, Need, FreeBlocks, UsedSet, Ref, Going, Accounted, SameData, Next, GrownRefs, Patched, Snug, Full, Grew;
      ok, t := WriteRange(i, buf, off);
      ghost var e := D();
      GrownMeta(d, e, i, off / BSIZE, Next(off, |buf|));
      if ok && |buf| > 0 && off + |buf| > inodes[i].size {
        inodes := inodes[i := inodes[i].(size := off + |buf|)];
      }
      Resized(e, owner, i, inodes[i].size);
      ResizedRefs(e, i, inodes[i].size);
      assert D() == Resize(e, i, inodes[i].size);
      assert buf[..|buf|] == buf;
      WriteDone(d, e, D(), i, off, buf[..t], Next(off, |buf|), inodes[i].size);
      GrewResized(d, e, D(), i, off / BSIZE, Next(off, |buf|));
      if ok {
        PatchedContents(d, D(), i, off, buf);
        WriteTidy(d, e, D(), i, off, |buf|, inodes[i].size);
        PresentStays(e, i, off, |buf|, inodes[i].size);
      }
    }

    /** `bfree` of block m of file i, and its address cleared; zero is no block that could be freed. */
    method Drop(i: nat, m: nat)
      requires Valid() && Settable(D(), i, m)
      modifies this`inodes, this`bitmap, this`blocks
      ensures |bitmap| == |old(bitmap)|
      ensures D() == if old(Ref(D(), i, m)) == 0 then old(D()) else Release(old(D()), i, m)
    {
      ghost var d := D();
      var a := LoadRef(i, m);
      AccountedShape(d, owner, i, m);
      if a == 0 {
        HoleCleared(d, i, m);
      }
      hide UsedSet, Ref, SetRef, Accounted;
      var r := Bfree(a);
      assert D() == d.(used := D().used);
      ClearedRef(d, D(), i, m);
      StoreRef(i, m, 0);
    }

    /** A loop of `itruncate`: blocks [lo, hi) of file i are given back. */
    method DropRange(i: nat, lo: nat, hi: nat)
      requires Valid() && i < |inodes| && lo <= MAXFILE && hi <= MAXFILE
      requires hi > NDIRECT ==> Ref(D(), i, TABLE) != 0
      modifies this`inodes, this`bitmap, this`blocks
      ensures Valid() && |inodes| == |old(inodes)|
      ensures CutAway(old(D()), D(), i, lo, if lo < hi then hi else lo)
    {
      ghost var d := D();
      CutNothing(d, i, lo);
      hide UsedSet, Ref, Accounted, Release, CutAway;
      var m := lo;
      while m < hi
        invariant lo <= m && (m <= hi || m == lo) && |inodes| == |d.inodes| && Valid() && CutAway(d, D(), i, lo, m)
      {
        m := DropStep(i, lo, m, hi, d);
      }
    }

    method DropStep(i: nat, lo: nat, m: nat, ghost hi: nat, ghost d: Disk) returns (m': nat)
      requires Valid() && i < |inodes| && |inodes| == |d.inodes| && lo <= m < hi <= MAXFILE
      requires hi > NDIRECT ==> Ref(d, i, TABLE) != 0
      requires CutAway(d, D(), i, lo, m)
      modifies this`inodes, this`bitmap, this`blocks
      ensures m' == m + 1 && Valid() && |inodes| == |d.inodes| && CutAway(d, D(), i, lo, m + 1)
    {
      ghost var e := D();
      assert InFile(d, i, TABLE);
      AccountedShape(e, owner, i, TABLE);
      hide UsedSet, Ref, Accounted, Release;
      Drop(i, m);
      CutStep(d, e, D(), owner, i, lo, m);
      m' := m + 1;
    }

    /** The first half of `itruncate`, n being the number of blocks of the file and k of those that stay. */
    method Shrink(i: nat, k: nat, n: nat)
      requires Valid() && i < |inodes| && k <= n <= MAXFILE
      requires n > NDIRECT ==> Ref(D(), i, TABLE) != 0
      modifies this`inodes, this`bitmap, this`blocks
      ensures |inodes| == |old(inodes)| && Shrunk(old(D()), D(), i, k, n)
      ensures TableGoes(k, n) && !old(TailEmpty(D(), i, n)) ==> forall o: map<nat, Place> :: !Accounted(D(), o)
      ensures !(TableGoes(k, n) && !old(TailEmpty(D(), i, n))) ==> Valid()
    {
      ghost var d := D();
      hide UsedSet, Ref, Accounted, Release, CutAway, Shrunk;
      DropRange(i, Low(k), Low(n));
      ghost var e := D();
      CutTable(d, e, i, Low(k), Low(n));
      DropRange(i, High(k), High(n));
      CutTwice(d, e, D(), i, k, n);
      if n > NDIRECT && k <= NDIRECT {
        e := D();
        CutTable(d, e, i, k, n);
        TableReleased(e, owner, i, n);
        Drop(i, TABLE);
        ShrunkTable(d, e, D(), i, k, n);
      } else {
        ShrunkDirect(d, D(), i, k, n);
      }
    }

    /** `itruncate` to a smaller size. */
    method Cut(i: nat, size: Uint)
      requires Valid() && i < |inodes| && size < inodes[i].size <= MAXFILESIZE
      requires Ceil(inodes[i].size) > NDIRECT ==> Ref(D(), i, TABLE) != 0
      modifies this`inodes, this`bitmap, this`blocks
      ensures |inodes| == |old(inodes)| && inodes[i].size == size
      ensures Loses(old(D()), i, size) ==> forall o: map<nat, Place> :: !Accounted(D(), o)
      ensures !Loses(old(D()), i, size) ==> Valid()
      ensures D().used == old(D().used) - GivenUp(old(D()), i, size)
      ensures Truncated(old(D()), D(), i, size)
    {
      ghost var d := D();
      hide UsedSet, Ref, Accounted, Shrunk, OthersKept, Snug, Full, CutTo, Contents, Ceil;
      CeilMono(size, inodes[i].size);
      Shrink(i, Ceil(size), Ceil(inodes[i].size));
      ghost var e := D();
      ShrunkShape(d, e, i, Ceil(size), Ceil(d.inodes[i].size));
      inodes := inodes[i := inodes[i].(size := size)];
      assert D() == Resize(e, i, size);
      ShrunkFile(d, e, D(), i, size);
      Resized(e, owner, i, size);
      forall o: map<nat, Place> | Loses(d, i, size)
        ensures !Accounted(D(), o)
      {
        Resized(e, o, i, size);
      }
    }

    /** `itruncate` to a size that is not smaller: zeros are written up to the new end. */
    method Extend(i: nat, size: Uint) returns (ok: bool)
      requires Valid() && i < |inodes| && inodes[i].size <= size <= MAXFILESIZE
      modifies this
      ensures Valid() && |inodes| == |old(inodes)|
      ensures ok <==> |FreeBlocks(old(D()))| >= Need(old(D()), i, old(inodes[i].size) / BSIZE,
                                                   Next(old(inodes[i].size), size - old(inodes[i].size)))
      ensures ok ==> inodes[i].size == size && Truncated(old(D()), D(), i, size)
      ensures !ok ==> OthersKept(old(D()), D(), i) && Meta(inodes[i]) == Meta(old(inodes[i]))
      ensures !ok ==> Contents(D(), i) == old(Contents(D(), i))
    {
      ghost var d := D();
      hide Data, Need, FreeBlocks, UsedSet, Ref, Accounted, GrownRefs, Patched, Snug, Full, OthersKept, Contents, Next;
      var off := inodes[i].size;
      ghost var t;
      ok, t := WriteRange(i, Nulls(size - off), off);
      ghost var e := D();
      GrownMeta(d, e, i, off / BSIZE, Next(off, size - off));
      if ok {
        inodes := inodes[i := inodes[i].(size := size)];
      }
      assert D() == Resize(e, i, inodes[i].size);
      ExtendDone(d, e, D(), owner, i, t, ok, size);
    }

    /** `itruncate`: -1 for a device or a size beyond the limit; otherwise the contents are cut off or filled up with
        zeros, whatever an earlier cut left behind the end. */
    method Itruncate(i: nat, size: Uint) returns (r: Result)
      requires Valid() && i < |inodes| && inodes[i].size <= MAXFILESIZE
      requires inodes[i].kind != T_DEV && size < inodes[i].size && Ceil(inodes[i].size) > NDIRECT
        ==> Ref(D(), i, TABLE) != 0
      modifies this
      ensures |inodes| == |old(inodes)|
      ensures old(inodes[i].kind) == T_DEV || size > MAXFILESIZE ==> r == Done(-1) && Valid() && D() == old(D())
      ensures old(inodes[i].kind) != T_DEV && size < old(inodes[i].size) ==>
        && r == Done(0) && Truncated(old(D()), D(), i, size)
        && D().used == old(D().used) - GivenUp(old(D()), i, size)
        && (Valid() <==> !Loses(old(D()), i, size))
      ensures old(inodes[i].kind) != T_DEV && old(inodes[i].size) <= size <= MAXFILESIZE ==>
        && Valid()
        && (r == Fatal <==> |FreeBlocks(old(D()))| < Need(old(D()), i, old(inodes[i].size) / BSIZE,
                                                       Next(old(inodes[i].size), size - old(inodes[i].size))))
        && (r != Fatal ==> r == Done(0) && Truncated(old(D()), D(), i, size))
        && (r == Fatal ==> OthersKept(old(D()), D(), i) && Meta(inodes[i]) == Meta(old(inodes[i]))
                           && Contents(D(), i) == old(Contents(D(), i)))
    {
      if inodes[i].kind == T_DEV || size > MAXFILESIZE {
        return Done(-1);
      }
      hide *;
      if size < inodes[i].size {
        Cut(i, size);
        r := Done(0);
      } else {
        var ok := Extend(i, size);
        r := if ok then Done(0) else Fatal;
      }
    }

    /** `ialloc`: the first inode of kind 0, cleared; -1 when there is none, which is fatal. */
    method Ialloc(kind: nat) returns (r: int)
      requires Valid()
      modifies this`inodes
      ensures |inodes| == |old(inodes)| && r < |inodes| && r != 0
      ensures r > 0 ==> old(inodes[r]).kind == 0
      ensures r > 0 ==> inodes == old(inodes)[r := Dinode(kind, 0, 0, 0, 0, NoAddresses())]
      ensures r < 0 ==> inodes == old(inodes) && forall j: nat :: 0 < j < |inodes| ==> inodes[j].kind != 0
      ensures forall j: nat :: 0 < j < r ==> old(inodes[j]).kind != 0
      ensures r > 0 && old(Snug(D(), r)) && old(inodes[r]).size == 0 ==> Valid() && Contents(D(), r) == []
    {
      var inum := 1;
      while inum < g.ninodes
        invariant 1 <= inum && forall j: nat :: 0 < j < inum && j < |inodes| ==> inodes[j].kind != 0
      {
        if inodes[inum].kind == 0 {
          ghost var d := D();
          inodes := inodes[inum := Dinode(kind, 0, 0, 0, 0, NoAddresses())];
          EmptyInode(d, D(), owner, inum);
          return inum;
        }
        inum := inum + 1;
      }
      r := -1;
    }

    /** `ifree`: the inode keeps all but its kind. */
    method Ifree(i: nat) returns (r: int)
      requires Valid()
      modifies this`inodes
      ensures Valid()
      ensures r == if 0 < i < |inodes| then 0 else -1
      ensures inodes == if r == 0 then old(inodes)[i := old(inodes[i]).(kind := 0)] else old(inodes)
    {
      if i == 0 || i >= g.ninodes {
        return -1;
      }
      ghost var d := D();
      inodes := inodes[i := inodes[i].(kind := 0)];
      SameRefs(d, D(), owner);
      r := 0;
    }
  }

  /** `iwrite` and `iread` of the same range one after the other. */
  method WriteThenRead(img: Image, i: nat, s: seq<Byte>, off: Uint, buf: array<Byte>) returns (w: Result, r: Result)
    requires img.Valid() && i < |img.inodes| && img.inodes[i].size <= MAXFILESIZE
    requires |s| < 0x1_0000_0000 && |s| <= buf.Length
    modifies img, buf
    ensures img.Valid()
    ensures w == Done(|s|) ==> r == Done(|s|) && buf[..|s|] == s
  {
    hide Patched, Overlaid, Present, Need, Next, FreeBlocks, OthersKept, Grown, Accounted, UsedSet;
    ghost var t;
    ghost var d := img.D();
    w, t := img.Iwrite(i, s, off);
    r := w;
    if w == Done(|s|) {
      assert s[..|s|] == s;
      ReadsBack(d, img.D(), i, off, s);
      SizeStays(d, img.D(), i, off, s);
      r := img.Iread(i, buf, |s|, off);
    }
  }

  lemma SizeStays(d: Disk, d': Disk, i: nat, off: nat, s: seq<Byte>)
    requires Overlaid(d, d', i, off, s)
    ensures i < |d'.inodes| && d'.inodes[i].size <= MAXFILESIZE
  {
  }
}
