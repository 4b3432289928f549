/** A block that `itruncate` loses. */
module FsLost {
  import opened Bytes
  import opened FsDisks
  import opened FsFiles
  import opened FsImages
  import opened Mkfs

  const SIZE: nat := 19
  const INO: nat := 1

  /** A disk of 15 free data blocks with one empty file. */
  ghost predicate Start(d: Disk) {
    && d.g == Geometry(SIZE, 2, 4, 15) && |d.inodes| == 2 && d.used == Range(0, 4)
    && d.inodes[INO].kind == T_FILE && d.inodes[INO].size == 0 && d.inodes[INO].addrs == NoAddresses()
  }

  method MakeDisk() returns (img: Image)
    ensures fresh(img) && img.Valid() && Start(img.D())
  {
    var mk := new Maker(SIZE, 2, 0);
    var i := mk.Ialloc(T_FILE);
    img := mk.Finish();
  }

  lemma {:induction false} AllHoles(d: Disk, i: nat, lo: nat, hi: nat)
    requires i < |d.inodes| && lo <= hi <= MAXFILE && forall m: nat :: lo <= m < hi ==> Ref(d, i, m) == 0
    ensures Holes(d, i, lo, hi) == hi - lo
    decreases hi - lo
  {
    if lo < hi {
      AllHoles(d, i, lo + 1, hi);
    }
  }

  lemma FirstNeed(d: Disk)
    requires Start(d)
    ensures Need(d, INO, 0, 13) == 14 && |FreeBlocks(d)| == 15
    ensures forall m: nat :: m <= TABLE ==> Ref(d, INO, m) == 0
  {
    assert forall m: nat :: m <= TABLE ==> Ref(d, INO, m) == 0;
    hide Ref;
    AllHoles(d, INO, 0, 13);
    FreeRange(d);
  }

  lemma FreeRange(d: Disk)
    requires Start(d)
    ensures |FreeBlocks(d)| == 15
  {
    assert FreeBlocks(d) == Range(4, SIZE);
  }

  /** The file has 13 blocks and a table; one block is free. */
  ghost predicate Filled13(d: Disk) {
    && |d.inodes| == 2 && d.inodes[INO].kind == T_FILE && d.inodes[INO].size == 13 * BSIZE
    && Ref(d, INO, TABLE) != 0 && Ref(d, INO, 13) == 0 && Ref(d, INO, 14) == 0 && |FreeBlocks(d)| == 1
  }

  lemma TableThere(d: Disk, i: nat, m: nat)
    requires i < |d.inodes| && NDIRECT <= m < TABLE && Ref(d, i, m) != 0
    ensures Ref(d, i, TABLE) != 0
  {
  }

  lemma AfterFirst(d: Disk, d': Disk)
    requires Start(d) && |d'.inodes| == 2 && Grew(d, d', INO, 0, 13) && Present(d', INO, 0, 13 * BSIZE)
    requires |FreeBlocks(d')| + Need(d, INO, 0, 13) == |FreeBlocks(d)|
    requires d'.inodes[INO].kind == T_FILE && d'.inodes[INO].size == 13 * BSIZE
    ensures Filled13(d')
  {
    FirstNeed(d);
    TableThere(d', INO, 12);
    hide Ref, FreeBlocks, Need;
  }

  lemma SecondNeed(d: Disk)
    requires Filled13(d)
    ensures Need(d, INO, 13, 15) == 2
  {
    hide Ref;
    AllHoles(d, INO, 13, 15);
  }

  /** The write that failed took the last block for the file, behind its end. */
  lemma AfterSecond(d: Disk, o: map<nat, Place>, d': Disk, o': map<nat, Place>)
    requires Filled13(d) && Accounted(d, o) && Accounted(d', o') && OthersKept(d, d', INO)
    requires Grew(d, d', INO, 13, 15) && FreeBlocks(d') == {}
    ensures !TailEmpty(d', INO, 13) && Ref(d', INO, TABLE) != 0
  {
    var b :| b in FreeBlocks(d);
    assert b !in FreeBlocks(d');
    assert d.g.IsData(b) && b in d'.used && Held(d', o', b);
    var j, m := o'[b].0, o'[b].1;
    assert Ref(d, j, m) == b ==> Owned(d, o, j, m);
    assert j != INO ==> SameFile(d, d', j);
    assert Ref(d', INO, m) != 0 && MayGrow(m, 13, 15);
  }

  /** A file is written to 13 blocks, a further write of two blocks finds only one, and the file is emptied: the block
      behind its end is lost. */
  method LostBlock() returns (img: Image)
    ensures fresh(img) && !img.Valid() && |img.inodes| == 2 && img.inodes[INO].size == 0
  {
    hide Accounted, UsedSet, FreeBlocks, Need, Ref, Data, Patched, OthersKept, Grew, Present, TailEmpty;
    img := MakeDisk();
    ghost var d := img.D();
    FirstNeed(d);
    var buf := seq<Byte>(13 * BSIZE, _ => 0);
    var r, t := img.Iwrite(INO, buf, 0);
    assert Next(0, 13 * BSIZE) == 13;
    assert |Contents(img.D(), INO)| == |Overlay(Contents(d, INO), 0, buf)|;
    AfterFirst(d, img.D());
    ghost var e, o := img.D(), img.owner;
    SecondNeed(e);
    buf := seq<Byte>(2 * BSIZE, _ => 0);
    r, t := img.Iwrite(INO, buf, 13 * BSIZE);
    assert Next(13 * BSIZE, 2 * BSIZE) == 15;
    AfterSecond(e, o, img.D(), img.owner);
    r := img.Itruncate(INO, 0);
  }
}
