/** What an image holds as a value: inodes, the block bitmap as a set, and blocks; and who owns which block. */
module FsDisks {
  import opened Bytes

  const BSIZE: nat := 512
  const NDIRECT: nat := 12
  const NINDIRECT: nat := 128
  const MAXFILE: nat := NDIRECT + NINDIRECT
  const MAXFILESIZE: nat := MAXFILE * BSIZE

  /** The number under which the table of indirect blocks counts as a block of its file. */
  const TABLE: nat := MAXFILE

  const T_DIR: nat := 1
  const T_FILE: nat := 2
  const T_DEV: nat := 3

  type Block = b: seq<Byte> | |b| == BSIZE witness Zeros()

  function Zeros(): (b: seq<Byte>)
    ensures |b| == BSIZE
  {
    seq(BSIZE, _ => 0)
  }

  lemma ZeroWords(k: nat)
    requires k < NINDIRECT
    ensures GetWord(Zeros(), k) == 0
  {
  }

  /** Inodes in a block. */
  const IPB: nat := 8

  /** What the numbers follow from: inodes of 12 bytes and the addresses fill a block, and so do addresses of 4. */
  lemma SizesFit()
    ensures IPB * (12 + 4 * (NDIRECT + 1)) == BSIZE && NINDIRECT * 4 == BSIZE
  {
  }

  /** The super block: behind boot block, super block, inode blocks and bitmap blocks come the data blocks
      [first, first + nblocks), and the log blocks behind them. */
  datatype Geometry = Geometry(size: nat, ninodes: nat, first: nat, nblocks: nat) {
    predicate Valid() {
      first == FirstData(size, ninodes) && first + nblocks <= size < 0x1_0000_0000
    }

    /** `valid_data_block` */
    predicate IsData(b: int) {
      first <= b < first + nblocks
    }
  }

  /** The number of the first data block, which is the number of blocks in front of it. */
  function FirstData(size: nat, ninodes: nat): (d: nat)
    ensures d > 0
  {
    2 + (ninodes / IPB + 1) + (size / (BSIZE * 8) + 1)
  }

  type Addresses = a: seq<Uint> | |a| == NDIRECT + 1 witness seq(NDIRECT + 1, _ => 0)

  datatype Dinode = Dinode(kind: nat, major: nat, minor: nat, nlink: int, size: Uint, addrs: Addresses)

  datatype Disk = Disk(g: Geometry, inodes: seq<Dinode>, used: set<nat>, blocks: seq<Block>)

  /** File and number of a block in it, or TABLE. */
  type Place = (nat, nat)

  predicate WellFormed(d: Disk) {
    d.g.Valid() && |d.inodes| == d.g.ninodes && |d.blocks| == d.g.size
  }

  predicate InFile(d: Disk, i: nat, n: nat) {
    i < |d.inodes| && n <= TABLE
  }

  /** The address of block n of file i, zero where there is none. */
  function Ref(d: Disk, i: nat, n: nat): Uint
    requires InFile(d, i, n)
  {
    var a := d.inodes[i].addrs;
    if n < NDIRECT then a[n]
    else if n == TABLE then a[NDIRECT]
    else if a[NDIRECT] == 0 || a[NDIRECT] >= |d.blocks| then 0
    else GetWord(d.blocks[a[NDIRECT]], n - NDIRECT)
  }

  /** The data of block n of file i; a hole reads as zeros. */
  function Data(d: Disk, i: nat, n: nat): Block
    requires InFile(d, i, n)
  {
    var r := Ref(d, i, n);
    if r == 0 || r >= |d.blocks| then Zeros() else d.blocks[r]
  }

  ghost predicate Owned(d: Disk, owner: map<nat, Place>, i: nat, n: nat)
    requires InFile(d, i, n)
  {
    var r := Ref(d, i, n);
    d.g.IsData(r) && r in d.used && r in owner && owner[r] == (i, n)
  }

  ghost predicate Held(d: Disk, owner: map<nat, Place>, b: nat) {
    b in owner && InFile(d, owner[b].0, owner[b].1) && Ref(d, owner[b].0, owner[b].1) == b
  }

  /** Block accounting: every address is a data block of its own with its bit set, every data block whose bit is set is
      some file's, and the blocks in front of the data are never handed out. */
  ghost predicate Accounted(d: Disk, owner: map<nat, Place>) {
    && WellFormed(d)
    && (forall i, n :: InFile(d, i, n) && Ref(d, i, n) != 0 ==> Owned(d, owner, i, n))
    && (forall b :: d.g.IsData(b) && b in d.used ==> Held(d, owner, b))
    && (forall b :: 0 <= b < d.g.first ==> b in d.used)
  }

  /** No block is in two files, or twice in one. */
  lemma NoneShared(d: Disk, owner: map<nat, Place>, i: nat, n: nat, j: nat, m: nat)
    requires Accounted(d, owner) && InFile(d, i, n) && InFile(d, j, m)
    requires Ref(d, i, n) == Ref(d, j, m) != 0
    ensures i == j && n == m
  {
    assert Owned(d, owner, i, n) && Owned(d, owner, j, m);
  }

  // Changes

  ghost predicate SameShape(d: Disk, d': Disk) {
    d'.g == d.g && |d'.inodes| == |d.inodes| && |d'.blocks| == |d.blocks|
  }

  ghost predicate SameRefsBut(d: Disk, d': Disk, i: nat, n: nat)
    requires SameShape(d, d')
  {
    forall j: nat, m: nat :: InFile(d, j, m) && (j != i || m != n) ==> Ref(d', j, m) == Ref(d, j, m)
  }

  ghost predicate SameData(d: Disk, d': Disk)
    requires SameShape(d, d')
  {
    forall j: nat, m: nat :: InFile(d, j, m) && m < TABLE ==> Data(d', j, m) == Data(d, j, m)
  }

  /** `balloc`, once it has found b */
  function Mark(d: Disk, b: nat): (d': Disk)
    requires b < |d.blocks|
    ensures SameShape(d, d')
  {
    d.(used := d.used + {b}, blocks := d.blocks[b := Zeros()])
  }

  /** Room for the address: a table if it is an indirect one. */
  predicate Settable(d: Disk, i: nat, n: nat) {
    InFile(d, i, n) && (NDIRECT <= n < TABLE ==> 0 < Ref(d, i, TABLE) < |d.blocks|)
  }

  /** Assignment to `addrs[n]` or to an entry of the table. */
  function SetRef(d: Disk, i: nat, n: nat, a: Uint): (d': Disk)
    requires Settable(d, i, n)
    ensures SameShape(d, d')
  {
    var ino := d.inodes[i];
    if n < NDIRECT then d.(inodes := d.inodes[i := ino.(addrs := ino.addrs[n := a])])
    else if n == TABLE then d.(inodes := d.inodes[i := ino.(addrs := ino.addrs[NDIRECT := a])])
    else
      var t := ino.addrs[NDIRECT];
      d.(blocks := d.blocks[t := SetWord(d.blocks[t], n - NDIRECT, a)])
  }

  lemma SetDirect(d: Disk, i: nat, n: nat, a: Uint)
    requires InFile(d, i, n) && n < NDIRECT
    ensures var d' := SetRef(d, i, n, a); Ref(d', i, n) == a && SameRefsBut(d, d', i, n)
  {
  }

  lemma SetTable(d: Disk, i: nat, a: Uint)
    requires InFile(d, i, TABLE) && a < |d.blocks| && (a != 0 ==> d.blocks[a] == Zeros())
    requires forall m: nat :: NDIRECT <= m < TABLE ==> Ref(d, i, m) == 0
    ensures var d' := SetRef(d, i, TABLE, a); Ref(d', i, TABLE) == a && SameRefsBut(d, d', i, TABLE)
  {
    var d' := SetRef(d, i, TABLE, a);
    forall m: nat | NDIRECT <= m < TABLE
      ensures Ref(d', i, m) == 0
    {
      ZeroWords(m - NDIRECT);
    }
  }

  lemma SetIndirect(d: Disk, i: nat, n: nat, a: Uint)
    requires Settable(d, i, n) && NDIRECT <= n < TABLE
    requires forall j: nat :: InFile(d, j, TABLE) && j != i ==> Ref(d, j, TABLE) != Ref(d, i, TABLE)
    ensures var d' := SetRef(d, i, n, a); Ref(d', i, n) == a && SameRefsBut(d, d', i, n)
  {
    var d' := SetRef(d, i, n, a);
    var t := Ref(d, i, TABLE);
    forall j: nat, m: nat | InFile(d, j, m) && (j != i || m != n)
      ensures Ref(d', j, m) == Ref(d, j, m)
    {
      assert Ref(d, j, TABLE) == d.inodes[j].addrs[NDIRECT];
      if j == i && NDIRECT <= m < TABLE {
        WordSet(d.blocks[t], n - NDIRECT, a, m - NDIRECT);
      }
    }
    WordSet(d.blocks[t], n - NDIRECT, a, n - NDIRECT);
  }

  /** An unused block is no file's, so clearing it changes no file. */
  lemma MarkSame(d: Disk, owner: map<nat, Place>, b: nat)
    requires Accounted(d, owner) && d.g.IsData(b) && b !in d.used
    ensures forall j: nat, m: nat :: InFile(d, j, m) ==> Ref(d, j, m) != b && Ref(Mark(d, b), j, m) == Ref(d, j, m)
    ensures SameData(d, Mark(d, b))
  {
    var d' := Mark(d, b);
    forall j: nat, m: nat | InFile(d, j, m)
      ensures Ref(d, j, m) != b && Ref(d', j, m) == Ref(d, j, m)
    {
      assert Ref(d, j, m) != 0 ==> Owned(d, owner, j, m);
      assert Ref(d, j, TABLE) != 0 ==> Owned(d, owner, j, TABLE);
    }
  }

  /** A free block becomes block n of file i. */
  lemma Attach(d: Disk, d': Disk, owner: map<nat, Place>, i: nat, n: nat, b: nat)
    requires Accounted(d, owner) && SameShape(d, d') && InFile(d, i, n)
    requires d.g.IsData(b) && b !in d.used && d'.used == d.used + {b}
    requires Ref(d, i, n) == 0 && Ref(d', i, n) == b && SameRefsBut(d, d', i, n)
    ensures Accounted(d', owner[b := (i, n)])
  {
    hide Ref;
    var o := owner[b := (i, n)];
    forall j: nat, m: nat | InFile(d', j, m) && Ref(d', j, m) != 0
      ensures Owned(d', o, j, m)
    {
      if j != i || m != n {
        assert Ref(d', j, m) == Ref(d, j, m) && Owned(d, owner, j, m);
      }
    }
    forall c: nat | d'.g.IsData(c) && c in d'.used
      ensures Held(d', o, c)
    {
      if c != b {
        assert Held(d, owner, c);
      }
    }
  }

  /** Block n of file i is given back. */
  lemma Detach(d: Disk, d': Disk, owner: map<nat, Place>, i: nat, n: nat)
    requires Accounted(d, owner) && SameShape(d, d') && InFile(d, i, n)
    requires Ref(d, i, n) != 0 && d'.used == d.used - {Ref(d, i, n)}
    requires Ref(d', i, n) == 0 && SameRefsBut(d, d', i, n)
    ensures Accounted(d', owner)
  {
    hide Ref;
    var b := Ref(d, i, n);
    assert Owned(d, owner, i, n);
    forall j: nat, m: nat | InFile(d', j, m) && Ref(d', j, m) != 0
      ensures Owned(d', owner, j, m)
    {
      assert Ref(d', j, m) == Ref(d, j, m) && Owned(d, owner, j, m);
    }
    forall c: nat | d'.g.IsData(c) && c in d'.used
      ensures Held(d', owner, c)
    {
      assert Held(d, owner, c);
    }
  }

  /** All of an inode but its addresses. */
  function Meta(ino: Dinode): (nat, nat, nat, int, Uint) {
    (ino.kind, ino.major, ino.minor, ino.nlink, ino.size)
  }

  ghost predicate SameMeta(d: Disk, d': Disk)
    requires SameShape(d, d')
  {
    forall j: nat :: j < |d.inodes| ==> Meta(d'.inodes[j]) == Meta(d.inodes[j])
  }

  /** `balloc` and the assignment of its result. */
  lemma Allocate(d: Disk, owner: map<nat, Place>, i: nat, n: nat, b: nat)
    requires Accounted(d, owner) && Settable(d, i, n) && Ref(d, i, n) == 0
    requires d.g.IsData(b) && b !in d.used
    ensures Settable(Mark(d, b), i, n)
    ensures var d' := SetRef(Mark(d, b), i, n, b);
      && Accounted(d', owner[b := (i, n)]) && Ref(d', i, n) == b && SameRefsBut(d, d', i, n)
      && SameData(d, d') && SameMeta(d, d') && d'.used == d.used + {b}
  {
    var e := Mark(d, b);
    var d' := SetPlace(d, e, owner, i, n, b);
    Attach(d, d', owner, i, n, b);
    AllocatedData(d, e, d', owner, i, n, b);
  }

  ghost function SetPlace(d: Disk, e: Disk, owner: map<nat, Place>, i: nat, n: nat, b: nat): (d': Disk)
    requires Accounted(d, owner) && Settable(d, i, n) && Ref(d, i, n) == 0
    requires d.g.IsData(b) && b !in d.used && e == Mark(d, b)
    ensures Settable(e, i, n) && d' == SetRef(e, i, n, b)
    ensures Ref(d', i, n) == b && SameRefsBut(d, d', i, n) && d'.used == d.used + {b} && SameMeta(d, d')
  {
    MarkSame(d, owner, b);
    assert forall j: nat :: InFile(d, j, TABLE) && Ref(d, j, TABLE) != 0 ==> Owned(d, owner, j, TABLE);
    if n < NDIRECT then
      SetDirect(e, i, n, b);
      SetRef(e, i, n, b)
    else if n == TABLE then
      SetTable(e, i, b);
      SetRef(e, i, n, b)
    else
      SetIndirect(e, i, n, b);
      SetRef(e, i, n, b)
  }

  lemma AllocatedData(d: Disk, e: Disk, d': Disk, owner: map<nat, Place>, i: nat, n: nat, b: nat)
    requires Accounted(d, owner) && Settable(d, i, n) && Ref(d, i, n) == 0
    requires d.g.IsData(b) && b !in d.used && e == Mark(d, b) && Settable(e, i, n) && d' == SetRef(e, i, n, b)
    requires Ref(d', i, n) == b && SameRefsBut(d, d', i, n)
    ensures SameData(d, d')
  {
    MarkSame(d, owner, b);
    forall j: nat, m: nat | InFile(d, j, m) && m < TABLE
      ensures Data(d', j, m) == Data(d, j, m)
    {
      assert Ref(d, j, m) != 0 ==> Owned(d, owner, j, m);
      assert Ref(d, i, TABLE) != 0 ==> Owned(d, owner, i, TABLE);
      assert NDIRECT <= n < TABLE ==> Ref(d, i, TABLE) == e.inodes[i].addrs[NDIRECT];
    }
  }

  /** `bfree` of block n of file i and clearing its address. */
  function Release(d: Disk, i: nat, n: nat): (d': Disk)
    requires Settable(d, i, n)
    ensures SameShape(d, d')
  {
    var e := SetRef(d, i, n, 0);
    e.(used := e.used - {Ref(d, i, n) as int})
  }

  lemma Released(d: Disk, owner: map<nat, Place>, i: nat, n: nat)
    requires Accounted(d, owner) && Settable(d, i, n) && Ref(d, i, n) != 0
    requires n == TABLE ==> forall m: nat :: NDIRECT <= m < TABLE ==> Ref(d, i, m) == 0
    ensures var d' := Release(d, i, n);
      && Accounted(d', owner) && Ref(d', i, n) == 0 && SameRefsBut(d, d', i, n) && SameMeta(d, d')
      && forall j: nat, m: nat :: InFile(d, j, m) && m < TABLE && (j != i || m != n) ==> Data(d', j, m) == Data(d, j, m)
  {
    var e := SetRef(d, i, n, 0);
    var d' := Release(d, i, n);
    assert forall j: nat :: InFile(d, j, TABLE) && Ref(d, j, TABLE) != 0 ==> Owned(d, owner, j, TABLE);
    if n < NDIRECT {
      SetDirect(d, i, n, 0);
    } else if n == TABLE {
      SetTable(d, i, 0);
    } else {
      SetIndirect(d, i, n, 0);
    }
    assert forall j: nat, m: nat :: InFile(d, j, m) ==> Ref(d', j, m) == Ref(e, j, m);
    Detach(d, d', owner, i, n);
    forall j: nat, m: nat | InFile(d, j, m) && m < TABLE && (j != i || m != n)
      ensures Data(d', j, m) == Data(d, j, m)
    {
      assert Ref(d, j, m) != 0 ==> Owned(d, owner, j, m);
      assert NDIRECT <= n < TABLE ==> Ref(d, i, TABLE) == d.inodes[i].addrs[NDIRECT];
    }
  }

  /** New data for block n of file i, which has one. */
  function Overwrite(d: Disk, i: nat, n: nat, data: Block): (d': Disk)
    requires InFile(d, i, n) && Ref(d, i, n) < |d.blocks|
    ensures SameShape(d, d')
  {
    d.(blocks := d.blocks[Ref(d, i, n) := data])
  }

  lemma Overwritten(d: Disk, owner: map<nat, Place>, i: nat, n: nat, data: Block)
    requires Accounted(d, owner) && InFile(d, i, n) && n < TABLE && 0 < Ref(d, i, n) < |d.blocks|
    ensures var d' := Overwrite(d, i, n, data);
      && Accounted(d', owner) && Data(d', i, n) == data && SameMeta(d, d')
      && (forall j: nat, m: nat :: InFile(d, j, m) ==> Ref(d', j, m) == Ref(d, j, m))
      && forall j: nat, m: nat :: InFile(d, j, m) && m < TABLE && (j != i || m != n) ==> Data(d', j, m) == Data(d, j, m)
  {
    var d' := Overwrite(d, i, n, data);
    assert Owned(d, owner, i, n);
    forall j: nat, m: nat | InFile(d, j, m)
      ensures Ref(d', j, m) == Ref(d, j, m)
    {
      assert Ref(d, j, TABLE) != 0 ==> Owned(d, owner, j, TABLE);
      assert Ref(d, j, TABLE) == d.inodes[j].addrs[NDIRECT];
    }
    SameRefs(d, d', owner);
    forall j: nat, m: nat | InFile(d, j, m) && m < TABLE && (j != i || m != n)
      ensures Data(d', j, m) == Data(d, j, m)
    {
      assert Ref(d, j, m) != 0 ==> Owned(d, owner, j, m);
    }
  }

  /** What keeps every address and the bitmap keeps the accounts. */
  lemma SameRefs(d: Disk, d': Disk, owner: map<nat, Place>)
    requires Accounted(d, owner) && SameShape(d, d') && d'.used == d.used
    requires forall j: nat, m: nat :: InFile(d, j, m) ==> Ref(d', j, m) == Ref(d, j, m)
    ensures Accounted(d', owner)
  {
    hide Ref;
    forall j: nat, m: nat | InFile(d', j, m) && Ref(d', j, m) != 0
      ensures Owned(d', owner, j, m)
    {
      assert Ref(d', j, m) == Ref(d, j, m) && Owned(d, owner, j, m);
    }
    forall c: nat | d'.g.IsData(c) && c in d'.used
      ensures Held(d', owner, c)
    {
      assert Held(d, owner, c);
    }
  }
}
