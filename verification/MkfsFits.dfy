/** When what `mkfs` builds is sound. */
module MkfsFits {
  import opened Bytes
  import opened FsDisks
  import opened FsFiles
  import opened FsImages
  import opened FsTrees
  import opened FsDirs
  import opened FsNames
  import opened Mkfs
  import opened MkfsMain
  import opened MkfsTree

  /** What is written: the super block, the inodes that it counts, the bitmap and all blocks. */
  datatype Written = Written(g: Geometry, inodes: seq<Dinode>, bitmap: seq<bv8>, blocks: seq<Block>) {
    ghost function D(): Disk {
      Disk(g, inodes, UsedSet(bitmap), blocks)
    }
  }

  /** One less than the inode blocks have room for. */
  function InodeRoom(ninodes: nat): (n: nat)
    ensures n >= ninodes && n / IPB == ninodes / IPB
  {
    ninodes / IPB * IPB + IPB - 1
  }

  /** `mkfs` comes to its end: files are not too long, all blocks are on the disk, where reading them succeeds, and one
      bitmap block is enough, as is asserted. */
  predicate Completes(size: nat, ninodes: nat, files: seq<SourceFile>) {
    && (forall k: nat :: k < |files| ==> |files[k].content| <= MAXFILESIZE) && DIRENT * (|files| + 2) < MAXFILESIZE
    && Used(size, ninodes, files) <= size && Used(size, ninodes, files) < BSIZE * 8
  }

  lemma RoomUsed(size: nat, ninodes: nat, files: seq<SourceFile>)
    ensures FirstData(size, InodeRoom(ninodes)) == FirstData(size, ninodes)
    ensures Used(size, InodeRoom(ninodes), files) == Used(size, ninodes, files) >= FirstData(size, ninodes)
  {
    hide InodeRoom, Cost, TotalCost;
  }

  /** There is an inode for each file and a data block for each block handed out. */
  predicate Fits(size: nat, ninodes: nat, nlog: nat, files: seq<SourceFile>) {
    Used(size, ninodes, files) + nlog <= size && |files| + 2 <= ninodes
  }

  /** The accounts are right for some owners, and every entry names an inode in use. */
  ghost predicate Sound(d: Disk) {
    (exists o: map<nat, Place> :: Accounted(d, o)) && EntsOk(View(d))
  }

  /** The same blocks, with only the inodes that count and with the last blocks for the log. */
  ghost function Real(d: Disk, ninodes: nat, nlog: nat): Disk
    requires ninodes <= |d.inodes| && d.g.first + nlog <= d.g.size
  {
    d.(g := Geometry(d.g.size, ninodes, d.g.first, d.g.size - nlog - d.g.first), inodes := d.inodes[..ninodes])
  }

  lemma RealSame(d: Disk, ninodes: nat, nlog: nat, i: nat)
    requires ninodes <= |d.inodes| && d.g.first + nlog <= d.g.size && i < ninodes
    ensures var e := Real(d, ninodes, nlog);
      && e.inodes[i] == d.inodes[i]
      && (forall m: nat :: m <= TABLE ==> Ref(e, i, m) == Ref(d, i, m))
      && (forall m: nat :: m < TABLE ==> Data(e, i, m) == Data(d, i, m))
      && (d.inodes[i].size <= MAXFILESIZE ==> Contents(e, i) == Contents(d, i))
  {
  }

  lemma RealTidy(d: Disk, ninodes: nat, nlog: nat, i: nat)
    requires ninodes <= |d.inodes| && d.g.first + nlog <= d.g.size && i < ninodes
    ensures var e := Real(d, ninodes, nlog);
      (Tidy(d, i) ==> Tidy(e, i)) && (Snug(e, i) <==> Snug(d, i)) && (Full(e, i) <==> Full(d, i))
  {
    RealSame(d, ninodes, nlog, i);
    var e := Real(d, ninodes, nlog);
    hide Ref, Data, FirstData;
    forall p: nat | p < MAXFILESIZE
      ensures At(e, i, p) == At(d, i, p)
    {
      assert Data(e, i, p / BSIZE) == Data(d, i, p / BSIZE);
    }
  }

  lemma RealBuilt(d: Disk, size: nat, ninodes: nat, nlog: nat, files: seq<SourceFile>)
    requires ninodes <= |d.inodes| && d.g.first + nlog <= d.g.size && IsBuilt(d, size, InodeRoom(ninodes), files)
    requires |files| + 2 <= ninodes
    ensures IsBuilt(Real(d, ninodes, nlog), size, ninodes, files)
  {
    hide Contents, Tidy, Snug, Full, Cost, TotalCost, RootBytes, CutTo;
    var e := Real(d, ninodes, nlog);
    forall j: nat | j < ninodes
      ensures e.inodes[j] == d.inodes[j]
      ensures d.inodes[j].size <= MAXFILESIZE ==> Contents(e, j) == Contents(d, j)
      ensures (Tidy(d, j) ==> Tidy(e, j)) && (Snug(e, j) <==> Snug(d, j)) && (Full(e, j) <==> Full(d, j))
    {
      RealSame(d, ninodes, nlog, j);
      RealTidy(d, ninodes, nlog, j);
    }
  }

  /** The address of an unused inode is none. */
  lemma BlankBare(d: Disk, k: nat, i: nat, m: nat)
    requires RestBlank(d, k) && k <= i < |d.inodes| && m <= TABLE
    ensures Ref(d, i, m) == 0
  {
    assert d.inodes[i] == Blank();
  }

  /** What fits is sound. */
  lemma FitsSound(d: Disk, owner: map<nat, Place>, size: nat, ninodes: nat, nlog: nat, files: seq<SourceFile>)
    requires Built0(d, owner, size, ninodes, nlog, files) && Fits(size, ninodes, nlog, files)
    ensures Accounted(Real(d, ninodes, nlog), owner) && IsBuilt(Real(d, ninodes, nlog), size, ninodes, files)
  {
    hide IsBuilt, Used, Data, FirstData, InodeRoom;
    RoomUsed(size, ninodes, files);
    RealBuilt(d, size, ninodes, nlog, files);
    BuiltRest(d, size, InodeRoom(ninodes), files);
    var e := Real(d, ninodes, nlog);
    forall i: nat, m: nat | InFile(e, i, m)
      ensures Ref(e, i, m) == Ref(d, i, m)
    {
      RealSame(d, ninodes, nlog, i);
    }
    forall i: nat, m: nat | InFile(e, i, m) && Ref(e, i, m) != 0
      ensures Owned(e, owner, i, m)
    {
      assert Owned(d, owner, i, m);
    }
    forall b | e.g.IsData(b) && b in e.used
      ensures Held(e, owner, b)
    {
      assert Held(d, owner, b);
      var i, m := owner[b].0, owner[b].1;
      if i >= |files| + 2 {
        BlankBare(d, |files| + 2, i, m);
      }
    }
  }

  /** What `BuildDisk` leaves, the log not counted. */
  ghost predicate Built0(d: Disk, owner: map<nat, Place>, size: nat, ninodes: nat, nlog: nat, files: seq<SourceFile>) {
    && 2 <= ninodes && FirstData(size, ninodes) + nlog <= size
    && Accounted(d, owner) && IsBuilt(d, size, InodeRoom(ninodes), files) && |d.inodes| == InodeRoom(ninodes)
    && d.g == Geometry(size, InodeRoom(ninodes), FirstData(size, ninodes), size - FirstData(size, ninodes))
  }

  lemma BuiltRest(d: Disk, size: nat, ninodes: nat, files: seq<SourceFile>)
    requires IsBuilt(d, size, ninodes, files)
    ensures |files| + 2 <= |d.inodes| && RestBlank(d, |files| + 2) && d.used == Range(0, Used(size, ninodes, files))
  {
  }

  /** The last entry names an inode that does not count, if there are too many files. */
  lemma EnoughInodes(d: Disk, owner: map<nat, Place>, size: nat, ninodes: nat, nlog: nat, files: seq<SourceFile>)
    requires Built0(d, owner, size, ninodes, nlog, files) && GoodNames(files)
    requires EntsOk(View(Real(d, ninodes, nlog)))
    ensures |files| + 2 <= ninodes
  {
    var e, s := Real(d, ninodes, nlog), |files| + 1;
    hide IsBuilt, Live, EntAt, GoodNames, Real, Accounted, FirstData, InodeRoom;
    if files != [] {
      BuiltSlot(d, size, InodeRoom(ninodes), files, ROOTINO, s);
      RealSlot(d, ninodes, nlog, s);
      EntriesHas(e, ROOTINO, s);
      assert EntOk(View(e), (ROOTINO, s));
    }
  }

  lemma RealSlot(d: Disk, ninodes: nat, nlog: nat, s: nat)
    requires 2 <= ninodes <= |d.inodes| && d.g.first + nlog <= d.g.size
    ensures SlotSame(d, Real(d, ninodes, nlog), ROOTINO, s) && |Real(d, ninodes, nlog).inodes| == ninodes
  {
    hide FirstData, EntBytes;
    var e := Real(d, ninodes, nlog);
    RealSame(d, ninodes, nlog, ROOTINO);
    if s < SLOTS {
      SliceSameAs(d, e, ROOTINO, s);
    }
  }

  lemma SliceSameAs(d: Disk, e: Disk, i: nat, s: nat)
    requires i < |d.inodes| && i < |e.inodes| && s < SLOTS
    requires forall m: nat :: m < TABLE ==> Data(e, i, m) == Data(d, i, m)
    ensures EntBytes(e, i, s) == EntBytes(d, i, s)
  {
    hide Data;
    forall p: nat | p < MAXFILESIZE
      ensures At(e, i, p) == At(d, i, p)
    {
      assert Data(e, i, p / BSIZE) == Data(d, i, p / BSIZE);
    }
  }

  /** The first block of the log is some file's, if it was handed out. */
  lemma EnoughBlocks(d: Disk, owner: map<nat, Place>, size: nat, ninodes: nat, nlog: nat, files: seq<SourceFile>,
      o: map<nat, Place>)
    requires Built0(d, owner, size, ninodes, nlog, files) && |files| + 2 <= ninodes
    requires Accounted(Real(d, ninodes, nlog), o) && Used(size, ninodes, files) <= size
    ensures Used(size, ninodes, files) + nlog <= size
  {
    hide IsBuilt, Used, FirstData, InodeRoom;
    RoomUsed(size, ninodes, files);
    var e, b := Real(d, ninodes, nlog), size - nlog;
    BuiltRest(d, size, InodeRoom(ninodes), files);
    if b < Used(size, ninodes, files) {
      assert Held(d, owner, b);
      var i, m := owner[b].0, owner[b].1;
      if i >= |files| + 2 {
        BlankBare(d, |files| + 2, i, m);
      }
      RealSame(d, ninodes, nlog, i);
      assert false;
    }
  }

  /** `libfs.c` can work on the disk exactly if everything fits. */
  lemma SoundIfFits(d: Disk, owner: map<nat, Place>, size: nat, ninodes: nat, nlog: nat, files: seq<SourceFile>)
    requires Built0(d, owner, size, ninodes, nlog, files) && GoodNames(files) && Used(size, ninodes, files) <= size
    ensures Sound(Real(d, ninodes, nlog)) <==> Fits(size, ninodes, nlog, files)
  {
    hide Accounted, IsBuilt, GoodNames, Used, View, Real, EntsOk, TreeOk, NewTree;
    var e := Real(d, ninodes, nlog);
    if Fits(size, ninodes, nlog, files) {
      FitsSound(d, owner, size, ninodes, nlog, files);
      BuiltTree(e, size, ninodes, files);
      NewTreeOk(View(e), files);
      TreeEnts(View(e));
    } else if Sound(e) {
      var o :| Accounted(e, o);
      EnoughInodes(d, owner, size, ninodes, nlog, files);
      EnoughBlocks(d, owner, size, ninodes, nlog, files, o);
    }
  }

  // Disks that do not fit

  /** n files of one length with names of their own. */
  function Alike(n: nat, length: nat): (files: seq<SourceFile>)
    requires n <= 250
    ensures |files| == n && forall k :: 0 <= k < n ==> files[k] == SourceFile([1 + k, 1], Nulls(length))
  {
    seq(n, k requires 0 <= k < n => SourceFile([1 + k, 1], Nulls(length)))
  }

  lemma {:induction false} AlikeCost(n: nat, length: nat)
    requires n <= 250
    ensures TotalCost(Alike(n, length)) == n * Cost(length)
  {
    if n > 0 {
      AlikeCost(n - 1, length);
      assert Alike(n, length)[..n - 1] == Alike(n - 1, length);
    }
  }

  lemma AlikeNames(n: nat, length: nat)
    requires n <= 250
    ensures GoodNames(Alike(n, length))
  {
    forall k, l | 0 <= k < l < n
      ensures Alike(n, length)[k].name != Alike(n, length)[l].name
    {
      assert Alike(n, length)[k].name[0] == 1 + k && Alike(n, length)[l].name[0] == 1 + l;
    }
  }

  /** With 1024 blocks, 200 inodes and a log of 30 blocks `mkfs` comes to its end, but what it is given does not fit: 199
      empty files, or seven files of the largest size. */
  lemma Overfull()
    ensures GoodNames(Alike(199, 0)) && Completes(1024, 200, Alike(199, 0)) && !Fits(1024, 200, 30, Alike(199, 0))
    ensures Used(1024, 200, Alike(199, 0)) + 30 <= 1024 && 199 + 2 <= InodeRoom(200)
    ensures var files := Alike(7, MAXFILESIZE);
            GoodNames(files) && Completes(1024, 200, files) && !Fits(1024, 200, 30, files) && |files| + 2 <= 200
  {
    hide GoodNames, TotalCost;
    AlikeNames(199, 0);
    AlikeNames(7, MAXFILESIZE);
    AlikeCost(199, 0);
    AlikeCost(7, MAXFILESIZE);
  }

  lemma BlockCount(d: Disk, owner: map<nat, Place>)
    requires Accounted(d, owner)
    ensures |d.blocks| == d.g.size
  {
  }

  /** `main`: the disk for a list of files. */
  method Build(size: nat, ninodes: nat, nlog: nat, files: seq<SourceFile>) returns (w: Written)
    requires 2 <= ninodes && FirstData(size, ninodes) + nlog <= size < 0x1_0000_0000
    requires |files| < 0xFFFD && |files| + 2 <= InodeRoom(ninodes) && Completes(size, ninodes, files)
    ensures w.g == Geometry(size, ninodes, FirstData(size, ninodes), size - nlog - FirstData(size, ninodes))
    ensures |w.inodes| == ninodes && |w.blocks| == size <= 8 * |w.bitmap|
    ensures UsedSet(w.bitmap) == Range(0, Used(size, ninodes, files))
    ensures GoodNames(files) ==> (Sound(w.D()) <==> Fits(size, ninodes, nlog, files))
    ensures Fits(size, ninodes, nlog, files) ==> IsBuilt(w.D(), size, ninodes, files)
    ensures Fits(size, ninodes, nlog, files) ==> exists o: map<nat, Place> :: Accounted(w.D(), o)
  {
    hide Accounted, IsBuilt, Used, UsedSet, Range, GoodNames, Sound, FirstData, InodeRoom;
    RoomUsed(size, ninodes, files);
    var n := InodeRoom(ninodes);
    var mk := BuildDisk(size, n, files);
    var bitmap := mk.WriteBitmap(mk.freeblock, size);
    var first := FirstData(size, ninodes);
    w := Written(Geometry(size, ninodes, first, size - nlog - first), mk.inodes[..ninodes], bitmap, mk.blocks);
    ghost var d := mk.D();
    assert w.D() == Real(d, ninodes, nlog);
    BlockCount(d, mk.owner);
    if GoodNames(files) {
      SoundIfFits(d, mk.owner, size, ninodes, nlog, files);
    }
    if Fits(size, ninodes, nlog, files) {
      FitsSound(d, mk.owner, size, ninodes, nlog, files);
    }
  }

  /** A disk that fits, opened. */
  method Open(w: Written, ghost o: map<nat, Place>) returns (img: Image)
    requires w.g.size <= 8 * |w.bitmap| && Accounted(w.D(), o)
    ensures fresh(img) && img.Valid() && img.D() == w.D()
  {
    hide Accounted, UsedSet;
    img := new Image(w.g, w.inodes, w.bitmap, w.blocks, o);
  }
}
