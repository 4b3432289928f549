/** `main` of `tools/mkfs.c`: an image with a root directory and the given files. */
module MkfsMain {
  import opened Bytes
  import opened FsDisks
  import opened FsFiles
  import opened FsImages
  import opened FsTrees
  import opened FsDirs
  import opened Mkfs

  datatype SourceFile = SourceFile(name: seq<Byte>, content: seq<Byte>)

  /** The root directory: itself, itself as its parent, and the files with inodes from 2 on. */
  function RootBytes(files: seq<SourceFile>): (r: seq<Byte>)
    requires |files| < 0xFFFE
    ensures |r| == DIRENT * (|files| + 2)
  {
    if files == [] then Dirent(ROOTINO, DOT) + Dirent(ROOTINO, DOTDOT)
    else RootBytes(files[..|files| - 1]) + Dirent(|files| + 1, files[|files| - 1].name)
  }

  /** The blocks of all files together. */
  function TotalCost(files: seq<SourceFile>): nat {
    if files == [] then 0 else TotalCost(files[..|files| - 1]) + Cost(|files[|files| - 1].content|)
  }

  /** The files of the list are on the disk. */
  ghost predicate HoldsFiles(d: Disk, files: seq<SourceFile>) {
    |files| + 2 <= |d.inodes| && forall k: nat :: k < |files| ==> HoldsFile(d, k + 2, files[k].content)
  }

  ghost predicate HoldsFile(d: Disk, i: nat, content: seq<Byte>)
    requires i < |d.inodes|
  {
    var ino := d.inodes[i];
    ino.kind == T_FILE && ino.nlink == 1 && ino.size <= MAXFILESIZE && Contents(d, i) == content
  }

  ghost predicate HoldsRoot(d: Disk, files: seq<SourceFile>)
    requires |files| < 0xFFFE && ROOTINO < |d.inodes|
  {
    var ino := d.inodes[ROOTINO];
    ino.kind == T_DIR && ino.nlink == 1 && ino.size <= MAXFILESIZE && Contents(d, ROOTINO) == RootBytes(files)
  }

  lemma CostMono(m: nat, n: nat)
    requires m <= n
    ensures Cost(m) <= Cost(n)
  {
  }

  lemma {:induction false} TotalCostMono(files: seq<SourceFile>, k: nat)
    requires k <= |files|
    ensures TotalCost(files[..k]) <= TotalCost(files)
  {
    if k < |files| {
      TotalCostMono(files[..|files| - 1], k);
      assert files[..|files| - 1][..k] == files[..k];
    } else {
      assert files[..k] == files;
    }
  }

  lemma FileKept(d: Disk, d': Disk, j: nat, content: seq<Byte>)
    requires SameShape(d, d') && j < |d.inodes| && SameFile(d, d', j) && HoldsFile(d, j, content)
    ensures HoldsFile(d', j, content)
  {
    hide SameFile, Contents;
    SameFileContents(d, d', j);
    SameFileMeta(d, d', j);
  }

  lemma SameFileMeta(d: Disk, d': Disk, j: nat)
    requires SameShape(d, d') && j < |d.inodes| && SameFile(d, d', j)
    ensures Meta(d'.inodes[j]) == Meta(d.inodes[j])
  {
  }

  lemma OthersTrans(d: Disk, e: Disk, d': Disk, i: nat)
    requires OthersKept(d, e, i) && OthersKept(e, d', i)
    ensures OthersKept(d, d', i)
  {
    hide Ref, Data;
    forall j: nat | j < |d.inodes| && j != i
      ensures SameFile(d, d', j)
    {
      assert SameFile(d, e, j) && SameFile(e, d', j);
    }
  }

  lemma OthersSelf(d: Disk, i: nat)
    ensures OthersKept(d, d, i)
  {
  }

  /** The data comes in pieces of at most a block, as long as `read` likes. */
  method AppendFile(mk: Maker, i: nat, content: seq<Byte>)
    requires mk.Valid() && i < |mk.inodes| && mk.inodes[i].size == 0 && |content| <= MAXFILESIZE
    requires Contents(mk.D(), i) == [] && mk.freeblock + Cost(|content|) <= mk.g.first + mk.g.nblocks
    modifies mk
    ensures mk.Valid() && |mk.inodes| == |old(mk.inodes)| && OthersKept(old(mk.D()), mk.D(), i)
    ensures mk.inodes[i].size == |content| && SameButSize(old(mk.inodes[i]), mk.inodes[i])
    ensures Contents(mk.D(), i) == content && mk.freeblock == old(mk.freeblock) + Cost(|content|)
    ensures mk.freeinode == old(mk.freeinode)
  {
    ghost var d := mk.D();
    OthersSelf(d, i);
    hide Accounted, AllTidy, OthersKept, Contents, Range, Cost, Ceil;
    var done := 0;
    while done < |content|
      invariant 0 <= done <= |content| && mk.Valid() && |mk.inodes| == |d.inodes| && OthersKept(d, mk.D(), i)
      invariant mk.inodes[i].size == done && SameButSize(d.inodes[i], mk.inodes[i])
      invariant Contents(mk.D(), i) == content[..done] && mk.freeblock == old(mk.freeblock) + Cost(done)
      invariant mk.freeinode == old(mk.freeinode)
    {
      done := AppendPiece(mk, i, content, done, d);
    }
    assert content[..done] == content;
  }

  /** One `read` and its `iappend`. */
  method AppendPiece(mk: Maker, i: nat, content: seq<Byte>, done: nat, ghost d: Disk) returns (done': nat)
    requires mk.Valid() && i < |mk.inodes| == |d.inodes| && mk.inodes[i].size == done < |content| <= MAXFILESIZE
    requires SameButSize(d.inodes[i], mk.inodes[i]) && OthersKept(d, mk.D(), i)
    requires Contents(mk.D(), i) == content[..done]
    requires mk.freeblock + Cost(|content|) - Cost(done) <= mk.g.first + mk.g.nblocks
    modifies mk`inodes, mk`blocks, mk`freeblock, mk`owner
    ensures mk.Valid() && |mk.inodes| == |d.inodes| && OthersKept(d, mk.D(), i) && done < done' <= |content|
    ensures mk.inodes[i].size == done' && SameButSize(d.inodes[i], mk.inodes[i])
    ensures Contents(mk.D(), i) == content[..done'] && mk.freeblock - Cost(done') == old(mk.freeblock) - Cost(done)
  {
    hide Accounted, AllTidy, OthersKept, Contents, Range, Cost, Ceil;
    var cc: nat :| 0 < cc <= BSIZE && done + cc <= |content|;
    done' := done + cc;
    CostMono(done', |content|);
    ghost var e := mk.D();
    mk.Iappend(i, content[done..done']);
    OthersTrans(d, e, mk.D(), i);
    assert content[..done] + content[done..done'] == content[..done'];
  }

  /** A kept file has its inode unchanged. */
  lemma SameInode(d: Disk, d': Disk, j: nat)
    requires SameShape(d, d') && j < |d.inodes| && SameFile(d, d', j)
    ensures d'.inodes[j] == d.inodes[j]
  {
    var a, a' := d.inodes[j].addrs, d'.inodes[j].addrs;
    forall m | 0 <= m <= NDIRECT
      ensures a'[m] == a[m]
    {
      var n: nat := if m < NDIRECT then m else TABLE;
      assert Ref(d', j, n) == Ref(d, j, n);
    }
    assert a' == a;
  }

  /** Inode 0 and those from k on were never touched. */
  ghost predicate RestBlank(d: Disk, k: nat) {
    forall j: nat :: j < |d.inodes| && (j == 0 || k <= j) ==> d.inodes[j] == Blank()
  }

  /** Work on one file leaves the others and the unused inodes alone. */
  lemma FilesKept(d: Disk, d': Disk, i: nat, files: seq<SourceFile>)
    requires |files| + 2 <= |d.inodes| && OthersKept(d, d', i)
    requires forall k: nat :: k < |files| && k + 2 != i ==> HoldsFile(d, k + 2, files[k].content)
    ensures forall k: nat :: k < |files| && k + 2 != i ==> HoldsFile(d', k + 2, files[k].content)
  {
    hide HoldsFile, SameFile;
    forall k: nat | k < |files| && k + 2 != i
      ensures HoldsFile(d', k + 2, files[k].content)
    {
      FileKept(d, d', k + 2, files[k].content);
    }
  }

  lemma RootKept(d: Disk, d': Disk, i: nat, files: seq<SourceFile>)
    requires |files| < 0xFFFE && ROOTINO < |d.inodes| && OthersKept(d, d', i) && i != ROOTINO && HoldsRoot(d, files)
    ensures HoldsRoot(d', files)
  {
    hide SameFile, Contents, RootBytes;
    SameFileContents(d, d', ROOTINO);
    SameFileMeta(d, d', ROOTINO);
  }

  lemma BlankKept(d: Disk, d': Disk, i: nat, k: nat)
    requires OthersKept(d, d', i) && 0 < i < k && RestBlank(d, k)
    ensures RestBlank(d', k)
  {
    hide SameFile;
    forall j: nat | j < |d.inodes| && (j == 0 || k <= j)
      ensures d'.inodes[j] == d.inodes[j]
    {
      SameInode(d, d', j);
    }
  }

  lemma RootSize(d: Disk, files: seq<SourceFile>)
    requires |files| < 0xFFFE && ROOTINO < |d.inodes| && HoldsRoot(d, files)
    ensures d.inodes[ROOTINO].size == DIRENT * (|files| + 2)
  {
    assert |Contents(d, ROOTINO)| == |RootBytes(files)|;
  }

  /** The disk with root and files, and nothing in the inodes behind. */
  ghost predicate Holding(d: Disk, root: seq<SourceFile>, files: seq<SourceFile>)
    requires |root| < 0xFFFE
  {
    HoldsFiles(d, files) && HoldsRoot(d, root) && RestBlank(d, |files| + 2)
  }

  lemma AfterAlloc(d: Disk, d': Disk, files: seq<SourceFile>, f: SourceFile)
    requires |files| + 2 < |d.inodes| && |files| < 0xFFFE && Holding(d, files, files) && f.content == []
    requires var i := |files| + 2;
      OthersKept(d, d', i) && d'.inodes == d.inodes[i := Blank().(kind := T_FILE, nlink := 1)] && Contents(d', i) == []
    ensures Holding(d', files, files + [f])
  {
    var i := |files| + 2;
    hide OthersKept, Contents, HoldsFile, HoldsRoot;
    FilesKept(d, d', i, files);
    RootKept(d, d', i, files);
    EmptyFile(d', i);
  }

  lemma EmptyFile(d: Disk, i: nat)
    requires i < |d.inodes| && d.inodes[i] == Blank().(kind := T_FILE, nlink := 1)
    ensures HoldsFile(d, i, [])
  {
  }

  /** The new entry is written. */
  lemma AfterEntry(d: Disk, d': Disk, files: seq<SourceFile>, all: seq<SourceFile>, f: SourceFile)
    requires |files| < 0xFFFD && Holding(d, files, all) && OthersKept(d, d', ROOTINO) && SameShape(d, d')
    requires |all| == |files| + 1 && DIRENT * (|files| + 3) <= MAXFILESIZE
    requires var a, b := d.inodes[ROOTINO], d'.inodes[ROOTINO];
      SameButSize(a, b) && b.size == a.size + DIRENT
    requires Contents(d', ROOTINO) == Contents(d, ROOTINO) + Dirent(|files| + 2, f.name)
    ensures Holding(d', files + [f], all)
  {
    RootSize(d, files);
    hide Contents, HoldsFile, OthersKept, RootBytes;
    FilesKept(d, d', ROOTINO, all);
    BlankKept(d, d', ROOTINO, |all| + 2);
    assert (files + [f])[..|files|] == files;
    EntriesStep(files, f);
  }

  lemma EntriesStep(files: seq<SourceFile>, f: SourceFile)
    requires |files| < 0xFFFD
    ensures RootBytes(files + [f]) == RootBytes(files) + Dirent(|files| + 2, f.name)
  {
    assert (files + [f])[..|files|] == files;
  }

  /** The data is written. */
  lemma AfterData(d: Disk, d': Disk, files: seq<SourceFile>, root: seq<SourceFile>, empty: SourceFile, f: SourceFile)
    requires |root| < 0xFFFE && Holding(d, root, files + [empty])
    requires var i := |files| + 2;
      && OthersKept(d, d', i) && SameButSize(d.inodes[i], d'.inodes[i])
      && d'.inodes[i].size == |f.content| <= MAXFILESIZE && Contents(d', i) == f.content
    ensures Holding(d', root, files + [f])
  {
    var i := |files| + 2;
    assert HoldsFile(d, i, (files + [empty])[|files|].content);
    assert forall k: nat :: k < |files| ==> (files + [empty])[k] == files[k];
    LastFile(d, d', i, f.content);
    hide Contents, HoldsFile, OthersKept, HoldsRoot;
    FilesKept(d, d', i, files);
    RootKept(d, d', i, root);
    BlankKept(d, d', i, |files| + 3);
  }

  lemma LastFile(d: Disk, d': Disk, i: nat, content: seq<Byte>)
    requires i < |d.inodes| && i < |d'.inodes| && d.inodes[i].kind == T_FILE && d.inodes[i].nlink == 1
    requires SameButSize(d.inodes[i], d'.inodes[i]) && d'.inodes[i].size <= MAXFILESIZE && Contents(d', i) == content
    ensures HoldsFile(d', i, content)
  {
  }

  /** One round of the loop over the files. */
  method AddFile(mk: Maker, f: SourceFile, ghost files: seq<SourceFile>)
    requires mk.Valid() && |files| < 0xFFFD && mk.freeinode == |files| + 2 < |mk.inodes|
    requires Holding(mk.D(), files, files)
    requires |f.content| <= MAXFILESIZE && DIRENT * (|files| + 3) <= MAXFILESIZE
    requires mk.freeblock + Cost(DIRENT * (|files| + 3)) - Cost(DIRENT * (|files| + 2)) + Cost(|f.content|)
      <= mk.g.first + mk.g.nblocks
    modifies mk
    ensures mk.Valid() && mk.freeinode == old(mk.freeinode) + 1 && |mk.inodes| == |old(mk.inodes)|
    ensures Holding(mk.D(), files + [f], files + [f])
    ensures mk.freeblock == old(mk.freeblock) + Cost(DIRENT * (|files| + 3)) - Cost(DIRENT * (|files| + 2))
      + Cost(|f.content|)
  {
    hide Accounted, AllTidy, OthersKept, Contents, Range, Cost, Ceil, Holding;
    ghost var d := mk.D();
    ghost var empty := SourceFile(f.name, []);
    var inum := AllocFile(mk, files, empty);
    EnterFile(mk, inum, f, files, empty);
    ghost var e := mk.D();
    LastIsEmpty(e, files + [f], files, empty);
    AppendFile(mk, inum, f.content);
    AfterData(e, mk.D(), files, files + [f], empty, f);
  }

  lemma LastIsEmpty(d: Disk, root: seq<SourceFile>, files: seq<SourceFile>, empty: SourceFile)
    requires |root| < 0xFFFE && Holding(d, root, files + [empty]) && empty.content == []
    ensures d.inodes[|files| + 2].size == 0 && Contents(d, |files| + 2) == []
  {
    assert HoldsFile(d, |files| + 2, (files + [empty])[|files|].content);
    assert |Contents(d, |files| + 2)| == 0;
  }

  method AllocFile(mk: Maker, ghost files: seq<SourceFile>, ghost empty: SourceFile) returns (inum: nat)
    requires mk.Valid() && |files| < 0xFFFD && mk.freeinode == |files| + 2 < |mk.inodes|
    requires Holding(mk.D(), files, files) && empty.content == []
    modifies mk
    ensures mk.Valid() && inum == old(mk.freeinode) && mk.freeinode == inum + 1 && |mk.inodes| == |old(mk.inodes)|
    ensures Holding(mk.D(), files, files + [empty]) && mk.freeblock == old(mk.freeblock)
  {
    ghost var d := mk.D();
    NextIsBlank(d, files);
    hide Accounted, AllTidy, OthersKept, Contents, Range, Holding;
    inum := mk.Ialloc(T_FILE);
    AfterAlloc(d, mk.D(), files, empty);
  }

  lemma NextIsBlank(d: Disk, files: seq<SourceFile>)
    requires |files| < 0xFFFE && |files| + 2 < |d.inodes| && Holding(d, files, files)
    ensures d.inodes[|files| + 2] == Blank()
  {
  }

  method EnterFile(mk: Maker, inum: Ushort, f: SourceFile, ghost files: seq<SourceFile>, ghost empty: SourceFile)
    requires mk.Valid() && |files| < 0xFFFD && inum == |files| + 2 && Holding(mk.D(), files, files + [empty])
    requires DIRENT * (|files| + 3) <= MAXFILESIZE
    requires mk.freeblock + Cost(DIRENT * (|files| + 3)) - Cost(DIRENT * (|files| + 2)) <= mk.g.first + mk.g.nblocks
    modifies mk
    ensures mk.Valid() && mk.freeinode == old(mk.freeinode) && |mk.inodes| == |old(mk.inodes)|
    ensures Holding(mk.D(), files + [f], files + [empty])
    ensures mk.freeblock == old(mk.freeblock) + Cost(DIRENT * (|files| + 3)) - Cost(DIRENT * (|files| + 2))
  {
    ghost var d := mk.D();
    HoldingRoot(d, files, files + [empty]);
    hide Accounted, AllTidy, OthersKept, Contents, Range, Cost, Ceil, Holding;
    mk.Iappend(ROOTINO, Dirent(inum, f.name));
    AfterEntry(d, mk.D(), files, files + [empty], f);
  }

  lemma HoldingRoot(d: Disk, root: seq<SourceFile>, files: seq<SourceFile>)
    requires |root| < 0xFFFE && Holding(d, root, files)
    ensures ROOTINO < |d.inodes| && d.inodes[ROOTINO].size == DIRENT * (|root| + 2)
  {
    RootSize(d, root);
  }

  /** The blocks in use in the end. */
  function Used(size: nat, ninodes: nat, files: seq<SourceFile>): nat {
    FirstData(size, ninodes) + Cost(DIRENT * (|files| + 2)) + TotalCost(files)
  }

  /** A new disk and the inode of its root directory. */
  method MakeRoot(size: nat, ninodes: nat, nlog: nat) returns (mk: Maker)
    requires size < 0x1_0000_0000 && ninodes >= 2 && FirstData(size, ninodes) + nlog <= size
    ensures fresh(mk) && mk.Valid() && mk.freeinode == 2 && |mk.inodes| == ninodes
    ensures mk.g == Geometry(size, ninodes, FirstData(size, ninodes), size - nlog - FirstData(size, ninodes))
    ensures mk.freeblock == mk.g.first && mk.inodes[ROOTINO] == Blank().(kind := T_DIR, nlink := 1)
    ensures Contents(mk.D(), ROOTINO) == [] && RestBlank(mk.D(), 2)
  {
    hide Accounted, AllTidy, OthersKept, Contents, Range, FirstData;
    mk := new Maker(size, ninodes, nlog);
    var root := mk.Ialloc(T_DIR);
  }

  /** Its two entries for itself. */
  method AddDots(mk: Maker)
    requires mk.Valid() && 2 <= |mk.inodes| && mk.inodes[ROOTINO] == Blank().(kind := T_DIR, nlink := 1)
    requires Contents(mk.D(), ROOTINO) == [] && RestBlank(mk.D(), 2)
    requires mk.freeblock + Cost(DIRENT * 2) <= mk.g.first + mk.g.nblocks
    modifies mk`inodes, mk`blocks, mk`freeblock, mk`owner
    ensures mk.Valid() && |mk.inodes| == |old(mk.inodes)|
    ensures mk.freeblock == old(mk.freeblock) + Cost(DIRENT * 2) && Holding(mk.D(), [], [])
  {
    ghost var d := mk.D();
    CostMono(0, DIRENT);
    CostMono(DIRENT, DIRENT * 2);
    assert Cost(0) == 0;
    hide Accounted, AllTidy, OthersKept, Contents, Range, Cost, Ceil, Dirent, RestBlank, Holding;
    mk.Iappend(ROOTINO, Dirent(ROOTINO, DOT));
    ghost var e := mk.D();
    BlankKept(d, e, ROOTINO, 2);
    mk.Iappend(ROOTINO, Dirent(ROOTINO, DOTDOT));
    BlankKept(e, mk.D(), ROOTINO, 2);
    DotsAdded(mk.D());
  }

  lemma DotsAdded(d: Disk)
    requires RestBlank(d, 2) && 2 <= |d.inodes| && d.inodes[ROOTINO].kind == T_DIR && d.inodes[ROOTINO].nlink == 1
    requires d.inodes[ROOTINO].size <= MAXFILESIZE
    requires Contents(d, ROOTINO) == [] + Dirent(ROOTINO, DOT) + Dirent(ROOTINO, DOTDOT)
    ensures Holding(d, [], [])
  {
    hide Contents, Dirent;
    assert [] + Dirent(ROOTINO, DOT) == Dirent(ROOTINO, DOT);
  }

  method AddFiles(mk: Maker, size: nat, ninodes: nat, files: seq<SourceFile>)
    requires mk.Valid() && mk.freeinode == 2 && |mk.inodes| == ninodes && Holding(mk.D(), [], [])
    requires |files| < 0xFFFD && |files| + 2 <= ninodes && DIRENT * (|files| + 2) < MAXFILESIZE
    requires forall k: nat :: k < |files| ==> |files[k].content| <= MAXFILESIZE
    requires mk.freeblock == Used(size, ninodes, []) && Used(size, ninodes, files) <= mk.g.first + mk.g.nblocks
    modifies mk
    ensures mk.Valid() && |mk.inodes| == ninodes && Holding(mk.D(), files, files)
    ensures mk.freeblock == Used(size, ninodes, files)
  {
    hide Accounted, AllTidy, Contents, Range, Used, Holding;
    var k := 0;
    assert files[..0] == [];
    while k < |files|
      invariant 0 <= k <= |files| && mk.Valid() && mk.freeinode == k + 2 && |mk.inodes| == ninodes
      invariant mk.freeblock == Used(size, ninodes, files[..k]) && Holding(mk.D(), files[..k], files[..k])
    {
      UsedStep(size, ninodes, files, k);
      AddFile(mk, files[k], files[..k]);
      k := k + 1;
    }
    assert files[..k] == files;
  }

  lemma UsedStep(size: nat, ninodes: nat, files: seq<SourceFile>, k: nat)
    requires k < |files|
    ensures files[..k] + [files[k]] == files[..k + 1] && |files[..k]| == k
    ensures Used(size, ninodes, files[..k + 1]) <= Used(size, ninodes, files)
    ensures Used(size, ninodes, files[..k + 1]) == Used(size, ninodes, files[..k])
      + Cost(DIRENT * (k + 3)) - Cost(DIRENT * (k + 2)) + Cost(|files[k].content|)
  {
    TotalCostMono(files, k + 1);
    CostMono(DIRENT * (k + 3), DIRENT * (|files| + 2));
    assert files[..k + 1][..k] == files[..k];
    hide Cost;
  }

  /** The finished disk: bitmap, files, directory, and the sizes that go with the blocks. */
  ghost predicate IsBuilt(d: Disk, size: nat, ninodes: nat, files: seq<SourceFile>) {
    && |files| < 0xFFFE && |files| + 2 <= |d.inodes| && d.used == Range(0, Used(size, ninodes, files))
    && HoldsFiles(d, files) && RestBlank(d, |files| + 2)
    && (forall j: nat :: j < |d.inodes| && j != ROOTINO ==> Tidy(d, j))
    && RootIsBuilt(d, files)
  }

  ghost predicate RootIsBuilt(d: Disk, files: seq<SourceFile>)
    requires |files| < 0xFFFE && ROOTINO < |d.inodes|
  {
    var root := d.inodes[ROOTINO];
    && root.kind == T_DIR && root.nlink == 1
    && root.size == (DIRENT * (|files| + 2) / BSIZE + 1) * BSIZE <= MAXFILESIZE
    && Contents(d, ROOTINO) == CutTo(RootBytes(files), root.size) && Snug(d, ROOTINO)
    && (Full(d, ROOTINO) <==> DIRENT * (|files| + 2) % BSIZE != 0)
  }

  /** `main` up to the bitmap: what goes onto the disk for a list of files, the arguments of the command. Blocks are
      handed out as far as the disk goes; `main` does not look at where the log begins. */
  method BuildDisk(size: nat, ninodes: nat, files: seq<SourceFile>) returns (mk: Maker)
    requires |files| < 0xFFFD && |files| + 2 <= ninodes && DIRENT * (|files| + 2) < MAXFILESIZE
    requires forall k: nat :: k < |files| ==> |files[k].content| <= MAXFILESIZE
    requires Used(size, ninodes, files) <= size < 0x1_0000_0000
    ensures fresh(mk) && mk.Base() && IsBuilt(mk.D(), size, ninodes, files)
    ensures mk.g == Geometry(size, ninodes, FirstData(size, ninodes), size - FirstData(size, ninodes))
    ensures |mk.inodes| == ninodes && mk.freeblock == Used(size, ninodes, files)
  {
    UsedStart(size, ninodes, files);
    hide Accounted, AllTidy, Contents, Range, Used, Holding, IsBuilt;
    mk := MakeRoot(size, ninodes, 0);
    AddDots(mk);
    AddFiles(mk, size, ninodes, files);
    ghost var d := mk.D();
    HoldingRoot(d, files, files);
    mk.FixRoot(ROOTINO);
    Built(d, mk.D(), size, ninodes, files);
  }

  lemma UsedStart(size: nat, ninodes: nat, files: seq<SourceFile>)
    ensures Used(size, ninodes, []) == FirstData(size, ninodes) + Cost(DIRENT * 2)
    ensures Used(size, ninodes, []) <= Used(size, ninodes, files)
  {
    CostMono(DIRENT * 2, DIRENT * (|files| + 2));
  }

  lemma Built(d: Disk, d': Disk, size: nat, ninodes: nat, files: seq<SourceFile>)
    requires |files| < 0xFFFD && Holding(d, files, files) && OthersKept(d, d', ROOTINO)
    requires d'.used == Range(0, Used(size, ninodes, files)) && |d'.inodes| == |d.inodes|
    requires d.inodes[ROOTINO].size == DIRENT * (|files| + 2) < MAXFILESIZE
    requires d'.inodes[ROOTINO] == d.inodes[ROOTINO].(size := (DIRENT * (|files| + 2) / BSIZE + 1) * BSIZE)
    requires forall j: nat :: j < |d.inodes| && j != ROOTINO ==> Tidy(d', j)
    requires Snug(d', ROOTINO) && (Full(d', ROOTINO) <==> DIRENT * (|files| + 2) % BSIZE != 0)
    requires Contents(d', ROOTINO) == CutTo(Contents(d, ROOTINO), d'.inodes[ROOTINO].size)
    ensures IsBuilt(d', size, ninodes, files)
  {
    hide Contents, Used, HoldsFile, OthersKept, Range, Snug, Full, Tidy, RootBytes;
    FilesKept(d, d', ROOTINO, files);
    BlankKept(d, d', ROOTINO, |files| + 2);
  }
}
