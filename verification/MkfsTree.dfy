/** The directory that `mkfs` builds. */
module MkfsTree {
  import opened Bytes
  import opened FsDisks
  import opened FsFiles
  import opened FsTrees
  import opened FsDirs
  import opened FsNames
  import opened Mkfs
  import opened MkfsMain

  /** Names a directory can hold: none empty, too long or twice, and none of the two that are there already. */
  ghost predicate GoodNames(files: seq<SourceFile>) {
    && (forall k: nat :: k < |files| ==>
         GoodName(files[k].name) && files[k].name != DOT && files[k].name != DOTDOT)
    && forall k: nat, l: nat :: k < |files| && l < |files| && files[k].name == files[l].name ==> k == l
  }

  /** Entry s of the root directory. */
  function RootEnt(files: seq<SourceFile>, s: nat): Ent
    requires s < |files| + 2
  {
    if s == 0 then Ent(ROOTINO, DOT) else if s == 1 then Ent(ROOTINO, DOTDOT) else Ent(s, files[s - 2].name)
  }

  function RootDirent(files: seq<SourceFile>, s: nat): (r: seq<Byte>)
    requires |files| < 0xFFFE && s < |files| + 2
    ensures |r| == DIRENT
  {
    Dirent(RootEnt(files, s).inum, RootEnt(files, s).name)
  }

  lemma {:induction false} RootBytesAt(files: seq<SourceFile>, s: nat)
    requires |files| < 0xFFFE && s < |files| + 2
    ensures RootBytes(files)[DIRENT * s..DIRENT * s + DIRENT] == RootDirent(files, s)
  {
    hide Dirent;
    if files == [] {
      if s == 0 {
        assert RootBytes(files)[0..DIRENT] == Dirent(ROOTINO, DOT);
      } else {
        assert RootBytes(files)[DIRENT..DIRENT + DIRENT] == Dirent(ROOTINO, DOTDOT);
      }
    } else {
      var n := |files| - 1;
      var front := RootBytes(files[..n]);
      assert RootBytes(files) == front + Dirent(n + 2, files[n].name);
      if s < n + 2 {
        RootBytesAt(files[..n], s);
        assert (front + Dirent(n + 2, files[n].name))[DIRENT * s..DIRENT * s + DIRENT] ==
          front[DIRENT * s..DIRENT * s + DIRENT];
      } else {
        assert (front + Dirent(n + 2, files[n].name))[DIRENT * s..DIRENT * s + DIRENT] ==
          Dirent(n + 2, files[n].name);
      }
    }
  }

  lemma SliceOfContents(d: Disk, i: nat, off: nat, n: nat)
    requires i < |d.inodes| && off + n <= d.inodes[i].size <= MAXFILESIZE
    ensures Slice(d, i, off, n) == Contents(d, i)[off..off + n]
  {
    hide At;
    var b, c := Slice(d, i, off, n), Contents(d, i);
    forall k | 0 <= k < n
      ensures b[k] == c[off + k]
    {
      assert b[k] == At(d, i, off + k) && c[off + k] == At(d, i, 0 + (off + k));
    }
  }

  lemma CutToAt(c: seq<Byte>, n: nat, off: nat, m: nat)
    requires off + m <= n
    ensures off + m <= |c| ==> CutTo(c, n)[off..off + m] == c[off..off + m]
    ensures |c| <= off ==> CutTo(c, n)[off..off + m] == Nulls(m)
  {
  }

  /** The entries of the root directory as they are read. */
  lemma RootEntBytes(d: Disk, files: seq<SourceFile>, s: nat)
    requires |files| < 0xFFFE && ROOTINO < |d.inodes| && RootIsBuilt(d, files) && IsSlot(d, ROOTINO, s)
    ensures EntBytes(d, ROOTINO, s) == if s < |files| + 2 then RootDirent(files, s) else Nulls(DIRENT)
  {
    hide RootBytes, Contents, Slice, RootDirent, CutTo, Snug, Full;
    SliceOfContents(d, ROOTINO, DIRENT * s, DIRENT);
    CutToAt(RootBytes(files), d.inodes[ROOTINO].size, DIRENT * s, DIRENT);
    if s < |files| + 2 {
      RootBytesAt(files, s);
    }
  }

  /** The directories of the new disk: the root with its entries, one for each file. */
  ghost predicate NewTree(T: Tree, files: seq<SourceFile>) {
    var n := |files| + 2;
    && |T.kind| == |T.nlink| && n <= |T.kind| && T.kind[ROOTINO] == T_DIR && T.nlink[ROOTINO] == 1
    && (forall t: nat :: 2 <= t < n ==> T.kind[t] == T_FILE && T.nlink[t] == 1)
    && (forall t: nat :: t < |T.kind| && (t == 0 || n <= t) ==> T.kind[t] == 0)
    && (forall k: Slot :: k in T.ent <==> k.0 == ROOTINO && k.1 < n)
    && forall s: nat :: s < n ==> T.ent[(ROOTINO, s)] == RootEnt(files, s)
  }

  lemma NewTreeEnt(T: Tree, files: seq<SourceFile>, k: Slot)
    requires NewTree(T, files) && k in T.ent
    ensures k == (ROOTINO, k.1) && k.1 < |files| + 2 && T.ent[k] == RootEnt(files, k.1)
  {
  }

  /** Every inode in use has one link. */
  lemma NewLinks(T: Tree, files: seq<SourceFile>, t: nat)
    requires NewTree(T, files) && GoodNames(files) && 0 < t < |files| + 2
    ensures LinksTo(T, t) == {(ROOTINO, t)}
  {
    forall k: Slot
      ensures k in LinksTo(T, t) <==> k == (ROOTINO, t)
    {
      if k in T.ent {
        NewTreeEnt(T, files, k);
      }
    }
  }

  lemma NewTreeOk(T: Tree, files: seq<SourceFile>)
    requires NewTree(T, files) && GoodNames(files)
    ensures TreeOk(T)
  {
    assert |DOT| == 1 && |DOTDOT| == 2;
    forall k | k in T.ent
      ensures EntOk(T, k) && k.0 == ROOTINO && (Normal(T, k) ==> !IsDir(T, T.ent[k].inum))
    {
      NewTreeEnt(T, files, k);
    }
    NewNames(T, files);
    forall t | 0 < t < |T.kind| && T.kind[t] != 0
      ensures T.nlink[t] == |LinksTo(T, t)|
    {
      NewLinks(T, files, t);
    }
    assert forall c :: IsDir(T, c) <==> c == ROOTINO;
    assert HasDots(T, ROOTINO);
  }

  lemma NewNames(T: Tree, files: seq<SourceFile>)
    requires NewTree(T, files) && GoodNames(files)
    ensures NamesOk(T)
  {
    forall k, l | k in T.ent && l in T.ent && k.0 == l.0 && T.ent[k].name == T.ent[l].name
      ensures k == l
    {
      assert |DOT| == 1 && |DOTDOT| == 2;
      NewTreeEnt(T, files, k);
      NewTreeEnt(T, files, l);
    }
  }

  /** The root directory shows its entries and blanks behind them; nothing else is a directory. */
  predicate ShowsRoot(d: Disk, files: seq<SourceFile>, i: nat, s: nat) {
    && (Live(d, i, s) <==> i == ROOTINO && s < |files| + 2)
    && (Live(d, i, s) ==> s < SLOTS && EntAt(d, i, s) == RootEnt(files, s))
    && (IsSlot(d, i, s) ==> i == ROOTINO && (s >= |files| + 2 ==> NameOf(EntBytes(d, i, s)) == []))
  }

  lemma BuiltSlot(d: Disk, size: nat, ninodes: nat, files: seq<SourceFile>, i: nat, s: nat)
    requires IsBuilt(d, size, ninodes, files) && GoodNames(files)
    ensures ShowsRoot(d, files, i, s)
  {
    hide EntBytes, IsBuilt, GoodNames, InumOf, NameOf, RootDirent;
    BuiltKind(d, size, ninodes, files, i);
    if IsSlot(d, i, s) {
      BuiltEnt(d, size, ninodes, files, s);
    }
  }

  lemma BuiltEnt(d: Disk, size: nat, ninodes: nat, files: seq<SourceFile>, s: nat)
    requires IsBuilt(d, size, ninodes, files) && GoodNames(files) && IsSlot(d, ROOTINO, s)
    ensures s < SLOTS && var b := EntBytes(d, ROOTINO, s);
      if s < |files| + 2 then InumOf(b) == RootEnt(files, s).inum && NameOf(b) == RootEnt(files, s).name
      else InumOf(b) == 0 && NameOf(b) == []
  {
    hide EntBytes, Contents, RootBytes, Tidy, InumOf, NameOf, Dirent;
    RootEntBytes(d, files, s);
    if s < |files| + 2 {
      assert |DOT| == 1 && |DOTDOT| == 2;
      DirentRead(RootEnt(files, s).inum, RootEnt(files, s).name);
    } else {
      ZeroEntry();
    }
  }

  lemma BuiltKind(d: Disk, size: nat, ninodes: nat, files: seq<SourceFile>, i: nat)
    requires IsBuilt(d, size, ninodes, files)
    ensures i < |d.inodes| && d.inodes[i].kind == T_DIR ==> i == ROOTINO
    ensures 2 <= i < |files| + 2 ==> d.inodes[i].kind == T_FILE && d.inodes[i].nlink == 1
    ensures i < |d.inodes| && (i == 0 || |files| + 2 <= i) ==> d.inodes[i].kind == 0 && d.inodes[i].size == 0
    ensures forall s: nat :: s < |files| + 2 ==> IsSlot(d, ROOTINO, s)
  {
    hide Tidy, Contents, RootBytes;
    if 2 <= i < |files| + 2 {
      assert HoldsFile(d, (i - 2) + 2, files[i - 2].content);
    }
    RootLarge(|files|);
  }

  lemma RootLarge(n: nat)
    ensures DIRENT * (n + 2) <= (DIRENT * (n + 2) / BSIZE + 1) * BSIZE
    ensures ((DIRENT * (n + 2) / BSIZE + 1) * BSIZE) % DIRENT == 0
  {
  }

  lemma BuiltTree(d: Disk, size: nat, ninodes: nat, files: seq<SourceFile>)
    requires IsBuilt(d, size, ninodes, files) && GoodNames(files)
    ensures NewTree(View(d), files)
  {
    hide IsBuilt, Entries, Live, GoodNames;
    BuiltShape(d, size, ninodes, files);
    forall k: Slot
      ensures k in Entries(d) <==> k.0 == ROOTINO && k.1 < |files| + 2
    {
      assert k == (k.0, k.1);
      EntriesHas(d, k.0, k.1);
      BuiltSlot(d, size, ninodes, files, k.0, k.1);
    }
    forall s: nat | s < |files| + 2
      ensures Entries(d)[(ROOTINO, s)] == RootEnt(files, s)
    {
      EntriesHas(d, ROOTINO, s);
      BuiltSlot(d, size, ninodes, files, ROOTINO, s);
    }
    forall t: nat
      ensures 2 <= t < |files| + 2 ==> d.inodes[t].kind == T_FILE && d.inodes[t].nlink == 1
      ensures t < |d.inodes| && (t == 0 || |files| + 2 <= t) ==> d.inodes[t].kind == 0
    {
      BuiltKind(d, size, ninodes, files, t);
    }
  }

  lemma BuiltShape(d: Disk, size: nat, ninodes: nat, files: seq<SourceFile>)
    requires IsBuilt(d, size, ninodes, files)
    ensures |files| + 2 <= |d.inodes| && d.inodes[ROOTINO].kind == T_DIR && d.inodes[ROOTINO].nlink == 1
  {
    hide Contents, RootBytes, Tidy;
  }

  lemma BuiltFile(d: Disk, size: nat, ninodes: nat, files: seq<SourceFile>, j: nat)
    requires IsBuilt(d, size, ninodes, files) && GoodNames(files) && j < |d.inodes|
    ensures FileOk(d, j)
  {
    hide Contents, RootBytes, EntBytes, Live, Snug, Full, GoodNames, HoldsFiles;
    BuiltKind(d, size, ninodes, files, j);
    RootLarge(|files|);
    assert j != ROOTINO ==> Tidy(d, j);
    forall s: nat | IsSlot(d, j, s) && !Live(d, j, s)
      ensures NameOf(EntBytes(d, j, s)) == []
    {
      BuiltSlot(d, size, ninodes, files, j, s);
    }
  }

  /** A disk just made is one that the operations on names can work on. */
  lemma BuiltOk(d: Disk, size: nat, ninodes: nat, files: seq<SourceFile>)
    requires IsBuilt(d, size, ninodes, files) && GoodNames(files) && |d.inodes| <= 0x1_0000
    ensures FilesOk(d) && TreeOk(View(d))
  {
    hide IsBuilt, GoodNames, FileOk, NewTree, View;
    BuiltShape(d, size, ninodes, files);
    BuiltTree(d, size, ninodes, files);
    NewTreeOk(View(d), files);
    forall j: nat | j < |d.inodes|
      ensures FileOk(d, j)
    {
      BuiltFile(d, size, ninodes, files, j);
    }
  }
}
