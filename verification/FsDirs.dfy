/** `tools/libfs.c`: directories as files of fixed-size entries, from the bytes to the entries and back. */
module FsDirs {
  import opened Bytes
  import opened FsDisks
  import opened FsFiles
  import opened FsTrees

  type Ushort = x: int | 0 <= x < 0x1_0000

  const SLOTS: nat := MAXFILESIZE / DIRENT

  // Entries as bytes

  /** `strncpy`: at most DIRSIZ bytes, zeros behind them. */
  function PadName(name: seq<Byte>): (r: seq<Byte>)
    ensures |r| == DIRSIZ
  {
    if |name| >= DIRSIZ then name[..DIRSIZ] else name + Nulls(DIRSIZ - |name|)
  }

  /** A directory entry as bytes: inode number in two bytes, low one first, and the name. */
  function Dirent(inum: Ushort, name: seq<Byte>): (r: seq<Byte>)
    ensures |r| == DIRENT
  {
    [inum % 0x100, inum / 0x100] + PadName(name)
  }

  /** What `strncmp` sees of a name: the bytes in front of the first zero. */
  function Trunc(s: seq<Byte>): (r: seq<Byte>)
    ensures |r| <= |s| && forall k :: 0 <= k < |r| ==> r[k] == s[k] && r[k] != 0
  {
    if s == [] || s[0] == 0 then [] else [s[0]] + Trunc(s[1..])
  }

  /** A component of a path as `skipelem` leaves it. */
  predicate GoodName(name: seq<Byte>) {
    0 < |name| <= DIRSIZ && forall k :: 0 <= k < |name| ==> name[k] != 0
  }

  lemma {:induction false} TruncPadded(name: seq<Byte>, n: nat)
    requires forall k :: 0 <= k < |name| ==> name[k] != 0
    ensures Trunc(name + Nulls(n)) == name
  {
    if name == [] {
      assert n > 0 ==> ([] + Nulls(n))[0] == 0;
    } else {
      TruncPadded(name[1..], n);
      assert (name + Nulls(n))[1..] == name[1..] + Nulls(n);
    }
  }

  lemma PaddedName(name: seq<Byte>)
    requires GoodName(name)
    ensures Trunc(PadName(name)) == name
  {
    TruncPadded(name, DIRSIZ - |name|);
    assert name + [] == name;
    if |name| == DIRSIZ {
      assert Nulls(0) == [];
      assert name[..DIRSIZ] == name;
    }
  }

  /** The bytes of an entry: the number with its low byte first, the name, and zeros up to DIRSIZ bytes. */
  lemma DirentLayout(inum: Ushort, name: seq<Byte>)
    ensures var b := Dirent(inum, name);
      && (b[0] as int) + 0x100 * (b[1] as int) == inum
      && forall k :: 0 <= k < DIRSIZ ==> b[2 + k] == if k < |name| then name[k] else 0
  {
  }

  function InumOf(b: seq<Byte>): (n: Ushort)
    requires |b| == DIRENT
  {
    (b[0] as int) + 0x100 * (b[1] as int)
  }

  function NameOf(b: seq<Byte>): seq<Byte>
    requires |b| == DIRENT
  {
    Trunc(b[2..])
  }

  /** An entry reads as what was written. */
  lemma DirentRead(inum: Ushort, name: seq<Byte>)
    requires GoodName(name)
    ensures InumOf(Dirent(inum, name)) == inum && NameOf(Dirent(inum, name)) == name
  {
    PaddedName(name);
    assert Dirent(inum, name)[2..] == PadName(name);
  }

  // Directories on a disk

  predicate IsSlot(d: Disk, i: nat, s: nat) {
    i < |d.inodes| && d.inodes[i].kind == T_DIR && DIRENT * s + DIRENT <= d.inodes[i].size <= MAXFILESIZE
  }

  /** The bytes of entry s of directory i. */
  function EntBytes(d: Disk, i: nat, s: nat): (b: seq<Byte>)
    requires i < |d.inodes| && s < SLOTS
    ensures |b| == DIRENT
  {
    Slice(d, i, DIRENT * s, DIRENT)
  }

  predicate Live(d: Disk, i: nat, s: nat) {
    IsSlot(d, i, s) && InumOf(EntBytes(d, i, s)) != 0
  }

  function EntAt(d: Disk, i: nat, s: nat): Ent
    requires i < |d.inodes| && s < SLOTS
  {
    Ent(InumOf(EntBytes(d, i, s)), NameOf(EntBytes(d, i, s)))
  }

  ghost function Candidates(d: Disk): set<Slot> {
    set i: nat, s: nat | i < |d.inodes| && s < SLOTS :: (i, s)
  }

  ghost function Entries(d: Disk): map<Slot, Ent> {
    map k: Slot | k in Candidates(d) && Live(d, k.0, k.1) :: EntAt(d, k.0, k.1)
  }

  /** The directories of a disk. */
  ghost function View(d: Disk): Tree {
    Tree(seq(|d.inodes|, j requires 0 <= j < |d.inodes| => d.inodes[j].kind),
         seq(|d.inodes|, j requires 0 <= j < |d.inodes| => d.inodes[j].nlink),
         Entries(d))
  }

  lemma EntriesHas(d: Disk, i: nat, s: nat)
    ensures (i, s) in Entries(d) <==> Live(d, i, s)
    ensures Live(d, i, s) ==> s < SLOTS && Entries(d)[(i, s)] == EntAt(d, i, s)
  {
    if Live(d, i, s) {
      assert (i, s) in Candidates(d);
    }
  }

  ghost predicate SlotSame(d: Disk, d': Disk, i: nat, s: nat) {
    (Live(d', i, s) <==> Live(d, i, s)) && (Live(d, i, s) ==> EntAt(d', i, s) == EntAt(d, i, s))
  }

  lemma EntriesSame(d: Disk, d': Disk)
    requires forall i: nat, s: nat :: SlotSame(d, d', i, s)
    ensures Entries(d') == Entries(d)
  {
    var E, E' := Entries(d), Entries(d');
    forall k: Slot
      ensures k in E' <==> k in E
      ensures k in E ==> E'[k] == E[k]
    {
      assert k == (k.0, k.1) && SlotSame(d, d', k.0, k.1);
      EntriesHas(d, k.0, k.1);
      EntriesHas(d', k.0, k.1);
    }
    hide Entries;
    assert E' == E;
  }

  /** Inodes that differ in nothing a directory shows, and in size only behind an unchanged entry. */
  lemma SlotKept(d: Disk, d': Disk, i: nat, s: nat)
    requires |d'.inodes| == |d.inodes|
    requires i < |d.inodes| ==> d'.inodes[i].kind == d.inodes[i].kind
    requires i < |d.inodes| && s < SLOTS && d.inodes[i].kind == T_DIR ==>
      (IsSlot(d', i, s) <==> IsSlot(d, i, s)) && EntBytes(d', i, s) == EntBytes(d, i, s)
    ensures SlotSame(d, d', i, s)
  {
    hide EntBytes;
  }

  /** A file that was left alone shows the entries it showed. */
  lemma SlotOfOther(d: Disk, d': Disk, i: nat, s: nat)
    requires SameShape(d, d') && i < |d.inodes| && SameFile(d, d', i)
    ensures SlotSame(d, d', i, s)
  {
    if s < SLOTS {
      SliceSame(d, d', i, DIRENT * s, DIRENT);
    }
    hide SameFile;
    SameFileInode(d, d', i);
    SlotKept(d, d', i, s);
  }

  lemma SameFileInode(d: Disk, d': Disk, i: nat)
    requires SameShape(d, d') && i < |d.inodes| && SameFile(d, d', i)
    ensures Meta(d'.inodes[i]) == Meta(d.inodes[i])
  {
  }

  lemma SliceSame(d: Disk, d': Disk, i: nat, off: nat, n: nat)
    requires SameShape(d, d') && i < |d.inodes| && off + n <= MAXFILESIZE
    requires forall m: nat :: m < TABLE ==> Data(d', i, m) == Data(d, i, m)
    ensures Slice(d', i, off, n) == Slice(d, i, off, n)
  {
    hide Data;
    forall p: nat | p < MAXFILESIZE
      ensures At(d', i, p) == At(d, i, p)
    {
      assert Data(d', i, p / BSIZE) == Data(d, i, p / BSIZE);
    }
  }

  ghost predicate SameInodes(d: Disk, d': Disk) {
    |d'.inodes| == |d.inodes| && forall j: nat :: j < |d.inodes| ==>
      d'.inodes[j].kind == d.inodes[j].kind && d'.inodes[j].nlink == d.inodes[j].nlink
  }

  /** The same bytes and the same inodes make the same directories. */
  lemma SameView(d: Disk, d': Disk)
    requires SameShape(d, d') && SameMeta(d, d') && SameData(d, d')
    ensures View(d') == View(d)
  {
    hide Data;
    forall i: nat, s: nat
      ensures SlotSame(d, d', i, s)
    {
      if i < |d.inodes| {
        assert Meta(d'.inodes[i]) == Meta(d.inodes[i]);
        assert forall m: nat :: m < TABLE ==> InFile(d, i, m);
        if s < SLOTS {
          SliceSame(d, d', i, DIRENT * s, DIRENT);
        }
        SlotKept(d, d', i, s);
      }
    }
    hide SlotSame, Entries;
    EntriesSame(d, d');
    forall j: nat | j < |d.inodes|
      ensures d'.inodes[j].kind == d.inodes[j].kind && d'.inodes[j].nlink == d.inodes[j].nlink
    {
      assert Meta(d'.inodes[j]) == Meta(d.inodes[j]);
    }
  }

  /** Entry s of directory i is written, at its end or inside. */
  ghost predicate SlotWritten(d: Disk, d': Disk, i: nat, s: nat, b: seq<Byte>) {
    && Patched(d, d', i, DIRENT * s, b) && OthersKept(d, d', i) && |b| == DIRENT && s < SLOTS
    && d.inodes[i].kind == T_DIR && d.inodes[i].size % DIRENT == 0 && DIRENT * s <= d.inodes[i].size <= MAXFILESIZE
    && d'.inodes[i].kind == T_DIR && d'.inodes[i].nlink == d.inodes[i].nlink
    && d'.inodes[i].size as int == if DIRENT * s + DIRENT > d.inodes[i].size then DIRENT * s + DIRENT
                                   else d.inodes[i].size as int
  }

  lemma WrittenBytes(d: Disk, d': Disk, i: nat, s: nat, b: seq<Byte>, s': nat)
    requires SlotWritten(d, d', i, s, b) && s' < SLOTS
    ensures EntBytes(d', i, s') == if s' == s then b else EntBytes(d, i, s')
  {
    hide At, OthersKept;
    var e := EntBytes(d', i, s');
    forall k | 0 <= k < DIRENT
      ensures e[k] == if s' == s then b[k] else EntBytes(d, i, s')[k]
    {
      assert e[k] == At(d', i, DIRENT * s' + k);
    }
  }

  lemma WrittenSlot(d: Disk, d': Disk, i: nat, s: nat, b: seq<Byte>, j: nat, s': nat)
    requires SlotWritten(d, d', i, s, b) && (j != i || s' != s)
    ensures SlotSame(d, d', j, s')
  {
    hide EntBytes;
    if j == i {
      if s' < SLOTS {
        WrittenBytes(d, d', i, s, b, s');
      }
      hide Patched, OthersKept;
      SlotKept(d, d', i, s');
    } else if j < |d.inodes| {
      WrittenOther(d, d', i, s, b, j, s');
    }
  }

  lemma WrittenOther(d: Disk, d': Disk, i: nat, s: nat, b: seq<Byte>, j: nat, s': nat)
    requires SlotWritten(d, d', i, s, b) && j != i && j < |d.inodes|
    ensures SlotSame(d, d', j, s')
  {
    hide EntBytes, Patched;
    SlotOfOther(d, d', j, s');
  }

  /** The entries with that of slot k replaced or taken away. */
  ghost function Replaced(E: map<Slot, Ent>, k: Slot, e: Ent): map<Slot, Ent> {
    if e.inum != 0 then E[k := e] else E - {k}
  }

  lemma IsReplaced(E: map<Slot, Ent>, E': map<Slot, Ent>, k: Slot, e: Ent)
    requires forall l: Slot :: l != k ==> (l in E' <==> l in E) && (l in E ==> E'[l] == E[l])
    requires (k in E' <==> e.inum != 0) && (k in E' ==> E'[k] == e)
    ensures E' == Replaced(E, k, e)
  {
  }

  lemma WrittenLive(d: Disk, d': Disk, i: nat, s: nat, b: seq<Byte>)
    requires SlotWritten(d, d', i, s, b)
    ensures (i, s) in Entries(d') <==> InumOf(b) != 0
    ensures InumOf(b) != 0 ==> Entries(d')[(i, s)] == Ent(InumOf(b), NameOf(b))
  {
    hide Entries, EntBytes, InumOf, NameOf;
    WrittenBytes(d, d', i, s, b, s);
    hide Patched, OthersKept;
    EntriesHas(d', i, s);
  }

  lemma WrittenEntries(d: Disk, d': Disk, i: nat, s: nat, b: seq<Byte>)
    requires SlotWritten(d, d', i, s, b)
    ensures Entries(d') == Replaced(Entries(d), (i, s), Ent(InumOf(b), NameOf(b)))
  {
    hide Entries, EntBytes, SlotWritten, Live, EntAt;
    WrittenLive(d, d', i, s, b);
    forall k: Slot | k != (i, s)
      ensures (k in Entries(d') <==> k in Entries(d)) && (k in Entries(d) ==> Entries(d')[k] == Entries(d)[k])
    {
      OtherEntry(d, d', i, s, b, k);
    }
    WrittenLength(d, d', i, s, b);
    IsReplaced(Entries(d), Entries(d'), (i, s), Ent(InumOf(b), NameOf(b)));
  }

  lemma WrittenLength(d: Disk, d': Disk, i: nat, s: nat, b: seq<Byte>)
    requires SlotWritten(d, d', i, s, b)
    ensures |b| == DIRENT
  {
  }

  lemma OtherEntry(d: Disk, d': Disk, i: nat, s: nat, b: seq<Byte>, k: Slot)
    requires SlotWritten(d, d', i, s, b) && k != (i, s)
    ensures k in Entries(d') <==> k in Entries(d)
    ensures k in Entries(d) ==> Entries(d')[k] == Entries(d)[k]
  {
    hide Entries, EntBytes, SlotWritten, Live, EntAt;
    assert k == (k.0, k.1);
    WrittenSlot(d, d', i, s, b, k.0, k.1);
    EntriesHas(d, k.0, k.1);
    EntriesHas(d', k.0, k.1);
  }

  lemma ViewIs(d: Disk, d': Disk)
    requires SameInodes(d, d')
    ensures View(d') == View(d).(ent := Entries(d'))
  {
    hide Entries;
  }

  /** Writing an entry changes just that entry of the directories: it comes up, or it is erased. */
  lemma WrittenView(d: Disk, d': Disk, i: nat, s: nat, b: seq<Byte>)
    requires SlotWritten(d, d', i, s, b)
    ensures View(d') == View(d).(ent := Replaced(View(d).ent, (i, s), Ent(InumOf(b), NameOf(b))))
  {
    WrittenInodes(d, d', i, s, b);
    WrittenEntries(d, d', i, s, b);
    hide Entries, SlotWritten;
    ViewIs(d, d');
  }

  lemma WrittenInodes(d: Disk, d': Disk, i: nat, s: nat, b: seq<Byte>)
    requires SlotWritten(d, d', i, s, b)
    ensures SameInodes(d, d')
  {
    forall j: nat | j < |d.inodes| && j != i
      ensures Meta(d'.inodes[j]) == Meta(d.inodes[j])
    {
      SameFileInode(d, d', j);
    }
  }
}
