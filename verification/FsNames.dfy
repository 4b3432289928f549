/** `tools/libfs.c`: looking up, adding and removing the names in a directory, and their inodes with them. */
module FsNames {
  import opened Bytes
  import opened FsDisks
  import opened FsFiles
  import opened FsImages
  import opened FsTrees
  import opened FsDirs
  import opened FsFrames

  /** What a directory keeps beside its entries: whole entries only, and no name left in an erased one. */
  ghost predicate DirOk(d: Disk, j: nat)
    requires j < |d.inodes|
  {
    d.inodes[j].size % DIRENT == 0 &&
    forall s: nat :: IsSlot(d, j, s) && !Live(d, j, s) ==> NameOf(EntBytes(d, j, s)) == []
  }

  /** No block behind the end; no hole but perhaps in the root directory; no data in devices and unused inodes. */
  ghost predicate FileOk(d: Disk, j: nat)
    requires j < |d.inodes|
  {
    && Snug(d, j) && (j != ROOTINO ==> Full(d, j))
    && (d.inodes[j].kind == 0 || d.inodes[j].kind == T_DEV ==> d.inodes[j].size == 0)
    && (d.inodes[j].kind == T_DIR ==> DirOk(d, j))
  }

  ghost predicate FilesOk(d: Disk) {
    ROOTINO < |d.inodes| <= 0x1_0000 && forall j: nat :: j < |d.inodes| ==> FileOk(d, j)
  }

  /** Looking around in directory i: holes may have been filled, and nothing else happened. */
  ghost predicate Still(d: Disk, d': Disk, i: nat) {
    i < |d.inodes| && Grown(d, d', i, 0, Ceil(d.inodes[i].size))
  }

  lemma StillSelf(d: Disk, i: nat)
    requires i < |d.inodes|
    ensures Still(d, d, i)
  {
  }

  lemma StillTrans(d: Disk, e: Disk, d': Disk, i: nat)
    requires Still(d, e, i) && Still(e, d', i)
    ensures Still(d, d', i)
  {
    assert Meta(e.inodes[i]) == Meta(d.inodes[i]);
    hide Ref, Data;
    var hi := Ceil(d.inodes[i].size);
    forall j: nat, m: nat | InFile(d, j, m)
      ensures Ref(d', j, m) == Ref(d, j, m) || (Ref(d, j, m) == 0 && j == i && MayGrow(m, 0, hi))
    {
      assert Ref(e, j, m) == Ref(d, j, m) || (Ref(d, j, m) == 0 && j == i && MayGrow(m, 0, hi));
    }
  }

  lemma StillPart(d: Disk, d': Disk, i: nat, lo: nat, hi: nat)
    requires i < |d.inodes| && Grown(d, d', i, lo, hi) && hi <= Ceil(d.inodes[i].size)
    ensures Still(d, d', i)
  {
    hide Ref, Data;
    forall j: nat, m: nat | InFile(d, j, m)
      ensures Ref(d', j, m) == Ref(d, j, m) ||
        (Ref(d, j, m) == 0 && j == i && MayGrow(m, 0, Ceil(d.inodes[i].size)))
    {
      assert Ref(d', j, m) == Ref(d, j, m) || (Ref(d, j, m) == 0 && j == i && MayGrow(m, lo, hi));
    }
  }

  lemma StillMeta(d: Disk, d': Disk, i: nat, j: nat)
    requires Still(d, d', i) && j < |d.inodes|
    ensures SameShape(d, d') && Meta(d'.inodes[j]) == Meta(d.inodes[j])
  {
  }

  lemma StillEnt(d: Disk, d': Disk, i: nat, j: nat, s: nat)
    requires Still(d, d', i) && j < |d.inodes| && s < SLOTS
    ensures EntBytes(d', j, s) == EntBytes(d, j, s)
  {
    hide Ref, Data;
    assert forall m: nat :: m < TABLE ==> InFile(d, j, m);
    SliceSame(d, d', j, DIRENT * s, DIRENT);
  }

  lemma StillSnug(d: Disk, d': Disk, i: nat, j: nat)
    requires Still(d, d', i) && j < |d.inodes|
    ensures Snug(d, j) ==> Snug(d', j)
    ensures Full(d, j) ==> Full(d', j)
  {
    StillMeta(d, d', i, j);
    assert forall m: nat :: m <= TABLE ==> InFile(d, j, m);
    hide Ref, Data;
  }

  lemma StillDir(d: Disk, d': Disk, i: nat, j: nat)
    requires Still(d, d', i) && j < |d.inodes| && DirOk(d, j)
    ensures DirOk(d', j)
  {
    StillMeta(d, d', i, j);
    forall s: nat | IsSlot(d', j, s)
      ensures EntBytes(d', j, s) == EntBytes(d, j, s)
    {
      StillEnt(d, d', i, j, s);
    }
    hide EntBytes, Still;
    assert forall s: nat :: IsSlot(d', j, s) <==> IsSlot(d, j, s);
  }

  lemma StillFile(d: Disk, d': Disk, i: nat, j: nat)
    requires Still(d, d', i) && j < |d.inodes| && FileOk(d, j)
    ensures FileOk(d', j)
  {
    StillMeta(d, d', i, j);
    hide Still, Snug, Full, DirOk;
    StillSnug(d, d', i, j);
    if d.inodes[j].kind == T_DIR {
      StillDir(d, d', i, j);
    }
  }

  lemma StillFrame(d: Disk, d': Disk, i: nat)
    requires Still(d, d', i) && FilesOk(d)
    ensures Frame(d, d', {}, {}, {})
  {
    assert FileOk(d, i);
    hide FilesOk, Full, Grown, DirOk;
    GrownFrame(d, d', i);
  }

  /** Nothing a directory shows has changed, and nothing else in any file. */
  lemma StillOk(d: Disk, d': Disk, i: nat)
    requires Still(d, d', i)
    ensures View(d') == View(d) && (FilesOk(d) ==> FilesOk(d') && Frame(d, d', {}, {}, {}))
  {
    SameView(d, d');
    StillMeta(d, d', i, i);
    hide Still, View, FileOk, Frame;
    if FilesOk(d) {
      StillFrame(d, d', i);
      forall j: nat | j < |d.inodes|
        ensures FileOk(d', j)
      {
        StillFile(d, d', i, j);
      }
    }
  }

  /** Reads one entry. */
  method ReadEnt(img: Image, i: nat, off: nat) returns (ok: bool, b: seq<Byte>)
    requires img.Valid() && i < |img.inodes| && img.inodes[i].kind == T_DIR && img.inodes[i].size <= MAXFILESIZE
    requires off % DIRENT == 0 && off + DIRENT <= img.inodes[i].size
    modifies img
    ensures img.Valid() && Still(old(img.D()), img.D(), i)
    ensures ok ==> |b| == DIRENT && b == EntBytes(old(img.D()), i, off / DIRENT)
  {
    ghost var d := img.D();
    EntRange(d, i, off);
    hide Accounted, UsedSet, FreeBlocks, Need, Grown, Still, Slice, Ref, EntBytes, Next, Ceil, Contents;
    var buf := new Byte[DIRENT];
    var r := img.Iread(i, buf, DIRENT, off);
    StillPart(d, img.D(), i, off / BSIZE, Next(off, DIRENT));
    ok := r != Fatal;
    b := buf[..];
    assert buf[..] == buf[..DIRENT];
  }

  lemma EntRange(d: Disk, i: nat, off: nat)
    requires i < |d.inodes| && off % DIRENT == 0 && off + DIRENT <= d.inodes[i].size <= MAXFILESIZE
    requires d.inodes[i].kind == T_DIR
    ensures Next(off, DIRENT) <= Ceil(d.inodes[i].size)
    ensures off / DIRENT < SLOTS && EntBytes(d, i, off / DIRENT) == Contents(d, i)[off..off + DIRENT]
  {
    SliceContents(d, i, off, DIRENT);
    assert DIRENT * (off / DIRENT) == off;
  }

  /** An inode and the position of its entry; no such entry; or `fatal`. */
  datatype Lookup = Found(inum: nat, off: nat) | Missing | Aborted

  /** The first entry of that name, which is the only one. */
  ghost predicate LooksUp(d: Disk, dp: nat, name: seq<Byte>, r: Lookup) {
    match r
    case Found(inum, off) =>
      off % DIRENT == 0 && IsSlot(d, dp, off / DIRENT)
      && (dp, off / DIRENT) in View(d).ent && View(d).ent[(dp, off / DIRENT)] == Ent(inum, name)
    case Missing => NewName(View(d), dp, name)
    case Aborted => true
  }

  ghost predicate NotIn(d: Disk, dp: nat, name: seq<Byte>, n: nat)
    requires dp < |d.inodes| && n <= SLOTS
  {
    forall s: nat :: s < n ==> NameOf(EntBytes(d, dp, s)) != name
  }

  lemma NotInStart(d: Disk, dp: nat, name: seq<Byte>)
    requires dp < |d.inodes|
    ensures NotIn(d, dp, name, 0)
  {
  }

  lemma NotInStep(d: Disk, dp: nat, name: seq<Byte>, off: nat, b: seq<Byte>)
    requires dp < |d.inodes| && off % DIRENT == 0 && off + DIRENT <= MAXFILESIZE
    requires NotIn(d, dp, name, off / DIRENT) && b == EntBytes(d, dp, off / DIRENT) && NameOf(b) != name
    ensures NotIn(d, dp, name, (off + DIRENT) / DIRENT)
  {
    hide EntBytes;
  }

  /** A directory is made of whole entries. */
  lemma WholeSlots(d: Disk, dp: nat)
    requires FilesOk(d) && dp < |d.inodes| && d.inodes[dp].kind == T_DIR
    ensures d.inodes[dp].size % DIRENT == 0 && d.inodes[dp].size <= MAXFILESIZE
  {
    assert FileOk(d, dp);
  }

  /** An entry with the name is live: `iget` finds its inode. */
  lemma FoundAt(d: Disk, dp: nat, off: nat, name: seq<Byte>, b: seq<Byte>)
    requires FilesOk(d) && EntsOk(View(d)) && dp < |d.inodes| && d.inodes[dp].kind == T_DIR && GoodName(name)
    requires off % DIRENT == 0 && off + DIRENT <= d.inodes[dp].size <= MAXFILESIZE
    requires b == EntBytes(d, dp, off / DIRENT) && NameOf(b) == name
    ensures LooksUp(d, dp, name, Found(InumOf(b), off)) && 0 < InumOf(b) < |d.inodes|
  {
    var s := off / DIRENT;
    assert FileOk(d, dp);
    assert DIRENT * s == off;
    assert IsSlot(d, dp, s);
    EntriesHas(d, dp, s);
    assert EntOk(View(d), (dp, s));
  }

  /** After the last entry it is certain that the name is new. */
  lemma NotThere(d: Disk, dp: nat, name: seq<Byte>)
    requires dp < |d.inodes| && d.inodes[dp].size <= MAXFILESIZE && d.inodes[dp].size % DIRENT == 0
    requires NotIn(d, dp, name, d.inodes[dp].size / DIRENT)
    ensures NewName(View(d), dp, name)
  {
    hide Entries, EntBytes;
    forall l | l in Entries(d) && l.0 == dp
      ensures Entries(d)[l].name != name
    {
      assert l == (l.0, l.1);
      EntriesHas(d, l.0, l.1);
    }
  }

  /** `dlookup` */
  method Dlookup(img: Image, dp: nat, name: seq<Byte>) returns (r: Lookup)
    requires img.Valid() && FilesOk(img.D()) && EntsOk(View(img.D())) && GoodName(name)
    requires dp < |img.inodes| && img.inodes[dp].kind == T_DIR
    modifies img
    ensures img.Valid() && Still(old(img.D()), img.D(), dp) && LooksUp(old(img.D()), dp, name, r)
  {
    hide Accounted, UsedSet, Still, EntBytes, FilesOk, EntsOk, View, LooksUp, NotIn, NewName, GoodName;
    ghost var d := img.D();
    StillSelf(d, dp);
    WholeSlots(d, dp);
    NotInStart(d, dp, name);
    IsMissing(d, dp, name);
    var off := 0;
    var size := img.inodes[dp].size;
    r := Missing;
    while off < size && r == Missing
      invariant 0 <= off <= size && off % DIRENT == 0 && img.Valid() && Still(d, img.D(), dp)
      invariant r == Missing ==> NotIn(d, dp, name, off / DIRENT)
      invariant r != Missing ==> LooksUp(d, dp, name, r)
      decreases size - off, r == Missing
    {
      r, off := LookStep(img, dp, name, off, d);
    }
    if r == Missing {
      NotThere(d, dp, name);
    }
  }

  method LookStep(img: Image, dp: nat, name: seq<Byte>, off: nat, ghost d: Disk) returns (r: Lookup, off': nat)
    requires img.Valid() && FilesOk(d) && EntsOk(View(d)) && GoodName(name) && Still(d, img.D(), dp)
    requires dp < |d.inodes| && d.inodes[dp].kind == T_DIR && off % DIRENT == 0
    requires off < d.inodes[dp].size <= MAXFILESIZE && NotIn(d, dp, name, off / DIRENT)
    modifies img
    ensures img.Valid() && Still(d, img.D(), dp)
    ensures r == Missing ==> off' == off + DIRENT <= d.inodes[dp].size && NotIn(d, dp, name, off' / DIRENT)
    ensures r != Missing ==> off' == off && LooksUp(d, dp, name, r)
  {
    hide Accounted, UsedSet, Still, EntBytes, FilesOk, EntsOk, View, LooksUp, NotIn, GoodName;
    ghost var e := img.D();
    WholeSlots(d, dp);
    StillMeta(d, e, dp, dp);
    IsMissing(d, dp, name);
    var ok, b := ReadEnt(img, dp, off);
    StillTrans(d, e, img.D(), dp);
    if !ok {
      return Aborted, off;
    }
    StillEnt(d, e, dp, dp, off / DIRENT);
    if NameOf(b) == name {
      FoundAt(d, dp, off, name, b);
      return Found(InumOf(b), off), off;
    }
    NotInStep(d, dp, name, off, b);
    return Missing, off + DIRENT;
  }

  lemma IsMissing(d: Disk, dp: nat, name: seq<Byte>)
    ensures NewName(View(d), dp, name) ==> LooksUp(d, dp, name, Missing)
    ensures LooksUp(d, dp, name, Aborted)
  {
  }

  // Changes of inodes that leave the blocks alone

  /** Another link count or kind. */
  function SetInode(d: Disk, i: nat, kind: nat, nlink: int): (d': Disk)
    requires i < |d.inodes|
    ensures SameShape(d, d')
  {
    d.(inodes := d.inodes[i := d.inodes[i].(kind := kind, nlink := nlink)])
  }

  lemma InodeSet(d: Disk, owner: map<nat, Place>, i: nat, kind: nat, nlink: int)
    requires i < |d.inodes| && Accounted(d, owner)
    ensures var d' := SetInode(d, i, kind, nlink);
      && Accounted(d', owner) && FreeBlocks(d') == FreeBlocks(d)
      && (forall j: nat, m: nat :: InFile(d, j, m) ==> Ref(d', j, m) == Ref(d, j, m) && Data(d', j, m) == Data(d, j, m))
  {
    SameRefs(d, SetInode(d, i, kind, nlink), owner);
  }

  lemma SetFrame(d: Disk, owner: map<nat, Place>, i: nat, kind: nat, nlink: int)
    requires i < |d.inodes| && Accounted(d, owner)
    ensures Frame(d, SetInode(d, i, kind, nlink), {}, {}, {})
  {
    InodeSet(d, owner, i, kind, nlink);
    var d' := SetInode(d, i, kind, nlink);
    hide Ref, Data, Accounted;
    forall j: nat | j < |d.inodes|
      ensures RefsKept(d, d', j, {}) && BytesKept(d, d', j)
    {
      assert forall m: nat :: m <= TABLE ==> InFile(d, j, m);
    }
  }

  lemma RelinkedSlot(d: Disk, d': Disk, owner: map<nat, Place>, i: nat, nlink: int, j: nat, s: nat)
    requires i < |d.inodes| && Accounted(d, owner) && d' == SetInode(d, i, d.inodes[i].kind, nlink)
    ensures SlotSame(d, d', j, s)
  {
    InodeSet(d, owner, i, d.inodes[i].kind, nlink);
    if j < |d.inodes| && s < SLOTS {
      assert forall m: nat :: m < TABLE ==> InFile(d, j, m);
      SliceSame(d, d', j, DIRENT * s, DIRENT);
    }
    hide EntBytes;
    SlotKept(d, d', j, s);
  }

  lemma RelinkedFile(d: Disk, d': Disk, owner: map<nat, Place>, i: nat, nlink: int, j: nat)
    requires i < |d.inodes| && Accounted(d, owner) && d' == SetInode(d, i, d.inodes[i].kind, nlink)
    requires j < |d.inodes| && FileOk(d, j)
    ensures FileOk(d', j)
  {
    InodeSet(d, owner, i, d.inodes[i].kind, nlink);
    assert forall m: nat :: m <= TABLE ==> InFile(d, j, m);
    hide Ref, Data, EntBytes;
    forall s: nat
      ensures SlotSame(d, d', j, s)
    {
      RelinkedSlot(d, d', owner, i, nlink, j, s);
    }
    SlotsDirOk(d, d', j);
  }

  lemma SlotsDirOk(d: Disk, d': Disk, j: nat)
    requires SameShape(d, d') && j < |d.inodes| && forall s: nat :: SlotSame(d, d', j, s)
    requires d'.inodes[j].size == d.inodes[j].size && d'.inodes[j].kind == d.inodes[j].kind
    requires forall s: nat :: s < SLOTS ==> EntBytes(d', j, s) == EntBytes(d, j, s)
    ensures DirOk(d, j) ==> DirOk(d', j)
  {
    hide EntBytes;
  }

  /** The directories with another link count. */
  lemma RelinkedView(d: Disk, d': Disk, owner: map<nat, Place>, i: nat, nlink: int)
    requires i < |d.inodes| && Accounted(d, owner) && d' == SetInode(d, i, d.inodes[i].kind, nlink)
    ensures View(d') == View(d).(nlink := View(d).nlink[i := nlink])
    ensures FilesOk(d) ==> FilesOk(d')
  {
    forall j: nat, s: nat
      ensures SlotSame(d, d', j, s)
    {
      RelinkedSlot(d, d', owner, i, nlink, j, s);
    }
    hide SlotSame, Entries, FileOk, Accounted;
    EntriesSame(d, d');
    if FilesOk(d) {
      forall j: nat | j < |d.inodes|
        ensures FileOk(d', j)
      {
        RelinkedFile(d, d', owner, i, nlink, j);
      }
    }
  }

  lemma OtherEnt(d: Disk, d': Disk, j: nat, s: nat)
    requires SameShape(d, d') && j < |d.inodes| && SameFile(d, d', j) && s < SLOTS
    ensures EntBytes(d', j, s) == EntBytes(d, j, s)
  {
    SliceSame(d, d', j, DIRENT * s, DIRENT);
  }

  lemma OtherDir(d: Disk, d': Disk, j: nat)
    requires SameShape(d, d') && j < |d.inodes| && SameFile(d, d', j) && DirOk(d, j)
    ensures DirOk(d', j)
  {
    hide EntBytes, SameFile;
    SameFileInode(d, d', j);
    forall s: nat | IsSlot(d', j, s) && !Live(d', j, s)
      ensures NameOf(EntBytes(d', j, s)) == []
    {
      OtherEnt(d, d', j, s);
      assert IsSlot(d, j, s) && !Live(d, j, s);
    }
  }

  /** A file left alone is as good as it was. */
  lemma OtherFile(d: Disk, d': Disk, j: nat)
    requires SameShape(d, d') && j < |d.inodes| && SameFile(d, d', j) && FileOk(d, j)
    ensures FileOk(d', j)
  {
    hide EntBytes, SameFile, Snug, Full, DirOk;
    SameFileInode(d, d', j);
    SameFileContents(d, d', j);
    if d.inodes[j].kind == T_DIR {
      OtherDir(d, d', j);
    }
  }

  /** A whole entry was written: a live one, or a blank. */
  lemma WroteOk(d: Disk, d': Disk, i: nat, s: nat, b: seq<Byte>)
    requires SlotWritten(d, d', i, s, b) && FilesOk(d) && Overlaid(d, d', i, DIRENT * s, b)
    requires |b| == DIRENT && (InumOf(b) != 0 || NameOf(b) == [])
    ensures FilesOk(d')
  {
    assert FileOk(d, i);
    WroteDir(d, d', i, s, b);
    hide SlotWritten, DirOk, Overlaid, Snug, Full;
    WroteShape(d, d', i, s, b);
    forall j: nat | j < |d.inodes|
      ensures FileOk(d', j)
    {
      if j != i {
        OtherFile(d, d', j);
      }
    }
  }

  lemma WroteShape(d: Disk, d': Disk, i: nat, s: nat, b: seq<Byte>)
    requires SlotWritten(d, d', i, s, b) && Overlaid(d, d', i, DIRENT * s, b)
    ensures OthersKept(d, d', i) && SameShape(d, d') && d'.inodes[i].kind == T_DIR
    ensures (Snug(d, i) ==> Snug(d', i)) && (Full(d, i) ==> Full(d', i))
  {
  }

  lemma WroteDir(d: Disk, d': Disk, i: nat, s: nat, b: seq<Byte>)
    requires SlotWritten(d, d', i, s, b) && DirOk(d, i) && |b| == DIRENT && (InumOf(b) != 0 || NameOf(b) == [])
    ensures DirOk(d', i)
  {
    hide EntBytes, SlotWritten;
    WrittenSize(d, d', i, s, b);
    forall s': nat | IsSlot(d', i, s') && !Live(d', i, s')
      ensures NameOf(EntBytes(d', i, s')) == []
    {
      WrittenBytes(d, d', i, s, b, s');
      assert s' != s ==> IsSlot(d, i, s') && !Live(d, i, s');
    }
  }

  lemma WrittenSize(d: Disk, d': Disk, i: nat, s: nat, b: seq<Byte>)
    requires SlotWritten(d, d', i, s, b)
    ensures SameShape(d, d') && d'.inodes[i].size % DIRENT == 0
    ensures forall s': nat :: s' != s ==> (IsSlot(d', i, s') <==> IsSlot(d, i, s'))
  {
  }

  // Adding an entry

  datatype Room = Free(off: nat) | Taken | Broken

  /** The first n entries are live and have other names. */
  ghost predicate AllLive(d: Disk, dp: nat, name: seq<Byte>, n: nat) {
    forall s: nat :: s < n ==> Live(d, dp, s) && (dp, s) in View(d).ent && View(d).ent[(dp, s)].name != name
  }

  ghost predicate IsRoom(d: Disk, dp: nat, name: seq<Byte>, r: Room)
    requires dp < |d.inodes|
  {
    match r
    case Free(off) =>
      off % DIRENT == 0 && off <= d.inodes[dp].size && AllLive(d, dp, name, off / DIRENT) && !Live(d, dp, off / DIRENT)
    case Taken => !NewName(View(d), dp, name)
    case Broken => true
  }

  lemma LiveStep(d: Disk, dp: nat, name: seq<Byte>, off: nat, b: seq<Byte>)
    requires dp < |d.inodes| && d.inodes[dp].kind == T_DIR && off % DIRENT == 0
    requires off + DIRENT <= d.inodes[dp].size <= MAXFILESIZE
    requires AllLive(d, dp, name, off / DIRENT) && b == EntBytes(d, dp, off / DIRENT)
    ensures InumOf(b) == 0 ==> IsRoom(d, dp, name, Free(off))
    ensures InumOf(b) != 0 && NameOf(b) == name ==> IsRoom(d, dp, name, Taken)
    ensures InumOf(b) != 0 && NameOf(b) != name ==> AllLive(d, dp, name, (off + DIRENT) / DIRENT)
  {
    hide Entries;
    var s := off / DIRENT;
    assert DIRENT * s == off;
    assert IsSlot(d, dp, s);
    EntriesHas(d, dp, s);
    hide EntBytes, Live;
    assert (off + DIRENT) / DIRENT == s + 1;
    if InumOf(b) != 0 && NameOf(b) == name {
      assert (dp, s) in View(d).ent && View(d).ent[(dp, s)].name == name;
    }
  }

  lemma AtEnd(d: Disk, dp: nat, name: seq<Byte>)
    requires dp < |d.inodes| && d.inodes[dp].size % DIRENT == 0
    requires AllLive(d, dp, name, d.inodes[dp].size / DIRENT)
    ensures IsRoom(d, dp, name, Free(d.inodes[dp].size))
  {
    hide AllLive;
  }

  lemma NoneLive(d: Disk, dp: nat, name: seq<Byte>)
    requires dp < |d.inodes|
    ensures AllLive(d, dp, name, 0) && IsRoom(d, dp, name, Broken)
  {
  }

  /** The first loop of `daddent`: an erased entry, or the end. */
  method FindRoom(img: Image, dp: nat, name: seq<Byte>) returns (r: Room)
    requires img.Valid() && FilesOk(img.D()) && dp < |img.inodes| && img.inodes[dp].kind == T_DIR
    modifies img
    ensures img.Valid() && Still(old(img.D()), img.D(), dp) && IsRoom(old(img.D()), dp, name, r)
  {
    hide Accounted, UsedSet, Still, EntBytes, FilesOk, View, IsRoom, AllLive;
    ghost var d := img.D();
    StillSelf(d, dp);
    WholeSlots(d, dp);
    NoneLive(d, dp, name);
    var off, done := 0, false;
    var size := img.inodes[dp].size;
    r := Broken;
    while off < size && !done
      invariant 0 <= off <= size && off % DIRENT == 0 && img.Valid() && Still(d, img.D(), dp)
      invariant !done ==> AllLive(d, dp, name, off / DIRENT)
      invariant done ==> IsRoom(d, dp, name, r)
      decreases size - off, !done
    {
      done, r, off := RoomStep(img, dp, name, off, d);
    }
    if !done {
      AtEnd(d, dp, name);
      r := Free(off);
    }
  }

  method RoomStep(img: Image, dp: nat, name: seq<Byte>, off: nat, ghost d: Disk)
      returns (done: bool, r: Room, off': nat)
    requires img.Valid() && FilesOk(d) && Still(d, img.D(), dp)
    requires dp < |d.inodes| && d.inodes[dp].kind == T_DIR && off % DIRENT == 0
    requires off < d.inodes[dp].size <= MAXFILESIZE && AllLive(d, dp, name, off / DIRENT)
    modifies img
    ensures img.Valid() && Still(d, img.D(), dp)
    ensures !done ==> off' == off + DIRENT <= d.inodes[dp].size && AllLive(d, dp, name, off' / DIRENT)
    ensures done ==> off' == off && IsRoom(d, dp, name, r)
  {
    hide Accounted, UsedSet, Still, EntBytes, FilesOk, View, IsRoom, AllLive;
    ghost var e := img.D();
    WholeSlots(d, dp);
    StillMeta(d, e, dp, dp);
    NoneLive(d, dp, name);
    var ok, b := ReadEnt(img, dp, off);
    StillTrans(d, e, img.D(), dp);
    if !ok {
      return true, Broken, off;
    }
    StillEnt(d, e, dp, dp, off / DIRENT);
    LiveStep(d, dp, name, off, b);
    if InumOf(b) == 0 {
      return true, Free(off), off;
    }
    if NameOf(b) == name {
      return true, Taken, off;
    }
    return false, Broken, off + DIRENT;
  }

  /** Writes an entry, which fails only at the size limit. */
  method PutEnt(img: Image, dp: nat, off: nat, b: seq<Byte>) returns (r: Result)
    requires img.Valid() && FilesOk(img.D()) && dp < |img.inodes| && img.inodes[dp].kind == T_DIR
    requires off % DIRENT == 0 && off <= img.inodes[dp].size && |b| == DIRENT && (InumOf(b) != 0 || NameOf(b) == [])
    modifies img
    ensures img.Valid() && |img.inodes| == |old(img.inodes)|
    ensures off + DIRENT > MAXFILESIZE ==> r == Done(-1) && img.D() == old(img.D())
    ensures off + DIRENT <= MAXFILESIZE ==> r == Fatal || r == Done(DIRENT)
    ensures r == Done(DIRENT) ==> FilesOk(img.D())
    ensures r == Done(DIRENT) ==>
      Frame(old(img.D()), img.D(), {dp}, if off + DIRENT <= old(img.inodes[dp].size) then {} else {dp}, {})
    ensures r == Done(DIRENT) ==> View(img.D()) == View(old(img.D())).(ent :=
      Replaced(View(old(img.D())).ent, (dp, off / DIRENT), Ent(InumOf(b), NameOf(b))))
  {
    hide Accounted, UsedSet, FilesOk, View, FreeBlocks, Need, OthersKept, Patched, Overlaid, InumOf, NameOf, SlotWritten,
      Grew, Next, Present, TookFree, Frame;
    ghost var d := img.D();
    WholeSlots(d, dp);
    ghost var t;
    r, t := img.Iwrite(dp, b, off);
    if r == Done(DIRENT) {
      assert b[..t] == b;
      EntFrame(d, img.D(), dp, off);
      EntWritten(d, img.D(), dp, off, b);
      WrittenView(d, img.D(), dp, off / DIRENT, b);
      WroteOk(d, img.D(), dp, off / DIRENT, b);
    }
  }

  lemma EntFrame(d: Disk, d': Disk, dp: nat, off: nat)
    requires FilesOk(d) && dp < |d.inodes| && OthersKept(d, d', dp) && off + DIRENT <= MAXFILESIZE
    requires Grew(d, d', dp, off / BSIZE, Next(off, DIRENT))
    ensures Frame(d, d', {dp}, if off + DIRENT <= d.inodes[dp].size then {} else {dp}, {})
  {
    assert FileOk(d, dp);
    hide FilesOk, Full, OthersKept, Grew, DirOk, Frame;
    if off + DIRENT <= d.inodes[dp].size {
      WithinFrame(d, d', dp, off / BSIZE, Next(off, DIRENT));
    } else {
      OthersFrame(d, d', dp, off / BSIZE, Next(off, DIRENT));
    }
  }

  lemma EntWritten(d: Disk, d': Disk, dp: nat, off: nat, b: seq<Byte>)
    requires OthersKept(d, d', dp) && dp < |d.inodes| && Patched(d, d', dp, off, b) && Overlaid(d, d', dp, off, b)
    requires Meta(d'.inodes[dp]) == Meta(d.inodes[dp].(size := d'.inodes[dp].size)) && |b| == DIRENT
    requires d.inodes[dp].kind == T_DIR && d.inodes[dp].size % DIRENT == 0 && off % DIRENT == 0
    requires off + DIRENT <= MAXFILESIZE
    ensures SlotWritten(d, d', dp, off / DIRENT, b) && Overlaid(d, d', dp, DIRENT * (off / DIRENT), b)
    ensures off / DIRENT < SLOTS
  {
    assert DIRENT * (off / DIRENT) == off;
    assert |Contents(d', dp)| == |Overlay(Contents(d, dp), off, b)|;
    hide Patched, OthersKept, Contents;
  }

  /** `ip->nlink++` and `--` */
  method SetLinks(img: Image, i: nat, nlink: int)
    requires img.Valid() && i < |img.inodes|
    modifies img`inodes
    ensures img.Valid() && |img.inodes| == |old(img.inodes)|
    ensures img.D() == SetInode(old(img.D()), i, old(img.inodes[i].kind), nlink)
    ensures View(img.D()) == View(old(img.D())).(nlink := View(old(img.D())).nlink[i := nlink])
    ensures FilesOk(old(img.D())) ==> FilesOk(img.D())
    ensures Frame(old(img.D()), img.D(), {}, {}, {})
  {
    hide Accounted, UsedSet, FilesOk, View, Frame;
    ghost var d := img.D();
    SetFrame(d, img.owner, i, img.inodes[i].kind, nlink);
    InodeSet(d, img.owner, i, img.inodes[i].kind, nlink);
    RelinkedView(d, SetInode(d, i, img.inodes[i].kind, nlink), img.owner, i, nlink);
    img.inodes := img.inodes[i := img.inodes[i].(nlink := nlink)];
    assert img.D() == SetInode(d, i, d.inodes[i].kind, nlink);
  }

  /** Entry k is the first one free. */
  ghost predicate FirstFree(T: Tree, dp: nat, name: seq<Byte>, s: nat) {
    (dp, s) !in T.ent && forall s': nat :: s' < s ==> (dp, s') in T.ent && T.ent[(dp, s')].name != name
  }

  lemma RoomIsFirst(d: Disk, dp: nat, name: seq<Byte>, off: nat)
    requires dp < |d.inodes| && IsRoom(d, dp, name, Free(off))
    ensures FirstFree(View(d), dp, name, off / DIRENT)
    ensures off % DIRENT == 0 && off <= d.inodes[dp].size && DIRENT * (off / DIRENT) == off
  {
    hide Entries, Live;
    EntriesHas(d, dp, off / DIRENT);
  }

  lemma FewInodes(d: Disk)
    requires FilesOk(d)
    ensures ROOTINO < |d.inodes| <= 0x1_0000
  {
  }

  lemma TakenName(d: Disk, dp: nat, name: seq<Byte>)
    requires dp < |d.inodes| && IsRoom(d, dp, name, Taken)
    ensures !NewName(View(d), dp, name)
  {
  }

  lemma LastSlot(off: nat)
    requires off % DIRENT == 0 && off <= MAXFILESIZE && off + DIRENT > MAXFILESIZE
    ensures off / DIRENT == SLOTS
  {
  }

  /** The second half of `daddent`. */
  method PutNamed(img: Image, dp: nat, off: nat, ip: nat, name: seq<Byte>, ghost d: Disk) returns (r: Result)
    requires img.Valid() && FilesOk(img.D()) && dp < |img.inodes| <= 0x1_0000 && img.inodes[dp].kind == T_DIR
    requires GoodName(name) && 0 < ip < |img.inodes| && off % DIRENT == 0 && off <= img.inodes[dp].size
    requires View(img.D()) == View(d) && |d.inodes| == |img.inodes|
    modifies img
    ensures img.Valid() && |img.inodes| == |old(img.inodes)| && (r == Fatal || r == Done(-1) || r == Done(0))
    ensures r != Fatal ==> FilesOk(img.D())
    ensures r == Done(0) ==> off + DIRENT <= MAXFILESIZE
    ensures r == Done(0) ==> View(img.D()) == Enter(View(d), (dp, off / DIRENT), Ent(ip, name))
    ensures r == Done(-1) ==> View(img.D()) == View(d) && off + DIRENT > MAXFILESIZE && img.D() == old(img.D())
    ensures r == Done(0) ==> Frame(old(img.D()), img.D(), {dp}, {dp}, {})
  {
    hide Accounted, UsedSet, FilesOk, GoodName, InumOf, NameOf, Entries, Frame;
    ghost var e := img.D();
    DirentRead(ip, name);
    r := PutEnt(img, dp, off, Dirent(ip, name));
    if r == Done(DIRENT) {
      FrameGrows(e, img.D(), dp);
      if name != DOT {
        ghost var e' := img.D();
        SetLinks(img, ip, img.inodes[ip].nlink + 1);
        FrameAfter(e, e', img.D(), {dp}, {dp}, {}, {});
      }
      r := Done(0);
    }
  }

  lemma FrameGrows(d: Disk, d': Disk, dp: nat)
    requires Frame(d, d', {dp}, {}, {}) || Frame(d, d', {dp}, {dp}, {})
    ensures Frame(d, d', {dp}, {dp}, {})
  {
    if Frame(d, d', {dp}, {}, {}) {
      FrameWider(d, d', {dp}, {}, {dp}, {dp}, {});
    }
  }

  /** A step after another that does no more. */
  lemma FrameAfter(d: Disk, e: Disk, d': Disk, W: set<nat>, G: set<nat>, W': set<nat>, G': set<nat>)
    requires Frame(d, e, W, G, {}) && Frame(e, d', W', G', {}) && W' <= W && G' <= G
    ensures Frame(d, d', W, G, {})
  {
    FrameTrans(d, e, d', W, G, W', G', {});
    assert W + W' == W && G + G' == G;
  }

  /** A step after looking around. */
  lemma FrameNext(d: Disk, e: Disk, d': Disk, W: set<nat>, G: set<nat>, F: set<nat>)
    requires Frame(d, e, {}, {}, {}) && Frame(e, d', W, G, F)
    ensures Frame(d, d', W, G, F)
  {
    FrameTrans(d, e, d', {}, {}, W, G, F);
    assert {} + W == W && {} + G == G;
  }

  lemma FrameLast(d: Disk, e: Disk, d': Disk, W: set<nat>, G: set<nat>, F: set<nat>)
    requires Frame(d, e, W, G, {}) && Frame(e, d', {}, {}, F)
    ensures Frame(d, d', W, G, F)
  {
    FrameTrans(d, e, d', W, G, {}, {}, F);
    assert W + {} == W && G + {} == G;
  }

  /** `daddent`: the name goes to the first free entry and counts as a link, unless it is "."; -1 if the name was met
      before a free entry, or if the directory cannot grow. */
  method Daddent(img: Image, dp: nat, name: seq<Byte>, ip: nat) returns (r: Result, ghost s: nat)
    requires img.Valid() && FilesOk(img.D()) && dp < |img.inodes| && img.inodes[dp].kind == T_DIR
    requires GoodName(name) && 0 < ip < |img.inodes|
    modifies img
    ensures img.Valid() && |img.inodes| == |old(img.inodes)| && (r == Fatal || r == Done(-1) || r == Done(0))
    ensures r != Fatal ==> FilesOk(img.D()) && (s < SLOTS ==> FirstFree(View(old(img.D())), dp, name, s))
    ensures r == Done(0) ==> s < SLOTS && View(img.D()) == Enter(View(old(img.D())), (dp, s), Ent(ip, name))
    ensures r == Done(-1) ==> View(img.D()) == View(old(img.D())) && Frame(old(img.D()), img.D(), {}, {}, {})
    ensures r == Done(-1) ==> !NewName(View(old(img.D())), dp, name) || FirstFree(View(old(img.D())), dp, name, SLOTS)
    ensures r == Done(0) ==> Frame(old(img.D()), img.D(), {dp}, {dp}, {})
  {
    hide Accounted, UsedSet, FilesOk, View, GoodName, Still, IsRoom, NewName, FirstFree, InumOf, NameOf, Frame;
    ghost var d := img.D();
    FewInodes(d);
    WholeSlots(d, dp);
    s := SLOTS;
    var room := FindRoom(img, dp, name);
    StillOk(d, img.D(), dp);
    StillMeta(d, img.D(), dp, dp);
    if room == Broken {
      return Fatal, s;
    } else if room == Taken {
      TakenName(d, dp, name);
      return Done(-1), s;
    }
    RoomIsFirst(d, dp, name, room.off);
    s := room.off / DIRENT;
    ghost var e := img.D();
    r := PutNamed(img, dp, room.off, ip, name, d);
    if r == Done(-1) {
      LastSlot(room.off);
    } else if r == Done(0) {
      FrameWider(d, e, {}, {}, {dp}, {dp}, {});
      FrameAfter(d, e, img.D(), {dp}, {dp}, {dp}, {dp});
    }
  }

  // Creating

  lemma NewInodeSlot(d: Disk, d': Disk, owner: map<nat, Place>, i: nat, kind: nat, j: nat, s: nat)
    requires 0 < i < |d.inodes| && Accounted(d, owner) && FileOk(d, i) && d.inodes[i].kind == 0
    requires d' == d.(inodes := d.inodes[i := Dinode(kind, 0, 0, 0, 0, NoAddresses())])
    ensures Accounted(d', owner) && SlotSame(d, d', j, s)
    ensures j < |d.inodes| && FileOk(d, j) ==> FileOk(d', j)
  {
    hide EntBytes, Accounted, SlotSame;
    EmptyInode(d, d', owner, i);
    if j != i && j < |d.inodes| {
      EmptyOthers(d, d', i, kind);
      SlotOfOther(d, d', j, s);
      if FileOk(d, j) {
        OtherFile(d, d', j);
      }
    } else if j == i {
      EmptySlot(d, d', i, s);
      EmptyOk(d', i);
    } else {
      SlotKept(d, d', j, s);
    }
  }

  lemma EmptyOthers(d: Disk, d': Disk, i: nat, kind: nat)
    requires i < |d.inodes| && Snug(d, i) && d.inodes[i].size == 0
    requires d' == d.(inodes := d.inodes[i := Dinode(kind, 0, 0, 0, 0, NoAddresses())])
    ensures OthersKept(d, d', i)
  {
  }

  lemma EmptySlot(d: Disk, d': Disk, i: nat, s: nat)
    requires i < |d.inodes| && i < |d'.inodes| && d.inodes[i].size == 0 && d'.inodes[i].size == 0
    ensures SlotSame(d, d', i, s)
  {
    hide EntBytes;
  }

  lemma EmptyOk(d: Disk, i: nat)
    requires i < |d.inodes| && d.inodes[i].size == 0 && d.inodes[i].addrs == NoAddresses()
    ensures FileOk(d, i)
  {
    hide EntBytes;
  }

  lemma NewInodeView(d: Disk, d': Disk, owner: map<nat, Place>, i: nat, kind: nat)
    requires 0 < i < |d.inodes| && Accounted(d, owner) && FilesOk(d) && d.inodes[i].kind == 0
    requires d' == d.(inodes := d.inodes[i := Dinode(kind, 0, 0, 0, 0, NoAddresses())])
    ensures Accounted(d', owner) && FilesOk(d') && View(d') == AddNode(View(d), i, kind)
  {
    hide Accounted, FileOk, SlotSame, Entries;
    forall j: nat, s: nat
      ensures Accounted(d', owner) && SlotSame(d, d', j, s)
    {
      NewInodeSlot(d, d', owner, i, kind, j, s);
    }
    assert SlotSame(d, d', 0, 0);
    forall j: nat | j < |d.inodes|
      ensures FileOk(d', j)
    {
      NewInodeSlot(d, d', owner, i, kind, j, 0);
    }
    EntriesSame(d, d');
  }

  lemma NewFrame(d: Disk, d': Disk, i: nat, kind: nat)
    requires FilesOk(d) && i < |d.inodes| && d.inodes[i].kind == 0
    requires d' == d.(inodes := d.inodes[i := Dinode(kind, 0, 0, 0, 0, NoAddresses())])
    ensures Frame(d, d', {i}, {i}, {})
  {
    assert FileOk(d, i);
    EmptyOthers(d, d', i, kind);
    assert Grew(d, d', i, 0, 0);
    hide FilesOk, OthersKept, Grew, Frame;
    OthersFrame(d, d', i, 0, 0);
  }

  /** `ialloc` in an image whose unused inodes are empty. */
  method NewInode(img: Image, kind: nat) returns (ip: int)
    requires img.Valid() && FilesOk(img.D()) && kind != 0
    modifies img`inodes
    ensures img.Valid() && |img.inodes| == |old(img.inodes)| && ip < |img.inodes| && ip != 0
    ensures ip > 0 ==> View(old(img.D())).kind[ip] == 0 && View(img.D()) == AddNode(View(old(img.D())), ip, kind)
    ensures ip > 0 ==> FilesOk(img.D()) && Frame(old(img.D()), img.D(), {ip}, {ip}, {}) && img.inodes[ip].size == 0
    ensures ip < 0 ==> img.inodes == old(img.inodes)
    ensures ip < 0 ==> forall j: nat :: 0 < j < |img.inodes| ==> img.inodes[j].kind != 0
  {
    ghost var d := img.D();
    hide Accounted, UsedSet, Entries, FilesOk, Frame;
    ip := img.Ialloc(kind);
    if ip > 0 {
      NewFrame(d, img.D(), ip, kind);
      NewInodeView(d, img.D(), img.owner, ip, kind);
    }
  }

  /** Inode 0 is no directory. */
  lemma DirNotZero(T: Tree)
    requires TreeOk(T)
    ensures !IsDir(T, 0)
  {
    TreeLinks(T);
    hide LinksOk;
    forall k: Slot | k in T.ent
      ensures T.ent[k].inum != 0
    {
      EntFacts(T, k);
    }
    assert !HasPlace(T, 0);
  }

  /** A new inode of that kind, in use as entry s of the directory, or without an entry if there was no room. */
  ghost predicate IsMade(T: Tree, T': Tree, ip: int, rp: nat, s: nat, name: seq<Byte>, kind: nat) {
    && 0 < ip < |T.kind| == |T.nlink| && IsDir(T, rp) && T.kind[ip] == 0
    && FirstFree(T, rp, name, s) && s <= SLOTS
    && T' == Created(T, ip, kind, (rp, s), name, s < SLOTS)
  }

  /** With it link counts are right; the directories are a tree unless a directory was made where there was no room. */
  ghost predicate IsCreated(T: Tree, T': Tree, ip: int, rp: nat, s: nat, name: seq<Byte>, kind: nat) {
    IsMade(T, T', ip, rp, s, name, kind) && LinksOk(T') && (TreeOk(T') <==> s < SLOTS || kind != T_DIR)
  }

  lemma CreatedOk(T: Tree, T': Tree, ip: int, rp: nat, s: nat, name: seq<Byte>, kind: nat)
    requires TreeOk(T) && IsMade(T, T', ip, rp, s, name, kind) && kind != 0
    requires NewName(T, rp, name) && GoodName(name)
    ensures IsCreated(T, T', ip, rp, s, name, kind)
  {
    hide TreeOk, LinksOk, Created;
    DirNotZero(T);
    TreeLinks(T);
    CreatedLinks(T, ip, kind, (rp, s), name, s < SLOTS);
    CreatedTree(T, ip, kind, (rp, s), name, s < SLOTS);
  }

  lemma FoundName(d: Disk, dp: nat, name: seq<Byte>, inum: nat, off: nat)
    requires LooksUp(d, dp, name, Found(inum, off))
    ensures !NewName(View(d), dp, name)
  {
    hide View;
  }

  lemma MissingName(d: Disk, dp: nat, name: seq<Byte>)
    requires LooksUp(d, dp, name, Missing)
    ensures NewName(View(d), dp, name)
  {
  }

  /** Looking for a name in a tree of directories. */
  method FindName(img: Image, dp: nat, name: seq<Byte>) returns (r: Lookup)
    requires img.Valid() && FilesOk(img.D()) && TreeOk(View(img.D())) && GoodName(name)
    requires dp < |img.inodes| && img.inodes[dp].kind == T_DIR
    modifies img
    ensures img.Valid() && FilesOk(img.D()) && View(img.D()) == View(old(img.D()))
    ensures Frame(old(img.D()), img.D(), {}, {}, {})
    ensures |img.inodes| == |old(img.inodes)| && LooksUp(old(img.D()), dp, name, r)
    ensures img.inodes[dp].kind == T_DIR && img.inodes[dp].size == old(img.inodes[dp].size)
    ensures r != Aborted ==> (r == Missing <==> NewName(View(img.D()), dp, name))
  {
    hide Accounted, UsedSet, View, FilesOk, GoodName, Still, LooksUp, TreeOk, NewName, EntsOk, Frame;
    ghost var d := img.D();
    TreeEnts(View(d));
    r := Dlookup(img, dp, name);
    StillOk(d, img.D(), dp);
    StillMeta(d, img.D(), dp, dp);
    match r {
      case Found(inum, off) => FoundName(d, dp, name, inum, off);
      case Missing => MissingName(d, dp, name);
      case Aborted =>
    }
  }

  lemma TreeEnts(T: Tree)
    requires TreeOk(T)
    ensures EntsOk(T) && LinksOk(T) && |T.nlink| == |T.kind|
  {
  }

  lemma ViewKinds(d: Disk, i: nat)
    requires i < |d.inodes|
    ensures |View(d).kind| == |View(d).nlink| == |d.inodes|
    ensures View(d).kind[i] == d.inodes[i].kind && View(d).nlink[i] == d.inodes[i].nlink
    ensures IsDir(View(d), i) <==> d.inodes[i].kind == T_DIR
  {
    hide Entries;
  }

  function WithDots(T: Tree, ip: nat, rp: nat): Tree
    requires ip < |T.nlink| && rp < |T.nlink|
  {
    Enter(Enter(T, (ip, 0), Ent(ip, DOT)), (ip, 1), Ent(rp, DOTDOT))
  }

  /** The first two entries of a new directory. */
  method AddDots(img: Image, ip: nat, rp: nat) returns (ok: bool)
    requires img.Valid() && FilesOk(img.D()) && 0 < ip < |img.inodes| && img.inodes[ip].kind == T_DIR
    requires 0 < rp < |img.inodes| && forall l: Slot :: l in View(img.D()).ent ==> l.0 != ip
    modifies img
    ensures img.Valid() && |img.inodes| == |old(img.inodes)| && |View(old(img.D())).nlink| == |img.inodes|
    ensures ok ==> FilesOk(img.D()) && View(img.D()) == WithDots(View(old(img.D())), ip, rp)
    ensures ok ==> Frame(old(img.D()), img.D(), {ip}, {ip}, {})
  {
    hide Accounted, UsedSet, View, FilesOk, FirstFree, NewName, Frame;
    ghost var d, T := img.D(), View(img.D());
    ViewKinds(img.D(), ip);
    var r, s := Daddent(img, ip, DOT, ip);
    FirstDot(T, ip, s);
    FirstDot(T, ip, SLOTS);
    if r == Fatal {
      return false;
    }
    ghost var e, T1 := img.D(), View(img.D());
    ViewKinds(img.D(), ip);
    r, s := Daddent(img, ip, DOTDOT, rp);
    SecondDot(T, T1, ip, s);
    SecondDot(T, T1, ip, SLOTS);
    ok := r != Fatal;
    if ok {
      FrameAfter(d, e, img.D(), {ip}, {ip}, {ip}, {ip});
    }
  }

  lemma FirstDot(T: Tree, ip: nat, s: nat)
    requires forall l: Slot :: l in T.ent ==> l.0 != ip
    ensures FirstFree(T, ip, DOT, s) ==> s == 0
    ensures NewName(T, ip, DOT)
  {
    var p := (ip, 0);
    assert p !in T.ent;
  }

  lemma SecondDot(T: Tree, T': Tree, ip: nat, s: nat)
    requires forall l: Slot :: l in T.ent ==> l.0 != ip
    requires ip < |T.nlink| && T' == Enter(T, (ip, 0), Ent(ip, DOT))
    ensures FirstFree(T', ip, DOTDOT, s) ==> s == 1
    ensures NewName(T', ip, DOTDOT)
  {
    var p, q := (ip, 0), (ip, 1);
    assert p in T'.ent && q !in T'.ent;
    assert |DOT| == 1 && |DOTDOT| == 2;
  }

  /** Only the new inode and the directory it is in changed, and new blocks are theirs, or fill holes of the root
      directory; a new file that is no directory is empty. */
  ghost predicate NewFile(d: Disk, d': Disk, ip: int, rp: nat, kind: nat) {
    && 0 < ip < |d'.inodes| && Frame(d, d', {ip, rp}, {ip, rp}, {}) && UsedFrame(d, d', {ip, rp}, {})
    && (kind != T_DIR ==> d'.inodes[ip].size == 0)
  }

  /** `icreat` of the last component of a path, rp being the directory it is to be in. */
  method CreateIn(img: Image, rp: nat, name: seq<Byte>, kind: nat) returns (r: Result, ghost s: nat)
    requires img.Valid() && FilesOk(img.D()) && TreeOk(View(img.D())) && rp < |img.inodes|
    requires img.inodes[rp].kind == T_DIR && GoodName(name) && kind != 0
    modifies img
    ensures img.Valid() && |img.inodes| == |old(img.inodes)|
    ensures r != Fatal ==> FilesOk(img.D()) && (r == Done(-1) <==> !NewName(View(old(img.D())), rp, name))
    ensures r == Done(-1) ==> View(img.D()) == View(old(img.D())) && Frame(old(img.D()), img.D(), {}, {}, {})
    ensures r != Fatal && r != Done(-1) ==> IsCreated(View(old(img.D())), View(img.D()), r.value, rp, s, name, kind)
    ensures r != Fatal && r != Done(-1) ==> NewFile(old(img.D()), img.D(), r.value, rp, kind)
  {
    hide Accounted, UsedSet, View, FilesOk, GoodName, TreeOk, NewName, FirstFree, IsCreated, IsMade, LooksUp, Created,
      EntsOk, Frame, UsedFrame;
    ghost var d, o, T := img.D(), img.owner, View(img.D());
    ViewKinds(img.D(), rp);
    DirNotZero(T);
    TreeEnts(T);
    var found := FindName(img, rp, name);
    s := 0;
    if found == Aborted {
      return Fatal, 0;
    } else if found != Missing {
      return Done(-1), 0;
    }
    ghost var e := img.D();
    r, s := MakeIn(img, rp, name, kind, T);
    if r != Fatal {
      FrameNext(d, e, img.D(), {r.value, rp}, {r.value, rp}, {});
      FrameUsed(d, o, img.D(), img.owner, {r.value, rp}, {r.value, rp}, {});
      CreatedOk(T, View(img.D()), r.value, rp, s, name, kind);
    }
  }

  /** The allocating part of `icreat`; what `daddent` returns for the name is ignored there. */
  method MakeIn(img: Image, rp: nat, name: seq<Byte>, kind: nat, ghost T: Tree) returns (r: Result, ghost s: nat)
    requires img.Valid() && FilesOk(img.D()) && View(img.D()) == T && EntsOk(T) && 0 < rp < |img.inodes|
    requires img.inodes[rp].kind == T_DIR && GoodName(name) && kind != 0 && NewName(T, rp, name)
    modifies img
    ensures img.Valid() && |img.inodes| == |old(img.inodes)|
    ensures r != Fatal ==> r.value > 0 && FilesOk(img.D()) && IsMade(T, View(img.D()), r.value, rp, s, name, kind)
    ensures r != Fatal ==> Frame(old(img.D()), img.D(), {r.value, rp}, {r.value, rp}, {})
    ensures r != Fatal ==> r.value < |img.inodes| && (kind != T_DIR ==> img.inodes[r.value].size == 0)
  {
    hide Accounted, UsedSet, View, FilesOk, GoodName, EntsOk, NewName, FirstFree, Frame;
    ghost var d := img.D();
    ViewKinds(img.D(), rp);
    s := 0;
    var ip := NewInode(img, kind);
    if ip < 0 {
      return Fatal, 0;
    }
    ghost var T0 := View(img.D());
    NoEntries(T, ip);
    ViewKinds(img.D(), rp);
    ViewKinds(img.D(), ip);
    SameNames(T, T0, rp, name);
    ghost var e := img.D();
    r, s := Daddent(img, rp, name, ip);
    if r == Fatal {
      return Fatal, 0;
    }
    NamedFrame(d, e, img.D(), ip, rp, r == Done(0));
    e := img.D();
    if r == Done(-1) {
      s := SLOTS;
    }
    ghost var T1 := View(img.D());
    ViewKinds(img.D(), ip);
    if kind == T_DIR {
      var ok := AddDots(img, ip, rp);
      if !ok {
        return Fatal, 0;
      }
      FrameAfter(d, e, img.D(), {ip, rp}, {ip, rp}, {ip}, {ip});
    }
    r := Done(ip);
  }

  lemma NamedFrame(d: Disk, e: Disk, d': Disk, ip: nat, rp: nat, put: bool)
    requires Frame(d, e, {ip}, {ip}, {}) && ip != rp && ip < |e.inodes|
    requires if put then Frame(e, d', {rp}, {rp}, {}) else Frame(e, d', {}, {}, {})
    ensures Frame(d, d', {ip, rp}, {ip, rp}, {}) && ip < |d'.inodes| && d'.inodes[ip].size == e.inodes[ip].size
  {
    assert BytesKept(e, d', ip);
    hide Frame, BytesKept, RefsKept;
    if !put {
      FrameWider(e, d', {}, {}, {rp}, {rp}, {});
    }
    FrameTrans(d, e, d', {ip}, {ip}, {rp}, {rp}, {});
    assert {ip} + {rp} == {ip, rp};
  }

  lemma SameNames(T: Tree, T': Tree, dp: nat, name: seq<Byte>)
    requires T'.ent == T.ent
    ensures NewName(T', dp, name) <==> NewName(T, dp, name)
    ensures forall s: nat {:trigger FirstFree(T', dp, name, s)} ::
      FirstFree(T', dp, name, s) <==> FirstFree(T, dp, name, s)
  {
  }

  // Unlinking

  /** An inode out of use has no entries; nobody else's change. */
  lemma FreedView(d: Disk, d': Disk, c: nat)
    requires c < |d.inodes| && OthersKept(d, d', c) && d'.inodes[c].kind == 0
    requires d'.inodes[c].nlink == d.inodes[c].nlink
    ensures View(d') == Freed(View(d), c)
  {
    hide Entries, OthersKept;
    SameCount(d, d', c);
    FreedEntries(d, d', c);
    forall j: nat | j < |d.inodes| && j != c
      ensures Meta(d'.inodes[j]) == Meta(d.inodes[j])
    {
      OtherMeta(d, d', c, j);
    }
  }

  lemma OtherMeta(d: Disk, d': Disk, c: nat, j: nat)
    requires OthersKept(d, d', c) && j < |d.inodes| && j != c
    ensures SameShape(d, d') && SameFile(d, d', j) && Meta(d'.inodes[j]) == Meta(d.inodes[j])
  {
  }

  lemma FreedEntries(d: Disk, d': Disk, c: nat)
    requires c < |d.inodes| && OthersKept(d, d', c) && d'.inodes[c].kind == 0
    ensures Entries(d') == map l | l in Entries(d) && l.0 != c :: Entries(d)[l]
  {
    hide Entries, OthersKept;
    forall k: Slot
      ensures k in Entries(d') <==> k in Entries(d) && k.0 != c
      ensures k in Entries(d') ==> Entries(d')[k] == Entries(d)[k]
    {
      FreedEntry(d, d', c, k);
    }
    IsFiltered(Entries(d), Entries(d'), c);
  }

  lemma IsFiltered(E: map<Slot, Ent>, E': map<Slot, Ent>, c: nat)
    requires forall k: Slot :: k in E' <==> k in E && k.0 != c
    requires forall k: Slot :: k in E' ==> E'[k] == E[k]
    ensures E' == map l | l in E && l.0 != c :: E[l]
  {
  }

  lemma FreedEntry(d: Disk, d': Disk, c: nat, k: Slot)
    requires c < |d.inodes| && OthersKept(d, d', c) && d'.inodes[c].kind == 0
    ensures k in Entries(d') <==> k in Entries(d) && k.0 != c
    ensures k in Entries(d') ==> Entries(d')[k] == Entries(d)[k]
  {
    hide Entries, EntBytes, OthersKept;
    assert k == (k.0, k.1);
    EntriesHas(d, k.0, k.1);
    EntriesHas(d', k.0, k.1);
    SameCount(d, d', c);
    if k.0 < |d.inodes| && k.0 != c {
      OtherMeta(d, d', c, k.0);
      SlotOfOther(d, d', k.0, k.1);
    }
  }

  lemma SameCount(d: Disk, d': Disk, c: nat)
    requires OthersKept(d, d', c)
    ensures |d'.inodes| == |d.inodes|
  {
  }

  /** `itruncate` to nothing unless it is a device, and `ifree` */
  method FreeInode(img: Image, c: nat)
    requires img.Valid() && FilesOk(img.D()) && 0 < c < |img.inodes| && c != ROOTINO
    modifies img
    ensures img.Valid() && |img.inodes| == |old(img.inodes)|
    ensures FilesOk(img.D()) && View(img.D()) == Freed(View(old(img.D())), c)
    ensures Frame(old(img.D()), img.D(), {}, {}, {c})
  {
    hide Accounted, UsedSet, View, FilesOk, OthersKept, Snug, Full, DirOk, Truncated, Frame;
    ghost var d := img.D();
    Cuttable(d, c);
    FreeNothing(d, c);
    OthersSame(d, c);
    if img.inodes[c].kind != T_DEV {
      var r := img.Itruncate(c, 0);
      CutDown(d, img.D(), c);
    }
    ghost var e := img.D();
    var r := img.Ifree(c);
    FreedDisk(d, e, img.D(), c);
    KindOnly(d, e, img.D(), c);
    BareFrame(d, img.D(), c);
  }

  /** What `itruncate` asks for holds for files without holes. */
  lemma Cuttable(d: Disk, c: nat)
    requires FilesOk(d) && c < |d.inodes| && c != ROOTINO
    ensures d.inodes[c].size <= MAXFILESIZE && (Ceil(d.inodes[c].size) > NDIRECT ==> Ref(d, c, TABLE) != 0)
    ensures !Loses(d, c, 0) && (d.inodes[c].kind == T_DEV ==> d.inodes[c].size == 0) && Snug(d, c) && Full(d, c)
  {
    assert FileOk(d, c);
    assert Ceil(d.inodes[c].size) > NDIRECT ==> Ref(d, c, NDIRECT) != 0;
  }

  lemma FreeNothing(d: Disk, c: nat)
    requires c < |d.inodes|
    ensures Need(d, c, 0 / BSIZE, Next(0, 0)) == 0
  {
  }

  lemma OthersSame(d: Disk, c: nat)
    ensures OthersKept(d, d, c)
  {
  }

  lemma CutDown(d: Disk, d': Disk, c: nat)
    requires Truncated(d, d', c, 0)
    ensures OthersKept(d, d', c) && SameShape(d, d') && Meta(d'.inodes[c]) == Meta(d.inodes[c].(size := 0))
    ensures (Snug(d, c) ==> Snug(d', c)) && (Full(d, c) ==> Full(d', c))
  {
    hide OthersKept, Snug, Full;
    OthersShape(d, d', c);
  }

  lemma OthersShape(d: Disk, d': Disk, c: nat)
    requires OthersKept(d, d', c)
    ensures SameShape(d, d')
  {
  }

  lemma FreedDisk(d: Disk, e: Disk, d': Disk, c: nat)
    requires FilesOk(d) && c < |d.inodes| && c != ROOTINO && OthersKept(d, e, c) && Snug(e, c) && Full(e, c)
    requires e.inodes[c].size == 0 && e.inodes[c].nlink == d.inodes[c].nlink
    requires d' == e.(inodes := e.inodes[c := e.inodes[c].(kind := 0)])
    ensures FilesOk(d') && View(d') == Freed(View(d), c)
  {
    KindOnly(d, e, d', c);
    hide View, OthersKept, Snug, Full;
    FreedView(d, d', c);
    SameCount(d, d', c);
    forall j: nat | j < |d'.inodes|
      ensures FileOk(d', j)
    {
      if j != c {
        OtherMeta(d, d', c, j);
        OtherFile(d, d', j);
      }
    }
  }

  lemma KindOnly(d: Disk, e: Disk, d': Disk, c: nat)
    requires c < |d.inodes| && OthersKept(d, e, c) && d' == e.(inodes := e.inodes[c := e.inodes[c].(kind := 0)])
    ensures OthersKept(d, d', c) && (Snug(e, c) ==> Snug(d', c)) && (Full(e, c) ==> Full(d', c))
  {
    forall j: nat, m: nat | InFile(e, j, m)
      ensures Ref(d', j, m) == Ref(e, j, m) && Data(d', j, m) == Data(e, j, m)
    {
    }
    hide Ref, Data;
    forall j: nat | j < |d.inodes| && j != c
      ensures SameFile(d, d', j)
    {
      assert SameFile(d, e, j);
      assert forall m: nat :: m <= TABLE ==> InFile(e, j, m);
    }
    assert forall m: nat :: m <= TABLE ==> InFile(e, c, m);
  }

  /** Entry k has that name and is one a user made. */
  ghost predicate Names(T: Tree, k: Slot, name: seq<Byte>, c: nat) {
    Normal(T, k) && T.ent[k] == Ent(c, name) && EntOk(T, k) && |T.nlink| == |T.kind|
  }

  lemma FoundNormal(T: Tree, k: Slot, name: seq<Byte>, c: nat)
    requires TreeOk(T) && k in T.ent && T.ent[k] == Ent(c, name) && name != DOT && name != DOTDOT
    ensures Names(T, k, name, c) && IsDir(T, k.0) && c < |T.kind| && c != k.0 && c != ROOTINO && 0 < c
  {
    hide TreeOk, LinksOk, EntsOk, CountsOk;
    TreeLinks(T);
    TreeEnts(T);
    EntFacts(T, k);
    if IsDir(T, c) {
      NormalDir(T, k);
    }
  }

  lemma NormalDir(T: Tree, k: Slot)
    requires TreeOk(T) && Normal(T, k) && IsDir(T, T.ent[k].inum)
    ensures T.ent[k].inum != ROOTINO && T.ent[k].inum != k.0
  {
    hide LinksOk;
    assert ParentOk(T, k);
  }

  lemma FoundEntry(d: Disk, dp: nat, name: seq<Byte>, inum: nat, off: nat)
    requires LooksUp(d, dp, name, Found(inum, off))
    ensures off % DIRENT == 0 && (dp, off / DIRENT) in View(d).ent
    ensures View(d).ent[(dp, off / DIRENT)] == Ent(inum, name)
    ensures dp < |d.inodes| && off + DIRENT <= d.inodes[dp].size <= MAXFILESIZE
  {
    hide View;
  }

  lemma ZeroEntry()
    ensures InumOf(Nulls(DIRENT)) == 0 && NameOf(Nulls(DIRENT)) == []
  {
  }

  /** The entry is overwritten with zeros. */
  method EraseEnt(img: Image, rp: nat, off: nat) returns (ok: bool)
    requires img.Valid() && FilesOk(img.D()) && rp < |img.inodes| && img.inodes[rp].kind == T_DIR
    requires off % DIRENT == 0 && off + DIRENT <= img.inodes[rp].size <= MAXFILESIZE
    modifies img
    ensures img.Valid() && |img.inodes| == |old(img.inodes)|
    ensures ok ==> FilesOk(img.D()) && View(img.D()) == Erase(View(old(img.D())), (rp, off / DIRENT))
    ensures ok ==> Frame(old(img.D()), img.D(), {rp}, {}, {})
  {
    hide Accounted, UsedSet, FilesOk, Entries, InumOf, NameOf, Frame;
    ZeroEntry();
    var r := PutEnt(img, rp, off, Nulls(DIRENT));
    ok := r != Fatal;
  }

  /** The links that go with entry k: that of its inode, and that of a child directory to its parent. */
  ghost function LinkLess(T: Tree, k: Slot, c: nat): Tree
    requires k.0 < |T.nlink| && c < |T.nlink|
  {
    var T1 := Erase(T, k);
    Less(if IsDir(T, c) && (c, 1) in T.ent && T.ent[(c, 1)].inum == k.0 then Less(T1, k.0) else T1, c)
  }

  /** `if (ip->type == T_DIR && dlookup(img, ip, "..", NULL) == rp) rp->nlink--; ip->nlink--;` */
  method DropLinks(img: Image, rp: nat, c: nat, ghost T: Tree, ghost k: Slot) returns (ok: bool)
    requires img.Valid() && FilesOk(img.D()) && View(img.D()) == Erase(T, k) && rp < |img.inodes| && c < |img.inodes|
    requires EntsOk(Erase(T, k)) && k.0 == rp && |T.nlink| == |T.kind|
    requires forall r: Lookup :: IsDir(T, c) && LooksUp(img.D(), c, DOTDOT, r) && r != Aborted ==>
      r.Found? && (c, 1) in T.ent && r.inum == T.ent[(c, 1)].inum
    modifies img
    ensures img.Valid() && |img.inodes| == |old(img.inodes)| && |T.nlink| == |img.inodes|
    ensures ok ==> FilesOk(img.D()) && View(img.D()) == LinkLess(T, k, c)
    ensures ok ==> Frame(old(img.D()), img.D(), {}, {}, {})
  {
    hide Accounted, UsedSet, FilesOk, View, EntsOk, LooksUp, Frame;
    ghost var d := img.D();
    FrameSelf(d, {}, {});
    ViewKinds(d, c);
    ViewKinds(d, rp);
    if img.inodes[c].kind == T_DIR {
      var l := Dlookup(img, c, DOTDOT);
      if l == Aborted {
        return false;
      }
      StillOk(d, img.D(), c);
      StillMeta(d, img.D(), c, rp);
      ViewKinds(img.D(), rp);
      if l.Found? && l.inum == rp {
        ghost var e := img.D();
        SetLinks(img, rp, img.inodes[rp].nlink - 1);
        FrameAfter(d, e, img.D(), {}, {}, {}, {});
      }
    }
    ViewKinds(img.D(), c);
    ghost var e := img.D();
    SetLinks(img, c, img.inodes[c].nlink - 1);
    FrameAfter(d, e, img.D(), {}, {}, {}, {});
    ok := true;
  }

  /** The entry ".." that is found in a directory is its second one. */
  lemma DotDotFound(d: Disk, T: Tree, k: Slot, c: nat, r: Lookup)
    requires LinksOk(T) && Normal(T, k) && View(d) == Erase(T, k) && IsDir(T, c)
    requires LooksUp(d, c, DOTDOT, r) && r != Aborted
    ensures r.Found? && (c, 1) in T.ent && r.inum == T.ent[(c, 1)].inum
  {
    hide View, LinksOk, LooksUp, NewName, IsDir;
    DotDotEnt(T, k, c);
    var p := (c, 1);
    match r {
      case Found(inum, off) =>
        FoundEntry(d, c, DOTDOT, inum, off);
        OnlyDotDot(T, c, (c, off / DIRENT));
      case Missing =>
        MissingName(d, c, DOTDOT);
        NotNew(View(d), c, p);
    }
  }

  lemma NotNew(T: Tree, c: nat, p: Slot)
    requires p in T.ent && p.0 == c && T.ent[p].name == DOTDOT
    ensures !NewName(T, c, DOTDOT)
  {
  }

  lemma DotDotEnt(T: Tree, k: Slot, c: nat)
    requires LinksOk(T) && Normal(T, k) && IsDir(T, c)
    ensures (c, 1) in T.ent && T.ent[(c, 1)].name == DOTDOT && (c, 1) in Erase(T, k).ent
  {
    assert HasDots(T, c);
    hide EntsOk, NamesOk, CountsOk;
  }

  lemma OnlyDotDot(T: Tree, c: nat, q: Slot)
    requires LinksOk(T) && q in T.ent && q.0 == c && T.ent[q].name == DOTDOT
    requires (c, 1) in T.ent && T.ent[(c, 1)].name == DOTDOT
    ensures q == (c, 1)
  {
    hide EntsOk, CountsOk, DotsOk;
  }

  lemma ErasedEnts(T: Tree, k: Slot)
    requires LinksOk(T)
    ensures EntsOk(Erase(T, k))
  {
    hide NamesOk, CountsOk, DotsOk;
    forall l | l in Erase(T, k).ent
      ensures EntOk(Erase(T, k), l)
    {
      assert EntOk(T, l);
    }
  }

  /** The end of `iunlink`: an inode without links is freed. */
  method DropInode(img: Image, c: nat, ghost T: Tree, ghost k: Slot)
    requires img.Valid() && FilesOk(img.D()) && 0 < c < |img.inodes| && c != ROOTINO
    requires k in T.ent && T.ent[k].inum == c && k.0 < |T.nlink| == |T.kind| && c < |T.nlink|
    requires View(img.D()) == LinkLess(T, k, c)
    modifies img
    ensures img.Valid() && FilesOk(img.D()) && |img.inodes| == |old(img.inodes)|
    ensures View(img.D()) == Unlinked(T, k)
    ensures T.kind[c] != 0 ==> Frame(old(img.D()), img.D(), {}, {}, OutOfUse(View(img.D()), c))
  {
    hide Accounted, UsedSet, FilesOk, View, Frame;
    FrameSelf(img.D(), {}, {});
    ViewKinds(img.D(), c);
    if img.inodes[c].nlink == 0 {
      FreeInode(img, c);
      assert OutOfUse(View(img.D()), c) == {c};
    } else {
      assert View(img.D()).kind == T.kind;
    }
  }

  /** The inode, if it is out of use. */
  function OutOfUse(T: Tree, c: nat): set<nat> {
    if c < |T.kind| && T.kind[c] == 0 then {c} else {}
  }

  method UnlinkEntry(img: Image, rp: nat, name: seq<Byte>, c: nat, off: nat, ghost T: Tree, ghost k: Slot)
      returns (r: Result)
    requires img.Valid() && FilesOk(img.D()) && rp < |img.inodes| && img.inodes[rp].kind == T_DIR
    requires off % DIRENT == 0 && off + DIRENT <= img.inodes[rp].size <= MAXFILESIZE && k == (rp, off / DIRENT)
    requires View(img.D()) == T && TreeOk(T) && Names(T, k, name, c) && c != ROOTINO && |T.kind| == |img.inodes|
    modifies img
    ensures img.Valid() && |img.inodes| == |old(img.inodes)| && (r == Fatal || r == Done(0))
    ensures k.0 < |T.nlink| && T.ent[k].inum < |T.nlink|
    ensures r != Fatal ==> FilesOk(img.D()) && View(img.D()) == Unlinked(T, k)
    ensures r != Fatal ==> Frame(old(img.D()), img.D(), {rp}, {}, OutOfUse(View(img.D()), c))
  {
    hide Accounted, UsedSet, View, FilesOk, TreeOk, LinksOk, EntsOk, LooksUp, Unlinked, LinkLess, Frame, OutOfUse;
    ghost var d0 := img.D();
    TreeEnts(T);
    ErasedEnts(T, k);
    var ok := EraseEnt(img, rp, off);
    if !ok {
      return Fatal;
    }
    ghost var d := img.D();
    forall l: Lookup | IsDir(T, c) && LooksUp(d, c, DOTDOT, l) && l != Aborted
      ensures l.Found? && (c, 1) in T.ent && l.inum == T.ent[(c, 1)].inum
    {
      DotDotFound(d, T, k, c, l);
    }
    ok := DropLinks(img, rp, c, T, k);
    if !ok {
      return Fatal;
    }
    FrameAfter(d0, d, img.D(), {rp}, {}, {}, {});
    d := img.D();
    DropInode(img, c, T, k);
    FrameLast(d0, d, img.D(), {rp}, {}, OutOfUse(View(img.D()), c));
    r := Done(0);
  }

  lemma UnlinkedOk(T: Tree, k: Slot, name: seq<Byte>)
    requires TreeOk(T) && k in T.ent && Names(T, k, name, T.ent[k].inum)
    ensures k.0 < |T.nlink| && T.ent[k].inum < |T.nlink| && IsUnlinked(T, Unlinked(T, k), k, k.0, name)
  {
    hide TreeOk, Unlinked, EmptyDir, LinksTo;
    UnlinkedTree(T, k);
  }

  /** Only the directory changed its bytes; if the inode of entry k is out of use now, its blocks and no others were
      freed. */
  ghost predicate GoneFile(d: Disk, d': Disk, rp: nat, k: Slot) {
    k in View(d).ent &&
    var F := OutOfUse(View(d'), View(d).ent[k].inum);
    Frame(d, d', {rp}, {}, F) && UsedFrame(d, d', {}, F)
  }

  /** `iunlink` of the last component of a path, rp being the directory it is in. */
  method UnlinkIn(img: Image, rp: nat, name: seq<Byte>) returns (r: Result, ghost k: Slot)
    requires img.Valid() && FilesOk(img.D()) && TreeOk(View(img.D())) && rp < |img.inodes|
    requires img.inodes[rp].kind == T_DIR && GoodName(name)
    modifies img
    ensures img.Valid() && |img.inodes| == |old(img.inodes)| && (r == Fatal || r == Done(-1) || r == Done(0))
    ensures r != Fatal ==> FilesOk(img.D())
    ensures r != Fatal ==> (r == Done(-1) <==> NewName(View(old(img.D())), rp, name) || name == DOT || name == DOTDOT)
    ensures r == Done(-1) ==> View(img.D()) == View(old(img.D())) && Frame(old(img.D()), img.D(), {}, {}, {})
    ensures r == Done(0) ==> IsUnlinked(View(old(img.D())), View(img.D()), k, rp, name)
    ensures r == Done(0) ==> GoneFile(old(img.D()), img.D(), rp, k)
  {
    hide Accounted, UsedSet, View, FilesOk, GoodName, TreeOk, NewName, LooksUp, IsUnlinked, Frame, UsedFrame, OutOfUse;
    ghost var d, o := img.D(), img.owner;
    ghost var T := View(d);
    ViewKinds(d, rp);
    k := (rp, 0);
    var found := FindName(img, rp, name);
    if found == Aborted {
      return Fatal, k;
    }
    if found == Missing || name == DOT || name == DOTDOT {
      return Done(-1), k;
    }
    FoundEntry(d, rp, name, found.inum, found.off);
    k := (rp, found.off / DIRENT);
    FoundNormal(T, k, name, found.inum);
    ghost var e := img.D();
    r := UnlinkEntry(img, rp, name, found.inum, found.off, T, k);
    UnlinkedOk(T, k, name);
    if r != Fatal {
      ghost var F := OutOfUse(View(img.D()), found.inum);
      FrameNext(d, e, img.D(), {rp}, {}, F);
      FrameUsed(d, o, img.D(), img.owner, {rp}, {}, F);
    }
  }

  /** The entry is gone, and with it the inode if that was the only link to it. The directories stay a tree with
      right link counts exactly if no directory is unlinked that is not empty. */
  ghost predicate IsUnlinked(T: Tree, T': Tree, k: Slot, rp: nat, name: seq<Byte>) {
    && k.0 == rp && Normal(T, k) && T.ent[k].name == name
    && k.0 < |T.nlink| == |T.kind| && T.ent[k].inum < |T.nlink| && T' == Unlinked(T, k)
    && (TreeOk(T') <==> (IsDir(T, T.ent[k].inum) ==> EmptyDir(T, T.ent[k].inum)))
    && (TreeOk(T') ==> OnlyUnused(T, T', k))
  }
}
