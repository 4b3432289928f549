/** What calls on names leave alone. */
module FsFrames {
  import opened Bytes
  import opened FsDisks
  import opened FsFiles
  import opened FsTrees

  /** The addresses of file j are as they were, but for those that may have come up in the files G, and in the root
      directory. */
  ghost predicate RefsKept(d: Disk, d': Disk, j: nat, G: set<nat>)
    requires SameShape(d, d') && j < |d.inodes|
  {
    forall m: nat :: m <= TABLE ==>
      Ref(d', j, m) == Ref(d, j, m) || ((j in G || j == ROOTINO) && Ref(d, j, m) == 0)
  }

  /** File j has the size, the device numbers and the data it had. */
  ghost predicate BytesKept(d: Disk, d': Disk, j: nat)
    requires SameShape(d, d') && j < |d.inodes|
  {
    var a, b := d.inodes[j], d'.inodes[j];
    && b.size == a.size && b.major == a.major && b.minor == a.minor
    && forall m: nat :: m < TABLE ==> Data(d', j, m) == Data(d, j, m)
  }

  ghost predicate Bare(d: Disk, j: nat)
    requires j < |d.inodes|
  {
    forall m: nat :: m <= TABLE ==> Ref(d, j, m) == 0
  }

  /** Only the files W were written, only those of G among them may have got blocks, and the files F lost theirs. No
      other file changed its bytes or its blocks, except that holes of the root directory may have been filled. */
  ghost predicate Frame(d: Disk, d': Disk, W: set<nat>, G: set<nat>, F: set<nat>) {
    && SameShape(d, d')
    && (forall j: nat :: j < |d.inodes| && j !in F ==> RefsKept(d, d', j, G))
    && (forall j: nat :: j < |d.inodes| && j !in W && j !in F ==> BytesKept(d, d', j))
    && (forall j: nat :: j < |d.inodes| && j in F ==> Bare(d', j))
  }

  lemma FrameSelf(d: Disk, W: set<nat>, G: set<nat>)
    ensures Frame(d, d, W, G, {})
  {
  }

  lemma RefsKeptTrans(d: Disk, e: Disk, d': Disk, j: nat, G: set<nat>, G': set<nat>)
    requires SameShape(d, e) && SameShape(e, d') && j < |d.inodes| && RefsKept(d, e, j, G) && RefsKept(e, d', j, G')
    ensures RefsKept(d, d', j, G + G')
  {
    hide Ref;
  }

  lemma BytesKeptTrans(d: Disk, e: Disk, d': Disk, j: nat)
    requires SameShape(d, e) && SameShape(e, d') && j < |d.inodes| && BytesKept(d, e, j) && BytesKept(e, d', j)
    ensures BytesKept(d, d', j)
  {
    hide Data;
  }

  /** One step after the other. */
  lemma FrameTrans(d: Disk, e: Disk, d': Disk, W: set<nat>, G: set<nat>, W': set<nat>, G': set<nat>, F: set<nat>)
    requires Frame(d, e, W, G, {}) && Frame(e, d', W', G', F)
    ensures Frame(d, d', W + W', G + G', F)
  {
    hide RefsKept, BytesKept, Bare;
    forall j: nat | j < |d.inodes| && j !in F
      ensures RefsKept(d, d', j, G + G')
    {
      RefsKeptTrans(d, e, d', j, G, G');
    }
    forall j: nat | j < |d.inodes| && j !in W + W' && j !in F
      ensures BytesKept(d, d', j)
    {
      BytesKeptTrans(d, e, d', j);
    }
  }

  /** What a step leaves alone it leaves alone if it is said to do more. */
  lemma FrameWider(d: Disk, d': Disk, W: set<nat>, G: set<nat>, W': set<nat>, G': set<nat>, F: set<nat>)
    requires Frame(d, d', W, G, F) && W <= W' && G <= G'
    ensures Frame(d, d', W', G', F)
  {
    hide Ref, BytesKept, Bare;
  }

  /** A file that was not written has the contents it had. */
  lemma FrameContents(d: Disk, d': Disk, W: set<nat>, G: set<nat>, F: set<nat>, j: nat)
    requires Frame(d, d', W, G, F) && j < |d.inodes| && j !in W && j !in F
    ensures d'.inodes[j].size == d.inodes[j].size
    ensures d.inodes[j].size <= MAXFILESIZE ==> Contents(d', j) == Contents(d, j)
    ensures j !in G && j != ROOTINO ==> forall m: nat :: m <= TABLE ==> Ref(d', j, m) == Ref(d, j, m)
  {
    assert BytesKept(d, d', j);
    hide Data, Ref;
    if d.inodes[j].size <= MAXFILESIZE {
      forall p: nat | p < d.inodes[j].size
        ensures At(d', j, p) == At(d, j, p)
      {
        assert Data(d', j, p / BSIZE) == Data(d, j, p / BSIZE);
      }
    }
  }

  // Single steps

  lemma OthersFrame(d: Disk, d': Disk, i: nat, lo: nat, hi: nat)
    requires OthersKept(d, d', i) && Grew(d, d', i, lo, hi)
    ensures Frame(d, d', {i}, {i}, {})
  {
    hide Ref, Data;
    forall j: nat | j < |d.inodes|
      ensures RefsKept(d, d', j, {i})
    {
      if j != i {
        assert SameFile(d, d', j);
      }
    }
    forall j: nat | j < |d.inodes| && j != i
      ensures BytesKept(d, d', j)
    {
      assert SameFile(d, d', j);
    }
  }

  /** Within a file without holes a write brings no blocks. */
  lemma FullGrew(d: Disk, d': Disk, i: nat, lo: nat, hi: nat)
    requires Grew(d, d', i, lo, hi) && SameShape(d, d') && Full(d, i) && hi <= Ceil(d.inodes[i].size) && hi <= MAXFILE
    ensures forall m: nat :: m <= TABLE ==> Ref(d', i, m) == Ref(d, i, m)
  {
    assert hi > NDIRECT && lo < hi ==> Ref(d, i, NDIRECT) != 0;
    assert Ref(d, i, TABLE) == 0 ==> Ref(d, i, NDIRECT) == 0;
    hide Ref;
    forall m: nat | m <= TABLE
      ensures Ref(d', i, m) == Ref(d, i, m)
    {
      if MayGrow(m, lo, hi) && m < TABLE {
        assert Ref(d, i, m) != 0;
      }
    }
  }

  lemma WithinFrame(d: Disk, d': Disk, i: nat, lo: nat, hi: nat)
    requires OthersKept(d, d', i) && Grew(d, d', i, lo, hi) && hi <= Ceil(d.inodes[i].size) && hi <= MAXFILE
    requires i != ROOTINO ==> Full(d, i)
    ensures Frame(d, d', {i}, {}, {})
  {
    OthersFrame(d, d', i, lo, hi);
    if i != ROOTINO {
      FullGrew(d, d', i, lo, hi);
    }
    hide Ref, BytesKept, Full, OthersKept, Grew;
  }

  /** Looking around. */
  lemma GrownFrame(d: Disk, d': Disk, i: nat)
    requires i < |d.inodes| && d.inodes[i].size <= MAXFILESIZE && Grown(d, d', i, 0, Ceil(d.inodes[i].size))
    requires i != ROOTINO ==> Full(d, i)
    ensures Frame(d, d', {}, {}, {})
  {
    var hi := Ceil(d.inodes[i].size);
    GrownGrew(d, d', i, 0, hi);
    if i != ROOTINO {
      FullGrew(d, d', i, 0, hi);
    }
    hide Ref, Data, Full, Grew;
    forall j: nat | j < |d.inodes|
      ensures RefsKept(d, d', j, {})
    {
      forall m: nat | m <= TABLE
        ensures Ref(d', j, m) == Ref(d, j, m) || (j == ROOTINO && Ref(d, j, m) == 0)
      {
        assert InFile(d, j, m);
      }
    }
    forall j: nat | j < |d.inodes|
      ensures BytesKept(d, d', j)
    {
      assert Meta(d'.inodes[j]) == Meta(d.inodes[j]);
      assert forall m: nat :: m < TABLE ==> InFile(d, j, m);
    }
  }

  lemma GrownGrew(d: Disk, d': Disk, i: nat, lo: nat, hi: nat)
    requires i < |d.inodes| && GrownRefs(d, d', i, lo, hi)
    ensures Grew(d, d', i, lo, hi)
  {
    hide Ref;
    forall m: nat | m <= TABLE
      ensures Ref(d', i, m) == Ref(d, i, m) || (Ref(d, i, m) == 0 && MayGrow(m, lo, hi))
    {
      assert InFile(d, i, m);
    }
  }

  /** An inode is emptied. */
  lemma BareFrame(d: Disk, d': Disk, c: nat)
    requires OthersKept(d, d', c) && c < |d.inodes| && Snug(d', c) && d'.inodes[c].size == 0
    ensures Frame(d, d', {}, {}, {c})
  {
    assert Bare(d', c);
    hide Ref, Data;
    forall j: nat | j < |d.inodes| && j != c
      ensures RefsKept(d, d', j, {}) && BytesKept(d, d', j)
    {
      assert SameFile(d, d', j);
    }
  }

  // Blocks in use

  /** The data blocks whose bit is set. */
  ghost function DataUsed(d: Disk): set<nat> {
    set b | b in d.used && d.g.IsData(b)
  }

  /** The blocks of the files J, tables included. */
  ghost function BlocksOf(d: Disk, J: set<nat>): set<nat> {
    set j: nat, m: nat | j in J && j < |d.inodes| && m <= TABLE && Ref(d, j, m) != 0 :: Ref(d, j, m) as nat
  }

  /** The bitmap gives up just the blocks of the files F, and takes in none but blocks of the files that may have got
      some. */
  ghost predicate UsedFrame(d: Disk, d': Disk, G: set<nat>, F: set<nat>) {
    DataUsed(d') == DataUsed(d) - BlocksOf(d, F) + BlocksOf(d', G + {ROOTINO})
  }

  lemma UsedStays(d: Disk, o: map<nat, Place>, d': Disk, o': map<nat, Place>, W: set<nat>, G: set<nat>, F: set<nat>, b: nat)
    requires Accounted(d, o) && Accounted(d', o') && Frame(d, d', W, G, F)
    requires b in DataUsed(d) && b !in BlocksOf(d, F)
    ensures b in DataUsed(d')
  {
    assert Held(d, o, b);
    var j, m := o[b].0, o[b].1;
    assert j !in F;
    assert RefsKept(d, d', j, G);
    assert Owned(d', o', j, m);
  }

  lemma UsedCame(d: Disk, o: map<nat, Place>, d': Disk, o': map<nat, Place>, W: set<nat>, G: set<nat>, F: set<nat>, b: nat)
    requires Accounted(d, o) && Accounted(d', o') && Frame(d, d', W, G, F) && b in DataUsed(d')
    ensures (b in DataUsed(d) && b !in BlocksOf(d, F)) || b in BlocksOf(d', G + {ROOTINO})
  {
    assert Held(d', o', b);
    var j, m := o'[b].0, o'[b].1;
    assert j in F ==> Bare(d', j);
    assert RefsKept(d, d', j, G);
    if Ref(d, j, m) == b {
      assert Owned(d, o, j, m);
      forall f: nat, n: nat | f in F && InFile(d, f, n) && Ref(d, f, n) != 0
        ensures Ref(d, f, n) != b
      {
        assert Owned(d, o, f, n);
      }
    }
  }

  lemma UsedHeld(d: Disk, o: map<nat, Place>, J: set<nat>)
    requires Accounted(d, o)
    ensures BlocksOf(d, J) <= DataUsed(d)
  {
    forall j: nat, m: nat | j in J && InFile(d, j, m) && Ref(d, j, m) != 0
      ensures Ref(d, j, m) as nat in DataUsed(d)
    {
      assert Owned(d, o, j, m);
    }
  }

  /** With the accounts right before and after, the bitmap changes as the addresses do. */
  lemma FrameUsed(d: Disk, o: map<nat, Place>, d': Disk, o': map<nat, Place>, W: set<nat>, G: set<nat>, F: set<nat>)
    requires Accounted(d, o) && Accounted(d', o') && Frame(d, d', W, G, F)
    ensures UsedFrame(d, d', G, F)
  {
    hide Accounted, Frame, BlocksOf, DataUsed;
    UsedHeld(d', o', G + {ROOTINO});
    forall b: nat
      ensures b in DataUsed(d') <==> (b in DataUsed(d) && b !in BlocksOf(d, F)) || b in BlocksOf(d', G + {ROOTINO})
    {
      if b in DataUsed(d') {
        UsedCame(d, o, d', o', W, G, F, b);
      } else if b in DataUsed(d) && b !in BlocksOf(d, F) {
        UsedStays(d, o, d', o', W, G, F, b);
      }
    }
  }
}
