/** `tools/libfs.c`: walking along a path. */
module FsPaths {
  import opened Bytes
  import opened FsDisks
  import opened FsFiles
  import opened FsImages
  import opened FsTrees
  import opened FsDirs
  import opened FsFrames
  import opened FsNames

  const SEP: Byte := 47

  /** The text of a C string. */
  type Path = p: seq<Byte> | forall k :: 0 <= k < |p| ==> p[k] != 0 witness []

  // Components

  function SkipSeps(p: seq<Byte>): (n: nat)
    ensures n <= |p| && (n < |p| ==> p[n] != SEP) && forall k :: 0 <= k < n ==> p[k] == SEP
  {
    if p == [] || p[0] != SEP then 0 else 1 + SkipSeps(p[1..])
  }

  function ElemLength(p: seq<Byte>): (n: nat)
    ensures n <= |p| && (n < |p| ==> p[n] == SEP) && forall k :: 0 <= k < n ==> p[k] != SEP
  {
    if p == [] || p[0] == SEP then 0 else 1 + ElemLength(p[1..])
  }

  /** The first component, of which only DIRSIZ bytes count, and the rest of the path. */
  function First(p: Path): (seq<Byte>, Path) {
    var q := p[SkipSeps(p)..];
    var n := ElemLength(q);
    (q[..if n < DIRSIZ then n else DIRSIZ], q[n..])
  }

  lemma FirstLength(p: Path)
    ensures First(p).0 == [] ==> First(p).1 == []
    ensures First(p).0 != [] ==> |First(p).1| < |p| && GoodName(First(p).0)
  {
  }

  predicate AllSeps(s: seq<Byte>) {
    forall k :: 0 <= k < |s| ==> s[k] == SEP
  }

  predicate NoSeps(s: seq<Byte>) {
    forall k :: 0 <= k < |s| ==> s[k] != SEP
  }

  /** A path is separators, a component, and a rest that is empty or begins with a separator. */
  predicate IsSplit(p: seq<Byte>, seps: seq<Byte>, name: seq<Byte>, rest: seq<Byte>) {
    && p == seps + name + rest && AllSeps(seps) && NoSeps(name)
    && (rest != [] ==> name != [] && rest[0] == SEP)
  }

  /** The bytes of a component that count. */
  function Cut(name: seq<Byte>): (r: seq<Byte>)
    ensures r <= name && |r| <= DIRSIZ && (|name| <= DIRSIZ ==> r == name) && (|name| >= DIRSIZ ==> |r| == DIRSIZ)
  {
    if |name| <= DIRSIZ then name else name[..DIRSIZ]
  }

  /** However a path is split so, that is its first component, cut to what counts, and its rest. */
  lemma FirstIs(p: Path, seps: seq<Byte>, name: seq<Byte>, rest: seq<Byte>)
    requires IsSplit(p, seps, name, rest)
    ensures First(p) == (Cut(name), rest)
  {
    hide SkipSeps, ElemLength;
    var q := name + rest;
    assert p == seps + q;
    SepsAt(p, |seps|);
    assert p[|seps|..] == q;
    ElemAt(q, |name|);
    assert q[|name|..] == rest && forall n :: 0 <= n <= |name| ==> q[..n] == name[..n];
  }

  /** And there is such a split. */
  lemma SplitOf(p: Path) returns (seps: seq<Byte>, name: seq<Byte>)
    ensures IsSplit(p, seps, name, First(p).1)
  {
    var n := SkipSeps(p);
    var q := p[n..];
    seps, name := p[..n], q[..ElemLength(q)];
  }

  /** `skipelem`: p is separators, a component and the rest; of the component DIRSIZ bytes count. */
  method Skipelem(p: Path) returns (name: seq<Byte>, rest: Path)
    ensures exists seps: seq<Byte>, elem: seq<Byte> :: IsSplit(p, seps, elem, rest) && name == Cut(elem)
    ensures (name, rest) == First(p)
  {
    hide SkipSeps, ElemLength, First;
    var i := Scan(p, 0, true);
    var j := Scan(p, i, false);
    var n := if j - i < DIRSIZ then j - i else DIRSIZ;
    name, rest := p[i..i + n], p[j..];
    assert p == p[..i] + p[i..j] + p[j..] && p[i..j][..n] == p[i..i + n];
    FirstIs(p, p[..i], p[i..j], rest);
  }

  /** Moves on over separators, or over anything else. */
  method Scan(p: seq<Byte>, i: nat, seps: bool) returns (j: nat)
    requires i <= |p|
    ensures i <= j <= |p| && (forall k :: i <= k < j ==> (p[k] == SEP) == seps) && (j < |p| ==> (p[j] == SEP) != seps)
  {
    j := i;
    while j < |p| && (p[j] == SEP) == seps
      invariant i <= j <= |p| && forall k :: i <= k < j ==> (p[k] == SEP) == seps
    {
      j := j + 1;
    }
  }

  lemma SepsAt(p: seq<Byte>, n: nat)
    requires n <= |p| && (n < |p| ==> p[n] != SEP) && forall k :: 0 <= k < n ==> p[k] == SEP
    ensures SkipSeps(p) == n
  {
  }

  lemma ElemAt(p: seq<Byte>, n: nat)
    requires n <= |p| && (n < |p| ==> p[n] == SEP) && forall k :: 0 <= k < n ==> p[k] != SEP
    ensures ElemLength(p) == n
  {
  }

  // Paths in a tree

  ghost predicate Child(T: Tree, i: nat, name: seq<Byte>, c: nat) {
    exists k :: k in T.ent && k.0 == i && T.ent[k] == Ent(c, name)
  }

  /** The path leads from directory i to inode c. A name with more of the path behind it has to be a directory's, even
      if no further name comes. */
  ghost predicate Leads(T: Tree, i: nat, p: Path, c: nat)
    decreases |p|
  {
    FirstLength(p);
    var (name, rest) := First(p);
    if name == [] then c == i
    else if rest == [] then Child(T, i, name, c)
    else exists m :: Child(T, i, name, m) && IsDir(T, m) && Leads(T, m, rest, c)
  }

  /** The path leads from directory i to directory dir and ends with a name to be looked for there. */
  ghost predicate LeadsInto(T: Tree, i: nat, p: Path, dir: nat, last: seq<Byte>)
    decreases |p|
  {
    FirstLength(p);
    var (name, rest) := First(p);
    if name == [] then false
    else if rest == [] then dir == i && last == name
    else exists m :: Child(T, i, name, m) && IsDir(T, m) && LeadsInto(T, m, rest, dir, last)
  }

  /** Names are unique, so there is one child at most. */
  lemma OneChild(T: Tree, i: nat, name: seq<Byte>, c: nat, c': nat)
    requires NamesOk(T) && Child(T, i, name, c) && Child(T, i, name, c')
    ensures c == c'
  {
  }

  lemma NoChildNamed(T: Tree, i: nat, name: seq<Byte>)
    requires NewName(T, i, name)
    ensures forall c :: !Child(T, i, name, c)
  {
  }

  /** Through its one child of that name goes the path. */
  lemma LeadsVia(T: Tree, i: nat, p: Path, m: nat, c: nat)
    requires NamesOk(T) && First(p).0 != [] && First(p).1 != [] && Child(T, i, First(p).0, m)
    ensures Leads(T, i, p, c) <==> IsDir(T, m) && Leads(T, m, First(p).1, c)
  {
    hide First, Child, NamesOk;
    FirstLength(p);
    forall m': nat | Child(T, i, First(p).0, m')
      ensures m' == m
    {
      OneChild(T, i, First(p).0, m, m');
    }
  }

  lemma LeadsIntoVia(T: Tree, i: nat, p: Path, m: nat, dir: nat, last: seq<Byte>)
    requires NamesOk(T) && First(p).0 != [] && First(p).1 != [] && Child(T, i, First(p).0, m)
    ensures LeadsInto(T, i, p, dir, last) <==> IsDir(T, m) && LeadsInto(T, m, First(p).1, dir, last)
  {
    hide First, Child, NamesOk;
    FirstLength(p);
    forall m': nat | Child(T, i, First(p).0, m')
      ensures m' == m
    {
      OneChild(T, i, First(p).0, m, m');
    }
  }

  /** What is found under a name is the child. */
  lemma FoundChild(d: Disk, dir: nat, name: seq<Byte>, inum: nat, off: nat)
    requires LooksUp(d, dir, name, Found(inum, off)) && EntsOk(View(d))
    ensures Child(View(d), dir, name, inum) && 0 < inum < |View(d).kind|
  {
    hide View, LooksUp;
    FoundEntry(d, dir, name, inum, off);
    assert EntOk(View(d), (dir, off / DIRENT));
  }

  lemma TreeNames(T: Tree)
    requires TreeOk(T)
    ensures NamesOk(T) && EntsOk(T)
  {
  }

  /** The inode under a name of a directory. */
  method Next(img: Image, dir: nat, name: seq<Byte>, ghost T: Tree) returns (l: Lookup)
    requires img.Valid() && FilesOk(img.D()) && View(img.D()) == T && TreeOk(T) && GoodName(name)
    requires dir < |img.inodes| && img.inodes[dir].kind == T_DIR
    modifies img
    ensures img.Valid() && |img.inodes| == |old(img.inodes)| && FilesOk(img.D()) && View(img.D()) == T
    ensures img.inodes[dir].kind == T_DIR && Frame(old(img.D()), img.D(), {}, {}, {})
    ensures l.Found? ==> l.inum < |img.inodes| && Child(T, dir, name, l.inum)
    ensures l.Found? ==> (img.inodes[l.inum].kind == T_DIR <==> IsDir(T, l.inum))
    ensures l == Missing ==> NewName(T, dir, name)
  {
    hide Accounted, UsedSet, View, FilesOk, TreeOk, Child, GoodName, LooksUp, EntsOk, IsDir, Frame;
    TreeNames(T);
    ghost var d := img.D();
    l := FindName(img, dir, name);
    ViewKinds(img.D(), dir);
    if l.Found? {
      FoundChild(d, dir, name, l.inum, l.off);
      ViewKinds(img.D(), l.inum);
    }
  }

  /** One round of `ilookup`: the end, or a directory and the rest of the path. */
  method LookupStep(img: Image, dir: nat, p: Path, ghost T: Tree)
      returns (done: bool, r: Result, dir': nat, p': Path)
    requires img.Valid() && FilesOk(img.D()) && View(img.D()) == T && TreeOk(T)
    requires dir < |img.inodes| && img.inodes[dir].kind == T_DIR
    modifies img
    ensures img.Valid() && |img.inodes| == |old(img.inodes)| && FilesOk(img.D()) && View(img.D()) == T
    ensures Frame(old(img.D()), img.D(), {}, {}, {})
    ensures done ==> LedTo(T, dir, p, r) && dir' == dir && p' == p
    ensures !done ==> |p'| < |p| && dir' < |img.inodes| && img.inodes[dir'].kind == T_DIR
    ensures !done ==> forall c: nat :: Leads(T, dir, p, c) <==> Leads(T, dir', p', c)
  {
    hide Accounted, UsedSet, View, FilesOk, TreeOk, First, Child, GoodName, NewName, Frame;
    FrameSelf(img.D(), {}, {});
    TreeNames(T);
    var name, rest := Skipelem(p);
    FirstLength(p);
    if name == [] {
      return true, Done(dir), dir, p;
    }
    var l := Next(img, dir, name, T);
    if l == Aborted {
      return true, Fatal, dir, p;
    }
    if l == Missing {
      NoChildNamed(T, dir, name);
      return true, Done(-1), dir, p;
    }
    if rest == [] {
      return true, Done(l.inum), dir, p;
    }
    forall c: nat
      ensures Leads(T, dir, p, c) <==> IsDir(T, l.inum) && Leads(T, l.inum, rest, c)
    {
      LeadsVia(T, dir, p, l.inum, c);
    }
    if img.inodes[l.inum].kind != T_DIR {
      return true, Done(-1), dir, p;
    }
    return false, Fatal, l.inum, rest;
  }

  /** The result is where the path leads, or -1 if it leads nowhere. */
  ghost predicate LedTo(T: Tree, i: nat, p: Path, r: Result) {
    match r
    case Done(c) => if c >= 0 then Leads(T, i, p, c) else c == -1 && forall c: nat :: !Leads(T, i, p, c)
    case Fatal => true
  }

  /** `ilookup`: the inode a path leads to from directory rp; -1 if it leads nowhere. */
  method Ilookup(img: Image, rp: nat, path: Path) returns (r: Result)
    requires img.Valid() && FilesOk(img.D()) && TreeOk(View(img.D())) && rp < |img.inodes|
    requires img.inodes[rp].kind == T_DIR
    modifies img
    ensures img.Valid() && |img.inodes| == |old(img.inodes)|
    ensures FilesOk(img.D()) && View(img.D()) == View(old(img.D())) && LedTo(View(old(img.D())), rp, path, r)
    ensures Frame(old(img.D()), img.D(), {}, {}, {})
  {
    hide Accounted, UsedSet, View, FilesOk, TreeOk, Leads, Frame;
    ghost var d, T := img.D(), View(img.D());
    FrameSelf(d, {}, {});
    var done, dir: nat, p: Path := false, rp, path;
    r := Fatal;
    while !done
      invariant img.Valid() && FilesOk(img.D()) && View(img.D()) == T && |img.inodes| == |old(img.inodes)|
      invariant dir < |img.inodes| && (!done ==> img.inodes[dir].kind == T_DIR)
      invariant forall c: nat :: Leads(T, rp, path, c) <==> Leads(T, dir, p, c)
      invariant done ==> LedTo(T, dir, p, r)
      invariant Frame(d, img.D(), {}, {}, {})
      decreases !done, |p|
    {
      ghost var e := img.D();
      done, r, dir, p := LookupStep(img, dir, p, T);
      FrameNext(d, e, img.D(), {}, {}, {});
    }
  }

  /** How far `icreat` and `iunlink` walk: to the directory of the last name, or nowhere. */
  datatype Walked = Into(dir: nat, last: seq<Byte>) | Nowhere | Lost

  ghost predicate WalkedTo(T: Tree, i: nat, p: Path, w: Walked) {
    match w
    case Into(dir, last) => LeadsInto(T, i, p, dir, last) && GoodName(last)
    case Nowhere => forall dir: nat, last: seq<Byte> :: !LeadsInto(T, i, p, dir, last)
    case Lost => true
  }

  /** One round of the loop of `icreat` and `iunlink` in front of the last name. */
  method WalkStep(img: Image, dir: nat, p: Path, ghost T: Tree) returns (done: bool, w: Walked, dir': nat, p': Path)
    requires img.Valid() && FilesOk(img.D()) && View(img.D()) == T && TreeOk(T)
    requires dir < |img.inodes| && img.inodes[dir].kind == T_DIR
    modifies img
    ensures img.Valid() && |img.inodes| == |old(img.inodes)| && FilesOk(img.D()) && View(img.D()) == T
    ensures Frame(old(img.D()), img.D(), {}, {}, {})
    ensures done ==> WalkedTo(T, dir, p, w) && dir' == dir && p' == p
    ensures done && w.Into? ==> w.dir == dir
    ensures dir' < |img.inodes| && img.inodes[dir'].kind == T_DIR
    ensures !done ==> |p'| < |p|
    ensures !done ==> forall d: nat, last: seq<Byte> :: LeadsInto(T, dir, p, d, last) <==> LeadsInto(T, dir', p', d, last)
  {
    hide Accounted, UsedSet, View, FilesOk, TreeOk, First, Child, NewName, GoodName, Frame;
    FrameSelf(img.D(), {}, {});
    TreeNames(T);
    var name, rest := Skipelem(p);
    FirstLength(p);
    if name == [] {
      return true, Nowhere, dir, p;
    }
    if rest == [] {
      return true, Into(dir, name), dir, p;
    }
    var l := Next(img, dir, name, T);
    if l == Aborted {
      return true, Lost, dir, p;
    }
    if l == Missing {
      NoChildNamed(T, dir, name);
      return true, Nowhere, dir, p;
    }
    forall d: nat, last: seq<Byte>
      ensures LeadsInto(T, dir, p, d, last) <==> IsDir(T, l.inum) && LeadsInto(T, l.inum, rest, d, last)
    {
      LeadsIntoVia(T, dir, p, l.inum, d, last);
    }
    if img.inodes[l.inum].kind != T_DIR {
      return true, Nowhere, dir, p;
    }
    return false, Lost, l.inum, rest;
  }

  method Walk(img: Image, rp: nat, path: Path) returns (w: Walked)
    requires img.Valid() && FilesOk(img.D()) && TreeOk(View(img.D())) && rp < |img.inodes|
    requires img.inodes[rp].kind == T_DIR
    modifies img
    ensures img.Valid() && |img.inodes| == |old(img.inodes)|
    ensures FilesOk(img.D()) && View(img.D()) == View(old(img.D())) && WalkedTo(View(old(img.D())), rp, path, w)
    ensures w.Into? ==> w.dir < |img.inodes| && img.inodes[w.dir].kind == T_DIR
    ensures Frame(old(img.D()), img.D(), {}, {}, {})
  {
    hide Accounted, UsedSet, View, FilesOk, TreeOk, LeadsInto, Frame;
    ghost var d, T := img.D(), View(img.D());
    FrameSelf(d, {}, {});
    var done, dir: nat, p: Path := false, rp, path;
    w := Lost;
    while !done
      invariant img.Valid() && FilesOk(img.D()) && View(img.D()) == T && |img.inodes| == |old(img.inodes)|
      invariant dir < |img.inodes| && img.inodes[dir].kind == T_DIR
      invariant forall d: nat, last: seq<Byte> :: LeadsInto(T, rp, path, d, last) <==> LeadsInto(T, dir, p, d, last)
      invariant done ==> WalkedTo(T, dir, p, w) && (w.Into? ==> w.dir == dir)
      invariant Frame(d, img.D(), {}, {}, {})
      decreases !done, |p|
    {
      ghost var e := img.D();
      done, w, dir, p := WalkStep(img, dir, p, T);
      FrameNext(d, e, img.D(), {}, {}, {});
    }
  }

  ghost predicate CanCreate(T: Tree, w: Walked) {
    w.Into? && NewName(T, w.dir, w.last)
  }

  ghost predicate CanUnlink(T: Tree, w: Walked) {
    w.Into? && !NewName(T, w.dir, w.last) && w.last != DOT && w.last != DOTDOT
  }

  lemma NewFileNext(d: Disk, o: map<nat, Place>, e: Disk, d': Disk, o': map<nat, Place>, ip: int, rp: nat, kind: nat)
    requires Accounted(d, o) && Accounted(d', o') && Frame(d, e, {}, {}, {}) && NewFile(e, d', ip, rp, kind)
    ensures NewFile(d, d', ip, rp, kind)
  {
    hide Accounted, Frame, UsedFrame;
    FrameNext(d, e, d', {ip, rp}, {ip, rp}, {});
    FrameUsed(d, o, d', o', {ip, rp}, {ip, rp}, {});
  }

  lemma GoneFileNext(d: Disk, o: map<nat, Place>, e: Disk, d': Disk, o': map<nat, Place>, rp: nat, k: Slot)
    requires Accounted(d, o) && Accounted(d', o') && Frame(d, e, {}, {}, {}) && GoneFile(e, d', rp, k)
    requires View(e) == View(d)
    ensures GoneFile(d, d', rp, k)
  {
    hide Accounted, Frame, UsedFrame, View, OutOfUse;
    var F := OutOfUse(View(d'), View(d).ent[k].inum);
    FrameNext(d, e, d', {rp}, {}, F);
    FrameUsed(d, o, d', o', {rp}, {}, F);
  }

  /** `icreat`: -1 if the path leads nowhere or its last name exists; otherwise the number of the new inode. */
  method Icreat(img: Image, rp: nat, path: Path, kind: nat)
      returns (r: Result, ghost w: Walked, ghost s: nat)
    requires img.Valid() && FilesOk(img.D()) && TreeOk(View(img.D())) && rp < |img.inodes|
    requires img.inodes[rp].kind == T_DIR && kind != 0
    modifies img
    ensures img.Valid() && |img.inodes| == |old(img.inodes)| && WalkedTo(View(old(img.D())), rp, path, w)
    ensures r == Fatal || FilesOk(img.D())
    ensures r != Fatal ==> (r == Done(-1) <==> !CanCreate(View(old(img.D())), w))
    ensures r == Done(-1) ==> View(img.D()) == View(old(img.D())) && Frame(old(img.D()), img.D(), {}, {}, {})
    ensures r != Fatal && r != Done(-1) ==> w.Into?
    ensures r != Fatal && r != Done(-1) ==>
      IsCreated(View(old(img.D())), View(img.D()), r.value, w.dir, s, w.last, kind)
    ensures r != Fatal && r != Done(-1) ==> NewFile(old(img.D()), img.D(), r.value, w.dir, kind)
  {
    hide Accounted, UsedSet, View, FilesOk, TreeOk, NewName, IsCreated, Frame, NewFile;
    ghost var d, o := img.D(), img.owner;
    s := 0;
    var to := Walk(img, rp, path);
    w := to;
    ghost var e := img.D();
    match to {
      case Nowhere => r := Done(-1);
      case Lost => r := Fatal;
      case Into(dir, last) =>
        r, s := CreateIn(img, dir, last, kind);
        if r == Done(-1) {
          FrameNext(d, e, img.D(), {}, {}, {});
        } else if r != Fatal {
          NewFileNext(d, o, e, img.D(), img.owner, r.value, dir, kind);
        }
    }
  }

  /** `iunlink`: -1 if the path leads nowhere, or there is no such name, or it is "." or ".."; otherwise 0. */
  method Iunlink(img: Image, rp: nat, path: Path) returns (r: Result, ghost w: Walked, ghost k: Slot)
    requires img.Valid() && FilesOk(img.D()) && TreeOk(View(img.D())) && rp < |img.inodes|
    requires img.inodes[rp].kind == T_DIR
    modifies img
    ensures img.Valid() && |img.inodes| == |old(img.inodes)| && WalkedTo(View(old(img.D())), rp, path, w)
    ensures r == Fatal || FilesOk(img.D())
    ensures r != Fatal ==> (r == Done(-1) <==> !CanUnlink(View(old(img.D())), w))
    ensures r == Done(-1) ==> View(img.D()) == View(old(img.D())) && Frame(old(img.D()), img.D(), {}, {}, {})
    ensures r != Fatal && r != Done(-1) ==> r == Done(0) && w.Into?
    ensures r == Done(0) ==> IsUnlinked(View(old(img.D())), View(img.D()), k, w.dir, w.last)
    ensures r == Done(0) ==> GoneFile(old(img.D()), img.D(), w.dir, k)
  {
    hide Accounted, UsedSet, View, FilesOk, TreeOk, NewName, IsUnlinked, Frame, GoneFile;
    ghost var d, o := img.D(), img.owner;
    k := (0, 0);
    var to := Walk(img, rp, path);
    w := to;
    ghost var e := img.D();
    match to {
      case Nowhere => r := Done(-1);
      case Lost => r := Fatal;
      case Into(dir, last) =>
        r, k := UnlinkIn(img, dir, last);
        if r == Done(-1) {
          FrameNext(d, e, img.D(), {}, {}, {});
        } else if r != Fatal {
          GoneFileNext(d, o, e, img.D(), img.owner, dir, k);
        }
    }
  }

  // Empty directories

  /** Among the first n entries there are count live ones, the first two of the directory with them. */
  ghost predicate Counted(d: Disk, dp: nat, n: nat, count: nat) {
    && Live(d, dp, 0) && Live(d, dp, 1)
    && if n < 2 then count == n else count >= 2 && (count == 2 <==> NoneFrom2(d, dp, n))
  }

  ghost predicate NoneFrom2(d: Disk, dp: nat, n: nat) {
    forall s: nat :: 2 <= s < n ==> !Live(d, dp, s)
  }

  lemma CountedStart(d: Disk, dp: nat)
    requires LinksOk(View(d)) && dp < |d.inodes| && d.inodes[dp].kind == T_DIR
    ensures Counted(d, dp, 0, 0)
  {
    ViewKinds(d, dp);
    hide Entries, Live;
    assert HasDots(View(d), dp);
    EntriesHas(d, dp, 0);
    EntriesHas(d, dp, 1);
  }

  lemma CountedStep(d: Disk, dp: nat, off: nat, count: nat, b: seq<Byte>)
    requires dp < |d.inodes| && d.inodes[dp].kind == T_DIR && off % DIRENT == 0
    requires off + DIRENT <= d.inodes[dp].size <= MAXFILESIZE && b == EntBytes(d, dp, off / DIRENT)
    requires Counted(d, dp, off / DIRENT, count)
    ensures Counted(d, dp, (off + DIRENT) / DIRENT, if InumOf(b) != 0 then count + 1 else count)
  {
    hide EntBytes, Counted, InumOf;
    SlotAfter(off);
    var s := off / DIRENT;
    assert Live(d, dp, s) <==> InumOf(b) != 0;
    CountOne(d, dp, s, count);
  }

  lemma SlotAfter(off: nat)
    requires off % DIRENT == 0
    ensures DIRENT * (off / DIRENT) == off && (off + DIRENT) / DIRENT == off / DIRENT + 1
  {
  }

  lemma CountOne(d: Disk, dp: nat, s: nat, count: nat)
    requires Counted(d, dp, s, count)
    ensures Counted(d, dp, s + 1, if Live(d, dp, s) then count + 1 else count)
  {
    hide Live;
  }

  lemma LiveSlots(d: Disk, dp: nat)
    ensures forall s: nat :: (dp, s) in View(d).ent <==> Live(d, dp, s)
  {
    forall s: nat
      ensures (dp, s) in View(d).ent <==> Live(d, dp, s)
    {
      EntriesHas(d, dp, s);
      hide Entries, Live;
    }
  }

  lemma LiveInside(d: Disk, dp: nat, s: nat)
    requires Live(d, dp, s)
    ensures s < d.inodes[dp].size / DIRENT
  {
    hide EntBytes;
  }

  lemma CountedEnd(d: Disk, dp: nat, count: nat)
    requires dp < |d.inodes| && Counted(d, dp, d.inodes[dp].size / DIRENT, count)
    ensures count == 2 <==> EmptyDir(View(d), dp)
  {
    hide View, Live;
    var n := d.inodes[dp].size / DIRENT;
    LiveInside(d, dp, 1);
    LiveSlots(d, dp);
    if NoneFrom2(d, dp, n) {
      forall l: Slot | l in View(d).ent && l.0 == dp
        ensures l.1 <= 1
      {
        assert l == (dp, l.1);
        LiveInside(d, dp, l.1);
      }
    } else {
      var s: nat :| 2 <= s < n && Live(d, dp, s);
      var l := (dp, s);
      assert l in View(d).ent && l.0 == dp;
    }
  }

  /** `emptydir`: the directory has no entries but the two for itself and its parent. */
  method Emptydir(img: Image, dp: nat) returns (ok: bool, empty: bool)
    requires img.Valid() && FilesOk(img.D()) && TreeOk(View(img.D())) && dp < |img.inodes|
    requires img.inodes[dp].kind == T_DIR
    modifies img
    ensures img.Valid() && Still(old(img.D()), img.D(), dp)
    ensures ok ==> (empty <==> EmptyDir(View(old(img.D())), dp))
  {
    hide Accounted, UsedSet, Still, EntBytes, FilesOk, View, TreeOk, LinksOk, Counted, Live, EmptyDir;
    ghost var d := img.D();
    StillSelf(d, dp);
    WholeSlots(d, dp);
    TreeLinks(View(d));
    CountedStart(d, dp);
    var off, nent := 0, 0;
    var size := img.inodes[dp].size;
    ok := true;
    while off < size && ok
      invariant 0 <= off <= size && off % DIRENT == 0 && img.Valid() && Still(d, img.D(), dp) && nent >= 0
      invariant ok ==> Counted(d, dp, off / DIRENT, nent)
      decreases size - off, ok
    {
      ok, nent, off := EmptyStep(img, dp, off, nent, d);
    }
    if ok {
      CountedEnd(d, dp, nent);
    }
    empty := nent == 2;
  }

  method EmptyStep(img: Image, dp: nat, off: nat, nent: nat, ghost d: Disk) returns (ok: bool, nent': nat, off': nat)
    requires img.Valid() && FilesOk(d) && Still(d, img.D(), dp)
    requires dp < |d.inodes| && d.inodes[dp].kind == T_DIR && off % DIRENT == 0
    requires off < d.inodes[dp].size <= MAXFILESIZE
    requires Counted(d, dp, off / DIRENT, nent)
    modifies img
    ensures img.Valid() && Still(d, img.D(), dp)
    ensures ok ==> off' == off + DIRENT <= d.inodes[dp].size && Counted(d, dp, off' / DIRENT, nent')
    ensures !ok ==> off' == off
  {
    hide Accounted, UsedSet, Still, EntBytes, FilesOk, View, Counted, Live;
    ghost var e := img.D();
    WholeSlots(d, dp);
    StillMeta(d, e, dp, dp);
    var b;
    ok, b := ReadEnt(img, dp, off);
    StillTrans(d, e, img.D(), dp);
    if !ok {
      return false, nent, off;
    }
    StillEnt(d, e, dp, dp, off / DIRENT);
    CountedStep(d, dp, off, nent, b);
    return true, if InumOf(b) != 0 then nent + 1 else nent, off + DIRENT;
  }
}
