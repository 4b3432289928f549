/** Directories as a value: who names whom, and what link counts have to be. */
module FsTrees {
  import opened Bytes
  import opened FsDisks

  const DIRSIZ: nat := 14
  const DIRENT: nat := DIRSIZ + 2
  const ROOTINO: nat := 1

  /** `mkfs` asserts that entries fill a block. */
  lemma EntriesFit()
    ensures BSIZE % DIRENT == 0
  {
  }

  const DOT: seq<Byte> := [46]
  const DOTDOT: seq<Byte> := [46, 46]

  /** Directory and number of the entry in it. */
  type Slot = (nat, nat)

  datatype Ent = Ent(inum: nat, name: seq<Byte>)

  /** Kinds and link counts of all inodes, and the live directory entries. */
  datatype Tree = Tree(kind: seq<nat>, nlink: seq<int>, ent: map<Slot, Ent>)

  /** The entries that count as links to inode t: all but ".". */
  ghost function LinksTo(T: Tree, t: nat): set<Slot> {
    set k: Slot | k in T.ent && T.ent[k].inum == t && T.ent[k].name != DOT
  }

  predicate IsDir(T: Tree, c: nat) {
    c < |T.kind| && T.kind[c] == T_DIR
  }

  predicate EntOk(T: Tree, k: Slot)
    requires k in T.ent
  {
    var e := T.ent[k];
    IsDir(T, k.0) && 0 < e.inum < |T.kind| && T.kind[e.inum] != 0 && e.name != []
  }

  /** An entry a user made, behind the two every directory starts with. */
  predicate Normal(T: Tree, k: Slot) {
    k in T.ent && k.1 >= 2
  }

  predicate HasDots(T: Tree, c: nat) {
    && (c, 0) in T.ent && T.ent[(c, 0)] == Ent(c, DOT)
    && (c, 1) in T.ent && T.ent[(c, 1)].name == DOTDOT
  }

  ghost predicate EntsOk(T: Tree) {
    forall k :: k in T.ent ==> EntOk(T, k)
  }

  /** Names are unique in a directory. */
  ghost predicate NamesOk(T: Tree) {
    forall k, l :: k in T.ent && l in T.ent && k.0 == l.0 && T.ent[k].name == T.ent[l].name ==> k == l
  }

  /** Link counts are the numbers of links. */
  ghost predicate CountsOk(T: Tree) {
    |T.nlink| == |T.kind| &&
    forall t :: 0 < t < |T.kind| && T.kind[t] != 0 ==> T.nlink[t] == |LinksTo(T, t)|
  }

  ghost predicate DotsOk(T: Tree) {
    forall c :: IsDir(T, c) ==> HasDots(T, c)
  }

  /** Entries name inodes in use, names are unique, counts are right, and a directory has an entry for itself and one
      for its parent. */
  ghost predicate LinksOk(T: Tree) {
    IsDir(T, ROOTINO) && EntsOk(T) && NamesOk(T) && CountsOk(T) && DotsOk(T)
  }

  /** A directory is in one place only, the one its ".." names. */
  ghost predicate ParentOk(T: Tree, k: Slot)
    requires k in T.ent
  {
    var c := T.ent[k].inum;
    && c != ROOTINO && c != k.0 && (c, 1) in T.ent && T.ent[(c, 1)].inum == k.0
    && forall l :: Normal(T, l) && T.ent[l].inum == c ==> l == k
  }

  ghost predicate HasPlace(T: Tree, c: nat) {
    exists k :: Normal(T, k) && T.ent[k].inum == c
  }

  /** The directories are a tree: each but the root has a place, and only one. */
  ghost predicate TreeOk(T: Tree) {
    && LinksOk(T)
    && (ROOTINO, 1) in T.ent && T.ent[(ROOTINO, 1)].inum == ROOTINO
    && (forall k {:trigger ParentOk(T, k)} :: Normal(T, k) && IsDir(T, T.ent[k].inum) ==> ParentOk(T, k))
    && (forall c {:trigger HasPlace(T, c)} :: IsDir(T, c) && c != ROOTINO ==> HasPlace(T, c))
  }

  // Steps

  /** `ialloc` */
  function AddNode(T: Tree, r: nat, kind: nat): Tree
    requires r < |T.kind| == |T.nlink|
  {
    T.(kind := T.kind[r := kind], nlink := T.nlink[r := 0])
  }

  /** `daddent` */
  function Enter(T: Tree, k: Slot, e: Ent): Tree
    requires e.inum < |T.nlink|
  {
    T.(ent := T.ent[k := e], nlink := T.nlink[e.inum := T.nlink[e.inum] + if e.name == DOT then 0 else 1])
  }

  /** What `icreat` does: an inode, an entry for it, and for a directory the two entries in it. Without `linked` the
      directory had no room for the entry. */
  function Created(T: Tree, r: nat, kind: nat, k: Slot, name: seq<Byte>, linked: bool): Tree
    requires r < |T.kind| == |T.nlink| && k.0 < |T.nlink|
  {
    var T0 := AddNode(T, r, kind);
    var T1 := if linked then Enter(T0, k, Ent(r, name)) else T0;
    if kind == T_DIR then Enter(Enter(T1, (r, 0), Ent(r, DOT)), (r, 1), Ent(k.0, DOTDOT)) else T1
  }

  lemma LinksEntered(T: Tree, k: Slot, e: Ent, t: nat)
    requires k !in T.ent && e.inum < |T.nlink|
    ensures |LinksTo(Enter(T, k, e), t)| == |LinksTo(T, t)| + if e.inum == t && e.name != DOT then 1 else 0
  {
    var T' := Enter(T, k, e);
    var E, E' := T.ent, T'.ent;
    assert E' == E[k := e];
    if e.inum == t && e.name != DOT {
      LinksWith(T, T', k, t);
    } else {
      LinksWithout(T, T', k, t);
    }
  }

  /** One link more. */
  lemma LinksWith(T: Tree, T': Tree, k: Slot, t: nat)
    requires k !in T.ent && k in T'.ent && T'.ent[k].inum == t && T'.ent[k].name != DOT
    requires forall l: Slot :: l != k ==> (l in T'.ent <==> l in T.ent) && (l in T.ent ==> T'.ent[l] == T.ent[l])
    ensures LinksTo(T', t) == LinksTo(T, t) + {k} && |LinksTo(T', t)| == |LinksTo(T, t)| + 1
  {
    assert LinksTo(T', t) == LinksTo(T, t) + {k};
  }

  lemma LinksWithout(T: Tree, T': Tree, k: Slot, t: nat)
    requires k in T.ent ==> T.ent[k].inum != t || T.ent[k].name == DOT
    requires k in T'.ent ==> T'.ent[k].inum != t || T'.ent[k].name == DOT
    requires forall l: Slot :: l != k ==> (l in T'.ent <==> l in T.ent) && (l in T.ent ==> T'.ent[l] == T.ent[l])
    ensures LinksTo(T', t) == LinksTo(T, t)
  {
  }

  /** The name is free in that directory. */
  ghost predicate NewName(T: Tree, i: nat, name: seq<Byte>) {
    forall l :: l in T.ent && l.0 == i ==> T.ent[l].name != name
  }

  /** Link counts keep up with one more entry. */
  lemma CountsEntered(T: Tree, k: Slot, e: Ent)
    requires CountsOk(T) && k !in T.ent && e.inum < |T.nlink|
    ensures CountsOk(Enter(T, k, e))
  {
    hide LinksTo;
    var T' := Enter(T, k, e);
    forall t | 0 < t < |T'.kind| && T'.kind[t] != 0
      ensures T'.nlink[t] == |LinksTo(T', t)|
    {
      LinksEntered(T, k, e, t);
    }
  }

  /** An inode in use that no entry names yet. */
  lemma CountsAdded(T: Tree, r: nat, kind: nat)
    requires LinksOk(T) && 0 < r < |T.kind| && T.kind[r] == 0
    ensures CountsOk(AddNode(T, r, kind))
  {
    var T' := AddNode(T, r, kind);
    forall t | 0 < t < |T'.kind| && T'.kind[t] != 0
      ensures T'.nlink[t] == |LinksTo(T', t)|
    {
      assert LinksTo(T', t) == LinksTo(T, t);
      if t == r {
        Unnamed(T, r);
      }
    }
  }

  lemma Unnamed(T: Tree, r: nat)
    requires EntsOk(T) && r < |T.kind| && T.kind[r] == 0
    ensures LinksTo(T, r) == {}
  {
    forall k: Slot | k in T.ent
      ensures T.ent[k].inum != r
    {
      assert EntOk(T, k);
    }
  }

  /** The three steps of creating seen at once. */
  ghost predicate WithNew(T: Tree, T': Tree, r: nat, kind: nat, k: Slot, name: seq<Byte>, linked: bool) {
    && r < |T.kind| && T'.kind == T.kind[r := kind]
    && (forall l: Slot :: l in T'.ent <==> l in T.ent || (linked && l == k) || (kind == T_DIR && (l == (r, 0) || l == (r, 1))))
    && (forall l: Slot :: l in T.ent ==> T'.ent[l] == T.ent[l])
    && (linked ==> T'.ent[k] == Ent(r, name))
    && (kind == T_DIR ==> T'.ent[(r, 0)] == Ent(r, DOT) && T'.ent[(r, 1)] == Ent(k.0, DOTDOT))
  }

  lemma CreatedParts(T: Tree, r: nat, kind: nat, k: Slot, name: seq<Byte>, linked: bool)
    requires LinksOk(T) && 0 < r < |T.kind| && T.kind[r] == 0 && kind != 0
    requires IsDir(T, k.0) && k !in T.ent
    ensures WithNew(T, Created(T, r, kind, k, name, linked), r, kind, k, name, linked)
    ensures CountsOk(Created(T, r, kind, k, name, linked))
  {
    NoEntries(T, r);
    CountsAdded(T, r, kind);
    hide CountsOk, LinksTo, EntsOk, NamesOk, DotsOk;
    CreatedShape(T, r, kind, k, name, linked);
    CreatedCounts(T, r, kind, k, name, linked);
  }

  lemma CreatedShape(T: Tree, r: nat, kind: nat, k: Slot, name: seq<Byte>, linked: bool)
    requires 0 < r < |T.kind| == |T.nlink| && k.0 < |T.nlink| && k !in T.ent && k.0 != r
    requires forall l: Slot :: l in T.ent ==> l.0 != r
    ensures WithNew(T, Created(T, r, kind, k, name, linked), r, kind, k, name, linked)
  {
  }

  lemma CreatedCounts(T: Tree, r: nat, kind: nat, k: Slot, name: seq<Byte>, linked: bool)
    requires 0 < r < |T.kind| == |T.nlink| && k.0 < |T.nlink| && k !in T.ent && k.0 != r
    requires forall l: Slot :: l in T.ent ==> l.0 != r
    requires CountsOk(AddNode(T, r, kind))
    ensures CountsOk(Created(T, r, kind, k, name, linked))
  {
    hide CountsOk;
    var T0 := AddNode(T, r, kind);
    CountsEntered(T0, k, Ent(r, name));
    if kind == T_DIR {
      var T1 := if linked then Enter(T0, k, Ent(r, name)) else T0;
      CountsEntered(T1, (r, 0), Ent(r, DOT));
      var T2 := Enter(T1, (r, 0), Ent(r, DOT));
      CountsEntered(T2, (r, 1), Ent(k.0, DOTDOT));
    }
  }

  lemma NoEntries(T: Tree, r: nat)
    requires EntsOk(T) && r < |T.kind| && T.kind[r] == 0
    ensures forall l: Slot :: l in T.ent ==> l.0 != r && T.ent[l].inum != r
  {
    assert forall l: Slot :: l in T.ent ==> EntOk(T, l);
  }

  lemma NewEnts(T: Tree, T': Tree, r: nat, kind: nat, k: Slot, name: seq<Byte>, linked: bool)
    requires WithNew(T, T', r, kind, k, name, linked) && EntsOk(T) && 0 < r && T.kind[r] == 0 && kind != 0
    requires IsDir(T, k.0) && k.0 != 0 && name != []
    ensures EntsOk(T')
  {
    NoEntries(T, r);
    forall l | l in T'.ent
      ensures EntOk(T', l)
    {
      if l in T.ent {
        assert EntOk(T, l);
      }
    }
  }

  lemma NewNames(T: Tree, T': Tree, r: nat, kind: nat, k: Slot, name: seq<Byte>, linked: bool)
    requires WithNew(T, T', r, kind, k, name, linked) && EntsOk(T) && NamesOk(T) && T.kind[r] == 0
    requires IsDir(T, k.0) && NewName(T, k.0, name)
    ensures NamesOk(T')
  {
    NoEntries(T, r);
  }

  lemma NewDots(T: Tree, T': Tree, r: nat, kind: nat, k: Slot, name: seq<Byte>, linked: bool)
    requires WithNew(T, T', r, kind, k, name, linked) && DotsOk(T)
    ensures DotsOk(T')
  {
    forall c | IsDir(T', c)
      ensures HasDots(T', c)
    {
      if c != r {
        assert IsDir(T, c) && HasDots(T, c);
      }
    }
  }

  /** Creating keeps counts, names and dots. */
  lemma CreatedLinks(T: Tree, r: nat, kind: nat, k: Slot, name: seq<Byte>, linked: bool)
    requires LinksOk(T) && 0 < r < |T.kind| && T.kind[r] == 0 && kind != 0
    requires IsDir(T, k.0) && k.0 != 0 && k !in T.ent && name != [] && NewName(T, k.0, name)
    ensures LinksOk(Created(T, r, kind, k, name, linked))
  {
    var T' := Created(T, r, kind, k, name, linked);
    CreatedParts(T, r, kind, k, name, linked);
    hide Created, EntsOk, NamesOk, CountsOk, DotsOk;
    NewEnts(T, T', r, kind, k, name, linked);
    NewNames(T, T', r, kind, k, name, linked);
    NewDots(T, T', r, kind, k, name, linked);
  }

  /** Creating keeps the tree exactly if the new inode got its entry or is no directory: a directory without an entry
      has no place in the tree. */
  lemma CreatedTree(T: Tree, r: nat, kind: nat, k: Slot, name: seq<Byte>, linked: bool)
    requires TreeOk(T) && 0 < r < |T.kind| && T.kind[r] == 0 && kind != 0
    requires IsDir(T, k.0) && k.0 != 0 && k !in T.ent && name != [] && NewName(T, k.0, name)
    ensures TreeOk(Created(T, r, kind, k, name, linked)) <==> linked || kind != T_DIR
  {
    hide Created, LinksOk, HasPlace, ParentOk, LinksTo, EntsOk, DotsOk, CountsOk, WithNew, Normal, NewName;
    TreeLinks(T);
    TreeParts(T);
    var T' := Created(T, r, kind, k, name, linked);
    SlotBehind(T, k);
    NoEntries(T, r);
    CreatedLinks(T, r, kind, k, name, linked);
    CreatedParts(T, r, kind, k, name, linked);
    RootKept(T, T', r, kind, k, name, linked);
    if linked || kind != T_DIR {
      NewParents(T, T', r, kind, k, name, linked);
      NewPlaces(T, T', r, kind, k, name, linked);
    } else {
      NewNoPlace(T, T', r, kind, k, name);
    }
  }

  lemma NewNoPlace(T: Tree, T': Tree, r: nat, kind: nat, k: Slot, name: seq<Byte>)
    requires WithNew(T, T', r, kind, k, name, false) && kind == T_DIR && r != ROOTINO
    requires forall l: Slot :: l in T.ent ==> l.0 != r && T.ent[l].inum != r
    ensures IsDir(T', r) && !HasPlace(T', r)
  {
  }

  lemma TreeParts(T: Tree)
    requires LinksOk(T)
    ensures EntsOk(T) && DotsOk(T) && |T.nlink| == |T.kind|
  {
    hide EntsOk, DotsOk;
  }

  lemma SlotBehind(T: Tree, k: Slot)
    requires DotsOk(T) && IsDir(T, k.0) && k !in T.ent
    ensures k.1 >= 2
  {
    assert HasDots(T, k.0);
    assert k == (k.0, k.1);
  }

  lemma RootKept(T: Tree, T': Tree, r: nat, kind: nat, k: Slot, name: seq<Byte>, linked: bool)
    requires WithNew(T, T', r, kind, k, name, linked) && (ROOTINO, 1) in T.ent && T.ent[(ROOTINO, 1)].inum == ROOTINO
    ensures (ROOTINO, 1) in T'.ent && T'.ent[(ROOTINO, 1)].inum == ROOTINO
  {
  }

  lemma NewParents(T: Tree, T': Tree, r: nat, kind: nat, k: Slot, name: seq<Byte>, linked: bool)
    requires WithNew(T, T', r, kind, k, name, linked) && k !in T.ent && k.1 >= 2 && r != ROOTINO && k.0 != r
    requires forall l: Slot :: l in T.ent ==> l.0 != r && T.ent[l].inum != r
    requires forall l {:trigger ParentOk(T, l)} :: Normal(T, l) && IsDir(T, T.ent[l].inum) ==> ParentOk(T, l)
    ensures forall l {:trigger ParentOk(T', l)} :: Normal(T', l) && IsDir(T', T'.ent[l].inum) ==> ParentOk(T', l)
  {
    forall l | Normal(T', l) && IsDir(T', T'.ent[l].inum)
      ensures ParentOk(T', l)
    {
      if l != k {
        assert Normal(T, l) && ParentOk(T, l);
      }
    }
  }

  lemma NewPlaces(T: Tree, T': Tree, r: nat, kind: nat, k: Slot, name: seq<Byte>, linked: bool)
    requires WithNew(T, T', r, kind, k, name, linked) && k.1 >= 2 && (linked || kind != T_DIR)
    requires forall c {:trigger HasPlace(T, c)} :: IsDir(T, c) && c != ROOTINO ==> HasPlace(T, c)
    ensures forall c {:trigger HasPlace(T', c)} :: IsDir(T', c) && c != ROOTINO ==> HasPlace(T', c)
  {
    forall c | IsDir(T', c) && c != ROOTINO
      ensures HasPlace(T', c)
    {
      if c == r {
        assert Normal(T', k);
      } else {
        assert IsDir(T, c) && HasPlace(T, c);
        var l :| Normal(T, l) && T.ent[l].inum == c;
        assert Normal(T', l);
      }
    }
  }

  // Unlinking

  /** The entries of a directory are only those for itself and its parent. */
  ghost predicate EmptyDir(T: Tree, c: nat) {
    forall l: Slot :: l in T.ent && l.0 == c ==> l.1 <= 1
  }

  /** `nlink--` */
  function Less(T: Tree, t: nat): Tree
    requires t < |T.nlink|
  {
    T.(nlink := T.nlink[t := T.nlink[t] - 1])
  }

  function Erase(T: Tree, k: Slot): Tree {
    T.(ent := T.ent - {k})
  }

  /** `itruncate` to nothing and `ifree`: with the inode its entries are gone. */
  ghost function Freed(T: Tree, c: nat): Tree
    requires c < |T.kind|
  {
    T.(kind := T.kind[c := 0], ent := map l | l in T.ent && l.0 != c :: T.ent[l])
  }

  /** What `iunlink` does to entry k. */
  ghost function Unlinked(T: Tree, k: Slot): Tree
    requires k in T.ent && k.0 < |T.nlink| == |T.kind| && T.ent[k].inum < |T.nlink|
  {
    var c := T.ent[k].inum;
    var T1 := Erase(T, k);
    var T2 := if IsDir(T, c) && (c, 1) in T.ent && T.ent[(c, 1)].inum == k.0 then Less(T1, k.0) else T1;
    var T3 := Less(T2, c);
    if T3.nlink[c] == 0 then Freed(T3, c) else T3
  }

  /** The inode of entry k is out of use exactly if k was its only link. */
  ghost predicate OnlyUnused(T: Tree, T': Tree, k: Slot)
    requires k in T.ent && T.ent[k].inum < |T.kind|
  {
    T'.kind == if LinksTo(T, T.ent[k].inum) == {k} then T.kind[T.ent[k].inum := 0] else T.kind
  }

  /** What is known of one entry. */
  lemma EntFacts(T: Tree, l: Slot)
    requires LinksOk(T) && l in T.ent
    ensures EntOk(T, l) && HasDots(T, l.0) && l == (l.0, l.1)
    ensures T.ent[l].name == DOT ==> l == (l.0, 0) && T.ent[l].inum == l.0
    ensures l.1 == 0 ==> T.ent[l].name == DOT
    ensures Normal(T, l) ==> T.ent[l].name != DOT && T.ent[l].name != DOTDOT
  {
    assert EntOk(T, l);
    assert HasDots(T, l.0);
    hide CountsOk, LinksTo;
    var p, q := (l.0, 0), (l.0, 1);
    assert p in T.ent && q in T.ent && p.0 == l.0 && q.0 == l.0;
  }

  lemma CountFact(T: Tree, t: nat)
    requires LinksOk(T) && 0 < t < |T.kind| && T.kind[t] != 0
    ensures |T.nlink| == |T.kind| && T.nlink[t] == |LinksTo(T, t)|
  {
    hide EntsOk, NamesOk, DotsOk;
  }

  /** The parent of a directory has a user's entry. */
  lemma ChildOf(T: Tree, x: nat) returns (m: Slot)
    requires TreeOk(T) && IsDir(T, x) && x != ROOTINO
    ensures (x, 1) in T.ent && Normal(T, m) && m.0 == T.ent[(x, 1)].inum
  {
    assert HasPlace(T, x);
    m :| Normal(T, m) && T.ent[m].inum == x;
    assert ParentOk(T, m);
  }

  lemma LinkIs(T: Tree, k: Slot, l: Slot)
    requires TreeOk(T) && Normal(T, k) && IsDir(T, T.ent[k].inum) && EmptyDir(T, T.ent[k].inum) && ParentOk(T, k)
    requires l in T.ent && T.ent[l].inum == T.ent[k].inum && T.ent[l].name != DOT
    ensures l == k
  {
    hide TreeOk, LinksOk, CountsOk, EmptyDir, HasPlace;
    TreeLinks(T);
    EntFacts(T, l);
    NoChild(T, k, l.0);
  }

  /** No directory has an empty one for its parent. */
  lemma NoChild(T: Tree, k: Slot, x: nat)
    requires TreeOk(T) && Normal(T, k) && EmptyDir(T, T.ent[k].inum) && ParentOk(T, k) && IsDir(T, x)
    ensures (x, 1) in T.ent && T.ent[(x, 1)].inum != T.ent[k].inum
  {
    assert HasDots(T, x);
    if x != T.ent[k].inum && x != ROOTINO {
      var m := ChildOf(T, x);
    }
  }

  /** An empty directory is named by the one entry only. */
  lemma OneLink(T: Tree, k: Slot)
    requires TreeOk(T) && Normal(T, k) && IsDir(T, T.ent[k].inum) && EmptyDir(T, T.ent[k].inum)
    ensures LinksTo(T, T.ent[k].inum) == {k} && ParentOk(T, k)
  {
    assert ParentOk(T, k);
    hide LinksOk, ParentOk, HasPlace;
    EntFacts(T, k);
    forall l: Slot | l in T.ent && T.ent[l].inum == T.ent[k].inum && T.ent[l].name != DOT
      ensures l == k
    {
      LinkIs(T, k, l);
    }
  }

  /** The entries D are gone and, if it was freed, inode c is out of use. */
  ghost predicate Without(T: Tree, T': Tree, D: set<Slot>, c: nat, freed: bool) {
    && c < |T.kind| && T'.kind == (if freed then T.kind[c := 0] else T.kind)
    && (forall l: Slot :: l in T'.ent <==> l in T.ent && l !in D)
    && (forall l: Slot :: l in T'.ent ==> T'.ent[l] == T.ent[l])
  }

  lemma LessEnts(T: Tree, T': Tree, D: set<Slot>, c: nat, freed: bool)
    requires Without(T, T', D, c, freed) && EntsOk(T) && NamesOk(T)
    requires freed ==> forall l: Slot :: l in T.ent && l !in D ==> l.0 != c && T.ent[l].inum != c
    ensures EntsOk(T') && NamesOk(T')
  {
    forall l | l in T'.ent
      ensures EntOk(T', l)
    {
      assert EntOk(T, l);
    }
  }

  lemma LessDots(T: Tree, T': Tree, D: set<Slot>, c: nat, freed: bool)
    requires Without(T, T', D, c, freed) && DotsOk(T)
    requires forall l: Slot :: l in D ==> l.1 >= 2 || (freed && l.0 == c)
    ensures DotsOk(T')
  {
    forall x | IsDir(T', x)
      ensures HasDots(T', x)
    {
      assert IsDir(T, x) && HasDots(T, x);
    }
  }

  lemma LessParents(T: Tree, T': Tree, D: set<Slot>, c: nat, freed: bool)
    requires Without(T, T', D, c, freed)
    requires forall l: Slot :: l in D ==> l.1 >= 2 || (freed && l.0 == c)
    requires forall l {:trigger ParentOk(T, l)} :: Normal(T, l) && IsDir(T, T.ent[l].inum) ==> ParentOk(T, l)
    ensures forall l {:trigger ParentOk(T', l)} :: Normal(T', l) && IsDir(T', T'.ent[l].inum) ==> ParentOk(T', l)
  {
    forall l | Normal(T', l) && IsDir(T', T'.ent[l].inum)
      ensures ParentOk(T', l)
    {
      assert Normal(T, l) && ParentOk(T, l);
    }
  }

  lemma LessPlaces(T: Tree, T': Tree, D: set<Slot>, c: nat, freed: bool)
    requires Without(T, T', D, c, freed)
    requires forall l: Slot :: l in D && Normal(T, l) ==> T.ent[l].inum == c
    requires IsDir(T, c) ==> freed
    requires forall x {:trigger HasPlace(T, x)} :: IsDir(T, x) && x != ROOTINO ==> HasPlace(T, x)
    ensures forall x {:trigger HasPlace(T', x)} :: IsDir(T', x) && x != ROOTINO ==> HasPlace(T', x)
  {
    forall x | IsDir(T', x) && x != ROOTINO
      ensures HasPlace(T', x)
    {
      assert IsDir(T, x) && HasPlace(T, x);
      var m :| Normal(T, m) && T.ent[m].inum == x;
      assert Normal(T', m);
    }
  }

  /** All parts but the counts. */
  lemma LessTree(T: Tree, T': Tree, D: set<Slot>, c: nat, freed: bool)
    requires TreeOk(T) && Without(T, T', D, c, freed) && c != ROOTINO && CountsOk(T')
    requires freed ==> forall l: Slot :: l in T.ent && l !in D ==> l.0 != c && T.ent[l].inum != c
    requires forall l: Slot :: l in D ==> l.1 >= 2 || (freed && l.0 == c)
    requires forall l: Slot :: l in D && Normal(T, l) ==> T.ent[l].inum == c
    requires IsDir(T, c) ==> freed
    ensures TreeOk(T')
  {
    hide EntsOk, NamesOk, CountsOk, DotsOk, HasPlace, ParentOk, HasDots;
    LessEnts(T, T', D, c, freed);
    LessDots(T, T', D, c, freed);
    LessParents(T, T', D, c, freed);
    LessPlaces(T, T', D, c, freed);
  }

  lemma LinksDropped(T: Tree, T': Tree, D: set<Slot>, c: nat, freed: bool, t: nat)
    requires Without(T, T', D, c, freed)
    ensures LinksTo(T', t) == LinksTo(T, t) - D
  {
  }

  /** With the last link to a file no entry names it any more. */
  lemma LastLink(T: Tree, k: Slot, c: nat)
    requires LinksOk(T) && k in T.ent && c == T.ent[k].inum && !IsDir(T, c) && LinksTo(T, c) == {k}
    ensures forall l: Slot :: l in T.ent && l != k ==> l.0 != c && T.ent[l].inum != c
  {
    hide LinksOk;
    forall l: Slot | l in T.ent && l != k
      ensures l.0 != c && T.ent[l].inum != c
    {
      EntFacts(T, l);
      assert l !in LinksTo(T, c);
    }
  }

  lemma OnlyOne(s: set<Slot>, k: Slot)
    requires k in s
    ensures |s| == 1 <==> s == {k}
  {
    assert s == (s - {k}) + {k};
  }

  lemma UnlinkedFile(T: Tree, k: Slot)
    requires TreeOk(T) && Normal(T, k) && !IsDir(T, T.ent[k].inum)
    ensures k.0 < |T.nlink| && T.ent[k].inum < |T.nlink| && TreeOk(Unlinked(T, k))
    ensures Unlinked(T, k).kind ==
      if LinksTo(T, T.ent[k].inum) == {k} then T.kind[T.ent[k].inum := 0] else T.kind
  {
    TreeLinks(T);
    hide LinksOk, TreeOk, CountsOk;
    EntFacts(T, k);
    var c := T.ent[k].inum;
    CountFact(T, c);
    assert k in LinksTo(T, c);
    OnlyOne(LinksTo(T, c), k);
    if LinksTo(T, c) == {k} {
      LastLink(T, k, c);
    }
    FileUnlinked(T, k, c, LinksTo(T, c) == {k});
  }

  lemma EntInuse(T: Tree, k: Slot)
    requires Normal(T, k) && EntOk(T, k)
    ensures k in T.ent && k.1 >= 2 && k.0 < |T.kind| && 0 < T.ent[k].inum < |T.kind| && T.kind[T.ent[k].inum] != 0
  {
  }

  lemma FileUnlinked(T: Tree, k: Slot, c: nat, freed: bool)
    requires TreeOk(T) && Normal(T, k) && c == T.ent[k].inum && EntOk(T, k) && !IsDir(T, c) && k in LinksTo(T, c)
    requires |T.nlink| == |T.kind| && freed == (T.nlink[c] == 1)
    requires freed ==> forall l: Slot :: l in T.ent && l != k ==> l.0 != c && T.ent[l].inum != c
    ensures TreeOk(Unlinked(T, k)) && Unlinked(T, k).kind == if freed then T.kind[c := 0] else T.kind
  {
    hide *;
    TreeLinks(T);
    EntInuse(T, k);
    var T' := Unlinked(T, k);
    FileWithout(T, k, c, freed);
    FileCounts(T, T', k, c, freed);
    LessTree(T, T', {k}, c, freed);
    WithoutKind(T, T', {k}, c, freed);
  }

  lemma TreeLinks(T: Tree)
    requires TreeOk(T)
    ensures LinksOk(T) && CountsOk(T) && IsDir(T, ROOTINO)
  {
    hide EntsOk, NamesOk, CountsOk, DotsOk;
  }

  lemma WithoutKind(T: Tree, T': Tree, D: set<Slot>, c: nat, freed: bool)
    requires Without(T, T', D, c, freed)
    ensures T'.kind == if freed then T.kind[c := 0] else T.kind
  {
  }

  lemma FileWithout(T: Tree, k: Slot, c: nat, freed: bool)
    requires k in T.ent && k.0 < |T.nlink| == |T.kind| && c == T.ent[k].inum < |T.nlink| && !IsDir(T, c)
    requires freed == (T.nlink[c] == 1)
    requires freed ==> forall l: Slot :: l in T.ent && l != k ==> l.0 != c
    ensures Without(T, Unlinked(T, k), {k}, c, freed)
    ensures Unlinked(T, k).nlink == T.nlink[c := T.nlink[c] - 1]
  {
  }

  lemma FileCounts(T: Tree, T': Tree, k: Slot, c: nat, freed: bool)
    requires CountsOk(T) && k in LinksTo(T, c) && 0 < c && Without(T, T', {k}, c, freed)
    requires T.kind[c] != 0 && T'.nlink == T.nlink[c := T.nlink[c] - 1]
    ensures CountsOk(T')
  {
    forall t | 0 < t < |T'.kind| && T'.kind[t] != 0
      ensures T'.nlink[t] == |LinksTo(T', t)|
    {
      LinksDropped(T, T', {k}, c, freed, t);
      if t != c {
        assert LinksTo(T, t) - {k} == LinksTo(T, t);
      }
    }
  }

  lemma UnlinkedDir(T: Tree, k: Slot)
    requires TreeOk(T) && Normal(T, k) && IsDir(T, T.ent[k].inum) && EmptyDir(T, T.ent[k].inum)
    ensures k.0 < |T.nlink| && T.ent[k].inum < |T.nlink| && TreeOk(Unlinked(T, k))
    ensures Unlinked(T, k).kind == T.kind[T.ent[k].inum := 0]
  {
    TreeLinks(T);
    hide LinksTo, LinksOk, TreeOk, ParentOk, HasPlace, Without, EmptyDir, CountsOk;
    EntFacts(T, k);
    var c := T.ent[k].inum;
    OneLink(T, k);
    CountFact(T, c);
    DirParent(T, k, c);
    EntFacts(T, (c, 1));
    DirUnlinked(T, k, c);
  }

  lemma DirUnlinked(T: Tree, k: Slot, c: nat)
    requires TreeOk(T) && Normal(T, k) && c == T.ent[k].inum && EntOk(T, k) && IsDir(T, c) && EmptyDir(T, c)
    requires HasDots(T, c) && T.ent[(c, 1)].inum == k.0 && c != ROOTINO && c != k.0
    requires |T.nlink| == |T.kind| && T.nlink[c] == 1 && LinksTo(T, c) == {k}
    ensures TreeOk(Unlinked(T, k)) && Unlinked(T, k).kind == T.kind[c := 0]
  {
    hide TreeOk, LinksOk, CountsOk, ParentOk, HasPlace, Unlinked, Without, EmptyDir, LinksTo, EntOk;
    TreeLinks(T);
    EntInuse(T, k);
    var T' := Unlinked(T, k);
    var D := {k, (c, 0), (c, 1)};
    DirWithout(T, k, c, D);
    DirNamed(T, k, c, D);
    DirCounts(T, T', k, c, D);
    LessTree(T, T', D, c, true);
    WithoutKind(T, T', D, c, true);
  }

  lemma DirParent(T: Tree, k: Slot, c: nat)
    requires k in T.ent && c == T.ent[k].inum && ParentOk(T, k)
    ensures c != ROOTINO && c != k.0 && (c, 1) in T.ent && T.ent[(c, 1)].inum == k.0
  {
  }

  lemma DirWithout(T: Tree, k: Slot, c: nat, D: set<Slot>)
    requires k in T.ent && k.0 < |T.nlink| == |T.kind| && c == T.ent[k].inum < |T.nlink| && IsDir(T, c) && k.0 != c
    requires (c, 0) in T.ent && (c, 1) in T.ent && T.ent[(c, 1)].inum == k.0 && T.nlink[c] == 1 && EmptyDir(T, c)
    requires D == {k, (c, 0), (c, 1)}
    ensures Without(T, Unlinked(T, k), D, c, true)
    ensures Unlinked(T, k).nlink == T.nlink[k.0 := T.nlink[k.0] - 1][c := 0]
  {
    forall l: Slot | l in T.ent && l.0 == c
      ensures l == (c, 0) || l == (c, 1)
    {
      assert l == (l.0, l.1);
    }
  }

  /** No other entry names the directory. */
  lemma DirNamed(T: Tree, k: Slot, c: nat, D: set<Slot>)
    requires LinksOk(T) && k in T.ent && c == T.ent[k].inum && LinksTo(T, c) == {k} && EmptyDir(T, c)
    requires D == {k, (c, 0), (c, 1)}
    ensures forall l: Slot :: l in T.ent && l !in D ==> l.0 != c && T.ent[l].inum != c
  {
    hide LinksOk;
    forall l: Slot | l in T.ent && l !in D
      ensures l.0 != c && T.ent[l].inum != c
    {
      EntFacts(T, l);
      assert l !in LinksTo(T, c);
    }
  }

  lemma DirCounts(T: Tree, T': Tree, k: Slot, c: nat, D: set<Slot>)
    requires CountsOk(T) && LinksTo(T, c) == {k} && 0 < c && k in T.ent && T.ent[k].inum == c && k.0 != c
    requires HasDots(T, c) && T.ent[(c, 1)].inum == k.0 && k.0 < |T.nlink|
    requires D == {k, (c, 0), (c, 1)} && Without(T, T', D, c, true)
    requires T'.nlink == T.nlink[k.0 := T.nlink[k.0] - 1][c := 0]
    ensures CountsOk(T')
  {
    forall t | 0 < t < |T'.kind| && T'.kind[t] != 0
      ensures T'.nlink[t] == |LinksTo(T', t)|
    {
      LinksDropped(T, T', D, c, true, t);
      if t == k.0 {
        assert (c, 1) in LinksTo(T, t);
        assert LinksTo(T, t) - D == LinksTo(T, t) - {(c, 1)};
      } else {
        assert LinksTo(T, t) - D == LinksTo(T, t);
      }
    }
  }

  /** A directory that stays in use without its entry has no place any more. */
  lemma StaysInUse(T: Tree, k: Slot, c: nat)
    requires TreeOk(T) && Normal(T, k) && c == T.ent[k].inum && IsDir(T, c) && ParentOk(T, k)
    requires k.0 < |T.nlink| == |T.kind| && T.nlink[c] != 1
    ensures !TreeOk(Unlinked(T, k))
  {
    hide LinksOk, CountsOk;
    var T' := Unlinked(T, k);
    assert IsDir(T', c) && !HasPlace(T', c);
  }

  lemma FreedDir(T: Tree, k: Slot, c: nat)
    requires k in T.ent && c == T.ent[k].inum && IsDir(T, c) && k.0 != c && k.0 < |T.nlink| == |T.kind|
    requires T.nlink[c] == 1 && (c, 1) in T.ent && T.ent[(c, 1)].inum == k.0
    ensures var T' := Unlinked(T, k);
      && T'.kind == T.kind[c := 0] && T'.nlink == T.nlink[k.0 := T.nlink[k.0] - 1][c := 0]
      && forall m: Slot :: m in T'.ent ==> m in T.ent && T'.ent[m] == T.ent[m] && m.0 != c
  {
    assert (c, 1) != k;
  }

  /** With a directory that goes out of use go its entries, and what they named is named once less than it counts. */
  lemma EntriesLost(T: Tree, k: Slot, c: nat, l: Slot)
    requires LinksOk(T) && k in T.ent && c == T.ent[k].inum && IsDir(T, c) && k.0 != c && k.0 < |T.nlink| == |T.kind|
    requires T.nlink[c] == 1 && LinksTo(T, c) == {k} && (c, 1) in T.ent && T.ent[(c, 1)].inum == k.0
    requires Normal(T, l) && l.0 == c
    ensures !CountsOk(Unlinked(T, k))
  {
    hide LinksOk, CountsOk, HasDots, Unlinked, LinksTo;
    EntFacts(T, l);
    EntFacts(T, (c, 1));
    FreedDir(T, k, c);
    var t := T.ent[l].inum;
    CountFact(T, t);
    LostLinks(T, Unlinked(T, k), c, k, l, t);
    if CountsOk(Unlinked(T, k)) {
      CountIs(Unlinked(T, k), t);
      assert false;
    }
  }

  lemma CountIs(T: Tree, t: nat)
    requires CountsOk(T) && 0 < t < |T.kind| && T.kind[t] != 0
    ensures |T.nlink| == |T.kind| && T.nlink[t] == |LinksTo(T, t)|
  {
  }

  lemma LostLinks(T: Tree, T': Tree, c: nat, k: Slot, l: Slot, t: nat)
    requires LinksTo(T, c) == {k} && k.0 != c && l in T.ent && l.0 == c && l.1 >= 2 && t == T.ent[l].inum
    requires T.ent[l].name != DOT && (c, 1) in T.ent && T.ent[(c, 1)].inum == k.0 && T.ent[(c, 1)].name != DOT
    requires forall m: Slot :: m in T'.ent ==> m in T.ent && T'.ent[m] == T.ent[m] && m.0 != c
    ensures t != c && |LinksTo(T', t)| + (if t == k.0 then 2 else 1) <= |LinksTo(T, t)|
  {
    assert l !in LinksTo(T, c);
    var gone := if t == k.0 then {l, (c, 1)} else {l};
    assert |gone| == if t == k.0 then 2 else 1;
    FewerLinks(LinksTo(T', t), LinksTo(T, t), gone);
  }

  lemma FewerLinks(s': set<Slot>, s: set<Slot>, gone: set<Slot>)
    requires s' <= s - gone && gone <= s
    ensures |s'| <= |s| - |gone|
  {
    assert s == (s - gone) + gone;
    Smaller(s', s - gone);
  }

  lemma {:induction false} Smaller(a: set<Slot>, b: set<Slot>)
    requires a <= b
    ensures |a| <= |b|
  {
    if a != {} {
      var x :| x in a;
      Smaller(a - {x}, b - {x});
    }
  }

  lemma NotEmptyUnlinked(T: Tree, k: Slot)
    requires TreeOk(T) && Normal(T, k) && IsDir(T, T.ent[k].inum) && !EmptyDir(T, T.ent[k].inum)
    ensures k.0 < |T.nlink| && T.ent[k].inum < |T.nlink| && !TreeOk(Unlinked(T, k))
  {
    assert ParentOk(T, k);
    TreeLinks(T);
    hide TreeOk, LinksOk, CountsOk, HasPlace, Unlinked;
    EntFacts(T, k);
    var c := T.ent[k].inum;
    CountFact(T, c);
    DirParent(T, k, c);
    if T.nlink[c] != 1 {
      StaysInUse(T, k, c);
    } else {
      assert k in LinksTo(T, c);
      OnlyOne(LinksTo(T, c), k);
      var l: Slot :| l in T.ent && l.0 == c && l.1 > 1;
      EntFacts(T, (c, 1));
      EntriesLost(T, k, c, l);
      if TreeOk(Unlinked(T, k)) {
        TreeLinks(Unlinked(T, k));
      }
    }
  }

  /** Unlinking an entry keeps the tree and its link counts exactly if the entry is that of a file or of an empty
      directory; the inode goes out of use exactly if the entry was its only link. */
  lemma UnlinkedTree(T: Tree, k: Slot)
    requires TreeOk(T) && Normal(T, k)
    ensures k.0 < |T.nlink| == |T.kind| && T.ent[k].inum < |T.nlink|
    ensures TreeOk(Unlinked(T, k)) <==> (IsDir(T, T.ent[k].inum) ==> EmptyDir(T, T.ent[k].inum))
    ensures TreeOk(Unlinked(T, k)) ==> OnlyUnused(T, Unlinked(T, k), k)
  {
    hide TreeOk, EmptyDir, LinksTo, Unlinked;
    TreeShape(T);
    if !IsDir(T, T.ent[k].inum) {
      UnlinkedFile(T, k);
    } else if EmptyDir(T, T.ent[k].inum) {
      OneLink(T, k);
      UnlinkedDir(T, k);
    } else {
      NotEmptyUnlinked(T, k);
    }
  }

  lemma TreeShape(T: Tree)
    requires TreeOk(T)
    ensures |T.nlink| == |T.kind|
  {
    hide EntsOk, NamesOk, DotsOk;
  }
}
