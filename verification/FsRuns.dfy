/** Runs of `icreat` and `iunlink`. */
module FsRuns {
  import opened Bytes
  import opened FsDisks
  import opened FsTrees
  import opened FsDirs
  import opened FsNames
  import opened FsPaths

  /** A call that did something: a new inode in entry s of a directory, or entry k unlinked. */
  datatype Step = Create(ip: nat, rp: nat, s: nat, name: seq<Byte>, kind: nat) | Unlink(k: Slot)

  /** The step leads from T to T'. */
  ghost predicate Does(T: Tree, step: Step, T': Tree) {
    match step
    case Create(ip, rp, s, name, kind) =>
      IsMade(T, T', ip, rp, s, name, kind) && NewName(T, rp, name) && GoodName(name) && kind != 0
    case Unlink(k) =>
      Normal(T, k) && k.0 < |T.nlink| == |T.kind| && T.ent[k].inum < |T.nlink| && T' == Unlinked(T, k)
  }

  /** The directory has an unused entry, or is not of the largest size. */
  ghost predicate HasRoom(T: Tree, rp: nat) {
    exists s: nat :: s < SLOTS && (rp, s) !in T.ent
  }

  /** What a caller can see to before the call: a directory is made only where there is room for it, and only empty
      directories are unlinked. */
  ghost predicate Guarded(T: Tree, step: Step) {
    match step
    case Create(_, rp, _, _, kind) => kind == T_DIR ==> HasRoom(T, rp)
    case Unlink(k) => k in T.ent && (IsDir(T, T.ent[k].inum) ==> EmptyDir(T, T.ent[k].inum))
  }

  lemma RoomIs(T: Tree, rp: nat, name: seq<Byte>, s: nat)
    requires FirstFree(T, rp, name, s) && s <= SLOTS
    ensures HasRoom(T, rp) <==> s < SLOTS
  {
  }

  /** A step keeps the tree exactly if it is guarded. */
  lemma StepTree(T: Tree, step: Step, T': Tree)
    requires TreeOk(T) && Does(T, step, T')
    ensures TreeOk(T') <==> Guarded(T, step)
  {
    hide TreeOk, Unlinked, Created, HasRoom, FirstFree, LinksTo, EmptyDir;
    match step
    case Create(ip, rp, s, name, kind) =>
      CreatedOk(T, T', ip, rp, s, name, kind);
      RoomIs(T, rp, name, s);
    case Unlink(k) =>
      UnlinkedTree(T, k);
  }

  ghost predicate IsRun(Ts: seq<Tree>, steps: seq<Step>) {
    |Ts| == |steps| + 1 && forall i :: 0 <= i < |steps| ==> Does(Ts[i], steps[i], Ts[i + 1])
  }

  ghost predicate AllGuarded(Ts: seq<Tree>, steps: seq<Step>)
    requires |steps| <= |Ts|
  {
    forall i :: 0 <= i < |steps| ==> Guarded(Ts[i], steps[i])
  }

  /** Through a run the directories stay a tree, with unique names and each link count the number of links, exactly if
      every step is guarded. */
  lemma {:induction false} RunTree(Ts: seq<Tree>, steps: seq<Step>)
    requires IsRun(Ts, steps) && TreeOk(Ts[0])
    ensures (forall T :: T in Ts ==> TreeOk(T)) <==> AllGuarded(Ts, steps)
  {
    hide TreeOk, Does, Guarded;
    if steps != [] {
      assert Does(Ts[0], steps[0], Ts[1]);
      StepTree(Ts[0], steps[0], Ts[1]);
      if TreeOk(Ts[1]) {
        RestRuns(Ts, steps);
        RunTree(Ts[1..], steps[1..]);
        Rest(Ts, steps);
      } else {
        assert Ts[1] in Ts;
      }
    }
  }

  lemma RestRuns(Ts: seq<Tree>, steps: seq<Step>)
    requires IsRun(Ts, steps) && steps != []
    ensures IsRun(Ts[1..], steps[1..])
  {
    hide Does;
    forall i | 0 <= i < |steps| - 1
      ensures Does(Ts[1..][i], steps[1..][i], Ts[1..][i + 1])
    {
      assert Does(Ts[i + 1], steps[i + 1], Ts[i + 1 + 1]);
    }
  }

  lemma Rest(Ts: seq<Tree>, steps: seq<Step>)
    requires |Ts| == |steps| + 1 > 1 && TreeOk(Ts[0]) && Guarded(Ts[0], steps[0])
    ensures (forall T :: T in Ts ==> TreeOk(T)) <==> forall T :: T in Ts[1..] ==> TreeOk(T)
    ensures AllGuarded(Ts, steps) <==> AllGuarded(Ts[1..], steps[1..])
  {
    hide TreeOk, Guarded;
    assert Ts == [Ts[0]] + Ts[1..];
    if AllGuarded(Ts[1..], steps[1..]) {
      forall i | 0 < i < |steps|
        ensures Guarded(Ts[i], steps[i])
      {
        assert Guarded(Ts[1..][i - 1], steps[1..][i - 1]);
      }
    }
  }

  /** What `icreat` and `iunlink` return are such steps. */
  lemma CallsAreSteps(T: Tree, T': Tree, ip: int, rp: nat, s: nat, name: seq<Byte>, kind: nat, k: Slot)
    ensures IsCreated(T, T', ip, rp, s, name, kind) && NewName(T, rp, name) && GoodName(name) && kind != 0 ==>
              ip > 0 && Does(T, Create(ip, rp, s, name, kind), T')
    ensures IsUnlinked(T, T', k, rp, name) ==> Does(T, Unlink(k), T')
  {
    hide FirstFree, Created, Unlinked, TreeOk, LinksOk, NewName, GoodName, LinksTo;
  }

  // A run that breaks the counts

  const P: nat := 2
  const F: nat := 3
  const ORPHAN: nat := 4

  /** Names of two bytes, all different. */
  function Name(i: nat): (n: seq<Byte>)
    requires i < SLOTS
  {
    [1 + i % 250, 1 + i / 250]
  }

  /** The root directory with directory P and file F in it, and entries [2, n) of P that are links to F. */
  function Ents(n: nat): map<Slot, Ent>
    requires 2 <= n <= SLOTS
    decreases n
  {
    if n == 2 then
      map[(1, 0) := Ent(1, DOT), (1, 1) := Ent(1, DOTDOT), (1, 2) := Ent(P, [112]), (1, 3) := Ent(F, [102]),
          (P, 0) := Ent(P, DOT), (P, 1) := Ent(1, DOTDOT)]
    else
      Ents(n - 1)[(P, n - 1) := Ent(F, Name(n - 1))]
  }

  function Linked(n: nat): Tree
    requires 2 <= n <= SLOTS
  {
    Tree([0, T_DIR, T_DIR, T_FILE, 0], [0, 2, 1, n - 1, 0], Ents(n))
  }

  /** The same with a directory that names P as its parent and that no entry names. */
  function Orphaned(n: nat): Tree
    requires 2 <= n <= SLOTS
  {
    Tree([0, T_DIR, T_DIR, T_FILE, T_DIR], [0, 2, 2, n - 1, 0],
         Ents(n)[(ORPHAN, 0) := Ent(ORPHAN, DOT)][(ORPHAN, 1) := Ent(P, DOTDOT)])
  }

  lemma {:induction false} EntsAt(n: nat, k: Slot)
    requires 2 <= n <= SLOTS
    ensures k in Ents(n) <==> (k.0 == 1 && k.1 < 4) || (k.0 == P && k.1 < n)
    ensures k in Ents(n) ==> Ents(n)[k] == (if k.0 == P && k.1 >= 2 then Ent(F, Name(k.1)) else Ents(2)[k])
    decreases n
  {
    if n > 2 {
      EntsAt(n - 1, k);
      assert k == (k.0, k.1);
    } else {
      assert k == (k.0, k.1);
    }
  }

  lemma NamesDiffer(i: nat, j: nat)
    requires i < SLOTS && j < SLOTS && Name(i) == Name(j)
    ensures i == j
  {
    assert Name(i)[0] == 1 + i % 250 && Name(i)[1] == 1 + i / 250;
    assert Name(j)[0] == 1 + j % 250 && Name(j)[1] == 1 + j / 250;
  }

  lemma NameIs(i: nat)
    requires i < SLOTS
    ensures |Name(i)| == 2 && Name(i) != DOTDOT && GoodName(Name(i))
  {
    assert Name(i)[1] == 1 + i / 250 && DOTDOT[1] == 46;
  }

  lemma LinkedEnts(n: nat)
    requires 2 <= n <= SLOTS
    ensures EntsOk(Linked(n)) && DotsOk(Linked(n))
  {
    var T := Linked(n);
    forall k | k in T.ent
      ensures EntOk(T, k)
    {
      EntsAt(n, k);
    }
    EntsAt(n, (1, 0));
    EntsAt(n, (1, 1));
    EntsAt(n, (P, 0));
    EntsAt(n, (P, 1));
  }

  lemma LinkedNames(n: nat)
    requires 2 <= n <= SLOTS
    ensures NamesOk(Linked(n))
  {
    hide Name;
    var T := Linked(n);
    forall k, l | k in T.ent && l in T.ent && k.0 == l.0 && T.ent[k].name == T.ent[l].name
      ensures k == l
    {
      EntsAt(n, k);
      EntsAt(n, l);
      OneName(k, l);
    }
  }

  lemma OneName(k: Slot, l: Slot)
    requires k.0 == l.0 && k.1 < SLOTS && l.1 < SLOTS && (k.0 == P || (k.0 == 1 && k.1 < 4 && l.1 < 4))
    requires NameAt(k) == NameAt(l)
    ensures k == l
  {
    assert k == (k.0, k.1) && l == (l.0, l.1);
    if k.0 == P && k.1 >= 2 {
      NameIs(k.1);
    }
    if l.0 == P && l.1 >= 2 {
      NameIs(l.1);
    }
    if k.0 == P && k.1 >= 2 && l.1 >= 2 {
      NamesDiffer(k.1, l.1);
    }
  }

  function NameAt(k: Slot): seq<Byte>
    requires k.1 < SLOTS && (k.0 == P || (k.0 == 1 && k.1 < 4))
  {
    if k.0 == P && k.1 >= 2 then Name(k.1) else Ents(2)[k].name
  }

  lemma {:induction false} LinkedCounts(n: nat)
    requires 2 <= n <= SLOTS
    ensures CountsOk(Linked(n))
    decreases n
  {
    if n == 2 {
      FirstCounts();
    } else {
      hide CountsOk, Name;
      LinkedCounts(n - 1);
      EntsAt(n - 1, (P, n - 1));
      NameIs(n - 1);
      CountsEntered(Linked(n - 1), (P, n - 1), Ent(F, Name(n - 1)));
      assert Linked(n) == Enter(Linked(n - 1), (P, n - 1), Ent(F, Name(n - 1)));
    }
  }

  lemma FirstCounts()
    ensures CountsOk(Linked(2))
  {
    var T := Linked(2);
    assert LinksTo(T, 1) == {(1, 1), (P, 1)};
    assert LinksTo(T, P) == {(1, 2)};
    assert LinksTo(T, F) == {(1, 3)};
  }

  /** The run starts in a tree. */
  lemma LinkedTree(n: nat)
    requires 2 <= n <= SLOTS
    ensures TreeOk(Linked(n))
  {
    hide Name, EntsOk, NamesOk, CountsOk, DotsOk;
    LinkedEnts(n);
    LinkedNames(n);
    LinkedCounts(n);
    var T := Linked(n);
    EntsAt(n, (1, 1));
    EntsAt(n, (P, 1));
    EntsAt(n, (1, 2));
    forall k | Normal(T, k) && IsDir(T, T.ent[k].inum)
      ensures ParentOk(T, k)
    {
      OnlyP(n, k);
      forall l | Normal(T, l) && T.ent[l].inum == T.ent[k].inum
        ensures l == k
      {
        OnlyP(n, l);
      }
    }
    assert Normal(T, (1, 2)) && HasPlace(T, P);
  }

  lemma OnlyP(n: nat, k: Slot)
    requires 2 <= n <= SLOTS && Normal(Linked(n), k) && IsDir(Linked(n), Linked(n).ent[k].inum)
    ensures k == (1, 2) && Linked(n).ent[k].inum == P
  {
    EntsAt(n, k);
    assert k == (k.0, k.1);
  }

  lemma Makes()
    ensures Does(Linked(SLOTS), Create(ORPHAN, P, SLOTS, [120], T_DIR), Orphaned(SLOTS))
  {
    hide Name;
    var T := Linked(SLOTS);
    forall k: Slot | k in T.ent && k.0 == P
      ensures T.ent[k].name != [120]
    {
      EntsAt(SLOTS, k);
      if k.1 >= 2 {
        NameIs(k.1);
      }
    }
    EntsAt(SLOTS, (P, SLOTS));
    forall s: nat | s < SLOTS
      ensures (P, s) in T.ent
    {
      EntsAt(SLOTS, (P, s));
    }
    assert Orphaned(SLOTS) == Created(T, ORPHAN, T_DIR, (P, SLOTS), [120], false);
  }

  /** A link to F is unlinked. */
  lemma Clears(n: nat)
    requires 2 <= n < SLOTS
    ensures Does(Orphaned(n + 1), Unlink((P, n)), Orphaned(n)) && Guarded(Orphaned(n + 1), Unlink((P, n)))
  {
    hide Name;
    var T := Orphaned(n + 1);
    EntsAt(n, (P, n));
    EntsAt(n + 1, (P, n));
    assert Erase(T, (P, n)).ent == Orphaned(n).ent;
  }

  /** P is empty now, but counts a link from the directory in it: it stays in use when it is unlinked, while its parent
      loses a link. */
  lemma Breaks()
    ensures Does(Orphaned(2), Unlink((1, 2)), Unlinked(Orphaned(2), (1, 2)))
    ensures Guarded(Orphaned(2), Unlink((1, 2))) && !CountsOk(Unlinked(Orphaned(2), (1, 2)))
  {
    var T := Orphaned(2);
    var T' := Unlinked(T, (1, 2));
    assert T'.nlink[1] == 1 && T'.kind[1] != 0;
    assert LinksTo(T', 1) == {(1, 1), (P, 1)};
    assert |{(1, 1), (P, 1)}| == 2;
  }

  ghost function Clearing(n: nat): (Ts: seq<Tree>)
    requires 2 <= n <= SLOTS
    ensures |Ts| == n && Ts[0] == Orphaned(n)
    decreases n
  {
    [Orphaned(n)] + if n == 2 then [Unlinked(Orphaned(2), (1, 2))] else Clearing(n - 1)
  }

  function Unlinks(n: nat): (steps: seq<Step>)
    requires 2 <= n <= SLOTS
    ensures |steps| == n - 1
    decreases n
  {
    if n == 2 then [Unlink((1, 2))] else [Unlink((P, n - 1))] + Unlinks(n - 1)
  }

  lemma {:induction false} ClearingRuns(n: nat)
    requires 2 <= n <= SLOTS
    ensures IsRun(Clearing(n), Unlinks(n)) && AllGuarded(Clearing(n), Unlinks(n))
    ensures !CountsOk(Clearing(n)[n - 1])
    decreases n
  {
    hide Does, Guarded, CountsOk, Orphaned, Unlinked, IsRun, AllGuarded;
    if n == 2 {
      LastRuns();
    } else {
      ClearingRuns(n - 1);
      Clears(n - 1);
      Longer(Orphaned(n), Unlink((P, n - 1)), Clearing(n - 1), Unlinks(n - 1));
    }
  }

  lemma LastRuns()
    ensures IsRun(Clearing(2), Unlinks(2)) && AllGuarded(Clearing(2), Unlinks(2)) && !CountsOk(Clearing(2)[1])
  {
    hide Does, Guarded, CountsOk, Orphaned, Unlinked;
    Breaks();
    assert Clearing(2) == [Orphaned(2), Unlinked(Orphaned(2), (1, 2))] && Unlinks(2) == [Unlink((1, 2))];
  }

  lemma Longer(T: Tree, step: Step, Ts: seq<Tree>, steps: seq<Step>)
    requires IsRun(Ts, steps) && Does(T, step, Ts[0])
    ensures IsRun([T] + Ts, [step] + steps)
    ensures Guarded(T, step) && AllGuarded(Ts, steps) ==> AllGuarded([T] + Ts, [step] + steps)
  {
    hide Does, Guarded;
    var us, qs := [T] + Ts, [step] + steps;
    forall i | 0 <= i < |qs|
      ensures Does(us[i], qs[i], us[i + 1])
    {
      assert i > 0 ==> Does(Ts[i - 1], steps[i - 1], Ts[i - 1 + 1]);
    }
  }

  /** A run that breaks the counts though only empty directories are unlinked: the one step that is not guarded makes a
      directory in a full one. */
  lemma OrphanBreaksCounts() returns (Ts: seq<Tree>, steps: seq<Step>)
    ensures IsRun(Ts, steps) && TreeOk(Ts[0]) && !CountsOk(Ts[|steps|])
    ensures steps[0] == Create(ORPHAN, P, SLOTS, [120], T_DIR) && AllGuarded(Ts[1..], steps[1..])
  {
    hide Does, Guarded, CountsOk, TreeOk;
    Ts, steps := [Linked(SLOTS)] + Clearing(SLOTS), [Create(ORPHAN, P, SLOTS, [120], T_DIR)] + Unlinks(SLOTS);
    LinkedTree(SLOTS);
    Makes();
    ClearingRuns(SLOTS);
    Longer(Linked(SLOTS), steps[0], Clearing(SLOTS), Unlinks(SLOTS));
    assert Ts[1..] == Clearing(SLOTS) && steps[1..] == Unlinks(SLOTS);
  }
}
