/** Linked lists with a list of free nodes, as `0014/kernel/timer.c` and `0005/kernel/kheap.c` keep them. */
module Lists {
  /** The data of a node: the deadline and the callback of a timeout, or the address and the size of a hole. */
  datatype Item = Item(key: nat, value: nat)

  // Sorted lists as values

  predicate Sorted(q: seq<Item>) {
    forall i, j :: 0 <= i < j < |q| ==> q[i].key <= q[j].key
  }

  /** The place of a new item: in front of the first with the same or a later key, except that the head keeps its place
      among equals. */
  function Place(q: seq<Item>, key: nat): (k: nat)
    ensures k <= |q|
  {
    if q == [] || key < q[0].key then 0 else 1 + Later(q[1..], key)
  }

  function Later(q: seq<Item>, key: nat): (k: nat)
    ensures k <= |q| && (k < |q| ==> q[k].key >= key)
    ensures forall i :: 0 <= i < k ==> q[i].key < key
  {
    if q != [] && q[0].key < key then 1 + Later(q[1..], key) else 0
  }

  function Inserted(q: seq<Item>, t: Item): seq<Item> {
    var k := Place(q, t.key);
    q[..k] + [t] + q[k..]
  }

  /** In front of the place are no greater items, behind it no smaller ones. */
  lemma PlaceBetween(q: seq<Item>, key: nat)
    requires Sorted(q)
    ensures forall i :: 0 <= i < Place(q, key) ==> q[i].key <= key
    ensures forall i :: Place(q, key) <= i < |q| ==> key <= q[i].key
  {
    var k := Place(q, key);
    if k > 0 {
      var rest := q[1..];
      assert forall i :: 1 <= i < |q| ==> q[i] == rest[i - 1];
    }
  }

  lemma SortedAt(q: seq<Item>, k: nat, t: Item)
    requires Sorted(q) && k <= |q|
    requires forall i :: 0 <= i < k ==> q[i].key <= t.key
    requires forall i :: k <= i < |q| ==> t.key <= q[i].key
    ensures Sorted(q[..k] + [t] + q[k..])
  {
    var r := q[..k] + [t] + q[k..];
    assert forall i :: 0 <= i < |r| ==> r[i] == if i < k then q[i] else if i == k then t else q[i - 1];
  }

  /** A new item goes where it keeps the list sorted. */
  lemma InsertedSorted(q: seq<Item>, t: Item)
    requires Sorted(q)
    ensures Sorted(Inserted(q, t)) && multiset(Inserted(q, t)) == multiset(q) + multiset{t}
  {
    hide Place, Sorted;
    var k := Place(q, t.key);
    PlaceBetween(q, t.key);
    SortedAt(q, k, t);
    ItemsAt(q, k, t);
  }

  lemma ItemsAt(q: seq<Item>, k: nat, t: Item)
    requires k <= |q|
    ensures multiset(q[..k] + [t] + q[k..]) == multiset(q) + multiset{t}
  {
    assert q == q[..k] + q[k..];
  }

  lemma SortedRest(q: seq<Item>, k: nat)
    requires Sorted(q) && k <= |q|
    ensures Sorted(q[k..])
  {
    forall i, j | 0 <= i < j < |q| - k
      ensures q[k..][i].key <= q[k..][j].key
    {
      assert q[k + i].key <= q[k + j].key;
    }
  }

  class Node {
    var pnext: Node?
    var key: nat
    var value: nat

    constructor ()
    {
      pnext, key, value := null, 0, 0;
    }
  }

  ghost predicate Link(s: seq<Node>, i: nat)
    reads s
    requires i < |s|
  {
    s[i].pnext == if i + 1 < |s| then s[i + 1] else null
  }

  /** The nodes of s are linked in this order. */
  ghost predicate Chain(head: Node?, s: seq<Node>)
    reads s
  {
    (head == if s == [] then null else s[0]) && forall i :: 0 <= i < |s| ==> Link(s, i)
  }

  lemma Linked(head: Node?, s: seq<Node>, i: nat)
    requires Chain(head, s) && i < |s|
    ensures head == s[0] && s[i].pnext == if i + 1 < |s| then s[i + 1] else null
  {
    assert Link(s, i);
  }

  lemma Pushed(p: Node, head: Node?, s: seq<Node>)
    requires Chain(head, s) && p.pnext == head
    ensures Chain(p, [p] + s)
  {
    var r := [p] + s;
    forall i | 0 <= i < |r|
      ensures Link(r, i)
    {
      if i > 0 {
        assert Link(s, i - 1);
      }
    }
  }

  ghost predicate Distinct(s: seq<Node>) {
    forall i, j :: 0 <= i < j < |s| ==> s[i] != s[j]
  }

  ghost predicate Apart(s: seq<Node>, t: seq<Node>) {
    forall n :: n in s ==> n !in t
  }

  ghost function Data(s: seq<Node>): (q: seq<Item>)
    reads s
    ensures |q| == |s| && forall i :: 0 <= i < |s| ==> q[i] == Item(s[i].key, s[i].value)
  {
    seq(|s|, i requires 0 <= i < |s| reads s => Item(s[i].key, s[i].value))
  }

  class Pool {
    var pfree: Node?
    var phead: Node?
    /** The nodes of the two lists. */
    ghost var active: seq<Node>
    ghost var free: seq<Node>

    ghost predicate Valid()
      reads this, active, free
    {
      Chain(phead, active) && Chain(pfree, free) && Distinct(active) && Distinct(free) && Apart(active, free)
    }

    ghost function Nodes(): set<Node>
      reads this
    {
      (set n | n in active) + (set n | n in free)
    }

    /** n nodes, all of them free. */
    constructor (n: nat)
      ensures Valid() && active == [] && |free| == n
      ensures forall p :: p in free ==> fresh(p)
    {
      pfree, phead, active, free := null, null, [], [];
      new;
      var i := 0;
      while i < n
        invariant 0 <= i <= n && |free| == i && active == [] && phead == null
        invariant Chain(pfree, free) && Distinct(free) && forall p :: p in free ==> fresh(p)
      {
        var p := new Node();
        assert p !in free;
        p.pnext := pfree;
        Pushed(p, pfree, free);
        pfree := p;
        free := [p] + free;
        i := i + 1;
      }
    }

    /** The first free node, if there is one. */
    method TakeNode() returns (p: Node?)
      requires Valid()
      modifies this`pfree, this`free
      ensures Valid() && active == old(active) && phead == old(phead)
      ensures p == null ==> old(free) == [] == free
      ensures p != null ==> old(free) != [] && p == old(free)[0] && free == old(free)[1..] && p !in active && p !in free
    {
      p := pfree;
      if p != null {
        Popped(p, free);
        pfree := p.pnext;
        free := free[1..];
      }
    }

    method PutInPlace(p: Node, ghost q: seq<Item>, ghost t: Item)
      requires Valid() && p !in active && p !in free && q == Data(active) && t == Item(p.key, p.value)
      modifies this`phead, this`active, p`pnext, active`pnext
      ensures Valid() && Data(active) == Inserted(q, t) && free == old(free)
      ensures active == old(With(active, Place(q, t.key), p))
    {
      hide Sorted, Place;
      var prev := FindPlace(p.key);
      ghost var k := Place(q, p.key);
      assert Data(With(active, k, p)) == Inserted(q, t);
      LinkIn(p, prev, k);
    }

    method SetData(p: Node, key: nat, value: nat)
      requires Valid()
      modifies p`key, p`value
      ensures Valid() && p.key == key && p.value == value
      ensures p !in active ==> Data(active) == old(Data(active))
      ensures forall i :: 0 <= i < |active| && active[i] == p ==> Data(active) == old(Data(active))[i := Item(key, value)]
    {
      ghost var q := Data(active);
      p.key, p.value := key, value;
      assert p !in active ==> Data(active) == q;
      assert forall i :: 0 <= i < |active| ==> old(Link(active, i)) ==> Link(active, i);
      assert forall i :: 0 <= i < |free| ==> old(Link(free, i)) ==> Link(free, i);
    }

    /** The node of place k leaves the list and becomes free. */
    method Unlink(p: Node, ghost k: nat)
      requires Valid() && k < |active| && active[k] == p
      modifies this, active`pnext
      ensures Valid() && active == Without(old(active), k) && free == [p] + old(free)
      ensures Data(active) == Without(old(Data(active)), k)
    {
      hide Chain, Distinct, Apart, Link;
      ghost var s, q := active, Data(active);
      WithoutNodes(s, free, k);
      var prev := FindPrevious(p, k);
      Bypass(p, prev, k);
      assert Data(s) == q;
      DataWithout(s, k);
      PutFree(p, Without(s, k));
    }

    /** The free list gets a node that is in no list. */
    method PutFree(p: Node, ghost s: seq<Node>)
      requires Chain(phead, s) && Chain(pfree, free) && Distinct(s) && Distinct([p] + free) && Apart(s, [p] + free)
      modifies this`pfree, this`active, this`free, p`pnext
      ensures Valid() && active == s && free == [p] + old(free) && Data(s) == old(Data(s))
    {
      ghost var f := free;
      assert ([p] + f)[0] == p && forall i :: 0 <= i < |f| ==> ([p] + f)[i + 1] == f[i];
      assert p !in f && p !in s;
      p.pnext := pfree;
      assert forall i :: 0 <= i < |f| ==> old(Link(f, i)) && f[i] in f ==> Link(f, i);
      assert forall i :: 0 <= i < |s| ==> old(Link(s, i)) && s[i] in s ==> Link(s, i);
      Pushed(p, pfree, f);
      pfree := p;
      active, free := s, [p] + f;
    }

    /** The node in front of p, or none. */
    method FindPrevious(p: Node, ghost k: nat) returns (prev: Node?)
      requires Valid() && k < |active| && active[k] == p
      ensures prev == if k == 0 then null else active[k - 1]
    {
      var ptr := phead;
      if ptr == p {
        return null;
      }
      ghost var j := 0;
      assert Link(active, 0);
      while ptr.pnext != null && ptr.pnext != p
        invariant 0 <= j < k && ptr == active[j] && Link(active, j)
        decreases k - j
      {
        ptr := ptr.pnext;
        j := j + 1;
        assert Link(active, j);
      }
      prev := ptr;
    }

    method Bypass(p: Node, prev: Node?, ghost k: nat)
      requires Valid() && k < |active| && active[k] == p
      requires prev == if k == 0 then null else active[k - 1]
      modifies this`phead, active`pnext
      ensures Chain(phead, Without(active, k)) && Chain(pfree, free)
    {
      ghost var r := Without(active, k);
      assert Link(active, k);
      if prev == null {
        phead := p.pnext;
      } else {
        prev.pnext := p.pnext;
      }
      forall i | 0 <= i < |r|
        ensures Link(r, i)
      {
        assert old(Link(active, if i < k then i else i + 1));
      }
      assert forall i :: 0 <= i < |free| ==> old(Link(free, i)) && free[i] in free ==> Link(free, i);
    }

    /** The node to insert behind, or none for the front. */
    method FindPlace(key: nat) returns (prev: Node?)
      requires Valid()
      ensures var k := Place(Data(active), key); prev == if k == 0 then null else active[k - 1]
    {
      ghost var q := Data(active);
      assert active != [] ==> phead == active[0] && q[0].key == phead.key;
      if phead == null || key < phead.key {
        return null;
      }
      var ptr: Node := phead;
      ghost var k := 1;
      assert Link(active, 0);
      while ptr.pnext != null && ptr.pnext.key < key
        invariant 1 <= k <= |active| && ptr == active[k - 1] && Link(active, k - 1)
        invariant Place(q, key) == k + Later(q[k..], key)
        decreases |active| - k
      {
        assert q[k..][0] == q[k] && q[k..][1..] == q[k + 1..];
        ptr := ptr.pnext;
        assert Link(active, k);
        k := k + 1;
      }
      assert k < |active| ==> q[k..][0] == q[k];
      prev := ptr;
    }

    /** The links of the new node, k being its place. */
    method LinkIn(p: Node, prev: Node?, ghost k: nat)
      requires Valid() && k <= |active| && p !in active && p !in free
      requires prev == if k == 0 then null else active[k - 1]
      modifies this`phead, this`active, p`pnext, active`pnext
      ensures Valid() && active == old(With(active, k, p)) && free == old(free)
      ensures Data(active) == old(Data(With(active, k, p)))
    {
      ghost var r := With(active, k, p);
      ghost var f := free;
      WithNodes(active, k, p, free);
      Relink(p, prev, k);
      forall i | 0 <= i < |f|
        ensures Link(f, i)
      {
        assert old(Link(f, i)) && f[i] in f && f[i] !in old(active) && f[i] != p;
      }
      assert Data(r) == old(Data(r));
      active := r;
    }

    method Relink(p: Node, prev: Node?, ghost k: nat)
      requires Chain(phead, active) && Distinct(active) && k <= |active| && p !in active
      requires prev == if k == 0 then null else active[k - 1]
      modifies this`phead, p`pnext, active`pnext
      ensures Chain(phead, With(active, k, p))
    {
      ghost var r := With(active, k, p);
      if k > 0 {
        assert Link(active, k - 1);
      }
      if prev == null {
        p.pnext := phead;
        phead := p;
      } else {
        p.pnext := prev.pnext;
        prev.pnext := p;
      }
      forall i | 0 <= i < |r|
        ensures Link(r, i)
      {
        if i < k - 1 {
          assert old(Link(active, i));
        } else if i > k {
          assert old(Link(active, i - 1));
        }
      }
    }

    /** The first k nodes go to the front of the free list in one piece, ptr being the last of them. */
    method ReleaseFront(ptr: Node, ghost k: nat)
      requires Valid() && 0 < k <= |active| && ptr == active[k - 1]
      modifies this, ptr`pnext
      ensures Valid() && active == old(active)[k..] && free == old(active)[..k] + old(free)
      ensures Data(active) == old(Data(active))[k..]
    {
      hide Link;
      ghost var s, f := active, free;
      MovedNodes(s, f, k);
      RelinkFront(ptr, k);
      assert Data(s) == old(Data(s)) && Data(s[k..]) == Data(s)[k..];
      active, free := s[k..], s[..k] + f;
    }

    method RelinkFront(ptr: Node, ghost k: nat)
      requires Valid() && 0 < k <= |active| && ptr == active[k - 1]
      modifies this`phead, this`pfree, ptr`pnext
      ensures Chain(phead, active[k..]) && Chain(pfree, active[..k] + free)
    {
      ghost var s, f := active, free;
      assert Link(s, k - 1);
      var p := phead;
      phead := ptr.pnext;
      ptr.pnext := pfree;
      pfree := p;
      ghost var r := s[..k] + f;
      forall i | 0 <= i < |s| - k
        ensures Link(s[k..], i)
      {
        assert old(Link(s, k + i)) && s[k + i] != ptr;
      }
      forall i | 0 <= i < |r|
        ensures Link(r, i)
      {
        if i < k - 1 {
          assert old(Link(s, i)) && s[i] != ptr;
        } else if i >= k {
          assert old(Link(f, i - k)) && ptr in s && f[i - k] in f;
        }
      }
    }
  }

  lemma HeadIs(head: Node?, s: seq<Node>)
    requires Chain(head, s)
    ensures head == if s == [] then null else s[0]
  {
  }

  ghost function With(s: seq<Node>, k: nat, p: Node): (r: seq<Node>)
    requires k <= |s|
    ensures |r| == |s| + 1 && forall i :: 0 <= i < |r| ==> r[i] == if i < k then s[i] else if i == k then p else s[i - 1]
  {
    s[..k] + [p] + s[k..]
  }

  ghost function Without<T>(s: seq<T>, k: nat): (r: seq<T>)
    requires k < |s|
    ensures |r| == |s| - 1 && forall i :: 0 <= i < |r| ==> r[i] == if i < k then s[i] else s[i + 1]
  {
    s[..k] + s[k + 1..]
  }

  lemma DataWithout(s: seq<Node>, k: nat)
    requires k < |s|
    ensures Data(Without(s, k)) == Without(Data(s), k)
  {
    assert Data(Without(s, k)) == Data(s)[..k] + Data(s)[k + 1..];
  }

  lemma WithoutNodes(s: seq<Node>, f: seq<Node>, k: nat)
    requires k < |s| && Distinct(s) && Distinct(f) && Apart(s, f)
    ensures Distinct(Without(s, k)) && Distinct([s[k]] + f) && Apart(Without(s, k), [s[k]] + f)
    ensures forall n :: n in s <==> n in Without(s, k) || n == s[k]
  {
    assert s == s[..k] + [s[k]] + s[k + 1..];
    assert s[k] in s;
    forall n | n in Without(s, k)
      ensures n in s && n != s[k]
    {
      var i :| 0 <= i < |s| - 1 && Without(s, k)[i] == n;
    }
  }

  lemma MovedNodes(s: seq<Node>, f: seq<Node>, k: nat)
    requires k <= |s| && Distinct(s) && Distinct(f) && Apart(s, f)
    ensures Distinct(s[k..]) && Distinct(s[..k] + f) && Apart(s[k..], s[..k] + f)
  {
    var r := s[..k] + f;
    forall i, j | 0 <= i < j < |r|
      ensures r[i] != r[j]
    {
      if i < k <= j {
        assert r[i] in s && r[j] in f;
      }
    }
    forall n | n in s[k..]
      ensures n !in r
    {
      var i :| k <= i < |s| && s[i] == n;
      assert n in s;
    }
  }

  lemma WithMembers(s: seq<Node>, k: nat, p: Node)
    requires k <= |s|
    ensures forall n :: n in With(s, k, p) <==> n in s || n == p
  {
    assert s == s[..k] + s[k..];
  }

  lemma WithNodes(s: seq<Node>, k: nat, p: Node, t: seq<Node>)
    requires k <= |s| && p !in s && p !in t && Distinct(s) && Apart(s, t)
    ensures Distinct(With(s, k, p)) && Apart(With(s, k, p), t)
  {
  }

  lemma Popped(p: Node, s: seq<Node>)
    requires Chain(p, s) && Distinct(s)
    ensures s != [] && p == s[0] && Chain(p.pnext, s[1..]) && Distinct(s[1..]) && p !in s[1..]
    ensures forall n :: n in s[1..] ==> n in s
  {
    assert Link(s, 0);
    forall i | 0 <= i < |s| - 1
      ensures Link(s[1..], i)
    {
      assert Link(s, i + 1);
    }
  }
}
