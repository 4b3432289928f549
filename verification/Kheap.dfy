/** `0005/kernel/kheap.c`: the heap of pages, and that of small holes beside it. */
module Kheaps {
  import opened Lists
  import opened Holes

  const MAX_HEAP_HOLE: nat := 10
  const MAX_SMALL_HOLE: nat := 100
  const PAGE_4K: nat := 0x1000
  const PAGE_SIZE: nat := 0x20_0000
  const SCRAP: nat := 16

  /** A size in whole pages, in 64 bits. */
  function Aligned(size: nat): (r: nat) {
    if size % PAGE_4K != 0 then (size - size % PAGE_4K + PAGE_4K) % 0x1_0000_0000_0000_0000 else size
  }

  /** The rounded size has room for the request, except when the rounding overflows: then nothing is allocated. */
  lemma AlignedRoom(size: nat)
    requires size < 0x1_0000_0000_0000_0000
    ensures Aligned(size) % PAGE_4K == 0
    ensures Aligned(size) >= size <==> size <= 0x1_0000_0000_0000_0000 - PAGE_4K
    ensures Aligned(size) < size <==> Aligned(size) == 0 && size > 0
    ensures Aligned(size) >= size ==> forall m: nat :: m % PAGE_4K == 0 && m >= size ==> Aligned(size) <= m
  {
  }

  datatype Outcome = Got(addr: nat) | NoMemory | Panic

  // Where the bytes are

  /** The holes of the two heaps, what was donated to them, what was handed out, the bytes that were given up, and the
      number of small holes that were retired. */
  datatype Account = Account(big: seq<Item>, small: seq<Item>, donated: seq<Item>, handed: seq<Item>,
                                   dropped: multiset<nat>, retired: nat)

  /** Each donated byte is in one place, at most SCRAP of them are lost with a retired hole, and the page-sized holes are
      in order when no byte was donated twice. */
  ghost predicate Balanced(a: Account) {
    && Covered(a.donated) == Covered(a.big) + Covered(a.small) + Covered(a.handed) + a.dropped
    && |a.dropped| <= SCRAP * a.retired
    && (Clean(a.donated) ==> Spaced(a.big))
  }

  /** No byte of a hole or of a handed range is in another one. */
  lemma Safe(a: Account)
    requires Balanced(a) && Clean(a.donated)
    ensures Sorted(a.big)
    ensures var all := a.big + a.small + a.handed; forall i, j :: 0 <= i < j < |all| ==> Disjoint(all[i], all[j])
  {
    hide Covered, Spaced, Sorted;
    var all := a.big + a.small + a.handed;
    SpacedSorted(a.big);
    CoveredConcat(a.big + a.small, a.handed);
    CoveredConcat(a.big, a.small);
    assert Covered(a.donated) == Covered(all) + a.dropped;
    OncePart(Covered(a.donated), Covered(all), a.dropped);
    forall i, j | 0 <= i < j < |all|
      ensures Disjoint(all[i], all[j])
    {
      OnceDisjoint(all, i, j);
    }
  }

  lemma OncePart(m: multiset<nat>, a: multiset<nat>, b: multiset<nat>)
    requires Once(m) && m == a + b
    ensures Once(a)
  {
    forall x
      ensures a[x] <= 1
    {
      assert m[x] <= 1;
    }
  }

  /** The donated bytes are those in holes and those handed out, and at most SCRAP for each retired hole. */
  lemma Conserved(a: Account)
    requires Balanced(a)
    ensures var kept := Total(a.big) + Total(a.small) + Total(a.handed);
            kept <= Total(a.donated) <= kept + SCRAP * a.retired
  {
    hide Covered, Total;
    CoveredSize(a.donated);
    CoveredSize(a.big);
    CoveredSize(a.small);
    CoveredSize(a.handed);
  }

  lemma DonatedBig(a: Account, h: Item)
    requires Balanced(a)
    ensures Balanced(a.(big := Inserted(a.big, h), donated := a.donated + [h]))
  {
    hide Covered, Span, Spaced, Clean, Place, Sorted;
    CoveredConcat(a.donated, [h]);
    CoveredOne(h);
    CoveredInserted(a.big, Place(a.big, h.key), h);
    Shift(Covered(a.big), Span(h.key, h.value), Covered(a.small), Covered(a.handed), a.dropped);
    if Clean(a.donated + [h]) {
      CleanFront(a.donated, h);
      forall i | 0 <= i < |a.big|
        ensures Disjoint(h, a.big[i])
      {
        NewApart(a.donated, h, a.big, i);
      }
      InsertedSpaced(a.big, h);
    }
  }

  lemma DonatedSmall(a: Account, h: Item)
    requires Balanced(a)
    ensures Balanced(a.(small := [h] + a.small, donated := a.donated + [h]))
  {
    hide Covered, Span, Spaced, Clean;
    CoveredConcat(a.donated, [h]);
    CoveredOne(h);
    CoveredFirst(h, a.small);
    Shift(Covered(a.big), Span(h.key, h.value), Covered(a.small), Covered(a.handed), a.dropped);
    if Clean(a.donated + [h]) {
      CleanFront(a.donated, h);
    }
  }

  lemma HandedBig(a: Account, k: nat, size: nat)
    requires Balanced(a) && k < |a.big| && size <= a.big[k].value
    ensures Balanced(Took4k(a, k, size))
  {
    hide Covered, Span, Spaced, Clean, Carved, Scrap;
    CarvedCovered(a.big, k, size, 0);
    CoveredConcat(a.handed, [Item(a.big[k].key, size)]);
    CoveredOne(Item(a.big[k].key, size));
    if Clean(a.donated) {
      CarvedSpaced(a.big, k, size);
    }
  }

  lemma HandedSmall(a: Account, k: nat, size: nat)
    requires Balanced(a) && k < |a.small| && size <= a.small[k].value
    ensures Balanced(TookSmall(a, k, size))
  {
    hide Covered, Span, Spaced, Clean, Carved;
    CarvedCovered(a.small, k, size, SCRAP);
    CoveredConcat(a.handed, [Item(a.small[k].key, size)]);
    CoveredOne(Item(a.small[k].key, size));
  }

  /** 1 when the hole does not survive. */
  function Retired(h: Item, size: nat): nat {
    if h.value <= size + SCRAP then 1 else 0
  }

  lemma PageMoved(a: Account, handed: seq<Item>, h: Item)
    requires Balanced(a) && a.handed == handed + [h]
    ensures Balanced(a.(small := [h] + a.small, handed := handed))
  {
    hide Covered, Span, Spaced, Clean;
    CoveredConcat(handed, [h]);
    CoveredOne(h);
    CoveredFirst(h, a.small);
  }

  lemma Shift(a: multiset<nat>, n: multiset<nat>, b: multiset<nat>, c: multiset<nat>, d: multiset<nat>)
    ensures (a + b + c + d) + n == (a + n) + b + c + d == a + (n + b) + c + d
    ensures a <= a + b + c + d
  {
  }

  // The operations on the account

  function Donate4k(a: Account, h: Item): Account {
    if |a.big| >= MAX_HEAP_HOLE then a else a.(big := Inserted(a.big, h), donated := a.donated + [h])
  }

  function DonateSmall(a: Account, h: Item): Account {
    if |a.small| >= MAX_SMALL_HOLE then a else a.(small := [h] + a.small, donated := a.donated + [h])
  }

  function Took4k(a: Account, k: nat, size: nat): Account
    requires k < |a.big| && size <= a.big[k].value
  {
    a.(big := Carved(a.big, k, size, 0), handed := a.handed + [Item(a.big[k].key, size)])
  }

  function TookSmall(a: Account, k: nat, size: nat): Account
    requires k < |a.small| && size <= a.small[k].value
  {
    var h := a.small[k];
    a.(small := Carved(a.small, k, size, SCRAP), handed := a.handed + [Item(h.key, size)],
       dropped := a.dropped + Scrap(h, size, SCRAP), retired := a.retired + Retired(h, size))
  }

  /** An account, the outcome, and the physical pages that are still to come, a 0 being a failure. */
  datatype Run = Run(account: Account, outcome: Outcome, rest: seq<nat>)

  /** `alloc_kheap_4k` of a size in whole pages. */
  function Allocate4k(a: Account, size: nat, pages: seq<nat>): Run
    decreases |pages|
  {
    var k := FirstFit(a.big, size);
    if k < |a.big| then Run(Took4k(a, k, size), Got(a.big[k].key), pages)
    else if pages == [] || pages[0] == 0 then Run(a, NoMemory, pages)
    else if |a.big| >= MAX_HEAP_HOLE then Run(a, Panic, pages)
    else Allocate4k(Donate4k(a, Item(pages[0], PAGE_SIZE)), size, pages[1..])
  }

  /** The cases. */
  lemma AllocateStep(a: Account, size: nat, pages: seq<nat>)
    ensures var k := FirstFit(a.big, size);
            && (k < |a.big| ==> Allocate4k(a, size, pages) == Run(Took4k(a, k, size), Got(a.big[k].key), pages))
            && (k == |a.big| ==> Allocate4k(a, size, pages) ==
                                 if pages == [] || pages[0] == 0 then Run(a, NoMemory, pages)
                                 else if |a.big| >= MAX_HEAP_HOLE then Run(a, Panic, pages)
                                 else Allocate4k(Donate4k(a, Item(pages[0], PAGE_SIZE)), size, pages[1..]))
  {
  }

  /** `alloc_kheap_small` */
  function AllocateSmall(a: Account, size: nat, pages: seq<nat>): Run
    requires size < PAGE_4K
  {
    var k := FirstFit(a.small, size);
    if k < |a.small| then Run(TookSmall(a, k, size), Got(a.small[k].key), pages)
    else
      var r := Allocate4k(a, PAGE_4K, pages);
      AllocateHands(a, PAGE_4K, pages);
      if !FromPage(r).Got? then r.(outcome := FromPage(r))
      else Run(TookSmall(Refilled(r.account), 0, size), r.outcome, r.rest)
  }

  /** A page at address 0 counts as none. */
  function FromPage(r: Run): Outcome {
    if r.outcome.Got? && r.outcome.addr == 0 then NoMemory
    else if r.outcome.Got? && |r.account.small| >= MAX_SMALL_HOLE then Panic
    else r.outcome
  }

  /** What is handed out is a range of the size that was asked for; nothing else is handed out, and the small holes stay
      as they are. */
  lemma {:induction false} AllocateHands(a: Account, size: nat, pages: seq<nat>)
    ensures var r := Allocate4k(a, size, pages);
            && r.account.handed == a.handed + (if r.outcome.Got? then [Item(r.outcome.addr, size)] else [])
            && r.account.small == a.small && r.account.dropped == a.dropped && r.account.retired == a.retired
            && a.donated <= r.account.donated
    decreases |pages|
  {
    if FirstFit(a.big, size) == |a.big| && pages != [] && pages[0] != 0 && |a.big| < MAX_HEAP_HOLE {
      AllocateHands(Donate4k(a, Item(pages[0], PAGE_SIZE)), size, pages[1..]);
    }
  }

  /** b is what one refill for a request that no small hole had room for makes of a. */
  predicate Refills(a: Account, size: nat, pages: seq<nat>, b: Account, rest: seq<nat>) {
    var r := Allocate4k(a, PAGE_4K, pages);
    FirstFit(a.small, size) == |a.small| && FromPage(r).Got? && b == Refilled(r.account) && rest == r.rest
  }

  /** After a refill the first hole has room. */
  lemma RefillsOnce(a: Account, size: nat, pages: seq<nat>)
    requires size < PAGE_4K && FirstFit(a.small, size) == |a.small|
    ensures var r := Allocate4k(a, PAGE_4K, pages);
            var b := Refilled(r.account);
            FromPage(r).Got? ==> Refills(a, size, pages, b, r.rest) && FirstFit(b.small, size) == 0 < |b.small|
  {
    AllocateHands(a, PAGE_4K, pages);
  }

  lemma SmallCases(a: Account, size: nat, pages: seq<nat>)
    requires size < PAGE_4K
    ensures var k, r := FirstFit(a.small, size), Allocate4k(a, PAGE_4K, pages);
            && (k < |a.small| ==> AllocateSmall(a, size, pages) == Run(TookSmall(a, k, size), Got(a.small[k].key), pages))
            && (k == |a.small| && !FromPage(r).Got? ==> AllocateSmall(a, size, pages) == r.(outcome := FromPage(r)))
    ensures forall b, rest :: Refills(a, size, pages, b, rest) ==>
              && FirstFit(b.small, size) == 0 < |b.small|
              && AllocateSmall(a, size, pages) == Run(TookSmall(b, 0, size), Got(b.small[0].key), rest)
  {
    AllocateHands(a, PAGE_4K, pages);
  }

  /** The page that was handed out last becomes a small hole. */
  function Refilled(a: Account): Account {
    if a.handed == [] then a
    else
      var n := |a.handed| - 1;
      a.(small := [a.handed[n]] + a.small, handed := a.handed[..n])
  }

  // The steps on one list

  /** `free_kheap_4k` */
  method Insert(lists: Pool, addr: nat, size: nat) returns (ok: bool)
    requires lists.Valid()
    modifies lists, lists.Nodes()
    ensures lists.Valid() && lists.Nodes() == old(lists.Nodes())
    ensures |lists.active| + |lists.free| == old(|lists.active| + |lists.free|)
    ensures ok == (old(lists.free) != [])
    ensures Data(lists.active) == if ok then Inserted(old(Data(lists.active)), Item(addr, size)) else old(Data(lists.active))
  {
    hide Chain, Distinct, Apart, Place, Inserted;
    ghost var s, q := lists.active, Data(lists.active);
    var p := lists.TakeNode();
    if p == null {
      return false;
    }
    assert Data(lists.active) == q;
    lists.SetData(p, addr, size);
    lists.PutInPlace(p, q, Item(addr, size));
    WithMembers(s, Place(q, addr), p);
    ok := true;
  }

  /** `free_kheap_small` */
  method Push(lists: Pool, addr: nat, size: nat) returns (ok: bool)
    requires lists.Valid()
    modifies lists, lists.Nodes()
    ensures lists.Valid() && lists.Nodes() == old(lists.Nodes())
    ensures |lists.active| + |lists.free| == old(|lists.active| + |lists.free|)
    ensures ok == (old(lists.free) != [])
    ensures Data(lists.active) == (if ok then [Item(addr, size)] else []) + old(Data(lists.active))
  {
    hide Chain, Distinct, Apart, Link;
    ghost var s, q := lists.active, Data(lists.active);
    var p := lists.TakeNode();
    if p == null {
      return false;
    }
    assert Data(lists.active) == q;
    lists.SetData(p, addr, size);
    WithMembers(s, 0, p);
    WithFirst(s, p, q);
    hide With, Data;
    lists.LinkIn(p, null, 0);
    ok := true;
  }

  lemma WithFirst(s: seq<Node>, p: Node, q: seq<Item>)
    requires Data(s) == q
    ensures Data(With(s, 0, p)) == [Item(p.key, p.value)] + q && |With(s, 0, p)| == |s| + 1
  {
  }

  method FindFit(lists: Pool, size: nat) returns (p: Node?)
    requires lists.Valid()
    ensures var k := FirstFit(Data(lists.active), size); p == if k < |lists.active| then lists.active[k] else null
  {
    hide Distinct, Apart;
    ghost var q, k := Data(lists.active), 0;
    assert q[0..] == q;
    p := lists.phead;
    while p != null && p.value < size
      invariant k <= |q| && FirstFit(q, size) == k + FirstFit(q[k..], size)
      invariant p == if k < |q| then lists.active[k] else null
      decreases |q| - k
    {
      assert q[k..][0] == q[k] && q[k..][1..] == q[k + 1..];
      assert Link(lists.active, k);
      p := p.pnext;
      k := k + 1;
    }
    assert k < |q| ==> q[k..][0] == q[k];
  }

  /** The end of both allocations: the size is taken from the front of the hole, which is given up when no more than the
      limit is left. */
  method Carve(lists: Pool, p: Node, ghost k: nat, size: nat, limit: nat) returns (addr: nat)
    requires lists.Valid() && k < |lists.active| && lists.active[k] == p && size <= p.value
    modifies lists, lists.Nodes()
    ensures lists.Valid() && lists.Nodes() == old(lists.Nodes())
    ensures |lists.active| + |lists.free| == old(|lists.active| + |lists.free|)
    ensures addr == old(p.key) && Data(lists.active) == Carved(old(Data(lists.active)), k, size, limit)
  {
    hide Chain, Distinct, Apart, Data;
    ghost var s := lists.active;
    lists.SetData(p, p.key, p.value - size);
    if p.value <= limit {
      WithoutNodes(s, [], k) by { Listed(lists); }
      lists.Unlink(p, k);
    }
    addr := p.key;
    lists.SetData(p, p.key + size, p.value);
  }

  lemma Listed(lists: Pool)
    requires lists.Valid()
    ensures Distinct(lists.active) && Apart(lists.active, [])
  {
  }

  class Heap {
    const big: Pool
    const small: Pool
    ghost var donated: seq<Item>
    ghost var handed: seq<Item>
    ghost var dropped: multiset<nat>
    ghost var retired: nat

    ghost function State(): Account
      reads this, big, small, big.Nodes(), small.Nodes()
    {
      Account(Data(big.active), Data(small.active), donated, handed, dropped, retired)
    }

    ghost predicate Valid()
      reads this, big, small, big.Nodes(), small.Nodes()
    {
      && big != small && big.Nodes() !! small.Nodes() && big.Valid() && small.Valid()
      && |big.active| + |big.free| == MAX_HEAP_HOLE && |small.active| + |small.free| == MAX_SMALL_HOLE
      && Balanced(State())
    }

    /** `init_kheap` */
    constructor ()
      ensures Valid() && fresh(big) && fresh(small) && fresh(big.Nodes()) && fresh(small.Nodes())
      ensures State() == Account([], [], [], [], multiset{}, 0)
    {
      big := new Pool(MAX_HEAP_HOLE);
      small := new Pool(MAX_SMALL_HOLE);
      donated, handed, dropped, retired := [], [], multiset{}, 0;
    }

    method Free4k(addr: nat, size: nat) returns (ok: bool)
      requires Valid() && addr % PAGE_4K == 0 && size % PAGE_4K == 0
      modifies this, big, big.Nodes()
      ensures Valid() && big.Nodes() == old(big.Nodes())
      ensures State() == Donate4k(old(State()), Item(addr, size)) && ok == (|old(State()).big| < MAX_HEAP_HOLE)
      ensures ok ==> State().big == Inserted(old(State()).big, Item(addr, size)) && State().small == old(State()).small
      ensures !ok ==> State() == old(State())
    {
      hide Covered, Span, Spaced, Clean, Inserted, Balanced, Chain, Distinct, Apart;
      ghost var a := State();
      ok := Insert(big, addr, size);
      if ok {
        donated := donated + [Item(addr, size)];
        DonatedBig(a, Item(addr, size));
      }
      assert State() == Donate4k(a, Item(addr, size));
    }

    method FreeSmall(addr: nat, size: nat) returns (ok: bool)
      requires Valid() && addr % PAGE_4K == 0 && size % PAGE_4K == 0
      modifies this, small, small.Nodes()
      ensures Valid() && small.Nodes() == old(small.Nodes())
      ensures State() == DonateSmall(old(State()), Item(addr, size)) && ok == (|old(State()).small| < MAX_SMALL_HOLE)
      ensures ok ==> State().small == [Item(addr, size)] + old(State()).small && State().big == old(State()).big
      ensures !ok ==> State() == old(State())
    {
      hide Covered, Span, Spaced, Clean, Balanced, Chain, Distinct, Apart;
      ghost var a := State();
      ok := Push(small, addr, size);
      assert Data(big.active) == a.big;
      if ok {
        donated := donated + [Item(addr, size)];
        DonatedSmall(a, Item(addr, size));
      }
      assert State() == DonateSmall(a, Item(addr, size));
    }

    /** The node of the first page-sized hole with room, or none. */
    ghost predicate Is4k(p: Node?, size: nat)
      reads this, big, big.Nodes(), small, small.Nodes()
    {
      var k := FirstFit(State().big, size);
      if k < |State().big| then k < |big.active| && p == big.active[k] else p == null
    }

    ghost predicate IsSmall(p: Node?, size: nat)
      reads this, big, big.Nodes(), small, small.Nodes()
    {
      var k := FirstFit(State().small, size);
      if k < |State().small| then k < |small.active| && p == small.active[k] else p == null
    }

    method Find4k(size: nat) returns (p: Node?)
      requires Valid()
      ensures Valid() && State() == old(State()) && big.Nodes() == old(big.Nodes())
      ensures Is4k(p, size) && (p == null <==> FirstFit(State().big, size) == |State().big|)
    {
      hide Balanced;
      p := FindFit(big, size);
    }

    method FindSmall(size: nat) returns (p: Node?)
      requires Valid()
      ensures Valid() && State() == old(State()) && big.Nodes() == old(big.Nodes()) && small.Nodes() == old(small.Nodes())
      ensures IsSmall(p, size) && (p == null <==> FirstFit(State().small, size) == |State().small|)
    {
      hide Balanced;
      p := FindFit(small, size);
    }

    /** The size is taken from the first of the page-sized holes that has room. */
    method Take4k(p: Node, size: nat) returns (addr: nat)
      requires Valid() && Is4k(p, size)
      modifies this, big, big.Nodes()
      ensures Valid() && big.Nodes() == old(big.Nodes())
      ensures var a := old(State()); var k := FirstFit(a.big, size);
        k < |a.big| && addr == a.big[k].key && State() == Took4k(a, k, size)
    {
      ghost var k := FirstFit(State().big, size);
      hide Covered, Span, Spaced, Clean, Balanced, Chain, Distinct, Apart, Carved;
      ghost var a := State();
      addr := Carve(big, p, k, size, 0);
      handed := handed + [Item(addr, size)];
      HandedBig(a, k, size);
      assert State() == Took4k(a, k, size);
    }

    method TakeSmall(p: Node, size: nat) returns (addr: nat)
      requires Valid() && IsSmall(p, size)
      modifies this, small, small.Nodes()
      ensures Valid() && small.Nodes() == old(small.Nodes())
      ensures var a := old(State()); var k := FirstFit(a.small, size);
        k < |a.small| && addr == a.small[k].key && State() == TookSmall(a, k, size)
    {
      ghost var k := FirstFit(State().small, size);
      hide Covered, Span, Spaced, Clean, Balanced, Chain, Distinct, Apart, Carved, Scrap, Retired, FirstFit;
      ghost var a := State();
      assert a.small[k] == Item(p.key, p.value);
      hide Data;
      addr := Carve(small, p, k, size, SCRAP);
      assert Data(big.active) == a.big;
      handed, dropped := handed + [Item(addr, size)], dropped + Scrap(a.small[k], size, SCRAP);
      retired := retired + Retired(a.small[k], size);
      HandedSmall(a, k, size);
      assert State() == TookSmall(a, k, size);
    }

    method Alloc4k(size: nat, pages: seq<nat>) returns (out: Outcome, rest: seq<nat>)
      requires Valid() && forall i :: 0 <= i < |pages| ==> pages[i] % PAGE_4K == 0
      modifies this, big, big.Nodes()
      ensures Valid() && big.Nodes() == old(big.Nodes())
      ensures Run(State(), out, rest) == Allocate4k(old(State()), Aligned(size), pages)
    {
      hide Balanced, Chain, Distinct, Apart, Donate4k, Took4k, Allocate4k, Aligned, State, Valid, FirstFit, Is4k;
      var n := Aligned(size);
      rest := pages;
      var p := Find4k(n);
      while p == null
        invariant Valid() && big.Nodes() == old(big.Nodes()) && forall i :: 0 <= i < |rest| ==> rest[i] % PAGE_4K == 0
        invariant Allocate4k(old(State()), n, pages) == Allocate4k(State(), n, rest)
        invariant Is4k(p, n) && (p == null <==> FirstFit(State().big, n) == |State().big|)
        decreases |rest|
      {
        AllocateStep(State(), n, rest);
        if rest == [] || rest[0] == 0 {
          return NoMemory, rest;
        }
        var ok := Free4k(rest[0], PAGE_SIZE);
        if !ok {
          return Panic, rest;
        }
        rest := rest[1..];
        p := Find4k(n);
      }
      AllocateStep(State(), n, rest);
      var addr := Take4k(p, n);
      out := Got(addr);
    }

    /** The page that was handed out last becomes a small hole. */
    method PushPage(addr: nat) returns (ok: bool)
      requires Valid() && handed != [] && handed[|handed| - 1] == Item(addr, PAGE_4K)
      modifies this, small, small.Nodes()
      ensures Valid() && small.Nodes() == old(small.Nodes()) && ok == (|old(State()).small| < MAX_SMALL_HOLE)
      ensures State() == if ok then Refilled(old(State())) else old(State())
    {
      hide Covered, Span, Spaced, Clean, Balanced, Chain, Distinct, Apart;
      ghost var a, h, n := State(), Item(addr, PAGE_4K), |handed| - 1;
      ok := Push(small, addr, PAGE_4K);
      assert Data(big.active) == a.big;
      if ok {
        handed := handed[..n];
        PageMoved(a, a.handed[..n], h) by { assert a.handed == a.handed[..n] + [h]; }
      }
      assert State() == if ok then Refilled(a) else a;
    }

    /** A new page for the small holes. */
    method Refill(pages: seq<nat>) returns (out: Outcome, rest: seq<nat>)
      requires Valid() && forall i :: 0 <= i < |pages| ==> pages[i] % PAGE_4K == 0
      modifies this, big, big.Nodes(), small, small.Nodes()
      ensures Valid() && big.Nodes() == old(big.Nodes()) && small.Nodes() == old(small.Nodes())
      ensures var r := Allocate4k(old(State()), PAGE_4K, pages);
              && rest == r.rest && out == FromPage(r)
              && State() == if out.Got? then Refilled(r.account) else r.account
    {
      hide Covered, Span, Spaced, Clean, Balanced, Chain, Distinct, Apart, Allocate4k, Refilled;
      AllocateHands(State(), PAGE_4K, pages);
      out, rest := Alloc4k(PAGE_4K, pages);
      if !out.Got? {
        return;
      }
      if out.addr == 0 {
        return NoMemory, rest;
      }
      var ok := PushPage(out.addr);
      if !ok {
        return Panic, rest;
      }
    }

    /** The loop refills at most once, since the new hole has room. */
    method AllocSmall(size: nat, pages: seq<nat>) returns (out: Outcome, rest: seq<nat>)
      requires Valid() && size < PAGE_4K && forall i :: 0 <= i < |pages| ==> pages[i] % PAGE_4K == 0
      modifies this, big, big.Nodes(), small, small.Nodes()
      ensures Valid() && big.Nodes() == old(big.Nodes()) && small.Nodes() == old(small.Nodes())
      ensures Run(State(), out, rest) == AllocateSmall(old(State()), size, pages)
    {
      hide Balanced, State, Valid, FirstFit, IsSmall, Took4k, TookSmall, Refilled, Allocate4k, AllocateSmall, Refills, FromPage;
      rest := pages;
      var p := FindSmall(size);
      ghost var refills := 0;
      while p == null
        invariant Valid() && big.Nodes() == old(big.Nodes()) && small.Nodes() == old(small.Nodes())
        invariant IsSmall(p, size) && (p == null <==> FirstFit(State().small, size) == |State().small|)
        invariant refills <= 1 && (refills == 0 ==> State() == old(State()) && rest == pages)
        invariant refills == 1 ==> p != null && Refills(old(State()), size, pages, State(), rest)
        decreases 1 - refills
      {
        SmallCases(old(State()), size, pages);
        out, rest := Refill(pages);
        if !out.Got? {
          return;
        }
        RefillsOnce(old(State()), size, pages);
        p := FindSmall(size);
        refills := 1;
      }
      SmallCases(old(State()), size, pages);
      var addr := TakeSmall(p, size);
      out := Got(addr);
    }
  }
}
