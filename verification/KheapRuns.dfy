/** Runs of calls of `0005/kernel/kheap.c`. */
module KheapRuns {
  import opened Lists
  import opened Holes
  import opened Kheaps

  predicate Fits(q: seq<Item>, size: nat) {
    exists i :: 0 <= i < |q| && q[i].value >= size
  }

  lemma FitsFirst(q: seq<Item>, size: nat)
    ensures Fits(q, size) <==> FirstFit(q, size) < |q|
  {
  }

  lemma FitsInserted(q: seq<Item>, h: Item, size: nat)
    ensures Fits(Inserted(q, h), size) <==> Fits(q, size) || h.value >= size
    ensures var r := Inserted(q, h); !Fits(q, size) && FirstFit(r, size) < |r| ==> r[FirstFit(r, size)] == h
  {
    hide Place;
    var k, r := Place(q, h.key), Inserted(q, h);
    assert forall i :: 0 <= i < |r| ==> r[i] == if i < k then q[i] else if i == k then h else q[i - 1];
    assert forall i :: 0 <= i < |q| ==> q[i] == r[if i < k then i else i + 1];
    assert r[k] == h;
  }

  /** What a refill can do: when no hole has room, just a request of at most one physical page is met, from the next page
      and with just that one; a greater one is never met, however many pages there are. */
  lemma {:induction false} Allocate4kMeets(a: Account, size: nat, pages: seq<nat>)
    ensures var r := Allocate4k(a, size, pages);
            && (r.outcome.Got? <==> Fits(a.big, size) || (size <= PAGE_SIZE && CanRefill(a, pages)))
            && (r.outcome.Got? ==> if Fits(a.big, size) then r.rest == pages else r.rest == pages[1..])
            && (r.outcome.Got? && !Fits(a.big, size) ==> r.outcome.addr == pages[0])
    decreases |pages|
  {
    FitsFirst(a.big, size);
    if !Fits(a.big, size) && CanRefill(a, pages) {
      var h := Item(pages[0], PAGE_SIZE);
      FitsInserted(a.big, h, size);
      FitsFirst(Inserted(a.big, h), size);
      Allocate4kMeets(Donate4k(a, h), size, pages[1..]);
    }
  }

  /** The pages that the physical allocator gives before it fails. */
  function Given(pages: seq<nat>): (n: nat)
    ensures n <= |pages|
  {
    if pages == [] || pages[0] == 0 then 0 else 1 + Given(pages[1..])
  }

  /** The pages for which there are descriptors as well. */
  function Drawn(a: Account, pages: seq<nat>): (n: nat)
    ensures n <= |pages|
  {
    if |a.big| + Given(pages) <= MAX_HEAP_HOLE then Given(pages)
    else if |a.big| <= MAX_HEAP_HOLE then MAX_HEAP_HOLE - |a.big|
    else 0
  }

  function PageHoles(pages: seq<nat>): (q: seq<Item>)
    ensures |q| == |pages|
  {
    seq(|pages|, i requires 0 <= i < |pages| => Item(pages[i], PAGE_SIZE))
  }

  /** A request that is not met takes in one page after the other until the pages run out, which is a failure, or the
      descriptors before them, which is a panic; each page stays behind as a hole. */
  lemma {:induction false} Allocate4kRefuses(a: Account, size: nat, pages: seq<nat>)
    requires !Fits(a.big, size) && (size > PAGE_SIZE || !CanRefill(a, pages))
    ensures var r, n := Allocate4k(a, size, pages), Drawn(a, pages);
            && r.outcome == (if n == Given(pages) then NoMemory else Panic) && r.rest == pages[n..]
            && r.account == a.(big := r.account.big, donated := a.donated + PageHoles(pages[..n]))
            && multiset(r.account.big) == multiset(a.big + PageHoles(pages[..n]))
    decreases |pages|
  {
    FitsFirst(a.big, size);
    hide Inserted, FirstFit, Fits, PageHoles;
    if CanRefill(a, pages) {
      var h := Item(pages[0], PAGE_SIZE);
      FitsInserted(a.big, h, size);
      InsertedItems(a.big, h);
      Allocate4kRefuses(Donate4k(a, h), size, pages[1..]);
      DrawnStep(a, pages);
    } else {
      assert PageHoles(pages[..0]) == [];
    }
  }

  /** The first page is drawn, and then the others. */
  lemma DrawnStep(a: Account, pages: seq<nat>)
    requires CanRefill(a, pages)
    ensures var h, n := Item(pages[0], PAGE_SIZE), Drawn(a, pages);
            var b, m := Donate4k(a, h), Drawn(Donate4k(a, h), pages[1..]);
            && n == m + 1 && Given(pages) == Given(pages[1..]) + 1 && pages[1..][m..] == pages[n..]
            && b.donated + PageHoles(pages[1..][..m]) == a.donated + PageHoles(pages[..n])
            && multiset(a.big) + multiset{h} + multiset(PageHoles(pages[1..][..m])) ==
               multiset(a.big + PageHoles(pages[..n]))
  {
    hide Inserted, PageHoles;
    var h, n := Item(pages[0], PAGE_SIZE), Drawn(a, pages);
    InsertedItems(a.big, h);
    PageHolesStep(pages[..n]);
    assert pages[1..][..n - 1] == pages[..n][1..] && pages[1..][n - 1..] == pages[n..];
    Moved(a.big, a.donated, h, PageHoles(pages[..n][1..]));
  }

  lemma Moved(q: seq<Item>, donated: seq<Item>, h: Item, rest: seq<Item>)
    ensures multiset(q) + multiset{h} + multiset(rest) == multiset(q + ([h] + rest))
    ensures (donated + [h]) + rest == donated + ([h] + rest)
  {
  }

  lemma PageHolesStep(pages: seq<nat>)
    requires pages != []
    ensures PageHoles(pages) == [Item(pages[0], PAGE_SIZE)] + PageHoles(pages[1..])
  {
  }

  lemma InsertedItems(q: seq<Item>, h: Item)
    ensures multiset(Inserted(q, h)) == multiset(q) + multiset{h} && |Inserted(q, h)| == |q| + 1
  {
    hide Place;
    ItemsAt(q, Place(q, h.key), h);
  }

  predicate CanRefill(a: Account, pages: seq<nat>) {
    pages != [] && pages[0] != 0 && |a.big| < MAX_HEAP_HOLE
  }

  /** A small request is met when a small hole has room, or a page can be had and a descriptor for it. */
  lemma AllocateSmallMeets(a: Account, size: nat, pages: seq<nat>)
    requires size < PAGE_4K
    ensures var r, big := AllocateSmall(a, size, pages), Allocate4k(a, PAGE_4K, pages);
            && (r.outcome.Got? <==> Fits(a.small, size) || (big.outcome.Got? && big.outcome.addr != 0 && |a.small| < MAX_SMALL_HOLE))
            && (r.outcome.Got? ==> r.account.handed == a.handed + [Item(r.outcome.addr, size)])
            && (if Fits(a.small, size) then r.rest == pages else r.rest == big.rest)
  {
    FitsFirst(a.small, size);
    SmallCases(a, size, pages);
    AllocateHands(a, PAGE_4K, pages);
    if !Fits(a.small, size) {
      RefillCases(a, size, pages);
    }
  }

  lemma RefillCases(a: Account, size: nat, pages: seq<nat>)
    requires size < PAGE_4K && FirstFit(a.small, size) == |a.small|
    ensures var r, big := AllocateSmall(a, size, pages), Allocate4k(a, PAGE_4K, pages);
            && r.rest == big.rest && (r.outcome.Got? <==> FromPage(big).Got?)
            && (r.outcome.Got? ==> r.account.handed == a.handed + [Item(r.outcome.addr, size)])
  {
    hide Allocate4k;
    AllocateHands(a, PAGE_4K, pages);
    var big := Allocate4k(a, PAGE_4K, pages);
    if FromPage(big).Got? {
      assert big.account.handed[..|a.handed|] == a.handed;
    }
  }

  // Runs

  /** A call of one of the four operations, the pages being those the physical allocator will give. */
  datatype Op = Give4k(addr: nat, size: nat) | GiveSmall(addr: nat, size: nat)
              | Ask4k(size: nat, pages: seq<nat>) | AskSmall(size: nat, pages: seq<nat>)

  function After(a: Account, op: Op): Account {
    match op
    case Give4k(addr, size) => Donate4k(a, Item(addr, size))
    case GiveSmall(addr, size) => DonateSmall(a, Item(addr, size))
    case Ask4k(size, pages) => Allocate4k(a, Aligned(size), pages).account
    case AskSmall(size, pages) => if size < PAGE_4K then AllocateSmall(a, size, pages).account else a
  }

  const START: Account := Account([], [], [], [], multiset{}, 0)

  function AfterAll(ops: seq<Op>): Account {
    if ops == [] then START else After(AfterAll(ops[..|ops| - 1]), ops[|ops| - 1])
  }

  lemma {:induction false} Allocate4kBalanced(a: Account, size: nat, pages: seq<nat>)
    requires Balanced(a)
    ensures Balanced(Allocate4k(a, size, pages).account)
    decreases |pages|
  {
    hide Balanced;
    var k := FirstFit(a.big, size);
    if k < |a.big| {
      HandedBig(a, k, size);
    } else if CanRefill(a, pages) {
      var h := Item(pages[0], PAGE_SIZE);
      DonatedBig(a, h);
      Allocate4kBalanced(Donate4k(a, h), size, pages[1..]);
    }
  }

  lemma AllocateSmallBalanced(a: Account, size: nat, pages: seq<nat>)
    requires Balanced(a) && size < PAGE_4K
    ensures Balanced(AllocateSmall(a, size, pages).account)
  {
    hide Balanced, Allocate4k;
    var k := FirstFit(a.small, size);
    if k < |a.small| {
      HandedSmall(a, k, size);
    } else {
      var r := Allocate4k(a, PAGE_4K, pages);
      Allocate4kBalanced(a, PAGE_4K, pages);
      AllocateHands(a, PAGE_4K, pages);
      if FromPage(r).Got? {
        PageMoved(r.account, a.handed, Item(r.outcome.addr, PAGE_4K));
        assert r.account.handed[..|a.handed|] == a.handed;
        HandedSmall(Refilled(r.account), 0, size);
      }
    }
  }

  lemma AfterBalanced(a: Account, op: Op)
    requires Balanced(a)
    ensures Balanced(After(a, op)) && a.handed <= After(a, op).handed && a.donated <= After(a, op).donated
  {
    hide Balanced, Allocate4k, AllocateSmall;
    match op
    case Give4k(addr, size) => DonatedBig(a, Item(addr, size));
    case GiveSmall(addr, size) => DonatedSmall(a, Item(addr, size));
    case Ask4k(size, pages) =>
      Allocate4kBalanced(a, Aligned(size), pages);
      AllocateHands(a, Aligned(size), pages);
    case AskSmall(size, pages) =>
      if size < PAGE_4K {
        AllocateSmallBalanced(a, size, pages);
        SmallGrows(a, size, pages);
      }
  }

  lemma SmallGrows(a: Account, size: nat, pages: seq<nat>)
    requires size < PAGE_4K
    ensures var b := AllocateSmall(a, size, pages).account; a.handed <= b.handed && a.donated <= b.donated
  {
    AllocateHands(a, PAGE_4K, pages);
  }

  /** Over every run in which no byte is donated twice: a range that was handed out is never handed out again, nor is any
      byte of it, none of its bytes is in a hole, and the bytes add up. */
  lemma {:induction false} RunSafe(ops: seq<Op>)
    ensures Balanced(AfterAll(ops))
    ensures var a := AfterAll(ops); Clean(a.donated) ==> Sorted(a.big) && AllDisjoint(a.big + a.small + a.handed)
    ensures var a := AfterAll(ops); var kept := Total(a.big) + Total(a.small) + Total(a.handed);
            kept <= Total(a.donated) <= kept + SCRAP * a.retired
  {
    hide Balanced, After, Clean, Total, Covered, Sorted;
    var a := AfterAll(ops);
    if ops == [] {
      StartBalanced();
    } else {
      RunSafe(ops[..|ops| - 1]);
      AfterBalanced(AfterAll(ops[..|ops| - 1]), ops[|ops| - 1]);
    }
    Conserved(a);
    if Clean(a.donated) {
      Safe(a);
    }
  }

  ghost predicate AllDisjoint(q: seq<Item>) {
    forall i, j :: 0 <= i < j < |q| ==> Disjoint(q[i], q[j])
  }

  lemma StartBalanced()
    ensures Balanced(START)
  {
  }

  /** What was handed out in a run stays so in a longer one. */
  lemma {:induction false} RunHanded(ops: seq<Op>, n: nat)
    requires n <= |ops|
    ensures AfterAll(ops[..n]).handed <= AfterAll(ops).handed && AfterAll(ops[..n]).donated <= AfterAll(ops).donated
    decreases |ops|
  {
    hide Balanced, After;
    if n == |ops| {
      assert ops[..n] == ops;
    } else {
      var front := ops[..|ops| - 1];
      assert front[..n] == ops[..n];
      RunHanded(front, n);
      RunSafe(front);
      AfterBalanced(AfterAll(front), ops[|ops| - 1]);
    }
  }

  // No scraps

  /** All holes have more bytes than the limit. */
  predicate Roomy(q: seq<Item>, limit: nat) {
    forall i :: 0 <= i < |q| ==> q[i].value > limit
  }

  lemma CarvedRoomy(q: seq<Item>, k: nat, size: nat, limit: nat)
    requires k < |q| && size <= q[k].value && Roomy(q, limit)
    ensures Roomy(Carved(q, k, size, limit), limit)
  {
  }

  lemma InsertedRoomy(q: seq<Item>, h: Item, limit: nat)
    requires Roomy(q, limit) && h.value > limit
    ensures Roomy(Inserted(q, h), limit)
  {
    hide Place;
    var k, r := Place(q, h.key), Inserted(q, h);
    assert forall i :: 0 <= i < |r| ==> r[i] == if i < k then q[i] else if i == k then h else q[i - 1];
  }

  lemma {:induction false} Allocate4kRoomy(a: Account, size: nat, pages: seq<nat>)
    requires Roomy(a.big, 0)
    ensures Roomy(Allocate4k(a, size, pages).account.big, 0)
    decreases |pages|
  {
    hide Carved, FirstFit, Inserted;
    if FirstFit(a.big, size) < |a.big| {
      CarvedRoomy(a.big, FirstFit(a.big, size), size, 0);
    } else if CanRefill(a, pages) {
      var h := Item(pages[0], PAGE_SIZE);
      InsertedRoomy(a.big, h, 0);
      Allocate4kRoomy(Donate4k(a, h), size, pages[1..]);
    }
  }

  lemma AllocateSmallRoomy(a: Account, size: nat, pages: seq<nat>)
    requires size < PAGE_4K && Roomy(a.big, 0) && Roomy(a.small, SCRAP)
    ensures var b := AllocateSmall(a, size, pages).account; Roomy(b.big, 0) && Roomy(b.small, SCRAP)
  {
    hide Carved, Allocate4k;
    var k := FirstFit(a.small, size);
    if k < |a.small| {
      CarvedRoomy(a.small, k, size, SCRAP);
    } else {
      Allocate4kRoomy(a, PAGE_4K, pages);
      AllocateHands(a, PAGE_4K, pages);
      var r := Allocate4k(a, PAGE_4K, pages);
      if FromPage(r).Got? {
        CarvedRoomy(Refilled(r.account).small, 0, size, SCRAP);
      }
    }
  }

  /** What is donated is no scrap itself. */
  predicate RoomyOp(op: Op) {
    match op
    case Give4k(_, size) => size > 0
    case GiveSmall(_, size) => size > SCRAP
    case _ => true
  }

  /** Whatever is allocated in a run, page-sized holes are never empty and small holes have more than 16 bytes. */
  lemma {:induction false} RunRoomy(ops: seq<Op>)
    requires forall i :: 0 <= i < |ops| ==> RoomyOp(ops[i])
    ensures Roomy(AfterAll(ops).big, 0) && Roomy(AfterAll(ops).small, SCRAP)
  {
    hide Roomy, Allocate4k, AllocateSmall, Inserted;
    if ops == [] {
      NoneRoomy();
    } else {
      var front, op := ops[..|ops| - 1], ops[|ops| - 1];
      RunRoomy(front);
      var a := AfterAll(front);
      match op
      case Give4k(addr, size) => InsertedRoomy(a.big, Item(addr, size), 0);
      case GiveSmall(addr, size) => FirstRoomy(a.small, Item(addr, size), SCRAP);
      case Ask4k(size, pages) =>
        Allocate4kRoomy(a, Aligned(size), pages);
        AllocateHands(a, Aligned(size), pages);
      case AskSmall(size, pages) =>
        if size < PAGE_4K {
          AllocateSmallRoomy(a, size, pages);
        }
    }
  }

  lemma NoneRoomy()
    ensures Roomy(START.big, 0) && Roomy(START.small, SCRAP)
  {
  }

  lemma FirstRoomy(q: seq<Item>, h: Item, limit: nat)
    requires Roomy(q, limit) && h.value > limit
    ensures Roomy([h] + q, limit)
  {
  }
}
