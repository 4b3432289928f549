/** Address ranges as values: the key of an item is an address, its value a size. */
module Holes {
  import opened Lists

  /** The bytes of a range, each once. */
  function Span(addr: nat, size: nat): multiset<nat>
    decreases size
  {
    if size == 0 then multiset{} else multiset{addr} + Span(addr + 1, size - 1)
  }

  /** The bytes of some ranges, each as often as it is in one of them. */
  function Covered(q: seq<Item>): multiset<nat> {
    if q == [] then multiset{} else Span(q[0].key, q[0].value) + Covered(q[1..])
  }

  function Total(q: seq<Item>): nat {
    if q == [] then 0 else q[0].value + Total(q[1..])
  }

  predicate In(x: nat, h: Item) {
    h.key <= x < h.key + h.value
  }

  lemma {:induction false} SpanAt(addr: nat, size: nat, x: nat)
    ensures Span(addr, size)[x] == (if In(x, Item(addr, size)) then 1 else 0)
    decreases size
  {
    if size > 0 {
      SpanAt(addr + 1, size - 1, x);
    }
  }

  lemma SpanFirst(addr: nat, size: nat)
    requires size > 0
    ensures Span(addr, size) == multiset{addr} + Span(addr + 1, size - 1)
  {
  }

  lemma SpanNone(addr: nat)
    ensures Span(addr, 0) == multiset{}
  {
  }

  lemma {:induction false} SpanSplit(addr: nat, n: nat, m: nat)
    ensures Span(addr, n + m) == Span(addr, n) + Span(addr + n, m)
    decreases n
  {
    hide Span;
    if n == 0 {
      SpanNone(addr);
    } else {
      SpanFirst(addr, n);
      SpanFirst(addr, n + m);
      SpanSplit(addr + 1, n - 1, m);
      Assoc(multiset{addr}, Span(addr + 1, n - 1), Span(addr + n, m));
    }
  }

  lemma {:induction false} SpanSize(addr: nat, size: nat)
    ensures |Span(addr, size)| == size
    decreases size
  {
    if size > 0 {
      SpanSize(addr + 1, size - 1);
    }
  }

  /** The number of bytes, counting each as often as it is covered. */
  lemma {:induction false} CoveredSize(q: seq<Item>)
    ensures |Covered(q)| == Total(q)
  {
    if q != [] {
      SpanSize(q[0].key, q[0].value);
      CoveredSize(q[1..]);
    }
  }

  lemma Assoc(a: multiset<nat>, b: multiset<nat>, c: multiset<nat>)
    ensures (a + b) + c == a + (b + c)
  {
  }

  lemma CoveredFirst(h: Item, q: seq<Item>)
    ensures Covered([h] + q) == Span(h.key, h.value) + Covered(q)
  {
    assert ([h] + q)[1..] == q;
  }

  lemma {:induction false} CoveredConcat(q: seq<Item>, r: seq<Item>)
    ensures Covered(q + r) == Covered(q) + Covered(r)
  {
    if q == [] {
      assert q + r == r;
    } else {
      hide Covered, Span;
      var h, rest := q[0], q[1..];
      assert q == [h] + rest && q + r == [h] + (rest + r);
      CoveredFirst(h, rest + r);
      CoveredFirst(h, rest);
      CoveredConcat(rest, r);
      Assoc(Span(h.key, h.value), Covered(rest), Covered(r));
    }
  }

  lemma CoveredOne(h: Item)
    ensures Covered([h]) == Span(h.key, h.value)
  {
    assert [h][1..] == [];
  }

  lemma CoveredAround(q: seq<Item>, k: nat)
    requires k < |q|
    ensures Covered(q) == Covered(q[..k]) + Span(q[k].key, q[k].value) + Covered(q[k + 1..])
  {
    hide Covered, Span;
    var h := q[k];
    assert q == q[..k] + ([h] + q[k + 1..]);
    CoveredConcat(q[..k], [h] + q[k + 1..]);
    CoveredFirst(h, q[k + 1..]);
    Assoc(Covered(q[..k]), Span(h.key, h.value), Covered(q[k + 1..]));
  }

  lemma CoveredInserted(q: seq<Item>, k: nat, h: Item)
    requires k <= |q|
    ensures Covered(q[..k] + [h] + q[k..]) == Covered(q) + Span(h.key, h.value)
  {
    hide Covered, Span;
    var r := q[..k] + [h] + q[k..];
    assert r[..k] == q[..k] && r[k] == h && r[k + 1..] == q[k..];
    CoveredAround(r, k);
    CoveredConcat(q[..k], q[k..]);
    assert q == q[..k] + q[k..];
  }

  lemma CoveredAt(q: seq<Item>, k: nat, x: nat)
    requires k < |q| && In(x, q[k])
    ensures Covered(q)[x] >= 1
  {
    CoveredAround(q, k);
    SpanAt(q[k].key, q[k].value, x);
  }

  /** No byte is in two of the ranges, or twice in them. */
  ghost predicate Once(m: multiset<nat>) {
    forall x :: m[x] <= 1
  }

  predicate Solid(q: seq<Item>) {
    forall i :: 0 <= i < |q| ==> q[i].value > 0
  }

  /** In the order of their addresses, not empty, and without overlap. */
  predicate Spaced(q: seq<Item>) {
    Solid(q) && forall i, j :: 0 <= i < j < |q| ==> q[i].key + q[i].value <= q[j].key
  }

  ghost predicate Disjoint(h: Item, g: Item) {
    forall x :: !(In(x, h) && In(x, g))
  }

  lemma CoveredTwice(q: seq<Item>, i: nat, j: nat, x: nat)
    requires i < j < |q| && In(x, q[i]) && In(x, q[j])
    ensures Covered(q)[x] >= 2
  {
    hide Covered, Span;
    CoveredAround(q, i);
    SpanAt(q[i].key, q[i].value, x);
    CoveredAt(q[i + 1..], j - i - 1, x);
  }

  /** When no byte is covered twice, two of the ranges have none in common. */
  lemma OnceDisjoint(q: seq<Item>, i: nat, j: nat)
    requires Once(Covered(q)) && i < j < |q|
    ensures Disjoint(q[i], q[j])
  {
    forall x
      ensures !(In(x, q[i]) && In(x, q[j]))
    {
      if In(x, q[i]) && In(x, q[j]) {
        CoveredTwice(q, i, j, x);
        assert false;
      }
    }
  }

  lemma SpacedSorted(q: seq<Item>)
    requires Spaced(q)
    ensures Sorted(q)
  {
    forall i, j | 0 <= i < j < |q|
      ensures q[i].key <= q[j].key
    {
      assert q[i].key + q[i].value <= q[j].key;
    }
  }

  lemma Beside(h: Item, g: Item)
    requires Disjoint(h, g) && h.value > 0 && g.value > 0 && h.key <= g.key
    ensures h.key + h.value <= g.key
  {
    assert !(In(g.key, h) && In(g.key, g));
  }

  /** A new range that has no byte of the others keeps them in order. */
  lemma InsertedSpaced(q: seq<Item>, h: Item)
    requires Spaced(q) && h.value > 0 && forall i :: 0 <= i < |q| ==> Disjoint(h, q[i])
    ensures Spaced(Inserted(q, h))
  {
    hide Place, Disjoint, In;
    var k := Place(q, h.key);
    SpacedSorted(q);
    PlaceBetween(q, h.key);
    forall i | 0 <= i < |q|
      ensures if i < k then q[i].key + q[i].value <= h.key else h.key + h.value <= q[i].key
    {
      assert Disjoint(h, q[i]);
      DisjointBoth(h, q[i]);
      if i < k {
        Beside(q[i], h);
      } else {
        Beside(h, q[i]);
      }
    }
    SpacedAt(q, k, h);
  }

  lemma SpacedAt(q: seq<Item>, k: nat, h: Item)
    requires Spaced(q) && h.value > 0 && k <= |q|
    requires forall i :: 0 <= i < |q| ==> if i < k then q[i].key + q[i].value <= h.key else h.key + h.value <= q[i].key
    ensures Spaced(q[..k] + [h] + q[k..])
  {
    var r := q[..k] + [h] + q[k..];
    assert forall i :: 0 <= i < |r| ==> r[i] == if i < k then q[i] else if i == k then h else q[i - 1];
  }

  lemma DisjointBoth(h: Item, g: Item)
    requires Disjoint(h, g)
    ensures Disjoint(g, h)
  {
  }

  // Searching and carving

  /** The first hole with room for the size. */
  function FirstFit(q: seq<Item>, size: nat): (k: nat)
    ensures k <= |q| && (k < |q| ==> q[k].value >= size)
    ensures forall i :: 0 <= i < k ==> q[i].value < size
  {
    if q != [] && q[0].value < size then 1 + FirstFit(q[1..], size) else 0
  }

  /** The holes when the size is taken from the front of hole k, which is given up when no more than the limit is
      left. */
  function Carved(q: seq<Item>, k: nat, size: nat, limit: nat): seq<Item>
    requires k < |q| && size <= q[k].value
  {
    var h := q[k];
    if h.value - size <= limit then q[..k] + q[k + 1..] else q[k := Item(h.key + size, h.value - size)]
  }

  /** The bytes that are given up. */
  function Scrap(h: Item, size: nat, limit: nat): multiset<nat>
    requires size <= h.value
  {
    if h.value - size <= limit then Span(h.key + size, h.value - size) else multiset{}
  }

  /** The taken range, the holes that are left and the bytes that are given up are what there was. */
  lemma CarvedCovered(q: seq<Item>, k: nat, size: nat, limit: nat)
    requires k < |q| && size <= q[k].value
    ensures Covered(q) == Covered(Carved(q, k, size, limit)) + Span(q[k].key, size) + Scrap(q[k], size, limit)
    ensures |Scrap(q[k], size, limit)| <= limit
  {
    hide Covered, Span;
    var h, rest := q[k], q[k].value - size;
    SpanSplit(h.key, size, rest);
    SpanSize(h.key + size, rest);
    CoveredAround(q, k);
    if rest <= limit {
      CoveredConcat(q[..k], q[k + 1..]);
      assert Carved(q, k, size, limit) == q[..k] + q[k + 1..];
    } else {
      var r := Carved(q, k, size, limit);
      assert r[..k] == q[..k] && r[k + 1..] == q[k + 1..] && r[k] == Item(h.key + size, rest);
      CoveredAround(r, k);
    }
    Moved(Covered(q[..k]), Covered(q[k + 1..]), Span(h.key, size), Span(h.key + size, rest));
  }

  lemma Moved(a: multiset<nat>, b: multiset<nat>, c: multiset<nat>, d: multiset<nat>)
    ensures a + (c + d) + b == (a + b) + c + d && a + (c + d) + b == (a + d + b) + c + multiset{}
  {
  }

  lemma CarvedSpaced(q: seq<Item>, k: nat, size: nat)
    requires Spaced(q) && k < |q| && size <= q[k].value
    ensures Spaced(Carved(q, k, size, 0))
  {
    var h, r := q[k], Carved(q, k, size, 0);
    if h.value == size {
      assert forall i :: 0 <= i < |r| ==> r[i] == if i < k then q[i] else q[i + 1];
    } else {
      assert forall i :: 0 <= i < |r| ==> r[i] == if i == k then Item(h.key + size, h.value - size) else q[i];
    }
  }

  /** Ranges that were donated, not empty and each byte once. */
  ghost predicate Clean(q: seq<Item>) {
    Solid(q) && Once(Covered(q))
  }

  lemma CleanFront(q: seq<Item>, h: Item)
    requires Clean(q + [h])
    ensures Clean(q) && h.value > 0
  {
    CoveredConcat(q, [h]);
    assert (q + [h])[|q|] == h && forall i :: 0 <= i < |q| ==> q[i] == (q + [h])[i];
    forall x
      ensures Covered(q)[x] <= 1
    {
      assert Covered(q + [h])[x] <= 1;
    }
  }

  /** A newly donated range has no byte of what was there. */
  lemma NewApart(donated: seq<Item>, h: Item, q: seq<Item>, k: nat)
    requires Clean(donated + [h]) && Covered(q) <= Covered(donated) && k < |q|
    ensures Disjoint(h, q[k])
  {
    hide Covered;
    forall x
      ensures !(In(x, h) && In(x, q[k]))
    {
      if In(x, h) && In(x, q[k]) {
        DonatedTwice(donated, h, q, k, x);
        assert false;
      }
    }
  }

  lemma DonatedTwice(donated: seq<Item>, h: Item, q: seq<Item>, k: nat, x: nat)
    requires Covered(q) <= Covered(donated) && k < |q| && In(x, h) && In(x, q[k])
    ensures Covered(donated + [h])[x] >= 2
  {
    hide Covered, Span;
    CoveredConcat(donated, [h]);
    CoveredOne(h);
    CoveredAt(q, k, x);
    SpanAt(h.key, h.value, x);
    assert Covered(q)[x] <= Covered(donated)[x];
  }
}
