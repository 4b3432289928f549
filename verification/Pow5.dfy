/** `pow5mult` and its lazily grown list of powers of five. */
module Pow5s {
  import opened Arith
  import opened Words
  import opened Bigints

  /** The exponent of five in node number i of the list. */
  function Exponent(i: nat): nat {
    4 * Pow(2, i)
  }

  /** The static list `p5s`, with its nodes in order. */
  class Pow5List {
    var p5s: Bigint?
    ghost var Nodes: seq<Bigint>

    ghost var Cells: set<Bigint>
    ghost var Arrays: set<array<Word>>

    ghost predicate Valid()
      reads this, Cells, Arrays
    {
      && (forall i :: 0 <= i < |Nodes| ==> NodeOk(i))
      && p5s == (if Nodes == [] then null else Nodes[0])
      && (forall i, j :: 0 <= i < j < |Nodes| ==> Nodes[i] != Nodes[j])
    }

    /** Node number i holds 5^(4 * 2^i) and is linked to its successor. */
    ghost predicate NodeOk(i: nat)
      requires i < |Nodes|
      reads this, Cells, Arrays
    {
      var n := Nodes[i];
      && n in Cells && n.x in Arrays && n.Valid() && n.wds > 0 && n.Val() == Pow(5, Exponent(i))
      && n.next == if i + 1 < |Nodes| then Nodes[i + 1] else null
    }

    /** b is no part of the list. */
    ghost predicate Apart(b: Bigint)
      reads this
    {
      b !in Cells && b.x !in Arrays
    }

    constructor ()
      ensures Valid() && Nodes == []
    {
      p5s, Nodes, Cells, Arrays := null, [], {}, {};
    }

    /** The first node, made on first use. */
    method First() returns (p5: Bigint)
      requires Valid()
      modifies this
      ensures Valid() && old(Nodes) <= Nodes && |Nodes| > 0 && p5 == Nodes[0]
      ensures old(Cells) <= Cells && fresh(Cells - old(Cells)) && fresh(Arrays - old(Arrays))
    {
      if p5s == null {
        p5 := I2b(625);
        p5s, Nodes, Cells, Arrays := p5, [p5], Cells + {p5}, Arrays + {p5.x};
        assert Pow(2, 0) == 1 && Pow(5, 4) == 625;
      }
      p5 := p5s;
    }

    /** The node after number i, made by squaring when the list ends there. */
    method Next(p5: Bigint, ghost i: nat) returns (p51: Bigint)
      requires Valid() && i < |Nodes| && p5 == Nodes[i]
      modifies this`Nodes, this`Cells, this`Arrays, p5`next
      ensures Valid() && old(Nodes) <= Nodes && i + 1 < |Nodes| && p51 == Nodes[i + 1]
      ensures old(Cells) <= Cells && fresh(Cells - old(Cells)) && fresh(Arrays - old(Arrays))
    {
      hide Pow, Value, Exponent;
      assert NodeOk(i);
      SquareOf(i);
      if p5.next == null {
        var n := Mult(p5, p5);
        p5.next := n;
        Nodes, Cells, Arrays := Nodes + [n], Cells + {n}, Arrays + {n.x};
        forall j | 0 <= j < |Nodes|
          ensures NodeOk(j)
        {
          assert j < |Nodes| - 1 ==> old(NodeOk(j));
        }
      }
      p51 := p5.next;
    }
  }

  lemma SquareOf(i: nat)
    ensures Pow(5, Exponent(i + 1)) == Pow(5, Exponent(i)) * Pow(5, Exponent(i)) > 0
  {
    PowAdd(5, Exponent(i), Exponent(i));
    PowPos(5, Exponent(i + 1));
    assert Exponent(i + 1) == Exponent(i) + Exponent(i);
  }

  /** Splitting the lowest bit off what is left of k. */
  lemma Halve(i: nat, k: nat)
    ensures Pow(5, Exponent(i) * k) ==
            (if k % 2 == 1 then Pow(5, Exponent(i)) else 1) * Pow(5, Exponent(i + 1) * (k / 2))
  {
    var h := k / 2;
    assert Exponent(i + 1) * h == Exponent(i) * (2 * h);
    if k % 2 == 1 {
      assert Exponent(i) * k == Exponent(i) + Exponent(i) * (2 * h);
      PowAdd(5, Exponent(i), Exponent(i + 1) * h);
    }
  }

  /** `pow5mult`: b * 5^k. The list of powers only grows at its end; no node in it changes its value. */
  method Pow5mult(L: Pow5List, b: Bigint, k: nat) returns (r: Bigint)
    requires L.Valid() && b.Valid() && L.Apart(b)
    modifies L, L.Cells`next, b`wds, b.x
    ensures L.Valid() && old(L.Nodes) <= L.Nodes
    ensures old(L.Cells) <= L.Cells && fresh(L.Cells - old(L.Cells)) && fresh(L.Arrays - old(L.Arrays))
    ensures r.Valid() && L.Apart(r) && (r == b || (fresh(r) && fresh(r.x)))
    ensures r.Val() == old(b.Val()) * Pow(5, k)
  {
    r := b;
    var i := k % 4;
    SmallPowers();
    if i != 0 {
      r := Multadd(r, [5, 25, 125][i - 1], 0);
    }
    PowAdd(5, i, 4 * (k / 4));
    MulAssoc(old(b.Val()), Pow(5, i), Pow(5, 4 * (k / 4)));
    if k / 4 != 0 {
      r := MultiplyBits(L, r, k / 4);
    }
  }

  lemma SmallPowers()
    ensures Pow(5, 0) == 1 && Pow(5, 1) == 5 && Pow(5, 2) == 25 && Pow(5, 3) == 125
  {
  }

  /** b is the product so far, with the bits k still to be multiplied in from node n on. */
  ghost predicate Ahead(b: nat, n: nat, k: nat, total: nat) {
    b * Pow(5, Exponent(n) * k) == total
  }

  lemma AheadStart(b: nat, k: nat, total: nat)
    requires total == b * Pow(5, 4 * k)
    ensures Ahead(b, 0, k, total)
  {
    PowStep(2, 0);
  }

  lemma AheadEnd(b: nat, n: nat, total: nat)
    requires Ahead(b, n, 0, total)
    ensures b == total
  {
    PowStep(5, 0);
  }

  /** The loop of `pow5mult`: one node of the list for every bit of k. */
  method MultiplyBits(L: Pow5List, b: Bigint, k: nat) returns (r: Bigint)
    requires L.Valid() && b.Valid() && L.Apart(b) && k > 0
    modifies L, L.Cells`next
    ensures L.Valid() && old(L.Nodes) <= L.Nodes
    ensures old(L.Cells) <= L.Cells && fresh(L.Cells - old(L.Cells)) && fresh(L.Arrays - old(L.Arrays))
    ensures r.Valid() && L.Apart(r) && (r == b || (fresh(r) && fresh(r.x)))
    ensures r.Val() == old(b.Val()) * Pow(5, 4 * k)
  {
    hide Value, Pow, Ahead;
    r := b;
    var k': nat := k;
    ghost var total: nat := b.Val() * Pow(5, 4 * k);
    var p5 := L.First();
    ghost var n: nat := 0;
    AheadStart(b.Val(), k, total);
    while k' != 0
      invariant k' > 0 ==> n < |L.Nodes| && p5 == L.Nodes[n]
      invariant L.Valid() && old(L.Nodes) <= L.Nodes
      invariant old(L.Cells) <= L.Cells && fresh(L.Cells - old(L.Cells)) && fresh(L.Arrays - old(L.Arrays))
      invariant r.Valid() && L.Apart(r) && (r == b || (fresh(r) && fresh(r.x)))
      invariant Ahead(r.Val(), n, k', total)
      decreases k'
    {
      assert L.NodeOk(n);
      r, p5 := MultiplyStep(L, r, p5, n, k', total);
      k' := k' / 2;
      n := n + 1;
    }
    AheadEnd(r.Val(), n, total);
  }

  /** The body of that loop: a multiplication for a set bit, and the next node while bits are left. */
  method MultiplyStep(L: Pow5List, b: Bigint, p5: Bigint, ghost n: nat, k: nat, ghost total: nat)
      returns (r: Bigint, p51: Bigint)
    requires L.Valid() && b.Valid() && L.Apart(b) && n < |L.Nodes| && p5 == L.Nodes[n] && k > 0
    requires Ahead(b.Val(), n, k, total)
    modifies L, p5`next
    ensures L.Valid() && old(L.Nodes) <= L.Nodes
    ensures old(L.Cells) <= L.Cells && fresh(L.Cells - old(L.Cells)) && fresh(L.Arrays - old(L.Arrays))
    ensures r.Valid() && L.Apart(r) && (r == b || (fresh(r) && fresh(r.x)))
    ensures Ahead(r.Val(), n + 1, k / 2, total)
    ensures k / 2 > 0 ==> n + 1 < |L.Nodes| && p51 == L.Nodes[n + 1]
  {
    hide Value, Pow, Ahead;
    assert L.NodeOk(n);
    r := MultiplyBit(b, p5, n, k, total);
    p51 := p5;
    if k / 2 != 0 {
      p51 := L.Next(p5, n);
    }
  }

  /** Multiplies by the node when the lowest bit of k is set. */
  method MultiplyBit(b: Bigint, p5: Bigint, ghost n: nat, k: nat, ghost total: nat) returns (r: Bigint)
    requires b.Valid() && p5.Valid() && p5.wds > 0 && p5.Val() == Pow(5, Exponent(n))
    requires Ahead(b.Val(), n, k, total)
    ensures r.Valid() && (r == b || (fresh(r) && fresh(r.x)))
    ensures Ahead(r.Val(), n + 1, k / 2, total)
  {
    r := b;
    Halve(n, k);
    if k % 2 == 1 {
      r := Mult(b, p5);
      MulAssoc(b.Val(), p5.Val(), Pow(5, Exponent(n + 1) * (k / 2)));
    }
  }
}
