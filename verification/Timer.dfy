/** `0014/kernel/timer.c` */
module Timers {
  import opened Lists

  const NR_TIMER_BUF: nat := 16
  const BATCH: nat := 10

  /** Times and periods in milliseconds, in 64 bits. */
  type Msec = t: int | 0 <= t < WRAP

  const WRAP: nat := 0x1_0000_0000_0000_0000

  function Deadline(msec: Msec, now: Msec): Msec {
    (msec + now) % WRAP
  }

  lemma DeadlineIs(msec: Msec, now: Msec)
    ensures Deadline(msec, now) == if now + msec < WRAP then now + msec else now + msec - WRAP
  {
  }

  /** The number of timeouts that are due. */
  function DueCount(q: seq<Item>, now: nat): (n: nat)
    ensures n <= |q| && (n < |q| ==> q[n].key > now)
    ensures forall i :: 0 <= i < n ==> q[i].key <= now
  {
    if q != [] && q[0].key <= now then 1 + DueCount(q[1..], now) else 0
  }

  /** In a sorted queue the due timeouts are in front, all of them. */
  lemma DueInFront(q: seq<Item>, now: nat)
    requires Sorted(q)
    ensures forall i :: 0 <= i < |q| ==> (q[i].key <= now <==> i < DueCount(q, now))
  {
  }

  lemma {:induction false} DueRest(q: seq<Item>, now: nat, n: nat)
    requires n <= DueCount(q, now)
    ensures DueCount(q, now) == n + DueCount(q[n..], now)
    decreases n
  {
    if n > 0 {
      DueRest(q[1..], now, n - 1);
      assert q[1..][n - 1..] == q[n..];
    } else {
      assert q[0..] == q;
    }
  }

  lemma DueNext(q: seq<Item>, now: nat, k: nat)
    requires k <= DueCount(q, now)
    ensures k < |q| && q[k].key <= now ==> k < DueCount(q, now)
    ensures k == |q| || q[k].key > now ==> k == DueCount(q, now)
  {
    DueRest(q, now, k);
    assert k < |q| ==> q[k..][0] == q[k];
  }

  /** The callbacks of just the due timeouts, in the order of the queue. */
  ghost predicate Fires(q: seq<Item>, now: nat, fired: seq<nat>) {
    |fired| == DueCount(q, now) && forall i :: 0 <= i < |fired| ==> fired[i] == q[i].value
  }

  /** What is left of the timeouts q in nodes s, and of free nodes f, when the first k are taken out. */
  ghost predicate Left(q: seq<Item>, s: seq<Node>, f: seq<Node>, k: nat, q': seq<Item>, s': seq<Node>, f': seq<Node>) {
    && k <= |q| == |s| && q' == q[k..] && s' == s[k..] && multiset(f') == multiset(s[..k]) + multiset(f)
  }

  lemma NoneDue(q: seq<Item>, s: seq<Node>, f: seq<Node>, now: nat)
    requires |q| == |s| && (q != [] ==> now < q[0].key) && Sorted(q)
    ensures Fires(q, now, []) && Left(q, s, f, 0, q, s, f) && NoneLeft(q, now)
  {
    assert q[0..] == q && s[0..] == s && s[..0] == [];
  }

  ghost predicate NoneLeft(q: seq<Item>, now: nat) {
    forall i :: 0 <= i < |q| ==> q[i].key > now
  }

  lemma AllFired(q: seq<Item>, s: seq<Node>, f: seq<Node>, now: nat, fired: seq<nat>)
    requires |q| == |s| && Sorted(q) && |fired| == DueCount(q, now)
    requires forall i :: 0 <= i < |fired| ==> fired[i] == q[i].value
    ensures Fires(q, now, fired) && NoneLeft(q[|fired|..], now)
    ensures Left(q, s, f, |fired|, q[|fired|..], s[|fired|..], s[..|fired|] + f)
  {
    DueInFront(q, now);
  }

  /** Two runs, one after the other, are one run. */
  lemma Continued(q: seq<Item>, s: seq<Node>, f: seq<Node>, now: nat, fired: seq<nat>, rest: seq<nat>)
    requires |q| == |s| && |fired| <= DueCount(q, now)
    requires forall i :: 0 <= i < |fired| ==> fired[i] == q[i].value
    requires Fires(q[|fired|..], now, rest)
    ensures Fires(q, now, fired + rest)
    ensures forall q', s', f' :: Left(q[|fired|..], s[|fired|..], s[..|fired|] + f, |rest|, q', s', f')
                                 ==> Left(q, s, f, |fired + rest|, q', s', f')
  {
    var k, n := |fired|, |fired + rest|;
    DueRest(q, now, k);
    assert q[k..][|rest|..] == q[n..] && s[k..][|rest|..] == s[n..];
    assert s[..n] == s[..k] + s[k..][..|rest|];
  }

  /** The callbacks of a queue, in order. */
  ghost function Callbacks(q: seq<Item>): (c: seq<nat>)
    ensures |c| == |q| && forall i :: 0 <= i < |q| ==> c[i] == q[i].value
  {
    seq(|q|, i requires 0 <= i < |q| => q[i].value)
  }

  /** What fires of a queue at time t, and what stays, with one more timeout in it: that one fires if and only if t has
      reached its deadline, besides those that fire without it, and otherwise it stays. */
  ghost predicate FiresWith(q: seq<Item>, x: Item, t: nat, fired: seq<nat>, rest: seq<Item>) {
    var n := DueCount(q, t);
    if t >= x.key then rest == q[n..] && exists k :: 0 <= k <= n && fired == Callbacks(q[..k]) + [x.value] + Callbacks(q[k..n])
    else fired == Callbacks(q[..n]) && exists k :: n <= k <= |q| && rest == q[n..k] + [x] + q[k..]
  }

  lemma InsertedFires(q: seq<Item>, x: Item, t: nat, fired: seq<nat>, rest: seq<Item>)
    requires Sorted(q) && Fires(Inserted(q, x), t, fired) && rest == Inserted(q, x)[|fired|..]
    ensures FiresWith(q, x, t, fired, rest)
  {
    hide Place, DueCount, Sorted;
    var r, k, n := Inserted(q, x), Place(q, x.key), DueCount(q, t);
    DueInserted(q, x, t);
    if t >= x.key {
      assert fired == Callbacks(q[..k]) + [x.value] + Callbacks(q[k..n]);
    } else {
      assert fired == Callbacks(q[..n]);
      assert rest == q[n..k] + [x] + q[k..];
    }
  }

  lemma DueInserted(q: seq<Item>, x: Item, t: nat)
    requires Sorted(q)
    ensures var r, k, n := Inserted(q, x), Place(q, x.key), DueCount(q, t);
            && (x.key <= t ==> k <= n && DueCount(r, t) == n + 1 && r[n + 1..] == q[n..])
            && (x.key > t ==> k >= n && DueCount(r, t) == n)
  {
    hide Place, DueCount, Sorted;
    var r, k, n := Inserted(q, x), Place(q, x.key), DueCount(q, t);
    PlaceBetween(q, x.key);
    InsertedSorted(q, x);
    DueInFront(q, t);
    if x.key <= t {
      assert k <= n;
      DueIs(r, t, n + 1);
    } else {
      assert k >= n;
      DueIs(r, t, n);
    }
  }

  lemma DueIs(q: seq<Item>, t: nat, m: nat)
    requires Sorted(q) && m <= |q| && (m < |q| ==> t < q[m].key) && (m > 0 ==> q[m - 1].key <= t)
    ensures DueCount(q, t) == m
  {
    hide DueCount;
    DueInFront(q, t);
  }

  class Manager {
    const lists: Pool

    ghost predicate Valid()
      reads this, lists, lists.Nodes()
    {
      lists.Valid() && Sorted(Data(lists.active))
    }

    /** `init_timer` */
    constructor ()
      ensures Valid() && lists.active == [] && |lists.free| == NR_TIMER_BUF && fresh(lists)
      ensures forall n :: n in lists.free ==> fresh(n)
    {
      lists := new Pool(NR_TIMER_BUF);
    }

    /** A free node, or a new one if there is memory. */
    method TakeNode(memory: bool) returns (p: Node?)
      requires Valid()
      modifies lists`pfree, lists`free
      ensures Valid() && lists.active == old(lists.active) && Data(lists.active) == old(Data(lists.active))
      ensures p == null <==> old(lists.free) == [] && !memory
      ensures old(lists.free) != [] ==> p == old(lists.free)[0] && lists.free == old(lists.free)[1..]
      ensures old(lists.free) == [] ==> lists.free == [] && (p != null ==> fresh(p))
      ensures p != null ==> p !in lists.active && p !in lists.free
    {
      p := lists.TakeNode();
      if p == null && memory {
        p := new Node();
      }
    }

    /** `set_timeout` at time now: ENOMEM without a node, otherwise the timeout is in its place, in a free node or a
        new one. */
    method SetTimeout(msec: Msec, callback: nat, now: Msec, memory: bool) returns (ok: bool)
      requires Valid()
      modifies lists, lists.Nodes()
      ensures Valid() && ok == (old(lists.free) != [] || memory)
      ensures var q := old(Data(lists.active));
        Data(lists.active) == if !ok then q
                              else Inserted(q, Item(if now + msec < WRAP then now + msec else now + msec - WRAP, callback))
      ensures old(lists.free) != [] ==> lists.free == old(lists.free)[1..] && lists.Nodes() == old(lists.Nodes())
      ensures old(lists.free) == [] && ok ==>
        lists.free == [] && exists n :: fresh(n) && n in lists.active && lists.Nodes() == old(lists.Nodes()) + {n}
      ensures !ok ==> lists.free == old(lists.free) && lists.active == old(lists.active)
    {
      hide Sorted, Place, Inserted, Chain, Distinct, Apart, Deadline;
      DeadlineIs(msec, now);
      var p := TakeNode(memory);
      if p == null {
        return false;
      }
      ghost var q, s := Data(lists.active), lists.active;
      lists.SetData(p, Deadline(msec, now), callback);
      InsertedSorted(q, Item(p.key, callback));
      lists.PutInPlace(p, q, Item(p.key, callback));
      WithMembers(s, Place(q, p.key), p);
      ok := true;
    }

    /** The collecting loop: callbacks of due timeouts from the end of the array down, at most BATCH of them. */
    method Collect(now: nat, funcarr: array<nat>) returns (ptr: Node, callnr: nat)
      requires Valid() && funcarr.Length == BATCH && lists.phead != null && lists.phead.key <= now
      modifies funcarr
      ensures Valid() && callnr < BATCH && BATCH - callnr <= DueCount(Data(lists.active), now)
      ensures ptr == lists.active[BATCH - callnr - 1]
      ensures callnr > 0 ==> BATCH - callnr == DueCount(Data(lists.active), now)
      ensures forall i :: 0 <= i < BATCH - callnr ==> funcarr[BATCH - 1 - i] == Data(lists.active)[i].value
    {
      hide Chain, Distinct, Apart, Sorted, DueCount;
      ghost var q, k := Data(lists.active), 1;
      HeadIs(lists.phead, lists.active);
      DueNext(q, now, 0);
      ptr, callnr := lists.phead, BATCH - 1;
      funcarr[callnr] := ptr.value;
      while ptr.pnext != null && now >= ptr.pnext.key && callnr > 0
        invariant Valid() && 1 <= k == BATCH - callnr <= BATCH && k <= DueCount(q, now)
        invariant Data(lists.active) == q && ptr == lists.active[k - 1]
        invariant forall i :: 0 <= i < k ==> funcarr[BATCH - 1 - i] == q[i].value
        decreases callnr
      {
        Linked(lists.phead, lists.active, k - 1);
        DueNext(q, now, k);
        ptr := ptr.pnext;
        callnr := callnr - 1;
        funcarr[callnr] := ptr.value;
        k := k + 1;
      }
      Linked(lists.phead, lists.active, k - 1);
      DueNext(q, now, k);
    }

    /** One batch: the first due timeouts are taken out of the queue and then fire in their order. */
    method RunBatch(now: nat) returns (fired: seq<nat>, more: bool)
      requires Valid() && lists.phead != null && lists.phead.key <= now
      modifies lists, lists.Nodes()
      ensures Valid() && 0 < |fired| <= DueCount(old(Data(lists.active)), now)
      ensures |fired| <= BATCH && (more <==> |fired| == BATCH)
      ensures forall i :: 0 <= i < |fired| ==> fired[i] == old(Data(lists.active))[i].value
      ensures lists.active == old(lists.active)[|fired|..] && lists.free == old(lists.active)[..|fired|] + old(lists.free)
      ensures Data(lists.active) == old(Data(lists.active))[|fired|..]
      ensures !more ==> |fired| == DueCount(old(Data(lists.active)), now)
    {
      hide Chain, Distinct, Apart, Sorted, Data, DueCount;
      ghost var q := Data(lists.active);
      var funcarr := new nat[BATCH];
      var ptr, callnr := Collect(now, funcarr);
      fired := Fire(funcarr, callnr, q);
      lists.ReleaseFront(ptr, BATCH - callnr);
      SortedRest(q, BATCH - callnr);
      more := callnr == 0;
    }

    /** The collected callbacks, from the end of the array down. */
    method Fire(funcarr: array<nat>, callnr: nat, ghost q: seq<Item>) returns (fired: seq<nat>)
      requires callnr <= BATCH == funcarr.Length && BATCH - callnr <= |q|
      requires forall i :: 0 <= i < BATCH - callnr ==> funcarr[BATCH - 1 - i] == q[i].value
      ensures |fired| == BATCH - callnr && forall i :: 0 <= i < |fired| ==> fired[i] == q[i].value
    {
      fired := [];
      var i := BATCH - 1;
      while i >= callnr
        invariant callnr - 1 <= i < BATCH && |fired| == BATCH - 1 - i
        invariant forall j :: 0 <= j < |fired| ==> fired[j] == q[j].value
      {
        fired := fired + [funcarr[i]];
        i := i - 1;
      }
    }

    /** `run_timer_softirq` at time now: all timeouts that are due fire, once each and in their order, in batches;
        none that is due remains, and no node is lost. */
    method RunTimers(now: nat) returns (fired: seq<nat>)
      requires Valid()
      modifies lists, lists.Nodes()
      ensures Valid() && Fires(old(Data(lists.active)), now, fired) && NoneLeft(Data(lists.active), now)
      ensures Left(old(Data(lists.active)), old(lists.active), old(lists.free), |fired|, Data(lists.active), lists.active, lists.free)
      decreases |lists.active|
    {
      hide Chain, Distinct, Apart, Sorted, DueCount, Fires;
      ghost var q, s, f := Data(lists.active), lists.active, lists.free;
      assert Sorted(q);
      HeadIs(lists.phead, lists.active);
      if lists.phead == null || now < lists.phead.key {
        NoneDue(q, s, f, now);
        return [];
      }
      var more;
      fired, more := RunBatch(now);
      ghost var k := |fired|;
      if more {
        var rest := RunTimers(now);
        Continued(q, s, f, now, fired, rest);
        fired := fired + rest;
      } else {
        AllFired(q, s, f, now, fired);
      }
    }
  }

  /** `set_timeout` at time now and then `run_timer_softirq` at time t: the callback fires if and only if the deadline, the
      sum of msec and now in 64 bits, has come, and is pending until then. */
  method SetThenRun(m: Manager, msec: Msec, callback: nat, now: Msec, memory: bool, t: Msec)
      returns (ok: bool, fired: seq<nat>)
    requires m.Valid()
    modifies m.lists, m.lists.Nodes()
    ensures m.Valid() && ok == (old(m.lists.free) != [] || memory)
    ensures ok && now + msec < WRAP ==>
      FiresWith(old(Data(m.lists.active)), Item(now + msec, callback), t, fired, Data(m.lists.active))
    ensures ok && now + msec >= WRAP ==>
      FiresWith(old(Data(m.lists.active)), Item(now + msec - WRAP, callback), t, fired, Data(m.lists.active))
    ensures !ok ==> Fires(old(Data(m.lists.active)), t, fired)
  {
    hide Fires, FiresWith, Inserted, Sorted, DueCount;
    ghost var q := Data(m.lists.active);
    assert Sorted(q);
    ok := m.SetTimeout(msec, callback, now, memory);
    fired := m.RunTimers(t);
    if ok {
      InsertedFires(q, Item(if now + msec < WRAP then now + msec else now + msec - WRAP, callback), t, fired,
                    Data(m.lists.active));
    }
  }
}
