/**
 Own slots: conn c prefers slot c / 10. While every slot can be acquired, conns that ask in order fill the
 slots ten by ten, whatever the size of the pool.
 */
module OwnSlots {
  import opened Basics
  import opened CredEntry
  import opened PoolOps

  /** Ten conns to a slot; those beyond the last slot share it. */
  lemma OwnSlotOf(size: nat, c: int)
    requires size >= 1
    ensures 0 <= c < 10 * size ==> OwnSlot(size, c) == c / 10
    ensures c < 0 ==> OwnSlot(size, c) == 0
    ensures c >= 10 * size ==> OwnSlot(size, c) == size - 1
  {
  }

  /** A pool sized for n conns has an own slot for each of them, and no more than ten conns to a slot. */
  lemma OwnSlotsSuffice(n: int, c: int)
    requires 0 <= c < n
    ensures var size := PoolSizeForNumConns(n);
            OwnSlot(size, c) == c / 10 < (n + 9) / 10 <= size
  {
    OwnSlotOf(PoolSizeForNumConns(n), c);
  }

  /** How many of the first k conns have slot i as their own. */
  function Share(k: nat, i: nat): nat {
    if k <= 10 * i then 0 else if k >= 10 * i + 10 then 10 else k - 10 * i
  }

  /** Slot i of an idle pool, after its share of k conns. */
  predicate FilledTo(p: Pool, idle: Pool, k: nat) {
    && WellFormed(p) && WellFormed(idle) && p.size == idle.size && |p.slots| == |idle.slots|
    && p.pauseUntil == idle.pauseUntil
    && forall i: nat :: i < p.size ==> SharedAt(p, idle, k, i)
  }

  predicate SharedAt(p: Pool, idle: Pool, k: nat, i: nat)
    requires i < |p.slots| == |idle.slots|
  {
    p.slots[i] == idle.slots[i].(active := Share(k, i))
  }

  /** No pause is on, and every slot is available. */
  predicate AllOpen(idle: Pool, now: Time) {
    WellFormed(idle) && !Future(idle.pauseUntil, now) && forall i: nat :: i < idle.size ==> OpenAt(idle, now, i)
  }

  predicate OpenAt(idle: Pool, now: Time, i: nat)
    requires i < |idle.slots|
  {
    Available(idle.slots[i], now)
  }

  lemma NextConn(p: Pool, idle: Pool, k: nat, now: Time)
    requires FilledTo(p, idle, k) && k < 10 * p.size && AllOpen(idle, now)
    ensures Decide(p, k, now) == Granted(k / 10) && FilledTo(EnterGet(p, k, now), idle, k + 1)
  {
    var own := k / 10;
    OwnSlotOf(p.size, k);
    assert SharedAt(p, idle, k, own) && Share(k, own) < 10 && OpenAt(idle, now, own);
    assert Acquirable(p.slots[own], now);
    var q, next := EnterGet(p, k, now), k + 1;
    forall i: nat | i < p.size ensures SharedAt(q, idle, next, i) {
      assert SharedAt(p, idle, k, i);
    }
  }

  function InOrder(p: Pool, k: nat, n: nat, now: Time): (q: Pool)
    requires WellFormed(p) && k <= n
    ensures WellFormed(q)
    decreases n - k
  {
    if k == n then p else InOrder(EnterGet(p, k, now), k + 1, n, now)
  }

  lemma {:induction false} ConnsInOrder(p: Pool, idle: Pool, k: nat, n: nat, now: Time)
    requires FilledTo(p, idle, k) && k <= n <= 10 * p.size && AllOpen(idle, now)
    ensures FilledTo(InOrder(p, k, n, now), idle, n)
    decreases n - k
  {
    if k < n {
      NextConn(p, idle, k, now);
      ConnsInOrder(EnterGet(p, k, now), idle, k + 1, n, now);
    }
  }

  /** n conns that ask in order of an idle pool of available slots: slot i ends with conns 10i to 10i + 9. */
  lemma FilledTenByTen(idle: Pool, n: nat, now: Time, i: nat)
    requires AllOpen(idle, now) && n <= 10 * idle.size && i < idle.size
    requires forall j :: 0 <= j < idle.size ==> idle.slots[j].active == 0
    ensures var q := InOrder(idle, 0, n, now);
            i < |q.slots| &&
            q.slots[i].active == if n <= 10 * i then 0 else if n >= 10 * i + 10 then 10 else n - 10 * i
  {
    ConnsInOrder(idle, idle, 0, n, now);
    assert SharedAt(InOrder(idle, 0, n, now), idle, n, i);
  }
}
