/**
 Compact fill: conns whose own slot is unusable pack themselves onto as few slots as the quota allows,
 so that a path change marks as few slots as possible.
 */
module CompactFill {
  import opened Basics
  import opened CredEntry
  import opened PoolOps

  function AcquirableSlots(p: Pool, now: Time): set<nat>
    requires WellFormed(p)
  {
    set i: nat | i < p.size && Acquirable(p.slots[i], now)
  }

  /** The slots of a set that carry conns, and those at their quota. */
  function Occupied(p: Pool, open: set<nat>): set<nat> {
    set i | i in open && i < |p.slots| && p.slots[i].active > 0
  }

  function Full(p: Pool, open: set<nat>): set<nat> {
    set i | i in open && i < |p.slots| && p.slots[i].active == CONNS_PER_SLOT
  }

  /** The slot could be acquired if it were below its quota. */
  predicate Ready(e: Entry, now: Time) {
    Available(e, now) && e.active <= CONNS_PER_SLOT
  }

  predicate PackedAt(p: Pool, open: set<nat>, partial: Option<nat>, now: Time, i: nat)
    requires WellFormed(p) && i < p.size
  {
    if i in open then
      Ready(p.slots[i], now) &&
      (p.slots[i].active == 0 || p.slots[i].active == CONNS_PER_SLOT || partial == Some(i))
    else !Acquirable(p.slots[i], now)
  }

  /** Outside `open` nothing is acquirable; inside it every slot is idle or full, but for the partial one. */
  predicate Packed(p: Pool, open: set<nat>, partial: Option<nat>, now: Time) {
    && WellFormed(p)
    && (forall i :: i in open ==> i < p.size)
    && (forall i: nat :: i < p.size ==> PackedAt(p, open, partial, now, i))
    && (partial.Some? ==> partial.value in open && 0 < p.slots[partial.value].active < CONNS_PER_SLOT)
  }

  function PartialLoad(p: Pool, partial: Option<nat>): nat
    requires partial.Some? ==> partial.value < |p.slots|
  {
    if partial.Some? then p.slots[partial.value].active else 0
  }

  /** With a partly filled slot the next fallback acquire takes that very slot. */
  lemma PartialIsPicked(p: Pool, open: set<nat>, partial: nat, own: nat, now: Time)
    requires Packed(p, open, Some(partial), now) && own < p.size && own !in open
    ensures PickAcquire(p, own, now) == partial
  {
    assert PackedAt(p, open, Some(partial), now, own) && PackedAt(p, open, Some(partial), now, partial);
    var r := PickAcquire(p, own, now);
    assert Acquirable(p.slots[partial], now);
    assert r >= 0 && r != own;
    assert PackedAt(p, open, Some(partial), now, r);
    assert Beats(p.slots, own, now, p.size, r);
  }

  /** Without one, it takes an idle slot, the lowest there is. */
  lemma IdleIsPicked(p: Pool, open: set<nat>, own: nat, now: Time)
    requires Packed(p, open, None, now) && own < p.size && own !in open
    requires |Full(p, open)| < |open|
    ensures var r := PickAcquire(p, own, now);
            && r >= 0 && r in open && p.slots[r].active == 0
            && forall j: nat :: j in open && j < r ==> p.slots[j].active == CONNS_PER_SLOT
  {
    assert PackedAt(p, open, None, now, own);
    assert exists i :: i in open && i !in Full(p, open) by {
      if open <= Full(p, open) { SubsetSize(open, Full(p, open)); }
    }
    var i :| i in open && i !in Full(p, open);
    assert PackedAt(p, open, None, now, i) && Acquirable(p.slots[i], now);
    var r := PickAcquire(p, own, now);
    assert PackedAt(p, open, None, now, r);
    forall j: nat | j in open && j < r ensures p.slots[j].active == CONNS_PER_SLOT {
      assert PackedAt(p, open, None, now, j);
      assert Beats(p.slots, own, now, p.size, r);
    }
  }

  function Taken(p: Pool, r: nat): Pool
    requires r < |p.slots|
  {
    With(p, p.slots[r := Bump(p.slots[r])])
  }

  function PartialAfter(p: Pool, r: nat): Option<nat>
    requires r < |p.slots|
  {
    if p.slots[r].active + 1 == CONNS_PER_SLOT then None else Some(r)
  }

  lemma TakenPacked(p: Pool, open: set<nat>, partial: Option<nat>, r: nat, now: Time)
    requires Packed(p, open, partial, now) && r in open
    requires if partial.Some? then r == partial.value else p.slots[r].active == 0
    ensures Packed(Taken(p, r), open, PartialAfter(p, r), now)
  {
    var q := Taken(p, r);
    forall i: nat | i < q.size ensures PackedAt(q, open, PartialAfter(p, r), now, i) {
      assert PackedAt(p, open, partial, now, i);
    }
  }

  lemma TakenCount(p: Pool, open: set<nat>, partial: Option<nat>, r: nat, now: Time)
    requires Packed(p, open, partial, now) && r in open
    requires if partial.Some? then r == partial.value else p.slots[r].active == 0
    ensures var q := Taken(p, r);
            10 * |Full(q, open)| + PartialLoad(q, PartialAfter(p, r)) ==
            10 * |Full(p, open)| + PartialLoad(p, partial) + 1
  {
    var q := Taken(p, r);
    assert PackedAt(p, open, partial, now, r);
    assert r !in Full(p, open);
    if p.slots[r].active + 1 == CONNS_PER_SLOT {
      assert Full(q, open) == Full(p, open) + {r};
    } else {
      assert Full(q, open) == Full(p, open);
    }
  }

  /** Occupied slots are the full ones and the partial one. */
  lemma OccupiedSize(p: Pool, open: set<nat>, partial: Option<nat>, now: Time)
    requires Packed(p, open, partial, now)
    ensures |Occupied(p, open)| == |Full(p, open)| + if partial.Some? then 1 else 0
  {
    forall i | i in open
      ensures i in Occupied(p, open) <==> i in Full(p, open) || partial == Some(i)
    {
      assert PackedAt(p, open, partial, now, i);
    }
    if partial.Some? {
      assert Occupied(p, open) == Full(p, open) + {partial.value};
      assert partial.value !in Full(p, open);
    } else {
      assert Occupied(p, open) == Full(p, open);
    }
  }

  /** k conns call `get` one after the other at one instant, with no release in between. */
  function GetAll(p: Pool, conns: seq<int>, now: Time): (q: Pool)
    requires WellFormed(p)
    ensures WellFormed(q) && q.size == p.size
    decreases conns
  {
    if conns == [] then p else GetAll(EnterGet(p, conns[0], now), conns[1..], now)
  }

  lemma OneGet(p: Pool, open: set<nat>, partial: Option<nat>, connIdx: int, now: Time) returns (next: Option<nat>)
    requires Packed(p, open, partial, now) && OwnSlot(p.size, connIdx) !in open
    requires !Future(p.pauseUntil, now)
    requires 10 * |Full(p, open)| + PartialLoad(p, partial) < 10 * |open|
    ensures var q := EnterGet(p, connIdx, now);
            && Packed(q, open, next, now) && q.pauseUntil == p.pauseUntil && q.size == p.size
            && 10 * |Full(q, open)| + PartialLoad(q, next) == 10 * |Full(p, open)| + PartialLoad(p, partial) + 1
  {
    var own := OwnSlot(p.size, connIdx);
    if partial.Some? {
      PartialIsPicked(p, open, partial.value, own, now);
    } else {
      IdleIsPicked(p, open, own, now);
    }
    var r := PickAcquire(p, own, now);
    next := PartialAfter(p, r);
    TakenPacked(p, open, partial, r, now);
    TakenCount(p, open, partial, r, now);
    assert Decide(p, connIdx, now) == Granted(r);
    assert EnterGet(p, connIdx, now) == Taken(p, r);
  }

  lemma {:induction false} ManyGets(p: Pool, open: set<nat>, partial: Option<nat>, conns: seq<int>, now: Time)
    returns (last: Option<nat>)
    requires Packed(p, open, partial, now) && !Future(p.pauseUntil, now)
    requires forall c :: c in conns ==> OwnSlot(p.size, c) !in open
    requires 10 * |Full(p, open)| + PartialLoad(p, partial) + |conns| <= 10 * |open|
    ensures var q := GetAll(p, conns, now);
            && Packed(q, open, last, now)
            && 10 * |Full(q, open)| + PartialLoad(q, last) == 10 * |Full(p, open)| + PartialLoad(p, partial) + |conns|
    decreases conns
  {
    if conns == [] {
      last := partial;
    } else {
      assert conns[0] in conns;
      var next := OneGet(p, open, partial, conns[0], now);
      last := ManyGets(EnterGet(p, conns[0], now), open, next, conns[1..], now);
    }
  }

  lemma IdlePoolPacked(p: Pool, now: Time)
    requires WellFormed(p)
    requires forall i :: 0 <= i < p.size && Acquirable(p.slots[i], now) ==> p.slots[i].active == 0
    ensures Packed(p, AcquirableSlots(p, now), None, now)
    ensures Full(p, AcquirableSlots(p, now)) == {}
  {
  }

  /**
   From a pool whose acquirable slots are idle, k conns whose own slots are not acquirable occupy
   exactly ceil(k / 10) of them when they fit, floor(k / 10) of them full and at most one in between.
   */
  lemma FallbacksOccupyFewestSlots(p: Pool, conns: seq<int>, now: Time)
    requires WellFormed(p) && !Future(p.pauseUntil, now)
    requires forall i :: 0 <= i < p.size && Acquirable(p.slots[i], now) ==> p.slots[i].active == 0
    requires forall c :: c in conns ==> OwnSlot(p.size, c) !in AcquirableSlots(p, now)
    requires |conns| <= 10 * |AcquirableSlots(p, now)|
    ensures var q := GetAll(p, conns, now); var open := AcquirableSlots(p, now);
            && |Occupied(q, open)| == (|conns| + 9) / 10
            && |Full(q, open)| == |conns| / 10
            && forall i: nat :: i < q.size && i !in open ==> !Acquirable(q.slots[i], now)
  {
    var open := AcquirableSlots(p, now);
    IdlePoolPacked(p, now);
    var last := ManyGets(p, open, None, conns, now);
    var q := GetAll(p, conns, now);
    OccupiedSize(q, open, last, now);
    forall i: nat | i < q.size && i !in open ensures !Acquirable(q.slots[i], now) {
      assert PackedAt(q, open, last, now, i);
    }
  }
}
