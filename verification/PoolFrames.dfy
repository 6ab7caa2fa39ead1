/**
 What the pool's operations leave alone, and what dropping a cred leaves behind.
 */
module PoolFrames {
  import opened Basics
  import opened CredEntry
  import opened PoolOps
  import opened PoolRuns
  import opened Wakeups

  /** Slot numbers out of range are ignored. */
  lemma OutOfRangeIgnored(p: Pool, slot: int, limit: int, now: Time)
    requires WellFormed(p) && |p.slots| == p.size && (slot < 0 || slot >= p.size)
    ensures Release(p, slot, now) == p && MarkSaturated(p, slot, now) == p && InvalidateEntry(p, slot) == p
    ensures !ReleaseSignals(p, slot, now) && EnterFill(p, slot, limit, now) == p
  {
  }

  /** The slots an action may change: the one it names, or the one the decision falls on. */
  predicate Touches(s: Sys, a: Action, j: nat)
    requires Shape(s) && Enabled(s, a)
  {
    match a
    case Advance(_) => false
    case GetEnter(c) =>
      (match Decide(s.pool, c, s.now)
       case Granted(i) => i == j
       case FetchInto(i) => i == j
       case _ => false)
    case GetExit(i, c, result) =>
      i == j || (result.None? && ExitGetFail(s.pool, i, OwnSlot(s.pool.size, c), s.now).1 == j)
    case FillEnter(i, _) => i == j
    case FillExit(i, _, _) => i == j
    case Return(i, _) => i == j
    case Mark(i) => i == j
    case PathEvent => j < s.pool.size && PathMarks(s.pool.slots[j], s.now)
    case Transition(_) => false
    case DropAll => true
    case DropOne(i) => i == j
    case SeedAt(_, _, _) => true
  }

  /** No action changes any other slot. */
  lemma OnlyItsSlots(s: Sys, a: Action, j: nat)
    requires Shape(s) && Enabled(s, a) && j < s.pool.size && !Touches(s, a, j)
    ensures Step(s, a).pool.slots[j] == s.pool.slots[j]
  {
    if a.GetExit? {
    } else if a.GetEnter? {
    } else {
    }
  }

  /** Only path events and transitions move the pause, and only path events the record of them. */
  lemma OnlyPathEventsPause(s: Sys, a: Action)
    requires Shape(s) && Enabled(s, a) && !a.PathEvent?
    ensures Step(s, a).pool.lastPathEvent == s.pool.lastPathEvent
    ensures !a.Transition? ==> Step(s, a).pool.pauseUntil == s.pool.pauseUntil
    ensures Step(s, a).pool.cooldown == s.pool.cooldown && Step(s, a).pool.size == s.pool.size
  {
    if !a.Transition? { StepKeepsPause(s, a); }
    if a.GetEnter? || a.GetExit? {
    } else {
    }
  }

  /** A dropped slot holds no cred, waits for nothing, and can be fetched into at once. */
  lemma DroppedSlotIsBlank(s: Sys, a: Action, j: nat, now: Time)
    requires Shape(s) && j < s.pool.size && (a == DropAll || a == DropOne(j))
    ensures var e := Step(s, a).pool.slots[j];
            e.creds.None? && e.addr == "" && e.active == 0 && FetchEligible(e, now) && !Usable(e, now)
  {
  }

  /** A lease taken or given back changes the count by one, and no cred, mark or delay. */
  lemma LeaseMovesCountOnly(s: Sys, i: nat, connIdx: int, ofOld: bool)
    requires Shape(s) && i < s.pool.size
    ensures Decide(s.pool, connIdx, s.now) == Decision.Granted(i) ==>
            GetEnterStep(s, connIdx).pool.slots[i] == s.pool.slots[i].(active := s.pool.slots[i].active + 1)
    ensures s.pool.slots[i].active > 1 ==>
            Release(s.pool, i, s.now).slots[i] == s.pool.slots[i].(active := s.pool.slots[i].active - 1)
    ensures s.pool.slots[i].active == 1 ==>
            Release(s.pool, i, s.now).slots[i] == s.pool.slots[i].(active := 0, lastUsedAt := Some(s.now))
    ensures s.pool.slots[i].active == 0 ==> Release(s.pool, i, s.now).slots[i] == s.pool.slots[i]
  {
  }

  /** A fetch that succeeds leaves its cred and address in the slot, with one conn or none on it. */
  lemma FetchedCredIsKept(s: Sys, i: nat, addr: string, cred: Cred, limit: int)
    requires Shape(s) && i < s.pool.size
    ensures var e := ExitGetOk(s.pool, i, addr, cred).slots[i];
            e.creds == Some(cred) && e.addr == addr && e.active == 1 && !e.fetching &&
            (Fresh(e, s.now) <==> Unexpired(cred, s.now))
    ensures FillCommits(s.pool, limit, s.now) ==>
            var e := ExitFillOk(s.pool, i, limit, addr, cred, s.now).slots[i];
            e.creds == Some(cred) && e.addr == addr && e.active == 0 && !e.fetching &&
            (Acquirable(e, s.now) <==> Unexpired(cred, s.now))
  {
  }

  lemma CoolDownKeepsAcquirable(p: Pool, slot: nat, now: Time, i: nat)
    requires slot < |p.slots| && i < |p.slots|
    ensures var c := CoolDown(p, slot, now);
            Acquirable(c.slots[i], now) == Acquirable(p.slots[i], now) && c.slots[i].active == p.slots[i].active
  {
  }

  lemma FallbackPick(p: Pool, slot: nat, own: nat, now: Time)
    requires WellFormed(p) && slot < p.size && own < p.size
    ensures var pick := PickAcquire(CoolDown(p, slot, now), own, now);
            && (pick >= 0 <==> exists i :: 0 <= i < p.size && Acquirable(p.slots[i], now))
            && (pick >= 0 ==> Acquirable(p.slots[pick], now))
            && (Acquirable(p.slots[own], now) ==> pick == own)
  {
    forall i | 0 <= i < p.size ensures Acquirable(CoolDown(p, slot, now).slots[i], now) == Acquirable(p.slots[i], now) {
      CoolDownKeepsAcquirable(p, slot, now, i);
    }
  }

  /** After a failed fetch the conn is granted a slot exactly if one can be acquired then: its own if that can,
      and one more conn is counted on it. The slot of the fetch cools down. */
  lemma FailedFetchFallsBack(p: Pool, slot: nat, own: nat, now: Time)
    requires WellFormed(p) && slot < p.size && own < p.size
    ensures var r := ExitGetFail(p, slot, own, now);
            && (r.1 >= 0 <==> exists i :: 0 <= i < p.size && Acquirable(p.slots[i], now))
            && (r.1 >= 0 ==> Acquirable(p.slots[r.1], now))
            && (Acquirable(p.slots[own], now) ==> r.1 == own)
  {
    FallbackPick(p, slot, own, now);
  }

  lemma FallbackCounts(p: Pool, slot: nat, own: nat, now: Time)
    requires WellFormed(p) && slot < p.size && own < p.size
    ensures var r := ExitGetFail(p, slot, own, now);
            && |r.0.slots| == |p.slots|
            && (r.1 >= 0 ==> r.0.slots[r.1].active == p.slots[r.1].active + 1)
            && r.0.slots[slot].cooldownUntil == Some(now + p.cooldown) && !r.0.slots[slot].fetching
  {
    var c := CoolDown(p, slot, now);
    var pick := PickAcquire(c, own, now);
    if pick >= 0 { CoolDownKeepsAcquirable(p, slot, now, pick); }
  }
}
