/**
 The background grower's limit: `tryFill` gives up when enough slots are available, before the fetch and again
 after it, so that fills which run at the same time do not overshoot.
 */
module FillLimit {
  import opened Basics
  import opened CredEntry
  import opened PoolOps
  import opened PoolRuns

  /** What `tryFill` comes to: a slot out of range, one that holds a usable cred, one that cools down or is
      being fetched into, too many available slots, or a fetch. A limit of zero or less is none. */
  lemma FillTable(p: Pool, slot: int, limit: int, now: Time)
    requires WellFormed(p)
    ensures var d := DecideFill(p, slot, limit, now);
            var inRange := 0 <= slot < p.size;
            var enough := limit >= 1 && |AvailableSlots(p.slots, now)| >= limit;
            && (d == FillDecision.Rejected <==> !inRange)
            && (d == AlreadyFilled <==> inRange && Usable(p.slots[slot], now))
            && (d == FillInto <==> inRange && FetchEligible(p.slots[slot], now) && !enough)
            && (d == Redundant <==> inRange && FetchEligible(p.slots[slot], now) && enough)
  {
  }

  /** One slot changes: at most one more is available. */
  lemma OneMoreAvailable(a: seq<Entry>, e: Entry, i: nat, now: Time)
    requires i < |a|
    ensures |AvailableSlots(a[i := e], now)| <= |AvailableSlots(a, now)| + 1
  {
    var b := a[i := e];
    forall j | j in AvailableSlots(b, now) ensures j in AvailableSlots(a, now) + {i} {
      if j != i { assert b[j] == a[j]; }
    }
    SubsetSize(AvailableSlots(b, now), AvailableSlots(a, now) + {i});
  }

  /** The flags of a fetch do not touch availability. */
  lemma SameAvailable(a: seq<Entry>, e: Entry, i: nat, now: Time)
    requires i < |a| && Available(e, now) == Available(a[i], now)
    ensures AvailableSlots(a[i := e], now) == AvailableSlots(a, now)
  {
    var b := a[i := e];
    forall j ensures j in AvailableSlots(b, now) <==> j in AvailableSlots(a, now) {
      if 0 <= j < |a| && j != i { assert b[j] == a[j]; }
    }
  }

  predicate FillWith(a: Action, limit: int) {
    (a.FillEnter? || a.FillExit?) && a.abort == limit
  }

  /** The end of a fill that fetched: committed, it makes the slot available; over the limit, it changes no
      slot's availability. */
  lemma FillEnds(s: Sys, i: nat, limit: int, addr: string, cred: Cred)
    requires Shape(s) && i < s.pool.size && s.books[i].fills > 0 && limit >= 1
    ensures var n := |AvailableSlots(s.pool.slots, s.now)|;
            var t := FillOkStep(s, i, limit, addr, cred);
            && |AvailableSlots(t.pool.slots, s.now)| <= (if n < limit then n + 1 else n)
            && (n < limit ==> t.pool.slots[i] == Filled(addr, cred, 0))
            && (n >= limit ==> t.pool.slots[i].creds == s.pool.slots[i].creds)
  {
    var e := s.pool.slots[i];
    if FillCommits(s.pool, limit, s.now) {
      OneMoreAvailable(s.pool.slots, Filled(addr, cred, 0), i, s.now);
    } else {
      SameAvailable(s.pool.slots, e.(fetching := false), i, s.now);
    }
  }

  lemma FillStarts(s: Sys, i: int, limit: int)
    requires Shape(s)
    ensures AvailableSlots(FillEnterStep(s, i, limit).pool.slots, s.now) == AvailableSlots(s.pool.slots, s.now)
  {
    if DecideFill(s.pool, i, limit, s.now).FillInto? {
      SameAvailable(s.pool.slots, s.pool.slots[i].(fetching := true), i, s.now);
    }
  }

  lemma FillFails(s: Sys, i: nat)
    requires Shape(s) && i < s.pool.size && s.books[i].fills > 0
    ensures AvailableSlots(FillFailStep(s, i).pool.slots, s.now) == AvailableSlots(s.pool.slots, s.now)
  {
    var e := s.pool.slots[i];
    SameAvailable(s.pool.slots, e.(fetching := false, cooldownUntil := Some(s.now + s.pool.cooldown)), i, s.now);
  }

  lemma FillStep(s: Sys, a: Action, limit: int)
    requires Shape(s) && Enabled(s, a) && FillWith(a, limit) && limit >= 1
    ensures var n := |AvailableSlots(s.pool.slots, s.now)|;
            |AvailableSlots(Step(s, a).pool.slots, s.now)| <= if n < limit then n + 1 else n
  {
    if a.FillEnter? {
      FillStarts(s, a.fillSlot, limit);
    } else if a.result.Some? {
      FillEnds(s, a.slot, limit, a.result.value.0, a.result.value.1);
    } else {
      FillFails(s, a.slot);
    }
  }

  /** However many fills with the same limit overlap at one instant, they do not take the number of available
      slots past the limit. */
  lemma {:induction false} FillsStopAtLimit(s: Sys, acts: seq<Action>, limit: int)
    requires Shape(s) && IsRun(s, acts) && limit >= 1
    requires forall a :: a in acts ==> FillWith(a, limit)
    ensures Final(s, acts).now == s.now
    ensures var before := |AvailableSlots(s.pool.slots, s.now)|;
            |AvailableSlots(Final(s, acts).pool.slots, s.now)| <= if before < limit then limit else before
    decreases acts
  {
    if acts != [] {
      assert acts[0] in acts;
      FillStep(s, acts[0], limit);
      FillsStopAtLimit(Step(s, acts[0]), acts[1..], limit);
    }
  }
}
