/**
 Safety after a network path change: slots in use are closed at once, stay closed for the relay's
 allocation lifetime plus the safety buffer in every continuation, and no new `get` gets past the
 pause, whose deadline never moves back.
 */
module PathChanges {
  import opened Basics
  import opened CredEntry
  import opened PoolOps
  import opened PoolRuns
  import opened LeaseAccounting

  const HOLD: Time := 630_000_000_000  // ALLOC_LIFETIME + SAFETY_BUFFER

  // ---------- the event itself ----------

  /** Right after a path change no slot that carries conns can be acquired, and a slot whose last conn
      left a real allocation behind inside the relay's lifetime cannot either. */
  lemma InUseSlotsClosed(p: Pool, now: Time, i: nat)
    requires WellFormed(p) && i < p.size
    ensures p.slots[i].active > 0 ==> !Acquirable(PathChange(p, now).slots[i], now)
    ensures p.slots[i].lastUsedAt.Some? &&
            2_000_000_000 < now - p.slots[i].lastUsedAt.value < 630_000_000_000 ==>
            !Acquirable(PathChange(p, now).slots[i], now)
  {
  }

  /** Of the slots that could be acquired, a path change closes exactly those that may still hold
      allocations on the old path: conns on them, or a use that ended 2 s to 630 s ago. The others keep
      their every field. */
  lemma ClosesExactlyRiskySlots(p: Pool, now: Time, i: nat)
    requires WellFormed(p) && i < p.size && Acquirable(p.slots[i], now)
    ensures !Acquirable(PathChange(p, now).slots[i], now) <==>
            || p.slots[i].active > 0
            || (p.slots[i].lastUsedAt.Some? && 2_000_000_000 < now - p.slots[i].lastUsedAt.value < 630_000_000_000)
    ensures Acquirable(PathChange(p, now).slots[i], now) ==> PathChange(p, now).slots[i] == p.slots[i]
  {
  }

  /** The pause after an event is 30 s if the previous one was 500 ms to 90 s before, 500 ms otherwise, or
      what was left of the pause before if that is longer; its timer stands at the deadline. */
  lemma PauseLength(p: Pool, now: Time)
    requires WellFormed(p)
    ensures var q := PathChange(p, now);
            var cascade := p.lastPathEvent.Some? &&
                           500_000_000 <= now - p.lastPathEvent.value < 90_000_000_000;
            var deadline := now + if cascade then 30_000_000_000 else 500_000_000;
            && q.pauseUntil == Some(if p.pauseUntil.Some? && p.pauseUntil.value >= deadline
                                    then p.pauseUntil.value else deadline)
            && (q.pauseUntil != p.pauseUntil ==> q.pauseTimer == q.pauseUntil)
            && q.lastPathEvent == Some(now)
  {
  }

  /** A transition moves the deadline to now + d if that is later, and touches nothing else. */
  lemma TransitionExtends(p: Pool, d: Time, now: Time)
    ensures var q := ExtendPause(p, d, now);
            && q.slots == p.slots && q.lastPathEvent == p.lastPathEvent
            && q.pauseUntil == Some(if p.pauseUntil.Some? && p.pauseUntil.value >= now + d
                                    then p.pauseUntil.value else now + d)
  {
  }

  /** A slot that a path change closed can be acquired again from 630 s after the anchor on, as far as its
      conns and its cred allow, and not before. */
  lemma ReopensAfterHold(p: Pool, now: Time, i: nat, later: Time)
    requires WellFormed(p) && i < p.size && PathMarks(p.slots[i], now) && now <= later
    ensures var e := p.slots[i];
            Acquirable(PathChange(p, now).slots[i], later) <==>
            && later >= (if e.active > 0 then now else e.lastUsedAt.value) + 630_000_000_000
            && e.active < 10 && Unexpired(e.creds.value, later)
  {
    assert PathChange(p, now).slots[i] == PathMark(p.slots[i], now);
  }

  // ---------- every continuation: the pause ----------

  predicate PausedUntil(p: Pool, deadline: Time) {
    p.pauseUntil.Some? && p.pauseUntil.value >= deadline
  }

  lemma StepKeepsPauseDeadline(s: Sys, a: Action, deadline: Time)
    requires Shape(s) && Enabled(s, a) && PausedUntil(s.pool, deadline)
    ensures PausedUntil(Step(s, a).pool, deadline)
  {
  }

  lemma {:induction false} RunKeepsPauseDeadline(s: Sys, acts: seq<Action>, deadline: Time)
    requires Shape(s) && IsRun(s, acts) && PausedUntil(s.pool, deadline)
    ensures PausedUntil(Final(s, acts).pool, deadline)
    decreases acts
  {
    if acts != [] {
      StepKeepsPauseDeadline(s, acts[0], deadline);
      RunKeepsPauseDeadline(Step(s, acts[0]), acts[1..], deadline);
    }
  }

  /** Once a deadline is set, every `get` that starts before it is refused, in every continuation. */
  lemma GetsRefusedUntilDeadline(s: Sys, acts: seq<Action>, deadline: Time, connIdx: int)
    requires Shape(s) && IsRun(s, acts) && PausedUntil(s.pool, deadline)
    requires Final(s, acts).now < deadline
    ensures Decide(Final(s, acts).pool, connIdx, Final(s, acts).now) == Paused
    ensures Step(Final(s, acts), GetEnter(connIdx)) == Final(s, acts)
  {
    RunKeepsPauseDeadline(s, acts, deadline);
  }

  // ---------- every continuation: the marked slots ----------

  /**
   The slot was marked with this anchor. Until anchor + 630 s it stays saturated at least that long,
   and it remembers why: a conn still holds it, or the last one left no earlier than the anchor. The
   memory is what keeps a later 486 from choosing the short cooldown and lifting the mark early.
   */
  predicate HeldBack(e: Entry, anchor: Time, now: Time) {
    && anchor <= now
    && (now < anchor + HOLD ==>
          && e.saturatedUntil.Some? && e.saturatedUntil.value >= anchor + HOLD
          && (e.active > 0 || (e.lastUsedAt.Some? && e.lastUsedAt.value >= anchor)))
  }

  lemma MarkedIsHeldBack(e: Entry, now: Time)
    requires PathMarks(e, now)
    ensures HeldBack(PathMark(e, now), Anchor(e, now).value, now)
  {
  }

  lemma HeldBackIsClosed(e: Entry, anchor: Time, now: Time)
    requires HeldBack(e, anchor, now) && now < anchor + HOLD
    ensures !Acquirable(e, now)
  {
  }

  /** A 486 on a held-back slot never shortens the hold. */
  lemma QuotaErrorKeepsHold(e: Entry, anchor: Time, now: Time)
    requires HeldBack(e, anchor, now)
    ensures HeldBack(Saturate(e, now + QuotaCooldown(e, now)), anchor, now)
  {
  }

  lemma PathMarkKeepsHold(e: Entry, anchor: Time, now: Time)
    requires HeldBack(e, anchor, now)
    ensures HeldBack(PathMark(e, now), anchor, now)
  {
  }

  lemma LowerKeepsHold(e: Entry, anchor: Time, now: Time)
    requires HeldBack(e, anchor, now)
    ensures HeldBack(Lower(e, now), anchor, now)
  {
  }

  predicate HeldAt(s: Sys, i: nat, anchor: Time)
    requires Shape(s) && i < s.pool.size
  {
    HeldBack(s.pool.slots[i], anchor, s.now)
  }

  lemma GetKeepsHold(s: Sys, a: Action, i: nat, anchor: Time)
    requires Shape(s) && Enabled(s, a) && i < s.pool.size && HeldAt(s, i, anchor)
    requires a.GetEnter? || (a.GetExit? && !Replaces(s, a, i))
    ensures HeldAt(Step(s, a), i, anchor)
  {
    if a.GetExit? && a.result.None? {
      var q := CoolDown(s.pool, a.slot, s.now);
      assert HeldBack(q.slots[i], anchor, s.now);
    }
  }

  lemma StepKeepsHold(s: Sys, a: Action, i: nat, anchor: Time)
    requires Shape(s) && Enabled(s, a) && i < s.pool.size && HeldAt(s, i, anchor)
    requires !Replaces(s, a, i) && !a.SeedAt?
    ensures HeldAt(Step(s, a), i, anchor)
  {
    var e := s.pool.slots[i];
    if a.Mark? {
      if a.markSlot == i { QuotaErrorKeepsHold(e, anchor, s.now); }
    } else if a.PathEvent? {
      PathMarkKeepsHold(e, anchor, s.now);
    } else if a.Return? {
      if a.slot == i { LowerKeepsHold(e, anchor, s.now); }
    } else if a.GetEnter? || a.GetExit? {
      GetKeepsHold(s, a, i, anchor);
    } else {
    }
  }

  /** No action of the run puts another cred into slot i. */
  predicate KeepsCred(s: Sys, acts: seq<Action>, i: nat)
    requires Shape(s) && IsRun(s, acts) && i < s.pool.size
    decreases acts
  {
    acts == [] ||
    (!Replaces(s, acts[0], i) && !acts[0].SeedAt? && KeepsCred(Step(s, acts[0]), acts[1..], i))
  }

  lemma {:induction false} RunKeepsHold(s: Sys, acts: seq<Action>, i: nat, anchor: Time)
    requires Shape(s) && IsRun(s, acts) && i < s.pool.size && HeldAt(s, i, anchor) && KeepsCred(s, acts, i)
    ensures HeldAt(Final(s, acts), i, anchor)
    decreases acts
  {
    if acts != [] {
      StepKeepsHold(s, acts[0], i, anchor);
      RunKeepsHold(Step(s, acts[0]), acts[1..], i, anchor);
    }
  }

  /**
   A slot that a path change marks is closed in every state of every continuation that keeps its cred
   until 630 s after the anchor, whatever 486 marks, further path changes, releases and failed
   fetches happen in between; so no `get` is granted the slot before then.
   */
  lemma MarkedSlotClosedUntilAllocationsLapse(s: Sys, acts: seq<Action>, i: nat, connIdx: int)
    requires Shape(s) && i < s.pool.size && PathMarks(s.pool.slots[i], s.now)
    requires IsRun(Step(s, PathEvent), acts) && KeepsCred(Step(s, PathEvent), acts, i)
    requires Final(Step(s, PathEvent), acts).now < Anchor(s.pool.slots[i], s.now).value + HOLD
    ensures var t := Final(Step(s, PathEvent), acts);
            && !Acquirable(t.pool.slots[i], t.now)
            && Decide(t.pool, connIdx, t.now) != Decision.Granted(i)
  {
    var m := Step(s, PathEvent);
    var anchor := Anchor(s.pool.slots[i], s.now).value;
    MarkedIsHeldBack(s.pool.slots[i], s.now);
    assert m.pool.slots[i] == PathMark(s.pool.slots[i], s.now);
    RunKeepsHold(m, acts, i, anchor);
    HeldBackIsClosed(Final(m, acts).pool.slots[i], anchor, Final(m, acts).now);
  }
}
