/**
 Two waits the pool imposes on a slot, in every continuation that keeps its cred: after a failed fetch no
 other fetch is started for it until the cooldown is over, and after a 486 nobody is granted it for at
 least the short cooldown.
 */
module Cooldowns {
  import opened Basics
  import opened CredEntry
  import opened PoolOps
  import opened PoolRuns
  import opened LeaseAccounting
  import opened PathChanges

  predicate AtOrAfter(t: Option<Time>, deadline: Time) { t.Some? && t.value >= deadline }

  // ---------- after a failed fetch ----------

  /** The slot cools down at least until the deadline, and a new cooldown would not end earlier. */
  predicate Cooling(s: Sys, i: nat, deadline: Time)
    requires Shape(s) && i < s.pool.size
  {
    AtOrAfter(s.pool.slots[i].cooldownUntil, deadline) && deadline <= s.now + s.pool.cooldown
  }

  lemma FailedGetKeepsCooling(s: Sys, j: nat, connIdx: int, i: nat, deadline: Time)
    requires Shape(s) && j < s.pool.size && s.books[j].gets > 0 && i < s.pool.size && Cooling(s, i, deadline)
    ensures Cooling(GetFailStep(s, j, connIdx), i, deadline)
  {
    assert AtOrAfter(CoolDown(s.pool, j, s.now).slots[i].cooldownUntil, deadline);
  }

  lemma StepKeepsCooling(s: Sys, a: Action, i: nat, deadline: Time)
    requires Shape(s) && Enabled(s, a) && i < s.pool.size && Cooling(s, i, deadline)
    requires !Replaces(s, a, i) && !a.SeedAt?
    ensures Cooling(Step(s, a), i, deadline)
  {
    if a.GetExit? && a.result.None? {
      FailedGetKeepsCooling(s, a.slot, a.connIdx, i, deadline);
    } else if a.GetEnter? || a.GetExit? {
    } else {
    }
  }

  lemma {:induction false} RunKeepsCooling(s: Sys, acts: seq<Action>, i: nat, deadline: Time)
    requires Shape(s) && IsRun(s, acts) && i < s.pool.size && KeepsCred(s, acts, i) && Cooling(s, i, deadline)
    ensures Cooling(Final(s, acts), i, deadline)
    decreases acts
  {
    if acts != [] {
      StepKeepsCooling(s, acts[0], i, deadline);
      RunKeepsCooling(Step(s, acts[0]), acts[1..], i, deadline);
    }
  }

  /** The action is the end of a failed fetch for slot i. */
  predicate FailsFetch(a: Action, i: nat) {
    (a.GetExit? || a.FillExit?) && a.slot == i && a.result.None?
  }

  /** After a fetch for a slot failed, neither `get` nor `tryFill` starts another one for it until the
      pool's cooldown has passed. */
  lemma NoFetchDuringCooldown(s: Sys, a: Action, acts: seq<Action>, i: nat, connIdx: int, abort: int)
    requires Shape(s) && Enabled(s, a) && i < s.pool.size && FailsFetch(a, i)
    requires IsRun(Step(s, a), acts) && KeepsCred(Step(s, a), acts, i)
    requires Final(Step(s, a), acts).now < s.now + s.pool.cooldown
    ensures var t := Final(Step(s, a), acts);
            Decide(t.pool, connIdx, t.now) != FetchInto(i) && !DecideFill(t.pool, i, abort, t.now).FillInto?
  {
    var deadline := s.now + s.pool.cooldown;
    assert AtOrAfter(CoolDown(s.pool, i, s.now).slots[i].cooldownUntil, deadline);
    RunKeepsCooling(Step(s, a), acts, i, deadline);
  }

  /** And from then on one may be, exactly if the slot holds no usable cred. */
  lemma FetchResumes(p: Pool, i: nat, now: Time, later: Time)
    requires i < |p.slots| && now <= later
    ensures var e := CoolDown(p, i, now).slots[i];
            && e.creds == p.slots[i].creds && !e.fetching
            && (FetchEligible(e, later) <==> later >= now + p.cooldown && !Usable(e, later))
  {
  }

  // ---------- after a 486 ----------

  /** The wait a 486 imposes: 660 s if conns hold the slot or held it within the last 720 s, else 180 s; then
      the slot is available again exactly if its cred is fresh. */
  lemma QuotaWait(p: Pool, i: nat, now: Time, later: Time)
    requires WellFormed(p) && i < p.size && now <= later
    ensures var e, m := p.slots[i], MarkSaturated(p, i, now).slots[i];
            var inUse := e.active > 0 || (e.lastUsedAt.Some? && now - e.lastUsedAt.value < 720_000_000_000);
            && m.active == e.active && m.creds == e.creds
            && (Available(m, later) <==>
                  Fresh(e, later) && later >= now + if inUse then 660_000_000_000 else 180_000_000_000)
  {
  }

  /** The slot is marked at least until the deadline, and a new mark would not end earlier. */
  predicate Marked(s: Sys, i: nat, deadline: Time)
    requires Shape(s) && i < s.pool.size
  {
    AtOrAfter(s.pool.slots[i].saturatedUntil, deadline) && deadline <= s.now + GHOST_COOLDOWN
  }

  lemma FailedGetKeepsMark(s: Sys, j: nat, connIdx: int, i: nat, deadline: Time)
    requires Shape(s) && j < s.pool.size && s.books[j].gets > 0 && i < s.pool.size && Marked(s, i, deadline)
    ensures Marked(GetFailStep(s, j, connIdx), i, deadline)
  {
    assert AtOrAfter(CoolDown(s.pool, j, s.now).slots[i].saturatedUntil, deadline);
  }

  lemma StepKeepsMark(s: Sys, a: Action, i: nat, deadline: Time)
    requires Shape(s) && Enabled(s, a) && i < s.pool.size && Marked(s, i, deadline)
    requires !Replaces(s, a, i) && !a.SeedAt?
    ensures Marked(Step(s, a), i, deadline)
  {
    if a.GetExit? && a.result.None? {
      FailedGetKeepsMark(s, a.slot, a.connIdx, i, deadline);
    } else if a.GetEnter? || a.GetExit? {
    } else if a.Mark? || a.PathEvent? {
    } else {
    }
  }

  lemma {:induction false} RunKeepsMark(s: Sys, acts: seq<Action>, i: nat, deadline: Time)
    requires Shape(s) && IsRun(s, acts) && i < s.pool.size && KeepsCred(s, acts, i) && Marked(s, i, deadline)
    ensures Marked(Final(s, acts), i, deadline)
    decreases acts
  {
    if acts != [] {
      StepKeepsMark(s, acts[0], i, deadline);
      RunKeepsMark(Step(s, acts[0]), acts[1..], i, deadline);
    }
  }

  /** After a 486 on a slot no `get` is granted it for the short cooldown of 180 s, whatever else happens. */
  lemma NoGrantAfterQuotaError(s: Sys, acts: seq<Action>, i: nat, connIdx: int)
    requires Shape(s) && i < s.pool.size && Enabled(s, Mark(i))
    requires IsRun(Step(s, Mark(i)), acts) && KeepsCred(Step(s, Mark(i)), acts, i)
    requires Final(Step(s, Mark(i)), acts).now < s.now + GHOST_COOLDOWN
    ensures var t := Final(Step(s, Mark(i)), acts);
            !Acquirable(t.pool.slots[i], t.now) && Decide(t.pool, connIdx, t.now) != Decision.Granted(i)
  {
    RunKeepsMark(Step(s, Mark(i)), acts, i, s.now + GHOST_COOLDOWN);
  }

  // ---------- when a 486 shortens a wait ----------

  /** No mark reaches further than the long cooldown from now. */
  predicate MarkCapped(s: Sys, i: nat)
    requires Shape(s) && i < s.pool.size
  {
    s.pool.slots[i].saturatedUntil.Some? ==> s.pool.slots[i].saturatedUntil.value <= s.now + ACTIVE_COOLDOWN
  }

  predicate AllCapped(s: Sys) { Shape(s) && forall i: nat :: i < s.pool.size ==> MarkCapped(s, i) }

  lemma FailedGetCapped(s: Sys, j: nat, connIdx: int, i: nat)
    requires AllCapped(s) && j < s.pool.size && s.books[j].gets > 0 && i < s.pool.size
    ensures MarkCapped(GetFailStep(s, j, connIdx), i)
  {
    assert MarkCapped(s, i);
    assert CoolDown(s.pool, j, s.now).slots[i].saturatedUntil == s.pool.slots[i].saturatedUntil;
  }

  lemma SeedCapped(s: Sys, a: Action, i: nat)
    requires AllCapped(s) && Enabled(s, a) && a.SeedAt? && i < s.pool.size
    ensures MarkCapped(Step(s, a), i)
  {
    SeedOrigin(s.pool.slots, a.slot, a.addr, a.cred, s.now, i);
    var e := SeedSlots(s.pool.slots, a.slot, a.addr, a.cred, s.now)[i];
    if e in s.pool.slots {
      var k :| 0 <= k < s.pool.size && s.pool.slots[k] == e;
      assert MarkCapped(s, k);
    }
  }

  /** A path change's mark ends at its anchor, which is not ahead of now, plus 630 s. */
  lemma PathMarkCapped(e: Entry, now: Time)
    requires e.saturatedUntil.Some? ==> e.saturatedUntil.value <= now + ACTIVE_COOLDOWN
    ensures var m := PathMark(e, now);
            m.saturatedUntil.Some? ==> m.saturatedUntil.value <= now + ACTIVE_COOLDOWN
  {
  }

  lemma StepCapped(s: Sys, a: Action, i: nat)
    requires AllCapped(s) && Enabled(s, a) && i < s.pool.size
    ensures MarkCapped(Step(s, a), i)
  {
    assert MarkCapped(s, i);
    if a.GetExit? && a.result.None? {
      FailedGetCapped(s, a.slot, a.connIdx, i);
    } else if a.SeedAt? {
      SeedCapped(s, a, i);
    } else if a.PathEvent? {
      PathMarkCapped(s.pool.slots[i], s.now);
    } else if a.GetEnter? {
    } else {
    }
  }

  lemma {:induction false} RunsStayCapped(s: Sys, acts: seq<Action>)
    requires AllCapped(s) && IsRun(s, acts)
    ensures AllCapped(Final(s, acts))
    decreases acts
  {
    if acts != [] {
      forall i: nat | i < s.pool.size ensures MarkCapped(Step(s, acts[0]), i) { StepCapped(s, acts[0], i); }
      RunsStayCapped(Step(s, acts[0]), acts[1..]);
    }
  }

  /** The 486 brings the deadline of slot i forward. */
  predicate Shortens(s: Sys, i: nat)
    requires Shape(s) && i < s.pool.size && Enabled(s, Mark(i))
  {
    var before, after := s.pool.slots[i].saturatedUntil, Step(s, Mark(i)).pool.slots[i].saturatedUntil;
    before.Some? && after.Some? && after.value < before.value
  }

  /** In every reachable state a 486 brings a deadline forward exactly when the pool counts no conn on the
      slot, its last use is twelve minutes old or unknown, and more than 180 s were left. */
  lemma MarkShortensIff(s: Sys, acts: seq<Action>, i: nat)
    requires Init(s) && IsRun(s, acts) && i < s.pool.size && Enabled(Final(s, acts), Mark(i))
    ensures var t := Final(s, acts); var e := t.pool.slots[i];
            Shortens(t, i) <==>
            && e.active == 0
            && (e.lastUsedAt.None? || t.now - e.lastUsedAt.value >= ACTIVE_WINDOW)
            && e.saturatedUntil.Some? && e.saturatedUntil.value > t.now + GHOST_COOLDOWN
  {
    forall j: nat | j < s.pool.size ensures MarkCapped(s, j) { assert QuietAt(s, j); }
    RunsStayCapped(s, acts);
    assert MarkCapped(Final(s, acts), i);
  }

  /** So on a slot that is never replaced or dropped while leased a 486 never shortens a wait. */
  lemma MarksExtendOnKeptSlots(s: Sys, acts: seq<Action>, i: nat)
    requires Init(s) && IsRun(s, acts) && i < s.pool.size && Enabled(Final(s, acts), Mark(i))
    requires NeverOverwritesLeased(s, acts, i)
    ensures !Shortens(Final(s, acts), i)
  {
    ExactWhenNeverOverwritten(s, acts, i);
    MarkShortensIff(s, acts, i);
  }

  // ---------- how old the reporting lease must be ----------

  /** The instant of the last grant of slot i, g being the last one before the run. Only grants raise the
      number of leases out. */
  function LastGrant(s: Sys, acts: seq<Action>, i: nat, g: Option<Time>): Option<Time>
    requires Shape(s) && IsRun(s, acts) && i < s.pool.size
    decreases acts
  {
    if acts == [] then g else LastGrant(Step(s, acts[0]), acts[1..], i, GrantAfter(s, acts[0], i, g))
  }

  function GrantAfter(s: Sys, a: Action, i: nat, g: Option<Time>): Option<Time>
    requires Shape(s) && Enabled(s, a) && i < s.pool.size
  {
    if Step(s, a).books[i].Leases() > s.books[i].Leases() then Some(s.now) else g
  }

  /** While leases are out on a slot without a counted conn, its last use is no older than its last grant; and
      if it has none, no mark on it reaches beyond the short cooldown. */
  predicate UseFollowsGrant(s: Sys, i: nat, g: Option<Time>)
    requires Shape(s) && i < s.pool.size
  {
    var e := s.pool.slots[i];
    && (g.Some? ==> g.value <= s.now)
    && (s.books[i].Leases() > 0 ==> g.Some?)
    && (s.books[i].Leases() > 0 && e.active == 0 && e.lastUsedAt.Some? ==> e.lastUsedAt.value >= g.value)
    && (s.books[i].Leases() > 0 && e.active == 0 && e.lastUsedAt.None? && e.saturatedUntil.Some? ==>
          e.saturatedUntil.value <= s.now + GHOST_COOLDOWN)
  }

  lemma FailedGetFollows(s: Sys, j: nat, connIdx: int, i: nat, g: Option<Time>)
    requires Shape(s) && j < s.pool.size && s.books[j].gets > 0 && i < s.pool.size && UseFollowsGrant(s, i, g)
    ensures UseFollowsGrant(GetFailStep(s, j, connIdx), i, GrantAfter(s, GetExit(j, connIdx, None), i, g))
  {
    var q := CoolDown(s.pool, j, s.now);
    var e := s.pool.slots[i];
    assert q.slots[i].active == e.active && q.slots[i].lastUsedAt == e.lastUsedAt;
    assert q.slots[i].saturatedUntil == e.saturatedUntil;
    assert s.books[j := s.books[j].EndGet()][i].Leases() == s.books[i].Leases();
  }

  lemma GetFollows(s: Sys, a: Action, i: nat, g: Option<Time>)
    requires Shape(s) && Enabled(s, a) && i < s.pool.size && UseFollowsGrant(s, i, g)
    requires a.GetEnter? || (a.GetExit? && a.result.Some?)
    ensures UseFollowsGrant(Step(s, a), i, GrantAfter(s, a, i, g))
  {
  }

  lemma MarkFollows(s: Sys, a: Action, i: nat, g: Option<Time>)
    requires Shape(s) && Enabled(s, a) && i < s.pool.size && UseFollowsGrant(s, i, g)
    requires a.Mark? || a.PathEvent? || a.Transition?
    ensures UseFollowsGrant(Step(s, a), i, GrantAfter(s, a, i, g))
  {
  }

  lemma OtherFollows(s: Sys, a: Action, i: nat, g: Option<Time>)
    requires Shape(s) && Enabled(s, a) && i < s.pool.size && UseFollowsGrant(s, i, g)
    requires s.pool.slots[i].active > 0 ==> s.books[i].Leases() > 0
    requires a.Advance? || a.FillEnter? || a.FillExit? || a.Return? || a.DropAll? || a.DropOne?
    ensures UseFollowsGrant(Step(s, a), i, GrantAfter(s, a, i, g))
  {
  }

  lemma StepFollows(s: Sys, a: Action, i: nat, g: Option<Time>)
    requires Shape(s) && Enabled(s, a) && i < s.pool.size && UseFollowsGrant(s, i, g)
    requires s.pool.slots[i].active > 0 ==> s.books[i].Leases() > 0
    ensures UseFollowsGrant(Step(s, a), i, GrantAfter(s, a, i, g))
  {
    if a.GetExit? && a.result.None? {
      FailedGetFollows(s, a.slot, a.connIdx, i, g);
    } else if a.GetEnter? || a.GetExit? {
      GetFollows(s, a, i, g);
    } else if a.SeedAt? {
      assert CleanAt(s, i);
    } else if a.Mark? || a.PathEvent? || a.Transition? {
      MarkFollows(s, a, i, g);
    } else {
      OtherFollows(s, a, i, g);
    }
  }

  lemma {:induction false} RunFollows(s: Sys, acts: seq<Action>, i: nat, g: Option<Time>)
    requires Balanced(s) && IsRun(s, acts) && i < s.pool.size && UseFollowsGrant(s, i, g)
    ensures UseFollowsGrant(Final(s, acts), i, LastGrant(s, acts, i, g))
    decreases acts
  {
    if acts != [] {
      var t := Step(s, acts[0]);
      assert BalancedAt(s, i);
      StepFollows(s, acts[0], i, g);
      forall j: nat | j < s.pool.size ensures BalancedAt(t, j) { StepBalanced(s, acts[0], j); }
      RunFollows(t, acts[1..], i, GrantAfter(s, acts[0], i, g));
    }
  }

  /** A 486 that brings a deadline forward is reported by a conn that acquired at least twelve minutes before:
      the slot has been granted to nobody since. */
  lemma OnlyOldLeasesShorten(s: Sys, acts: seq<Action>, i: nat)
    requires Init(s) && IsRun(s, acts) && i < s.pool.size && Enabled(Final(s, acts), Mark(i))
    requires Shortens(Final(s, acts), i)
    ensures var g := LastGrant(s, acts, i, None);
            g.Some? && Final(s, acts).now - g.value >= ACTIVE_WINDOW
  {
    InitBalanced(s);
    assert CleanAt(s, i);
    RunFollows(s, acts, i, None);
    MarkShortensIff(s, acts, i);
  }
}
