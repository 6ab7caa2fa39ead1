/**
 Wake-ups: whatever makes a slot acquirable wakes the parked conns as it does, by a broadcast or by a timer
 armed for that instant, except exactly the end of a load delay.
 */
module Wakeups {
  import opened Basics
  import opened CredEntry
  import opened PoolOps
  import opened PoolRuns
  import opened LeaseAccounting
  import opened CredCache

  // ---------- armed timers ----------

  predicate SlotTimed(e: Entry, now: Time) {
    Future(e.saturatedUntil, now) ==> e.saturationTimer == e.saturatedUntil
  }

  predicate TimedAt(s: Sys, i: nat)
    requires Shape(s) && i < s.pool.size
  {
    SlotTimed(s.pool.slots[i], s.now)
  }

  predicate PauseTimed(s: Sys) {
    Future(s.pool.pauseUntil, s.now) ==> s.pool.pauseTimer == s.pool.pauseUntil
  }

  predicate Timed(s: Sys) {
    Shape(s) && PauseTimed(s) && forall i: nat :: i < s.pool.size ==> TimedAt(s, i)
  }

  lemma FailedGetTimed(s: Sys, i: nat, connIdx: int, j: nat)
    requires Timed(s) && i < s.pool.size && s.books[i].gets > 0 && j < s.pool.size
    ensures TimedAt(GetFailStep(s, i, connIdx), j)
  {
    var q := CoolDown(s.pool, i, s.now);
    assert TimedAt(s, j);
    assert SlotTimed(q.slots[j], s.now);
  }

  lemma SeedTimed(s: Sys, i: nat, addr: string, cred: Cred, j: nat)
    requires Timed(s) && i < s.pool.size && j < s.pool.size
    ensures SlotTimed(SeedSlots(s.pool.slots, i, addr, cred, s.now)[j], s.now)
  {
    SeedOrigin(s.pool.slots, i, addr, cred, s.now, j);
    var e := SeedSlots(s.pool.slots, i, addr, cred, s.now)[j];
    if e in s.pool.slots {
      var k :| 0 <= k < s.pool.size && s.pool.slots[k] == e;
      assert TimedAt(s, k);
    }
  }

  lemma MarkTimed(s: Sys, a: Action, j: nat)
    requires Timed(s) && Enabled(s, a) && j < s.pool.size && (a.Mark? || a.PathEvent? || a.Transition?)
    ensures TimedAt(Step(s, a), j)
  {
    assert TimedAt(s, j);
  }

  lemma PlainTimed(s: Sys, a: Action, j: nat)
    requires Timed(s) && Enabled(s, a) && j < s.pool.size
    requires !a.Mark? && !a.PathEvent? && !a.Transition? && !a.SeedAt? && !(a.GetExit? && a.result.None?)
    ensures TimedAt(Step(s, a), j)
  {
    assert TimedAt(s, j);
    if a.GetEnter? {
    } else if a.FillEnter? || a.FillExit? {
    } else {
    }
  }

  lemma StepTimedAt(s: Sys, a: Action, j: nat)
    requires Timed(s) && Enabled(s, a) && j < s.pool.size
    ensures TimedAt(Step(s, a), j)
  {
    if a.Mark? || a.PathEvent? || a.Transition? {
      MarkTimed(s, a, j);
    } else if a.SeedAt? {
      SeedTimed(s, a.slot, a.addr, a.cred, j);
    } else if a.GetExit? && a.result.None? {
      FailedGetTimed(s, a.slot, a.connIdx, j);
    } else {
      PlainTimed(s, a, j);
    }
  }

  lemma StepPauseTimed(s: Sys, a: Action)
    requires Timed(s) && Enabled(s, a)
    ensures PauseTimed(Step(s, a))
  {
  }

  /** Only path events and transitions touch the pause. */
  lemma StepKeepsPause(s: Sys, a: Action)
    requires Shape(s) && Enabled(s, a) && !a.PathEvent? && !a.Transition?
    ensures Step(s, a).pool.pauseUntil == s.pool.pauseUntil && Step(s, a).pool.pauseTimer == s.pool.pauseTimer
  {
  }

  /** In every reachable state a saturation or pause deadline that lies ahead has its timer armed. */
  lemma {:induction false} RunsStayTimed(s: Sys, acts: seq<Action>)
    requires Timed(s) && IsRun(s, acts)
    ensures Timed(Final(s, acts))
    decreases acts
  {
    if acts != [] {
      forall j: nat | j < s.pool.size ensures TimedAt(Step(s, acts[0]), j) {
        StepTimedAt(s, acts[0], j);
      }
      StepPauseTimed(s, acts[0]);
      RunsStayTimed(Step(s, acts[0]), acts[1..]);
    }
  }

  lemma InitTimed(s: Sys)
    requires Init(s)
    ensures Timed(s)
  {
    forall j: nat | j < s.pool.size ensures TimedAt(s, j) {
      assert QuietAt(s, j);
    }
  }

  // ---------- who broadcasts ----------

  /** The critical sections after which the program calls `broadcastSlotAvailable`. */
  predicate Signals(s: Sys, a: Action)
    requires Shape(s) && Enabled(s, a)
  {
    match a
    case GetExit(_, _, result) => result.Some?
    case FillExit(_, abort, result) => result.Some? && FillCommits(s.pool, abort, s.now)
    case Return(i, _) => ReleaseSignals(s.pool, i, s.now)
    case SeedAt(i, _, _) => !SeedIgnored(s.pool.slots, i, s.now)
    case _ => false
  }

  predicate Opens(s: Sys, a: Action, i: nat)
    requires Shape(s) && Enabled(s, a) && i < s.pool.size
  {
    !Acquirable(s.pool.slots[i], s.now) && Acquirable(Step(s, a).pool.slots[i], Step(s, a).now)
  }

  /** `release` broadcasts exactly when its slot becomes acquirable. */
  lemma ReleaseSignalsExactlyWhenOpening(s: Sys, i: nat, ofOld: bool)
    requires Balanced(s) && Enabled(s, Return(i, ofOld))
    ensures Signals(s, Return(i, ofOld)) <==> Opens(s, Return(i, ofOld), i)
  {
  }

  lemma PathMarkNeverOpens(e: Entry, now: Time)
    requires !Acquirable(e, now)
    ensures !Acquirable(PathMark(e, now), now)
  {
  }

  /** A 486 marks the slot until a later instant, so it opens nothing. */
  lemma QuotaMarkCloses(e: Entry, now: Time)
    ensures !Acquirable(Saturate(e, now + QuotaCooldown(e, now)), now)
  {
  }

  lemma SilentStepNeverOpens(s: Sys, a: Action, i: nat)
    requires Balanced(s) && Enabled(s, a) && i < s.pool.size
    requires !a.Advance? && !a.Return? && !Signals(s, a)
    ensures !Opens(s, a, i)
  {
    var e := s.pool.slots[i];
    if Acquirable(e, s.now) {
    } else if a.GetExit? {
      FailedGetNeverOpens(s, a.slot, a.connIdx, i);
    } else if a.Mark? {
      QuotaMarkCloses(e, s.now);
    } else if a.PathEvent? {
      PathMarkNeverOpens(e, s.now);
    } else if a.GetEnter? {
      GetEnterNeverOpens(s, a.connIdx, i);
    } else if a.FillEnter? || a.FillExit? {
      FillNeverOpens(s, a, i);
    } else {
    }
  }

  lemma FailedGetNeverOpens(s: Sys, j: nat, connIdx: int, i: nat)
    requires Shape(s) && j < s.pool.size && s.books[j].gets > 0 && i < s.pool.size
    requires !Acquirable(s.pool.slots[i], s.now)
    ensures !Acquirable(GetFailStep(s, j, connIdx).pool.slots[i], s.now)
  {
    var q := CoolDown(s.pool, j, s.now);
    assert !Acquirable(q.slots[i], s.now);
  }

  lemma GetEnterNeverOpens(s: Sys, connIdx: int, i: nat)
    requires Shape(s) && i < s.pool.size
    requires !Acquirable(s.pool.slots[i], s.now)
    ensures !Acquirable(GetEnterStep(s, connIdx).pool.slots[i], s.now)
  {
  }

  lemma FillNeverOpens(s: Sys, a: Action, i: nat)
    requires Shape(s) && Enabled(s, a) && i < s.pool.size && (a.FillEnter? || a.FillExit?) && !Signals(s, a)
    requires !Acquirable(s.pool.slots[i], s.now)
    ensures !Acquirable(Step(s, a).pool.slots[i], s.now)
  {
  }

  /** The instant t is ahead of now and the clock reaches it. */
  predicate Reached(t: Option<Time>, now: Time, later: Time) {
    t.Some? && now < t.value <= later
  }

  /** Time opens the slot at its saturation deadline, and a timer was armed for that very instant. */
  predicate Announced(e: Entry, now: Time, later: Time) {
    && Reached(e.saturatedUntil, now, later)
    && e.saturationTimer == e.saturatedUntil
    && Acquirable(e, e.saturatedUntil.value)
  }

  /** The last thing the slot waits for is its load delay. */
  predicate LoadDelayLast(e: Entry, now: Time, later: Time) {
    && Reached(e.availableAt, now, later)
    && (e.saturatedUntil.None? || e.saturatedUntil.value < e.availableAt.value)
  }

  /** When time alone opens a slot, it opens at the later of its two deadlines. */
  lemma TimeOpensAtLastDeadline(e: Entry, now: Time, later: Time)
    requires now <= later && !Acquirable(e, now) && Acquirable(e, later) && SlotTimed(e, now)
    ensures Announced(e, now, later) <==> !LoadDelayLast(e, now, later)
    ensures var opens := if LoadDelayLast(e, now, later) then e.availableAt.value else e.saturatedUntil.value;
            Acquirable(e, opens) && forall u :: now <= u < opens ==> !Acquirable(e, u)
  {
  }

  /** Somebody is woken for the slot: the step broadcasts, or a timer that broadcasts fires as it opens. */
  predicate Wakes(s: Sys, a: Action, i: nat)
    requires Shape(s) && Enabled(s, a) && i < s.pool.size
  {
    Signals(s, a) || (a.Advance? && Announced(s.pool.slots[i], s.now, a.t))
  }

  /**
   In every reachable state, whatever opens a slot wakes somebody at the instant it opens, with one
   exception, exactly: the passing of time ends the load delay of a slot that is not saturated up to then.
   */
  lemma NoMissedWakeup(s: Sys, acts: seq<Action>, a: Action, i: nat)
    requires Init(s) && IsRun(s, acts) && i < s.pool.size
    requires var t := Final(s, acts); Enabled(t, a) && Opens(t, a, i)
    ensures var t := Final(s, acts);
            Wakes(t, a, i) <==> !(a.Advance? && LoadDelayLast(t.pool.slots[i], t.now, a.t))
  {
    InitBalanced(s);
    RunsStayBalanced(s, acts);
    InitTimed(s);
    RunsStayTimed(s, acts);
    OpensWithWakeup(Final(s, acts), a, i);
  }

  lemma OpensWithWakeup(t: Sys, a: Action, i: nat)
    requires Balanced(t) && Timed(t) && i < t.pool.size && Enabled(t, a) && Opens(t, a, i)
    ensures Wakes(t, a, i) <==> !(a.Advance? && LoadDelayLast(t.pool.slots[i], t.now, a.t))
  {
    assert TimedAt(t, i);
    if a.Advance? {
      TimeOpensAtLastDeadline(t.pool.slots[i], t.now, a.t);
    } else if a.Return? {
      if a.slot == i { ReleaseSignalsExactlyWhenOpening(t, i, a.ofOld); }
    } else if !Signals(t, a) {
      SilentStepNeverOpens(t, a, i);
    }
  }

  /** The pause ends only by the clock, and then its timer was armed for that instant. */
  lemma PauseEndsWithWakeup(s: Sys, acts: seq<Action>, a: Action)
    requires Init(s) && IsRun(s, acts)
    requires var t := Final(s, acts);
             Enabled(t, a) && Future(t.pool.pauseUntil, t.now) && !Future(Step(t, a).pool.pauseUntil, Step(t, a).now)
    ensures var t := Final(s, acts);
            a.Advance? && Reached(t.pool.pauseUntil, t.now, a.t) && t.pool.pauseTimer == t.pool.pauseUntil
  {
    InitTimed(s);
    RunsStayTimed(s, acts);
    var t := Final(s, acts);
    if !a.PathEvent? && !a.Transition? { StepKeepsPause(t, a); }
  }

  // ---------- the exception happens ----------

  /** A cache file with one cred, in use one second after the epoch. */
  const SAVED: CacheFile := CacheFile(2, 1, [CacheEntry(0, "", "4000:a", "", 1)])

  /** The entry that file gives slot 0: it waits until 601 s. */
  function LoadedEntry(): Entry {
    Filled("", Cred("4000:a", "", ""), 0).(lastUsedAt := Some(1_000_000_000), availableAt := Some(601_000_000_000))
  }

  lemma SavedLoads()
    ensures Reload([EMPTY, EMPTY], Some(SAVED), 2, 1_000_000_000) == [LoadedEntry(), EMPTY]
    ensures forall t :: t < 2_000_000_000_000 ==> Unexpired(Cred("4000:a", "", ""), t)
  {
    SampleExpiry('a');
    assert "4000:a" == "4000:" + ['a'];
    var c := SAVED.creds[0];
    assert LoadEntry(c, 2, 1_000_000_000) == Some(LoadedEntry());
    assert SAVED.creds[..0] == [];
  }

  /** A process that starts from this file: at 601 s the slot opens and nobody is woken. */
  lemma LoadDelayEndsSilently(idle: Book, other: Book)
    requires idle.Clean() && other.Clean()
    ensures var slots := Reload([EMPTY, EMPTY], Some(SAVED), 2, 1_000_000_000);
            var s := Sys(1_000_000_000, Pool(2, MINUTE, slots, None, None, None), [idle, other]);
            var a := Advance(601_000_000_000);
            Init(s) && Opens(s, a, 0) && !Wakes(s, a, 0)
  {
    SavedLoads();
    var s := Sys(1_000_000_000, Pool(2, MINUTE, [LoadedEntry(), EMPTY], None, None, None), [idle, other]);
    forall i: nat | i < 2 ensures CleanAt(s, i) && QuietAt(s, i) {
    }
    assert !Acquirable(LoadedEntry(), 1_000_000_000) && Acquirable(LoadedEntry(), 601_000_000_000);
  }
}
