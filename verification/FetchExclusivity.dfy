/**
 One fetch per slot: unless a slot is dropped while a fetch for it is in flight, `get` and `tryFill`
 together never have two fetches in flight for it, and the fetch that ends never overwrites a cred
 that is fresh or waiting out its load delay.
 */
module FetchExclusivity {
  import opened Basics
  import opened CredEntry
  import opened PoolOps
  import opened PoolRuns

  /** Usable creds are the disjoint union of the fresh and the pending ones. */
  lemma UsableIsFreshOrPending(e: Entry, now: Time)
    ensures Usable(e, now) <==> Fresh(e, now) || Pending(e, now)
    ensures !(Fresh(e, now) && Pending(e, now))
  {
  }

  /** A cred that is no longer usable never becomes usable again. */
  lemma UsableOnlyEnds(e: Entry, now: Time, later: Time)
    requires now <= later && Usable(e, later)
    ensures Usable(e, now)
  {
  }

  predicate SlotExclusive(e: Entry, b: Book, now: Time) {
    && (e.fetching ==> b.InFlight() >= 1)
    && (b.tainted ==> b.InFlight() >= 1)
    && (!b.tainted ==> b.InFlight() <= 1 && (e.fetching <==> b.InFlight() == 1))
    && (!b.tainted && e.fetching ==> !Usable(e, now))
  }

  predicate ExclusiveAt(s: Sys, i: nat)
    requires Shape(s) && i < s.pool.size
  {
    SlotExclusive(s.pool.slots[i], s.books[i], s.now)
  }

  predicate Exclusive(s: Sys) {
    Shape(s) && forall i: nat :: i < s.pool.size ==> ExclusiveAt(s, i)
  }

  lemma IdleExclusive(e: Entry, b: Book, now: Time)
    requires !e.fetching && b.Clean()
    ensures SlotExclusive(e, b, now)
  {
  }

  lemma TimeExclusive(s: Sys, t: Time, j: nat)
    requires Exclusive(s) && s.now <= t && j < s.pool.size
    ensures ExclusiveAt(Step(s, Advance(t)), j)
  {
    assert ExclusiveAt(s, j);
    if Usable(s.pool.slots[j], t) { UsableOnlyEnds(s.pool.slots[j], s.now, t); }
  }

  lemma EnterExclusive(s: Sys, a: Action, j: nat)
    requires Exclusive(s) && Enabled(s, a) && (a.GetEnter? || a.FillEnter?) && j < s.pool.size
    ensures ExclusiveAt(Step(s, a), j)
  {
    assert ExclusiveAt(s, j);
    UsableIsFreshOrPending(s.pool.slots[j], s.now);
  }

  lemma FailedGetExclusive(s: Sys, i: nat, connIdx: int, j: nat)
    requires Exclusive(s) && i < s.pool.size && s.books[i].gets > 0 && j < s.pool.size
    ensures ExclusiveAt(Step(s, GetExit(i, connIdx, None)), j)
  {
    var q := CoolDown(s.pool, i, s.now);
    var books := s.books[i := s.books[i].EndGet()];
    assert ExclusiveAt(s, j);
    assert SlotExclusive(q.slots[j], books[j], s.now);
  }

  lemma ExitExclusive(s: Sys, a: Action, j: nat)
    requires Exclusive(s) && Enabled(s, a) && j < s.pool.size
    requires (a.GetExit? && a.result.Some?) || a.FillExit?
    ensures ExclusiveAt(Step(s, a), j)
  {
    assert ExclusiveAt(s, j);
  }

  lemma DropExclusive(s: Sys, a: Action, j: nat)
    requires Exclusive(s) && Enabled(s, a) && (a.DropAll? || a.DropOne?) && j < s.pool.size
    ensures ExclusiveAt(Step(s, a), j)
  {
    assert ExclusiveAt(s, j);
  }

  lemma QuietStepExclusive(s: Sys, a: Action, j: nat)
    requires Exclusive(s) && Enabled(s, a) && j < s.pool.size
    requires a.Return? || a.Mark? || a.PathEvent? || a.Transition?
    ensures ExclusiveAt(Step(s, a), j)
  {
    assert ExclusiveAt(s, j);
  }

  lemma SeedExclusive(s: Sys, i: nat, addr: string, cred: Cred, j: nat)
    requires Exclusive(s) && Enabled(s, SeedAt(i, addr, cred)) && j < s.pool.size
    ensures ExclusiveAt(Step(s, SeedAt(i, addr, cred)), j)
  {
    SeedOrigin(s.pool.slots, i, addr, cred, s.now, j);
    assert CleanAt(s, j);
    var e := SeedSlots(s.pool.slots, i, addr, cred, s.now)[j];
    if e in s.pool.slots {
      var k :| 0 <= k < s.pool.size && s.pool.slots[k] == e;
      assert CleanAt(s, k) && ExclusiveAt(s, k);
    }
    IdleExclusive(e, s.books[j], s.now);
  }

  lemma StepExclusive(s: Sys, a: Action, j: nat)
    requires Exclusive(s) && Enabled(s, a) && j < s.pool.size
    ensures ExclusiveAt(Step(s, a), j)
  {
    if a.Advance? {
      TimeExclusive(s, a.t, j);
    } else if a.GetEnter? || a.FillEnter? {
      EnterExclusive(s, a, j);
    } else if a.GetExit? && a.result.None? {
      FailedGetExclusive(s, a.slot, a.connIdx, j);
    } else if a.GetExit? || a.FillExit? {
      ExitExclusive(s, a, j);
    } else if a.DropAll? || a.DropOne? {
      DropExclusive(s, a, j);
    } else if a.SeedAt? {
      SeedExclusive(s, a.slot, a.addr, a.cred, j);
    } else {
      QuietStepExclusive(s, a, j);
    }
  }

  lemma {:induction false} RunsStayExclusive(s: Sys, acts: seq<Action>)
    requires Exclusive(s) && IsRun(s, acts)
    ensures Exclusive(Final(s, acts))
    decreases acts
  {
    if acts != [] {
      forall j: nat | j < s.pool.size
        ensures ExclusiveAt(Step(s, acts[0]), j)
      {
        StepExclusive(s, acts[0], j);
      }
      RunsStayExclusive(Step(s, acts[0]), acts[1..]);
    }
  }

  lemma InitExclusiveAt(s: Sys, j: nat)
    requires Init(s) && j < s.pool.size
    ensures ExclusiveAt(s, j)
  {
    assert QuietAt(s, j) && CleanAt(s, j);
    IdleExclusive(s.pool.slots[j], s.books[j], s.now);
  }

  lemma InitExclusive(s: Sys)
    requires Init(s)
    ensures Exclusive(s)
  {
    forall j: nat | j < s.pool.size ensures ExclusiveAt(s, j) {
      InitExclusiveAt(s, j);
    }
  }

  /**
   In every reachable state, on every slot that was not dropped under a fetch in flight: at most one
   fetch is in flight, the flag says whether there is one, and the cred it will overwrite is neither
   fresh nor pending.
   */
  lemma OneFetchPerSlot(s: Sys, acts: seq<Action>, i: nat)
    requires Init(s) && IsRun(s, acts) && i < s.pool.size
    requires !Final(s, acts).books[i].tainted
    ensures var t := Final(s, acts);
            && t.books[i].InFlight() <= 1
            && (t.pool.slots[i].fetching <==> t.books[i].InFlight() == 1)
            && (t.books[i].InFlight() == 1 ==>
                  !Fresh(t.pool.slots[i], t.now) && !Pending(t.pool.slots[i], t.now))
  {
    InitExclusive(s);
    RunsStayExclusive(s, acts);
    var t := Final(s, acts);
    assert ExclusiveAt(t, i);
    UsableIsFreshOrPending(t.pool.slots[i], t.now);
  }

  /** No drop hits slot i while a fetch for it is in flight. */
  predicate NeverDroppedMidFetch(s: Sys, acts: seq<Action>, i: nat)
    requires Shape(s) && IsRun(s, acts) && i < s.pool.size
    decreases acts
  {
    acts == [] ||
    (&& (acts[0] == DropAll || acts[0] == DropOne(i) ==> s.books[i].InFlight() == 0)
     && NeverDroppedMidFetch(Step(s, acts[0]), acts[1..], i))
  }

  lemma TaintComesFromDrops(s: Sys, a: Action, i: nat)
    requires Shape(s) && Enabled(s, a) && i < s.pool.size && !s.books[i].tainted
    requires a == DropAll || a == DropOne(i) ==> s.books[i].InFlight() == 0
    ensures !Step(s, a).books[i].tainted
  {
  }

  lemma {:induction false} UndroppedStaysUntainted(s: Sys, acts: seq<Action>, i: nat)
    requires Shape(s) && IsRun(s, acts) && i < s.pool.size
    requires !s.books[i].tainted && NeverDroppedMidFetch(s, acts, i)
    ensures !Final(s, acts).books[i].tainted
    decreases acts
  {
    if acts != [] {
      TaintComesFromDrops(s, acts[0], i);
      UndroppedStaysUntainted(Step(s, acts[0]), acts[1..], i);
    }
  }

  /** The same, as a condition on the run alone. */
  lemma OneFetchUnlessDropped(s: Sys, acts: seq<Action>, i: nat)
    requires Init(s) && IsRun(s, acts) && i < s.pool.size && NeverDroppedMidFetch(s, acts, i)
    ensures var t := Final(s, acts);
            && t.books[i].InFlight() <= 1
            && (t.books[i].InFlight() == 1 ==> !Usable(t.pool.slots[i], t.now))
  {
    assert CleanAt(s, i);
    UndroppedStaysUntainted(s, acts, i);
    OneFetchPerSlot(s, acts, i);
    UsableIsFreshOrPending(Final(s, acts).pool.slots[i], Final(s, acts).now);
  }

  // ---------- exactly when fetches overlap ----------

  /** The action starts a fetch for slot i. */
  predicate StartsFetch(s: Sys, a: Action, i: nat)
    requires Shape(s) && i < s.pool.size
  {
    || (a.GetEnter? && Decide(s.pool, a.connIdx, s.now) == FetchInto(i))
    || (a.FillEnter? && a.fillSlot == i && DecideFill(s.pool, i, a.abort, s.now).FillInto?)
  }

  /** A second fetch comes into flight exactly when one is started for a slot that was dropped under a
      fetch still in flight. */
  lemma OverlapsExactlyByTaintedStart(s: Sys, a: Action, i: nat)
    requires Exclusive(s) && Enabled(s, a) && i < s.pool.size && s.books[i].InFlight() <= 1
    ensures Step(s, a).books[i].InFlight() > 1 <==> s.books[i].tainted && StartsFetch(s, a, i)
  {
    assert ExclusiveAt(s, i);
    InFlightMoves(s, a, i);
  }

  lemma InFlightMoves(s: Sys, a: Action, i: nat)
    requires Shape(s) && Enabled(s, a) && i < s.pool.size
    ensures if StartsFetch(s, a, i) then Step(s, a).books[i].InFlight() == s.books[i].InFlight() + 1
            else Step(s, a).books[i].InFlight() <= s.books[i].InFlight()
    ensures StartsFetch(s, a, i) ==> FetchEligible(s.pool.slots[i], s.now)
  {
    if a.GetEnter? {
    } else if a.GetExit? {
    } else {
    }
  }

  predicate AtMostOneThroughout(s: Sys, acts: seq<Action>, i: nat)
    requires Shape(s) && IsRun(s, acts) && i < s.pool.size
    decreases acts
  {
    s.books[i].InFlight() <= 1 && (acts == [] || AtMostOneThroughout(Step(s, acts[0]), acts[1..], i))
  }

  predicate NoTaintedStart(s: Sys, acts: seq<Action>, i: nat)
    requires Shape(s) && IsRun(s, acts) && i < s.pool.size
    decreases acts
  {
    acts == [] ||
    (!(s.books[i].tainted && StartsFetch(s, acts[0], i)) && NoTaintedStart(Step(s, acts[0]), acts[1..], i))
  }

  lemma StepsExclusive(s: Sys, a: Action)
    requires Exclusive(s) && Enabled(s, a)
    ensures Exclusive(Step(s, a))
  {
    forall j: nat | j < s.pool.size ensures ExclusiveAt(Step(s, a), j) { StepExclusive(s, a, j); }
  }

  lemma {:induction false} AtMostOneIff(s: Sys, acts: seq<Action>, i: nat)
    requires Exclusive(s) && IsRun(s, acts) && i < s.pool.size && s.books[i].InFlight() <= 1
    ensures AtMostOneThroughout(s, acts, i) <==> NoTaintedStart(s, acts, i)
    decreases acts
  {
    if acts != [] {
      OverlapsExactlyByTaintedStart(s, acts[0], i);
      StepsExclusive(s, acts[0]);
      if Step(s, acts[0]).books[i].InFlight() <= 1 { AtMostOneIff(Step(s, acts[0]), acts[1..], i); }
    }
  }

  /** A fetch in flight for the slot is not over a cred worth keeping. */
  predicate NothingToOverwrite(s: Sys, i: nat)
    requires Shape(s) && i < s.pool.size
  {
    s.books[i].InFlight() >= 1 ==> !Usable(s.pool.slots[i], s.now)
  }

  /** Actions other than the end of a fetch bring no usable cred into a slot with a fetch in flight. */
  lemma CredsKept(s: Sys, a: Action, i: nat)
    requires Shape(s) && Enabled(s, a) && i < s.pool.size && !a.Advance? && !a.SeedAt?
    requires !((a.GetExit? || a.FillExit?) && a.slot == i && a.result.Some?)
    ensures Usable(Step(s, a).pool.slots[i], s.now) ==> Usable(s.pool.slots[i], s.now)
  {
    if a.GetEnter? {
    } else if a.GetExit? {
      if a.result.None? {
        assert CoolDown(s.pool, a.slot, s.now).slots[i].creds == s.pool.slots[i].creds;
      }
    } else {
    }
  }

  lemma StepOverwritesNothing(s: Sys, a: Action, i: nat)
    requires Shape(s) && Enabled(s, a) && i < s.pool.size
    requires s.books[i].InFlight() <= 1 && Step(s, a).books[i].InFlight() <= 1 && NothingToOverwrite(s, i)
    ensures NothingToOverwrite(Step(s, a), i)
  {
    InFlightMoves(s, a, i);
    if a.Advance? {
    } else if a.SeedAt? {
      assert CleanAt(s, i);
    } else if (a.GetExit? || a.FillExit?) && a.slot == i {
      EndsFetch(s, a, i);
    } else {
      CredsKept(s, a, i);
      if StartsFetch(s, a, i) { UsableIsFreshOrPending(s.pool.slots[i], s.now); }
    }
  }

  lemma EndsFetch(s: Sys, a: Action, i: nat)
    requires Shape(s) && Enabled(s, a) && i < s.pool.size && (a.GetExit? || a.FillExit?) && a.slot == i
    ensures Step(s, a).books[i].InFlight() == s.books[i].InFlight() - 1
  {
  }

  lemma {:induction false} RunOverwritesNothing(s: Sys, acts: seq<Action>, i: nat)
    requires Shape(s) && IsRun(s, acts) && i < s.pool.size
    requires AtMostOneThroughout(s, acts, i) && NothingToOverwrite(s, i)
    ensures NothingToOverwrite(Final(s, acts), i)
    decreases acts
  {
    if acts != [] {
      StepOverwritesNothing(s, acts[0], i);
      RunOverwritesNothing(Step(s, acts[0]), acts[1..], i);
    }
  }

  /**
   From start-up: at most one fetch is in flight for a slot in every state of the run if and only if no fetch
   is started for it after a drop, before the fetch the drop forgot has ended. And as long as that holds,
   a fetch that ends replaces no fresh or pending cred.
   */
  lemma OneFetchIff(s: Sys, acts: seq<Action>, i: nat)
    requires Init(s) && IsRun(s, acts) && i < s.pool.size
    ensures AtMostOneThroughout(s, acts, i) <==> NoTaintedStart(s, acts, i)
    ensures NoTaintedStart(s, acts, i) ==> NothingToOverwrite(Final(s, acts), i)
  {
    InitExclusive(s);
    assert CleanAt(s, i);
    AtMostOneIff(s, acts, i);
    if NoTaintedStart(s, acts, i) { RunOverwritesNothing(s, acts, i); }
  }
}
