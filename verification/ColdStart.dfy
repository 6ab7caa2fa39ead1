/**
 The cold-start cap: from an empty pool, however the conns' `get` calls interleave, the creds held
 plus the fetches in flight never exceed ceil(size / 4), and each cred is counted once.
 */
module ColdStart {
  import opened Basics
  import opened CredEntry
  import opened PoolOps
  import opened PoolRuns
  import opened FetchExclusivity
  import opened CompactFill
  import opened Progress

  /** Everything conns and the network do; the background grower and invalidation are left aside. */
  predicate ConnDriven(a: Action) {
    a.Advance? || a.GetEnter? || a.GetExit? || a.Return? || a.Mark? || a.PathEvent? || a.Transition?
  }

  predicate UntaintedAt(s: Sys, i: nat)
    requires Shape(s) && i < s.pool.size
  {
    !s.books[i].tainted && s.books[i].fills == 0
  }

  function Provisioned(s: Sys): nat {
    |UsableSlots(s.pool.slots, s.now)| + |FetchingSlots(s.pool.slots)|
  }

  predicate Capped(s: Sys) {
    && Exclusive(s)
    && (forall i: nat :: i < s.pool.size ==> UntaintedAt(s, i))
    && Provisioned(s) <= ColdStartTarget(s.pool.size)
  }

  // ---------- how a step moves the two sets ----------

  /** Usability depends on the cred alone. */
  lemma SameCredsSameUsable(a: seq<Entry>, b: seq<Entry>, now: Time)
    requires |a| == |b|
    requires forall i :: 0 <= i < |a| ==> a[i].creds == b[i].creds
    ensures UsableSlots(a, now) == UsableSlots(b, now)
  {
  }

  lemma SameFlagsSameFetching(a: seq<Entry>, b: seq<Entry>)
    requires |a| == |b|
    requires forall i :: 0 <= i < |a| ==> a[i].fetching == b[i].fetching
    ensures FetchingSlots(a) == FetchingSlots(b)
  {
  }

  lemma FlagRaised(a: seq<Entry>, i: nat)
    requires i < |a| && !a[i].fetching
    ensures |FetchingSlots(a[i := a[i].(fetching := true)])| == |FetchingSlots(a)| + 1
  {
    var b := a[i := a[i].(fetching := true)];
    assert FetchingSlots(b) == FetchingSlots(a) + {i};
  }

  lemma FlagLowered(a: seq<Entry>, b: seq<Entry>, i: nat)
    requires i < |a| == |b| && a[i].fetching && !b[i].fetching
    requires forall j :: 0 <= j < |a| && j != i ==> a[j].fetching == b[j].fetching
    ensures |FetchingSlots(b)| == |FetchingSlots(a)| - 1
  {
    assert FetchingSlots(a) == FetchingSlots(b) + {i};
  }

  lemma OneMoreUsable(a: seq<Entry>, e: Entry, i: nat, now: Time)
    requires i < |a|
    ensures |UsableSlots(a[i := e], now)| <= |UsableSlots(a, now)| + 1
  {
    var b := a[i := e];
    forall j | j in UsableSlots(b, now) ensures j in UsableSlots(a, now) + {i} {
      if j != i { assert b[j] == a[j]; }
    }
    SubsetSize(UsableSlots(b, now), UsableSlots(a, now) + {i});
  }

  lemma FewerUsableLater(a: seq<Entry>, now: Time, later: Time)
    requires now <= later
    ensures |UsableSlots(a, later)| <= |UsableSlots(a, now)|
  {
    forall i | i in UsableSlots(a, later) ensures i in UsableSlots(a, now) {
      UsableOnlyEnds(a[i], now, later);
    }
    SubsetSize(UsableSlots(a, later), UsableSlots(a, now));
  }

  // ---------- one step ----------

  lemma GetEnterCapped(s: Sys, connIdx: int)
    requires Capped(s)
    ensures Provisioned(GetEnterStep(s, connIdx)) <= ColdStartTarget(s.pool.size)
  {
    var d := Decide(s.pool, connIdx, s.now);
    var t := GetEnterStep(s, connIdx);
    SameCredsSameUsable(s.pool.slots, t.pool.slots, s.now);
    if d.FetchInto? {
      FlagRaised(s.pool.slots, d.slot);
    } else {
      SameFlagsSameFetching(s.pool.slots, t.pool.slots);
    }
  }

  lemma InFlightMeansFetching(s: Sys, i: nat)
    requires Capped(s) && i < s.pool.size && s.books[i].gets > 0
    ensures s.pool.slots[i].fetching
  {
    assert ExclusiveAt(s, i) && UntaintedAt(s, i);
  }

  lemma GetOkCapped(s: Sys, i: nat, addr: string, cred: Cred)
    requires Capped(s) && i < s.pool.size && s.books[i].gets > 0
    ensures Provisioned(GetOkStep(s, i, addr, cred)) <= ColdStartTarget(s.pool.size)
  {
    InFlightMeansFetching(s, i);
    var t := GetOkStep(s, i, addr, cred);
    FlagLowered(s.pool.slots, t.pool.slots, i);
    OneMoreUsable(s.pool.slots, Filled(addr, cred, 1), i, s.now);
  }

  lemma GetFailCapped(s: Sys, i: nat, connIdx: int)
    requires Capped(s) && i < s.pool.size && s.books[i].gets > 0
    ensures Provisioned(GetFailStep(s, i, connIdx)) <= ColdStartTarget(s.pool.size)
  {
    InFlightMeansFetching(s, i);
    var t := GetFailStep(s, i, connIdx);
    SameCredsSameUsable(s.pool.slots, t.pool.slots, s.now);
    FlagLowered(s.pool.slots, t.pool.slots, i);
  }

  lemma OtherCapped(s: Sys, a: Action)
    requires Capped(s) && Enabled(s, a)
    requires a.Return? || a.Mark? || a.PathEvent? || a.Transition?
    ensures Provisioned(Step(s, a)) <= ColdStartTarget(s.pool.size)
  {
    var t := Step(s, a);
    SameCredsSameUsable(s.pool.slots, t.pool.slots, s.now);
    SameFlagsSameFetching(s.pool.slots, t.pool.slots);
  }

  lemma StepUntainted(s: Sys, a: Action, j: nat)
    requires Shape(s) && Enabled(s, a) && ConnDriven(a) && j < s.pool.size && UntaintedAt(s, j)
    ensures UntaintedAt(Step(s, a), j)
  {
  }

  lemma StepWithinCap(s: Sys, a: Action)
    requires Capped(s) && Enabled(s, a) && ConnDriven(a)
    ensures Provisioned(Step(s, a)) <= ColdStartTarget(s.pool.size)
  {
    if a.Advance? {
      FewerUsableLater(s.pool.slots, s.now, a.t);
    } else if a.GetEnter? {
      GetEnterCapped(s, a.connIdx);
    } else if a.GetExit? && a.result.Some? {
      GetOkCapped(s, a.slot, a.result.value.0, a.result.value.1);
    } else if a.GetExit? {
      GetFailCapped(s, a.slot, a.connIdx);
    } else {
      OtherCapped(s, a);
    }
  }

  lemma StepCapped(s: Sys, a: Action)
    requires Capped(s) && Enabled(s, a) && ConnDriven(a)
    ensures Capped(Step(s, a))
  {
    forall j: nat | j < s.pool.size ensures ExclusiveAt(Step(s, a), j) && UntaintedAt(Step(s, a), j) {
      assert UntaintedAt(s, j);
      StepExclusive(s, a, j);
      StepUntainted(s, a, j);
    }
    StepWithinCap(s, a);
  }

  // ---------- every run ----------

  lemma {:induction false} RunsStayCapped(s: Sys, acts: seq<Action>)
    requires Capped(s) && IsRun(s, acts)
    requires forall a :: a in acts ==> ConnDriven(a)
    ensures Capped(Final(s, acts))
    decreases acts
  {
    if acts != [] {
      assert acts[0] in acts;
      StepCapped(s, acts[0]);
      RunsStayCapped(Step(s, acts[0]), acts[1..]);
    }
  }

  /** From a pool without creds, in every conn-driven run, creds held plus fetches in flight stay
      within the target, and the flags counted are exactly the fetches in flight. */
  lemma ColdStartBound(s: Sys, acts: seq<Action>)
    requires Init(s) && IsRun(s, acts)
    requires forall i :: 0 <= i < s.pool.size ==> s.pool.slots[i].creds.None?
    requires forall a :: a in acts ==> ConnDriven(a)
    ensures var t := Final(s, acts);
            && |UsableSlots(t.pool.slots, t.now)| + |FetchingSlots(t.pool.slots)| <= ColdStartTarget(s.pool.size)
            && forall i: nat :: i < t.pool.size ==>
                 t.books[i].InFlight() == if i in FetchingSlots(t.pool.slots) then 1 else 0
  {
    InitCapped(s);
    RunsStayCapped(s, acts);
    var t := Final(s, acts);
    forall i: nat | i < t.pool.size
      ensures t.books[i].InFlight() == if i in FetchingSlots(t.pool.slots) then 1 else 0
    {
      assert ExclusiveAt(t, i) && UntaintedAt(t, i);
    }
  }

  lemma InitCapped(s: Sys)
    requires Init(s)
    requires forall i :: 0 <= i < s.pool.size ==> s.pool.slots[i].creds.None?
    ensures Capped(s)
  {
    InitExclusive(s);
    forall i: nat | i < s.pool.size
      ensures UntaintedAt(s, i) && !s.pool.slots[i].fetching && !Usable(s.pool.slots[i], s.now)
    {
      assert CleanAt(s, i) && QuietAt(s, i);
    }
    assert UsableSlots(s.pool.slots, s.now) == {};
    assert FetchingSlots(s.pool.slots) == {};
  }

  // ---------- the cap is reached ----------

  /** What a call of `get` comes to, in numbers: it is refused during a pause; granted when some slot can be
      acquired; parked when usable creds and fetches in flight make up a quarter of the slots, rounded up;
      and otherwise it fetches, if any slot is eligible. */
  lemma DecisionTable(p: Pool, connIdx: int, now: Time)
    requires WellFormed(p)
    ensures var d := Decide(p, connIdx, now);
            var open := exists i :: 0 <= i < p.size && Acquirable(p.slots[i], now);
            var provided := |UsableSlots(p.slots, now)| + |FetchingSlots(p.slots)|;
            var eligible := exists i :: 0 <= i < p.size && FetchEligible(p.slots[i], now);
            && (d == Paused <==> p.pauseUntil.Some? && now < p.pauseUntil.value)
            && (d.Granted? <==> d != Paused && open)
            && (d == Parked <==> d != Paused && !open && provided >= (p.size + 3) / 4)
            && (d.FetchInto? <==> d != Paused && !open && provided < (p.size + 3) / 4 && eligible)
            && (d == NoSlot <==> d != Paused && !open && provided < (p.size + 3) / 4 && !eligible)
  {
    var own := OwnSlot(p.size, connIdx);
    var pick := PickAcquire(p, own, now);
    var target := FetchTarget(p, own, now);
    assert pick >= 0 ==> Acquirable(p.slots[pick], now);
    assert target >= 0 ==> FetchEligible(p.slots[target], now);
  }

  predicate Starting(e: Entry) { e == EMPTY || e == EMPTY.(fetching := true) }

  /** A pool without creds, some of whose slots are being fetched into. */
  predicate StartingPool(p: Pool, now: Time) {
    && WellFormed(p) && |p.slots| == p.size && !Future(p.pauseUntil, now)
    && forall i :: 0 <= i < p.size ==> Starting(p.slots[i])
  }

  lemma StartingSlot(e: Entry, now: Time)
    requires Starting(e)
    ensures !Usable(e, now) && !Acquirable(e, now) && (FetchEligible(e, now) <==> !e.fetching)
  {
  }

  lemma SomeSlotIdle(p: Pool, now: Time)
    requires StartingPool(p, now) && |FetchingSlots(p.slots)| < p.size
    ensures UsableSlots(p.slots, now) == {}
    ensures exists i :: 0 <= i < p.size && FetchEligible(p.slots[i], now)
    ensures forall i :: 0 <= i < p.size ==> !Acquirable(p.slots[i], now)
  {
    forall i | 0 <= i < p.size
      ensures !Usable(p.slots[i], now) && !Acquirable(p.slots[i], now) &&
              (FetchEligible(p.slots[i], now) <==> !p.slots[i].fetching)
    {
      StartingSlot(p.slots[i], now);
    }
    AllFetching(p.slots);
  }

  lemma AllFetching(slots: seq<Entry>)
    ensures (forall i :: 0 <= i < |slots| ==> slots[i].fetching) ==> |FetchingSlots(slots)| == |slots|
  {
    if forall i :: 0 <= i < |slots| ==> slots[i].fetching { assert FetchingSlots(slots) == Below(|slots|); }
  }

  lemma OneAsk(p: Pool, connIdx: int, now: Time)
    requires StartingPool(p, now) && |FetchingSlots(p.slots)| <= (p.size + 3) / 4
    ensures var q := EnterGet(p, connIdx, now); var n := |FetchingSlots(p.slots)|;
            && StartingPool(q, now) && q.size == p.size
            && |FetchingSlots(q.slots)| == if n < (p.size + 3) / 4 then n + 1 else n
  {
    DecisionTable(p, connIdx, now);
    var d := Decide(p, connIdx, now);
    forall i | 0 <= i < p.size ensures !Usable(p.slots[i], now) && !Acquirable(p.slots[i], now) {
      StartingSlot(p.slots[i], now);
    }
    assert UsableSlots(p.slots, now) == {};
    if |FetchingSlots(p.slots)| < (p.size + 3) / 4 {
      SomeSlotIdle(p, now);
      FlagRaised(p.slots, d.slot);
    }
  }

  lemma {:induction false} Asks(p: Pool, conns: seq<int>, now: Time)
    requires StartingPool(p, now) && |FetchingSlots(p.slots)| <= (p.size + 3) / 4
    ensures var q := GetAll(p, conns, now); var all := |FetchingSlots(p.slots)| + |conns|;
            |FetchingSlots(q.slots)| == if all < (p.size + 3) / 4 then all else (p.size + 3) / 4
    decreases conns
  {
    if conns != [] {
      OneAsk(p, conns[0], now);
      Asks(EnterGet(p, conns[0], now), conns[1..], now);
    }
  }

  /** From an empty pool, k calls at one instant start exactly the smaller of k and ceil(size / 4) fetches, so
      the n conns of a pool sized for them start one fetch for every ten. */
  lemma ColdStartFetches(p: Pool, conns: seq<int>, now: Time, n: int)
    requires WellFormed(p) && !Future(p.pauseUntil, now) && p.slots == seq(p.size, _ => EMPTY)
    ensures |FetchingSlots(GetAll(p, conns, now).slots)| ==
            if |conns| < (p.size + 3) / 4 then |conns| else (p.size + 3) / 4
    ensures n >= 1 && p.size == PoolSizeForNumConns(n) && |conns| >= n ==>
            |FetchingSlots(GetAll(p, conns, now).slots)| == (n + 9) / 10
  {
    assert FetchingSlots(p.slots) == {};
    Asks(p, conns, now);
    if n >= 1 { TargetIsQuotaCount(n); }
  }
}
