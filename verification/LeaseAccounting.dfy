/**
 Lease accounting over every interleaving: the active count never exceeds the quota or the leases
 really outstanding, and it is exact until a lease of a replaced cred is returned.
 */
module LeaseAccounting {
  import opened Basics
  import opened CredEntry
  import opened PoolOps
  import opened PoolRuns

  predicate SlotBalanced(e: Entry, b: Book) {
    e.active <= CONNS_PER_SLOT && b.lost >= 0 && b.current == e.active + b.lost
  }

  predicate BalancedAt(s: Sys, i: nat)
    requires Shape(s) && i < s.pool.size
  {
    SlotBalanced(s.pool.slots[i], s.books[i])
  }

  predicate Balanced(s: Sys) {
    Shape(s) && forall i: nat :: i < s.pool.size ==> BalancedAt(s, i)
  }

  lemma ReturnBalanced(e: Entry, b: Book, ofOld: bool, now: Time)
    requires SlotBalanced(e, b)
    requires if ofOld then b.stale > 0 else b.current > 0
    ensures SlotBalanced(Lower(e, now), b.Return(ofOld, e.active))
  {
  }

  /** The failed-fetch tail of `get` ends one fetch and may grant one lease, possibly on the same slot. */
  lemma FailedGetBalanced(s: Sys, i: nat, connIdx: int, j: nat)
    requires Balanced(s) && i < s.pool.size && s.books[i].gets > 0 && j < s.pool.size
    ensures BalancedAt(Step(s, GetExit(i, connIdx, None)), j)
  {
    var q := CoolDown(s.pool, i, s.now);
    var pick := PickAcquire(q, OwnSlot(s.pool.size, connIdx), s.now);
    var books := s.books[i := s.books[i].EndGet()];
    assert BalancedAt(s, j);
    assert SlotBalanced(q.slots[j], books[j]);
    if pick == j {
      assert Acquirable(q.slots[j], s.now);
    }
  }

  /** Seeding happens with clean books, so every entry it moves has no lease on it. */
  lemma SeedBalanced(s: Sys, i: nat, addr: string, cred: Cred, j: nat)
    requires Balanced(s) && Enabled(s, SeedAt(i, addr, cred)) && j < s.pool.size
    ensures BalancedAt(Step(s, SeedAt(i, addr, cred)), j)
  {
    SeedOrigin(s.pool.slots, i, addr, cred, s.now, j);
    assert CleanAt(s, j);
    var e := SeedSlots(s.pool.slots, i, addr, cred, s.now)[j];
    if e in s.pool.slots {
      var k :| 0 <= k < s.pool.size && s.pool.slots[k] == e;
      assert CleanAt(s, k) && BalancedAt(s, k);
    }
  }

  lemma GetEnterBalanced(s: Sys, connIdx: int, j: nat)
    requires Balanced(s) && j < s.pool.size
    ensures BalancedAt(Step(s, GetEnter(connIdx)), j)
  {
    assert BalancedAt(s, j);
  }

  lemma FillBalanced(s: Sys, a: Action, j: nat)
    requires Balanced(s) && Enabled(s, a) && (a.FillEnter? || a.FillExit?) && j < s.pool.size
    ensures BalancedAt(Step(s, a), j)
  {
    assert BalancedAt(s, j);
  }

  lemma ReplaceBalanced(s: Sys, a: Action, j: nat)
    requires Balanced(s) && Enabled(s, a) && j < s.pool.size
    requires a.DropAll? || a.DropOne? || (a.GetExit? && a.result.Some?)
    ensures BalancedAt(Step(s, a), j)
  {
    assert BalancedAt(s, j);
  }

  lemma MarkBalanced(s: Sys, a: Action, j: nat)
    requires Balanced(s) && Enabled(s, a) && (a.Mark? || a.PathEvent? || a.Transition?) && j < s.pool.size
    ensures BalancedAt(Step(s, a), j)
  {
    assert BalancedAt(s, j);
  }

  lemma ReturnOrTimeBalanced(s: Sys, a: Action, j: nat)
    requires Balanced(s) && Enabled(s, a) && (a.Return? || a.Advance?) && j < s.pool.size
    ensures BalancedAt(Step(s, a), j)
  {
    assert BalancedAt(s, j);
    if a.Return? && a.slot == j {
      ReturnBalanced(s.pool.slots[j], s.books[j], a.ofOld, s.now);
    }
  }

  lemma StepBalanced(s: Sys, a: Action, j: nat)
    requires Balanced(s) && Enabled(s, a) && j < s.pool.size
    ensures BalancedAt(Step(s, a), j)
  {
    if a.GetEnter? {
      GetEnterBalanced(s, a.connIdx, j);
    } else if a.GetExit? && a.result.None? {
      FailedGetBalanced(s, a.slot, a.connIdx, j);
    } else if a.SeedAt? {
      SeedBalanced(s, a.slot, a.addr, a.cred, j);
    } else if a.FillEnter? || a.FillExit? {
      FillBalanced(s, a, j);
    } else if a.Mark? || a.PathEvent? || a.Transition? {
      MarkBalanced(s, a, j);
    } else if a.Return? || a.Advance? {
      ReturnOrTimeBalanced(s, a, j);
    } else {
      ReplaceBalanced(s, a, j);
    }
  }

  /** Whatever the interleaving, every state of every run is balanced. */
  lemma {:induction false} RunsStayBalanced(s: Sys, acts: seq<Action>)
    requires Balanced(s) && IsRun(s, acts)
    ensures Balanced(Final(s, acts))
    decreases acts
  {
    if acts != [] {
      forall j: nat | j < s.pool.size
        ensures BalancedAt(Step(s, acts[0]), j)
      {
        StepBalanced(s, acts[0], j);
      }
      RunsStayBalanced(Step(s, acts[0]), acts[1..]);
    }
  }

  lemma InitBalancedAt(s: Sys, j: nat)
    requires Init(s) && j < s.pool.size
    ensures BalancedAt(s, j)
  {
    assert QuietAt(s, j) && CleanAt(s, j);
  }

  lemma InitBalanced(s: Sys)
    requires Init(s)
    ensures Balanced(s)
  {
    forall j: nat | j < s.pool.size ensures BalancedAt(s, j) {
      InitBalancedAt(s, j);
    }
  }

  /**
   From start-up, in every interleaving and on every slot: the active count is between 0 and 10 and at
   most the outstanding leases, and the leases on the present cred are exactly that count plus the
   lost ones.
   */
  lemma LeaseQuota(s: Sys, acts: seq<Action>, i: nat)
    requires Init(s) && IsRun(s, acts) && i < s.pool.size
    ensures var t := Final(s, acts); var e := t.pool.slots[i]; var b := t.books[i];
            && 0 <= e.active <= 10 && e.active <= b.current + b.stale
            && b.lost >= 0 && b.current == e.active + b.lost
  {
    InitBalanced(s);
    RunsStayBalanced(s, acts);
    assert BalancedAt(Final(s, acts), i);
  }

  // ---------- runs that never overwrite or drop a leased slot ----------

  /** The action replaces or drops the cred of slot i. */
  predicate Replaces(s: Sys, a: Action, i: nat)
    requires Shape(s) && i < s.pool.size
  {
    match a
    case GetExit(j, _, result) => i == j && result.Some?
    case FillExit(j, abort, result) => i == j && result.Some? && FillCommits(s.pool, abort, s.now)
    case DropAll => true
    case DropOne(j) => i == j
    case _ => false
  }

  /** No action of the run replaces or drops the cred of slot i while a lease is out on the slot. */
  predicate NeverOverwritesLeased(s: Sys, acts: seq<Action>, i: nat)
    requires Shape(s) && IsRun(s, acts) && i < s.pool.size
    decreases acts
  {
    acts == [] ||
    (&& (Replaces(s, acts[0], i) ==> s.books[i].Leases() == 0)
     && NeverOverwritesLeased(Step(s, acts[0]), acts[1..], i))
  }

  lemma StepKeepsNoStale(s: Sys, a: Action, i: nat)
    requires Shape(s) && Enabled(s, a) && i < s.pool.size && s.books[i].stale == 0
    requires Replaces(s, a, i) ==> s.books[i].Leases() == 0
    ensures Step(s, a).books[i].stale == 0
  {
  }

  lemma {:induction false} RunKeepsNoStale(s: Sys, acts: seq<Action>, i: nat)
    requires Shape(s) && IsRun(s, acts) && i < s.pool.size && s.books[i].stale == 0
    requires NeverOverwritesLeased(s, acts, i)
    ensures NoStaleReturn(s, acts, i) && Final(s, acts).books[i].stale == 0
    decreases acts
  {
    if acts != [] {
      StepKeepsNoStale(s, acts[0], i);
      RunKeepsNoStale(Step(s, acts[0]), acts[1..], i);
    }
  }

  /** If slot i is never overwritten or dropped while leased, its count is the lease count, at most 10. */
  lemma ExactWhenNeverOverwritten(s: Sys, acts: seq<Action>, i: nat)
    requires Init(s) && IsRun(s, acts) && i < s.pool.size && NeverOverwritesLeased(s, acts, i)
    ensures var t := Final(s, acts); t.pool.slots[i].active == t.books[i].Leases() <= 10
  {
    assert CleanAt(s, i);
    RunKeepsNoStale(s, acts, i);
    CountExactIff(s, acts, i);
    ExactAtEnd(s, acts, i);
  }

  // ---------- exactly when the count is wrong ----------

  /** A lease of a replaced cred comes back while the pool counts leases on the slot. */
  predicate StaleReturn(s: Sys, a: Action, i: nat)
    requires Shape(s) && i < s.pool.size
  {
    a == Return(i, true) && s.pool.slots[i].active > 0
  }

  /** An exact count is lost at exactly one kind of step. */
  lemma CountLostExactlyByStaleReturn(s: Sys, a: Action, i: nat)
    requires Balanced(s) && Enabled(s, a) && i < s.pool.size
    requires s.pool.slots[i].active == s.books[i].current
    ensures var t := Step(s, a); t.pool.slots[i].active == t.books[i].current <==> !StaleReturn(s, a, i)
  {
    assert BalancedAt(s, i);
    StepBalanced(s, a, i);
    assert BalancedAt(Step(s, a), i);
    LostMoves(s, a, i);
  }

  /** Only returns move the lost count away from zero. */
  lemma LostMoves(s: Sys, a: Action, i: nat)
    requires Shape(s) && Enabled(s, a) && i < s.pool.size && s.books[i].lost == 0
    requires s.pool.slots[i].active == s.books[i].current
    ensures Step(s, a).books[i].lost == if StaleReturn(s, a, i) then 1 else 0
  {
    match a
    case GetEnter(_) =>
    case GetExit(_, _, _) =>
    case _ =>
  }

  predicate ExactThroughout(s: Sys, acts: seq<Action>, i: nat)
    requires Shape(s) && IsRun(s, acts) && i < s.pool.size
    decreases acts
  {
    && s.pool.slots[i].active == s.books[i].current
    && (acts == [] || ExactThroughout(Step(s, acts[0]), acts[1..], i))
  }

  predicate NoStaleReturn(s: Sys, acts: seq<Action>, i: nat)
    requires Shape(s) && IsRun(s, acts) && i < s.pool.size
    decreases acts
  {
    acts == [] || (!StaleReturn(s, acts[0], i) && NoStaleReturn(Step(s, acts[0]), acts[1..], i))
  }

  lemma {:induction false} ExactIffNoStaleReturn(s: Sys, acts: seq<Action>, i: nat)
    requires Balanced(s) && IsRun(s, acts) && i < s.pool.size && s.pool.slots[i].active == s.books[i].current
    ensures ExactThroughout(s, acts, i) <==> NoStaleReturn(s, acts, i)
    decreases acts
  {
    if acts != [] {
      var t := Step(s, acts[0]);
      CountLostExactlyByStaleReturn(s, acts[0], i);
      forall j: nat | j < s.pool.size ensures BalancedAt(t, j) { StepBalanced(s, acts[0], j); }
      if t.pool.slots[i].active == t.books[i].current { ExactIffNoStaleReturn(t, acts[1..], i); }
    }
  }

  /** Over a whole run from start-up the count of a slot is its cred's lease count in every state if and
      only if no lease of a replaced cred comes back while the count is positive; and then no cred of
      the slot ends with more than 10 leases. */
  lemma CountExactIff(s: Sys, acts: seq<Action>, i: nat)
    requires Init(s) && IsRun(s, acts) && i < s.pool.size
    ensures ExactThroughout(s, acts, i) <==> NoStaleReturn(s, acts, i)
    ensures NoStaleReturn(s, acts, i) ==> Final(s, acts).books[i].current <= 10
  {
    InitBalanced(s);
    assert CleanAt(s, i) && QuietAt(s, i);
    ExactIffNoStaleReturn(s, acts, i);
    LeaseQuota(s, acts, i);
    if NoStaleReturn(s, acts, i) { ExactAtEnd(s, acts, i); }
  }

  lemma {:induction false} ExactAtEnd(s: Sys, acts: seq<Action>, i: nat)
    requires Shape(s) && IsRun(s, acts) && i < s.pool.size && ExactThroughout(s, acts, i)
    ensures Final(s, acts).pool.slots[i].active == Final(s, acts).books[i].current
    decreases acts
  {
    if acts != [] { ExactAtEnd(Step(s, acts[0]), acts[1..], i); }
  }

  /** The action grants slot i to one more conn on the cred it holds. */
  predicate GrantsMore(s: Sys, a: Action, i: nat)
    requires Shape(s) && Enabled(s, a) && i < s.pool.size
  {
    (a.GetEnter? || (a.GetExit? && a.result.None?)) &&
    Step(s, a).pool.slots[i].active == s.pool.slots[i].active + 1
  }

  /** The quota is first exceeded at exactly one kind of step: a grant on a slot whose cred already has
      ten leases, some of them lost to the count. */
  lemma QuotaCrossedExactlyByGrant(s: Sys, a: Action, i: nat)
    requires Balanced(s) && Enabled(s, a) && i < s.pool.size && s.books[i].current <= 10
    ensures Step(s, a).books[i].current > 10 <==>
            GrantsMore(s, a, i) && s.pool.slots[i].active + s.books[i].lost == 10
  {
    assert BalancedAt(s, i);
    if a.GetExit? && a.result.None? {
      FailedGetMoves(s, a.slot, a.connIdx, i);
    } else if a.GetEnter? {
    } else {
      OthersGrantNothing(s, a, i);
    }
  }

  predicate WithinQuotaThroughout(s: Sys, acts: seq<Action>, i: nat)
    requires Shape(s) && IsRun(s, acts) && i < s.pool.size
    decreases acts
  {
    s.books[i].current <= 10 && (acts == [] || WithinQuotaThroughout(Step(s, acts[0]), acts[1..], i))
  }

  predicate NoGrantAtTen(s: Sys, acts: seq<Action>, i: nat)
    requires Shape(s) && IsRun(s, acts) && i < s.pool.size
    decreases acts
  {
    acts == [] ||
    (&& !(GrantsMore(s, acts[0], i) && s.pool.slots[i].active + s.books[i].lost == 10)
     && NoGrantAtTen(Step(s, acts[0]), acts[1..], i))
  }

  lemma {:induction false} WithinQuotaIff(s: Sys, acts: seq<Action>, i: nat)
    requires Balanced(s) && IsRun(s, acts) && i < s.pool.size && s.books[i].current <= 10
    ensures WithinQuotaThroughout(s, acts, i) <==> NoGrantAtTen(s, acts, i)
    decreases acts
  {
    if acts != [] {
      var t := Step(s, acts[0]);
      QuotaCrossedExactlyByGrant(s, acts[0], i);
      forall j: nat | j < s.pool.size ensures BalancedAt(t, j) { StepBalanced(s, acts[0], j); }
      if t.books[i].current <= 10 { WithinQuotaIff(t, acts[1..], i); }
    }
  }

  /** Over a whole run from start-up no cred of the slot ever has more than 10 leases if and only if the slot
      is never granted while the leases it counts and those it lost are ten together. */
  lemma QuotaKeptIff(s: Sys, acts: seq<Action>, i: nat)
    requires Init(s) && IsRun(s, acts) && i < s.pool.size
    ensures WithinQuotaThroughout(s, acts, i) <==> NoGrantAtTen(s, acts, i)
  {
    InitBalanced(s);
    assert CleanAt(s, i);
    WithinQuotaIff(s, acts, i);
  }

  lemma FailedGetMoves(s: Sys, i: nat, connIdx: int, j: nat)
    requires Balanced(s) && i < s.pool.size && s.books[i].gets > 0 && j < s.pool.size
    ensures var t := GetFailStep(s, i, connIdx);
            t.books[j].current - s.books[j].current == t.pool.slots[j].active - s.pool.slots[j].active <= 1
  {
    var q := CoolDown(s.pool, i, s.now);
    assert q.slots[j].active == s.pool.slots[j].active;
    assert s.books[i := s.books[i].EndGet()][j].current == s.books[j].current;
  }

  lemma OthersGrantNothing(s: Sys, a: Action, i: nat)
    requires Balanced(s) && Enabled(s, a) && i < s.pool.size && !a.GetEnter? && !(a.GetExit? && a.result.None?)
    ensures Step(s, a).books[i].current <= s.books[i].current || Step(s, a).books[i].current == 1
  {
  }
}
