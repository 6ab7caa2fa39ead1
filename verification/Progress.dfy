/**
 Progress without a fetch: with the pool sized for n conns, ceil(size / 4) available slots are enough
 to serve every conn that holds no lease, whatever the other conns hold.
 */
module Progress {
  import opened Basics
  import opened CredEntry
  import opened PoolOps
  import opened PoolRuns
  import opened LeaseAccounting

  /** Four slots for every ten conns, rounded up, and never fewer than two. */
  lemma PoolSizeMeaning(n: int)
    requires n >= 1
    ensures var size := PoolSizeForNumConns(n);
            size >= 2 && 10 * size >= 4 * n && (size == 2 || 10 * (size - 1) < 4 * n)
  {
  }

  /** The cold-start target recovers the number of quotas n conns need, for every n. */
  lemma TargetIsQuotaCount(n: int)
    requires n >= 1
    ensures ColdStartTarget(PoolSizeForNumConns(n)) == (n + 9) / 10
    ensures 10 * ColdStartTarget(PoolSizeForNumConns(n)) >= n
  {
  }

  /** The conns that hold a lease on slot i, each conn holding at most one lease. */
  function HoldersOf(held: map<nat, nat>, i: nat): set<nat> {
    set c | c in held && held[c] == i
  }

  function HoldersIn(held: map<nat, nat>, slots: set<nat>): set<nat> {
    set c | c in held && held[c] in slots
  }

  lemma HoldersSplit(held: map<nat, nat>, slots: set<nat>, i: nat)
    requires i in slots
    ensures |HoldersIn(held, slots)| == |HoldersIn(held, slots - {i})| + |HoldersOf(held, i)|
  {
    var rest := HoldersIn(held, slots - {i});
    assert HoldersIn(held, slots) == rest + HoldersOf(held, i);
    assert rest !! HoldersOf(held, i);
  }

  /** If every slot of a set has at least ten holders, the set has at least ten times its size. */
  lemma {:induction false} Pigeonhole(held: map<nat, nat>, slots: set<nat>)
    requires forall i :: i in slots ==> |HoldersOf(held, i)| >= 10
    ensures |HoldersIn(held, slots)| >= 10 * |slots|
    decreases slots
  {
    if slots != {} {
      var i :| i in slots;
      HoldersSplit(held, slots, i);
      Pigeonhole(held, slots - {i});
    }
  }

  // ---------- conns, each with at most one lease ----------

  /** Which conn holds a lease on which slot, and which conn waits for a fetch into which slot. */
  datatype Conns = Conns(held: map<nat, nat>, waiting: map<nat, nat>)

  /** A conn asks only when it neither holds nor waits, a fetch ends for the conn that waits for it, and a
      lease comes back from the conn that holds it. `who` is the conn that acts. */
  predicate ConnEnabled(k: Conns, a: Action, who: nat) {
    match a
    case GetEnter(c) => c == who && who !in k.held && who !in k.waiting
    case GetExit(i, c, _) => c == who && who in k.waiting && k.waiting[who] == i
    case Return(i, _) => who in k.held && k.held[who] == i
    case _ => true
  }

  function ConnStep(s: Sys, k: Conns, a: Action, who: nat): Conns
    requires Shape(s) && Enabled(s, a) && ConnEnabled(k, a, who)
  {
    match a
    case GetEnter(c) =>
      (match Decide(s.pool, c, s.now)
       case Granted(i) => Conns(k.held[who := i], k.waiting)
       case FetchInto(i) => Conns(k.held, k.waiting[who := i])
       case _ => k)
    case GetExit(i, c, result) =>
      var pick := if result.Some? then i else ExitGetFail(s.pool, i, OwnSlot(s.pool.size, c), s.now).1;
      Conns(if pick >= 0 then k.held[who := pick] else k.held, k.waiting - {who})
    case Return(_, _) => Conns(k.held - {who}, k.waiting)
    case _ => k
  }

  /** A run with its actors. */
  predicate IsConnRun(s: Sys, k: Conns, acts: seq<Action>, whos: seq<nat>)
    requires Shape(s) && IsRun(s, acts) && |whos| == |acts|
    decreases acts
  {
    acts == [] ||
    (ConnEnabled(k, acts[0], whos[0]) &&
     IsConnRun(Step(s, acts[0]), ConnStep(s, k, acts[0], whos[0]), acts[1..], whos[1..]))
  }

  function FinalConns(s: Sys, k: Conns, acts: seq<Action>, whos: seq<nat>): Conns
    requires Shape(s) && IsRun(s, acts) && |whos| == |acts| && IsConnRun(s, k, acts, whos)
    decreases acts
  {
    if acts == [] then k
    else FinalConns(Step(s, acts[0]), ConnStep(s, k, acts[0], whos[0]), acts[1..], whos[1..])
  }

  /** The conns holding a slot are exactly its leases. */
  ghost predicate AccountsAt(s: Sys, held: map<nat, nat>, i: nat)
    requires Shape(s) && i < s.pool.size
  {
    s.books[i].Leases() == |HoldersOf(held, i)|
  }

  ghost predicate Accounts(s: Sys, k: Conns) {
    && Shape(s)
    && k.held.Keys !! k.waiting.Keys
    && forall i: nat :: i < s.pool.size ==> AccountsAt(s, k.held, i)
  }

  lemma TakesLease(held: map<nat, nat>, who: nat, slot: nat, i: nat)
    requires who !in held
    ensures |HoldersOf(held[who := slot], i)| == |HoldersOf(held, i)| + if i == slot then 1 else 0
  {
    var h := held[who := slot];
    if i == slot {
      assert HoldersOf(h, i) == HoldersOf(held, i) + {who};
    } else {
      assert HoldersOf(h, i) == HoldersOf(held, i);
    }
  }

  lemma GivesLease(held: map<nat, nat>, who: nat, i: nat)
    requires who in held
    ensures |HoldersOf(held - {who}, i)| == |HoldersOf(held, i)| - if i == held[who] then 1 else 0
  {
    var h := held - {who};
    if i == held[who] {
      assert HoldersOf(held, i) == HoldersOf(h, i) + {who};
    } else {
      assert HoldersOf(held, i) == HoldersOf(h, i);
    }
  }

  lemma GetAccounts(s: Sys, k: Conns, a: Action, who: nat, i: nat)
    requires Accounts(s, k) && Enabled(s, a) && ConnEnabled(k, a, who) && (a.GetEnter? || a.GetExit?) && i < s.pool.size
    ensures AccountsAt(Step(s, a), ConnStep(s, k, a, who).held, i)
  {
    assert AccountsAt(s, k.held, i);
    assert who !in k.held;
    if a.GetEnter? {
      var d := Decide(s.pool, a.connIdx, s.now);
      if d.Granted? { TakesLease(k.held, who, d.slot, i); }
    } else if a.result.Some? {
      TakesLease(k.held, who, a.slot, i);
    } else {
      FailedGetAccounts(s, k, a.slot, a.connIdx, who, i);
    }
  }

  lemma FailedGetAccounts(s: Sys, k: Conns, j: nat, connIdx: int, who: nat, i: nat)
    requires Accounts(s, k) && j < s.pool.size && s.books[j].gets > 0 && who !in k.held && i < s.pool.size
    ensures var pick := ExitGetFail(s.pool, j, OwnSlot(s.pool.size, connIdx), s.now).1;
            AccountsAt(GetFailStep(s, j, connIdx), if pick >= 0 then k.held[who := pick] else k.held, i)
  {
    assert AccountsAt(s, k.held, i);
    var pick := ExitGetFail(s.pool, j, OwnSlot(s.pool.size, connIdx), s.now).1;
    var books := s.books[j := s.books[j].EndGet()];
    assert books[i].Leases() == s.books[i].Leases();
    if pick >= 0 { TakesLease(k.held, who, pick, i); }
  }

  lemma OtherAccounts(s: Sys, k: Conns, a: Action, who: nat, i: nat)
    requires Accounts(s, k) && Enabled(s, a) && ConnEnabled(k, a, who) && !a.GetEnter? && !a.GetExit? && i < s.pool.size
    ensures AccountsAt(Step(s, a), ConnStep(s, k, a, who).held, i)
  {
    assert AccountsAt(s, k.held, i);
    if a.Return? {
      GivesLease(k.held, who, i);
    } else {
    }
  }

  lemma StepAccounts(s: Sys, k: Conns, a: Action, who: nat)
    requires Accounts(s, k) && Enabled(s, a) && ConnEnabled(k, a, who)
    ensures Accounts(Step(s, a), ConnStep(s, k, a, who))
  {
    forall i: nat | i < s.pool.size ensures AccountsAt(Step(s, a), ConnStep(s, k, a, who).held, i) {
      if a.GetEnter? || a.GetExit? {
        GetAccounts(s, k, a, who, i);
      } else {
        OtherAccounts(s, k, a, who, i);
      }
    }
  }

  /** In every run the conns' leases are exactly the books'. */
  lemma {:induction false} RunAccounts(s: Sys, k: Conns, acts: seq<Action>, whos: seq<nat>)
    requires Accounts(s, k) && IsRun(s, acts) && |whos| == |acts| && IsConnRun(s, k, acts, whos)
    ensures Accounts(Final(s, acts), FinalConns(s, k, acts, whos))
    decreases acts
  {
    if acts != [] {
      StepAccounts(s, k, acts[0], whos[0]);
      RunAccounts(Step(s, acts[0]), ConnStep(s, k, acts[0], whos[0]), acts[1..], whos[1..]);
    }
  }

  lemma NobodyAccounts(s: Sys)
    requires Init(s)
    ensures Accounts(s, Conns(map[], map[]))
  {
    forall i: nat | i < s.pool.size ensures AccountsAt(s, map[], i) {
      assert CleanAt(s, i);
      assert HoldersOf(map[], i) == {};
    }
  }

  // ---------- progress ----------

  /** If no slot is acquirable, every available slot is at its quota, so at least ten conns hold it. */
  lemma FullSlotHasTenHolders(s: Sys, k: Conns, i: nat)
    requires Balanced(s) && Accounts(s, k) && i < s.pool.size
    requires Available(s.pool.slots[i], s.now) && !Acquirable(s.pool.slots[i], s.now)
    ensures |HoldersOf(k.held, i)| >= 10
  {
    assert BalancedAt(s, i) && AccountsAt(s, k.held, i);
  }

  lemma SomeSlotIsAcquirable(s: Sys, k: Conns, n: nat)
    requires Balanced(s) && Accounts(s, k)
    requires |k.held| < n && 10 * |AvailableSlots(s.pool.slots, s.now)| >= n
    ensures exists i: nat :: i < s.pool.size && Acquirable(s.pool.slots[i], s.now)
  {
    if forall i: nat :: i < s.pool.size ==> !Acquirable(s.pool.slots[i], s.now) {
      var full := AvailableSlots(s.pool.slots, s.now);
      forall i | i in full ensures |HoldersOf(k.held, i)| >= 10 {
        FullSlotHasTenHolders(s, k, i);
      }
      Pigeonhole(k.held, full);
      SubsetSize(HoldersIn(k.held, full), k.held.Keys);
      assert false;
    }
  }

  /** Only conns that act come to hold a lease. */
  lemma {:induction false} HoldersAreActors(s: Sys, k: Conns, acts: seq<Action>, whos: seq<nat>, n: nat)
    requires Shape(s) && IsRun(s, acts) && |whos| == |acts| && IsConnRun(s, k, acts, whos)
    requires (forall c :: c in k.held ==> c < n) && (forall c :: c in whos ==> c < n)
    ensures forall c :: c in FinalConns(s, k, acts, whos).held ==> c < n
    decreases acts
  {
    if acts != [] {
      assert whos[0] in whos && forall c :: c in whos[1..] ==> c in whos;
      HoldersAreActors(Step(s, acts[0]), ConnStep(s, k, acts[0], whos[0]), acts[1..], whos[1..], n);
    }
  }

  /**
   Take any run from start-up of a pool sized for n conns, driven by conns 0 to n - 1 that each hold one
   lease at a time. If no pause is on and at least the cold-start target of slots is available, then a conn
   without a lease is granted one at once: `get` does not fetch, park or fail.
   */
  lemma ServedWithoutFetch(s: Sys, acts: seq<Action>, whos: seq<nat>, n: nat, c: nat)
    requires Init(s) && IsRun(s, acts) && |whos| == |acts|
    requires IsConnRun(s, Conns(map[], map[]), acts, whos) && forall w :: w in whos ==> w < n
    requires n >= 1 && s.pool.size == PoolSizeForNumConns(n)
    requires c < n && c !in FinalConns(s, Conns(map[], map[]), acts, whos).held
    requires var t := Final(s, acts);
             && !Future(t.pool.pauseUntil, t.now)
             && |AvailableSlots(t.pool.slots, t.now)| >= ColdStartTarget(t.pool.size)
    ensures var t := Final(s, acts); Decide(t.pool, c, t.now).Granted?
  {
    var nobody := Conns(map[], map[]);
    var t, k := Final(s, acts), FinalConns(s, nobody, acts, whos);
    InitBalanced(s);
    RunsStayBalanced(s, acts);
    NobodyAccounts(s);
    RunAccounts(s, nobody, acts, whos);
    HoldersAreActors(s, nobody, acts, whos, n);
    TargetIsQuotaCount(n);
    FewerHoldersThanConns(k.held, n, c);
    SomeSlotIsAcquirable(t, k, n);
  }

  lemma FewerHoldersThanConns(held: map<nat, nat>, n: nat, c: nat)
    requires forall k :: k in held ==> k < n
    requires c < n && c !in held
    ensures |held| < n
  {
    SubsetSize(held.Keys, Below(n));
    assert c in Below(n) && c !in held.Keys;
  }
}
