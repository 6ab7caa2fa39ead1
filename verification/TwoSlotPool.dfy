/**
 Concrete steps of a pool of two slots, the size the program gives the smallest pool. Slot 1 stays empty;
 everything happens on slot 0, the own slot of conns 0 to 9. Other modules chain them into runs.
 */
module TwoSlotPool {
  import opened Basics
  import opened CredEntry
  import opened PoolOps
  import opened PoolRuns

  /** Two creds that live well past the instants the runs use. */
  const CRED_A: Cred := Cred("4000:a", "", "")
  const CRED_B: Cred := Cred("4000:b", "", "")

  lemma CredsUnexpired(now: Time)
    requires now < 2_000_000_000_000
    ensures Unexpired(CRED_A, now) && Unexpired(CRED_B, now) && CRED_A.username != CRED_B.username
  {
    SampleExpiry('a');
    SampleExpiry('b');
    assert CRED_A.username == "4000:" + ['a'] && CRED_B.username == "4000:" + ['b'];
    assert CRED_A.username[5] != CRED_B.username[5];
  }

  function TwoSlots(now: Time, e: Entry, b: Book, idle: Book): Sys {
    Sys(now, Pool(2, MINUTE, [e, EMPTY], None, None, None), [b, idle])
  }

  lemma StartsQuiet(b: Book, idle: Book)
    requires b.Clean() && idle.Clean()
    ensures Init(TwoSlots(0, EMPTY, b, idle))
  {
    var s := TwoSlots(0, EMPTY, b, idle);
    forall i: nat | i < 2 ensures CleanAt(s, i) && QuietAt(s, i) {
    }
  }

  ghost predicate Leads(s: Sys, now: Time, e: Entry, b: Book, idle: Book) {
    Shape(s) && Reaches(s, TwoSlots(now, e, b, idle))
  }

  lemma Begin(now: Time, e: Entry, b: Book, idle: Book)
    ensures Leads(TwoSlots(now, e, b, idle), now, e, b, idle)
  {
    var s := TwoSlots(now, e, b, idle);
    assert IsRun(s, []) && Final(s, []) == s;
  }

  /** A conn is granted slot 0. */
  lemma Grant(s: Sys, now: Time, e: Entry, b: Book, idle: Book)
    requires Leads(s, now, e, b, idle) && Acquirable(e, now)
    ensures Leads(s, now, Bump(e), b.Grant(), idle)
  {
    var t := TwoSlots(now, e, b, idle);
    assert PickAcquire(t.pool, 0, now) == 0;
    assert Decide(t.pool, 0, now) == Decision.Granted(0);
    assert Step(t, GetEnter(0)) == TwoSlots(now, Bump(e), b.Grant(), idle);
    ReachesStep(s, t, GetEnter(0));
  }

  /** A conn starts a fetch for slot 0. */
  lemma StartFetch(s: Sys, now: Time, e: Entry, b: Book, idle: Book)
    requires Leads(s, now, e, b, idle) && FetchEligible(e, now) && !Usable(e, now)
    ensures Leads(s, now, e.(fetching := true), b.StartGet(), idle)
  {
    var t := TwoSlots(now, e, b, idle);
    assert t.pool.slots[0] == e && t.pool.slots[1] == EMPTY;
    assert UsableSlots(t.pool.slots, now) == {} && FetchingSlots(t.pool.slots) == {};
    assert Decide(t.pool, 0, now) == FetchInto(0);
    assert Step(t, GetEnter(0)) == TwoSlots(now, e.(fetching := true), b.StartGet(), idle);
    ReachesStep(s, t, GetEnter(0));
  }

  /** The fetch ends with a cred, leased to the conn that fetched it. */
  lemma EndFetch(s: Sys, now: Time, e: Entry, b: Book, idle: Book, cred: Cred)
    requires Leads(s, now, e, b, idle) && b.gets > 0
    ensures Leads(s, now, Filled("", cred, 1), b.EndGet().Replace().Grant(), idle)
  {
    var t := TwoSlots(now, e, b, idle);
    var g := GetExit(0, 0, Some(("", cred)));
    assert Step(t, g) == TwoSlots(now, Filled("", cred, 1), b.EndGet().Replace().Grant(), idle);
    ReachesStep(s, t, g);
  }

  /** An empty slot is fetched into. */
  lemma FetchFirst(s: Sys, b: Book, idle: Book, cred: Cred) returns (b': Book)
    requires Leads(s, 0, EMPTY, b, idle)
    ensures b' == b.StartGet().EndGet().Replace().Grant() && Leads(s, 0, Filled("", cred, 1), b', idle)
  {
    StartFetch(s, 0, EMPTY, b, idle);
    EndFetch(s, 0, EMPTY.(fetching := true), b.StartGet(), idle, cred);
    b' := b.StartGet().EndGet().Replace().Grant();
  }

  lemma Drop(s: Sys, now: Time, e: Entry, b: Book, idle: Book)
    requires Leads(s, now, e, b, idle)
    ensures Leads(s, now, EMPTY, b.Drop(), idle)
  {
    var t := TwoSlots(now, e, b, idle);
    assert Step(t, DropOne(0)) == TwoSlots(now, EMPTY, b.Drop(), idle);
    ReachesStep(s, t, DropOne(0));
  }

  lemma GiveBack(s: Sys, now: Time, e: Entry, b: Book, idle: Book, ofOld: bool)
    requires Leads(s, now, e, b, idle) && if ofOld then b.stale > 0 else b.current > 0
    ensures Leads(s, now, Lower(e, now), b.Return(ofOld, e.active), idle)
  {
    var t := TwoSlots(now, e, b, idle);
    assert Step(t, Return(0, ofOld)) == TwoSlots(now, Lower(e, now), b.Return(ofOld, e.active), idle);
    ReachesStep(s, t, Return(0, ofOld));
  }

  lemma Report486(s: Sys, now: Time, e: Entry, b: Book, idle: Book)
    requires Leads(s, now, e, b, idle) && b.Leases() > 0
    ensures Leads(s, now, Saturate(e, now + QuotaCooldown(e, now)), b, idle)
  {
    var t := TwoSlots(now, e, b, idle);
    assert Step(t, Mark(0)) == TwoSlots(now, Saturate(e, now + QuotaCooldown(e, now)), b, idle);
    ReachesStep(s, t, Mark(0));
  }

  lemma Wait(s: Sys, now: Time, e: Entry, b: Book, idle: Book, later: Time)
    requires Leads(s, now, e, b, idle) && now <= later
    ensures Leads(s, later, e, b, idle)
  {
    ReachesStep(s, TwoSlots(now, e, b, idle), Advance(later));
  }
}
