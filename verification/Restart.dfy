/**
 A restart end to end: the old process saves, the app picks a seed from the file, the new process loads
 the file and plants the seed. No cred is lost or duplicated, and no cred that carried conns at the save
 is handed out before its allocations have lapsed.
 */
module Restart {
  import opened Basics
  import opened CredEntry
  import opened PoolOps
  import opened CredCache

  // ---------- saving and loading a pool ----------

  function Blank(size: nat): (r: seq<Entry>)
    ensures |r| == size && forall i :: 0 <= i < size ==> r[i] == EMPTY
  {
    seq(size, _ => EMPTY)
  }

  /** What slot i of the new pool holds after saving at t0 and loading at t1. */
  function Survivor(slots: seq<Entry>, t0: Time, size: nat, t1: Time, i: nat): Entry {
    if i < |slots| && slots[i].creds.Some? && LoadEntry(SaveEntry(i, slots[i], t0), size, t1).Some?
    then LoadEntry(SaveEntry(i, slots[i], t0), size, t1).value else EMPTY
  }

  lemma {:induction false} LoadedSlot(slots: seq<Entry>, t0: Time, n: nat, size: nat, t1: Time, i: nat)
    requires n <= |slots| && i < size
    ensures LoadAll(Blank(size), SavedBelow(slots, t0, n), size, t1)[i] ==
            if i < n then Survivor(slots, t0, size, t1, i) else EMPTY
  {
    if n > 0 {
      LoadedSlot(slots, t0, n - 1, size, t1, i);
      if slots[n - 1].creds.Some? {
        LoadAppended(SavedBelow(slots, t0, n - 1), SaveEntry(n - 1, slots[n - 1], t0), size, t1);
      }
    }
  }

  lemma LoadAppended(cs: seq<CacheEntry>, c: CacheEntry, size: nat, t: Time)
    ensures LoadAll(Blank(size), cs + [c], size, t) == LoadOne(LoadAll(Blank(size), cs, size, t), c, size, t)
  {
  }

  /** Saving and loading keeps each cred in its own slot, and keeps exactly the ones still worth loading. */
  lemma SaveLoadRoundTrip(slots: seq<Entry>, t0: Time, size: nat, t1: Time, i: nat)
    requires i < size
    ensures var r := Reload(Blank(size), Some(Snapshot(slots, t0)), size, t1)[i];
            if i < |slots| && slots[i].creds.Some? && Loadable(slots[i].creds.value, t1)
            then r.creds.Some? && r.creds.value.username == slots[i].creds.value.username &&
                 r.creds.value.password == slots[i].creds.value.password && r.addr == slots[i].addr &&
                 r.active == 0 && !r.fetching &&
                 r.lastUsedAt == RememberedUse(slots[i], t0) &&
                 r.availableAt == (if r.lastUsedAt.Some? && t1 < r.lastUsedAt.value + 600_000_000_000
                                   then Some(r.lastUsedAt.value + 600_000_000_000) else None)
            else r == EMPTY
  {
    LoadedSlot(slots, t0, |slots|, size, t1, i);
  }

  /** The last use of a slot when it is saved: now if conns hold it. */
  function LastUse(e: Entry, t0: Time): Option<Time> {
    if e.active > 0 then Some(t0) else e.lastUsedAt
  }

  /** What the file keeps of it: the whole second, if that is past the epoch. */
  function RememberedUse(e: Entry, t0: Time): Option<Time> {
    var use := LastUse(e, t0);
    if use.Some? && use.value >= 1_000_000_000 then Some(use.value - use.value % 1_000_000_000) else None
  }

  predicate Loadable(c: Cred, now: Time) {
    var exp := ParseCredExpiry(c.username);
    exp.Some? && FromUnix(exp.value) - now >= EXPIRY_BUFFER
  }

  // ---------- what seeding loses ----------

  predicate Distinct(slots: seq<Entry>) {
    forall i, j :: 0 <= i < j < |slots| && slots[i].creds.Some? && slots[j].creds.Some? ==>
      slots[i].creds.value.username != slots[j].creds.value.username
  }

  predicate HeldSomewhere(slots: seq<Entry>, username: string) {
    exists i :: 0 <= i < |slots| && Holds(slots[i], username)
  }

  /** Slot 0 waits out a load delay (or has run down) with another cred, and no other slot is empty or
      holds the seed's cred: there is nowhere to move the displaced cred. */
  predicate NoRoom(slots: seq<Entry>, cred: Cred, now: Time)
    requires |slots| >= 1
  {
    && !Fresh(slots[0], now) && slots[0].creds.Some? && !Holds(slots[0], cred.username)
    && forall i :: 1 <= i < |slots| ==> slots[i].creds.Some? && !Holds(slots[i], cred.username)
  }

  lemma SeedLayout(slots: seq<Entry>, addr: string, cred: Cred, now: Time)
    returns (planted: seq<Entry>, deduped: seq<Entry>, vacant: int)
    requires |slots| >= 1 && !Fresh(slots[0], now)
    ensures planted == slots[0 := Filled(addr, cred, 0)] && deduped == Dedup(planted, 0, cred.username)
    ensures vacant == FirstVacant(deduped, 0)
    ensures SeedSlots(slots, 0, addr, cred, now) ==
            if slots[0].creds.Some? && !Holds(slots[0], cred.username) && vacant >= 0
            then deduped[vacant := slots[0]] else deduped
    ensures vacant != 0
  {
    planted := slots[0 := Filled(addr, cred, 0)];
    deduped := Dedup(planted, 0, cred.username);
    vacant := FirstVacant(deduped, 0);
    assert Grow(slots, 1) == slots;
    assert deduped[0] == Filled(addr, cred, 0);
  }

  /** A cred other than the seed's that sits outside slot 0 stays where it is. */
  lemma OtherCredStays(slots: seq<Entry>, addr: string, cred: Cred, now: Time, i: nat)
    requires 1 <= i < |slots| && slots[i].creds.Some? && !Holds(slots[i], cred.username)
    ensures SeedSlots(slots, 0, addr, cred, now)[i] == slots[i]
  {
  }

  /** The cred displaced from slot 0 finds a place exactly when there is room. */
  lemma DisplacedCredMoves(slots: seq<Entry>, addr: string, cred: Cred, now: Time)
    requires |slots| >= 1 && !Fresh(slots[0], now) && slots[0].creds.Some? && !Holds(slots[0], cred.username)
    requires !NoRoom(slots, cred, now)
    ensures exists k :: 1 <= k < |slots| && SeedSlots(slots, 0, addr, cred, now)[k] == slots[0]
  {
    var planted, deduped, vacant := SeedLayout(slots, addr, cred, now);
    var i :| 1 <= i < |slots| && !(slots[i].creds.Some? && !Holds(slots[i], cred.username));
    assert deduped[i].creds.None?;
    assert vacant >= 1;
    assert SeedSlots(slots, 0, addr, cred, now)[vacant] == slots[0];
  }

  lemma SeedHeld(slots: seq<Entry>, addr: string, cred: Cred, now: Time)
    requires |slots| >= 1
    ensures HeldSomewhere(slots, cred.username) || !Fresh(slots[0], now) ==>
            HeldSomewhere(SeedSlots(slots, 0, addr, cred, now), cred.username)
  {
    if !Fresh(slots[0], now) {
      var planted, deduped, vacant := SeedLayout(slots, addr, cred, now);
      assert Holds(SeedSlots(slots, 0, addr, cred, now)[0], cred.username);
    }
  }

  lemma CredSurvives(slots: seq<Entry>, addr: string, cred: Cred, now: Time, i: nat)
    requires i < |slots| && slots[i].creds.Some? && !NoRoom(slots, cred, now)
    ensures HeldSomewhere(SeedSlots(slots, 0, addr, cred, now), slots[i].creds.value.username)
  {
    var u := slots[i].creds.value.username;
    var t := SeedSlots(slots, 0, addr, cred, now);
    assert Holds(slots[i], u);
    if Fresh(slots[0], now) {
      assert t == slots;
    } else if u == cred.username {
      SeedHeld(slots, addr, cred, now);
    } else if i == 0 {
      DisplacedCredMoves(slots, addr, cred, now);
      var k :| 1 <= k < |slots| && t[k] == slots[0];
      assert Holds(t[k], u);
    } else {
      OtherCredStays(slots, addr, cred, now, i);
      assert Holds(t[i], u);
    }
  }

  lemma DisplacedCredLost(slots: seq<Entry>, addr: string, cred: Cred, now: Time)
    requires |slots| >= 1 && Distinct(slots) && NoRoom(slots, cred, now)
    ensures !HeldSomewhere(SeedSlots(slots, 0, addr, cred, now), slots[0].creds.value.username)
  {
  }

  /** Planting a seed in slot 0 of a pool of distinct creds loses none of them, unless there is no room. */
  lemma SeedLosesExactlyWithoutRoom(slots: seq<Entry>, addr: string, cred: Cred, now: Time)
    requires |slots| >= 1 && Distinct(slots)
    ensures (forall i :: 0 <= i < |slots| && slots[i].creds.Some? ==>
               HeldSomewhere(SeedSlots(slots, 0, addr, cred, now), slots[i].creds.value.username))
            <==> !NoRoom(slots, cred, now)
  {
    if NoRoom(slots, cred, now) {
      DisplacedCredLost(slots, addr, cred, now);
    } else {
      forall i: nat | i < |slots| && slots[i].creds.Some?
        ensures HeldSomewhere(SeedSlots(slots, 0, addr, cred, now), slots[i].creds.value.username)
      {
        CredSurvives(slots, addr, cred, now, i);
      }
    }
  }

  /** Seeding never puts one cred into two slots. */
  lemma SeedKeepsDistinct(slots: seq<Entry>, addr: string, cred: Cred, now: Time)
    requires |slots| >= 1 && Distinct(slots)
    ensures Distinct(SeedSlots(slots, 0, addr, cred, now))
  {
  }

  /** Seeding makes room for its slot and for no more; without a cred it leaves the slot empty. */
  lemma SeedSize(p: Pool, slot: nat, addr: string, cred: Cred, now: Time)
    ensures var n := if |p.slots| > slot then |p.slots| else slot + 1;
            |SeedSlots(p.slots, slot, addr, cred, now)| == n == |SeedNothing(p, slot, addr).slots|
    ensures var e := SeedNothing(p, slot, addr).slots[slot]; e.creds.None? && e.addr == addr && e.active == 0
  {
  }

  /** In any slot: the cred that was there moves to slot 0 if that holds none. */
  lemma DisplacedToFirstVacant(slots: seq<Entry>, slot: nat, addr: string, cred: Cred, now: Time)
    requires 1 <= slot < |slots| && !Fresh(slots[slot], now) && slots[0].creds.None?
    requires slots[slot].creds.Some? && slots[slot].creds.value.username != cred.username
    ensures var t := SeedSlots(slots, slot, addr, cred, now);
            |t| == |slots| && t[0] == slots[slot] && t[slot] == Filled(addr, cred, 0)
  {
    assert Grow(slots, slot + 1) == slots;
  }

  /** The seed is planted in slot 0, and the first conn is granted it without a fetch. */
  lemma FirstConnGetsSeed(p: Pool, addr: string, cred: Cred, now: Time, connIdx: int)
    requires WellFormed(p) && !Fresh(p.slots[0], now) && !Future(p.pauseUntil, now)
    requires Unexpired(cred, now) && connIdx < 10
    ensures var q := Seed(p, 0, addr, cred, now);
            && WellFormed(q)
            && q.slots[0].creds == Some(cred) && q.slots[0].addr == addr && q.slots[0].active == 0
            && Decide(q, connIdx, now) == Decision.Granted(0)
  {
    var planted, deduped, vacant := SeedLayout(p.slots, addr, cred, now);
    assert Acquirable(Seed(p, 0, addr, cred, now).slots[0], now);
  }

  // ---------- the restart ----------

  /** The old process saves at t0; the app's pick is an entry of that file it accepts at t1; the new
      process loads at t2 and plants the pick in slot 0 at t3. */
  ghost predicate Restarted(slots: seq<Entry>, t0: Time, pick: CacheEntry, t1: Time, dbl: string -> Option<real>,
                            size: nat, t2: Time, t3: Time)
  {
    && t0 <= t1 <= t2 <= t3 && size >= 1
    && pick in Snapshot(slots, t0).creds
    && AppAccepts(pick, t1, dbl)
  }

  function PickCred(pick: CacheEntry): Cred { Cred(pick.username, pick.password, pick.address) }

  function AfterLoad(slots: seq<Entry>, t0: Time, size: nat, t2: Time): (r: seq<Entry>)
    ensures |r| == size
  {
    Reload(Blank(size), Some(Snapshot(slots, t0)), size, t2)
  }

  function AfterRestart(slots: seq<Entry>, t0: Time, pick: CacheEntry, size: nat, t2: Time, t3: Time): seq<Entry> {
    SeedSlots(AfterLoad(slots, t0, size, t2), 0, pick.address, PickCred(pick), t3)
  }

  lemma LoadKeepsDistinct(slots: seq<Entry>, t0: Time, size: nat, t2: Time)
    requires Distinct(slots)
    ensures Distinct(AfterLoad(slots, t0, size, t2))
  {
    var r := AfterLoad(slots, t0, size, t2);
    forall i, j | 0 <= i < j < |r| && r[i].creds.Some? && r[j].creds.Some?
      ensures r[i].creds.value.username != r[j].creds.value.username
    {
      SaveLoadRoundTrip(slots, t0, size, t2, i);
      SaveLoadRoundTrip(slots, t0, size, t2, j);
    }
  }

  /** If the pick's slot exists in the new pool, that slot is where room can be made. */
  lemma PickMakesRoom(slots: seq<Entry>, t0: Time, pick: CacheEntry, size: nat, t2: Time, t3: Time)
    requires size >= 1 && pick in Snapshot(slots, t0).creds && pick.slot < size
    ensures !NoRoom(AfterLoad(slots, t0, size, t2), PickCred(pick), t3)
  {
    SavedFromSlot(slots, t0, |slots|, pick);
    SaveLoadRoundTrip(slots, t0, size, t2, pick.slot);
    var r := AfterLoad(slots, t0, size, t2)[pick.slot];
    assert r == EMPTY || Holds(r, pick.username);
  }

  /**
   Restart conservation. When the creds of the saved pool were distinct they are distinct after the
   restart, and every cred the new process loaded is still held by some slot after the seed is planted,
   provided the pick's slot exists in the new pool.
   */
  lemma RestartConserves(slots: seq<Entry>, t0: Time, pick: CacheEntry, t1: Time, dbl: string -> Option<real>,
                         size: nat, t2: Time, t3: Time)
    requires Restarted(slots, t0, pick, t1, dbl, size, t2, t3) && Distinct(slots) && pick.slot < size
    ensures Distinct(AfterRestart(slots, t0, pick, size, t2, t3))
    ensures var loaded := AfterLoad(slots, t0, size, t2);
            forall i :: 0 <= i < size && loaded[i].creds.Some? ==>
              HeldSomewhere(AfterRestart(slots, t0, pick, size, t2, t3), loaded[i].creds.value.username)
  {
    LoadKeepsDistinct(slots, t0, size, t2);
    var loaded := AfterLoad(slots, t0, size, t2);
    SeedKeepsDistinct(loaded, pick.address, PickCred(pick), t3);
    PickMakesRoom(slots, t0, pick, size, t2, t3);
    SeedLosesExactlyWithoutRoom(loaded, pick.address, PickCred(pick), t3);
  }

  /** Two slots in use and an idle one: the pool of a process with six or seven conns. */
  function TwoInUse(a: Cred, b: Cred, c: Cred): seq<Entry> { [Filled("", a, 1), Filled("", b, 1), Filled("", c, 0)] }

  function PickOfIdle(a: Cred, b: Cred, c: Cred, t: Time): CacheEntry {
    SaveEntry(2, TwoInUse(a, b, c)[2], t)
  }

  predicate ThreeCreds(a: Cred, b: Cred, c: Cred, t: Time) {
    && a.username != b.username && a.username != c.username && b.username != c.username
    && Loadable(a, t) && Loadable(b, t) && t >= SECOND
  }

  lemma ShrunkPoolLoad(a: Cred, b: Cred, c: Cred, t: Time)
    requires ThreeCreds(a, b, c, t)
    ensures var loaded := AfterLoad(TwoInUse(a, b, c), t, 2, t);
            && NoRoom(loaded, PickCred(PickOfIdle(a, b, c, t)), t)
            && Holds(loaded[0], a.username)
  {
    var slots := TwoInUse(a, b, c);
    InUseLoads(slots, t, 2, 0);
    InUseLoads(slots, t, 2, 1);
    TakenSlotsLeaveNoRoom(AfterLoad(slots, t, 2, t), a.username, b.username, c, t);
    assert PickCred(PickOfIdle(a, b, c, t)).username == c.username;
  }

  lemma TakenSlotsLeaveNoRoom(loaded: seq<Entry>, u: string, v: string, c: Cred, t: Time)
    requires |loaded| == 2 && Holds(loaded[0], u) && !Fresh(loaded[0], t) && Holds(loaded[1], v)
    requires u != c.username && v != c.username
    ensures forall seed: Cred :: seed.username == c.username ==> NoRoom(loaded, seed, t)
  {
  }

  /** A cred in use at the save is loaded, and waits. */
  lemma InUseLoads(slots: seq<Entry>, t: Time, size: nat, i: nat)
    requires i < |slots| && i < size && t >= SECOND
    requires slots[i].creds.Some? && slots[i].active > 0 && Loadable(slots[i].creds.value, t)
    ensures var e := AfterLoad(slots, t, size, t)[i];
            Holds(e, slots[i].creds.value.username) && !Fresh(e, t)
  {
    LoadedSlot(slots, t, |slots|, size, t, i);
  }

  /** The condition on the pick's slot is needed. A pool of three slots, two of them in use, is saved; a pool
      of two is started from it; the app picks the third cred; the first is loaded, then lost. */
  lemma ShrunkPoolLosesCred(a: Cred, b: Cred, c: Cred, t: Time, dbl: string -> Option<real>)
    requires ThreeCreds(a, b, c, t) && AppAccepts(PickOfIdle(a, b, c, t), t, dbl)
    ensures var slots := TwoInUse(a, b, c); var pick := PickOfIdle(a, b, c, t);
            && Restarted(slots, t, pick, t, dbl, 2, t, t) && Distinct(slots)
            && Holds(AfterLoad(slots, t, 2, t)[0], a.username)
            && !HeldSomewhere(AfterRestart(slots, t, pick, 2, t, t), a.username)
  {
    var slots := TwoInUse(a, b, c);
    var pick := PickOfIdle(a, b, c, t);
    assert pick in Snapshot(slots, t).creds;
    ShrunkPoolLoad(a, b, c, t);
    LoadKeepsDistinct(slots, t, 2, t);
    DisplacedCredLost(AfterLoad(slots, t, 2, t), pick.address, PickCred(pick), t);
  }

  function Sample(key: char): Cred { Cred("4000:" + [key], "", "") }

  /** Three creds for which it happens, in pools of the sizes the program builds for seven and five conns. */
  lemma ShrunkPoolInstance(dbl: string -> Option<real>)
    requires ReadsDecimals(dbl)
    ensures var a, b, c := Sample('a'), Sample('b'), Sample('c');
            ThreeCreds(a, b, c, SECOND) && AppAccepts(PickOfIdle(a, b, c, SECOND), SECOND, dbl)
    ensures PoolSizeForNumConns(7) == 3 && PoolSizeForNumConns(5) == 2
  {
    SampleExpiry('a');
    SampleExpiry('b');
    SampleExpiry('c');
    assert Sample('a').username[5] == 'a' && Sample('b').username[5] == 'b' && Sample('c').username[5] == 'c';
    AppChecksInNanoseconds(4000, 0, SECOND);
  }

  // ---------- no early reuse ----------

  /** The earliest instant a cred may be handed out again: ten minutes after the second of its last use. */
  function ReuseAt(use: Time): Time { use - use % 1_000_000_000 + 600_000_000_000 }

  lemma LoadedWaits(slots: seq<Entry>, t0: Time, s: nat, size: nat, t2: Time, later: Time, use: Time)
    requires s < |slots| && s < size && slots[s].creds.Some? && t2 <= later
    requires LastUse(slots[s], t0) == Some(use) && SECOND <= use
    requires Fresh(AfterLoad(slots, t0, size, t2)[s], later)
    ensures later >= ReuseAt(use)
  {
    SaveLoadRoundTrip(slots, t0, size, t2, s);
  }

  lemma PickWaited(slots: seq<Entry>, t0: Time, pick: CacheEntry, t1: Time, dbl: string -> Option<real>, use: Time)
    requires pick in Snapshot(slots, t0).creds && AppAccepts(pick, t1, dbl) && SECOND <= use <= t1
    requires 0 <= pick.slot < |slots| && LastUse(slots[pick.slot], t0) == Some(use)
    ensures t1 >= ReuseAt(use)
  {
    SavedFromSlot(slots, t0, |slots|, pick);
    AppChecksInNanoseconds(0, pick.lastUsedAt, t1);
  }

  /** Where the entry for a cred in use at the save can come from after the restart. */
  lemma RestartOrigin(slots: seq<Entry>, t0: Time, pick: CacheEntry, size: nat, t2: Time, t3: Time, s: nat, k: nat)
    requires size >= 1 && pick in Snapshot(slots, t0).creds && Distinct(slots)
    requires s < |slots| && slots[s].creds.Some? && k < size
    requires k < |AfterRestart(slots, t0, pick, size, t2, t3)|
    requires Holds(AfterRestart(slots, t0, pick, size, t2, t3)[k], slots[s].creds.value.username)
    ensures || pick.slot == s
            || (s < size && AfterRestart(slots, t0, pick, size, t2, t3)[k] == AfterLoad(slots, t0, size, t2)[s])
  {
    var loaded := AfterLoad(slots, t0, size, t2);
    var e := AfterRestart(slots, t0, pick, size, t2, t3)[k];
    SavedFromSlot(slots, t0, |slots|, pick);
    SeedOrigin(loaded, 0, pick.address, PickCred(pick), t3, k);
    if e in loaded {
      var m :| 0 <= m < size && loaded[m] == e;
      SaveLoadRoundTrip(slots, t0, size, t2, m);
    }
  }

  /**
   A cred that was last used at some instant up to the save, or carried conns at the save, is in no slot
   handed out from disk or from the seed until ten minutes after the second of that use.
   */
  lemma NoEarlyReuse(slots: seq<Entry>, t0: Time, pick: CacheEntry, t1: Time, dbl: string -> Option<real>,
                     size: nat, t2: Time, t3: Time, s: nat, k: nat, later: Time, use: Time)
    requires Restarted(slots, t0, pick, t1, dbl, size, t2, t3) && Distinct(slots)
    requires s < |slots| && slots[s].creds.Some? && LastUse(slots[s], t0) == Some(use) && SECOND <= use <= t0
    requires k < size && t3 <= later
    requires k < |AfterRestart(slots, t0, pick, size, t2, t3)|
    requires var e := AfterRestart(slots, t0, pick, size, t2, t3)[k];
             Holds(e, slots[s].creds.value.username) && Fresh(e, later)
    ensures later >= ReuseAt(use)
  {
    RestartOrigin(slots, t0, pick, size, t2, t3, s, k);
    SavedFromSlot(slots, t0, |slots|, pick);
    if pick.slot == s {
      PickWaited(slots, t0, pick, t1, dbl, use);
    } else {
      LoadedWaits(slots, t0, s, size, t2, later, use);
    }
  }

  /** And a loaded cred is handed out from then on, as long as it has its buffer. */
  lemma ReusedInTime(slots: seq<Entry>, t0: Time, s: nat, size: nat, t2: Time, later: Time, use: Time)
    requires s < |slots| && s < size && slots[s].creds.Some? && t2 <= later && Loadable(slots[s].creds.value, t2)
    requires LastUse(slots[s], t0) == Some(use) && ReuseAt(use) <= later
    ensures Fresh(AfterLoad(slots, t0, size, t2)[s], later) <==> Unexpired(slots[s].creds.value, later)
  {
    SaveLoadRoundTrip(slots, t0, size, t2, s);
  }
}
